/** Points in extended coordinates (section 5.1.4 of RFC 8032) over the limb
  arithmetic, and the swap ladder that multiplies a point by a scalar. */
module Point25519 {
  import opened Arith
  import opened Limbs
  import opened Field25519
  import opened Multiply25519

  const D2: seq<int> := [
    0xf159, 0x26b2, 0x9b94, 0xebd6, 0xb156, 0x8283, 0x149a, 0x00e0,
    0xd130, 0xeef3, 0x80f2, 0x198e, 0xfce7, 0x56df, 0xd9dc, 0x2406]

  /** The number a limb list stands for modulo P. */
  function Residue(s: seq<int>): int {
    Num(s, B) % P
  }

  /** A point as four residues. */
  datatype Coordinates = Coordinates(x: int, y: int, z: int, t: int)

  const IDENTITY: Coordinates := Coordinates(0, 1, 1, 0)

  /** The addition formulas of section 5.1.4 of RFC 8032, modulo P. */
  function AddFormula(p: Coordinates, q: Coordinates): Coordinates {
    var a := (p.y - p.x) * (q.y - q.x) % P;
    var b := (p.y + p.x) * (q.y + q.x) % P;
    var c := p.t * q.t % P * Residue(D2) % P;
    var d := 2 * (p.z * q.z % P);
    var e, f, g, h := b - a, d - c, d + c, b + a;
    Coordinates(e * f % P, h * g % P, g * f % P, e * h % P)
  }

  /** Limbs small enough that a sum or difference of two is still a factor. */
  ghost predicate Term(s: seq<int>) {
    |s| == 16 && Within(s, -0x200_0000 + 1, 0x200_0000)
  }

  lemma ProductIsTerm(s: seq<int>)
    requires Product(s)
    ensures Term(s)
  {
    forall i | 0 <= i < 16
      ensures -0x200_0000 < s[i] < 0x200_0000
    {
      assert i > 0 ==> s[i] == s[1..][i - 1];
    }
  }

  method Sum(a: array<int>, b: array<int>) returns (o: array<int>)
    requires a.Length == b.Length == 16 && Term(a[..]) && Term(b[..])
    ensures fresh(o) && o.Length == 16 && Factor(o[..])
    ensures Num(o[..], B) == Num(a[..], B) + Num(b[..], B)
    ensures Product(a[..]) && Product(b[..]) ==> Term(o[..])
  {
    o := new int[16];
    for i := 0 to 16
      invariant forall k :: 0 <= k < i ==> o[k] == a[k] + b[k]
    {
      assert Int64(a[i] + b[i]);
      o[i] := a[i] + b[i];
    }
    NumAddScaled(a[..], b[..], 1, o[..]);
    if Product(a[..]) && Product(b[..]) {
      SumIsTerm(a[..], b[..], o[..]);
    }
  }

  lemma SumIsTerm(a: seq<int>, b: seq<int>, o: seq<int>)
    requires Product(a) && Product(b) && |o| == 16 && forall k :: 0 <= k < 16 ==> o[k] == a[k] + b[k]
    ensures Term(o)
  {
    forall i | 0 <= i < 16
      ensures -0x200_0000 < o[i] < 0x200_0000
    {
      assert i > 0 ==> a[i] == a[1..][i - 1] && b[i] == b[1..][i - 1];
    }
  }

  method Difference(a: array<int>, b: array<int>) returns (o: array<int>)
    requires a.Length == b.Length == 16 && Term(a[..]) && Term(b[..])
    ensures fresh(o) && o.Length == 16 && Factor(o[..])
    ensures Num(o[..], B) == Num(a[..], B) - Num(b[..], B)
  {
    o := new int[16];
    for i := 0 to 16
      invariant forall k :: 0 <= k < i ==> o[k] == a[k] - b[k]
    {
      assert Int64(a[i] - b[i]);
      o[i] := a[i] - b[i];
    }
    NumAddScaled(a[..], b[..], -1, o[..]);
  }

  method Times(a: array<int>, b: array<int>) returns (o: array<int>)
    requires a.Length == b.Length == 16 && Factor(a[..]) && Factor(b[..])
    ensures fresh(o) && o.Length == 16 && Product(o[..]) && Term(o[..]) && Factor(o[..])
    ensures Residue(o[..]) == Num(a[..], B) * Num(b[..], B) % P
  {
    o := new int[16];
    Multiply(o, a, b);
    ProductIsTerm(o[..]);
    ProductIsFactor(o[..]);
  }

  class Point {
    const x: array<int>
    const y: array<int>
    const z: array<int>
    const t: array<int>

    ghost predicate Shape() {
      x.Length == y.Length == z.Length == t.Length == 16 && x != y && x != z && x != t && y != z && y != t && z != t
    }

    ghost function Repr(): set<object> {
      {x, y, z, t}
    }

    /** Coordinates in the range additions need. */
    ghost predicate Valid()
      reads Repr()
    {
      Shape() && Term(x[..]) && Term(y[..]) && Term(z[..]) && Term(t[..])
    }

    ghost function Value(): Coordinates
      reads Repr()
    {
      Coordinates(Residue(x[..]), Residue(y[..]), Residue(z[..]), Residue(t[..]))
    }
  }

  // ---- residues of the formulas' parts ----

  lemma SumProduct(a: int, b: int, c: int, d: int)
    ensures (a + b) * (c + d) % P == (a % P + b % P) * (c % P + d % P) % P
    ensures (a - b) * (c - d) % P == (a % P - b % P) * (c % P - d % P) % P
  {
    Modulus();
    Reduced(a);
    Reduced(b);
    Reduced(c);
    Reduced(d);
    hide P;
    CongruentAdd(a, a % P, b, b % P, P);
    CongruentAdd(c, c % P, d, d % P, P);
    CongruentMul(a + b, a % P + b % P, c + d, c % P + d % P, P);
    CongruentMul(a - b, a % P - b % P, c - d, c % P - d % P, P);
  }

  lemma ResidueProduct(a: int, b: int)
    ensures a * b % P == (a % P) * (b % P) % P
  {
    Modulus();
    Reduced(a);
    Reduced(b);
    CongruentMul(a, a % P, b, b % P, P);
  }

  lemma Reduced(a: int)
    ensures P > 0 && Congruent(a, a % P, P)
  {
    Modulus();
    DivUnique(a % P, P, 0, a % P);
  }

  /** The four products the formulas start from. */
  method Products(p: Point, q: Point) returns (a: array<int>, b: array<int>, c: array<int>, d: array<int>)
    requires p.Valid() && q.Valid()
    ensures fresh(a) && fresh(b) && fresh(c) && fresh(d)
    ensures a.Length == b.Length == c.Length == d.Length == 16
    ensures Product(a[..]) && Product(b[..]) && Product(c[..]) && Product(d[..])
    ensures Residue(a[..]) == (p.Value().y - p.Value().x) * (q.Value().y - q.Value().x) % P
    ensures Residue(b[..]) == (p.Value().y + p.Value().x) * (q.Value().y + q.Value().x) % P
    ensures Residue(c[..]) == p.Value().t * q.Value().t % P * Residue(D2) % P
    ensures Residue(d[..]) == p.Value().z * q.Value().z % P
  {
    hide Num;
    a := DifferenceProduct(p.x, p.y, q.x, q.y);
    b := SumProductOf(p.x, p.y, q.x, q.y);
    c := ScaledProduct(p.t, q.t);
    TermIsFactor(p.z[..]);
    TermIsFactor(q.z[..]);
    d := Times(p.z, q.z);
    ResidueProduct(Num(p.z[..], B), Num(q.z[..], B));
  }

  lemma TermIsFactor(s: seq<int>)
    requires Term(s)
    ensures Factor(s)
  {
  }

  method DifferenceProduct(px: array<int>, py: array<int>, qx: array<int>, qy: array<int>) returns (a: array<int>)
    requires px.Length == py.Length == qx.Length == qy.Length == 16
    requires Term(px[..]) && Term(py[..]) && Term(qx[..]) && Term(qy[..])
    ensures fresh(a) && a.Length == 16 && Product(a[..])
    ensures Residue(a[..]) == (Residue(py[..]) - Residue(px[..])) * (Residue(qy[..]) - Residue(qx[..])) % P
  {
    hide Num;
    a := Difference(py, px);
    var t := Difference(qy, qx);
    a := Times(a, t);
    SumProduct(Num(py[..], B), Num(px[..], B), Num(qy[..], B), Num(qx[..], B));
  }

  method SumProductOf(px: array<int>, py: array<int>, qx: array<int>, qy: array<int>) returns (b: array<int>)
    requires px.Length == py.Length == qx.Length == qy.Length == 16
    requires Term(px[..]) && Term(py[..]) && Term(qx[..]) && Term(qy[..])
    ensures fresh(b) && b.Length == 16 && Product(b[..])
    ensures Residue(b[..]) == (Residue(py[..]) + Residue(px[..])) * (Residue(qy[..]) + Residue(qx[..])) % P
  {
    hide Num;
    b := Sum(py, px);
    var t := Sum(qy, qx);
    b := Times(b, t);
    SumProduct(Num(py[..], B), Num(px[..], B), Num(qy[..], B), Num(qx[..], B));
  }

  method ScaledProduct(pt: array<int>, qt: array<int>) returns (c: array<int>)
    requires pt.Length == qt.Length == 16 && Term(pt[..]) && Term(qt[..])
    ensures fresh(c) && c.Length == 16 && Product(c[..])
    ensures Residue(c[..]) == Residue(pt[..]) * Residue(qt[..]) % P * Residue(D2) % P
  {
    hide Num;
    TermIsFactor(pt[..]);
    TermIsFactor(qt[..]);
    c := Times(pt, qt);
    ResidueProduct(Num(pt[..], B), Num(qt[..], B));
    var d2 := new int[16](i requires 0 <= i < 16 => D2[i]);
    assert d2[..] == D2;
    ghost var n := Num(c[..], B);
    c := Times(c, d2);
    ResidueProduct(n, Num(D2, B));
  }

  /** ed_add: p becomes the sum of p and q by the RFC's formulas; q may be p. */
  method Add(p: Point, q: Point)
    requires p.Valid() && q.Valid() && (p == q || p.Repr() !! q.Repr())
    modifies p.Repr()
    ensures p.Valid() && q.Valid()
    ensures p.Value() == AddFormula(old(p.Value()), old(q.Value()))
    ensures p != q ==> q.Value() == old(q.Value())
  {
    hide Num, Residue;
    ghost var u, v := p.Value(), q.Value();
    var a, b, c, d := Products(p, q);
    Finish(p, a, b, c, d);
  }

  /** The second half of the formulas, written over p. */
  method Finish(p: Point, a: array<int>, b: array<int>, c: array<int>, d: array<int>)
    requires p.Shape() && a.Length == b.Length == c.Length == d.Length == 16
    requires Product(a[..]) && Product(b[..]) && Product(c[..]) && Product(d[..])
    requires a !in p.Repr() && b !in p.Repr() && c !in p.Repr() && d !in p.Repr()
    modifies p.Repr()
    ensures p.Valid()
    ensures var ra, rb, rc, rd := Residue(a[..]), Residue(b[..]), Residue(c[..]), 2 * Residue(d[..]);
            p.Value() == Coordinates((rb - ra) * (rd - rc) % P, (rb + ra) * (rd + rc) % P,
                                     (rd + rc) * (rd - rc) % P, (rb - ra) * (rb + ra) % P)
  {
    hide Num;
    ProductIsTerm(a[..]);
    ProductIsTerm(b[..]);
    ProductIsTerm(c[..]);
    ProductIsTerm(d[..]);
    var dd := Sum(d, d);
    var e := Difference(b, a);
    var f := Difference(dd, c);
    var g := Sum(dd, c);
    var h := Sum(b, a);
    FormulaResidues(Num(a[..], B), Num(b[..], B), Num(c[..], B), Num(d[..], B));
    Multiply(p.x, e, f);
    Multiply(p.y, h, g);
    Multiply(p.z, g, f);
    Multiply(p.t, e, h);
    ProductIsTerm(p.x[..]);
    ProductIsTerm(p.y[..]);
    ProductIsTerm(p.z[..]);
    ProductIsTerm(p.t[..]);
  }

  lemma FormulaResidues(a: int, b: int, c: int, d: int)
    ensures (b - a) * (d + d - c) % P == (b % P - a % P) * (2 * (d % P) - c % P) % P
    ensures (b + a) * (d + d + c) % P == (b % P + a % P) * (2 * (d % P) + c % P) % P
    ensures (d + d + c) * (d + d - c) % P == (2 * (d % P) + c % P) * (2 * (d % P) - c % P) % P
    ensures (b - a) * (b + a) % P == (b % P - a % P) * (b % P + a % P) % P
  {
    Reduced(a);
    Reduced(b);
    Reduced(c);
    Reduced(d);
    hide P;
    CongruentAdd(b, b % P, a, a % P, P);
    CongruentAdd(d, d % P, d, d % P, P);
    CongruentAdd(d + d, 2 * (d % P), c, c % P, P);
    CongruentMul(b - a, b % P - a % P, d + d - c, 2 * (d % P) - c % P, P);
    CongruentMul(b + a, b % P + a % P, d + d + c, 2 * (d % P) + c % P, P);
    CongruentMul(d + d + c, 2 * (d % P) + c % P, d + d - c, 2 * (d % P) - c % P, P);
    CongruentMul(b - a, b % P - a % P, b + a, b % P + a % P, P);
  }
}
