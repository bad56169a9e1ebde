/** The addition formulas against the curve they are for: the twisted Edwards curve
  -x^2 + y^2 = 1 + d x^2 y^2 of section 5.1 of RFC 8032, with d = -121665/121666. */
module Edwards25519 {
  import opened Arith
  import opened Limbs
  import opened Field25519
  import opened Point25519

  const D: int := 37095705934669439343138083508754565189542113879843219016388785533085940283555

  ghost predicate Eq(a: int, b: int) {
    a % P == b % P
  }

  lemma EqMul(a: int, a': int, b: int, b': int)
    requires Eq(a, a') && Eq(b, b')
    ensures Eq(a * b, a' * b')
  {
    Modulus();
    CongruentMul(a, a', b, b', P);
  }

  lemma EqAdd(a: int, a': int, b: int, b': int)
    requires Eq(a, a') && Eq(b, b')
    ensures Eq(a + b, a' + b') && Eq(a - b, a' - b')
  {
    Modulus();
    CongruentAdd(a, a', b, b', P);
  }

  lemma EqMod(a: int)
    ensures Eq(a % P, a)
  {
    Modulus();
    DivUnique(a % P, P, 0, a % P);
  }

  // ---- the constant ----

  /** The limbs' constant is twice d, and d is -121665/121666. */
  lemma TwiceD()
    ensures Eq(D * 121666, -121665) && Eq(Num(D2, B), 2 * D)
  {
    D2Number();
    CongruentBy(D * 121666, -121665, 77955, P);
    CongruentBy(2 * D, Num(D2, B), 1, P);
  }

  lemma D2Number()
    ensures Num(D2, B) == 16295367250680780974490674513165176452449235426866156013048779062215315747161
  {
    var low, high := D2[..8], D2[8..];
    assert low == [0xf159, 0x26b2, 0x9b94, 0xebd6, 0xb156, 0x8283, 0x149a, 0x00e0];
    assert high == [0xd130, 0xeef3, 0x80f2, 0x198e, 0xfce7, 0x56df, 0xd9dc, 0x2406];
    assert D2 == low + high;
    Eight(0xf159, 0x26b2, 0x9b94, 0xebd6, 0xb156, 0x8283, 0x149a, 0x00e0);
    Eight(0xd130, 0xeef3, 0x80f2, 0x198e, 0xfce7, 0x56df, 0xd9dc, 0x2406);
    NumConcat(low, high, B);
    assert Pow(B, 8) == 340282366920938463463374607431768211456 by {
      assert Pow(B, 1) == B * Pow(B, 0);
      PowAdd(B, 1, 1);
      PowAdd(B, 2, 2);
      PowAdd(B, 4, 4);
    }
  }

  lemma Eight(a: int, b: int, c: int, d: int, e: int, f: int, g: int, h: int)
    ensures Num([a, b, c, d, e, f, g, h], B) == a + B * (b + B * (c + B * (d + B * (e + B * (f + B * (g + B * h))))))
  {
    assert [h][1..] == [] && [g, h][1..] == [h] && [f, g, h][1..] == [g, h] && [e, f, g, h][1..] == [f, g, h];
    assert [d, e, f, g, h][1..] == [e, f, g, h] && [c, d, e, f, g, h][1..] == [d, e, f, g, h];
    assert [b, c, d, e, f, g, h][1..] == [c, d, e, f, g, h] && [a, b, c, d, e, f, g, h][1..] == [b, c, d, e, f, g, h];
    assert Num([h], B) == h;
    assert Num([g, h], B) == g + B * Num([h], B);
    assert Num([f, g, h], B) == f + B * Num([g, h], B);
    assert Num([e, f, g, h], B) == e + B * Num([f, g, h], B);
    assert Num([d, e, f, g, h], B) == d + B * Num([e, f, g, h], B);
    assert Num([c, d, e, f, g, h], B) == c + B * Num([d, e, f, g, h], B);
    assert Num([b, c, d, e, f, g, h], B) == b + B * Num([c, d, e, f, g, h], B);
  }

  // ---- the formulas ----

  /** The sum's coordinates are the products of these four. */
  ghost predicate Factors(p: Coordinates, q: Coordinates, e: int, f: int, g: int, h: int) {
    && Eq(e, 2 * (p.x * q.y + q.x * p.y)) && Eq(h, 2 * (p.y * q.y + p.x * q.x))
    && Eq(f, 2 * (p.z * q.z - D * (p.t * q.t))) && Eq(g, 2 * (p.z * q.z + D * (p.t * q.t)))
  }

  /** The four products the formulas start from. */
  function Less(p: Coordinates, q: Coordinates): int { (p.y - p.x) * (q.y - q.x) }
  function More(p: Coordinates, q: Coordinates): int { (p.y + p.x) * (q.y + q.x) }
  function Scaled(t: int): int { t % P * Residue(D2) % P }

  lemma FormulaShape(p: Coordinates, q: Coordinates)
    ensures var a, b, c, z := Less(p, q) % P, More(p, q) % P, Scaled(p.t * q.t), 2 * (p.z * q.z % P);
            AddFormula(p, q) == Coordinates((b - a) * (z - c) % P, (b + a) * (z + c) % P, (z + c) * (z - c) % P, (b - a) * (b + a) % P)
  {
    hide P, Residue;
  }

  lemma FormulaFactors(p: Coordinates, q: Coordinates) returns (e: int, f: int, g: int, h: int)
    ensures Factors(p, q, e, f, g, h)
    ensures AddFormula(p, q) == Coordinates(e * f % P, h * g % P, g * f % P, e * h % P)
  {
    hide P, D, AddFormula, Less, More, Scaled;
    Modulus();
    var a, b := Less(p, q), More(p, q);
    var c, z := Scaled(p.t * q.t), p.z * q.z;
    e, f, g, h := b % P - a % P, 2 * (z % P) - c, 2 * (z % P) + c, b % P + a % P;
    FormulaShape(p, q);
    CrossProducts(p, q);
    ScaledBy(p.t * q.t);
    FactorParts(a, b, c, z, D * (p.t * q.t));
  }

  lemma FactorParts(a: int, b: int, c: int, z: int, k: int)
    requires Eq(c, 2 * k)
    ensures P > 0 && Eq(b % P - a % P, b - a) && Eq(b % P + a % P, b + a)
    ensures Eq(2 * (z % P) - c, 2 * (z - k)) && Eq(2 * (z % P) + c, 2 * (z + k))
  {
    Modulus();
    hide P;
    EqMod(a);
    EqMod(b);
    EqMod(z);
    EqAdd(b % P, b, a % P, a);
    EqMul(2, 2, z % P, z);
    EqAdd(2 * (z % P), 2 * z, c, 2 * k);
  }

  lemma CrossProducts(p: Coordinates, q: Coordinates)
    ensures More(p, q) - Less(p, q) == 2 * (p.x * q.y + q.x * p.y) && More(p, q) + Less(p, q) == 2 * (p.y * q.y + p.x * q.x)
  {
  }

  lemma ScaledBy(t: int)
    ensures Eq(Scaled(t), 2 * (D * t))
  {
    Modulus();
    hide P, D, Num;
    TwiceD();
    var n := Num(D2, B);
    EqMod(t);
    EqMod(n);
    EqMul(t % P, t, n % P, n);
    EqMod(t % P * (n % P));
    EqMul(t, t, n, 2 * D);
    MulAssociates(2, D, t);
    MulDistributes(t, 2 * D, 0);
  }

  /** In extended coordinates: the addition law with its denominators multiplied out,
    for any two points. */
  lemma AddProjective(p: Coordinates, q: Coordinates)
    ensures var r, k := AddFormula(p, q), D * (p.t * q.t);
            && Eq(r.x * (p.z * q.z + k), r.z * (p.x * q.y + q.x * p.y))
            && Eq(r.y * (p.z * q.z - k), r.z * (p.y * q.y + p.x * q.x))
            && Eq(r.x * r.y, r.z * r.t)
  {
    hide P, AddFormula;
    var e, f, g, h := FormulaFactors(p, q);
    var r, k := AddFormula(p, q), D * (p.t * q.t);
    EqMod(e * f);
    EqMod(h * g);
    EqMod(g * f);
    EqMod(e * h);
    EqMul(r.x, e * f, 2 * (p.z * q.z + k), g);
    EqMul(r.z, g * f, 2 * (p.x * q.y + q.x * p.y), e);
    EqMul(r.y, h * g, 2 * (p.z * q.z - k), f);
    EqMul(r.z, g * f, 2 * (p.y * q.y + p.x * q.x), h);
    EqMul(r.x, e * f, r.y, h * g);
    EqMul(r.z, g * f, r.t, e * h);
    Rearranged(e, f, g, h);
    Halved(r.x, p.z * q.z + k, r.z, p.x * q.y + q.x * p.y);
    Halved(r.y, p.z * q.z - k, r.z, p.y * q.y + p.x * q.x);
  }

  lemma Halved(a: int, b: int, c: int, d: int)
    requires Eq(a * (2 * b), c * (2 * d))
    ensures Eq(a * b, c * d)
  {
    var u := (P + 1) / 2;
    Half(a * b);
    Half(c * d);
    hide P;
    EqMul(u, u, a * (2 * b), c * (2 * d));
    assert a * (2 * b) == 2 * (a * b) && c * (2 * d) == 2 * (c * d);
  }

  lemma Half(x: int)
    ensures Eq((P + 1) / 2 * (2 * x), x)
  {
    Modulus();
    var u := (P + 1) / 2;
    assert 2 * u == P + 1;
    MulAssociates(u, 2, x);
    CongruentBy(u * (2 * x), x, x, P);
  }

  lemma Rearranged(e: int, f: int, g: int, h: int)
    ensures e * f * g == g * f * e && h * g * f == g * f * h && (e * f) * (h * g) == (g * f) * (e * h)
  {
    var ef, hg := e * f, h * g;
    assert ef * g == g * f * e && hg * f == g * f * h;
    assert ef * hg == (ef * h) * g == (e * h) * (f * g);
  }

  // ---- affine points ----

  ghost predicate Inverse(a: int, u: int) {
    Eq(a * u, 1)
  }

  ghost predicate Unit(a: int) {
    exists u :: Inverse(a, u)
  }

  lemma UnitTimes(a: int, b: int)
    requires Unit(a) && Unit(b)
    ensures Unit(a * b)
  {
    hide P;
    var u :| Inverse(a, u);
    var v :| Inverse(b, v);
    EqMul(a * u, 1, b * v, 1);
    assert (a * u) * (b * v) == (a * b) * (u * v) by { Crossed(a, u, b, v); }
    assert Inverse(a * b, u * v);
  }

  lemma UnitSame(a: int, b: int)
    requires Unit(a) && Eq(b, a)
    ensures Unit(b)
  {
    hide P;
    var u :| Inverse(a, u);
    EqMul(b, a, u, u);
    assert Inverse(b, u);
  }

  /** The coordinates stand for the affine point (x, y). */
  ghost predicate Stands(p: Coordinates, x: int, y: int) {
    Unit(p.z) && Eq(p.x, x * p.z) && Eq(p.y, y * p.z) && Eq(p.t, (x * y) * p.z)
  }

  /** (x, y) is the sum of (x1, y1) and (x2, y2) by the law of section 5.1.4 of
    RFC 8032: x (1 + d x1 x2 y1 y2) = x1 y2 + x2 y1, y (1 - d x1 x2 y1 y2) = y1 y2 +
    x1 x2, with denominators that have inverses. */
  ghost predicate IsSum(x1: int, y1: int, x2: int, y2: int, x: int, y: int) {
    var k := D * ((x1 * y1) * (x2 * y2));
    Unit(1 + k) && Unit(1 - k) && Eq(x * (1 + k), x1 * y2 + x2 * y1) && Eq(y * (1 - k), y1 * y2 + x1 * x2)
  }

  /** Each factor is the affine one times 2 z1 z2. */
  lemma AffineFactors(p: Coordinates, q: Coordinates, x1: int, y1: int, x2: int, y2: int, e: int, f: int, g: int, h: int)
    requires Stands(p, x1, y1) && Stands(q, x2, y2) && Factors(p, q, e, f, g, h)
    ensures var k, w := D * ((x1 * y1) * (x2 * y2)), 2 * (p.z * q.z);
            && Eq(e, w * (x1 * y2 + x2 * y1)) && Eq(h, w * (y1 * y2 + x1 * x2))
            && Eq(f, w * (1 - k)) && Eq(g, w * (1 + k))
  {
    hide P, D;
    var z, zz := p.z, q.z;
    ScaledProduct(p.x, q.y, x1, y2, z, zz);
    ScaledProduct(q.x, p.y, x2, y1, zz, z);
    ScaledProduct(p.y, q.y, y1, y2, z, zz);
    ScaledProduct(p.x, q.x, x1, x2, z, zz);
    ScaledProduct(p.t, q.t, x1 * y1, x2 * y2, z, zz);
    MulDistributes(z, zz, 0);
    Gathered(p.x * q.y, q.x * p.y, x1 * y2, x2 * y1, z * zz);
    Gathered(p.y * q.y, p.x * q.x, y1 * y2, x1 * x2, z * zz);
    Offset(p.t * q.t, (x1 * y1) * (x2 * y2), z * zz);
  }

  lemma ScaledProduct(a: int, b: int, x: int, y: int, z: int, w: int)
    requires Eq(a, x * z) && Eq(b, y * w)
    ensures Eq(a * b, (x * y) * (z * w))
  {
    hide P;
    EqMul(a, x * z, b, y * w);
    Crossed(x, z, y, w);
  }

  lemma Crossed(x: int, z: int, y: int, w: int)
    ensures (x * z) * (y * w) == (x * y) * (z * w)
  {
    MulAssociates(x * z, y, w);
    MulAssociates(x, z, y);
    MulAssociates(x, y, z);
    MulDistributes(z, y, 0);
    MulAssociates(x * y, z, w);
  }

  lemma Gathered(a: int, b: int, x: int, y: int, z: int)
    requires Eq(a, x * z) && Eq(b, y * z)
    ensures Eq(2 * (a + b), (2 * z) * (x + y))
  {
    hide P;
    EqAdd(a, x * z, b, y * z);
    EqMul(2, 2, a + b, x * z + y * z);
    assert 2 * (x * z + y * z) == (2 * z) * (x + y);
  }

  lemma Offset(t: int, s: int, z: int)
    requires Eq(t, s * z)
    ensures Eq(2 * (z - D * t), (2 * z) * (1 - D * s)) && Eq(2 * (z + D * t), (2 * z) * (1 + D * s))
  {
    hide P, D;
    EqMul(D, D, t, s * z);
    EqAdd(z, z, D * t, D * (s * z));
    EqMul(2, 2, z - D * t, z - D * (s * z));
    EqMul(2, 2, z + D * t, z + D * (s * z));
    MulAssociates(D, s, z);
    var k := D * s;
    assert 2 * (z - k * z) == (2 * z) * (1 - k) && 2 * (z + k * z) == (2 * z) * (1 + k);
  }

  /** The sum by the formulas stands for the sum by the curve's law. */
  lemma AddIsSum(p: Coordinates, q: Coordinates, x1: int, y1: int, x2: int, y2: int, x: int, y: int)
    requires Stands(p, x1, y1) && Stands(q, x2, y2) && IsSum(x1, y1, x2, y2, x, y)
    ensures Stands(AddFormula(p, q), x, y)
  {
    hide P, D, AddFormula;
    var e, f, g, h := FormulaFactors(p, q);
    AffineFactors(p, q, x1, y1, x2, y2, e, f, g, h);
    var r, k, w := AddFormula(p, q), D * ((x1 * y1) * (x2 * y2)), 2 * (p.z * q.z);
    EqMod(e * f);
    EqMod(h * g);
    EqMod(g * f);
    EqMod(e * h);
    SumFactors(e, f, g, h, w, x1 * y2 + x2 * y1, y1 * y2 + x1 * x2, k, x, y);
    EqMul(x, x, r.z, g * f);
    EqMul(y, y, r.z, g * f);
    EqMul(x * y, x * y, r.z, g * f);
    UnitTimes(p.z, q.z);
    Two();
    UnitTimes(2, p.z * q.z);
    UnitTimes(w, 1 + k);
    UnitTimes(w, 1 - k);
    UnitSame(w * (1 + k), g);
    UnitSame(w * (1 - k), f);
    UnitTimes(g, f);
    UnitSame(g * f, r.z);
  }

  lemma Two()
    ensures Unit(2)
  {
    var u := (P + 1) / 2;
    CongruentBy(2 * u, 1, 1, P);
    assert Inverse(2, u);
  }

  lemma SumFactors(e: int, f: int, g: int, h: int, w: int, s: int, t: int, k: int, x: int, y: int)
    requires Eq(e, w * s) && Eq(h, w * t) && Eq(f, w * (1 - k)) && Eq(g, w * (1 + k))
    requires Eq(x * (1 + k), s) && Eq(y * (1 - k), t)
    ensures Eq(e * f, x * (g * f)) && Eq(h * g, y * (g * f)) && Eq(e * h, (x * y) * (g * f))
  {
    hide P;
    Multiple(x, g, w, 1 + k, s, e);
    Multiple(y, f, w, 1 - k, t, h);
    EqMul(e, x * g, f, f);
    EqMul(h, y * f, g, g);
    EqMul(e, x * g, h, y * f);
    assert (x * g) * f == x * (g * f) by { MulAssociates(x, g, f); }
    assert (y * f) * g == y * (g * f) by { MulAssociates(y, f, g); MulDistributes(f, g, 0); }
    Crossed(x, g, y, f);
  }

  lemma Multiple(x: int, g: int, w: int, n: int, s: int, e: int)
    requires Eq(g, w * n) && Eq(x * n, s) && Eq(e, w * s)
    ensures Eq(e, x * g)
  {
    hide P;
    EqMul(x, x, g, w * n);
    EqMul(w, w, x * n, s);
    MulAssociates(x, w, n);
    MulAssociates(w, x, n);
    MulDistributes(x, w, 0);
  }

  /** The ladder's start stands for the neutral point (0, 1). */
  lemma IdentityStands()
    ensures Stands(IDENTITY, 0, 1)
  {
    assert Inverse(1, 1);
  }

  /** And (0, 1) is neutral in the law. */
  lemma NeutralSum(x: int, y: int)
    ensures IsSum(0, 1, x, y, x, y)
  {
    hide P;
    assert Inverse(1, 1);
    assert D * ((0 * 1) * (x * y)) == 0;
  }

  // ---- closure ----

  ghost predicate OnCurve(x: int, y: int) {
    Eq(y * y - x * x, 1 + D * ((x * x) * (y * y)))
  }

  /** The law's equation for the squares, in the terms s = x1^2 y2^2 + x2^2 y1^2,
    t = y1^2 y2^2 + x1^2 x2^2, m = x1 x2 y1 y2 and a_i = x_i^2 y_i^2. */
  lemma Closure(d: int, s: int, t: int, m: int, a: int, b: int)
    requires a * b == m * m
    requires Eq(t - s, (1 + d * a) * (1 + d * b))
    requires Eq(s * t, a * ((1 + d * b) * (1 + d * b) + 2 * b) + b * ((1 + d * a) * (1 + d * a) + 2 * a))
    ensures var k := d * m;
            Eq((t + 2 * m) * ((1 + k) * (1 + k)) - (s + 2 * m) * ((1 - k) * (1 - k)),
               ((1 + k) * (1 + k)) * ((1 - k) * (1 - k)) + d * ((s + 2 * m) * (t + 2 * m)))
  {
    hide P;
    var k, n := d * m, d * a + d * b;
    var kk := k * k;
    SquareOfK(d, m, a, b);
    ClosureLeft(d, s, t, m);
    ClosureRight(d, a, b, n, kk);
    EqMul(t - s, (1 + d * a) * (1 + d * b), 1 + kk, 1 + kk);
    EqMul(d, d, s * t, a * ((1 + d * b) * (1 + d * b) + 2 * b) + b * ((1 + d * a) * (1 + d * a) + 2 * a));
    var left, right := (t - s) * (1 + kk) + 4 * (k * m), (1 - kk) * (1 - kk) + d * (s * t);
    EqAdd((t - s) * (1 + kk), (1 + n + kk) * (1 + kk), 4 * (k * m), 4 * (k * m));
    EqAdd((1 - kk) * (1 - kk), (1 - kk) * (1 - kk), d * (s * t), n + 4 * kk + kk * n + 4 * (d * (a * b)));
    assert d * (a * b) == k * m by { MulAssociates(d, m, m); }
    assert (1 + n + kk) * (1 + kk) == (1 - kk) * (1 - kk) + n + 4 * kk + kk * n by { Expanded(n, kk); }
    EqAdd(left, right, 4 * (k * m) + 2 * k * (s + t), 4 * (k * m) + 2 * k * (s + t));
  }

  lemma Expanded(n: int, q: int)
    ensures (1 + n + q) * (1 + q) == (1 - q) * (1 - q) + n + 4 * q + q * n
  {
  }

  lemma SquareOfK(d: int, m: int, a: int, b: int)
    requires a * b == m * m
    ensures (d * a) * (d * b) == (d * m) * (d * m)
    ensures (1 + d * a) * (1 + d * b) == 1 + (d * a + d * b) + (d * m) * (d * m)
  {
    Crossed(d, a, d, b);
    Crossed(d, m, d, m);
  }

  /** What the two sides have beyond their common part. */
  lemma ClosureLeft(d: int, s: int, t: int, m: int)
    ensures var k := d * m; var kk := k * k;
            && (t + 2 * m) * ((1 + k) * (1 + k)) - (s + 2 * m) * ((1 - k) * (1 - k))
               == (t - s) * (1 + kk) + 4 * (k * m) + (4 * (k * m) + 2 * k * (s + t))
            && ((1 + k) * (1 + k)) * ((1 - k) * (1 - k)) + d * ((s + 2 * m) * (t + 2 * m))
               == (1 - kk) * (1 - kk) + d * (s * t) + (4 * (k * m) + 2 * k * (s + t))
  {
    var k := d * m;
    var kk := k * k;
    SquaresAround(k);
    LeftTerms(s, t, m, k, kk);
    RightTerms(d, s, t, m);
    Crossed(1 + k, 1 + k, 1 - k, 1 - k);
  }

  lemma RightTerms(d: int, s: int, t: int, m: int)
    ensures d * ((s + 2 * m) * (t + 2 * m)) == d * (s * t) + (4 * ((d * m) * m) + 2 * (d * m) * (s + t))
  {
    var k := d * m;
    assert (s + 2 * m) * (t + 2 * m) == s * t + 2 * (m * (s + t)) + 4 * (m * m) by { Opened(s, t, m); }
    MulDistributes(d, s * t, 2 * (m * (s + t)) + 4 * (m * m));
    MulDistributes(d, 2 * (m * (s + t)), 4 * (m * m));
    MulAssociates(d, m, s + t);
    MulAssociates(d, m, m);
    MulAssociates(2, k, s + t);
    Twice(d, m * (s + t), m * m);
  }

  lemma Opened(s: int, t: int, m: int)
    ensures (s + 2 * m) * (t + 2 * m) == s * t + 2 * (m * (s + t)) + 4 * (m * m)
  {
  }

  lemma Twice(d: int, a: int, b: int)
    ensures d * (2 * a) == 2 * (d * a) && d * (4 * b) == 4 * (d * b)
  {
  }

  lemma SquaresAround(k: int)
    ensures (1 + k) * (1 + k) == 1 + k * k + 2 * k && (1 - k) * (1 - k) == 1 + k * k - 2 * k && (1 + k) * (1 - k) == 1 - k * k
  {
  }

  lemma LeftTerms(s: int, t: int, m: int, k: int, kk: int)
    ensures (t + 2 * m) * (1 + kk + 2 * k) - (s + 2 * m) * (1 + kk - 2 * k) == (t - s) * (1 + kk) + 8 * (k * m) + 2 * k * (s + t)
  {
    MulDistributes(t + 2 * m, 1 + kk, 2 * k);
    MulDistributes(s + 2 * m, 1 + kk, -2 * k);
    assert (t + 2 * m) * (1 + kk) - (s + 2 * m) * (1 + kk) == (t - s) * (1 + kk);
    assert (t + 2 * m) * (2 * k) + (s + 2 * m) * (2 * k) == 8 * (k * m) + 2 * k * (s + t);
  }

  lemma ClosureRight(d: int, a: int, b: int, n: int, kk: int)
    requires n == d * a + d * b && kk == (d * a) * (d * b)
    ensures d * (a * ((1 + d * b) * (1 + d * b) + 2 * b) + b * ((1 + d * a) * (1 + d * a) + 2 * a)) == n + 4 * kk + kk * n + 4 * (d * (a * b))
  {
    HalfRight(d, a, b);
    HalfRight(d, b, a);
    MulDistributes(a, b, 0);
    Combined(d * a, d * b, n, kk);
    MulDistributes(d, a * ((1 + d * b) * (1 + d * b) + 2 * b), b * ((1 + d * a) * (1 + d * a) + 2 * a));
  }

  lemma Combined(u: int, v: int, n: int, kk: int)
    requires n == u + v && kk == u * v
    ensures (u * v) * v + (v * u) * u == kk * n
  {
  }

  lemma HalfRight(d: int, a: int, b: int)
    ensures var u, v := d * a, d * b;
            d * (a * ((1 + v) * (1 + v) + 2 * b)) == u + (u * v) * v + 2 * (u * v) + 2 * (d * (a * b))
  {
    var u, v := d * a, d * b;
    SquaresAround(v);
    MulAssociates(d, a, b);
    MulAssociates(d, a, 1 + v * v + 2 * v + 2 * b);
    hide *;
    Spread(u, v, b);
  }

  lemma Spread(u: int, v: int, b: int)
    ensures u * (1 + v * v + 2 * v + 2 * b) == u + (u * v) * v + 2 * (u * v) + 2 * (u * b)
  {
    MulDistributes(u, 1 + v * v, 2 * v + 2 * b);
    MulAssociates(u, v, v);
  }

  /** The sum of two points of the curve is on the curve. */
  lemma SumOnCurve(x1: int, y1: int, x2: int, y2: int, x: int, y: int)
    requires OnCurve(x1, y1) && OnCurve(x2, y2) && IsSum(x1, y1, x2, y2, x, y)
    ensures OnCurve(x, y)
  {
    hide P, D;
    var u1, v1, u2, v2 := x1 * x1, y1 * y1, x2 * x2, y2 * y2;
    var s, t, m := u1 * v2 + u2 * v1, v1 * v2 + u1 * u2, (x1 * y1) * (x2 * y2);
    var k := D * m;
    CurveTerms(u1, v1, u2, v2);
    Crossed(x1, y1, x2, y2);
    assert (u1 * v1) * (u2 * v2) == m * m by { Crossed(x1, x1, y1, y1); Crossed(x2, x2, y2, y2); Crossed(x1 * y1, x1 * y1, x2 * y2, x2 * y2); }
    Closure(D, s, t, m, u1 * v1, u2 * v2);
    SquaredSums(x1, y1, x2, y2);
    EqMul(x * (1 + k), x1 * y2 + x2 * y1, x * (1 + k), x1 * y2 + x2 * y1);
    EqMul(y * (1 - k), y1 * y2 + x1 * x2, y * (1 - k), y1 * y2 + x1 * x2);
    Cleared(x, y, 1 + k, 1 - k, s + 2 * m, t + 2 * m, D);
  }

  lemma SquaredSums(x1: int, y1: int, x2: int, y2: int)
    ensures var m := (x1 * y1) * (x2 * y2);
            && (x1 * y2 + x2 * y1) * (x1 * y2 + x2 * y1) == (x1 * x1) * (y2 * y2) + (x2 * x2) * (y1 * y1) + 2 * m
            && (y1 * y2 + x1 * x2) * (y1 * y2 + x1 * x2) == (y1 * y1) * (y2 * y2) + (x1 * x1) * (x2 * x2) + 2 * m
  {
    Square(x1 * y2, x2 * y1);
    Square(y1 * y2, x1 * x2);
    Crossed(x1, y2, x1, y2);
    Crossed(x2, y1, x2, y1);
    Crossed(y1, y2, y1, y2);
    Crossed(x1, x2, x1, x2);
    assert (x1 * y2) * (x2 * y1) == (x1 * y1) * (x2 * y2) by { MulDistributes(x2, y1, 0); Crossed(x1, y2, y1, x2); MulDistributes(y2, x2, 0); }
    assert (y1 * y2) * (x1 * x2) == (x1 * y1) * (x2 * y2) by { Crossed(y1, y2, x1, x2); MulDistributes(y1, x1, 0); MulDistributes(y2, x2, 0); }
  }

  lemma Square(a: int, b: int)
    ensures (a + b) * (a + b) == a * a + b * b + 2 * (a * b)
  {
  }

  /** What the curve's equation for both points says of the terms. */
  lemma CurveTerms(u1: int, v1: int, u2: int, v2: int)
    requires Eq(v1 - u1, 1 + D * (u1 * v1)) && Eq(v2 - u2, 1 + D * (u2 * v2))
    ensures var s, t, a, b := u1 * v2 + u2 * v1, v1 * v2 + u1 * u2, u1 * v1, u2 * v2;
            && Eq(t - s, (1 + D * a) * (1 + D * b))
            && Eq(s * t, a * ((1 + D * b) * (1 + D * b) + 2 * b) + b * ((1 + D * a) * (1 + D * a) + 2 * a))
  {
    hide P, D;
    var s, t, a, b := u1 * v2 + u2 * v1, v1 * v2 + u1 * u2, u1 * v1, u2 * v2;
    var c, e := 1 + D * a, 1 + D * b;
    EqMul(v1 - u1, c, v2 - u2, e);
    assert t - s == (v1 - u1) * (v2 - u2);
    EqMul(v1 - u1, c, v1 - u1, c);
    EqMul(v2 - u2, e, v2 - u2, e);
    EqAdd((v1 - u1) * (v1 - u1), c * c, 2 * a, 2 * a);
    EqAdd((v2 - u2) * (v2 - u2), e * e, 2 * b, 2 * b);
    EqMul(a, a, (v2 - u2) * (v2 - u2) + 2 * b, e * e + 2 * b);
    EqMul(b, b, (v1 - u1) * (v1 - u1) + 2 * a, c * c + 2 * a);
    EqAdd(a * ((v2 - u2) * (v2 - u2) + 2 * b), a * (e * e + 2 * b), b * ((v1 - u1) * (v1 - u1) + 2 * a), b * (c * c + 2 * a));
    ProductTerms(u1, v1, u2, v2);
  }

  lemma ProductTerms(u1: int, v1: int, u2: int, v2: int)
    ensures (u1 * v2 + u2 * v1) * (v1 * v2 + u1 * u2)
         == (u1 * v1) * ((v2 - u2) * (v2 - u2) + 2 * (u2 * v2)) + (u2 * v2) * ((v1 - u1) * (v1 - u1) + 2 * (u1 * v1))
  {
    Square(v2, -u2);
    Square(v1, -u1);
    MulDistributes(u1 * v2 + u2 * v1, v1 * v2, u1 * u2);
    MulDistributes(v1 * v2, u1 * v2, u2 * v1);
    MulDistributes(u1 * u2, u1 * v2, u2 * v1);
    Crossed(u1, v2, v1, v2);
    Crossed(u2, v1, v2, v1);
    Crossed(u1, v2, u2, u1);
    Crossed(u2, v1, u1, u2);
    assert (u1 * v2) * (v1 * v2) == (u1 * v1) * (v2 * v2);
    assert (u2 * v1) * (v1 * v2) == (u2 * v2) * (v1 * v1) by { MulDistributes(v1, v2, 0); }
    assert (u1 * v2) * (u1 * u2) == (u2 * v2) * (u1 * u1) by { MulDistributes(u1, u2, 0); MulDistributes(u1 * u2, v2 * u1, 0); Crossed(u2, u1, v2, u1); MulDistributes(v2, u1, 0); }
    assert (u2 * v1) * (u1 * u2) == (u1 * v1) * (u2 * u2) by { MulDistributes(u2, v1, 0); MulDistributes(u1, v1, 0); Crossed(v1, u2, u1, u2); }
    MulDistributes(u1 * v1, v2 * v2, u2 * u2);
    MulDistributes(u2 * v2, v1 * v1, u1 * u1);
  }

  /** Clearing the denominators of the curve's equation. */
  lemma Cleared(x: int, y: int, a: int, b: int, s: int, t: int, d: int)
    requires Unit(a) && Unit(b)
    requires Eq((x * a) * (x * a), s) && Eq((y * b) * (y * b), t)
    requires Eq(t * (a * a) - s * (b * b), (a * a) * (b * b) + d * (s * t))
    ensures Eq(y * y - x * x, 1 + d * ((x * x) * (y * y)))
  {
    hide P;
    var xx, yy, aa, bb := x * x, y * y, a * a, b * b;
    var n := aa * bb;
    Crossed(x, a, x, a);
    Crossed(y, b, y, b);
    EqMul(yy * bb, t, aa, aa);
    EqMul(xx * aa, s, bb, bb);
    EqAdd((yy * bb) * aa, t * aa, (xx * aa) * bb, s * bb);
    EqMul(xx * aa, s, yy * bb, t);
    EqMul(d, d, (xx * aa) * (yy * bb), s * t);
    EqAdd(n, n, d * ((xx * aa) * (yy * bb)), d * (s * t));
    ClearedTerms(xx, yy, aa, bb, d);
    UnitTimes(a, a);
    UnitTimes(b, b);
    UnitTimes(aa, bb);
    Cancelled(yy - xx, 1 + d * (xx * yy), n);
  }

  lemma ClearedTerms(xx: int, yy: int, aa: int, bb: int, d: int)
    ensures (yy * bb) * aa - (xx * aa) * bb == (yy - xx) * (aa * bb)
    ensures aa * bb + d * ((xx * aa) * (yy * bb)) == (1 + d * (xx * yy)) * (aa * bb)
  {
    var n := aa * bb;
    MulAssociates(yy, bb, aa);
    MulAssociates(xx, aa, bb);
    MulDistributes(aa, bb, 0);
    MulDistributes(n, yy, -xx);
    Crossed(xx, aa, yy, bb);
    MulAssociates(d, xx * yy, n);
    MulDistributes(n, 1, d * (xx * yy));
  }

  lemma Cancelled(a: int, b: int, n: int)
    requires Unit(n) && Eq(a * n, b * n)
    ensures Eq(a, b)
  {
    hide P;
    var u :| Inverse(n, u);
    EqMul(a * n, b * n, u, u);
    EqMul(a, a, n * u, 1);
    EqMul(b, b, n * u, 1);
    MulAssociates(a, n, u);
    MulAssociates(b, n, u);
  }
}
