/** Paths as component lists, the component-wise order the scan walks in, and
  the string routines that compute it. */
module Paths {
  import opened Bits

  type Name = seq<Byte>
  type Path = seq<Name>
  const SLASH: Byte := 47

  // ---- the order on names and on paths ----

  /** strcmp: bytes first, then the shorter name. */
  function CompareNames(a: Name, b: Name): (r: int)
    ensures -1 <= r <= 1
  {
    if a == [] && b == [] then 0
    else if a == [] then -1
    else if b == [] then 1
    else if a[0] < b[0] then -1
    else if a[0] > b[0] then 1
    else CompareNames(a[1..], b[1..])
  }

  function Compare(p: Path, q: Path): (r: int)
    ensures -1 <= r <= 1
  {
    if p == [] && q == [] then 0
    else if p == [] then -1
    else if q == [] then 1
    else if CompareNames(p[0], q[0]) != 0 then CompareNames(p[0], q[0])
    else Compare(p[1..], q[1..])
  }

  lemma {:induction false} NamesEqual(a: Name, b: Name)
    ensures CompareNames(a, b) == 0 <==> a == b
    ensures CompareNames(a, b) == -CompareNames(b, a)
  {
    if a != [] && b != [] {
      NamesEqual(a[1..], b[1..]);
      assert a == [a[0]] + a[1..] && b == [b[0]] + b[1..];
    }
  }

  lemma {:induction false} NamesTransitive(a: Name, b: Name, c: Name)
    requires CompareNames(a, b) < 0 && CompareNames(b, c) < 0
    ensures CompareNames(a, c) < 0
  {
    if a != [] && a[0] == b[0] == c[0] {
      NamesTransitive(a[1..], b[1..], c[1..]);
    }
  }

  /** Equal only for equal paths, and antisymmetric. */
  lemma {:induction false} PathsEqual(p: Path, q: Path)
    ensures Compare(p, q) == 0 <==> p == q
    ensures Compare(p, q) == -Compare(q, p)
  {
    if p != [] && q != [] {
      NamesEqual(p[0], q[0]);
      PathsEqual(p[1..], q[1..]);
      assert p == [p[0]] + p[1..] && q == [q[0]] + q[1..];
    }
  }

  lemma {:induction false} PathsTransitive(p: Path, q: Path, r: Path)
    requires Compare(p, q) < 0 && Compare(q, r) < 0
    ensures Compare(p, r) < 0
  {
    if p != [] {
      NamesEqual(p[0], q[0]);
      NamesEqual(q[0], r[0]);
      NamesEqual(p[0], r[0]);
      if p[0] == q[0] == r[0] {
        PathsTransitive(p[1..], q[1..], r[1..]);
      } else if p[0] != q[0] && q[0] != r[0] {
        NamesTransitive(p[0], q[0], r[0]);
      }
    }
  }

  /** A directory comes before everything beneath it. */
  lemma {:induction false} AncestorFirst(p: Path, x: Path)
    requires x != []
    ensures Compare(p, p + x) < 0
  {
    if p == [] {
      assert p + x == x;
    } else {
      NamesEqual(p[0], p[0]);
      assert (p + x)[1..] == p[1..] + x && (p + x)[0] == p[0];
      AncestorFirst(p[1..], x);
    }
  }

  /** Siblings order everything beneath them. */
  lemma {:induction false} SiblingsOrder(p: Path, a: Name, x: Path, b: Name, y: Path)
    requires CompareNames(a, b) < 0
    ensures Compare(p + [a] + x, p + [b] + y) < 0
  {
    var s, t := p + [a] + x, p + [b] + y;
    if p == [] {
      assert s[0] == a && t[0] == b;
    } else {
      NamesEqual(p[0], p[0]);
      assert s[1..] == p[1..] + [a] + x && t[1..] == p[1..] + [b] + y && s[0] == t[0] == p[0];
      SiblingsOrder(p[1..], a, x, b, y);
    }
  }

  /** A path before c that is not above c: everything beneath it is before c too. */
  lemma {:induction false} WholeSubtreeBefore(p: Path, x: Path, c: Path)
    requires Compare(p, c) <= 0 && !(p <= c)
    ensures Compare(p + x, c) < 0
  {
    if p != [] {
      assert (p + x)[0] == p[0] && (p + x)[1..] == p[1..] + x;
      NamesEqual(p[0], c[0]);
      if p[0] == c[0] {
        assert p == [p[0]] + p[1..] && c == [c[0]] + c[1..];
        assert p[1..] <= c[1..] ==> p <= c;
        WholeSubtreeBefore(p[1..], x, c[1..]);
      }
    }
  }

  // ---- strings ----

  function SkipSlashes(s: seq<Byte>): (r: seq<Byte>)
    ensures |r| <= |s| && (r != [] ==> r[0] != SLASH)
  {
    if s != [] && s[0] == SLASH then SkipSlashes(s[1..]) else s
  }

  /** The length of the first component of a string that does not start with a slash. */
  function Span(s: seq<Byte>): (n: nat)
    ensures n <= |s| && (n < |s| ==> s[n] == SLASH)
    ensures forall k :: 0 <= k < n ==> s[k] != SLASH
    ensures s != [] && s[0] != SLASH ==> n > 0
  {
    if s == [] || s[0] == SLASH then 0 else 1 + Span(s[1..])
  }

  /** The components of a path string; slashes only separate. */
  function Components(s: seq<Byte>): (p: Path)
    decreases |s|
  {
    var t := SkipSlashes(s);
    if t == [] then [] else [t[..Span(t)]] + Components(t[Span(t)..])
  }

  /** The loop that skips separators. */
  method SkipFrom(s: seq<Byte>, i: nat) returns (k: nat)
    requires i <= |s|
    ensures i <= k <= |s| && s[k..] == SkipSlashes(s[i..])
  {
    k := i;
    while k < |s| && s[k] == SLASH
      invariant i <= k <= |s| && SkipSlashes(s[k..]) == SkipSlashes(s[i..])
    {
      assert s[k..][1..] == s[k + 1..];
      k := k + 1;
    }
    assert s[k..] == SkipSlashes(s[k..]);
  }

  lemma SkipComponents(s: seq<Byte>)
    ensures Components(SkipSlashes(s)) == Components(s)
  {
    assert SkipSlashes(SkipSlashes(s)) == SkipSlashes(s);
  }

  /** strcspn: how far to the next separator. */
  method SpanFrom(s: seq<Byte>, i: nat) returns (n: nat)
    requires i <= |s|
    ensures i + n <= |s| && n == Span(s[i..])
  {
    n := 0;
    while i + n < |s| && s[i + n] != SLASH
      invariant i + n <= |s| && Span(s[i..]) == n + Span(s[i + n..])
    {
      assert s[i + n..][1..] == s[i + n + 1..];
      n := n + 1;
    }
  }

  /** memcmp of the shorter length, then the lengths: the order on names. */
  method CompareSpans(a: Name, b: Name) returns (c: int)
    ensures c < 0 <==> CompareNames(a, b) < 0
    ensures c == 0 <==> CompareNames(a, b) == 0
  {
    var n := if |a| < |b| then |a| else |b|;
    var k := 0;
    while k < n && a[k] == b[k]
      invariant k <= n && CompareNames(a, b) == CompareNames(a[k..], b[k..])
    {
      assert a[k..][1..] == a[k + 1..] && b[k..][1..] == b[k + 1..];
      k := k + 1;
    }
    if k < n {
      c := if a[k] < b[k] then -1 else 1;
    } else {
      c := if |a| < |b| then -1 else if |a| > |b| then 1 else 0;
    }
  }

  /** DataInv_PathCmp on two path strings: the sign of the order of their components. */
  method PathCmp(a: seq<Byte>, b: seq<Byte>) returns (c: int)
    ensures c < 0 <==> Compare(Components(a), Components(b)) < 0
    ensures c == 0 <==> Components(a) == Components(b)
  {
    hide Compare, Components, SkipSlashes, Span;
    var i, j := 0, 0;
    assert a[0..] == a && b[0..] == b;
    PathsEqual(Components(a), Components(b));
    while true
      invariant 0 <= i <= |a| && 0 <= j <= |b|
      invariant Compare(Components(a), Components(b)) == Compare(Components(a[i..]), Components(b[j..]))
      decreases |a| - i
    {
      SkipComponents(a[i..]);
      SkipComponents(b[j..]);
      i := SkipFrom(a, i);
      j := SkipFrom(b, j);
      ghost var s, t := a[i..], b[j..];
      if i == |a| || j == |b| {
        AtEnd(s, t);
        return (if i < |a| then 1 else 0) - (if j < |b| then 1 else 0);
      }
      var la := SpanFrom(a, i);
      var lb := SpanFrom(b, j);
      c := CompareSpans(a[i..i + la], b[j..j + lb]);
      assert s[..la] == a[i..i + la] && t[..lb] == b[j..j + lb];
      assert s[la..] == a[i + la..] && t[lb..] == b[j + lb..];
      FirstComponents(s, t);
      if c != 0 {
        return;
      }
      i, j := i + la, j + lb;
    }
  }

  lemma AtEnd(s: seq<Byte>, t: seq<Byte>)
    requires s == [] || t == []
    requires (s != [] ==> s[0] != SLASH) && (t != [] ==> t[0] != SLASH)
    ensures Compare(Components(s), Components(t)) == (if s != [] then 1 else 0) - (if t != [] then 1 else 0)
  {
    assert s != [] ==> Components(s) != [];
    assert t != [] ==> Components(t) != [];
  }

  lemma FirstComponents(s: seq<Byte>, t: seq<Byte>)
    requires s != [] && t != [] && s[0] != SLASH && t[0] != SLASH
    ensures Compare(Components(s), Components(t))
         == var c := CompareNames(s[..Span(s)], t[..Span(t)]);
            if c != 0 then c else Compare(Components(s[Span(s)..]), Components(t[Span(t)..]))
  {
    var p, q := Components(s), Components(t);
    assert p[0] == s[..Span(s)] && p[1..] == Components(s[Span(s)..]);
    assert q[0] == t[..Span(t)] && q[1..] == Components(t[Span(t)..]);
  }

  // ---- absolute, normalised path strings ----

  /** Components the file system can hold: not empty, without a separator. */
  ghost predicate Normal(p: Path) {
    forall k :: 0 <= k < |p| ==> p[k] != [] && SLASH !in p[k]
  }

  function Joined(p: Path): seq<Byte> {
    if p == [] then [] else [SLASH] + p[0] + Joined(p[1..])
  }

  /** The string of an absolute path: "/" for the root directory. */
  function Render(p: Path): seq<Byte> {
    if p == [] then [SLASH] else Joined(p)
  }

  ghost predicate IsUnder(path: seq<Byte>, prefix: seq<Byte>) {
    var n := Trimmed(prefix);
    n <= |path| && path[..n] == prefix[..n] &&
    (n == |path| || path[n] == SLASH || (n == 1 && prefix[0] == SLASH))
  }

  /** DataInv_Under on two strings. */
  method Under(path: seq<Byte>, prefix: seq<Byte>) returns (r: bool)
    ensures r <==> IsUnder(path, prefix)
  {
    var n := |prefix|;
    assert prefix[..|prefix|] == prefix;
    while n > 1 && prefix[n - 1] == SLASH
      invariant 0 <= n <= |prefix| && (prefix != [] ==> n > 0) && Trimmed(prefix) == Trimmed(prefix[..n])
    {
      assert prefix[..n][..n - 1] == prefix[..n - 1];
      n := n - 1;
    }
    if |path| < n || path[..n] != prefix[..n] {
      return false;
    }
    return n == |path| || path[n] == SLASH || (n == 1 && prefix[0] == SLASH);
  }

  /** The length without trailing slashes, but never less than one. */
  function Trimmed(s: seq<Byte>): (n: nat)
    ensures n <= |s|
  {
    if |s| > 1 && s[|s| - 1] == SLASH then Trimmed(s[..|s| - 1]) else |s|
  }

  lemma JoinedEmpty()
    ensures Joined([]) == []
  {
  }

  lemma JoinedStarts(p: Path)
    requires p != [] && Normal(p)
    ensures var s := Joined(p);
            |s| >= 2 && s[0] == SLASH && s[1..] == p[0] + Joined(p[1..]) && s[1] != SLASH
    ensures p[1..] != [] ==> Joined(p[1..]) != [] && Joined(p[1..])[0] == SLASH
    ensures p[1..] == [] ==> Joined(p[1..]) == []
  {
    assert Joined(p) == [SLASH] + (p[0] + Joined(p[1..]));
    assert p[0][0] in p[0];
  }

  lemma {:induction false} NoTrailingSlash(p: Path)
    requires p != [] && Normal(p)
    ensures var s := Joined(p); s != [] && s[|s| - 1] != SLASH
  {
    JoinedStarts(p);
    var s := Joined(p);
    if p[1..] != [] {
      NoTrailingSlash(p[1..]);
      assert s[|s| - 1] == s[1..][|s| - 2];
    } else {
      assert s[1..] == p[0];
      assert s[|s| - 1] == p[0][|p[0]| - 1] && p[0][|p[0]| - 1] in p[0];
    }
  }

  /** The first component of a string prefix that ends at a boundary is the whole
    first component. */
  lemma SameFirst(a: Name, x: seq<Byte>, b: Name, y: seq<Byte>)
    requires SLASH !in a && SLASH !in b
    requires (x != [] ==> x[0] == SLASH) && (y != [] ==> y[0] == SLASH)
    ensures |b + y| <= |a + x| && b + y == (a + x)[..|b + y|] && (|b + y| == |a + x| || (a + x)[|b + y|] == SLASH) ==>
            a == b
  {
    var s, t := a + x, b + y;
    if |b| < |a| {
      assert s[|b|] == a[|b|] && a[|b|] in a;
      assert y != [] ==> t[|b|] == y[0];
    } else if |a| < |b| {
      assert t[|a|] == b[|a|] && b[|a|] in b;
      assert x != [] ==> s[|a|] == x[0];
    } else {
      assert a == s[..|a|] && b == t[..|b|];
    }
  }

  lemma {:induction false} PrefixOfJoined(p: Path, q: Path)
    requires Normal(p) && Normal(q)
    ensures var s, t := Joined(p), Joined(q);
            q <= p <==> |t| <= |s| && s[..|t|] == t && (|t| == |s| || s[|t|] == SLASH)
  {
    var s, t := Joined(p), Joined(q);
    JoinedEmpty();
    hide Joined;
    if q == [] {
      if p != [] {
        JoinedStarts(p);
      }
    } else if p == [] {
      JoinedStarts(q);
    } else {
      JoinedStarts(p);
      JoinedStarts(q);
      var x, y := Joined(p[1..]), Joined(q[1..]);
      PrefixOfJoined(p[1..], q[1..]);
      assert s == [SLASH] + (p[0] + x) && t == [SLASH] + (q[0] + y);
      if |t| <= |s| && s[..|t|] == t && (|t| == |s| || s[|t|] == SLASH) {
        assert q[0] + y == t[1..] == s[..|t|][1..] == (p[0] + x)[..|t| - 1];
        assert |t| < |s| ==> s[|t|] == (p[0] + x)[|t| - 1];
        SameFirst(p[0], x, q[0], y);
        TailPrefix(p[0], x, y);
        assert q == [q[0]] + q[1..] && p == [p[0]] + p[1..];
      }
      if q <= p {
        assert q[0] == p[0] && q[1..] <= p[1..];
        TailPrefix(p[0], x, y);
        assert |t| < |s| ==> s[|t|] == x[|y|];
      }
    }
  }

  lemma TailPrefix(a: Name, x: seq<Byte>, y: seq<Byte>)
    ensures |y| <= |x| && x[..|y|] == y <==> |a + y| <= |a + x| && (a + x)[..|a + y|] == a + y
    ensures |y| < |x| ==> (a + x)[|a + y|] == x[|y|]
  {
    if |y| <= |x| {
      assert (a + x)[..|a + y|] == a + x[..|y|];
      assert (a + x[..|y|])[|a|..] == x[..|y|] && (a + y)[|a|..] == y;
    }
  }

  /** On rendered paths the string test is exactly: prefix is an ancestor or the
    path itself. */
  lemma UnderIsPrefix(p: Path, q: Path)
    requires Normal(p) && Normal(q)
    ensures IsUnder(Render(p), Render(q)) <==> q <= p
  {
    var s, t := Render(p), Render(q);
    if p != [] {
      JoinedStarts(p);
    }
    if q == [] {
      assert Trimmed(t) == 1;
    } else {
      JoinedStarts(q);
      NoTrailingSlash(q);
      assert Trimmed(t) == |t|;
      PrefixOfJoined(p, q);
      if p == [] {
        assert |t| > |s|;
      }
    }
  }

  /** Rendering loses nothing: the string's components are the path. */
  lemma {:induction false} ComponentsOfRender(p: Path)
    requires Normal(p)
    ensures Components(Render(p)) == p && Components(Joined(p)) == p
  {
    hide Joined, Span;
    JoinedEmpty();
    if p == [] {
      assert SkipSlashes([SLASH]) == [];
    } else {
      JoinedStarts(p);
      ComponentsOfRender(p[1..]);
      var s, rest := Joined(p), Joined(p[1..]);
      var t := p[0] + rest;
      assert SkipSlashes(s) == SkipSlashes(t) == t;
      SpanOf(p[0], rest);
      assert t[..|p[0]|] == p[0] && t[|p[0]|..] == rest;
    }
  }

  lemma {:induction false} SpanOf(a: Name, rest: seq<Byte>)
    requires SLASH !in a && (rest != [] ==> rest[0] == SLASH)
    ensures Span(a + rest) == |a|
  {
    if a == [] {
      assert a + rest == rest;
    } else {
      assert (a + rest)[1..] == a[1..] + rest;
      SpanOf(a[1..], rest);
    }
  }
}
