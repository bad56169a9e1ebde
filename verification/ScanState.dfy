/** The saved scan state as the agent holds it: marks and verdicts in path order,
  searched by bisection, filtered line by line when a run is saved. */
module ScanState {
  import opened Bits
  import opened Paths
  import opened VerdictCache

  ghost predicate InOrder(keys: seq<Path>) {
    forall i, j :: 0 <= i < j < |keys| ==> Compare(keys[i], keys[j]) <= 0
  }

  /** The lines hold exactly the map's entries. */
  ghost predicate Represents<V>(keys: seq<Path>, values: seq<V>, m: map<Path, V>) {
    && |keys| == |values|
    && (forall i :: 0 <= i < |keys| ==> keys[i] in m && m[keys[i]] == values[i])
    && (forall p :: p in m ==> p in keys)
  }

  lemma OrderedBefore(p: Path, q: Path, r: Path)
    requires Compare(p, q) <= 0 && Compare(q, r) < 0
    ensures Compare(p, r) < 0
  {
    PathsEqual(p, q);
    if p != q {
      PathsTransitive(p, q, r);
    }
  }

  /** Bisection over keys in path order. */
  method Search(keys: seq<Path>, path: Path) returns (at: Option<nat>)
    requires InOrder(keys)
    ensures at.Some? ==> at.value < |keys| && keys[at.value] == path
    ensures at.None? ==> path !in keys
  {
    hide Compare;
    var lo, hi := 0, |keys|;
    while lo < hi
      invariant 0 <= lo <= hi <= |keys|
      invariant path !in keys[..lo] && path !in keys[hi..]
    {
      var mid := (lo + hi) / 2;
      var c := Compare(keys[mid], path);
      PathsEqual(keys[mid], path);
      if c == 0 {
        return Some(mid);
      }
      if c < 0 {
        Below(keys, mid, path);
        lo := mid + 1;
      } else {
        Above(keys, mid, path);
        hi := mid;
      }
    }
    assert keys == keys[..lo] + keys[hi..];
    return None;
  }

  lemma Below(keys: seq<Path>, mid: nat, path: Path)
    requires InOrder(keys) && mid < |keys| && Compare(keys[mid], path) < 0
    ensures path !in keys[..mid + 1]
  {
    hide Compare;
    PathsEqual(path, path);
    forall i | 0 <= i <= mid
      ensures keys[i] != path
    {
      if i < mid {
        OrderedBefore(keys[i], keys[mid], path);
      }
    }
  }

  lemma Above(keys: seq<Path>, mid: nat, path: Path)
    requires InOrder(keys) && mid < |keys| && Compare(keys[mid], path) > 0
    ensures path !in keys[mid..]
  {
    hide Compare;
    PathsEqual(path, path);
    forall i | mid <= i < |keys|
      ensures keys[i] != path
    {
      if mid < i {
        assert Compare(keys[mid], keys[i]) <= 0;
      }
    }
  }

  method WasVisited(visited: seq<Path>, store: Path) returns (b: bool)
    requires InOrder(visited)
    ensures b <==> store in visited
  {
    var at := Search(visited, store);
    b := at.Some?;
  }

  method FindMark(keys: seq<Path>, marks: seq<Mark>, path: Path, ghost s: State) returns (ms: int)
    requires InOrder(keys) && Represents(keys, marks, s.marks)
    ensures ms == MarkOf(s, path)
  {
    var at := Search(keys, path);
    ms := if at.Some? then marks[at.value].ms else 0;
  }

  method FindVerdict(keys: seq<Path>, verdicts: seq<Verdict>, path: Path, ghost s: State) returns (v: Option<Verdict>)
    requires InOrder(keys) && Represents(keys, verdicts, s.verdicts)
    ensures v == if path in s.verdicts then Some(s.verdicts[path]) else None
  {
    var at := Search(keys, path);
    v := if at.Some? then Some(verdicts[at.value]) else None;
  }

  /** One file: from the cache, or read within the content budget. What it
    answers is `Content`, and the budget is never overspent. */
  method FileContent(pol: Policy, keys: seq<Path>, verdicts: seq<Verdict>, ghost s: State, full: bool, mark: int,
                     path: Path, f: File, spent: nat, budget: nat, opens: bool)
    returns (rules: nat, skipped: bool, spending: nat)
    requires InOrder(keys) && Represents(keys, verdicts, s.verdicts) && mark == MarkOf(s, pol.storeOf(path))
    ensures (rules, skipped) == Content(pol, s, full, path, f, opens && spent + pol.wanted(path, f.Size()) <= budget)
    ensures spent <= budget ==> spent <= spending <= budget
    ensures skipped || FromCache(pol, s, full, path, f) ==> spending == spent
  {
    spending := spent;
    if !pol.candidate(path, f.Size()) {
      return 0, false, spent;
    }
    var v := FindVerdict(keys, verdicts, path, s);
    if !full && mark > 0 && Milliseconds(f.mtime) < mark && f.ctime < mark {
      if v.Some? && Matches(v.value, f) {
        return v.value.rules, false, spent;
      }
      if v.None? {
        return 0, false, spent;
      }
    }
    var want := pol.wanted(path, f.Size());
    if want == 0 {
      return 0, false, spent;
    }
    var kept := if v.Some? then v.value.rules else 0;
    if spent + want > budget || !opens {
      return kept, true, spent;
    }
    return pol.rules(path, f.content), false, spent + want;
  }

  /** Saving a run: the old marks it carries over. */
  method CarryMarks(keys: seq<Path>, marks: seq<Mark>, r: Run, visited: seq<Path>, complete: bool, ghost s: State)
    returns (ks: seq<Path>, ms: seq<Mark>)
    requires Represents(keys, marks, s.marks) && InOrder(visited) && r.visited == set p | p in visited
    ensures Represents(ks, ms, map p | p in s.marks && CarriesMark(r, complete, p, s.marks[p]) :: s.marks[p])
  {
    ks, ms := [], [];
    for i := 0 to |keys|
      invariant |ks| == |ms|
      invariant forall j :: 0 <= j < |ks| ==> ks[j] in s.marks && s.marks[ks[j]] == ms[j] && CarriesMark(r, complete, ks[j], ms[j])
      invariant forall j :: 0 <= j < i && CarriesMark(r, complete, keys[j], marks[j]) ==> keys[j] in ks
    {
      var seen := WasVisited(visited, keys[i]);
      if !seen && !(complete && marks[i].cycle != r.cycle) {
        ks, ms := ks + [keys[i]], ms + [marks[i]];
      }
    }
  }

  /** Saving a run: the old verdicts it carries over. */
  method CarryVerdicts(keys: seq<Path>, verdicts: seq<Verdict>, r: Run, visited: seq<Path>, complete: bool, ghost s: State)
    returns (ks: seq<Path>, vs: seq<Verdict>)
    requires Represents(keys, verdicts, s.verdicts) && InOrder(visited) && r.visited == set p | p in visited
    ensures Represents(ks, vs, map p | p in s.verdicts && CarriesVerdict(r, complete, s.verdicts[p]) :: s.verdicts[p])
  {
    ks, vs := [], [];
    for i := 0 to |keys|
      invariant |ks| == |vs|
      invariant forall j :: 0 <= j < |ks| ==> ks[j] in s.verdicts && s.verdicts[ks[j]] == vs[j] && CarriesVerdict(r, complete, vs[j])
      invariant forall j :: 0 <= j < i && CarriesVerdict(r, complete, verdicts[j]) ==> keys[j] in ks
    {
      var seen := WasVisited(visited, verdicts[i].store);
      if !seen && !(complete && verdicts[i].cycle != r.cycle) {
        ks, vs := ks + [keys[i]], vs + [verdicts[i]];
      }
    }
  }
}
