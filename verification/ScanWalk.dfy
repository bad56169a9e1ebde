/** One run of the resumable scan: a depth-first walk cut by the file and store
  budgets, starting after a cursor; and the cycle its successive runs make up. */
module ScanWalk {
  import opened Bits
  import opened Paths
  import opened ScanTree

  datatype Reason = Files | StoreLimit
  datatype Report = Report(path: Path, partial: bool)

  /** The stores still due after the cursor. */
  ghost function After(cursor: Option<Path>, s: seq<Path>): (r: seq<Path>) {
    if s == [] then []
    else (if cursor.None? || Compare(s[0], cursor.value) > 0 then [s[0]] else []) + After(cursor, s[1..])
  }

  lemma {:induction false} AfterConcat(cursor: Option<Path>, s: seq<Path>, t: seq<Path>)
    ensures After(cursor, s + t) == After(cursor, s) + After(cursor, t)
  {
    if s == [] {
      assert s + t == t;
    } else {
      assert (s + t)[1..] == s[1..] + t;
      AfterConcat(cursor, s[1..], t);
    }
  }

  /** Nothing is due in a subtree that lies wholly before the cursor. */
  lemma {:induction false} NothingDue(cursor: Path, s: seq<Path>, p: Path)
    requires AllUnder(s, p) && Compare(p, cursor) <= 0 && !(p <= cursor)
    ensures After(Some(cursor), s) == []
  {
    if s != [] {
      assert p <= s[0];
      var tail := PrefixSplit(p, s[0]);
      WholeSubtreeBefore(p, tail, cursor);
      NothingDue(cursor, s[1..], p);
    }
  }

  ghost function PathsOf(r: seq<Report>): (p: seq<Path>)
    ensures |p| == |r| && forall i :: 0 <= i < |r| ==> p[i] == r[i].path
  {
    seq(|r|, i requires 0 <= i < |r| => r[i].path)
  }

  /** From `before` to `after` a walk reported, in order, the first of the due
    stores: all of them unless it stopped, none if it had stopped before. */
  ghost predicate Advanced(before: seq<Report>, was: Option<Reason>, after: seq<Report>, stop: Option<Reason>, due: seq<Path>) {
    && before <= after
    && (was.Some? ==> stop.Some? && after == before)
    && PathsOf(after[|before|..]) <= due
    && (stop.None? ==> PathsOf(after[|before|..]) == due)
  }

  lemma AdvancedThen(a: seq<Report>, s0: Option<Reason>, b: seq<Report>, s1: Option<Reason>, d1: seq<Path>,
                     c: seq<Report>, s2: Option<Reason>, d2: seq<Path>)
    requires Advanced(a, s0, b, s1, d1) && Advanced(b, s1, c, s2, d2)
    ensures Advanced(a, s0, c, s2, d1 + d2)
  {
    assert c[|a|..] == b[|a|..] + c[|b|..];
    assert PathsOf(c[|a|..]) == PathsOf(b[|a|..]) + PathsOf(c[|b|..]);
  }

  /** Stopping early leaves more due. */
  lemma AdvancedStopped(a: seq<Report>, s0: Option<Reason>, b: seq<Report>, s1: Option<Reason>, d: seq<Path>, more: seq<Path>)
    requires Advanced(a, s0, b, s1, d) && s1.Some?
    ensures Advanced(a, s0, b, s1, d + more)
  {
  }

  class Walk {
    const maxFiles: nat
    const maxStores: nat
    const storeDepth: nat
    const cursor: Option<Path>
    var files: nat
    var stop: Option<Reason>
    var reported: seq<Report>

    /** Between stores: nothing was counted before the first report, only the
      first report can be partial, only in a run that stopped, and a run stops
      only when a budget is used up. */
    ghost predicate Valid()
      reads this
    {
      && maxFiles > 0 && maxStores > 0 && files <= maxFiles && |reported| <= maxStores
      && (reported == [] ==> files == 0 && stop.None?)
      && (forall i :: 0 <= i < |reported| && reported[i].partial ==> i == 0 && stop.Some?)
      && Spent()
    }

    ghost predicate Spent()
      reads this
    {
      (stop == Some(Files) ==> files >= maxFiles) && (stop == Some(StoreLimit) ==> |reported| >= maxStores)
    }

    constructor (maxFiles: nat, maxStores: nat, storeDepth: nat, cursor: Option<Path>)
      requires maxFiles > 0 && maxStores > 0
      ensures Valid() && reported == [] && stop.None?
      ensures this.storeDepth == storeDepth && this.cursor == cursor && files == 0
      ensures this.maxFiles == maxFiles && this.maxStores == maxStores
    {
      this.maxFiles, this.maxStores, this.storeDepth, this.cursor := maxFiles, maxStores, storeDepth, cursor;
      files, stop, reported := 0, None, [];
    }

    method OverBudget() returns (over: bool)
      modifies this`stop
      ensures over <==> stop.Some?
      ensures stop == if old(stop).None? && files >= maxFiles then Some(Files) else old(stop)
    {
      if stop.None? && files >= maxFiles {
        stop := Some(Files);
      }
      over := stop.Some?;
    }

    /** Walks a store, counting its files, until done or over budget. */
    method WalkStoreDir(node: Node, depth: nat)
      requires node.Dir? && files <= maxFiles
      modifies this`files, this`stop
      ensures old(stop).Some? ==> stop == old(stop) && files == old(files)
      ensures old(files) <= files <= old(files) + StoreFiles(node, 0, depth)
      ensures stop.None? ==> files == old(files) + StoreFiles(node, 0, depth)
      ensures stop.Some? && old(stop).None? ==> stop == Some(Files) && files == maxFiles
      ensures files <= maxFiles
      decreases node
    {
      var over := OverBudget();
      if over {
        return;
      }
      if depth > MAX_DEPTH {
        return;
      }
      var i := 0;
      while i < |node.entries|
        invariant 0 <= i <= |node.entries|
        invariant old(files) <= files <= old(files) + StoreFiles(node, 0, depth) - StoreFiles(node, i, depth)
        invariant stop.None? ==> files == old(files) + StoreFiles(node, 0, depth) - StoreFiles(node, i, depth)
        invariant stop.Some? ==> files >= maxFiles && stop == Some(Files)
        invariant files <= maxFiles
      {
        over := OverBudget();
        if over {
          return;
        }
        match node.entries[i].node {
          case File => files := files + 1;
          case Other =>
          case Git(_) =>
          case Dir(_) => WalkStoreDir(node.entries[i].node, depth + 1);
        }
        i := i + 1;
      }
    }

    /** Reports a store, unless it was cut short and is not the run's first, or
      the store limit is reached. */
    method FinishStore(path: Path) returns (ok: bool)
      requires maxStores > 0 && (forall i :: 0 <= i < |reported| && reported[i].partial ==> i == 0 && stop.Some?)
      modifies this`stop, this`reported
      ensures ok <==> !(old(stop).Some? && old(reported) != []) && |old(reported)| < maxStores
      ensures reported == if ok then old(reported) + [Report(path, old(stop).Some?)] else old(reported)
      ensures stop == if |old(reported)| >= maxStores && old(stop).None? then Some(StoreLimit) else old(stop)
      ensures Advanced(old(reported), None, reported, stop, [path])
      ensures forall i :: 0 <= i < |reported| && reported[i].partial ==> i == 0 && stop.Some?
    {
      var partial := false;
      if stop.Some? {
        if reported != [] {
          return false;
        }
        partial := true;
      }
      if |reported| >= maxStores {
        stop := Some(StoreLimit);
        return false;
      }
      ghost var before := reported;
      reported := reported + [Report(path, partial)];
      assert reported[|before|..] == [Report(path, partial)];
      return true;
    }

    method Store(path: Path, node: Node)
      requires Valid() && stop.None? && node.Dir?
      modifies this`files, this`stop, this`reported
      ensures Valid() && Advanced(old(reported), old(stop), reported, stop, [path])
      ensures files <= old(files) + FileCount(node, 0)
    {
      StoreFilesBound(node, 0, 0);
      WalkStoreDir(node, 0);
      var ok := FinishStore(path);
    }

    /** The files of a directory above store depth, reported as a store of its own. */
    method ShallowStore(path: Path, node: Node)
      requires Valid() && stop.None? && node.Dir?
      modifies this`files, this`stop, this`reported
      ensures Valid()
      ensures Advanced(old(reported), old(stop), reported, stop, if OwnStore(node) then [path] else [])
      ensures files <= old(files) + OwnFiles(node, 0)
    {
      var own, items := 0, 0;
      var i := 0;
      while i < |node.entries|
        invariant 0 <= i <= |node.entries|
        invariant files == old(files) + own <= maxFiles && own + OwnFiles(node, i) == OwnFiles(node, 0)
        invariant stop.None? && reported == old(reported)
        invariant own + items > 0 <==> exists k :: 0 <= k < i && Counts(node.entries[k].node)
      {
        var over := OverBudget();
        if over {
          break;
        }
        match node.entries[i].node {
          case File => own, files := own + 1, files + 1;
          case Git(hit) => items := items + if hit then 1 else 0;
          case Other =>
          case Dir(_) =>
        }
        i := i + 1;
      }
      if own > 0 || items > 0 {
        var ok := FinishStore(path);
      }
    }

    /** Directories above store depth: their own files first, then each
      subdirectory, skipping what the cursor says is done. */
    method Upper(path: Path, depth: nat, node: Node)
      requires Valid() && node.Dir?
      modifies this`files, this`stop, this`reported
      ensures Valid()
      ensures Advanced(old(reported), old(stop), reported, stop, After(cursor, Stores(path, depth, node, storeDepth)))
      ensures files <= old(files) + FileCount(node, 0)
      decreases node
    {
      hide Compare, Stores, ChildStores, After, PathsOf, FileCount;
      FilesSplit(node, 0);
      var over := OverBudget();
      if over {
        NothingMore(reported, old(stop), stop, After(cursor, Stores(path, depth, node, storeDepth)));
        return;
      }
      StoresDue(cursor, path, depth, node, storeDepth);
      ghost var own := if OwnStore(node) then [path] else [];
      ghost var done := After(cursor, own);
      OwnDue(cursor, path, OwnStore(node));
      if cursor.None? || Compare(path, cursor.value) > 0 {
        ShallowStore(path, node);
      } else {
        NothingMore(reported, stop, stop, []);
      }
      var i := 0;
      while i < |node.entries|
        invariant 0 <= i <= |node.entries| && Valid()
        invariant Advanced(old(reported), old(stop), reported, stop, done)
        invariant After(cursor, Stores(path, depth, node, storeDepth))
               == done + After(cursor, ChildStores(path, depth, node, storeDepth, i))
        invariant files <= old(files) + FileCount(node, 0) - ChildFiles(node, i)
        decreases |node.entries| - i
      {
        ghost var before, was := reported, stop;
        over := OverBudget();
        if over {
          NothingMore(before, was, stop, []);
          AdvancedThen(old(reported), old(stop), before, was, done, reported, stop, []);
          assert done + [] == done;
          break;
        }
        ghost var due := After(cursor, EntryStores(path, depth, node, storeDepth, i));
        Entry(path, depth, node, i);
        AdvancedThen(old(reported), old(stop), before, was, done, reported, stop, due);
        ChildrenDue(cursor, path, depth, node, storeDepth, i);
        SeqAssoc(done, due, After(cursor, ChildStores(path, depth, node, storeDepth, i + 1)));
        done := done + due;
        i := i + 1;
      }
      if stop.Some? {
        AdvancedStopped(old(reported), old(stop), reported, stop, done, After(cursor, ChildStores(path, depth, node, storeDepth, i)));
      } else {
        NoneDue(cursor, path, depth, node, storeDepth);
        assert done + [] == done;
      }
    }

    /** One entry of a directory above store depth. */
    method Entry(path: Path, depth: nat, node: Node, i: nat)
      requires Valid() && stop.None? && node.Dir? && i < |node.entries|
      modifies this`files, this`stop, this`reported
      ensures Valid()
      ensures Advanced(old(reported), old(stop), reported, stop, After(cursor, EntryStores(path, depth, node, storeDepth, i)))
      ensures files <= old(files) + EntryFiles(node, i)
      decreases node, 0
    {
      hide Compare, Stores, ChildStores, FileCount;
      var e := node.entries[i];
      var child := path + [e.name];
      NothingMore(reported, stop, stop, []);
      EntryUnder(path, depth, node, storeDepth, i);
      if cursor.Some? && Compare(child, cursor.value) <= 0 && !(child <= cursor.value) {
        NothingDue(cursor.value, EntryStores(path, depth, node, storeDepth, i), child);
      } else if e.node.Dir? {
        if depth + 1 >= storeDepth {
          OwnDue(cursor, child, true);
          if cursor.None? || Compare(child, cursor.value) > 0 {
            Store(child, e.node);
          }
        } else {
          Upper(child, depth + 1, e.node);
        }
      }
    }

    /** The configured roots in path order, each not beneath another. */
    method WalkRoots(roots: seq<Root>)
      requires Valid() && stop.None? && Rooted(roots)
      modifies this`files, this`stop, this`reported
      ensures Valid()
      ensures Advanced(old(reported), None, reported, stop, After(cursor, RootStores(roots, storeDepth, 0)))
      ensures files <= old(files) + RootFiles(roots, 0)
    {
      hide Compare, Stores, After, PathsOf, Kept, Listed, FileCount;
      NothingMore(reported, stop, stop, []);
      ghost var done := [];
      assert [] + After(cursor, RootStores(roots, storeDepth, 0)) == After(cursor, RootStores(roots, storeDepth, 0));
      var i := 0;
      while i < |roots|
        invariant 0 <= i <= |roots| && Valid()
        invariant Advanced(old(reported), None, reported, stop, done)
        invariant After(cursor, RootStores(roots, storeDepth, 0)) == done + After(cursor, RootStores(roots, storeDepth, i))
        invariant files <= old(files) + RootFiles(roots, 0) - RootFiles(roots, i)
        decreases |roots| - i
      {
        ghost var before, was := reported, stop;
        var over := OverBudget();
        if over {
          NothingMore(before, was, stop, []);
          AdvancedThen(old(reported), None, before, was, done, reported, stop, []);
          assert done + [] == done;
          break;
        }
        ghost var due := After(cursor, RootDue(roots, storeDepth, i));
        OneRoot(roots, i);
        AdvancedThen(old(reported), None, before, was, done, reported, stop, due);
        RootsDue(cursor, roots, storeDepth, i);
        SeqAssoc(done, due, After(cursor, RootStores(roots, storeDepth, i + 1)));
        done := done + due;
        i := i + 1;
      }
      if stop.Some? {
        AdvancedStopped(old(reported), None, reported, stop, done, After(cursor, RootStores(roots, storeDepth, i)));
      } else {
        NoRootsDue(cursor, roots, storeDepth);
        assert done + [] == done;
      }
    }

    method OneRoot(roots: seq<Root>, i: nat)
      requires Valid() && stop.None? && Rooted(roots) && i < |roots|
      modifies this`files, this`stop, this`reported
      ensures Valid()
      ensures Advanced(old(reported), old(stop), reported, stop, After(cursor, RootDue(roots, storeDepth, i)))
      ensures files <= old(files) + if Kept(roots, i) then FileCount(roots[i].node, 0) else 0
    {
      hide Compare, Stores, Kept, Listed, FileCount;
      var root := roots[i];
      NothingMore(reported, stop, stop, []);
      var nested := Nested(roots, i);
      if nested {
        return;
      }
      StoresUnder(root.path, 0, root.node, storeDepth);
      if cursor.Some? && Compare(root.path, cursor.value) < 0 && !(root.path <= cursor.value) {
        NothingDue(cursor.value, Stores(root.path, 0, root.node, storeDepth), root.path);
        return;
      }
      Upper(root.path, 0, root.node);
    }
  }

  /** Whether root i lies beneath another root or repeats an earlier one. */
  method Nested(roots: seq<Root>, i: nat) returns (nested: bool)
    requires i < |roots|
    ensures nested <==> !Kept(roots, i)
  {
    nested := false;
    for j := 0 to |roots|
      invariant nested <==> exists k :: 0 <= k < j && k != i && roots[k].path <= roots[i].path && (roots[k].path != roots[i].path || k < i)
    {
      if j != i && roots[j].path <= roots[i].path && roots[j].path != roots[i].path {
        nested := true;
      }
      if j < i && roots[j].path == roots[i].path {
        nested := true;
      }
    }
  }

  /** One run of the scan, and the cursor it leaves for the next one. It stops
    early only when a budget is used up: never when the files and stores left are
    fewer than the budgets. */
  method Run(maxFiles: nat, maxStores: nat, storeDepth: nat, cursor: Option<Path>, roots: seq<Root>)
    returns (reported: seq<Report>, complete: bool, next: Option<Path>)
    requires maxFiles > 0 && maxStores > 0 && Rooted(roots)
    ensures RunOf(RootStores(roots, storeDepth, 0), cursor, reported, complete)
    ensures next == if complete then None else Some(reported[|reported| - 1].path)
    ensures !complete ==> RootFiles(roots, 0) >= maxFiles || |reported| >= maxStores
    ensures |reported| <= maxStores
  {
    var w := new Walk(maxFiles, maxStores, storeDepth, cursor);
    w.WalkRoots(roots);
    reported, complete, next := w.reported, w.stop.None?, None;
    assert w.reported[0..] == w.reported;
    if w.stop.Some? {
      var reason := w.stop.value;
      assert reason.Files? || reason.StoreLimit?;
    }
    if !complete && (reported != [] || cursor.Some?) {
      next := if reported != [] then Some(reported[|reported| - 1].path) else cursor;
    }
  }

  /** A run reports, in order, the first stores due after its cursor: all of them
    when it completes, at least one when it does not. Only the first can be
    partial, and only in a run that does not complete. */
  ghost predicate RunOf(all: seq<Path>, cursor: Option<Path>, reported: seq<Report>, complete: bool) {
    && PathsOf(reported) <= After(cursor, all)
    && (if complete then PathsOf(reported) == After(cursor, all) else reported != [])
    && (forall i :: 0 <= i < |reported| && reported[i].partial ==> i == 0 && !complete)
  }

  /** The runs of one cycle so far: each resumes after the last store the one
    before it reported, and only the last can be the completing one. */
  ghost predicate CycleOf(all: seq<Path>, cursor: Option<Path>, runs: seq<seq<Report>>, complete: bool)
    decreases |runs|
  {
    if runs == [] then !complete
    else
      RunOf(all, cursor, runs[0], complete && |runs| == 1) &&
      (|runs| > 1 ==> CycleOf(all, Some(runs[0][|runs[0]| - 1].path), runs[1..], complete))
  }

  ghost function AllReports(runs: seq<seq<Report>>): seq<Report> {
    if runs == [] then [] else runs[0] + AllReports(runs[1..])
  }

  /** However the budgets cut a cycle into runs, its runs together report the
    stores of one uninterrupted walk: each once, in path order, all of them once
    it completes; and it completes within one run per store, plus one. */
  lemma Cycle(roots: seq<Root>, storeDepth: nat, runs: seq<seq<Report>>, complete: bool)
    requires Rooted(roots) && CycleOf(RootStores(roots, storeDepth, 0), None, runs, complete)
    ensures var all := RootStores(roots, storeDepth, 0);
            && PathsOf(AllReports(runs)) <= all
            && (complete ==> PathsOf(AllReports(runs)) == all)
            && |runs| <= |all| + 1
    ensures Increasing(PathsOf(AllReports(runs)))
  {
    hide Compare, CycleOf;
    var all := RootStores(roots, storeDepth, 0);
    RootsIncreasing(roots, storeDepth, 0);
    AllAfter(None, all);
    CycleFrom(all, 0, None, runs, complete);
    assert all[0..] == all;
  }

  /** Once a cycle completes, the store of every regular file below a root that
    counts has been reported. */
  lemma EveryFileReported(roots: seq<Root>, storeDepth: nat, runs: seq<seq<Report>>, j: nat, names: Path)
    requires Rooted(roots) && CycleOf(RootStores(roots, storeDepth, 0), None, runs, true)
    requires j < |roots| && Kept(roots, j) && names != [] && At(roots[j].node, names) == Some(ScanTree.File)
    ensures roots[j].path + StoreOf(names, Level(0, storeDepth)) in PathsOf(AllReports(runs))
  {
    hide Compare, CycleOf, RootStores, Stores, Kept, LeadsToStore, At;
    var root, store := roots[j], StoreOf(names, Level(0, storeDepth));
    assert Listed(root.node);
    Cycle(roots, storeDepth, runs, true);
    OneStoreEach(root.path, root.node, storeDepth, names, store);
    StoresAre(root.path, 0, root.node, storeDepth, store);
    RootStoresAre(roots, storeDepth, 0, root.path + store);
  }

  lemma {:induction false} CycleFrom(all: seq<Path>, m: nat, cursor: Option<Path>, runs: seq<seq<Report>>, complete: bool)
    requires Increasing(all) && m <= |all| && After(cursor, all) == all[m..] && CycleOf(all, cursor, runs, complete)
    ensures PathsOf(AllReports(runs)) <= all[m..]
    ensures complete ==> PathsOf(AllReports(runs)) == all[m..]
    ensures |runs| <= |all| - m + 1
    decreases |runs|
  {
    hide Compare, Increasing, PathsOf, After;
    if runs != [] {
      var first, rest := runs[0], runs[1..];
      if |runs| == 1 {
        assert AllReports(runs) == first;
      } else {
        var k := m + |first|;
        LastReport(all, m, first);
        AfterAt(all, k);
        CycleFrom(all, k, Some(all[k - 1]), rest, complete);
        ReportsJoin(all, m, first, AllReports(rest));
      }
    }
  }

  lemma LastReport(all: seq<Path>, m: nat, first: seq<Report>)
    requires m <= |all| && first != [] && PathsOf(first) <= all[m..]
    ensures m + |first| <= |all| && first[|first| - 1].path == all[m + |first| - 1]
  {
    assert PathsOf(first)[|first| - 1] == all[m..][|first| - 1];
  }

  lemma ReportsJoin(all: seq<Path>, m: nat, first: seq<Report>, rest: seq<Report>)
    requires m + |first| <= |all| && PathsOf(first) <= all[m..] && PathsOf(rest) <= all[m + |first|..]
    ensures PathsOf(first + rest) <= all[m..]
    ensures PathsOf(rest) == all[m + |first|..] ==> PathsOf(first + rest) == all[m..]
  {
    hide PathsOf;
    assert PathsOf(first + rest) == PathsOf(first) + PathsOf(rest);
    assert all[m..] == all[m..m + |first|] + all[m + |first|..];
  }

  lemma {:induction false} AllAfter(cursor: Option<Path>, s: seq<Path>)
    requires cursor.None? || forall i :: 0 <= i < |s| ==> Compare(s[i], cursor.value) > 0
    ensures After(cursor, s) == s
  {
    hide Compare;
    if s != [] {
      AllAfter(cursor, s[1..]);
    }
  }

  lemma {:induction false} NoneAfter(cursor: Path, s: seq<Path>)
    requires forall i :: 0 <= i < |s| ==> Compare(s[i], cursor) <= 0
    ensures After(Some(cursor), s) == []
  {
    hide Compare;
    if s != [] {
      NoneAfter(cursor, s[1..]);
    }
  }

  lemma UpTo(all: seq<Path>, k: nat)
    requires Increasing(all) && 0 < k <= |all|
    ensures After(Some(all[k - 1]), all[..k]) == []
  {
    hide Compare, After;
    var c := all[k - 1];
    PathsEqual(c, c);
    assert forall i :: 0 <= i < k - 1 ==> Compare(all[i], c) < 0;
    NoneAfter(c, all[..k]);
  }

  lemma From(all: seq<Path>, k: nat)
    requires Increasing(all) && 0 < k <= |all|
    ensures After(Some(all[k - 1]), all[k..]) == all[k..]
  {
    hide Compare, After;
    var c := all[k - 1];
    forall i | 0 <= i < |all| - k
      ensures Compare(all[k..][i], c) > 0
    {
      assert Compare(c, all[k + i]) < 0;
      PathsEqual(c, all[k + i]);
    }
    AllAfter(Some(c), all[k..]);
  }

  /** What follows a cursor that is itself one of the stores. */
  lemma AfterAt(all: seq<Path>, k: nat)
    requires Increasing(all) && 0 < k <= |all|
    ensures After(Some(all[k - 1]), all) == all[k..]
  {
    hide *;
    UpTo(all, k);
    From(all, k);
    AfterConcat(Some(all[k - 1]), all[..k], all[k..]);
    assert all[..k] + all[k..] == all;
  }

  // ---- trees that change from run to run ----

  /** The runs of one cycle, each over the stores its own tree has. */
  ghost predicate CycleOver(alls: seq<seq<Path>>, cursor: Option<Path>, runs: seq<seq<Report>>, complete: bool)
    requires |alls| == |runs|
    decreases |runs|
  {
    if runs == [] then !complete
    else
      RunOf(alls[0], cursor, runs[0], complete && |runs| == 1) &&
      (|runs| > 1 ==> CycleOver(alls[1..], Some(runs[0][|runs[0]| - 1].path), runs[1..], complete))
  }

  predicate Later(cursor: Option<Path>, x: Path) {
    cursor.None? || Compare(x, cursor.value) > 0
  }

  lemma {:induction false} InAfter(cursor: Option<Path>, s: seq<Path>, x: Path)
    ensures x in After(cursor, s) <==> x in s && Later(cursor, x)
  {
    hide Compare;
    if s != [] {
      InAfter(cursor, s[1..], x);
    }
  }

  lemma {:induction false} AfterIncreases(cursor: Option<Path>, s: seq<Path>)
    requires Increasing(s)
    ensures Increasing(After(cursor, s))
  {
    hide Compare;
    if s != [] {
      var rest := After(cursor, s[1..]);
      AfterIncreases(cursor, s[1..]);
      forall j | 0 <= j < |rest|
        ensures Compare(s[0], rest[j]) < 0
      {
        InAfter(cursor, s[1..], rest[j]);
        assert rest[j] in rest;
      }
    }
  }

  /** A run's reports: in order, all after the cursor, and all that are due up to the
    last of them. */
  lemma RunReports(all: seq<Path>, cursor: Option<Path>, first: seq<Report>, complete: bool, x: Path)
    requires Increasing(all) && RunOf(all, cursor, first, complete)
    ensures Increasing(PathsOf(first))
    ensures x in PathsOf(first) ==> x in all && Later(cursor, x)
    ensures x in all && Later(cursor, x) && (complete || Compare(x, first[|first| - 1].path) <= 0) ==> x in PathsOf(first)
  {
    hide Compare, After;
    var due, r := After(cursor, all), PathsOf(first);
    AfterIncreases(cursor, all);
    InAfter(cursor, all, x);
    assert forall i :: 0 <= i < |r| ==> r[i] == due[i];
    if x in due && !complete && Compare(x, first[|first| - 1].path) <= 0 {
      var j :| 0 <= j < |due| && due[j] == x;
      PathsEqual(r[|r| - 1], x);
      assert j < |r|;
      assert r[j] == x;
    }
  }

  /** Reports after reports: still in order, and all after the cursor. */
  lemma {:induction false} ChangesOrder(alls: seq<seq<Path>>, cursor: Option<Path>, runs: seq<seq<Report>>, complete: bool)
    requires |alls| == |runs| && (forall i :: 0 <= i < |alls| ==> Increasing(alls[i])) && CycleOver(alls, cursor, runs, complete)
    ensures Increasing(PathsOf(AllReports(runs)))
    ensures forall x :: x in PathsOf(AllReports(runs)) ==> Later(cursor, x)
    ensures |runs| <= |AllReports(runs)| + 1
    decreases |runs|
  {
    NoReports();
    hide Compare, After, PathsOf, Increasing;
    if runs != [] {
      var first, rest := runs[0], AllReports(runs[1..]);
      RunReports(alls[0], cursor, first, complete && |runs| == 1, []);
      forall x
        ensures x in PathsOf(first) ==> Later(cursor, x)
      {
        RunReports(alls[0], cursor, first, complete && |runs| == 1, x);
      }
      if |runs| == 1 {
        assert first + [] == first;
      } else {
        var c := first[|first| - 1].path;
        ChangesOrder(alls[1..], Some(c), runs[1..], complete);
        ReportsFollow(cursor, first, rest);
      }
    }
  }

  lemma NoReports()
    ensures PathsOf([]) == [] && Increasing(PathsOf([]))
  {
  }

  lemma ReportsFollow(cursor: Option<Path>, first: seq<Report>, rest: seq<Report>)
    requires first != [] && Increasing(PathsOf(first)) && Increasing(PathsOf(rest))
    requires forall x :: x in PathsOf(first) ==> Later(cursor, x)
    requires forall x :: x in PathsOf(rest) ==> Later(Some(first[|first| - 1].path), x)
    ensures Increasing(PathsOf(first + rest)) && forall x :: x in PathsOf(first + rest) ==> Later(cursor, x)
  {
    hide Compare;
    var a, b, c := PathsOf(first), PathsOf(rest), first[|first| - 1].path;
    assert PathsOf(first + rest) == a + b;
    assert c == a[|a| - 1] && Later(cursor, c);
    forall i, j | 0 <= i < |a| && 0 <= j < |b|
      ensures Compare(a[i], b[j]) < 0
    {
      assert b[j] in b && Later(Some(c), b[j]);
      PathsEqual(c, b[j]);
      if i < |a| - 1 {
        PathsTransitive(a[i], c, b[j]);
      }
    }
    IncreasingConcat(a, b);
    forall j | 0 <= j < |b|
      ensures Later(cursor, b[j])
    {
      assert b[j] in b && Later(Some(c), b[j]);
      if cursor.Some? {
        PathsEqual(c, cursor.value);
        PathsEqual(b[j], c);
        PathsTransitive(cursor.value, c, b[j]);
        PathsEqual(b[j], cursor.value);
      }
    }
  }

  /** A store is reported by some run that met it, and once the cycle completes by one
    run if every run would have met it. */
  lemma {:induction false} ChangesReport(alls: seq<seq<Path>>, cursor: Option<Path>, runs: seq<seq<Report>>, complete: bool, x: Path)
    requires |alls| == |runs| && (forall i :: 0 <= i < |alls| ==> Increasing(alls[i])) && CycleOver(alls, cursor, runs, complete)
    ensures x in PathsOf(AllReports(runs)) ==> exists i :: 0 <= i < |alls| && x in alls[i]
    ensures complete && Later(cursor, x) && (forall i :: 0 <= i < |alls| ==> x in alls[i]) ==> x in PathsOf(AllReports(runs))
    decreases |runs|
  {
    hide Compare, After, PathsOf, Increasing;
    if runs != [] {
      var first, rest := runs[0], AllReports(runs[1..]);
      RunReports(alls[0], cursor, first, complete && |runs| == 1, x);
      InEither(first, rest, x);
      if |runs| > 1 {
        var c := first[|first| - 1].path;
        ChangesReport(alls[1..], Some(c), runs[1..], complete, x);
        if x in PathsOf(rest) {
          var i :| 0 <= i < |alls[1..]| && x in alls[1..][i];
          assert x in alls[i + 1];
        }
      }
    }
  }

  lemma InEither(first: seq<Report>, rest: seq<Report>, x: Path)
    ensures x in PathsOf(first + rest) <==> x in PathsOf(first) || x in PathsOf(rest)
  {
    assert PathsOf(first + rest) == PathsOf(first) + PathsOf(rest);
  }

  /** The stores of each run's tree. */
  ghost function StoresOf(trees: seq<seq<Root>>, storeDepth: nat): seq<seq<Path>>
    requires forall i :: 0 <= i < |trees| ==> Rooted(trees[i])
  {
    seq(|trees|, i requires 0 <= i < |trees| && Rooted(trees[i]) => RootStores(trees[i], storeDepth, 0))
  }

  /** Whatever files, directories and git credentials come and go between the runs of
    a cycle: no store is reported twice and they come in path order, each was met by
    a run, and once the cycle completes every store all of its runs could meet is
    reported. Every run but the last reports one at least. */
  lemma CycleOverChanges(trees: seq<seq<Root>>, storeDepth: nat, runs: seq<seq<Report>>, complete: bool)
    requires |trees| == |runs| && (forall i :: 0 <= i < |trees| ==> Rooted(trees[i]))
    requires CycleOver(StoresOf(trees, storeDepth), None, runs, complete)
    ensures Increasing(PathsOf(AllReports(runs))) && |runs| <= |AllReports(runs)| + 1
    ensures var alls := StoresOf(trees, storeDepth);
            forall x :: x in PathsOf(AllReports(runs)) ==> exists i :: 0 <= i < |alls| && x in alls[i]
    ensures var alls := StoresOf(trees, storeDepth);
            complete ==> forall x :: (forall i :: 0 <= i < |alls| ==> x in alls[i]) ==> x in PathsOf(AllReports(runs))
  {
    var alls := StoresOf(trees, storeDepth);
    forall i | 0 <= i < |alls|
      ensures Increasing(alls[i])
    {
      RootsIncreasing(trees[i], storeDepth, 0);
    }
    hide *;
    ChangesOrder(alls, None, runs, complete);
    forall x
      ensures x in PathsOf(AllReports(runs)) ==> exists i :: 0 <= i < |alls| && x in alls[i]
      ensures complete && (forall i :: 0 <= i < |alls| ==> x in alls[i]) ==> x in PathsOf(AllReports(runs))
    {
      AlwaysLater(x);
      ChangesReport(alls, None, runs, complete, x);
    }
  }

  lemma AlwaysLater(x: Path)
    ensures Later(None, x)
  {
  }

  ghost function RootDue(roots: seq<Root>, storeDepth: nat, i: nat): seq<Path>
    requires i < |roots| && roots[i].node.Dir?
  {
    if Kept(roots, i) then Stores(roots[i].path, 0, roots[i].node, storeDepth) else []
  }

  lemma RootsDue(cursor: Option<Path>, roots: seq<Root>, storeDepth: nat, i: nat)
    requires i < |roots| && forall k :: 0 <= k < |roots| ==> roots[k].node.Dir?
    ensures After(cursor, RootStores(roots, storeDepth, i))
         == After(cursor, RootDue(roots, storeDepth, i)) + After(cursor, RootStores(roots, storeDepth, i + 1))
  {
    AfterConcat(cursor, RootDue(roots, storeDepth, i), RootStores(roots, storeDepth, i + 1));
  }

  lemma NoRootsDue(cursor: Option<Path>, roots: seq<Root>, storeDepth: nat)
    requires forall k :: 0 <= k < |roots| ==> roots[k].node.Dir?
    ensures After(cursor, RootStores(roots, storeDepth, |roots|)) == []
  {
  }

  lemma NothingMore(r: seq<Report>, was: Option<Reason>, stop: Option<Reason>, due: seq<Path>)
    requires (was.Some? ==> stop.Some?) && (stop.None? ==> due == [])
    ensures Advanced(r, was, r, stop, due)
  {
    assert r[|r|..] == [];
  }

  lemma OwnDue(cursor: Option<Path>, path: Path, own: bool)
    ensures After(cursor, if own then [path] else [])
         == if own && (cursor.None? || Compare(path, cursor.value) > 0) then [path] else []
  {
    assert ([path])[1..] == [];
  }

  lemma StoresDue(cursor: Option<Path>, path: Path, depth: nat, node: Node, storeDepth: nat)
    requires node.Dir?
    ensures After(cursor, Stores(path, depth, node, storeDepth))
         == After(cursor, if OwnStore(node) then [path] else []) + After(cursor, ChildStores(path, depth, node, storeDepth, 0))
  {
    AfterConcat(cursor, if OwnStore(node) then [path] else [], ChildStores(path, depth, node, storeDepth, 0));
  }

  lemma ChildrenDue(cursor: Option<Path>, path: Path, depth: nat, node: Node, storeDepth: nat, i: nat)
    requires node.Dir? && i < |node.entries|
    ensures After(cursor, ChildStores(path, depth, node, storeDepth, i))
         == After(cursor, EntryStores(path, depth, node, storeDepth, i))
          + After(cursor, ChildStores(path, depth, node, storeDepth, i + 1))
  {
    hide EntryStores;
    AfterConcat(cursor, EntryStores(path, depth, node, storeDepth, i), ChildStores(path, depth, node, storeDepth, i + 1));
  }

  lemma NoneDue(cursor: Option<Path>, path: Path, depth: nat, node: Node, storeDepth: nat)
    requires node.Dir?
    ensures After(cursor, ChildStores(path, depth, node, storeDepth, |node.entries|)) == []
  {
  }
}
