/** The file tree a scan walks over, which of its directories are stores, and
  the order they come in. */
module ScanTree {
  import opened Bits
  import opened Paths

  /** What a walk can meet. Entries it never visits (canaries, exclusions,
    regenerable directories, other mounts, unreadable ones) are not part of the
    tree. A `.git` directory is not walked; `hit` is whether this run's look at its
    config finds a credential, which depends on its content budget and the cache. */
  datatype Node = File | Other | Git(hit: bool) | Dir(entries: seq<Entry>)
  datatype Entry = Entry(name: Name, node: Node)
  datatype Root = Root(path: Path, node: Node)

  /** Directory listings are sorted by strcmp, so names are distinct. */
  ghost predicate Listed(node: Node) {
    node.Dir? ==>
      (forall i, j :: 0 <= i < j < |node.entries| ==> CompareNames(node.entries[i].name, node.entries[j].name) < 0) &&
      (forall i :: 0 <= i < |node.entries| ==> Listed(node.entries[i].node))
  }

  /** A directory above store depth is a store of its own when it holds a file
    or its git config is reported. */
  ghost predicate OwnStore(node: Node)
    requires node.Dir?
  {
    exists i :: 0 <= i < |node.entries| && Counts(node.entries[i].node)
  }

  predicate Counts(node: Node) {
    node.File? || (node.Git? && node.hit)
  }

  /** The stores of one uninterrupted walk from a directory at `depth`. */
  ghost function Stores(path: Path, depth: nat, node: Node, storeDepth: nat): seq<Path>
    requires node.Dir?
    decreases node, |node.entries| + 1
  {
    (if OwnStore(node) then [path] else []) + ChildStores(path, depth, node, storeDepth, 0)
  }

  /** The stores below entries i and up. */
  ghost function ChildStores(path: Path, depth: nat, node: Node, storeDepth: nat, i: nat): seq<Path>
    requires node.Dir? && i <= |node.entries|
    decreases node, |node.entries| - i
  {
    if i == |node.entries| then []
    else EntryStores(path, depth, node, storeDepth, i) + ChildStores(path, depth, node, storeDepth, i + 1)
  }

  ghost function EntryStores(path: Path, depth: nat, node: Node, storeDepth: nat, i: nat): seq<Path>
    requires node.Dir? && i < |node.entries|
    decreases node, 0
  {
    var e := node.entries[i];
    if !e.node.Dir? then []
    else if depth + 1 >= storeDepth then [path + [e.name]]
    else Stores(path + [e.name], depth + 1, e.node, storeDepth)
  }

  /** The regular files in and below entries i and up. */
  ghost function FileCount(node: Node, i: nat): nat
    requires node.Dir? && i <= |node.entries|
    decreases node, |node.entries| - i
  {
    if i == |node.entries| then 0
    else
      (match node.entries[i].node
       case File => 1
       case Dir(_) => FileCount(node.entries[i].node, 0)
       case _ => 0) + FileCount(node, i + 1)
  }

  const MAX_DEPTH := 48

  /** The regular files a walk counts in and below entries i and up of a store's
    directory at a depth: directories beyond the limit are passed over. */
  ghost function StoreFiles(node: Node, i: nat, depth: nat): nat
    requires node.Dir? && i <= |node.entries|
    decreases node, |node.entries| - i
  {
    if i == |node.entries| || depth > MAX_DEPTH then 0
    else
      (match node.entries[i].node
       case File => 1
       case Dir(_) => StoreFiles(node.entries[i].node, 0, depth + 1)
       case _ => 0) + StoreFiles(node, i + 1, depth)
  }

  lemma {:induction false} StoreFilesBound(node: Node, i: nat, depth: nat)
    requires node.Dir? && i <= |node.entries|
    ensures StoreFiles(node, i, depth) <= FileCount(node, i)
    decreases node, |node.entries| - i
  {
    if i < |node.entries| && depth <= MAX_DEPTH {
      if node.entries[i].node.Dir? {
        StoreFilesBound(node.entries[i].node, 0, depth + 1);
      }
      StoreFilesBound(node, i + 1, depth);
    }
  }

  /** The regular files of a directory itself, from entry i on. */
  ghost function OwnFiles(node: Node, i: nat): nat
    requires node.Dir? && i <= |node.entries|
    decreases |node.entries| - i
  {
    if i == |node.entries| then 0 else (if node.entries[i].node.File? then 1 else 0) + OwnFiles(node, i + 1)
  }

  ghost function EntryFiles(node: Node, i: nat): nat
    requires node.Dir? && i < |node.entries|
  {
    if node.entries[i].node.Dir? then FileCount(node.entries[i].node, 0) else 0
  }

  /** The regular files below its subdirectories, from entry i on. */
  ghost function ChildFiles(node: Node, i: nat): nat
    requires node.Dir? && i <= |node.entries|
    decreases |node.entries| - i
  {
    if i == |node.entries| then 0 else EntryFiles(node, i) + ChildFiles(node, i + 1)
  }

  lemma {:induction false} FilesSplit(node: Node, i: nat)
    requires node.Dir? && i <= |node.entries|
    ensures FileCount(node, i) == OwnFiles(node, i) + ChildFiles(node, i)
    decreases |node.entries| - i
  {
    if i < |node.entries| {
      FilesSplit(node, i + 1);
    }
  }

  /** A root counts unless it lies beneath another or repeats an earlier one. */
  ghost predicate Kept(roots: seq<Root>, i: nat)
    requires i < |roots|
  {
    forall j :: 0 <= j < |roots| && j != i ==>
      !(roots[j].path <= roots[i].path && (roots[j].path != roots[i].path || j < i))
  }

  ghost function RootStores(roots: seq<Root>, storeDepth: nat, i: nat): seq<Path>
    requires i <= |roots| && forall k :: 0 <= k < |roots| ==> roots[k].node.Dir?
    decreases |roots| - i
  {
    if i == |roots| then []
    else (if Kept(roots, i) then Stores(roots[i].path, 0, roots[i].node, storeDepth) else [])
         + RootStores(roots, storeDepth, i + 1)
  }

  /** The regular files below the roots that count, from root i on. */
  ghost function RootFiles(roots: seq<Root>, i: nat): nat
    requires i <= |roots| && forall k :: 0 <= k < |roots| ==> roots[k].node.Dir?
    decreases |roots| - i
  {
    if i == |roots| then 0
    else (if Kept(roots, i) then FileCount(roots[i].node, 0) else 0) + RootFiles(roots, i + 1)
  }

  /** Roots as the scan has them: directories, in path order. */
  ghost predicate Rooted(roots: seq<Root>) {
    && (forall i :: 0 <= i < |roots| ==> roots[i].node.Dir? && Listed(roots[i].node))
    && (forall i, j :: 0 <= i < j < |roots| ==> Compare(roots[i].path, roots[j].path) <= 0)
  }

  // ---- order ----

  ghost predicate Increasing(s: seq<Path>) {
    forall i, j :: 0 <= i < j < |s| ==> Compare(s[i], s[j]) < 0
  }

  ghost predicate AllUnder(s: seq<Path>, p: Path) {
    forall i :: 0 <= i < |s| ==> p <= s[i]
  }

  /** Everything in s comes before everything in t. */
  ghost predicate Before(s: seq<Path>, t: seq<Path>) {
    forall i, j :: 0 <= i < |s| && 0 <= j < |t| ==> Compare(s[i], t[j]) < 0
  }

  lemma IncreasingConcat(s: seq<Path>, t: seq<Path>)
    requires Increasing(s) && Increasing(t) && Before(s, t)
    ensures Increasing(s + t)
  {
    hide Compare;
  }

  lemma PrefixSplit(p: Path, x: Path) returns (tail: Path)
    requires p <= x
    ensures x == p + tail
  {
    tail := x[|p|..];
  }

  /** Everything below entry i, and everything below later entries, is beneath
    the directory and beneath those entries. */
  lemma {:induction false} StoresUnder(path: Path, depth: nat, node: Node, storeDepth: nat)
    requires node.Dir?
    ensures AllUnder(Stores(path, depth, node, storeDepth), path)
    decreases node, |node.entries| + 1
  {
    ChildrenUnder(path, depth, node, storeDepth, 0);
  }

  lemma {:induction false} ChildrenUnder(path: Path, depth: nat, node: Node, storeDepth: nat, i: nat)
    requires node.Dir? && i <= |node.entries|
    ensures AllUnder(ChildStores(path, depth, node, storeDepth, i), path)
    decreases node, |node.entries| - i
  {
    if i < |node.entries| {
      EntryUnder(path, depth, node, storeDepth, i);
      ChildrenUnder(path, depth, node, storeDepth, i + 1);
      UnderWeakens(EntryStores(path, depth, node, storeDepth, i), path + [node.entries[i].name], path);
    }
  }

  lemma {:induction false} EntryUnder(path: Path, depth: nat, node: Node, storeDepth: nat, i: nat)
    requires node.Dir? && i < |node.entries|
    ensures AllUnder(EntryStores(path, depth, node, storeDepth, i), path + [node.entries[i].name])
    decreases node, 0
  {
    var e := node.entries[i];
    if e.node.Dir? && depth + 1 < storeDepth {
      StoresUnder(path + [e.name], depth + 1, e.node, storeDepth);
    }
  }

  lemma UnderWeakens(s: seq<Path>, p: Path, q: Path)
    requires AllUnder(s, p) && q <= p
    ensures AllUnder(s, q)
  {
  }

  /** x lies beneath one of the entries i and up. */
  ghost predicate UnderLater(x: Path, path: Path, node: Node, i: nat)
    requires node.Dir?
  {
    exists j :: i <= j < |node.entries| && path + [node.entries[j].name] <= x
  }

  ghost predicate AllUnderLater(s: seq<Path>, path: Path, node: Node, i: nat)
    requires node.Dir?
  {
    forall k :: 0 <= k < |s| ==> UnderLater(s[k], path, node, i)
  }

  lemma {:induction false} ChildrenUnderLater(path: Path, depth: nat, node: Node, storeDepth: nat, i: nat)
    requires node.Dir? && i <= |node.entries|
    ensures AllUnderLater(ChildStores(path, depth, node, storeDepth, i), path, node, i)
    decreases |node.entries| - i
  {
    if i < |node.entries| {
      var first, rest := EntryStores(path, depth, node, storeDepth, i), ChildStores(path, depth, node, storeDepth, i + 1);
      EntryUnder(path, depth, node, storeDepth, i);
      ChildrenUnderLater(path, depth, node, storeDepth, i + 1);
      forall k | 0 <= k < |first + rest|
        ensures UnderLater((first + rest)[k], path, node, i)
      {
        if k < |first| {
          assert (first + rest)[k] == first[k] && path + [node.entries[i].name] <= first[k];
        } else {
          assert (first + rest)[k] == rest[k - |first|] && UnderLater(rest[k - |first|], path, node, i + 1);
        }
      }
    }
  }

  /** Beneath an earlier entry comes before beneath a later one. */
  lemma EarlierEntry(path: Path, node: Node, i: nat, x: Path, y: Path)
    requires node.Dir? && Listed(node) && i < |node.entries|
    requires path + [node.entries[i].name] <= x && UnderLater(y, path, node, i + 1)
    ensures Compare(x, y) < 0
  {
    var j :| i + 1 <= j < |node.entries| && path + [node.entries[j].name] <= y;
    var u := PrefixSplit(path + [node.entries[i].name], x);
    var v := PrefixSplit(path + [node.entries[j].name], y);
    SiblingsOrder(path, node.entries[i].name, u, node.entries[j].name, v);
  }

  lemma {:induction false} ChildrenIncreasing(path: Path, depth: nat, node: Node, storeDepth: nat, i: nat)
    requires node.Dir? && Listed(node) && i <= |node.entries|
    ensures Increasing(ChildStores(path, depth, node, storeDepth, i))
    decreases node, |node.entries| - i
  {
    hide Compare;
    if i < |node.entries| {
      var first, rest := EntryStores(path, depth, node, storeDepth, i), ChildStores(path, depth, node, storeDepth, i + 1);
      ChildrenIncreasing(path, depth, node, storeDepth, i + 1);
      assert Increasing(first) by {
        var e := node.entries[i];
        if e.node.Dir? && depth + 1 < storeDepth {
          StoresIncreasing(path + [e.name], depth + 1, e.node, storeDepth);
        }
      }
      EntryUnder(path, depth, node, storeDepth, i);
      ChildrenUnderLater(path, depth, node, storeDepth, i + 1);
      forall k, m | 0 <= k < |first| && 0 <= m < |rest|
        ensures Compare(first[k], rest[m]) < 0
      {
        EarlierEntry(path, node, i, first[k], rest[m]);
      }
      IncreasingConcat(first, rest);
    }
  }

  /** The stores of a walk come in strictly increasing path order. */
  lemma {:induction false} StoresIncreasing(path: Path, depth: nat, node: Node, storeDepth: nat)
    requires node.Dir? && Listed(node)
    ensures Increasing(Stores(path, depth, node, storeDepth))
    decreases node, |node.entries| + 1
  {
    hide Compare;
    var own, rest := if OwnStore(node) then [path] else [], ChildStores(path, depth, node, storeDepth, 0);
    ChildrenIncreasing(path, depth, node, storeDepth, 0);
    ChildrenUnderLater(path, depth, node, storeDepth, 0);
    forall k | 0 <= k < |rest|
      ensures Compare(path, rest[k]) < 0
    {
      assert UnderLater(rest[k], path, node, 0);
      var j :| 0 <= j < |node.entries| && path + [node.entries[j].name] <= rest[k];
      var u := PrefixSplit(path + [node.entries[j].name], rest[k]);
      assert path + [node.entries[j].name] + u == path + ([node.entries[j].name] + u);
      AncestorFirst(path, [node.entries[j].name] + u);
    }
    IncreasingConcat(own, rest);
  }

  /** Kept roots are never beneath one another, so their stores do not mix. */
  lemma KeptApart(roots: seq<Root>, i: nat, j: nat, x: Path, y: Path)
    requires Rooted(roots) && i < j < |roots| && Kept(roots, i) && Kept(roots, j)
    requires roots[i].path <= x && roots[j].path <= y
    ensures Compare(x, y) < 0
  {
    var p, q := roots[i].path, roots[j].path;
    assert !(p <= q);
    var u := PrefixSplit(p, x);
    WholeSubtreeBefore(p, u, q);
    if q != y {
      var v := PrefixSplit(q, y);
      AncestorFirst(q, v);
      PathsTransitive(x, q, y);
    }
  }

  ghost predicate UnderLaterRoot(x: Path, roots: seq<Root>, i: nat) {
    exists j :: i <= j < |roots| && Kept(roots, j) && roots[j].path <= x
  }

  lemma {:induction false} RootsIncreasing(roots: seq<Root>, storeDepth: nat, i: nat)
    requires Rooted(roots) && i <= |roots|
    ensures var s := RootStores(roots, storeDepth, i);
            Increasing(s) && forall k :: 0 <= k < |s| ==> UnderLaterRoot(s[k], roots, i)
    decreases |roots| - i
  {
    hide Compare, Kept, Stores, Listed;
    if i < |roots| {
      RootsIncreasing(roots, storeDepth, i + 1);
      var rest := RootStores(roots, storeDepth, i + 1);
      forall k | 0 <= k < |rest|
        ensures UnderLaterRoot(rest[k], roots, i)
      {
        assert UnderLaterRoot(rest[k], roots, i + 1);
      }
      if Kept(roots, i) {
        var first := Stores(roots[i].path, 0, roots[i].node, storeDepth);
        StoresIncreasing(roots[i].path, 0, roots[i].node, storeDepth);
        StoresUnder(roots[i].path, 0, roots[i].node, storeDepth);
        forall k, m | 0 <= k < |first| && 0 <= m < |rest|
          ensures Compare(first[k], rest[m]) < 0
        {
          assert UnderLaterRoot(rest[m], roots, i + 1);
          var j :| i + 1 <= j < |roots| && Kept(roots, j) && roots[j].path <= rest[m];
          KeptApart(roots, i, j, first[k], rest[m]);
        }
        IncreasingConcat(first, rest);
        assert forall k :: 0 <= k < |first| ==> UnderLaterRoot(first[k], roots, i);
      } else {
        assert [] + rest == rest;
      }
    }
  }

  // ---- which directories are stores ----

  /** Where an entry of that name is, or the length of the listing. */
  function Find(entries: seq<Entry>, name: Name): (i: nat)
    ensures i <= |entries| && (i < |entries| ==> entries[i].name == name)
    ensures forall j :: 0 <= j < i ==> entries[j].name != name
  {
    if entries == [] || entries[0].name == name then 0 else 1 + Find(entries[1..], name)
  }

  /** What following the names leads to, if each but the last leads to a directory. */
  function At(node: Node, names: Path): Option<Node>
    decreases |names|
  {
    if names == [] then Some(node)
    else if !node.Dir? then None
    else
      var i := Find(node.entries, names[0]);
      if i == |node.entries| then None else At(node.entries[i].node, names[1..])
  }

  /** How far below the start the deep stores are: at the store depth, or right
    below the start if that is deeper already. */
  function Level(depth: nat, storeDepth: nat): nat {
    if depth + 1 >= storeDepth then 1 else storeDepth - depth
  }

  /** The names lead to a store: a directory that many levels down, or one above
    that which holds a file or a git hit itself. */
  ghost predicate LeadsToStore(node: Node, names: Path, level: nat) {
    var at := At(node, names);
    && at.Some? && at.value.Dir?
    && (|names| == level || (|names| < level && exists i :: 0 <= i < |at.value.entries| && Counts(at.value.entries[i].node)))
  }

  /** Names in a listing are distinct. */
  lemma FindsOnly(node: Node, i: nat)
    requires node.Dir? && Listed(node) && i < |node.entries|
    ensures Find(node.entries, node.entries[i].name) == i
  {
    NamesEqual(node.entries[i].name, node.entries[i].name);
  }

  ghost predicate InEntry(path: Path, depth: nat, node: Node, storeDepth: nat, i: nat, x: Path)
    requires node.Dir? && i < |node.entries|
  {
    x in EntryStores(path, depth, node, storeDepth, i)
  }

  lemma {:induction false} InChildren(path: Path, depth: nat, node: Node, storeDepth: nat, i: nat, x: Path)
    requires node.Dir? && i <= |node.entries|
    ensures x in ChildStores(path, depth, node, storeDepth, i)
       <==> exists j :: i <= j < |node.entries| && InEntry(path, depth, node, storeDepth, j, x)
    decreases |node.entries| - i
  {
    if i < |node.entries| {
      InChildren(path, depth, node, storeDepth, i + 1, x);
      if x in EntryStores(path, depth, node, storeDepth, i) {
        assert InEntry(path, depth, node, storeDepth, i, x);
      }
    }
  }

  /** The walk's own stores are exactly the directories the names of which lead to one. */
  lemma {:induction false} StoresAre(path: Path, depth: nat, node: Node, storeDepth: nat, names: Path)
    requires node.Dir? && Listed(node)
    ensures path + names in Stores(path, depth, node, storeDepth) <==> LeadsToStore(node, names, Level(depth, storeDepth))
    decreases node, |node.entries| + 1
  {
    hide Compare, CompareNames;
    var x := path + names;
    InChildren(path, depth, node, storeDepth, 0, x);
    if names == [] {
      assert x == path;
      forall j | 0 <= j < |node.entries|
        ensures !InEntry(path, depth, node, storeDepth, j, x)
      {
        EntryUnder(path, depth, node, storeDepth, j);
      }
    } else {
      assert x != path;
      var i := Find(node.entries, names[0]);
      forall j | 0 <= j < |node.entries| && j != i
        ensures !InEntry(path, depth, node, storeDepth, j, x)
      {
        FindsOnly(node, j);
        EntryUnder(path, depth, node, storeDepth, j);
        NotUnder(path, names, node.entries[j].name);
      }
      if i < |node.entries| {
        EntryStoresAre(path, depth, node, storeDepth, i, names);
        assert InEntry(path, depth, node, storeDepth, i, x) <==> x in EntryStores(path, depth, node, storeDepth, i);
      }
    }
  }

  lemma NotUnder(path: Path, names: Path, name: Name)
    requires names != [] && names[0] != name
    ensures !(path + [name] <= path + names)
  {
    assert (path + names)[|path|] == names[0] && (path + [name])[|path|] == name;
  }

  lemma {:induction false} EntryStoresAre(path: Path, depth: nat, node: Node, storeDepth: nat, i: nat, names: Path)
    requires node.Dir? && Listed(node) && i < |node.entries| && names != [] && Find(node.entries, names[0]) == i
    ensures path + names in EntryStores(path, depth, node, storeDepth, i) <==> LeadsToStore(node, names, Level(depth, storeDepth))
    decreases node, 0
  {
    var e := node.entries[i];
    var child, rest := path + [e.name], names[1..];
    assert names == [e.name] + rest && path + names == child + rest;
    OneDown(node, i, names, Level(depth, storeDepth));
    if e.node.Dir? {
      if depth + 1 >= storeDepth {
        assert child + rest == child <==> rest == [];
      } else {
        StoresAre(child, depth + 1, e.node, storeDepth, rest);
        assert Level(depth, storeDepth) == Level(depth + 1, storeDepth) + 1;
      }
    }
  }

  lemma OneDown(node: Node, i: nat, names: Path, level: nat)
    requires node.Dir? && i < |node.entries| && names != [] && Find(node.entries, names[0]) == i && level > 0
    ensures LeadsToStore(node, names, level) <==> LeadsToStore(node.entries[i].node, names[1..], level - 1)
    ensures LeadsToStore(node.entries[i].node, names[1..], level - 1) ==> node.entries[i].node.Dir?
    ensures level == 1 ==> (LeadsToStore(node, names, level) <==> node.entries[i].node.Dir? && names[1..] == [])
  {
    var child, rest := node.entries[i].node, names[1..];
    assert At(node, names) == At(child, rest);
    assert rest == [] ==> At(child, rest) == Some(child);
  }

  /** The store a file belongs to: its directory, or the one at the store depth above it. */
  function StoreOf(names: Path, level: nat): Path
    requires names != []
  {
    if |names| - 1 < level then names[..|names| - 1] else names[..level]
  }

  /** The store is one that takes in the file: all that lies below it when it is at the
    store depth, and its own files only when it is above. */
  predicate TakesIn(store: Path, names: Path, level: nat) {
    |store| < |names| && store <= names && (|store| == level || |store| == |names| - 1)
  }

  lemma {:induction false} AlongTheWay(node: Node, names: Path, k: nat)
    requires k < |names| && At(node, names).Some?
    ensures At(node, names[..k]).Some? && At(node, names[..k]).value.Dir?
    ensures k == |names| - 1 ==>
              var dir := At(node, names[..k]).value.entries;
              var i := Find(dir, names[k]); i < |dir| && dir[i].node == At(node, names).value
  {
    if k > 0 {
      var i := Find(node.entries, names[0]);
      assert names[..k][1..] == names[1..][..k - 1] && names[1..][k - 1] == names[k];
      AlongTheWay(node.entries[i].node, names[1..], k - 1);
    } else {
      assert names[..0] == [];
    }
  }

  /** Every regular file lies in exactly one store. */
  lemma OneStoreEach(path: Path, node: Node, storeDepth: nat, names: Path, store: Path)
    requires node.Dir? && Listed(node) && names != [] && At(node, names) == Some(File)
    ensures var level := Level(0, storeDepth);
            path + store in Stores(path, 0, node, storeDepth) && TakesIn(store, names, level) <==> store == StoreOf(names, level)
  {
    hide Stores, Listed;
    var level := Level(0, storeDepth);
    StoresAre(path, 0, node, storeDepth, store);
    var mine := StoreOf(names, level);
    AlongTheWay(node, names, |mine|);
    if store == mine && |mine| < level {
      var dir := At(node, mine).value.entries;
      assert Counts(dir[Find(dir, names[|mine|])].node);
    }
  }

  // ---- over all roots ----

  lemma {:induction false} RootStoresAre(roots: seq<Root>, storeDepth: nat, i: nat, x: Path)
    requires Rooted(roots) && i <= |roots|
    ensures x in RootStores(roots, storeDepth, i)
       <==> exists j, names :: i <= j < |roots| && Kept(roots, j) && x == roots[j].path + names
                               && LeadsToStore(roots[j].node, names, Level(0, storeDepth))
    decreases |roots| - i
  {
    hide Compare, Kept, Stores, Listed, LeadsToStore;
    if i < |roots| {
      RootStoresAre(roots, storeDepth, i + 1, x);
      var root := roots[i];
      StoresUnder(root.path, 0, root.node, storeDepth);
      if root.path <= x {
        var names := PrefixSplit(root.path, x);
        StoresAre(root.path, 0, root.node, storeDepth, names);
        forall other | x == root.path + other
          ensures other == names
        {
          assert other == x[|root.path|..];
        }
      }
    }
  }

  /** No root is lost: each lies at or beneath one that counts. */
  lemma {:induction false} KeptCovers(roots: seq<Root>, i: nat) returns (j: nat)
    requires i < |roots|
    ensures j < |roots| && Kept(roots, j) && roots[j].path <= roots[i].path
    decreases |roots[i].path|, i
  {
    if Kept(roots, i) {
      j := i;
    } else {
      var k :| 0 <= k < |roots| && k != i && roots[k].path <= roots[i].path && (roots[k].path != roots[i].path || k < i);
      j := KeptCovers(roots, k);
    }
  }

  // ---- the depth limit ----

  /** How many directories deep the tree below goes. */
  ghost function Height(node: Node, i: nat): nat
    requires node.Dir? && i <= |node.entries|
    decreases node, |node.entries| - i
  {
    if i == |node.entries| then 0
    else
      var rest := Height(node, i + 1);
      var here := if node.entries[i].node.Dir? then 1 + Height(node.entries[i].node, 0) else 0;
      if here > rest then here else rest
  }

  /** Nothing is missed in a store no more than 48 directories deep, and nothing
    deeper is counted. */
  lemma {:induction false} CountsWithin48(node: Node, i: nat, depth: nat)
    requires node.Dir? && i <= |node.entries|
    ensures depth + Height(node, i) <= 48 ==> StoreFiles(node, i, depth) == FileCount(node, i)
    ensures depth >= 49 ==> StoreFiles(node, i, depth) == 0
    decreases node, |node.entries| - i
  {
    if i < |node.entries| {
      if node.entries[i].node.Dir? {
        CountsWithin48(node.entries[i].node, 0, depth + 1);
      }
      CountsWithin48(node, i + 1, depth);
    }
  }
}
