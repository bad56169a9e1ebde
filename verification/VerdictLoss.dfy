/** Where the verdict cache goes wrong: exactly which finishes leave it answering
  for a file nobody read, and the runs that lead there. */
module VerdictLoss {
  import opened Bits
  import opened Paths
  import opened VerdictCache

  /** Some content of this size reads as something else. */
  ghost predicate Varies(pol: Policy, p: Path, size: nat, v: nat) {
    exists c :: |c| == size && pol.rules(p, c) != v
  }

  /** An overlooked file whose verdict goes, or which may read as something else than
    what the walk leaves. */
  ghost predicate AtRisk(pol: Policy, w: World, partial: bool, p: Path)
    requires Walking(w)
  {
    && Overlooked(pol, w, partial, p)
    && var k := w.run.value.walk.value;
       Unchanged(w.files[p], MarkOf(w.saved, k.store)) || Varies(pol, p, w.files[p].Size(), Left(k, p))
  }

  /** The run has not read the file, and it may have changed since the old mark. */
  ghost predicate Unread(pol: Policy, w: World, p: Path)
    requires Walking(w)
  {
    var k := w.run.value.walk.value;
    && p in w.files && pol.storeOf(p) == k.store && (p in k.seen ==> p in k.refused)
    && !Unchanged(w.files[p], MarkOf(w.saved, k.store))
  }

  ghost predicate SameStatus(f: File, g: File) {
    g == f.(content := g.content) && g.Size() == f.Size()
  }

  /** A world the agent cannot tell from this one: only what is in unread files differs,
    and not in size. */
  ghost predicate Alike(pol: Policy, w: World, v: World)
    requires Walking(w)
  {
    && v == w.(files := v.files) && v.files.Keys == w.files.Keys
    && (forall p :: p in w.files ==> SameStatus(w.files[p], v.files[p]) && (v.files[p] != w.files[p] ==> Unread(pol, w, p)))
  }

  lemma AlikeOk(pol: Policy, w: World, v: World)
    requires Ok(pol, w) && Walking(w) && Alike(pol, w, v)
    ensures Ok(pol, v)
  {
    hide Reading, Matches, Milliseconds, Read, Together;
    var r := w.run.value;
    var k := r.walk.value;
    forall p | p in v.files && Unchanged(v.files[p], MarkOf(v.saved, pol.storeOf(p)))
      ensures Right(pol, v.saved.verdicts, p, v.files[p])
    {
      assert SameStatus(w.files[p], v.files[p]);
      assert Right(pol, w.saved.verdicts, p, w.files[p]);
    }
    forall p | p in v.files && Unchanged(v.files[p], MarkOf(r.wrote, pol.storeOf(p)))
      ensures Right(pol, r.wrote.verdicts, p, v.files[p])
    {
      assert SameStatus(w.files[p], v.files[p]);
      assert Right(pol, r.wrote.verdicts, p, w.files[p]);
    }
    AlikeWalk(pol, w, v);
  }

  lemma AlikeWalk(pol: Policy, w: World, v: World)
    requires Ok(pol, w) && Walking(w) && Alike(pol, w, v)
    ensures WalkOk(pol, v.files, v.saved, v.run.value, v.run.value.walk.value)
  {
    hide Reading, Milliseconds, Sound, Together;
    var r := w.run.value;
    var k := r.walk.value;
    forall p | p in k.seen && p in v.files && v.files[p].ctime < r.start
      ensures SeenOk(pol, v.saved, k, p, v.files[p])
    {
      assert SameStatus(w.files[p], v.files[p]);
      assert SeenOk(pol, w.saved, k, p, w.files[p]);
    }
  }

  lemma AlikeOverlooks(pol: Policy, w: World, v: World, partial: bool, p: Path)
    requires Walking(w) && Alike(pol, w, v)
    ensures Overlooked(pol, v, partial, p) <==> Overlooked(pol, w, partial, p)
  {
    if p in w.files {
      assert SameStatus(w.files[p], v.files[p]);
    }
  }

  /** An overlooked file is answered from the cache at the next incremental visit:
    with what the walk left, whatever is in it. If it had a verdict before, that is
    wrong. */
  lemma OverlookedIsMissed(pol: Policy, w: World, partial: bool, p: Path, complete: bool, readable: bool)
    requires Ok(pol, w) && Walking(w) && Overlooked(pol, w, partial, p)
    ensures var k := w.run.value.walk.value;
            var s := CarriedOver(w.saved, Finished(w.saved, w.run.value, partial), complete);
            && Content(pol, s, false, p, w.files[p], readable) == (if pol.candidate(p, w.files[p].Size()) then Left(k, p) else 0, false)
            && (Unchanged(w.files[p], MarkOf(w.saved, k.store)) ==> Reading(pol, p, w.files[p]) != Left(k, p))
  {
    hide Reading, Milliseconds, Matches, Read, Sound, Unchanged;
    LeftBehind(pol, w, partial, p);
    NotUnmarked(w.files[p], MarkOf(Finished(w.saved, w.run.value, partial).wrote, pol.storeOf(p)));
  }

  /** Exactly which finishes leave the cache right for every content the run has
    not read: those that put no file at risk. */
  lemma FinishExact(pol: Policy, w: World, partial: bool)
    requires Ok(pol, w) && Walking(w)
    ensures (forall v :: Alike(pol, w, v) ==> Ok(pol, Apply(pol, v, Finish(partial)))) <==> (forall p :: !AtRisk(pol, w, partial, p))
  {
    hide Ok, AtRisk, Apply;
    if p :| AtRisk(pol, w, partial, p) {
      var v := Broken(pol, w, partial, p);
      assert Alike(pol, w, v) && !Ok(pol, Apply(pol, v, Finish(partial)));
    } else {
      forall v | Alike(pol, w, v)
        ensures Ok(pol, Apply(pol, v, Finish(partial)))
      {
        Unbroken(pol, w, v, partial);
      }
    }
  }

  lemma Unbroken(pol: Policy, w: World, v: World, partial: bool)
    requires Ok(pol, w) && Walking(w) && Alike(pol, w, v) && forall p :: !AtRisk(pol, w, partial, p)
    ensures Ok(pol, Apply(pol, v, Finish(partial)))
  {
    hide Ok, Reading, Read, Left, Varies, Unchanged, Apply;
    AlikeOk(pol, w, v);
    var k := w.run.value.walk.value;
    forall p | Overlooked(pol, v, partial, p)
      ensures Reading(pol, p, v.files[p]) == Left(k, p)
    {
      AlikeOverlooks(pol, w, v, partial, p);
      assert !AtRisk(pol, w, partial, p);
      assert SameStatus(w.files[p], v.files[p]);
      SameUnchanged(w.files[p], v.files[p], MarkOf(w.saved, k.store));
      ReadOverlooked(pol, v, partial, p);
      ReadingIs(pol, p, v.files[p]);
      NotVaried(pol, p, v.files[p].content, Left(k, p));
    }
    FinishRight(pol, v, partial);
  }

  lemma SameUnchanged(f: File, g: File, ms: int)
    requires SameStatus(f, g)
    ensures Unchanged(f, ms) == Unchanged(g, ms)
  {
  }

  lemma NotVaried(pol: Policy, p: Path, c: seq<Byte>, v: nat)
    requires !Varies(pol, p, |c|, v)
    ensures pol.rules(p, c) == v
  {
  }

  lemma Broken(pol: Policy, w: World, partial: bool, p: Path) returns (v: World)
    requires Ok(pol, w) && Walking(w) && AtRisk(pol, w, partial, p)
    ensures Alike(pol, w, v) && !Ok(pol, Apply(pol, v, Finish(partial)))
  {
    hide Ok, Reading;
    var k := w.run.value.walk.value;
    v := w;
    if !Unchanged(w.files[p], MarkOf(w.saved, k.store)) {
      var c :| |c| == w.files[p].Size() && pol.rules(p, c) != Left(k, p);
      v := w.(files := w.files[p := w.files[p].(content := c)]);
      ReadOverlooked(pol, w, partial, p);
      ReadingIs(pol, p, v.files[p]);
    }
    AlikeOk(pol, w, v);
    AlikeOverlooks(pol, w, v, partial, p);
    LeftBehind(pol, v, partial, p);
    WrongAfter(pol, v, partial, p);
  }

  lemma ReadOverlooked(pol: Policy, w: World, partial: bool, p: Path)
    requires Ok(pol, w) && Walking(w) && Overlooked(pol, w, partial, p) && !Unchanged(w.files[p], MarkOf(w.saved, w.run.value.walk.value.store))
    ensures Read(pol, p, w.files[p])
  {
    hide Read, Reading, Sound, Together, Right;
    MarksPast(pol, w);
    var r := w.run.value;
    if p in r.walk.value.seen {
      assert SeenOk(pol, w.saved, r.walk.value, p, w.files[p]);
    }
  }

  lemma ReadingIs(pol: Policy, p: Path, f: File)
    requires Read(pol, p, f)
    ensures Reading(pol, p, f) == pol.rules(p, f.content)
  {
  }

  lemma WrongAfter(pol: Policy, w: World, partial: bool, p: Path)
    requires Walking(w) && p in w.files
    requires var s := Finished(w.saved, w.run.value, partial).wrote;
             Unchanged(w.files[p], MarkOf(s, pol.storeOf(p))) && !Right(pol, s.verdicts, p, w.files[p])
    ensures !Ok(pol, Apply(pol, w, Finish(partial)))
  {
    hide Right, Unchanged, MarkOf, Finished;
  }

  // ---- it happens ----

  const DOT_GIT: Name := [46, 103, 105, 116]
  const CONFIG: Name := [99, 111, 110, 102, 105, 103]

  /** The one file of a `.git` directory that is looked at. */
  predicate IsGitConfig(p: Path) {
    |p| >= 2 && p[|p| - 2] == DOT_GIT && p[|p| - 1] == CONFIG
  }

  function Everything(): Policy {
    Policy((p: Path) => [[1]], (p: Path) => IsGitConfig(p), (p: Path, n: nat) => true, (p: Path, n: nat) => n, (p: Path, c: seq<Byte>) => |c|)
  }

  lemma Then(pol: Policy, w: World, e: Event, next: World, rest: seq<Event>)
    requires Enabled(pol, w, e) && OverlooksNothing(pol, w, e) && Apply(pol, w, e) == next && Happens(pol, next, rest)
    ensures Happens(pol, w, [e] + rest) && After(pol, w, [e] + rest) == After(pol, next, rest)
  {
    hide Enabled, Apply, OverlooksNothing;
    assert ([e] + rest)[1..] == rest;
  }

  lemma Nothing(pol: Policy, w: World)
    ensures Happens(pol, w, []) && After(pol, w, []) == w
  {
  }

  lemma NothingToCarry(r: Run, complete: bool)
    ensures CarriedOver(NoState(), r, complete) == r.wrote
  {
    assert CarriedOver(NoState(), r, complete).marks == r.wrote.marks;
    assert CarriedOver(NoState(), r, complete).verdicts == r.wrote.verdicts;
  }

  lemma FirstStore(r: Run)
    requires r.walk.Some? && r.wrote == NoState() && r.visited == {} && !r.walk.value.skipped && r.start > 0
    ensures var k := r.walk.value;
            Finished(NoState(), r, false)
            == r.(wrote := State(map[k.store := Mark(r.start, r.cycle)], k.verdicts), visited := {k.store}, walk := None)
  {
    var k, r' := r.walk.value, Finished(NoState(), r, false);
    assert r'.wrote.marks == map[k.store := Mark(r.start, r.cycle)];
    assert r'.wrote.verdicts == k.verdicts;
    assert r'.visited == {k.store};
  }

  function Secret(): File {
    File([7], 1, 1, 0, 5)
  }

  /** A run in the store of a file it has not come to. */
  function Entered(files: map<Path, File>, saved: State, full: bool, cycle: nat): World {
    World(10, files, saved, Some(Run(10, full, cycle, NoState(), {}, Some(Walk([[1]], {}, false, {}, map[])))))
  }

  lemma EntersStore(files: map<Path, File>, saved: State, full: bool, cycle: nat, rest: seq<Event>)
    requires Happens(Everything(), Entered(files, saved, full, cycle), rest)
    ensures var w, events := World(10, files, saved, None), [Begin(full, cycle)] + ([Enter([[1]])] + rest);
            Happens(Everything(), w, events) && After(Everything(), w, events) == After(Everything(), Entered(files, saved, full, cycle), rest)
  {
    hide After, Happens;
    var w1 := World(10, files, saved, Some(Run(10, full, cycle, NoState(), {}, None)));
    Then(Everything(), w1, Enter([[1]]), Entered(files, saved, full, cycle), rest);
    Then(Everything(), World(10, files, saved, None), Begin(full, cycle), w1, [Enter([[1]])] + rest);
  }

  /** The run can get to a world where finishing overlooks the file, and the cache
    would then answer zero for it though reading gives a rule. */
  ghost predicate GoesWrong(p: Path, files: map<Path, File>, events: seq<Event>, partial: bool) {
    var w := World(10, files, NoState(), None);
    && Happens(Everything(), w, events)
    && var v := After(Everything(), w, events);
       && Walking(v) && Overlooked(Everything(), v, partial, p)
       && Reading(Everything(), p, v.files[p]) == 1 && Left(v.run.value.walk.value, p) == 0
  }

  /** A directory that could not be read: the walk ends without the file. */
  lemma SubtreeAtRisk(p: Path)
    requires p == [[1], [2]]
    ensures GoesWrong(p, map[p := Secret()], [Begin(true, 1)] + ([Enter([[1]])] + []), false)
  {
    hide After, Happens;
    Nothing(Everything(), Entered(map[p := Secret()], NoState(), true, 1));
    EntersStore(map[p := Secret()], NoState(), true, 1, []);
  }

  /** A git config reached with no content budget left. */
  lemma ConfigAtRisk(p: Path)
    requires p == [[1], DOT_GIT, CONFIG]
    ensures GoesWrong(p, map[p := Secret()], [Begin(true, 1)] + ([Enter([[1]])] + ([Visit(p, false)] + [])), false)
  {
    hide After, Happens;
    var files := map[p := Secret()];
    var w := Entered(files, NoState(), true, 1);
    var v := w.(run := Some(w.run.value.(walk := Some(Walk([[1]], {p}, false, {p}, map[])))));
    assert Content(Everything(), NoState(), true, p, Secret(), false) == (0, true);
    FromNothing(p);
    Nothing(Everything(), v);
    Then(Everything(), w, Visit(p, false), v, []);
    EntersStore(files, NoState(), true, 1, [Visit(p, false)] + []);
  }

  /** A secret found by one run, and a run cut short in its store before reaching it. */
  lemma SecretAtRisk(p: Path)
    requires p == [[1], [2]]
    ensures GoesWrong(p, map[p := Secret()],
                      [Begin(true, 1)] + ([Enter([[1]])] + ([Visit(p, true)] + ([Finish(false)] + ([Save(true)] + ([Begin(false, 2)] + ([Enter([[1]])] + [])))))),
                      true)
  {
    hide CarriedOver, Finished, After, Happens;
    var pol, files := Everything(), map[p := Secret()];
    var found := Verdict(1, 1, 1, 0, 1, 1, [[1]]);
    var saved := State(map[[[1]] := Mark(10, 1)], map[p := found]);
    var w2 := Entered(files, NoState(), true, 1);
    var seen := w2.run.value.(walk := Some(Walk([[1]], {p}, false, {}, map[p := found])));
    var w3 := w2.(run := Some(seen));
    var w4 := w2.(run := Some(Run(10, true, 1, saved, {[[1]]}, None)));
    var w5 := World(10, files, saved, None);
    var last := [Begin(false, 2)] + ([Enter([[1]])] + []);
    Nothing(pol, Entered(files, saved, false, 2));
    EntersStore(files, saved, false, 2, []);
    NothingToCarry(w4.run.value, true);
    Then(pol, w4, Save(true), w5, last);
    FirstStore(seen);
    SeenWhole(w3);
    Then(pol, w3, Finish(false), w4, [Save(true)] + last);
    assert Content(pol, NoState(), true, p, Secret(), true) == (1, false);
    FromNothing(p);
    Then(pol, w2, Visit(p, true), w3, [Finish(false)] + ([Save(true)] + last));
    EntersStore(files, NoState(), true, 1, [Visit(p, true)] + ([Finish(false)] + ([Save(true)] + last)));
  }

  lemma FromNothing(p: Path)
    ensures var none: set<Path> := {}; none + {p} == {p} && none - {p} == none
    ensures var none: map<Path, Verdict> := map[]; none - {p} == none
  {
  }

  lemma SeenWhole(w: World)
    requires Walking(w) && w.run.value.walk.value.refused == {} && !w.run.value.walk.value.skipped
    requires forall p :: p in w.files ==> p in w.run.value.walk.value.seen
    ensures OverlooksNothing(Everything(), w, Finish(false))
  {
    WholeWalk(Everything(), w);
  }
}
