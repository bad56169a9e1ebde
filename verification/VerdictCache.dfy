/** The verdict cache of the content scan. A file unchanged since its store's
  last complete content scan is not read again: its cached rules, or zero when it
  has none, stand for reading it. Files change while runs go on, runs are saved or
  given up, and a saved run carries over what it did not visit. */
module VerdictCache {
  import opened Bits
  import opened Paths

  /** Times: mtime in nanoseconds, ctime and the clock in milliseconds. */
  datatype File = File(content: seq<Byte>, dev: nat, ino: nat, mtime: int, ctime: int) {
    function Size(): nat { |content| }
  }

  /** What stays the same from run to run: which store a file belongs to, whether a
    walk meets it as the config of a `.git` directory or as a file like any other,
    whether its name and size make it a candidate, how much of it is read, and the
    rules that what is read matches. */
  datatype Policy = Policy(
    storeOf: Path -> Path,
    gitConfig: Path -> bool,
    candidate: (Path, nat) -> bool,
    wanted: (Path, nat) -> nat,
    rules: (Path, seq<Byte>) -> nat)

  datatype Mark = Mark(ms: int, cycle: nat)
  datatype Verdict = Verdict(dev: nat, ino: nat, size: nat, mtime: int, rules: nat, cycle: nat, store: Path)
  datatype State = State(marks: map<Path, Mark>, verdicts: map<Path, Verdict>)

  /** The store being walked: the files seen in it, whether a skip was noted, and
    the git configs whose read was refused, which is not noted. */
  datatype Walk = Walk(store: Path, seen: set<Path>, skipped: bool, refused: set<Path>, verdicts: map<Path, Verdict>)

  /** A run: what it wrote for the stores it reported, and the store it is in. */
  datatype Run = Run(start: int, full: bool, cycle: nat, wrote: State, visited: set<Path>, walk: Option<Walk>)

  datatype World = World(clock: int, files: map<Path, File>, saved: State, run: Option<Run>)

  datatype Event =
    | Tick(to: int)
    | Change(path: Path, file: File)
    | Remove(path: Path)
    | Begin(full: bool, cycle: nat)
    | Enter(store: Path)
    | Visit(path: Path, readable: bool)
    | Finish(partial: bool)
    | Drop
    | Save(complete: bool)
    | GiveUp

  // ---- one file ----

  function Milliseconds(ns: int): int {
    ns / 1000000
  }

  predicate Unchanged(f: File, ms: int) {
    ms > 0 && Milliseconds(f.mtime) < ms && f.ctime < ms
  }

  predicate Matches(v: Verdict, f: File) {
    v.dev == f.dev && v.ino == f.ino && v.size == f.Size() && v.mtime == f.mtime
  }

  /** What reading the file now would give. */
  function Reading(pol: Policy, path: Path, f: File): nat {
    if !pol.candidate(path, f.Size()) || pol.wanted(path, f.Size()) == 0 then 0 else pol.rules(path, f.content)
  }

  function MarkOf(s: State, store: Path): int {
    if store in s.marks then s.marks[store].ms else 0
  }

  function Kept(s: State, path: Path): nat {
    if path in s.verdicts then s.verdicts[path].rules else 0
  }

  /** Whether the cache answers for the file. */
  predicate FromCache(pol: Policy, s: State, full: bool, path: Path, f: File) {
    && !full && Unchanged(f, MarkOf(s, pol.storeOf(path)))
    && (path in s.verdicts ==> Matches(s.verdicts[path], f))
  }

  /** The content rules of a file and whether it had to be skipped; `readable`
    is whether the content budget, the open and the memory allow a read. */
  function Content(pol: Policy, s: State, full: bool, path: Path, f: File, readable: bool): (nat, bool) {
    if !pol.candidate(path, f.Size()) then (0, false)
    else if FromCache(pol, s, full, path, f) then (Kept(s, path), false)
    else if pol.wanted(path, f.Size()) == 0 then (0, false)
    else if !readable then (Kept(s, path), true)
    else (pol.rules(path, f.content), false)
  }

  // ---- the steps ----

  function NoState(): State {
    State(map[], map[])
  }

  ghost predicate Enabled(pol: Policy, w: World, e: Event) {
    match e
    case Tick(to) => w.clock <= to
    case Change(_, file) => file.ctime == w.clock
    case Remove(_) => true
    case Begin(_, _) => w.run.None?
    case Enter(store) => w.run.Some? && w.run.value.walk.None? && store !in w.run.value.visited
    case Visit(path, _) => Walking(w) && path in w.files && pol.storeOf(path) == w.run.value.walk.value.store
    case Finish(_) => Walking(w)
    case Drop => Walking(w)
    case Save(_) => w.run.Some? && w.run.value.walk.None?
    case GiveUp => w.run.Some?
  }

  predicate Walking(w: World) {
    w.run.Some? && w.run.value.walk.Some?
  }

  function Apply(pol: Policy, w: World, e: Event): World
    requires Enabled(pol, w, e)
  {
    match e
    case Tick(to) => w.(clock := to)
    case Change(path, file) => w.(files := w.files[path := file])
    case Remove(path) => w.(files := w.files - {path})
    case Begin(full, cycle) => w.(run := Some(Run(w.clock, full, cycle, NoState(), {}, None)))
    case Enter(store) => w.(run := Some(w.run.value.(walk := Some(Walk(store, {}, false, {}, map[])))))
    case Visit(path, readable) => w.(run := Some(Visited(pol, w.saved, w.run.value, path, w.files[path], readable)))
    case Finish(partial) => w.(run := Some(Finished(w.saved, w.run.value, partial)))
    case Drop => w.(run := Some(w.run.value.(walk := None)))
    case Save(complete) => w.(saved := CarriedOver(w.saved, w.run.value, complete), run := None)
    case GiveUp => w.(run := None)
  }

  function Visited(pol: Policy, s: State, r: Run, path: Path, f: File, readable: bool): Run
    requires r.walk.Some?
  {
    var (rules, skipped) := Content(pol, s, r.full, path, f, readable);
    r.(walk := Some(Noted(pol, r.walk.value, path, f, rules, skipped, r.cycle)))
  }

  /** Only nonzero rules are written, with the status the file had. A skip is noted
    in the store, but not that of a git config. */
  function Noted(pol: Policy, k: Walk, path: Path, f: File, rules: nat, skipped: bool, cycle: nat): Walk {
    Walk(k.store, k.seen + {path},
         k.skipped || (skipped && !pol.gitConfig(path)),
         if skipped && pol.gitConfig(path) then k.refused + {path} else k.refused - {path},
         if rules == 0 then k.verdicts - {path}
         else k.verdicts[path := Verdict(f.dev, f.ino, f.Size(), f.mtime, rules, cycle, k.store)])
  }

  /** A store not cut short and with no skip noted gets a new mark, any other keeps
    its old one. That a directory could not be read changes nothing. */
  function NewMark(s: State, r: Run, partial: bool): int
    requires r.walk.Some?
  {
    if r.walk.value.skipped || partial then MarkOf(s, r.walk.value.store) else r.start
  }

  function Finished(s: State, r: Run, partial: bool): Run
    requires r.walk.Some?
  {
    var k, ms := r.walk.value, NewMark(s, r, partial);
    r.(wrote := State(if ms > 0 then r.wrote.marks[k.store := Mark(ms, r.cycle)] else r.wrote.marks,
                      r.wrote.verdicts + k.verdicts),
       visited := r.visited + {k.store}, walk := None)
  }

  predicate CarriesMark(r: Run, complete: bool, store: Path, m: Mark) {
    store !in r.visited && (complete ==> m.cycle == r.cycle)
  }

  predicate CarriesVerdict(r: Run, complete: bool, v: Verdict) {
    v.store !in r.visited && (complete ==> v.cycle == r.cycle)
  }

  /** The state a run saves: its own lines, and the old ones of stores it did not
    report; once the cycle completes, only those refreshed in it. */
  function CarriedOver(s: State, r: Run, complete: bool): State {
    State(
      (map p | p in s.marks && CarriesMark(r, complete, p, s.marks[p]) :: s.marks[p]) + r.wrote.marks,
      (map p | p in s.verdicts && CarriesVerdict(r, complete, s.verdicts[p]) :: s.verdicts[p]) + r.wrote.verdicts)
  }

  // ---- what is kept ----

  /** The verdicts say of the file what reading it would. */
  predicate Right(pol: Policy, vs: map<Path, Verdict>, p: Path, f: File) {
    if p in vs then Matches(vs[p], f) && vs[p].rules == Reading(pol, p, f) else Reading(pol, p, f) == 0
  }

  /** Right for every file unchanged since its store's mark. */
  ghost predicate Sound(pol: Policy, files: map<Path, File>, s: State) {
    forall p :: p in files && Unchanged(files[p], MarkOf(s, pol.storeOf(p))) ==> Right(pol, s.verdicts, p, files[p])
  }

  /** Verdicts name their file's store and were written with its mark. */
  ghost predicate Together(pol: Policy, s: State) {
    forall p :: p in s.verdicts ==>
      && s.verdicts[p].store == pol.storeOf(p)
      && (s.verdicts[p].store in s.marks ==> s.marks[s.verdicts[p].store].cycle == s.verdicts[p].cycle)
  }

  ghost predicate NotAfter(s: State, t: int) {
    forall p :: p in s.marks ==> s.marks[p].ms <= t
  }

  ghost predicate SavedOk(pol: Policy, w: World) {
    Sound(pol, w.files, w.saved) && Together(pol, w.saved) && NotAfter(w.saved, w.clock)
  }

  /** Whether reading the file would look at its content at all. */
  predicate Read(pol: Policy, p: Path, f: File) {
    pol.candidate(p, f.Size()) && pol.wanted(p, f.Size()) > 0
  }

  /** A file seen, and not changed since the run began. */
  ghost predicate SeenOk(pol: Policy, s: State, k: Walk, p: Path, f: File) {
    && ((k.skipped || p in k.refused ==> Unchanged(f, MarkOf(s, k.store))) ==> Right(pol, k.verdicts, p, f))
    && (p in k.verdicts ==> Matches(k.verdicts[p], f))
    && (p in k.refused ==> Read(pol, p, f))
  }

  /** The files seen so far in the store being walked. */
  ghost predicate WalkOk(pol: Policy, files: map<Path, File>, s: State, r: Run, k: Walk) {
    && k.store !in r.visited && k.refused <= k.seen
    && (forall p :: p in k.verdicts ==> p in k.seen && k.verdicts[p].store == k.store && k.verdicts[p].cycle == r.cycle)
    && (forall p :: p in k.seen ==> pol.storeOf(p) == k.store)
    && (forall p :: p in k.seen && p in files && files[p].ctime < r.start ==> SeenOk(pol, s, k, p, files[p]))
  }

  ghost predicate WroteOk(pol: Policy, files: map<Path, File>, r: Run) {
    && Sound(pol, files, r.wrote) && NotAfter(r.wrote, r.start)
    && (forall p :: p in r.wrote.marks ==> p in r.visited && r.wrote.marks[p].cycle == r.cycle)
    && (forall p :: p in r.wrote.verdicts ==>
          r.wrote.verdicts[p].store == pol.storeOf(p) && pol.storeOf(p) in r.visited && r.wrote.verdicts[p].cycle == r.cycle)
  }

  ghost predicate RunOk(pol: Policy, w: World) {
    w.run.Some? ==>
      var r := w.run.value;
      && r.start <= w.clock && NotAfter(w.saved, r.start) && WroteOk(pol, w.files, r)
      && (r.walk.Some? ==> WalkOk(pol, w.files, w.saved, r, r.walk.value))
  }

  ghost predicate Ok(pol: Policy, w: World) {
    SavedOk(pol, w) && RunOk(pol, w)
  }

  /** Files a finish would have the cache answer for though the run does not know
    what is in them, or knows and drops it: unchanged since the store's next mark,
    and either a git config that was refused and had changed since the old one, or
    not seen, with a verdict that goes or changed since. All of it is in the saved
    state and the file's status. */
  ghost predicate Overlooked(pol: Policy, w: World, partial: bool, p: Path)
    requires Walking(w)
  {
    var r := w.run.value;
    var k, mark := r.walk.value, MarkOf(w.saved, r.walk.value.store);
    && p in w.files && pol.storeOf(p) == k.store && Unchanged(w.files[p], NewMark(w.saved, r, partial))
    && (if p in k.seen then p in k.refused && !Unchanged(w.files[p], mark)
        else if Unchanged(w.files[p], mark) then p in w.saved.verdicts && w.saved.verdicts[p].rules != 0
        else Read(pol, p, w.files[p]))
  }

  ghost predicate OverlooksNothing(pol: Policy, w: World, e: Event)
    requires Enabled(pol, w, e)
  {
    e.Finish? ==> forall p :: !Overlooked(pol, w, e.partial, p)
  }

  /** A walk that is not cut short, sees every file that was there when its run
    began and is refused no git config overlooks nothing. */
  lemma WholeWalk(pol: Policy, w: World)
    requires Walking(w) && w.run.value.walk.value.refused == {} && !w.run.value.walk.value.skipped
    requires forall p :: p in w.files && pol.storeOf(p) == w.run.value.walk.value.store && w.files[p].ctime < w.run.value.start
               ==> p in w.run.value.walk.value.seen
    ensures OverlooksNothing(pol, w, Finish(false))
  {
  }

  // ---- every step keeps it ----

  /** What a visit answers without skipping is what reading would give, and a
    skipped file unchanged since its mark keeps the rules reading would give. */
  lemma Honest(pol: Policy, w: World, path: Path, readable: bool)
    requires Ok(pol, w) && Enabled(pol, w, Visit(path, readable))
    ensures var f := w.files[path];
            var (rules, skipped) := Content(pol, w.saved, w.run.value.full, path, f, readable);
            && ((!skipped || Unchanged(f, MarkOf(w.saved, pol.storeOf(path)))) ==> rules == Reading(pol, path, f))
            && (skipped ==> Read(pol, path, f) && !readable)
  {
  }

  lemma Keeps(pol: Policy, w: World, e: Event)
    requires Ok(pol, w) && Enabled(pol, w, e) && OverlooksNothing(pol, w, e)
    ensures Ok(pol, Apply(pol, w, e))
  {
    match e
    case Tick(_) =>
    case Change(_, _) =>
    case Remove(_) =>
    case Begin(_, _) =>
    case Enter(_) =>
    case Visit(path, readable) => KeepsVisit(pol, w, path, readable);
    case Finish(partial) => KeepsFinish(pol, w, partial);
    case Drop =>
    case Save(complete) => KeepsSave(pol, w, complete);
    case GiveUp =>
  }

  lemma KeepsVisit(pol: Policy, w: World, path: Path, readable: bool)
    requires Ok(pol, w) && Enabled(pol, w, Visit(path, readable))
    ensures Ok(pol, Apply(pol, w, Visit(path, readable)))
  {
    hide Content, Sound, Together, NotAfter, WalkOk, Noted, Reading, Unchanged, MarkOf, Read;
    var r, f := w.run.value, w.files[path];
    Honest(pol, w, path, readable);
    var (rules, skipped) := Content(pol, w.saved, r.full, path, f, readable);
    KeepsNote(pol, w.files, w.saved, r, r.walk.value, path, rules, skipped);
    var k' := Noted(pol, r.walk.value, path, f, rules, skipped, r.cycle);
    SameWalk(pol, w.files, w.saved, r, r.(walk := Some(k')), k');
  }

  lemma SameWalk(pol: Policy, files: map<Path, File>, s: State, r: Run, r': Run, k: Walk)
    requires WalkOk(pol, files, s, r, k) && r' == r.(walk := r'.walk)
    ensures WalkOk(pol, files, s, r', k)
  {
  }

  lemma KeepsNote(pol: Policy, files: map<Path, File>, s: State, r: Run, k: Walk, path: Path, rules: nat, skipped: bool)
    requires WalkOk(pol, files, s, r, k) && path in files && pol.storeOf(path) == k.store
    requires (!skipped || Unchanged(files[path], MarkOf(s, k.store))) ==> rules == Reading(pol, path, files[path])
    requires skipped ==> Read(pol, path, files[path])
    ensures WalkOk(pol, files, s, r, Noted(pol, k, path, files[path], rules, skipped, r.cycle))
  {
    hide Reading, MarkOf, Unchanged, Read;
    var k' := Noted(pol, k, path, files[path], rules, skipped, r.cycle);
    forall p | p in k'.seen && p in files && files[p].ctime < r.start
      ensures SeenOk(pol, s, k', p, files[p])
    {
      if p != path {
        assert SeenOk(pol, s, k, p, files[p]);
      }
    }
  }

  lemma MarksPast(pol: Policy, w: World)
    requires Ok(pol, w) && Walking(w)
    ensures MarkOf(w.saved, w.run.value.walk.value.store) <= w.run.value.start || MarkOf(w.saved, w.run.value.walk.value.store) == 0
  {
  }

  /** What the walk leaves behind for a file. */
  function Left(k: Walk, p: Path): nat {
    if p in k.verdicts then k.verdicts[p].rules else 0
  }

  /** What the cache says of an overlooked file once the store is finished. */
  lemma LeftBehind(pol: Policy, w: World, partial: bool, p: Path)
    requires Ok(pol, w) && Walking(w) && Overlooked(pol, w, partial, p)
    ensures var s, k := Finished(w.saved, w.run.value, partial).wrote, w.run.value.walk.value;
            && Unchanged(w.files[p], MarkOf(s, pol.storeOf(p)))
            && (p in s.verdicts <==> p in k.verdicts) && (p in s.verdicts ==> s.verdicts[p] == k.verdicts[p] && Matches(s.verdicts[p], w.files[p]))
            && (Right(pol, s.verdicts, p, w.files[p]) <==> Reading(pol, p, w.files[p]) == Left(k, p))
            && (Unchanged(w.files[p], MarkOf(w.saved, k.store)) ==> Reading(pol, p, w.files[p]) != Left(k, p))
  {
    hide Reading, Milliseconds, Matches, Read;
    MarksPast(pol, w);
    var r := w.run.value;
    NotUnmarked(w.files[p], NewMark(w.saved, r, partial));
    if p in r.walk.value.seen {
      assert SeenOk(pol, w.saved, r.walk.value, p, w.files[p]);
    } else if Unchanged(w.files[p], MarkOf(w.saved, r.walk.value.store)) {
      assert Right(pol, w.saved.verdicts, p, w.files[p]);
    }
  }

  /** A finish keeps the cache right when what the walk leaves of each overlooked file
    is what reading it would give. */
  lemma FinishRight(pol: Policy, w: World, partial: bool)
    requires Ok(pol, w) && Enabled(pol, w, Finish(partial))
    requires forall p :: Overlooked(pol, w, partial, p) ==> Reading(pol, p, w.files[p]) == Left(w.run.value.walk.value, p)
    ensures Ok(pol, Apply(pol, w, Finish(partial)))
  {
    hide Reading, Matches, Milliseconds, Read, Left;
    MarksPast(pol, w);
    var r, r' := w.run.value, Finished(w.saved, w.run.value, partial);
    var k := r.walk.value;
    forall p | p in w.files && Unchanged(w.files[p], MarkOf(r'.wrote, pol.storeOf(p)))
      ensures Right(pol, r'.wrote.verdicts, p, w.files[p])
    {
      if pol.storeOf(p) != k.store {
        assert Right(pol, r.wrote.verdicts, p, w.files[p]);
      } else if Overlooked(pol, w, partial, p) {
        LeftBehind(pol, w, partial, p);
      } else if p in k.seen {
        assert SeenOk(pol, w.saved, k, p, w.files[p]);
      } else if Unchanged(w.files[p], MarkOf(w.saved, k.store)) {
        assert Right(pol, w.saved.verdicts, p, w.files[p]);
      } else {
        NotRead(pol, p, w.files[p]);
      }
    }
  }

  lemma KeepsFinish(pol: Policy, w: World, partial: bool)
    requires Ok(pol, w) && Enabled(pol, w, Finish(partial)) && OverlooksNothing(pol, w, Finish(partial))
    ensures Ok(pol, Apply(pol, w, Finish(partial)))
  {
    hide Ok, Overlooked, Apply;
    FinishRight(pol, w, partial);
  }

  lemma NotRead(pol: Policy, p: Path, f: File)
    requires !Read(pol, p, f)
    ensures Reading(pol, p, f) == 0
  {
  }

  lemma KeepsSave(pol: Policy, w: World, complete: bool)
    requires Ok(pol, w) && Enabled(pol, w, Save(complete))
    ensures Ok(pol, Apply(pol, w, Save(complete)))
  {
    hide Reading, Matches, Unchanged;
    var r, s' := w.run.value, CarriedOver(w.saved, w.run.value, complete);
    forall p | p in w.files && Unchanged(w.files[p], MarkOf(s', pol.storeOf(p)))
      ensures Right(pol, s'.verdicts, p, w.files[p])
    {
      NotUnmarked(w.files[p], MarkOf(s', pol.storeOf(p)));
      if pol.storeOf(p) in r.visited {
        assert Right(pol, r.wrote.verdicts, p, w.files[p]);
      } else {
        assert Right(pol, w.saved.verdicts, p, w.files[p]);
      }
    }
    KeepsTogether(pol, w, complete);
  }

  lemma KeepsTogether(pol: Policy, w: World, complete: bool)
    requires Ok(pol, w) && Enabled(pol, w, Save(complete))
    ensures Together(pol, CarriedOver(w.saved, w.run.value, complete))
    ensures NotAfter(CarriedOver(w.saved, w.run.value, complete), w.clock)
  {
    hide Sound, Right, Unchanged;
  }

  lemma NotUnmarked(f: File, ms: int)
    requires Unchanged(f, ms)
    ensures ms > 0
  {
  }

  // ---- whole runs ----

  /** The events can happen in this order, and no finish overlooks a file. */
  ghost predicate Happens(pol: Policy, w: World, events: seq<Event>)
    decreases |events|
  {
    events != [] ==>
      && Enabled(pol, w, events[0]) && OverlooksNothing(pol, w, events[0])
      && Happens(pol, Apply(pol, w, events[0]), events[1..])
  }

  ghost function After(pol: Policy, w: World, events: seq<Event>): World
    requires Happens(pol, w, events)
    decreases |events|
  {
    if events == [] then w else After(pol, Apply(pol, w, events[0]), events[1..])
  }

  lemma {:induction false} StaysOk(pol: Policy, w: World, events: seq<Event>)
    requires Ok(pol, w) && Happens(pol, w, events)
    ensures Ok(pol, After(pol, w, events))
    decreases |events|
  {
    hide Ok, Enabled, Apply, OverlooksNothing;
    if events != [] {
      Keeps(pol, w, events[0]);
      StaysOk(pol, Apply(pol, w, events[0]), events[1..]);
    }
  }

  /** From any files and an empty state, after any events, a visit skips a file only if
    it cannot be read, and whatever it answers without skipping equals what reading the
    file now would give. */
  lemma AlwaysHonest(pol: Policy, clock: int, files: map<Path, File>, events: seq<Event>, path: Path, readable: bool)
    requires Happens(pol, World(clock, files, NoState(), None), events)
    requires Enabled(pol, After(pol, World(clock, files, NoState(), None), events), Visit(path, readable))
    ensures var w := After(pol, World(clock, files, NoState(), None), events);
            var (rules, skipped) := Content(pol, w.saved, w.run.value.full, path, w.files[path], readable);
            (skipped ==> !readable) && (!skipped ==> rules == Reading(pol, path, w.files[path]))
  {
    hide Content, Reading, Enabled, After, Happens;
    var w := World(clock, files, NoState(), None);
    assert Ok(pol, w);
    StaysOk(pol, w, events);
    Honest(pol, After(pol, w, events), path, readable);
  }

  // ---- what the cache is for ----

  /** A file seen by a walk that was not cut short and skipped nothing is not read
    again: from the saved state the next incremental run answers for it, rightly and
    whether or not it can be read, as long as it has not changed since the run began. */
  lemma NotReadAgain(pol: Policy, w: World, path: Path, complete: bool, readable: bool)
    requires Ok(pol, w) && Walking(w) && !w.run.value.walk.value.skipped && path in w.files
    requires path in w.run.value.walk.value.seen - w.run.value.walk.value.refused && Unchanged(w.files[path], w.run.value.start)
    ensures var s := CarriedOver(w.saved, Finished(w.saved, w.run.value, false), complete);
            Content(pol, s, false, path, w.files[path], readable) == (Reading(pol, path, w.files[path]), false)
  {
    hide Milliseconds, Sound;
    var r := w.run.value;
    var k, f := r.walk.value, w.files[path];
    assert SeenOk(pol, w.saved, k, path, f);
    assert Right(pol, k.verdicts, path, f);
  }

  /** Saving a run changes no answer about a store it did not report, unless the cycle
    completes and the store was not reported in it. */
  lemma OthersKept(pol: Policy, w: World, complete: bool, path: Path, f: File, full: bool, readable: bool)
    requires Ok(pol, w) && Enabled(pol, w, Save(complete)) && pol.storeOf(path) !in w.run.value.visited
    requires complete ==> pol.storeOf(path) in w.saved.marks && w.saved.marks[pol.storeOf(path)].cycle == w.run.value.cycle
    ensures Content(pol, CarriedOver(w.saved, w.run.value, complete), full, path, f, readable) == Content(pol, w.saved, full, path, f, readable)
  {
    hide Milliseconds, Sound, Right, Reading, Unchanged, Matches;
    var r, s := w.run.value, CarriedOver(w.saved, w.run.value, complete);
    assert MarkOf(s, pol.storeOf(path)) == MarkOf(w.saved, pol.storeOf(path));
    assert path in s.verdicts <==> path in w.saved.verdicts;
    assert path in s.verdicts ==> s.verdicts[path] == w.saved.verdicts[path];
  }
}
