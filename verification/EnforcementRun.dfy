/** Runs of grants on a host whose agent may fail to write its state file, or
  stop, at any point. */
module EnforcementRun {
  import opened Bits
  import opened Enforcement
  import opened StateFile
  import opened TextLines
  import Mesh

  datatype Result = Done | Failed | StoppedBefore | StoppedAfter

  datatype Host = Host(file: string, running: Option<State>, clock: int)

  datatype Event =
    | Tick(to: int)
    | Start
    | Stop
    | Deliver(grant: Grant, finding: Finding, result: Result)

  /** What reading an action checks. */
  ghost predicate Checked(k: Checks, a: Action) {
    match a
    case Isolate(allow, rules) => Exceptions(k, allow, rules)
    case Detected(rules) => Exceptions(k, [], rules)
    case Release => true
    case MeshOn(ip) => k.address(ip)
    case MeshOff(ip) => k.address(ip)
  }

  ghost predicate Exceptions(k: Checks, allow: seq<string>, rules: seq<Rule>) {
    && |allow| <= 32 && (forall i :: 0 <= i < |allow| ==> k.allow(allow[i]))
    && |rules| <= 64 && (forall i :: 0 <= i < |rules| ==> RuleValid(k, rules[i]))
  }

  ghost predicate Enabled(k: Checks, h: Host, e: Event) {
    match e
    case Tick(to) => h.clock <= to
    case Start => h.running.None?
    case Stop => true
    case Deliver(g, f, _) => h.running.Some? && (f.action.Some? ==> Checked(k, f.action.value))
  }

  function Apply(k: Checks, self: string, h: Host, e: Event): Host
    requires Enabled(k, h, e)
  {
    match e
    case Tick(to) => h.(clock := to)
    case Start => h.(running := Some(Loaded(k, h.file)))
    case Stop => h.(running := None)
    case Deliver(g, f, result) =>
      var o := Outcome(self, h.running.value, g, f, h.clock);
      if o.None? then h
      else
        match result
        case Done => h.(file := Saved(o.value.0), running := Some(o.value.0))
        case Failed => h
        case StoppedBefore => h.(running := None)
        case StoppedAfter => h.(file := Saved(o.value.0), running := None)
  }

  // ---- one grant ----

  ghost predicate Ok(k: Checks, s: State, now: int) {
    && Holdable(k, s) && Mesh.Distinct(s.mesh)
    && s.isoAt <= s.isoSeen <= now + SKEW && s.meshSeen <= now + SKEW
    && (forall m :: m in s.mesh ==> m.at <= s.meshSeen)
  }

  lemma MeshOk(k: Checks, mesh: seq<Mesh.Slot>, ip: string, on: bool, issued: int, now: int)
    requires Mesh.Distinct(mesh) && |mesh| <= Mesh.MAX_MESH && issued > 0 && k.address(ip)
    requires forall m :: m in mesh ==> m.at < issued && k.address(m.ip)
    ensures var r := Mesh.Forgotten(Mesh.Written(mesh, ip, on, issued).0, now, 0);
            Mesh.Distinct(r) && |r| <= Mesh.MAX_MESH && forall m :: m in r ==> m.at <= issued && k.address(m.ip)
  {
    hide Mesh.Forgotten;
    var w := Mesh.Written(mesh, ip, on, issued).0;
    if !on || Mesh.Listed(mesh, ip) || |mesh| < Mesh.MAX_MESH {
      Mesh.WrittenSlots(mesh, ip, on, issued);
    }
    assert Mesh.Distinct(w) by { Mesh.FindListed(mesh, ip); }
    assert forall m :: m in w ==> m.at <= issued && k.address(m.ip) by { Mesh.FindListed(mesh, ip); }
    Mesh.ForgottenKeeps(w, now, 0);
  }

  lemma ForgetOk(k: Checks, mesh: seq<Mesh.Slot>, seen: int, now: int)
    requires Mesh.Distinct(mesh) && |mesh| <= Mesh.MAX_MESH && forall m :: m in mesh ==> m.at <= seen && k.address(m.ip)
    ensures var r := Mesh.Forgotten(mesh, now, 0);
            Mesh.Distinct(r) && |r| <= Mesh.MAX_MESH && forall m :: m in r ==> m.at <= seen && k.address(m.ip)
  {
    Mesh.ForgottenKeeps(mesh, now, 0);
  }

  lemma HoldableMesh(k: Checks, s: State)
    requires Holdable(k, s)
    ensures |s.mesh| <= Mesh.MAX_MESH && forall m :: m in s.mesh ==> k.address(m.ip)
  {
  }

  /** A state the agent can hold, with its marks within the clock's skew. */
  ghost predicate Marked(k: Checks, s: State, now: int) {
    Holdable(k, s) && s.isoSeen <= now + SKEW && s.meshSeen <= now + SKEW
  }

  lemma MeshHolds(k: Checks, mesh: seq<Mesh.Slot>, ip: string, on: bool, issued: int, now: int)
    requires |mesh| <= Mesh.MAX_MESH && k.address(ip) && forall m :: m in mesh ==> k.address(m.ip)
    ensures var r := Mesh.Forgotten(Mesh.Written(mesh, ip, on, issued).0, now, 0);
            |r| <= Mesh.MAX_MESH && forall m :: m in r ==> k.address(m.ip)
  {
    hide Mesh.Forgotten;
    Mesh.ForgottenKeeps(Mesh.Written(mesh, ip, on, issued).0, now, 0);
  }

  /** A grant leaves a state the agent can hold, with the id it had or the grant's. */
  lemma OutcomeHolds(k: Checks, self: string, s: State, g: Grant, f: Finding, now: int)
    requires Holdable(k, s) && (f.action.Some? ==> Checked(k, f.action.value)) && Outcome(self, s, g, f, now).Some?
    ensures var n := Outcome(self, s, g, f, now).value.0; Holdable(k, n) && n.isoGrant in {s.isoGrant, g.id}
  {
    hide Mesh.Forgotten, Mesh.Written, RuleValid, Word, Space;
    HoldableMesh(k, s);
    if InWindow(g, now) && !(Restricts(f.action.value) && !f.allowed) {
      var a := f.action.value;
      if g.kind.MeshQuarantine? {
        MeshHolds(k, s.mesh, a.ip, a.MeshOn?, g.issued, now);
      } else {
        Mesh.ForgottenKeeps(s.mesh, now, 0);
        Sources();
      }
    }
  }

  /** Whatever state it meets, and whatever its id, a grant moves its own watermark
    up to its issue time, no further than the clock's skew, and no other back. */
  lemma OutcomeMarked(k: Checks, self: string, s: State, g: Grant, f: Finding, now: int)
    requires Marked(k, s, now) && (f.action.Some? ==> Checked(k, f.action.value))
    ensures var o := Outcome(self, s, g, f, now);
            o.Some? ==> Marked(k, o.value.0, now) && o.value.0.isoSeen >= s.isoSeen && o.value.0.meshSeen >= s.meshSeen
                        && Seen(o.value.0, g.kind) == g.issued > Seen(s, g.kind)
  {
    hide Mesh.Forgotten, Mesh.Written, Holdable;
    if Outcome(self, s, g, f, now).Some? {
      OutcomeHolds(k, self, s, g, f, now);
    }
  }

  /** A grant keeps a well-formed state well formed. */
  lemma OutcomeOk(k: Checks, self: string, s: State, g: Grant, f: Finding, now: int)
    requires Ok(k, s, now) && (f.action.Some? ==> Checked(k, f.action.value))
    ensures var o := Outcome(self, s, g, f, now);
            o.Some? ==> Ok(k, o.value.0, now) && o.value.0.isoGrant in {s.isoGrant, g.id}
  {
    hide Mesh.Forgotten, Mesh.Written, Holdable, CleanId;
    OutcomeMarked(k, self, s, g, f, now);
    HoldableMesh(k, s);
    var o := Outcome(self, s, g, f, now);
    if o.Some? {
      OutcomeHolds(k, self, s, g, f, now);
    }
    if o.Some? && InWindow(g, now) && !(Restricts(f.action.value) && !f.allowed) {
      var a := f.action.value;
      if g.kind.MeshQuarantine? {
        MeshOk(k, s.mesh, a.ip, a.MeshOn?, g.issued, now);
      } else {
        ForgetOk(k, s.mesh, s.meshSeen, now);
      }
    }
  }

  lemma Sources()
    ensures Word("owner") && Word("auto") && Word("none")
  {
  }

  lemma ForgettingKeepsPeers(mesh: seq<Mesh.Slot>, now: int)
    requires Mesh.Distinct(mesh)
    ensures forall ip :: Mesh.Quarantined(Mesh.Forgotten(mesh, now, 0), ip) <==> Mesh.Quarantined(mesh, ip)
  {
    hide Mesh.Forgotten;
    Mesh.ForgottenKeeps(mesh, now, 0);
    forall ip | Mesh.Quarantined(mesh, ip)
      ensures Mesh.Quarantined(Mesh.Forgotten(mesh, now, 0), ip)
    {
      var m :| m in mesh && m.ip == ip && m.on;
      assert m in Mesh.Forgotten(mesh, now, 0);
    }
  }

  /** A grant that does not verify, or an isolation of another endpoint, leaves no
    trace; a mesh grant leaves the isolation alone and an isolation grant the mesh
    watermark and every quarantined peer. */
  lemma LeavesAlone(self: string, s: State, g: Grant, f: Finding, now: int)
    requires Mesh.Distinct(s.mesh)
    ensures var o := Outcome(self, s, g, f, now);
            && (!f.genuine || (!g.kind.MeshQuarantine? && g.endpoint != self) ==> o.None?)
            && (o.Some? && g.kind.MeshQuarantine? ==>
                  o.value.0 == s.(mesh := o.value.0.mesh, meshSeen := g.issued))
            && (o.Some? && !g.kind.MeshQuarantine? ==>
                  o.value.0.meshSeen == s.meshSeen && forall ip :: Mesh.Quarantined(o.value.0.mesh, ip) <==> Mesh.Quarantined(s.mesh, ip))
  {
    hide Mesh.Forgotten, Mesh.Written;
    ForgettingKeepsPeers(s.mesh, now);
  }

  /** An owner's grant for this host, genuine, in its window and later than any
    seen, decides whether the host is isolated: nothing recorded earlier can
    silence it. A release needs no manifest. */
  lemma LaterGrantDecides(k: Checks, self: string, s: State, g: Grant, f: Finding, now: int)
    requires Ok(k, s, now) && g.kind.IsolationChange? && g.endpoint == self && f.genuine && InWindow(g, now) && g.issued > s.isoSeen
    requires f.action.Some? && (f.action.value.Release? || (f.action.value.Isolate? && f.allowed))
    ensures var o := Outcome(self, s, g, f, now);
            && o.Some? && o.value.0.isolated == f.action.value.Isolate? && o.value.0.source == (if f.action.value.Isolate? then "owner" else "none")
            && o.value.0.isoAt == g.issued && o.value.0.isoGrant == g.id
            && o.value.0.allow == (if f.action.value.Isolate? then f.action.value.allow else [])
            && o.value.0.rules == (if f.action.value.Isolate? then f.action.value.rules else [])
  {
  }

  /** A grant is in its window, in seconds. */
  predicate Timely(g: Grant, now: int) {
    0 < g.issued <= g.expires && g.issued - 60 <= now <= g.expires + 60
  }

  /** Which grants leave a trace: those of a known kind, for this host if they isolate,
    genuine and later than the watermark of their kind, that are in their window with
    an action of their kind, or are out of it and not issued more than 60 seconds
    ahead. Out of the window the watermark moves and nothing else. */
  lemma TakenExactly(self: string, s: State, g: Grant, f: Finding, now: int)
    ensures var o, mark := Outcome(self, s, g, f, now), if g.kind.MeshQuarantine? then s.meshSeen else s.isoSeen;
            && (o.Some? <==> && !g.kind.OtherKind? && (g.kind.MeshQuarantine? || g.endpoint == self) && f.genuine && g.issued > mark
                             && (if Timely(g, now) then f.action.Some? && Fits(g.kind, f.action.value) else g.issued <= now + 60))
            && (o.Some? && (!Timely(g, now) || (Restricts(f.action.value) && !f.allowed)) ==>
                  o.value == (if g.kind.MeshQuarantine? then s.(meshSeen := g.issued) else s.(isoSeen := g.issued), false))
  {
    hide Mesh.Forgotten, Mesh.Written;
  }

  /** A detector's grant for a free host, genuine, timely, later than any seen and
    allowed by the manifest, isolates it. */
  lemma DetectorIsolates(k: Checks, self: string, s: State, g: Grant, f: Finding, now: int)
    requires Ok(k, s, now) && !s.isolated && g.kind.AutoIsolate? && g.endpoint == self && f.genuine && Timely(g, now) && g.issued > s.isoSeen
    requires f.action.Some? && f.action.value.Detected? && f.allowed
    ensures var o := Outcome(self, s, g, f, now);
            && o.Some? && o.value.1
            && o.value.0 == s.(isolated := true, source := "auto", allow := [], rules := f.action.value.rules,
                               isoAt := g.issued, isoGrant := g.id, isoSeen := g.issued, mesh := o.value.0.mesh)
  {
    hide Mesh.Forgotten;
  }

  /** A mesh order, genuine, timely and later than any seen: a quarantine the manifest
    allows is in force exactly if the list of 64 knows the peer or has room, a release
    is in force whatever the manifest says, and no other peer is touched. */
  lemma OrderDecides(k: Checks, self: string, s: State, g: Grant, f: Finding, now: int, ip: string, p: string)
    requires Ok(k, s, now) && g.kind.MeshQuarantine? && f.genuine && Timely(g, now) && g.issued > s.meshSeen
    requires (f.action == Some(MeshOn(ip)) && f.allowed) || f.action == Some(MeshOff(ip))
    ensures var o := Outcome(self, s, g, f, now);
            && o.Some? && o.value.0 == s.(mesh := o.value.0.mesh, meshSeen := g.issued)
            && (Mesh.Quarantined(o.value.0.mesh, p) <==>
                  if p == ip then f.action.value.MeshOn? && (Mesh.Listed(s.mesh, ip) || |s.mesh| < 64) else Mesh.Quarantined(s.mesh, p))
  {
    hide Mesh.Forgotten, Mesh.Written, Mesh.Quarantined, Mesh.Listed;
    var on := f.action.value.MeshOn?;
    var w := Mesh.Written(s.mesh, ip, on, g.issued).0;
    OrderWrites(s.mesh, ip, on, g.issued, p);
    ForgettingKeepsPeers(w, now);
  }

  lemma OrderWrites(mesh: seq<Mesh.Slot>, ip: string, on: bool, issued: int, p: string)
    requires Mesh.Distinct(mesh) && issued > 0 && forall m :: m in mesh ==> m.at < issued
    ensures var w := Mesh.Written(mesh, ip, on, issued).0;
            && Mesh.Distinct(w)
            && (Mesh.Quarantined(w, p) <==> if p == ip then on && (Mesh.Listed(mesh, ip) || |mesh| < 64) else Mesh.Quarantined(mesh, p))
  {
    var w := Mesh.Written(mesh, ip, on, issued).0;
    Mesh.FindListed(mesh, ip);
    if on && !Mesh.Listed(mesh, ip) && |mesh| >= Mesh.MAX_MESH {
      assert w == mesh;
    } else {
      Mesh.WrittenSlots(mesh, ip, on, issued);
      hide Mesh.Written;
      var slot := Mesh.Slot(ip, on, issued);
      if p == ip {
        assert on ==> slot in w;
      } else {
        if m :| m in mesh && m.ip == p && m.on {
          assert m in w;
        }
        if m :| m in w && m.ip == p && m.on {
          assert m in mesh;
        }
      }
    }
  }

  /** What lifts an isolation is a genuine release for this host, whatever the
    manifest says. */
  lemma OnlyReleaseLifts(self: string, s: State, g: Grant, f: Finding, now: int)
    requires s.isolated && Outcome(self, s, g, f, now).Some? && !Outcome(self, s, g, f, now).value.0.isolated
    ensures g.kind.IsolationChange? && g.endpoint == self && f.genuine && InWindow(g, now) && f.action == Some(Release)
  {
  }

  /** The detector isolates a free host and never touches an isolation in force. */
  lemma DetectorNeverWidens(k: Checks, self: string, s: State, g: Grant, f: Finding, now: int)
    requires Ok(k, s, now) && g.kind.AutoIsolate? && Outcome(self, s, g, f, now).Some?
    ensures var n := Outcome(self, s, g, f, now).value.0;
            && (s.isolated ==> n == s.(isoSeen := g.issued, mesh := n.mesh))
            && (n.isolated && !s.isolated ==> f.allowed && n.allow == [] && f.action == Some(Detected(n.rules)))
  {
    hide Mesh.Forgotten;
  }

  /** What the enforcer acts on: isolation with its exceptions, and the peers. */
  ghost predicate SameEnforcement(s: State, n: State) {
    && s.isolated == n.isolated && s.allow == n.allow && (n.isolated ==> s.rules == n.rules)
    && forall ip :: Mesh.Quarantined(s.mesh, ip) <==> Mesh.Quarantined(n.mesh, ip)
  }

  /** An order changes who is quarantined exactly when it says so. */
  lemma WrittenPeers(mesh: seq<Mesh.Slot>, ip: string, on: bool, issued: int)
    requires Mesh.Distinct(mesh) && issued > 0 && forall m :: m in mesh ==> m.at < issued
    ensures var (w, changed) := Mesh.Written(mesh, ip, on, issued);
            Mesh.Distinct(w) && (changed <==> !(forall p :: Mesh.Quarantined(mesh, p) <==> Mesh.Quarantined(w, p)))
  {
    var (w, changed) := Mesh.Written(mesh, ip, on, issued);
    Mesh.FindListed(mesh, ip);
    if on && !Mesh.Listed(mesh, ip) && |mesh| >= Mesh.MAX_MESH {
      assert w == mesh && !changed;
    } else {
      Mesh.WrittenSlots(mesh, ip, on, issued);
      Mesh.WrittenChanges(mesh, ip, on, issued);
      hide Mesh.Written;
      if changed {
        assert Mesh.Quarantined(mesh, ip) != Mesh.Quarantined(w, ip) by {
          assert on ==> Mesh.Slot(ip, on, issued) in w;
        }
      } else {
        forall p
          ensures Mesh.Quarantined(mesh, p) <==> Mesh.Quarantined(w, p)
        {
          SameAfter(mesh, w, ip, on, issued, p);
        }
      }
    }
  }

  lemma SameAfter(mesh: seq<Mesh.Slot>, w: seq<Mesh.Slot>, ip: string, on: bool, issued: int, p: string)
    requires on == Mesh.Quarantined(mesh, ip)
    requires forall s :: s in w <==> (s in mesh && s.ip != ip) || (s == Mesh.Slot(ip, on, issued) && (on || Mesh.Listed(mesh, ip)))
    ensures Mesh.Quarantined(mesh, p) <==> Mesh.Quarantined(w, p)
  {
    if p == ip {
      assert on ==> Mesh.Slot(ip, on, issued) in w;
    } else {
      if Mesh.Quarantined(mesh, p) {
        var m :| m in mesh && m.ip == p && m.on;
        assert m in w;
      }
      if Mesh.Quarantined(w, p) {
        var m :| m in w && m.ip == p && m.on;
        assert m in mesh;
      }
    }
  }

  /** A grant reports a change exactly when what is enforced is no longer the same. */
  lemma ReportsChange(k: Checks, self: string, s: State, g: Grant, f: Finding, now: int)
    requires Ok(k, s, now) && Outcome(self, s, g, f, now).Some?
    ensures var (n, changed) := Outcome(self, s, g, f, now).value; changed <==> !SameEnforcement(s, n)
  {
    hide Mesh.Forgotten, Mesh.Written, Holdable, CleanId, Mesh.Quarantined;
    if InWindow(g, now) && !(Restricts(f.action.value) && !f.allowed) {
      var a := f.action.value;
      if g.kind.MeshQuarantine? {
        WrittenPeers(s.mesh, a.ip, a.MeshOn?, g.issued);
        ForgettingKeepsPeers(Mesh.Written(s.mesh, a.ip, a.MeshOn?, g.issued).0, now);
      } else {
        ForgettingKeepsPeers(s.mesh, now);
      }
    }
  }

  // ---- whole runs ----

  ghost predicate Happens(k: Checks, self: string, h: Host, events: seq<Event>)
    decreases |events|
  {
    events != [] ==> Enabled(k, h, events[0]) && Happens(k, self, Apply(k, self, h, events[0]), events[1..])
  }

  ghost function After(k: Checks, self: string, h: Host, events: seq<Event>): Host
    requires Happens(k, self, h, events)
    decreases |events|
  {
    if events == [] then h else After(k, self, Apply(k, self, h, events[0]), events[1..])
  }

  function IsoSeen(k: Checks, h: Host): int {
    Loaded(k, h.file).isoSeen
  }

  function MeshSeen(k: Checks, h: Host): int {
    Loaded(k, h.file).meshSeen
  }

  /** The file's marks are within the clock's skew, and the agent runs on them. */
  ghost predicate HostMarked(k: Checks, h: Host) {
    && IsoSeen(k, h) <= h.clock + SKEW && MeshSeen(k, h) <= h.clock + SKEW
    && (h.running.Some? ==>
          Marked(k, h.running.value, h.clock) && h.running.value.isoSeen == IsoSeen(k, h) && h.running.value.meshSeen == MeshSeen(k, h))
  }

  ghost predicate Forward(k: Checks, h: Host, h': Host) {
    HostMarked(k, h') && h.clock <= h'.clock && IsoSeen(k, h) <= IsoSeen(k, h') && MeshSeen(k, h) <= MeshSeen(k, h')
  }

  lemma StepMarked(k: Checks, self: string, h: Host, e: Event)
    requires Strict(k) && HostMarked(k, h) && Enabled(k, h, e)
    ensures Forward(k, h, Apply(k, self, h, e))
  {
    hide Loaded, Outcome, Strict, Checked, Saved, Holdable;
    LoadedHoldable(k, h.file);
    if e.Deliver? {
      var o := Outcome(self, h.running.value, e.grant, e.finding, h.clock);
      OutcomeMarked(k, self, h.running.value, e.grant, e.finding, h.clock);
      if o.Some? {
        SeenSurvives(k, o.value.0);
      }
    }
  }

  /** In every run, whatever the ids of its grants, both watermarks never decrease
    and stay within the clock's skew, on disk and in force alike. */
  lemma {:induction false} RunOk(k: Checks, self: string, h: Host, events: seq<Event>)
    requires Strict(k) && HostMarked(k, h) && Happens(k, self, h, events)
    ensures Forward(k, h, After(k, self, h, events))
    decreases |events|
  {
    hide Strict, HostMarked, Enabled, Apply, IsoSeen, MeshSeen;
    if events != [] {
      StepMarked(k, self, h, events[0]);
      RunOk(k, self, Apply(k, self, h, events[0]), events[1..]);
    }
  }

  /** A grant whose outcome was written is never processed again: not after any
    number of other grants, stops and starts. */
  lemma NeverTwice(k: Checks, self: string, h: Host, g: Grant, f: Finding, r: Result, events: seq<Event>, f2: Finding)
    requires Strict(k) && HostMarked(k, h) && Enabled(k, h, Deliver(g, f, r)) && (r.Done? || r.StoppedAfter?)
    requires Outcome(self, h.running.value, g, f, h.clock).Some?
    requires Happens(k, self, Apply(k, self, h, Deliver(g, f, r)), events)
    ensures var h' := After(k, self, Apply(k, self, h, Deliver(g, f, r)), events);
            h'.running.Some? ==> Outcome(self, h'.running.value, g, f2, h'.clock).None?
  {
    hide Strict, Loaded, Happens, After, Holdable, Saved, Checked;
    var h1, o := Apply(k, self, h, Deliver(g, f, r)), Outcome(self, h.running.value, g, f, h.clock);
    StepMarked(k, self, h, Deliver(g, f, r));
    OutcomeMarked(k, self, h.running.value, g, f, h.clock);
    SeenSurvives(k, o.value.0);
    RunOk(k, self, h1, events);
  }

  // ---- what the file gives back ----

  /** The file reads back as a good state, and the agent runs on that state. */
  ghost predicate HostOk(k: Checks, h: Host) {
    && Ok(k, Loaded(k, h.file), h.clock)
    && (h.running.Some? ==> h.running.value == Loaded(k, h.file))
  }

  predicate Written(r: Result) {
    r.Done? || r.StoppedAfter?
  }

  /** The event writes its grant's id to the file. */
  predicate WritesId(self: string, h: Host, e: Event)
    requires e.Deliver? ==> h.running.Some?
  {
    && e.Deliver? && Written(e.result)
    && var o := Outcome(self, h.running.value, e.grant, e.finding, h.clock); o.Some? && o.value.0.isoGrant == e.grant.id
  }

  lemma FreshHost(k: Checks, clock: int)
    requires clock >= 0
    ensures HostOk(k, Host("", None, clock)) && HostMarked(k, Host("", None, clock))
  {
    Sources();
  }

  lemma StepOk(k: Checks, self: string, h: Host, e: Event)
    requires Strict(k) && HostOk(k, h) && Enabled(k, h, e) && (WritesId(self, h, e) ==> CleanId(e.grant.id))
    ensures HostOk(k, Apply(k, self, h, e))
  {
    hide Loaded, Outcome, Strict, Checked, Saved, CleanId;
    if e.Deliver? {
      var o := Outcome(self, h.running.value, e.grant, e.finding, h.clock);
      LoadedClean(k, h.file);
      OutcomeOk(k, self, h.running.value, e.grant, e.finding, h.clock);
      if o.Some? {
        RoundTrip(k, o.value.0);
      }
    }
  }

  /** Every id that is written is clean. */
  ghost predicate CleanRun(k: Checks, self: string, h: Host, events: seq<Event>)
    requires Happens(k, self, h, events)
    decreases |events|
  {
    events != [] ==>
      && (WritesId(self, h, events[0]) ==> CleanId(events[0].grant.id))
      && CleanRun(k, self, Apply(k, self, h, events[0]), events[1..])
  }

  /** In every run in which the ids that are written are clean, what is in force is
    what the file gives back, across every failed write, stop and start. */
  lemma {:induction false} RunGivesBack(k: Checks, self: string, h: Host, events: seq<Event>)
    requires Strict(k) && HostOk(k, h) && Happens(k, self, h, events) && CleanRun(k, self, h, events)
    ensures HostOk(k, After(k, self, h, events))
    decreases |events|
  {
    hide Strict, HostOk, Enabled, Apply, WritesId, CleanId;
    if events != [] {
      StepOk(k, self, h, events[0]);
      RunGivesBack(k, self, Apply(k, self, h, events[0]), events[1..]);
    }
  }

  /** And an id that is not clean breaks it at once: saved, it is not what is read. */
  lemma GivesBackExactly(k: Checks, self: string, h: Host, g: Grant, f: Finding)
    requires Strict(k) && HostOk(k, h) && Enabled(k, h, Deliver(g, f, Done))
    ensures HostOk(k, Apply(k, self, h, Deliver(g, f, Done))) <==> (WritesId(self, h, Deliver(g, f, Done)) ==> CleanId(g.id))
  {
    hide Loaded, Outcome, Strict, Checked, Saved, CleanId;
    var e := Deliver(g, f, Done);
    if WritesId(self, h, e) ==> CleanId(g.id) {
      StepOk(k, self, h, e);
    }
    var o := Outcome(self, h.running.value, g, f, h.clock);
    if o.Some? {
      OutcomeOk(k, self, h.running.value, g, f, h.clock);
      RoundTrip(k, o.value.0);
    }
  }
}
