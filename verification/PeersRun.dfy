/** The bounded, forgetful mesh list over whole runs of grants, against peers kept
  in a map that is never full and forgets nothing. */
module PeersRun {
  import opened Bits
  import opened Enforcement
  import opened StateFile
  import opened EnforcementRun
  import Mesh

  /** The peers as they would be kept without a limit: the last order for each, and
    the watermark. */
  datatype Peers = Peers(seen: int, entries: map<string, Mesh.Entry>)

  predicate Ordered(a: Action) {
    a.MeshOn? || a.MeshOff?
  }

  /** What a mesh grant does to them, and whether it changes who is quarantined. */
  function Take(p: Peers, g: Grant, f: Finding, now: int): Option<(Peers, bool)> {
    if !g.kind.MeshQuarantine? || g.issued <= p.seen || !f.genuine then None
    else if !InWindow(g, now) then
      if g.issued <= now + SKEW then Some((p.(seen := g.issued), false)) else None
    else if f.action.None? || !Ordered(f.action.value) then None
    else if f.action.value.MeshOn? && !f.allowed then Some((p.(seen := g.issued), false))
    else
      var a := f.action.value;
      Some((Peers(g.issued, Mesh.Noted(p.entries, a.ip, a.MeshOn?, g.issued)), a.MeshOn? != Mesh.IsOn(p.entries, a.ip)))
  }

  ghost predicate Stands(s: State, p: Peers) {
    s.meshSeen == p.seen && Mesh.Refines(s.mesh, p.entries, p.seen)
  }

  /** The grant is a quarantine order the peers take. */
  predicate Orders(s: State, g: Grant, f: Finding, now: int) {
    && g.kind.MeshQuarantine? && g.issued > s.meshSeen && f.genuine && InWindow(g, now)
    && f.action.Some? && f.action.value.MeshOn? && f.allowed
  }

  /** The list has room for the order, should the grant be one. */
  predicate Room(s: State, g: Grant, f: Finding, now: int) {
    Orders(s, g, f, now) ==> Mesh.Listed(s.mesh, f.action.value.ip) || |s.mesh| < 64
  }

  lemma ForgettingRefines(list: seq<Mesh.Slot>, m: map<string, Mesh.Entry>, seen: int, now: int)
    requires Mesh.Refines(list, m, seen)
    ensures Mesh.Refines(Mesh.Forgotten(list, now, 0), m, seen)
  {
    hide Mesh.Forgotten;
    Mesh.ForgottenKeeps(list, now, 0);
    forall ip | ip in m && m[ip].on
      ensures Mesh.Listed(Mesh.Forgotten(list, now, 0), ip)
    {
      var s :| s in list && s.ip == ip;
      assert s in Mesh.Forgotten(list, now, 0);
    }
  }

  lemma LaterRefines(list: seq<Mesh.Slot>, m: map<string, Mesh.Entry>, seen: int, later: int)
    requires Mesh.Refines(list, m, seen) && seen <= later
    ensures Mesh.Refines(list, m, later)
  {
  }

  /** One grant: taken by the host exactly when the peers take it. The list still
    stands for them exactly when it had room, and then the change is the same. */
  lemma GrantRefines(self: string, s: State, g: Grant, f: Finding, now: int, p: Peers)
    requires Stands(s, p)
    ensures var o, t := Outcome(self, s, g, f, now), Take(p, g, f, now);
            && (g.kind.MeshQuarantine? ==> (o.Some? <==> t.Some?))
            && (t.Some? ==> o.Some?)
            && (o.Some? ==> (Stands(o.value.0, if t.Some? then t.value.0 else p) <==> Room(s, g, f, now)))
            && (t.Some? && Room(s, g, f, now) ==> o.value.1 == t.value.1)
  {
    hide Mesh.Forgotten, Mesh.Written, Mesh.Refines, Mesh.Noted, Mesh.IsOn, Mesh.Listed, Mesh.Quarantined;
    if g.issued > s.meshSeen {
      LaterRefines(s.mesh, p.entries, p.seen, g.issued);
    }
    ForgettingRefines(s.mesh, p.entries, p.seen, now);
    if InWindow(g, now) && f.action.Some? && Ordered(f.action.value) && g.issued > p.seen {
      var a := f.action.value;
      if a.MeshOff? || Mesh.Listed(s.mesh, a.ip) || |s.mesh| < Mesh.MAX_MESH {
        Mesh.OrderRefines(s.mesh, p.entries, p.seen, a.ip, a.MeshOn?, g.issued, now);
      } else {
        NoRoom(s.mesh, p.entries, p.seen, a.ip, g.issued, now);
      }
    }
  }

  lemma NoRoom(list: seq<Mesh.Slot>, m: map<string, Mesh.Entry>, seen: int, ip: string, issued: int, now: int)
    requires Mesh.Refines(list, m, seen) && issued > seen && issued > 0 && !Mesh.Listed(list, ip) && |list| >= 64
    ensures !Mesh.Refines(Mesh.Forgotten(Mesh.Written(list, ip, true, issued).0, now, 0), Mesh.Noted(m, ip, true, issued), issued)
  {
    hide *;
    Mesh.FullListMisses(list, m, seen, ip, issued, now);
    var list', m' := Mesh.Forgotten(Mesh.Written(list, ip, true, issued).0, now, 0), Mesh.Noted(m, ip, true, issued);
    if Mesh.Refines(list', m', issued) {
      Mesh.SamePeers(list', m', issued, ip);
    }
  }

  // ---- whole runs ----

  /** The peers after an event: moved by what was written, never by what was not. */
  function Next(p: Peers, h: Host, e: Event): Peers {
    if e.Deliver? && Written(e.result) && Take(p, e.grant, e.finding, h.clock).Some?
    then Take(p, e.grant, e.finding, h.clock).value.0
    else p
  }

  /** What an event changes among the peers, by the host and by the map. */
  function HostSays(self: string, h: Host, e: Event): bool
    requires e.Deliver? ==> h.running.Some?
  {
    e.Deliver? && Written(e.result) && e.grant.kind.MeshQuarantine? &&
    var o := Outcome(self, h.running.value, e.grant, e.finding, h.clock);
    o.Some? && o.value.1
  }

  function PeersSay(p: Peers, h: Host, e: Event): bool {
    e.Deliver? && Written(e.result) && var t := Take(p, e.grant, e.finding, h.clock); t.Some? && t.value.1
  }

  /** The slots in force are those of the file, and the id in force plants none. */
  ghost predicate SlotsKept(k: Checks, h: Host) {
    h.running.Some? ==>
      var s, t := h.running.value, Loaded(k, h.file);
      Holdable(k, s) && s.mesh == t.mesh && s.meshSeen == t.meshSeen && Planted(k, s.isoGrant) == []
  }

  /** A written order finds room, and a written id plants no slots. */
  predicate FitsOne(k: Checks, self: string, h: Host, e: Event)
    requires e.Deliver? ==> h.running.Some?
  {
    && (e.Deliver? && Written(e.result) ==> Room(h.running.value, e.grant, e.finding, h.clock))
    && (WritesId(self, h, e) ==> Planted(k, e.grant.id) == [])
  }

  ghost predicate Fits(k: Checks, self: string, h: Host, events: seq<Event>)
    requires Happens(k, self, h, events)
    decreases |events|
  {
    events != [] ==> FitsOne(k, self, h, events[0]) && Fits(k, self, Apply(k, self, h, events[0]), events[1..])
  }

  ghost function PeersAfter(k: Checks, self: string, h: Host, events: seq<Event>, p: Peers): Peers
    requires Happens(k, self, h, events)
    decreases |events|
  {
    if events == [] then p else PeersAfter(k, self, Apply(k, self, h, events[0]), events[1..], Next(p, h, events[0]))
  }

  ghost function HostChanges(k: Checks, self: string, h: Host, events: seq<Event>): seq<bool>
    requires Happens(k, self, h, events)
    decreases |events|
  {
    if events == [] then [] else [HostSays(self, h, events[0])] + HostChanges(k, self, Apply(k, self, h, events[0]), events[1..])
  }

  ghost function PeerChanges(k: Checks, self: string, h: Host, events: seq<Event>, p: Peers): seq<bool>
    requires Happens(k, self, h, events)
    decreases |events|
  {
    if events == [] then []
    else [PeersSay(p, h, events[0])] + PeerChanges(k, self, Apply(k, self, h, events[0]), events[1..], Next(p, h, events[0]))
  }

  lemma StepRefines(k: Checks, self: string, h: Host, e: Event, p: Peers)
    requires Strict(k) && SlotsKept(k, h) && Enabled(k, h, e) && FitsOne(k, self, h, e) && Stands(Loaded(k, h.file), p)
    ensures var h' := Apply(k, self, h, e); SlotsKept(k, h') && Stands(Loaded(k, h'.file), Next(p, h, e))
    ensures HostSays(self, h, e) == PeersSay(p, h, e)
  {
    hide Loaded, Saved, Outcome, Take, Strict, Checked, Mesh.Refines, Room, Planted, Holdable;
    LoadedHoldable(k, h.file);
    LoadedPlants(k, h.file);
    if e.Deliver? && Written(e.result) {
      var s := h.running.value;
      GrantRefines(self, s, e.grant, e.finding, h.clock, p);
      OtherKinds(p, e.grant, e.finding, h.clock);
      var o := Outcome(self, s, e.grant, e.finding, h.clock);
      if o.Some? {
        OutcomeHolds(k, self, s, e.grant, e.finding, h.clock);
        MeshGivenBack(k, o.value.0);
        SeenSurvives(k, o.value.0);
      }
    }
  }

  lemma OtherKinds(p: Peers, g: Grant, f: Finding, now: int)
    ensures !g.kind.MeshQuarantine? ==> Take(p, g, f, now).None?
  {
  }

  lemma LoadedPlants(k: Checks, file: string)
    ensures Planted(k, Loaded(k, file).isoGrant) == []
  {
    hide Loaded, Planted;
    LoadedClean(k, file);
    UnbrokenPlants(k, Loaded(k, file).isoGrant);
  }

  lemma MeshGivenBack(k: Checks, s: State)
    requires Strict(k) && Holdable(k, s) && Planted(k, s.isoGrant) == []
    ensures Loaded(k, Saved(s)).mesh == s.mesh
  {
    hide Loaded, Saved, Planted, RuleValid;
    MeshComesBack(k, s);
    assert [] + s.mesh == s.mesh;
  }

  /** Over every run of grants of any kind and id, failed writes,
    stops and starts, in which every order that is taken finds room and no id
    that is written plants slots: whatever slots were forgotten on the way, the
    quarantined peers and what each grant changes are those of the map. */
  lemma {:induction false} ForgettingIsHarmless(k: Checks, self: string, h: Host, events: seq<Event>, p: Peers, ip: string)
    requires Strict(k) && SlotsKept(k, h) && Happens(k, self, h, events) && Fits(k, self, h, events) && Stands(Loaded(k, h.file), p)
    ensures Mesh.Quarantined(Loaded(k, After(k, self, h, events).file).mesh, ip) <==> Mesh.IsOn(PeersAfter(k, self, h, events, p).entries, ip)
    ensures HostChanges(k, self, h, events) == PeerChanges(k, self, h, events, p)
    decreases |events|
  {
    hide Strict, SlotsKept, Enabled, Apply, Loaded, HostSays, PeersSay, Next, Mesh.Refines, Mesh.Quarantined, Mesh.IsOn, FitsOne;
    if events == [] {
      Mesh.SamePeers(Loaded(k, h.file).mesh, p.entries, p.seen, ip);
    } else {
      StepRefines(k, self, h, events[0], p);
      ForgettingIsHarmless(k, self, Apply(k, self, h, events[0]), events[1..], Next(p, h, events[0]), ip);
    }
  }

  /** An isolation grant whose id holds a line break and a mesh line: once it is
    written, a start finds a peer in quarantine that nobody ordered there. */
  lemma PlantedByIsolation(k: Checks, self: string, h: Host, e: Event, p: Peers)
    requires Strict(k) && SlotsKept(k, h) && Enabled(k, h, e) && WritesId(self, h, e) && !e.grant.kind.MeshQuarantine?
    requires e.grant.id == "x\nmesh 10.0.0.9 1 5" && k.address("10.0.0.9") && !Mesh.IsOn(p.entries, "10.0.0.9")
    ensures Mesh.Quarantined(Loaded(k, Apply(k, self, h, e).file).mesh, "10.0.0.9") && !Mesh.IsOn(Next(p, h, e).entries, "10.0.0.9")
  {
    hide Loaded, Saved, Outcome, Take, Strict, Checked, Planted, Holdable, Mesh.Quarantined;
    OtherKinds(p, e.grant, e.finding, h.clock);
    OutcomeHolds(k, self, h.running.value, e.grant, e.finding, h.clock);
    PeerPlanted(k, Outcome(self, h.running.value, e.grant, e.finding, h.clock).value.0);
  }

  /** A host whose file gives back its state keeps the slots. */
  lemma HostKeepsSlots(k: Checks, h: Host)
    requires Strict(k) && HostOk(k, h)
    ensures SlotsKept(k, h)
  {
    hide Loaded, Planted, Strict;
    LoadedHoldable(k, h.file);
    LoadedPlants(k, h.file);
  }

  /** A host with no file stands for no peers at all. */
  lemma NoPeers(k: Checks, clock: int)
    ensures Stands(Loaded(k, ""), Peers(0, map[]))
  {
  }
}
