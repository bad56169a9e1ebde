/** What signed grants do to a host's enforcement state: isolation with its
  exceptions, the mesh quarantine, and one watermark for each. */
module Enforcement {
  import opened Bits
  import Mesh

  const SKEW := 60

  datatype Rule = Rule(service: string, destination: string, protocol: string, port: nat)

  datatype State = State(
    isolated: bool, source: string, isoAt: int, isoGrant: string, allow: seq<string>, rules: seq<Rule>,
    isoSeen: int, meshSeen: int, mesh: seq<Mesh.Slot>)

  datatype Kind = MeshQuarantine | IsolationChange | AutoIsolate | OtherKind
  datatype Action =
    | Isolate(allow: seq<string>, rules: seq<Rule>)
    | Detected(rules: seq<Rule>)
    | Release
    | MeshOn(ip: string)
    | MeshOff(ip: string)

  datatype Grant = Grant(kind: Kind, endpoint: string, id: string, issued: int, expires: int)

  /** What the pinned keys, the signed payload and the manifest say of a grant:
    the signature verifies, the action it holds for this host, the manifest
    allows its kind. */
  datatype Finding = Finding(genuine: bool, action: Option<Action>, allowed: bool)

  /** A grant of one kind never carries another kind's action. */
  predicate Fits(kind: Kind, a: Action) {
    match kind
    case MeshQuarantine => a.MeshOn? || a.MeshOff?
    case IsolationChange => a.Isolate? || a.Release?
    case AutoIsolate => a.Detected?
    case OtherKind => false
  }

  predicate Restricts(a: Action) {
    a.Isolate? || a.Detected? || a.MeshOn?
  }

  function Seen(s: State, kind: Kind): int {
    if kind.MeshQuarantine? then s.meshSeen else s.isoSeen
  }

  function WithSeen(s: State, kind: Kind, at: int): State {
    if kind.MeshQuarantine? then s.(meshSeen := at) else s.(isoSeen := at)
  }

  predicate InWindow(g: Grant, now: int) {
    g.issued > 0 && g.expires >= g.issued && now >= g.issued - SKEW && now <= g.expires + SKEW
  }

  /** The isolation an action asks for; the detector never touches one in force. */
  function Isolation(s: State, g: Grant, a: Action): (State, bool) {
    match a
    case Isolate(allow, rules) => (s.(isolated := true, source := "owner", allow := allow, rules := rules, isoAt := g.issued, isoGrant := g.id),
                                   !s.isolated || allow != s.allow || rules != s.rules)
    case Detected(rules) =>
      if s.isolated then (s, false)
      else (s.(isolated := true, source := "auto", allow := [], rules := rules, isoAt := g.issued, isoGrant := g.id), true)
    case Release => (s.(isolated := false, source := "none", allow := [], rules := [], isoAt := g.issued, isoGrant := g.id),
                     s.isolated || s.allow != [])
    case _ => (s, false)
  }

  function Enforced(s: State, g: Grant, a: Action): (State, bool) {
    match a
    case MeshOn(ip) => var (mesh, changed) := Mesh.Written(s.mesh, ip, true, g.issued); (s.(mesh := mesh), changed)
    case MeshOff(ip) => var (mesh, changed) := Mesh.Written(s.mesh, ip, false, g.issued); (s.(mesh := mesh), changed)
    case _ => if g.issued > s.isoAt then Isolation(s, g, a) else (s, false)
  }

  /** The state to write for a grant, and whether it changes what is enforced;
    none when the grant leaves no trace. */
  function Outcome(self: string, s: State, g: Grant, f: Finding, now: int): Option<(State, bool)> {
    if g.kind.OtherKind? || g.issued <= Seen(s, g.kind) then None
    else if !g.kind.MeshQuarantine? && g.endpoint != self then None
    else if !f.genuine then None
    else if !InWindow(g, now) then
      if g.issued <= now + SKEW then Some((WithSeen(s, g.kind, g.issued), false)) else None
    else if f.action.None? || !Fits(g.kind, f.action.value) then None
    else
      var a, s1 := f.action.value, WithSeen(s, g.kind, g.issued);
      if Restricts(a) && !f.allowed then Some((s1, false))
      else
        var (s2, changed) := Enforced(s1, g, a);
        Some((s2.(mesh := Mesh.Forgotten(s2.mesh, now, 0)), changed))
  }

  /** The state in force, replaced only by one that has been written. */
  class Enforcer {
    const self: string
    var state: State

    constructor (self: string, state: State)
      ensures this.self == self && this.state == state
    {
      this.self, this.state := self, state;
    }

    /** Processes one grant; `writable` is whether the new state could be saved.
      A grant whose outcome was not saved leaves the state as it was. */
    method ApplyGrant(g: Grant, f: Finding, now: int, writable: bool) returns (changed: bool)
      modifies this`state
      ensures var o := Outcome(self, old(state), g, f, now);
              && state == (if writable && o.Some? then o.value.0 else old(state))
              && changed == (writable && o.Some? && o.value.1)
    {
      changed := false;
      var work := state;
      var mesh := g.kind == MeshQuarantine;
      if g.kind == OtherKind {
        return;
      }
      if g.issued <= (if mesh then work.meshSeen else work.isoSeen) {
        return;
      }
      if !mesh && g.endpoint != self {
        return;
      }
      if !f.genuine || !InWindow(g, now) {
        if f.genuine && g.issued <= now + SKEW {
          work := if mesh then work.(meshSeen := g.issued) else work.(isoSeen := g.issued);
          if writable {
            state := work;
          }
        }
        return;
      }
      if f.action.None? || !Fits(g.kind, f.action.value) {
        return;
      }
      var a := f.action.value;
      work := if mesh then work.(meshSeen := g.issued) else work.(isoSeen := g.issued);
      if Restricts(a) && !f.allowed {
        if writable {
          state := work;
        }
        return;
      }
      var difference := false;
      if mesh {
        var slots;
        slots, difference := Mesh.WriteSlot(work.mesh, a.ip, a.MeshOn?, g.issued);
        work := work.(mesh := slots);
      } else if g.issued > work.isoAt && !(a.Detected? && work.isolated) {
        var want := !a.Release?;
        var allow := if a.Isolate? then a.allow else [];
        var rules := if want then a.rules else [];
        difference := want != work.isolated || allow != work.allow || (want && rules != work.rules);
        work := work.(isolated := want, source := if a.Detected? then "auto" else if want then "owner" else "none",
                      allow := allow, rules := rules, isoAt := g.issued, isoGrant := g.id);
      }
      var kept := Mesh.ForgetSlots(work.mesh, now);
      work := work.(mesh := kept);
      if !writable {
        return;
      }
      state := work;
      return difference;
    }
  }
}
