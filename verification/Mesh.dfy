/** The quarantined mesh peers: a bounded list of slots that forgets released
  peers after a while, against the unbounded map it stands for. */
module Mesh {
  const MAX_MESH := 64
  const FORGET_SECONDS := 25 * 3600

  datatype Slot = Slot(ip: string, on: bool, at: int)

  ghost predicate Distinct(list: seq<Slot>) {
    forall i, j :: 0 <= i < j < |list| ==> list[i].ip != list[j].ip
  }

  function Find(list: seq<Slot>, ip: string): (i: nat)
    ensures i <= |list| && (i < |list| ==> list[i].ip == ip)
    ensures forall j :: 0 <= j < i ==> list[j].ip != ip
  {
    if list == [] || list[0].ip == ip then 0 else 1 + Find(list[1..], ip)
  }

  /** One order for one peer: its slot is found, or made when quarantining and
    there is room; an order not later than the slot's is ignored. */
  function Written(list: seq<Slot>, ip: string, on: bool, issued: int): (seq<Slot>, bool) {
    var i := Find(list, ip);
    if i < |list| then
      if issued > list[i].at then (list[i := Slot(ip, on, issued)], list[i].on != on) else (list, false)
    else if !on || |list| >= MAX_MESH then (list, false)
    else if issued > 0 then (list + [Slot(ip, true, issued)], true)
    else (list + [Slot(ip, false, 0)], false)
  }

  predicate Stale(s: Slot, now: int) {
    !s.on && now - s.at > FORGET_SECONDS
  }

  /** Drops stale slots from place i on, moving the last slot into each hole. */
  function Forgotten(list: seq<Slot>, now: int, i: nat): seq<Slot>
    requires i <= |list|
    decreases |list| - i
  {
    if i == |list| then list
    else if Stale(list[i], now) then Forgotten(list[i := list[|list| - 1]][..|list| - 1], now, i)
    else Forgotten(list, now, i + 1)
  }

  // ---- the loops ----

  method FindSlot(list: seq<Slot>, ip: string) returns (i: nat)
    ensures i == Find(list, ip)
  {
    i := 0;
    while i < |list| && list[i].ip != ip
      invariant i <= |list| && forall j :: 0 <= j < i ==> list[j].ip != ip
    {
      i := i + 1;
    }
  }

  method WriteSlot(list: seq<Slot>, ip: string, on: bool, issued: int) returns (r: seq<Slot>, changed: bool)
    ensures (r, changed) == Written(list, ip, on, issued)
  {
    var i := FindSlot(list, ip);
    r, changed := list, false;
    if i == |list| {
      if !on || |list| >= MAX_MESH {
        return;
      }
      r := r + [Slot(ip, false, 0)];
    }
    if issued > r[i].at {
      changed := r[i].on != on;
      r := r[i := Slot(ip, on, issued)];
    }
    assert i == |list| ==> (list + [Slot(ip, false, 0)])[i := Slot(ip, on, issued)] == list + [Slot(ip, on, issued)];
  }

  method ForgetSlots(list: seq<Slot>, now: int) returns (r: seq<Slot>)
    ensures r == Forgotten(list, now, 0)
    ensures forall s :: s in r <==> s in list && (s.on || now - s.at <= 90000)
  {
    ForgottenKeeps(list, now, 0);
    r := list;
    var i := 0;
    while i < |r|
      invariant i <= |r| && Forgotten(r, now, i) == Forgotten(list, now, 0)
      decreases |r| - i
    {
      if Stale(r[i], now) {
        r := r[i := r[|r| - 1]][..|r| - 1];
      } else {
        i := i + 1;
      }
    }
  }

  // ---- what forgetting keeps ----

  /** Exactly the slots that are not stale stay. */
  lemma {:induction false} ForgottenKeeps(list: seq<Slot>, now: int, i: nat)
    requires i <= |list| && forall j :: 0 <= j < i ==> !Stale(list[j], now)
    ensures forall s :: s in Forgotten(list, now, i) <==> s in list && !Stale(s, now)
    ensures Distinct(list) ==> Distinct(Forgotten(list, now, i))
    ensures |Forgotten(list, now, i)| <= |list|
    decreases |list| - i
  {
    if i < |list| {
      if Stale(list[i], now) {
        var next := list[i := list[|list| - 1]][..|list| - 1];
        forall s | s != list[i]
          ensures s in next <==> s in list
        {
          SwapRemoved(list, i, s);
        }
        ForgottenKeeps(next, now, i);
      } else {
        ForgottenKeeps(list, now, i + 1);
      }
    }
  }

  lemma SwapRemoved(list: seq<Slot>, i: nat, s: Slot)
    requires i < |list| && s != list[i]
    ensures s in list[i := list[|list| - 1]][..|list| - 1] <==> s in list
  {
    var n := |list| - 1;
    var next := list[i := list[n]][..n];
    if s in list {
      var j :| 0 <= j < |list| && list[j] == s;
      assert next[if j == n then i else j] == s;
    }
    if s in next {
      var j :| 0 <= j < n && next[j] == s;
      assert list[if j == i then n else j] == s;
    }
  }

  // ---- the unbounded map ----

  datatype Entry = Entry(on: bool, at: int)

  function Noted(m: map<string, Entry>, ip: string, on: bool, issued: int): map<string, Entry> {
    if ip in m && issued <= m[ip].at then m else m[ip := Entry(on, issued)]
  }

  function IsOn(m: map<string, Entry>, ip: string): bool {
    ip in m && m[ip].on
  }

  predicate Listed(list: seq<Slot>, ip: string) {
    exists s :: s in list && s.ip == ip
  }

  predicate Quarantined(list: seq<Slot>, ip: string) {
    exists s :: s in list && s.ip == ip && s.on
  }

  /** The list is the map without some released peers, and nothing in either is
    later than the watermark. */
  ghost predicate Refines(list: seq<Slot>, m: map<string, Entry>, seen: int) {
    && Distinct(list)
    && (forall s :: s in list ==> s.ip in m && m[s.ip] == Entry(s.on, s.at))
    && (forall ip :: ip in m && m[ip].on ==> Listed(list, ip))
    && (forall ip :: ip in m ==> m[ip].at <= seen)
  }

  lemma SamePeers(list: seq<Slot>, m: map<string, Entry>, seen: int, ip: string)
    requires Refines(list, m, seen)
    ensures Quarantined(list, ip) <==> IsOn(m, ip)
  {
  }

  lemma WrittenSlots(list: seq<Slot>, ip: string, on: bool, issued: int)
    requires Distinct(list) && (on && !Listed(list, ip) ==> |list| < MAX_MESH)
    requires issued > 0 && forall s :: s in list ==> s.at < issued
    ensures var r := Written(list, ip, on, issued).0;
            && Distinct(r)
            && (forall s :: s in r <==> (s in list && s.ip != ip) || (s == Slot(ip, on, issued) && (on || Listed(list, ip))))
  {
    var i, r := Find(list, ip), Written(list, ip, on, issued).0;
    if i < |list| {
      assert list[i] in list;
      forall s
        ensures s in r <==> (s in list && s.ip != ip) || s == Slot(ip, on, issued)
      {
        assert r[i] == Slot(ip, on, issued);
        if s in list && s.ip != ip {
          var j :| 0 <= j < |list| && list[j] == s;
          assert r[j] == s;
        }
      }
    }
  }

  lemma WrittenChanges(list: seq<Slot>, ip: string, on: bool, issued: int)
    requires Distinct(list) && (on && !Listed(list, ip) ==> |list| < MAX_MESH)
    requires issued > 0 && forall s :: s in list ==> s.at < issued
    ensures Written(list, ip, on, issued).1 <==> on != Quarantined(list, ip)
  {
    var i := Find(list, ip);
    if i < |list| {
      assert list[i] in list;
      forall s | s in list && s.ip == ip
        ensures s == list[i]
      {
        var j :| 0 <= j < |list| && list[j] == s;
      }
    }
  }

  /** An order later than the watermark does to the list what it does to the map,
    while the list has room for it. */
  lemma OrderRefines(list: seq<Slot>, m: map<string, Entry>, seen: int, ip: string, on: bool, issued: int, now: int)
    requires Refines(list, m, seen) && issued > seen && issued > 0 && (on && !Listed(list, ip) ==> |list| < MAX_MESH)
    ensures var (written, changed) := Written(list, ip, on, issued);
            && Refines(Forgotten(written, now, 0), Noted(m, ip, on, issued), issued)
            && (changed <==> on != IsOn(m, ip))
  {
    hide Written, Forgotten, Find;
    var (written, changed) := Written(list, ip, on, issued);
    var m' := Noted(m, ip, on, issued);
    forall s | s in list
      ensures s.at < issued
    {
      assert s.ip in m && m[s.ip].at <= seen;
    }
    WrittenSlots(list, ip, on, issued);
    WrittenChanges(list, ip, on, issued);
    SamePeers(list, m, seen, ip);
    ForgottenKeeps(written, now, 0);
    forall p | p in m' && m'[p].on
      ensures Listed(Forgotten(written, now, 0), p)
    {
      if p == ip {
        assert Slot(ip, on, issued) in written;
      } else {
        var s :| s in list && s.ip == p;
        assert s in written && !Stale(s, now);
      }
    }
  }

  lemma FindListed(list: seq<Slot>, ip: string)
    ensures Find(list, ip) < |list| <==> Listed(list, ip)
  {
    var i := Find(list, ip);
    assert i < |list| ==> list[i] in list;
  }

  /** A quarantine later than any order before it is in force exactly when the list
    knows the peer or has room for it; the map always takes it. */
  lemma FullListMisses(list: seq<Slot>, m: map<string, Entry>, seen: int, ip: string, issued: int, now: int)
    requires Refines(list, m, seen) && issued > seen && issued > 0
    ensures Quarantined(Forgotten(Written(list, ip, true, issued).0, now, 0), ip) <==> Listed(list, ip) || |list| < 64
    ensures IsOn(Noted(m, ip, true, issued), ip)
  {
    hide Forgotten;
    FindListed(list, ip);
    if Listed(list, ip) || |list| < MAX_MESH {
      OrderRefines(list, m, seen, ip, true, issued, now);
      SamePeers(Forgotten(Written(list, ip, true, issued).0, now, 0), Noted(m, ip, true, issued), issued, ip);
    } else {
      ForgottenKeeps(list, now, 0);
    }
    if ip in m {
      assert m[ip].at <= seen;
    }
  }

  /** A release reaches the first slot of its address only: the peer stays
    quarantined exactly when a later slot of the same address is on. */
  lemma ReleaseReaches(list: seq<Slot>, ip: string, issued: int, now: int)
    requires forall s :: s in list ==> s.at < issued
    ensures Quarantined(Forgotten(Written(list, ip, false, issued).0, now, 0), ip)
         <==> exists j :: Find(list, ip) < j < |list| && list[j].ip == ip && list[j].on
  {
    hide Forgotten;
    var i, w := Find(list, ip), Written(list, ip, false, issued).0;
    ForgottenKeeps(w, now, 0);
    if i < |list| {
      assert list[i] in list && w == list[i := Slot(ip, false, issued)];
      if j :| i < j < |list| && list[j].ip == ip && list[j].on {
        assert w[j] in w;
        assert Quarantined(Forgotten(w, now, 0), ip);
      }
    } else {
      forall s | s in w
        ensures s.ip != ip
      {
        var j :| 0 <= j < |list| && list[j] == s;
      }
    }
  }

  lemma RepeatedAddressStays(ip: string, at: int, issued: int, now: int)
    requires at < issued
    ensures Quarantined(Forgotten(Written([Slot(ip, true, at), Slot(ip, true, at)], ip, false, issued).0, now, 0), ip)
  {
    var list := [Slot(ip, true, at), Slot(ip, true, at)];
    ReleaseReaches(list, ip, issued, now);
    assert Find(list, ip) == 0 < 1 && list[1].ip == ip && list[1].on;
  }
}
