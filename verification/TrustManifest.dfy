/** The manifests a host takes: under each policy key their numbers only go up,
  whatever write fails or wherever the agent stops, and across re-pins. */
module TrustManifest {
  import opened Bits
  import opened Floors
  import opened TrustPin

  function Last(log: seq<Taken>): Taken
    requires log != []
  {
    log[|log| - 1]
  }

  predicate Is(m: Manifest, t: Taken) {
    m.signer == t.key && m.sequence == t.sequence
  }

  /** A list that holds the whole log, or all but its last entry. */
  ghost predicate Behind(list: seq<Floor>, log: seq<Taken>) {
    || list == Recorded(log)
    || (&& log != [] && Distinct(list) && !Floored(list, Last(log).key, Last(log).sequence)
        && Inserted(list, Last(log).key, Last(log).sequence) == Recorded(log))
  }

  /** On disk: the last manifest taken or none, and its floor unless the manifest is
    there and the pinned key can still recover it. */
  ghost predicate DiskOk(h: Host) {
    && (h.log != [] ==> Last(h.log).sequence > 0)
    && (h.disk.manifest.Some? ==> h.log != [] && Is(h.disk.manifest.value, Last(h.log)))
    && Behind(h.disk.floors, h.log)
    && (h.disk.floors == Recorded(h.log)
        || (h.disk.manifest.Some? && Acceptable(h.disk).Some? && Acceptable(h.disk).value.policy == Last(h.log).key))
  }

  /** In memory: the floors of the whole log, or the manifest they lack. */
  ghost predicate AgentOk(h: Host) {
    h.agent.Some? ==>
      var a := h.agent.value;
      && a.keys == Acceptable(h.disk)
      && (a.manifest.Some? ==> a.keys.Some?)
      && (if a.dirty then a.keys.Some? && a.floors == Recorded(h.log) else a.floors == h.disk.floors)
      && (a.floors == Recorded(h.log) || (h.log != [] && a.manifest.Some? && Is(a.manifest.value, Last(h.log))))
  }

  /** The second was taken under the key the first was, the next time it was, with
    at most seven other keys in between. */
  ghost predicate NextUnderKey(log: seq<Taken>, i: nat, j: nat) {
    && i < j < |log| && log[i].key == log[j].key
    && (forall k :: i < k < j ==> log[k].key != log[i].key)
    && |Others(log[i + 1..j], log[i].key)| <= 7
  }

  ghost predicate Rising(log: seq<Taken>) {
    forall i: nat, j: nat :: NextUnderKey(log, i, j) ==> log[i].sequence < log[j].sequence
  }

  ghost predicate Ok(h: Host) {
    DiskOk(h) && AgentOk(h) && Rising(h.log)
  }

  // ---- starting ----

  lemma LastFloored(log: seq<Taken>)
    requires log != []
    ensures Floored(Recorded(log), Last(log).key, Last(log).sequence)
  {
    hide Floored, Inserted;
    var before := log[..|log| - 1];
    assert log == before + [Last(log)];
    RecordedNext(before, Last(log));
    InsertedFloored(Recorded(before), Last(log).key, Last(log).sequence, Last(log).sequence);
  }

  /** A start recovers the floors of everything ever taken. */
  lemma StartRecovers(h: Host)
    requires DiskOk(h)
    ensures Started(h.disk).floors == Recorded(h.log)
    ensures AgentOk(h.(agent := Some(Started(h.disk))))
  {
    hide Floored, Inserted, Recorded, Distinct, FirstFloors;
    ShortFloors(h.disk.floors, h.log);
    if h.log != [] {
      LastFloored(h.log);
    }
  }

  // ---- a heartbeat ----

  lemma PinKeysKeeps(release: Offer -> bool, h: Host, o: Offer, epoch: Outcome, pin: Outcome)
    requires Ok(h) && PinOk(release, h) && h.agent.Some?
    ensures Ok(PinKeys(release, h, o, epoch, pin))
  {
    hide Floored, Inserted, Recorded, Distinct, Rising;
    if h.log != [] {
      LastFloored(h.log);
    }
  }

  lemma WriteFloorsKeeps(h: Host, floors: Outcome)
    requires Ok(h) && h.agent.Some?
    ensures Ok(WriteFloors(h, floors))
  {
    hide Floored, Inserted, Recorded, Distinct, Rising;
  }

  /** What is accepted is above the last number taken under its key. */
  lemma AcceptedIsHigher(h: Host, m: Manifest, i: nat)
    requires Ok(h) && h.agent.Some? && !h.agent.value.dirty && Verifies(h.agent.value.keys, m)
    requires !(h.agent.value.manifest.Some? && m.sequence <= h.agent.value.manifest.value.sequence)
    requires !ManifestFloored(h.agent.value, m.sequence)
    requires NextUnderKey(h.log + [Taken(m.signer, m.sequence)], i, |h.log|)
    ensures h.log[i].sequence < m.sequence
  {
    hide Floored, Inserted, Recorded, Distinct, Rising;
    var log, next := h.log, h.log + [Taken(m.signer, m.sequence)];
    assert next[i] == log[i] && next[i + 1..|log|] == log[i + 1..];
    if h.agent.value.floors == Recorded(log) {
      assert forall k :: i < k < |log| ==> log[k].key == next[k].key;
      LastRemembered(log, i);
      RememberedFloored(Recorded(log), m.signer, log[i].sequence, Others(log[i + 1..], m.signer), m.sequence);
    } else {
      assert next[|log| - 1] == Last(log);
    }
  }

  lemma RisingNext(log: seq<Taken>, t: Taken)
    requires Rising(log)
    requires forall i: nat :: NextUnderKey(log + [t], i, |log|) ==> log[i].sequence < t.sequence
    ensures Rising(log + [t])
  {
    var next := log + [t];
    forall i: nat, j: nat | NextUnderKey(next, i, j)
      ensures next[i].sequence < next[j].sequence
    {
      if j < |log| {
        assert next[i + 1..j] == log[i + 1..j];
        assert forall k :: i < k < j ==> log[k] == next[k];
        assert NextUnderKey(log, i, j);
      }
    }
  }

  /** The floors that were behind, or not, are behind the longer log. */
  lemma BehindNext(list: seq<Floor>, log: seq<Taken>, t: Taken)
    requires Behind(list, log) && !Floored(list, t.key, t.sequence)
    requires list == Recorded(log) || t.key == Last(log).key
    ensures Behind(list, log + [t]) && Inserted(list, t.key, t.sequence) == Recorded(log + [t])
  {
    hide Floored, Inserted, Recorded, Distinct;
    RecordedNext(log, t);
    if list != Recorded(log) {
      InsertedTwice(list, t.key, Last(log).sequence, t.sequence);
    }
  }

  lemma AcceptKeeps(h: Host, m: Manifest, manifest: Outcome, floors: Outcome)
    requires Ok(h) && h.agent.Some? && !h.agent.value.dirty
    ensures Ok(AcceptManifest(h, m, manifest, floors))
  {
    hide Floored, Inserted, Recorded, Distinct, Rising, Others;
    var a, t := h.agent.value, Taken(m.signer, m.sequence);
    if Verifies(a.keys, m) && !ManifestFloored(a, m.sequence) && (a.manifest.Some? ==> m.sequence > a.manifest.value.sequence) {
      forall i: nat | NextUnderKey(h.log + [t], i, |h.log|)
        ensures h.log[i].sequence < t.sequence
      {
        AcceptedIsHigher(h, m, i);
      }
      RisingNext(h.log, t);
      BehindNext(a.floors, h.log, t);
    }
  }

  lemma BeatKeeps(release: Offer -> bool, h: Host, offer: Option<Offer>, m: Option<Manifest>, io: Outcomes)
    requires Ok(h) && PinOk(release, h) && h.agent.Some?
    ensures Ok(Heartbeat(release, h, offer, m, io))
  {
    hide Ok, PinOk, PinKeys, WriteFloors, AcceptManifest;
    var h1 := if offer.Some? then PinKeys(release, h, offer.value, io.epoch, io.pin) else h;
    if offer.Some? {
      PinKeysKeeps(release, h, offer.value, io.epoch, io.pin);
    }
    if h1.agent.Some? {
      var h2 := WriteFloors(h1, io.dirty);
      WriteFloorsKeeps(h1, io.dirty);
      if h2.agent.Some? && m.Some? && !h2.agent.value.dirty {
        AcceptKeeps(h2, m.value, io.manifest, io.floors);
      }
    }
  }

  /** A re-pin makes everything recovered durable before the key that verified it goes. */
  lemma RepinKeeps(h: Host, floors: Outcome, epoch: Outcome, removal: Outcome)
    requires Ok(h) && h.agent.None?
    ensures Ok(Repin(h, floors, epoch, removal))
  {
    hide Floored, Inserted, Recorded, Distinct, Rising;
    StartRecovers(h);
    var a := Started(h.disk);
    assert !a.dirty ==> a.floors == h.disk.floors;
  }

  lemma StepKeeps(release: Offer -> bool, h: Host, e: Event)
    requires Ok(h) && PinOk(release, h) && Enabled(h, e)
    ensures Ok(Apply(release, h, e)) && PinOk(release, Apply(release, h, e))
  {
    hide PinOk, Heartbeat, Repin, Started, Rising, Behind;
    StepKeepsPin(release, h, e);
    match e
    case Start => StartRecovers(h);
    case Stop =>
    case Beat(offer, m, io) => BeatKeeps(release, h, offer, m, io);
    case Revoke(floors, epoch, removal) => RepinKeeps(h, floors, epoch, removal);
    case Lose => LossKeeps(h);
  }

  /** Losing a manifest whose number is floored loses nothing. */
  lemma LossKeeps(h: Host)
    requires Ok(h) && StoredIsFloored(h.disk)
    ensures Ok(h.(disk := h.disk.(manifest := None)))
  {
    hide Floored, Inserted, Recorded, Distinct, Rising;
  }

  /** And exactly then: a manifest file lost is taken again after a start if and
    only if its number was not in the floor file. */
  lemma LossExact(h: Host, floors: Outcome)
    requires Ok(h) && h.disk.manifest.Some? && Verifies(Acceptable(h.disk), h.disk.manifest.value)
    ensures var m, lost := h.disk.manifest.value, h.disk.(manifest := None);
            AcceptManifest(h.(disk := lost, agent := Some(Started(lost))), m, Done, floors).log != h.log <==> !StoredIsFloored(h.disk)
  {
    hide Inserted, Recorded, Distinct, Rising;
    ShortFloors(h.disk.floors, h.log);
  }

  lemma ShortFloors(list: seq<Floor>, log: seq<Taken>)
    requires Behind(list, log)
    ensures FirstFloors(list) == list
  {
    hide Floored, Distinct;
    if list != Recorded(log) {
      InsertedLength(list, Last(log).key, Last(log).sequence);
    }
  }

  lemma {:induction false} RunKeeps(release: Offer -> bool, h: Host, events: seq<Event>)
    requires Ok(h) && PinOk(release, h) && Happens(release, h, events)
    ensures Ok(After(release, h, events))
    decreases |events|
  {
    hide Ok, PinOk, Enabled, Apply;
    if events != [] {
      StepKeeps(release, h, events[0]);
      RunKeeps(release, Apply(release, h, events[0]), events[1..]);
    }
  }

  /** In every run of heartbeats, failed writes, stops, starts and re-pins, the
    numbers taken under one policy key strictly increase, as long as at most seven
    other keys took a manifest since that key last did. */
  lemma NumbersRise(release: Offer -> bool, events: seq<Event>)
    requires Happens(release, NewHost(), events)
    ensures Rising(After(release, NewHost(), events).log)
  {
    NewHostPinOk(release);
    assert Ok(NewHost());
    RunKeeps(release, NewHost(), events);
  }

  // ---- for the running agent ----

  /** Pin and manifests both as every step keeps them. */
  ghost predicate Good(release: Offer -> bool, h: Host) {
    PinOk(release, h) && Ok(h)
  }

  lemma StartGood(release: Offer -> bool, h: Host)
    requires h.agent.None?
    ensures Good(release, h) ==> Good(release, h.(agent := Some(Started(h.disk))))
  {
    hide Ok, PinOk, Started;
    if Good(release, h) {
      StepKeeps(release, h, Start);
    }
  }

  lemma BeatGood(release: Offer -> bool, h: Host, offer: Option<Offer>, m: Option<Manifest>, io: Outcomes)
    requires Good(release, h) && h.agent.Some?
    ensures var h' := Heartbeat(release, h, offer, m, io);
            && Good(release, h') && Rising(h'.log) && h.disk.epoch <= h'.disk.epoch
            && (h.agent.value.keys.Some? ==> Acceptable(h'.disk) == h.agent.value.keys)
  {
    hide Heartbeat, DiskOk, Rising, Behind, Acceptable;
    StepKeeps(release, h, Beat(offer, m, io));
    StepKeepsPin(release, h, Beat(offer, m, io));
  }

  lemma RepinGood(release: Offer -> bool, h: Host, floors: Outcome, epoch: Outcome, removal: Outcome)
    requires Good(release, h) && h.agent.None?
    ensures var h' := Repin(h, floors, epoch, removal); Good(release, h') && h.disk.epoch <= h'.disk.epoch
  {
    hide Repin, Ok, PinOk;
    StepKeeps(release, h, Revoke(floors, epoch, removal));
    StepKeepsPin(release, h, Revoke(floors, epoch, removal));
  }
}
