/** Pinning and manifests: what a host trusts, kept in files written one at a
  time. A heartbeat may pin an offered bundle and take a newer manifest; a write
  may fail, or the agent may stop before or after it; a local re-pin drops the
  pin. The files hold trust.epoch, trust.pin, manifest.floor and manifest.state. */
module TrustPin {
  import opened Bits
  import opened Floors

  const MIN_EPOCH := 1
  const TENANT := "default"

  datatype Keys = Keys(response: nat, isolate: nat, policy: nat)
  datatype Offer = Offer(tenant: string, epoch: int, keys: Keys, signature: nat)

  /** trust.pin: absent, not readable as a bundle, or a bundle. */
  datatype Pin = NoPin | Unreadable | Pin(tenant: string, epoch: int, keys: Keys)

  /** A manifest, with the one policy key its signature verifies under. */
  datatype Manifest = Manifest(signer: nat, sequence: int, body: nat)

  datatype Disk = Disk(epoch: int, pin: Pin, floors: seq<Floor>, manifest: Option<Manifest>)

  /** A running agent. `epoch` is the one read from the pin, even of a pin that is
    not acceptable; `dirty` is a floor recovered but not yet on disk. */
  datatype Agent = Agent(floor: int, epoch: int, keys: Option<Keys>, floors: seq<Floor>, dirty: bool, manifest: Option<Manifest>)

  /** How a write ends. */
  datatype Outcome = Done | Failed | StoppedBefore | StoppedAfter {
    predicate Written() { Done? || StoppedAfter? }
    predicate Stopped() { StoppedBefore? || StoppedAfter? }
  }

  /** The host, with the manifests taken so far and the highest epoch a re-pin
    revoked (neither is read by the agent). */
  datatype Host = Host(disk: Disk, agent: Option<Agent>, log: seq<Taken>, revoked: int)

  // ---- starting ----

  function Max(a: int, b: int): int {
    if a > b then a else b
  }

  function FloorOf(d: Disk): int {
    Max(MIN_EPOCH, d.epoch)
  }

  function PinEpoch(p: Pin): int {
    if p.Pin? then p.epoch else 0
  }

  /** The keys a start puts in force: this tenant's, at an epoch not below the floor. */
  function Acceptable(d: Disk): Option<Keys> {
    if d.pin.Pin? && d.pin.tenant == TENANT && d.pin.epoch >= FloorOf(d) then Some(d.pin.keys) else None
  }

  predicate Verifies(keys: Option<Keys>, m: Manifest) {
    keys.Some? && m.sequence > 0 && m.signer == keys.value.policy
  }

  predicate ManifestFloored(a: Agent, sequence: int) {
    a.keys.Some? && Floored(a.floors, a.keys.value.policy, sequence)
  }

  /** Takes the stored manifest when it verifies, and raises the floor to it in memory. */
  function LoadManifest(d: Disk, a: Agent): Agent {
    if d.manifest.None? || !Verifies(a.keys, d.manifest.value) then a
    else
      var m := d.manifest.value;
      if a.manifest.Some? && m.sequence <= a.manifest.value.sequence then a
      else if ManifestFloored(a, m.sequence) then a.(manifest := Some(m))
      else a.(manifest := Some(m), floors := Inserted(a.floors, m.signer, m.sequence), dirty := true)
  }

  /** Of a longer file only as many lines are read as the list has room for. */
  function FirstFloors(list: seq<Floor>): (r: seq<Floor>)
    ensures |r| <= MAX_FLOORS
  {
    if |list| <= MAX_FLOORS then list else list[..MAX_FLOORS]
  }

  function Started(d: Disk): Agent {
    LoadManifest(d, Agent(FloorOf(d), PinEpoch(d.pin), Acceptable(d), FirstFloors(d.floors), false, None))
  }

  // ---- a heartbeat ----

  /** Pins an offer: the epoch floor is written first, then the pin. */
  function PinKeys(release: Offer -> bool, h: Host, o: Offer, epoch: Outcome, pin: Outcome): Host
    requires h.agent.Some?
  {
    var a := h.agent.value;
    if a.keys.Some? || o.tenant != TENANT || o.epoch < a.floor || !release(o) then h
    else
      var d1 := if epoch.Written() then h.disk.(epoch := o.epoch) else h.disk;
      if epoch.Stopped() then h.(disk := d1, agent := None)
      else if epoch.Failed? then h
      else
        var d2 := if pin.Written() then d1.(pin := Pin(o.tenant, o.epoch, o.keys)) else d1;
        var a1 := a.(floor := o.epoch);
        if pin.Stopped() then h.(disk := d2, agent := None)
        else if pin.Failed? then h.(disk := d2, agent := Some(a1))
        else h.(disk := d2, agent := Some(LoadManifest(d2, a1.(keys := Some(o.keys), epoch := o.epoch))))
  }

  /** Makes a recovered floor durable. */
  function WriteFloors(h: Host, floors: Outcome): Host
    requires h.agent.Some?
  {
    var a := h.agent.value;
    if !a.dirty then h
    else
      var d := if floors.Written() then h.disk.(floors := a.floors) else h.disk;
      h.(disk := d, agent := if floors.Stopped() then None else Some(a.(dirty := a.dirty && floors.Failed?)))
  }

  /** Takes a manifest newer than any: the manifest is written first, then its floor. */
  function AcceptManifest(h: Host, m: Manifest, manifest: Outcome, floors: Outcome): Host
    requires h.agent.Some?
  {
    var a := h.agent.value;
    if (a.manifest.Some? && m.sequence <= a.manifest.value.sequence) || ManifestFloored(a, m.sequence) || !Verifies(a.keys, m) then h
    else
      var h1 := if manifest.Written() then h.(disk := h.disk.(manifest := Some(m)), log := h.log + [Taken(m.signer, m.sequence)]) else h;
      if manifest.Stopped() then h1.(agent := None)
      else if manifest.Failed? then h
      else RaiseFloor(h1, a.(manifest := Some(m)), m, floors)
  }

  /** Records the number as taken under the pinned key: written first, then in force. */
  function RaiseFloor(h: Host, a: Agent, m: Manifest, floors: Outcome): Host {
    var next := Inserted(a.floors, m.signer, m.sequence);
    var d := if floors.Written() then h.disk.(floors := next) else h.disk;
    h.(disk := d,
       agent := if floors.Stopped() then None else if floors.Failed? then Some(a) else Some(a.(floors := next, dirty := false)))
  }

  datatype Outcomes = Outcomes(epoch: Outcome, pin: Outcome, dirty: Outcome, manifest: Outcome, floors: Outcome)

  function Heartbeat(release: Offer -> bool, h: Host, offer: Option<Offer>, m: Option<Manifest>, io: Outcomes): Host
    requires h.agent.Some?
  {
    var h1 := if offer.Some? then PinKeys(release, h, offer.value, io.epoch, io.pin) else h;
    if h1.agent.None? then h1
    else
      var h2 := WriteFloors(h1, io.dirty);
      if h2.agent.None? || m.None? || h2.agent.value.dirty then h2
      else AcceptManifest(h2, m.value, io.manifest, io.floors)
  }

  // ---- a local re-pin ----

  /** A re-pin is a process of its own: it starts from the files, makes a
    recovered floor durable, raises the epoch past the pin it revokes, and only
    then removes the pin. */
  function Repin(h: Host, floors: Outcome, epoch: Outcome, removal: Outcome): Host {
    var a := Started(h.disk);
    var d := if a.dirty && floors.Written() then h.disk.(floors := a.floors) else h.disk;
    if a.dirty && !floors.Done? then h.(disk := d) else DropPin(h.(disk := d), a, epoch, removal)
  }

  function DropPin(h: Host, a: Agent, epoch: Outcome, removal: Outcome): Host {
    if h.disk.pin.NoPin? then h
    else
      var d := if epoch.Written() then h.disk.(epoch := Max(a.epoch + 1, a.floor)) else h.disk;
      var h1 := h.(disk := d, revoked := if epoch.Written() then Max(h.revoked, a.epoch) else h.revoked);
      if !epoch.Done? then h1
      else if removal.Written() then h1.(disk := d.(pin := NoPin))
      else h1
  }

  // ---- events ----

  datatype Event =
    | Start
    | Stop
    | Beat(offer: Option<Offer>, manifest: Option<Manifest>, io: Outcomes)
    | Revoke(floors: Outcome, epoch: Outcome, removal: Outcome)
    | Lose

  /** Whether the number of the stored manifest, if there is one, is in the floor file. */
  predicate StoredIsFloored(d: Disk) {
    d.manifest.Some? ==> Floored(d.floors, d.manifest.value.signer, d.manifest.value.sequence)
  }

  /** A re-pin runs while the agent does not. The manifest file may be lost once its
    number is in the floor file. */
  predicate Enabled(h: Host, e: Event) {
    match e
    case Start => h.agent.None?
    case Stop => true
    case Beat(_, _, _) => h.agent.Some?
    case Revoke(_, _, _) => h.agent.None?
    case Lose => StoredIsFloored(h.disk)
  }

  function Apply(release: Offer -> bool, h: Host, e: Event): Host
    requires Enabled(h, e)
  {
    match e
    case Start => h.(agent := Some(Started(h.disk)))
    case Stop => h.(agent := None)
    case Beat(offer, m, io) => Heartbeat(release, h, offer, m, io)
    case Revoke(floors, epoch, removal) => Repin(h, floors, epoch, removal)
    case Lose => h.(disk := h.disk.(manifest := None))
  }

  function NewHost(): Host {
    Host(Disk(0, NoPin, [], None), None, [], 0)
  }

  // ---- what pinning keeps ----

  /** The running agent knows what is on disk; a pin is one the release key
    signed, and never ahead of the epoch on disk; everything revoked is below the
    floor. */
  ghost predicate PinOk(release: Offer -> bool, h: Host) {
    && (h.agent.Some? ==>
          h.agent.value.floor == FloorOf(h.disk) && h.agent.value.keys == Acceptable(h.disk) && h.agent.value.epoch == PinEpoch(h.disk.pin))
    && (h.disk.pin.Pin? ==>
          exists o: Offer :: release(o) && o.tenant == TENANT && h.disk.pin == Pin(o.tenant, o.epoch, o.keys))
    && PinEpoch(h.disk.pin) <= h.disk.epoch
    && h.revoked < FloorOf(h.disk)
  }

  lemma PinKeysKeeps(release: Offer -> bool, h: Host, o: Offer, epoch: Outcome, pin: Outcome)
    requires PinOk(release, h) && h.agent.Some?
    ensures var h' := PinKeys(release, h, o, epoch, pin);
            && PinOk(release, h') && h.disk.epoch <= h'.disk.epoch && h.revoked == h'.revoked
            && (Acceptable(h.disk).Some? ==> h' == h)
  {
  }

  /** Nothing of the pin moved. */
  predicate SamePin(h: Host, h': Host) {
    && h'.disk.epoch == h.disk.epoch && h'.disk.pin == h.disk.pin && h'.revoked == h.revoked
    && (h'.agent.Some? ==> h.agent.Some? && var a, b := h.agent.value, h'.agent.value;
                           a.floor == b.floor && a.keys == b.keys && a.epoch == b.epoch)
  }

  lemma FloorsKeepPin(h: Host, floors: Outcome)
    requires h.agent.Some?
    ensures SamePin(h, WriteFloors(h, floors))
  {
  }

  lemma AcceptKeepsPin(h: Host, m: Manifest, manifest: Outcome, floors: Outcome)
    requires h.agent.Some?
    ensures SamePin(h, AcceptManifest(h, m, manifest, floors))
  {
    hide Floored, Inserted;
  }

  lemma SamePinKeeps(release: Offer -> bool, h: Host, h': Host)
    requires PinOk(release, h) && SamePin(h, h')
    ensures PinOk(release, h') && Acceptable(h'.disk) == Acceptable(h.disk)
  {
  }

  lemma BeatKeepsPin(release: Offer -> bool, h: Host, offer: Option<Offer>, m: Option<Manifest>, io: Outcomes)
    requires PinOk(release, h) && h.agent.Some?
    ensures var h' := Heartbeat(release, h, offer, m, io);
            && PinOk(release, h') && h.disk.epoch <= h'.disk.epoch && h.revoked == h'.revoked
            && (Acceptable(h.disk).Some? ==> Acceptable(h'.disk) == Acceptable(h.disk))
  {
    hide PinKeys, PinOk, Acceptable, AcceptManifest, WriteFloors;
    var h1 := if offer.Some? then PinKeys(release, h, offer.value, io.epoch, io.pin) else h;
    if offer.Some? {
      PinKeysKeeps(release, h, offer.value, io.epoch, io.pin);
    }
    if h1.agent.Some? {
      var h2 := WriteFloors(h1, io.dirty);
      FloorsKeepPin(h1, io.dirty);
      SamePinKeeps(release, h1, h2);
      if h2.agent.Some? && m.Some? {
        AcceptKeepsPin(h2, m.value, io.manifest, io.floors);
        SamePinKeeps(release, h2, AcceptManifest(h2, m.value, io.manifest, io.floors));
      }
    }
  }

  lemma StartedIs(d: Disk)
    ensures var a := Started(d); a.floor == FloorOf(d) && a.epoch == PinEpoch(d.pin) && a.keys == Acceptable(d)
  {
    hide Floored, Inserted;
  }

  lemma RepinKeepsPin(release: Offer -> bool, h: Host, floors: Outcome, epoch: Outcome, removal: Outcome)
    requires PinOk(release, h) && h.agent.None?
    ensures var h' := Repin(h, floors, epoch, removal);
            PinOk(release, h') && h'.agent.None? && h.disk.epoch <= h'.disk.epoch && h.revoked <= h'.revoked
  {
    hide Started;
    StartedIs(h.disk);
  }

  /** Every step keeps it; the epoch on disk never falls; and while a bundle is in
    force, nothing but a re-pin changes the keys. */
  lemma StepKeepsPin(release: Offer -> bool, h: Host, e: Event)
    requires PinOk(release, h) && Enabled(h, e)
    ensures var h' := Apply(release, h, e);
            && PinOk(release, h') && h.disk.epoch <= h'.disk.epoch && h.revoked <= h'.revoked
            && (!e.Revoke? && Acceptable(h.disk).Some? ==> Acceptable(h'.disk) == Acceptable(h.disk))
  {
    hide Heartbeat, Repin, Started;
    match e
    case Start => StartedIs(h.disk);
    case Stop =>
    case Beat(offer, m, io) => BeatKeepsPin(release, h, offer, m, io);
    case Revoke(floors, epoch, removal) => RepinKeepsPin(release, h, floors, epoch, removal);
    case Lose =>
  }

  /** A re-pin that wrote its epoch revokes the pin: the keys are not in force any
    more, and never will be at that epoch or below. */
  lemma RepinRevokes(release: Offer -> bool, h: Host, floors: Outcome, epoch: Outcome, removal: Outcome)
    requires PinOk(release, h) && h.agent.None? && h.disk.pin.Pin?
    requires (!Started(h.disk).dirty || floors.Done?) && epoch.Written()
    ensures var h' := Repin(h, floors, epoch, removal);
            Acceptable(h'.disk).None? && h'.revoked >= h.disk.pin.epoch && h'.disk.epoch > h.disk.pin.epoch
  {
  }

  // ---- what is taken ----

  /** The offer is pinned: on disk, in force, and the epoch with it. */
  ghost predicate Pinned(h: Host, o: Offer) {
    && h.disk.pin == Pin(o.tenant, o.epoch, o.keys) && h.disk.epoch == o.epoch && Acceptable(h.disk) == Some(o.keys)
    && (h.agent.Some? ==> h.agent.value.keys == Some(o.keys) && h.agent.value.epoch == h.agent.value.floor == o.epoch)
  }

  /** A host without keys pins an offer whose writes go through if and only if it is
    for this tenant, at an epoch of at least 1 and not below the one on disk, and the
    release key signed it; any other offer leaves the pin as it was. */
  lemma PinsExactly(release: Offer -> bool, h: Host, o: Offer, m: Option<Manifest>, io: Outcomes)
    requires PinOk(release, h) && h.agent.Some? && h.agent.value.keys.None? && io.epoch.Done? && io.pin.Done?
    ensures var h', good := Heartbeat(release, h, Some(o), m, io), o.tenant == "default" && o.epoch >= 1 && o.epoch >= h.disk.epoch && release(o);
            && (Pinned(h', o) <==> good)
            && (!good ==> h'.disk.pin == h.disk.pin && h'.disk.epoch == h.disk.epoch && Acceptable(h'.disk).None?)
  {
    hide AcceptManifest, WriteFloors, LoadManifest;
    var h1 := PinKeys(release, h, o, io.epoch, io.pin);
    LoadsNoKeys(h1.disk, h.agent.value.(floor := o.epoch, keys := Some(o.keys), epoch := o.epoch));
    if h1.agent.Some? {
      var h2 := WriteFloors(h1, io.dirty);
      FloorsKeepPin(h1, io.dirty);
      if h2.agent.Some? && m.Some? {
        AcceptKeepsPin(h2, m.value, io.manifest, io.floors);
      }
    }
  }

  lemma LoadsNoKeys(d: Disk, a: Agent)
    ensures var b := LoadManifest(d, a); b.keys == a.keys && b.epoch == a.epoch && b.floor == a.floor
  {
    hide Floored, Inserted;
  }

  /** A new host pins the first bundle it is offered at epoch 1. */
  lemma FirstPin(release: Offer -> bool, o: Offer, m: Option<Manifest>, io: Outcomes)
    requires o.tenant == "default" && o.epoch == 1 && release(o) && io.epoch.Done? && io.pin.Done?
    ensures Pinned(Heartbeat(release, Apply(release, NewHost(), Start), Some(o), m, io), o)
  {
    hide Heartbeat, PinOk, Started;
    NewHostPinOk(release);
    StepKeepsPin(release, NewHost(), Start);
    StartedIs(NewHost().disk);
    PinsExactly(release, Apply(release, NewHost(), Start), o, m, io);
  }

  /** A re-pin whose writes go through removes the pin, and leaves as the least epoch
    the next above it, or the floor. The host then pins again at that epoch. */
  lemma RepinReleases(release: Offer -> bool, h: Host, floors: Outcome, o: Offer, m: Option<Manifest>, io: Outcomes)
    requires PinOk(release, h) && h.agent.None? && h.disk.pin.Pin? && (Started(h.disk).dirty ==> floors.Done?)
    requires o.tenant == "default" && o.epoch == Max(h.disk.pin.epoch + 1, Max(1, h.disk.epoch)) && release(o) && io.epoch.Done? && io.pin.Done?
    ensures var h' := Repin(h, floors, Done, Done);
            && h'.disk.pin == NoPin && h'.disk.epoch == o.epoch
            && Pinned(Heartbeat(release, h'.(agent := Some(Started(h'.disk))), Some(o), m, io), o)
  {
    hide Heartbeat, PinOk, Started, Pinned;
    StartedIs(h.disk);
    var h' := Repin(h, floors, Done, Done);
    StepKeepsPin(release, h, Revoke(floors, Done, Done));
    StepKeepsPin(release, h', Start);
    StartedIs(h'.disk);
    PinsExactly(release, h'.(agent := Some(Started(h'.disk))), o, m, io);
  }

  /** Takes the manifest: stored, logged and the one in force. */
  ghost predicate Takes(h: Host, h': Host, m: Manifest) {
    && h'.disk.manifest == Some(m) && h'.log == h.log + [Taken(m.signer, m.sequence)]
    && (h'.agent.Some? ==> h'.agent.value.manifest == Some(m))
  }

  /** Not above the number on record for its key. */
  ghost predicate OnRecord(list: seq<Floor>, m: Manifest) {
    exists f :: f in list && f.key == m.signer && m.sequence <= f.sequence
  }

  lemma OnRecordIs(list: seq<Floor>, m: Manifest)
    requires Distinct(list)
    ensures Floored(list, m.signer, m.sequence) <==> OnRecord(list, m)
  {
    var i := Position(list, m.signer);
    if i < |list| {
      assert list[i] in list;
    }
  }

  /** A running agent whose writes go through takes a manifest if and only if it is
    signed under the policy key in force, positive, above the manifest in force and
    above the number on record for that key; any other leaves log and manifest alone. */
  lemma TakesExactly(release: Offer -> bool, h: Host, m: Manifest, io: Outcomes)
    requires h.agent.Some? && Distinct(h.agent.value.floors) && io.dirty.Done? && io.manifest.Done?
    ensures var h', a := Heartbeat(release, h, None, Some(m), io), h.agent.value;
            var good := && a.keys.Some? && m.signer == a.keys.value.policy && m.sequence > 0
                        && (a.manifest.Some? ==> m.sequence > a.manifest.value.sequence) && !OnRecord(a.floors, m);
            && (Takes(h, h', m) <==> good)
            && (!good ==> h'.log == h.log && h'.disk.manifest == h.disk.manifest && h'.agent.Some? && h'.agent.value.manifest == a.manifest)
  {
    hide Inserted, Distinct, Floored, OnRecord;
    OnRecordIs(h.agent.value.floors, m);
  }

  /** A start has in force the stored manifest if it verifies, and else none. */
  lemma StartTakes(d: Disk)
    ensures Started(d).manifest
         == if d.manifest.Some? && Acceptable(d).Some? && d.manifest.value.signer == Acceptable(d).value.policy && d.manifest.value.sequence > 0
            then d.manifest else None
  {
    hide Floored, Inserted;
  }

  // ---- whole runs ----

  ghost predicate Happens(release: Offer -> bool, h: Host, events: seq<Event>)
    decreases |events|
  {
    events != [] ==> Enabled(h, events[0]) && Happens(release, Apply(release, h, events[0]), events[1..])
  }

  ghost function After(release: Offer -> bool, h: Host, events: seq<Event>): Host
    requires Happens(release, h, events)
    decreases |events|
  {
    if events == [] then h else After(release, Apply(release, h, events[0]), events[1..])
  }

  /** Over any run: the epoch never falls, a bundle in force is one the release key
    signed for this tenant at exactly the epoch on disk, which is above every epoch
    revoked so far. */
  lemma {:induction false} PinSafety(release: Offer -> bool, h: Host, events: seq<Event>)
    requires PinOk(release, h) && Happens(release, h, events)
    ensures var h' := After(release, h, events);
            && PinOk(release, h') && h.disk.epoch <= h'.disk.epoch && h.revoked <= h'.revoked
            && (Acceptable(h'.disk).Some? ==> h'.disk.pin.epoch == h'.disk.epoch > h.revoked)
    decreases |events|
  {
    hide Enabled, Apply;
    if events != [] {
      StepKeepsPin(release, h, events[0]);
      PinSafety(release, Apply(release, h, events[0]), events[1..]);
    }
  }

  lemma NewHostPinOk(release: Offer -> bool)
    ensures PinOk(release, NewHost())
  {
  }

  // ---- retries ----

  /** One re-pin either leaves the epoch or raises it to the one value it can have,
    and once it has, no other does. */
  lemma RepinOnce(h: Host, floors: Outcome, epoch: Outcome, removal: Outcome, e: int, pinned: int)
    requires h.disk.pin.NoPin? || (PinEpoch(h.disk.pin) == pinned && (h.disk.epoch == e || h.disk.epoch == Max(pinned + 1, Max(MIN_EPOCH, e))))
    ensures var h' := Repin(h, floors, epoch, removal);
            && (h'.disk.epoch == h.disk.epoch || h'.disk.epoch == Max(pinned + 1, Max(MIN_EPOCH, e)))
            && (h.disk.pin.NoPin? ==> h'.disk.epoch == h.disk.epoch)
            && (h'.disk.pin.NoPin? || h'.disk.pin == h.disk.pin)
  {
    hide Floored, Inserted;
  }

  ghost predicate NoBeats(events: seq<Event>) {
    forall i :: 0 <= i < |events| ==> !events[i].Beat?
  }

  /** However often a re-pin is interrupted and retried, with stops and starts in
    between, the epoch is the old one or one above the pin it revokes and never
    below the floor: it rises once. */
  lemma RetryDoesNotClimb(release: Offer -> bool, h: Host, events: seq<Event>)
    requires Happens(release, h, events) && NoBeats(events)
    ensures var e := After(release, h, events).disk.epoch;
            e == h.disk.epoch || (!h.disk.pin.NoPin? && e == Max(PinEpoch(h.disk.pin) + 1, FloorOf(h.disk)))
  {
    RetriesFrom(release, h, events, h.disk.epoch, PinEpoch(h.disk.pin));
  }

  lemma {:induction false} RetriesFrom(release: Offer -> bool, h: Host, events: seq<Event>, e: int, pinned: int)
    requires Happens(release, h, events) && NoBeats(events)
    requires h.disk.pin.NoPin? || (PinEpoch(h.disk.pin) == pinned && (h.disk.epoch == e || h.disk.epoch == Max(pinned + 1, Max(MIN_EPOCH, e))))
    ensures var d := After(release, h, events).disk;
            && (d.epoch == h.disk.epoch || d.epoch == Max(pinned + 1, Max(MIN_EPOCH, e)))
            && (h.disk.pin.NoPin? ==> d.epoch == h.disk.epoch)
    decreases |events|
  {
    hide Repin, Started, Heartbeat;
    if events != [] {
      var first := events[0];
      if first.Revoke? {
        RepinOnce(h, first.floors, first.epoch, first.removal, e, pinned);
      }
      RetriesFrom(release, Apply(release, h, first), events[1..], e, pinned);
    }
  }
}
