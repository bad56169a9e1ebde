/** The running agent's trust context: fields and files updated step by step, as
  the steps of `TrustPin` say, and what every public step keeps of them. */
module TrustAgent {
  import opened Bits
  import opened Floors
  import opened TrustPin
  import TrustManifest

  class Context {
    const release: Offer -> bool
    var disk: Disk
    var running: bool
    var floor: int
    var epoch: int
    var keys: Option<Keys>
    var floors: FloorList
    var dirty: bool
    var manifest: Option<Manifest>
    ghost var log: seq<Taken>
    ghost var revoked: int

    ghost predicate Valid()
      reads this, floors, floors.slots
    {
      floors.Valid()
    }

    ghost function State(): Agent
      requires Valid()
      reads this, floors, floors.slots
    {
      Agent(floor, epoch, keys, floors.Contents(), dirty, manifest)
    }

    /** The host this context stands for. */
    ghost function View(): Host
      requires Valid()
      reads this, floors, floors.slots
    {
      Host(disk, if running then Some(State()) else None, log, revoked)
    }

    /** What every step keeps: the pin in force is one the release key signed at the
      epoch on disk and above all revoked, the floors hold every manifest taken or
      can recover it, and the numbers taken under each key rise. */
    ghost predicate Trusted()
      requires Valid()
      reads this, floors, floors.slots
    {
      TrustManifest.Good(release, View())
    }

    /** Starts from the files; whatever they hold that was left by such a context
      makes one again. */
    constructor (release: Offer -> bool, disk: Disk, ghost log: seq<Taken>, ghost revoked: int)
      ensures Valid() && fresh(floors) && fresh(floors.slots) && this.release == release
      ensures View() == Host(disk, Some(Started(disk)), log, revoked)
      ensures TrustManifest.Good(release, Host(disk, None, log, revoked)) ==> Trusted()
    {
      this.release, this.disk, running, this.log, this.revoked := release, disk, true, log, revoked;
      floor := FloorOf(disk);
      epoch := PinEpoch(disk.pin);
      keys := Acceptable(disk);
      floors := new FloorList.From(FirstFloors(disk.floors));
      dirty, manifest := false, None;
      new;
      LoadManifest();
      hide TrustManifest.Good, TrustPin.LoadManifest, Acceptable, FloorOf, PinEpoch, FirstFloors;
      TrustManifest.StartGood(release, Host(disk, None, log, revoked));
    }

    method ManifestIsFloored(sequence: int) returns (b: bool)
      requires Valid()
      ensures b <==> ManifestFloored(State(), sequence)
    {
      if keys.None? {
        return false;
      }
      b := floors.IsFloored(keys.value.policy, sequence);
    }

    method LoadManifest()
      requires Valid() && running
      modifies this`manifest, this`dirty, floors, floors.slots
      ensures Valid() && running
      ensures State() == TrustPin.LoadManifest(disk, old(State()))
    {
      hide Inserted, Floored;
      if disk.manifest.None? {
        return;
      }
      var m := disk.manifest.value;
      if !Verifies(keys, m) {
        return;
      }
      if manifest.Some? && m.sequence <= manifest.value.sequence {
        return;
      }
      var floored := ManifestIsFloored(m.sequence);
      manifest := Some(m);
      if !floored {
        floors.Insert(keys.value.policy, m.sequence);
        dirty := true;
      }
    }

    /** Pins an offer: nothing, the epoch, or the epoch and then the pin. */
    method PinKeys(o: Offer, epochWrite: Outcome, pinWrite: Outcome)
      requires Valid() && running
      modifies this, floors, floors.slots
      ensures Valid() && floors == old(floors)
      ensures View() == TrustPin.PinKeys(release, old(View()), o, epochWrite, pinWrite)
    {
      hide Inserted, Floored, TrustPin.LoadManifest, Verifies, ManifestFloored;
      if keys.Some? || o.tenant != TENANT || o.epoch < floor || !release(o) {
        return;
      }
      if epochWrite.Written() {
        disk := disk.(epoch := o.epoch);
      }
      if !epochWrite.Done? {
        running := !epochWrite.Stopped();
        return;
      }
      floor := o.epoch;
      if pinWrite.Written() {
        disk := disk.(pin := Pin(o.tenant, o.epoch, o.keys));
      }
      if !pinWrite.Done? {
        running := !pinWrite.Stopped();
        return;
      }
      keys, epoch := Some(o.keys), o.epoch;
      LoadManifest();
    }

    method WriteFloors(write: Outcome)
      requires Valid() && running
      modifies this
      ensures Valid() && floors == old(floors)
      ensures View() == TrustPin.WriteFloors(old(View()), write)
    {
      if !dirty {
        return;
      }
      if write.Written() {
        disk := disk.(floors := floors.slots[..floors.count]);
      }
      running := !write.Stopped();
      if write.Done? {
        dirty := false;
      }
    }

    /** The next list is built beside the one in force, written, and only then put
      in its place. */
    method RaiseFloor(m: Manifest, write: Outcome)
      requires Valid() && running && keys.Some? && m.signer == keys.value.policy
      modifies this
      ensures Valid() && (floors == old(floors) || fresh(floors)) && (fresh(floors) ==> fresh(floors.slots))
      ensures View() == TrustPin.RaiseFloor(old(View()), old(State()), m, write)
    {
      hide Inserted, Floored;
      var next := new FloorList.From(floors.slots[..floors.count]);
      next.Insert(keys.value.policy, m.sequence);
      if write.Written() {
        disk := disk.(floors := next.slots[..next.count]);
      }
      running := !write.Stopped();
      if write.Done? {
        floors, dirty := next, false;
      }
    }

    method AcceptManifest(m: Manifest, manifestWrite: Outcome, floorWrite: Outcome)
      requires Valid() && running
      modifies this
      ensures Valid()
      ensures View() == TrustPin.AcceptManifest(old(View()), m, manifestWrite, floorWrite)
    {
      hide Inserted, Floored;
      if manifest.Some? && m.sequence <= manifest.value.sequence {
        return;
      }
      var floored := ManifestIsFloored(m.sequence);
      if floored || !Verifies(keys, m) {
        return;
      }
      if manifestWrite.Written() {
        disk, log := disk.(manifest := Some(m)), log + [Taken(m.signer, m.sequence)];
      }
      if !manifestWrite.Done? {
        running := !manifestWrite.Stopped();
        return;
      }
      manifest := Some(m);
      RaiseFloor(m, floorWrite);
    }

    method Beat(offer: Option<Offer>, m: Option<Manifest>, io: Outcomes)
      requires Valid() && running
      modifies this, floors, floors.slots
      ensures Valid()
      ensures View() == Heartbeat(release, old(View()), offer, m, io)
    {
      hide TrustPin.PinKeys, TrustPin.WriteFloors, TrustPin.AcceptManifest;
      if offer.Some? {
        PinKeys(offer.value, io.epoch, io.pin);
      }
      if !running {
        return;
      }
      WriteFloors(io.dirty);
      if running && m.Some? && !dirty {
        AcceptManifest(m.value, io.manifest, io.floors);
      }
    }

    /** A heartbeat, whatever it offers and however its writes end: the context stays
      trusted, the epoch does not fall, keys in force stay in force, and every
      manifest taken under a key is above the last one. */
    method ProcessHeartbeat(offer: Option<Offer>, m: Option<Manifest>, io: Outcomes)
      requires Valid() && running && Trusted()
      modifies this, floors, floors.slots
      ensures Valid() && Trusted() && TrustManifest.Rising(log)
      ensures old(disk).epoch <= disk.epoch && (old(keys).Some? ==> Acceptable(disk) == old(keys))
      ensures View() == Heartbeat(release, old(View()), offer, m, io)
    {
      hide *;
      ghost var was := View();
      SeesHost();
      TrustManifest.BeatGood(release, was, offer, m, io);
      Beat(offer, m, io);
      SeesHost();
    }

    /** What the view shows. */
    lemma SeesHost()
      requires Valid()
      ensures View().disk == disk && View().log == log && View().revoked == revoked
      ensures View().agent == (if running then Some(State()) else None) && State().keys == keys
      ensures Trusted() <==> TrustManifest.Good(release, View())
    {
      hide TrustManifest.Good;
    }

    /** Raises the epoch past the pin, then removes the pin. */
    method DropPin(epochWrite: Outcome, removal: Outcome)
      requires Valid()
      modifies this`disk, this`revoked
      ensures Host(disk, None, log, revoked)
           == TrustPin.DropPin(Host(old(disk), None, log, old(revoked)), State(), epochWrite, removal)
    {
      hide TrustPin.DropPin;
      DropPinIs(disk, log, revoked, State(), epochWrite, removal);
      if disk.pin.NoPin? {
        return;
      }
      if epochWrite == Done || epochWrite == StoppedAfter {
        disk, revoked := disk.(epoch := if epoch + 1 > floor then epoch + 1 else floor), if revoked > epoch then revoked else epoch;
      }
      if epochWrite != Done {
        return;
      }
      if removal == Done || removal == StoppedAfter {
        disk := disk.(pin := NoPin);
      }
    }

    method RepinSteps(floorsWrite: Outcome, epochWrite: Outcome, removal: Outcome)
      requires Valid() && running && State() == Started(disk)
      modifies this
      ensures Valid() && !running
      ensures View() == TrustPin.Repin(old(View()).(agent := None), floorsWrite, epochWrite, removal)
    {
      hide Inserted, Floored, Started, TrustPin.LoadManifest, Acceptable, Verifies, TrustPin.DropPin;
      running := false;
      if dirty {
        if floorsWrite.Written() {
          disk := disk.(floors := floors.slots[..floors.count]);
        }
        if !floorsWrite.Done? {
          return;
        }
      }
      DropPin(epochWrite, removal);
    }

    /** A re-pin, in a process of its own that has just started: returns whether the
      pin it found is gone. What it leaves is trusted however its writes end, and the
      epoch does not fall. */
    method Repin(floorsWrite: Outcome, epochWrite: Outcome, removal: Outcome) returns (removed: bool)
      requires Valid() && running && State() == Started(disk) && TrustManifest.Good(release, View().(agent := None))
      modifies this
      ensures Valid() && !running && Trusted() && old(disk).epoch <= disk.epoch
      ensures View() == TrustPin.Repin(old(View()).(agent := None), floorsWrite, epochWrite, removal)
      ensures removed <==> old(disk).pin != NoPin && disk.pin == NoPin
    {
      hide *;
      var found := disk.pin;
      ghost var was := View().(agent := None);
      assert was.disk == disk by { SeesHost(); }
      TrustManifest.RepinGood(release, was, floorsWrite, epochWrite, removal);
      RepinSteps(floorsWrite, epochWrite, removal);
      SeesHost();
      return found != NoPin && disk.pin == NoPin;
    }
  }

  lemma DropPinIs(d: Disk, log: seq<Taken>, revoked: int, a: Agent, epoch: Outcome, removal: Outcome)
    ensures var next := if a.epoch + 1 > a.floor then a.epoch + 1 else a.floor;
            var written := epoch == Done || epoch == StoppedAfter;
            TrustPin.DropPin(Host(d, None, log, revoked), a, epoch, removal)
            == if d.pin.NoPin? then Host(d, None, log, revoked)
               else Host(Disk(if written then next else d.epoch,
                              if epoch == Done && (removal == Done || removal == StoppedAfter) then NoPin else d.pin,
                              d.floors, d.manifest),
                         None, log, if written then (if revoked > a.epoch then revoked else a.epoch) else revoked)
  {
  }
}
