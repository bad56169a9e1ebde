/** The list of manifest floors: for each of the last few policy keys, the highest
  manifest sequence number taken under it, oldest key first. */
module Floors {
  const MAX_FLOORS := 8

  datatype Floor = Floor(key: nat, sequence: int)

  ghost predicate Distinct(list: seq<Floor>) {
    forall i, j :: 0 <= i < j < |list| ==> list[i].key != list[j].key
  }

  /** Where the key is, or the length of the list. */
  function Position(list: seq<Floor>, key: nat): (i: nat)
    ensures i <= |list| && (i < |list| ==> list[i].key == key)
    ensures forall j :: 0 <= j < i ==> list[j].key != key
  {
    if list == [] || list[0].key == key then 0 else 1 + Position(list[1..], key)
  }

  /** The sequence number is not above the key's floor. */
  predicate Floored(list: seq<Floor>, key: nat, sequence: int) {
    var i := Position(list, key);
    i < |list| && sequence <= list[i].sequence
  }

  /** The key moves to the newest place; the oldest goes when there is no room. */
  function Inserted(list: seq<Floor>, key: nat, sequence: int): (r: seq<Floor>)
    ensures |r| <= |list| + 1 && (|list| <= MAX_FLOORS ==> |r| <= MAX_FLOORS)
    ensures r != [] && r[|r| - 1] == Floor(key, sequence)
  {
    var i := Position(list, key);
    (if i < |list| then list[..i] + list[i + 1..]
     else if |list| >= MAX_FLOORS then list[1..]
     else list) + [Floor(key, sequence)]
  }

  lemma InsertedDistinct(list: seq<Floor>, key: nat, sequence: int)
    requires Distinct(list)
    ensures Distinct(Inserted(list, key, sequence))
  {
    var i := Position(list, key);
    if i < |list| {
      assert forall j :: i < j < |list| ==> list[j].key != list[i].key;
    }
  }

  lemma PositionLast(list: seq<Floor>, key: nat, sequence: int)
    requires forall j :: 0 <= j < |list| ==> list[j].key != key
    ensures Position(list + [Floor(key, sequence)], key) == |list|
  {
    var r := list + [Floor(key, sequence)];
    assert r[|list|].key == key;
  }

  /** Raising a key's floor twice in a row is raising it once, to the last number. */
  lemma InsertedTwice(list: seq<Floor>, key: nat, first: int, second: int)
    requires Distinct(list)
    ensures Inserted(Inserted(list, key, first), key, second) == Inserted(list, key, second)
  {
    var once := Inserted(list, key, first);
    InsertedDistinct(list, key, first);
    var rest := once[..|once| - 1];
    assert once == rest + [Floor(key, first)];
    PositionLast(rest, key, first);
    assert once[..|rest|] + once[|rest| + 1..] == rest;
  }

  lemma InsertedFloored(list: seq<Floor>, key: nat, sequence: int, s: int)
    requires Distinct(list)
    ensures Floored(Inserted(list, key, sequence), key, s) <==> s <= sequence
  {
    var once := Inserted(list, key, sequence);
    InsertedDistinct(list, key, sequence);
    var rest := once[..|once| - 1];
    assert once == rest + [Floor(key, sequence)];
    PositionLast(rest, key, sequence);
  }

  /** The place an insertion vacates: the key's own, or the oldest when full. */
  function Gap(list: seq<Floor>, key: nat): (g: nat)
    ensures g <= |list|
  {
    var i := Position(list, key);
    if i < |list| then i else if |list| >= MAX_FLOORS then 0 else |list|
  }

  function Closed(x: nat, gap: nat): nat {
    if x <= gap then x else x - 1
  }

  lemma InsertedLength(list: seq<Floor>, key: nat, sequence: int)
    ensures var r, gap := Inserted(list, key, sequence), Gap(list, key);
            |r| == (if gap < |list| then |list| else |list| + 1) && r[|r| - 1] == Floor(key, sequence)
  {
  }

  /** Where an entry goes: one place down after the gap. */
  lemma MovedTo(list: seq<Floor>, key: nat, sequence: int, x: nat)
    requires x < |list| && x != Gap(list, key)
    ensures Closed(x, Gap(list, key)) < |Inserted(list, key, sequence)| - 1
    ensures Inserted(list, key, sequence)[Closed(x, Gap(list, key))] == list[x]
  {
  }

  lemma CameFrom(list: seq<Floor>, key: nat, sequence: int, y: nat)
    requires y < |Inserted(list, key, sequence)| - 1
    ensures var x := if y < Gap(list, key) then y else y + 1;
            x < |list| && x != Gap(list, key) && Inserted(list, key, sequence)[y] == list[x]
  {
  }

  lemma GapKey(list: seq<Floor>, key: nat)
    requires Gap(list, key) < |list| && list[Gap(list, key)].key != key
    ensures Gap(list, key) == 0 && |list| >= MAX_FLOORS && forall x :: 0 <= x < |list| ==> list[x].key != key
  {
  }

  // ---- what the list remembers ----

  datatype Taken = Taken(key: nat, sequence: int)

  /** The list after every sequence number in the log was recorded in turn. */
  ghost function Recorded(log: seq<Taken>): (r: seq<Floor>)
    ensures |r| <= MAX_FLOORS && Distinct(r)
    ensures log != [] ==> r != [] && r[|r| - 1] == Floor(log[|log| - 1].key, log[|log| - 1].sequence)
  {
    if log == [] then []
    else
      var t := log[|log| - 1];
      InsertedDistinct(Recorded(log[..|log| - 1]), t.key, t.sequence);
      Inserted(Recorded(log[..|log| - 1]), t.key, t.sequence)
  }

  lemma RecordedNext(log: seq<Taken>, t: Taken)
    ensures Recorded(log + [t]) == Inserted(Recorded(log), t.key, t.sequence)
  {
    assert (log + [t])[..|log|] == log;
  }

  /** The other keys in a log. */
  ghost function Others(log: seq<Taken>, key: nat): set<nat> {
    set i | 0 <= i < |log| && log[i].key != key :: log[i].key
  }

  /** The key's floor is in the list, and everything newer is one of the others. */
  ghost predicate Remembered(list: seq<Floor>, key: nat, sequence: int, others: set<nat>) {
    exists p :: 0 <= p < |list| && list[p] == Floor(key, sequence) && forall q :: p < q < |list| ==> list[q].key in others
  }

  lemma KeysBound(list: seq<Floor>, p: nat, others: set<nat>)
    requires Distinct(list) && p <= |list| && forall q :: p <= q < |list| ==> list[q].key in others
    ensures |list| - p <= |others|
    decreases |list| - p
  {
    if p < |list| {
      var k := list[p].key;
      forall q | p + 1 <= q < |list|
        ensures list[q].key in others - {k}
      {
        assert list[p].key != list[q].key;
      }
      KeysBound(list, p + 1, others - {k});
    }
  }

  /** Recording another key keeps a floor while at most seven others came since. */
  lemma StillRemembered(list: seq<Floor>, key: nat, sequence: int, others: set<nat>, t: Taken)
    requires |list| <= MAX_FLOORS && Distinct(list) && Remembered(list, key, sequence, others)
    requires t.key != key && |others + {t.key}| < MAX_FLOORS
    ensures Remembered(Inserted(list, t.key, t.sequence), key, sequence, others + {t.key})
  {
    hide Inserted, Gap, Position;
    var p :| 0 <= p < |list| && list[p] == Floor(key, sequence) && forall q :: p < q < |list| ==> list[q].key in others;
    var gap, r := Gap(list, t.key), Inserted(list, t.key, t.sequence);
    if p == gap {
      GapKey(list, t.key);
      FullOfOthers(list, t, others);
    }
    InsertedLength(list, t.key, t.sequence);
    MovedTo(list, t.key, t.sequence, p);
    var now := Closed(p, gap);
    forall q | now < q < |r|
      ensures r[q].key in others + {t.key}
    {
      if q < |r| - 1 {
        CameFrom(list, t.key, t.sequence, q);
      }
    }
  }

  /** A full list whose entries but the oldest are others, and one more key. */
  lemma FullOfOthers(list: seq<Floor>, t: Taken, others: set<nat>)
    requires |list| == MAX_FLOORS && Distinct(list) && forall q :: 0 < q < |list| ==> list[q].key in others
    requires forall x :: 0 <= x < |list| ==> list[x].key != t.key
    ensures |others + {t.key}| >= MAX_FLOORS
  {
    KeysBound(list[1..] + [Floor(t.key, t.sequence)], 0, others + {t.key});
  }

  /** A key's floor is its last number as long as at most seven other keys were
    recorded since. */
  lemma {:induction false} LastRemembered(log: seq<Taken>, i: nat)
    requires i < |log| && |Others(log[i + 1..], log[i].key)| < MAX_FLOORS
    requires forall j :: i < j < |log| ==> log[j].key != log[i].key
    ensures Remembered(Recorded(log), log[i].key, log[i].sequence, Others(log[i + 1..], log[i].key))
    decreases |log|
  {
    hide *;
    var n := |log| - 1;
    var before, t, key := log[..n], log[n], log[i].key;
    if i == n {
      NewestRemembered(log);
    } else {
      assert log == before + [t];
      assert log[i + 1..] == before[i + 1..] + [t];
      RecordedNext(before, t);
      OthersNext(before[i + 1..], t, key);
      Smaller(Others(before[i + 1..], key), Others(log[i + 1..], key));
      LastRemembered(before, i);
      StillRemembered(Recorded(before), key, log[i].sequence, Others(before[i + 1..], key), t);
    }
  }

  lemma NewestRemembered(log: seq<Taken>)
    requires log != []
    ensures var t := log[|log| - 1]; Remembered(Recorded(log), t.key, t.sequence, Others(log[|log|..], t.key))
  {
    hide Inserted, Recorded, Others, Distinct;
    LastHere(Recorded(log), log[|log| - 1].key, log[|log| - 1].sequence, Others(log[|log|..], log[|log| - 1].key));
  }

  lemma LastHere(list: seq<Floor>, key: nat, sequence: int, others: set<nat>)
    requires list != [] && list[|list| - 1] == Floor(key, sequence)
    ensures Remembered(list, key, sequence, others)
  {
  }

  lemma OthersNext(log: seq<Taken>, t: Taken, key: nat)
    requires t.key != key
    ensures Others(log + [t], key) == Others(log, key) + {t.key}
  {
    var next := log + [t];
    forall k | k in Others(log, key) + {t.key}
      ensures k in Others(next, key)
    {
      if k == t.key {
        assert next[|log|].key == k;
      } else {
        var j :| 0 <= j < |log| && log[j].key != key && log[j].key == k;
        assert next[j].key == k;
      }
    }
  }

  lemma Smaller(a: set<nat>, b: set<nat>)
    requires a <= b
    ensures |a| <= |b|
  {
    if a != {} {
      var x :| x in a;
      Smaller(a - {x}, b - {x});
    }
  }

  lemma RememberedFloored(list: seq<Floor>, key: nat, sequence: int, others: set<nat>, s: int)
    requires Distinct(list) && Remembered(list, key, sequence, others)
    ensures Floored(list, key, s) <==> s <= sequence
  {
    var p :| 0 <= p < |list| && list[p] == Floor(key, sequence) && forall q :: p < q < |list| ==> list[q].key in others;
    assert Position(list, key) == p;
  }

  /** If the key is in the list at all, all the others are after it. */
  ghost predicate OthersLater(list: seq<Floor>, key: nat, others: set<nat>) {
    forall p :: 0 <= p < |list| && list[p].key == key ==> others <= KeysOf(list[p + 1..])
  }

  ghost function KeysOf(list: seq<Floor>): (r: set<nat>)
    ensures |r| <= |list|
    ensures forall q :: 0 <= q < |list| ==> list[q].key in r
  {
    if list == [] then {} else {list[0].key} + KeysOf(list[1..])
  }

  lemma {:induction false} KeysOfIn(list: seq<Floor>, k: nat)
    requires k in KeysOf(list)
    ensures exists q :: 0 <= q < |list| && list[q].key == k
  {
    if k != list[0].key {
      KeysOfIn(list[1..], k);
      var q :| 0 <= q < |list[1..]| && list[1..][q].key == k;
      assert list[q + 1].key == k;
    }
  }

  lemma StillLater(list: seq<Floor>, key: nat, others: set<nat>, t: Taken)
    requires OthersLater(list, key, others) && t.key != key && Distinct(list)
    ensures OthersLater(Inserted(list, t.key, t.sequence), key, others + {t.key})
  {
    hide Inserted, Gap, Position, KeysOf;
    var gap, r := Gap(list, t.key), Inserted(list, t.key, t.sequence);
    InsertedLength(list, t.key, t.sequence);
    forall p, k | 0 <= p < |r| && r[p].key == key && k in others + {t.key}
      ensures k in KeysOf(r[p + 1..])
    {
      if k == t.key {
        assert r[p + 1..][|r| - 1 - (p + 1)].key == k;
      } else {
        var was := if p < gap then p else p + 1;
        CameFrom(list, t.key, t.sequence, p);
        KeysOfIn(list[was + 1..], k);
        var q :| 0 <= q < |list[was + 1..]| && list[was + 1..][q].key == k;
        OtherStays(list, t, was, was + 1 + q, p);
      }
    }
  }

  /** An entry after the key's stays after it. */
  lemma OtherStays(list: seq<Floor>, t: Taken, was: nat, q: nat, p: nat)
    requires was < q < |list| && was != Gap(list, t.key) && list[q].key != t.key
    requires p == Closed(was, Gap(list, t.key)) && p < |Inserted(list, t.key, t.sequence)|
    ensures list[q].key in KeysOf(Inserted(list, t.key, t.sequence)[p + 1..])
  {
    hide Inserted, Gap, Position, KeysOf;
    var gap, r := Gap(list, t.key), Inserted(list, t.key, t.sequence);
    if q == gap {
      GapKey(list, t.key);
    }
    MovedTo(list, t.key, t.sequence, q);
    var now := Closed(q, gap);
    assert r[p + 1..][now - (p + 1)] == r[now];
  }

  lemma {:induction false} LastLater(log: seq<Taken>, i: nat)
    requires i < |log| && forall j :: i < j < |log| ==> log[j].key != log[i].key
    ensures OthersLater(Recorded(log), log[i].key, Others(log[i + 1..], log[i].key))
    decreases |log|
  {
    hide Inserted, Recorded, KeysOf, Position;
    var n := |log| - 1;
    var before, t, key := log[..n], log[n], log[i].key;
    if i == n {
      assert Others(log[i + 1..], key) == {};
    } else {
      assert log == before + [t];
      assert log[i + 1..] == before[i + 1..] + [t];
      RecordedNext(before, t);
      OthersNext(before[i + 1..], t, key);
      LastLater(before, i);
      StillLater(Recorded(before), key, Others(before[i + 1..], key), t);
    }
  }

  /** A key's floor is still known exactly when at most seven other keys were
    recorded since. */
  lemma RememberedExactly(log: seq<Taken>, i: nat)
    requires i < |log| && forall j :: i < j < |log| ==> log[j].key != log[i].key
    ensures Position(Recorded(log), log[i].key) < |Recorded(log)| <==> |Others(log[i + 1..], log[i].key)| <= 7
  {
    hide Inserted, Recorded;
    var r, key, others := Recorded(log), log[i].key, Others(log[i + 1..], log[i].key);
    if |others| < MAX_FLOORS {
      LastRemembered(log, i);
      var p :| 0 <= p < |r| && r[p] == Floor(key, log[i].sequence);
      assert r[p].key == key;
    } else {
      LastLater(log, i);
      var p := Position(r, key);
      if p < |r| {
        Smaller(others, KeysOf(r[p + 1..]));
      }
    }
  }

  // ---- in place ----

  /** The list as the agent holds it. */
  class FloorList {
    const slots: array<Floor>
    var count: nat

    ghost predicate Valid()
      reads this, slots
    {
      slots.Length == MAX_FLOORS && count <= MAX_FLOORS
    }

    ghost function Contents(): seq<Floor>
      requires Valid()
      reads this, slots
    {
      slots[..count]
    }

    constructor ()
      ensures Valid() && fresh(slots) && Contents() == []
    {
      slots := new Floor[MAX_FLOORS](i => Floor(0, 0));
      count := 0;
    }

    constructor From(list: seq<Floor>)
      requires |list| <= MAX_FLOORS
      ensures Valid() && fresh(slots) && Contents() == list
    {
      slots := new Floor[MAX_FLOORS](i => if 0 <= i < |list| then list[i] else Floor(0, 0));
      count := |list|;
    }

    method Find(key: nat) returns (i: nat)
      requires Valid()
      ensures i == Position(Contents(), key)
    {
      i := 0;
      while i < count && slots[i].key != key
        invariant i <= count && forall j :: 0 <= j < i ==> slots[j].key != key
      {
        i := i + 1;
      }
    }

    method IsFloored(key: nat, sequence: int) returns (b: bool)
      requires Valid()
      ensures b <==> Floored(Contents(), key, sequence)
    {
      var i := Find(key);
      b := i < count && sequence <= slots[i].sequence;
    }

    /** Moves the slots after one of them down by one. */
    method CloseGap(from: nat)
      requires Valid() && from < count
      modifies slots
      ensures slots[..count - 1] == old(slots[..from] + slots[from + 1..count])
    {
      ghost var was := slots[..];
      var i := from;
      while i + 1 < count
        invariant from <= i < count
        invariant slots[..i] == was[..from] + was[from + 1..i + 1]
        invariant slots[i..] == was[i..]
      {
        assert slots[i + 1] == slots[i..][1];
        slots[i] := slots[i + 1];
        assert slots[i + 1..] == was[i..][1..];
        i := i + 1;
      }
    }

    method Insert(key: nat, sequence: int)
      requires Valid()
      modifies this, slots
      ensures Valid() && Contents() == Inserted(old(Contents()), key, sequence)
    {
      hide Inserted, Position, Gap;
      ghost var was := Contents();
      var i := Find(key);
      GapIs(was, key, sequence);
      if i == count && count == MAX_FLOORS {
        i := 0;
      } else if i == count {
        count := count + 1;
      }
      assert i == Gap(was, key);
      assert slots[..i] == was[..i] && slots[i + 1..count] == if i < |was| then was[i + 1..] else [];
      CloseGap(i);
      slots[count - 1] := Floor(key, sequence);
      assert Contents() == slots[..count - 1] + [Floor(key, sequence)];
    }
  }

  /** Inserting, by the place that is vacated. */
  lemma GapIs(list: seq<Floor>, key: nat, sequence: int)
    requires |list| <= MAX_FLOORS
    ensures var i, gap := Position(list, key), Gap(list, key);
            && gap == (if i < |list| then i else if |list| == MAX_FLOORS then 0 else |list|)
            && Inserted(list, key, sequence) == list[..gap] + (if gap < |list| then list[gap + 1..] else []) + [Floor(key, sequence)]
  {
  }
}
