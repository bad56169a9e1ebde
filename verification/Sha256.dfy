/** SHA-256 as the agent streams it, against sections 5.1.1 and 6.2.2 of FIPS 180-4. */
module Sha256 {
  import opened Bits
  import opened Endian
  import opened Sha256Constants
  import opened Sha256Words

  type Words = s: seq<bv32> | |s| == 8 witness [0, 0, 0, 0, 0, 0, 0, 0]
  type Block = s: seq<Byte> | |s| == 64 witness seq(64, i => 0)

  function Initial(): Words {
    [Start(0) as bv32, Start(1) as bv32, Start(2) as bv32, Start(3) as bv32,
     Start(4) as bv32, Start(5) as bv32, Start(6) as bv32, Start(7) as bv32]
  }

  // ---- section 6.2.2: one block ----

  function RoundConstant(t: nat): bv32
    requires t < 64
  {
    Constant(t) as bv32
  }

  function WordAt(b: Block, t: nat): bv32
    requires t < 16
  {
    ((b[4 * t] as bv32) << 24) | ((b[4 * t + 1] as bv32) << 16) | ((b[4 * t + 2] as bv32) << 8) | (b[4 * t + 3] as bv32)
  }

  function Sum4(a: bv32, b: bv32, c: bv32, d: bv32): bv32 { a + b + c + d }

  /** The message schedule. */
  function Schedule(b: Block, t: nat): bv32
    requires t < 64
  {
    if t < 16 then WordAt(b, t)
    else Sum4(Sigma1(Schedule(b, t - 2)), Schedule(b, t - 7), Sigma0(Schedule(b, t - 15)), Schedule(b, t - 16))
  }

  datatype Vars = Vars(a: bv32, b: bv32, c: bv32, d: bv32, e: bv32, f: bv32, g: bv32, h: bv32)

  function Temp1(v: Vars, k: bv32, w: bv32): bv32 {
    v.h + BigSigma1(v.e) + Choice(v.e, v.f, v.g) + k + w
  }

  function Temp2(v: Vars): bv32 {
    BigSigma0(v.a) + Majority(v.a, v.b, v.c)
  }

  function Plus(x: bv32, y: bv32): bv32 { x + y }

  function Round(v: Vars, k: bv32, w: bv32): Vars {
    var t1 := Temp1(v, k, w);
    Vars(Plus(t1, Temp2(v)), v.a, v.b, v.c, Plus(v.d, t1), v.e, v.f, v.g)
  }

  function Rounds(v: Vars, b: Block, t: nat): Vars
    requires t <= 64
  {
    if t == 0 then v else Round(Rounds(v, b, t - 1), RoundConstant(t - 1), Schedule(b, t - 1))
  }

  function VarsOf(s: Words): Vars {
    Vars(s[0], s[1], s[2], s[3], s[4], s[5], s[6], s[7])
  }

  function Added(s: Words, v: Vars): Words {
    [Plus(s[0], v.a), Plus(s[1], v.b), Plus(s[2], v.c), Plus(s[3], v.d), Plus(s[4], v.e), Plus(s[5], v.f), Plus(s[6], v.g), Plus(s[7], v.h)]
  }

  function Compress(s: Words, b: Block): Words {
    Added(s, Rounds(VarsOf(s), b, 64))
  }

  /** The agent adds the schedule's terms in another order. */
  lemma ScheduleSum(b: Block, t: nat)
    requires 16 <= t < 64
    ensures Schedule(b, t) == Sum4(Schedule(b, t - 16), Sigma0(Schedule(b, t - 15)), Schedule(b, t - 7), Sigma1(Schedule(b, t - 2)))
  {
    hide Sigma0, Sigma1, WordAt;
    SumOrder(Schedule(b, t - 16), Sigma0(Schedule(b, t - 15)), Schedule(b, t - 7), Sigma1(Schedule(b, t - 2)));
  }

  lemma SumOrder(a: bv32, b: bv32, c: bv32, d: bv32)
    ensures Sum4(a, b, c, d) == Sum4(d, c, b, a)
  {
  }

  lemma ScheduleStart(b: Block, t: nat)
    requires t < 16
    ensures Schedule(b, t) == WordAt(b, t)
  {
  }

  /** The schedule array, in place. */
  method FillSchedule(b: Block) returns (w: array<bv32>)
    ensures fresh(w) && w.Length == 64 && forall t :: 0 <= t < 64 ==> w[t] == Schedule(b, t)
  {
    hide *;
    w := new bv32[64];
    for i := 0 to 16
      invariant forall t :: 0 <= t < i ==> w[t] == Schedule(b, t)
    {
      ScheduleStart(b, i);
      w[i] := WordAt(b, i);
    }
    for i := 16 to 64
      invariant forall t :: 0 <= t < i ==> w[t] == Schedule(b, t)
    {
      var s0 := Sigma0(w[i - 15]);
      var s1 := Sigma1(w[i - 2]);
      ScheduleSum(b, i);
      w[i] := Sum4(w[i - 16], s0, w[i - 7], s1);
    }
  }

  lemma RoundsNext(v: Vars, b: Block, t: nat)
    requires t < 64
    ensures Rounds(v, b, t + 1) == Round(Rounds(v, b, t), RoundConstant(t), Schedule(b, t))
  {
    hide Schedule, Temp1, Temp2, RoundConstant, Plus;
  }

  lemma RoundsStart(v: Vars, b: Block)
    ensures Rounds(v, b, 0) == v
  {
  }

  method RunRounds(v: Vars, b: Block, w: array<bv32>, rounds: nat) returns (r: Vars)
    requires rounds == 64 == w.Length && forall t :: 0 <= t < rounds ==> w[t] == Schedule(b, t)
    ensures r == Rounds(v, b, rounds)
  {
    hide Schedule, Temp1, Temp2, RoundConstant, Plus, Rounds;
    r := v;
    RoundsStart(v, b);
    for i := 0 to rounds
      invariant r == Rounds(v, b, i)
    {
      RoundsNext(v, b, i);
      var temp1 := Temp1(r, RoundConstant(i), w[i]);
      var temp2 := Temp2(r);
      r := Vars(Plus(temp1, temp2), r.a, r.b, r.c, Plus(r.d, temp1), r.e, r.f, r.g);
    }
  }

  // ---- section 5.1.1: padding, and the fold over the blocks ----

  function Zeros(n: nat): (r: seq<Byte>)
    ensures |r| == n && forall i :: 0 <= i < n ==> r[i] == 0
  {
    seq(n, i => 0)
  }

  /** A one bit, zeros to 56 bytes into a block, and the length in bits. */
  function Padded(msg: seq<Byte>): (r: seq<Byte>)
    ensures |r| % 64 == 0 && msg <= r && |msg| + 9 <= |r| < |msg| + 9 + 64
  {
    msg + ([0x80] + Zeros((119 - |msg| % 64) % 64) + BigEndian(8 * |msg|, 8))
  }

  function Folded(s: Words, data: seq<Byte>): Words
    decreases |data|
  {
    if |data| < 64 then s else Folded(Compress(s, data[..64]), data[64..])
  }

  function Bytes(s: seq<bv32>): seq<Byte> {
    if s == [] then [] else Bytes(s[..|s| - 1]) + BigEndian(s[|s| - 1] as int, 4)
  }

  /** The digest of a message. */
  function Digest(msg: seq<Byte>): seq<Byte> {
    Bytes(Folded(Initial(), Padded(msg)))
  }

  lemma {:induction false} FoldedConcat(s: Words, a: seq<Byte>, b: seq<Byte>)
    requires |a| % 64 == 0
    ensures Folded(s, a + b) == Folded(Folded(s, a), b)
    decreases |a|
  {
    hide Compress;
    if a == [] {
      assert a + b == b;
    } else {
      assert (a + b)[..64] == a[..64] && (a + b)[64..] == a[64..] + b;
      FoldedConcat(Compress(s, a[..64]), a[64..], b);
    }
  }

  lemma FoldedNext(s: Words, a: seq<Byte>, b: Block)
    requires |a| % 64 == 0
    ensures Folded(s, a + b) == Compress(Folded(s, a), b)
  {
    hide Compress;
    FoldedConcat(s, a, b);
    assert b[..64] == b && b[64..] == [];
    assert Folded(Folded(s, a), b) == Folded(Compress(Folded(s, a), b), []);
  }

  // ---- streaming ----

  function Whole(n: nat): (r: nat)
    ensures r <= n && r % 64 == 0 && n - r == n % 64
  {
    n - n % 64
  }

  /** The hash state after a message: its whole blocks compressed, the rest kept. */
  class Context {
    const state: array<bv32>
    const buffer: array<Byte>
    var count: nat

    ghost predicate Shape()
      reads this
    {
      state.Length == 8 && buffer.Length == 64
    }

    /** The message's whole blocks are compressed and the rest is in the buffer. */
    ghost predicate Holds(msg: seq<Byte>)
      reads this, state, buffer
    {
      && Shape()
      && state[..] == Folded(Initial(), msg[..Whole(|msg|)])
      && buffer[..|msg| % 64] == msg[Whole(|msg|)..]
    }

    /** The message absorbed so far. */
    ghost predicate Absorbed(msg: seq<Byte>)
      reads this, state, buffer
    {
      Holds(msg) && count == |msg|
    }

    constructor ()
      ensures Absorbed([]) && fresh(state) && fresh(buffer)
    {
      hide Compress;
      state := new bv32[8](i requires 0 <= i < 8 => Initial()[i]);
      buffer := new Byte[64](i => 0);
      count := 0;
      new;
      assert state[..] == Initial();
    }

    method Transform(block: Block)
      requires Shape()
      modifies state
      ensures state[..] == Compress(old(state[..]), block)
    {
      hide Rounds, Compress, Added, Schedule;
      var w := FillSchedule(block);
      var rounds := 64;
      CompressIs(state[..], block, rounds);
      var v := RunRounds(Vars(state[0], state[1], state[2], state[3], state[4], state[5], state[6], state[7]), block, w, rounds);
      AddVars(v);
    }

    method AddVars(v: Vars)
      requires Shape()
      modifies state
      ensures state[..] == Added(old(state[..]), v)
    {
      hide Plus;
      ghost var was := state[..];
      var next := [Plus(state[0], v.a), Plus(state[1], v.b), Plus(state[2], v.c), Plus(state[3], v.d),
                   Plus(state[4], v.e), Plus(state[5], v.f), Plus(state[6], v.g), Plus(state[7], v.h)];
      assert next == Added(was, v);
      forall i | 0 <= i < 8 {
        state[i] := next[i];
      }
    }

    /** Copies bytes into the buffer. */
    method Keep(at: nat, data: seq<Byte>)
      requires Shape() && at + |data| <= 64
      modifies buffer
      ensures buffer[..at] == old(buffer[..at]) && buffer[at..at + |data|] == data && buffer[at + |data|..] == old(buffer[at + |data|..])
    {
      forall i | 0 <= i < |data| {
        buffer[at + i] := data[i];
      }
    }

    /** Compresses the whole blocks of the data from a place on. */
    method Blocks(data: seq<Byte>, from: nat, ghost s: Words) returns (to: nat)
      requires Shape() && from <= |data| && state[..] == s
      modifies state
      ensures from <= to <= |data| && (to - from) % 64 == 0 && |data| - to < 64
      ensures state[..] == Folded(s, data[from..to])
    {
      hide Compress, Folded, Initial;
      to := from;
      FoldedNone(s);
      assert data[from..to] == [];
      while |data| - to >= 64
        invariant from <= to <= |data| && (to - from) % 64 == 0 && state[..] == Folded(s, data[from..to])
      {
        FoldedNext(s, data[from..to], data[to..to + 64]);
        assert data[from..to] + data[to..to + 64] == data[from..to + 64];
        Transform(data[to..to + 64]);
        to := to + 64;
      }
    }

    /** Fills up a started block and compresses it. */
    method Complete(index: nat, data: seq<Byte>, ghost done: seq<Byte>)
      requires Shape() && index + |data| == 64 && |done| % 64 == 0 && state[..] == Folded(Initial(), done)
      modifies state, buffer
      ensures state[..] == Folded(Initial(), done + (old(buffer[..index]) + data))
    {
      hide Compress, Folded, Initial;
      Keep(index, data);
      assert buffer[..] == buffer[..index] + buffer[index..64];
      FoldedNext(Initial(), done, buffer[..]);
      Transform(buffer[..]);
    }

    /** Compresses the whole blocks of the data from a place on, keeps the rest. */
    method Absorb(data: seq<Byte>, from: nat, ghost done: seq<Byte>)
      requires Shape() && from <= |data| && |done| % 64 == 0 && state[..] == Folded(Initial(), done)
      modifies state, buffer
      ensures Holds(done + data[from..])
    {
      hide Compress, Folded, Initial;
      ghost var all := done + data[from..];
      var to := Blocks(data, from, state[..]);
      FoldedConcat(Initial(), done, data[from..to]);
      Keep(0, data[to..]);
      assert Whole(|all|) == |done| + (to - from);
      assert all[..Whole(|all|)] == done + data[from..to] && all[Whole(|all|)..] == data[to..];
    }

    /** Adds data that does not complete a block. */
    method Extend(data: seq<Byte>, ghost msg: seq<Byte>)
      requires Holds(msg) && 0 < |msg| % 64 && |msg| % 64 + |data| < 64 && count % 64 == |msg| % 64
      modifies buffer
      ensures Holds(msg + data)
    {
      hide Compress, Folded, Initial, Whole;
      var index := count % 64;
      Keep(index, data);
      assert buffer[..index + |data|] == buffer[..index] + buffer[index..index + |data|];
      StillOpen(msg, data);
    }

    method Update(data: seq<Byte>, ghost msg: seq<Byte>)
      requires Absorbed(msg)
      modifies this, state, buffer
      ensures Absorbed(msg + data)
    {
      hide Compress, Folded, Initial, Whole;
      var index := count % 64;
      ghost var done := msg[..Whole(|msg|)];
      if index > 0 && index + |data| >= 64 {
        var from := 64 - index;
        Complete(index, data[..from], done);
        Rejoined(msg, data, Whole(|msg|), from);
        Absorb(data, from, done + (msg[Whole(|msg|)..] + data[..from]));
      } else if index == 0 {
        assert done + data[0..] == msg + data;
        Absorb(data, 0, done);
      } else {
        Extend(data, msg);
      }
      count := count + |data|;
    }

    /** Writes the length in bits into the last eight bytes of the buffer. */
    method PutLength(bits: nat)
      requires Shape()
      modifies buffer
      ensures buffer[..56] == old(buffer[..56]) && buffer[56..] == BigEndian(bits, 8)
    {
      hide BigEndian;
      ghost var was := buffer[..56];
      for i := 0 to 8
        invariant buffer[..56] == was && buffer[56..56 + i] == BigEndian(bits, 8)[..i]
      {
        BigEndianAt(bits, 8, i);
        buffer[56 + i] := bits / Bound(7 - i) % 256;
        assert buffer[56..56 + i + 1] == buffer[56..56 + i] + [bits / Bound(7 - i) % 256];
      }
      assert buffer[56..] == buffer[56..64];
    }

    /** Pads the message and compresses what is left: one block or two. */
    method Pad(ghost msg: seq<Byte>)
      requires Absorbed(msg)
      modifies state, buffer
      ensures state[..] == Folded(Initial(), Padded(msg))
    {
      hide Compress, Folded, Initial, Whole, BigEndian, Padded;
      var index := count % 64;
      ghost var done, tail := msg[..Whole(|msg|)], msg[Whole(|msg|)..];
      assert done + tail == msg;
      Keep(index, [0x80]);
      index := index + 1;
      assert buffer[..index] == buffer[..index - 1] + buffer[index - 1..index];
      if index > 56 {
        TwoBlocks(done, tail);
        Complete(index, Zeros(64 - index), done);
        done := done + (tail + [0x80] + Zeros(64 - index));
        index, tail := 0, [];
        assert buffer[..0] == [];
      } else {
        OneBlock(done, tail);
        tail := tail + [0x80];
      }
      Keep(index, Zeros(56 - index));
      assert buffer[..56] == buffer[..index] + buffer[index..56];
      PutLength(8 * count);
      assert buffer[..] == buffer[..56] + buffer[56..];
      FoldedNext(Initial(), done, buffer[..]);
      Transform(buffer[..]);
    }

    method Final(ghost msg: seq<Byte>) returns (hash: seq<Byte>)
      requires Absorbed(msg)
      modifies state, buffer
      ensures hash == Digest(msg)
    {
      hide Compress, Folded, Initial, Whole, BigEndian, Padded, Bytes;
      Pad(msg);
      hash := Output();
    }

    method Output() returns (hash: seq<Byte>)
      requires Shape()
      ensures hash == Bytes(state[..])
    {
      hide BigEndian;
      hash := [];
      for i := 0 to 8
        invariant hash == Bytes(state[..i])
      {
        var x := state[i] as int;
        FourBytes(x);
        assert state[..i + 1][..i] == state[..i];
        hash := hash + [x / 0x1000000 % 256, x / 0x10000 % 256, x / 0x100 % 256, x % 256];
      }
      assert state[..8] == state[..];
    }
  }

  /** One call with the whole message. */
  method Sum(data: seq<Byte>) returns (hash: seq<Byte>)
    ensures hash == Digest(data)
  {
    hide Digest, Folded, Initial;
    var c := new Context();
    c.Update(data, []);
    assert [] + data == data;
    hash := c.Final(data);
  }

  function Joined(pieces: seq<seq<Byte>>): seq<Byte> {
    if pieces == [] then [] else Joined(pieces[..|pieces| - 1]) + pieces[|pieces| - 1]
  }

  /** A file read in pieces: however it is cut, the digest of the whole. */
  method SumPieces(pieces: seq<seq<Byte>>) returns (hash: seq<Byte>)
    ensures hash == Digest(Joined(pieces))
  {
    hide Digest, Folded, Initial;
    var c := new Context();
    for i := 0 to |pieces|
      invariant c.Absorbed(Joined(pieces[..i])) && fresh(c) && fresh(c.state) && fresh(c.buffer)
    {
      assert pieces[..i + 1][..i] == pieces[..i];
      c.Update(pieces[i], Joined(pieces[..i]));
    }
    assert pieces[..|pieces|] == pieces;
    hash := c.Final(Joined(pieces));
  }

  /** The padding of section 5.1.1: a one bit, the fewest zero bits that leave 64 bits of
    a block of 512, and the length in bits. */
  lemma PaddingRule(msg: seq<Byte>)
    ensures exists k: nat :: k < 64 && (|msg| + 1 + k) % 64 == 56 && Padded(msg) == msg + ([0x80] + Zeros(k) + BigEndian(8 * |msg|, 8))
  {
    hide Zeros, BigEndian;
    PaddedIs(msg);
    var k := (119 - |msg| % 64) % 64;
    assert (|msg| + 1 + k) % 64 == 56;
  }

  lemma PaddedIs(msg: seq<Byte>)
    ensures Padded(msg) == msg + ([0x80] + Zeros((119 - |msg| % 64) % 64) + BigEndian(8 * |msg|, 8))
  {
  }

  lemma Regroup(a: seq<Byte>, b: seq<Byte>, one: seq<Byte>, z: seq<Byte>, l: seq<Byte>)
    ensures (a + b) + (one + z + l) == a + (b + one + z + l)
  {
  }

  lemma Split(z: seq<Byte>, y: seq<Byte>, a: seq<Byte>, b: seq<Byte>, l: seq<Byte>)
    ensures a + (b + (z + y) + l) == a + (b + z) + (y + l)
  {
  }

  lemma ZeroCount(r: nat)
    requires r < 64
    ensures (119 - r) % 64 == if r <= 55 then 56 - (r + 1) else 64 - (r + 1) + 56
  {
  }

  lemma OneBlock(a: seq<Byte>, b: seq<Byte>)
    requires |a| % 64 == 0 && |b| <= 55
    ensures Padded(a + b) == a + (b + [0x80] + Zeros(56 - (|b| + 1)) + BigEndian(8 * |a + b|, 8))
  {
    hide *;
    var n := |a + b|;
    assert n % 64 == |b|;
    PaddedIs(a + b);
    ZeroCount(|b|);
    Regroup(a, b, [0x80], Zeros(56 - (|b| + 1)), BigEndian(8 * n, 8));
  }

  lemma ZerosSum(m: nat, n: nat)
    ensures Zeros(m + n) == Zeros(m) + Zeros(n)
  {
  }

  lemma TwoBlocks(a: seq<Byte>, b: seq<Byte>)
    requires |a| % 64 == 0 && 56 <= |b| < 64
    ensures Padded(a + b) == a + (b + [0x80] + Zeros(64 - (|b| + 1))) + (Zeros(56) + BigEndian(8 * |a + b|, 8))
  {
    hide *;
    var n := |a + b|;
    assert n % 64 == |b|;
    PaddedIs(a + b);
    ZeroCount(|b|);
    ZerosSum(64 - (|b| + 1), 56);
    Regroup(a, b, [0x80], Zeros(64 - (|b| + 1) + 56), BigEndian(8 * n, 8));
    Split(Zeros(64 - (|b| + 1)), Zeros(56), a, b + [0x80], BigEndian(8 * n, 8));
  }

  lemma Rejoined(msg: seq<Byte>, data: seq<Byte>, w: nat, from: nat)
    requires w <= |msg| && from <= |data|
    ensures msg[..w] + (msg[w..] + data[..from]) + data[from..] == msg + data
  {
  }

  /** Too little data to complete a block. */
  lemma StillOpen(msg: seq<Byte>, data: seq<Byte>)
    requires 0 < |msg| % 64 && |msg| % 64 + |data| < 64
    ensures var all := msg + data;
            && Whole(|all|) == Whole(|msg|) && all[..Whole(|all|)] == msg[..Whole(|msg|)]
            && all[Whole(|all|)..] == msg[Whole(|msg|)..] + data && |all| % 64 == |msg| % 64 + |data|
  {
  }

  lemma CompressIs(s: Words, b: Block, rounds: nat)
    requires rounds == 64
    ensures Compress(s, b) == Added(s, Rounds(Vars(s[0], s[1], s[2], s[3], s[4], s[5], s[6], s[7]), b, rounds))
  {
    hide Rounds, Added;
  }

  lemma FoldedNone(s: Words)
    ensures Folded(s, []) == s
  {
  }
}
