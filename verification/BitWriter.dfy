/** The encoder's output side: bits collected least significant first into a
  fixed buffer, Huffman codes written most significant bit first, literals and
  matches written with the fixed tables. */
module BitWriter {
  import opened Arith
  import opened Bits
  import opened Deflate

  class GzBits {
    const out: array<Byte>
    var len: nat
    var bits: nat
    var nbits: nat
    var overflow: bool

    ghost predicate Valid()
      reads this
    {
      len <= out.Length && nbits < 8 && bits < Pow2(nbits)
    }

    /** Everything written: the whole bytes, then the bits not yet flushed. */
    ghost function Stream(): (r: seq<bool>)
      requires Valid()
      reads this, out
      ensures |r| == 8 * len + nbits
    {
      BytesToBits(out[..len]) + LowBits(bits, nbits)
    }

    constructor (out: array<Byte>, len: nat)
      requires len <= out.Length
      ensures Valid() && this.out == out && this.len == len && nbits == 0 && !overflow
      ensures Stream() == BytesToBits(out[..len])
    {
      this.out := out;
      this.len := len;
      bits, nbits, overflow := 0, 0, false;
    }

    /** Appends `count` bits of value; a full buffer drops bytes and is remembered. */
    method PutBits(value: nat, count: nat)
      requires Valid() && count <= 24 && value < Pow2(count)
      modifies this, out
      ensures Valid()
      ensures overflow == (old(overflow) || 8 * old(len) + old(nbits) + count >= 8 * (out.Length + 1))
      ensures !overflow ==> Stream() == old(Stream()) + LowBits(value, count)
      ensures old(len) <= len && forall k :: 0 <= k < old(len) ==> out[k] == old(out[k])
    {
      hide BytesToBits, LowBits, Pow2, Or;
      ghost var target := Stream() + LowBits(value, count);
      ShiftIn(bits, nbits, value, count);
      SeqAssoc(BytesToBits(out[..len]), LowBits(bits, nbits), LowBits(value, count));
      bits := Or(bits, value * Pow2(nbits) % 0x1_0000_0000);
      nbits := nbits + count;
      ghost var emitted: nat := 0;
      while nbits >= 8
        invariant old(len) <= len <= out.Length && bits < Pow2(nbits)
        invariant 8 * emitted + nbits == old(nbits) + count
        invariant overflow == (old(overflow) || old(len) + emitted > out.Length)
        invariant !overflow ==> len == old(len) + emitted
        invariant !overflow ==> BytesToBits(out[..len]) + LowBits(bits, nbits) == target
        invariant forall k :: 0 <= k < old(len) ==> out[k] == old(out[k])
      {
        TakeByte(bits, nbits);
        ghost var before := out[..len];
        if len < out.Length {
          out[len] := bits % 256;
          len := len + 1;
          assert out[..len] == before + [bits % 256];
          BytesToBitsSnoc(before, bits % 256);
          SeqAssoc(BytesToBits(before), LowBits(bits % 256, 8), LowBits(bits / 256, nbits - 8));
        } else {
          overflow := true;
        }
        bits := bits / 256;
        nbits := nbits - 8;
        emitted := emitted + 1;
      }
    }

    /** Huffman codes go out most significant bit first. */
    method PutCode(code: nat, length: nat)
      requires Valid() && length <= 24 && code < Pow2(length)
      modifies this, out
      ensures Valid()
      ensures overflow == (old(overflow) || 8 * old(len) + old(nbits) + length >= 8 * (out.Length + 1))
      ensures !overflow ==> Stream() == old(Stream()) + HighFirst(code, length)
      ensures old(len) <= len && forall k :: 0 <= k < old(len) ==> out[k] == old(out[k])
    {
      var reversed := ReverseCode(code, length);
      PutBits(reversed, length);
    }

    /** Writes a literal/length symbol. */
    method PutSymbol(symbol: nat)
      requires Valid() && symbol < 288
      modifies this, out
      ensures Valid()
      ensures overflow == (old(overflow) || 8 * old(len) + old(nbits) + |SymbolBits(symbol)| >= 8 * (out.Length + 1))
      ensures !overflow ==> Stream() == old(Stream()) + SymbolBits(symbol)
      ensures old(len) <= len && forall k :: 0 <= k < old(len) ==> out[k] == old(out[k])
    {
      SmallPowers();
      if symbol < 144 {
        PutCode(0x30 + symbol, 8);
      } else if symbol < 256 {
        PutCode(0x190 + symbol - 144, 9);
      } else if symbol < 280 {
        PutCode(symbol - 256, 7);
      } else {
        PutCode(0xc0 + symbol - 280, 8);
      }
    }

    method PutLength(length: nat)
      requires Valid() && 3 <= length <= 258
      modifies this, out
      ensures Valid()
      ensures var added := LengthBits(length, LengthRow(length, 28));
              overflow == (old(overflow) || 8 * old(len) + old(nbits) + |added| >= 8 * (out.Length + 1)) &&
              (!overflow ==> Stream() == old(Stream()) + added)
      ensures old(len) <= len && forall k :: 0 <= k < old(len) ==> out[k] == old(out[k])
    {
      hide LengthBase, LengthExtra, LengthRow, SymbolBits, LowBits, Pow2, BytesToBits;
      var l := FindLengthRow(length);
      LengthFits(length, l);
      LengthRows(l);
      PutSymbol(257 + l);
      if LengthExtra(l) != 0 {
        PutBits(length - LengthBase(l), LengthExtra(l));
      }
    }

    method PutDistance(distance: nat)
      requires Valid() && 1 <= distance <= 32768
      modifies this, out
      ensures Valid()
      ensures var added := DistanceBits(distance, DistRow(distance, 29));
              overflow == (old(overflow) || 8 * old(len) + old(nbits) + |added| >= 8 * (out.Length + 1)) &&
              (!overflow ==> Stream() == old(Stream()) + added)
      ensures old(len) <= len && forall k :: 0 <= k < old(len) ==> out[k] == old(out[k])
    {
      hide DistBase, DistExtra, DistRow, LowBits, HighFirst, Pow2, BytesToBits;
      var d := FindDistRow(distance);
      DistanceFits(distance, d);
      DistanceRule(d);
      assert d < Pow2(5) by { SmallPowers(); }
      PutCode(d, 5);
      if DistExtra(d) != 0 {
        PutBits(distance - DistBase(d), DistExtra(d));
      }
    }

    method PutMatch(length: nat, distance: nat)
      requires Valid() && ValidMatch(length, distance)
      modifies this, out
      ensures Valid()
      ensures overflow == (old(overflow) || 8 * old(len) + old(nbits) + |TokenBits(Match(length, distance))| >= 8 * (out.Length + 1))
      ensures !overflow ==> Stream() == old(Stream()) + TokenBits(Match(length, distance))
      ensures old(len) <= len && forall k :: 0 <= k < old(len) ==> out[k] == old(out[k])
    {
      hide LengthBits, DistanceBits, LengthRow, DistRow, BytesToBits, LowBits, Pow2;
      PutLength(length);
      PutDistance(distance);
    }
  }

  /** The bit-reversal loop of a Huffman code. */
  method ReverseCode(code: nat, length: nat) returns (reversed: nat)
    ensures reversed < Pow2(length)
    ensures LowBits(reversed, length) == HighFirst(code, length)
  {
    reversed := 0;
    for i := 0 to length
      invariant reversed == Reversed(code, i) * Pow2(length - i)
    {
      ReversedStep(code, i, length);
      reversed := Or(reversed, BitAt(code, i) * Pow2(length - 1 - i));
    }
    ReversedBits(code, length);
  }

  method FindLengthRow(length: nat) returns (l: nat)
    requires 3 <= length
    ensures l < 29 && LengthBase(l) <= length && (l < 28 ==> length < LengthBase(l + 1))
    ensures l == LengthRow(length, 28)
  {
    l := 28;
    while LengthBase(l) > length
      invariant l < 29 && LengthRow(length, 28) == LengthRow(length, l)
    {
      assert l > 0;
      l := l - 1;
    }
  }

  method FindDistRow(distance: nat) returns (d: nat)
    requires 1 <= distance
    ensures d < 30 && DistBase(d) <= distance && (d < 29 ==> distance < DistBase(d + 1))
    ensures d == DistRow(distance, 29)
  {
    d := 29;
    while DistBase(d) > distance
      invariant d < 30 && DistRow(distance, 29) == DistRow(distance, d)
    {
      assert d > 0;
      d := d - 1;
    }
  }

  /** Shifting a value into the word keeps 32 bits and appends its bits. */
  lemma ShiftIn(bits: nat, nbits: nat, value: nat, count: nat)
    requires nbits < 8 && count <= 24 && bits < Pow2(nbits) && value < Pow2(count)
    ensures var word := Or(bits, value * Pow2(nbits) % 0x1_0000_0000);
            word < Pow2(nbits + count) && LowBits(word, nbits + count) == LowBits(bits, nbits) + LowBits(value, count)
  {
    hide *;
    ShiftedFits(bits, nbits, value, count);
    ModSmall(value * Pow2(nbits), 0x1_0000_0000);
    OrDisjoint(bits, value, nbits);
    LowBitsConcat(bits, nbits, value, count);
  }

  lemma ShiftedFits(bits: nat, nbits: nat, value: nat, count: nat)
    requires nbits < 8 && count <= 24 && bits < Pow2(nbits) && value < Pow2(count)
    ensures bits + value * Pow2(nbits) < Pow2(nbits + count) < 0x1_0000_0000
  {
    hide *;
    Pow2Add(nbits, count);
    Pow2Monotone(nbits + count, 31);
    Pow2Word();
    ProductBound(bits, Pow2(nbits), value, Pow2(count));
  }

  /** Taking the low byte off a word splits its bits. */
  lemma TakeByte(word: nat, n: nat)
    requires n >= 8 && word < Pow2(n)
    ensures word / 256 < Pow2(n - 8)
    ensures LowBits(word, n) == LowBits(word % 256, 8) + LowBits(word / 256, n - 8)
  {
    assert Pow2(8) == 256;
    hide Pow2, LowBits;
    Pow2Add(8, n - 8);
    LowByte(word, Pow2(n - 8));
    LowBitsConcat(word % 256, 8, word / 256, n - 8);
  }

  lemma LowByte(word: nat, p: nat)
    requires word < 256 * p
    ensures word / 256 < p && word == word % 256 + word / 256 * 256
  {
  }

  /** The i low bits of code in reverse order. */
  function Reversed(code: nat, i: nat): nat {
    if i == 0 then 0 else 2 * Reversed(code, i - 1) + BitAt(code, i - 1)
  }

  lemma ReversedStep(code: nat, i: nat, n: nat)
    requires i < n
    ensures Or(Reversed(code, i) * Pow2(n - i), BitAt(code, i) * Pow2(n - 1 - i))
         == Reversed(code, i + 1) * Pow2(n - 1 - i)
  {
    var p, r, b := Pow2(n - 1 - i), Reversed(code, i), BitAt(code, i);
    assert Pow2(n - i) == 2 * p && Reversed(code, i + 1) == 2 * r + b;
    hide *;
    SingleBit(b, p);
    OrDisjoint(b * p, r, n - i);
    Doubled(r, b, p);
  }

  lemma SingleBit(b: nat, p: nat)
    requires b < 2 && p > 0
    ensures b * p < 2 * p
  {
  }

  lemma {:induction false} ReversedBits(code: nat, n: nat)
    ensures Reversed(code, n) < Pow2(n)
    ensures LowBits(Reversed(code, n), n) == HighFirst(code, n)
  {
    if n > 0 {
      ReversedBits(code, n - 1);
    }
  }
}
