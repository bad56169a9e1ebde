/** The deflate format with fixed Huffman codes (RFC 1951, sections 3.2.5 and
  3.2.6): what a stream of literals and matches looks like as bits, and the
  decoder that reads it back. The repository has only the encoder; the decoder
  here is written from the standard and is the specification it is held to. */
module Deflate {
  import opened Arith
  import opened Bits

  const LENGTH_BASE: seq<nat> := [
    3, 4, 5, 6, 7, 8, 9, 10, 11, 13, 15, 17, 19, 23, 27,
    31, 35, 43, 51, 59, 67, 83, 99, 115, 131, 163, 195, 227, 258]
  const LENGTH_EXTRA: seq<nat> := [
    0, 0, 0, 0, 0, 0, 0, 0, 1, 1, 1, 1, 2, 2, 2,
    2, 3, 3, 3, 3, 4, 4, 4, 4, 5, 5, 5, 5, 0]
  const DIST_BASE: seq<nat> := [
    1, 2, 3, 4, 5, 7, 9, 13, 17, 25,
    33, 49, 65, 97, 129, 193, 257, 385, 513, 769,
    1025, 1537, 2049, 3073, 4097, 6145, 8193, 12289, 16385, 24577]
  const DIST_EXTRA: seq<nat> := [
    0, 0, 0, 0, 1, 1, 2, 2, 3, 3, 4, 4, 5, 5, 6,
    6, 7, 7, 8, 8, 9, 9, 10, 10, 11, 11, 12, 12, 13, 13]
  const END_OF_BLOCK: nat := 256

  function LengthBase(row: nat): nat
    requires row < 29
  {
    LENGTH_BASE[row]
  }

  function LengthExtra(row: nat): nat
    requires row < 29
  {
    LENGTH_EXTRA[row]
  }

  function DistBase(row: nat): nat
    requires row < 30
  {
    DIST_BASE[row]
  }

  function DistExtra(row: nat): nat
    requires row < 30
  {
    DIST_EXTRA[row]
  }

  // ---- the tables by their rules ----

  /** The length codes of section 3.2.5: codes in groups of four, each group with one
    extra bit more than the last, every code starting where the one before ends; but
    258 has a code of its own, which takes the place of the last value of the group. */
  lemma LengthRule(row: nat)
    requires row < 29
    ensures LengthBase(0) == 3 && LengthBase(28) == 258 == LengthBase(27) + 31
    ensures LengthExtra(row) == if row < 8 || row == 28 then 0 else row / 4 - 1
    ensures row < 27 ==> LengthBase(row + 1) == LengthBase(row) + Pow2(LengthExtra(row))
  {
    SmallPowers();
  }

  /** The distance codes: groups of two. */
  lemma DistanceRule(row: nat)
    requires row < 30
    ensures DistBase(0) == 1 && DistExtra(row) == if row < 2 then 0 else row / 2 - 1
    ensures row < 29 ==> DistBase(row + 1) == DistBase(row) + Pow2(DistExtra(row))
    ensures row == 29 ==> DistBase(row) + Pow2(DistExtra(row)) == 32769
  {
    SmallPowers();
  }

  /** How many symbols below n have a code of so many bits. */
  function Count(bits: nat, n: nat): nat {
    if n == 0 then 0 else Count(bits, n - 1) + if SymbolLength(n - 1) == bits then 1 else 0
  }

  /** The first code of a length, by the rule of section 3.2.2: after all the codes of
    one bit less, with a zero appended. */
  function FirstCode(bits: nat): nat {
    if bits == 0 then 0 else 2 * (FirstCode(bits - 1) + Count(bits - 1, 288))
  }

  lemma {:induction false} CountIs(bits: nat, n: nat)
    requires n <= 288
    ensures Count(bits, n)
         == if bits == 7 then (if n < 256 then 0 else if n < 280 then n - 256 else 24)
            else if bits == 8 then (if n < 144 then n else if n < 280 then 144 else n - 136)
            else if bits == 9 then (if n < 144 then 0 else if n < 256 then n - 144 else 112)
            else 0
  {
    if n > 0 {
      CountIs(bits, n - 1);
    }
  }

  lemma {:induction false} NoShortCodes(bits: nat)
    requires bits <= 7
    ensures FirstCode(bits) == 0
  {
    hide Count;
    if bits > 0 {
      NoShortCodes(bits - 1);
      CountIs(bits - 1, 288);
    }
  }

  /** The fixed codes of section 3.2.6 are those the rule of section 3.2.2 gives for
    their lengths: symbols of one length have consecutive codes. */
  lemma CodeRule(symbol: nat)
    requires symbol < 288
    ensures SymbolCode(symbol) == FirstCode(SymbolLength(symbol)) + Count(SymbolLength(symbol), symbol)
    ensures Count(7, 288) == 24 && Count(8, 288) == 152 && Count(9, 288) == 112
  {
    hide Count;
    CountIs(7, 288);
    CountIs(8, 288);
    CountIs(9, 288);
    CountIs(SymbolLength(symbol), symbol);
    NoShortCodes(7);
    assert FirstCode(8) == 48;
    assert FirstCode(9) == 400;
  }

  /** A literal byte, or a copy of `length` bytes starting `distance` bytes back. */
  datatype Token = Literal(b: Byte) | Match(length: nat, distance: nat)

  // ---- the decoder (specification) ----

  /** What a read consumed, as a number, and the bits after it. */
  datatype Read = Read(value: nat, rest: seq<bool>)

  function ReadInteger(s: seq<bool>, n: nat): (r: Option<Read>)
    ensures r.Some? ==> |r.value.rest| == |s| - n
  {
    if |s| < n then None else Some(Read(LowValue(s[..n]), s[n..]))
  }

  function ReadHuffman(s: seq<bool>, n: nat): (r: Option<Read>)
    ensures r.Some? ==> |r.value.rest| == |s| - n
  {
    if |s| < n then None else Some(Read(HighValue(s[..n]), s[n..]))
  }

  /** One literal/length symbol: the code table of section 3.2.6. */
  function ReadSymbol(s: seq<bool>): (r: Option<Read>)
    ensures r.Some? ==> |r.value.rest| < |s|
  {
    var seven := ReadHuffman(s, 7);
    if seven.None? then None
    else if seven.value.value <= 0x17 then Some(Read(256 + seven.value.value, seven.value.rest))
    else
      var eight := ReadHuffman(s, 8);
      if eight.None? then None
      else if 0x30 <= eight.value.value <= 0xbf then Some(Read(eight.value.value - 0x30, eight.value.rest))
      else if 0xc0 <= eight.value.value <= 0xc7 then Some(Read(280 + eight.value.value - 0xc0, eight.value.rest))
      else
        var nine := ReadHuffman(s, 9);
        if nine.None? || nine.value.value < 0x190 then None
        else Some(Read(144 + nine.value.value - 0x190, nine.value.rest))
  }

  /** The length a symbol 257..285 and its extra bits denote. */
  function ReadLength(symbol: nat, s: seq<bool>): (r: Option<Read>)
    requires 257 <= symbol
    ensures r.Some? ==> |r.value.rest| <= |s|
  {
    if symbol > 285 then None
    else
      var extra := ReadInteger(s, LengthExtra(symbol - 257));
      if extra.None? then None
      else Some(Read(LengthBase(symbol - 257) + extra.value.value, extra.value.rest))
  }

  function ReadDistance(s: seq<bool>): (r: Option<Read>)
    ensures r.Some? ==> |r.value.rest| < |s|
  {
    var code := ReadHuffman(s, 5);
    if code.None? || code.value.value >= 30 then None
    else
      var extra := ReadInteger(code.value.rest, DistExtra(code.value.value));
      if extra.None? then None
      else Some(Read(DistBase(code.value.value) + extra.value.value, extra.value.rest))
  }

  /** Copies one byte at a time, so a match may overlap its own output. */
  function Copy(out: seq<Byte>, distance: nat, length: nat): (r: seq<Byte>)
    requires 1 <= distance <= |out|
    decreases length
  {
    if length == 0 then out else Copy(out + [out[|out| - distance]], distance, length - 1)
  }

  datatype Inflated = Inflated(data: seq<Byte>, rest: seq<bool>)

  /** Decodes symbols up to and including end-of-block. */
  function InflateSymbols(s: seq<bool>, out: seq<Byte>): (r: Option<Inflated>)
    ensures r.Some? ==> |r.value.rest| < |s|
    decreases |s|
  {
    var symbol := ReadSymbol(s);
    if symbol.None? then None
    else
      var Read(v, rest) := symbol.value;
      if v < 256 then InflateSymbols(rest, out + [v])
      else if v == END_OF_BLOCK then Some(Inflated(out, rest))
      else
        var length := ReadLength(v, rest);
        if length.None? then None
        else
          var distance := ReadDistance(length.value.rest);
          if distance.None? || !(1 <= distance.value.value <= |out|) then None
          else InflateSymbols(distance.value.rest, Copy(out, distance.value.value, length.value.value))
  }

  /** A sequence of blocks up to the one marked final. Only fixed-code blocks
    (BTYPE 01) are read; stored and dynamic blocks are refused. */
  function InflateBlocks(s: seq<bool>, out: seq<Byte>): (r: Option<Inflated>)
    decreases |s|
  {
    if |s| < 3 || s[1..3] != [true, false] then None
    else
      var block := InflateSymbols(s[3..], out);
      if block.None? then None
      else if s[0] then block
      else InflateBlocks(block.value.rest, block.value.data)
  }

  // ---- the bits of a token stream ----

  /** The fixed code of a literal/length symbol and its length in bits. */
  function SymbolCode(symbol: nat): nat {
    if symbol < 144 then 0x30 + symbol
    else if symbol < 256 then 0x190 + symbol - 144
    else if symbol < 280 then symbol - 256
    else 0xc0 + symbol - 280
  }

  function SymbolLength(symbol: nat): nat {
    if symbol < 144 then 8 else if symbol < 256 then 9 else if symbol < 280 then 7 else 8
  }

  function SymbolBits(symbol: nat): seq<bool> {
    HighFirst(SymbolCode(symbol), SymbolLength(symbol))
  }

  function LengthBits(length: nat, row: nat): (r: seq<bool>)
    requires row < 29 && LengthBase(row) <= length
  {
    SymbolBits(257 + row) + LowBits(length - LengthBase(row), LengthExtra(row))
  }

  function DistanceBits(distance: nat, row: nat): (r: seq<bool>)
    requires row < 30 && DistBase(row) <= distance
  {
    HighFirst(row, 5) + LowBits(distance - DistBase(row), DistExtra(row))
  }

  /** The table row of a length: the last one whose base does not exceed it. */
  function LengthRow(length: nat, row: nat): (r: nat)
    requires row < 29 && 3 <= length
    ensures r <= row && LengthBase(r) <= length
    ensures r < row ==> length < LengthBase(r + 1)
  {
    if LengthBase(row) <= length then row else LengthRow(length, row - 1)
  }

  function DistRow(distance: nat, row: nat): (r: nat)
    requires row < 30 && 1 <= distance
    ensures r <= row && DistBase(r) <= distance
    ensures r < row ==> distance < DistBase(r + 1)
  {
    if DistBase(row) <= distance then row else DistRow(distance, row - 1)
  }

  predicate ValidMatch(length: nat, distance: nat) {
    3 <= length <= 258 && 1 <= distance <= 32768
  }

  function TokenBits(t: Token): (r: seq<bool>)
    requires t.Match? ==> ValidMatch(t.length, t.distance)
  {
    match t
    case Literal(b) => SymbolBits(b)
    case Match(length, distance) =>
      LengthBits(length, LengthRow(length, 28)) + DistanceBits(distance, DistRow(distance, 29))
  }

  /** Every match lies inside the format's limits and what was already written. */
  predicate ValidTokens(tokens: seq<Token>, n: nat) {
    tokens == [] ||
    match tokens[0]
    case Literal(_) => ValidTokens(tokens[1..], n + 1)
    case Match(length, distance) =>
      ValidMatch(length, distance) && distance <= n && ValidTokens(tokens[1..], n + length)
  }

  function TokensBits(tokens: seq<Token>, n: nat): (r: seq<bool>)
    requires ValidTokens(tokens, n)
  {
    if tokens == [] then []
    else TokenBits(tokens[0]) + TokensBits(tokens[1..], n + Width(tokens[0]))
  }

  function Width(t: Token): nat {
    if t.Literal? then 1 else t.length
  }

  /** The bytes a token stream stands for. */
  function Expand(out: seq<Byte>, tokens: seq<Token>): (r: seq<Byte>)
    requires ValidTokens(tokens, |out|)
    decreases |tokens|
  {
    if tokens == [] then out
    else Expand(Write(out, tokens[0]), tokens[1..])
  }

  lemma {:induction false} CopyGrows(out: seq<Byte>, distance: nat, length: nat)
    requires 1 <= distance <= |out|
    ensures |Copy(out, distance, length)| == |out| + length
    decreases length
  {
    if length > 0 {
      CopyGrows(out + [out[|out| - distance]], distance, length - 1);
    }
  }

  /** A copy from earlier text that agrees with the text ahead reproduces it. */
  lemma {:induction false} CopyAgrees(text: seq<Byte>, pos: nat, distance: nat, length: nat)
    requires 1 <= distance <= pos && pos + length <= |text|
    requires forall k :: pos <= k < pos + length ==> text[k - distance] == text[k]
    ensures Copy(text[..pos], distance, length) == text[..pos + length]
    decreases length
  {
    if length > 0 {
      assert text[..pos] + [text[pos - distance]] == text[..pos + 1];
      CopyAgrees(text, pos + 1, distance, length - 1);
    }
  }

  // ---- appending a token ----

  ghost predicate Fits(t: Token, n: nat) {
    t.Match? ==> ValidMatch(t.length, t.distance) && t.distance <= n
  }

  function TotalWidth(tokens: seq<Token>): nat {
    if tokens == [] then 0 else Width(tokens[0]) + TotalWidth(tokens[1..])
  }

  lemma {:induction false} ValidSnoc(tokens: seq<Token>, n: nat, t: Token)
    requires ValidTokens(tokens, n) && Fits(t, n + TotalWidth(tokens))
    ensures ValidTokens(tokens + [t], n)
    ensures TotalWidth(tokens + [t]) == TotalWidth(tokens) + Width(t)
    decreases |tokens|
  {
    if tokens != [] {
      assert (tokens + [t])[1..] == tokens[1..] + [t];
      ValidSnoc(tokens[1..], n + Width(tokens[0]), t);
    } else {
      assert ([t])[1..] == [];
      assert tokens + [t] == [t];
    }
  }

  lemma BitsSnocRest(tokens: seq<Token>, n: nat, t: Token)
    requires tokens != [] && ValidTokens(tokens, n) && Fits(t, n + TotalWidth(tokens))
    ensures ValidTokens(tokens[1..], n + Width(tokens[0]))
    ensures Fits(t, n + Width(tokens[0]) + TotalWidth(tokens[1..]))
  {
  }

  lemma {:induction false} BitsSnoc(tokens: seq<Token>, n: nat, t: Token)
    requires ValidTokens(tokens, n) && Fits(t, n + TotalWidth(tokens))
    ensures ValidTokens(tokens + [t], n)
    ensures TokensBits(tokens + [t], n) == TokensBits(tokens, n) + TokenBits(t)
    decreases |tokens|
  {
    hide TokenBits, TotalWidth, Width, Fits;
    ValidSnoc(tokens, n, t);
    if tokens == [] {
      assert tokens + [t] == [t] && ([t])[1..] == [];
      assert TokensBits([], n + Width(t)) == [];
    } else {
      var m := n + Width(tokens[0]);
      BitsSnocRest(tokens, n, t);
      assert (tokens + [t])[1..] == tokens[1..] + [t] && (tokens + [t])[0] == tokens[0];
      BitsSnoc(tokens[1..], m, t);
      SeqAssoc(TokenBits(tokens[0]), TokensBits(tokens[1..], m), TokenBits(t));
    }
  }

  /** One token's effect on the bytes written so far. */
  function Write(out: seq<Byte>, t: Token): (r: seq<Byte>)
    requires Fits(t, |out|)
    ensures |r| == |out| + Width(t)
  {
    if t.Literal? then out + [t.b]
    else
      CopyGrows(out, t.distance, t.length);
      Copy(out, t.distance, t.length)
  }

  lemma {:induction false} ExpandSnoc(out: seq<Byte>, tokens: seq<Token>, t: Token)
    requires ValidTokens(tokens, |out|) && Fits(t, |out| + TotalWidth(tokens))
    ensures ValidTokens(tokens + [t], |out|)
    ensures |Expand(out, tokens)| == |out| + TotalWidth(tokens)
    ensures Expand(out, tokens + [t]) == Write(Expand(out, tokens), t)
    decreases |tokens|
  {
    ValidSnoc(tokens, |out|, t);
    if tokens == [] {
      assert tokens + [t] == [t] && ([t])[1..] == [];
    } else {
      assert (tokens + [t])[1..] == tokens[1..] + [t];
      ExpandSnoc(Write(out, tokens[0]), tokens[1..], t);
    }
  }

  // ---- decoding undoes encoding ----

  lemma {:induction false} HighFirstSnoc(d: nat, m: nat)
    requires m > 0
    ensures HighFirst(d, m) == HighFirst(d / 2, m - 1) + [d % 2 == 1]
  {
    if m == 1 {
      assert BitAt(d, 0) == d % 2;
    } else {
      DivTwice(d, Pow2(m - 2));
      HighFirstSnoc(d, m - 1);
    }
  }

  lemma {:induction false} HighValueOfHighFirst(d: nat, m: nat)
    requires d < Pow2(m)
    ensures HighValue(HighFirst(d, m)) == d
  {
    if m > 0 {
      HighFirstSnoc(d, m);
      HighValueOfHighFirst(d / 2, m - 1);
      var s := HighFirst(d, m);
      assert s[..|s| - 1] == HighFirst(d / 2, m - 1);
    }
  }

  lemma ReadHuffmanBack(code: nat, n: nat, rest: seq<bool>)
    requires code < Pow2(n)
    ensures ReadHuffman(HighFirst(code, n) + rest, n) == Some(Read(code, rest))
  {
    var s := HighFirst(code, n) + rest;
    assert s[..n] == HighFirst(code, n) && s[n..] == rest;
    HighValueOfHighFirst(code, n);
  }

  lemma ReadIntegerBack(v: nat, n: nat, rest: seq<bool>)
    requires v < Pow2(n)
    ensures ReadInteger(LowBits(v, n) + rest, n) == Some(Read(v, rest))
  {
    var s := LowBits(v, n) + rest;
    assert s[..n] == LowBits(v, n) && s[n..] == rest;
    LowValueOfLowBits(v, n);
  }

  lemma SmallPowers()
    ensures Pow2(0) == 1 && Pow2(1) == 2 && Pow2(2) == 4 && Pow2(3) == 8 && Pow2(4) == 16
    ensures Pow2(5) == 32 && Pow2(6) == 64 && Pow2(7) == 128 && Pow2(8) == 256 && Pow2(9) == 512
    ensures Pow2(10) == 1024 && Pow2(11) == 2048 && Pow2(12) == 4096 && Pow2(13) == 8192
  {
  }

  lemma ReadSymbolEight(code: nat, rest: seq<bool>)
    requires 0x30 <= code < 0xc8
    ensures ReadSymbol(HighFirst(code, 8) + rest)
         == Some(Read(if code < 0xc0 then code - 0x30 else 280 + code - 0xc0, rest))
  {
    hide ReadHuffman, HighFirst, HighValue, BitAt, Pow2;
    SmallPowers();
    var tail := [code % 2 == 1] + rest;
    HighFirstSnoc(code, 8);
    assert HighFirst(code, 8) + rest == HighFirst(code / 2, 7) + tail;
    ReadHuffmanBack(code, 8, rest);
    ReadHuffmanBack(code / 2, 7, tail);
  }

  lemma ReadSymbolNine(code: nat, rest: seq<bool>)
    requires 0x190 <= code < 0x200
    ensures ReadSymbol(HighFirst(code, 9) + rest) == Some(Read(144 + code - 0x190, rest))
  {
    hide ReadHuffman, HighFirst, HighValue, BitAt, Pow2;
    SmallPowers();
    var half, quarter := code / 2, code / 4;
    var tail, tail' := [code % 2 == 1] + rest, [half % 2 == 1, code % 2 == 1] + rest;
    HighFirstSnoc(code, 9);
    HighFirstSnoc(half, 8);
    assert half / 2 == quarter;
    assert HighFirst(code, 9) + rest == HighFirst(half, 8) + tail;
    assert HighFirst(half, 8) + tail == HighFirst(quarter, 7) + tail';
    ReadHuffmanBack(code, 9, rest);
    ReadHuffmanBack(half, 8, tail);
    ReadHuffmanBack(quarter, 7, tail');
  }

  /** The fixed code is a prefix code: reading a symbol's bits gives the symbol. */
  lemma ReadSymbolBack(symbol: nat, rest: seq<bool>)
    requires symbol < 288
    ensures ReadSymbol(SymbolBits(symbol) + rest) == Some(Read(symbol, rest))
  {
    hide ReadHuffman, HighFirst, HighValue, BitAt, Pow2;
    var code, n := SymbolCode(symbol), SymbolLength(symbol);
    if n == 8 {
      ReadSymbolEight(code, rest);
    } else if n == 9 {
      ReadSymbolNine(code, rest);
    } else {
      SmallPowers();
      ReadHuffmanBack(code, 7, rest);
    }
  }

  lemma LengthRows(row: nat)
    requires row < 29
    ensures LengthExtra(row) <= 5
    ensures row < 28 ==> LengthBase(row + 1) <= LengthBase(row) + Pow2(LengthExtra(row))
  {
    hide LengthBase, LengthExtra, Pow2;
    LengthRule(row);
    SmallPowers();
  }

  lemma LengthFits(length: nat, row: nat)
    requires 3 <= length <= 258 && row == LengthRow(length, 28)
    ensures LengthBase(row) <= length < LengthBase(row) + Pow2(LengthExtra(row))
  {
    LengthRows(row);
    SmallPowers();
  }

  lemma ReadLengthBack(length: nat, row: nat, rest: seq<bool>)
    requires 3 <= length <= 258 && row == LengthRow(length, 28)
    ensures ReadLength(257 + row, LowBits(length - LengthBase(row), LengthExtra(row)) + rest)
         == Some(Read(length, rest))
  {
    hide LengthBase, LengthExtra, LengthRow, Pow2, LowBits, ReadInteger;
    LengthFits(length, row);
    ReadIntegerBack(length - LengthBase(row), LengthExtra(row), rest);
  }

  lemma DistanceFits(distance: nat, row: nat)
    requires 1 <= distance <= 32768 && row == DistRow(distance, 29)
    ensures DistBase(row) <= distance < DistBase(row) + Pow2(DistExtra(row))
  {
    DistanceRule(row);
  }

  lemma ReadDistanceBack(distance: nat, row: nat, rest: seq<bool>)
    requires row < 30 && DistBase(row) <= distance < DistBase(row) + Pow2(DistExtra(row))
    ensures ReadDistance(DistanceBits(distance, row) + rest) == Some(Read(distance, rest))
  {
    hide DistBase, DistExtra, Pow2, LowBits, HighFirst, ReadHuffman, ReadInteger;
    var v, n := distance - DistBase(row), DistExtra(row);
    assert row < Pow2(5) by { SmallPowers(); }
    SeqAssoc(HighFirst(row, 5), LowBits(v, n), rest);
    ReadHuffmanBack(row, 5, LowBits(v, n) + rest);
    ReadIntegerBack(v, n, rest);
  }

  lemma InflateMatch(length: nat, distance: nat, l: nat, d: nat, out: seq<Byte>, rest: seq<bool>)
    requires ValidMatch(length, distance) && distance <= |out|
    requires l == LengthRow(length, 28) && d == DistRow(distance, 29)
    ensures InflateSymbols(LengthBits(length, l) + DistanceBits(distance, d) + rest, out)
         == InflateSymbols(rest, Copy(out, distance, length))
  {
    hide LengthBase, LengthExtra, DistBase, DistExtra, LowBits, SymbolBits, DistanceBits, Copy, ReadSymbol, ReadLength, ReadDistance;
    var symbol, extra := SymbolBits(257 + l), LowBits(length - LengthBase(l), LengthExtra(l));
    var tail := DistanceBits(distance, d) + rest;
    assert LengthBits(length, l) + DistanceBits(distance, d) + rest == symbol + (extra + tail);
    ReadSymbolBack(257 + l, extra + tail);
    ReadLengthBack(length, l, tail);
    DistanceFits(distance, d);
    ReadDistanceBack(distance, d, rest);
  }

  /** Decoding one token's bits performs the token. */
  lemma InflateToken(t: Token, out: seq<Byte>, rest: seq<bool>)
    requires Fits(t, |out|)
    ensures InflateSymbols(TokenBits(t) + rest, out) == InflateSymbols(rest, Write(out, t))
  {
    hide LengthBits, DistanceBits, SymbolBits, Copy, ReadSymbol;
    match t
    case Literal(b) =>
      ReadSymbolBack(b, rest);
    case Match(length, distance) =>
      InflateMatch(length, distance, LengthRow(length, 28), DistRow(distance, 29), out, rest);
  }

  lemma FirstFits(tokens: seq<Token>, n: nat)
    requires tokens != [] && ValidTokens(tokens, n)
    ensures Fits(tokens[0], n) && ValidTokens(tokens[1..], n + Width(tokens[0]))
  {
  }

  lemma {:induction false} InflateTokens(tokens: seq<Token>, out: seq<Byte>, rest: seq<bool>)
    requires ValidTokens(tokens, |out|)
    ensures InflateSymbols(TokensBits(tokens, |out|) + (SymbolBits(END_OF_BLOCK) + rest), out)
         == Some(Inflated(Expand(out, tokens), rest))
    decreases |tokens|
  {
    hide TokenBits, SymbolBits, Write, Width, ReadSymbol;
    var end := SymbolBits(END_OF_BLOCK) + rest;
    if tokens == [] {
      assert TokensBits(tokens, |out|) + end == end;
      ReadSymbolBack(END_OF_BLOCK, rest);
    } else {
      FirstFits(tokens, |out|);
      var out' := Write(out, tokens[0]);
      var tail := TokensBits(tokens[1..], |out'|);
      SeqAssoc(TokenBits(tokens[0]), tail, end);
      InflateToken(tokens[0], out, tail + end);
      InflateTokens(tokens[1..], out', rest);
    }
  }

  /** One final fixed block holding a token stream decodes to what the stream
    stands for, and leaves exactly the bits after the block. */
  lemma InflateFixedBlock(tokens: seq<Token>, rest: seq<bool>)
    requires ValidTokens(tokens, 0)
    ensures InflateBlocks([true, true, false] + TokensBits(tokens, 0) + SymbolBits(END_OF_BLOCK) + rest, [])
         == Some(Inflated(Expand([], tokens), rest))
  {
    var body := TokensBits(tokens, 0) + (SymbolBits(END_OF_BLOCK) + rest);
    var s := [true, true, false] + TokensBits(tokens, 0) + SymbolBits(END_OF_BLOCK) + rest;
    assert s == [true, true, false] + body;
    assert s[3..] == body && s[1..3] == [true, false] && s[0];
    InflateTokens(tokens, [], rest);
  }

  // ---- cost ----

  /** No token costs more than nine bits for each byte it stands for. */
  lemma TokenCost(t: Token)
    requires t.Match? ==> ValidMatch(t.length, t.distance)
    ensures |TokenBits(t)| <= 9 * Width(t)
  {
    if t.Match? {
      var l, d := LengthRow(t.length, 28), DistRow(t.distance, 29);
      LengthRows(l);
      DistanceRule(d);
      hide LengthBase, LengthExtra, DistBase, DistExtra;
      assert |DistanceBits(t.distance, d)| <= 18;
      if l < 8 {
        NoExtra(l);
        assert |LengthBits(t.length, l)| == 7;
      } else {
        assert |LengthBits(t.length, l)| <= 13;
        LongRows(l);
      }
    }
  }

  lemma NoExtra(row: nat)
    requires row < 8
    ensures LengthExtra(row) == 0
  {
  }

  lemma LongRows(row: nat)
    requires 8 <= row < 29
    ensures LengthBase(row) >= 11
  {
  }

  lemma {:induction false} TokensCost(tokens: seq<Token>, n: nat)
    requires ValidTokens(tokens, n)
    ensures |TokensBits(tokens, n)| <= 9 * TotalWidth(tokens)
    decreases |tokens|
  {
    hide TokenBits;
    if tokens != [] {
      TokenCost(tokens[0]);
      TokensCost(tokens[1..], n + Width(tokens[0]));
    }
  }
}
