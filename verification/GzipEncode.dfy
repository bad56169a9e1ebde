/** The gzip encoder: LZ77 over the match finder, written with the fixed codes,
  framed with header and trailer. */
module GzipEncode {
  import opened Bits
  import opened BitWriter
  import opened Deflate
  import opened Gzip
  import opened HashChains
  import Crc32

  /** Bytes 0..pos of the input have been written as tokens. */
  ghost predicate Written(input: seq<Byte>, pos: nat, tokens: seq<Token>) {
    pos <= |input| && ValidTokens(tokens, 0) && TotalWidth(tokens) == pos && Expand([], tokens) == input[..pos]
  }

  /** Every match stays inside the 32 KiB window. */
  ghost predicate InWindow(tokens: seq<Token>) {
    forall i :: 0 <= i < |tokens| && tokens[i].Match? ==> tokens[i].distance <= WINDOW - 1
  }

  /** The token a position gets: a match of at least three bytes, as long as any of the
    positions looked at gives and the nearest of those, or else the byte itself. */
  ghost predicate Picked(input: seq<Byte>, pos: nat, t: Token) {
    match t
    case Literal(b) => pos < |input| && b == input[pos] && (pos + MIN_MATCH <= |input| ==> NoneRepeats(input, pos, 3))
    case Match(length, distance) =>
      && pos + MIN_MATCH <= |input| && 3 <= length && Repeats(input, pos, distance, length) && NoneNearer(input, pos, distance, length)
      && (length == 258 || pos + length == |input| || NoneRepeats(input, pos, length + 1))
  }

  /** Every token is the one its position gets. */
  ghost predicate Greedy(input: seq<Byte>, tokens: seq<Token>) {
    forall i :: 0 <= i < |tokens| ==> Picked(input, TotalWidth(tokens[..i]), tokens[i])
  }

  lemma GreedyNext(input: seq<Byte>, tokens: seq<Token>, t: Token)
    requires Greedy(input, tokens) && Picked(input, TotalWidth(tokens), t)
    ensures Greedy(input, tokens + [t])
  {
    hide Picked, TotalWidth;
    var more := tokens + [t];
    forall i | 0 <= i < |more|
      ensures Picked(input, TotalWidth(more[..i]), more[i])
    {
      assert i < |tokens| ==> more[..i] == tokens[..i];
      assert i == |tokens| ==> more[..i] == tokens;
    }
  }

  lemma ShortRepeats(input: seq<Byte>, pos: nat, n: nat)
    requires pos + MIN_MATCH <= |input| && n <= 3 && NoneRepeats(input, pos, n)
    ensures NoneRepeats(input, pos, 3)
  {
    hide Repeats;
    forall c: nat | Near(input, pos, c)
      ensures !Repeats(input, pos, pos - c, 3)
    {
      if Repeats(input, pos, pos - c, 3) {
        RepeatsLess(input, pos, pos - c, 3, n);
      }
    }
  }

  lemma WrittenLiteral(input: seq<Byte>, pos: nat, tokens: seq<Token>)
    requires Written(input, pos, tokens) && pos < |input|
    ensures var more := tokens + [Literal(input[pos])];
            Written(input, pos + 1, more) && TokensBits(more, 0) == TokensBits(tokens, 0) + SymbolBits(input[pos])
  {
    hide TokensBits, SymbolBits;
    var t := Literal(input[pos]);
    ValidSnoc(tokens, 0, t);
    BitsSnoc(tokens, 0, t);
    ExpandSnoc([], tokens, t);
    assert input[..pos] + [input[pos]] == input[..pos + 1];
  }

  lemma WrittenMatch(input: seq<Byte>, pos: nat, tokens: seq<Token>, length: nat, distance: nat)
    requires Written(input, pos, tokens) && ValidMatch(length, distance) && Repeats(input, pos, distance, length)
    ensures var more := tokens + [Match(length, distance)];
            Written(input, pos + length, more) &&
            TokensBits(more, 0) == TokensBits(tokens, 0) + TokenBits(Match(length, distance))
  {
    hide TokensBits, TokenBits;
    var t := Match(length, distance);
    ValidSnoc(tokens, 0, t);
    BitsSnoc(tokens, 0, t);
    ExpandSnoc([], tokens, t);
    CopyAgrees(input, pos, distance, length);
  }

  /** How many positions below pos have three bytes to hash. */
  function Indexable(input: seq<Byte>, pos: nat): nat {
    if pos + MIN_MATCH - 1 <= |input| then pos else if |input| < MIN_MATCH then 0 else |input| - MIN_MATCH + 1
  }

  /** Indexes every hashable position in [from, to). */
  method IndexRange(input: seq<Byte>, from: nat, to: nat, head: array<int>, prev: array<int>, ghost link: seq<int>)
    returns (ghost link': seq<int>)
    requires head != prev && head.Length == HASH_SIZE && prev.Length == WINDOW
    requires from <= to <= |input| && |link| == Indexable(input, from)
    requires Chained(input, head[..], prev[..], link)
    modifies head, prev
    ensures |link'| == Indexable(input, to)
    ensures Chained(input, head[..], prev[..], link')
  {
    hide Chained;
    link' := link;
    var i := from;
    while i < to && i + MIN_MATCH <= |input|
      invariant from <= i <= to && |link'| == Indexable(input, i)
      invariant Chained(input, head[..], prev[..], link')
    {
      link' := Index(input, i, head, prev, link');
      i := i + 1;
    }
  }

  /** Writes the whole input as literals and matches. */
  method PutTokens(input: seq<Byte>, b: GzBits, head: array<int>, prev: array<int>) returns (ghost tokens: seq<Token>)
    requires b.Valid() && !b.overflow && 8 * b.len + b.nbits + 9 * |input| < 8 * (b.out.Length + 1)
    requires head != prev && head.Length == HASH_SIZE && prev.Length == WINDOW
    requires forall h :: 0 <= h < HASH_SIZE ==> head[h] == -1
    modifies b, b.out, head, prev
    ensures b.Valid() && !b.overflow
    ensures Written(input, |input|, tokens) && InWindow(tokens) && Greedy(input, tokens)
    ensures b.Stream() == old(b.Stream()) + TokensBits(tokens, 0)
    ensures old(b.len) <= b.len && forall k :: 0 <= k < old(b.len) ==> b.out[k] == old(b.out[k])
  {
    hide Chained, TokensBits, TokenBits, SymbolBits, Expand, Hash, BytesToBits, LowBits, Greedy, NoneRepeats, NoneNearer, Repeats, NoneOn;
    ghost var link: seq<int> := [];
    tokens := [];
    Start(input, head[..], prev[..]);
    var pos := 0;
    ghost var start := b.Stream();
    while pos < |input| && !b.overflow
      invariant b.Valid() && !b.overflow && Written(input, pos, tokens) && InWindow(tokens) && Greedy(input, tokens)
      invariant b.Stream() == start + TokensBits(tokens, 0)
      invariant |link| == Indexable(input, pos) && Chained(input, head[..], prev[..], link)
      invariant old(b.len) <= b.len && forall k :: 0 <= k < old(b.len) ==> b.out[k] == old(b.out[k])
    {
      var length, distance := 0, 0;
      if pos + MIN_MATCH <= |input| {
        ghost var chain;
        length, distance, chain := FindMatch(input, pos, head, prev, link);
        link := Index(input, pos, head, prev, link);
        if length < MIN_MATCH {
          ShortRepeats(input, pos, length + 1);
        }
      }
      if length >= MIN_MATCH {
        RepeatsWithin(input, pos, distance, length);
        Room(input, pos, tokens, Match(length, distance));
        WrittenMatch(input, pos, tokens, length, distance);
        GreedyNext(input, tokens, Match(length, distance));
        SeqAssoc(start, TokensBits(tokens, 0), TokenBits(Match(length, distance)));
        b.PutMatch(length, distance);
        tokens := tokens + [Match(length, distance)];
        link := IndexRange(input, pos + 1, pos + length, head, prev, link);
        pos := pos + length;
      } else {
        Room(input, pos, tokens, Literal(input[pos]));
        WrittenLiteral(input, pos, tokens);
        GreedyNext(input, tokens, Literal(input[pos]));
        SeqAssoc(start, TokensBits(tokens, 0), SymbolBits(input[pos]));
        b.PutSymbol(input[pos]);
        tokens := tokens + [Literal(input[pos])];
        pos := pos + 1;
      }
    }
  }

  lemma RepeatsWithin(input: seq<Byte>, pos: nat, distance: nat, n: nat)
    requires Repeats(input, pos, distance, n)
    ensures pos + n <= |input|
  {
  }

  lemma Start(input: seq<Byte>, head: seq<int>, prev: seq<int>)
    requires |head| == HASH_SIZE && |prev| == WINDOW
    requires forall h :: 0 <= h < HASH_SIZE ==> head[h] == -1
    ensures Chained(input, head, prev, [])
    ensures Written(input, 0, []) && TokensBits([], 0) == [] && Greedy(input, [])
  {
  }

  /** Another token still fits the nine bits its bytes are worth. */
  lemma Room(input: seq<Byte>, pos: nat, tokens: seq<Token>, t: Token)
    requires Written(input, pos, tokens) && pos + Width(t) <= |input|
    requires t.Match? ==> ValidMatch(t.length, t.distance)
    ensures |TokensBits(tokens, 0)| + |TokenBits(t)| <= 9 * |input|
    ensures t.Literal? ==> TokenBits(t) == SymbolBits(t.b)
  {
    TokensCost(tokens, 0);
    TokenCost(t);
  }

  /** The bits of the one block the encoder writes, before padding. */
  ghost function BlockBits(tokens: seq<Token>): seq<bool>
    requires ValidTokens(tokens, 0)
  {
    [true, true, false] + TokensBits(tokens, 0) + SymbolBits(END_OF_BLOCK)
  }

  /** Writes the final fixed block and pads it to a whole byte. */
  method PutBlock(input: seq<Byte>, b: GzBits, head: array<int>, prev: array<int>)
    returns (ghost tokens: seq<Token>, ghost padding: seq<bool>)
    requires b.Valid() && !b.overflow && b.nbits == 0 && 8 * b.len + 9 * |input| + 18 < 8 * (b.out.Length + 1)
    requires head != prev && head.Length == HASH_SIZE && prev.Length == WINDOW
    requires forall h :: 0 <= h < HASH_SIZE ==> head[h] == -1
    modifies b, b.out, head, prev
    ensures b.Valid() && !b.overflow && b.nbits == 0
    ensures Written(input, |input|, tokens) && InWindow(tokens) && Greedy(input, tokens) && |padding| < 8
    ensures b.Stream() == old(b.Stream()) + BlockBits(tokens) + padding
    ensures |BlockBits(tokens)| <= 3 + 9 * |input| + 7
    ensures old(b.len) <= b.len && forall k :: 0 <= k < old(b.len) ==> b.out[k] == old(b.out[k])
  {
    HeaderBits();
    hide TokensBits, SymbolBits, Expand, BytesToBits, LowBits, HighFirst, Pow2, ValidTokens, TotalWidth, InWindow, Greedy;
    ghost var start := b.Stream();
    b.PutBits(1, 1);
    b.PutBits(1, 2);
    assert b.Stream() == start + [true, true, false];
    tokens := PutTokens(input, b, head, prev);
    TokensCost(tokens, 0);
    b.PutSymbol(END_OF_BLOCK);
    assert b.Stream() == start + BlockBits(tokens);
    padding := Pad(b);
  }

  /** Fills the last byte with zero bits. */
  method Pad(b: GzBits) returns (ghost padding: seq<bool>)
    requires b.Valid() && !b.overflow && b.len < b.out.Length
    modifies b, b.out
    ensures b.Valid() && !b.overflow && b.nbits == 0 && |padding| < 8
    ensures b.Stream() == old(b.Stream()) + padding
    ensures old(b.len) <= b.len && forall k :: 0 <= k < old(b.len) ==> b.out[k] == old(b.out[k])
  {
    hide BytesToBits, LowBits;
    padding := [];
    if b.nbits != 0 {
      padding := LowBits(0, 8 - b.nbits);
      b.PutBits(0, 8 - b.nbits);
    }
  }

  lemma HeaderBits()
    ensures Pow2(0) == 1 && Pow2(1) == 2 && Pow2(2) == 4
    ensures LowBits(1, 1) == [true] && LowBits(1, 2) == [true, false]
    ensures |SymbolBits(END_OF_BLOCK)| == 7
  {
  }

  /** The member holds one final block of the tokens, padded, between the header's ten
    bytes and the trailer's eight. */
  ghost predicate Encodes(member: seq<Byte>, tokens: seq<Token>) {
    && |member| >= 18 && ValidTokens(tokens, 0) && member[..10] == [0x1f, 0x8b, 8, 0, 0, 0, 0, 0, 0, 255]
    && BlockBits(tokens) <= BytesToBits(member[10..|member| - 8])
  }

  /** Gzip_Encode: fails only on a refused length or when memory runs out (the
    three allocations are the parameter `memory`); otherwise a decoder gives
    back exactly the input, and the result fits the buffer. */
  method Encode(input: seq<Byte>, memory: bool) returns (r: Option<seq<Byte>>)
    ensures r.None? <==> |input| > 0x7fffffff || !memory
    ensures r.Some? ==> Gunzip(r.value) == Some(input)
    ensures r.Some? ==> |r.value| <= |input| + |input| / 8 + 21
    ensures r.Some? ==> exists tokens :: Greedy(input, tokens) && Encodes(r.value, tokens)
  {
    if |input| > 0x7fffffff || !memory {
      return None;
    }
    var cap := |input| + |input| / 8 + 64;
    var head, prev, out := Setup(cap);
    hide *;
    var len := Fill(input, out, head, prev);
    r := if len == 0 then None else Some(out[..len]);
  }

  /** Writes the block after the header; 0 would mean it did not fit. */
  method FillBlock(input: seq<Byte>, out: array<Byte>, head: array<int>, prev: array<int>)
    returns (len: nat, ghost tokens: seq<Token>, ghost padding: seq<bool>)
    requires out.Length == |input| + |input| / 8 + 64 && out[..10] == HEADER
    requires head != prev && head.Length == HASH_SIZE && prev.Length == WINDOW
    requires forall h :: 0 <= h < HASH_SIZE ==> head[h] == -1
    modifies out, head, prev
    ensures 10 <= len <= |input| + |input| / 8 + 13 && out[..10] == HEADER
    ensures Written(input, |input|, tokens) && |padding| < 8 && BytesToBits(out[10..len]) == BlockBits(tokens) + padding
    ensures Greedy(input, tokens)
  {
    var b := new GzBits(out, 10);
    hide *;
    tokens, padding := PutBlock(input, b, head, prev);
    assert out[..10] == HEADER;
    BodyBits(b, tokens, padding);
    len := 0;
    if b.overflow || b.len + 8 > out.Length {
      assert false;
    } else {
      len := b.len;
    }
  }

  /** Writes the whole member into a buffer. */
  method Fill(input: seq<Byte>, out: array<Byte>, head: array<int>, prev: array<int>) returns (len: nat)
    requires |input| <= 0x7fffffff && out.Length == |input| + |input| / 8 + 64 && out[..10] == HEADER
    requires head != prev && head.Length == HASH_SIZE && prev.Length == WINDOW
    requires forall h :: 0 <= h < HASH_SIZE ==> head[h] == -1
    modifies out, head, prev
    ensures 10 < len <= |input| + |input| / 8 + 21
    ensures Gunzip(out[..len]) == Some(input) && out[..10] == HEADER
    ensures exists tokens :: Greedy(input, tokens) && Encodes(out[..len], tokens)
  {
    hide *;
    var n;
    ghost var tokens, padding;
    n, tokens, padding := FillBlock(input, out, head, prev);
    ghost var body := out[10..n];
    assert out[..n] == HEADER + body;
    PutTrailer(input, out, n);
    len := n + 8;
    Delivered(input, tokens, padding, body, out[..len]);
    assert out[..len][10..n] == body && out[..10] == HEADER;
    Encoded(input, out[..len], body, tokens, padding);
  }

  lemma Encoded(input: seq<Byte>, member: seq<Byte>, body: seq<Byte>, tokens: seq<Token>, padding: seq<bool>)
    requires |member| >= 18 && member[..10] == HEADER && member[10..|member| - 8] == body
    requires Written(input, |input|, tokens) && BytesToBits(body) == BlockBits(tokens) + padding
    ensures Encodes(member, tokens)
  {
    hide BytesToBits, BlockBits, ValidTokens, Expand, TotalWidth;
  }

  method Setup(cap: nat) returns (head: array<int>, prev: array<int>, out: array<Byte>)
    requires cap >= 10
    ensures fresh(head) && fresh(prev) && fresh(out) && head != prev
    ensures head.Length == HASH_SIZE && prev.Length == WINDOW && out.Length == cap
    ensures forall h :: 0 <= h < HASH_SIZE ==> head[h] == -1
    ensures out[..10] == HEADER
  {
    head, prev, out := new int[HASH_SIZE], new int[WINDOW], new Byte[cap];
    for i := 0 to HASH_SIZE
      invariant forall h :: 0 <= h < i ==> head[h] == -1
    {
      head[i] := -1;
    }
    for i := 0 to 10
      invariant forall k :: 0 <= k < i ==> out[k] == HEADER[k]
      invariant forall h :: 0 <= h < HASH_SIZE ==> head[h] == -1
    {
      out[i] := HEADER[i];
    }
  }

  /** Appends the checksum and the length. */
  method PutTrailer(input: seq<Byte>, out: array<Byte>, len: nat)
    requires len + 8 <= out.Length
    modifies out
    ensures out[..len + 8] == old(out[..len]) + WordBytes(Crc32.Checksum(input)) + WordBytes(|input|)
    ensures Crc32.Checksum(input) < 0x1_0000_0000
  {
    hide WordBytes, Crc32.Checksum;
    var crc := Crc32.GzCrc32(input);
    PutWord(out, len, crc);
    PutWord(out, len + 4, |input|);
    assert out[len..len + 4] == out[..len + 4][len..];
    assert out[..len + 8] == out[..len] + out[len..len + 4] + out[len + 4..len + 8];
  }

  /** Writes a word low byte first. */
  method PutWord(out: array<Byte>, at: nat, v: nat)
    requires at + 4 <= out.Length
    modifies out
    ensures out[at..at + 4] == WordBytes(v)
    ensures out[..at] == old(out[..at])
  {
    PowersOf256();
    for i := 0 to 4
      invariant forall k :: 0 <= k < i ==> out[at + k] == WordBytes(v)[k]
      invariant out[..at] == old(out[..at])
    {
      out[at + i] := v / Pow2(8 * i) % 256;
    }
  }

  lemma PowersOf256()
    ensures Pow2(0) == 1 && Pow2(8) == 0x100 && Pow2(16) == 0x1_0000 && Pow2(24) == 0x100_0000
  {
    Pow2Word();
    Pow2Add(16, 8);
  }

  /** Cutting the header's bits off the stream leaves the block's. */
  lemma BodyBits(b: GzBits, tokens: seq<Token>, padding: seq<bool>)
    requires b.Valid() && b.nbits == 0 && b.len >= 10
    requires ValidTokens(tokens, 0)
    requires b.Stream() == BytesToBits(b.out[..10]) + BlockBits(tokens) + padding
    ensures BytesToBits(b.out[10..b.len]) == BlockBits(tokens) + padding
  {
    hide BlockBits;
    var header, body := BytesToBits(b.out[..10]), BytesToBits(b.out[10..b.len]);
    assert b.out[..b.len] == b.out[..10] + b.out[10..b.len];
    BytesToBitsConcat(b.out[..10], b.out[10..b.len]);
    assert LowBits(b.bits, 0) == [] && b.Stream() == header + body;
    SeqAssoc(header, BlockBits(tokens), padding);
    assert header + body == header + (BlockBits(tokens) + padding);
    assert (header + body)[|header|..] == body;
  }

  /** The finished member decodes to the input the tokens were made from. */
  lemma Delivered(input: seq<Byte>, tokens: seq<Token>, padding: seq<bool>, body: seq<Byte>, member: seq<Byte>)
    requires |input| <= 0x7fffffff && Written(input, |input|, tokens) && |padding| < 8
    requires BytesToBits(body) == BlockBits(tokens) + padding
    requires Crc32.Checksum(input) < 0x1_0000_0000
    requires member == HEADER + body + WordBytes(Crc32.Checksum(input)) + WordBytes(|input|)
    ensures Gunzip(member) == Some(input)
  {
    hide Expand, BytesToBits, TokensBits, SymbolBits, WordBytes, Crc32.Checksum, Gunzip;
    assert input[..|input|] == input;
    MemberDecodes(tokens, body, padding, member);
  }
}
