/** The gzip container (RFC 1952, section 2.3): what a decoder makes of a
  member without optional fields. */
module Gzip {
  import opened Bits
  import opened Deflate
  import Crc32

  const HEADER: seq<Byte> := [0x1f, 0x8b, 8, 0, 0, 0, 0, 0, 0, 0xff]

  function LittleEndian(s: seq<Byte>): nat {
    if s == [] then 0 else s[0] + 256 * LittleEndian(s[1..])
  }

  /** Decodes one member, checking the magic, the method, the checksum and the
    length; None for anything else, and for flags that announce more fields. */
  function Gunzip(member: seq<Byte>): (r: Option<seq<Byte>>) {
    if |member| < 18 || member[..4] != [0x1f, 0x8b, 8, 0] then None
    else
      var inflated := InflateBlocks(BytesToBits(member[10..]), []);
      // The trailer starts at the next byte boundary and ends the member.
      if inflated.None? || |inflated.value.rest| / 8 != 8 then None
      else
        var data, trailer := inflated.value.data, member[|member| - 8..];
        if LittleEndian(trailer[..4]) != Crc32.Checksum(data) then None
        else if LittleEndian(trailer[4..]) != |data| % 0x1_0000_0000 then None
        else Some(data)
  }

  /** The four bytes of a 32-bit word, low byte first. */
  function WordBytes(v: nat): (r: seq<Byte>)
    ensures |r| == 4
  {
    [v % 256, v / 0x100 % 256, v / 0x1_0000 % 256, v / 0x100_0000 % 256]
  }

  lemma LittleEndianFour(s: seq<Byte>)
    requires |s| == 4
    ensures LittleEndian(s) == s[0] + 256 * LittleEndian(s[1..])
    ensures LittleEndian(s[1..]) == s[1] + 256 * LittleEndian(s[2..])
    ensures LittleEndian(s[2..]) == s[2] + 256 * LittleEndian(s[3..])
    ensures LittleEndian(s[3..]) == s[3]
  {
    assert s[3..][1..] == [] && s[2..][1..] == s[3..] && s[1..][1..] == s[2..];
  }

  lemma WordBytesBack(v: nat)
    requires v < 0x1_0000_0000
    ensures LittleEndian(WordBytes(v)) == v
  {
    LittleEndianFour(WordBytes(v));
    FourDigits(v);
  }

  lemma FourDigits(v: nat)
    requires v < 0x1_0000_0000
    ensures v == v % 256 + 256 * (v / 0x100 % 256 + 256 * (v / 0x1_0000 % 256 + 256 * (v / 0x100_0000 % 256)))
  {
    var a := v / 256;
    var b := a / 256;
    var c := b / 256;
    assert v / 0x1_0000 == b && v / 0x100_0000 == c && c % 256 == c;
  }

  /** A member built from one fixed block, padded to a byte, and the right
    trailer decodes to the bytes the block's tokens stand for. */
  lemma MemberDecodes(tokens: seq<Token>, body: seq<Byte>, padding: seq<bool>, member: seq<Byte>)
    requires ValidTokens(tokens, 0)
    requires |padding| < 8
    requires BytesToBits(body) == [true, true, false] + TokensBits(tokens, 0) + SymbolBits(END_OF_BLOCK) + padding
    requires var data := Expand([], tokens);
             Crc32.Checksum(data) < 0x1_0000_0000 && |data| < 0x1_0000_0000 &&
             member == HEADER + body + WordBytes(Crc32.Checksum(data)) + WordBytes(|data|)
    ensures Gunzip(member) == Some(Expand([], tokens))
  {
    hide SymbolBits, TokensBits, InflateBlocks, Expand, Crc32.Checksum, WordBytes;
    var data := Expand([], tokens);
    var trailer := WordBytes(Crc32.Checksum(data)) + WordBytes(|data|);
    TrailerShape(Crc32.Checksum(data), |data|);
    assert member[10..] == body + trailer;
    BytesToBitsConcat(body, trailer);
    var block := [true, true, false] + TokensBits(tokens, 0) + SymbolBits(END_OF_BLOCK);
    SeqAssoc(block, padding, BytesToBits(trailer));
    InflateFixedBlock(tokens, padding + BytesToBits(trailer));
    assert member[|member| - 8..] == trailer;
    assert member[..4] == [0x1f, 0x8b, 8, 0];
  }

  lemma TrailerShape(crc: nat, size: nat)
    requires crc < 0x1_0000_0000 && size < 0x1_0000_0000
    ensures |WordBytes(crc)| == |WordBytes(size)| == 4
    ensures var trailer := WordBytes(crc) + WordBytes(size);
            LittleEndian(trailer[..4]) == crc && LittleEndian(trailer[4..]) == size
  {
    var trailer := WordBytes(crc) + WordBytes(size);
    assert trailer[..4] == WordBytes(crc) && trailer[4..] == WordBytes(size);
    WordBytesBack(crc);
    WordBytesBack(size);
  }
}
