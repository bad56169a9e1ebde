/** The canonical bytes that grants, action proofs and capability manifests are
  signed over: fields in a fixed order, each with its length, after a label. */
module Canonical {
  import opened Bits
  import opened Endian

  datatype Field =
    | Word(value: nat)
    | Long(time: int)
    | Text(bytes: seq<Byte>)
    | Hex(digits: seq<Byte>)
    | List(items: seq<seq<Byte>>)

  // ---- fields as bytes ----

  function Lower(b: Byte): Byte {
    if 65 <= b <= 90 then b + 32 else b
  }

  function Lowered(s: seq<Byte>): (r: seq<Byte>)
    ensures |r| == |s| && forall i :: 0 <= i < |s| ==> r[i] == Lower(s[i])
  {
    seq(|s|, i requires 0 <= i < |s| => Lower(s[i]))
  }

  function Prefixed(s: seq<Byte>): seq<Byte> {
    BigEndian(|s| % WORD, 4) + s
  }

  function Items(items: seq<seq<Byte>>): seq<Byte> {
    if items == [] then [] else Prefixed(items[0]) + Items(items[1..])
  }

  function Encoded(f: Field): seq<Byte> {
    match f
    case Word(n) => BigEndian(n % WORD, 4)
    case Long(v) => BigEndian(v % LONG, 8)
    case Text(s) => Prefixed(s)
    case Hex(s) => Prefixed(Lowered(s))
    case List(items) => BigEndian(|items| % WORD, 4) + Items(items)
  }

  function Encoding(fields: seq<Field>): seq<Byte> {
    if fields == [] then [] else Encoded(fields[0]) + Encoding(fields[1..])
  }

  /** A field as the bytes keep it: hex digits in lower case. */
  function Normal(f: Field): Field {
    if f.Hex? then Hex(Lowered(f.digits)) else f
  }

  /** Values a field can hold. */
  predicate InRange(f: Field) {
    (f.Word? ==> f.value < WORD) && (f.Long? ==> -LONG / 2 <= f.time < LONG / 2)
  }

  predicate SameKind(f: Field, g: Field) {
    (f.Word? <==> g.Word?) && (f.Long? <==> g.Long?) && (f.Text? <==> g.Text?) && (f.Hex? <==> g.Hex?)
  }

  // ---- reading one field off the front ----

  lemma Cut(a: seq<Byte>, x: seq<Byte>, b: seq<Byte>, y: seq<Byte>)
    requires a + x == b + y && |a| == |b|
    ensures a == b && x == y
  {
    assert a == (a + x)[..|a|] && b == (b + y)[..|b|];
    assert x == (a + x)[|a|..] && y == (b + y)[|b|..];
  }

  lemma NumberCut(n: nat, m: nat, k: nat, x: seq<Byte>, y: seq<Byte>)
    requires n < Bound(k) && m < Bound(k) && BigEndian(n, k) + x == BigEndian(m, k) + y
    ensures n == m && x == y
  {
    hide BigEndian, Bound;
    Cut(BigEndian(n, k), x, BigEndian(m, k), y);
    BigEndianInjective(n, m, k);
  }

  lemma PrefixedCut(s: seq<Byte>, t: seq<Byte>, x: seq<Byte>, y: seq<Byte>)
    requires Prefixed(s) + x == Prefixed(t) + y && |Prefixed(s) + x| < WORD
    ensures s == t && x == y
  {
    hide BigEndian, Bound;
    Bounds();
    assert Prefixed(s) + x == BigEndian(|s| % WORD, 4) + (s + x);
    assert Prefixed(t) + y == BigEndian(|t| % WORD, 4) + (t + y);
    NumberCut(|s| % WORD, |t| % WORD, 4, s + x, t + y);
    Cut(s, x, t, y);
  }

  lemma {:induction false} ItemsCut(a: seq<seq<Byte>>, b: seq<seq<Byte>>, x: seq<Byte>, y: seq<Byte>)
    requires |a| == |b| && Items(a) + x == Items(b) + y && |Items(a) + x| < WORD
    ensures a == b && x == y
  {
    hide Prefixed;
    if a != [] {
      assert Items(a) + x == Prefixed(a[0]) + (Items(a[1..]) + x);
      assert Items(b) + y == Prefixed(b[0]) + (Items(b[1..]) + y);
      PrefixedCut(a[0], b[0], Items(a[1..]) + x, Items(b[1..]) + y);
      ItemsCut(a[1..], b[1..], x, y);
    } else {
      assert Items(a) + x == x && Items(b) + y == y;
    }
  }

  lemma {:induction false} ItemsLength(items: seq<seq<Byte>>)
    ensures |Items(items)| >= 4 * |items|
  {
    if items != [] {
      ItemsLength(items[1..]);
    }
  }

  lemma ListShort(a: seq<seq<Byte>>, x: seq<Byte>)
    requires |Encoded(List(a)) + x| < WORD
    ensures |a| % WORD == |a| && |Items(a) + x| < WORD
    ensures Encoded(List(a)) + x == BigEndian(|a| % WORD, 4) + (Items(a) + x)
  {
    hide BigEndian, Items;
    ItemsLength(a);
  }

  lemma ListCut(a: seq<seq<Byte>>, b: seq<seq<Byte>>, x: seq<Byte>, y: seq<Byte>)
    requires Encoded(List(a)) + x == Encoded(List(b)) + y && |Encoded(List(a)) + x| < WORD
    ensures a == b && x == y
  {
    hide BigEndian, Bound, Items, Encoded;
    Bounds();
    ListShort(a, x);
    ListShort(b, y);
    NumberCut(|a| % WORD, |b| % WORD, 4, Items(a) + x, Items(b) + y);
    ItemsCut(a, b, x, y);
  }

  /** The bytes of a field determine it, up to the case of hex digits, and where
    the next one starts. */
  lemma FieldCut(f: Field, g: Field, x: seq<Byte>, y: seq<Byte>)
    requires SameKind(f, g) && InRange(f) && InRange(g)
    requires Encoded(f) + x == Encoded(g) + y && |Encoded(f) + x| < WORD
    ensures Normal(f) == Normal(g) && x == y
  {
    hide BigEndian, Bound, Items, Prefixed;
    Bounds();
    match f
    case Word(n) => NumberCut(n % WORD, g.value % WORD, 4, x, y);
    case Long(v) => NumberCut(v % LONG, g.time % LONG, 8, x, y);
    case Text(s) => PrefixedCut(s, g.bytes, x, y);
    case Hex(s) => PrefixedCut(Lowered(s), Lowered(g.digits), x, y);
    case List(items) => ListCut(items, g.items, x, y);
  }

  ghost predicate SameShape(fs: seq<Field>, gs: seq<Field>) {
    |fs| == |gs| && forall i :: 0 <= i < |fs| ==> SameKind(fs[i], gs[i]) && InRange(fs[i]) && InRange(gs[i])
  }

  lemma {:induction false} FieldsInjective(fs: seq<Field>, gs: seq<Field>)
    requires SameShape(fs, gs) && Encoding(fs) == Encoding(gs) && |Encoding(fs)| < WORD
    ensures forall i :: 0 <= i < |fs| ==> Normal(fs[i]) == Normal(gs[i])
  {
    hide Encoded, Normal, SameKind, InRange;
    if fs != [] {
      FieldCut(fs[0], gs[0], Encoding(fs[1..]), Encoding(gs[1..]));
      FieldsInjective(fs[1..], gs[1..]);
      forall i | 0 <= i < |fs|
        ensures Normal(fs[i]) == Normal(gs[i])
      {
        if i > 0 {
          assert fs[i] == fs[1..][i - 1] && gs[i] == gs[1..][i - 1];
        }
      }
    }
  }

  // ---- messages ----

  datatype Message =
    | GrantV2(version: nat, grantId: seq<Byte>, tenant: seq<Byte>, endpoint: seq<Byte>, action: seq<Byte>, digest: seq<Byte>,
              operator: seq<Byte>, session: seq<Byte>, issued: int, expires: int, nonce: seq<Byte>, signer: seq<Byte>)
    | GrantV3(grantId: seq<Byte>, tenant: seq<Byte>, endpoint: seq<Byte>, action: seq<Byte>, digest: seq<Byte>,
              operator: seq<Byte>, session: seq<Byte>, issued: int, expires: int, nonce: seq<Byte>, job: seq<Byte>, signer: seq<Byte>)
    | Proof(version: nat, session: seq<Byte>, tenant: seq<Byte>, action: seq<Byte>, digest: seq<Byte>, targets: seq<seq<Byte>>,
            timestamp: int, nonce: seq<Byte>)
    | Manifest(tenant: seq<Byte>, endpoint: seq<Byte>, profile: seq<Byte>, capabilities: seq<seq<Byte>>, number: int, issued: int,
               signer: seq<Byte>)

  function Ascii(s: string): (r: seq<Byte>)
    ensures |r| == |s| && forall i :: 0 <= i < |s| ==> r[i] == s[i] as int % 256
  {
    seq(|s|, i requires 0 <= i < |s| => s[i] as int % 256)
  }

  function Label(m: Message): string {
    match m
    case GrantV2(_, _, _, _, _, _, _, _, _, _, _, _) => "OMINULL-ENDPOINT-GRANT-V2"
    case GrantV3(_, _, _, _, _, _, _, _, _, _, _, _) => "OMINULL-ENDPOINT-GRANT-V3"
    case Proof(_, _, _, _, _, _, _, _) => "OMINULL-ACTION-PROOF-V2"
    case Manifest(_, _, _, _, _, _, _) => "OMINULL-CAPABILITY-MANIFEST-V1"
  }

  function Body(m: Message): seq<Field> {
    match m
    case GrantV2(version, id, tenant, endpoint, action, digest, operator, session, issued, expires, nonce, signer) =>
      [Word(version), Text(id), Text(tenant), Text(endpoint), Text(action), Hex(digest), Text(operator), Text(session),
       Long(issued), Long(expires), Hex(nonce), Hex(signer)]
    case GrantV3(id, tenant, endpoint, action, digest, operator, session, issued, expires, nonce, job, signer) =>
      [Word(3), Text(id), Text(tenant), Text(endpoint), Text(action), Hex(digest), Text(operator), Text(session),
       Long(issued), Long(expires), Hex(nonce), Text(job), Hex(signer)]
    case Proof(version, session, tenant, action, digest, targets, timestamp, nonce) =>
      [Word(version), Text(session), Text(tenant), Text(action), Hex(digest), List(targets), Long(timestamp), Hex(nonce)]
    case Manifest(tenant, endpoint, profile, capabilities, number, issued, signer) =>
      [Word(1), Text(tenant), Text(endpoint), Text(profile), List(capabilities), Long(number), Long(issued), Hex(signer)]
  }

  function Fields(m: Message): seq<Field> {
    [Text(Ascii(Label(m)))] + Body(m)
  }

  /** Numbers as the agent's types hold them. */
  ghost predicate Typed(m: Message) {
    forall i :: 0 <= i < |Body(m)| ==> InRange(Body(m)[i])
  }

  /** The message with its hex fields in lower case. */
  function Folded(m: Message): Message {
    match m
    case GrantV2(version, id, tenant, endpoint, action, digest, operator, session, issued, expires, nonce, signer) =>
      GrantV2(version, id, tenant, endpoint, action, Lowered(digest), operator, session, issued, expires, Lowered(nonce), Lowered(signer))
    case GrantV3(id, tenant, endpoint, action, digest, operator, session, issued, expires, nonce, job, signer) =>
      GrantV3(id, tenant, endpoint, action, Lowered(digest), operator, session, issued, expires, Lowered(nonce), job, Lowered(signer))
    case Proof(version, session, tenant, action, digest, targets, timestamp, nonce) =>
      Proof(version, session, tenant, action, Lowered(digest), targets, timestamp, Lowered(nonce))
    case Manifest(tenant, endpoint, profile, capabilities, number, issued, signer) =>
      Manifest(tenant, endpoint, profile, capabilities, number, issued, Lowered(signer))
  }

  ghost predicate SameMessageKind(m: Message, n: Message) {
    (m.GrantV2? <==> n.GrantV2?) && (m.GrantV3? <==> n.GrantV3?) && (m.Proof? <==> n.Proof?)
  }

  /** A label's length and last byte. */
  function LabelMark(m: Message): (nat, Byte) {
    if m.GrantV2? then (25, 50) else if m.GrantV3? then (25, 51) else if m.Proof? then (23, 50) else (30, 49)
  }

  lemma LabelMarks(m: Message)
    ensures |Ascii(Label(m))| == LabelMark(m).0 && Ascii(Label(m))[LabelMark(m).0 - 1] == LabelMark(m).1
  {
  }

  /** No two kinds of message have the same label. */
  lemma LabelsApart(m: Message, n: Message)
    requires Ascii(Label(m)) == Ascii(Label(n))
    ensures SameMessageKind(m, n)
  {
    hide Label, Ascii;
    LabelMarks(m);
    LabelMarks(n);
  }

  lemma FirstField(m: Message)
    ensures Encoding(Fields(m)) == Prefixed(Ascii(Label(m))) + Encoding(Body(m))
  {
    hide Prefixed, Label, Body;
    assert Fields(m)[1..] == Body(m);
  }

  lemma SameKindShape(m: Message, n: Message)
    requires SameMessageKind(m, n) && Typed(m) && Typed(n)
    ensures SameShape(Body(m), Body(n))
  {
    hide InRange;
    assert |Body(m)| == |Body(n)|;
    forall i | 0 <= i < |Body(m)|
      ensures SameKind(Body(m)[i], Body(n)[i])
    {
    }
  }

  lemma SameFields(m: Message, n: Message)
    requires SameMessageKind(m, n) && |Body(m)| == |Body(n)| && forall i :: 0 <= i < |Body(m)| ==> Normal(Body(m)[i]) == Normal(Body(n)[i])
    ensures Folded(m) == Folded(n)
  {
    hide Lowered;
    var a, b := Body(m), Body(n);
    assert Normal(a[0]) == Normal(b[0]) && Normal(a[1]) == Normal(b[1]) && Normal(a[2]) == Normal(b[2]) && Normal(a[3]) == Normal(b[3]);
    assert Normal(a[4]) == Normal(b[4]) && Normal(a[5]) == Normal(b[5]) && Normal(a[6]) == Normal(b[6]) && Normal(a[7]) == Normal(b[7]);
    if !m.Proof? && !m.Manifest? {
      assert Normal(a[8]) == Normal(b[8]) && Normal(a[9]) == Normal(b[9]) && Normal(a[10]) == Normal(b[10]) && Normal(a[11]) == Normal(b[11]);
    }
    if m.GrantV3? {
      assert Normal(a[12]) == Normal(b[12]);
    }
  }

  /** Equal bytes are the same kind of message with the same fields, hex up to
    case; and messages that differ only in that case have equal bytes. */
  lemma Injective(m: Message, n: Message)
    requires Typed(m) && Typed(n) && |Encoding(Fields(m))| < WORD && |Encoding(Fields(n))| < WORD
    ensures Encoding(Fields(m)) == Encoding(Fields(n)) <==> Folded(m) == Folded(n)
  {
    hide Encoding, Label, Body, Prefixed, Ascii, Typed, Fields, SameMessageKind;
    FirstField(m);
    FirstField(n);
    if Encoding(Fields(m)) == Encoding(Fields(n)) {
      PrefixedCut(Ascii(Label(m)), Ascii(Label(n)), Encoding(Body(m)), Encoding(Body(n)));
      LabelsApart(m, n);
      SameKindShape(m, n);
      FieldsInjective(Body(m), Body(n));
      SameFields(m, n);
    }
    if Folded(m) == Folded(n) {
      FoldedBytes(m);
      FoldedBytes(n);
    }
  }

  lemma HexFolded(s: seq<Byte>)
    ensures Encoded(Hex(Lowered(s))) == Encoded(Hex(s))
  {
    hide Prefixed;
    assert Lowered(Lowered(s)) == Lowered(s);
  }

  function NormalAll(fs: seq<Field>): (r: seq<Field>)
    ensures |r| == |fs| && forall i :: 0 <= i < |fs| ==> r[i] == Normal(fs[i])
  {
    seq(|fs|, i requires 0 <= i < |fs| => Normal(fs[i]))
  }

  lemma {:induction false} NormalBytes(fs: seq<Field>)
    ensures Encoding(NormalAll(fs)) == Encoding(fs)
  {
    hide Encoded, Lowered;
    if fs != [] {
      if fs[0].Hex? {
        HexFolded(fs[0].digits);
      }
      assert NormalAll(fs)[1..] == NormalAll(fs[1..]);
      NormalBytes(fs[1..]);
    }
  }

  lemma FoldedFields(m: Message)
    ensures Body(Folded(m)) == NormalAll(Body(m)) && Label(Folded(m)) == Label(m)
  {
    hide Lowered;
  }

  lemma FoldedBytes(m: Message)
    ensures Encoding(Fields(Folded(m))) == Encoding(Fields(m))
  {
    hide *;
    FirstField(m);
    FirstField(Folded(m));
    FoldedFields(m);
    NormalBytes(Body(m));
  }

  // ---- writing ----

  /** What the agent builds a grant's bytes from: version 2, or version 3 with a job. */
  function GrantMessage(version: nat, grantId: seq<Byte>, tenant: seq<Byte>, endpoint: seq<Byte>, action: seq<Byte>, digest: seq<Byte>,
                        operator: seq<Byte>, session: seq<Byte>, issued: int, expires: int, nonce: seq<Byte>, job: seq<Byte>,
                        signer: seq<Byte>): Option<Message>
  {
    if version == 2 then Some(GrantV2(2, grantId, tenant, endpoint, action, digest, operator, session, issued, expires, nonce, signer))
    else if version != 3 || job == [] then None
    else Some(GrantV3(grantId, tenant, endpoint, action, digest, operator, session, issued, expires, nonce, job, signer))
  }

  /** A buffer that is written up to its end, and marked when something did not fit. */
  class Buffer {
    const bytes: array<Byte>
    var length: nat
    var overflow: bool

    ghost predicate Valid()
      reads this, bytes
    {
      length <= bytes.Length
    }

    ghost function Contents(): seq<Byte>
      requires Valid()
      reads this, bytes
    {
      bytes[..length]
    }

    constructor (storage: array<Byte>)
      ensures Valid() && bytes == storage && length == 0 && !overflow
    {
      bytes, length, overflow := storage, 0, false;
    }

    /** The contract of every write: all of it, or the overflow mark. */
    twostate predicate Wrote(ok: bool, s: seq<Byte>)
      reads this, bytes
    {
      && Valid() && old(length) <= bytes.Length
      && (ok <==> old(length) + |s| <= bytes.Length)
      && (if ok then bytes[..length] == old(bytes[..length]) + s && overflow == old(overflow) else overflow)
    }

    method WriteUint32(value: nat) returns (ok: bool)
      requires Valid() && value < WORD
      modifies this, bytes
      ensures Wrote(ok, BigEndian(value, 4))
    {
      if length + 4 > bytes.Length {
        overflow := true;
        return false;
      }
      bytes[length] := value / 0x1000000 % 256;
      bytes[length + 1] := value / 0x10000 % 256;
      bytes[length + 2] := value / 0x100 % 256;
      bytes[length + 3] := value % 256;
      FourBytes(value);
      length := length + 4;
      return true;
    }

    method WriteInt64(value: int) returns (ok: bool)
      requires Valid()
      modifies this, bytes
      ensures Wrote(ok, BigEndian(value % LONG, 8))
    {
      if length + 8 > bytes.Length {
        overflow := true;
        return false;
      }
      ghost var was := bytes[..length];
      var u, j := value % LONG, 0;
      while j < 8
        invariant 0 <= j <= 8 && length == old(length) && overflow == old(overflow)
        invariant bytes[..length] == was && bytes[length..length + j] == BigEndian(u, 8)[..j]
      {
        BigEndianAt(u, 8, j);
        bytes[length + j] := u / Bound(7 - j) % 256;
        assert bytes[length..length + j + 1] == bytes[length..length + j] + [u / Bound(7 - j) % 256];
        j := j + 1;
      }
      assert bytes[..length + 8] == was + bytes[length..length + 8];
      length := length + 8;
      return true;
    }

    method WriteBytes(data: seq<Byte>) returns (ok: bool)
      requires Valid()
      modifies this, bytes
      ensures Wrote(ok, Prefixed(data))
    {
      hide BigEndian;
      ok := WriteUint32(|data| % WORD);
      if !ok {
        return;
      }
      ghost var was := bytes[..length];
      if length + |data| > bytes.Length {
        overflow := true;
        return false;
      }
      forall i | 0 <= i < |data| {
        bytes[length + i] := data[i];
      }
      length := length + |data|;
      assert bytes[..length] == was + data;
    }

    /** Puts the digits after what is written, without counting them yet. */
    method PutLower(digits: seq<Byte>)
      requires Valid() && length + |digits| <= bytes.Length
      modifies bytes
      ensures bytes[..length] == old(bytes[..length]) && bytes[length..length + |digits|] == Lowered(digits)
    {
      ghost var was := bytes[..length];
      for i := 0 to |digits|
        invariant bytes[..length] == was && bytes[length..length + i] == Lowered(digits)[..i]
      {
        bytes[length + i] := Lower(digits[i]);
        assert bytes[length..length + i + 1] == bytes[length..length + i] + [Lower(digits[i])];
      }
    }

    method WriteHex(digits: seq<Byte>) returns (ok: bool)
      requires Valid()
      modifies this, bytes
      ensures Wrote(ok, Prefixed(Lowered(digits)))
    {
      hide BigEndian, Lowered;
      ok := WriteUint32(|digits| % WORD);
      if !ok {
        return;
      }
      ghost var was := bytes[..length];
      if length + |digits| > bytes.Length {
        overflow := true;
        return false;
      }
      PutLower(digits);
      assert bytes[..length + |digits|] == was + bytes[length..length + |digits|];
      length := length + |digits|;
    }

    method WriteEach(items: seq<seq<Byte>>) returns (ok: bool)
      requires Valid()
      modifies this, bytes
      ensures Wrote(ok, Items(items))
    {
      hide BigEndian, Prefixed, Items, Encoded;
      ok := true;
      ghost var was, done := bytes[..length], [];
      assert items[0..] == items && [] + Items(items) == Items(items);
      for i := 0 to |items|
        invariant Valid() && overflow == old(overflow) && ok
        invariant bytes[..length] == was + done && Items(items) == done + Items(items[i..])
      {
        ItemsFirst(items[i..]);
        assert items[i..][1..] == items[i + 1..];
        SeqAssoc(done, Prefixed(items[i]), Items(items[i + 1..]));
        SeqAssoc(was, done, Prefixed(items[i]));
        ok := WriteBytes(items[i]);
        if !ok {
          return;
        }
        done := done + Prefixed(items[i]);
      }
      ItemsFirst(items[|items|..]);
      assert done + [] == done;
    }

    method WriteItems(items: seq<seq<Byte>>) returns (ok: bool)
      requires Valid()
      modifies this, bytes
      ensures Wrote(ok, Encoded(List(items)))
    {
      hide BigEndian, Prefixed, Items;
      ghost var was := bytes[..length];
      ok := WriteUint32(|items| % WORD);
      if !ok {
        return;
      }
      SeqAssoc(was, BigEndian(|items| % WORD, 4), Items(items));
      ok := WriteEach(items);
    }

    method WriteField(f: Field) returns (ok: bool)
      requires Valid() && InRange(f)
      modifies this, bytes
      ensures Wrote(ok, Encoded(f))
    {
      hide BigEndian, Prefixed, Lowered, Items;
      match f {
        case Word(n) => ok := WriteUint32(n);
        case Long(v) => ok := WriteInt64(v);
        case Text(s) => ok := WriteBytes(s);
        case Hex(s) => ok := WriteHex(s);
        case List(items) => ok := WriteItems(items);
      }
    }
  }

  /** Writes a message's fields one after the other: the number of bytes, or 0
    when they do not fit. */
  method Encode(m: Message, out: array<Byte>) returns (n: nat)
    requires Typed(m)
    modifies out
    ensures n == if |Encoding(Fields(m))| <= out.Length then |Encoding(Fields(m))| else 0
    ensures n > 0 ==> out[..n] == Encoding(Fields(m))
  {
    hide Encoded, Encoding, InRange, Body, Label, Ascii;
    TypedFields(m);
    var fields := Fields(m);
    var b := new Buffer(out);
    ghost var done := [];
    assert fields[0..] == fields && [] + Encoding(fields) == Encoding(fields);
    for i := 0 to |fields|
      invariant b.Valid() && b.bytes == out && !b.overflow
      invariant b.bytes[..b.length] == done && Encoding(fields) == done + Encoding(fields[i..])
    {
      FieldsFirst(fields[i..]);
      assert fields[i..][1..] == fields[i + 1..];
      SeqAssoc(done, Encoded(fields[i]), Encoding(fields[i + 1..]));
      label Before:
      var ok := b.WriteField(fields[i]);
      assert b.Wrote@Before(ok, Encoded(fields[i]));
      if !ok {
        return 0;
      }
      done := done + Encoded(fields[i]);
    }
    FieldsFirst(fields[|fields|..]);
    assert done + [] == done;
    n := b.length;
  }

  /** A grant of version 2 or 3; any other version, or a version 3 without a job,
    gives no bytes. */
  method EncodeGrant(version: nat, grantId: seq<Byte>, tenant: seq<Byte>, endpoint: seq<Byte>, action: seq<Byte>, digest: seq<Byte>,
                     operator: seq<Byte>, session: seq<Byte>, issued: int, expires: int, nonce: seq<Byte>, job: seq<Byte>,
                     signer: seq<Byte>, out: array<Byte>)
    returns (n: nat)
    requires InRange(Long(issued)) && InRange(Long(expires))
    modifies out
    ensures var g := GrantMessage(version, grantId, tenant, endpoint, action, digest, operator, session, issued, expires, nonce, job, signer);
            && n == (if g.Some? && |Encoding(Fields(g.value))| <= out.Length then |Encoding(Fields(g.value))| else 0)
            && (n > 0 ==> out[..n] == Encoding(Fields(g.value)))
  {
    hide Encoding, Fields;
    var g := GrantMessage(version, grantId, tenant, endpoint, action, digest, operator, session, issued, expires, nonce, job, signer);
    if g.None? {
      return 0;
    }
    n := Encode(g.value, out);
  }

  lemma TypedFields(m: Message)
    requires Typed(m)
    ensures forall i :: 0 <= i < |Fields(m)| ==> InRange(Fields(m)[i])
  {
    hide Body, Label, Ascii;
    forall i | 0 <= i < |Fields(m)|
      ensures InRange(Fields(m)[i])
    {
      if i > 0 {
        assert Fields(m)[i] == Body(m)[i - 1];
      }
    }
  }

  lemma FieldsFirst(fields: seq<Field>)
    ensures Encoding(fields) == if fields == [] then [] else Encoded(fields[0]) + Encoding(fields[1..])
  {
  }

  lemma ItemsFirst(items: seq<seq<Byte>>)
    ensures Items(items) == if items == [] then [] else Prefixed(items[0]) + Items(items[1..])
  {
  }

}
