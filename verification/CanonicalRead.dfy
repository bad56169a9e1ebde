/** A reader of the canonical bytes, field by field in the order of the layout: the
  agent has only the writers, and this is what they are held to. */
module CanonicalRead {
  import opened Bits
  import opened Endian
  import opened Canonical

  datatype Shape = W | L | T | H | S

  /** What a field of each shape is: a number, a time, a text, hex digits, a list. */
  predicate Shaped(shape: Shape, f: Field) {
    match shape
    case W => f.Word?
    case L => f.Long?
    case T => f.Text?
    case H => f.Hex?
    case S => f.List?
  }

  // ---- reading ----

  function ValueOf(s: seq<Byte>): nat {
    if s == [] then 0 else 256 * ValueOf(s[..|s| - 1]) + s[|s| - 1]
  }

  /** A number of k bytes, high byte first. */
  function TakeNumber(b: seq<Byte>, k: nat): Option<(nat, seq<Byte>)> {
    if |b| < k then None else Some((ValueOf(b[..k]), b[k..]))
  }

  /** A length in four bytes, and that many bytes. */
  function TakeBytes(b: seq<Byte>): Option<(seq<Byte>, seq<Byte>)> {
    var n := TakeNumber(b, 4);
    if n.None? || |n.value.1| < n.value.0 then None else Some((n.value.1[..n.value.0], n.value.1[n.value.0..]))
  }

  function TakeItems(b: seq<Byte>, n: nat): Option<(seq<seq<Byte>>, seq<Byte>)>
    decreases n
  {
    if n == 0 then Some(([], b))
    else
      var first := TakeBytes(b);
      if first.None? then None
      else
        var rest := TakeItems(first.value.1, n - 1);
        if rest.None? then None else Some(([first.value.0] + rest.value.0, rest.value.1))
  }

  function TakeField(b: seq<Byte>, shape: Shape): (r: Option<(Field, seq<Byte>)>)
    ensures r.Some? ==> Shaped(shape, r.value.0)
  {
    match shape
    case W => var n := TakeNumber(b, 4); if n.None? then None else Some((Word(n.value.0), n.value.1))
    case L =>
      var n := TakeNumber(b, 8);
      if n.None? then None else Some((Long(if n.value.0 < 0x8000_0000_0000_0000 then n.value.0 else n.value.0 - LONG), n.value.1))
    case T => var s := TakeBytes(b); if s.None? then None else Some((Text(s.value.0), s.value.1))
    case H => var s := TakeBytes(b); if s.None? then None else Some((Hex(s.value.0), s.value.1))
    case S =>
      var n := TakeNumber(b, 4);
      if n.None? then None
      else var items := TakeItems(n.value.1, n.value.0); if items.None? then None else Some((List(items.value.0), items.value.1))
  }

  /** Fields of these shapes and nothing after them. */
  function TakeFields(b: seq<Byte>, shapes: seq<Shape>): (r: Option<seq<Field>>)
    ensures r.Some? ==> |r.value| == |shapes|
    decreases |shapes|
  {
    if shapes == [] then if b == [] then Some([]) else None
    else
      var first := TakeField(b, shapes[0]);
      if first.None? then None
      else
        var rest := TakeFields(first.value.1, shapes[1..]);
        if rest.None? then None else Some([first.value.0] + rest.value)
  }

  function NumberOf(f: Field): nat { if f.Word? then f.value else 0 }
  function TimeOf(f: Field): int { if f.Long? then f.time else 0 }
  function BytesOf(f: Field): seq<Byte> { if f.Text? then f.bytes else if f.Hex? then f.digits else [] }
  function ItemsOf(f: Field): seq<seq<Byte>> { if f.List? then f.items else [] }

  const V2: seq<Shape> := [W, T, T, T, T, H, T, T, L, L, H, H]
  const V3: seq<Shape> := [W, T, T, T, T, H, T, T, L, L, H, T, H]
  const PROOF: seq<Shape> := [W, T, T, T, H, S, L, H]
  const MANIFEST: seq<Shape> := [W, T, T, T, S, L, L, H]

  /** The message some bytes hold: the label says which, and each field is named by its place. */
  function ReadMessage(b: seq<Byte>): Option<Message> {
    var first := TakeBytes(b);
    if first.None? then None
    else
      var (name, rest) := first.value;
      if name == Ascii("OMINULL-ENDPOINT-GRANT-V2") then ReadV2(rest)
      else if name == Ascii("OMINULL-ENDPOINT-GRANT-V3") then ReadV3(rest)
      else if name == Ascii("OMINULL-ACTION-PROOF-V2") then ReadProof(rest)
      else if name == Ascii("OMINULL-CAPABILITY-MANIFEST-V1") then ReadManifest(rest)
      else None
  }

  function ReadV2(b: seq<Byte>): Option<Message> {
    var r := TakeFields(b, V2);
    if r.None? then None
    else
      var f := r.value;
      Some(GrantV2(version := NumberOf(f[0]), grantId := BytesOf(f[1]), tenant := BytesOf(f[2]), endpoint := BytesOf(f[3]), action := BytesOf(f[4]),
                   digest := BytesOf(f[5]), operator := BytesOf(f[6]), session := BytesOf(f[7]), issued := TimeOf(f[8]), expires := TimeOf(f[9]),
                   nonce := BytesOf(f[10]), signer := BytesOf(f[11])))
  }

  /** As version 2, with the job between the nonce and the signer. */
  function ReadV3(b: seq<Byte>): Option<Message> {
    var r := TakeFields(b, V3);
    if r.None? || NumberOf(r.value[0]) != 3 then None
    else
      var f := r.value;
      Some(GrantV3(grantId := BytesOf(f[1]), tenant := BytesOf(f[2]), endpoint := BytesOf(f[3]), action := BytesOf(f[4]),
                   digest := BytesOf(f[5]), operator := BytesOf(f[6]), session := BytesOf(f[7]), issued := TimeOf(f[8]), expires := TimeOf(f[9]),
                   nonce := BytesOf(f[10]), job := BytesOf(f[11]), signer := BytesOf(f[12])))
  }

  function ReadProof(b: seq<Byte>): Option<Message> {
    var r := TakeFields(b, PROOF);
    if r.None? then None
    else
      var f := r.value;
      Some(Proof(version := NumberOf(f[0]), session := BytesOf(f[1]), tenant := BytesOf(f[2]), action := BytesOf(f[3]), digest := BytesOf(f[4]),
                 targets := ItemsOf(f[5]), timestamp := TimeOf(f[6]), nonce := BytesOf(f[7])))
  }

  function ReadManifest(b: seq<Byte>): Option<Message> {
    var r := TakeFields(b, MANIFEST);
    if r.None? || NumberOf(r.value[0]) != 1 then None
    else
      var f := r.value;
      Some(Manifest(tenant := BytesOf(f[1]), endpoint := BytesOf(f[2]), profile := BytesOf(f[3]), capabilities := ItemsOf(f[4]),
                    number := TimeOf(f[5]), issued := TimeOf(f[6]), signer := BytesOf(f[7])))
  }

  // ---- what was written is read ----

  lemma {:induction false} ValueOfBigEndian(n: nat, k: nat)
    requires n < Bound(k)
    ensures ValueOf(BigEndian(n, k)) == n
  {
    if k > 0 {
      var high := BigEndian(n / 256, k - 1);
      assert (high + [n % 256])[..k - 1] == high;
      ValueOfBigEndian(n / 256, k - 1);
    }
  }

  lemma TakesNumber(n: nat, k: nat, rest: seq<Byte>)
    requires n < Bound(k)
    ensures TakeNumber(BigEndian(n, k) + rest, k) == Some((n, rest))
  {
    hide BigEndian, ValueOf;
    var b := BigEndian(n, k) + rest;
    assert b[..k] == BigEndian(n, k) && b[k..] == rest;
    ValueOfBigEndian(n, k);
  }

  lemma TakesBytes(s: seq<Byte>, rest: seq<Byte>)
    requires |s| < WORD
    ensures TakeBytes(Prefixed(s) + rest) == Some((s, rest))
  {
    hide BigEndian, TakeNumber, Bound;
    Bounds();
    assert Prefixed(s) + rest == BigEndian(|s|, 4) + (s + rest);
    TakesNumber(|s|, 4, s + rest);
    assert (s + rest)[..|s|] == s && (s + rest)[|s|..] == rest;
  }

  lemma {:induction false} TakesItems(items: seq<seq<Byte>>, rest: seq<Byte>)
    requires |Items(items)| < WORD
    ensures TakeItems(Items(items) + rest, |items|) == Some((items, rest))
  {
    hide TakeBytes;
    if items == [] {
      assert Items(items) + rest == rest;
    } else {
      var tail := Items(items[1..]) + rest;
      assert Items(items) + rest == Prefixed(items[0]) + tail;
      TakesBytes(items[0], tail);
      TakesItems(items[1..], rest);
      assert [items[0]] + items[1..] == items;
    }
  }

  lemma TakesField(f: Field, shape: Shape, rest: seq<Byte>)
    requires Shaped(shape, f) && InRange(f) && |Encoded(f)| < WORD
    ensures TakeField(Encoded(f) + rest, shape) == Some((Normal(f), rest))
  {
    hide BigEndian, TakeNumber, TakeBytes, TakeItems, Bound, Items, Prefixed;
    Bounds();
    match f
    case Word(n) => TakesNumber(n % WORD, 4, rest);
    case Long(v) =>
      TakesNumber(v % LONG, 8, rest);
      assert v < 0 ==> v % LONG == v + LONG;
    case Text(s) => Short(s); TakesBytes(s, rest);
    case Hex(s) => Short(Lowered(s)); TakesBytes(Lowered(s), rest);
    case List(items) =>
      ItemsLength(items);
      assert Encoded(f) + rest == BigEndian(|items| % WORD, 4) + (Items(items) + rest);
      TakesNumber(|items| % WORD, 4, Items(items) + rest);
      TakesItems(items, rest);
  }

  lemma Short(s: seq<Byte>)
    ensures |s| <= |Prefixed(s)|
  {
  }

  ghost predicate AllShaped(shapes: seq<Shape>, fs: seq<Field>) {
    |shapes| == |fs| && forall i :: 0 <= i < |fs| ==> Shaped(shapes[i], fs[i]) && InRange(fs[i])
  }

  lemma {:induction false} TakesFields(fs: seq<Field>, shapes: seq<Shape>)
    requires AllShaped(shapes, fs) && |Encoding(fs)| < WORD
    ensures TakeFields(Encoding(fs), shapes) == Some(NormalAll(fs))
  {
    hide Encoded, Normal, InRange, Shaped, TakeField;
    if fs != [] {
      TakesField(fs[0], shapes[0], Encoding(fs[1..]));
      TakesFields(fs[1..], shapes[1..]);
      assert [Normal(fs[0])] + NormalAll(fs[1..]) == NormalAll(fs);
    }
  }

  function ShapesOf(m: Message): seq<Shape> {
    if m.GrantV2? then V2 else if m.GrantV3? then V3 else if m.Proof? then PROOF else MANIFEST
  }

  lemma BodyShaped(m: Message)
    requires Typed(m)
    ensures AllShaped(ShapesOf(m), Body(m))
  {
    hide InRange;
    var fs, shapes := Body(m), ShapesOf(m);
    assert |fs| == |shapes|;
    forall i | 0 <= i < |fs|
      ensures Shaped(shapes[i], fs[i])
    {
    }
  }

  lemma LabelTexts()
    ensures var a, b, c := Ascii("OMINULL-ENDPOINT-GRANT-V2"), Ascii("OMINULL-ENDPOINT-GRANT-V3"), Ascii("OMINULL-ACTION-PROOF-V2");
            var d := Ascii("OMINULL-CAPABILITY-MANIFEST-V1");
            a != b && a != c && a != d && b != c && b != d && c != d
  {
    var a, b := Ascii("OMINULL-ENDPOINT-GRANT-V2"), Ascii("OMINULL-ENDPOINT-GRANT-V3");
    assert a[24] == 50 && b[24] == 51;
  }

  lemma ReadsLabel(m: Message, rest: seq<Byte>)
    ensures ReadMessage(Prefixed(Ascii(Label(m))) + rest)
         == match m {
              case GrantV2(_, _, _, _, _, _, _, _, _, _, _, _) => ReadV2(rest)
              case GrantV3(_, _, _, _, _, _, _, _, _, _, _, _) => ReadV3(rest)
              case Proof(_, _, _, _, _, _, _, _) => ReadProof(rest)
              case Manifest(_, _, _, _, _, _, _) => ReadManifest(rest)
            }
  {
    hide Prefixed, Ascii, TakeBytes, ReadV2, ReadV3, ReadProof, ReadManifest;
    LabelMarks(m);
    LabelTexts();
    TakesBytes(Ascii(Label(m)), rest);
  }

  /** The bytes of a message read back as the message, each field in its name, with hex
    digits in lower case. */
  lemma ReadsBack(m: Message)
    requires Typed(m) && |Encoding(Fields(m))| < WORD
    ensures ReadMessage(Encoding(Fields(m))) == Some(Folded(m))
  {
    FirstField(m);
    var rest := Encoding(Body(m));
    Short(Ascii(Label(m)));
    ReadsLabel(m, rest);
    BodyShaped(m);
    TakesFields(Body(m), ShapesOf(m));
    hide Encoding, TakeFields, Lowered, NormalAll, Typed, Ascii, ReadMessage, Prefixed;
    FoldedFields(m);
    NamedFields(m, rest);
  }

  lemma NamedFields(m: Message, rest: seq<Byte>)
    requires TakeFields(rest, ShapesOf(m)) == Some(Body(Folded(m)))
    ensures m.GrantV2? ==> ReadV2(rest) == Some(Folded(m))
    ensures m.GrantV3? ==> ReadV3(rest) == Some(Folded(m))
    ensures m.Proof? ==> ReadProof(rest) == Some(Folded(m))
    ensures m.Manifest? ==> ReadManifest(rest) == Some(Folded(m))
  {
    hide TakeFields, Lowered;
  }
}
