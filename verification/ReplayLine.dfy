/** What the line a grant writes to the replay cache is read back as, and so for which
  ids and nonces it guards, and for how long. */
module ReplayLine {
  import opened Bits
  import opened TextLines
  import opened Replay

  // ---- what a line reads back as ----

  /** An id or nonce the line format can hold: the widths are those of the fields. */
  predicate CleanId(a: Attempt) {
    Word(a.id) && |a.id| <= ID_WIDTH
  }

  predicate CleanNonce(a: Attempt) {
    a.nonce == "" || (Word(a.nonce) && |a.nonce| <= NONCE_WIDTH)
  }

  function EntryOf(a: Attempt): Entry {
    Entry(a.id, if a.nonce != "" then a.nonce else "-", a.expires)
  }

  lemma ScannedDecimal(n: int)
    ensures Scanned(" " + Decimal(n)) == n
  {
    var t, d := Decimal(n), Digits(if n < 0 then -n else n);
    assert (" " + t)[1..] == t;
    assert d[0] in d;
    assert SkipSpaces(" " + t) == t;
    AllDigits(d);
    ValueOfDigits(if n < 0 then -n else n);
    assert d[..|d|] == d;
    if n < 0 {
      assert t[0] == '-' && t[1..] == d;
    } else {
      assert t == d && t[0] != '-' && t[0] != '+';
    }
  }

  lemma AllDigits(d: string)
    requires forall c :: c in d ==> '0' <= c <= '9'
    ensures Run(d, c => !Digit(c)) == |d|
  {
    forall i | 0 <= i < |d|
      ensures Digit(d[i])
    {
      assert d[i] in d;
    }
  }

  /** No line at all reads as an id with white space, or a nonce with any. */
  lemma ParsedClean(line: string)
    requires Parsed(line).Some?
    ensures var e := Parsed(line).value;
            Word(e.id) && |e.id| <= ID_WIDTH && (e.nonce == "" || Word(e.nonce)) && |e.nonce| <= NONCE_WIDTH
  {
    FieldClean(line, ID_WIDTH);
    FieldClean(Field(line, ID_WIDTH).1, NONCE_WIDTH);
  }

  lemma FieldClean(text: string, width: nat)
    ensures var w := Field(text, width).0; |w| <= width && forall c :: c in w ==> !Space(c)
  {
  }

  // ---- what any line reads as, by its words ----

  /** What a line of these words is read as: the first two as id and nonce, and the
    number at the front of the third as the expiry. */
  function FromWords(words: seq<string>): Entry
    requires words != []
  {
    Entry(words[0], if |words| > 1 then words[1] else "", if |words| > 2 then Scanned(words[2]) else 0)
  }

  lemma {:induction false} Skipped(text: string)
    ensures var t := SkipSpaces(text); Words(t) == Words(text) && (t == [] <==> Words(text) == []) && (t != [] ==> !Space(t[0]))
  {
    if text != [] && Space(text[0]) {
      Skipped(text[1..]);
    }
  }

  lemma FieldWords(text: string, width: nat)
    requires Words(text) != [] ==> |Words(text)[0]| <= width
    ensures var (w, rest) := Field(text, width);
            if Words(text) == [] then w == [] && Words(rest) == [] else w == Words(text)[0] && Words(rest) == Words(text)[1..]
  {
    hide SkipSpaces;
    Skipped(text);
  }

  lemma ScannedWord(text: string)
    ensures Scanned(text) == if Words(text) == [] then 0 else Scanned(Words(text)[0])
  {
    hide SkipSpaces, Value;
    Skipped(text);
    var t := SkipSpaces(text);
    if t != [] {
      var n := TextLines.Run(t, c => Space(c));
      var w := t[..n];
      assert Words(text)[0] == w;
      NotSpaced(w);
      var signed := t[0] == '-' || t[0] == '+';
      var u, v := if signed then t[1..] else t, if signed then w[1..] else w;
      assert u[..|v|] == v && (|v| < |u| ==> u[|v|] == t[n]);
      SameNumber(u, v);
    } else {
      assert t[..0] == t;
      NoValue();
    }
  }

  lemma NoValue()
    ensures Value("").None?
  {
  }

  lemma NotSpaced(w: string)
    requires w != [] && !Space(w[0])
    ensures SkipSpaces(w) == w
  {
  }

  lemma SameNumber(u: string, v: string)
    requires |v| <= |u| && u[..|v|] == v && (|v| < |u| ==> Space(u[|v|]))
    ensures u[..TextLines.Run(u, c => !Digit(c))] == v[..TextLines.Run(v, c => !Digit(c))]
  {
    var n, m := TextLines.Run(u, c => !Digit(c)), TextLines.Run(v, c => !Digit(c));
    hide TextLines.Run;
    assert n <= |v| by { assert |v| < |u| ==> !Digit(u[|v|]); }
    assert m < |v| ==> v[m] == u[..|v|][m] == u[m];
    assert n < |v| ==> v[n] == u[..|v|][n] == u[n];
    assert n == m && u[..n] == u[..|v|][..n];
  }

  lemma ParsedWords(line: string)
    requires var w := Words(line); w != [] && |w[0]| <= ID_WIDTH && (|w| > 1 ==> |w[1]| <= NONCE_WIDTH)
    ensures Parsed(line) == Some(FromWords(Words(line)))
  {
    hide Field, Scanned, Words;
    var w := Words(line);
    WordsFull(line);
    FieldWords(line, ID_WIDTH);
    var rest := Field(line, ID_WIDTH).1;
    FieldWords(rest, NONCE_WIDTH);
    ScannedWord(Field(rest, NONCE_WIDTH).1);
    assert |w| > 1 ==> w[1] != [] && w[1..][0] == w[1];
    assert |w| > 2 ==> w[1..][1..][0] == w[2];
  }

  lemma WordsFull(line: string)
    ensures forall i :: 0 <= i < |Words(line)| ==> Word(Words(line)[i])
  {
    hide Pieces;
    forall i | 0 <= i < |Words(line)|
      ensures Word(Words(line)[i])
    {
      PiecesClean(line, c => Space(c), i);
      PiecesFull(line, c => Space(c), i);
    }
  }

  // ---- what a grant's line reads as ----

  function NonceText(a: Attempt): string {
    if a.nonce != "" then a.nonce else "-"
  }

  function LineWords(a: Attempt): seq<string> {
    Words(a.id) + Words(NonceText(a)) + [Decimal(a.expires)]
  }

  /** What the words of its id, nonce and expiry read as once they are in one line. */
  function Reread(a: Attempt): Entry {
    FromWords(LineWords(a))
  }

  /** The widths of the fields: an id has at most 63 characters, a nonce at most 64,
    and an expiry is 64 bits wide. */
  predicate Held(a: Attempt) {
    |a.id| <= ID_WIDTH && |a.nonce| <= NONCE_WIDTH && -0x8000_0000_0000_0000 <= a.expires < 0x8000_0000_0000_0000
  }

  predicate Unbroken(a: Attempt) {
    OneLine(a.id) && OneLine(a.nonce)
  }

  lemma WordsOfLine(a: Attempt)
    ensures Words(Line(a)) == LineWords(a)
  {
    hide Decimal, Pieces;
    var id, nonce, last := a.id, NonceText(a), Decimal(a.expires);
    assert Line(a) == (id + " " + nonce) + [' '] + last && id + " " + nonce == id + [' '] + nonce;
    PiecesSplit(id + " " + nonce, ' ', last, c => Space(c));
    PiecesSplit(id, ' ', nonce, c => Space(c));
    NumberOfDecimal(a.expires);
    WordsOfJoined([last]);
  }

  function Ten(k: nat): nat {
    if k == 0 then 1 else 10 * Ten(k - 1)
  }

  lemma {:induction false} DigitsFew(n: nat, k: nat)
    requires k > 0 && n < Ten(k)
    ensures |Digits(n)| <= k
  {
    if n >= 10 {
      assert Ten(1) == 10 * Ten(0);
      DigitsFew(n / 10, k - 1);
    }
  }

  lemma DecimalFew(a: Attempt)
    requires Held(a)
    ensures |Decimal(a.expires)| <= 20
  {
    var n := if a.expires < 0 then -a.expires else a.expires;
    assert Ten(5) == 100000;
    assert Ten(10) == 10000000000;
    assert Ten(15) == 1000000000000000;
    assert Ten(19) == 10000000000000000000;
    hide Ten, Digits;
    DigitsFew(n, 19);
  }

  lemma {:induction false} WordsShort(text: string, i: nat)
    requires i < |Words(text)|
    ensures |Words(text)[i]| <= |text|
    decreases |text|
  {
    if Space(text[0]) {
      WordsShort(text[1..], i);
    } else if i > 0 {
      WordsShort(text[TextLines.Run(text, c => Space(c))..], i - 1);
    }
  }

  lemma LineFits(a: Attempt)
    requires Held(a) && (Words(a.id) != [] || |a.nonce| <= ID_WIDTH)
    ensures var w := LineWords(a); w != [] && |w[0]| <= ID_WIDTH && (|w| > 1 ==> |w[1]| <= NONCE_WIDTH)
  {
    hide Words, Decimal;
    DecimalFew(a);
    forall i | 0 <= i < |Words(a.id)| { WordsShort(a.id, i); }
    forall i | 0 <= i < |Words(NonceText(a))| { WordsShort(NonceText(a), i); }
  }

  lemma Rereads(a: Attempt)
    requires Held(a) && Unbroken(a) && (Words(a.id) != [] || |a.nonce| <= ID_WIDTH)
    ensures Parsed(Line(a)) == Some(Reread(a))
  {
    hide Words, Parsed, Line, LineWords;
    WordsOfLine(a);
    LineFits(a);
    ParsedWords(Line(a));
  }

  lemma OneWord(w: string)
    requires Word(w)
    ensures Words(w) == [w]
  {
    WordsOfJoined([w]);
  }

  /** A first word one longer than its field leaves a single character for the next. */
  lemma FieldOver(text: string, width: nat, next: nat)
    requires Words(text) != [] && |Words(text)[0]| == width + 1 && next > 0
    ensures |Field(text, width).0| == width && |Field(Field(text, width).1, next).0| == 1
  {
    hide SkipSpaces;
    Skipped(text);
    var t := SkipSpaces(text);
    var n := TextLines.Run(t, c => Space(c));
    assert Words(text)[0] == t[..n] && n == width + 1;
    var rest := t[width..];
    assert rest[0] == t[width] && (|rest| > 1 ==> rest[1] == t[n]);
    NotSpaced(rest);
    assert TextLines.Run(rest, c => Space(c)) == 1;
  }

  lemma RereadIsWords(a: Attempt)
    ensures var r := Reread(a); Word(r.id) && (r.nonce == "" || Word(r.nonce)) && (r.id == a.id <==> Word(a.id))
  {
    hide Words, Decimal, Scanned;
    WordsFull(a.id);
    WordsFull(NonceText(a));
    NumberOfDecimal(a.expires);
    if Word(a.id) {
      OneWord(a.id);
    }
  }

  /** Of a grant without line breaks, the line it writes guards the id and the nonce
    exactly if its words read as that id and that nonce, for as long as they say. */
  lemma RereadsAs(a: Attempt, now: int)
    requires Held(a) && Unbroken(a) && a.id != ""
    ensures FileLines(Line(a) + "\n") == [Line(a)]
    ensures GuardsAs(Line(a), a, now) == (Word(a.id) && Keeps(Reread(a).expires, now),
                                          a.nonce != "" && Reread(a).nonce == a.nonce && Keeps(Reread(a).expires, now))
  {
    hide FileLines, Words, Parsed, Line, Reread;
    OneLineEach(a);
    RereadIsWords(a);
    if Words(a.id) != [] || |a.nonce| <= ID_WIDTH {
      Rereads(a);
    } else {
      BlankLongNonce(a);
    }
  }

  lemma BlankLongNonce(a: Attempt)
    requires Held(a) && Unbroken(a) && a.id != "" && Words(a.id) == [] && |a.nonce| == NONCE_WIDTH
    ensures !Word(a.id) && Reread(a).nonce != a.nonce
    ensures Parsed(Line(a)).Some? ==> Parsed(Line(a)).value.id != a.id && Parsed(Line(a)).value.nonce != a.nonce
  {
    hide Words, Line, Decimal, Field, Scanned;
    if Word(a.id) {
      OneWord(a.id);
    }
    RereadIsWords(a);
    if Parsed(Line(a)).Some? {
      ParsedClean(Line(a));
    }
    DecimalFew(a);
    if Word(a.nonce) {
      OneWord(a.nonce);
      WordsOfLine(a);
      FieldOver(Line(a), ID_WIDTH, NONCE_WIDTH);
    }
  }

  lemma CleanReread(a: Attempt)
    requires CleanId(a) && CleanNonce(a)
    ensures Reread(a) == EntryOf(a)
  {
    hide Words, Decimal, Scanned;
    OneWord(a.id);
    OneWord(NonceText(a)) by { assert Word("-"); }
    ScannedOfDecimal(a.expires);
  }

  /** A clean grant is one line, and reads back as it was written. */
  lemma ReadsBack(a: Attempt)
    requires CleanId(a) && CleanNonce(a)
    ensures FileLines(Line(a) + "\n") == [Line(a)] && Parsed(Line(a)) == Some(EntryOf(a))
  {
    hide Words, Decimal, Scanned, FileLines, Parsed, Line;
    OneLineEach(a);
    WordsOfLine(a);
    OneWord(a.id);
    OneWord(NonceText(a)) by { assert Word("-"); }
    CleanReread(a);
    ParsedWords(Line(a));
  }

  lemma ScannedOfDecimal(n: int)
    ensures Scanned(Decimal(n)) == n
  {
    hide Scanned, Decimal, Words;
    ScannedDecimal(n);
    ScannedWord(" " + Decimal(n));
    NumberOfDecimal(n);
    BlankFirst(Decimal(n));
  }

  lemma BlankFirst(w: string)
    requires Word(w)
    ensures Words(" " + w) == [w]
  {
    OneWord(w);
    assert (" " + w)[1..] == w;
  }

  lemma OneLineEach(a: Attempt)
    requires Unbroken(a)
    ensures FileLines(Line(a) + "\n") == [Line(a)]
  {
    hide FileLines, Decimal;
    NumberOfDecimal(a.expires);
    assert OneLine(Line(a));
    Replay.FirstLine(Line(a), "");
    assert Line(a) + "\n" + "" == Line(a) + "\n";
    NoLines(0);
  }

  // ---- what a recorded grant guards ----

  /** Whether a line guards the id and the nonce of a grant, at a time. */
  function GuardsAs(line: string, a: Attempt, now: int): (bool, bool) {
    (Live(line, now) && Parsed(line).value.id == a.id, a.nonce != "" && Live(line, now) && Parsed(line).value.nonce == a.nonce)
  }

  /** One of the lines a grant writes guards its id. */
  ghost predicate GuardsId(a: Attempt, now: int) {
    exists l :: l in FileLines(Line(a) + "\n") && GuardsAs(l, a, now).0
  }

  ghost predicate GuardsNonce(a: Attempt, now: int) {
    exists l :: l in FileLines(Line(a) + "\n") && GuardsAs(l, a, now).1
  }

  lemma OneGuards(a: Attempt, now: int)
    requires FileLines(Line(a) + "\n") == [Line(a)]
    ensures (GuardsId(a, now), GuardsNonce(a, now)) == GuardsAs(Line(a), a, now)
  {
    hide FileLines, Line, GuardsAs;
    assert Line(a) in [Line(a)];
  }

  /** Nothing guards an id or a nonce that is not a word. */
  lemma OnlyWords(a: Attempt, now: int)
    ensures GuardsId(a, now) ==> CleanId(a)
    ensures GuardsNonce(a, now) ==> CleanNonce(a)
  {
    hide Parsed, FileLines, Line;
    if GuardsId(a, now) {
      var l :| l in FileLines(Line(a) + "\n") && GuardsAs(l, a, now).0;
      ParsedClean(l);
    }
    if GuardsNonce(a, now) {
      var l :| l in FileLines(Line(a) + "\n") && GuardsAs(l, a, now).1;
      ParsedClean(l);
    }
  }

  /** While it is to be kept, a recorded grant guards its id and its nonce if and
    only if both are words: for every id, nonce and expiry. */
  lemma GuardedExactly(a: Attempt, now: int)
    requires Keeps(a.expires, now)
    ensures GuardsId(a, now) && (a.nonce != "" ==> GuardsNonce(a, now)) <==> CleanId(a) && CleanNonce(a)
  {
    hide Parsed, FileLines, Line;
    OnlyWords(a, now);
    if CleanId(a) && CleanNonce(a) {
      ReadsBack(a);
      OneGuards(a, now);
    }
  }

  /** A recorded grant guards its id only if that is a word, and for as long as the
    expiry its words read as says: its own if the nonce is a word too, or there is
    none. */
  lemma IdGuarded(a: Attempt, now: int)
    requires Held(a)
    ensures GuardsId(a, now) ==> Word(a.id)
    ensures OneLine(a.nonce) ==> (GuardsId(a, now) <==> Word(a.id) && Keeps(Reread(a).expires, now))
    ensures CleanNonce(a) ==> (GuardsId(a, now) <==> CleanId(a) && Keeps(a.expires, now))
  {
    hide Parsed, FileLines, Line, Reread, GuardsId, GuardsAs, Keeps;
    OnlyWords(a, now);
    if Word(a.id) && OneLine(a.nonce) {
      RereadsAs(a, now);
      OneGuards(a, now);
      if CleanNonce(a) {
        CleanReread(a);
      }
    }
  }

  /** And its nonce, if it has one, only if that is the second of its words. */
  lemma NonceGuarded(a: Attempt, now: int)
    requires Held(a) && a.id != "" && a.nonce != ""
    ensures GuardsNonce(a, now) ==> Word(a.nonce)
    ensures Unbroken(a) ==> (GuardsNonce(a, now) <==> Reread(a).nonce == a.nonce && Keeps(Reread(a).expires, now))
    ensures CleanId(a) ==> (GuardsNonce(a, now) <==> CleanNonce(a) && Keeps(a.expires, now))
  {
    hide Parsed, FileLines, Line, Reread, GuardsNonce, GuardsAs, Keeps;
    OnlyWords(a, now);
    if Unbroken(a) {
      RereadsAs(a, now);
      OneGuards(a, now);
      if CleanId(a) && CleanNonce(a) {
        CleanReread(a);
      }
    }
  }
}
