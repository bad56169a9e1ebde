/** Text as the agent's state files use it: decimal numbers, and lines of words. */
module TextLines {
  import opened Bits

  // ---- numbers ----

  function Digits(n: nat): (r: string)
    ensures r != [] && forall c :: c in r ==> '0' <= c <= '9'
  {
    var d := (48 + n % 10) as char;
    if n < 10 then [d] else Digits(n / 10) + [d]
  }

  function Decimal(n: int): string {
    if n < 0 then "-" + Digits(-n) else Digits(n)
  }

  function Value(w: string): Option<nat> {
    if w == [] then None
    else
      var c := w[|w| - 1];
      if !('0' <= c <= '9') then None
      else if |w| == 1 then Some(c as int - 48)
      else match Value(w[..|w| - 1]) case None => None case Some(v) => Some(v * 10 + (c as int - 48))
  }

  function Number(w: string): Option<int> {
    if w != [] && w[0] == '-' then
      match Value(w[1..]) case None => None case Some(v) => Some(0 - v as int)
    else
      match Value(w) case None => None case Some(v) => Some(v)
  }

  lemma {:induction false} ValueOfDigits(n: nat)
    ensures Value(Digits(n)) == Some(n)
  {
    if n >= 10 {
      ValueOfDigits(n / 10);
      var d := (48 + n % 10) as char;
      assert (Digits(n / 10) + [d])[..|Digits(n / 10)|] == Digits(n / 10);
    }
  }

  lemma NumberOfDecimal(n: int)
    ensures Number(Decimal(n)) == Some(n) && Word(Decimal(n))
  {
    hide Value;
    if n < 0 {
      ValueOfDigits(-n);
      assert Decimal(n)[0] == '-' && Decimal(n)[1..] == Digits(-n);
    } else {
      ValueOfDigits(n);
      assert Decimal(n)[0] in Digits(n);
    }
    hide Digits;
    forall c | c in Decimal(n)
      ensures !Space(c)
    {
      assert c == '-' || '0' <= c <= '9';
    }
  }

  // ---- lines and words ----

  predicate Newline(c: char) {
    c == '\n' || c == '\r'
  }

  predicate Space(c: char) {
    c == ' ' || c == '\t' || c == '\U{0b}' || c == '\U{0c}' || Newline(c)
  }

  predicate Word(w: string) {
    w != [] && forall c :: c in w ==> !Space(c)
  }

  /** The pieces between separators, empty ones left out. */
  function Pieces(text: string, stop: char -> bool): seq<string> {
    if text == [] then []
    else if stop(text[0]) then Pieces(text[1..], stop)
    else
      var n := Run(text, stop);
      [text[..n]] + Pieces(text[n..], stop)
  }

  /** How far to the next separator. */
  function Run(text: string, stop: char -> bool): (n: nat)
    ensures n <= |text| && (n < |text| ==> stop(text[n]))
    ensures forall i :: 0 <= i < n ==> !stop(text[i])
    ensures text != [] && !stop(text[0]) ==> n > 0
  {
    if text == [] || stop(text[0]) then 0 else 1 + Run(text[1..], stop)
  }

  function Words(line: string): seq<string> {
    Pieces(line, c => Space(c))
  }

  function Lines(text: string): seq<string> {
    Pieces(text, c => Newline(c))
  }

  /** A line of words, with a space after each but the last. */
  function Joined(words: seq<string>): string {
    if words == [] then [] else if |words| == 1 then words[0] else words[0] + " " + Joined(words[1..])
  }

  function Text(lines: seq<seq<string>>): string {
    if lines == [] then [] else Joined(lines[0]) + "\n" + Text(lines[1..])
  }

  ghost predicate AllWords(words: seq<string>) {
    forall i :: 0 <= i < |words| ==> Word(words[i])
  }

  lemma PiecesOne(w: string, rest: string, stop: char -> bool)
    requires w != [] && (forall c :: c in w ==> !stop(c)) && (rest == [] || stop(rest[0]))
    ensures Pieces(w + rest, stop) == [w] + Pieces(rest, stop)
  {
    var text := w + rest;
    forall i | 0 <= i < |w|
      ensures text[i] == w[i] && !stop(text[i])
    {
      assert w[i] in w;
    }
    assert |w| < |text| ==> text[|w|] == rest[0];
    assert Run(text, stop) == |w|;
    assert text[..|w|] == w && text[|w|..] == rest;
  }

  lemma {:induction false} WordsOfJoined(words: seq<string>)
    requires AllWords(words)
    ensures Words(Joined(words)) == words
  {
    if words != [] {
      var rest := if |words| == 1 then [] else " " + Joined(words[1..]);
      assert words[0] + " " + Joined(words[1..]) == words[0] + (" " + Joined(words[1..]));
      assert words[0] + [] == words[0];
      PiecesOne(words[0], rest, c => Space(c));
      if |words| > 1 {
        WordsOfJoined(words[1..]);
        assert (" " + Joined(words[1..]))[1..] == Joined(words[1..]);
      }
    }
  }

  lemma {:induction false} JoinedOneLine(words: seq<string>)
    requires AllWords(words)
    ensures forall c :: c in Joined(words) ==> !Newline(c)
    ensures words != [] ==> Joined(words) != []
  {
    if |words| > 1 {
      JoinedOneLine(words[1..]);
    }
  }

  ghost predicate AllLines(lines: seq<seq<string>>) {
    forall i :: 0 <= i < |lines| ==> lines[i] != [] && AllWords(lines[i])
  }

  /** Reading the text back gives each line's words. */
  function WordLines(text: string): seq<seq<string>> {
    var ls := Lines(text);
    seq(|ls|, i requires 0 <= i < |ls| => Words(ls[i]))
  }

  lemma FirstLine(words: seq<string>, text: string)
    requires words != [] && AllWords(words)
    ensures Lines(Joined(words) + "\n" + text) == [Joined(words)] + Lines(text)
  {
    hide Joined, Words;
    var first, rest := Joined(words), "\n" + text;
    JoinedOneLine(words);
    assert first + "\n" + text == first + rest;
    PiecesOne(first, rest, c => Newline(c));
    assert rest[1..] == text;
  }

  lemma FirstLineOf(first: string, rest: string)
    requires first != [] && (forall c :: c in first ==> !Newline(c)) && (rest == [] || Newline(rest[0]))
    ensures WordLines(first + rest) == [Words(first)] + WordLines(rest)
  {
    hide Words;
    PiecesOne(first, rest, c => Newline(c));
  }

  lemma {:induction false} LinesOfText(lines: seq<seq<string>>)
    requires AllLines(lines)
    ensures WordLines(Text(lines)) == lines
  {
    hide Joined, Words, Lines, Pieces;
    if lines != [] {
      FirstLine(lines[0], Text(lines[1..]));
      WordsOfJoined(lines[0]);
      LinesOfText(lines[1..]);
    }
    EmptyText();
  }

  lemma EmptyText()
    ensures Lines([]) == []
  {
  }

  /** A separator parts the pieces, whatever is on either side of it. */
  lemma {:induction false} PiecesSplit(a: string, c: char, b: string, stop: char -> bool)
    requires stop(c)
    ensures Pieces(a + [c] + b, stop) == Pieces(a, stop) + Pieces(b, stop)
    decreases |a|
  {
    var text := a + [c] + b;
    if a == [] {
      assert text[1..] == b;
    } else if stop(a[0]) {
      assert text[1..] == a[1..] + [c] + b;
      PiecesSplit(a[1..], c, b, stop);
    } else {
      var n := Run(a, stop);
      RunSame(a, [c] + b, stop);
      assert text == a + ([c] + b);
      assert text[..n] == a[..n] && text[n..] == a[n..] + [c] + b;
      PiecesSplit(a[n..], c, b, stop);
      SeqAssoc([a[..n]], Pieces(a[n..], stop), Pieces(b, stop));
    }
  }

  lemma RunSame(a: string, rest: string, stop: char -> bool)
    requires rest != [] && stop(rest[0])
    ensures Run(a + rest, stop) == Run(a, stop)
  {
    var n, m := Run(a, stop), Run(a + rest, stop);
    assert forall i :: 0 <= i < n ==> !stop((a + rest)[i]);
    assert stop((a + rest)[n]);
  }

  lemma LinesSplit(a: string, b: string)
    ensures WordLines(a + "\n" + b) == WordLines(a) + WordLines(b)
  {
    hide Words;
    PiecesSplit(a, '\n', b, c => Newline(c));
  }

  lemma WordsSplit(words: seq<string>, rest: string)
    requires AllWords(words)
    ensures Words(Joined(words) + " " + rest) == words + Words(rest)
  {
    hide Joined;
    PiecesSplit(Joined(words), ' ', rest, c => Space(c));
    WordsOfJoined(words);
  }

  lemma {:induction false} JoinedSnoc(words: seq<string>, w: string)
    requires words != []
    ensures Joined(words + [w]) == Joined(words) + " " + w
  {
    assert (words + [w])[1..] == words[1..] + [w];
    if |words| > 1 {
      JoinedSnoc(words[1..], w);
    } else {
      assert Joined([w]) == w;
    }
  }

  lemma {:induction false} PiecesClean(text: string, stop: char -> bool, i: nat)
    requires i < |Pieces(text, stop)|
    ensures forall c :: c in Pieces(text, stop)[i] ==> !stop(c)
    decreases |text|
  {
    if stop(text[0]) {
      PiecesClean(text[1..], stop, i);
    } else if i > 0 {
      PiecesClean(text[Run(text, stop)..], stop, i - 1);
    }
  }

  lemma {:induction false} PiecesFull(text: string, stop: char -> bool, i: nat)
    requires i < |Pieces(text, stop)|
    ensures Pieces(text, stop)[i] != []
    decreases |text|
  {
    if stop(text[0]) {
      PiecesFull(text[1..], stop, i);
    } else if i > 0 {
      PiecesFull(text[Run(text, stop)..], stop, i - 1);
    }
  }
}
