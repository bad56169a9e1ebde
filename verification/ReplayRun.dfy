/** The replay cache over whole runs: what is refused, for how long, and when a grant
  can be used a second time. */
module ReplayRun {
  import opened TextLines
  import opened Replay
  import opened ReplayLine

  // ---- whole runs ----

  ghost predicate InOrder(run: seq<Attempt>) {
    forall i, j :: 0 <= i < j < |run| ==> run[i].now <= run[j].now
  }

  ghost function After(run: seq<Attempt>): string {
    if run == [] then "" else Next(After(run[..|run| - 1]), run[|run| - 1])
  }

  ghost predicate AcceptedAt(run: seq<Attempt>, i: nat) {
    i < |run| && Accepts(After(run[..i]), run[i])
  }

  lemma AfterNext(run: seq<Attempt>, i: nat)
    requires i < |run|
    ensures After(run[..i + 1]) == Next(After(run[..i]), run[i])
  {
    assert run[..i + 1][..i] == run[..i];
  }

  /** A line of an accepted grant is in the file for as long as it guards. */
  lemma {:induction false} LineStays(run: seq<Attempt>, i: nat, j: nat, line: string)
    requires InOrder(run) && AcceptedAt(run, i) && i < j < |run| && line in FileLines(Line(run[i]) + "\n") && Live(line, run[j].now)
    ensures line in FileLines(After(run[..j]))
    decreases j
  {
    hide Parsed, Accepts, Next, After, FileLines, Line, LiveLines;
    var before := After(run[..j - 1]);
    AfterNext(run, j - 1);
    if j == i + 1 {
      NextLines(before, run[i]);
    } else {
      assert run[j - 1].now <= run[j].now;
      LineStays(run, i, j - 1, line);
      if Accepts(before, run[j - 1]) {
        NextLines(before, run[j - 1]);
      } else {
        Unchanged(before, run[j - 1]);
      }
    }
  }

  lemma Unchanged(file: string, a: Attempt)
    requires !Accepts(file, a)
    ensures Next(file, a) == file
  {
  }

  /** Whatever else is presented, of any id: while one of the lines an accepted
    grant wrote guards against an attempt, the attempt is refused. */
  lemma RefusedWhileGuarded(run: seq<Attempt>, i: nat, j: nat, line: string)
    requires InOrder(run) && AcceptedAt(run, i) && i < j < |run| && line in FileLines(Line(run[i]) + "\n") && Guards(line, run[j])
    ensures !AcceptedAt(run, j)
  {
    hide Parsed, After, FileLines, Line, LiveLines;
    LineStays(run, i, j, line);
  }

  /** In every run, once a grant whose id and nonce are words is accepted, its id and
    its nonce are refused at every later time before its expiry plus the grace. */
  lemma RefusedWhileKept(run: seq<Attempt>, i: nat, j: nat)
    requires InOrder(run) && AcceptedAt(run, i) && i < j < |run| && run[j].now < run[i].expires + 60
    requires CleanId(run[i]) && CleanNonce(run[i])
    requires run[j].id == run[i].id || (run[j].nonce != "" && run[j].nonce == run[i].nonce)
    ensures !AcceptedAt(run, j)
  {
    hide Parsed, After, FileLines, Line, Accepts;
    ReadsBack(run[i]);
    assert Line(run[i]) in FileLines(Line(run[i]) + "\n");
    RefusedWhileGuarded(run, i, j, Line(run[i]));
  }

  /** No line that still guards is dropped to make room. */
  lemma NothingDropped(file: string, a: Attempt, line: string)
    requires line in FileLines(file) && line !in FileLines(Next(file, a))
    ensures !Live(line, a.now)
  {
    hide Parsed, FileLines, Line, LiveLines, Accepts;
    if Accepts(file, a) {
      NextLines(file, a);
    } else {
      Unchanged(file, a);
    }
  }

  /** The file never holds more lines than the limit, in runs of grants without line
    breaks. */
  lemma {:induction false} Bounded(run: seq<Attempt>)
    requires forall i :: 0 <= i < |run| ==> Unbroken(run[i])
    ensures |FileLines(After(run))| <= 4096
  {
    hide FileLines, Line, LiveLines, Unbroken, Parsed;
    NoLines(0);
    if run != [] {
      var n := |run| - 1;
      Bounded(run[..n]);
      if Accepts(After(run[..n]), run[n]) {
        NextLines(After(run[..n]), run[n]);
        OneLineEach(run[n]);
      }
    }
  }

  /** A grant with an id that no line reads as, nor its nonce, is accepted while the
    file has fewer than 4096 lines. */
  lemma NewIsAccepted(file: string, a: Attempt)
    requires a.id != "" && a.completes && |FileLines(file)| < 4096
    requires forall l :: l in FileLines(file) && Parsed(l).Some? ==>
               Parsed(l).value.id != a.id && (a.nonce != "" ==> Parsed(l).value.nonce != a.nonce)
    ensures Accepts(file, a) && forall l :: l in FileLines(Line(a) + "\n") ==> l in FileLines(Next(file, a))
  {
    hide Parsed, FileLines, Line, LiveLines;
    NextLines(file, a);
  }

  // ---- against the verifier's window ----

  /** A grant still verifies at a time: the end of the window the verifier checks. */
  predicate Verifies(expires: int, now: int) {
    now <= expires + 60
  }

  /** Presented again while it verifies, an accepted grant whose id and nonce are
    words is refused, but for the one second at which it still verifies and its line
    no longer guards. */
  lemma AcceptedOnce(run: seq<Attempt>, i: nat, j: nat)
    requires InOrder(run) && AcceptedAt(run, i) && AcceptedAt(run, j) && i < j && CleanId(run[i]) && CleanNonce(run[i])
    requires run[j].id == run[i].id && run[j].expires == run[i].expires && Verifies(run[j].expires, run[j].now)
    ensures run[j].now == run[j].expires + 60
  {
    hide Accepts, After, Word;
    if run[j].now < run[i].expires + 60 {
      RefusedWhileKept(run, i, j);
    }
  }

  ghost function Twice(id: string, nonce: string, expires: int, first: int, second: int): seq<Attempt> {
    [Attempt(id, nonce, expires, first, true), Attempt(id, nonce, expires, second, true)]
  }

  /** Presented twice to an empty file, a grant is accepted the second time exactly
    when no line it wrote guards against it. */
  lemma SecondAttempt(id: string, nonce: string, expires: int, first: int, second: int)
    requires id != ""
    ensures var run := Twice(id, nonce, expires, first, second);
            && AcceptedAt(run, 0)
            && (AcceptedAt(run, 1) <==> !Replayed(FileLines(Line(run[0]) + "\n"), run[1]) && |LiveLines(FileLines(Line(run[0]) + "\n"), second)| < MAX_ENTRIES)
  {
    hide Parsed, FileLines, Line, LiveLines, Replayed;
    var run := Twice(id, nonce, expires, first, second);
    NoLines(first);
    assert run[..0] == [] && After(run[..0]) == "";
    NoneReplayed(run[0]);
    AfterNext(run, 0);
    NextLines("", run[0]);
    assert [] + FileLines(Line(run[0]) + "\n") == FileLines(Line(run[0]) + "\n");
  }

  lemma NoneReplayed(a: Attempt)
    ensures !Replayed([], a)
  {
  }

  /** Any grant is accepted the second time exactly when no line it wrote guards
    against it. For one of words that is exactly from its expiry plus the grace on;
    for one without line breaks, exactly when what its words read as does not match it
    or is no longer kept; for one without a nonce whose id is not a word, always. */
  lemma SecondUse(id: string, nonce: string, expires: int, first: int, second: int)
    requires id != "" && |id| <= ID_WIDTH && |nonce| <= NONCE_WIDTH
    ensures var run := Twice(id, nonce, expires, first, second);
            var a := run[0];
            && AcceptedAt(run, 0)
            && (AcceptedAt(run, 1) <==> !Replayed(FileLines(Line(a) + "\n"), run[1]))
            && (CleanId(a) && CleanNonce(a) ==>
                  && (AcceptedAt(run, 1) <==> second >= expires + 60)
                  && (AcceptedAt(run, 1) && Verifies(expires, second) <==> second == expires + 60))
            && (Held(a) && Unbroken(a) ==> (AcceptedAt(run, 1) <==> !(Matches(Reread(a), a) && Keeps(Reread(a).expires, second))))
            && (nonce == "" && !Word(id) ==> AcceptedAt(run, 1))
  {
    hide Parsed, FileLines, Line, LiveLines, AcceptedAt, Reread;
    var run := Twice(id, nonce, expires, first, second);
    var a := run[0];
    SecondAttempt(id, nonce, expires, first, second);
    FewLines(a);
    if CleanId(a) && CleanNonce(a) {
      ReadsBack(a);
      ReplayedBy(Line(a), run[1]);
    }
    if Held(a) && Unbroken(a) {
      RereadIsWords(a);
      RereadsAs(a, second);
      ReplayedBy(Line(a), run[1]);
      GuardsEither(Line(a), run[1], a, second);
    }
    if nonce == "" && !Word(id) {
      NoneGuards(a, run[1]);
    }
  }

  lemma GuardsEither(line: string, b: Attempt, a: Attempt, now: int)
    requires b == a.(now := now)
    ensures Guards(line, b) <==> GuardsAs(line, a, now).0 || GuardsAs(line, a, now).1
  {
    hide Parsed;
  }

  lemma NoneGuards(a: Attempt, b: Attempt)
    requires !Word(a.id) && b.id == a.id && b.nonce == ""
    ensures !Replayed(FileLines(Line(a) + "\n"), b)
  {
    hide Parsed, FileLines, Line;
    forall l | l in FileLines(Line(a) + "\n")
      ensures !Guards(l, b)
    {
      if Parsed(l).Some? {
        ParsedClean(l);
      }
    }
  }

  lemma CountStep(text: string)
    requires text != []
    ensures |FileLines(text)| <= 1 + |FileLines(text[1..])|
  {
    hide Run;
    var u := text[1..];
    var m := Run(u, c => Break(c));
    RunStep(text);
    if !Break(text[0]) && m < |u| {
      assert u[m + 1..] == text[m + 2..];
    }
    if Break(text[0]) {
      assert text[0 + 1..] == u;
    }
  }

  lemma RunStep(text: string)
    requires text != []
    ensures Run(text, c => Break(c)) == if Break(text[0]) then 0 else 1 + Run(text[1..], c => Break(c))
  {
  }

  lemma {:induction false} CountLines(a: string, b: string)
    ensures |FileLines(a + b)| <= |a| + |FileLines(b)|
  {
    hide FileLines;
    if a == [] {
      assert a + b == b;
    } else {
      CountStep(a + b);
      assert (a + b)[1..] == a[1..] + b;
      CountLines(a[1..], b);
    }
  }

  lemma FewLines(a: Attempt)
    ensures |FileLines(Line(a) + "\n")| <= |a.id| + |a.nonce| + 3
  {
    hide FileLines, Decimal;
    var nonce, rest := if a.nonce != "" then a.nonce else "-", " " + Decimal(a.expires);
    NumberOfDecimal(a.expires);
    assert Line(a) + "\n" == (a.id + " " + nonce) + (rest + "\n");
    CountLines(a.id + " " + nonce, rest + "\n");
    assert OneLine(rest);
    Replay.FirstLine(rest, "");
    assert rest + "\n" + "" == rest + "\n";
    NoLines(0);
  }

  /** With line breaks in them the bound is looser: by as much as one id and one
    nonce can hold. */
  lemma {:induction false} BoundedAnyway(run: seq<Attempt>)
    requires forall i :: 0 <= i < |run| ==> |run[i].id| <= ID_WIDTH && |run[i].nonce| <= NONCE_WIDTH
    ensures |FileLines(After(run))| <= 4096 + 129
  {
    hide FileLines, Line, LiveLines, Parsed;
    NoLines(0);
    if run != [] {
      var n := |run| - 1;
      BoundedAnyway(run[..n]);
      if Accepts(After(run[..n]), run[n]) {
        NextLines(After(run[..n]), run[n]);
        FewLines(run[n]);
      }
    }
  }

  lemma ReplayedBy(line: string, a: Attempt)
    ensures Replayed([line], a) <==> Guards(line, a)
  {
    hide Parsed;
    assert line in [line];
  }

  /** A grant with the id `a b` is accepted again at any time, nonce or not. */
  lemma SpacedIdAgain(expires: int, first: int, second: int)
    ensures var run := Twice("a b", "n", expires, first, second); AcceptedAt(run, 0) && AcceptedAt(run, 1)
  {
    hide FileLines, LiveLines, AcceptedAt, Decimal, Parsed, Replayed, Words, Line, Scanned;
    var run := Twice("a b", "n", expires, first, second);
    var a := run[0];
    SecondAttempt("a b", "n", expires, first, second);
    OneLineEach(a);
    assert Word("a") && Word("b") && "a" + " " + "b" == "a b";
    WordPair("a", "b");
    OneWord("n");
    WordsOfLine(a);
    ParsedWords(Line(a));
    ReplayedBy(Line(a), run[1]);
  }

  /** A grant with the id `a` and the nonce `x y` is accepted again from the first
    minute of the clock on, though its id is a word: the expiry its line reads as is 0. */
  lemma SpacedNonceAgain(expires: int, first: int, second: int)
    ensures var run := Twice("a", "x y", expires, first, second); AcceptedAt(run, 0) && (AcceptedAt(run, 1) <==> second >= 60)
  {
    hide FileLines, LiveLines, AcceptedAt, Decimal, Parsed, Replayed, Words, Line, Scanned;
    var run := Twice("a", "x y", expires, first, second);
    var a := run[0];
    SecondAttempt("a", "x y", expires, first, second);
    OneLineEach(a);
    OneWord("a");
    NoNumber("y");
    assert Word("x") && Word("y") && "x" + " " + "y" == "x y";
    WordPair("x", "y");
    WordsOfLine(a);
    ParsedWords(Line(a));
    ReplayedBy(Line(a), run[1]);
  }

  lemma WordPair(x: string, y: string)
    requires Word(x) && Word(y)
    ensures Words(x + " " + y) == [x, y]
  {
    hide Words;
    WordsSplit([x], y);
    OneWord(y);
  }

  lemma NoNumber(w: string)
    requires w != [] && !Space(w[0]) && !Digit(w[0]) && w[0] != '-' && w[0] != '+'
    ensures Scanned(w) == 0
  {
    assert w[..0] == "";
  }
}
