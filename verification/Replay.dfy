/** The durable replay cache: a text file with one line per accepted grant, kept
  until the grant has expired plus a grace. What guards is what a line reads back
  as, which for an id or nonce with white space is not what was written. */
module Replay {
  import opened Bits
  import opened TextLines

  const MAX_ENTRIES := 4096
  const GRACE := 60
  const ID_WIDTH := 63
  const NONCE_WIDTH := 64

  datatype Entry = Entry(id: string, nonce: string, expires: int)

  /** A grant presented at a time; `completes` is whether the rewrite of the file
    goes through (one that does not start leaves the file as it is). */
  datatype Attempt = Attempt(id: string, nonce: string, expires: int, now: int, completes: bool)

  predicate Keeps(expires: int, now: int) {
    expires > now - GRACE
  }

  // ---- the file as lines ----

  predicate Break(c: char) {
    c == '\n'
  }

  /** The lines of a file; the last need not end. */
  function FileLines(text: string): seq<string>
    decreases |text|
  {
    if text == [] then []
    else
      var n := Run(text, c => Break(c));
      if n == |text| then [text] else [text[..n]] + FileLines(text[n + 1..])
  }

  function FileText(lines: seq<string>): string {
    if lines == [] then [] else lines[0] + "\n" + FileText(lines[1..])
  }

  predicate OneLine(s: string) {
    forall c :: c in s ==> !Break(c)
  }

  lemma FirstLine(line: string, rest: string)
    requires OneLine(line)
    ensures FileLines(line + "\n" + rest) == [line] + FileLines(rest)
  {
    var text := line + "\n" + rest;
    forall i | 0 <= i < |line|
      ensures !Break(text[i])
    {
      assert text[i] == line[i] && line[i] in line;
    }
    assert text[|line|] == '\n';
    assert Run(text, c => Break(c)) == |line|;
    assert text[..|line|] == line && text[|line| + 1..] == rest;
  }

  lemma {:induction false} LinesOfFile(lines: seq<string>, rest: string)
    requires forall i :: 0 <= i < |lines| ==> OneLine(lines[i])
    ensures FileLines(FileText(lines) + rest) == lines + FileLines(rest)
  {
    hide FileLines, OneLine;
    if lines == [] {
      assert FileText(lines) + rest == rest;
    } else {
      assert FileText(lines) + rest == lines[0] + "\n" + (FileText(lines[1..]) + rest);
      FirstLine(lines[0], FileText(lines[1..]) + rest);
      LinesOfFile(lines[1..], rest);
    }
  }

  lemma {:induction false} LinesAreLines(text: string)
    ensures forall i :: 0 <= i < |FileLines(text)| ==> OneLine(FileLines(text)[i])
    decreases |text|
  {
    if text != [] {
      var n := Run(text, c => Break(c));
      if n < |text| {
        LinesAreLines(text[n + 1..]);
      }
    }
  }

  // ---- what a line reads as ----

  function SkipSpaces(text: string): string {
    if text != [] && Space(text[0]) then SkipSpaces(text[1..]) else text
  }

  /** A run of characters without white space, at most so many of them. */
  function Field(text: string, width: nat): (string, string) {
    var t := SkipSpaces(text);
    var n := Run(t, c => Space(c));
    var m := if n < width then n else width;
    (t[..m], t[m..])
  }

  predicate Digit(c: char) {
    '0' <= c <= '9'
  }

  /** A number at the front of the text, or zero. */
  function Scanned(text: string): int {
    var t := SkipSpaces(text);
    var signed := t != [] && (t[0] == '-' || t[0] == '+');
    var u := if signed then t[1..] else t;
    match Value(u[..Run(u, c => !Digit(c))])
    case None => 0
    case Some(v) => if signed && t[0] == '-' then 0 - v as int else v
  }

  /** What a line is read as: an id, and a nonce and an expiry if they follow. */
  function Parsed(line: string): Option<Entry> {
    var (id, rest) := Field(line, ID_WIDTH);
    if id == [] then None
    else
      var (nonce, last) := Field(rest, NONCE_WIDTH);
      Some(Entry(id, nonce, if nonce == [] then 0 else Scanned(last)))
  }

  predicate Live(line: string, now: int) {
    Parsed(line).Some? && Keeps(Parsed(line).value.expires, now)
  }

  function LiveLines(lines: seq<string>, now: int): (r: seq<string>)
    ensures |r| <= |lines|
    ensures forall l :: l in r <==> l in lines && Live(l, now)
  {
    if lines == [] then [] else (if Live(lines[0], now) then [lines[0]] else []) + LiveLines(lines[1..], now)
  }

  predicate Matches(e: Entry, a: Attempt) {
    e.id == a.id || (a.nonce != "" && e.nonce == a.nonce)
  }

  /** The line guards against the attempt. */
  predicate Guards(line: string, a: Attempt) {
    Live(line, a.now) && Matches(Parsed(line).value, a)
  }

  ghost predicate Replayed(lines: seq<string>, a: Attempt) {
    exists l :: l in lines && Guards(l, a)
  }

  // ---- what a grant is written as ----

  function Line(a: Attempt): string {
    a.id + " " + (if a.nonce != "" then a.nonce else "-") + " " + Decimal(a.expires)
  }

  ghost predicate Accepts(file: string, a: Attempt) {
    a.id != "" && a.completes && !Replayed(FileLines(file), a) && |LiveLines(FileLines(file), a.now)| < MAX_ENTRIES
  }

  ghost function Next(file: string, a: Attempt): string {
    if Accepts(file, a) then FileText(LiveLines(FileLines(file), a.now)) + (Line(a) + "\n") else file
  }

  /** After an accepted grant the file has the lines that were live, and its own. */
  lemma NextLines(file: string, a: Attempt)
    requires Accepts(file, a)
    ensures FileLines(Next(file, a)) == LiveLines(FileLines(file), a.now) + FileLines(Line(a) + "\n")
  {
    hide FileLines, LiveLines, Line, FileText;
    LinesAreLines(file);
    var live := LiveLines(FileLines(file), a.now);
    forall i | 0 <= i < |live|
      ensures OneLine(live[i])
    {
      assert live[i] in live;
    }
    LinesOfFile(live, Line(a) + "\n");
  }

  // ---- the loop ----

  lemma {:induction false} LiveSnoc(lines: seq<string>, line: string, now: int)
    ensures LiveLines(lines + [line], now) == LiveLines(lines, now) + (if Live(line, now) then [line] else [])
  {
    hide Live;
    if lines == [] {
      assert lines + [line] == [line] && [line][1..] == [];
    } else {
      assert (lines + [line])[1..] == lines[1..] + [line];
      LiveSnoc(lines[1..], line, now);
    }
  }

  lemma {:induction false} LiveConcat(a: seq<string>, b: seq<string>, now: int)
    ensures LiveLines(a + b, now) == LiveLines(a, now) + LiveLines(b, now)
  {
    hide Live;
    if a == [] {
      assert a + b == b;
    } else {
      assert (a + b)[1..] == a[1..] + b;
      LiveConcat(a[1..], b, now);
    }
  }

  /** Where the line that starts here ends. */
  method LineEnd(file: string, pos: nat) returns (end: nat)
    requires pos < |file|
    ensures pos <= end <= |file| && end - pos == Run(file[pos..], c => Break(c))
  {
    end := pos;
    while end < |file| && !Break(file[end])
      invariant pos <= end <= |file| && forall i :: pos <= i < end ==> !Break(file[i])
    {
      end := end + 1;
    }
    assert forall i :: 0 <= i < end - pos ==> file[pos..][i] == file[pos + i];
    assert end < |file| ==> file[pos..][end - pos] == file[end];
  }

  /** The lines so far and those to come. */
  lemma NextLine(file: string, pos: nat, end: nat)
    requires pos < |file| && pos <= end <= |file| && end - pos == Run(file[pos..], c => Break(c))
    ensures var next := if end < |file| then end + 1 else end;
            FileLines(file[pos..]) == [file[pos..end]] + FileLines(file[next..])
  {
    assert file[pos..][..end - pos] == file[pos..end];
    if end < |file| {
      assert file[pos..][end - pos + 1..] == file[end + 1..];
    } else {
      assert file[pos..] == file[pos..end] && file[end..] == [];
    }
  }

  class Cache {
    var file: string

    constructor ()
      ensures file == ""
    {
      file := "";
    }

    /** Reads the lines: those that still guard, unless one guards against this
      grant or there is no room for another. */
    method Retain(a: Attempt) returns (ok: bool, retained: seq<string>)
      ensures ok <==> !Replayed(FileLines(file), a) && |LiveLines(FileLines(file), a.now)| < MAX_ENTRIES
      ensures ok ==> retained == LiveLines(FileLines(file), a.now)
    {
      hide FileLines, LiveLines, Run, Parsed;
      retained, ok := [], true;
      ghost var done: seq<string> := [];
      var pos := 0;
      assert file[0..] == file && [] + FileLines(file) == FileLines(file);
      NoLines(a.now);
      while ok && pos < |file|
        invariant pos <= |file| && FileLines(file) == done + FileLines(file[pos..])
        invariant ok ==> retained == LiveLines(done, a.now) && |retained| < MAX_ENTRIES && !Replayed(done, a)
        invariant !ok ==> Replayed(FileLines(file), a) || |LiveLines(FileLines(file), a.now)| >= MAX_ENTRIES
        decreases |file| - pos, ok
      {
        var end := LineEnd(file, pos);
        NextLine(file, pos, end);
        var line := file[pos..end];
        pos := if end < |file| then end + 1 else end;
        SeqAssoc(done, [line], FileLines(file[pos..]));
        LiveSnoc(done, line, a.now);
        LiveConcat(done + [line], FileLines(file[pos..]), a.now);
        done := done + [line];
        assert line in FileLines(file);
        var e := Parsed(line);
        if e.Some? {
          if !Keeps(e.value.expires, a.now) {
          } else if Matches(e.value, a) {
            ok := false;
          } else if |retained| >= MAX_ENTRIES - 1 {
            ok := false;
          } else {
            retained := retained + [line];
          }
        }
      }
      if ok {
        assert file[pos..] == [];
        NoLines(a.now);
        assert done + [] == done;
      }
    }

    method Rewrite(retained: seq<string>, a: Attempt)
      modifies this
      ensures file == FileText(retained) + (Line(a) + "\n")
    {
      hide Line;
      file := "";
      assert FileText(retained[..0]) == "";
      for i := 0 to |retained|
        invariant file == FileText(retained[..i])
      {
        TextSnoc(retained[..i], retained[i]);
        assert retained[..i + 1] == retained[..i] + [retained[i]];
        file := file + retained[i] + "\n";
      }
      assert retained[..|retained|] == retained;
      file := file + (Line(a) + "\n");
    }

    /** Refuses a replay or a full cache, else rewrites the file with the lines that
      still guard and the new one. */
    method CheckAndRecord(a: Attempt) returns (accepted: bool)
      modifies this
      ensures accepted <==> Accepts(old(file), a)
      ensures file == Next(old(file), a)
    {
      hide Line, FileLines, LiveLines, Replayed;
      if a.id == "" {
        return false;
      }
      var ok, retained := Retain(a);
      if !ok || !a.completes {
        return false;
      }
      Rewrite(retained, a);
      return true;
    }
  }

  lemma NoLines(now: int)
    ensures FileLines("") == [] && LiveLines([], now) == []
  {
  }

  lemma {:induction false} TextSnoc(lines: seq<string>, line: string)
    ensures FileText(lines + [line]) == FileText(lines) + line + "\n"
  {
    if lines == [] {
      assert lines + [line] == [line] && FileText([line][1..]) == "";
    } else {
      assert (lines + [line])[1..] == lines[1..] + [line];
      TextSnoc(lines[1..], line);
    }
  }
}
