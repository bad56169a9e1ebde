/** The enforcement state file: text lines of words, written whole and read back
  at start. */
module StateFile {
  import opened Bits
  import opened Enforcement
  import opened TextLines
  import Mesh

  const MAX_ALLOW := 32
  const MAX_RULES := 64
  const HEADER := "ominull-enforcement 1\n"

  /** The address checks, which only accept words. */
  datatype Checks = Checks(address: string -> bool, allow: string -> bool)

  ghost predicate Strict(k: Checks) {
    (forall w :: k.address(w) ==> Word(w)) && (forall w :: k.allow(w) ==> Word(w))
  }

  // ---- the file ----

  predicate RuleValid(k: Checks, r: Rule) {
    && r.service != [] && (forall c :: c in r.service ==> 'a' <= c <= 'z' || '0' <= c <= '9' || c == '-' || c == '_')
    && k.address(r.destination) && (r.protocol == "udp" || r.protocol == "tcp") && 1 <= r.port <= 65535
  }

  function AllowLines(allow: seq<string>): seq<seq<string>> {
    seq(|allow|, i requires 0 <= i < |allow| => ["allow", allow[i]])
  }

  function MeshLine(m: Mesh.Slot): seq<string> {
    ["mesh", m.ip, if m.on then "1" else "0", Decimal(m.at)]
  }

  function MeshLines(mesh: seq<Mesh.Slot>): seq<seq<string>> {
    seq(|mesh|, i requires 0 <= i < |mesh| => MeshLine(mesh[i]))
  }

  function RuleLine(r: Rule): seq<string> {
    ["rule", r.service, r.destination, r.protocol, Decimal(r.port)]
  }

  function RuleLines(rules: seq<Rule>): seq<seq<string>> {
    seq(|rules|, i requires 0 <= i < |rules| => RuleLine(rules[i]))
  }

  function IsoLine(s: State): seq<string> {
    ["iso", if s.isolated then "1" else "0", if s.source != [] then s.source else "none", Decimal(s.isoAt),
     if s.isoGrant != [] then s.isoGrant else "-"]
  }

  function SeenLine(s: State): seq<string> {
    ["seen", Decimal(s.isoSeen), Decimal(s.meshSeen)]
  }

  function Saved(s: State): string {
    HEADER + Text([IsoLine(s), SeenLine(s)] + AllowLines(s.allow) + MeshLines(s.mesh) + RuleLines(s.rules))
  }

  function Nothing(): State {
    State(false, "none", 0, "", [], [], 0, 0, [])
  }

  predicate IsNumber(w: string) {
    Number(w).Some?
  }

  /** One line of the file; a line it does not know is skipped. */
  function ReadLine(k: Checks, s: State, w: seq<string>): State {
    if |w| >= 5 && w[0] == "rule" && IsNumber(w[4]) then
      if |s.rules| < MAX_RULES && Number(w[4]).value >= 0 && RuleValid(k, Rule(w[1], w[2], w[3], Number(w[4]).value))
      then s.(rules := s.rules + [Rule(w[1], w[2], w[3], Number(w[4]).value)])
      else s
    else if |w| >= 5 && w[0] == "iso" && IsNumber(w[1]) && IsNumber(w[3]) then
      s.(isolated := Number(w[1]).value == 1, source := w[2], isoAt := Number(w[3]).value, isoGrant := if w[4] == "-" then "" else w[4])
    else if |w| >= 3 && w[0] == "seen" && IsNumber(w[1]) && IsNumber(w[2]) then
      s.(isoSeen := Number(w[1]).value, meshSeen := Number(w[2]).value)
    else if |w| >= 2 && w[0] == "allow" && |s.allow| < MAX_ALLOW && k.allow(w[1]) then s.(allow := s.allow + [w[1]])
    else if |w| >= 4 && w[0] == "mesh" && IsNumber(w[2]) && IsNumber(w[3]) && |s.mesh| < Mesh.MAX_MESH && k.address(w[1]) then
      s.(mesh := s.mesh + [Mesh.Slot(w[1], Number(w[2]).value == 1, Number(w[3]).value)])
    else s
  }

  function ReadLines(k: Checks, s: State, lines: seq<seq<string>>): State
    decreases |lines|
  {
    if lines == [] then s else ReadLines(k, ReadLine(k, s, lines[0]), lines[1..])
  }

  function Loaded(k: Checks, text: string): State {
    if HEADER <= text then ReadLines(k, Nothing(), WordLines(text[|HEADER|..])) else Nothing()
  }

  /** The lines as they stand in the file, after the first. */
  lemma LineTexts(s: State, ip: string, m: Mesh.Slot, r: Rule)
    ensures HEADER == "ominull-enforcement 1\n"
    ensures s.source != "" && s.isoGrant != "" ==>
              Joined(IsoLine(s)) == "iso" + " " + ((if s.isolated then "1" else "0") + " " + (s.source + " " + (Decimal(s.isoAt) + " " + s.isoGrant)))
    ensures Joined(SeenLine(s)) == "seen" + " " + (Decimal(s.isoSeen) + " " + Decimal(s.meshSeen))
    ensures Joined(["allow", ip]) == "allow" + " " + ip
    ensures Joined(MeshLine(m)) == "mesh" + " " + (m.ip + " " + ((if m.on then "1" else "0") + " " + Decimal(m.at)))
    ensures Joined(RuleLine(r)) == "rule" + " " + (r.service + " " + (r.destination + " " + (r.protocol + " " + Decimal(r.port))))
  {
    hide Joined, Decimal;
    JoinedFive("iso", if s.isolated then "1" else "0", s.source, Decimal(s.isoAt), s.isoGrant);
    JoinedFive("rule", r.service, r.destination, r.protocol, Decimal(r.port));
    JoinedFour("mesh", m.ip, if m.on then "1" else "0", Decimal(m.at));
    JoinedFew("seen", Decimal(s.isoSeen), Decimal(s.meshSeen));
    JoinedTwo("allow", ip);
  }

  lemma JoinedTwo(a: string, b: string)
    ensures Joined([a, b]) == a + " " + b
  {
    assert [a, b][1..] == [b] && Joined([b]) == b;
  }

  lemma JoinedFew(a: string, b: string, c: string)
    ensures Joined([a, b, c]) == a + " " + (b + " " + c)
  {
    assert [a, b, c][1..] == [b, c];
    JoinedTwo(b, c);
  }

  lemma JoinedFour(a: string, b: string, c: string, d: string)
    ensures Joined([a, b, c, d]) == a + " " + (b + " " + (c + " " + d))
  {
    assert [a, b, c, d][1..] == [b, c, d];
    JoinedFew(b, c, d);
  }

  lemma JoinedFive(a: string, b: string, c: string, d: string, e: string)
    ensures Joined([a, b, c, d, e]) == a + " " + (b + " " + (c + " " + (d + " " + e)))
  {
    assert [a, b, c, d, e][1..] == [b, c, d, e];
    JoinedFour(b, c, d, e);
  }

  // ---- round trip ----

  /** A state the agent can hold: every address, rule and name was checked when
    it was taken, and the lists have room for what they hold. */
  ghost predicate Holdable(k: Checks, s: State) {
    && Word(s.source)
    && |s.allow| <= MAX_ALLOW && (forall i :: 0 <= i < |s.allow| ==> k.allow(s.allow[i]))
    && |s.mesh| <= Mesh.MAX_MESH && (forall i :: 0 <= i < |s.mesh| ==> k.address(s.mesh[i].ip))
    && |s.rules| <= MAX_RULES && (forall i :: 0 <= i < |s.rules| ==> RuleValid(k, s.rules[i]))
  }

  /** A grant id the file can hold. */
  predicate CleanId(id: string) {
    id != "-" && forall c :: c in id ==> !Space(c)
  }

  lemma {:induction false} ReadConcat(k: Checks, s: State, a: seq<seq<string>>, b: seq<seq<string>>)
    ensures ReadLines(k, s, a + b) == ReadLines(k, ReadLines(k, s, a), b)
    decreases |a|
  {
    hide ReadLine;
    if a == [] {
      assert a + b == b;
    } else {
      assert (a + b)[1..] == a[1..] + b;
      ReadConcat(k, ReadLine(k, s, a[0]), a[1..], b);
    }
  }

  lemma {:induction false} ReadAllow(k: Checks, s: State, allow: seq<string>)
    requires |s.allow| + |allow| <= MAX_ALLOW && forall i :: 0 <= i < |allow| ==> k.allow(allow[i])
    ensures ReadLines(k, s, AllowLines(allow)) == s.(allow := s.allow + allow)
    decreases |allow|
  {
    if allow == [] {
      assert s.allow + allow == s.allow;
    } else {
      var s1 := s.(allow := s.allow + [allow[0]]);
      assert AllowLines(allow)[1..] == AllowLines(allow[1..]);
      ReadAllow(k, s1, allow[1..]);
      assert s.allow + [allow[0]] + allow[1..] == s.allow + allow;
    }
  }

  lemma ReadMeshLine(k: Checks, s: State, m: Mesh.Slot)
    requires |s.mesh| < Mesh.MAX_MESH && k.address(m.ip)
    ensures ReadLine(k, s, MeshLine(m)) == s.(mesh := s.mesh + [m])
  {
    NumberOfDecimal(m.at);
    NumberOfDecimal(0);
    NumberOfDecimal(1);
    assert Digits(0) == "0" && Digits(1) == "1";
    hide Number, Decimal, RuleValid;
  }

  lemma {:induction false} ReadMesh(k: Checks, s: State, mesh: seq<Mesh.Slot>)
    requires |s.mesh| + |mesh| <= Mesh.MAX_MESH && forall i :: 0 <= i < |mesh| ==> k.address(mesh[i].ip)
    ensures ReadLines(k, s, MeshLines(mesh)) == s.(mesh := s.mesh + mesh)
    decreases |mesh|
  {
    hide ReadLine, MeshLine;
    if mesh == [] {
      assert s.mesh + mesh == s.mesh;
    } else {
      ReadMeshLine(k, s, mesh[0]);
      var s1 := s.(mesh := s.mesh + [mesh[0]]);
      assert MeshLines(mesh)[1..] == MeshLines(mesh[1..]);
      ReadMesh(k, s1, mesh[1..]);
      assert s.mesh + [mesh[0]] + mesh[1..] == s.mesh + mesh;
    }
  }

  lemma ReadRuleLine(k: Checks, s: State, r: Rule)
    requires |s.rules| < MAX_RULES && RuleValid(k, r)
    ensures ReadLine(k, s, RuleLine(r)) == s.(rules := s.rules + [r])
  {
    NumberOfDecimal(r.port);
    hide Number, Decimal;
  }

  lemma {:induction false} ReadRules(k: Checks, s: State, rules: seq<Rule>)
    requires |s.rules| + |rules| <= MAX_RULES && forall i :: 0 <= i < |rules| ==> RuleValid(k, rules[i])
    ensures ReadLines(k, s, RuleLines(rules)) == s.(rules := s.rules + rules)
    decreases |rules|
  {
    hide ReadLine, RuleLine, RuleValid;
    if rules == [] {
      assert s.rules + rules == s.rules;
    } else {
      ReadRuleLine(k, s, rules[0]);
      var s1 := s.(rules := s.rules + [rules[0]]);
      assert RuleLines(rules)[1..] == RuleLines(rules[1..]);
      ReadRules(k, s1, rules[1..]);
      assert s.rules + [rules[0]] + rules[1..] == s.rules + rules;
    }
  }

  lemma ReadIso(k: Checks, s: State, t: State)
    requires s.source != [] && s.isoGrant != "-"
    ensures ReadLine(k, t, IsoLine(s)) == t.(isolated := s.isolated, source := s.source, isoAt := s.isoAt, isoGrant := s.isoGrant)
  {
    NumberOfDecimal(s.isoAt);
    NumberOfDecimal(0);
    NumberOfDecimal(1);
    assert Digits(0) == "0" && Digits(1) == "1";
    hide Number, Decimal, RuleValid;
  }

  lemma ReadSeen(k: Checks, s: State, t: State)
    ensures ReadLine(k, t, SeenLine(s)) == t.(isoSeen := s.isoSeen, meshSeen := s.meshSeen)
  {
    NumberOfDecimal(s.isoSeen);
    NumberOfDecimal(s.meshSeen);
    hide Number, Decimal, RuleValid;
  }

  lemma ReadHead(k: Checks, s: State)
    requires s.source != [] && s.isoGrant != "-"
    ensures ReadLines(k, Nothing(), [IsoLine(s), SeenLine(s)]) == s.(allow := [], mesh := [], rules := [])
  {
    hide ReadLine, IsoLine, SeenLine;
    ReadIso(k, s, Nothing());
    var t := ReadLine(k, Nothing(), IsoLine(s));
    ReadSeen(k, s, t);
    assert [IsoLine(s), SeenLine(s)][1..] == [SeenLine(s)];
    assert ReadLines(k, t, [SeenLine(s)]) == ReadLine(k, t, SeenLine(s));
  }

  ghost function AllOf(s: State): seq<seq<string>> {
    [IsoLine(s), SeenLine(s)] + AllowLines(s.allow) + MeshLines(s.mesh) + RuleLines(s.rules)
  }

  lemma ReadAll(k: Checks, s: State)
    requires Holdable(k, s) && CleanId(s.isoGrant)
    ensures ReadLines(k, Nothing(), AllOf(s)) == s
  {
    hide ReadLine, ReadLines, IsoLine, SeenLine, AllowLines, MeshLines, RuleLines, RuleValid;
    ReadHead(k, s);
    var head, t := [IsoLine(s), SeenLine(s)], s.(allow := [], mesh := [], rules := []);
    ReadConcat(k, Nothing(), head, AllowLines(s.allow));
    ReadAllow(k, t, s.allow);
    ReadConcat(k, Nothing(), head + AllowLines(s.allow), MeshLines(s.mesh));
    ReadMesh(k, t.(allow := [] + s.allow), s.mesh);
    ReadConcat(k, Nothing(), head + AllowLines(s.allow) + MeshLines(s.mesh), RuleLines(s.rules));
    ReadRules(k, t.(allow := [] + s.allow, mesh := [] + s.mesh), s.rules);
    assert [] + s.allow == s.allow && [] + s.mesh == s.mesh && [] + s.rules == s.rules;
  }

  lemma RuleWords(k: Checks, r: Rule)
    requires Strict(k) && RuleValid(k, r)
    ensures AllWords(RuleLine(r))
  {
    NumberOfDecimal(r.port);
    hide Decimal;
    assert Word(r.service) && Word(r.destination) && Word(r.protocol);
  }

  lemma MeshWords(k: Checks, m: Mesh.Slot)
    requires Strict(k) && k.address(m.ip)
    ensures AllWords(MeshLine(m))
  {
    NumberOfDecimal(m.at);
    hide Decimal;
  }

  lemma HeadWords(s: State)
    requires Word(s.source) && CleanId(s.isoGrant)
    ensures AllWords(IsoLine(s)) && AllWords(SeenLine(s))
  {
    NumberOfDecimal(s.isoAt);
    NumberOfDecimal(s.isoSeen);
    NumberOfDecimal(s.meshSeen);
    hide Decimal;
  }

  lemma SavedLines(k: Checks, s: State)
    requires Strict(k) && Holdable(k, s) && CleanId(s.isoGrant)
    ensures AllLines(AllOf(s))
  {
    assert Word("allow");
    hide Decimal, RuleValid, Word, CleanId;
    HeadWords(s);
    forall i | 0 <= i < |s.rules| { RuleWords(k, s.rules[i]); }
    forall i | 0 <= i < |s.mesh| { MeshWords(k, s.mesh[i]); }
  }

  // ---- what any file gives ----

  ghost predicate NoSpaces(words: seq<string>) {
    forall i :: 0 <= i < |words| ==> forall c :: c in words[i] ==> !Space(c)
  }

  lemma {:induction false} ReadClean(k: Checks, s: State, lines: seq<seq<string>>)
    requires CleanId(s.isoGrant) && forall i :: 0 <= i < |lines| ==> NoSpaces(lines[i])
    ensures CleanId(ReadLines(k, s, lines).isoGrant)
    decreases |lines|
  {
    if lines != [] {
      ReadClean(k, ReadLine(k, s, lines[0]), lines[1..]);
    }
  }

  lemma LoadedClean(k: Checks, text: string)
    ensures CleanId(Loaded(k, text).isoGrant)
  {
    hide ReadLines;
    if HEADER <= text {
      var lines := WordLines(text[|HEADER|..]);
      forall i | 0 <= i < |lines|
        ensures NoSpaces(lines[i])
      {
        var line := Lines(text[|HEADER|..])[i];
        forall j | 0 <= j < |Words(line)|
          ensures forall c :: c in Words(line)[j] ==> !Space(c)
        {
          PiecesClean(line, c => Space(c), j);
        }
      }
      ReadClean(k, Nothing(), lines);
    }
  }

  /** The file gives back the state that was written to it exactly when the grant
    id has no white space in it and is not a lone dash. */
  lemma RoundTrip(k: Checks, s: State)
    requires Strict(k) && Holdable(k, s)
    ensures Loaded(k, Saved(s)) == s <==> CleanId(s.isoGrant)
  {
    hide ReadLines, WordLines, Text, CleanId, Strict, Holdable;
    if CleanId(s.isoGrant) {
      SavedLines(k, s);
      LinesOfText(AllOf(s));
      ReadAll(k, s);
      assert Saved(s)[|HEADER|..] == Text(AllOf(s));
    } else {
      LoadedClean(k, Saved(s));
    }
  }

  /** A grant whose id is a lone dash comes back without one. */
  lemma DashIsLost(k: Checks, s: State)
    requires Strict(k) && Holdable(k, s) && s.isoGrant == "-"
    ensures Loaded(k, Saved(s)) == s.(isoGrant := "")
  {
    assert Saved(s) == Saved(s.(isoGrant := ""));
    RoundTrip(k, s.(isoGrant := ""));
  }

  lemma OneLine(line: string)
    requires line != [] && forall c :: c in line ==> !Newline(c)
    ensures WordLines(line) == [Words(line)]
  {
    hide Words;
    PiecesOne(line, [], c => Newline(c));
    assert line + [] == line && Pieces([], (c: char) => Newline(c)) == [];
  }

  /** The words of the isolation line up to the grant id. */
  function IsoStart(s: State): seq<string> {
    ["iso", if s.isolated then "1" else "0", if s.source != [] then s.source else "none", Decimal(s.isoAt)]
  }

  lemma IsoText(s: State)
    requires s.isoGrant != []
    ensures Joined(IsoLine(s)) == Joined(IsoStart(s)) + " " + s.isoGrant
  {
    hide Decimal, Joined;
    assert IsoLine(s) == IsoStart(s) + [s.isoGrant];
    JoinedSnoc(IsoStart(s), s.isoGrant);
  }

  /** The lines after the isolation line. */
  ghost function Later(s: State): seq<seq<string>> {
    [SeenLine(s)] + AllowLines(s.allow) + MeshLines(s.mesh) + RuleLines(s.rules)
  }

  lemma LaterLines(k: Checks, s: State)
    requires Strict(k) && Holdable(k, s)
    ensures AllLines(Later(s))
  {
    assert Word("allow");
    hide Decimal, RuleValid, Word, CleanId;
    HeadWords(s.(isoGrant := "")) by { assert CleanId(""); }
    forall i | 0 <= i < |s.rules| { RuleWords(k, s.rules[i]); }
    forall i | 0 <= i < |s.mesh| { MeshWords(k, s.mesh[i]); }
  }

  /** Whatever the isolation line reads as, the lines after it read as written. */
  lemma SavedLater(k: Checks, s: State)
    requires Strict(k) && Holdable(k, s)
    ensures Loaded(k, Saved(s)) == ReadLines(k, ReadLines(k, Nothing(), WordLines(Joined(IsoLine(s)))), Later(s))
  {
    hide ReadLines, WordLines, IsoLine, Joined, SeenLine, AllowLines, MeshLines, RuleLines;
    var text := Saved(s)[|HEADER|..];
    assert AllOf(s) == [IsoLine(s)] + Later(s);
    FirstOf([IsoLine(s)] + Later(s));
    assert ([IsoLine(s)] + Later(s))[1..] == Later(s);
    assert text == Joined(IsoLine(s)) + "\n" + Text(Later(s));
    LinesSplit(Joined(IsoLine(s)), Text(Later(s)));
    LaterLines(k, s);
    LinesOfText(Later(s));
    ReadConcat(k, Nothing(), WordLines(Joined(IsoLine(s))), Later(s));
  }

  lemma FirstOf(lines: seq<seq<string>>)
    requires lines != []
    ensures Text(lines) == Joined(lines[0]) + "\n" + Text(lines[1..])
  {
  }

  lemma OneRead(k: Checks, s: State, line: seq<string>)
    ensures ReadLines(k, s, [line]) == ReadLine(k, s, line)
  {
    hide ReadLine;
    assert [line][1..] == [];
  }

  /** Of an isolation line only the first five words are read. */
  lemma FirstFive(k: Checks, s: State, t: State, more: seq<string>)
    ensures ReadLine(k, s, IsoLine(t) + more) == ReadLine(k, s, IsoLine(t))
  {
    NumberOfDecimal(t.isoAt);
    NumberOfDecimal(0);
    NumberOfDecimal(1);
    assert Digits(0) == "0" && Digits(1) == "1";
    hide Number, Decimal, RuleValid;
  }

  lemma IsoStartWords(s: State)
    requires Word(s.source)
    ensures AllWords(IsoStart(s)) && IsoStart(s)[0] == "iso" && |IsoStart(s)| == 4
  {
    NumberOfDecimal(s.isoAt);
    hide Decimal;
  }

  /** What follows the first line break of an id, which ends the isolation line. */
  function AfterBreak(id: string): string {
    id[Run(id, c => Newline(c))..]
  }

  /** The isolation line ends at the id's first line break, and the rest of the id
    is lines of its own. */
  lemma IsoBreaks(s: State)
    requires Word(s.source) && s.isoGrant != []
    ensures var n := Run(s.isoGrant, c => Newline(c));
            WordLines(Joined(IsoLine(s))) == [IsoStart(s) + Words(s.isoGrant[..n])] + WordLines(AfterBreak(s.isoGrant))
  {
    hide Decimal, Words, Joined, WordLines, IsoStart, IsoLine, AllWords;
    var n := Run(s.isoGrant, c => Newline(c));
    IsoText(s);
    IsoStartWords(s);
    JoinedOneLine(IsoStart(s));
    LineBreaks(Joined(IsoStart(s)), s.isoGrant, n);
    WordsSplit(IsoStart(s), s.isoGrant[..n]);
  }

  lemma LineBreaks(start: string, id: string, n: nat)
    requires n == Run(id, c => Newline(c)) && forall c :: c in start ==> !Newline(c)
    ensures WordLines(start + " " + id) == [Words(start + " " + id[..n])] + WordLines(id[n..])
  {
    hide WordLines, Words;
    var first, rest := start + " " + id[..n], id[n..];
    assert start + " " + id == first + rest;
    FirstLineOf(first, rest);
  }

  /** What a state comes back as when its id has no line break: the id as its first
    word, and none if that is a dash. An id of nothing but white space takes the
    isolation with it. */
  function ReadBack(s: State): State {
    var words := Words(s.isoGrant);
    if s.isoGrant == [] then s
    else if words == [] then s.(isolated := false, source := "none", isoAt := 0, isoGrant := "")
    else s.(isoGrant := if words[0] == "-" then "" else words[0])
  }

  lemma CutAtSpace(k: Checks, s: State)
    requires Strict(k) && Holdable(k, s) && forall c :: c in s.isoGrant ==> !Newline(c)
    ensures Loaded(k, Saved(s)) == ReadBack(s)
  {
    hide Loaded, Saved, WordLines, ReadLine, ReadLines, Decimal, Joined, Words, Strict, RuleValid;
    var words := Words(s.isoGrant);
    if s.isoGrant == [] {
      RoundTrip(k, s);
    } else {
      UnbrokenId(s.isoGrant);
      IsoBreaks(s);
      SavedLater(k, s);
      assert [IsoStart(s) + words] + [] == [IsoStart(s) + words];
      OneRead(k, Nothing(), IsoStart(s) + words);
      if words == [] {
        assert IsoStart(s) + words == IsoStart(s);
        BlankLine(k, s);
        WithoutIsolation(k, s);
      } else {
        FirstWordLeft(k, s);
      }
    }
  }

  lemma UnbrokenId(id: string)
    requires forall c :: c in id ==> !Newline(c)
    ensures Run(id, c => Newline(c)) == |id| && id[..|id|] == id && AfterBreak(id) == [] && WordLines(AfterBreak(id)) == []
  {
    var n := Run(id, c => Newline(c));
    forall i | 0 <= i < |id|
      ensures !Newline(id[i])
    {
      assert id[i] in id;
    }
    assert n == |id|;
  }

  lemma BlankLine(k: Checks, s: State)
    ensures ReadLine(k, Nothing(), IsoStart(s)) == Nothing()
  {
    hide Decimal, RuleValid, Number;
  }

  lemma WithoutIsolation(k: Checks, s: State)
    requires Strict(k) && Holdable(k, s)
    ensures ReadLines(k, Nothing(), Later(s)) == s.(isolated := false, source := "none", isoAt := 0, isoGrant := "")
  {
    hide Loaded, Saved, WordLines, ReadLine, ReadLines, Decimal, Joined, Strict, RuleValid;
    var t := s.(isolated := false, source := "none", isoAt := 0, isoGrant := "");
    assert Word("none") && Later(t) == Later(s);
    HeadWords(t);
    WholeLine(t);
    SavedLater(k, t);
    OneRead(k, Nothing(), IsoLine(t));
    ReadIso(k, t, Nothing());
    RoundTrip(k, t);
  }

  lemma WholeLine(s: State)
    requires AllWords(IsoLine(s))
    ensures WordLines(Joined(IsoLine(s))) == [IsoLine(s)]
  {
    hide Words, Joined, Decimal;
    JoinedOneLine(IsoLine(s));
    OneLine(Joined(IsoLine(s)));
    WordsOfJoined(IsoLine(s));
  }

  lemma FirstWordLeft(k: Checks, s: State)
    requires Strict(k) && Holdable(k, s) && s.isoGrant != [] && Words(s.isoGrant) != []
    ensures ReadLines(k, ReadLine(k, Nothing(), IsoStart(s) + Words(s.isoGrant)), Later(s)) == ReadBack(s)
  {
    hide Loaded, Saved, WordLines, ReadLine, ReadLines, Decimal, Joined, Words, Strict, RuleValid;
    var words := Words(s.isoGrant);
    var t := s.(isoGrant := words[0]);
    WordsAre(s.isoGrant, 0);
    assert IsoStart(s) + words == IsoLine(t) + words[1..] && Later(t) == Later(s);
    FirstFive(k, Nothing(), t, words[1..]);
    SavedLater(k, t);
    IsoWords(t);
    WholeLine(t);
    OneRead(k, Nothing(), IsoLine(t));
    if words[0] == "-" {
      DashIsLost(k, t);
    } else {
      RoundTrip(k, t);
    }
  }

  lemma IsoWords(s: State)
    requires Word(s.source) && Word(s.isoGrant)
    ensures AllWords(IsoLine(s))
  {
    NumberOfDecimal(s.isoAt);
    hide Decimal;
  }

  lemma WordsAre(text: string, i: nat)
    requires i < |Words(text)|
    ensures Word(Words(text)[i])
  {
    PiecesClean(text, c => Space(c), i);
    PiecesFull(text, c => Space(c), i);
  }

  /** For one, an id with a space in it. */
  lemma SpaceIsLost(k: Checks, s: State)
    requires Strict(k) && Holdable(k, s) && s.isoGrant == "a b"
    ensures Loaded(k, Saved(s)) == s.(isoGrant := "a")
  {
    hide Words, Strict, Loaded, Saved;
    var words := ["a"];
    assert AllWords(words) && s.isoGrant == Joined(words) + " " + "b";
    WordsSplit(words, "b");
    CutAtSpace(k, s);
  }

  /** And an id that is a space: the isolation itself does not come back. */
  lemma BlankReleases(k: Checks, s: State)
    requires Strict(k) && Holdable(k, s) && s.isoGrant == " "
    ensures Loaded(k, Saved(s)) == s.(isolated := false, source := "none", isoAt := 0, isoGrant := "")
  {
    hide Strict, Loaded, Saved;
    OneBlank();
    CutAtSpace(k, s);
  }

  lemma OneBlank()
    ensures Words(" ") == []
  {
    assert " "[1..] == "";
  }

  // ---- the mesh slots ----

  /** The mesh slots an id with line breaks in it adds to the file. */
  function Planted(k: Checks, id: string): seq<Mesh.Slot> {
    ReadLines(k, Nothing(), WordLines(AfterBreak(id))).mesh
  }

  function Capped(mesh: seq<Mesh.Slot>): seq<Mesh.Slot> {
    if |mesh| <= Mesh.MAX_MESH then mesh else mesh[..Mesh.MAX_MESH]
  }

  lemma {:induction false} ReadSameMesh(k: Checks, s: State, t: State, lines: seq<seq<string>>)
    requires s.mesh == t.mesh
    ensures ReadLines(k, s, lines).mesh == ReadLines(k, t, lines).mesh
    ensures |s.mesh| <= Mesh.MAX_MESH ==> |ReadLines(k, s, lines).mesh| <= Mesh.MAX_MESH
    ensures |ReadLines(k, s, lines).mesh| <= |s.mesh| + |lines|
    decreases |lines|
  {
    hide RuleValid, Number;
    if lines != [] {
      ReadSameMesh(k, ReadLine(k, s, lines[0]), ReadLine(k, t, lines[0]), lines[1..]);
    }
  }

  lemma {:induction false} ReadOthers(k: Checks, s: State, lines: seq<seq<string>>)
    requires forall i :: 0 <= i < |lines| ==> lines[i] != [] && lines[i][0] != "mesh"
    ensures ReadLines(k, s, lines).mesh == s.mesh
    decreases |lines|
  {
    hide RuleValid, Number;
    if lines != [] {
      ReadOthers(k, ReadLine(k, s, lines[0]), lines[1..]);
    }
  }

  lemma {:induction false} ReadCapped(k: Checks, s: State, mesh: seq<Mesh.Slot>)
    requires |s.mesh| <= Mesh.MAX_MESH && forall i :: 0 <= i < |mesh| ==> k.address(mesh[i].ip)
    ensures ReadLines(k, s, MeshLines(mesh)).mesh == Capped(s.mesh + mesh)
    decreases |mesh|
  {
    hide ReadLine, MeshLine;
    if mesh == [] {
      assert s.mesh + mesh == s.mesh;
    } else {
      var t := ReadLine(k, s, MeshLine(mesh[0]));
      assert MeshLines(mesh)[1..] == MeshLines(mesh[1..]);
      ReadCapped(k, t, mesh[1..]) by { MeshLineRoom(k, s, mesh[0]); }
      MeshLineRoom(k, s, mesh[0]);
      assert s.mesh + [mesh[0]] + mesh[1..] == s.mesh + mesh;
    }
  }

  lemma MeshLineRoom(k: Checks, s: State, m: Mesh.Slot)
    requires k.address(m.ip)
    ensures ReadLine(k, s, MeshLine(m)) == if |s.mesh| < Mesh.MAX_MESH then s.(mesh := s.mesh + [m]) else s
  {
    if |s.mesh| < Mesh.MAX_MESH {
      ReadMeshLine(k, s, m);
    }
  }

  /** The slots come back behind those the id planted, up to the limit of the list. */
  lemma MeshComesBack(k: Checks, s: State)
    requires Strict(k) && Holdable(k, s)
    ensures Loaded(k, Saved(s)).mesh == Capped(Planted(k, s.isoGrant) + s.mesh)
  {
    hide Loaded, Saved, WordLines, Joined, ReadLine, ReadLines, RuleValid, Decimal, Words, IsoLine, SeenLine, IsoStart, AllowLines, MeshLines, RuleLines, AfterBreak;
    SavedLater(k, s);
    var t := ReadLines(k, Nothing(), WordLines(Joined(IsoLine(s))));
    MeshPlanted(k, s);
    var a, b := [SeenLine(s)] + AllowLines(s.allow), [SeenLine(s)] + AllowLines(s.allow) + MeshLines(s.mesh);
    ReadConcat(k, t, a, MeshLines(s.mesh));
    ReadConcat(k, t, b, RuleLines(s.rules));
    OtherLines(s);
    ReadOthers(k, t, a);
    ReadCapped(k, ReadLines(k, t, a), s.mesh);
    ReadOthers(k, ReadLines(k, t, b), RuleLines(s.rules));
  }

  lemma OtherLines(s: State)
    ensures var a := [SeenLine(s)] + AllowLines(s.allow); forall i :: 0 <= i < |a| ==> a[i] != [] && a[i][0] != "mesh"
    ensures var a := RuleLines(s.rules); forall i :: 0 <= i < |a| ==> a[i] != [] && a[i][0] != "mesh"
  {
    hide Decimal;
  }

  lemma MeshPlanted(k: Checks, s: State)
    requires Word(s.source)
    ensures ReadLines(k, Nothing(), WordLines(Joined(IsoLine(s)))).mesh == Planted(k, s.isoGrant)
    ensures |Planted(k, s.isoGrant)| <= Mesh.MAX_MESH
  {
    hide WordLines, Joined, ReadLine, ReadLines, RuleValid, Decimal, Words, IsoLine, IsoStart, AfterBreak;
    var t := if s.isoGrant != [] then s else s.(isoGrant := "-");
    assert IsoLine(t) == IsoLine(s) by { assert t.isoGrant != []; DashLine(s); }
    DashBreaks();
    IsoBreaks(t);
    IsoStartWords(t);
    var first := IsoStart(t) + Words(t.isoGrant[..Run(t.isoGrant, c => Newline(c))]);
    var rest := WordLines(AfterBreak(t.isoGrant));
    ReadConcat(k, Nothing(), [first], rest);
    ReadOthers(k, Nothing(), [first]);
    ReadSameMesh(k, ReadLines(k, Nothing(), [first]), Nothing(), rest);
  }

  lemma DashLine(s: State)
    ensures s.isoGrant == [] ==> IsoLine(s.(isoGrant := "-")) == IsoLine(s)
  {
  }

  lemma DashBreaks()
    ensures AfterBreak("-") == AfterBreak("") == ""
  {
  }

  /** The slots come back as they were exactly when the id plants none. A grant id is
    at most 63 characters long. */
  lemma MeshSurvives(k: Checks, s: State)
    requires Strict(k) && Holdable(k, s) && Mesh.Distinct(s.mesh) && |s.isoGrant| < Mesh.MAX_MESH
    ensures Loaded(k, Saved(s)).mesh == s.mesh <==> Planted(k, s.isoGrant) == []
  {
    hide Loaded, Saved, RuleValid;
    MeshComesBack(k, s);
    PlantedFew(k, s.isoGrant);
    hide Planted;
    Shifted(Planted(k, s.isoGrant), s.mesh);
  }

  lemma Shifted(a: seq<Mesh.Slot>, b: seq<Mesh.Slot>)
    requires |a| < Mesh.MAX_MESH && |b| <= Mesh.MAX_MESH && Mesh.Distinct(b)
    ensures Capped(a + b) == b <==> a == []
  {
    if a == [] {
      assert a + b == b;
    } else if |a + b| > Mesh.MAX_MESH == |b| {
      assert Capped(a + b)[|a|] == b[0] != b[|a|];
    }
  }

  lemma PlantedFew(k: Checks, id: string)
    ensures |Planted(k, id)| <= |id|
  {
    hide ReadLines, Pieces, Words;
    ReadSameMesh(k, Nothing(), Nothing(), WordLines(AfterBreak(id)));
    PiecesFew(AfterBreak(id), c => Newline(c));
  }

  lemma {:induction false} PiecesFew(text: string, stop: char -> bool)
    ensures |Pieces(text, stop)| <= |text|
    decreases |text|
  {
    if text != [] {
      if stop(text[0]) {
        PiecesFew(text[1..], stop);
      } else {
        PiecesFew(text[Run(text, stop)..], stop);
      }
    }
  }

  /** An id without line breaks plants nothing. */
  lemma UnbrokenPlants(k: Checks, id: string)
    requires forall c :: c in id ==> !Newline(c)
    ensures Planted(k, id) == []
  {
    hide WordLines;
    UnbrokenId(id);
  }

  /** An id that plants a peer nobody ordered into quarantine. */
  lemma PeerPlanted(k: Checks, s: State)
    requires Strict(k) && Holdable(k, s) && s.isoGrant == "x\nmesh 10.0.0.9 1 5" && k.address("10.0.0.9")
    ensures Mesh.Quarantined(Loaded(k, Saved(s)).mesh, "10.0.0.9")
  {
    hide Loaded, Saved, RuleValid, Words, ReadLine, WordLines, Decimal;
    var m := Mesh.Slot("10.0.0.9", true, 5);
    var text := Text([MeshLine(m)]);
    MeshComesBack(k, s);
    TextOfSlot(m);
    assert Run(s.isoGrant, c => Newline(c)) == 1;
    assert AfterBreak(s.isoGrant) == "" + "\n" + "mesh 10.0.0.9 1 5";
    LinesSplit("", "mesh 10.0.0.9 1 5");
    NoWords();
    OneRead(k, Nothing(), MeshLine(m));
    ReadMeshLine(k, Nothing(), m);
    assert [] + [MeshLine(m)] == [MeshLine(m)];
    assert Planted(k, s.isoGrant) == [] + [m] == [m];
    assert ([m] + s.mesh)[0] == m && Capped([m] + s.mesh)[0] == m;
  }

  lemma NoWords()
    ensures WordLines("") == []
  {
  }

  lemma TextOfSlot(m: Mesh.Slot)
    requires m == Mesh.Slot("10.0.0.9", true, 5)
    ensures WordLines("mesh 10.0.0.9 1 5") == [MeshLine(m)]
  {
    hide Words, WordLines;
    assert Decimal(5) == "5";
    assert MeshLine(m) == ["mesh", "10.0.0.9", "1", "5"];
    hide Decimal, MeshLine;
    assert Word("mesh") && Word("10.0.0.9") && Word("1") && Word("5");
    JoinedFour("mesh", "10.0.0.9", "1", "5");
    assert Joined(MeshLine(m)) == "mesh 10.0.0.9 1 5";
    hide Joined;
    JoinedOneLine(MeshLine(m));
    OneLine(Joined(MeshLine(m)));
    WordsOfJoined(MeshLine(m));
  }

  // ---- what survives any id ----

  predicate KeepsSeen(line: seq<string>) {
    line != [] && line[0] != "seen" && line[0] != "iso"
  }

  lemma {:induction false} ReadKeepsSeen(k: Checks, s: State, lines: seq<seq<string>>)
    requires forall i :: 0 <= i < |lines| ==> KeepsSeen(lines[i])
    ensures ReadLines(k, s, lines).isoSeen == s.isoSeen && ReadLines(k, s, lines).meshSeen == s.meshSeen
    decreases |lines|
  {
    hide RuleValid, Number;
    if lines != [] {
      ReadKeepsSeen(k, ReadLine(k, s, lines[0]), lines[1..]);
    }
  }

  /** Both watermarks come back whatever the grant id is: what an id with line
    breaks in it adds to the file comes before them. */
  lemma SeenSurvives(k: Checks, s: State)
    requires Strict(k) && Holdable(k, s)
    ensures Loaded(k, Saved(s)).isoSeen == s.isoSeen && Loaded(k, Saved(s)).meshSeen == s.meshSeen
  {
    hide Loaded, Saved, WordLines, IsoLine, ReadLine, RuleValid, Decimal, SeenLine;
    SavedLater(k, s);
    var t := ReadLines(k, Nothing(), WordLines(Joined(IsoLine(s))));
    var rest := AllowLines(s.allow) + MeshLines(s.mesh) + RuleLines(s.rules);
    assert Later(s) == [SeenLine(s)] + rest;
    ReadConcat(k, t, [SeenLine(s)], rest);
    OneRead(k, t, SeenLine(s));
    ReadSeen(k, s, t);
    forall i | 0 <= i < |rest|
      ensures KeepsSeen(rest[i])
    {
    }
    ReadKeepsSeen(k, ReadLine(k, t, SeenLine(s)), rest);
  }

  lemma {:induction false} ReadHoldable(k: Checks, s: State, lines: seq<seq<string>>)
    requires Strict(k) && Holdable(k, s) && forall i :: 0 <= i < |lines| ==> AllWords(lines[i])
    ensures Holdable(k, ReadLines(k, s, lines))
    decreases |lines|
  {
    hide RuleValid, Number, Word;
    if lines != [] {
      assert AllWords(lines[0]);
      ReadHoldable(k, ReadLine(k, s, lines[0]), lines[1..]);
    }
  }

  /** Any file at all loads as a state the agent can hold. */
  lemma LoadedHoldable(k: Checks, text: string)
    requires Strict(k)
    ensures Holdable(k, Loaded(k, text))
  {
    hide ReadLines, Strict;
    assert Word("none");
    if HEADER <= text {
      var lines := WordLines(text[|HEADER|..]);
      forall i | 0 <= i < |lines|
        ensures AllWords(lines[i])
      {
        var line := Lines(text[|HEADER|..])[i];
        forall j | 0 <= j < |Words(line)|
          ensures Word(Words(line)[j])
        {
          PiecesClean(line, c => Space(c), j);
          PiecesFull(line, c => Space(c), j);
        }
      }
      ReadHoldable(k, Nothing(), lines);
    }
  }
}
