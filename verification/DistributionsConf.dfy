/** routers/distributions_router.py: the configuration of reprepro, written at start-up whenever the one on disk does not list
    every APT distribution with every required architecture. */
module DistributionsConf {
  import opened Sequences
  import opened Text

  // ----- Lines -----

  /** The characters at which `str.splitlines` breaks. */
  predicate IsBreak(c: char) {
    '\n' <= c <= '\r' || '\U{1c}' <= c <= '\U{1e}' || c == '\U{85}' || c == '\U{2028}' || c == '\U{2029}'
  }

  predicate OneLine(s: string) {
    forall c | c in s :: !IsBreak(c)
  }

  function FirstLine(s: string): (l: string)
    ensures |l| <= |s| && l == s[..|l|] && (|l| < |s| ==> IsBreak(s[|l|])) && OneLine(l)
  {
    if s == "" || IsBreak(s[0]) then "" else [s[0]] + FirstLine(s[1..])
  }

  /** Where the next line begins: "\r\n" is one break. */
  function Next(s: string): (n: nat)
    ensures n <= |s| && (s != "" ==> n > 0)
  {
    var n := |FirstLine(s)|;
    if n == |s| then n else if s[n] == '\r' && n + 1 < |s| && s[n + 1] == '\n' then n + 2 else n + 1
  }

  /** `s.splitlines()`: a break ends a line. */
  function Lines(s: string): seq<string>
    decreases |s|
  {
    if s == "" then [] else [FirstLine(s)] + Lines(s[Next(s)..])
  }

  // ----- The parser -----

  predicate HasHeader(line: string, header: string) {
    |header| <= |line| && forall i | 0 <= i < |header| :: LowerChar(line[i]) == header[i]
  }

  const CODENAME := "codename:"

  const ARCHITECTURES := "architectures:"

  const REQUIRED_ARCHITECTURES := ["amd64", "arm64"]

  datatype Parsed = Parsed(current: string, architectures: map<string, set<string>>)

  const START := Parsed("", map[])

  /** What one line of the file changes. */
  function Line(p: Parsed, line: string): Parsed {
    if HasHeader(line, CODENAME) then p.(current := Strip(line[|CODENAME|..]))
    else if HasHeader(line, ARCHITECTURES) && p.current != ""
    then p.(architectures := p.architectures[p.current := Elements(Words(line[|ARCHITECTURES|..]))])
    else p
  }

  function Parse(p: Parsed, lines: seq<string>): Parsed {
    if lines == [] then p else Line(Parse(p, lines[..|lines| - 1]), lines[|lines| - 1])
  }

  // ----- The table of distributions -----

  datatype Distribution = Distribution(codename: string, title: string, apk: bool)

  function Required(table: seq<Distribution>): set<string> {
    set d | d in table && !d.apk :: d.codename
  }

  predicate Complete(content: string, table: seq<Distribution>) {
    var architectures := Parse(START, Lines(content)).architectures;
    && Required(table) <= architectures.Keys
    && forall c | c in architectures && c in Required(table) :: Elements(REQUIRED_ARCHITECTURES) <= architectures[c]
  }

  // ----- The writer -----

  function OriginLine(): string { "Origin: Repod" }
  function TitleLine(d: Distribution): string { "Label: " + d.title }
  function CodenameLine(d: Distribution): string { "Codename: " + d.codename }
  function ArchitecturesLine(): string { "Architectures: " + REQUIRED_ARCHITECTURES[0] + " " + REQUIRED_ARCHITECTURES[1] }
  function ComponentsLine(): string { "Components: main" }
  function DescriptionLine(d: Distribution): string { "Description: Repod Enterprise \U{2014} " + d.title }
  function ContentsLine(): string { "Contents:" }
  function KeyLine(key: string): string { "SignWith: " + key }

  function Head(d: Distribution): seq<string> {
    [OriginLine(), TitleLine(d)]
  }

  function Tail(d: Distribution, key: Option<string>): seq<string> {
    [ComponentsLine(), DescriptionLine(d), ContentsLine()] + (if key.Some? && key.value != "" then [KeyLine(key.value)] else [])
  }

  function BlockLines(d: Distribution, key: Option<string>): seq<string> {
    Head(d) + [CodenameLine(d)] + [ArchitecturesLine()] + Tail(d, key)
  }

  /** Each line with its line end. */
  function Unlines(lines: seq<string>): string {
    if lines == [] then "" else lines[0] + "\n" + Unlines(lines[1..])
  }

  function Block(d: Distribution, key: Option<string>): string {
    Unlines(BlockLines(d, key))
  }

  function Blocks(table: seq<Distribution>, key: Option<string>): seq<string> {
    if table == [] then []
    else
      var before, d := Blocks(table[..|table| - 1], key), table[|table| - 1];
      if d.apk then before else before + [Block(d, key)]
  }

  /** `"\n".join(blocks)`. */
  function Join(blocks: seq<string>): string {
    if blocks == [] then ""
    else if |blocks| == 1 then blocks[0]
    else Join(blocks[..|blocks| - 1]) + "\n" + blocks[|blocks| - 1]
  }

  function Conf(table: seq<Distribution>, key: Option<string>): string {
    Join(Blocks(table, key))
  }

  // ----- The code -----

  class ConfDir {
    var distributions: Option<string>

    constructor (distributions: Option<string>)
      ensures this.distributions == distributions
    {
      this.distributions := distributions;
    }

    method WriteDistributionsConf(table: seq<Distribution>, key: Option<string>)
      modifies this
      ensures distributions == Some(Conf(table, key))
    {
      hide Block, Join;
      var blocks: seq<string>, i := [], 0;
      while i < |table|
        invariant 0 <= i <= |table| && blocks == Blocks(table[..i], key)
      {
        assert table[..i + 1][..i] == table[..i];
        if !table[i].apk {
          blocks := blocks + [Block(table[i], key)];
        }
        i := i + 1;
      }
      assert table[..i] == table;
      distributions := Some(Join(blocks));
    }

    method DistributionsConfIsComplete(table: seq<Distribution>) returns (complete: bool)
      ensures complete <==> distributions.Some? && Complete(distributions.value, table)
    {
      if distributions.None? {
        return false;
      }
      hide Lines, HasHeader, Strip, Words;
      var lines := Lines(distributions.value);
      var current, architectures: map<string, set<string>>, i := "", map[], 0;
      while i < |lines|
        invariant 0 <= i <= |lines| && Parsed(current, architectures) == Parse(START, lines[..i])
      {
        assert lines[..i + 1][..i] == lines[..i];
        if HasHeader(lines[i], CODENAME) {
          current := Strip(lines[i][|CODENAME|..]);
        } else if HasHeader(lines[i], ARCHITECTURES) && current != "" {
          architectures := architectures[current := Elements(Words(lines[i][|ARCHITECTURES|..]))];
        }
        i := i + 1;
      }
      assert lines[..i] == lines;
      if Required(table) - architectures.Keys != {} {
        assert !(Required(table) <= architectures.Keys);
        return false;
      }
      assert Required(table) <= architectures.Keys by {
        forall c | c in Required(table) ensures c in architectures.Keys {
          assert c in Required(table) - architectures.Keys || c in architectures.Keys;
        }
      }
      complete := forall c | c in architectures && c in Required(table) :: Elements(REQUIRED_ARCHITECTURES) <= architectures[c];
    }

    /** At start-up: the file is written again only when it is not complete. */
    method AutoInitApt(table: seq<Distribution>, key: Option<string>) returns (repaired: bool)
      modifies this
      ensures repaired <==> !(old(distributions).Some? && Complete(old(distributions).value, table))
      ensures distributions == if repaired then Some(Conf(table, key)) else old(distributions)
    {
      var complete := DistributionsConfIsComplete(table);
      if complete {
        return false;
      }
      WriteDistributionsConf(table, key);
      repaired := true;
    }
  }

  // ----- What a complete file says -----

  /** Line j gives architectures for c: the codename line in force is i. */
  ghost predicate Under(lines: seq<string>, i: nat, j: nat, c: string) {
    && i < j < |lines| && c != ""
    && HasHeader(lines[i], CODENAME) && Strip(lines[i][|CODENAME|..]) == c
    && HasHeader(lines[j], ARCHITECTURES)
    && forall k | i < k <= j :: !HasHeader(lines[k], CODENAME)
  }

  ghost predicate GivenAt(lines: seq<string>, j: nat, c: string) {
    j < |lines| && exists i :: Under(lines, i, j, c)
  }

  /** The codename in force after the last line, and at which line it was set. */
  lemma {:induction false} CurrentMeaning(lines: seq<string>) returns (at: int)
    ensures -1 <= at < |lines|
    ensures forall k | at < k < |lines| :: !HasHeader(lines[k], CODENAME)
    ensures at == -1 ==> Parse(START, lines).current == ""
    ensures at >= 0 ==> HasHeader(lines[at], CODENAME) && Parse(START, lines).current == Strip(lines[at][|CODENAME|..])
  {
    hide HasHeader, Strip, Words;
    if lines == [] {
      at := -1;
    } else if HasHeader(lines[|lines| - 1], CODENAME) {
      at := |lines| - 1;
    } else {
      var front := lines[..|lines| - 1];
      at := CurrentMeaning(front);
      assert forall k | 0 <= k < |front| :: lines[k] == front[k];
    }
  }

  /** The line decides for c: the last one that gives its architectures. */
  ghost predicate Decides(lines: seq<string>, j: nat, c: string) {
    j < |lines| && GivenAt(lines, j, c) && forall k | j < k < |lines| :: !GivenAt(lines, k, c)
  }

  lemma GivenAtLast(lines: seq<string>, c: string)
    requires lines != []
    ensures GivenAt(lines, |lines| - 1, c)
            <==> c != "" && HasHeader(lines[|lines| - 1], ARCHITECTURES) && !HasHeader(lines[|lines| - 1], CODENAME)
                 && Parse(START, lines[..|lines| - 1]).current == c
  {
    hide HasHeader, Strip, Words, Parse;
    var front, n := lines[..|lines| - 1], |lines| - 1;
    var at := CurrentMeaning(front);
    assert forall k | 0 <= k < |front| :: lines[k] == front[k];
    if at >= 0 && c != "" && HasHeader(lines[n], ARCHITECTURES) && !HasHeader(lines[n], CODENAME)
       && Parse(START, front).current == c {
      assert Under(lines, at, n, c);
    }
    forall i: nat | Under(lines, i, n, c)
      ensures HasHeader(lines[n], ARCHITECTURES) && !HasHeader(lines[n], CODENAME) && Parse(START, front).current == c
    {
      assert i == at;
    }
  }

  lemma GivenAtBefore(lines: seq<string>, j: nat, c: string)
    requires j < |lines| - 1
    ensures GivenAt(lines, j, c) <==> GivenAt(lines[..|lines| - 1], j, c)
  {
    hide HasHeader, Strip;
    var front := lines[..|lines| - 1];
    assert forall k | 0 <= k < |front| :: lines[k] == front[k];
    forall i: nat | Under(front, i, j, c) ensures Under(lines, i, j, c) {}
    forall i: nat | Under(lines, i, j, c) ensures Under(front, i, j, c) {}
  }

  /** The architectures that a line lists. */
  function Given(line: string): set<string> {
    if HasHeader(line, ARCHITECTURES) then Elements(Words(line[|ARCHITECTURES|..])) else {}
  }

  ghost predicate Says(lines: seq<string>, j: nat, c: string, words: set<string>) {
    Decides(lines, j, c) && words == Given(lines[j])
  }

  lemma OneDecides(lines: seq<string>, j: nat, k: nat, c: string)
    requires Decides(lines, j, c) && Decides(lines, k, c)
    ensures j == k
  {
    hide GivenAt;
  }

  /** The last line changes the architectures of c exactly when it gives them. */
  lemma LastLine(lines: seq<string>, c: string)
    requires lines != []
    ensures var before, after := Parse(START, lines[..|lines| - 1]).architectures, Parse(START, lines).architectures;
            if GivenAt(lines, |lines| - 1, c) then c in after && after[c] == Given(lines[|lines| - 1])
            else (c in after <==> c in before) && (c in after ==> after[c] == before[c])
  {
    GivenAtLast(lines, c);
    hide HasHeader, Strip, Words, GivenAt, Elements;
  }

  /** The parser finds exactly the codenames that have an architecture line under them, with the words of the last of these. */
  lemma {:induction false} ParserMeaning(lines: seq<string>, c: string) returns (j: nat)
    ensures c in Parse(START, lines).architectures ==> Says(lines, j, c, Parse(START, lines).architectures[c])
    ensures c !in Parse(START, lines).architectures ==> forall k: nat :: !GivenAt(lines, k, c)
  {
    hide *;
    j := 0;
    if lines == [] {
      NothingGiven(c);
    } else {
      var front, n := lines[..|lines| - 1], |lines| - 1;
      j := ParserMeaning(front, c);
      LastLine(lines, c);
      if GivenAt(lines, n, c) {
        LastSays(lines, c);
        j := n;
      } else if c in Parse(START, front).architectures {
        SaysKept(lines, j, c, Parse(START, front).architectures[c]);
      } else {
        forall k: nat ensures !GivenAt(lines, k, c) {
          if k < n { GivenAtBefore(lines, k, c); } else { GivenAtInside(lines, k, c); }
        }
      }
    }
  }

  lemma NothingGiven(c: string)
    ensures c !in Parse(START, []).architectures && forall k: nat :: !GivenAt([], k, c)
  {
  }

  lemma LastSays(lines: seq<string>, c: string)
    requires lines != [] && GivenAt(lines, |lines| - 1, c)
    ensures Says(lines, |lines| - 1, c, Given(lines[|lines| - 1]))
  {
    hide Given, GivenAt;
  }

  lemma GivenAtInside(lines: seq<string>, k: nat, c: string)
    ensures GivenAt(lines, k, c) ==> k < |lines|
  {
  }

  lemma SaysKept(lines: seq<string>, j: nat, c: string, words: set<string>)
    requires lines != [] && !GivenAt(lines, |lines| - 1, c) && Says(lines[..|lines| - 1], j, c, words)
    ensures Says(lines, j, c, words)
  {
    hide Given, GivenAt;
    GivenAtBefore(lines, j, c);
    forall k: nat | j < k < |lines| ensures !GivenAt(lines, k, c) {
      if k < |lines| - 1 { GivenAtBefore(lines, k, c); }
    }
  }

  /** The last architecture line under c names all the required architectures. */
  ghost predicate Covers(lines: seq<string>, j: nat, c: string) {
    Decides(lines, j, c) && Elements(REQUIRED_ARCHITECTURES) <= Given(lines[j])
  }

  predicate ListsAll(architectures: map<string, set<string>>, c: string) {
    c in architectures && Elements(REQUIRED_ARCHITECTURES) <= architectures[c]
  }

  ghost predicate Covered(lines: seq<string>, c: string) {
    exists j: nat :: Covers(lines, j, c)
  }

  lemma CoveredIff(lines: seq<string>, c: string)
    ensures ListsAll(Parse(START, lines).architectures, c) <==> Covered(lines, c)
  {
    var j := ParserMeaning(lines, c);
    hide Parse, Given, GivenAt;
    var architectures := Parse(START, lines).architectures;
    if ListsAll(architectures, c) {
      assert Covers(lines, j, c);
    }
    forall k: nat | Covers(lines, k, c) ensures ListsAll(architectures, c) {
      assert GivenAt(lines, k, c);
      if c in architectures { OneDecides(lines, j, k, c); }
    }
  }

  /** A text is complete exactly when it covers every APT codename of the table. */
  lemma CompleteIff(content: string, table: seq<Distribution>)
    ensures Complete(content, table) <==> forall c | c in Required(table) :: Covered(Lines(content), c)
  {
    var lines := Lines(content);
    var architectures := Parse(START, lines).architectures;
    forall c ensures ListsAll(architectures, c) <==> Covered(lines, c) {
      CoveredIff(lines, c);
    }
    hide Parse, Lines, Covered, Required;
    assert Complete(content, table) <==> forall c | c in Required(table) :: ListsAll(architectures, c);
  }

  // ----- What the writer writes -----

  predicate Ended(s: string) {
    s == "" || s[|s| - 1] == '\n'
  }

  lemma {:induction false} LinesOfLine(l: string, rest: string)
    requires OneLine(l)
    ensures Lines(l + "\n" + rest) == [l] + Lines(rest)
  {
    var s := l + "\n" + rest;
    FirstLineIs(l, "\n" + rest);
    assert s == l + ("\n" + rest);
    assert s[|l|] == '\n' && s[|l| + 1..] == rest;
  }

  lemma {:induction false} FirstLineIs(l: string, rest: string)
    requires OneLine(l) && (rest == "" || IsBreak(rest[0]))
    ensures FirstLine(l + rest) == l
  {
    if l == "" {
      assert l + rest == rest;
    } else {
      assert l[0] in l && (l + rest)[1..] == l[1..] + rest;
      FirstLineIs(l[1..], rest);
    }
  }

  lemma FirstConcat(a: string, b: string)
    requires a != "" && Ended(a)
    ensures FirstLine(a + b) == FirstLine(a) && |FirstLine(a)| < |a|
  {
    var l := FirstLine(a);
    assert |l| == |a| ==> l == a;
    assert a[|a| - 1] in a;
    assert |l| < |a|;
    hide FirstLine, OneLine, IsBreak;
    assert a + b == l + (a[|l|..] + b) && (a[|l|..] + b)[0] == a[|l|];
    FirstLineIs(l, a[|l|..] + b);
  }

  lemma NextConcat(a: string, b: string)
    requires a != "" && Ended(a)
    ensures FirstLine(a + b) == FirstLine(a) && Next(a + b) == Next(a) && Ended(a[Next(a)..])
  {
    FirstConcat(a, b);
    hide FirstLine, OneLine, IsBreak;
    var n := |FirstLine(a)|;
    assert (a + b)[n] == a[n] && (n + 1 < |a| ==> (a + b)[n + 1] == a[n + 1]);
  }

  lemma DropConcat(a: string, b: string, n: nat)
    requires n <= |a|
    ensures (a + b)[n..] == a[n..] + b
  {
  }

  lemma LinesStep(a: string, b: string)
    requires a != "" && Ended(a)
    ensures Lines(a) == [FirstLine(a)] + Lines(a[Next(a)..])
    ensures Lines(a + b) == [FirstLine(a)] + Lines(a[Next(a)..] + b)
  {
    NextConcat(a, b);
    DropConcat(a, b, Next(a));
    hide FirstLine, Next, Ended;
  }

  /** A text that ends with a line end is read before what follows it. */
  lemma {:induction false} LinesConcat(a: string, b: string)
    requires Ended(a)
    ensures Lines(a + b) == Lines(a) + Lines(b)
    decreases |a|
  {
    hide *;
    if a == "" {
      assert a + b == b;
      NoLines();
    } else {
      NextConcat(a, b);
      LinesStep(a, b);
      LinesConcat(a[Next(a)..], b);
      ThreeParts([FirstLine(a)], Lines(a[Next(a)..]), Lines(b));
    }
  }

  lemma ThreeParts(x: seq<string>, y: seq<string>, z: seq<string>)
    ensures x + (y + z) == x + y + z
  {
  }

  lemma {:induction false} LinesOfUnlines(lines: seq<string>)
    requires forall l | l in lines :: OneLine(l)
    ensures Lines(Unlines(lines)) == lines && Ended(Unlines(lines)) && (lines != [] ==> Unlines(lines) != "")
  {
    hide Lines, OneLine;
    if lines == [] {
      assert Lines("") == [] by { NoLines(); }
    } else {
      assert lines == [lines[0]] + lines[1..];
      LinesOfUnlines(lines[1..]);
      LinesOfLine(lines[0], Unlines(lines[1..]));
    }
  }

  lemma NoLines()
    ensures Lines("") == []
  {
  }

  ghost predicate Plain(d: Distribution, key: Option<string>) {
    OneLine(d.codename) && OneLine(d.title) && (key.Some? ==> OneLine(key.value))
  }

  lemma OneLineConcat(a: string, b: string)
    requires OneLine(a) && OneLine(b)
    ensures OneLine(a + b)
  {
  }

  predicate Silent(line: string) {
    !HasHeader(line, CODENAME) && !HasHeader(line, ARCHITECTURES)
  }

  /** The lines the parser passes over. */
  predicate Quiet(line: string) {
    Silent(line) && OneLine(line)
  }

  lemma QuietBy(header: string, rest: string, i: nat)
    requires i < |header| && i < 9 && OneLine(header) && OneLine(rest)
    requires LowerChar(header[i]) != CODENAME[i] && LowerChar(header[i]) != ARCHITECTURES[i]
    ensures Quiet(header + rest)
  {
    var line := header + rest;
    assert line[i] == header[i];
    OneLineConcat(header, rest);
    assert !HasHeader(line, CODENAME) && !HasHeader(line, ARCHITECTURES);
  }

  lemma OriginIsQuiet()
    ensures Quiet(OriginLine())
  {
    QuietBy("Origin: ", "Repod", 0);
    assert OriginLine() == "Origin: " + "Repod";
    hide Quiet;
  }

  lemma TitleIsQuiet(d: Distribution)
    requires OneLine(d.title)
    ensures Quiet(TitleLine(d))
  {
    QuietBy("Label: ", d.title, 0);
  }

  lemma ComponentsIsQuiet()
    ensures Quiet(ComponentsLine())
  {
    QuietBy("Components: ", "main", 2);
    assert ComponentsLine() == "Components: " + "main";
    hide Quiet;
  }

  lemma DescriptionIsQuiet(d: Distribution)
    requires OneLine(d.title)
    ensures Quiet(DescriptionLine(d))
  {
    QuietBy("Description: Repod Enterprise \U{2014} ", d.title, 0);
  }

  lemma ContentsIsQuiet()
    ensures Quiet(ContentsLine())
  {
    QuietBy("Contents:", "", 2);
    assert ContentsLine() == "Contents:" + "";
    hide Quiet;
  }

  lemma KeyIsQuiet(key: string)
    requires OneLine(key)
    ensures Quiet(KeyLine(key))
  {
    QuietBy("SignWith: ", key, 0);
  }

  lemma HeadAndTailAreQuiet(d: Distribution, key: Option<string>)
    requires Plain(d, key)
    ensures forall l | l in Head(d) || l in Tail(d, key) :: Quiet(l)
  {
    hide Quiet, OneLine, OriginLine, TitleLine, ComponentsLine, DescriptionLine, ContentsLine, KeyLine;
    OriginIsQuiet();
    TitleIsQuiet(d);
    ComponentsIsQuiet();
    DescriptionIsQuiet(d);
    ContentsIsQuiet();
    if key.Some? { KeyIsQuiet(key.value); }
  }

  lemma SpeakingArePlain(d: Distribution)
    requires OneLine(d.codename)
    ensures OneLine(CodenameLine(d)) && OneLine(ArchitecturesLine())
  {
    OneLineConcat("Codename: ", d.codename);
  }

  lemma BlockIsLines(d: Distribution, key: Option<string>)
    requires Plain(d, key)
    ensures Ended(Block(d, key)) && Block(d, key) != "" && Lines(Block(d, key)) == BlockLines(d, key)
  {
    HeadAndTailAreQuiet(d, key);
    SpeakingArePlain(d);
    hide Silent, OneLine, Lines, Ended, Head, Tail, CodenameLine, ArchitecturesLine;
    forall l | l in BlockLines(d, key) ensures OneLine(l) {
      assert l in Head(d) || l == CodenameLine(d) || l == ArchitecturesLine() || l in Tail(d, key);
    }
    LinesOfUnlines(BlockLines(d, key));
  }

  /** The lines of the whole file: those of the blocks, a blank one between two blocks. */
  function FileLines(table: seq<Distribution>, key: Option<string>): seq<string> {
    if table == [] then []
    else
      var before, d := FileLines(table[..|table| - 1], key), table[|table| - 1];
      if d.apk then before else before + (if before == [] then [] else [""]) + BlockLines(d, key)
  }

  lemma {:induction false} ConfLines(table: seq<Distribution>, key: Option<string>)
    requires forall d | d in table :: Plain(d, key)
    ensures Lines(Conf(table, key)) == FileLines(table, key) && Ended(Conf(table, key))
    ensures FileLines(table, key) == [] <==> Blocks(table, key) == []
  {
    if table != [] {
      var front, d := table[..|table| - 1], table[|table| - 1];
      ConfLines(front, key);
      if !d.apk {
        BlockIsLines(d, key);
        var blocks, block := Blocks(front, key), Block(d, key);
        hide Block, BlockLines, Lines, Plain, Ended, Join;
        if blocks == [] {
          assert [] + [block] == [block];
          assert Join([block]) == block by { JoinOne(block); }
        } else {
          JoinMore(blocks, block);
        }
      }
    }
  }

  // ----- What the file says, line by line -----

  /** The entry of one distribution. */
  function Stanza(d: Distribution, key: Option<string>): seq<string> {
    ["Origin: Repod", "Label: " + d.title, "Codename: " + d.codename, "Architectures: amd64 arm64", "Components: main",
     "Description: Repod Enterprise \U{2014} " + d.title, "Contents:"]
    + if key.Some? && key.value != "" then ["SignWith: " + key.value] else []
  }

  function AptEntries(table: seq<Distribution>): seq<Distribution> {
    if table == [] then []
    else AptEntries(table[..|table| - 1]) + if table[|table| - 1].apk then [] else [table[|table| - 1]]
  }

  lemma BlockIsStanza(d: Distribution, key: Option<string>)
    ensures BlockLines(d, key) == Stanza(d, key) && |Stanza(d, key)| == if key.Some? && key.value != "" then 8 else 7
  {
    assert ArchitecturesLine() == "Architectures: amd64 arm64";
  }

  /** Where entry j begins, in a file with or without a key. */
  function StanzaAt(j: nat, key: Option<string>): nat {
    if key.Some? && key.value != "" then 9 * j else 8 * j
  }

  predicate HasAt(lines: seq<string>, at: nat, part: seq<string>) {
    at + |part| <= |lines| && lines[at..at + |part|] == part
  }

  ghost predicate Holds(lines: seq<string>, apt: seq<Distribution>, key: Option<string>) {
    && |lines| == (if apt == [] then 0 else StanzaAt(|apt|, key) - 1)
    && (forall j | 0 <= j < |apt| :: HasAt(lines, StanzaAt(j, key), Stanza(apt[j], key)))
    && forall j | 0 < j < |apt| :: HasAt(lines, StanzaAt(j, key) - 1, [""])
  }

  lemma HasAtStill(lines: seq<string>, more: seq<string>, at: nat, part: seq<string>)
    requires HasAt(lines, at, part)
    ensures HasAt(lines + more, at, part)
  {
    assert (lines + more)[at..at + |part|] == lines[at..at + |part|];
  }

  lemma HasAtEnd(lines: seq<string>, part: seq<string>, more: seq<string>)
    ensures HasAt(lines + part, |lines|, part) && HasAt(lines + part + more, |lines|, part)
  {
    assert (lines + part)[|lines|..|lines| + |part|] == part;
    HasAtStill(lines + part, more, |lines|, part);
  }

  lemma HoldsMore(lines: seq<string>, apt: seq<Distribution>, d: Distribution, key: Option<string>)
    requires Holds(lines, apt, key)
    ensures Holds(lines + (if lines == [] then [] else [""]) + BlockLines(d, key), apt + [d], key)
  {
    BlockIsStanza(d, key);
    hide BlockLines, Stanza, HasAt;
    var n, block := |apt|, BlockLines(d, key);
    var blank := if lines == [] then [] else [""];
    var all, more := lines + blank + block, apt + [d];
    assert lines + (blank + block) == all;
    HasAtEnd(lines + blank, block, []);
    HasAtEnd(lines, blank, block);
    forall j | 0 <= j < |more| ensures HasAt(all, StanzaAt(j, key), Stanza(more[j], key)) {
      if j < n {
        assert more[j] == apt[j];
        HasAtStill(lines, blank + block, StanzaAt(j, key), Stanza(apt[j], key));
      } else {
        assert |lines + blank| == StanzaAt(n, key);
      }
    }
    forall j | 0 < j < |more| ensures HasAt(all, StanzaAt(j, key) - 1, [""]) {
      if j < n {
        HasAtStill(lines, blank + block, StanzaAt(j, key) - 1, [""]);
      }
    }
  }

  lemma {:induction false} FileHolds(table: seq<Distribution>, key: Option<string>)
    ensures Holds(FileLines(table, key), AptEntries(table), key)
  {
    hide Holds, BlockLines;
    if table == [] {
      NoEntries(key);
    } else {
      var front, d := table[..|table| - 1], table[|table| - 1];
      FileHolds(front, key);
      if d.apk {
        assert AptEntries(front) + [] == AptEntries(front);
      } else {
        HoldsMore(FileLines(front, key), AptEntries(front), d, key);
      }
    }
  }

  lemma NoEntries(key: Option<string>)
    ensures Holds([], [], key)
  {
  }

  /** Read line by line, the file written is the entries of the APT distributions in the table's order, a blank line between two, each
      with its SignWith line exactly when there is a key, and nothing else. */
  lemma WrittenHolds(table: seq<Distribution>, key: Option<string>)
    requires forall d | d in table :: Plain(d, key)
    ensures Holds(Lines(Conf(table, key)), AptEntries(table), key)
    ensures forall d :: d in AptEntries(table) <==> d in table && !d.apk
  {
    ConfLines(table, key);
    FileHolds(table, key);
    hide Lines, Holds, Conf, Plain, FileLines;
    AptEntriesMeaning(table);
  }

  lemma {:induction false} AptEntriesMeaning(table: seq<Distribution>)
    ensures forall d :: d in AptEntries(table) <==> d in table && !d.apk
  {
    if table != [] {
      AptEntriesMeaning(table[..|table| - 1]);
      assert table == table[..|table| - 1] + [table[|table| - 1]];
    }
  }

  lemma JoinOne(block: string)
    ensures Join([block]) == block
  {
  }

  lemma JoinMore(blocks: seq<string>, block: string)
    requires blocks != [] && Ended(Join(blocks)) && Ended(block) && block != ""
    ensures Lines(Join(blocks + [block])) == Lines(Join(blocks)) + [""] + Lines(block) && Ended(Join(blocks + [block]))
  {
    hide Lines;
    var text := Join(blocks);
    assert (blocks + [block])[..|blocks|] == blocks;
    assert Join(blocks + [block]) == (text + "\n") + block;
    LinesConcat(text + "\n", block);
    LinesConcat(text, "\n");
    BlankLine();
  }

  lemma BlankLine()
    ensures Lines("\n") == [""]
  {
    LinesOfLine("", "");
    assert "" + "\n" + "" == "\n";
  }

  // ----- How it is read back -----

  lemma {:induction false} ParseConcat(p: Parsed, a: seq<string>, b: seq<string>)
    ensures Parse(p, a + b) == Parse(Parse(p, a), b)
  {
    if b == [] {
      assert a + b == a;
    } else {
      assert (a + b)[..|a + b| - 1] == a + b[..|b| - 1];
      ParseConcat(p, a, b[..|b| - 1]);
    }
  }

  lemma {:induction false} ParseSilent(p: Parsed, lines: seq<string>)
    requires forall l | l in lines :: Silent(l)
    ensures Parse(p, lines) == p
  {
    if lines != [] {
      assert lines[|lines| - 1] in lines;
      ParseSilent(p, lines[..|lines| - 1]);
    }
  }

  lemma ParseOne(p: Parsed, line: string)
    ensures Parse(p, [line]) == Line(p, line)
  {
    assert [line][..0] == [];
  }

  lemma CodenameIsRead(d: Distribution)
    ensures HasHeader(CodenameLine(d), CODENAME) && Strip(CodenameLine(d)[|CODENAME|..]) == Strip(d.codename)
  {
    var line := CodenameLine(d);
    assert HasHeader(line, CODENAME);
    hide HasHeader;
    assert line[|CODENAME|..] == " " + d.codename;
    assert (" " + d.codename)[1..] == d.codename;
  }

  lemma ArchitecturesAreRead()
    ensures !HasHeader(ArchitecturesLine(), CODENAME) && HasHeader(ArchitecturesLine(), ARCHITECTURES)
    ensures Elements(Words(ArchitecturesLine()[|ARCHITECTURES|..])) == Elements(REQUIRED_ARCHITECTURES)
  {
    var line, v, w := ArchitecturesLine(), REQUIRED_ARCHITECTURES[0], REQUIRED_ARCHITECTURES[1];
    assert LowerChar(line[0]) != CODENAME[0];
    assert HasHeader(line, ARCHITECTURES);
    TwoWords(v, w);
    hide HasHeader, Words, Elements;
    assert line[|ARCHITECTURES|..] == " " + v + (" " + w);
  }

  lemma {:induction false} FirstWordIs(w: string, rest: string)
    requires forall c | c in w :: !IsSpace(c)
    requires rest == "" || IsSpace(rest[0])
    ensures FirstWord(w + rest) == w
  {
    if w == "" {
      assert w + rest == rest;
    } else {
      assert w[0] in w && (w + rest)[1..] == w[1..] + rest;
      FirstWordIs(w[1..], rest);
    }
  }

  lemma WordsStep(w: string, rest: string)
    requires w != "" && (forall c | c in w :: !IsSpace(c)) && (rest == "" || IsSpace(rest[0]))
    ensures Words(w + rest) == [w] + Words(rest) && Words(" " + w + rest) == Words(w + rest)
  {
    FirstWordIs(w, rest);
    hide FirstWord;
    assert w[0] in w && (w + rest)[0] == w[0] && (w + rest)[|w|..] == rest;
    assert (" " + w + rest)[1..] == w + rest;
  }

  lemma TwoWords(v: string, w: string)
    requires v != "" && (forall c | c in v :: !IsSpace(c)) && w != "" && forall c | c in w :: !IsSpace(c)
    ensures Words(" " + v + (" " + w)) == [v, w]
  {
    WordsStep(v, " " + w);
    WordsStep(w, "");
    assert Words("") == [];
    hide Words;
    assert " " + w + "" == " " + w && w + "" == w;
  }

  function WithBlock(p: Parsed, d: Distribution): Parsed {
    var c := Strip(d.codename);
    Parsed(c, if c == "" then p.architectures else p.architectures[c := Elements(REQUIRED_ARCHITECTURES)])
  }

  lemma QuietIsSilent(l: string)
    requires Quiet(l)
    ensures Silent(l)
  {
  }

  lemma BlockParsed(p: Parsed, d: Distribution, key: Option<string>)
    requires Plain(d, key)
    ensures Parse(p, BlockLines(d, key)) == WithBlock(p, d)
  {
    hide *;
    var head, codename, architectures, tail := Head(d), CodenameLine(d), ArchitecturesLine(), Tail(d, key);
    assert BlockLines(d, key) == head + ([codename] + ([architectures] + tail)) by { BlockParts(d, key); }
    ParseConcat(p, head, [codename] + ([architectures] + tail));
    assert forall l | l in head || l in tail :: Silent(l) by {
      HeadAndTailAreQuiet(d, key);
      assert forall l | l in head || l in tail :: Quiet(l);
      assert forall l :: Quiet(l) ==> Silent(l) by { forall l | Quiet(l) ensures Silent(l) { QuietIsSilent(l); } }
    }
    ParseSilent(p, head);
    ParseConcat(p, [codename], [architectures] + tail);
    ParseOne(p, codename);
    var named := Line(p, codename);
    ParseConcat(named, [architectures], tail);
    ParseOne(named, architectures);
    ParseSilent(Line(named, architectures), tail);
    SpeakingParsed(p, d);
  }

  lemma BlockParts(d: Distribution, key: Option<string>)
    ensures BlockLines(d, key) == Head(d) + ([CodenameLine(d)] + ([ArchitecturesLine()] + Tail(d, key)))
  {
    hide Head, CodenameLine, ArchitecturesLine, Tail;
  }

  lemma SpeakingParsed(p: Parsed, d: Distribution)
    ensures Line(Line(p, CodenameLine(d)), ArchitecturesLine()) == WithBlock(p, d)
  {
    CodenameIsRead(d);
    ArchitecturesAreRead();
    hide HasHeader, Strip, Words, Elements, CodenameLine, ArchitecturesLine;
  }

  ghost predicate Names(table: seq<Distribution>, c: string) {
    c != "" && exists d :: d in table && !d.apk && Strip(d.codename) == c
  }

  lemma NamesMore(table: seq<Distribution>, c: string)
    requires table != []
    ensures var front, d := table[..|table| - 1], table[|table| - 1];
            Names(table, c) <==> Names(front, c) || (!d.apk && c != "" && Strip(d.codename) == c)
  {
    hide Strip;
    var front, d := table[..|table| - 1], table[|table| - 1];
    assert forall e :: e in table <==> e in front || e == d;
  }

  /** The file written for a table lists, for each non-empty stripped APT codename, the required architectures, and nothing else. */
  lemma {:induction false} FileParsed(table: seq<Distribution>, key: Option<string>, c: string)
    requires forall d | d in table :: Plain(d, key)
    ensures var architectures := Parse(START, FileLines(table, key)).architectures;
            && (c in architectures <==> Names(table, c))
            && (c in architectures ==> architectures[c] == Elements(REQUIRED_ARCHITECTURES))
  {
    if table != [] {
      var front, d := table[..|table| - 1], table[|table| - 1];
      hide *;
      FileParsed(front, key, c);
      NamesMore(table, c);
      FileLinesMore(table, key);
      if !d.apk {
        var before := FileLines(front, key);
        BlockAppended(before, if before == [] then [] else [""], d, key);
        WithBlockMeaning(Parse(START, before), d, c);
      }
    } else {
      hide Strip;
    }
  }

  lemma FileLinesMore(table: seq<Distribution>, key: Option<string>)
    requires table != []
    ensures var before, d := FileLines(table[..|table| - 1], key), table[|table| - 1];
            FileLines(table, key) == if d.apk then before else before + (if before == [] then [] else [""]) + BlockLines(d, key)
  {
    hide BlockLines;
  }

  lemma WithBlockMeaning(p: Parsed, d: Distribution, c: string)
    ensures var q := WithBlock(p, d).architectures;
            && (c in q <==> c in p.architectures || (c != "" && Strip(d.codename) == c))
            && (c in q ==> q[c] == if c != "" && Strip(d.codename) == c then Elements(REQUIRED_ARCHITECTURES) else p.architectures[c])
  {
    hide Strip, Elements;
  }

  lemma BlockAppended(before: seq<string>, blank: seq<string>, d: Distribution, key: Option<string>)
    requires Plain(d, key) && (blank == [] || blank == [""])
    ensures Parse(START, before + blank + BlockLines(d, key)) == WithBlock(Parse(START, before), d)
  {
    assert forall l | l in blank :: Silent(l);
    hide Silent, Parse, BlockLines, WithBlock, Plain;
    ParseConcat(START, before + blank, BlockLines(d, key));
    ParseConcat(START, before, blank);
    ParseSilent(Parse(START, before), blank);
    BlockParsed(Parse(START, before), d, key);
  }

  /** The name is read back as it was written. */
  predicate Stable(codename: string) {
    codename != "" && Strip(codename) == codename
  }

  /** Whatever the key, the file just written for line-break-free titles, codenames and key is complete exactly when every APT
      codename is non-empty and has no white space at its ends. */
  lemma WrittenIsCompleteIff(table: seq<Distribution>, key: Option<string>)
    requires forall d | d in table :: Plain(d, key)
    ensures Complete(Conf(table, key), table) <==> forall c | c in Required(table) :: Stable(c)
  {
    ConfLines(table, key);
    hide Parse, Lines, Conf, FileLines, Elements, Plain;
    var architectures := Parse(START, FileLines(table, key)).architectures;
    forall c
      ensures c in Required(table) ==> (c in architectures <==> Stable(c))
      ensures c in architectures ==> architectures[c] == Elements(REQUIRED_ARCHITECTURES)
    {
      FileParsed(table, key, c);
      if c in Required(table) { RequiredIsNamed(table, c); }
    }
    hide Required, Stable;
  }

  lemma RequiredIsNamed(table: seq<Distribution>, c: string)
    requires c in Required(table)
    ensures Names(table, c) <==> Stable(c)
  {
    hide Strip;
    var d :| d in table && !d.apk && d.codename == c;
    assert Stable(c) ==> Strip(d.codename) == c;
    if Names(table, c) {
      var e :| e in table && !e.apk && Strip(e.codename) == c;
      StripIdempotent(e.codename);
    }
  }

  lemma {:induction false} StripIdempotent(s: string)
    ensures Strip(Strip(s)) == Strip(s)
  {
    StripEnds(s);
    StripRightEnds(StripLeft(s));
  }

  lemma {:induction false} StripEnds(s: string)
    ensures StripLeft(s) == "" || !IsSpace(StripLeft(s)[0])
  {
    if s != "" && IsSpace(s[0]) { StripEnds(s[1..]); }
  }

  lemma {:induction false} StripRightEnds(s: string)
    ensures var r := StripRight(s);
            (r == "" || !IsSpace(r[|r| - 1])) && r <= s
  {
    if s != "" && IsSpace(s[|s| - 1]) { StripRightEnds(s[..|s| - 1]); }
  }

  // ----- Repair -----

  /** Where codenames are stable a repair happens at most once: the file it writes is complete at every later start, whatever
      key is then in use. Where one is not, every start repairs again. */
  method RepairOnce(dir: ConfDir, table: seq<Distribution>, key: Option<string>, laterKey: Option<string>)
    returns (first: bool, second: bool)
    requires forall d | d in table :: Plain(d, key)
    modifies dir
    ensures first <==> !(old(dir.distributions).Some? && Complete(old(dir.distributions).value, table))
    ensures second <==> first && !forall c | c in Required(table) :: Stable(c)
  {
    WrittenIsCompleteIff(table, key);
    hide Complete, Conf, Required, Stable, Plain;
    first := dir.AutoInitApt(table, key);
    second := dir.AutoInitApt(table, laterKey);
  }

  const DIST_META := [
    Distribution("jammy", "Ubuntu 22.04 LTS", false),
    Distribution("noble", "Ubuntu 24.04 LTS", false),
    Distribution("focal", "Ubuntu 20.04 LTS", false),
    Distribution("bookworm", "Debian 12", false),
    Distribution("alpine3.18", "Alpine Linux 3.18", true),
    Distribution("alpine3.19", "Alpine Linux 3.19", true),
    Distribution("alpine3.20", "Alpine Linux 3.20", true),
    Distribution("alpine3.21", "Alpine Linux 3.21", true)]

  lemma StableBy(c: string)
    requires c != "" && !IsSpace(c[0]) && !IsSpace(c[|c| - 1])
    ensures Stable(c)
  {
  }

  /** The shipped table is one of those. */
  lemma ShippedTableIsStable()
    ensures forall c | c in Required(DIST_META) :: Stable(c)
  {
    StableBy("jammy");
    StableBy("noble");
    StableBy("focal");
    StableBy("bookworm");
    hide Stable;
  }
}
