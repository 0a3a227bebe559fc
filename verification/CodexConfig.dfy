/** Switching plugin sections of a Codex configuration off, line by line. */
module CodexConfig {
  import opened Sorting
  import opened Strings

  const MAX_CONFIG_SUPPRESSION_HEADER_LENGTH: nat := 256
  const PLUGIN_PREFIX := "[plugins.\""
  const PLUGIN_SUFFIX := "\"]"
  const OFF := "enabled = false"

  /* ---------- Lines ---------- */

  predicate Bracketed(s: string, open: string, close: string) {
    |open| + |close| <= |s| && s[..|open|] == open && s[|s| - |close|..] == close
  }

  predicate IsSafePluginSectionHeader(header: string) {
    && |header| <= MAX_CONFIG_SUPPRESSION_HEADER_LENGTH
    && |PLUGIN_PREFIX| + |PLUGIN_SUFFIX| < |header|
    && Bracketed(header, PLUGIN_PREFIX, PLUGIN_SUFFIX)
    && forall i :: |PLUGIN_PREFIX| <= i < |header| - |PLUGIN_SUFFIX| ==> header[i] !in "\"\r\n"
  }

  predicate IsHeader(line: string) {
    var trimmed := Trim(line);
    trimmed != [] && trimmed[0] == '[' && trimmed[|trimmed| - 1] == ']'
  }

  predicate IsEnabledLine(line: string) {
    var rest := TrimStart(line);
    "enabled" <= rest && var value := TrimStart(rest[|"enabled"|..]); value != [] && value[0] == '='
  }

  lemma EnabledLine(value: string)
    requires |value| > 1 && value[0] == ' ' && value[1] == '='
    ensures IsEnabledLine("enabled" + value)
  {
    assert IsSpace(' ') && !IsSpace('=') && !IsSpace('e');
    hide IsSpace;
    var line := "enabled" + value;
    assert TrimStart(line) == line;
    assert TrimStart(value) == value[1..];
    assert line[|"enabled"|..] == value;
  }

  lemma OffIsEnabledLine()
    ensures IsEnabledLine(OFF) && Trim(OFF) == OFF && Trim("") == ""
  {
    TrimmedIsFixed(OFF);
    hide IsEnabledLine;
    assert OFF == "enabled" + " = false";
    EnabledLine(" = false");
  }

  lemma EnabledLinesAreNoHeaders(line: string)
    ensures IsEnabledLine(line) ==> !IsHeader(line)
  {
    var rest := TrimStart(line);
    if IsEnabledLine(line) {
      assert rest[0] == "enabled"[0] == 'e';
      assert Trim(line) <= rest;
    }
  }

  lemma SafeHeadersAreHeaders(header: string)
    requires IsSafePluginSectionHeader(header)
    ensures IsHeader(header) && Trim(header) == header
  {
    assert header[0] == header[..10][0] == '[';
    assert header[|header| - 1] == header[|header| - 2..][1] == ']';
    TrimmedIsFixed(header);
  }

  ghost predicate IsTable(line: string, a: string, name: string, b: string) {
    AllSpace(a) && AllSpace(b) && line == a + ("[" + name + "]") + b
  }

  /** A header is whatever stands in square brackets, with white space around it: every table, not only targets. */
  lemma HeaderIff(line: string)
    ensures IsHeader(line) <==> exists a, name, b :: IsTable(line, a, name, b)
  {
    assert !IsSpace('[') && !IsSpace(']');
    hide IsSpace, Trim;
    if IsHeader(line) {
      var t := Trim(line);
      var a, b := TrimTakes(line);
      assert t == "[" + t[1..|t| - 1] + "]";
      assert IsTable(line, a, t[1..|t| - 1], b);
    }
    if a, name, b :| IsTable(line, a, name, b) {
      TrimPadded(a, "[" + name + "]", b);
    }
  }

  /** White space, a word, white space, an equals sign, and anything. */
  ghost predicate Assigns(line: string, word: string, a: string, b: string, rest: string) {
    AllSpace(a) && AllSpace(b) && line == a + (word + (b + ("=" + rest)))
  }

  lemma WordThenEquals(line: string, word: string) returns (a: string, b: string, rest: string)
    requires word <= TrimStart(line)
    requires var value := TrimStart(TrimStart(line)[|word|..]); value != [] && value[0] == '='
    ensures Assigns(line, word, a, b, rest)
  {
    hide TrimStart, AllSpace;
    a := TrimStartTakes(line);
    var tail := TrimStart(line)[|word|..];
    b := TrimStartTakes(tail);
    rest := TrimStart(tail)[1..];
    assert TrimStart(line) == word + tail && TrimStart(tail) == "=" + rest;
  }

  lemma AssignedWord(line: string, word: string, a: string, b: string, rest: string)
    requires Assigns(line, word, a, b, rest) && word != [] && !IsSpace(word[0])
    ensures TrimStart(line) == word + (b + ("=" + rest))
    ensures TrimStart(b + ("=" + rest)) == "=" + rest
  {
    assert !IsSpace('=');
    var tail := b + ("=" + rest);
    assert (word + tail)[0] == word[0];
    hide IsSpace, AllSpace;
    TrimStartPadded(a, word + tail);
    TrimStartPadded(b, "=" + rest);
  }

  /** A line sets the flag when it says `enabled`, an equals sign and anything, with white space between them. */
  lemma EnabledIff(line: string)
    ensures IsEnabledLine(line) <==> exists a, b, rest :: Assigns(line, "enabled", a, b, rest)
  {
    assert !IsSpace('e') && "enabled"[0] == 'e';
    hide IsSpace, TrimStart, Assigns;
    if IsEnabledLine(line) {
      var a, b, rest := WordThenEquals(line, "enabled");
    }
    if a, b, rest :| Assigns(line, "enabled", a, b, rest) {
      AssignedWord(line, "enabled", a, b, rest);
      assert ("enabled" + (b + ("=" + rest)))[|"enabled"|..] == b + ("=" + rest);
    }
  }

  ghost predicate NamesPlugin(header: string, name: string) {
    && header == "[plugins.\"" + name + "\"]" && name != []
    && forall i :: 0 <= i < |name| ==> name[i] !in "\"\r\n"
  }

  /** A header is safe when it names a plugin, in quotes and on one line, within 256 characters. */
  lemma SafeHeaderIff(header: string)
    ensures IsSafePluginSectionHeader(header) <==> |header| <= 256 && exists name :: NamesPlugin(header, name)
  {
    assert |PLUGIN_PREFIX| == 10 && |PLUGIN_SUFFIX| == 2;
    if IsSafePluginSectionHeader(header) {
      var name := header[10..|header| - 2];
      assert header == header[..10] + name + header[|header| - 2..];
      assert forall i :: 0 <= i < |name| ==> name[i] == header[10 + i];
      assert NamesPlugin(header, name);
    }
    if name :| NamesPlugin(header, name) {
      assert header[..10] == PLUGIN_PREFIX && header[|header| - 2..] == PLUGIN_SUFFIX;
      assert forall i :: 10 <= i < |header| - 2 ==> header[i] == name[i - 10];
    }
  }

  /** The safe headers, each once, in the order of their first mention. */
  function Targets(headers: seq<string>): (r: seq<string>)
    ensures Distinct(r)
    ensures forall h :: h in r <==> h in headers && IsSafePluginSectionHeader(h)
  {
    if headers == [] then []
    else
      var k := |headers| - 1;
      var r := Targets(headers[..k]);
      assert headers == headers[..k] + [headers[k]];
      if IsSafePluginSectionHeader(headers[k]) && headers[k] !in r then r + [headers[k]] else r
  }

  /* ---------- Documents: a preamble and sections ---------- */

  datatype Section = Section(header: string, body: seq<string>)
  datatype Document = Document(preamble: seq<string>, sections: seq<Section>)

  function Extend(d: Document, line: string): Document {
    if IsHeader(line) then Document(d.preamble, d.sections + [Section(line, [])])
    else if d.sections == [] then Document(d.preamble + [line], [])
    else
      var k := |d.sections| - 1;
      var last := d.sections[k];
      Document(d.preamble, d.sections[..k] + [Section(last.header, last.body + [line])])
  }

  function Sectioned(lines: seq<string>): Document {
    if lines == [] then Document([], []) else Extend(Sectioned(lines[..|lines| - 1]), lines[|lines| - 1])
  }

  function Joined(sections: seq<Section>): seq<string> {
    if sections == [] then []
    else
      var k := |sections| - 1;
      Joined(sections[..k]) + [sections[k].header] + sections[k].body
  }

  function Flattened(d: Document): seq<string> {
    d.preamble + Joined(d.sections)
  }

  predicate NoHeader(body: seq<string>) {
    forall i :: 0 <= i < |body| ==> !IsHeader(body[i])
  }

  predicate WellFormed(d: Document) {
    NoHeader(d.preamble) && forall i :: 0 <= i < |d.sections| ==>
      IsHeader(d.sections[i].header) && NoHeader(d.sections[i].body)
  }

  lemma ExtendAddsTheLine(d: Document, line: string)
    requires WellFormed(d)
    ensures WellFormed(Extend(d, line)) && Flattened(Extend(d, line)) == Flattened(d) + [line]
  {
    hide IsHeader, IsEnabledLine, Trim;
    var e := Extend(d, line);
    if IsHeader(line) {
      assert e.sections[..|d.sections|] == d.sections;
      assert Joined(e.sections) == Joined(d.sections) + [line];
    } else if d.sections != [] {
      var k := |d.sections| - 1;
      assert e.sections[..k] == d.sections[..k];
    }
  }

  lemma {:induction false} FlattenedSectioned(lines: seq<string>)
    ensures WellFormed(Sectioned(lines)) && Flattened(Sectioned(lines)) == lines
  {
    if lines != [] {
      hide Extend, Flattened, WellFormed;
      assert lines == lines[..|lines| - 1] + [lines[|lines| - 1]];
      FlattenedSectioned(lines[..|lines| - 1]);
      ExtendAddsTheLine(Sectioned(lines[..|lines| - 1]), lines[|lines| - 1]);
    }
  }

  lemma SectionedSnoc(lines: seq<string>, line: string)
    ensures Sectioned(lines + [line]) == Extend(Sectioned(lines), line)
  {
    hide IsHeader, IsEnabledLine, Trim;
    assert (lines + [line])[..|lines|] == lines;
  }

  function WithBody(d: Document, body: seq<string>): Document {
    if d.sections == [] then Document(d.preamble + body, [])
    else
      var k := |d.sections| - 1;
      Document(d.preamble, d.sections[..k] + [Section(d.sections[k].header, d.sections[k].body + body)])
  }

  lemma WithBodySnoc(d: Document, body: seq<string>, line: string)
    requires !IsHeader(line)
    ensures Extend(WithBody(d, body), line) == WithBody(d, body + [line])
  {
    hide IsHeader, IsEnabledLine, Trim;
    if d.sections == [] {
      assert d.preamble + (body + [line]) == d.preamble + body + [line];
    } else {
      var k := |d.sections| - 1;
      assert WithBody(d, body).sections[..k] == d.sections[..k];
      assert d.sections[k].body + (body + [line]) == d.sections[k].body + body + [line];
    }
  }

  lemma {:induction false} SectionedBody(lines: seq<string>, body: seq<string>)
    requires NoHeader(body)
    ensures Sectioned(lines + body) == WithBody(Sectioned(lines), body)
  {
    hide IsHeader, IsEnabledLine, Trim, Extend, Sectioned;
    var d := Sectioned(lines);
    if body == [] {
      assert lines + body == lines && d.preamble + body == d.preamble;
      if d.sections != [] {
        var k := |d.sections| - 1;
        assert d.sections[k].body + body == d.sections[k].body;
      }
    } else {
      var k := |body| - 1;
      SectionedBody(lines, body[..k]);
      assert lines + body == (lines + body[..k]) + [body[k]] && body == body[..k] + [body[k]];
      SectionedSnoc(lines + body[..k], body[k]);
      WithBodySnoc(d, body[..k], body[k]);
    }
  }

  lemma {:induction false} SectionedFlattened(d: Document)
    requires WellFormed(d)
    ensures Sectioned(Flattened(d)) == d
    decreases |d.sections|
  {
    hide IsHeader, IsEnabledLine, Trim;
    if d.sections == [] {
      assert Flattened(d) == [] + d.preamble;
      SectionedBody([], d.preamble);
    } else {
      var k := |d.sections| - 1;
      var init, last := Document(d.preamble, d.sections[..k]), d.sections[k];
      SectionedFlattened(init);
      FlattenedLast(d);
      hide Flattened, Sectioned, Extend, WithBody;
      SectionedSnoc(Flattened(init), last.header);
      SectionedBody(Flattened(init) + [last.header], last.body);
      ReopenLast(d);
    }
  }

  lemma FlattenedLast(d: Document)
    requires d.sections != []
    ensures var k := |d.sections| - 1;
      Flattened(d) == Flattened(Document(d.preamble, d.sections[..k])) + [d.sections[k].header] + d.sections[k].body
  {
  }

  lemma ReopenLast(d: Document)
    requires d.sections != [] && IsHeader(d.sections[|d.sections| - 1].header)
    ensures var k := |d.sections| - 1;
      WithBody(Extend(Document(d.preamble, d.sections[..k]), d.sections[k].header), d.sections[k].body) == d
  {
    hide IsHeader;
    var k := |d.sections| - 1;
    var last := d.sections[k];
    assert (d.sections[..k] + [Section(last.header, [])])[..k] == d.sections[..k];
    assert [] + last.body == last.body;
  }

  /* ---------- What disabling does ---------- */

  function SwitchOff(line: string): string {
    if IsEnabledLine(line) then OFF else line
  }

  function SwitchedOff(body: seq<string>): (r: seq<string>)
    ensures |r| == |body|
  {
    seq(|body|, i requires 0 <= i < |body| => SwitchOff(body[i]))
  }

  predicate HasEnabled(body: seq<string>) {
    exists i :: 0 <= i < |body| && IsEnabledLine(body[i])
  }

  function DisabledSection(s: Section, targets: seq<string>): Section {
    if Trim(s.header) !in targets then s
    else Section(s.header, SwitchedOff(s.body) + if HasEnabled(s.body) then [] else [OFF])
  }

  function DisabledSections(sections: seq<Section>, targets: seq<string>): (r: seq<Section>)
    ensures |r| == |sections|
  {
    seq(|sections|, i requires 0 <= i < |sections| => DisabledSection(sections[i], targets))
  }

  function Mentioned(sections: seq<Section>): set<string> {
    set i | 0 <= i < |sections| :: Trim(sections[i].header)
  }

  function Missing(targets: seq<string>, mentioned: set<string>): (r: seq<string>)
    ensures Distinct(targets) ==> Distinct(r)
    ensures forall t :: t in r <==> t in targets && t !in mentioned
  {
    if targets == [] then []
    else
      var k := |targets| - 1;
      assert targets == targets[..k] + [targets[k]];
      Missing(targets[..k], mentioned) + if targets[k] in mentioned then [] else [targets[k]]
  }

  function AppendSection(output: seq<string>, header: string): seq<string> {
    output + (if output != [] && Trim(output[|output| - 1]) != [] then [""] else []) + [header, OFF]
  }

  function Appended(output: seq<string>, headers: seq<string>): seq<string> {
    if headers == [] then output
    else AppendSection(Appended(output, headers[..|headers| - 1]), headers[|headers| - 1])
  }

  function DisabledLines(lines: seq<string>, targets: seq<string>, appendMissing: bool): seq<string> {
    var d := Sectioned(lines);
    var output := Flattened(Document(d.preamble, DisabledSections(d.sections, targets)));
    if appendMissing then Appended(output, Missing(targets, Mentioned(d.sections))) else output
  }

  /* ---------- The rewriter ---------- */

  ghost predicate InTarget(d: Document, targets: seq<string>) {
    d.sections != [] && Trim(d.sections[|d.sections| - 1].header) in targets
  }

  ghost predicate LastHasEnabled(d: Document) {
    d.sections != [] && HasEnabled(d.sections[|d.sections| - 1].body)
  }

  /** The output while the last section is still open. */
  ghost function OpenOutput(d: Document, targets: seq<string>): seq<string> {
    if d.sections == [] then d.preamble
    else
      var k := |d.sections| - 1;
      d.preamble + Joined(DisabledSections(d.sections[..k], targets)) + [d.sections[k].header]
      + if InTarget(d, targets) then SwitchedOff(d.sections[k].body) else d.sections[k].body
  }

  lemma CloseSection(d: Document, targets: seq<string>)
    ensures OpenOutput(d, targets) + (if InTarget(d, targets) && !LastHasEnabled(d) then [OFF] else [])
      == Flattened(Document(d.preamble, DisabledSections(d.sections, targets)))
  {
    hide IsHeader, IsEnabledLine, Trim;
    if d.sections != [] {
      var k := |d.sections| - 1;
      assert DisabledSections(d.sections, targets)[..k] == DisabledSections(d.sections[..k], targets);
    } else {
      assert DisabledSections(d.sections, targets) == [];
    }
  }

  lemma OpenOutputStep(d: Document, line: string, targets: seq<string>)
    requires !IsHeader(line)
    ensures var kept := if InTarget(d, targets) then SwitchOff(line) else line;
      OpenOutput(Extend(d, line), targets) == OpenOutput(d, targets) + [kept]
    ensures InTarget(Extend(d, line), targets) == InTarget(d, targets)
    ensures d.sections != [] ==> (LastHasEnabled(Extend(d, line)) <==> LastHasEnabled(d) || IsEnabledLine(line))
    ensures Mentioned(Extend(d, line).sections) == Mentioned(d.sections)
  {
    hide IsHeader, IsEnabledLine, Trim;
    var e := Extend(d, line);
    if d.sections != [] {
      var k := |d.sections| - 1;
      var body := d.sections[k].body;
      assert e.sections[..k] == d.sections[..k];
      assert e.sections[k].body == body + [line];
      assert SwitchedOff(body + [line]) == SwitchedOff(body) + [SwitchOff(line)];
      assert IsEnabledLine((body + [line])[|body|]) == IsEnabledLine(line);
      if LastHasEnabled(d) {
        var i :| 0 <= i < |body| && IsEnabledLine(body[i]);
        assert IsEnabledLine((body + [line])[i]);
      }
      forall i | 0 <= i <= k ensures e.sections[i].header == d.sections[i].header {}
      assert Mentioned(e.sections) == Mentioned(d.sections);
    }
  }

  lemma OpenOutputHeader(d: Document, line: string, targets: seq<string>)
    requires IsHeader(line)
    ensures OpenOutput(Extend(d, line), targets)
      == Flattened(Document(d.preamble, DisabledSections(d.sections, targets))) + [line]
    ensures InTarget(Extend(d, line), targets) == (Trim(line) in targets) && !LastHasEnabled(Extend(d, line))
    ensures Mentioned(Extend(d, line).sections) == Mentioned(d.sections) + {Trim(line)}
  {
    hide IsHeader, IsEnabledLine, Trim;
    var e := Extend(d, line);
    assert e.sections[..|d.sections|] == d.sections;
    assert Mentioned(e.sections) == Mentioned(d.sections) + {Trim(line)} by {
      assert e.sections[|d.sections|].header == line;
      forall i | 0 <= i < |d.sections| ensures e.sections[i] == d.sections[i] {}
    }
    assert SwitchedOff([]) == [];
  }

  method DisableCodexConfigSections(config: string, sectionHeaders: seq<string>, appendMissing: bool)
      returns (r: string)
    ensures r == JoinLines(DisabledLines(SplitLines(config), Targets(sectionHeaders), appendMissing))
  {
    hide IsHeader, IsEnabledLine, Flattened, Joined, DisabledSections, SwitchedOff, HasEnabled, Targets, Extend,
      OpenOutput, InTarget, LastHasEnabled, Mentioned, Missing;
    var targets := Targets(sectionHeaders);
    var lines := SplitLines(config);
    var output: seq<string> := [];
    var inTargetSection, targetSectionHasEnabled := false, false;
    var seenTargetSections: set<string> := {};
    ghost var d := Document([], []);
    EmptyOutput(targets);
    var i := 0;
    while i < |lines|
      invariant 0 <= i <= |lines| && d == Sectioned(lines[..i])
      invariant output == OpenOutput(d, targets) && inTargetSection == InTarget(d, targets)
      invariant targetSectionHasEnabled == (inTargetSection && LastHasEnabled(d))
      invariant forall t :: t in seenTargetSections <==> t in targets && t in Mentioned(d.sections)
    {
      var line := lines[i];
      SectionedSnoc(lines[..i], line);
      assert lines[..i + 1] == lines[..i] + [line];
      if IsHeader(line) {
        CloseSection(d, targets);
        assert output + [] == output;
        OpenOutputHeader(d, line, targets);
        if inTargetSection && !targetSectionHasEnabled {
          output := output + [OFF];
        }
        inTargetSection := Trim(line) in targets;
        if inTargetSection {
          seenTargetSections := seenTargetSections + {Trim(line)};
        }
        targetSectionHasEnabled := false;
        output := output + [line];
      } else {
        OpenOutputStep(d, line, targets);
        if inTargetSection { TargetHasSections(d, targets); }
        if inTargetSection && IsEnabledLine(line) {
          output := output + [OFF];
          targetSectionHasEnabled := true;
        } else {
          output := output + [line];
        }
      }
      d := Extend(d, line);
      i := i + 1;
    }
    assert lines[..i] == lines;
    CloseSection(d, targets);
    assert output + [] == output;
    if inTargetSection && !targetSectionHasEnabled {
      output := output + [OFF];
    }
    if appendMissing {
      output := AppendMissing(output, targets, seenTargetSections, Mentioned(d.sections));
    }
    r := JoinLines(output);
  }

  lemma EmptyOutput(targets: seq<string>)
    ensures OpenOutput(Document([], []), targets) == [] && !InTarget(Document([], []), targets) && Mentioned([]) == {}
  {
  }

  lemma TargetHasSections(d: Document, targets: seq<string>)
    requires InTarget(d, targets)
    ensures d.sections != []
  {
  }

  lemma AppendedSnoc(closed: seq<string>, headers: seq<string>, header: string)
    ensures Appended(closed, headers + [header]) == AppendSection(Appended(closed, headers), header)
  {
    hide AppendSection;
    assert (headers + [header])[..|headers|] == headers;
  }

  lemma AppendSectionIs(output: seq<string>, header: string)
    ensures AppendSection(output, header)
      == (if output != [] && Trim(output[|output| - 1]) != [] then output + [""] else output) + [header, OFF]
  {
    hide Trim;
    assert output + [] == output;
  }

  lemma MissingSnoc(targets: seq<string>, i: nat, mentioned: set<string>)
    requires i < |targets|
    ensures Missing(targets[..i + 1], mentioned)
      == Missing(targets[..i], mentioned) + if targets[i] in mentioned then [] else [targets[i]]
  {
    var init := targets[..i + 1];
    assert init[..i] == targets[..i] && init[i] == targets[i];
  }

  lemma NothingMissing(mentioned: set<string>)
    ensures Missing([], mentioned) == []
  {
  }

  method AppendMissing(closed: seq<string>, targets: seq<string>, seen: set<string>, ghost mentioned: set<string>)
      returns (output: seq<string>)
    requires forall t :: t in seen <==> t in targets && t in mentioned
    ensures output == Appended(closed, Missing(targets, mentioned))
  {
    output := closed;
    NothingMissing(mentioned);
    NothingToAppend(closed);
    assert targets[..0] == [];
    hide Trim, Missing, Appended, AppendSection;
    var i := 0;
    while i < |targets|
      invariant 0 <= i <= |targets| && output == Appended(closed, Missing(targets[..i], mentioned))
    {
      var header := targets[i];
      var before := Missing(targets[..i], mentioned);
      MissingSnoc(targets, i, mentioned);
      assert before + [] == before;
      if header !in seen {
        AppendedSnoc(closed, before, header);
        AppendSectionIs(output, header);
        if output != [] && Trim(output[|output| - 1]) != [] {
          output := output + [""];
        }
        output := output + [header, OFF];
      }
      i := i + 1;
    }
    assert targets[..i] == targets;
  }

  /* ---------- What it achieves ---------- */

  /** Some line sets the flag, and every line that sets it sets it to false. */
  predicate IsOff(body: seq<string>) {
    HasEnabled(body) && forall i :: 0 <= i < |body| && IsEnabledLine(body[i]) ==> body[i] == OFF
  }

  lemma OffMeansFalse(body: seq<string>, i: nat)
    requires IsOff(body) && i < |body| && IsEnabledLine(body[i])
    ensures body[i] == "enabled = false"
  {
    hide IsEnabledLine, HasEnabled;
  }

  predicate TargetsAreOff(sections: seq<Section>, targets: seq<string>) {
    forall i :: 0 <= i < |sections| && Trim(sections[i].header) in targets ==> IsOff(sections[i].body)
  }

  /** The lines that do not set the flag. */
  function Others(body: seq<string>): seq<string> {
    if body == [] then []
    else
      var k := |body| - 1;
      Others(body[..k]) + if IsEnabledLine(body[k]) then [] else [body[k]]
  }

  lemma {:induction false} OthersOfSwitchedOff(body: seq<string>)
    ensures Others(SwitchedOff(body)) == Others(body)
  {
    OffIsEnabledLine();
    hide IsEnabledLine;
    if body != [] {
      var k := |body| - 1;
      OthersOfSwitchedOff(body[..k]);
      assert SwitchedOff(body)[..k] == SwitchedOff(body[..k]);
    }
  }

  lemma OthersSnoc(body: seq<string>, line: string)
    ensures Others(body + [line]) == Others(body) + if IsEnabledLine(line) then [] else [line]
  {
    assert (body + [line])[..|body|] == body;
  }

  lemma DisabledSectionIsOff(s: Section, targets: seq<string>)
    requires Trim(s.header) in targets
    ensures var r := DisabledSection(s, targets);
      r.header == s.header && IsOff(r.body) && Others(r.body) == Others(s.body)
    ensures DisabledSection(s, targets) == s <==> IsOff(s.body)
  {
    OffIsEnabledLine();
    hide IsEnabledLine, Trim, Others;
    var off, r := SwitchedOff(s.body), DisabledSection(s, targets);
    OthersOfSwitchedOff(s.body);
    OthersSnoc(off, OFF);
    assert off + [] == off && Others(off) + [] == Others(off);
    if HasEnabled(s.body) {
      var i :| 0 <= i < |s.body| && IsEnabledLine(s.body[i]);
      assert IsEnabledLine(off[i]);
    } else {
      assert IsEnabledLine(r.body[|off|]);
      assert |r.body| == |s.body| + 1;
    }
    if IsOff(s.body) {
      assert off == s.body;
    }
  }

  lemma DisabledStaysWellFormed(d: Document, targets: seq<string>)
    requires WellFormed(d)
    ensures WellFormed(Document(d.preamble, DisabledSections(d.sections, targets)))
  {
    OffIsEnabledLine();
    EnabledLinesAreNoHeaders(OFF);
    hide IsHeader, IsEnabledLine, Trim;
  }

  /** The same section, but for a blank line that may separate it from an appended one. */
  predicate Padded(r: Section, s: Section) {
    r.header == s.header && (r.body == s.body || r.body == s.body + [""])
  }

  ghost predicate AppendedTo(r: Document, d: Document, headers: seq<string>) {
    && |r.sections| == |d.sections| + |headers|
    && (r.preamble == d.preamble || r.preamble == d.preamble + [""])
    && (forall i :: 0 <= i < |d.sections| ==> Padded(r.sections[i], d.sections[i]))
    && (forall i :: 0 <= i < |headers| ==> Padded(r.sections[|d.sections| + i], Section(headers[i], [OFF])))
    && (headers == [] ==> r == d)
    && (headers != [] ==> r.sections[|r.sections| - 1] == Section(headers[|headers| - 1], [OFF]))
  }

  lemma AppendSectionSectioned(output: seq<string>, header: string) returns (padded: Document)
    requires IsHeader(header)
    ensures padded == Sectioned(output) || padded == Extend(Sectioned(output), "")
    ensures Sectioned(AppendSection(output, header))
      == Document(padded.preamble, padded.sections + [Section(header, [OFF])])
  {
    OffIsEnabledLine();
    EnabledLinesAreNoHeaders(OFF);
    hide Extend, IsHeader, IsEnabledLine, Trim;
    var lines := output + if output != [] && Trim(output[|output| - 1]) != [] then [""] else [];
    assert lines == output || lines == output + [""];
    assert AppendSection(output, header) == lines + [header] + [OFF];
    SectionedSnoc(output, "");
    SectionedSnoc(lines, header);
    SectionedSnoc(lines + [header], OFF);
    padded := Sectioned(lines);
    OpenOneSection(padded, header);
  }

  lemma OpenOneSection(d: Document, header: string)
    requires IsHeader(header) && !IsHeader(OFF)
    ensures Extend(Extend(d, header), OFF) == Document(d.preamble, d.sections + [Section(header, [OFF])])
  {
    hide IsHeader;
    assert [] + [OFF] == [OFF];
  }

  lemma PadLast(d: Document)
    ensures var r := Extend(d, "");
      && |r.sections| == |d.sections|
      && r.preamble == (if d.sections == [] then d.preamble + [""] else d.preamble)
      && (forall i :: 0 <= i < |d.sections| - 1 ==> r.sections[i] == d.sections[i])
      && (d.sections != [] ==> Padded(r.sections[|d.sections| - 1], d.sections[|d.sections| - 1]))
  {
    assert !IsHeader("");
    hide IsHeader;
  }

  lemma {:induction false} AppendedSectioned(closed: seq<string>, headers: seq<string>)
    requires forall i :: 0 <= i < |headers| ==> IsHeader(headers[i])
    ensures AppendedTo(Sectioned(Appended(closed, headers)), Sectioned(closed), headers)
  {
    hide Extend, IsHeader, Trim, AppendSection, Sectioned;
    if headers != [] {
      var k := |headers| - 1;
      AppendedSectioned(closed, headers[..k]);
      var d, q := Sectioned(closed), Sectioned(Appended(closed, headers[..k]));
      var padded := AppendSectionSectioned(Appended(closed, headers[..k]), headers[k]);
      PadLast(q);
      AppendOne(d, q, padded, headers);
    }
  }

  lemma AppendOne(d: Document, q: Document, e: Document, headers: seq<string>)
    requires headers != [] && AppendedTo(q, d, headers[..|headers| - 1])
    requires |e.sections| == |q.sections|
      && (e.preamble == q.preamble || (q.sections == [] && e.preamble == q.preamble + [""]))
    requires forall i :: 0 <= i < |q.sections| - 1 ==> e.sections[i] == q.sections[i]
    requires q.sections != [] ==> Padded(e.sections[|q.sections| - 1], q.sections[|q.sections| - 1])
    ensures AppendedTo(Document(e.preamble, e.sections + [Section(headers[|headers| - 1], [OFF])]), d, headers)
  {
    var init := headers[..|headers| - 1];
    var r := Document(e.preamble, e.sections + [Section(headers[|headers| - 1], [OFF])]);
    var n, m := |d.sections|, |init|;
    forall i | 0 <= i < n ensures Padded(r.sections[i], d.sections[i]) {
      if init == [] { assert q.sections[i] == d.sections[i]; }
      assert Padded(q.sections[i], d.sections[i]);
    }
    forall i | 0 <= i < m ensures Padded(r.sections[n + i], Section(headers[i], [OFF])) {
      assert Padded(q.sections[n + i], Section(init[i], [OFF]));
    }
  }

  ghost predicate SafeTargets(targets: seq<string>) {
    Distinct(targets) && forall t :: t in targets ==> IsSafePluginSectionHeader(t)
  }

  /** The result, cut into sections again: the disabled sections, then one section for each header that was missing. */
  lemma ResultSections(lines: seq<string>, targets: seq<string>, appendMissing: bool)
    requires SafeTargets(targets)
    ensures var d, r := Sectioned(lines), Sectioned(DisabledLines(lines, targets, appendMissing));
      var missing := if appendMissing then Missing(targets, Mentioned(d.sections)) else [];
      AppendedTo(r, Document(d.preamble, DisabledSections(d.sections, targets)), missing)
  {
    hide IsHeader, IsEnabledLine, Trim, Flattened, Sectioned, WellFormed, IsSafePluginSectionHeader, DisabledSections,
      Appended;
    var d := Sectioned(lines);
    var off := Document(d.preamble, DisabledSections(d.sections, targets));
    FlattenedSectioned(lines);
    DisabledStaysWellFormed(d, targets);
    SectionedFlattened(off);
    if appendMissing {
      var missing := Missing(targets, Mentioned(d.sections));
      forall i | 0 <= i < |missing| ensures IsHeader(missing[i]) {
        assert missing[i] in targets;
        SafeHeadersAreHeaders(missing[i]);
      }
      AppendedSectioned(Flattened(off), missing);
    }
  }

  /** Padding with a blank line changes neither what is off nor the other lines but for that blank. */
  lemma PaddedIsOff(r: Section, s: Section)
    requires Padded(r, s)
    ensures IsOff(r.body) == IsOff(s.body)
    ensures Others(r.body) == Others(s.body) || Others(r.body) == Others(s.body) + [""]
  {
    hide IsEnabledLine, IsOff, Others;
    BlankIsNoEnabledLine();
    if r.body != s.body {
      OthersSnoc(s.body, "");
      IsOffSnoc(s.body, "");
      assert Others(s.body) + [] == Others(s.body);
    }
  }

  lemma BlankIsNoEnabledLine()
    ensures !IsEnabledLine("")
  {
    assert TrimStart("") == "";
  }

  lemma IsOffSnoc(body: seq<string>, line: string)
    requires !IsEnabledLine(line)
    ensures IsOff(body + [line]) == IsOff(body)
  {
    hide IsEnabledLine;
    var longer := body + [line];
    assert forall i :: 0 <= i < |body| ==> longer[i] == body[i];
    if IsOff(body) {
      var i :| 0 <= i < |body| && IsEnabledLine(body[i]);
      assert IsEnabledLine(longer[i]);
    } else if HasEnabled(body) {
      var i :| 0 <= i < |body| && IsEnabledLine(body[i]) && body[i] != OFF;
      assert IsEnabledLine(longer[i]);
    }
  }

  lemma AppendedSectionIsOff(r: Section, header: string)
    requires Padded(r, Section(header, [OFF]))
    ensures r.header == header && IsOff(r.body)
  {
    hide IsEnabledLine, Others, Trim;
    OffIsEnabledLine();
    PaddedIsOff(r, Section(header, [OFF]));
    var body := [OFF];
    assert IsEnabledLine(body[0]);
  }

  /** How one section of the result relates to its original. */
  ghost predicate SectionDone(r: Section, s: Section, targets: seq<string>) {
    if Trim(s.header) in targets then
      && r.header == s.header && IsOff(r.body)
      && (Others(r.body) == Others(s.body) || Others(r.body) == Others(s.body) + [""])
    else Padded(r, s)
  }

  ghost predicate OffAt(r: seq<Section>, k: nat, header: string) {
    k < |r| && r[k].header == header && IsOff(r[k].body)
  }

  /** The sections from `n` on are exactly those of the missing headers, off. */
  ghost predicate MissingOff(r: seq<Section>, n: nat, missing: seq<string>) {
    |r| == n + |missing| && forall i :: 0 <= i < |missing| ==> OffAt(r, n + i, missing[i])
  }

  /** Every section of a target is off, all other lines are kept in order, and each missing target is appended, off. */
  lemma SwitchesTargetsOff(lines: seq<string>, targets: seq<string>, appendMissing: bool)
    requires SafeTargets(targets)
    ensures var d, r := Sectioned(lines), Sectioned(DisabledLines(lines, targets, appendMissing));
      var missing := if appendMissing then Missing(targets, Mentioned(d.sections)) else [];
      && (r.preamble == d.preamble || r.preamble == d.preamble + [""])
      && MissingOff(r.sections, |d.sections|, missing)
      && (forall i :: 0 <= i < |d.sections| ==> SectionDone(r.sections[i], d.sections[i], targets))
      && TargetsAreOff(r.sections, targets)
  {
    hide IsHeader, IsEnabledLine, Trim, Sectioned, DisabledLines, IsOff, Others, Missing, Mentioned, SafeTargets,
      TargetsAreOff, Padded, SectionDone, IsSafePluginSectionHeader;
    var d, r := Sectioned(lines), Sectioned(DisabledLines(lines, targets, appendMissing));
    var missing := if appendMissing then Missing(targets, Mentioned(d.sections)) else [];
    ResultSections(lines, targets, appendMissing);
    SectionsAreDone(r.sections, d.sections, targets);
    MissingAreOff(r.sections, |d.sections|, missing);
    AllTargetsAreOff(r.sections, d.sections, missing, targets);
  }

  lemma SectionsAreDone(r: seq<Section>, d: seq<Section>, targets: seq<string>)
    requires |r| >= |d| && forall i :: 0 <= i < |d| ==> Padded(r[i], DisabledSections(d, targets)[i])
    ensures forall i :: 0 <= i < |d| ==> SectionDone(r[i], d[i], targets)
  {
    hide IsHeader, IsEnabledLine, Trim, IsOff, Others;
    var off := DisabledSections(d, targets);
    forall i | 0 <= i < |d| ensures SectionDone(r[i], d[i], targets) {
      assert Padded(r[i], off[i]);
      PaddedIsOff(r[i], off[i]);
      if Trim(d[i].header) in targets {
        DisabledSectionIsOff(d[i], targets);
      }
    }
  }

  lemma MissingAreOff(r: seq<Section>, n: nat, missing: seq<string>)
    requires |r| == n + |missing| && forall i :: 0 <= i < |missing| ==> Padded(r[n + i], Section(missing[i], [OFF]))
    ensures MissingOff(r, n, missing)
  {
    hide IsOff;
    forall i | 0 <= i < |missing| ensures OffAt(r, n + i, missing[i]) {
      assert Padded(r[n + i], Section(missing[i], [OFF]));
      AppendedSectionIsOff(r[n + i], missing[i]);
    }
  }

  lemma AllTargetsAreOff(r: seq<Section>, d: seq<Section>, missing: seq<string>, targets: seq<string>)
    requires MissingOff(r, |d|, missing) && forall i :: 0 <= i < |d| ==> SectionDone(r[i], d[i], targets)
    ensures TargetsAreOff(r, targets)
  {
    hide IsOff, Others, Trim;
    forall i | 0 <= i < |r| && Trim(r[i].header) in targets ensures IsOff(r[i].body) {
      if i < |d| {
        assert SectionDone(r[i], d[i], targets);
      } else {
        assert OffAt(r, |d| + (i - |d|), missing[i - |d|]);
      }
    }
  }

  ghost predicate MentionedOnceAt(sections: seq<Section>, t: string, i: nat) {
    i < |sections| && forall j :: 0 <= j < |sections| ==> (Trim(sections[j].header) == t <==> j == i)
  }

  lemma SameHeader(r: Section, s: Section, targets: seq<string>)
    requires SectionDone(r, s, targets)
    ensures r.header == s.header
  {
  }

  lemma MentionedAt(sections: seq<Section>, i: nat)
    requires i < |sections|
    ensures Trim(sections[i].header) in Mentioned(sections)
  {
  }

  /** The sections of the result carry the headers of the original, followed by the missing targets. */
  lemma ResultHeaders(lines: seq<string>, targets: seq<string>, appendMissing: bool, j: nat)
    requires SafeTargets(targets) && j < |Sectioned(DisabledLines(lines, targets, appendMissing)).sections|
    ensures var d, r := Sectioned(lines), Sectioned(DisabledLines(lines, targets, appendMissing));
      var missing := if appendMissing then Missing(targets, Mentioned(d.sections)) else [];
      && |r.sections| == |d.sections| + |missing|
      && (j < |d.sections| ==> r.sections[j].header == d.sections[j].header)
      && (|d.sections| <= j ==>
        r.sections[j].header == missing[j - |d.sections|] && Trim(r.sections[j].header) == r.sections[j].header)
  {
    hide IsHeader, IsEnabledLine, Sectioned, DisabledLines, IsOff, Others, IsSafePluginSectionHeader, Missing,
      SectionDone, TargetsAreOff, Mentioned, Trim, Distinct;
    var d, r := Sectioned(lines), Sectioned(DisabledLines(lines, targets, appendMissing));
    var missing := if appendMissing then Missing(targets, Mentioned(d.sections)) else [];
    SwitchesTargetsOff(lines, targets, appendMissing);
    if j < |d.sections| {
      SameHeader(r.sections[j], d.sections[j], targets);
    } else {
      var k := j - |d.sections|;
      assert r.sections[|d.sections| + k].header == missing[k] && missing[k] in targets;
      SafeHeadersAreHeaders(missing[k]);
    }
  }

  lemma AbsentTargetAppendedOnce(lines: seq<string>, targets: seq<string>, t: string) returns (i: nat)
    requires SafeTargets(targets) && t in targets && t !in Mentioned(Sectioned(lines).sections)
    ensures i >= |Sectioned(lines).sections|
    ensures MentionedOnceAt(Sectioned(DisabledLines(lines, targets, true)).sections, t, i)
  {
    hide IsHeader, IsEnabledLine, Sectioned, DisabledLines, IsSafePluginSectionHeader, Missing, Mentioned, Trim;
    var d, r := Sectioned(lines), Sectioned(DisabledLines(lines, targets, true));
    var missing := Missing(targets, Mentioned(d.sections));
    SwitchesTargetsOff(lines, targets, true);
    hide SectionDone, IsOff, Others, TargetsAreOff;
    var k :| 0 <= k < |missing| && missing[k] == t;
    i := |d.sections| + k;
    forall j | 0 <= j < |r.sections| ensures Trim(r.sections[j].header) == t <==> j == i {
      ResultHeaders(lines, targets, true, j);
      if j < |d.sections| {
        MentionedAt(d.sections, j);
      }
    }
  }

  /**
   The rewriter leaves exactly those configurations alone that already have every target off, and lack none if
   asked to append.
   */
  lemma UnchangedIff(lines: seq<string>, targets: seq<string>, appendMissing: bool)
    requires SafeTargets(targets)
    ensures var d := Sectioned(lines);
      DisabledLines(lines, targets, appendMissing) == lines <==>
        && TargetsAreOff(d.sections, targets)
        && (appendMissing ==> forall t :: t in targets ==> t in Mentioned(d.sections))
  {
    hide IsHeader, IsEnabledLine, Trim, Sectioned, Flattened, IsSafePluginSectionHeader, Mentioned, IsOff, SafeTargets,
      DisabledSections, AppendedTo, Appended;
    var d := Sectioned(lines);
    var off := DisabledSections(d.sections, targets);
    var missing := if appendMissing then Missing(targets, Mentioned(d.sections)) else [];
    FlattenedSectioned(lines);
    SectionsUnchangedIff(d.sections, targets);
    if DisabledLines(lines, targets, appendMissing) == lines {
      ResultSections(lines, targets, appendMissing);
      NothingAppended(d, Document(d.preamble, off), missing);
      forall t | appendMissing && t in targets ensures t in Mentioned(d.sections) {
        assert t !in missing;
      }
    } else if TargetsAreOff(d.sections, targets) {
      hide TargetsAreOff;
      assert missing != [] by { NothingToAppend(Flattened(d)); }
      assert appendMissing && missing[0] in missing;
    }
  }

  lemma SectionsUnchangedIff(sections: seq<Section>, targets: seq<string>)
    ensures DisabledSections(sections, targets) == sections <==> TargetsAreOff(sections, targets)
  {
    hide Trim, IsOff, IsEnabledLine;
    var off := DisabledSections(sections, targets);
    forall i | 0 <= i < |sections| && Trim(sections[i].header) in targets
      ensures off[i] == sections[i] <==> IsOff(sections[i].body)
    {
      DisabledSectionIsOff(sections[i], targets);
    }
    if TargetsAreOff(sections, targets) {
      assert forall i :: 0 <= i < |sections| ==> off[i] == sections[i];
    }
  }

  lemma NothingAppended(d: Document, off: Document, missing: seq<string>)
    requires AppendedTo(d, off, missing) && |off.sections| == |d.sections|
    ensures missing == [] && d == off
  {
    hide Padded;
  }

  lemma NothingToAppend(output: seq<string>)
    ensures Appended(output, []) == output
  {
  }

  lemma DisablingIsIdempotent(lines: seq<string>, targets: seq<string>, appendMissing: bool)
    requires SafeTargets(targets)
    ensures var once := DisabledLines(lines, targets, appendMissing);
      DisabledLines(once, targets, appendMissing) == once
  {
    hide IsHeader, IsEnabledLine, Sectioned, DisabledLines, IsOff, Others, IsSafePluginSectionHeader, Missing,
      SectionDone, Trim;
    var once := DisabledLines(lines, targets, appendMissing);
    var d, r := Sectioned(lines), Sectioned(once);
    SwitchesTargetsOff(lines, targets, appendMissing);
    UnchangedIff(once, targets, appendMissing);
    forall t | appendMissing && t in targets ensures t in Mentioned(r.sections) {
      if t in Mentioned(d.sections) {
        var i :| 0 <= i < |d.sections| && Trim(d.sections[i].header) == t;
        ResultHeaders(lines, targets, appendMissing, i);
        MentionedAt(r.sections, i);
      } else {
        var i := AbsentTargetAppendedOnce(lines, targets, t);
        MentionedAt(r.sections, i);
      }
    }
  }

  /* ---------- The rewritten text ---------- */

  function DisabledText(config: string, headers: seq<string>, appendMissing: bool): string {
    JoinLines(DisabledLines(SplitLines(config), Targets(headers), appendMissing))
  }

  /* How the result arises line by line */

  /** What becomes of a line: in a target section a line that sets the flag is replaced. */
  ghost function KeptLine(lines: seq<string>, targets: seq<string>, i: nat): string
    requires i < |lines|
  {
    if !IsHeader(lines[i]) && InTarget(Sectioned(lines[..i]), targets) then SwitchOff(lines[i]) else lines[i]
  }

  /** The line that closes an open target section without a flag. */
  ghost function Closing(lines: seq<string>, targets: seq<string>): seq<string> {
    if InTarget(Sectioned(lines), targets) && !LastHasEnabled(Sectioned(lines)) then [OFF] else []
  }

  ghost function OutputSoFar(lines: seq<string>, targets: seq<string>): seq<string> {
    OpenOutput(Sectioned(lines), targets)
  }

  lemma OutputStep(lines: seq<string>, targets: seq<string>, i: nat)
    requires i < |lines|
    ensures OutputSoFar(lines[..i + 1], targets) == OutputSoFar(lines[..i], targets)
      + (if IsHeader(lines[i]) then Closing(lines[..i], targets) else []) + [KeptLine(lines, targets, i)]
  {
    hide IsHeader, IsEnabledLine, Trim, Sectioned, OpenOutput, InTarget, LastHasEnabled, Extend, SwitchOff;
    var d := Sectioned(lines[..i]);
    assert lines[..i + 1] == lines[..i] + [lines[i]];
    SectionedSnoc(lines[..i], lines[i]);
    if IsHeader(lines[i]) {
      CloseSection(d, targets);
      OpenOutputHeader(d, lines[i], targets);
    } else {
      OpenOutputStep(d, lines[i], targets);
      assert OpenOutput(d, targets) + [] == OpenOutput(d, targets);
    }
  }

  lemma OutputStart(lines: seq<string>, targets: seq<string>)
    ensures OutputSoFar(lines[..0], targets) == []
      && OutputSoFar(lines[..|lines|], targets) == OutputSoFar(lines, targets)
  {
    assert lines[..0] == [] && lines[..|lines|] == lines;
  }

  ghost function MissingIn(lines: seq<string>, targets: seq<string>, appendMissing: bool): seq<string> {
    if appendMissing then Missing(targets, Mentioned(Sectioned(lines).sections)) else []
  }

  lemma ResultIs(lines: seq<string>, targets: seq<string>, appendMissing: bool)
    ensures DisabledLines(lines, targets, appendMissing)
      == Appended(OutputSoFar(lines, targets) + Closing(lines, targets), MissingIn(lines, targets, appendMissing))
  {
    hide IsHeader, IsEnabledLine, Trim, Sectioned, OpenOutput, InTarget, LastHasEnabled, Missing, Mentioned,
      DisabledSections, Flattened;
    CloseSection(Sectioned(lines), targets);
  }

  /** Nothing comes after the last line of the text. */
  ghost predicate NothingFollows(lines: seq<string>, targets: seq<string>, appendMissing: bool) {
    Closing(lines, targets) == [] && MissingIn(lines, targets, appendMissing) == []
  }

  /* Carriage returns */

  predicate EndsInReturn(line: string) {
    line != [] && line[|line| - 1] == '\r'
  }

  predicate SomeReturn(lines: seq<string>) {
    exists i :: 0 <= i < |lines| && EndsInReturn(lines[i])
  }

  function Returns(s: string): nat {
    if s == [] then 0 else Returns(s[..|s| - 1]) + if s[|s| - 1] == '\r' then 1 else 0
  }

  function TotalReturns(lines: seq<string>): nat {
    if lines == [] then 0 else TotalReturns(lines[..|lines| - 1]) + Returns(lines[|lines| - 1])
  }

  predicate NoBreak(line: string) {
    '\n' !in line && '\r' !in line
  }

  lemma SomeReturnConcat(a: seq<string>, b: seq<string>)
    ensures SomeReturn(a + b) <==> SomeReturn(a) || SomeReturn(b)
  {
    hide EndsInReturn;
    var c := a + b;
    assert forall i :: 0 <= i < |a| ==> c[i] == a[i];
    assert forall i :: 0 <= i < |b| ==> c[|a| + i] == b[i];
  }

  lemma {:induction false} ReturnsConcat(a: string, b: string)
    ensures Returns(a + b) == Returns(a) + Returns(b)
  {
    if b == [] {
      assert a + b == a;
    } else {
      var k := |b| - 1;
      ReturnsConcat(a, b[..k]);
      assert (a + b)[..|a| + k] == a + b[..k];
    }
  }

  lemma {:induction false} TotalConcat(a: seq<string>, b: seq<string>)
    ensures TotalReturns(a + b) == TotalReturns(a) + TotalReturns(b)
  {
    hide Returns;
    if b == [] {
      assert a + b == a;
    } else {
      var k := |b| - 1;
      TotalConcat(a, b[..k]);
      assert (a + b)[..|a| + k] == a + b[..k];
    }
  }

  lemma TotalOne(line: string)
    ensures TotalReturns([line]) == Returns(line)
  {
    hide Returns;
    assert [line][..0] == [];
  }

  lemma {:induction false} ReturnsOfJoin(lines: seq<string>)
    ensures Returns(JoinLines(lines)) == TotalReturns(lines)
  {
    hide Returns;
    if lines == [] {
      NoReturns("");
    } else if |lines| == 1 {
      TotalOne(lines[0]);
      assert lines == [lines[0]];
    } else {
      var rest := JoinLines(lines[1..]);
      ReturnsOfJoin(lines[1..]);
      NoReturns("\n");
      ReturnsConcat(lines[0] + "\n", rest);
      ReturnsConcat(lines[0], "\n");
      assert lines == [lines[0]] + lines[1..];
      TotalConcat([lines[0]], lines[1..]);
      TotalOne(lines[0]);
    }
  }

  lemma {:induction false} NoReturns(s: string)
    requires '\r' !in s
    ensures Returns(s) == 0 && !EndsInReturn(s)
  {
    if s != [] { NoReturns(s[..|s| - 1]); }
  }

  lemma OffHasNoReturns()
    ensures Returns(OFF) == 0 && !EndsInReturn(OFF) && Returns("") == 0 && !EndsInReturn("") && NoBreak(OFF)
      && NoBreak("")
  {
    NoReturns(OFF);
    NoReturns("");
  }

  lemma TargetsHoldNoBreak(t: string)
    requires IsSafePluginSectionHeader(t)
    ensures NoBreak(t)
  {
    assert forall i :: 0 <= i < |PLUGIN_PREFIX| ==> t[i] == t[..|PLUGIN_PREFIX|][i] == PLUGIN_PREFIX[i];
    var n := |t| - |PLUGIN_SUFFIX|;
    assert forall i :: n <= i < |t| ==> t[i] == t[n..][i - n] == PLUGIN_SUFFIX[i - n];
    assert NoBreak(PLUGIN_PREFIX) && NoBreak(PLUGIN_SUFFIX);
  }

  /** What an appended section consists of. */
  ghost predicate Unbroken(lines: seq<string>) {
    forall i :: 0 <= i < |lines| ==> NoBreak(lines[i])
  }

  lemma UnbrokenHasNoReturns(lines: seq<string>)
    requires Unbroken(lines)
    ensures !SomeReturn(lines) && TotalReturns(lines) == 0
  {
    hide NoBreak, EndsInReturn, Returns;
    forall i | 0 <= i < |lines| ensures !EndsInReturn(lines[i]) { UnbrokenLine(lines[i]); }
    if lines != [] {
      UnbrokenHasNoReturns(lines[..|lines| - 1]);
      UnbrokenLine(lines[|lines| - 1]);
    }
  }

  lemma UnbrokenLine(line: string)
    requires NoBreak(line)
    ensures Returns(line) == 0 && !EndsInReturn(line)
  {
    NoReturns(line);
  }

  /** Appending sections extends the output by unbroken lines, and by some unless there is nothing to append. */
  lemma AppendOneExtends(closed: seq<string>, before: seq<string>, header: string) returns (more: seq<string>)
    requires Unbroken(before) && NoBreak(header)
    ensures AppendSection(closed + before, header) == closed + more && Unbroken(more) && more != []
  {
    OffHasNoReturns();
    hide NoBreak, Trim;
    var output, section := closed + before, [header, OFF];
    var padding := if output != [] && Trim(output[|output| - 1]) != [] then [""] else [];
    more := before + padding + section;
    assert AppendSection(output, header) == output + padding + section;
    hide Unbroken;
    UnbrokenConcat(before, padding);
    UnbrokenConcat(before + padding, section);
    Associative(closed, before, padding);
    Associative(closed, before + padding, section);
  }

  lemma UnbrokenConcat(a: seq<string>, b: seq<string>)
    ensures Unbroken(a) && Unbroken(b) ==> Unbroken(a + b)
  {
    hide NoBreak;
  }

  lemma {:induction false} AppendedExtends(closed: seq<string>, headers: seq<string>) returns (more: seq<string>)
    requires Unbroken(headers)
    ensures Appended(closed, headers) == closed + more && Unbroken(more) && (more == [] <==> headers == [])
  {
    hide NoBreak, AppendSection;
    if headers == [] {
      more := [];
      assert closed + more == closed;
    } else {
      var k := |headers| - 1;
      var before := AppendedExtends(closed, headers[..k]);
      more := AppendOneExtends(closed, before, headers[k]);
    }
  }

  lemma MissingAreUnbroken(lines: seq<string>, targets: seq<string>, appendMissing: bool)
    requires SafeTargets(targets)
    ensures Unbroken(MissingIn(lines, targets, appendMissing))
  {
    hide NoBreak, IsSafePluginSectionHeader, Mentioned, Sectioned;
    var missing := MissingIn(lines, targets, appendMissing);
    forall i | 0 <= i < |missing| ensures NoBreak(missing[i]) {
      assert missing[i] in missing;
      TargetsHoldNoBreak(missing[i]);
    }
  }

  lemma KeptLineIs(lines: seq<string>, targets: seq<string>, i: nat)
    requires i < |lines|
    ensures KeptLine(lines, targets, i) == lines[i] || KeptLine(lines, targets, i) == OFF
  {
    hide IsHeader, IsEnabledLine, InTarget, Sectioned;
  }

  lemma ClosingIs(lines: seq<string>, targets: seq<string>)
    ensures Closing(lines, targets) == [] || Closing(lines, targets) == [OFF]
    ensures Unbroken(Closing(lines, targets))
  {
    OffHasNoReturns();
    hide NoBreak, InTarget, LastHasEnabled, Sectioned;
  }

  /** The output so far ends in carriage returns where kept lines do, and holds no more of them than the text. */
  lemma {:induction false} ReturnsSoFar(lines: seq<string>, targets: seq<string>, i: nat)
    requires i <= |lines|
    ensures SomeReturn(OutputSoFar(lines[..i], targets)) <==>
      exists k :: 0 <= k < i && EndsInReturn(KeptLine(lines, targets, k))
    ensures TotalReturns(OutputSoFar(lines[..i], targets)) <= TotalReturns(lines[..i])
    ensures (forall k :: 0 <= k < i ==> '\n' !in lines[k]) ==>
      forall line :: line in OutputSoFar(lines[..i], targets) ==> '\n' !in line
  {
    hide OutputSoFar, KeptLine, Closing, EndsInReturn, Returns, IsHeader;
    if i == 0 {
      OutputStart(lines, targets);
    } else {
      var k := i - 1;
      var before, kept := OutputSoFar(lines[..k], targets), KeptLine(lines, targets, k);
      var closing := if IsHeader(lines[k]) then Closing(lines[..k], targets) else [];
      ReturnsSoFar(lines, targets, k);
      OutputStep(lines, targets, k);
      ClosingIs(lines[..k], targets);
      KeptLineIs(lines, targets, k);
      OffHasNoReturns();
      assert Unbroken(closing);
      UnbrokenHasNoReturns(closing);
      SomeReturnConcat(before + closing, [kept]);
      SomeReturnConcat(before, closing);
      assert SomeReturn([kept]) <==> EndsInReturn(kept) by { assert [kept][0] == kept; }
      TotalConcat(before + closing, [kept]);
      TotalConcat(before, closing);
      TotalOne(kept);
      assert lines[..i][..k] == lines[..k];
    }
  }

  /* The law */

  /** Some line of the text that survives ends in a carriage return and does not end the result. */
  ghost predicate HasStrayReturn(lines: seq<string>, targets: seq<string>, appendMissing: bool) {
    exists i :: 0 <= i < |lines| && EndsInReturn(KeptLine(lines, targets, i))
      && (i < |lines| - 1 || !NothingFollows(lines, targets, appendMissing))
  }

  ghost predicate KeptReturnBefore(lines: seq<string>, targets: seq<string>, n: nat)
    requires n <= |lines|
  {
    exists k :: 0 <= k < n && EndsInReturn(KeptLine(lines, targets, k))
  }

  /** What is written while the lines are read ends with the last line that is kept. */
  lemma ReturnsInOutput(lines: seq<string>, targets: seq<string>)
    requires lines != []
    ensures var open := OutputSoFar(lines, targets);
      && open != [] && (SomeReturn(open) <==> KeptReturnBefore(lines, targets, |lines|))
      && (SomeReturn(open[..|open| - 1]) <==> KeptReturnBefore(lines, targets, |lines| - 1))
  {
    hide OutputSoFar, KeptLine, Closing, EndsInReturn, IsHeader, SomeReturn;
    var n := |lines| - 1;
    var before := OutputSoFar(lines[..n], targets);
    var closing := if IsHeader(lines[n]) then Closing(lines[..n], targets) else [];
    OutputStart(lines, targets);
    OutputStep(lines, targets, n);
    assert lines[..n + 1] == lines;
    ReturnsSoFar(lines, targets, n);
    ReturnsSoFar(lines, targets, |lines|);
    ClosingIs(lines[..n], targets);
    UnbrokenHasNoReturns(closing);
    SomeReturnConcat(before, closing);
    var open := OutputSoFar(lines, targets);
    assert open[..|open| - 1] == before + closing;
  }

  /** What follows them: a switch that closes the last section, and the sections of missing targets. */
  lemma ResultSuffix(lines: seq<string>, targets: seq<string>, appendMissing: bool) returns (suffix: seq<string>)
    requires SafeTargets(targets)
    ensures DisabledLines(lines, targets, appendMissing) == OutputSoFar(lines, targets) + suffix
    ensures Unbroken(suffix) && (suffix == [] <==> NothingFollows(lines, targets, appendMissing))
  {
    hide DisabledLines, OutputSoFar, Closing, MissingIn, Appended, SafeTargets, NoBreak;
    var open, closing := OutputSoFar(lines, targets), Closing(lines, targets);
    ResultIs(lines, targets, appendMissing);
    MissingAreUnbroken(lines, targets, appendMissing);
    var more := AppendedExtends(open + closing, MissingIn(lines, targets, appendMissing));
    ClosingIs(lines, targets);
    suffix := closing + more;
    Associative(open, closing, more);
  }

  /** The same, read off the result: some line of it other than the last ends in a carriage return. */
  lemma StrayReturnIff(lines: seq<string>, targets: seq<string>, appendMissing: bool)
    requires SafeTargets(targets) && lines != []
    ensures var out := DisabledLines(lines, targets, appendMissing);
      out != [] && (HasStrayReturn(lines, targets, appendMissing) <==> SomeReturn(out[..|out| - 1]))
  {
    hide DisabledLines, OutputSoFar, KeptLine, NothingFollows, EndsInReturn, SafeTargets, SomeReturn, NoBreak;
    var open := OutputSoFar(lines, targets);
    var suffix := ResultSuffix(lines, targets, appendMissing);
    ReturnsInOutput(lines, targets);
    if suffix == [] {
      assert open + suffix == open;
    } else {
      var init := suffix[..|suffix| - 1];
      assert (open + suffix)[..|open + suffix| - 1] == open + init;
      UnbrokenHasNoReturns(init);
      SomeReturnConcat(open, init);
    }
  }

  lemma ResultHoldsNoLineFeed(lines: seq<string>, targets: seq<string>, appendMissing: bool)
    requires SafeTargets(targets) && forall k :: 0 <= k < |lines| ==> '\n' !in lines[k]
    ensures forall i :: 0 <= i < |DisabledLines(lines, targets, appendMissing)| ==>
      '\n' !in DisabledLines(lines, targets, appendMissing)[i]
    ensures TotalReturns(DisabledLines(lines, targets, appendMissing)) <= TotalReturns(lines)
  {
    hide DisabledLines, OutputSoFar, KeptLine, Closing, MissingIn, Appended, SafeTargets, Returns;
    var open, closing := OutputSoFar(lines, targets), Closing(lines, targets);
    ResultIs(lines, targets, appendMissing);
    MissingAreUnbroken(lines, targets, appendMissing);
    var more := AppendedExtends(open + closing, MissingIn(lines, targets, appendMissing));
    ClosingIs(lines, targets);
    OutputStart(lines, targets);
    ReturnsSoFar(lines, targets, |lines|);
    assert lines[..|lines|] == lines;
    UnbrokenHasNoReturns(closing);
    UnbrokenHasNoReturns(more);
    TotalConcat(open + closing, more);
    TotalConcat(open, closing);
    var out := open + closing + more;
    forall i | 0 <= i < |out| ensures '\n' !in out[i] {
      if i < |open| { assert out[i] in open; }
    }
  }

  function AllDropped(lines: seq<string>): (r: seq<string>)
    ensures |r| == |lines|
  {
    seq(|lines|, i requires 0 <= i < |lines| => DropReturn(lines[i]))
  }

  lemma {:induction false} DroppingLosesReturns(lines: seq<string>)
    ensures TotalReturns(AllDropped(lines)) <= TotalReturns(lines)
    ensures SomeReturn(lines) ==> TotalReturns(AllDropped(lines)) < TotalReturns(lines)
    ensures !SomeReturn(lines) ==> AllDropped(lines) == lines
  {
    if lines != [] {
      var k := |lines| - 1;
      DroppingLosesReturns(lines[..k]);
      assert AllDropped(lines)[..k] == AllDropped(lines[..k]) && lines == lines[..k] + [lines[k]];
      SomeReturnConcat(lines[..k], [lines[k]]);
      assert SomeReturn([lines[k]]) <==> EndsInReturn(lines[k]) by { assert [lines[k]][0] == lines[k]; }
    }
  }

  lemma DroppedIs(lines: seq<string>)
    requires lines != []
    ensures var k := |lines| - 1; Dropped(lines) == AllDropped(lines[..k]) + [lines[k]]
  {
    hide DropReturn;
  }

  lemma {:induction false} SplitLinesHoldNoLineFeed(s: string)
    ensures forall i :: 0 <= i < |SplitLines(s)| ==> '\n' !in SplitLines(s)[i]
    decreases |s|
  {
    var i := IndexOf(s, '\n');
    if i < |s| {
      SplitLinesHoldNoLineFeed(s[i + 1..]);
    }
  }

  /**
   A second rewrite of the text changes nothing exactly when the first leaves no carriage return at the end of a
   line but the last.
   */
  lemma RewritingTwiceIff(config: string, headers: seq<string>, appendMissing: bool)
    ensures var once := DisabledText(config, headers, appendMissing);
      DisabledText(once, headers, appendMissing) == once <==>
        !HasStrayReturn(SplitLines(config), Targets(headers), appendMissing)
  {
    hide DisabledLines, IsSafePluginSectionHeader, Targets, SplitLines, JoinLines, Dropped, AllDropped, SomeReturn,
      HasStrayReturn, TotalReturns, Returns;
    var lines, targets := SplitLines(config), Targets(headers);
    var out := DisabledLines(lines, targets, appendMissing);
    var k := |out| - 1;
    SplitLinesHoldNoLineFeed(config);
    StrayReturnIff(lines, targets, appendMissing);
    ResultHoldsNoLineFeed(lines, targets, appendMissing);
    SplitJoined(out);
    DroppedIs(out);
    DroppingLosesReturns(out[..k]);
    assert out == out[..k] + [out[k]];
    if SomeReturn(out[..k]) {
      var again := DisabledLines(Dropped(out), targets, appendMissing);
      SplitLinesHoldNoLineFeed(JoinLines(out));
      ResultHoldsNoLineFeed(Dropped(out), targets, appendMissing);
      TotalConcat(AllDropped(out[..k]), [out[k]]);
      TotalConcat(out[..k], [out[k]]);
      ReturnsOfJoin(again);
      ReturnsOfJoin(out);
    } else {
      DisablingIsIdempotent(lines, targets, appendMissing);
    }
  }

  /** A doubled carriage return loses one of the two in each rewrite. */
  lemma StrayReturnsAreLost(headers: seq<string>)
    ensures var config := "x\r\r\ny"; var once := DisabledText(config, headers, false);
      DisabledText(once, headers, false) != once
  {
    var config, lines, targets := "x\r\r\ny", ["x\r", "y"], Targets(headers);
    var first := lines[0];
    assert SplitLines(config) == lines by {
      assert config == "x\r\r" + "\n" + "y" && DropReturn("x\r\r") == "x\r";
      hide SplitLines, DropReturn;
      SplitFirst("x\r\r", "y");
      SplitOne("y");
      assert ["x\r"] + ["y"] == lines;
    }
    assert EndsInReturn(first);
    hide SplitLines, DisabledText, EndsInReturn, Targets, IsHeader, Sectioned, InTarget, NothingFollows, IsEnabledLine;
    assert lines[..0] == [];
    OutsideTargets(targets);
    assert KeptLine(lines, targets, 0) == first;
    assert HasStrayReturn(lines, targets, false);
    RewritingTwiceIff(config, headers, false);
  }

  lemma OutsideTargets(targets: seq<string>)
    ensures !InTarget(Sectioned([]), targets)
  {
  }

  /* ---------- The sections that the overlay suppresses ---------- */

  const MAX_CONFIG_SUPPRESSION_SECTIONS: nat := 32
  const CONFLICT_SUFFIX := "-browser@local\"]"

  predicate IsAlphanumeric(c: char) {
    'a' <= c <= 'z' || '0' <= c <= '9'
  }

  /** A local browser plugin in a namespace of six characters. */
  predicate IsConflict(header: string) {
    && |header| == |PLUGIN_PREFIX| + 6 + |CONFLICT_SUFFIX|
    && Bracketed(header, PLUGIN_PREFIX, CONFLICT_SUFFIX)
    && IsAlphanumeric(header[|PLUGIN_PREFIX|])
    && forall i :: |PLUGIN_PREFIX| < i < |PLUGIN_PREFIX| + 6 ==> IsAlphanumeric(header[i]) || header[i] == '-'
  }

  /** A conflict is a plugin of the local browser in a namespace of six letters, digits or, not first, hyphens. */
  lemma ConflictIff(header: string)
    ensures IsConflict(header) <==> exists space :: NamesConflict(header, space)
  {
    hide IsConflict, NamesConflict;
    if IsConflict(header) { ConflictHasNamespace(header); }
    forall space | NamesConflict(header, space) ensures IsConflict(header) {
      NamespaceMakesConflict(header, space);
    }
  }

  ghost predicate NamesConflict(header: string, space: string) {
    && header == "[plugins.\"" + (space + "-browser@local\"]") && |space| == 6 && space[0] != '-'
    && forall i :: 0 <= i < 6 ==> 'a' <= space[i] <= 'z' || '0' <= space[i] <= '9' || space[i] == '-'
  }

  lemma ConflictHasNamespace(header: string)
    requires IsConflict(header)
    ensures NamesConflict(header, header[10..16])
  {
    assert |CONFLICT_SUFFIX| == 16 && |PLUGIN_PREFIX| == 10;
    var space := header[10..16];
    assert header == header[..10] + (space + header[16..]);
    assert forall i :: 0 <= i < 6 ==> space[i] == header[10 + i];
  }

  lemma NamespaceMakesConflict(header: string, space: string)
    requires NamesConflict(header, space)
    ensures IsConflict(header)
  {
    assert |CONFLICT_SUFFIX| == 16 && |PLUGIN_PREFIX| == 10;
    var open, close := PLUGIN_PREFIX, CONFLICT_SUFFIX;
    assert header == open + (space + close);
    SlicesOfThree(open, space, close);
    assert Bracketed(header, open, close);
    assert forall i :: 10 <= i < 16 ==> header[i] == space[i - 10];
  }

  lemma SlicesOfThree(a: string, b: string, c: string)
    ensures (a + (b + c))[..|a|] == a && (a + (b + c))[|a| + |b|..] == c
    ensures forall i :: |a| <= i < |a| + |b| ==> (a + (b + c))[i] == b[i - |a|]
  {
  }

  lemma ConflictsAreSafe(header: string)
    requires IsConflict(header)
    ensures IsSafePluginSectionHeader(header)
  {
    var n := |header| - |CONFLICT_SUFFIX|;
    assert |CONFLICT_SUFFIX| == 16 && |PLUGIN_PREFIX| == 10;
    assert forall i :: n <= i < |header| ==> header[i] == header[n..][i - n] == CONFLICT_SUFFIX[i - n];
    assert header[|header| - 2..] == header[n..][14..] == CONFLICT_SUFFIX[14..] == PLUGIN_SUFFIX;
    assert forall i :: 0 <= i < 14 ==> CONFLICT_SUFFIX[i] !in "\"\r\n";
  }

  function Unique(s: seq<string>): (r: seq<string>)
    ensures Distinct(r) && |r| <= |s|
    ensures forall x :: x in r <==> x in s
  {
    if s == [] then []
    else
      var k := |s| - 1;
      var r := Unique(s[..k]);
      assert s == s[..k] + [s[k]];
      if s[k] in r then r else r + [s[k]]
  }

  function TrimmedLines(lines: seq<string>): (r: seq<string>)
    ensures |r| == |lines|
  {
    seq(|lines|, i requires 0 <= i < |lines| => Trim(lines[i]))
  }

  function Conflicts(headers: seq<string>): (r: seq<string>)
    ensures forall t :: t in r <==> t in headers && IsConflict(t)
  {
    hide IsConflict;
    if headers == [] then []
    else
      var k := |headers| - 1;
      assert headers == headers[..k] + [headers[k]];
      Conflicts(headers[..k]) + if IsConflict(headers[k]) then [headers[k]] else []
  }

  function FindConflictingLocalBrowserPluginSections(config: string): seq<string> {
    Unique(Conflicts(TrimmedLines(SplitLines(config))))
  }

  function SuppressedSections(config: string, recorded: seq<string>): (r: seq<string>)
    ensures |r| <= 32 && Distinct(r)
  {
    var all := Unique(FindConflictingLocalBrowserPluginSections(config) + recorded);
    if |all| > MAX_CONFIG_SUPPRESSION_SECTIONS then all[..MAX_CONFIG_SUPPRESSION_SECTIONS] else all
  }

  lemma {:induction false} UniqueOfPrefix(a: seq<string>, b: seq<string>)
    ensures Unique(a) <= Unique(a + b)
  {
    if b == [] {
      assert a + b == a;
    } else {
      var k := |b| - 1;
      UniqueOfPrefix(a, b[..k]);
      assert (a + b)[..|a| + k] == a + b[..k];
    }
  }

  lemma SectionHeaderIsALine(lines: seq<string>, i: nat) returns (k: nat)
    requires i < |Sectioned(lines).sections|
    ensures k < |lines| && lines[k] == Sectioned(lines).sections[i].header
    decreases |lines|
  {
    hide IsHeader;
    var init, line := lines[..|lines| - 1], lines[|lines| - 1];
    var d := Sectioned(init);
    if i < |d.sections| {
      k := SectionHeaderIsALine(init, i);
    } else {
      k := |lines| - 1;
    }
  }

  /** With no more than 32 conflicting sections the overlay has every one of them off. */
  lemma OverlaySwitchesConflictsOff(config: string, recorded: seq<string>)
    requires |FindConflictingLocalBrowserPluginSections(config)| <= 32
    ensures var result := Sectioned(DisabledLines(SplitLines(config), Targets(SuppressedSections(config, recorded)),
      true));
      forall i :: 0 <= i < |result.sections| && IsConflict(Trim(result.sections[i].header)) ==>
        IsOff(result.sections[i].body)
  {
    hide IsSafePluginSectionHeader, SplitLines, Targets, IsHeader, IsEnabledLine, Sectioned, DisabledLines, IsOff,
      Others, Trim, IsConflict, SectionDone, Missing, Mentioned;
    var lines, found := SplitLines(config), FindConflictingLocalBrowserPluginSections(config);
    var targets := Targets(SuppressedSections(config, recorded));
    var d, r := Sectioned(lines), Sectioned(DisabledLines(lines, targets, true));
    SwitchesTargetsOff(lines, targets, true);
    forall i | 0 <= i < |r.sections| && IsConflict(Trim(r.sections[i].header)) ensures IsOff(r.sections[i].body) {
      var t := Trim(r.sections[i].header);
      ResultHeaders(lines, targets, true, i);
      if i < |d.sections| {
        var k := SectionHeaderIsALine(lines, i);
        FoundIsSuppressed(config, recorded, k);
        ConflictsAreSafe(t);
      }
    }
  }

  /** What an earlier run recorded stays off, whatever the configuration says now, unless the limit cuts it off. */
  lemma OverlaySwitchesRecordedOff(config: string, recorded: seq<string>, header: string)
    requires |Unique(FindConflictingLocalBrowserPluginSections(config) + recorded)| <= 32
    requires header in recorded && IsSafePluginSectionHeader(header)
    ensures var result := Sectioned(DisabledLines(SplitLines(config), Targets(SuppressedSections(config, recorded)),
      true));
      forall i :: 0 <= i < |result.sections| && Trim(result.sections[i].header) == header ==>
        IsOff(result.sections[i].body)
  {
    hide FindConflictingLocalBrowserPluginSections, IsSafePluginSectionHeader, SplitLines, Targets, IsHeader,
      IsEnabledLine, Sectioned, DisabledLines, IsOff, Trim, Unique;
    var targets := Targets(SuppressedSections(config, recorded));
    assert header in targets;
    SwitchesTargetsOff(SplitLines(config), targets, true);
  }

  lemma FoundIsSuppressed(config: string, recorded: seq<string>, k: nat)
    requires |FindConflictingLocalBrowserPluginSections(config)| <= 32
    requires k < |SplitLines(config)| && IsConflict(Trim(SplitLines(config)[k]))
    ensures Trim(SplitLines(config)[k]) in SuppressedSections(config, recorded)
  {
    hide Trim, IsConflict, SplitLines, Unique, Conflicts;
    var found, t := FindConflictingLocalBrowserPluginSections(config), Trim(SplitLines(config)[k]);
    assert TrimmedLines(SplitLines(config))[k] == t;
    assert t in found;
    UniqueOfPrefix(found, recorded);
    UniqueIsFixed(found);
    var j :| 0 <= j < |found| && found[j] == t;
    assert Unique(found + recorded)[j] == t;
  }

  lemma {:induction false} UniqueIsFixed(s: seq<string>)
    requires Distinct(s)
    ensures Unique(s) == s
  {
    if s != [] {
      var k := |s| - 1;
      UniqueIsFixed(s[..k]);
      assert s == s[..k] + [s[k]];
    }
  }
}
