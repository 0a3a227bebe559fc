/**
 The macOS update manifests: a line-by-line parser and the printer that writes what it reads.
 Numbers are represented by their canonical decimal text.
 */
module MacManifest {
  import opened Sorting
  import opened Strings
  import opened Wrappers

  datatype Scalar = Str(text: string) | Num(literal: string) | Bool(value: bool)

  datatype File = File(url: string, sha512: string, size: string)

  /** An object with its entries in insertion order. */
  type Extras = seq<Extra>

  datatype Extra = Extra(key: string, value: Scalar)

  datatype Manifest = Manifest(version: string, releaseDate: string, files: seq<File>, extras: Extras)

  datatype Error =
    | IncompleteFileEntry(line: nat)
    | Sha512WithoutFile(line: nat)
    | SizeWithoutFile(line: nat)
    | UnsupportedLine(line: nat)
    | VersionNotString(line: nat)
    | ReleaseDateNotString(line: nat)
    | MissingVersion
    | MissingReleaseDate
    | MissingFiles
    | DifferentVersions
    | ConflictingFile(url: string)
    | ConflictingExtra(key: string)

  datatype Result<+T> = Ok(value: T) | Err(error: Error)

  /* ---------- Objects ---------- */

  function Lookup(m: Extras, key: string): Option<Scalar> {
    if m == [] then None else if m[0].key == key then Some(m[0].value) else Lookup(m[1..], key)
  }

  /** Overwrites in place, or appends. */
  function Put(m: Extras, key: string, value: Scalar): Extras {
    if m == [] then [Extra(key, value)]
    else if m[0].key == key then [Extra(key, value)] + m[1..]
    else [m[0]] + Put(m[1..], key, value)
  }

  ghost predicate UniqueKeys(m: Extras) {
    forall i, j :: 0 <= i < j < |m| ==> m[i].key != m[j].key
  }

  /* ---------- Scalars ---------- */

  predicate IsDigit(c: char) { '0' <= c <= '9' }

  predicate IsLetter(c: char) { 'a' <= c <= 'z' || 'A' <= c <= 'Z' }

  predicate AllDigits(s: string) {
    s != [] && forall i :: 0 <= i < |s| ==> IsDigit(s[i])
  }

  /** A minus sign at most, digits, and at most one fraction. */
  predicate IsNumberLiteral(s: string) {
    var body := if s != [] && s[0] == '-' then s[1..] else s;
    var point := IndexOf(body, '.');
    AllDigits(body[..point]) && (point < |body| ==> AllDigits(body[point + 1..]))
  }

  function StripLeadingZeros(s: string): string {
    if |s| > 1 && s[0] == '0' then StripLeadingZeros(s[1..]) else s
  }

  function StripTrailingZeros(s: string): string {
    if s != [] && s[|s| - 1] == '0' then StripTrailingZeros(s[..|s| - 1]) else s
  }

  /** The text that prints the number which this literal reads as. */
  function Canonical(s: string): string
    requires IsNumberLiteral(s)
  {
    var negative := s != [] && s[0] == '-';
    var body := if negative then s[1..] else s;
    var point := IndexOf(body, '.');
    var fraction := if point < |body| then StripTrailingZeros(body[point + 1..]) else [];
    var whole := StripLeadingZeros(body[..point]);
    var text := if fraction == [] then whole else whole + "." + fraction;
    if negative && text != "0" then "-" + text else text
  }

  predicate IsCanonical(s: string) {
    IsNumberLiteral(s) && Canonical(s) == s
  }

  ghost predicate AllZeros(s: string) {
    forall i :: 0 <= i < |s| ==> s[i] == '0'
  }

  lemma {:induction false} LeadingZerosGo(zeros: string, digits: string)
    requires AllZeros(zeros) && digits != [] && (|digits| > 1 ==> digits[0] != '0')
    ensures StripLeadingZeros(zeros + digits) == digits
  {
    if zeros == [] {
      assert zeros + digits == digits;
    } else {
      LeadingZerosGo(zeros[1..], digits);
      assert (zeros + digits)[1..] == zeros[1..] + digits;
    }
  }

  lemma {:induction false} TrailingZerosGo(digits: string, zeros: string)
    requires AllZeros(zeros) && (digits == [] || digits[|digits| - 1] != '0')
    ensures StripTrailingZeros(digits + zeros) == digits
  {
    if zeros == [] {
      assert digits + zeros == digits;
    } else {
      var k := |zeros| - 1;
      TrailingZerosGo(digits, zeros[..k]);
      assert (digits + zeros)[..|digits| + k] == digits + zeros[..k];
    }
  }

  lemma PointIsFound(digits: string, decimals: string)
    requires AllDigits(digits)
    ensures var body := digits + if decimals == [] then [] else "." + decimals;
      && body != [] && body[0] != '-' && IndexOf(body, '.') == |digits| && body[..|digits|] == digits
      && (|digits| < |body| <==> decimals != []) && (decimals != [] ==> body[|digits| + 1..] == decimals)
  {
    assert '.' !in digits && digits[0] != '-';
    hide AllDigits;
    if decimals == [] {
      assert digits + [] == digits;
    } else {
      assert digits + ("." + decimals) == digits + ['.'] + decimals;
      FirstSeparator(digits, '.', decimals);
    }
  }

  /** How a literal is taken apart: its sign, its digits and its decimals. */
  lemma LiteralParts(digits: string, decimals: string, negative: bool)
    requires AllDigits(digits) && (decimals == [] || AllDigits(decimals))
    ensures var s := (if negative then "-" else []) + (digits + if decimals == [] then [] else "." + decimals);
      var fraction := StripTrailingZeros(decimals);
      var text := StripLeadingZeros(digits) + if fraction == [] then [] else "." + fraction;
      IsNumberLiteral(s) && Canonical(s) == if negative && text != "0" then "-" + text else text
  {
    var body := digits + if decimals == [] then [] else "." + decimals;
    var s := (if negative then "-" else []) + body;
    PointIsFound(digits, decimals);
    assert if negative then s[0] == '-' && s[1..] == body else s == body;
    assert StripTrailingZeros([]) == [];
    hide StripLeadingZeros, StripTrailingZeros, AllDigits, IndexOf;
    assert StripLeadingZeros(digits) + [] == StripLeadingZeros(digits);
    Associative(StripLeadingZeros(digits), ".", StripTrailingZeros(decimals));
  }

  /** Leading zeros are not printed again, nor are trailing zeros of a fraction, nor the sign of zero. */
  lemma NumbersPrintShort(zeros: string, whole: string, fraction: string, more: string, negative: bool)
    requires AllZeros(zeros) && AllDigits(whole) && (|whole| > 1 ==> whole[0] != '0')
    requires AllZeros(more) && (fraction == [] || (AllDigits(fraction) && fraction[|fraction| - 1] != '0'))
    ensures var s := (if negative then "-" else [])
        + ((zeros + whole) + if fraction + more == [] then [] else "." + (fraction + more));
      var shown := whole + if fraction == [] then [] else "." + fraction;
      IsNumberLiteral(s) && Canonical(s) == if negative && shown != "0" then "-" + shown else shown
  {
    LeadingZerosGo(zeros, whole);
    TrailingZerosGo(fraction, more);
    assert AllDigits(zeros + whole) && (fraction + more != [] ==> AllDigits(fraction + more));
    hide IsNumberLiteral, Canonical, StripLeadingZeros, StripTrailingZeros, AllDigits, AllZeros;
    LiteralParts(zeros + whole, fraction + more, negative);
  }

  /** A url or checksum in quotes is read without them. */
  lemma QuotedFieldIsUnquoted(text: string)
    ensures StripSingleQuotes(QuoteYamlString(text)) == text
  {
    var q := QuoteYamlString(text);
    assert q[1..|q| - 1] == Escape(text);
    UnescapeEscape(text);
  }

  function Escape(s: string): string {
    if s == [] then []
    else (if s[0] == '\'' then "''" else [s[0]]) + Escape(s[1..])
  }

  function Unescape(s: string): string
    decreases |s|
  {
    if |s| >= 2 && s[0] == '\'' && s[1] == '\'' then "'" + Unescape(s[2..])
    else if s == [] then []
    else [s[0]] + Unescape(s[1..])
  }

  predicate Quoted(s: string) {
    s != [] && s[0] == '\'' && s[|s| - 1] == '\''
  }

  function StripSingleQuotes(value: string): string {
    if !Quoted(value) then value else if |value| == 1 then [] else Unescape(value[1..|value| - 1])
  }

  function ParseScalarValue(raw: string): Scalar {
    var trimmed := Trim(raw);
    if Quoted(trimmed) && |trimmed| >= 2 then Str(Unescape(trimmed[1..|trimmed| - 1]))
    else if trimmed == "true" then Bool(true)
    else if trimmed == "false" then Bool(false)
    else if IsNumberLiteral(trimmed) then Num(Canonical(trimmed))
    else Str(trimmed)
  }

  function QuoteYamlString(value: string): string {
    "'" + Escape(value) + "'"
  }

  function SerializeScalarValue(value: Scalar): string {
    match value
    case Str(text) => QuoteYamlString(text)
    case Num(literal) => literal
    case Bool(b) => if b then "true" else "false"
  }

  lemma {:induction false} UnescapeEscape(s: string)
    ensures Unescape(Escape(s)) == s
    ensures Escape(s) == [] <==> s == []
  {
    if s != [] {
      UnescapeEscape(s[1..]);
      var e := Escape(s[1..]);
      if s[0] == '\'' {
        assert Escape(s) == "''" + e && Escape(s)[2..] == e;
      } else {
        assert Escape(s) == [s[0]] + e && Escape(s)[1..] == e;
      }
    }
  }

  lemma {:induction false} EscapeOneLine(s: string)
    requires OneLine(s)
    ensures OneLine(Escape(s))
  {
    if s != [] {
      assert forall i :: 0 <= i < |s[1..]| ==> s[1..][i] == s[i + 1];
      EscapeOneLine(s[1..]);
    }
  }

  /** A scalar that is written on one line reads back as itself. */
  ghost predicate PlainScalar(value: Scalar) {
    match value
    case Str(text) => OneLine(text)
    case Num(literal) => IsCanonical(literal)
    case Bool(_) => true
  }

  lemma QuotedReadsBack(text: string)
    ensures ParseScalarValue(QuoteYamlString(text)) == Str(text)
    ensures Trimmed(QuoteYamlString(text))
    ensures OneLine(text) ==> OneLine(QuoteYamlString(text))
  {
    var q := QuoteYamlString(text);
    assert q[0] == '\'' && q[|q| - 1] == '\'' && q[1..|q| - 1] == Escape(text);
    TrimmedIsFixed(q);
    UnescapeEscape(text);
    if OneLine(text) { EscapeOneLine(text); }
  }

  lemma NumberCharacters(s: string)
    requires IsNumberLiteral(s)
    ensures s != [] && forall i :: 0 <= i < |s| ==> IsDigit(s[i]) || s[i] == '-' || s[i] == '.'
  {
    var body := if s[0] == '-' then s[1..] else s;
    var point := IndexOf(body, '.');
    forall i | 0 <= i < |body| ensures IsDigit(body[i]) || body[i] == '.' {
      if i < point {
        assert body[i] == body[..point][i];
      } else if i > point {
        assert body[i] == body[point + 1..][i - point - 1];
      }
    }
  }

  lemma NumberReadsBack(literal: string)
    requires IsCanonical(literal)
    ensures ParseScalarValue(literal) == Num(literal) && Trimmed(literal) && OneLine(literal)
  {
    hide IsNumberLiteral, Canonical;
    NumberCharacters(literal);
    TrimmedIsFixed(literal);
    assert literal[0] != 't' && literal[0] != 'f' && literal[0] != '\'';
  }

  lemma BooleanReadsBack(b: bool)
    ensures var text := SerializeScalarValue(Bool(b));
      ParseScalarValue(text) == Bool(b) && Trimmed(text) && OneLine(text)
  {
    WordsAreTrimmed();
    if b { WordReadsBack("true", true); } else { WordReadsBack("false", false); }
  }

  lemma WordsAreTrimmed()
    ensures Trimmed("true") && OneLine("true") && Trimmed("false") && OneLine("false")
  {
  }

  lemma WordReadsBack(text: string, b: bool)
    requires Trimmed(text) && text[0] != '\'' && text == if b then "true" else "false"
    ensures ParseScalarValue(text) == Bool(b)
  {
    hide IsNumberLiteral, Canonical, Trim, Trimmed;
    TrimmedIsFixed(text);
    assert "false" != "true" by { assert |"false"| != |"true"|; }
  }

  lemma ScalarReadsBack(value: Scalar)
    requires PlainScalar(value)
    ensures ParseScalarValue(SerializeScalarValue(value)) == value
    ensures Trimmed(SerializeScalarValue(value)) && OneLine(SerializeScalarValue(value))
  {
    hide IsCanonical, ParseScalarValue, QuoteYamlString, Trimmed, OneLine;
    match value
    case Str(text) => QuotedReadsBack(text);
    case Num(literal) => NumberReadsBack(literal);
    case Bool(b) => BooleanReadsBack(b);
  }

  /* ---------- The parser ---------- */

  /** A file entry under construction; it begins with its url. */
  datatype PartialFile = PartialFile(url: string, sha512: Option<string>, size: Option<string>)

  datatype ParseState = ParseState(
    files: seq<File>, extras: Extras, version: Option<string>, releaseDate: Option<string>,
    inFiles: bool, currentFile: Option<PartialFile>)

  const START := ParseState([], [], None, None, false, None)

  /** The rest of a line after a prefix and white space, if there is a rest and it is one line. */
  function After(line: string, prefix: string): Option<string> {
    if !(prefix <= line) then None
    else
      var rest := TrimStart(line[|prefix|..]);
      if rest == [] || !OneLine(rest) then None else Some(rest)
  }

  /** Finishes the entry under construction, which must be complete. */
  function FinishFile(s: ParseState, lineNumber: nat): Result<ParseState> {
    match s.currentFile
    case None => Ok(s)
    case Some(f) =>
      if f.sha512.None? || f.size.None? then Err(IncompleteFileEntry(lineNumber))
      else Ok(s.(files := s.files + [File(f.url, f.sha512.value, f.size.value)], currentFile := None))
  }

  predicate IsKeyCharacter(c: char) {
    IsLetter(c) || IsDigit(c)
  }

  predicate IsKey(key: string) {
    key != [] && IsLetter(key[0]) && forall i :: 0 <= i < |key| ==> IsKeyCharacter(key[i])
  }

  /** The key and the value of a top-level line. */
  function TopLevelMatch(line: string): Option<(string, string)> {
    var colon := IndexOf(line, ':');
    if colon == |line| || !IsKey(line[..colon]) then None
    else
      var value := TrimStart(line[colon + 1..]);
      if value == [] || !OneLine(value) then None else Some((line[..colon], value))
  }

  /** A prefix, white space, and a value on one line that begins with neither. */
  ghost predicate Follows(line: string, prefix: string, space: string, value: string) {
    && line == prefix + (space + value) && AllSpace(space)
    && value != [] && !IsSpace(value[0]) && OneLine(value)
  }

  lemma AfterIff(line: string, prefix: string, value: string)
    ensures After(line, prefix) == Some(value) <==> exists space :: Follows(line, prefix, space, value)
  {
    hide IsSpace, AllSpace, OneLine;
    if After(line, prefix) == Some(value) {
      var space := TrimStartTakes(line[|prefix|..]);
      assert line == prefix + (space + value);
      assert Follows(line, prefix, space, value);
    }
    if space :| Follows(line, prefix, space, value) {
      TrimStartPadded(space, value);
      assert line[|prefix|..] == space + value;
    }
  }

  /** A top-level line is a plain key, a colon, white space, and a value on one line. */
  lemma TopLevelMatchIff(line: string, key: string, value: string)
    ensures TopLevelMatch(line) == Some((key, value)) <==>
      IsKey(key) && exists space :: Follows(line, key + ":", space, value)
  {
    AfterIff(line, key + ":", value);
    hide IsSpace, AllSpace, OneLine, Follows;
    if TopLevelMatch(line) == Some((key, value)) {
      var rest := line[|key| + 1..];
      assert line == key + [':'] + rest && (key + ":") + rest == line;
      hide IsKey;
      assert line[|key + ":"|..] == rest;
    }
    if IsKey(key) && After(line, key + ":") == Some(value) {
      var rest := line[|key| + 1..];
      assert ':' !in key && line == key + [':'] + rest;
      hide IsKey;
      FirstSeparator(key, ':', rest);
    }
  }

  lemma KeyCharacterIff(c: char)
    ensures IsLetter(c) <==> c in "ABCDEFGHIJKLMNOPQRSTUVWXYZ" || c in "abcdefghijklmnopqrstuvwxyz"
    ensures IsDigit(c) <==> c in "0123456789"
    ensures IsKeyCharacter(c) <==> IsLetter(c) || IsDigit(c)
  {
    UppercaseIff(c);
    LowercaseIff(c);
    var digits := "0123456789";
    assert forall d: nat :: d < 10 ==> digits[d] as int == '0' as int + d;
    if IsDigit(c) { assert digits[c as int - '0' as int] == c; }
  }

  function ParseTopLevel(s: ParseState, line: string, lineNumber: nat): Result<ParseState> {
    var finished := if s.inFiles && s.currentFile.Some? then FinishFile(s, lineNumber) else Ok(s);
    if finished.Err? then finished
    else
      var t := finished.value.(inFiles := false);
      match TopLevelMatch(line)
      case None => Err(UnsupportedLine(lineNumber))
      case Some((key, rawValue)) =>
        var value := ParseScalarValue(rawValue);
        if key == "version" then
          if value.Str? then Ok(t.(version := Some(value.text))) else Err(VersionNotString(lineNumber))
        else if key == "releaseDate" then
          if value.Str? then Ok(t.(releaseDate := Some(value.text))) else Err(ReleaseDateNotString(lineNumber))
        else if key == "path" || key == "sha512" then Ok(t)
        else Ok(t.(extras := Put(t.extras, key, value)))
  }

  function ParseLine(s: ParseState, rawLine: string, lineNumber: nat): Result<ParseState> {
    var line := TrimEnd(rawLine);
    var url, sha512, size := After(line, "  - url:"), After(line, "    sha512:"), After(line, "    size:");
    if line == [] then Ok(s)
    else if url.Some? then
      match FinishFile(s, lineNumber)
      case Err(e) => Err(e)
      case Ok(t) => Ok(t.(currentFile := Some(PartialFile(StripSingleQuotes(Trim(url.value)), None, None)),
        inFiles := true))
    else if sha512.Some? then
      if s.currentFile.None? then Err(Sha512WithoutFile(lineNumber))
      else Ok(s.(currentFile := Some(s.currentFile.value.(sha512 := Some(StripSingleQuotes(Trim(sha512.value)))))))
    else if size.Some? && AllDigits(size.value) then
      if s.currentFile.None? then Err(SizeWithoutFile(lineNumber))
      else
        DigitsAreLiteral(size.value);
        Ok(s.(currentFile := Some(s.currentFile.value.(size := Some(Canonical(size.value))))))
    else if line == "files:" then Ok(s.(inFiles := true))
    else ParseTopLevel(s, line, lineNumber)
  }

  lemma DigitsAreLiteral(s: string)
    requires AllDigits(s)
    ensures IsNumberLiteral(s) && Canonical(s) == StripLeadingZeros(s)
  {
    var point := IndexOf(s, '.');
    assert point == |s| && s[..point] == s;
  }

  /** The lines from `lineNumber` on. */
  function ParseLines(s: ParseState, lines: seq<string>, lineNumber: nat): Result<ParseState>
    decreases |lines|
  {
    hide ParseLine;
    if lines == [] then Ok(s)
    else match ParseLine(s, lines[0], lineNumber)
      case Err(e) => Err(e)
      case Ok(t) => ParseLines(t, lines[1..], lineNumber + 1)
  }

  function FinishManifest(s: ParseState, lineCount: nat): Result<Manifest> {
    match FinishFile(s, lineCount)
    case Err(e) => Err(e)
    case Ok(t) =>
      if t.version.None? || t.version.value == [] then Err(MissingVersion)
      else if t.releaseDate.None? || t.releaseDate.value == [] then Err(MissingReleaseDate)
      else if t.files == [] then Err(MissingFiles)
      else Ok(Manifest(t.version.value, t.releaseDate.value, t.files, t.extras))
  }

  function Parse(raw: string): Result<Manifest> {
    var lines := SplitLines(raw);
    match ParseLines(START, lines, 1)
    case Err(e) => Err(e)
    case Ok(s) => FinishManifest(s, |lines|)
  }

  method ParseMacUpdateManifest(raw: string) returns (r: Result<Manifest>)
    ensures r == Parse(raw)
  {
    hide ParseLine;
    var lines := SplitLines(raw);
    var s := START;
    var i := 0;
    while i < |lines|
      invariant 0 <= i <= |lines|
      invariant ParseLines(START, lines, 1) == ParseLines(s, lines[i..], i + 1)
    {
      assert lines[i..][1..] == lines[i + 1..];
      var next := ParseLine(s, lines[i], i + 1);
      if next.Err? { return Err(next.error); }
      s := next.value;
      i := i + 1;
    }
    r := FinishManifest(s, |lines|);
  }

  /* ---------- The printer ---------- */

  predicate KeyLeq(a: Extra, b: Extra) {
    LexLeq(a.key, b.key)
  }

  function FileLines(file: File): seq<string> {
    ["  - url: " + file.url, "    sha512: " + file.sha512, "    size: " + file.size]
  }

  function AllFileLines(files: seq<File>): seq<string> {
    if files == [] then [] else AllFileLines(files[..|files| - 1]) + FileLines(files[|files| - 1])
  }

  function ExtraLine(entry: Extra): string {
    entry.key + ": " + SerializeScalarValue(entry.value)
  }

  function ExtraLines(extras: Extras): seq<string> {
    if extras == [] then [] else ExtraLines(extras[..|extras| - 1]) + [ExtraLine(extras[|extras| - 1])]
  }

  function SortedExtras(m: Manifest): Extras {
    SortBy(m.extras, KeyLeq)
  }

  function ManifestLines(m: Manifest): seq<string> {
    ["version: " + m.version, "files:"] + AllFileLines(m.files) + ExtraLines(SortedExtras(m))
    + ["releaseDate: " + QuoteYamlString(m.releaseDate), ""]
  }

  /** Three lines for each file stand behind the version and the head of the list. */
  lemma FileLinesInOrder(m: Manifest, i: nat)
    requires i < |m.files|
    ensures FileLinesAt(m.files[i], ManifestLines(m), 2 + 3 * i)
  {
    var head, files, extras := ["version: " + m.version, "files:"], AllFileLines(m.files), ExtraLines(SortedExtras(m));
    var last := ["releaseDate: " + QuoteYamlString(m.releaseDate), ""];
    assert ManifestLines(m) == head + files + extras + last;
    AllFileLinesAt(m.files);
    hide ManifestLines, SortedExtras, QuoteYamlString, AllFileLines, ExtraLines, FileLinesAt;
    FileLinesMoved(m.files[i], head, files, extras + last, 3 * i);
    Associative(head + files, extras, last);
  }

  ghost predicate Framed(lines: seq<string>, first: string, second: string, k: nat, extras: seq<string>, date: string,
      end: string)
  {
    && |lines| == k + |extras| + 2
    && lines[0] == first && lines[1] == second && lines[k + |extras|] == date && lines[k + |extras| + 1] == end
    && forall i :: 0 <= i < |extras| ==> lines[k + i] == extras[i]
  }

  /** The other lines: version, head of the list, and behind the files the extras, the date and a last line feed. */
  lemma OtherLinesInOrder(m: Manifest)
    ensures Framed(ManifestLines(m), "version: " + m.version, "files:", 2 + 3 * |m.files|, ExtraLines(SortedExtras(m)),
      "releaseDate: " + QuoteYamlString(m.releaseDate), "")
  {
    hide SortedExtras, ExtraLine, QuoteYamlString, AllFileLines, ExtraLines, FileLinesAt, Framed;
    AllFileLinesAt(m.files);
    PartsInPlace("version: " + m.version, "files:", AllFileLines(m.files), ExtraLines(SortedExtras(m)),
      "releaseDate: " + QuoteYamlString(m.releaseDate), "");
  }

  lemma ExtraLinesInOrder(m: Manifest)
    ensures |ExtraLines(SortedExtras(m))| == |m.extras| == |SortedExtras(m)|
    ensures forall i :: 0 <= i < |m.extras| ==> ExtraLines(SortedExtras(m))[i] == ExtraLine(SortedExtras(m)[i])
  {
    SortByMembers(m.extras, KeyLeq);
    assert |SortedExtras(m)| == |m.extras|;
    hide SortedExtras, ExtraLine, ExtraLines;
    ExtraLinesAt(SortedExtras(m));
  }

  lemma PartsInPlace(first: string, second: string, files: seq<string>, extras: seq<string>, date: string, end: string)
    ensures Framed([first, second] + files + extras + [date, end], first, second, 2 + |files|, extras, date, end)
  {
  }

  ghost predicate FileLinesAt(file: File, lines: seq<string>, i: int) {
    && 0 <= i && i + 2 < |lines|
    && lines[i] == "  - url: " + file.url && lines[i + 1] == "    sha512: " + file.sha512
    && lines[i + 2] == "    size: " + file.size
  }

  lemma FileLinesMoved(file: File, before: seq<string>, lines: seq<string>, after: seq<string>, i: nat)
    requires FileLinesAt(file, lines, i)
    ensures FileLinesAt(file, before + lines + after, |before| + i)
  {
  }

  lemma {:induction false} AllFileLinesAt(files: seq<File>)
    ensures |AllFileLines(files)| == 3 * |files|
    ensures forall i :: 0 <= i < |files| ==> FileLinesAt(files[i], AllFileLines(files), 3 * i)
  {
    if files != [] {
      var k := |files| - 1;
      var rest, last := AllFileLines(files[..k]), FileLines(files[k]);
      AllFileLinesAt(files[..k]);
      assert FileLinesAt(files[k], rest + last, 3 * k);
      hide FileLinesAt, FileLines;
      forall i | 0 <= i < k ensures FileLinesAt(files[i], rest + last, 3 * i) {
        assert files[..k][i] == files[i];
        FileLinesMoved(files[i], [], rest, last, 3 * i);
        assert [] + rest + last == rest + last;
      }
    }
  }

  lemma {:induction false} ExtraLinesAt(extras: Extras)
    ensures |ExtraLines(extras)| == |extras|
    ensures forall i :: 0 <= i < |extras| ==> ExtraLines(extras)[i] == ExtraLine(extras[i])
  {
    hide ExtraLine;
    if extras != [] {
      ExtraLinesAt(extras[..|extras| - 1]);
    }
  }

  ghost function KeysOf(extras: Extras): seq<string> {
    seq(|extras|, i requires 0 <= i < |extras| => extras[i].key)
  }

  lemma ExtrasAreAlphabetical(m: Manifest)
    ensures Alphabetical(KeysOf(SortedExtras(m))) && multiset(SortedExtras(m)) == multiset(m.extras)
  {
    LexLeqIsTotalPreorder();
    forall a: Extra, b: Extra ensures KeyLeq(a, b) || KeyLeq(b, a) {}
    forall a: Extra, b: Extra, c: Extra | KeyLeq(a, b) && KeyLeq(b, c) ensures KeyLeq(a, c) {}
    assert TotalPreorder(KeyLeq);
    SortBySorted(m.extras, KeyLeq);
    var keys := KeysOf(SortedExtras(m));
    forall i, j | 0 <= i < j < |keys| ensures LexLeq(keys[i], keys[j]) {
      assert KeyLeq(SortedExtras(m)[i], SortedExtras(m)[j]);
    }
    SortedIsAlphabetical(keys);
  }

  method SerializeMacUpdateManifest(m: Manifest) returns (raw: string)
    ensures raw == JoinLines(ManifestLines(m))
    ensures Alphabetical(KeysOf(SortedExtras(m))) && multiset(SortedExtras(m)) == multiset(m.extras)
  {
    ExtrasAreAlphabetical(m);
    hide SerializeScalarValue, QuoteYamlString, SortedExtras, JoinLines;
    var lines := ["version: " + m.version, "files:"];
    ghost var head := lines;
    for i := 0 to |m.files|
      invariant lines == head + AllFileLines(m.files[..i])
    {
      assert m.files[..i + 1][..i] == m.files[..i];
      lines := lines + ["  - url: " + m.files[i].url];
      lines := lines + ["    sha512: " + m.files[i].sha512];
      lines := lines + ["    size: " + m.files[i].size];
    }
    assert m.files[..|m.files|] == m.files;
    var sorted := SortedExtras(m);
    for i := 0 to |sorted|
      invariant lines == head + AllFileLines(m.files) + ExtraLines(sorted[..i])
    {
      assert sorted[..i + 1][..i] == sorted[..i];
      lines := lines + [sorted[i].key + ": " + SerializeScalarValue(sorted[i].value)];
    }
    assert sorted[..|sorted|] == sorted;
    lines := lines + ["releaseDate: " + QuoteYamlString(m.releaseDate)];
    lines := lines + [""];
    assert lines == ManifestLines(m);
    raw := JoinLines(lines);
  }

  /* ---------- Reading back what was printed ---------- */

  ghost predicate PlainText(s: string) {
    Trimmed(s) && OneLine(s) && !Quoted(s)
  }

  /** What an unquoted field that was printed as `v` is read as, if the line is read as such a field at all. */
  function ReadAs(v: string): Option<string> {
    if Trim(v) == [] then None else Some(StripSingleQuotes(Trim(v)))
  }

  lemma {:induction false} UnescapeShortens(s: string)
    ensures |Unescape(s)| <= |s|
    decreases |s|
  {
    if |s| >= 2 && s[0] == '\'' && s[1] == '\'' { UnescapeShortens(s[2..]); }
      else if s != [] { UnescapeShortens(s[1..]); }
  }

  /** A url or checksum reads as itself exactly when it has no white space at its ends and is not in quotes. */
  lemma ReadsAsItselfIff(v: string)
    requires OneLine(v)
    ensures ReadAs(v) == Some(v) <==> PlainText(v)
  {
    var t := Trim(v);
    TrimShape(v);
    if Trimmed(v) { TrimmedIsFixed(v); }
    hide Trim, Trimmed, OneLine;
    if Quoted(t) && |t| > 1 { UnescapeShortens(t[1..|t| - 1]); }
  }

  ghost predicate PlainFile(f: File) {
    PlainText(f.url) && PlainText(f.sha512)
  }

  ghost predicate OneLineFile(f: File) {
    OneLine(f.url) && OneLine(f.sha512)
  }

  predicate SizeOk(f: File) {
    AllDigits(f.size) && IsCanonical(f.size)
  }

  function ReadFile(f: File): Option<File> {
    if ReadAs(f.url).None? || ReadAs(f.sha512).None? then None
    else Some(File(ReadAs(f.url).value, ReadAs(f.sha512).value, f.size))
  }

  /** What printed files are read as, if they are read. */
  function ReadFiles(files: seq<File>): Option<seq<File>> {
    if files == [] then Some([])
    else
      var k := |files| - 1;
      var before, last := ReadFiles(files[..k]), ReadFile(files[k]);
      if before.None? || last.None? then None else Some(before.value + [last.value])
  }

  lemma {:induction false} FilesReadAsThemselvesIff(files: seq<File>)
    requires forall i :: 0 <= i < |files| ==> OneLineFile(files[i])
    ensures ReadFiles(files) == Some(files) <==> forall i :: 0 <= i < |files| ==> PlainFile(files[i])
    ensures ReadFiles(files).Some? ==> |ReadFiles(files).value| == |files|
  {
    hide ReadAs, PlainText;
    if files != [] {
      var k := |files| - 1;
      FilesReadAsThemselvesIff(files[..k]);
      ReadsAsItselfIff(files[k].url);
      ReadsAsItselfIff(files[k].sha512);
      assert files == files[..k] + [files[k]];
    }
  }

  predicate Reserved(key: string) {
    key == "version" || key == "releaseDate" || key == "path" || key == "sha512"
  }

  ghost predicate PlainExtra(entry: Extra) {
    IsKey(entry.key) && !Reserved(entry.key) && PlainScalar(entry.value)
  }

  /** What the printer, which does not quote everything, needs of all but the version, the urls and the checksums. */
  ghost predicate Printable(m: Manifest) {
    && Trimmed(m.version) && OneLine(m.version)
    && m.releaseDate != [] && OneLine(m.releaseDate)
    && m.files != [] && (forall i :: 0 <= i < |m.files| ==> SizeOk(m.files[i]))
    && UniqueKeys(m.extras) && (forall i :: 0 <= i < |m.extras| ==> PlainExtra(m.extras[i]))
  }

  lemma TrimStartSpace(v: string)
    requires Trimmed(v)
    ensures TrimStart(" " + v) == v
  {
    assert (" " + v)[1..] == v;
    TrimmedIsFixed(v);
  }

  lemma AfterPrefix(prefix: string, v: string)
    requires Trimmed(v) && OneLine(v)
    ensures After(prefix + " " + v, prefix) == Some(v)
    ensures TrimEnd(prefix + " " + v) == prefix + " " + v
  {
    hide TrimStart, TrimEnd, OneLine;
    var line := prefix + " " + v;
    assert line[|prefix|..] == " " + v;
    TrimStartSpace(v);
    TrimEndAfter(prefix + " ", v);
  }

  lemma OtherPrefix(line: string, prefix: string, i: nat)
    requires i < |prefix| && i < |line| && line[i] != prefix[i]
    ensures After(line, prefix) == None
  {
  }

  lemma {:induction false} EndsInNoSpace(s: string)
    requires s != [] && !IsSpace(s[|s| - 1])
    ensures TrimStart(s) != []
  {
    hide IsSpace;
    if IsSpace(s[0]) { EndsInNoSpace(s[1..]); }
  }

  lemma TrimEndNothing(v: string)
    ensures TrimEnd(v) == [] <==> Trim(v) == []
  {
    TrimCommutes(v);
    hide Trim, IsSpace;
    if TrimEnd(v) != [] { EndsInNoSpace(TrimEnd(v)); }
  }

  lemma TrimEndBlank(prefix: string)
    requires prefix != [] && !IsSpace(prefix[|prefix| - 1])
    ensures TrimEnd(prefix + " ") == prefix
  {
    assert IsSpace(' ');
    hide IsSpace;
    var longer := prefix + " ";
    assert longer[..|longer| - 1] == prefix && longer[|longer| - 1] == ' ';
    assert TrimEnd(prefix) == prefix;
  }

  lemma TrimEndField(prefix: string, v: string)
    requires prefix != [] && !IsSpace(prefix[|prefix| - 1])
    ensures TrimEnd(prefix + " " + v) == if Trim(v) == [] then prefix else prefix + (" " + TrimEnd(v))
  {
    hide TrimEnd, Trim, IsSpace;
    TrimEndBlank(prefix);
    TrimEndAppend(prefix + " ", v);
    TrimEndNothing(v);
    Associative(prefix, " ", TrimEnd(v));
  }

  lemma TrimStartField(v: string)
    ensures TrimStart(" " + TrimEnd(v)) == Trim(v)
  {
    TrimCommutes(v);
    assert IsSpace(' ') && (" " + TrimEnd(v))[1..] == TrimEnd(v);
    hide TrimEnd, Trim, IsSpace;
  }

  /** A printed field as the parser matches it. */
  lemma AfterField(prefix: string, v: string)
    requires OneLine(v) && prefix != [] && !IsSpace(prefix[|prefix| - 1])
    ensures var line := TrimEnd(prefix + " " + v);
      && prefix <= line && (Trim(v) == [] ==> line == prefix)
      && After(line, prefix) == if Trim(v) == [] then None else Some(Trim(v))
  {
    TrimEndField(prefix, v);
    TrimStartField(v);
    TrimOneLine(v);
    var rest := if Trim(v) == [] then [] else " " + TrimEnd(v);
    assert TrimStart([]) == [];
    hide TrimEnd, TrimStart, Trim, IsSpace, OneLine;
    var line := TrimEnd(prefix + " " + v);
    assert line == prefix + rest && line[|prefix|..] == rest;
  }

  lemma BareField(s: ParseState, line: string, n: nat)
    requires line == "  - url:" || line == "    sha512:"
    ensures ParseTopLevel(s, line, n).Err?
  {
    var colon := IndexOf(line, ':');
    assert colon > 0 && line[..colon][0] == ' ';
    hide FinishFile;
  }

  /** Which patterns a printed url line matches. */
  lemma UrlAfter(v: string)
    requires OneLine(v)
    ensures var line := TrimEnd("  - url: " + v);
      && line != [] && After(line, "  - url:") == (if Trim(v) == [] then None else Some(Trim(v)))
      && (Trim(v) == [] ==> line == "  - url:")
      && (Trim(v) == [] ==> After(line, "    sha512:") == None && After(line, "    size:") == None)
  {
    var prefix := "  - url:";
    assert !IsSpace(prefix[|prefix| - 1]);
    hide TrimEnd, After, Trim, OneLine, IsSpace;
    AfterField(prefix, v);
    assert prefix + " " + v == "  - url: " + v;
    OtherPrefix(prefix, "    sha512:", 2);
    OtherPrefix(prefix, "    size:", 2);
  }

  lemma UrlLine(s: ParseState, v: string, n: nat)
    requires OneLine(v) && FinishFile(s, n).Ok?
    ensures match ReadAs(v)
      case Some(url) => ParseLine(s, "  - url: " + v, n)
        == Ok(FinishFile(s, n).value.(currentFile := Some(PartialFile(url, None, None)), inFiles := true))
      case None => ParseLine(s, "  - url: " + v, n).Err?
  {
    hide TrimEnd, After, FinishFile, ParseTopLevel, Trim, Trimmed, OneLine, StripSingleQuotes;
    UrlAfter(v);
    TrimShape(v);
    if Trim(v) == [] {
      BareField(s, "  - url:", n);
    } else {
      TrimmedIsFixed(Trim(v));
    }
  }

  /** Which patterns a printed checksum line matches. */
  lemma Sha512After(v: string)
    requires OneLine(v)
    ensures var line := TrimEnd("    sha512: " + v);
      && line != [] && After(line, "  - url:") == None
      && After(line, "    sha512:") == (if Trim(v) == [] then None else Some(Trim(v)))
      && (Trim(v) == [] ==> line == "    sha512:" && After(line, "    size:") == None)
  {
    var prefix := "    sha512:";
    assert !IsSpace(prefix[|prefix| - 1]);
    hide TrimEnd, After, Trim, OneLine, IsSpace;
    var line := TrimEnd(prefix + " " + v);
    AfterField(prefix, v);
    assert prefix + " " + v == "    sha512: " + v;
    assert prefix <= line && line[2] == prefix[2];
    OtherPrefix(line, "  - url:", 2);
    OtherPrefix(prefix, "    size:", 5);
  }

  lemma Sha512Line(s: ParseState, v: string, n: nat)
    requires OneLine(v) && s.currentFile.Some?
    ensures match ReadAs(v)
      case Some(sha512) =>
        ParseLine(s, "    sha512: " + v, n) == Ok(s.(currentFile := Some(s.currentFile.value.(sha512 := Some(sha512)))))
      case None => ParseLine(s, "    sha512: " + v, n).Err?
  {
    hide TrimEnd, After, FinishFile, ParseTopLevel, Trim, Trimmed, OneLine, StripSingleQuotes;
    Sha512After(v);
    TrimShape(v);
    if Trim(v) == [] {
      BareField(s, "    sha512:", n);
    } else {
      TrimmedIsFixed(Trim(v));
    }
  }

  lemma SizeLine(s: ParseState, v: string, n: nat)
    requires AllDigits(v) && IsCanonical(v) && s.currentFile.Some?
    ensures ParseLine(s, "    size: " + v, n) == Ok(s.(currentFile := Some(s.currentFile.value.(size := Some(v)))))
  {
    hide TrimEnd, After, FinishFile, ParseTopLevel, IsNumberLiteral, Canonical, StripLeadingZeros;
    var line := "    size: " + v;
    AfterPrefix("    size:", v);
    assert "    size:" + " " + v == line;
    OtherPrefix(line, "  - url:", 2);
    OtherPrefix(line, "    sha512:", 5);
  }

  lemma FilesLine(s: ParseState, n: nat)
    ensures ParseLine(s, "files:", n) == Ok(s.(inFiles := true))
  {
    hide TrimEnd, After, ParseTopLevel;
    TrimEndAfter([], "files:");
    assert [] + "files:" == "files:";
    OtherPrefix("files:", "  - url:", 0);
    OtherPrefix("files:", "    sha512:", 0);
    OtherPrefix("files:", "    size:", 0);
  }

  lemma KeyHasNoColon(key: string, v: string)
    requires IsKey(key)
    ensures IndexOf(key + ": " + v, ':') == |key|
  {
    var line := key + ": " + v;
    assert line[|key|] == ':';
    forall j | 0 <= j < |key| ensures line[j] != ':' {
      assert line[j] == key[j] && IsKeyCharacter(key[j]);
    }
  }

  lemma TopMatch(key: string, v: string)
    requires IsKey(key) && Trimmed(v) && OneLine(v)
    ensures TopLevelMatch(key + ": " + v) == Some((key, v))
  {
    hide IsKey, OneLine, TrimStart;
    var line := key + ": " + v;
    KeyHasNoColon(key, v);
    assert line[..|key|] == key && line[|key| + 1..] == " " + v;
    TrimStartSpace(v);
  }

  lemma TopLine(s: ParseState, key: string, v: string, n: nat)
    requires IsKey(key) && Trimmed(v) && OneLine(v)
    ensures ParseLine(s, key + ": " + v, n) == ParseTopLevel(s, key + ": " + v, n)
    ensures TopLevelMatch(key + ": " + v) == Some((key, v))
  {
    hide TrimEnd, After, ParseTopLevel, TopLevelMatch;
    var line := key + ": " + v;
    TopMatch(key, v);
    AfterPrefix(key + ":", v);
    assert key + ":" + " " + v == line;
    assert line[0] == key[0] && IsLetter(line[0]);
    OtherPrefix(line, "  - url:", 0);
    OtherPrefix(line, "    sha512:", 0);
    OtherPrefix(line, "    size:", 0);
    assert line != "files:" by { assert line[|key| + 1] == ' '; }
  }

  lemma {:induction false} ParseLinesAppend(s: ParseState, a: seq<string>, b: seq<string>, n: nat)
    ensures ParseLines(s, a + b, n) == match ParseLines(s, a, n)
      case Err(e) => Err(e)
      case Ok(t) => ParseLines(t, b, n + |a|)
    decreases |a|
  {
    hide ParseLine;
    if a == [] {
      assert a + b == b;
    } else {
      assert (a + b)[1..] == a[1..] + b;
      var next := ParseLine(s, a[0], n);
      if next.Ok? { ParseLinesAppend(next.value, a[1..], b, n + 1); }
    }
  }

  lemma ParseOneLine(s: ParseState, line: string, n: nat)
    ensures ParseLines(s, [line], n) == ParseLine(s, line, n)
  {
    hide ParseLine;
    assert [line][1..] == [];
    if ParseLine(s, line, n).Ok? { assert ParseLines(ParseLine(s, line, n).value, [], n + 1)
      == Ok(ParseLine(s, line, n).value); }
  }

  /** After the printed files the last one is still under construction. */
  function Pending(s: ParseState, files: seq<File>): ParseState {
    if files == [] then s
    else
      var f := files[|files| - 1];
      s.(files := files[..|files| - 1], currentFile := Some(PartialFile(f.url, Some(f.sha512), Some(f.size))))
  }

  lemma PendingFinishes(s: ParseState, files: seq<File>, n: nat)
    requires s.files == [] && s.currentFile == None
    ensures FinishFile(Pending(s, files), n) == Ok(s.(files := files))
  {
    if files != [] { assert files[..|files| - 1] + [files[|files| - 1]] == files; }
  }

  /** The state after the lines of one file. */
  function Opened(s: ParseState, f: File): ParseState {
    s.(currentFile := Some(PartialFile(f.url, Some(f.sha512), Some(f.size))), inFiles := true)
  }

  /** The printed lines of a file are read as another file, as that file, or not at all. */
  lemma OneFileReadsBack(s: ParseState, f: File, n: nat)
    requires OneLineFile(f) && SizeOk(f) && FinishFile(s, n).Ok?
    ensures match ReadFile(f)
      case Some(g) => ParseLines(s, FileLines(f), n) == Ok(Opened(FinishFile(s, n).value, g))
      case None => ParseLines(s, FileLines(f), n).Err?
  {
    hide ParseLine, FinishFile, IsCanonical, ReadAs, OneLine;
    var lines := FileLines(f);
    assert lines == [lines[0]] + ([lines[1]] + [lines[2]]);
    ParseLinesAppend(s, [lines[0]], [lines[1]] + [lines[2]], n);
    ParseOneLine(s, lines[0], n);
    UrlLine(s, f.url, n);
    if ReadAs(f.url).Some? {
      var url := ReadAs(f.url).value;
      var s1 := FinishFile(s, n).value.(currentFile := Some(PartialFile(url, None, None)), inFiles := true);
      ParseLinesAppend(s1, [lines[1]], [lines[2]], n + 1);
      ParseOneLine(s1, lines[1], n + 1);
      Sha512Line(s1, f.sha512, n + 1);
      if ReadAs(f.sha512).Some? {
        var s2 := s1.(currentFile := Some(PartialFile(url, Some(ReadAs(f.sha512).value), None)));
        SizeLine(s2, f.size, n + 2);
        ParseOneLine(s2, lines[2], n + 2);
      }
    }
  }

  /** One file entry comes back exactly when its url and its checksum read as themselves. */
  lemma FileReadsBackIff(s: ParseState, f: File, n: nat)
    requires OneLineFile(f) && SizeOk(f) && FinishFile(s, n).Ok?
    ensures ParseLines(s, FileLines(f), n) == Ok(Opened(FinishFile(s, n).value, f)) <==> PlainFile(f)
  {
    hide ParseLines, FinishFile, IsCanonical, ReadAs, OneLine, PlainText, FileLines;
    OneFileReadsBack(s, f, n);
    ReadsAsItselfIff(f.url);
    ReadsAsItselfIff(f.sha512);
  }

  lemma NoLines(s: ParseState, n: nat)
    ensures ParseLines(s, [], n) == Ok(s)
  {
  }

  lemma FilesSnoc(files: seq<File>)
    requires files != []
    ensures var before, last := files[..|files| - 1], files[|files| - 1];
      && AllFileLines(files) == AllFileLines(before) + FileLines(last)
      && ReadFiles(files) == (if ReadFiles(before).None? || ReadFile(last).None? then None
                              else Some(ReadFiles(before).value + [ReadFile(last).value]))
  {
    hide ReadFile, FileLines;
  }

  lemma NextFileReadsBack(s: ParseState, before: seq<File>, f: File, n: nat)
    requires s.files == [] && s.currentFile == None && s.inFiles && OneLineFile(f) && SizeOk(f)
    ensures match ReadFile(f)
      case Some(g) => ParseLines(Pending(s, before), FileLines(f), n) == Ok(Pending(s, before + [g]))
      case None => ParseLines(Pending(s, before), FileLines(f), n).Err?
  {
    hide OneLineFile, SizeOk, FinishFile, FileLines, ParseLines, ReadFile;
    PendingFinishes(s, before, n);
    OneFileReadsBack(Pending(s, before), f, n);
    if ReadFile(f).Some? { assert (before + [ReadFile(f).value])[..|before|] == before; }
  }

  lemma {:induction false} FilesReadBack(s: ParseState, files: seq<File>, n: nat)
    requires s.files == [] && s.currentFile == None && s.inFiles
    requires forall i :: 0 <= i < |files| ==> OneLineFile(files[i]) && SizeOk(files[i])
    ensures match ReadFiles(files)
      case Some(read) => ParseLines(s, AllFileLines(files), n) == Ok(Pending(s, read))
      case None => ParseLines(s, AllFileLines(files), n).Err?
  {
    hide OneLineFile, SizeOk, ReadFile, FinishFile, FileLines, ParseLine, ParseLines;
    if files == [] {
      NoLines(s, n);
    } else {
      var k := |files| - 1;
      hide AllFileLines, ReadFiles;
      FilesReadBack(s, files[..k], n);
      FilesSnoc(files);
      ParseLinesAppend(s, AllFileLines(files[..k]), FileLines(files[k]), n);
      if ReadFiles(files[..k]).Some? {
        NextFileReadsBack(s, ReadFiles(files[..k]).value, files[k], n + |AllFileLines(files[..k])|);
      }
    }
  }

  lemma {:induction false} PutAppends(m: Extras, key: string, value: Scalar)
    requires forall i :: 0 <= i < |m| ==> m[i].key != key
    ensures Put(m, key, value) == m + [Extra(key, value)]
  {
    if m != [] { PutAppends(m[1..], key, value); }
  }

  /** The state once the file under construction is finished. */
  function Flushed(s: ParseState, files: seq<File>): ParseState {
    s.(files := files, currentFile := None, inFiles := false)
  }

  /** A top-level line is read from a state in which at most the finished files are pending. */
  ghost predicate BeforeTopLine(s: ParseState, files: seq<File>) {
    s == Flushed(s, files) || (s.inFiles && FinishFile(s, 0) == Ok(s.(files := files, currentFile := None)))
  }

  lemma FinishIgnoresLine(s: ParseState, m: nat, n: nat)
    requires FinishFile(s, m).Ok?
    ensures FinishFile(s, n) == FinishFile(s, m)
  {
  }

  lemma TopStep(s: ParseState, files: seq<File>, key: string, v: string, n: nat)
    requires BeforeTopLine(s, files) && IsKey(key) && Trimmed(v) && OneLine(v)
    requires key != "path" && key != "sha512"
    ensures key == "version" && ParseScalarValue(v).Str? ==>
      ParseLine(s, key + ": " + v, n) == Ok(Flushed(s, files).(version := Some(ParseScalarValue(v).text)))
    ensures key == "version" && !ParseScalarValue(v).Str? ==>
      ParseLine(s, key + ": " + v, n) == Err(VersionNotString(n))
    ensures key == "releaseDate" && !ParseScalarValue(v).Str? ==>
      ParseLine(s, key + ": " + v, n) == Err(ReleaseDateNotString(n))
    ensures key == "releaseDate" && ParseScalarValue(v).Str? ==>
      ParseLine(s, key + ": " + v, n) == Ok(Flushed(s, files).(releaseDate := Some(ParseScalarValue(v).text)))
    ensures key != "releaseDate" && key != "version" ==>
      ParseLine(s, key + ": " + v, n) == Ok(Flushed(s, files).(extras := Put(s.extras, key, ParseScalarValue(v))))
  {
    hide ParseLine, TopLevelMatch, ParseScalarValue, IsKey, Trimmed, OneLine, Put;
    TopLine(s, key, v, n);
    if s.inFiles { FinishIgnoresLine(s, 0, n); }
  }

  lemma {:induction false} ExtrasReadBack(s: ParseState, files: seq<File>, extras: Extras, n: nat)
    requires BeforeTopLine(s, files) && s.extras == [] && UniqueKeys(extras)
    requires forall i :: 0 <= i < |extras| ==> PlainExtra(extras[i])
    ensures ParseLines(s, ExtraLines(extras), n) == Ok(if extras == [] then s else Flushed(s, files).(extras := extras))
  {
    hide PlainScalar, ParseLine, ParseScalarValue, SerializeScalarValue;
    if extras != [] {
      var k := |extras| - 1;
      var Extra(key, value) := extras[k];
      ExtrasReadBack(s, files, extras[..k], n);
      ParseLinesAppend(s, ExtraLines(extras[..k]), [ExtraLine(extras[k])], n);
      var t, m := if k == 0 then s else Flushed(s, files).(extras := extras[..k]), n + |ExtraLines(extras[..k])|;
      ParseOneLine(t, ExtraLine(extras[k]), m);
      assert PlainExtra(extras[k]);
      ScalarReadsBack(value);
      TopStep(t, files, key, SerializeScalarValue(value), m);
      PutAppends(extras[..k], key, value);
      assert extras[..k] + [extras[k]] == extras;
    }
  }

  lemma SortedEntries(extras: Extras)
    requires UniqueKeys(extras)
    ensures UniqueKeys(SortBy(extras, KeyLeq))
    ensures forall e :: e in SortBy(extras, KeyLeq) <==> e in extras
  {
    var r := SortBy(extras, KeyLeq);
    SortByMembers(extras, KeyLeq);
    SortByDistinct(extras, KeyLeq);
    forall i, j | 0 <= i < j < |r| ensures r[i].key != r[j].key {
      assert r[i] in r && r[j] in r && r[i] != r[j];
    }
  }

  lemma SortedExtrasPlain(m: Manifest)
    requires Printable(m)
    ensures UniqueKeys(SortedExtras(m)) && forall i :: 0 <= i < |SortedExtras(m)| ==> PlainExtra(SortedExtras(m)[i])
  {
    hide PlainExtra, SizeOk, SortBy;
    SortedEntries(m.extras);
    forall i | 0 <= i < |SortedExtras(m)| ensures PlainExtra(SortedExtras(m)[i]) {
      assert SortedExtras(m)[i] in SortedExtras(m);
    }
  }

  ghost predicate OneLineFiles(m: Manifest) {
    forall i :: 0 <= i < |m.files| ==> OneLineFile(m.files[i])
  }

  /** What reading the lines gives when the version reads as `w`: an error unless every url and checksum is read. */
  ghost predicate LinesReadAs(m: Manifest, w: string, r: Result<ParseState>) {
    match ReadFiles(m.files)
    case None => r.Err?
    case Some(files) => r == Ok(ParseState(files, SortedExtras(m), Some(w), Some(m.releaseDate), false, None))
  }

  /**
   Reading the printed lines one by one gives the manifest back, with its extras sorted by key, its version if
   that reads as a string, and the urls and checksums as they read.
   */
  lemma LinesReadBack(m: Manifest)
    requires Printable(m) && OneLineFiles(m)
    ensures match ParseScalarValue(m.version)
      case Str(w) => LinesReadAs(m, w, ParseLines(START, ManifestLines(m), 1))
      case _ => ParseLines(START, ManifestLines(m), 1) == Err(VersionNotString(1))
  {
    hide ParseLine, PlainExtra, ParseScalarValue, UniqueKeys, ExtraLines, AllFileLines, SortedExtras, QuoteYamlString;
    hide SizeOk, OneLineFile, ReadFiles, Trimmed, OneLine;
    var top, files := ["version: " + m.version, "files:"], AllFileLines(m.files);
    var extras := ExtraLines(SortedExtras(m));
    var last := ["releaseDate: " + QuoteYamlString(m.releaseDate), ""];
    HeadReadsBack(m);
    ParseLinesAppend(START, top, files, 1);
    ParseLinesAppend(START, top + files, extras, 1);
    ParseLinesAppend(START, top + files + extras, last, 1);
    if ParseScalarValue(m.version).Str? {
      var s := START.(version := Some(ParseScalarValue(m.version).text), inFiles := true);
      var nf := 1 + |top|;
      FilesReadBack(s, m.files, nf);
      if ReadFiles(m.files).Some? {
        var read := ReadFiles(m.files).value;
        var t := Pending(s, read);
        PendingFinishes(s, read, 0);
        SortedExtrasPlain(m);
        ExtrasReadBack(t, read, SortedExtras(m), nf + |files|);
        var u := if SortedExtras(m) == [] then t else Flushed(t, read).(extras := SortedExtras(m));
        LastReadsBack(u, m, read, nf + |files| + |extras|);
      }
    }
  }

  lemma HeadReadsBack(m: Manifest)
    requires Printable(m)
    ensures ParseLines(START, ["version: " + m.version, "files:"], 1) == match ParseScalarValue(m.version)
      case Str(w) => Ok(START.(version := Some(w), inFiles := true))
      case _ => Err(VersionNotString(1))
  {
    hide ParseLine, PlainExtra, ParseScalarValue, UniqueKeys, TopLevelMatch, Trimmed, OneLine, SizeOk;
    var v, top := "version", ["version: " + m.version];
    assert "version: " + m.version == v + ": " + m.version;
    VersionIsKey();
    TopLine(START, v, m.version, 1);
    assert top + ["files:"] == ["version: " + m.version, "files:"];
    ParseLinesAppend(START, top, ["files:"], 1);
    ParseOneLine(START, "version: " + m.version, 1);
    if ParseScalarValue(m.version).Str? {
      var s := START.(version := Some(ParseScalarValue(m.version).text));
      FilesLine(s, 2);
      ParseOneLine(s, "files:", 2);
    }
  }

  lemma LastReadsBack(u: ParseState, m: Manifest, files: seq<File>, n: nat)
    requires Printable(m) && BeforeTopLine(u, files)
    ensures ParseLines(u, ["releaseDate: " + QuoteYamlString(m.releaseDate), ""], n)
         == Ok(Flushed(u, files).(releaseDate := Some(m.releaseDate)))
  {
    hide ParseLine, SizeOk, PlainExtra, ParseScalarValue, UniqueKeys, QuoteYamlString, Trimmed, OneLine;
    var key, v := "releaseDate", QuoteYamlString(m.releaseDate);
    assert "releaseDate: " + v == key + ": " + v;
    QuotedReadsBack(m.releaseDate);
    TopStep(u, files, key, v, n);
    var t := Flushed(u, files).(releaseDate := Some(m.releaseDate));
    EmptyLine(t, n + 1);
    assert ["releaseDate: " + v, ""] == ["releaseDate: " + v] + [""];
    ParseLinesAppend(u, ["releaseDate: " + v], [""], n);
    ParseOneLine(u, "releaseDate: " + v, n);
    ParseOneLine(t, "", n + 1);
  }

  lemma EmptyLine(s: ParseState, n: nat)
    ensures ParseLine(s, "", n) == Ok(s)
  {
  }

  lemma PrintedLinesAreOneLine(m: Manifest)
    requires Printable(m) && OneLineFiles(m)
    ensures forall line :: line in ManifestLines(m) ==> OneLine(line)
  {
    hide Printable, OneLineFiles, ExtraLines, AllFileLines, SortedExtras, QuoteYamlString, OneLine;
    FileLinesOneLine(m);
    SortedExtrasPlain(m);
    ExtraLinesOneLine(SortedExtras(m));
    EndsOneLine(m);
  }

  lemma OneLineConcat(a: string, b: string)
    requires OneLine(a) && OneLine(b)
    ensures OneLine(a + b)
  {
    hide IsLineTerminator;
  }

  lemma EndsOneLine(m: Manifest)
    requires Printable(m)
    ensures OneLine("version: " + m.version) && OneLine("files:") && OneLine("")
    ensures OneLine("releaseDate: " + QuoteYamlString(m.releaseDate))
  {
    assert OneLine("version: ") && OneLine("files:") && OneLine("") && OneLine("releaseDate: ");
    PlainParts(m);
    QuotedReadsBack(m.releaseDate);
    hide Printable, QuoteYamlString, Trimmed, OneLine;
    OneLineConcat("version: ", m.version);
    OneLineConcat("releaseDate: ", QuoteYamlString(m.releaseDate));
  }

  lemma PlainParts(m: Manifest)
    requires Printable(m)
    ensures OneLine(m.version) && OneLine(m.releaseDate)
  {
  }

  lemma FileLinesOneLine(m: Manifest)
    requires Printable(m) && OneLineFiles(m)
    ensures forall line :: line in AllFileLines(m.files) ==> OneLine(line)
  {
    FilesOneLine(m.files);
  }

  lemma {:induction false} FilesOneLine(files: seq<File>)
    requires forall i :: 0 <= i < |files| ==> OneLineFile(files[i]) && SizeOk(files[i])
    ensures forall line :: line in AllFileLines(files) ==> OneLine(line)
  {
    hide IsCanonical;
    if files != [] {
      var f := files[|files| - 1];
      FilesOneLine(files[..|files| - 1]);
      assert OneLine(f.size) by { assert forall i :: 0 <= i < |f.size| ==> IsDigit(f.size[i]); }
      assert OneLine("  - url: " + f.url) && OneLine("    sha512: " + f.sha512) && OneLine("    size: " + f.size);
    }
  }

  lemma {:induction false} ExtraLinesOneLine(extras: Extras)
    requires forall i :: 0 <= i < |extras| ==> PlainExtra(extras[i])
    ensures forall line :: line in ExtraLines(extras) ==> OneLine(line)
  {
    hide SerializeScalarValue, ParseScalarValue, PlainScalar, Trimmed;
    if extras != [] {
      var e := extras[|extras| - 1];
      ExtraLinesOneLine(extras[..|extras| - 1]);
      ScalarReadsBack(e.value);
      assert OneLine(ExtraLine(e)) by { assert forall i :: 0 <= i < |e.key| ==> IsKeyCharacter(e.key[i]); }
    }
  }

  /* Whatever is parsed has its urls and checksums on one line */

  ghost predicate OneLineState(s: ParseState) {
    && (forall i :: 0 <= i < |s.files| ==> OneLineFile(s.files[i]))
    && (s.currentFile.Some? ==> OneLine(s.currentFile.value.url))
    && (s.currentFile.Some? && s.currentFile.value.sha512.Some? ==> OneLine(s.currentFile.value.sha512.value))
  }

  lemma {:induction false} UnescapeOneLine(s: string)
    requires OneLine(s)
    ensures OneLine(Unescape(s))
    decreases |s|
  {
    hide IsLineTerminator;
    if |s| >= 2 && s[0] == '\'' && s[1] == '\'' {
      assert forall i :: 0 <= i < |s[2..]| ==> s[2..][i] == s[i + 2];
      UnescapeOneLine(s[2..]);
      assert !IsLineTerminator(s[0]);
    } else if s != [] {
      assert forall i :: 0 <= i < |s[1..]| ==> s[1..][i] == s[i + 1];
      UnescapeOneLine(s[1..]);
    }
  }

  lemma FieldOneLine(v: string)
    requires OneLine(v)
    ensures OneLine(StripSingleQuotes(Trim(v)))
  {
    hide IsLineTerminator, Trim, Unescape;
    TrimOneLine(v);
    var t := Trim(v);
    if Quoted(t) && |t| > 1 {
      var inner := t[1..|t| - 1];
      assert forall i :: 0 <= i < |inner| ==> inner[i] == t[i + 1];
      UnescapeOneLine(inner);
    }
  }

  lemma FinishIsOneLine(s: ParseState, n: nat)
    requires OneLineState(s) && FinishFile(s, n).Ok?
    ensures OneLineState(FinishFile(s, n).value)
  {
  }

  lemma TopLevelIsOneLine(s: ParseState, line: string, n: nat)
    requires OneLineState(s) && ParseTopLevel(s, line, n).Ok?
    ensures OneLineState(ParseTopLevel(s, line, n).value)
  {
    hide FinishFile, TopLevelMatch, ParseScalarValue, OneLine, Put;
    if FinishFile(s, n).Ok? { FinishIsOneLine(s, n); }
  }

  lemma ParsedLineIsOneLine(s: ParseState, line: string, n: nat)
    requires OneLineState(s) && ParseLine(s, line, n).Ok?
    ensures OneLineState(ParseLine(s, line, n).value)
  {
    var t := TrimEnd(line);
    var url, sha512 := After(t, "  - url:"), After(t, "    sha512:");
    assert (url.Some? ==> OneLine(url.value)) && (sha512.Some? ==> OneLine(sha512.value));
    hide TrimEnd, After, FinishFile, ParseTopLevel, Trim, StripSingleQuotes, OneLine, Canonical;
    if url.Some? {
      FieldOneLine(url.value);
      if FinishFile(s, n).Ok? { FinishIsOneLine(s, n); }
    } else if sha512.Some? {
      FieldOneLine(sha512.value);
    } else if ParseTopLevel(s, t, n).Ok? {
      TopLevelIsOneLine(s, t, n);
    }
  }

  lemma {:induction false} ParsedIsOneLine(s: ParseState, lines: seq<string>, n: nat)
    requires OneLineState(s) && ParseLines(s, lines, n).Ok?
    ensures OneLineState(ParseLines(s, lines, n).value)
    decreases |lines|
  {
    hide ParseLine, OneLineState;
    if lines != [] {
      ParsedLineIsOneLine(s, lines[0], n);
      ParsedIsOneLine(ParseLine(s, lines[0], n).value, lines[1..], n + 1);
    }
  }

  lemma ParsedFilesAreOneLine(raw: string)
    requires Parse(raw).Ok?
    ensures OneLineFiles(Parse(raw).value)
  {
    hide ParseLines, SplitLines, FinishFile, OneLineFile;
    var lines := SplitLines(raw);
    assert OneLineState(START);
    ParsedIsOneLine(START, lines, 1);
    FinishIsOneLine(ParseLines(START, lines, 1).value, |lines|);
  }

  lemma OneLineReadsBack(m: Manifest)
    requires Printable(m) && OneLineFiles(m)
    ensures Parse(JoinLines(ManifestLines(m))) == Ok(m.(extras := SortedExtras(m))) <==>
      ParseScalarValue(m.version) == Str(m.version) && forall i :: 0 <= i < |m.files| ==> PlainFile(m.files[i])
    ensures !ParseScalarValue(m.version).Str? ==> Parse(JoinLines(ManifestLines(m))) == Err(VersionNotString(1))
  {
    hide Parse, ManifestLines, SortedExtras, ParseScalarValue, ParseLines, ReadFiles, PlainFile, OneLineFile, Printable;
    NonemptyParts(m);
    ParsePrinted(m);
    LinesReadBack(m);
    FilesReadAsThemselvesIff(m.files);
  }

  /**
   Parsing what was printed recovers the manifest, with its extras in the printed, sorted order, exactly when
   what is printed without quotes reads as itself: the version as a string, which a number or a boolean does not,
   and every url and checksum, which white space at the ends, quotes around it or a line break prevent.
   */
  lemma ParseAfterSerialize(m: Manifest)
    requires Printable(m)
    ensures Parse(JoinLines(ManifestLines(m))) == Ok(m.(extras := SortedExtras(m))) <==>
      ParseScalarValue(m.version) == Str(m.version) && forall i :: 0 <= i < |m.files| ==> PlainFile(m.files[i])
    ensures OneLineFiles(m) && !ParseScalarValue(m.version).Str? ==>
      Parse(JoinLines(ManifestLines(m))) == Err(VersionNotString(1))
  {
    var raw := JoinLines(ManifestLines(m));
    hide Parse, ManifestLines, SortedExtras, ParseScalarValue, Printable;
    if OneLineFiles(m) {
      OneLineReadsBack(m);
    } else {
      if Parse(raw).Ok? { ParsedFilesAreOneLine(raw); }
    }
  }

  lemma NonemptyParts(m: Manifest)
    requires Printable(m)
    ensures m.version != [] && m.releaseDate != [] && m.files != []
  {
  }

  /** No line of the printed text is split or joined. */
  lemma ParsePrinted(m: Manifest)
    requires Printable(m) && OneLineFiles(m)
    ensures Parse(JoinLines(ManifestLines(m))) == match ParseLines(START, ManifestLines(m), 1)
      case Err(e) => Err(e)
      case Ok(s) => FinishManifest(s, |ManifestLines(m)|)
  {
    PrintedLinesAreOneLine(m);
    var lines := ManifestLines(m);
    NonemptyLines(m);
    hide ManifestLines, ParseLines, OneLine, FinishManifest, Printable, OneLineFiles;
    forall i | 0 <= i < |lines| ensures '\n' !in lines[i] && DropReturn(lines[i]) == lines[i] {
      OneLineHasNoBreak(lines[i]);
    }
    SplitJoin(lines);
  }

  lemma NonemptyLines(m: Manifest)
    ensures ManifestLines(m) != []
  {
  }

  lemma OneLineHasNoBreak(s: string)
    requires OneLine(s)
    ensures '\n' !in s && DropReturn(s) == s
  {
  }

  /** The sorted order of the extras is the same object: every key reads the same value. */
  lemma {:induction false} LookupIffEntry(m: Extras, key: string, value: Scalar)
    requires UniqueKeys(m)
    ensures Lookup(m, key) == Some(value) <==> Extra(key, value) in m
  {
    if m != [] {
      LookupIffEntry(m[1..], key, value);
      assert m == [m[0]] + m[1..];
    }
  }

  lemma SortedExtrasAreTheSame(m: Manifest, key: string)
    requires Printable(m)
    ensures Lookup(SortedExtras(m), key) == Lookup(m.extras, key)
  {
    hide SizeOk, PlainExtra, SortBy, ParseScalarValue;
    SortedExtrasPlain(m);
    SortByMembers(m.extras, KeyLeq);
    if Lookup(m.extras, key).Some? { LookupIffEntry(m.extras, key, Lookup(m.extras, key).value);
      LookupIffEntry(SortedExtras(m), key, Lookup(m.extras, key).value); }
    if Lookup(SortedExtras(m), key).Some? {
      LookupIffEntry(SortedExtras(m), key, Lookup(SortedExtras(m), key).value);
      LookupIffEntry(m.extras, key, Lookup(SortedExtras(m), key).value);
    }
  }

  /** Such a version exists. */
  lemma NumericVersionIsRefused(m: Manifest)
    requires Printable(m) && OneLineFiles(m) && m.version == "7"
    ensures Parse(JoinLines(ManifestLines(m))) == Err(VersionNotString(1))
  {
    hide ManifestLines, Parse, Printable, ParseScalarValue;
    SevenIsNumber();
    ParseAfterSerialize(m);
  }

  lemma SevenIsNumber()
    ensures ParseScalarValue("7").Num?
  {
    TrimmedIsFixed("7");
    DigitsAreLiteral("7");
  }

  lemma VersionIsKey()
    ensures IsKey("version")
  {
  }

  /* ---------- The keys that are skipped, and the extras ---------- */

  /** The same but for the flag that a file list is open, with no entry under construction. */
  ghost predicate SameButFlag(s: ParseState, t: ParseState) {
    s == t || (s.currentFile.None? && t == s.(inFiles := t.inFiles))
  }

  /** Both fail, or both go through to results that are the same but for that flag. */
  ghost predicate Alike(r: Result<ParseState>, q: Result<ParseState>) {
    if r.Ok? then q.Ok? && SameButFlag(r.value, q.value) else q.Err?
  }

  lemma TopLevelIgnoresFlag(s: ParseState, t: ParseState, line: string, n: nat, m: nat)
    requires SameButFlag(s, t)
    ensures Alike(ParseTopLevel(s, line, n), ParseTopLevel(t, line, m))
    ensures s == t.(inFiles := s.inFiles) && s.currentFile.None? && ParseTopLevel(s, line, n).Ok? ==>
      ParseTopLevel(s, line, n) == ParseTopLevel(t, line, m)
  {
    hide TopLevelMatch, ParseScalarValue, Put;
  }

  lemma NumberIsForErrors(s: ParseState, line: string, n: nat, m: nat)
    ensures Alike(ParseLine(s, line, n), ParseLine(s, line, m))
  {
    TopLevelIgnoresFlag(s, s, TrimEnd(line), n, m);
    assert Alike(FinishFile(s, n), FinishFile(s, m)) && (FinishFile(s, n).Ok? ==> FinishFile(s, n) == FinishFile(s, m));
    hide TrimEnd, After, ParseTopLevel, FinishFile, StripSingleQuotes, Trim, Canonical, AllDigits, IsNumberLiteral;
    var text := TrimEnd(line);
    if text != [] && After(text, "  - url:").None? {
      if After(text, "    sha512:").None? && After(text, "    size:").None? {
        if text != "files:" { assert ParseLine(s, line, n) == ParseTopLevel(s, text, n); }
      }
    }
  }

  lemma NoFileIgnoresFlag(s: ParseState, t: ParseState, line: string, n: nat, m: nat)
    requires s.currentFile.None? && t == s.(inFiles := t.inFiles)
    ensures Alike(ParseLine(s, line, n), ParseLine(t, line, m))
  {
    TopLevelIgnoresFlag(s, t, TrimEnd(line), n, m);
    assert FinishFile(s, n) == Ok(s) && FinishFile(t, m) == Ok(t);
    hide TrimEnd, After, ParseTopLevel, FinishFile, StripSingleQuotes, Trim, Canonical, AllDigits, IsNumberLiteral;
    var text := TrimEnd(line);
    if text != [] && After(text, "  - url:").None? {
      if After(text, "    sha512:").None? && After(text, "    size:").None? {
        if text != "files:" { assert ParseLine(s, line, n) == ParseTopLevel(s, text, n); }
      }
    }
  }

  lemma ParseLineIgnoresFlag(s: ParseState, t: ParseState, line: string, n: nat, m: nat)
    requires SameButFlag(s, t)
    ensures Alike(ParseLine(s, line, n), ParseLine(t, line, m))
  {
    hide ParseLine, Alike;
    if s == t { NumberIsForErrors(s, line, n, m); } else { NoFileIgnoresFlag(s, t, line, n, m); }
  }

  lemma {:induction false} ParseLinesIgnoreFlag(s: ParseState, t: ParseState, lines: seq<string>, n: nat, m: nat)
    requires SameButFlag(s, t)
    ensures Alike(ParseLines(s, lines, n), ParseLines(t, lines, m))
    decreases |lines|
  {
    hide ParseLine, SameButFlag;
    if lines != [] {
      ParseLineIgnoresFlag(s, t, lines[0], n, m);
      if ParseLine(s, lines[0], n).Ok? {
        ParseLinesIgnoreFlag(ParseLine(s, lines[0], n).value, ParseLine(t, lines[0], m).value, lines[1..], n + 1,
          m + 1);
      }
    }
  }

  /** A line that is read as a top-level line: no field of a file entry, not blank, not the head of the file list. */
  ghost predicate IsTopLevel(rawLine: string) {
    var line := TrimEnd(rawLine);
    && line != [] && line != "files:" && TopLevelMatch(line).Some?
    && After(line, "  - url:").None? && After(line, "    sha512:").None? && After(line, "    size:").None?
  }

  /**
   Where a top-level line may stand: no file entry is under construction, or one is and the next line is a
   top-level line or there is none.
   */
  ghost predicate AmongTopLevelLines(before: seq<string>, after: seq<string>) {
    var r := ParseLines(START, before, 1);
    r.Ok? && r.value.currentFile.Some? ==> r.value.inFiles && (after == [] || IsTopLevel(after[0]))
  }

  /** A skipped line finishes the entry under construction, as the next top-level line or the end would. */
  lemma SkippedLine(s: ParseState, key: string, v: string, n: nat)
    requires (key == "path" || key == "sha512") && Trimmed(v) && OneLine(v)
    requires s.currentFile.Some? ==> s.inFiles
    ensures var r := FinishFile(s, n);
      ParseLine(s, key + ": " + v, n) == if r.Ok? then Ok(r.value.(inFiles := false)) else r
  {
    assert IsKey("path") && IsKey("sha512");
    assert key != "version" && key != "releaseDate";
    hide ParseLine, TopLevelMatch, ParseScalarValue, IsKey, Trimmed, OneLine;
    TopLine(s, key, v, n);
  }

  lemma NextLineAfterSkipped(s: ParseState, t: ParseState, after: seq<string>, n: nat, m: nat)
    requires FinishFile(s, n).Ok? && t == FinishFile(s, n).value.(inFiles := false)
    requires s.currentFile.Some? ==> s.inFiles && after != [] && IsTopLevel(after[0])
    ensures Alike(ParseLines(s, after, n), ParseLines(t, after, m))
  {
    if s.currentFile.None? {
      ParseLinesIgnoreFlag(s, t, after, n, m);
    } else {
      TopLevelFlushes(s, t, after[0], n, m);
      hide ParseLine, IsTopLevel;
      if ParseLine(s, after[0], n).Ok? {
        ParseLinesIgnoreFlag(ParseLine(s, after[0], n).value, ParseLine(t, after[0], m).value, after[1..], n + 1,
          m + 1);
      }
    }
  }

  lemma TopLevelFlushes(s: ParseState, t: ParseState, line: string, n: nat, m: nat)
    requires FinishFile(s, n).Ok? && t == FinishFile(s, n).value.(inFiles := false) && s.inFiles && IsTopLevel(line)
    ensures Alike(ParseLine(s, line, n), ParseLine(t, line, m))
  {
    hide TrimEnd, After, TopLevelMatch, ParseScalarValue, Put;
  }

  lemma IncompleteStaysIncomplete(s: ParseState, after: seq<string>, n: nat)
    requires FinishFile(s, n).Err? && s.inFiles && (after == [] || IsTopLevel(after[0]))
    ensures var r := ParseLines(s, after, n); r.Ok? ==> after == [] && FinishFile(r.value, n).Err?
  {
    if after != [] {
      hide TrimEnd, After, TopLevelMatch, ParseScalarValue, Put;
      assert ParseLine(s, after[0], n).Err?;
    }
  }

  lemma SkippedLineIsHarmless(s: ParseState, after: seq<string>, key: string, v: string, n: nat, i: nat, j: nat)
    requires (key == "path" || key == "sha512") && Trimmed(v) && OneLine(v)
    requires s.currentFile.Some? ==> s.inFiles && (after == [] || IsTopLevel(after[0]))
    ensures SameManifest(ParseLines(s, after, n), ParseLines(s, [key + ": " + v] + after, n), i, j)
  {
    hide ParseLine, IsTopLevel, Trimmed, OneLine;
    var line := [key + ": " + v];
    assert (line + after)[1..] == after && (line + after)[0] == key + ": " + v;
    SkippedLine(s, key, v, n);
    if FinishFile(s, n).Err? {
      IncompleteStaysIncomplete(s, after, n);
    } else {
      var t := FinishFile(s, n).value.(inFiles := false);
      if after == [] {
        assert ParseLines(t, after, n + 1) == Ok(t) && ParseLines(s, after, n) == Ok(s);
      } else {
        NextLineAfterSkipped(s, t, after, n, n + 1);
      }
    }
  }

  /** What is left after two readings makes the same manifest, or none. */
  ghost predicate SameManifest(r: Result<ParseState>, q: Result<ParseState>, n: nat, m: nat) {
    if Finished(r, n).Ok? then Finished(q, m) == Finished(r, n) else Finished(q, m).Err?
  }

  function Finished(r: Result<ParseState>, n: nat): Result<Manifest> {
    match r
    case Err(e) => Err(e)
    case Ok(s) => FinishManifest(s, n)
  }

  /**
   Lines for the keys `path` and `sha512`, whatever they say, change nothing when they stand among the top-level
   lines of a text: it parses to the same manifest with and without them.
   */
  lemma SkippedKeysChangeNothing(raw: string, longer: string, before: seq<string>, after: seq<string>, key: string,
      v: string)
    requires (key == "path" || key == "sha512") && Trimmed(v) && OneLine(v) && AmongTopLevelLines(before, after)
    requires SplitLines(raw) == before + after && SplitLines(longer) == before + [key + ": " + v] + after
    ensures Parse(raw).Ok? <==> Parse(longer).Ok?
    ensures Parse(raw).Ok? ==> Parse(raw) == Parse(longer)
  {
    hide ParseLines, IsTopLevel, FinishManifest, SplitLines, Trimmed, OneLine;
    var line := [key + ": " + v];
    ParseLinesAppend(START, before, after, 1);
    Associative(before, line, after);
    ParseLinesAppend(START, before, line + after, 1);
    if ParseLines(START, before, 1).Ok? {
      var s, n := ParseLines(START, before, 1).value, 1 + |before|;
      SkippedLineIsHarmless(s, after, key, v, n, |SplitLines(raw)|, |SplitLines(longer)|);
    }
  }

  /* Every manifest that is parsed */

  ghost predicate GoodExtras(extras: Extras) {
    && UniqueKeys(extras)
    && forall i :: 0 <= i < |extras| ==>
      IsKey(extras[i].key) && extras[i].key !in {"version", "releaseDate", "path", "sha512"}
  }

  lemma {:induction false} PutKeepsKeys(m: Extras, key: string, value: Scalar)
    ensures forall e :: e in Put(m, key, value) ==> e == Extra(key, value) || e in m
    ensures UniqueKeys(m) ==> UniqueKeys(Put(m, key, value))
  {
    if m != [] {
      var rest := m[1..];
      PutKeepsKeys(rest, key, value);
      assert m == [m[0]] + rest;
      if UniqueKeys(m) && m[0].key != key {
        assert UniqueKeys(rest);
        forall i | 0 <= i < |Put(rest, key, value)| ensures Put(rest, key, value)[i].key != m[0].key {
          assert Put(rest, key, value)[i] in Put(rest, key, value);
        }
      }
    }
  }

  ghost predicate GoodState(s: ParseState) {
    && GoodExtras(s.extras) && (forall i :: 0 <= i < |s.files| ==> AllDigits(s.files[i].size))
    && (s.currentFile.Some? && s.currentFile.value.size.Some? ==> AllDigits(s.currentFile.value.size.value))
  }

  lemma {:induction false} StrippedDigits(v: string)
    requires AllDigits(v)
    ensures AllDigits(StripLeadingZeros(v))
  {
    if |v| > 1 && v[0] == '0' { StrippedDigits(v[1..]); }
  }

  lemma PutGoodExtra(extras: Extras, key: string, value: Scalar)
    requires GoodExtras(extras) && IsKey(key) && key !in {"version", "releaseDate", "path", "sha512"}
    ensures GoodExtras(Put(extras, key, value))
  {
    hide IsKey;
    PutKeepsKeys(extras, key, value);
    var r := Put(extras, key, value);
    forall i | 0 <= i < |r| ensures IsKey(r[i].key) && r[i].key !in {"version", "releaseDate", "path", "sha512"} {
      assert r[i] in r;
    }
  }

  lemma FinishKeepsGood(s: ParseState, n: nat)
    requires GoodState(s) && FinishFile(s, n).Ok?
    ensures GoodState(FinishFile(s, n).value)
  {
    hide GoodExtras;
  }

  lemma TopLevelKeepsGood(s: ParseState, line: string, n: nat)
    requires GoodState(s) && ParseTopLevel(s, line, n).Ok?
    ensures GoodState(ParseTopLevel(s, line, n).value)
  {
    if FinishFile(s, n).Ok? { FinishKeepsGood(s, n); }
    hide GoodExtras, FinishFile, ParseScalarValue, Put, IsKey, AllDigits;
    if TopLevelMatch(line).Some? {
      var (key, raw) := TopLevelMatch(line).value;
      if key !in {"version", "releaseDate", "path", "sha512"} { PutGoodExtra(s.extras, key, ParseScalarValue(raw)); }
    }
  }

  lemma LineKeepsGood(s: ParseState, line: string, n: nat)
    requires GoodState(s) && ParseLine(s, line, n).Ok?
    ensures GoodState(ParseLine(s, line, n).value)
  {
    var t := TrimEnd(line);
    var size := After(t, "    size:");
    hide TrimEnd, After, GoodExtras, FinishFile, ParseTopLevel, Trim, StripSingleQuotes, Canonical, AllDigits;
    if size.Some? && AllDigits(size.value) {
      DigitsAreLiteral(size.value);
      StrippedDigits(size.value);
    }
    if FinishFile(s, n).Ok? { FinishKeepsGood(s, n); }
    if ParseTopLevel(s, t, n).Ok? { TopLevelKeepsGood(s, t, n); }
  }

  lemma {:induction false} LinesKeepGood(s: ParseState, lines: seq<string>, n: nat)
    requires GoodState(s) && ParseLines(s, lines, n).Ok?
    ensures GoodState(ParseLines(s, lines, n).value)
    decreases |lines|
  {
    hide ParseLine, GoodState;
    if lines != [] {
      LineKeepsGood(s, lines[0], n);
      LinesKeepGood(ParseLine(s, lines[0], n).value, lines[1..], n + 1);
    }
  }

  /**
   Whatever the text, a manifest that parses has a version, a date and a file, sizes that are numbers, and extras
   with distinct plain names, none of them `version`, `releaseDate`, `path` or `sha512`.
   */
  lemma ParsedManifestIsGood(raw: string)
    requires Parse(raw).Ok?
    ensures var m := Parse(raw).value;
      && m.version != [] && m.releaseDate != [] && m.files != [] && GoodExtras(m.extras)
      && forall i :: 0 <= i < |m.files| ==> AllDigits(m.files[i].size)
  {
    assert GoodState(START);
    hide ParseLines, SplitLines, FinishFile, AllDigits, GoodExtras;
    var lines := SplitLines(raw);
    LinesKeepGood(START, lines, 1);
    FinishKeepsGood(ParseLines(START, lines, 1).value, |lines|);
  }

  /** Fields outside a file entry, an entry cut short, and any other line are refused, with the line's number. */
  lemma MisplacedLinesAreRefused(s: ParseState, rawLine: string, n: nat)
    requires rawLine != [] && TrimEnd(rawLine) == rawLine
    ensures var url, sha512, size := After(rawLine, "  - url:"), After(rawLine, "    sha512:"),
      After(rawLine, "    size:");
      var incomplete := s.currentFile.Some? && (s.currentFile.value.sha512.None? || s.currentFile.value.size.None?);
      && (url.Some? && incomplete ==> ParseLine(s, rawLine, n) == Err(IncompleteFileEntry(n)))
      && (url.None? && sha512.Some? && s.currentFile.None? ==> ParseLine(s, rawLine, n) == Err(Sha512WithoutFile(n)))
      && (url.None? && sha512.None? && size.Some? && AllDigits(size.value) && s.currentFile.None? ==>
            ParseLine(s, rawLine, n) == Err(SizeWithoutFile(n)))
      && var other := url.None? && sha512.None? && size.None? && rawLine != "files:";
      && (other && s.inFiles && incomplete ==> ParseLine(s, rawLine, n) == Err(IncompleteFileEntry(n)))
      && (other && !(s.inFiles && incomplete) && TopLevelMatch(rawLine).None? ==>
            ParseLine(s, rawLine, n) == Err(UnsupportedLine(n)))
  {
    hide TrimEnd, After, TopLevelMatch, ParseScalarValue, Put, StripSingleQuotes, Trim, Canonical, AllDigits;
  }
}
