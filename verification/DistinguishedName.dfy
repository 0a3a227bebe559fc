/** The parser of certificate subjects: attribute lists with quoting and escapes. */
module DistinguishedName {
  import opened Sorting
  import opened Strings
  import opened Wrappers

  /* ---------- The number reader behind escapes ---------- */

  predicate IsHexDigit(c: char) {
    '0' <= c <= '9' || 'a' <= c <= 'f' || 'A' <= c <= 'F'
  }

  function HexValue(c: char): (v: nat)
    requires IsHexDigit(c)
    ensures v < 16
  {
    if c <= '9' then c as nat - '0' as nat
    else if c <= 'F' then c as nat - 'A' as nat + 10
    else c as nat - 'a' as nat + 10
  }

  const HEX_DIGITS := "0123456789abcdef"

  lemma HexDigitIff(c: char)
    ensures IsHexDigit(c) <==> c in HEX_DIGITS || c in "ABCDEF"
  {
    assert forall d: nat :: d < 10 ==> HEX_DIGITS[d] as int == '0' as int + d;
    assert forall d: nat :: 10 <= d < 16 ==> HEX_DIGITS[d] as int == 'a' as int + d - 10;
    if '0' <= c <= '9' { assert HEX_DIGITS[c as int - '0' as int] == c; }
    if 'a' <= c <= 'f' { assert HEX_DIGITS[10 + (c as int - 'a' as int)] == c; }
    assert 'A' <= c <= 'F' <==> c in "ABCDEF";
  }

  /** A digit stands for its place among the sixteen, in either case. */
  lemma HexValueIs(c: char)
    requires IsHexDigit(c)
    ensures c == HEX_DIGITS[HexValue(c)] || ('A' <= c <= 'F' && c as int + 32 == HEX_DIGITS[HexValue(c)] as int)
  {
    assert forall d: nat :: d < 10 ==> HEX_DIGITS[d] as int == '0' as int + d;
  }

  /** The longest prefix of hexadecimal digits. */
  function HexPrefix(s: string): (p: string)
    ensures p <= s && forall i :: 0 <= i < |p| ==> IsHexDigit(p[i])
  {
    if s != [] && IsHexDigit(s[0]) then [s[0]] + HexPrefix(s[1..]) else []
  }

  function HexNumber(digits: string): nat
    requires forall i :: 0 <= i < |digits| ==> IsHexDigit(digits[i])
  {
    if digits == [] then 0 else HexNumber(digits[..|digits| - 1]) * 16 + HexValue(digits[|digits| - 1])
  }

  predicate IsNegative(s: string) {
    var body := TrimStart(s);
    body != [] && body[0] == '-'
  }

  function WithoutSign(s: string): (r: string)
    ensures |r| <= |s|
  {
    if s != [] && (s[0] == '-' || s[0] == '+') then s[1..] else s
  }

  function WithoutMark(s: string): (r: string)
    ensures |r| <= |s|
  {
    if |s| >= 2 && s[0] == '0' && (s[1] == 'x' || s[1] == 'X') then s[2..] else s
  }

  /** The digits after white space, a sign and a 0x prefix. */
  function HexDigits(s: string): (digits: string)
    ensures |digits| <= |s| && (IsNegative(s) ==> |digits| < |s|)
    ensures forall i :: 0 <= i < |digits| ==> IsHexDigit(digits[i])
  {
    HexPrefix(WithoutMark(WithoutSign(TrimStart(s))))
  }

  function ParseHex(s: string): Option<int> {
    var digits := HexDigits(s);
    if digits == [] then None
    else
      var magnitude: int := HexNumber(digits);
      Some(if IsNegative(s) then -magnitude else magnitude)
  }

  function FromCharCode(ord: int): char
    requires -0x10 < ord < 0x100
  {
    (ord % 0x1_0000) as char
  }

  lemma {:induction false} HexNumberFits(digits: string)
    requires |digits| <= 2 && forall i :: 0 <= i < |digits| ==> IsHexDigit(digits[i])
    ensures HexNumber(digits) < 0x100 && (|digits| <= 1 ==> HexNumber(digits) < 0x10)
  {
    hide IsHexDigit;
    if digits != [] {
      HexNumberFits(digits[..|digits| - 1]);
      assert HexNumber([]) == 0;
    }
  }

  lemma EscapeFitsAByte(s: string)
    requires |s| <= 2 && ParseHex(s).Some?
    ensures -0x10 < ParseHex(s).value < 0x100
  {
    hide HexDigits, IsNegative, HexNumber;
    HexNumberFits(HexDigits(s));
  }

  function Pair(s: string): string {
    if |s| <= 2 then s else s[..2]
  }

  /**
   When the character after a backslash stands for itself: it begins no number. A digit does begin
   one, except a 0 in front of an x; white space and a sign do when a digit follows.
   */
  predicate EscapeIsLiteral(c: char, following: string) {
    if IsHexDigit(c) then c == '0' && following != [] && (following[0] == 'x' || following[0] == 'X')
    else !((IsSpace(c) || c == '+' || c == '-') && following != [] && IsHexDigit(following[0]))
  }

  lemma HexPrefixDef(s: string)
    ensures HexPrefix(s) == if s != [] && IsHexDigit(s[0]) then [s[0]] + HexPrefix(s[1..]) else []
  {
    hide IsHexDigit;
  }

  lemma TrimStartDef(s: string)
    ensures TrimStart(s) == if s != [] && IsSpace(s[0]) then TrimStart(s[1..]) else s
  {
    hide IsSpace;
  }

  lemma DigitsAreNoSpaces(d: char)
    ensures IsHexDigit(d) ==> !IsSpace(d) && d != '+' && d != '-' && d != 'x' && d != 'X'
    ensures !IsSpace('+') && !IsSpace('-') && IsSpace(' ') && !IsHexDigit('+') && !IsHexDigit(' ')
  {
  }

  lemma DigitsOfOne(s: string)
    requires |s| == 1
    ensures HexPrefix(s) == (if IsHexDigit(s[0]) then s else s[1..]) && HexPrefix(s[1..]) == s[1..]
  {
    hide IsHexDigit, HexPrefix;
    HexPrefixDef(s);
    HexPrefixDef(s[1..]);
  }

  lemma TrimOne(s: string)
    requires |s| == 1
    ensures TrimStart(s) == (if IsSpace(s[0]) then s[1..] else s)
  {
    hide IsSpace, TrimStart;
    TrimStartDef(s);
    TrimStartDef(s[1..]);
  }

  lemma NumberInOne(s: string)
    requires |s| == 1
    ensures |HexDigits(s)| == 0 <==> EscapeIsLiteral(s[0], s[1..])
  {
    hide HexDigits, IsSpace, IsHexDigit, HexPrefix, TrimStart;
    DigitsAreNoSpaces(s[0]);
    DigitsOfOne(s);
    TrimOne(s);
    HexDigitsDef(s);
  }

  lemma HexDigitsDef(s: string)
    ensures HexDigits(s) == HexPrefix(WithoutMark(WithoutSign(TrimStart(s))))
  {
    hide HexPrefix, TrimStart;
  }

  lemma NumberInTwo(s: string)
    requires |s| == 2
    ensures |HexDigits(s)| == 0 <==> EscapeIsLiteral(s[0], s[1..])
    ensures (s[0] == '+' || s[0] == ' ') && IsHexDigit(s[1]) ==> HexDigits(s) == s[1..] && !IsNegative(s)
    ensures s[0] == '-' && IsHexDigit(s[1]) ==> HexDigits(s) == s[1..] && IsNegative(s)
    ensures IsHexDigit(s[0]) && !IsHexDigit(s[1]) && s[1] !in "xX" ==> HexDigits(s) == s[..1] && !IsNegative(s)
  {
    hide HexDigits, IsSpace, IsHexDigit, HexPrefix, TrimStart;
    var rest := s[1..];
    DigitsAreNoSpaces(s[0]);
    DigitsAreNoSpaces(s[1]);
    DigitsOfOne(rest);
    TrimOne(rest);
    TrimStartDef(s);
    HexPrefixDef(s);
    HexPrefixDef(s[2..]);
    HexDigitsDef(s);
    assert rest[1..] == s[2..];
  }

  lemma NoNumberIff(c: char, following: string)
    ensures ParseHex(Pair([c] + following)).None? <==> EscapeIsLiteral(c, following)
  {
    hide HexDigits, IsHexDigit, IsSpace, IsNegative;
    var s := Pair([c] + following);
    if following == [] {
      NumberInOne(s);
    } else {
      assert s == [c, following[0]] && s[1..] == [following[0]];
      NumberInTwo(s);
    }
  }

  /* ---------- The parser as a run over the remaining text ---------- */

  datatype State = State(quoted: bool, key: Option<string>, token: string, result: map<string, string>)

  const START := State(false, None, "", map[])

  function Stored(st: State): map<string, string> {
    if st.key.Some? then st.result[st.key.value := st.token] else st.result
  }

  function DropSpaces(s: string): (r: string)
    ensures |r| <= |s|
  {
    if s != [] && s[0] == ' ' then DropSpaces(s[1..]) else s
  }

  /** Spaces before this text do not belong to the token. */
  predicate EndsToken(inName: bool, after: string) {
    after == [] || after[0] in ",;" || after[0] == if inName then '=' else '+'
  }

  /** One move: the new state with the text that is left, or the end of the text inside an escape. */
  datatype Move = Go(st: State, rest: string) | EndInEscape

  function Next(st: State, s: string): (m: Move)
    requires s != []
    ensures m.Go? ==> |m.rest| < |s|
  {
    hide ParseHex;
    var ch, rest := s[0], s[1..];
    if st.quoted then Go(if ch == '"' then st.(quoted := false) else st.(token := st.token + [ch]), rest)
    else if ch == '"' then Go(st.(quoted := true), rest)
    else if ch == '\\' then
      match ParseHex(Pair(rest)) {
        case None => if rest == [] then EndInEscape else Go(st.(token := st.token + [rest[0]]), rest[1..])
        case Some(ord) =>
          EscapeFitsAByte(Pair(rest));
          if |rest| < 2 then EndInEscape else Go(st.(token := st.token + [FromCharCode(ord)]), rest[2..])
      }
    else if st.key.None? && ch == '=' then Go(st.(key := Some(st.token), token := ""), rest)
    else if ch in ",;+" then Go(State(false, None, "", Stored(st)), rest)
    else if ch == ' ' && st.token == [] then Go(st, rest)
    else if ch == ' ' && EndsToken(st.key.None?, DropSpaces(rest)) then Go(st, DropSpaces(rest))
    else Go(st.(token := st.token + [ch]), rest)
  }

  function Run(st: State, s: string): map<string, string>
    decreases |s|
  {
    hide Next;
    if s == [] then Stored(st)
    else
      match Next(st, s)
      case Go(next, rest) => Run(next, rest)
      case EndInEscape => st.result
  }

  /* ---------- The parser ---------- */

  /** The run from an index; an index past the end has skipped the final store. */
  ghost function RunAt(st: State, text: string, i: nat): map<string, string> {
    if i <= |text| then Run(st, text[i..]) else st.result
  }

  lemma StepQuotes(st: State, text: string, i: nat)
    requires i < |text| && (st.quoted || text[i] == '"')
    ensures RunAt(st, text, i)
      == RunAt(if text[i] == '"' then st.(quoted := !st.quoted) else st.(token := st.token + [text[i]]), text, i + 1)
  {
    hide ParseHex;
    assert text[i..][1..] == text[i + 1..];
  }

  lemma StepEscape(st: State, text: string, i: nat)
    requires i < |text| && !st.quoted && text[i] == '\\'
    ensures ParseHex(Pair(text[i + 1..])).Some? ==> -0x10 < ParseHex(Pair(text[i + 1..])).value < 0x100
    ensures RunAt(st, text, i) == match ParseHex(Pair(text[i + 1..]))
      case None => RunAt(st.(token := st.token + if i + 1 < |text| then [text[i + 1]] else []), text, i + 2)
      case Some(ord) => RunAt(st.(token := st.token + [FromCharCode(ord)]), text, i + 3)
  {
    hide ParseHex;
    var rest := text[i + 1..];
    assert text[i..][1..] == rest;
    if ParseHex(Pair(rest)).Some? { EscapeFitsAByte(Pair(rest)); }
    if |rest| >= 1 { assert rest[1..] == text[i + 2..]; }
    if |rest| >= 2 { assert rest[2..] == text[i + 3..]; }
  }

  lemma StepPlain(st: State, text: string, i: nat)
    requires i < |text| && !st.quoted && text[i] !in "\"\\ "
    ensures RunAt(st, text, i) == RunAt(
      if st.key.None? && text[i] == '=' then st.(key := Some(st.token), token := "")
      else if text[i] in ",;+" then State(false, None, "", Stored(st))
      else st.(token := st.token + [text[i]]), text, i + 1)
  {
    hide ParseHex;
    assert text[i..][1..] == text[i + 1..];
  }

  lemma StepSpace(st: State, text: string, i: nat, j: nat)
    requires i < j <= |text| && !st.quoted && (j < |text| ==> text[j] != ' ') && forall k :: i <= k < j ==>
      text[k] == ' '
    ensures RunAt(st, text, i) ==
      if st.token == [] then RunAt(st, text, i + 1)
      else if EndsToken(st.key.None?, text[j..]) then RunAt(st, text, j)
      else RunAt(st.(token := st.token + " "), text, i + 1)
  {
    hide ParseHex;
    assert text[i..][1..] == text[i + 1..];
    NextIsDropped(text, i, j);
  }

  lemma {:induction false} NextIsDropped(s: string, i: nat, j: nat)
    requires i < j <= |s| && (j < |s| ==> s[j] != ' ') && forall k :: i <= k < j ==> s[k] == ' '
    ensures DropSpaces(s[i + 1..]) == s[j..]
    decreases j - i
  {
    hide DropSpaces;
    DropSpacesStep(s[i + 1..]);
    if i + 1 < j {
      NextIsDropped(s, i + 1, j);
      assert s[i + 1..][1..] == s[i + 2..];
    }
  }

  method EndOfSpaces(trimmed: string, i: nat) returns (j: nat)
    requires i <= |trimmed|
    ensures i <= j <= |trimmed| && (j < |trimmed| ==> trimmed[j] != ' ')
    ensures forall k :: i <= k < j ==> trimmed[k] == ' '
  {
    j := i;
    while j < |trimmed| && trimmed[j] == ' '
      invariant i <= j <= |trimmed| && forall k :: i <= k < j ==> trimmed[k] == ' '
    {
      j := j + 1;
    }
  }

  lemma TrimHasNoLeadingSpace(s: string)
    ensures Trim(s) != [] ==> Trim(s)[0] != ' '
  {
    assert Trim(s) <= TrimStart(s);
    assert IsSpace(' ');
  }

  lemma RunEnds(st: State, text: string)
    ensures RunAt(st, text, |text|) == Stored(st)
    ensures RunAt(st, text, 0) == Run(st, text)
  {
    hide ParseHex;
    assert text[0..] == text;
  }

  /** The loop that moves its own index: the remembered end of the last run of spaces is only a shortcut. */
  method ParseDistinguishedName(subject: string) returns (result: map<string, string>)
    ensures result == Run(START, Trim(subject))
  {
    hide ParseHex, Trim, IsSpace, Run, RunAt, Pair, EndsToken, FromCharCode;
    var quoted := false;
    var key: Option<string> := None;
    var token := "";
    var nextNonSpace := 0;
    result := map[];
    var trimmed := Trim(subject);
    TrimHasNoLeadingSpace(subject);
    RunEnds(START, trimmed);
    var i := 0;
    while i <= |trimmed|
      invariant 0 <= i && nextNonSpace <= |trimmed|
      invariant nextNonSpace < |trimmed| ==> trimmed[nextNonSpace] != ' '
      invariant forall k :: i <= k < nextNonSpace ==> trimmed[k] == ' '
      invariant RunAt(State(quoted, key, token, result), trimmed, i) == Run(START, trimmed)
      decreases |trimmed| + 1 - i
    {
      ghost var st := State(quoted, key, token, result);
      if i == |trimmed| {
        RunEnds(st, trimmed);
        if key.Some? {
          result := result[key.value := token];
        }
        return;
      }
      var ch := trimmed[i];
      if quoted {
        StepQuotes(st, trimmed, i);
        if ch == '"' {
          quoted := false;
          i := i + 1;
          continue;
        }
      } else {
        if ch == '"' {
          StepQuotes(st, trimmed, i);
          quoted := true;
          i := i + 1;
          continue;
        }
        if ch == '\\' {
          StepEscape(st, trimmed, i);
          i := i + 1;
          var ord := ParseHex(Pair(trimmed[i..]));
          if ord.None? {
            token := token + if i < |trimmed| then [trimmed[i]] else [];
          } else {
            i := i + 1;
            token := token + [FromCharCode(ord.value)];
          }
          i := i + 1;
          continue;
        }
        if ch != ' ' {
          StepPlain(st, trimmed, i);
        }
        if key.None? && ch == '=' {
          key, token := Some(token), "";
          i := i + 1;
          continue;
        }
        if ch == ',' || ch == ';' || ch == '+' {
          if key.Some? {
            result := result[key.value := token];
          }
          key, token := None, "";
          i := i + 1;
          continue;
        }
      }
      if ch == ' ' && !quoted {
        if |token| == 0 {
          ghost var j := EndOfSpacesFrom(trimmed, i);
          StepSpace(st, trimmed, i, j);
          i := i + 1;
          continue;
        }
        if i > nextNonSpace {
          nextNonSpace := EndOfSpaces(trimmed, i);
        }
        StepSpace(st, trimmed, i, nextNonSpace);
        EndsTokenAt(key.None?, trimmed, nextNonSpace);
        if nextNonSpace >= |trimmed| || trimmed[nextNonSpace] == ',' || trimmed[nextNonSpace] == ';'
          || (key.None? && trimmed[nextNonSpace] == '=') || (key.Some? && trimmed[nextNonSpace] == '+')
        {
          i := nextNonSpace;
          continue;
        }
      }
      token := token + [ch];
      i := i + 1;
    }
    RunPastEnd(State(quoted, key, token, result), trimmed, i);
  }

  ghost function EndOfSpacesFrom(s: string, i: nat): (j: nat)
    requires i <= |s|
    ensures i <= j <= |s| && (j < |s| ==> s[j] != ' ') && forall k :: i <= k < j ==> s[k] == ' '
    decreases |s| - i
  {
    if i < |s| && s[i] == ' ' then EndOfSpacesFrom(s, i + 1) else i
  }

  lemma EndsTokenAt(inName: bool, text: string, j: nat)
    requires j <= |text|
    ensures EndsToken(inName, text[j..]) <==>
      j == |text| || text[j] in ",;" || (inName && text[j] == '=') || (!inName && text[j] == '+')
  {
  }

  lemma RunPastEnd(st: State, text: string, i: nat)
    requires i > |text|
    ensures RunAt(st, text, i) == st.result
  {
  }

  /* ---------- Printed attribute lists ---------- */

  type HexDigit = c: char | IsHexDigit(c) witness '0'

  /** One piece of a printed name or value. */
  datatype Piece = Plain(c: char) | Escaped(c: char) | HexPair(high: HexDigit, low: HexDigit) | Quoted(text: string)

  function PieceText(p: Piece): string {
    match p
    case Plain(c) => [c]
    case Escaped(c) => ['\\', c]
    case HexPair(high, low) => ['\\', high, low]
    case Quoted(text) => "\"" + text + "\""
  }

  /**
   A character that stands for itself outside quotes; a space does inside a name or value that has begun and goes
   on.
   */
  predicate PlainOk(c: char, inName: bool, begun: bool, following: string) {
    && c !in "\"\\,;+" && !(inName && c == '=')
    && (c == ' ' ==> begun && !EndsToken(inName, DropSpaces(following)))
  }

  /** Any character may be escaped where the parser takes it for itself. */
  predicate PieceOk(p: Piece, inName: bool, begun: bool, following: string) {
    match p
    case Plain(c) => PlainOk(c, inName, begun, following)
    case Escaped(c) => EscapeIsLiteral(c, following)
    case HexPair(_, _) => true
    case Quoted(text) => '"' !in text
  }

  function PieceMeaning(p: Piece): string {
    match p
    case Plain(c) => [c]
    case Escaped(c) => [c]
    case HexPair(high, low) => [(HexValue(high) * 16 + HexValue(low)) as char]
    case Quoted(text) => text
  }

  function PiecesText(ps: seq<Piece>): string {
    if ps == [] then "" else PieceText(ps[0]) + PiecesText(ps[1..])
  }

  predicate PiecesOk(ps: seq<Piece>, inName: bool, begun: bool) {
    ps == []
    || (PieceOk(ps[0], inName, begun, PiecesText(ps[1..]))
      && PiecesOk(ps[1..], inName, begun || PieceMeaning(ps[0]) != []))
  }

  function PiecesMeaning(ps: seq<Piece>): string {
    if ps == [] then "" else PieceMeaning(ps[0]) + PiecesMeaning(ps[1..])
  }

  function Spaces(n: nat): string {
    if n == 0 then "" else " " + Spaces(n - 1)
  }

  /** Any number of spaces may surround a name, the equals sign and a value. */
  datatype Attribute = Attribute(
    name: seq<Piece>, value: seq<Piece>, beforeName: nat, beforeEquals: nat, beforeValue: nat, afterValue: nat)

  /** A name with the spaces around it and the equals sign. */
  function HeadText(a: Attribute): string {
    Spaces(a.beforeName) + PiecesText(a.name) + Spaces(a.beforeEquals) + "="
  }

  function AttributeText(a: Attribute): string {
    HeadText(a) + Spaces(a.beforeValue) + PiecesText(a.value) + Spaces(a.afterValue)
  }

  datatype Listed = Listed(attribute: Attribute, separator: char)

  /** The attributes with their separators; the last one has none. */
  function ListText(list: seq<Listed>): string {
    if list == [] then ""
    else if |list| == 1 then AttributeText(list[0].attribute)
    else AttributeText(list[0].attribute) + [list[0].separator] + ListText(list[1..])
  }

  predicate AttributeOk(a: Attribute) {
    PiecesOk(a.name, true, false) && PiecesOk(a.value, false, false)
  }

  predicate ListOk(list: seq<Listed>) {
    forall i :: 0 <= i < |list| ==> AttributeOk(list[i].attribute) && list[i].separator in ",;+"
  }

  predicate VisibleAtEdge(p: Piece) {
    (p.Plain? || p.Escaped?) ==> !IsSpace(p.c)
  }

  /**
   Neither the first name begins nor the last value ends with bare or escaped white space other than
   what the parser would drop anyway: trimming the text would take it away.
   */
  predicate EdgesVisible(list: seq<Listed>) {
    list != [] ==> BeginsVisibly(list[0].attribute.name) && EndsVisibly(list[|list| - 1].attribute.value)
  }

  predicate BeginsVisibly(name: seq<Piece>) {
    name != [] && name[0].Plain? ==> VisibleAtEdge(name[0])
  }

  predicate EndsVisibly(value: seq<Piece>) {
    value != [] ==> VisibleAtEdge(value[|value| - 1])
  }

  /** A later attribute of the same name wins. */
  function Meaning(list: seq<Listed>, before: map<string, string>): map<string, string> {
    if list == [] then before
    else
      var a := list[0].attribute;
      Meaning(list[1..], before[PiecesMeaning(a.name) := PiecesMeaning(a.value)])
  }

  /* ---------- Reading printed lists back ---------- */

  lemma SpacesFirst(n: nat, s: string)
    requires n > 0
    ensures var t := Spaces(n) + s; t != [] && t[0] == ' ' && t[1..] == Spaces(n - 1) + s
  {
  }

  lemma NoSpaces(s: string)
    ensures Spaces(0) + s == s
  {
  }

  lemma DropSpacesStep(s: string)
    ensures DropSpaces(s) == if s != [] && s[0] == ' ' then DropSpaces(s[1..]) else s
  {
  }

  lemma {:induction false} DropSpacesAfter(n: nat, s: string)
    requires s == [] || s[0] != ' '
    ensures DropSpaces(Spaces(n) + s) == s
  {
    hide Spaces, DropSpaces;
    if n == 0 {
      NoSpaces(s);
      DropSpacesStep(s);
    } else {
      SpacesFirst(n, s);
      DropSpacesAfter(n - 1, s);
      DropSpacesStep(Spaces(n) + s);
    }
  }

  lemma RunSkipsOne(st: State, s: string)
    requires !st.quoted && st.token == [] && s != [] && s[0] == ' '
    ensures Run(st, s) == Run(st, s[1..])
  {
    hide ParseHex, EndsToken, Stored, FromCharCode, Pair, DropSpaces;
    assert Next(st, s) == Go(st, s[1..]);
    hide Next;
  }

  lemma {:induction false} RunSkipsSpaces(st: State, n: nat, s: string)
    requires !st.quoted && st.token == []
    ensures Run(st, Spaces(n) + s) == Run(st, s)
  {
    hide Spaces, Run;
    if n == 0 {
      NoSpaces(s);
    } else {
      SpacesFirst(n, s);
      RunSkipsSpaces(st, n - 1, s);
      RunSkipsOne(st, Spaces(n) + s);
    }
  }

  lemma RunAtSpace(st: State, s: string)
    requires !st.quoted && st.token != [] && s != [] && s[0] == ' '
    ensures var after := DropSpaces(s[1..]);
      Run(st, s) == if EndsToken(st.key.None?, after) then Run(st, after) else Run(st.(token := st.token + " "), s[1..])
  {
    hide ParseHex, EndsToken, Stored, FromCharCode, Pair, DropSpaces;
    var after := DropSpaces(s[1..]);
    var kept := st.(token := st.token + " ");
    assert Next(st, s) == if EndsToken(st.key.None?, after) then Go(st, after) else Go(kept, s[1..]);
    hide Next;
  }

  lemma RunSkipsTrailingSpaces(st: State, n: nat, s: string)
    requires !st.quoted && EndsToken(st.key.None?, s) && (s == [] || s[0] != ' ')
    ensures Run(st, Spaces(n) + s) == Run(st, s)
  {
    hide Run, EndsToken, Spaces, DropSpaces;
    if st.token == [] {
      RunSkipsSpaces(st, n, s);
    } else if n > 0 {
      SpacesFirst(n, s);
      DropSpacesAfter(n - 1, s);
      RunAtSpace(st, Spaces(n) + s);
    } else {
      NoSpaces(s);
    }
  }

  lemma {:induction false} RunQuoted(st: State, text: string, s: string)
    requires st.quoted && '"' !in text
    ensures Run(st, text + "\"" + s) == Run(st.(quoted := false, token := st.token + text), s)
    decreases |text|
  {
    hide ParseHex;
    if text == [] {
      assert (text + "\"" + s)[1..] == s && st.token + text == st.token;
    } else {
      assert (text + "\"" + s)[1..] == text[1..] + "\"" + s && st.token + [text[0]] + text[1..] == st.token + text;
      RunQuoted(st.(token := st.token + [text[0]]), text[1..], s);
    }
  }

  lemma HexPairRead(high: char, low: char)
    requires IsHexDigit(high) && IsHexDigit(low)
    ensures ParseHex([high, low]) == Some(HexValue(high) * 16 + HexValue(low))
  {
    var s := [high, low];
    assert !IsSpace(high) && high != '-' && high != '+' && low != 'x' && low != 'X';
    assert TrimStart(s) == s;
    assert HexDigits(s) == s by {
      assert s[1..] == [low] && [low][1..] == [];
      assert HexPrefix([low]) == [low];
    }
    hide HexDigits, HexPrefix, TrimStart;
    assert s[..1] == [high] && [high][..0] == [];
    assert HexNumber([high]) == HexValue(high);
  }

  lemma RunEscape(st: State, s: string)
    requires !st.quoted && s != []
    ensures match ParseHex(Pair(s))
      case None => Run(st, "\\" + s) == Run(st.(token := st.token + [s[0]]), s[1..])
      case Some(ord) => |s| >= 2 ==>
        -0x10 < ord < 0x100 && Run(st, "\\" + s) == Run(st.(token := st.token + [FromCharCode(ord)]), s[2..])
  {
    hide ParseHex;
    assert ("\\" + s)[1..] == s;
    if ParseHex(Pair(s)).Some? { EscapeFitsAByte(Pair(s)); }
  }

  lemma RunPlain(st: State, c: char, s: string)
    requires !st.quoted && PlainOk(c, st.key.None?, st.token != [], s)
    ensures Run(st, [c] + s) == Run(st.(token := st.token + [c]), s)
  {
    PlainReadsBackIff(st, c, s);
    hide Next, PlainOk;
  }

  /** A bare character, space included, reads back as itself exactly where it is allowed to stand. */
  lemma PlainReadsBackIff(st: State, c: char, s: string)
    requires !st.quoted
    ensures Next(st, [c] + s) == Go(st.(token := st.token + [c]), s) <==> PlainOk(c, st.key.None?, st.token != [], s)
  {
    hide ParseHex, Stored, EndsToken, DropSpaces, Pair, FromCharCode;
    assert ([c] + s)[1..] == s;
  }

  lemma RunEscaped(st: State, c: char, s: string)
    requires !st.quoted && EscapeIsLiteral(c, s)
    ensures Run(st, "\\" + ([c] + s)) == Run(st.(token := st.token + [c]), s)
  {
    hide ParseHex, Run, EscapeIsLiteral;
    NoNumberIff(c, s);
    RunEscape(st, [c] + s);
    assert ([c] + s)[1..] == s;
  }

  lemma RunHexPair(st: State, high: HexDigit, low: HexDigit, s: string)
    requires !st.quoted
    ensures Run(st, "\\" + ([high, low] + s)) == Run(st.(token := st.token + PieceMeaning(HexPair(high, low))), s)
  {
    hide ParseHex, Run, IsHexDigit;
    HexPairRead(high, low);
    var t := [high, low] + s;
    RunEscape(st, t);
    assert Pair(t) == [high, low] && t[2..] == s;
  }

  lemma RunPiece(st: State, p: Piece, s: string)
    requires !st.quoted && PieceOk(p, st.key.None?, st.token != [], s)
    ensures Run(st, PieceText(p) + s) == Run(st.(token := st.token + PieceMeaning(p)), s)
  {
    hide Run, IsHexDigit, IsSpace, PlainOk, EscapeIsLiteral;
    match p
    case Plain(c) => RunPlain(st, c, s);
    case Escaped(c) => RunEscaped(st, c, s); Associative("\\", [c], s); assert PieceText(p) == "\\" + [c];
    case HexPair(high, low) => RunPieceHexPair(st, high, low, s);
    case Quoted(text) => RunPieceQuoted(st, text, s);
  }

  lemma RunPieceHexPair(st: State, high: HexDigit, low: HexDigit, s: string)
    requires !st.quoted
    ensures var p := HexPair(high, low); Run(st, PieceText(p) + s) == Run(st.(token := st.token + PieceMeaning(p)), s)
  {
    hide Run, IsHexDigit, PieceMeaning;
    RunHexPair(st, high, low, s);
    assert PieceText(HexPair(high, low)) + s == "\\" + ([high, low] + s);
  }

  lemma RunPieceQuoted(st: State, text: string, s: string)
    requires !st.quoted && '"' !in text
    ensures Run(st, PieceText(Quoted(text)) + s) == Run(st.(token := st.token + text), s)
  {
    hide Run;
    RunOpenQuote(st, text + "\"" + s);
    RunQuoted(st.(quoted := true), text, s);
    assert PieceText(Quoted(text)) + s == "\"" + (text + "\"" + s);
  }

  lemma RunOpenQuote(st: State, s: string)
    requires !st.quoted
    ensures Run(st, "\"" + s) == Run(st.(quoted := true), s)
  {
    hide ParseHex;
    assert ("\"" + s)[1..] == s;
  }

  lemma {:induction false} DropSpacesAppend(a: string, b: string)
    ensures DropSpaces(a + b) == if DropSpaces(a) == [] then DropSpaces(b) else DropSpaces(a) + b
  {
    if a == [] {
      assert a + b == b;
    } else {
      DropSpacesAppend(a[1..], b);
      assert (a + b)[0] == a[0] && (a + b)[1..] == a[1..] + b;
    }
  }

  /** The end of the name or value changes nothing for a piece: no digit follows, and a space that was kept still is. */
  lemma PieceOkBefore(p: Piece, inName: bool, begun: bool, text: string, s: string)
    requires PieceOk(p, inName, begun, text) && EndsToken(inName, DropSpaces(s))
    ensures PieceOk(p, inName, begun, text + s)
  {
    assert forall c :: c in " ,;+=" ==> !IsHexDigit(c);
    hide IsHexDigit, IsSpace;
    DropSpacesStep(s);
    DropSpacesAppend(text, s);
    hide DropSpaces;
    assert text != [] ==> (text + s)[0] == text[0];
    assert text == [] ==> text + s == s;
  }

  /** Pieces of a name or value are read as what they stand for. */
  lemma {:induction false} RunPieces(st: State, ps: seq<Piece>, s: string)
    requires !st.quoted && PiecesOk(ps, st.key.None?, st.token != []) && EndsToken(st.key.None?, DropSpaces(s))
    ensures Run(st, PiecesText(ps) + s) == Run(st.(token := st.token + PiecesMeaning(ps)), s)
    decreases |ps|
  {
    hide Run, PieceMeaning, PieceText, PieceOk, EndsToken, DropSpaces;
    if ps == [] {
      assert PiecesText(ps) + s == s && st.token + "" == st.token;
    } else {
      var rest, next := PiecesText(ps[1..]) + s, st.(token := st.token + PieceMeaning(ps[0]));
      PieceOkBefore(ps[0], st.key.None?, st.token != [], PiecesText(ps[1..]), s);
      RunPiece(st, ps[0], rest);
      RunPieces(next, ps[1..], s);
      Associative(PieceText(ps[0]), PiecesText(ps[1..]), s);
      Associative(st.token, PieceMeaning(ps[0]), PiecesMeaning(ps[1..]));
    }
  }

  lemma RunSeparator(st: State, c: char, s: string)
    requires !st.quoted && c in ",;+"
    ensures Run(st, [c] + s) == Run(State(false, None, "", Stored(st)), s)
  {
    hide ParseHex;
    assert ([c] + s)[1..] == s;
  }

  lemma RunEquals(token: string, result: map<string, string>, s: string)
    ensures Run(State(false, None, token, result), "=" + s) == Run(State(false, Some(token), "", result), s)
  {
    hide ParseHex;
    assert ("=" + s)[1..] == s;
  }

  lemma DropThenEnd(inName: bool, n: nat, s: string)
    requires EndsToken(inName, s) && (s == [] || s[0] != ' ')
    ensures EndsToken(inName, DropSpaces(Spaces(n) + s))
  {
    DropSpacesAfter(n, s);
  }

  /** The head of an attribute, which is a name. */
  lemma RunHead(a: Attribute, result: map<string, string>, s: string)
    requires PiecesOk(a.name, true, false)
    ensures Run(State(false, None, "", result), HeadText(a) + s)
      == Run(State(false, Some(PiecesMeaning(a.name)), "", result), s)
  {
    hide Run, PiecesText, PiecesMeaning, PiecesOk, Spaces;
    var name := PiecesMeaning(a.name);
    var t2 := "=" + s;
    var t1 := Spaces(a.beforeEquals) + t2;
    DropThenEnd(true, a.beforeEquals, t2);
    hide EndsToken, DropSpaces;
    assert HeadText(a) + s == Spaces(a.beforeName) + (PiecesText(a.name) + t1);
    RunSkipsSpaces(State(false, None, "", result), a.beforeName, PiecesText(a.name) + t1);
    RunPieces(State(false, None, "", result), a.name, t1);
    assert "" + name == name;
    EqualsEnds(s);
    RunSkipsTrailingSpaces(State(false, None, name, result), a.beforeEquals, t2);
    RunEquals(name, result, s);
  }

  lemma EqualsEnds(s: string)
    ensures EndsToken(true, "=" + s) && ("=" + s)[0] != ' '
  {
  }

  /** One attribute, up to the separator or the end that follows it. */
  lemma RunAttribute(a: Attribute, result: map<string, string>, s: string)
    requires AttributeOk(a) && (s == [] || s[0] in ",;+")
    ensures Run(State(false, None, "", result), AttributeText(a) + s)
      == Run(State(false, Some(PiecesMeaning(a.name)), PiecesMeaning(a.value), result), s)
  {
    hide Run, PiecesText, PiecesMeaning, PiecesOk, Spaces, HeadText;
    var st := State(false, Some(PiecesMeaning(a.name)), "", result);
    var value := PiecesMeaning(a.value);
    var t2 := Spaces(a.afterValue) + s;
    var t1 := PiecesText(a.value) + t2;
    DropThenEnd(false, a.afterValue, s);
    assert AttributeText(a) + s == HeadText(a) + (Spaces(a.beforeValue) + t1);
    RunHead(a, result, Spaces(a.beforeValue) + t1);
    RunSkipsSpaces(st, a.beforeValue, t1);
    RunPieces(st, a.value, t2);
    assert "" + value == value;
    RunSkipsTrailingSpaces(st.(token := value), a.afterValue, s);
  }

  lemma {:induction false} RunList(list: seq<Listed>, result: map<string, string>)
    requires ListOk(list)
    ensures Run(State(false, None, "", result), ListText(list)) == Meaning(list, result)
    decreases |list|
  {
    hide Run, PiecesOk, AttributeText, PiecesMeaning;
    if list == [] {
      RunNothing(State(false, None, "", result));
    } else {
      var a := list[0].attribute;
      var st := State(false, Some(PiecesMeaning(a.name)), PiecesMeaning(a.value), result);
      var rest := if |list| == 1 then "" else [list[0].separator] + ListText(list[1..]);
      assert ListText(list) == AttributeText(a) + rest;
      RunAttribute(a, result, rest);
      if |list| == 1 {
        RunNothing(st);
        assert Meaning(list[1..], Stored(st)) == Stored(st);
      } else {
        RunSeparator(st, list[0].separator, ListText(list[1..]));
        RunList(list[1..], Stored(st));
      }
    }
  }

  lemma RunNothing(st: State)
    ensures Run(st, []) == Stored(st)
  {
  }

  /* ---------- Trimming the printed list ---------- */

  function WithoutLead(a: Attribute): Attribute {
    a.(beforeName := 0, beforeEquals := if a.name == [] then 0 else a.beforeEquals)
  }

  function ListWithoutLead(list: seq<Listed>): seq<Listed>
    requires list != []
  {
    [Listed(WithoutLead(list[0].attribute), list[0].separator)] + list[1..]
  }

  function WithoutTrail(a: Attribute): Attribute {
    a.(afterValue := 0, beforeValue := if a.value == [] then 0 else a.beforeValue)
  }

  function ListWithoutTrail(list: seq<Listed>): (r: seq<Listed>)
    requires list != []
    ensures |r| == |list|
  {
    if |list| == 1 then [Listed(WithoutTrail(list[0].attribute), list[0].separator)]
      else [list[0]] + ListWithoutTrail(list[1..])
  }

  lemma {:induction false} TrimStartOfSpaces(n: nat, s: string)
    ensures TrimStart(Spaces(n) + s) == TrimStart(s)
  {
    hide IsSpace, Spaces, TrimStart;
    if n == 0 {
      NoSpaces(s);
    } else {
      SpacesFirst(n, s);
      BlankIsSpace();
      TrimStartOfSpaces(n - 1, s);
      TrimStartStep(Spaces(n) + s);
    }
  }

  lemma BlankIsSpace()
    ensures IsSpace(' ')
  {
  }

  lemma TrimStartStep(s: string)
    requires s != [] && IsSpace(s[0])
    ensures TrimStart(s) == TrimStart(s[1..])
  {
    hide IsSpace;
  }

  lemma {:induction false} TrimEndOfSpaces(s: string, n: nat)
    ensures TrimEnd(s + Spaces(n)) == TrimEnd(s)
  {
    assert IsSpace(' ') && Spaces(0) == [];
    hide IsSpace;
    if n == 0 {
      assert s + Spaces(n) == s;
    } else {
      SpacesLast(n);
      hide Spaces;
      var t := s + Spaces(n);
      assert t[|t| - 1] == ' ' && t[..|t| - 1] == s + Spaces(n - 1);
      assert TrimEnd(t) == TrimEnd(t[..|t| - 1]);
      hide TrimEnd;
      TrimEndOfSpaces(s, n - 1);
    }
  }

  lemma {:induction false} SpacesLast(n: nat)
    requires n > 0
    ensures Spaces(n) == Spaces(n - 1) + " "
  {
    if n > 1 { SpacesLast(n - 1); }
  }

  lemma {:induction false} SpacesAdd(m: nat, n: nat)
    ensures Spaces(m) + Spaces(n) == Spaces(m + n)
  {
    if m > 0 {
      SpacesAdd(m - 1, n);
      assert Spaces(m) + Spaces(n) == " " + (Spaces(m - 1) + Spaces(n));
    }
  }

  lemma NameBegins(name: seq<Piece>)
    requires PiecesOk(name, true, false) && BeginsVisibly(name) && name != []
    ensures var t := PiecesText(name); t != [] && !IsSpace(t[0])
  {
    assert !IsSpace('"') && !IsSpace('\\');
    hide IsSpace, PlainOk, EscapeIsLiteral;
  }

  lemma NamelessLead(a: Attribute)
    requires a.name == []
    ensures HeadText(a) == Spaces(a.beforeName + a.beforeEquals) + "=" && HeadText(WithoutLead(a)) == "="
  {
    SpacesAdd(a.beforeName, a.beforeEquals);
    assert Spaces(0) == [] && PiecesText(a.name) == [];
    hide Spaces, PiecesText;
    assert Spaces(a.beforeName) + [] == Spaces(a.beforeName) && [] + [] + [] + "=" == "=";
  }

  lemma NamedLead(a: Attribute)
    requires a.name != []
    ensures HeadText(a) == Spaces(a.beforeName) + HeadText(WithoutLead(a))
    ensures HeadText(WithoutLead(a)) == PiecesText(a.name) + (Spaces(a.beforeEquals) + "=")
  {
    assert Spaces(0) == [];
    hide Spaces, PiecesText;
    var name, rest := PiecesText(a.name), Spaces(a.beforeEquals) + "=";
    assert [] + name == name;
    Associative(name, Spaces(a.beforeEquals), "=");
    Associative(Spaces(a.beforeName), name, Spaces(a.beforeEquals));
    Associative(Spaces(a.beforeName), name + Spaces(a.beforeEquals), "=");
  }

  lemma HeadLead(a: Attribute) returns (m: nat)
    requires PiecesOk(a.name, true, false) && BeginsVisibly(a.name)
    ensures HeadText(a) == Spaces(m) + HeadText(WithoutLead(a))
    ensures var t := HeadText(WithoutLead(a)); t != [] && !IsSpace(t[0])
  {
    assert !IsSpace('=');
    hide IsSpace, Spaces, PiecesOk, BeginsVisibly, HeadText, PiecesText, WithoutLead;
    if a.name == [] {
      m := a.beforeName + a.beforeEquals;
      NamelessLead(a);
    } else {
      m := a.beforeName;
      NameBegins(a.name);
      NamedLead(a);
    }
  }

  lemma AttributeLead(a: Attribute) returns (m: nat)
    requires AttributeOk(a) && BeginsVisibly(a.name)
    ensures AttributeText(a) == Spaces(m) + AttributeText(WithoutLead(a))
    ensures var t := AttributeText(WithoutLead(a)); t != [] && !IsSpace(t[0])
  {
    hide PiecesText, IsSpace, HeadText, Spaces, PiecesOk, BeginsVisibly;
    m := HeadLead(a);
    var head, tail := HeadText(WithoutLead(a)), Spaces(a.beforeValue) + PiecesText(a.value) + Spaces(a.afterValue);
    assert AttributeText(WithoutLead(a)) == head + tail && (head + tail)[0] == head[0];
    assert AttributeText(a) == Spaces(m) + (head + tail);
  }

  lemma LeadKeepsMeaning(list: seq<Listed>)
    requires list != [] && ListOk(list)
    ensures ListOk(ListWithoutLead(list)) && Meaning(ListWithoutLead(list), map[]) == Meaning(list, map[])
  {
    hide PiecesOk, PiecesMeaning;
    var shorter := ListWithoutLead(list);
    assert shorter[1..] == list[1..] && AttributeOk(list[0].attribute);
    forall i | 0 <= i < |shorter| ensures AttributeOk(shorter[i].attribute) && shorter[i].separator in ",;+" {
      if i > 0 { assert shorter[i] == list[i]; }
    }
  }

  lemma FirstOfList(list: seq<Listed>)
    requires list != []
    ensures var rest := if |list| == 1 then "" else [list[0].separator] + ListText(list[1..]);
      ListText(list) == AttributeText(list[0].attribute) + rest
  {
    hide AttributeText;
    if |list| > 1 {
      Associative(AttributeText(list[0].attribute), [list[0].separator], ListText(list[1..]));
    } else {
      assert AttributeText(list[0].attribute) + "" == AttributeText(list[0].attribute);
    }
  }

  lemma TrimStartOfList(list: seq<Listed>)
    requires list != [] && ListOk(list) && BeginsVisibly(list[0].attribute.name)
    ensures TrimStart(ListText(list)) == ListText(ListWithoutLead(list))
  {
    var a, shorter := list[0].attribute, ListWithoutLead(list);
    assert AttributeOk(a) && shorter[1..] == list[1..] && shorter[0].attribute == WithoutLead(a);
    FirstOfList(list);
    FirstOfList(shorter);
    hide ListOk, AttributeOk, Spaces, IsSpace, AttributeText, WithoutLead, BeginsVisibly, ListText, ListWithoutLead;
    var m := AttributeLead(a);
    var rest := if |list| == 1 then "" else [list[0].separator] + ListText(list[1..]);
    var t := AttributeText(WithoutLead(a));
    Associative(Spaces(m), t, rest);
    TrimStartOfSpaces(m, t + rest);
    NothingToTrim(t, rest);
  }

  lemma NothingToTrim(a: string, b: string)
    requires a != [] && !IsSpace(a[0])
    ensures TrimStart(a + b) == a + b
  {
    hide IsSpace;
    assert (a + b)[0] == a[0];
  }

  lemma PieceEnds(p: Piece)
    requires VisibleAtEdge(p)
    ensures var t := PieceText(p); t != [] && !IsSpace(t[|t| - 1])
  {
    assert !IsSpace('"');
    assert p.HexPair? ==> !IsSpace(p.low);
    hide IsSpace;
  }

  lemma {:induction false} PiecesEnd(ps: seq<Piece>)
    requires ps != [] && EndsVisibly(ps)
    ensures var t := PiecesText(ps); t != [] && !IsSpace(t[|t| - 1])
  {
    hide IsSpace, PieceText, VisibleAtEdge;
    if |ps| > 1 {
      PiecesEnd(ps[1..]);
    } else {
      PieceEnds(ps[0]);
    }
  }

  lemma HeadEnds(a: Attribute)
    ensures var t := HeadText(a); t != [] && !IsSpace(t[|t| - 1])
  {
    assert !IsSpace('=');
  }

  lemma AttributeTrail(a: Attribute) returns (m: nat)
    requires EndsVisibly(a.value)
    ensures AttributeText(a) == AttributeText(WithoutTrail(a)) + Spaces(m)
    ensures var t := AttributeText(WithoutTrail(a)); t != [] && !IsSpace(t[|t| - 1])
  {
    hide IsSpace;
    HeadEnds(a);
    var head := HeadText(a);
    assert Spaces(0) == [];
    hide Spaces, HeadText;
    if a.value == [] {
      m := a.beforeValue + a.afterValue;
      SpacesAdd(a.beforeValue, a.afterValue);
      assert PiecesText(a.value) == [];
      assert AttributeText(a) == head + (Spaces(a.beforeValue) + Spaces(a.afterValue));
      assert AttributeText(WithoutTrail(a)) == head;
    } else {
      m := a.afterValue;
      PiecesEnd(a.value);
      hide PiecesText;
      ValueTrail(a);
      LastOf(head + Spaces(a.beforeValue), PiecesText(a.value));
    }
  }

  lemma ValueTrail(a: Attribute)
    requires a.value != []
    ensures AttributeText(a) == HeadText(a) + Spaces(a.beforeValue) + PiecesText(a.value) + Spaces(a.afterValue)
    ensures AttributeText(WithoutTrail(a)) == HeadText(a) + Spaces(a.beforeValue) + PiecesText(a.value)
  {
    assert Spaces(0) == [];
    hide Spaces, PiecesText, HeadText;
    assert HeadText(WithoutTrail(a)) == HeadText(a) by { HeadOfWithoutTrail(a); }
    var t := HeadText(a) + Spaces(a.beforeValue) + PiecesText(a.value);
    assert t + [] == t;
  }

  lemma HeadOfWithoutTrail(a: Attribute)
    ensures HeadText(WithoutTrail(a)) == HeadText(a)
  {
  }

  lemma {:induction false} TrailKeepsMeaning(list: seq<Listed>, before: map<string, string>)
    requires list != [] && ListOk(list)
    ensures ListOk(ListWithoutTrail(list)) && Meaning(ListWithoutTrail(list), before) == Meaning(list, before)
    decreases |list|
  {
    hide PiecesMeaning, PiecesOk;
    var a, shorter := list[0].attribute, ListWithoutTrail(list);
    assert AttributeOk(a);
    if |list| == 1 {
      assert shorter[1..] == list[1..] == [];
    } else {
      TrailKeepsMeaning(list[1..], before[PiecesMeaning(a.name) := PiecesMeaning(a.value)]);
      assert shorter[1..] == ListWithoutTrail(list[1..]) && shorter[0] == list[0];
      forall i | 0 <= i < |shorter| ensures AttributeOk(shorter[i].attribute) && shorter[i].separator in ",;+" {
        if i > 0 { assert shorter[i] == shorter[1..][i - 1]; }
      }
    }
  }

  lemma {:induction false} TrimEndOfList(list: seq<Listed>) returns (m: nat)
    requires list != [] && ListOk(list) && EndsVisibly(list[|list| - 1].attribute.value)
    ensures var t := ListText(ListWithoutTrail(list));
      ListText(list) == t + Spaces(m) && t != [] && !IsSpace(t[|t| - 1])
    decreases |list|
  {
    hide IsSpace, AttributeText, AttributeOk, Spaces, WithoutTrail;
    var a, shorter := list[0].attribute, ListWithoutTrail(list);
    if |list| == 1 {
      m := AttributeTrail(a);
    } else {
      m := TrimEndOfList(list[1..]);
      assert shorter[1..] == ListWithoutTrail(list[1..]) && shorter[0] == list[0];
      var head, t := AttributeText(a) + [list[0].separator], ListText(shorter[1..]);
      hide ListText, ListWithoutTrail;
      Associative(head, t, Spaces(m));
      LastOf(head, t);
    }
  }

  lemma LastOf(a: string, b: string)
    requires b != []
    ensures (a + b)[|a + b| - 1] == b[|b| - 1]
  {
  }

  lemma TrimEndOfText(list: seq<Listed>)
    requires list != [] && ListOk(list) && EndsVisibly(list[|list| - 1].attribute.value)
    ensures ListOk(ListWithoutTrail(list)) && Meaning(ListWithoutTrail(list), map[]) == Meaning(list, map[])
    ensures TrimEnd(ListText(list)) == ListText(ListWithoutTrail(list))
  {
    hide ListOk, Meaning, ListText, ListWithoutTrail, Spaces, IsSpace;
    TrailKeepsMeaning(list, map[]);
    var m := TrimEndOfList(list);
    TrimEndOfSpaces(ListText(ListWithoutTrail(list)), m);
  }

  lemma TrimmedList(list: seq<Listed>)
    requires list != [] && ListOk(list) && EdgesVisible(list)
    ensures var trimmed := ListWithoutTrail(ListWithoutLead(list));
      ListOk(trimmed) && Meaning(trimmed, map[]) == Meaning(list, map[]) && Trim(ListText(list)) == ListText(trimmed)
  {
    hide ListOk, Meaning, IsSpace, Spaces, EndsVisibly, BeginsVisibly, Trimmed, ListText, TrimStart, TrimEnd;
    hide ListWithoutLead, ListWithoutTrail;
    LeadKeepsValue(list);
    LeadKeepsMeaning(list);
    TrimStartOfList(list);
    TrimEndOfText(ListWithoutLead(list));
  }

  lemma LeadKeepsValue(list: seq<Listed>)
    requires list != []
    ensures var r := ListWithoutLead(list);
      |r| == |list| && r[|list| - 1].attribute.value == list[|list| - 1].attribute.value
  {
  }

  /**
   A printed list of attributes is read back, whatever its spacing, separators, quotes and escapes and
   whatever spaces stand inside its names and values: the last of each name wins.
   */
  lemma ReadsBack(list: seq<Listed>)
    requires ListOk(list) && EdgesVisible(list)
    ensures Run(START, Trim(ListText(list))) == Meaning(list, map[])
  {
    if list == [] {
      RunList([], map[]);
    } else {
      TrimmedList(list);
      hide ListOk, Meaning, Run, ListText, Trim, EdgesVisible, ListWithoutLead, ListWithoutTrail;
      RunList(ListWithoutTrail(ListWithoutLead(list)), map[]);
    }
  }

  /* ---------- Bare text ---------- */

  function Bare(text: string): seq<Piece> {
    seq(|text|, i requires 0 <= i < |text| => Plain(text[i]))
  }

  /** Text that needs neither quotes nor escapes: no special character, and no space at the end. */
  predicate IsBare(text: string, inName: bool) {
    && (forall i :: 0 <= i < |text| ==> text[i] !in "\"\\,;+" && !(inName && text[i] == '='))
    && (text == [] || text[|text| - 1] != ' ')
  }

  /** The first character of bare text that is not a space belongs to it. */
  lemma {:induction false} BareGoesOn(text: string, inName: bool, s: string)
    requires IsBare(text, inName) && text != []
    ensures !EndsToken(inName, DropSpaces(text + s))
  {
    assert (text + s)[0] == text[0] && (text + s)[1..] == text[1..] + s;
    if text[0] == ' ' {
      BareGoesOn(text[1..], inName, s);
      hide EndsToken;
    }
  }

  lemma PlainInFront(c: char, ps: seq<Piece>, inName: bool, begun: bool)
    requires PlainOk(c, inName, begun, PiecesText(ps)) && PiecesOk(ps, inName, true)
    ensures PiecesOk([Plain(c)] + ps, inName, begun)
    ensures PiecesText([Plain(c)] + ps) == [c] + PiecesText(ps)
    ensures PiecesMeaning([Plain(c)] + ps) == [c] + PiecesMeaning(ps)
  {
    hide PlainOk;
    assert ([Plain(c)] + ps)[1..] == ps;
  }

  lemma BareRest(text: string, inName: bool)
    requires IsBare(text, inName) && text != []
    ensures IsBare(text[1..], inName) && text[0] !in "\"\\,;+" && !(inName && text[0] == '=')
    ensures text[0] == ' ' ==> text[1..] != []
  {
  }

  /** Bare text, inner spaces included, may stand in front of further pieces, and means itself. */
  lemma {:induction false} BareBefore(text: string, ps: seq<Piece>, inName: bool, begun: bool)
    requires IsBare(text, inName) && (!begun && text != [] ==> text[0] != ' ')
    requires PiecesOk(ps, inName, begun || text != [])
    ensures PiecesOk(Bare(text) + ps, inName, begun)
    ensures PiecesText(Bare(text) + ps) == text + PiecesText(ps)
    ensures PiecesMeaning(Bare(text) + ps) == text + PiecesMeaning(ps)
    decreases |text|
  {
    if text == [] {
      assert Bare(text) + ps == ps;
    } else {
      var c, rest := text[0], text[1..];
      BareRest(text, inName);
      assert Bare(text) == [Plain(c)] + Bare(rest) && text == [c] + rest;
      hide PiecesOk, PiecesText, PiecesMeaning, EndsToken, DropSpaces, IsBare, Bare;
      BareBefore(rest, ps, inName, true);
      if c == ' ' { BareGoesOn(rest, inName, PiecesText(ps)); }
      PlainInFront(c, Bare(rest) + ps, inName, begun);
      Associative([Plain(c)], Bare(rest), ps);
      Associative([c], rest, PiecesText(ps));
      Associative([c], rest, PiecesMeaning(ps));
    }
  }

  /** Such text may stand as it is for a whole name or value. */
  lemma BareReadsBack(text: string, inName: bool, begun: bool)
    requires IsBare(text, inName) && (!begun && text != [] ==> text[0] != ' ')
    ensures PiecesOk(Bare(text), inName, begun) && PiecesText(Bare(text)) == text && PiecesMeaning(Bare(text)) == text
  {
    BareBefore(text, [], inName, begun);
    assert Bare(text) + [] == Bare(text) && text + "" == text;
  }

  /** A bare name with a value, one space in front but for the first. */
  function Named(name: string, value: seq<Piece>, first: bool): Attribute {
    Attribute(Bare(name), value, if first then 0 else 1, 0, 0, 0)
  }

  lemma NamedReads(name: string, value: seq<Piece>, first: bool)
    requires IsBare(name, true) && name != [] && name[0] != ' ' && PiecesOk(value, false, false)
    ensures AttributeOk(Named(name, value, first)) && PiecesMeaning(Named(name, value, first).name) == name
    ensures AttributeText(Named(name, value, first)) == (if first then "" else " ") + name + "=" + PiecesText(value)
  {
    BareReadsBack(name, true, false);
    assert Spaces(0) == [] && Spaces(1) == " ";
    hide Spaces, PiecesText;
    assert [] + name == name && name + [] == name && " " + name + [] == " " + name;
  }

  lemma TwoListed(x: Attribute, y: Attribute)
    requires AttributeOk(x) && AttributeOk(y)
    ensures var list := [Listed(x, ','), Listed(y, ',')];
      && ListOk(list) && ListText(list) == AttributeText(x) + "," + AttributeText(y)
      && Meaning(list, map[])
        == map[PiecesMeaning(x.name) := PiecesMeaning(x.value)][PiecesMeaning(y.name) := PiecesMeaning(y.value)]
  {
    hide AttributeOk, AttributeText, PiecesMeaning;
    var list, last := [Listed(x, ','), Listed(y, ',')], [Listed(y, ',')];
    assert list[1..] == last && last[1..] == [];
    assert ListText(last) == AttributeText(y);
    assert Meaning(last[1..], map[]) == map[];
    var first := map[PiecesMeaning(x.name) := PiecesMeaning(x.value)];
    assert Meaning(last, first) == first[PiecesMeaning(y.name) := PiecesMeaning(y.value)];
  }

  /** As subjects are usually written: bare text with its spaces, and quotes around what needs them. */
  lemma SubjectReadsBack(m: string, value: string, n: string, quoted: string)
    requires IsBare(m, true) && m != [] && !IsSpace(m[0]) && IsBare(n, true) && n != [] && n[0] != ' '
    requires IsBare(value, false) && (value != [] ==> value[0] != ' ') && '"' !in quoted
    ensures Run(START, Trim(m + "=" + value + "," + (" " + n + "=" + ("\"" + quoted + "\""))))
      == map[m := value][n := quoted]
  {
    var v, w := Bare(value), [Quoted(quoted)];
    var x, y := Named(m, v, true), Named(n, w, false);
    assert VisibleAtEdge(x.name[0]) && VisibleAtEdge(w[0]) && IsSpace(' ');
    assert EdgesVisible([Listed(x, ','), Listed(y, ',')]);
    hide IsSpace, PiecesOk, PiecesMeaning, PiecesText, Run, Trim, Bare, EdgesVisible, IsBare;
    BareReadsBack(value, false, false);
    QuotedReadsBack(quoted);
    NamedReads(m, v, true);
    NamedReads(n, w, false);
    hide AttributeOk, AttributeText, ListOk, ListText, Meaning, Named;
    TwoListed(x, y);
    ReadsBack([Listed(x, ','), Listed(y, ',')]);
    assert "" + m == m;
  }

  lemma QuotedReadsBack(text: string)
    requires '"' !in text
    ensures var ps := [Quoted(text)];
      PiecesOk(ps, false, false) && PiecesText(ps) == "\"" + text + "\"" && PiecesMeaning(ps) == text
  {
    var ps := [Quoted(text)];
    assert ps[1..] == [] && PiecesText([]) == "" && PiecesMeaning([]) == "";
  }

  /* ---------- Where reading back fails ---------- */

  /** An escape reads back as the character itself, and nothing more, exactly where the character begins no number. */
  lemma EscapeReadsBackIff(st: State, c: char, s: string)
    requires !st.quoted
    ensures Next(st, "\\" + ([c] + s)) == Go(st.(token := st.token + [c]), s) <==> EscapeIsLiteral(c, s)
  {
    hide ParseHex, EscapeIsLiteral;
    NoNumberIff(c, s);
    var t := "\\" + ([c] + s);
    assert t[1..] == [c] + s && ([c] + s)[1..] == s;
    if ParseHex(Pair([c] + s)).Some? && s != [] {
      EscapeFitsAByte(Pair([c] + s));
      assert |([c] + s)[2..]| < |s|;
    }
  }

  /** An escaped plus sign or blank that a hexadecimal digit follows is taken for the number of that digit. */
  lemma EscapedPlusTakesADigit(st: State, c: char, digit: char, s: string)
    requires !st.quoted && IsHexDigit(digit) && (c == '+' || c == ' ')
    ensures Run(st, "\\" + ([c, digit] + s)) == Run(st.(token := st.token + [HexValue(digit) as char]), s)
  {
    hide ParseHex, Run, IsHexDigit;
    SignedDigitRead(c, digit);
    var t := [c, digit] + s;
    RunEscape(st, t);
    assert Pair(t) == [c, digit] && t[2..] == s;
  }

  lemma SignedDigitRead(c: char, digit: char)
    requires IsHexDigit(digit) && (c == '+' || c == ' ')
    ensures ParseHex([c, digit]) == Some(HexValue(digit))
  {
    var rest := [digit];
    NumberInTwo([c, digit]);
    assert [c, digit][1..] == rest;
    hide HexDigits, IsNegative, IsHexDigit, HexValue;
    assert rest[..0] == [] && HexNumber([]) == 0;
    assert HexNumber(rest) == HexValue(digit);
  }

  lemma OtherDigitRead(c: char, d: char)
    ensures c == '-' && IsHexDigit(d) ==> ParseHex([c, d]) == Some(-(HexValue(d) as int))
    ensures IsHexDigit(c) && !IsHexDigit(d) && d !in "xX" ==> ParseHex([c, d]) == Some(HexValue(c))
  {
    var first, rest := [c], [d];
    NumberInTwo([c, d]);
    assert [c, d][1..] == rest && [c, d][..1] == first;
    hide HexDigits, IsNegative, IsHexDigit, HexValue;
    assert rest[..0] == [] && first[..0] == [] && HexNumber([]) == 0;
    assert IsHexDigit(d) ==> HexNumber(rest) == HexValue(d);
    assert IsHexDigit(c) ==> HexNumber(first) == HexValue(c);
  }

  /** An escaped minus sign before a digit is read as a negative number, whose character is counted from the end. */
  lemma EscapedMinusWrapsAround(st: State, digit: char, s: string)
    requires !st.quoted && IsHexDigit(digit) && HexValue(digit) > 0
    ensures Run(st, "\\" + (['-', digit] + s))
      == Run(st.(token := st.token + [(0x1_0000 - HexValue(digit)) as char]), s)
  {
    NegativeCharCode(HexValue(digit));
    hide ParseHex, Run, IsHexDigit, HexValue, FromCharCode;
    OtherDigitRead('-', digit);
    var t := ['-', digit] + s;
    RunEscape(st, t);
    assert Pair(t) == ['-', digit] && t[2..] == s;
  }

  lemma NegativeCharCode(n: int)
    requires 0 < n < 0x10
    ensures FromCharCode(-n) == (0x1_0000 - n) as char
  {
  }

  /** One digit before another character is read as its number, and the other character is lost. */
  lemma OneDigitTakesTheNext(st: State, digit: char, c: char, s: string)
    requires !st.quoted && IsHexDigit(digit) && !IsHexDigit(c) && c !in "xX"
    ensures Run(st, "\\" + ([digit, c] + s)) == Run(st.(token := st.token + [HexValue(digit) as char]), s)
  {
    hide ParseHex, Run, IsHexDigit, HexValue;
    OtherDigitRead(digit, c);
    var t := [digit, c] + s;
    RunEscape(st, t);
    assert Pair(t) == [digit, c] && t[2..] == s;
  }

  /* ---------- When the last attribute is stored ---------- */

  /** Whether the text ends inside an escape, following quotes and escapes only. */
  predicate EndsInEscape(quoted: bool, s: string)
    decreases |s|
  {
    if s == [] then false
    else if quoted then EndsInEscape(s[0] != '"', s[1..])
    else if s[0] != '\\' then EndsInEscape(s[0] == '"', s[1..])
    else
      var rest := s[1..];
      if rest == [] then true
      else if EscapeIsLiteral(rest[0], rest[1..]) then EndsInEscape(false, rest[1..])
      else |rest| == 1 || EndsInEscape(false, rest[2..])
  }

  /** The state in which the run leaves off. */
  function Last(st: State, s: string): State
    decreases |s|
  {
    hide Next;
    if s == [] then st
    else
      match Next(st, s)
      case Go(next, rest) => Last(next, rest)
      case EndInEscape => st
  }

  lemma {:induction false} SpacesKeepEscapes(s: string)
    ensures EndsInEscape(false, DropSpaces(s)) == EndsInEscape(false, s)
  {
    hide EscapeIsLiteral;
    if s != [] && s[0] == ' ' { SpacesKeepEscapes(s[1..]); }
  }

  lemma NextKeepsEscapes(st: State, s: string)
    requires s != []
    ensures EndsInEscape(st.quoted, s) == match Next(st, s)
      case Go(next, rest) => EndsInEscape(next.quoted, rest)
      case EndInEscape => true
  {
    hide ParseHex, EscapeIsLiteral, DropSpaces, EndsToken, Stored, FromCharCode;
    var rest := s[1..];
    if !st.quoted && s[0] == '\\' {
      if rest != [] {
        assert rest == [rest[0]] + rest[1..];
        if |rest| > 1 { assert rest[1..][1..] == rest[2..]; }
        NoNumberIff(rest[0], rest[1..]);
      } else {
        LoneBackslash(st);
      }
    } else if !st.quoted && s[0] == ' ' {
      SpacesKeepEscapes(rest);
    }
  }

  /** The attribute under way at the end is stored exactly when the text does not end inside an escape. */
  lemma {:induction false} LastAttributeIsStoredIff(st: State, s: string)
    ensures Run(st, s) == if EndsInEscape(st.quoted, s) then Last(st, s).result else Stored(Last(st, s))
    ensures var last := Last(st, s);
      last.key.Some? && last.key.value !in last.result ==>
        (last.key.value in Run(st, s) <==> !EndsInEscape(st.quoted, s))
    decreases |s|
  {
    hide Next, EndsInEscape;
    if s == [] {
      EmptyEndsOutside(st.quoted);
    } else {
      NextKeepsEscapes(st, s);
      if Next(st, s).Go? { LastAttributeIsStoredIff(Next(st, s).st, Next(st, s).rest); }
    }
  }

  lemma EmptyEndsOutside(quoted: bool)
    ensures !EndsInEscape(quoted, [])
  {
  }

  /**
   So for the parser: on every subject the pending attribute is lost exactly when the trimmed text ends inside an
   escape.
   */
  lemma SubjectKeepsItsLastAttributeIff(subject: string)
    ensures var text := Trim(subject); var last := Last(START, text);
      && Run(START, text) == (if EndsInEscape(false, text) then last.result else Stored(last))
      && (last.key.Some? && last.key.value !in last.result ==>
        (last.key.value in Run(START, text) <==> !EndsInEscape(false, text)))
  {
    LastAttributeIsStoredIff(START, Trim(subject));
  }

  lemma RunFirstCharacter(name: string, c: char, s: string)
    requires IsBare(name, true) && (name != [] ==> name[0] != ' ') && PlainOk(c, false, false, s)
    ensures Run(START, name + "=" + [c] + s) == Run(State(false, Some(name), [c], map[]), s)
  {
    var a := Attribute(Bare(name), [], 0, 0, 0, 0);
    assert Spaces(0) == [];
    hide Run, PiecesOk, PlainOk, Bare, PiecesText, PiecesMeaning, IsBare, Spaces;
    BareReadsBack(name, true, false);
    RunHead(a, map[], [c] + s);
    assert HeadText(a) == name + "=" by { assert [] + name + [] + "=" == name + "="; }
    RunPlain(State(false, Some(name), "", map[]), c, s);
    assert "" + [c] == [c];
    Associative(name + "=", [c], s);
  }

  lemma RunCommonName(value: string)
    ensures Run(START, "CN=x" + value) == Run(State(false, Some("CN"), "x", map[]), value)
  {
    var name, plain := "CN", 'x';
    assert IsBare(name, true) && PlainOk(plain, false, false, value);
    hide Run, IsBare, PlainOk;
    RunFirstCharacter(name, plain, value);
    assert name + "=" + [plain] == "CN=x";
  }

  /** A backslash at the end, alone or before one hexadecimal digit, loses the attribute; inside quotes it is kept. */
  lemma FinalEscapeLosesTheAttribute(digit: char)
    requires IsHexDigit(digit)
    ensures Run(START, "CN=x" + "\\") == map[]
    ensures Run(START, "CN=x" + ['\\', digit]) == map[]
    ensures Run(START, "CN=x" + "\"\\") == map["CN" := "x\\"]
  {
    hide Run, Next;
    var st := State(false, Some("CN"), "x", map[]);
    RunCommonName("\\");
    RunCommonName(['\\', digit]);
    RunCommonName("\"\\");
    LoneBackslash(st);
    BackslashAndDigit(st, digit);
    RunOpenQuote(st, "\\");
    assert "\"" + "\\" == "\"\\";
    QuotedBackslash(st.(quoted := true));
    assert "x" + "\\" == "x\\";
  }

  lemma LoneBackslash(st: State)
    requires !st.quoted
    ensures ParseHex("") == None && Run(st, "\\") == st.result
  {
    assert ParseHex("") == None by {
      assert TrimStart("") == "" && HexPrefix("") == "";
    }
    hide ParseHex;
    assert "\\"[1..] == "";
  }

  lemma BackslashAndDigit(st: State, digit: char)
    requires !st.quoted && IsHexDigit(digit)
    ensures Run(st, ['\\', digit]) == st.result
  {
    hide ParseHex;
    var s, rest := ['\\', digit], [digit];
    NoNumberIff(digit, []);
    assert s[1..] == rest && rest + [] == rest;
  }

  lemma QuotedBackslash(st: State)
    requires st.quoted
    ensures Run(st, "\\") == Stored(st.(token := st.token + "\\"))
  {
    var s := "\\";
    assert s[1..] == "" && s == [s[0]];
    assert Next(st, s) == Go(st.(token := st.token + s), "");
    hide Next;
  }
}
