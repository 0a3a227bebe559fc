/** Text helpers shared by the models: the order of strings and decimal numerals. */
module Strings {
  import opened Sorting

  /** Lexicographic order on strings, character by character. */
  predicate LexLeq(a: string, b: string) {
    if a == [] then true
    else if b == [] then false
    else a[0] < b[0] || (a[0] == b[0] && LexLeq(a[1..], b[1..]))
  }

  lemma LexTotal(a: string, b: string)
    ensures LexLeq(a, b) || LexLeq(b, a)
    ensures LexLeq(a, b) && LexLeq(b, a) ==> a == b
  {
    if a != [] && b != [] && a[0] == b[0] {
      LexTotal(a[1..], b[1..]);
      assert a == [a[0]] + a[1..] && b == [b[0]] + b[1..];
    }
  }

  lemma LexTransitive(a: string, b: string, c: string)
    requires LexLeq(a, b) && LexLeq(b, c)
    ensures LexLeq(a, c)
  {
    if a != [] && a[0] == b[0] == c[0] {
      LexTransitive(a[1..], b[1..], c[1..]);
    }
  }

  lemma LexLeqIsTotalPreorder()
    ensures TotalPreorder(LexLeq)
  {
    forall a, b ensures LexLeq(a, b) || LexLeq(b, a) { LexTotal(a, b); }
    forall a, b, c | LexLeq(a, b) && LexLeq(b, c) ensures LexLeq(a, c) { LexTransitive(a, b, c); }
  }

  /** Two texts agree before position `i`, and there the first has the lesser character. */
  ghost predicate LessAt(a: string, b: string, i: int) {
    0 <= i < |a| && i < |b| && a[..i] == b[..i] && a[i] < b[i]
  }

  /** Alphabetical order: the first begins the second, or is less at the first character in which they differ. */
  ghost predicate Precedes(a: string, b: string) {
    (|a| <= |b| && b[..|a|] == a) || exists i :: LessAt(a, b, i)
  }

  ghost predicate Alphabetical(s: seq<string>) {
    forall i, j :: 0 <= i < j < |s| ==> Precedes(s[i], s[j])
  }

  lemma LessAtNext(a: string, b: string, i: nat)
    requires a != [] && b != [] && a[0] == b[0]
    ensures LessAt(a, b, i + 1) <==> LessAt(a[1..], b[1..], i)
  {
    if i < |a| - 1 && i < |b| - 1 {
      assert a[..i + 1] == [a[0]] + a[1..][..i] && b[..i + 1] == [b[0]] + b[1..][..i];
    }
  }

  lemma {:induction false} LexLeqIff(a: string, b: string)
    ensures LexLeq(a, b) <==> Precedes(a, b)
  {
    if a == [] || b == [] {
      assert forall i :: !LessAt(a, b, i);
      assert b[..0] == [];
    } else if a[0] != b[0] {
      assert LessAt(a, b, 0) <==> a[0] < b[0];
      assert forall i :: 0 < i <= |a| && i <= |b| ==> a[..i][0] == a[0] && b[..i][0] == b[0];
      assert forall i :: LessAt(a, b, i) ==> i == 0;
      assert |a| <= |b| ==> b[..|a|][0] == b[0];
    } else {
      var s, t := a[1..], b[1..];
      LexLeqIff(s, t);
      assert a == [a[0]] + s && b == [b[0]] + t;
      if |a| <= |b| { assert b[..|a|] == [b[0]] + t[..|s|]; }
      if i :| LessAt(a, b, i) {
        assert i > 0;
        LessAtNext(a, b, i - 1);
      }
      if i :| LessAt(s, t, i) { LessAtNext(a, b, i); }
    }
  }

  lemma SortedIsAlphabetical(s: seq<string>)
    requires SortedBy(s, LexLeq)
    ensures Alphabetical(s)
  {
    forall i, j | 0 <= i < j < |s| ensures Precedes(s[i], s[j]) { LexLeqIff(s[i], s[j]); }
  }

  /* ---------- Decimal numerals ---------- */

  const DIGITS := "0123456789"

  function Decimal(n: nat): (r: string)
    ensures r != [] && forall i :: 0 <= i < |r| ==> r[i] in DIGITS
  {
    if n < 10 then [DIGITS[n]] else Decimal(n / 10) + [DIGITS[n % 10]]
  }

  lemma DigitsDiffer(m: nat, n: nat)
    requires m < 10 && n < 10 && DIGITS[m] == DIGITS[n]
    ensures m == n
  {
  }

  lemma LastDigit(n: nat)
    ensures var r := Decimal(n); r[|r| - 1] == DIGITS[n % 10] && r[..|r| - 1] == if n < 10 then [] else Decimal(n / 10)
  {
  }

  lemma {:induction false} DecimalInjective(m: nat, n: nat)
    requires Decimal(m) == Decimal(n)
    ensures m == n
  {
    hide Decimal;
    LastDigit(m);
    LastDigit(n);
    DigitsDiffer(m % 10, n % 10);
    if m >= 10 && n >= 10 { DecimalInjective(m / 10, n / 10); }
  }

  /* ---------- White space and lines ---------- */

  /** The characters that trimming and the pattern for white space recognise. */
  predicate IsSpace(c: char) {
    c in " \t\n\r" || c == '\U{000B}' || c == '\U{000C}' || c == '\U{00A0}' || c == '\U{1680}'
      || '\U{2000}' <= c <= '\U{200A}'
    || c == '\U{2028}' || c == '\U{2029}' || c == '\U{202F}' || c == '\U{205F}' || c == '\U{3000}' || c == '\U{FEFF}'
  }

  lemma SpaceIff(c: char)
    ensures IsSpace(c) <==>
      || c in "\t\n\U{000B}\U{000C}\r \U{00A0}\U{1680}\U{2028}\U{2029}\U{202F}\U{205F}\U{3000}\U{FEFF}"
      || 0x2000 <= c as int < 0x200B
  {
  }

  predicate IsLineTerminator(c: char) {
    c == '\n' || c == '\r' || c == '\U{2028}' || c == '\U{2029}'
  }

  predicate OneLine(s: string) {
    forall i :: 0 <= i < |s| ==> !IsLineTerminator(s[i])
  }

  lemma OneLineIff(s: string)
    ensures OneLine(s) <==> '\n' !in s && '\r' !in s && '\U{2028}' !in s && '\U{2029}' !in s
  {
    if c :| c in s && IsLineTerminator(c) {
      var i :| 0 <= i < |s| && s[i] == c;
    }
  }

  function TrimStart(s: string): (r: string)
    ensures r == [] || !IsSpace(r[0])
    ensures |r| <= |s|
  {
    if s != [] && IsSpace(s[0]) then TrimStart(s[1..]) else s
  }

  function TrimEnd(s: string): (r: string)
    ensures r == [] || !IsSpace(r[|r| - 1])
    ensures r <= s
  {
    if s != [] && IsSpace(s[|s| - 1]) then TrimEnd(s[..|s| - 1]) else s
  }

  function Trim(s: string): string {
    TrimEnd(TrimStart(s))
  }

  /** Nonempty, with no white space at either end. */
  predicate Trimmed(s: string) {
    s != [] && !IsSpace(s[0]) && !IsSpace(s[|s| - 1])
  }

  lemma TrimmedIsFixed(s: string)
    requires Trimmed(s)
    ensures TrimStart(s) == s && TrimEnd(s) == s && Trim(s) == s
  {
  }

  lemma TrimEndAfter(a: string, b: string)
    requires b != [] && !IsSpace(b[|b| - 1])
    ensures TrimEnd(a + b) == a + b
  {
  }

  lemma TrimShape(s: string)
    ensures Trim(s) == [] || Trimmed(Trim(s))
    ensures |Trim(s)| < |s| || Trim(s) == s
  {
    hide IsSpace;
    assert TrimEnd(TrimStart(s)) <= TrimStart(s);
  }

  lemma {:induction false} TrimEndAppend(a: string, b: string)
    ensures TrimEnd(a + b) == if TrimEnd(b) == [] then TrimEnd(a) else a + TrimEnd(b)
    decreases |b|
  {
    hide IsSpace;
    if b == [] {
      assert a + b == a;
    } else if IsSpace(b[|b| - 1]) {
      assert (a + b)[..|a + b| - 1] == a + b[..|b| - 1];
      TrimEndAppend(a, b[..|b| - 1]);
    }
  }

  /** The two ends may be trimmed in either order. */
  lemma {:induction false} TrimCommutes(s: string)
    ensures TrimStart(TrimEnd(s)) == Trim(s)
  {
    hide IsSpace;
    if s != [] {
      var c, rest := [s[0]], s[1..];
      assert s == c + rest && c[..0] == [];
      TrimEndAppend(c, rest);
      if IsSpace(s[0]) {
        TrimCommutes(rest);
        assert TrimEnd(c) == [];
        assert TrimEnd(rest) != [] ==> (c + TrimEnd(rest))[1..] == TrimEnd(rest);
      }
    }
  }

  lemma {:induction false} TrimStartOneLine(s: string)
    requires OneLine(s)
    ensures OneLine(TrimStart(s))
  {
    hide IsLineTerminator, IsSpace;
    if s != [] && IsSpace(s[0]) {
      assert forall i :: 0 <= i < |s[1..]| ==> s[1..][i] == s[i + 1];
      TrimStartOneLine(s[1..]);
    }
  }

  lemma TrimOneLine(s: string)
    requires OneLine(s)
    ensures OneLine(Trim(s)) && OneLine(TrimEnd(s))
  {
    hide IsLineTerminator, TrimStart, TrimEnd;
    TrimStartOneLine(s);
    assert TrimEnd(s) <= s && TrimEnd(TrimStart(s)) <= TrimStart(s);
  }

  ghost predicate AllSpace(s: string) {
    forall i :: 0 <= i < |s| ==> IsSpace(s[i])
  }

  lemma {:induction false} TrimStartPadded(a: string, s: string)
    requires AllSpace(a)
    ensures TrimStart(a + s) == TrimStart(s)
  {
    hide IsSpace;
    if a == [] {
      assert a + s == s;
    } else {
      TrimStartPadded(a[1..], s);
      assert (a + s)[0] == a[0] && (a + s)[1..] == a[1..] + s;
    }
  }

  lemma {:induction false} TrimEndOfSpace(b: string)
    requires AllSpace(b)
    ensures TrimEnd(b) == []
  {
    hide IsSpace;
    if b != [] { TrimEndOfSpace(b[..|b| - 1]); }
  }

  /** Trimming takes away the white space around a text, and nothing else. */
  lemma TrimPadded(a: string, t: string, b: string)
    requires AllSpace(a) && AllSpace(b) && (t == [] || Trimmed(t))
    ensures Trim(a + t + b) == t
  {
    Associative(a, t, b);
    TrimStartPadded(a, t + b);
    TrimEndOfSpace(b);
    if t == [] {
      assert t + b == b;
      TrimStartPadded(b, []);
      assert b + [] == b;
    } else {
      TrimmedIsFixed(t);
      TrimEndAppend(t, b);
      hide IsSpace;
      assert (t + b)[0] == t[0];
    }
  }

  lemma {:induction false} TrimStartTakes(s: string) returns (a: string)
    ensures s == a + TrimStart(s) && AllSpace(a)
  {
    hide IsSpace;
    a := [];
    if s != [] && IsSpace(s[0]) {
      var rest := TrimStartTakes(s[1..]);
      a := [s[0]] + rest;
      assert s == [s[0]] + s[1..];
    }
  }

  lemma {:induction false} TrimEndTakes(s: string) returns (b: string)
    ensures s == TrimEnd(s) + b && AllSpace(b)
  {
    hide IsSpace;
    b := [];
    if s != [] && IsSpace(s[|s| - 1]) {
      var rest := TrimEndTakes(s[..|s| - 1]);
      b := rest + [s[|s| - 1]];
      assert s == s[..|s| - 1] + [s[|s| - 1]];
    }
  }

  lemma TrimTakes(s: string) returns (a: string, b: string)
    ensures s == a + Trim(s) + b && AllSpace(a) && AllSpace(b)
  {
    a := TrimStartTakes(s);
    b := TrimEndTakes(TrimStart(s));
    hide IsSpace, TrimStart, TrimEnd;
    Associative(a, Trim(s), b);
  }

  function JoinLines(lines: seq<string>): string {
    if lines == [] then []
    else if |lines| == 1 then lines[0]
    else lines[0] + "\n" + JoinLines(lines[1..])
  }

  function IndexOf(s: string, c: char): (i: nat)
    ensures i <= |s| && (i < |s| ==> s[i] == c) && forall j :: 0 <= j < i ==> s[j] != c
  {
    if s == [] || s[0] == c then 0 else 1 + IndexOf(s[1..], c)
  }

  function DropReturn(line: string): string {
    if line != [] && line[|line| - 1] == '\r' then line[..|line| - 1] else line
  }

  /** Splitting at a line feed that a carriage return may precede. */
  function SplitLines(s: string): (lines: seq<string>)
    ensures lines != []
    decreases |s|
  {
    var i := IndexOf(s, '\n');
    if i == |s| then [s] else [DropReturn(s[..i])] + SplitLines(s[i + 1..])
  }

  lemma FirstSeparator(a: string, c: char, b: string)
    requires c !in a
    ensures var s := a + [c] + b; IndexOf(s, c) == |a| < |s| && s[..|a|] == a && s[|a| + 1..] == b
  {
    var s := a + [c] + b;
    assert s[|a|] == c && forall j :: 0 <= j < |a| ==> s[j] == a[j];
  }

  /** Every line but the last without one carriage return at its end. */
  function Dropped(lines: seq<string>): (r: seq<string>)
    ensures |r| == |lines|
  {
    seq(|lines|, i requires 0 <= i < |lines| => if i < |lines| - 1 then DropReturn(lines[i]) else lines[i])
  }

  lemma SplitFirst(a: string, b: string)
    requires '\n' !in a
    ensures SplitLines(a + "\n" + b) == [DropReturn(a)] + SplitLines(b)
  {
    FirstSeparator(a, '\n', b);
    hide DropReturn, IndexOf;
  }

  lemma SplitOne(a: string)
    requires '\n' !in a
    ensures SplitLines(a) == [a]
  {
    hide DropReturn;
  }

  /** Splitting joined lines loses one carriage return at the end of every line but the last. */
  lemma {:induction false} SplitJoined(lines: seq<string>)
    requires lines != [] && forall i :: 0 <= i < |lines| ==> '\n' !in lines[i]
    ensures SplitLines(JoinLines(lines)) == Dropped(lines)
  {
    hide DropReturn, SplitLines;
    if |lines| == 1 {
      SplitOne(lines[0]);
    } else {
      SplitJoined(lines[1..]);
      SplitFirst(lines[0], JoinLines(lines[1..]));
      assert Dropped(lines) == [DropReturn(lines[0])] + Dropped(lines[1..]);
    }
  }

  /**
   Splitting gives back joined lines, provided no line holds a line feed and none but the last ends in a carriage
   return.
   */
  lemma SplitJoin(lines: seq<string>)
    requires lines != []
    requires forall i :: 0 <= i < |lines| ==> '\n' !in lines[i]
    requires forall i :: 0 <= i < |lines| - 1 ==> DropReturn(lines[i]) == lines[i]
    ensures SplitLines(JoinLines(lines)) == lines
  {
    hide DropReturn, SplitLines, JoinLines;
    SplitJoined(lines);
    assert Dropped(lines) == lines;
  }

  /* ---------- Paths ---------- */

  function SplitSlash(s: string): (segments: seq<string>)
    ensures segments != []
    decreases |s|
  {
    var i := IndexOf(s, '/');
    if i == |s| then [s] else [s[..i]] + SplitSlash(s[i + 1..])
  }

  function JoinSlash(segments: seq<string>): string {
    if segments == [] then []
    else if |segments| == 1 then segments[0]
    else segments[0] + "/" + JoinSlash(segments[1..])
  }

  lemma SplitFirstSlash(a: string, b: string)
    requires '/' !in a
    ensures SplitSlash(a + "/" + b) == [a] + SplitSlash(b)
  {
    FirstSeparator(a, '/', b);
    hide IndexOf;
  }

  lemma {:induction false} SplitJoinSlash(segments: seq<string>)
    requires segments != [] && forall i :: 0 <= i < |segments| ==> '/' !in segments[i]
    ensures SplitSlash(JoinSlash(segments)) == segments
  {
    if |segments| == 1 {
      assert IndexOf(segments[0], '/') == |segments[0]|;
    } else {
      hide SplitSlash;
      SplitJoinSlash(segments[1..]);
      SplitFirstSlash(segments[0], JoinSlash(segments[1..]));
    }
  }

  /* ---------- Letters ---------- */

  lemma UppercaseIff(c: char)
    ensures 'A' <= c <= 'Z' <==> c in "ABCDEFGHIJKLMNOPQRSTUVWXYZ"
  {
    var letters := "ABCDEFGHIJKLMNOPQRSTUVWXYZ";
    assert forall d: nat :: d < 26 ==> letters[d] as int == 'A' as int + d;
    if 'A' <= c <= 'Z' { assert letters[c as int - 'A' as int] == c; }
  }

  lemma LowercaseIff(c: char)
    ensures 'a' <= c <= 'z' <==> c in "abcdefghijklmnopqrstuvwxyz"
  {
    var letters := "abcdefghijklmnopqrstuvwxyz";
    assert forall d: nat :: d < 26 ==> letters[d] as int == 'a' as int + d;
    if 'a' <= c <= 'z' { assert letters[c as int - 'a' as int] == c; }
  }
}
