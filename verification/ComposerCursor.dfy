/**
 The two cursor maps of the composer. The collapsed cursor counts an inline token as one position,
 the expanded cursor counts the characters that the token stands for.
 */
module ComposerCursor {
  import opened ComposerSegments

  /** The characters a segment stands for, as the cursor maps count them. */
  function ExpandedLength(segment: Segment): nat {
    match segment
    case Text(text) => |text|
    case Mention(path, _) => |path| + 1
    case Skill(name, _) => |name| + 1
    case SlashCommand(command) => |command| + 1
    case AgentMention(alias, _) => |alias| + 1
    case Link(url) => |url|
    case TerminalContext(_) => 1
  }

  function CollapsedLength(segment: Segment): nat {
    if segment.Text? then |segment.text| else 1
  }

  function TotalExpanded(segments: seq<Segment>): nat {
    if segments == [] then 0 else ExpandedLength(segments[0]) + TotalExpanded(segments[1..])
  }

  function TotalCollapsed(segments: seq<Segment>): nat {
    if segments == [] then 0 else CollapsedLength(segments[0]) + TotalCollapsed(segments[1..])
  }

  ghost predicate PositiveTokens(segments: seq<Segment>) {
    forall i :: 0 <= i < |segments| && !segments[i].Text? ==> ExpandedLength(segments[i]) > 0
  }

  /** A cursor as it is passed in: not finite, or a number. */
  datatype CursorInput = NotFinite | Finite(value: real)

  function Clamp(length: nat, cursor: CursorInput): (c: nat)
    ensures c <= length
    ensures cursor.NotFinite? ==> c == length
    ensures cursor.Finite? && 0.0 <= cursor.value <= length as real ==> c as real <= cursor.value < c as real + 1.0
  {
    match cursor
    case NotFinite => length
    case Finite(value) => if value.Floor < 0 then 0 else if value.Floor > length then length else value.Floor
  }

  /* ---------- The maps ---------- */

  function ExpandFrom(segments: seq<Segment>, c: nat): nat {
    if segments == [] then 0
    else
      var s := segments[0];
      if s.Text? then
        if c <= |s.text| then c else |s.text| + ExpandFrom(segments[1..], c - |s.text|)
      else if c <= 1 then c * ExpandedLength(s)
      else ExpandedLength(s) + ExpandFrom(segments[1..], c - 1)
  }

  function CollapseFrom(segments: seq<Segment>, e: nat): nat {
    if segments == [] then 0
    else
      var s := segments[0];
      if s.Text? then
        if e <= |s.text| then e else |s.text| + CollapseFrom(segments[1..], e - |s.text|)
      else if e == 0 then 0
      else if e <= ExpandedLength(s) then 1
      else 1 + CollapseFrom(segments[1..], e - ExpandedLength(s))
  }

  /** `expandCollapsedComposerCursor`, for a text of this length that splits into these segments. */
  method ExpandCollapsedComposerCursor(length: nat, segments: seq<Segment>, cursorInput: CursorInput)
      returns (expanded: nat)
    ensures expanded ==
      if segments == [] then Clamp(length, cursorInput) else ExpandFrom(segments, Clamp(length, cursorInput))
  {
    var collapsedCursor := Clamp(length, cursorInput);
    if |segments| == 0 { return collapsedCursor; }
    var remaining: nat, expandedCursor: nat := collapsedCursor, 0;
    var i := 0;
    while i < |segments|
      invariant 0 <= i <= |segments|
      invariant ExpandFrom(segments, collapsedCursor) == expandedCursor + ExpandFrom(segments[i..], remaining)
    {
      var segment := segments[i];
      assert segments[i..][1..] == segments[i + 1..];
      if segment.Text? {
        if remaining <= |segment.text| { return expandedCursor + remaining; }
        remaining := remaining - |segment.text|;
        expandedCursor := expandedCursor + |segment.text|;
      } else {
        var expandedLength := ExpandedLength(segment);
        if remaining <= 1 { return expandedCursor + if remaining == 0 then 0 else expandedLength; }
        remaining := remaining - 1;
        expandedCursor := expandedCursor + expandedLength;
      }
      i := i + 1;
    }
    return expandedCursor;
  }

  /** `collapseExpandedComposerCursor`, for a text of this length that splits into these segments. */
  method CollapseExpandedComposerCursor(length: nat, segments: seq<Segment>, cursorInput: CursorInput)
      returns (collapsed: nat)
    ensures collapsed ==
      if segments == [] then Clamp(length, cursorInput) else CollapseFrom(segments, Clamp(length, cursorInput))
  {
    var expandedCursor := Clamp(length, cursorInput);
    if |segments| == 0 { return expandedCursor; }
    var remaining: nat, collapsedCursor: nat := expandedCursor, 0;
    var i := 0;
    while i < |segments|
      invariant 0 <= i <= |segments|
      invariant CollapseFrom(segments, expandedCursor) == collapsedCursor + CollapseFrom(segments[i..], remaining)
    {
      var segment := segments[i];
      assert segments[i..][1..] == segments[i + 1..];
      if segment.Text? {
        if remaining <= |segment.text| { return collapsedCursor + remaining; }
        remaining := remaining - |segment.text|;
        collapsedCursor := collapsedCursor + |segment.text|;
      } else {
        var expandedLength := ExpandedLength(segment);
        if remaining == 0 { return collapsedCursor; }
        if remaining <= expandedLength { return collapsedCursor + 1; }
        remaining := remaining - expandedLength;
        collapsedCursor := collapsedCursor + 1;
      }
      i := i + 1;
    }
    return collapsedCursor;
  }

  /* ---------- The adjunction ---------- */

  /** Collapsing is the lower and expanding the upper adjoint. */
  lemma {:induction false} Adjoint(segments: seq<Segment>, e: nat, c: nat)
    requires PositiveTokens(segments) && e <= TotalExpanded(segments)
    ensures CollapseFrom(segments, e) <= c <==> e <= ExpandFrom(segments, c)
  {
    if segments != [] {
      var s, rest := segments[0], segments[1..];
      var taken, length := CollapsedLength(s), ExpandedLength(s);
      assert PositiveTokens(rest);
      if e > length && c > taken {
        Adjoint(rest, e - length, c - taken);
      } else if e > length {
        CollapsePositive(rest, e - length);
      }
    }
  }

  lemma {:induction false} CollapsePositive(segments: seq<Segment>, e: nat)
    requires PositiveTokens(segments) && 0 < e <= TotalExpanded(segments)
    ensures CollapseFrom(segments, e) > 0
  {
    if segments != [] && segments[0].Text? && |segments[0].text| == 0 {
      assert PositiveTokens(segments[1..]);
      CollapsePositive(segments[1..], e);
    }
  }

  lemma {:induction false} ExpandIsBounded(segments: seq<Segment>, c: nat)
    requires PositiveTokens(segments)
    ensures ExpandFrom(segments, c) <= TotalExpanded(segments)
    ensures c <= TotalCollapsed(segments) ==> c <= ExpandFrom(segments, c)
  {
    if segments != [] {
      assert PositiveTokens(segments[1..]);
      if c >= CollapsedLength(segments[0]) { ExpandIsBounded(segments[1..], c - CollapsedLength(segments[0])); }
    }
  }

  lemma {:induction false} CollapseIsBounded(segments: seq<Segment>, e: nat)
    requires PositiveTokens(segments)
    ensures CollapseFrom(segments, e) <= TotalCollapsed(segments) && CollapseFrom(segments, e) <= e
  {
    if segments != [] {
      assert PositiveTokens(segments[1..]);
      if e >= ExpandedLength(segments[0]) { CollapseIsBounded(segments[1..], e - ExpandedLength(segments[0])); }
    }
  }

  ghost predicate AdjointUpTo(segments: seq<Segment>, length: nat) {
    forall e: nat, c: nat {:trigger CollapseFrom(segments, e), ExpandFrom(segments, c)} ::
      e <= length && c <= length ==> (CollapseFrom(segments, e) <= c <==> e <= ExpandFrom(segments, c))
  }

  /** The maps are adjoint on the cursors of a text exactly when the segments account for the whole text. */
  lemma AdjointIffCovered(segments: seq<Segment>, length: nat)
    requires PositiveTokens(segments) && segments != []
    ensures AdjointUpTo(segments, length) <==> length <= TotalExpanded(segments)
  {
    if length <= TotalExpanded(segments) {
      forall e: nat, c: nat | e <= length && c <= length
        ensures CollapseFrom(segments, e) <= c <==> e <= ExpandFrom(segments, c)
      {
        Adjoint(segments, e, c);
      }
    } else {
      CollapseIsBounded(segments, length);
      var c := CollapseFrom(segments, length);
      ExpandIsBounded(segments, c);
      assert CollapseFrom(segments, length) <= c && !(length <= ExpandFrom(segments, c));
    }
  }

  ghost predicate StaysInText(segments: seq<Segment>, length: nat) {
    forall c: nat :: c <= length ==> ExpandFrom(segments, c) <= length
  }

  /** Both laws: the maps are adjoint on the cursors of a text, and no expanded cursor leaves it. */
  ghost predicate CursorLaws(segments: seq<Segment>, length: nat) {
    AdjointUpTo(segments, length) && StaysInText(segments, length)
  }

  lemma {:induction false} ExpandWhole(segments: seq<Segment>)
    ensures ExpandFrom(segments, TotalCollapsed(segments)) == TotalExpanded(segments)
  {
    if segments != [] { ExpandWhole(segments[1..]); }
  }

  /**
   No expanded cursor leaves the text exactly when the segments do not stand for more than the text, and so both
   laws hold exactly when they stand for as many characters as the text has.
   */
  lemma CursorLawsIff(segments: seq<Segment>, length: nat)
    requires PositiveTokens(segments) && segments != [] && TotalCollapsed(segments) <= length
    ensures StaysInText(segments, length) <==> TotalExpanded(segments) <= length
    ensures CursorLaws(segments, length) <==> TotalExpanded(segments) == length
  {
    ExpandWhole(segments);
    forall c: nat ensures ExpandFrom(segments, c) <= TotalExpanded(segments) {
      ExpandIsBounded(segments, c);
    }
    AdjointIffCovered(segments, length);
  }

  lemma MapsAreMonotone(segments: seq<Segment>, m: nat, n: nat)
    requires PositiveTokens(segments) && m <= n <= TotalExpanded(segments)
    ensures CollapseFrom(segments, m) <= CollapseFrom(segments, n)
    ensures ExpandFrom(segments, m) <= ExpandFrom(segments, n)
  {
    Adjoint(segments, n, CollapseFrom(segments, n));
    Adjoint(segments, m, CollapseFrom(segments, n));
    ExpandIsBounded(segments, m);
    Adjoint(segments, ExpandFrom(segments, m), m);
    Adjoint(segments, ExpandFrom(segments, m), n);
  }

  /** Collapsing undoes expanding exactly on the positions of the collapsed text. */
  lemma {:induction false} CollapseAfterExpand(segments: seq<Segment>, c: nat)
    requires PositiveTokens(segments)
    ensures CollapseFrom(segments, ExpandFrom(segments, c)) == c <==> c <= TotalCollapsed(segments)
  {
    CollapseIsBounded(segments, ExpandFrom(segments, c));
    if c <= TotalCollapsed(segments) { CollapseAfterExpandInRange(segments, c); }
  }

  lemma {:induction false} CollapseAfterExpandInRange(segments: seq<Segment>, c: nat)
    requires PositiveTokens(segments) && c <= TotalCollapsed(segments)
    ensures CollapseFrom(segments, ExpandFrom(segments, c)) == c
  {
    if segments != [] {
      var s, rest := segments[0], segments[1..];
      assert PositiveTokens(rest);
      if c > CollapsedLength(s) {
        CollapseAfterExpandInRange(rest, c - CollapsedLength(s));
        ExpandIsBounded(rest, c - CollapsedLength(s));
      }
    }
  }

  /** The end of the token that strictly contains the expanded position, or the position itself. */
  function SnapToTokenEnd(segments: seq<Segment>, e: nat): nat {
    if segments == [] then e
    else
      var s, length := segments[0], ExpandedLength(segments[0]);
      if e > length then length + SnapToTokenEnd(segments[1..], e - length)
      else if s.Text? || e == 0 then e
      else length
  }

  /** Expanding after collapsing moves a cursor only out of the inside of a token, to the token's end. */
  lemma {:induction false} ExpandAfterCollapse(segments: seq<Segment>, e: nat)
    requires PositiveTokens(segments) && e <= TotalExpanded(segments)
    ensures ExpandFrom(segments, CollapseFrom(segments, e)) == SnapToTokenEnd(segments, e)
  {
    if segments != [] {
      var s, rest := segments[0], segments[1..];
      assert PositiveTokens(rest);
      if e > ExpandedLength(s) {
        ExpandAfterCollapse(rest, e - ExpandedLength(s));
        CollapsePositive(rest, e - ExpandedLength(s));
      }
    }
  }

  /* ---------- The segments that the tokenizer produces ---------- */

  /** The tiles of a split: text as it is, and tokens that stand for something. */
  ghost predicate ProperTiles(tiles: seq<Tile>) {
    forall i :: 0 <= i < |tiles| ==>
      if tiles[i].segment.Text? then ExpandedLength(tiles[i].segment) == tiles[i].hi - tiles[i].lo
      else ExpandedLength(tiles[i].segment) > 0
  }

  lemma {:induction false} TilesCollapse(tiles: seq<Tile>, lo: nat, hi: nat)
    requires Chain(tiles, lo, hi) && lo <= hi && ProperTiles(tiles)
    ensures TotalCollapsed(SegmentsOf(tiles)) <= hi - lo && PositiveTokens(SegmentsOf(tiles))
  {
    if tiles != [] {
      var segments := SegmentsOf(tiles);
      assert segments[1..] == SegmentsOf(tiles[1..]);
      ChainTail(tiles, lo, hi);
      TilesCollapse(tiles[1..], tiles[0].hi, hi);
      forall i | 0 <= i < |segments| && !segments[i].Text? ensures ExpandedLength(segments[i]) > 0 {
        assert segments[i] == tiles[i].segment;
      }
    }
  }

  /** The characters a tile stands for beyond those it occupies. */
  ghost function Excess(tiles: seq<Tile>): int {
    if tiles == [] then 0
    else ExpandedLength(tiles[0].segment) - (tiles[0].hi - tiles[0].lo) + Excess(tiles[1..])
  }

  lemma {:induction false} TilesExpand(tiles: seq<Tile>, lo: nat, hi: nat)
    requires Chain(tiles, lo, hi) && lo <= hi
    ensures TotalExpanded(SegmentsOf(tiles)) == hi - lo + Excess(tiles)
  {
    if tiles != [] {
      assert SegmentsOf(tiles)[1..] == SegmentsOf(tiles[1..]);
      ChainTail(tiles, lo, hi);
      TilesExpand(tiles[1..], tiles[0].hi, hi);
    }
  }

  /** On a split prompt both laws hold exactly when what the tokens store too much and too little cancels out. */
  lemma CursorLawsOnPrompt(prompt: string, tiles: seq<Tile>)
    requires prompt != [] && Chain(tiles, 0, |prompt|) && ProperTiles(tiles)
    ensures CursorLaws(SegmentsOf(tiles), |prompt|) <==> Excess(tiles) == 0
    ensures AdjointUpTo(SegmentsOf(tiles), |prompt|) <==> Excess(tiles) >= 0
    ensures StaysInText(SegmentsOf(tiles), |prompt|) <==> Excess(tiles) <= 0
  {
    TilesCollapse(tiles, 0, |prompt|);
    TilesExpand(tiles, 0, |prompt|);
    AdjointIffCovered(SegmentsOf(tiles), |prompt|);
    CursorLawsIff(SegmentsOf(tiles), |prompt|);
  }

  /** A quoted mention stores fewer characters than it occupies, and the maps are not adjoint. */
  lemma QuotedMentionBreaksTheLaws()
    ensures
      var prompt := "@\"a b\" x";
      var tiles := [Tile(Mention("a b", PathMention), 0, 6), Tile(Text(" x"), 6, 8)];
      Chain(tiles, 0, |prompt|) && prompt[6..8] == " x" && !AdjointUpTo(SegmentsOf(tiles), |prompt|)
  {
    var tiles := [Tile(Mention("a b", PathMention), 0, 6), Tile(Text(" x"), 6, 8)];
    assert tiles[1..] == [Tile(Text(" x"), 6, 8)] && tiles[1..][1..] == [];
    assert Excess(tiles) == -2;
    CursorLawsOnPrompt("@\"a b\" x", tiles);
  }

  /** A link without a scheme stores more than it occupies, and an expanded cursor leaves the text. */
  lemma BareLinkLeavesTheText()
    ensures
      var prompt, tiles := "a.io", [Tile(Link("https://a.io"), 0, 4)];
      && Chain(tiles, 0, |prompt|) && AdjointUpTo(SegmentsOf(tiles), |prompt|)
      && ExpandFrom(SegmentsOf(tiles), 1) == 12 && !StaysInText(SegmentsOf(tiles), |prompt|)
  {
    var tiles := [Tile(Link("https://a.io"), 0, 4)];
    assert tiles[1..] == [];
    assert Excess(tiles) == 8;
    CursorLawsOnPrompt("a.io", tiles);
  }

  /** How a token is written when it needs no quotes; a skill keeps the sign it was written with. */
  ghost function Written(token: Segment, sign: char): string {
    match token
    case Text(text) => text
    case Mention(path, _) => "@" + path
    case Skill(name, _) => [sign] + name
    case SlashCommand(command) => "/" + command
    case AgentMention(alias, _) => "@" + alias
    case Link(url) => url
    case TerminalContext(_) => [PLACEHOLDER]
  }

  /** Tokens written without quotes, and links with their scheme, stand for exactly the characters they occupy. */
  lemma WrittenTokensObeyTheLaws(prompt: string, tiles: seq<Tile>, sign: char)
    requires prompt != [] && Chain(tiles, 0, |prompt|)
    requires forall i :: 0 <= i < |tiles| ==>
      tiles[i].hi <= |prompt| && prompt[tiles[i].lo..tiles[i].hi] == Written(tiles[i].segment, sign)
    ensures CursorLaws(SegmentsOf(tiles), |prompt|)
  {
    forall i | 0 <= i < |tiles| ensures ExpandedLength(tiles[i].segment) == tiles[i].hi - tiles[i].lo {
      assert |Written(tiles[i].segment, sign)| == tiles[i].hi - tiles[i].lo;
    }
    NoExcess(tiles);
    CursorLawsOnPrompt(prompt, tiles);
  }

  lemma {:induction false} NoExcess(tiles: seq<Tile>)
    requires forall i :: 0 <= i < |tiles| ==> ExpandedLength(tiles[i].segment) == tiles[i].hi - tiles[i].lo
    ensures Excess(tiles) == 0
  {
    if tiles != [] {
      assert forall i :: 0 <= i < |tiles[1..]| ==> tiles[1..][i] == tiles[i + 1];
      NoExcess(tiles[1..]);
    }
  }
}
