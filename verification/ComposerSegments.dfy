/**
 Splitting a composer prompt into text and inline tokens. The pattern matchers are parameters: they
 propose candidate ranges, and the splitter picks from them.
 */
module ComposerSegments {
  import opened Sorting

  const PLACEHOLDER: char := '\U{FFFC}'

  datatype MentionKind = PathMention | OtherMention(name: string)

  datatype Segment =
    | Text(text: string)
    | Mention(path: string, kind: MentionKind)
    | Skill(name: string, prefix: string)
    | SlashCommand(command: string)
    | TerminalContext(context: Context)
    | AgentMention(alias: string, color: string)
    | Link(url: string)

  datatype Context = NoContext | SomeContext(context: string)

  /** A token proposed by a pattern, with the range it matched. */
  datatype Candidate = Candidate(token: Segment, start: nat, end: nat)

  /** A segment together with the range of the prompt it stands for. */
  datatype Tile = Tile(segment: Segment, lo: nat, hi: nat)

  ghost function SegmentsOf(tiles: seq<Tile>): seq<Segment> {
    seq(|tiles|, i requires 0 <= i < |tiles| => tiles[i].segment)
  }

  /** The tiles are nonempty and lie end to end from `lo` to `hi`. */
  ghost predicate Chain(tiles: seq<Tile>, lo: nat, hi: nat) {
    && (if tiles == [] then lo == hi else tiles[0].lo == lo && tiles[|tiles| - 1].hi == hi)
    && (forall i :: 0 <= i < |tiles| ==> tiles[i].lo < tiles[i].hi)
    && (forall i, j :: 0 <= i < |tiles| - 1 && j == i + 1 ==> tiles[i].hi == tiles[j].lo)
  }

  lemma ChainTail(tiles: seq<Tile>, lo: nat, hi: nat)
    requires Chain(tiles, lo, hi) && tiles != []
    ensures Chain(tiles[1..], tiles[0].hi, hi) && tiles[0].hi <= hi
    decreases |tiles|
  {
    if |tiles| > 1 {
      ChainTail(tiles[1..], tiles[0].hi, hi);
    }
  }

  /** What the tiles stand for, put together again. */
  function Pieces(text: string, tiles: seq<Tile>): string
    requires forall i :: 0 <= i < |tiles| ==> tiles[i].lo <= tiles[i].hi <= |text|
  {
    if tiles == [] then [] else text[tiles[0].lo..tiles[0].hi] + Pieces(text, tiles[1..])
  }

  lemma {:induction false} ChainBounds(tiles: seq<Tile>, lo: nat, hi: nat)
    requires Chain(tiles, lo, hi)
    ensures lo <= hi && forall i :: 0 <= i < |tiles| ==> lo <= tiles[i].lo && tiles[i].hi <= hi
    decreases |tiles|
  {
    if tiles != [] {
      ChainTail(tiles, lo, hi);
      ChainBounds(tiles[1..], tiles[0].hi, hi);
      forall i | 0 <= i < |tiles| ensures lo <= tiles[i].lo && tiles[i].hi <= hi {
        if i > 0 { assert tiles[i] == tiles[1..][i - 1]; }
      }
    }
  }

  /** Splitting loses nothing: the pieces of any chain of tiles make up the text they cover. */
  lemma {:induction false} SplitIsLossless(text: string, tiles: seq<Tile>, lo: nat, hi: nat)
    requires Chain(tiles, lo, hi) && hi <= |text|
    requires forall i :: 0 <= i < |tiles| ==> tiles[i].lo <= tiles[i].hi <= |text|
    ensures lo <= hi && Pieces(text, tiles) == text[lo..hi]
    decreases |tiles|
  {
    if tiles != [] {
      ChainTail(tiles, lo, hi);
      SplitIsLossless(text, tiles[1..], tiles[0].hi, hi);
      assert text[lo..tiles[0].hi] + text[tiles[0].hi..hi] == text[lo..hi];
    }
  }

  /* ---------- Collecting the candidates ---------- */

  ghost predicate ValidCandidate(text: string, c: Candidate) {
    !c.token.Text? && !c.token.TerminalContext? && c.start < c.end <= |text|
  }

  ghost predicate ValidCandidates(text: string, cs: seq<Candidate>) {
    forall i :: 0 <= i < |cs| ==> ValidCandidate(text, cs[i])
  }

  predicate StartLeq(a: Candidate, b: Candidate) {
    a.start <= b.start
  }

  ghost predicate SortedByStart(cs: seq<Candidate>) {
    SortedBy(cs, StartLeq)
  }

  predicate Covers(ranges: seq<Candidate>, pos: nat) {
    exists i :: 0 <= i < |ranges| && ranges[i].start <= pos < ranges[i].end
  }

  /** The candidates that do not begin inside one of the ranges. */
  function Uncovered(cs: seq<Candidate>, ranges: seq<Candidate>): seq<Candidate> {
    if cs == [] then []
    else (if Covers(ranges, cs[0].start) then [] else [cs[0]]) + Uncovered(cs[1..], ranges)
  }

  lemma {:induction false} UncoveredMembers(cs: seq<Candidate>, ranges: seq<Candidate>)
    ensures forall c :: c in Uncovered(cs, ranges) <==> c in cs && !Covers(ranges, c.start)
  {
    hide Covers;
    if cs != [] {
      UncoveredMembers(cs[1..], ranges);
      assert cs == [cs[0]] + cs[1..];
    }
  }

  ghost predicate Outside(c: Candidate, ranges: seq<Candidate>) {
    forall r :: r in ranges ==> c.start < r.start || r.end <= c.start
  }

  /** Outside every agent mention that is not itself inside a link. */
  ghost predicate OutsideAgents(c: Candidate, agents: seq<Candidate>, links: seq<Candidate>) {
    forall a :: a in agents && Outside(a, links) ==> c.start < a.start || a.end <= c.start
  }

  lemma OutsideIff(c: Candidate, ranges: seq<Candidate>)
    ensures Outside(c, ranges) <==> !Covers(ranges, c.start)
  {
    if Outside(c, ranges) {
      assert forall i :: 0 <= i < |ranges| ==> ranges[i] in ranges;
    }
  }

  lemma OutsideReservedIff(c: Candidate, links: seq<Candidate>, agents: seq<Candidate>)
    ensures Outside(c, links) && OutsideAgents(c, agents, links) <==> !Covers(Reserved(links, agents), c.start)
  {
    forall a: Candidate ensures Outside(a, links) <==> !Covers(links, a.start) { OutsideIff(a, links); }
    UncoveredMembers(agents, links);
    CoversConcat(links, Uncovered(agents, links), c.start);
    OutsideIff(c, Uncovered(agents, links));
    hide Covers, Uncovered;
  }

  /** Links come first, then the agent mentions outside links, then the mentions and skills outside both. */
  function Reserved(links: seq<Candidate>, agents: seq<Candidate>): seq<Candidate> {
    links + Uncovered(agents, links)
  }

  function Collected(links: seq<Candidate>, agents: seq<Candidate>, mentions: seq<Candidate>,
      skills: seq<Candidate>): seq<Candidate> {
    var reserved := Reserved(links, agents);
    reserved + Uncovered(mentions, reserved) + Uncovered(skills, reserved)
  }

  /** Each accepted candidate is listed once, in start order; candidates of one start keep the order of collection. */
  method CollectInlineTokenMatches(links: seq<Candidate>, agents: seq<Candidate>, mentions: seq<Candidate>,
      skills: seq<Candidate>)
      returns (matches: seq<Candidate>)
    ensures matches == SortBy(Collected(links, agents, mentions, skills), StartLeq)
    ensures SortedByStart(matches)
    ensures forall c :: c in matches <==>
      c in links || (c in agents && Outside(c, links))
        || ((c in mentions || c in skills) && Outside(c, links) && OutsideAgents(c, agents, links))
  {
    hide Covers, SortBy, Uncovered, Outside, OutsideAgents;
    var agentMentions := CollectAgentMentions(agents, links);
    UncoveredMembers(agents, links);
    UncoveredMembers(mentions, Reserved(links, agents));
    UncoveredMembers(skills, Reserved(links, agents));
    matches := links + agentMentions;
    matches := PushUncovered(matches, mentions, links, agentMentions);
    matches := PushUncovered(matches, skills, links, agentMentions);
    SortBySorted(matches, StartLeq);
    SortByMembers(matches, StartLeq);
    forall c: Candidate ensures Outside(c, links) <==> !Covers(links, c.start) { OutsideIff(c, links); }
    forall c: Candidate ensures
      Outside(c, links) && OutsideAgents(c, agents, links) <==> !Covers(Reserved(links, agents), c.start)
    {
      OutsideReservedIff(c, links, agents);
    }
    matches := SortBy(matches, StartLeq);
  }

  lemma UncoveredStep(agents: seq<Candidate>, i: nat, links: seq<Candidate>)
    requires i < |agents|
    ensures Uncovered(agents[i..], links)
      == (if Covers(links, agents[i].start) then [] else [agents[i]]) + Uncovered(agents[i + 1..], links)
  {
    hide Covers;
    assert agents[i..][1..] == agents[i + 1..];
  }

  lemma UncoveredAtEnds(agents: seq<Candidate>, links: seq<Candidate>)
    ensures Uncovered(agents[0..], links) == Uncovered(agents, links) && Uncovered(agents[|agents|..], links) == []
  {
    assert agents[0..] == agents;
  }

  method CollectAgentMentions(agents: seq<Candidate>, links: seq<Candidate>) returns (agentMentions: seq<Candidate>)
    ensures agentMentions == Uncovered(agents, links)
  {
    hide Covers, Uncovered;
    agentMentions := [];
    UncoveredAtEnds(agents, links);
    var i := 0;
    while i < |agents|
      invariant 0 <= i <= |agents|
      invariant Uncovered(agents, links) == agentMentions + Uncovered(agents[i..], links)
    {
      UncoveredStep(agents, i, links);
      if !Covers(links, agents[i].start) {
        agentMentions := agentMentions + [agents[i]];
      }
      i := i + 1;
    }
  }

  method PushUncovered(matches: seq<Candidate>, cs: seq<Candidate>, links: seq<Candidate>,
      agentMentions: seq<Candidate>)
      returns (r: seq<Candidate>)
    ensures r == matches + Uncovered(cs, links + agentMentions)
  {
    hide Covers, Uncovered;
    r := matches;
    ghost var all := links + agentMentions;
    UncoveredAtEnds(cs, all);
    for i := 0 to |cs|
      invariant matches + Uncovered(cs, all) == r + Uncovered(cs[i..], all)
    {
      UncoveredStep(cs, i, all);
      CoversConcat(links, agentMentions, cs[i].start);
      if !Covers(agentMentions, cs[i].start) && !Covers(links, cs[i].start) {
        r := r + [cs[i]];
      }
    }
  }

  lemma CoversConcat(a: seq<Candidate>, b: seq<Candidate>, pos: nat)
    ensures Covers(a + b, pos) <==> Covers(a, pos) || Covers(b, pos)
  {
    var all := a + b;
    assert forall i :: 0 <= i < |a| ==> all[i] == a[i];
    assert forall i :: 0 <= i < |b| ==> all[|a| + i] == b[i];
  }

  /* ---------- Splitting one piece of text ---------- */

  /** Left to right, each candidate that begins at or after the end of the last accepted one. */
  function Greedy(cs: seq<Candidate>, cursor: nat): seq<Candidate> {
    if cs == [] then []
    else if cs[0].start < cursor then Greedy(cs[1..], cursor)
    else [cs[0]] + Greedy(cs[1..], cs[0].end)
  }

  ghost function TokensOf(tiles: seq<Tile>): seq<Candidate> {
    if tiles == [] then []
    else
      var t := tiles[|tiles| - 1];
      TokensOf(tiles[..|tiles| - 1]) + if t.segment.Text? then [] else [Candidate(t.segment, t.lo, t.hi)]
  }

  ghost predicate TextIsRaw(text: string, tiles: seq<Tile>) {
    forall i :: 0 <= i < |tiles| && tiles[i].segment.Text? && tiles[i].lo <= tiles[i].hi <= |text| ==>
      tiles[i].segment.text == text[tiles[i].lo..tiles[i].hi]
  }

  ghost predicate NoAdjacentText(tiles: seq<Tile>) {
    forall i, j :: 0 <= i < |tiles| - 1 && j == i + 1 && tiles[i].segment.Text? ==> !tiles[j].segment.Text?
  }

  ghost predicate InsideToken(tiles: seq<Tile>, pos: nat) {
    exists i :: 0 <= i < |tiles| && !tiles[i].segment.Text? && tiles[i].lo <= pos < tiles[i].hi
  }

  /** Appends text, extending a text segment at the end. */
  function PushTextSegment(segments: seq<Segment>, text: string): seq<Segment> {
    if text == [] then segments
    else if segments != [] && segments[|segments| - 1].Text? then
      segments[..|segments| - 1] + [Text(segments[|segments| - 1].text + text)]
    else segments + [Text(text)]
  }

  ghost predicate EndsWithText(tiles: seq<Tile>) {
    tiles != [] && tiles[|tiles| - 1].segment.Text?
  }

  lemma AppendTile(text: string, tiles: seq<Tile>, t: Tile, lo: nat)
    requires Chain(tiles, lo, t.lo) && t.lo < t.hi <= |text| && TextIsRaw(text, tiles) && NoAdjacentText(tiles)
    requires t.segment.Text? ==> t.segment.text == text[t.lo..t.hi] && !EndsWithText(tiles)
    ensures Chain(tiles + [t], lo, t.hi) && TextIsRaw(text, tiles + [t]) && NoAdjacentText(tiles + [t])
    ensures SegmentsOf(tiles + [t]) == SegmentsOf(tiles) + [t.segment]
    ensures TokensOf(tiles + [t])
      == TokensOf(tiles) + if t.segment.Text? then [] else [Candidate(t.segment, t.lo, t.hi)]
    ensures forall pos: nat :: InsideToken(tiles, pos) ==> InsideToken(tiles + [t], pos)
    ensures !t.segment.Text? ==> forall pos: nat :: t.lo <= pos < t.hi ==> InsideToken(tiles + [t], pos)
  {
    var all := tiles + [t];
    assert all[..|tiles|] == tiles && all[|tiles|] == t;
    forall pos: nat | InsideToken(tiles, pos) ensures InsideToken(all, pos) {
      var i :| 0 <= i < |tiles| && !tiles[i].segment.Text? && tiles[i].lo <= pos < tiles[i].hi;
      assert all[i] == tiles[i];
    }
  }

  /** The state of the split after `k` candidates: the tiles cover the text up to `cursor`. */
  ghost predicate Splitting(text: string, matches: seq<Candidate>, k: nat, cursor: nat, tiles: seq<Tile>) {
    && k <= |matches| && cursor <= |text|
    && Chain(tiles, 0, cursor) && TextIsRaw(text, tiles) && NoAdjacentText(tiles) && !EndsWithText(tiles)
    && Greedy(matches, 0) == TokensOf(tiles) + Greedy(matches[k..], cursor)
    && (forall j :: 0 <= j < k ==> InsideToken(tiles, matches[j].start))
    && (cursor > 0 ==> LastIsAccepted(matches, k, cursor, tiles))
    && NoTerminals(tiles)
  }

  ghost predicate NoTerminals(tiles: seq<Tile>) {
    forall i :: 0 <= i < |tiles| ==> !tiles[i].segment.TerminalContext?
  }

  ghost predicate LastIsAccepted(matches: seq<Candidate>, k: nat, cursor: nat, tiles: seq<Tile>)
    requires k <= |matches|
  {
    tiles != [] && exists j :: 0 <= j < k && tiles[|tiles| - 1] == Tile(matches[j].token, matches[j].start, cursor)
  }

  /** In sorted order a candidate that begins before the cursor begins inside the last accepted token. */
  lemma SkipStep(text: string, matches: seq<Candidate>, k: nat, cursor: nat, tiles: seq<Tile>)
    requires ValidCandidates(text, matches) && SortedByStart(matches) && Splitting(text, matches, k, cursor, tiles)
    requires k < |matches| && matches[k].start < cursor
    ensures Splitting(text, matches, k + 1, cursor, tiles)
  {
    hide Chain, TextIsRaw, NoAdjacentText;
    assert matches[k..][1..] == matches[k + 1..];
    var j :| 0 <= j < k && tiles[|tiles| - 1] == Tile(matches[j].token, matches[j].start, cursor);
    assert ValidCandidate(text, matches[j]);
    assert InsideToken(tiles, matches[k].start);
  }

  function TextTile(text: string, lo: nat, hi: nat): seq<Tile>
    requires lo <= hi <= |text|
  {
    if lo < hi then [Tile(Text(text[lo..hi]), lo, hi)] else []
  }

  lemma AppendText(text: string, tiles: seq<Tile>, lo: nat, hi: nat)
    requires lo <= hi <= |text| && Chain(tiles, 0, lo) && TextIsRaw(text, tiles) && NoAdjacentText(tiles)
      && !EndsWithText(tiles)
    ensures
      var all := tiles + TextTile(text, lo, hi);
      Chain(all, 0, hi) && TextIsRaw(text, all) && NoAdjacentText(all) && TokensOf(all) == TokensOf(tiles)
      && (forall pos: nat :: InsideToken(tiles, pos) ==> InsideToken(all, pos))
  {
    hide Chain, TextIsRaw, NoAdjacentText, InsideToken, TokensOf;
    assert tiles + [] == tiles;
    if lo < hi { AppendTile(text, tiles, TextTile(text, lo, hi)[0], 0); }
  }

  lemma AcceptStep(text: string, matches: seq<Candidate>, k: nat, cursor: nat, tiles: seq<Tile>)
    requires ValidCandidates(text, matches) && Splitting(text, matches, k, cursor, tiles)
    requires k < |matches| && cursor <= matches[k].start
    ensures
      var m := matches[k];
      Splitting(text, matches, k + 1, m.end, tiles + TextTile(text, cursor, m.start) + [Tile(m.token, m.start, m.end)])
  {
    hide Chain, TextIsRaw, NoAdjacentText, InsideToken, TokensOf;
    var m := matches[k];
    assert ValidCandidate(text, m) && matches[k..][1..] == matches[k + 1..];
    AppendText(text, tiles, cursor, m.start);
    var middle := tiles + TextTile(text, cursor, m.start);
    AppendTile(text, middle, Tile(m.token, m.start, m.end), 0);
    assert Candidate(m.token, m.start, m.end) == m;
    assert TokensOf(tiles) + [m] + Greedy(matches[k + 1..], m.end)
      == TokensOf(tiles) + ([m] + Greedy(matches[k + 1..], m.end));
    assert InsideToken(middle + [Tile(m.token, m.start, m.end)], m.start);
  }

  /**
   The segments are those of tiles that cover the text: raw text and the greedily accepted
   candidates, no two texts side by side, and every candidate beginning inside an accepted one.
   */
  ghost predicate IsTextSplit(text: string, matches: seq<Candidate>, segments: seq<Segment>, tiles: seq<Tile>) {
    && segments == SegmentsOf(tiles) && Chain(tiles, 0, |text|)
    && TextIsRaw(text, tiles) && NoAdjacentText(tiles) && NoTerminals(tiles)
    && TokensOf(tiles) == Greedy(matches, 0)
    && forall c :: c in matches ==> InsideToken(tiles, c.start)
  }

  method SplitTextIntoPromptSegments(text: string, matches: seq<Candidate>) returns (segments: seq<Segment>)
    requires ValidCandidates(text, matches) && SortedByStart(matches)
    ensures exists tiles :: IsTextSplit(text, matches, segments, tiles)
  {
    hide Splitting, SortedByStart, ValidCandidates, SegmentsOf, PushTextSegment, EndsWithText, TextTile, IsTextSplit;
    segments := [];
    ghost var tiles: seq<Tile> := [];
    var cursor := 0;
    var k := 0;
    SplitStart(text, matches);
    while k < |matches|
      invariant 0 <= k <= |matches| && 0 <= cursor <= |text|
      invariant Splitting(text, matches, k, cursor, tiles) && segments == SegmentsOf(tiles)
    {
      var m := matches[k];
      if m.start < cursor {
        SkipStep(text, matches, k, cursor, tiles);
      } else {
        AcceptStep(text, matches, k, cursor, tiles);
        SplitBounds(text, matches, k, cursor, tiles);
        PushedText(text, tiles, cursor, m.start);
        PushedToken(tiles + TextTile(text, cursor, m.start), Tile(m.token, m.start, m.end));
        if m.start > cursor {
          segments := PushTextSegment(segments, text[cursor..m.start]);
        }
        segments := segments + [m.token];
        tiles := tiles + TextTile(text, cursor, m.start) + [Tile(m.token, m.start, m.end)];
        cursor := m.end;
      }
      k := k + 1;
    }
    SplitEnd(text, matches, cursor, tiles);
    PushedText(text, tiles, cursor, |text|);
    if cursor < |text| {
      assert text[cursor..] == text[cursor..|text|];
      segments := PushTextSegment(segments, text[cursor..]);
    }
  }

  lemma PushedText(text: string, tiles: seq<Tile>, lo: nat, hi: nat)
    requires lo <= hi <= |text| && !EndsWithText(tiles)
    ensures SegmentsOf(tiles + TextTile(text, lo, hi))
      == if lo < hi then PushTextSegment(SegmentsOf(tiles), text[lo..hi]) else SegmentsOf(tiles)
  {
    assert tiles + [] == tiles;
  }

  lemma PushedToken(tiles: seq<Tile>, t: Tile)
    ensures SegmentsOf(tiles + [t]) == SegmentsOf(tiles) + [t.segment]
  {
  }

  lemma SplitStart(text: string, matches: seq<Candidate>)
    ensures Splitting(text, matches, 0, 0, []) && SegmentsOf([]) == []
  {
    assert matches[0..] == matches;
  }

  lemma SplitBounds(text: string, matches: seq<Candidate>, k: nat, cursor: nat, tiles: seq<Tile>)
    requires ValidCandidates(text, matches) && Splitting(text, matches, k, cursor, tiles) && k < |matches|
    ensures matches[k].start < matches[k].end <= |text| && !EndsWithText(tiles)
  {
    assert ValidCandidate(text, matches[k]);
  }

  lemma SplitEnd(text: string, matches: seq<Candidate>, cursor: nat, tiles: seq<Tile>)
    requires Splitting(text, matches, |matches|, cursor, tiles)
    ensures !EndsWithText(tiles)
    ensures var all := tiles + TextTile(text, cursor, |text|); IsTextSplit(text, matches, SegmentsOf(all), all)
  {
    hide Chain, TextIsRaw, NoAdjacentText, InsideToken, TokensOf;
    AppendText(text, tiles, cursor, |text|);
    assert matches[|matches|..] == [];
    assert TokensOf(tiles) + [] == TokensOf(tiles);
  }

  /* ---------- Splitting the whole prompt at its placeholders ---------- */

  function Placeholders(text: string): nat {
    if text == [] then 0 else Placeholders(text[..|text| - 1]) + if text[|text| - 1] == PLACEHOLDER then 1 else 0
  }

  function ContextAt(contexts: seq<string>, index: nat): Context {
    if index < |contexts| then SomeContext(contexts[index]) else NoContext
  }

  /** What a tile of the whole prompt stands for: raw text, one placeholder with its context, or a token. */
  ghost predicate TileOk(prompt: string, contexts: seq<string>, t: Tile) {
    && t.lo < t.hi <= |prompt|
    && match t.segment
       case Text(text) => text == prompt[t.lo..t.hi] && PLACEHOLDER !in text
       case TerminalContext(context) =>
         t.hi == t.lo + 1 && prompt[t.lo] == PLACEHOLDER && context == ContextAt(contexts, Placeholders(prompt[..t.lo]))
       case _ => PLACEHOLDER !in prompt[t.lo..t.hi]
  }

  ghost predicate TilesOk(prompt: string, contexts: seq<string>, tiles: seq<Tile>) {
    forall i :: 0 <= i < |tiles| ==> TileOk(prompt, contexts, tiles[i])
  }

  ghost function Shift(tiles: seq<Tile>, d: nat): seq<Tile> {
    seq(|tiles|, i requires 0 <= i < |tiles| => Tile(tiles[i].segment, tiles[i].lo + d, tiles[i].hi + d))
  }

  /** The state in front of `cursor`, where a placeholder has just been passed or the prompt begins. */
  ghost predicate Covered(prompt: string, contexts: seq<string>, cursor: nat, tiles: seq<Tile>) {
    && cursor <= |prompt| && Chain(tiles, 0, cursor) && NoAdjacentText(tiles) && TilesOk(prompt, contexts, tiles)
  }

  lemma AppendPiece(prompt: string, contexts: seq<string>, cursor: nat, index: nat, tiles: seq<Tile>, piece: seq<Tile>)
    requires Covered(prompt, contexts, cursor, tiles) && !EndsWithText(tiles) && cursor <= index <= |prompt|
    requires PLACEHOLDER !in prompt[cursor..index]
    requires Chain(piece, 0, index - cursor) && TextIsRaw(prompt[cursor..index], piece) && NoAdjacentText(piece)
      && NoTerminals(piece)
    ensures Covered(prompt, contexts, index, tiles + Shift(piece, cursor))
    ensures SegmentsOf(tiles + Shift(piece, cursor)) == SegmentsOf(tiles) + SegmentsOf(piece)
  {
    hide TileOk, EndsWithText;
    var shifted := Shift(piece, cursor);
    ShiftedOk(prompt, contexts, cursor, index, piece);
    assert forall i :: 0 <= i < |shifted| ==> shifted[i].segment == piece[i].segment;
    JoinChains(tiles, shifted, cursor, index);
    JoinNoAdjacent(tiles, shifted);
  }

  lemma JoinNoAdjacent(a: seq<Tile>, b: seq<Tile>)
    requires NoAdjacentText(a) && NoAdjacentText(b) && !EndsWithText(a)
    ensures NoAdjacentText(a + b)
  {
  }

  lemma JoinChains(a: seq<Tile>, b: seq<Tile>, middle: nat, hi: nat)
    requires Chain(a, 0, middle) && Chain(b, middle, hi)
    ensures Chain(a + b, 0, hi)
  {
    if a == [] { assert a + b == b; }
    if b == [] { assert a + b == a; }
  }

  lemma ShiftedOk(prompt: string, contexts: seq<string>, cursor: nat, index: nat, piece: seq<Tile>)
    requires cursor <= index <= |prompt| && PLACEHOLDER !in prompt[cursor..index]
    requires Chain(piece, 0, index - cursor) && TextIsRaw(prompt[cursor..index], piece) && NoAdjacentText(piece)
      && NoTerminals(piece)
    ensures TilesOk(prompt, contexts, Shift(piece, cursor)) && Chain(Shift(piece, cursor), cursor, index)
    ensures NoAdjacentText(Shift(piece, cursor))
  {
    var shifted := Shift(piece, cursor);
    ChainBounds(piece, 0, index - cursor);
    forall i | 0 <= i < |piece| ensures TileOk(prompt, contexts, shifted[i]) {
      ShiftedTileOk(prompt, contexts, cursor, index, piece, i);
    }
  }

  lemma ShiftedTileOk(prompt: string, contexts: seq<string>, cursor: nat, index: nat, piece: seq<Tile>, i: nat)
    requires cursor <= index <= |prompt| && PLACEHOLDER !in prompt[cursor..index] && i < |piece|
    requires piece[i].lo < piece[i].hi <= index - cursor && !piece[i].segment.TerminalContext?
    requires TextIsRaw(prompt[cursor..index], piece)
    ensures TileOk(prompt, contexts, Tile(piece[i].segment, piece[i].lo + cursor, piece[i].hi + cursor))
  {
    var t, text := piece[i], prompt[cursor..index];
    assert text[t.lo..t.hi] == prompt[t.lo + cursor..t.hi + cursor];
    forall c | c in text[t.lo..t.hi] ensures c in text {
    }
  }

  lemma AppendTerminal(prompt: string, contexts: seq<string>, index: nat, tiles: seq<Tile>, context: Context)
    requires Covered(prompt, contexts, index, tiles) && index < |prompt| && prompt[index] == PLACEHOLDER
    requires context == ContextAt(contexts, Placeholders(prompt[..index]))
    ensures
      var all := tiles + [Tile(TerminalContext(context), index, index + 1)];
      Covered(prompt, contexts, index + 1, all) && !EndsWithText(all)
      && SegmentsOf(all) == SegmentsOf(tiles) + [TerminalContext(context)]
  {
  }

  /* ---------- The tokens of each piece between placeholders ---------- */

  /** A maximal stretch without a placeholder. */
  ghost predicate IsPiece(prompt: string, lo: nat, hi: nat) {
    && lo < hi <= |prompt| && PLACEHOLDER !in prompt[lo..hi]
    && (lo == 0 || prompt[lo - 1] == PLACEHOLDER) && (hi == |prompt| || prompt[hi] == PLACEHOLDER)
  }

  /** The tokens that begin in the range, other than terminal contexts. */
  ghost function TokensIn(tiles: seq<Tile>, lo: nat, hi: nat): seq<Candidate> {
    if tiles == [] then []
    else
      var t := tiles[|tiles| - 1];
      TokensIn(tiles[..|tiles| - 1], lo, hi)
      + if !t.segment.Text? && !t.segment.TerminalContext? && lo <= t.lo < hi then [Candidate(t.segment, t.lo, t.hi)]
        else []
  }

  ghost function Moved(cs: seq<Candidate>, d: nat): seq<Candidate> {
    if cs == [] then []
    else
      var c := cs[|cs| - 1];
      Moved(cs[..|cs| - 1], d) + [Candidate(c.token, c.start + d, c.end + d)]
  }

  /** In each piece that ends by `cursor`, the tokens are those chosen greedily from its own candidates. */
  ghost predicate PiecesAreGreedy(prompt: string, matcher: string -> seq<Candidate>, tiles: seq<Tile>, cursor: nat) {
    forall lo: nat, hi: nat :: IsPiece(prompt, lo, hi) && hi <= cursor ==>
      TokensIn(tiles, lo, hi) == Moved(Greedy(matcher(prompt[lo..hi]), 0), lo)
  }

  lemma {:induction false} TokensInConcat(a: seq<Tile>, b: seq<Tile>, lo: nat, hi: nat)
    ensures TokensIn(a + b, lo, hi) == TokensIn(a, lo, hi) + TokensIn(b, lo, hi)
  {
    if b == [] {
      assert a + b == a;
    } else {
      var k := |b| - 1;
      TokensInConcat(a, b[..k], lo, hi);
      assert (a + b)[..|a| + k] == a + b[..k] && (a + b)[|a| + k] == b[k];
    }
  }

  lemma {:induction false} NoTokensOutside(tiles: seq<Tile>, lo: nat, hi: nat)
    requires forall i :: 0 <= i < |tiles| ==> tiles[i].lo < lo || hi <= tiles[i].lo
    ensures TokensIn(tiles, lo, hi) == []
  {
    if tiles != [] { NoTokensOutside(tiles[..|tiles| - 1], lo, hi); }
  }

  lemma {:induction false} ShiftedTokens(piece: seq<Tile>, lo: nat, hi: nat)
    requires NoTerminals(piece) && lo <= hi && forall i :: 0 <= i < |piece| ==> piece[i].lo < hi - lo
    ensures TokensIn(Shift(piece, lo), lo, hi) == Moved(TokensOf(piece), lo)
  {
    if piece != [] {
      var k := |piece| - 1;
      var t, before := piece[k], TokensOf(piece[..k]);
      ShiftedTokens(piece[..k], lo, hi);
      assert Shift(piece, lo)[..k] == Shift(piece[..k], lo);
      assert (before + [Candidate(t.segment, t.lo, t.hi)])[..|before|] == before;
      assert before + [] == before;
    }
  }

  lemma PieceTokens(prompt: string, matcher: string -> seq<Candidate>, tiles: seq<Tile>, cursor: nat, index: nat,
      piece: seq<Tile>)
    requires cursor < index <= |prompt| && Chain(tiles, 0, cursor) && Chain(piece, 0, index - cursor)
      && NoTerminals(piece)
    requires PLACEHOLDER !in prompt[cursor..index] && (cursor == 0 || prompt[cursor - 1] == PLACEHOLDER)
    requires TokensOf(piece) == Greedy(matcher(prompt[cursor..index]), 0)
    requires PiecesAreGreedy(prompt, matcher, tiles, cursor)
    ensures PiecesAreGreedy(prompt, matcher, tiles + Shift(piece, cursor), index)
  {
    var shifted := Shift(piece, cursor);
    ChainBounds(tiles, 0, cursor);
    ChainBounds(piece, 0, index - cursor);
    ShiftedBounds(piece, cursor, index);
    hide Chain, Greedy, Moved, TokensIn, TokensOf, IsPiece, Shift, NoTerminals;
    forall lo: nat, hi: nat | IsPiece(prompt, lo, hi) && hi <= index
      ensures TokensIn(tiles + shifted, lo, hi) == Moved(Greedy(matcher(prompt[lo..hi]), 0), lo)
    {
      TokensInConcat(tiles, shifted, lo, hi);
      if hi <= cursor {
        NoTokensOutside(shifted, lo, hi);
        assert TokensIn(tiles, lo, hi) + [] == TokensIn(tiles, lo, hi);
      } else {
        SamePiece(prompt, lo, hi, cursor, index);
        NoTokensOutside(tiles, lo, hi);
        ShiftedTokens(piece, lo, hi);
      }
    }
  }

  lemma ShiftedBounds(piece: seq<Tile>, cursor: nat, index: nat)
    requires cursor <= index && forall i :: 0 <= i < |piece| ==> piece[i].lo < piece[i].hi <= index - cursor
    ensures forall i :: 0 <= i < |Shift(piece, cursor)| ==> cursor <= Shift(piece, cursor)[i].lo < index
    ensures forall i :: 0 <= i < |piece| ==> piece[i].lo < index - cursor
  {
  }

  lemma SamePiece(prompt: string, lo: nat, hi: nat, cursor: nat, index: nat)
    requires IsPiece(prompt, lo, hi) && cursor < hi <= index <= |prompt|
    requires PLACEHOLDER !in prompt[cursor..index] && (cursor == 0 || prompt[cursor - 1] == PLACEHOLDER)
    ensures lo == cursor && hi == index
  {
    assert forall k :: cursor <= k < index ==> prompt[k] == prompt[cursor..index][k - cursor];
    assert forall k :: lo <= k < hi ==> prompt[k] == prompt[lo..hi][k - lo];
  }

  lemma StretchMeets(prompt: string, lo: nat, hi: nat, index: nat)
    requires lo <= index < hi <= |prompt|
    ensures prompt[index] in prompt[lo..hi]
  {
    assert prompt[lo..hi][index - lo] == prompt[index];
  }

  lemma PlaceholderTokens(prompt: string, matcher: string -> seq<Candidate>, tiles: seq<Tile>, index: nat, t: Tile)
    requires index < |prompt| && prompt[index] == PLACEHOLDER && t.segment.TerminalContext?
    requires PiecesAreGreedy(prompt, matcher, tiles, index)
    ensures PiecesAreGreedy(prompt, matcher, tiles + [t], index + 1)
  {
    forall lo: nat, hi: nat | IsPiece(prompt, lo, hi) && hi <= index + 1
      ensures TokensIn(tiles + [t], lo, hi) == Moved(Greedy(matcher(prompt[lo..hi]), 0), lo)
    {
      if hi > index { StretchMeets(prompt, lo, hi, index); }
      hide Greedy, Moved;
      assert (tiles + [t])[..|tiles|] == tiles;
    }
  }

  /**
   What the whole split is: tiles over the prompt, each as it should be, with the tokens of each piece chosen
   greedily.
   */
  ghost predicate IsPromptSplit(prompt: string, contexts: seq<string>, matcher: string -> seq<Candidate>,
      segments: seq<Segment>, tiles: seq<Tile>) {
    && segments == SegmentsOf(tiles) && Chain(tiles, 0, |prompt|)
    && NoAdjacentText(tiles) && TilesOk(prompt, contexts, tiles)
    && PiecesAreGreedy(prompt, matcher, tiles, |prompt|)
  }

  /** The composer's split. `matcher` stands for the collected candidates of a piece of text. */
  method SplitPromptIntoComposerSegments(prompt: string, terminalContexts: seq<string>,
      matcher: string -> seq<Candidate>) returns (segments: seq<Segment>)
    requires forall text :: ValidCandidates(text, matcher(text)) && SortedByStart(matcher(text))
    ensures exists tiles :: IsPromptSplit(prompt, terminalContexts, matcher, segments, tiles)
  {
    hide Covered, Chain, NoAdjacentText, TilesOk, TextIsRaw, NoTerminals, InsideToken, TokensOf, SegmentsOf,
      ValidCandidates, SortedByStart, EndsWithText, PiecesAreGreedy;
    segments := [];
    ghost var tiles: seq<Tile> := [];
    CoveredStart(prompt, terminalContexts, matcher);
    var textCursor, terminalContextIndex := 0, 0;
    var index := 0;
    while index < |prompt|
      invariant 0 <= textCursor <= index <= |prompt|
      invariant Covered(prompt, terminalContexts, textCursor, tiles) && !EndsWithText(tiles)
      invariant PiecesAreGreedy(prompt, matcher, tiles, textCursor)
      invariant segments == SegmentsOf(tiles)
      invariant PLACEHOLDER !in prompt[textCursor..index] && (textCursor == 0 || prompt[textCursor - 1] == PLACEHOLDER)
      invariant terminalContextIndex == Placeholders(prompt[..index])
    {
      assert prompt[..index + 1] == prompt[..index] + [prompt[index]];
      assert prompt[textCursor..index + 1] == prompt[textCursor..index] + [prompt[index]];
      if prompt[index] == PLACEHOLDER {
        if index > textCursor {
          var piece := SplitTextIntoPromptSegments(prompt[textCursor..index], matcher(prompt[textCursor..index]));
          tiles := AppendSplit(prompt, terminalContexts, matcher, textCursor, index, tiles, piece);
          segments := segments + piece;
        }
        var context := ContextAt(terminalContexts, terminalContextIndex);
        AppendTerminal(prompt, terminalContexts, index, tiles, context);
        PlaceholderTokens(prompt, matcher, tiles, index, Tile(TerminalContext(context), index, index + 1));
        segments, tiles := segments + [TerminalContext(context)],
          tiles + [Tile(TerminalContext(context), index, index + 1)];
        terminalContextIndex := terminalContextIndex + 1;
        textCursor := index + 1;
      }
      index := index + 1;
    }
    if textCursor < |prompt| {
      assert prompt[textCursor..] == prompt[textCursor..index];
      var piece := SplitTextIntoPromptSegments(prompt[textCursor..], matcher(prompt[textCursor..]));
      tiles := AppendSplit(prompt, terminalContexts, matcher, textCursor, index, tiles, piece);
      segments := segments + piece;
    }
    CoveredEnd(prompt, terminalContexts, tiles);
    assert IsPromptSplit(prompt, terminalContexts, matcher, segments, tiles);
  }

  lemma AppendSplit(prompt: string, contexts: seq<string>, matcher: string -> seq<Candidate>, cursor: nat, index: nat,
      tiles: seq<Tile>, segments: seq<Segment>)
      returns (all: seq<Tile>)
    requires Covered(prompt, contexts, cursor, tiles) && !EndsWithText(tiles) && cursor < index <= |prompt|
    requires PLACEHOLDER !in prompt[cursor..index] && (cursor == 0 || prompt[cursor - 1] == PLACEHOLDER)
    requires PiecesAreGreedy(prompt, matcher, tiles, cursor)
    requires exists piece :: IsTextSplit(prompt[cursor..index], matcher(prompt[cursor..index]), segments, piece)
    ensures Covered(prompt, contexts, index, all) && SegmentsOf(all) == SegmentsOf(tiles) + segments
    ensures PiecesAreGreedy(prompt, matcher, all, index)
  {
    hide Chain, NoAdjacentText, TilesOk, TextIsRaw, NoTerminals, InsideToken, TokensOf, SegmentsOf, EndsWithText,
      PiecesAreGreedy;
    var piece :| IsTextSplit(prompt[cursor..index], matcher(prompt[cursor..index]), segments, piece);
    AppendPiece(prompt, contexts, cursor, index, tiles, piece);
    PieceTokens(prompt, matcher, tiles, cursor, index, piece);
    all := tiles + Shift(piece, cursor);
  }

  lemma CoveredStart(prompt: string, contexts: seq<string>, matcher: string -> seq<Candidate>)
    ensures Covered(prompt, contexts, 0, []) && !EndsWithText([]) && SegmentsOf([]) == []
    ensures PiecesAreGreedy(prompt, matcher, [], 0)
  {
  }

  lemma CoveredEnd(prompt: string, contexts: seq<string>, tiles: seq<Tile>)
    requires Covered(prompt, contexts, |prompt|, tiles)
    ensures Chain(tiles, 0, |prompt|) && NoAdjacentText(tiles) && TilesOk(prompt, contexts, tiles)
  {
  }

  lemma {:induction false} ChainHit(tiles: seq<Tile>, lo: nat, hi: nat, k: nat) returns (i: nat)
    requires Chain(tiles, lo, hi) && lo <= k < hi
    ensures i < |tiles| && tiles[i].lo <= k < tiles[i].hi
    decreases |tiles|
  {
    if k < tiles[0].hi {
      i := 0;
    } else {
      ChainTail(tiles, lo, hi);
      i := ChainHit(tiles[1..], tiles[0].hi, hi, k);
      i := i + 1;
    }
  }

  /** Placeholders and terminal-context segments correspond one to one, in order, each with its own context. */
  lemma PlaceholdersAreTerminalContexts(prompt: string, contexts: seq<string>, tiles: seq<Tile>, k: nat)
    requires Chain(tiles, 0, |prompt|) && TilesOk(prompt, contexts, tiles) && k < |prompt|
    ensures prompt[k] == PLACEHOLDER <==>
      Tile(TerminalContext(ContextAt(contexts, Placeholders(prompt[..k]))), k, k + 1) in tiles
  {
    var i := ChainHit(tiles, 0, |prompt|, k);
    var t := tiles[i];
    assert TileOk(prompt, contexts, t);
    if prompt[k] == PLACEHOLDER {
      assert prompt[t.lo..t.hi][k - t.lo] == PLACEHOLDER;
    }
    if Tile(TerminalContext(ContextAt(contexts, Placeholders(prompt[..k]))), k, k + 1) in tiles {
      var j :| 0 <= j < |tiles|
        && tiles[j] == Tile(TerminalContext(ContextAt(contexts, Placeholders(prompt[..k]))), k, k + 1);
      assert TileOk(prompt, contexts, tiles[j]);
    }
  }
}
