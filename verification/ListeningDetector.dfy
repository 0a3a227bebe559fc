/**
 The detector that waits for the server's "Listening on" line in a stream of log chunks. It keeps
 a bounded tail of the stream; the specification keeps the whole stream.
 */
module ListeningDetector {
  import opened Sorting

  const FRAGMENT := "Listening on http://"
  const MAX_BUFFER_CHARS: nat := 8_192

  predicate Contains(s: string, f: string) {
    exists i :: 0 <= i <= |s| && OccursAt(s, f, i)
  }

  predicate OccursAt(s: string, f: string, i: nat) {
    i + |f| <= |s| && s[i..i + |f|] == f
  }

  function StripOne(c: char): string {
    if c == '\r' then [] else [c]
  }

  function StripCarriageReturns(s: string): (r: string)
    ensures '\r' !in r
  {
    if s == [] then []
    else StripOne(s[0]) + StripCarriageReturns(s[1..])
  }

  function Tail(s: string): string {
    if |s| > MAX_BUFFER_CHARS then s[|s| - MAX_BUFFER_CHARS..] else s
  }

  datatype Outcome = Pending | Resolved | Rejected(error: string)

  /* ---------- The specification: search the whole stream ---------- */

  datatype Watch = Watch(stream: string, outcome: Outcome)

  function Pushed(w: Watch, chunk: string): Watch {
    var stream := w.stream + StripCarriageReturns(chunk);
    Watch(stream, if w.outcome.Pending? && Contains(stream, FRAGMENT) then Resolved else w.outcome)
  }

  function Failed(w: Watch, error: string): Watch {
    Watch(w.stream, if w.outcome.Pending? then Rejected(error) else w.outcome)
  }

  class ServerListeningDetector {
    var buffer: string
    var settled: bool
    var outcome: Outcome
    /** Everything pushed so far, without carriage returns. */
    ghost var stream: string

    constructor ()
      ensures Valid() && View() == Watch([], Pending)
    {
      buffer, settled, outcome, stream := [], false, Pending, [];
    }

    ghost function View(): Watch
      reads this
    {
      Watch(stream, outcome)
    }

    ghost predicate Valid()
      reads this
    {
      && (settled <==> !outcome.Pending?)
      && (!settled ==> |buffer| <= MAX_BUFFER_CHARS && buffer == Tail(stream) && !Contains(stream, FRAGMENT))
    }

    method Resolve()
      modifies this`settled, this`outcome
      ensures outcome == if old(settled) then old(outcome) else Resolved
      ensures settled
    {
      if settled { return; }
      settled := true;
      outcome := Resolved;
    }

    /** The bounded buffer decides exactly as a search of the whole stream would. */
    method Push(chunk: string)
      requires Valid()
      modifies this
      ensures Valid() && View() == Pushed(old(View()), chunk)
    {
      ghost var before := stream;
      stream := stream + StripCarriageReturns(chunk);
      if settled { return; }
      TailSuffices(before, StripCarriageReturns(chunk));
      buffer := buffer + StripCarriageReturns(chunk);
      if Contains(buffer, FRAGMENT) {
        Resolve();
        return;
      }
      TailOfTail(before, StripCarriageReturns(chunk));
      if |buffer| > MAX_BUFFER_CHARS {
        buffer := buffer[|buffer| - MAX_BUFFER_CHARS..];
      }
    }

    method Fail(error: string)
      requires Valid()
      modifies this`settled, this`outcome
      ensures Valid() && View() == Failed(old(View()), error)
    {
      if settled { return; }
      settled := true;
      outcome := Rejected(error);
    }
  }

  lemma OccursInSuffix(s: string, k: nat, f: string)
    requires k <= |s| && Contains(s[k..], f)
    ensures Contains(s, f)
  {
    var i :| 0 <= i <= |s[k..]| && OccursAt(s[k..], f, i);
    assert s[k..][i..i + |f|] == s[k + i..k + i + |f|];
    assert OccursAt(s, f, k + i);
  }

  lemma SuffixSuffices(s: string, k: nat, t: string, f: string)
    requires !Contains(s, f) && k <= |s| && (k == 0 || |f| <= |s| - k)
    ensures Contains(s + t, f) <==> Contains(s[k..] + t, f)
  {
    assert (s + t)[k..] == s[k..] + t;
    if Contains(s[k..] + t, f) {
      OccursInSuffix(s + t, k, f);
    }
    if Contains(s + t, f) {
      var i :| 0 <= i <= |s + t| && OccursAt(s + t, f, i);
      if i + |f| <= |s| {
        assert s[i..i + |f|] == (s + t)[i..i + |f|];
        assert OccursAt(s, f, i);
      }
      assert i >= k;
      assert (s + t)[k..][i - k..i - k + |f|] == (s + t)[i..i + |f|];
      assert OccursAt(s[k..] + t, f, i - k);
    }
  }

  /** Dropping the oldest text cannot hide a fragment that the new text completes. */
  lemma TailSuffices(s: string, t: string)
    requires !Contains(s, FRAGMENT)
    ensures Contains(s + t, FRAGMENT) <==> Contains(Tail(s) + t, FRAGMENT)
  {
    var k := |s| - |Tail(s)|;
    assert Tail(s) == s[k..] && |FRAGMENT| == 20 <= MAX_BUFFER_CHARS;
    hide Contains;
    SuffixSuffices(s, k, t, FRAGMENT);
  }

  lemma TailOfTail(s: string, t: string)
    ensures Tail(Tail(s) + t) == Tail(s + t)
  {
  }

  /* ---------- Whole runs ---------- */

  datatype Event = Push(chunk: string) | Fail(error: string)

  function Apply(w: Watch, e: Event): Watch {
    match e
    case Push(chunk) => Pushed(w, chunk)
    case Fail(error) => Failed(w, error)
  }

  function Run(events: seq<Event>): Watch {
    if events == [] then Watch([], Pending) else Apply(Run(events[..|events| - 1]), events[|events| - 1])
  }

  function Text(events: seq<Event>): string {
    if events == [] then []
    else
      var e := events[|events| - 1];
      Text(events[..|events| - 1]) + if e.Push? then e.chunk else []
  }

  ghost predicate NoFail(events: seq<Event>) {
    forall i :: 0 <= i < |events| ==> !events[i].Fail?
  }

  lemma StripStep(s: string)
    requires s != []
    ensures StripCarriageReturns(s) == StripOne(s[0]) + StripCarriageReturns(s[1..])
  {
  }

  lemma {:induction false} StripAppend(a: string, b: string)
    ensures StripCarriageReturns(a + b) == StripCarriageReturns(a) + StripCarriageReturns(b)
  {
    hide StripCarriageReturns, StripOne;
    if a == [] {
      NothingToStrip(b);
    } else {
      StripAppend(a[1..], b);
      StripStep(a);
      StripStep(a + b);
      assert (a + b)[0] == a[0];
      assert (a + b)[1..] == a[1..] + b;
      Associative(StripOne(a[0]), StripCarriageReturns(a[1..]), StripCarriageReturns(b));
    }
  }

  lemma NothingToStrip(b: string)
    ensures [] + b == b && StripCarriageReturns([]) + StripCarriageReturns(b) == StripCarriageReturns(b)
  {
    hide StripOne;
  }

  /** Text without carriage returns is kept as it is. */
  lemma {:induction false} CleanTextIsKept(s: string)
    requires '\r' !in s
    ensures StripCarriageReturns(s) == s
  {
    if s != [] {
      CleanTextIsKept(s[1..]);
      assert s == [s[0]] + s[1..];
    }
  }

  /** A carriage return between two texts goes, and nothing else. */
  lemma OnlyReturnsAreStripped(a: string, b: string)
    requires '\r' !in a
    ensures StripCarriageReturns(a + "\r" + b) == a + StripCarriageReturns(b)
  {
    CleanTextIsKept(a);
    assert StripCarriageReturns("\r") == [];
    StripAppend(a, "\r");
    StripAppend(a + "\r", b);
    hide StripCarriageReturns;
    assert a + [] == a;
  }

  /** The stream a run has seen is the pushed text without carriage returns. */
  lemma {:induction false} StreamOfRun(events: seq<Event>)
    ensures Run(events).stream == StripCarriageReturns(Text(events))
  {
    if events != [] {
      var e := events[|events| - 1];
      StreamOfRun(events[..|events| - 1]);
      StripAppend(Text(events[..|events| - 1]), if e.Push? then e.chunk else []);
    }
  }

  lemma ContainedInLonger(s: string, t: string, f: string)
    requires Contains(s, f)
    ensures Contains(s + t, f)
  {
    var i :| 0 <= i <= |s| && OccursAt(s, f, i);
    assert (s + t)[i..i + |f|] == s[i..i + |f|];
    assert OccursAt(s + t, f, i);
  }

  /** Without a failure the promise is resolved exactly when the whole text contains the fragment. */
  lemma {:induction false} ResolvedIffContained(events: seq<Event>)
    requires NoFail(events)
    ensures Run(events).outcome == if Contains(StripCarriageReturns(Text(events)), FRAGMENT) then Resolved else Pending
  {
    StreamOfRun(events);
    hide Contains, Text, StripCarriageReturns;
    if events == [] {
      NothingContained();
    } else {
      var init := events[..|events| - 1];
      ResolvedIffContained(init);
      StreamOfRun(init);
      if Contains(Run(init).stream, FRAGMENT) {
        ContainedInLonger(Run(init).stream, StripCarriageReturns(events[|events| - 1].chunk), FRAGMENT);
      }
    }
  }

  lemma NothingContained()
    ensures !Contains([], FRAGMENT)
  {
    assert |FRAGMENT| == 20;
  }

  /** Containing a fragment means that it stands somewhere between two texts. */
  lemma ContainsIff(s: string, f: string)
    ensures Contains(s, f) <==> exists a, b :: s == a + f + b
  {
    if Contains(s, f) {
      var i :| 0 <= i <= |s| && OccursAt(s, f, i);
      assert s == s[..i] + f + s[i + |f|..];
    }
    if a, b :| s == a + f + b {
      assert s[|a|..|a| + |f|] == f;
      assert OccursAt(s, f, |a|);
    }
  }

  /** So the server's line resolves the promise, however it is cut into chunks and wherever returns stand in it. */
  lemma ListeningLineResolves(events: seq<Event>, a: string, b: string)
    requires NoFail(events) && StripCarriageReturns(Text(events)) == a + "Listening on http://" + b
    ensures Run(events).outcome == Resolved
  {
    hide StripCarriageReturns, Text, Run, Contains;
    ResolvedIffContained(events);
    ContainsIff(a + FRAGMENT + b, FRAGMENT);
  }

  /** The first settlement wins for ever. */
  lemma {:induction false} SettlementIsFinal(events: seq<Event>, k: nat)
    requires k <= |events| && !Run(events[..k]).outcome.Pending?
    ensures Run(events).outcome == Run(events[..k]).outcome
  {
    if k < |events| {
      assert events[..|events| - 1][..k] == events[..k];
      SettlementIsFinal(events[..|events| - 1], k);
    } else {
      assert events[..k] == events;
    }
  }

  /** With a first failure at `k`, what was pushed before it decides between resolved and that failure. */
  lemma FirstFailureDecides(events: seq<Event>, k: nat)
    requires k < |events| && NoFail(events[..k]) && events[k].Fail?
    ensures Run(events).outcome ==
      if Contains(StripCarriageReturns(Text(events[..k])), FRAGMENT) then Resolved else Rejected(events[k].error)
  {
    hide StripCarriageReturns, Contains, Text, NoFail;
    ResolvedIffContained(events[..k]);
    assert events[..k + 1][..k] == events[..k];
    assert Run(events[..k + 1]) == Apply(Run(events[..k]), events[k]);
    SettlementIsFinal(events, k + 1);
  }
}
