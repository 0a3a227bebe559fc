/**
 The bounded live UI stream: a sliding buffer that drops its oldest events, and the lag counters
 that estimate the loss from ingress and egress counts alone.
 */
module Backpressure {
  import opened Wrappers

  const DEFAULT_LIVE_UI_STREAM_BUFFER_CAPACITY: nat := 1_024
  const DROP_REPORT_GROWTH_STEP: nat := 500

  /** A capacity option: not finite, or a finite number. */
  datatype Capacity = NotFinite | Finite(value: real)

  function NormalizeCapacity(capacity: Capacity): (c: nat)
    ensures c >= 1
    ensures capacity.NotFinite? ==> c == 1_024
    ensures capacity.Finite? && capacity.value >= 1.0 ==> c as real <= capacity.value < c as real + 1.0
    ensures capacity.Finite? && capacity.value < 1.0 ==> c == 1
  {
    match capacity
    case NotFinite => DEFAULT_LIVE_UI_STREAM_BUFFER_CAPACITY
    case Finite(value) => if value.Floor < 1 then 1 else value.Floor
  }

  /** The counters of one run of the stream. */
  class LagState {
    var ingressCount: nat
    var egressCount: nat
    var reportedDroppedAtLeast: nat

    constructor ()
      ensures ingressCount == 0 && egressCount == 0 && reportedDroppedAtLeast == 0
    {
      ingressCount, egressCount, reportedDroppedAtLeast := 0, 0, 0;
    }

    method RecordIngress(capacity: nat, reportGrowthStep: nat) returns (report: Option<nat>)
      modifies this`ingressCount, this`reportedDroppedAtLeast
      ensures ingressCount == old(ingressCount) + 1
      ensures report == DueReport(old(reportedDroppedAtLeast), ingressCount - egressCount - capacity, reportGrowthStep)
      ensures reportedDroppedAtLeast == if report.Some? then report.value else old(reportedDroppedAtLeast)
    {
      ingressCount := ingressCount + 1;
      var droppedAtLeast := ingressCount - egressCount - capacity;
      if droppedAtLeast <= 0 { return None; }
      if reportedDroppedAtLeast > 0 && droppedAtLeast - reportedDroppedAtLeast < reportGrowthStep { return None; }
      reportedDroppedAtLeast := droppedAtLeast;
      report := Some(droppedAtLeast);
    }

    method RecordEgress()
      modifies this`egressCount
      ensures egressCount == old(egressCount) + 1
    {
      egressCount := egressCount + 1;
    }
  }

  /** The report due when the counters show this lag beyond the capacity. */
  function DueReport(reported: nat, droppedAtLeast: int, step: nat): Option<nat> {
    if droppedAtLeast <= 0 || (reported > 0 && droppedAtLeast - reported < step) then None else Some(droppedAtLeast)
  }

  /* ---------- The stream as a step system ---------- */

  /** What became of an event that left the buffer. */
  datatype Fate = Delivered | Dropped

  /** A report and the number of events that had been dropped when it was made. */
  datatype Report = Report(droppedAtLeast: nat, dropped: nat)

  /**
   The events in the order in which they were offered, the fates of those that left the buffer, and
   the counters and reports of the lag state.
   */
  datatype Stream<T> = Stream(
    ingress: nat, egress: nat, reported: nat,
    offered: seq<T>, fates: seq<Fate>, buffer: seq<T>, delivered: seq<T>, reports: seq<Report>)

  datatype Move<T> = Offer(event: T) | Deliver

  function Drops(fates: seq<Fate>): nat {
    if fates == [] then 0 else Drops(fates[..|fates| - 1]) + if fates[|fates| - 1].Dropped? then 1 else 0
  }

  /** The events whose fate is delivery. */
  function Output<T>(events: seq<T>, fates: seq<Fate>): seq<T>
    requires |fates| <= |events|
  {
    if fates == [] then []
    else
      var k := |fates| - 1;
      Output(events, fates[..k]) + if fates[k].Delivered? then [events[k]] else []
  }

  /** An offered event is counted first and then put into the buffer, where it may push out the oldest. */
  function Offered<T>(s: Stream<T>, capacity: nat, step: nat, event: T): Stream<T> {
    var report := DueReport(s.reported, s.ingress + 1 - s.egress - capacity, step);
    var full := |s.buffer| >= capacity;
    var fates := if full then s.fates + [Dropped] else s.fates;
    s.(ingress := s.ingress + 1,
       reported := if report.Some? then report.value else s.reported,
       offered := s.offered + [event],
       fates := fates,
       buffer := if full then (s.buffer + [event])[1..] else s.buffer + [event],
       reports := if report.Some? then s.reports + [Report(report.value, Drops(fates))] else s.reports)
  }

  function Apply<T>(s: Stream<T>, capacity: nat, step: nat, move: Move<T>): Stream<T> {
    match move
    case Offer(event) => Offered(s, capacity, step, event)
    case Deliver =>
      if s.buffer == [] then s
      else s.(egress := s.egress + 1, fates := s.fates + [Delivered], buffer := s.buffer[1..],
        delivered := s.delivered + [s.buffer[0]])
  }

  function Run<T>(capacity: nat, step: nat, moves: seq<Move<T>>): Stream<T> {
    if moves == [] then Stream(0, 0, 0, [], [], [], [], [])
    else Apply(Run(capacity, step, moves[..|moves| - 1]), capacity, step, moves[|moves| - 1])
  }

  /** Every offered event is waiting, delivered or dropped; the first to come is the first to go. */
  ghost predicate Conserved<T>(s: Stream<T>) {
    && s.ingress == |s.offered| && s.egress == |s.delivered|
    && |s.fates| <= |s.offered| && s.buffer == s.offered[|s.fates|..]
    && s.delivered == Output(s.offered, s.fates)
    && s.ingress == s.egress + |s.buffer| + Drops(s.fates)
  }

  /** Every report is a lower bound of the loss at its time, and reports grow by at least the step. */
  ghost predicate Truthful(reports: seq<Report>, step: nat) {
    && (forall i :: 0 <= i < |reports| ==> 0 < reports[i].droppedAtLeast <= reports[i].dropped)
    && (forall i :: 0 < i < |reports| ==> reports[i - 1].droppedAtLeast + step <= reports[i].droppedAtLeast)
    && (reports != [] ==> reports[0] == Report(1, 1))
  }

  /** The last figure reported is no more than the loss, and there is a report as soon as there is a loss. */
  ghost predicate Reported(reports: seq<Report>, reported: nat, dropped: nat, step: nat) {
    && reported == (if reports == [] then 0 else reports[|reports| - 1].droppedAtLeast)
    && reported <= dropped
    && Truthful(reports, step)
    && (reports == [] <==> dropped == 0)
  }

  ghost predicate Inv<T>(s: Stream<T>, capacity: nat, step: nat) {
    Conserved(s) && |s.buffer| <= capacity && Reported(s.reports, s.reported, Drops(s.fates), step)
  }

  lemma {:induction false} OutputPrefix<T>(events: seq<T>, more: seq<T>, fates: seq<Fate>)
    requires |fates| <= |events|
    ensures Output(events + more, fates) == Output(events, fates)
  {
    if fates != [] { OutputPrefix(events, more, fates[..|fates| - 1]); }
  }

  lemma OfferConserves<T>(s: Stream<T>, capacity: nat, step: nat, event: T)
    requires Conserved(s) && |s.buffer| <= capacity && capacity >= 1
    ensures
      var t := Offered(s, capacity, step, event);
      Conserved(t) && |t.buffer| <= capacity
      && Drops(t.fates) == Drops(s.fates) + if |s.buffer| == capacity then 1 else 0
  {
    hide DueReport;
    OutputPrefix(s.offered, [event], s.fates);
    assert (s.fates + [Dropped])[..|s.fates|] == s.fates;
  }

  /** A report that is due keeps the reports truthful, when the lag is the loss or less. */
  lemma ReportKeepsTruth(reports: seq<Report>, reported: nat, lag: int, step: nat, before: nat, after: nat)
    requires Reported(reports, reported, before, step)
    requires if after == before then lag <= before else after == before + 1 && lag == after
    ensures var due := DueReport(reported, lag, step);
      if due.Some? then Reported(reports + [Report(due.value, after)], due.value, after, step)
      else Reported(reports, reported, after, step)
  {
  }

  lemma OfferKeepsInv<T>(s: Stream<T>, capacity: nat, step: nat, event: T)
    requires capacity >= 1 && Inv(s, capacity, step)
    ensures Inv(Offered(s, capacity, step, event), capacity, step)
  {
    OfferConserves(s, capacity, step, event);
    var t, lag := Offered(s, capacity, step, event), s.ingress + 1 - s.egress - capacity;
    assert lag == |s.buffer| + Drops(s.fates) + 1 - capacity;
    hide Drops, Output, Conserved, Reported, DueReport;
    ReportKeepsTruth(s.reports, s.reported, lag, step, Drops(s.fates), Drops(t.fates));
  }

  lemma DeliverKeepsInv<T>(s: Stream<T>, capacity: nat, step: nat)
    requires capacity >= 1 && Inv(s, capacity, step)
    ensures Inv(Apply(s, capacity, step, Deliver), capacity, step)
  {
    assert (s.fates + [Delivered])[..|s.fates|] == s.fates;
  }

  /** What holds after any moves; in particular the first report comes with the first drop. */
  lemma {:induction false} RunInv<T>(capacity: nat, step: nat, moves: seq<Move<T>>)
    requires capacity >= 1
    ensures Inv(Run(capacity, step, moves), capacity, step)
  {
    if moves != [] {
      var before := moves[..|moves| - 1];
      RunInv(capacity, step, before);
      match moves[|moves| - 1]
      case Offer(event) => OfferKeepsInv(Run(capacity, step, before), capacity, step, event);
      case Deliver => DeliverKeepsInv(Run(capacity, step, before), capacity, step);
    }
  }

  /** In every run, reports further apart differ by the step for each report between them. */
  lemma {:induction false} ReportsSpread<T>(capacity: nat, step: nat, moves: seq<Move<T>>, i: nat, j: nat)
    requires capacity >= 1 && i <= j < |Run(capacity, step, moves).reports|
    ensures
      var reports := Run(capacity, step, moves).reports;
      reports[i].droppedAtLeast + (j - i) * step <= reports[j].droppedAtLeast
    decreases j - i
  {
    hide Run;
    RunInv(capacity, step, moves);
    if i < j {
      ReportsSpread(capacity, step, moves, i, j - 1);
      assert (j - i) * step == (j - 1 - i) * step + step;
    }
  }

  /** The number of reports is bounded by the loss: one for the first drop and one for each further `step` drops. */
  lemma ReportsAreFew<T>(capacity: nat, step: nat, moves: seq<Move<T>>)
    requires capacity >= 1
    ensures
      var s := Run(capacity, step, moves);
      s.reports != [] ==> 1 + (|s.reports| - 1) * step <= Drops(s.fates)
  {
    var s := Run(capacity, step, moves);
    RunInv(capacity, step, moves);
    if s.reports != [] {
      ReportsSpread(capacity, step, moves, 0, |s.reports| - 1);
    }
  }

  /** The loss that the counters show, if any, has been reported but for less than one step. */
  ghost predicate Timely<T>(s: Stream<T>, capacity: nat, step: nat) {
    var droppedAtLeast := s.ingress - s.egress - capacity;
    droppedAtLeast > 0 ==> s.reports != [] && droppedAtLeast < s.reports[|s.reports| - 1].droppedAtLeast + step
  }

  /**
   In every run a report comes as soon as the loss that the counters show has grown by the step; so whenever the
   buffer is full, the true loss exceeds the last reported figure by less than the step.
   */
  lemma {:induction false} ReportsAreTimely<T>(capacity: nat, step: nat, moves: seq<Move<T>>)
    requires capacity >= 1 && step >= 1
    ensures
      var s := Run(capacity, step, moves);
      && Timely(s, capacity, step)
      && (|s.buffer| == capacity && Drops(s.fates) > 0 ==>
            s.reports != [] && Drops(s.fates) < s.reports[|s.reports| - 1].droppedAtLeast + step)
  {
    RunInv(capacity, step, moves);
    FullBufferMeansExactLag(capacity, step, moves);
    if moves != [] {
      var before := moves[..|moves| - 1];
      RunInv(capacity, step, before);
      ReportsAreTimely(capacity, step, before);
      hide Drops, Output;
    }
  }

  /** The counters alone tell the loss whenever the buffer is full. */
  lemma FullBufferMeansExactLag<T>(capacity: nat, step: nat, moves: seq<Move<T>>)
    requires capacity >= 1
    ensures
      var s := Run(capacity, step, moves);
      && s.ingress - s.egress - capacity <= Drops(s.fates)
      && (s.ingress - s.egress - capacity == Drops(s.fates) <==> |s.buffer| == capacity)
  {
    RunInv(capacity, step, moves);
  }

  /** The running stream: the lag state on either side of the sliding buffer. */
  class LiveUiStream<T> {
    const capacity: nat
    const lag: LagState
    var buffer: seq<T>
    var delivered: seq<T>
    ghost var offered: seq<T>
    ghost var fates: seq<Fate>
    ghost var reports: seq<Report>

    constructor (capacity: Capacity)
      ensures fresh(lag) && this.capacity == NormalizeCapacity(capacity)
      ensures View() == Run(this.capacity, 500, [])
    {
      this.capacity := NormalizeCapacity(capacity);
      lag := new LagState();
      buffer, delivered, offered, fates, reports := [], [], [], [], [];
    }

    ghost function View(): Stream<T>
      reads this, lag
    {
      Stream(lag.ingressCount, lag.egressCount, lag.reportedDroppedAtLeast, offered, fates, buffer, delivered, reports)
    }

    /** An upstream event: the ingress tap, then the sliding buffer. */
    method OnEvent(event: T) returns (report: Option<nat>)
      modifies this, lag
      ensures View() == Apply(old(View()), capacity, 500, Offer(event))
      ensures report.Some? <==> |reports| == |old(reports)| + 1
      ensures report.Some? ==> reports[|reports| - 1].droppedAtLeast == report.value
    {
      report := lag.RecordIngress(capacity, DROP_REPORT_GROWTH_STEP);
      offered := offered + [event];
      if |buffer| < capacity {
        buffer := buffer + [event];
      } else {
        buffer := (buffer + [event])[1..];
        fates := fates + [Dropped];
      }
      if report.Some? {
        reports := reports + [Report(report.value, Drops(fates))];
      }
    }

    /** The subscriber takes the oldest buffered event; the egress tap counts it. */
    method Take()
      requires buffer != []
      modifies this, lag
      ensures View() == Apply(old(View()), capacity, 500, Deliver)
    {
      delivered := delivered + [buffer[0]];
      buffer := buffer[1..];
      fates := fates + [Delivered];
      lag.RecordEgress();
    }
  }
}
