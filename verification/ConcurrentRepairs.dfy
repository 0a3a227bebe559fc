/**
 Any number of calls that repair the same group of browser-profile entries at once, their file
 operations interleaved and failing at will. `ProfileRepair` follows one repair; here the question
 is what the second look at the base entry is worth.

 The application calls the repair only while it holds its single-instance lock, so its calls meet the
 condition `OneAtATime`, under which every exchange is safe and goes through or is undone. The results
 about overlapping exchanges are about the function called without that lock.
 */
module ConcurrentRepairs {
  import opened Sorting
  import opened ProfileRepair

  /** Where a repairer is: `Displace`, `Install`, `Remove` and `Restore` count the entries dealt with. */
  datatype Pc =
    | Check | StageAll | Recheck | Displace(k: nat) | Install(j: nat) | Remove(i: nat) | Restore(i: nat)
    | Finished
    | Stopped  // the process died, wherever it was

  /** `seen` is the target at the second look; `clean` says that no rollback step has failed. */
  datatype Repairer = Repairer(pc: Pc, backup: Entries, displaced: seq<string>, seen: Entries, clean: bool)

  const FRESH := Repairer(Check, map[], [], map[], true)

  datatype World = World(target: Entries, repairers: seq<Repairer>)

  /** A file operation goes through, or it fails, when a removal may leave other content behind; or the process dies. */
  datatype Move = Go | Fail(left: Content) | Stop

  function Order(group: Group, source: Entries): seq<string>
    requires |group| > 0
  {
    InstallOrder(Present(group, source), group[0])
  }

  /** The repairer has passed its second look at the base entry and has not come to an end. */
  predicate Exchanging(r: Repairer) {
    r.pc.Displace? || r.pc.Install? || r.pc.Remove? || r.pc.Restore?
  }

  /** The repairer has not passed its second look yet. */
  predicate Looking(r: Repairer) {
    r.pc.Check? || r.pc.StageAll? || r.pc.Recheck?
  }

  datatype Outcome = Outcome(target: Entries, repairer: Repairer)

  function DisplaceNext(group: Group, t: Entries, r: Repairer, k: nat, m: Move): Outcome {
    if k >= |group| then Outcome(t, r.(pc := Install(0)))
    else if m.Fail? then Outcome(t, r.(pc := Remove(0)))
    else if group[k] !in t then Outcome(t, r.(pc := Displace(k + 1)))
    else
      var backup := r.backup[group[k] := t[group[k]]];
      Outcome(t - {group[k]}, r.(pc := Displace(k + 1), backup := backup, displaced := r.displaced + [group[k]]))
  }

  function InstallNext(order: seq<string>, source: Entries, t: Entries, r: Repairer, j: nat, m: Move): Outcome {
    if j >= |order| || order[j] !in source then Outcome(t, r.(pc := Finished))
    else if m.Fail? then Outcome(t, r.(pc := Remove(j)))
    else Outcome(t[order[j] := source[order[j]]], r.(pc := if j + 1 == |order| then Finished else Install(j + 1)))
  }

  function RemoveNext(order: seq<string>, t: Entries, r: Repairer, i: nat, m: Move): Outcome
    requires !m.Stop?
  {
    if i == 0 || i > |order| then Outcome(t, r.(pc := Restore(0)))
    else
      var name := order[i - 1];
      var left := if m.Go? then t - {name} else if name in t then t[name := m.left] else t;
      Outcome(left, r.(pc := Remove(i - 1), clean := r.clean && m.Go?))
  }

  function RestoreNext(t: Entries, r: Repairer, i: nat, m: Move): Outcome {
    if i >= |r.displaced| then Outcome(t, r.(pc := Finished))
    else
      var name := r.displaced[i];
      var restored := m.Go? && name in r.backup;
      var back := if restored then t[name := r.backup[name]] else t;
      Outcome(back, r.(pc := Restore(i + 1), clean := r.clean && restored))
  }

  /** One operation of one repairer on the shared target; counts past the end, which no run has, end the repair. */
  function Act(group: Group, source: Entries, t: Entries, r: Repairer, m: Move): Outcome
    requires |group| > 0
  {
    if m.Stop? then Outcome(t, r.(pc := Stopped))
    else
      match r.pc
      case Check => Outcome(t, r.(pc := if NeedsRepair(t, group, source) && m.Go? then StageAll else Finished))
      case StageAll => Outcome(t, r.(pc := if m.Go? then Recheck else Finished))
      case Recheck => Outcome(t, r.(pc := if group[0] !in t && m.Go? then Displace(1) else Finished, seen := t))
      case Displace(k) => DisplaceNext(group, t, r, k, m)
      case Install(j) => InstallNext(Order(group, source), source, t, r, j, m)
      case Remove(i) => RemoveNext(Order(group, source), t, r, i, m)
      case Restore(i) => RestoreNext(t, r, i, m)
      case Finished => Outcome(t, r)
      case Stopped => Outcome(t, r)
  }

  function Step(group: Group, source: Entries, w: World, p: nat, m: Move): World
    requires |group| > 0 && p < |w.repairers|
  {
    var done := Act(group, source, w.target, w.repairers[p], m);
    World(done.target, w.repairers[p := done.repairer])
  }

  ghost predicate StepTo(group: Group, source: Entries, w: World, v: World)
    requires |group| > 0
  {
    exists p, m :: 0 <= p < |w.repairers| && v == Step(group, source, w, p, m)
  }

  ghost predicate Run(group: Group, source: Entries, worlds: seq<World>)
    requires |group| > 0
  {
    && |worlds| > 0 && (forall p :: 0 <= p < |worlds[0].repairers| ==> worlds[0].repairers[p] == FRESH)
    && forall k :: 0 <= k < |worlds| - 1 ==> StepTo(group, source, worlds[k], worlds[k + 1])
  }

  /** At most one repairer is past its second look. */
  ghost predicate OneAtATime(w: World) {
    forall p, q :: 0 <= p < q < |w.repairers| ==> !(Exchanging(w.repairers[p]) && Exchanging(w.repairers[q]))
  }

  /* ---------- One exchange at a time is safe ---------- */

  lemma OrderShape(group: Group, source: Entries)
    requires WellFormedGroup(group) && group[0] in source
    ensures var order := Order(group, source);
      && order != [] && order[|order| - 1] == group[0] && Distinct(order)
      && forall n :: n in order <==> n in group && n in source
  {
    PresentDistinct(group, source);
    var names := Present(group, source);
    InstallOrderShape(names, group[0], group, source);
    var order := Order(group, source);
    assert forall n :: n in order <==> n in Elements(order);
    assert forall n :: n in names <==> n in Elements(names);
  }

  /** How far a repairer that has the group to itself has got. */
  ghost predicate Progress(group: Group, source: Entries, t: Entries, r: Repairer)
    requires |group| > 0
  {
    && group[0] in source && group[0] !in t
    && (forall n :: n in r.displaced ==> n in group && n != group[0])
    && match r.pc
       case Displace(k) => 1 <= k && forall m :: 1 <= m < k && m < |group| ==> group[m] !in t
       case Install(j) =>
         && j < |Order(group, source)|
         && forall n :: n in group && n != group[0] ==>
              if n in Order(group, source)[..j] then n in t && t[n] == source[n] else n !in t
       case Remove(i) => i < |Order(group, source)|
       case _ => true
  }

  ghost predicate ProgressOf(group: Group, source: Entries, w: World, p: nat)
    requires |group| > 0 && p < |w.repairers|
  {
    && (Exchanging(w.repairers[p]) ==> Progress(group, source, w.target, w.repairers[p]))
    && (w.repairers[p].pc.StageAll? || w.repairers[p].pc.Recheck? ==> group[0] in source)
    && (Looking(w.repairers[p]) ==> w.repairers[p].displaced == [])
  }

  ghost predicate Inv(group: Group, source: Entries, w: World)
    requires |group| > 0
  {
    Consistent(w.target, group, source) && forall p :: 0 <= p < |w.repairers| ==> ProgressOf(group, source, w, p)
  }

  lemma InstallProgress(group: Group, source: Entries, t: Entries, r: Repairer)
    requires WellFormedGroup(group) && Progress(group, source, t, r) && r.pc.Install?
    ensures var order := Order(group, source); var j := r.pc.j; var u := t[order[j] := source[order[j]]];
      if j + 1 == |order| then Consistent(u, group, source) else Progress(group, source, u, r.(pc := Install(j + 1)))
  {
    OrderShape(group, source);
    hide Order;
    var order, j := Order(group, source), r.pc.j;
    assert order[j] in order;
    assert order[..j + 1] == order[..j] + [order[j]] && order[j] !in order[..j];
    if j + 1 == |order| {
      assert order[..j + 1] == order;
    }
  }

  lemma RemoveIsSafe(group: Group, source: Entries, t: Entries, r: Repairer, m: Move)
    requires !m.Stop?
    requires WellFormedGroup(group) && Progress(group, source, t, r) && r.pc.Remove?
    ensures var done := Act(group, source, t, r, m);
      Consistent(done.target, group, source)
        && Exchanging(done.repairer) && Progress(group, source, done.target, done.repairer)
  {
    OrderShape(group, source);
    hide Order;
    var order := Order(group, source);
    if 0 < r.pc.i {
      assert order[r.pc.i - 1] in order;
      assert order[r.pc.i - 1] != group[0];
    }
  }

  lemma RestoreIsSafe(group: Group, source: Entries, t: Entries, r: Repairer, m: Move)
    requires !m.Stop?
    requires WellFormedGroup(group) && Progress(group, source, t, r) && r.pc.Restore?
    ensures var done := Act(group, source, t, r, m);
      Consistent(done.target, group, source) && !Looking(done.repairer)
        && (Exchanging(done.repairer) ==> Progress(group, source, done.target, done.repairer))
  {
    hide Order, Distinct;
    if r.pc.i < |r.displaced| {
      assert r.displaced[r.pc.i] in r.displaced;
    }
  }

  lemma DisplaceIsSafe(group: Group, source: Entries, t: Entries, r: Repairer, m: Move)
    requires !m.Stop?
    requires WellFormedGroup(group) && Progress(group, source, t, r) && r.pc.Displace?
    ensures var done := Act(group, source, t, r, m);
      Consistent(done.target, group, source) && Exchanging(done.repairer)
        && Progress(group, source, done.target, done.repairer)
  {
    OrderShape(group, source);
    var k, order := r.pc.k, Order(group, source);
    hide Order;
    if k < |group| {
      assert group[k] in group && group[k] != group[0];
    } else {
      AllDisplaced(group, t, k);
      assert order[..0] == [];
    }
  }

  lemma InstallIsNextSafe(group: Group, source: Entries, t: Entries, r: Repairer, m: Move)
    requires !m.Stop?
    requires WellFormedGroup(group) && Progress(group, source, t, r) && r.pc.Install?
    ensures var done := Act(group, source, t, r, m);
      Consistent(done.target, group, source)
        && (Exchanging(done.repairer) ==> Progress(group, source, done.target, done.repairer))
    ensures !Looking(Act(group, source, t, r, m).repairer)
  {
    OrderShape(group, source);
    var order := Order(group, source);
    InstallProgress(group, source, t, r);
    hide Order;
    assert order[r.pc.j] in order;
  }

  lemma ActIsSafe(group: Group, source: Entries, t: Entries, r: Repairer, m: Move)
    requires WellFormedGroup(group) && Consistent(t, group, source)
    requires Exchanging(r) ==> Progress(group, source, t, r)
    requires r.pc.StageAll? || r.pc.Recheck? ==> group[0] in source
    requires Looking(r) ==> r.displaced == []
    ensures var done := Act(group, source, t, r, m); var s := done.repairer;
      && Consistent(done.target, group, source)
      && (Exchanging(s) ==> Progress(group, source, done.target, s))
      && (s.pc.StageAll? || s.pc.Recheck? ==> group[0] in source)
      && (Looking(s) ==> s.displaced == [])
      && (!Exchanging(r) ==> done.target == t)
  {
    if m.Stop? { return; }
    hide Act, Progress, Consistent;
    match r.pc
    case Displace(_) => DisplaceIsSafe(group, source, t, r, m);
    case Install(_) => InstallIsNextSafe(group, source, t, r, m);
    case Remove(_) => RemoveIsSafe(group, source, t, r, m);
    case Restore(_) => RestoreIsSafe(group, source, t, r, m);
    case _ => LookIsSafe(group, source, t, r, m);
  }

  lemma LookIsSafe(group: Group, source: Entries, t: Entries, r: Repairer, m: Move)
    requires WellFormedGroup(group) && !m.Stop? && !Exchanging(r) && (Looking(r) ==> r.displaced == [])
    requires r.pc.StageAll? || r.pc.Recheck? ==> group[0] in source
    ensures var done := Act(group, source, t, r, m); var s := done.repairer;
      && done.target == t && (Exchanging(s) ==> Progress(group, source, t, s))
      && (s.pc.StageAll? || s.pc.Recheck? ==> group[0] in source) && (Looking(s) ==> s.displaced == [])
  {
    hide Order, Distinct;
  }

  lemma AllDisplaced(group: Group, t: Entries, k: nat)
    requires |group| > 0 && k >= |group| && forall m :: 1 <= m < k && m < |group| ==> group[m] !in t
    ensures forall n :: n in group && n != group[0] ==> n !in t
  {
  }

  lemma StepKeepsInv(group: Group, source: Entries, w: World, p: nat, m: Move)
    requires WellFormedGroup(group) && Inv(group, source, w) && p < |w.repairers|
    requires Exchanging(w.repairers[p]) ==> OneAtATime(w)
    ensures Inv(group, source, Step(group, source, w, p, m))
  {
    hide Progress, Act, Consistent, Distinct;
    var v := Step(group, source, w, p, m);
    assert ProgressOf(group, source, w, p);
    ActIsSafe(group, source, w.target, w.repairers[p], m);
    forall q | 0 <= q < |v.repairers| ensures ProgressOf(group, source, v, q) {
      assert ProgressOf(group, source, w, q);
      if q != p && Exchanging(w.repairers[p]) { assert !Exchanging(w.repairers[q]); }
    }
  }

  /**
   In every run in which no two repairers are past their second look at the same time, whatever fails or dies, the
   base entry is never there without exactly the source's sidecars.
   */
  lemma {:induction false} ExchangesApartAreSafe(group: Group, source: Entries, worlds: seq<World>, k: nat)
    requires WellFormedGroup(group) && Run(group, source, worlds) && k < |worlds|
    requires group[0] !in worlds[0].target
    requires forall i :: 0 <= i < |worlds| ==> OneAtATime(worlds[i])
    ensures Consistent(worlds[k].target, group, source)
    ensures Inv(group, source, worlds[k])
  {
    hide Progress, Act, Distinct;
    if k > 0 {
      ExchangesApartAreSafe(group, source, worlds, k - 1);
      assert StepTo(group, source, worlds[k - 1], worlds[k - 1 + 1]);
      var p, m :| 0 <= p < |worlds[k - 1].repairers| && worlds[k] == Step(group, source, worlds[k - 1], p, m);
      StepKeepsInv(group, source, worlds[k - 1], p, m);
    }
  }

  /* ---------- One exchange at a time goes through or is undone ---------- */

  /** What the target is, entry by entry, while a repairer has the group to itself. */
  ghost predicate Exact(group: Group, source: Entries, t: Entries, r: Repairer)
    requires |group| > 0
  {
    var order, displaced := Order(group, source), Elements(r.displaced);
    && NeedsRepair(r.seen, group, source)
    && Distinct(r.displaced) && displaced <= Orphans(r.seen, group) && Holds(r.backup, displaced, r.seen)
    && match r.pc
       case Displace(k) =>
         && 1 <= k <= |group| && (forall n :: n in r.displaced <==> n in group[1..k] && n in r.seen)
         && t == Mid(r.seen, source, displaced, {})
       case Install(j) =>
         j < |order| && displaced == Orphans(r.seen, group) && IsMid(r.seen, source, displaced, order[..j], t)
       case Remove(i) =>
         && i < |order| && (i > 0 ==> displaced == Orphans(r.seen, group))
         && (r.clean ==> IsMid(r.seen, source, displaced, order[..i], t))
       case Restore(i) =>
         i <= |r.displaced| && (r.clean ==> t == Mid(r.seen, source, Elements(r.displaced[i..]), {}))
       case _ => true
  }

  ghost predicate IsMid(seen: Entries, source: Entries, displaced: set<string>, installed: seq<string>, t: Entries) {
    Elements(installed) <= source.Keys && t == Mid(seen, source, displaced, Elements(installed))
  }

  lemma NothingInstalled(seen: Entries, source: Entries, displaced: set<string>, order: seq<string>, t: Entries)
    ensures IsMid(seen, source, displaced, order[..0], t) <==> t == Mid(seen, source, displaced, {})
  {
    assert Elements(order[..0]) == {};
  }

  lemma DisplaceExact(group: Group, source: Entries, t: Entries, r: Repairer, m: Move)
    requires !m.Stop?
    requires WellFormedGroup(group) && r.pc.Displace? && Exact(group, source, t, r)
    ensures var done := Act(group, source, t, r, m);
      Exchanging(done.repairer) && Exact(group, source, done.target, done.repairer)
  {
    var k, order, displaced := r.pc.k, Order(group, source), Elements(r.displaced);
    OrderShape(group, source);
    hide Order, Mid, Distinct, Holds;
    NothingInstalled(r.seen, source, displaced, order, t);
    if k == |group| {
      assert group[1..k] == group[1..];
    } else if m.Fail? {
    } else {
      NextOrphan(group, k);
      MidAt(r.seen, source, displaced, group[k]);
      if group[k] in t { DisplaceOne(group, source, t, r); }
    }
  }

  lemma MidAt(seen: Entries, source: Entries, displaced: set<string>, n: string)
    ensures var t := Mid(seen, source, displaced, {});
      (n in t <==> n in seen && n !in displaced) && (n in t ==> t[n] == seen[n])
  {
  }

  lemma NextOrphan(group: Group, k: nat)
    requires WellFormedGroup(group) && 1 <= k < |group|
    ensures group[k] in group[1..] && group[k] !in group[1..k]
    ensures forall n :: n in group[1..k + 1] <==> n in group[1..k] || n == group[k]
  {
    assert group[1..k + 1] == group[1..k] + [group[k]];
    assert group[1..][k - 1] == group[k];
  }

  lemma DisplaceOne(group: Group, source: Entries, t: Entries, r: Repairer)
    requires WellFormedGroup(group) && r.pc.Displace? && Exact(group, source, t, r)
    requires r.pc.k < |group| && group[r.pc.k] in t
    ensures var done := Act(group, source, t, r, Go); Exact(group, source, done.target, done.repairer)
  {
    var k := r.pc.k;
    var n := group[k];
    hide Order;
    NextOrphan(group, k);
    MidAt(r.seen, source, Elements(r.displaced), n);
    MidDisplace(r.seen, source, r.displaced, n);
    hide Mid;
    assert Elements(r.displaced + [n]) == Elements(r.displaced) + {n};
  }

  lemma InstallExact(group: Group, source: Entries, t: Entries, r: Repairer, m: Move)
    requires !m.Stop?
    requires WellFormedGroup(group) && r.pc.Install? && Exact(group, source, t, r)
    ensures var done := Act(group, source, t, r, m);
      if done.repairer.pc.Finished? then done.target == Generation(r.seen, group, source)
      else Exchanging(done.repairer) && Exact(group, source, done.target, done.repairer)
  {
    var j, order, displaced := r.pc.j, Order(group, source), Elements(r.displaced);
    OrderElements(group, source, j);
    hide Order, Distinct, Holds, Generation, IsMid, Elements, Orphans, NeedsRepair, Present;
    if m.Fail? {
      assert Act(group, source, t, r, m) == Outcome(t, r.(pc := Remove(j)));
      hide Act;
    } else {
      var u := t[order[j] := source[order[j]]];
      var next := if j + 1 == |order| then Finished else Install(j + 1);
      assert Act(group, source, t, r, m) == Outcome(u, r.(pc := next));
      hide Act;
      InstalledOne(r.seen, group, source, displaced, order, j, t);
    }
  }

  lemma OrderElements(group: Group, source: Entries, j: nat)
    requires WellFormedGroup(group) && group[0] in source && j < |Order(group, source)|
    ensures Elements(Order(group, source)) == Elements(Present(group, source)) <= source.Keys
    ensures Order(group, source)[j] in source
  {
    OrderShape(group, source);
    hide Order;
    var order := Order(group, source);
    assert forall n :: n in Elements(order) <==> n in order;
    assert order[j] in order;
  }

  /** Installing the next entry; the last one completes the source's generation. */
  lemma InstalledOne(seen: Entries, group: Group, source: Entries, displaced: set<string>, order: seq<string>, j: nat,
                     t: Entries)
    requires WellFormedGroup(group) && NeedsRepair(seen, group, source) && displaced == Orphans(seen, group)
    requires Elements(order) == Elements(Present(group, source)) <= source.Keys && j < |order| && order[j] in source
    requires IsMid(seen, source, displaced, order[..j], t)
    ensures var u := t[order[j] := source[order[j]]];
      if j + 1 == |order| then u == Generation(seen, group, source)
      else IsMid(seen, source, displaced, order[..j + 1], u)
  {
    hide Generation, Mid, Orphans;
    MidInstall(seen, source, displaced, order, j);
    if j + 1 == |order| {
      assert order[..j + 1] == order;
      hide Elements;
      MidIsGeneration(seen, group, source);
    }
  }

  lemma RemoveExact(group: Group, source: Entries, t: Entries, r: Repairer, m: Move)
    requires !m.Stop?
    requires WellFormedGroup(group) && r.pc.Remove? && Exact(group, source, t, r)
    ensures var done := Act(group, source, t, r, m);
      Exchanging(done.repairer) && Exact(group, source, done.target, done.repairer)
  {
    if r.pc.i == 0 {
      RemovedAll(group, source, t, r, m);
    } else {
      RemoveOne(group, source, t, r, m);
    }
  }

  lemma RemovedAll(group: Group, source: Entries, t: Entries, r: Repairer, m: Move)
    requires !m.Stop? && |group| > 0 && r.pc == Remove(0) && Exact(group, source, t, r)
    ensures var done := Act(group, source, t, r, m);
      Exchanging(done.repairer) && Exact(group, source, done.target, done.repairer)
  {
    hide Order, Distinct, Holds, Mid, Orphans, NeedsRepair;
    NothingInstalled(r.seen, source, Elements(r.displaced), Order(group, source), t);
    assert r.displaced[0..] == r.displaced;
    hide Elements;
  }

  lemma RemoveOne(group: Group, source: Entries, t: Entries, r: Repairer, m: Move)
    requires !m.Stop? && WellFormedGroup(group) && r.pc.Remove? && r.pc.i > 0 && Exact(group, source, t, r)
    ensures var done := Act(group, source, t, r, m);
      Exchanging(done.repairer) && Exact(group, source, done.target, done.repairer)
  {
    var i, order, displaced := r.pc.i, Order(group, source), Elements(r.displaced);
    OrderShape(group, source);
    hide Order, Holds, Orphans, NeedsRepair, Distinct, Mid;
    if r.clean {
      RemoveMid(group, source, r.seen, displaced, order, i);
    }
    hide Elements;
  }

  lemma RemoveMid(group: Group, source: Entries, seen: Entries, displaced: set<string>, order: seq<string>, i: nat)
    requires WellFormedGroup(group) && 0 < i < |order| && Distinct(order) && order[|order| - 1] == group[0]
    requires (forall n :: n in order ==> n in group) && displaced == Orphans(seen, group)
    requires Elements(order[..i]) <= source.Keys
    ensures Elements(order[..i - 1]) <= source.Keys
    ensures Mid(seen, source, displaced, Elements(order[..i])) - {order[i - 1]}
      == Mid(seen, source, displaced, Elements(order[..i - 1]))
  {
    var n := order[i - 1];
    assert n in order && n != group[0] && n in group[1..];
    assert order[..i] == order[..i - 1] + [n] && n !in order[..i - 1];
    assert Elements(order[..i]) == Elements(order[..i - 1]) + {n};
    assert n in seen ==> n in displaced;
  }

  lemma RestoreExact(group: Group, source: Entries, t: Entries, r: Repairer, m: Move)
    requires !m.Stop?
    requires WellFormedGroup(group) && r.pc.Restore? && Exact(group, source, t, r)
    ensures var done := Act(group, source, t, r, m);
      if done.repairer.pc.Finished? then r.clean ==> done.target == r.seen
      else Exchanging(done.repairer) && Exact(group, source, done.target, done.repairer)
  {
    var i := r.pc.i;
    hide Order;
    if i == |r.displaced| {
      assert r.displaced[i..] == [];
      MidOfNothing(r.seen, source);
    } else {
      assert r.displaced[i] in Elements(r.displaced);
      RestoreMid(r.seen, source, r.displaced, i);
      hide Mid;
    }
  }

  lemma RestoreMid(seen: Entries, source: Entries, displaced: seq<string>, i: nat)
    requires Distinct(displaced) && i < |displaced| && displaced[i] in seen
    ensures Mid(seen, source, Elements(displaced[i..]), {})[displaced[i] := seen[displaced[i]]]
      == Mid(seen, source, Elements(displaced[i + 1..]), {})
  {
    assert displaced[i..] == [displaced[i]] + displaced[i + 1..] && displaced[i] !in displaced[i + 1..];
    assert Elements(displaced[i..]) == Elements(displaced[i + 1..]) + {displaced[i]};
  }

  /** How an exchange may end: the source's generation, or the target of the second look, unless the rollback failed. */
  ghost predicate EndsWell(group: Group, source: Entries, r: Repairer, t: Entries)
    requires |group| > 0
  {
    && (r.pc.Install? || r.pc.Restore?)
    && (r.pc.Install? ==> t == Generation(r.seen, group, source))
    && (r.pc.Restore? && r.clean ==> t == r.seen)
  }

  lemma ActIsExact(group: Group, source: Entries, t: Entries, r: Repairer, m: Move)
    requires WellFormedGroup(group) && Exchanging(r) && Exact(group, source, t, r)
    ensures var done := Act(group, source, t, r, m);
      if Exchanging(done.repairer) then Exact(group, source, done.target, done.repairer)
      else done.repairer.pc.Stopped? || EndsWell(group, source, r, done.target)
  {
    if m.Stop? { return; }
    hide Exact, Act, Generation;
    match r.pc
    case Displace(_) => DisplaceExact(group, source, t, r, m);
    case Install(_) => InstallExact(group, source, t, r, m);
    case Remove(_) => RemoveExact(group, source, t, r, m);
    case Restore(_) => RestoreExact(group, source, t, r, m);
  }

  /** Before its second look a repairer changes nothing; the look itself is where its exchange starts from. */
  lemma LooksAreExact(group: Group, source: Entries, t: Entries, r: Repairer, m: Move)
    requires WellFormedGroup(group) && !Exchanging(r)
    requires (r.pc.StageAll? || r.pc.Recheck? ==> group[0] in source) && (Looking(r) ==> r.displaced == [])
    ensures var done := Act(group, source, t, r, m); done.target == t && (Exchanging(done.repairer) ==>
      r.pc.Recheck? && done.repairer.seen == t && Exact(group, source, t, done.repairer))
  {
    hide Order;
    if r.pc.Recheck? {
      assert group[1..1] == [] && Elements(r.displaced) == {};
      MidOfNothing(t, source);
    }
  }

  ghost predicate AllExact(group: Group, source: Entries, w: World)
    requires |group| > 0
  {
    forall p :: 0 <= p < |w.repairers| && Exchanging(w.repairers[p]) ==> Exact(group, source, w.target, w.repairers[p])
  }

  lemma StepIsExact(group: Group, source: Entries, w: World, p: nat, m: Move)
    requires WellFormedGroup(group) && p < |w.repairers| && AllExact(group, source, w)
      && ProgressOf(group, source, w, p)
    requires Exchanging(w.repairers[p]) ==> OneAtATime(w)
    ensures var v := Step(group, source, w, p, m);
      && AllExact(group, source, v)
      && (Exchanging(w.repairers[p]) && v.repairers[p].pc.Finished? ==>
        EndsWell(group, source, w.repairers[p], v.target))
  {
    hide Exact, Act, Progress, EndsWell;
    var v := Step(group, source, w, p, m);
    if Exchanging(w.repairers[p]) {
      ActIsExact(group, source, w.target, w.repairers[p], m);
    } else {
      LooksAreExact(group, source, w.target, w.repairers[p], m);
    }
    assert Exchanging(w.repairers[p]) ==> forall q :: 0 <= q < |w.repairers| && q != p ==> !Exchanging(w.repairers[q]);
  }

  lemma {:induction false} RunsAreExact(group: Group, source: Entries, worlds: seq<World>, k: nat)
    requires WellFormedGroup(group) && Run(group, source, worlds) && k < |worlds| && group[0] !in worlds[0].target
    requires forall i :: 0 <= i < |worlds| ==> OneAtATime(worlds[i])
    ensures AllExact(group, source, worlds[k]) && |worlds[k].repairers| == |worlds[0].repairers|
  {
    hide Act, Exact, Progress, EndsWell;
    if k > 0 {
      RunsAreExact(group, source, worlds, k - 1);
      ExchangesApartAreSafe(group, source, worlds, k - 1);
      assert StepTo(group, source, worlds[k - 1], worlds[k - 1 + 1]);
      var p, m :| 0 <= p < |worlds[k - 1].repairers| && worlds[k] == Step(group, source, worlds[k - 1], p, m);
      assert ProgressOf(group, source, worlds[k - 1], p);
      StepIsExact(group, source, worlds[k - 1], p, m);
    }
  }

  /** A repairer's step leaves the others as they are, and what it saw stays what it saw at its second look. */
  lemma SeenSince(group: Group, source: Entries, r: Repairer, t: Entries, m: Move)
    requires |group| > 0
    ensures var s := Act(group, source, t, r, m).repairer;
      Exchanging(s) ==> if Exchanging(r) then s.seen == r.seen else r.pc.Recheck? && s.seen == t && group[0] !in t
  {
    hide Order, NeedsRepair;
  }

  /** What an exchanging repairer saw is the target in the state in which it took its second look. */
  lemma {:induction false} SeenAtSecondLook(group: Group, source: Entries, worlds: seq<World>, k: nat, p: nat)
      returns (i: nat)
    requires WellFormedGroup(group) && Run(group, source, worlds) && k < |worlds| && p < |worlds[k].repairers|
    requires Exchanging(worlds[k].repairers[p])
    ensures i < k && p < |worlds[i].repairers| && worlds[i].repairers[p].pc.Recheck? && group[0] !in worlds[i].target
    ensures worlds[k].repairers[p].seen == worlds[i].target
  {
    hide Act;
    assert k > 0;
    var w := worlds[k - 1];
    assert StepTo(group, source, w, worlds[k - 1 + 1]);
    var q, m :| 0 <= q < |w.repairers| && worlds[k] == Step(group, source, w, q, m);
    SeenSince(group, source, w.repairers[q], w.target, m);
    if Exchanging(w.repairers[p]) {
      i := SeenAtSecondLook(group, source, worlds, k - 1, p);
    } else {
      i := k - 1;
    }
  }

  /**
   All or nothing: in every run in which exchanges do not overlap, an exchange that ends has made the target
   the source's generation of the group over what its second look saw, or, if it failed and every step of the
   rollback succeeded, has made it again exactly what that look saw.
   */
  lemma ExchangesApartAreAllOrNothing(group: Group, source: Entries, worlds: seq<World>, k: nat, p: nat)
      returns (i: nat)
    requires WellFormedGroup(group) && Run(group, source, worlds) && k + 1 < |worlds| && group[0] !in worlds[0].target
    requires forall j :: 0 <= j < |worlds| ==> OneAtATime(worlds[j])
    requires p < |worlds[k].repairers| == |worlds[k + 1].repairers|
    requires Exchanging(worlds[k].repairers[p]) && worlds[k + 1].repairers[p].pc.Finished?
    ensures i < k && p < |worlds[i].repairers| && worlds[i].repairers[p].pc.Recheck?
    ensures var r, t := worlds[k].repairers[p], worlds[k + 1].target;
      if r.pc.Install? then t == Generation(worlds[i].target, group, source)
      else r.pc.Restore? && (r.clean ==> t == worlds[i].target)
  {
    hide Act, Exact, Progress;
    i := SeenAtSecondLook(group, source, worlds, k, p);
    RunsAreExact(group, source, worlds, k);
    ExchangesApartAreSafe(group, source, worlds, k);
    assert StepTo(group, source, worlds[k], worlds[k + 1]);
    var q, m :| 0 <= q < |worlds[k].repairers| && worlds[k + 1] == Step(group, source, worlds[k], q, m);
    assert ProgressOf(group, source, worlds[k], q);
    StepIsExact(group, source, worlds[k], q, m);
  }

  /* ---------- The caller's lock ---------- */

  /** A repairer that has not begun, has come to its end, or has died, does not hold the lock. */
  predicate Idle(r: Repairer) {
    r.pc.Check? || r.pc.Finished? || r.pc.Stopped?
  }

  ghost predicate LockedStep(group: Group, source: Entries, w: World, v: World)
    requires |group| > 0
  {
    exists p, m :: 0 <= p < |w.repairers| && v == Step(group, source, w, p, m)
      && forall q :: 0 <= q < |w.repairers| && q != p ==> Idle(w.repairers[q])
  }

  /** A run in which a repairer takes a step only while it alone holds the lock, from its first look to its end. */
  ghost predicate LockedRun(group: Group, source: Entries, worlds: seq<World>)
    requires |group| > 0
  {
    && |worlds| > 0 && (forall p :: 0 <= p < |worlds[0].repairers| ==> worlds[0].repairers[p] == FRESH)
    && forall k :: 0 <= k < |worlds| - 1 ==> LockedStep(group, source, worlds[k], worlds[k + 1])
  }

  lemma LockedRunsAreRuns(group: Group, source: Entries, worlds: seq<World>)
    requires |group| > 0 && LockedRun(group, source, worlds)
    ensures Run(group, source, worlds) && forall k :: 0 <= k < |worlds| ==> OneAtATime(worlds[k])
  {
    hide Act;
    forall k | 0 <= k < |worlds| - 1 ensures StepTo(group, source, worlds[k], worlds[k + 1]) {
      assert LockedStep(group, source, worlds[k], worlds[k + 1]);
    }
    forall k | 0 <= k < |worlds| ensures OneAtATime(worlds[k]) {
      if k > 0 { assert LockedStep(group, source, worlds[k - 1], worlds[k - 1 + 1]); }
    }
  }

  /**
   As the application calls it, under its single-instance lock, the repair keeps the group consistent in every
   state.
   */
  lemma LockedRepairsAreSafe(group: Group, source: Entries, worlds: seq<World>, k: nat)
    requires WellFormedGroup(group) && LockedRun(group, source, worlds) && k < |worlds|
    requires group[0] !in worlds[0].target
    ensures Consistent(worlds[k].target, group, source)
  {
    LockedRunsAreRuns(group, source, worlds);
    ExchangesApartAreSafe(group, source, worlds, k);
  }

  /* ---------- Two exchanges at a time are not ---------- */

  ghost predicate RunTo(group: Group, source: Entries, worlds: seq<World>, start: World, w: World)
    requires |group| > 0
  {
    Run(group, source, worlds) && worlds[0] == start && worlds[|worlds| - 1] == w
  }

  ghost predicate Reaches(group: Group, source: Entries, start: World, w: World)
    requires |group| > 0
  {
    exists worlds :: RunTo(group, source, worlds, start, w)
  }

  function Pair(t: Entries): World {
    World(t, [FRESH, FRESH])
  }

  ghost predicate CanBreak(group: Group, source: Entries, t: Entries)
    requires |group| > 0
  {
    exists w :: Reaches(group, source, Pair(t), w) && !Consistent(w.target, group, source)
  }

  ghost predicate HasSidecar(group: Group, store: Entries) {
    exists k :: 1 <= k < |group| && group[k] in store
  }

  lemma Start(group: Group, source: Entries, t: Entries)
    requires |group| > 0
    ensures Reaches(group, source, Pair(t), Pair(t))
  {
    assert RunTo(group, source, [Pair(t)], Pair(t), Pair(t));
  }

  lemma Advance(group: Group, source: Entries, start: World, w: World, p: nat, m: Move) returns (v: World)
    requires |group| > 0 && Reaches(group, source, start, w) && p < |w.repairers|
    ensures v == Step(group, source, w, p, m) && Reaches(group, source, start, v)
  {
    hide Act, Step;
    v := Step(group, source, w, p, m);
    var worlds :| RunTo(group, source, worlds, start, w);
    var longer := worlds + [v];
    assert StepTo(group, source, w, v);
    forall k | 0 <= k < |longer| - 1 ensures StepTo(group, source, longer[k], longer[k + 1]) {
      if k < |worlds| - 1 { assert StepTo(group, source, worlds[k], worlds[k + 1]); }
    }
    assert RunTo(group, source, longer, start, v);
  }

  /* Without sidecars anywhere nothing can go wrong */

  ghost predicate Bare(group: Group, source: Entries, t: Entries)
    requires |group| > 0
  {
    (forall k :: 1 <= k < |group| ==> group[k] !in t)
      && (group[0] in t ==> group[0] in source && t[group[0]] == source[group[0]])
  }

  ghost predicate BareWorker(r: Repairer) {
    r.displaced == [] && (r.pc.Install? ==> r.pc.j == 0) && (r.pc.Remove? ==> r.pc.i == 0)
  }

  ghost predicate BareWorld(group: Group, source: Entries, w: World)
    requires |group| > 0
  {
    Bare(group, source, w.target) && forall p :: 0 <= p < |w.repairers| ==> BareWorker(w.repairers[p])
  }

  lemma OnlyBase(group: Group, source: Entries)
    requires WellFormedGroup(group) && group[0] in source && !HasSidecar(group, source)
    ensures Order(group, source) == [group[0]]
  {
    OrderShape(group, source);
    var order := Order(group, source);
    hide Order;
    assert |order| > 1 ==> order[0] != order[1];
    forall i | 0 <= i < |order| ensures order[i] == group[0] {
      assert order[i] in order;
      var k :| 0 <= k < |group| && group[k] == order[i];
    }
  }

  lemma BareDisplace(group: Group, source: Entries, t: Entries, r: Repairer, m: Move)
    requires !m.Stop?
    requires |group| > 0 && Bare(group, source, t) && BareWorker(r) && r.pc.Displace? && 1 <= r.pc.k
    ensures var done := Act(group, source, t, r, m);
      done.target == t && BareWorker(done.repairer) && (done.repairer.pc.Displace? ==> 1 <= done.repairer.pc.k)
  {
    hide Order;
  }

  lemma BareInstall(group: Group, source: Entries, t: Entries, r: Repairer, m: Move)
    requires !m.Stop?
    requires WellFormedGroup(group) && group[0] in source && !HasSidecar(group, source)
    requires Bare(group, source, t) && BareWorker(r) && r.pc.Install?
    ensures var done := Act(group, source, t, r, m);
      Bare(group, source, done.target) && BareWorker(done.repairer) && !done.repairer.pc.Displace?
  {
    OnlyBase(group, source);
    hide Order, HasSidecar;
    assert [group[0]][0] == group[0];
  }

  lemma ActKeepsBare(group: Group, source: Entries, t: Entries, r: Repairer, m: Move)
    requires WellFormedGroup(group) && group[0] in source && !HasSidecar(group, source)
    requires Bare(group, source, t) && BareWorker(r) && (r.pc.Displace? ==> 1 <= r.pc.k)
    ensures var done := Act(group, source, t, r, m);
      Bare(group, source, done.target) && BareWorker(done.repairer)
        && (done.repairer.pc.Displace? ==> 1 <= done.repairer.pc.k)
  {
    hide Order, HasSidecar;
    if m.Stop? { return; }
    match r.pc
    case Displace(_) => BareDisplace(group, source, t, r, m);
    case Install(_) => BareInstall(group, source, t, r, m);
    case _ => hide Bare;
  }

  ghost predicate CountsFromOne(w: World) {
    forall p :: 0 <= p < |w.repairers| && w.repairers[p].pc.Displace? ==> 1 <= w.repairers[p].pc.k
  }

  lemma {:induction false} BareRuns(group: Group, source: Entries, worlds: seq<World>, k: nat)
    requires WellFormedGroup(group) && group[0] in source && !HasSidecar(group, source)
    requires Run(group, source, worlds) && k < |worlds| && Bare(group, source, worlds[0].target)
    ensures BareWorld(group, source, worlds[k]) && CountsFromOne(worlds[k])
  {
    hide Act, HasSidecar, Bare;
    if k > 0 {
      BareRuns(group, source, worlds, k - 1);
      assert StepTo(group, source, worlds[k - 1], worlds[k - 1 + 1]);
      var p, m :| 0 <= p < |worlds[k - 1].repairers| && worlds[k] == Step(group, source, worlds[k - 1], p, m);
      ActKeepsBare(group, source, worlds[k - 1].target, worlds[k - 1].repairers[p], m);
    }
  }

  lemma BareIsConsistent(group: Group, source: Entries, t: Entries)
    requires |group| > 0 && Bare(group, source, t) && !HasSidecar(group, source)
    ensures Consistent(t, group, source)
  {
    forall n | group[0] in t && n in group ensures SameAt(t, source, n) {
      var k :| 0 <= k < |group| && group[k] == n;
    }
  }

  /* With a sidecar the two exchanges undo each other */

  ghost predicate InStock(group: Group, r: Repairer)
    requires |group| > 0
  {
    forall n :: n in r.displaced ==> n in r.backup && n in group[1..]
  }

  /** One repairer displaces every sidecar that is left. */
  lemma {:induction false} DisplaceAll(group: Group, source: Entries, start: World, w: World, p: nat) returns (v: World)
    requires WellFormedGroup(group) && Reaches(group, source, start, w) && |w.repairers| == 2 && p < 2
    requires w.repairers[p].pc.Displace? && 1 <= w.repairers[p].pc.k <= |group| && InStock(group, w.repairers[p])
    ensures Reaches(group, source, start, v) && |v.repairers| == 2 && v.repairers[1 - p] == w.repairers[1 - p]
    ensures v.repairers[p].pc == Install(0) && InStock(group, v.repairers[p])
    ensures forall i :: w.repairers[p].pc.k <= i < |group| ==> group[i] !in v.target
    ensures forall n :: n !in group[w.repairers[p].pc.k..] ==> SameAt(v.target, w.target, n)
    ensures (exists i :: w.repairers[p].pc.k <= i < |group| && group[i] in w.target) ==> v.repairers[p].displaced != []
    ensures w.repairers[p].displaced != [] ==> v.repairers[p].displaced != []
    decreases |group| - w.repairers[p].pc.k
  {
    var k := w.repairers[p].pc.k;
    v := Advance(group, source, start, w, p, Go);
    if k < |group| {
      assert group[k] in group[1..];
      assert group[k..] == [group[k]] + group[k + 1..] && group[k] !in group[k + 1..];
      var u := v;
      v := DisplaceAll(group, source, start, u, p);
      assert SameAt(v.target, u.target, group[k]);
    }
  }

  /** One repairer installs all but the base entry. */
  lemma {:induction false} InstallSidecars(group: Group, source: Entries, start: World, w: World, p: nat)
      returns (v: World)
    requires WellFormedGroup(group) && group[0] in source && Reaches(group, source, start, w) && |w.repairers| == 2
      && p < 2
    requires w.repairers[p].pc.Install? && w.repairers[p].pc.j < |Order(group, source)|
    ensures Reaches(group, source, start, v) && |v.repairers| == 2 && v.repairers[1 - p] == w.repairers[1 - p]
    ensures v.repairers[p].pc == Install(|Order(group, source)| - 1)
    decreases |Order(group, source)| - w.repairers[p].pc.j
  {
    OrderShape(group, source);
    hide Order;
    var order, j := Order(group, source), w.repairers[p].pc.j;
    assert order[j] in order;
    v := w;
    if j + 1 < |order| {
      var u := Advance(group, source, start, w, p, Go);
      v := InstallSidecars(group, source, start, u, p);
    }
  }

  /** Both repairers take their second look before either displaces anything. */
  lemma BothLook(group: Group, source: Entries, t: Entries) returns (w: World)
    requires WellFormedGroup(group) && NeedsRepair(t, group, source)
    ensures Reaches(group, source, Pair(t), w) && w.target == t
    ensures w.repairers == [FRESH.(pc := Displace(1), seen := t), FRESH.(pc := Displace(1), seen := t)]
  {
    Start(group, source, t);
    w := Pair(t);
    w := Advance(group, source, Pair(t), w, 0, Go);
    w := Advance(group, source, Pair(t), w, 0, Go);
    w := Advance(group, source, Pair(t), w, 0, Go);
    w := Advance(group, source, Pair(t), w, 1, Go);
    w := Advance(group, source, Pair(t), w, 1, Go);
    w := Advance(group, source, Pair(t), w, 1, Go);
  }

  /** The second repairer displaces what the first has installed; then the first installs the base entry. */
  lemma BreaksBySourceSidecar(group: Group, source: Entries, t: Entries, k: nat)
    requires WellFormedGroup(group) && NeedsRepair(t, group, source) && 1 <= k < |group| && group[k] in source
    ensures CanBreak(group, source, t)
  {
    OrderShape(group, source);
    var start, order := Pair(t), Order(group, source);
    hide Order, Reaches;
    var w := BothLook(group, source, t);
    w := DisplaceAll(group, source, start, w, 0);
    w := InstallSidecars(group, source, start, w, 0);
    w := DisplaceAll(group, source, start, w, 1);
    assert order[|order| - 1] == group[0];
    w := Advance(group, source, start, w, 0, Go);
    assert group[0] in w.target && group[k] !in w.target && group[k] in group && group[0] != group[k];
    assert !SameAt(w.target, source, group[k]);
  }

  /**
   The first repairer displaces the target's orphans, the second installs the base entry, and the first rolls
   back.
   */
  lemma BreaksByTargetSidecar(group: Group, source: Entries, t: Entries)
    requires WellFormedGroup(group) && NeedsRepair(t, group, source) && !HasSidecar(group, source)
      && HasSidecar(group, t)
    ensures CanBreak(group, source, t)
  {
    OnlyBase(group, source);
    var start := Pair(t);
    hide Order, Reaches;
    assert [group[0]][0] == group[0];
    var w := BothLook(group, source, t);
    w := DisplaceAll(group, source, start, w, 0);
    w := DisplaceAll(group, source, start, w, 1);
    w := Advance(group, source, start, w, 1, Go);
    w := Advance(group, source, start, w, 0, Fail(""));
    w := Advance(group, source, start, w, 0, Go);
    var o := w.repairers[0].displaced[0];
    assert o in w.repairers[0].displaced;
    w := Advance(group, source, start, w, 0, Go);
    var k :| 1 <= k < |group| && group[k] == o;
    assert o in w.target && o !in source && o in group && group[0] in w.target;
    assert !SameAt(w.target, source, o);
  }

  /**
   Two repairers left to interleave freely can break a group that needs repair exactly when it has a
   sidecar, in the source or in the target.
   */
  lemma OverlapBreaksIff(group: Group, source: Entries, t: Entries)
    requires WellFormedGroup(group) && NeedsRepair(t, group, source)
    ensures CanBreak(group, source, t) <==> HasSidecar(group, source) || HasSidecar(group, t)
  {
    if HasSidecar(group, source) {
      var k :| 1 <= k < |group| && group[k] in source;
      BreaksBySourceSidecar(group, source, t, k);
    } else if HasSidecar(group, t) {
      BreaksByTargetSidecar(group, source, t);
    } else {
      hide Act, HasSidecar, Run;
      assert Bare(group, source, t) by { NoSidecarIsBare(group, source, t); }
      forall w | Reaches(group, source, Pair(t), w) ensures Consistent(w.target, group, source) {
        var worlds :| RunTo(group, source, worlds, Pair(t), w);
        RunIsNonempty(group, source, worlds);
        BareRuns(group, source, worlds, |worlds| - 1);
        BareIsConsistent(group, source, w.target);
      }
    }
  }

  lemma RunIsNonempty(group: Group, source: Entries, worlds: seq<World>)
    requires |group| > 0 && Run(group, source, worlds)
    ensures |worlds| > 0
  {
  }

  lemma NoSidecarIsBare(group: Group, source: Entries, t: Entries)
    requires |group| > 0 && !HasSidecar(group, t) && group[0] !in t
    ensures Bare(group, source, t)
  {
  }
}
