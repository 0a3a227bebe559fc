/**
 The cache of prepared sessions: one preparation in flight per session, invalidation, settlements
 that may come late, and eviction of the ready entries accessed longest ago.
 */
module SessionReadiness {
  import opened Sorting

  const MAX_CACHED: nat := 8

  /** A pending entry carries the identity of its promise. */
  datatype Entry = Pending(promise: nat, lastAccessedAt: int) | Ready(lastAccessedAt: int)

  type Entries = map<string, Entry>

  function ReadyKeys(m: Entries): set<string> {
    set k | k in m && m[k].Ready?
  }

  predicate IsReady(m: Entries, key: string) {
    key in m && m[key].Ready?
  }

  predicate IsPending(m: Entries, key: string, promise: nat) {
    key in m && m[key].Pending? && m[key].promise == promise
  }

  /** `b` is `a` after eviction to capacity: only ready entries go, and none accessed later than a survivor. */
  ghost predicate Evicts(a: Entries, b: Entries) {
    && (forall k :: k in b ==> k in a && b[k] == a[k])
    && (forall k :: k in a && a[k].Pending? ==> k in b)
    && |ReadyKeys(b)| == (if |ReadyKeys(a)| <= MAX_CACHED then |ReadyKeys(a)| else MAX_CACHED)
    && (forall k, j :: k in ReadyKeys(a) && k !in b && j in ReadyKeys(b) ==> a[k].lastAccessedAt <= a[j].lastAccessedAt)
  }

  /* ---------- The protocol ---------- */

  /** `unsettled` maps the promises whose preparation still runs to their sessions. */
  datatype State = State(entries: Entries, nextPromise: nat, unsettled: map<nat, string>)

  datatype Event =
    | Mark(key: string, now: int)
    | Prepare(key: string, now: int)
    | Settle(promise: nat, ok: bool, now: int)
    | Invalidate(key: string)

  const EMPTY := State(map[], 0, map[])

  ghost predicate Enabled(s: State, e: Event) {
    e.Settle? ==> e.promise in s.unsettled
  }

  ghost predicate Starts(s: State, e: Event, key: string) {
    e.Prepare? && e.key == key && key !in s.entries
  }

  ghost predicate Next(s: State, e: Event, t: State)
    requires Enabled(s, e)
  {
    match e
    case Mark(key, now) => Evicts(s.entries[key := Ready(now)], t.entries) && t == s.(entries := t.entries)
    case Prepare(key, now) =>
      if key !in s.entries then
        t == State(s.entries[key := Pending(s.nextPromise, now)], s.nextPromise + 1, s.unsettled[s.nextPromise := key])
      else
        t == s.(entries := s.entries[key := s.entries[key].(lastAccessedAt := now)])
    case Settle(p, ok, now) =>
      var key := s.unsettled[p];
      && t == State(t.entries, s.nextPromise, s.unsettled - {p})
      && (if !IsPending(s.entries, key, p) then t.entries == s.entries
          else if ok then Evicts(s.entries[key := Ready(now)], t.entries)
          else t.entries == s.entries - {key})
    case Invalidate(key) => t == s.(entries := s.entries - {key})
  }

  ghost predicate Run(events: seq<Event>, states: seq<State>) {
    && |states| == |events| + 1 && states[0] == EMPTY
    && forall i, j :: 0 <= i < |events| && j == i + 1 ==>
      Enabled(states[i], events[i]) && Next(states[i], events[i], states[j])
  }

  /* ---------- Who stays ready ---------- */

  /** Fewer than eight other sessions are ready. */
  ghost predicate HasRoom(m: Entries, key: string) {
    |ReadyKeys(m) - {key}| < 8
  }

  /** Some other ready session was last accessed before `now`. */
  ghost predicate HasElder(m: Entries, key: string, now: int) {
    exists k :: k != key && IsReady(m, k) && m[k].lastAccessedAt < now
  }

  /** There is no room, and every other ready session was accessed after `now`. */
  ghost predicate IsEldest(m: Entries, key: string, now: int) {
    !HasRoom(m, key) && forall k :: k != key && IsReady(m, k) ==> now < m[k].lastAccessedAt
  }

  lemma CardOfPart(a: set<string>, b: set<string>)
    requires a <= b
    ensures |a| <= |b| && (|a| == |b| ==> a == b)
  {
    assert b == a + (b - a) && |b| == |a| + |b - a|;
  }

  /** Making a session ready and evicting keeps it ready if there is room or an elder, and drops it as the eldest. */
  lemma NewcomerStays(m: Entries, key: string, now: int, t: Entries)
    requires |ReadyKeys(m)| <= MAX_CACHED && Evicts(m[key := Ready(now)], t)
    ensures HasRoom(m, key) || HasElder(m, key, now) ==> key in t && t[key] == Ready(now)
    ensures IsEldest(m, key, now) ==> key !in t
  {
    var a := m[key := Ready(now)];
    var others := ReadyKeys(m) - {key};
    assert ReadyKeys(a) == others + {key} && |ReadyKeys(a)| == |others| + 1;
    CardOfPart(others, ReadyKeys(m));
    assert ReadyKeys(t) <= ReadyKeys(a);
    CardOfPart(ReadyKeys(t), ReadyKeys(a));
    if key !in t {
      CardOfPart(ReadyKeys(t), others);
      assert ReadyKeys(t) == others;
      forall k | k != key && IsReady(m, k) ensures now <= m[k].lastAccessedAt {
        assert k in ReadyKeys(t) && key in ReadyKeys(a);
      }
    } else if IsEldest(m, key, now) {
      assert key in ReadyKeys(t);
      assert forall k :: k in others && k !in ReadyKeys(t) ==> k in ReadyKeys(a) && k !in t;
      assert ReadyKeys(a) <= ReadyKeys(t);
      CardOfPart(ReadyKeys(a), ReadyKeys(t));
    }
  }

  /* ---------- The cache itself ---------- */

  datatype Access = Access(key: string, lastAccessedAt: int)

  predicate AccessLeq(a: Access, b: Access) {
    a.lastAccessedAt <= b.lastAccessedAt
  }

  /** The ready entries of the map in insertion order. */
  function ReadyAccesses(order: seq<string>, m: Entries): seq<Access> {
    if order == [] then []
    else
      var first := if IsReady(m, order[0]) then [Access(order[0], m[order[0]].lastAccessedAt)] else [];
      first + ReadyAccesses(order[1..], m)
  }

  ghost predicate OneEach(s: seq<Access>) {
    forall i, j :: 0 <= i < j < |s| ==> s[i].key != s[j].key
  }

  /** The list names every ready entry once, with its time of access. */
  ghost predicate Lists(s: seq<Access>, m: Entries) {
    && OneEach(s)
    && (forall a :: a in s ==> IsReady(m, a.key) && m[a.key].lastAccessedAt == a.lastAccessedAt)
    && (forall k :: IsReady(m, k) ==> Access(k, m[k].lastAccessedAt) in s)
  }

  lemma {:induction false} ReadyAccessesList(order: seq<string>, m: Entries)
    requires Distinct(order)
    ensures OneEach(ReadyAccesses(order, m))
    ensures forall a :: a in ReadyAccesses(order, m) <==>
      a.key in order && IsReady(m, a.key) && m[a.key].lastAccessedAt == a.lastAccessedAt
  {
    if order != [] {
      ReadyAccessesList(order[1..], m);
      assert order == [order[0]] + order[1..];
      assert order[0] !in order[1..];
    }
  }

  lemma AccessesAreListed(order: seq<string>, m: Entries)
    requires Distinct(order) && forall k :: k in order <==> k in m
    ensures Lists(ReadyAccesses(order, m), m)
  {
    ReadyAccessesList(order, m);
  }

  lemma SortedStillLists(s: seq<Access>, m: Entries)
    requires Lists(s, m)
    ensures Lists(SortBy(s, AccessLeq), m) && SortedBy(SortBy(s, AccessLeq), AccessLeq)
  {
    var r := SortBy(s, AccessLeq);
    SortBySorted(s, AccessLeq);
    SortByMembers(s, AccessLeq);
    SortByDistinct(s, AccessLeq);
    forall i, j | 0 <= i < j < |r| ensures r[i].key != r[j].key {
      assert r[i] in s && r[j] in s && r[i] != r[j];
    }
  }

  lemma {:induction false} ListedCount(s: seq<Access>, keys: set<string>)
    requires OneEach(s) && forall k :: k in keys <==> exists i :: 0 <= i < |s| && s[i].key == k
    ensures |keys| == |s|
  {
    if s == [] {
      assert keys == {};
    } else {
      var i := |s| - 1;
      var rest := keys - {s[i].key};
      forall k ensures k in rest <==> exists j :: 0 <= j < i && s[..i][j].key == k {
        if k in rest {
          var j :| 0 <= j < |s| && s[j].key == k;
          assert s[..i][j].key == k;
        }
      }
      ListedCount(s[..i], rest);
    }
  }

  lemma ReadyCount(s: seq<Access>, m: Entries)
    requires Lists(s, m)
    ensures |ReadyKeys(m)| == |s|
  {
    forall k ensures k in ReadyKeys(m) <==> exists i :: 0 <= i < |s| && s[i].key == k {
      if k in ReadyKeys(m) {
        assert Access(k, m[k].lastAccessedAt) in s;
      }
    }
    ListedCount(s, ReadyKeys(m));
  }

  datatype Prepared = AlreadyReady | Joined(promise: nat) | Started(promise: nat)

  class ReadinessCache {
    var entries: Entries
    /** The keys in the order in which the map iterates. */
    var order: seq<string>
    var nextPromise: nat
    var unsettled: map<nat, string>

    constructor ()
      ensures Valid() && View() == EMPTY
    {
      entries, order, nextPromise, unsettled := map[], [], 0, map[];
    }

    ghost function View(): State
      reads this
    {
      State(entries, nextPromise, unsettled)
    }

    ghost predicate Valid()
      reads this
    {
      Distinct(order) && forall k :: k in order <==> k in entries
    }

    method Set(key: string, entry: Entry)
      requires Valid()
      modifies this`entries, this`order
      ensures Valid() && entries == old(entries)[key := entry]
    {
      if key !in entries { order := order + [key]; }
      entries := entries[key := entry];
    }

    method Delete(key: string)
      requires Valid()
      modifies this`entries, this`order
      ensures Valid() && entries == old(entries) - {key}
    {
      order := Without(order, key);
      entries := entries - {key};
    }

    method EvictReadyEntriesToCapacity()
      requires Valid()
      modifies this`entries, this`order
      ensures Valid() && Evicts(old(entries), entries)
    {
      hide Lists, SortedBy, Evicts, Distinct, SortBy, ReadyAccesses, KeysOf;
      ghost var before := entries;
      DropKeys(entries, {}, "");
      AccessesAreListed(order, entries);
      var readyEntries := SortBy(ReadyAccesses(order, entries), AccessLeq);
      SortedStillLists(ReadyAccesses(order, entries), entries);
      var readyEntryCount := |readyEntries|;
      var i := 0;
      while i < |readyEntries|
        invariant 0 <= i <= |readyEntries| && readyEntryCount == |readyEntries| - i
        invariant Valid() && entries == before - KeysOf(readyEntries[..i])
        invariant i > 0 ==> readyEntryCount >= MAX_CACHED
      {
        if readyEntryCount <= MAX_CACHED { break; }
        KeysOfNext(readyEntries, i);
        DropKeys(before, KeysOf(readyEntries[..i]), readyEntries[i].key);
        Delete(readyEntries[i].key);
        readyEntryCount := readyEntryCount - 1;
        i := i + 1;
      }
      DroppingOldestEvicts(before, readyEntries, i);
    }

    function IsAgentGroupSessionPrepared(key: string): bool
      reads this
    {
      IsReady(entries, key)
    }

    method MarkAgentGroupSessionPrepared(key: string, now: int)
      requires Valid()
      modifies this
      ensures Valid() && Next(old(View()), Mark(key, now), View())
      ensures Inv(old(View())) && (HasRoom(old(entries), key) || HasElder(old(entries), key, now)) ==>
        IsAgentGroupSessionPrepared(key) && entries[key].lastAccessedAt == now
    {
      hide Evicts, HasRoom, HasElder, Inv, Distinct;
      Set(key, Ready(now));
      EvictReadyEntriesToCapacity();
      if Inv(old(View())) { NewcomerIsPrepared(old(View()), key, now, entries); }
    }

    /** Joins the preparation in flight, or starts one. */
    method PrepareAgentGroupSession(key: string, now: int) returns (result: Prepared)
      requires Valid()
      modifies this
      ensures Valid() && Next(old(View()), Prepare(key, now), View())
      ensures result.Started? <==> Starts(old(View()), Prepare(key, now), key)
      ensures result.Started? ==> result.promise == old(nextPromise) && IsPending(entries, key, result.promise)
      ensures result.Joined? ==> IsPending(old(entries), key, result.promise)
      ensures result.AlreadyReady? <==> IsReady(old(entries), key)
      ensures key in entries && entries[key].lastAccessedAt == now
      ensures entries[key].Ready? <==> result.AlreadyReady?
    {
      if key in entries {
        var existing := entries[key];
        Set(key, existing.(lastAccessedAt := now));
        return if existing.Ready? then AlreadyReady else Joined(existing.promise);
      }
      var promise := nextPromise;
      nextPromise := nextPromise + 1;
      unsettled := unsettled[promise := key];
      Set(key, Pending(promise, now));
      result := Started(promise);
    }

    /** The preparation behind the promise has succeeded or failed. */
    method SettlePreparation(promise: nat, ok: bool, now: int)
      requires Valid() && promise in unsettled
      modifies this
      ensures Valid() && Next(old(View()), Settle(promise, ok, now), View())
      ensures var key := old(unsettled)[promise];
        IsPending(old(entries), key, promise) && Inv(old(View())) ==>
          && (ok && (HasRoom(old(entries), key) || HasElder(old(entries), key, now)) ==>
                IsAgentGroupSessionPrepared(key) && entries[key].lastAccessedAt == now)
          && (!ok ==> key !in entries)
    {
      hide Evicts, HasRoom, HasElder, Inv, Distinct;
      var key := unsettled[promise];
      unsettled := unsettled - {promise};
      if IsPending(entries, key, promise) {
        if ok {
          Set(key, Ready(now));
          EvictReadyEntriesToCapacity();
          if Inv(old(View())) { NewcomerIsPrepared(old(View()), key, now, entries); }
        } else {
          Delete(key);
        }
      }
    }

    method InvalidateAgentGroupSessionReadiness(key: string)
      requires Valid()
      modifies this
      ensures Valid() && Next(old(View()), Invalidate(key), View())
      ensures !IsAgentGroupSessionPrepared(key) && forall k :: k != key && k in old(entries) ==> k in entries
    {
      Delete(key);
    }
  }

  ghost function KeysOf(s: seq<Access>): set<string> {
    set i | 0 <= i < |s| :: s[i].key
  }

  lemma KeysOfNext(s: seq<Access>, i: nat)
    requires i < |s|
    ensures KeysOf(s[..i + 1]) == KeysOf(s[..i]) + {s[i].key}
  {
    assert s[..i + 1] == s[..i] + [s[i]];
    assert forall k :: k in KeysOf(s[..i]) ==> exists j :: 0 <= j < i && s[j].key == k;
    forall k | k in KeysOf(s[..i]) ensures k in KeysOf(s[..i + 1]) {
      var j :| 0 <= j < i && s[..i][j].key == k;
      assert s[..i + 1][j].key == k;
    }
    assert s[..i + 1][i].key == s[i].key;
  }

  lemma DropKeys(m: Entries, keys: set<string>, key: string)
    ensures m - keys - {key} == m - (keys + {key})
    ensures KeysOf([]) == {} && m - {} == m
  {
  }

  /** Without the first keys the map lists the rest. */
  lemma RestIsListed(m: Entries, s: seq<Access>, i: nat)
    requires Lists(s, m) && i <= |s|
    ensures Lists(s[i..], m - KeysOf(s[..i]))
  {
    var b := m - KeysOf(s[..i]);
    forall a | a in s[i..] ensures IsReady(b, a.key) && b[a.key].lastAccessedAt == a.lastAccessedAt {
      var j :| 0 <= j < |s| - i && s[i..][j] == a;
      assert a == s[i + j] && a in s;
      forall k | 0 <= k < i ensures s[..i][k].key != a.key { assert s[k].key != s[i + j].key; }
    }
    forall k | IsReady(b, k) ensures Access(k, b[k].lastAccessedAt) in s[i..] {
      var a := Access(k, m[k].lastAccessedAt);
      assert a in s;
      var j :| 0 <= j < |s| && s[j] == a;
      assert forall x :: 0 <= x < i ==> s[..i][x].key in KeysOf(s[..i]);
      assert j >= i;
      assert s[i..][j - i] == a;
    }
  }

  lemma DroppedAreOldest(m: Entries, s: seq<Access>, i: nat, k: string, j: string)
    requires Lists(s, m) && SortedBy(s, AccessLeq) && i <= |s|
    requires k in KeysOf(s[..i]) && IsReady(m - KeysOf(s[..i]), j)
    ensures IsReady(m, k) && IsReady(m, j) && m[k].lastAccessedAt <= m[j].lastAccessedAt
  {
    var x :| 0 <= x < i && s[..i][x].key == k;
    assert s[x] in s;
    RestIsListed(m, s, i);
    var a := Access(j, m[j].lastAccessedAt);
    assert a in s[i..];
    var y :| 0 <= y < |s| - i && s[i..][y] == a;
    assert AccessLeq(s[x], s[i + y]) && s[i + y] in s;
  }

  /** Dropping a prefix of the sorted ready entries, just enough for the capacity, is an eviction. */
  lemma DroppingOldestEvicts(m: Entries, s: seq<Access>, i: nat)
    requires Lists(s, m) && SortedBy(s, AccessLeq) && i <= |s|
    requires if |s| <= MAX_CACHED then i == 0 else |s| - i == MAX_CACHED
    ensures Evicts(m, m - KeysOf(s[..i]))
  {
    hide Lists, SortedBy, KeysOf;
    var b := m - KeysOf(s[..i]);
    ReadyCount(s, m);
    RestIsListed(m, s, i);
    ReadyCount(s[i..], b);
    forall k | k in KeysOf(s[..i]) ensures IsReady(m, k) {
      DroppedIsReady(m, s, i, k);
    }
    forall k, j | k in ReadyKeys(m) && k !in b && j in ReadyKeys(b) ensures m[k].lastAccessedAt <= m[j].lastAccessedAt {
      DroppedAreOldest(m, s, i, k, j);
    }
  }

  lemma DroppedIsReady(m: Entries, s: seq<Access>, i: nat, k: string)
    requires Lists(s, m) && i <= |s| && k in KeysOf(s[..i])
    ensures IsReady(m, k)
  {
    var x :| 0 <= x < i && s[..i][x].key == k;
    assert s[x] in s;
  }

  /* ---------- Whole runs ---------- */

  ghost predicate Inv(s: State) {
    && |ReadyKeys(s.entries)| <= 8
    && (forall p :: p in s.unsettled ==> p < s.nextPromise)
    && (forall k :: k in s.entries && s.entries[k].Pending? ==>
          s.entries[k].promise in s.unsettled && s.unsettled[s.entries[k].promise] == k)
  }

  lemma NextKeepsInv(s: State, e: Event, t: State)
    requires Inv(s) && Enabled(s, e) && Next(s, e, t)
    ensures Inv(t)
  {
    match e
    case Mark(key, now) =>
    case Prepare(key, now) =>
      assert ReadyKeys(t.entries) == ReadyKeys(s.entries);
    case Settle(p, ok, now) =>
      RemovalFreesReady(s.entries, s.unsettled[p]);
    case Invalidate(key) =>
      RemovalFreesReady(s.entries, key);
  }

  lemma RemovalFreesReady(m: Entries, key: string)
    ensures |ReadyKeys(m - {key})| <= |ReadyKeys(m)|
  {
    assert ReadyKeys(m - {key}) == ReadyKeys(m) - {key};
    assert ReadyKeys(m) - {key} <= ReadyKeys(m);
    if key in ReadyKeys(m) {
      assert |ReadyKeys(m) - {key}| == |ReadyKeys(m)| - 1;
    } else {
      assert ReadyKeys(m) - {key} == ReadyKeys(m);
    }
  }

  /** At most eight ready entries after every step, and every pending entry belongs to a running preparation. */
  lemma {:induction false} RunInv(events: seq<Event>, states: seq<State>, t: nat)
    requires Run(events, states) && t <= |events|
    ensures Inv(states[t])
  {
    if t > 0 {
      RunInv(events, states, t - 1);
      NextKeepsInv(states[t - 1], events[t - 1], states[t]);
    } else {
      assert ReadyKeys(EMPTY.entries) == {};
    }
  }

  /** Since its start at `i`, the preparation `p` has held the entry of `key`. */
  ghost predicate InFlightSince(events: seq<Event>, states: seq<State>, i: nat, t: nat, key: string, p: nat)
    requires |states| == |events| + 1
  {
    && i < t <= |events| && Starts(states[i], events[i], key) && states[i].nextPromise == p
    && forall j :: i < j <= t ==> IsPending(states[j].entries, key, p)
  }

  /** One pending entry means one prepare call: nothing else started for this session since then. */
  lemma {:induction false} SingleFlight(events: seq<Event>, states: seq<State>, t: nat, key: string, p: nat)
      returns (i: nat)
    requires Run(events, states) && t <= |events| && IsPending(states[t].entries, key, p)
    ensures InFlightSince(events, states, i, t, key, p)
    ensures forall j :: i < j < t ==> !Starts(states[j], events[j], key)
    ensures forall j :: i < j < t ==> events[j] != Invalidate(key)
  {
    var s, e := states[t - 1], events[t - 1];
    assert Next(s, e, states[t]);
    if IsPending(s.entries, key, p) {
      i := SingleFlight(events, states, t - 1, key, p);
    } else {
      i := t - 1;
    }
  }

  /** The promise numbers of a run never shrink. */
  lemma {:induction false} PromisesGrow(events: seq<Event>, states: seq<State>, i: nat, j: nat)
    requires Run(events, states) && i <= j <= |events|
    ensures states[i].nextPromise <= states[j].nextPromise
  {
    if i < j {
      PromisesGrow(events, states, i, j - 1);
      assert Next(states[j - 1], events[j - 1], states[j]);
    }
  }

  /** No promise is started twice: a later start takes a greater number, whatever its session. */
  lemma PromisesAreFresh(events: seq<Event>, states: seq<State>, i: nat, j: nat, key: string)
    requires Run(events, states) && i < j <= |events| && Starts(states[i], events[i], key)
    ensures states[i].nextPromise < states[j].nextPromise
  {
    assert Next(states[i], events[i], states[i + 1]);
    PromisesGrow(events, states, i + 1, j);
  }

  /** What makes a session ready: a mark, or the success of a preparation that no invalidation overtook. */
  ghost predicate MadeReadyAt(events: seq<Event>, states: seq<State>, m: nat, key: string)
    requires |states| == |events| + 1
  {
    && m < |events|
    && ((events[m].Mark? && events[m].key == key)
        || (events[m].Settle? && events[m].ok
            && exists i: nat :: InFlightSince(events, states, i, m, key, events[m].promise)
                 && forall j :: i <= j < m ==> events[j] != Invalidate(key)))
  }

  ghost predicate Justified(events: seq<Event>, states: seq<State>, t: nat, key: string)
    requires |states| == |events| + 1 && t <= |events|
  {
    exists m :: 0 <= m < t && MadeReadyAt(events, states, m, key) && forall j :: m <= j < t ==>
      events[j] != Invalidate(key)
  }

  /** In every run, ready means marked or successfully prepared since the last invalidation. */
  lemma {:induction false} ReadyIsJustified(events: seq<Event>, states: seq<State>, t: nat, key: string)
    requires Run(events, states) && t <= |events| && IsReady(states[t].entries, key)
    ensures Justified(events, states, t, key)
  {
    var s, e := states[t - 1], events[t - 1];
    assert Next(s, e, states[t]);
    if IsReady(s.entries, key) {
      ReadyIsJustified(events, states, t - 1, key);
      var m :| 0 <= m < t - 1 && MadeReadyAt(events, states, m, key) && forall j :: m <= j < t - 1 ==>
        events[j] != Invalidate(key);
      assert MadeReadyAt(events, states, m, key);
    } else {
      if e.Settle? {
        var i := SingleFlight(events, states, t - 1, key, e.promise);
        assert InFlightSince(events, states, i, t - 1, key, e.promise);
      }
      assert MadeReadyAt(events, states, t - 1, key);
    }
  }

  /** A settlement of a preparation that an invalidation has overtaken changes no entry. */
  lemma StaleSettlementChangesNothing(events: seq<Event>, states: seq<State>, i: nat, j: nat, t: nat, key: string)
    requires Run(events, states) && i < j < t < |events|
    requires Starts(states[i], events[i], key) && events[j] == Invalidate(key)
    requires events[t].Settle? && events[t].promise == states[i].nextPromise
    requires events[t].promise in states[t].unsettled && states[t].unsettled[events[t].promise] == key
    ensures states[t + 1].entries == states[t].entries
  {
    var p := states[i].nextPromise;
    assert Next(states[t], events[t], states[t + 1]);
    if IsPending(states[t].entries, key, p) {
      var i' := SingleFlight(events, states, t, key, p);
      assert Next(states[i], events[i], states[i + 1]) && Next(states[i'], events[i'], states[i' + 1]);
      PromisesGrow(events, states, i + 1, i');
    }
  }

  /** Marking and settling never evict a pending entry, and evict only entries no younger than the survivors. */
  lemma EvictionIsFair(s: State, e: Event, t: State, key: string, survivor: string)
    requires Inv(s) && Enabled(s, e) && Next(s, e, t) && (e.Mark? || (e.Settle? && e.ok))
    requires key in s.entries && key !in t.entries && IsReady(t.entries, survivor)
    ensures IsReady(s.entries, key) || (e.Settle? && s.unsettled[e.promise] == key) || (e.Mark? && e.key == key)
    ensures IsReady(s.entries, key) && survivor != key && (e.Mark? ==> e.key != key) ==>
      s.entries[key].lastAccessedAt <= t.entries[survivor].lastAccessedAt
  {
    var k := if e.Mark? then e.key else s.unsettled[e.promise];
    var before := s.entries[k := Ready(e.now)];
    if key != k {
      assert before[key] == s.entries[key];
      if before[key].Ready? { assert key in ReadyKeys(before) && survivor in ReadyKeys(t.entries); }
    }
  }

  /* ---------- What events bring about ---------- */

  lemma NewcomerIsPrepared(s: State, key: string, now: int, t: Entries)
    requires Inv(s) && Evicts(s.entries[key := Ready(now)], t)
    ensures HasRoom(s.entries, key) || HasElder(s.entries, key, now) ==> key in t && t[key] == Ready(now)
  {
    NewcomerStays(s.entries, key, now, t);
  }

  /** In every run, a mark makes its session ready, room or an elder given; as the eldest it goes at once. */
  lemma MarkMakesReady(events: seq<Event>, states: seq<State>, t: nat)
    requires Run(events, states) && t < |events| && events[t].Mark?
    ensures var m, e := states[t].entries, events[t]; var u := states[t + 1].entries;
      && (HasRoom(m, e.key) || HasElder(m, e.key, e.now) ==> e.key in u && u[e.key] == Ready(e.now))
      && (IsEldest(m, e.key, e.now) ==> e.key !in u)
  {
    RunInv(events, states, t);
    assert Next(states[t], events[t], states[t + 1]);
    NewcomerStays(states[t].entries, events[t].key, events[t].now, states[t + 1].entries);
  }

  /**
   In every run, the success of a preparation whose entry is still pending makes its session ready, room or an
   elder given, and its failure leaves no entry.
   */
  lemma SettlementDecides(events: seq<Event>, states: seq<State>, t: nat, key: string)
    requires Run(events, states) && t < |events| && events[t].Settle?
    requires IsPending(states[t].entries, key, events[t].promise)
    ensures var m, e := states[t].entries, events[t]; var u := states[t + 1].entries;
      && (e.ok && (HasRoom(m, key) || HasElder(m, key, e.now)) ==> key in u && u[key] == Ready(e.now))
      && (e.ok && IsEldest(m, key, e.now) ==> key !in u)
      && (!e.ok ==> key !in u)
  {
    RunInv(events, states, t);
    assert Next(states[t], events[t], states[t + 1]);
    if events[t].ok { NewcomerStays(states[t].entries, key, events[t].now, states[t + 1].entries); }
  }

  /** After a failure the next prepare of the session starts anew, with a promise of its own. */
  lemma FailureAllowsANewStart(events: seq<Event>, states: seq<State>, t: nat, key: string)
    requires Run(events, states) && t + 1 < |events| && events[t].Settle? && !events[t].ok
    requires IsPending(states[t].entries, key, events[t].promise)
    requires events[t + 1].Prepare? && events[t + 1].key == key
    ensures Starts(states[t + 1], events[t + 1], key) && states[t + 1].nextPromise > events[t].promise
    ensures IsPending(states[t + 2].entries, key, states[t + 1].nextPromise)
  {
    RunInv(events, states, t);
    assert Next(states[t], events[t], states[t + 1]) && Next(states[t + 1], events[t + 1], states[t + 2]);
  }

  /** Preparing a session that has an entry starts nothing: it only counts as an access. */
  lemma PrepareJoinsOrIsReady(events: seq<Event>, states: seq<State>, t: nat, key: string)
    requires Run(events, states) && t < |events| && events[t].Prepare? && events[t].key == key
    requires key in states[t].entries
    ensures var before, after := states[t], states[t + 1];
      && after.nextPromise == before.nextPromise && after.unsettled == before.unsettled
      && key in after.entries && after.entries[key].lastAccessedAt == events[t].now
      && (IsReady(after.entries, key) <==> IsReady(before.entries, key))
      && (before.entries[key].Pending? ==> IsPending(after.entries, key, before.entries[key].promise))
  {
    assert Next(states[t], events[t], states[t + 1]);
  }

  /** An invalidation leaves its session without an entry. */
  lemma InvalidationForgets(events: seq<Event>, states: seq<State>, t: nat, key: string)
    requires Run(events, states) && t < |events| && events[t] == Invalidate(key)
    ensures key !in states[t + 1].entries
  {
    assert Next(states[t], events[t], states[t + 1]);
  }

  ghost predicate About(s: State, e: Event, key: string) {
    match e
    case Mark(k, _) => k == key
    case Prepare(k, _) => k == key
    case Settle(p, _, _) => p in s.unsettled && s.unsettled[p] == key
    case Invalidate(k) => k == key
  }

  /** An event leaves the entries of other sessions as they are, but for ready ones that eviction takes. */
  lemma OthersAreUntouched(events: seq<Event>, states: seq<State>, t: nat, key: string)
    requires Run(events, states) && t < |events| && !About(states[t], events[t], key)
    ensures key in states[t + 1].entries ==>
      key in states[t].entries && states[t + 1].entries[key] == states[t].entries[key]
    ensures key in states[t].entries && key !in states[t + 1].entries ==>
      IsReady(states[t].entries, key) && (events[t].Mark? || (events[t].Settle? && events[t].ok))
  {
    var e := events[t];
    assert Next(states[t], e, states[t + 1]);
    var k := match e case Mark(k, _) => k case Prepare(k, _) => k case Settle(p, _, _) => states[t].unsettled[p]
      case Invalidate(k) => k;
    assert k != key;
    var m := states[t].entries[k := Ready(0)];
    assert key in states[t].entries ==> m[key] == states[t].entries[key];
  }
}
