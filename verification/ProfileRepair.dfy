/**
 The browser-profile repair: every group of entries (a database and its sidecars) whose base entry
 is missing from the target partition is staged, the orphaned target sidecars are displaced, the
 staged entries are moved in with the base entry last, and a failure rolls the group back.

 The partitions are maps from entry name to content. Each file operation may fail whenever it is
 called, so what is proved holds for every pattern of failures.
 */
module ProfileRepair {
  import opened Sorting

  type Content = string
  type Entries = map<string, Content>
  type Group = seq<string>

  const ENTRY_GROUPS: seq<Group> := [
    ["Cookies", "Cookies-journal", "Cookies-wal", "Cookies-shm"],
    ["Local Storage"],
    ["IndexedDB"],
    ["Session Storage"],
    ["WebStorage"],
    ["Service Worker"],
    ["Preferences"],
    ["Network Persistent State"],
    ["TransportSecurity"],
    ["Trust Tokens", "Trust Tokens-journal", "Trust Tokens-wal", "Trust Tokens-shm"],
    ["SharedStorage", "SharedStorage-journal", "SharedStorage-wal", "SharedStorage-shm"],
    ["shared_proto_db"]
  ]

  /* ---------- What a repair is meant to achieve ---------- */

  ghost predicate SameAt(a: Entries, b: Entries, n: string) {
    (n in a <==> n in b) && (n in a ==> a[n] == b[n])
  }

  ghost predicate WellFormedGroup(group: Group) {
    |group| > 0 && Distinct(group)
  }

  ghost predicate WellFormedGroups(groups: seq<Group>) {
    && (forall i :: 0 <= i < |groups| ==> WellFormedGroup(groups[i]))
    && (forall i, j, n :: 0 <= i < j < |groups| && n in groups[i] ==> n !in groups[j])
  }

  /** `t` with the entries of the group replaced by those of the source. */
  ghost function Generation(t: Entries, group: Group, source: Entries): Entries {
    map n | n in t.Keys + source.Keys && (if n in group then n in source else n in t)
      :: if n in group then source[n] else t[n]
  }

  predicate NeedsRepair(t: Entries, group: Group, source: Entries)
    requires |group| > 0
  {
    group[0] in source && group[0] !in t
  }

  /** The base entry is present only together with exactly the source's sidecars. */
  ghost predicate Consistent(t: Entries, group: Group, source: Entries)
    requires |group| > 0
  {
    group[0] in t ==> forall n :: n in group ==> SameAt(t, source, n)
  }

  function Present(names: seq<string>, source: Entries): (r: seq<string>)
    ensures forall n :: n in r <==> n in names && n in source
  {
    if names == [] then []
    else
      var rest := Present(names[1..], source);
      if names[0] in source then [names[0]] + rest else rest
  }

  lemma PresentDistinct(names: seq<string>, source: Entries)
    requires Distinct(names)
    ensures Distinct(Present(names, source))
  {
  }

  /** The stored copies of these entries are those of `origin`. */
  ghost predicate Holds(store: Entries, names: set<string>, origin: Entries) {
    forall n :: n in names ==> n in store && n in origin && store[n] == origin[n]
  }

  /* ---------- The intermediate states of one group ---------- */

  /** `t` without the displaced entries and with the installed ones. */
  ghost function Mid(t: Entries, source: Entries, displaced: set<string>, installed: set<string>): Entries
    requires installed <= source.Keys
  {
    map n | n in t.Keys + installed && (n in installed || n !in displaced)
      :: if n in installed then source[n] else t[n]
  }

  ghost function Orphans(t: Entries, group: Group): set<string>
    requires |group| > 0
  {
    set n | n in group[1..] && n in t
  }

  lemma MidIsGeneration(t: Entries, group: Group, source: Entries)
    requires WellFormedGroup(group) && NeedsRepair(t, group, source)
    ensures Mid(t, source, Orphans(t, group), Elements(Present(group, source))) == Generation(t, group, source)
    ensures Consistent(Generation(t, group, source), group, source)
  {
    assert forall n :: n in group <==> n == group[0] || n in group[1..];
  }

  /** `history` from `from` on: other entries stay as in `seen`, and the group is always consistent. */
  ghost predicate Safe(history: seq<Entries>, from: nat, seen: Entries, group: Group, source: Entries)
    requires |group| > 0
  {
    && from <= |history|
    && (forall i :: from <= i < |history| ==> SafeState(history[i], seen, group, source))
  }

  ghost predicate SafeState(t: Entries, seen: Entries, group: Group, source: Entries)
    requires |group| > 0
  {
    Consistent(t, group, source) && forall n :: n !in group ==> SameAt(t, seen, n)
  }

  lemma SafeStart(history: seq<Entries>, seen: Entries, group: Group, source: Entries)
    requires |group| > 0
    ensures Safe(history, |history|, seen, group, source)
  {
  }

  /** Without its base a group is consistent. */
  lemma BaselessIsSafe(t: Entries, seen: Entries, group: Group, source: Entries)
    requires |group| > 0 && Baseless(t, seen, group)
    ensures SafeState(t, seen, group, source)
  {
  }

  lemma SafeStep(history: seq<Entries>, from: nat, seen: Entries, group: Group, source: Entries, t: Entries)
    requires |group| > 0 && Safe(history, from, seen, group, source) && SafeState(t, seen, group, source)
    ensures Safe(history + [t], from, seen, group, source)
  {
  }

  /** The group's base is absent and the other groups are as in `seen`. */
  ghost predicate Baseless(t: Entries, seen: Entries, group: Group)
    requires |group| > 0
  {
    group[0] !in t && forall n :: n !in group ==> SameAt(t, seen, n)
  }

  /** What a rollback achieves for the entry `n`: it is as before unless one of its own steps failed. */
  ghost predicate Undone(seen: Entries, displaced: set<string>, t: Entries, notRemoved: set<string>,
      notRestored: set<string>, n: string) {
    && ((if n in displaced then n !in notRestored else n !in notRemoved) ==> SameAt(t, seen, n))
    && (n in notRestored && n !in notRemoved ==> n in seen && n !in t)
    && (n in notRemoved && n !in displaced ==> n !in seen && n in t)
  }

  lemma AllUndone(seen: Entries, displaced: set<string>, t: Entries)
    requires forall n :: Undone(seen, displaced, t, {}, {}, n)
    ensures t == seen
  {
    assert forall n :: Undone(seen, displaced, t, {}, {}, n) ==> SameAt(t, seen, n);
    assert forall n :: SameAt(t, seen, n) ==> (n in t <==> n in seen);
  }

  lemma MidOutside(t: Entries, source: Entries, displaced: set<string>, installed: set<string>)
    requires installed <= source.Keys
    ensures forall n :: n !in displaced && n !in installed ==> SameAt(Mid(t, source, displaced, installed), t, n)
    ensures forall n :: n in displaced && n !in installed ==> n !in Mid(t, source, displaced, installed)
  {
  }

  lemma SafeJoin(middle: seq<Entries>, history: seq<Entries>, from: nat, seen: Entries, group: Group, source: Entries)
    requires |group| > 0 && middle <= history
    requires Safe(middle, from, seen, group, source) && Safe(history, |middle|, seen, group, source)
    ensures Safe(history, from, seen, group, source)
  {
    forall i | from <= i < |history| ensures SafeState(history[i], seen, group, source) {
      if i < |middle| { assert history[i] == middle[i]; }
    }
  }

  lemma MidDisplace(t: Entries, source: Entries, displaced: seq<string>, n: string)
    requires n in t
    ensures Mid(t, source, Elements(displaced), {}) - {n} == Mid(t, source, Elements(displaced + [n]), {})
  {
    assert Elements(displaced + [n]) == Elements(displaced) + {n};
  }

  lemma MidInstall(t: Entries, source: Entries, displaced: set<string>, order: seq<string>, i: nat)
    requires i < |order| && Elements(order) <= source.Keys
    ensures Elements(order[..i]) <= source.Keys && Elements(order[..i + 1]) <= source.Keys
    ensures Mid(t, source, displaced, Elements(order[..i]))[order[i] := source[order[i]]]
         == Mid(t, source, displaced, Elements(order[..i + 1]))
  {
    assert Elements(order[..i + 1]) == Elements(order[..i]) + {order[i]} by {
      assert order[..i + 1] == order[..i] + [order[i]];
    }
  }

  lemma MidIsSafe(t: Entries, group: Group, source: Entries, displaced: set<string>, installed: set<string>)
    requires |group| > 0 && group[0] !in t && installed <= source.Keys
    requires forall n :: n in displaced || n in installed ==> n in group
    requires group[0] !in installed
    ensures SafeState(Mid(t, source, displaced, installed), t, group, source)
  {
  }

  datatype Phase = Untouched | Installed | RolledBack | Broken

  /** The number of failed operations before and after one that went well or failed. */
  ghost predicate Logged(ok: bool, before: nat, after: nat) {
    after == if ok then before else before + 1
  }

  class Profile {
    /** The source partition; nothing here writes to it. */
    const source: Entries
    /** Whether no other process changes the target partition meanwhile. */
    const exclusive: bool
    var target: Entries
    var stagedSource: Entries
    var targetBackup: Entries
    /** The target partition after each operation of this process on it. */
    ghost var history: seq<Entries>
    /** How many file operations of this process have failed. */
    ghost var failures: nat

    constructor (source: Entries, target: Entries, exclusive: bool)
      ensures this.source == source && this.target == target && this.exclusive == exclusive && history == []
      ensures failures == 0
    {
      this.source, this.target, this.exclusive := source, target, exclusive;
      stagedSource, targetBackup, history, failures := map[], map[], [], 0;
    }

    /* The file operations. */

    method MakeDirectory() returns (ok: bool)
      modifies this`failures
      ensures Logged(ok, old(failures), failures)
    {
      ok := *;
      if !ok { failures := failures + 1; }
    }

    method Copy(name: string) returns (ok: bool)
      requires name in source
      modifies this`stagedSource, this`failures
      ensures ok ==> stagedSource == old(stagedSource)[name := source[name]]
      ensures Logged(ok, old(failures), failures)
    {
      ok := *;
      if !ok { failures := failures + 1; }
      if ok {
        stagedSource := stagedSource[name := source[name]];
      } else {
        var partial: Content := *;
        stagedSource := stagedSource[name := partial];
      }
    }

    /** Another startup may have changed the target partition while the group was staged. */
    method OtherProcesses()
      modifies this`target
      ensures exclusive ==> target == old(target)
    {
      if !exclusive {
        target := *;
      }
    }

    method Displace(name: string) returns (ok: bool)
      requires name in target
      modifies this`target, this`targetBackup, this`history, this`failures
      ensures ok ==> target == old(target) - {name} && targetBackup == old(targetBackup)[name := old(target)[name]]
      ensures !ok ==> target == old(target) && targetBackup == old(targetBackup)
      ensures history == old(history) + [target]
      ensures Logged(ok, old(failures), failures)
    {
      ok := *;
      if !ok { failures := failures + 1; }
      if ok {
        targetBackup := targetBackup[name := target[name]];
        target := target - {name};
      }
      history := history + [target];
    }

    method Install(name: string) returns (ok: bool)
      requires name in stagedSource
      modifies this`target, this`stagedSource, this`history, this`failures
      ensures ok ==> target == old(target)[name := old(stagedSource)[name]]
      ensures ok ==> stagedSource == old(stagedSource) - {name}
      ensures !ok ==> target == old(target) && stagedSource == old(stagedSource)
      ensures history == old(history) + [target]
      ensures Logged(ok, old(failures), failures)
    {
      ok := *;
      if !ok { failures := failures + 1; }
      if ok {
        target := target[name := stagedSource[name]];
        stagedSource := stagedSource - {name};
      }
      history := history + [target];
    }

    /** A failing recursive removal may leave the entry damaged. */
    method Remove(name: string) returns (ok: bool)
      modifies this`target, this`history, this`failures
      ensures ok ==> target == old(target) - {name}
      ensures !ok ==> name in target && target == old(target)[name := target[name]]
      ensures history == old(history) + [target]
      ensures Logged(ok, old(failures), failures)
    {
      ok := *;
      if !ok { failures := failures + 1; }
      if ok {
        target := target - {name};
      } else {
        var damaged: Content := *;
        target := target[name := damaged];
      }
      history := history + [target];
    }

    method Restore(name: string) returns (ok: bool)
      requires name in targetBackup
      modifies this`target, this`targetBackup, this`history, this`failures
      ensures ok ==> target == old(target)[name := old(targetBackup)[name]]
      ensures ok ==> targetBackup == old(targetBackup) - {name}
      ensures !ok ==> target == old(target) && targetBackup == old(targetBackup)
      ensures history == old(history) + [target]
      ensures Logged(ok, old(failures), failures)
    {
      ok := *;
      if !ok { failures := failures + 1; }
      if ok {
        target := target[name := targetBackup[name]];
        targetBackup := targetBackup - {name};
      }
      history := history + [target];
    }

    method RemoveStaging() returns (ok: bool)
      modifies this`stagedSource, this`targetBackup, this`failures
      ensures Logged(ok, old(failures), failures)
    {
      ok := *;
      if !ok { failures := failures + 1; }
      stagedSource, targetBackup := map[], map[];
    }

    static lemma MidOfOrphan(seen: Entries, source: Entries, displaced: set<string>, n: string)
      ensures var t := Mid(seen, source, displaced, {});
        (n in t <==> n in seen && n !in displaced) && (n in t ==> t[n] == seen[n])
    {
    }

    static lemma NextSidecar(group: Group, i: nat)
      requires WellFormedGroup(group) && 1 <= i < |group|
      ensures group[i] !in group[1..i] && forall n :: n in group[1..i + 1] <==> n in group[1..i] || n == group[i]
    {
      assert group[1..i + 1] == group[1..i] + [group[i]];
    }

    /** Moves the orphaned sidecars of the target into the backup. */
    method DisplaceOrphans(group: Group) returns (ok: bool, displaced: seq<string>)
      requires WellFormedGroup(group) && NeedsRepair(target, group, source)
      modifies this`target, this`targetBackup, this`history, this`failures
      ensures old(history) <= history && Safe(history, |old(history)|, old(target), group, source)
      ensures Distinct(displaced) && Elements(displaced) <= Orphans(old(target), group)
      ensures ok ==> Elements(displaced) == Orphans(old(target), group)
      ensures Holds(targetBackup, Elements(displaced), old(target))
      ensures target == Mid(old(target), source, Elements(displaced), {})
      ensures failures >= old(failures) && (ok <==> failures == old(failures))
    {
      ghost var seen, from := target, |history|;
      MidOfNothing(target, source);
      hide Safe, SafeState, Mid;
      displaced := [];
      ok := true;
      SafeStart(history, seen, group, source);
      var i := 1;
      while i < |group|
        invariant failures == old(failures)
        invariant 1 <= i <= |group|
        invariant old(history) <= history && Safe(history, from, seen, group, source)
        invariant Distinct(displaced)
        invariant forall n :: n in displaced <==> n in group[1..i] && n in seen
        invariant Holds(targetBackup, Elements(displaced), seen)
        invariant target == Mid(seen, source, Elements(displaced), {})
      {
        var sidecar := group[i];
        NextSidecar(group, i);
        MidOfOrphan(seen, source, Elements(displaced), sidecar);
        if sidecar in target {
          MidIsSafe(seen, group, source, Elements(displaced + [sidecar]), {});
          MidIsSafe(seen, group, source, Elements(displaced), {});
          MidDisplace(seen, source, displaced, sidecar);
          ghost var before := history;
          ok := Displace(sidecar);
          SafeStep(before, from, seen, group, source, target);
          if !ok { return; }
          displaced := displaced + [sidecar];
        }
        i := i + 1;
      }
      assert group[1..i] == group[1..];
    }

    /** Moves the staged entries into the target, in the given order. */
    method InstallAll(group: Group, installOrder: seq<string>, ghost seen: Entries, ghost displaced: set<string>)
        returns (ok: bool, installed: seq<string>)
      requires WellFormedGroup(group) && NeedsRepair(seen, group, source)
      requires Distinct(installOrder) && installOrder != [] && installOrder[|installOrder| - 1] == group[0]
      requires Elements(installOrder) == Elements(Present(group, source))
      requires Holds(stagedSource, Elements(installOrder), source)
      requires displaced == Orphans(seen, group) && target == Mid(seen, source, displaced, {})
      modifies this`target, this`stagedSource, this`history, this`failures
      ensures old(history) <= history && Safe(history, |old(history)|, seen, group, source)
      ensures ok ==> target == Generation(seen, group, source)
      ensures !ok ==> group[0] !in installed
      ensures Distinct(installed) && Elements(installed) <= Elements(Present(group, source))
      ensures target == Mid(seen, source, displaced, Elements(installed))
      ensures failures >= old(failures) && (ok <==> failures == old(failures))
    {
      hide Safe, SafeState, Mid, Generation, NeedsRepair;
      ghost var from := |history|;
      installed := [];
      ok := true;
      SafeStart(history, seen, group, source);
      assert Elements(installed) == {};
      var i := 0;
      while i < |installOrder|
        invariant failures == old(failures)
        invariant 0 <= i <= |installOrder|
        invariant old(history) <= history && Safe(history, from, seen, group, source)
        invariant installed == installOrder[..i]
        invariant Holds(stagedSource, Elements(installOrder[i..]), source)
        invariant Elements(installed) <= source.Keys
        invariant target == Mid(seen, source, displaced, Elements(installed))
      {
        InstallIsSafe(seen, group, source, installOrder, i);
        InstallIsSafe(seen, group, source, installOrder, i + 1);
        MidInstall(seen, source, displaced, installOrder, i);
        assert installOrder[i..] == [installOrder[i]] + installOrder[i + 1..];
        assert installOrder[i] !in installOrder[i + 1..];
        ghost var before := history;
        ok := Install(installOrder[i]);
        SafeStep(before, from, seen, group, source, target);
        if !ok { return; }
        installed := installed + [installOrder[i]];
        i := i + 1;
      }
      assert installOrder[..i] == installOrder;
      MidIsGeneration(seen, group, source);
    }

    /** Removes the installed entries; a failing removal does not stop the others. */
    method RemoveInstalled(group: Group, installed: seq<string>, ghost seen: Entries)
        returns (ok: bool, ghost notRemoved: set<string>)
      requires |group| > 0 && Baseless(target, seen, group)
      requires Distinct(installed) && forall n :: n in installed ==> n in group && n != group[0]
      modifies this`target, this`history, this`failures
      ensures old(history) <= history && Safe(history, |old(history)|, seen, group, source)
      ensures Baseless(target, seen, group)
      ensures ok <==> notRemoved == {}
      ensures notRemoved <= Elements(installed) && notRemoved <= target.Keys
      ensures forall n :: n in installed && n !in notRemoved ==> n !in target
      ensures forall n :: n !in installed ==> SameAt(target, old(target), n)
      ensures failures >= old(failures) && (ok <==> failures == old(failures))
    {
      hide Safe, SafeState, Distinct;
      ghost var from, before := |history|, target;
      SafeStart(history, seen, group, source);
      notRemoved := {};
      ok := true;
      var i := |installed|;
      while i > 0
        invariant failures >= old(failures) && (ok <==> failures == old(failures))
        invariant 0 <= i <= |installed|
        invariant old(history) <= history && Safe(history, from, seen, group, source)
        invariant Baseless(target, seen, group)
        invariant ok <==> notRemoved == {}
        invariant forall n :: n in notRemoved ==> n in installed[i..] && n in target
        invariant forall k :: i <= k < |installed| && installed[k] !in notRemoved ==> installed[k] !in target
        invariant forall n :: n !in installed ==> SameAt(target, before, n)
      {
        i := i - 1;
        NextRemoved(installed, i);
        ghost var earlier := history;
        var removed := Remove(installed[i]);
        BaselessIsSafe(target, seen, group, source);
        SafeStep(earlier, from, seen, group, source, target);
        if !removed {
          ok := false;
          notRemoved := notRemoved + {installed[i]};
        }
      }
    }

    static lemma NextRemoved(names: seq<string>, i: nat)
      requires i < |names| && Distinct(names)
      ensures names[i] in names && names[i] !in names[i + 1..] && forall n :: n in names[i..] <==>
        n == names[i] || n in names[i + 1..]
      ensures forall k :: i < k < |names| ==> names[k] != names[i]
    {
      assert names[i..] == [names[i]] + names[i + 1..];
    }

    static lemma NextHeld(backup: Entries, names: seq<string>, i: nat, seen: Entries)
      requires i < |names| && Distinct(names) && Holds(backup, Elements(names[i..]), seen)
      ensures names[i] in names && names[i] !in names[..i]
      ensures names[i] in backup && names[i] in seen && backup[names[i]] == seen[names[i]]
      ensures Holds(backup, Elements(names[i + 1..]), seen)
        && Holds(backup - {names[i]}, Elements(names[i + 1..]), seen)
    {
      var rest := names[i..];
      assert rest == [names[i]] + names[i + 1..] && names[i] !in names[i + 1..];
      assert names[i] in Elements(rest);
    }

    /** Moves the displaced entries back; a failing rename does not stop the others. */
    method RestoreDisplaced(group: Group, displaced: seq<string>, ghost seen: Entries)
        returns (ok: bool, ghost notRestored: set<string>)
      requires |group| > 0 && Baseless(target, seen, group)
      requires Distinct(displaced) && forall n :: n in displaced ==> n in group && n != group[0]
      requires Holds(targetBackup, Elements(displaced), seen)
      modifies this`target, this`targetBackup, this`history, this`failures
      ensures old(history) <= history && Safe(history, |old(history)|, seen, group, source)
      ensures ok <==> notRestored == {}
      ensures notRestored <= Elements(displaced)
      ensures forall n :: n in displaced && n !in notRestored ==> SameAt(target, seen, n)
      ensures forall n :: n !in displaced || n in notRestored ==> SameAt(target, old(target), n)
      ensures failures >= old(failures) && (ok <==> failures == old(failures))
    {
      hide Safe, SafeState, Distinct, Holds;
      ghost var from, before := |history|, target;
      SafeStart(history, seen, group, source);
      assert displaced[0..] == displaced;
      notRestored := {};
      ok := true;
      var i := 0;
      while i < |displaced|
        invariant failures >= old(failures) && (ok <==> failures == old(failures))
        invariant 0 <= i <= |displaced|
        invariant old(history) <= history && Safe(history, from, seen, group, source)
        invariant Baseless(target, seen, group)
        invariant ok <==> notRestored == {}
        invariant forall n :: n in notRestored ==> n in displaced[..i]
        invariant Holds(targetBackup, Elements(displaced[i..]), seen)
        invariant forall k :: 0 <= k < i && displaced[k] !in notRestored ==> SameAt(target, seen, displaced[k])
        invariant forall n :: n !in displaced[..i] || n in notRestored ==> SameAt(target, before, n)
      {
        NextHeld(targetBackup, displaced, i, seen);
        assert displaced[..i + 1] == displaced[..i] + [displaced[i]];
        ghost var earlier := history;
        var restored := Restore(displaced[i]);
        BaselessIsSafe(target, seen, group, source);
        SafeStep(earlier, from, seen, group, source, target);
        if !restored {
          ok := false;
          notRestored := notRestored + {displaced[i]};
        }
        i := i + 1;
      }
      assert displaced[..i] == displaced;
    }

    /** Undoes what `DisplaceOrphans` and `InstallAll` did. */
    method RollBack(group: Group, displaced: seq<string>, installed: seq<string>, ghost seen: Entries)
        returns (ok: bool, ghost notRemoved: set<string>, ghost notRestored: set<string>)
      requires WellFormedGroup(group) && NeedsRepair(seen, group, source)
      requires Distinct(displaced) && Elements(displaced) <= Orphans(seen, group)
      requires Distinct(installed) && group[0] !in installed && Elements(installed) <= Elements(Present(group, source))
      requires Holds(targetBackup, Elements(displaced), seen)
      requires target == Mid(seen, source, Elements(displaced), Elements(installed))
      requires forall n :: n in installed ==> n in displaced || n !in seen
      modifies this`target, this`targetBackup, this`history, this`failures
      ensures old(history) <= history && Safe(history, |old(history)|, seen, group, source)
      ensures ok <==> notRemoved == {} && notRestored == {}
      ensures ok ==> target == seen
      ensures notRemoved <= Elements(installed) && notRestored <= Elements(displaced)
      ensures forall n :: Undone(seen, Elements(displaced), target, notRemoved, notRestored, n)
      ensures failures >= old(failures) && (ok <==> failures == old(failures))
    {
      hide Safe, Distinct, Mid;
      ghost var from, t0 := |history|, target;
      MidOutside(seen, source, Elements(displaced), Elements(installed));
      assert forall n :: n in displaced ==> n in Elements(displaced) && n in Orphans(seen, group);
      assert forall n :: n in installed ==> n in Elements(installed) && n in Elements(Present(group, source));
      var removedAll, restoredAll;
      removedAll, notRemoved := RemoveInstalled(group, installed, seen);
      ghost var middle, t1 := history, target;
      restoredAll, notRestored := RestoreDisplaced(group, displaced, seen);
      SafeJoin(middle, history, from, seen, group, source);
      ok := removedAll && restoredAll;
      forall n ensures Undone(seen, Elements(displaced), target, notRemoved, notRestored, n) {
        assert SameAt(t0, seen, n) || n in displaced || n in installed;
        assert n in installed || SameAt(t1, t0, n);
        assert SameAt(target, seen, n) || SameAt(target, t1, n);
      }
      if ok { AllUndone(seen, Elements(displaced), target); }
    }

    /** Stages the source entries of the group. */
    method Stage(sourceEntryNames: seq<string>) returns (ok: bool)
      requires forall n :: n in sourceEntryNames ==> n in source
      modifies this`stagedSource, this`failures
      ensures ok ==> Holds(stagedSource, Elements(sourceEntryNames), source)
      ensures failures >= old(failures) && (ok <==> failures == old(failures))
    {
      ok := MakeDirectory();
      var i := 0;
      while ok && i < |sourceEntryNames|
        invariant failures >= old(failures) && (ok <==> failures == old(failures))
        invariant 0 <= i <= |sourceEntryNames|
        invariant ok ==> Holds(stagedSource, Elements(sourceEntryNames[..i]), source)
        decreases |sourceEntryNames| - i, ok
      {
        ok := Copy(sourceEntryNames[i]);
        if ok {
          assert sourceEntryNames[..i + 1] == sourceEntryNames[..i] + [sourceEntryNames[i]];
          i := i + 1;
        }
      }
      assert ok ==> sourceEntryNames[..i] == sourceEntryNames;
    }

    /**
     Repairs one group. Another process may change the target while the group is staged, that is before
     the group's base is checked for the second time; from then on this process has the target to itself
     (`ConcurrentRepairs` drops that restriction). `seen` is the target at the second check; if that
     never happened it is the target that the call leaves.
     */
    method RepairGroup(group: Group) returns (copied: bool, failed: bool, ghost seen: Entries, ghost phase: Phase)
      requires WellFormedGroup(group)
      modifies this`target, this`stagedSource, this`targetBackup, this`history, this`failures
      ensures old(history) <= history && Safe(history, |old(history)|, seen, group, source)
      ensures exclusive ==> seen == old(target)
      ensures !NeedsRepair(old(target), group, source) ==>
        !copied && !failed && target == old(target) && history == old(history)
      ensures copied <==> phase.Installed?
      ensures phase.Untouched? || phase.RolledBack? ==> target == seen
      ensures phase.Installed? ==> NeedsRepair(seen, group, source) && target == Generation(seen, group, source)
      ensures phase.Broken? ==> failed && NeedsRepair(seen, group, source) && BrokenRollback(seen, group, target)
      ensures phase.RolledBack? ==> failed
      ensures NeedsRepair(old(target), group, source) && NeedsRepair(seen, group, source) && !failed ==>
        phase.Installed?
      ensures failures >= old(failures) && (!failed <==> failures == old(failures))
    {
      hide Safe, Distinct, Mid, Generation;
      copied, failed, seen, phase := false, false, target, Untouched;
      SafeStart(history, seen, group, source);
      var base := group[0];
      if base !in source { return; }
      if base in target { return; }
      var sourceEntryNames := Present(group, source);
      var created := MakeDirectory();
      if !created { failed := true; return; }
      stagedSource, targetBackup := map[], map[];
      var staged := Stage(sourceEntryNames);
      failed := !staged;
      if staged {
        OtherProcesses();
        seen := target;
        SafeStart(history, seen, group, source);
        if base !in target {
          failed, phase := Exchange(group, sourceEntryNames);
          copied := !failed;
        }
      }
      var removed := RemoveStaging();
      failed := failed || !removed;
    }

    /** Displaces the orphans and installs the staged entries, or rolls both back. */
    method Exchange(group: Group, sourceEntryNames: seq<string>) returns (failed: bool, ghost phase: Phase)
      requires WellFormedGroup(group) && NeedsRepair(target, group, source)
      requires sourceEntryNames == Present(group, source)
      requires Holds(stagedSource, Elements(sourceEntryNames), source)
      modifies this`target, this`stagedSource, this`targetBackup, this`history, this`failures
      ensures old(history) <= history && Safe(history, |old(history)|, old(target), group, source)
      ensures !failed ==> phase.Installed? && target == Generation(old(target), group, source)
      ensures failed ==>
        (phase.RolledBack? && target == old(target)) || (phase.Broken? && BrokenRollback(old(target), group, target))
      ensures failures >= old(failures) && (!failed <==> failures == old(failures))
    {
      hide Safe, Mid, Generation;
      ghost var seen, from := target, |history|;
      var base := group[0];
      PresentDistinct(group, source);
      var installOrder := InstallOrder(sourceEntryNames, base);
      var displaced, installed: seq<string> := [], [];
      var ok := MakeDirectory();
      SafeStart(history, seen, group, source);
      MidOfNothing(seen, source);
      if ok {
        ok, displaced := DisplaceOrphans(group);
        if ok {
          ghost var middle := history;
          InstallOrderShape(sourceEntryNames, base, group, source);
          ok, installed := InstallAll(group, installOrder, seen, Elements(displaced));
          SafeJoin(middle, history, from, seen, group, source);
          InstalledDisplaced(seen, group, source, displaced, installed);
        }
      }
      failed := !ok;
      phase := Installed;
      if failed {
        ghost var middle := history;
        ghost var notRemoved, notRestored;
        ok, notRemoved, notRestored := RollBack(group, displaced, installed, seen);
        SafeJoin(middle, history, from, seen, group, source);
        phase := if ok then RolledBack else Broken;
        assert !ok ==> BrokenBy(seen, group, target, Elements(displaced), notRemoved, notRestored);
      }
    }
  }

  function InstallOrder(sourceEntryNames: seq<string>, base: string): seq<string> {
    Without(sourceEntryNames, base) + [base]
  }

  lemma InstallOrderShape(sourceEntryNames: seq<string>, base: string, group: Group, source: Entries)
    requires Distinct(sourceEntryNames) && base in sourceEntryNames
    ensures Distinct(InstallOrder(sourceEntryNames, base))
    ensures Elements(InstallOrder(sourceEntryNames, base)) == Elements(sourceEntryNames)
  {
  }

  lemma InstalledDisplaced(seen: Entries, group: Group, source: Entries, displaced: seq<string>, installed: seq<string>)
    requires |group| > 0 && group[0] !in seen && Elements(installed) <= Elements(Present(group, source))
    requires Elements(displaced) == Orphans(seen, group) || installed == []
    ensures forall n :: n in installed ==> n in displaced || n !in seen
  {
    forall n | n in installed && n in seen ensures n in displaced {
      assert n in Elements(installed);
      assert n in group[1..];
      assert n in Orphans(seen, group);
    }
  }

  lemma MidOfNothing(t: Entries, source: Entries)
    ensures Mid(t, source, Elements([]), Elements([])) == t
    ensures Elements<string>([]) == {}
  {
  }

  ghost predicate BrokenBy(seen: Entries, group: Group, t: Entries, displaced: set<string>, notRemoved: set<string>,
      notRestored: set<string>)
    requires |group| > 0
  {
    && notRemoved + notRestored != {} && notRestored <= displaced <= Orphans(seen, group)
    && (forall n :: n in notRemoved ==> n in group[1..])
    && forall n :: Undone(seen, displaced, t, notRemoved, notRestored, n)
  }

  /** A rollback in which some removal or some rename failed; only the entries concerned are affected. */
  ghost predicate BrokenRollback(seen: Entries, group: Group, t: Entries)
    requires |group| > 0
  {
    exists displaced, notRemoved, notRestored :: BrokenBy(seen, group, t, displaced, notRemoved, notRestored)
  }

  /** Every prefix of the install order leaves the group consistent, because the base comes last. */
  lemma InstallIsSafe(seen: Entries, group: Group, source: Entries, installOrder: seq<string>, i: nat)
    requires WellFormedGroup(group) && NeedsRepair(seen, group, source)
    requires Distinct(installOrder) && installOrder != [] && installOrder[|installOrder| - 1] == group[0]
    requires Elements(installOrder) == Elements(Present(group, source)) && i <= |installOrder|
    ensures Elements(installOrder[..i]) <= source.Keys
    ensures SafeState(Mid(seen, source, Orphans(seen, group), Elements(installOrder[..i])), seen, group, source)
    ensures i < |installOrder| ==> group[0] !in installOrder[..i]
  {
    assert forall n :: n in Elements(installOrder) ==> n in group && n in source;
    if i == |installOrder| {
      assert installOrder[..i] == installOrder;
      MidIsGeneration(seen, group, source);
    } else {
      MidIsSafe(seen, group, source, Orphans(seen, group), Elements(installOrder[..i]));
    }
  }

  /* ---------- The whole repair ---------- */

  /** The target after the groups were considered in turn, each repaired if its base was missing. */
  ghost function RepairedTarget(t: Entries, groups: seq<Group>, source: Entries): Entries
    requires WellFormedGroups(groups)
  {
    if groups == [] then t
    else
      var k := |groups| - 1;
      RepairOne(RepairedTarget(t, groups[..k], source), groups[k], source)
  }

  ghost function RepairOne(t: Entries, group: Group, source: Entries): Entries
    requires WellFormedGroup(group)
  {
    if NeedsRepair(t, group, source) then Generation(t, group, source) else t
  }

  /** The names reported as copied. */
  ghost function CopiedNames(t: Entries, groups: seq<Group>, source: Entries): seq<string>
    requires WellFormedGroups(groups)
  {
    if groups == [] then []
    else
      var k := |groups| - 1;
      CopiedNames(t, groups[..k], source)
      + if NeedsRepair(RepairedTarget(t, groups[..k], source), groups[k], source) then Present(groups[k], source)
        else []
  }

  ghost predicate InSomeGroup(groups: seq<Group>, n: string) {
    exists i :: 0 <= i < |groups| && n in groups[i]
  }

  /** Group by group: repaired groups equal the source, all other entries are untouched. */
  lemma {:induction false} RepairedPointwise(t: Entries, groups: seq<Group>, source: Entries)
    requires WellFormedGroups(groups)
    ensures forall i, n :: 0 <= i < |groups| && n in groups[i] ==>
      SameAt(RepairedTarget(t, groups, source), if NeedsRepair(t, groups[i], source) then source else t, n)
    ensures forall n :: !InSomeGroup(groups, n) ==> SameAt(RepairedTarget(t, groups, source), t, n)
  {
    if groups != [] {
      var k := |groups| - 1;
      var before, r := RepairedTarget(t, groups[..k], source), RepairedTarget(t, groups, source);
      RepairedPointwise(t, groups[..k], source);
      forall n | !InSomeGroup(groups[..k], n) ensures SameAt(before, t, n) {
      }
      forall n | n in groups[k] ensures !InSomeGroup(groups[..k], n) && SameAt(before, t, n) {
      }
      assert NeedsRepair(before, groups[k], source) == NeedsRepair(t, groups[k], source) by {
        assert groups[k][0] in groups[k];
        assert SameAt(before, t, groups[k][0]);
      }
      forall i, n | 0 <= i < |groups| && n in groups[i]
        ensures SameAt(r, if NeedsRepair(t, groups[i], source) then source else t, n)
      {
        if i < k {
          assert n in groups[..k][i];
          assert SameAt(before, if NeedsRepair(t, groups[i], source) then source else t, n);
          assert SameAt(r, before, n);
        }
      }
      forall n | !InSomeGroup(groups, n) ensures SameAt(r, t, n) {
        assert !InSomeGroup(groups[..k], n) && n !in groups[k];
        assert SameAt(before, t, n) && SameAt(r, before, n);
      }
    }
  }

  ghost predicate Restored(t: Entries, group: Group, source: Entries)
    requires |group| > 0
  {
    group[0] !in t && group[0] in source
  }

  ghost predicate CopiedFrom(t: Entries, group: Group, source: Entries, n: string)
    requires |group| > 0
  {
    n in group && n in source && Restored(t, group, source)
  }

  lemma {:induction false} CopiedNamesAre(t: Entries, groups: seq<Group>, source: Entries)
    requires WellFormedGroups(groups)
    ensures forall n :: n in CopiedNames(t, groups, source) <==>
      exists i :: 0 <= i < |groups| && CopiedFrom(t, groups[i], source, n)
  {
    if groups != [] {
      var k := |groups| - 1;
      var init := groups[..k];
      CopiedNamesAre(t, init, source);
      StillNeeded(t, groups, source, k);
      assert NeedsRepair(t, groups[k], source) == Restored(t, groups[k], source);
      hide RepairedTarget, WellFormedGroup, NeedsRepair, Restored;
      assert forall i :: 0 <= i < k ==> init[i] == groups[i];
    }
  }

  /** What a repair that goes through leaves and reports, group by group. */
  lemma RepairedEntries(t: Entries, groups: seq<Group>, source: Entries)
    requires WellFormedGroups(groups)
    ensures forall i, n :: 0 <= i < |groups| && n in groups[i] ==>
      SameAt(RepairedTarget(t, groups, source), if Restored(t, groups[i], source) then source else t, n)
    ensures forall n :: n in CopiedNames(t, groups, source) <==>
      exists i :: 0 <= i < |groups| && CopiedFrom(t, groups[i], source, n)
  {
    RepairedPointwise(t, groups, source);
    CopiedNamesAre(t, groups, source);
    assert forall i :: 0 <= i < |groups| ==> NeedsRepair(t, groups[i], source) == Restored(t, groups[i], source);
    hide SameAt, RepairedTarget, CopiedNames, CopiedFrom, Restored, NeedsRepair;
  }

  /** After a repair no group needs one. */
  lemma RepairedNeedsNothing(t: Entries, groups: seq<Group>, source: Entries)
    requires WellFormedGroups(groups)
    ensures forall i :: 0 <= i < |groups| ==> !NeedsRepair(RepairedTarget(t, groups, source), groups[i], source)
  {
    RepairedPointwise(t, groups, source);
    forall i | 0 <= i < |groups| ensures !NeedsRepair(RepairedTarget(t, groups, source), groups[i], source) {
      assert groups[i][0] in groups[i];
    }
  }

  lemma {:induction false} NothingNeeded(t: Entries, groups: seq<Group>, source: Entries)
    requires WellFormedGroups(groups)
    requires forall i :: 0 <= i < |groups| ==> !NeedsRepair(t, groups[i], source)
    ensures RepairedTarget(t, groups, source) == t && CopiedNames(t, groups, source) == []
  {
    if groups != [] {
      NothingNeeded(t, groups[..|groups| - 1], source);
    }
  }

  /** Rerunning a repair that went through changes nothing and copies nothing. */
  lemma RepairIsIdempotent(t: Entries, groups: seq<Group>, source: Entries)
    requires WellFormedGroups(groups)
    ensures RepairedTarget(RepairedTarget(t, groups, source), groups, source) == RepairedTarget(t, groups, source)
    ensures CopiedNames(RepairedTarget(t, groups, source), groups, source) == []
  {
    RepairedNeedsNothing(t, groups, source);
    NothingNeeded(RepairedTarget(t, groups, source), groups, source);
  }

  /**
   A state of the target during a repair that began at `t`: no half-installed group shows its base,
   and groups that had their base, like entries of no group, are untouched.
   */
  ghost predicate WholeSafe(h: Entries, t: Entries, groups: seq<Group>, source: Entries)
    requires WellFormedGroups(groups)
  {
    && (forall i :: 0 <= i < |groups| && NeedsRepair(t, groups[i], source) ==> Consistent(h, groups[i], source))
    && (forall i, n :: 0 <= i < |groups| && !NeedsRepair(t, groups[i], source) && n in groups[i] ==> SameAt(h, t, n))
    && (forall n :: !InSomeGroup(groups, n) ==> SameAt(h, t, n))
  }

  lemma PrefixGroups(groups: seq<Group>, k: nat)
    requires WellFormedGroups(groups) && k <= |groups|
    ensures WellFormedGroups(groups[..k])
  {
  }

  /** The states while group `k` is repaired, seen from the beginning of the run. */
  lemma GroupSafeIsWholeSafe(h: Entries, t: Entries, groups: seq<Group>, source: Entries, k: nat)
    requires WellFormedGroups(groups) && k < |groups|
    requires NeedsRepair(t, groups[k], source)
    requires SafeState(h, RepairedTarget(t, groups[..k], source), groups[k], source)
    ensures WholeSafe(h, t, groups, source)
  {
    var before := RepairedTarget(t, groups[..k], source);
    PrefixGroups(groups, k);
    RepairedPointwise(t, groups[..k], source);
    forall i, n | 0 <= i < |groups| && i != k && n in groups[i]
      ensures SameAt(h, if i < k && NeedsRepair(t, groups[i], source) then source else t, n)
    {
      assert n !in groups[k];
      assert SameAt(h, before, n);
      if i < k {
        assert n in groups[..k][i];
      } else {
        assert !InSomeGroup(groups[..k], n);
      }
    }
    forall i | 0 <= i < |groups| && NeedsRepair(t, groups[i], source) ensures Consistent(h, groups[i], source) {
      if i != k { assert groups[i][0] in groups[i]; }
    }
    forall n | !InSomeGroup(groups, n) ensures SameAt(h, t, n) {
      assert n !in groups[k] && !InSomeGroup(groups[..k], n);
      assert SameAt(h, before, n);
    }
  }

  lemma StillNeeded(t: Entries, groups: seq<Group>, source: Entries, k: nat)
    requires WellFormedGroups(groups) && k < |groups|
    ensures WellFormedGroups(groups[..k]) && WellFormedGroups(groups[..k + 1])
    ensures NeedsRepair(RepairedTarget(t, groups[..k], source), groups[k], source) <==>
      NeedsRepair(t, groups[k], source)
    ensures RepairedTarget(t, groups[..k + 1], source)
      == RepairOne(RepairedTarget(t, groups[..k], source), groups[k], source)
  {
    PrefixGroups(groups, k);
    PrefixGroups(groups, k + 1);
    RepairedPointwise(t, groups[..k], source);
    assert groups[..k + 1][..k] == groups[..k];
    var n := groups[k][0];
    assert n in groups[k];
    assert !InSomeGroup(groups[..k], n);
  }

  datatype Status = Repaired | NotNeeded | BridgeUnavailable | RepairFailed

  /** What the bridge manifest leads to: nothing, an error, a profile without a partition, or a partition. */
  datatype Bridge = NoBridge | Unreadable | NoPartition | Partition

  /**
   How far a failed repair got: group `k` was left as it was, or its rollback failed as well, or it
   was installed and reported as copied and only the staging directory could not be removed.
   */
  ghost predicate StoppedAt(t0: Entries, t: Entries, copied: seq<string>, groups: seq<Group>, source: Entries, k: nat)
    requires WellFormedGroups(groups)
  {
    && k < |groups| && WellFormedGroups(groups[..k]) && WellFormedGroups(groups[..k + 1])
    && NeedsRepair(t0, groups[k], source)
    && (if copied == CopiedNames(t0, groups[..k], source)
        then t == RepairedTarget(t0, groups[..k], source)
          || BrokenRollback(RepairedTarget(t0, groups[..k], source), groups[k], t)
        else copied == CopiedNames(t0, groups[..k + 1], source) && t == RepairedTarget(t0, groups[..k + 1], source))
  }

  /**
   `owner` names the group that each operation since `from` worked on, in the order of the groups; after
   the operation that group is consistent.
   */
  ghost predicate Owned(history: seq<Entries>, from: nat, owner: seq<nat>, groups: seq<Group>, source: Entries)
    requires WellFormedGroups(groups)
  {
    && from + |owner| == |history|
    && (forall i, j :: 0 <= i < j < |owner| ==> owner[i] <= owner[j])
    && (forall i :: 0 <= i < |owner| ==> OwnedState(history[from + i], owner[i], groups, source))
  }

  ghost predicate OwnedState(h: Entries, k: nat, groups: seq<Group>, source: Entries)
    requires WellFormedGroups(groups)
  {
    k < |groups| && Consistent(h, groups[k], source)
  }

  /** Without other processes on the target: where the repair stands after `k` groups. */
  ghost predicate RepairedSoFar(t0: Entries, t: Entries, copied: seq<string>, groups: seq<Group>, source: Entries,
      k: nat)
    requires WellFormedGroups(groups)
  {
    && k <= |groups| && WellFormedGroups(groups[..k])
    && t == RepairedTarget(t0, groups[..k], source) && copied == CopiedNames(t0, groups[..k], source)
  }

  /**
   The repair. When other processes change the target while a group is staged, each operation still
   leaves the group it works on consistent, which is group `owner[i]` for the i-th operation; how the
   target ends is stated for a target nobody else touches.
   */
  method Repair(profile: Profile, bridge: Bridge, groups: seq<Group>)
      returns (status: Status, copiedEntries: seq<string>, ghost owner: seq<nat>)
    requires WellFormedGroups(groups)
    modifies profile`target, profile`stagedSource, profile`targetBackup, profile`history, profile`failures
    ensures old(profile.history) <= profile.history
    ensures Owned(profile.history, |old(profile.history)|, owner, groups, profile.source)
    ensures profile.exclusive ==> forall i :: |old(profile.history)| <= i < |profile.history| ==>
      WholeSafe(profile.history[i], old(profile.target), groups, profile.source)
    ensures bridge.NoBridge? ==>
      status == BridgeUnavailable && profile.target == old(profile.target) && copiedEntries == []
    ensures bridge.Unreadable? ==>
      status == RepairFailed && profile.target == old(profile.target) && copiedEntries == []
    ensures bridge.NoPartition? ==> status == NotNeeded && profile.target == old(profile.target) && copiedEntries == []
    ensures status == RepairFailed <==>
      bridge.Unreadable? || (bridge.Partition? && profile.failures > old(profile.failures))
    ensures bridge.Partition? && status != RepairFailed ==>
      status == if copiedEntries == [] then NotNeeded else Repaired
    ensures profile.exclusive && bridge.Partition? && status != RepairFailed ==>
      && profile.target == RepairedTarget(old(profile.target), groups, profile.source)
      && copiedEntries == CopiedNames(old(profile.target), groups, profile.source)
    ensures profile.exclusive && bridge.Partition? && status == RepairFailed ==>
      exists k :: StoppedAt(old(profile.target), profile.target, copiedEntries, groups, profile.source, k)
    ensures (forall i :: 0 <= i < |groups| ==> !NeedsRepair(old(profile.target), groups[i], profile.source)) ==>
      !bridge.Unreadable? ==> status != RepairFailed && profile.target == old(profile.target) && copiedEntries == []
  {
    hide Safe, SafeState, Generation, WholeSafe, BrokenRollback, CopiedNames, Consistent, Owned;
    copiedEntries, owner := [], [];
    NothingOwned(profile.history, groups, profile.source);
    if bridge.NoBridge? { return BridgeUnavailable, [], []; }
    if bridge.Unreadable? { return RepairFailed, [], []; }
    if bridge.NoPartition? { return NotNeeded, [], []; }
    ghost var t0 := profile.target;
    var source := profile.source;
    ghost var from := |profile.history|;
    NothingNeeded(t0, groups[..0], source);
    var k := 0;
    while k < |groups|
      invariant 0 <= k <= |groups|
      invariant profile.failures == old(profile.failures)
      invariant old(profile.history) <= profile.history
      invariant Owned(profile.history, from, owner, groups, source) && forall i :: 0 <= i < |owner| ==> owner[i] < k
      invariant profile.exclusive ==> forall i :: from <= i < |profile.history| ==>
        WholeSafe(profile.history[i], t0, groups, source)
      invariant profile.exclusive ==> RepairedSoFar(t0, profile.target, copiedEntries, groups, source, k)
      invariant (forall i :: 0 <= i < |groups| ==> !NeedsRepair(t0, groups[i], source)) ==>
        profile.target == t0 && copiedEntries == []
    {
      ghost var before, history := profile.target, profile.history;
      var copied, failed, seen, phase := profile.RepairGroup(groups[k]);
      owner := OwnedBy(history, profile.history, from, owner, seen, groups, source, k);
      if profile.exclusive {
        StillNeeded(t0, groups, source, k);
        StatesAreWholeSafe(history, profile.history, from, t0, groups, source, k);
        CopiedStep(t0, groups, source, k);
      }
      if copied {
        copiedEntries := copiedEntries + Present(groups[k], source);
      }
      if failed {
        assert copied ==> groups[k][0] in Present(groups[k], source);
        assert profile.exclusive ==> StoppedAt(t0, profile.target, copiedEntries, groups, source, k);
        return RepairFailed, copiedEntries, owner;
      }
      k := k + 1;
    }
    assert groups[..k] == groups;
    status := if |copiedEntries| > 0 then Repaired else NotNeeded;
  }

  lemma NothingOwned(history: seq<Entries>, groups: seq<Group>, source: Entries)
    requires WellFormedGroups(groups)
    ensures Owned(history, |history|, [], groups, source)
  {
  }

  /** The operations on group `k` are added to those before. */
  lemma OwnedBy(before: seq<Entries>, history: seq<Entries>, from: nat, owner: seq<nat>, seen: Entries,
                groups: seq<Group>, source: Entries, k: nat) returns (longer: seq<nat>)
    requires WellFormedGroups(groups) && k < |groups| && before <= history
    requires Owned(before, from, owner, groups, source) && forall i :: 0 <= i < |owner| ==> owner[i] < k
    requires Safe(history, |before|, seen, groups[k], source)
    ensures Owned(history, from, longer, groups, source) && forall i :: 0 <= i < |longer| ==> longer[i] <= k
  {
    hide Consistent;
    longer := owner + seq(|history| - |before|, _ => k);
    forall i | 0 <= i < |longer| ensures OwnedState(history[from + i], longer[i], groups, source) {
      if i < |owner| {
        assert OwnedState(before[from + i], owner[i], groups, source);
      } else {
        assert SafeState(history[from + i], seen, groups[k], source);
      }
    }
  }

  lemma CopiedStep(t: Entries, groups: seq<Group>, source: Entries, k: nat)
    requires WellFormedGroups(groups) && k < |groups| && WellFormedGroups(groups[..k])
      && WellFormedGroups(groups[..k + 1])
    ensures CopiedNames(t, groups[..k + 1], source) == CopiedNames(t, groups[..k], source)
      + if NeedsRepair(RepairedTarget(t, groups[..k], source), groups[k], source) then Present(groups[k], source)
        else []
  {
    assert groups[..k + 1][..k] == groups[..k];
  }

  lemma StatesAreWholeSafe(before: seq<Entries>, history: seq<Entries>, from: nat, t: Entries, groups: seq<Group>,
      source: Entries, k: nat)
    requires WellFormedGroups(groups) && k < |groups| && WellFormedGroups(groups[..k])
    requires from <= |before| && before <= history
    requires forall i :: from <= i < |before| ==> WholeSafe(before[i], t, groups, source)
    requires NeedsRepair(t, groups[k], source) || history == before
    requires Safe(history, |before|, RepairedTarget(t, groups[..k], source), groups[k], source)
    ensures forall i :: from <= i < |history| ==> WholeSafe(history[i], t, groups, source)
  {
    hide WholeSafe, SafeState;
    forall i | from <= i < |history| ensures WholeSafe(history[i], t, groups, source) {
      if i < |before| {
        assert history[i] == before[i];
      } else {
        GroupSafeIsWholeSafe(history[i], t, groups, source, k);
      }
    }
  }

  lemma EntryGroupsDisjoint()
    ensures forall i, j, n :: 0 <= i < j < |ENTRY_GROUPS| && n in ENTRY_GROUPS[i] ==> n !in ENTRY_GROUPS[j]
  {
  }

  /** The seed groups of the product meet the assumption about groups. */
  lemma EntryGroupsWellFormed()
    ensures WellFormedGroups(ENTRY_GROUPS)
  {
    EntryGroupsDisjoint();
  }
}
