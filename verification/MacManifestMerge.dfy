/** Merging the update manifests of two architectures into one. */
module MacManifestMerge {
  import opened Strings
  import opened Wrappers
  import opened MacManifest

  /** The names that every JavaScript object inherits; reading one as a missing key finds a function. */
  const INHERITED_NAMES: set<string> := {
    "constructor", "hasOwnProperty", "isPrototypeOf", "propertyIsEnumerable", "toLocaleString", "toString", "valueOf",
    "__proto__", "__defineGetter__", "__defineSetter__", "__lookupGetter__", "__lookupSetter__"
  }

  /* ---------- Extras ---------- */

  ghost predicate Agrees(m: Extras, e: Extra) {
    match Lookup(m, e.key)
    case Some(existing) => existing == e.value
    case None => e.key !in INHERITED_NAMES
  }

  ghost predicate ExtrasMerge(primary: Extras, secondary: Extras) {
    forall i :: 0 <= i < |secondary| ==> Agrees(primary, secondary[i])
  }

  lemma {:induction false} LookupAfterPut(m: Extras, key: string, value: Scalar, other: string)
    ensures Lookup(Put(m, key, value), other) == if other == key then Some(value) else Lookup(m, other)
    ensures forall e :: e in Put(m, key, value) ==> e.key == key || e in m
  {
    if m != [] && m[0].key != key {
      LookupAfterPut(m[1..], key, value, other);
    }
  }

  lemma {:induction false} PutKeepsUnique(m: Extras, key: string, value: Scalar)
    requires UniqueKeys(m)
    ensures UniqueKeys(Put(m, key, value))
  {
    if m != [] && m[0].key != key {
      PutKeepsUnique(m[1..], key, value);
      LookupAfterPut(m[1..], key, value, key);
      var r := Put(m[1..], key, value);
      forall j | 0 <= j < |r| ensures r[j].key != m[0].key {
        assert r[j] in r;
        if r[j].key != key {
          var i :| 0 <= i < |m| - 1 && m[1..][i] == r[j];
          assert m[i + 1].key != m[0].key;
        }
      }
    }
  }

  /** What a merged object holds: the secondary's value where it has one, else the primary's. */
  ghost predicate Overlay(merged: Extras, primary: Extras, secondary: Extras) {
    forall key :: Lookup(merged, key)
      == if Lookup(secondary, key).Some? then Lookup(secondary, key) else Lookup(primary, key)
  }

  method MergeExtras(primary: Extras, secondary: Extras) returns (r: Result<Extras>)
    requires UniqueKeys(primary) && UniqueKeys(secondary)
    ensures r.Ok? <==> ExtrasMerge(primary, secondary)
    ensures r.Ok? ==> UniqueKeys(r.value) && Overlay(r.value, primary, secondary)
    ensures r.Err? ==> exists e :: e in secondary && !Agrees(primary, e) && r.error == ConflictingExtra(e.key)
  {
    var merged := primary;
    var i := 0;
    while i < |secondary|
      invariant 0 <= i <= |secondary|
      invariant UniqueKeys(merged) && Overlay(merged, primary, secondary[..i])
      invariant forall j :: 0 <= j < i ==> Agrees(primary, secondary[j])
    {
      var Extra(key, value) := secondary[i];
      NotYetSeen(secondary, i);
      var existing := Lookup(merged, key);
      assert existing == Lookup(primary, key);
      if (existing.Some? && existing.value != value) || (existing.None? && key in INHERITED_NAMES) {
        assert secondary[i] in secondary && !Agrees(primary, secondary[i]);
        return Err(ConflictingExtra(key));
      }
      OverlayStep(merged, primary, secondary, i);
      PutKeepsUnique(merged, key, value);
      merged := Put(merged, key, value);
      i := i + 1;
    }
    assert secondary[..i] == secondary;
    r := Ok(merged);
  }

  lemma NotYetSeen(m: Extras, i: nat)
    requires UniqueKeys(m) && i < |m|
    ensures Lookup(m[..i], m[i].key) == None
  {
    if Lookup(m[..i], m[i].key).Some? {
      var v := Lookup(m[..i], m[i].key).value;
      LookupIffEntry(m[..i], m[i].key, v);
    }
  }

  lemma {:induction false} LookupSnoc(m: Extras, e: Extra, key: string)
    ensures Lookup(m + [e], key) == if Lookup(m, key).Some? then Lookup(m, key) else if e.key == key then Some(e.value)
      else None
  {
    if m != [] {
      LookupSnoc(m[1..], e, key);
      assert (m + [e])[1..] == m[1..] + [e];
    }
  }

  lemma OverlayStep(merged: Extras, primary: Extras, secondary: Extras, i: nat)
    requires UniqueKeys(secondary) && i < |secondary| && Overlay(merged, primary, secondary[..i])
    ensures Overlay(Put(merged, secondary[i].key, secondary[i].value), primary, secondary[..i + 1])
  {
    var e := secondary[i];
    NotYetSeen(secondary, i);
    assert secondary[..i + 1] == secondary[..i] + [e];
    forall key ensures Lookup(Put(merged, e.key, e.value), key)
      == if Lookup(secondary[..i + 1], key).Some? then Lookup(secondary[..i + 1], key) else Lookup(primary, key)
    {
      LookupAfterPut(merged, e.key, e.value, key);
      LookupSnoc(secondary[..i], e, key);
    }
  }

  /* ---------- Files ---------- */

  /** Files with the same url are the same. */
  ghost predicate ConsistentFiles(files: seq<File>) {
    forall i, j :: 0 <= i < j < |files| && files[i].url == files[j].url ==> files[i] == files[j]
  }

  predicate Clash(f: File, g: File) {
    f.url == g.url && f != g
  }

  lemma ConsistentSnoc(files: seq<File>, i: nat)
    requires i < |files| && ConsistentFiles(files[..i])
    requires forall j :: 0 <= j < i ==> !Clash(files[j], files[i])
    ensures ConsistentFiles(files[..i + 1])
  {
    var all := files[..i + 1];
    forall x, y | 0 <= x < y < |all| && all[x].url == all[y].url ensures all[x] == all[y] {
      if y < i {
        assert files[..i][x] == files[x] && files[..i][y] == files[y];
      } else {
        assert !Clash(files[x], files[i]);
      }
    }
  }

  predicate HasUrl(files: seq<File>, url: string) {
    exists i :: 0 <= i < |files| && files[i].url == url
  }

  /** The first file of each url, in order. */
  function FirstByUrl(files: seq<File>): seq<File> {
    if files == [] then []
    else
      var k := |files| - 1;
      FirstByUrl(files[..k]) + if HasUrl(files[..k], files[k].url) then [] else [files[k]]
  }

  ghost predicate UniqueUrls(files: seq<File>) {
    forall i, j :: 0 <= i < j < |files| ==> files[i].url != files[j].url
  }

  lemma {:induction false} FirstByUrlIsUnion(files: seq<File>)
    ensures UniqueUrls(FirstByUrl(files))
    ensures forall url :: HasUrl(FirstByUrl(files), url) <==> HasUrl(files, url)
    ensures forall f :: f in FirstByUrl(files) ==> f in files
    ensures ConsistentFiles(files) ==> forall f :: f in files ==> f in FirstByUrl(files)
  {
    if files != [] {
      var k := |files| - 1;
      var init, r := files[..k], FirstByUrl(files[..k]);
      FirstByUrlIsUnion(init);
      assert files == init + [files[k]];
      HasUrlSnoc(init, files[k]);
      HasUrlSnoc(r, files[k]);
      if HasUrl(init, files[k].url) {
        var i :| 0 <= i < k && init[i].url == files[k].url;
        assert files[i].url == files[k].url && init[i] in init;
        assert r + [] == r;
      } else {
        UniqueSnoc(r, files[k]);
      }
    }
  }

  lemma HasUrlSnoc(files: seq<File>, f: File)
    ensures forall url :: HasUrl(files + [f], url) <==> HasUrl(files, url) || url == f.url
  {
    var all := files + [f];
    forall url ensures HasUrl(all, url) <==> HasUrl(files, url) || url == f.url {
      if HasUrl(files, url) {
        var i :| 0 <= i < |files| && files[i].url == url;
        assert all[i].url == url;
      }
      assert all[|files|].url == f.url;
    }
  }

  lemma UniqueSnoc(files: seq<File>, f: File)
    requires UniqueUrls(files) && !HasUrl(files, f.url)
    ensures UniqueUrls(files + [f])
  {
  }

  /** The loop that fills the map from url to file. */
  method MergeFiles(files: seq<File>) returns (r: Result<seq<File>>)
    ensures r.Ok? <==> ConsistentFiles(files)
    ensures r.Ok? ==> r.value == FirstByUrl(files)
    ensures r.Err? ==>
      exists i, j :: 0 <= i < j < |files| && Clash(files[i], files[j]) && r.error == ConflictingFile(files[j].url)
  {
    hide ConsistentFiles, FirstByUrl, HasUrl;
    var filesByUrl: map<string, File> := map[];
    var values: seq<File> := [];
    var i := 0;
    NoFiles();
    while i < |files|
      invariant 0 <= i <= |files|
      invariant ConsistentFiles(files[..i]) && values == FirstByUrl(files[..i])
      invariant forall url :: url in filesByUrl <==> HasUrl(files[..i], url)
      invariant forall j :: 0 <= j < i ==> files[j].url in filesByUrl && filesByUrl[files[j].url] == files[j]
    {
      var file := files[i];
      assert files[..i + 1][..i] == files[..i] && files[..i + 1] == files[..i] + [file];
      if file.url in filesByUrl {
        var existing := filesByUrl[file.url];
        ghost var j := UrlHolder(files, i, file.url);
        assert existing == files[j];
        if existing.sha512 != file.sha512 || existing.size != file.size {
          Inconsistent(files, j, i);
          return Err(ConflictingFile(file.url));
        }
      } else {
        values := values + [file];
      }
      ConsistentSnoc(files, i);
      FirstStep(files, i);
      UrlsOfNext(files, i);
      filesByUrl := filesByUrl[file.url := file];
      i := i + 1;
    }
    assert files[..i] == files;
    r := Ok(values);
  }

  lemma NoFiles()
    ensures ConsistentFiles([]) && FirstByUrl([]) == [] && forall url :: !HasUrl([], url)
  {
  }

  lemma UrlHolder(files: seq<File>, i: nat, url: string) returns (j: nat)
    requires i <= |files| && HasUrl(files[..i], url)
    ensures j < i && files[j].url == url
  {
    j :| 0 <= j < i && files[..i][j].url == url;
  }

  lemma Inconsistent(files: seq<File>, i: nat, j: nat)
    requires i < j < |files| && Clash(files[i], files[j])
    ensures !ConsistentFiles(files)
  {
  }

  lemma FirstStep(files: seq<File>, i: nat)
    requires i < |files|
    ensures FirstByUrl(files[..i + 1])
      == FirstByUrl(files[..i]) + if HasUrl(files[..i], files[i].url) then [] else [files[i]]
  {
    assert files[..i + 1][..i] == files[..i];
  }

  lemma UrlsOfNext(files: seq<File>, i: nat)
    requires i < |files|
    ensures forall url :: HasUrl(files[..i + 1], url) <==> HasUrl(files[..i], url) || url == files[i].url
  {
    forall url ensures HasUrl(files[..i + 1], url) <==> HasUrl(files[..i], url) || url == files[i].url {
      if HasUrl(files[..i], url) {
        var j :| 0 <= j < i && files[..i][j].url == url;
        assert files[..i + 1][j].url == url;
      }
      if HasUrl(files[..i + 1], url) {
        var j :| 0 <= j < i + 1 && files[..i + 1][j].url == url;
        assert j < i ==> files[..i][j].url == url;
      }
      assert files[..i + 1][i].url == files[i].url;
    }
  }

  /* ---------- Manifests ---------- */

  /** Exactly when two manifests merge. */
  ghost predicate Mergeable(a: Manifest, b: Manifest) {
    a.version == b.version && ConsistentFiles(a.files + b.files) && ExtrasMerge(a.extras, b.extras)
  }

  ghost predicate IsMergeOf(a: Manifest, b: Manifest, m: Manifest) {
    && m.version == a.version
    && m.releaseDate == (if Precedes(b.releaseDate, a.releaseDate) then a.releaseDate else b.releaseDate)
    && m.files == FirstByUrl(a.files + b.files)
    && UniqueKeys(m.extras) && Overlay(m.extras, a.extras, b.extras)
  }

  /** Versions are compared first, then files, then extras; the error names a url or key that conflicts. */
  ghost predicate IsMergeError(a: Manifest, b: Manifest, error: Error) {
    if a.version != b.version then error == DifferentVersions
    else if !ConsistentFiles(a.files + b.files) then
      exists f, g :: f in a.files + b.files && g in a.files + b.files && Clash(f, g) && error == ConflictingFile(g.url)
    else exists e :: e in b.extras && !Agrees(a.extras, e) && error == ConflictingExtra(e.key)
  }

  method MergeMacUpdateManifests(primary: Manifest, secondary: Manifest) returns (r: Result<Manifest>)
    requires UniqueKeys(primary.extras) && UniqueKeys(secondary.extras)
    ensures r.Ok? <==> Mergeable(primary, secondary)
    ensures r.Ok? ==> IsMergeOf(primary, secondary, r.value)
    ensures r.Err? ==> IsMergeError(primary, secondary, r.error)
  {
    LexLeqIff(secondary.releaseDate, primary.releaseDate);
    if primary.version != secondary.version { return Err(DifferentVersions); }
    var files := MergeFiles(primary.files + secondary.files);
    if files.Err? { return Err(files.error); }
    var releaseDate :=
      if LexLeq(secondary.releaseDate, primary.releaseDate) then primary.releaseDate else secondary.releaseDate;
    var extras := MergeExtras(primary.extras, secondary.extras);
    if extras.Err? { return Err(extras.error); }
    r := Ok(Manifest(primary.version, releaseDate, files.value, extras.value));
  }

  /** Any two dates are in order one way or the other, both ways only if they are equal. */
  lemma DatesAreOrdered(a: string, b: string)
    ensures Precedes(a, b) || Precedes(b, a)
    ensures Precedes(a, b) && Precedes(b, a) ==> a == b
    ensures Precedes(a, a) && Precedes(b, b)
  {
    LexLeqIff(a, b);
    LexLeqIff(b, a);
    LexTotal(a, b);
    assert a[..|a|] == a && b[..|b|] == b;
  }

  /** Whichever way round, the merge takes a date that is greater at the first difference, or continues the other. */
  lemma LaterDateWins(a: Manifest, b: Manifest, ab: Manifest, ba: Manifest, i: nat)
    requires Mergeable(a, b) && Mergeable(b, a) && IsMergeOf(a, b, ab) && IsMergeOf(b, a, ba)
    requires LessAt(a.releaseDate, b.releaseDate, i) || a.releaseDate < b.releaseDate
    ensures ab.releaseDate == b.releaseDate && ba.releaseDate == b.releaseDate
  {
    assert Precedes(a.releaseDate, b.releaseDate);
    DatesAreOrdered(a.releaseDate, b.releaseDate);
  }

  /** A merge holds each url once, exactly the files of both, exactly the extras of both, and the later date. */
  lemma MergeIsUnion(a: Manifest, b: Manifest, m: Manifest)
    requires Mergeable(a, b) && IsMergeOf(a, b, m)
    ensures UniqueUrls(m.files) && forall f :: f in m.files <==> f in a.files || f in b.files
    ensures forall key :: Lookup(a.extras, key).Some? ==> Lookup(m.extras, key) == Lookup(a.extras, key)
    ensures forall key :: Lookup(b.extras, key).Some? ==> Lookup(m.extras, key) == Lookup(b.extras, key)
    ensures forall key :: Lookup(m.extras, key).Some? ==> Lookup(a.extras, key).Some? || Lookup(b.extras, key).Some?
    ensures m.releaseDate == a.releaseDate || m.releaseDate == b.releaseDate
    ensures Precedes(a.releaseDate, m.releaseDate) && Precedes(b.releaseDate, m.releaseDate)
  {
    hide Precedes, LexLeq;
    FirstByUrlIsUnion(a.files + b.files);
    DatesAreOrdered(a.releaseDate, b.releaseDate);
    forall key | Lookup(a.extras, key).Some? ensures Lookup(m.extras, key) == Lookup(a.extras, key) {
      if Lookup(b.extras, key).Some? {
        var i := EntryOf(b.extras, key);
        assert Agrees(a.extras, b.extras[i]);
      }
    }
  }

  lemma {:induction false} EntryOf(m: Extras, key: string) returns (i: nat)
    requires Lookup(m, key).Some?
    ensures i < |m| && m[i] == Extra(key, Lookup(m, key).value)
  {
    if m[0].key == key {
      i := 0;
    } else {
      i := EntryOf(m[1..], key);
      i := i + 1;
    }
  }

  /** Merged either way round, two manifests give the same up to the order of files and extras. */
  lemma MergeCommutes(a: Manifest, b: Manifest, ab: Manifest, ba: Manifest)
    requires Mergeable(a, b) && Mergeable(b, a) && IsMergeOf(a, b, ab) && IsMergeOf(b, a, ba)
    ensures ab.version == ba.version && ab.releaseDate == ba.releaseDate
    ensures forall f :: f in ab.files <==> f in ba.files
    ensures forall key :: Lookup(ab.extras, key) == Lookup(ba.extras, key)
  {
    MergeIsUnion(a, b, ab);
    MergeIsUnion(b, a, ba);
    DatesAreOrdered(a.releaseDate, b.releaseDate);
    hide Precedes;
    forall key ensures Lookup(ab.extras, key) == Lookup(ba.extras, key) {
      if Lookup(a.extras, key).Some? {
      } else if Lookup(b.extras, key).Some? {
      } else {
        assert Lookup(ab.extras, key).None? && Lookup(ba.extras, key).None?;
      }
    }
  }

  /** A key that only the first manifest has, and that objects inherit, lets only one order succeed. */
  ghost predicate InheritedOnlyIn(a: Extras, b: Extras) {
    exists i :: 0 <= i < |a| && a[i].key in INHERITED_NAMES && Lookup(b, a[i].key).None?
  }

  /** Given that one order merges, the other does exactly when the first has no inherited key of its own alone. */
  lemma OtherOrderMergesIff(a: Manifest, b: Manifest)
    requires UniqueKeys(a.extras) && UniqueKeys(b.extras) && Mergeable(a, b)
    ensures Mergeable(b, a) <==> !InheritedOnlyIn(a.extras, b.extras)
  {
    ConsistentSwap(a.files, b.files);
    forall i | 0 <= i < |a.extras|
      ensures Agrees(b.extras, a.extras[i]) <==>
        !(a.extras[i].key in INHERITED_NAMES && Lookup(b.extras, a.extras[i].key).None?)
    {
      var e := a.extras[i];
      if Lookup(b.extras, e.key).Some? {
        var j := EntryOf(b.extras, e.key);
        assert Agrees(a.extras, b.extras[j]);
        LookupIffEntry(a.extras, e.key, e.value);
        assert e in a.extras;
      }
    }
  }

  lemma ConsistentSwap(a: seq<File>, b: seq<File>)
    requires ConsistentFiles(a + b)
    ensures ConsistentFiles(b + a)
  {
    forall i, j | 0 <= i < j < |b + a| && (b + a)[i].url == (b + a)[j].url ensures (b + a)[i] == (b + a)[j] {
      var i' := if i < |b| then |a| + i else i - |b|;
      var j' := if j < |b| then |a| + j else j - |b|;
      assert (b + a)[i] == (a + b)[i'] && (b + a)[j] == (a + b)[j'];
      assert i' < j' || j' < i';
    }
  }

  /** Merging an extra called "constructor" works in one order and is refused as a conflict in the other. */
  lemma ConstructorKeyBreaksSymmetry(a: Manifest, b: Manifest)
    requires a.version == b.version && ConsistentFiles(a.files + b.files)
    requires a.extras == [Extra("constructor", Bool(true))] && b.extras == []
    ensures Mergeable(a, b) && !Mergeable(b, a)
  {
    assert !Agrees(b.extras, a.extras[0]);
  }
}
