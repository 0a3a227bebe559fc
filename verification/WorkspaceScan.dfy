/**
 The bounded scan of a workspace for produced files, and the difference of two scans. The file
 system is any three functions on paths: the tree they span may be infinite.
 */
module WorkspaceScan {
  import opened Sorting
  import opened Strings
  import opened Wrappers

  const EXCLUDED_TOP_LEVEL_DIRECTORY_NAMES: set<string> := {"tmp", "logs", "inbox", "context", "skills"}
  const EXCLUDED_ROOT_FILE_NAMES: set<string> := {"agents.md", "claude.md"}
  const EXCLUDED_NESTED_DIRECTORY_NAMES: set<string> := {"node_modules"}
  const MAX_SCAN_DEPTH: nat := 8
  const MAX_SCAN_FILES: nat := 4_000
  const MAX_SCAN_ENTRIES: nat := 20_000
  const SCAN_STAT_BATCH_SIZE: nat := 64

  type Path = seq<string>

  datatype FileStat = FileStat(mtimeMs: int, size: int)
  datatype Info = File(stat: FileStat) | Directory | Other

  /**
   Unreadable directories list nothing; unreadable entries have no info; the lower-casing of names is the
   platform's.
   */
  datatype FileSystem = FileSystem(
    readDirectory: Path -> seq<string>,
    stat: Path -> Option<Info>,
    isLink: Path -> bool,
    lower: string -> string)

  /** No directory lists a name with a slash in it. */
  ghost predicate ValidFileSystem(fs: FileSystem) {
    forall directory, i :: 0 <= i < |fs.readDirectory(directory)| ==> '/' !in fs.readDirectory(directory)[i]
  }

  /* ---------- Which paths count ---------- */

  predicate IsSafeVisibleSegment(fs: FileSystem, segment: string) {
    segment != [] && segment != "." && segment != ".." && segment[0] != '.'
      && fs.lower(segment) !in EXCLUDED_NESTED_DIRECTORY_NAMES
  }

  predicate IsSafeVisibleSegments(fs: FileSystem, segments: Path) {
    forall i :: 0 <= i < |segments| ==> IsSafeVisibleSegment(fs, segments[i])
  }

  predicate IsStudioOutputRelativePath(fs: FileSystem, relativePath: string) {
    var segments := SplitSlash(relativePath);
    && !(|segments| == 1 && fs.lower(segments[0]) in EXCLUDED_ROOT_FILE_NAMES)
    && !(|segments| > 1 && fs.lower(segments[0]) in EXCLUDED_TOP_LEVEL_DIRECTORY_NAMES)
    && IsSafeVisibleSegments(fs, segments)
  }

  predicate IsRootCandidate(fs: FileSystem, name: string) {
    fs.lower(name) !in EXCLUDED_TOP_LEVEL_DIRECTORY_NAMES && fs.lower(name) !in EXCLUDED_ROOT_FILE_NAMES
  }

  /** What the scan asks of an entry before it looks at it. */
  predicate IsCandidate(fs: FileSystem, segments: Path) {
    && segments != []
    && IsSafeVisibleSegment(fs, segments[|segments| - 1])
    && (|segments| == 1 ==> IsRootCandidate(fs, segments[0]))
  }

  predicate AllCandidates(fs: FileSystem, segments: Path) {
    segments != [] && forall k :: 1 <= k <= |segments| ==> IsCandidate(fs, segments[..k])
  }

  /**
   The scan refuses more than the path test does: a root file with the name of an excluded directory, and the
   contents of a root directory named like an excluded file.
   */
  lemma ScanFilterIff(fs: FileSystem, segments: Path)
    requires segments != [] && forall i :: 0 <= i < |segments| ==> '/' !in segments[i]
    ensures AllCandidates(fs, segments) <==>
      && IsStudioOutputRelativePath(fs, JoinSlash(segments))
      && !(|segments| == 1 && fs.lower(segments[0]) in EXCLUDED_TOP_LEVEL_DIRECTORY_NAMES)
      && !(|segments| > 1 && fs.lower(segments[0]) in EXCLUDED_ROOT_FILE_NAMES)
  {
    hide IsSafeVisibleSegment, SplitSlash, JoinSlash, IsCandidate;
    SplitJoinSlash(segments);
    forall k | 1 <= k <= |segments| ensures IsCandidate(fs, segments[..k]) <==>
      IsSafeVisibleSegment(fs, segments[k - 1]) && (k == 1 ==> IsRootCandidate(fs, segments[0])) {
      PrefixIsCandidate(fs, segments, k);
    }
    if AllCandidates(fs, segments) {
      forall i | 0 <= i < |segments| ensures IsSafeVisibleSegment(fs, segments[i]) {
        assert IsCandidate(fs, segments[..i + 1]);
      }
      assert IsCandidate(fs, segments[..1]);
    }
  }

  /**
   What the scan lets through, said by names: nothing hidden or empty, nothing excluded at any depth or at the
   root.
   */
  lemma VisibleIff(fs: FileSystem, segments: Path)
    ensures AllCandidates(fs, segments) <==>
      && segments != []
      && (forall i :: 0 <= i < |segments| ==>
            segments[i] != [] && segments[i][0] != '.' && fs.lower(segments[i]) != "node_modules")
      && fs.lower(segments[0]) !in {"tmp", "logs", "inbox", "context", "skills", "agents.md", "claude.md"}
  {
    hide IsCandidate;
    forall k | 1 <= k <= |segments| ensures IsCandidate(fs, segments[..k]) <==>
      IsSafeVisibleSegment(fs, segments[k - 1]) && (k == 1 ==> IsRootCandidate(fs, segments[0])) {
      PrefixIsCandidate(fs, segments, k);
    }
    if AllCandidates(fs, segments) {
      forall i | 0 <= i < |segments| ensures IsSafeVisibleSegment(fs, segments[i]) {
        assert IsCandidate(fs, segments[..i + 1]);
      }
      assert IsCandidate(fs, segments[..1]);
    }
  }

  /** The path test said by names: the names of directories bar what is inside, those of files a path of one part. */
  lemma PathTestIff(fs: FileSystem, segments: Path)
    requires segments != [] && forall i :: 0 <= i < |segments| ==> '/' !in segments[i]
    ensures IsStudioOutputRelativePath(fs, JoinSlash(segments)) <==>
      && (forall i :: 0 <= i < |segments| ==>
            segments[i] != [] && segments[i][0] != '.' && fs.lower(segments[i]) != "node_modules")
      && fs.lower(segments[0]) !in
         if |segments| == 1 then {"agents.md", "claude.md"} else {"tmp", "logs", "inbox", "context", "skills"}
  {
    hide SplitSlash, JoinSlash;
    SplitJoinSlash(segments);
  }

  lemma PrefixIsCandidate(fs: FileSystem, segments: Path, k: nat)
    requires 1 <= k <= |segments|
    ensures IsCandidate(fs, segments[..k]) <==>
      IsSafeVisibleSegment(fs, segments[k - 1]) && (k == 1 ==> IsRootCandidate(fs, segments[0]))
  {
    hide IsSafeVisibleSegment;
  }

  /* ---------- The whole tree ---------- */

  predicate IsLinkedDirectory(fs: FileSystem, segments: Path) {
    |segments| < MAX_SCAN_DEPTH && fs.isLink(segments)
  }

  predicate IsWalkable(fs: FileSystem, segments: Path) {
    fs.stat(segments) == Some(Directory) && !IsLinkedDirectory(fs, segments)
  }

  /** Linked directories are left out above the depth of eight parts, and only there. */
  lemma LinksAreFollowedOnlyAtDepth(fs: FileSystem, segments: Path)
    requires fs.stat(segments) == Some(Directory)
    ensures fs.isLink(segments) ==> (IsWalkable(fs, segments) <==> |segments| >= 8)
    ensures !fs.isLink(segments) ==> IsWalkable(fs, segments)
  {
  }

  predicate Lists(fs: FileSystem, directory: Path, name: string) {
    name in fs.readDirectory(directory) && IsCandidate(fs, directory + [name])
  }

  /** The directories the scan may enter. */
  predicate Walked(fs: FileSystem, segments: Path) {
    segments == [] ||
    (var parent, name := segments[..|segments| - 1], segments[|segments| - 1];
     Walked(fs, parent) && Lists(fs, parent, name) && IsWalkable(fs, segments))
  }

  /** The files an unbounded scan would find. */
  predicate Expected(fs: FileSystem, segments: Path, stat: FileStat) {
    && segments != [] && Walked(fs, segments[..|segments| - 1])
    && Lists(fs, segments[..|segments| - 1], segments[|segments| - 1])
    && fs.stat(segments) == Some(File(stat))
  }

  lemma {:induction false} WalkedIsVisible(fs: FileSystem, segments: Path)
    requires ValidFileSystem(fs) && Walked(fs, segments)
    ensures segments != [] ==> AllCandidates(fs, segments)
    ensures forall i :: 0 <= i < |segments| ==> '/' !in segments[i]
  {
    hide IsCandidate;
    if segments != [] {
      var k := |segments| - 1;
      WalkedIsVisible(fs, segments[..k]);
      ListedIsVisible(fs, segments);
    }
  }

  lemma ListedIsVisible(fs: FileSystem, segments: Path)
    requires ValidFileSystem(fs) && segments != []
    requires var parent := segments[..|segments| - 1];
      && (parent != [] ==> AllCandidates(fs, parent)) && (forall i :: 0 <= i < |parent| ==> '/' !in parent[i])
      && Lists(fs, parent, segments[|segments| - 1])
    ensures AllCandidates(fs, segments) && forall i :: 0 <= i < |segments| ==> '/' !in segments[i]
  {
    hide IsCandidate;
    var k := |segments| - 1;
    var parent := segments[..k];
    assert segments == parent + [segments[k]];
    forall j | 1 <= j <= |segments| ensures IsCandidate(fs, segments[..j]) {
      if j <= k { assert segments[..j] == parent[..j]; } else { assert segments[..j] == segments; }
    }
  }

  lemma ExpectedIsVisible(fs: FileSystem, segments: Path, stat: FileStat)
    requires ValidFileSystem(fs) && Expected(fs, segments, stat)
    ensures AllCandidates(fs, segments) && forall i :: 0 <= i < |segments| ==> '/' !in segments[i]
  {
    hide IsCandidate, Walked;
    WalkedIsVisible(fs, segments[..|segments| - 1]);
    ListedIsVisible(fs, segments);
  }

  /* ---------- The result: a map in insertion order ---------- */

  datatype Entry = Entry(path: string, stat: FileStat)
  type Scan = seq<Entry>

  ghost predicate UniquePaths(scan: Scan) {
    forall i, j :: 0 <= i < j < |scan| ==> scan[i].path != scan[j].path
  }

  function Get(scan: Scan, path: string): (r: Option<FileStat>)
    ensures r.Some? ==> Entry(path, r.value) in scan
    ensures r.None? ==> forall e :: e in scan ==> e.path != path
  {
    if scan == [] then None
    else if scan[0].path == path then Some(scan[0].stat)
    else Get(scan[1..], path)
  }

  function Put(scan: Scan, path: string, stat: FileStat): (r: Scan)
    ensures |scan| <= |r| <= |scan| + 1
  {
    if scan == [] then [Entry(path, stat)]
    else if scan[0].path == path then [Entry(path, stat)] + scan[1..]
    else [scan[0]] + Put(scan[1..], path, stat)
  }

  lemma {:induction false} GetPut(scan: Scan, path: string, stat: FileStat, other: string)
    ensures Get(Put(scan, path, stat), other) == if other == path then Some(stat) else Get(scan, other)
    ensures forall e :: e in Put(scan, path, stat) ==> e.path == path || e in scan
  {
    if scan != [] && scan[0].path != path { GetPut(scan[1..], path, stat, other); }
  }

  lemma {:induction false} PutKeepsUnique(scan: Scan, path: string, stat: FileStat)
    requires UniquePaths(scan)
    ensures UniquePaths(Put(scan, path, stat))
  {
    if scan != [] && scan[0].path != path {
      PutKeepsUnique(scan[1..], path, stat);
      GetPut(scan[1..], path, stat, path);
      var r := Put(scan[1..], path, stat);
      forall j | 0 <= j < |r| ensures r[j].path != scan[0].path {
        assert r[j] in r;
        if r[j].path != path {
          var i :| 0 <= i < |scan| - 1 && scan[1..][i] == r[j];
        }
      }
    }
  }

  lemma {:induction false} GetUnique(scan: Scan, i: nat)
    requires UniquePaths(scan) && i < |scan|
    ensures Get(scan, scan[i].path) == Some(scan[i].stat)
  {
    if i > 0 { GetUnique(scan[1..], i - 1); }
  }

  /* ---------- The scan ---------- */

  /** Some file of the tree has this path and these data. */
  ghost predicate FromTree(fs: FileSystem, e: Entry) {
    exists segments :: Expected(fs, segments, e.stat) && JoinSlash(segments) == e.path
  }

  ghost predicate Faithful(fs: FileSystem, files: Scan) {
    UniquePaths(files) && forall e :: e in files ==> FromTree(fs, e)
  }

  ghost predicate Grows(files: Scan, more: Scan) {
    forall path :: Get(files, path).Some? ==> Get(more, path) == Get(files, path)
  }

  /** The entry has been dealt with: a file is recorded, a directory to enter is known. */
  ghost predicate Covered(fs: FileSystem, files: Scan, known: set<Path>, segments: Path) {
    && (forall stat :: fs.stat(segments) == Some(File(stat)) ==> Get(files, JoinSlash(segments)) == Some(stat))
    && (IsWalkable(fs, segments) ==> segments in known)
  }

  ghost predicate CoveredUpTo(fs: FileSystem, files: Scan, known: set<Path>, directory: Path, n: nat)
    requires n <= |fs.readDirectory(directory)|
  {
    forall i :: 0 <= i < n && IsCandidate(fs, directory + [fs.readDirectory(directory)[i]])
      ==> Covered(fs, files, known, directory + [fs.readDirectory(directory)[i]])
  }

  ghost predicate AllWalked(fs: FileSystem, directories: seq<Path>) {
    forall i :: 0 <= i < |directories| ==> Walked(fs, directories[i])
  }

  ghost predicate Closed(fs: FileSystem, files: Scan, known: set<Path>, done: set<Path>) {
    [] in known && forall d :: d in done ==> CoveredUpTo(fs, files, known, d, |fs.readDirectory(d)|)
  }

  lemma CoveredStays(fs: FileSystem, files: Scan, known: set<Path>, more: Scan, wider: set<Path>, segments: Path)
    requires Covered(fs, files, known, segments) && Grows(files, more) && known <= wider
    ensures Covered(fs, more, wider, segments)
  {
    hide IsWalkable, JoinSlash, Get;
  }

  lemma ClosedStays(fs: FileSystem, files: Scan, known: set<Path>, more: Scan, wider: set<Path>, done: set<Path>)
    requires Closed(fs, files, known, done) && Grows(files, more) && known <= wider
    ensures Closed(fs, more, wider, done)
  {
    forall d | d in done ensures CoveredUpTo(fs, more, wider, d, |fs.readDirectory(d)|) {
      UpToStays(fs, files, known, more, wider, d, |fs.readDirectory(d)|);
    }
  }

  lemma UpToStays(fs: FileSystem, files: Scan, known: set<Path>, more: Scan, wider: set<Path>, directory: Path, n: nat)
    requires n <= |fs.readDirectory(directory)| && CoveredUpTo(fs, files, known, directory, n)
    requires Grows(files, more) && known <= wider
    ensures CoveredUpTo(fs, more, wider, directory, n)
  {
    hide Covered, IsCandidate, Grows;
    var names := fs.readDirectory(directory);
    forall i | 0 <= i < n && IsCandidate(fs, directory + [names[i]])
      ensures Covered(fs, more, wider, directory + [names[i]]) {
      CoveredStays(fs, files, known, more, wider, directory + [names[i]]);
    }
  }

  /** Recording a file of the tree changes nothing recorded before: its path belongs to it alone. */
  lemma PutFile(fs: FileSystem, files: Scan, segments: Path, stat: FileStat)
    requires ValidFileSystem(fs) && Faithful(fs, files) && Expected(fs, segments, stat)
    ensures var more := Put(files, JoinSlash(segments), stat);
      Faithful(fs, more) && Grows(files, more) && Get(more, JoinSlash(segments)) == Some(stat)
  {
    hide Expected, ValidFileSystem, JoinSlash, AllCandidates;
    var path := JoinSlash(segments);
    var more := Put(files, path, stat);
    PutKeepsUnique(files, path, stat);
    GetPut(files, path, stat, path);
    assert FromTree(fs, Entry(path, stat));
    forall e | e in more ensures FromTree(fs, e) {
      if e.path == path {
        var i :| 0 <= i < |more| && more[i] == e;
        GetUnique(more, i);
      }
    }
    forall other | Get(files, other).Some? ensures Get(more, other) == Get(files, other) {
      GetPut(files, path, stat, other);
      if other == path {
        var old_ := Entry(path, Get(files, path).value);
        assert FromTree(fs, old_);
        var twin :| Expected(fs, twin, old_.stat) && JoinSlash(twin) == path;
        SamePathSameFile(fs, segments, stat, twin, old_.stat);
      }
    }
  }

  lemma SamePathSameFile(fs: FileSystem, a: Path, x: FileStat, b: Path, y: FileStat)
    requires ValidFileSystem(fs) && Expected(fs, a, x) && Expected(fs, b, y) && JoinSlash(a) == JoinSlash(b)
    ensures a == b && x == y
  {
    hide ValidFileSystem, AllCandidates, Walked, Lists, JoinSlash;
    ExpectedIsVisible(fs, a, x);
    ExpectedIsVisible(fs, b, y);
    SplitJoinSlash(a);
    SplitJoinSlash(b);
  }

  ghost predicate IsEntryOf(fs: FileSystem, directory: Path, segments: Path) {
    exists name :: segments == directory + [name] && Lists(fs, directory, name)
  }

  ghost predicate Batched(fs: FileSystem, directory: Path, batch: seq<Path>, i: nat)
    requires i < |fs.readDirectory(directory)|
  {
    var segments := directory + [fs.readDirectory(directory)[i]];
    IsCandidate(fs, segments) ==> segments in batch
  }

  /** Counts every name, and keeps at most 64 of those worth a look. */
  method NextBatch(fs: FileSystem, directory: Path, entryIndex: nat, scannedEntryCount: nat)
      returns (batch: seq<Path>, next: nat, count: nat)
    requires entryIndex < |fs.readDirectory(directory)| && scannedEntryCount < MAX_SCAN_ENTRIES
    ensures entryIndex < next <= |fs.readDirectory(directory)|
    ensures count == scannedEntryCount + (next - entryIndex) && count <= MAX_SCAN_ENTRIES
    ensures |batch| <= 64
    ensures forall b :: b in batch ==> IsEntryOf(fs, directory, b)
    ensures forall i :: entryIndex <= i < next ==> Batched(fs, directory, batch, i)
    ensures next == |fs.readDirectory(directory)| || |batch| == 64 || count == MAX_SCAN_ENTRIES
  {
    hide IsCandidate;
    var entryNames := fs.readDirectory(directory);
    batch, next, count := [], entryIndex, scannedEntryCount;
    while next < |entryNames| && |batch| < SCAN_STAT_BATCH_SIZE && count < MAX_SCAN_ENTRIES
      invariant entryIndex <= next <= |entryNames| && count == scannedEntryCount + (next - entryIndex)
      invariant count <= MAX_SCAN_ENTRIES && |batch| <= SCAN_STAT_BATCH_SIZE && |batch| <= next - entryIndex
      invariant forall b :: b in batch ==> IsEntryOf(fs, directory, b)
      invariant forall i :: entryIndex <= i < next ==> Batched(fs, directory, batch, i)
      decreases |entryNames| - next
    {
      var segments := directory + [entryNames[next]];
      ghost var smaller := batch;
      next := next + 1;
      count := count + 1;
      if IsCandidate(fs, segments) {
        assert Lists(fs, directory, entryNames[next - 1]);
        batch := batch + [segments];
      }
      forall i | entryIndex <= i < next ensures Batched(fs, directory, batch, i) {
        if i < next - 1 { assert Batched(fs, directory, smaller, i); }
      }
    }
  }

  /** Records the files of a batch and queues its directories, until the cap on files. */
  method AbsorbBatch(fs: FileSystem, batch: seq<Path>, ghost directory: Path, before: Scan, pending: seq<Path>,
      ghost done: set<Path>)
    returns (files: Scan, directories: seq<Path>)
    requires ValidFileSystem(fs) && Faithful(fs, before) && AllWalked(fs, pending) && Walked(fs, directory)
    requires forall b :: b in batch ==> IsEntryOf(fs, directory, b)
    requires |before| <= MAX_SCAN_FILES
    ensures Faithful(fs, files) && Grows(before, files) && |before| <= |files| <= MAX_SCAN_FILES
    ensures pending <= directories && AllWalked(fs, directories)
    ensures |files| < MAX_SCAN_FILES ==> forall b :: b in batch ==> Covered(fs, files, done + Elements(directories), b)
  {
    hide ValidFileSystem, Faithful, Walked, IsWalkable, JoinSlash, Grows, Get, Put, Expected, Lists;
    files, directories := before, pending;
    GrowsRefl(before);
    var i := 0;
    while i < |batch|
      invariant 0 <= i <= |batch| && Faithful(fs, files) && Grows(before, files)
        && |before| <= |files| <= MAX_SCAN_FILES
      invariant pending <= directories && AllWalked(fs, directories)
      invariant forall j :: 0 <= j < i ==> Covered(fs, files, done + Elements(directories), batch[j])
    {
      var segments := batch[i];
      var info := fs.stat(segments);
      ghost var known := done + Elements(directories);
      EntryOf(fs, directory, segments);
      if info.Some? && info.value.File? {
        if |files| >= MAX_SCAN_FILES { break; }
        PutFile(fs, files, segments, info.value.stat);
        ghost var more := Put(files, JoinSlash(segments), info.value.stat);
        GrowsTrans(before, files, more);
        forall j | 0 <= j < i ensures Covered(fs, more, known, batch[j]) {
          CoveredStays(fs, files, known, more, known, batch[j]);
        }
        FileCovered(fs, more, known, segments, info.value.stat);
        files := Put(files, JoinSlash(segments), info.value.stat);
      } else if info == Some(Directory) && !IsLinkedDirectory(fs, segments) {
        ghost var wider := done + Elements(directories + [segments]);
        GrowsRefl(files);
        forall j | 0 <= j < i ensures Covered(fs, files, wider, batch[j]) {
          CoveredStays(fs, files, known, files, wider, batch[j]);
        }
        WalkableIs(fs, segments);
        directories := directories + [segments];
      } else {
        WalkableIs(fs, segments);
      }
      i := i + 1;
    }
  }

  lemma GrowsRefl(files: Scan)
    ensures Grows(files, files)
  {
  }

  lemma GrowsTrans(a: Scan, b: Scan, c: Scan)
    requires Grows(a, b) && Grows(b, c)
    ensures Grows(a, c)
  {
  }

  lemma FileCovered(fs: FileSystem, files: Scan, known: set<Path>, segments: Path, stat: FileStat)
    requires fs.stat(segments) == Some(File(stat)) && Get(files, JoinSlash(segments)) == Some(stat)
    ensures Covered(fs, files, known, segments)
  {
  }

  lemma WalkableIs(fs: FileSystem, segments: Path)
    ensures IsWalkable(fs, segments) <==> fs.stat(segments) == Some(Directory) && !IsLinkedDirectory(fs, segments)
  {
  }

  lemma EntryOf(fs: FileSystem, directory: Path, segments: Path)
    requires Walked(fs, directory) && IsEntryOf(fs, directory, segments)
    ensures forall stat :: fs.stat(segments) == Some(File(stat)) ==> Expected(fs, segments, stat)
    ensures fs.stat(segments) == Some(Directory) && !IsLinkedDirectory(fs, segments) ==> Walked(fs, segments)
  {
    hide Lists;
    var name :| segments == directory + [name] && Lists(fs, directory, name);
    assert segments[..|segments| - 1] == directory;
  }

  lemma BatchCovers(fs: FileSystem, files: Scan, known: set<Path>, directory: Path, batch: seq<Path>, start: nat,
      next: nat)
    requires start <= next <= |fs.readDirectory(directory)| && CoveredUpTo(fs, files, known, directory, start)
    requires forall i :: start <= i < next ==> Batched(fs, directory, batch, i)
    requires forall b :: b in batch ==> Covered(fs, files, known, b)
    ensures CoveredUpTo(fs, files, known, directory, next)
  {
    hide Covered, IsCandidate;
    var names := fs.readDirectory(directory);
    forall i | 0 <= i < next && IsCandidate(fs, directory + [names[i]])
      ensures Covered(fs, files, known, directory + [names[i]]) {
      if start <= i { assert Batched(fs, directory, batch, i); }
    }
  }

  ghost predicate Capped(files: Scan, count: nat) {
    |files| >= MAX_SCAN_FILES || count >= MAX_SCAN_ENTRIES
  }

  /** Every file that an unbounded scan would find is there. */
  ghost predicate Complete(fs: FileSystem, files: Scan) {
    forall segments, stat :: Expected(fs, segments, stat) ==> Get(files, JoinSlash(segments)) == Some(stat)
  }

  /** One directory, in batches, while both caps allow. */
  method ScanDirectory(fs: FileSystem, directory: Path, before: Scan, pending: seq<Path>, scannedEntryCount: nat,
      ghost done: set<Path>)
    returns (files: Scan, directories: seq<Path>, count: nat)
    requires ValidFileSystem(fs) && Faithful(fs, before) && AllWalked(fs, pending) && Walked(fs, directory)
    requires |before| < MAX_SCAN_FILES && scannedEntryCount < MAX_SCAN_ENTRIES
    ensures Faithful(fs, files) && Grows(before, files) && |before| <= |files| <= MAX_SCAN_FILES
    ensures pending <= directories && AllWalked(fs, directories) && scannedEntryCount <= count <= MAX_SCAN_ENTRIES
    ensures fs.readDirectory(directory) == [] ==> directories == pending && count == scannedEntryCount
    ensures fs.readDirectory(directory) != [] ==> count > scannedEntryCount
    ensures !Capped(files, count) ==>
      CoveredUpTo(fs, files, done + Elements(directories), directory, |fs.readDirectory(directory)|)
  {
    hide ValidFileSystem, Faithful, Walked, AllWalked, CoveredUpTo, Covered, Grows, Batched, IsEntryOf, Elements;
    var entryNames := fs.readDirectory(directory);
    files, directories, count := before, pending, scannedEntryCount;
    var entryIndex := 0;
    GrowsRefl(before);
    NothingToCover(fs, files, done + Elements(directories), directory);
    while entryIndex < |entryNames| && |files| < MAX_SCAN_FILES && count < MAX_SCAN_ENTRIES
      invariant 0 <= entryIndex <= |entryNames|
        && (entryIndex == 0 ==> count == scannedEntryCount && directories == pending && files == before)
      invariant entryIndex > 0 ==> count > scannedEntryCount
      invariant Faithful(fs, files) && Grows(before, files) && |before| <= |files| <= MAX_SCAN_FILES
      invariant pending <= directories && AllWalked(fs, directories) && scannedEntryCount <= count <= MAX_SCAN_ENTRIES
      invariant |files| < MAX_SCAN_FILES ==> CoveredUpTo(fs, files, done + Elements(directories), directory, entryIndex)
      decreases |entryNames| - entryIndex
    {
      ghost var files0, known0 := files, done + Elements(directories);
      ghost var start := entryIndex;
      var batch, next, counted := NextBatch(fs, directory, entryIndex, count);
      var more, wider := AbsorbBatch(fs, batch, directory, files, directories, done);
      GrowsTrans(before, files, more);
      if |more| < MAX_SCAN_FILES {
        PrefixElements(directories, wider);
        UpToStays(fs, files0, known0, more, done + Elements(wider), directory, start);
        BatchCovers(fs, more, done + Elements(wider), directory, batch, start, next);
      }
      files, directories, entryIndex, count := more, wider, next, counted;
    }
  }

  lemma NothingToCover(fs: FileSystem, files: Scan, known: set<Path>, directory: Path)
    ensures CoveredUpTo(fs, files, known, directory, 0)
  {
  }

  lemma PrefixElements(a: seq<Path>, b: seq<Path>)
    requires a <= b
    ensures Elements(a) <= Elements(b)
  {
    assert b == a + b[|a|..];
  }

  /**
   The whole scan. It ends on every tree: each round either counts an entry or leaves one pending
   directory less. What it records is real and counts as output, and nothing is missing unless a
   cap was reached.
   */
  method ScanStudioWorkspaceFiles(fs: FileSystem) returns (files: Scan, ghost scannedEntries: nat)
    requires ValidFileSystem(fs)
    ensures |files| <= 4_000 && scannedEntries <= 20_000 && UniquePaths(files)
    ensures forall e :: e in files ==> FromTree(fs, e) && IsStudioOutputRelativePath(fs, e.path)
    ensures |files| < 4_000 && scannedEntries < 20_000 ==> Complete(fs, files)
  {
    hide ValidFileSystem, Faithful, Walked, AllWalked, Closed, Grows, Elements, Complete, FromTree,
      IsStudioOutputRelativePath, CoveredUpTo;
    files := [];
    var pendingDirectories: seq<Path> := [[]];
    var scannedEntryCount := 0;
    ghost var done: set<Path> := {};
    StartOfScan(fs);
    while pendingDirectories != [] && |files| < MAX_SCAN_FILES && scannedEntryCount < MAX_SCAN_ENTRIES
      invariant Faithful(fs, files) && AllWalked(fs, pendingDirectories)
      invariant |files| <= MAX_SCAN_FILES && scannedEntryCount <= MAX_SCAN_ENTRIES
      invariant !Capped(files, scannedEntryCount) ==> Closed(fs, files, done + Elements(pendingDirectories), done)
      decreases MAX_SCAN_ENTRIES - scannedEntryCount, |pendingDirectories|
    {
      var k := |pendingDirectories| - 1;
      var directory, rest := pendingDirectories[k], pendingDirectories[..k];
      ghost var known := done + Elements(pendingDirectories);
      PopOne(fs, pendingDirectories, done);
      var more, directories, count := ScanDirectory(fs, directory, files, rest, scannedEntryCount, done + {directory});
      if !Capped(more, count) {
        PrefixElements(rest, directories);
        CloseDirectory(fs, files, known, more, done + {directory} + Elements(directories), done, directory);
      }
      files, pendingDirectories, scannedEntryCount := more, directories, count;
      done := done + {directory};
    }
    scannedEntries := scannedEntryCount;
    FaithfulMeans(fs, files);
    if !Capped(files, scannedEntryCount) {
      NoElements(done);
      ClosedIsComplete(fs, files, done + Elements(pendingDirectories), done);
    }
  }

  lemma NoElements(done: set<Path>)
    ensures done + Elements([]) == done
  {
  }

  lemma StartOfScan(fs: FileSystem)
    ensures Faithful(fs, []) && AllWalked(fs, [[]]) && Closed(fs, [], {} + Elements([[]]), {})
  {
    var start: seq<Path> := [[]];
    assert start[0] == [];
  }

  lemma PopOne(fs: FileSystem, pending: seq<Path>, done: set<Path>)
    requires pending != [] && AllWalked(fs, pending)
    ensures var k := |pending| - 1;
      && AllWalked(fs, pending[..k]) && Walked(fs, pending[k])
      && done + Elements(pending) == done + {pending[k]} + Elements(pending[..k])
  {
    hide Walked;
    var k := |pending| - 1;
    assert pending == pending[..k] + [pending[k]];
  }

  lemma CloseDirectory(fs: FileSystem, files: Scan, known: set<Path>, more: Scan, wider: set<Path>, done: set<Path>,
      directory: Path)
    requires Closed(fs, files, known, done) && Grows(files, more) && known <= wider
    requires CoveredUpTo(fs, more, wider, directory, |fs.readDirectory(directory)|)
    ensures Closed(fs, more, wider, done + {directory})
  {
    hide CoveredUpTo, Grows;
    ClosedStays(fs, files, known, more, wider, done);
  }

  lemma FaithfulMeans(fs: FileSystem, files: Scan)
    requires ValidFileSystem(fs) && Faithful(fs, files)
    ensures UniquePaths(files) && forall e :: e in files ==> FromTree(fs, e) && IsStudioOutputRelativePath(fs, e.path)
  {
    hide ValidFileSystem, Expected, IsStudioOutputRelativePath, AllCandidates, JoinSlash;
    forall e | e in files ensures IsStudioOutputRelativePath(fs, e.path) {
      var segments :| Expected(fs, segments, e.stat) && JoinSlash(segments) == e.path;
      ExpectedIsVisible(fs, segments, e.stat);
      ExpectedIsNotEmpty(fs, segments, e.stat);
      ScanFilterIff(fs, segments);
    }
  }

  lemma ExpectedIsNotEmpty(fs: FileSystem, segments: Path, stat: FileStat)
    requires Expected(fs, segments, stat)
    ensures segments != []
  {
  }

  lemma {:induction false} EveryWalkedIsKnown(fs: FileSystem, files: Scan, done: set<Path>, segments: Path)
    requires Closed(fs, files, done, done) && Walked(fs, segments)
    ensures segments in done
  {
    hide IsCandidate, CoveredUpTo, IsWalkable, Closed;
    if segments == [] {
      RootIsKnown(fs, files, done);
    } else {
      var k := |segments| - 1;
      EveryWalkedIsKnown(fs, files, done, segments[..k]);
      assert segments == segments[..k] + [segments[k]];
      ListedIsCovered(fs, files, done, segments[..k], segments[k]);
    }
  }

  lemma RootIsKnown(fs: FileSystem, files: Scan, done: set<Path>)
    requires Closed(fs, files, done, done)
    ensures [] in done
  {
  }

  lemma ListedIsCovered(fs: FileSystem, files: Scan, done: set<Path>, directory: Path, name: string)
    requires Closed(fs, files, done, done) && directory in done && Lists(fs, directory, name)
    ensures Covered(fs, files, done, directory + [name])
  {
    hide IsCandidate, Covered;
    var names := fs.readDirectory(directory);
    assert CoveredUpTo(fs, files, done, directory, |names|);
    var i :| 0 <= i < |names| && names[i] == name;
    assert IsCandidate(fs, directory + [names[i]]);
  }

  /** With nothing pending, what was done covers the whole tree. */
  lemma ClosedIsComplete(fs: FileSystem, files: Scan, known: set<Path>, done: set<Path>)
    requires Closed(fs, files, known, done) && known == done
    ensures Complete(fs, files)
  {
    hide Closed, Lists, Walked, JoinSlash, Get, IsWalkable;
    forall segments, stat | Expected(fs, segments, stat) ensures Get(files, JoinSlash(segments)) == Some(stat) {
      var k := |segments| - 1;
      EveryWalkedIsKnown(fs, files, done, segments[..k]);
      ListedIsCovered(fs, files, done, segments[..k], segments[k]);
      assert segments == segments[..k] + [segments[k]];
    }
  }

  /* ---------- The difference of two scans ---------- */

  predicate IsNewOrChanged(before: Scan, e: Entry) {
    Get(before, e.path) != Some(e.stat)
  }

  function NewOrChanged(before: Scan, after: Scan): (r: seq<string>)
    ensures forall path :: path in r ==> exists e :: e in after && e.path == path && IsNewOrChanged(before, e)
    ensures forall e :: e in after && IsNewOrChanged(before, e) ==> e.path in r
  {
    if after == [] then []
    else
      var k := |after| - 1;
      assert after == after[..k] + [after[k]];
      var r := NewOrChanged(before, after[..k]);
      if IsNewOrChanged(before, after[k]) then r + [after[k].path] else r
  }

  lemma OneMoreCompared(before: Scan, after: Scan, i: nat)
    requires i < |after|
    ensures NewOrChanged(before, after[..i + 1]) == NewOrChanged(before, after[..i])
      + if Get(before, after[i].path) == Some(after[i].stat) then [] else [after[i].path]
  {
    hide Get;
    assert after[..i + 1][..i] == after[..i];
  }

  /** Exactly the paths of the later scan that are new or changed, in its order. */
  method DiffStudioWorkspaceScans(before: Scan, after: Scan) returns (changed: seq<string>)
    requires UniquePaths(after)
    ensures changed == NewOrChanged(before, after) && Distinct(changed)
    ensures forall path :: path in changed <==> Get(after, path).Some? && Get(after, path) != Get(before, path)
  {
    changed := [];
    var i := 0;
    assert NewOrChanged(before, []) == [] && after[..0] == [];
    hide NewOrChanged, Get, UniquePaths;
    while i < |after|
      invariant 0 <= i <= |after| && changed == NewOrChanged(before, after[..i])
    {
      OneMoreCompared(before, after, i);
      var previous := Get(before, after[i].path);
      if previous.None? || previous.value.mtimeMs != after[i].stat.mtimeMs
        || previous.value.size != after[i].stat.size {
        changed := changed + [after[i].path];
      }
      i := i + 1;
    }
    assert after[..i] == after;
    NewOrChangedMembers(before, after);
    NewOrChangedDistinct(before, after);
  }

  lemma {:induction false} NewOrChangedDistinct(before: Scan, after: Scan)
    requires UniquePaths(after)
    ensures Distinct(NewOrChanged(before, after))
  {
    if after != [] {
      var k := |after| - 1;
      var r := NewOrChanged(before, after[..k]);
      NewOrChangedDistinct(before, after[..k]);
      forall path | path in r ensures path != after[k].path {
        var e :| e in after[..k] && e.path == path && IsNewOrChanged(before, e);
        var i :| 0 <= i < k && after[i] == e;
      }
      var longer := r + [after[k].path];
      forall i, j | 0 <= i < j < |longer| ensures longer[i] != longer[j] {
        assert longer[i] in r;
      }
      assert NewOrChanged(before, after) == r || NewOrChanged(before, after) == longer;
    }
  }

  lemma NewOrChangedMembers(before: Scan, after: Scan)
    requires UniquePaths(after)
    ensures forall path :: path in NewOrChanged(before, after) <==>
      Get(after, path).Some? && Get(after, path) != Get(before, path)
  {
    forall path ensures path in NewOrChanged(before, after) <==>
      Get(after, path).Some? && Get(after, path) != Get(before, path) {
      if path in NewOrChanged(before, after) {
        var e :| e in after && e.path == path && IsNewOrChanged(before, e);
        var i :| 0 <= i < |after| && after[i] == e;
        GetUnique(after, i);
      }
    }
  }

  /* ---------- What a turn produced ---------- */

  ghost predicate IsExpectedPath(fs: FileSystem, path: string, stat: FileStat) {
    exists segments :: Expected(fs, segments, stat) && JoinSlash(segments) == path
  }

  lemma CompleteScanIs(fs: FileSystem, files: Scan, path: string, stat: FileStat)
    requires Faithful(fs, files) && Complete(fs, files)
    ensures Get(files, path) == Some(stat) <==> IsExpectedPath(fs, path, stat)
  {
    hide Expected, JoinSlash;
    if Get(files, path) == Some(stat) {
      assert FromTree(fs, Entry(path, stat));
    }
  }

  /** Between two scans within the caps the difference lists exactly the files that are new or have other data. */
  lemma DifferenceIsWhatChanged(before: FileSystem, after: FileSystem, first: Scan, second: Scan, path: string)
    requires Faithful(before, first) && Complete(before, first) && Faithful(after, second) && Complete(after, second)
    ensures path in NewOrChanged(first, second)
      <==> exists stat :: IsExpectedPath(after, path, stat) && !IsExpectedPath(before, path, stat)
  {
    hide Complete, IsExpectedPath, NewOrChanged, Get, FromTree;
    NewOrChangedMembers(first, second);
    forall stat ensures Get(first, path) == Some(stat) <==> IsExpectedPath(before, path, stat) {
      CompleteScanIs(before, first, path, stat);
    }
    forall stat ensures Get(second, path) == Some(stat) <==> IsExpectedPath(after, path, stat) {
      CompleteScanIs(after, second, path, stat);
    }
    if path in NewOrChanged(first, second) {
      assert IsExpectedPath(after, path, Get(second, path).value);
    }
  }
}
