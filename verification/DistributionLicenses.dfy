/**
 The dependency closure of the distribution and the directories its license files are staged in.
 A path is its list of segments; the real paths and manifests found on disk are finite maps.
 */
module DistributionLicenses {
  import opened Sorting
  import opened Strings
  import opened Wrappers

  type Path = seq<string>

  datatype Manifest = Manifest(name: Option<string>, version: Option<string>, dependencies: seq<string>,
    optionalDependencies: seq<string>)
  datatype Request = Request(name: string, fromDirectory: Path)
  datatype DependencyPackage = DependencyPackage(manifest: Manifest, root: Path)

  /**
   What is installed: a directory with a manifest and its real path; the workspace packages with
   theirs; and the manifest at each real path.
   */
  datatype Disk = Disk(installed: map<Path, Path>, workspace: map<string, Path>, manifests: map<Path, Manifest>)

  ghost predicate ValidDisk(disk: Disk) {
    disk.installed.Values + disk.workspace.Values <= disk.manifests.Keys
  }

  function DependencyNames(m: Manifest): seq<string> {
    m.dependencies + m.optionalDependencies
  }

  lemma OptionalCountToo(m: Manifest, name: string)
    ensures name in DependencyNames(m) <==> name in m.dependencies || name in m.optionalDependencies
  {
  }

  /* ---------- Resolving one dependency ---------- */

  function Candidate(directory: Path, name: string): Path {
    directory + ["node_modules"] + SplitSlash(name)
  }

  predicate InstalledAt(disk: Disk, name: string, from: Path, depth: nat) {
    depth <= |from| && Candidate(from[..depth], name) in disk.installed
  }

  /** The nearest enclosing directory that has the package, unless the workspace itself has it. */
  ghost predicate IsNearest(disk: Disk, name: string, from: Path, root: Option<Path>) {
    match root
    case None => forall k :: 0 <= k <= |from| ==> !InstalledAt(disk, name, from, k)
    case Some(path) => exists k :: 0 <= k <= |from| && FoundAt(disk, name, from, k, path)
  }

  ghost predicate FoundAt(disk: Disk, name: string, from: Path, depth: nat, path: Path) {
    && InstalledAt(disk, name, from, depth) && disk.installed[Candidate(from[..depth], name)] == path
    && forall j :: depth < j <= |from| ==> !InstalledAt(disk, name, from, j)
  }

  function Resolve(disk: Disk, name: string, from: Path): Option<Path> {
    if name in disk.workspace then Some(disk.workspace[name]) else ResolveUpward(disk, name, from)
  }

  function ResolveUpward(disk: Disk, name: string, from: Path): Option<Path> {
    if Candidate(from, name) in disk.installed then Some(disk.installed[Candidate(from, name)])
    else if from == [] then None
    else ResolveUpward(disk, name, from[..|from| - 1])
  }

  lemma {:induction false} ResolveUpwardIsNearest(disk: Disk, name: string, from: Path)
    ensures IsNearest(disk, name, from, ResolveUpward(disk, name, from))
  {
    hide Candidate;
    assert from[..|from|] == from;
    if Candidate(from, name) in disk.installed {
      assert FoundAt(disk, name, from, |from|, disk.installed[Candidate(from, name)]);
    } else if from != [] {
      var parent := from[..|from| - 1];
      ResolveUpwardIsNearest(disk, name, parent);
      assert forall k :: 0 <= k < |from| ==> parent[..k] == from[..k];
      assert forall k :: 0 <= k < |from| ==> (InstalledAt(disk, name, from, k) <==> InstalledAt(disk, name, parent, k));
      var r := ResolveUpward(disk, name, parent);
      if r.Some? {
        var k :| 0 <= k <= |parent| && FoundAt(disk, name, parent, k, r.value);
        assert FoundAt(disk, name, from, k, r.value);
      }
    }
  }

  /** The walk up the directories. */
  method ResolveDependencyRoot(disk: Disk, name: string, fromDirectory: Path) returns (root: Option<Path>)
    ensures root == Resolve(disk, name, fromDirectory)
    ensures name in disk.workspace ==> root == Some(disk.workspace[name])
    ensures name !in disk.workspace ==> IsNearest(disk, name, fromDirectory, root)
  {
    hide Candidate, IsNearest;
    if name in disk.workspace { return Some(disk.workspace[name]); }
    ResolveUpwardIsNearest(disk, name, fromDirectory);
    var current := fromDirectory;
    while true
      invariant ResolveUpward(disk, name, current) == ResolveUpward(disk, name, fromDirectory)
      decreases |current|
    {
      var candidate := Candidate(current, name);
      if candidate in disk.installed { return Some(disk.installed[candidate]); }
      if current == [] { return None; }
      current := current[..|current| - 1];
    }
  }

  /* ---------- Reachability ---------- */

  /** A dependency, optional or not, resolves to the second root. */
  ghost predicate DependsOn(disk: Disk, a: Path, b: Path) {
    && a in disk.manifests
    && exists name :: (name in disk.manifests[a].dependencies || name in disk.manifests[a].optionalDependencies)
         && Resolve(disk, name, a) == Some(b)
  }

  ghost predicate IsEntry(disk: Disk, entries: seq<Request>, root: Path) {
    exists r :: r in entries && Resolve(disk, r.name, r.fromDirectory) == Some(root)
  }

  /** A chain of resolved dependencies that starts at an entry manifest. */
  ghost predicate Chain(disk: Disk, entries: seq<Request>, path: seq<Path>) {
    && path != [] && IsEntry(disk, entries, path[0])
    && forall i :: 0 < i < |path| ==> DependsOn(disk, path[i - 1], path[i])
  }

  ghost predicate Reachable(disk: Disk, entries: seq<Request>, root: Path) {
    exists path :: Chain(disk, entries, path) && path[|path| - 1] == root
  }

  lemma EntryIsReachable(disk: Disk, entries: seq<Request>, root: Path)
    requires IsEntry(disk, entries, root)
    ensures Reachable(disk, entries, root)
  {
    assert Chain(disk, entries, [root]);
  }

  lemma DependencyIsReachable(disk: Disk, entries: seq<Request>, a: Path, b: Path)
    requires Reachable(disk, entries, a) && DependsOn(disk, a, b)
    ensures Reachable(disk, entries, b)
  {
    hide DependsOn, IsEntry;
    var path :| Chain(disk, entries, path) && path[|path| - 1] == a;
    var longer := path + [b];
    forall i | 0 < i < |longer| ensures DependsOn(disk, longer[i - 1], longer[i]) {
      if i < |path| { assert longer[i] == path[i]; }
    }
    assert Chain(disk, entries, longer) && longer[|longer| - 1] == b;
  }

  /* ---------- The worklist ---------- */

  /** A request that an entry manifest or a visited package makes. */
  ghost predicate Made(disk: Disk, entries: seq<Request>, visited: set<Path>, r: Request) {
    r in entries || (r.fromDirectory in visited && r.fromDirectory in disk.manifests
      && r.name in DependencyNames(disk.manifests[r.fromDirectory]))
  }

  ghost predicate Served(disk: Disk, visited: set<Path>, r: Request) {
    var root := Resolve(disk, r.name, r.fromDirectory);
    root.Some? ==> root.value in visited
  }

  ghost predicate AllReachable(disk: Disk, entries: seq<Request>, visited: set<Path>) {
    forall v :: v in visited ==> Reachable(disk, entries, v)
  }

  /** Nothing is queued without a reason, and what was asked for is queued or served. */
  ghost predicate QueueInv(disk: Disk, entries: seq<Request>, visited: set<Path>, queue: seq<Request>) {
    && (forall r :: r in queue ==> Made(disk, entries, visited, r))
    && (forall r :: Made(disk, entries, visited, r) ==> r in queue || Served(disk, visited, r))
  }

  ghost function Roots(packages: seq<DependencyPackage>): seq<Path> {
    seq(|packages|, i requires 0 <= i < |packages| => packages[i].root)
  }

  ghost predicate Collected(disk: Disk, packages: seq<DependencyPackage>, visited: set<Path>) {
    && Distinct(Roots(packages))
    && (forall p :: p in packages ==> p.root in disk.manifests && p.manifest == disk.manifests[p.root])
    && (forall root :: root in Roots(packages) <==> root in visited && root !in disk.workspace.Values)
  }

  function Requests(names: seq<string>, from: Path): (r: seq<Request>)
    ensures |r| == |names|
    ensures forall i :: 0 <= i < |r| ==> r[i] == Request(names[i], from)
  {
    seq(|names|, i requires 0 <= i < |names| => Request(names[i], from))
  }

  lemma RequestsMembers(names: seq<string>, from: Path, r: Request)
    ensures r in Requests(names, from) <==> r.fromDirectory == from && r.name in names
  {
    var all := Requests(names, from);
    if r.fromDirectory == from && r.name in names {
      var i :| 0 <= i < |names| && names[i] == r.name;
      assert all[i] == r;
    }
  }

  lemma ResolvedOnDisk(disk: Disk, name: string, from: Path)
    requires ValidDisk(disk)
    ensures var root := Resolve(disk, name, from);
      root.Some? ==> root.value in disk.installed.Values + disk.workspace.Values && root.value in disk.manifests
  {
    if name !in disk.workspace { UpwardOnDisk(disk, name, from); }
  }

  lemma {:induction false} UpwardOnDisk(disk: Disk, name: string, from: Path)
    ensures var root := ResolveUpward(disk, name, from); root.Some? ==> root.value in disk.installed.Values
  {
    if Candidate(from, name) !in disk.installed && from != [] { UpwardOnDisk(disk, name, from[..|from| - 1]); }
  }

  lemma RequestIsReachable(disk: Disk, entries: seq<Request>, visited: set<Path>, r: Request)
    requires AllReachable(disk, entries, visited) && Made(disk, entries, visited, r)
    requires Resolve(disk, r.name, r.fromDirectory).Some?
    ensures Reachable(disk, entries, Resolve(disk, r.name, r.fromDirectory).value)
  {
    hide Resolve, Reachable;
    var root := Resolve(disk, r.name, r.fromDirectory).value;
    if r in entries {
      EntryIsReachable(disk, entries, root);
    } else {
      assert DependsOn(disk, r.fromDirectory, root);
      DependencyIsReachable(disk, entries, r.fromDirectory, root);
    }
  }

  lemma SkipKeepsQueueInv(disk: Disk, entries: seq<Request>, visited: set<Path>, queue: seq<Request>)
    requires queue != [] && QueueInv(disk, entries, visited, queue) && Served(disk, visited, queue[0])
    ensures QueueInv(disk, entries, visited, queue[1..])
  {
    hide Made, Served;
    assert queue == [queue[0]] + queue[1..];
  }

  lemma VisitKeepsQueueInv(disk: Disk, entries: seq<Request>, visited: set<Path>, queue: seq<Request>, root: Path)
    requires queue != [] && QueueInv(disk, entries, visited, queue) && root in disk.manifests
    requires Resolve(disk, queue[0].name, queue[0].fromDirectory) == Some(root)
    ensures QueueInv(disk, entries, visited + {root},
      queue[1..] + Requests(DependencyNames(disk.manifests[root]), root))
  {
    hide Resolve, DependencyNames;
    var names, more := DependencyNames(disk.manifests[root]), visited + {root};
    var next := queue[1..] + Requests(names, root);
    assert queue == [queue[0]] + queue[1..];
    forall r | r in next ensures Made(disk, entries, more, r) {
      if r in queue[1..] { assert r in queue; } else { RequestsMembers(names, root, r); }
    }
    forall r | Made(disk, entries, more, r) ensures r in next || Served(disk, more, r) {
      RequestsMembers(names, root, r);
      if Made(disk, entries, visited, r) {
        assert r in queue || Served(disk, visited, r);
      }
    }
  }

  lemma {:induction false} ChainIsVisited(disk: Disk, entries: seq<Request>, visited: set<Path>, path: seq<Path>)
    requires QueueInv(disk, entries, visited, []) && Chain(disk, entries, path)
    ensures path[|path| - 1] in visited
  {
    hide Resolve, DependencyNames;
    if |path| == 1 {
      var r :| r in entries && Resolve(disk, r.name, r.fromDirectory) == Some(path[0]);
      assert Made(disk, entries, visited, r);
    } else {
      var k := |path| - 1;
      assert Chain(disk, entries, path[..k]);
      ChainIsVisited(disk, entries, visited, path[..k]);
      assert DependsOn(disk, path[k - 1], path[k]);
      var m := disk.manifests[path[k - 1]];
      var name :| (name in m.dependencies || name in m.optionalDependencies)
        && Resolve(disk, name, path[k - 1]) == Some(path[k]);
      OptionalCountToo(m, name);
      assert Made(disk, entries, visited, Request(name, path[k - 1]));
    }
  }

  lemma DrainedMeansReachable(disk: Disk, entries: seq<Request>, visited: set<Path>)
    requires QueueInv(disk, entries, visited, []) && AllReachable(disk, entries, visited)
    ensures forall root :: root in visited <==> Reachable(disk, entries, root)
  {
    hide QueueInv;
    forall root | Reachable(disk, entries, root) ensures root in visited {
      var path :| Chain(disk, entries, path) && path[|path| - 1] == root;
      ChainIsVisited(disk, entries, visited, path);
    }
  }

  lemma CollectOne(disk: Disk, packages: seq<DependencyPackage>, visited: set<Path>, root: Path)
    requires Collected(disk, packages, visited) && root !in visited && root in disk.manifests
    ensures Collected(disk, if root in disk.workspace.Values then packages
      else packages + [DependencyPackage(disk.manifests[root], root)], visited + {root})
  {
    var p := DependencyPackage(disk.manifests[root], root);
    assert Roots(packages + [p]) == Roots(packages) + [root];
  }

  function Id(m: Manifest): string {
    m.name.GetOr("unknown") + "@" + m.version.GetOr("unknown")
  }

  function ById(leq: (string, string) -> bool): (DependencyPackage, DependencyPackage) -> bool {
    (a: DependencyPackage, b: DependencyPackage) => leq(Id(a.manifest), Id(b.manifest))
  }

  /** Ordered by name and version, each `unknown` if missing. */
  ghost predicate InOrderOfIds(packages: seq<DependencyPackage>, leq: (string, string) -> bool) {
    forall i, j :: 0 <= i < j < |packages| ==> AtMost(packages[i].manifest, packages[j].manifest, leq)
  }

  ghost predicate AtMost(m: Manifest, n: Manifest, leq: (string, string) -> bool) {
    leq(m.name.GetOr("unknown") + "@" + m.version.GetOr("unknown"),
        n.name.GetOr("unknown") + "@" + n.version.GetOr("unknown"))
  }

  lemma SortedByIdIsInOrder(packages: seq<DependencyPackage>, leq: (string, string) -> bool)
    requires SortedBy(packages, ById(leq))
    ensures InOrderOfIds(packages, leq)
  {
    forall i, j | 0 <= i < j < |packages| ensures AtMost(packages[i].manifest, packages[j].manifest, leq) {
      assert ById(leq)(packages[i], packages[j]);
      assert leq(Id(packages[i].manifest), Id(packages[j].manifest));
    }
  }

  /** Breadth first over the installed packages; the order of the ids is the locale's and comes as a parameter. */
  method CollectProductionPackages(disk: Disk, entries: seq<Request>, leq: (string, string) -> bool)
      returns (packages: seq<DependencyPackage>)
    requires ValidDisk(disk) && TotalPreorder(leq)
    ensures Distinct(Roots(packages)) && InOrderOfIds(packages, leq)
    ensures forall root :: root in Roots(packages) <==> Reachable(disk, entries, root) && root !in disk.workspace.Values
    ensures forall p :: p in packages ==> p.root in disk.manifests && p.manifest == disk.manifests[p.root]
  {
    hide QueueInv, AllReachable, Made, Served, Reachable, Collected, Resolve, ValidDisk, TotalPreorder, IsNearest,
      ById, SortedBy, InOrderOfIds, Distinct, Roots;
    var queue := entries;
    var visitedRoots: set<Path> := {};
    var found: seq<DependencyPackage> := [];
    StartOfQueue(disk, entries);
    ghost var all := disk.installed.Values + disk.workspace.Values;
    while queue != []
      invariant QueueInv(disk, entries, visitedRoots, queue) && AllReachable(disk, entries, visitedRoots)
      invariant visitedRoots <= all && Collected(disk, found, visitedRoots)
      decreases |all - visitedRoots|, |queue|
    {
      var next := queue[0];
      var packageRoot := ResolveDependencyRoot(disk, next.name, next.fromDirectory);
      if packageRoot.None? || packageRoot.value in visitedRoots {
        ServedAlready(disk, visitedRoots, next);
        SkipKeepsQueueInv(disk, entries, visitedRoots, queue);
        queue := queue[1..];
        continue;
      }
      var root := packageRoot.value;
      ResolvedOnDisk(disk, next.name, next.fromDirectory);
      VisitReaches(disk, entries, visitedRoots, queue, root);
      VisitKeepsQueueInv(disk, entries, visitedRoots, queue, root);
      CollectOne(disk, found, visitedRoots, root);
      assert all - (visitedRoots + {root}) < all - visitedRoots;
      SmallerSet(all - (visitedRoots + {root}), all - visitedRoots);
      var manifest := disk.manifests[root];
      queue := queue[1..] + Requests(DependencyNames(manifest), root);
      if root !in disk.workspace.Values {
        found := found + [DependencyPackage(manifest, root)];
      }
      visitedRoots := visitedRoots + {root};
    }
    packages := SortBy(found, ById(leq));
    DrainedMeansReachable(disk, entries, visitedRoots);
    SortedPackages(found, leq);
    SortedByIdIsInOrder(packages, leq);
    PermutationIsCollected(disk, found, packages, visitedRoots);
    WhatIsCollected(disk, packages, visitedRoots);
  }

  lemma WhatIsCollected(disk: Disk, packages: seq<DependencyPackage>, visited: set<Path>)
    requires Collected(disk, packages, visited)
    ensures Distinct(Roots(packages)) && forall root :: root in Roots(packages) <==>
      root in visited && root !in disk.workspace.Values
    ensures forall p :: p in packages ==> p.root in disk.manifests && p.manifest == disk.manifests[p.root]
  {
  }

  lemma StartOfQueue(disk: Disk, entries: seq<Request>)
    ensures QueueInv(disk, entries, {}, entries) && AllReachable(disk, entries, {}) && Collected(disk, [], {})
  {
  }

  lemma SmallerSet(a: set<Path>, b: set<Path>)
    requires a < b
    ensures |a| < |b|
  {
    assert b == a + (b - a);
    assert b - a != {};
  }

  lemma ServedAlready(disk: Disk, visited: set<Path>, r: Request)
    requires var root := Resolve(disk, r.name, r.fromDirectory); root.None? || root.value in visited
    ensures Served(disk, visited, r)
  {
  }

  lemma VisitReaches(disk: Disk, entries: seq<Request>, visited: set<Path>, queue: seq<Request>, root: Path)
    requires queue != [] && QueueInv(disk, entries, visited, queue) && AllReachable(disk, entries, visited)
    requires Resolve(disk, queue[0].name, queue[0].fromDirectory) == Some(root)
    ensures AllReachable(disk, entries, visited + {root})
  {
    hide Made, Served, Reachable, Resolve;
    RequestIsReachable(disk, entries, visited, queue[0]);
  }

  lemma ByIdIsTotalPreorder(leq: (string, string) -> bool)
    requires TotalPreorder(leq)
    ensures TotalPreorder(ById(leq))
  {
    var byId := ById(leq);
    forall a, b ensures byId(a, b) || byId(b, a) {
      assert leq(Id(a.manifest), Id(b.manifest)) || leq(Id(b.manifest), Id(a.manifest));
    }
    forall a, b, c | byId(a, b) && byId(b, c) ensures byId(a, c) {
      assert leq(Id(a.manifest), Id(b.manifest)) && leq(Id(b.manifest), Id(c.manifest));
    }
  }

  lemma SortedPackages(found: seq<DependencyPackage>, leq: (string, string) -> bool)
    requires TotalPreorder(leq)
    ensures var packages := SortBy(found, ById(leq));
      && SortedBy(packages, ById(leq)) && (forall p :: p in packages <==> p in found)
      && (Distinct(found) ==> Distinct(packages))
  {
    hide ById, TotalPreorder, SortedBy, Distinct;
    ByIdIsTotalPreorder(leq);
    SortBySorted(found, ById(leq));
    SortByMembers(found, ById(leq));
    if Distinct(found) { SortByDistinct(found, ById(leq)); }
  }

  lemma PermutationIsCollected(disk: Disk, found: seq<DependencyPackage>, packages: seq<DependencyPackage>,
      visited: set<Path>)
    requires Collected(disk, found, visited)
    requires (forall p :: p in packages <==> p in found) && (Distinct(found) ==> Distinct(packages))
    ensures Collected(disk, packages, visited)
  {
    DistinctRoots(found);
    RootsOf(found);
    RootsOf(packages);
    forall i, j | 0 <= i < j < |packages| ensures packages[i].root != packages[j].root {
      assert packages[i] in found && packages[j] in found && packages[i] != packages[j];
      var x :| 0 <= x < |found| && found[x] == packages[i];
      var y :| 0 <= y < |found| && found[y] == packages[j];
      assert Roots(found)[x] != Roots(found)[y];
    }
    assert forall root :: HasRoot(found, root) <==> HasRoot(packages, root);
  }

  lemma RootsOf(packages: seq<DependencyPackage>)
    ensures forall root :: root in Roots(packages) <==> HasRoot(packages, root)
  {
    var roots := Roots(packages);
    forall root ensures root in roots <==> HasRoot(packages, root) {
      if root in roots {
        var i :| 0 <= i < |roots| && roots[i] == root;
        assert packages[i] in packages && packages[i].root == root;
      }
      if HasRoot(packages, root) {
        var p :| p in packages && p.root == root;
        var i :| 0 <= i < |packages| && packages[i] == p;
        assert roots[i] == root;
      }
    }
  }

  ghost predicate HasRoot(packages: seq<DependencyPackage>, root: Path) {
    exists p :: p in packages && p.root == root
  }

  lemma DistinctRoots(packages: seq<DependencyPackage>)
    requires Distinct(Roots(packages))
    ensures Distinct(packages)
  {
    forall i, j | 0 <= i < j < |packages| ensures packages[i] != packages[j] {
      assert Roots(packages)[i] != Roots(packages)[j];
    }
  }

  /* ---------- Directory names ---------- */

  predicate IsSafe(c: char) {
    'a' <= c <= 'z' || 'A' <= c <= 'Z' || '0' <= c <= '9' || c in "._-"
  }

  lemma SafeIff(c: char)
    ensures IsSafe(c) <==>
      c in "ABCDEFGHIJKLMNOPQRSTUVWXYZ" || c in "abcdefghijklmnopqrstuvwxyz" || c in "0123456789._-"
  {
    UppercaseIff(c);
    LowercaseIff(c);
    DigitIff(c);
  }

  lemma DigitIff(c: char)
    ensures '0' <= c <= '9' || c in "._-" <==> c in "0123456789._-"
  {
    var digits := "0123456789._-";
    assert forall d: nat :: d < 10 ==> digits[d] as int == '0' as int + d;
    if '0' <= c <= '9' { assert digits[c as int - '0' as int] == c; }
    assert digits[10..] == "._-";
    if c in "._-" { assert c in digits[10..]; }
  }

  function SkipUnsafe(s: string): (r: string)
    ensures |r| <= |s|
  {
    if s != [] && !IsSafe(s[0]) then SkipUnsafe(s[1..]) else s
  }

  /** Every run of unsafe characters becomes two underscores. */
  function Sanitized(s: string): string
    decreases |s|
  {
    if s == [] then []
    else if IsSafe(s[0]) then [s[0]] + Sanitized(s[1..])
    else "__" + Sanitized(SkipUnsafe(s[1..]))
  }

  function SafePackageDirectory(name: string, version: string): string {
    var id := name + "@" + version;
    Sanitized(if id[0] == '@' then id[1..] else id)
  }

  /** The names tried for a package: its own, then with the suffixes -2, -3 and so on. */
  function Attempt(base: string, k: nat): string
    requires k >= 1
  {
    if k == 1 then base else base + "-" + Decimal(k)
  }

  lemma AttemptsDiffer(base: string, j: nat, k: nat)
    requires 1 <= j && 1 <= k && Attempt(base, j) == Attempt(base, k)
    ensures j == k
  {
    hide Decimal;
    if j > 1 && k > 1 {
      assert Attempt(base, j)[|base| + 1..] == Decimal(j) && Attempt(base, k)[|base| + 1..] == Decimal(k);
      DecimalInjective(j, k);
    }
  }

  /** The first attempt that no earlier package took. */
  ghost predicate IsFirstFree(base: string, used: set<string>, directory: string, k: nat) {
    k >= 1 && directory == Attempt(base, k) && directory !in used && forall j :: 1 <= j < k ==> Attempt(base, j) in used
  }

  /**
   The loop ends although a suffixed name may be another package's own: each attempt uses up one of the names
   taken.
   */
  method FreeDirectory(base: string, used: set<string>) returns (directory: string)
    ensures exists k :: 1 <= k <= |used| + 1 && IsFirstFree(base, used, directory, k)
  {
    hide Attempt;
    directory := base;
    var collisionIndex := 2;
    ghost var tried: set<string> := {};
    AttemptForms(base, 1);
    while directory in used
      invariant collisionIndex >= 2 && directory == Attempt(base, collisionIndex - 1)
      invariant tried <= used && |tried| == collisionIndex - 2
      invariant forall j :: 1 <= j < collisionIndex - 1 ==> Attempt(base, j) in tried
      invariant forall t :: t in tried ==> exists j :: 1 <= j < collisionIndex - 1 && t == Attempt(base, j)
      decreases |used - tried|
    {
      if directory in tried {
        var j :| 1 <= j < collisionIndex - 1 && directory == Attempt(base, j);
        AttemptsDiffer(base, j, collisionIndex - 1);
      }
      TakeOne(used, tried, directory);
      tried := tried + {directory};
      AttemptForms(base, collisionIndex);
      directory := base + "-" + Decimal(collisionIndex);
      collisionIndex := collisionIndex + 1;
    }
    SubsetIsSmaller(tried, used);
    assert IsFirstFree(base, used, directory, collisionIndex - 1);
  }

  lemma AttemptForms(base: string, k: nat)
    requires k >= 1
    ensures Attempt(base, k) == if k == 1 then base else base + "-" + Decimal(k)
  {
  }

  lemma TakeOne(used: set<string>, tried: set<string>, name: string)
    requires tried <= used && name in used && name !in tried
    ensures |used - (tried + {name})| < |used - tried| && |tried + {name}| == |tried| + 1
  {
    assert used - tried == (used - (tried + {name})) + {name};
  }

  lemma SubsetIsSmaller(a: set<string>, b: set<string>)
    requires a <= b
    ensures |a| <= |b|
  {
    assert b == a + (b - a);
  }

  function BaseName(m: Manifest): string {
    SafePackageDirectory(m.name.GetOr("unknown-package"), m.version.GetOr("unknown-version"))
  }

  ghost predicate NamedAt(packages: seq<DependencyPackage>, directories: seq<string>, i: nat)
    requires i < |packages| && i < |directories|
  {
    var m := packages[i].manifest;
    var base := SafePackageDirectory(m.name.GetOr("unknown-package"), m.version.GetOr("unknown-version"));
    exists k :: 1 <= k <= i + 1 && IsFirstFree(base, Elements(directories[..i]), directories[i], k)
  }

  /** Each package gets the first attempt that is free, after at most as many collisions as packages came before. */
  method NameDirectories(packages: seq<DependencyPackage>) returns (directories: seq<string>)
    ensures |directories| == |packages| && Distinct(directories)
    ensures forall i :: 0 <= i < |packages| ==> NamedAt(packages, directories, i)
  {
    hide BaseName, IsFirstFree;
    directories := [];
    var usedDirectories: set<string> := {};
    var i := 0;
    while i < |packages|
      invariant 0 <= i <= |packages| && |directories| == i && Distinct(directories)
      invariant usedDirectories == Elements(directories)
      invariant forall j :: 0 <= j < i ==> NamedAt(packages, directories, j)
    {
      var base := BaseName(packages[i].manifest);
      var directoryName := FreeDirectory(base, usedDirectories);
      ghost var k :| 1 <= k <= |usedDirectories| + 1 && IsFirstFree(base, usedDirectories, directoryName, k);
      DistinctCard(directories);
      FreeIsNew(base, usedDirectories, directoryName, k);
      ghost var longer := directories + [directoryName];
      forall j | 0 <= j <= i ensures NamedAt(packages, longer, j) {
        NamedAtExtends(packages, directories, directoryName, j, k);
      }
      assert Elements(longer) == usedDirectories + {directoryName};
      usedDirectories := usedDirectories + {directoryName};
      directories := directories + [directoryName];
      i := i + 1;
    }
  }

  lemma FreeIsNew(base: string, used: set<string>, directory: string, k: nat)
    requires IsFirstFree(base, used, directory, k)
    ensures directory !in used && k >= 1
  {
  }

  lemma NamedAtExtends(packages: seq<DependencyPackage>, directories: seq<string>, directory: string, j: nat, k: nat)
    requires j <= |directories| < |packages|
    requires if j < |directories| then NamedAt(packages, directories, j)
      else 1 <= k <= j + 1 && IsFirstFree(BaseName(packages[j].manifest), Elements(directories), directory, k)
    ensures NamedAt(packages, directories + [directory], j)
  {
    var base := BaseName(packages[j].manifest);
    hide IsFirstFree, SafePackageDirectory;
    var longer := directories + [directory];
    assert longer[..j] == directories[..j];
    if j < |directories| {
      var m :| 1 <= m <= j + 1 && IsFirstFree(base, Elements(directories[..j]), directories[j], m);
      assert IsFirstFree(base, Elements(longer[..j]), longer[j], m);
    } else {
      assert directories[..j] == directories;
      assert IsFirstFree(base, Elements(longer[..j]), longer[j], k);
    }
  }

  /* ---------- Staged files ---------- */

  datatype Copy = Copy(source: Path, directory: string, fileName: string)

  /** Slashes of either kind in a file name become two underscores. */
  function FlatName(name: string): string {
    if name == [] then [] else (if name[0] in "\\/" then "__" else [name[0]]) + FlatName(name[1..])
  }

  function CopiesOf(root: Path, directory: string, files: seq<string>): (r: seq<Copy>)
    ensures |r| == |files|
  {
    seq(|files|, i requires 0 <= i < |files| => Copy(root + [files[i]], directory, FlatName(files[i])))
  }

  function AllCopies(packages: seq<DependencyPackage>, directories: seq<string>, files: seq<seq<string>>): seq<Copy>
    requires |packages| == |directories| == |files|
  {
    if packages == [] then []
    else
      var k := |packages| - 1;
      AllCopies(packages[..k], directories[..k], files[..k]) + CopiesOf(packages[k].root, directories[k], files[k])
  }

  function WithoutFiles(packages: seq<DependencyPackage>, files: seq<seq<string>>): seq<string>
    requires |packages| == |files|
  {
    if packages == [] then []
    else
      var k := |packages| - 1;
      WithoutFiles(packages[..k], files[..k]) + if files[k] == [] then [InventoryId(packages[k].manifest)] else []
  }

  function InventoryId(m: Manifest): string {
    m.name.GetOr("unknown-package") + "@" + m.version.GetOr("unknown-version")
  }

  /** No two copies go to the same place. */
  ghost predicate NothingOverwritten(copies: seq<Copy>) {
    forall i, j :: 0 <= i < j < |copies| ==>
      copies[i].directory != copies[j].directory || copies[i].fileName != copies[j].fileName
  }

  function FlatNames(files: seq<string>): (r: seq<string>)
    ensures |r| == |files|
  {
    seq(|files|, i requires 0 <= i < |files| => FlatName(files[i]))
  }

  lemma {:induction false} CopiesStayInTheirDirectories(packages: seq<DependencyPackage>, directories: seq<string>,
      files: seq<seq<string>>)
    requires |packages| == |directories| == |files|
    ensures forall c :: c in AllCopies(packages, directories, files) ==> c.directory in directories
  {
    if packages != [] {
      var k := |packages| - 1;
      CopiesStayInTheirDirectories(packages[..k], directories[..k], files[..k]);
      assert directories == directories[..k] + [directories[k]];
    }
  }

  lemma OverwrittenSplit(a: seq<Copy>, b: seq<Copy>)
    requires forall x, y :: x in a && y in b ==> x.directory != y.directory
    ensures NothingOverwritten(a + b) <==> NothingOverwritten(a) && NothingOverwritten(b)
  {
    var all := a + b;
    if NothingOverwritten(all) {
      forall i, j | 0 <= i < j < |a| ensures a[i].directory != a[j].directory || a[i].fileName != a[j].fileName {
        assert all[i] == a[i] && all[j] == a[j];
      }
      forall i, j | 0 <= i < j < |b| ensures b[i].directory != b[j].directory || b[i].fileName != b[j].fileName {
        assert all[|a| + i] == b[i] && all[|a| + j] == b[j];
      }
    }
  }

  lemma OneDirectory(root: Path, directory: string, files: seq<string>)
    ensures NothingOverwritten(CopiesOf(root, directory, files)) <==> Distinct(FlatNames(files))
  {
    var copies, names := CopiesOf(root, directory, files), FlatNames(files);
    hide FlatName;
    assert forall i :: 0 <= i < |files| ==> copies[i].fileName == names[i] && copies[i].directory == directory;
    if NothingOverwritten(copies) {
      forall i, j | 0 <= i < j < |names| ensures names[i] != names[j] {
        assert copies[i].fileName != copies[j].fileName;
      }
    }
  }

  /**
   With distinct directories the copies overwrite each other only where one package has two files of the same
   flattened name.
   */
  lemma {:induction false} NoCopyOverwritesAnother(packages: seq<DependencyPackage>, directories: seq<string>,
      files: seq<seq<string>>)
    requires |packages| == |directories| == |files| && Distinct(directories)
    ensures NothingOverwritten(AllCopies(packages, directories, files))
      <==> forall i :: 0 <= i < |files| ==> Distinct(FlatNames(files[i]))
  {
    if packages != [] {
      var k := |packages| - 1;
      var init, last := AllCopies(packages[..k], directories[..k], files[..k]),
        CopiesOf(packages[k].root, directories[k], files[k]);
      NoCopyOverwritesAnother(packages[..k], directories[..k], files[..k]);
      CopiesStayInTheirDirectories(packages[..k], directories[..k], files[..k]);
      assert directories[k] !in directories[..k];
      OverwrittenSplit(init, last);
      OneDirectory(packages[k].root, directories[k], files[k]);
      hide FlatNames, NothingOverwritten, Distinct;
      assert files == files[..k] + [files[k]];
    }
  }

  /** Each package's directory, the copies of its license files, and the packages that publish none. */
  method StageDistributionLicenses(packages: seq<DependencyPackage>, files: seq<seq<string>>)
    returns (directories: seq<string>, copies: seq<Copy>, withoutFiles: seq<string>)
    requires |files| == |packages|
    ensures |directories| == |packages| && Distinct(directories)
    ensures forall i :: 0 <= i < |packages| ==> NamedAt(packages, directories, i)
    ensures copies == AllCopies(packages, directories, files) && withoutFiles == WithoutFiles(packages, files)
    ensures forall c :: c in copies <==> exists i, j :: CopiedFrom(packages, directories, files, c, i, j)
    ensures forall id :: id in withoutFiles <==> exists i :: PublishesNothing(packages, files, id, i)
    ensures NothingOverwritten(copies) <==> forall i :: 0 <= i < |files| ==> Distinct(FlatNames(files[i]))
  {
    hide NamedAt, NothingOverwritten, FlatNames, Distinct, CopiedFrom, PublishesNothing;
    directories := NameDirectories(packages);
    copies, withoutFiles := [], [];
    var i := 0;
    while i < |packages|
      invariant 0 <= i <= |packages|
      invariant copies == AllCopies(packages[..i], directories[..i], files[..i])
      invariant withoutFiles == WithoutFiles(packages[..i], files[..i])
    {
      assert packages[..i + 1][..i] == packages[..i] && directories[..i + 1][..i] == directories[..i]
        && files[..i + 1][..i] == files[..i];
      if files[i] == [] {
        withoutFiles := withoutFiles + [InventoryId(packages[i].manifest)];
      } else {
        copies := copies + CopiesOf(packages[i].root, directories[i], files[i]);
      }
      i := i + 1;
    }
    assert packages[..i] == packages && directories[..i] == directories && files[..i] == files;
    NoCopyOverwritesAnother(packages, directories, files);
    CopiesComeFromTheirPackages(packages, directories, files);
    WithoutFilesAre(packages, files);
  }

  /* ---------- Names in other words ---------- */

  /** A scoped package lies two directories below `node_modules`, any other one directory. */
  lemma CandidateOf(directory: Path, scope: string, name: string)
    requires '/' !in scope && '/' !in name
    ensures Candidate(directory, name) == directory + ["node_modules", name]
    ensures Candidate(directory, scope + "/" + name) == directory + ["node_modules", scope, name]
  {
    SplitJoinSlash([name]);
    assert JoinSlash([name]) == name;
    SplitFirstSlash(scope, name);
    hide SplitSlash, JoinSlash;
    assert ["node_modules"] + [name] == ["node_modules", name];
    assert ["node_modules"] + ([scope] + [name]) == ["node_modules", scope, name];
    Associative(directory, ["node_modules"], [name]);
    Associative(directory, ["node_modules"], [scope] + [name]);
  }

  ghost predicate AllSafe(s: string) {
    forall i :: 0 <= i < |s| ==> IsSafe(s[i])
  }

  ghost predicate AllUnsafe(s: string) {
    forall i :: 0 <= i < |s| ==> !IsSafe(s[i])
  }

  lemma {:induction false} SkipUnsafeRun(u: string, s: string)
    requires AllUnsafe(u) && (s == [] || IsSafe(s[0]))
    ensures SkipUnsafe(u + s) == s
  {
    hide IsSafe;
    if u == [] {
      assert u + s == s;
    } else {
      SkipUnsafeRun(u[1..], s);
      assert (u + s)[0] == u[0] && (u + s)[1..] == u[1..] + s;
    }
  }

  /** In a directory name safe characters stay, and each run of others becomes two underscores. */
  lemma {:induction false} SanitizedPart(a: string, u: string, s: string)
    requires AllSafe(a) && AllUnsafe(u) && (s == [] || IsSafe(s[0]))
    ensures Sanitized(a + (u + s)) == a + (if u == [] then Sanitized(s) else "__" + Sanitized(s))
    decreases |a|
  {
    hide IsSafe;
    var t := u + s;
    if a != [] {
      SanitizedPart(a[1..], u, s);
      assert (a + t)[0] == a[0] && (a + t)[1..] == a[1..] + t;
      assert a == [a[0]] + a[1..];
    } else {
      assert a + t == t;
      UnsafeRunGoes(u, s);
    }
  }

  lemma UnsafeRunGoes(u: string, s: string)
    requires AllUnsafe(u) && (s == [] || IsSafe(s[0]))
    ensures Sanitized(u + s) == if u == [] then Sanitized(s) else "__" + Sanitized(s)
  {
    hide IsSafe;
    if u != [] {
      SkipUnsafeRun(u[1..], s);
      assert (u + s)[0] == u[0] && (u + s)[1..] == u[1..] + s;
    } else {
      assert u + s == s;
    }
  }

  lemma SanitizedId(name: string, version: string)
    requires AllSafe(name) && AllSafe(version) && version != []
    ensures Sanitized(name + "@" + version) == name + "__" + version
  {
    assert !IsSafe('@') && Sanitized([]) == [];
    hide IsSafe, Sanitized;
    SanitizedPart(version, [], []);
    assert version + ([] + []) == version && version + [] == version;
    SanitizedPart(name, "@", version);
    Associative(name, "@", version);
    Associative(name, "__", version);
  }

  /** The directory of a scoped package begins with its scope, of any other with its name. */
  lemma PackageDirectoryOf(scope: string, name: string, version: string)
    requires AllSafe(scope) && AllSafe(name) && AllSafe(version) && name != [] && version != []
    ensures SafePackageDirectory(name, version) == name + "__" + version
    ensures SafePackageDirectory("@" + (scope + ("/" + name)), version) == scope + ("__" + (name + "__" + version))
  {
    assert !IsSafe('/') && !IsSafe('@');
    hide IsSafe, Sanitized;
    var id := name + "@" + version;
    SanitizedId(name, version);
    assert id[0] == name[0];
    SanitizedPart(scope, "/", id);
    var scoped := "@" + (scope + ("/" + name)) + "@" + version;
    assert scoped[0] == '@' && scoped[1..] == scope + ("/" + id);
  }

  lemma {:induction false} FlatNameOf(name: string)
    ensures forall i :: 0 <= i < |FlatName(name)| ==> FlatName(name)[i] !in "\\/"
    ensures (forall i :: 0 <= i < |name| ==> name[i] !in "\\/") ==> FlatName(name) == name
  {
    if name != [] {
      FlatNameOf(name[1..]);
      assert name == [name[0]] + name[1..];
    }
  }

  /** Every copy takes a license file of a package, from its root, into the directory of that package. */
  lemma {:induction false} CopiesComeFromTheirPackages(packages: seq<DependencyPackage>, directories: seq<string>,
      files: seq<seq<string>>)
    requires |packages| == |directories| == |files|
    ensures forall c :: c in AllCopies(packages, directories, files) <==>
      exists i, j :: CopiedFrom(packages, directories, files, c, i, j)
  {
    hide FlatName;
    if packages != [] {
      var k := |packages| - 1;
      var ps, ds, fs := packages[..k], directories[..k], files[..k];
      CopiesComeFromTheirPackages(ps, ds, fs);
      var last := CopiesOf(packages[k].root, directories[k], files[k]);
      forall c ensures c in AllCopies(packages, directories, files) <==>
        exists i, j :: CopiedFrom(packages, directories, files, c, i, j)
      {
        if c in last {
          var j :| 0 <= j < |last| && last[j] == c;
          assert CopiedFrom(packages, directories, files, c, k, j);
        }
        if c in AllCopies(ps, ds, fs) {
          var i, j :| CopiedFrom(ps, ds, fs, c, i, j);
          assert CopiedFrom(packages, directories, files, c, i, j);
        }
        if i, j :| CopiedFrom(packages, directories, files, c, i, j) {
          if i == k {
            assert last[j] == c;
          } else {
            assert CopiedFrom(ps, ds, fs, c, i, j);
          }
        }
      }
    }
  }

  ghost predicate CopiedFrom(packages: seq<DependencyPackage>, directories: seq<string>, files: seq<seq<string>>,
      c: Copy, i: int, j: int)
    requires |packages| == |directories| == |files|
  {
    && 0 <= i < |packages| && 0 <= j < |files[i]|
    && c.source == packages[i].root + [files[i][j]] && c.directory == directories[i]
    && c.fileName == FlatName(files[i][j])
  }

  ghost predicate PublishesNothing(packages: seq<DependencyPackage>, files: seq<seq<string>>, id: string, i: int)
    requires |packages| == |files|
  {
    && 0 <= i < |packages| && files[i] == []
    && id == packages[i].manifest.name.GetOr("unknown-package") + "@"
         + packages[i].manifest.version.GetOr("unknown-version")
  }

  /** The packages listed as being without files are those that publish none. */
  lemma {:induction false} WithoutFilesAre(packages: seq<DependencyPackage>, files: seq<seq<string>>)
    requires |packages| == |files|
    ensures forall id :: id in WithoutFiles(packages, files) <==> exists i :: PublishesNothing(packages, files, id, i)
  {
    if packages != [] {
      var k := |packages| - 1;
      WithoutFilesAre(packages[..k], files[..k]);
      forall id ensures id in WithoutFiles(packages, files) <==> exists i :: PublishesNothing(packages, files, id, i) {
        if i :| PublishesNothing(packages[..k], files[..k], id, i) { assert PublishesNothing(packages, files, id, i); }
        if i :| PublishesNothing(packages, files, id, i) {
          assert i < k ==> PublishesNothing(packages[..k], files[..k], id, i);
        }
        if files[k] == [] && id == InventoryId(packages[k].manifest) {
          assert PublishesNothing(packages, files, id, k);
        }
      }
    }
  }
}
