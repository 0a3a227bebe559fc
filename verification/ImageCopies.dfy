/**
 Copying generated images into the Studio workspace: every copier tries candidate names in turn,
 claims a free name with an exclusive link, and reuses a taken name that holds the same bytes.
 Any number of copiers run at once; their steps interleave with each other and with outside
 processes that add files.
 */
module ImageCopies {
  import opened Sorting
  import opened Strings

  type Bytes = seq<bv8>
  type Files = map<string, Bytes>

  const MAX_CANDIDATES: nat := 10_000

  /** One image: its bytes, the date prefix and the lower-case extension of its name. */
  datatype Job = Job(bytes: Bytes, date: string, extension: string)

  function Suffix(collisionNumber: nat): string {
    if collisionNumber > 1 then "-" + Decimal(collisionNumber) else ""
  }

  function FileName(date: string, extension: string, collisionNumber: nat): string {
    date + "_generated-image" + Suffix(collisionNumber) + extension
  }

  function Name(job: Job, collisionNumber: nat): string {
    FileName(job.date, job.extension, collisionNumber)
  }

  /** The first candidate carries no number, every later one its own. */
  lemma CandidateNames(date: string, extension: string, n: nat)
    ensures FileName(date, extension, 1) == date + "_generated-image" + extension
    ensures n >= 2 ==> FileName(date, extension, n) == date + "_generated-image-" + Decimal(n) + extension
  {
    hide Decimal;
    assert date + "_generated-image" + "" == date + "_generated-image";
    if n >= 2 {
      assert date + "_generated-image" + ("-" + Decimal(n)) == date + "_generated-image-" + Decimal(n) by {
        Associative(date, "_generated-image", "-" + Decimal(n));
        Associative("_generated-image", "-", Decimal(n));
        Associative(date, "_generated-image-", Decimal(n));
      }
    }
  }

  /** Candidate names of one image differ. */
  lemma NameInjective(job: Job, m: nat, n: nat)
    requires m >= 1 && n >= 1 && Name(job, m) == Name(job, n)
    ensures m == n
  {
    var head := job.date + "_generated-image";
    var a, b := Suffix(m), Suffix(n);
    assert Name(job, m) == head + a + job.extension && Name(job, n) == head + b + job.extension;
    assert |a| == |b|;
    assert a == (head + a + job.extension)[|head|..|head| + |a|];
    assert b == (head + b + job.extension)[|head|..|head| + |b|];
    if m > 1 && n > 1 {
      assert Decimal(m) == a[1..] && Decimal(n) == b[1..];
      DecimalInjective(m, n);
    }
  }

  /* ---------- The protocol ---------- */

  datatype Pc = Claim(n: nat) | Compare(n: nat) | Returned(n: nat) | Exhausted | Failed

  /**
   `misread` collects the copiers for which reading a taken name failed; `minted` those that created
   a file.
   */
  datatype State = State(files: Files, pcs: seq<Pc>, misread: set<nat>, minted: set<nat>)

  function NextCandidate(n: nat): Pc {
    if n < MAX_CANDIDATES then Claim(n + 1) else Exhausted
  }

  ghost predicate Init(jobs: seq<Job>, s: State) {
    |s.pcs| == |jobs| && s.misread == {} && s.minted == {} && forall i :: 0 <= i < |jobs| ==> s.pcs[i] == Claim(1)
  }

  datatype Step =
    | TryClaim(copier: nat)      // the exclusive link
    | ClaimError(copier: nat)    // the link fails for another reason than a taken name
    | TryCompare(copier: nat)    // the taken name is read and compared
    | CompareError(copier: nat)  // the taken name cannot be read
    | Outside(name: string, bytes: Bytes)

  ghost predicate Enabled(jobs: seq<Job>, s: State, step: Step) {
    match step
    case TryClaim(i) => i < |s.pcs| && s.pcs[i].Claim?
    case ClaimError(i) => i < |s.pcs| && s.pcs[i].Claim?
    case TryCompare(i) => i < |s.pcs| && s.pcs[i].Compare?
    case CompareError(i) => i < |s.pcs| && s.pcs[i].Compare?
    case Outside(name, _) => name !in s.files
  }

  ghost function Next(jobs: seq<Job>, s: State, step: Step): State
    requires |s.pcs| == |jobs| && Enabled(jobs, s, step)
  {
    match step
    case TryClaim(i) =>
      var n := s.pcs[i].n;
      if Name(jobs[i], n) in s.files then s.(pcs := s.pcs[i := Compare(n)])
      else s.(files := s.files[Name(jobs[i], n) := jobs[i].bytes], pcs := s.pcs[i := Returned(n)],
        minted := s.minted + {i})
    case ClaimError(i) => s.(pcs := s.pcs[i := Failed])
    case TryCompare(i) =>
      var n := s.pcs[i].n;
      if Name(jobs[i], n) in s.files
        && s.files[Name(jobs[i], n)] == jobs[i].bytes then s.(pcs := s.pcs[i := Returned(n)])
      else s.(pcs := s.pcs[i := NextCandidate(n)])
    case CompareError(i) => s.(pcs := s.pcs[i := NextCandidate(s.pcs[i].n)], misread := s.misread + {i})
    case Outside(name, bytes) => s.(files := s.files[name := bytes])
  }

  /** A run: states linked by steps. */
  ghost predicate Run(jobs: seq<Job>, states: seq<State>) {
    && |states| > 0 && Init(jobs, states[0])
    && forall k :: 0 <= k < |states| - 1 ==> StepTo(jobs, states[k], states[k + 1])
  }

  ghost predicate StepTo(jobs: seq<Job>, s: State, t: State) {
    |s.pcs| == |jobs| && exists step :: Enabled(jobs, s, step) && t == Next(jobs, s, step)
  }

  /* ---------- The invariant ---------- */

  ghost predicate Taken(files: Files, job: Job, n: nat) {
    Name(job, n) in files
  }

  ghost predicate HoldsBytes(files: Files, job: Job, n: nat) {
    Taken(files, job, n) && files[Name(job, n)] == job.bytes
  }

  /** The number of candidates a copier has passed. */
  function Passed(pc: Pc): nat {
    match pc
    case Claim(n) => n
    case Compare(n) => n
    case Returned(n) => n
    case Exhausted => MAX_CANDIDATES + 1
    case Failed => 1
  }

  ghost predicate CopierInv(s: State, job: Job, i: nat)
    requires i < |s.pcs|
  {
    var pc := s.pcs[i];
    && 1 <= Passed(pc) <= (if pc.Exhausted? then MAX_CANDIDATES + 1 else MAX_CANDIDATES)
    && (forall k :: 1 <= k < Passed(pc) ==> Taken(s.files, job, k))
    && (i !in s.misread ==> forall k :: 1 <= k < Passed(pc) ==> !HoldsBytes(s.files, job, k))
    && (pc.Compare? ==> Taken(s.files, job, pc.n))
    && (pc.Returned? ==> HoldsBytes(s.files, job, pc.n))
    && (i in s.minted ==> pc.Returned?)
  }

  ghost predicate Inv(jobs: seq<Job>, s: State) {
    && |s.pcs| == |jobs|
    && (forall i :: 0 <= i < |jobs| ==> CopierInv(s, jobs[i], i))
    && (forall i :: i in s.minted ==> i < |jobs|)
    && (forall i, j :: i in s.minted && j in s.minted && i !in s.misread && j !in s.misread && jobs[i] == jobs[j] ==>
      i == j)
  }

  ghost predicate Grows(a: Files, b: Files) {
    forall name :: name in a ==> name in b && b[name] == a[name]
  }

  lemma CopierFramed(s: State, t: State, job: Job, i: nat)
    requires i < |s.pcs| && i < |t.pcs| && CopierInv(s, job, i) && t.pcs[i] == s.pcs[i]
    requires i in s.misread ==> i in t.misread
    requires i in t.minted ==> i in s.minted
    requires Grows(s.files, t.files)
    ensures CopierInv(t, job, i)
  {
    hide Name;
    assert forall k :: Taken(s.files, job, k) ==>
      Taken(t.files, job, k) && (HoldsBytes(t.files, job, k) <==> HoldsBytes(s.files, job, k));
  }

  lemma StepKeepsInv(jobs: seq<Job>, s: State, step: Step)
    requires Inv(jobs, s) && Enabled(jobs, s, step)
    ensures Inv(jobs, Next(jobs, s, step))
    ensures Grows(s.files, Next(jobs, s, step).files)
  {
    hide Name;
    var t := Next(jobs, s, step);
    assert Grows(s.files, t.files);
    forall i | 0 <= i < |jobs| ensures CopierInv(t, jobs[i], i) {
      assert CopierInv(s, jobs[i], i);
      if t.pcs[i] == s.pcs[i] {
        CopierFramed(s, t, jobs[i], i);
      } else {
        OwnStep(jobs, s, step, i);
      }
    }
    if step.TryClaim? && t.minted != s.minted {
      forall j | j in s.minted && step.copier !in s.misread ensures jobs[j] != jobs[step.copier] {
        if jobs[j] == jobs[step.copier] { MintedTwice(jobs, s, j, step.copier); }
      }
    }
  }

  lemma OwnStep(jobs: seq<Job>, s: State, step: Step, i: nat)
    requires Inv(jobs, s) && Enabled(jobs, s, step) && i < |jobs|
    requires Next(jobs, s, step).pcs[i] != s.pcs[i]
    ensures CopierInv(Next(jobs, s, step), jobs[i], i)
  {
    hide Name;
    var t, job := Next(jobs, s, step), jobs[i];
    assert CopierInv(s, job, i);
    if step.TryClaim? && Name(job, s.pcs[i].n) !in s.files {
      var n := s.pcs[i].n;
      forall k | 1 <= k < n
        ensures Taken(t.files, job, k) && (HoldsBytes(t.files, job, k) <==> HoldsBytes(s.files, job, k)) {
        if Name(job, k) == Name(job, n) { NameInjective(job, k, n); }
        assert Taken(s.files, job, k);
      }
    }
  }

  /** A copier with clean reads cannot be about to create a second copy. */
  lemma MintedTwice(jobs: seq<Job>, s: State, i: nat, j: nat)
    requires Inv(jobs, s) && i in s.minted && j < |jobs| && jobs[i] == jobs[j]
    requires s.pcs[j].Claim? && j !in s.misread
    ensures Taken(s.files, jobs[j], s.pcs[j].n)
  {
    hide Name;
    assert CopierInv(s, jobs[i], i) && CopierInv(s, jobs[j], j);
    var m, n := s.pcs[i].n, s.pcs[j].n;
    assert HoldsBytes(s.files, jobs[j], m);
  }

  /* ---------- What every run guarantees ---------- */

  lemma {:induction false} RunInv(jobs: seq<Job>, states: seq<State>, k: nat)
    requires Run(jobs, states) && k < |states|
    ensures Inv(jobs, states[k])
  {
    hide Name;
    if k > 0 {
      RunInv(jobs, states, k - 1);
      assert StepTo(jobs, states[k - 1], states[k - 1 + 1]);
      var step :| Enabled(jobs, states[k - 1], step) && states[k] == Next(jobs, states[k - 1], step);
      StepKeepsInv(jobs, states[k - 1], step);
    } else {
      assert forall i :: 0 <= i < |jobs| ==> CopierInv(states[0], jobs[i], i);
    }
  }

  /** No existing file ever changes or disappears. */
  lemma {:induction false} NothingOverwritten(jobs: seq<Job>, states: seq<State>, j: nat, k: nat)
    requires Run(jobs, states) && j <= k < |states|
    ensures Grows(states[j].files, states[k].files)
  {
    hide Name;
    if j < k {
      NothingOverwritten(jobs, states, j, k - 1);
      RunInv(jobs, states, k - 1);
      assert StepTo(jobs, states[k - 1], states[k - 1 + 1]);
      var step :| Enabled(jobs, states[k - 1], step) && states[k] == Next(jobs, states[k - 1], step);
      StepKeepsInv(jobs, states[k - 1], step);
    }
  }

  /** A returned name holds the copier's bytes, then and later. */
  lemma ReturnedNameHoldsBytes(jobs: seq<Job>, states: seq<State>, j: nat, k: nat, i: nat)
    requires Run(jobs, states) && j <= k < |states| && i < |jobs|
    requires |states[j].pcs| == |jobs| && states[j].pcs[i].Returned?
    ensures HoldsBytes(states[k].files, jobs[i], states[j].pcs[i].n)
  {
    hide Name;
    RunInv(jobs, states, j);
    assert CopierInv(states[j], jobs[i], i);
    NothingOverwritten(jobs, states, j, k);
  }

  /** Copiers of equal images that could read every taken name return the same name. */
  lemma CopiersConverge(jobs: seq<Job>, states: seq<State>, k: nat, i: nat, j: nat)
    requires Run(jobs, states) && k < |states| && i < |jobs| && j < |jobs| && jobs[i] == jobs[j]
    requires |states[k].pcs| == |jobs|
    requires states[k].pcs[i].Returned? && states[k].pcs[j].Returned?
    requires i !in states[k].misread && j !in states[k].misread
    ensures states[k].pcs[i].n == states[k].pcs[j].n
  {
    hide Name;
    RunInv(jobs, states, k);
    assert CopierInv(states[k], jobs[i], i) && CopierInv(states[k], jobs[j], j);
  }

  /** Equal images are created at most once, whoever starts when. */
  lemma NoDuplicateIsMinted(jobs: seq<Job>, states: seq<State>, k: nat, i: nat, j: nat)
    requires Run(jobs, states) && k < |states| && i in states[k].minted && j in states[k].minted
    requires i !in states[k].misread && j !in states[k].misread
    requires i < |jobs| && j < |jobs| && jobs[i] == jobs[j]
    ensures i == j
  {
    hide Name;
    RunInv(jobs, states, k);
  }

  /** An image that some candidate name already holds is not created again. */
  lemma {:induction false} ReplayMintsNothing(jobs: seq<Job>, states: seq<State>, k: nat, i: nat, m: nat)
    requires Run(jobs, states) && k < |states| && i < |jobs|
    requires 1 <= m <= MAX_CANDIDATES && HoldsBytes(states[0].files, jobs[i], m)
    requires forall c :: 1 <= c < m ==> Taken(states[0].files, jobs[i], c)
    requires i !in states[k].misread
    ensures i !in states[k].minted
  {
    hide Name;
    if k > 0 {
      var s := states[k - 1];
      assert StepTo(jobs, s, states[k - 1 + 1]);
      var step :| Enabled(jobs, s, step) && states[k] == Next(jobs, s, step);
      ReplayMintsNothing(jobs, states, k - 1, i, m);
      RunInv(jobs, states, k - 1);
      NothingOverwritten(jobs, states, 0, k - 1);
      assert CopierInv(s, jobs[i], i);
      if step == TryClaim(i) {
        assert HoldsBytes(s.files, jobs[i], m);
        var n := s.pcs[i].n;
        assert n <= m;
        assert n < m ==> Taken(states[0].files, jobs[i], n);
        assert Taken(s.files, jobs[i], n);
      }
    }
  }

  /** Without that condition it can be: a free smaller candidate is claimed although a later one holds the image. */
  lemma FreeSmallerCandidateIsMinted(job: Job)
    ensures
      var s0 := State(map[Name(job, 2) := job.bytes], [Claim(1)], {}, {});
      Init([job], s0) && HoldsBytes(s0.files, job, 2) && Enabled([job], s0, TryClaim(0))
      && Next([job], s0, TryClaim(0)).minted == {0}
      && Next([job], s0, TryClaim(0)).files == map[Name(job, 1) := job.bytes, Name(job, 2) := job.bytes]
  {
    if Name(job, 1) == Name(job, 2) { NameInjective(job, 1, 2); }
  }

  /* ---------- Exactly when one copier can create a file ---------- */

  /** The first free candidate, with no candidate before it holding the image. */
  ghost predicate IsFreshCandidate(files: Files, job: Job, n: nat) {
    && 1 <= n <= MAX_CANDIDATES && !Taken(files, job, n)
    && forall c :: 1 <= c < n ==> Taken(files, job, c) && !HoldsBytes(files, job, c)
  }

  /** A run of this one copier, whatever happens outside, in which every read succeeds and a file is created. */
  ghost predicate MintsIn(files: Files, job: Job, states: seq<State>) {
    Run([job], states) && states[0].files == files && 0 in states[|states| - 1].minted
      && 0 !in states[|states| - 1].misread
  }

  /** From some directory a copier can create a file exactly when the directory has a fresh candidate. */
  lemma CanMintIff(files: Files, job: Job)
    ensures (exists states :: MintsIn(files, job, states)) <==> exists n :: IsFreshCandidate(files, job, n)
  {
    hide MintsIn, IsFreshCandidate;
    forall states | MintsIn(files, job, states) ensures exists n :: IsFreshCandidate(files, job, n) {
      var n := MintedWasFresh(files, job, states);
    }
    forall n | IsFreshCandidate(files, job, n) ensures exists states :: MintsIn(files, job, states) {
      var states := FreshIsMinted(files, job, n);
    }
  }

  /**
   A replay of an image held by candidate `m` can create a duplicate exactly when a fresh candidate comes before
   `m`.
   */
  lemma ReplayDuplicatesIff(files: Files, job: Job, m: nat)
    requires 1 <= m <= MAX_CANDIDATES && HoldsBytes(files, job, m)
    ensures (exists states :: MintsIn(files, job, states)) <==>
      exists n: nat :: n < m && IsFreshCandidate(files, job, n)
  {
    hide MintsIn, Name;
    CanMintIff(files, job);
    assert forall n: nat :: IsFreshCandidate(files, job, n) ==> n < m;
  }

  /** A created file's name was free from the beginning of the run. */
  lemma {:induction false} MintedNameWasFree(job: Job, states: seq<State>, k: nat)
    requires Run([job], states) && k < |states| && 0 in states[k].minted
    ensures |states[k].pcs| == 1 && states[k].pcs[0].Returned? && !Taken(states[0].files, job, states[k].pcs[0].n)
  {
    hide Name;
    RunInv([job], states, k);
    assert CopierInv(states[k], [job][0], 0);
    if k > 0 {
      assert StepTo([job], states[k - 1], states[k - 1 + 1]);
      var step :| Enabled([job], states[k - 1], step) && states[k] == Next([job], states[k - 1], step);
      NothingOverwritten([job], states, 0, k - 1);
      if 0 in states[k - 1].minted { MintedNameWasFree(job, states, k - 1); }
    }
  }

  lemma MintedWasFresh(files: Files, job: Job, states: seq<State>) returns (n: nat)
    requires MintsIn(files, job, states)
    ensures IsFreshCandidate(files, job, n)
  {
    hide Name;
    var k := |states| - 1;
    MintedNameWasFree(job, states, k);
    RunInv([job], states, k);
    assert CopierInv(states[k], [job][0], 0);
    NothingOverwritten([job], states, 0, k);
    n := FirstFree(files, job, states[k].pcs[0].n);
    forall c | 1 <= c < n ensures !HoldsBytes(files, job, c) {
      assert HoldsBytes(files, job, c) ==> HoldsBytes(states[k].files, job, c);
    }
  }

  lemma FirstFree(files: Files, job: Job, bound: nat) returns (n: nat)
    requires bound >= 1 && !Taken(files, job, bound)
    ensures 1 <= n <= bound && !Taken(files, job, n) && forall c :: 1 <= c < n ==> Taken(files, job, c)
  {
    hide Name;
    n := 1;
    while Taken(files, job, n)
      invariant 1 <= n <= bound && forall c :: 1 <= c < n ==> Taken(files, job, c)
      decreases bound - n
    {
      n := n + 1;
    }
  }

  lemma ExtendRun(jobs: seq<Job>, states: seq<State>, step: Step)
    requires Run(jobs, states) && |states[|states| - 1].pcs| == |jobs| && Enabled(jobs, states[|states| - 1], step)
    ensures Run(jobs, states + [Next(jobs, states[|states| - 1], step)])
  {
    hide Next, Enabled;
    var last := states[|states| - 1];
    var longer := states + [Next(jobs, last, step)];
    assert StepTo(jobs, last, Next(jobs, last, step));
    forall k | 0 <= k < |longer| - 1 ensures StepTo(jobs, longer[k], longer[k + 1]) {
      if k < |states| - 1 { assert StepTo(jobs, states[k], states[k + 1]); }
    }
  }

  /** Candidates taken by other images are passed in two own steps each. */
  lemma {:induction false} PassTaken(files: Files, job: Job, n: nat) returns (states: seq<State>)
    requires 1 <= n <= MAX_CANDIDATES && forall c :: 1 <= c < n ==> Taken(files, job, c) && !HoldsBytes(files, job, c)
    ensures Run([job], states) && states[0].files == files && states[|states| - 1] == State(files, [Claim(n)], {}, {})
  {
    hide Name;
    if n == 1 {
      states := [State(files, [Claim(1)], {}, {})];
    } else {
      var before := PassTaken(files, job, n - 1);
      ExtendRun([job], before, TryClaim(0));
      var middle := before + [State(files, [Compare(n - 1)], {}, {})];
      assert [job][0] == job && Taken(files, job, n - 1) && !HoldsBytes(files, job, n - 1);
      var pcs := [Claim(n - 1)];
      assert pcs[0 := Compare(n - 1)] == [Compare(n - 1)];
      assert Next([job], before[|before| - 1], TryClaim(0)) == middle[|before|];
      ExtendRun([job], middle, TryCompare(0));
      states := middle + [State(files, [Claim(n)], {}, {})];
      var compared := [Compare(n - 1)];
      assert compared[0 := Claim(n)] == [Claim(n)];
      assert Next([job], middle[|before|], TryCompare(0)) == states[|middle|];
    }
  }

  lemma FreshIsMinted(files: Files, job: Job, n: nat) returns (states: seq<State>)
    requires IsFreshCandidate(files, job, n)
    ensures MintsIn(files, job, states)
  {
    hide Name;
    var before := PassTaken(files, job, n);
    ExtendRun([job], before, TryClaim(0));
    states := before + [Next([job], before[|before| - 1], TryClaim(0))];
  }

  /** A copier gives up on names only when all candidates are taken by other images. */
  lemma ExhaustedOnlyWhenFull(jobs: seq<Job>, states: seq<State>, k: nat, i: nat)
    requires Run(jobs, states) && k < |states| && i < |jobs| && |states[k].pcs| == |jobs|
    requires states[k].pcs[i].Exhausted? && i !in states[k].misread
    ensures forall c :: 1 <= c <= 10_000 ==>
      Taken(states[k].files, jobs[i], c) && !HoldsBytes(states[k].files, jobs[i], c)
  {
    hide Name;
    RunInv(jobs, states, k);
    assert CopierInv(states[k], jobs[i], i);
  }

  /** The number of own steps a copier can still take. */
  function StepsLeft(pc: Pc): int {
    match pc
    case Claim(n) => 2 * (MAX_CANDIDATES as int - n) + 2
    case Compare(n) => 2 * (MAX_CANDIDATES as int - n) + 1
    case _ => 0
  }

  /** Every copier finishes within 20,000 own steps, and nobody else's steps hold it up. */
  lemma OwnStepsAreBounded(jobs: seq<Job>, s: State, step: Step, i: nat)
    requires Inv(jobs, s) && Enabled(jobs, s, step) && i < |jobs|
    ensures 0 <= StepsLeft(s.pcs[i]) <= 20_000
    ensures !step.Outside? && step.copier == i ==> StepsLeft(Next(jobs, s, step).pcs[i]) < StepsLeft(s.pcs[i])
    ensures step.Outside? || step.copier != i ==> Next(jobs, s, step).pcs[i] == s.pcs[i]
  {
    hide Name;
    assert CopierInv(s, jobs[i], i);
  }

  /* ---------- The loop of one copier ---------- */

  datatype ClaimOutcome = Claimed | Collision | LinkError

  class ImagesDirectory {
    var files: Files
    /** How many links failed for another reason than a taken name, and how many taken names could not be read. */
    ghost var linkErrors: nat
    ghost var misreads: nat
    /** The collision numbers of the files created here. */
    ghost var claims: seq<nat>

    /** What other copiers and processes may do at any time: add files. */
    method Others()
      modifies this`files
      ensures Grows(old(files), files)
    {
      var added: Files := *;
      files := added + files;
    }

    /** The exclusive link: it never overwrites, and it may fail for reasons of its own. */
    method ClaimDestinationExclusively(job: Job, collisionNumber: nat) returns (outcome: ClaimOutcome)
      modifies this`files, this`linkErrors, this`claims
      ensures claims == old(claims) + if outcome.Claimed? then [collisionNumber] else []
      ensures linkErrors == old(linkErrors) + if outcome.LinkError? then 1 else 0
      ensures !outcome.LinkError? ==> (outcome.Claimed? <==> !Taken(old(files), job, collisionNumber))
      ensures outcome.Claimed? ==> files == old(files)[Name(job, collisionNumber) := job.bytes]
      ensures outcome.Collision? ==> Taken(old(files), job, collisionNumber)
      ensures !outcome.Claimed? ==> files == old(files)
    {
      var error: bool := *;
      if error {
        linkErrors := linkErrors + 1;
        return LinkError;
      }
      if Name(job, collisionNumber) in files { return Collision; }
      files, claims := files[Name(job, collisionNumber) := job.bytes], claims + [collisionNumber];
      outcome := Claimed;
    }

    /** A file that cannot be read counts as different. */
    method HaveIdenticalContent(job: Job, collisionNumber: nat) returns (identical: bool, readable: bool)
      requires Taken(files, job, collisionNumber)
      modifies this`misreads
      ensures misreads == old(misreads) + if readable then 0 else 1
      ensures identical <==> readable && HoldsBytes(files, job, collisionNumber)
    {
      readable := *;
      if !readable { misreads := misreads + 1; }
      var content := files[Name(job, collisionNumber)];
      identical := readable && |content| == |job.bytes| && content == job.bytes;
    }

    /** Returns the collision number of the name that was claimed or reused, or none. */
    method CopyIntoWorkspace(job: Job) returns (result: Pc, clean: bool)
      modifies this
      ensures Grows(old(files), files)
      ensures result.Returned? || result.Exhausted? || result.Failed?
      ensures result.Failed? <==> linkErrors > old(linkErrors)
      ensures claims == old(claims) || (result.Returned? && claims == old(claims) + [result.n])
      ensures clean <==> misreads == old(misreads)
      ensures result.Returned? ==> 1 <= result.n <= 10_000 && HoldsBytes(files, job, result.n)
      ensures result.Exhausted? ==> Passed(result) == 10_001
      ensures forall k :: 1 <= k < Passed(result) ==> Taken(files, job, k)
      ensures clean ==> forall k :: 1 <= k < Passed(result) ==> !HoldsBytes(files, job, k)
    {
      hide Name;
      clean := true;
      var collisionNumber := 1;
      while collisionNumber <= MAX_CANDIDATES
        invariant 1 <= collisionNumber <= MAX_CANDIDATES + 1
        invariant linkErrors == old(linkErrors) && claims == old(claims)
        invariant misreads >= old(misreads) && (clean <==> misreads == old(misreads))
        invariant Grows(old(files), files)
        invariant forall k :: 1 <= k < collisionNumber ==> Taken(files, job, k)
        invariant clean ==> forall k :: 1 <= k < collisionNumber ==> !HoldsBytes(files, job, k)
      {
        ghost var before := files;
        Others();
        GrowsKeeps(job, before, files);
        before := files;
        var outcome := ClaimDestinationExclusively(job, collisionNumber);
        GrowsKeeps(job, before, files);
        if outcome.LinkError? { return Failed, clean; }
        if outcome.Claimed? { return Returned(collisionNumber), clean; }
        before := files;
        Others();
        GrowsKeeps(job, before, files);
        assert Taken(before, job, collisionNumber);
        var identical, readable := HaveIdenticalContent(job, collisionNumber);
        if identical {
          return Returned(collisionNumber), clean;
        }
        clean := clean && readable;
        collisionNumber := collisionNumber + 1;
      }
      result := Exhausted;
    }
  }

  lemma GrowsKeeps(job: Job, a: Files, b: Files)
    requires Grows(a, b)
    ensures forall k :: Taken(a, job, k) ==> Taken(b, job, k) && (HoldsBytes(b, job, k) <==> HoldsBytes(a, job, k))
  {
  }
}
