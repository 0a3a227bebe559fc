/**
 The import-cycle detector of the architecture gate: a recursive search for strongly connected
 components that keeps an index and a low link for every file, a stack of unfinished files, and
 reports the components that contain a cycle.
 */
module ImportCycles {
  import opened Sorting
  import opened Strings

  type Node = string

  /** The dependencies of each file, in the order in which its dependency set iterates. */
  type Graph = map<Node, seq<Node>>

  function Succ(g: Graph, v: Node): seq<Node> {
    if v in g then g[v] else []
  }

  /** Every file and every file named as a dependency. */
  ghost function Vertices(g: Graph): set<Node> {
    g.Keys + set v, i | v in g && 0 <= i < |g[v]| :: g[v][i]
  }

  /* ---------- What the detector is meant to find ---------- */

  ghost predicate Path(g: Graph, p: seq<Node>) {
    |p| > 0 && forall i, j :: 0 <= i < |p| - 1 && j == i + 1 ==> p[j] in Succ(g, p[i])
  }

  ghost predicate PathBetween(g: Graph, p: seq<Node>, a: Node, b: Node) {
    Path(g, p) && p[0] == a && p[|p| - 1] == b
  }

  ghost predicate Reach(g: Graph, a: Node, b: Node) {
    exists p :: PathBetween(g, p, a, b)
  }

  /** A strongly connected component: mutually reachable, and not extensible. */
  ghost predicate IsComponent(g: Graph, c: set<Node>) {
    c != {} && forall x, y :: x in c ==> (y in c <==> Reach(g, x, y) && Reach(g, y, x))
  }

  ghost predicate IsCyclicComponent(g: Graph, c: set<Node>) {
    IsComponent(g, c) && (|c| > 1 || exists v :: v in c && v in Succ(g, v))
  }

  ghost predicate HasCycle(g: Graph) {
    exists v, w :: w in Succ(g, v) && Reach(g, w, v)
  }

  /* ---------- Reachability ---------- */

  lemma ReachSelf(g: Graph, a: Node)
    ensures Reach(g, a, a)
  {
    assert PathBetween(g, [a], a, a);
  }

  lemma ReachEdge(g: Graph, a: Node, b: Node)
    requires b in Succ(g, a)
    ensures Reach(g, a, b)
  {
    assert PathBetween(g, [a, b], a, b);
  }

  lemma ReachTrans(g: Graph, a: Node, b: Node, c: Node)
    requires Reach(g, a, b) && Reach(g, b, c)
    ensures Reach(g, a, c)
  {
    var p :| PathBetween(g, p, a, b);
    var q :| PathBetween(g, q, b, c);
    var r := p + q[1..];
    forall i | 0 <= i < |r| - 1 ensures r[i + 1] in Succ(g, r[i]) {
      if i >= |p| - 1 {
        assert r[i] == q[i - (|p| - 1)] && r[i + 1] == q[i + 1 - (|p| - 1)];
      }
    }
    assert PathBetween(g, r, a, c);
  }

  /** A path cannot leave a set that is closed under dependencies. */
  lemma ClosedTrapsPath(g: Graph, d: set<Node>, a: Node, b: Node)
    requires forall v, w :: v in d && w in Succ(g, v) ==> w in d
    requires a in d && Reach(g, a, b)
    ensures b in d
  {
    var p :| PathBetween(g, p, a, b);
    var i := 0;
    while i < |p| - 1
      invariant 0 <= i < |p| && p[i] in d
    {
      i := i + 1;
    }
  }

  /** Components that meet are equal. */
  lemma ComponentsDisjointOrEqual(g: Graph, c: set<Node>, d: set<Node>, x: Node)
    requires IsComponent(g, c) && IsComponent(g, d) && x in c && x in d
    ensures c == d
  {
    forall y ensures y in c <==> y in d {
    }
  }

  /* ---------- The state of the search ---------- */

  /** A snapshot of the search; `gray` holds the files whose visit has not returned. */
  datatype Snap = Snap(next: nat, indices: map<Node, nat>, stack: seq<Node>, gray: set<Node>)

  ghost predicate OnStack(s: Snap, v: Node) {
    v in s.stack
  }

  /** Files whose component has been popped. */
  ghost predicate Done(s: Snap, v: Node) {
    v in s.indices && !OnStack(s, v)
  }

  ghost predicate Shape(s: Snap) {
    && (forall v :: v in s.indices ==> s.indices[v] < s.next)
    && (forall i :: 0 <= i < |s.stack| ==> s.stack[i] in s.indices)
    && (forall i, j :: 0 <= i < j < |s.stack| ==> s.indices[s.stack[i]] < s.indices[s.stack[j]])
    && (forall v :: v in s.gray ==> OnStack(s, v))
  }

  /** A finished file has no unvisited dependency. */
  ghost predicate FinishedSeesVisited(g: Graph, s: Snap) {
    forall v, w :: v in s.indices && v !in s.gray && w in Succ(g, v) ==> w in s.indices
  }

  /** Popped files depend on popped files only. */
  ghost predicate DoneIsClosed(g: Graph, s: Snap) {
    forall v, w :: Done(s, v) && w in Succ(g, v) ==> Done(s, w)
  }

  /** A file under visit reaches everything above it on the stack. */
  ghost predicate GrayReachesAbove(g: Graph, s: Snap)
    requires Shape(s)
  {
    forall y, x :: y in s.gray && OnStack(s, x) && s.indices[y] <= s.indices[x] ==> Reach(g, y, x)
  }

  ghost predicate BackTo(g: Graph, s: Snap, y: Node, x: Node)
    requires Shape(s) && OnStack(s, y)
  {
    x in s.gray && s.indices[x] <= s.indices[y] && Reach(g, y, x)
  }

  ghost predicate ReachesGray(g: Graph, s: Snap, y: Node) {
    Shape(s) && OnStack(s, y) && exists x :: BackTo(g, s, y, x)
  }

  /** Everything on the stack reaches a file under visit at or below it. */
  ghost predicate StackReachesGray(g: Graph, s: Snap) {
    forall y {:trigger ReachesGray(g, s, y)} :: OnStack(s, y) ==> ReachesGray(g, s, y)
  }

  ghost predicate Inv(g: Graph, s: Snap) {
    && Shape(s)
    && FinishedSeesVisited(g, s)
    && DoneIsClosed(g, s)
    && GrayReachesAbove(g, s)
    && StackReachesGray(g, s)
  }

  /** Later states keep the indices and the stack of earlier ones. */
  ghost predicate Extends(s: Snap, t: Snap) {
    && s.next <= t.next
    && (forall v :: v in s.indices ==> v in t.indices && t.indices[v] == s.indices[v])
    && s.stack <= t.stack
    && (forall v :: OnStack(t, v) && v in s.indices ==> OnStack(s, v))
    && (forall v :: v in t.indices && v !in s.indices ==> s.next <= t.indices[v])
  }

  /** Every dependency from above the old stack into the old stack lies at `low` or higher. */
  ghost predicate LowBounds(g: Graph, s0: Snap, s: Snap, low: nat, except: set<Node>)
    requires Shape(s)
  {
    forall u, w :: OnStack(s, u) && !OnStack(s0, u) && u !in except && w in Succ(g, u) && OnStack(s0, w)
      && OnStack(s, w)
      ==> low <= s.indices[w]
  }

  /** `low` is the index of a stacked file that `x` reaches. */
  ghost predicate LowIsReached(g: Graph, s: Snap, x: Node, low: nat)
    requires Shape(s)
  {
    exists y :: OnStack(s, y) && s.indices[y] == low && Reach(g, x, y)
  }

  /** What one visit of `x` achieves, started in `s0` and left in `s` with low link `low`. */
  ghost predicate Visited(g: Graph, s0: Snap, x: Node, s: Snap, low: nat) {
    && Shape(s0) && Inv(g, s) && Extends(s0, s) && s.gray == s0.gray && x in s.indices
    && (OnStack(s, x) ==> low < s.indices[x] && LowIsReached(g, s, x, low))
    && (!OnStack(s, x) ==> low == s.indices[x] && s.stack == s0.stack)
    && LowBounds(g, s0, s, low, {})
  }

  /** What holds in the visit of `x` after its first `i` dependencies. */
  ghost predicate Visiting(g: Graph, s0: Snap, x: Node, s: Snap, low: nat, i: nat) {
    && Shape(s0) && Inv(g, s) && Extends(s0, s) && s.gray == s0.gray + {x}
    && x !in s0.indices && s0.stack + [x] <= s.stack && s.indices[x] == s0.next < s.next
    && low <= s.indices[x] && LowIsReached(g, s, x, low)
    && DependenciesBounded(g, x, s, low, i)
    && LowBounds(g, s0, s, low, {x})
  }

  function Push(s: Snap, x: Node): Snap {
    Snap(s.next + 1, s.indices[x := s.next], s.stack + [x], s.gray + {x})
  }

  lemma PushKeepsClosed(g: Graph, s0: Snap, x: Node)
    requires DoneIsClosed(g, s0) && x !in s0.indices
    ensures DoneIsClosed(g, Push(s0, x))
  {
    var s := Push(s0, x);
    forall v, w | Done(s, v) && w in Succ(g, v) ensures Done(s, w) {
      assert s.stack[|s0.stack|] == x;
      assert Done(s0, v);
      assert Done(s0, w);
    }
  }

  lemma PushKeepsStackReaches(g: Graph, s0: Snap, x: Node)
    requires Shape(s0) && Shape(Push(s0, x)) && StackReachesGray(g, s0) && x !in s0.indices
    ensures StackReachesGray(g, Push(s0, x))
  {
    var s := Push(s0, x);
    forall y | OnStack(s, y) ensures ReachesGray(g, s, y) {
      if y == x {
        ReachSelf(g, x);
        assert BackTo(g, s, y, x);
      } else {
        assert ReachesGray(g, s0, y);
        var x' :| BackTo(g, s0, y, x');
        assert BackTo(g, s, y, x');
      }
    }
  }

  lemma PushKeepsInv(g: Graph, s0: Snap, x: Node)
    requires Inv(g, s0) && x !in s0.indices
    requires forall y :: y in s0.gray ==> Reach(g, y, x)
    ensures Inv(g, Push(s0, x))
  {
    hide Reach, DoneIsClosed, StackReachesGray;
    var s := Push(s0, x);
    PushKeepsClosed(g, s0, x);
    assert forall v :: OnStack(s, v) <==> OnStack(s0, v) || v == x;
    assert Shape(s);
    PushKeepsStackReaches(g, s0, x);
    ReachSelf(g, x);
  }

  /** Entering a visit. */
  lemma Enter(g: Graph, s0: Snap, x: Node)
    requires Inv(g, s0) && x !in s0.indices
    requires forall y :: y in s0.gray ==> Reach(g, y, x)
    ensures Visiting(g, s0, x, Push(s0, x), s0.next, 0)
  {
    hide Reach;
    var s := Push(s0, x);
    PushKeepsInv(g, s0, x);
    ReachSelf(g, x);
    assert OnStack(s, x) by { assert s.stack[|s0.stack|] == x; }
    assert LowIsReached(g, s, x, s0.next);
  }

  /** During the visit the file has an index, and the files indexed before keep theirs. */
  lemma IndexedSoFar(g: Graph, s0: Snap, x: Node, s: Snap, low: nat, i: nat)
    requires Visiting(g, s0, x, s, low, i)
    ensures x in s.indices && x !in s0.indices && s0.indices.Keys <= s.indices.Keys
  {
    hide Inv, Reach, LowBounds, LowIsReached, DependenciesBounded;
    VisitingShape(g, s0, x, s, low, i);
    assert s.stack[|s0.stack|] == x;
  }

  /** A dependency that already has an index. */
  lemma StepKnown(g: Graph, s0: Snap, x: Node, s: Snap, low: nat, i: nat, d: Node, low': nat)
    requires Visiting(g, s0, x, s, low, i) && i < |Succ(g, x)| && d == Succ(g, x)[i] && d in s.indices
    requires low' == if OnStack(s, d) && s.indices[d] < low then s.indices[d] else low
    ensures Visiting(g, s0, x, s, low', i + 1)
  {
    hide Reach, DoneIsClosed, FinishedSeesVisited, GrayReachesAbove, StackReachesGray, Extends;
    ReachEdge(g, x, d);
  }

  /** The precondition of the recursive visit. */
  lemma GrayReachesDependency(g: Graph, s0: Snap, x: Node, s: Snap, low: nat, i: nat)
    requires Visiting(g, s0, x, s, low, i) && i < |Succ(g, x)|
    ensures forall y :: y in s.gray ==> Reach(g, y, Succ(g, x)[i])
  {
    hide Reach;
    var d := Succ(g, x)[i];
    ReachEdge(g, x, d);
    forall y | y in s.gray ensures Reach(g, y, d) {
      assert s.stack[|s0.stack|] == x;
      if y != x {
        assert y in s0.gray && OnStack(s0, y);
      }
      assert Reach(g, y, x);
      ReachTrans(g, y, x, d);
    }
  }

  lemma ExtendsTrans(s: Snap, t: Snap, u: Snap)
    requires Extends(s, t) && Extends(t, u)
    ensures Extends(s, u)
  {
    assert forall v :: OnStack(u, v) && v in s.indices ==> v in t.indices;
  }

  lemma LowAfterRecursion(g: Graph, x: Node, s: Snap, low: nat, d: Node, t: Snap, lowD: nat)
    requires Shape(s) && LowIsReached(g, s, x, low) && d in Succ(g, x)
    requires Visited(g, s, d, t, lowD)
    requires d !in s.indices
    ensures LowIsReached(g, t, x, Min(low, lowD))
  {
    hide Reach;
    if lowD < low {
      assert OnStack(t, d) by { assert low < s.next <= t.indices[d]; }
      var y :| OnStack(t, y) && t.indices[y] == lowD && Reach(g, d, y);
      ReachEdge(g, x, d);
      ReachTrans(g, x, d, y);
    } else {
      var y :| OnStack(s, y) && s.indices[y] == low && Reach(g, x, y);
      assert OnStack(t, y);
    }
  }

  lemma LowBoundsAfterRecursion(g: Graph, s0: Snap, x: Node, s: Snap, low: nat, t: Snap, lowD: nat)
    requires Shape(s) && Shape(t) && Extends(s0, s) && Extends(s, t)
    requires LowBounds(g, s0, s, low, {x}) && LowBounds(g, s, t, lowD, {})
    ensures LowBounds(g, s0, t, Min(low, lowD), {x})
  {
    assert s0.stack <= s.stack;
    forall u, w | OnStack(t, u) && !OnStack(s0, u) && u !in {x} && w in Succ(g, u) && OnStack(s0, w) && OnStack(t, w)
      ensures Min(low, lowD) <= t.indices[w]
    {
      assert OnStack(s, w);
      if OnStack(s, u) {
        assert low <= s.indices[w];
      }
    }
  }

  ghost predicate DependenciesBounded(g: Graph, x: Node, s: Snap, low: nat, i: nat) {
    && i <= |Succ(g, x)|
    && (forall j :: 0 <= j < i ==> Succ(g, x)[j] in s.indices)
    && (forall j :: 0 <= j < i && OnStack(s, Succ(g, x)[j]) ==> low <= s.indices[Succ(g, x)[j]])
  }

  lemma BoundedAfterRecursion(g: Graph, x: Node, s: Snap, low: nat, i: nat, d: Node, t: Snap, lowD: nat)
    requires DependenciesBounded(g, x, s, low, i) && Extends(s, t)
    requires i < |Succ(g, x)| && d == Succ(g, x)[i] && d in t.indices && lowD <= t.indices[d]
    ensures DependenciesBounded(g, x, t, Min(low, lowD), i + 1)
  {
    forall j | 0 <= j < i + 1 && OnStack(t, Succ(g, x)[j])
      ensures Min(low, lowD) <= t.indices[Succ(g, x)[j]]
    {
      if j < i { assert OnStack(s, Succ(g, x)[j]); }
    }
  }

  /** A dependency visited recursively. */
  lemma StepVisited(g: Graph, s0: Snap, x: Node, s: Snap, low: nat, i: nat, d: Node, t: Snap, lowD: nat)
    requires Visiting(g, s0, x, s, low, i) && i < |Succ(g, x)| && d == Succ(g, x)[i] && d !in s.indices
    requires Visited(g, s, d, t, lowD)
    ensures Visiting(g, s0, x, t, Min(low, lowD), i + 1)
  {
    hide Reach, LowBounds, DependenciesBounded, LowIsReached, DoneIsClosed, FinishedSeesVisited, GrayReachesAbove,
      StackReachesGray;
    ExtendsTrans(s0, s, t);
    LowAfterRecursion(g, x, s, low, d, t, lowD);
    LowBoundsAfterRecursion(g, s0, x, s, low, t, lowD);
    BoundedAfterRecursion(g, x, s, low, i, d, t, lowD);
    assert s0.stack + [x] <= t.stack;
  }

  /* ---------- Leaving a visit ---------- */

  /** All dependencies of `x` are visited and every one on the stack bounds the low link. */
  lemma LowBoundsAll(g: Graph, s0: Snap, x: Node, s: Snap, low: nat)
    requires Visiting(g, s0, x, s, low, |Succ(g, x)|)
    ensures LowBounds(g, s0, s, low, {})
  {
    forall u, w | OnStack(s, u) && !OnStack(s0, u) && w in Succ(g, u) && OnStack(s0, w) && OnStack(s, w)
      ensures low <= s.indices[w]
    {
      if u == x {
        var j :| 0 <= j < |Succ(g, x)| && Succ(g, x)[j] == w;
      } else {
        assert u !in {x};
      }
    }
  }

  lemma KeepReachesGray(g: Graph, s0: Snap, x: Node, s: Snap, low: nat, y: Node)
    requires Visiting(g, s0, x, s, low, |Succ(g, x)|) && low < s.indices[x] && OnStack(s, y)
    ensures ReachesGray(g, s.(gray := s0.gray), y)
  {
    hide Reach, LowBounds, DependenciesBounded, DoneIsClosed, FinishedSeesVisited, GrayReachesAbove, Extends;
    var t := s.(gray := s0.gray);
    assert ReachesGray(g, s, y);
    var z :| BackTo(g, s, y, z);
    if z == x {
      var l :| OnStack(s, l) && s.indices[l] == low && Reach(g, x, l);
      assert ReachesGray(g, s, l);
      var z' :| BackTo(g, s, l, z');
      ReachTrans(g, y, x, l);
      ReachTrans(g, y, l, z');
      assert BackTo(g, t, y, z');
    } else {
      assert BackTo(g, t, y, z);
    }
  }

  lemma LeaveKeepsFinished(g: Graph, x: Node, s: Snap, t: Snap, low: nat)
    requires FinishedSeesVisited(g, s) && t.indices == s.indices && s.gray == t.gray + {x}
    requires DependenciesBounded(g, x, s, low, |Succ(g, x)|)
    ensures FinishedSeesVisited(g, t)
  {
    forall v, w | v in t.indices && v !in t.gray && w in Succ(g, v) ensures w in t.indices {
      if v == x { var j :| 0 <= j < |Succ(g, x)| && Succ(g, x)[j] == w; }
    }
  }

  lemma SameStackSameDone(g: Graph, s: Snap, t: Snap)
    requires t.indices == s.indices && t.stack == s.stack
    ensures forall v {:trigger Done(s, v)} {:trigger Done(t, v)} :: Done(s, v) <==> Done(t, v)
    ensures DoneIsClosed(g, s) ==> DoneIsClosed(g, t)
  {
  }

  lemma KeepInv(g: Graph, s0: Snap, x: Node, s: Snap, low: nat)
    requires Visiting(g, s0, x, s, low, |Succ(g, x)|) && low < s.indices[x]
    ensures Inv(g, s.(gray := s0.gray))
  {
    hide Reach, FinishedSeesVisited, DoneIsClosed, DependenciesBounded, LowBounds;
    var t := s.(gray := s0.gray);
    LeaveKeepsFinished(g, x, s, t, low);
    SameStackSameDone(g, s, t);
    assert Shape(t);
    forall v | OnStack(t, v) ensures ReachesGray(g, t, v) {
      KeepReachesGray(g, s0, x, s, low, v);
    }
  }

  /** The component of `x` is not complete: everything above `x` stays on the stack. */
  lemma Keep(g: Graph, s0: Snap, x: Node, s: Snap, low: nat)
    requires Visiting(g, s0, x, s, low, |Succ(g, x)|) && low < s.indices[x]
    ensures Visited(g, s0, x, s.(gray := s0.gray), low)
    ensures forall v {:trigger Done(s, v)} {:trigger Done(s.(gray := s0.gray), v)} :: Done(s, v) <==>
      Done(s.(gray := s0.gray), v)
  {
    hide Reach;
    var t := s.(gray := s0.gray);
    KeepInv(g, s0, x, s, low);
    SameStackSameDone(g, s, t);
    LowBoundsAll(g, s0, x, s, low);
    assert OnStack(t, x) by { assert s.stack[|s0.stack|] == x; }
    var l :| OnStack(s, l) && s.indices[l] == low && Reach(g, x, l);
    assert OnStack(t, l) && t.indices[l] == low;
  }

  /** The part of the stack from `x` upwards. */
  ghost function Top(s0: Snap, s: Snap): set<Node>
    requires s0.stack <= s.stack
  {
    Elements(s.stack[|s0.stack|..])
  }

  lemma InTop(s0: Snap, s: Snap, v: Node)
    requires s0.stack <= s.stack && Shape(s)
    ensures v in Top(s0, s) <==> OnStack(s, v) && !OnStack(s0, v)
  {
    var k := |s0.stack|;
    assert s.stack == s.stack[..k] + s.stack[k..] && s.stack[..k] == s0.stack;
  }

  /** When `x` is its own low link, dependencies lead from its part of the stack to popped files or back. */
  lemma TopIsClosed(g: Graph, s0: Snap, x: Node, s: Snap, v: Node, w: Node)
    requires Visiting(g, s0, x, s, s0.next, |Succ(g, x)|)
    requires v in Top(s0, s) || Done(s, v)
    requires w in Succ(g, v)
    ensures w in Top(s0, s) || Done(s, w)
  {
    hide Reach;
    InTop(s0, s, v);
    InTop(s0, s, w);
    if v in Top(s0, s) {
      LowBoundsAll(g, s0, x, s, s0.next);
      assert v !in s.gray || v == x;
      if v == x { var j :| 0 <= j < |Succ(g, x)| && Succ(g, x)[j] == w; }
      assert w in s.indices;
    }
  }

  /** Everything in the part of the stack from `x` upwards reaches `x` and is reached from it. */
  lemma TopMutual(g: Graph, s0: Snap, x: Node, s: Snap, v: Node)
    requires Visiting(g, s0, x, s, s0.next, |Succ(g, x)|) && v in Top(s0, s)
    ensures Reach(g, x, v) && Reach(g, v, x)
  {
    hide Reach;
    InTop(s0, s, v);
    assert s.stack[|s0.stack|] == x;
    var j :| |s0.stack| <= j < |s.stack| && s.stack[j] == v;
    assert s.indices[x] <= s.indices[v];
    assert ReachesGray(g, s, v);
    var z :| BackTo(g, s, v, z);
    var d := Top(s0, s) + set u | u in s.indices && Done(s, u);
    forall a, b | a in d && b in Succ(g, a) ensures b in d {
      TopIsClosed(g, s0, x, s, a, b);
    }
    ClosedTrapsPath(g, d, v, z);
    InTop(s0, s, z);
  }

  /** The popped part of the stack is a strongly connected component. */
  lemma TopIsComponent(g: Graph, s0: Snap, x: Node, s: Snap)
    requires Visiting(g, s0, x, s, s0.next, |Succ(g, x)|)
    ensures x in Top(s0, s) && IsComponent(g, Top(s0, s))
  {
    hide Reach;
    var c := Top(s0, s);
    assert x in c by { assert s.stack[|s0.stack|..][0] == x; }
    var d := c + set u | u in s.indices && Done(s, u);
    forall a, b | a in d && b in Succ(g, a) ensures b in d {
      TopIsClosed(g, s0, x, s, a, b);
    }
    forall u, v | u in c ensures v in c <==> Reach(g, u, v) && Reach(g, v, u) {
      TopMutual(g, s0, x, s, u);
      if v in c {
        TopMutual(g, s0, x, s, v);
        ReachTrans(g, u, x, v);
        ReachTrans(g, v, x, u);
      } else if Reach(g, u, v) && Reach(g, v, u) {
        ClosedTrapsPath(g, d, u, v);
        var e := set a | a in s.indices && Done(s, a);
        assert forall a, b :: a in e && b in Succ(g, a) ==> b in e;
        ClosedTrapsPath(g, e, v, u);
        InTop(s0, s, u);
        assert false;
      }
    }
  }

  lemma CloseInv(g: Graph, s0: Snap, x: Node, s: Snap)
    requires Visiting(g, s0, x, s, s0.next, |Succ(g, x)|)
    ensures Inv(g, s.(stack := s0.stack, gray := s0.gray))
  {
    hide Reach, FinishedSeesVisited, DoneIsClosed, StackReachesGray, LowBounds, LowIsReached, DependenciesBounded;
    var t := s.(stack := s0.stack, gray := s0.gray);
    CloseShape(g, s0, x, s);
    LeaveKeepsFinished(g, x, s, t, s0.next);
    CloseKeepsClosed(g, s0, x, s);
    CloseKeepsStackReaches(g, s0, x, s);
  }

  lemma CloseShape(g: Graph, s0: Snap, x: Node, s: Snap)
    requires Visiting(g, s0, x, s, s0.next, |Succ(g, x)|)
    ensures var t := s.(stack := s0.stack, gray := s0.gray); Shape(t) && forall v :: OnStack(t, v) ==> OnStack(s, v)
  {
    hide Reach, FinishedSeesVisited, DoneIsClosed, StackReachesGray, GrayReachesAbove, LowBounds, LowIsReached,
      DependenciesBounded;
    var t := s.(stack := s0.stack, gray := s0.gray);
    assert forall i :: 0 <= i < |t.stack| ==> t.stack[i] == s.stack[i];
  }

  lemma CloseKeepsClosed(g: Graph, s0: Snap, x: Node, s: Snap)
    requires Visiting(g, s0, x, s, s0.next, |Succ(g, x)|)
    ensures DoneIsClosed(g, s.(stack := s0.stack, gray := s0.gray))
  {
    hide Inv, Reach, LowBounds, LowIsReached, DependenciesBounded;
    var t := s.(stack := s0.stack, gray := s0.gray);
    CloseShape(g, s0, x, s);
    assert Shape(s) by { VisitingShape(g, s0, x, s, s0.next, |Succ(g, x)|); }
    hide Shape;
    forall v, w | Done(t, v) && w in Succ(g, v) ensures Done(t, w) {
      InTop(s0, s, v);
      InTop(s0, s, w);
      TopIsClosed(g, s0, x, s, v, w);
    }
  }

  lemma VisitingShape(g: Graph, s0: Snap, x: Node, s: Snap, low: nat, i: nat)
    requires Visiting(g, s0, x, s, low, i)
    ensures Shape(s) && StackReachesGray(g, s)
  {
    hide Reach, Shape, StackReachesGray, LowBounds, LowIsReached, DependenciesBounded;
  }

  lemma CloseKeepsStackReaches(g: Graph, s0: Snap, x: Node, s: Snap)
    requires Visiting(g, s0, x, s, s0.next, |Succ(g, x)|)
    ensures StackReachesGray(g, s.(stack := s0.stack, gray := s0.gray))
  {
    hide Reach, FinishedSeesVisited, DoneIsClosed, GrayReachesAbove, LowBounds, LowIsReached, DependenciesBounded;
    var t := s.(stack := s0.stack, gray := s0.gray);
    CloseShape(g, s0, x, s);
    assert s.stack[|s0.stack|] == x;
    forall y | OnStack(t, y) ensures ReachesGray(g, t, y) {
      assert ReachesGray(g, s, y);
      var z :| BackTo(g, s, y, z);
      assert z != x;
      assert BackTo(g, t, y, z);
    }
  }

  /** The component of `x` is complete: it leaves the stack. */
  lemma Close(g: Graph, s0: Snap, x: Node, s: Snap)
    requires Visiting(g, s0, x, s, s0.next, |Succ(g, x)|)
    ensures Visited(g, s0, x, s.(stack := s0.stack, gray := s0.gray), s0.next)
  {
    hide Reach;
    CloseInv(g, s0, x, s);
    assert !OnStack(s0, x);
  }

  /* ---------- The report ---------- */

  ghost predicate Listed(cycles: seq<seq<Node>>, c: set<Node>) {
    exists i :: 0 <= i < |cycles| && Elements(cycles[i]) == c
  }

  ghost predicate AllDone(s: Snap, c: set<Node>) {
    forall v :: v in c ==> Done(s, v)
  }

  /** One reported list: a cyclic component in alphabetical order, without repetition. */
  ghost predicate GoodEntry(g: Graph, entry: seq<Node>) {
    Distinct(entry) && Alphabetical(entry) && IsCyclicComponent(g, Elements(entry))
  }

  /** The lists are the cyclic components among the popped files, each once. */
  ghost predicate Reported(g: Graph, s: Snap, cycles: seq<seq<Node>>) {
    && (forall i :: 0 <= i < |cycles| ==> GoodEntry(g, cycles[i]) && AllDone(s, Elements(cycles[i])))
    && (forall c :: IsCyclicComponent(g, c) && AllDone(s, c) ==> Listed(cycles, c))
    && (forall i, j :: 0 <= i < j < |cycles| ==> Elements(cycles[i]) !! Elements(cycles[j]))
  }

  lemma ReportedSameDone(g: Graph, s: Snap, t: Snap, cycles: seq<seq<Node>>)
    requires Reported(g, s, cycles)
    requires forall v {:trigger Done(s, v)} {:trigger Done(t, v)} :: Done(s, v) <==> Done(t, v)
    ensures Reported(g, t, cycles)
  {
    assert forall c {:trigger AllDone(s, c)} {:trigger AllDone(t, c)} :: AllDone(s, c) <==> AllDone(t, c);
  }

  lemma PushSameDone(s0: Snap, x: Node)
    requires x !in s0.indices
    ensures forall v {:trigger Done(s0, v)} {:trigger Done(Push(s0, x), v)} :: Done(s0, v) <==> Done(Push(s0, x), v)
  {
    var s := Push(s0, x);
    assert forall v :: OnStack(s, v) <==> OnStack(s0, v) || v == x;
  }

  function Report(g: Graph, x: Node, component: seq<Node>, cycles: seq<seq<Node>>): seq<seq<Node>> {
    if |component| > 1 || x in Succ(g, x) then cycles + [SortedEntry(component)] else cycles
  }

  /** The reported form of a component: sorted by name. */
  function SortedEntry(component: seq<Node>): seq<Node> {
    SortBy(component, LexLeq)
  }

  lemma SortedEntryIsSorted(component: seq<Node>)
    requires Distinct(component)
    ensures Distinct(SortedEntry(component)) && Alphabetical(SortedEntry(component))
    ensures Elements(SortedEntry(component)) == Elements(component)
  {
    LexLeqIsTotalPreorder();
    SortBySorted(component, LexLeq);
    SortByMembers(component, LexLeq);
    SortByDistinct(component, LexLeq);
    SortedIsAlphabetical(SortedEntry(component));
  }

  /** The detector's test of a popped component. */
  lemma CyclicTest(g: Graph, x: Node, component: seq<Node>)
    requires Distinct(component) && x in component && IsComponent(g, Elements(component))
    ensures IsCyclicComponent(g, Elements(component)) <==> |component| > 1 || x in Succ(g, x)
  {
    var c := Elements(component);
    DistinctCard(component);
    if |component| == 1 {
      assert c == {x} by { assert |c - {x}| == 0; }
    }
  }

  /** After a component is popped every finished cyclic component is listed. */
  lemma ListGrows(g: Graph, s: Snap, t: Snap, component: seq<Node>, cycles: seq<seq<Node>>, cycles': seq<seq<Node>>,
      e: set<Node>)
    requires Reported(g, s, cycles) && IsComponent(g, Elements(component))
    requires forall v :: Done(t, v) ==> Done(s, v) || v in Elements(component)
    requires cycles' == cycles || cycles' == cycles + [SortedEntry(component)]
    requires IsCyclicComponent(g, Elements(component)) ==>
      cycles' != cycles && Elements(SortedEntry(component)) == Elements(component)
    requires IsCyclicComponent(g, e) && AllDone(t, e)
    ensures Listed(cycles', e)
  {
    hide IsComponent, Done;
    if e !! Elements(component) {
      assert AllDone(s, e);
      assert Listed(cycles, e);
      var i :| 0 <= i < |cycles| && Elements(cycles[i]) == e;
      assert cycles'[i] == cycles[i];
    } else {
      var v :| v in e && v in Elements(component);
      ComponentsDisjointOrEqual(g, e, Elements(component), v);
      assert Elements(cycles'[|cycles|]) == e;
    }
  }

  lemma EntriesStay(s: Snap, t: Snap, c: set<Node>, cycles: seq<seq<Node>>)
    requires forall i :: 0 <= i < |cycles| ==> AllDone(s, Elements(cycles[i]))
    requires forall v :: Done(t, v) <==> Done(s, v) || v in c
    requires forall v :: v in c ==> !Done(s, v)
    ensures forall i :: 0 <= i < |cycles| ==> AllDone(t, Elements(cycles[i])) && Elements(cycles[i]) !! c
    ensures AllDone(t, c)
  {
    hide Done;
    forall i | 0 <= i < |cycles| ensures AllDone(t, Elements(cycles[i])) && Elements(cycles[i]) !! c {
      assert AllDone(s, Elements(cycles[i]));
    }
  }

  /** Popping a component extends the report by it exactly when it is cyclic. */
  lemma ReportGrows(g: Graph, s: Snap, t: Snap, x: Node, component: seq<Node>, cycles: seq<seq<Node>>)
    requires Reported(g, s, cycles)
    requires Distinct(component) && x in component && IsComponent(g, Elements(component))
    requires forall v :: Done(t, v) <==> Done(s, v) || v in Elements(component)
    requires forall v :: v in Elements(component) ==> !Done(s, v)
    ensures Reported(g, t, Report(g, x, component, cycles))
  {
    hide IsCyclicComponent, IsComponent, AllDone, Listed, GoodEntry, Elements, Distinct, Done;
    var cycles', entry := Report(g, x, component, cycles), SortedEntry(component);
    CyclicTest(g, x, component);
    NewEntry(g, component);
    EntriesStay(s, t, Elements(component), cycles);
    assert cycles' == cycles || cycles' == cycles + [entry];
    forall i | 0 <= i < |cycles'| ensures GoodEntry(g, cycles'[i]) && AllDone(t, Elements(cycles'[i])) {
      assert i < |cycles| ==> cycles'[i] == cycles[i];
    }
    forall i, j | 0 <= i < j < |cycles'| ensures Elements(cycles'[i]) !! Elements(cycles'[j]) {
      assert i < |cycles| && cycles'[i] == cycles[i];
      assert j < |cycles| ==> cycles'[j] == cycles[j];
    }
    forall e | IsCyclicComponent(g, e) && AllDone(t, e) ensures Listed(cycles', e) {
      ListGrows(g, s, t, component, cycles, cycles', e);
    }
  }

  lemma NewEntry(g: Graph, component: seq<Node>)
    requires Distinct(component)
    ensures Elements(SortedEntry(component)) == Elements(component)
    ensures IsCyclicComponent(g, Elements(component)) ==> GoodEntry(g, SortedEntry(component))
  {
    SortedEntryIsSorted(component);
  }

  /** What the report needs to know about the popped part of the stack. */
  lemma Popped(g: Graph, s0: Snap, x: Node, s: Snap, t: Snap)
    requires Visiting(g, s0, x, s, s0.next, |Succ(g, x)|) && t == s.(stack := s0.stack, gray := s0.gray)
    ensures Distinct(s.stack) && s0.stack <= s.stack && |s0.stack| < |s.stack| && s.stack[|s0.stack|] == x
    ensures x in Top(s0, s) && IsComponent(g, Top(s0, s))
    ensures forall v :: Done(t, v) <==> Done(s, v) || v in Top(s0, s)
    ensures forall v :: v in Top(s0, s) ==> !Done(s, v)
  {
    TopIsComponent(g, s0, x, s);
    forall v ensures Done(t, v) <==> Done(s, v) || v in Top(s0, s)
      ensures v in Top(s0, s) ==> !Done(s, v)
    {
      InTop(s0, s, v);
      assert OnStack(s0, v) ==> OnStack(s, v);
    }
  }

  /* ---------- The search itself ---------- */

  class Search {
    const graph: Graph
    var nextIndex: nat
    var indices: map<Node, nat>
    var lowLinks: map<Node, nat>
    var stack: seq<Node>
    var onStack: set<Node>
    var cycles: seq<seq<Node>>
    ghost var gray: set<Node>

    constructor (graph: Graph)
      ensures this.graph == graph && Inv(graph, Now()) && Books() && Now() == Snap(0, map[], [], {}) && cycles == []
    {
      this.graph := graph;
      nextIndex, indices, lowLinks, stack, onStack, cycles, gray := 0, map[], map[], [], {}, [], {};
      new;
      forall c | IsCyclicComponent(graph, c) ensures !AllDone(Now(), c) {
        var v :| v in c;
        assert !Done(Now(), v);
      }
    }

    ghost function Now(): Snap
      reads this
    {
      Snap(nextIndex, indices, stack, gray)
    }

    /** The bookkeeping beside the invariant of the search. */
    ghost predicate Books()
      reads this
    {
      && Reported(graph, Now(), cycles)
      && onStack == Elements(stack)
      && lowLinks.Keys == indices.Keys
    }

    method Visit(node: Node, ghost vertices: set<Node>)
      requires Inv(graph, Now()) && Books() && node !in indices
      requires forall v :: v in gray ==> Reach(graph, v, node)
      requires node in vertices && forall v, w :: v in vertices && w in Succ(graph, v) ==> w in vertices
      modifies this
      ensures Books() && node in indices && Visited(graph, old(Now()), node, Now(), lowLinks[node])
      ensures forall v :: v in old(lowLinks) ==> v in lowLinks && lowLinks[v] == old(lowLinks[v])
      decreases vertices - indices.Keys, 1
    {
      hide Inv, LowBounds, LowIsReached, Reported, Reach, DependenciesBounded, Shape, Visiting, Visited, Succ;
      ghost var s0 := Now();
      Enter(graph, s0, node);
      Open(node);
      var dependencies := Succ(graph, node);
      var i := 0;
      while i < |dependencies|
        invariant 0 <= i <= |dependencies|
        invariant Books() && node in lowLinks && Visiting(graph, s0, node, Now(), lowLinks[node], i)
        invariant forall v :: v in old(lowLinks) ==> v in lowLinks && lowLinks[v] == old(lowLinks[v])
      {
        IndexedSoFar(graph, s0, node, Now(), lowLinks[node], i);
        Consider(node, i, dependencies[i], s0, vertices);
        i := i + 1;
      }
      Leave(node, s0);
    }

    /** Gives the file its index and puts it on the stack. */
    method Open(node: Node)
      requires Books() && node !in indices
      modifies this
      ensures Books() && Now() == Push(old(Now()), node)
      ensures lowLinks == old(lowLinks)[node := old(nextIndex)]
    {
      hide Reported;
      ghost var s0 := Now();
      var nodeIndex := nextIndex;
      nextIndex := nextIndex + 1;
      indices := indices[node := nodeIndex];
      lowLinks := lowLinks[node := nodeIndex];
      stack := stack + [node];
      onStack := onStack + {node};
      gray := gray + {node};
      PushSameDone(s0, node);
      ReportedSameDone(graph, s0, Push(s0, node), cycles);
    }

    /** The body of the loop over the dependencies. */
    method Consider(node: Node, ghost i: nat, dependency: Node, ghost s0: Snap, ghost vertices: set<Node>)
      requires Books() && node in lowLinks && Visiting(graph, s0, node, Now(), lowLinks[node], i)
      requires i < |Succ(graph, node)| && Succ(graph, node)[i] == dependency
      requires node in vertices && forall v, w :: v in vertices && w in Succ(graph, v) ==> w in vertices
      modifies this
      ensures Books() && node in lowLinks && Visiting(graph, s0, node, Now(), lowLinks[node], i + 1)
      ensures forall v :: v in old(lowLinks) && v != node ==> v in lowLinks && lowLinks[v] == old(lowLinks[v])
      decreases vertices - indices.Keys, 2
    {
      hide Inv, LowBounds, LowIsReached, Reported, Reach, DependenciesBounded, Shape;
      ghost var s, low := Now(), lowLinks[node];
      if dependency !in indices {
        GrayReachesDependency(graph, s0, node, s, low, i);
        Visit(dependency, vertices);
        ghost var lowD := lowLinks[dependency];
        lowLinks := lowLinks[node := Min(lowLinks[node], lowLinks[dependency])];
        StepVisited(graph, s0, node, s, low, i, dependency, Now(), lowD);
      } else {
        if dependency in onStack {
          lowLinks := lowLinks[node := Min(lowLinks[node], indices[dependency])];
        }
        StepKnown(graph, s0, node, s, low, i, dependency, lowLinks[node]);
      }
    }

    /** After the loop: pops and reports the component of `node` if `node` is its own low link. */
    method Leave(node: Node, ghost s0: Snap)
      requires Books() && node in lowLinks
      requires Visiting(graph, s0, node, Now(), lowLinks[node], |Succ(graph, node)|)
      modifies this
      ensures Books() && node in indices && Visited(graph, s0, node, Now(), lowLinks[node])
      ensures lowLinks == old(lowLinks)
    {
      hide Inv, LowBounds, LowIsReached, Reported, IsComponent, Reach, Done, Distinct, Extends;
      ghost var s := Now();
      gray := s0.gray;
      if lowLinks[node] != indices[node] {
        Keep(graph, s0, node, s, lowLinks[node]);
        ReportedSameDone(graph, s, Now(), cycles);
        return;
      }
      ghost var t, reported := s.(stack := s0.stack, gray := s0.gray), cycles;
      Close(graph, s0, node, s);
      Popped(graph, s0, node, s, t);
      var component := PopComponent(node, |s0.stack|);
      ReportGrows(graph, s, t, node, component, cycles);
      if |component| > 1 || node in Succ(graph, node) {
        cycles := cycles + [SortedEntry(component)];
      }
      assert Now() == t && cycles == Report(graph, node, component, reported);
    }

    /** Pops the stack down to and including `node`, which sits at `base`. */
    method PopComponent(node: Node, ghost base: nat) returns (component: seq<Node>)
      requires Distinct(stack) && onStack == Elements(stack)
      requires base < |stack| && stack[base] == node
      modifies this`stack, this`onStack
      ensures stack == old(stack)[..base] && onStack == Elements(stack)
      ensures Distinct(component) && Elements(component) == Elements(old(stack)[base..])
    {
      component := [];
      ghost var full, k := stack, |stack|;
      while true
        invariant base < k <= |full| && stack == full[..k] && onStack == Elements(stack)
        invariant |component| == |full| - k
        invariant forall i :: 0 <= i < |component| ==> component[i] == full[|full| - 1 - i]
        decreases k
      {
        var current := stack[|stack| - 1];
        stack := stack[..|stack| - 1];
        k := k - 1;
        assert full[..k + 1] == full[..k] + [current] && current !in full[..k];
        onStack := onStack - {current};
        component := component + [current];
        if current == node { break; }
      }
      SameElements(full, base, component);
    }
  }

  function Min(a: nat, b: nat): nat {
    if b < a then b else a
  }

  /** A popped part of the stack, read from the top. */
  lemma SameElements(full: seq<Node>, base: nat, component: seq<Node>)
    requires base <= |full| && |component| == |full| - base
    requires forall i :: 0 <= i < |component| ==> component[i] == full[|full| - 1 - i]
    ensures Elements(component) == Elements(full[base..])
  {
    forall v ensures v in component <==> v in full[base..] {
      if v in component {
        var i :| 0 <= i < |component| && component[i] == v;
        assert full[base..][|full| - 1 - i - base] == v;
      }
      if v in full[base..] {
        var i :| 0 <= i < |full| - base && full[base..][i] == v;
        assert component[|full| - 1 - base - i] == v;
      }
    }
  }

  /* ---------- The gate ---------- */

  lemma VerticesClosed(g: Graph)
    ensures forall v, w :: v in Vertices(g) && w in Succ(g, v) ==> w in Vertices(g)
  {
  }

  lemma ReachFirstStep(g: Graph, v: Node, u: Node) returns (w: Node)
    requires Reach(g, v, u) && v != u
    ensures w in Succ(g, v) && Reach(g, w, u)
  {
    var p :| PathBetween(g, p, v, u);
    w := p[1];
    assert PathBetween(g, p[1..], w, u);
  }

  lemma AnotherMember(c: set<Node>, v: Node) returns (u: Node)
    requires v in c && |c| > 1
    ensures u in c && u != v
  {
    assert |c - {v}| > 0;
    u :| u in c - {v};
  }

  lemma OnlyMember(c: set<Node>, v: Node, u: Node)
    requires v in c && u in c && |c| <= 1
    ensures u == v
  {
    assert |c - {v}| == 0;
  }

  /** Only files with dependencies lie on cycles. */
  lemma CyclicComponentsAreFiles(g: Graph, c: set<Node>, v: Node)
    requires IsCyclicComponent(g, c) && v in c
    ensures v in g
  {
    if |c| > 1 {
      var u := AnotherMember(c, v);
      var w := ReachFirstStep(g, v, u);
    } else {
      var u :| u in c && u in Succ(g, u);
      OnlyMember(c, v, u);
    }
  }

  /** A graph has a directed cycle exactly when it has a cyclic component. */
  lemma CycleIffComponent(g: Graph)
    ensures HasCycle(g) <==> exists c :: IsCyclicComponent(g, c)
  {
    if HasCycle(g) {
      var v, w :| w in Succ(g, v) && Reach(g, w, v);
      var c := set u | u in Vertices(g) && Reach(g, v, u) && Reach(g, u, v);
      CycleClass(g, v, w, c);
    }
    if c :| IsCyclicComponent(g, c) {
      var v :| v in c;
      if v in Succ(g, v) {
        ReachSelf(g, v);
      } else {
        ComponentHasCycle(g, c, v);
      }
    }
  }

  lemma CycleClass(g: Graph, v: Node, w: Node, c: set<Node>)
    requires w in Succ(g, v) && Reach(g, w, v)
    requires c == set u | u in Vertices(g) && Reach(g, v, u) && Reach(g, u, v)
    ensures IsCyclicComponent(g, c)
  {
    VerticesClosed(g);
    ReachSelf(g, v);
    ReachEdge(g, v, w);
    assert v in Vertices(g);
    assert v in c && w in c;
    assert w != v ==> |c| > 1 by { if w != v { assert |c - {v}| > 0; } }
    forall x, y | x in c ensures y in c <==> Reach(g, x, y) && Reach(g, y, x) {
      if y in c {
        ReachTrans(g, x, v, y);
        ReachTrans(g, y, v, x);
      } else if Reach(g, x, y) && Reach(g, y, x) {
        ReachTrans(g, v, x, y);
        ReachTrans(g, y, x, v);
        ClosedTrapsPath(g, Vertices(g), v, y);
        assert false;
      }
    }
  }

  lemma ComponentHasCycle(g: Graph, c: set<Node>, v: Node)
    requires IsCyclicComponent(g, c) && v in c
    ensures HasCycle(g)
  {
    if u :| u in c && u in Succ(g, u) {
      ReachSelf(g, u);
    } else {
      var u := AnotherMember(c, v);
      var w := ReachFirstStep(g, v, u);
      ReachTrans(g, w, u, v);
    }
  }

  /** The files are given in the order in which the import graph was built. */
  method CyclicComponents(graph: Graph, files: seq<Node>) returns (cycles: seq<seq<Node>>)
    requires forall v :: v in files <==> v in graph
    ensures forall i :: 0 <= i < |cycles| ==> GoodEntry(graph, cycles[i])
    ensures forall c :: IsCyclicComponent(graph, c) ==> Listed(cycles, c)
    ensures forall i, j :: 0 <= i < j < |cycles| ==> Elements(cycles[i]) !! Elements(cycles[j])
    ensures cycles == [] <==> !HasCycle(graph)
  {
    hide Inv, Reported, GoodEntry, IsCyclicComponent, HasCycle, LowBounds, LowIsReached, Shape;
    var search := new Search(graph);
    VerticesClosed(graph);
    var i := 0;
    while i < |files|
      invariant 0 <= i <= |files|
      invariant search.graph == graph && Inv(graph, search.Now()) && search.Books() && search.gray == {}
      invariant forall j :: 0 <= j < i ==> files[j] in search.indices
    {
      if files[i] !in search.indices {
        search.Visit(files[i], Vertices(graph));
      }
      i := i + 1;
    }
    cycles := search.cycles;
    FinalReport(graph, search.Now(), cycles);
  }

  /** With no visit under way every file is finished, so the report is complete. */
  lemma FinalReport(g: Graph, s: Snap, cycles: seq<seq<Node>>)
    requires Inv(g, s) && Reported(g, s, cycles) && s.gray == {} && forall v :: v in g ==> v in s.indices
    ensures forall i :: 0 <= i < |cycles| ==> GoodEntry(g, cycles[i])
    ensures forall c :: IsCyclicComponent(g, c) ==> Listed(cycles, c)
    ensures forall i, j :: 0 <= i < j < |cycles| ==> Elements(cycles[i]) !! Elements(cycles[j])
    ensures cycles == [] <==> !HasCycle(g)
  {
    forall v ensures !OnStack(s, v) {
      assert OnStack(s, v) ==> ReachesGray(g, s, v);
    }
    forall c | IsCyclicComponent(g, c) ensures Listed(cycles, c) {
      forall v | v in c ensures Done(s, v) {
        CyclicComponentsAreFiles(g, c, v);
      }
      assert AllDone(s, c);
    }
    CycleIffComponent(g);
    assert cycles != [] ==> IsCyclicComponent(g, Elements(cycles[0]));
  }
}
