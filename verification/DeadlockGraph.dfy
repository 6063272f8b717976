/** The wait-for graph of deadlock_success.c and graph.c: registered vertices with adjacency
    lists, and the depth-first search that reports a deadlock. */
module DeadlockGraph {

  const MAX := 100

  // ---------------------------------------------------------------- graphs

  /** For each vertex the targets of its outgoing edges, in list order; edges may repeat. */
  type Graph = seq<seq<int>>

  ghost predicate Closed(g: Graph) {
    forall v, p :: 0 <= v < |g| && 0 <= p < |g[v]| ==> 0 <= g[v][p] < |g|
  }

  ghost predicate IsWalk(g: Graph, w: seq<int>) {
    && w != []
    && (forall i :: 0 <= i < |w| ==> 0 <= w[i] < |g|)
    && (forall i :: 0 <= i < |w| - 1 ==> w[i + 1] in g[w[i]])
  }

  ghost predicate WalkBetween(g: Graph, w: seq<int>, a: int, b: int) {
    IsWalk(g, w) && w[0] == a && w[|w| - 1] == b
  }

  ghost predicate Reaches(g: Graph, a: int, b: int) {
    exists w :: WalkBetween(g, w, a, b)
  }

  /** A walk with at least one edge that returns to its start. */
  ghost predicate OnCycle(g: Graph, v: int) {
    exists w :: WalkBetween(g, w, v, v) && |w| > 1
  }

  ghost predicate Acyclic(g: Graph) {
    forall v :: !OnCycle(g, v)
  }

  ghost function Reachable(g: Graph, a: int): set<int> {
    set v | 0 <= v < |g| && Reaches(g, a, v)
  }

  lemma ReachesSelf(g: Graph, a: int)
    requires 0 <= a < |g|
    ensures Reaches(g, a, a)
  {
    assert WalkBetween(g, [a], a, a);
  }

  lemma ReachesNext(g: Graph, a: int, b: int, c: int)
    requires Reaches(g, a, b) && 0 <= b < |g| && c in g[b] && 0 <= c < |g|
    ensures Reaches(g, a, c)
  {
    var w :| WalkBetween(g, w, a, b);
    assert WalkBetween(g, w + [c], a, c);
  }

  lemma ReachesTrans(g: Graph, a: int, b: int, c: int)
    requires Reaches(g, a, b) && Reaches(g, b, c)
    ensures Reaches(g, a, c)
  {
    var v :| WalkBetween(g, v, a, b);
    var w :| WalkBetween(g, w, b, c);
    var u := v + w[1..];
    forall i | 0 <= i < |u| - 1
      ensures u[i + 1] in g[u[i]]
    {
      if i >= |v| - 1 {
        assert u[i] == w[i - (|v| - 1)] && u[i + 1] == w[i + 1 - (|v| - 1)];
      }
    }
    assert WalkBetween(g, u, a, c);
  }

  /** A set that contains a and every successor of its members contains all a reaches. */
  lemma {:induction false} ClosedSetHoldsWalk(g: Graph, s: set<int>, w: seq<int>)
    requires IsWalk(g, w) && w[0] in s
    requires forall v, p :: v in s && 0 <= v < |g| && 0 <= p < |g[v]| ==> g[v][p] in s
    ensures w[|w| - 1] in s
  {
    if |w| > 1 {
      var p :| 0 <= p < |g[w[0]]| && g[w[0]][p] == w[1];
      ClosedSetHoldsWalk(g, s, w[1..]);
    }
  }

  // ---------------------------------------------------------------- what the search decides

  /** The p-th edge of v is among those looked at: all edges of N, but of idx the first m only. */
  ghost predicate Seen(g: Graph, N: set<int>, idx: int, m: int, v: int, p: int) {
    v in N && 0 <= v < |g| && 0 <= p < |g[v]| && (v == idx ==> p < m)
  }

  /** The edges looked at form a tree rooted at idx: each leads to a vertex of its own. */
  ghost predicate TreeSoFar(g: Graph, N: set<int>, idx: int, m: int) {
    && (forall v, p :: Seen(g, N, idx, m, v, p) ==> g[v][p] in N && g[v][p] != idx)
    && (forall v, p, u, q :: Seen(g, N, idx, m, v, p) && Seen(g, N, idx, m, u, q) && g[v][p] == g[u][q]
          ==> v == u && p == q)
  }

  /** Every vertex but the root was entered by one of the edges looked at. */
  ghost predicate Entered(g: Graph, N: set<int>, idx: int, m: int) {
    forall w {:trigger SeenInto(g, N, idx, m, w)} :: w in N && w != idx ==> SeenInto(g, N, idx, m, w)
  }

  ghost predicate SeenInto(g: Graph, N: set<int>, idx: int, m: int, w: int) {
    exists v, p :: Seen(g, N, idx, m, v, p) && g[v][p] == w
  }

  /** What can be reached from j is a tree rooted at j. */
  ghost predicate OutTree(g: Graph, j: int)
    requires 0 <= j < |g|
  {
    TreeSoFar(g, Reachable(g, j), j, |g[j]|)
  }

  /** What a finished search from idx, started with `before` visited, has established. */
  ghost predicate Explored(g: Graph, before: set<int>, after: set<int>, idx: int, flagged: bool) {
    var N := after - before;
    && before <= after && idx in N && 0 <= idx < |g|
    && (forall v :: v in N ==> 0 <= v < |g| && Reaches(g, idx, v))
    && (forall v, p :: v in N && 0 <= v < |g| && 0 <= p < |g[v]| ==> g[v][p] in after)
    && Entered(g, N, idx, |g[idx]|)
    && (flagged <==> !TreeSoFar(g, N, idx, |g[idx]|))
  }

  /** The same, half-way through the edges of idx. */
  ghost predicate Exploring(g: Graph, before: set<int>, after: set<int>, idx: int, m: int, flagged: bool) {
    var N := after - before;
    && before <= after && idx in N && 0 <= idx < |g| && 0 <= m <= |g[idx]|
    && (forall v :: v in N ==> 0 <= v < |g| && Reaches(g, idx, v))
    && (forall v, p :: Seen(g, N, idx, m, v, p) ==> g[v][p] in after)
    && Entered(g, N, idx, m)
    && (flagged <==> !TreeSoFar(g, N, idx, m))
  }

  /** The next edge leads to a visited vertex: the tree is broken. */
  lemma EdgeToVisited(g: Graph, before: set<int>, after: set<int>, idx: int, m: int, flagged: bool)
    requires Closed(g) && Exploring(g, before, after, idx, m, flagged)
    requires m < |g[idx]| && g[idx][m] in after
    ensures Exploring(g, before, after, idx, m + 1, true)
  {
    var N := after - before;
    assert forall v, p :: Seen(g, N, idx, m, v, p) ==> Seen(g, N, idx, m + 1, v, p);
    assert forall v, p :: Seen(g, N, idx, m + 1, v, p) ==> Seen(g, N, idx, m, v, p) || (v == idx && p == m);
    forall x | x in N && x != idx
      ensures SeenInto(g, N, idx, m + 1, x)
    {
      assert SeenInto(g, N, idx, m, x);
    }
    VisitedTwice(g, N, idx, m);
  }

  /** An edge out of the explored part, or one to a vertex that is entered already or the root. */
  lemma VisitedTwice(g: Graph, N: set<int>, idx: int, m: int)
    requires idx in N && 0 <= idx < |g| && 0 <= m < |g[idx]| && Entered(g, N, idx, m)
    ensures !TreeSoFar(g, N, idx, m + 1)
  {
    var w := g[idx][m];
    assert Seen(g, N, idx, m + 1, idx, m);
    if w in N && w != idx {
      assert SeenInto(g, N, idx, m, w);
      var v, p :| Seen(g, N, idx, m, v, p) && g[v][p] == w;
      assert Seen(g, N, idx, m + 1, v, p);
    }
  }

  /** The next edge leads to a new vertex, explored in turn. */
  lemma EdgeToNew(g: Graph, before: set<int>, middle: set<int>, after: set<int>, idx: int, m: int,
                  flagged: bool, flaggedBelow: bool)
    requires Closed(g) && Exploring(g, before, middle, idx, m, flagged)
    requires m < |g[idx]| && g[idx][m] !in middle
    requires Explored(g, middle, after, g[idx][m], flaggedBelow)
    ensures Exploring(g, before, after, idx, m + 1, flagged || flaggedBelow)
  {
    var N, N1, M := after - before, middle - before, after - middle;
    var w := g[idx][m];
    assert N == N1 + M && N1 !! M;
    assert Seen(g, N, idx, m + 1, idx, m);
    forall v | v in M
      ensures Reaches(g, idx, v)
    {
      ReachesSelf(g, idx);
      ReachesNext(g, idx, idx, w);
      ReachesTrans(g, idx, w, v);
    }
    SeenSplits(g, N1, M, idx, m, w);
    EnteredGrows(g, N1, M, idx, m, w);
    if TreeSoFar(g, N, idx, m + 1) {
      TreeRestricts(g, N1, M, idx, m, w);
    }
    if !flagged && !flaggedBelow {
      TreesJoin(g, N1, M, idx, m, w);
    }
  }

  /** The edges looked at after one more edge: the old ones, that edge, and those below it. */
  lemma SeenSplits(g: Graph, N1: set<int>, M: set<int>, idx: int, m: int, w: int)
    requires N1 !! M && idx in N1 && 0 <= idx < |g| && 0 <= m < |g[idx]| && w in M && 0 <= w < |g|
    ensures forall v, p :: Seen(g, N1 + M, idx, m + 1, v, p) <==>
      Seen(g, N1, idx, m, v, p) || (v == idx && p == m) || Seen(g, M, w, |g[w]|, v, p)
  {
  }

  lemma EnteredGrows(g: Graph, N1: set<int>, M: set<int>, idx: int, m: int, w: int)
    requires N1 !! M && idx in N1 && 0 <= idx < |g| && 0 <= m < |g[idx]| && w in M && 0 <= w < |g| && g[idx][m] == w
    requires Entered(g, N1, idx, m) && Entered(g, M, w, |g[w]|)
    ensures Entered(g, N1 + M, idx, m + 1)
  {
    SeenSplits(g, N1, M, idx, m, w);
    forall x | x in N1 + M && x != idx
      ensures SeenInto(g, N1 + M, idx, m + 1, x)
    {
      if x == w {
        assert Seen(g, N1 + M, idx, m + 1, idx, m);
      } else if x in M {
        assert SeenInto(g, M, w, |g[w]|, x);
        var v, p :| Seen(g, M, w, |g[w]|, v, p) && g[v][p] == x;
        assert Seen(g, N1 + M, idx, m + 1, v, p);
      } else {
        assert SeenInto(g, N1, idx, m, x);
        var v, p :| Seen(g, N1, idx, m, v, p) && g[v][p] == x;
        assert Seen(g, N1 + M, idx, m + 1, v, p);
      }
    }
  }

  lemma TreesJoin(g: Graph, N1: set<int>, M: set<int>, idx: int, m: int, w: int)
    requires N1 !! M && idx in N1 && 0 <= idx < |g| && 0 <= m < |g[idx]| && w in M && 0 <= w < |g| && g[idx][m] == w
    requires TreeSoFar(g, N1, idx, m) && TreeSoFar(g, M, w, |g[w]|)
    ensures TreeSoFar(g, N1 + M, idx, m + 1)
  {
    SeenSplits(g, N1, M, idx, m, w);
  }

  /** A tree is a tree in both parts: no edge crosses from one to the other but that to w. */
  lemma TreeRestricts(g: Graph, N1: set<int>, M: set<int>, idx: int, m: int, w: int)
    requires N1 !! M && idx in N1 && 0 <= idx < |g| && 0 <= m < |g[idx]| && w in M && 0 <= w < |g| && g[idx][m] == w
    requires Entered(g, N1, idx, m)
    requires forall v, p :: Seen(g, N1, idx, m, v, p) ==> g[v][p] !in M
    requires TreeSoFar(g, N1 + M, idx, m + 1)
    ensures TreeSoFar(g, N1, idx, m) && TreeSoFar(g, M, w, |g[w]|)
  {
    SeenSplits(g, N1, M, idx, m, w);
    assert Seen(g, N1 + M, idx, m + 1, idx, m);
    forall v, p | Seen(g, N1, idx, m, v, p)
      ensures g[v][p] in N1 && g[v][p] != idx
    {
      assert Seen(g, N1 + M, idx, m + 1, v, p);
    }
    forall x | x in N1 && x != idx
      ensures forall v, p :: Seen(g, N1 + M, idx, m + 1, v, p) && g[v][p] == x ==> v in N1
    {
      assert SeenInto(g, N1, idx, m, x);
      var u, q :| Seen(g, N1, idx, m, u, q) && g[u][q] == x;
      assert Seen(g, N1 + M, idx, m + 1, u, q);
    }
    forall v, p | Seen(g, M, w, |g[w]|, v, p)
      ensures g[v][p] in M && g[v][p] != w
    {
      assert Seen(g, N1 + M, idx, m + 1, v, p);
    }
  }

  // ---------------------------------------------------------------- what the verdict means

  lemma ReachableIsClosed(g: Graph, j: int)
    requires Closed(g) && 0 <= j < |g|
    ensures j in Reachable(g, j)
    ensures forall v, p :: v in Reachable(g, j) && 0 <= p < |g[v]| ==> g[v][p] in Reachable(g, j)
  {
    ReachesSelf(g, j);
    forall v, p | v in Reachable(g, j) && 0 <= p < |g[v]|
      ensures g[v][p] in Reachable(g, j)
    {
      ReachesNext(g, j, v, g[v][p]);
    }
  }

  /** A search from j, with only its predecessor i visited before, decides whether what j reaches
      is a tree. */
  lemma SearchDecides(g: Graph, i: int, after: set<int>, j: int, flagged: bool)
    requires Closed(g) && 0 <= i < |g| && j in g[i] && i != j
    requires Explored(g, {i}, after, j, flagged)
    ensures flagged <==> !OutTree(g, j)
  {
    if OutTree(g, j) {
      OutTreeUnflagged(g, i, after, j, flagged);
    } else if !flagged {
      UnflaggedOutTree(g, i, after, j);
    }
  }

  lemma UnflaggedOutTree(g: Graph, i: int, after: set<int>, j: int)
    requires Closed(g) && Explored(g, {i}, after, j, false)
    ensures OutTree(g, j)
  {
    var N := after - {i};
    ReachableIsClosed(g, j);
    forall v, q | v in N && 0 <= v < |g| && 0 <= q < |g[v]|
      ensures g[v][q] in N
    {
      assert Seen(g, N, j, |g[j]|, v, q);
    }
    forall v | v in Reachable(g, j)
      ensures v in N
    {
      var w :| WalkBetween(g, w, j, v);
      ClosedSetHoldsWalk(g, N, w);
    }
    assert N == Reachable(g, j);
  }

  lemma OutTreeUnflagged(g: Graph, i: int, after: set<int>, j: int, flagged: bool)
    requires Closed(g) && 0 <= i < |g| && j in g[i] && Explored(g, {i}, after, j, flagged)
    requires OutTree(g, j)
    ensures !flagged
  {
    var N, R := after - {i}, Reachable(g, j);
    ReachableIsClosed(g, j);
    var p :| 0 <= p < |g[i]| && g[i][p] == j;
    assert i in R ==> Seen(g, R, j, |g[j]|, i, p);
    assert forall v, q :: Seen(g, N, j, |g[j]|, v, q) ==> Seen(g, R, j, |g[j]|, v, q);
    forall v, q | Seen(g, N, j, |g[j]|, v, q)
      ensures g[v][q] in N && g[v][q] != j
    {
      assert Seen(g, R, j, |g[j]|, v, q);
    }
  }

  lemma SelfLoopIsNoTree(g: Graph, i: int)
    requires Closed(g) && 0 <= i < |g| && i in g[i]
    ensures !OutTree(g, i)
  {
    ReachesSelf(g, i);
    var p :| 0 <= p < |g[i]| && g[i][p] == i;
    assert Seen(g, Reachable(g, i), i, |g[i]|, i, p);
  }

  /** Some edge leads to a vertex from which the graph does not unfold as a tree. */
  ghost predicate Suspicious(g: Graph) {
    exists i :: SuspiciousAt(g, i)
  }

  ghost predicate SuspiciousBelow(g: Graph, n: int) {
    exists j :: 0 <= j < n && SuspiciousAt(g, j)
  }

  ghost predicate SuspiciousAt(g: Graph, i: int) {
    0 <= i < |g| && exists p :: 0 <= p < |g[i]| && 0 <= g[i][p] < |g| && !OutTree(g, g[i][p])
  }

  /** No deadlock is missed: a cycle makes its vertices suspicious. */
  lemma CycleIsSuspicious(g: Graph, v: int)
    requires Closed(g) && OnCycle(g, v)
    ensures Suspicious(g)
  {
    var w :| WalkBetween(g, w, v, v) && |w| > 1;
    var j := w[1];
    var p :| 0 <= p < |g[v]| && g[v][p] == j;
    assert WalkBetween(g, w[1..], j, v);
    assert Seen(g, Reachable(g, j), j, |g[j]|, v, p);
    assert !OutTree(g, j);
    assert SuspiciousAt(g, v);
  }

  /** Each vertex waits for at most one other. */
  ghost predicate SingleWait(g: Graph) {
    forall v :: 0 <= v < |g| ==> |g[v]| <= 1
  }

  /** With single waits there is only one way to walk on. */
  lemma {:induction false} WalksAreForced(g: Graph, v: seq<int>, w: seq<int>)
    requires SingleWait(g) && IsWalk(g, v) && IsWalk(g, w) && v[0] == w[0] && |v| <= |w|
    ensures v <= w
  {
    if |v| > 1 {
      var n := |v| - 1;
      WalksAreForced(g, v[..n], w);
      assert v[n] in g[v[n - 1]] && w[n] in g[w[n - 1]];
    }
  }

  lemma MeetingWalksMakeCycle(g: Graph, j: int, v: int, u: int, x: int)
    requires Closed(g) && SingleWait(g) && 0 <= x < |g| && 0 <= v < |g| && 0 <= u < |g|
    requires Reaches(g, j, v) && Reaches(g, j, u) && v != u && x in g[v] && x in g[u]
    ensures OnCycle(g, x)
  {
    var a :| WalkBetween(g, a, j, v);
    var b :| WalkBetween(g, b, j, u);
    if |a| <= |b| {
      LongerWalkCloses(g, a, b, x);
    } else {
      LongerWalkCloses(g, b, a, x);
    }
  }

  lemma LongerWalkCloses(g: Graph, a: seq<int>, b: seq<int>, x: int)
    requires Closed(g) && SingleWait(g) && IsWalk(g, a) && IsWalk(g, b) && a[0] == b[0] && |a| <= |b|
    requires a[|a| - 1] != b[|b| - 1] && x in g[a[|a| - 1]] && x in g[b[|b| - 1]]
    ensures OnCycle(g, x)
  {
    var n := |a|;
    WalksAreForced(g, a, b);
    assert b[n] in g[b[n - 1]];
    assert b[n] == x;
    var c := b[n..] + [x];
    forall i | 0 <= i < |c| - 1
      ensures c[i + 1] in g[c[i]]
    {
      assert c[i] == b[n + i];
    }
    assert WalkBetween(g, c, x, x);
  }

  lemma BackEdgeMakesCycle(g: Graph, j: int, v: int, p: int)
    requires Closed(g) && 0 <= v < |g| && Reaches(g, j, v) && 0 <= p < |g[v]| && g[v][p] == j
    ensures OnCycle(g, j)
  {
    var w :| WalkBetween(g, w, j, v);
    assert WalkBetween(g, w + [j], j, j);
  }

  /** Where the unfolding from j breaks, with single waits, there is a cycle. */
  lemma BrokenTreeHasCycle(g: Graph, j: int)
    requires Closed(g) && SingleWait(g) && 0 <= j < |g| && !OutTree(g, j)
    ensures !Acyclic(g)
  {
    var R := Reachable(g, j);
    ReachableIsClosed(g, j);
    if v, p :| Seen(g, R, j, |g[j]|, v, p) && g[v][p] == j {
      BackEdgeMakesCycle(g, j, v, p);
    } else {
      var v, p, u, q :| Seen(g, R, j, |g[j]|, v, p) && Seen(g, R, j, |g[j]|, u, q)
        && g[v][p] == g[u][q] && !(v == u && p == q);
      MeetingWalksMakeCycle(g, j, v, u, g[v][p]);
    }
  }

  /** With single waits a suspicion is a deadlock. */
  lemma SuspicionIsCycle(g: Graph)
    requires Closed(g) && SingleWait(g) && Suspicious(g)
    ensures !Acyclic(g)
  {
    var i :| SuspiciousAt(g, i);
    var e :| 0 <= e < |g[i]| && 0 <= g[i][e] < |g| && !OutTree(g, g[i][e]);
    BrokenTreeHasCycle(g, g[i][e]);
  }

  lemma Verdict(g: Graph, list: seq<Vertex>)
    requires Registered(list) && g == GraphOf(list)
    ensures Suspicious(g) || Acyclic(g)
    ensures SingleWait(g) ==> (Suspicious(g) <==> !Acyclic(g))
  {
    RegisteredIsClosed(list);
    if v :| OnCycle(g, v) {
      CycleIsSuspicious(g, v);
    }
    if SingleWait(g) {
      SingleWaitExact(g);
    }
  }

  /** The verdict is exact when each thread waits for one lock. */
  lemma SingleWaitExact(g: Graph)
    requires Closed(g) && SingleWait(g)
    ensures Suspicious(g) <==> !Acyclic(g)
  {
    if Suspicious(g) {
      SuspicionIsCycle(g);
    }
    if v :| OnCycle(g, v) {
      CycleIsSuspicious(g, v);
    }
  }

  lemma {:induction false} UpwardWalk(g: Graph, w: seq<int>)
    requires IsWalk(g, w)
    requires forall v, p :: 0 <= v < |g| && 0 <= p < |g[v]| ==> v < g[v][p]
    ensures |w| > 1 ==> w[0] < w[|w| - 1]
  {
    if |w| > 1 {
      UpwardWalk(g, w[1..]);
    }
  }

  /** A diamond behind one edge: 0 -> 1, from 1 two ways to 4. */
  const DIAMOND: Graph := [[1], [2, 3], [4], [4], []]

  lemma DiamondIsAcyclic()
    ensures Closed(DIAMOND) && Acyclic(DIAMOND)
  {
    forall v | OnCycle(DIAMOND, v)
      ensures false
    {
      var w :| WalkBetween(DIAMOND, w, v, v) && |w| > 1;
      UpwardWalk(DIAMOND, w);
    }
  }

  /** Without single waits the alarm may be false: two ways to the same vertex, and no cycle. */
  lemma FalseAlarm()
    ensures Suspicious(DIAMOND) && Acyclic(DIAMOND)
    ensures Closed(DIAMOND) && Registered(Threads(DIAMOND)) && GraphOf(Threads(DIAMOND)) == DIAMOND
  {
    DiamondIsAcyclic();
    ThreadsMakeGraph(DIAMOND);
    assert WalkBetween(DIAMOND, [1, 2], 1, 2) && WalkBetween(DIAMOND, [1, 3], 1, 3);
    var R := Reachable(DIAMOND, 1);
    assert Seen(DIAMOND, R, 1, 2, 2, 0) && Seen(DIAMOND, R, 1, 2, 3, 0);
    assert !OutTree(DIAMOND, DIAMOND[0][0]);
    assert SuspiciousAt(DIAMOND, 0);
  }

  // ---------------------------------------------------------------- the registered vertices

  datatype Kind = PROCESS | RESOURCE
  datatype Source = Source(id: nat, kind: Kind)

  /** A registered vertex and the list of its outgoing edges. */
  datatype Vertex = Vertex(s: Source, next: seq<Source>)

  /** The index of the first vertex with this type and id, or -1. */
  function IndexOf(list: seq<Vertex>, s: Source): (i: int)
    ensures -1 <= i < |list|
    ensures i >= 0 ==> list[i].s == s
    ensures i == -1 <==> forall j :: 0 <= j < |list| ==> list[j].s != s
  {
    if list == [] then -1
    else
      var i := IndexOf(list[..|list| - 1], s);
      if i >= 0 then i else if list[|list| - 1].s == s then |list| - 1 else -1
  }

  /** Vertices are registered once, and so is the target of every edge. */
  ghost predicate Registered(list: seq<Vertex>) {
    && (forall i, j :: 0 <= i < j < |list| ==> list[i].s != list[j].s)
    && (forall i, p :: 0 <= i < |list| && 0 <= p < |list[i].next| ==> IndexOf(list, list[i].next[p]) >= 0)
  }

  function Targets(list: seq<Vertex>, next: seq<Source>): (r: seq<int>)
    ensures |r| == |next|
    ensures forall p :: 0 <= p < |next| ==> r[p] == IndexOf(list, next[p])
  {
    seq(|next|, p requires 0 <= p < |next| => IndexOf(list, next[p]))
  }

  /** The wait-for graph that the lists stand for. */
  function GraphOf(list: seq<Vertex>): (g: Graph)
    ensures |g| == |list|
    ensures forall i :: 0 <= i < |list| ==> g[i] == Targets(list, list[i].next)
  {
    seq(|list|, i requires 0 <= i < |list| => Targets(list, list[i].next))
  }

  function Thread(id: nat): Source {
    Source(id, PROCESS)
  }

  /** Threads that wait for each other as the graph says. */
  ghost function Threads(g: Graph): (list: seq<Vertex>)
    requires Closed(g)
    ensures |list| == |g|
  {
    seq(|g|, i requires 0 <= i < |g| =>
      Vertex(Thread(i), seq(|g[i]|, p requires 0 <= p < |g[i]| => Thread(g[i][p]))))
  }

  /** Every graph is the wait-for graph of some lists. */
  lemma ThreadsMakeGraph(g: Graph)
    requires Closed(g)
    ensures Registered(Threads(g)) && GraphOf(Threads(g)) == g
  {
    var list := Threads(g);
    forall i | 0 <= i < |g|
      ensures IndexOf(list, Thread(i)) == i
    {
      FirstIndex(list, i, Thread(i));
    }
    forall i | 0 <= i < |g|
      ensures GraphOf(list)[i] == g[i]
    {
      assert Targets(list, list[i].next) == g[i];
    }
  }

  lemma RegisteredIsClosed(list: seq<Vertex>)
    requires Registered(list)
    ensures Closed(GraphOf(list))
  {
  }

  /** Registering one more vertex moves no index. */
  lemma IndexStays(list: seq<Vertex>, v: Vertex, s: Source)
    requires IndexOf(list, s) >= 0
    ensures IndexOf(list + [v], s) == IndexOf(list, s)
  {
    assert (list + [v])[..|list|] == list;
  }

  /** The vertex list with a source registered, as add_vertex leaves it. */
  function WithVertex(list: seq<Vertex>, s: Source): seq<Vertex> {
    if IndexOf(list, s) == -1 then list + [Vertex(s, [])] else list
  }

  lemma WithVertexRegisters(list: seq<Vertex>, s: Source)
    requires Registered(list)
    ensures Registered(WithVertex(list, s)) && list <= WithVertex(list, s)
    ensures IndexOf(WithVertex(list, s), s) >= 0
    ensures IndexOf(list, s) == -1 ==> GraphOf(WithVertex(list, s)) == GraphOf(list) + [[]]
    ensures forall x :: IndexOf(list, x) >= 0 ==> IndexOf(WithVertex(list, s), x) == IndexOf(list, x)
  {
    var list' := WithVertex(list, s);
    forall x | IndexOf(list, x) >= 0
      ensures IndexOf(list', x) == IndexOf(list, x)
    {
      IndexStays(list, Vertex(s, []), x);
    }
    if IndexOf(list, s) == -1 {
      assert list'[|list|].s == s;
      NewVertexKeepsGraph(list, Vertex(s, []));
    }
  }

  lemma NewVertexKeepsGraph(list: seq<Vertex>, v: Vertex)
    requires Registered(list) && v.next == []
    ensures GraphOf(list + [v]) == GraphOf(list) + [[]]
  {
    var list' := list + [v];
    forall i | 0 <= i < |list|
      ensures GraphOf(list')[i] == GraphOf(list)[i]
    {
      assert list'[i] == list[i];
      TargetsStay(list, v, list[i].next);
    }
  }

  lemma TargetsStay(list: seq<Vertex>, v: Vertex, next: seq<Source>)
    requires forall p :: 0 <= p < |next| ==> IndexOf(list, next[p]) >= 0
    ensures Targets(list + [v], next) == Targets(list, next)
  {
    forall p | 0 <= p < |next|
      ensures IndexOf(list + [v], next[p]) == IndexOf(list, next[p])
    {
      IndexStays(list, v, next[p]);
    }
  }

  /** An edge appended to the list of its source. */
  function WithEdge(list: seq<Vertex>, i: int, to: Source): seq<Vertex>
    requires 0 <= i < |list|
  {
    list[i := list[i].(next := list[i].next + [to])]
  }

  lemma {:induction false} SameSourcesSameIndex(list: seq<Vertex>, list': seq<Vertex>, s: Source)
    requires |list| == |list'| && forall j :: 0 <= j < |list| ==> list'[j].s == list[j].s
    ensures IndexOf(list', s) == IndexOf(list, s)
  {
    if list != [] {
      SameSourcesSameIndex(list[..|list| - 1], list'[..|list| - 1], s);
    }
  }

  lemma WithEdgeAddsEdge(list: seq<Vertex>, i: int, to: Source)
    requires Registered(list) && 0 <= i < |list| && IndexOf(list, to) >= 0
    ensures Registered(WithEdge(list, i, to))
    ensures
      var g := GraphOf(list);
      GraphOf(WithEdge(list, i, to)) == g[i := g[i] + [IndexOf(list, to)]]
  {
    var list' := WithEdge(list, i, to);
    WithEdgeIndices(list, i, to);
    var g := GraphOf(list);
    forall j | 0 <= j < |list|
      ensures GraphOf(list')[j] == g[i := g[i] + [IndexOf(list, to)]][j]
    {
      assert Targets(list', list'[j].next) == g[i := g[i] + [IndexOf(list, to)]][j];
    }
  }

  lemma WithEdgeIndices(list: seq<Vertex>, i: int, to: Source)
    requires 0 <= i < |list|
    ensures forall s :: IndexOf(WithEdge(list, i, to), s) == IndexOf(list, s)
  {
    forall s ensures IndexOf(WithEdge(list, i, to), s) == IndexOf(list, s) {
      SameSourcesSameIndex(list, WithEdge(list, i, to), s);
    }
  }

  /** The position of the first edge whose target has this id, whatever its type, or the length. */
  function FirstWithId(next: seq<Source>, id: nat): (p: nat)
    ensures p <= |next|
    ensures p < |next| ==> next[p].id == id
    ensures forall q :: 0 <= q < p ==> next[q].id != id
  {
    if next == [] || next[0].id == id then 0 else 1 + FirstWithId(next[1..], id)
  }

  /** The list without that edge. */
  function Without(next: seq<Source>, id: nat): seq<Source> {
    var p := FirstWithId(next, id);
    if p < |next| then next[..p] + next[p + 1..] else next
  }

  /** An edge list replaced by the list without the first edge to this id. */
  function WithoutEdge(list: seq<Vertex>, i: int, to: Source): seq<Vertex>
    requires 0 <= i < |list|
  {
    list[i := list[i].(next := Without(list[i].next, to.id))]
  }

  lemma NoEdgeNoChange(list: seq<Vertex>, i: int, to: Source)
    requires 0 <= i < |list|
    ensures
      var next := list[i].next;
      var p := FirstWithId(next, to.id);
      if p < |next| then WithoutEdge(list, i, to) == list[i := Vertex(list[i].s, next[..p] + next[p + 1..])]
      else WithoutEdge(list, i, to) == list
  {
  }

  lemma SameSourcesSameTargets(list: seq<Vertex>, list': seq<Vertex>, next: seq<Source>)
    requires |list| == |list'| && forall j :: 0 <= j < |list| ==> list'[j].s == list[j].s
    ensures Targets(list', next) == Targets(list, next)
  {
    forall p | 0 <= p < |next|
      ensures IndexOf(list', next[p]) == IndexOf(list, next[p])
    {
      SameSourcesSameIndex(list, list', next[p]);
    }
  }

  lemma TargetsWithout(list: seq<Vertex>, next: seq<Source>, id: nat)
    ensures
      var t, p := Targets(list, next), FirstWithId(next, id);
      Targets(list, Without(next, id)) == if p < |next| then t[..p] + t[p + 1..] else t
  {
    var t, p := Targets(list, next), FirstWithId(next, id);
    if p < |next| {
      TargetsJoin(list, next[..p], next[p + 1..]);
      TargetsSlice(list, next, 0, p);
      TargetsSlice(list, next, p + 1, |next|);
    }
  }

  lemma TargetsSlice(list: seq<Vertex>, next: seq<Source>, lo: int, hi: int)
    requires 0 <= lo <= hi <= |next|
    ensures Targets(list, next[lo..hi]) == Targets(list, next)[lo..hi]
  {
  }

  lemma TargetsJoin(list: seq<Vertex>, a: seq<Source>, b: seq<Source>)
    ensures Targets(list, a + b) == Targets(list, a) + Targets(list, b)
  {
  }

  lemma WithoutEdgeRegistered(list: seq<Vertex>, i: int, to: Source)
    requires Registered(list) && 0 <= i < |list|
    ensures Registered(WithoutEdge(list, i, to))
  {
    var list' := WithoutEdge(list, i, to);
    forall j, q | 0 <= j < |list| && 0 <= q < |list'[j].next|
      ensures IndexOf(list', list'[j].next[q]) >= 0
    {
      SameSourcesSameIndex(list, list', list'[j].next[q]);
    }
  }

  lemma WithoutEdgeRemovesEdge(list: seq<Vertex>, i: int, to: Source)
    requires 0 <= i < |list|
    ensures
      var g, p := GraphOf(list), FirstWithId(list[i].next, to.id);
      GraphOf(WithoutEdge(list, i, to)) == if p < |g[i]| then g[i := g[i][..p] + g[i][p + 1..]] else g
  {
    var list' := WithoutEdge(list, i, to);
    TargetsWithout(list, list[i].next, to.id);
    var g, g' := GraphOf(list), GraphOf(list');
    forall j | 0 <= j < |list|
      ensures g'[j] == if j == i then Targets(list, Without(list[i].next, to.id)) else g[j]
    {
      SameSourcesSameTargets(list, list', list'[j].next);
    }
    assert g' == g[i := Targets(list, Without(list[i].next, to.id))];
  }

  // ---------------------------------------------------------------- the search

  ghost function Marked(visited: seq<int>, n: nat): set<int>
    requires n <= |visited|
  {
    set i | 0 <= i < n && visited[i] == 1
  }

  lemma MarkedBound(s: set<int>, n: nat)
    requires forall i :: i in s ==> 0 <= i < n
    ensures |s| <= n
  {
    if n == 0 {
      assert forall i :: i !in s;
    } else if n - 1 in s {
      MarkedBound(s - {n - 1}, n - 1);
    } else {
      MarkedBound(s, n - 1);
    }
  }

  /** A vertex not yet marked leaves room on the path for it and for one report beyond. */
  lemma RoomForOneMore(s: set<int>, idx: int, n: nat)
    requires forall i :: i in s ==> 0 <= i < n
    requires 0 <= idx < n && idx !in s
    ensures |s + {idx}| == |s| + 1 <= n
  {
    MarkedBound(s + {idx}, n);
  }

  class TaskGraph {
    var list: seq<Vertex>                // tg->list[0 .. tg->num)
    const visited: array<int>
    const path: array<int>
    var k: nat
    var deadlock: bool
    var reports: seq<seq<int>>           // the paths that print_deadlock wrote

    ghost predicate Valid()
      reads this
    {
      && Registered(list) && |list| <= MAX
      && visited.Length == MAX && path.Length == MAX + 1 && visited != path
    }

    ghost function Seen0(): set<int>
      requires Valid()
      reads this, visited
    {
      Marked(visited[..], |list|)
    }

    constructor ()
      ensures Valid() && list == [] && fresh(visited) && fresh(path)
      ensures !deadlock && reports == []
    {
      list := [];
      visited := new int[MAX](_ => 0);
      path := new int[MAX + 1](_ => 0);
      k, deadlock, reports := 0, false, [];
    }

    method SearchVertex(s: Source) returns (i: int)
      ensures i == IndexOf(list, s)
      ensures if i == -1 then forall j :: 0 <= j < |list| ==> list[j].s != s
              else 0 <= i < |list| && list[i].s == s && forall j :: 0 <= j < i ==> list[j].s != s
    {
      i := 0;
      while i < |list|
        invariant 0 <= i <= |list|
        invariant forall j :: 0 <= j < i ==> list[j].s != s
      {
        if list[i].s == s {
          FirstIndex(list, i, s);
          return;
        }
        i := i + 1;
      }
      i := -1;
    }

    method AddVertex(s: Source)
      requires Valid() && (|list| < MAX || IndexOf(list, s) >= 0)
      modifies `list
      ensures Valid() && list == WithVertex(old(list), s)
      ensures list == old(list) + if exists j :: 0 <= j < |old(list)| && old(list)[j].s == s then [] else [Vertex(s, [])]
    {
      WithVertexRegisters(list, s);
      var i := SearchVertex(s);
      if i == -1 {
        list := list + [Vertex(s, [])];
      }
    }

    /** Walk to the end of the list of vertex i and append an edge. */
    method AppendEdge(i: int, to: Source)
      requires Valid() && 0 <= i < |list| && IndexOf(list, to) >= 0
      modifies `list
      ensures Valid() && list == WithEdge(old(list), i, to)
    {
      WithEdgeAddsEdge(list, i, to);
      var v := list[i];
      var p := 0;
      while p < |v.next|
        invariant 0 <= p <= |v.next|
      {
        p := p + 1;
      }
      assert v.next[..p] == v.next;
      list := list[i := v.(next := v.next[..p] + [to])];
    }

    /** Register both ends and append the edge to the list of its source. */
    method AddEdge(from: Source, to: Source)
      requires Valid() && |WithVertex(WithVertex(list, from), to)| <= MAX
      modifies `list
      ensures Valid()
      ensures
        var l := WithVertex(WithVertex(old(list), from), to);
        var i := IndexOf(l, from);
        i >= 0 && IndexOf(l, to) >= 0 && list == WithEdge(l, i, to)
    {
      WithVertexRegisters(list, from);
      AddVertex(from);
      WithVertexRegisters(list, to);
      AddVertex(to);
      var i := SearchVertex(from);
      AppendEdge(i, to);
    }

    /** Compares ids only, and starts at the vertex itself. */
    method VerifyEdge(from: Source, to: Source) returns (found: bool)
      requires Valid()
      ensures
        var i := IndexOf(list, from);
        found <==> (i >= 0 &&
          (from.id == to.id || exists p :: 0 <= p < |list[i].next| && list[i].next[p].id == to.id))
    {
      if |list| == 0 {
        return false;
      }
      var i := SearchVertex(from);
      if i == -1 {
        return false;
      }
      if list[i].s.id == to.id {
        return true;
      }
      var next := list[i].next;
      var p := 0;
      while p < |next|
        invariant 0 <= p <= |next|
        invariant forall q :: 0 <= q < p ==> next[q].id != to.id
      {
        if next[p].id == to.id {
          return true;
        }
        p := p + 1;
      }
      found := false;
    }

    /** The search loop of remove_edge. */
    static method FindEdge(next: seq<Source>, id: nat) returns (p: nat)
      ensures p == FirstWithId(next, id)
    {
      p := 0;
      while p < |next|
        invariant p <= FirstWithId(next, id)
      {
        if next[p].id == id {
          return;
        }
        p := p + 1;
      }
    }

    /** Removes the first edge to the id, if both ends are registered. */
    method RemoveEdge(from: Source, to: Source)
      requires Valid()
      modifies `list
      ensures Valid()
      ensures
        var i := IndexOf(old(list), from);
        list == if i >= 0 && IndexOf(old(list), to) >= 0 then WithoutEdge(old(list), i, to) else old(list)
    {
      var i := SearchVertex(from);
      var j := SearchVertex(to);
      if i != -1 && j != -1 {
        DropEdge(i, to);
      }
    }

    /** The search along one list, and the removal of what it finds. */
    method DropEdge(i: int, to: Source)
      requires Valid() && 0 <= i < |list|
      modifies `list
      ensures Valid() && list == WithoutEdge(old(list), i, to)
    {
      WithoutEdgeRegistered(list, i, to);
      NoEdgeNoChange(list, i, to);
      var next := list[i].next;
      var p := FindEdge(next, to.id);
      if p < |next| {
        list := list[i := Vertex(list[i].s, next[..p] + next[p + 1..])];
      }
    }

    method PrintDeadlock()
      requires k <= path.Length
      modifies `reports
      ensures reports == old(reports) + [path[..k]]
    {
      reports := reports + [path[..k]];
    }

    /** Depth-first search.  The path above idx is a walk; every mark, flag and report is accounted
        for, and the path has room for everything that is written to it. */
    method DFS(idx: int)
      requires Valid() && 0 <= idx < |list|
      requires k <= |Seen0()| && k < path.Length
      requires IsWalk(GraphOf(list), path[..k] + [idx])
      modifies visited, path, `k, `deadlock, `reports
      ensures k == old(k) + 1 <= path.Length
      ensures path[..k] == old(path[..k]) + [idx]
      ensures old(Seen0()) <= Seen0()
      ensures old(idx in Seen0()) ==> deadlock && Seen0() == old(Seen0())
      ensures old(idx !in Seen0()) ==>
        var broken := !TreeSoFar(GraphOf(list), Seen0() - old(Seen0()), idx, |GraphOf(list)[idx]|);
        && Explored(GraphOf(list), old(Seen0()), Seen0(), idx, broken)
        && deadlock == (old(deadlock) || broken)
      ensures Reported(GraphOf(list), old(deadlock), old(reports), deadlock, reports)
      decreases |list| - |Seen0()|, 1, 0
    {
      ghost var g := GraphOf(list);
      RegisteredIsClosed(list);
      ghost var before := Seen0();
      if visited[idx] == 1 {
        path[k] := idx;
        k := k + 1;
        PrintDeadlock();
        deadlock := true;
        return;
      }
      Enter(idx);
      ExploringStarts(g, before, idx);
      ghost var broken := ScanEdges(idx, before);
    }

    /** Search on from every edge of the vertex on top of the path. */
    method ScanEdges(idx: int, ghost before: set<int>) returns (ghost broken: bool)
      requires Valid() && 0 <= idx < |list|
      requires 0 < k <= |Seen0()| && k < path.Length && OnTop(GraphOf(list), path[..k], idx)
      requires idx !in before && Exploring(GraphOf(list), before, Seen0(), idx, 0, false)
      modifies visited, path, `k, `deadlock, `reports
      ensures k == old(k) && path[..k] == old(path[..k]) && k <= |Seen0()|
      ensures Exploring(GraphOf(list), before, Seen0(), idx, |list[idx].next|, broken)
      ensures deadlock == (old(deadlock) || broken)
      ensures Reported(GraphOf(list), old(deadlock), old(reports), deadlock, reports)
      decreases |list| - |before|, 0, 0
    {
      ghost var g := GraphOf(list);
      ghost var n := |list[idx].next|;
      ghost var marks := Seen0();
      broken := false;
      var p := 0;
      while p < |list[idx].next|
        invariant 0 <= p <= n
        invariant k == old(k) && path[..k] == old(path[..k]) && OnTop(g, path[..k], idx)
        invariant marks == Seen0() && k <= |marks|
        invariant Exploring(g, before, marks, idx, p, broken)
        invariant deadlock == (old(deadlock) || broken)
        invariant Reported(g, old(deadlock), old(reports), deadlock, reports)
      {
        MarksBelow(marks, before, idx, |list|);
        ghost var flag, reported := deadlock, reports;
        broken := FollowEdge(idx, p, before, broken);
        ReportedBoth(g, old(deadlock), old(reports), flag, reported, deadlock, reports);
        marks := Seen0();
        p := p + 1;
      }
      SeenAll(g, before, marks, idx, p, n, broken);
    }

    /** Search on from the p-th edge of the vertex on top of the path. */
    method FollowEdge(idx: int, p: nat, ghost before: set<int>, ghost broken: bool) returns (ghost broken': bool)
      requires Valid() && 0 <= idx < |list| && p < |list[idx].next|
      requires 0 < k <= |Seen0()| && k < path.Length && OnTop(GraphOf(list), path[..k], idx)
      requires Exploring(GraphOf(list), before, Seen0(), idx, p, broken)
      modifies visited, path, `k, `deadlock, `reports
      ensures k == old(k) && path[..k] == old(path[..k]) && k <= |Seen0()|
      ensures Exploring(GraphOf(list), before, Seen0(), idx, p + 1, broken')
      ensures broken ==> broken'
      ensures !broken ==> deadlock == (old(deadlock) || broken')
      ensures broken && old(deadlock) ==> deadlock
      ensures Reported(GraphOf(list), old(deadlock), old(reports), deadlock, reports)
      decreases |list| - |Seen0()|, 2, 0
    {
      ghost var g := GraphOf(list);
      RegisteredIsClosed(list);
      ghost var middle := Seen0();
      var target := SearchVertex(list[idx].next[p]);
      assert g[idx][p] == target;
      WalkGrows(g, path[..k], idx, target);
      DFS(target);
      k := k - 1;
      assert path[..k + 1][..k] == path[..k];
      ghost var below := target in middle || !TreeSoFar(g, Seen0() - middle, target, |g[target]|);
      EdgeSearched(g, before, middle, Seen0(), idx, p, broken, below);
      MoreMarks(middle, Seen0(), |list|);
      broken' := broken || below;
    }

    /** Clear every mark but that of idx. */
    method ClearMarks(idx: int)
      requires Valid() && 0 <= idx < |list| && visited[idx] == 1
      modifies visited
      ensures Seen0() == {idx}
    {
      for i := 0 to |list|
        invariant visited[idx] == 1
        invariant forall j :: 0 <= j < i && j != idx ==> visited[j] == 0
      {
        if i == idx {
          continue;
        }
        visited[i] := 0;
      }
    }

    /** Leave only the first vertex on the path. */
    method ClearPath()
      requires Valid()
      modifies path, `k
      ensures k == 1 && path[0] == old(path[0])
    {
      for i := 1 to MAX + 1
        invariant path[0] == old(path[0])
      {
        path[i] := -1;
      }
      k := 1;
    }

    /** One search per outgoing edge of idx, each with fresh marks: the flag is raised if one of
        them leads to a vertex from which the graph does not unfold as a tree. */
    method SearchForCycle(idx: int)
      requires Valid() && 0 <= idx < |list|
      modifies visited, path, `k, `deadlock, `reports
      ensures deadlock == (old(deadlock) || SuspiciousAt(GraphOf(list), idx))
      ensures Reported(GraphOf(list), old(deadlock), old(reports), deadlock, reports)
    {
      ghost var g := GraphOf(list);
      RegisteredIsClosed(list);
      visited[idx] := 1;
      k := 0;
      path[k] := idx;
      k := k + 1;
      var p := 0;
      while p < |list[idx].next|
        invariant 0 <= p <= |g[idx]|
        invariant visited[idx] == 1 && path[0] == idx
        invariant deadlock == (old(deadlock) || exists q :: 0 <= q < p && !OutTree(g, g[idx][q]))
        invariant Reported(g, old(deadlock), old(reports), deadlock, reports)
      {
        ClearMarks(idx);
        ClearPath();
        ghost var flag, reported := deadlock, reports;
        SearchFrom(idx, p);
        ReportedBoth(g, old(deadlock), old(reports), flag, reported, deadlock, reports);
        p := p + 1;
      }
    }

    /** The search along one edge. */
    method SearchFrom(idx: int, p: nat)
      requires Valid() && 0 <= idx < |list| && p < |list[idx].next|
      requires Seen0() == {idx} && k == 1 && path[0] == idx
      modifies visited, path, `k, `deadlock, `reports
      ensures visited[idx] == 1 && path[0] == idx
      ensures deadlock == (old(deadlock) || !OutTree(GraphOf(list), GraphOf(list)[idx][p]))
      ensures Reported(GraphOf(list), old(deadlock), old(reports), deadlock, reports)
    {
      ghost var g := GraphOf(list);
      RegisteredIsClosed(list);
      var target := SearchVertex(list[idx].next[p]);
      assert g[idx][p] == target;
      assert path[..k] + [target] == [idx, target];
      DFS(target);
      assert idx in Seen0();
      assert path[..k][0] == idx;
      if target == idx {
        SelfLoopIsNoTree(g, idx);
      } else {
        SearchDecides(g, idx, Seen0(), target, !TreeSoFar(g, Seen0() - {idx}, target, |g[target]|));
      }
    }

    /** The verdict: a deadlock is reported exactly when some edge leads to a vertex from which the
        graph does not unfold as a tree.  No cycle is ever missed, and with single waits no alarm
        is false. */
    method CheckDeadLock()
      requires Valid()
      modifies visited, path, `k, `deadlock, `reports
      ensures deadlock <==> Suspicious(GraphOf(list))
      ensures !deadlock ==> Acyclic(GraphOf(list))
      ensures SingleWait(GraphOf(list)) ==> (deadlock <==> !Acyclic(GraphOf(list)))
      ensures deadlock <==> |reports| > |old(reports)|
      ensures Reported(GraphOf(list), false, old(reports), deadlock, reports)
    {
      ghost var g := GraphOf(list);
      deadlock := false;
      var i := 0;
      while i < |list|
        invariant 0 <= i <= |list|
        invariant deadlock <==> SuspiciousBelow(g, i)
        invariant Reported(g, false, old(reports), deadlock, reports)
      {
        if deadlock {
          break;
        }
        ghost var flag, reported := deadlock, reports;
        SearchForCycle(i);
        ReportedBoth(g, false, old(reports), flag, reported, deadlock, reports);
        i := i + 1;
      }
      Verdict(g, list);
    }

    /** Mark a vertex and put it on the path. */
    method Enter(idx: int)
      requires Valid() && 0 <= idx < |list|
      requires k <= |Seen0()| && k < path.Length && idx !in Seen0()
      modifies visited, path, `k
      ensures Seen0() == old(Seen0()) + {idx} && k <= |Seen0()| <= |list|
      ensures k == old(k) + 1 && path[..k] == old(path[..k]) + [idx]
    {
      RoomForOneMore(Seen0(), idx, |list|);
      ghost var before := Seen0();
      visited[idx] := 1;
      assert Seen0() == before + {idx};
      path[k] := idx;
      k := k + 1;
    }
  }

  lemma MarksBelow(marks: set<int>, before: set<int>, idx: int, n: nat)
    requires before <= marks && idx in marks && idx !in before
    requires forall i :: i in marks ==> 0 <= i < n
    ensures |before| < |marks| <= n
  {
    MarkedBound(marks, n);
    assert |before + {idx}| == |before| + 1;
    MoreMarks(before + {idx}, marks, n);
  }

  lemma MoreMarks(a: set<int>, b: set<int>, n: nat)
    requires a <= b
    ensures |a| <= |b|
  {
    assert b == a + (b - a);
  }

  lemma ExploringStarts(g: Graph, before: set<int>, idx: int)
    requires 0 <= idx < |g| && idx !in before
    ensures Exploring(g, before, before + {idx}, idx, 0, false)
  {
    ReachesSelf(g, idx);
    assert before + {idx} - before == {idx};
  }

  lemma SeenAll(g: Graph, before: set<int>, after: set<int>, idx: int, p: int, n: int, broken: bool)
    requires Exploring(g, before, after, idx, p, broken) && p == n
    ensures Exploring(g, before, after, idx, n, broken)
  {
  }

  /** A path that is a walk and ends at idx. */
  ghost predicate OnTop(g: Graph, path: seq<int>, idx: int) {
    IsWalk(g, path) && path[|path| - 1] == idx
  }

  /** Only walks have been reported since, and at least one if the flag was raised since. */
  ghost predicate Reported(g: Graph, was: bool, before: seq<seq<int>>, flag: bool, after: seq<seq<int>>) {
    && before <= after && (forall r :: |before| <= r < |after| ==> IsWalk(g, after[r]))
    && (flag <==> was || |after| > |before|)
  }

  lemma ReportedBoth(g: Graph, d: bool, a: seq<seq<int>>, e: bool, b: seq<seq<int>>, f: bool, c: seq<seq<int>>)
    requires Reported(g, d, a, e, b) && Reported(g, e, b, f, c)
    ensures Reported(g, d, a, f, c)
  {
  }

  /** One edge searched, whether its target was visited before or not. */
  lemma EdgeSearched(g: Graph, before: set<int>, middle: set<int>, after: set<int>, idx: int, m: int,
                     broken: bool, below: bool)
    requires Closed(g) && Exploring(g, before, middle, idx, m, broken) && m < |g[idx]|
    requires g[idx][m] in middle ==> after == middle && below
    requires g[idx][m] !in middle ==> Explored(g, middle, after, g[idx][m], below)
    ensures Exploring(g, before, after, idx, m + 1, broken || below)
  {
    if g[idx][m] in middle {
      EdgeToVisited(g, before, middle, idx, m, broken);
    } else {
      EdgeToNew(g, before, middle, after, idx, m, broken, below);
    }
  }

  lemma WalkGrows(g: Graph, w: seq<int>, idx: int, v: int)
    requires OnTop(g, w, idx) && 0 <= v < |g| && v in g[idx]
    ensures IsWalk(g, w + [v])
  {
  }

  lemma {:induction false} FirstIndex(list: seq<Vertex>, i: int, s: Source)
    requires 0 <= i < |list| && list[i].s == s && forall j :: 0 <= j < i ==> list[j].s != s
    ensures IndexOf(list, s) == i
  {
    if i < |list| - 1 {
      FirstIndex(list[..|list| - 1], i, s);
    }
  }
}
