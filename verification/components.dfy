/** Component labelling of computeWCC (src/Graph.cpp). The search follows, from
    node i, the out-list of i and, in a directed graph, the in-list of i after
    it; `Weak` is that adjacency. Labels 1, 2, ... are handed out to the
    components in order of their smallest node, label 0 marks a node not yet
    labelled, and the number of nodes per label is counted on the way. */
module Connectivity {
  import opened Seqs
  import opened Paths
  import opened Tables

  /** The neighbours computeWCC follows from node i. */
  function WeakRow(E: seq<seq<int>>, rE: seq<seq<int>>, undirected: bool, i: int): seq<int>
    requires 0 <= i < |E| && i < |rE|
  {
    if undirected then E[i] else E[i] + rE[i]
  }

  /** The adjacency computeWCC searches, over the nodes 0 .. n-1. */
  function Weak(E: seq<seq<int>>, rE: seq<seq<int>>, n: int, undirected: bool): (W: Adjacency)
    requires 0 <= n <= |E| && n <= |rE|
    ensures |W| == n
    ensures forall i :: 0 <= i < n ==> W[i] == WeakRow(E, rE, undirected, i)
  {
    seq(n, i requires 0 <= i < n => WeakRow(E, rE, undirected, i))
  }

  /** The adjacency the search follows is undirected for every valid store:
      the undirected out-lists are symmetric, and a directed edge x->y is
      listed as y in the out-list of x and as x in the in-list of y. */
  lemma WeakSymmetric(E: seq<seq<int>>, rE: seq<seq<int>>, hs: seq<bool>, maxn: int, n: int, undirected: bool, sorted: bool)
    requires TablesOk(E, rE, hs, maxn, n, undirected, sorted)
    ensures Symmetric(Weak(E, rE, n, undirected))
  {
    var W := Weak(E, rE, n, undirected);
    forall u, v | 0 <= u < n && v in W[u]
      ensures 0 <= v < n && u in W[v]
    {
      if v in E[u] {
        assert 0 <= v < n;
        if undirected {
          assert u in E[v];
        } else {
          assert u in rE[v];
        }
      } else {
        assert v in rE[u] && !undirected;
        assert 0 <= v < n;
        assert u in E[v];
      }
    }
  }

  /** Two nodes carry the same label exactly when they are connected. */
  ghost predicate SameLabelIffConnected(W: Adjacency, id: seq<int>) {
    |id| == |W| &&
    forall u, v :: 0 <= u < |W| && 0 <= v < |W| ==> (id[u] == id[v] <==> Reaches(W, {}, u, v))
  }

  /** Labels are handed out in node order: every node carries the label of
      an earlier node or the next label not used before it. */
  ghost predicate IssuedInOrder(id: seq<int>) {
    forall i :: 0 <= i < |id| ==> id[i] in id[..i] || id[i] == Max0(id[..i]) + 1
  }

  /** What computeWCC promises about its result. */
  ghost predicate WccOk(c: Components, W: Adjacency) {
    ComponentsShaped(c, |W|) && SameLabelIffConnected(W, c.id) && IssuedInOrder(c.id)
  }

  /** Sorting and deduplicating the lists keeps a labelling correct: the
      adjacency the search follows keeps its sets, so its connectivity. */
  lemma WccSameSets(c: Components, E: seq<seq<int>>, rE: seq<seq<int>>, E1: seq<seq<int>>, rE1: seq<seq<int>>,
                    n: int, undirected: bool)
    requires 0 <= n <= |E| && n <= |rE| && SameSets(E, E1) && SameSets(rE, rE1)
    requires WccOk(c, Weak(E, rE, n, undirected))
    ensures WccOk(c, Weak(E1, rE1, n, undirected))
  {
    var W, W1 := Weak(E, rE, n, undirected), Weak(E1, rE1, n, undirected);
    forall u, x | 0 <= u < n
      ensures x in W[u] <==> x in W1[u]
    {
      assert x in E[u] <==> x in E1[u];
      assert x in rE[u] <==> x in rE1[u];
    }
    forall u, v | 0 <= u < n && 0 <= v < n
      ensures Reaches(W, {}, u, v) <==> Reaches(W1, {}, u, v)
    {
      ReachesSameRows(W, W1, {}, u, v);
    }
  }

  // The invariant of the labelling loops.

  ghost predicate LabelsBelow(id: seq<int>, c: int) {
    forall x :: 0 <= x < |id| ==> 0 <= id[x] < c
  }

  /** A labelled node, unless it carries the label `open` still being
      handed out, has all its neighbours under its own label. */
  ghost predicate ClosedExcept(W: Adjacency, id: seq<int>, open: int) {
    |id| == |W| &&
    forall x, y {:trigger y in W[x]} :: 0 <= x < |W| && id[x] != 0 && id[x] != open && y in W[x] ==>
      0 <= y < |id| && id[y] == id[x]
  }

  /** A node labelled k is reached from roots[k]. */
  ghost predicate Rooted(W: Adjacency, id: seq<int>, roots: seq<int>) {
    forall x {:trigger roots[id[x]]} :: 0 <= x < |id| && 0 < id[x] < |roots| ==> Reaches(W, {}, roots[id[x]], x)
  }

  /** roots[k] carries label k and every node before it a smaller label. */
  ghost predicate RootsFirst(id: seq<int>, roots: seq<int>) {
    1 <= |roots| &&
    forall k :: 1 <= k < |roots| ==>
      0 <= roots[k] < |id| && id[roots[k]] == k && forall x :: 0 <= x < roots[k] ==> 1 <= id[x] < k
  }

  /** nodes[k] counts label k; slot 0 stays 0. */
  ghost predicate Counted(id: seq<int>, nodes: seq<int>) {
    |nodes| == |id| + 1 && nodes[0] == 0 && forall k :: 1 <= k <= |id| ==> nodes[k] == Count(id, k)
  }

  /** Between two start nodes: nodes 0 .. i-1 are labelled, the labels
      1 .. |roots|-1 in use form closed components. */
  ghost predicate Outer(W: Adjacency, id: seq<int>, nodes: seq<int>, roots: seq<int>, largest: int, i: int) {
    |id| == |W| && 0 <= i <= |W| && 1 <= |roots| <= i + 1 &&
    LabelsBelow(id, |roots|) && (forall x :: 0 <= x < i ==> id[x] != 0) &&
    ClosedExcept(W, id, |roots|) && Rooted(W, id, roots) && RootsFirst(id, roots) &&
    Counted(id, nodes) && FirstLargest(nodes, |roots| - 1, largest)
  }

  /** The queue holds exactly the nodes with label c. */
  ghost predicate QueueHolds(id: seq<int>, q: seq<int>, c: int) {
    (forall j :: 0 <= j < |q| ==> 0 <= q[j] < |id| && id[q[j]] == c) &&
    (forall x :: 0 <= x < |id| && id[x] == c ==> x in q)
  }

  /** The neighbours of the scanned queue entries q[..h] carry label c. */
  ghost predicate ScannedClosed(W: Adjacency, id: seq<int>, q: seq<int>, h: int, c: int) {
    forall j, y {:trigger y in W[q[j]]} :: 0 <= j < h && j < |q| && 0 <= q[j] < |W| && y in W[q[j]] ==>
      0 <= y < |id| && id[y] == c
  }

  /** During the search from start node i for label |roots|-1. */
  ghost predicate Inner(W: Adjacency, id: seq<int>, nodes: seq<int>, roots: seq<int>, largest: int, i: int,
                        q: seq<int>, h: int) {
    |id| == |W| && 0 <= i < |W| && 2 <= |roots| <= i + 2 && roots[|roots| - 1] == i &&
    LabelsBelow(id, |roots|) && (forall x :: 0 <= x <= i ==> id[x] != 0) &&
    ClosedExcept(W, id, |roots| - 1) && Rooted(W, id, roots) && RootsFirst(id, roots) &&
    Counted(id, nodes) && FirstLargest(nodes, |roots| - 2, largest) &&
    0 <= h <= |q| && QueueHolds(id, q, |roots| - 1) && ScannedClosed(W, id, q, h, |roots| - 1)
  }

  /** The first j neighbours of u carry label c. */
  ghost predicate ScanPrefix(W: Adjacency, id: seq<int>, u: int, j: int, c: int)
    requires 0 <= u < |W|
  {
    0 <= j <= |W[u]| && forall t :: 0 <= t < j ==> 0 <= W[u][t] < |id| && id[W[u][t]] == c
  }

  lemma OuterStart(W: Adjacency)
    ensures Outer(W, seq(|W|, x => 0), seq(|W| + 1, k => 0), [0], 0, 0)
  {
    var id := seq(|W|, x => 0);
    forall k | 1 <= k <= |id|
      ensures Count(id, k) == 0
    {
      CountZero(id, k);
    }
  }

  /** A labelled start node is passed over. */
  lemma OuterSkip(W: Adjacency, id: seq<int>, nodes: seq<int>, roots: seq<int>, largest: int, i: int)
    requires Outer(W, id, nodes, roots, largest, i) && i < |W| && id[i] != 0
    ensures Outer(W, id, nodes, roots, largest, i + 1)
  {
  }

  lemma CountedStep(id: seq<int>, nodes: seq<int>, x: int, c: int)
    requires Counted(id, nodes) && 0 <= x < |id| && id[x] == 0 && 1 <= c <= |id|
    ensures Counted(id[x := c], nodes[c := nodes[c] + 1])
  {
    var id' := id[x := c];
    forall k | 1 <= k <= |id|
      ensures nodes[c := nodes[c] + 1][k] == Count(id', k)
    {
      CountUpdate(id, x, c, k);
    }
  }

  /** An unlabelled start node opens the next label and is queued. */
  lemma OuterOpen(W: Adjacency, id: seq<int>, nodes: seq<int>, roots: seq<int>, largest: int, i: int, c: int)
    requires Outer(W, id, nodes, roots, largest, i) && i < |W| && id[i] == 0 && c == |roots|
    ensures c <= |W| && Inner(W, id[i := c], nodes[c := nodes[c] + 1], roots + [i], largest, i, [i], 0)
  {
    var id' := id[i := c];
    var roots' := roots + [i];
    CountedStep(id, nodes, i, c);
    assert Reaches(W, {}, i, i) by {
      assert In(W, {}, i, 0, i);
    }
    forall x | 0 <= x < |id'| && 0 < id'[x] < |roots'|
      ensures Reaches(W, {}, roots'[id'[x]], x)
    {
      if x != i {
        assert roots'[id'[x]] == roots[id[x]];
      }
    }
    forall k | 1 <= k < |roots'|
      ensures 0 <= roots'[k] < |id'| && id'[roots'[k]] == k
      ensures forall x :: 0 <= x < roots'[k] ==> 1 <= id'[x] < k
    {
      if k < c {
        assert roots'[k] == roots[k];
      }
    }
    forall x | 0 <= x < |id'| && id'[x] == c
      ensures x in [i]
    {
    }
  }

  lemma DiscoverRooted(W: Adjacency, id: seq<int>, roots: seq<int>, u: int, y: int)
    requires Rooted(W, id, roots) && |id| == |W| && |roots| >= 2
    requires 0 <= u < |W| && id[u] == |roots| - 1 && y in W[u] && 0 <= y < |W|
    ensures Rooted(W, id[y := |roots| - 1], roots)
  {
    var c := |roots| - 1;
    assert Reaches(W, {}, roots[c], u);
    var k: nat :| In(W, {}, roots[c], k, u);
    InStep(W, {}, roots[c], k, u, y);
  }

  lemma DiscoverClosed(W: Adjacency, id: seq<int>, c: int, y: int)
    requires ClosedExcept(W, id, c) && 0 <= y < |id| && id[y] == 0
    ensures ClosedExcept(W, id[y := c], c)
  {
    var id' := id[y := c];
    forall x, z | 0 <= x < |W| && id'[x] != 0 && id'[x] != c && z in W[x]
      ensures 0 <= z < |id'| && id'[z] == id'[x]
    {
      assert id[x] == id'[x];
    }
  }

  lemma DiscoverQueue(id: seq<int>, q: seq<int>, c: int, y: int)
    requires QueueHolds(id, q, c) && 0 <= y < |id| && id[y] == 0
    ensures QueueHolds(id[y := c], q + [y], c)
  {
    var id' := id[y := c];
    var q' := q + [y];
    forall t | 0 <= t < |q'|
      ensures 0 <= q'[t] < |id'| && id'[q'[t]] == c
    {
      if t < |q| {
        assert q'[t] == q[t];
      }
    }
    forall x | 0 <= x < |id'| && id'[x] == c
      ensures x in q'
    {
      if x != y {
        assert x in q;
      }
    }
  }

  lemma DiscoverScanned(W: Adjacency, id: seq<int>, q: seq<int>, h: int, c: int, y: int)
    requires ScannedClosed(W, id, q, h, c) && 0 <= h <= |q| && 0 <= y < |id|
    ensures ScannedClosed(W, id[y := c], q + [y], h, c)
  {
    var q' := q + [y];
    forall t, z | 0 <= t < h && t < |q'| && 0 <= q'[t] < |W| && z in W[q'[t]]
      ensures 0 <= z < |id[y := c]| && id[y := c][z] == c
    {
      assert q'[t] == q[t];
    }
  }

  lemma DiscoverRootsFirst(id: seq<int>, roots: seq<int>, c: int, y: int)
    requires RootsFirst(id, roots) && 0 <= y < |id| && id[y] == 0 && c == |roots| - 1
    ensures RootsFirst(id[y := c], roots)
  {
  }

  /** An unlabelled neighbour y of the scanned node u gets label c and is queued. */
  lemma InnerDiscover(W: Adjacency, id: seq<int>, nodes: seq<int>, roots: seq<int>, largest: int, i: int,
                      q: seq<int>, h: int, u: int, j: int, y: int, c: int)
    requires Inner(W, id, nodes, roots, largest, i, q, h - 1) && 1 <= h <= |q| && c == |roots| - 1
    requires u == q[h - 1] && 0 <= u < |W| && ScanPrefix(W, id, u, j, c) && j < |W[u]|
    requires y == W[u][j] && 0 <= y < |id| && id[y] == 0
    ensures Inner(W, id[y := c], nodes[c := nodes[c] + 1], roots, largest, i, q + [y], h - 1)
    ensures ScanPrefix(W, id[y := c], u, j + 1, c)
  {
    var id' := id[y := c];
    assert 1 <= c <= |id| by {
      assert roots[c] == i;
    }
    assert Counted(id', nodes[c := nodes[c] + 1]) by {
      CountedStep(id, nodes, y, c);
    }
    assert Rooted(W, id', roots) by {
      assert y in W[u] && id[u] == c;
      DiscoverRooted(W, id, roots, u, y);
    }
    assert ClosedExcept(W, id', c) by {
      DiscoverClosed(W, id, c, y);
    }
    assert QueueHolds(id', q + [y], c) by {
      DiscoverQueue(id, q, c, y);
    }
    assert ScannedClosed(W, id', q + [y], h - 1, c) by {
      DiscoverScanned(W, id, q, h - 1, c, y);
    }
    assert RootsFirst(id', roots) by {
      DiscoverRootsFirst(id, roots, c, y);
    }
    assert LabelsBelow(id', |roots|);
    assert (q + [y])[h - 1] == u;
  }

  /** A labelled neighbour of a node with label c carries label c too, by symmetry. */
  lemma InnerPass(W: Adjacency, id: seq<int>, nodes: seq<int>, roots: seq<int>, largest: int, i: int,
                  q: seq<int>, h: int, u: int, j: int, y: int, c: int)
    requires Symmetric(W)
    requires Inner(W, id, nodes, roots, largest, i, q, h - 1) && 1 <= h <= |q| && c == |roots| - 1
    requires u == q[h - 1] && 0 <= u < |W| && ScanPrefix(W, id, u, j, c) && j < |W[u]|
    requires y == W[u][j] && 0 <= y < |id| && id[y] != 0
    ensures ScanPrefix(W, id, u, j + 1, c)
  {
    assert y in W[u];
    assert u in W[y];
  }

  /** All neighbours of the popped node scanned. */
  lemma InnerNext(W: Adjacency, id: seq<int>, nodes: seq<int>, roots: seq<int>, largest: int, i: int,
                  q: seq<int>, h: int)
    requires Inner(W, id, nodes, roots, largest, i, q, h - 1) && 1 <= h <= |q|
    requires 0 <= q[h - 1] < |W| && ScanPrefix(W, id, q[h - 1], |W[q[h - 1]]|, |roots| - 1)
    ensures Inner(W, id, nodes, roots, largest, i, q, h)
  {
    var c := |roots| - 1;
    forall t, z | 0 <= t < h && t < |q| && 0 <= q[t] < |W| && z in W[q[t]]
      ensures 0 <= z < |id| && id[z] == c
    {
      if t == h - 1 {
        var k :| 0 <= k < |W[q[t]]| && W[q[t]][k] == z;
      }
    }
  }

  /** An exhausted queue closes the component; the largest label is updated. */
  lemma InnerDone(W: Adjacency, id: seq<int>, nodes: seq<int>, roots: seq<int>, largest: int, i: int, q: seq<int>,
                  c: int, largest': int)
    requires Inner(W, id, nodes, roots, largest, i, q, |q|) && c == |roots| - 1
    requires 0 <= largest <= |W| && c <= |W| ==> largest' == if nodes[c] > nodes[largest] then c else largest
    ensures 0 <= largest <= |W| && c <= |W|
    ensures Outer(W, id, nodes, roots, largest', i + 1)
  {
    assert 1 <= c <= |W| by {
      assert roots[c] == i;
    }
    forall x, z | 0 <= x < |W| && id[x] != 0 && id[x] != |roots| && z in W[x]
      ensures 0 <= z < |id| && id[z] == id[x]
    {
      if id[x] == c {
        var t :| 0 <= t < |q| && q[t] == x;
      }
    }
    assert nodes[c] >= 1 by {
      CountPositive(id, i);
    }
  }

  /** Once every node is labelled the labelling is what computeWCC promises. */
  lemma OuterDone(W: Adjacency, id: seq<int>, nodes: seq<int>, roots: seq<int>, largest: int)
    requires Symmetric(W)
    requires Outer(W, id, nodes, roots, largest, |W|)
    ensures WccOk(Components(|roots| - 1, largest, id, nodes), W)
  {
    assert ComponentsShaped(Components(|roots| - 1, largest, id, nodes), |W|) by {
      CountZero(id, 0);
    }
    assert SameLabelIffConnected(W, id) by {
      OuterDoneConnected(W, id, roots);
    }
    assert IssuedInOrder(id) by {
      forall x | 0 <= x < |W|
        ensures id[x] in id[..x] || id[x] == Max0(id[..x]) + 1
      {
        RootOrder(id, roots, x);
      }
    }
  }

  lemma OuterDoneConnected(W: Adjacency, id: seq<int>, roots: seq<int>)
    requires Symmetric(W) && |id| == |W|
    requires LabelsBelow(id, |roots|) && (forall x :: 0 <= x < |W| ==> id[x] != 0)
    requires ClosedExcept(W, id, |roots|) && Rooted(W, id, roots)
    ensures SameLabelIffConnected(W, id)
  {
    forall u, v | 0 <= u < |W| && 0 <= v < |W|
      ensures id[u] == id[v] <==> Reaches(W, {}, u, v)
    {
      if id[u] == id[v] {
        SameRootConnected(W, id, roots, u, v);
      }
      if Reaches(W, {}, u, v) {
        var k: nat :| In(W, {}, u, k, v);
        ClosedKeepsLabel(W, id, |roots|, u, k, v);
      }
    }
  }

  /** Two nodes reached from the same root are connected, walking back to the root first. */
  lemma SameRootConnected(W: Adjacency, id: seq<int>, roots: seq<int>, u: int, v: int)
    requires Symmetric(W) && |id| == |W| && 0 <= u < |W| && 0 <= v < |W|
    requires LabelsBelow(id, |roots|) && id[u] != 0 && id[u] == id[v]
    requires Rooted(W, id, roots)
    ensures Reaches(W, {}, u, v)
  {
    var r := roots[id[u]];
    var a: nat :| In(W, {}, r, a, u);
    var b: nat :| In(W, {}, r, b, v);
    InRange(W, {}, u, 0, u);
    if r < 0 || r >= |W| {
      InOutsideSource(W, r, a, u);
    }
    InReverse(W, {}, r, u, a);
    InTrans(W, {}, u, r, v, a, b);
  }

  /** A search from a node outside the graph reaches nothing but itself. */
  lemma {:induction false} InOutsideSource(W: Adjacency, r: int, k: nat, x: int)
    requires WellFormed(W) && (r < 0 || r >= |W|) && 0 <= x < |W|
    ensures !In(W, {}, r, k, x)
  {
    if k > 0 {
      InOutsideSource(W, r, k - 1, x);
      forall p | 0 <= p < |W| && x in W[p]
        ensures !In(W, {}, r, k - 1, p)
      {
        InOutsideSource(W, r, k - 1, p);
      }
    }
  }

  /** Along a closed labelling, everything reached from a labelled node has its label. */
  lemma {:induction false} ClosedKeepsLabel(W: Adjacency, id: seq<int>, open: int, u: int, k: nat, v: int)
    requires WellFormed(W) && ClosedExcept(W, id, open) && LabelsBelow(id, open)
    requires 0 <= u < |W| && id[u] != 0
    requires In(W, {}, u, k, v)
    ensures 0 <= v < |W| && id[v] == id[u]
    decreases k
  {
    if k > 0 {
      if In(W, {}, u, k - 1, v) {
        ClosedKeepsLabel(W, id, open, u, k - 1, v);
      } else {
        var p := InPred(W, {}, u, k - 1, v);
        ClosedKeepsLabel(W, id, open, u, k - 1, p);
      }
    }
  }

  /** A node either is the root of its label, which follows every node of
      the labels before it, or comes after that root. */
  lemma RootOrder(id: seq<int>, roots: seq<int>, x: int)
    requires RootsFirst(id, roots) && LabelsBelow(id, |roots|) && 0 <= x < |id|
    requires forall y :: 0 <= y < |id| ==> id[y] != 0
    ensures id[x] in id[..x] || id[x] == Max0(id[..x]) + 1
  {
    var k := id[x];
    var r := roots[k];
    if x < r {
      assert false;
    } else if r < x {
      assert id[..x][r] == k;
    } else {
      var s := id[..x];
      forall t | 0 <= t < |s|
        ensures s[t] <= k - 1
      {
        assert s[t] == id[t];
      }
      if k > 1 {
        var r1 := roots[k - 1];
        assert r1 < x;
        assert s[r1] == k - 1;
      }
      Max0Unique(s, k - 1);
    }
  }

  /** The labelling loops of computeWCC: every node not yet labelled starts
      a breadth-first search that labels everything it reaches with the
      next label, counting the nodes per label; after each search the label
      becomes the largest when it is strictly larger than the largest so far. */
  method LabelWeak(E: seq<seq<int>>, rE: seq<seq<int>>, n: int, undirected: bool) returns (c: Components)
    requires 0 <= n <= |E| && n <= |rE|
    requires Symmetric(Weak(E, rE, n, undirected))
    ensures WccOk(c, Weak(E, rE, n, undirected))
  {
    ghost var W := Weak(E, rE, n, undirected);
    var id := seq(n, x => 0);
    var nodes := seq(n + 1, k => 0);
    var largest, next := 0, 1;
    ghost var roots := [0];
    OuterStart(W);
    for i := 0 to n
      invariant Outer(W, id, nodes, roots, largest, i) && next == |roots|
    {
      if id[i] != 0 {
        OuterSkip(W, id, nodes, roots, largest, i);
        continue;
      }
      id, nodes, largest := LabelComponent(E, rE, undirected, W, id, nodes, roots, largest, i, next);
      roots := roots + [i];
      next := next + 1;
    }
    OuterDone(W, id, nodes, roots, largest);
    c := Components(next - 1, largest, id, nodes);
  }

  /** One search of computeWCC: label the start node i and everything the
      queue reaches from it with label `next`, then update the largest label. */
  method LabelComponent(E: seq<seq<int>>, rE: seq<seq<int>>, undirected: bool, ghost W: Adjacency,
                        id: seq<int>, nodes: seq<int>, ghost roots: seq<int>, largest: int, i: int, next: int)
    returns (id': seq<int>, nodes': seq<int>, largest': int)
    requires |W| <= |E| && |W| <= |rE| && W == Weak(E, rE, |W|, undirected) && Symmetric(W)
    requires Outer(W, id, nodes, roots, largest, i) && i < |W| && id[i] == 0 && next == |roots|
    ensures Outer(W, id', nodes', roots + [i], largest', i + 1)
  {
    OuterOpen(W, id, nodes, roots, largest, i, next);
    id' := id[i := next];
    nodes' := nodes[next := nodes[next] + 1];
    ghost var roots' := roots + [i];
    var q := [i];
    var h := 0;
    while h < |q|
      invariant Inner(W, id', nodes', roots', largest, i, q, h)
      decreases Count(id', 0), |q| - h
    {
      h := h + 1;
      id', nodes', q := ScanRow(E, rE, undirected, W, id', nodes', roots', largest, i, q, h, next);
    }
    largest' := if nodes'[next] > nodes'[largest] then next else largest;
    InnerDone(W, id', nodes', roots', largest, i, q, next, largest');
  }

  /** The scan of the popped node q[h-1]: every unlabelled neighbour gets
      the open label and joins the queue. */
  method ScanRow(E: seq<seq<int>>, rE: seq<seq<int>>, undirected: bool, ghost W: Adjacency,
                 id: seq<int>, nodes: seq<int>, ghost roots: seq<int>, ghost largest: int, ghost i: int,
                 q: seq<int>, h: int, next: int)
    returns (id': seq<int>, nodes': seq<int>, q': seq<int>)
    requires |W| <= |E| && |W| <= |rE| && W == Weak(E, rE, |W|, undirected) && Symmetric(W)
    requires Inner(W, id, nodes, roots, largest, i, q, h - 1) && 1 <= h <= |q| && next == |roots| - 1
    ensures Inner(W, id', nodes', roots, largest, i, q', h)
    ensures Count(id', 0) + |q'| == Count(id, 0) + |q| && |q'| >= |q|
  {
    var current := q[h - 1];
    var nb := WeakRow(E, rE, undirected, current);
    id', nodes', q' := id, nodes, q;
    for j := 0 to |nb|
      invariant h <= |q'| && q'[h - 1] == current && nb == W[current]
      invariant Inner(W, id', nodes', roots, largest, i, q', h - 1) && ScanPrefix(W, id', current, j, next)
      invariant Count(id', 0) + |q'| == Count(id, 0) + |q| && |q'| >= |q|
    {
      var y := nb[j];
      assert y in W[current];
      if id'[y] == 0 {
        InnerDiscover(W, id', nodes', roots, largest, i, q', h, current, j, y, next);
        CountUpdate(id', y, next, 0);
        id' := id'[y := next];
        nodes' := nodes'[next := nodes'[next] + 1];
        q' := q' + [y];
      } else {
        InnerPass(W, id', nodes', roots, largest, i, q', h, current, j, y, next);
      }
    }
    InnerNext(W, id', nodes', roots, largest, i, q', h);
  }

  /** A single node with a self-loop, as loading the pair `5 5` leaves it:
      one component with label 1 = n, one past the n entries the source
      allocates for wccNodes. */
  lemma WccArraysTooShort(c: Components)
    requires WccOk(c, Weak([[0]], [[0]], 1, false))
    ensures c.count == 1 && !FitsSourceArrays(c, 1)
  {
    assert c.id[0] >= 1;
  }
}
