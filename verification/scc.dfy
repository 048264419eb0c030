/** The second pass of computeSCC (src/Graph.cpp), Kosaraju's algorithm:
    the finished nodes are taken from the top of the stack `F` the first
    pass left, and every one not yet labelled starts goMarkSCC, a search
    along the in-lists through unlabelled nodes that labels what it meets
    with the next label. A node then carries the same label as another
    exactly when each reaches the other along the out-lists. */
module StrongComponents {
  import opened Seqs
  import opened Paths
  import opened Tables
  import opened Connectivity
  import opened PostOrder

  /** u and v reach each other. */
  ghost predicate Strong(G: Adjacency, u: int, v: int) {
    Reaches(G, {}, u, v) && Reaches(G, {}, v, u)
  }

  /** Two nodes carry the same label exactly when each reaches the other. */
  ghost predicate SameLabelIffStrong(G: Adjacency, id: seq<int>) {
    |id| == |G| &&
    forall u, v :: 0 <= u < |G| && 0 <= v < |G| ==> (id[u] == id[v] <==> Strong(G, u, v))
  }

  /** What computeSCC promises about its result. */
  ghost predicate SccOk(c: Components, G: Adjacency) {
    ComponentsShaped(c, |G|) && SameLabelIffStrong(G, c.id)
  }

  /** R lists, for every node, exactly the nodes with an edge to it. */
  ghost predicate Transposed(G: Adjacency, R: Adjacency) {
    |R| == |G| &&
    (forall v, r {:trigger r in R[v]} :: 0 <= v < |G| && r in R[v] ==> 0 <= r < |G| && v in G[r]) &&
    (forall r, v {:trigger v in G[r]} :: 0 <= r < |G| && v in G[r] ==> 0 <= v < |G| && r in R[v])
  }

  lemma TransposedTables(E: seq<seq<int>>, rE: seq<seq<int>>, n: int)
    requires DirectedTables(E, rE, n) && Covers(rE, E)
    ensures WellFormed(E[..n]) && Transposed(E[..n], rE[..n])
  {
  }

  // Reachability facts.

  lemma ReachRefl(G: Adjacency, a: int)
    ensures Reaches(G, {}, a, a)
  {
    assert In(G, {}, a, 0, a);
  }

  lemma ReachEdge(G: Adjacency, a: int, b: int)
    requires 0 <= a < |G| && b in G[a]
    ensures Reaches(G, {}, a, b)
  {
    InStep(G, {}, a, 0, a, b);
  }

  lemma ReachTrans(G: Adjacency, a: int, b: int, c: int)
    requires Reaches(G, {}, a, b) && Reaches(G, {}, b, c)
    ensures Reaches(G, {}, a, c)
  {
    var i: nat :| In(G, {}, a, i, b);
    var j: nat :| In(G, {}, b, j, c);
    InTrans(G, {}, a, b, c, i, j);
  }

  // The finishing-order argument.

  /** A path from a node finished by time t to a node finished after t
      leaves the finished nodes along some edge b->y. */
  lemma {:induction false} Crossing(G: Adjacency, fin: seq<int>, t: int, s: int, k: nat, x: int) returns (b: int, y: int)
    requires WellFormed(G) && |fin| == |G| && 0 <= s < |G| && 0 <= x < |G|
    requires In(G, {}, s, k, x) && fin[s] <= t < fin[x]
    ensures 0 <= b < |G| && y in G[b] && 0 <= y < |G| && fin[b] <= t < fin[y]
    ensures Reaches(G, {}, s, b) && Reaches(G, {}, y, x)
    decreases k
  {
    if k == 0 {
      assert false;
    } else if In(G, {}, s, k - 1, x) {
      b, y := Crossing(G, fin, t, s, k - 1, x);
    } else {
      var p := InPred(G, {}, s, k - 1, x);
      if fin[p] <= t {
        b, y := p, x;
        ReachRefl(G, x);
      } else {
        b, y := Crossing(G, fin, t, s, k - 1, p);
        ReachEdge(G, p, x);
        ReachTrans(G, y, p, x);
      }
    }
  }

  /** A node s finished before a node x it reaches lies in a strongly
      connected component with a node finished no earlier than x. */
  lemma {:induction false} Escalate(G: Adjacency, F: seq<int>, fin: seq<int>, s: int, x: int) returns (z: int)
    requires WellFormed(G) && DfsDone(G, F, fin)
    requires 0 <= s < |G| && 0 <= x < |G| && Reaches(G, {}, s, x) && fin[s] < fin[x]
    ensures 0 <= z < |G| && Strong(G, z, s) && fin[z] >= fin[x]
    decreases fin[x] - fin[s]
  {
    var k: nat :| In(G, {}, s, k, x);
    var b, y := Crossing(G, fin, fin[s], s, k, x);
    assert F[fin[s]] == s;
    assert Reaches(G, {}, y, s);
    ReachEdge(G, b, y);
    ReachTrans(G, s, b, y);
    if fin[y] >= fin[x] {
      z := y;
    } else {
      z := Escalate(G, F, fin, y, x);
      ReachTrans(G, z, y, s);
      ReachTrans(G, s, y, z);
    }
  }

  /** Labelled nodes carry the same label exactly as they reach each other,
      and never the label of a node outside their component. */
  ghost predicate LabelledStrong(G: Adjacency, id: seq<int>) {
    |id| == |G| &&
    forall u, v :: 0 <= u < |G| && 0 <= v < |G| && id[u] != 0 ==> (id[u] == id[v] <==> Strong(G, u, v))
  }

  /** What stays fixed during one run of goMarkSCC from x = F[p-1]. */
  ghost predicate Frozen(G: Adjacency, F: seq<int>, fin: seq<int>, id: seq<int>, p: int, c: int) {
    WellFormed(G) && DfsDone(G, F, fin) && |id| == |G| && 0 < p <= |F| &&
    LabelsBelow(id, c) && (forall t :: p <= t < |F| ==> id[F[t]] != 0) && LabelledStrong(G, id)
  }

  /** Kosaraju's argument: when x = F[p-1] is the unlabelled node finished
      last, every unlabelled node that reaches x is reached from x. */
  lemma Kosaraju(G: Adjacency, F: seq<int>, fin: seq<int>, id: seq<int>, p: int, c: int, x: int, s: int)
    requires Frozen(G, F, fin, id, p, c) && x == F[p - 1]
    requires 0 <= s < |G| && id[s] == 0 && Reaches(G, {}, s, x)
    ensures Reaches(G, {}, x, s)
  {
    if s != x {
      assert F[fin[s]] == s;
      assert fin[s] < p;
      assert fin[x] == p - 1;
      var z := Escalate(G, F, fin, s, x);
      assert id[z] == 0;
      assert F[fin[z]] == z;
      assert fin[z] == p - 1;
    } else {
      ReachRefl(G, x);
    }
  }

  // goMarkSCC.

  /** The invariant of goMarkSCC from x with label c: only unlabelled nodes
      of x's component get label c, everything on the stack reaches x, and
      every in-neighbour of a node with label c is labelled or on the stack. */
  ghost predicate MarkInv(G: Adjacency, R: Adjacency, id: seq<int>, id1: seq<int>, nodes: seq<int>, nodes1: seq<int>,
                          x: int, c: int, stack: seq<int>) {
    |id1| == |G| && |id| == |G| && 0 <= x < |G| && id[x] == 0 && 0 <= c < |nodes| && |nodes1| == |nodes| &&
    (forall v :: 0 <= v < |G| ==> id1[v] == id[v] || (id[v] == 0 && id1[v] == c)) &&
    (forall v :: 0 <= v < |G| && id1[v] == c ==> Strong(G, v, x)) &&
    (forall j :: 0 <= j < |stack| ==> 0 <= stack[j] < |G| && Reaches(G, {}, stack[j], x)) &&
    (forall v, r {:trigger r in R[v]} :: 0 <= v < |G| && v < |R| && id1[v] == c && r in R[v] ==>
      0 <= r < |G| && (id1[r] != 0 || r in stack)) &&
    (id1[x] == c || x in stack) &&
    Counted(id1, nodes1) && nodes1 == nodes[c := nodes1[c]]
  }

  /** goMarkSCC labels exactly the unlabelled nodes of x's component. */
  ghost predicate MarkedExactly(G: Adjacency, id: seq<int>, id1: seq<int>, x: int, c: int) {
    |id| == |G| && |id1| == |G| &&
    forall v :: 0 <= v < |G| ==> id1[v] == if id[v] == 0 && Strong(G, v, x) then c else id[v]
  }

  lemma MarkStart(G: Adjacency, R: Adjacency, F: seq<int>, fin: seq<int>, id: seq<int>, nodes: seq<int>, p: int,
                  x: int, c: int)
    requires Frozen(G, F, fin, id, p, c) && x == F[p - 1] && id[x] == 0 && Counted(id, nodes) && 0 <= c < |nodes|
    ensures MarkInv(G, R, id, id, nodes, nodes, x, c, [x])
  {
    ReachRefl(G, x);
  }

  /** A popped node that is labelled already is dropped. */
  lemma MarkPopLabelled(G: Adjacency, R: Adjacency, id: seq<int>, id1: seq<int>, nodes: seq<int>, nodes1: seq<int>,
                        x: int, c: int, stack: seq<int>)
    requires MarkInv(G, R, id, id1, nodes, nodes1, x, c, stack) && |stack| > 0
    requires 0 <= stack[|stack| - 1] < |G| && id1[stack[|stack| - 1]] != 0
    ensures MarkInv(G, R, id, id1, nodes, nodes1, x, c, stack[..|stack| - 1])
  {
    var cur, stack' := stack[|stack| - 1], stack[..|stack| - 1];
    forall v, r | 0 <= v < |G| && v < |R| && id1[v] == c && r in R[v]
      ensures 0 <= r < |G| && (id1[r] != 0 || r in stack')
    {
      if r != cur && id1[r] == 0 {
        var j :| 0 <= j < |stack| && stack[j] == r;
        assert stack'[j] == r;
      }
    }
    if x != cur && id1[x] != c {
      var j :| 0 <= j < |stack| && stack[j] == x;
      assert stack'[j] == x;
    }
  }

  /** The in-neighbours goMarkSCC pushes after labelling cur. */
  ghost predicate Pushed(R: Adjacency, id2: seq<int>, cur: int, base: seq<int>, stack2: seq<int>)
    requires 0 <= cur < |R|
  {
    |stack2| >= |base| && stack2[..|base|] == base &&
    (forall j :: |base| <= j < |stack2| ==> stack2[j] in R[cur]) &&
    (forall r :: r in R[cur] ==> 0 <= r < |id2| && (id2[r] != 0 || r in stack2))
  }

  /** A popped unlabelled node belongs to x's component: it gets label c and
      its unlabelled in-neighbours are pushed. */
  lemma MarkPopOpen(G: Adjacency, R: Adjacency, F: seq<int>, fin: seq<int>, p: int, id: seq<int>, id1: seq<int>,
                    nodes: seq<int>, nodes1: seq<int>, x: int, c: int, stack: seq<int>, cur: int, stack2: seq<int>)
    requires Frozen(G, F, fin, id, p, c) && x == F[p - 1] && Transposed(G, R) && 1 <= c
    requires MarkInv(G, R, id, id1, nodes, nodes1, x, c, stack) && |stack| > 0 && cur == stack[|stack| - 1]
    requires 0 <= cur < |G| && id1[cur] == 0
    requires Pushed(R, id1[cur := c], cur, stack[..|stack| - 1], stack2)
    ensures MarkInv(G, R, id, id1[cur := c], nodes, nodes1[c := nodes1[c] + 1], x, c, stack2)
    ensures Count(id1[cur := c], 0) < Count(id1, 0)
  {
    var id2 := id1[cur := c];
    var base := stack[..|stack| - 1];
    CountUpdate(id1, cur, c, 0);
    assert Strong(G, cur, x) by {
      assert stack[|stack| - 1] == cur;
      Kosaraju(G, F, fin, id, p, c, x, cur);
    }
    assert Counted(id2, nodes1[c := nodes1[c] + 1]) by {
      CountedStep(id1, nodes1, cur, c);
    }
    forall j | 0 <= j < |stack2|
      ensures 0 <= stack2[j] < |G| && Reaches(G, {}, stack2[j], x)
    {
      if j < |base| {
        assert stack2[j] == stack[j];
      } else {
        var r := stack2[j];
        assert r in R[cur];
        ReachEdge(G, r, cur);
        ReachTrans(G, r, cur, x);
      }
    }
    forall v, r | 0 <= v < |G| && v < |R| && id2[v] == c && r in R[v]
      ensures 0 <= r < |G| && (id2[r] != 0 || r in stack2)
    {
      if v != cur && r != cur && id1[r] == 0 {
        var j :| 0 <= j < |stack| && stack[j] == r;
        assert stack2[j] == r;
      }
    }
    if x != cur && id1[x] != c {
      var j :| 0 <= j < |stack| && stack[j] == x;
      assert stack2[j] == x;
    }
  }

  /** With the stack empty, everything that reaches a node with label c
      through x's component has label c too. */
  lemma {:induction false} MarkClosed(G: Adjacency, R: Adjacency, id: seq<int>, id1: seq<int>, nodes: seq<int>,
                                      nodes1: seq<int>, x: int, c: int, v: int, k: nat, w: int)
    requires MarkInv(G, R, id, id1, nodes, nodes1, x, c, []) && Transposed(G, R) && WellFormed(G)
    requires LabelledStrong(G, id) && id[x] == 0 && c != 0
    requires 0 <= v < |G| && In(G, {}, v, k, w) && 0 <= w < |G| && id1[w] == c && Reaches(G, {}, x, v)
    ensures id1[v] == c
    decreases k
  {
    if k > 0 {
      if In(G, {}, v, k - 1, w) {
        MarkClosed(G, R, id, id1, nodes, nodes1, x, c, v, k - 1, w);
      } else {
        var q := InPred(G, {}, v, k - 1, w);
        assert q in R[w];
        ReachEdge(G, q, w);
        ReachTrans(G, q, w, x);
        ReachTrans(G, x, v, q) by {
          assert In(G, {}, v, k - 1, q);
        }
        assert id[q] == 0;
        MarkClosed(G, R, id, id1, nodes, nodes1, x, c, v, k - 1, q);
      }
    }
  }

  lemma MarkDone(G: Adjacency, R: Adjacency, F: seq<int>, fin: seq<int>, p: int, id: seq<int>, id1: seq<int>,
                 nodes: seq<int>, nodes1: seq<int>, x: int, c: int)
    requires Frozen(G, F, fin, id, p, c) && x == F[p - 1] && id[x] == 0 && Transposed(G, R) && 1 <= c
    requires MarkInv(G, R, id, id1, nodes, nodes1, x, c, [])
    ensures MarkedExactly(G, id, id1, x, c)
  {
    forall v | 0 <= v < |G| && id[v] == 0 && Strong(G, v, x)
      ensures id1[v] == c
    {
      var k: nat :| In(G, {}, v, k, x);
      MarkClosed(G, R, id, id1, nodes, nodes1, x, c, v, k, x);
    }
  }

  /** goMarkSCC: from x, pop nodes; an unlabelled one gets label c, is
      counted, and its unlabelled in-neighbours are pushed. */
  method Mark(rE: seq<seq<int>>, ghost G: Adjacency, ghost R: Adjacency, ghost F: seq<int>, ghost fin: seq<int>,
              ghost p: int, id: seq<int>, nodes: seq<int>, x: int, c: int)
    returns (id': seq<int>, nodes': seq<int>)
    requires |R| <= |rE| && R == rE[..|R|] && Transposed(G, R)
    requires Frozen(G, F, fin, id, p, c) && x == F[p - 1] && id[x] == 0
    requires Counted(id, nodes) && 1 <= c < |nodes|
    ensures MarkedExactly(G, id, id', x, c)
    ensures Counted(id', nodes') && nodes' == nodes[c := nodes'[c]]
  {
    id', nodes' := id, nodes;
    var stack := [x];
    MarkStart(G, R, F, fin, id, nodes, p, x, c);
    while |stack| > 0
      invariant MarkInv(G, R, id, id', nodes, nodes', x, c, stack)
      decreases Count(id', 0), |stack|
    {
      var current := stack[|stack| - 1];
      if id'[current] == 0 {
        assert rE[current] == R[current];
        var stack2 := PushPreds(rE, R, id'[current := c], current, stack[..|stack| - 1]);
        MarkPopOpen(G, R, F, fin, p, id, id', nodes, nodes', x, c, stack, current, stack2);
        id' := id'[current := c];
        nodes' := nodes'[c := nodes'[c] + 1];
        stack := stack2;
      } else {
        MarkPopLabelled(G, R, id, id', nodes, nodes', x, c, stack);
        stack := stack[..|stack| - 1];
      }
    }
    MarkDone(G, R, F, fin, p, id, id', nodes, nodes', x, c);
  }

  /** The inner loop of goMarkSCC: push every unlabelled in-neighbour of cur. */
  method PushPreds(rE: seq<seq<int>>, ghost R: Adjacency, id: seq<int>, cur: int, base: seq<int>)
    returns (stack: seq<int>)
    requires |R| <= |rE| && R == rE[..|R|] && 0 <= cur < |R| && WellFormed(R) && |id| == |R|
    ensures Pushed(R, id, cur, base, stack)
  {
    stack := base;
    var preds := rE[cur];
    for i := 0 to |preds|
      invariant preds == R[cur] && |stack| >= |base| && stack[..|base|] == base
      invariant forall j :: |base| <= j < |stack| ==> stack[j] in R[cur]
      invariant forall t :: 0 <= t < i ==> 0 <= preds[t] < |id| && (id[preds[t]] != 0 || preds[t] in stack)
    {
      var r := preds[i];
      assert r in R[cur];
      if id[r] == 0 {
        stack := stack + [r];
      }
    }
  }

  // The popping loop of computeSCC.

  /** While the stack F[..p] is popped: every node finished at p or later is
      labelled, the labels 1 .. c-1 in use are whole strongly connected
      components, counted, with the first largest recorded. */
  ghost predicate Popping(G: Adjacency, F: seq<int>, fin: seq<int>, id: seq<int>, nodes: seq<int>, c: int,
                          largest: int, p: int) {
    WellFormed(G) && DfsDone(G, F, fin) && |id| == |G| && 0 <= p <= |F| && 1 <= c && c - 1 <= |F| - p &&
    LabelsBelow(id, c) && (forall t :: p <= t < |F| ==> id[F[t]] != 0) && LabelledStrong(G, id) &&
    Counted(id, nodes) && FirstLargest(nodes, c - 1, largest)
  }

  lemma PoppingStart(G: Adjacency, F: seq<int>, fin: seq<int>)
    requires WellFormed(G) && DfsDone(G, F, fin)
    ensures Popping(G, F, fin, seq(|G|, v => 0), seq(|G| + 1, k => 0), 1, 0, |F|)
  {
    var id := seq(|G|, v => 0);
    forall k | 1 <= k <= |id|
      ensures Count(id, k) == 0
    {
      CountZero(id, k);
    }
  }

  /** A labelled top of the stack is popped. */
  lemma PoppingSkip(G: Adjacency, F: seq<int>, fin: seq<int>, id: seq<int>, nodes: seq<int>, c: int,
                    largest: int, p: int)
    requires Popping(G, F, fin, id, nodes, c, largest, p) && p > 0 && id[F[p - 1]] != 0
    ensures Popping(G, F, fin, id, nodes, c, largest, p - 1)
  {
  }

  /** After goMarkSCC from the unlabelled top x, its component carries label c. */
  lemma PoppingOpen(G: Adjacency, F: seq<int>, fin: seq<int>, id: seq<int>, nodes: seq<int>, c: int,
                    largest: int, p: int, id': seq<int>, nodes': seq<int>, largest': int)
    requires Popping(G, F, fin, id, nodes, c, largest, p) && p > 0 && id[F[p - 1]] == 0
    requires MarkedExactly(G, id, id', F[p - 1], c)
    requires Counted(id', nodes') && |nodes'| == |nodes| && c < |nodes| && nodes' == nodes[c := nodes'[c]]
    requires 0 <= largest < |nodes| ==> largest' == if nodes'[c] > nodes'[largest] then c else largest
    ensures Popping(G, F, fin, id', nodes', c + 1, largest', p - 1)
  {
    var x := F[p - 1];
    ReachRefl(G, x);
    assert id'[x] == c;
    assert nodes'[c] >= 1 by {
      CountPositive(id', x);
    }
    assert nodes'[0] == 0;
    assert forall k :: 1 <= k < c ==> nodes'[k] == nodes[k];
    assert LabelledStrong(G, id') by {
      MarkedStrong(G, id, id', x, c);
    }
  }

  lemma MarkedStrong(G: Adjacency, id: seq<int>, id': seq<int>, x: int, c: int)
    requires LabelledStrong(G, id) && LabelsBelow(id, c) && 1 <= c && 0 <= x < |G| && id[x] == 0
    requires MarkedExactly(G, id, id', x, c)
    ensures LabelledStrong(G, id')
  {
    forall u, v | 0 <= u < |G| && 0 <= v < |G| && id'[u] != 0
      ensures id'[u] == id'[v] <==> Strong(G, u, v)
    {
      if id[u] == 0 {
        assert Strong(G, u, x);
        if Strong(G, u, v) {
          ReachTrans(G, v, u, x);
          ReachTrans(G, x, u, v);
          assert id[v] == 0;
        }
        if id'[v] == c {
          ReachTrans(G, u, x, v);
          ReachTrans(G, v, x, u);
        }
      }
    }
  }

  /** Once the stack is empty the labelling is what computeSCC promises. */
  lemma PoppingDone(G: Adjacency, F: seq<int>, fin: seq<int>, id: seq<int>, nodes: seq<int>, c: int, largest: int)
    requires Popping(G, F, fin, id, nodes, c, largest, 0)
    ensures SccOk(Components(c - 1, largest, id, nodes), G)
  {
    forall v | 0 <= v < |G|
      ensures 1 <= id[v] < c
    {
      assert F[fin[v]] == v;
    }
    CountZero(id, 0);
  }

  /** computeSCC on the directed tables of n nodes: the first pass finishes
      every node, then the stack of finished nodes is popped and every
      unlabelled top starts goMarkSCC with the next label; after each search
      the label becomes the largest when it is strictly larger than the
      largest so far. */
  method LabelStrong(E: seq<seq<int>>, rE: seq<seq<int>>, n: int) returns (c: Components)
    requires DirectedTables(E, rE, n) && Covers(rE, E)
    ensures SccOk(c, E[..n])
  {
    ghost var G, R := E[..n], rE[..n];
    TransposedTables(E, rE, n);
    var F;
    ghost var fin;
    F, fin := VisitAll(E, rE, n);
    var id := seq(n, v => 0);
    var nodes := seq(n + 1, k => 0);
    var largest, next := 0, 1;
    var p := |F|;
    PoppingStart(G, F, fin);
    while p > 0
      invariant Popping(G, F, fin, id, nodes, next, largest, p)
      decreases p
    {
      var x := F[p - 1];
      if id[x] == 0 {
        var id', nodes' := Mark(rE, G, R, F, fin, p, id, nodes, x, next);
        var largest' := if nodes'[next] > nodes'[largest] then next else largest;
        PoppingOpen(G, F, fin, id, nodes, next, largest, p, id', nodes', largest');
        id, nodes, largest := id', nodes', largest';
        next := next + 1;
      } else {
        PoppingSkip(G, F, fin, id, nodes, next, largest, p);
      }
      p := p - 1;
    }
    PoppingDone(G, F, fin, id, nodes, next, largest);
    c := Components(next - 1, largest, id, nodes);
  }

  /** No two distinct nodes reach each other. */
  ghost predicate Acyclic(G: Adjacency) {
    forall u, v :: 0 <= u < |G| && 0 <= v < |G| && u != v && Reaches(G, {}, u, v) ==> !Reaches(G, {}, v, u)
  }

  /** Every strongly connected component of a graph without cycles is a single node. */
  lemma DagSingletons(c: Components, G: Adjacency)
    requires SccOk(c, G) && Acyclic(G)
    ensures forall u, v :: 0 <= u < |G| && 0 <= v < |G| && c.id[u] == c.id[v] ==> u == v
  {
  }

  /** The out-lists of two nodes joined by the single edge 0->1. */
  function OneEdge(): (G: Adjacency)
    ensures |G| == 2
  {
    [[1], []]
  }

  lemma {:induction false} OneEdgeNoWayBack(k: nat)
    ensures !In(OneEdge(), {}, 1, k, 0)
  {
    if k > 0 {
      OneEdgeNoWayBack(k - 1);
      forall p | 0 <= p < 2
        ensures 0 !in OneEdge()[p]
      {
      }
    }
  }

  /** On the edge 0->1 each node is its own component, so label 2 = n is
      issued, one past the n entries the source allocates for sccNodes. */
  lemma SccArraysTooShort(c: Components)
    requires SccOk(c, OneEdge())
    ensures c.count == 2 && !FitsSourceArrays(c, |OneEdge()|)
  {
    assert !Reaches(OneEdge(), {}, 1, 0) by {
      forall k: nat
        ensures !In(OneEdge(), {}, 1, k, 0)
      {
        OneEdgeNoWayBack(k);
      }
    }
    assert c.id[0] != c.id[1];
  }
}
