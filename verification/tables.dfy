/** Value-level facts about the adjacency tables of a graph: ranges,
    density of the used ids, mirror images between out- and in-lists,
    self-loop flags and sortedness, and how appending an edge or sorting the
    rows affects them. Kept apart from the `Graph` class so that each class
    invariant is one predicate over the field values. */
module Tables {
  import opened Seqs
  import opened Paths

  /** Every list below `n` sorted and deduplicated, the rest left as they are. */
  function Normalized(L: seq<seq<int>>, n: int): (r: seq<seq<int>>)
    ensures |r| == |L|
  {
    seq(|L|, i requires 0 <= i < |L| => if i < n then Dedup(L[i]) else L[i])
  }

  /** Normalising keeps the element set of every row, makes the rows below
      n strictly increasing and leaves the others alone. */
  lemma NormalizedRows(L: seq<seq<int>>, n: int)
    ensures SameSets(L, Normalized(L, n))
    ensures forall i :: 0 <= i < |L| && i < n ==> Increasing(Normalized(L, n)[i])
    ensures forall i :: n <= i < |L| && 0 <= i ==> Normalized(L, n)[i] == L[i]
  {
  }

  /** Normalising twice is normalising once. */
  lemma NormalizedIdempotent(L: seq<seq<int>>, n: int)
    ensures Normalized(Normalized(L, n), n) == Normalized(L, n)
  {
    var N := Normalized(L, n);
    forall i | 0 <= i < |L| && i < n
      ensures Dedup(N[i]) == N[i]
    {
      DedupIdempotent(N[i]);
    }
  }

  /** Lists that are already strictly increasing are left untouched. */
  lemma NormalizedSorted(L: seq<seq<int>>, n: int)
    requires forall i :: 0 <= i < |L| && i < n ==> Increasing(L[i])
    ensures Normalized(L, n) == L
  {
    forall i | 0 <= i < |L| && i < n
      ensures Dedup(L[i]) == L[i]
    {
      DedupIdempotent(L[i]);
    }
  }

  /** The undirected closure of `E` at `x`: `y` with an edge x->y or y->x. */
  ghost predicate SymEdge(E: seq<seq<int>>, x: int, y: int) {
    (0 <= x < |E| && y in E[x]) || (0 <= y < |E| && x in E[y])
  }

  /** `L` lists, for every x, the out-neighbours of x in `E` together with
      every node y below n that has x as an out-neighbour. */
  ghost predicate MirroredBelow(E: seq<seq<int>>, L: seq<seq<int>>, n: int) {
    |L| == |E| &&
    forall x, y {:trigger y in L[x]} :: 0 <= x < |E| ==> (y in L[x] <==> y in E[x] || (0 <= y < n && y < |E| && x in E[y]))
  }

  /** Row x of `L` holds exactly the y with an edge x->y or y->x in `E`. */
  ghost predicate SymClosure(E: seq<seq<int>>, L: seq<seq<int>>) {
    |L| == |E| && forall x, y {:trigger y in L[x]} :: 0 <= x < |E| ==> (y in L[x] <==> SymEdge(E, x, y))
  }

  /** The undirected closure depends on the row sets alone. */
  lemma SymClosureSameSets(E: seq<seq<int>>, L: seq<seq<int>>, L1: seq<seq<int>>)
    requires SymClosure(E, L) && SameSets(L, L1)
    ensures SymClosure(E, L1)
  {
  }

  /** The result of a component computation: the number of components,
      the id of the largest one, the component id of every node and the
      size of every component id. */
  datatype Components = Components(count: int, largest: int, id: seq<int>, nodes: seq<int>)

  const NoComponents := Components(0, 0, [], [])

  /** A component labelling of n nodes: every node carries a label in
      1 .. count, `nodes` holds the size of every label (label 0 is unused)
      and `largest` is the first label of maximum size, or 0 when there is
      no label. */
  ghost predicate ComponentsShaped(c: Components, n: int) {
    0 <= c.count <= n && |c.id| == n && |c.nodes| == n + 1 &&
    (forall i :: 0 <= i < n ==> 1 <= c.id[i] <= c.count) &&
    (forall k :: 0 <= k <= n ==> c.nodes[k] == Count(c.id, k)) &&
    FirstLargest(c.nodes, c.count, c.largest)
  }

  /** The source allocates the per-label arrays with n entries, which hold
      the labels 0 .. n-1 only. */
  predicate FitsSourceArrays(c: Components, n: int) {
    c.count < n
  }

  /** `largest` is the first of the labels 1 .. count of maximum size, or 0
      when there are none. */
  ghost predicate FirstLargest(sizes: seq<int>, count: int, largest: int) {
    0 <= count < |sizes| &&
    (count == 0 ==> largest == 0) &&
    (count > 0 ==>
      1 <= largest <= count &&
      (forall k :: 1 <= k <= count ==> sizes[k] <= sizes[largest]) &&
      (forall k :: 1 <= k < largest ==> sizes[k] < sizes[largest]))
  }

  /** Every entry of every list lies in [0, k). */
  ghost predicate Bounded(L: seq<seq<int>>, k: int) {
    forall i, v :: 0 <= i < |L| && v in L[i] ==> 0 <= v < k
  }

  /** The nodes with a nonempty out- or in-list are exactly 0 .. n-1, and
      every listed neighbour is below n. */
  ghost predicate DenseTables(E: seq<seq<int>>, rE: seq<seq<int>>, n: int) {
    |E| == |rE| &&
    (forall i :: 0 <= i < |E| ==> (i < n <==> E[i] != [] || rE[i] != [])) &&
    Bounded(E, n) && Bounded(rE, n)
  }

  /** The out-lists of the n nodes in use form a graph on those nodes. */
  lemma OutPrefix(E: seq<seq<int>>, rE: seq<seq<int>>, n: int)
    requires DenseTables(E, rE, n) && 0 <= n <= |E|
    ensures WellFormed(E[..n]) && |E[..n]| == n
  {
  }

  /** Every edge x->y listed in B appears reversed, as y->x, in A. */
  ghost predicate Covers(A: seq<seq<int>>, B: seq<seq<int>>) {
    forall x, y {:trigger y in B[x]} :: 0 <= x < |B| && y in B[x] ==> 0 <= y < |A| && x in A[y]
  }

  /** `flag[u]` records whether u has a self-loop. */
  ghost predicate SelfLoops(E: seq<seq<int>>, flag: seq<bool>) {
    |flag| == |E| && forall u :: 0 <= u < |E| ==> (flag[u] <==> u in E[u])
  }

  ghost predicate AllEmpty(L: seq<seq<int>>) {
    forall i :: 0 <= i < |L| ==> L[i] == []
  }

  ghost predicate AllIncreasing(L: seq<seq<int>>) {
    forall i :: 0 <= i < |L| ==> Increasing(L[i])
  }

  /** Appending u->v to the out-list of u and v<-u to the in-list of v. */
  function Append(E: seq<seq<int>>, u: int, v: int): (r: seq<seq<int>>)
    requires 0 <= u < |E|
    ensures |r| == |E| && forall i, x :: 0 <= i < |E| ==> (x in r[i] <==> x in E[i] || (i == u && x == v))
  {
    E[u := E[u] + [v]]
  }

  /** How many nodes an edge u->v touches for the first time. */
  function NewlyTouched(E: seq<seq<int>>, rE: seq<seq<int>>, u: int, v: int): int
    requires 0 <= u < |E| && 0 <= v < |E| && |rE| == |E|
  {
    (if E[v] == [] && rE[v] == [] then 1 else 0) + (if u != v && E[u] == [] && rE[u] == [] then 1 else 0)
  }

  /** Appending an edge keeps both tables within range. */
  lemma AppendBounded(L: seq<seq<int>>, u: int, v: int, k: int)
    requires 0 <= u < |L| && 0 <= v < k && Bounded(L, k)
    ensures Bounded(Append(L, u, v), k)
  {
  }

  /** Adding an edge whose endpoints are old nodes or the next fresh ids
      keeps the touched nodes dense. */
  lemma AppendDense(E: seq<seq<int>>, rE: seq<seq<int>>, n: int, u: int, v: int)
    requires DenseTables(E, rE, n) && 0 <= u < |E| && 0 <= v < |E|
    requires 0 <= u <= n && 0 <= v <= n + 1 && (v == n + 1 ==> u == n)
    ensures DenseTables(Append(E, u, v), Append(rE, v, u), n + NewlyTouched(E, rE, u, v))
  {
    var E1, rE1, n1 := Append(E, u, v), Append(rE, v, u), n + NewlyTouched(E, rE, u, v);
    forall i | 0 <= i < |E1|
      ensures i < n1 <==> E1[i] != [] || rE1[i] != []
    {
      if i != u && i != v {
        assert E1[i] == E[i] && rE1[i] == rE[i];
      }
    }
  }

  /** Adding an edge to both tables keeps each covering the other. */
  lemma AppendCovers(A: seq<seq<int>>, B: seq<seq<int>>, u: int, v: int)
    requires Covers(A, B) && 0 <= u < |B| && 0 <= v < |A|
    ensures Covers(Append(A, v, u), Append(B, u, v))
  {
    var A1, B1 := Append(A, v, u), Append(B, u, v);
    forall x, y | 0 <= x < |B1| && y in B1[x]
      ensures 0 <= y < |A1| && x in A1[y]
    {
      if !(x == u && y == v) {
        assert y in B[x];
      }
    }
  }

  /** Adding u->v keeps the self-loop flags exact once u's flag is raised on u == v. */
  lemma AppendSelfLoops(E: seq<seq<int>>, flag: seq<bool>, u: int, v: int)
    requires SelfLoops(E, flag) && 0 <= u < |E|
    ensures SelfLoops(Append(E, u, v), if u == v then flag[u := true] else flag)
  {
  }

  /** Two tables with the same element set in every row. */
  ghost predicate SameSets(A: seq<seq<int>>, B: seq<seq<int>>) {
    |A| == |B| && forall i, x {:trigger x in A[i]} {:trigger x in B[i]} :: 0 <= i < |A| ==> (x in A[i] <==> x in B[i])
  }

  /** Every invariant of the tables depends on the element sets alone, so
      sorting and deduplicating rows keeps it. */
  lemma SameSetsKeep(E: seq<seq<int>>, rE: seq<seq<int>>, E1: seq<seq<int>>, rE1: seq<seq<int>>, n: int, k: int)
    requires SameSets(E, E1) && SameSets(rE, rE1)
    ensures Bounded(E, k) ==> Bounded(E1, k)
    ensures DenseTables(E, rE, n) ==> DenseTables(E1, rE1, n)
    ensures Covers(E, rE) ==> Covers(E1, rE1)
    ensures Covers(rE, E) ==> Covers(rE1, E1)
    ensures AllEmpty(rE) ==> AllEmpty(rE1)
    ensures Symmetric(E) ==> Symmetric(E1)
  {
    forall i | 0 <= i < |E|
      ensures E[i] == [] <==> E1[i] == []
    {
      if E[i] != [] { var x := E[i][0]; assert x in E[i]; assert x in E1[i]; }
      if E1[i] != [] { var x := E1[i][0]; assert x in E1[i]; assert x in E[i]; }
    }
    forall i | 0 <= i < |rE|
      ensures rE[i] == [] <==> rE1[i] == []
    {
      if rE[i] != [] { var x := rE[i][0]; assert x in rE[i]; assert x in rE1[i]; }
      if rE1[i] != [] { var x := rE1[i][0]; assert x in rE1[i]; assert x in rE[i]; }
    }
  }

  /** Self-loop flags depend on the element sets alone. */
  lemma SameSetsSelfLoops(E: seq<seq<int>>, E1: seq<seq<int>>, flag: seq<bool>)
    requires SameSets(E, E1) && SelfLoops(E, flag)
    ensures SelfLoops(E1, flag)
  {
  }

  /** Normalising the rows below n of tables whose other rows are empty
      leaves every row strictly increasing. */
  lemma NormalizedIncreasing(L: seq<seq<int>>, n: int)
    requires forall i :: n <= i < |L| && 0 <= i ==> L[i] == []
    ensures AllIncreasing(Normalized(L, n))
  {
  }

  /** The edge count below n equals the total when the other rows are empty. */
  lemma SumLensDense(L: seq<seq<int>>, n: int)
    requires 0 <= n <= |L|
    requires forall i :: n <= i < |L| ==> L[i] == []
    ensures SumLens(L[..n]) == SumLens(L)
  {
    SumLensEmptyTail(L, n);
  }

  /** One more row normalised. */
  lemma NormalizedStep(L: seq<seq<int>>, i: int)
    requires 0 <= i < |L|
    ensures Normalized(L, i + 1) == Normalized(L, i)[i := Dedup(L[i])]
  {
  }

  /** `k` empty adjacency lists. */
  function EmptyLists(k: nat): (r: seq<seq<int>>)
    ensures |r| == k && forall i :: 0 <= i < k ==> r[i] == []
  {
    seq(k, _ => [])
  }

  /** `k` lowered flags. */
  function NoFlags(k: nat): (r: seq<bool>)
    ensures |r| == k && forall i :: 0 <= i < k ==> !r[i]
  {
    seq(k, _ => false)
  }

  /** `nodeMapping` and `revMapping` are inverse bijections between the
      identifiers in `nodeMapping` and the ids 0 .. nexti-1. */
  ghost predicate MappingOk(nodeMapping: map<int, int>, revMapping: map<int, int>, nexti: int) {
    0 <= nexti &&
    (forall x :: x in nodeMapping ==>
      0 <= nodeMapping[x] < nexti && nodeMapping[x] in revMapping && revMapping[nodeMapping[x]] == x) &&
    (forall i :: 0 <= i < nexti ==>
      i in revMapping && revMapping[i] in nodeMapping && nodeMapping[revMapping[i]] == i)
  }

  /** Table shapes: `maxn` slots and every listed id in range. */
  ghost predicate Shaped(E: seq<seq<int>>, rE: seq<seq<int>>, hs: seq<bool>, maxn: int, n: int) {
    maxn > 0 && |E| == maxn && |rE| == maxn && |hs| == maxn && 0 <= n <= maxn &&
    Bounded(E, maxn) && Bounded(rE, maxn)
  }

  /** How the lists and flags relate: self-loop flags exact, every in-list
      entry mirrored by an out-list entry and, for a directed graph, the
      converse; an undirected graph keeps symmetric out-lists and empty
      in-lists; the sorted flag promises strictly increasing rows. */
  ghost predicate Coherent(E: seq<seq<int>>, rE: seq<seq<int>>, hs: seq<bool>, undirected: bool, sorted: bool) {
    SelfLoops(E, hs) && Covers(E, rE) &&
    (!undirected ==> Covers(rE, E)) &&
    (undirected ==> AllEmpty(rE) && Symmetric(E)) &&
    (sorted ==> AllIncreasing(E) && AllIncreasing(rE))
  }

  /** All table invariants together. */
  ghost predicate TablesOk(E: seq<seq<int>>, rE: seq<seq<int>>, hs: seq<bool>, maxn: int, n: int, undirected: bool, sorted: bool) {
    Shaped(E, rE, hs, maxn, n) && DenseTables(E, rE, n) && Coherent(E, rE, hs, undirected, sorted)
  }

  /** The tables of a graph without edges. */
  lemma EmptyTablesOk(maxn: int)
    requires maxn > 0
    ensures TablesOk(EmptyLists(maxn), EmptyLists(maxn), NoFlags(maxn), maxn, 0, false, false)
    ensures SumLens(EmptyLists(maxn)) == 0
  {
    SumLensEmptyTail(EmptyLists(maxn), 0);
  }

  /** Appending an edge between ids that are either in use or the next fresh
      ones keeps the tables of a directed graph sound, and counts it. */
  lemma AppendKeeps(E: seq<seq<int>>, rE: seq<seq<int>>, hs: seq<bool>, maxn: int, n: int, u: int, v: int)
    requires TablesOk(E, rE, hs, maxn, n, false, false)
    requires 0 <= u <= n && 0 <= v <= n + 1 && (v == n + 1 ==> u == n) && u < maxn && v < maxn
    ensures n + NewlyTouched(E, rE, u, v) <= maxn
    ensures TablesOk(Append(E, u, v), Append(rE, v, u), if u == v then hs[u := true] else hs,
                     maxn, n + NewlyTouched(E, rE, u, v), false, false)
    ensures SumLens(Append(E, u, v)) == SumLens(E) + 1
  {
    AppendBounded(E, u, v, maxn);
    AppendBounded(rE, v, u, maxn);
    AppendDense(E, rE, n, u, v);
    AppendCovers(E, rE, v, u);
    AppendCovers(rE, E, u, v);
    AppendSelfLoops(E, hs, u, v);
    SumLensUpdate(E, u, E[u] + [v]);
  }

  /** The invariant of a graph object between calls, over its field values:
      sound tables, nonnegative counters, a numbering of exactly the n nodes
      in use, and an unloaded graph blank. */
  ghost predicate StoreOk(E: seq<seq<int>>, rE: seq<seq<int>>, hs: seq<bool>, maxn: int, n: int,
                          m: int, selfm: int, nodeMapping: map<int, int>, revMapping: map<int, int>, nexti: int,
                          loaded: bool, undirected: bool, sorted: bool) {
    TablesOk(E, rE, hs, maxn, n, undirected, sorted) &&
    0 <= m && 0 <= selfm && MappingOk(nodeMapping, revMapping, nexti) && nexti == n &&
    (!loaded ==> n == 0 && m == 0 && selfm == 0 && nodeMapping == map[])
  }

  /** The invariant of a graph object between calls: StoreOk, an edge count
      equal to the total length of the out-lists, and an undirected graph
      always sorted. */
  ghost predicate StoreValid(E: seq<seq<int>>, rE: seq<seq<int>>, hs: seq<bool>, maxn: int, n: int,
                             m: int, selfm: int, nodeMapping: map<int, int>, revMapping: map<int, int>, nexti: int,
                             loaded: bool, undirected: bool, sorted: bool) {
    StoreOk(E, rE, hs, maxn, n, m, selfm, nodeMapping, revMapping, nexti, loaded, undirected, sorted) &&
    m == SumLens(E) && (undirected ==> sorted)
  }

  /** Replacing the tables by ones with the same row sets, strictly
      increasing below n, and the edge count by their size, gives a valid
      sorted store. */
  lemma StoreResorted(E: seq<seq<int>>, rE: seq<seq<int>>, hs: seq<bool>, maxn: int, n: int,
                      m: int, selfm: int, nodeMapping: map<int, int>, revMapping: map<int, int>, nexti: int,
                      loaded: bool, undirected: bool, sorted: bool,
                      L: seq<seq<int>>, R: seq<seq<int>>)
    requires StoreOk(E, rE, hs, maxn, n, m, selfm, nodeMapping, revMapping, nexti, loaded, undirected, sorted)
    requires SameSets(E, L) && SameSets(rE, R)
    requires forall i :: 0 <= i < n && i < |L| ==> Increasing(L[i])
    requires forall i :: 0 <= i < n && i < |R| ==> Increasing(R[i])
    ensures StoreValid(L, R, hs, maxn, n, SumLens(L), selfm, nodeMapping, revMapping, nexti, loaded, undirected, true)
    ensures SumLens(L[..n]) == SumLens(L)
  {
    SameSetsKeep(E, rE, L, R, n, maxn);
    SameSetsSelfLoops(E, L, hs);
    assert AllIncreasing(L) by {
      forall i | 0 <= i < |L| ensures Increasing(L[i]) {
        if i >= n { assert L[i] == []; }
      }
    }
    assert AllIncreasing(R) by {
      forall i | 0 <= i < |R| ensures Increasing(R[i]) {
        if i >= n { assert R[i] == []; }
      }
    }
    SumLensDense(L, n);
    if !loaded {
      assert SumLens(L[..n]) == 0;
    }
  }

  /** The tables makeUndirected builds before its final sort (every edge
      mirrored, in-lists emptied) are sound tables of an undirected graph
      whose rows hold the undirected closure of the old out-lists. */
  lemma StoreSymmetrized(E: seq<seq<int>>, rE: seq<seq<int>>, hs: seq<bool>, maxn: int, n: int,
                         m: int, selfm: int, nodeMapping: map<int, int>, revMapping: map<int, int>, nexti: int,
                         loaded: bool, sorted: bool,
                         L: seq<seq<int>>, R: seq<seq<int>>)
    requires StoreOk(E, rE, hs, maxn, n, m, selfm, nodeMapping, revMapping, nexti, loaded, false, sorted)
    requires MirroredBelow(E, L, n)
    requires |R| == |rE| && forall x :: 0 <= x < |rE| ==> R[x] == if x < n then [] else rE[x]
    ensures StoreOk(L, R, hs, maxn, n, m, selfm, nodeMapping, revMapping, nexti,
                    loaded, true, false)
    ensures SymClosure(E, L)
  {
    assert TablesOk(E, rE, hs, maxn, n, false, sorted);
    assert n <= |E| && DenseTables(E, rE, n) && Bounded(E, n);
    assert AllEmpty(R);
    forall x, y | 0 <= x < |L| && y in L[x]
      ensures 0 <= y < n
    {
      assert y in E[x] || (0 <= y < n && x in E[y]);
    }
    assert Bounded(L, n);
    forall x, y | 0 <= x < |L| && y in L[x]
      ensures x in L[y]
    {
      if y in E[x] {
        assert E[x] != [];
        assert 0 <= x < n;
      } else {
        assert x in E[y];
      }
    }
    forall i | 0 <= i < |L|
      ensures i < n <==> L[i] != []
    {
      if i < n {
        if E[i] != [] {
          var y := E[i][0];
          assert y in E[i];
          assert y in L[i];
        } else {
          var y := rE[i][0];
          assert y in rE[i];
          assert i in E[y];
          assert y in L[i];
        }
      } else {
        var y := SomeMember(L[i]);
        assert E[i] == [];
        assert 0 <= y < |E| ==> i !in E[y];
        assert y !in L[i];
      }
    }
    assert Bounded(R, n);
    assert |L| == |R|;
    assert DenseTables(L, R, n);
    assert Symmetric(L);
  }
}
