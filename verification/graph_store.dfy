/** The graph store: the `Graph` object with its adjacency lists, node
    numbering, counters and status flags, and the operations that build and
    normalise it (src/Graph.cpp). Out-neighbours of node i are `E[i]`,
    in-neighbours `rE[i]`; both tables have `maxn` slots, and the nodes in use
    are the dense ids 0 .. n-1 handed out in order of first appearance. */
module GraphStore {
  import opened Seqs
  import opened Paths
  import opened Tables
  import opened Loading
  import opened Connectivity
  import opened PostOrder
  import opened StrongComponents
  import opened DistanceSearch
  import opened Triangles
  import opened LeafPruning
  import opened Bounding
  import opened Extrema
  import opened Centrality
  import Brandes

  /** The part of the graph a query is restricted to. */
  datatype Scope = Full | Lwcc | Lscc

  /** Labels marked done are the weak component labels of the lists. */
  ghost predicate LabelsOf(done: bool, c: Components, E: seq<seq<int>>, rE: seq<seq<int>>, n: int, undirected: bool) {
    done ==> 0 <= n <= |E| && n <= |rE| && WccOk(c, Weak(E, rE, n, undirected))
  }

  /** The binary search of `edge` over a strictly increasing list. */
  method SortedSearch(L: seq<int>, b: int) returns (found: bool)
    requires Increasing(L)
    ensures found == (b in L)
  {
    var first, last := 0, |L| - 1;
    while first <= last
      invariant 0 <= first && last < |L| && first <= last + 1
      invariant forall k :: 0 <= k < first ==> L[k] < b
      invariant forall k :: last < k < |L| ==> b < L[k]
      decreases last - first
    {
      var mid := (first + last) / 2;
      if b > L[mid] {
        first := mid + 1;
      } else if b < L[mid] {
        last := mid - 1;
      } else {
        return true;
      }
    }
    return false;
  }

  /** The loop of sortEdgeList: sort and deduplicate rows 0 .. n-1 of both
      tables and add up the lengths of the resulting out-lists. */
  method NormalizeRows(E: seq<seq<int>>, rE: seq<seq<int>>, n: int) returns (L: seq<seq<int>>, R: seq<seq<int>>, total: int)
    requires 0 <= n <= |E| == |rE|
    ensures SameSets(E, L) && SameSets(rE, R) && total == SumLens(L[..n])
    ensures forall i :: 0 <= i < n ==> Increasing(L[i]) && Increasing(R[i])
  {
    L, R, total := E, rE, 0;
    var i := 0;
    while i < n
      invariant 0 <= i <= n
      invariant L == Normalized(E, i) && R == Normalized(rE, i)
      invariant total == SumLens(L[..i])
    {
      NormalizedStep(E, i);
      NormalizedStep(rE, i);
      L := L[i := Dedup(L[i])];
      R := R[i := Dedup(R[i])];
      assert L[..i + 1][..i] == L[..i];
      total := total + |L[i]|;
      i := i + 1;
    }
    NormalizedRows(E, n);
    NormalizedRows(rE, n);
  }

  /** The two loops of makeUndirected: for each node i below n, and each
      entry t of its out-list (including entries pushed there by earlier
      rows), push i onto the out-list of t; then empty the in-list of i.
      Pushes only ever append, so the entries of row i are read from a copy
      taken when row i is reached. */
  method SymmetrizeRows(E: seq<seq<int>>, rE: seq<seq<int>>, n: int) returns (L: seq<seq<int>>, R: seq<seq<int>>)
    requires 0 <= n <= |E| == |rE| && Bounded(E, |E|)
    ensures MirroredBelow(E, L, n)
    ensures |R| == |rE| && forall x :: 0 <= x < |rE| ==> R[x] == if x < n then [] else rE[x]
  {
    L, R := E, rE;
    var i := 0;
    while i < n
      invariant 0 <= i <= n && |L| == |E| && |R| == |rE|
      invariant forall x, y {:trigger y in E[x]} :: 0 <= x < |E| && y in E[x] ==> y in L[x]
      invariant forall x, y {:trigger y in L[x]} :: 0 <= x < |E| && y in L[x] ==> y in E[x] || (0 <= y < i && x in E[y])
      invariant forall y, x {:trigger x in E[y]} :: 0 <= y < i && x in E[y] ==> y in L[x]
      invariant forall x :: 0 <= x < |rE| ==> R[x] == if x < i then [] else rE[x]
    {
      var row := L[i];
      ghost var L0 := L;
      forall k | 0 <= k < |row|
        ensures 0 <= row[k] < |E| && (row[k] in E[i] || i in E[row[k]])
      {
        var y := row[k];
        assert y in L[i];
        assert y in E[i] || (0 <= y < i && i in E[y]);
      }
      var j := 0;
      while j < |row|
        invariant 0 <= j <= |row| && |L| == |E|
        invariant forall x, y {:trigger y in L0[x]} :: 0 <= x < |E| && y in L0[x] ==> y in L[x]
        invariant forall x, y {:trigger y in L[x]} :: 0 <= x < |E| && y in L[x] ==> y in E[x] || (0 <= y <= i && x in E[y])
        invariant forall k :: 0 <= k < j ==> i in L[row[k]]
      {
        var t := row[j];
        ghost var L1 := L;
        L := L[t := L[t] + [i]];
        forall x, y | 0 <= x < |E| && y in L[x]
          ensures y in E[x] || (0 <= y <= i && x in E[y])
        {
          if x != t || y != i {
            assert y in L1[x];
          }
        }
        j := j + 1;
      }
      forall x | 0 <= x < |E| && x in E[i]
        ensures i in L[x]
      {
        assert x in L0[i];
        var k :| 0 <= k < |row| && row[k] == x;
      }
      R := R[i := []];
      i := i + 1;
    }
  }

  class Graph {
    /** Number of slots of the adjacency tables; ids at or above it are refused. */
    const maxn: int
    var nodeMapping: map<int, int>
    var revMapping: map<int, int>
    var E: seq<seq<int>>
    var rE: seq<seq<int>>
    var hasSelfLoop: seq<bool>
    var n: int
    var m: int
    var selfm: int
    var nexti: int
    var loaded: bool
    var sortedAndUnique: bool
    var undirected: bool
    /** Weakly and strongly connected components, meaningful while the
        matching done flag is up. */
    var wcc: Components
    var scc: Components
    var doneWcc: bool
    var doneScc: bool
    /** The pruning marks of the last BoundingDiameters run or brute-force
        search (-1 for a node that is searched, the representative otherwise),
        and the eccentricity lower bounds that run left behind. */
    var pruned: seq<int>
    var eccLower: seq<int>

    /** One out-list, one in-list and one self-loop flag per possible id. */
    ghost predicate Sized()
      reads this
    {
      maxn > 0 && |E| == maxn && |rE| == maxn && |hasSelfLoop| == maxn
    }

    /** `nodeMapping` and `revMapping` are inverse bijections between the
        identifiers seen so far and the ids 0 .. nexti-1. */
    ghost predicate MappingValid()
      reads this
    {
      MappingOk(nodeMapping, revMapping, nexti)
    }

    /** The state of a graph nothing has been loaded into. */
    ghost predicate Blank()
      reads this
    {
      n == 0 && m == 0 && selfm == 0 && nexti == 0 && nodeMapping == map[]
    }

    /** Everything but the edge count and the sortedness that undirectedness implies. */
    ghost predicate Prevalid()
      reads this
    {
      StoreOk(E, rE, hasSelfLoop, maxn, n, m, selfm, nodeMapping, revMapping, nexti,
              loaded, undirected, sortedAndUnique) &&
      ComponentsValid() && WccCurrent()
    }

    /** Component results that are marked done fit the n nodes. */
    ghost predicate ComponentsValid()
      reads this
    {
      (doneWcc ==> ComponentsShaped(wcc, n)) && (doneScc ==> ComponentsShaped(scc, n))
    }

    /** The weak component labels, once computed, are those of the current
        lists: every operation that changes the edge sets lowers the done
        flag, and sorting keeps the sets. */
    ghost predicate WccCurrent()
      reads this
    {
      LabelsOf(doneWcc, wcc, E, rE, n, undirected)
    }

    /** The invariant of the object between calls of its public operations. */
    ghost predicate Valid()
      reads this
    {
      StoreValid(E, rE, hasSelfLoop, maxn, n, m, selfm, nodeMapping, revMapping, nexti,
                 loaded, undirected, sortedAndUnique) &&
      ComponentsValid() && WccCurrent()
    }

    constructor (nmax: int)
      requires nmax > 0
      ensures Valid() && Empty() && maxn == nmax
      ensures pruned == [] && eccLower == []
    {
      maxn := nmax;
      nodeMapping := map[];
      revMapping := map[];
      E := EmptyLists(nmax);
      rE := EmptyLists(nmax);
      hasSelfLoop := NoFlags(nmax);
      n, m, selfm, nexti := 0, 0, 0, 0;
      loaded, sortedAndUnique, undirected := false, false, false;
      wcc, scc, doneWcc, doneScc := NoComponents, NoComponents, false, false;
      pruned, eccLower := [], [];
      new;
      EmptyValid();
    }

    /** Erase the graph: empty lists, zero counters, every flag down. The
        result is valid by EmptyValid. */
    method Clear()
      requires maxn > 0
      modifies this`nodeMapping, this`revMapping, this`E, this`rE, this`hasSelfLoop
      modifies this`n, this`m, this`selfm, this`nexti
      modifies this`loaded, this`sortedAndUnique, this`undirected, this`wcc, this`scc, this`doneWcc, this`doneScc
      ensures Empty() && revMapping == map[]
    {
      ClearTables();
      ClearCounters();
    }

    /** The adjacency tables and the node numbering of Clear. */
    method ClearTables()
      requires maxn > 0
      modifies this`nodeMapping, this`revMapping, this`E, this`rE, this`hasSelfLoop
      ensures E == EmptyLists(maxn) && rE == EmptyLists(maxn) && hasSelfLoop == NoFlags(maxn)
      ensures nodeMapping == map[] && revMapping == map[]
    {
      nodeMapping, revMapping := map[], map[];
      E, rE, hasSelfLoop := EmptyLists(maxn), EmptyLists(maxn), NoFlags(maxn);
    }

    /** The counters and flags of Clear. */
    method ClearCounters()
      modifies this`n, this`m, this`selfm, this`nexti
      modifies this`loaded, this`sortedAndUnique, this`undirected, this`wcc, this`scc, this`doneWcc, this`doneScc
      ensures n == 0 && m == 0 && selfm == 0 && nexti == 0
      ensures !loaded && !sortedAndUnique && !undirected &&
      wcc == NoComponents && scc == NoComponents && !doneWcc && !doneScc
    {
      n, m, selfm, nexti := 0, 0, 0, 0;
      loaded, sortedAndUnique, undirected := false, false, false;
      wcc, scc, doneWcc, doneScc := NoComponents, NoComponents, false, false;
    }

    /** The state Clear leaves behind. */
    ghost predicate Empty()
      reads this
    {
      maxn > 0 && E == EmptyLists(maxn) && rE == EmptyLists(maxn) && hasSelfLoop == NoFlags(maxn) &&
      n == 0 && m == 0 && selfm == 0 && nexti == 0 && nodeMapping == map[] &&
      !loaded && !sortedAndUnique && !undirected &&
      wcc == NoComponents && scc == NoComponents && !doneWcc && !doneScc
    }

    /** An empty graph is valid. */
    lemma EmptyValid()
      requires Empty()
      ensures Valid()
    {
      EmptyTablesOk(maxn);
    }

    /** The id of identifier `x`: the one it already has, or the next unused one. */
    method MapNode(x: int) returns (id: int)
      requires MappingValid()
      modifies this`nodeMapping, this`revMapping, this`nexti
      ensures MappingValid()
      ensures x in nodeMapping && nodeMapping[x] == id && revMapping[id] == x
      ensures x in old(nodeMapping) ==>
        id == old(nodeMapping)[x] && nexti == old(nexti) &&
        nodeMapping == old(nodeMapping) && revMapping == old(revMapping)
      ensures x !in old(nodeMapping) ==>
        id == old(nexti) && nexti == old(nexti) + 1 &&
        nodeMapping == old(nodeMapping)[x := id] && revMapping == old(revMapping)[id := x]
    {
      if x !in nodeMapping {
        nodeMapping := nodeMapping[x := nexti];
        revMapping := revMapping[nexti := x];
        nexti := nexti + 1;
      }
      id := nodeMapping[x];
    }

    /** The identifier of id `i`. The lookup inserts `i` with the default
        identifier 0 when `i` was never handed out. */
    method RevMapNode(i: int) returns (x: int)
      requires MappingValid()
      modifies this`revMapping
      ensures MappingValid()
      ensures i in old(revMapping) ==> x == old(revMapping)[i] && revMapping == old(revMapping)
      ensures i !in old(revMapping) ==> x == 0 && revMapping == old(revMapping)[i := 0]
      ensures forall y :: y in nodeMapping && nodeMapping[y] == i ==> x == y
    {
      if i !in revMapping {
        revMapping := revMapping[i := 0];
      }
      x := revMapping[i];
    }

    /** The reading loop of loadDirected over a list of identifier pairs:
        map both identifiers, add the edge and count the edges that do not
        fit the tables. None is skipped exactly when at most maxn distinct
        identifiers occur; then the store holds what was read, otherwise
        only the table sizes and the numbering are sound. */
    method ReadPairs(pairs: seq<(int, int)>) returns (skipped: int)
      requires Valid() && !loaded
      modifies this`nodeMapping, this`revMapping, this`E, this`rE, this`hasSelfLoop, this`n, this`m, this`selfm, this`nexti
      modifies this`sortedAndUnique, this`undirected, this`doneWcc, this`doneScc
      ensures Sized() && MappingValid() && skipped >= 0
      ensures skipped == 0 <==> |FirstSeen(Endpoints(pairs))| <= maxn
      ensures skipped == 0 ==>
        StoreOk(E, rE, hasSelfLoop, maxn, n, m, selfm, nodeMapping, revMapping, nexti, true, undirected, sortedAndUnique) &&
        (sortedAndUnique ==> m == SumLens(E)) && ComponentsValid() && WccCurrent() &&
        LoadedFrom(pairs, E, nodeMapping, n, selfm) && (pairs != [] ==> !undirected)
    {
      LoadingStart(E, rE, hasSelfLoop, maxn, n, m, selfm, nodeMapping, revMapping, nexti, undirected, sortedAndUnique);
      skipped := 0;
      var k := 0;
      while k < |pairs|
        invariant 0 <= k <= |pairs| && skipped >= 0
        invariant Sized() && MappingValid()
        invariant k == 0 ==>
          StoreOk(E, rE, hasSelfLoop, maxn, n, m, selfm, nodeMapping, revMapping, nexti, false, undirected, sortedAndUnique) &&
          (sortedAndUnique ==> m == SumLens(E)) && ComponentsValid() && WccCurrent()
        invariant skipped == 0 <==> |FirstSeen(Endpoints(pairs[..k]))| <= maxn
        invariant skipped == 0 ==> ReadUpTo(pairs, k)
        invariant skipped == 0 && k > 0 ==> !undirected && !sortedAndUnique && !doneWcc && !doneScc
      {
        if skipped > 0 {
          FirstSeenGrows(pairs, k);
        }
        var added := ReadPair(pairs, k, skipped == 0);
        if !added {
          skipped := skipped + 1;
        }
        k := k + 1;
      }
      assert pairs[..k] == pairs;
    }

    /** The store holds exactly the first k pairs, read into an empty graph. */
    ghost predicate ReadUpTo(pairs: seq<(int, int)>, k: int)
      requires 0 <= k <= |pairs|
      reads this
    {
      ReadSoFar(pairs[..k], E, rE, hasSelfLoop, maxn, n, m, selfm, nodeMapping, revMapping, nexti)
    }

    /** One turn of the reading loop: map both identifiers of pair k, the
        source first, and add the edge between their ids. When the pairs
        before k were all read, either this one is read too or it is the
        first to bring the identifiers seen past maxn. */
    method ReadPair(pairs: seq<(int, int)>, k: int, ghost fits: bool) returns (added: bool)
      requires 0 <= k < |pairs| && Sized() && MappingValid()
      requires fits ==> ReadUpTo(pairs, k)
      modifies this`nodeMapping, this`revMapping, this`E, this`rE, this`hasSelfLoop, this`n, this`m, this`selfm, this`nexti
      modifies this`sortedAndUnique, this`undirected, this`doneWcc, this`doneScc
      ensures Sized() && MappingValid()
      ensures fits && added ==>
        ReadUpTo(pairs, k + 1) && |FirstSeen(Endpoints(pairs[..k + 1]))| <= maxn &&
        !undirected && !sortedAndUnique && !doneWcc && !doneScc
      ensures fits && !added ==> |FirstSeen(Endpoints(pairs[..k + 1]))| > maxn
    {
      ghost var E0, rE0, hs0, n0, m0, selfm0 := E, rE, hasSelfLoop, n, m, selfm;
      ghost var nm0, rm0, next0 := nodeMapping, revMapping, nexti;
      var a, b, nm1, rm1, next1 := MapPair(pairs[k].0, pairs[k].1);
      added := AddEdge(a, b);
      if fits {
        LoadStep(pairs, k, E0, rE0, hs0, maxn, n0, m0, selfm0, nm0, rm0, next0,
                 a, nm1, rm1, next1, b, nodeMapping, revMapping, nexti,
                 added, E, rE, hasSelfLoop, n, m, selfm);
      }
    }

    /** The ids of both identifiers of a pair. C++ leaves the order of the
        two mapNode calls in `addEdge(mapNode(u), mapNode(v))` open; the
        model maps the source identifier first, as a left-to-right build
        does. The numbering between the two calls comes back as ghost
        results. */
    method MapPair(u: int, v: int) returns (a: int, b: int, ghost nm1: map<int, int>, ghost rm1: map<int, int>, ghost next1: int)
      requires MappingValid()
      modifies this`nodeMapping, this`revMapping, this`nexti
      ensures MappingValid()
      ensures MapStep(old(nodeMapping), old(revMapping), old(nexti), u, a, nm1, rm1, next1)
      ensures MapStep(nm1, rm1, next1, v, b, nodeMapping, revMapping, nexti)
    {
      a := MapNode(u);
      nm1, rm1, next1 := nodeMapping, revMapping, nexti;
      b := MapNode(v);
    }

    /** loadDirected over a list of identifier pairs: refused when a graph
        is loaded; otherwise the pairs are read and the graph counts as
        loaded. Without a skipped edge the lists are then sorted and the
        load succeeds; with one the graph is cleared and the load fails. */
    method LoadDirected(pairs: seq<(int, int)>) returns (ok: bool)
      requires Valid()
      modifies this`nodeMapping, this`revMapping, this`E, this`rE, this`hasSelfLoop, this`n, this`m, this`selfm, this`nexti
      modifies this`loaded, this`sortedAndUnique, this`undirected, this`wcc, this`scc, this`doneWcc, this`doneScc
      ensures Valid()
      ensures old(loaded) ==> !ok && unchanged(this)
      ensures !old(loaded) ==> (ok <==> |FirstSeen(Endpoints(pairs))| <= maxn)
      ensures !old(loaded) && ok ==>
        loaded && sortedAndUnique && LoadedFrom(pairs, E, nodeMapping, n, selfm) && (pairs != [] ==> !undirected)
      ensures !old(loaded) && !ok ==> Empty()
    {
      if loaded {
        return false;
      }
      var skipped := ReadPairs(pairs);
      loaded := true;
      if skipped == 0 {
        ghost var E1 := E;
        SortEdgeList();
        LoadedFromSameSets(pairs, E1, E, nodeMapping, n, selfm);
        return true;
      }
      Clear();
      EmptyValid();
      return false;
    }

    /** loadUndirected: loadDirected followed by makeUndirected when the
        load succeeds. */
    method LoadUndirected(pairs: seq<(int, int)>) returns (ok: bool)
      requires Valid()
      modifies this`nodeMapping, this`revMapping, this`E, this`rE, this`hasSelfLoop, this`n, this`m, this`selfm, this`nexti
      modifies this`loaded, this`sortedAndUnique, this`undirected, this`wcc, this`scc, this`doneWcc, this`doneScc
      ensures Valid()
      ensures old(loaded) ==> !ok && unchanged(this)
      ensures !old(loaded) ==> (ok <==> |FirstSeen(Endpoints(pairs))| <= maxn)
      ensures !old(loaded) && ok ==>
        loaded && undirected && sortedAndUnique && UndirectedFrom(pairs, E, nodeMapping, n, selfm)
      ensures !old(loaded) && !ok ==> Empty()
    {
      ok := LoadDirected(pairs);
      if !ok {
        return;
      }
      ghost var E0 := E;
      MakeUndirected();
      LoadedUndirected(pairs, E0, E, nodeMapping, n, selfm);
    }

    /** Append the edge u->v; refuse ids outside the tables. */
    method AddEdge(u: int, v: int) returns (ok: bool)
      requires Sized()
      modifies this`E, this`rE, this`hasSelfLoop, this`n, this`m, this`selfm
      modifies this`sortedAndUnique, this`undirected, this`doneWcc, this`doneScc
      ensures Sized() && ok == (0 <= u < maxn && 0 <= v < maxn)
      ensures !ok ==>
        E == old(E) && rE == old(rE) && hasSelfLoop == old(hasSelfLoop) &&
        n == old(n) && m == old(m) && selfm == old(selfm) &&
        sortedAndUnique == old(sortedAndUnique) && undirected == old(undirected) &&
        doneWcc == old(doneWcc) && doneScc == old(doneScc)
      ensures ok ==>
        E == Append(old(E), u, v) && rE == Append(old(rE), v, u) &&
        m == old(m) + 1 &&
        selfm == old(selfm) + (if u == v then 1 else 0) &&
        hasSelfLoop == (if u == v then old(hasSelfLoop)[u := true] else old(hasSelfLoop)) &&
        n == old(n) + NewlyTouched(old(E), old(rE), u, v) &&
        !sortedAndUnique && !undirected && !doneWcc && !doneScc
    {
      if u < 0 || u >= maxn || v < 0 || v >= maxn {
        return false;
      }
      if u == v {
        selfm := selfm + 1;
        hasSelfLoop := hasSelfLoop[u := true];
      }
      m := m + 1;
      n := n + NewlyTouched(E, rE, u, v);
      E := Append(E, u, v);
      rE := Append(rE, v, u);
      sortedAndUnique := false;
      undirected := false;
      doneWcc, doneScc := false, false;
      return true;
    }

    /** Sort and deduplicate the out- and in-lists of nodes 0 .. n-1 and
        recount the edges; nothing happens when the lists are already so. */
    method SortEdgeList()
      requires Prevalid() && (sortedAndUnique ==> m == SumLens(E))
      modifies this`E, this`rE, this`m, this`sortedAndUnique
      ensures Valid() && sortedAndUnique
      ensures SameSets(old(E), E) && SameSets(old(rE), rE)
      ensures old(sortedAndUnique) ==> E == old(E) && rE == old(rE) && m == old(m)
    {
      if sortedAndUnique {
        return;
      }
      var L, R, total := NormalizeRows(E, rE, n);
      Resorted(L, R, total);
    }

    /** Install the sorted lists and their total as the new tables and edge count. */
    method Resorted(L: seq<seq<int>>, R: seq<seq<int>>, total: int)
      requires Prevalid() && SameSets(E, L) && SameSets(rE, R) && total == SumLens(L[..n])
      requires forall i :: 0 <= i < n ==> Increasing(L[i]) && Increasing(R[i])
      modifies this`E, this`rE, this`m, this`sortedAndUnique
      ensures Valid() && sortedAndUnique && E == L && rE == R && m == total
    {
      StoreResorted(E, rE, hasSelfLoop, maxn, n, m, selfm, nodeMapping, revMapping, nexti,
                    loaded, undirected, sortedAndUnique, L, R);
      LabelsResorted(L, R);
      E, rE, m := L, R, total;
      sortedAndUnique := true;
    }

    /** Lists with the same sets leave the weak component labels current. */
    lemma LabelsResorted(L: seq<seq<int>>, R: seq<seq<int>>)
      requires WccCurrent() && SameSets(E, L) && SameSets(rE, R)
      ensures LabelsOf(doneWcc, wcc, L, R, n, undirected)
    {
      if doneWcc {
        WccSameSets(wcc, E, rE, L, R, n, undirected);
      }
    }

    /** Add the reverse of every edge and empty the in-lists, then sort and
        deduplicate by SortEdgeList; afterwards y is a neighbour of x
        exactly when x->y or y->x was an edge. */
    method MakeUndirected()
      requires Valid()
      modifies this`E, this`rE, this`m, this`sortedAndUnique, this`undirected, this`doneWcc, this`doneScc
      ensures Valid() && undirected && sortedAndUnique
      ensures old(undirected) ==>
        E == old(E) && rE == old(rE) && m == old(m) && doneWcc == old(doneWcc) && doneScc == old(doneScc)
      ensures !old(undirected) ==> SymClosure(old(E), E) && !doneWcc && !doneScc
    {
      if undirected {
        return;
      }
      ghost var E0 := E;
      MirrorEdges();
      ghost var E1 := E;
      SortEdgeList();
      SymClosureSameSets(E0, E1, E);
    }

    /** The first half of makeUndirected: push x onto the out-list of y for
        every edge x->y, scanning the out-lists in id order, and empty the
        in-lists. The lists then hold the undirected closure, possibly with
        repeats, so the sorted flag drops; the component results are stale. */
    method MirrorEdges()
      requires Valid() && !undirected
      modifies this`E, this`rE, this`sortedAndUnique, this`undirected, this`doneWcc, this`doneScc
      ensures Prevalid() && undirected && !sortedAndUnique && !doneWcc && !doneScc
      ensures SymClosure(old(E), E)
    {
      var L, R := SymmetrizeRows(E, rE, n);
      StoreSymmetrized(E, rE, hasSelfLoop, maxn, n, m, selfm, nodeMapping, revMapping, nexti,
                       loaded, sortedAndUnique, L, R);
      E, rE := L, R;
      sortedAndUnique, undirected, doneWcc, doneScc := false, true, false, false;
    }

    /** The adjacency the weakly connected components are computed over. */
    ghost function WeakAdj(): (W: Adjacency)
      requires Valid()
      reads this
      ensures |W| == n
    {
      Weak(E, rE, n, undirected)
    }

    /** computeWCC: nothing happens without edges; otherwise every node gets
        the label of its weakly connected component, labels are handed out
        in node order, the sizes are counted and the first largest
        component is recorded. */
    method ComputeWcc()
      requires Valid()
      modifies this`wcc, this`doneWcc
      ensures Valid()
      ensures m < 1 ==> wcc == old(wcc) && doneWcc == old(doneWcc)
      ensures m >= 1 ==> doneWcc && WccOk(wcc, WeakAdj())
    {
      if m < 1 {
        return;
      }
      WeakSymmetric(E, rE, hasSelfLoop, maxn, n, undirected, sortedAndUnique);
      var c := LabelWeak(E, rE, n, undirected);
      wcc, doneWcc := c, true;
    }

    /** computeSCC: nothing happens without edges or on an undirected graph;
        otherwise two nodes get the same label exactly when each reaches the
        other along the out-lists, the sizes are counted and the first
        largest component is recorded. */
    method ComputeScc()
      requires Valid()
      modifies this`scc, this`doneScc
      ensures Valid()
      ensures m < 1 || undirected ==> scc == old(scc) && doneScc == old(doneScc)
      ensures m >= 1 && !undirected ==> doneScc && SccOk(scc, E[..n])
    {
      if m < 1 {
        return;
      }
      if undirected {
        return;
      }
      var c := LabelStrong(E, rE, n);
      scc, doneScc := c, true;
    }

    /** Membership test by a linear scan of the out-list of a. */
    method EdgeSlow(a: int, b: int) returns (found: bool)
      requires Sized() && 0 <= a < maxn
      ensures found == (b in E[a])
    {
      var z := |E[a]|;
      var j := 0;
      while j < z
        invariant 0 <= j <= z
        invariant b !in E[a][..j]
      {
        if E[a][j] == b {
          return true;
        }
        j := j + 1;
      }
      assert E[a][..j] == E[a];
      return false;
    }

    /** Membership test by binary search, sorting the lists first when needed. */
    method Edge(a: int, b: int) returns (found: bool)
      requires Prevalid() && (sortedAndUnique ==> m == SumLens(E)) && 0 <= a < maxn
      modifies this`E, this`rE, this`m, this`sortedAndUnique
      ensures Valid() && sortedAndUnique
      ensures found == (b in old(E)[a])
      ensures SameSets(old(E), E) && SameSets(old(rE), rE)
      ensures old(sortedAndUnique) ==> E == old(E) && rE == old(rE) && m == old(m)
    {
      if !sortedAndUnique {
        SortEdgeList();
      }
      found := SortedSearch(E[a], b);
    }

    /** A scope is resolved when it is the whole graph or its component
        labelling has been computed. */
    predicate Resolved(scope: Scope)
      reads this
    {
      scope == Full || (scope == Lwcc && doneWcc) || (scope == Lscc && doneScc)
    }

    /** inScope: every node is in scope FULL; in scope LWCC (LSCC) exactly
        the nodes labelled with the largest weakly (strongly) connected
        component, once that labelling is computed. */
    predicate InScope(u: int, scope: Scope): (r: bool)
      requires ComponentsValid()
      requires (scope == Lwcc && doneWcc) || (scope == Lscc && doneScc) ==> 0 <= u < n
      reads this
      ensures scope == Full ==> r
      ensures r && scope != Full ==> Resolved(scope)
    {
      scope == Full ||
      (scope == Lwcc && doneWcc && wcc.id[u] == wcc.largest) ||
      (scope == Lscc && doneScc && scc.id[u] == scc.largest)
    }

    /** A node in scope LWCC (LSCC) lies in a component of maximum size. */
    lemma InScopeLargest(u: int, scope: Scope)
      requires ComponentsValid() && 0 <= u < n
      ensures InScope(u, scope) && scope == Lwcc ==>
        forall c :: 1 <= c <= wcc.count ==> wcc.nodes[c] <= wcc.nodes[wcc.id[u]]
      ensures InScope(u, scope) && scope == Lscc ==>
        forall c :: 1 <= c <= scc.count ==> scc.nodes[c] <= scc.nodes[scc.id[u]]
    {
    }

    /** The number of nodes among 0 .. k-1 that are in scope. */
    ghost function ScopeSize(scope: Scope, k: int): (r: nat)
      requires ComponentsValid() && 0 <= k <= n
      reads this
    {
      if k == 0 then 0 else ScopeSize(scope, k - 1) + (if InScope(k - 1, scope) then 1 else 0)
    }

    /** In a component scope, counting the nodes in scope is counting the
        largest label. */
    lemma {:induction false} ScopeSizeCount(scope: Scope, k: int)
      requires ComponentsValid() && 0 <= k <= n
      ensures scope == Lwcc && doneWcc ==> ScopeSize(scope, k) == Count(wcc.id[..k], wcc.largest)
      ensures scope == Lscc && doneScc ==> ScopeSize(scope, k) == Count(scc.id[..k], scc.largest)
    {
      if k > 0 {
        ScopeSizeCount(scope, k - 1);
        if scope == Lwcc && doneWcc {
          assert wcc.id[..k][..k - 1] == wcc.id[..k - 1];
        }
        if scope == Lscc && doneScc {
          assert scc.id[..k][..k - 1] == scc.id[..k - 1];
        }
      }
    }

    /** nodes(scope): the number of nodes in scope, or -1 while the scope
        is not resolved. */
    function Nodes(scope: Scope): (r: int)
      requires Valid()
      reads this
      ensures Resolved(scope) ==> r == ScopeSize(scope, n)
      ensures !Resolved(scope) ==> r == -1
    {
      ScopeSizeCount(scope, n);
      if scope == Full then
        assert ScopeSize(scope, n) == n by { ScopeFull(n); }
        n
      else if scope == Lwcc && doneWcc then
        assert wcc.id[..n] == wcc.id;
        wcc.nodes[wcc.largest]
      else if scope == Lscc && doneScc then
        assert scc.id[..n] == scc.id;
        scc.nodes[scc.largest]
      else
        -1
    }

    /** Every node is in scope FULL. */
    lemma {:induction false} ScopeFull(k: int)
      requires ComponentsValid() && 0 <= k <= n
      ensures ScopeSize(Full, k) == k
    {
      if k > 0 {
        ScopeFull(k - 1);
      }
    }

    /** nodesInWcc(c): the number of nodes labelled c, or -1 before the
        weakly connected components are computed. */
    function NodesInWcc(c: int): (r: int)
      requires ComponentsValid()
      requires doneWcc ==> 0 <= c <= n
      reads this
      ensures doneWcc ==> r == Count(wcc.id, c)
      ensures !doneWcc ==> r == -1
    {
      if doneWcc then wcc.nodes[c] else -1
    }

    /** wccOf(u): the weakly connected component label of u, or -1 before
        they are computed. */
    function WccOf(u: int): (r: int)
      requires ComponentsValid()
      requires doneWcc ==> 0 <= u < n
      reads this
      ensures doneWcc ==> 1 <= r <= wcc.count && NodesInWcc(r) >= 1
      ensures !doneWcc ==> r == -1
    {
      if doneWcc then
        CountPositive(wcc.id, u);
        wcc.id[u]
      else -1
    }

    /** edges(FULL): the number of edges, the total length of the out-lists. */
    function Edges(): (r: int)
      requires Valid()
      reads this
      ensures r == SumLens(E) && r >= 0
    {
      m
    }

    /** The number of nodes among 0 .. k-1 in scope whose out-list holds a
        self-loop. */
    ghost function ScopeLoops(scope: Scope, k: int): (r: nat)
      requires ComponentsValid() && 0 <= k <= n && n <= |E|
      reads this
    {
      if k == 0 then 0 else ScopeLoops(scope, k - 1) + (if InScope(k - 1, scope) && k - 1 in E[k - 1] then 1 else 0)
    }

    /** Self-loops are counted per node, so never more than the nodes in scope. */
    lemma {:induction false} ScopeLoopsBound(scope: Scope, k: int)
      requires ComponentsValid() && 0 <= k <= n && n <= |E|
      ensures ScopeLoops(scope, k) <= ScopeSize(scope, k)
    {
      if k > 0 {
        ScopeLoopsBound(scope, k - 1);
      }
    }

    /** The counting loop of selfEdges for a component scope: the in-scope
        nodes flagged with a self-loop. */
    method CountSelfLoops(scope: Scope) returns (total: int)
      requires Valid()
      ensures total == ScopeLoops(scope, n)
    {
      total := 0;
      for i := 0 to n
        invariant total == ScopeLoops(scope, i)
      {
        if InScope(i, scope) && hasSelfLoop[i] {
          total := total + 1;
        }
      }
    }

    /** selfEdges(scope): the self-loop counter for FULL, the in-scope
        nodes with a self-loop for a computed component scope, -1
        otherwise. */
    method SelfEdges(scope: Scope) returns (total: int)
      requires Valid()
      ensures scope == Full ==> total == selfm
      ensures scope != Full && Resolved(scope) ==> total == ScopeLoops(scope, n)
      ensures !Resolved(scope) ==> total == -1
    {
      if scope == Full {
        return selfm;
      } else if Resolved(scope) {
        total := CountSelfLoops(scope);
      } else {
        total := -1;
      }
    }

    /** selfEdges with FULL counted like the component scopes: one per
        node with a self-loop, which is at most nodes(scope). */
    method SelfEdgesPerNode(scope: Scope) returns (total: int)
      requires Valid()
      ensures Resolved(scope) ==> total == ScopeLoops(scope, n) && 0 <= total <= Nodes(scope)
      ensures !Resolved(scope) ==> total == -1
    {
      if Resolved(scope) {
        total := CountSelfLoops(scope);
        ScopeLoopsBound(scope, n);
      } else {
        total := -1;
      }
    }

    /** Reading the pairs (1, 1) and (1, 1) leaves one node and one edge, a
        self-loop, once the lists are deduplicated, yet the self-loop
        counter that selfEdges(FULL) reports stands at 2. */
    lemma DuplicateSelfLoops()
      requires Valid() && sortedAndUnique
      requires LoadedFrom([(1, 1), (1, 1)], E, nodeMapping, n, selfm)
      ensures selfm == 2 && Edges() == 1 && ScopeLoops(Full, n) == 1
    {
      ReadDuplicateSelfLoop(E, nodeMapping, n, selfm);
      SumLensEmptyTail(E, 1);
      assert |E[..1][..0]| == 0;
    }

    /** distance(u, v): the length of a shortest walk from u to v along the
        out-lists, 0 for u itself, -1 when v cannot be reached. */
    method Distance(u: int, v: int) returns (r: int)
      requires Valid() && 0 <= u < n && 0 <= v < n
      ensures r == Dist(E[..n], {}, u, v)
      ensures r == -1 <==> !Reaches(E[..n], {}, u, v)
      ensures r >= 0 ==> IsDist(E[..n], {}, u, v, r)
      ensures r == 0 <==> u == v
    {
      OutPrefix(E, rE, n);
      r := DistanceSearch.Distance(E[..n], u, v);
    }

    /** distances(u, dtotals): the distance from u of every node (-1 where
        unreached), with the number of nodes at each distance k added to
        dtotals[k]. */
    method Distances(u: int, dtotals: seq<int>) returns (d: seq<int>, totals: seq<int>)
      requires Valid() && 0 <= u < n && |dtotals| >= n
      ensures d == DistVec(E[..n], {}, u)
      ensures |totals| == |dtotals|
      ensures forall k :: 0 <= k < |dtotals| ==> totals[k] == dtotals[k] + Count(d, k)
    {
      OutPrefix(E, rE, n);
      d, totals := DistanceSearch.Distances(E[..n], u, dtotals);
    }

    /** trianglesWedgesAround(u): the joined pairs and all pairs among the
        distinct neighbours of u other than u, direction ignored. */
    method TrianglesWedgesAround(u: int) returns (triangles: int, wedges: int)
      requires Valid() && 0 <= u < maxn
      ensures var t := Around(E, rE, u, undirected);
        triangles == Tri(E, t, u, 0) &&
        wedges == Pairs(Others(t, u, 0)) &&
        0 <= triangles <= wedges
    {
      triangles, wedges := TrianglesWedges(E, rE, hasSelfLoop, u, undirected);
    }

    // -------------------------------------------------------------------
    // Extreme distances of the largest weakly connected component
    // (src/BDGraph.cpp).

    /** inScope(i, LWCC) for every node i. */
    function LwccMask(): (inL: seq<bool>)
      requires Valid()
      reads this
      ensures |inL| == n && forall i :: 0 <= i < n ==> inL[i] == InScope(i, Lwcc)
    {
      seq(n, i requires 0 <= i < n && ComponentsValid() reads this => InScope(i, Lwcc))
    }

    /** On an undirected graph with current component labels, the lists of
        the n nodes and the largest component are what BoundingDiameters
        works on: symmetric strictly increasing lists, a connected
        component, and nodes(LWCC) its size. */
    lemma LwccSetting()
      requires Valid() && undirected && doneWcc
      ensures Symmetric(E[..n]) && AllIncreasing(E[..n])
      ensures Component(E[..n], LwccMask()) && Nodes(Lwcc) == |Members(LwccMask())|
    {
      var G, inL := E[..n], LwccMask();
      OutPrefix(E, rE, n);
      assert Weak(E, rE, n, undirected) == G;
      forall u, v | 0 <= u < n && v in G[u]
        ensures u in G[v]
      {
        assert v in E[u];
      }
      ScopeSizeCount(Lwcc, n);
      assert wcc.id[..n] == wcc.id;
      CountCard(wcc.id, wcc.largest);
      assert Members(inL) == set i | 0 <= i < |wcc.id| && wcc.id[i] == wcc.largest;
    }

    /** extremaBounding(TYPE, PRUNE), with the representative of a pruned
        leaf reporting its full eccentricity (see the star finding). Unless
        the graph is undirected and its largest weakly connected component
        has two nodes or more, the bounds are all -1 and the result 0.
        Otherwise TYPE 1 gives the diameter of that component, TYPE 2 its
        radius, TYPE 4 the number of its nodes at the diameter, TYPE 5 the
        number at the radius, and any other TYPE 0, with the eccentricity of
        every component node left in eccLower. */
    method ExtremaBounding(TYPE: int, PRUNE: bool) returns (r: int, ghost extreme: int)
      requires Valid()
      modifies this`pruned, this`eccLower
      ensures var G, inL, L := E[..n], old(LwccMask()), old(Nodes(Lwcc));
        (!undirected || L < 2 ==> r == 0 && eccLower == seq(n, _ => -1) && pruned == old(pruned)) &&
        (undirected && L >= 2 ==> Setting(G, inL, pruned) && |eccLower| == n) &&
        (undirected && L >= 2 && PRUNE ==> CompleteBelow(G, inL, pruned, n)) &&
        (undirected && L >= 2 && !PRUNE ==> pruned == seq(n, _ => -1)) &&
        (undirected && L >= 2 && TYPE == 1 ==> IsDiameter(G, inL, r)) &&
        (undirected && L >= 2 && TYPE == 2 ==> IsRadius(G, inL, r)) &&
        (undirected && L >= 2 && TYPE == 4 ==> IsDiameter(G, inL, extreme) && r == |AtEcc(G, inL, extreme)|) &&
        (undirected && L >= 2 && TYPE == 5 ==> IsRadius(G, inL, extreme) && r == |AtEcc(G, inL, extreme)|) &&
        (undirected && L >= 2 && TYPE != 1 && TYPE != 2 && TYPE != 4 && TYPE != 5 ==>
          r == 0 && forall i :: 0 <= i < n ==> eccLower[i] == if inL[i] then Ecc(G, {}, i) else 0)
    {
      var G, inL, L := E[..n], LwccMask(), Nodes(Lwcc);
      if undirected && L >= 2 {
        LwccSetting();
      }
      var ecc, p;
      r, ecc, p, extreme := ComponentExtrema(G, inL, L, undirected, TYPE, PRUNE, pruned);
      pruned, eccLower := p, ecc;
    }

    /** diameterBD: the diameter of the largest weakly connected component
        of an undirected graph, 0 where BoundingDiameters does not apply. */
    method DiameterBD() returns (diameter: int)
      requires Valid()
      modifies this`pruned, this`eccLower
      ensures !undirected || old(Nodes(Lwcc)) < 2 ==> diameter == 0
      ensures undirected && old(Nodes(Lwcc)) >= 2 ==> IsDiameter(E[..n], old(LwccMask()), diameter)
    {
      ghost var extreme;
      diameter, extreme := ExtremaBounding(1, true);
    }

    /** radiusBD: the radius of the largest weakly connected component of an
        undirected graph, 0 where BoundingDiameters does not apply. */
    method RadiusBD() returns (radius: int)
      requires Valid()
      modifies this`pruned, this`eccLower
      ensures !undirected || old(Nodes(Lwcc)) < 2 ==> radius == 0
      ensures undirected && old(Nodes(Lwcc)) >= 2 ==> IsRadius(E[..n], old(LwccMask()), radius)
    {
      ghost var extreme;
      radius, extreme := ExtremaBounding(2, true);
    }

    /** eccentricitiesBD: the eccentricity of every node of the largest weakly
        connected component and 0 for the other nodes; all -1 where
        BoundingDiameters does not apply. */
    method EccentricitiesBD() returns (ecc: seq<int>)
      requires Valid()
      modifies this`pruned, this`eccLower
      ensures ecc == eccLower && |ecc| == n
      ensures !undirected || old(Nodes(Lwcc)) < 2 ==> ecc == seq(n, _ => -1) && pruned == old(pruned)
      ensures undirected && old(Nodes(Lwcc)) >= 2 ==> Setting(E[..n], old(LwccMask()), pruned)
      ensures undirected && old(Nodes(Lwcc)) >= 2 ==>
        forall i :: 0 <= i < n ==> ecc[i] == if old(LwccMask())[i] then Ecc(E[..n], {}, i) else 0
    {
      var r;
      ghost var extreme;
      r, extreme := ExtremaBounding(3, true);
      ecc := eccLower;
    }

    /** peripherySizeBD: the number of nodes of the largest weakly connected
        component whose eccentricity is its diameter. */
    method PeripherySizeBD() returns (size: int)
      requires Valid()
      modifies this`pruned, this`eccLower
      ensures !undirected || old(Nodes(Lwcc)) < 2 ==> size == 0
      ensures undirected && old(Nodes(Lwcc)) >= 2 ==>
        exists D :: IsDiameter(E[..n], old(LwccMask()), D) && size == |AtEcc(E[..n], old(LwccMask()), D)|
    {
      ghost var extreme;
      size, extreme := ExtremaBounding(4, true);
    }

    /** centerSizeBD: the number of nodes of the largest weakly connected
        component whose eccentricity is its radius. */
    method CenterSizeBD() returns (size: int)
      requires Valid()
      modifies this`pruned, this`eccLower
      ensures !undirected || old(Nodes(Lwcc)) < 2 ==> size == 0
      ensures undirected && old(Nodes(Lwcc)) >= 2 ==>
        exists R :: IsRadius(E[..n], old(LwccMask()), R) && size == |AtEcc(E[..n], old(LwccMask()), R)|
    {
      ghost var extreme;
      size, extreme := ExtremaBounding(5, true);
    }

    /** eccentricity(u): the eccentricity of u in the graph with the nodes
        the last pruning marked left out. */
    method Eccentricity(u: int) returns (ecc: int)
      requires Valid() && 0 <= u < n && |pruned| >= n
      ensures ecc == Ecc(E[..n], Skipped(pruned), u)
    {
      OutPrefix(E, rE, n);
      var d;
      d, ecc := Bounding.Eccentricity(E[..n], pruned, u);
    }

    /** diameterAPSP: pruning off, components computed, then the largest
        eccentricity over the largest weakly connected component; 0 when no
        node is in it. The status test is taken guarded, so the method
        returns on every graph (see Extrema.ApspSmallGraphs). */
    method DiameterAPSP() returns (diameter: int)
      requires Valid()
      modifies this`pruned, this`wcc, this`doneWcc
      ensures Valid() && pruned == seq(n, _ => -1)
      ensures m >= 1 ==> doneWcc && WccOk(wcc, WeakAdj())
      ensures (exists i :: 0 <= i < n && LwccMask()[i]) ==> IsDiameter(E[..n], LwccMask(), diameter)
      ensures (forall i :: 0 <= i < n ==> !LwccMask()[i]) ==> diameter == 0
    {
      pruned := seq(n, _ => -1);
      ComputeWcc();
      OutPrefix(E, rE, n);
      diameter := DiameterApsp(E[..n], LwccMask());
    }

    /** radiusAPSP: pruning off, components computed, then the least
        eccentricity over the largest weakly connected component; n when no
        node is in it. The status test is taken guarded, as in DiameterAPSP. */
    method RadiusAPSP() returns (radius: int)
      requires Valid()
      modifies this`pruned, this`wcc, this`doneWcc
      ensures Valid() && pruned == seq(n, _ => -1)
      ensures m >= 1 ==> doneWcc && WccOk(wcc, WeakAdj())
      ensures (exists i :: 0 <= i < n && LwccMask()[i]) ==> IsRadius(E[..n], LwccMask(), radius)
      ensures (forall i :: 0 <= i < n ==> !LwccMask()[i]) ==> radius == n
    {
      pruned := seq(n, _ => -1);
      ComputeWcc();
      OutPrefix(E, rE, n);
      radius := RadiusApsp(E[..n], LwccMask());
    }

    /** eccentricitiesAPSP: pruning off, then a full search from every node,
        in the component or not. */
    method EccentricitiesAPSP() returns (ecc: seq<int>)
      requires Valid()
      modifies this`pruned
      ensures pruned == seq(n, _ => -1)
      ensures |ecc| == n && forall i :: 0 <= i < n ==> ecc[i] == Ecc(E[..n], {}, i)
    {
      OutPrefix(E, rE, n);
      var p;
      ecc, p := EccentricitiesApsp(E[..n]);
      pruned := p;
    }

    // -------------------------------------------------------------------
    // Centrality (src/CenGraph.cpp).

    /** The lists of an undirected graph are symmetric. */
    lemma UndirectedSymmetric()
      requires Valid() && undirected
      ensures Symmetric(E[..n])
    {
      OutPrefix(E, rE, n);
      var G := E[..n];
      forall u, v | 0 <= u < n && v in G[u]
        ensures u in G[v]
      {
        assert v in E[u];
      }
    }

    /** closenessSum(u): the sum of the distances from u to the nodes it
        reaches along the out-lists. */
    method ClosenessSum(u: int) returns (total: int)
      requires Valid() && 0 <= u < n
      ensures total == SumPos(DistVec(E[..n], {}, u))
    {
      OutPrefix(E, rE, n);
      total := Centrality.ClosenessSum(E[..n], u);
    }

    /** closenesses(u, dtotals): the distances from u, with the distance of
        every other node it reaches added into that node's entry of dtotals. */
    method Closenesses(u: int, dtotals: seq<int>) returns (d: seq<int>, totals: seq<int>)
      requires Valid() && 0 <= u < n && |dtotals| >= n
      ensures d == DistVec(E[..n], {}, u) && |totals| == |dtotals|
      ensures forall x :: 0 <= x < |dtotals| ==>
        totals[x] == dtotals[x] + (if x < n && Dist(E[..n], {}, u, x) > 0 then Dist(E[..n], {}, u, x) else 0)
    {
      OutPrefix(E, rE, n);
      d, totals := Centrality.Closenesses(E[..n], u, dtotals);
    }

    /** The merged accumulator of closenessCentrality(scope) with the whole
        sample, searching from every node in scope (see the closeness
        finding): -1 everywhere where the measure does not apply; otherwise
        each node in scope is credited with closenessSum of itself and every
        other node with 0. The closeness value of a node in scope is
        nodes(scope) over its total. */
    method ClosenessTotals(scope: Scope) returns (acc: seq<int>)
      requires Valid()
      ensures |acc| == n
      ensures !undirected || scope == Lscc || Nodes(scope) < 2 ==> acc == seq(n, _ => -1)
      ensures undirected && scope != Lscc && Nodes(scope) >= 2 ==> forall x :: 0 <= x < n ==>
        acc[x] == if InScope(x, scope) then SumPos(DistVec(E[..n], {}, x)) else 0
    {
      if !undirected || scope == Lscc || Nodes(scope) < 2 {
        return seq(n, _ => -1);
      }
      OutPrefix(E, rE, n);
      UndirectedSymmetric();
      var G := E[..n];
      var inS := if scope == Full then seq(n, _ => true) else LwccMask();
      acc := FarnessTotals(G, inS, n);
      if scope == Lwcc {
        LwccSetting();
      }
      forall x | 0 <= x < n
        ensures acc[x] == if InScope(x, scope) then SumPos(DistVec(G, {}, x)) else 0
      {
        if inS[x] {
          if scope == Lwcc {
            ComponentCloses(G, inS, x);
          }
          FarnessIsClosenessSum(G, inS, x);
        } else if scope == Lwcc {
          FarnessOutside(G, inS, x, n);
        }
      }
    }

    /** outdegreeCentrality (and degreeCentrality): the length of every
        out-list; together they count the edges. */
    method OutdegreeCentrality() returns (deg: seq<int>)
      requires Valid()
      ensures |deg| == n && forall i :: 0 <= i < n ==> deg[i] == |E[i]|
      ensures SumPos(deg) == Edges()
    {
      deg := Degrees(E, n);
      SumLensEmptyTail(E, n);
    }

    /** indegreeCentrality: the length of every in-list. */
    method IndegreeCentrality() returns (deg: seq<int>)
      requires Valid()
      ensures |deg| == n && forall i :: 0 <= i < n ==> deg[i] == |rE[i]|
      ensures SumPos(deg) == SumLens(rE)
    {
      deg := Degrees(rE, n);
      SumLensEmptyTail(rE, n);
    }

    /** eccentricityCentrality(scope): -1 everywhere where the measure does
        not apply; otherwise, after eccentricitiesBD, the component nodes
        take the eccentricities it leaves and, in scope FULL, every other
        node its eccentricity(i). With a component of two nodes or more that
        is every node's eccentricity in scope FULL and every component
        node's in scope LWCC. When the component has fewer than two nodes
        eccentricitiesBD leaves -1 and the pruning marks of an earlier run,
        which must then cover the nodes. */
    method EccentricityCentrality(scope: Scope) returns (cent: seq<int>)
      requires Valid()
      requires undirected && scope == Full && Nodes(Lwcc) < 2 ==> |pruned| >= n
      modifies this`pruned, this`eccLower
      ensures |cent| == n
      ensures !undirected || scope == Lscc || old(Nodes(scope)) < 2 ==>
        cent == seq(n, _ => -1) && pruned == old(pruned)
      ensures undirected && scope != Lscc && old(Nodes(Lwcc)) >= 2 ==> forall i :: 0 <= i < n ==>
        cent[i] == if old(LwccMask())[i] || scope == Full then Ecc(E[..n], {}, i) else -1
      ensures undirected && scope == Full && old(Nodes(Lwcc)) < 2 && n >= 2 ==> forall i :: 0 <= i < n ==>
        cent[i] == if old(LwccMask())[i] then -1 else Ecc(E[..n], Skipped(old(pruned)), i)
    {
      if !undirected || scope == Lscc || Nodes(scope) < 2 {
        return seq(n, _ => -1);
      }
      ghost var L := Nodes(Lwcc);
      var inL := LwccMask();
      var eccs := EccentricitiesBD();
      OutPrefix(E, rE, n);
      var G := E[..n];
      cent := EccentricityFill(G, inL, pruned, eccs, scope == Full);
      if L >= 2 {
        EccentricityCentralityExact(G, inL, pruned, eccs, scope == Full, cent);
      }
    }

    /** The forward phase of betweennessCentrality(scope) from one source s
        of its loop. Where the measure does not apply the result is the -1
        of every node and nothing is searched. Otherwise the search of
        Brandes.Forward runs over the stored lists: every label is the
        distance from s (n+1 when unreached), the predecessor lists are
        exact, S holds the reached nodes by nondecreasing distance, and,
        since the sorted lists repeat no node, every count is the number of
        shortest paths from s. */
    method BetweennessForward(scope: Scope, s: int)
      returns (sentinel: seq<int>, S: seq<int>, P: seq<seq<int>>, sp: seq<int>, d: seq<int>)
      requires Valid()
      requires undirected && scope != Lscc && Nodes(scope) >= 2 ==> 0 <= s < n
      ensures !undirected || scope == Lscc || Nodes(scope) < 2 ==>
        sentinel == seq(n, _ => -1) && S == [] && P == [] && sp == [] && d == []
      ensures undirected && scope != Lscc && Nodes(scope) >= 2 ==>
        var G := E[..n];
        sentinel == [] && WellFormed(G) && 0 <= s < n &&
        |d| == n && |sp| == n && |P| == n &&
        (forall w :: 0 <= w < n ==>
          d[w] == (if Dist(G, {}, s, w) == -1 then n + 1 else Dist(G, {}, s, w)) &&
          sp[w] == Brandes.ShortestPaths(G, s, w)) &&
        (forall w, v {:trigger v in P[w]} :: 0 <= w < n ==>
          (v in P[w] <==> 0 <= v < n && w in G[v] && Dist(G, {}, s, v) >= 0 &&
                          Dist(G, {}, s, v) + 1 == Dist(G, {}, s, w))) &&
        (forall v :: 0 <= v < n ==> (v in S <==> Dist(G, {}, s, v) >= 0)) &&
        (forall i, k :: 0 <= i <= k < |S| ==> 0 <= S[i] < n && 0 <= S[k] < n && d[S[i]] <= d[S[k]]) &&
        Brandes.Distinct(S) && (forall w :: 0 <= w < n ==> Brandes.Distinct(P[w]))
    {
      if !undirected || scope == Lscc || Nodes(scope) < 2 {
        return seq(n, _ => -1), [], [], [], [];
      }
      OutPrefix(E, rE, n);
      var G := E[..n];
      Brandes.IncreasingRowsDistinct(G);
      S, P, sp, d := Brandes.Forward(G, s);
      sentinel := [];
    }
  }
}
