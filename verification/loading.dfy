/** What reading an edge list builds, over values: identifiers numbered
    0, 1, 2, ... in order of first appearance, the ids each pair of
    identifiers becomes, and the count of pairs joining an identifier to
    itself. The `Graph` class reads the pairs through mapNode and addEdge;
    the lemmas here carry the invariant of that loop from one pair to the
    next. */
module Loading {
  import opened Seqs
  import opened Tables

  /** The endpoints of a list of edges, in reading order. */
  function Endpoints(pairs: seq<(int, int)>): (r: seq<int>)
    ensures |r| == 2 * |pairs|
  {
    if pairs == [] then []
    else Endpoints(pairs[..|pairs| - 1]) + [pairs[|pairs| - 1].0, pairs[|pairs| - 1].1]
  }

  /** The identifiers of `xs` in order of first appearance, each once. */
  function FirstSeen(xs: seq<int>): (r: seq<int>)
    ensures forall x :: x in r <==> x in xs
    ensures forall i, j :: 0 <= i < j < |r| ==> r[i] != r[j]
  {
    if xs == [] then []
    else
      var r0 := FirstSeen(xs[..|xs| - 1]);
      assert forall x :: x in xs <==> x in xs[..|xs| - 1] || x == xs[|xs| - 1];
      if xs[|xs| - 1] in r0 then r0 else r0 + [xs[|xs| - 1]]
  }

  lemma FirstSeenStep(xs: seq<int>, x: int)
    ensures FirstSeen(xs + [x]) == if x in FirstSeen(xs) then FirstSeen(xs) else FirstSeen(xs) + [x]
  {
    assert (xs + [x])[..|xs + [x]| - 1] == xs;
  }

  lemma EndpointsStep(pairs: seq<(int, int)>, k: nat)
    requires k < |pairs|
    ensures Endpoints(pairs[..k + 1]) == Endpoints(pairs[..k]) + [pairs[k].0, pairs[k].1]
  {
    assert pairs[..k + 1][..k] == pairs[..k];
  }

  /** Every endpoint of every pair is listed. */
  lemma {:induction false} EndpointsCover(pairs: seq<(int, int)>)
    ensures forall i :: 0 <= i < |pairs| ==> pairs[i].0 in Endpoints(pairs) && pairs[i].1 in Endpoints(pairs)
  {
    if pairs != [] {
      var k := |pairs| - 1;
      EndpointsCover(pairs[..k]);
      assert pairs == pairs[..k] + [pairs[k]];
      forall i | 0 <= i < k
        ensures pairs[i].0 in Endpoints(pairs) && pairs[i].1 in Endpoints(pairs)
      {
        assert pairs[..k][i] == pairs[i];
      }
    }
  }

  /** Reading more identifiers never shrinks the numbering. */
  lemma FirstSeenGrows(pairs: seq<(int, int)>, k: nat)
    requires k < |pairs|
    ensures |FirstSeen(Endpoints(pairs[..k]))| <= |FirstSeen(Endpoints(pairs[..k + 1]))|
  {
    var xs := Endpoints(pairs[..k]);
    EndpointsStep(pairs, k);
    FirstSeenStep(xs, pairs[k].0);
    FirstSeenStep(xs + [pairs[k].0], pairs[k].1);
    assert xs + [pairs[k].0, pairs[k].1] == xs + [pairs[k].0] + [pairs[k].1];
  }

  /** The id of identifier `x` under `nm`, or -1 when it has none. */
  function IdOf(nm: map<int, int>, x: int): int {
    if x in nm then nm[x] else -1
  }

  /** The pairs with every identifier replaced by its id. */
  function Mapped(pairs: seq<(int, int)>, nm: map<int, int>): (r: seq<(int, int)>)
    ensures |r| == |pairs|
  {
    seq(|pairs|, i requires 0 <= i < |pairs| => (IdOf(nm, pairs[i].0), IdOf(nm, pairs[i].1)))
  }

  /** Number of pairs joining an identifier to itself. */
  function SelfPairs(pairs: seq<(int, int)>): (r: nat)
    ensures r <= |pairs|
  {
    if pairs == [] then 0
    else SelfPairs(pairs[..|pairs| - 1]) + (if pairs[|pairs| - 1].0 == pairs[|pairs| - 1].1 then 1 else 0)
  }

  /** `nm` numbers the identifiers of `xs` 0, 1, 2, ... in order of first appearance. */
  ghost predicate Numbered(xs: seq<int>, nm: map<int, int>) {
    (forall x :: x in nm <==> x in xs) &&
    (forall j :: 0 <= j < |FirstSeen(xs)| ==> FirstSeen(xs)[j] in nm && nm[FirstSeen(xs)[j]] == j)
  }

  /** Row x of `E` holds exactly the y with (x, y) listed in `S`, and `S`
      lists no row outside `E`. */
  ghost predicate ListsOf(E: seq<seq<int>>, S: seq<(int, int)>) {
    (forall i :: 0 <= i < |S| ==> 0 <= S[i].0 < |E|) &&
    forall x, y {:trigger y in E[x]} :: 0 <= x < |E| ==> (y in E[x] <==> (x, y) in S)
  }

  /** What reading `pairs` without a skipped edge leaves: identifiers
      numbered by first appearance, n of them, an out-list edge x->y for
      exactly the pairs mapped to (x, y), and one self-loop count per self
      pair read. */
  ghost predicate LoadedFrom(pairs: seq<(int, int)>, E: seq<seq<int>>, nm: map<int, int>, n: int, selfm: int) {
    Numbered(Endpoints(pairs), nm) && n == |FirstSeen(Endpoints(pairs))| &&
    ListsOf(E, Mapped(pairs, nm)) && selfm == SelfPairs(pairs)
  }

  /** Row x of `E` holds exactly the y such that (x, y) or (y, x) is in `S`. */
  ghost predicate SymListsOf(E: seq<seq<int>>, S: seq<(int, int)>) {
    (forall i :: 0 <= i < |S| ==> 0 <= S[i].0 < |E|) &&
    forall x, y {:trigger y in E[x]} :: 0 <= x < |E| ==> (y in E[x] <==> (x, y) in S || (y, x) in S)
  }

  /** What reading `pairs` as undirected edges leaves: LoadedFrom with
      every pair listed in both directions. */
  ghost predicate UndirectedFrom(pairs: seq<(int, int)>, E: seq<seq<int>>, nm: map<int, int>, n: int, selfm: int) {
    Numbered(Endpoints(pairs), nm) && n == |FirstSeen(Endpoints(pairs))| &&
    SymListsOf(E, Mapped(pairs, nm)) && selfm == SelfPairs(pairs)
  }

  /** Closing the lists read under reversal gives the undirected reading;
      reading nothing leaves empty lists, which are their own closure. */
  lemma LoadedUndirected(pairs: seq<(int, int)>, E: seq<seq<int>>, E1: seq<seq<int>>, nm: map<int, int>, n: int, selfm: int)
    requires LoadedFrom(pairs, E, nm, n, selfm)
    requires SymClosure(E, E1) || (pairs == [] && E1 == E)
    ensures UndirectedFrom(pairs, E1, nm, n, selfm)
  {
  }

  /** Reading the pairs (1, 1) and (1, 1) numbers one identifier, counts
      two self pairs and, with duplicates removed, leaves the single
      out-list [0]. */
  lemma ReadDuplicateSelfLoop(E: seq<seq<int>>, nm: map<int, int>, n: int, selfm: int)
    requires LoadedFrom([(1, 1), (1, 1)], E, nm, n, selfm) && AllIncreasing(E)
    ensures selfm == 2 && n == 1 && |E| >= 1 && E[0] == [0]
    ensures forall x :: 1 <= x < |E| ==> E[x] == []
  {
    var S := DuplicateSelfLoopIds(nm, n);
    assert ListsOf(E, S);
    assert 0 <= S[0].0 < |E| && (0, 0) in S;
    assert 0 in E[0];
    Singleton(E[0], 0);
    assert forall x :: 1 <= x < |E| && E[x] != [] ==> E[x][0] in E[x];
  }

  /** The numbering side of ReadDuplicateSelfLoop. */
  lemma DuplicateSelfLoopIds(nm: map<int, int>, n: int) returns (S: seq<(int, int)>)
    requires Numbered(Endpoints([(1, 1), (1, 1)]), nm) && n == |FirstSeen(Endpoints([(1, 1), (1, 1)]))|
    ensures n == 1 && S == Mapped([(1, 1), (1, 1)], nm) && S == [(0, 0), (0, 0)]
    ensures SelfPairs([(1, 1), (1, 1)]) == 2
  {
    DuplicateEndpoints();
    var fs := FirstSeen([1, 1, 1, 1]);
    assert fs[0] == 1;
    assert nm[1] == 0;
    S := Mapped([(1, 1), (1, 1)], nm);
    assert S[0] == (0, 0) && S[1] == (0, 0);
  }

  /** The endpoint list of the pairs (1, 1) and (1, 1), its one distinct
      identifier and the self-pair count. */
  lemma DuplicateEndpoints()
    ensures Endpoints([(1, 1), (1, 1)]) == [1, 1, 1, 1] && FirstSeen([1, 1, 1, 1]) == [1]
    ensures SelfPairs([(1, 1), (1, 1)]) == 2
  {
    var pairs: seq<(int, int)> := [(1, 1), (1, 1)];
    assert pairs[..1] == [(1, 1)] && |pairs[..1][..0]| == 0;
    var fs := FirstSeen([1, 1, 1, 1]);
    assert 1 in fs;
    Singleton(fs, 1);
  }

  /** What was read depends on the element sets of the rows alone, so
      sorting and deduplicating keeps it. */
  lemma LoadedFromSameSets(pairs: seq<(int, int)>, E: seq<seq<int>>, E1: seq<seq<int>>, nm: map<int, int>, n: int, selfm: int)
    requires LoadedFrom(pairs, E, nm, n, selfm) && SameSets(E, E1)
    ensures LoadedFrom(pairs, E1, nm, n, selfm)
  {
  }

  /** The invariant of the reading loop while no edge has been skipped. */
  ghost predicate ReadSoFar(pairs: seq<(int, int)>, E: seq<seq<int>>, rE: seq<seq<int>>, hs: seq<bool>, maxn: int, n: int,
                          m: int, selfm: int, nm: map<int, int>, rm: map<int, int>, nexti: int) {
    StoreOk(E, rE, hs, maxn, n, m, selfm, nm, rm, nexti, true, false, false) &&
    LoadedFrom(pairs, E, nm, n, selfm)
  }

  /** One call of mapNode on `x`: an identifier already numbered keeps its
      id and changes nothing; a new one gets `nexti`, which then advances. */
  ghost predicate MapStep(nm: map<int, int>, rm: map<int, int>, nexti: int, x: int, id: int,
                          nm1: map<int, int>, rm1: map<int, int>, nexti1: int) {
    (x in nm ==> id == nm[x] && nm1 == nm && rm1 == rm && nexti1 == nexti) &&
    (x !in nm ==> id == nexti && nm1 == nm[x := id] && rm1 == rm[id := x] && nexti1 == nexti + 1)
  }

  /** mapNode extends a first-appearance numbering by one identifier. */
  lemma NumberedStep(xs: seq<int>, nm: map<int, int>, rm: map<int, int>, nexti: int, x: int, id: int,
                     nm1: map<int, int>, rm1: map<int, int>, nexti1: int)
    requires Numbered(xs, nm) && nexti == |FirstSeen(xs)|
    requires MapStep(nm, rm, nexti, x, id, nm1, rm1, nexti1)
    ensures Numbered(xs + [x], nm1) && nexti1 == |FirstSeen(xs + [x])|
    ensures forall y :: y in nm ==> y in nm1 && nm1[y] == nm[y]
    ensures 0 <= id <= nexti && (id == nexti <==> x !in nm)
  {
    var fs := FirstSeen(xs);
    FirstSeenStep(xs, x);
    if x in nm {
      assert x in fs;
      var j :| 0 <= j < |fs| && fs[j] == x;
    } else {
      assert x !in fs;
      var fs1 := fs + [x];
      forall j | 0 <= j < |fs1|
        ensures fs1[j] in nm1 && nm1[fs1[j]] == j
      {
        if j < |fs| {
          assert fs1[j] == fs[j] && fs[j] != x;
        }
      }
    }
  }

  /** The mapped pairs grow by the ids of the pair just read. */
  lemma MappedStep(pairs: seq<(int, int)>, k: nat, nm: map<int, int>, nm2: map<int, int>)
    requires k < |pairs|
    requires forall i :: 0 <= i < k ==> pairs[i].0 in nm && pairs[i].1 in nm
    requires forall y :: y in nm ==> y in nm2 && nm2[y] == nm[y]
    ensures Mapped(pairs[..k + 1], nm2) == Mapped(pairs[..k], nm) + [(IdOf(nm2, pairs[k].0), IdOf(nm2, pairs[k].1))]
  {
  }

  /** Appending x->y to the lists follows appending (x, y) to the listed pairs. */
  lemma ListsStep(E: seq<seq<int>>, S: seq<(int, int)>, a: int, b: int)
    requires ListsOf(E, S) && 0 <= a < |E|
    ensures ListsOf(Append(E, a, b), S + [(a, b)])
  {
  }

  lemma SelfPairsStep(pairs: seq<(int, int)>, k: nat)
    requires k < |pairs|
    ensures SelfPairs(pairs[..k + 1]) == SelfPairs(pairs[..k]) + (if pairs[k].0 == pairs[k].1 then 1 else 0)
  {
    assert pairs[..k + 1][..k] == pairs[..k];
  }

  /** Nothing read yet: a blank store is the start of the reading loop. */
  lemma LoadingStart(E: seq<seq<int>>, rE: seq<seq<int>>, hs: seq<bool>, maxn: int, n: int,
                     m: int, selfm: int, nm: map<int, int>, rm: map<int, int>, nexti: int, undirected: bool, sorted: bool)
    requires StoreOk(E, rE, hs, maxn, n, m, selfm, nm, rm, nexti, false, undirected, sorted)
    ensures ReadSoFar([], E, rE, hs, maxn, n, m, selfm, nm, rm, nexti)
  {
    assert AllEmpty(E) && AllEmpty(rE) by {
      forall i | 0 <= i < |E|
        ensures E[i] == [] && rE[i] == []
      {
      }
    }
    assert Covers(rE, E);
  }

  /** The ids mapNode hands out for a pair: each is an old id or the next
      fresh one, the second fresh id only after the first. */
  lemma PairIds(xs: seq<int>, u: int, v: int, nm: map<int, int>, rm: map<int, int>, nexti: int,
                a: int, nm1: map<int, int>, rm1: map<int, int>, nexti1: int,
                b: int, nm2: map<int, int>, rm2: map<int, int>, nexti2: int)
    requires Numbered(xs, nm) && nexti == |FirstSeen(xs)|
    requires MapStep(nm, rm, nexti, u, a, nm1, rm1, nexti1)
    requires MapStep(nm1, rm1, nexti1, v, b, nm2, rm2, nexti2)
    requires MappingOk(nm2, rm2, nexti2)
    ensures Numbered(xs + [u, v], nm2) && nexti2 == |FirstSeen(xs + [u, v])|
    ensures forall y :: y in nm ==> y in nm2 && nm2[y] == nm[y]
    ensures 0 <= a <= nexti && 0 <= b <= nexti + 1 && (b == nexti + 1 ==> a == nexti)
    ensures a == IdOf(nm2, u) && b == IdOf(nm2, v) && (a == b <==> u == v)
    ensures nexti2 == nexti + (if a == nexti then 1 else 0) + (if b >= nexti && b != a then 1 else 0)
    ensures a == nexti ==> |FirstSeen(xs + [u, v])| >= nexti + 1
    ensures b == nexti1 ==> |FirstSeen(xs + [u, v])| == nexti1 + 1
  {
    NumberedStep(xs, nm, rm, nexti, u, a, nm1, rm1, nexti1);
    NumberedStep(xs + [u], nm1, rm1, nexti1, v, b, nm2, rm2, nexti2);
    assert xs + [u, v] == xs + [u] + [v];
    FirstSeenStep(xs + [u], v);
    assert nm2[u] == a && nm2[v] == b;
  }

  /** The table half of one pass: addEdge on ids that are old or the next
      fresh ones keeps the store sound. */
  lemma LoadTables(E: seq<seq<int>>, rE: seq<seq<int>>, hs: seq<bool>, maxn: int, n: int,
                   m: int, selfm: int, nm2: map<int, int>, rm2: map<int, int>, nexti2: int, a: int, b: int)
    requires TablesOk(E, rE, hs, maxn, n, false, false) && 0 <= m && 0 <= selfm
    requires MappingOk(nm2, rm2, nexti2)
    requires 0 <= a <= n && 0 <= b <= n + 1 && (b == n + 1 ==> a == n) && a < maxn && b < maxn
    requires nexti2 == n + (if a == n then 1 else 0) + (if b >= n && b != a then 1 else 0)
    ensures n + NewlyTouched(E, rE, a, b) == nexti2
    ensures StoreOk(Append(E, a, b), Append(rE, b, a), if a == b then hs[a := true] else hs,
                    maxn, n + NewlyTouched(E, rE, a, b), m + 1, selfm + (if a == b then 1 else 0), nm2, rm2, nexti2,
                    true, false, false)
  {
    AppendKeeps(E, rE, hs, maxn, n, a, b);
    assert DenseTables(E, rE, n);
    assert E[b] == [] && rE[b] == [] <==> b >= n;
    assert E[a] == [] && rE[a] == [] <==> a >= n;
  }

  /** The numbering half of one pass. */
  lemma LoadFrom(pairs: seq<(int, int)>, k: nat, E: seq<seq<int>>, nm: map<int, int>, n: int, selfm: int,
                 nm2: map<int, int>, a: int, b: int)
    requires k < |pairs| && 0 <= a < |E|
    requires LoadedFrom(pairs[..k], E, nm, n, selfm)
    requires Numbered(Endpoints(pairs[..k]) + [pairs[k].0, pairs[k].1], nm2)
    requires forall y :: y in nm ==> y in nm2 && nm2[y] == nm[y]
    requires a == IdOf(nm2, pairs[k].0) && b == IdOf(nm2, pairs[k].1) && (a == b <==> pairs[k].0 == pairs[k].1)
    ensures LoadedFrom(pairs[..k + 1], Append(E, a, b), nm2,
                       |FirstSeen(Endpoints(pairs[..k]) + [pairs[k].0, pairs[k].1])|, selfm + (if a == b then 1 else 0))
  {
    EndpointsStep(pairs, k);
    EndpointsCover(pairs[..k]);
    forall i | 0 <= i < k
      ensures pairs[i].0 in nm && pairs[i].1 in nm
    {
      assert pairs[..k][i] == pairs[i];
    }
    MappedStep(pairs, k, nm, nm2);
    ListsStep(E, Mapped(pairs[..k], nm), a, b);
    SelfPairsStep(pairs, k);
  }

  /** One pass of the reading loop: the two ids mapNode hands out for the
      next pair are either within the tables, and then the tables addEdge
      leaves (E2, rE2, hs2 and the counters n2, m2, selfm2) keep the
      invariant for one more pair, or one of them is not, and then more
      than `maxn` identifiers have been seen. */
  lemma LoadStep(pairs: seq<(int, int)>, k: nat, E: seq<seq<int>>, rE: seq<seq<int>>, hs: seq<bool>, maxn: int, n: int,
                 m: int, selfm: int, nm: map<int, int>, rm: map<int, int>, nexti: int,
                 a: int, nm1: map<int, int>, rm1: map<int, int>, nexti1: int,
                 b: int, nm2: map<int, int>, rm2: map<int, int>, nexti2: int,
                 added: bool, E2: seq<seq<int>>, rE2: seq<seq<int>>, hs2: seq<bool>, n2: int, m2: int, selfm2: int)
    requires k < |pairs|
    requires ReadSoFar(pairs[..k], E, rE, hs, maxn, n, m, selfm, nm, rm, nexti)
    requires MapStep(nm, rm, nexti, pairs[k].0, a, nm1, rm1, nexti1)
    requires MapStep(nm1, rm1, nexti1, pairs[k].1, b, nm2, rm2, nexti2)
    requires MappingOk(nm2, rm2, nexti2)
    requires added == (0 <= a < maxn && 0 <= b < maxn)
    requires added ==>
      E2 == Append(E, a, b) && rE2 == Append(rE, b, a) && hs2 == (if a == b then hs[a := true] else hs) &&
      n2 == n + NewlyTouched(E, rE, a, b) && m2 == m + 1 && selfm2 == selfm + (if a == b then 1 else 0)
    ensures added ==>
      ReadSoFar(pairs[..k + 1], E2, rE2, hs2, maxn, n2, m2, selfm2, nm2, rm2, nexti2) &&
      |FirstSeen(Endpoints(pairs[..k + 1]))| <= maxn
    ensures !added ==> |FirstSeen(Endpoints(pairs[..k + 1]))| > maxn
  {
    ReadStep(pairs, k, E, rE, hs, maxn, n, m, selfm, nm, rm, nexti, a, nm1, rm1, nexti1, b, nm2, rm2, nexti2);
    if added {
      var L, R, H := Append(E, a, b), Append(rE, b, a), if a == b then hs[a := true] else hs;
      assert StoreOk(L, R, H, maxn, n2, m2, selfm2, nm2, rm2, nexti2, true, false, false);
      assert LoadedFrom(pairs[..k + 1], L, nm2, n2, selfm2);
    }
  }

  /** LoadStep with the tables after the pass written out. */
  lemma ReadStep(pairs: seq<(int, int)>, k: nat, E: seq<seq<int>>, rE: seq<seq<int>>, hs: seq<bool>, maxn: int, n: int,
                 m: int, selfm: int, nm: map<int, int>, rm: map<int, int>, nexti: int,
                 a: int, nm1: map<int, int>, rm1: map<int, int>, nexti1: int,
                 b: int, nm2: map<int, int>, rm2: map<int, int>, nexti2: int)
    requires k < |pairs|
    requires ReadSoFar(pairs[..k], E, rE, hs, maxn, n, m, selfm, nm, rm, nexti)
    requires MapStep(nm, rm, nexti, pairs[k].0, a, nm1, rm1, nexti1)
    requires MapStep(nm1, rm1, nexti1, pairs[k].1, b, nm2, rm2, nexti2)
    requires MappingOk(nm2, rm2, nexti2)
    ensures 0 <= a && 0 <= b
    ensures a < maxn && b < maxn ==>
      |FirstSeen(Endpoints(pairs[..k + 1]))| <= maxn &&
      ReadSoFar(pairs[..k + 1], Append(E, a, b), Append(rE, b, a), if a == b then hs[a := true] else hs,
                maxn, n + NewlyTouched(E, rE, a, b), m + 1, selfm + (if a == b then 1 else 0), nm2, rm2, nexti2)
    ensures !(a < maxn && b < maxn) ==> |FirstSeen(Endpoints(pairs[..k + 1]))| > maxn
  {
    var xs := Endpoints(pairs[..k]);
    PairIds(xs, pairs[k].0, pairs[k].1, nm, rm, nexti, a, nm1, rm1, nexti1, b, nm2, rm2, nexti2);
    EndpointsStep(pairs, k);
    if a < maxn && b < maxn {
      LoadTables(E, rE, hs, maxn, n, m, selfm, nm2, rm2, nexti2, a, b);
      LoadFrom(pairs, k, E, nm, n, selfm, nm2, a, b);
    }
  }
}
