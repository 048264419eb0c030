/** The two breadth-first searches of the `Graph` object over the out-lists:
    `distance(u, v)`, which stops as soon as `v` is labelled, and
    `distances(u, dtotals)`, which labels every node and adds one to the
    tally of each distance it hands out. */
module DistanceSearch {
  import opened Seqs
  import opened Paths
  import opened Bfs

  /** What a breadth-first distance says about the walks from `s` to `v`:
      -1 exactly when `v` cannot be reached, 0 exactly at the source,
      otherwise the length of a shortest walk, always below the node count. */
  lemma DistMeaning(adj: Adjacency, s: int, v: int)
    requires WellFormed(adj) && 0 <= s < |adj| && 0 <= v < |adj|
    ensures var r := Dist(adj, {}, s, v);
      -1 <= r < |adj| &&
      (r == -1 <==> !Reaches(adj, {}, s, v)) &&
      (r >= 0 ==> IsDist(adj, {}, s, v, r)) &&
      (r == 0 <==> v == s)
  {
    DistUnreached(adj, {}, s, v);
    DistAtSource(adj, {}, s);
    var r := Dist(adj, {}, s, v);
    if r == 0 {
      DistZero(adj, {}, s, v);
    }
    if r >= 0 {
      DistBelowSize(adj, {}, s, v, r);
    }
  }

  /** The labels a search starts from, as the program builds them. */
  function Initial(n: nat, s: int): (d: seq<int>)
    requires 0 <= s < n
    ensures d == Start(n, s)
  {
    seq(n, _ => -1)[s := 0]
  }

  /** `distance(u, v)`: a breadth-first search from `u` along the out-lists
      that returns the label of `v` the moment `v` is labelled, or the label
      left when the queue runs dry. */
  method Distance(adj: Adjacency, u: int, v: int) returns (r: int)
    requires WellFormed(adj) && 0 <= u < |adj| && 0 <= v < |adj|
    ensures r == Dist(adj, {}, u, v)
    ensures r == -1 <==> !Reaches(adj, {}, u, v)
    ensures r >= 0 ==> IsDist(adj, {}, u, v, r)
    ensures r == 0 <==> u == v
  {
    DistMeaning(adj, u, v);
    var d := Initial(|adj|, u);
    var q := [u];
    var h := 0;
    OuterStart(adj, {}, u);
    while h < |q|
      invariant Outer(adj, {}, u, d, q, h)
      decreases Count(d, -1), |q| - h
    {
      OuterPop(adj, {}, u, d, q, h);
      var found;
      d, q, found := ScanUntil(adj, u, d, q, h + 1, v);
      if found {
        r := d[v];
        return;
      }
      h := h + 1;
    }
    OuterDone(adj, {}, u, d, q);
    r := d[v];
  }

  /** The state while the out-list of the popped node `q[h-1]` is scanned:
      the search invariant, with the unlabelled nodes plus the queue length
      fixed at `total`. */
  ghost predicate Scanning(adj: Adjacency, skip: set<int>, u: int, d: seq<int>, q: seq<int>, h: int, j: int, base: int, total: int) {
    Inner(adj, skip, u, d, q, h, j) && base <= |q| && Count(d, -1) + |q| == total
  }

  /** One pass of a scan: the next neighbour `w` of the popped node, if
      unlabelled and not skipped, gets the popped node's label plus one,
      which is its distance, and is queued; the scan invariant carries
      over. */
  lemma ScanStep(adj: Adjacency, skip: set<int>, u: int, d: seq<int>, q: seq<int>, h: int, j: int, base: int, total: int,
                 d': seq<int>, q': seq<int>)
    requires Scanning(adj, skip, u, d, q, h, j, base, total) && j < |adj[q[h - 1]]|
    requires var cur := q[h - 1]; var w := adj[cur][j];
      0 <= w < |d| &&
      (d[w] == -1 && w !in skip ==> d' == d[w := d[cur] + 1] && q' == q + [w]) &&
      (d[w] != -1 || w in skip ==> d' == d && q' == q)
    ensures var cur := q[h - 1]; var w := adj[cur][j];
      h <= |q'| && q'[h - 1] == cur && 0 <= w < |d'| &&
      (w !in skip ==> d'[w] == Dist(adj, skip, u, w)) &&
      Scanning(adj, skip, u, d', q', h, j + 1, base, total)
  {
    var cur := q[h - 1];
    var w := adj[cur][j];
    if d[w] == -1 && w !in skip {
      InnerDiscover(adj, skip, u, d, q, h, j);
      CountUpdate(d, w, d[cur] + 1, -1);
    } else {
      InnerPass(adj, skip, u, d, q, h, j);
    }
  }

  /** The neighbour about to be scanned is a node. */
  lemma ScanNeighbour(adj: Adjacency, skip: set<int>, u: int, d: seq<int>, q: seq<int>, h: int, j: int, base: int, total: int)
    requires Scanning(adj, skip, u, d, q, h, j, base, total) && j < |adj[q[h - 1]]|
    ensures 0 <= adj[q[h - 1]][j] < |d|
  {
    assert adj[q[h - 1]][j] in adj[q[h - 1]];
  }

  lemma ScanDone(adj: Adjacency, skip: set<int>, u: int, d: seq<int>, q: seq<int>, h: int, base: int, total: int)
    requires 1 <= h <= |q| && 0 <= q[h - 1] < |adj|
    requires Scanning(adj, skip, u, d, q, h, |adj[q[h - 1]]|, base, total)
    ensures Outer(adj, skip, u, d, q, h)
  {
    InnerDone(adj, skip, u, d, q, h);
  }

  /** The inner loop of `distance`: scan the out-list of the node just
      popped, labelling and queueing its unlabelled neighbours, and stop as
      soon as `v` is labelled. */
  method ScanUntil(adj: Adjacency, u: int, d0: seq<int>, q0: seq<int>, h: int, v: int)
      returns (d: seq<int>, q: seq<int>, found: bool)
    requires Inner(adj, {}, u, d0, q0, h, 0)
    ensures found ==> 0 <= v < |d| && d[v] == Dist(adj, {}, u, v)
    ensures !found ==> Outer(adj, {}, u, d, q, h)
    ensures !found ==> Count(d, -1) + |q| == Count(d0, -1) + |q0| && |q| >= |q0|
  {
    d, q := d0, q0;
    ghost var total := Count(d0, -1) + |q0|;
    var j := 0;
    while j < |adj[q[h - 1]]|
      invariant Scanning(adj, {}, u, d, q, h, j, |q0|, total)
      decreases |adj[q[h - 1]]| - j
    {
      d, q, found := ScanOne(adj, u, d, q, h, j, |q0|, total, v);
      if found {
        return;
      }
      j := j + 1;
    }
    ScanDone(adj, {}, u, d, q, h, |q0|, total);
    found := false;
  }

  /** One pass of the inner loop of `distance`: the next neighbour, if
      unlabelled, is labelled and, unless it is `v`, queued. */
  method ScanOne(adj: Adjacency, u: int, d0: seq<int>, q0: seq<int>, h: int, j: int, ghost base: int, ghost total: int, v: int)
      returns (d: seq<int>, q: seq<int>, found: bool)
    requires Scanning(adj, {}, u, d0, q0, h, j, base, total) && j < |adj[q0[h - 1]]|
    ensures found ==> 0 <= v < |d| && d[v] == Dist(adj, {}, u, v)
    ensures !found ==> h <= |q| && q[h - 1] == q0[h - 1] && Scanning(adj, {}, u, d, q, h, j + 1, base, total)
  {
    ScanNeighbour(adj, {}, u, d0, q0, h, j, base, total);
    var cur := q0[h - 1];
    var w := adj[cur][j];
    d, q := d0, q0;
    if d0[w] == -1 {
      d, q := d0[w := d0[cur] + 1], q0 + [w];
    }
    ScanStep(adj, {}, u, d0, q0, h, j, base, total, d, q);
    found := d0[w] == -1 && w == v;
  }

  /** The tally after a search: entry k grew by the number of nodes labelled k. */
  ghost predicate Tallied(d: seq<int>, before: seq<int>, after: seq<int>) {
    |after| == |before| &&
    forall k :: 0 <= k < |before| ==> after[k] == before[k] + Count(d, k)
  }

  lemma TallyStart(n: nat, s: int, before: seq<int>)
    requires 0 <= s < n && |before| > 0
    ensures Tallied(Start(n, s), before, before[0 := before[0] + 1])
  {
    var d := Start(n, s);
    var unseen := seq(n, _ => -1);
    forall k | 0 <= k < |before|
      ensures Count(d, k) == if k == 0 then 1 else 0
    {
      CountAll(unseen, -1);
      CountZero(unseen, k);
      CountUpdate(unseen, s, 0, k);
    }
  }

  lemma TallyStep(d: seq<int>, before: seq<int>, after: seq<int>, w: int, k: int)
    requires Tallied(d, before, after) && 0 <= w < |d| && d[w] == -1 && 0 <= k < |after|
    ensures Tallied(d[w := k], before, after[k := after[k] + 1])
  {
    forall k' | 0 <= k' < |before|
      ensures Count(d[w := k], k') == Count(d, k') + (if k' == k then 1 else 0)
    {
      CountUpdate(d, w, k, k');
    }
  }

  /** `distances(u, dtotals)`: a full breadth-first search from `u` along
      the out-lists. It returns every node's distance (-1 where unreached)
      and adds, for each distance k, the number of nodes at distance k to
      `dtotals[k]`; the source itself counts at distance 0. */
  method Distances(adj: Adjacency, u: int, dtotals: seq<int>) returns (d: seq<int>, totals: seq<int>)
    requires WellFormed(adj) && 0 <= u < |adj| && |dtotals| >= |adj|
    ensures d == DistVec(adj, {}, u)
    ensures |totals| == |dtotals|
    ensures forall k :: 0 <= k < |dtotals| ==> totals[k] == dtotals[k] + Count(d, k)
  {
    d := Initial(|adj|, u);
    var q := [u];
    var h := 0;
    OuterStart(adj, {}, u);
    TallyStart(|adj|, u, dtotals);
    totals := dtotals[0 := dtotals[0] + 1];
    while h < |q|
      invariant Outer(adj, {}, u, d, q, h)
      invariant Tallied(d, dtotals, totals)
      decreases Count(d, -1), |q| - h
    {
      OuterPop(adj, {}, u, d, q, h);
      d, q, totals := ScanTally(adj, u, d, q, h + 1, dtotals, totals);
      h := h + 1;
    }
    OuterDone(adj, {}, u, d, q);
  }

  /** The inner loop of `distances`: scan the out-list of the node just
      popped, labelling and queueing its unlabelled neighbours and adding
      one to the tally of each new label. */
  method ScanTally(adj: Adjacency, u: int, d0: seq<int>, q0: seq<int>, h: int,
                   ghost dtotals: seq<int>, totals0: seq<int>)
      returns (d: seq<int>, q: seq<int>, totals: seq<int>)
    requires Inner(adj, {}, u, d0, q0, h, 0)
    requires Tallied(d0, dtotals, totals0) && |dtotals| >= |adj|
    ensures Outer(adj, {}, u, d, q, h)
    ensures Tallied(d, dtotals, totals)
    ensures Count(d, -1) + |q| == Count(d0, -1) + |q0| && |q| >= |q0|
  {
    d, q, totals := d0, q0, totals0;
    ghost var total := Count(d0, -1) + |q0|;
    var j := 0;
    while j < |adj[q[h - 1]]|
      invariant Scanning(adj, {}, u, d, q, h, j, |q0|, total)
      invariant Tallied(d, dtotals, totals)
      decreases |adj[q[h - 1]]| - j
    {
      d, q, totals := TallyOne(adj, u, d, q, h, j, |q0|, total, dtotals, totals);
      j := j + 1;
    }
    ScanDone(adj, {}, u, d, q, h, |q0|, total);
  }

  /** One pass of the inner loop of `distances`: the next neighbour, if
      unlabelled, is labelled, queued and tallied under its distance. */
  method TallyOne(adj: Adjacency, u: int, d0: seq<int>, q0: seq<int>, h: int, j: int, ghost base: int, ghost total: int,
                  ghost dtotals: seq<int>, totals0: seq<int>)
      returns (d: seq<int>, q: seq<int>, totals: seq<int>)
    requires Scanning(adj, {}, u, d0, q0, h, j, base, total) && j < |adj[q0[h - 1]]|
    requires Tallied(d0, dtotals, totals0) && |dtotals| >= |adj|
    ensures h <= |q| && q[h - 1] == q0[h - 1] && Scanning(adj, {}, u, d, q, h, j + 1, base, total)
    ensures Tallied(d, dtotals, totals)
  {
    ScanNeighbour(adj, {}, u, d0, q0, h, j, base, total);
    var cur := q0[h - 1];
    var w := adj[cur][j];
    d, q, totals := d0, q0, totals0;
    if d0[w] == -1 {
      d, q := d0[w := d0[cur] + 1], q0 + [w];
    }
    ScanStep(adj, {}, u, d0, q0, h, j, base, total, d, q);
    if d0[w] == -1 {
      DistMeaning(adj, u, w);
      TallyStep(d0, dtotals, totals0, w, d[w]);
      totals := totals0[d[w] := totals0[d[w]] + 1];
    }
  }

  /** The tallies of one search add up to the number of nodes it reaches:
      every reached node is counted under exactly one distance. */
  lemma {:induction false} TallyTotal(d: seq<int>, k: nat)
    requires forall v :: 0 <= v < |d| ==> -1 <= d[v] < k
    ensures SumCounts(d, k) + Count(d, -1) == |d|
  {
    if d == [] {
      SumCountsNil(k);
    } else {
      var init, last := d[..|d| - 1], d[|d| - 1];
      assert forall v :: 0 <= v < |init| ==> init[v] == d[v];
      TallyTotal(init, k);
      assert d == init + [last];
      SumCountsLast(init, last, k);
      CountAppend(init, last, -1);
    }
  }

  lemma {:induction false} SumCountsNil(k: nat)
    ensures SumCounts([], k) == 0
  {
    if k > 0 {
      SumCountsNil(k - 1);
    }
  }

  /** Count(d, 0) + ... + Count(d, k-1). */
  function SumCounts(d: seq<int>, k: nat): (r: nat)
    ensures k == 0 ==> r == 0
  {
    if k == 0 then 0 else SumCounts(d, k - 1) + Count(d, k - 1)
  }

  lemma {:induction false} SumCountsLast(d: seq<int>, x: int, k: nat)
    ensures SumCounts(d + [x], k) == SumCounts(d, k) + (if 0 <= x < k then 1 else 0)
  {
    if k > 0 {
      SumCountsLast(d, x, k - 1);
      assert (d + [x])[..|d + [x]| - 1] == d;
    }
  }

  /** Summed over every distance a search can hand out, the tally of one
      `distances` call grows by the number of nodes reachable from the
      source. */
  lemma TallyCoversReached(adj: Adjacency, u: int)
    requires WellFormed(adj) && 0 <= u < |adj|
    ensures var d := DistVec(adj, {}, u);
      SumCounts(d, |adj|) == |adj| - Count(d, -1)
  {
    var d := DistVec(adj, {}, u);
    forall v | 0 <= v < |d|
      ensures -1 <= d[v] < |adj|
    {
      DistMeaning(adj, u, v);
    }
    TallyTotal(d, |adj|);
  }
}
