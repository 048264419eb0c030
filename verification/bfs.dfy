/** The invariant shared by every breadth-first search of the engine. A search
    keeps a label array `d` (-1 for undiscovered nodes) and a queue `q` of the
    discovered nodes with a read position `h`: `q[..h]` are the nodes whose
    neighbours have been scanned. The lemmas below carry the invariant across
    the steps a search takes (start, pop, discover, skip a neighbour, finish a
    node) and conclude that a finished search labels every node with its
    shortest-path distance. */
module Bfs {
  import opened Seqs
  import opened Paths

  /** Labels are -1 or a step count; the queue holds exactly the labelled nodes,
      in order of nondecreasing label. */
  ghost predicate QueueOk(d: seq<int>, q: seq<int>) {
    (forall v :: 0 <= v < |d| ==> d[v] >= -1) &&
    (forall i :: 0 <= i < |q| ==> 0 <= q[i] < |d| && d[q[i]] != -1) &&
    (forall v :: 0 <= v < |d| && d[v] != -1 ==> v in q) &&
    (forall i, j :: 0 <= i <= j < |q| ==> d[q[i]] <= d[q[j]])
  }

  /** Every label given so far is the true distance. */
  ghost predicate Sound(adj: Adjacency, skip: set<int>, s: int, d: seq<int>) {
    forall v :: 0 <= v < |d| && d[v] != -1 ==> d[v] == Dist(adj, skip, s, v)
  }

  /** The scanned nodes `q[..h]` have all their enterable neighbours labelled. */
  ghost predicate Closed(adj: Adjacency, skip: set<int>, d: seq<int>, q: seq<int>, h: int) {
    forall i, w :: 0 <= i < h && i < |q| && 0 <= q[i] < |adj| && w in adj[q[i]] && w !in skip ==>
      0 <= w < |d| && d[w] != -1
  }

  /** Every node at distance at most `k` is labelled. */
  ghost predicate CompleteTo(adj: Adjacency, skip: set<int>, s: int, d: seq<int>, k: int) {
    forall v :: 0 <= v < |d| && 0 <= Dist(adj, skip, s, v) <= k ==> d[v] != -1
  }

  /** The first `j` neighbours of `u` are handled: labelled unless skipped. */
  ghost predicate Scanned(adj: Adjacency, skip: set<int>, d: seq<int>, u: int, j: int)
    requires 0 <= u < |adj|
  {
    forall i :: 0 <= i < j && i < |adj[u]| && adj[u][i] !in skip ==>
      0 <= adj[u][i] < |d| && d[adj[u][i]] != -1
  }

  /** The invariant between two pops of the queue. */
  ghost predicate Outer(adj: Adjacency, skip: set<int>, s: int, d: seq<int>, q: seq<int>, h: int) {
    WellFormed(adj) && 0 <= s < |adj| && |d| == |adj| && 0 <= h <= |q| &&
    QueueOk(d, q) && Sound(adj, skip, s, d) && d[s] != -1 &&
    Closed(adj, skip, d, q, h) &&
    (h < |q| ==> d[q[|q| - 1]] <= d[q[h]] + 1 && CompleteTo(adj, skip, s, d, d[q[h]]))
  }

  /** The invariant while the neighbours of the popped node `q[h-1]` are scanned. */
  ghost predicate Inner(adj: Adjacency, skip: set<int>, s: int, d: seq<int>, q: seq<int>, h: int, j: int) {
    WellFormed(adj) && 0 <= s < |adj| && |d| == |adj| && 1 <= h <= |q| &&
    QueueOk(d, q) && Sound(adj, skip, s, d) && d[s] != -1 &&
    Closed(adj, skip, d, q, h - 1) &&
    0 <= j <= |adj[q[h - 1]]| && Scanned(adj, skip, d, q[h - 1], j) &&
    d[q[|q| - 1]] <= d[q[h - 1]] + 1 && CompleteTo(adj, skip, s, d, d[q[h - 1]])
  }

  /** The labels a search starts from: only the source, at 0. */
  ghost function Start(n: nat, s: int): (r: seq<int>)
    requires 0 <= s < n
    ensures |r| == n && r[s] == 0
    ensures forall v :: 0 <= v < n && v != s ==> r[v] == -1
  {
    seq(n, v => -1)[s := 0]
  }

  lemma DistZero(adj: Adjacency, skip: set<int>, s: int, v: int)
    requires WellFormed(adj) && 0 <= s < |adj|
    requires Dist(adj, skip, s, v) == 0
    ensures v == s
  {
    DistUnreached(adj, skip, s, v);
  }

  lemma OuterStart(adj: Adjacency, skip: set<int>, s: int)
    requires WellFormed(adj) && 0 <= s < |adj|
    ensures Outer(adj, skip, s, Start(|adj|, s), [s], 0)
  {
    var d := Start(|adj|, s);
    DistAtSource(adj, skip, s);
    forall v | 0 <= v < |d| && 0 <= Dist(adj, skip, s, v) <= 0
      ensures d[v] != -1
    {
      DistZero(adj, skip, s, v);
    }
  }

  /** Popping `q[h]` starts the scan of its neighbours. */
  lemma OuterPop(adj: Adjacency, skip: set<int>, s: int, d: seq<int>, q: seq<int>, h: int)
    requires Outer(adj, skip, s, d, q, h) && h < |q|
    ensures Inner(adj, skip, s, d, q, h + 1, 0)
  {
  }

  lemma DiscoverQueue(d: seq<int>, q: seq<int>, w: int, k: int)
    requires QueueOk(d, q) && |q| > 0 && 0 <= w < |d| && d[w] == -1
    requires 0 <= k && d[q[|q| - 1]] <= k
    ensures QueueOk(d[w := k], q + [w])
  {
    var d' := d[w := k];
    var q' := q + [w];
    forall i, i' | 0 <= i <= i' < |q'|
      ensures d'[q'[i]] <= d'[q'[i']]
    {
      if i' == |q'| - 1 && i < |q| {
        assert d[q[i]] <= d[q[|q| - 1]];
        assert q[i] != w;
      } else if i' < |q'| - 1 {
        assert q[i] != w && q[i'] != w;
      }
    }
    forall v | 0 <= v < |d'| && d'[v] != -1
      ensures v in q'
    {
      if v != w {
        assert v in q;
      }
    }
    forall i | 0 <= i < |q'|
      ensures 0 <= q'[i] < |d'| && d'[q'[i]] != -1
    {
      if i < |q| {
        assert q'[i] == q[i];
      }
    }
  }

  /** Labelling more nodes keeps the scanned prefix closed and the lower levels complete. */
  lemma DiscoverKeeps(adj: Adjacency, skip: set<int>, s: int, d: seq<int>, q: seq<int>, h: int, w: int, k: int, c: int)
    requires Closed(adj, skip, d, q, h) && 0 <= h <= |q|
    requires CompleteTo(adj, skip, s, d, c)
    requires 0 <= w < |d| && k != -1
    ensures Closed(adj, skip, d[w := k], q + [w], h)
    ensures CompleteTo(adj, skip, s, d[w := k], c)
  {
    var q' := q + [w];
    forall i | 0 <= i < h
      ensures q'[i] == q[i]
    {
    }
  }

  lemma DiscoverSound(adj: Adjacency, skip: set<int>, s: int, d: seq<int>, w: int, k: int)
    requires Sound(adj, skip, s, d) && 0 <= w < |d| && Dist(adj, skip, s, w) == k
    ensures Sound(adj, skip, s, d[w := k])
  {
  }

  lemma DiscoverScanned(adj: Adjacency, skip: set<int>, d: seq<int>, u: int, j: int, k: int)
    requires 0 <= u < |adj| && 0 <= j < |adj[u]| && Scanned(adj, skip, d, u, j)
    requires 0 <= adj[u][j] < |d| && k != -1
    ensures Scanned(adj, skip, d[adj[u][j] := k], u, j + 1)
  {
  }

  /** The distance of an undiscovered neighbour of the popped node is one more than its label. */
  lemma DiscoverDist(adj: Adjacency, skip: set<int>, s: int, d: seq<int>, u: int, w: int)
    requires WellFormed(adj) && 0 <= s < |adj| && |d| == |adj| && 0 <= u < |adj|
    requires Sound(adj, skip, s, d) && d[u] >= 0 && CompleteTo(adj, skip, s, d, d[u])
    requires w in adj[u] && w !in skip && d[w] == -1
    ensures Dist(adj, skip, s, w) == d[u] + 1
  {
    DistEdge(adj, skip, s, u, w);
  }

  /** Labelling an undiscovered neighbour `w` of the popped node with one more
      than its label gives it its true distance. */
  lemma InnerDiscover(adj: Adjacency, skip: set<int>, s: int, d: seq<int>, q: seq<int>, h: int, j: int)
    requires Inner(adj, skip, s, d, q, h, j) && j < |adj[q[h - 1]]|
    requires 0 <= adj[q[h - 1]][j] < |d|
    requires adj[q[h - 1]][j] !in skip && d[adj[q[h - 1]][j]] == -1
    ensures var u := q[h - 1]; var w := adj[u][j];
      Dist(adj, skip, s, w) == d[u] + 1 &&
      Inner(adj, skip, s, d[w := d[u] + 1], q + [w], h, j + 1)
  {
    var u := q[h - 1];
    var w := adj[u][j];
    var k := d[u];
    assert Dist(adj, skip, s, w) == k + 1 by {
      DiscoverDist(adj, skip, s, d, u, w);
    }
    var d' := d[w := k + 1];
    var q' := q + [w];
    assert QueueOk(d', q') by {
      DiscoverQueue(d, q, w, k + 1);
    }
    assert Closed(adj, skip, d', q', h - 1) && CompleteTo(adj, skip, s, d', k) by {
      DiscoverKeeps(adj, skip, s, d, q, h - 1, w, k + 1, k);
    }
    assert Sound(adj, skip, s, d') by {
      DiscoverSound(adj, skip, s, d, w, k + 1);
    }
    assert Scanned(adj, skip, d', u, j + 1) by {
      DiscoverScanned(adj, skip, d, u, j, k + 1);
    }
    assert q'[h - 1] == u && u != w;
    assert q'[|q'| - 1] == w;
  }

  /** A skipped or already labelled neighbour changes nothing. */
  lemma InnerPass(adj: Adjacency, skip: set<int>, s: int, d: seq<int>, q: seq<int>, h: int, j: int)
    requires Inner(adj, skip, s, d, q, h, j) && j < |adj[q[h - 1]]|
    requires 0 <= adj[q[h - 1]][j] < |d|
    requires adj[q[h - 1]][j] in skip || d[adj[q[h - 1]][j]] != -1
    ensures Inner(adj, skip, s, d, q, h, j + 1)
  {
  }

  /** Once all neighbours of the popped node are scanned the outer invariant is back. */
  lemma InnerDone(adj: Adjacency, skip: set<int>, s: int, d: seq<int>, q: seq<int>, h: int)
    requires 1 <= h <= |q| && 0 <= q[h - 1] < |adj|
    requires Inner(adj, skip, s, d, q, h, |adj[q[h - 1]]|)
    ensures Outer(adj, skip, s, d, q, h)
  {
    var u := q[h - 1];
    var k := d[u];
    forall i, w | 0 <= i < h && i < |q| && 0 <= q[i] < |adj| && w in adj[q[i]] && w !in skip
      ensures 0 <= w < |d| && d[w] != -1
    {
      if i == h - 1 {
        var t :| 0 <= t < |adj[u]| && adj[u][t] == w;
      }
    }
    if h < |q| {
      assert d[q[h - 1]] <= d[q[h]];
      if d[q[h]] > k {
        forall v | 0 <= v < |d| && 0 <= Dist(adj, skip, s, v) <= d[q[h]]
          ensures d[v] != -1
        {
          if Dist(adj, skip, s, v) == k + 1 {
            NextLevel(adj, skip, s, d, q, h, v);
          }
        }
      }
    }
  }

  /** A node at distance k+1 is labelled once every node labelled k is scanned. */
  lemma NextLevel(adj: Adjacency, skip: set<int>, s: int, d: seq<int>, q: seq<int>, h: int, v: int)
    requires WellFormed(adj) && 0 <= s < |adj| && |d| == |adj| && 1 <= h < |q|
    requires QueueOk(d, q) && Sound(adj, skip, s, d) && Closed(adj, skip, d, q, h)
    requires CompleteTo(adj, skip, s, d, d[q[h - 1]])
    requires d[q[h]] == d[q[h - 1]] + 1
    requires 0 <= v < |d| && Dist(adj, skip, s, v) == d[q[h]]
    ensures d[v] != -1
  {
    var k := d[q[h - 1]];
    DistUnreached(adj, skip, s, v);
    var p := InPred(adj, skip, s, k, v);
    InRange(adj, skip, s, k, p);
    DistWithin(adj, skip, s, p, k);
    assert d[p] != -1;
    var i :| 0 <= i < |q| && q[i] == p;
    if i > h - 1 {
      assert false;
    }
    assert v in adj[q[i]];
  }

  /** Everything reachable from the source is labelled once the labelled nodes are closed under edges. */
  lemma {:induction false} ClosedReach(adj: Adjacency, skip: set<int>, s: int, d: seq<int>, k: nat, v: int)
    requires WellFormed(adj) && 0 <= s < |adj| && |d| == |adj| && d[s] != -1
    requires forall u, w :: 0 <= u < |adj| && d[u] != -1 && w in adj[u] && w !in skip ==> d[w] != -1
    requires In(adj, skip, s, k, v)
    ensures 0 <= v < |d| && d[v] != -1
    decreases k
  {
    InRange(adj, skip, s, k, v);
    if k > 0 {
      if In(adj, skip, s, k - 1, v) {
        ClosedReach(adj, skip, s, d, k - 1, v);
      } else {
        var p := InPred(adj, skip, s, k - 1, v);
        ClosedReach(adj, skip, s, d, k - 1, p);
      }
    }
  }

  /** A search whose queue is exhausted has labelled every node with its distance. */
  lemma OuterDone(adj: Adjacency, skip: set<int>, s: int, d: seq<int>, q: seq<int>)
    requires Outer(adj, skip, s, d, q, |q|)
    ensures d == DistVec(adj, skip, s)
  {
    forall u, w | 0 <= u < |adj| && d[u] != -1 && w in adj[u] && w !in skip
      ensures d[w] != -1
    {
      var i :| 0 <= i < |q| && q[i] == u;
    }
    forall v | 0 <= v < |d|
      ensures d[v] == Dist(adj, skip, s, v)
    {
      DistUnreached(adj, skip, s, v);
      if d[v] == -1 && Dist(adj, skip, s, v) != -1 {
        ClosedReach(adj, skip, s, d, Dist(adj, skip, s, v), v);
      }
    }
  }
}
