/** The forward phase of Brandes' betweenness algorithm, as
    `betweennessCentrality` runs it for each source s
    (src/CenGraph.cpp lines 212-238): a breadth-first search along the
    out-lists that labels every node with its distance (n+1 where it is not
    reached), counts the shortest paths into each node in `sp`, records in
    `P[w]` the nodes one step closer to s that have w as a neighbour, and
    pushes every popped node onto the stack `S`. */
module Brandes {
  import opened Seqs
  import opened Paths
  import opened Bfs
  import opened DistanceSearch

  /** The labels as the shared search invariant reads them: the program's
      "not reached" label n+1 read as -1. */
  function Lab(d: seq<int>, n: int): (r: seq<int>)
    ensures |r| == |d| && forall i :: 0 <= i < |d| ==> r[i] == if d[i] == n + 1 then -1 else d[i]
  {
    seq(|d|, i requires 0 <= i < |d| => if d[i] == n + 1 then -1 else d[i])
  }

  lemma LabUpdate(d: seq<int>, n: int, w: int, k: int)
    requires 0 <= w < |d| && k != n + 1
    ensures Lab(d[w := k], n) == Lab(d, n)[w := k]
  {
  }

  /** The labels a search starts from. */
  lemma LabStart(n: nat, s: int)
    requires 0 <= s < n
    ensures Lab(seq(n, _ => n + 1)[s := 0], n) == Start(n, s)
  {
  }

  /** Labels are the "not reached" mark n+1 or a step count below n. */
  ghost predicate Marks(d: seq<int>, n: int) {
    forall v :: 0 <= v < |d| ==> d[v] == n + 1 || 0 <= d[v] < n
  }

  /** The sum of sp[v] over the entries v of a predecessor list. */
  ghost function SumSp(P: seq<int>, sp: seq<int>): int {
    if P == [] then 0 else SumSp(P[..|P| - 1], sp) + (if 0 <= P[|P| - 1] < |sp| then sp[P[|P| - 1]] else 0)
  }

  lemma SumSpAppend(P: seq<int>, sp: seq<int>, v: int)
    ensures SumSp(P + [v], sp) == SumSp(P, sp) + (if 0 <= v < |sp| then sp[v] else 0)
  {
    assert (P + [v])[..|P|] == P;
  }

  /** Changing sp at a node the list does not hold leaves its sum alone. */
  lemma {:induction false} SumSpFrame(P: seq<int>, sp: seq<int>, x: int, val: int)
    requires 0 <= x < |sp| && x !in P
    ensures SumSp(P, sp[x := val]) == SumSp(P, sp)
  {
    if P != [] {
      var init := P[..|P| - 1];
      assert P == init + [P[|P| - 1]];
      SumSpFrame(init, sp, x, val);
    }
  }

  /** A list whose every entry has a count of at least one sums to at
      least its length. */
  lemma {:induction false} SumSpBelow(P: seq<int>, sp: seq<int>)
    requires forall i :: 0 <= i < |P| ==> 0 <= P[i] < |sp| && sp[P[i]] >= 1
    ensures SumSp(P, sp) >= |P|
  {
    if P != [] {
      SumSpBelow(P[..|P| - 1], sp);
    }
  }

  /** The pairs (v, w), w a neighbour of v, the search has looked at: every
      neighbour of the f nodes popped and finished, and the first j
      neighbours of the node q[f] being scanned. */
  ghost predicate Seen(adj: Adjacency, q: seq<int>, f: int, j: int, v: int, w: int)
    requires 0 <= f <= |q|
  {
    (v in q[..f] && 0 <= v < |adj| && w in adj[v]) ||
    (f < |q| && v == q[f] && 0 <= v < |adj| && 0 <= j <= |adj[v]| && w in adj[v][..j])
  }

  /** The invariant of the counts: `P[w]` holds exactly the looked-at
      neighbours-of pairs (v, w) one label apart, each entry no further than
      the node being scanned; `sp[s]` is 1 and every other `sp[w]` is the
      sum of sp over `P[w]`. */
  ghost predicate Counted(adj: Adjacency, s: int, d: seq<int>, sp: seq<int>, P: seq<seq<int>>, q: seq<int>, f: int, j: int) {
    |d| == |adj| && |sp| == |adj| && |P| == |adj| && 0 <= s < |adj| && 0 <= f <= |q| &&
    (forall w, v {:trigger v in P[w]} :: 0 <= w < |adj| ==>
      (v in P[w] <==> 0 <= v < |adj| && d[v] + 1 == d[w] && Seen(adj, q, f, j, v, w))) &&
    (f < |q| && 0 <= q[f] < |adj| ==>
      forall w, v {:trigger v in P[w]} :: 0 <= w < |adj| && v in P[w] ==> 0 <= v < |adj| && d[v] <= d[q[f]]) &&
    sp[s] == 1 &&
    (forall w :: 0 <= w < |adj| && w != s ==> sp[w] == SumSp(P[w], sp))
  }

  /** The nodes the search has looked at an edge out of are labelled. */
  lemma SeenFromLabelled(adj: Adjacency, s: int, L: seq<int>, q: seq<int>, f: int, j: int)
    requires Inner(adj, {}, s, L, q, f + 1, j)
    ensures forall v, w :: Seen(adj, q, f, j, v, w) ==> 0 <= v < |L| && L[v] != -1 && L[v] <= L[q[f]]
  {
    forall v, w | Seen(adj, q, f, j, v, w)
      ensures 0 <= v < |L| && L[v] != -1 && L[v] <= L[q[f]]
    {
      if v in q[..f] {
        var i :| 0 <= i < f && q[i] == v;
      }
    }
  }

  /** Every neighbour the search has looked at is labelled. */
  lemma SeenToLabelled(adj: Adjacency, s: int, L: seq<int>, q: seq<int>, f: int, j: int)
    requires Inner(adj, {}, s, L, q, f + 1, j)
    ensures forall v, w :: Seen(adj, q, f, j, v, w) ==> 0 <= w < |L| && L[w] != -1
  {
    forall v, w | Seen(adj, q, f, j, v, w)
      ensures 0 <= w < |L| && L[w] != -1
    {
      if v in q[..f] && 0 <= v < |adj| && w in adj[v] {
        var i :| 0 <= i < f && q[i] == v;
      } else {
        var t :| 0 <= t < j && adj[v][t] == w;
      }
    }
  }

  /** Looking at one more neighbour w0 of the node being scanned adds the
      pair (cur, w0) and nothing else. */
  lemma SeenStep(adj: Adjacency, q: seq<int>, q': seq<int>, f: int, j: int, v: int, w: int)
    requires 0 <= f < |q| && 0 <= q[f] < |adj| && 0 <= j < |adj[q[f]]|
    requires |q| <= |q'| && q'[..|q|] == q
    ensures Seen(adj, q', f, j + 1, v, w) <==> Seen(adj, q, f, j, v, w) || (v == q[f] && w == adj[q[f]][j])
  {
    assert q'[..f] == q[..f];
    assert adj[q[f]][..j + 1] == adj[q[f]][..j] + [adj[q[f]][j]];
  }

  /** The membership half of one scan step. */
  lemma MembersStep(adj: Adjacency, s: int, d0: seq<int>, P0: seq<seq<int>>, q0: seq<int>, f: int, j: int,
                    d: seq<int>, P: seq<seq<int>>, q: seq<int>, added: bool)
    requires var n := |adj|; var L := Lab(d0, n);
      Inner(adj, {}, s, L, q0, f + 1, j) && j < |adj[q0[f]]| && Marks(d0, n) &&
      |P0| == n && |q0| <= |q| && q[..|q0|] == q0 &&
      (forall w, v {:trigger v in P0[w]} :: 0 <= w < n ==>
        (v in P0[w] <==> 0 <= v < n && d0[v] + 1 == d0[w] && Seen(adj, q0, f, j, v, w)))
    requires var n := |adj|; var cur := q0[f]; var w0 := adj[cur][j];
      0 <= w0 < n &&
      (d0[w0] == n + 1 ==> d == d0[w0 := d0[cur] + 1]) && (d0[w0] != n + 1 ==> d == d0) &&
      added == (d[w0] == d0[cur] + 1) &&
      (added ==> P == P0[w0 := P0[w0] + [cur]]) && (!added ==> P == P0)
    ensures forall w, v {:trigger v in P[w]} :: 0 <= w < |adj| ==>
      (v in P[w] <==> 0 <= v < |adj| && d[v] + 1 == d[w] && Seen(adj, q, f, j + 1, v, w))
  {
    var n := |adj|;
    var L := Lab(d0, n);
    var cur := q0[f];
    var w0 := adj[cur][j];
    SeenFromLabelled(adj, s, L, q0, f, j);
    SeenToLabelled(adj, s, L, q0, f, j);
    assert 0 <= cur < n && L[cur] != -1;
    forall w, v | 0 <= w < n
      ensures v in P[w] <==> 0 <= v < n && d[v] + 1 == d[w] && Seen(adj, q, f, j + 1, v, w)
    {
      SeenStep(adj, q0, q, f, j, v, w);
      if w == w0 && d0[w0] == n + 1 {
        assert v in P0[w] <==> false;
      }
    }
  }

  /** The counting half of one scan step: sp stays the sum over each list. */
  lemma SumsStep(adj: Adjacency, s: int, d0: seq<int>, sp0: seq<int>, P0: seq<seq<int>>, cur: int, w0: int,
                 d: seq<int>, sp: seq<int>, P: seq<seq<int>>)
    requires var n := |adj|;
      |d0| == n && |sp0| == n && |P0| == n && 0 <= s < n && 0 <= cur < n && 0 <= w0 < n &&
      0 <= d0[cur] < n && d0[s] == 0 && |d| == n &&
      (forall w, v {:trigger v in P0[w]} :: 0 <= w < n && v in P0[w] ==> 0 <= v < n && d0[v] <= d0[cur]) &&
      sp0[s] == 1 && (forall w :: 0 <= w < n && w != s ==> sp0[w] == SumSp(P0[w], sp0))
    requires var n := |adj|;
      (d0[w0] == n + 1 ==> d == d0[w0 := d0[cur] + 1]) && (d0[w0] != n + 1 ==> d == d0) &&
      (d[w0] == d0[cur] + 1 ==> sp == sp0[w0 := sp0[w0] + sp0[cur]] && P == P0[w0 := P0[w0] + [cur]]) &&
      (d[w0] != d0[cur] + 1 ==> sp == sp0 && P == P0)
    ensures sp[s] == 1 && forall w :: 0 <= w < |adj| && w != s ==> sp[w] == SumSp(P[w], sp)
    ensures forall w, v {:trigger v in P[w]} :: 0 <= w < |adj| && v in P[w] ==> 0 <= v < |adj| && d[v] <= d[cur]
  {
    var n := |adj|;
    if d[w0] == d0[cur] + 1 {
      assert d0[w0] > d0[cur];
      assert w0 != s && w0 != cur;
      forall w | 0 <= w < n && w != s
        ensures sp[w] == SumSp(P[w], sp)
      {
        assert w0 !in P0[w];
        SumSpFrame(P0[w], sp0, w0, sp0[w0] + sp0[cur]);
        if w == w0 {
          SumSpAppend(P0[w0], sp, cur);
        }
      }
    }
  }

  /** The update one pass of the inner loop makes for the popped node v
      and its neighbour w: w, if unreached, gets v's label plus one and is
      queued; if w is then one step beyond v, v's count is added to w's
      count and v to w's list. */
  ghost predicate Relaxed(n: int, v: int, w: int, d0: seq<int>, q0: seq<int>, sp0: seq<int>, P0: seq<seq<int>>,
                          d: seq<int>, q: seq<int>, sp: seq<int>, P: seq<seq<int>>) {
    0 <= v < |d0| && 0 <= w < |d0| && |sp0| == |d0| && |P0| == |d0| &&
    (d0[w] == n + 1 ==> d == d0[w := d0[v] + 1] && q == q0 + [w]) &&
    (d0[w] != n + 1 ==> d == d0 && q == q0) &&
    (d[w] == d0[v] + 1 ==> sp == sp0[w := sp0[w] + sp0[v]] && P == P0[w := P0[w] + [v]]) &&
    (d[w] != d0[v] + 1 ==> sp == sp0 && P == P0)
  }

  /** The search half of one pass: the labels read as distances keep the
      scan invariant. */
  lemma RelaxScan(adj: Adjacency, s: int, d0: seq<int>, q0: seq<int>, h: int, j: int, base: int, total: int,
                  sp0: seq<int>, P0: seq<seq<int>>, d: seq<int>, q: seq<int>, sp: seq<int>, P: seq<seq<int>>)
    requires Scanning(adj, {}, s, Lab(d0, |adj|), q0, h, j, base, total) && j < |adj[q0[h - 1]]|
    requires Marks(d0, |adj|) && Lab(d0, |adj|)[q0[h - 1]] != -1
    requires 0 <= q0[h - 1] < |adj| && Relaxed(|adj|, q0[h - 1], adj[q0[h - 1]][j], d0, q0, sp0, P0, d, q, sp, P)
    ensures h <= |q| && q[h - 1] == q0[h - 1] && Scanning(adj, {}, s, Lab(d, |adj|), q, h, j + 1, base, total)
    ensures Marks(d, |adj|) && q[..|q0|] == q0
  {
    var n := |adj|;
    var v := q0[h - 1];
    var w := adj[v][j];
    if d0[w] == n + 1 {
      LabUpdate(d0, n, w, d0[v] + 1);
    }
    ScanStep(adj, {}, s, Lab(d0, n), q0, h, j, base, total, Lab(d, n), q);
    if d0[w] == n + 1 {
      DistMeaning(adj, s, w);
    }
    assert q[..|q0|] == q0;
  }

  /** The counting half of one pass: the lists and counts keep their
      invariant. */
  lemma RelaxCount(adj: Adjacency, s: int, d0: seq<int>, q0: seq<int>, h: int, j: int,
                   sp0: seq<int>, P0: seq<seq<int>>, d: seq<int>, q: seq<int>, sp: seq<int>, P: seq<seq<int>>)
    requires Inner(adj, {}, s, Lab(d0, |adj|), q0, h, j) && j < |adj[q0[h - 1]]|
    requires Marks(d0, |adj|) && Counted(adj, s, d0, sp0, P0, q0, h - 1, j)
    requires 0 <= q0[h - 1] < |adj| && Relaxed(|adj|, q0[h - 1], adj[q0[h - 1]][j], d0, q0, sp0, P0, d, q, sp, P)
    requires h <= |q| && q[h - 1] == q0[h - 1] && q[..|q0|] == q0
    ensures Counted(adj, s, d, sp, P, q, h - 1, j + 1)
  {
    var n := |adj|;
    var v := q0[h - 1];
    var w := adj[v][j];
    SeenFromLabelled(adj, s, Lab(d0, n), q0, h - 1, j);
    assert 0 <= d0[v] < n && d0[s] == 0;
    MembersStep(adj, s, d0, P0, q0, h - 1, j, d, P, q, d[w] == d0[v] + 1);
    SumsStep(adj, s, d0, sp0, P0, v, w, d, sp, P);
  }

  ghost predicate Distinct(s: seq<int>) {
    forall i, k :: 0 <= i < k < |s| ==> s[i] != s[k]
  }

  /** No out-list holds a node twice (no parallel edges). */
  ghost predicate RowsDistinct(adj: Adjacency) {
    forall v :: 0 <= v < |adj| ==> Distinct(adj[v])
  }

  /** Strictly increasing lists, as the sorted store keeps them, repeat no node. */
  lemma IncreasingRowsDistinct(adj: Adjacency)
    requires forall v :: 0 <= v < |adj| ==> Increasing(adj[v])
    ensures RowsDistinct(adj)
  {
  }

  /** The queue never holds a node twice, and without parallel edges no
      predecessor list does either. */
  ghost predicate Unrepeated(adj: Adjacency, P: seq<seq<int>>, q: seq<int>) {
    Distinct(q) && (RowsDistinct(adj) ==> forall w :: 0 <= w < |P| ==> Distinct(P[w]))
  }

  /** The repetition half of one pass: only an unreached node is queued,
      and the popped node is not yet in the list it joins. */
  lemma RelaxDistinct(adj: Adjacency, s: int, d0: seq<int>, q0: seq<int>, h: int, j: int,
                      sp0: seq<int>, P0: seq<seq<int>>, d: seq<int>, q: seq<int>, sp: seq<int>, P: seq<seq<int>>)
    requires Inner(adj, {}, s, Lab(d0, |adj|), q0, h, j) && j < |adj[q0[h - 1]]|
    requires Counted(adj, s, d0, sp0, P0, q0, h - 1, j) && Unrepeated(adj, P0, q0)
    requires 0 <= q0[h - 1] < |adj| && Relaxed(|adj|, q0[h - 1], adj[q0[h - 1]][j], d0, q0, sp0, P0, d, q, sp, P)
    ensures Unrepeated(adj, P, q)
  {
    var n := |adj|;
    var cur := q0[h - 1];
    var w := adj[cur][j];
    if d0[w] == n + 1 {
      forall i | 0 <= i < |q0|
        ensures q0[i] != w
      {
        assert Lab(d0, n)[q0[i]] != -1;
      }
    }
    if RowsDistinct(adj) {
      forall t | 0 <= t < h - 1
        ensures q0[t] != cur
      {
      }
      forall t | 0 <= t < j
        ensures adj[cur][t] != w
      {
        assert Distinct(adj[cur]);
      }
      assert !Seen(adj, q0, h - 1, j, cur, w);
      if d[w] == d0[cur] + 1 {
        assert cur !in P0[w];
        forall x | 0 <= x < |P|
          ensures Distinct(P[x])
        {
          assert Distinct(P0[x]);
        }
      }
    }
  }

  /** The state inside the scan of the out-list of q[h-1], begun with
      queue `qb` and `total` nodes unreached or queued. */
  ghost predicate Scan(adj: Adjacency, s: int, d: seq<int>, sp: seq<int>, P: seq<seq<int>>, q: seq<int>, h: int, j: int,
                       qb: seq<int>, total: int) {
    1 <= h <= |qb| && qb <= q && Scanning(adj, {}, s, Lab(d, |adj|), q, h, j, |qb|, total) &&
    Marks(d, |adj|) && Counted(adj, s, d, sp, P, q, h - 1, j) && Unrepeated(adj, P, q)
  }

  lemma PrefixTrans(a: seq<int>, b: seq<int>, c: seq<int>)
    requires a <= b && b <= c
    ensures a <= c
  {
    assert c[..|a|] == c[..|b|][..|a|];
  }

  /** One pass of the inner loop of the forward phase (the body of the
      neighbour loop of `betweennessCentrality`). */
  method ForwardOne(adj: Adjacency, s: int, d0: seq<int>, q0: seq<int>, h: int, j: int, ghost qb: seq<int>, ghost total: int,
                    sp0: seq<int>, P0: seq<seq<int>>)
      returns (d: seq<int>, q: seq<int>, sp: seq<int>, P: seq<seq<int>>)
    requires Scan(adj, s, d0, sp0, P0, q0, h, j, qb, total) && j < |adj[q0[h - 1]]|
    ensures Scan(adj, s, d, sp, P, q, h, j + 1, qb, total)
  {
    var n := |adj|;
    ScanNeighbour(adj, {}, s, Lab(d0, n), q0, h, j, |qb|, total);
    var v := q0[h - 1];
    var w := adj[v][j];
    SeenFromLabelled(adj, s, Lab(d0, n), q0, h - 1, j);
    d, q, sp, P := d0, q0, sp0, P0;
    if d[w] == n + 1 {
      d, q := d[w := d[v] + 1], q + [w];
    }
    if d[w] == d[v] + 1 {
      sp, P := sp[w := sp[w] + sp[v]], P[w := P[w] + [v]];
    }
    assert Relaxed(n, v, w, d0, q0, sp0, P0, d, q, sp, P);
    RelaxScan(adj, s, d0, q0, h, j, |qb|, total, sp0, P0, d, q, sp, P);
    RelaxCount(adj, s, d0, q0, h, j, sp0, P0, d, q, sp, P);
    RelaxDistinct(adj, s, d0, q0, h, j, sp0, P0, d, q, sp, P);
    PrefixTrans(qb, q0, q);
  }

  /** The inner loop of the forward phase: scan the out-list of the node
      just popped. */
  method ScanForward(adj: Adjacency, s: int, d0: seq<int>, q0: seq<int>, h: int, sp0: seq<int>, P0: seq<seq<int>>)
      returns (d: seq<int>, q: seq<int>, sp: seq<int>, P: seq<seq<int>>)
    requires Inner(adj, {}, s, Lab(d0, |adj|), q0, h, 0)
    requires Marks(d0, |adj|) && Counted(adj, s, d0, sp0, P0, q0, h - 1, 0) && Unrepeated(adj, P0, q0)
    ensures Outer(adj, {}, s, Lab(d, |adj|), q, h) && Marks(d, |adj|) && Unrepeated(adj, P, q)
    ensures Counted(adj, s, d, sp, P, q, h - 1, |adj[q[h - 1]]|)
    ensures q0 <= q && Count(Lab(d, |adj|), -1) + |q| == Count(Lab(d0, |adj|), -1) + |q0|
  {
    d, q, sp, P := d0, q0, sp0, P0;
    ghost var total := Count(Lab(d0, |adj|), -1) + |q0|;
    ScanEnter(adj, s, d0, sp0, P0, q0, h);
    var j := 0;
    while j < |adj[q[h - 1]]|
      invariant Scan(adj, s, d, sp, P, q, h, j, q0, total)
      decreases |adj[q[h - 1]]| - j
    {
      d, q, sp, P := ForwardOne(adj, s, d, q, h, j, q0, total, sp, P);
      j := j + 1;
    }
    ScanExit(adj, s, d, sp, P, q, h, q0, total);
  }

  lemma ScanEnter(adj: Adjacency, s: int, d: seq<int>, sp: seq<int>, P: seq<seq<int>>, q: seq<int>, h: int)
    requires Inner(adj, {}, s, Lab(d, |adj|), q, h, 0)
    requires Marks(d, |adj|) && Counted(adj, s, d, sp, P, q, h - 1, 0) && Unrepeated(adj, P, q)
    ensures Scan(adj, s, d, sp, P, q, h, 0, q, Count(Lab(d, |adj|), -1) + |q|)
  {
  }

  lemma ScanExit(adj: Adjacency, s: int, d: seq<int>, sp: seq<int>, P: seq<seq<int>>, q: seq<int>, h: int,
                 qb: seq<int>, total: int)
    requires 1 <= h <= |q| && 0 <= q[h - 1] < |adj|
    requires Scan(adj, s, d, sp, P, q, h, |adj[q[h - 1]]|, qb, total)
    ensures Outer(adj, {}, s, Lab(d, |adj|), q, h) && Marks(d, |adj|)
    ensures Counted(adj, s, d, sp, P, q, h - 1, |adj[q[h - 1]]|)
    ensures qb <= q && Count(Lab(d, |adj|), -1) + |q| == total && Unrepeated(adj, P, q)
  {
    ScanDone(adj, {}, s, Lab(d, |adj|), q, h, |qb|, total);
  }

  /** Finishing the scan of q[f] is starting that of q[f+1]. */
  lemma CountedNext(adj: Adjacency, s: int, d: seq<int>, sp: seq<int>, P: seq<seq<int>>, q: seq<int>, h: int)
    requires Outer(adj, {}, s, Lab(d, |adj|), q, h) && 1 <= h
    requires Counted(adj, s, d, sp, P, q, h - 1, |adj[q[h - 1]]|)
    ensures Counted(adj, s, d, sp, P, q, h, 0)
  {
    var cur := q[h - 1];
    assert q[..h] == q[..h - 1] + [cur];
    assert adj[cur][..|adj[cur]|] == adj[cur];
    forall w, v
      ensures Seen(adj, q, h, 0, v, w) <==> Seen(adj, q, h - 1, |adj[cur]|, v, w)
    {
    }
    if h < |q| {
      assert Lab(d, |adj|)[cur] <= Lab(d, |adj|)[q[h]];
    }
  }

  /** The state a search starts from. */
  lemma RoundStart(adj: Adjacency, s: int)
    requires WellFormed(adj) && 0 <= s < |adj|
    ensures var n := |adj|;
      Round(adj, s, seq(n, _ => n + 1)[s := 0], seq(n, _ => 0)[s := 1], seq(n, _ => []), [s], 0)
  {
    LabStart(|adj|, s);
    OuterStart(adj, {}, s);
    assert Unrepeated(adj, seq(|adj|, _ => []), [s]);
    CountedStart(adj, s);
  }

  /** The counts a search starts from. */
  lemma CountedStart(adj: Adjacency, s: int)
    requires WellFormed(adj) && 0 <= s < |adj|
    ensures var n := |adj|;
      Counted(adj, s, seq(n, _ => n + 1)[s := 0], seq(n, _ => 0)[s := 1], seq(n, _ => []), [s], 0, 0)
  {
    var n := |adj|;
    var sp := seq(n, _ => 0)[s := 1];
    forall w | 0 <= w < n && w != s
      ensures sp[w] == SumSp([], sp)
    {
    }
  }

  /** The state between two pops of the forward phase. */
  ghost predicate Round(adj: Adjacency, s: int, d: seq<int>, sp: seq<int>, P: seq<seq<int>>, Q: seq<int>, h: int) {
    Outer(adj, {}, s, Lab(d, |adj|), Q, h) && Marks(d, |adj|) && Counted(adj, s, d, sp, P, Q, h, 0) &&
    Unrepeated(adj, P, Q)
  }

  /** One round of the outer loop of the forward phase: pop the next node
      and scan its out-list. */
  method ForwardRound(adj: Adjacency, s: int, d0: seq<int>, Q0: seq<int>, h: int, sp0: seq<int>, P0: seq<seq<int>>)
      returns (d: seq<int>, Q: seq<int>, sp: seq<int>, P: seq<seq<int>>)
    requires Round(adj, s, d0, sp0, P0, Q0, h) && h < |Q0|
    ensures Round(adj, s, d, sp, P, Q, h + 1) && Q0 <= Q
    ensures Count(Lab(d, |adj|), -1) + |Q| == Count(Lab(d0, |adj|), -1) + |Q0|
  {
    OuterPop(adj, {}, s, Lab(d0, |adj|), Q0, h);
    d, Q, sp, P := ScanForward(adj, s, d0, Q0, h + 1, sp0, P0);
    CountedNext(adj, s, d, sp, P, Q, h + 1);
  }

  /** The forward phase of `betweennessCentrality` from source s. Every
      node's label is its distance from s, n+1 where s does not reach it;
      `P[w]` holds exactly the nodes v one step closer to s that have w as a
      neighbour; `sp[s]` is 1 and every other `sp[w]` is the sum of the
      counts of `P[w]`, the recurrence of the number of shortest paths; `S`
      holds each reached node once, in order of nondecreasing distance. */
  method Forward(adj: Adjacency, s: int) returns (S: seq<int>, P: seq<seq<int>>, sp: seq<int>, d: seq<int>)
    requires WellFormed(adj) && 0 <= s < |adj|
    ensures |d| == |adj| && forall w :: 0 <= w < |adj| ==>
      d[w] == if Dist(adj, {}, s, w) == -1 then |adj| + 1 else Dist(adj, {}, s, w)
    ensures |P| == |adj| && forall w, v {:trigger v in P[w]} :: 0 <= w < |adj| ==>
      (v in P[w] <==> 0 <= v < |adj| && w in adj[v] && Dist(adj, {}, s, v) >= 0 &&
                      Dist(adj, {}, s, v) + 1 == Dist(adj, {}, s, w))
    ensures |sp| == |adj| && sp[s] == 1 && forall w :: 0 <= w < |adj| && w != s ==> sp[w] == SumSp(P[w], sp)
    ensures forall v :: 0 <= v < |adj| ==> (v in S <==> Dist(adj, {}, s, v) >= 0)
    ensures forall i, k :: 0 <= i <= k < |S| ==> 0 <= S[i] < |adj| && 0 <= S[k] < |adj| && d[S[i]] <= d[S[k]]
    ensures Distinct(S)
    ensures RowsDistinct(adj) ==> forall w :: 0 <= w < |adj| ==> Distinct(P[w])
    ensures RowsDistinct(adj) ==> forall w :: 0 <= w < |adj| ==> sp[w] == ShortestPaths(adj, s, w)
  {
    var Q;
    S, P, sp, d, Q := Search(adj, s);
    ForwardDone(adj, s, d, sp, P, Q);
    if RowsDistinct(adj) {
      forall w | 0 <= w < |adj|
        ensures sp[w] == ShortestPaths(adj, s, w)
      {
        CountsArePaths(adj, s, P, sp, Dist(adj, {}, s, w), w);
      }
    }
  }

  /** The loops of the forward phase, with the search invariant. */
  method Search(adj: Adjacency, s: int) returns (S: seq<int>, P: seq<seq<int>>, sp: seq<int>, d: seq<int>, Q: seq<int>)
    requires WellFormed(adj) && 0 <= s < |adj|
    ensures Round(adj, s, d, sp, P, Q, |Q|) && S == Q
  {
    var n := |adj|;
    sp := seq(n, _ => 0)[s := 1];
    d := seq(n, _ => n + 1)[s := 0];
    P := seq(n, _ => []);
    Q := [s];
    var h := 0;
    S := [];
    RoundStart(adj, s);
    while h < |Q|
      invariant Round(adj, s, d, sp, P, Q, h)
      invariant S == Q[..h]
      decreases Count(Lab(d, n), -1), |Q| - h
    {
      var v := Q[h];
      ghost var Q0 := Q;
      d, Q, sp, P := ForwardRound(adj, s, d, Q, h, sp, P);
      PrefixPush(S, Q0, Q, h);
      S := S + [v];
      h := h + 1;
    }
    assert Q[..h] == Q;
  }

  lemma PrefixPush(S: seq<int>, Q0: seq<int>, Q: seq<int>, h: int)
    requires 0 <= h < |Q0| && S == Q0[..h] && Q0 <= Q
    ensures S + [Q0[h]] == Q[..h + 1]
  {
    assert Q[..h + 1] == Q0[..h + 1];
  }

  /** A finished search: the labels and lists in terms of distances. */
  lemma ForwardDone(adj: Adjacency, s: int, d: seq<int>, sp: seq<int>, P: seq<seq<int>>, Q: seq<int>)
    requires Round(adj, s, d, sp, P, Q, |Q|)
    ensures |d| == |adj| && |P| == |adj| && |sp| == |adj| && sp[s] == 1
    ensures RowsDistinct(adj) ==> forall w :: 0 <= w < |adj| ==> Distinct(P[w])
    ensures forall w :: 0 <= w < |adj| && w != s ==> sp[w] == SumSp(P[w], sp)
    ensures forall w :: 0 <= w < |adj| ==>
      d[w] == if Dist(adj, {}, s, w) == -1 then |adj| + 1 else Dist(adj, {}, s, w)
    ensures forall w, v {:trigger v in P[w]} :: 0 <= w < |adj| ==>
      (v in P[w] <==> 0 <= v < |adj| && w in adj[v] && Dist(adj, {}, s, v) >= 0 &&
                      Dist(adj, {}, s, v) + 1 == Dist(adj, {}, s, w))
    ensures forall v :: 0 <= v < |adj| ==> (v in Q <==> Dist(adj, {}, s, v) >= 0)
    ensures forall i, k :: 0 <= i <= k < |Q| ==> 0 <= Q[i] < |adj| && 0 <= Q[k] < |adj| && d[Q[i]] <= d[Q[k]]
    ensures Distinct(Q)
  {
    var n := |adj|;
    OuterDone(adj, {}, s, Lab(d, n), Q);
    assert Q[..|Q|] == Q;
    forall w | 0 <= w < n
      ensures d[w] == if Dist(adj, {}, s, w) == -1 then n + 1 else Dist(adj, {}, s, w)
    {
      assert Lab(d, n)[w] == Dist(adj, {}, s, w);
    }
    forall i, k | 0 <= i <= k < |Q|
      ensures 0 <= Q[i] < n && 0 <= Q[k] < n && d[Q[i]] <= d[Q[k]]
    {
      assert Lab(d, n)[Q[i]] <= Lab(d, n)[Q[k]];
    }
  }

  /** The counts of a finished forward phase: at least one shortest path
      into every node s reaches, none into the others. */
  lemma PathCounts(adj: Adjacency, s: int, P: seq<seq<int>>, sp: seq<int>)
    requires WellFormed(adj) && 0 <= s < |adj| && |P| == |adj| && |sp| == |adj|
    requires forall w, v {:trigger v in P[w]} :: 0 <= w < |adj| ==>
      (v in P[w] <==> 0 <= v < |adj| && w in adj[v] && Dist(adj, {}, s, v) >= 0 &&
                      Dist(adj, {}, s, v) + 1 == Dist(adj, {}, s, w))
    requires sp[s] == 1 && forall w :: 0 <= w < |adj| && w != s ==> sp[w] == SumSp(P[w], sp)
    ensures forall w :: 0 <= w < |adj| ==> (sp[w] >= 1 <==> Dist(adj, {}, s, w) >= 0)
    ensures forall w :: 0 <= w < |adj| && Dist(adj, {}, s, w) == -1 ==> sp[w] == 0
  {
    DistAtSource(adj, {}, s);
    forall w | 0 <= w < |adj|
      ensures Dist(adj, {}, s, w) >= -1
      ensures Dist(adj, {}, s, w) == -1 ==> sp[w] == 0
      ensures Dist(adj, {}, s, w) >= 0 ==> sp[w] >= 1
    {
      DistUnreached(adj, {}, s, w);
      if Dist(adj, {}, s, w) == -1 {
        var x := SomeMember(P[w]);
      } else {
        ReachedCounted(adj, s, P, sp, Dist(adj, {}, s, w), w);
      }
    }
  }

  /** Induction on the distance: a node at distance k has a count of at
      least one. */
  lemma {:induction false} ReachedCounted(adj: Adjacency, s: int, P: seq<seq<int>>, sp: seq<int>, k: nat, w: int)
    requires WellFormed(adj) && 0 <= s < |adj| && |P| == |adj| && |sp| == |adj|
    requires forall w, v {:trigger v in P[w]} :: 0 <= w < |adj| ==>
      (v in P[w] <==> 0 <= v < |adj| && w in adj[v] && Dist(adj, {}, s, v) >= 0 &&
                      Dist(adj, {}, s, v) + 1 == Dist(adj, {}, s, w))
    requires sp[s] == 1 && forall w :: 0 <= w < |adj| && w != s ==> sp[w] == SumSp(P[w], sp)
    requires 0 <= w < |adj| && Dist(adj, {}, s, w) == k
    ensures sp[w] >= 1
    decreases k
  {
    DistUnreached(adj, {}, s, w);
    if k == 0 {
      DistZero(adj, {}, s, w);
    } else {
      DistAtSource(adj, {}, s);
      var p := InPred(adj, {}, s, k - 1, w);
      DistWithin(adj, {}, s, p, k - 1);
      DistEdge(adj, {}, s, p, w);
      assert p in P[w];
      forall i | 0 <= i < |P[w]|
        ensures 0 <= P[w][i] < |sp| && sp[P[w][i]] >= 1
      {
        var x := P[w][i];
        assert x in P[w];
        ReachedCounted(adj, s, P, sp, Dist(adj, {}, s, x), x);
      }
      SumSpBelow(P[w], sp);
    }
  }

  /** v is a predecessor of w on a shortest walk from s: w is a neighbour
      of v and one step further from s. */
  ghost predicate IsPred(adj: Adjacency, s: int, v: int, w: int)
    requires WellFormed(adj) && 0 <= s < |adj|
  {
    0 <= v < |adj| && w in adj[v] && Dist(adj, {}, s, v) >= 0 && Dist(adj, {}, s, v) + 1 == Dist(adj, {}, s, w)
  }

  /** The number of shortest walks from s to w: one at s itself, none where
      s does not reach, and elsewhere the sum of the numbers of the
      predecessors of w, since every shortest walk to w is a shortest walk
      to a predecessor followed by one edge. */
  ghost function ShortestPaths(adj: Adjacency, s: int, w: int): nat
    requires WellFormed(adj) && 0 <= s < |adj|
    decreases Dist(adj, {}, s, w) + 1, |adj| + 1
  {
    if w == s then 1
    else if !(0 <= w < |adj|) || Dist(adj, {}, s, w) < 0 then 0
    else PathsBelow(adj, s, w, |adj|)
  }

  /** The sum of ShortestPaths over the predecessors of w below k. */
  ghost function PathsBelow(adj: Adjacency, s: int, w: int, k: int): nat
    requires WellFormed(adj) && 0 <= s < |adj| && 0 <= k <= |adj|
    decreases Dist(adj, {}, s, w) + 1, k
  {
    if k == 0 then 0
    else PathsBelow(adj, s, w, k - 1) + (if IsPred(adj, s, k - 1, w) then ShortestPaths(adj, s, k - 1) else 0)
  }

  /** The sum of sp over the indices below k that the mask selects. */
  ghost function MaskSum(mask: seq<bool>, sp: seq<int>, k: int): int
    requires 0 <= k <= |mask| && |mask| <= |sp|
  {
    if k == 0 then 0 else MaskSum(mask, sp, k - 1) + (if mask[k - 1] then sp[k - 1] else 0)
  }

  lemma {:induction false} MaskSumNone(mask: seq<bool>, sp: seq<int>, k: int)
    requires 0 <= k <= |mask| && |mask| <= |sp| && forall i :: 0 <= i < |mask| ==> !mask[i]
    ensures MaskSum(mask, sp, k) == 0
  {
    if k > 0 {
      MaskSumNone(mask, sp, k - 1);
    }
  }

  /** Clearing one selected index takes its entry out of the sum. */
  lemma {:induction false} MaskSumClear(mask: seq<bool>, sp: seq<int>, x: int, k: int)
    requires 0 <= k <= |mask| && |mask| <= |sp| && 0 <= x < |mask|
    ensures MaskSum(mask, sp, k) == MaskSum(mask[x := false], sp, k) + (if x < k && mask[x] then sp[x] else 0)
  {
    if k > 0 {
      MaskSumClear(mask, sp, x, k - 1);
    }
  }

  /** Summing sp over a list without repeats is summing it over the
      indices the list holds. */
  lemma {:induction false} SumSpMask(P: seq<int>, sp: seq<int>, mask: seq<bool>)
    requires |mask| == |sp| && Distinct(P) && forall i :: 0 <= i < |P| ==> 0 <= P[i] < |sp|
    requires forall v :: 0 <= v < |mask| ==> (mask[v] <==> v in P)
    ensures SumSp(P, sp) == MaskSum(mask, sp, |mask|)
  {
    if P == [] {
      MaskSumNone(mask, sp, |mask|);
    } else {
      var init, x := P[..|P| - 1], P[|P| - 1];
      assert P == init + [x];
      assert x !in init;
      SumSpMask(init, sp, mask[x := false]);
      MaskSumClear(mask, sp, x, |mask|);
    }
  }

  /** The predecessors of w, as a mask over the nodes. */
  ghost function PredMask(adj: Adjacency, s: int, w: int): (mask: seq<bool>)
    requires WellFormed(adj) && 0 <= s < |adj|
    ensures |mask| == |adj| && forall v :: 0 <= v < |adj| ==> mask[v] == IsPred(adj, s, v, w)
  {
    seq(|adj|, v requires 0 <= v < |adj| => IsPred(adj, s, v, w))
  }

  lemma {:induction false} PredSums(adj: Adjacency, s: int, w: int, sp: seq<int>, k: int)
    requires WellFormed(adj) && 0 <= s < |adj| && |sp| == |adj| && 0 <= k <= |adj|
    requires forall v :: 0 <= v < |adj| && IsPred(adj, s, v, w) ==> sp[v] == ShortestPaths(adj, s, v)
    ensures MaskSum(PredMask(adj, s, w), sp, k) == PathsBelow(adj, s, w, k)
  {
    if k > 0 {
      PredSums(adj, s, w, sp, k - 1);
    }
  }

  /** With no parallel edges, the counts of a finished forward phase are the
      numbers of shortest walks from the source. */
  lemma {:induction false} CountsArePaths(adj: Adjacency, s: int, P: seq<seq<int>>, sp: seq<int>, k: int, w: int)
    requires WellFormed(adj) && 0 <= s < |adj| && |P| == |adj| && |sp| == |adj|
    requires forall w, v {:trigger v in P[w]} :: 0 <= w < |adj| ==>
      (v in P[w] <==> 0 <= v < |adj| && w in adj[v] && Dist(adj, {}, s, v) >= 0 &&
                      Dist(adj, {}, s, v) + 1 == Dist(adj, {}, s, w))
    requires sp[s] == 1 && forall w :: 0 <= w < |adj| && w != s ==> sp[w] == SumSp(P[w], sp)
    requires forall w :: 0 <= w < |adj| ==> Distinct(P[w])
    requires 0 <= w < |adj| && Dist(adj, {}, s, w) == k
    ensures sp[w] == ShortestPaths(adj, s, w)
    decreases k + 1
  {
    DistUnreached(adj, {}, s, w);
    DistAtSource(adj, {}, s);
    PathCounts(adj, s, P, sp);
    if w != s && k >= 0 {
      forall v | 0 <= v < |adj| && IsPred(adj, s, v, w)
        ensures sp[v] == ShortestPaths(adj, s, v)
      {
        CountsArePaths(adj, s, P, sp, Dist(adj, {}, s, v), v);
      }
      forall i | 0 <= i < |P[w]|
        ensures 0 <= P[w][i] < |sp|
      {
        assert P[w][i] in P[w];
      }
      SumSpMask(P[w], sp, PredMask(adj, s, w));
      PredSums(adj, s, w, sp, |adj|);
    }
  }
}
