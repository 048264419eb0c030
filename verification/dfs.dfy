/** The first pass of computeSCC (src/Graph.cpp): goVisitSCC, a depth-first
    search along the out-lists written without recursion. The nodes whose
    visit is open form a chain `path` (the chain that `parentOf` links, the
    last one being `current`), `atIt[v]` is the position of the next
    out-neighbour of v to look at, and `F` is the stack of finished nodes.
    The ghost `fin[v]` is the position of v in `F`, or -1 while v is not
    finished: the finishing time of v. */
module PostOrder {
  import opened Seqs
  import opened Paths
  import opened Tables

  ghost predicate Sizes(G: Adjacency, visited: seq<bool>, fin: seq<int>, parentOf: seq<int>, atIt: seq<int>) {
    |visited| == |G| && |fin| == |G| && |parentOf| == |G| && |atIt| == |G|
  }

  /** The open chain: distinct visited nodes, none finished, each reaching every later one. */
  ghost predicate PathOk(G: Adjacency, visited: seq<bool>, fin: seq<int>, path: seq<int>) {
    |visited| == |G| && |fin| == |G| &&
    (forall k :: 0 <= k < |path| ==> 0 <= path[k] < |G| && visited[path[k]] && fin[path[k]] == -1) &&
    (forall k, l :: 0 <= k < l < |path| ==> path[k] != path[l]) &&
    (forall k, l :: 0 <= k <= l < |path| ==> Reaches(G, {}, path[k], path[l]))
  }

  /** `parentOf` links the chain and holds -1 everywhere else. */
  ghost predicate Parents(parentOf: seq<int>, path: seq<int>) {
    (|path| > 0 ==> 0 <= path[0] < |parentOf| && parentOf[path[0]] == -1) &&
    (forall k :: 1 <= k < |path| ==> 0 <= path[k] < |parentOf| && parentOf[path[k]] == path[k - 1]) &&
    (forall v :: 0 <= v < |parentOf| && v !in path ==> parentOf[v] == -1)
  }

  /** `atIt` is 0 off the chain; on it, the out-neighbours before the cursor are visited. */
  ghost predicate Cursors(G: Adjacency, visited: seq<bool>, atIt: seq<int>, path: seq<int>) {
    |atIt| == |G| && |visited| == |G| &&
    (forall v :: 0 <= v < |G| && v !in path ==> atIt[v] == 0) &&
    (forall k :: 0 <= k < |path| ==> 0 <= path[k] < |G| && 0 <= atIt[path[k]] <= |G[path[k]]|) &&
    (forall k, j :: 0 <= k < |path| && 0 <= path[k] < |G| && 0 <= j < atIt[path[k]] && j < |G[path[k]]| ==>
      0 <= G[path[k]][j] < |G| && visited[G[path[k]][j]])
  }

  /** `fin` and `F` are inverse to each other; a node is visited when it is
      finished or open; every node is finished or counted as unfinished. */
  ghost predicate Finished(G: Adjacency, visited: seq<bool>, F: seq<int>, fin: seq<int>, path: seq<int>) {
    |fin| == |G| && |visited| == |G| &&
    (forall t :: 0 <= t < |F| ==> 0 <= F[t] < |G| && fin[F[t]] == t) &&
    (forall v :: 0 <= v < |G| ==> -1 <= fin[v] < |F| && (fin[v] >= 0 ==> F[fin[v]] == v)) &&
    (forall v :: 0 <= v < |G| ==> (visited[v] <==> fin[v] >= 0 || v in path)) &&
    |F| + Count(fin, -1) == |G|
  }

  /** No edge leads from a finished node to a node not yet visited. */
  ghost predicate NoBlackWhite(G: Adjacency, visited: seq<bool>, fin: seq<int>) {
    |fin| == |G| && |visited| == |G| &&
    forall b, y {:trigger y in G[b]} :: 0 <= b < |G| && fin[b] >= 0 && y in G[b] ==> 0 <= y < |G| && visited[y]
  }

  /** The finishing order: when an edge b->y leaves a node finished at or
      before time t for a node not finished by then, y was open at time t,
      so y reaches the node F[t] finished at that time. */
  ghost predicate FinishOrder(G: Adjacency, F: seq<int>, fin: seq<int>) {
    |fin| == |G| &&
    forall b, y, t {:trigger y in G[b], F[t]} ::
      0 <= b < |G| && y in G[b] && 0 <= y < |G| && 0 <= fin[b] <= t < |F| && (fin[y] < 0 || fin[y] > t) ==>
        Reaches(G, {}, y, F[t])
  }

  /** The state of the search between two steps of goVisitSCC. */
  ghost predicate DfsInv(G: Adjacency, visited: seq<bool>, F: seq<int>, fin: seq<int>, parentOf: seq<int>,
                         atIt: seq<int>, path: seq<int>) {
    WellFormed(G) && Sizes(G, visited, fin, parentOf, atIt) && PathOk(G, visited, fin, path) &&
    Parents(parentOf, path) && Cursors(G, visited, atIt, path) && Finished(G, visited, F, fin, path) &&
    NoBlackWhite(G, visited, fin) && FinishOrder(G, F, fin)
  }

  /** What the first pass leaves: every node finished exactly once, in an order
      with the finishing-order property. */
  ghost predicate DfsDone(G: Adjacency, F: seq<int>, fin: seq<int>) {
    |fin| == |G| && |F| <= |G| &&
    (forall v :: 0 <= v < |G| ==> 0 <= fin[v] < |F| && F[fin[v]] == v) &&
    (forall t :: 0 <= t < |F| ==> 0 <= F[t] < |G| && fin[F[t]] == t) &&
    FinishOrder(G, F, fin)
  }

  lemma Initial(G: Adjacency)
    requires WellFormed(G)
    ensures DfsInv(G, seq(|G|, v => false), [], seq(|G|, v => -1), seq(|G|, v => -1), seq(|G|, v => 0), [])
  {
    CountAll(seq(|G|, v => -1), -1);
  }

  /** Between two calls of goVisitSCC an unvisited node opens a new search. */
  lemma Start(G: Adjacency, visited: seq<bool>, F: seq<int>, fin: seq<int>, parentOf: seq<int>, atIt: seq<int>,
              a: int)
    requires DfsInv(G, visited, F, fin, parentOf, atIt, []) && 0 <= a < |G| && !visited[a]
    ensures DfsInv(G, visited[a := true], F, fin, parentOf, atIt, [a])
  {
    var visited' := visited[a := true];
    assert Reaches(G, {}, a, a) by {
      assert In(G, {}, a, 0, a);
    }
    assert NoBlackWhite(G, visited', fin);
    assert Finished(G, visited', F, fin, [a]);
  }

  /** The out-neighbour under the cursor is already visited: move the cursor. */
  lemma Skip(G: Adjacency, visited: seq<bool>, F: seq<int>, fin: seq<int>, parentOf: seq<int>, atIt: seq<int>,
             path: seq<int>, cur: int)
    requires DfsInv(G, visited, F, fin, parentOf, atIt, path) && |path| > 0 && cur == path[|path| - 1]
    requires 0 <= cur < |G| && atIt[cur] < |G[cur]| && 0 <= G[cur][atIt[cur]] < |G| && visited[G[cur][atIt[cur]]]
    ensures DfsInv(G, visited, F, fin, parentOf, atIt[cur := atIt[cur] + 1], path)
  {
    var atIt' := atIt[cur := atIt[cur] + 1];
    forall k, j | 0 <= k < |path| && 0 <= path[k] < |G| && 0 <= j < atIt'[path[k]] && j < |G[path[k]]|
      ensures 0 <= G[path[k]][j] < |G| && visited[G[path[k]][j]]
    {
      assert G[path[k]][j] in G[path[k]];
    }
  }

  /** The out-neighbour y under the cursor is not visited: open it below cur. */
  lemma Descend(G: Adjacency, visited: seq<bool>, F: seq<int>, fin: seq<int>, parentOf: seq<int>, atIt: seq<int>,
                path: seq<int>, cur: int, y: int)
    requires DfsInv(G, visited, F, fin, parentOf, atIt, path) && |path| > 0 && cur == path[|path| - 1]
    requires 0 <= cur < |G| && atIt[cur] < |G[cur]| && y == G[cur][atIt[cur]] && 0 <= y < |G| && !visited[y]
    ensures DfsInv(G, visited[y := true], F, fin, parentOf[y := cur], atIt[cur := atIt[cur] + 1], path + [y])
    ensures Count(visited[y := true], false) < Count(visited, false)
  {
    var visited' := visited[y := true];
    CountUpdate(visited, y, true, false);
    assert y !in path && fin[y] == -1;
    assert PathOk(G, visited', fin, path + [y]) by {
      DescendPath(G, visited, fin, path, cur, y);
    }
    assert Parents(parentOf[y := cur], path + [y]) by {
      DescendParents(parentOf, path, cur, y);
    }
    assert Cursors(G, visited', atIt[cur := atIt[cur] + 1], path + [y]) by {
      DescendCursors(G, visited, atIt, path, cur, y);
    }
    assert Finished(G, visited', F, fin, path + [y]) by {
      DescendFinished(G, visited, F, fin, path, y);
    }
    assert NoBlackWhite(G, visited', fin);
  }

  lemma DescendPath(G: Adjacency, visited: seq<bool>, fin: seq<int>, path: seq<int>, cur: int, y: int)
    requires WellFormed(G) && PathOk(G, visited, fin, path) && |path| > 0 && cur == path[|path| - 1]
    requires 0 <= cur < |G| && y in G[cur] && 0 <= y < |G| && fin[y] == -1 && y !in path
    ensures PathOk(G, visited[y := true], fin, path + [y])
  {
    var path' := path + [y];
    forall k, l | 0 <= k <= l < |path'|
      ensures Reaches(G, {}, path'[k], path'[l])
    {
      if l < |path| {
        assert path'[k] == path[k] && path'[l] == path[l];
      } else if k < |path| {
        assert path'[k] == path[k];
        var s: nat :| In(G, {}, path[k], s, cur);
        InStep(G, {}, path[k], s, cur, y);
      } else {
        assert In(G, {}, y, 0, y);
      }
    }
  }

  lemma DescendParents(parentOf: seq<int>, path: seq<int>, cur: int, y: int)
    requires Parents(parentOf, path) && |path| > 0 && cur == path[|path| - 1] && 0 <= y < |parentOf| && y !in path
    ensures Parents(parentOf[y := cur], path + [y])
  {
    var path' := path + [y];
    forall k | 1 <= k < |path'|
      ensures 0 <= path'[k] < |parentOf| && parentOf[y := cur][path'[k]] == path'[k - 1]
    {
      if k < |path| {
        assert path'[k] == path[k] && path'[k - 1] == path[k - 1];
      }
    }
    forall v | 0 <= v < |parentOf| && v !in path'
      ensures parentOf[y := cur][v] == -1
    {
      assert v !in path;
    }
  }

  lemma DescendCursors(G: Adjacency, visited: seq<bool>, atIt: seq<int>, path: seq<int>, cur: int, y: int)
    requires Cursors(G, visited, atIt, path) && |path| > 0 && cur == path[|path| - 1]
    requires 0 <= cur < |G| && atIt[cur] < |G[cur]| && y == G[cur][atIt[cur]] && 0 <= y < |G| && y !in path
    ensures Cursors(G, visited[y := true], atIt[cur := atIt[cur] + 1], path + [y])
  {
    var visited' := visited[y := true];
    var atIt' := atIt[cur := atIt[cur] + 1];
    var path' := path + [y];
    forall v | 0 <= v < |G| && v !in path'
      ensures atIt'[v] == 0
    {
      assert v !in path;
    }
    forall k | 0 <= k < |path'|
      ensures 0 <= path'[k] < |G| && 0 <= atIt'[path'[k]] <= |G[path'[k]]|
    {
      if k < |path| {
        assert path'[k] == path[k];
      }
    }
    forall k, j | 0 <= k < |path'| && 0 <= path'[k] < |G| && 0 <= j < atIt'[path'[k]] && j < |G[path'[k]]|
      ensures 0 <= G[path'[k]][j] < |G| && visited'[G[path'[k]][j]]
    {
      if k < |path| {
        assert path'[k] == path[k];
      }
    }
  }

  lemma DescendFinished(G: Adjacency, visited: seq<bool>, F: seq<int>, fin: seq<int>, path: seq<int>, y: int)
    requires Finished(G, visited, F, fin, path) && 0 <= y < |G|
    ensures Finished(G, visited[y := true], F, fin, path + [y])
  {
  }

  /** Every out-neighbour of cur has been looked at: cur finishes at time |F|. */
  lemma Finish(G: Adjacency, visited: seq<bool>, F: seq<int>, fin: seq<int>, parentOf: seq<int>, atIt: seq<int>,
               path: seq<int>, cur: int)
    requires DfsInv(G, visited, F, fin, parentOf, atIt, path) && |path| > 0 && cur == path[|path| - 1]
    requires 0 <= cur < |G| && atIt[cur] == |G[cur]|
    ensures DfsInv(G, visited, F + [cur], fin[cur := |F|], parentOf[cur := -1], atIt[cur := 0], path[..|path| - 1])
    ensures parentOf[cur] == if |path| == 1 then -1 else path[|path| - 2]
    ensures Count(fin[cur := |F|], -1) < Count(fin, -1)
  {
    var path' := path[..|path| - 1];
    CountUpdate(fin, cur, |F|, -1);
    assert cur !in path' by {
      FinishLast(path);
    }
    assert PathOk(G, visited, fin[cur := |F|], path') by {
      FinishPath(G, visited, fin, path, |F|);
    }
    assert Parents(parentOf[cur := -1], path') by {
      FinishParents(parentOf, path);
    }
    assert Cursors(G, visited, atIt[cur := 0], path') by {
      FinishCursors(G, visited, atIt, path);
    }
    assert Finished(G, visited, F + [cur], fin[cur := |F|], path') by {
      FinishFinished(G, visited, F, fin, path);
    }
    assert NoBlackWhite(G, visited, fin[cur := |F|]) by {
      FinishBlack(G, visited, fin, path, atIt, |F|);
    }
    assert FinishOrder(G, F + [cur], fin[cur := |F|]) by {
      FinishBlack(G, visited, fin, path, atIt, |F|);
      FinishKeepsOrder(G, visited, F, fin, path, cur);
    }
  }

  lemma FinishLast(path: seq<int>)
    requires |path| > 0 && forall k, l :: 0 <= k < l < |path| ==> path[k] != path[l]
    ensures path[|path| - 1] !in path[..|path| - 1]
  {
  }

  lemma FinishPath(G: Adjacency, visited: seq<bool>, fin: seq<int>, path: seq<int>, t: int)
    requires PathOk(G, visited, fin, path) && |path| > 0
    ensures PathOk(G, visited, fin[path[|path| - 1] := t], path[..|path| - 1])
  {
    var cur, path' := path[|path| - 1], path[..|path| - 1];
    forall k | 0 <= k < |path'|
      ensures 0 <= path'[k] < |G| && visited[path'[k]] && fin[cur := t][path'[k]] == -1
    {
      assert path'[k] == path[k];
    }
    forall k, l | 0 <= k <= l < |path'|
      ensures Reaches(G, {}, path'[k], path'[l])
    {
      assert path'[k] == path[k] && path'[l] == path[l];
    }
  }

  lemma FinishParents(parentOf: seq<int>, path: seq<int>)
    requires Parents(parentOf, path) && |path| > 0
    requires forall k, l :: 0 <= k < l < |path| ==> path[k] != path[l]
    ensures Parents(parentOf[path[|path| - 1] := -1], path[..|path| - 1])
  {
    var cur, path' := path[|path| - 1], path[..|path| - 1];
    forall v | 0 <= v < |parentOf| && v !in path'
      ensures parentOf[cur := -1][v] == -1
    {
      if v != cur {
        assert v !in path;
      }
    }
  }

  lemma FinishCursors(G: Adjacency, visited: seq<bool>, atIt: seq<int>, path: seq<int>)
    requires Cursors(G, visited, atIt, path) && |path| > 0
    requires forall k, l :: 0 <= k < l < |path| ==> path[k] != path[l]
    ensures Cursors(G, visited, atIt[path[|path| - 1] := 0], path[..|path| - 1])
  {
    var cur, path' := path[|path| - 1], path[..|path| - 1];
    var atIt' := atIt[cur := 0];
    forall v | 0 <= v < |G| && v !in path'
      ensures atIt'[v] == 0
    {
      if v != cur {
        assert v !in path;
      }
    }
    forall k | 0 <= k < |path'|
      ensures 0 <= path'[k] < |G| && 0 <= atIt'[path'[k]] <= |G[path'[k]]|
    {
      assert path'[k] == path[k];
    }
    forall k, j | 0 <= k < |path'| && 0 <= path'[k] < |G| && 0 <= j < atIt'[path'[k]] && j < |G[path'[k]]|
      ensures 0 <= G[path'[k]][j] < |G| && visited[G[path'[k]][j]]
    {
      assert path'[k] == path[k];
    }
  }

  lemma FinishFinished(G: Adjacency, visited: seq<bool>, F: seq<int>, fin: seq<int>, path: seq<int>)
    requires Finished(G, visited, F, fin, path) && |path| > 0
    requires forall k :: 0 <= k < |path| ==> 0 <= path[k] < |G| && fin[path[k]] == -1
    ensures Finished(G, visited, F + [path[|path| - 1]], fin[path[|path| - 1] := |F|], path[..|path| - 1])
  {
    var cur, path' := path[|path| - 1], path[..|path| - 1];
    var F', fin' := F + [cur], fin[cur := |F|];
    CountUpdate(fin, cur, |F|, -1);
    forall t | 0 <= t < |F'|
      ensures 0 <= F'[t] < |G| && fin'[F'[t]] == t
    {
      if t < |F| {
        assert F'[t] == F[t] && F[t] != cur;
      }
    }
    forall v | 0 <= v < |G|
      ensures visited[v] <==> fin'[v] >= 0 || v in path'
    {
      if v != cur && v in path {
        var k :| 0 <= k < |path| && path[k] == v;
        assert path'[k] == v;
      }
    }
  }

  lemma FinishBlack(G: Adjacency, visited: seq<bool>, fin: seq<int>, path: seq<int>, atIt: seq<int>, t: int)
    requires WellFormed(G) && Cursors(G, visited, atIt, path) && NoBlackWhite(G, visited, fin) && |path| > 0
    requires atIt[path[|path| - 1]] == |G[path[|path| - 1]]|
    ensures forall y :: y in G[path[|path| - 1]] ==> 0 <= y < |G| && visited[y]
    ensures NoBlackWhite(G, visited, fin[path[|path| - 1] := t])
  {
    var cur := path[|path| - 1];
    forall y | y in G[cur]
      ensures 0 <= y < |G| && visited[y]
    {
      var j :| 0 <= j < |G[cur]| && G[cur][j] == y;
    }
  }

  /** The finishing-order property for the new time |F|: an unfinished
      neighbour of a finished node is open, so it reaches cur along the chain. */
  lemma FinishKeepsOrder(G: Adjacency, visited: seq<bool>, F: seq<int>, fin: seq<int>, path: seq<int>, cur: int)
    requires WellFormed(G) && PathOk(G, visited, fin, path) && Finished(G, visited, F, fin, path)
    requires NoBlackWhite(G, visited, fin) && FinishOrder(G, F, fin)
    requires |path| > 0 && cur == path[|path| - 1]
    requires forall y :: y in G[cur] ==> 0 <= y < |G| && visited[y]
    ensures FinishOrder(G, F + [cur], fin[cur := |F|])
  {
    var F', fin' := F + [cur], fin[cur := |F|];
    forall b, y, t | 0 <= b < |G| && y in G[b] && 0 <= y < |G| && 0 <= fin'[b] <= t < |F'| && (fin'[y] < 0 || fin'[y] > t)
      ensures Reaches(G, {}, y, F'[t])
    {
      if t < |F| {
        assert F'[t] == F[t];
        assert b != cur;
      } else {
        assert visited[y] && fin[y] < 0;
        var k :| 0 <= k < |path| && path[k] == y;
      }
    }
  }

  /** `current` is the last node of the chain, or -1 when the chain is empty. */
  ghost predicate Top(path: seq<int>, current: int) {
    if path == [] then current == -1 else current == path[|path| - 1]
  }

  /** The out-neighbours of `current` still to look at. */
  ghost function Rest(G: Adjacency, atIt: seq<int>, current: int): int {
    if 0 <= current < |G| && current < |atIt| then |G[current]| - atIt[current] else 0
  }

  /** One step either visits a node, finishes one, or moves the cursor of `current`. */
  ghost predicate Progress(G: Adjacency, visited: seq<bool>, fin: seq<int>, atIt: seq<int>, current: int,
                           visited': seq<bool>, fin': seq<int>, atIt': seq<int>, current': int) {
    Count(visited', false) < Count(visited, false) ||
    (Count(visited', false) == Count(visited, false) && Count(fin', -1) < Count(fin, -1)) ||
    (Count(visited', false) == Count(visited, false) && Count(fin', -1) == Count(fin, -1) &&
     current' == current && 0 <= Rest(G, atIt', current') < Rest(G, atIt, current))
  }

  ghost predicate Grows(visited: seq<bool>, visited': seq<bool>) {
    |visited'| == |visited| && forall v :: 0 <= v < |visited| && visited[v] ==> visited'[v]
  }

  /** goVisitSCC: the search from a, already marked visited, runs until its
      chain is empty; every node it finishes is pushed on F. */
  method Visit(E: seq<seq<int>>, ghost G: Adjacency, a: int, visited: seq<bool>, F: seq<int>, ghost fin: seq<int>,
               parentOf: seq<int>, atIt: seq<int>)
    returns (visited': seq<bool>, F': seq<int>, ghost fin': seq<int>, parentOf': seq<int>, atIt': seq<int>)
    requires |G| <= |E| && G == E[..|G|]
    requires DfsInv(G, visited, F, fin, parentOf, atIt, [a])
    ensures DfsInv(G, visited', F', fin', parentOf', atIt', [])
    ensures Grows(visited, visited')
  {
    visited', F', fin', parentOf', atIt' := visited, F, fin, parentOf, atIt;
    ghost var path := [a];
    var current := a;
    while current != -1
      invariant DfsInv(G, visited', F', fin', parentOf', atIt', path) && Top(path, current)
      invariant Grows(visited, visited')
      decreases Count(visited', false), Count(fin', -1), Rest(G, atIt', current)
    {
      ghost var before := visited';
      visited', F', fin', parentOf', atIt', path, current := Step(E, G, visited', F', fin', parentOf', atIt', path, current);
      assert Grows(before, visited');
    }
  }

  /** One pass of the loop of goVisitSCC. */
  method Step(E: seq<seq<int>>, ghost G: Adjacency, visited: seq<bool>, F: seq<int>, ghost fin: seq<int>,
              parentOf: seq<int>, atIt: seq<int>, ghost path: seq<int>, current: int)
    returns (visited': seq<bool>, F': seq<int>, ghost fin': seq<int>, parentOf': seq<int>, atIt': seq<int>,
             ghost path': seq<int>, current': int)
    requires |G| <= |E| && G == E[..|G|]
    requires DfsInv(G, visited, F, fin, parentOf, atIt, path) && path != [] && Top(path, current)
    ensures DfsInv(G, visited', F', fin', parentOf', atIt', path') && Top(path', current')
    ensures Grows(visited, visited')
    ensures Progress(G, visited, fin, atIt, current, visited', fin', atIt', current')
  {
    visited', F', fin', parentOf', atIt', path' := visited, F, fin, parentOf, atIt, path;
    assert E[current] == G[current];
    if atIt[current] == |E[current]| {
      Finish(G, visited, F, fin, parentOf, atIt, path, current);
      fin' := fin[current := |F|];
      F' := F + [current];
      atIt' := atIt[current := 0];
      current' := parentOf[current];
      parentOf' := parentOf[current := -1];
      path' := path[..|path| - 1];
    } else {
      var y := E[current][atIt[current]];
      assert y in G[current];
      if !visited[y] {
        Descend(G, visited, F, fin, parentOf, atIt, path, current, y);
        visited' := visited[y := true];
        parentOf' := parentOf[y := current];
        atIt' := atIt[current := atIt[current] + 1];
        current' := y;
        path' := path + [y];
      } else {
        Skip(G, visited, F, fin, parentOf, atIt, path, current);
        atIt' := atIt[current := atIt[current] + 1];
        current' := current;
      }
    }
  }

  /** Every node has an out-neighbour or is the out-neighbour of some node. */
  ghost predicate Touched(G: Adjacency) {
    forall j :: 0 <= j < |G| ==> G[j] != [] || exists p :: 0 <= p < |G| && j in G[p]
  }

  /** The directed tables of a graph with n nodes: out- and in-lists agree
      and every node 0 .. n-1 has an edge. */
  ghost predicate DirectedTables(E: seq<seq<int>>, rE: seq<seq<int>>, n: int) {
    0 <= n <= |E| && DenseTables(E, rE, n) && Covers(E, rE)
  }

  lemma TouchedTables(E: seq<seq<int>>, rE: seq<seq<int>>, n: int)
    requires DirectedTables(E, rE, n)
    ensures WellFormed(E[..n]) && Touched(E[..n])
  {
    var G := E[..n];
    forall j | 0 <= j < n && G[j] == []
      ensures exists p :: 0 <= p < n && j in G[p]
    {
      var p := rE[j][0];
      assert p in rE[j];
      assert j in G[p];
    }
  }

  /** Once every node with an out-neighbour is visited and no search is
      open, every node is finished. */
  lemma AllFinished(G: Adjacency, visited: seq<bool>, F: seq<int>, fin: seq<int>, parentOf: seq<int>, atIt: seq<int>)
    requires DfsInv(G, visited, F, fin, parentOf, atIt, []) && Touched(G)
    requires forall j :: 0 <= j < |G| && G[j] != [] ==> visited[j]
    ensures DfsDone(G, F, fin)
  {
    forall j | 0 <= j < |G|
      ensures 0 <= fin[j] < |F| && F[fin[j]] == j
    {
      if G[j] == [] {
        var p :| 0 <= p < |G| && j in G[p];
        assert visited[p];
      }
    }
  }

  /** The first loop of computeSCC: a search from every node not yet visited
      whose out-list is not empty. */
  method VisitAll(E: seq<seq<int>>, rE: seq<seq<int>>, n: int) returns (F: seq<int>, ghost fin: seq<int>)
    requires DirectedTables(E, rE, n)
    ensures DfsDone(E[..n], F, fin)
  {
    ghost var G := E[..n];
    TouchedTables(E, rE, n);
    var visited := seq(n, v => false);
    var atIt := seq(n, v => 0);
    var parentOf := seq(n, v => -1);
    F, fin := [], seq(n, v => -1);
    Initial(G);
    for i := 0 to n
      invariant DfsInv(G, visited, F, fin, parentOf, atIt, [])
      invariant forall j :: 0 <= j < i && G[j] != [] ==> visited[j]
    {
      assert E[i] == G[i];
      if !visited[i] && |E[i]| > 0 {
        Start(G, visited, F, fin, parentOf, atIt, i);
        visited := visited[i := true];
        visited, F, fin, parentOf, atIt := Visit(E, G, i, visited, F, fin, parentOf, atIt);
      }
    }
    AllFinished(G, visited, F, fin, parentOf, atIt);
  }
}
