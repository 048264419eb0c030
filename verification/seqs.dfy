/** Small facts about integer sequences used by the graph engines: counting,
    summing, maxima and the sort-and-deduplicate step applied to adjacency
    lists. */
module Seqs {

  /** Strictly increasing: sorted and free of duplicates. */
  predicate Increasing(s: seq<int>) {
    forall i, j :: 0 <= i < j < |s| ==> s[i] < s[j]
  }

  /** Number of positions of `s` holding `x`. */
  function Count<T(==)>(s: seq<T>, x: T): (r: nat)
    ensures r <= |s|
  {
    if s == [] then 0 else Count(s[..|s| - 1], x) + (if s[|s| - 1] == x then 1 else 0)
  }

  lemma {:induction false} CountUpdate<T>(s: seq<T>, i: nat, y: T, x: T)
    requires i < |s|
    ensures Count(s[i := y], x) == Count(s, x) - (if s[i] == x then 1 else 0) + (if y == x then 1 else 0)
  {
    var t := s[i := y];
    if i < |s| - 1 {
      assert t[..|t| - 1] == s[..|s| - 1][i := y];
      CountUpdate(s[..|s| - 1], i, y, x);
    } else {
      assert t[..|t| - 1] == s[..|s| - 1];
    }
  }

  /** Count is the number of positions holding x. */
  lemma {:induction false} CountCard(s: seq<int>, x: int)
    ensures Count(s, x) == |set i | 0 <= i < |s| && s[i] == x|
  {
    if s != [] {
      var t := s[..|s| - 1];
      CountCard(t, x);
      var A := set i | 0 <= i < |t| && t[i] == x;
      var B := set i | 0 <= i < |s| && s[i] == x;
      if s[|s| - 1] == x {
        assert B == A + {|s| - 1};
      } else {
        assert B == A;
      }
    }
  }

  lemma {:induction false} CountAppend<T>(s: seq<T>, y: T, x: T)
    ensures Count(s + [y], x) == Count(s, x) + (if y == x then 1 else 0)
  {
    assert (s + [y])[..|s + [y]| - 1] == s;
  }

  lemma {:induction false} CountPositive<T>(s: seq<T>, i: nat)
    requires i < |s|
    ensures Count(s, s[i]) >= 1
  {
    if i < |s| - 1 {
      CountPositive(s[..|s| - 1], i);
    }
  }

  lemma {:induction false} CountZero<T>(s: seq<T>, x: T)
    requires forall i :: 0 <= i < |s| ==> s[i] != x
    ensures Count(s, x) == 0
  {
    if s != [] {
      CountZero(s[..|s| - 1], x);
    }
  }

  lemma {:induction false} CountAll<T>(s: seq<T>, x: T)
    requires forall i :: 0 <= i < |s| ==> s[i] == x
    ensures Count(s, x) == |s|
  {
    if s != [] {
      CountAll(s[..|s| - 1], x);
    }
  }

  /** A member of `s`, when it has one. */
  lemma SomeMember(s: seq<int>) returns (y: int)
    ensures s != [] ==> y in s
  {
    y := if s != [] then s[0] else 0;
  }

  /** A duplicate-free sequence whose only member is x is [x]. */
  lemma Singleton(s: seq<int>, x: int)
    requires x in s && forall y :: y in s ==> y == x
    requires forall i, j :: 0 <= i < j < |s| ==> s[i] != s[j]
    ensures s == [x]
  {
    var a, b := s[0], s[|s| - 1];
    assert a in s && b in s;
  }

  /** Sum of the entries of `s` that are positive. */
  function SumPos(s: seq<int>): (r: int)
    ensures r >= 0
  {
    if s == [] then 0 else SumPos(s[..|s| - 1]) + (if s[|s| - 1] > 0 then s[|s| - 1] else 0)
  }

  lemma {:induction false} SumPosUpdate(s: seq<int>, i: nat, y: int)
    requires i < |s|
    ensures SumPos(s[i := y]) == SumPos(s) - (if s[i] > 0 then s[i] else 0) + (if y > 0 then y else 0)
  {
    var t := s[i := y];
    if i < |s| - 1 {
      assert t[..|t| - 1] == s[..|s| - 1][i := y];
      SumPosUpdate(s[..|s| - 1], i, y);
    } else {
      assert t[..|t| - 1] == s[..|s| - 1];
    }
  }

  lemma {:induction false} SumPosNonPositive(s: seq<int>)
    requires forall i :: 0 <= i < |s| ==> s[i] <= 0
    ensures SumPos(s) == 0
  {
    if s != [] {
      SumPosNonPositive(s[..|s| - 1]);
    }
  }

  /** Total length of a sequence of lists. */
  function SumLens(s: seq<seq<int>>): (r: nat)
  {
    if s == [] then 0 else SumLens(s[..|s| - 1]) + |s[|s| - 1]|
  }

  lemma {:induction false} SumLensUpdate(s: seq<seq<int>>, i: nat, y: seq<int>)
    requires i < |s|
    ensures SumLens(s[i := y]) == SumLens(s) - |s[i]| + |y|
  {
    var t := s[i := y];
    if i < |s| - 1 {
      assert t[..|t| - 1] == s[..|s| - 1][i := y];
      SumLensUpdate(s[..|s| - 1], i, y);
    } else {
      assert t[..|t| - 1] == s[..|s| - 1];
    }
  }

  lemma {:induction false} SumLensEmptyTail(s: seq<seq<int>>, k: nat)
    requires k <= |s|
    requires forall i :: k <= i < |s| ==> s[i] == []
    ensures SumLens(s) == SumLens(s[..k])
  {
    if |s| > k {
      assert s[..|s| - 1][..k] == s[..k];
      SumLensEmptyTail(s[..|s| - 1], k);
    } else {
      assert s[..k] == s;
    }
  }

  /** Largest entry of `s`, or 0 when no entry is positive. */
  function Max0(s: seq<int>): (r: int)
    ensures r >= 0
    ensures forall i :: 0 <= i < |s| ==> s[i] <= r
    ensures r == 0 || exists i :: 0 <= i < |s| && s[i] == r
  {
    if s == [] then 0
    else
      var r0 := Max0(s[..|s| - 1]);
      assert forall i :: 0 <= i < |s| - 1 ==> s[..|s| - 1][i] == s[i];
      if s[|s| - 1] > r0 then s[|s| - 1] else r0
  }

  /** Max0 is pinned down by being an upper bound that is attained (or 0). */
  lemma Max0Unique(s: seq<int>, r: int)
    requires r >= 0
    requires forall i :: 0 <= i < |s| ==> s[i] <= r
    requires r == 0 || exists i :: 0 <= i < |s| && s[i] == r
    ensures Max0(s) == r
  {
  }

  lemma Max0Raise(s: seq<int>, i: nat, y: int)
    requires i < |s| && s[i] <= y
    ensures Max0(s[i := y]) == if y > Max0(s) then y else Max0(s)
  {
    var t := s[i := y];
    var r := if y > Max0(s) then y else Max0(s);
    assert forall k :: 0 <= k < |t| ==> t[k] <= r;
    if y > Max0(s) {
      assert t[i] == r;
    } else if r != 0 {
      var k :| 0 <= k < |s| && s[k] == r;
      if k == i {
        assert t[i] == r;
      } else {
        assert t[k] == r;
      }
    }
    Max0Unique(t, r);
  }

  /** Insert `x` into a strictly increasing list, keeping it so. */
  function Insert(x: int, s: seq<int>): (r: seq<int>)
    requires Increasing(s)
    ensures Increasing(r)
    ensures forall y :: y in r <==> y == x || y in s
  {
    if s == [] then [x]
    else if x < s[0] then [x] + s
    else if x == s[0] then s
    else
      var t := Insert(x, s[1..]);
      assert forall y :: y in s <==> y == s[0] || y in s[1..];
      assert t[0] in t;
      [s[0]] + t
  }

  /** The sort-and-unique of a list: strictly increasing, same elements. */
  function Dedup(s: seq<int>): (r: seq<int>)
    ensures Increasing(r)
    ensures forall y :: y in r <==> y in s
    ensures |r| <= |s|
  {
    if s == [] then []
    else
      var t := Dedup(s[1..]);
      assert forall y :: y in s <==> y == s[0] || y in s[1..];
      var r := Insert(s[0], t);
      InsertLength(s[0], t);
      r
  }

  lemma InsertLength(x: int, s: seq<int>)
    requires Increasing(s)
    ensures |Insert(x, s)| <= |s| + 1
    ensures x in s ==> Insert(x, s) == s
  {
  }

  /** Sorting and deduplicating an already strictly increasing list changes nothing. */
  lemma {:induction false} DedupIdempotent(s: seq<int>)
    requires Increasing(s)
    ensures Dedup(s) == s
  {
    if s != [] {
      DedupIdempotent(s[1..]);
      if |s| > 1 {
        assert s[0] < s[1..][0];
        assert s == [s[0]] + s[1..];
      }
    }
  }
}
