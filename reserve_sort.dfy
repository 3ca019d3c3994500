/** The ordering of reserved blocks: the comparator sram_reserve_cmp and the list_sort call
    that uses it, modelled as a stable sort by that comparator. */
module ReserveSort {
  import opened Spans

  const U32_LIMIT: int := 0x1_0000_0000
  const INT32_LIMIT: int := 0x8000_0000

  /** The int that a 32-bit unsigned value turns into on a two's-complement machine. */
  function ToInt32(v: int): (r: int)
    requires 0 <= v < U32_LIMIT
    ensures -INT32_LIMIT <= r < INT32_LIMIT
    ensures r == v || r == v - U32_LIMIT
  {
    if v < INT32_LIMIT then v else v - U32_LIMIT
  }

  /** sram_reserve_cmp: the u32 difference of the two starts, returned as an int. Its sign
      orders the blocks correctly only while the starts differ by less than 2^31. */
  function ReserveCmp(a: Span, b: Span): (r: int)
    ensures -INT32_LIMIT <= r < INT32_LIMIT
    ensures a.start < U32_LIMIT && b.start < U32_LIMIT && -INT32_LIMIT < a.start - b.start < INT32_LIMIT ==>
              (r < 0 <==> a.start < b.start) && (r == 0 <==> a.start == b.start)
  {
    ToInt32((a.start - b.start) % U32_LIMIT)
  }

  /** Every start is small enough for ReserveCmp to compare it correctly with every other. */
  predicate Bounded(s: seq<Span>) {
    forall y :: y in s ==> y.start < INT32_LIMIT
  }

  predicate Sorted(s: seq<Span>) {
    forall i, j :: 0 <= i < j < |s| ==> s[i].start <= s[j].start
  }

  /** Places `x` after every leading block that does not compare above it, so that a block
      never overtakes one with the same start that came before it. */
  function Insert(t: seq<Span>, x: Span): (r: seq<Span>)
    ensures multiset(r) == multiset(t) + multiset{x}
    decreases |t|
  {
    if t == [] then [x]
    else if ReserveCmp(t[0], x) <= 0 then
      assert t == [t[0]] + t[1..];
      [t[0]] + Insert(t[1..], x)
    else [x] + t
  }

  /** list_sort(NULL, &reserve_list, sram_reserve_cmp): a stable sort of the blocks, taken in
      the order they were added to the list. */
  function SortSpans(s: seq<Span>): (r: seq<Span>)
    ensures multiset(r) == multiset(s)
    decreases |s|
  {
    if s == [] then []
    else
      assert s == s[..|s| - 1] + [s[|s| - 1]];
      Insert(SortSpans(s[..|s| - 1]), s[|s| - 1])
  }

  /** Between blocks with bounded starts the comparator's verdict is the order of the starts. */
  lemma CmpOrders(a: Span, b: Span)
    requires a.start < INT32_LIMIT && b.start < INT32_LIMIT
    ensures ReserveCmp(a, b) <= 0 <==> a.start <= b.start
  {
  }

  lemma SortedCons(a: Span, u: seq<Span>)
    requires Sorted(u) && forall y :: y in u ==> a.start <= y.start
    ensures Sorted([a] + u)
  {
    var r := [a] + u;
    forall i, j | 0 <= i < j < |r|
      ensures r[i].start <= r[j].start
    {
      assert r[j] == u[j - 1];
      if i > 0 {
        assert r[i] == u[i - 1];
      }
    }
  }

  lemma {:induction false} InsertSorted(t: seq<Span>, x: Span)
    requires Sorted(t) && Bounded(t) && x.start < INT32_LIMIT
    ensures Sorted(Insert(t, x))
    decreases |t|
  {
    if t == [] {
    } else {
      assert t == [t[0]] + t[1..];
      CmpOrders(t[0], x);
      if ReserveCmp(t[0], x) <= 0 {
        var u := Insert(t[1..], x);
        InsertSorted(t[1..], x);
        forall y | y in u
          ensures t[0].start <= y.start
        {
          assert y in multiset(u);
        }
        SortedCons(t[0], u);
      } else {
        forall y | y in t
          ensures x.start <= y.start
        {
          var k :| 0 <= k < |t| && t[k] == y;
          assert k == 0 || t[0].start <= t[k].start;
        }
        SortedCons(x, t);
      }
    }
  }

  /** The sort orders the blocks by start. */
  lemma {:induction false} SortSorted(s: seq<Span>)
    requires Bounded(s)
    ensures Sorted(SortSpans(s))
    decreases |s|
  {
    if s != [] {
      var p := s[..|s| - 1];
      assert s == p + [s[|s| - 1]];
      SortSorted(p);
      assert forall y :: y in SortSpans(p) ==> y in multiset(p);
      InsertSorted(SortSpans(p), s[|s| - 1]);
    }
  }

  /** Non-empty blocks in ascending order that do not overlap lie one after the other. */
  lemma {:induction false} SortedDisjointSeparated(cur: int, s: seq<Span>)
    requires Sorted(s) && Disjoint(s) && PositiveSizes(s)
    requires forall y :: y in s ==> cur <= y.start
    ensures Separated(cur, s)
    decreases |s|
  {
    if s != [] {
      var t := s[1..];
      assert s == [s[0]] + t;
      forall y | y in t
        ensures s[0].End() <= y.start
      {
        var k :| 0 <= k < |t| && t[k] == y;
        assert s[0].start <= s[k + 1].start;
        assert !Overlap(s[0], y);
      }
      forall i, j | 0 <= i < j < |t|
        ensures t[i].start <= t[j].start
      {
        assert t[i] == s[i + 1] && t[j] == s[j + 1];
      }
      SortedDisjointSeparated(s[0].End(), t);
    }
  }

  /** Sorting blocks of positive size that do not overlap and start at or after `cur` lays them
      out one after the other from `cur`. */
  lemma SortSeparated(cur: int, s: seq<Span>)
    requires Bounded(s) && Disjoint(s) && PositiveSizes(s)
    requires forall y :: y in s ==> cur <= y.start
    ensures Separated(cur, SortSpans(s))
  {
    var t := SortSpans(s);
    assert forall y :: y in t <==> y in multiset(s);
    SortSorted(s);
    SortDisjoint(s);
    SortedDisjointSeparated(cur, t);
  }

  lemma {:induction false} InsertAfterAll(t: seq<Span>, x: Span)
    requires Bounded(t) && x.start < INT32_LIMIT
    requires forall y :: y in t ==> y.start <= x.start
    ensures Insert(t, x) == t + [x]
    decreases |t|
  {
    if t != [] {
      assert t == [t[0]] + t[1..];
      InsertAfterAll(t[1..], x);
    }
  }

  /** A block appended last that starts at or after every other one stays last: the sentinel
      ends the sorted list. */
  lemma {:induction false} SortKeepsGreatestLast(s: seq<Span>, x: Span)
    requires Bounded(s) && x.start < INT32_LIMIT
    requires forall y :: y in s ==> y.start <= x.start
    ensures SortSpans(s + [x]) == SortSpans(s) + [x]
  {
    assert (s + [x])[..|s|] == s;
    assert forall y :: y in SortSpans(s) ==> y in multiset(s);
    InsertAfterAll(SortSpans(s), x);
  }

  lemma {:induction false} InsertDisjoint(t: seq<Span>, x: Span)
    ensures Disjoint(Insert(t, x)) <==> Disjoint(t) && forall y :: y in t ==> !Overlap(x, y)
    decreases |t|
  {
    if t == [] {
    } else if ReserveCmp(t[0], x) <= 0 {
      var u := Insert(t[1..], x);
      assert t == [t[0]] + t[1..];
      assert ([t[0]] + u)[0] == t[0] && ([t[0]] + u)[1..] == u;
      InsertDisjoint(t[1..], x);
      assert forall y :: y in u <==> y in multiset(t[1..]) + multiset{x};
      assert x in u;
      assert Overlap(x, t[0]) <==> Overlap(t[0], x);
    } else {
      assert ([x] + t)[1..] == t;
    }
  }

  /** Sorting neither creates nor removes an overlap between two blocks. */
  lemma {:induction false} SortDisjoint(s: seq<Span>)
    ensures Disjoint(SortSpans(s)) <==> Disjoint(s)
    decreases |s|
  {
    if s != [] {
      var p, x := s[..|s| - 1], s[|s| - 1];
      assert s == p + [x];
      SortDisjoint(p);
      InsertDisjoint(SortSpans(p), x);
      assert forall y :: y in SortSpans(p) <==> y in multiset(p);
      DisjointSnoc(p, x);
    }
  }

  lemma {:induction false} InsertSum(t: seq<Span>, x: Span)
    ensures SumSizes(Insert(t, x)) == SumSizes(t) + x.size
    decreases |t|
  {
    if t != [] && ReserveCmp(t[0], x) <= 0 {
      InsertSum(t[1..], x);
    }
  }

  /** Sorting keeps the total reserved size. */
  lemma {:induction false} SortSum(s: seq<Span>)
    ensures SumSizes(SortSpans(s)) == SumSizes(s)
    decreases |s|
  {
    if s != [] {
      var p, x := s[..|s| - 1], s[|s| - 1];
      assert s == p + [x];
      SortSum(p);
      InsertSum(SortSpans(p), x);
      SumSnoc(p, x);
    }
  }

  /** The blocks of `s` that start at `k`, in their order in `s`. */
  function StartingAt(s: seq<Span>, k: nat): (r: seq<Span>)
    ensures forall i :: 0 <= i < |r| ==> r[i] in s && r[i].start == k
    decreases |s|
  {
    if s == [] then []
    else (if s[0].start == k then [s[0]] else []) + StartingAt(s[1..], k)
  }

  lemma {:induction false} StartingAtConcat(a: seq<Span>, b: seq<Span>, k: nat)
    ensures StartingAt(a + b, k) == StartingAt(a, k) + StartingAt(b, k)
    decreases |a|
  {
    if a == [] {
      assert a + b == b;
    } else {
      assert (a + b)[0] == a[0] && (a + b)[1..] == a[1..] + b;
      StartingAtConcat(a[1..], b, k);
    }
  }

  /** Inserting `x` into a sorted list puts it after every block with the same start. */
  lemma {:induction false} InsertStable(t: seq<Span>, x: Span, k: nat)
    requires Sorted(t) && Bounded(t) && x.start < INT32_LIMIT
    ensures StartingAt(Insert(t, x), k) == StartingAt(t, k) + StartingAt([x], k)
    decreases |t|
  {
    if t == [] {
      assert Insert(t, x) == [x] && StartingAt(t, k) == [];
    } else {
      InsertStep(t, x);
      if t[0].start <= x.start {
        SortedTail(t);
        InsertStable(t[1..], x, k);
        InsertPassesStable(t[0], t[1..], x, k);
        assert t == [t[0]] + t[1..];
      } else {
        InsertFrontStable(t, x, k);
      }
    }
  }

  /** The step of InsertStable where `x` moves past the first block `a`. */
  lemma InsertPassesStable(a: Span, u: seq<Span>, x: Span, k: nat)
    requires StartingAt(Insert(u, x), k) == StartingAt(u, k) + StartingAt([x], k)
    ensures StartingAt([a] + Insert(u, x), k) == StartingAt([a] + u, k) + StartingAt([x], k)
  {
    StartingAtConcat([a], Insert(u, x), k);
    StartingAtConcat([a], u, k);
  }

  /** One step of Insert on a list with bounded starts, with the comparator's verdict read as
      the order of the starts. */
  lemma InsertStep(t: seq<Span>, x: Span)
    requires t != [] && Bounded(t) && x.start < INT32_LIMIT
    ensures Insert(t, x) == if t[0].start <= x.start then [t[0]] + Insert(t[1..], x) else [x] + t
  {
    CmpOrders(t[0], x);
  }

  lemma SortedTail(t: seq<Span>)
    requires Sorted(t) && Bounded(t) && t != []
    ensures Sorted(t[1..]) && Bounded(t[1..])
  {
    assert forall i :: 0 <= i < |t| - 1 ==> t[1..][i] == t[i + 1];
  }

  /** A block placed in front of a sorted list whose blocks all start above it is behind no
      block with its own start. */
  lemma InsertFrontStable(t: seq<Span>, x: Span, k: nat)
    requires Sorted(t) && t != [] && x.start < t[0].start
    ensures StartingAt([x] + t, k) == StartingAt(t, k) + StartingAt([x], k)
  {
    StartingAtOne(x, k);
    StartingAtConcat([x], t, k);
    if x.start == k {
      InsertBeforeAll(t, x);
      assert StartingAt([x] + t, k) == [x] + [];
    } else {
      assert StartingAt([x] + t, k) == [] + StartingAt(t, k);
    }
  }

  lemma StartingAtOne(x: Span, k: nat)
    ensures StartingAt([x], k) == if x.start == k then [x] else []
  {
    assert [x][1..] == [];
  }

  /** A block that starts below the first block of a sorted list has no block of the list
      starting with it. */
  lemma InsertBeforeAll(t: seq<Span>, x: Span)
    requires Sorted(t) && t != [] && x.start < t[0].start
    ensures StartingAt(t, x.start) == []
  {
    forall y | y in t
      ensures y.start != x.start
    {
      var j :| 0 <= j < |t| && t[j] == y;
      assert j == 0 || t[0].start <= t[j].start;
    }
    NoneStartingAt(t, x.start);
  }

  lemma NoneStartingAt(t: seq<Span>, k: nat)
    requires forall y :: y in t ==> y.start != k
    ensures StartingAt(t, k) == []
  {
  }

  /** The sort is stable: for every start k, the blocks that start at k come out in the order
      they went in. */
  lemma {:induction false} SortStable(s: seq<Span>, k: nat)
    requires Bounded(s)
    ensures StartingAt(SortSpans(s), k) == StartingAt(s, k)
    decreases |s|
  {
    if s != [] {
      var p, x := s[..|s| - 1], s[|s| - 1];
      assert s == p + [x];
      assert Bounded(p) by {
        forall y | y in p
          ensures y.start < INT32_LIMIT
        {
          assert y in s;
        }
      }
      SortStable(p, k);
      SortSorted(p);
      assert forall y :: y in SortSpans(p) ==> y in multiset(p);
      InsertStable(SortSpans(p), x, k);
      StartingAtConcat(p, [x], k);
    }
  }
}
