/** What sram_reserve_regions guarantees about the chunks it hands to the pool, stated for the
    model of the whole function (collection, sentinel, sort and sweep). */
module ReserveProperties {
  import opened Errno
  import opened Spans
  import opened ReserveSort
  import opened GapSweep
  import opened SramReserve

  /** The inputs the function is modelled for: a well-formed region smaller than 2 GiB (so that
      sram_reserve_cmp orders every pair of blocks correctly) and well-formed child ranges. */
  predicate Setting(res: Resource, cs: seq<ChildNode>) {
    WellFormed(res) && ResourceSize(res) < INT32_LIMIT && ChildrenWellFormed(cs)
  }

  /** Every child range holds at least one byte. */
  predicate NonEmptyChildren(cs: seq<ChildNode>) {
    forall i :: 0 <= i < |cs| && cs[i].Mapped? ==> cs[i].range.start <= cs[i].range.end
  }

  /** The list the sweep walks holds the child blocks sorted by start, followed by exactly one
      sentinel at the end of the region. */
  lemma SortedBlockList(res: Resource, cs: seq<ChildNode>)
    requires Setting(res, cs) && AllInside(res, cs)
    ensures var rs := ReservedSpans(res, cs);
      var sorted := SortSpans(rs + [Sentinel(res)]);
      && sorted == SortSpans(rs) + [Sentinel(res)]
      && Sorted(sorted)
      && multiset(sorted) == multiset(rs) + multiset{Sentinel(res)}
  {
    var rs := ReservedSpans(res, cs);
    var sen := Sentinel(res);
    assert Bounded(rs + [sen]) by {
      forall y | y in rs + [sen]
        ensures y.start < INT32_LIMIT
      {
        assert y in rs || y == sen;
      }
    }
    assert Bounded(rs) by {
      forall y | y in rs
        ensures y.start < INT32_LIMIT
      {
        assert y in rs + [sen];
      }
    }
    SortKeepsGreatestLast(rs, sen);
    SortSorted(rs + [sen]);
  }

  /** A child whose address cannot be translated, or that starts below or ends above the
      region, fails the call with -EINVAL before any chunk is added. */
  lemma ReserveRejectsOutside(res: Resource, cs: seq<ChildNode>, canAdd: nat -> bool, held: nat, i: int)
    requires Setting(res, cs) && 0 <= i < |cs|
    requires cs[i].Unmapped? || cs[i].range.start < res.start || cs[i].range.end > res.end
    ensures Reserve(res, cs, canAdd, held) == Outcome(-EINVAL, [], 0)
  {
    assert !Inside(res, cs[i]);
  }

  /** On success every child lies inside the region, the chunks are non-empty, strictly
      ascending and pairwise disjoint inside [0, size), and the cursor ends at the region size. */
  lemma ReserveSuccessLayout(res: Resource, cs: seq<ChildNode>, canAdd: nat -> bool, held: nat)
    requires Setting(res, cs) && Reserve(res, cs, canAdd, held).ret == 0
    ensures AllInside(res, cs)
    ensures var r := Reserve(res, cs, canAdd, held);
      && Separated(0, r.free) && PositiveSizes(r.free)
      && (r.free != [] ==> r.free[|r.free| - 1].End() <= ResourceSize(res))
      && r.cursor == ResourceSize(res)
  {
    var rs := ReservedSpans(res, cs);
    var sen := Sentinel(res);
    var sorted := SortSpans(rs + [sen]);
    var r := Sweep(sorted, 0, canAdd, held);
    assert Reserve(res, cs, canAdd, held) == r;
    SortedBlockList(res, cs);
    assert sorted[|sorted| - 1] == sen;
    SweepFinalCursor(sorted, 0, canAdd, held);
    SweepChunksInOrder(sorted, 0, canAdd, held);
  }

  /** On success the chunk sizes and the reserved sizes add up to the region size: nothing is
      lost and nothing is counted twice. */
  lemma ReserveSuccessSizes(res: Resource, cs: seq<ChildNode>, canAdd: nat -> bool, held: nat)
    requires Setting(res, cs) && Reserve(res, cs, canAdd, held).ret == 0
    ensures AllInside(res, cs)
    ensures SumSizes(Reserve(res, cs, canAdd, held).free) + SumSizes(ReservedSpans(res, cs)) == ResourceSize(res)
  {
    var rs := ReservedSpans(res, cs);
    var sen := Sentinel(res);
    var sorted := SortSpans(rs + [sen]);
    var r := Sweep(sorted, 0, canAdd, held);
    ReserveSuccessLayout(res, cs, canAdd, held);
    SweepTiles(sorted, 0, canAdd, held);
    SortSum(rs + [sen]);
    SumSnoc(rs, sen);
  }

  /** On success no two reserved blocks overlap. */
  lemma ReserveSuccessDisjoint(res: Resource, cs: seq<ChildNode>, canAdd: nat -> bool, held: nat)
    requires Setting(res, cs) && Reserve(res, cs, canAdd, held).ret == 0
    ensures AllInside(res, cs) && Disjoint(ReservedSpans(res, cs))
  {
    var rs := ReservedSpans(res, cs);
    var sorted := SortSpans(rs + [Sentinel(res)]);
    SweepOkSeparated(sorted, 0, canAdd, held);
    SeparatedDisjoint(0, sorted);
    SortDisjoint(rs + [Sentinel(res)]);
    DisjointSnoc(rs, Sentinel(res));
  }

  /** Two children whose blocks overlap make the call fail; with a pool that accepts every
      chunk the failure is -EINVAL. */
  lemma ReserveRejectsOverlap(res: Resource, cs: seq<ChildNode>, canAdd: nat -> bool, held: nat, i: int, j: int)
    requires Setting(res, cs) && AllInside(res, cs) && 0 <= i < j < |cs|
    requires Overlap(ReservedSpans(res, cs)[i], ReservedSpans(res, cs)[j])
    ensures Reserve(res, cs, canAdd, held).ret != 0
    ensures (forall n :: canAdd(n)) ==> Reserve(res, cs, canAdd, held).ret == -EINVAL
  {
    if Reserve(res, cs, canAdd, held).ret == 0 {
      ReserveSuccessDisjoint(res, cs, canAdd, held);
      DisjointAt(ReservedSpans(res, cs), i, j);
    }
    if forall n :: canAdd(n) {
      var sorted := SortSpans(ReservedSpans(res, cs) + [Sentinel(res)]);
      SweepPoolAccepts(sorted, 0, canAdd, held);
      SweepReturnCodes(sorted, 0, canAdd, held);
    }
  }

  /** With children of positive size inside the region that do not overlap, the sorted list
      lays the blocks out one after the other, the sentinel last. */
  lemma SortedListSeparated(res: Resource, cs: seq<ChildNode>)
    requires Setting(res, cs) && NonEmptyChildren(cs) && AllInside(res, cs)
    requires Disjoint(ReservedSpans(res, cs))
    ensures Separated(0, SortSpans(ReservedSpans(res, cs) + [Sentinel(res)]))
  {
    var rs := ReservedSpans(res, cs);
    var sen := Sentinel(res);
    assert PositiveSizes(rs) by {
      forall y | y in rs
        ensures y.size > 0
      {
        var k :| 0 <= k < |rs| && rs[k] == y;
        assert y == ToSpan(res, cs[k].range);
      }
    }
    SortSeparated(0, rs);
    var srs := SortSpans(rs);
    if srs != [] {
      assert srs[|srs| - 1] in multiset(rs);
    }
    SeparatedSnoc(0, srs, sen);
    SortedBlockList(res, cs);
  }

  /** With children of positive size and a pool that accepts every chunk, the call succeeds
      exactly when every child lies inside the region and no two of them overlap, whatever
      order the children come in. */
  lemma ReserveSucceedsIff(res: Resource, cs: seq<ChildNode>, canAdd: nat -> bool, held: nat)
    requires Setting(res, cs) && NonEmptyChildren(cs)
    requires forall n :: canAdd(n)
    ensures Reserve(res, cs, canAdd, held).ret == 0
            <==> AllInside(res, cs) && Disjoint(ReservedSpans(res, cs))
  {
    if AllInside(res, cs) && Disjoint(ReservedSpans(res, cs)) {
      var sorted := SortSpans(ReservedSpans(res, cs) + [Sentinel(res)]);
      SortedListSeparated(res, cs);
      SweepSeparatedNoOverlap(sorted, 0, canAdd, held);
      SweepPoolAccepts(sorted, 0, canAdd, held);
      SweepReturnCodes(sorted, 0, canAdd, held);
    } else if Reserve(res, cs, canAdd, held).ret == 0 {
      ReserveSuccessDisjoint(res, cs, canAdd, held);
    }
  }

  /** On success an offset of the region lies in a chunk handed to the pool exactly when it lies
      in no reserved block: the chunks are the complement of the reservations, so the offsets
      they cover do not depend on the order of the children. */
  lemma ReserveCoverage(res: Resource, cs: seq<ChildNode>, canAdd: nat -> bool, held: nat, x: int)
    requires Setting(res, cs) && Reserve(res, cs, canAdd, held).ret == 0
    requires 0 <= x < ResourceSize(res)
    ensures AllInside(res, cs)
    ensures Covers(Reserve(res, cs, canAdd, held).free, x) <==> !Covers(ReservedSpans(res, cs), x)
  {
    var rs := ReservedSpans(res, cs);
    var sen := Sentinel(res);
    var sorted := SortSpans(rs + [sen]);
    SortedBlockList(res, cs);
    SweepFinalCursor(sorted, 0, canAdd, held);
    SweepCoverage(sorted, 0, canAdd, held, x);
    assert forall y :: y in sorted <==> y in rs || y == sen by {
      assert forall y :: y in sorted <==> y in multiset(rs + [sen]);
    }
    assert !sen.Holds(x);
  }

  /** Without children the whole region becomes one chunk (none for an empty region). */
  lemma ReserveNoChildren(res: Resource, canAdd: nat -> bool, held: nat)
    requires Setting(res, [])
    ensures Reserve(res, [], canAdd, held) ==
      if ResourceSize(res) == 0 then Outcome(0, [], 0)
      else if canAdd(held) then Outcome(0, [Span(0, ResourceSize(res))], ResourceSize(res))
      else Outcome(-ENOMEM, [], 0)
  {
    var sen := Sentinel(res);
    assert ReservedSpans(res, []) + [sen] == [sen];
    assert [sen][..0] == [] && [sen][1..] == [];
    assert SortSpans([sen]) == [sen];
    assert Reserve(res, [], canAdd, held) == Sweep([sen], 0, canAdd, held);
    if ResourceSize(res) == 0 {
      assert Sweep([sen], 0, canAdd, held) == Sweep([], 0, canAdd, held);
    } else if canAdd(held) {
      assert Sweep([sen], 0, canAdd, held) == Then([Span(0, ResourceSize(res))], Sweep([], sen.End(), canAdd, held + 1));
    }
  }

  /** A zero-size child at the start of a non-empty one is accepted only when it comes first in
      the child list: the outcome depends on the order of the children, even with a pool that
      accepts every chunk. */
  lemma ZeroSizeBlockOrderMatters(res: Resource, a: ChildNode, z: ChildNode, canAdd: nat -> bool, held: nat)
    requires WellFormed(res) && ResourceSize(res) < INT32_LIMIT
    requires Inside(res, a) && 0 < a.range.start <= a.range.end
    requires z == Mapped(Resource(a.range.start, a.range.start - 1))
    requires forall n :: canAdd(n)
    ensures ChildrenWellFormed([a, z]) && ChildrenWellFormed([z, a])
    ensures Reserve(res, [a, z], canAdd, held).ret == -EINVAL
    ensures Reserve(res, [z, a], canAdd, held).ret == 0
  {
    ZeroSizeLast(res, a, z, [a, z], canAdd, held);
    ZeroSizeFirst(res, a, z, [z, a], canAdd, held);
  }

  /** The blocks of a non-empty child and of the zero-size child at its start. */
  lemma ZeroPairSpans(res: Resource, a: ChildNode, z: ChildNode)
    requires WellFormed(res) && ResourceSize(res) < INT32_LIMIT
    requires Inside(res, a) && 0 < a.range.start <= a.range.end
    requires z == Mapped(Resource(a.range.start, a.range.start - 1))
    ensures Inside(res, z) && WellFormed(a.range) && WellFormed(z.range)
    ensures var sa, sz, sen := ToSpan(res, a.range), ToSpan(res, z.range), Sentinel(res);
      && sa.start == sz.start < sen.start < INT32_LIMIT
      && sa.size > 0 && sz.size == 0 && sa.End() <= sen.start
  {
  }

  lemma ZeroSizeLast(res: Resource, a: ChildNode, z: ChildNode, cs: seq<ChildNode>, canAdd: nat -> bool, held: nat)
    requires WellFormed(res) && ResourceSize(res) < INT32_LIMIT
    requires Inside(res, a) && 0 < a.range.start <= a.range.end
    requires z == Mapped(Resource(a.range.start, a.range.start - 1))
    requires forall n :: canAdd(n)
    requires cs == [a, z]
    ensures ChildrenWellFormed(cs) && Reserve(res, cs, canAdd, held).ret == -EINVAL
  {
    ZeroPairSpans(res, a, z);
    var sa, sz, sen := ToSpan(res, a.range), ToSpan(res, z.range), Sentinel(res);
    assert ChildrenWellFormed(cs) && AllInside(res, cs) by {
      assert cs[0] == a && cs[1] == z;
    }
    SpansOfPair(res, a, z);
    SameStartSort(sa, sz, sen);
    ReserveVia(res, cs, canAdd, held, [sa, sz], [sa, sz, sen]);
    SweepZeroAfter([sa, sz, sen], sa, sz, sen, canAdd, held);
  }

  lemma ZeroSizeFirst(res: Resource, a: ChildNode, z: ChildNode, cs: seq<ChildNode>, canAdd: nat -> bool, held: nat)
    requires WellFormed(res) && ResourceSize(res) < INT32_LIMIT
    requires Inside(res, a) && 0 < a.range.start <= a.range.end
    requires z == Mapped(Resource(a.range.start, a.range.start - 1))
    requires forall n :: canAdd(n)
    requires cs == [z, a]
    ensures ChildrenWellFormed(cs) && Reserve(res, cs, canAdd, held).ret == 0
  {
    ZeroPairSpans(res, a, z);
    var sa, sz, sen := ToSpan(res, a.range), ToSpan(res, z.range), Sentinel(res);
    assert ChildrenWellFormed(cs) && AllInside(res, cs) by {
      assert cs[0] == z && cs[1] == a;
    }
    SpansOfPair(res, z, a);
    SameStartSort(sz, sa, sen);
    ReserveVia(res, cs, canAdd, held, [sz, sa], [sz, sa, sen]);
    SweepZeroFirst([sz, sa, sen], sa, sz, sen, canAdd, held);
  }

  /** The outcome of the call is the sweep of the sorted list of blocks and sentinel. */
  lemma ReserveVia(res: Resource, cs: seq<ChildNode>, canAdd: nat -> bool, held: nat, rs: seq<Span>, sorted: seq<Span>)
    requires WellFormed(res) && ChildrenWellFormed(cs) && AllInside(res, cs)
    requires ReservedSpans(res, cs) == rs && SortSpans(rs + [Sentinel(res)]) == sorted
    ensures Reserve(res, cs, canAdd, held) == Sweep(sorted, 0, canAdd, held)
  {
  }

  /** The blocks of two children inside the region, in list order. */
  lemma SpansOfPair(res: Resource, c: ChildNode, d: ChildNode)
    requires WellFormed(res) && Inside(res, c) && Inside(res, d)
    requires WellFormed(c.range) && WellFormed(d.range)
    requires ChildrenWellFormed([c, d]) && AllInside(res, [c, d])
    ensures ReservedSpans(res, [c, d]) == [ToSpan(res, c.range), ToSpan(res, d.range)]
  {
    var rs := ReservedSpans(res, [c, d]);
    assert rs[0] == ToSpan(res, [c, d][0].range);
    assert rs[1] == ToSpan(res, [c, d][1].range);
  }

  /** Two blocks with the same start stay in list order, ahead of a later sentinel. */
  lemma SameStartSort(x: Span, y: Span, sen: Span)
    requires x.start == y.start < sen.start < INT32_LIMIT
    ensures SortSpans([x, y] + [sen]) == [x, y, sen]
  {
    SameStartPair(x, y);
    assert Bounded([x, y]) by {
      assert forall u :: u in [x, y] ==> u == x || u == y;
    }
    SortKeepsGreatestLast([x, y], sen);
  }

  lemma SameStartPair(x: Span, y: Span)
    requires x.start == y.start < INT32_LIMIT
    ensures SortSpans([x, y]) == [x, y]
  {
    SortOne(x);
    assert [x, y] == [x] + [y];
    SortKeepsGreatestLast([x], y);
  }

  lemma SortOne(x: Span)
    ensures SortSpans([x]) == [x]
  {
    assert [x][..0] == [];
  }

  /** A zero-size block after a non-empty one with the same start lies below the cursor. */
  lemma SweepZeroAfter(b: seq<Span>, sa: Span, sz: Span, sen: Span, canAdd: nat -> bool, held: nat)
    requires b == [sa, sz, sen]
    requires sa.start == sz.start && sa.size > 0 && sz.size == 0 && sa.End() <= sen.start
    requires forall n :: canAdd(n)
    ensures Sweep(b, 0, canAdd, held).ret == -EINVAL
  {
    assert b[0] == sa && b[1..] == [sz, sen];
    assert [sz, sen][0] == sz;
  }

  /** A zero-size block before a non-empty one with the same start only moves the cursor to it. */
  lemma SweepZeroFirst(b: seq<Span>, sa: Span, sz: Span, sen: Span, canAdd: nat -> bool, held: nat)
    requires b == [sz, sa, sen]
    requires sa.start == sz.start && sa.size > 0 && sz.size == 0 && sa.End() <= sen.start
    requires forall n :: canAdd(n)
    ensures Sweep(b, 0, canAdd, held).ret == 0
  {
    assert b[0] == sz && b[1..] == [sa, sen];
    SweepBlockThenSentinel(sa, sen, canAdd, if sz.start == 0 then held else held + 1);
  }

  /** From the start of a block, the block and a later sentinel sweep without error. */
  lemma SweepBlockThenSentinel(sa: Span, sen: Span, canAdd: nat -> bool, h: nat)
    requires sa.End() <= sen.start
    requires forall n :: canAdd(n)
    ensures Sweep([sa, sen], sa.start, canAdd, h).ret == 0
  {
    assert [sa, sen][1..] == [sen] && [sen][1..] == [];
    var last := Sweep([sen], sa.End(), canAdd, h);
    if sen.start == sa.End() {
      assert last == Sweep([], sen.End(), canAdd, h);
    } else {
      assert last == Then([Span(sa.End(), sen.start - sa.End())], Sweep([], sen.End(), canAdd, h + 1));
    }
    assert Sweep([sa, sen], sa.start, canAdd, h) == last;
  }
}
