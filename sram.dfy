/** sram_reserve_regions: carving the SRAM region into the chunks handed to the allocator,
    around the blocks that the device tree reserves. */
module SramReserve {
  import opened Errno
  import opened Spans
  import opened ReserveSort
  import opened GenAlloc
  import opened GapSweep

  /** A physical address range [start, end] with an inclusive end, as in struct resource. */
  datatype Resource = Resource(start: nat, end: nat)

  predicate WellFormed(r: Resource) {
    r.start <= r.end + 1
  }

  /** resource_size: the number of bytes in the range. */
  function ResourceSize(r: Resource): nat
    requires WellFormed(r)
  {
    r.end + 1 - r.start
  }

  /** An available child node of the SRAM node: either its address translated to a range, or
      the translation failed. */
  datatype ChildNode = Mapped(range: Resource) | Unmapped

  /** A child passes the collection loop's checks: its address was translated, and its range
      neither starts below nor ends above the region. Exactly then, for a well-formed range,
      its block starts at an offset into the region and ends within the region's size. */
  predicate Inside(res: Resource, c: ChildNode): (b: bool)
    ensures b ==> c.Mapped? && res.start <= c.range.start
    ensures WellFormed(res) && c.Mapped? && WellFormed(c.range) && res.start <= c.range.start ==>
      (b <==> ToSpan(res, c.range).End() <= ResourceSize(res))
  {
    c.Mapped? && res.start <= c.range.start && c.range.end <= res.end
  }

  /** Every child passes the collection loop's checks; otherwise some child is untranslatable,
      starts below the region or ends above it. */
  predicate AllInside(res: Resource, cs: seq<ChildNode>): (b: bool)
    ensures !b <==> exists i :: 0 <= i < |cs| &&
                         (cs[i].Unmapped? || cs[i].range.start < res.start || cs[i].range.end > res.end)
  {
    forall i :: 0 <= i < |cs| ==> Inside(res, cs[i])
  }

  /** What the address translation guarantees of every range it produces. */
  predicate ChildrenWellFormed(cs: seq<ChildNode>) {
    forall i :: 0 <= i < |cs| && cs[i].Mapped? ==> WellFormed(cs[i].range)
  }

  /** The block recorded for a child range: its offset from the region start and its size. */
  function ToSpan(res: Resource, r: Resource): (s: Span)
    requires WellFormed(r) && res.start <= r.start
    ensures res.start + s.start == r.start && res.start + s.End() == r.end + 1
    ensures WellFormed(res) && r.end <= res.end ==> s.End() <= ResourceSize(res)
  {
    Span(r.start - res.start, ResourceSize(r))
  }

  /** The blocks of the children, in the order the children are visited. */
  function ReservedSpans(res: Resource, cs: seq<ChildNode>): (rs: seq<Span>)
    requires WellFormed(res) && ChildrenWellFormed(cs) && AllInside(res, cs)
    ensures |rs| == |cs|
    ensures forall i :: 0 <= i < |cs| ==> rs[i] == ToSpan(res, cs[i].range)
    ensures forall y :: y in rs ==> y.End() <= ResourceSize(res)
    decreases |cs|
  {
    if cs == [] then []
    else
      var p := cs[..|cs| - 1];
      ReservedSpans(res, p) + [ToSpan(res, cs[|cs| - 1].range)]
  }

  /** The block that marks the end of the region: empty, at offset size, so it starts where
      the block of every child inside the region has ended. */
  function Sentinel(res: Resource): (s: Span)
    requires WellFormed(res)
    ensures forall c :: Inside(res, c) && WellFormed(c.range) ==> ToSpan(res, c.range).End() <= s.start
  {
    Span(ResourceSize(res), 0)
  }

  /** The outcome of sram_reserve_regions for region `res` and its children in visiting order,
      on a pool that already holds `held` chunks: a child whose address cannot be translated
      or that lies outside the region makes it fail with -EINVAL before any chunk is added;
      otherwise the child blocks and the sentinel are sorted and swept. */
  function Reserve(res: Resource, cs: seq<ChildNode>, canAdd: nat -> bool, held: nat): (r: Outcome)
    requires WellFormed(res) && ChildrenWellFormed(cs)
    ensures r.ret == 0 || r.ret == -EINVAL || r.ret == -ENOMEM
    ensures !AllInside(res, cs) ==> r.ret == -EINVAL && r.free == []
    ensures AllInside(res, cs) ==>
      r == Sweep(SortSpans(ReservedSpans(res, cs) + [Sentinel(res)]), 0, canAdd, held)
  {
    if AllInside(res, cs) then
      var blocks := SortSpans(ReservedSpans(res, cs) + [Sentinel(res)]);
      SweepReturnCodes(blocks, 0, canAdd, held);
      Sweep(blocks, 0, canAdd, held)
    else
      Outcome(-EINVAL, [], 0)
  }

  /** The chunk the pool receives for a free span: at the same offset from the mapped virtual
      base and from the physical region start. */
  function PlaceOne(virtBase: nat, physBase: nat, g: Span): Chunk {
    Chunk(virtBase + g.start, physBase + g.start, g.size)
  }

  /** The chunks the pool receives for the free spans, in order. */
  function Place(virtBase: nat, physBase: nat, free: seq<Span>): (chunks: seq<Chunk>)
    ensures |chunks| == |free|
    ensures forall i :: 0 <= i < |free| ==> chunks[i] == PlaceOne(virtBase, physBase, free[i])
    decreases |free|
  {
    if free == [] then []
    else Place(virtBase, physBase, free[..|free| - 1]) + [PlaceOne(virtBase, physBase, free[|free| - 1])]
  }

  /** Chunks that match the free spans one by one are the chunks of Place. */
  lemma PlaceAll(virtBase: nat, physBase: nat, free: seq<Span>, placed: seq<Chunk>)
    requires |placed| == |free|
    requires forall i :: 0 <= i < |free| ==> placed[i] == PlaceOne(virtBase, physBase, free[i])
    ensures placed == Place(virtBase, physBase, free)
  {
  }

  /** The sweep of the first k blocks succeeded with chunks `free` and stopped at `cur`. */
  ghost predicate SweptTo(blocks: seq<Span>, k: nat, canAdd: nat -> bool, held: nat, free: seq<Span>, cur: nat)
    requires k <= |blocks|
  {
    Sweep(blocks[..k], 0, canAdd, held) == Outcome(0, free, cur)
  }

  /** Before the loop nothing has been swept. */
  lemma SweepStart(blocks: seq<Span>, canAdd: nat -> bool, held: nat)
    ensures SweptTo(blocks, 0, canAdd, held, [], 0)
  {
    assert blocks[..0] == [];
  }

  /** After the last block the loop has swept the whole list. */
  lemma SweepEnd(blocks: seq<Span>, canAdd: nat -> bool, held: nat, free: seq<Span>, cur: nat)
    requires SweptTo(blocks, |blocks|, canAdd, held, free, cur)
    ensures Sweep(blocks, 0, canAdd, held) == Outcome(0, free, cur)
  {
    assert blocks[..|blocks|] == blocks;
  }

  /** One round of the sweep loop, after the first k blocks swept with result (0, free, cur):
      block k below the cursor ends the whole sweep with -EINVAL, and a refused chunk with
      -ENOMEM, both keeping the chunks added so far; a block at the cursor adds nothing and moves
      the cursor to its end; a block above the cursor adds the gap before it and moves the
      cursor to its end. */
  lemma SweepStep(blocks: seq<Span>, k: nat, canAdd: nat -> bool, held: nat, free: seq<Span>, cur: nat)
    requires k < |blocks| && SweptTo(blocks, k, canAdd, held, free, cur)
    ensures var b := blocks[k];
      && (b.start < cur ==> Sweep(blocks, 0, canAdd, held) == Outcome(-EINVAL, free, cur))
      && (b.start == cur ==> SweptTo(blocks, k + 1, canAdd, held, free, b.End()))
      && (cur < b.start && !canAdd(held + |free|) ==>
            Sweep(blocks, 0, canAdd, held) == Outcome(-ENOMEM, free, cur))
      && (cur < b.start && canAdd(held + |free|) ==>
            SweptTo(blocks, k + 1, canAdd, held, free + [Span(cur, b.start - cur)], b.End()))
  {
    SweepExtend(blocks[..k], blocks[k], 0, canAdd, held);
    assert blocks[..k + 1] == blocks[..k] + [blocks[k]];
    if Sweep(blocks[..k + 1], 0, canAdd, held).ret != 0 {
      SweepConcat(blocks[..k + 1], blocks[k + 1..], 0, canAdd, held);
      assert blocks[..k + 1] + blocks[k + 1..] == blocks;
    }
  }

  /** sram_reserve_regions(sram, res), with the children of the SRAM node given in visiting order
      and the region mapped at `virtBase`. */
  method ReserveRegions(pool: GenPool, virtBase: nat, res: Resource, children: seq<ChildNode>)
    returns (ret: int)
    requires WellFormed(res) && ResourceSize(res) < INT32_LIMIT && ChildrenWellFormed(children)
    modifies pool
    ensures var o := Reserve(res, children, pool.canAdd, |old(pool.chunks)|);
      ret == o.ret && pool.chunks == old(pool.chunks) + Place(virtBase, res.start, o.free)
  {
    var size := ResourceSize(res);
    var blocks: seq<Span> := [];
    var i := 0;
    while i < |children|
      invariant 0 <= i <= |children|
      invariant AllInside(res, children[..i]) && ChildrenWellFormed(children[..i])
      invariant blocks == ReservedSpans(res, children[..i])
    {
      var child := children[i];
      if child.Unmapped? || child.range.start < res.start || child.range.end > res.end {
        assert !Inside(res, children[i]);
        return -EINVAL;
      }
      assert children[..i + 1] == children[..i] + [child];
      assert children[..i + 1][..i] == children[..i];
      blocks := blocks + [ToSpan(res, child.range)];
      i := i + 1;
    }
    assert children[..i] == children;

    // The last block marks the end of the region.
    blocks := blocks + [Span(size, 0)];
    blocks := SortSpans(blocks);
    ret := SweepIntoPool(pool, virtBase, res.start, blocks);
  }

  /** The sweep loop of sram_reserve_regions: hands every gap between the cursor and the next
      block to the pool, at `virtBase` and `physBase` plus the gap's offset. */
  method SweepIntoPool(pool: GenPool, virtBase: nat, physBase: nat, blocks: seq<Span>)
    returns (ret: int)
    modifies pool
    ensures var o := Sweep(blocks, 0, pool.canAdd, |old(pool.chunks)|);
      ret == o.ret && pool.chunks == old(pool.chunks) + Place(virtBase, physBase, o.free)
  {
    var cur: nat := 0;
    ghost var held := |pool.chunks|;
    ghost var canAdd := pool.canAdd;
    ghost var free: seq<Span> := [];
    ghost var placed: seq<Chunk> := [];
    var k := 0;
    ret := 0;
    SweepStart(blocks, canAdd, held);
    while k < |blocks|
      invariant 0 <= k <= |blocks| && ret == 0
      invariant pool.chunks == old(pool.chunks) + placed && |placed| == |free|
      invariant forall i :: 0 <= i < |free| ==> placed[i] == PlaceOne(virtBase, physBase, free[i])
      invariant SweptTo(blocks, k, canAdd, held, free, cur)
    {
      var block := blocks[k];
      if block.start < cur {
        // The blocks overlap.
        SweepStep(blocks, k, canAdd, held, free, cur);
        PlaceAll(virtBase, physBase, free, placed);
        return -EINVAL;
      }
      if block.start == cur {
        // The cursor is at a reserved block: continue after it.
        SweepStep(blocks, k, canAdd, held, free, cur);
        cur := block.start + block.size;
        k := k + 1;
        continue;
      }
      // Hand the space between the cursor and the next block to the pool.
      var curSize := block.start - cur;
      ret := pool.AddVirt(virtBase + cur, physBase + cur, curSize);
      SweepStep(blocks, k, canAdd, held, free, cur);
      if ret < 0 {
        PlaceAll(virtBase, physBase, free, placed);
        return;
      }
      // The next chunk starts after this reserved block.
      placed := placed + [Chunk(virtBase + cur, physBase + cur, curSize)];
      free := free + [Span(cur, curSize)];
      cur := block.start + block.size;
      k := k + 1;
    }
    SweepEnd(blocks, canAdd, held, free, cur);
    PlaceAll(virtBase, physBase, free, placed);
  }
}
