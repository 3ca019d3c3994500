/** The gap sweep of sram_reserve_regions over the sorted block list, as a function of the
    blocks, the starting cursor and the pool's verdicts, with its properties. */
module GapSweep {
  import opened Errno
  import opened Spans

  /** What a sweep produced: its return code, the free chunks it handed to the pool (in order),
      and the cursor where it stopped. */
  datatype Outcome = Outcome(ret: int, free: seq<Span>, cursor: nat)

  /** The sweep from cursor `cur` over `blocks` in list order, with `held` chunks already in the
      pool. A block below the cursor is an overlap (-EINVAL); a block at the cursor only moves
      it past the block; a block above the cursor first hands the gap before it to the pool,
      which may refuse it (-ENOMEM). Each error ends the sweep, keeping the chunks added so far. */
  function Sweep(blocks: seq<Span>, cur: nat, canAdd: nat -> bool, held: nat): (r: Outcome)
    ensures cur <= r.cursor
    decreases |blocks|
  {
    if blocks == [] then Outcome(0, [], cur)
    else
      var b := blocks[0];
      if b.start < cur then Outcome(-EINVAL, [], cur)
      else if b.start == cur then Sweep(blocks[1..], b.End(), canAdd, held)
      else if !canAdd(held) then Outcome(-ENOMEM, [], cur)
      else
        Then([Span(cur, b.start - cur)], Sweep(blocks[1..], b.End(), canAdd, held + 1))
  }

  /** The sweep returns 0, -EINVAL or -ENOMEM, and nothing else. */
  lemma {:induction false} SweepReturnCodes(blocks: seq<Span>, cur: nat, canAdd: nat -> bool, held: nat)
    ensures var r := Sweep(blocks, cur, canAdd, held);
      r.ret == 0 || r.ret == -EINVAL || r.ret == -ENOMEM
    decreases |blocks|
  {
    if blocks != [] {
      var b := blocks[0];
      SweepReturnCodes(blocks[1..], b.End(), canAdd, if b.start == cur then held else held + 1);
    }
  }

  /** An outcome that follows the chunks `free` already handed out. */
  function Then(free: seq<Span>, o: Outcome): Outcome {
    Outcome(o.ret, free + o.free, o.cursor)
  }

  lemma ThenThen(a: seq<Span>, b: seq<Span>, o: Outcome)
    ensures Then(a, Then(b, o)) == Then(a + b, o)
  {
    assert a + (b + o.free) == (a + b) + o.free;
  }

  /** Sweeping `a + b` is sweeping `a` and, only if that succeeded, going on with `b` from where
      it stopped: an error returns at once, later blocks are never looked at, and the chunks
      added before the error stay added. */
  predicate SweepsInSequence(a: seq<Span>, b: seq<Span>, cur: nat, canAdd: nat -> bool, held: nat) {
    var ra := Sweep(a, cur, canAdd, held);
    Sweep(a + b, cur, canAdd, held) ==
      if ra.ret != 0 then ra else Then(ra.free, Sweep(b, ra.cursor, canAdd, held + |ra.free|))
  }

  lemma {:induction false} SweepConcat(a: seq<Span>, b: seq<Span>, cur: nat, canAdd: nat -> bool, held: nat)
    ensures SweepsInSequence(a, b, cur, canAdd, held)
    decreases |a|
  {
    if a == [] {
      assert a + b == b;
      assert [] + Sweep(b, cur, canAdd, held).free == Sweep(b, cur, canAdd, held).free;
    } else {
      var x, a' := a[0], a[1..];
      assert a == [x] + a';
      if cur <= x.start {
        SweepConcat(a', b, x.End(), canAdd, if x.start == cur then held else held + 1);
      }
      SweepConcatCons(x, a', b, cur, canAdd, held);
    }
  }

  /** The inductive step of SweepConcat, at the first block of `a`. */
  lemma SweepConcatCons(x: Span, a: seq<Span>, b: seq<Span>, cur: nat, canAdd: nat -> bool, held: nat)
    requires cur <= x.start ==> SweepsInSequence(a, b, x.End(), canAdd, if x.start == cur then held else held + 1)
    ensures SweepsInSequence([x] + a, b, cur, canAdd, held)
  {
    assert ([x] + a) + b == [x] + (a + b);
    SweepCons(x, a, cur, canAdd, held);
    SweepCons(x, a + b, cur, canAdd, held);
    if cur < x.start && canAdd(held) {
      ConcatAfterGap(Span(cur, x.start - cur), Sweep(a, x.End(), canAdd, held + 1),
                     Sweep(a + b, x.End(), canAdd, held + 1), b, canAdd, held);
    }
  }

  /** One step of the sweep, at the first block of the list. */
  lemma SweepCons(x: Span, rest: seq<Span>, cur: nat, canAdd: nat -> bool, held: nat)
    ensures Sweep([x] + rest, cur, canAdd, held) ==
      if x.start < cur then Outcome(-EINVAL, [], cur)
      else if x.start == cur then Sweep(rest, x.End(), canAdd, held)
      else if !canAdd(held) then Outcome(-ENOMEM, [], cur)
      else Then([Span(cur, x.start - cur)], Sweep(rest, x.End(), canAdd, held + 1))
  {
    assert ([x] + rest)[0] == x && ([x] + rest)[1..] == rest;
  }

  /** The step of SweepConcat past a gap `g`: prefixing both sweeps with the same chunk keeps the
      relation between them. */
  lemma ConcatAfterGap(g: Span, ra: Outcome, rab: Outcome, b: seq<Span>, canAdd: nat -> bool, held: nat)
    requires rab == if ra.ret != 0 then ra else Then(ra.free, Sweep(b, ra.cursor, canAdd, held + 1 + |ra.free|))
    ensures var ra1 := Then([g], ra);
      Then([g], rab) ==
        if ra1.ret != 0 then ra1 else Then(ra1.free, Sweep(b, ra1.cursor, canAdd, held + |ra1.free|))
  {
    if ra.ret == 0 {
      var rb := Sweep(b, ra.cursor, canAdd, held + 1 + |ra.free|);
      assert |[g] + ra.free| == 1 + |ra.free|;
      ThenThen([g], ra.free, rb);
    }
  }

  /** Whatever the outcome, the chunks handed out are non-empty, in ascending order, each one
      ending at or before the next begins, and they lie between `cur` and the final cursor. */
  lemma {:induction false} SweepChunksInOrder(blocks: seq<Span>, cur: nat, canAdd: nat -> bool, held: nat)
    ensures var r := Sweep(blocks, cur, canAdd, held);
      && Separated(cur, r.free) && PositiveSizes(r.free)
      && (r.free != [] ==> r.free[|r.free| - 1].End() <= r.cursor)
    decreases |blocks|
  {
    if blocks != [] {
      var b := blocks[0];
      if b.start == cur {
        SweepChunksInOrder(blocks[1..], b.End(), canAdd, held);
      } else if cur < b.start && canAdd(held) {
        SweepChunksInOrder(blocks[1..], b.End(), canAdd, held + 1);
        var rest := Sweep(blocks[1..], b.End(), canAdd, held + 1);
        var g := Span(cur, b.start - cur);
        assert Sweep(blocks, cur, canAdd, held).free == [g] + rest.free;
        assert ([g] + rest.free)[1..] == rest.free;
      }
    }
  }

  /** A successful sweep stops at the end of the last block. */
  lemma {:induction false} SweepFinalCursor(blocks: seq<Span>, cur: nat, canAdd: nat -> bool, held: nat)
    requires Sweep(blocks, cur, canAdd, held).ret == 0
    ensures Sweep(blocks, cur, canAdd, held).cursor == if blocks == [] then cur else blocks[|blocks| - 1].End()
    decreases |blocks|
  {
    if blocks != [] {
      var b := blocks[0];
      SweepFinalCursor(blocks[1..], b.End(), canAdd, if b.start == cur then held else held + 1);
    }
  }

  /** What one more block does to a sweep that has succeeded so far: a block below the cursor
      is an overlap and returns -EINVAL; a block at the cursor adds no chunk and moves the
      cursor past it; a block above the cursor adds exactly the gap before it, unless the pool
      refuses the chunk (-ENOMEM), and then moves the cursor past it. On an error the chunks
      already added are kept. */
  lemma SweepExtend(a: seq<Span>, b: Span, cur: nat, canAdd: nat -> bool, held: nat)
    requires Sweep(a, cur, canAdd, held).ret == 0
    ensures var ra := Sweep(a, cur, canAdd, held);
      Sweep(a + [b], cur, canAdd, held) ==
        if b.start < ra.cursor then Outcome(-EINVAL, ra.free, ra.cursor)
        else if b.start == ra.cursor then Outcome(0, ra.free, b.End())
        else if !canAdd(held + |ra.free|) then Outcome(-ENOMEM, ra.free, ra.cursor)
        else Outcome(0, ra.free + [Span(ra.cursor, b.start - ra.cursor)], b.End())
  {
    var ra := Sweep(a, cur, canAdd, held);
    SweepConcat(a, [b], cur, canAdd, held);
    assert [b] == [b] + [];
    SweepCons(b, [], ra.cursor, canAdd, held + |ra.free|);
    assert ra.free + [] == ra.free;
  }

  /** A successful sweep saw the blocks laid out one after the other from `cur`. */
  lemma {:induction false} SweepOkSeparated(blocks: seq<Span>, cur: nat, canAdd: nat -> bool, held: nat)
    requires Sweep(blocks, cur, canAdd, held).ret == 0
    ensures Separated(cur, blocks)
    decreases |blocks|
  {
    if blocks != [] {
      var b := blocks[0];
      SweepOkSeparated(blocks[1..], b.End(), canAdd, if b.start == cur then held else held + 1);
    }
  }

  /** Blocks laid out one after the other from `cur` are never reported as overlapping. */
  lemma {:induction false} SweepSeparatedNoOverlap(blocks: seq<Span>, cur: nat, canAdd: nat -> bool, held: nat)
    requires Separated(cur, blocks)
    ensures Sweep(blocks, cur, canAdd, held).ret != -EINVAL
    decreases |blocks|
  {
    if blocks != [] {
      var b := blocks[0];
      SweepSeparatedNoOverlap(blocks[1..], b.End(), canAdd, if b.start == cur then held else held + 1);
    }
  }

  /** A pool that accepts every chunk never makes the sweep fail with -ENOMEM. */
  lemma {:induction false} SweepPoolAccepts(blocks: seq<Span>, cur: nat, canAdd: nat -> bool, held: nat)
    requires forall n :: canAdd(n)
    ensures Sweep(blocks, cur, canAdd, held).ret != -ENOMEM
    decreases |blocks|
  {
    if blocks != [] {
      var b := blocks[0];
      if b.start >= cur {
        SweepPoolAccepts(blocks[1..], b.End(), canAdd, if b.start == cur then held else held + 1);
      }
    }
  }

  /** The cursor advances by exactly the gaps handed out plus the blocks stepped over. */
  lemma {:induction false} SweepTiles(blocks: seq<Span>, cur: nat, canAdd: nat -> bool, held: nat)
    requires Sweep(blocks, cur, canAdd, held).ret == 0
    ensures var r := Sweep(blocks, cur, canAdd, held);
      r.cursor == cur + SumSizes(r.free) + SumSizes(blocks)
    decreases |blocks|
  {
    if blocks != [] {
      var b := blocks[0];
      SweepTiles(blocks[1..], b.End(), canAdd, if b.start == cur then held else held + 1);
    }
  }

  /** After a successful sweep, an offset between `cur` and the final cursor lies in a free chunk
      exactly when it lies in no block: the chunks are the complement of the blocks. */
  lemma {:induction false} SweepCoverage(blocks: seq<Span>, cur: nat, canAdd: nat -> bool, held: nat, x: int)
    requires Sweep(blocks, cur, canAdd, held).ret == 0
    requires cur <= x < Sweep(blocks, cur, canAdd, held).cursor
    ensures Covers(Sweep(blocks, cur, canAdd, held).free, x) <==> !Covers(blocks, x)
    decreases |blocks|
  {
    var r := Sweep(blocks, cur, canAdd, held);
    var b := blocks[0];
    var tail := blocks[1..];
    var h' := if b.start == cur then held else held + 1;
    var rest := Sweep(tail, b.End(), canAdd, h');
    assert blocks == [b] + tail;
    SweepOkSeparated(tail, b.End(), canAdd, h');
    SweepChunksInOrder(tail, b.End(), canAdd, h');
    // Nothing after the first block reaches below its end.
    assert forall y :: y in tail ==> b.End() <= y.start by {
      forall y | y in tail ensures b.End() <= y.start {
        SeparatedAbove(b.End(), tail, y);
      }
    }
    assert forall y :: y in rest.free ==> b.End() <= y.start by {
      forall y | y in rest.free ensures b.End() <= y.start {
        SeparatedAbove(b.End(), rest.free, y);
      }
    }
    if x < b.End() {
      if b.start == cur {
        assert b.Holds(x);
      } else if x < b.start {
        assert r.free[0].Holds(x);
        assert forall y :: y in blocks ==> !y.Holds(x);
      } else {
        assert b.Holds(x);
        assert r.free == [r.free[0]] + rest.free;
      }
    } else {
      SweepCoverage(tail, b.End(), canAdd, h', x);
      if b.start != cur {
        assert r.free == [Span(cur, b.start - cur)] + rest.free;
      }
    }
  }
}
