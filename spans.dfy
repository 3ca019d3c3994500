/** Kernel error numbers; functions return them negated, as the driver does. */
module Errno {
  const EINVAL: int := 22
  const ENOMEM: int := 12
}

/** Byte ranges relative to the start of the SRAM region (reserved blocks and free chunks)
    and the facts about them that the partitioner relies on. */
module Spans {

  /** The offsets [start, start + size) from the start of the region. */
  datatype Span = Span(start: nat, size: nat) {
    function End(): nat { start + size }
    predicate Holds(x: int) { start <= x < start + size }
  }

  /** Each of the two spans begins before the other one ends. For spans of positive size this
      means they share a byte; a zero-size span overlaps a span it lies strictly inside. */
  predicate Overlap(a: Span, b: Span) {
    a.start < b.End() && b.start < a.End()
  }

  /** Read in order from offset `cur`, every span begins at or after the end of the one before it. */
  predicate Separated(cur: int, s: seq<Span>)
    decreases |s|
  {
    s == [] || (cur <= s[0].start && Separated(s[0].End(), s[1..]))
  }

  /** No two spans of `s` (at different positions) overlap. */
  predicate Disjoint(s: seq<Span>)
    decreases |s|
  {
    s == [] || ((forall y :: y in s[1..] ==> !Overlap(s[0], y)) && Disjoint(s[1..]))
  }

  predicate PositiveSizes(s: seq<Span>) {
    forall y :: y in s ==> y.size > 0
  }

  /** Some span of `s` holds offset `x`. */
  predicate Covers(s: seq<Span>, x: int) {
    exists y :: y in s && y.Holds(x)
  }

  function SumSizes(s: seq<Span>): nat
    decreases |s|
  {
    if s == [] then 0 else s[0].size + SumSizes(s[1..])
  }

  lemma {:induction false} SeparatedAbove(cur: int, s: seq<Span>, y: Span)
    requires Separated(cur, s) && y in s
    ensures cur <= y.start
    decreases |s|
  {
    if y != s[0] {
      assert s == [s[0]] + s[1..];
      SeparatedAbove(s[0].End(), s[1..], y);
    }
  }

  /** Spans laid out one after the other are pairwise disjoint. */
  lemma {:induction false} SeparatedDisjoint(cur: int, s: seq<Span>)
    requires Separated(cur, s)
    ensures Disjoint(s)
    decreases |s|
  {
    if s != [] {
      forall y | y in s[1..]
        ensures !Overlap(s[0], y)
      {
        SeparatedAbove(s[0].End(), s[1..], y);
      }
      SeparatedDisjoint(s[0].End(), s[1..]);
    }
  }

  lemma {:induction false} DisjointAt(s: seq<Span>, i: int, j: int)
    requires Disjoint(s) && 0 <= i < j < |s|
    ensures !Overlap(s[i], s[j])
    decreases |s|
  {
    if i == 0 {
      assert s[1..][j - 1] == s[j];
    } else {
      DisjointAt(s[1..], i - 1, j - 1);
    }
  }

  lemma {:induction false} DisjointSnoc(a: seq<Span>, x: Span)
    ensures Disjoint(a + [x]) <==> Disjoint(a) && forall y :: y in a ==> !Overlap(x, y)
    decreases |a|
  {
    if a != [] {
      var t := a[1..];
      assert (a + [x])[0] == a[0] && (a + [x])[1..] == t + [x];
      assert a == [a[0]] + t;
      DisjointSnoc(t, x);
      assert x in t + [x];
      assert forall y :: y in t ==> y in t + [x];
      assert Overlap(x, a[0]) <==> Overlap(a[0], x);
    }
  }

  /** A span that starts at or after the end of the last one extends a separated layout. */
  lemma {:induction false} SeparatedSnoc(cur: int, s: seq<Span>, x: Span)
    requires Separated(cur, s)
    requires if s == [] then cur <= x.start else s[|s| - 1].End() <= x.start
    ensures Separated(cur, s + [x])
    decreases |s|
  {
    if s == [] {
      assert ([x])[1..] == [];
    } else {
      assert (s + [x])[0] == s[0] && (s + [x])[1..] == s[1..] + [x];
      SeparatedSnoc(s[0].End(), s[1..], x);
    }
  }

  lemma {:induction false} SumSnoc(a: seq<Span>, x: Span)
    ensures SumSizes(a + [x]) == SumSizes(a) + x.size
    decreases |a|
  {
    if a != [] {
      assert (a + [x])[1..] == a[1..] + [x];
      SumSnoc(a[1..], x);
    }
  }
}
