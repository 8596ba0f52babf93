/**
  The causal context a dot kernel consults. Its source is not part of this
  model; what the kernels, maps and shopping types rely on is modelled here
  by its meaning: the set of dots observed so far. The base-plus-exceptions
  encoding and compaction only change how that set is stored, so `Compact`
  and the compacting variants of insertion leave the set as it is.

  The same abstraction stands for the client's `DotContext`, whose
  `knows`, `insertDot`, `join`, `compact` and `clone` are `In`,
  `InsertDot`, `Join`, `Compact` and `Clone` below.
 */
module DotContexts {
  import opened Dots

  /** The dots of replica `r` numbered `n` or more: the measure of the search below. */
  function DotsFrom<T(==)>(dots: set<Dot<T>>, r: T, n: int): set<Dot<T>>
  {
    set d | d in dots && d.id == r && d.seqNo >= n
  }

  /**
    The first sequence number from `n` on that replica `r` has not used:
    every number from `n` up to it is already observed.
   */
  function FreshFrom<T(==)>(dots: set<Dot<T>>, r: T, n: int): (m: int)
    ensures m >= n
    ensures Dot(r, m) !in dots
    ensures forall k :: n <= k < m ==> Dot(r, k) in dots
    decreases |DotsFrom(dots, r, n)|
  {
    if Dot(r, n) in dots then
      assert DotsFrom(dots, r, n) == DotsFrom(dots, r, n + 1) + {Dot(r, n)};
      FreshFrom(dots, r, n + 1)
    else n
  }

  /**
    The sequence number `MakeDot(r)` issues: the least positive number not
    yet observed for `r`. In a compacted context this is `base + 1`.
   */
  function NextSeq<T(==)>(dots: set<Dot<T>>, r: T): (n: int)
    ensures n >= 1 && Dot(r, n) !in dots
    ensures forall k :: 1 <= k < n ==> Dot(r, k) in dots
  {
    FreshFrom(dots, r, 1)
  }

  /** The dot `MakeDot(r)` issues. */
  function NextDot<T(==)>(dots: set<Dot<T>>, r: T): Dot<T>
  {
    Dot(r, NextSeq(dots, r))
  }

  /** A causal context, updated in place and shared by reference. */
  class DotContext<T(==)> {
    var dots: set<Dot<T>>

    /** `NewDotContext`. */
    constructor ()
      ensures dots == {}
    {
      dots := {};
    }

    /** Causal membership. */
    predicate In(d: Dot<T>)
      reads this
    {
      d in dots
    }

    /** Issues a dot of replica `r` that was not observed before and records it. */
    method MakeDot(r: T) returns (d: Dot<T>)
      modifies this
      ensures d == NextDot(old(dots), r)
      ensures d.id == r && d !in old(dots)
      ensures dots == old(dots) + {d}
    {
      d := Dot(r, NextSeq(dots, r));
      dots := dots + {d};
    }

    method InsertDot(d: Dot<T>)
      modifies this
      ensures dots == old(dots) + {d}
    {
      dots := dots + {d};
    }

    /** Insertion that postpones compaction; the observed set is the same. */
    method InsertDotCompact(d: Dot<T>, compactNow: bool)
      modifies this
      ensures dots == old(dots) + {d}
    {
      dots := dots + {d};
    }

    /** Normalises the encoding; the observed set does not change. */
    method Compact()
      modifies this
      ensures dots == old(dots)
    {
    }

    /** `Join` (`Merge` in the kernel's package): union of observed dots. */
    method Join(other: DotContext<T>)
      modifies this
      ensures dots == old(dots) + old(other.dots)
    {
      dots := dots + other.dots;
    }

    method Clone() returns (c: DotContext<T>)
      ensures fresh(c) && c.dots == dots
    {
      c := new DotContext();
      c.dots := dots;
    }

    /** Overwrites this context with a snapshot, in place. */
    method Copy(other: DotContext<T>)
      modifies this
      ensures dots == old(other.dots)
    {
      dots := other.dots;
    }
  }
}
