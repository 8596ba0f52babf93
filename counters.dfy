/**
  The causal counter and the enable-wins flag of the server's generic CRDT
  package. Their source is not part of this model; their behaviour is pinned
  by src/server/crdt/generic/ccounter_test.go and ewflag_test.go, and they
  are modelled as thin layers over the dot kernel:

  - a counter adds one dot per `Inc(n)` (value `n`) or `Dec(n)` (value
    `-n`) and reads the sum of its stored values;
  - a flag is enabled by resetting and adding one `true` dot, disabled by a
    reset, and reads whether any `true` is stored.

  The value-level definitions replay the test scenarios; the class
  `CCounter` is the object a shopping item holds.
 */
module Counters {
  import opened Dots
  import opened DotContexts
  import opened DotKernels

  /** A kernel with nothing in it: `NewCCounter` / `NewEWFlag`. */
  function Empty<U>(): (k: Kernel<string, U>)
    ensures WellFormed(k) && k.values == map[]
  {
    Kernel(map[], {})
  }

  // ---------------------------------------------------------------------
  // Counter: the value read is the sum of the stored values
  // ---------------------------------------------------------------------

  ghost function Sum<T>(m: map<Dot<T>, int>): int
    decreases |m|
  {
    if m == map[] then 0
    else
      var x :| x in m;
      assert |m - {x}| < |m| by {
        assert (m - {x}).Keys == m.Keys - {x};
      }
      m[x] + Sum(m - {x})
  }

  /** The sum does not depend on which entry is taken first. */
  lemma {:induction false} SumRemove<T>(m: map<Dot<T>, int>, y: Dot<T>)
    requires y in m
    ensures Sum(m) == m[y] + Sum(m - {y})
    decreases |m|
  {
    var x :| x in m && Sum(m) == m[x] + Sum(m - {x});
    if x != y {
      assert (m - {x}).Keys == m.Keys - {x};
      assert (m - {y}).Keys == m.Keys - {y};
      SumRemove(m - {x}, y);
      SumRemove(m - {y}, x);
      assert m - {x} - {y} == m - {y} - {x};
    }
  }

  /** Storing a value under a new dot adds it to the sum. */
  lemma SumInsert<T>(m: map<Dot<T>, int>, d: Dot<T>, n: int)
    requires d !in m
    ensures Sum(m[d := n]) == Sum(m) + n
  {
    SumRemove(m[d := n], d);
    assert m[d := n] - {d} == m;
  }

  /** Splitting one entry off a map and putting it back gives the map again. */
  lemma SplitEntry<T>(a: map<Dot<T>, int>, b: map<Dot<T>, int>, x: Dot<T>)
    requires a.Keys !! b.Keys && x in a
    ensures |a - {x}| < |a|
    ensures (a - {x}).Keys !! b.Keys && x !in a - {x} && x !in (a - {x}) + b
    ensures a == (a - {x})[x := a[x]]
    ensures a + b == ((a - {x}) + b)[x := a[x]]
  {
    assert (a - {x}).Keys == a.Keys - {x};
    PutBack(a, x);
    PutBackUnion(a, b, x);
  }

  lemma PutBackUnion<T>(a: map<Dot<T>, int>, b: map<Dot<T>, int>, x: Dot<T>)
    requires a.Keys !! b.Keys && x in a
    ensures a + b == ((a - {x}) + b)[x := a[x]]
  {
    PutBack(a + b, x);
    assert (a + b) - {x} == (a - {x}) + b;
  }

  lemma PutBack<T>(a: map<Dot<T>, int>, x: Dot<T>)
    requires x in a
    ensures a == (a - {x})[x := a[x]]
  {
    assert a.Keys == (a - {x})[x := a[x]].Keys;
  }

  /** The sum of two maps with no key in common. */
  lemma {:induction false} SumDisjointUnion<T>(a: map<Dot<T>, int>, b: map<Dot<T>, int>)
    requires a.Keys !! b.Keys
    ensures Sum(a + b) == Sum(a) + Sum(b)
    decreases |a|
  {
    if a == map[] {
      assert a + b == b;
    } else {
      var x :| x in a;
      SplitEntry(a, b, x);
      SumDisjointUnion(a - {x}, b);
      SumInsert(a - {x}, x, a[x]);
      SumInsert((a - {x}) + b, x, a[x]);
    }
  }

  /** `Inc(n)` / `Dec(n)`: the read value moves by exactly the amount added. */
  lemma ReadAfterAdd(k: Kernel<string, int>, r: string, n: int)
    requires WellFormed(k)
    ensures Sum(AddState(k, r, n).values) == Sum(k.values) + n
  {
    SumInsert(k.values, NextDot(k.ctx, r), n);
  }

  /** After `Reset` the counter reads 0; its delta carries no values. */
  lemma ReadAfterReset(k: Kernel<string, int>)
    ensures Sum(ResetState(k).values) == 0
    ensures Sum(ResetDelta(k).values) == 0
  {
  }

  /**
    Joining replicas that have seen none of each other's dots adds their
    reads, as in the concurrent-update and join tests.
   */
  lemma ReadOfIndependentMerge(a: Kernel<string, int>, b: Kernel<string, int>)
    requires WellFormed(a) && WellFormed(b)
    requires a.ctx !! b.ctx
    ensures Sum(Merged(a, b).values) == Sum(a.values) + Sum(b.values)
  {
    assert Unseen(a.values, b.ctx) == a.values;
    assert Unseen(b.values, a.ctx) == b.values;
    SumDisjointUnion(a.values, b.values);
  }

  /** ccounter_test.go, `TestCCounter_Inc`: reads 5, and the delta rebuilds the state in a clone. */
  lemma CCounterIncScenario()
    ensures var k := AddState(Empty(), "node1", 5);
            Sum(k.values) == 5 && Merged(Empty(), AddDelta(Empty(), "node1", 5)) == k
  {
    ReadAfterAdd(Empty(), "node1", 5);
    AddDeltaReproducesState(Empty<int>(), "node1", 5);
  }

  /** `TestCCounter_IncDec` and `TestCCounter_IncDecToZero`. */
  lemma CCounterIncDecScenario()
    ensures Sum(AddState(AddState(Empty(), "node1", 10), "node1", -4).values) == 6
    ensures Sum(AddState(AddState(Empty(), "node1", 7), "node1", -7).values) == 0
  {
    ReadAfterAdd(Empty(), "node1", 10);
    ReadAfterAdd(AddState(Empty(), "node1", 10), "node1", -4);
    ReadAfterAdd(Empty(), "node1", 7);
    ReadAfterAdd(AddState(Empty(), "node1", 7), "node1", -7);
  }

  /** `TestCCounter_ConcurrentUpdates`: both replicas read 15 after exchanging deltas. */
  lemma CCounterConcurrentScenario()
    ensures var c1 := AddState(Empty(), "node1", 5);
            var c2 := AddState(Empty(), "node2", 10);
            Sum(Merged(c1, AddDelta(Empty(), "node2", 10)).values) == 15
            && Sum(Merged(c2, AddDelta(Empty(), "node1", 5)).values) == 15
  {
    var c1 := AddState(Empty(), "node1", 5);
    var c2 := AddState(Empty(), "node2", 10);
    assert c1.ctx == {Dot("node1", 1)} && c2.ctx == {Dot("node2", 1)};
    ReadAfterAdd(Empty(), "node1", 5);
    ReadAfterAdd(Empty(), "node2", 10);
    assert AddDelta(Empty<int>(), "node2", 10) == c2;
    assert AddDelta(Empty<int>(), "node1", 5) == c1;
    ReadOfIndependentMerge(c1, c2);
    ReadOfIndependentMerge(c2, c1);
  }

  // ---------------------------------------------------------------------
  // Enable-wins flag
  // ---------------------------------------------------------------------

  predicate Read(k: Kernel<string, bool>)
  {
    true in k.values.Values
  }

  function EnableState(k: Kernel<string, bool>, r: string): Kernel<string, bool>
  {
    AddState(ResetState(k), r, true)
  }

  /** The delta of `Enable`: the reset's tombstones joined with the new dot. */
  function EnableDelta(k: Kernel<string, bool>, r: string): Kernel<string, bool>
  {
    Merged(ResetDelta(k), AddDelta(ResetState(k), r, true))
  }

  /** An enabled flag reads true; a disabled (reset) flag reads false. */
  lemma EnableDisableRead(k: Kernel<string, bool>, r: string)
    ensures Read(EnableState(k, r))
    ensures !Read(ResetState(k))
  {
    var d := NextDot(k.ctx, r);
    assert EnableState(k, r).values[d] == true;
  }

  /** The delta of `Enable`, joined into the state it came from, reproduces the new state. */
  lemma EnableDeltaReproducesState(k: Kernel<string, bool>, r: string)
    requires WellFormed(k)
    ensures Merged(k, EnableDelta(k, r)) == EnableState(k, r)
  {
    var d := NextDot(k.ctx, r);
    var delta := EnableDelta(k, r);
    assert d !in k.values.Keys;
    assert delta.values == map[d := true];
    assert delta.ctx == k.values.Keys + {d};
    var m := Merged(k, delta);
    assert m.values == map[d := true];
  }

  /** `TestEWFlag_EnableAndRead`: a replica that receives the enable delta reads true. */
  lemma EWFlagEnableScenario()
    ensures Read(Merged(Empty(), EnableDelta(Empty(), "node1")))
  {
    var d := Dot("node1", 1);
    assert EnableDelta(Empty(), "node1") == Kernel(map[d := true], {d});
    assert Merged(Empty(), Kernel(map[d := true], {d})).values == map[d := true];
  }

  /** `TestEWFlag_Commutativity`: the two orders of applying two enables agree. */
  lemma EWFlagCommutativityScenario()
    ensures var d1 := EnableDelta(Empty(), "node1");
            var d2 := EnableDelta(Empty(), "node2");
            Merged(Merged(Empty(), d1), d2) == Merged(Merged(Empty(), d2), d1)
            && Read(Merged(Merged(Empty(), d1), d2))
  {
    var a := Dot("node1", 1);
    var b := Dot("node2", 1);
    assert EnableDelta(Empty(), "node1") == Kernel(map[a := true], {a});
    assert EnableDelta(Empty(), "node2") == Kernel(map[b := true], {b});
    var e: Kernel<string, bool> := Empty();
    assert Merged(e, Kernel(map[a := true], {a})) == Kernel(map[a := true], {a});
    assert Merged(e, Kernel(map[b := true], {b})) == Kernel(map[b := true], {b});
    var m1 := Merged(Kernel(map[a := true], {a}), Kernel(map[b := true], {b}));
    var m2 := Merged(Kernel(map[b := true], {b}), Kernel(map[a := true], {a}));
    assert m1.values == map[a := true, b := true] == m2.values;
    assert m1.values[a];
  }

  /**
    `TestEWFlag_Idempotence` as the kernel merge is coded: applying the same
    enable delta twice leaves the replica disabled.
   */
  lemma EWFlagRejoinDisables()
    ensures var delta := EnableDelta(Empty(), "node1");
            !Read(Merged(Merged(Empty(), delta), delta))
  {
    var d := Dot("node1", 1);
    var delta := Kernel(map[d := true], {d});
    assert EnableDelta(Empty(), "node1") == delta;
    assert Merged(Empty(), delta) == delta;
    MergeWithCopyEmpties(delta);
  }

  /** The same scenario under the canonical join keeps the flag enabled. */
  lemma EWFlagRejoinCanonical()
    ensures var delta := EnableDelta(Empty(), "node1");
            Read(CanonicalMerge(CanonicalMerge(Empty(), delta), delta))
  {
    var d := Dot("node1", 1);
    var delta := Kernel(map[d := true], {d});
    assert EnableDelta(Empty(), "node1") == delta;
    assert CanonicalMerge(Empty(), delta) == delta;
    CanonicalMergeIdempotent(delta);
    assert delta.values[d];
  }

  // ---------------------------------------------------------------------
  // The counter object a shopping item holds
  // ---------------------------------------------------------------------

  class CCounter {
    const id: string
    var kernel: DotKernel<string, int>

    ghost function State(): Kernel<string, int>
      reads this, kernel, kernel.dotContext
    {
      kernel.State()
    }

    /** `NewCCounter(id)`: reads 0, with its own fresh context. */
    constructor (id: string)
      ensures this.id == id
      ensures fresh(kernel) && fresh(kernel.dotContext)
      ensures State() == Empty()
    {
      this.id := id;
      kernel := new DotKernel();
    }

    /** Makes the counter record its dots in `ctx`, which may be shared. */
    method SetContext(ctx: DotContext<string>)
      modifies kernel
      ensures kernel.dotContext == ctx && kernel.dotValues == old(kernel.dotValues)
    {
      kernel.dotContext := ctx;
    }

    method Inc(n: int) returns (delta: CCounter)
      modifies kernel, kernel.dotContext
      ensures kernel.dotContext == old(kernel.dotContext)
      ensures State() == AddState(old(State()), id, n)
      ensures fresh(delta) && fresh(delta.kernel) && fresh(delta.kernel.dotContext)
      ensures delta.id == id && delta.State() == AddDelta(old(State()), id, n)
    {
      var k := kernel.Add(id, n);
      delta := new CCounter(id);
      delta.kernel := k;
    }

    method Dec(n: int) returns (delta: CCounter)
      modifies kernel, kernel.dotContext
      ensures kernel.dotContext == old(kernel.dotContext)
      ensures State() == AddState(old(State()), id, -n)
      ensures fresh(delta) && fresh(delta.kernel) && fresh(delta.kernel.dotContext)
      ensures delta.id == id && delta.State() == AddDelta(old(State()), id, -n)
    {
      var k := kernel.Add(id, -n);
      delta := new CCounter(id);
      delta.kernel := k;
    }

    method Reset() returns (delta: CCounter)
      modifies kernel
      ensures kernel.dotContext == old(kernel.dotContext)
      ensures State() == ResetState(old(State()))
      ensures fresh(delta) && fresh(delta.kernel) && fresh(delta.kernel.dotContext)
      ensures delta.id == id && delta.State() == ResetDelta(old(State()))
    {
      var k := kernel.Reset();
      delta := new CCounter(id);
      delta.kernel := k;
    }

    method Join(other: CCounter)
      modifies kernel, kernel.dotContext
      ensures kernel.dotContext == old(kernel.dotContext)
      ensures State() == Merged(old(State()), old(other.State()))
    {
      kernel.Merge(other.kernel);
    }
  }
}
