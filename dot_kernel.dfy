/**
  The server's dot kernel (src/server/crdt/dot_kernel.go): a map from dots
  to values plus a causal context. Every mutator changes the local map in
  place and hands back a delta kernel; `Merge` folds another kernel in.

  The value-level functions below say what each operation computes; the
  class `DotKernel` runs the source's loops and is proved to compute them;
  the lemmas state what the kernel promises its users.
 */
module DotKernels {
  import opened Dots
  import opened DotContexts

  /** The observable state of a kernel: its stored values and its context. */
  datatype Kernel<T(==), U> = Kernel(values: map<Dot<T>, U>, ctx: set<Dot<T>>)

  /** The kernel invariant: a value is stored only under an observed dot. */
  predicate WellFormed<T(==), U>(k: Kernel<T, U>)
  {
    k.values.Keys <= k.ctx
  }

  // ---------------------------------------------------------------------
  // What each operation computes: the new local state and the delta
  // ---------------------------------------------------------------------

  /** The state after `DotAdd(r, v)` (and after `Add(r, v)`). */
  function AddState<T(==), U>(k: Kernel<T, U>, r: T, v: U): Kernel<T, U>
  {
    var d := NextDot(k.ctx, r);
    Kernel(k.values[d := v], k.ctx + {d})
  }

  /** The delta `Add(r, v)` returns: the new entry and nothing else. */
  function AddDelta<T(==), U>(k: Kernel<T, U>, r: T, v: U): Kernel<T, U>
  {
    var d := NextDot(k.ctx, r);
    Kernel(map[d := v], {d})
  }

  function RemoveDotState<T(==), U>(k: Kernel<T, U>, d: Dot<T>): Kernel<T, U>
  {
    Kernel(k.values - {d}, k.ctx)
  }

  /** A tombstone for `d` when it was held; an empty kernel otherwise. */
  function RemoveDotDelta<T(==), U>(k: Kernel<T, U>, d: Dot<T>): Kernel<T, U>
  {
    if d in k.values then Kernel(map[], {d}) else Kernel(map[], {})
  }

  function RemoveValueState<T(==), U(==)>(k: Kernel<T, U>, v: U): Kernel<T, U>
  {
    Kernel(map x | x in k.values && k.values[x] != v :: k.values[x], k.ctx)
  }

  /** Tombstones for exactly the dots that held `v`. */
  function RemoveValueDelta<T(==), U(==)>(k: Kernel<T, U>, v: U): Kernel<T, U>
  {
    Kernel(map[], set x | x in k.values && k.values[x] == v)
  }

  function ResetState<T(==), U>(k: Kernel<T, U>): Kernel<T, U>
  {
    Kernel(map[], k.ctx)
  }

  /** Tombstones for every dot held before the reset. */
  function ResetDelta<T(==), U>(k: Kernel<T, U>): Kernel<T, U>
  {
    Kernel(map[], k.values.Keys)
  }

  /** The entries of `vals` under dots that `ctx` has not observed. */
  function Unseen<T(==), U>(vals: map<Dot<T>, U>, ctx: set<Dot<T>>): map<Dot<T>, U>
  {
    map x | x in vals && x !in ctx :: vals[x]
  }

  /**
    `Merge` as coded: a local dot is dropped when `b`'s context holds it,
    even if `b` stores it too; a dot of `b` is taken when `a`'s context does
    not hold it; the contexts are united.
   */
  function Merged<T(==), U>(a: Kernel<T, U>, b: Kernel<T, U>): Kernel<T, U>
  {
    Kernel(Unseen(a.values, b.ctx) + Unseen(b.values, a.ctx), a.ctx + b.ctx)
  }

  // ---------------------------------------------------------------------
  // The invariant is kept
  // ---------------------------------------------------------------------

  lemma MutatorsKeepWellFormed<T, U>(k: Kernel<T, U>, r: T, v: U, d: Dot<T>)
    requires WellFormed(k)
    ensures WellFormed(AddState(k, r, v)) && WellFormed(AddDelta(k, r, v))
    ensures WellFormed(RemoveDotState(k, d)) && WellFormed(RemoveDotDelta(k, d))
    ensures WellFormed(RemoveValueState(k, v)) && WellFormed(RemoveValueDelta(k, v))
    ensures WellFormed(ResetState(k)) && WellFormed(ResetDelta(k))
  {
  }

  lemma MergeKeepsWellFormed<T, U>(a: Kernel<T, U>, b: Kernel<T, U>)
    requires WellFormed(a) && WellFormed(b)
    ensures WellFormed(Merged(a, b))
  {
  }

  /**
    The laws the coded merge does keep: the order of two merges does not
    matter, nor their grouping. (It is not idempotent: see below.)
   */
  lemma MergeCommutative<T, U>(a: Kernel<T, U>, b: Kernel<T, U>)
    requires WellFormed(a) && WellFormed(b)
    ensures Merged(a, b) == Merged(b, a)
  {
    assert Merged(a, b).values == Merged(b, a).values;
  }

  lemma MergeAssociative<T, U>(a: Kernel<T, U>, b: Kernel<T, U>, c: Kernel<T, U>)
    requires WellFormed(a) && WellFormed(b) && WellFormed(c)
    ensures Merged(Merged(a, b), c) == Merged(a, Merged(b, c))
  {
    var l := Merged(Merged(a, b), c).values;
    var r := Merged(a, Merged(b, c)).values;
    forall x
      ensures (x in l <==> x in r) && (x in l ==> l[x] == r[x])
    {
      MergeAssociativeAt(a, b, c, x);
    }
    MapExt(l, r);
  }

  /** Where an entry of a merge of well-formed kernels comes from: one side only. */
  lemma MergedEntry<T, U>(a: Kernel<T, U>, b: Kernel<T, U>, x: Dot<T>)
    requires WellFormed(a) && WellFormed(b)
    ensures x in Merged(a, b).values <==> (x in a.values && x !in b.ctx) || (x in b.values && x !in a.ctx)
    ensures x in Merged(a, b).values ==> Merged(a, b).values[x] == if x in a.values then a.values[x] else b.values[x]
  {
  }

  lemma MergeAssociativeAt<T, U>(a: Kernel<T, U>, b: Kernel<T, U>, c: Kernel<T, U>, x: Dot<T>)
    requires WellFormed(a) && WellFormed(b) && WellFormed(c)
    ensures var l, r := Merged(Merged(a, b), c).values, Merged(a, Merged(b, c)).values;
            (x in l <==> x in r) && (x in l ==> l[x] == r[x])
  {
    var ab, bc := Merged(a, b), Merged(b, c);
    MergeKeepsWellFormed(a, b);
    MergeKeepsWellFormed(b, c);
    MergedEntry(a, b, x);
    MergedEntry(b, c, x);
    MergedEntry(ab, c, x);
    MergedEntry(a, bc, x);
  }

  /** Two maps with the same keys and the same value at each key are equal. */
  lemma MapExt<K, V>(l: map<K, V>, r: map<K, V>)
    requires forall x :: (x in l <==> x in r) && (x in l ==> l[x] == r[x])
    ensures l == r
  {
  }

  // ---------------------------------------------------------------------
  // Each delta, merged into the state it was taken from, reproduces the
  // new state: the delta describes exactly the change
  // ---------------------------------------------------------------------

  lemma AddDeltaReproducesState<T, U>(k: Kernel<T, U>, r: T, v: U)
    requires WellFormed(k)
    ensures Merged(k, AddDelta(k, r, v)) == AddState(k, r, v)
  {
    var d := NextDot(k.ctx, r);
    var m := Merged(k, AddDelta(k, r, v));
    assert m.values == k.values[d := v];
  }

  lemma RemoveDotDeltaReproducesState<T, U>(k: Kernel<T, U>, d: Dot<T>)
    requires WellFormed(k)
    ensures Merged(k, RemoveDotDelta(k, d)) == RemoveDotState(k, d)
  {
    var m := Merged(k, RemoveDotDelta(k, d));
    assert m.values == k.values - {d};
  }

  lemma RemoveValueDeltaReproducesState<T, U>(k: Kernel<T, U>, v: U)
    requires WellFormed(k)
    ensures Merged(k, RemoveValueDelta(k, v)) == RemoveValueState(k, v)
  {
    var m := Merged(k, RemoveValueDelta(k, v));
    assert m.values == RemoveValueState(k, v).values;
  }

  lemma ResetDeltaReproducesState<T, U>(k: Kernel<T, U>)
    requires WellFormed(k)
    ensures Merged(k, ResetDelta(k)) == ResetState(k)
  {
    var m := Merged(k, ResetDelta(k));
    assert m.values == map[];
  }

  // ---------------------------------------------------------------------
  // Consequences of the merge rule
  // ---------------------------------------------------------------------

  /** Updates each side has not seen survive a merge. */
  lemma ConcurrentAddsSurvive<T, U>(a: Kernel<T, U>, b: Kernel<T, U>, ra: T, va: U, rb: T, vb: U)
    requires WellFormed(a) && WellFormed(b)
    requires NextDot(b.ctx, rb) !in a.ctx + {NextDot(a.ctx, ra)}
    requires NextDot(a.ctx, ra) !in b.ctx
    ensures var da := NextDot(a.ctx, ra);
            var db := NextDot(b.ctx, rb);
            var m := Merged(AddState(a, ra, va), AddDelta(b, rb, vb));
            da in m.values && m.values[da] == va && db in m.values && m.values[db] == vb
  {
  }

  /**
    A dot held by both sides is dropped: as coded, `Merge` keeps only what
    the other side has not observed, and a stored dot is always observed.
   */
  lemma MergeDropsSharedDots<T, U>(a: Kernel<T, U>, b: Kernel<T, U>, x: Dot<T>)
    requires WellFormed(a) && WellFormed(b)
    requires x in a.values && x in b.values
    ensures x !in Merged(a, b).values
  {
  }

  /** Merging a kernel with an identical copy empties its values. */
  lemma MergeWithCopyEmpties<T, U>(k: Kernel<T, U>)
    requires WellFormed(k)
    ensures Merged(k, k) == Kernel(map[], k.ctx)
  {
    assert Merged(k, k).values == map[];
  }

  /** So `Merge` is idempotent exactly on kernels that store nothing. */
  lemma MergeIdempotentIffEmpty<T, U>(k: Kernel<T, U>)
    requires WellFormed(k)
    ensures Merged(k, k) == k <==> k.values == map[]
  {
    MergeWithCopyEmpties(k);
  }

  // ---------------------------------------------------------------------
  // The dot-store join the rule evidently intends
  // ---------------------------------------------------------------------

  /**
    The canonical dot-store join: a local dot is dropped only when the other
    side has observed it AND no longer stores it.
   */
  function CanonicalMerge<T(==), U>(a: Kernel<T, U>, b: Kernel<T, U>): Kernel<T, U>
  {
    Kernel(
      (map x | x in a.values && (x !in b.ctx || x in b.values) :: a.values[x])
        + (map x | x in b.values && x !in a.ctx :: b.values[x]),
      a.ctx + b.ctx)
  }

  /** The two rules differ only on dots both sides store. */
  lemma MergeIsCanonicalWithoutSharedDots<T, U>(a: Kernel<T, U>, b: Kernel<T, U>)
    requires WellFormed(a) && WellFormed(b)
    ensures Merged(a, b).ctx == CanonicalMerge(a, b).ctx
    ensures Merged(a, b).values == CanonicalMerge(a, b).values - (a.values.Keys * b.values.Keys)
  {
    var m := Merged(a, b).values;
    var c := CanonicalMerge(a, b).values - (a.values.Keys * b.values.Keys);
    assert m.Keys == c.Keys;
  }

  lemma CanonicalMergeIdempotent<T, U>(k: Kernel<T, U>)
    requires WellFormed(k)
    ensures CanonicalMerge(k, k) == k
  {
    assert CanonicalMerge(k, k).values == k.values;
  }

  /** Replicas agree on the value of a dot both hold (a dot names one event). */
  predicate Agree<T(==), U(==)>(a: Kernel<T, U>, b: Kernel<T, U>)
  {
    forall x :: x in a.values && x in b.values ==> a.values[x] == b.values[x]
  }

  lemma CanonicalMergeCommutative<T, U>(a: Kernel<T, U>, b: Kernel<T, U>)
    requires WellFormed(a) && WellFormed(b) && Agree(a, b)
    ensures CanonicalMerge(a, b) == CanonicalMerge(b, a)
  {
    var ab := CanonicalMerge(a, b).values;
    var ba := CanonicalMerge(b, a).values;
    assert ab.Keys == ba.Keys;
    assert ab == ba;
  }

  lemma CanonicalMergeAssociative<T, U>(a: Kernel<T, U>, b: Kernel<T, U>, c: Kernel<T, U>)
    requires WellFormed(a) && WellFormed(b) && WellFormed(c)
    ensures CanonicalMerge(CanonicalMerge(a, b), c) == CanonicalMerge(a, CanonicalMerge(b, c))
  {
    var l := CanonicalMerge(CanonicalMerge(a, b), c).values;
    var r := CanonicalMerge(a, CanonicalMerge(b, c)).values;
    forall x
      ensures (x in l <==> x in r) && (x in l ==> l[x] == r[x])
    {
      CanonicalMergeAssociativeAt(a, b, c, x);
    }
    MapExt(l, r);
  }

  /** Where an entry of a canonical join of well-formed kernels comes from; the result stays well formed. */
  lemma CanonicalEntry<T, U>(a: Kernel<T, U>, b: Kernel<T, U>, x: Dot<T>)
    requires WellFormed(a) && WellFormed(b)
    ensures WellFormed(CanonicalMerge(a, b))
    ensures x in CanonicalMerge(a, b).values <==>
              (x in a.values && (x !in b.ctx || x in b.values)) || (x in b.values && x !in a.ctx)
    ensures x in CanonicalMerge(a, b).values ==>
              CanonicalMerge(a, b).values[x] == if x in a.values then a.values[x] else b.values[x]
  {
  }

  lemma CanonicalMergeAssociativeAt<T, U>(a: Kernel<T, U>, b: Kernel<T, U>, c: Kernel<T, U>, x: Dot<T>)
    requires WellFormed(a) && WellFormed(b) && WellFormed(c)
    ensures var l, r := CanonicalMerge(CanonicalMerge(a, b), c).values, CanonicalMerge(a, CanonicalMerge(b, c)).values;
            (x in l <==> x in r) && (x in l ==> l[x] == r[x])
  {
    var ab, bc := CanonicalMerge(a, b), CanonicalMerge(b, c);
    CanonicalEntry(a, b, x);
    CanonicalEntry(b, c, x);
    CanonicalEntry(ab, c, x);
    CanonicalEntry(a, bc, x);
  }

  // ---------------------------------------------------------------------
  // The kernel object
  // ---------------------------------------------------------------------

  class DotKernel<T(==), U(==)> {
    var dotValues: map<Dot<T>, U>
    var dotContext: DotContext<T>

    ghost function State(): Kernel<T, U>
      reads this, dotContext
    {
      Kernel(dotValues, dotContext.dots)
    }

    /** `NewDotKernel`: no values and a fresh, empty context. */
    constructor ()
      ensures fresh(dotContext)
      ensures State() == Kernel(map[], {})
    {
      dotValues := map[];
      dotContext := new DotContext();
    }

    method DotAdd(r: T, v: U) returns (d: Dot<T>)
      modifies this, dotContext
      ensures dotContext == old(dotContext)
      ensures d == NextDot(old(dotContext.dots), r)
      ensures State() == AddState(old(State()), r, v)
    {
      d := dotContext.MakeDot(r);
      dotValues := dotValues[d := v];
    }

    method Add(r: T, v: U) returns (delta: DotKernel<T, U>)
      modifies this, dotContext
      ensures dotContext == old(dotContext)
      ensures fresh(delta) && fresh(delta.dotContext)
      ensures State() == AddState(old(State()), r, v)
      ensures delta.State() == AddDelta(old(State()), r, v)
    {
      var d := DotAdd(r, v);
      delta := new DotKernel();
      delta.dotValues := delta.dotValues[d := v];
      delta.dotContext.InsertDot(d);
    }

    method RemoveDot(d: Dot<T>) returns (delta: DotKernel<T, U>)
      modifies this
      ensures dotContext == old(dotContext)
      ensures fresh(delta) && fresh(delta.dotContext)
      ensures State() == RemoveDotState(old(State()), d)
      ensures delta.State() == RemoveDotDelta(old(State()), d)
    {
      delta := new DotKernel();
      if d in dotValues {
        dotValues := dotValues - {d};
        delta.dotContext.InsertDot(d);
      }
    }

    method RemoveValue(v: U) returns (delta: DotKernel<T, U>)
      modifies this
      ensures dotContext == old(dotContext)
      ensures fresh(delta) && fresh(delta.dotContext)
      ensures State() == RemoveValueState(old(State()), v)
      ensures delta.State() == RemoveValueDelta(old(State()), v)
    {
      delta := new DotKernel();
      ghost var held := dotValues;
      var todo := dotValues.Keys;
      while todo != {}
        invariant todo <= held.Keys
        invariant dotContext == old(dotContext)
        invariant dotValues == map x | x in held && (x in todo || held[x] != v) :: held[x]
        invariant fresh(delta) && fresh(delta.dotContext) && delta.dotValues == map[]
        invariant delta.dotContext.dots == set x | x in held && x !in todo && held[x] == v
        decreases todo
      {
        var x :| x in todo;
        if dotValues[x] == v {
          dotValues := dotValues - {x};
          delta.dotContext.InsertDot(x);
        }
        todo := todo - {x};
      }
    }

    method Reset() returns (delta: DotKernel<T, U>)
      modifies this
      ensures dotContext == old(dotContext)
      ensures fresh(delta) && fresh(delta.dotContext)
      ensures State() == ResetState(old(State()))
      ensures delta.State() == ResetDelta(old(State()))
    {
      delta := new DotKernel();
      var todo := dotValues.Keys;
      while todo != {}
        invariant todo <= dotValues.Keys
        invariant dotContext == old(dotContext) && dotValues == old(dotValues)
        invariant fresh(delta) && fresh(delta.dotContext) && delta.dotValues == map[]
        invariant delta.dotContext.dots == dotValues.Keys - todo
        decreases todo
      {
        var x :| x in todo;
        delta.dotContext.InsertDotCompact(x, false);
        todo := todo - {x};
      }
      delta.dotContext.Compact();
      dotValues := map[];
    }

    method Merge(other: DotKernel<T, U>)
      modifies this, dotContext
      ensures dotContext == old(dotContext)
      ensures State() == Merged(old(State()), old(other.State()))
    {
      ghost var mine := dotValues;
      ghost var ctx0 := dotContext.dots;
      ghost var otherCtx := other.dotContext.dots;
      var todo := dotValues.Keys;
      while todo != {}
        invariant todo <= mine.Keys && dotValues.Keys <= mine.Keys
        invariant dotContext == old(dotContext)
        invariant dotContext.dots == ctx0 && other.dotContext.dots == otherCtx
        invariant other != this ==> other.dotValues == old(other.dotValues)
        invariant forall x :: x in mine ==> (x in dotValues <==> x in todo || x !in otherCtx)
        invariant forall x :: x in dotValues ==> dotValues[x] == mine[x]
        decreases todo
      {
        var x :| x in todo;
        if other.dotContext.In(x) {
          dotValues := dotValues - {x};
        }
        todo := todo - {x};
      }
      assert dotValues == Unseen(mine, otherCtx);
      ghost var kept := dotValues;
      var theirs := other.dotValues;
      var pending := theirs.Keys;
      while pending != {}
        invariant pending <= theirs.Keys
        invariant dotContext == old(dotContext)
        invariant dotContext.dots == ctx0 && other.dotContext.dots == otherCtx
        invariant forall x :: x in dotValues <==> x in kept || (x in theirs && x !in pending && x !in ctx0)
        invariant forall x :: x in dotValues ==>
          dotValues[x] == if x in theirs && x !in pending && x !in ctx0 then theirs[x] else kept[x]
        decreases pending
      {
        var x :| x in pending;
        if !dotContext.In(x) {
          dotValues := dotValues[x := theirs[x]];
        }
        pending := pending - {x};
      }
      assert dotValues == kept + Unseen(theirs, ctx0);
      if other == this {
        assert Unseen(theirs, ctx0) == kept;
      }
      dotContext.Join(other.dotContext);
    }
  }
}
