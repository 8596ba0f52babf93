/**
  The client's dot kernel (src/client/types/crdt/dot-kernel.ts): a map from
  dot keys (`toKey` strings) to values, plus a causal context. It differs
  from the server kernel in its join: a local entry is dropped only when
  the other side has seen its dot and no longer holds it, and every entry
  of the other side whose key is missing locally is adopted, whatever the
  local context says.

  The value-level functions say what each operation computes; the class
  runs the source's loops and is proved to compute them.
 */
module ClientDotKernels {
  import opened Util
  import opened Dots
  import opened DotContexts
  import opened ClientDots

  /** A kernel's state: values by dot key, and the observed dots. */
  datatype CKernel<U> = CKernel(values: map<string, U>, ctx: set<Dot<string>>)

  /**
    A string `toKey` writes. The kernel reasons about its keys through
    this predicate and `KeyDot`, not through the text of the codec.
   */
  ghost predicate IsKey(key: string)
  {
    exists d :: ToKey(d) == key
  }

  /** The dot a key was written from. */
  ghost function KeyDot(key: string): (d: Dot<string>)
    requires IsKey(key)
    ensures ToKey(d) == key
  {
    var d :| ToKey(d) == key; d
  }

  /** A dot's key is a key, and stands for that dot. */
  lemma KeyOfDot(d: Dot<string>)
    ensures IsKey(ToKey(d)) && KeyDot(ToKey(d)) == d
  {
    ToKeyInjective(d, KeyDot(ToKey(d)));
  }

  /** A key is the key of `d` exactly when it stands for `d`. */
  lemma KeyIs(key: string, d: Dot<string>)
    requires IsKey(key)
    ensures key == ToKey(d) <==> KeyDot(key) == d
  {
    KeyOfDot(d);
  }

  /** `Dot.fromKey` reads every key back to the dot it stands for. */
  lemma FromKeyOfKey(key: string)
    requires IsKey(key)
    ensures FromKey(key) == Some(KeyDot(key))
  {
    FromKeyToKey(KeyDot(key));
  }

  /** Every key is the key of a dot: what `dotAdd` and `join` ever store. */
  ghost predicate Keyed<U>(values: map<string, U>)
  {
    forall key :: key in values ==> IsKey(key)
  }

  /** Keyed, and every held dot is in the kernel's own context. */
  ghost predicate WellFormed<U>(k: CKernel<U>)
  {
    Keyed(k.values) && forall key :: key in k.values ==> KeyDot(key) in k.ctx
  }

  /** The dots a set of keys stands for. */
  ghost function DotsOf(keys: set<string>): set<Dot<string>>
    requires forall key | key in keys :: IsKey(key)
  {
    set key | key in keys :: KeyDot(key)
  }

  /** One more key, one more dot. */
  lemma DotsOfAdd(keys: set<string>, key: string)
    requires forall k | k in keys :: IsKey(k)
    requires IsKey(key)
    ensures DotsOf(keys + {key}) == DotsOf(keys) + {KeyDot(key)}
  {
  }

  // What each operation leaves in the kernel (`...State`) and the delta it
  // returns (`...Delta`).

  ghost function AddState<U>(k: CKernel<U>, r: string, v: U): CKernel<U>
  {
    var d := NextDot(k.ctx, r);
    CKernel(k.values[ToKey(d) := v], k.ctx + {d})
  }

  ghost function AddDelta<U>(k: CKernel<U>, r: string, v: U): CKernel<U>
  {
    var d := NextDot(k.ctx, r);
    CKernel(map[ToKey(d) := v], {d})
  }

  ghost function RemoveDotState<U>(k: CKernel<U>, d: Dot<string>): CKernel<U>
  {
    CKernel(k.values - {ToKey(d)}, k.ctx)
  }

  ghost function RemoveDotDelta<U>(k: CKernel<U>, d: Dot<string>): CKernel<U>
  {
    CKernel(map[], if ToKey(d) in k.values then {d} else {})
  }

  /** The keys holding `v`. */
  ghost function Matching<U>(values: map<string, U>, v: U): set<string>
  {
    set key | key in values && values[key] == v
  }

  ghost function RemoveValueState<U>(k: CKernel<U>, v: U): CKernel<U>
  {
    CKernel(map key | key in k.values && k.values[key] != v :: k.values[key], k.ctx)
  }

  ghost function RemoveValueDelta<U>(k: CKernel<U>, v: U): CKernel<U>
    requires Keyed(k.values)
  {
    CKernel(map[], DotsOf(Matching(k.values, v)))
  }

  ghost function ResetState<U>(k: CKernel<U>): CKernel<U>
  {
    CKernel(map[], k.ctx)
  }

  ghost function ResetDelta<U>(k: CKernel<U>): CKernel<U>
    requires Keyed(k.values)
  {
    CKernel(map[], DotsOf(k.values.Keys))
  }

  /** The first loop of `join` drops a local key: the other side has seen its dot and holds no entry for it. */
  ghost predicate RemovedBy<U>(key: string, ctx: set<Dot<string>>, values: map<string, U>)
    requires IsKey(key)
  {
    KeyDot(key) in ctx && key !in values
  }

  /** The local entries the first loop of `join` keeps. */
  ghost function Kept<U>(mine: map<string, U>, ctx: set<Dot<string>>, theirs: map<string, U>): map<string, U>
    requires Keyed(mine)
  {
    map key | key in mine && !RemovedBy(key, ctx, theirs) :: mine[key]
  }

  /** The entries the second loop of `join` adopts: other's, under keys the map does not hold. */
  ghost function Adopted<U>(mine: map<string, U>, theirs: map<string, U>): map<string, U>
  {
    map key | key in theirs && key !in mine :: theirs[key]
  }

  /** What `join(other)` makes of the two kernels. */
  ghost function Joined<U>(a: CKernel<U>, b: CKernel<U>): CKernel<U>
    requires Keyed(a.values)
  {
    CKernel(Kept(a.values, b.ctx, b.values) + Adopted(a.values, b.values), a.ctx + b.ctx)
  }

  // ---------------------------------------------------------------------
  // What the operations promise
  // ---------------------------------------------------------------------

  /**
    The join rule: a key ends in the map iff it is in other, or it is local
    and other has not removed it; a key held on both sides keeps the local
    value, and an adopted key takes other's.
   */
  lemma JoinedEntries<U>(a: CKernel<U>, b: CKernel<U>, key: string)
    requires Keyed(a.values)
    ensures key in Joined(a, b).values <==>
              key in b.values || (key in a.values && !(KeyDot(key) in b.ctx && key !in b.values))
    ensures key in a.values && key in Joined(a, b).values ==> Joined(a, b).values[key] == a.values[key]
    ensures key !in a.values && key in b.values ==> Joined(a, b).values[key] == b.values[key]
    ensures Joined(a, b).ctx == a.ctx + b.ctx
  {
  }

  /** Every mutator keeps a kernel well formed, and so do its deltas. */
  lemma MutatorsKeepWellFormed<U>(k: CKernel<U>, r: string, v: U, d: Dot<string>)
    requires WellFormed(k)
    ensures WellFormed(AddState(k, r, v)) && WellFormed(AddDelta(k, r, v))
    ensures WellFormed(RemoveDotState(k, d)) && WellFormed(RemoveDotDelta(k, d))
    ensures WellFormed(RemoveValueState(k, v)) && WellFormed(RemoveValueDelta(k, v))
    ensures WellFormed(ResetState(k)) && WellFormed(ResetDelta(k))
  {
    KeyOfDot(NextDot(k.ctx, r));
  }

  /** Joining two well-formed kernels gives a well-formed kernel. */
  lemma JoinKeepsWellFormed<U>(a: CKernel<U>, b: CKernel<U>)
    requires WellFormed(a) && WellFormed(b)
    ensures WellFormed(Joined(a, b))
  {
  }

  /** The new key of `add` is not held already: its dot was not in the context. */
  lemma NextKeyIsNew<U>(k: CKernel<U>, r: string)
    requires WellFormed(k)
    ensures ToKey(NextDot(k.ctx, r)) !in k.values
  {
    var d := NextDot(k.ctx, r);
    if ToKey(d) in k.values {
      KeyOfDot(d);
      assert false;
    }
  }

  /** The first loop of `join` with the delta of `add` drops nothing. */
  lemma AddKept<U>(k: CKernel<U>, r: string, v: U)
    requires WellFormed(k)
    ensures Kept(k.values, AddDelta(k, r, v).ctx, AddDelta(k, r, v).values) == k.values
  {
    var d := NextDot(k.ctx, r);
    forall key | key in k.values
      ensures !RemovedBy(key, {d}, map[ToKey(d) := v])
    {
      assert KeyDot(key) != d;
    }
  }

  /** Joining the delta of `add` into the kernel as it was reproduces the kernel after `add`. */
  lemma AddDeltaReproducesState<U>(k: CKernel<U>, r: string, v: U)
    requires WellFormed(k)
    ensures Joined(k, AddDelta(k, r, v)) == AddState(k, r, v)
  {
    NextKeyIsNew(k, r);
    AddKept(k, r, v);
    var d := NextDot(k.ctx, r);
    assert Adopted(k.values, map[ToKey(d) := v]) == map[ToKey(d) := v];
  }

  /** The first loop of `join` with the delta of `removeDot` drops just that dot's key. */
  lemma RemoveDotKept<U>(k: CKernel<U>, d: Dot<string>)
    requires WellFormed(k)
    ensures Kept(k.values, RemoveDotDelta(k, d).ctx, map[]) == k.values - {ToKey(d)}
  {
    var ctx := RemoveDotDelta(k, d).ctx;
    forall key | key in k.values
      ensures key in Kept(k.values, ctx, map[]) <==> key != ToKey(d)
    {
      KeyIs(key, d);
    }
  }

  /** Joining the delta of `removeDot` into the kernel as it was reproduces the kernel after it. */
  lemma RemoveDotDeltaReproducesState<U>(k: CKernel<U>, d: Dot<string>)
    requires WellFormed(k)
    ensures Joined(k, RemoveDotDelta(k, d)) == RemoveDotState(k, d)
  {
    KeyOfDot(d);
    RemoveDotKept(k, d);
  }

  /** Joining the delta of `removeValue` into the kernel as it was reproduces the kernel after it. */
  lemma RemoveValueDeltaReproducesState<U>(k: CKernel<U>, v: U)
    requires WellFormed(k)
    ensures Joined(k, RemoveValueDelta(k, v)) == RemoveValueState(k, v)
  {
    var delta := RemoveValueDelta(k, v);
    var j := Joined(k, delta);
    forall key | key in k.values
      ensures key in j.values <==> k.values[key] != v
    {
    }
    assert j.values == RemoveValueState(k, v).values;
  }

  /** Joining the delta of `reset` into the kernel as it was reproduces the kernel after it. */
  lemma ResetDeltaReproducesState<U>(k: CKernel<U>)
    requires WellFormed(k)
    ensures Joined(k, ResetDelta(k)) == ResetState(k)
  {
    var j := Joined(k, ResetDelta(k));
    forall key | key in k.values
      ensures key !in j.values
    {
      assert KeyDot(key) in ResetDelta(k).ctx;
    }
    assert j.values == map[];
  }

  /**
    A dot removed here comes back when joined with a replica that still
    holds it, although the local context records its removal: adoption
    looks at keys, not at the context.
   */
  lemma RemovedDotReappears<U>(k: CKernel<U>, d: Dot<string>, b: CKernel<U>)
    requires WellFormed(k) && ToKey(d) in b.values
    ensures d in RemoveDotState(k, d).ctx || ToKey(d) !in k.values
    ensures ToKey(d) !in RemoveDotState(k, d).values
    ensures ToKey(d) in Joined(RemoveDotState(k, d), b).values
    ensures Joined(RemoveDotState(k, d), b).values[ToKey(d)] == b.values[ToKey(d)]
  {
    KeyOfDot(d);
  }

  /**
    The join the server kernel uses for adoption: other's entries are
    adopted only when their dot is not in the local context.
   */
  ghost function JoinedByContext<U>(a: CKernel<U>, b: CKernel<U>): CKernel<U>
    requires Keyed(a.values) && Keyed(b.values)
  {
    CKernel(Kept(a.values, b.ctx, b.values) + (map key | key in b.values && key !in a.values && KeyDot(key) !in a.ctx :: b.values[key]),
            a.ctx + b.ctx)
  }

  /** With adoption by context a removed dot stays removed. */
  lemma RemovedDotStaysRemoved<U>(k: CKernel<U>, d: Dot<string>, b: CKernel<U>)
    requires WellFormed(k) && Keyed(b.values) && ToKey(d) in k.values
    ensures ToKey(d) !in JoinedByContext(RemoveDotState(k, d), b).values
  {
    KeyOfDot(d);
  }

  /** The two joins agree whenever the local context has seen none of other's new keys. */
  lemma JoinedByContextAgrees<U>(a: CKernel<U>, b: CKernel<U>)
    requires Keyed(a.values) && Keyed(b.values)
    requires forall key :: key in b.values && key !in a.values ==> KeyDot(key) !in a.ctx
    ensures JoinedByContext(a, b) == Joined(a, b)
  {
    assert JoinedByContext(a, b).values == Kept(a.values, b.ctx, b.values) + Adopted(a.values, b.values);
  }

  // ---------------------------------------------------------------------
  // The kernel object
  // ---------------------------------------------------------------------

  class ClientDotKernel<U(==)> {
    var dotValues: map<string, U>
    var dotContext: DotContext<string>

    ghost function State(): CKernel<U>
      reads this, dotContext
    {
      CKernel(dotValues, dotContext.dots)
    }

    /** The map only ever holds keys written by `toKey`. */
    ghost predicate Valid()
      reads this
    {
      Keyed(dotValues)
    }

    constructor ()
      ensures Valid() && fresh(dotContext)
      ensures State() == CKernel(map[], {})
    {
      dotValues := map[];
      dotContext := new DotContext();
    }

    /** `setContext`: binds the kernel to `ctx`; the values stay. */
    method SetContext(ctx: DotContext<string>)
      modifies this
      ensures dotContext == ctx && dotValues == old(dotValues)
    {
      dotContext := ctx;
    }

    /** `dotAdd(id, value)`: stores `value` under the key of the dot the context issues. */
    method DotAdd(r: string, v: U) returns (d: Dot<string>)
      requires Valid()
      modifies this, dotContext
      ensures Valid() && dotContext == old(dotContext)
      ensures d == NextDot(old(dotContext.dots), r)
      ensures State() == AddState(old(State()), r, v)
    {
      d := dotContext.MakeDot(r);
      KeyOfDot(d);
      dotValues := dotValues[ToKey(d) := v];
    }

    /** `add(id, value)`: `dotAdd`, and a delta holding just the new entry and its dot. */
    method Add(r: string, v: U) returns (delta: ClientDotKernel<U>)
      requires Valid()
      modifies this, dotContext
      ensures Valid() && dotContext == old(dotContext)
      ensures fresh(delta) && fresh(delta.dotContext) && delta.Valid()
      ensures State() == AddState(old(State()), r, v)
      ensures delta.State() == AddDelta(old(State()), r, v)
    {
      var d := DotAdd(r, v);
      delta := new ClientDotKernel();
      delta.dotValues := delta.dotValues[ToKey(d) := v];
      delta.dotContext.InsertDot(d);
    }

    /** `removeDot(dot)`: a held dot is deleted and recorded in the delta's context. */
    method RemoveDot(d: Dot<string>) returns (delta: ClientDotKernel<U>)
      requires Valid()
      modifies this
      ensures Valid() && dotContext == old(dotContext)
      ensures fresh(delta) && fresh(delta.dotContext) && delta.Valid()
      ensures State() == RemoveDotState(old(State()), d)
      ensures delta.State() == RemoveDotDelta(old(State()), d)
    {
      delta := new ClientDotKernel();
      var key := ToKey(d);
      if key in dotValues {
        dotValues := dotValues - {key};
        delta.dotContext.InsertDot(d);
      }
    }

    /** `removeValue(value)`: every entry equal to `value` is deleted; the delta's context holds their dots. */
    method RemoveValue(v: U) returns (delta: ClientDotKernel<U>)
      requires Valid()
      modifies this
      ensures Valid() && dotContext == old(dotContext)
      ensures fresh(delta) && fresh(delta.dotContext) && delta.Valid()
      ensures State() == RemoveValueState(old(State()), v)
      ensures delta.State() == RemoveValueDelta(old(State()), v)
    {
      delta := new ClientDotKernel();
      dotValues := DeleteMatching(dotValues, v, delta.dotContext);
      delta.dotContext.Compact();
    }

    /** The loop of `removeValue`: deletes the entries equal to `v`, inserting their dots into `ctx`. */
    static method DeleteMatching(values: map<string, U>, v: U, ctx: DotContext<string>) returns (rest: map<string, U>)
      requires Keyed(values)
      modifies ctx
      ensures rest == RemoveValueState(CKernel(values, {}), v).values
      ensures ctx.dots == old(ctx.dots) + DotsOf(Matching(values, v))
    {
      rest := values;
      ghost var removed: set<string> := {};
      var todo := values.Keys;
      while todo != {}
        invariant todo <= values.Keys
        invariant forall key :: key in values ==> (key in rest <==> key in todo || values[key] != v)
        invariant forall key :: key in rest ==> key in values && rest[key] == values[key]
        invariant forall key :: key in removed <==> key in values && key !in todo && values[key] == v
        invariant ctx.dots == old(ctx.dots) + DotsOf(removed)
        decreases todo
      {
        var key :| key in todo;
        if rest[key] == v {
          rest := rest - {key};
          FromKeyOfKey(key);
          ctx.InsertDotCompact(FromKey(key).value, false);
          DotsOfAdd(removed, key);
          removed := removed + {key};
        }
        todo := todo - {key};
      }
      assert removed == Matching(values, v);
      assert rest == RemoveValueState(CKernel(values, {}), v).values;
    }

    /** `reset()`: the map is cleared; the delta's context holds every dot it held. */
    method Reset() returns (delta: ClientDotKernel<U>)
      requires Valid()
      modifies this
      ensures Valid() && dotContext == old(dotContext)
      ensures fresh(delta) && fresh(delta.dotContext) && delta.Valid()
      ensures State() == ResetState(old(State()))
      ensures delta.State() == ResetDelta(old(State()))
    {
      delta := new ClientDotKernel();
      ghost var seen: set<string> := {};
      var todo := dotValues.Keys;
      while todo != {}
        invariant todo <= dotValues.Keys && Valid()
        invariant dotContext == old(dotContext) && dotValues == old(dotValues)
        invariant forall key :: key in seen <==> key in dotValues && key !in todo
        invariant fresh(delta) && fresh(delta.dotContext) && delta.dotValues == map[]
        invariant delta.dotContext.dots == DotsOf(seen)
        decreases todo
      {
        var key :| key in todo;
        FromKeyOfKey(key);
        delta.dotContext.InsertDotCompact(FromKey(key).value, false);
        DotsOfAdd(seen, key);
        seen := seen + {key};
        todo := todo - {key};
      }
      delta.dotContext.Compact();
      assert seen == dotValues.Keys;
      dotValues := map[];
    }

    /**
      `join(other)`: drops the local entries other has seen and no longer
      holds, adopts other's entries under keys missing locally (a key on
      both sides keeps the local value), then joins other's context in.
     */
    method Join(other: ClientDotKernel<U>)
      requires Valid() && other.Valid()
      modifies this, dotContext
      ensures Valid() && dotContext == old(dotContext)
      ensures State() == Joined(old(State()), old(other.State()))
    {
      ghost var mine := dotValues;
      ghost var otherCtx := other.dotContext.dots;
      ghost var otherValues := other.dotValues;
      DropRemoved(other);
      assert other.dotValues == otherValues;
      AdoptMissing(other);
      dotContext.Join(other.dotContext);
    }

    /** The first loop of `join`. */
    method DropRemoved(other: ClientDotKernel<U>)
      requires Valid()
      modifies this
      ensures Valid() && dotContext == old(dotContext)
      ensures other.dotValues == old(other.dotValues)
      ensures dotValues == Kept(old(dotValues), old(other.dotContext.dots), old(other.dotValues))
    {
      ghost var mine := dotValues;
      ghost var theirs := other.dotValues;
      var todo := dotValues.Keys;
      while todo != {}
        invariant todo <= mine.Keys && dotValues.Keys <= mine.Keys && Keyed(mine)
        invariant dotContext == old(dotContext) && other.dotContext == old(other.dotContext)
        invariant other != this ==> other.dotValues == theirs
        invariant other == this ==> dotValues == mine
        invariant forall key :: key in mine ==>
                    (key in dotValues <==> key in todo || !RemovedBy(key, other.dotContext.dots, theirs))
        invariant forall key :: key in dotValues ==> dotValues[key] == mine[key]
        decreases todo
      {
        var key :| key in todo;
        FromKeyOfKey(key);
        var dot := FromKey(key).value;
        if other.dotContext.In(dot) && key !in other.dotValues {
          dotValues := dotValues - {key};
        }
        todo := todo - {key};
      }
      assert dotValues == Kept(mine, other.dotContext.dots, theirs);
    }

    /** The second loop of `join`. */
    method AdoptMissing(other: ClientDotKernel<U>)
      requires Valid() && other.Valid()
      modifies this
      ensures Valid() && dotContext == old(dotContext)
      ensures dotValues == old(dotValues) + Adopted(old(dotValues), old(other.dotValues))
    {
      ghost var kept := dotValues;
      var theirs := other.dotValues;
      var pending := theirs.Keys;
      while pending != {}
        invariant pending <= theirs.Keys
        invariant dotContext == old(dotContext)
        invariant forall key :: key in dotValues <==> key in kept || (key in theirs && key !in pending)
        invariant forall key :: key in dotValues ==> dotValues[key] == if key in kept then kept[key] else theirs[key]
        decreases pending
      {
        var key :| key in pending;
        if key !in dotValues {
          dotValues := dotValues[key := theirs[key]];
        }
        pending := pending - {key};
      }
      assert dotValues == kept + Adopted(kept, theirs);
    }

    /** `clone()`: a new kernel with a copy of the map and a clone of the context. */
    method Clone() returns (c: ClientDotKernel<U>)
      ensures fresh(c) && fresh(c.dotContext)
      ensures c.State() == State()
      ensures Valid() ==> c.Valid()
    {
      c := new ClientDotKernel();
      c.dotContext := dotContext.Clone();
      c.dotValues := dotValues;
    }
  }
}
