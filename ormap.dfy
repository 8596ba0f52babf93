/**
  The observed-remove map of src/server/crdt/generic/ormap.go: a map from
  keys to nested CRDT objects plus the causal context they share.

  The construction, `SetContext` and `Get` do not depend on what the nested
  values are, so they are members of the generic class. `Remove`, `Reset`
  and `Join` call the nested values' own `Reset`, `NewEmpty`, `SetContext`
  and `Join`; they are modelled with the values the map's tests use, the
  max-register `MockCRDT`, and specified by what they do to the map from
  keys to register values (`Values`).
 */
module ORMaps {
  import opened Util
  import opened DotContexts
  import opened MockCRDTs

  class ORMap<K(==), V> {
    const id: string
    var dotContext: DotContext<string>
    var valueMap: map<K, V>

    /** `NewORMap(id)`: no entries and a fresh, empty context. */
    constructor (id: string)
      ensures this.id == id && valueMap == map[]
      ensures fresh(dotContext) && dotContext.dots == {}
    {
      this.id := id;
      dotContext := new DotContext();
      valueMap := map[];
    }

    /** Replaces the map's context; the nested values keep theirs. */
    method SetContext(ctx: DotContext<string>)
      modifies this
      ensures dotContext == ctx && valueMap == old(valueMap)
    {
      dotContext := ctx;
    }

    /** The value stored under `key`, or nothing; an absent key is not created. */
    function Get(key: K): (r: Option<V>)
      reads this
      ensures r.Some? <==> key in valueMap
      ensures r.Some? ==> r.value == valueMap[key]
    {
      if key in valueMap then Some(valueMap[key]) else None
    }
  }

  // ---------------------------------------------------------------------
  // The map with max-register values
  // ---------------------------------------------------------------------

  /** The register objects the map holds. */
  ghost function Objects<K>(m: ORMap<K, MockCRDT>): set<MockCRDT>
    reads m
  {
    m.valueMap.Values
  }

  /** Each key holds its own register object. */
  ghost predicate Distinct<K>(m: ORMap<K, MockCRDT>)
    reads m
  {
    forall k1, k2 :: k1 in m.valueMap && k2 in m.valueMap && k1 != k2 ==> m.valueMap[k1] != m.valueMap[k2]
  }

  /** What the map holds: each key's register value. */
  ghost function Values<K>(m: ORMap<K, MockCRDT>): map<K, int>
    reads m, Objects(m)
  {
    map k | k in m.valueMap :: m.valueMap[k].value
  }

  /** A local register after the first pass of `Join` (joined with an empty register), or 0 if absent. */
  function Floor<K>(a: map<K, int>, k: K): int
  {
    if k in a then Max(a[k], 0) else 0
  }

  /**
    What `Join` makes of the two maps' register values: every key of either
    side; a local key is first joined with an empty register (max with 0),
    then with `b`'s register when `b` holds the key.
   */
  function JoinValues<K>(a: map<K, int>, b: map<K, int>): map<K, int>
  {
    map k | k in a.Keys + b.Keys :: if k in b then Max(Floor(a, k), b[k]) else Floor(a, k)
  }

  /**
    `Remove(key)`: a present key's register is reset and the key deleted;
    the delta holds no entries and takes the reset delta's (empty) context.
    An absent key changes nothing.
   */
  method Remove<K(==)>(m: ORMap<K, MockCRDT>, key: K) returns (delta: ORMap<K, MockCRDT>)
    requires Distinct(m)
    modifies m, Objects(m)
    ensures m.valueMap == old(m.valueMap) - {key} && m.dotContext == old(m.dotContext)
    ensures Values(m) == old(Values(m)) - {key}
    ensures key in old(m.valueMap) ==> old(m.valueMap)[key].value == 0
    ensures fresh(delta) && fresh(delta.dotContext) && delta.dotContext.dots == {}
    ensures delta.id == m.id && delta.valueMap == map[]
  {
    delta := new ORMap(m.id);
    if key in m.valueMap {
      var value := m.valueMap[key];
      var valueDelta := value.Reset();
      delta.SetContext(valueDelta.dotContext);
      m.valueMap := m.valueMap - {key};
    }
  }

  /**
    `Reset()`: every register is reset and every key kept; the delta holds
    no entries and its context joins the registers' (empty) reset contexts.
   */
  method Reset<K(==)>(m: ORMap<K, MockCRDT>) returns (delta: ORMap<K, MockCRDT>)
    modifies Objects(m)
    ensures Values(m) == map k | k in old(m.valueMap) :: 0
    ensures fresh(delta) && fresh(delta.dotContext) && delta.dotContext.dots == {}
    ensures delta.id == m.id && delta.valueMap == map[]
  {
    delta := new ORMap(m.id);
    var todo := m.valueMap.Keys;
    while todo != {}
      invariant todo <= m.valueMap.Keys
      invariant fresh(delta) && fresh(delta.dotContext) && delta.dotContext.dots == {}
      invariant delta.id == m.id && delta.valueMap == map[]
      invariant forall k :: k in m.valueMap && k !in todo ==> m.valueMap[k].value == 0
      decreases todo
    {
      var k :| k in todo;
      var valueDelta := m.valueMap[k].Reset();
      delta.dotContext.Join(valueDelta.dotContext);
      todo := todo - {k};
    }
  }

  /** Each register after the first pass of `Join`: joined with an empty register. */
  function Floored<K>(a: map<K, int>): (f: map<K, int>)
    ensures f.Keys == a.Keys
    ensures forall k :: k in a ==> f[k] == Max(a[k], 0)
  {
    map k | k in a :: Max(a[k], 0)
  }

  /** The first pass has no effect on what the second computes. */
  lemma JoinValuesFloored<K>(a: map<K, int>, b: map<K, int>)
    ensures JoinValues(Floored(a), b) == JoinValues(a, b)
  {
    assert forall k :: Floor(Floored(a), k) == Floor(a, k);
  }

  /**
    `Join(other)`: the map's context ends as the union of both contexts,
    and is restored in place after every nested join; every key of either
    side is present, each holding `JoinValues`; local keys keep their
    register objects and new keys get new registers bound to the map's
    context.
   */
  method Join<K(==)>(m: ORMap<K, MockCRDT>, other: ORMap<K, MockCRDT>)
    requires Distinct(m) && m != other && Objects(m) !! Objects(other)
    modifies m, m.dotContext, Objects(m)
    ensures m.dotContext == old(m.dotContext)
    ensures m.dotContext.dots == old(m.dotContext.dots) + old(other.dotContext.dots)
    ensures m.valueMap.Keys == old(m.valueMap).Keys + old(other.valueMap).Keys
    ensures Distinct(m)
    ensures Values(m) == JoinValues(old(Values(m)), old(Values(other)))
    ensures forall k :: k in old(m.valueMap) ==> m.valueMap[k] == old(m.valueMap)[k]
    ensures forall k :: k in m.valueMap && k !in old(m.valueMap) ==>
              fresh(m.valueMap[k]) && m.valueMap[k].dotContext == m.dotContext
  {
    ghost var vals0 := Values(m);
    ghost var theirs := Values(other);
    ghost var otherCtx := other.dotContext.dots;
    var originalContext := m.dotContext.Clone();
    JoinLocalPass(m, originalContext);
    assert Values(other) == theirs && other.dotContext.dots == otherCtx;
    ghost var vals1 := Values(m);
    JoinOtherPass(m, other, originalContext);
    JoinValuesFloored(vals0, theirs);
    assert vals1 == Floored(vals0);
    assert Values(m) == JoinValues(vals0, theirs);
  }

  /** The first loop of `Join`: each local register is joined with an empty one. */
  method JoinLocalPass<K(==)>(m: ORMap<K, MockCRDT>, originalContext: DotContext<string>)
    requires Distinct(m) && originalContext != m.dotContext
    requires originalContext.dots == m.dotContext.dots
    modifies m.dotContext, Objects(m)
    ensures m.dotContext.dots == old(m.dotContext.dots)
    ensures Values(m) == Floored(old(Values(m)))
    ensures forall k :: k in m.valueMap ==> m.valueMap[k].value >= 0
  {
    ghost var vals0 := Values(m);
    var todo := m.valueMap.Keys;
    while todo != {}
      invariant todo <= m.valueMap.Keys
      invariant m.dotContext.dots == originalContext.dots == old(m.dotContext.dots)
      invariant forall k :: k in m.valueMap ==>
                  m.valueMap[k].value == if k in todo then vals0[k] else Max(vals0[k], 0)
      decreases todo
    {
      var k :| k in todo;
      var value := m.valueMap[k];
      var emptyValue := value.NewEmpty(m.id);
      value.Join(emptyValue);
      m.dotContext.Copy(originalContext);
      todo := todo - {k};
    }
    assert Values(m) == Floored(vals0);
  }

  /** A register's value once the keys in `done` have been joined in (all local values at least 0). */
  function SoFar<K>(a: map<K, int>, b: map<K, int>, done: set<K>, k: K): int
    requires done <= b.Keys && (k in a || k in done)
  {
    if k in done then Max(if k in a then a[k] else 0, b[k]) else a[k]
  }

  /**
    What holds between the steps of the second loop of `Join`, once the
    keys in `done` have been joined in.
   */
  ghost predicate SecondPass<K>(m: ORMap<K, MockCRDT>, other: ORMap<K, MockCRDT>, map0: map<K, MockCRDT>,
                                vals0: map<K, int>, theirs: map<K, int>, done: set<K>)
    reads m, Objects(m), other, Objects(other)
  {
    && done <= other.valueMap.Keys && other.valueMap.Keys == theirs.Keys && map0.Keys == vals0.Keys
    && (forall k :: k in other.valueMap ==> other.valueMap[k].value == theirs[k])
    && m != other && Distinct(m) && Objects(m) !! Objects(other)
    && m.valueMap.Keys == map0.Keys + done
    && (forall k :: k in map0 ==> m.valueMap[k] == map0[k])
    && (forall k :: k in m.valueMap ==> m.valueMap[k].value == SoFar(vals0, theirs, done, k))
  }

  /**
    The second loop of `Join`: each of other's registers is joined into the
    local register under its key, or into a new register bound to the map's
    context when the key is new; then other's context is joined into the
    map's.
   */
  method JoinOtherPass<K(==)>(m: ORMap<K, MockCRDT>, other: ORMap<K, MockCRDT>, originalContext: DotContext<string>)
    requires Distinct(m) && m != other && Objects(m) !! Objects(other)
    requires forall k :: k in m.valueMap ==> m.valueMap[k].value >= 0
    requires originalContext != m.dotContext && originalContext.dots == m.dotContext.dots
    modifies m, m.dotContext, Objects(m)
    ensures m.dotContext == old(m.dotContext) && m.dotContext.dots == old(m.dotContext.dots) + old(other.dotContext.dots)
    ensures m.valueMap.Keys == old(m.valueMap).Keys + old(other.valueMap).Keys
    ensures Distinct(m)
    ensures Values(m) == JoinValues(old(Values(m)), old(Values(other)))
    ensures forall k :: k in old(m.valueMap) ==> m.valueMap[k] == old(m.valueMap)[k]
    ensures forall k :: k in m.valueMap && k !in old(m.valueMap) ==>
              fresh(m.valueMap[k]) && m.valueMap[k].dotContext == m.dotContext
  {
    ghost var map0 := m.valueMap;
    ghost var vals0 := Values(m);
    ghost var theirs := Values(other);
    JoinOtherKeys(m, other, originalContext, map0, vals0, theirs);
    m.dotContext.Join(other.dotContext);
    SecondPassComplete(m, other, map0, vals0, theirs);
  }

  /** The registers the second pass added are bound to the map's context. */
  ghost predicate NewBound<K>(m: ORMap<K, MockCRDT>, map0: map<K, MockCRDT>)
    reads m, Objects(m)
  {
    forall k :: k in m.valueMap && k !in map0 ==> m.valueMap[k].dotContext == m.dotContext
  }

  /** The loop of the second pass, before other's context is joined in. */
  method JoinOtherKeys<K(==)>(m: ORMap<K, MockCRDT>, other: ORMap<K, MockCRDT>, originalContext: DotContext<string>,
                              ghost map0: map<K, MockCRDT>, ghost vals0: map<K, int>, ghost theirs: map<K, int>)
    requires SecondPass(m, other, map0, vals0, theirs, {}) && map0 == m.valueMap
    requires originalContext != m.dotContext && originalContext.dots == m.dotContext.dots
    modifies m, m.dotContext, Objects(m)
    ensures m.dotContext == old(m.dotContext) && m.dotContext.dots == old(m.dotContext.dots)
    ensures other.valueMap == old(other.valueMap) && other.dotContext == old(other.dotContext)
    ensures SecondPass(m, other, map0, vals0, theirs, other.valueMap.Keys)
    ensures forall k :: k in m.valueMap && k !in map0 ==> fresh(m.valueMap[k])
    ensures NewBound(m, map0)
  {
    var pending := other.valueMap.Keys;
    while pending != {}
      invariant pending <= other.valueMap.Keys && other.valueMap == old(other.valueMap)
      invariant m.dotContext == old(m.dotContext) && m.dotContext.dots == originalContext.dots == old(m.dotContext.dots)
      invariant SecondPass(m, other, map0, vals0, theirs, other.valueMap.Keys - pending)
      invariant forall k :: k in m.valueMap && k !in map0 ==> fresh(m.valueMap[k])
      invariant NewBound(m, map0)
      decreases pending
    {
      var key :| key in pending;
      JoinKey(m, other, key, originalContext, map0, vals0, theirs, pending);
      pending := pending - {key};
    }
  }

  /** Once every key of `other` is done, the registers hold `JoinValues`. */
  lemma SecondPassComplete<K>(m: ORMap<K, MockCRDT>, other: ORMap<K, MockCRDT>, map0: map<K, MockCRDT>,
                              vals0: map<K, int>, theirs: map<K, int>)
    requires SecondPass(m, other, map0, vals0, theirs, other.valueMap.Keys)
    requires forall k :: k in vals0 ==> vals0[k] >= 0
    ensures Values(m) == JoinValues(vals0, theirs)
  {
    assert Values(m).Keys == JoinValues(vals0, theirs).Keys;
  }

  /**
    One step of the second loop of `Join`: other's register under `key` is
    joined into the local register under `key`, or into a new register
    bound to the map's context, and the map's context is restored.
   */
  method JoinKey<K(==)>(m: ORMap<K, MockCRDT>, other: ORMap<K, MockCRDT>, key: K, originalContext: DotContext<string>,
                        ghost map0: map<K, MockCRDT>, ghost vals0: map<K, int>, ghost theirs: map<K, int>, ghost pending: set<K>)
    requires SecondPass(m, other, map0, vals0, theirs, other.valueMap.Keys - pending)
    requires key in pending && pending <= other.valueMap.Keys
    requires originalContext != m.dotContext && NewBound(m, map0)
    modifies m, m.dotContext, if key in m.valueMap then {m.valueMap[key]} else {}
    ensures m.dotContext == old(m.dotContext) && m.dotContext.dots == originalContext.dots
    ensures other.valueMap == old(other.valueMap) && originalContext.dots == old(originalContext.dots)
    ensures SecondPass(m, other, map0, vals0, theirs, other.valueMap.Keys - (pending - {key}))
    ensures m.valueMap == old(m.valueMap)[key := m.valueMap[key]]
    ensures NewBound(m, map0)
    ensures key !in old(m.valueMap) ==> fresh(m.valueMap[key]) && m.valueMap[key].dotContext == m.dotContext
  {
    if key in m.valueMap {
      JoinPresentKey(m, other, key, originalContext, map0, vals0, theirs, pending);
    } else {
      JoinAbsentKey(m, other, key, originalContext, map0, vals0, theirs, pending);
    }
  }

  /**
    A step of the second loop of `Join` for a key the map holds: other's
    register is joined into the local one and the map's context restored.
   */
  method JoinPresentKey<K(==)>(m: ORMap<K, MockCRDT>, other: ORMap<K, MockCRDT>, key: K, originalContext: DotContext<string>,
                               ghost map0: map<K, MockCRDT>, ghost vals0: map<K, int>, ghost theirs: map<K, int>, ghost pending: set<K>)
    requires SecondPass(m, other, map0, vals0, theirs, other.valueMap.Keys - pending)
    requires key in pending && pending <= other.valueMap.Keys && key in m.valueMap
    requires originalContext != m.dotContext
    modifies m.dotContext, m.valueMap[key]
    ensures m.dotContext.dots == originalContext.dots
    ensures other.valueMap == old(other.valueMap) && originalContext.dots == old(originalContext.dots)
    ensures SecondPass(m, other, map0, vals0, theirs, other.valueMap.Keys - (pending - {key}))
    ensures forall k :: k in m.valueMap ==> m.valueMap[k].dotContext == old(m.valueMap[k].dotContext)
  {
    ghost var done := other.valueMap.Keys - pending;
    ghost var was := m.valueMap[key].value;
    assert was == SoFar(vals0, theirs, done, key);
    var otherValue := other.valueMap[key];
    assert otherValue in Objects(other);
    var localValue := m.valueMap[key];
    assert localValue in Objects(m);
    localValue.Join(otherValue);
    m.dotContext.Copy(originalContext);
    assert other.valueMap.Keys - (pending - {key}) == done + {key};
    assert m.valueMap[key].value == SoFar(vals0, theirs, done + {key}, key);
  }

  /**
    A step of the second loop of `Join` for a key the map lacks: other's
    register is joined into a new register bound to the map's context, and
    the map's context restored.
   */
  method JoinAbsentKey<K(==)>(m: ORMap<K, MockCRDT>, other: ORMap<K, MockCRDT>, key: K, originalContext: DotContext<string>,
                              ghost map0: map<K, MockCRDT>, ghost vals0: map<K, int>, ghost theirs: map<K, int>, ghost pending: set<K>)
    requires SecondPass(m, other, map0, vals0, theirs, other.valueMap.Keys - pending)
    requires key in pending && pending <= other.valueMap.Keys && key !in m.valueMap
    requires originalContext != m.dotContext
    modifies m, m.dotContext
    ensures m.dotContext == old(m.dotContext) && m.dotContext.dots == originalContext.dots
    ensures other.valueMap == old(other.valueMap) && originalContext.dots == old(originalContext.dots)
    ensures SecondPass(m, other, map0, vals0, theirs, other.valueMap.Keys - (pending - {key}))
    ensures m.valueMap == old(m.valueMap)[key := m.valueMap[key]]
    ensures fresh(m.valueMap[key]) && m.valueMap[key].dotContext == m.dotContext
  {
    ghost var done := other.valueMap.Keys - pending;
    var otherValue := other.valueMap[key];
    assert otherValue in Objects(other);
    var newValue := otherValue.NewEmpty(m.id);
    newValue.SetContext(m.dotContext);
    newValue.Join(otherValue);
    m.valueMap := m.valueMap[key := newValue];
    m.dotContext.Copy(originalContext);
    assert other.valueMap.Keys - (pending - {key}) == done + {key};
    assert m.valueMap[key].value == SoFar(vals0, theirs, done + {key}, key);
  }

  // ---------------------------------------------------------------------
  // Properties of the join on register values
  // ---------------------------------------------------------------------

  /** Every key of either side is present; no register ends below 0 or below either side's register. */
  lemma JoinValuesBounds<K>(a: map<K, int>, b: map<K, int>)
    ensures JoinValues(a, b).Keys == a.Keys + b.Keys
    ensures forall k :: k in JoinValues(a, b) ==>
              JoinValues(a, b)[k] >= 0
              && (k in a ==> JoinValues(a, b)[k] >= a[k])
              && (k in b ==> JoinValues(a, b)[k] >= b[k])
    ensures forall k :: k in JoinValues(a, b) ==>
              JoinValues(a, b)[k] == 0 || (k in a && JoinValues(a, b)[k] == a[k]) || (k in b && JoinValues(a, b)[k] == b[k])
  {
  }

  lemma JoinValuesCommutative<K>(a: map<K, int>, b: map<K, int>)
    ensures JoinValues(a, b) == JoinValues(b, a)
  {
    assert forall k :: k in a.Keys + b.Keys ==> JoinValues(a, b)[k] == JoinValues(b, a)[k];
  }

  lemma JoinValuesAssociative<K>(a: map<K, int>, b: map<K, int>, c: map<K, int>)
    ensures JoinValues(JoinValues(a, b), c) == JoinValues(a, JoinValues(b, c))
  {
    var ab, bc := JoinValues(a, b), JoinValues(b, c);
    var l := JoinValues(ab, c);
    var r := JoinValues(a, bc);
    assert l.Keys == r.Keys;
    forall k | k in l
      ensures l[k] == r[k]
    {
      JoinValuesAt(a, b, k);
      JoinValuesAt(b, c, k);
      JoinValuesAt(ab, c, k);
      JoinValuesAt(a, bc, k);
    }
  }

  /** At one key the join is the larger of the two floored registers, present or not. */
  lemma JoinValuesAt<K>(a: map<K, int>, b: map<K, int>, k: K)
    ensures Floor(JoinValues(a, b), k) == Max(Floor(a, k), Floor(b, k))
    ensures k in JoinValues(a, b) ==> JoinValues(a, b)[k] == Max(Floor(a, k), Floor(b, k))
  {
  }

  /**
    Joining a map with a copy of itself changes nothing exactly when no
    register is negative: a negative register is raised to 0 by the first
    pass.
   */
  lemma JoinValuesIdempotentIff<K>(a: map<K, int>)
    ensures JoinValues(a, a) == a <==> forall k :: k in a ==> a[k] >= 0
  {
    if forall k :: k in a ==> a[k] >= 0 {
      assert forall k :: k in a ==> JoinValues(a, a)[k] == a[k];
    } else {
      var k :| k in a && a[k] < 0;
      assert JoinValues(a, a)[k] == 0;
    }
  }

  /** `TestORMap_Join`: the larger register wins and the other side's new key arrives. */
  lemma ORMapJoinScenario()
    ensures JoinValues(map["key1" := 5], map["key1" := 10, "key2" := 5]) == map["key1" := 10, "key2" := 5]
  {
    var r := JoinValues(map["key1" := 5], map["key1" := 10, "key2" := 5]);
    assert r.Keys == {"key1", "key2"};
    assert r["key1"] == 10 && r["key2"] == 5;
  }

  /** `TestORMap_JoinWithEmptyORMap` and `TestORMap_JoinIdempotent`. */
  lemma ORMapJoinEmptyAndSelfScenario()
    ensures JoinValues(map["key1" := 5], map[]) == map["key1" := 5]
    ensures JoinValues(map["key1" := 5], map["key1" := 5]) == map["key1" := 5]
  {
    var r := JoinValues(map["key1" := 5], map[]);
    assert r.Keys == {"key1"} && r["key1"] == 5;
    JoinValuesIdempotentIff(map["key1" := 5]);
  }

  /**
    `TestORMap_Get` expects `Get` on a new map to create an empty register;
    as coded, a new map holds no key and `Get` returns nothing.
   */
  lemma GetDoesNotCreate<K, V>(m: ORMap<K, V>, key: K)
    requires m.valueMap == map[]
    ensures m.Get(key) == None && m.valueMap == map[]
  {
  }
}
