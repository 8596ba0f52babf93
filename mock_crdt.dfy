/**
  The test double the OR-Map tests instantiate the map with
  (src/server/crdt/generic/ormap_test.go): an integer register whose join
  keeps the larger value, carrying an id and a causal context that none of
  its operations consult.
 */
module MockCRDTs {
  import opened DotContexts

  function Max(a: int, b: int): (m: int)
    ensures m >= a && m >= b && (m == a || m == b)
  {
    if b > a then b else a
  }

  class MockCRDT {
    const id: string
    var dotContext: DotContext<string>
    var value: int

    /** `NewMockCRDT(id)`. */
    constructor (id: string)
      ensures this.id == id && value == 0
      ensures fresh(dotContext) && dotContext.dots == {}
    {
      this.id := id;
      dotContext := new DotContext();
      value := 0;
    }

    method SetContext(ctx: DotContext<string>)
      modifies this
      ensures dotContext == ctx && value == old(value)
    {
      dotContext := ctx;
    }

    /** Adds `amount`; the delta carries the new value. */
    method Inc(amount: int) returns (delta: MockCRDT)
      modifies this
      ensures value == old(value) + amount && dotContext == old(dotContext)
      ensures fresh(delta) && fresh(delta.dotContext) && delta.dotContext.dots == {}
      ensures delta.id == id && delta.value == value
    {
      delta := new MockCRDT(id);
      delta.value := value + amount;
      value := value + amount;
    }

    /** Sets the value to 0; the delta carries the value before the reset. */
    method Reset() returns (delta: MockCRDT)
      modifies this
      ensures value == 0 && dotContext == old(dotContext)
      ensures fresh(delta) && fresh(delta.dotContext) && delta.dotContext.dots == {}
      ensures delta.id == id && delta.value == old(value)
    {
      delta := new MockCRDT(id);
      delta.value := value;
      value := 0;
    }

    /** Keeps the larger of the two values. */
    method Join(other: MockCRDT)
      modifies this
      ensures value == Max(old(value), old(other.value)) && dotContext == old(dotContext)
    {
      if other.value > value {
        value := other.value;
      }
    }

    method NewEmpty(id: string) returns (e: MockCRDT)
      ensures fresh(e) && fresh(e.dotContext) && e.dotContext.dots == {}
      ensures e.id == id && e.value == 0 && e.IsEmpty()
    {
      e := new MockCRDT(id);
    }

    /** An independent copy: a new object with a copy of the context. */
    method Clone() returns (c: MockCRDT)
      ensures fresh(c) && fresh(c.dotContext) && c.dotContext.dots == dotContext.dots
      ensures c.id == id && c.value == value
    {
      c := new MockCRDT(id);
      c.value := value;
      c.dotContext := dotContext.Clone();
    }

    /** The value a new register starts with; joining it into a non-negative register changes nothing. */
    predicate IsEmpty()
      reads this
      ensures IsEmpty() ==> forall v :: v >= 0 ==> Max(v, value) == v
    {
      value == 0
    }
  }
}
