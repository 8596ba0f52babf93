/**
  The shopping-list CRDTs of src/server/crdt/shopping: an item is a pair of
  causal counters (quantity wanted, quantity acquired) sharing one causal
  context object with the item; a list is an observed-remove map of items
  that shares the list's context object.
 */
module Shopping {
  import opened Dots
  import opened DotContexts
  import opened DotKernels
  import opened Counters
  import opened ORMaps

  /**
    Why `Join` restores the shared context between the two counter joins:
    once the first join has added other's context to the shared one, a
    second join against it adopts none of other's entries, it only drops
    the local entries other has seen.
   */
  lemma StaleContextAdoptsNothing<T>(mine: map<Dot<T>, int>, ctx0: set<Dot<T>>, b: Kernel<T, int>)
    requires WellFormed(b)
    ensures Merged(Kernel(mine, ctx0 + b.ctx), b) == Kernel(Unseen(mine, b.ctx), ctx0 + b.ctx)
  {
    assert Unseen(b.values, ctx0 + b.ctx) == map[];
  }

  /** With the context restored, the second join adopts every entry of other's the item has not seen. */
  lemma RestoredContextAdopts<T>(mine: map<Dot<T>, int>, ctx0: set<Dot<T>>, b: Kernel<T, int>, x: Dot<T>)
    requires x in b.values && x !in ctx0
    ensures x in Merged(Kernel(mine, ctx0), b).values && Merged(Kernel(mine, ctx0), b).values[x] == b.values[x]
  {
  }

  class ShoppingItem {
    const crdtID: string
    var dotContext: DotContext<string>
    const itemID: string
    const name: string
    const quantity: CCounter
    const acquired: CCounter

    /** Both counters record their dots in the item's own context object. */
    ghost predicate Valid()
      reads this, quantity, acquired, quantity.kernel, acquired.kernel
    {
      && quantity != acquired && quantity.kernel != acquired.kernel
      && quantity.kernel.dotContext == dotContext && acquired.kernel.dotContext == dotContext
    }

    /** `NewShoppingItem(crdtID, itemID, name)`: two zero counters bound to one fresh context. */
    constructor (crdtID: string, itemID: string, name: string)
      ensures Valid()
      ensures this.crdtID == crdtID && this.itemID == itemID && this.name == name
      ensures fresh(dotContext) && dotContext.dots == {}
      ensures fresh(quantity) && fresh(quantity.kernel) && fresh(acquired) && fresh(acquired.kernel)
      ensures quantity.id == crdtID && acquired.id == crdtID
      ensures quantity.kernel.dotValues == map[] && acquired.kernel.dotValues == map[]
    {
      this.crdtID := crdtID;
      this.itemID := itemID;
      this.name := name;
      var ctx := new DotContext();
      dotContext := ctx;
      quantity := new CCounter(crdtID);
      acquired := new CCounter(crdtID);
      new;
      quantity.SetContext(ctx);
      acquired.SetContext(ctx);
    }

    /** Rebinds the item and both counters to `ctx`. */
    method SetContext(ctx: DotContext<string>)
      requires quantity != acquired && quantity.kernel != acquired.kernel
      modifies this, quantity.kernel, acquired.kernel
      ensures Valid() && dotContext == ctx
      ensures quantity.kernel == old(quantity.kernel) && acquired.kernel == old(acquired.kernel)
      ensures quantity.kernel.dotValues == old(quantity.kernel.dotValues)
      ensures acquired.kernel.dotValues == old(acquired.kernel.dotValues)
    {
      dotContext := ctx;
      quantity.SetContext(ctx);
      acquired.SetContext(ctx);
    }

    /** `NewEmpty(id)`: a new item with crdt id `id` and blank item id and name. */
    method NewEmpty(id: string) returns (e: ShoppingItem)
      ensures fresh(e) && fresh(e.dotContext) && e.Valid()
      ensures e.crdtID == id && e.itemID == "" && e.name == ""
      ensures e.dotContext.dots == {} && e.quantity.kernel.dotValues == map[] && e.acquired.kernel.dotValues == map[]
    {
      e := new ShoppingItem(id, "", "");
    }

    /**
      `Reset()`: both counters lose their values and keep the context; the
      delta is a blank item whose context holds the dots the two counters
      held.
     */
    method Reset() returns (delta: ShoppingItem)
      requires Valid()
      modifies quantity.kernel, acquired.kernel
      ensures Valid()
      ensures quantity.State() == ResetState(old(quantity.State()))
      ensures acquired.State() == ResetState(old(acquired.State()))
      ensures fresh(delta) && delta.Valid()
      ensures delta.crdtID == crdtID && delta.itemID == "" && delta.name == ""
      ensures delta.quantity.kernel.dotValues == map[] && delta.acquired.kernel.dotValues == map[]
      ensures delta.dotContext.dots == old(quantity.kernel.dotValues.Keys) + old(acquired.kernel.dotValues.Keys)
    {
      delta := new ShoppingItem(crdtID, "", "");
      var quantityDelta := quantity.Reset();
      var acquiredDelta := acquired.Reset();
      delta.dotContext.Join(quantityDelta.kernel.dotContext);
      delta.dotContext.Join(acquiredDelta.kernel.dotContext);
    }

    /**
      `Join(other)`: each counter is merged with other's counterpart against
      the item's context as it was before the join (the shared context is
      restored in place after the quantity join), and the item's context
      ends as the union of both contexts. Ids and name are constants.
     */
    method Join(other: ShoppingItem)
      requires Valid() && other.Valid()
      requires other.acquired.kernel != quantity.kernel
      modifies quantity.kernel, acquired.kernel, dotContext
      ensures Valid() && dotContext == old(dotContext)
      ensures dotContext.dots == old(dotContext.dots) + old(other.dotContext.dots)
      ensures quantity.State() == Merged(old(quantity.State()), old(other.quantity.State()))
      ensures acquired.State() == Merged(old(acquired.State()), old(other.acquired.State()))
    {
      var originalContext := dotContext.Clone();
      quantity.Join(other.quantity);
      dotContext.Copy(originalContext);
      acquired.Join(other.acquired);
      dotContext.Join(other.dotContext);
    }
  }

  class ShoppingList {
    const crdtID: string
    const name: string
    var dotContext: DotContext<string>
    const items: ORMap<string, ShoppingItem>

    /** `NewShoppingList(crdtID, name)`: an empty item map whose context is the list's own. */
    constructor (crdtID: string, name: string)
      ensures this.crdtID == crdtID && this.name == name
      ensures fresh(dotContext) && dotContext.dots == {}
      ensures fresh(items) && items.id == crdtID && items.valueMap == map[]
      ensures items.dotContext == dotContext
    {
      this.crdtID := crdtID;
      this.name := name;
      var ctx := new DotContext();
      dotContext := ctx;
      items := new ORMap(crdtID);
      new;
      items.SetContext(ctx);
    }

    /** Rebinds the list and its item map to `ctx`; the items keep theirs. */
    method SetContext(ctx: DotContext<string>)
      modifies this, items
      ensures dotContext == ctx && items.dotContext == ctx
      ensures items.valueMap == old(items.valueMap)
    {
      dotContext := ctx;
      items.SetContext(ctx);
    }
  }
}
