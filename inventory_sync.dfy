/**
 * The stock reconciler: for each product, compare every variant's enabled flag
 * with the current provider's live catalog, build the disable/restore list,
 * and choose between no update, that list, and a provider switch found by the
 * failover matcher.
 */
module InventorySync {
  import opened Wrappers
  import opened OptionSets
  import opened Catalog
  import opened Failover

  /** The outbound change: a revised variant list, or a provider switch with a remapped list. */
  datatype Payload =
    | VariantsOnly(variants: seq<Entry>)
    | ProviderSwitch(provider: ProviderId, variants: seq<Entry>)

  /** Per product: no live catalog (skipped), already in sync, or an update to send. */
  datatype Outcome = Skipped | InSync | Changed(payload: Payload)

  /** The update a pass sends for one product. */
  datatype Update = Update(product: ProductId, payload: Payload)

  /** The variant ids the live catalog lists. */
  function AvailableIds(live: seq<CatalogVariant>): (ids: set<VariantId>)
    ensures forall i :: 0 <= i < |live| ==> live[i].id in ids
    ensures forall id :: id in ids ==> exists i :: 0 <= i < |live| && live[i].id == id
  {
    set v | v in live :: v.id
  }

  datatype Transition = OutOfStock | Restocked | Unchanged

  /** Enabled but no longer listed: out of stock; disabled but listed again: restocked. */
  function Classify(v: StoreVariant, available: set<VariantId>): Transition {
    if v.enabled && v.id !in available then OutOfStock
    else if !v.enabled && v.id in available then Restocked
    else Unchanged
  }

  function NewEnabled(v: StoreVariant, available: set<VariantId>): bool {
    match Classify(v, available)
    case OutOfStock => false
    case Restocked => true
    case Unchanged => v.enabled
  }

  /**
   * The disable/restore list: one entry per store variant, in order, with id
   * and price unchanged; its flag ends up saying whether the id is live.
   */
  function DisableRestoreList(store: seq<StoreVariant>, available: set<VariantId>): (r: seq<Entry>)
    ensures |r| == |store|
    ensures forall i :: 0 <= i < |store| ==>
      r[i] == Entry(store[i].id, store[i].price, store[i].id in available)
  {
    seq(|store|, i requires 0 <= i < |store| => Entry(store[i].id, store[i].price, NewEnabled(store[i], available)))
  }

  predicate RequiresUpdate(store: seq<StoreVariant>, available: set<VariantId>) {
    exists i :: 0 <= i < |store| && Classify(store[i], available) != Unchanged
  }

  predicate FailoverNeeded(store: seq<StoreVariant>, available: set<VariantId>) {
    exists i :: 0 <= i < |store| && Classify(store[i], available) == OutOfStock
  }

  /** The two flags in terms of the flags and ids themselves. */
  lemma FlagsByLiveness(store: seq<StoreVariant>, available: set<VariantId>)
    ensures RequiresUpdate(store, available) <==>
      exists i :: 0 <= i < |store| && store[i].enabled != (store[i].id in available)
    ensures FailoverNeeded(store, available) <==>
      exists i :: 0 <= i < |store| && store[i].enabled && store[i].id !in available
  {
  }

  /** The truthiness test on the matcher's answer: provider id 0 or an empty list counts as failure. */
  predicate SwitchAccepted(found: Option<Migration>) {
    found.Some? && found.value.provider != 0 && |found.value.variants| > 0
  }

  /** The decision for one product. */
  function Reconcile(svc: Service, product: Product): Outcome {
    match BlueprintVariants(svc, product.blueprint, product.provider)
    case None => Skipped
    case Some(live) =>
      var available := AvailableIds(live);
      var found := FindAlternative(svc, product, product.variants);
      if !RequiresUpdate(product.variants, available) then InSync
      else if FailoverNeeded(product.variants, available) && SwitchAccepted(found) then
        Changed(ProviderSwitch(found.value.provider, found.value.variants))
      else Changed(VariantsOnly(DisableRestoreList(product.variants, available)))
  }

  /** The per-variant loop: classify each variant, build the list, raise the two flags. */
  method ClassifyVariants(store: seq<StoreVariant>, available: set<VariantId>)
    returns (variantsForUpdate: seq<Entry>, requiresUpdate: bool, failoverNeeded: bool)
    ensures |variantsForUpdate| == |store|
    ensures forall i :: 0 <= i < |store| ==>
      variantsForUpdate[i] == Entry(store[i].id, store[i].price, store[i].id in available)
    ensures requiresUpdate <==> exists i :: 0 <= i < |store| && store[i].enabled != (store[i].id in available)
    ensures failoverNeeded <==> exists i :: 0 <= i < |store| && store[i].enabled && store[i].id !in available
  {
    variantsForUpdate := [];
    requiresUpdate := false;
    failoverNeeded := false;
    for k := 0 to |store|
      invariant |variantsForUpdate| == k
      invariant forall i :: 0 <= i < k ==>
        variantsForUpdate[i] == Entry(store[i].id, store[i].price, store[i].id in available)
      invariant requiresUpdate <==> exists i :: 0 <= i < k && store[i].enabled != (store[i].id in available)
      invariant failoverNeeded <==> exists i :: 0 <= i < k && store[i].enabled && store[i].id !in available
    {
      var variant := store[k];
      var newEnabledStatus := variant.enabled;
      if variant.enabled && variant.id !in available {
        failoverNeeded := true;
        newEnabledStatus := false;
        requiresUpdate := true;
      } else if !variant.enabled && variant.id in available {
        newEnabledStatus := true;
        requiresUpdate := true;
      }
      variantsForUpdate := variantsForUpdate + [Entry(variant.id, variant.price, newEnabledStatus)];
    }
  }

  /** The body of the product loop of sync_product_inventory, the update call becoming the result. */
  method ReconcileProduct(svc: Service, product: Product) returns (outcome: Outcome)
    ensures outcome == Reconcile(svc, product)
  {
    var liveData := BlueprintVariants(svc, product.blueprint, product.provider);
    if liveData.None? {
      return Skipped;
    }
    var available := AvailableIds(liveData.value);
    var variantsForUpdate, requiresUpdate, failoverNeeded := ClassifyVariants(product.variants, available);
    assert variantsForUpdate == DisableRestoreList(product.variants, available);
    FlagsByLiveness(product.variants, available);
    if !requiresUpdate {
      return InSync;
    }
    if failoverNeeded {
      var found := AttemptProviderFailover(svc, product, product.variants);
      if found.Some? && found.value.provider != 0 && |found.value.variants| > 0 {
        outcome := Changed(ProviderSwitch(found.value.provider, found.value.variants));
      } else {
        outcome := Changed(VariantsOnly(variantsForUpdate));
      }
    } else {
      outcome := Changed(VariantsOnly(variantsForUpdate));
    }
  }

  /** The updates of one pass, in product order: one per product whose outcome is a change. */
  function PlannedUpdates(svc: Service, products: seq<Product>): (r: seq<Update>)
    ensures |r| <= |products|
    ensures forall i :: 0 <= i < |products| && Reconcile(svc, products[i]).Changed? ==>
      Update(products[i].id, Reconcile(svc, products[i]).payload) in r
    ensures forall u :: u in r ==>
      exists i :: 0 <= i < |products| && products[i].id == u.product && Reconcile(svc, products[i]) == Changed(u.payload)
    decreases |products|
  {
    if |products| == 0 then []
    else
      var front := products[..|products| - 1];
      var p := products[|products| - 1];
      var earlier := PlannedUpdates(svc, front);
      assert forall i :: 0 <= i < |front| ==> front[i] == products[i];
      match Reconcile(svc, p)
      case Changed(payload) => earlier + [Update(p.id, payload)]
      case _ => earlier
  }

  /** The positions of the products whose decision is a change, in ascending order. */
  function ChangedPositions(svc: Service, products: seq<Product>): (idx: seq<int>)
    ensures forall k :: 0 <= k < |idx| ==> 0 <= idx[k] < |products| && Reconcile(svc, products[idx[k]]).Changed?
    ensures forall k, l :: 0 <= k < l < |idx| ==> idx[k] < idx[l]
    ensures forall i :: 0 <= i < |products| && Reconcile(svc, products[i]).Changed? ==> i in idx
    decreases |products|
  {
    if |products| == 0 then []
    else
      var n := |products| - 1;
      var front := products[..n];
      assert forall i :: 0 <= i < n ==> front[i] == products[i];
      if Reconcile(svc, products[n]).Changed? then ChangedPositions(svc, front) + [n]
      else ChangedPositions(svc, front)
  }

  /**
   * The k-th update of a pass is the k-th changed product's update: one update
   * per changed product, none for the others, in product order.
   */
  lemma {:induction false} PlannedUpdatesByPosition(svc: Service, products: seq<Product>)
    ensures |PlannedUpdates(svc, products)| == |ChangedPositions(svc, products)|
    ensures forall k :: 0 <= k < |ChangedPositions(svc, products)| ==>
      var i := ChangedPositions(svc, products)[k];
      PlannedUpdates(svc, products)[k] == Update(products[i].id, Reconcile(svc, products[i]).payload)
    decreases |products|
  {
    if |products| > 0 {
      var n := |products| - 1;
      var front := products[..n];
      assert forall i :: 0 <= i < n ==> front[i] == products[i];
      PlannedUpdatesByPosition(svc, front);
      var r, idx := PlannedUpdates(svc, products), ChangedPositions(svc, products);
      var r0, idx0 := PlannedUpdates(svc, front), ChangedPositions(svc, front);
      if Reconcile(svc, products[n]).Changed? {
        assert r == r0 + [Update(products[n].id, Reconcile(svc, products[n]).payload)];
        assert idx == idx0 + [n];
      } else {
        assert r == r0 && idx == idx0;
      }
      forall k | 0 <= k < |idx|
        ensures r[k] == Update(products[idx[k]].id, Reconcile(svc, products[idx[k]]).payload)
      {
        if k < |idx0| {
          assert idx[k] == idx0[k] && r[k] == r0[k] && front[idx0[k]] == products[idx[k]];
        }
      }
    }
  }

  /** sync_product_inventory: an absent product listing ends the pass with no update. */
  method SyncInventory(svc: Service, listing: Option<seq<Product>>) returns (updates: seq<Update>)
    ensures listing.None? ==> updates == []
    ensures listing.Some? ==> updates == PlannedUpdates(svc, listing.value)
  {
    updates := [];
    if listing.None? {
      return;
    }
    var products := listing.value;
    for n := 0 to |products|
      invariant updates == PlannedUpdates(svc, products[..n])
    {
      assert products[..n + 1][..n] == products[..n];
      var outcome := ReconcileProduct(svc, products[n]);
      if outcome.Changed? {
        updates := updates + [Update(products[n].id, outcome.payload)];
      }
    }
    assert products[..|products|] == products;
  }

  // ---------------------------------------------------------------------------
  // Properties of the decision
  // ---------------------------------------------------------------------------

  /** A product is left alone exactly when every variant's flag already says whether its id is live. */
  lemma InSyncExactly(svc: Service, product: Product)
    ensures Reconcile(svc, product) == InSync <==>
      BlueprintVariants(svc, product.blueprint, product.provider).Some? &&
      var available := AvailableIds(BlueprintVariants(svc, product.blueprint, product.provider).value);
      forall i :: 0 <= i < |product.variants| ==>
        product.variants[i].enabled == (product.variants[i].id in available)
  {
  }

  /**
   * When no variant went out of stock the matcher is never consulted: the
   * decision depends on the current provider's live catalog alone, and any
   * change is the disable/restore list.
   */
  lemma RestockOnlyIgnoresMatcher(svc: Service, other: Service, product: Product)
    requires BlueprintVariants(svc, product.blueprint, product.provider) ==
             BlueprintVariants(other, product.blueprint, product.provider)
    requires forall i :: 0 <= i < |product.variants| ==>
      !(product.variants[i].enabled &&
        BlueprintVariants(svc, product.blueprint, product.provider).Some? &&
        product.variants[i].id !in AvailableIds(BlueprintVariants(svc, product.blueprint, product.provider).value))
    ensures Reconcile(svc, product) == Reconcile(other, product)
    ensures Reconcile(svc, product).Changed? ==>
      Reconcile(svc, product) == Changed(VariantsOnly(DisableRestoreList(product.variants,
        AvailableIds(BlueprintVariants(svc, product.blueprint, product.provider).value))))
  {
  }

  /** A migration the matcher returns replaces every store variant. */
  lemma MigrationCoversStore(svc: Service, product: Product, store: seq<StoreVariant>)
    requires FindAlternative(svc, product, store).Some?
    ensures |FindAlternative(svc, product, store).value.variants| == |store|
  {
    var ps := BlueprintDetails(svc, product.blueprint).value;
    var m := FindAlternative(svc, product, store).value;
    var i :| 0 <= i < |ps| && FirstViable(svc, product, store, ps, i) &&
      m == Migration(ps[i], CandidateRemap(svc, product, store, ps[i]).value);
    var idx := Index(BlueprintVariants(svc, product.blueprint, ps[i]).value);
    RemapSucceedsIff(store, idx);
    RemapEntries(store, idx);
  }

  /**
   * Failover takes precedence: when a variant went out of stock and the matcher
   * finds a provider (with a non-zero id), the update is the switch to it.
   */
  lemma FailoverTakesPrecedence(svc: Service, product: Product, k: int)
    requires BlueprintVariants(svc, product.blueprint, product.provider).Some?
    requires 0 <= k < |product.variants|
    requires product.variants[k].enabled
    requires product.variants[k].id !in AvailableIds(BlueprintVariants(svc, product.blueprint, product.provider).value)
    requires FindAlternative(svc, product, product.variants).Some?
    requires FindAlternative(svc, product, product.variants).value.provider != 0
    ensures Reconcile(svc, product) ==
      Changed(ProviderSwitch(FindAlternative(svc, product, product.variants).value.provider,
                             FindAlternative(svc, product, product.variants).value.variants))
  {
  }

  /**
   * Without a usable provider the out-of-stock variants are disabled in place:
   * the update is the disable/restore list.
   */
  lemma DisableWhenNoProvider(svc: Service, product: Product, k: int)
    requires BlueprintVariants(svc, product.blueprint, product.provider).Some?
    requires 0 <= k < |product.variants|
    requires product.variants[k].enabled
    requires product.variants[k].id !in AvailableIds(BlueprintVariants(svc, product.blueprint, product.provider).value)
    requires !SwitchAccepted(FindAlternative(svc, product, product.variants))
    ensures Reconcile(svc, product) ==
      Changed(VariantsOnly(DisableRestoreList(product.variants,
        AvailableIds(BlueprintVariants(svc, product.blueprint, product.provider).value))))
    ensures !Reconcile(svc, product).payload.variants[k].enabled
  {
  }

  /**
   * A provider switch is atomic: it is proposed only after a variant went out
   * of stock, names a provider of the blueprint other than the current one, and
   * replaces every variant, in order, by a variant of that provider's catalog
   * with the same option set, keeping the store's price and enabled flag.
   */
  lemma SwitchIsAtomic(svc: Service, product: Product)
    requires Reconcile(svc, product).Changed? && Reconcile(svc, product).payload.ProviderSwitch?
    ensures BlueprintVariants(svc, product.blueprint, product.provider).Some?
    ensures FailoverNeeded(product.variants, AvailableIds(BlueprintVariants(svc, product.blueprint, product.provider).value))
    ensures
      var p := Reconcile(svc, product).payload.provider;
      var vs := Reconcile(svc, product).payload.variants;
      var store := product.variants;
      && p != 0 && p != product.provider
      && BlueprintDetails(svc, product.blueprint).Some? && p in BlueprintDetails(svc, product.blueprint).value
      && BlueprintVariants(svc, product.blueprint, p).Some?
      && |vs| == |store| > 0
      && forall i :: 0 <= i < |store| ==>
        vs[i].price == store[i].price && vs[i].enabled == store[i].enabled &&
        exists m :: (0 <= m < |BlueprintVariants(svc, product.blueprint, p).value| &&
          BlueprintVariants(svc, product.blueprint, p).value[m].id == vs[i].id &&
          SameOptionSet(BlueprintVariants(svc, product.blueprint, p).value[m].options, store[i].options))
  {
    var store := product.variants;
    var found := FindAlternative(svc, product, store);
    var ps := BlueprintDetails(svc, product.blueprint).value;
    var j :| 0 <= j < |ps| && FirstViable(svc, product, store, ps, j) &&
      found.value == Migration(ps[j], CandidateRemap(svc, product, store, ps[j]).value);
    var catalog := BlueprintVariants(svc, product.blueprint, ps[j]).value;
    RemapByOptionSet(store, catalog);
  }

  // ---------------------------------------------------------------------------
  // Worked scenarios
  // ---------------------------------------------------------------------------

  /** One enabled size-S variant gone from the live catalog; the alternative provider has size S as id 99. */
  lemma ScenarioSwitch(price: int, current: ProviderId, alt: ProviderId)
    requires alt != current && alt != 0
    ensures
      var product := Product(7, 5, current, [StoreVariant(1, price, true, [("size", "S")])]);
      var svc := Service(map[5 := [current, alt]],
                         map[(5, current) := [], (5, alt) := [CatalogVariant(99, [("size", "S")])]]);
      Reconcile(svc, product) == Changed(ProviderSwitch(alt, [Entry(99, price, true)]))
  {
    var product := Product(7, 5, current, [StoreVariant(1, price, true, [("size", "S")])]);
    var svc := Service(map[5 := [current, alt]],
                       map[(5, current) := [], (5, alt) := [CatalogVariant(99, [("size", "S")])]]);
    var store := product.variants;
    var catalog := [CatalogVariant(99, [("size", "S")])];
    assert Index(catalog) == map[OptionKey([("size", "S")]) := catalog[0]];
    var es := Remap(store, Index(catalog));
    RemapSucceedsIff(store, Index(catalog));
    RemapEntries(store, Index(catalog));
    assert es.Some? && |es.value| == 1 && es.value[0] == Entry(99, price, true);
    assert es.value == [Entry(99, price, true)];
    assert BlueprintVariants(svc, 5, alt) == Some(catalog);
    assert FirstViable(svc, product, store, [current, alt], 1);
    FailoverIsFirstFit(svc, product, store, 1);
    assert Classify(store[0], AvailableIds([])) == OutOfStock;
  }

  /** The same, but the alternative provider has no size S: the variant is disabled in place. */
  lemma ScenarioDisable(price: int, current: ProviderId, alt: ProviderId)
    requires alt != current
    ensures
      var product := Product(7, 5, current, [StoreVariant(1, price, true, [("size", "S")])]);
      var svc := Service(map[5 := [current, alt]],
                         map[(5, current) := [], (5, alt) := [CatalogVariant(98, [("size", "M")])]]);
      Reconcile(svc, product) == Changed(VariantsOnly([Entry(1, price, false)]))
  {
    var product := Product(7, 5, current, [StoreVariant(1, price, true, [("size", "S")])]);
    var svc := Service(map[5 := [current, alt]],
                       map[(5, current) := [], (5, alt) := [CatalogVariant(98, [("size", "M")])]]);
    var store := product.variants;
    var catalog := [CatalogVariant(98, [("size", "M")])];
    assert !SameOptionSet(catalog[0].options, store[0].options) by {
      assert ("size", "S") in multiset(store[0].options);
    }
    RemapByOptionSet(store, catalog);
    assert BlueprintVariants(svc, 5, alt) == Some(catalog);
    assert !Viable(svc, product, store, alt);
    FailoverFailsExactly(svc, product, store);
    DisableWhenNoProvider(svc, product, 0);
    var list := DisableRestoreList(store, AvailableIds([]));
    assert list == [list[0]];
  }

  /** A disabled variant listed again is re-enabled, and no provider is looked for. */
  lemma ScenarioRestock(svc: Service, price: int, current: ProviderId)
    requires BlueprintVariants(svc, 5, current) == Some([CatalogVariant(1, [("size", "S")])])
    ensures
      var product := Product(7, 5, current, [StoreVariant(1, price, false, [("size", "S")])]);
      Reconcile(svc, product) == Changed(VariantsOnly([Entry(1, price, true)]))
  {
    var product := Product(7, 5, current, [StoreVariant(1, price, false, [("size", "S")])]);
    var available := AvailableIds([CatalogVariant(1, [("size", "S")])]);
    assert 1 in available;
    assert Classify(product.variants[0], available) == Restocked;
    var list := DisableRestoreList(product.variants, available);
    assert list == [list[0]];
  }
}
