/**
 * The failover matcher: search the blueprint's other providers, in order, for
 * the first one whose catalog holds every store variant's option set, and
 * remap the whole variant list onto it.
 */
module Failover {
  import opened Wrappers
  import opened OptionSets
  import opened Catalog

  /** A candidate catalog keyed by normalised option set. */
  type OptionIndex = map<Key, CatalogVariant>

  /** A provider switch: the new provider and the remapped variant list. */
  datatype Migration = Migration(provider: ProviderId, variants: seq<Entry>)

  /** catalog[i] is the last variant of the catalog whose key is k. */
  predicate LastWithKey(catalog: seq<CatalogVariant>, k: Key, i: int)
    requires 0 <= i < |catalog|
  {
    OptionKey(catalog[i].options) == k &&
    forall j :: i < j < |catalog| ==> OptionKey(catalog[j].options) != k
  }

  /** The index built by the dictionary comprehension, later catalog entries overwriting earlier ones. */
  function Index(catalog: seq<CatalogVariant>): OptionIndex
    decreases |catalog|
  {
    if |catalog| == 0 then map[]
    else
      var last := catalog[|catalog| - 1];
      Index(catalog[..|catalog| - 1])[OptionKey(last.options) := last]
  }

  /** Every catalog variant's option set is a key of the index. */
  lemma {:induction false} IndexHasEveryKey(catalog: seq<CatalogVariant>, i: int)
    requires 0 <= i < |catalog|
    ensures OptionKey(catalog[i].options) in Index(catalog)
    decreases |catalog|
  {
    if i < |catalog| - 1 {
      var front := catalog[..|catalog| - 1];
      assert front[i] == catalog[i];
      IndexHasEveryKey(front, i);
    }
  }

  /** Every key of the index comes from the catalog and maps to the last variant carrying it. */
  lemma {:induction false} IndexLaterWins(catalog: seq<CatalogVariant>, k: Key)
    requires k in Index(catalog)
    ensures exists i :: 0 <= i < |catalog| && LastWithKey(catalog, k, i) && Index(catalog)[k] == catalog[i]
    decreases |catalog|
  {
    var n := |catalog| - 1;
    var front := catalog[..n];
    var lastKey := OptionKey(catalog[n].options);
    assert Index(catalog) == Index(front)[lastKey := catalog[n]];
    if lastKey == k {
      assert LastWithKey(catalog, k, n);
    } else {
      assert k in Index(front) && Index(catalog)[k] == Index(front)[k];
      IndexLaterWins(front, k);
      var i :| 0 <= i < |front| && LastWithKey(front, k, i) && Index(front)[k] == front[i];
      assert front[i] == catalog[i];
      forall j | i < j < |catalog| ensures OptionKey(catalog[j].options) != k {
        if j < n {
          assert front[j] == catalog[j];
          assert OptionKey(front[j].options) != k;
        } else {
          assert j == n;
        }
      }
      assert LastWithKey(catalog, k, i);
    }
  }

  /**
   * All-or-nothing remap of the store variants through a candidate index: each
   * store variant, in order, takes the id of the indexed variant with its key
   * and keeps its own price and enabled flag; one missing key rejects the lot.
   */
  function Remap(store: seq<StoreVariant>, idx: OptionIndex): Option<seq<Entry>>
    decreases |store|
  {
    if |store| == 0 then Some([])
    else
      var v := store[|store| - 1];
      var k := OptionKey(v.options);
      match Remap(store[..|store| - 1], idx)
      case None => None
      case Some(es) => if k in idx then Some(es + [Entry(idx[k].id, v.price, v.enabled)]) else None
  }

  /** The remap succeeds exactly when every store variant's key is in the index. */
  lemma {:induction false} RemapSucceedsIff(store: seq<StoreVariant>, idx: OptionIndex)
    ensures Remap(store, idx).Some? <==> forall i :: 0 <= i < |store| ==> OptionKey(store[i].options) in idx
    decreases |store|
  {
    if |store| > 0 {
      var front := store[..|store| - 1];
      RemapSucceedsIff(front, idx);
      assert forall i :: 0 <= i < |front| ==> front[i] == store[i];
    }
  }

  /**
   * A successful remap has one entry per store variant, in store order, with the
   * indexed variant's id and the store variant's price and enabled flag.
   */
  lemma {:induction false} RemapEntries(store: seq<StoreVariant>, idx: OptionIndex)
    requires forall i :: 0 <= i < |store| ==> OptionKey(store[i].options) in idx
    ensures Remap(store, idx).Some? && |Remap(store, idx).value| == |store|
    ensures forall i :: 0 <= i < |store| ==>
      Remap(store, idx).value[i] == Entry(idx[OptionKey(store[i].options)].id, store[i].price, store[i].enabled)
    decreases |store|
  {
    if |store| > 0 {
      var front := store[..|store| - 1];
      assert forall i :: 0 <= i < |front| ==> front[i] == store[i];
      RemapEntries(front, idx);
      var es := Remap(front, idx).value;
      var r := Remap(store, idx).value;
      assert forall i :: 0 <= i < |front| ==> r[i] == es[i];
    }
  }

  /** What evaluating provider p yields: a remapped list, or None when p is skipped or rejected. */
  function CandidateRemap(svc: Service, product: Product, store: seq<StoreVariant>, p: ProviderId): Option<seq<Entry>> {
    if p == product.provider then None
    else match BlueprintVariants(svc, product.blueprint, p)
      case None => None
      case Some(catalog) => Remap(store, Index(catalog))
  }

  predicate Viable(svc: Service, product: Product, store: seq<StoreVariant>, p: ProviderId) {
    CandidateRemap(svc, product, store, p).Some?
  }

  /** ps[i] is viable and no provider before it is. */
  predicate FirstViable(svc: Service, product: Product, store: seq<StoreVariant>, ps: seq<ProviderId>, i: int)
    requires 0 <= i < |ps|
  {
    Viable(svc, product, store, ps[i]) &&
    forall j :: 0 <= j < i ==> !Viable(svc, product, store, ps[j])
  }

  /** First-fit search over the candidate list. */
  function FirstFit(svc: Service, product: Product, store: seq<StoreVariant>, ps: seq<ProviderId>): (r: Option<Migration>)
    ensures r.None? <==> forall j :: 0 <= j < |ps| ==> !Viable(svc, product, store, ps[j])
    ensures r.Some? ==> exists i :: (0 <= i < |ps| && FirstViable(svc, product, store, ps, i) &&
      r.value == Migration(ps[i], CandidateRemap(svc, product, store, ps[i]).value))
    decreases |ps|
  {
    if |ps| == 0 then None
    else
      var rest := ps[1..];
      assert forall j :: 0 <= j < |rest| ==> rest[j] == ps[j + 1];
      match CandidateRemap(svc, product, store, ps[0])
      case Some(es) =>
        assert FirstViable(svc, product, store, ps, 0);
        Some(Migration(ps[0], es))
      case None =>
        var r := FirstFit(svc, product, store, rest);
        assert r.Some? ==> exists i :: (0 < i < |ps| && FirstViable(svc, product, store, ps, i) &&
          r.value == Migration(ps[i], CandidateRemap(svc, product, store, ps[i]).value)) by {
          if r.Some? {
            var i :| 0 <= i < |rest| && FirstViable(svc, product, store, rest, i) &&
              r.value == Migration(rest[i], CandidateRemap(svc, product, store, rest[i]).value);
            assert FirstViable(svc, product, store, ps, i + 1);
          }
        }
        r
  }

  /**
   * The matcher's result: None when the blueprint is unavailable, otherwise the
   * first viable provider in blueprint order, never the current one.
   */
  function FindAlternative(svc: Service, product: Product, store: seq<StoreVariant>): (r: Option<Migration>)
    ensures BlueprintDetails(svc, product.blueprint).None? ==> r.None?
    ensures r.Some? ==> r.value.provider != product.provider
    ensures r.Some? ==> r.value.provider in BlueprintDetails(svc, product.blueprint).value
  {
    match BlueprintDetails(svc, product.blueprint)
    case None => None
    case Some(ps) => FirstFit(svc, product, store, ps)
  }

  /** Remapping one more store variant extends the remap of the prefix, or rejects it. */
  lemma RemapStep(store: seq<StoreVariant>, idx: OptionIndex, j: int)
    requires 0 <= j < |store|
    requires Remap(store[..j], idx).Some?
    ensures OptionKey(store[j].options) in idx ==>
      Remap(store[..j + 1], idx) ==
        Some(Remap(store[..j], idx).value + [Entry(idx[OptionKey(store[j].options)].id, store[j].price, store[j].enabled)])
    ensures OptionKey(store[j].options) !in idx ==> Remap(store, idx).None?
  {
    assert store[..j + 1][..j] == store[..j];
    if OptionKey(store[j].options) !in idx {
      RemapSucceedsIff(store, idx);
    }
  }

  /** The per-candidate loop: remap store variants in order, stopping at the first without a match. */
  method RemapVariants(store: seq<StoreVariant>, index: OptionIndex) returns (allMapped: bool, payload: seq<Entry>)
    ensures allMapped <==> Remap(store, index).Some?
    ensures allMapped ==> Remap(store, index) == Some(payload)
  {
    payload := [];
    allMapped := true;
    for j := 0 to |store|
      invariant allMapped
      invariant Remap(store[..j], index) == Some(payload)
    {
      RemapStep(store, index, j);
      var key := OptionKey(store[j].options);
      if key in index {
        payload := payload + [Entry(index[key].id, store[j].price, store[j].enabled)];
      } else {
        allMapped := false;
        break;
      }
    }
    if allMapped {
      assert store[..|store|] == store;
    }
  }

  /** attempt_provider_failover: the provider loop with its per-candidate remap loop. */
  method AttemptProviderFailover(svc: Service, product: Product, store: seq<StoreVariant>) returns (r: Option<Migration>)
    ensures r == FindAlternative(svc, product, store)
  {
    var blueprintData := BlueprintDetails(svc, product.blueprint);
    if blueprintData.None? {
      return None;
    }
    var providers := blueprintData.value;
    for n := 0 to |providers|
      invariant FirstFit(svc, product, store, providers[n..]) == FirstFit(svc, product, store, providers)
    {
      assert providers[n..][1..] == providers[n + 1..];
      var newProviderId := providers[n];
      if newProviderId == product.provider {
        continue;
      }
      var catalogData := BlueprintVariants(svc, product.blueprint, newProviderId);
      if catalogData.None? {
        continue;
      }
      var allMapped, payload := RemapVariants(store, Index(catalogData.value));
      if allMapped {
        return Some(Migration(newProviderId, payload));
      }
    }
    return None;
  }

  // ---------------------------------------------------------------------------
  // Properties of the matcher
  // ---------------------------------------------------------------------------

  /** Two option dictionaries describe the same logical variant: the same pairs, in any order. */
  predicate SameOptionSet(a: Options, b: Options) {
    multiset(a) == multiset(b)
  }

  /** Some catalog variant has exactly the option set opts. */
  predicate HasMatch(catalog: seq<CatalogVariant>, opts: Options) {
    exists m :: 0 <= m < |catalog| && SameOptionSet(catalog[m].options, opts)
  }

  /** A store variant's key is found in the index exactly when the catalog holds its option set. */
  lemma KeyFoundIffMatch(catalog: seq<CatalogVariant>, opts: Options)
    ensures OptionKey(opts) in Index(catalog) <==> HasMatch(catalog, opts)
  {
    if OptionKey(opts) in Index(catalog) {
      IndexLaterWins(catalog, OptionKey(opts));
      var m :| 0 <= m < |catalog| && LastWithKey(catalog, OptionKey(opts), m);
      OptionKeyIgnoresOrder(catalog[m].options, opts);
    }
    if HasMatch(catalog, opts) {
      var m :| 0 <= m < |catalog| && SameOptionSet(catalog[m].options, opts);
      OptionKeyIgnoresOrder(catalog[m].options, opts);
      IndexHasEveryKey(catalog, m);
    }
  }

  /** The variant found for a key is the last catalog variant with the same option set. */
  lemma FoundIsLastMatch(catalog: seq<CatalogVariant>, opts: Options)
    requires OptionKey(opts) in Index(catalog)
    ensures exists m :: (0 <= m < |catalog| && Index(catalog)[OptionKey(opts)] == catalog[m] &&
      SameOptionSet(catalog[m].options, opts) &&
      forall j :: m < j < |catalog| ==> !SameOptionSet(catalog[j].options, opts))
  {
    var k := OptionKey(opts);
    IndexLaterWins(catalog, k);
    var m :| 0 <= m < |catalog| && LastWithKey(catalog, k, m) && Index(catalog)[k] == catalog[m];
    OptionKeyIgnoresOrder(catalog[m].options, opts);
    forall j | m < j < |catalog| ensures !SameOptionSet(catalog[j].options, opts) {
      OptionKeyIgnoresOrder(catalog[j].options, opts);
    }
  }

  /**
   * All-or-nothing: a candidate catalog is accepted exactly when every store
   * variant's option set occurs in it; the accepted list has one entry per store
   * variant, in store order, carrying the id of a catalog variant with the same
   * option set (the last such) and the store variant's own price and flag.
   */
  lemma RemapByOptionSet(store: seq<StoreVariant>, catalog: seq<CatalogVariant>)
    ensures Remap(store, Index(catalog)).Some? <==>
      forall i :: 0 <= i < |store| ==> HasMatch(catalog, store[i].options)
    ensures Remap(store, Index(catalog)).Some? ==>
      var es := Remap(store, Index(catalog)).value;
      |es| == |store| &&
      forall i :: 0 <= i < |store| ==>
        es[i].price == store[i].price && es[i].enabled == store[i].enabled &&
        exists m :: (0 <= m < |catalog| && catalog[m].id == es[i].id &&
          SameOptionSet(catalog[m].options, store[i].options) &&
          forall j :: m < j < |catalog| ==> !SameOptionSet(catalog[j].options, store[i].options))
  {
    RemapSucceedsIff(store, Index(catalog));
    forall i | 0 <= i < |store|
      ensures OptionKey(store[i].options) in Index(catalog) <==> HasMatch(catalog, store[i].options)
    {
      KeyFoundIffMatch(catalog, store[i].options);
    }
    if Remap(store, Index(catalog)).Some? {
      RemapEntries(store, Index(catalog));
      forall i | 0 <= i < |store|
        ensures exists m :: (0 <= m < |catalog| && catalog[m].id == Remap(store, Index(catalog)).value[i].id &&
          SameOptionSet(catalog[m].options, store[i].options) &&
          forall j :: m < j < |catalog| ==> !SameOptionSet(catalog[j].options, store[i].options))
      {
        FoundIsLastMatch(catalog, store[i].options);
      }
    }
  }

  /** The matcher answers with the first viable provider in blueprint order. */
  lemma FailoverIsFirstFit(svc: Service, product: Product, store: seq<StoreVariant>, i: int)
    requires BlueprintDetails(svc, product.blueprint).Some?
    requires 0 <= i < |BlueprintDetails(svc, product.blueprint).value|
    requires FirstViable(svc, product, store, BlueprintDetails(svc, product.blueprint).value, i)
    ensures FindAlternative(svc, product, store) ==
      Some(Migration(BlueprintDetails(svc, product.blueprint).value[i],
                     CandidateRemap(svc, product, store, BlueprintDetails(svc, product.blueprint).value[i]).value))
  {
  }

  /**
   * The matcher fails exactly when the blueprint is unavailable or no provider
   * other than the current one has a catalog holding every store option set.
   */
  lemma FailoverFailsExactly(svc: Service, product: Product, store: seq<StoreVariant>)
    ensures FindAlternative(svc, product, store).None? <==>
      match BlueprintDetails(svc, product.blueprint)
      case None => true
      case Some(ps) => forall j :: 0 <= j < |ps| ==>
        ps[j] == product.provider ||
        BlueprintVariants(svc, product.blueprint, ps[j]).None? ||
        exists i :: 0 <= i < |store| &&
          !HasMatch(BlueprintVariants(svc, product.blueprint, ps[j]).value, store[i].options)
  {
    match BlueprintDetails(svc, product.blueprint)
    case None =>
    case Some(ps) =>
      forall j | 0 <= j < |ps| && ps[j] != product.provider && BlueprintVariants(svc, product.blueprint, ps[j]).Some?
        ensures Viable(svc, product, store, ps[j]) <==>
          forall i :: 0 <= i < |store| ==> HasMatch(BlueprintVariants(svc, product.blueprint, ps[j]).value, store[i].options)
      {
        RemapByOptionSet(store, BlueprintVariants(svc, product.blueprint, ps[j]).value);
      }
  }

  /** Matching ignores the order of the option pairs: {size: L, color: Black} finds {color: Black, size: L}. */
  lemma UnorderedOptionsMatch(price: int, enabled: bool)
    ensures
      var store := [StoreVariant(1, price, enabled, [("size", "L"), ("color", "Black")])];
      var catalog := [CatalogVariant(99, [("color", "Black"), ("size", "L")])];
      Remap(store, Index(catalog)) == Some([Entry(99, price, enabled)])
  {
    var store := [StoreVariant(1, price, enabled, [("size", "L"), ("color", "Black")])];
    var catalog := [CatalogVariant(99, [("color", "Black"), ("size", "L")])];
    assert multiset(catalog[0].options) == multiset(store[0].options);
    OptionKeyIgnoresOrder(catalog[0].options, store[0].options);
    assert Index(catalog) == map[OptionKey(catalog[0].options) := catalog[0]];
    assert OptionKey(store[0].options) == OptionKey(catalog[0].options);
    var r := Remap(store, Index(catalog));
    RemapSucceedsIff(store, Index(catalog));
    RemapEntries(store, Index(catalog));
    assert r.Some? && |r.value| == 1;
    assert r.value[0] == Entry(99, price, enabled);
    assert r.value == [r.value[0]];
  }
}
