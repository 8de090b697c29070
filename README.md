# Printify inventory sync: decision engine

This project models the decision engine of the inventory synchronisation agent
(`inventory_sync.py`) in Dafny. A pass reconciles a store's published products
against the live catalogs of their print providers, with two parts:

- **Stock reconciler.** For each product it compares every variant's enabled
  flag with the ids that the current provider's live catalog lists:
  - an enabled variant that is no longer listed is out of stock: it is disabled and a failover is wanted;
  - a disabled variant that is listed again is restocked: it is re-enabled.

  It then chooses one of three outcomes: no update, the disable/restore list,
  or a provider switch.
- **Failover matcher.** It walks the blueprint's providers in order and skips
  the current one. It keys each candidate's catalog by normalised option set
  (the (category, value) pairs in sorted order). The first candidate in which
  every store variant's option set occurs wins, and the whole variant list is
  remapped onto it.

Modules:

- `Wrappers` (`wrappers.dfy`): `Option`.
- `OptionSets` (`option_sets.dfy`): the normalised option-set key.
  - `StrLt` is string order by code point.
  - `PairLt` is tuple order on pairs.
  - `SortItems` is an insertion sort.
  - `OptionKey` is the key itself.
  - Proved: the key is the only sorted arrangement of the items, and two keys are equal exactly when the two option dictionaries hold the same pairs.
- `Catalog` (`catalog.dfy`): the records (store variant, catalog variant, outbound entry, product). It also holds the `Service` snapshot, which stands in for the two catalog queries.
- `Failover` (`failover.dfy`): the matcher.
  - `Index` is the option-set index.
  - `Remap` is the all-or-nothing remap.
  - `FirstFit` and `FindAlternative` are the search.
  - The methods `RemapVariants` and `AttemptProviderFailover` are the source's loops, each proved equal to its specification function.
- `InventorySync` (`inventory_sync.dfy`): the reconciler.
  - `ClassifyVariants` is the per-variant loop.
  - `ReconcileProduct` is the per-product body.
  - `SyncInventory` is the product loop.
  - The lemmas cover the precedence rules and the worked scenarios.

The client is replaced by plain data. `get_blueprint_details` becomes a
lookup in `Service.blueprints`. `get_blueprint_variants` becomes a lookup in
`Service.catalogs`, keyed by (blueprint, provider). A missing key stands for no
data, or data without a `variants` list. `get_all_products` becomes an
`Option<seq<Product>>` argument. The `update_product` call becomes the
returned `Outcome` or list of `Update`s.

Points of the code's behaviour that the model keeps:

- A candidate is skipped only when its catalog data is missing or has no
  `variants` key (inventory_sync.py:29). A catalog whose variant list is
  empty is indexed like any other. Against an empty store list, that
  provider is accepted with an empty remap. The truthiness test at line 121
  turns that back into the fallback, and the reconciler never asks for
  failover with an empty list.
- The success test at line 121 is truthiness. A returned provider id `0`,
  or an empty remapped list, leads to the disable/restore fallback
  (`SwitchAccepted`).
- The option index is a dictionary comprehension (line 33). When two catalog
  variants share an option set, the later one wins (`IndexLaterWins`,
  `FoundIsLastMatch`).
- A switch copies each store variant's enabled flag as it was before
  reconciliation (lines 42-46). A variant that went out of stock stays
  enabled on the new provider, and a variant that came back in stock but is
  still disabled in the store stays disabled after the switch.

## Model

| member | source | states |
|---|---|---|
| `OptionSets.SortItemsSorted` | inventory_sync.py:38 | the sorted items are in ascending tuple order and are a permutation of the option pairs |
| `OptionSets.OptionKeyIsTheSortedItems` | inventory_sync.py:38 | any ascending arrangement of the option pairs equals the key, so the key is what sorting the items yields whatever the algorithm |
| `OptionSets.OptionKeyIgnoresOrder` | inventory_sync.py:33-38 | two option lists give the same key exactly when they are permutations of each other |
| `OptionSets.DictKeyIgnoresOrder` | inventory_sync.py:33-38 | for two option dictionaries the keys agree exactly when they hold the same (category, value) pairs, in any order |
| `Failover.IndexHasEveryKey` | inventory_sync.py:33 | the option set of every catalog variant is a key of the index |
| `Failover.IndexLaterWins` | inventory_sync.py:33 | every index key comes from the catalog and maps to the last catalog variant with that key |
| `Failover.RemapSucceedsIff` | inventory_sync.py:35-50 | the all-or-nothing remap succeeds exactly when every store variant's key is in the index |
| `Failover.RemapEntries` | inventory_sync.py:37-50 | when every key is indexed, the remap has one entry per store variant in store order, with the indexed variant's id and the store's price and flag |
| `Failover.RemapVariants` | inventory_sync.py:35-50 | the per-candidate loop, which stops at the first unmatched variant, reports success exactly when the remap succeeds and then returns the remapped list |
| `Failover.FirstFit` | inventory_sync.py:21-54 | no result exactly when no listed provider is viable; otherwise the result is the first viable provider in list order, with its remap |
| `Failover.FindAlternative` | inventory_sync.py:15-57 | an unavailable blueprint gives no result; a result is never the current provider and is one of the blueprint's providers |
| `Failover.AttemptProviderFailover` | inventory_sync.py:6-57 | the provider loop returns exactly the first-fit result over the blueprint's providers, or none when the blueprint is unavailable |
| `Failover.KeyFoundIffMatch` | inventory_sync.py:38-40 | a store variant's key is found in the index exactly when the catalog has a variant with the same option set |
| `Failover.FoundIsLastMatch` | inventory_sync.py:33-41 | the variant found for a store variant has the same option set, and no later catalog variant does |
| `Failover.RemapByOptionSet` | inventory_sync.py:37-50 | all-or-nothing: a candidate is accepted exactly when every store option set occurs in its catalog; each remapped entry then carries the id of the last catalog variant with that option set, and the store's price and flag |
| `Failover.FailoverIsFirstFit` | inventory_sync.py:21-54 | when provider i of the blueprint is viable and none before it is, the matcher returns provider i with its remap |
| `Failover.FailoverFailsExactly` | inventory_sync.py:15-57 | the matcher fails exactly when the blueprint is unavailable, or when every provider is the current one, lacks catalog data, or misses some store option set |
| `Failover.UnorderedOptionsMatch` | inventory_sync.py:33-46 | a store variant {size: L, color: Black} is remapped onto the catalog variant {color: Black, size: L} |
| `InventorySync.AvailableIds` | inventory_sync.py:90 | the live id set holds exactly the ids of the live catalog's variants |
| `InventorySync.DisableRestoreList` | inventory_sync.py:96-112 | one entry per store variant, in order, with id and price unchanged; the new flag is true exactly when the id is live |
| `InventorySync.ClassifyVariants` | inventory_sync.py:92-112 | the loop builds the disable/restore list; the update flag is raised exactly when some variant's flag disagrees with liveness, and the failover flag exactly when some enabled variant is not live |
| `InventorySync.ReconcileProduct` | inventory_sync.py:84-129 | the per-product body returns the decision `Reconcile`: skipped without live data, in sync, the disable/restore list, or the provider switch |
| `InventorySync.PlannedUpdates` | inventory_sync.py:76-131 | a pass sends no more updates than there are products; every product whose decision is a change gets its update, and every update is some product's decided change |
| `InventorySync.ChangedPositions` | inventory_sync.py:76-131 | the positions listed are strictly ascending, each is a product whose decision is a change, and every such product's position is listed |
| `InventorySync.PlannedUpdatesByPosition` | inventory_sync.py:76-131 | the k-th update of a pass is the update of the k-th changed product: exactly one per changed product, none for the others, in product order |
| `InventorySync.SyncInventory` | inventory_sync.py:67-137 | no product listing gives no update; otherwise the product loop sends exactly the planned updates, in product order |
| `InventorySync.InSyncExactly` | inventory_sync.py:114-116 | the decision is InSync exactly when live data exists and every variant's flag already equals whether its id is live |
| `InventorySync.RestockOnlyIgnoresMatcher` | inventory_sync.py:119-128 | without an out-of-stock variant the decision is the same for any blueprint and alternative catalogs, so the matcher is not consulted; a change is the disable/restore list |
| `InventorySync.MigrationCoversStore` | inventory_sync.py:37-54 | a migration found by the matcher has one entry per store variant |
| `InventorySync.FailoverTakesPrecedence` | inventory_sync.py:119-122 | with an out-of-stock variant and a matched provider of non-zero id, the update is the switch to that provider with its remapped list |
| `InventorySync.DisableWhenNoProvider` | inventory_sync.py:119-126 | with an out-of-stock variant and no accepted match, the update is the disable/restore list, and in it that variant is disabled |
| `InventorySync.SwitchIsAtomic` | inventory_sync.py:96-122 | a switch follows an out-of-stock variant and names a non-zero blueprint provider other than the current one. It replaces every variant, in order, by one from that provider's catalog with the same option set, keeping price and flag |
| `InventorySync.ScenarioSwitch` | inventory_sync.py:96-122 | enabled variant 1 {size: S} missing from the live catalog, alternative catalog {id 99, size: S}: the update switches to the alternative with [{99, price, enabled}] |
| `InventorySync.ScenarioDisable` | inventory_sync.py:96-125 | the same with the alternative lacking size S: the update is [{1, price, disabled}] |
| `InventorySync.ScenarioRestock` | inventory_sync.py:103-128 | a disabled variant whose id is live again: the update is [{1, price, enabled}] |

## Left out

- Progress logging (`print`), `time.ctime()` and the one-second pause between products: side effects with no bearing on the decisions.
- The client itself: authentication, transport and pagination. Its four calls are modelled by the `Service` snapshot, the product-listing argument and the returned updates.
- Freshness: each catalog is fetched again per query in the source. The model answers all queries of one pass from one snapshot, so a catalog changing between the stock check and the failover probe is not represented.
- The success or failure reported by `update_product` (lines 131-135): it is only printed and changes nothing later in the pass.
- Dictionary-shape failures, such as a missing `print_providers`, `options`, `id` or `price` key. These raise exceptions in the source and cannot occur with the typed records. Missing `variants` data is modelled as an absent catalog.
- Titles of products, variants and providers: they appear only in log messages.
- Integer widths: ids and prices are unbounded integers, as in the source.
