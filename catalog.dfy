/**
 * The records the decision engine reads and writes, and a snapshot of the
 * print-on-demand service it queries.
 */
module Catalog {
  import opened Wrappers
  import opened OptionSets

  type ProductId = int
  type BlueprintId = int
  type ProviderId = int
  type VariantId = int

  /** A variant as published in the store: provider-specific id, price, enabled flag, options. */
  datatype StoreVariant = StoreVariant(id: VariantId, price: int, enabled: bool, options: Options)

  /** A variant of a provider's catalog for a blueprint. */
  datatype CatalogVariant = CatalogVariant(id: VariantId, options: Options)

  /** One element of an outbound variant list: `{id, price, is_enabled}`. */
  datatype Entry = Entry(id: VariantId, price: int, enabled: bool)

  /** A published product; `provider` is its current print provider. */
  datatype Product = Product(id: ProductId, blueprint: BlueprintId, provider: ProviderId, variants: seq<StoreVariant>)

  /**
   * What the service answers during one pass.  A blueprint or a
   * (blueprint, provider) catalog that is not in the map is one the service did
   * not return (no data, or no variant list in it).
   */
  datatype Service = Service(
    blueprints: map<BlueprintId, seq<ProviderId>>,
    catalogs: map<(BlueprintId, ProviderId), seq<CatalogVariant>>)

  /** The blueprint's candidate providers, in the service's order. */
  function BlueprintDetails(svc: Service, blueprint: BlueprintId): Option<seq<ProviderId>> {
    if blueprint in svc.blueprints then Some(svc.blueprints[blueprint]) else None
  }

  /** A provider's variant catalog for a blueprint. */
  function BlueprintVariants(svc: Service, blueprint: BlueprintId, provider: ProviderId): Option<seq<CatalogVariant>> {
    if (blueprint, provider) in svc.catalogs then Some(svc.catalogs[(blueprint, provider)]) else None
  }
}
