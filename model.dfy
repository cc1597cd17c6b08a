/**
 * The value types shared by the scraper and the record store
 * (internal/model/db.go and the observation fields of internal/db/connection.go).
 */
module Model {

  /** One scraped row: the name, stock and price that ParseRow extracts.
      Prices are exact reals; stock is already narrowed to int32. */
  datatype Observation = Observation(name: string, stock: int, price: real)

  /** model.Product as the notifier receives it. Record ids are naturals with 0
      standing for Go's empty Id string; timestamps are instants of the store's clock. */
  datatype Product = Product(id: nat, name: string, stock: int, price: real, created: nat, updated: nat)

  /** Go's zero value `model.Product{}`. */
  const EmptyProduct := Product(0, "", 0, 0.0, 0, 0)
}
