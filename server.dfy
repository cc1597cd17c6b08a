/**
 * The Server of internal/db/server.go over a PocketBase store whose records it updates in
 * place. Each method is proved to have the effect the Store function of the same step
 * describes, so the properties proved about those functions hold of the methods.
 * The notification push is recorded in the ghost log `sent`.
 */
module ServerClass {
  import opened Wrappers
  import opened Model
  import opened Store

  class Server {
    var products: seq<ProductRec>
    var prices: seq<PriceRec>
    var urls: seq<UrlRec>
    var accounts: seq<Account>
    var schemas: map<string, seq<string>>
    var clock: nat
    var nextId: nat
    const faults: set<nat>
    ghost var sent: seq<Product>

    ghost function State(): Db
      reads this
    {
      Db(products, prices, urls, accounts, schemas, clock, nextId, faults, sent)
    }

    /** A fresh store with the given collections, failing at the instants in `faults`. */
    constructor(schemas: map<string, seq<string>>, faults: set<nat>)
      ensures State() == Empty(schemas, faults) && Valid(State())
    {
      this.products := [];
      this.prices := [];
      this.urls := [];
      this.accounts := [];
      this.schemas := schemas;
      this.clock := 0;
      this.nextId := 1;
      this.faults := faults;
      this.sent := [];
    }

    /** App.Save of an existing price record after record.Set("price", price). */
    method SaveExisting(ri: nat, price: real) returns (ok: bool)
      requires ri < |prices|
      modifies this
      ensures (State(), ok) == Touch(old(State()), ri, price)
    {
      ok := !(clock in faults || price == 0.0);
      if ok {
        prices := prices[ri := prices[ri].(price := price, updated := clock)];
      }
      clock := clock + 1;
    }

    /** App.Save of a new product record with name and stock set. */
    method SaveProduct(name: string, stock: int) returns (id: Option<nat>)
      modifies this
      ensures (State(), id) == CreateProduct(old(State()), name, stock)
    {
      if clock in faults || name == "" || stock == 0 {
        id := None;
      } else {
        products := products + [ProductRec(nextId, name, stock)];
        id := Some(nextId);
        nextId := nextId + 1;
      }
      clock := clock + 1;
    }

    /** CountPriceRecords: the store's count, 0 when the store reports an error. */
    method CountPriceRecords(product: nat) returns (count: nat)
      modifies this
      ensures (State(), count) == CountAt(old(State()), product)
    {
      count := if clock in faults then 0 else CountFor(prices, product);
      clock := clock + 1;
    }

    /** The AddMonitor callback, run after a price record was created. */
    method AfterCreate(rec: PriceRec)
      modifies this
      ensures State() == Notify(old(State()), rec)
    {
      var count := CountPriceRecords(rec.product);
      if count > 1 {
        var product := GetProduct(products, rec);
        if product.id != 0 {
          sent := sent + [product];
        }
      }
    }

    /** App.Save of a new price record {product, price}: the before-create hook of
        PriceUpdateHook saves the latest record with that product and price instead, if any;
        otherwise the record is created and the after-create callback runs. */
    method SavePrice(product: nat, price: real) returns (ok: bool)
      modifies this
      ensures (State(), ok) == CreatePrice(old(State()), product, price)
    {
      var existing := LatestPrice(prices, product, price);
      if existing.Some? {
        ok := SaveExisting(existing.value, price);
        return;
      }
      if clock in faults || price == 0.0 || FindById(products, product).None? {
        clock := clock + 1;
        return false;
      }
      var rec := PriceRec(nextId, product, price, clock, clock);
      prices := prices + [rec];
      clock := clock + 1;
      nextId := nextId + 1;
      AfterCreate(rec);
      ok := true;
    }

    /** AddToCollection: each observation is matched, then coalesced into its record or saved
        as a new (product and) price record; the first failed Save ends the batch. */
    method AddToCollection(batch: seq<Observation>)
      modifies this
      ensures State() == Reconcile(old(State()), batch).0
    {
      for i := 0 to |batch|
        invariant Reconcile(old(State()), batch) == Reconcile(State(), batch[i..])
      {
        var obs := batch[i];
        var ok := ObserveOne(obs);
        assert batch[i..][1..] == batch[i + 1..];
        if !ok {
          return;
        }
      }
    }

    /** The body of the AddToCollection loop for one observation; false when a Save failed.
        On a match the new stock is only set on the in-memory product record, which is never
        saved, so it has no effect on the store. */
    method ObserveOne(obs: Observation) returns (ok: bool)
      modifies this
      ensures (State(), ok) == Step(old(State()), obs)
    {
      match PriceMatch(products, prices, obs.name, obs.price)
      case Matched(_, ri) =>
        ok := SaveExisting(ri, obs.price);
      case NoPrice(pi) =>
        ok := SavePrice(products[pi].id, obs.price);
      case NoProduct =>
        var id := SaveProduct(obs.name, obs.stock);
        if id.None? {
          return false;
        }
        ok := SavePrice(id.value, obs.price);
    }

    /** GetURLs: the "url" field of every record of the urls collection, in order; nothing
        when FindAllRecords reports an error (`readFails`). */
    method GetURLs(readFails: bool) returns (list: seq<string>)
      ensures readFails ==> list == []
      ensures !readFails ==> |list| == |urls| && forall k :: 0 <= k < |urls| ==> list[k] == urls[k].url
    {
      list := [];
      if readFails {
        return;
      }
      for i := 0 to |urls|
        invariant |list| == i && forall k :: 0 <= k < i ==> list[k] == urls[k].url
      {
        list := list + [urls[i].url];
      }
    }
  }
}
