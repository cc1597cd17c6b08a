/**
 * The PocketBase record store behind the reconciliation engine (internal/db/server.go), as a
 * value: the "products" and "prices" collections, the "urls" collection, the auth accounts,
 * the collection schemas, one logical clock and the log of pushed notifications.
 *
 * Every Save and every CountRecords happens at the instant `clock` and then advances it;
 * `faults` lists the instants at which the store reports an error. A Save also fails when
 * the record breaks its collection's schema (internal/db/pocketbase.go:34-71): a required
 * text or url is empty, a required number is zero, a relation points at no record, a unique
 * url is already stored.
 * Saving a new record sets created = updated = its instant; saving an existing record
 * sets only updated (internal/db/pocketbase.go:73-81). Record ids are positive; 0 stands
 * for Go's empty Id.
 */
module Store {
  import opened Wrappers
  import opened Model
  import Numbers

  datatype ProductRec = ProductRec(id: nat, name: string, stock: int)

  datatype PriceRec = PriceRec(id: nat, product: nat, price: real, created: nat, updated: nat)

  datatype UrlRec = UrlRec(id: nat, url: string, kind: string, created: nat, updated: nat)

  datatype Account = Account(collection: string, name: string, verified: bool, email: string, password: string)

  datatype Db = Db(
    products: seq<ProductRec>,
    prices: seq<PriceRec>,
    urls: seq<UrlRec>,
    accounts: seq<Account>,
    schemas: map<string, seq<string>>,
    clock: nat,
    nextId: nat,
    faults: set<nat>,
    sent: seq<Product>)

  /** The store call at the current instant reports an error. */
  predicate Faulted(db: Db) {
    db.clock in db.faults
  }

  /** The current instant has been used by a store call. */
  function Tick(db: Db): Db {
    db.(clock := db.clock + 1)
  }

  // ---------------------------------------------------------------------------
  // Lookups

  /** FindFirstRecordByData("products", "name", name): the first product with that name. */
  function FindProduct(products: seq<ProductRec>, name: string): (r: Option<nat>)
    ensures r.Some? ==> r.value < |products| && products[r.value].name == name
    ensures r.Some? ==> forall j :: 0 <= j < r.value ==> products[j].name != name
    ensures r.None? ==> forall j :: 0 <= j < |products| ==> products[j].name != name
  {
    if products == [] then None
    else if products[0].name == name then Some(0)
    else
      match FindProduct(products[1..], name)
      case None => None
      case Some(i) => Some(i + 1)
  }

  /** The product record with id `id`, as the relation expansion finds it. */
  function FindById(products: seq<ProductRec>, id: nat): (r: Option<nat>)
    ensures r.Some? ==> r.value < |products| && products[r.value].id == id
    ensures r.None? ==> forall j :: 0 <= j < |products| ==> products[j].id != id
  {
    if products == [] then None
    else if products[0].id == id then Some(0)
    else
      match FindById(products[1..], id)
      case None => None
      case Some(i) => Some(i + 1)
  }

  predicate SameEntry(rec: PriceRec, product: nat, price: real) {
    rec.product == product && rec.price == price
  }

  /** FindRecordsByFilter("prices", "product = {:product} && price = {:price}", "-updated", 1):
      the record of that product at that price with the greatest `updated`. */
  function LatestPrice(prices: seq<PriceRec>, product: nat, price: real): (r: Option<nat>)
    ensures r.Some? ==> r.value < |prices| && SameEntry(prices[r.value], product, price)
    ensures r.Some? ==> forall j :: 0 <= j < |prices| && SameEntry(prices[j], product, price) ==>
      prices[j].updated <= prices[r.value].updated
    ensures r.None? ==> forall j :: 0 <= j < |prices| ==> !SameEntry(prices[j], product, price)
  {
    if prices == [] then None
    else
      var last := |prices| - 1;
      var best := LatestPrice(prices[..last], product, price);
      if SameEntry(prices[last], product, price) &&
         (best.None? || prices[best.value].updated < prices[last].updated)
      then Some(last)
      else best
  }

  /** What PriceMatch returns: no product of that name (nil, nil, false), the product but no
      record at that price (product, nil, false), or both (product, record, true). */
  datatype Match = NoProduct | NoPrice(product: nat) | Matched(product: nat, record: nat)

  function PriceMatch(products: seq<ProductRec>, prices: seq<PriceRec>, name: string, price: real): (m: Match)
    ensures m.NoProduct? <==> forall j :: 0 <= j < |products| ==> products[j].name != name
    ensures m.NoPrice? ==> m.product < |products| && products[m.product].name == name
    ensures m.NoPrice? ==> forall j :: 0 <= j < |prices| ==> !SameEntry(prices[j], products[m.product].id, price)
    ensures m.Matched? ==> m.product < |products| && products[m.product].name == name
    ensures m.Matched? ==> m.record < |prices| && SameEntry(prices[m.record], products[m.product].id, price)
    ensures m.Matched? ==> forall j :: 0 <= j < |prices| && SameEntry(prices[j], products[m.product].id, price) ==>
      prices[j].updated <= prices[m.record].updated
  {
    match FindProduct(products, name)
    case None => NoProduct
    case Some(pi) =>
      match LatestPrice(prices, products[pi].id, price)
      case None => NoPrice(pi)
      case Some(ri) => Matched(pi, ri)
  }

  /** The number of price records of `product`: CountRecords("prices", product = id). */
  function CountFor(prices: seq<PriceRec>, product: nat): nat {
    if prices == [] then 0
    else CountFor(prices[..|prices| - 1], product) + (if prices[|prices| - 1].product == product then 1 else 0)
  }

  /** GetProduct: the price record's id, price and timestamps with its product's name and
      stock; the zero Product when the product relation cannot be expanded. */
  function GetProduct(products: seq<ProductRec>, rec: PriceRec): Product {
    match FindById(products, rec.product)
    case None => EmptyProduct
    case Some(i) =>
      Product(rec.id, products[i].name, Numbers.Int32(products[i].stock), rec.price, rec.created, rec.updated)
  }

  // ---------------------------------------------------------------------------
  // Store calls

  /** Saving an existing price record with `price`: only `updated` moves on success. */
  function Touch(db: Db, ri: nat, price: real): (Db, bool)
    requires ri < |db.prices|
  {
    if Faulted(db) || price == 0.0 then (Tick(db), false)
    else
      var rec := db.prices[ri].(price := price, updated := db.clock);
      (Tick(db).(prices := db.prices[ri := rec]), true)
  }

  /** Saving a new product record {name, stock}: its id on success. */
  function CreateProduct(db: Db, name: string, stock: int): (Db, Option<nat>) {
    if Faulted(db) || name == "" || stock == 0 then (Tick(db), None)
    else
      var rec := ProductRec(db.nextId, name, stock);
      (Tick(db).(products := db.products + [rec], nextId := db.nextId + 1), Some(db.nextId))
  }

  /** CountPriceRecords: the count, or 0 when the store reports an error. */
  function CountAt(db: Db, product: nat): (Db, nat) {
    (Tick(db), if Faulted(db) then 0 else CountFor(db.prices, product))
  }

  /** The AddMonitor callback bound to after-create-success: with more than one price record
      for the product, the expanded product is pushed unless its Id is empty. */
  function Notify(db: Db, rec: PriceRec): Db {
    var (d, count) := CountAt(db, rec.product);
    if count > 1 then
      var p := GetProduct(d.products, rec);
      if p.id != 0 then d.(sent := d.sent + [p]) else d
    else d
  }

  /** The create itself (e.Next() of the before-create hook), then the after-create callback. */
  function Insert(db: Db, product: nat, price: real): (Db, bool) {
    if Faulted(db) || price == 0.0 || FindById(db.products, product).None? then (Tick(db), false)
    else
      var rec := PriceRec(db.nextId, product, price, db.clock, db.clock);
      var d := Tick(db).(prices := db.prices + [rec], nextId := db.nextId + 1);
      (Notify(d, rec), true)
  }

  /** Saving a new price record {product, price}, through the before-create hook of
      PriceUpdateHook: a record with the same product and price is saved again instead. */
  function CreatePrice(db: Db, product: nat, price: real): (Db, bool) {
    match LatestPrice(db.prices, product, price)
    case Some(ri) => Touch(db, ri, price)
    case None => Insert(db, product, price)
  }

  /** One iteration of the AddToCollection loop; false when a Save failed. */
  function Step(db: Db, obs: Observation): (Db, bool) {
    match PriceMatch(db.products, db.prices, obs.name, obs.price)
    case Matched(_, ri) => Touch(db, ri, obs.price)
    case NoPrice(pi) => CreatePrice(db, db.products[pi].id, obs.price)
    case NoProduct =>
      var (d, id) := CreateProduct(db, obs.name, obs.stock);
      if id.None? then (d, false) else CreatePrice(d, id.value, obs.price)
  }

  /** AddToCollection: the observations in order, up to and including the first failed Save;
      false when a Save failed and the rest of the batch was dropped. */
  function Reconcile(db: Db, batch: seq<Observation>): (Db, bool)
    decreases |batch|
  {
    if batch == [] then (db, true)
    else
      var (d, ok) := Step(db, batch[0]);
      if ok then Reconcile(d, batch[1..]) else (d, false)
  }

  // ---------------------------------------------------------------------------
  // The store invariant

  /** Product names are unique (a product is only created for an unknown name), ids are
      positive, distinct and below nextId, every price record has an existing product, a
      non-zero price and timestamps in the past, and no product holds two records at the
      same price. */
  predicate Valid(db: Db) {
    && db.nextId >= 1
    && (forall i, j :: 0 <= i < j < |db.products| ==>
          db.products[i].name != db.products[j].name && db.products[i].id < db.products[j].id)
    && (forall i :: 0 <= i < |db.products| ==> 1 <= db.products[i].id < db.nextId)
    && (forall i :: 0 <= i < |db.prices| ==> ValidPrice(db, db.prices[i]))
    && (forall i, j :: 0 <= i < j < |db.prices| ==>
          db.prices[i].id < db.prices[j].id &&
          !SameEntry(db.prices[j], db.prices[i].product, db.prices[i].price))
  }

  predicate ValidPrice(db: Db, rec: PriceRec) {
    && 1 <= rec.id < db.nextId
    && FindById(db.products, rec.product).Some?
    && rec.price != 0.0
    && rec.created <= rec.updated < db.clock
  }

  /** The store a fresh install starts from. */
  function Empty(schemas: map<string, seq<string>>, faults: set<nat>): (db: Db) {
    Db([], [], [], [], schemas, 0, 1, faults, [])
  }

  // ---------------------------------------------------------------------------
  // Every store call keeps the invariant

  lemma TouchValid(db: Db, ri: nat, price: real)
    requires Valid(db) && ri < |db.prices| && db.prices[ri].price == price
    ensures Valid(Touch(db, ri, price).0)
  {
    TickValid(db);
    var d := Touch(db, ri, price).0;
    assert d.products == db.products;
    forall i | 0 <= i < |d.prices| ensures ValidPrice(d, d.prices[i]) {
      assert ValidPrice(db, db.prices[i]);
    }
  }

  lemma CreateProductValid(db: Db, name: string, stock: int)
    requires Valid(db) && FindProduct(db.products, name).None?
    ensures Valid(CreateProduct(db, name, stock).0)
  {
    var (d, id) := CreateProduct(db, name, stock);
    if id.Some? {
      var ps := db.products;
      assert forall i :: 0 <= i < |ps| ==> d.products[i] == ps[i];
      assert d.products[|ps|] == ProductRec(db.nextId, name, stock);
      forall i | 0 <= i < |d.prices| ensures ValidPrice(d, d.prices[i]) {
        var rec := d.prices[i];
        assert ValidPrice(db, rec);
        var k := FindById(ps, rec.product).value;
        assert d.products[k].id == rec.product;
      }
    } else {
      TickValid(db);
    }
  }

  lemma TickValid(db: Db)
    requires Valid(db)
    ensures Valid(Tick(db))
  {
    forall i | 0 <= i < |db.prices| ensures ValidPrice(Tick(db), db.prices[i]) {
      assert ValidPrice(db, db.prices[i]);
    }
  }

  lemma NotifyValid(db: Db, rec: PriceRec)
    requires Valid(db)
    ensures Valid(Notify(db, rec))
  {
    TickValid(db);
    var n := Notify(db, rec);
    assert n == Tick(db).(sent := n.sent);
    SentFree(Tick(db), n.sent);
  }

  /** The invariant does not depend on the notification log. */
  lemma SentFree(db: Db, sent: seq<Product>)
    requires Valid(db)
    ensures Valid(db.(sent := sent))
  {
    forall i | 0 <= i < |db.prices|
      ensures ValidPrice(db.(sent := sent), db.prices[i])
    {
      assert ValidPrice(db, db.prices[i]);
    }
  }

  /** Storing a fresh record, created now, whose product exists and holds no record at that price. */
  lemma AppendPriceValid(db: Db, rec: PriceRec)
    requires Valid(db) && rec == PriceRec(db.nextId, rec.product, rec.price, db.clock, db.clock)
    requires FindById(db.products, rec.product).Some? && rec.price != 0.0
    requires forall j :: 0 <= j < |db.prices| ==> !SameEntry(db.prices[j], rec.product, rec.price)
    ensures Valid(Tick(db).(prices := db.prices + [rec], nextId := db.nextId + 1))
  {
    var d := Tick(db).(prices := db.prices + [rec], nextId := db.nextId + 1);
    forall i | 0 <= i < |d.prices| ensures ValidPrice(d, d.prices[i]) {
      if i < |db.prices| {
        assert ValidPrice(db, db.prices[i]);
      }
    }
    forall i, j | 0 <= i < j < |d.prices|
      ensures d.prices[i].id < d.prices[j].id && !SameEntry(d.prices[j], d.prices[i].product, d.prices[i].price)
    {
      if j < |db.prices| {
      } else {
        assert ValidPrice(db, db.prices[i]);
      }
    }
  }

  lemma InsertValid(db: Db, product: nat, price: real)
    requires Valid(db) && LatestPrice(db.prices, product, price).None?
    ensures Valid(Insert(db, product, price).0)
  {
    if !(Faulted(db) || price == 0.0 || FindById(db.products, product).None?) {
      var rec := PriceRec(db.nextId, product, price, db.clock, db.clock);
      var d := Tick(db).(prices := db.prices + [rec], nextId := db.nextId + 1);
      AppendPriceValid(db, rec);
      NotifyValid(d, rec);
      assert Insert(db, product, price).0 == Notify(d, rec);
    } else {
      TickValid(db);
      assert Insert(db, product, price).0 == Tick(db);
    }
  }

  lemma CreatePriceValid(db: Db, product: nat, price: real)
    requires Valid(db)
    ensures Valid(CreatePrice(db, product, price).0)
  {
    match LatestPrice(db.prices, product, price)
    case Some(ri) => TouchValid(db, ri, price);
    case None => InsertValid(db, product, price);
  }

  /** One iteration of AddToCollection keeps the store invariant. */
  lemma StepValid(db: Db, obs: Observation)
    requires Valid(db)
    ensures Valid(Step(db, obs).0)
  {
    match PriceMatch(db.products, db.prices, obs.name, obs.price)
    case Matched(_, ri) => TouchValid(db, ri, obs.price);
    case NoPrice(pi) => CreatePriceValid(db, db.products[pi].id, obs.price);
    case NoProduct =>
      CreateProductValid(db, obs.name, obs.stock);
      var (d, id) := CreateProduct(db, obs.name, obs.stock);
      if id.Some? {
        CreatePriceValid(d, id.value, obs.price);
      } else {
        assert Step(db, obs).0 == d;
      }
  }

  /** AddToCollection keeps the store invariant, whether or not the batch completes: in
      particular no product ever holds two price records at the same price. */
  lemma {:induction false} ReconcileValid(db: Db, batch: seq<Observation>)
    requires Valid(db)
    ensures Valid(Reconcile(db, batch).0)
    decreases |batch|
  {
    if batch != [] {
      StepValid(db, batch[0]);
      var (d, ok) := Step(db, batch[0]);
      if ok {
        ReconcileValid(d, batch[1..]);
      }
    }
  }

  // ---------------------------------------------------------------------------
  // What one iteration does

  lemma {:induction false} CountNone(prices: seq<PriceRec>, product: nat)
    requires forall j :: 0 <= j < |prices| ==> prices[j].product != product
    ensures CountFor(prices, product) == 0
  {
    if prices != [] {
      CountNone(prices[..|prices| - 1], product);
    }
  }

  lemma {:induction false} FindByIdAppend(products: seq<ProductRec>, rec: ProductRec)
    requires forall j :: 0 <= j < |products| ==> products[j].id != rec.id
    ensures FindById(products + [rec], rec.id) == Some(|products|)
  {
    if products != [] {
      assert (products + [rec])[1..] == products[1..] + [rec];
      FindByIdAppend(products[1..], rec);
    }
  }

  lemma {:induction false} FindProductAppend(products: seq<ProductRec>, rec: ProductRec)
    requires forall j :: 0 <= j < |products| ==> products[j].name != rec.name
    ensures FindProduct(products + [rec], rec.name) == Some(|products|)
  {
    if products != [] {
      assert (products + [rec])[1..] == products[1..] + [rec];
      FindProductAppend(products[1..], rec);
    }
  }

  lemma CountSnoc(prices: seq<PriceRec>, rec: PriceRec, product: nat)
    ensures CountFor(prices + [rec], product) == CountFor(prices, product) + (if rec.product == product then 1 else 0)
  {
    assert (prices + [rec])[..|prices|] == prices;
  }

  /** A record stored in a valid store always expands: GetProduct gives a non-empty Id, the
      record's own id, and its product's name. */
  lemma StoredRecordExpands(db: Db, ri: nat)
    requires Valid(db) && ri < |db.prices|
    ensures GetProduct(db.products, db.prices[ri]).id == db.prices[ri].id != 0
    ensures db.products[FindById(db.products, db.prices[ri].product).value].name ==
      GetProduct(db.products, db.prices[ri]).name
  {
    assert ValidPrice(db, db.prices[ri]);
  }

  /** Notify on a record whose product exists: it pushes exactly when the count call succeeds
      and finds more than one record. */
  lemma NotifyGate(db: Db, rec: PriceRec)
    requires rec.id != 0 && FindById(db.products, rec.product).Some?
    ensures Notify(db, rec).sent != db.sent <==> !Faulted(db) && CountFor(db.prices, rec.product) > 1
    ensures Notify(db, rec).sent != db.sent ==> Notify(db, rec).sent == db.sent + [GetProduct(db.products, rec)]
    ensures Notify(db, rec) == Tick(db).(sent := Notify(db, rec).sent)
  {
  }

  /** A record whose product relation cannot be expanded gives GetProduct's zero Product,
      whose Id is empty, so nothing is pushed whatever the count. */
  lemma NoExpansionNoPush(db: Db, rec: PriceRec)
    requires FindById(db.products, rec.product).None?
    ensures GetProduct(db.products, rec) == EmptyProduct
    ensures Notify(db, rec) == Tick(db)
  {
  }

  /** A matched observation creates nothing and writes no product, so the new stock set in
      memory is not stored: only the matched record's `updated` moves to the instant of its
      Save. */
  lemma MatchedStep(db: Db, obs: Observation)
    requires Valid(db) && PriceMatch(db.products, db.prices, obs.name, obs.price).Matched?
    ensures var ri := PriceMatch(db.products, db.prices, obs.name, obs.price).record;
      var (d, ok) := Step(db, obs);
      && d.products == db.products && d.sent == db.sent && d == Tick(db).(prices := d.prices)
      && d.prices == (if ok then db.prices[ri := db.prices[ri].(updated := db.clock)] else db.prices)
      && (ok <==> !Faulted(db))
  {
    var ri := PriceMatch(db.products, db.prices, obs.name, obs.price).record;
    assert ValidPrice(db, db.prices[ri]);
    assert db.prices[ri].(price := obs.price, updated := db.clock) == db.prices[ri].(updated := db.clock);
  }

  /** An unknown name: one product {name, stock} and then one price record linked to it are
      saved, and no notification is sent, as this is the product's first price. A failed
      product Save creates nothing; a failed price Save leaves the new product without prices. */
  lemma NewProductStep(db: Db, obs: Observation)
    requires Valid(db) && PriceMatch(db.products, db.prices, obs.name, obs.price).NoProduct?
    ensures var (d, ok) := Step(db, obs);
      && d.sent == db.sent
      && (ok <==> !Faulted(db) && !Faulted(Tick(db)) && obs.name != "" && obs.stock != 0 && obs.price != 0.0)
      && (ok ==> d.products == db.products + [ProductRec(db.nextId, obs.name, obs.stock)])
      && (ok ==> d.prices == db.prices + [PriceRec(db.nextId + 1, db.nextId, obs.price, db.clock + 1, db.clock + 1)])
      && (!ok ==> d.prices == db.prices)
  {
    var (d1, id) := CreateProduct(db, obs.name, obs.stock);
    if id.Some? {
      var pid := db.nextId;
      var rec := ProductRec(pid, obs.name, obs.stock);
      assert d1.products == db.products + [rec];
      forall j | 0 <= j < |d1.prices| ensures d1.prices[j].product != pid {
        assert ValidPrice(db, db.prices[j]);
      }
      assert LatestPrice(d1.prices, pid, obs.price).None?;
      FindByIdAppend(db.products, rec);
      CountNone(d1.prices, pid);
      var prec := PriceRec(d1.nextId, pid, obs.price, d1.clock, d1.clock);
      CountSnoc(d1.prices, prec, pid);
    }
  }

  /** A known name without a record at that price: exactly one price record is created and
      the product is not written. A notification is sent only when the count made after the
      create succeeds and finds an older record, and it carries the new record. */
  lemma NewPriceStep(db: Db, obs: Observation)
    requires Valid(db) && PriceMatch(db.products, db.prices, obs.name, obs.price).NoPrice?
    ensures var p := db.products[PriceMatch(db.products, db.prices, obs.name, obs.price).product];
      var rec := PriceRec(db.nextId, p.id, obs.price, db.clock, db.clock);
      var (d, ok) := Step(db, obs);
      && d.products == db.products
      && (ok <==> !Faulted(db) && obs.price != 0.0)
      && d.prices == (if ok then db.prices + [rec] else db.prices)
      && (d.sent != db.sent <==> ok && !Faulted(Tick(db)) && CountFor(db.prices, p.id) >= 1)
      && (d.sent != db.sent ==> d.sent == db.sent + [Product(rec.id, p.name, Numbers.Int32(p.stock), obs.price, db.clock, db.clock)])
  {
    var pi := PriceMatch(db.products, db.prices, obs.name, obs.price).product;
    var p := db.products[pi];
    var rec := PriceRec(db.nextId, p.id, obs.price, db.clock, db.clock);
    assert FindById(db.products, p.id) == Some(pi);
    if !Faulted(db) && obs.price != 0.0 {
      var d := Tick(db).(prices := db.prices + [rec], nextId := db.nextId + 1);
      CountSnoc(db.prices, rec, p.id);
      assert FindById(d.products, p.id) == Some(pi);
      NotifyGate(d, rec);
    }
  }

  /** A notification is only ever pushed for a price record that was actually created: the
      iteration added exactly one record, its product now has more than one, and the pushed
      product is that record's. */
  lemma NotifyOnlyOnCreate(db: Db, obs: Observation)
    requires Valid(db) && Step(db, obs).0.sent != db.sent
    ensures var d := Step(db, obs).0;
      && |d.prices| == |db.prices| + 1 && d.prices[..|db.prices|] == db.prices
      && CountFor(d.prices, d.prices[|db.prices|].product) > 1
      && d.sent == db.sent + [GetProduct(d.products, d.prices[|db.prices|])]
  {
    match PriceMatch(db.products, db.prices, obs.name, obs.price)
    case Matched(_, _) => MatchedStep(db, obs);
    case NoProduct => NewProductStep(db, obs);
    case NoPrice(pi) =>
      NewPriceStep(db, obs);
      var d := Step(db, obs).0;
      var p := db.products[pi];
      var rec := PriceRec(db.nextId, p.id, obs.price, db.clock, db.clock);
      assert d.prices == db.prices + [rec];
      assert d.prices[..|db.prices|] == db.prices;
      CountSnoc(db.prices, rec, p.id);
      assert FindById(db.products, p.id) == Some(pi);
  }

  /** The before-create hook: creating a record for a product and price that already has one
      creates nothing and pushes nothing; the latest such record is saved again instead, so
      a return to an old price reuses the old record. */
  lemma HookCoalesces(db: Db, product: nat, price: real)
    requires Valid(db) && LatestPrice(db.prices, product, price).Some?
    ensures var ri := LatestPrice(db.prices, product, price).value;
      var (d, ok) := CreatePrice(db, product, price);
      && d.products == db.products && d.sent == db.sent && d.nextId == db.nextId
      && d.prices == (if ok then db.prices[ri := db.prices[ri].(updated := db.clock)] else db.prices)
      && (ok <==> !Faulted(db))
  {
    var ri := LatestPrice(db.prices, product, price).value;
    assert ValidPrice(db, db.prices[ri]);
    assert db.prices[ri].(price := price, updated := db.clock) == db.prices[ri].(updated := db.clock);
  }

  /** After a completed iteration the observation is on record: seeing it again matches. */
  lemma StepRecordsObservation(db: Db, obs: Observation)
    requires Valid(db) && Step(db, obs).1
    ensures PriceMatch(Step(db, obs).0.products, Step(db, obs).0.prices, obs.name, obs.price).Matched?
  {
    var d := Step(db, obs).0;
    match PriceMatch(db.products, db.prices, obs.name, obs.price)
    case Matched(pi, ri) =>
      MatchedStep(db, obs);
      assert SameEntry(d.prices[ri], db.products[pi].id, obs.price);
    case NoPrice(pi) =>
      NewPriceStep(db, obs);
      assert SameEntry(d.prices[|db.prices|], db.products[pi].id, obs.price);
    case NoProduct =>
      NewProductStep(db, obs);
      FindProductAppend(db.products, ProductRec(db.nextId, obs.name, obs.stock));
      assert SameEntry(d.prices[|db.prices|], db.nextId, obs.price);
  }

  /** Seeing the same observation twice in a row creates nothing the second time: no product,
      no price record and no notification. */
  lemma RepeatCreatesNothing(db: Db, obs: Observation)
    requires Valid(db) && Step(db, obs).1
    ensures var d := Step(db, obs).0;
      var e := Step(d, obs).0;
      e.products == d.products && |e.prices| == |d.prices| && e.sent == d.sent
  {
    StepValid(db, obs);
    StepRecordsObservation(db, obs);
    MatchedStep(Step(db, obs).0, obs);
  }

  /** A failed Save ends AddToCollection: a batch split in two runs the second part only
      when the first completed. */
  lemma {:induction false} ReconcileAppend(db: Db, a: seq<Observation>, b: seq<Observation>)
    ensures Reconcile(db, a + b) ==
      if Reconcile(db, a).1 then Reconcile(Reconcile(db, a).0, b) else Reconcile(db, a)
    decreases |a|
  {
    if a == [] {
      assert a + b == b;
    } else {
      assert (a + b)[0] == a[0];
      assert (a + b)[1..] == a[1..] + b;
      var (d, ok) := Step(db, a[0]);
      if ok {
        ReconcileAppend(d, a[1..], b);
      }
    }
  }
}
