/**
 * The legacy ClickHouse price table of internal/db/connection.go, over an abstract table: the
 * rows of the price table, in storage order, and the ids of the autoIncrement table. An
 * observation is coalesced into the row with the same key (Name, Stock, Price) by moving its
 * UpdatedAt, or inserted as a new row whose id is one more than the largest recorded id.
 * time.Now() is the table's clock, which advances by one on each call.
 */
module Legacy {
  import opened Wrappers

  /** db.Product, a row of the price table (Stock is the column's Int32 value). */
  datatype Row = Row(id: nat, name: string, stock: int, price: real, createdAt: nat, updatedAt: nat)

  /** CheckIfEquals: two rows are the same observation when name, stock and price agree. */
  predicate CheckIfEquals(p: Row, e: Row) {
    p.name == e.name && p.stock == e.stock && p.price == e.price
  }

  /** The row the key query of UpdateRecord returns: the first row with the key of `p`. */
  function FindKey(rows: seq<Row>, p: Row): (r: Option<nat>)
    ensures r.None? <==> forall k :: 0 <= k < |rows| ==> !CheckIfEquals(p, rows[k])
    ensures r.Some? ==> r.value < |rows| && CheckIfEquals(p, rows[r.value])
    ensures r.Some? ==> forall k :: 0 <= k < r.value ==> !CheckIfEquals(p, rows[k])
  {
    if rows == [] then None
    else if CheckIfEquals(p, rows[0]) then Some(0)
    else
      match FindKey(rows[1..], p)
      case None => None
      case Some(k) => Some(k + 1)
  }

  /** The ALTER TABLE ... UPDATE of UpdateRecord: every row with that id gets the new stock,
      price and UpdatedAt. */
  function Rewrite(rows: seq<Row>, id: nat, stock: int, price: real, at: nat): (r: seq<Row>)
    ensures |r| == |rows|
    ensures forall k | 0 <= k < |rows| && rows[k].id != id :: r[k] == rows[k]
    ensures forall k | 0 <= k < |rows| && rows[k].id == id ::
      r[k].id == id && r[k].name == rows[k].name && r[k].createdAt == rows[k].createdAt &&
      r[k].stock == stock && r[k].price == price && r[k].updatedAt == at
  {
    seq(|rows|, k requires 0 <= k < |rows| =>
      if rows[k].id == id then rows[k].(stock := stock, price := price, updatedAt := at) else rows[k])
  }

  /** One more than the largest id in the autoIncrement table, 1 when it is empty. */
  function NextId(ids: seq<nat>): (r: nat)
    ensures r >= 1
    ensures forall k :: 0 <= k < |ids| ==> ids[k] < r
    ensures r == 1 || r - 1 in ids
  {
    if ids == [] then 1
    else
      var rest := NextId(ids[..|ids| - 1]);
      if ids[|ids| - 1] + 1 > rest then ids[|ids| - 1] + 1 else rest
  }

  datatype Tab = Tab(rows: seq<Row>, ids: seq<nat>, clock: nat)

  /** What UpdateRecord does: false and no change when no row has the key; otherwise the rows
      with the matched row's id take the incoming stock, price and CreatedAt. */
  function Update(t: Tab, p: Row): (Tab, bool) {
    match FindKey(t.rows, p)
    case None => (t, false)
    case Some(k) => (t.(rows := Rewrite(t.rows, t.rows[k].id, p.stock, p.price, p.createdAt)), true)
  }

  /** One iteration of InsertMultiple: coalesce, or insert a row stamped now under a fresh id
      and record that id. */
  function InsertOne(t: Tab, p: Row): Tab {
    var (u, hit) := Update(t, p);
    if hit then u
    else
      var id := NextId(u.ids);
      Tab(u.rows + [Row(id, p.name, p.stock, p.price, u.clock, u.clock)], u.ids + [id], u.clock + 1)
  }

  /** InsertMultiple over a whole batch, one observation after the other. */
  function InsertAll(t: Tab, ps: seq<Row>): Tab {
    if ps == [] then t else InsertOne(InsertAll(t, ps[..|ps| - 1]), ps[|ps| - 1])
  }

  lemma InsertAllStep(t: Tab, ps: seq<Row>, i: nat)
    requires i < |ps|
    ensures InsertAll(t, ps[..i + 1]) == InsertOne(InsertAll(t, ps[..i]), ps[i])
  {
    assert ps[..i + 1][..i] == ps[..i];
  }

  lemma InsertOneCases(t: Tab, p: Row)
    ensures Update(t, p).1 ==> InsertOne(t, p) == Update(t, p).0
    ensures !Update(t, p).1 ==> Update(t, p).0 == t
    ensures !Update(t, p).1 ==>
      InsertOne(t, p) == Tab(t.rows + [Row(NextId(t.ids), p.name, p.stock, p.price, t.clock, t.clock)],
                             t.ids + [NextId(t.ids)], t.clock + 1)
  {
  }

  /** The table keeps one row per key and one row per id, and every row's id is recorded. */
  predicate Valid(t: Tab) {
    (forall i, j :: 0 <= i < j < |t.rows| ==> !CheckIfEquals(t.rows[i], t.rows[j])) &&
    (forall i, j :: 0 <= i < j < |t.rows| ==> t.rows[i].id != t.rows[j].id) &&
    (forall k :: 0 <= k < |t.rows| ==> t.rows[k].id in t.ids)
  }

  class Table {
    var rows: seq<Row>
    var ids: seq<nat>
    var clock: nat

    ghost function State(): Tab
      reads this
    {
      Tab(rows, ids, clock)
    }

    /** An empty table at instant `now`. */
    constructor(now: nat)
      ensures State() == Tab([], [], now) && Valid(State())
    {
      rows := [];
      ids := [];
      clock := now;
    }

    /** GetID: the id the next inserted row receives. */
    method GetID() returns (id: nat)
      ensures id >= 1 && forall k :: 0 <= k < |ids| ==> ids[k] < id
      ensures id == 1 || id - 1 in ids
    {
      id := NextId(ids);
    }

    /** SetID: records an id in the autoIncrement table. */
    method SetID(id: nat)
      modifies this
      ensures ids == old(ids) + [id] && rows == old(rows) && clock == old(clock)
    {
      ids := ids + [id];
    }

    /** UpdateRecord: true when the observation was coalesced into the row with its key. */
    method UpdateRecord(p: Row) returns (hit: bool)
      modifies this
      ensures (State(), hit) == Update(old(State()), p)
    {
      var found := FindKey(rows, p);
      if found.None? {
        return false;
      }
      var old_product := rows[found.value];
      rows := Rewrite(rows, old_product.id, p.stock, p.price, p.createdAt);
      hit := true;
    }

    /** InsertMultiple: each observation is coalesced, or inserted as a new row. */
    method InsertMultiple(ps: seq<Row>)
      modifies this
      ensures State() == InsertAll(old(State()), ps)
    {
      for i := 0 to |ps|
        invariant State() == InsertAll(old(State()), ps[..i])
      {
        InsertAllStep(old(State()), ps, i);
        InsertOneRow(ps[i]);
      }
      assert ps[..|ps|] == ps;
    }

    /** The body of the InsertMultiple loop for one observation. */
    method InsertOneRow(p: Row)
      modifies this
      ensures State() == InsertOne(old(State()), p)
    {
      InsertOneCases(State(), p);
      var hit := UpdateRecord(p);
      if !hit {
        var newId := GetID();
        var now := clock;
        clock := clock + 1;
        rows := rows + [Row(newId, p.name, p.stock, p.price, now, now)];
        SetID(newId);
      }
    }

    /** ResetDB: the price table is dropped and created again; autoIncrement is kept. */
    method ResetDB()
      modifies this
      ensures rows == [] && ids == old(ids) && clock == old(clock)
    {
      rows := [];
    }
  }

  // ---------------------------------------------------------------------------
  // Properties

  /** The key comparison ignores the id and both timestamps. */
  lemma KeyIgnoresIdAndTimes(p: Row, e: Row, id: nat, created: nat, updated: nat)
    ensures CheckIfEquals(p.(id := id, createdAt := created, updatedAt := updated), e) == CheckIfEquals(p, e)
    ensures CheckIfEquals(p, e.(id := id, createdAt := created, updatedAt := updated)) == CheckIfEquals(p, e)
    ensures CheckIfEquals(p, e) == CheckIfEquals(e, p)
  {
  }

  /** UpdateRecord coalesces exactly when some row has the key; without one nothing changes.
      In a valid table it rewrites only the matched row, and only its UpdatedAt. */
  lemma UpdateSpec(t: Tab, p: Row)
    requires Valid(t)
    ensures Update(t, p).1 <==> exists k :: 0 <= k < |t.rows| && CheckIfEquals(p, t.rows[k])
    ensures !Update(t, p).1 ==> Update(t, p).0 == t
    ensures Update(t, p).1 ==>
      exists k :: 0 <= k < |t.rows| && CheckIfEquals(p, t.rows[k]) &&
                  Update(t, p).0 == t.(rows := t.rows[k := t.rows[k].(updatedAt := p.createdAt)])
  {
    match FindKey(t.rows, p)
    case None =>
    case Some(k) =>
      var r := Rewrite(t.rows, t.rows[k].id, p.stock, p.price, p.createdAt);
      assert r == t.rows[k := t.rows[k].(updatedAt := p.createdAt)];
  }

  /** An observation that matches no row adds exactly one row, stamped now with
      CreatedAt == UpdatedAt under an id above every recorded id, and records that id. */
  lemma InsertFresh(t: Tab, p: Row)
    requires forall k :: 0 <= k < |t.rows| ==> !CheckIfEquals(p, t.rows[k])
    ensures var id := NextId(t.ids);
      InsertOne(t, p) == Tab(t.rows + [Row(id, p.name, p.stock, p.price, t.clock, t.clock)], t.ids + [id], t.clock + 1) &&
      forall k :: 0 <= k < |t.ids| ==> t.ids[k] < id
  {
  }

  /** A coalesced observation inserts nothing and records no id. */
  lemma CoalescedInsertsNothing(t: Tab, p: Row, k: nat)
    requires Valid(t) && k < |t.rows| && CheckIfEquals(p, t.rows[k])
    ensures InsertOne(t, p) == t.(rows := t.rows[k := t.rows[k].(updatedAt := p.createdAt)])
  {
    UpdateSpec(t, p);
    var k' :| 0 <= k' < |t.rows| && CheckIfEquals(p, t.rows[k']) &&
      Update(t, p).0 == t.(rows := t.rows[k' := t.rows[k'].(updatedAt := p.createdAt)]);
    assert k' == k by {
      if k' != k {
        assert CheckIfEquals(t.rows[k], t.rows[k']);
      }
    }
  }

  /** Because the key includes Stock, the same price at a new stock level is a new row. */
  lemma StockChangeAddsRow(t: Tab, p: Row, k: nat)
    requires Valid(t) && k < |t.rows|
    requires t.rows[k].name == p.name && t.rows[k].price == p.price && t.rows[k].stock != p.stock
    requires forall j :: 0 <= j < |t.rows| ==> !CheckIfEquals(p, t.rows[j])
    ensures |InsertOne(t, p).rows| == |t.rows| + 1
    ensures InsertOne(t, p).rows[k] == t.rows[k]
  {
    InsertFresh(t, p);
  }

  /** Each InsertMultiple step keeps one row per key and one row per id. */
  lemma InsertOneValid(t: Tab, p: Row)
    requires Valid(t)
    ensures Valid(InsertOne(t, p))
  {
    UpdateSpec(t, p);
    if !Update(t, p).1 {
      var id := NextId(t.ids);
      var rows := t.rows + [Row(id, p.name, p.stock, p.price, t.clock, t.clock)];
      forall k | 0 <= k < |t.rows|
        ensures rows[k].id != id
      {
        assert t.rows[k].id in t.ids;
      }
      assert InsertOne(t, p).rows == rows;
    }
  }

  lemma {:induction false} InsertAllValid(t: Tab, ps: seq<Row>)
    requires Valid(t)
    ensures Valid(InsertAll(t, ps))
  {
    if ps != [] {
      InsertAllValid(t, ps[..|ps| - 1]);
      InsertOneValid(InsertAll(t, ps[..|ps| - 1]), ps[|ps| - 1]);
    }
  }

  /** InsertMultiple never removes a row nor forgets an id, and every row it adds carries a
      recorded id. */
  lemma {:induction false} InsertAllGrows(t: Tab, ps: seq<Row>)
    ensures var u := InsertAll(t, ps);
      |t.rows| <= |u.rows| && |t.ids| <= |u.ids| && u.ids[..|t.ids|] == t.ids && u.clock >= t.clock
  {
    if ps != [] {
      var t' := InsertAll(t, ps[..|ps| - 1]);
      InsertAllGrows(t, ps[..|ps| - 1]);
      var u := InsertOne(t', ps[|ps| - 1]);
      InsertOneCases(t', ps[|ps| - 1]);
      assert |u.ids| >= |t'.ids| && u.ids[..|t'.ids|] == t'.ids;
      assert u.ids[..|t.ids|] == u.ids[..|t'.ids|][..|t.ids|];
    }
  }
}
