/**
 * The price-change monitor of internal/monitor/watch.go: one pass of the MonitorPriceChanges
 * loop over a batch of recent rows. The map from product name to the last price seen is
 * updated in place; a push notification (the ghost log `sent`) goes out only when a name
 * already in the map shows a different price.
 */
module Monitor {
  import opened Legacy

  /** The map after one row: a new name or a changed price records the row's price. */
  function Record(last: map<string, real>, p: Row): map<string, real> {
    if p.name !in last || last[p.name] != p.price then last[p.name := p.price] else last
  }

  /** The notification one row sends: only for a known name whose price changed. */
  function Alert(last: map<string, real>, p: Row): seq<Row> {
    if p.name in last && last[p.name] != p.price then [p] else []
  }

  /** The map after a whole batch, row by row. */
  function LastPrices(last: map<string, real>, rows: seq<Row>): map<string, real> {
    if rows == [] then last else Record(LastPrices(last, rows[..|rows| - 1]), rows[|rows| - 1])
  }

  /** The notifications of a whole batch, in row order; each row is compared with the map
      as the rows before it left it. */
  function Alerts(last: map<string, real>, rows: seq<Row>): seq<Row> {
    if rows == [] then []
    else
      var init := rows[..|rows| - 1];
      Alerts(last, init) + Alert(LastPrices(last, init), rows[|rows| - 1])
  }

  class Watcher {
    var lastPrices: map<string, real>
    ghost var sent: seq<Row>

    constructor()
      ensures lastPrices == map[] && sent == []
    {
      lastPrices := map[];
      sent := [];
    }

    /** One pass of the monitor over the rows GetRecentList returned. */
    method Check(products: seq<Row>)
      modifies this
      ensures lastPrices == LastPrices(old(lastPrices), products)
      ensures sent == old(sent) + Alerts(old(lastPrices), products)
    {
      for i := 0 to |products|
        invariant lastPrices == LastPrices(old(lastPrices), products[..i])
        invariant sent == old(sent) + Alerts(old(lastPrices), products[..i])
      {
        assert products[..i + 1][..i] == products[..i];
        var product := products[i];
        var seen := product.name in lastPrices;
        if !seen || lastPrices[product.name] != product.price {
          if seen {
            sent := sent + [product];
          }
          lastPrices := lastPrices[product.name := product.price];
        }
      }
      assert products[..|products|] == products;
    }
  }

  // ---------------------------------------------------------------------------
  // Properties of one row

  /** The first sighting of a name records its price and sends nothing. */
  lemma FirstSighting(last: map<string, real>, p: Row)
    requires p.name !in last
    ensures Alert(last, p) == []
    ensures Record(last, p) == last[p.name := p.price]
  {
  }

  /** An unchanged price sends nothing and leaves the map as it was. */
  lemma SamePrice(last: map<string, real>, p: Row)
    requires p.name in last && last[p.name] == p.price
    ensures Alert(last, p) == [] && Record(last, p) == last
  {
  }

  /** A changed price for a known name sends exactly that row and records the new price. */
  lemma ChangedPrice(last: map<string, real>, p: Row)
    requires p.name in last && last[p.name] != p.price
    ensures Alert(last, p) == [p]
    ensures Record(last, p) == last[p.name := p.price]
  {
  }

  /** Whatever the map held, a row leaves its name mapped to its price. */
  lemma RowRecorded(last: map<string, real>, p: Row)
    ensures p.name in Record(last, p) && Record(last, p)[p.name] == p.price
  {
  }

  // ---------------------------------------------------------------------------
  // Properties of a batch

  /** The names seen so far: the map's names and the batch's names, nothing else; the names
      the batch does not mention keep their price. */
  lemma {:induction false} UntouchedNames(last: map<string, real>, rows: seq<Row>)
    ensures forall n :: n in LastPrices(last, rows) <==> n in last || exists k :: 0 <= k < |rows| && rows[k].name == n
    ensures forall n :: n in last && (forall k :: 0 <= k < |rows| ==> rows[k].name != n) ==>
      LastPrices(last, rows)[n] == last[n]
  {
    if rows != [] {
      var init := rows[..|rows| - 1];
      UntouchedNames(last, init);
      assert forall k :: 0 <= k < |init| ==> init[k] == rows[k];
    }
  }

  /** After the batch, a name it mentions is mapped to the price of its last row. */
  lemma {:induction false} LastRowWins(last: map<string, real>, rows: seq<Row>, k: nat)
    requires k < |rows| && forall j :: k < j < |rows| ==> rows[j].name != rows[k].name
    ensures rows[k].name in LastPrices(last, rows) && LastPrices(last, rows)[rows[k].name] == rows[k].price
  {
    var init := rows[..|rows| - 1];
    if k == |rows| - 1 {
      RowRecorded(LastPrices(last, init), rows[k]);
    } else {
      LastRowWins(last, init, k);
    }
  }

  /** Every notification is a row of the batch, so there are never more than rows. */
  lemma {:induction false} AlertsFromBatch(last: map<string, real>, rows: seq<Row>)
    ensures |Alerts(last, rows)| <= |rows|
    ensures forall a :: a in Alerts(last, rows) ==> a in rows
  {
    if rows != [] {
      var init := rows[..|rows| - 1];
      AlertsFromBatch(last, init);
      assert forall a :: a in init ==> a in rows;
    }
  }

  /** A batch of names the monitor has never seen, each once, sends nothing. */
  lemma {:induction false} NewNamesSilent(last: map<string, real>, rows: seq<Row>)
    requires forall k :: 0 <= k < |rows| ==> rows[k].name !in last
    requires forall i, j :: 0 <= i < j < |rows| ==> rows[i].name != rows[j].name
    ensures Alerts(last, rows) == []
  {
    if rows != [] {
      var init := rows[..|rows| - 1];
      NewNamesSilent(last, init);
      UntouchedNames(last, init);
      assert rows[|rows| - 1].name !in LastPrices(last, init);
    }
  }

  /** Two rows of one name in one batch: the second is compared with the price the first
      recorded, so a repeat of the same price sends nothing. */
  lemma SameBatchRepeat(last: map<string, real>, a: Row, b: Row)
    requires a.name == b.name
    ensures Alerts(last, [a, b]) == Alert(last, a) + (if a.price != b.price then [b] else [])
  {
    assert [a, b][..1] == [a];
    assert [a][..0] == [];
    assert LastPrices(last, [a]) == Record(last, a);
    assert Alerts(last, [a]) == Alert(last, a);
    RowRecorded(last, a);
  }
}
