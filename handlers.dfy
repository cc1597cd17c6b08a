/**
 * The list logic of the legacy HTTP handlers in app/handlers.go, over the rows conn.GetList()
 * returns: the distinct product names for /products and a product's rows for /prices.
 */
module Handlers {
  import opened Legacy

  /** The names of the rows, in table order. */
  function Names(rows: seq<Row>): (names: seq<string>)
    ensures |names| == |rows| && forall k :: 0 <= k < |rows| ==> names[k] == rows[k].name
  {
    if rows == [] then [] else Names(rows[..|rows| - 1]) + [rows[|rows| - 1].name]
  }

  /** Each name at its first occurrence. */
  function Distinct(xs: seq<string>): seq<string> {
    if xs == [] then []
    else
      var init := Distinct(xs[..|xs| - 1]);
      if xs[|xs| - 1] in init then init else init + [xs[|xs| - 1]]
  }

  /** The position of the first occurrence of x in xs. */
  function First(xs: seq<string>, x: string): (k: nat)
    requires x in xs
    ensures k < |xs| && xs[k] == x && x !in xs[..k]
  {
    if xs[0] == x then 0 else First(xs[1..], x) + 1
  }

  /** The rows of one product, in table order. */
  function RowsNamed(rows: seq<Row>, name: string): seq<Row> {
    if rows == [] then []
    else RowsNamed(rows[..|rows| - 1], name) + (if rows[|rows| - 1].name == name then [rows[|rows| - 1]] else [])
  }

  /** getUniqueProducts: the distinct names of the table, in order of first occurrence. */
  method UniqueProducts(table: seq<Row>) returns (productList: seq<string>)
    ensures productList == Distinct(Names(table))
  {
    var unique: map<string, bool> := map[];
    productList := [];
    for i := 0 to |table|
      invariant productList == Distinct(Names(table[..i]))
      invariant forall n :: n in unique <==> n in productList
      invariant forall n :: n in unique ==> unique[n]
    {
      assert table[..i + 1][..i] == table[..i];
      var p := table[i];
      if !(p.name in unique && unique[p.name]) {
        unique := unique[p.name := true];
        productList := productList + [p.name];
      }
    }
    assert table[..|table|] == table;
  }

  /** The name filter of pricesHandler. */
  method PricesFor(table: seq<Row>, name: string) returns (priceData: seq<Row>)
    ensures priceData == RowsNamed(table, name)
  {
    priceData := [];
    for i := 0 to |table|
      invariant priceData == RowsNamed(table[..i], name)
    {
      assert table[..i + 1][..i] == table[..i];
      var p := table[i];
      if p.name == name {
        priceData := priceData + [p];
      }
    }
    assert table[..|table|] == table;
  }

  // ---------------------------------------------------------------------------
  // Properties

  /** The distinct names hold each name of the list exactly once and nothing else. */
  lemma {:induction false} DistinctSpec(xs: seq<string>)
    ensures forall x :: x in Distinct(xs) <==> x in xs
    ensures forall i, j :: 0 <= i < j < |Distinct(xs)| ==> Distinct(xs)[i] != Distinct(xs)[j]
  {
    if xs != [] {
      DistinctSpec(xs[..|xs| - 1]);
      assert xs == xs[..|xs| - 1] + [xs[|xs| - 1]];
    }
  }

  /** A position holding x with no x before it is the first occurrence. */
  lemma {:induction false} FirstAt(xs: seq<string>, x: string, k: nat)
    requires k < |xs| && xs[k] == x && x !in xs[..k]
    ensures First(xs, x) == k
  {
    if k > 0 {
      assert xs[0] == xs[..k][0];
      var rest := xs[1..][..k - 1];
      forall j | 0 <= j < k - 1
        ensures rest[j] != x
      {
        assert rest[j] == xs[..k][j + 1];
      }
      FirstAt(xs[1..], x, k - 1);
    }
  }

  lemma FirstSnoc(xs: seq<string>, x: string, y: string)
    requires y in xs
    ensures First(xs + [x], y) == First(xs, y)
  {
    var k := First(xs, y);
    assert (xs + [x])[..k] == xs[..k];
    FirstAt(xs + [x], y, k);
  }

  /** The distinct names are listed in the order in which each first occurs. */
  lemma {:induction false} DistinctOrder(xs: seq<string>)
    ensures forall y :: y in Distinct(xs) ==> y in xs
    ensures forall i, j :: 0 <= i < j < |Distinct(xs)| ==> First(xs, Distinct(xs)[i]) < First(xs, Distinct(xs)[j])
  {
    DistinctSpec(xs);
    if xs != [] {
      var init := xs[..|xs| - 1];
      var last := xs[|xs| - 1];
      assert xs == init + [last];
      DistinctOrder(init);
      DistinctSpec(init);
      var d := Distinct(init);
      forall y | y in d
        ensures First(xs, y) == First(init, y)
      {
        FirstSnoc(init, last, y);
      }
      if last !in d {
        assert last !in init;
        assert First(xs, last) == |init|;
      }
    }
  }

  /** The rows of a product are those of the table with that name, each kept in table
      order, with nothing else. */
  lemma {:induction false} RowsNamedSpec(rows: seq<Row>, name: string)
    ensures forall r :: r in RowsNamed(rows, name) <==> r in rows && r.name == name
    ensures |RowsNamed(rows, name)| <= |rows|
  {
    if rows != [] {
      RowsNamedSpec(rows[..|rows| - 1], name);
      assert rows == rows[..|rows| - 1] + [rows[|rows| - 1]];
    }
  }

  /** Filtering the table and then the rest of it is filtering the whole table: the rows keep
      their relative order. */
  lemma {:induction false} RowsNamedAppend(a: seq<Row>, b: seq<Row>, name: string)
    ensures RowsNamed(a + b, name) == RowsNamed(a, name) + RowsNamed(b, name)
  {
    if b == [] {
      assert a + b == a;
    } else {
      assert (a + b)[..|a + b| - 1] == a + b[..|b| - 1];
      RowsNamedAppend(a, b[..|b| - 1], name);
    }
  }

  /** A product listed by /products has at least one row at /prices, and one that is not
      listed has none. */
  lemma ListedIffPriced(table: seq<Row>, name: string)
    ensures name in Distinct(Names(table)) <==> RowsNamed(table, name) != []
  {
    DistinctSpec(Names(table));
    RowsNamedSpec(table, name);
    if name in Names(table) {
      var k :| 0 <= k < |table| && Names(table)[k] == name;
      assert table[k] in RowsNamed(table, name);
    }
  }
}
