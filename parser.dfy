/**
 * Row and page extraction (internal/parser/parse.go): ParseRow turns one table row into an
 * observation, Parse finds the table body of a page and extracts each of its rows.
 * Go's panics (an index out of range, a nil table body) are the Failure results.
 */
module Parser {
  import opened Wrappers
  import opened Html
  import opened Model
  import Strings
  import Numbers
  import Scans

  /** The literal the price loop skips: the three code points U+00E2 U+201A U+00B9
      (the UTF-8 bytes of the rupee sign read as Windows-1252), as written in the source. */
  const PriceMarker: string := "\U{00E2}\U{201A}\U{00B9}"

  /** The phrase removed from the stock text before it is parsed. */
  const StockSuffix: string := " in stock"

  /** Why ParseRow panics: tds[1] or tds[2] out of range, nslist[0] or nslist[1] out of range. */
  datatype RowError = MissingCell | MissingName | MissingStock

  /** Why Parse fails: no tbody (nil dereference), or a row that made ParseRow panic. */
  datatype PageError = NoTableBody | BadRow(error: RowError)

  // ---------------------------------------------------------------------------
  // Specification of ParseRow

  predicate IsCell(n: Node) {
    Data(n) == "td"
  }

  /** The `tds` slice: the children whose Data is "td", in order. */
  function Cells(children: seq<Node>): seq<Node> {
    Scans.Keep(children, IsCell)
  }

  /** A text node whose trimmed text is non-empty contributes that text to `nslist`. */
  predicate IsNameText(n: Node) {
    n.Text? && |Strings.TrimSpace(n.data)| > 0
  }

  function Trimmed(n: Node): string {
    Strings.TrimSpace(Data(n))
  }

  /** The `nslist` slice: the trimmed, non-empty texts of the text nodes, in order. */
  function NameTexts(nodes: seq<Node>): seq<string> {
    Scans.KeepMap(nodes, IsNameText, Trimmed)
  }

  predicate IsIns(n: Node) {
    IsElement(n, "ins")
  }

  /** The nodes the inner price loop visits: the descendants of each `ins` element, in order. */
  function InsTexts(nodes: seq<Node>): seq<Node> {
    Scans.Gather(nodes, IsIns, Descendants)
  }

  /** A node the inner price loop takes its price from: a text node whose trimmed text is
      non-empty and does not contain the marker. */
  predicate IsPriceText(n: Node) {
    n.Text? && |Strings.TrimSpace(n.data)| > 0 && !Strings.Contains(Strings.TrimSpace(n.data), PriceMarker)
  }

  /** The price such a node sets: its trimmed text without commas, parsed (0 when unparsable). */
  function PriceValue(n: Node): real {
    Numbers.ParseFloat(Strings.RemoveAll(Strings.TrimSpace(Data(n)), ','))
  }

  /** The value `price` holds after visiting `nodes`: the last price text wins, 0 if none. */
  function LastPrice(nodes: seq<Node>): real {
    Scans.LastValue(nodes, IsPriceText, PriceValue)
  }

  /** The price of a price cell: only text inside `ins` elements counts. */
  function CellPrice(cell: Node): real {
    LastPrice(InsTexts(Descendants(cell)))
  }

  /** The stock of the stock text: " in stock" removed once, Atoi, then int32(). */
  function StockOf(text: string): int {
    Numbers.Int32(Numbers.Atoi(Strings.RemoveFirst(text, StockSuffix)))
  }

  /** What ParseRow returns for `row`, or the panic it raises. */
  function RowSpec(row: Node): Result<Observation, RowError> {
    var tds := Cells(Children(row));
    if |tds| < 3 then Failure(MissingCell)
    else
      var names := NameTexts(Descendants(tds[1]));
      var price := CellPrice(tds[2]);
      if |names| == 0 then Failure(MissingName)
      else if |names| == 1 then Failure(MissingStock)
      else Success(Observation(names[0], StockOf(names[1]), price))
  }

  // ---------------------------------------------------------------------------
  // Specification of Parse

  predicate IsTableBody(n: Node) {
    IsElement(n, "tbody")
  }

  /** The `tbody` the scan keeps: the last tbody element among `nodes`. */
  function LastTableBody(nodes: seq<Node>): Option<Node> {
    Scans.LastOf(nodes, IsTableBody)
  }

  predicate IsTableRow(n: Node) {
    Data(n) == "tr"
  }

  /** The children of the table body that Parse hands to ParseRow: those whose Data is "tr". */
  function TableRows(children: seq<Node>): seq<Node> {
    Scans.Keep(children, IsTableRow)
  }

  /** The rows extracted in order; the first row that panics ends the page. */
  function ParseRows(rows: seq<Node>): Result<seq<Observation>, RowError> {
    Scans.Collect(rows, RowSpec)
  }

  /** What Parse emits for a parsed document, or why it stops. */
  function PageSpec(doc: Node): Result<seq<Observation>, PageError> {
    match LastTableBody(Descendants(doc))
    case None => Failure(NoTableBody)
    case Some(tbody) =>
      match ParseRows(TableRows(Children(tbody)))
      case Failure(e) => Failure(BadRow(e))
      case Success(rows) => Success(rows)
  }

  // ---------------------------------------------------------------------------
  // The extraction loops

  /** ParseRow: collects the cells, the name texts and the last price text, then reads
      the name and stock from the first two name texts. */
  method ParseRow(row: Node) returns (r: Result<Observation, RowError>)
    ensures r == RowSpec(row)
  {
    var tds := CollectCells(Children(row));
    if |tds| < 3 {
      return Failure(MissingCell);
    }
    var nameNode, priceNode := tds[1], tds[2];
    var nslist := CollectNameTexts(Descendants(nameNode));
    var price := ScanPrice(Descendants(priceNode));
    if |nslist| < 1 {
      return Failure(MissingName);
    }
    if |nslist| < 2 {
      return Failure(MissingStock);
    }
    var stock := Numbers.Atoi(Strings.RemoveFirst(nslist[1], StockSuffix));
    r := Success(Observation(nslist[0], Numbers.Int32(stock), price));
  }

  /** The first loop of ParseRow: appends each "td" child to `tds`. */
  method CollectCells(kids: seq<Node>) returns (tds: seq<Node>)
    ensures tds == Cells(kids)
  {
    tds := [];
    for i := 0 to |kids|
      invariant tds == Cells(kids[..i])
    {
      Scans.KeepSnoc(kids[..i], kids[i], IsCell);
      assert kids[..i + 1] == kids[..i] + [kids[i]];
      if Data(kids[i]) == "td" {
        tds := tds + [kids[i]];
      }
    }
    assert kids[..|kids|] == kids;
  }

  /** The second loop of ParseRow: appends each trimmed non-empty text to `nslist`. */
  method CollectNameTexts(nodes: seq<Node>) returns (nslist: seq<string>)
    ensures nslist == NameTexts(nodes)
  {
    nslist := [];
    for i := 0 to |nodes|
      invariant nslist == NameTexts(nodes[..i])
    {
      Scans.KeepMapSnoc(nodes[..i], nodes[i], IsNameText, Trimmed);
      assert nodes[..i + 1] == nodes[..i] + [nodes[i]];
      var text := Strings.TrimSpace(Data(nodes[i]));
      if nodes[i].Text? && |text| > 0 {
        nslist := nslist + [text];
      }
    }
    assert nodes[..|nodes|] == nodes;
  }

  /** The nested price loops of ParseRow over the descendants of the price cell. */
  method ScanPrice(cell: seq<Node>) returns (price: real)
    ensures price == LastPrice(InsTexts(cell))
  {
    price := 0.0;
    for i := 0 to |cell|
      invariant price == LastPrice(InsTexts(cell[..i]))
    {
      Scans.GatherSnoc(cell[..i], cell[i], IsIns, Descendants);
      assert cell[..i + 1] == cell[..i] + [cell[i]];
      if cell[i].Element? && cell[i].tag == "ins" {
        assert InsTexts(cell[..i + 1]) == InsTexts(cell[..i]) + Descendants(cell[i]);
        price := ScanIns(InsTexts(cell[..i]), Descendants(cell[i]), price);
      } else {
        assert InsTexts(cell[..i + 1]) == InsTexts(cell[..i]);
      }
    }
    assert cell[..|cell|] == cell;
  }

  /** The inner price loop over the descendants of one `ins` element: every price text
      overwrites `price`. `done` is what the outer loop has visited so far. */
  method ScanIns(ghost done: seq<Node>, inner: seq<Node>, price0: real) returns (price: real)
    requires price0 == LastPrice(done)
    ensures price == LastPrice(done + inner)
  {
    price := price0;
    assert done + inner[..0] == done;
    for j := 0 to |inner|
      invariant price == LastPrice(done + inner[..j])
    {
      Scans.LastValueSnoc(done + inner[..j], inner[j], IsPriceText, PriceValue);
      assert done + inner[..j + 1] == (done + inner[..j]) + [inner[j]];
      var data := Strings.TrimSpace(Data(inner[j]));
      if inner[j].Text? && |data| > 0 && !Strings.Contains(data, PriceMarker) {
        price := Numbers.ParseFloat(Strings.RemoveAll(data, ','));
      }
    }
    assert inner[..|inner|] == inner;
  }

  /** Parse: keeps the last tbody seen in a pre-order scan of the document, then extracts
      every "tr" child of it, in order. */
  method Parse(doc: Node) returns (r: Result<seq<Observation>, PageError>)
    ensures r == PageSpec(doc)
  {
    var tbody := FindTableBody(Descendants(doc));
    if tbody.None? {
      return Failure(NoTableBody);
    }
    var rows := ParseTableRows(Children(tbody.value));
    if rows.Failure? {
      return Failure(BadRow(rows.error));
    }
    r := Success(rows.value);
  }

  /** The second loop of Parse: hands each "tr" child to ParseRow; a panic ends the page. */
  method ParseTableRows(kids: seq<Node>) returns (r: Result<seq<Observation>, RowError>)
    ensures r == ParseRows(TableRows(kids))
  {
    var emitted: seq<Observation> := [];
    for i := 0 to |kids|
      invariant ParseRows(TableRows(kids[..i])) == Success(emitted)
    {
      Scans.KeepSnoc(kids[..i], kids[i], IsTableRow);
      assert kids[..i + 1] == kids[..i] + [kids[i]];
      if Data(kids[i]) == "tr" {
        assert TableRows(kids[..i + 1]) == TableRows(kids[..i]) + [kids[i]];
        var row := ParseRow(kids[i]);
        Scans.CollectSnoc(TableRows(kids[..i]), kids[i], RowSpec);
        if row.Failure? {
          RowFailureEndsPage(kids, i + 1);
          return Failure(row.error);
        }
        emitted := emitted + [row.value];
      } else {
        assert TableRows(kids[..i + 1]) == TableRows(kids[..i]);
      }
    }
    assert kids[..|kids|] == kids;
    r := Success(emitted);
  }

  /** Once a prefix of the table body's children holds a failing row, the rest is not read. */
  lemma RowFailureEndsPage(kids: seq<Node>, n: nat)
    requires n <= |kids| && ParseRows(TableRows(kids[..n])).Failure?
    ensures ParseRows(TableRows(kids)) == ParseRows(TableRows(kids[..n]))
  {
    Scans.KeepAppend(kids[..n], kids[n..], IsTableRow);
    assert kids[..n] + kids[n..] == kids;
    Scans.CollectFailureExtends(TableRows(kids[..n]), TableRows(kids[n..]), RowSpec);
  }

  /** The first loop of Parse: every tbody element met overwrites `tbody`. */
  method FindTableBody(nodes: seq<Node>) returns (tbody: Option<Node>)
    ensures tbody == LastTableBody(nodes)
  {
    tbody := None;
    for i := 0 to |nodes|
      invariant tbody == LastTableBody(nodes[..i])
    {
      Scans.LastOfSnoc(nodes[..i], nodes[i], IsTableBody);
      assert nodes[..i + 1] == nodes[..i] + [nodes[i]];
      if nodes[i].Element? && nodes[i].tag == "tbody" {
        tbody := Some(nodes[i]);
      }
    }
    assert nodes[..|nodes|] == nodes;
  }

  // ---------------------------------------------------------------------------
  // Properties of the extraction

  /** The stock phrase "<n> in stock" reads back as n for every n that fits an int32. */
  lemma StockPhrase(n: nat)
    requires n < Numbers.TWO_31
    ensures StockOf(Numbers.ShowNat(n) + StockSuffix) == n
  {
    var ds := Numbers.ShowNat(n);
    var s := ds + StockSuffix;
    assert Strings.OccursAt(s, StockSuffix, |ds|) by {
      assert s[|ds|..|ds| + |StockSuffix|] == StockSuffix;
    }
    forall i | 0 <= i < |ds| ensures !Strings.OccursAt(s, StockSuffix, i) {
      assert s[i] == ds[i];
    }
    assert Strings.IndexOf(s, StockSuffix) == Some(|ds|);
    assert s[..|ds|] + s[|ds| + |StockSuffix|..] == ds;
    Numbers.AtoiShowNat(n);
  }

  /** The name and stock come from the first two non-blank texts of the name cell; the
      price is decided by the last price text under an `ins` element of the price cell. */
  lemma RowFields(row: Node, k: nat)
    requires RowSpec(row).Success?
    ensures var tds := Cells(Children(row));
      |tds| >= 3 &&
      RowSpec(row).value.name == NameTexts(Descendants(tds[1]))[0] &&
      RowSpec(row).value.stock == StockOf(NameTexts(Descendants(tds[1]))[1])
    ensures var texts := InsTexts(Descendants(Cells(Children(row))[2]));
      IsLast(texts, k) ==> RowSpec(row).value.price == PriceValue(texts[k])
    ensures var texts := InsTexts(Descendants(Cells(Children(row))[2]));
      (forall j :: 0 <= j < |texts| ==> !IsPriceText(texts[j])) ==> RowSpec(row).value.price == 0.0
  {
    var texts := InsTexts(Descendants(Cells(Children(row))[2]));
    Scans.LastValueSpec(texts, IsPriceText, PriceValue);
  }

  predicate IsLast(texts: seq<Node>, k: nat) {
    Scans.IsLast(texts, IsPriceText, k)
  }

  /** A price cell without an `ins` element has price 0: a struck-through (`del`) or plain
      price text is never read. */
  lemma NoInsNoPrice(cell: Node)
    requires forall k :: 0 <= k < |Descendants(cell)| ==> !IsIns(Descendants(cell)[k])
    ensures CellPrice(cell) == 0.0
  {
    NoInsNoTexts(Descendants(cell));
  }

  lemma {:induction false} NoInsNoTexts(nodes: seq<Node>)
    requires forall k :: 0 <= k < |nodes| ==> !IsIns(nodes[k])
    ensures InsTexts(nodes) == []
  {
    if nodes != [] {
      NoInsNoTexts(nodes[..|nodes| - 1]);
    }
  }

  /** A text node holding the marker leaves the price as it was. */
  lemma MarkerTextSkipped(texts: seq<Node>, prefix: string, suffix: string)
    ensures LastPrice(texts + [Text(prefix + PriceMarker + suffix)]) == LastPrice(texts)
  {
    var n := Text(prefix + PriceMarker + suffix);
    Scans.LastValueSnoc(texts, n, IsPriceText, PriceValue);
    assert Strings.OccursAt(n.data, PriceMarker, |prefix|) by {
      assert n.data[|prefix|..|prefix| + |PriceMarker|] == PriceMarker;
    }
    Strings.TrimSpaceKeeps(n.data, PriceMarker, |prefix|);
  }

  /** The rupee sign itself (U+20B9) is not the marker: a text node holding only it is a
      price text that does not parse, so it sets the price to 0. */
  lemma RupeeSignResetsPrice(texts: seq<Node>)
    ensures LastPrice(texts + [Text("\U{20B9}")]) == 0.0
  {
    Scans.LastValueSnoc(texts, Text("\U{20B9}"), IsPriceText, PriceValue);
    RupeeText();
  }

  lemma RupeeText()
    ensures IsPriceText(Text("\U{20B9}")) && PriceValue(Text("\U{20B9}")) == 0.0
  {
    var s := "\U{20B9}";
    assert Strings.TrimSpace(s) == s;
    assert Strings.IndexOf(s, PriceMarker).None?;
    assert Strings.RemoveAll(s, ',') == s;
    assert Numbers.ParseDecimal(s).None?;
  }

  /** Parse fails with NoTableBody exactly when the document has no tbody element. */
  lemma NoTableBodyIff(doc: Node)
    ensures PageSpec(doc) == Failure(NoTableBody) <==>
      forall k :: 0 <= k < |Descendants(doc)| ==> !IsTableBody(Descendants(doc)[k])
  {
    var nodes := Descendants(doc);
    Scans.LastOfSpec(nodes, IsTableBody);
    if LastTableBody(nodes).Some? {
      var tbody := LastTableBody(nodes).value;
      var k :| Scans.IsLast(nodes, IsTableBody, k);
      assert IsTableBody(nodes[k]);
      assert PageSpec(doc).Success? || PageSpec(doc).error.BadRow?;
    }
  }

  /** With a table body, Parse emits one observation per "tr" child, in order, exactly when
      no row panics; otherwise it reports the first failing row. The table body is the last
      tbody of the document. */
  lemma PageRows(doc: Node, tbody: Node)
    requires LastTableBody(Descendants(doc)) == Some(tbody)
    ensures tbody in Descendants(doc) && IsTableBody(tbody)
    ensures exists k :: Scans.IsLast(Descendants(doc), IsTableBody, k) && Descendants(doc)[k] == tbody
    ensures var rows := TableRows(Children(tbody));
      PageSpec(doc).Success? <==> forall k :: 0 <= k < |rows| ==> RowSpec(rows[k]).Success?
    ensures var rows := TableRows(Children(tbody));
      PageSpec(doc).Success? ==>
        |PageSpec(doc).value| == |rows| &&
        forall k :: 0 <= k < |rows| ==> RowSpec(rows[k]) == Success(PageSpec(doc).value[k])
    ensures var rows := TableRows(Children(tbody));
      PageSpec(doc).Failure? ==>
        exists k :: 0 <= k < |rows| && RowSpec(rows[k]) == Failure(PageSpec(doc).error.error) &&
          forall j :: 0 <= j < k ==> RowSpec(rows[j]).Success?
  {
    Scans.LastOfSpec(Descendants(doc), IsTableBody);
    Scans.CollectSpec(TableRows(Children(tbody)), RowSpec);
  }
}
