/**
 * A worked row: the shape of one product row of the shop's table, extracted by hand
 * step by step, so the specification can be read against a concrete page.
 */
module ParserSamples {
  import opened Wrappers
  import opened Html
  import opened Model
  import opened Parser
  import Strings
  import Numbers
  import Scans

  const NameCell: Node :=
    Element("td", [Element("a", [Text(" Widget ")]), Element("span", [Text("12 in stock")])])

  const PriceCell: Node :=
    Element("td", [Element("del", [Text("1,499")]), Element("ins", [Text("1,299.50")])])

  /** A serial number, the name and stock phrase, then a struck-through old price and the
      current price, with a thousands separator, inside `ins`. */
  const SampleRowNode: Node := Element("tr", [Element("td", [Text("1")]), NameCell, PriceCell])

  lemma SampleRow()
    ensures RowSpec(SampleRowNode) == Success(Observation("Widget", 12, 1299.5))
  {
    var tds := Children(SampleRowNode);
    SampleCells(tds);
    SampleNames();
    SampleStock();
    SamplePrice();
  }

  lemma SampleCells(tds: seq<Node>)
    requires tds == [Element("td", [Text("1")]), NameCell, PriceCell]
    ensures Cells(tds) == tds
  {
    Scans.KeepSnoc([], tds[0], IsCell);
    Scans.KeepSnoc(tds[..1], tds[1], IsCell);
    Scans.KeepSnoc(tds[..2], tds[2], IsCell);
    assert [] + [tds[0]] == tds[..1];
    assert tds[..1] + [tds[1]] == tds[..2];
    assert tds[..2] + [tds[2]] == tds;
  }

  lemma SampleNames()
    ensures NameTexts(Descendants(NameCell)) == ["Widget", "12 in stock"]
  {
    var nodes := Descendants(NameCell);
    assert nodes == [NameCell.children[0], Text(" Widget "), NameCell.children[1], Text("12 in stock")];
    SampleNameTexts(nodes);
  }

  lemma SampleNameTexts(nodes: seq<Node>)
    requires nodes == [NameCell.children[0], Text(" Widget "), NameCell.children[1], Text("12 in stock")]
    ensures NameTexts(nodes) == ["Widget", "12 in stock"]
  {
    NameTextsOf(nodes);
    AlternateNames(nodes, "Widget", "12 in stock");
  }

  /** Four nodes of which the second and fourth are name texts give two names. */
  lemma AlternateNames(nodes: seq<Node>, first: string, second: string)
    requires |nodes| == 4 && !IsNameText(nodes[0]) && !IsNameText(nodes[2])
    requires IsNameText(nodes[1]) && Trimmed(nodes[1]) == first
    requires IsNameText(nodes[3]) && Trimmed(nodes[3]) == second
    ensures NameTexts(nodes) == [first, second]
  {
    var head := nodes[..2];
    assert head == [] + [nodes[0], nodes[1]];
    SkipThenTake([], nodes[0], nodes[1]);
    assert nodes == head + [nodes[2], nodes[3]];
    SkipThenTake(head, nodes[2], nodes[3]);
  }

  /** A node that is not a name text followed by one that is adds one name. */
  lemma SkipThenTake(pre: seq<Node>, x: Node, y: Node)
    requires !IsNameText(x) && IsNameText(y)
    ensures NameTexts(pre + [x, y]) == NameTexts(pre) + [Trimmed(y)]
  {
    Scans.KeepMapSnoc(pre, x, IsNameText, Trimmed);
    Scans.KeepMapSnoc(pre + [x], y, IsNameText, Trimmed);
    assert pre + [x] + [y] == pre + [x, y];
  }

  lemma NameTextsOf(nodes: seq<Node>)
    requires nodes == [NameCell.children[0], Text(" Widget "), NameCell.children[1], Text("12 in stock")]
    ensures !IsNameText(nodes[0]) && !IsNameText(nodes[2])
    ensures IsNameText(nodes[1]) && Trimmed(nodes[1]) == "Widget"
    ensures IsNameText(nodes[3]) && Trimmed(nodes[3]) == "12 in stock"
  {
    TrimWidget();
    TrimStock();
  }

  lemma TrimWidget()
    ensures Strings.TrimSpace(" Widget ") == "Widget"
  {
    assert Strings.TrimLeft(" Widget "[1..]) == "Widget ";
    assert Strings.TrimLeft(" Widget ") == "Widget ";
    assert Strings.TrimRight("Widget "[..6]) == "Widget";
  }

  lemma TrimStock()
    ensures Strings.TrimSpace("12 in stock") == "12 in stock"
  {
  }

  lemma ShowTwelve()
    ensures Numbers.ShowNat(12) + StockSuffix == "12 in stock"
  {
    assert Numbers.ShowNat(1) == "1";
  }

  lemma SampleStock()
    ensures StockOf("12 in stock") == 12
  {
    ShowTwelve();
    StockPhrase(12);
  }

  lemma SamplePrice()
    ensures CellPrice(PriceCell) == 1299.5
  {
    var nodes := Descendants(PriceCell);
    assert nodes == [PriceCell.children[0], Text("1,499"), PriceCell.children[1], Text("1,299.50")];
    SampleInsTexts(nodes);
    CurrentPriceText();
    Scans.LastValueSnoc([], Text("1,299.50"), IsPriceText, PriceValue);
    assert [] + [Text("1,299.50")] == [Text("1,299.50")];
    CurrentPriceValue();
  }

  lemma SampleInsTexts(nodes: seq<Node>)
    requires nodes == [PriceCell.children[0], Text("1,499"), PriceCell.children[1], Text("1,299.50")]
    ensures InsTexts(nodes) == [Text("1,299.50")]
  {
    Scans.GatherSnoc([], nodes[0], IsIns, Descendants);
    Scans.GatherSnoc(nodes[..1], nodes[1], IsIns, Descendants);
    Scans.GatherSnoc(nodes[..2], nodes[2], IsIns, Descendants);
    Scans.GatherSnoc(nodes[..3], nodes[3], IsIns, Descendants);
    assert [] + [nodes[0]] == nodes[..1];
    assert nodes[..1] + [nodes[1]] == nodes[..2];
    assert nodes[..2] + [nodes[2]] == nodes[..3];
    assert nodes[..3] + [nodes[3]] == nodes;
  }

  lemma TrimPrice()
    ensures Strings.TrimSpace("1,299.50") == "1,299.50"
  {
  }

  lemma CurrentPriceText()
    ensures IsPriceText(Text("1,299.50"))
  {
    TrimPrice();
    assert PriceMarker[0] == '\U{00E2}';
    assert '\U{00E2}' !in "1,299.50";
    Strings.AbsentHead("1,299.50", PriceMarker);
  }

  lemma CurrentPriceValue()
    ensures PriceValue(Text("1,299.50")) == 1299.5
  {
    TrimPrice();
    DropSeparator();
    ReadDecimal();
  }

  lemma DropSeparator()
    ensures Strings.RemoveAll("1,299.50", ',') == "1299.50"
  {
  }

  lemma ReadDecimal()
    ensures Numbers.ParseFloat("1299.50") == 1299.5
  {
    ShowWhole();
    assert Numbers.ShowNat(1299) + "." + "50" == "1299.50";
    Numbers.ParseFloatFraction(1299, "50");
    assert Numbers.DigitsValue("50") == 50 by {
      assert "50"[..1] == "5";
    }
    assert Numbers.Pow10(2) == 100;
  }

  lemma ShowWhole()
    ensures Numbers.ShowNat(1299) == "1299"
  {
    assert Numbers.ShowNat(1) == "1";
    assert Numbers.ShowNat(12) == "12";
    assert Numbers.ShowNat(129) == "129";
  }
}
