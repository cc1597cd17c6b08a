/**
 * The parsed HTML tree that golang.org/x/net/html hands to the scraper, reduced to
 * what the scraper inspects: element nodes (tag name and children) and text nodes.
 */
module Html {

  datatype Node = Element(tag: string, children: seq<Node>) | Text(data: string)

  /** html.Node.Data: the tag name of an element, the text of a text node. */
  function Data(n: Node): string {
    match n
    case Element(tag, _) => tag
    case Text(data) => data
  }

  /** html.Node.ChildNodes, in document order. */
  function Children(n: Node): seq<Node> {
    match n
    case Element(_, children) => children
    case Text(_) => []
  }

  predicate IsElement(n: Node, tag: string) {
    n.Element? && n.tag == tag
  }

  /** html.Node.Descendants: every node strictly below `n`, depth-first, pre-order. */
  function Descendants(n: Node): seq<Node>
    decreases n, 1
  {
    match n
    case Element(_, children) => DescendantsOf(children)
    case Text(_) => []
  }

  /** The pre-order walk of a forest: each tree's root, then its descendants, then the next tree. */
  function DescendantsOf(forest: seq<Node>): seq<Node>
    decreases forest, 0
  {
    if forest == [] then [] else [forest[0]] + Descendants(forest[0]) + DescendantsOf(forest[1..])
  }

  /** The walk of two forests side by side is the walk of the first, then of the second. */
  lemma {:induction false} DescendantsOfAppend(a: seq<Node>, b: seq<Node>)
    ensures DescendantsOf(a + b) == DescendantsOf(a) + DescendantsOf(b)
  {
    if a != [] {
      assert (a + b)[1..] == a[1..] + b;
      DescendantsOfAppend(a[1..], b);
    } else {
      assert a + b == b;
    }
  }

  /** Every child of an element is visited by its walk. */
  lemma {:induction false} ChildrenAreDescendants(n: Node)
    ensures forall c :: c in Children(n) ==> c in Descendants(n)
  {
    if n.Element? {
      ChildrenInWalk(n.children);
    }
  }

  lemma {:induction false} ChildrenInWalk(forest: seq<Node>)
    ensures forall c :: c in forest ==> c in DescendantsOf(forest)
  {
    if forest != [] {
      ChildrenInWalk(forest[1..]);
      assert forall c :: c in forest ==> c == forest[0] || c in forest[1..];
    }
  }
}
