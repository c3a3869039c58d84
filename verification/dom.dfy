/**
 * The page as the content script sees it. Nodes are values carrying what the
 * script reads from an element; CSS selectors are opaque keys, and a document
 * records, for each selector and search scope, the matching elements in
 * document order.
 */
module Dom {
  import opened Wrappers

  type Selector = string
  type NodeId = nat

  /**
   * A piece of an element's serialised inner HTML. `enclosedBy` holds the
   * selectors matched by some descendant element whose markup contains the piece.
   */
  datatype Fragment = Fragment(markup: string, enclosedBy: set<Selector>)

  datatype Node = Node(
    id: NodeId,
    visible: bool,          // isVisible: rendered, not hidden by style or a [hidden] ancestor, has client rects
    innerText: string,
    html: seq<Fragment>,    // innerHTML, piece by piece
    ancestors: nat,         // number of parentElement steps up to the root element
    style: string,          // the style attribute, "" when absent
    classes: set<string>)   // classList

  /** Where a query runs: the whole document or below one element. */
  datatype Scope = Everywhere | Under(root: NodeId)

  datatype Document = Document(matches: map<(Scope, Selector), seq<Node>>)

  /** Concatenated markup of a list of fragments. */
  function Markup(frags: seq<Fragment>): string
    decreases |frags|
  {
    if frags == [] then [] else frags[0].markup + Markup(frags[1..])
  }

  /** The markup of consecutive fragments is their markups one after the other. */
  lemma {:induction false} MarkupAppend(a: seq<Fragment>, b: seq<Fragment>)
    ensures Markup(a + b) == Markup(a) + Markup(b)
    decreases |a|
  {
    if a == [] {
      assert a + b == b;
    } else {
      var ab := a + b;
      assert ab[0] == a[0] && ab[1..] == a[1..] + b;
      MarkupAppend(a[1..], b);
      calc {
        Markup(ab);
        a[0].markup + Markup(a[1..] + b);
        a[0].markup + (Markup(a[1..]) + Markup(b));
        (a[0].markup + Markup(a[1..])) + Markup(b);
      }
    }
  }

  function InnerHtml(n: Node): string
  {
    Markup(n.html)
  }

  /** `scope.querySelectorAll(sel)`, in document order. */
  function QueryAll(doc: Document, scope: Scope, sel: Selector): seq<Node>
  {
    if (scope, sel) in doc.matches then doc.matches[(scope, sel)] else []
  }

  /** `scope.querySelector(sel)`: the first match in document order, or null. */
  function QuerySelector(doc: Document, scope: Scope, sel: Selector): (r: Option<Node>)
    ensures r.None? <==> QueryAll(doc, scope, sel) == []
    ensures r.Some? ==> r.value == QueryAll(doc, scope, sel)[0]
  {
    var all := QueryAll(doc, scope, sel);
    if all == [] then None else Some(all[0])
  }

  /** `isVisible(el)`, which is false for null. */
  predicate IsVisible(el: Option<Node>)
  {
    el.Some? && el.value.visible
  }
}
