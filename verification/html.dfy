/**
 * The parsed HTML the scraper works on, standing in for the `scraper` crate.
 * A document is a forest of element and text nodes, as the HTML parser
 * builds it. Selectors look for the first node in document order (pre-order)
 * that they match.
 * Parsing and serialisation are not modelled. Each element carries its
 * inner HTML as a given string.
 */
module Html {
  import opened Domain

  /**
   * A node of the parsed tree. `classes` is the element's class list, and
   * `innerHtml` is what `ElementRef::inner_html` would serialise.
   */
  datatype Node =
    | Text(content: string)
    | Element(tag: string, attributes: map<string, string>, classes: set<string>,
              children: seq<Node>, innerHtml: string)

  /** The result of `Html::parse_fragment`: its top-level nodes. */
  datatype Document = Document(roots: seq<Node>)

  /** The children of a node; a text node has none. */
  function ChildrenOf(n: Node): seq<Node> {
    if n.Element? then n.children else []
  }

  /** `ElementRef::value().attr(name)`. */
  function Attr(n: Node, name: string): (r: Option<string>)
    ensures r.Some? <==> n.Element? && name in n.attributes
    ensures r.Some? ==> r.value == n.attributes[name]
  {
    if n.Element? && name in n.attributes then Some(n.attributes[name]) else None
  }

  /**
   * A compound CSS selector as the scraper writes them: an optional type
   * selector, an optional `#id` and any number of `.class` parts.
   */
  datatype Selector = Selector(tag: Option<string>, id: Option<string>, classes: set<string>)

  /** `sel` matches the element: its tag, its `id` and all its classes. */
  predicate Matches(sel: Selector, n: Node) {
    && n.Element?
    && (sel.tag.Some? ==> n.tag == sel.tag.value)
    && (sel.id.Some? ==> Attr(n, "id") == Some(sel.id.value))
    && sel.classes <= n.classes
  }

  /** What a search looks for: an element matching a selector, or any text node. */
  datatype Query = BySelector(sel: Selector) | AnyText

  /** The node is what the query looks for. */
  predicate Satisfies(q: Query, n: Node) {
    match q
    case BySelector(sel) => Matches(sel, n)
    case AnyText => n.Text?
  }

  // ---------------------------------------------------------------------
  // Reference: the whole forest in document order
  // ---------------------------------------------------------------------

  /** Every node of the forest in document order: each node before its descendants. */
  function Flatten(ns: seq<Node>): (r: seq<Node>)
    ensures |ns| <= |r|
    decreases ns
  {
    if ns == [] then []
    else [ns[0]] + (if ns[0].Element? then Flatten(ns[0].children) else []) + Flatten(ns[1..])
  }

  /** The members of `ns` that satisfy `q`, in order. */
  function Filter(ns: seq<Node>, q: Query): (r: seq<Node>)
    ensures |r| <= |ns|
    ensures forall k :: 0 <= k < |r| ==> Satisfies(q, r[k]) && r[k] in ns
  {
    if ns == [] then []
    else if Satisfies(q, ns[0]) then [ns[0]] + Filter(ns[1..], q)
    else Filter(ns[1..], q)
  }

  /** Everything that `select` would iterate over, in order. */
  function SelectAll(ns: seq<Node>, q: Query): seq<Node> {
    Filter(Flatten(ns), q)
  }

  /** Filtering distributes over concatenation. */
  lemma {:induction false} FilterAppend(a: seq<Node>, b: seq<Node>, q: Query)
    ensures Filter(a + b, q) == Filter(a, q) + Filter(b, q)
    decreases |a|
  {
    if a == [] {
      assert a + b == b;
    } else {
      assert (a + b)[1..] == a[1..] + b;
      FilterAppend(a[1..], b, q);
    }
  }

  // ---------------------------------------------------------------------
  // The scanner: `select(...).next()`
  // ---------------------------------------------------------------------

  /**
   * The first node of the forest in document order that satisfies `q`.
   * It stops at the first hit and never builds the flattened list.
   */
  function FindFirst(ns: seq<Node>, q: Query): (r: Option<Node>)
    ensures r.Some? ==> Satisfies(q, r.value)
    decreases ns
  {
    if ns == [] then None
    else if Satisfies(q, ns[0]) then Some(ns[0])
    else
      match (if ns[0].Element? then FindFirst(ns[0].children, q) else None)
      case Some(n) => Some(n)
      case None => FindFirst(ns[1..], q)
  }

  /** The first node of a list, if there is one. */
  function Head(ns: seq<Node>): (r: Option<Node>)
    ensures r.Some? <==> ns != []
    ensures r.Some? ==> r.value == ns[0]
  {
    if ns == [] then None else Some(ns[0])
  }

  /**
   * The scanner agrees with the reference: it finds nothing exactly when no
   * node satisfies `q`, and otherwise the first such node in document order.
   */
  lemma {:induction false} FindFirstIsHead(ns: seq<Node>, q: Query)
    ensures FindFirst(ns, q) == Head(SelectAll(ns, q))
    decreases ns
  {
    if ns != [] {
      var kids := ChildrenOf(ns[0]);
      FilterAppend([ns[0]] + Flatten(kids), Flatten(ns[1..]), q);
      FilterAppend([ns[0]], Flatten(kids), q);
      assert Filter([ns[0]], q) == (if Satisfies(q, ns[0]) then [ns[0]] else []);
      if !Satisfies(q, ns[0]) {
        if ns[0].Element? {
          FindFirstIsHead(ns[0].children, q);
        }
        if FindFirst(kids, q).None? {
          FindFirstIsHead(ns[1..], q);
        }
      }
    }
  }

  /** `select(sel).next()` on a forest. */
  function SelectFirst(ns: seq<Node>, sel: Selector): (r: Option<Node>)
    ensures r.Some? ==> Matches(sel, r.value)
  {
    FindFirst(ns, BySelector(sel))
  }

  /** `ElementRef::select(sel).next()`: the search covers the descendants only. */
  function SelectIn(scope: Node, sel: Selector): (r: Option<Node>)
    ensures r.Some? ==> Matches(sel, r.value)
  {
    SelectFirst(ChildrenOf(scope), sel)
  }

  /**
   * `ElementRef::text().next()`: the content of the first text node among
   * the descendants, in document order.
   */
  function FirstText(scope: Node): (r: Option<string>)
    ensures r.Some? <==> SelectAll(ChildrenOf(scope), AnyText) != []
    ensures r.Some? ==> r.value == SelectAll(ChildrenOf(scope), AnyText)[0].content
  {
    FindFirstIsHead(ChildrenOf(scope), AnyText);
    match FindFirst(ChildrenOf(scope), AnyText)
    case Some(t) => Some(t.content)
    case None => None
  }
}
