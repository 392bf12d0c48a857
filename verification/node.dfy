/**
 * The DOM records of saba_core/src/renderer/dom/node.rs. Nodes live in an
 * index arena owned by the window: a link that Rust holds as an `Rc` or a
 * `Weak` to a `RefCell<Node>` is the index of that node in the arena.
 */
module Dom {
  import opened Wrappers
  import opened HtmlAttribute

  datatype ElementKind = Html | Head | Style | Script | Body

  /** An element: its kind and its attributes in the order given. */
  datatype Element = Element(kind: ElementKind, attributes: seq<Attribute>)

  datatype NodeKind = Document | Element(element: Element) | Text(text: string)

  /** The index of a node in its window's arena. */
  type NodeId = nat

  /**
   * The node's `Weak` link to its window: never set, set to the window that
   * owns the node's arena, or set to a window whose last strong reference is
   * already gone (it never upgrades).
   */
  datatype WindowLink = Unset | Live | Dropped

  /** A node: its kind, its window link, and its five tree links. */
  datatype Node = Node(
    kind: NodeKind,
    window: WindowLink,
    parent: Option<NodeId>,
    firstChild: Option<NodeId>,
    lastChild: Option<NodeId>,
    previousSibling: Option<NodeId>,
    nextSibling: Option<NodeId>)

  /** No window and no tree links. */
  predicate Detached(n: Node)
  {
    && n.window == Unset
    && n.parent == None && n.firstChild == None && n.lastChild == None
    && n.previousSibling == None && n.nextSibling == None
  }

  /** `Node::new`: the given kind, with every link empty. */
  function NewNode(kind: NodeKind): (n: Node)
    ensures n.kind == kind && Detached(n)
  {
    Node(kind, Unset, None, None, None, None, None)
  }

  /** `get_element`: the element of an element node; `None` for documents and text. */
  function GetElement(n: Node): (r: Option<Element>)
    ensures r.Some? <==> n.kind.Element?
    ensures r.Some? ==> n.kind == NodeKind.Element(r.value)
  {
    match n.kind
    case Document => None
    case Text(_) => None
    case Element(e) => Some(e)
  }

  /** `element_kind`: the element's kind, for element nodes only. */
  function ElementKindOf(n: Node): Option<ElementKind>
  {
    match n.kind
    case Document => None
    case Text(_) => None
    case Element(e) => Some(e.kind)
  }

  /** `element_kind` is `get_element` followed by `Element::kind`. */
  lemma ElementKindOfGetElement(n: Node)
    ensures ElementKindOf(n).Some? <==> n.kind.Element?
    ensures ElementKindOf(n) == match GetElement(n)
      case None => None
      case Some(e) => Some(e.kind)
  {
  }

  const ElementKindExpectMessage: string := "failed to convert string to ElementKind."

  /**
   * `Element::new`. `fromStr` stands for `ElementKind::from_str`; a name it
   * rejects aborts the `expect`.
   */
  function NewElement(name: string, attributes: seq<Attribute>, fromStr: string -> Option<ElementKind>): (r: Run<Element>)
    ensures r.Returns? <==> fromStr(name).Some?
    ensures r.Returns? ==> r.value.kind == fromStr(name).value && r.value.attributes == attributes
    ensures r.Panics? ==> r.cause == ExpectFailed(ElementKindExpectMessage)
  {
    match fromStr(name)
    case Some(kind) => Returns(Element.Element(kind, attributes))
    case None => Panics(ExpectFailed(ElementKindExpectMessage))
  }

  /** The five element kinds, each once. */
  const AllElementKinds: seq<ElementKind> := [Html, Head, Style, Script, Body]

  /** `ElementKind` is closed: five distinct kinds and no others. */
  lemma ElementKindsAreClosed(k: ElementKind)
    ensures k in AllElementKinds
    ensures |AllElementKinds| == 5
    ensures forall i, j :: 0 <= i < j < |AllElementKinds| ==> AllElementKinds[i] != AllElementKinds[j]
  {
  }

  /** The document node `Window::new` builds: a document whose window link is dropped. */
  function DocumentNode(): (n: Node)
    ensures n.kind == Document && n.window == Dropped
    ensures n.parent == None && n.firstChild == None && n.lastChild == None
    ensures n.previousSibling == None && n.nextSibling == None
  {
    NewNode(Document).(window := Dropped)
  }

  /** Every link of `n` names a node of an arena of `size` nodes. */
  predicate LinksWithin(n: Node, size: nat)
  {
    && (n.parent.Some? ==> n.parent.value < size)
    && (n.firstChild.Some? ==> n.firstChild.value < size)
    && (n.lastChild.Some? ==> n.lastChild.value < size)
    && (n.previousSibling.Some? ==> n.previousSibling.value < size)
    && (n.nextSibling.Some? ==> n.nextSibling.value < size)
  }

  /**
   * A window and the arena of the nodes reachable from it. The setters of
   * `Node` are methods here, on the node with index `id`.
   */
  class Window {
    var nodes: seq<Node>
    const document: NodeId

    /** Every node's links name nodes of this arena, and the document is one of them. */
    ghost predicate Valid()
      reads this
    {
      && document < |nodes|
      && forall i :: 0 <= i < |nodes| ==> LinksWithin(nodes[i], |nodes|)
    }

    /** `Window::new`: an arena holding only the document node. */
    constructor()
      ensures nodes == [DocumentNode()] && document == 0
      ensures Valid()
    {
      nodes := [DocumentNode()];
      document := 0;
    }

    /**
     * `Rc::new(RefCell::new(node))`: a new node enters the arena at the next
     * free index; the nodes already there keep their indices and contents.
     */
    method AddNode(n: Node) returns (id: NodeId)
      requires Valid() && LinksWithin(n, |nodes| + 1)
      modifies this
      ensures id == |old(nodes)| && nodes == old(nodes) + [n]
      ensures nodes[id] == n && Valid()
    {
      id := |nodes|;
      nodes := nodes + [n];
    }

    /** `set_window` on node `id`: only its window link changes. */
    method SetWindow(id: NodeId, window: WindowLink)
      requires Valid() && id < |nodes|
      modifies this
      ensures nodes == old(nodes)[id := old(nodes)[id].(window := window)]
      ensures Valid()
    {
      nodes := nodes[id := nodes[id].(window := window)];
    }

    /** `set_parent` on node `id`: only its parent link changes. */
    method SetParent(id: NodeId, parent: Option<NodeId>)
      requires Valid() && id < |nodes|
      requires parent.Some? ==> parent.value < |nodes|
      modifies this
      ensures nodes == old(nodes)[id := old(nodes)[id].(parent := parent)]
      ensures Valid()
    {
      nodes := nodes[id := nodes[id].(parent := parent)];
    }

    /** `set_first_child` on node `id`: only its first-child link changes. */
    method SetFirstChild(id: NodeId, firstChild: Option<NodeId>)
      requires Valid() && id < |nodes|
      requires firstChild.Some? ==> firstChild.value < |nodes|
      modifies this
      ensures nodes == old(nodes)[id := old(nodes)[id].(firstChild := firstChild)]
      ensures Valid()
    {
      nodes := nodes[id := nodes[id].(firstChild := firstChild)];
    }

    /** `set_last_child` on node `id`: only its last-child link changes. */
    method SetLastChild(id: NodeId, lastChild: Option<NodeId>)
      requires Valid() && id < |nodes|
      requires lastChild.Some? ==> lastChild.value < |nodes|
      modifies this
      ensures nodes == old(nodes)[id := old(nodes)[id].(lastChild := lastChild)]
      ensures Valid()
    {
      nodes := nodes[id := nodes[id].(lastChild := lastChild)];
    }

    /** `set_previous_sibling` on node `id`: only its previous-sibling link changes. */
    method SetPreviousSibling(id: NodeId, previousSibling: Option<NodeId>)
      requires Valid() && id < |nodes|
      requires previousSibling.Some? ==> previousSibling.value < |nodes|
      modifies this
      ensures nodes == old(nodes)[id := old(nodes)[id].(previousSibling := previousSibling)]
      ensures Valid()
    {
      nodes := nodes[id := nodes[id].(previousSibling := previousSibling)];
    }

    /** `set_next_sibling` on node `id`: only its next-sibling link changes. */
    method SetNextSibling(id: NodeId, nextSibling: Option<NodeId>)
      requires Valid() && id < |nodes|
      requires nextSibling.Some? ==> nextSibling.value < |nodes|
      modifies this
      ensures nodes == old(nodes)[id := old(nodes)[id].(nextSibling := nextSibling)]
      ensures Valid()
    {
      nodes := nodes[id := nodes[id].(nextSibling := nextSibling)];
    }
  }
}
