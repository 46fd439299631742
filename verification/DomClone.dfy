/** Cloning, importing and the tag-name lists of ixml's node.c and document.c. */
module DomClone {
  import opened DomForest
  import opened Options

  /** A tree of nodes with their attributes, as a witness that the links spell it. */
  datatype NTree = NTree(node: Node, attrs: seq<Node>, kids: seq<NTree>)

  /** What a clone should keep of it. */
  datatype Tree = Tree(kind: NodeType, names: Names, attrs: seq<Names>, kids: seq<Tree>)

  function First(ts: seq<NTree>): Node?
  {
    if ts == [] then null else ts[0].node
  }

  function Members(l: seq<Node>): set<Node>
  {
    set a | a in l
  }

  /** A node and its attributes. */
  function Own(t: NTree): set<Node>
  {
    {t.node} + Members(t.attrs)
  }

  ghost function Nodes(ts: seq<NTree>): set<Node>
  {
    if ts == [] then {} else Own(ts[0]) + Nodes(ts[0].kids) + Nodes(ts[1..])
  }

  ghost predicate Apart(ts: seq<NTree>)
  {
    ts != [] ==>
      && ts[0].node !in ts[0].attrs && Distinct(ts[0].attrs)
      && Own(ts[0]) !! Nodes(ts[0].kids) && Own(ts[0]) !! Nodes(ts[1..])
      && Nodes(ts[0].kids) !! Nodes(ts[1..])
      && Apart(ts[0].kids) && Apart(ts[1..])
  }

  /** `l` is a list of attributes. */
  ghost predicate Chained(l: seq<Node>)
    reads l`prevSibling, l`nextSibling
  {
    forall i :: 0 <= i < |l| ==> l[i].prevSibling == At(l, i - 1) && l[i].nextSibling == At(l, i + 1)
  }

  /** `ts` are the trees of a sibling list under `parent`, after `prev`. */
  ghost predicate Hangs(ts: seq<NTree>, parent: Node?, prev: Node?)
    reads Nodes(ts)`parentNode, Nodes(ts)`firstChild, Nodes(ts)`prevSibling, Nodes(ts)`nextSibling, Nodes(ts)`firstAttr
  {
    ts != [] ==>
      var n := ts[0].node;
      && n.parentNode == parent && n.prevSibling == prev && n.nextSibling == First(ts[1..])
      && n.firstChild == First(ts[0].kids) && n.firstAttr == At(ts[0].attrs, 0) && Chained(ts[0].attrs)
      && Hangs(ts[0].kids, n, null) && Hangs(ts[1..], parent, n)
  }

  function NamesOf(ns: seq<Node>): (r: seq<Names>)
    ensures |r| == |ns|
  {
    seq(|ns|, i requires 0 <= i < |ns| => ns[i].names)
  }

  function Value(ts: seq<NTree>): seq<Tree>
  {
    if ts == [] then []
    else [Tree(ts[0].node.nodeType, ts[0].node.names, NamesOf(ts[0].attrs), Value(ts[0].kids))] + Value(ts[1..])
  }

  // ------------------------------------------------- what the recursive copy keeps

  /** ixmlNode_cloneNodeTreeRecursive on a sibling list: only an element is followed to
      its right sibling, and other kinds than these end the list. */
  function Copied(ts: seq<Tree>, deep: bool): seq<Tree>
  {
    if ts == [] then []
    else if ts[0].kind == ElementNode then
      if deep then [Tree(ElementNode, ts[0].names, ts[0].attrs, Copied(ts[0].kids, deep))] + Copied(ts[1..], deep)
      else [Tree(ElementNode, ts[0].names, ts[0].attrs, [])]
    else if ts[0].kind == TextNode || ts[0].kind == CDataNode then
      [Tree(ts[0].kind, TextNames(ts[0].names), [], [])]
    else []
  }

  /** A text node's copy has its name and value only. */
  function TextNames(n: Names): Names
  {
    Names(n.nodeName, n.nodeValue, None, None, None)
  }

  /** In every sibling list, text stands last and bare: it has no namespace, prefix or local
      name, which its copy loses. */
  predicate TextLast(ts: seq<Tree>)
  {
    ts != [] ==>
      if ts[0].kind == ElementNode then TextLast(ts[0].kids) && TextLast(ts[1..])
      else (ts[0].kind == TextNode || ts[0].kind == CDataNode) && ts[0].kids == [] && ts[0].attrs == [] && ts[1..] == []
           && ts[0].names.namespaceURI == ts[0].names.prefix == ts[0].names.localName == None
  }

  /** A deep copy is the whole of the original exactly when text comes last in every
      list: whatever follows a text node is lost. */
  lemma {:induction false} CopyIsWhole(ts: seq<Tree>)
    ensures Copied(ts, true) == ts <==> TextLast(ts)
  {
    if ts != [] {
      CopyIsWhole(ts[1..]);
      CopyIsWhole(ts[0].kids);
      assert ts == [ts[0]] + ts[1..];
      var c := Copied(ts, true);
      assert c == ts ==> c[0] == ts[0] && c[1..] == ts[1..];
    }
  }

  predicate Textual(kind: NodeType) { kind == TextNode || kind == CDataNode }

  /** One node of a deep copy against its original: name and value are kept always, the
      other names and the attributes of an element alone. */
  ghost predicate Keeps(c: Tree, t: Tree)
    decreases c, 1
  {
    && c.kind == t.kind && c.names.nodeName == t.names.nodeName && c.names.nodeValue == t.names.nodeValue
    && (t.kind == ElementNode ==>
          && c.names.namespaceURI == t.names.namespaceURI && c.names.prefix == t.names.prefix
          && c.names.localName == t.names.localName && c.attrs == t.attrs && Mirrors(c.kids, t.kids))
    && (t.kind != ElementNode ==>
          c.names.namespaceURI == c.names.prefix == c.names.localName == None && c.attrs == [] && c.kids == [])
  }

  /** A sibling list of a deep copy against its original, place by place: it reaches as far
      as the first text, that text included, or stops in front of a node that is neither
      element nor text. */
  ghost predicate Mirrors(cs: seq<Tree>, ts: seq<Tree>)
    decreases cs, 0
  {
    && |cs| <= |ts|
    && (forall i :: 0 <= i < |cs| ==> Keeps(cs[i], ts[i]))
    && (forall i :: 0 <= i < |cs| - 1 ==> ts[i].kind == ElementNode)
    && (cs != [] ==> ts[|cs| - 1].kind == ElementNode || Textual(ts[|cs| - 1].kind))
    && (|cs| < |ts| ==>
          (cs != [] && Textual(ts[|cs| - 1].kind)) || !(ts[|cs|].kind == ElementNode || Textual(ts[|cs|].kind)))
  }

  /** What is copied, and that it is copied faithfully. */
  lemma {:induction false} CopyMirrors(ts: seq<Tree>)
    ensures Mirrors(Copied(ts, true), ts)
  {
    if ts != [] && ts[0].kind == ElementNode {
      CopyMirrors(ts[0].kids);
      CopyMirrors(ts[1..]);
      var c, rest := Copied(ts, true), Copied(ts[1..], true);
      assert c[1..] == rest && Keeps(c[0], ts[0]);
      forall i | 0 <= i < |c| ensures Keeps(c[i], ts[i]) {
        if i > 0 { assert c[i] == rest[i - 1] && ts[i] == ts[1..][i - 1]; }
      }
      assert forall i :: 0 < i < |ts| ==> ts[i] == ts[1..][i - 1];
    }
  }

  /** Nothing in it knows a document, and no attribute its element. */
  ghost predicate Unowned(ts: seq<NTree>)
    reads Nodes(ts)`ownerDocument, Nodes(ts)`ownerElement
  {
    forall n :: n in Nodes(ts) ==> n.ownerDocument == null && n.ownerElement == null
  }

  // --------------------------------------------------------------- the copy itself

  ghost function Size(ts: seq<NTree>): nat
  {
    if ts == [] then 0 else 1 + Size(ts[0].kids) + Size(ts[1..])
  }

  function Top(ts: seq<NTree>, i: int): Node?
  {
    if 0 <= i < |ts| then ts[i].node else null
  }

  /** `Hangs` seen along the list, the first `k` under `p` and the others under no node. */
  ghost predicate Adopting(ts: seq<NTree>, k: nat, p: Node, prev: Node?)
    reads Nodes(ts)`parentNode, Nodes(ts)`firstChild, Nodes(ts)`prevSibling, Nodes(ts)`nextSibling, Nodes(ts)`firstAttr
  {
    forall i :: 0 <= i < |ts| ==>
      Placed(ts, i, prev) && (Inside(ts, i); ts[i].node.parentNode == if i < k then p else null)
  }

  ghost predicate Placed(ts: seq<NTree>, i: nat, prev: Node?)
    requires i < |ts|
    reads Nodes(ts)`parentNode, Nodes(ts)`firstChild, Nodes(ts)`prevSibling, Nodes(ts)`nextSibling, Nodes(ts)`firstAttr
  {
    Inside(ts, i);
    var n := ts[i].node;
    && n.prevSibling == (if i == 0 then prev else Top(ts, i - 1))
    && n.nextSibling == Top(ts, i + 1) && n.firstChild == First(ts[i].kids)
    && n.firstAttr == At(ts[i].attrs, 0) && Chained(ts[i].attrs)
    && Hangs(ts[i].kids, n, null)
  }

  lemma {:induction false} Inside(ts: seq<NTree>, i: nat)
    requires i < |ts|
    ensures ts[i].node in Nodes(ts) && Members(ts[i].attrs) <= Nodes(ts) && Nodes(ts[i].kids) <= Nodes(ts)
  {
    if i > 0 { Inside(ts[1..], i - 1); }
  }

  lemma {:induction false} ApartAt(ts: seq<NTree>, i: nat, j: nat)
    requires Apart(ts) && i < |ts| && j < |ts|
    ensures ts[j].node !in Nodes(ts[i].kids) && (i != j ==> ts[i].node != ts[j].node)
  {
    if i > 0 && j > 0 {
      ApartAt(ts[1..], i - 1, j - 1);
    } else if i > 0 {
      Inside(ts[1..], i - 1);
    } else if j > 0 {
      Inside(ts[1..], j - 1);
    }
  }

  lemma {:induction false} PlacedFromHangs(ts: seq<NTree>, i: nat, parent: Node?, prev: Node?)
    requires Hangs(ts, parent, prev) && i < |ts|
    ensures Placed(ts, i, prev) && ts[i].node.parentNode == parent
  {
    if i > 0 {
      PlacedFromHangs(ts[1..], i - 1, parent, ts[0].node);
    }
  }

  lemma {:induction false} HangsFromPlaced(ts: seq<NTree>, parent: Node?, prev: Node?)
    requires forall i :: 0 <= i < |ts| ==> Placed(ts, i, prev) && ts[i].node.parentNode == parent
    ensures Hangs(ts, parent, prev)
  {
    if ts != [] {
      forall i | 0 <= i < |ts| - 1
        ensures Placed(ts[1..], i, ts[0].node) && ts[1..][i].node.parentNode == parent
      {
        assert Placed(ts, i + 1, prev);
      }
      HangsFromPlaced(ts[1..], parent, ts[0].node);
      assert Placed(ts, 0, prev);
    }
  }

  /** One more assignment of the loop. */
  method AdoptOne(n: Node, p: Node, ghost ts: seq<NTree>, ghost k: nat)
    requires Apart(ts) && k < |ts| && n == ts[k].node && Adopting(ts, k, p, null)
    modifies n`parentNode
    ensures n.parentNode == p && n.nextSibling == Top(ts, k + 1) && Adopting(ts, k + 1, p, null)
  {
    hide Apart, Own, Hangs;
    assert Placed(ts, k, null);
    forall i | 0 <= i < |ts| ensures n !in Nodes(ts[i].kids) && (i != k ==> n != ts[i].node) {
      ApartAt(ts, i, k);
    }
    n.parentNode := p;
    forall i | 0 <= i < |ts|
      ensures Placed(ts, i, null) && ts[i].node.parentNode == if i < k + 1 then p else null
    {
      assert old(Placed(ts, i, null));
    }
  }

  /** firstChild->parentNode = p, then ixmlNode_setSiblingNodesParent. */
  method Adopt(first: Node, p: Node, ghost ts: seq<NTree>)
    requires ts != [] && first == First(ts) && Hangs(ts, null, null) && Apart(ts)
    modifies Nodes(ts)`parentNode
    ensures Hangs(ts, p, null)
  {
    forall i | 0 <= i < |ts| ensures Placed(ts, i, null) && ts[i].node in Nodes(ts) && ts[i].node.parentNode == null {
      PlacedFromHangs(ts, i, null, null);
      Inside(ts, i);
    }
    AdoptOne(first, p, ts, 0);
    var parentNode, nextptr := first.parentNode, first.nextSibling;
    ghost var k := 1;
    while nextptr != null
      invariant 1 <= k <= |ts| && nextptr == Top(ts, k) && Adopting(ts, k, p, null)
      decreases |ts| - k
    {
      AdoptOne(nextptr, parentNode, ts, k);
      nextptr := nextptr.nextSibling;
      k := k + 1;
    }
    HangsFromPlaced(ts, p, null);
  }

  /** No document and no attribute hangs below, and nothing else is in the attribute lists. */
  ghost predicate Contents(ts: seq<NTree>)
  {
    ts != [] ==>
      && Attributes(ts[0].attrs)
      && ts[0].node.nodeType != DocumentNode && ts[0].node.nodeType != AttributeNode
      && Contents(ts[0].kids) && Contents(ts[1..])
  }

  predicate Attributes(l: seq<Node>)
  {
    forall a :: a in l ==> a.nodeType == AttributeNode
  }

  lemma {:induction false} NodesExist(ts: seq<NTree>)
    ensures forall n :: n in Nodes(ts) ==> allocated(n)
  {
    if ts != [] {
      NodesExist(ts[0].kids);
      NodesExist(ts[1..]);
    }
  }

  /** The attribute case of ixmlNode_cloneNodeTreeRecursive: the whole rest of the list,
      deep or not. The copies know no element and no document. */
  method CloneAttributes(nodeptr: Node?, ghost l: seq<Node>, ghost i: nat) returns (newAttr: Node?, ghost copy: seq<Node>)
    requires i <= |l| && nodeptr == At(l, i) && Chained(l) && Attributes(l)
    ensures (forall a :: a in copy ==> fresh(a)) && Distinct(copy) && Chained(copy) && newAttr == At(copy, 0)
    ensures NamesOf(copy) == NamesOf(l[i..])
    ensures forall a :: a in copy ==> a.parentNode == null && a.ownerElement == null && a.ownerDocument == null
    decreases |l| - i
  {
    hide Chained, Distinct, NamesOf;
    newAttr, copy := null, [];
    if nodeptr == null {
      NothingChained(l[i..]);
      return;
    }
    NextInChain(l, i);
    var attr := new Node(AttributeNode, nodeptr.names);
    var nextSib, rest := CloneAttributes(nodeptr.nextSibling, l, i + 1);
    LinkAttribute(attr, nextSib, rest);
    newAttr, copy := attr, [attr] + rest;
    NamesFrom(l, i);
    NamesFrom(copy, 0);
    assert copy[1..] == rest && copy[0..] == copy;
  }

  lemma NothingChained(l: seq<Node>)
    requires l == []
    ensures Chained([]) && Distinct([]) && NamesOf([]) == NamesOf(l)
  {
  }

  lemma NextInChain(l: seq<Node>, i: nat)
    requires Chained(l) && i < |l|
    ensures l[i].nextSibling == At(l, i + 1)
  {
  }

  lemma NamesFrom(l: seq<Node>, i: nat)
    requires i < |l|
    ensures NamesOf(l[i..]) == [l[i].names] + NamesOf(l[i + 1..])
  {
  }

  /** newAttr->nextSibling = nextSib and back. */
  method LinkAttribute(attr: Node, nextSib: Node?, ghost rest: seq<Node>)
    requires nextSib == At(rest, 0) && Chained(rest) && Distinct(rest) && attr !in rest && attr.prevSibling == null
    modifies attr`nextSibling, Members(rest)`prevSibling
    ensures Chained([attr] + rest) && Distinct([attr] + rest)
  {
    ghost var all := [attr] + rest;
    attr.nextSibling := nextSib;
    if nextSib != null {
      assert nextSib == rest[0] && nextSib in rest;
      nextSib.prevSibling := attr;
    }
    forall k | 0 <= k < |all| ensures all[k].prevSibling == At(all, k - 1) && all[k].nextSibling == At(all, k + 1) {
      if k > 0 {
        assert all[k] == rest[k - 1] && old(rest[k - 1].prevSibling) == At(rest, k - 2) && rest[k - 1].nextSibling == At(rest, k);
      }
    }
  }

  /** ixmlNode_cloneNodeTreeRecursive on other nodes: fresh nodes, linked both ways, that
      hold exactly `Copied` of the source. */
  method CloneRecursive(nodeptr: Node?, deep: bool, ghost src: seq<NTree>, ghost parent: Node?, ghost prev: Node?)
    returns (newNode: Node?, ghost copy: seq<NTree>)
    requires Hangs(src, parent, prev) && nodeptr == First(src) && Contents(src)
    ensures fresh(Nodes(copy)) && Apart(copy) && Hangs(copy, null, null) && newNode == First(copy)
    ensures Value(copy) == Copied(Value(src), deep) && Unowned(copy)
    decreases Size(src), 0
  {
    newNode, copy := null, [];
    if nodeptr == null { return; }
    if nodeptr.nodeType == ElementNode {
      newNode, copy := CloneElement(nodeptr, deep, src[0].attrs, src[0].kids, src[1..], parent);
    } else if nodeptr.nodeType == TextNode || nodeptr.nodeType == CDataNode {
      newNode := new Node(nodeptr.nodeType, TextNames(nodeptr.names));
      Assembled(newNode, [], [], []);
      copy := [NTree(newNode, [], [])] + [];
    }
  }

  /** Its element case. */
  method CloneElement(nodeptr: Node, deep: bool, ghost attrs: seq<Node>, ghost kids: seq<NTree>, ghost rest: seq<NTree>, ghost parent: Node?)
    returns (newElement: Node, ghost copy: seq<NTree>)
    requires Hangs(kids, nodeptr, null) && Hangs(rest, parent, nodeptr) && Contents(kids) && Contents(rest)
    requires nodeptr.firstChild == First(kids) && nodeptr.nextSibling == First(rest)
    requires nodeptr.firstAttr == At(attrs, 0) && Chained(attrs) && Attributes(attrs)
    ensures fresh(Nodes(copy)) && Apart(copy) && Hangs(copy, null, null) && newElement == First(copy)
    ensures Value(copy) ==
      if deep then [Tree(ElementNode, nodeptr.names, NamesOf(attrs), Copied(Value(kids), deep))] + Copied(Value(rest), deep)
      else [Tree(ElementNode, nodeptr.names, NamesOf(attrs), [])]
    ensures Unowned(copy)
    decreases Size(kids) + Size(rest), 2
  {
    hide Value, Copied, Contents, Hangs, Apart, Nodes, Unowned, Chained, Distinct, NamesOf;
    NodesExist(kids);
    NodesExist(rest);
    ghost var newAttrs, newKids, newRest;
    newElement, newAttrs := NewElement(nodeptr, attrs);
    assert Hangs(kids, nodeptr, null) && Hangs(rest, parent, nodeptr);
    if !deep {
      Nothing(newElement);
      Assembled(newElement, newAttrs, [], []);
      copy := [NTree(newElement, newAttrs, [])] + [];
      return;
    }
    newKids := CloneChildren(nodeptr, newElement, kids);
    assert Hangs(rest, parent, nodeptr);
    NodesExist(newKids);
    var nextSib;
    nextSib, newRest := CloneRecursive(nodeptr.nextSibling, deep, rest, parent, nodeptr);
    copy := JoinRest(newElement, nextSib, newAttrs, newKids, newRest);
  }

  /** newElement->nextSibling = nextSib and back. */
  method JoinRest(newElement: Node, nextSib: Node?, ghost attrs: seq<Node>, ghost kids: seq<NTree>, ghost rest: seq<NTree>)
    returns (ghost copy: seq<NTree>)
    requires nextSib == First(rest) && Hangs(rest, null, null) && Apart(rest) && Hangs(kids, newElement, null) && Apart(kids)
    requires newElement.parentNode == null && newElement.prevSibling == null && newElement.firstChild == First(kids)
    requires newElement.firstAttr == At(attrs, 0) && Chained(attrs) && Distinct(attrs) && newElement !in attrs
    requires Members(attrs) !! Nodes(kids) && Members(attrs) !! Nodes(rest)
    requires newElement !in Nodes(kids) && newElement !in Nodes(rest) && Nodes(kids) !! Nodes(rest)
    requires Unowned(kids) && Unowned(rest) && forall a :: a in [newElement] + attrs ==> a.ownerDocument == null && a.ownerElement == null
    modifies newElement`nextSibling, Nodes(rest)`prevSibling
    ensures copy == [NTree(newElement, attrs, kids)] + rest && Nodes(copy) == {newElement} + Members(attrs) + Nodes(kids) + Nodes(rest)
    ensures Hangs(copy, null, null) && Apart(copy) && Unowned(copy) && First(copy) == newElement
    ensures Value(copy) == [Tree(newElement.nodeType, newElement.names, NamesOf(attrs), Value(kids))] + Value(rest)
  {
    hide Value, Hangs, Apart, Nodes, Distinct, NamesOf;
    NodesExist(kids);
    NodesExist(rest);
    newElement.nextSibling := nextSib;
    LinkNext(newElement, nextSib, rest);
    Assembled(newElement, attrs, kids, rest);
    copy := [NTree(newElement, attrs, kids)] + rest;
  }

  /** ixmlNode_cloneElement, and the attributes. */
  method NewElement(nodeptr: Node, ghost attrs: seq<Node>) returns (newElement: Node, ghost newAttrs: seq<Node>)
    requires nodeptr.firstAttr == At(attrs, 0) && Chained(attrs) && Attributes(attrs)
    ensures fresh(newElement) && (forall a :: a in newAttrs ==> fresh(a)) && newElement !in newAttrs && Distinct(newAttrs)
    ensures newElement.firstAttr == At(newAttrs, 0) && Chained(newAttrs) && NamesOf(newAttrs) == NamesOf(attrs)
    ensures newElement.nodeType == ElementNode && newElement.names == nodeptr.names
    ensures newElement.parentNode == newElement.firstChild == newElement.prevSibling == newElement.nextSibling == null
    ensures newElement.ownerDocument == newElement.ownerElement == null
    ensures forall a :: a in newAttrs ==> a.ownerDocument == null && a.ownerElement == null
  {
    newElement := new Node(ElementNode, nodeptr.names);
    var firstAttr;
    firstAttr, newAttrs := CloneAttributes(nodeptr.firstAttr, attrs, 0);
    assert attrs[0..] == attrs;
    newElement.firstAttr := firstAttr;
  }

  method CloneChildren(nodeptr: Node, newElement: Node, ghost kids: seq<NTree>) returns (ghost newKids: seq<NTree>)
    requires Hangs(kids, nodeptr, null) && Contents(kids) && nodeptr.firstChild == First(kids)
    requires newElement !in Nodes(kids) && newElement != nodeptr
    modifies newElement`firstChild
    ensures fresh(Nodes(newKids)) && Apart(newKids) && Hangs(newKids, newElement, null)
    ensures newElement.firstChild == First(newKids) && Value(newKids) == Copied(Value(kids), true) && Unowned(newKids)
    decreases Size(kids), 1
  {
    hide Value, Copied, Contents, Size, Apart, Nodes;
    var child;
    child, newKids := CloneRecursive(nodeptr.firstChild, true, kids, nodeptr, null);
    NodesExist(newKids);
    newElement.firstChild := child;
    if child != null {
      Adopt(child, newElement, newKids);
    }
  }

  lemma Assembled(n: Node, attrs: seq<Node>, kids: seq<NTree>, rest: seq<NTree>)
    requires Hangs(kids, n, null) && Hangs(rest, null, n)
    requires n.parentNode == null && n.prevSibling == null && n.nextSibling == First(rest) && n.firstChild == First(kids)
    requires n.firstAttr == At(attrs, 0) && Chained(attrs) && Distinct(attrs) && n !in attrs
    requires Members(attrs) !! Nodes(kids) && Members(attrs) !! Nodes(rest)
    requires n !in Nodes(kids) && n !in Nodes(rest) && Nodes(kids) !! Nodes(rest) && Apart(kids) && Apart(rest)
    requires Unowned(kids) && Unowned(rest) && forall a :: a in [n] + attrs ==> a.ownerDocument == null && a.ownerElement == null
    ensures
      var ts := [NTree(n, attrs, kids)] + rest;
      && Hangs(ts, null, null) && Apart(ts) && Unowned(ts) && Nodes(ts) == {n} + Members(attrs) + Nodes(kids) + Nodes(rest) && First(ts) == n
      && Value(ts) == [Tree(n.nodeType, n.names, NamesOf(attrs), Value(kids))] + Value(rest)
  {
    var ts := [NTree(n, attrs, kids)] + rest;
    assert ts[1..] == rest && ts[0] == NTree(n, attrs, kids);
    assert Nodes(ts) == {n} + Members(attrs) + Nodes(kids) + Nodes(rest);
  }

  lemma Nothing(n: Node)
    ensures Hangs([], n, null) && Hangs([], null, n) && Apart([]) && Nodes([]) == {} && Value([]) == [] && Unowned([])
  {
  }

  method LinkNext(newElement: Node, nextSib: Node?, ghost rest: seq<NTree>)
    requires nextSib == First(rest) && Hangs(rest, null, null) && Apart(rest)
    modifies Nodes(rest)`prevSibling
    ensures Hangs(rest, null, newElement)
  {
    if nextSib != null {
      assert Hangs(rest[0].kids, nextSib, null) && Hangs(rest[1..], null, nextSib);
      nextSib.prevSibling := newElement;
    }
  }

  // ------------------------------------------------------------------ cloneNode

  /** The loop of ixmlNode_cloneNodeTree over the new element's children. */
  method AdoptAll(first: Node?, p: Node, ghost ts: seq<NTree>)
    requires first == First(ts) && Hangs(ts, null, null) && Apart(ts)
    modifies Nodes(ts)`parentNode
    ensures Hangs(ts, p, null)
  {
    forall i | 0 <= i < |ts| ensures Placed(ts, i, null) && ts[i].node in Nodes(ts) && ts[i].node.parentNode == null {
      PlacedFromHangs(ts, i, null, null);
      Inside(ts, i);
    }
    var childNode := first;
    ghost var k := 0;
    while childNode != null
      invariant 0 <= k <= |ts| && childNode == Top(ts, k) && Adopting(ts, k, p, null)
      decreases |ts| - k
    {
      AdoptOne(childNode, p, ts, k);
      childNode := childNode.nextSibling;
      k := k + 1;
    }
    HangsFromPlaced(ts, p, null);
  }

  datatype Outcome = Cloned(node: Node) | NullArgument | Crash // a NULL copy is dereferenced

  predicate Cloneable(kind: NodeType)
  {
    kind == ElementNode || kind == TextNode || kind == CDataNode || kind == DocumentNode || kind == AttributeNode
  }

  /** What ixmlNode_cloneNode keeps of a node that is not a document. */
  function CopiedNode(t: Tree, deep: bool): Tree
  {
    if t.kind == ElementNode then Tree(ElementNode, t.names, t.attrs, if deep then Copied(t.kids, true) else [])
    else if t.kind == AttributeNode then Tree(AttributeNode, t.names, [], [])
    else Tree(t.kind, TextNames(t.names), [], [])
  }

  /** A clone has the name, the value and the type of its source; that of an element or an
      attribute all its names, and that of an element its attributes and, if it is deep,
      what its children mirror. */
  lemma CloneKeeps(t: Tree, deep: bool)
    requires t.kind == ElementNode || t.kind == AttributeNode || Textual(t.kind)
    ensures
      var c := CopiedNode(t, deep);
      && c.kind == t.kind && c.names.nodeName == t.names.nodeName && c.names.nodeValue == t.names.nodeValue
      && (!Textual(t.kind) ==>
            && c.names.namespaceURI == t.names.namespaceURI && c.names.prefix == t.names.prefix && c.names.localName == t.names.localName)
      && (Textual(t.kind) ==> c.names.namespaceURI == c.names.prefix == c.names.localName == None)
      && c.attrs == (if t.kind == ElementNode then t.attrs else [])
      && if t.kind == ElementNode && deep then Mirrors(c.kids, t.kids) else c.kids == []
  {
    CopyMirrors(t.kids);
  }

  /** What hangs on a node that is cloned. */
  ghost predicate Carries(n: Node, attrs: seq<Node>, kids: seq<NTree>)
    reads n, attrs`prevSibling, attrs`nextSibling
    reads Nodes(kids)`parentNode, Nodes(kids)`firstChild, Nodes(kids)`prevSibling, Nodes(kids)`nextSibling, Nodes(kids)`firstAttr
    reads set t | t in kids :: t.node
  {
    && n.firstChild == First(kids) && Hangs(kids, n, null) && Contents(kids)
    && n.firstAttr == At(attrs, 0) && Chained(attrs) && Attributes(attrs)
  }

  /** ixmlNode_cloneNode, except on documents: a fresh tree without parent, siblings or
      owner, and the source unchanged. */
  method CloneNode(nodeptr: Node?, deep: bool, ghost attrs: seq<Node>, ghost kids: seq<NTree>) returns (r: Outcome, ghost copy: seq<NTree>)
    requires nodeptr != null ==> Carries(nodeptr, attrs, kids) && nodeptr.nodeType != DocumentNode
    ensures r == NullArgument <==> nodeptr == null
    ensures r == Crash <==> nodeptr != null && nodeptr.nodeType !in {ElementNode, TextNode, CDataNode, DocumentNode, AttributeNode}
    ensures r.Cloned? ==> fresh(Nodes(copy)) && Apart(copy) && Hangs(copy, null, null) && Unowned(copy)
    ensures r.Cloned? ==> copy != [] && r.node == copy[0].node && r.node.nodeType == nodeptr.nodeType
    ensures r.Cloned? ==> r.node.names.nodeName == nodeptr.names.nodeName && r.node.names.nodeValue == nodeptr.names.nodeValue
    ensures r.Cloned? ==> Value(copy) == [CopiedNode(Tree(nodeptr.nodeType, nodeptr.names, NamesOf(attrs), Value(kids)), deep)]
  {
    hide Value, Copied, Contents, Hangs, Apart, Nodes, Chained, Distinct, NamesOf;
    copy := [];
    if nodeptr == null {
      return NullArgument, copy;
    }
    if !Cloneable(nodeptr.nodeType) {
      return Crash, copy;
    }
    ghost var newKids, newAttrs := [], [];
    NodesExist(kids);
    var newNode;
    if nodeptr.nodeType == ElementNode {
      newNode, newAttrs := NewElement(nodeptr, attrs);
      Nothing(newNode);
      if deep {
        assert Hangs(kids, nodeptr, null);
        var child;
        child, newKids := CloneRecursive(nodeptr.firstChild, deep, kids, nodeptr, null);
        NodesExist(newKids);
        newNode.firstChild := child;
        AdoptAll(child, newNode, newKids);
      }
    } else {
      newNode := new Node(nodeptr.nodeType, if nodeptr.nodeType == AttributeNode then nodeptr.names else TextNames(nodeptr.names));
      Nothing(newNode);
    }
    Assembled(newNode, newAttrs, newKids, []);
    copy := [NTree(newNode, newAttrs, newKids)] + [];
    return Cloned(newNode), copy;
  }

  /** A deep clone holds all of an element, its attributes included, exactly when text comes
      last in every list of its contents. */
  lemma DeepCloneIsWhole(t: Tree)
    requires t.kind == ElementNode
    ensures CopiedNode(t, true) == t <==> TextLast(t.kids)
  {
    CopyIsWhole(t.kids);
  }

  /** <a>text<b/></a> loses <b/>. */
  lemma TextHidesSibling(a: Names, text: Names, b: Names)
    ensures CopiedNode(Tree(ElementNode, a, [], [Tree(TextNode, text, [], []), Tree(ElementNode, b, [], [])]), true).kids
         == [Tree(TextNode, TextNames(text), [], [])]
  {
    var kids := [Tree(TextNode, text, [], []), Tree(ElementNode, b, [], [])];
    assert Copied(kids, true) == [Tree(TextNode, TextNames(text), [], [])];
  }

  lemma {:induction false} ValueLength(ts: seq<NTree>)
    ensures |Value(ts)| == |ts|
  {
    if ts != [] { ValueLength(ts[1..]); }
  }

  /** Cloning a document: its copy's children know their parent exactly when at most one of
      the source's children is copied, as only the first is told. */
  method CloneDocument(nodeptr: Node, deep: bool, ghost kids: seq<NTree>)
    returns (newDoc: Node, ghost copy: seq<NTree>)
    requires nodeptr.firstChild == First(kids) && Hangs(kids, nodeptr, null) && Contents(kids)
    ensures fresh(newDoc) && newDoc.nodeType == DocumentNode && newDoc.parentNode == null
    ensures newDoc.names == Names("#document", None, None, None, None)
    ensures fresh(Nodes(copy)) && Apart(copy) && newDoc.firstChild == First(copy) && newDoc !in Nodes(copy)
    ensures Value(copy) == if deep then Copied(Value(kids), true) else []
    ensures Hangs(copy, newDoc, null) <==> !deep || |Copied(Value(kids), true)| <= 1
  {
    hide Value, Copied, Contents, Apart;
    NodesExist(kids);
    newDoc := new Node(DocumentNode, Names("#document", None, None, None, None));
    copy := [];
    Nothing(newDoc);
    if deep {
      assert Hangs(kids, nodeptr, null);
      var child;
      child, copy := CloneRecursive(nodeptr.firstChild, deep, kids, nodeptr, null);
      newDoc.firstChild := child;
      ValueLength(copy);
      if child != null {
        OneTold(child, newDoc, copy);
      }
    }
  }

  /** firstChild->parentNode = p and nothing more. */
  method OneTold(first: Node, p: Node, ghost ts: seq<NTree>)
    requires ts != [] && first == First(ts) && Hangs(ts, null, null) && Apart(ts)
    modifies Nodes(ts)`parentNode
    ensures Hangs(ts, p, null) <==> |ts| == 1
  {
    assert Hangs(ts[0].kids, first, null) && Hangs(ts[1..], null, first);
    first.parentNode := p;
    if |ts| > 1 {
      assert ts[1..][0].node.parentNode == null;
    }
  }

  // ----------------------------------------------------------------- importNode

  /** The nodes over first children and right siblings, without the attributes. */
  ghost function TreeNodes(ts: seq<NTree>): set<Node>
  {
    if ts == [] then {} else {ts[0].node} + TreeNodes(ts[0].kids) + TreeNodes(ts[1..])
  }

  ghost function AttributesOf(ts: seq<NTree>): set<Node>
  {
    if ts == [] then {} else Members(ts[0].attrs) + AttributesOf(ts[0].kids) + AttributesOf(ts[1..])
  }

  lemma {:induction false} AllNodes(ts: seq<NTree>)
    ensures Nodes(ts) == TreeNodes(ts) + AttributesOf(ts)
    ensures Apart(ts) ==> TreeNodes(ts) !! AttributesOf(ts)
  {
    if ts != [] {
      AllNodes(ts[0].kids);
      AllNodes(ts[1..]);
    }
  }

  lemma NoTreeNodes()
    ensures TreeNodes([]) == {}
  {
  }

  lemma TreeNodesOf(ts: seq<NTree>)
    requires ts != []
    ensures TreeNodes(ts) == {ts[0].node} + TreeNodes(ts[0].kids) + TreeNodes(ts[1..])
  {
  }

  lemma {:induction false} TreeNodesExist(ts: seq<NTree>)
    ensures forall n :: n in TreeNodes(ts) ==> allocated(n)
  {
    if ts != [] {
      TreeNodesExist(ts[0].kids);
      TreeNodesExist(ts[1..]);
    }
  }

  /** ixmlDocument_setOwnerDocument, which never looks at attributes. */
  method SetOwnerDocument(doc: Node, nodeptr: Node?, ghost ts: seq<NTree>, ghost parent: Node?, ghost prev: Node?)
    requires nodeptr == First(ts) && Hangs(ts, parent, prev)
    modifies TreeNodes(ts)`ownerDocument
    ensures forall n :: n in TreeNodes(ts) ==> n.ownerDocument == doc
    ensures Hangs(ts, parent, prev)
    decreases Size(ts)
  {
    hide Nodes, Chained, Members, Own, At, TreeNodes;
    NoTreeNodes();
    if nodeptr != null {
      ghost var kids, rest := ts[0].kids, ts[1..];
      NodesExist(kids);
      NodesExist(rest);
      TreeNodesOf(ts);
      assert Hangs(kids, nodeptr, null) && Hangs(rest, parent, nodeptr);
      nodeptr.ownerDocument := doc;
      SetOwnerDocument(doc, nodeptr.firstChild, kids, nodeptr, null);
      assert Hangs(rest, parent, nodeptr) && nodeptr.ownerDocument == doc;
      TreeNodesExist(kids);
      label Between:
      SetOwnerDocument(doc, nodeptr.nextSibling, rest, parent, nodeptr);
      assert Hangs(kids, nodeptr, null) && nodeptr.ownerDocument == doc;
      assert forall n :: n in TreeNodes(kids) ==> n in TreeNodes(rest) || n.ownerDocument == old@Between(n.ownerDocument);
    }
  }

  /** Some element in it has an attribute. */
  predicate Attributed(ts: seq<Tree>)
  {
    ts != [] && (ts[0].attrs != [] || Attributed(ts[0].kids) || Attributed(ts[1..]))
  }

  lemma {:induction false} AttributedValue(ts: seq<NTree>)
    ensures Attributed(Value(ts)) <==> AttributesOf(ts) != {}
  {
    if ts != [] {
      AttributedValue(ts[0].kids);
      AttributedValue(ts[1..]);
      var t := Tree(ts[0].node.nodeType, ts[0].node.names, NamesOf(ts[0].attrs), Value(ts[0].kids));
      assert Value(ts)[0] == t && Value(ts)[1..] == Value(ts[1..]);
      assert t.attrs == [] <==> ts[0].attrs == [];
      if ts[0].attrs != [] { assert ts[0].attrs[0] in Members(ts[0].attrs); }
    }
  }

  datatype Imported = NewNode(node: Node) | BadParameter | NotSupported | ImportCrash

  /** ixmlDocument_importNode: a clone owned by the new document, except its attributes:
      everything in it is owned exactly when no element in it has one. */
  method ImportNode(doc: Node?, importNode: Node?, deep: bool, ghost attrs: seq<Node>, ghost kids: seq<NTree>)
    returns (r: Imported, ghost copy: seq<NTree>)
    requires importNode != null ==> Carries(importNode, attrs, kids)
    ensures r == BadParameter <==> doc == null || importNode == null
    ensures r == NotSupported <==> doc != null && importNode != null && importNode.nodeType == DocumentNode
    ensures r == ImportCrash <==>
      doc != null && importNode != null && importNode.nodeType !in {ElementNode, TextNode, CDataNode, DocumentNode, AttributeNode}
    ensures r.NewNode? ==> fresh(Nodes(copy)) && Apart(copy) && Hangs(copy, null, null) && copy != [] && r.node == copy[0].node
    ensures r.NewNode? ==> Value(copy) == [CopiedNode(Tree(importNode.nodeType, importNode.names, NamesOf(attrs), Value(kids)), deep)]
    ensures r.NewNode? ==> forall n :: n in TreeNodes(copy) ==> n.ownerDocument == doc
    ensures r.NewNode? ==> ((forall n :: n in Nodes(copy) ==> n.ownerDocument == doc) <==> !Attributed(Value(copy)))
  {
    hide Value, Copied, Contents, Hangs, Apart, Nodes, CopiedNode, TreeNodes, AttributesOf, Attributed;
    copy := [];
    if doc == null || importNode == null {
      return BadParameter, copy;
    }
    if importNode.nodeType == DocumentNode {
      return NotSupported, copy;
    }
    var cloned;
    cloned, copy := CloneNode(importNode, deep, attrs, kids);
    if cloned.Crash? {
      return ImportCrash, copy;
    }
    AllNodes(copy);
    AttributedValue(copy);
    NodesExist(copy);
    SetOwnerDocument(doc, cloned.node, copy, null, null);
    OwnedExactly(doc, TreeNodes(copy), AttributesOf(copy));
    return NewNode(cloned.node), copy;
  }

  lemma OwnedExactly(doc: Node, tree: set<Node>, attrs: set<Node>)
    requires (forall n :: n in tree ==> n.ownerDocument == doc) && forall n :: n in attrs ==> n.ownerDocument == null
    ensures (forall n :: n in tree + attrs ==> n.ownerDocument == doc) <==> attrs == {}
  {
    if attrs != {} {
      var a :| a in attrs;
      assert a in tree + attrs;
    }
  }

  /** <a b="c"/> is imported without an owner for its attribute. */
  lemma AttributeKeepsNoOwner(a: Names, b: Names, deep: bool)
    ensures Attributed([CopiedNode(Tree(ElementNode, a, [b], []), deep)])
  {
  }

  // ------------------------------------------------------------------ tag lists

  /** By name, or by namespace and local name; "*" matches any. */
  datatype Query = ByName(tag: string) | ByNamespace(uri: string, local: string)

  predicate Matches(q: Query, kind: NodeType, n: Names)
  {
    kind == ElementNode &&
    match q
    case ByName(tag) => tag == n.nodeName || tag == "*"
    case ByNamespace(uri, local) =>
      && n.localName.Some? && n.namespaceURI.Some?
      && (uri == n.namespaceURI.value || uri == "*") && (n.localName.value == local || local == "*")
  }

  /** Document order: a node, its descendants, then what is to its right. */
  function Preorder(ts: seq<NTree>): seq<Node>
  {
    if ts == [] then [] else [ts[0].node] + Preorder(ts[0].kids) + Preorder(ts[1..])
  }

  function Selected(q: Query, ns: seq<Node>): seq<Node>
  {
    if ns == [] then []
    else (if Matches(q, ns[0].nodeType, ns[0].names) then [ns[0]] else []) + Selected(q, ns[1..])
  }

  /** What a query finds in a list of nodes. */
  lemma {:induction false} Found(q: Query, ns: seq<Node>, x: Node)
    ensures
      x in Selected(q, ns) <==>
        && x in ns && x.nodeType == ElementNode
        && (q.ByName? ==> q.tag == "*" || q.tag == x.names.nodeName)
        && (q.ByNamespace? ==>
              && x.names.namespaceURI.Some? && (q.uri == "*" || q.uri == x.names.namespaceURI.value)
              && x.names.localName.Some? && (q.local == "*" || q.local == x.names.localName.value))
  {
    if ns != [] { Found(q, ns[1..], x); }
  }

  lemma {:induction false} SelectedAppend(q: Query, a: seq<Node>, b: seq<Node>)
    ensures Selected(q, a + b) == Selected(q, a) + Selected(q, b)
  {
    hide Matches;
    if a == [] {
      assert a + b == b;
    } else {
      assert (a + b)[1..] == a[1..] + b;
      SelectedAppend(q, a[1..], b);
      AppendThree(if Matches(q, a[0].nodeType, a[0].names) then [a[0]] else [], Selected(q, a[1..]), Selected(q, b));
    }
  }

  lemma AppendThree(x: seq<Node>, y: seq<Node>, z: seq<Node>)
    ensures x + (y + z) == (x + y) + z
  {
  }

  /** What is selected from a list of trees: its first node, if it matches, what is
      below it, and the rest. */
  lemma SelectedTrees(q: Query, n: Node, attrs: seq<Node>, kids: seq<NTree>, rest: seq<NTree>)
    ensures Selected(q, Preorder([NTree(n, attrs, kids)] + rest))
         == (if Matches(q, n.nodeType, n.names) then [n] else []) + Selected(q, Preorder(kids)) + Selected(q, Preorder(rest))
  {
    hide Matches;
    assert ([NTree(n, attrs, kids)] + rest)[1..] == rest;
    SelectedAppend(q, [n] + Preorder(kids), Preorder(rest));
    SelectedAppend(q, [n], Preorder(kids));
    assert [n][1..] == [];
  }

  /** ixmlNode_getElementsByTagNameRecursive and its namespace twin. */
  method ElementsRecursive(n: Node?, q: Query, list: seq<Node>, ghost ts: seq<NTree>, ghost parent: Node?, ghost prev: Node?)
    returns (list': seq<Node>)
    requires n == First(ts) && Hangs(ts, parent, prev)
    ensures list' == list + Selected(q, Preorder(ts))
    decreases Size(ts)
  {
    hide Matches, Selected, Nodes, Chained, Own, Members;
    NothingSelected(q);
    list' := list;
    if n != null {
      ghost var attrs, kids, rest := ts[0].attrs, ts[0].kids, ts[1..];
      assert Hangs(kids, n, null) && Hangs(rest, parent, n);
      NodesExist(rest);
      assert ts == [NTree(n, attrs, kids)] + rest;
      SelectedTrees(q, n, attrs, kids, rest);
      if Matches(q, n.nodeType, n.names) {
        list' := list' + [n];
      }
      list' := ElementsRecursive(n.firstChild, q, list', kids, n, null);
      list' := ElementsRecursive(n.nextSibling, q, list', rest, parent, n);
    }
  }

  /** ixmlNode_getElementsByTagName(NS): the node itself and its descendants, in document
      order, its right siblings left out. */
  method GetElements(n: Node, q: Query, list: seq<Node>, ghost attrs: seq<Node>, ghost kids: seq<NTree>) returns (list': seq<Node>)
    requires n.firstChild == First(kids) && Hangs(kids, n, null)
    ensures list' == list + Selected(q, Preorder([NTree(n, attrs, kids)]))
  {
    hide Matches;
    list' := list;
    if Matches(q, n.nodeType, n.names) {
      list' := list' + [n];
    }
    list' := ElementsRecursive(n.firstChild, q, list', kids, n, null);
    assert [NTree(n, attrs, kids)] + [] == [NTree(n, attrs, kids)];
    SelectedTrees(q, n, attrs, kids, []);
  }

  /** The names a query selects from a tree. */
  function Tags(q: Query, ts: seq<Tree>): seq<Names>
  {
    if ts == [] then []
    else (if Matches(q, ts[0].kind, ts[0].names) then [ts[0].names] else []) + Tags(q, ts[0].kids) + Tags(q, ts[1..])
  }

  /** What a query finds depends on the tree's contents only, so a source and a clone that
      is whole give the same names in the same order. */
  lemma {:induction false} TagsOfContents(q: Query, ts: seq<NTree>)
    ensures NamesOf(Selected(q, Preorder(ts))) == Tags(q, Value(ts))
  {
    hide Matches, Selected;
    if ts == [] {
      assert Selected(q, []) == [] by { NothingSelected(q); }
    } else {
      var n, attrs, kids, rest := ts[0].node, ts[0].attrs, ts[0].kids, ts[1..];
      TagsOfContents(q, kids);
      TagsOfContents(q, rest);
      assert ts == [NTree(n, attrs, kids)] + rest;
      SelectedTrees(q, n, attrs, kids, rest);
      var v := [Tree(n.nodeType, n.names, NamesOf(attrs), Value(kids))] + Value(rest);
      assert v[1..] == Value(rest);
    }
  }

  lemma NothingSelected(q: Query)
    ensures Selected(q, []) == []
  {
  }

  // ------------------------------------------------- forests are spelled by trees

  /** The attribute lists of the nodes. */
  ghost predicate Attributing(nodes: set<Node>, attrs: Kids)
    reads nodes`firstAttr, AllOf(attrs)
  {
    && (forall n :: n in nodes ==> n in attrs && n.firstAttr == At(attrs[n], 0))
    && (forall n :: n in attrs ==> (forall a :: a in attrs[n] ==> a in AllOf(attrs)) && Chained(attrs[n]))
  }

  ghost function AllOf(attrs: Kids): set<Node>
  {
    set n, a | n in attrs && a in attrs[n] :: a
  }

  ghost function Spelled(kids: Kids, attrs: Kids, h: Heights, l: seq<Node>, b: nat): seq<NTree>
    requires Ranked(kids, h) && forall c :: c in l ==> c in kids && h[c] < b
    decreases b, |l|
  {
    if l == [] then []
    else [NTree(l[0], if l[0] in attrs then attrs[l[0]] else [], Spelled(kids, attrs, h, kids[l[0]], h[l[0]]))]
         + Spelled(kids, attrs, h, l[1..], b)
  }

  /** In a forest every node's children hang as the requirements above ask. */
  lemma ForestHangs(nodes: set<Node>, kids: Kids, attrs: Kids, h: Heights, p: Node)
    requires Shape(Snapshot(nodes), kids, h) && p in nodes && Attributing(nodes, attrs)
    ensures p in kids && forall c :: c in kids[p] ==> c in kids && h[c] < h[p]
    ensures p.firstChild == First(Spelled(kids, attrs, h, kids[p], h[p])) && Hangs(Spelled(kids, attrs, h, kids[p], h[p]), p, null)
  {
    assert ListLinked(Snapshot(nodes), p, kids[p]);
    SuffixHangs(nodes, kids, attrs, h, p, 0);
  }

  lemma {:induction false} SuffixHangs(nodes: set<Node>, kids: Kids, attrs: Kids, h: Heights, p: Node, i: nat)
    requires Shape(Snapshot(nodes), kids, h) && p in nodes && p in kids && i <= |kids[p]| && Attributing(nodes, attrs)
    ensures forall c :: c in kids[p][i..] ==> c in kids && h[c] < h[p]
    ensures Hangs(Spelled(kids, attrs, h, kids[p][i..], h[p]), p, At(kids[p], i - 1))
    decreases h[p], |kids[p]| - i
  {
    if i < |kids[p]| {
      var l := kids[p];
      var c := l[i];
      assert ListLinked(Snapshot(nodes), p, l) && c in l;
      assert ListLinked(Snapshot(nodes), c, kids[c]);
      assert l[i..][1..] == l[i + 1..] && kids[c][0..] == kids[c];
      SuffixHangs(nodes, kids, attrs, h, c, 0);
      SuffixHangs(nodes, kids, attrs, h, p, i + 1);
      var ts := Spelled(kids, attrs, h, l[i..], h[p]);
      assert ts[1..] == Spelled(kids, attrs, h, l[i + 1..], h[p]);
    }
  }
}
