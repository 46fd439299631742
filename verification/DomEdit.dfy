/** The edits of ixml's node.c on nodes, and exactly when they keep the forest. */
module DomEdit {
  import opened DomForest

  datatype Code =
    | Success | InvalidParameter | HierarchyRequest | WrongDocument | NotFound
    | Aborted // an assertion of node.c failed

  // ---------------------------------------------------------- the ancestor test

  /** What ixmlNode_isAncestor visits after descending: `rest` and all right siblings. */
  ghost predicate Chain(s: State, h: Heights, rest: seq<Node>, b: nat)
  {
    forall i :: 0 <= i < |rest| ==>
      rest[i] in s && rest[i] in h && s[rest[i]].next == At(rest, i + 1) && h[rest[i]] < b
  }

  /** The parent of `x` lies in the tree of one of `rest`. */
  ghost predicate ParentWithin(s: State, kids: Kids, h: Heights, x: Node, rest: seq<Node>)
    requires Shape(s, kids, h) && x in s && forall i :: 0 <= i < |rest| ==> rest[i] in kids
  {
    s[x].parent != null && exists j :: 0 <= j < |rest| && Under(kids, h, s[x].parent, rest[j])
  }

  lemma KeysAgree(s: State, kids: Kids, h: Heights)
    requires Shape(s, kids, h)
    ensures s.Keys == kids.Keys == h.Keys
  {
  }

  lemma ChildChain(s: State, kids: Kids, h: Heights, a: Node)
    requires Shape(s, kids, h) && a in s
    ensures Chain(s, h, kids[a], h[a]) && s[a].first == At(kids[a], 0)
  {
    assert ListLinked(s, a, kids[a]);
    assert forall i :: 0 <= i < |kids[a]| ==> kids[a][i] in kids[a];
  }

  lemma TestStep(s: State, kids: Kids, h: Heights, x: Node, rest: seq<Node>)
    requires Shape(s, kids, h) && x in s && rest != []
    requires forall i :: 0 <= i < |rest| ==> rest[i] in kids
    ensures forall i :: 0 <= i < |kids[rest[0]]| ==> kids[rest[0]][i] in kids
    ensures ParentWithin(s, kids, h, x, rest) <==>
      s[x].parent == rest[0] || ParentWithin(s, kids, h, x, kids[rest[0]]) || ParentWithin(s, kids, h, x, rest[1..])
  {
    assert forall i :: 0 <= i < |kids[rest[0]]| ==> kids[rest[0]][i] in kids[rest[0]];
    var p := s[x].parent;
    if p != null {
      if j :| 0 <= j < |rest| && Under(kids, h, p, rest[j]) {
        if j > 0 { assert rest[1..][j - 1] == rest[j]; }
      }
      if j :| 0 <= j < |rest| - 1 && Under(kids, h, p, rest[1..][j]) { assert rest[j + 1] == rest[1..][j]; }
      assert Under(kids, h, p, rest[0]) <==>
        p == rest[0] || exists i :: 0 <= i < |kids[rest[0]]| && Under(kids, h, p, kids[rest[0]][i]);
    }
  }

  /** ixmlNode_isAncestor: found exactly when the parent of `toFind` is `ancestorNode`, a
      node to its right among its siblings, or a descendant of one of these. */
  method IsAncestor(ancestorNode: Node?, toFind: Node?, ghost nodes: set<Node>, ghost kids: Kids, ghost h: Heights,
                    ghost rest: seq<Node>, ghost b: nat)
    returns (found: bool)
    requires Shape(Snapshot(nodes), kids, h) && Chain(Snapshot(nodes), h, rest, b)
    requires ancestorNode == At(rest, 0) && (toFind == null || toFind in nodes)
    ensures toFind == null ==> !found
    ensures toFind != null ==> (found <==> ParentWithin(Snapshot(nodes), kids, h, toFind, rest))
    decreases b, |rest|
  {
    hide Linked, Ranked, Under;
    ghost var s := Snapshot(nodes);
    found := false;
    if ancestorNode != null && toFind != null {
      KeysAgree(s, kids, h);
      TestStep(s, kids, h, toFind, rest);
      if toFind.parentNode == ancestorNode {
        return true;
      } else {
        ChildChain(s, kids, h, ancestorNode);
        found := IsAncestor(ancestorNode.firstChild, toFind, nodes, kids, h, kids[ancestorNode], h[ancestorNode]);
        if !found {
          found := IsAncestor(ancestorNode.nextSibling, toFind, nodes, kids, h, rest[1..], b);
        }
      }
    }
  }

  ghost function IndexIn(l: seq<Node>, c: Node): (i: nat)
    requires c in l
    ensures i < |l| && l[i] == c
  {
    var i :| 0 <= i < |l| && l[i] == c;
    i
  }

  /** `c` and its siblings to the right. */
  ghost function Rights(s: State, kids: Kids, c: Node): seq<Node>
    requires Linked(s, kids) && c in s
  {
    assert Home(s, kids, c);
    if s[c].parent == null then [c] else kids[s[c].parent][IndexIn(kids[s[c].parent], c)..]
  }

  /** A height above everything in `Rights`. */
  ghost function Bound(s: State, kids: Kids, h: Heights, c: Node): nat
    requires Shape(s, kids, h) && c in s
  {
    assert Home(s, kids, c);
    if s[c].parent == null then h[c] + 1 else h[s[c].parent]
  }

  lemma RightsChain(s: State, kids: Kids, h: Heights, c: Node)
    requires Shape(s, kids, h) && c in s
    ensures Chain(s, h, Rights(s, kids, c), Bound(s, kids, h, c)) && At(Rights(s, kids, c), 0) == c
    ensures forall i :: 0 <= i < |Rights(s, kids, c)| ==> Rights(s, kids, c)[i] in kids
  {
    assert Home(s, kids, c);
    if s[c].parent != null {
      hide Linked, Ranked;
      KeysAgree(s, kids, h);
      ChildChain(s, kids, h, s[c].parent);
      SuffixChain(s, h, kids[s[c].parent], h[s[c].parent], IndexIn(kids[s[c].parent], c));
    }
  }

  lemma SuffixChain(s: State, h: Heights, l: seq<Node>, b: nat, i: nat)
    requires Chain(s, h, l, b) && i <= |l|
    ensures Chain(s, h, l[i..], b) && forall j :: 0 <= j < |l| - i ==> l[i..][j] in h
  {
    forall j | 0 <= j < |l[i..]|
      ensures l[i..][j] in s && l[i..][j] in h && s[l[i..][j]].next == At(l[i..], j + 1) && h[l[i..][j]] < b
    {
      assert l[i..][j] == l[i + j];
    }
  }

  /** The request the ancestor test refuses. */
  ghost predicate Refused(s: State, kids: Kids, h: Heights, c: Node, p: Node)
    requires Shape(s, kids, h) && c in s && p in s
  {
    RightsChain(s, kids, h, c);
    ParentWithin(s, kids, h, p, Rights(s, kids, c))
  }

  ghost predicate ProperAncestor(kids: Kids, h: Heights, c: Node, p: Node)
    requires Ranked(kids, h) && c in kids
  {
    p != c && Under(kids, h, p, c)
  }

  /** Every proper ancestor is refused. */
  lemma AncestorsRefused(s: State, kids: Kids, h: Heights, c: Node, p: Node)
    requires Shape(s, kids, h) && c in s && p in s && ProperAncestor(kids, h, c, p)
    ensures Refused(s, kids, h, c, p)
  {
    RightsChain(s, kids, h, c);
    ParentIsUnder(s, kids, h, p, c);
    assert Rights(s, kids, c)[0] == c;
  }

  /** For a node without a parent, or already a child of `p`, nothing else is. */
  lemma OnlyAncestorsRefused(s: State, kids: Kids, h: Heights, c: Node, p: Node)
    requires Shape(s, kids, h) && c in s && p in s && (s[c].parent == null || s[c].parent == p)
    ensures Refused(s, kids, h, c, p) <==> ProperAncestor(kids, h, c, p)
  {
    RightsChain(s, kids, h, c);
    var rest := Rights(s, kids, c);
    if ProperAncestor(kids, h, c, p) {
      AncestorsRefused(s, kids, h, c, p);
    } else if Refused(s, kids, h, c, p) {
      var g := s[p].parent;
      var j :| 0 <= j < |rest| && Under(kids, h, g, rest[j]);
      UnderIsLower(kids, h, g, rest[j]);
      assert Home(s, kids, p);
      if s[c].parent == null {
        ParentIsUnder(s, kids, h, p, c);
      }
      assert false;
    }
  }

  /** The test also refuses a node that is no ancestor: one whose right sibling is. */
  lemma SiblingRefused(s: State, kids: Kids, h: Heights, q: Node, i: nat, j: nat, p: Node)
    requires Shape(s, kids, h) && q in s && i < j < |kids[q]| && p in s
    requires kids[q][i] in s && kids[q][j] in kids && ProperAncestor(kids, h, kids[q][j], p)
    ensures Refused(s, kids, h, kids[q][i], p)
  {
    hide Linked, Ranked, Under;
    KeysAgree(s, kids, h);
    var c := kids[q][i];
    RightsOfChild(s, kids, h, q, i);
    RightsChain(s, kids, h, c);
    ParentIsUnder(s, kids, h, p, kids[q][j]);
    assert Rights(s, kids, c)[j - i] == kids[q][j];
  }

  lemma RightsOfChild(s: State, kids: Kids, h: Heights, q: Node, i: nat)
    requires Shape(s, kids, h) && q in s && i < |kids[q]| && kids[q][i] in s
    ensures Rights(s, kids, kids[q][i]) == kids[q][i..]
  {
    assert ListLinked(s, q, kids[q]);
    assert IndexIn(kids[q], kids[q][i]) == i;
  }

  // ------------------------------------------------------------------- the edits

  /** The links the linking statements of ixmlNode_insertBefore leave. */
  function LinkedBefore(s: State, p: Node, c: Node, r: Node): State
    requires p in s && c in s && r in s && (s[r].prev == null || s[r].prev in s)
  {
    var s1 := SetNext(s, c, r);
    var s2 := if s1[r].prev == null then s1
      else var t := SetNext(s1, s1[r].prev, c); SetPrev(t, c, t[r].prev);
    var s3 := SetPrev(s2, r, c);
    var s4 := if s3[c].prev == null then SetFirst(s3, p, c) else s3;
    SetParent(s4, c, p)
  }

  /** The links the linking statements of ixmlNode_appendChild leave after finding `last`. */
  function LinkedLast(s: State, p: Node, c: Node, last: Node?): State
    requires p in s && c in s && (last == null || last in s)
  {
    var s1 := SetParent(s, c, p);
    if last == null then SetFirst(s1, p, c) else SetPrev(SetNext(s1, last, c), c, last)
  }

  /** ixmlNode_allowChildren */
  predicate AllowChildren(p: NodeType, c: NodeType)
  {
    match p
    case AttributeNode => false
    case TextNode => false
    case CDataNode => false
    case ElementNode => c != AttributeNode && c != DocumentNode
    case DocumentNode => c == ElementNode
    case _ => true
  }

  /** Attributes, text and CDATA have no children; an element has any but attributes and
      documents, a document elements alone, and the other types any. */
  lemma WhoMayHang(p: NodeType, c: NodeType)
    ensures AllowChildren(p, c) <==>
      && p !in {AttributeNode, TextNode, CDataNode}
      && (p == ElementNode ==> c !in {AttributeNode, DocumentNode})
      && (p == DocumentNode ==> c == ElementNode)
  {
  }

  ghost function Owners(nodes: set<Node>): map<Node, Node?>
    reads nodes`ownerDocument
  {
    map n | n in nodes :: n.ownerDocument
  }

  // One assignment each, with what it does to the links of all nodes.

  method PutFirst(n: Node, v: Node?, ghost nodes: set<Node>)
    requires n in nodes
    modifies n`firstChild
    ensures Snapshot(nodes) == SetFirst(old(Snapshot(nodes)), n, v) && n.firstChild == v
  {
    n.firstChild := v;
  }

  method PutPrev(n: Node, v: Node?, ghost nodes: set<Node>)
    requires n in nodes
    modifies n`prevSibling
    ensures Snapshot(nodes) == SetPrev(old(Snapshot(nodes)), n, v) && n.prevSibling == v
  {
    n.prevSibling := v;
  }

  method PutNext(n: Node, v: Node?, ghost nodes: set<Node>)
    requires n in nodes
    modifies n`nextSibling
    ensures Snapshot(nodes) == SetNext(old(Snapshot(nodes)), n, v) && n.nextSibling == v
  {
    n.nextSibling := v;
  }

  method PutParent(n: Node, v: Node?, ghost nodes: set<Node>)
    requires n in nodes
    modifies n`parentNode
    ensures Snapshot(nodes) == SetParent(old(Snapshot(nodes)), n, v) && n.parentNode == v
  {
    n.parentNode := v;
  }

  /** ixmlNode_removeChild past its checks. */
  method Unlink(nodeptr: Node, oldChild: Node, ghost nodes: set<Node>)
    requires nodeptr in nodes && oldChild in nodes
    requires oldChild.prevSibling == null || oldChild.prevSibling in nodes
    requires oldChild.nextSibling == null || oldChild.nextSibling in nodes
    modifies nodes`parentNode, nodes`firstChild, nodes`prevSibling, nodes`nextSibling
    ensures Snapshot(nodes) == Unlinked(old(Snapshot(nodes)), nodeptr, oldChild)
  {
    hide SetFirst, SetPrev, SetNext, SetParent;
    if oldChild.prevSibling != null {
      PutNext(oldChild.prevSibling, oldChild.nextSibling, nodes);
    }
    if nodeptr.firstChild == oldChild {
      PutFirst(nodeptr, oldChild.nextSibling, nodes);
    }
    if oldChild.nextSibling != null {
      PutPrev(oldChild.nextSibling, oldChild.prevSibling, nodes);
    }
    PutNext(oldChild, null, nodes);
    PutPrev(oldChild, null, nodes);
    PutParent(oldChild, null, nodes);
  }

  /** ixmlNode_insertBefore from the linking statements on. */
  method LinkBefore(nodeptr: Node, newChild: Node, refChild: Node, ghost nodes: set<Node>)
    requires nodeptr in nodes && newChild in nodes && refChild in nodes
    requires refChild.prevSibling == null || refChild.prevSibling in nodes
    modifies nodes`parentNode, nodes`firstChild, nodes`prevSibling, nodes`nextSibling
    ensures Snapshot(nodes) == LinkedBefore(old(Snapshot(nodes)), nodeptr, newChild, refChild)
  {
    hide SetFirst, SetPrev, SetNext, SetParent;
    PutNext(newChild, refChild, nodes);
    if refChild.prevSibling != null {
      PutNext(refChild.prevSibling, newChild, nodes);
      PutPrev(newChild, refChild.prevSibling, nodes);
    }
    PutPrev(refChild, newChild, nodes);
    if newChild.prevSibling == null {
      PutFirst(nodeptr, newChild, nodes);
    }
    PutParent(newChild, nodeptr, nodes);
  }

  // ------------------------------------------------- what the edits do to the lists

  /** A request the edits carry out correctly: the child is detached or already a child
      of this parent, and is not the parent itself. */
  ghost predicate Movable(s: State, p: Node, c: Node)
    requires c in s
  {
    c != p && (s[c].parent == null || s[c].parent == p)
  }

  /** The lists without `c`. */
  ghost function Detached(s: State, kids: Kids, c: Node): Kids
    requires Linked(s, kids) && c in s
  {
    assert Home(s, kids, c);
    var q := s[c].parent;
    if q == null then kids else kids[q := Dropped(kids[q], IndexIn(kids[q], c))]
  }

  ghost function AppendKids(s: State, kids: Kids, p: Node, c: Node): Kids
    requires Linked(s, kids) && c in s && p in s
  {
    var rest := Detached(s, kids, c);
    rest[p := rest[p] + [c]]
  }

  ghost function InsertKids(s: State, kids: Kids, p: Node, c: Node, r: Node): Kids
    requires Linked(s, kids) && c in s && p in s && r in Detached(s, kids, c)[p]
  {
    var rest := Detached(s, kids, c);
    rest[p := Inserted(rest[p], IndexIn(rest[p], r), c)]
  }

  /** The state after the removal the edits start with. */
  ghost function AfterRemoval(s: State, kids: Kids, p: Node, c: Node): State
    requires Linked(s, kids) && c in s && p in s
  {
    if s[c].parent == p then
      SiblingsInside(s, kids, c);
      Unlinked(s, p, c)
    else s
  }

  lemma SiblingsInside(s: State, kids: Kids, c: Node)
    requires Linked(s, kids) && c in s
    ensures s[c].prev == null || s[c].prev in s
    ensures s[c].next == null || s[c].next in s
  {
    assert Home(s, kids, c);
    if s[c].parent != null {
      assert ListLinked(s, s[c].parent, kids[s[c].parent]);
    }
  }

  /** Removal takes the child out of its list and touches no other. */
  lemma RemovalKeepsForest(s: State, kids: Kids, h: Heights, p: Node, c: Node)
    requires Shape(s, kids, h) && c in s && p in s && (s[c].parent == null || s[c].parent == p)
    ensures Shape(AfterRemoval(s, kids, p, c), Detached(s, kids, c), h)
    ensures c in AfterRemoval(s, kids, p, c) && AfterRemoval(s, kids, p, c)[c].parent == null
  {
    hide Linked, Ranked, Unlinked;
    if s[c].parent == p {
      HomeOf(s, kids, c);
      SiblingsInside(s, kids, c);
      var i := IndexIn(kids[p], c);
      UnlinkIsCut(s, kids, h, p, i);
      CutKeepsForest(s, Unlinked(s, p, c), kids, h, p, i);
      CutNode(s, Unlinked(s, p, c), p, kids[p], i, c);
    }
  }

  lemma HomeOf(s: State, kids: Kids, c: Node)
    requires Linked(s, kids) && c in s
    ensures s.Keys == kids.Keys
    ensures if s[c].parent == null then s[c].prev == null && s[c].next == null
            else s[c].parent in kids && c in kids[s[c].parent]
  {
    assert Home(s, kids, c);
  }

  /** A parent not above the child before the removal is not above it afterwards. */
  lemma StillNotAbove(s: State, kids: Kids, h: Heights, p: Node, c: Node)
    requires Shape(s, kids, h) && c in s && p in s && Movable(s, p, c) && !ProperAncestor(kids, h, c, p)
    ensures Ranked(Detached(s, kids, c), h) && c in Detached(s, kids, c)
    ensures !Under(Detached(s, kids, c), h, p, c)
  {
    RemovalKeepsForest(s, kids, h, p, c);
    HomeOf(s, kids, c);
    if s[c].parent == p {
      if Under(Detached(s, kids, c), h, p, c) {
        UnderIsLower(Detached(s, kids, c), h, p, c);
        assert false;
      }
    }
  }

  lemma LastIsSplice(s: State, p: Node, l: seq<Node>, c: Node)
    requires ListLinked(s, p, l) && p in s && c in s && c !in l && p != c
    requires s[c].parent == null && s[c].prev == null && s[c].next == null
    ensures At(l, |l| - 1) == null || At(l, |l| - 1) in s
    ensures Spliced(s, LinkedLast(s, p, c, At(l, |l| - 1)), p, l, |l|, c)
  {
    if |l| > 0 { assert l[|l| - 1] in l; }
  }

  lemma LinkedBeforeAt(s: State, p: Node, c: Node, r: Node, n: Node)
    requires p in s && c in s && r in s && n in s && p != c && p != r && c != r && s[c].prev == null
    requires s[r].prev == null || (s[r].prev in s && s[r].prev != c && s[r].prev != r)
    ensures
      var t := LinkedBefore(s, p, c, r);
      && t.Keys == s.Keys
      && t[n] == if n == c then Links(p, s[c].first, s[r].prev, r)
         else Links(s[n].parent, if n == p && s[r].prev == null then c else s[n].first,
                    if n == r then c else s[n].prev, if n == s[r].prev then c else s[n].next)
  {
  }

  lemma BeforeIsSplice(s: State, p: Node, l: seq<Node>, c: Node, i: nat)
    requires ListLinked(s, p, l) && p in s && c in s && c !in l && p != c && p !in l && i < |l|
    requires s[c].parent == null && s[c].prev == null && s[c].next == null
    ensures l[i] in s && (s[l[i]].prev == null || s[l[i]].prev in s)
    ensures Spliced(s, LinkedBefore(s, p, c, l[i]), p, l, i, c)
  {
    hide LinkedBefore;
    assert l[i] in l && (i > 0 ==> l[i - 1] in l && l[i - 1] in s);
    forall n | n in s
      ensures LinkedBefore(s, p, c, l[i]).Keys == s.Keys
      ensures LinkedBefore(s, p, c, l[i])[n] == SplicedLinks(s[n], p, l, i, c, n)
    {
      LinkedBeforeAt(s, p, c, l[i], n);
    }
  }

  // ------------------------------------------------------ requests that break it

  /** While a list still runs to `c`, the parent of `c` is the list's owner. */
  lemma StillChild(s: State, t: State, kids: Kids, kids': Kids, q: Node, c: Node)
    requires Linked(s, kids) && Linked(t, kids') && c in s && s[c].parent == q && q in s
    requires t.Keys == s.Keys && t[q].first == s[q].first
    requires forall n :: n in s && n != c && s[n].parent == q ==> t[n].next == s[n].next
    ensures t[c].parent == q
  {
    HomeOf(s, kids, c);
    assert ListLinked(s, q, kids[q]) && ListLinked(t, q, kids'[q]);
    var i := IndexIn(kids[q], c);
    StillReached(s, t, q, kids[q], kids'[q], i, i);
    assert kids'[q][i] == c;
  }

  /** Taking a child without unlinking it from its parent breaks the forest: the old list
      still runs into a node whose parent has changed. */
  lemma StolenBreaksForest(s: State, t: State, kids: Kids, q: Node, c: Node)
    requires Linked(s, kids) && c in s && s[c].parent == q && q in s
    requires t.Keys == s.Keys && t[q].first == s[q].first && t[c].parent != q
    requires forall n :: n in s && n != c && s[n].parent == q ==> t[n].next == s[n].next
    ensures !Forest(t)
  {
    if Forest(t) {
      var kids', h' :| Shape(t, kids', h');
      StillChild(s, t, kids, kids', q, c);
      assert false;
    }
  }

  lemma {:induction false} StillReached(s: State, t: State, q: Node, l: seq<Node>, l': seq<Node>, i: nat, j: nat)
    requires ListLinked(s, q, l) && ListLinked(t, q, l') && j <= i < |l| && t[q].first == s[q].first
    requires forall k :: 0 <= k < i ==> l[k] in t && t[l[k]].next == s[l[k]].next
    ensures j < |l'| && l'[j] == l[j]
  {
    if j > 0 {
      StillReached(s, t, q, l, l', i, j - 1);
      assert At(l', j) == At(l, j);
    }
  }

  /** A node that is its own parent, or its own right sibling, is in no forest. */
  lemma LoopBreaksForest(t: State, c: Node)
    requires c in t && t[c].parent != null && (t[c].parent == c || t[c].next == c)
    ensures !Forest(t)
  {
    if Forest(t) {
      var kids, h :| Shape(t, kids, h);
      NoLoop(t, kids, h, c, t[c].parent);
      assert false;
    }
  }

  lemma NoLoop(t: State, kids: Kids, h: Heights, c: Node, p: Node)
    requires Shape(t, kids, h) && c in t && t[c].parent == p
    ensures p != c && t[c].next != c && t[c].prev != c
  {
    HomeOf(t, kids, c);
    var l := kids[p];
    assert ListLinked(t, p, l);
    var i := IndexIn(l, c);
    assert h[c] < h[p];
    Neighbours(t, p, l, i);
  }

  lemma Neighbours(t: State, p: Node, l: seq<Node>, i: nat)
    requires ListLinked(t, p, l) && i < |l|
    ensures l[i] in t && t[l[i]].next != l[i] && t[l[i]].prev != l[i]
  {
    assert i + 1 < |l| ==> l[i] != l[i + 1];
    assert i > 0 ==> l[i - 1] != l[i];
  }

  // ------------------------------------------------------------- the whole edits

  /** The list of `p` after the removal the edits start with. */
  ghost function ListAfter(s: State, kids: Kids, p: Node, c: Node): seq<Node>
    requires Linked(s, kids) && c in s && p in s
  {
    HomeOf(s, kids, c);
    if s[c].parent == p then Dropped(kids[p], IndexIn(kids[p], c)) else kids[p]
  }

  lemma ListAfterLinked(s: State, kids: Kids, h: Heights, p: Node, c: Node)
    requires Shape(s, kids, h) && c in s && p in s
    ensures ListLinked(AfterRemoval(s, kids, p, c), p, ListAfter(s, kids, p, c))
    ensures AfterRemoval(s, kids, p, c).Keys == s.Keys
    ensures forall m :: m in ListAfter(s, kids, p, c) ==> m in s && m != p && m != c
  {
    HomeOf(s, kids, c);
    if s[c].parent == p {
      RemovalKeepsForest(s, kids, h, p, c);
      var i := IndexIn(kids[p], c);
      assert ListLinked(s, p, kids[p]);
      DroppedDistinct(kids[p], i);
      assert forall m :: m in Dropped(kids[p], i) ==> m in kids[p];
    } else {
      NotListed(s, kids, h, p, c);
    }
  }

  lemma NotListed(s: State, kids: Kids, h: Heights, p: Node, c: Node)
    requires Shape(s, kids, h) && c in s && p in s && s[c].parent != p
    ensures ListLinked(s, p, kids[p])
    ensures forall m :: m in kids[p] ==> m in s && m != p && m != c
  {
    assert ListLinked(s, p, kids[p]);
  }

  /** Appending keeps the forest exactly when the request is movable. */
  lemma AppendEffect(s: State, kids: Kids, h: Heights, p: Node, c: Node, last: Node?, t: State)
    requires Shape(s, kids, h) && c in s && p in s && !Refused(s, kids, h, c, p)
    requires last == At(ListAfter(s, kids, p, c), |ListAfter(s, kids, p, c)| - 1) && (last == null || last in s)
    requires AfterRemoval(s, kids, p, c).Keys == s.Keys && t == LinkedLast(AfterRemoval(s, kids, p, c), p, c, last)
    ensures Movable(s, p, c) ==> Linked(t, AppendKids(s, kids, p, c))
    ensures Forest(t) <==> Movable(s, p, c)
  {
    hide Linked, Ranked, Unlinked, LinkedLast, Refused, ProperAncestor, Under;
    if Movable(s, p, c) {
      OnlyAncestorsRefused(s, kids, h, c, p);
      var h' := AppendKeeps(s, kids, h, p, c);
      assert Shape(t, AppendKids(s, kids, p, c), h');
    } else {
      NotMovable(s, kids, h, p, c);
      AppendBreaks(s, kids, h, p, c, last);
    }
  }

  lemma NotMovable(s: State, kids: Kids, h: Heights, p: Node, c: Node)
    requires Shape(s, kids, h) && c in s && p in s && !Movable(s, p, c)
    ensures s[c].parent != p && (c == p || s[c].parent != null)
  {
    if s[c].parent == p { NoLoop(s, kids, h, c, p); }
  }

  lemma AppendKeeps(s: State, kids: Kids, h: Heights, p: Node, c: Node) returns (h': Heights)
    requires Shape(s, kids, h) && c in s && p in s && Movable(s, p, c) && !ProperAncestor(kids, h, c, p)
    ensures
      var s1, l := AfterRemoval(s, kids, p, c), ListAfter(s, kids, p, c);
      && s1.Keys == s.Keys && (At(l, |l| - 1) == null || At(l, |l| - 1) in s)
      && Shape(LinkedLast(s1, p, c, At(l, |l| - 1)), AppendKids(s, kids, p, c), h')
  {
    hide Linked, Ranked, Unlinked, LinkedLast, Under, ProperAncestor, ListLinked;
    var s1, kids1, l := AfterRemoval(s, kids, p, c), Detached(s, kids, c), ListAfter(s, kids, p, c);
    HomeOf(s, kids, c);
    RemovalKeepsForest(s, kids, h, p, c);
    StillNotAbove(s, kids, h, p, c);
    ListAfterLinked(s, kids, h, p, c);
    HomeOf(s1, kids1, c);
    LastIsSplice(s1, p, l, c);
    SpliceKeepsForest(s1, LinkedLast(s1, p, c, At(l, |l| - 1)), kids1, h, p, |l|, c);
    assert Inserted(l, |l|, c) == l + [c];
    h' := Raised(kids1, h, p, c);
  }

  lemma AppendBreaks(s: State, kids: Kids, h: Heights, p: Node, c: Node, last: Node?)
    requires Shape(s, kids, h) && c in s && p in s && !Movable(s, p, c)
    requires last == At(kids[p], |kids[p]| - 1) && (last == null || last in s)
    ensures s[c].parent != p && !Forest(LinkedLast(s, p, c, last))
  {
    hide Linked, Ranked, LinkedLast, Forest, ListLinked;
    var t := LinkedLast(s, p, c, last);
    NotMovable(s, kids, h, p, c);
    NotListed(s, kids, h, p, c);
    LinkedLastAt(s, p, c, last, c);
    if c == p {
      LoopBreaksForest(t, c);
    } else {
      HomeOf(s, kids, c);
      var q: Node := s[c].parent;
      LinkedLastAt(s, p, c, last, q);
      LastInList(s, kids, p, last);
      forall n | n in s && n != c && s[n].parent == q ensures t[n].next == s[n].next {
        LinkedLastAt(s, p, c, last, n);
      }
      StolenBreaksForest(s, t, kids, q, c);
    }
  }

  lemma LinkedLastAt(s: State, p: Node, c: Node, last: Node?, n: Node)
    requires p in s && c in s && n in s && (last == null || last in s)
    ensures
      var t := LinkedLast(s, p, c, last);
      && t.Keys == s.Keys
      && t[n].parent == (if n == c then p else s[n].parent)
      && t[n].first == (if n == p && last == null then c else s[n].first)
      && t[n].next == (if last != null && n == last then c else s[n].next)
  {
  }

  lemma LastInList(s: State, kids: Kids, p: Node, last: Node?)
    requires Linked(s, kids) && p in s && p in kids && last == At(kids[p], |kids[p]| - 1)
    ensures last == null || (last in s && s[last].parent == p)
  {
    assert ListLinked(s, p, kids[p]);
  }

  /** Inserting keeps the forest exactly when the request is movable and the reference
      child is another node. */
  lemma InsertEffect(s: State, kids: Kids, h: Heights, p: Node, c: Node, r: Node, t: State)
    requires Shape(s, kids, h) && c in s && p in s && r in s && s[r].parent == p && !Refused(s, kids, h, c, p)
    requires AfterRemoval(s, kids, p, c).Keys == s.Keys
    requires AfterRemoval(s, kids, p, c)[r].prev == null || AfterRemoval(s, kids, p, c)[r].prev in s
    requires t == LinkedBefore(AfterRemoval(s, kids, p, c), p, c, r)
    ensures Movable(s, p, c) && c != r ==> r in Detached(s, kids, c)[p] && Linked(t, InsertKids(s, kids, p, c, r))
    ensures Forest(t) <==> Movable(s, p, c) && c != r
  {
    hide Linked, Ranked, Unlinked, LinkedBefore, Refused, ProperAncestor, Under;
    if Movable(s, p, c) && c != r {
      OnlyAncestorsRefused(s, kids, h, c, p);
      var h' := InsertKeeps(s, kids, h, p, c, r);
      assert Shape(t, InsertKids(s, kids, p, c, r), h');
    } else {
      InsertBreaks(s, kids, h, p, c, r);
    }
  }

  lemma RefStays(s: State, kids: Kids, h: Heights, p: Node, c: Node, r: Node)
    requires Shape(s, kids, h) && c in s && p in s && r in s && s[r].parent == p && r != c
    requires s[c].parent == null || s[c].parent == p
    ensures p in kids && p in Detached(s, kids, c) && ListAfter(s, kids, p, c) == Detached(s, kids, c)[p]
    ensures r in ListAfter(s, kids, p, c)
  {
    HomeOf(s, kids, c);
    HomeOf(s, kids, r);
    if s[c].parent == p { StillThere(kids[p], IndexIn(kids[p], c), r); }
  }

  lemma InsertKeeps(s: State, kids: Kids, h: Heights, p: Node, c: Node, r: Node) returns (h': Heights)
    requires Shape(s, kids, h) && c in s && p in s && r in s && s[r].parent == p && r != c
    requires Movable(s, p, c) && !ProperAncestor(kids, h, c, p)
    ensures
      var s1 := AfterRemoval(s, kids, p, c);
      && s1.Keys == s.Keys && (s1[r].prev == null || s1[r].prev in s) && r in Detached(s, kids, c)[p]
      && Shape(LinkedBefore(s1, p, c, r), InsertKids(s, kids, p, c, r), h')
  {
    hide Linked, Ranked, Unlinked, LinkedBefore, Under, ProperAncestor, ListLinked;
    var s1, kids1, l := AfterRemoval(s, kids, p, c), Detached(s, kids, c), ListAfter(s, kids, p, c);
    RefStays(s, kids, h, p, c, r);
    RemovalKeepsForest(s, kids, h, p, c);
    StillNotAbove(s, kids, h, p, c);
    ListAfterLinked(s, kids, h, p, c);
    HomeOf(s1, kids1, c);
    var i := IndexIn(l, r);
    BeforeIsSplice(s1, p, l, c, i);
    SpliceKeepsForest(s1, LinkedBefore(s1, p, c, r), kids1, h, p, i, c);
    h' := Raised(kids1, h, p, c);
  }

  lemma InsertBreaks(s: State, kids: Kids, h: Heights, p: Node, c: Node, r: Node)
    requires Shape(s, kids, h) && c in s && p in s && r in s && s[r].parent == p && !(Movable(s, p, c) && c != r)
    requires AfterRemoval(s, kids, p, c).Keys == s.Keys
    requires AfterRemoval(s, kids, p, c)[r].prev == null || AfterRemoval(s, kids, p, c)[r].prev in s
    ensures !Forest(LinkedBefore(AfterRemoval(s, kids, p, c), p, c, r))
  {
    hide Linked, Ranked, LinkedBefore, Forest, ListLinked, Unlinked;
    var s1 := AfterRemoval(s, kids, p, c);
    var t := LinkedBefore(s1, p, c, r);
    LinkedBeforeNext(s1, p, c, r, c);
    if c == p {
      LoopBreaksForest(t, c);
    } else if c == r {
      RemovalKeepsForest(s, kids, h, p, c);
      HomeOf(s1, Detached(s, kids, c), c);
      LoopBreaksForest(t, c);
    } else {
      NotMovable(s, kids, h, p, c);
      HomeOf(s, kids, c);
      var q: Node := s[c].parent;
      PrevInList(s, kids, p, r);
      forall n | n in s && n != c && s[n].parent == q ensures t[n].next == s[n].next {
        LinkedBeforeNext(s, p, c, r, n);
      }
      LinkedBeforeNext(s, p, c, r, q);
      StolenBreaksForest(s, t, kids, q, c);
    }
  }

  lemma LinkedBeforeNext(s: State, p: Node, c: Node, r: Node, n: Node)
    requires p in s && c in s && r in s && n in s && (s[r].prev == null || s[r].prev in s)
    ensures
      var t := LinkedBefore(s, p, c, r);
      && t.Keys == s.Keys
      && t[n].parent == (if n == c then p else s[n].parent)
      && (n != p ==> t[n].first == s[n].first)
      && (n != s[r].prev ==> t[n].next == if n == c then r else s[n].next)
  {
  }

  lemma PrevInList(s: State, kids: Kids, p: Node, r: Node)
    requires Linked(s, kids) && r in s && p in s && s[r].parent == p
    ensures s[r].prev == null || (s[r].prev in s && s[s[r].prev].parent == p)
  {
    HomeOf(s, kids, r);
    assert ListLinked(s, p, kids[p]);
  }

  // -------------------------------------------------------------- the operations

  ghost predicate Known(n: Node?, nodes: set<Node>)
  {
    n == null || n in nodes
  }

  /** ixmlNode_removeChild: the child leaves its list, everything else stays. */
  method RemoveChild(nodeptr: Node?, oldChild: Node?, ghost nodes: set<Node>, ghost kids: Kids, ghost h: Heights)
    returns (ret: Code, returnNode: Node?)
    requires Known(nodeptr, nodes) && Known(oldChild, nodes)
    requires oldChild != null ==> Known(oldChild.prevSibling, nodes) && Known(oldChild.nextSibling, nodes)
    modifies nodes`parentNode, nodes`firstChild, nodes`prevSibling, nodes`nextSibling
    ensures ret == if nodeptr == null || oldChild == null then InvalidParameter
              else if old(oldChild.parentNode) != nodeptr then NotFound else Success
    ensures ret != Success ==> Snapshot(nodes) == old(Snapshot(nodes)) && returnNode == null
    ensures ret == Success ==> returnNode == oldChild && Snapshot(nodes) == Unlinked(old(Snapshot(nodes)), nodeptr, oldChild)
    ensures ret == Success && Shape(old(Snapshot(nodes)), kids, h) ==>
              Shape(Snapshot(nodes), Detached(old(Snapshot(nodes)), kids, oldChild), h)
  {
    hide Linked, Ranked, Unlinked;
    if nodeptr == null || oldChild == null {
      return InvalidParameter, null;
    }
    if oldChild.parentNode != nodeptr {
      return NotFound, null;
    }
    ghost var s := Snapshot(nodes);
    Unlink(nodeptr, oldChild, nodes);
    if Shape(s, kids, h) { RemovalKeepsForest(s, kids, h, nodeptr, oldChild); }
    return Success, oldChild;
  }

  /** The children of `p` as the pointers run. */
  ghost predicate Runs(p: Node, l: seq<Node>)
    reads p, l
  {
    p.firstChild == At(l, 0) && forall i :: 0 <= i < |l| ==> l[i].nextSibling == At(l, i + 1)
  }

  /** The walk to the last child. */
  method FindLast(nodeptr: Node, ghost l: seq<Node>) returns (prev: Node)
    requires Runs(nodeptr, l) && l != []
    ensures prev == l[|l| - 1]
  {
    prev := nodeptr.firstChild;
    var next := prev.nextSibling;
    ghost var j := 0;
    while next != null
      invariant 0 <= j < |l| && prev == l[j] && next == At(l, j + 1)
      decreases |l| - j
    {
      prev := next;
      next := prev.nextSibling;
      j := j + 1;
    }
  }

  /** ixmlNode_appendChild from the linking statements on. */
  method LinkLast(nodeptr: Node, newChild: Node, ghost nodes: set<Node>, ghost l: seq<Node>)
    requires nodeptr in nodes && newChild in nodes
    requires ListLinked(Snapshot(nodes), nodeptr, l)
    modifies nodes`parentNode, nodes`firstChild, nodes`prevSibling, nodes`nextSibling, nodes`ownerDocument
    ensures Known(At(l, |l| - 1), nodes)
    ensures Snapshot(nodes) == LinkedLast(old(Snapshot(nodes)), nodeptr, newChild, At(l, |l| - 1))
    ensures Owners(nodes) == old(Owners(nodes))[newChild := old(nodeptr.ownerDocument)]
  {
    hide SetFirst, SetPrev, SetNext, SetParent, ListLinked, Snapshot;
    ListPointers(nodes, nodeptr, l);
    PutParent(newChild, nodeptr, nodes);
    newChild.ownerDocument := nodeptr.ownerDocument;
    if nodeptr.firstChild == null {
      PutFirst(nodeptr, newChild, nodes);
    } else {
      var prev := FindLast(nodeptr, l);
      PutNext(prev, newChild, nodes);
      PutPrev(newChild, prev, nodes);
    }
  }

  lemma ListPointers(nodes: set<Node>, p: Node, l: seq<Node>)
    requires p in nodes && ListLinked(Snapshot(nodes), p, l)
    ensures Runs(p, l) && Known(At(l, |l| - 1), nodes)
  {
  }

  /** ixmlNode_appendChild. */
  method AppendChild(nodeptr: Node?, newChild: Node?, ghost nodes: set<Node>, ghost kids: Kids, ghost h: Heights)
    returns (ret: Code)
    requires Shape(Snapshot(nodes), kids, h) && Known(nodeptr, nodes) && Known(newChild, nodes)
    modifies nodes
    ensures ret ==
      if nodeptr == null || newChild == null then InvalidParameter
      else if old(newChild.ownerDocument) != null && old(nodeptr.ownerDocument) != old(newChild.ownerDocument) then WrongDocument
      else if Refused(old(Snapshot(nodes)), kids, h, newChild, nodeptr)
           || !AllowChildren(nodeptr.nodeType, newChild.nodeType) then HierarchyRequest
      else Success
    ensures ret != Success ==> Snapshot(nodes) == old(Snapshot(nodes)) && Owners(nodes) == old(Owners(nodes))
    ensures ret == Success ==>
      Owners(nodes) == old(Owners(nodes))[newChild := old(nodeptr.ownerDocument)]
    ensures ret == Success && Movable(old(Snapshot(nodes)), nodeptr, newChild) ==>
      Linked(Snapshot(nodes), AppendKids(old(Snapshot(nodes)), kids, nodeptr, newChild))
    ensures ret == Success ==>
      (Forest(Snapshot(nodes)) <==> Movable(old(Snapshot(nodes)), nodeptr, newChild))
  {
    hide Linked, Ranked, Unlinked, LinkedLast, Refused, Chain, Movable, ListLinked, AllowChildren, Forest;
    if nodeptr == null || newChild == null {
      return InvalidParameter;
    }
    ghost var s := Snapshot(nodes);
    if newChild.ownerDocument != null && nodeptr.ownerDocument != newChild.ownerDocument {
      return WrongDocument;
    }
    var ancestor := TestAncestor(newChild, nodeptr, nodes, kids, h);
    if ancestor {
      return HierarchyRequest;
    }
    if !AllowChildren(nodeptr.nodeType, newChild.nodeType) {
      return HierarchyRequest;
    }
    SiblingsInside(s, kids, newChild);
    ListAfterLinked(s, kids, h, nodeptr, newChild);
    if newChild.parentNode == nodeptr {
      var _, _ := RemoveChild(nodeptr, newChild, nodes, kids, h);
    }
    ghost var l := ListAfter(s, kids, nodeptr, newChild);
    LinkLast(nodeptr, newChild, nodes, l);
    AppendEffect(s, kids, h, nodeptr, newChild, At(l, |l| - 1), Snapshot(nodes));
    return Success;
  }

  /** The test as the edits call it. */
  method TestAncestor(c: Node, p: Node, ghost nodes: set<Node>, ghost kids: Kids, ghost h: Heights) returns (found: bool)
    requires Shape(Snapshot(nodes), kids, h) && c in nodes && p in nodes
    ensures found <==> Refused(Snapshot(nodes), kids, h, c, p)
  {
    hide Linked, Ranked, Under, Chain;
    ghost var s := Snapshot(nodes);
    RightsChain(s, kids, h, c);
    found := IsAncestor(c, p, nodes, kids, h, Rights(s, kids, c), Bound(s, kids, h, c));
  }

  /** Why ixmlNode_insertBefore and ixmlNode_replaceChild turn a request down; NotFound
      is left to the caller. */
  ghost function Objection(s: State, owners: map<Node, Node?>, kids: Kids, h: Heights, p: Node, c: Node): Code
    requires Shape(s, kids, h) && c in s && p in s && c in owners && p in owners
  {
    if !AllowChildren(p.nodeType, c.nodeType) || Refused(s, kids, h, c, p) then HierarchyRequest
    else if owners[p] != owners[c] then WrongDocument
    else Success
  }

  /** The hierarchy is looked at first, the documents after it. */
  lemma ObjectionInOrder(s: State, owners: map<Node, Node?>, kids: Kids, h: Heights, p: Node, c: Node)
    requires Shape(s, kids, h) && c in s && p in s && c in owners && p in owners
    ensures
      var o := Objection(s, owners, kids, h, p, c);
      var hangs :=
        && p.nodeType !in {AttributeNode, TextNode, CDataNode}
        && (p.nodeType == ElementNode ==> c.nodeType !in {AttributeNode, DocumentNode})
        && (p.nodeType == DocumentNode ==> c.nodeType == ElementNode)
        && !Refused(s, kids, h, c, p);
      && (o == HierarchyRequest <==> !hangs)
      && (o == WrongDocument <==> hangs && owners[p] != owners[c])
      && (o == Success <==> hangs && owners[p] == owners[c])
  {
    hide Refused, Shape;
    WhoMayHang(p.nodeType, c.nodeType);
  }

  /** ixmlNode_insertBefore. A reference child of NULL fails an assertion once the other
      checks have passed; it never appends. */
  method InsertBefore(nodeptr: Node?, newChild: Node?, refChild: Node?, ghost nodes: set<Node>, ghost kids: Kids, ghost h: Heights)
    returns (ret: Code)
    requires Shape(Snapshot(nodes), kids, h)
    requires Known(nodeptr, nodes) && Known(newChild, nodes) && Known(refChild, nodes)
    modifies nodes`parentNode, nodes`firstChild, nodes`prevSibling, nodes`nextSibling
    ensures nodeptr == null || newChild == null ==> ret == InvalidParameter
    ensures nodeptr != null && newChild != null ==>
      var objection := Objection(old(Snapshot(nodes)), old(Owners(nodes)), kids, h, nodeptr, newChild);
      ret == if objection != Success then objection else if refChild == null then Aborted
             else if old(refChild.parentNode) != nodeptr then NotFound else Success
    ensures ret != Success ==> Snapshot(nodes) == old(Snapshot(nodes))
    ensures ret == Success ==>
      var s := old(Snapshot(nodes));
      var s1 := AfterRemoval(s, kids, nodeptr, newChild);
      && nodeptr in s1 && newChild in s1 && refChild in s1 && Known(s1[refChild].prev, nodes) && s1.Keys == nodes
      && Snapshot(nodes) == LinkedBefore(s1, nodeptr, newChild, refChild)
    ensures ret == Success && Movable(old(Snapshot(nodes)), nodeptr, newChild) && newChild != refChild ==>
      refChild in Detached(old(Snapshot(nodes)), kids, newChild)[nodeptr]
      && Linked(Snapshot(nodes), InsertKids(old(Snapshot(nodes)), kids, nodeptr, newChild, refChild))
    ensures ret == Success ==>
      (Forest(Snapshot(nodes)) <==> Movable(old(Snapshot(nodes)), nodeptr, newChild) && newChild != refChild)
  {
    hide Linked, Ranked, AfterRemoval, Detached, LinkedBefore, Refused, Movable, AllowChildren, Forest, InsertKids;
    if nodeptr == null || newChild == null {
      return InvalidParameter;
    }
    ghost var s := Snapshot(nodes);
    if !AllowChildren(nodeptr.nodeType, newChild.nodeType) {
      return HierarchyRequest;
    }
    var ancestor := TestAncestor(newChild, nodeptr, nodes, kids, h);
    if ancestor {
      return HierarchyRequest;
    }
    if nodeptr.ownerDocument != newChild.ownerDocument {
      return WrongDocument;
    }
    if refChild == null {
      return Aborted; // ixmlNode_isParent asserts toFind != NULL
    }
    if refChild.parentNode != nodeptr {
      return NotFound;
    }
    DetachFirst(nodeptr, newChild, refChild, nodes, kids, h);
    LinkBefore(nodeptr, newChild, refChild, nodes);
    InsertEffect(s, kids, h, nodeptr, newChild, refChild, Snapshot(nodes));
    return Success;
  }

  /** The removal ixmlNode_insertBefore starts with. */
  method DetachFirst(nodeptr: Node, newChild: Node, refChild: Node, ghost nodes: set<Node>, ghost kids: Kids, ghost h: Heights)
    requires Shape(Snapshot(nodes), kids, h) && nodeptr in nodes && newChild in nodes && refChild in nodes
    modifies nodes`parentNode, nodes`firstChild, nodes`prevSibling, nodes`nextSibling
    ensures Snapshot(nodes) == AfterRemoval(old(Snapshot(nodes)), kids, nodeptr, newChild)
    ensures Known(refChild.prevSibling, nodes)
  {
    hide Linked, Ranked, Unlinked, Detached, SetNext, SetPrev;
    ghost var s := Snapshot(nodes);
    SiblingsInside(s, kids, newChild);
    SiblingsInside(s, kids, refChild);
    if newChild.parentNode == nodeptr {
      RemovedPrev(s, kids, h, nodeptr, newChild, refChild);
      var _, _ := RemoveChild(nodeptr, newChild, nodes, kids, h);
      assert Snapshot(nodes) == AfterRemoval(s, kids, nodeptr, newChild);
      UnlinkedEnds(s, nodeptr, newChild);
      PutNext(newChild, null, nodes);
      PutPrev(newChild, null, nodes);
    }
  }

  /** After the removal the reference child's left sibling is still a node. */
  lemma RemovedPrev(s: State, kids: Kids, h: Heights, p: Node, c: Node, r: Node)
    requires Shape(s, kids, h) && c in s && p in s && r in s && s[c].parent == p
    ensures
      var s1 := AfterRemoval(s, kids, p, c);
      r in s1 && (s1[r].prev == null || s1[r].prev in s)
  {
    RemovalKeepsForest(s, kids, h, p, c);
    SiblingsInside(AfterRemoval(s, kids, p, c), Detached(s, kids, c), r);
  }

  lemma UnlinkedEnds(s: State, p: Node, c: Node)
    requires p in s && c in s && (s[c].prev == null || s[c].prev in s) && (s[c].next == null || s[c].next in s)
    ensures c in Unlinked(s, p, c)
    ensures SetPrev(SetNext(Unlinked(s, p, c), c, null), c, null) == Unlinked(s, p, c)
  {
  }

  // ---------------------------------------------------------------- replaceChild

  /** Replacing a child by itself: inserted before itself and removed, it is gone. */
  lemma ReplacedByItself(s: State, p: Node, c: Node)
    requires p in s && c in s && p != c && s[c].prev == null && s[c].next == null && s[c].parent == null && s[p].first != c
    ensures
      var t := LinkedBefore(s, p, c, c);
      && c in t && t[c].parent == p && t[c].prev == c && t[c].next == c && t.Keys == s.Keys
      && Unlinked(t, p, c) == s
  {
  }

  lemma DetachedEnds(s: State, kids: Kids, h: Heights, p: Node, c: Node)
    requires Shape(s, kids, h) && c in s && p in s && s[c].parent == p
    ensures
      var s1 := AfterRemoval(s, kids, p, c);
      && c in s1 && p in s1 && s1[c].prev == null && s1[c].next == null && s1[c].parent == null && s1[p].first != c && p != c
  {
    hide Unlinked;
    NoLoop(s, kids, h, c, p);
    RemovalKeepsForest(s, kids, h, p, c);
    var s1 := AfterRemoval(s, kids, p, c);
    HomeOf(s1, Detached(s, kids, c), c);
    assert ListLinked(s1, p, Detached(s, kids, c)[p]);
  }

  /** The lists after replacing `r` by `c`: `c` leaves its place and takes that of `r`. */
  ghost function ReplaceKids(s: State, kids: Kids, p: Node, c: Node, r: Node): Kids
    requires Linked(s, kids) && c in s && p in s && (c != r ==> r in Detached(s, kids, c)[p])
  {
    var rest := Detached(s, kids, c);
    if c == r then rest else rest[p := rest[p][IndexIn(rest[p], r) := c]]
  }

  lemma InsertThenRemove(s: State, kids: Kids, t: State, p: Node, c: Node, r: Node)
    requires Linked(s, kids) && c in s && p in s && c != r && r in Detached(s, kids, c)[p]
    requires Linked(t, InsertKids(s, kids, p, c, r)) && r in t && p in t && t[r].parent == p
    ensures Detached(t, InsertKids(s, kids, p, c, r), r) == ReplaceKids(s, kids, p, c, r)
  {
    hide Linked, Inserted, Dropped;
    HomeOf(s, kids, c);
    var kids', l := InsertKids(s, kids, p, c, r), Detached(s, kids, c)[p];
    var i := IndexIn(l, r);
    LinkedDistinct(t, kids', p);
    InsertDrop(l, i, c, r);
    DetachedFrom(t, kids', p, r);
  }

  lemma LinkedDistinct(t: State, kids: Kids, p: Node)
    requires Linked(t, kids) && p in t
    ensures p in kids && Distinct(kids[p])
  {
    assert ListLinked(t, p, kids[p]);
  }

  lemma DetachedFrom(t: State, kids: Kids, p: Node, r: Node)
    requires Linked(t, kids) && r in t && t[r].parent == p
    ensures p in kids && r in kids[p] && Detached(t, kids, r) == kids[p := Dropped(kids[p], IndexIn(kids[p], r))]
  {
    HomeOf(t, kids, r);
  }

  lemma InsertDrop(l: seq<Node>, i: nat, c: Node, r: Node)
    requires i < |l| && l[i] == r && Distinct(Inserted(l, i, c))
    ensures r in Inserted(l, i, c)
    ensures Dropped(Inserted(l, i, c), IndexIn(Inserted(l, i, c), r)) == l[i := c]
  {
    assert Inserted(l, i, c)[i + 1] == r;
    assert IndexIn(Inserted(l, i, c), r) == i + 1;
    assert Dropped(Inserted(l, i, c), i + 1) == l[i := c];
  }

  /** A stolen child stays stolen when another node is unlinked. */
  lemma StillBroken(s: State, kids: Kids, h: Heights, p: Node, c: Node, r: Node)
    requires Shape(s, kids, h) && c in s && p in s && r in s && s[r].parent == p && !Movable(s, p, c)
    ensures c != r && (s[r].prev == null || s[r].prev in s)
    ensures
      var t := LinkedBefore(s, p, c, r);
      && r in t && p in t && (t[r].prev == null || t[r].prev in t) && (t[r].next == null || t[r].next in t)
      && !Forest(Unlinked(t, p, r))
  {
    hide Linked, Ranked, LinkedBefore, Unlinked, Forest, ListLinked;
    NotMovable(s, kids, h, p, c);
    SiblingsInside(s, kids, r);
    NoLoop(s, kids, h, r, p);
    PrevInList(s, kids, p, r);
    var t := LinkedBefore(s, p, c, r);
    LinkedBeforeRef(s, p, c, r);
    LinkedBeforeNext(s, p, c, r, c);
    UnlinkedOthers(t, p, r, c);
    var u := Unlinked(t, p, r);
    if c == p {
      LoopBreaksForest(u, c);
    } else {
      HomeOf(s, kids, c);
      var q: Node := s[c].parent;
      LinkedBeforeNext(s, p, c, r, q);
      UnlinkedOthers(t, p, r, q);
      forall n | n in s && n != c && s[n].parent == q ensures u[n].next == s[n].next {
        LinkedBeforeNext(s, p, c, r, n);
        UnlinkedOthers(t, p, r, n);
      }
      StolenBreaksForest(s, u, kids, q, c);
    }
  }

  lemma LinkedBeforeRef(s: State, p: Node, c: Node, r: Node)
    requires p in s && c in s && r in s && c != r && (s[r].prev == null || s[r].prev in s)
    requires s[r].prev != r
    ensures
      var t := LinkedBefore(s, p, c, r);
      r in t && t[r].prev == c && t[r].next == s[r].next
  {
  }

  lemma UnlinkedOthers(t: State, p: Node, r: Node, n: Node)
    requires p in t && r in t && n in t
    requires (t[r].prev == null || t[r].prev in t) && (t[r].next == null || t[r].next in t)
    ensures
      var u := Unlinked(t, p, r);
      && u.Keys == t.Keys
      && (n != r ==> u[n].parent == t[n].parent)
      && (n != p ==> u[n].first == t[n].first)
      && (n != r && n != t[r].prev ==> u[n].next == t[n].next)
  {
  }

  /** ixmlNode_replaceChild: the forest is kept exactly for movable children. */
  method ReplaceChild(nodeptr: Node?, newChild: Node?, oldChild: Node?, ghost nodes: set<Node>, ghost kids: Kids, ghost h: Heights)
    returns (ret: Code, returnNode: Node?)
    requires Shape(Snapshot(nodes), kids, h)
    requires Known(nodeptr, nodes) && Known(newChild, nodes) && Known(oldChild, nodes)
    modifies nodes`parentNode, nodes`firstChild, nodes`prevSibling, nodes`nextSibling
    ensures nodeptr == null || newChild == null || oldChild == null ==> ret == InvalidParameter
    ensures nodeptr != null && newChild != null && oldChild != null ==>
      var objection := Objection(old(Snapshot(nodes)), old(Owners(nodes)), kids, h, nodeptr, newChild);
      ret == if objection != Success then objection
             else if old(oldChild.parentNode) != nodeptr then NotFound else Success
    ensures ret != Success ==> Snapshot(nodes) == old(Snapshot(nodes)) && returnNode == null
    ensures ret == Success ==> returnNode == oldChild
    ensures ret == Success && Movable(old(Snapshot(nodes)), nodeptr, newChild) ==>
      var s := old(Snapshot(nodes));
      && (newChild != oldChild ==> oldChild in Detached(s, kids, newChild)[nodeptr])
      && Linked(Snapshot(nodes), ReplaceKids(s, kids, nodeptr, newChild, oldChild))
    ensures ret == Success ==>
      (Forest(Snapshot(nodes)) <==> Movable(old(Snapshot(nodes)), nodeptr, newChild))
  {
    hide Linked, Ranked, AfterRemoval, Detached, LinkedBefore, Refused, Movable, AllowChildren, Forest, InsertKids, Unlinked;
    if nodeptr == null || newChild == null || oldChild == null {
      return InvalidParameter, null;
    }
    ghost var s := Snapshot(nodes);
    var ancestor := TestAncestor(newChild, nodeptr, nodes, kids, h);
    if ancestor {
      return HierarchyRequest, null;
    }
    if !AllowChildren(nodeptr.nodeType, newChild.nodeType) {
      return HierarchyRequest, null;
    }
    if nodeptr.ownerDocument != newChild.ownerDocument {
      return WrongDocument, null;
    }
    if oldChild.parentNode != nodeptr {
      return NotFound, null;
    }
    ret := InsertBefore(nodeptr, newChild, oldChild, nodes, kids, h);
    if ret != Success {
      return ret, null;
    }
    ghost var between := Snapshot(nodes);
    ReadyToRemove(s, kids, h, nodeptr, newChild, oldChild, between);
    ret, returnNode := RemoveChild(nodeptr, oldChild, nodes, kids, h);
    ReplaceEffect(s, kids, h, nodeptr, newChild, oldChild, between, Snapshot(nodes));
  }

  /** The old child can be unlinked whatever the insertion did. */
  lemma ReadyToRemove(s: State, kids: Kids, h: Heights, p: Node, c: Node, r: Node, t: State)
    requires Shape(s, kids, h) && c in s && p in s && r in s && s[r].parent == p
    requires AfterRemoval(s, kids, p, c).Keys == s.Keys
    requires AfterRemoval(s, kids, p, c)[r].prev == null || AfterRemoval(s, kids, p, c)[r].prev in s
    requires t == LinkedBefore(AfterRemoval(s, kids, p, c), p, c, r)
    ensures r in t && p in t && t[r].parent == p && t.Keys == s.Keys
    ensures (t[r].prev == null || t[r].prev in t) && (t[r].next == null || t[r].next in t)
  {
    hide Linked, Ranked, AfterRemoval, LinkedBefore, Unlinked, Under;
    if Movable(s, p, c) {
      ReadyWhenMovable(s, kids, h, p, c, r);
    } else {
      NotMovable(s, kids, h, p, c);
      NoRemoval(s, kids, p, c);
      StillBroken(s, kids, h, p, c, r);
      LinkedBeforeNext(s, p, c, r, r);
    }
  }

  lemma NoRemoval(s: State, kids: Kids, p: Node, c: Node)
    requires Linked(s, kids) && c in s && p in s && s[c].parent != p
    ensures AfterRemoval(s, kids, p, c) == s
  {
  }

  lemma ReadyWhenMovable(s: State, kids: Kids, h: Heights, p: Node, c: Node, r: Node)
    requires Shape(s, kids, h) && c in s && p in s && r in s && s[r].parent == p && Movable(s, p, c)
    requires AfterRemoval(s, kids, p, c).Keys == s.Keys
    requires AfterRemoval(s, kids, p, c)[r].prev == null || AfterRemoval(s, kids, p, c)[r].prev in s
    ensures
      var t := LinkedBefore(AfterRemoval(s, kids, p, c), p, c, r);
      && r in t && p in t && t[r].parent == p && t.Keys == s.Keys
      && (t[r].prev == null || t[r].prev in t) && (t[r].next == null || t[r].next in t)
  {
    hide Linked, Ranked, AfterRemoval, LinkedBefore, Unlinked, Under, Detached;
    var s1 := AfterRemoval(s, kids, p, c);
    if c == r {
      DetachedEnds(s, kids, h, p, c);
      ReplacedByItself(s1, p, c);
    } else {
      RemovalKeepsForest(s, kids, h, p, c);
      SiblingsInside(s1, Detached(s, kids, c), r);
      ParentKept(s, kids, h, p, c, r);
      LinkedBeforeRef(s1, p, c, r);
      LinkedBeforeNext(s1, p, c, r, r);
    }
  }

  lemma ParentKept(s: State, kids: Kids, h: Heights, p: Node, c: Node, r: Node)
    requires Shape(s, kids, h) && c in s && p in s && r in s && s[r].parent == p && Movable(s, p, c) && c != r
    ensures
      var s1 := AfterRemoval(s, kids, p, c);
      r in s1 && s1[r].parent == p && s1[r].prev != r
  {
    hide Unlinked, Under;
    RefStays(s, kids, h, p, c, r);
    RemovalKeepsForest(s, kids, h, p, c);
    var s1 := AfterRemoval(s, kids, p, c);
    assert ListLinked(s1, p, Detached(s, kids, c)[p]);
    NoLoop(s1, Detached(s, kids, c), h, r, p);
  }

  lemma ReplaceEffect(s: State, kids: Kids, h: Heights, p: Node, c: Node, r: Node, t: State, u: State)
    requires Shape(s, kids, h) && c in s && p in s && r in s && s[r].parent == p && !Refused(s, kids, h, c, p)
    requires AfterRemoval(s, kids, p, c).Keys == s.Keys
    requires AfterRemoval(s, kids, p, c)[r].prev == null || AfterRemoval(s, kids, p, c)[r].prev in s
    requires t == LinkedBefore(AfterRemoval(s, kids, p, c), p, c, r) && t.Keys == s.Keys && t[r].parent == p
    requires (t[r].prev == null || t[r].prev in t) && (t[r].next == null || t[r].next in t) && u == Unlinked(t, p, r)
    ensures Movable(s, p, c) && c != r ==> r in Detached(s, kids, c)[p]
    ensures Movable(s, p, c) ==> Linked(u, ReplaceKids(s, kids, p, c, r))
    ensures Forest(u) <==> Movable(s, p, c)
  {
    hide Linked, Ranked, AfterRemoval, Detached, LinkedBefore, Refused, InsertKids, Unlinked, Under, ProperAncestor;
    if !Movable(s, p, c) {
      NotMovable(s, kids, h, p, c);
      NoRemoval(s, kids, p, c);
      StillBroken(s, kids, h, p, c, r);
    } else if c == r {
      DetachedEnds(s, kids, h, p, c);
      ReplacedByItself(AfterRemoval(s, kids, p, c), p, c);
      RemovalKeepsForest(s, kids, h, p, c);
      assert Shape(u, Detached(s, kids, c), h);
    } else {
      OnlyAncestorsRefused(s, kids, h, c, p);
      var h' := InsertKeeps(s, kids, h, p, c, r);
      var kids' := InsertKids(s, kids, p, c, r);
      RemovalKeepsForest(t, kids', h', p, r);
      RemovedIs(t, kids', p, r);
      InsertThenRemove(s, kids, t, p, c, r);
      assert Shape(u, Detached(t, kids', r), h');
    }
  }

  lemma RemovedIs(t: State, kids: Kids, p: Node, r: Node)
    requires Linked(t, kids) && r in t && p in t && t[r].parent == p
    requires (t[r].prev == null || t[r].prev in t) && (t[r].next == null || t[r].next in t)
    ensures AfterRemoval(t, kids, p, r) == Unlinked(t, p, r)
  {
  }
}
