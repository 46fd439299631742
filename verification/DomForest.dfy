/** The links of IXML_Node and what it means for them to form a forest. */
module DomForest {
  import opened Options

  datatype NodeType =
    | InvalidNode | ElementNode | AttributeNode | TextNode | CDataNode | EntityReferenceNode | EntityNode
    | ProcessingInstructionNode | CommentNode | DocumentNode | DocumentTypeNode | FragmentNode | NotationNode

  /** The strings of a node; None is NULL. */
  datatype Names = Names(nodeName: string, nodeValue: Option<string>,
                         namespaceURI: Option<string>, prefix: Option<string>, localName: Option<string>)

  /** IXML_Node: the fields the tree operations read and write. */
  class Node {
    const nodeType: NodeType
    const names: Names
    var parentNode: Node?
    var firstChild: Node?
    var prevSibling: Node?
    var nextSibling: Node?
    var firstAttr: Node?
    var ownerDocument: Node?
    var ownerElement: Node?  // of an attribute

    /** What the allocators leave: every link NULL. */
    constructor (nodeType: NodeType, names: Names)
      ensures this.nodeType == nodeType && this.names == names
      ensures parentNode == null && firstChild == null && prevSibling == null && nextSibling == null
      ensures firstAttr == null && ownerDocument == null && ownerElement == null
    {
      this.nodeType := nodeType;
      this.names := names;
      parentNode, firstChild, prevSibling, nextSibling := null, null, null, null;
      firstAttr, ownerDocument, ownerElement := null, null, null;
    }
  }

  /** The four links of a node. */
  datatype Links = Links(parent: Node?, first: Node?, prev: Node?, next: Node?)

  type State = map<Node, Links>

  /** Each node's children in order, and a height that falls from parent to child. */
  type Kids = map<Node, seq<Node>>
  type Heights = map<Node, nat>

  ghost function Snapshot(nodes: set<Node>): State
    reads nodes`parentNode, nodes`firstChild, nodes`prevSibling, nodes`nextSibling
  {
    map n | n in nodes :: Links(n.parentNode, n.firstChild, n.prevSibling, n.nextSibling)
  }

  // ------------------------------------------------------------------- forests

  function At(l: seq<Node>, i: int): Node?
  {
    if 0 <= i < |l| then l[i] else null
  }

  ghost predicate Distinct(l: seq<Node>)
  {
    forall i, j :: 0 <= i < j < |l| ==> l[i] != l[j]
  }

  /** `l` is the list of the children of `p`, linked both ways. */
  ghost predicate ListLinked(s: State, p: Node, l: seq<Node>)
  {
    && p in s && s[p].first == At(l, 0) && Distinct(l)
    && forall i :: 0 <= i < |l| ==>
         l[i] in s && s[l[i]].parent == p && s[l[i]].prev == At(l, i - 1) && s[l[i]].next == At(l, i + 1)
  }

  /** A node is in its parent's list; without a parent it has no siblings. */
  ghost predicate Home(s: State, kids: Kids, n: Node)
    requires n in s
  {
    if s[n].parent == null then s[n].prev == null && s[n].next == null
    else s[n].parent in kids && n in kids[s[n].parent]
  }

  ghost predicate Linked(s: State, kids: Kids)
  {
    && kids.Keys == s.Keys
    && (forall p :: p in kids ==> ListLinked(s, p, kids[p]))
    && (forall n :: n in s ==> Home(s, kids, n))
  }

  /** Children are nodes, and lower than their parent: no cycles. */
  ghost predicate Ranked(kids: Kids, h: Heights)
  {
    && h.Keys == kids.Keys
    && forall p, c :: p in kids && c in kids[p] ==> c in kids && h[c] < h[p]
  }

  ghost predicate Shape(s: State, older kids: Kids, older h: Heights)
  {
    Linked(s, kids) && Ranked(kids, h)
  }

  ghost predicate Forest(s: State)
  {
    exists kids: Kids, h: Heights :: Shape(s, kids, h)
  }

  /** Nothing but the links decides the lists. */
  lemma KidsAreUnique(s: State, kids: Kids, kids': Kids)
    requires Linked(s, kids) && Linked(s, kids')
    ensures kids == kids'
  {
    hide ListLinked;
    forall p | p in s ensures kids[p] == kids'[p] {
      SameList(s, p, kids[p], kids'[p]);
    }
  }

  lemma SameList(s: State, p: Node, l: seq<Node>, l': seq<Node>)
    requires ListLinked(s, p, l) && ListLinked(s, p, l')
    ensures l == l'
  {
    hide ListLinked;
    SamePrefix(s, p, l, l', |l|);
    SamePrefix(s, p, l', l, |l'|);
  }

  lemma {:induction false} SamePrefix(s: State, p: Node, l: seq<Node>, l': seq<Node>, n: nat)
    requires ListLinked(s, p, l) && ListLinked(s, p, l') && n <= |l|
    ensures n <= |l'| && forall i :: 0 <= i < n ==> l'[i] == l[i]
  {
    if n > 0 {
      SamePrefix(s, p, l, l', n - 1);
      assert At(l', n - 1) == At(l, n - 1) by {
        if n > 1 { assert l'[n - 2] == l[n - 2]; }
      }
    }
  }

  // --------------------------------------------------------------- descendants

  /** `x` is `n` or one of its descendants. */
  ghost predicate Under(kids: Kids, h: Heights, x: Node, n: Node)
    requires Ranked(kids, h) && n in kids
    decreases h[n]
  {
    x == n || exists i :: 0 <= i < |kids[n]| && Under(kids, h, x, kids[n][i])
  }

  lemma {:induction false} UnderIsLower(kids: Kids, h: Heights, x: Node, n: Node)
    requires Ranked(kids, h) && n in kids && Under(kids, h, x, n)
    ensures x in kids && h[x] <= h[n] && (x != n ==> h[x] < h[n])
    decreases h[n]
  {
    if x != n {
      var i :| 0 <= i < |kids[n]| && Under(kids, h, x, kids[n][i]);
      UnderIsLower(kids, h, x, kids[n][i]);
    }
  }

  lemma {:induction false} UnderTransitive(kids: Kids, h: Heights, x: Node, y: Node, n: Node)
    requires Ranked(kids, h) && n in kids && y in kids && Under(kids, h, x, y) && Under(kids, h, y, n)
    ensures Under(kids, h, x, n)
    decreases h[n]
  {
    if y != n {
      var i :| 0 <= i < |kids[n]| && Under(kids, h, y, kids[n][i]);
      UnderTransitive(kids, h, x, y, kids[n][i]);
    }
  }

  lemma ChildIsUnder(kids: Kids, h: Heights, p: Node, i: nat)
    requires Ranked(kids, h) && p in kids && i < |kids[p]|
    ensures Under(kids, h, kids[p][i], p)
  {
    assert kids[p][i] in kids[p];
    assert Under(kids, h, kids[p][i], kids[p][i]);
  }

  /** A proper descendant's parent is a descendant too, and conversely. */
  lemma {:induction false} ParentIsUnder(s: State, kids: Kids, h: Heights, x: Node, n: Node)
    requires Linked(s, kids) && Ranked(kids, h) && n in kids && x in kids
    ensures x != n && Under(kids, h, x, n) ==> s[x].parent != null && Under(kids, h, s[x].parent, n)
    ensures s[x].parent != null && Under(kids, h, s[x].parent, n) ==> Under(kids, h, x, n)
    decreases h[n]
  {
    if x != n && Under(kids, h, x, n) {
      var i :| 0 <= i < |kids[n]| && Under(kids, h, x, kids[n][i]);
      ParentIsUnder(s, kids, h, x, kids[n][i]);
      if x == kids[n][i] {
        assert s[x].parent == n;
      }
    }
    if s[x].parent != null && Under(kids, h, s[x].parent, n) {
      var p := s[x].parent;
      assert Home(s, kids, x);
      var i :| 0 <= i < |kids[p]| && kids[p][i] == x;
      ChildIsUnder(kids, h, p, i);
      UnderTransitive(kids, h, x, p, n);
    }
  }

  // ------------------------------------------------------------ removing a child

  function Dropped(l: seq<Node>, i: nat): seq<Node>
    requires i < |l|
  {
    l[..i] + l[i + 1..]
  }

  function SetFirst(s: State, n: Node, v: Node?): State
    requires n in s
  {
    s[n := s[n].(first := v)]
  }

  function SetPrev(s: State, n: Node, v: Node?): State
    requires n in s
  {
    s[n := s[n].(prev := v)]
  }

  function SetNext(s: State, n: Node, v: Node?): State
    requires n in s
  {
    s[n := s[n].(next := v)]
  }

  function SetParent(s: State, n: Node, v: Node?): State
    requires n in s
  {
    s[n := s[n].(parent := v)]
  }

  /** The links the unlinking statements leave. */
  function Unlinked(s: State, p: Node, c: Node): State
    requires p in s && c in s
    requires s[c].prev == null || s[c].prev in s
    requires s[c].next == null || s[c].next in s
  {
    var s1 := if s[c].prev != null then SetNext(s, s[c].prev, s[c].next) else s;
    var s2 := if s1[p].first == c then SetFirst(s1, p, s1[c].next) else s1;
    var s3 := if s2[c].next != null then SetPrev(s2, s2[c].next, s2[c].prev) else s2;
    SetParent(SetPrev(SetNext(s3, c, null), c, null), c, null)
  }

  /** Which links removal changes, node by node. */
  lemma UnlinkedAt(s: State, p: Node, c: Node, n: Node)
    requires p in s && c in s && n in s && p != c
    requires s[c].prev == null || (s[c].prev in s && s[c].prev != c && s[c].prev != p)
    requires s[c].next == null || (s[c].next in s && s[c].next != c && s[c].next != p && s[c].next != s[c].prev)
    ensures
      var t := Unlinked(s, p, c);
      && t.Keys == s.Keys
      && t[n].parent == (if n == c then null else s[n].parent)
      && t[n].first == (if n == p && s[p].first == c then s[c].next else s[n].first)
      && t[n].next == (if n == c then null else if n == s[c].prev then s[c].next else s[n].next)
      && t[n].prev == (if n == c then null else if n == s[c].next then s[c].prev else s[n].prev)
  {
  }

  /** The facts about the removed child that UnlinkedAt asks for. */
  lemma ChildFacts(s: State, kids: Kids, h: Heights, p: Node, i: nat)
    requires Shape(s, kids, h) && p in kids && i < |kids[p]|
    ensures
      var l, c := kids[p], kids[p][i];
      && p in s && c in s && p != c && s[c].parent == p && (s[p].first == c <==> i == 0)
      && s[c].prev == At(l, i - 1) && s[c].next == At(l, i + 1)
      && (s[c].prev == null || (s[c].prev in s && s[c].prev != c && s[c].prev != p))
      && (s[c].next == null || (s[c].next in s && s[c].next != c && s[c].next != p && s[c].next != s[c].prev))
  {
    var l := kids[p];
    assert ListLinked(s, p, l);
    assert l[i] in l && (i > 0 ==> l[i - 1] in l) && (i + 1 < |l| ==> l[i + 1] in l);
  }

  /** `t` is `s` with the child `l[i]` of `p` unlinked. */
  ghost predicate Cut(s: State, t: State, p: Node, l: seq<Node>, i: nat)
    requires i < |l|
  {
    && t.Keys == s.Keys
    && forall n :: n in s ==> t[n] == CutLinks(s[n], p, l, i, n)
  }

  function CutLinks(was: Links, p: Node, l: seq<Node>, i: nat, n: Node): Links
    requires i < |l|
  {
    if n == l[i] then Links(null, was.first, null, null)
    else
      Links(
        was.parent,
        if n == p && i == 0 then At(l, 1) else was.first,
        if i + 1 < |l| && n == l[i + 1] then At(l, i - 1) else was.prev,
        if i > 0 && n == l[i - 1] then At(l, i + 1) else was.next)
  }

  lemma UnlinkIsCut(s: State, kids: Kids, h: Heights, p: Node, i: nat)
    requires Shape(s, kids, h) && p in kids && i < |kids[p]|
    requires kids[p][i] in s && (s[kids[p][i]].prev == null || s[kids[p][i]].prev in s)
    requires s[kids[p][i]].next == null || s[kids[p][i]].next in s
    ensures Cut(s, Unlinked(s, p, kids[p][i]), p, kids[p], i)
  {
    hide Unlinked, Linked, Ranked, ListLinked;
    var l, c := kids[p], kids[p][i];
    ChildFacts(s, kids, h, p, i);
    forall n | n in s
      ensures Unlinked(s, p, c).Keys == s.Keys && Unlinked(s, p, c)[n] == CutLinks(s[n], p, l, i, n)
    {
      UnlinkedAt(s, p, c, n);
    }
  }

  lemma CutNode(s: State, t: State, p: Node, l: seq<Node>, i: nat, n: Node)
    requires i < |l| && Cut(s, t, p, l, i) && n in s
    ensures n in t && t[n] == CutLinks(s[n], p, l, i, n)
  {
  }

  /** Dropping a child from a list keeps it linked. */
  lemma CutList(s: State, t: State, p: Node, l: seq<Node>, i: nat)
    requires ListLinked(s, p, l) && p !in l && i < |l| && Cut(s, t, p, l, i)
    ensures ListLinked(t, p, Dropped(l, i))
  {
    hide Cut;
    var l' := Dropped(l, i);
    CutNode(s, t, p, l, i, p);
    forall j | 0 <= j < |l'|
      ensures l'[j] in t && t[l'[j]].parent == p && t[l'[j]].prev == At(l', j - 1) && t[l'[j]].next == At(l', j + 1)
    {
      CutListAt(s, t, p, l, i, j);
    }
    DroppedDistinct(l, i);
  }

  lemma DroppedDistinct(l: seq<Node>, i: nat)
    requires Distinct(l) && i < |l|
    ensures Distinct(Dropped(l, i)) && l[i] !in Dropped(l, i)
  {
  }

  lemma CutListAt(s: State, t: State, p: Node, l: seq<Node>, i: nat, j: nat)
    requires ListLinked(s, p, l) && p !in l && i < |l| && j < |l| - 1 && Cut(s, t, p, l, i)
    ensures
      var l' := Dropped(l, i);
      l'[j] in t && t[l'[j]].parent == p && t[l'[j]].prev == At(l', j - 1) && t[l'[j]].next == At(l', j + 1)
  {
    hide Cut;
    var k := if j < i then j else j + 1;
    assert Dropped(l, i)[j] == l[k] && l[k] in s;
    CutNode(s, t, p, l, i, l[k]);
    assert l[k] != l[i] && l[k] in l;
    assert i + 1 < |l| && l[k] == l[i + 1] ==> k == i + 1;
    assert i > 0 && l[k] == l[i - 1] ==> k == i - 1;
  }

  /** A list none of whose nodes changed stays linked. */
  lemma UntouchedList(s: State, t: State, q: Node, l: seq<Node>)
    requires ListLinked(s, q, l) && t.Keys == s.Keys && t[q].first == s[q].first
    requires forall n :: n in l ==> n in s && t[n].parent == s[n].parent && t[n].prev == s[n].prev && t[n].next == s[n].next
    ensures ListLinked(t, q, l)
  {
    assert forall i :: 0 <= i < |l| ==> l[i] in l;
  }

  /** Unlinking a child leaves the forest without it in that list. */
  lemma CutKeepsForest(s: State, t: State, kids: Kids, h: Heights, p: Node, i: nat)
    requires Shape(s, kids, h) && p in kids && i < |kids[p]| && Cut(s, t, p, kids[p], i)
    ensures Shape(t, kids[p := Dropped(kids[p], i)], h)
  {
    hide Cut, ListLinked, Home, Ranked;
    var l := kids[p];
    CutKeys(s, t, p, l, i);
    CutRanked(kids, h, p, i);
    CutList(s, t, p, l, i);
    forall q | q in kids && q != p ensures ListLinked(t, q, kids[q]) {
      CutOther(s, t, kids, p, i, q);
    }
    forall n | n in t ensures Home(t, kids[p := Dropped(l, i)], n) {
      CutHome(s, t, kids, p, i, n);
    }
  }

  lemma CutRanked(kids: Kids, h: Heights, p: Node, i: nat)
    requires Ranked(kids, h) && p in kids && i < |kids[p]|
    ensures p !in kids[p] && Ranked(kids[p := Dropped(kids[p], i)], h)
  {
    assert forall m :: m in Dropped(kids[p], i) ==> m in kids[p];
  }

  lemma CutKeys(s: State, t: State, p: Node, l: seq<Node>, i: nat)
    requires i < |l| && Cut(s, t, p, l, i)
    ensures t.Keys == s.Keys
  {
  }

  lemma CutOther(s: State, t: State, kids: Kids, p: Node, i: nat, q: Node)
    requires Linked(s, kids) && p in kids && i < |kids[p]| && q in kids && q != p && Cut(s, t, p, kids[p], i)
    ensures ListLinked(t, q, kids[q])
  {
    hide Linked, ListLinked;
    OtherList(s, kids, p, i, q);
    UntouchedList(s, t, q, kids[q]);
  }

  lemma CutHome(s: State, t: State, kids: Kids, p: Node, i: nat, n: Node)
    requires Linked(s, kids) && p in kids && i < |kids[p]| && n in s && Cut(s, t, p, kids[p], i)
    ensures n in t && Home(t, kids[p := Dropped(kids[p], i)], n)
  {
    hide Cut;
    CutNode(s, t, p, kids[p], i, n);
    assert Home(s, kids, n);
    assert ListLinked(s, p, kids[p]);
    if n != kids[p][i] && s[n].parent == p { StillThere(kids[p], i, n); }
  }

  lemma StillThere(l: seq<Node>, i: nat, n: Node)
    requires i < |l| && n in l && n != l[i]
    ensures n in Dropped(l, i)
  {
    var k :| 0 <= k < |l| && l[k] == n;
    assert Dropped(l, i)[if k < i then k else k - 1] == n;
  }

  /** The nodes of another list are not the ones whose links change. */
  lemma OtherList(s: State, kids: Kids, p: Node, i: nat, q: Node)
    requires Linked(s, kids) && p in kids && i < |kids[p]| && q in kids && q != p
    ensures q in s
    ensures ListLinked(s, q, kids[q])
    ensures forall n :: n in kids[q] ==> n in s && n != kids[p][i] && n != At(kids[p], i - 1) && n != At(kids[p], i + 1)
  {
    assert ListLinked(s, p, kids[p]) && ListLinked(s, q, kids[q]);
    forall n | n in kids[q]
      ensures n in s && n != kids[p][i] && n != At(kids[p], i - 1) && n != At(kids[p], i + 1)
    {
      var j :| 0 <= j < |kids[q]| && kids[q][j] == n;
      assert s[n].parent == q;
    }
  }

  // ----------------------------------------------------------- inserting a child

  function Inserted(l: seq<Node>, i: nat, c: Node): seq<Node>
    requires i <= |l|
  {
    l[..i] + [c] + l[i..]
  }

  /** `t` is `s` with `c` linked in as child `i` of `p`, whose list was `l`. */
  ghost predicate Spliced(s: State, t: State, p: Node, l: seq<Node>, i: nat, c: Node)
    requires i <= |l|
  {
    && t.Keys == s.Keys
    && forall n :: n in s ==> t[n] == SplicedLinks(s[n], p, l, i, c, n)
  }

  function SplicedLinks(was: Links, p: Node, l: seq<Node>, i: nat, c: Node, n: Node): Links
    requires i <= |l|
  {
    if n == c then Links(p, was.first, At(l, i - 1), At(l, i))
    else
      Links(
        was.parent,
        if n == p && i == 0 then c else was.first,
        if i < |l| && n == l[i] then c else was.prev,
        if i > 0 && n == l[i - 1] then c else was.next)
  }

  lemma SplicedNode(s: State, t: State, p: Node, l: seq<Node>, i: nat, c: Node, n: Node)
    requires i <= |l| && Spliced(s, t, p, l, i, c) && n in s
    ensures n in t && t[n] == SplicedLinks(s[n], p, l, i, c, n)
  {
  }

  lemma SpliceKeys(s: State, t: State, p: Node, l: seq<Node>, i: nat, c: Node)
    requires i <= |l| && Spliced(s, t, p, l, i, c)
    ensures t.Keys == s.Keys
  {
  }

  lemma SpliceListAt(s: State, t: State, p: Node, l: seq<Node>, i: nat, c: Node, j: nat)
    requires ListLinked(s, p, l) && p !in l && c !in l && c != p && c in s && i <= |l| && j <= |l|
    requires Spliced(s, t, p, l, i, c)
    ensures
      var l' := Inserted(l, i, c);
      l'[j] in t && t[l'[j]].parent == p && t[l'[j]].prev == At(l', j - 1) && t[l'[j]].next == At(l', j + 1)
  {
    hide Spliced;
    var l' := Inserted(l, i, c);
    if j == i {
      assert l'[j] == c;
      SplicedNode(s, t, p, l, i, c, c);
    } else {
      var k := if j < i then j else j - 1;
      assert l'[j] == l[k] && l[k] in s;
      SplicedNode(s, t, p, l, i, c, l[k]);
      assert l[k] != c by { assert l[k] in l; }
      assert i < |l| && l[k] == l[i] ==> k == i;
      assert i > 0 && l[k] == l[i - 1] ==> k == i - 1;
    }
  }

  /** Linking a detached node into a list keeps it linked. */
  lemma SpliceList(s: State, t: State, p: Node, l: seq<Node>, i: nat, c: Node)
    requires ListLinked(s, p, l) && p !in l && c !in l && c != p && c in s && i <= |l|
    requires Spliced(s, t, p, l, i, c)
    ensures ListLinked(t, p, Inserted(l, i, c))
  {
    hide Spliced;
    var l' := Inserted(l, i, c);
    SplicedNode(s, t, p, l, i, c, p);
    forall j | 0 <= j < |l'|
      ensures l'[j] in t && t[l'[j]].parent == p && t[l'[j]].prev == At(l', j - 1) && t[l'[j]].next == At(l', j + 1)
    {
      SpliceListAt(s, t, p, l, i, c, j);
    }
    InsertedDistinct(l, i, c);
  }

  lemma InsertedDistinct(l: seq<Node>, i: nat, c: Node)
    requires Distinct(l) && i <= |l| && c !in l
    ensures Distinct(Inserted(l, i, c))
  {
  }

  lemma InsertedMembers(l: seq<Node>, i: nat, c: Node)
    requires i <= |l|
    ensures forall m :: m in Inserted(l, i, c) <==> m in l || m == c
  {
    forall m | m in l ensures m in Inserted(l, i, c) {
      var k :| 0 <= k < |l| && l[k] == m;
      assert Inserted(l, i, c)[if k < i then k else k + 1] == m;
    }
    assert Inserted(l, i, c)[i] == c;
  }

  lemma SpliceOther(s: State, t: State, kids: Kids, p: Node, i: nat, c: Node, q: Node)
    requires Linked(s, kids) && p in kids && i <= |kids[p]| && q in kids && q != p
    requires c in s && s[c].parent == null && Spliced(s, t, p, kids[p], i, c)
    ensures ListLinked(t, q, kids[q])
  {
    assert ListLinked(s, p, kids[p]) && ListLinked(s, q, kids[q]);
    forall n | n in kids[q]
      ensures n in s && n != c && (i < |kids[p]| ==> n != kids[p][i]) && (i > 0 ==> n != kids[p][i - 1])
    {
      var j :| 0 <= j < |kids[q]| && kids[q][j] == n;
      assert s[n].parent == q;
    }
    hide Linked, ListLinked;
    UntouchedList(s, t, q, kids[q]);
  }

  lemma SpliceHome(s: State, t: State, kids: Kids, p: Node, i: nat, c: Node, n: Node)
    requires Linked(s, kids) && p in kids && i <= |kids[p]| && n in s
    requires c in s && s[c].parent == null && Spliced(s, t, p, kids[p], i, c)
    ensures n in t && Home(t, kids[p := Inserted(kids[p], i, c)], n)
  {
    hide Spliced;
    SplicedNode(s, t, p, kids[p], i, c, n);
    assert Home(s, kids, n);
    assert ListLinked(s, p, kids[p]);
    InsertedMembers(kids[p], i, c);
    if n != c && s[n].parent == null {
      assert i < |kids[p]| ==> s[kids[p][i]].parent == p;
      assert i > 0 ==> s[kids[p][i - 1]].parent == p;
    }
  }

  /** Heights after hanging `c` under `p`: everything above `p` rises clear of `c`. */
  ghost function Raised(kids: Kids, h: Heights, p: Node, c: Node): Heights
    requires Ranked(kids, h) && c in kids
  {
    map n | n in kids :: if Under(kids, h, p, n) then h[n] + h[c] + 1 else h[n]
  }

  lemma RaisedIsRanked(kids: Kids, h: Heights, p: Node, i: nat, c: Node)
    requires Ranked(kids, h) && p in kids && c in kids && i <= |kids[p]| && !Under(kids, h, p, c)
    ensures Ranked(kids[p := Inserted(kids[p], i, c)], Raised(kids, h, p, c))
  {
    var kids', h' := kids[p := Inserted(kids[p], i, c)], Raised(kids, h, p, c);
    InsertedMembers(kids[p], i, c);
    forall q, m | q in kids' && m in kids'[q] ensures m in kids' && h'[m] < h'[q] {
      RaisedPair(kids, h, p, c, q, m);
    }
  }

  lemma RaisedPair(kids: Kids, h: Heights, p: Node, c: Node, q: Node, m: Node)
    requires Ranked(kids, h) && p in kids && c in kids && !Under(kids, h, p, c)
    requires q in kids && (m in kids[q] || (q == p && m == c))
    ensures m in kids && Raised(kids, h, p, c)[m] < Raised(kids, h, p, c)[q]
  {
    if q == p && m == c {
      assert Under(kids, h, p, p);
    } else {
      var i :| 0 <= i < |kids[q]| && kids[q][i] == m;
      if Under(kids, h, p, m) {
        ChildIsUnder(kids, h, q, i);
        UnderTransitive(kids, h, p, m, q);
      }
    }
  }

  /** Hanging a detached node that is not above the parent leaves the forest with it
      in the list. */
  lemma SpliceKeepsForest(s: State, t: State, kids: Kids, h: Heights, p: Node, i: nat, c: Node)
    requires Shape(s, kids, h) && p in kids && i <= |kids[p]| && c in s && s[c].parent == null
    requires !Under(kids, h, p, c) && Spliced(s, t, p, kids[p], i, c)
    ensures Shape(t, kids[p := Inserted(kids[p], i, c)], Raised(kids, h, p, c))
  {
    hide Spliced, ListLinked, Home, Ranked;
    var l := kids[p];
    SpliceKeys(s, t, p, l, i, c);
    RaisedIsRanked(kids, h, p, i, c);
    DetachedFacts(s, kids, h, p, c);
    SpliceList(s, t, p, l, i, c);
    forall q | q in kids && q != p ensures ListLinked(t, q, kids[q]) {
      SpliceOther(s, t, kids, p, i, c, q);
    }
    forall n | n in t ensures Home(t, kids[p := Inserted(l, i, c)], n) {
      SpliceHome(s, t, kids, p, i, c, n);
    }
  }

  lemma DetachedFacts(s: State, kids: Kids, h: Heights, p: Node, c: Node)
    requires Shape(s, kids, h) && p in kids && c in s && s[c].parent == null && !Under(kids, h, p, c)
    ensures p !in kids[p] && c !in kids[p] && c != p
    ensures s[c].prev == null && s[c].next == null
  {
    assert Home(s, kids, c) && ListLinked(s, p, kids[p]);
  }
}
