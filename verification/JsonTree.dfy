/**
 Whole cJSON trees in memory, how they are linked together, and how they are
 duplicated (components/dsp_json/cjson/cJSON.c, cJSON_Duplicate_rec).

 A `Shape` is the proof's view of a tree: which node is the root and which
 shapes hang below it. `Tree` is the value a shape holds, links forgotten.
 */
module JsonTree {
  import opened JsonList

  /** CJSON_CIRCULAR_LIMIT. */
  const CIRCULAR_LIMIT: nat := 10000

  datatype Shape = Shape(node: Node, kids: seq<Shape>)

  datatype Tree = Tree(payload: Payload, kids: seq<Tree>)

  ghost function Heads(kids: seq<Shape>): (nodes: seq<Node>)
    ensures |nodes| == |kids|
    ensures forall i :: 0 <= i < |kids| ==> nodes[i] == kids[i].node
  {
    seq(|kids|, i requires 0 <= i < |kids| => kids[i].node)
  }

  /** The root of the `i`-th shape, or null behind the last one: where a walk along the links is. */
  ghost function KidAt(kids: seq<Shape>, i: nat): (kid: Node?)
    ensures if i < |kids| then kid == kids[i].node else kid == null
  {
    if i < |kids| then kids[i].node else null
  }

  ghost function Nodes(sh: Shape): (ns: set<Node>)
    ensures sh.node in ns
    decreases sh, 1
  {
    {sh.node} + NodesOf(sh.kids)
  }

  ghost function NodesOf(kids: seq<Shape>): (ns: set<Node>)
    ensures forall i :: 0 <= i < |kids| ==> Nodes(kids[i]) <= ns
    ensures forall i :: 0 <= i < |kids| ==> kids[i].node in ns
    decreases kids, 0
  {
    if kids == [] then {}
    else
      var n := |kids| - 1;
      assert forall i :: 0 <= i < n ==> kids[..n][i] == kids[i];
      NodesOf(kids[..n]) + Nodes(kids[n])
  }

  /** The nodes are linked as the shape says, and no node occurs twice. The root's own links do not matter. */
  ghost predicate WellFormed(sh: Shape)
    reads sh.node`child, NodesOf(sh.kids)
    decreases sh, 1
  {
    sh.node !in NodesOf(sh.kids) && Children(sh.node, Heads(sh.kids)) && AllWellFormed(sh.kids)
  }

  ghost predicate AllWellFormed(kids: seq<Shape>)
    reads NodesOf(kids)
    decreases kids, 0
  {
    && (forall i :: 0 <= i < |kids| ==> WellFormed(kids[i]))
    && (forall i, j :: 0 <= i < j < |kids| ==> Nodes(kids[i]) !! Nodes(kids[j]))
  }

  ghost function Value(sh: Shape): Tree
    reads sh.node`payload, NodesOf(sh.kids)
    decreases sh, 1
  {
    Tree(sh.node.payload, Values(sh.kids))
  }

  ghost function Values(kids: seq<Shape>): (ts: seq<Tree>)
    reads NodesOf(kids)
    decreases kids, 0
    ensures |ts| == |kids|
    ensures forall i :: 0 <= i < |kids| ==> ts[i] == Value(kids[i])
  {
    seq(|kids|, i requires 0 <= i < |kids| reads NodesOf(kids) => Value(kids[i]))
  }

  /** No node lies more than `limit` levels below the root. */
  ghost predicate DeepAtMost(t: Tree, limit: int) {
    t.kids != [] ==> limit > 0 && forall i :: 0 <= i < |t.kids| ==> DeepAtMost(t.kids[i], limit - 1)
  }

  // ---------------------------------------------------------------------
  // Growing a list of shapes
  // ---------------------------------------------------------------------

  lemma Appended(kids: seq<Shape>, x: Shape)
    ensures NodesOf(kids + [x]) == NodesOf(kids) + Nodes(x)
    ensures Heads(kids + [x]) == Heads(kids) + [x.node]
  {
    assert (kids + [x])[..|kids|] == kids;
  }

  lemma ValuesAppended(kids: seq<Shape>, x: Shape)
    ensures Values(kids + [x]) == Values(kids) + [Value(x)]
  {}

  lemma WellFormedAppended(kids: seq<Shape>, x: Shape)
    requires AllWellFormed(kids) && WellFormed(x) && NodesOf(kids) !! Nodes(x)
    ensures AllWellFormed(kids + [x])
  {
    hide WellFormed, Nodes, NodesOf;
    var all := kids + [x];
    forall i, j | 0 <= i < j < |all| ensures Nodes(all[i]) !! Nodes(all[j]) {}
  }

  /** Roots of well-formed shapes do not occur inside any of them. */
  ghost predicate RootsOutside(kids: seq<Shape>) {
    forall i, j :: 0 <= i < |kids| && 0 <= j < |kids| ==> kids[i].node !in NodesOf(kids[j].kids)
  }

  lemma RootsAreOutside(kids: seq<Shape>)
    requires AllWellFormed(kids)
    ensures RootsOutside(kids)
  {
    forall i, j | 0 <= i < |kids| && 0 <= j < |kids| ensures kids[i].node !in NodesOf(kids[j].kids) {
      assert WellFormed(kids[i]) && WellFormed(kids[j]);
      assert kids[i].node in Nodes(kids[i]) && NodesOf(kids[j].kids) <= Nodes(kids[j]);
      if i < j { assert Nodes(kids[i]) !! Nodes(kids[j]); }
      if j < i { assert Nodes(kids[j]) !! Nodes(kids[i]); }
    }
  }

  // ---------------------------------------------------------------------
  // Duplication
  // ---------------------------------------------------------------------

  /** A child list under construction: only the head's link to the last node is still missing. */
  ghost predicate OpenLinks(nodes: seq<Node>)
    reads nodes`next, nodes`prev
  {
    && Distinct(nodes)
    && (forall i {:trigger nodes[i].next} :: 0 <= i < |nodes| ==> nodes[i].next == Next(nodes, i))
    && (forall i {:trigger nodes[i].prev} :: 0 < i < |nodes| ==> nodes[i].prev == nodes[i - 1])
  }

  ghost predicate OpenList(kids: seq<Shape>, head: Node?, last: Node?)
    reads NodesOf(kids)
  {
    && AllWellFormed(kids)
    && head == (if kids == [] then null else kids[0].node)
    && last == (if kids == [] then null else kids[|kids| - 1].node)
    && OpenLinks(Heads(kids))
  }

  ghost predicate Open(parent: Node, kids: seq<Shape>, last: Node?)
    reads parent`child, NodesOf(kids)
  {
    parent !in NodesOf(kids) && OpenList(kids, parent.child, last)
  }

  lemma InsideAll(kids: seq<Shape>, i: nat)
    requires i < |kids|
    ensures NodesOf(kids[i].kids) <= Nodes(kids[i]) <= NodesOf(kids)
  {}

  lemma NewHead(kids: seq<Shape>, x: Shape)
    requires NodesOf(kids) !! Nodes(x) && Distinct(Heads(kids))
    ensures Distinct(Heads(kids) + [x.node])
    ensures forall i :: 0 <= i < |kids| ==> Heads(kids)[i] != x.node
  {
    hide Nodes, NodesOf;
    forall i | 0 <= i < |kids| ensures Heads(kids)[i] != x.node {
      assert kids[i].node in NodesOf(kids);
    }
  }

  /** A single finished child is a list under construction. */
  lemma OpenSingle(x: Shape)
    requires WellFormed(x) && x.node.next == null
    ensures OpenList([x], x.node, x.node) && NodesOf([x]) == Nodes(x)
  {
    assert [] + [x] == [x];
    Appended([], x);
  }

  /** Changing a sibling link of a root changes neither the shapes below the roots nor their values. */
  method SetNext(node: Node, to: Node?, ghost kids: seq<Shape>, ghost k: nat)
    requires AllWellFormed(kids) && k < |kids| && kids[k].node == node
    modifies node`next
    ensures node.next == to && AllWellFormed(kids) && Values(kids) == old(Values(kids))
  {
    hide WellFormed, Values, Value, Nodes, NodesOf;
    RootsAreOutside(kids);
    node.next := to;
    forall i | 0 <= i < |kids|
      ensures WellFormed(kids[i]) == old(WellFormed(kids[i])) && Value(kids[i]) == old(Value(kids[i]))
    {
      assert kids[k].node !in NodesOf(kids[i].kids);
    }
    assert Values(kids) == old(Values(kids));
  }

  method SetPrev(node: Node, to: Node?, ghost kids: seq<Shape>, ghost k: nat)
    requires AllWellFormed(kids) && k < |kids| && kids[k].node == node
    modifies node`prev
    ensures node.prev == to && AllWellFormed(kids) && Values(kids) == old(Values(kids))
  {
    hide WellFormed, Values, Value, Nodes, NodesOf;
    RootsAreOutside(kids);
    node.prev := to;
    forall i | 0 <= i < |kids|
      ensures WellFormed(kids[i]) == old(WellFormed(kids[i])) && Value(kids[i]) == old(Value(kids[i]))
    {
      assert kids[k].node !in NodesOf(kids[i].kids);
    }
    assert Values(kids) == old(Values(kids));
  }

  /** Links one more finished child behind the last one. */
  method Attach(last: Node, child: Node, ghost kids: seq<Shape>, ghost head: Node?, ghost x: Shape)
    requires kids != [] && OpenList(kids, head, last)
    requires WellFormed(x) && x.node == child && child.next == null
    requires Nodes(x) !! NodesOf(kids)
    modifies last`next, child`prev
    ensures OpenList(kids + [x], head, child)
    ensures Values(kids + [x]) == old(Values(kids)) + [old(Value(x))]
  {
    hide WellFormed, AllWellFormed, Values, Value, Nodes, NodesOf, Distinct;
    ghost var all := kids + [x];
    ghost var hk, hs := Heads(kids), Heads(all);
    Appended(kids, x);
    WellFormedAppended(kids, x);
    ValuesAppended(kids, x);
    NewHead(kids, x);
    assert hk[|kids| - 1] == kids[|kids| - 1].node == all[|kids| - 1].node;
    SetNext(last, child, all, |kids| - 1);
    SetPrev(child, last, all, |kids|);
    forall i | 0 <= i < |hs| ensures hs[i].next == Next(hs, i) && (i > 0 ==> hs[i].prev == hs[i - 1]) {
      if i < |hk| {
        assert hs[i] == hk[i] != child;
        SamePosition(hk, i, |hk| - 1);
      }
    }
  }

  /** Sets the missing link from the head to the last node. */
  method CloseList(head: Node?, last: Node?, ghost kids: seq<Shape>)
    requires OpenList(kids, head, last)
    modifies Maybe(head)`prev
    ensures AllWellFormed(kids) && Linked(Heads(kids)) && Values(kids) == old(Values(kids))
  {
    hide WellFormed, AllWellFormed, Values, Value, Nodes, NodesOf, Distinct;
    ghost var hs := Heads(kids);
    if head != null {
      assert hs[0] == kids[0].node;
      SetPrev(head, last, kids, 0);
    }
    forall i | 0 <= i < |hs| ensures hs[i].next == Next(hs, i) && hs[i].prev == Prev(hs, i) {
      SamePosition(hs, i, 0);
    }
  }

  /** Links a finished child below its parent: behind the last child, or as the first one. */
  method LinkChild(parent: Node, last: Node?, child: Node, ghost kids: seq<Shape>, ghost x: Shape)
    requires Open(parent, kids, last)
    requires WellFormed(x) && x.node == child && child.next == null
    requires Nodes(x) !! NodesOf(kids) && parent !in Nodes(x)
    modifies parent`child, Maybe(last)`next, child`prev
    ensures Open(parent, kids + [x], child)
    ensures Values(kids + [x]) == old(Values(kids)) + [old(Value(x))]
  {
    hide WellFormed, Values, Value, Nodes, NodesOf, OpenList;
    OpenParts(parent, kids, last);
    Appended(kids, x);
    if last != null {
      Attach(last, child, kids, parent.child, x);
    } else {
      OpenSingle(x);
      parent.child := child;
      assert kids + [x] == [x];
      ValuesAppended([], x);
    }
  }

  method CloseChildren(parent: Node, last: Node?, ghost kids: seq<Shape>)
    requires Open(parent, kids, last)
    modifies Maybe(parent.child)`prev
    ensures WellFormed(Shape(parent, kids)) && Values(kids) == old(Values(kids))
  {
    hide WellFormed, Values, Value, Nodes, NodesOf, OpenList, AllWellFormed;
    OpenParts(parent, kids, last);
    HeadIsChild(kids, parent.child, last);
    CloseList(parent.child, last, kids);
    assert Children(parent, Heads(kids));
    FinishedShape(parent, kids);
  }

  lemma HeadIsChild(kids: seq<Shape>, head: Node?, last: Node?)
    requires OpenList(kids, head, last)
    ensures head == if Heads(kids) == [] then null else Heads(kids)[0]
  {}

  lemma FinishedShape(parent: Node, kids: seq<Shape>)
    requires Children(parent, Heads(kids)) && AllWellFormed(kids) && parent !in NodesOf(kids)
    ensures WellFormed(Shape(parent, kids))
  {}

  /**
   Copies a tree node by node. With allocation succeeding it fails exactly
   when some node lies deeper than the limit allows; otherwise the copy is a
   well-formed tree of fresh nodes holding the same value. No existing node is
   modified.
   */
  method DuplicateRec(item: Node, ghost sh: Shape, depth: nat, recurse: bool) returns (copy: Node?, ghost csh: Shape)
    requires WellFormed(sh) && sh.node == item
    requires depth <= CIRCULAR_LIMIT
    ensures copy != null <==> !recurse || DeepAtMost(old(Value(sh)), CIRCULAR_LIMIT - depth)
    ensures copy != null ==>
              && csh.node == copy && WellFormed(csh) && fresh(Nodes(csh)) && copy.next == null
              && Value(csh) == if recurse then old(Value(sh)) else Tree(item.payload, [])
    decreases sh, 0
  {
    hide Nodes, NodesOf, Open, WellFormed, AllWellFormed, Values, Children;
    ShapeParts(sh);
    assert allocated(NodesOf(sh.kids));
    var newItem := new Node(item.payload);
    csh := Shape(newItem, []);
    LeafShape(newItem);
    if !recurse {
      return newItem, csh;
    }
    var ok, kids := CopyChildren(item, sh.kids, newItem, depth);
    if !ok {
      return null, csh;
    }
    csh := Shape(newItem, kids);
    WholeShape(csh);
    return newItem, csh;
  }

  ghost predicate AllDeepAtMost(ts: seq<Tree>, limit: int) {
    forall i :: 0 <= i < |ts| ==> limit > 0 && DeepAtMost(ts[i], limit - 1)
  }

  /** One more tree of the prefix; and a prefix that is too deep makes the whole too deep. */
  lemma DeepPrefix(ts: seq<Tree>, i: nat, limit: int)
    requires i < |ts|
    ensures AllDeepAtMost(ts[..i + 1], limit) <==>
            AllDeepAtMost(ts[..i], limit) && limit > 0 && DeepAtMost(ts[i], limit - 1)
    ensures AllDeepAtMost(ts, limit) ==> limit > 0 && DeepAtMost(ts[i], limit - 1)
  {
    hide DeepAtMost;
    assert forall j :: 0 <= j < i ==> ts[..i + 1][j] == ts[..i][j];
    assert ts[..i + 1][i] == ts[i];
  }

  /** The copying loop: copies every child of `item` below `newItem`. */
  method CopyChildren(item: Node, ghost source: seq<Shape>, newItem: Node, depth: nat)
    returns (ok: bool, ghost kids: seq<Shape>)
    requires Children(item, Heads(source)) && AllWellFormed(source) && allocated(NodesOf(source))
    requires newItem != item && newItem !in NodesOf(source) && newItem.child == null
    requires depth <= CIRCULAR_LIMIT
    modifies newItem`child
    ensures ok <==> AllDeepAtMost(old(Values(source)), CIRCULAR_LIMIT - depth)
    ensures ok ==> WellFormed(Shape(newItem, kids)) && Values(kids) == old(Values(source)) && fresh(NodesOf(kids))
    decreases source, 2
  {
    hide *;
    var child := item.child;
    var next: Node? := null;
    kids := [];
    ghost var i := 0;
    ghost var ts := Values(source);
    NothingYet(newItem);
    FirstChild(item, source);
    NothingTooDeep(CIRCULAR_LIMIT - depth);
    assert ts[..0] == [];
    while child != null
      invariant 0 <= i <= |source| && |kids| == i
      invariant child == KidAt(source, i)
      invariant fresh(NodesOf(kids)) && (next != null ==> fresh(next)) && allocated(NodesOf(kids))
      invariant AllWellFormed(source) && Children(item, Heads(source)) && Values(source) == ts
      invariant Open(newItem, kids, next)
      invariant Values(kids) == ts[..i]
      invariant AllDeepAtMost(ts[..i], CIRCULAR_LIMIT - depth)
      decreases |source| - i
    {
      DeepPrefix(ts, i, CIRCULAR_LIMIT - depth);
      if depth >= CIRCULAR_LIMIT {
        return false, kids;
      }
      KidParts(source, i);
      MaybeOnly(next);
      var newChild, nsh := AddCopy(newItem, next, child, kids, source[i], depth + 1);
      if newChild == null {
        return false, kids;
      }
      Appended(kids, nsh);
      NextChild(item, source, i);
      next := newChild;
      kids := kids + [nsh];
      child := child.next;
      i := i + 1;
    }
    assert ts[..i] == ts;
    OpenParts(newItem, kids, next);
    MaybeOnly(newItem.child);
    CloseChildren(newItem, next, kids);
    return true, kids;
  }

  lemma NothingTooDeep(limit: int)
    ensures AllDeepAtMost([], limit)
  {}

  /** The body of the copying loop: copies one child and links the copy. */
  method AddCopy(parent: Node, last: Node?, child: Node, ghost kids: seq<Shape>, ghost x: Shape, depth: nat)
    returns (copy: Node?, ghost csh: Shape)
    requires Open(parent, kids, last) && allocated(NodesOf(kids))
    requires WellFormed(x) && x.node == child && depth <= CIRCULAR_LIMIT
    modifies parent`child, Maybe(last)`next
    ensures copy != null <==> DeepAtMost(old(Value(x)), CIRCULAR_LIMIT - depth)
    ensures copy != null ==>
              && csh.node == copy && fresh(Nodes(csh)) && allocated(Nodes(csh))
              && Open(parent, kids + [csh], copy)
              && Values(kids + [csh]) == old(Values(kids)) + [old(Value(x))]
    decreases x, 1
  {
    hide Nodes, NodesOf, Open, WellFormed, Values, Value;
    copy, csh := DuplicateRec(child, x, depth, true);
    if copy != null {
      assert allocated(Nodes(csh)) && allocated(NodesOf(kids));
      LinkChild(parent, last, copy, kids, csh);
    }
  }

  lemma OpenParts(parent: Node, kids: seq<Shape>, last: Node?)
    requires Open(parent, kids, last)
    ensures parent !in NodesOf(kids) && OpenList(kids, parent.child, last)
    ensures kids == [] <==> last == null
    ensures parent.child != null ==> parent.child in NodesOf(kids)
  {}

  lemma LeafShape(node: Node)
    requires node.child == null
    ensures WellFormed(Shape(node, [])) && Value(Shape(node, [])) == Tree(node.payload, [])
    ensures Nodes(Shape(node, [])) == {node}
  {
    assert Values([]) == [];
  }

  lemma NothingYet(node: Node)
    requires node.child == null
    ensures Open(node, [], null) && NodesOf([]) == {} && Values([]) == []
  {}

  lemma ShapeParts(sh: Shape)
    requires WellFormed(sh)
    ensures Children(sh.node, Heads(sh.kids)) && AllWellFormed(sh.kids)
    ensures Value(sh) == Tree(sh.node.payload, Values(sh.kids))
  {}

  lemma FirstChild(parent: Node, kids: seq<Shape>)
    requires Children(parent, Heads(kids))
    ensures parent.child == KidAt(kids, 0)
  {}

  lemma KidParts(kids: seq<Shape>, i: nat)
    requires AllWellFormed(kids) && i < |kids|
    ensures WellFormed(kids[i]) && Values(kids)[i] == Value(kids[i])
  {}

  lemma NextChild(parent: Node, kids: seq<Shape>, i: nat)
    requires Children(parent, Heads(kids)) && i < |kids|
    ensures kids[i].node.next == KidAt(kids, i + 1)
  {
    assert Heads(kids)[i] == kids[i].node;
  }

  lemma WholeShape(sh: Shape)
    ensures Value(sh) == Tree(sh.node.payload, Values(sh.kids))
    ensures Nodes(sh) == {sh.node} + NodesOf(sh.kids)
  {}
}
