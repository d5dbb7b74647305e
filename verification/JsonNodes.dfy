/**
 How a tree of nodes in memory holds a JSON value. The parser is proved to
 build such trees and the printer to read them.
 */
module JsonNodes {
  import opened CText
  import opened JsonValue
  import opened JsonList
  import opened JsonTree

  /** A node after cJSON_New_Item; its kind is set before anything reads it. */
  function NewItem(name: Option<text>): Payload {
    Payload(NullKind, 0.0, [], name)
  }

  function PayloadOf(v: Json, name: Option<text>): Payload {
    match v
    case Null => Payload(NullKind, 0.0, [], name)
    case False => Payload(FalseKind, 0.0, [], name)
    case True => Payload(TrueKind, 0.0, [], name)
    case Number(r) => Payload(NumberKind, r, [], name)
    case String(s) => Payload(StringKind, 0.0, s, name)
    case Array(_) => Payload(ArrayKind, 0.0, [], name)
    case Object(_) => Payload(ObjectKind, 0.0, [], name)
  }

  /** The tree of nodes for a value that is stored under a name, or under none. */
  ghost function TreeOf(v: Json, name: Option<text>): Tree
    decreases v, 1
  {
    match v
    case Array(items) => Tree(PayloadOf(v, name), ItemTrees(items))
    case Object(ms) => Tree(PayloadOf(v, name), MemberTrees(ms))
    case _ => Tree(PayloadOf(v, name), [])
  }

  ghost function ItemTrees(items: seq<Json>): (ts: seq<Tree>)
    ensures |ts| == |items| && forall i :: 0 <= i < |items| ==> ts[i] == TreeOf(items[i], None)
    decreases items, 0
  {
    seq(|items|, i requires 0 <= i < |items| => TreeOf(items[i], None))
  }

  ghost function MemberTrees(ms: seq<Member>): (ts: seq<Tree>)
    ensures |ts| == |ms| && forall i :: 0 <= i < |ms| ==> ts[i] == TreeOf(ms[i].value, Some(ms[i].key))
    decreases ms, 0
  {
    seq(|ms|, i requires 0 <= i < |ms| => TreeOf(ms[i].value, Some(ms[i].key)))
  }

  /** The nodes of the shape are linked as it says and hold this value under this name. */
  ghost predicate Represents(sh: Shape, v: Json, name: Option<text>)
    reads sh.node`child, sh.node`payload, NodesOf(sh.kids)
  {
    WellFormed(sh) && Value(sh) == TreeOf(v, name)
  }

  /** Nothing is lost: the same nodes cannot hold two values. */
  lemma {:induction false} TreeOfInjective(v: Json, n: Option<text>, w: Json, m: Option<text>)
    requires TreeOf(v, n) == TreeOf(w, m)
    ensures v == w && n == m
  {
    assert TreeOf(v, n).payload == PayloadOf(v, n) && TreeOf(w, m).payload == PayloadOf(w, m);
    match v
    case Array(items) =>
      var t, u := ItemTrees(items), ItemTrees(w.items);
      assert TreeOf(v, n).kids == t && TreeOf(w, m).kids == u;
      forall i | 0 <= i < |items| ensures items[i] == w.items[i] {
        assert t[i] == u[i];
        TreeOfInjective(items[i], None, w.items[i], None);
      }
      assert items == w.items;
    case Object(ms) =>
      var t, u := MemberTrees(ms), MemberTrees(w.members);
      assert TreeOf(v, n).kids == t && TreeOf(w, m).kids == u;
      forall i | 0 <= i < |ms| ensures ms[i] == w.members[i] {
        assert t[i] == u[i];
        TreeOfInjective(ms[i].value, Some(ms[i].key), w.members[i].value, Some(w.members[i].key));
      }
      assert ms == w.members;
    case _ =>
  }

  // ---------------------------------------------------------------------
  // Building
  // ---------------------------------------------------------------------

  predicate IsLeaf(v: Json) {
    !v.Array? && !v.Object?
  }

  /** Fills a blank node with a value that needs no children. */
  method SetLeaf(item: Node, ghost v: Json, payload: Payload)
    requires IsLeaf(v) && payload == PayloadOf(v, item.payload.name) && item.child == null
    modifies item`payload
    ensures Represents(Shape(item, []), v, old(item.payload.name)) && NodesOf([]) == {}
  {
    item.payload := payload;
    LeafShape(item);
  }

  lemma NewItemLeaf(item: Node)
    requires item.child == null
    ensures WellFormed(Shape(item, [])) && Nodes(Shape(item, [])) == {item}
  {
    LeafShape(item);
  }

  /** Nothing has been read yet. */
  lemma EmptyList()
    ensures OpenList([], null, null) && NodesOf([]) == {} && Values([]) == [] == ItemTrees([]) == MemberTrees([])
  {}

  /** `item` is linked behind the finished nodes and waits for its value. */
  ghost predicate Awaiting(kids: seq<Shape>, item: Node, head: Node?)
    reads NodesOf(kids), item`next, item`prev
  {
    && AllWellFormed(kids) && item !in NodesOf(kids)
    && head == (if kids == [] then item else kids[0].node)
    && OpenLinks(Heads(kids) + [item])
  }

  lemma AwaitingParts(kids: seq<Shape>, item: Node, head: Node?)
    requires Awaiting(kids, item, head)
    ensures AllWellFormed(kids) && item !in NodesOf(kids)
    ensures OpenLinks(Heads(kids) + [item]) && head == if kids == [] then item else kids[0].node
  {}

  lemma IsAwaiting(kids: seq<Shape>, item: Node, head: Node?)
    requires OpenList(kids + [Shape(item, [])], head, item)
    ensures Awaiting(kids, item, head)
  {
    var leaf := Shape(item, []);
    var all := kids + [leaf];
    Appended(kids, leaf);
    forall i | 0 <= i < |kids| ensures WellFormed(kids[i]) && Nodes(kids[i]) !! Nodes(leaf) {
      assert all[i] == kids[i] && all[|kids|] == leaf;
    }
    DisjointFromAll(kids, leaf);
    forall i, j | 0 <= i < j < |kids| ensures Nodes(kids[i]) !! Nodes(kids[j]) {
      assert all[i] == kids[i] && all[j] == kids[j];
    }
  }

  lemma {:induction false} DisjointFromAll(kids: seq<Shape>, x: Shape)
    requires forall i :: 0 <= i < |kids| ==> Nodes(kids[i]) !! Nodes(x)
    ensures NodesOf(kids) !! Nodes(x)
  {
    if kids != [] {
      var n := |kids| - 1;
      assert forall i :: 0 <= i < n ==> kids[..n][i] == kids[i];
      DisjointFromAll(kids[..n], x);
    }
  }

  /** The last node of a list under construction has got its value. */
  lemma LastGrown(kids: seq<Shape>, x: Shape, head: Node?)
    requires AllWellFormed(kids) && WellFormed(x) && NodesOf(kids) !! Nodes(x)
    requires OpenLinks(Heads(kids) + [x.node])
    requires head == if kids == [] then x.node else kids[0].node
    ensures OpenList(kids + [x], head, x.node)
    ensures NodesOf(kids + [x]) == NodesOf(kids) + Nodes(x)
    ensures Values(kids + [x]) == Values(kids) + [Value(x)]
  {
    hide WellFormed, Nodes, NodesOf, Value, Values, OpenLinks;
    WellFormedAppended(kids, x);
    Appended(kids, x);
    ValuesAppended(kids, x);
  }

  lemma ItemTreesGrow(items: seq<Json>, v: Json)
    ensures ItemTrees(items + [v]) == ItemTrees(items) + [TreeOf(v, None)]
  {
    hide TreeOf;
  }

  lemma MemberTreesGrow(ms: seq<Member>, m: Member)
    ensures MemberTrees(ms + [m]) == MemberTrees(ms) + [TreeOf(m.value, Some(m.key))]
  {
    hide TreeOf;
  }

  /** Puts a new node at the end of the list under construction. */
  method AttachLast(head: Node?, current: Node?, newItem: Node, ghost kids: seq<Shape>) returns (newHead: Node)
    requires OpenList(kids, head, current)
    requires newItem.next == null && newItem.child == null && newItem !in NodesOf(kids)
    modifies Maybe(current)`next, newItem`prev
    ensures OpenList(kids + [Shape(newItem, [])], newHead, newItem)
    ensures Values(kids) == old(Values(kids))
  {
    hide *;
    ghost var leaf := Shape(newItem, []);
    NewItemLeaf(newItem);
    HeadTells(kids, head, current);
    MaybeOnly(current);
    if head == null {
      OpenSingle(leaf);
      assert kids + [leaf] == [leaf];
      return newItem;
    }
    Attach(current, newItem, kids, head, leaf);
    ValuesAppended(kids, leaf);
    assert Values(kids) == Values(kids + [leaf])[..|kids|];
    return head;
  }

  /** Allocates a node and puts it at the end of the list under construction. */
  method AttachNew(head: Node?, current: Node?, ghost kids: seq<Shape>) returns (newHead: Node, newItem: Node)
    requires OpenList(kids, head, current) && allocated(NodesOf(kids))
    modifies Maybe(current)`next
    ensures fresh(newItem) && newItem !in NodesOf(kids)
    ensures newItem.payload == NewItem(None) && newItem.child == null
    ensures Awaiting(kids, newItem, newHead)
    ensures Values(kids) == old(Values(kids))
  {
    hide *;
    NewItemIs(None);
    newItem := new Node(NewItem(None));
    newHead := AttachLast(head, current, newItem, kids);
    IsAwaiting(kids, newItem, newHead);
  }

  lemma HeadTells(kids: seq<Shape>, head: Node?, current: Node?)
    requires OpenList(kids, head, current)
    ensures (head == null <==> kids == []) && (current == null <==> kids == [])
  {}

  /** The end of an array or object: closes the list and hangs it below its parent. */
  method Adopt(item: Node, head: Node?, current: Node?, payload: Payload, ghost kids: seq<Shape>)
    requires OpenList(kids, head, current) && item !in NodesOf(kids)
    modifies Maybe(head)`prev, item`payload, item`child
    ensures WellFormed(Shape(item, kids)) && Value(Shape(item, kids)) == Tree(payload, old(Values(kids)))
  {
    hide *;
    MaybeOnly(head);
    HeadIsChild(kids, head, current);
    HeadInside(kids, head, current);
    CloseList(head, current, kids);
    ghost var was := Values(kids);
    item.payload := payload;
    item.child := head;
    assert AllWellFormed(kids) && Linked(Heads(kids)) && Values(kids) == was;
    AdoptedList(item, kids);
    FinishedShape(item, kids);
    WholeShape(Shape(item, kids));
  }

  lemma HeadInside(kids: seq<Shape>, head: Node?, last: Node?)
    requires OpenList(kids, head, last)
    ensures head != null ==> head in NodesOf(kids)
    ensures last != null ==> last in NodesOf(kids)
    ensures forall n :: n in Heads(kids) ==> n in NodesOf(kids)
  {}

  lemma AdoptedList(item: Node, kids: seq<Shape>)
    requires Linked(Heads(kids)) && item.child == if Heads(kids) == [] then null else Heads(kids)[0]
    ensures Children(item, Heads(kids))
  {}

  lemma NewItemIs(name: Option<text>)
    ensures NewItem(name) == Payload(NullKind, 0.0, [], name)
  {}

  lemma RepresentsParts(sh: Shape, v: Json, name: Option<text>)
    requires Represents(sh, v, name)
    ensures WellFormed(sh) && Value(sh) == TreeOf(v, name)
    ensures Nodes(sh) == {sh.node} + NodesOf(sh.kids)
  {}

  method FinishArray(item: Node, head: Node?, current: Node?, ghost kids: seq<Shape>, ghost items: seq<Json>)
    requires OpenList(kids, head, current) && item !in NodesOf(kids) && Values(kids) == ItemTrees(items)
    requires item.payload == NewItem(item.payload.name)
    modifies Maybe(head)`prev, item`payload, item`child
    ensures Represents(Shape(item, kids), Array(items), old(item.payload.name))
  {
    hide WellFormed, Value, OpenList, NodesOf, Values, ItemTrees;
    Adopt(item, head, current, item.payload.(kind := ArrayKind), kids);
  }

  method FinishObject(item: Node, head: Node?, current: Node?, ghost kids: seq<Shape>, ghost ms: seq<Member>)
    requires OpenList(kids, head, current) && item !in NodesOf(kids) && Values(kids) == MemberTrees(ms)
    requires item.payload == NewItem(item.payload.name)
    modifies Maybe(head)`prev, item`payload, item`child
    ensures Represents(Shape(item, kids), Object(ms), old(item.payload.name))
  {
    hide WellFormed, Value, OpenList, NodesOf, Values, MemberTrees;
    Adopt(item, head, current, item.payload.(kind := ObjectKind), kids);
  }

  // ---------------------------------------------------------------------
  // Reading
  // ---------------------------------------------------------------------

  /** The nodes, in order, represent these values, and each leads to the next. */
  ghost predicate ItemsHeld(kids: seq<Shape>, items: seq<Json>)
    reads NodesOf(kids)
  {
    && |kids| == |items|
    && (forall i :: 0 <= i < |kids| ==> Represents(kids[i], items[i], None))
    && (forall i {:trigger kids[i].node.next} :: 0 <= i < |kids| ==> kids[i].node.next == KidAt(kids, i + 1))
  }

  ghost predicate MembersHeld(kids: seq<Shape>, ms: seq<Member>)
    reads NodesOf(kids)
  {
    && |kids| == |ms|
    && (forall i :: 0 <= i < |kids| ==> Represents(kids[i], ms[i].value, Some(ms[i].key)))
    && (forall i {:trigger kids[i].node.next} :: 0 <= i < |kids| ==> kids[i].node.next == KidAt(kids, i + 1))
  }

  lemma PayloadHeld(sh: Shape, v: Json, name: Option<text>)
    requires Represents(sh, v, name)
    ensures sh.node.payload == PayloadOf(v, name)
  {}

  lemma ArrayHeld(sh: Shape, items: seq<Json>, name: Option<text>)
    requires Represents(sh, Array(items), name)
    ensures ItemsHeld(sh.kids, items) && sh.node.child == KidAt(sh.kids, 0)
  {
    hide WellFormed, Value;
    ShapeParts(sh);
    HeldLinks(sh);
    var ts := Values(sh.kids);
    assert ts == ItemTrees(items);
    forall i | 0 <= i < |sh.kids| ensures Represents(sh.kids[i], items[i], None) {
      KidParts(sh.kids, i);
      assert ts[i] == ItemTrees(items)[i];
    }
  }

  lemma ObjectHeld(sh: Shape, ms: seq<Member>, name: Option<text>)
    requires Represents(sh, Object(ms), name)
    ensures MembersHeld(sh.kids, ms) && sh.node.child == KidAt(sh.kids, 0)
  {
    hide WellFormed, Value;
    ShapeParts(sh);
    HeldLinks(sh);
    var ts := Values(sh.kids);
    assert ts == MemberTrees(ms);
    forall i | 0 <= i < |sh.kids| ensures Represents(sh.kids[i], ms[i].value, Some(ms[i].key)) {
      KidParts(sh.kids, i);
      assert ts[i] == MemberTrees(ms)[i];
    }
  }

  lemma HeldLinks(sh: Shape)
    requires Children(sh.node, Heads(sh.kids))
    ensures sh.node.child == KidAt(sh.kids, 0)
    ensures forall i {:trigger sh.kids[i].node.next} :: 0 <= i < |sh.kids| ==>
              sh.kids[i].node.next == KidAt(sh.kids, i + 1)
  {
    FirstChild(sh.node, sh.kids);
    forall i | 0 <= i < |sh.kids| ensures sh.kids[i].node.next == KidAt(sh.kids, i + 1) {
      NextChild(sh.node, sh.kids, i);
    }
  }

  lemma ItemHeld(kids: seq<Shape>, items: seq<Json>, i: nat)
    requires ItemsHeld(kids, items) && i < |kids|
    ensures |kids| == |items| && Represents(kids[i], items[i], None) && kids[i].node.next == KidAt(kids, i + 1)
    ensures NodesOf(kids[i].kids) <= NodesOf(kids)
  {
    InsideAll(kids, i);
  }

  lemma MemberHeld(kids: seq<Shape>, ms: seq<Member>, i: nat)
    requires MembersHeld(kids, ms) && i < |kids|
    ensures |kids| == |ms| && Represents(kids[i], ms[i].value, Some(ms[i].key))
    ensures kids[i].node.next == KidAt(kids, i + 1)
    ensures kids[i].node.payload.name == Some(ms[i].key)
    ensures NodesOf(kids[i].kids) <= NodesOf(kids)
  {
    InsideAll(kids, i);
    PayloadHeld(kids[i], ms[i].value, Some(ms[i].key));
  }

  lemma HeldLengths(kids: seq<Shape>, items: seq<Json>)
    requires ItemsHeld(kids, items)
    ensures |kids| == |items|
  {}

  lemma MemberLengths(kids: seq<Shape>, ms: seq<Member>)
    requires MembersHeld(kids, ms)
    ensures |kids| == |ms|
  {}
}
