/**
 The doubly linked child lists of cJSON nodes (components/dsp_json/cjson/cJSON.c,
 get_array_item to cJSON_ReplaceItemViaPointer). A list is well formed when the
 `next` chain ends in null, every `prev` but the head's points at the
 predecessor, and the head's `prev` points at the last node. Each operation is
 proved to turn the well-formed list of a sequence of nodes into the well-formed
 list of the sequence the operation stands for.
 */
module JsonList {
  import opened CText

  datatype Kind = NullKind | FalseKind | TrueKind | NumberKind | StringKind | ArrayKind | ObjectKind

  /** What a node carries besides its links. A missing name is the null `string` field. */
  datatype Payload = Payload(kind: Kind, number: real, str: text, name: Option<text>)

  class Node {
    var next: Node?
    var prev: Node?
    var child: Node?
    var payload: Payload

    constructor (payload: Payload)
      ensures this.payload == payload && next == null && prev == null && child == null
    {
      next, prev, child := null, null, null;
      this.payload := payload;
    }
  }

  ghost predicate Distinct(nodes: seq<Node>) {
    forall i, j :: 0 <= i < j < |nodes| ==> nodes[i] != nodes[j]
  }

  lemma SamePosition(nodes: seq<Node>, i: nat, j: nat)
    requires Distinct(nodes) && i < |nodes| && j < |nodes|
    ensures nodes[i] == nodes[j] <==> i == j
  {}

  /** The node that follows position `i`; nothing follows the last one. */
  ghost function Next(nodes: seq<Node>, i: nat): Node?
    requires i < |nodes|
  {
    if i + 1 < |nodes| then nodes[i + 1] else null
  }

  /** The node in front of position `i`; for the head this is the last node. */
  ghost function Prev(nodes: seq<Node>, i: nat): Node?
    requires i < |nodes|
  {
    if i > 0 then nodes[i - 1] else nodes[|nodes| - 1]
  }

  ghost predicate Linked(nodes: seq<Node>)
    reads nodes
  {
    && Distinct(nodes)
    && (forall i {:trigger nodes[i].next} :: 0 <= i < |nodes| ==> nodes[i].next == Next(nodes, i))
    && (forall i {:trigger nodes[i].prev} :: 0 <= i < |nodes| ==> nodes[i].prev == Prev(nodes, i))
  }

  /** `nodes` are the children of `parent`, in order. */
  ghost predicate Children(parent: Node, nodes: seq<Node>)
    reads parent`child, nodes
  {
    parent.child == (if nodes == [] then null else nodes[0]) && Linked(nodes)
  }

  // ---------------------------------------------------------------------
  // Look-up
  // ---------------------------------------------------------------------

  method GetArrayItem(parent: Node?, index: nat, ghost nodes: seq<Node>) returns (item: Node?)
    requires parent != null ==> Children(parent, nodes)
    ensures item == if parent != null && index < |nodes| then nodes[index] else null
  {
    if parent == null {
      return null;
    }
    var i := index;
    item := parent.child;
    ghost var at := 0;
    while item != null && i > 0
      invariant 0 <= at <= |nodes| && i + at == index && i >= 0
      invariant item == if at < |nodes| then nodes[at] else null
      decreases i
    {
      i := i - 1;
      item := item.next;
      at := at + 1;
    }
  }

  /** The position of the first node that stops a search for `name`: a match, or a node without a name. */
  ghost function Search(nodes: seq<Node>, name: text, i: nat): (k: nat)
    requires i <= |nodes|
    reads nodes
    ensures i <= k <= |nodes|
    decreases |nodes| - i
  {
    if i == |nodes| || nodes[i].payload.name == None || nodes[i].payload.name == Some(name) then i
    else Search(nodes, name, i + 1)
  }

  /** Case-sensitive look-up: the first child of that name, unless a nameless child comes before it. */
  method GetObjectItem(parent: Node?, name: Option<text>, ghost nodes: seq<Node>) returns (item: Node?, ghost k: nat)
    requires parent != null ==> Children(parent, nodes)
    ensures parent == null || name == None ==> item == null
    ensures parent != null && name.Some? ==>
              k == Search(nodes, name.value, 0)
              && item == if k < |nodes| && nodes[k].payload.name.Some?
                         then nodes[Search(nodes, name.value, 0)]
                         else null
  {
    k := 0;
    if parent == null || name == None {
      return null, 0;
    }
    item := parent.child;
    while item != null && item.payload.name != None && item.payload.name != name
      invariant 0 <= k <= |nodes|
      invariant item == if k < |nodes| then nodes[k] else null
      invariant Search(nodes, name.value, k) == Search(nodes, name.value, 0)
      decreases |nodes| - k
    {
      item := item.next;
      k := k + 1;
    }
    if item == null || item.payload.name == None {
      item := null;
    }
  }

  // ---------------------------------------------------------------------
  // Changing a list
  // ---------------------------------------------------------------------

  ghost function Maybe(node: Node?): set<Node> {
    if node == null then {} else {node}
  }

  lemma MaybeOnly(node: Node?)
    ensures Maybe(node) == if node == null then {} else {node}
  {}

  /**
   Appends a node through the head's `prev`. The result is the list with the
   node at the end exactly when the node was not in the list yet, and the list
   was empty or the node had no successor: only the empty case clears the
   node's `next`, and nothing looks for the node in the list.
   */
  method AddItemToArray(parent: Node?, item: Node?, ghost nodes: seq<Node>) returns (ok: bool)
    requires parent != null ==> Children(parent, nodes)
    modifies Maybe(parent)`child, Maybe(item)`next, Maybe(item)`prev, nodes`next, nodes`prev
    ensures ok <==> item != null && parent != null && parent != item
    ensures ok ==> (Children(parent, nodes + [item]) <==> item !in nodes && (nodes == [] || old(item.next) == null))
    ensures !ok && parent != null ==> Children(parent, nodes)
  {
    if item == null || parent == null || parent == item {
      return false;
    }
    var child := parent.child;
    ghost var all := nodes + [item];
    if child == null {
      parent.child := item;
      item.prev := item;
      item.next := null;
    } else if child.prev != null {
      assert child == nodes[0] && child.prev == nodes[|nodes| - 1];
      child.prev.next := item;
      item.prev := child.prev;
      parent.child.prev := item;
      if item !in nodes {
        assert all[|nodes|].next == old(item.next);
      } else {
        Repeated(nodes, |nodes|, item);
        assert With(nodes, |nodes|, item) == all;
      }
    }
    return true;
  }

  /** The sequence without the node at position `k`. */
  function Without<T>(s: seq<T>, k: nat): seq<T>
    requires k < |s|
  {
    s[..k] + s[k + 1..]
  }

  lemma DistinctWithout(nodes: seq<Node>, k: nat)
    requires Distinct(nodes) && k < |nodes|
    ensures Distinct(Without(nodes, k))
  {}

  /**
   Takes a child out of its list. A node that is in no list is left alone, and
   so is the list; a node of another list is not expected.
   */
  method DetachItemViaPointer(parent: Node?, item: Node?, ghost nodes: seq<Node>, ghost k: nat)
    returns (detached: Node?)
    requires parent != null ==> Children(parent, nodes)
    requires parent != null && item != null && item in nodes ==> k < |nodes| && nodes[k] == item
    requires item != null && item !in nodes ==> item.prev == null
    modifies Maybe(parent)`child, nodes`next, nodes`prev
    ensures detached == if parent == null || item == null || item !in nodes then null else item
    ensures detached != null ==> Children(parent, Without(nodes, k)) && item.next == null && item.prev == null
    ensures detached == null && parent != null ==> Children(parent, nodes)
  {
    if parent == null || item == null || (item != parent.child && item.prev == null) {
      return null;
    }
    hide Distinct;
    ghost var n := |nodes|;
    SamePosition(nodes, k, 0);
    if item != parent.child {
      assert item.prev == nodes[k - 1];
      item.prev.next := item.next;
    }
    if item.next != null {
      assert item.next == nodes[k + 1];
      item.next.prev := item.prev;
    }
    if item == parent.child {
      parent.child := item.next;
    } else if item.next == null {
      assert parent.child == nodes[0] && k == n - 1;
      parent.child.prev := item.prev;
    }
    item.prev := null;
    item.next := null;
    ghost var rest := Without(nodes, k);
    DistinctWithout(nodes, k);
    forall i | 0 <= i < |rest| ensures rest[i].next == Next(rest, i) && rest[i].prev == Prev(rest, i) {
      var j := if i < k then i else i + 1;
      assert rest[i] == nodes[j];
      SamePosition(nodes, j, k);
      SamePosition(nodes, j, 0);
      if k > 0 { SamePosition(nodes, j, k - 1); }
      if k + 1 < n { SamePosition(nodes, j, k + 1); }
    }
    return item;
  }

  /** The sequence with `x` put at position `k`. */
  function With<T>(s: seq<T>, k: nat, x: T): seq<T>
    requires k <= |s|
  {
    s[..k] + [x] + s[k..]
  }

  /**
   Inserts at a position; behind the last one it appends, as `AddItemToArray`
   does. In front of a child the result is the list with the node in that place
   exactly when it was not in the list yet.
   */
  method InsertItemInArray(parent: Node?, which: int, newItem: Node?, ghost nodes: seq<Node>) returns (ok: bool)
    requires parent != null ==> Children(parent, nodes)
    modifies Maybe(parent)`child, Maybe(newItem)`next, Maybe(newItem)`prev, nodes`next, nodes`prev
    ensures ok <==> which >= 0 && newItem != null && parent != null && (parent != newItem || which < |nodes|)
    ensures ok && which < |nodes| ==> (Children(parent, With(nodes, which, newItem)) <==> newItem !in nodes)
    ensures ok && which >= |nodes| ==>
              (Children(parent, nodes + [newItem]) <==> newItem !in nodes && (nodes == [] || old(newItem.next) == null))
    ensures !ok && parent != null ==> Children(parent, nodes)
  {
    if which < 0 || newItem == null {
      return false;
    }
    var after := GetArrayItem(parent, which, nodes);
    if after == null {
      ok := AddItemToArray(parent, newItem, nodes);
      return;
    }
    if after != parent.child && after.prev == null {
      return false;
    }
    InsertBefore(parent, newItem, after, nodes, which);
    return true;
  }

  lemma DistinctWith(nodes: seq<Node>, k: nat, x: Node)
    requires Distinct(nodes) && k <= |nodes| && x !in nodes
    ensures Distinct(With(nodes, k, x))
  {}

  /** A node that is in the list twice makes it no list. */
  lemma Repeated(nodes: seq<Node>, k: nat, x: Node)
    requires k <= |nodes| && x in nodes
    ensures !Distinct(With(nodes, k, x))
  {
    var j :| 0 <= j < |nodes| && nodes[j] == x;
    assert With(nodes, k, x)[k] == With(nodes, k, x)[if j < k then j else j + 1];
  }

  method InsertBefore(parent: Node, newItem: Node, after: Node, ghost nodes: seq<Node>, ghost k: nat)
    requires Children(parent, nodes) && k < |nodes| && nodes[k] == after
    modifies parent`child, newItem`next, newItem`prev, nodes`next, nodes`prev
    ensures Children(parent, With(nodes, k, newItem)) <==> newItem !in nodes
  {
    hide Distinct;
    SamePosition(nodes, k, 0);
    newItem.next := after;
    newItem.prev := after.prev;
    after.prev := newItem;
    if after == parent.child {
      parent.child := newItem;
    } else {
      newItem.prev.next := newItem;
    }
    ghost var all := With(nodes, k, newItem);
    if newItem in nodes {
      Repeated(nodes, k, newItem);
    } else {
      DistinctWith(nodes, k, newItem);
      assert newItem.prev == Prev(nodes, k) && (k > 0 ==> nodes[k - 1].next == newItem);
      forall i | 0 <= i < |all| ensures all[i].next == Next(all, i) && all[i].prev == Prev(all, i) {
        if i != k {
          var j := if i < k then i else i - 1;
          assert all[i] == nodes[j];
          SamePosition(nodes, j, k);
          if k > 0 { SamePosition(nodes, j, k - 1); }
        }
      }
    }
  }

  lemma DistinctReplaced(nodes: seq<Node>, k: nat, x: Node)
    requires Distinct(nodes) && k < |nodes| && x !in nodes
    ensures Distinct(nodes[k := x])
  {}

  lemma ReplacedTwice(nodes: seq<Node>, k: nat, x: Node)
    requires k < |nodes| && x in nodes && x != nodes[k]
    ensures !Distinct(nodes[k := x])
  {
    var j :| 0 <= j < |nodes| && nodes[j] == x;
    assert nodes[k := x][j] == nodes[k := x][k];
  }

  /**
   Puts a node in the place of a child. The result is the list with the
   replacement in that place exactly when the replacement is the child itself or
   not in the list yet. Nothing checks that the item is a child: a loose one,
   with no siblings, makes the head's `prev` point at the replacement.
   */
  method ReplaceItemViaPointer(parent: Node?, item: Node?, replacement: Node?, ghost nodes: seq<Node>, ghost k: nat)
    returns (ok: bool)
    requires parent != null ==> Children(parent, nodes)
    requires parent != null && item != null && item in nodes ==> k < |nodes| && nodes[k] == item
    requires item != null && item !in nodes ==> item.next == null && item.prev == null
    modifies Maybe(parent)`child, Maybe(item)`next, Maybe(item)`prev
    modifies Maybe(replacement)`next, Maybe(replacement)`prev, nodes`next, nodes`prev
    ensures ok <==> parent != null && item != null && replacement != null && nodes != []
    ensures ok && item in nodes ==>
              (Children(parent, nodes[k := replacement]) <==> replacement == item || replacement !in nodes)
    ensures ok && item !in nodes ==> (Children(parent, nodes) <==> replacement == item || nodes == [replacement])
    ensures ok && replacement != item ==> item.next == null && item.prev == null
    ensures !ok && parent != null ==> Children(parent, nodes)
  {
    if parent == null || parent.child == null || replacement == null || item == null {
      return false;
    }
    if replacement == item {
      assert item in nodes ==> nodes[k := replacement] == nodes;
      return true;
    }
    hide Distinct;
    replacement.next := item.next;
    replacement.prev := item.prev;
    if replacement.next != null {
      replacement.next.prev := replacement;
    }
    if parent.child == item {
      if parent.child.prev == parent.child {
        replacement.prev := replacement;
      }
      parent.child := replacement;
    } else {
      if replacement.prev != null {
        replacement.prev.next := replacement;
      }
      if replacement.next == null {
        parent.child.prev := replacement;
      }
    }
    item.next := null;
    item.prev := null;
    if item in nodes {
      ghost var all := nodes[k := replacement];
      if replacement in nodes {
        ReplacedTwice(nodes, k, replacement);
      } else {
        SamePosition(nodes, k, 0);
        DistinctReplaced(nodes, k, replacement);
        forall i | 0 <= i < |all| ensures all[i].next == Next(all, i) && all[i].prev == Prev(all, i) {
          if i != k {
            assert all[i] == nodes[i];
            SamePosition(nodes, i, k);
            SamePosition(nodes, i, 0);
            if k > 0 { SamePosition(nodes, i, k - 1); }
            if k + 1 < |nodes| { SamePosition(nodes, i, k + 1); }
          }
        }
      }
    } else {
      assert nodes[0].prev == replacement;
    }
    return true;
  }

  /** Detaching what was inserted, and inserting what was detached, restore the sequence. */
  lemma InsertDetachInverse<T>(s: seq<T>, k: nat, x: T)
    requires k <= |s|
    ensures With(s, k, x)[k] == x && Without(With(s, k, x), k) == s
    ensures k < |s| ==> With(Without(s, k), k, s[k]) == s
  {
    assert Without(With(s, k, x), k) == s[..k] + s[k..];
  }

  /** Inserting a node and detaching it again leaves the list as it was. */
  method InsertThenDetach(parent: Node, which: nat, newItem: Node, ghost nodes: seq<Node>)
    requires Children(parent, nodes) && newItem !in nodes && newItem != parent
    requires which >= |nodes| ==> newItem.next == null
    modifies parent`child, newItem`next, newItem`prev, nodes`next, nodes`prev
    ensures Children(parent, nodes) && newItem.next == null && newItem.prev == null
  {
    hide Linked, Distinct;
    ghost var k := if which < |nodes| then which else |nodes|;
    InsertDetachInverse(nodes, k, newItem);
    Widened(nodes, k, newItem);
    var ok := InsertItemInArray(parent, which, newItem, nodes);
    assert k == |nodes| ==> With(nodes, k, newItem) == nodes + [newItem];
    var item := DetachItemViaPointer(parent, newItem, With(nodes, k, newItem), k);
  }

  /** Detaching a child and inserting it in its old place leaves the list as it was. */
  method DetachThenInsert(parent: Node, item: Node, ghost nodes: seq<Node>, which: nat)
    requires Children(parent, nodes) && which < |nodes| && nodes[which] == item && item != parent
    modifies parent`child, nodes`next, nodes`prev
    ensures Children(parent, nodes)
  {
    hide Linked, Distinct;
    InsertDetachInverse(nodes, which, item);
    NotLeft(nodes, which);
    var detached := DetachItemViaPointer(parent, item, nodes, which);
    assert which + 1 == |nodes| ==> Without(nodes, which) + [item] == nodes;
    var ok := InsertItemInArray(parent, which, item, Without(nodes, which));
  }

  lemma Widened(nodes: seq<Node>, k: nat, x: Node)
    requires k <= |nodes|
    ensures |With(nodes, k, x)| == |nodes| + 1 && x in With(nodes, k, x)
    ensures forall n :: n in With(nodes, k, x) ==> n == x || n in nodes
  {}

  lemma NotLeft(nodes: seq<Node>, k: nat)
    requires Linked(nodes) && k < |nodes|
    ensures nodes[k] !in Without(nodes, k) && |Without(nodes, k)| == |nodes| - 1
    ensures forall n :: n in Without(nodes, k) ==> n in nodes
  {}
}
