/**
 Looking up, appending and deleting members of whole trees
 (components/dsp_json/cjson/cJSON.c, add_item_to_object,
 cJSON_DeleteItemFromObjectCaseSensitive and the functions they use).
 */
module JsonEdit {
  import opened CText
  import opened JsonValue
  import opened JsonList
  import opened JsonTree
  import opened JsonNodes

  // ---------------------------------------------------------------------
  // Look-up
  // ---------------------------------------------------------------------

  function FirstKey(ms: seq<Member>, key: text): (k: nat)
    ensures k <= |ms|
    ensures k < |ms| ==> ms[k].key == key
    ensures forall j :: 0 <= j < k ==> ms[j].key != key
  {
    if ms == [] || ms[0].key == key then 0 else 1 + FirstKey(ms[1..], key)
  }

  lemma FirstKeyIs(ms: seq<Member>, key: text, k: nat)
    requires k <= |ms| && (k < |ms| ==> ms[k].key == key)
    requires forall j :: 0 <= j < k ==> ms[j].key != key
    ensures FirstKey(ms, key) == k
  {}

  /** Case-sensitive look-up: the children of arrays have no names, other values have no children. */
  function LookUp(t: Json, key: text): Option<Json> {
    match t
    case Object(ms) =>
      var k := FirstKey(ms, key);
      if k < |ms| then Some(ms[k].value) else None
    case _ => None
  }

  /** The value of the first member of that name, in an object. */
  lemma LookUpMeans(t: Json, key: text, v: Json)
    ensures LookUp(t, key) == Some(v) <==>
            t.Object? && exists k :: 0 <= k < |t.members| && t.members[k] == Member(key, v)
                                     && forall j :: 0 <= j < k ==> t.members[j].key != key
  {
    if t.Object? {
      if k :| 0 <= k < |t.members| && t.members[k] == Member(key, v)
              && forall j :: 0 <= j < k ==> t.members[j].key != key {
        FirstKeyIs(t.members, key, k);
      }
      var f := FirstKey(t.members, key);
      assert f < |t.members| ==> t.members[f] == Member(key, t.members[f].value);
    }
  }

  lemma {:induction false} SearchStops(nodes: seq<Node>, name: text, i: nat, k: nat)
    requires i <= k <= |nodes|
    requires forall j :: i <= j < k ==> nodes[j].payload.name.Some? && nodes[j].payload.name != Some(name)
    requires k < |nodes| ==> nodes[k].payload.name == None || nodes[k].payload.name == Some(name)
    ensures Search(nodes, name, i) == k
    decreases k - i
  {
    if i < k { SearchStops(nodes, name, i + 1, k); }
  }

  lemma MemberSearch(kids: seq<Shape>, ms: seq<Member>, key: text)
    requires MembersHeld(kids, ms)
    ensures Search(Heads(kids), key, 0) == FirstKey(ms, key)
  {
    var k := FirstKey(ms, key);
    forall j | 0 <= j < |kids| ensures Heads(kids)[j].payload.name == Some(ms[j].key) {
      MemberHeld(kids, ms, j);
    }
    SearchStops(Heads(kids), key, 0, k);
  }

  lemma ItemSearch(kids: seq<Shape>, items: seq<Json>, key: text)
    requires ItemsHeld(kids, items)
    ensures Search(Heads(kids), key, 0) == 0
    ensures kids != [] ==> Heads(kids)[0].payload.name == None
  {
    if kids != [] {
      ItemHeld(kids, items, 0);
      PayloadHeld(kids[0], items[0], None);
    }
  }

  /** The member node of that name; `x` is its shape. */
  method GetMember(obj: Node?, key: Option<text>, ghost sh: Shape, ghost v: Json, ghost name: Option<text>)
    returns (item: Node?, ghost k: nat)
    requires obj != null ==> sh.node == obj && Represents(sh, v, name)
    ensures item != null <==> obj != null && key.Some? && LookUp(v, key.value).Some?
    ensures item != null ==>
              && v.Object? && k == FirstKey(v.members, key.value) < |sh.kids| == |v.members|
              && item == sh.kids[k].node && Represents(sh.kids[k], LookUp(v, key.value).value, key)
    ensures obj != null && key.Some? && v.Object? ==> k == FirstKey(v.members, key.value)
  {
    hide Represents, NodesOf, FirstKey, Heads, Children, AllWellFormed, Value, Values, Linked;
    k := 0;
    if obj == null || key == None {
      return null, 0;
    }
    ghost var kids := sh.kids;
    RepresentsParts(sh, v, name);
    ShapeParts(sh);
    match v {
      case Object(ms) =>
        ObjectHeld(sh, ms, name);
        MemberSearch(kids, ms, key.value);
        MemberLengths(kids, ms);
        ghost var f := FirstKey(ms, key.value);
        if f < |kids| {
          MemberHeld(kids, ms, f);
        }
      case Array(items) =>
        ArrayHeld(sh, items, name);
        ItemSearch(kids, items, key.value);
      case _ =>
        NoKids(sh, v, name);
    }
    assert allocated(NodesOf(kids));
    item, k := GetObjectItem(obj, key, Heads(kids));
  }

  lemma NoKids(sh: Shape, v: Json, name: Option<text>)
    requires Represents(sh, v, name) && IsLeaf(v)
    ensures sh.kids == []
  {
    assert Value(sh).kids == TreeOf(v, name).kids == [];
  }

  // ---------------------------------------------------------------------
  // Appending and detaching below a parent
  // ---------------------------------------------------------------------

  lemma Inside(parent: Node, kids: seq<Shape>)
    requires WellFormed(Shape(parent, kids))
    ensures Children(parent, Heads(kids)) && AllWellFormed(kids) && parent !in NodesOf(kids)
    ensures forall n :: n in Heads(kids) ==> n in NodesOf(kids)
    ensures RootsOutside(kids)
  {
    RootsAreOutside(kids);
  }

  /** Appends a finished tree to the children of a node. */
  method AppendKid(parent: Node, item: Node, ghost kids: seq<Shape>, ghost x: Shape)
    requires WellFormed(Shape(parent, kids)) && WellFormed(x) && x.node == item && item.next == null
    requires Nodes(x) !! NodesOf(kids) && parent !in Nodes(x)
    modifies parent`child, item`next, item`prev, Heads(kids)`next, Heads(kids)`prev
    ensures WellFormed(Shape(parent, kids + [x]))
    ensures Values(kids + [x]) == old(Values(kids)) + [old(Value(x))]
  {
    hide WellFormed, AllWellFormed, Values, Value, Nodes, NodesOf, Linked, Distinct;
    ghost var all := kids + [x];
    Inside(parent, kids);
    Appended(kids, x);
    WellFormedAppended(kids, x);
    ValuesAppended(kids, x);
    RootsAreOutside(all);
    assert item !in Heads(kids);
    MaybeOnly(parent);
    MaybeOnly(item);
    assert allocated(NodesOf(all));
    var ok := AddItemToArray(parent, item, Heads(kids));
    forall i | 0 <= i < |all|
      ensures WellFormed(all[i]) == old(WellFormed(all[i])) && Value(all[i]) == old(Value(all[i]))
    {
      InsideAll(all, i);
      OnlyRoots(all, i);
    }
    StillWellFormed(all);
    assert Values(all) == old(Values(all)) by { SameElements(all, old(Values(all))); }
    FinishedShape(parent, all);
  }

  /** No root of the list lies inside the `i`-th shape. */
  lemma OnlyRoots(kids: seq<Shape>, i: nat)
    requires RootsOutside(kids) && i < |kids|
    ensures forall n :: n in Heads(kids) ==> n !in NodesOf(kids[i].kids)
  {}

  lemma StillWellFormed(kids: seq<Shape>)
    requires forall i :: 0 <= i < |kids| ==> WellFormed(kids[i])
    requires forall i, j :: 0 <= i < j < |kids| ==> Nodes(kids[i]) !! Nodes(kids[j])
    ensures AllWellFormed(kids)
  {}

  lemma SameElements(kids: seq<Shape>, ts: seq<Tree>)
    requires |ts| == |kids| && forall i :: 0 <= i < |kids| ==> Value(kids[i]) == ts[i]
    ensures Values(kids) == ts
  {}

  lemma EachApart(kids: seq<Shape>)
    requires AllWellFormed(kids)
    ensures forall i :: 0 <= i < |kids| ==> WellFormed(kids[i])
    ensures forall i, j :: 0 <= i < j < |kids| ==> Nodes(kids[i]) !! Nodes(kids[j])
  {}

  /** Takes one child out of the list; it is left without siblings. */
  method DetachKid(parent: Node, item: Node, ghost kids: seq<Shape>, ghost k: nat)
    requires WellFormed(Shape(parent, kids)) && k < |kids| && kids[k].node == item
    modifies parent`child, Heads(kids)`next, Heads(kids)`prev
    ensures WellFormed(Shape(parent, Without(kids, k)))
    ensures Values(Without(kids, k)) == Without(old(Values(kids)), k)
    ensures NodesOf(Without(kids, k)) <= NodesOf(kids)
    ensures item.next == null && item.prev == null
  {
    hide WellFormed, AllWellFormed, Values, Value, Nodes, NodesOf, Linked, Distinct;
    ghost var rest := Without(kids, k);
    Inside(parent, kids);
    EachApart(kids);
    MaybeOnly(parent);
    assert allocated(NodesOf(kids));
    var detached := DetachItemViaPointer(parent, item, Heads(kids), k);
    forall i | 0 <= i < |kids|
      ensures WellFormed(kids[i]) == old(WellFormed(kids[i])) && Value(kids[i]) == old(Value(kids[i]))
    {
      InsideAll(kids, i);
      OnlyRoots(kids, i);
    }
    assert forall i :: 0 <= i < |rest| ==> rest[i] == kids[if i < k then i else i + 1];
    StillWellFormed(rest);
    SameElements(rest, Without(old(Values(kids)), k));
    assert Heads(rest) == Without(Heads(kids), k);
    FewerNodes(rest, kids);
    FinishedShape(parent, rest);
  }

  lemma {:induction false} FewerNodes(some: seq<Shape>, all: seq<Shape>)
    requires forall i :: 0 <= i < |some| ==> some[i] in all
    ensures NodesOf(some) <= NodesOf(all)
  {
    if some != [] {
      var n := |some| - 1;
      assert forall i :: 0 <= i < n ==> some[..n][i] == some[i];
      FewerNodes(some[..n], all);
      var j :| 0 <= j < |all| && all[j] == some[n];
      InsideAll(all, j);
    }
  }

  // ---------------------------------------------------------------------
  // Building and changing objects
  // ---------------------------------------------------------------------

  /** A new node that represents a value without children. */
  method Create(ghost v: Json, payload: Payload) returns (item: Node, ghost sh: Shape)
    requires payload == PayloadOf(v, None)
    requires v == Array([]) || v == Object([]) || IsLeaf(v)
    ensures fresh(item) && item.next == null && sh == Shape(item, []) && Nodes(sh) == {item}
    ensures Represents(sh, v, None)
  {
    item := new Node(payload);
    sh := Shape(item, []);
    LeafShape(item);
    assert ItemTrees([]) == [] && MemberTrees([]) == [];
  }

  method CreateObject() returns (item: Node, ghost sh: Shape)
    ensures fresh(item) && item.next == null && sh == Shape(item, []) && Nodes(sh) == {item}
    ensures Represents(sh, Object([]), None)
  {
    item, sh := Create(Object([]), Payload(ObjectKind, 0.0, [], None));
  }

  method CreateArray() returns (item: Node, ghost sh: Shape)
    ensures fresh(item) && item.next == null && sh == Shape(item, []) && Nodes(sh) == {item}
    ensures Represents(sh, Array([]), None)
  {
    item, sh := Create(Array([]), Payload(ArrayKind, 0.0, [], None));
  }

  method CreateString(str: text) returns (item: Node, ghost sh: Shape)
    ensures fresh(item) && item.next == null && sh == Shape(item, []) && Nodes(sh) == {item}
    ensures Represents(sh, String(str), None)
  {
    item, sh := Create(String(str), Payload(StringKind, 0.0, str, None));
  }

  /** Gives a tree a new name. */
  method SetName(item: Node, key: text, ghost x: Shape, ghost v: Json, ghost name: Option<text>)
    requires x.node == item && Represents(x, v, name)
    modifies item`payload
    ensures Represents(x, v, Some(key))
  {
    hide NodesOf;
    PayloadHeld(x, v, name);
    RepresentsParts(x, v, name);
    item.payload := item.payload.(name := Some(key));
  }

  /** The members without the first one of that name. */
  function Deleted(ms: seq<Member>, key: text): seq<Member> {
    var k := FirstKey(ms, key);
    if k < |ms| then Without(ms, k) else ms
  }

  lemma ObjectParts(sh: Shape, ms: seq<Member>, name: Option<text>)
    requires Represents(sh, Object(ms), name)
    ensures WellFormed(sh) && sh.node.payload == PayloadOf(Object(ms), name)
    ensures Values(sh.kids) == MemberTrees(ms) && |sh.kids| == |ms|
  {
    WholeShape(sh);
  }

  lemma ObjectMade(sh: Shape, ms: seq<Member>, name: Option<text>)
    requires WellFormed(sh) && sh.node.payload == PayloadOf(Object(ms), name) && Values(sh.kids) == MemberTrees(ms)
    ensures Represents(sh, Object(ms), name)
  {
    WholeShape(sh);
  }

  lemma MemberTreesWithout(ms: seq<Member>, k: nat)
    requires k < |ms|
    ensures MemberTrees(Without(ms, k)) == Without(MemberTrees(ms), k)
  {
    hide TreeOf, MemberTrees, Without;
    WithoutLength(ms, k);
    WithoutLength(MemberTrees(ms), k);
    forall i | 0 <= i < |ms| - 1 ensures MemberTrees(Without(ms, k))[i] == Without(MemberTrees(ms), k)[i] {
      WithoutAt(ms, k, i);
      WithoutAt(MemberTrees(ms), k, i);
    }
  }

  lemma WithoutLength<T>(s: seq<T>, k: nat)
    requires k < |s|
    ensures |Without(s, k)| == |s| - 1
  {}

  lemma WithoutAt<T>(s: seq<T>, k: nat, i: nat)
    requires k < |s| && i < |s| - 1
    ensures |Without(s, k)| == |s| - 1
    ensures Without(s, k)[i] == s[if i < k then i else i + 1]
  {}

  /** Detaches and deletes the first member of that name, if there is one. */
  method DeleteMember(obj: Node, key: text, ghost sh: Shape, ghost ms: seq<Member>, ghost name: Option<text>)
    returns (ghost after: Shape)
    requires sh.node == obj && Represents(sh, Object(ms), name)
    modifies obj`child, Heads(sh.kids)`next, Heads(sh.kids)`prev
    ensures after.node == obj && Represents(after, Object(Deleted(ms, key)), name)
    ensures NodesOf(after.kids) <= NodesOf(sh.kids)
  {
    hide Represents, NodesOf, FirstKey, WellFormed, Values, MemberTrees, Heads;
    assert allocated(NodesOf(sh.kids));
    ObjectParts(sh, ms, name);
    var item, k := GetMember(obj, Some(key), sh, Object(ms), name);
    after := sh;
    if item != null {
      ObjectParts(sh, ms, name);
      DetachKid(obj, item, sh.kids, k);
      after := Shape(obj, Without(sh.kids, k));
      MemberTreesWithout(ms, k);
      ObjectMade(after, Deleted(ms, key), name);
    }
  }

  lemma HeadsInside(kids: seq<Shape>)
    ensures forall n :: n in Heads(kids) ==> n in NodesOf(kids)
  {}

  /** Appends a tree under a key, whatever name it had; refused exactly for a missing argument or the object itself. */
  method AddItemToObject(obj: Node?, key: Option<text>, item: Node?, ghost sh: Shape, ghost ms: seq<Member>,
                         ghost name: Option<text>, ghost x: Shape, ghost v: Json, ghost itemName: Option<text>)
    returns (ok: bool, ghost after: Shape)
    requires obj != null ==> sh.node == obj && Represents(sh, Object(ms), name)
    requires item != null ==> x.node == item && Represents(x, v, itemName) && (item != obj ==> item.next == null)
    requires obj != null && item != null && item != obj ==> Nodes(x) !! Nodes(sh)
    modifies Maybe(obj)`child, Maybe(item)`payload, Maybe(item)`next, Maybe(item)`prev
    modifies Heads(sh.kids)`next, Heads(sh.kids)`prev
    ensures ok <==> obj != null && key.Some? && item != null && obj != item
    ensures ok ==> after.node == obj && Represents(after, Object(ms + [Member(key.value, v)]), name)
    ensures ok ==> NodesOf(after.kids) == NodesOf(sh.kids) + Nodes(x)
    ensures !ok && obj != null ==> Represents(sh, Object(ms), name)
  {
    hide Represents, NodesOf, WellFormed, Values, MemberTrees, Heads, Value;
    after := sh;
    if obj == null || key == None || item == null || obj == item {
      return false, after;
    }
    assert allocated(NodesOf(sh.kids));
    ObjectParts(sh, ms, name);
    HeadsInside(sh.kids);
    RepresentsParts(x, v, itemName);
    WholeShape(sh);
    SetName(item, key.value, x, v, itemName);
    assert Represents(sh, Object(ms), name);
    ObjectParts(sh, ms, name);
    RepresentsParts(x, v, key);
    AppendKid(obj, item, sh.kids, x);
    after := Shape(obj, sh.kids + [x]);
    MemberTreesGrow(ms, Member(key.value, v));
    Appended(sh.kids, x);
    ObjectMade(after, ms + [Member(key.value, v)], name);
    ok := true;
  }

  lemma ArrayParts(sh: Shape, items: seq<Json>, name: Option<text>)
    requires Represents(sh, Array(items), name)
    ensures WellFormed(sh) && sh.node.payload == PayloadOf(Array(items), name) && Values(sh.kids) == ItemTrees(items)
  {
    WholeShape(sh);
  }

  lemma ArrayMade(sh: Shape, items: seq<Json>, name: Option<text>)
    requires WellFormed(sh) && sh.node.payload == PayloadOf(Array(items), name) && Values(sh.kids) == ItemTrees(items)
    ensures Represents(sh, Array(items), name)
  {
    WholeShape(sh);
  }

  /** Appends a nameless tree to an array. */
  method AddToArray(arr: Node, item: Node, ghost sh: Shape, ghost items: seq<Json>, ghost x: Shape, ghost v: Json)
    returns (ghost after: Shape)
    requires sh.node == arr && Represents(sh, Array(items), None)
    requires x.node == item && Represents(x, v, None) && item.next == null
    requires Nodes(x) !! Nodes(sh)
    modifies arr`child, item`next, item`prev, Heads(sh.kids)`next, Heads(sh.kids)`prev
    ensures after.node == arr && Represents(after, Array(items + [v]), None)
    ensures NodesOf(after.kids) == NodesOf(sh.kids) + Nodes(x)
  {
    hide Represents, NodesOf, WellFormed, Values, ItemTrees, Heads, Value;
    ArrayParts(sh, items, None);
    RepresentsParts(x, v, None);
    WholeShape(sh);
    AppendKid(arr, item, sh.kids, x);
    after := Shape(arr, sh.kids + [x]);
    ItemTreesGrow(items, v);
    Appended(sh.kids, x);
    ArrayMade(after, items + [v], None);
  }
}
