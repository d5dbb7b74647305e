/**
 Case-sensitive comparison of trees (components/dsp_json/cjson/cJSON.c,
 cJSON_Compare and compare_double), and what it decides: on integers in range
 and objects whose repeated keys do not disagree, equality of everything except
 the order of object members.
 */
module JsonCompare {
  import opened CText
  import opened JsonNumber
  import opened JsonList
  import opened JsonTree

  // ---------------------------------------------------------------------
  // The comparison as a function
  // ---------------------------------------------------------------------

  function Abs(r: real): real {
    if r < 0.0 then -r else r
  }

  function Max(a: real, b: real): real {
    if a > b then a else b
  }

  /** DBL_EPSILON, two to the power -52. */
  const EPSILON: real := 1.0 / 4503599627370496.0

  predicate CloseEnough(a: real, b: real) {
    Abs(a - b) <= Max(Abs(a), Abs(b)) * EPSILON
  }

  /** Closeness: 2 to the power 52 times the difference stays within the magnitude of one of the two. */
  lemma CloseMeans(a: real, b: real)
    ensures var d := (a - b) * 4503599627370496.0;
            CloseEnough(a, b) <==>
            -a <= d <= a || a <= d <= -a || -b <= d <= b || b <= d <= -b
  {
    var d, m := (a - b) * 4503599627370496.0, Max(Abs(a), Abs(b));
    assert Abs(d) == Abs(a - b) * 4503599627370496.0;
    assert CloseEnough(a, b) <==> Abs(d) <= m;
  }

  /** Integers in range are close only if they are equal. */
  lemma CloseIntsAreEqual(a: real, b: real)
    requires PrintsAsInt(a) && PrintsAsInt(b)
    ensures CloseEnough(a, b) <==> a == b
  {
    var m, n := IntValue(a), IntValue(b);
    assert a == m as real && b == n as real;
    assert Abs(a) <= 2147483648.0 && Abs(b) <= 2147483648.0;
    assert 2147483648.0 * EPSILON < 1.0;
    if m != n {
      assert Abs(a - b) >= 1.0;
    }
  }

  ghost function Height(t: Tree): nat
    decreases t, 1
  {
    1 + HeightOf(t.kids)
  }

  ghost function HeightOf(kids: seq<Tree>): (h: nat)
    ensures forall i :: 0 <= i < |kids| ==> Height(kids[i]) <= h
    decreases kids, 0
  {
    if kids == [] then 0
    else
      var n := |kids| - 1;
      var rest := HeightOf(kids[..n]);
      assert forall i :: 0 <= i < n ==> kids[..n][i] == kids[i];
      if Height(kids[n]) > rest then Height(kids[n]) else rest
  }

  /** The position at which the look-up of `name` stops. */
  ghost function Find(kids: seq<Tree>, name: text, i: nat): (k: nat)
    requires i <= |kids|
    ensures i <= k <= |kids|
    ensures k < |kids| ==> kids[k].payload.name == None || kids[k].payload.name == Some(name)
    decreases |kids| - i
  {
    if i == |kids| || kids[i].payload.name == None || kids[i].payload.name == Some(name) then i
    else Find(kids, name, i + 1)
  }

  /** The child that a look-up by an optional name yields. */
  ghost function PositionOf(kids: seq<Tree>, name: Option<text>): (k: nat)
    ensures k < |kids| ==> kids[k].payload.name == name && name.Some?
  {
    if name == None then |kids|
    else
      var k := Find(kids, name.value, 0);
      if k < |kids| && kids[k].payload.name.Some? then k else |kids|
  }

  ghost predicate Same(a: Tree, b: Tree)
    decreases Height(a) + Height(b), 1
  {
    && a.payload.kind == b.payload.kind
    && match a.payload.kind
       case NumberKind => CloseEnough(a.payload.number, b.payload.number)
       case StringKind => a.payload.str == b.payload.str
       case ArrayKind =>
         |a.kids| == |b.kids| && forall i :: 0 <= i < |a.kids| ==> Same(a.kids[i], b.kids[i])
       case ObjectKind => Covers(a, b) && Covers(b, a)
       case _ => true
  }

  /** Every member of `a` has a member of the same name in `b`, and the two compare equal. */
  ghost predicate Covers(a: Tree, b: Tree)
    decreases Height(a) + Height(b), 0
  {
    forall i :: 0 <= i < |a.kids| ==>
      var k := PositionOf(b.kids, a.kids[i].payload.name);
      k < |b.kids| && Same(a.kids[i], b.kids[k])
  }

  // ---------------------------------------------------------------------
  // Comparing a tree with itself
  // ---------------------------------------------------------------------

  predicate IsContainer(t: Tree) {
    t.payload.kind.ArrayKind? || t.payload.kind.ObjectKind?
  }

  ghost predicate AllNamed(kids: seq<Tree>) {
    forall i :: 0 <= i < |kids| ==> kids[i].payload.name.Some?
  }

  /**
   In every object, all members are named and each one compares equal to the
   first of its name.
   */
  ghost predicate SelfSame(t: Tree) {
    match t.payload.kind
    case ArrayKind => forall i :: 0 <= i < |t.kids| ==> SelfSame(t.kids[i])
    case ObjectKind =>
      && AllNamed(t.kids)
      && forall i :: 0 <= i < |t.kids| ==>
           var k := PositionOf(t.kids, t.kids[i].payload.name);
           if k == i then SelfSame(t.kids[i]) else k < |t.kids| && Same(t.kids[i], t.kids[k])
    case _ => true
  }

  /** A tree compares equal to a tree of the same value exactly when it is `SelfSame`. */
  lemma {:induction false} SameAsItself(t: Tree)
    ensures Same(t, t) <==> SelfSame(t)
  {
    hide CloseEnough, PositionOf;
    CloseToItself(t.payload.number);
    if IsContainer(t) {
      forall i | 0 <= i < |t.kids| ensures Same(t.kids[i], t.kids[i]) <==> SelfSame(t.kids[i]) {
        SameAsItself(t.kids[i]);
      }
    }
  }

  lemma CloseToItself(r: real)
    ensures CloseEnough(r, r)
  {}

  // ---------------------------------------------------------------------
  // Equality up to the order of members
  // ---------------------------------------------------------------------

  /**
   A tree with the order of its object members forgotten, and of the members
   of one name all but the first.
   */
  datatype Canon =
    | CNull | CFalse | CTrue
    | CNumber(number: real)
    | CString(str: text)
    | CArray(items: seq<Canon>)
    | CObject(members: map<text, Canon>)

  ghost function Canonical(t: Tree): Canon
    decreases t, 1
  {
    match t.payload.kind
    case NullKind => CNull
    case FalseKind => CFalse
    case TrueKind => CTrue
    case NumberKind => CNumber(t.payload.number)
    case StringKind => CString(t.payload.str)
    case ArrayKind => CArray(seq(|t.kids|, i requires 0 <= i < |t.kids| => Canonical(t.kids[i])))
    case ObjectKind => CObject(CanonicalMembers(t.kids))
  }

  ghost function CanonicalMembers(kids: seq<Tree>): (m: map<text, Canon>)
    ensures forall i :: 0 <= i < |kids| && kids[i].payload.name.Some? ==> kids[i].payload.name.value in m
    ensures forall name :: name in m ==>
              exists i :: 0 <= i < |kids| && kids[i].payload.name == Some(name) && Canonical(kids[i]) == m[name]
    decreases kids, 0
  {
    if kids == [] then map[]
    else
      var n := |kids| - 1;
      var rest := CanonicalMembers(kids[..n]);
      assert forall i :: 0 <= i < n ==> kids[..n][i] == kids[i];
      if kids[n].payload.name == None || kids[n].payload.name.value in rest then rest
      else rest[kids[n].payload.name.value := Canonical(kids[n])]
  }

  /** All numbers that a comparison can come to are integers in range. */
  ghost predicate Integral(t: Tree) {
    && (t.payload.kind.NumberKind? ==> PrintsAsInt(t.payload.number))
    && (IsContainer(t) ==> forall i :: 0 <= i < |t.kids| ==> Integral(t.kids[i]))
  }

  /** Members of one name are equal up to the order of their own members. */
  ghost predicate Agreeing(kids: seq<Tree>) {
    forall i, j :: 0 <= i < j < |kids| && kids[i].payload.name == kids[j].payload.name ==>
      Canonical(kids[i]) == Canonical(kids[j])
  }

  /** In every object all members are named, and members of one name agree. */
  ghost predicate Coherent(t: Tree) {
    && (t.payload.kind.ObjectKind? ==> AllNamed(t.kids) && Agreeing(t.kids))
    && (IsContainer(t) ==> forall i :: 0 <= i < |t.kids| ==> Coherent(t.kids[i]))
  }

  lemma {:induction false} FindPasses(kids: seq<Tree>, name: text, i: nat, j: nat)
    requires AllNamed(kids) && i <= |kids| && i <= j < Find(kids, name, i)
    ensures kids[j].payload.name != Some(name)
    decreases j - i
  {
    if i < j { FindPasses(kids, name, i + 1, j); }
  }

  /** With all members named, a look-up yields the first member of that name, or none. */
  lemma PositionIsFirst(kids: seq<Tree>, name: text)
    requires AllNamed(kids)
    ensures var k := PositionOf(kids, Some(name));
            && k <= |kids| && (k < |kids| ==> kids[k].payload.name == Some(name))
            && forall j :: 0 <= j < k ==> kids[j].payload.name != Some(name)
  {
    forall j | 0 <= j < Find(kids, name, 0) ensures kids[j].payload.name != Some(name) {
      FindPasses(kids, name, 0, j);
    }
  }

  /** What the members of a coherent object hold under one name. */
  lemma MemberOf(kids: seq<Tree>, name: text)
    requires AllNamed(kids) && Agreeing(kids)
    ensures var k, m := PositionOf(kids, Some(name)), CanonicalMembers(kids);
            && (k < |kids| <==> name in m)
            && (k < |kids| ==> Canonical(kids[k]) == m[name])
  {
    hide CanonicalMembers, Canonical, PositionOf, Find;
    PositionIsFirst(kids, name);
    var k, m := PositionOf(kids, Some(name)), CanonicalMembers(kids);
    if name in m {
      var i :| 0 <= i < |kids| && kids[i].payload.name == Some(name) && Canonical(kids[i]) == m[name];
      assert k < i || k == i;
    }
  }

  ghost predicate Includes(m: map<text, Canon>, n: map<text, Canon>) {
    forall name :: name in m ==> name in n && m[name] == n[name]
  }

  /** The member is named, coherent, and equal to what `n` holds under its name. */
  ghost predicate HeldIn(kid: Tree, n: map<text, Canon>) {
    && kid.payload.name.Some? && Coherent(kid)
    && kid.payload.name.value in n && n[kid.payload.name.value] == Canonical(kid)
  }

  lemma AllHeldIn(kids: seq<Tree>, n: map<text, Canon>)
    ensures (forall i :: 0 <= i < |kids| ==> HeldIn(kids[i], n)) <==>
              && AllNamed(kids) && Agreeing(kids)
              && (forall i :: 0 <= i < |kids| ==> Coherent(kids[i]))
              && Includes(CanonicalMembers(kids), n)
  {
    hide CanonicalMembers, Canonical, Coherent;
    var m := CanonicalMembers(kids);
    if AllNamed(kids) && Agreeing(kids) && (forall i :: 0 <= i < |kids| ==> Coherent(kids[i])) && Includes(m, n) {
      forall i | 0 <= i < |kids| ensures HeldIn(kids[i], n) {
        var j :| 0 <= j < |kids| && kids[j].payload.name == kids[i].payload.name
                 && Canonical(kids[j]) == m[kids[i].payload.name.value];
        assert Canonical(kids[i]) == Canonical(kids[j]);
      }
    }
  }

  /** The one-sided member loop, against a coherent object: is every member of `a` held in `b`? */
  lemma {:induction false} CoversIffIncludes(a: Tree, b: Tree)
    requires Integral(a) && Integral(b) && Coherent(b) && a.payload.kind.ObjectKind? && b.payload.kind.ObjectKind?
    ensures Covers(a, b) <==> Coherent(a) && Includes(CanonicalMembers(a.kids), CanonicalMembers(b.kids))
    decreases Height(a) + Height(b), 0
  {
    hide Same, CanonicalMembers, Canonical, Height, HeightOf, PositionOf, Find, HeldIn, Integral, Agreeing, AllNamed;
    var n := CanonicalMembers(b.kids);
    forall i | 0 <= i < |a.kids|
      ensures var k := PositionOf(b.kids, a.kids[i].payload.name);
              k < |b.kids| && Same(a.kids[i], b.kids[k]) <==> HeldIn(a.kids[i], n)
    {
      MemberCovered(a, b, i);
    }
    AllHeldIn(a.kids, n);
  }

  lemma {:induction false} MemberCovered(a: Tree, b: Tree, i: nat)
    requires Integral(a) && Integral(b) && Coherent(b) && a.payload.kind.ObjectKind? && b.payload.kind.ObjectKind?
    requires i < |a.kids|
    ensures var k := PositionOf(b.kids, a.kids[i].payload.name);
            k < |b.kids| && Same(a.kids[i], b.kids[k]) <==> HeldIn(a.kids[i], CanonicalMembers(b.kids))
    decreases Height(a) + Height(b), 0, 0
  {
    hide Same, CanonicalMembers, Canonical, Find, AllNamed, Agreeing;
    var name := a.kids[i].payload.name;
    if name.Some? {
      MemberOf(b.kids, name.value);
      var k := PositionOf(b.kids, name);
      if k < |b.kids| {
        SameIffCanonical(a.kids[i], b.kids[k]);
      }
    }
  }

  /**
   Against a coherent tree of integers the comparison is true exactly for
   coherent trees that are equal to it up to the order of object members.
   */
  lemma {:induction false} SameIffCanonical(a: Tree, b: Tree)
    requires Integral(a) && Integral(b) && Coherent(b)
    ensures Same(a, b) <==> Coherent(a) && Canonical(a) == Canonical(b)
    decreases Height(a) + Height(b), 1
  {
    hide CanonicalMembers, AllNamed, Agreeing, Includes, Height, HeightOf, CloseEnough;
    if a.payload.kind == b.payload.kind {
      match a.payload.kind
      case NumberKind => CloseIntsAreEqual(a.payload.number, b.payload.number);
      case ArrayKind => ArraysSameIffCanonical(a, b);
      case ObjectKind =>
        CoversIffIncludes(a, b);
        if Coherent(a) {
          CoversIffIncludes(b, a);
        }
        MutualInclusion(CanonicalMembers(a.kids), CanonicalMembers(b.kids));
      case _ =>
    }
  }

  lemma MutualInclusion(m: map<text, Canon>, n: map<text, Canon>)
    ensures Includes(m, n) && Includes(n, m) <==> m == n
  {}

  lemma {:induction false} ArraysSameIffCanonical(a: Tree, b: Tree)
    requires Integral(a) && Integral(b) && Coherent(b) && a.payload.kind.ArrayKind? && b.payload.kind.ArrayKind?
    ensures Same(a, b) <==> Coherent(a) && Canonical(a) == Canonical(b)
    decreases Height(a) + Height(b), 0
  {
    hide CanonicalMembers, Agreeing, AllNamed, Covers, CloseEnough;
    var p, q := Canonical(a).items, Canonical(b).items;
    if |a.kids| == |b.kids| {
      forall i | 0 <= i < |a.kids| ensures Same(a.kids[i], b.kids[i]) <==> Coherent(a.kids[i]) && p[i] == q[i] {
        SameIffCanonical(a.kids[i], b.kids[i]);
      }
      if Coherent(a) && p == q {
        forall i | 0 <= i < |a.kids| ensures Same(a.kids[i], b.kids[i]) {
          assert p[i] == q[i];
        }
      }
      if Same(a, b) {
        assert forall i :: 0 <= i < |p| ==> p[i] == q[i];
      }
    }
  }

  /** A tree of integers compares equal to a tree of the same value exactly when it is coherent. */
  lemma {:induction false} SameAsItselfIffCoherent(t: Tree)
    requires Integral(t)
    ensures Same(t, t) <==> Coherent(t)
  {
    if Coherent(t) {
      SameIffCanonical(t, t);
    } else if Same(t, t) {
      if t.payload.kind.ObjectKind? {
        SameMembersAgree(t);
      } else {
        forall i | 0 <= i < |t.kids| ensures Coherent(t.kids[i]) {
          SameAsItselfIffCoherent(t.kids[i]);
        }
      }
    }
  }

  lemma {:induction false} SameMembersAgree(t: Tree)
    requires Integral(t) && t.payload.kind.ObjectKind? && Covers(t, t)
    ensures Coherent(t)
    decreases t, 0
  {
    hide Same, Find, Canonical, CanonicalMembers, Height, HeightOf;
    var kids := t.kids;
    assert AllNamed(kids) by { hide Integral; }
    forall i | 0 <= i < |kids|
      ensures var k := PositionOf(kids, kids[i].payload.name);
              k < |kids| && Coherent(kids[i]) && Canonical(kids[i]) == Canonical(kids[k])
    {
      FirstAgrees(t, i);
    }
  }

  /** Each member agrees with the first of its name. */
  lemma {:induction false} FirstAgrees(t: Tree, i: nat)
    requires Integral(t) && t.payload.kind.ObjectKind? && Covers(t, t) && AllNamed(t.kids) && i < |t.kids|
    ensures var k := PositionOf(t.kids, t.kids[i].payload.name);
            k < |t.kids| && Coherent(t.kids[i]) && Canonical(t.kids[i]) == Canonical(t.kids[k])
    decreases t, 0, 0
  {
    hide Same, Find, PositionOf, Canonical, CanonicalMembers, Height, HeightOf, Coherent;
    var name := t.kids[i].payload.name;
    var k := PositionOf(t.kids, name);
    PositionIsFirst(t.kids, name.value);
    assert k < |t.kids| && Same(t.kids[i], t.kids[k]);
    assert t.kids[k].payload.name == name && Same(t.kids[k], t.kids[k]);
    SameAsItselfIffCoherent(t.kids[k]);
    SameIffCanonical(t.kids[i], t.kids[k]);
  }

  // ---------------------------------------------------------------------
  // Distinct keys
  // ---------------------------------------------------------------------

  ghost predicate DistinctNames(kids: seq<Tree>) {
    forall i, j :: 0 <= i < j < |kids| ==> kids[i].payload.name != kids[j].payload.name
  }

  /** In every object, the members are named, each differently; numbers are integers in range. */
  ghost predicate Regular(t: Tree) {
    && (t.payload.kind.NumberKind? ==> PrintsAsInt(t.payload.number))
    && (t.payload.kind.ObjectKind? ==> AllNamed(t.kids) && DistinctNames(t.kids))
    && (IsContainer(t) ==> forall i :: 0 <= i < |t.kids| ==> Regular(t.kids[i]))
  }

  lemma {:induction false} RegularIsCoherent(t: Tree)
    requires Regular(t)
    ensures Integral(t) && Coherent(t)
  {
    hide Canonical;
    if IsContainer(t) {
      forall i | 0 <= i < |t.kids| ensures Integral(t.kids[i]) && Coherent(t.kids[i]) {
        RegularIsCoherent(t.kids[i]);
      }
    }
  }

  /**
   On trees with distinct keys and integers in range, the comparison decides
   equality up to the order of members, and a duplicate equals its source.
   */
  lemma RegularSame(a: Tree, b: Tree)
    requires Regular(a) && Regular(b)
    ensures Same(a, b) <==> Canonical(a) == Canonical(b)
    ensures Same(a, a)
  {
    hide *;
    RegularIsCoherent(a);
    RegularIsCoherent(b);
    SameIffCanonical(a, b);
    SameIffCanonical(a, a);
  }

  /** Repeated names that disagree matter: such a tree does not even equal its own duplicate. */
  lemma RepeatedNamesBreakComparison()
    ensures var p := (v: Kind) => Tree(Payload(v, 0.0, [], Some([0x61])), []);
            var t := Tree(Payload(ObjectKind, 0.0, [], None), [p(TrueKind), p(FalseKind)]);
            !Same(t, t)
  {
    var p := (v: Kind) => Tree(Payload(v, 0.0, [], Some([0x61])), []);
    var t := Tree(Payload(ObjectKind, 0.0, [], None), [p(TrueKind), p(FalseKind)]);
    var x, y := t.kids[0], t.kids[1];
    assert Canonical(x) == CTrue && Canonical(y) == CFalse;
    assert x.payload.name == y.payload.name;
    assert Integral(t);
    SameAsItselfIffCoherent(t);
  }

  // ---------------------------------------------------------------------
  // The comparison of nodes
  // ---------------------------------------------------------------------

  lemma {:induction false} SearchIsFind(kids: seq<Shape>, name: text, i: nat)
    requires i <= |kids|
    ensures Search(Heads(kids), name, i) == Find(Values(kids), name, i)
    decreases |kids| - i
  {
    if i < |kids| {
      assert Values(kids)[i].payload == Heads(kids)[i].payload;
      SearchIsFind(kids, name, i + 1);
    }
  }

  /** The child of `parent` with the given name, as a node and as a position. */
  method GetNamed(parent: Node, name: Option<text>, ghost sh: Shape) returns (item: Node?, ghost k: nat)
    requires WellFormed(sh) && sh.node == parent
    ensures k == PositionOf(old(Value(sh)).kids, name)
    ensures item == if k < |sh.kids| then sh.kids[k].node else null
  {
    hide WellFormed, Value;
    ShapeParts(sh);
    ghost var values := Values(sh.kids);
    if name.Some? {
      SearchIsFind(sh.kids, name.value, 0);
      NamesAt(sh.kids);
    }
    item, k := GetObjectItem(parent, name, Heads(sh.kids));
    if item == null {
      k := |sh.kids|;
    }
  }

  lemma NamesAt(kids: seq<Shape>)
    ensures forall i :: 0 <= i < |kids| ==> Values(kids)[i].payload == Heads(kids)[i].payload
  {}

  /** How deep a shape is; what the recursion over two trees goes down on. */
  ghost function Depth(sh: Shape): nat
    decreases sh, 1
  {
    1 + DepthOf(sh.kids)
  }

  ghost function DepthOf(kids: seq<Shape>): (d: nat)
    ensures forall i :: 0 <= i < |kids| ==> Depth(kids[i]) <= d
    decreases kids, 0
  {
    if kids == [] then 0
    else
      var n := |kids| - 1;
      var rest := DepthOf(kids[..n]);
      assert forall i :: 0 <= i < n ==> kids[..n][i] == kids[i];
      if Depth(kids[n]) > rest then Depth(kids[n]) else rest
  }

  /**
   What the comparison of two trees in memory decides. A node equals itself at
   once, whatever is below it; otherwise this is `Same`, node by node.
   */
  ghost predicate Alike(sa: Shape, sb: Shape)
    reads Nodes(sa), Nodes(sb)
    decreases Depth(sa) + Depth(sb), 1
  {
    var p, q := sa.node.payload, sb.node.payload;
    || sa.node == sb.node
    || (p.kind == q.kind
        && match p.kind
           case NumberKind => CloseEnough(p.number, q.number)
           case StringKind => p.str == q.str
           case ArrayKind => |sa.kids| == |sb.kids| && AlikeItems(sa, sb, |sa.kids|)
           case ObjectKind => AlikeMembers(sa, sb, |sa.kids|) && AlikeMembers(sb, sa, |sb.kids|)
           case _ => true)
  }

  /** The first `n` children are pairwise alike. */
  ghost predicate AlikeItems(sa: Shape, sb: Shape, n: nat)
    requires n <= |sa.kids| && n <= |sb.kids|
    reads Nodes(sa), Nodes(sb)
    decreases Depth(sa) + Depth(sb), 0
  {
    forall i :: 0 <= i < n ==> Alike(sa.kids[i], sb.kids[i])
  }

  /** Each of the first `n` members of `sa` is alike to the member of its name in `sb`. */
  ghost predicate AlikeMembers(sa: Shape, sb: Shape, n: nat)
    requires n <= |sa.kids|
    reads Nodes(sa), Nodes(sb)
    decreases Depth(sa) + Depth(sb), 0
  {
    forall i :: 0 <= i < n ==>
      var k := PositionOf(Values(sb.kids), sa.kids[i].node.payload.name);
      k < |sb.kids| && Alike(sa.kids[i], sb.kids[k])
  }

  ghost predicate ShareNothing(sa: Shape, sb: Shape) {
    Nodes(sa) !! Nodes(sb)
  }

  lemma KidsApart(sa: Shape, sb: Shape, i: nat, j: nat)
    requires ShareNothing(sa, sb) && i < |sa.kids| && j < |sb.kids|
    ensures ShareNothing(sa.kids[i], sb.kids[j])
  {}

  lemma ApartBothWays(sa: Shape, sb: Shape)
    requires ShareNothing(sa, sb)
    ensures ShareNothing(sb, sa) && sa.node != sb.node
  {}

  lemma ValueParts(sh: Shape)
    ensures Value(sh).payload == sh.node.payload && Value(sh).kids == Values(sh.kids) && |Values(sh.kids)| == |sh.kids|
    ensures forall i :: 0 <= i < |sh.kids| ==> Values(sh.kids)[i] == Value(sh.kids[i])
    ensures forall i :: 0 <= i < |sh.kids| ==> Value(sh.kids[i]).payload == sh.kids[i].node.payload
    ensures forall i :: 0 <= i < |sh.kids| ==> Depth(sh.kids[i]) < Depth(sh)
  {}

  /** On trees that share no node the values alone decide. */
  lemma {:induction false} AlikeIfApart(sa: Shape, sb: Shape)
    requires ShareNothing(sa, sb)
    ensures Alike(sa, sb) <==> Same(Value(sa), Value(sb))
    decreases Depth(sa) + Depth(sb), 1
  {
    hide Value, Values, Nodes, NodesOf, CloseEnough, Depth, DepthOf, ShareNothing;
    ValueParts(sa);
    ValueParts(sb);
    ApartBothWays(sa, sb);
    if sa.node.payload.kind.ArrayKind? && |sa.kids| == |sb.kids| {
      forall i | 0 <= i < |sa.kids|
        ensures Alike(sa.kids[i], sb.kids[i]) <==> Same(Value(sa).kids[i], Value(sb).kids[i])
      {
        KidsApart(sa, sb, i, i);
        AlikeIfApart(sa.kids[i], sb.kids[i]);
      }
    } else if sa.node.payload.kind.ObjectKind? {
      MembersIfApart(sa, sb);
      MembersIfApart(sb, sa);
    }
  }

  lemma {:induction false} MembersIfApart(sa: Shape, sb: Shape)
    requires ShareNothing(sa, sb)
    ensures AlikeMembers(sa, sb, |sa.kids|) <==> Covers(Value(sa), Value(sb))
    decreases Depth(sa) + Depth(sb), 0
  {
    hide Value, Values, Nodes, NodesOf, Alike, Same, PositionOf, Depth, DepthOf, ShareNothing;
    ValueParts(sa);
    ValueParts(sb);
    forall i | 0 <= i < |sa.kids|
      ensures var k := PositionOf(Value(sb).kids, Value(sa).kids[i].payload.name);
              k < |sb.kids| ==> (Alike(sa.kids[i], sb.kids[k]) <==> Same(Value(sa).kids[i], Value(sb).kids[k]))
    {
      var k := PositionOf(Value(sb).kids, Value(sa).kids[i].payload.name);
      if k < |sb.kids| {
        KidsApart(sa, sb, i, k);
        AlikeIfApart(sa.kids[i], sb.kids[k]);
      }
    }
  }

  lemma {:induction false} SameChain(a: seq<Node>, b: seq<Node>, i: nat)
    requires Linked(a) && Linked(b) && i <= |a| && i <= |b|
    requires a[..i] == b[..i]
    requires (if i < |a| then a[i] else null) == (if i < |b| then b[i] else null)
    ensures a == b
    decreases |a| - i
  {
    if i < |a| {
      assert a[i].next == Next(a, i) && b[i].next == Next(b, i);
      assert a[..i + 1] == a[..i] + [a[i]] && b[..i + 1] == b[..i] + [b[i]];
      SameChain(a, b, i + 1);
    }
  }

  /** A node is the root of only one well-formed shape. */
  lemma {:induction false} ShapeIsUnique(sa: Shape, sb: Shape)
    requires WellFormed(sa) && WellFormed(sb) && sa.node == sb.node
    ensures sa == sb
    decreases sa
  {
    hide Nodes, NodesOf;
    SameChain(Heads(sa.kids), Heads(sb.kids), 0);
    forall i | 0 <= i < |sa.kids| ensures sa.kids[i] == sb.kids[i] {
      assert Heads(sa.kids)[i] == Heads(sb.kids)[i];
      ShapeIsUnique(sa.kids[i], sb.kids[i]);
    }
  }

  /**
   Where both trees are coherent trees of integers, sharing nodes makes no
   difference: the values decide.
   */
  lemma {:induction false} AlikeIfCoherent(sa: Shape, sb: Shape)
    requires WellFormed(sa) && WellFormed(sb)
    requires Integral(Value(sa)) && Coherent(Value(sa)) && Integral(Value(sb)) && Coherent(Value(sb))
    ensures Alike(sa, sb) <==> Same(Value(sa), Value(sb))
    decreases Depth(sa) + Depth(sb), 1
  {
    hide Value, Values, Nodes, NodesOf, CloseEnough, Depth, DepthOf, WellFormed, Integral, Coherent;
    ValueParts(sa);
    ValueParts(sb);
    if sa.node == sb.node {
      ShapeIsUnique(sa, sb);
      SameAsItselfIffCoherent(Value(sa));
    } else if sa.node.payload.kind.ArrayKind? && sb.node.payload.kind.ArrayKind? && |sa.kids| == |sb.kids| {
      forall i | 0 <= i < |sa.kids|
        ensures Alike(sa.kids[i], sb.kids[i]) <==> Same(Value(sa).kids[i], Value(sb).kids[i])
      {
        KidsCoherent(sa);
        KidsCoherent(sb);
        AlikeIfCoherent(sa.kids[i], sb.kids[i]);
      }
    } else if sa.node.payload.kind.ObjectKind? && sb.node.payload.kind.ObjectKind? {
      MembersIfCoherent(sa, sb);
      MembersIfCoherent(sb, sa);
    }
  }

  lemma KidsCoherent(sh: Shape)
    requires WellFormed(sh) && IsContainer(Value(sh)) && Integral(Value(sh)) && Coherent(Value(sh))
    ensures forall i :: 0 <= i < |sh.kids| ==>
              WellFormed(sh.kids[i]) && Integral(Value(sh.kids[i])) && Coherent(Value(sh.kids[i]))
  {
    hide Value, Values, Nodes, NodesOf;
    ValueParts(sh);
  }

  lemma {:induction false} MembersIfCoherent(sa: Shape, sb: Shape)
    requires WellFormed(sa) && WellFormed(sb)
    requires sa.node.payload.kind.ObjectKind? && sb.node.payload.kind.ObjectKind?
    requires Integral(Value(sa)) && Coherent(Value(sa)) && Integral(Value(sb)) && Coherent(Value(sb))
    ensures AlikeMembers(sa, sb, |sa.kids|) <==> Covers(Value(sa), Value(sb))
    decreases Depth(sa) + Depth(sb), 0
  {
    hide Value, Values, Nodes, NodesOf, Alike, Same, PositionOf, Depth, DepthOf, WellFormed, Integral, Coherent;
    ValueParts(sa);
    ValueParts(sb);
    KidsCoherent(sa);
    KidsCoherent(sb);
    forall i | 0 <= i < |sa.kids|
      ensures var k := PositionOf(Value(sb).kids, Value(sa).kids[i].payload.name);
              k < |sb.kids| ==> (Alike(sa.kids[i], sb.kids[k]) <==> Same(Value(sa).kids[i], Value(sb).kids[k]))
    {
      var k := PositionOf(Value(sb).kids, Value(sa).kids[i].payload.name);
      if k < |sb.kids| {
        AlikeIfCoherent(sa.kids[i], sb.kids[k]);
      }
    }
  }

  lemma KidFacts(sh: Shape, i: nat)
    requires WellFormed(sh) && i < |sh.kids|
    ensures WellFormed(sh.kids[i]) && Depth(sh.kids[i]) < Depth(sh)
    ensures sh.kids[i].node.next == KidAt(sh.kids, i + 1)
    ensures Nodes(sh.kids[i]) <= Nodes(sh)
  {
    NextChild(sh.node, sh.kids, i);
  }

  lemma RootFacts(sh: Shape)
    requires WellFormed(sh)
    ensures sh.node.child == KidAt(sh.kids, 0)
    ensures sh.node in Nodes(sh) && NodesOf(sh.kids) <= Nodes(sh)
  {}

  lemma AlikeItemsStep(sa: Shape, sb: Shape, n: nat)
    requires n < |sa.kids| && n < |sb.kids|
    ensures AlikeItems(sa, sb, n + 1) <==> AlikeItems(sa, sb, n) && Alike(sa.kids[n], sb.kids[n])
    ensures AlikeItems(sa, sb, 0)
    ensures |sa.kids| == |sb.kids| && AlikeItems(sa, sb, |sa.kids|) ==> Alike(sa.kids[n], sb.kids[n])
  {
    hide Alike, Nodes, NodesOf;
  }

  lemma NoItems(sa: Shape, sb: Shape)
    ensures AlikeItems(sa, sb, 0) && AlikeMembers(sa, sb, 0)
  {}

  lemma AlikeMembersStep(sa: Shape, sb: Shape, n: nat)
    requires n < |sa.kids|
    ensures var k := PositionOf(Value(sb).kids, sa.kids[n].node.payload.name);
            var held := k < |sb.kids| && Alike(sa.kids[n], sb.kids[k]);
            && (AlikeMembers(sa, sb, n + 1) <==> AlikeMembers(sa, sb, n) && held)
            && (AlikeMembers(sa, sb, |sa.kids|) ==> held)
  {
    hide Alike, Nodes, NodesOf, PositionOf, Values;
  }

  /** Compares two trees in memory, which may overlap or be one and the same. */
  method Compare(a: Node?, ghost sa: Shape, b: Node?, ghost sb: Shape) returns (r: bool)
    requires a != null ==> WellFormed(sa) && sa.node == a
    requires b != null ==> WellFormed(sb) && sb.node == b
    ensures r <==> a != null && b != null && Alike(sa, sb)
    decreases if a != null && b != null then Depth(sa) + Depth(sb) else 0, 1
  {
    hide Value, WellFormed, Nodes, NodesOf, CloseEnough, Depth, AlikeItems, AlikeMembers;
    if a == null || b == null || a.payload.kind != b.payload.kind {
      return false;
    }
    if a == b {
      return true;
    }
    RootFacts(sa);
    RootFacts(sb);
    assert allocated(Nodes(sa)) && allocated(Nodes(sb));
    match a.payload.kind {
      case NullKind => r := true;
      case FalseKind => r := true;
      case TrueKind => r := true;
      case NumberKind =>
        r := CloseEnough(a.payload.number, b.payload.number);
      case StringKind =>
        r := a.payload.str == b.payload.str;
      case ArrayKind =>
        r := CompareElements(a, sa, b, sb);
      case ObjectKind =>
        r := CompareMembers(a, sa, b, sb);
        if r {
          r := CompareMembers(b, sb, a, sa);
        }
    }
  }

  /** The element loop: both lists are walked in step until one ends. */
  method CompareElements(a: Node, ghost sa: Shape, b: Node, ghost sb: Shape) returns (r: bool)
    requires WellFormed(sa) && sa.node == a && WellFormed(sb) && sb.node == b
    ensures r <==> |sa.kids| == |sb.kids| && AlikeItems(sa, sb, |sa.kids|)
    decreases Depth(sa) + Depth(sb), 0
  {
    hide Value, WellFormed, Alike, AlikeItems, Depth, Nodes, NodesOf;
    RootFacts(sa);
    RootFacts(sb);
    NoItems(sa, sb);
    assert allocated(Nodes(sa)) && allocated(Nodes(sb));
    var p, q := a.child, b.child;
    ghost var i := 0;
    while p != null && q != null
      invariant 0 <= i <= |sa.kids| && i <= |sb.kids|
      invariant WellFormed(sa) && WellFormed(sb)
      invariant p == KidAt(sa.kids, i) && q == KidAt(sb.kids, i)
      invariant AlikeItems(sa, sb, i)
      decreases |sa.kids| - i
    {
      KidFacts(sa, i);
      KidFacts(sb, i);
      var same := Compare(p, sa.kids[i], q, sb.kids[i]);
      AlikeItemsStep(sa, sb, i);
      if !same {
        return false;
      }
      KidFacts(sa, i);
      KidFacts(sb, i);
      p := p.next;
      q := q.next;
      i := i + 1;
    }
    return p == q;
  }

  /** The member loop: every member of `a` is looked up in `b` and compared. */
  method CompareMembers(a: Node, ghost sa: Shape, b: Node, ghost sb: Shape) returns (r: bool)
    requires WellFormed(sa) && sa.node == a && WellFormed(sb) && sb.node == b
    ensures r <==> AlikeMembers(sa, sb, |sa.kids|)
    decreases Depth(sa) + Depth(sb), 0
  {
    hide Value, WellFormed, Alike, AlikeMembers, Depth, PositionOf, Nodes, NodesOf;
    RootFacts(sa);
    RootFacts(sb);
    NoItems(sa, sb);
    assert allocated(Nodes(sa)) && allocated(Nodes(sb));
    ghost var tb := Value(sb);
    var p := a.child;
    ghost var i := 0;
    while p != null
      invariant 0 <= i <= |sa.kids|
      invariant WellFormed(sa) && WellFormed(sb) && Value(sb) == tb
      invariant p == KidAt(sa.kids, i)
      invariant AlikeMembers(sa, sb, i)
      decreases |sa.kids| - i
    {
      KidFacts(sa, i);
      var q, k := GetNamed(b, p.payload.name, sb);
      if q == null {
        AlikeMembersStep(sa, sb, i);
        return false;
      }
      KidFacts(sa, i);
      KidFacts(sb, k);
      var same := Compare(p, sa.kids[i], q, sb.kids[k]);
      AlikeMembersStep(sa, sb, i);
      if !same {
        return false;
      }
      KidFacts(sa, i);
      p := p.next;
      i := i + 1;
    }
    return true;
  }
}
