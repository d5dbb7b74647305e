/**
 The JSON engine end to end, on trees of nodes
 (components/dsp_json/cjson/cJSON.c): printing then parsing, and duplicating
 then comparing.
 */
module JsonCycle {
  import opened CText
  import opened JsonNumber
  import opened JsonValue
  import opened JsonList
  import opened JsonTree
  import opened JsonNodes
  import opened JsonParse
  import JsonRoundTrip
  import JsonPrint
  import JsonCompare

  /**
   Prints a tree and parses the text. Unless the text is too long to print, the
   result is a well-formed tree of fresh nodes that holds the same value.
   */
  method PrintAndParse(item: Node, format: bool, ghost sh: Shape, ghost v: Json) returns (copy: Node?, ghost csh: Shape)
    requires sh.node == item && Represents(sh, v, None)
    requires Plain(v) && NestsWithin(v, NESTING_LIMIT)
    ensures copy != null <==> |Render(v, format, 0)| + 2 <= INT_MAX
    ensures copy != null ==> csh.node == copy && fresh(Nodes(csh)) && WellFormed(csh) && Value(csh) == old(Value(sh))
  {
    hide Render, Plain, NestsWithin, Parse, Represents, NodesOf, WellFormed, Value, TreeOf;
    RepresentsParts(sh, v, None);
    csh := sh;
    var printed := JsonPrint.Print(item, format, true, sh, v, None);
    if printed == None {
      return null, csh;
    }
    RenderNulFree(v, format, 0);
    JsonRoundTrip.TreeRoundTrip(v, format);
    copy, csh := ParseCString(printed.value);
    RepresentsParts(csh, v, None);
  }

  /**
   A duplicate shares no node with its source. It compares equal to it exactly
   when each object member compares equal to the first of its name; on integers
   in range, exactly when members of one name agree.
   */
  method DuplicateAndCompare(item: Node, ghost sh: Shape) returns (copy: Node?, equal: bool)
    requires sh.node == item && WellFormed(sh)
    ensures copy != null <==> DeepAtMost(old(Value(sh)), CIRCULAR_LIMIT)
    ensures copy != null ==> (equal <==> JsonCompare.SelfSame(old(Value(sh))))
    ensures copy != null && JsonCompare.Integral(old(Value(sh))) ==> (equal <==> JsonCompare.Coherent(old(Value(sh))))
  {
    hide WellFormed, Value, JsonCompare.Integral, JsonCompare.Coherent, JsonCompare.SelfSame, JsonCompare.Same,
         JsonCompare.Alike, DeepAtMost, NodesOf;
    ghost var csh;
    ghost var was := Value(sh);
    assert allocated(Nodes(sh));
    copy, csh := DuplicateRec(item, sh, 0, true);
    if copy == null {
      return null, false;
    }
    assert JsonCompare.ShareNothing(sh, csh);
    JsonCompare.RootFacts(sh);
    JsonCompare.RootFacts(csh);
    assert allocated(Nodes(csh));
    equal := JsonCompare.Compare(item, sh, copy, csh);
    assert Value(sh) == was && Value(csh) == was;
    JsonCompare.AlikeIfApart(sh, csh);
    JsonCompare.SameAsItself(was);
    if JsonCompare.Integral(was) {
      JsonCompare.SameAsItselfIffCoherent(was);
    }
  }
}
