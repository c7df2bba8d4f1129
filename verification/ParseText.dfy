/** `cJSON_ParseWithOpts` and `cJSON_Parse`. */
module ParseText {
  import opened Bytes
  import opened Heap
  import opened StringParser
  import Parser
  import Deleter
  import Spec = ParserSpec

  /**
    `cJSON_ParseWithOpts`.  The call succeeds exactly when the text is accepted and no request
    it makes fails, and the structure holds the value of the text.  A failed call leaves the
    ledger as it was and a successful one adds exactly the blocks reached from the root.
   */
  method ParseWithOpts(t: seq<byte>, toTheEnd: bool, a: Allocator)
    returns (root: Node?, end: nat, ghost kids: seq<Shape>)
    requires a.Valid() && !Spec.ParseText(t, toTheEnd).Undefined?
    modifies a
    ensures a.Valid() && end <= |t|
    ensures root != null <==> Spec.ParseText(t, toTheEnd).Parsed? && !Denied(a)
    ensures (forall n: nat :: a.succeeds(n)) && Spec.ParseText(t, toTheEnd).Parsed? ==> root != null
    ensures root == null ==> a.live == old(a.live)
    ensures root != null ==>
      var s := ShapeOf(root, kids);
      && Spec.ParseText(t, toTheEnd) == Spec.Parsed(ValueOf(s), t[end..])
      && Holds(s) && Linked([s]) && AllApart([s]) && Whole([s]) && Typed(s) && s.name == null
      && fresh(Foot(s)) && a.live == old(a.live) + Foot(s)
  {
    root, end, kids := ParseOrDiscard(t, toTheEnd, a);
    DeniedIsCounted(a);
  }

  /** The parse, and what is thrown away when it fails. */
  method ParseOrDiscard(t: seq<byte>, toTheEnd: bool, a: Allocator)
    returns (root: Node?, end: nat, ghost kids: seq<Shape>)
    requires a.Valid() && !Spec.ParseText(t, toTheEnd).Undefined?
    modifies a
    ensures a.Valid() && end <= |t|
    ensures root == null ==>
      a.live == old(a.live) && (Spec.ParseText(t, toTheEnd).Rejected? || a.failed > old(a.failed))
    ensures root != null ==>
      var s := ShapeOf(root, kids);
      && a.failed == old(a.failed)
      && Spec.ParseText(t, toTheEnd) == Spec.Parsed(ValueOf(s), t[end..])
      && Holds(s) && Linked([s]) && AllApart([s]) && Whole([s]) && Typed(s) && s.name == null
      && fresh(Foot(s)) && a.live == old(a.live) + Foot(s)
  {
    hide Feet, Spec.ParseValue, Skip;
    end, kids := 0, [];
    root := a.NewNode();
    if root == null {
      return;
    }
    assert t[0..] == t;
    var c := root;
    var v := Parser.SkipBlanks(t, 0);
    var ok;
    ok, v, kids := ParseRoot(c, t, v, a);
    if !ok {
      Discard(c, a, ShapeOf(c, kids));
      root := null;
      return;
    }
    if toTheEnd {
      v := Parser.SkipBlanks(t, v);
      AtHead(t, v);
      if At(t, v) != NUL {
        Discard(c, a, ShapeOf(c, kids));
        root := null;
        return;
      }
    }
    RootLinked(ShapeOf(c, kids));
    end := v;
  }

  /** `parse_value` into the root. */
  method ParseRoot(c: Node, t: seq<byte>, i: nat, a: Allocator) returns (ok: bool, end: nat, ghost kids: seq<Shape>)
    requires a.Valid() && i <= |t| && !Spec.ParseValue(t[i..]).Undefined?
    requires c in a.live && c.IsZero()
    modifies a, c`kind, c`child, c`valuestring, c`valueint, c`valuedouble
    ensures a.Valid() && end <= |t|
    ensures var s := ShapeOf(c, kids);
            && a.live == old(a.live) + Foot(s) && fresh(Foot(s) - {c}) && a !in Foot(s)
            && Holds(s) && Apart(s) && !s.ref && Whole(s.kids) && s.name == null
            && (ok ==>
                  && a.failed == old(a.failed) && Typed(s)
                  && Spec.ParseValue(t[i..]) == Spec.Parsed(ValueOf(s), t[end..]))
    ensures !ok ==> Spec.ParseValue(t[i..]).Rejected? || a.failed > old(a.failed)
  {
    ok, end, kids := Parser.ParseValue(c, t, i, a);
  }

  /** The root and everything parsed into it are deleted. */
  method Discard(c: Node, a: Allocator, ghost s: Shape)
    requires a.Valid() && a !in Foot(s) && s.node == c && c.next == null && c.prev == null && Foot(s) <= a.live
    requires Holds(s) && Apart(s) && !s.ref && Whole(s.kids)
    modifies a
    ensures a.Valid() && a.live == old(a.live) - Foot(s) && a.failed == old(a.failed)
  {
    RootLinked(s);
    Deleter.AllWholeOwn([s]);
    Deleter.Delete(c, a, [s]);
  }

  lemma RootLinked(s: Shape)
    requires Holds(s) && Apart(s) && !s.ref && Whole(s.kids)
    requires s.node.next == null && s.node.prev == null
    ensures Linked([s]) && AllApart([s]) && Whole([s]) && Feet([s]) == Foot(s)
  {
    assert [s][..0] == [];
  }
}
