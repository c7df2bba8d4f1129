/** `cJSON_Delete`: every block that belongs to a structure is freed, each exactly once. */
module Deleter {
  import opened Heap

  /** No block belongs to a structure twice. */
  predicate OwnsOnce(s: Shape)
    decreases s, 0
  {
    && s.node !in Block(s.name)
    && (!s.ref ==>
          && s.node !in AllOwn(s.kids) && Block(s.text) !! AllOwn(s.kids) && Block(s.name) !! AllOwn(s.kids)
          && Block(s.text) !! Block(s.name)
          && AllOwnOnce(s.kids))
  }

  predicate AllOwnOnce(ss: seq<Shape>)
    decreases ss, 1
  {
    ss == []
    || (AllOwnOnce(ss[..|ss| - 1]) && OwnsOnce(ss[|ss| - 1]) && AllOwn(ss[..|ss| - 1]) !! Owns(ss[|ss| - 1]))
  }

  /** Without references, what belongs to a structure is what can be reached from it. */
  lemma {:induction false} WholeOwns(s: Shape)
    requires !s.ref && Whole(s.kids)
    ensures Owns(s) == Foot(s) && (Apart(s) ==> OwnsOnce(s))
    decreases s, 0
  {
    AllWholeOwn(s.kids);
  }

  lemma {:induction false} AllWholeOwn(ss: seq<Shape>)
    requires Whole(ss)
    ensures AllOwn(ss) == Feet(ss) && (AllApart(ss) ==> AllOwnOnce(ss))
    decreases ss, 1
  {
    if ss != [] {
      AllWholeOwn(ss[..|ss| - 1]);
      WholeOwns(ss[|ss| - 1]);
    }
  }

  /** What is said of a list is said of its prefixes and of each shape in it. */
  lemma {:induction false} Prefix(ss: seq<Shape>, j: nat)
    requires j < |ss|
    ensures AllOwn(ss[..j + 1]) == AllOwn(ss[..j]) + Owns(ss[j]) && AllOwn(ss[..j + 1]) <= AllOwn(ss)
    ensures Foot(ss[j]) <= Feet(ss)
    ensures AllHold(ss) ==> Holds(ss[j])
    ensures AllOwnOnce(ss) ==> OwnsOnce(ss[j]) && AllOwn(ss[..j]) !! Owns(ss[j])
    decreases ss
  {
    var init := ss[..|ss| - 1];
    assert ss[..j + 1][..j] == ss[..j];
    if j < |init| {
      assert init[..j] == ss[..j] && init[..j + 1] == ss[..j + 1] && init[j] == ss[j];
      Prefix(init, j);
    } else {
      assert ss[..j + 1] == ss;
    }
  }

  method Delete(c: Node?, a: Allocator, ghost ss: seq<Shape>)
    requires a.Valid() && c == First(ss) && Linked(ss) && a !in Feet(ss)
    requires AllOwnOnce(ss) && AllOwn(ss) <= a.live
    modifies a
    ensures a.Valid() && a.live == old(a.live) - AllOwn(ss) && a.failed == old(a.failed)
    decreases ss, 1
  {
    hide Foot, Holds, AllOwnOnce, Feet, AllTyped, Values, AllHold;
    var n := c;
    ghost var j := 0;
    assert ss[..0] == [];
    while n != null
      invariant 0 <= j <= |ss| && n == (if j < |ss| then ss[j].node else null)
      invariant Linked(ss)
      invariant a.Valid() && a.live == old(a.live) - AllOwn(ss[..j]) && a.failed == old(a.failed)
      decreases |ss| - j
    {
      Prefix(ss, j);
      assert n in a.live;
      var next := n.next;
      label L:
      DeleteOne(n, a, ss[j]);
      Untouched@L(ss);
      n := next;
      j := j + 1;
    }
    assert ss[..|ss|] == ss;
  }

  /** One round: the children and the value string unless the node is a reference, the name, the node. */
  method DeleteOne(c: Node, a: Allocator, ghost s: Shape)
    requires a.Valid() && c == s.node && Holds(s) && a !in Foot(s) && OwnsOnce(s) && Owns(s) <= a.live
    modifies a
    ensures a.Valid() && a.live == old(a.live) - Owns(s) && a.failed == old(a.failed)
    decreases s, 2
  {
    if !c.isReference && c.child != null {
      Delete(c.child, a, s.kids);
    }
    if !c.isReference && c.valuestring != null {
      a.Free(c.valuestring);
    }
    if c.name != null {
      a.Free(c.name);
    }
    a.Free(c);
  }
}
