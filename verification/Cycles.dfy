/**
  What the links alone decide: a node has one shape, a list does not run into itself or into
  what is below it, and so nothing that can be described by a shape is cyclic.
 */
module Cycles {
  import opened Heap
  import opened Lists

  // ---------------------------------------------------------------- one list

  lemma {:induction false} NeverAgain(ss: seq<Shape>, i: nat, j: nat)
    requires Chained(ss) && i < j < |ss|
    ensures ss[i].node != ss[j].node
    decreases |ss| - j
  {
    if j + 1 < |ss| {
      NeverAgain(ss, i + 1, j + 1);
    }
    assert ss[i].node.next == Next(ss, i) && ss[j].node.next == Next(ss, j);
  }

  /** The list is doubly linked: it ends at both ends, neighbours point at each other, and no node comes twice. */
  lemma DoublyLinked(ss: seq<Shape>)
    requires Chained(ss)
    ensures ss != [] ==> ss[0].node.prev == null && ss[|ss| - 1].node.next == null
    ensures forall i :: 0 <= i < |ss| - 1 ==>
              ss[i].node.next == ss[i + 1].node && ss[i + 1].node.prev == ss[i].node
    ensures Differ(ss)
  {
    forall i, j | 0 <= i < j < |ss|
      ensures ss[i].node != ss[j].node
    {
      NeverAgain(ss, i, j);
    }
  }

  // ---------------------------------------------------------------- the shape of a node

  /** Lists that start at the same node go through the same nodes. */
  lemma {:induction false} SamePlaces(ss: seq<Shape>, ts: seq<Shape>, i: nat)
    requires Chained(ss) && Chained(ts) && First(ss) == First(ts) && i < |ss|
    ensures i < |ts| && ss[i].node == ts[i].node
  {
    if i > 0 {
      SamePlaces(ss, ts, i - 1);
      assert ss[i - 1].node.next == Next(ss, i - 1) && ts[i - 1].node.next == Next(ts, i - 1);
    }
  }

  /** A node has at most one shape. */
  lemma {:induction false} OneShape(s: Shape, t: Shape)
    requires Holds(s) && Holds(t) && s.node == t.node
    ensures s == t
    decreases s, 1
  {
    OneList(s.kids, t.kids);
  }

  lemma {:induction false} OneList(ss: seq<Shape>, ts: seq<Shape>)
    requires Linked(ss) && Linked(ts) && First(ss) == First(ts)
    ensures ss == ts
    decreases ss, 2
  {
    if |ss| > |ts| {
      SamePlaces(ss, ts, |ts|);
    }
    if |ts| > |ss| {
      SamePlaces(ts, ss, |ss|);
    }
    forall i | 0 <= i < |ss|
      ensures ss[i] == ts[i]
    {
      SamePlaces(ss, ts, i);
      Element(ss, i);
      Element(ts, i);
      OneShape(ss[i], ts[i]);
    }
  }

  // ---------------------------------------------------------------- no cycles

  function Size(s: Shape): nat
    decreases s, 0
  {
    1 + Sizes(s.kids)
  }

  function Sizes(ss: seq<Shape>): nat
    decreases ss, 1
  {
    if ss == [] then 0 else Sizes(ss[..|ss| - 1]) + Size(ss[|ss| - 1])
  }

  lemma {:induction false} SizeAt(ss: seq<Shape>, i: nat)
    requires i < |ss|
    ensures Size(ss[i]) <= Sizes(ss)
    decreases ss
  {
    var init := ss[..|ss| - 1];
    if i < |init| {
      assert init[i] == ss[i];
      SizeAt(init, i);
    }
  }

  /** A node that can be reached stands in a list that is no larger than where it was reached from. */
  lemma {:induction false} Reached(ss: seq<Shape>, n: Node) returns (ts: seq<Shape>, k: nat)
    requires Linked(ss) && n in Feet(ss)
    ensures k < |ts| && ts[k].node == n && Linked(ts) && Sizes(ts) <= Sizes(ss)
    decreases ss
  {
    var i := Holder(ss, n);
    Element(ss, i);
    if n == ss[i].node {
      ts, k := ss, i;
    } else {
      ts, k := Reached(ss[i].kids, n);
      SizeAt(ss, i);
    }
  }

  lemma {:induction false} Holder(ss: seq<Shape>, n: Node) returns (i: nat)
    requires n in Feet(ss)
    ensures i < |ss| && (n == ss[i].node || n in Feet(ss[i].kids))
    decreases ss
  {
    var init, s := ss[..|ss| - 1], ss[|ss| - 1];
    if n in Feet(init) {
      i := Holder(init, n);
      assert init[i] == ss[i];
    } else {
      i := |ss| - 1;
    }
  }

  lemma {:induction false} SameStart(ss: seq<Shape>, i: nat, ts: seq<Shape>, k: nat)
    requires Chained(ss) && Chained(ts) && i < |ss| && k < |ts| && ss[i].node == ts[k].node
    ensures First(ss) == First(ts)
    decreases i
  {
    assert ss[i].node.prev == Previous(ss, i) && ts[k].node.prev == Previous(ts, k);
    if i > 0 && k > 0 {
      SameStart(ss, i - 1, ts, k - 1);
    }
  }

  /** No node of a list can be reached from below the list. */
  lemma NotBelowItself(ss: seq<Shape>, i: nat, j: nat)
    requires Linked(ss) && i < |ss| && j < |ss|
    ensures ss[i].node !in Feet(ss[j].kids)
  {
    if ss[i].node in Feet(ss[j].kids) {
      Element(ss, j);
      var ts, k := Reached(ss[j].kids, ss[i].node);
      SameStart(ss, i, ts, k);
      OneList(ss, ts);
      SizeAt(ss, j);
      assert false;
    }
  }

  /** The nodes of every list of children are separate. */
  lemma LinkedSeparate(ss: seq<Shape>)
    requires Linked(ss)
    ensures Separate(ss)
  {
    DoublyLinked(ss);
    forall i, j | 0 <= i < |ss| && 0 <= j < |ss|
      ensures ss[i].node !in Below(ss[j])
    {
      NotBelowItself(ss, i, j);
    }
  }

  /** A node cannot be reached from its own children. */
  lemma Acyclic(s: Shape)
    requires Holds(s)
    ensures s.node !in Feet(s.kids)
  {
    if s.node in Feet(s.kids) {
      var ts, k := Reached(s.kids, s.node);
      Element(ts, k);
      OneShape(s, ts[k]);
      SizeAt(ts, k);
      assert false;
    }
  }
}
