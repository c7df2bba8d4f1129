/** The functions that edit and read the list of children of an array or object. */
module ListEdit {
  import opened Cycles
  import opened Deleter
  import opened Heap
  import opened Lists

  /** The place an index stands for: a negative one acts as 0. */
  function Index(which: int): nat {
    if which < 0 then 0 else which
  }

  /** The list of children of a node. */
  ghost predicate ListOf(parent: Node, kids: seq<Shape>)
    reads parent, Feet(kids)
  {
    parent.child == First(kids) && Linked(kids) && parent !in Feet(kids)
  }

  /** Whatever hangs on a node is such a list. */
  lemma EveryList(parent: Node, kids: seq<Shape>)
    requires Holds(ShapeOf(parent, kids))
    ensures ListOf(parent, kids) && Separate(kids)
  {
    Acyclic(ShapeOf(parent, kids));
    LinkedSeparate(kids);
  }

  /** An item that can be linked into the list: it is not in it, and linking it makes no cycle. */
  ghost predicate Joinable(parent: Node, item: Node, kids: seq<Shape>, s: Shape)
    reads Foot(s)
  {
    s.node == item && Holds(s) && Separate(kids + [s]) && parent !in Foot(s)
  }

  /** The walk along the list to the item at an index. */
  method Seek(parent: Node, which: int, ghost kids: seq<Shape>) returns (c: Node?)
    requires ListOf(parent, kids)
    ensures c == if Index(which) < |kids| then kids[Index(which)].node else null
  {
    c := parent.child;
    var w := which;
    ghost var i: nat := 0;
    while c != null && w > 0
      invariant i <= |kids| && c == (if i < |kids| then kids[i].node else null)
      invariant i <= Index(which) && (w > 0 ==> w == which - i) && (w <= 0 ==> i == Index(which))
      decreases |kids| - i
    {
      c, w := c.next, w - 1;
      i := i + 1;
    }
  }

  /** `cJSON_GetArrayItem` */
  method GetArrayItem(parent: Node, item: int, ghost kids: seq<Shape>) returns (c: Node?)
    requires ListOf(parent, kids)
    ensures 0 <= item < |kids| ==> c == kids[item].node
    ensures item < 0 && kids != [] ==> c == kids[0].node
    ensures item >= |kids| ==> c == null
  {
    c := Seek(parent, item, kids);
  }

  /** The walk to the last item. */
  method LastOf(first: Node, ghost kids: seq<Shape>) returns (c: Node)
    requires kids != [] && first == First(kids) && Chained(kids)
    ensures c == kids[|kids| - 1].node
  {
    c := first;
    ghost var i: nat := 0;
    while c.next != null
      invariant i < |kids| && c == kids[i].node
      decreases |kids| - i
    {
      c := c.next;
      i := i + 1;
    }
  }

  /** `suffix_object`, at the end of a list */
  method SuffixObject(prev: Node, item: Node, ghost kids: seq<Shape>, ghost s: Shape, ghost links: set<Node>)
    requires kids != [] && prev == kids[|kids| - 1].node && item == s.node && item.next == null
    requires Chained(kids) && Differ(kids + [s]) && {prev, item} <= links
    requires allocated(Feet(kids + [s]))
    modifies prev`next, item`prev
    ensures Chained(kids + [s]) && LinksWritten(kids + [s], links)
  {
    assert forall i :: 0 <= i < |kids| ==> (kids + [s])[i] == kids[i];
    assert (kids + [s])[|kids|] == s;
    prev.next := item;
    item.prev := prev;
  }

  /** The node behind a pointer that may be null. */
  function Only(n: Node?): set<Node> {
    if n == null then {} else {n}
  }

  /** `cJSON_AddItemToArray` */
  method AddItemToArray(parent: Node, item: Node?, ghost kids: seq<Shape>, ghost s: Shape)
    requires ListOf(parent, kids)
    requires item != null ==> Joinable(parent, item, kids, s) && item.next == null && item.prev == null
    modifies parent`child, Nodes(kids)`next, Only(item)`prev
    ensures item == null ==> ListOf(parent, kids) && Kept(kids)
    ensures item != null ==> ListOf(parent, kids + [s]) && Kept(kids + [s])
  {
    if item != null {
      AppendItem(parent, item, kids, s);
    }
  }

  method AppendItem(parent: Node, item: Node, ghost kids: seq<Shape>, ghost s: Shape)
    requires ListOf(parent, kids) && Joinable(parent, item, kids, s) && item.next == null && item.prev == null
    modifies parent`child, Nodes(kids)`next, item`prev
    ensures ListOf(parent, kids + [s]) && Kept(kids + [s])
  {
    JoinedFeet(kids, [s]);
    JoinedHold(kids, [s]);
    ghost var links := Nodes(kids + [s]);
    InHeap(kids + [s]);
    var c := parent.child;
    if c == null {
      parent.child := item;
      Untouched(kids + [s]);
    } else {
      c := LastOf(c, kids);
      Untouched(kids + [s]);
      label L:
      SuffixObject(c, item, kids, s, links);
      Edited@L(kids + [s]);
    }
  }

  /** The links written by `cJSON_InsertItemInArray`. */
  method LinkBefore(parent: Node, c: Node, item: Node, ghost kids: seq<Shape>, ghost i: nat, ghost s: Shape,
                    ghost links: set<Node>)
    requires i < |kids| && c == kids[i].node && item == s.node && item != parent && NotAmong(parent, kids)
    requires parent.child == First(kids) && Chained(kids) && Differ(kids) && NotAmong(item, kids)
    requires links == Nodes(kids) + {item} && allocated(Feet(kids + [s])) && parent !in Feet(kids + [s])
    modifies parent`child, links`next, links`prev
    ensures parent.child == First(Inserted(kids, i, s)) && Chained(Inserted(kids, i, s))
    ensures LinksWritten(kids + [s], links)
  {
    hide Feet;
    item.next := c;
    item.prev := c.prev;
    c.prev := item;
    if c == parent.child {
      parent.child := item;
    } else {
      item.prev.next := item;
    }
    ChainInserted(kids, i, s);
  }

  function Min(a: nat, b: nat): nat {
    if a < b then a else b
  }

  /** `cJSON_InsertItemInArray`; a null item is seen to only past the end. */
  method InsertItemInArray(parent: Node, which: int, item: Node?, ghost kids: seq<Shape>, ghost s: Shape)
    requires ListOf(parent, kids) && (item == null ==> Index(which) >= |kids|)
    requires item != null ==>
      Joinable(parent, item, kids, s) && (Index(which) >= |kids| ==> item.next == null && item.prev == null)
    modifies parent`child, Nodes(kids)`next, Nodes(kids)`prev, Only(item)`next, Only(item)`prev
    ensures item == null ==> ListOf(parent, kids) && Kept(kids)
    ensures item != null ==>
      ListOf(parent, Inserted(kids, Min(Index(which), |kids|), s)) && Kept(kids + [s])
  {
    var c := Seek(parent, which, kids);
    Untouched(kids);
    if item != null {
      Untouched(kids + [s]);
      Unchanged(s);
      InsertAt(parent, c, item, kids, Min(Index(which), |kids|), s);
    }
  }

  method InsertAt(parent: Node, c: Node?, item: Node, ghost kids: seq<Shape>, ghost i: nat, ghost s: Shape)
    requires ListOf(parent, kids) && Joinable(parent, item, kids, s) && i <= |kids|
    requires c == if i < |kids| then kids[i].node else null
    requires i == |kids| ==> item.next == null && item.prev == null
    modifies parent`child, Nodes(kids)`next, Nodes(kids)`prev, item`next, item`prev
    ensures ListOf(parent, Inserted(kids, i, s)) && Kept(kids + [s])
  {
    if c == null {
      AppendItem(parent, item, kids, s);
      assert Inserted(kids, |kids|, s) == kids + [s];
    } else {
      InsertBefore(parent, c, item, kids, i, s);
    }
  }

  method InsertBefore(parent: Node, c: Node, item: Node, ghost kids: seq<Shape>, ghost i: nat, ghost s: Shape)
    requires i < |kids| && c == kids[i].node && ListOf(parent, kids) && Joinable(parent, item, kids, s)
    modifies parent`child, Nodes(kids)`next, Nodes(kids)`prev, item`next, item`prev
    ensures ListOf(parent, Inserted(kids, i, s)) && Kept(kids + [s])
  {
    hide Separate;
    SeparatePart(kids, s);
    Appended(kids, s);
    NodesInFeet(kids);
    InHeap(kids + [s]);
    LinkBefore(parent, c, item, kids, i, s, Nodes(kids) + {item});
    Edited(kids + [s]);
    Appended(kids, s);
    InsertedShapes(kids, i, s);
  }

  /** The links written by `cJSON_DetachItemFromArray`. */
  method Unlink(parent: Node, c: Node, ghost kids: seq<Shape>, ghost i: nat, ghost links: set<Node>)
    requires i < |kids| && c == kids[i].node && NotAmong(parent, kids)
    requires parent.child == First(kids) && Chained(kids) && Differ(kids)
    requires links == Nodes(kids) && allocated(Feet(kids)) && parent !in Feet(kids)
    modifies parent`child, links`next, links`prev
    ensures parent.child == First(Removed(kids, i)) && Chained(Removed(kids, i))
    ensures c.next == null && c.prev == null
    ensures LinksWritten(kids, links)
  {
    hide Feet;
    if c.prev != null {
      c.prev.next := c.next;
    }
    if c.next != null {
      c.next.prev := c.prev;
    }
    if c == parent.child {
      parent.child := c.next;
    }
    c.prev, c.next := null, null;
    ChainRemoved(kids, i);
  }

  /** The links written by `cJSON_ReplaceItemInArray`. */
  method Relink(parent: Node, c: Node, item: Node, ghost kids: seq<Shape>, ghost i: nat, ghost s: Shape,
                ghost links: set<Node>)
    requires i < |kids| && c == kids[i].node && item == s.node && item != parent && NotAmong(parent, kids)
    requires parent.child == First(kids) && Chained(kids) && Differ(kids) && NotAmong(item, kids)
    requires links == Nodes(kids) + {item} && allocated(Feet(kids + [s])) && parent !in Feet(kids + [s])
    modifies parent`child, links`next, links`prev
    ensures parent.child == First(kids[i := s]) && Chained(kids[i := s])
    ensures c.next == null && c.prev == null
    ensures LinksWritten(kids + [s], links)
  {
    hide Feet;
    assert parent !in links;
    item.next := c.next;
    item.prev := c.prev;
    if item.next != null {
      item.next.prev := item;
    }
    if c == parent.child {
      parent.child := item;
    } else {
      item.prev.next := item;
    }
    c.next, c.prev := null, null;
    ChainReplaced(kids, i, s);
  }

  /** `cJSON_DetachItemFromArray` */
  method DetachItemFromArray(parent: Node, which: int, ghost kids: seq<Shape>) returns (c: Node?)
    requires ListOf(parent, kids)
    modifies parent`child, Nodes(kids)`next, Nodes(kids)`prev
    ensures Kept(kids)
    ensures c == null <==> Index(which) >= |kids|
    ensures c == null ==> ListOf(parent, kids)
    ensures c != null ==>
      && c == kids[Index(which)].node && c.next == null && c.prev == null
      && ListOf(parent, Removed(kids, Index(which))) && Holds(kids[Index(which)])
  {
    c := Seek(parent, which, kids);
    Untouched(kids);
    if c != null {
      Detach(parent, c, kids, Index(which));
    }
  }

  method Detach(parent: Node, c: Node, ghost kids: seq<Shape>, ghost i: nat)
    requires ListOf(parent, kids) && i < |kids| && c == kids[i].node
    modifies parent`child, Nodes(kids)`next, Nodes(kids)`prev
    ensures Kept(kids) && c.next == null && c.prev == null
    ensures ListOf(parent, Removed(kids, i)) && Holds(kids[i])
  {
    LinkedSeparate(kids);
    NodesInFeet(kids);
    InHeap(kids);
    Unlink(parent, c, kids, i, Nodes(kids));
    Edited(kids);
    RemovedShapes(kids, i);
  }

  /** A detached item is deleted. */
  method DeleteAlone(c: Node, a: Allocator, ghost s: Shape)
    requires a.Valid() && c == s.node && Holds(s) && c.next == null && c.prev == null && a !in Foot(s)
    requires OwnsOnce(s) && Owns(s) <= a.live
    modifies a
    ensures a.Valid() && a.live == old(a.live) - Owns(s) && a.failed == old(a.failed)
  {
    Alone(s);
    assert [s][..0] == [];
    assert AllOwn([s][..0]) == {} && AllOwnOnce([s][..0]);
    assert AllOwn([s]) == Owns(s);
    Delete(c, a, [s]);
  }

  /** `cJSON_DeleteItemFromArray` */
  method DeleteItemFromArray(parent: Node, which: int, a: Allocator, ghost kids: seq<Shape>)
    requires ListOf(parent, kids) && a.Valid() && a !in Feet(kids)
    requires Index(which) < |kids| ==> OwnsOnce(kids[Index(which)]) && Owns(kids[Index(which)]) <= a.live
    modifies parent`child, Nodes(kids)`next, Nodes(kids)`prev, a
    ensures Kept(kids) && a.Valid() && a.failed == old(a.failed)
    ensures Index(which) >= |kids| ==> ListOf(parent, kids) && a.live == old(a.live)
    ensures Index(which) < |kids| ==>
      ListOf(parent, Removed(kids, Index(which))) && a.live == old(a.live) - Owns(kids[Index(which)])
  {
    InHeap(kids);
    var c := DetachItemFromArray(parent, which, kids);
    if c != null {
      RemovedShapes(kids, Index(which));
      label L:
      DeleteAlone(c, a, kids[Index(which)]);
      Untouched@L(kids);
      Untouched@L(Removed(kids, Index(which)));
    }
  }

  /** `cJSON_ReplaceItemInArray` */
  method ReplaceItemInArray(parent: Node, which: int, item: Node, a: Allocator, ghost kids: seq<Shape>, ghost s: Shape)
    requires ListOf(parent, kids) && Joinable(parent, item, kids, s) && a.Valid() && a !in Feet(kids + [s])
    requires Index(which) < |kids| ==> OwnsOnce(kids[Index(which)]) && Owns(kids[Index(which)]) <= a.live
    modifies parent`child, Nodes(kids)`next, Nodes(kids)`prev, item`next, item`prev, a
    ensures Kept(kids + [s]) && a.Valid() && a.failed == old(a.failed)
    ensures Index(which) >= |kids| ==> ListOf(parent, kids) && a.live == old(a.live) && unchanged(item)
    ensures Index(which) < |kids| ==>
      ListOf(parent, kids[Index(which) := s]) && a.live == old(a.live) - Owns(kids[Index(which)])
  {
    InHeap(kids + [s]);
    var c := Seek(parent, which, kids);
    Untouched(kids + [s]);
    Untouched(kids);
    Unchanged(s);
    if c != null {
      ReplaceAt(parent, c, item, a, kids, Index(which), s);
    }
  }

  method ReplaceAt(parent: Node, c: Node, item: Node, a: Allocator, ghost kids: seq<Shape>, ghost i: nat,
                   ghost s: Shape)
    requires i < |kids| && c == kids[i].node && ListOf(parent, kids) && Joinable(parent, item, kids, s)
    requires a.Valid() && a !in Feet(kids + [s]) && OwnsOnce(kids[i]) && Owns(kids[i]) <= a.live
    modifies parent`child, Nodes(kids)`next, Nodes(kids)`prev, item`next, item`prev, a
    ensures Kept(kids + [s]) && a.Valid() && a.failed == old(a.failed)
    ensures ListOf(parent, kids[i := s]) && a.live == old(a.live) - Owns(kids[i])
  {
    hide Feet, AllHold, Values, Members, AllTyped, AllNamed, Chained;
    InHeap(kids + [s]);
    ReplacedFeet(kids, i, s);
    Substitute(parent, c, item, kids, i, s);
    label L:
    DeleteAlone(c, a, kids[i]);
    Untouched@L(kids + [s]);
    Untouched@L(kids[i := s]);
  }

  method Substitute(parent: Node, c: Node, item: Node, ghost kids: seq<Shape>, ghost i: nat, ghost s: Shape)
    requires i < |kids| && c == kids[i].node && ListOf(parent, kids) && Joinable(parent, item, kids, s)
    modifies parent`child, Nodes(kids)`next, Nodes(kids)`prev, item`next, item`prev
    ensures Kept(kids + [s]) && c.next == null && c.prev == null
    ensures ListOf(parent, kids[i := s]) && Holds(kids[i])
  {
    hide Feet, AllHold, Members, Values, Below;
    SeparatePart(kids, s);
    Appended(kids, s);
    NodesInFeet(kids);
    InHeap(kids + [s]);
    Relink(parent, c, item, kids, i, s, Nodes(kids) + {item});
    Edited(kids + [s]);
    Appended(kids, s);
    RemovedShapes(kids, i);
    ReplacedShapes(kids, i, s);
  }
}
