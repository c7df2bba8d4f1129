/** `create_reference` and `cJSON_Duplicate`. */
module Duplicator {
  import opened Bytes
  import opened Cycles
  import opened Heap
  import opened Json
  import opened Keys
  import opened ListEdit
  import opened Lists
  import ObjectEdit
  import ParseText

  /** `create_reference`: a node that shares the string and the children of another. */
  method CreateReference(item: Node, a: Allocator, ghost s: Shape) returns (ref: Node?)
    requires a.Valid() && s.node == item && Holds(s) && a !in Foot(s)
    modifies a
    ensures a.Valid() && (ref == null <==> Denied(a))
    ensures ref == null ==> a.live == old(a.live)
    ensures ref != null ==>
      var t := Shape(ref, true, s.text, null, s.kids);
      && fresh(ref) && a.live == old(a.live) + {ref} && Owns(t) == {ref}
      && Holds(t) && ValueOf(t) == old(ValueOf(s)) && Typed(t) == old(Typed(s))
      && ref.next == null && ref.prev == null
  {
    hide Foot, AllHold, AllTyped, Values, Members, Owns, Failures, Typed, ValueOf, AllApart, AllNamed, AllOwn, Apart,
         Chained;
    InHeap([s]);
    assert Feet([s]) == Foot(s);
    ref := a.NewNode();
    if ref != null {
      ref.child, ref.kind, ref.isReference := item.child, item.kind, true;
      ref.valuestring, ref.valueint, ref.valuedouble := item.valuestring, item.valueint, item.valuedouble;
      Unchanged(s);
      SharesValue(s, Shape(ref, true, s.text, null, s.kids));
    }
  }

  /** `cJSON_AddItemReferenceToArray`: without memory for the reference nothing is added. */
  method AddItemReferenceToArray(parent: Node, item: Node, a: Allocator, ghost kids: seq<Shape>, ghost s: Shape)
    returns (ghost added: bool, ghost t: Shape)
    requires ListOf(parent, kids) && a.Valid() && a !in Feet(kids) + Foot(s) && s.node == item && Holds(s)
    requires Nodes(kids) !! Feet(s.kids) && parent !in Foot(s)
    modifies parent`child, Nodes(kids)`next, a
    ensures a.Valid() && (added <==> !Denied(a))
    ensures !added ==> a.live == old(a.live) && ListOf(parent, kids) && Kept(kids)
    ensures added ==>
      && t.ref && t.text == s.text && t.name == null && t.kids == s.kids && Owns(t) == {t.node} && fresh(t.node)
      && a.live == old(a.live) + Owns(t)
      && ListOf(parent, kids + [t]) && Values(kids + [t]) == old(Values(kids)) + [old(ValueOf(s))]
      && AllTyped(kids + [t]) == (old(AllTyped(kids)) && old(Typed(s)))
  {
    hide Values;
    InHeap(kids);
    InHeap([s]);
    assert Feet([s]) == Foot(s);
    var ref := CreateReference(item, a, s);
    Untouched(kids);
    added, t := ref != null, s;
    if ref != null {
      t := Shape(ref, true, s.text, null, s.kids);
      AppendReference(parent, ref, kids, t);
    }
  }

  method AppendReference(parent: Node, ref: Node, ghost kids: seq<Shape>, ghost t: Shape)
    requires ListOf(parent, kids) && t.node == ref && Holds(t) && parent !in Foot(t)
    requires Nodes(kids) !! Feet(t.kids) && ref !in Feet(kids) && ref.next == null && ref.prev == null && t.name == null
    modifies parent`child, Nodes(kids)`next, ref`prev
    ensures ListOf(parent, kids + [t]) && Values(kids + [t]) == old(Values(kids)) + [old(ValueOf(t))]
    ensures AllTyped(kids + [t]) == (old(AllTyped(kids)) && old(Typed(t)))
  {
    LinkedSeparate(kids);
    Acyclic(t);
    SeparateWith(kids, t);
    Appended(kids, t);
    AddItemToArray(parent, ref, kids, t);
  }

  lemma SeparateWith(kids: seq<Shape>, t: Shape)
    requires Separate(kids) && Nodes(kids) !! Below(t) && t.node !in Feet(kids) + Below(t)
    ensures Separate(kids + [t])
  {
    NodesInFeet(kids);
    var r := kids + [t];
    forall i, j | 0 <= i < |r| && 0 <= j < |r|
      ensures r[i].node !in Below(r[j])
    {
      if j < |kids| {
        Element(kids, j);
      }
      assert i < |kids| ==> kids[i].node in Nodes(kids);
    }
    forall i, j | 0 <= i < j < |r|
      ensures r[i].node != r[j].node
    {
      assert kids[i].node in Nodes(kids);
    }
  }

  lemma SharesValue(s: Shape, t: Shape)
    requires Holds(s) && t == Shape(t.node, true, s.text, null, s.kids)
    requires t.node.child == s.node.child && t.node.kind == s.node.kind && t.node.isReference && t.node.name == null
    requires t.node.valuestring == s.text
    requires t.node.valueint == s.node.valueint && t.node.valuedouble == s.node.valuedouble
    ensures Holds(t) && ValueOf(t) == ValueOf(s) && Typed(t) == Typed(s) && Owns(t) == {t.node}
  {
  }

  // ---------------------------------------------------------------- copies

  lemma FootInHeap(s: Shape)
    ensures allocated(Foot(s))
  {
    InHeap([s]);
    assert Feet([s]) == Foot(s);
  }

  /** A string that is copied or was not there. */
  method CopyString(str: array?<byte>, a: Allocator) returns (ok: bool, copy: array?<byte>)
    requires a.Valid() && IsString(str)
    modifies a
    ensures a.Valid() && a.live == old(a.live) + Block(copy) && fresh(Block(copy)) && IsString(copy)
    ensures ok <==> ((str == null) == (copy == null))
    ensures ok ==> a.failed == old(a.failed) && StringOf(copy) == old(StringOf(str))
    ensures !ok ==> a.failed > old(a.failed) && copy == null
  {
    ok, copy := true, null;
    if str != null {
      copy := ObjectEdit.StrDup(str, a);
      ok := copy != null;
    }
  }

  /** A value without what is in it. */
  function Shallow(v: Json): Json {
    match v
    case Array(_) => Array([])
    case Object(_) => Object([])
    case _ => v
  }

  /** What a copy has in common with the original, apart from the children. */
  ghost predicate SameFields(s: Shape, t: Shape)
    reads s.node, t.node, Block(s.text), Block(t.text), Block(s.name), Block(t.name)
  {
    && t.node.kind == s.node.kind && t.node.valueint == s.node.valueint && t.node.valuedouble == s.node.valuedouble
    && (t.text == null <==> s.text == null) && StringOf(t.text) == StringOf(s.text) && IsString(t.text)
    && (t.name == null <==> s.name == null) && StringOf(t.name) == StringOf(s.name) && IsString(t.name)
  }

  /** The two strings of a new node are copied, or the node is given up. */
  method CopyStrings(n: Node, str: array?<byte>, name: array?<byte>, a: Allocator) returns (ok: bool)
    requires a.Valid() && n in a.live && IsString(str) && IsString(name)
    requires n.next == null && n.prev == null && n.child == null && !n.isReference
    requires n.valuestring == null && n.name == null
    modifies a, n`valuestring, n`name
    ensures a.Valid()
    ensures !ok ==> a.failed > old(a.failed) && a.live == old(a.live) - {n}
    ensures ok ==>
      && a.failed == old(a.failed) && a.live == old(a.live) + Block(n.valuestring) + Block(n.name)
      && fresh(Block(n.valuestring) + Block(n.name)) && Block(n.valuestring) !! Block(n.name)
      && (n.valuestring == null <==> str == null) && StringOf(n.valuestring) == old(StringOf(str))
      && (n.name == null <==> name == null) && StringOf(n.name) == old(StringOf(name))
      && IsString(n.valuestring) && IsString(n.name)
  {
    ok, n.valuestring := CopyString(str, a);
    if !ok {
      ParseText.Discard(n, a, Shape(n, false, null, null, []));
      return;
    }
    ok, n.name := CopyString(name, a);
    if !ok {
      ParseText.Discard(n, a, Shape(n, false, n.valuestring, null, []));
    }
  }

  /** The part of `cJSON_Duplicate` that copies one node with its strings. */
  method CopyNode(item: Node, a: Allocator, ghost s: Shape) returns (n: Node?, ghost t: Shape)
    requires a.Valid() && s.node == item && Holds(s)
    modifies a
    ensures a.Valid()
    ensures n == null ==> a.failed > old(a.failed) && a.live == old(a.live)
    ensures n != null ==>
      && t == Shape(n, false, n.valuestring, n.name, []) && fresh(Foot(t)) && a.live == old(a.live) + Foot(t)
      && a.failed == old(a.failed) && Holds(t) && Apart(t) && SameFields(s, t)
      && n.next == null && n.prev == null
  {
    hide Foot, CStr, AllHold, StringOf;
    t := s;
    n := a.NewNode();
    if n == null {
      return;
    }
    n.kind, n.valueint, n.valuedouble := item.kind, item.valueint, item.valuedouble;
    var ok := CopyStrings(n, item.valuestring, item.name, a);
    if ok {
      Leaf(n);
      t := Shape(n, false, n.valuestring, n.name, []);
    } else {
      n := null;
    }
  }

  /** The shape of a node without children. */
  lemma Leaf(n: Node)
    requires n.child == null && !n.isReference && Block(n.valuestring) !! Block(n.name)
    requires IsString(n.valuestring) && IsString(n.name)
    ensures var t := Shape(n, false, n.valuestring, n.name, []);
            Holds(t) && Apart(t) && Foot(t) == {n} + Block(n.valuestring) + Block(n.name)
  {
  }

  /** The copies made so far, a list of new blocks. */
  ghost predicate Copies(a: Allocator, base: set<object>, done: seq<Shape>)
    reads a, Feet(done)
  {
    && a.Valid() && a !in Feet(done) && a.live == base + Feet(done) && base !! Feet(done)
    && Linked(done) && AllApart(done) && Whole(done)
  }

  /** A copy is linked in behind the others, both ways, or the first one becomes the child of the new item. */
  method LinkCopy(n: Node, nptr: Node?, newchild: Node, ghost done: seq<Shape>, ghost c: Shape)
    requires n.child == First(done) && nptr == (if done == [] then null else done[|done| - 1].node)
    requires Linked(done) && AllApart(done) && Holds(c) && Apart(c) && Feet(done) !! Foot(c) && c.node == newchild
    requires n !in Feet(done) + Foot(c) && newchild.next == null && newchild.prev == null
    modifies n`child, (if nptr == null then {} else {nptr})`next, newchild`prev
    ensures n.child == First(done + [c]) && Linked(done + [c]) && Kept(done + [c])
  {
    ghost var all := done + [c];
    Appended(done, c);
    ApartSeparate(all);
    InHeap(all);
    if nptr != null {
      SuffixObject(nptr, newchild, done, c, Nodes(all));
      Edited(all);
    } else {
      n.child := newchild;
      Untouched(all);
    }
  }

  /** What there is to copy. */
  ghost predicate Source(kids: seq<Shape>, vs: seq<Json>, ms: seq<Member>, typed: bool,
                         named: bool)
    reads Feet(kids)
  {
    && Linked(kids) && Values(kids) == vs && Members(kids) == ms
    && typed == AllTyped(kids) && named == AllNamed(kids)
  }

  /** The copies say what the first `i` children say, and the next one is to follow `nptr`. */
  ghost predicate Progress(n: Node, nptr: Node?, a: Allocator, base: set<object>, done: seq<Shape>, i: nat,
                           vs: seq<Json>, ms: seq<Member>, typed: bool, named: bool)
    reads a, n`child, Feet(done)
  {
    && Copies(a, base, done) && n.child == First(done) && |done| == i <= |vs| == |ms|
    && nptr == (if done == [] then null else done[|done| - 1].node)
    && Values(done) == vs[..i] && Members(done) == ms[..i]
    && (typed ==> AllTyped(done)) && (named ==> AllNamed(done))
  }

  /** The copy of one child. */
  method CopyChild(child: Node, a: Allocator, ghost kids: seq<Shape>, ghost i: nat, ghost vs: seq<Json>,
                   ghost ms: seq<Member>, ghost typed: bool, ghost named: bool)
    returns (newchild: Node?, ghost c: Shape)
    requires i < |kids| && child == kids[i].node && Source(kids, vs, ms, typed, named) && a !in Feet(kids) && a.Valid()
    modifies a
    ensures Source(kids, vs, ms, typed, named) && a.Valid()
    ensures newchild == null ==> a.failed > old(a.failed) && a.live == old(a.live)
    ensures newchild != null ==>
      && a.failed == old(a.failed) && a.live == old(a.live) + Foot(c) && fresh(Foot(c)) && c.node == newchild
      && Holds(c) && Apart(c) && !c.ref && Whole(c.kids) && newchild.next == null && newchild.prev == null
      && ValueOf(c) == vs[i] && Member(StringOf(c.name), ValueOf(c)) == ms[i]
      && (typed ==> Typed(c)) && (named ==> HoldsString(c.name))
    decreases kids, 0
  {
    InHeap(kids);
    Element(kids, i);
    newchild, c := DuplicateWhole(child, a, kids[i]);
  }

  /** One round of the loop over the children: a copy is made and linked in. */
  method CopyNext(child: Node, n: Node, nptr: Node?, a: Allocator, ghost kids: seq<Shape>, ghost i: nat,
                  ghost vs: seq<Json>, ghost ms: seq<Member>, ghost typed: bool, ghost named: bool,
                  ghost done: seq<Shape>, ghost base: set<object>)
    returns (newchild: Node?, ghost more: seq<Shape>)
    requires i < |kids| && child == kids[i].node && Source(kids, vs, ms, typed, named) && a !in Feet(kids)
    requires Progress(n, nptr, a, base, done, i, vs, ms, typed, named)
    requires n in base && Feet(done) + {n} !! Feet(kids)
    modifies a, n`child, (if nptr == null then {} else {nptr})`next
    ensures Source(kids, vs, ms, typed, named)
    ensures newchild == null ==> a.failed > old(a.failed) && Copies(a, base, done) && n.child == First(done)
    ensures newchild != null ==>
      && a.failed == old(a.failed) && fresh(Feet(more) - Feet(done))
      && Progress(n, newchild, a, base, more, i + 1, vs, ms, typed, named)
    decreases kids, 1
  {
    hide Feet, AllHold, Members, Values, Chained, AllApart, Whole;
    InHeap(kids);
    InHeap(done);
    ghost var c;
    newchild, c := CopyChild(child, a, kids, i, vs, ms, typed, named);
    Untouched(done);
    more := done + [c];
    if newchild != null {
      NextCopy(done, c, i, vs, ms, typed, named);
      NodesInFeet(done);
      LinkCopy(n, nptr, newchild, done, c);
    }
  }

  lemma NextCopy(done: seq<Shape>, c: Shape, i: nat, vs: seq<Json>, ms: seq<Member>, typed: bool, named: bool)
    requires i < |vs| == |ms| && Values(done) == vs[..i] && Members(done) == ms[..i]
    requires ValueOf(c) == vs[i] && Member(StringOf(c.name), ValueOf(c)) == ms[i]
    requires (typed ==> AllTyped(done) && Typed(c)) && (named ==> AllNamed(done) && HoldsString(c.name))
    ensures Values(done + [c]) == vs[..i + 1] && Members(done + [c]) == ms[..i + 1]
    ensures (typed ==> AllTyped(done + [c])) && (named ==> AllNamed(done + [c]))
    ensures Feet(done + [c]) == Feet(done) + Foot(c)
    ensures AllApart(done + [c]) <==> AllApart(done) && Apart(c) && Feet(done) !! Foot(c)
    ensures Whole(done + [c]) <==> Whole(done) && !c.ref && Whole(c.kids)
  {
    Appended(done, c);
    OneMore(vs, i);
    OneMore(ms, i);
  }

  lemma Finished(done: seq<Shape>, vs: seq<Json>, ms: seq<Member>)
    requires |vs| == |ms| && Values(done) == vs[..|vs|] && Members(done) == ms[..|vs|]
    ensures Values(done) == vs && Members(done) == ms
  {
  }

  lemma OneMore<T>(s: seq<T>, i: nat)
    requires i < |s|
    ensures s[..i + 1] == s[..i] + [s[i]]
  {
  }

  /** The loop over the children. */
  method CopyKids(first: Node?, n: Node, a: Allocator, ghost kids: seq<Shape>, ghost vs: seq<Json>,
                  ghost ms: seq<Member>, ghost typed: bool, ghost named: bool, ghost base: set<object>)
    returns (ok: bool, ghost done: seq<Shape>)
    requires first == First(kids) && Source(kids, vs, ms, typed, named) && a !in Feet(kids)
    requires a.Valid() && a.live == base && n in base && n.child == null && n !in Feet(kids)
    modifies a, n`child
    ensures Copies(a, base, done) && fresh(Feet(done)) && n.child == First(done)
    ensures !ok ==> a.failed > old(a.failed)
    ensures ok ==>
      && a.failed == old(a.failed) && Values(done) == vs && Members(done) == ms
      && (typed ==> AllTyped(done)) && (named ==> AllNamed(done))
    decreases kids, 2
  {
    hide Holds, Members, Values;
    ok, done := true, [];
    var cptr := first;
    var nptr: Node? := null;
    ghost var i: nat := 0;
    InHeap(kids);
    while cptr != null
      invariant i <= |kids| && cptr == (if i < |kids| then kids[i].node else null)
      invariant Source(kids, vs, ms, typed, named) && a.failed == old(a.failed)
      invariant Progress(n, nptr, a, base, done, i, vs, ms, typed, named)
      invariant fresh(Feet(done))
      decreases |kids| - i
    {
      var newchild;
      ghost var more;
      newchild, more := CopyNext(cptr, n, nptr, a, kids, i, vs, ms, typed, named, done, base);
      if newchild == null {
        return false, done;
      }
      done := more;
      nptr := newchild;
      i := i + 1;
      cptr := cptr.next;
    }
    Finished(done, vs, ms);
  }

  /** A copy with copies of the children says what the original says. */
  lemma SameValue(s: Shape, t: Shape)
    requires SameFields(s, t) && Values(t.kids) == Values(s.kids) && Members(t.kids) == Members(s.kids)
    requires (AllTyped(s.kids) ==> AllTyped(t.kids)) && (AllNamed(s.kids) ==> AllNamed(t.kids))
    ensures ValueOf(t) == ValueOf(s) && (Typed(s) ==> Typed(t))
  {
  }

  /** The children are copied, or the copy is given up. */
  method CopyDeep(item: Node, n: Node, a: Allocator, ghost s: Shape, ghost t0: Shape)
    returns (copy: Node?, ghost t: Shape)
    requires a.Valid() && s.node == item && Holds(s) && a !in Foot(s)
    requires t0 == Shape(n, false, n.valuestring, n.name, []) && Foot(t0) <= a.live && Foot(t0) !! Foot(s)
    requires Holds(t0) && Apart(t0) && SameFields(s, t0) && n.next == null && n.prev == null
    modifies a, n`child
    ensures a.Valid()
    ensures copy == null ==> a.live == old(a.live) - Foot(t0) && a.failed > old(a.failed)
    ensures copy != null ==>
      && copy == n == t.node && a.failed == old(a.failed) && a.live == old(a.live) + Feet(t.kids)
      && t == Shape(n, false, t0.text, t0.name, t.kids) && fresh(Feet(t.kids))
      && Holds(t) && Apart(t) && Whole(t.kids) && SameFields(s, t)
      && ValueOf(t) == old(ValueOf(s)) && (old(Typed(s)) ==> Typed(t))
    decreases s, 1
  {
    hide AllHold, AllTyped, Typed, AllNamed, Members, Values, ValueOf, Chained, AllApart, CStr, StringOf, IsString,
         Failures, Whole, Block;
    InHeap([s]);
    assert Feet([s]) == Foot(s);
    ghost var done;
    var ok;
    ok, done := CopyKids(item.child, n, a, s.kids, Values(s.kids), Members(s.kids), AllTyped(s.kids),
                         AllNamed(s.kids), a.live);
    t := t0.(kids := done);
    if ok {
      copy := n;
      Unchanged(s);
      SameValue(s, t);
    } else {
      ParseText.Discard(n, a, t);
      copy := null;
    }
  }

  /** The recursive calls of `cJSON_Duplicate`: the node and everything below it. */
  method DuplicateWhole(item: Node, a: Allocator, ghost s: Shape) returns (copy: Node?, ghost t: Shape)
    requires a.Valid() && s.node == item && Holds(s) && a !in Foot(s)
    modifies a
    ensures a.Valid()
    ensures copy == null ==> a.live == old(a.live) && a.failed > old(a.failed)
    ensures copy != null ==>
      && t.node == copy && a.failed == old(a.failed) && a.live == old(a.live) + Foot(t) && fresh(Foot(t))
      && Holds(t) && Apart(t) && !t.ref && Whole(t.kids) && copy.next == null && copy.prev == null
      && SameFields(s, t) && ValueOf(t) == old(ValueOf(s)) && (old(Typed(s)) ==> Typed(t))
    decreases s, 2
  {
    hide Holds;
    FootInHeap(s);
    copy, t := CopyNode(item, a, s);
    if copy != null {
      Unchanged(s);
      copy, t := CopyDeep(item, copy, a, s, t);
    }
  }

  /** `cJSON_Duplicate`: there is a copy unless there is no item or a request fails. */
  method Duplicate(item: Node?, recurse: bool, a: Allocator, ghost s: Shape) returns (copy: Node?, ghost t: Shape)
    requires a.Valid()
    requires item != null ==> s.node == item && Holds(s) && a !in Foot(s)
    modifies a
    ensures a.Valid() && (copy == null <==> item == null || Denied(a))
    ensures copy == null ==> a.live == old(a.live)
    ensures copy != null ==>
      && t.node == copy && a.live == old(a.live) + Foot(t) && fresh(Foot(t))
      && Holds(t) && Apart(t) && !t.ref && Whole(t.kids) && copy.next == null && copy.prev == null
      && SameFields(s, t) && (old(Typed(s)) ==> Typed(t))
      && (recurse ==> ValueOf(t) == old(ValueOf(s)))
      && (!recurse ==> t.kids == [] && ValueOf(t) == Shallow(old(ValueOf(s))))
  {
    copy, t := null, s;
    if item == null {
      return;
    }
    if recurse {
      copy, t := DuplicateWhole(item, a, s);
    } else {
      copy, t := CopyNode(item, a, s);
    }
    DeniedIsCounted(a);
  }

  /** Deleting a copy again leaves the ledger, and what the original holds and says, as they were. */
  method DuplicateAndDelete(item: Node, a: Allocator, ghost s: Shape)
    requires a.Valid() && s.node == item && Holds(s) && a !in Foot(s)
    modifies a
    ensures a.Valid() && a.live == old(a.live)
    ensures Holds(s) && ValueOf(s) == old(ValueOf(s)) && Typed(s) == old(Typed(s))
  {
    InHeap([s]);
    assert Feet([s]) == Foot(s);
    var copy;
    ghost var t;
    copy, t := Duplicate(item, true, a, s);
    if copy != null {
      ParseText.Discard(copy, a, t);
    }
    Unchanged(s);
  }
}
