/**
  The memory of the library: blocks from `cJSON_malloc`, the nodes of `cJSON.h`, and the
  shape of the linked structures they form.
 */
module Heap {
  import opened Bytes
  import opened Json

  /** The low byte of the `type` field. */
  datatype Kind = FalseKind | TrueKind | NullKind | NumberKind | StringKind | ArrayKind | ObjectKind

  /** `struct cJSON`; the flag `cJSON_IsReference` is kept apart from the kind. */
  class Node {
    var next: Node?
    var prev: Node?
    var child: Node?
    var kind: Kind
    var isReference: bool
    var valuestring: array?<byte>
    var valueint: int
    var valuedouble: real
    var name: array?<byte>

    constructor ()
      ensures IsZero()
    {
      next, prev, child, kind, isReference := null, null, null, FalseKind, false;
      valuestring, valueint, valuedouble, name := null, 0, 0.0, null;
    }

    predicate IsZero()
      reads this
    {
      && next == null && prev == null && child == null && kind == FalseKind && !isReference
      && valuestring == null && valueint == 0 && valuedouble == 0.0 && name == null
    }
  }

  /** How many of the first `n` requests fail. */
  ghost function Failures(succeeds: nat -> bool, n: nat): nat {
    if n == 0 then 0 else Failures(succeeds, n - 1) + if succeeds(n - 1) then 0 else 1
  }

  /**
    `cJSON_malloc` and `cJSON_free`.  `succeeds` says which requests succeed, `requests` how
    many there have been and `failed` how many of these failed; `live` is the ledger of the
    blocks given out and not freed.
   */
  class Allocator {
    const succeeds: nat -> bool
    var requests: nat
    ghost var live: set<object>
    ghost var failed: nat

    constructor (succeeds: nat -> bool)
      ensures Valid() && this.succeeds == succeeds && requests == 0 && live == {}
    {
      this.succeeds := succeeds;
      requests, live, failed := 0, {}, 0;
    }

    ghost predicate Valid()
      reads this
    {
      this !in live && failed == Failures(succeeds, requests)
    }

    /** Whether the request that comes next succeeds. */
    method Request() returns (ok: bool)
      requires Valid()
      modifies this
      ensures Valid()
      ensures ok == succeeds(old(requests)) && requests == old(requests) + 1
      ensures live == old(live) && failed == old(failed) + if ok then 0 else 1
    {
      ok := succeeds(requests);
      requests := requests + 1;
      failed := failed + if ok then 0 else 1;
    }

    /** `cJSON_New_Item` */
    method NewNode() returns (n: Node?)
      requires Valid()
      modifies this
      ensures Valid() && requests == old(requests) + 1 && (n != null <==> succeeds(old(requests)))
      ensures n != null ==> fresh(n) && n.IsZero() && live == old(live) + {n} && failed == old(failed)
      ensures n == null ==> live == old(live) && failed == old(failed) + 1
    {
      var ok := Request();
      n := null;
      if ok {
        n := new Node();
        live := live + {n};
      }
    }

    /** `cJSON_malloc` for a string; the block is not initialised. */
    method NewBytes(size: nat) returns (b: array?<byte>)
      requires Valid()
      modifies this
      ensures Valid() && requests == old(requests) + 1 && (b != null <==> succeeds(old(requests)))
      ensures b != null ==> fresh(b) && b.Length == size && live == old(live) + {b} && failed == old(failed)
      ensures b == null ==> live == old(live) && failed == old(failed) + 1
    {
      var ok := Request();
      b := null;
      if ok {
        b := new byte[size];
        live := live + {b};
      }
    }

    /** `cJSON_malloc` and `memset` for an array of string pointers. */
    method NewPointers(size: nat) returns (b: array?<array?<byte>>)
      requires Valid()
      modifies this
      ensures Valid() && requests == old(requests) + 1 && (b != null <==> succeeds(old(requests)))
      ensures b != null ==> fresh(b) && b.Length == size && (forall i :: 0 <= i < size ==> b[i] == null)
      ensures b != null ==> live == old(live) + {b} && failed == old(failed)
      ensures b == null ==> live == old(live) && failed == old(failed) + 1
    {
      var ok := Request();
      b := null;
      if ok {
        b := new array?<byte>[size](_ => null);
        live := live + {b};
      }
    }

    /** `cJSON_free`; freeing a block twice, or one that was never given out, is excluded. */
    method Free(b: object)
      requires Valid() && b in live
      modifies this
      ensures Valid() && live == old(live) - {b} && failed == old(failed) && requests == old(requests)
    {
      live := live - {b};
    }
  }

  /** A request made since then failed. */
  twostate predicate Denied(a: Allocator)
    reads a
  {
    exists n :: old(a.requests) <= n < a.requests && !a.succeeds(n)
  }

  /** The number of failures is larger exactly when a request made since then failed. */
  twostate lemma DeniedIsCounted(a: Allocator)
    requires old(a.Valid()) && a.Valid()
    ensures Denied(a) ==> a.failed > old(a.failed)
    ensures a.failed > old(a.failed) ==> Denied(a)
  {
    if a.requests > old(a.requests) {
      CountedFrom(a.succeeds, old(a.requests), a.requests);
    } else {
      CountedFrom(a.succeeds, a.requests, old(a.requests));
    }
  }

  lemma {:induction false} CountedFrom(succeeds: nat -> bool, m: nat, n: nat)
    requires m <= n
    ensures Failures(succeeds, m) <= Failures(succeeds, n)
    ensures Failures(succeeds, m) < Failures(succeeds, n) <==> exists k :: m <= k < n && !succeeds(k)
    decreases n
  {
    if m < n {
      CountedFrom(succeeds, m, n - 1);
      assert !succeeds(n - 1) ==> exists k :: m <= k < n && !succeeds(k);
    }
  }

  // ---------------------------------------------------------------- shapes

  /**
    What hangs on a node: whether it is a reference, its value string, its name, and the
    shapes of its children in order.
   */
  datatype Shape = Shape(node: Node, ref: bool, text: array?<byte>, name: array?<byte>, kids: seq<Shape>)

  function Block(b: object?): set<object> {
    if b == null then {} else {b}
  }

  /** Every block that can be reached. */
  function Foot(s: Shape): set<object>
    decreases s, 0
  {
    {s.node} + Block(s.text) + Block(s.name) + Feet(s.kids)
  }

  function Feet(ss: seq<Shape>): set<object>
    decreases ss, 1
  {
    if ss == [] then {} else Feet(ss[..|ss| - 1]) + Foot(ss[|ss| - 1])
  }

  /** The blocks that belong to a shape: a reference shares its string and its children. */
  function Owns(s: Shape): set<object>
    decreases s, 0
  {
    {s.node} + Block(s.name) + (if s.ref then {} else Block(s.text) + AllOwn(s.kids))
  }

  function AllOwn(ss: seq<Shape>): set<object>
    decreases ss, 1
  {
    if ss == [] then {} else AllOwn(ss[..|ss| - 1]) + Owns(ss[|ss| - 1])
  }

  function First(ss: seq<Shape>): Node? {
    if ss == [] then null else ss[0].node
  }

  function Previous(ss: seq<Shape>, i: nat): Node?
    requires i < |ss|
  {
    if i == 0 then null else ss[i - 1].node
  }

  function Next(ss: seq<Shape>, i: nat): Node?
    requires i < |ss|
  {
    if i + 1 == |ss| then null else ss[i + 1].node
  }

  ghost function Nodes(ss: seq<Shape>): set<Node> {
    set i | 0 <= i < |ss| :: ss[i].node
  }

  /** `next` and `prev` of the nodes are those of a list in this order, ended by nulls. */
  ghost predicate Chained(ss: seq<Shape>)
    reads Nodes(ss)`next, Nodes(ss)`prev
  {
    && (forall i {:trigger ss[i].node.prev} :: 0 <= i < |ss| ==> ss[i].node.prev == Previous(ss, i))
    && (forall i {:trigger ss[i].node.next} :: 0 <= i < |ss| ==> ss[i].node.next == Next(ss, i))
  }

  /** A string pointer is null or points to a C string. */
  ghost predicate IsString(b: array?<byte>)
    reads b
  {
    b != null ==> Terminated(b[..])
  }

  /** The fields of the node are as the shape says, its strings are C strings, and so it is with everything below it. */
  ghost predicate Holds(s: Shape)
    reads Foot(s)
    decreases s, 1
  {
    && s.node.isReference == s.ref && s.node.valuestring == s.text && s.node.name == s.name
    && s.node.child == First(s.kids) && IsString(s.text) && IsString(s.name)
    && AllHold(s.kids) && (NodesInFeet(s.kids); Chained(s.kids))
  }

  ghost predicate AllHold(ss: seq<Shape>)
    reads Feet(ss)
    decreases ss, 2
  {
    ss == [] || (AllHold(ss[..|ss| - 1]) && Holds(ss[|ss| - 1]))
  }

  ghost predicate Linked(ss: seq<Shape>)
    reads Feet(ss)
  {
    NodesInFeet(ss);
    AllHold(ss) && Chained(ss)
  }

  lemma {:induction false} NodesInFeet(ss: seq<Shape>)
    ensures Nodes(ss) <= Feet(ss)
  {
    if ss != [] {
      var init := ss[..|ss| - 1];
      NodesInFeet(init);
      forall i | 0 <= i < |ss|
        ensures ss[i].node in Feet(ss)
      {
        assert i < |init| ==> ss[i] == init[i] && init[i].node in Nodes(init);
      }
    }
  }

  /** No block is reached twice. */
  predicate Apart(s: Shape)
    decreases s, 1
  {
    && s.node !in Feet(s.kids) && Block(s.text) !! Feet(s.kids) && Block(s.name) !! Feet(s.kids)
    && Block(s.text) !! Block(s.name)
    && AllApart(s.kids)
  }

  predicate AllApart(ss: seq<Shape>)
    decreases ss, 2
  {
    ss == []
    || (AllApart(ss[..|ss| - 1]) && Apart(ss[|ss| - 1]) && Feet(ss[..|ss| - 1]) !! Foot(ss[|ss| - 1]))
  }

  lemma {:induction false} NodesDiffer(ss: seq<Shape>)
    requires AllApart(ss)
    ensures forall i, j :: 0 <= i < j < |ss| ==> ss[i].node != ss[j].node
  {
    if ss != [] {
      var init := ss[..|ss| - 1];
      NodesDiffer(init);
      NodesInFeet(init);
      forall i, j | 0 <= i < j < |ss|
        ensures ss[i].node != ss[j].node
      {
        assert ss[i] == init[i] && init[i].node in Nodes(init);
        assert j < |init| ==> ss[j] == init[j];
      }
    }
  }

  // ---------------------------------------------------------------- values

  ghost function StringOf(b: array?<byte>): seq<byte>
    reads b
  {
    if b == null then [] else CStr(b[..])
  }

  ghost function ValueOf(s: Shape): Json
    reads Foot(s)
    decreases s, 0
  {
    match s.node.kind
    case NullKind => Null
    case FalseKind => False
    case TrueKind => True
    case NumberKind => Number(s.node.valuedouble)
    case StringKind => String(StringOf(s.text))
    case ArrayKind => Array(Values(s.kids))
    case ObjectKind => Object(Members(s.kids))
  }

  ghost function Values(ss: seq<Shape>): (r: seq<Json>)
    reads Feet(ss)
    ensures |r| == |ss|
    decreases ss, 1
  {
    if ss == [] then [] else Values(ss[..|ss| - 1]) + [ValueOf(ss[|ss| - 1])]
  }

  ghost function Members(ss: seq<Shape>): (r: seq<Member>)
    reads Feet(ss)
    ensures |r| == |ss|
    decreases ss, 1
  {
    if ss == [] then []
    else
      var s := ss[|ss| - 1];
      Members(ss[..|ss| - 1]) + [Member(StringOf(s.name), ValueOf(s))]
  }

  /** The cast `(int)`: the nearest integer that is not further from zero. */
  function Truncate(r: real): (n: int)
    ensures r >= 0.0 ==> n as real <= r < n as real + 1.0
    ensures r <= 0.0 ==> n as real - 1.0 < r <= n as real
  {
    if r >= 0.0 then r.Floor else -((-r).Floor)
  }

  ghost predicate HoldsString(b: array?<byte>)
    reads b
  {
    b != null && Terminated(b[..])
  }

  /** What the printers rely on: strings and names are there, and the two number fields agree. */
  ghost predicate Typed(s: Shape)
    reads Foot(s)
    decreases s, 0
  {
    match s.node.kind
    case NumberKind => s.node.valueint == Truncate(s.node.valuedouble)
    case StringKind => HoldsString(s.text)
    case ArrayKind => AllTyped(s.kids)
    case ObjectKind => AllTyped(s.kids) && AllNamed(s.kids)
    case _ => true
  }

  ghost predicate AllTyped(ss: seq<Shape>)
    reads Feet(ss)
    decreases ss, 1
  {
    ss == [] || (AllTyped(ss[..|ss| - 1]) && Typed(ss[|ss| - 1]))
  }

  ghost predicate AllNamed(ss: seq<Shape>)
    reads Feet(ss)
  {
    if ss == [] then true
    else
      var s := ss[|ss| - 1];
      assert Block(s.name) <= Foot(s);
      AllNamed(ss[..|ss| - 1]) && HoldsString(s.name)
  }

  /** No node of the shapes is a reference. */
  predicate Whole(ss: seq<Shape>) {
    ss == [] || (Whole(ss[..|ss| - 1]) && !ss[|ss| - 1].ref && Whole(ss[|ss| - 1].kids))
  }

  /** The shape of a node with the given children. */
  ghost function ShapeOf(n: Node, kids: seq<Shape>): Shape
    reads n
  {
    Shape(n, n.isReference, n.valuestring, n.name, kids)
  }

  /** The footprints of the parts of a list. */
  lemma Parts(ss: seq<Shape>)
    requires ss != []
    ensures var init, s := ss[..|ss| - 1], ss[|ss| - 1];
            && Feet(ss) == Feet(init) + Foot(s)
            && Foot(s) == {s.node} + Block(s.text) + Block(s.name) + Feet(s.kids)
            && (AllApart(ss) ==> AllApart(init) && Apart(s) && Feet(init) !! Foot(s))
  {
  }

  /** Everything said of a list of shapes is said of its first ones and of the last one. */
  lemma Appended(ss: seq<Shape>, s: Shape)
    ensures var more := ss + [s]; more[..|more| - 1] == ss && more[|more| - 1] == s
    ensures Feet(ss + [s]) == Feet(ss) + Foot(s)
    ensures AllApart(ss + [s]) <==> AllApart(ss) && Apart(s) && Feet(ss) !! Foot(s)
    ensures Whole(ss + [s]) <==> Whole(ss) && !s.ref && Whole(s.kids)
    ensures AllHold(ss + [s]) <==> AllHold(ss) && Holds(s)
    ensures AllTyped(ss + [s]) <==> AllTyped(ss) && Typed(s)
    ensures AllNamed(ss + [s]) <==> AllNamed(ss) && HoldsString(s.name)
    ensures Values(ss + [s]) == Values(ss) + [ValueOf(s)]
    ensures Members(ss + [s]) == Members(ss) + [Member(StringOf(s.name), ValueOf(s))]
  {
    assert (ss + [s])[..|ss|] == ss;
  }

  /** The fields of a node that its links to its neighbours are not part of. */
  twostate predicate SameContent(n: Node)
    reads n
  {
    && n.child == old(n.child) && n.kind == old(n.kind) && n.isReference == old(n.isReference)
    && n.valuestring == old(n.valuestring) && n.valueint == old(n.valueint) && n.valuedouble == old(n.valuedouble)
    && n.name == old(n.name)
  }

  /** Relinking a node to its neighbours leaves what it holds as it is. */
  twostate lemma Relinked(s: Shape)
    requires SameContent(s.node) && old(allocated(Feet(s.kids) + Block(s.text) + Block(s.name)))
    requires unchanged(Feet(s.kids) + Block(s.text) + Block(s.name))
    ensures Holds(s) == old(Holds(s)) && ValueOf(s) == old(ValueOf(s)) && Typed(s) == old(Typed(s))
  {
    NodesInFeet(s.kids);
  }

  /** Relinking the last node of a list leaves what the nodes hold as it is. */
  twostate lemma LastRelinked(ss: seq<Shape>)
    requires ss != [] && AllApart(ss)
    requires SameContent(ss[|ss| - 1].node) && old(allocated(Feet(ss)))
    requires unchanged(Feet(ss) - {ss[|ss| - 1].node})
    ensures AllHold(ss) == old(AllHold(ss))
    ensures Values(ss) == old(Values(ss)) && Members(ss) == old(Members(ss))
    ensures AllTyped(ss) == old(AllTyped(ss)) && AllNamed(ss) == old(AllNamed(ss))
  {
    Parts(ss);
    Untouched(ss[..|ss| - 1]);
    Relinked(ss[|ss| - 1]);
  }

  /** What can be reached is allocated. */
  lemma InHeap(ss: seq<Shape>)
    ensures allocated(Feet(ss)) && allocated(Nodes(ss))
  {
  }

  twostate lemma Unchanged(s: Shape)
    requires old(allocated(Foot(s))) && unchanged(Foot(s))
    ensures Holds(s) == old(Holds(s)) && Typed(s) == old(Typed(s)) && ValueOf(s) == old(ValueOf(s))
  {
  }

  twostate lemma Untouched(ss: seq<Shape>)
    requires old(allocated(Feet(ss))) && unchanged(Feet(ss))
    ensures AllHold(ss) == old(AllHold(ss))
    ensures Values(ss) == old(Values(ss)) && Members(ss) == old(Members(ss))
    ensures AllTyped(ss) == old(AllTyped(ss)) && AllNamed(ss) == old(AllNamed(ss))
  {
  }

  /** What is said of a list of shapes is said of each of them. */
  lemma {:induction false} Element(ss: seq<Shape>, i: nat)
    requires i < |ss|
    ensures Foot(ss[i]) <= Feet(ss)
    ensures AllHold(ss) ==> Holds(ss[i])
    ensures AllTyped(ss) ==> Typed(ss[i])
    ensures AllNamed(ss) ==> HoldsString(ss[i].name)
    ensures Values(ss)[i] == ValueOf(ss[i])
    ensures Members(ss)[i] == Member(StringOf(ss[i].name), ValueOf(ss[i]))
    decreases ss
  {
    var init := ss[..|ss| - 1];
    if i < |init| {
      assert init[i] == ss[i];
      Element(init, i);
    }
  }
}
