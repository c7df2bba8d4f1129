/** Lists of shapes as sequences, and what editing the links between them keeps. */
module Lists {
  import opened Bytes
  import opened Heap
  import opened Json

  function Inserted<T>(ss: seq<T>, i: nat, s: T): seq<T>
    requires i <= |ss|
  {
    ss[..i] + [s] + ss[i..]
  }

  function Removed<T>(ss: seq<T>, i: nat): seq<T>
    requires i < |ss|
  {
    ss[..i] + ss[i + 1..]
  }

  /** What stands where in a list into which something is put. */
  lemma InsertedAt<T>(ss: seq<T>, i: nat, s: T)
    requires i <= |ss|
    ensures var r := Inserted(ss, i, s);
            && |r| == |ss| + 1 && r[i] == s
            && forall n :: 0 <= n < |r| && n != i ==> r[n] == if n < i then ss[n] else ss[n - 1]
  {
  }

  lemma RemovedAt<T>(ss: seq<T>, i: nat)
    requires i < |ss|
    ensures var r := Removed(ss, i);
            |r| == |ss| - 1 && forall n :: 0 <= n < |r| ==> r[n] == if n < i then ss[n] else ss[n + 1]
  {
  }

  lemma {:induction false} JoinedFeet(a: seq<Shape>, b: seq<Shape>)
    ensures Feet(a + b) == Feet(a) + Feet(b)
    decreases |b|
  {
    if b == [] {
      Neutral(a);
    } else {
      var init, s := b[..|b| - 1], b[|b| - 1];
      JoinedFeet(a, init);
      Associate(a, init, [s]);
      assert b == init + [s];
      Appended(a + init, s);
    }
  }

  lemma {:induction false} JoinedHold(a: seq<Shape>, b: seq<Shape>)
    ensures AllHold(a + b) <==> AllHold(a) && AllHold(b)
    ensures AllTyped(a + b) <==> AllTyped(a) && AllTyped(b)
    ensures AllNamed(a + b) <==> AllNamed(a) && AllNamed(b)
    decreases |b|
  {
    if b == [] {
      Neutral(a);
    } else {
      var init, s := b[..|b| - 1], b[|b| - 1];
      JoinedHold(a, init);
      Associate(a, init, [s]);
      assert b == init + [s];
      Appended(a + init, s);
    }
  }

  lemma {:induction false} JoinedValues(a: seq<Shape>, b: seq<Shape>)
    ensures Values(a + b) == Values(a) + Values(b)
    ensures Members(a + b) == Members(a) + Members(b)
    decreases |b|
  {
    if b == [] {
      Neutral(a);
    } else {
      var init, s := b[..|b| - 1], b[|b| - 1];
      JoinedValues(a, init);
      Associate(a, init, [s]);
      assert b == init + [s];
      Appended(a + init, s);
      Associate(Values(a), Values(init), [ValueOf(s)]);
      Associate(Members(a), Members(init), [Member(StringOf(s.name), ValueOf(s))]);
    }
  }

  lemma {:induction false} JoinedApart(a: seq<Shape>, b: seq<Shape>)
    ensures AllApart(a + b) <==> AllApart(a) && AllApart(b) && Feet(a) !! Feet(b)
    decreases |b|
  {
    if b == [] {
      Neutral(a);
    } else {
      var init, s := b[..|b| - 1], b[|b| - 1];
      JoinedApart(a, init);
      Associate(a, init, [s]);
      assert b == init + [s];
      Appended(a + init, s);
      JoinedFeet(a, init);
    }
  }

  /** Everything said of a list is said of its two parts. */
  lemma Joined(a: seq<Shape>, b: seq<Shape>)
    ensures Feet(a + b) == Feet(a) + Feet(b)
    ensures AllApart(a + b) <==> AllApart(a) && AllApart(b) && Feet(a) !! Feet(b)
    ensures AllHold(a + b) <==> AllHold(a) && AllHold(b)
    ensures AllTyped(a + b) <==> AllTyped(a) && AllTyped(b)
    ensures AllNamed(a + b) <==> AllNamed(a) && AllNamed(b)
    ensures Values(a + b) == Values(a) + Values(b)
    ensures Members(a + b) == Members(a) + Members(b)
  {
    JoinedFeet(a, b);
    JoinedApart(a, b);
    JoinedHold(a, b);
    JoinedValues(a, b);
  }

  /** What is below the nodes of a list: everything else that can be reached from it. */
  function Below(s: Shape): set<object> {
    Feet(s.kids) + Block(s.text) + Block(s.name)
  }

  ghost predicate Differ(ss: seq<Shape>) {
    forall i, j :: 0 <= i < j < |ss| ==> ss[i].node != ss[j].node
  }

  ghost predicate NotAmong(n: Node, ss: seq<Shape>) {
    forall k :: 0 <= k < |ss| ==> ss[k].node != n
  }

  /** The nodes of a list differ and are not below each other; what is below them may be shared. */
  ghost predicate Separate(ss: seq<Shape>) {
    && Differ(ss)
    && (forall i, j :: 0 <= i < |ss| && 0 <= j < |ss| ==> ss[i].node !in Below(ss[j]))
  }

  /** What the shapes say and hold is the same before and after. */
  twostate predicate Kept(ss: seq<Shape>)
    requires old(allocated(Feet(ss)))
    reads Feet(ss)
  {
    && AllHold(ss) == old(AllHold(ss)) && AllTyped(ss) == old(AllTyped(ss)) && AllNamed(ss) == old(AllNamed(ss))
    && Values(ss) == old(Values(ss)) && Members(ss) == old(Members(ss))
  }

  /** The shape of one node is the same when at most the links of the node were written. */
  twostate predicate OnlyLinks(s: Shape)
    reads Foot(s)
  {
    SameContent(s.node) && old(allocated(Foot(s))) && unchanged(Below(s))
  }

  /** Writing only links of the nodes of a list keeps what the list holds. */
  twostate lemma {:induction false} LinksOnly(ss: seq<Shape>)
    requires old(allocated(Feet(ss))) && forall i :: 0 <= i < |ss| ==> OnlyLinks(ss[i])
    ensures Kept(ss)
    decreases |ss|
  {
    if ss != [] {
      var init, s := ss[..|ss| - 1], ss[|ss| - 1];
      forall i | 0 <= i < |init|
        ensures OnlyLinks(init[i])
      {
        assert init[i] == ss[i];
      }
      LinksOnly(init);
      assert OnlyLinks(s);
      Relinked(s);
    }
  }

  lemma BelowInFeet(ss: seq<Shape>, i: nat)
    requires i < |ss| && Separate(ss)
    ensures Below(ss[i]) <= Feet(ss) - Nodes(ss)
  {
    Element(ss, i);
  }

  /** At most the links of some nodes are written, and nothing below a list. */
  twostate predicate LinksWritten(ss: seq<Shape>, links: set<Node>)
    requires old(allocated(Feet(ss)) && allocated(links))
    reads Feet(ss), links
  {
    unchanged(Feet(ss) - links) && forall n :: n in links ==> SameContent(n)
  }

  /** An edit that writes only links of nodes of the list keeps what the list holds. */
  twostate lemma Edited(ss: seq<Shape>)
    requires old(allocated(Feet(ss)) && allocated(Nodes(ss))) && Separate(ss)
    requires LinksWritten(ss, Nodes(ss))
    ensures Kept(ss)
  {
    forall i | 0 <= i < |ss|
      ensures OnlyLinks(ss[i])
    {
      assert ss[i].node in Nodes(ss);
      BelowInFeet(ss, i);
      Element(ss, i);
    }
    LinksOnly(ss);
  }

  lemma SeparatePart(ss: seq<Shape>, s: Shape)
    requires Separate(ss + [s])
    ensures Separate(ss) && NotAmong(s.node, ss)
  {
    assert forall i :: 0 <= i < |ss| ==> (ss + [s])[i] == ss[i];
    assert (ss + [s])[|ss|] == s;
  }

  /** The links of a list, but for those between two neighbours. */
  ghost predicate ChainedBut(ss: seq<Shape>, i: nat)
    reads Nodes(ss)`next, Nodes(ss)`prev
  {
    && (forall k {:trigger ss[k].node.prev} :: 0 <= k < |ss| && k != i ==> ss[k].node.prev == Previous(ss, k))
    && (forall k {:trigger ss[k].node.next} :: 0 <= k < |ss| && k + 1 != i ==> ss[k].node.next == Next(ss, k))
  }

  lemma ChainInserted(ss: seq<Shape>, i: nat, s: Shape)
    requires i < |ss| && ChainedBut(ss, i)
    requires s.node.prev == Previous(ss, i) && s.node.next == ss[i].node
    requires ss[i].node.prev == s.node && (i > 0 ==> ss[i - 1].node.next == s.node)
    ensures Chained(Inserted(ss, i, s)) && First(Inserted(ss, i, s)) == if i == 0 then s.node else First(ss)
  {
    var r := Inserted(ss, i, s);
    assert r[i] == s && (forall k :: 0 <= k < i ==> r[k] == ss[k]) && (forall k :: i < k < |r| ==> r[k] == ss[k - 1]);
    forall k | 0 <= k < |r|
      ensures r[k].node.prev == Previous(r, k)
    {
      if k > i {
        assert r[k] == ss[k - 1] && r[k - 1] == if k == i + 1 then s else ss[k - 2];
      }
    }
    forall k | 0 <= k < |r|
      ensures r[k].node.next == Next(r, k)
    {
      if k > i {
        assert r[k] == ss[k - 1];
      }
    }
  }

  lemma {:induction false} ChainRemoved(ss: seq<Shape>, i: nat)
    requires i < |ss|
    requires forall k {:trigger ss[k].node.prev} :: 0 <= k < |ss| && k != i ==>
               ss[k].node.prev == if k == i + 1 then Previous(ss, i) else Previous(ss, k)
    requires forall k {:trigger ss[k].node.next} :: 0 <= k < |ss| && k != i ==>
               ss[k].node.next == if k + 1 == i then Next(ss, i) else Next(ss, k)
    ensures Chained(Removed(ss, i))
    ensures First(Removed(ss, i)) == if i == 0 then Next(ss, i) else First(ss)
  {
    var r := Removed(ss, i);
    assert (forall k :: 0 <= k < i ==> r[k] == ss[k]) && (forall k :: i <= k < |r| ==> r[k] == ss[k + 1]);
    forall k | 0 <= k < |r|
      ensures r[k].node.prev == Previous(r, k)
    {
      if k >= i {
        assert r[k] == ss[k + 1];
      }
    }
    forall k | 0 <= k < |r|
      ensures r[k].node.next == Next(r, k)
    {
      if k >= i {
        assert r[k] == ss[k + 1];
      }
    }
  }

  lemma {:induction false} ChainReplaced(ss: seq<Shape>, i: nat, s: Shape)
    requires i < |ss| && s.node.prev == Previous(ss, i) && s.node.next == Next(ss, i)
    requires forall k {:trigger ss[k].node.prev} :: 0 <= k < |ss| && k != i ==>
               ss[k].node.prev == if k == i + 1 then s.node else Previous(ss, k)
    requires forall k {:trigger ss[k].node.next} :: 0 <= k < |ss| && k != i ==>
               ss[k].node.next == if k + 1 == i then s.node else Next(ss, k)
    ensures Chained(ss[i := s]) && First(ss[i := s]) == if i == 0 then s.node else First(ss)
  {
    var r := ss[i := s];
    forall k | 0 <= k < |r|
      ensures r[k].node.prev == Previous(r, k) && r[k].node.next == Next(r, k)
    {
      assert k != i ==> r[k] == ss[k];
    }
  }

  // ---------------------------------------------------------------- what the edits mean

  /** An insertion into the list is an insertion into what it says. */
  lemma InsertedShapes(ss: seq<Shape>, i: nat, s: Shape)
    requires i <= |ss|
    ensures Feet(Inserted(ss, i, s)) == Feet(ss) + Foot(s)
    ensures AllHold(Inserted(ss, i, s)) <==> AllHold(ss) && Holds(s)
    ensures AllTyped(Inserted(ss, i, s)) <==> AllTyped(ss) && Typed(s)
    ensures Values(Inserted(ss, i, s)) == Inserted(Values(ss), i, ValueOf(s))
    ensures Members(Inserted(ss, i, s)) == Inserted(Members(ss), i, Member(StringOf(s.name), ValueOf(s)))
  {
    var a, b := ss[..i], ss[i..];
    assert ss == a + b;
    Joined(a, b);
    Joined(a + [s], b);
    Appended(a, s);
    assert Values(ss)[..i] == Values(a) && Values(ss)[i..] == Values(b);
    assert Members(ss)[..i] == Members(a) && Members(ss)[i..] == Members(b);
  }

  /** A removal from the list is a removal from what it says. */
  lemma RemovedShapes(ss: seq<Shape>, i: nat)
    requires i < |ss|
    ensures Feet(ss) == Feet(Removed(ss, i)) + Foot(ss[i])
    ensures AllHold(ss) <==> AllHold(Removed(ss, i)) && Holds(ss[i])
    ensures AllTyped(ss) <==> AllTyped(Removed(ss, i)) && Typed(ss[i])
    ensures Values(Removed(ss, i)) == Removed(Values(ss), i) && Values(ss)[i] == ValueOf(ss[i])
    ensures Members(Removed(ss, i)) == Removed(Members(ss), i)
    ensures Members(ss)[i] == Member(StringOf(ss[i].name), ValueOf(ss[i]))
  {
    RemoveInserted(ss, i);
    RemoveInserted(Values(ss), i);
    RemoveInserted(Members(ss), i);
    InsertedShapes(Removed(ss, i), i, ss[i]);
    InsertedThere(Values(Removed(ss, i)), i, ValueOf(ss[i]));
    InsertedThere(Members(Removed(ss, i)), i, Member(StringOf(ss[i].name), ValueOf(ss[i])));
  }

  lemma RemoveInserted<T>(ss: seq<T>, i: nat)
    requires i < |ss|
    ensures |Removed(ss, i)| == |ss| - 1 && Inserted(Removed(ss, i), i, ss[i]) == ss
  {
  }

  lemma InsertedThere<T>(ss: seq<T>, i: nat, s: T)
    requires i <= |ss|
    ensures var r := Inserted(ss, i, s); |r| == |ss| + 1 && r[i] == s && Removed(r, i) == ss
  {
  }

  /** No block is reached twice after an edit if none was before. */
  lemma RemovedApart(ss: seq<Shape>, i: nat)
    requires i < |ss| && AllApart(ss)
    ensures AllApart(Removed(ss, i)) && Apart(ss[i]) && Feet(Removed(ss, i)) !! Foot(ss[i])
  {
    Cut(ss, i);
    MiddleApart(ss[..i], ss[i], ss[i + 1..]);
  }

  lemma InsertedApart(ss: seq<Shape>, i: nat, s: Shape)
    requires i <= |ss| && AllApart(ss) && Apart(s) && Feet(ss) !! Foot(s)
    ensures AllApart(Inserted(ss, i, s))
  {
    var a, b := ss[..i], ss[i..];
    Halves(ss, i);
    JoinedApart(a, b);
    JoinedFeet(a, b);
    SingleApart(a, s);
    JoinedApart(a + [s], b);
  }

  lemma MiddleApart(a: seq<Shape>, s: Shape, b: seq<Shape>)
    requires AllApart(a + [s] + b)
    ensures AllApart(a + b) && Apart(s) && Feet(a + b) !! Foot(s)
  {
    JoinedApart(a + [s], b);
    SingleApart(a, s);
    JoinedApart(a, b);
    JoinedFeet(a, b);
  }

  lemma SingleApart(a: seq<Shape>, s: Shape)
    ensures AllApart(a + [s]) <==> AllApart(a) && Apart(s) && Feet(a) !! Foot(s)
    ensures Feet(a + [s]) == Feet(a) + Foot(s)
  {
    assert (a + [s])[..|a|] == a;
  }

  lemma Cut<T>(ss: seq<T>, i: nat)
    requires i < |ss|
    ensures ss == ss[..i] + [ss[i]] + ss[i + 1..]
  {
  }

  lemma ReplacedIs<T>(ss: seq<T>, i: nat, s: T)
    requires i < |ss|
    ensures ss[i := s] == Inserted(Removed(ss, i), i, s)
  {
  }

  /** A replacement in the list is a replacement in what it says. */
  lemma ReplacedShapes(ss: seq<Shape>, i: nat, s: Shape)
    requires i < |ss|
    ensures Feet(ss[i := s]) == Feet(Removed(ss, i)) + Foot(s)
    ensures AllHold(ss[i := s]) <==> AllHold(Removed(ss, i)) && Holds(s)
    ensures AllTyped(ss[i := s]) <==> AllTyped(Removed(ss, i)) && Typed(s)
    ensures Values(ss[i := s]) == Values(ss)[i := ValueOf(s)]
    ensures Members(ss[i := s]) == Members(ss)[i := Member(StringOf(s.name), ValueOf(s))]
  {
    ReplacedIs(ss, i, s);
    ReplacedIs(Values(ss), i, ValueOf(s));
    ReplacedIs(Members(ss), i, Member(StringOf(s.name), ValueOf(s)));
    RemovedShapes(ss, i);
    InsertedShapes(Removed(ss, i), i, s);
  }

  /** An item without neighbours is a list of its own. */
  lemma Alone(s: Shape)
    requires Holds(s) && s.node.next == null && s.node.prev == null
    ensures Linked([s]) && Feet([s]) == Foot(s)
  {
    assert [s][..0] == [];
  }

  lemma ReplacedFeet(ss: seq<Shape>, i: nat, s: Shape)
    requires i < |ss|
    ensures Feet(ss[i := s]) <= Feet(ss + [s]) && Foot(ss[i]) <= Feet(ss + [s])
  {
    Appended(ss, s);
    RemovedShapes(ss, i);
    ReplacedShapes(ss, i, s);
  }

  lemma {:induction false} ApartAt(ss: seq<Shape>, i: nat, j: nat)
    requires AllApart(ss) && i < j < |ss|
    ensures Foot(ss[i]) !! Foot(ss[j]) && Apart(ss[i]) && Apart(ss[j])
    decreases ss
  {
    var init := ss[..|ss| - 1];
    assert init[i] == ss[i];
    if j < |init| {
      assert init[j] == ss[j];
      ApartAt(init, i, j);
    } else {
      Element(init, i);
      ApartOne(init, i);
    }
  }

  lemma {:induction false} ApartOne(ss: seq<Shape>, i: nat)
    requires AllApart(ss) && i < |ss|
    ensures Apart(ss[i])
    decreases ss
  {
    var init := ss[..|ss| - 1];
    if i < |init| {
      assert init[i] == ss[i];
      ApartOne(init, i);
    }
  }

  /** Where no block is reached twice, the nodes of a list are separate. */
  lemma ApartSeparate(ss: seq<Shape>)
    requires AllApart(ss)
    ensures Separate(ss)
  {
    NodesDiffer(ss);
    forall i, j | 0 <= i < |ss| && 0 <= j < |ss|
      ensures ss[i].node !in Below(ss[j])
    {
      ApartOne(ss, i);
      if i < j {
        ApartAt(ss, i, j);
      } else if j < i {
        ApartAt(ss, j, i);
      }
    }
  }
}
