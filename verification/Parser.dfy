/** The recursive parser: it fills a node in place and keeps the ledger of blocks. */
module Parser {
  import opened Bytes
  import opened Heap
  import opened Json
  import opened StringParser
  import Numbers
  import Spec = ParserSpec

  /** `skip` */
  method SkipBlanks(t: seq<byte>, i: nat) returns (j: nat)
    requires i <= |t|
    ensures i <= j <= |t| && t[j..] == Skip(t[i..])
    ensures !IsBlank(At(t, j)) && (!IsBlank(At(t, i)) ==> j == i)
  {
    j := i;
    while At(t, j) != NUL && At(t, j) <= 32
      invariant i <= j <= |t| && Skip(t[j..]) == Skip(t[i..])
      invariant !IsBlank(At(t, i)) ==> j == i
      decreases |t| - j
    {
      AtHead(t, j);
      j := j + 1;
    }
    AtHead(t, j);
  }

  /** A run of digits: `n` is extended by each of them. */
  method DigitRun(t: seq<byte>, i: nat, n: real) returns (j: nat, m: real)
    requires i <= |t|
    ensures j == i + Numbers.Span(t[i..]) <= |t|
    ensures m == Numbers.Accumulate(n, t[i..j])
  {
    j, m := i, n;
    while ZERO <= At(t, j) <= NINE
      invariant i <= j <= |t| && j + Numbers.Span(t[j..]) == i + Numbers.Span(t[i..])
      invariant m == Numbers.Accumulate(n, t[i..j])
      decreases |t| - j
    {
      AtHead(t, j);
      assert t[i..j + 1][..j - i] == t[i..j];
      m := m * 10.0 + (At(t, j) as int - 0x30) as real;
      j := j + 1;
    }
    AtHead(t, j);
  }

  method ExponentRun(t: seq<byte>, i: nat) returns (j: nat, n: int)
    requires i <= |t|
    ensures j == i + Numbers.Span(t[i..]) <= |t|
    ensures n == Numbers.DigitsValue(t[i..j])
  {
    j, n := i, 0;
    while ZERO <= At(t, j) <= NINE
      invariant i <= j <= |t| && j + Numbers.Span(t[j..]) == i + Numbers.Span(t[i..])
      invariant n == Numbers.DigitsValue(t[i..j])
      decreases |t| - j
    {
      AtHead(t, j);
      assert t[i..j + 1][..j - i] == t[i..j];
      n := n * 10 + (At(t, j) as int - 0x30);
      j := j + 1;
    }
    AtHead(t, j);
  }

  method ParseNumber(item: Node, t: seq<byte>, i: nat) returns (end: nat)
    requires i <= |t|
    modifies item`kind, item`valueint, item`valuedouble
    ensures end <= |t| && item.kind == NumberKind
    ensures Numbers.ParseNumber(t[i..]).1 == t[end..]
    ensures item.valuedouble == Numbers.ParseNumber(t[i..]).0.Value()
    ensures item.valueint == Truncate(item.valuedouble)
  {
    hide Numbers.ParseWhole, Numbers.ParseFraction, Numbers.ParseExponent, Truncate, Numbers.Accumulate,
         Numbers.Scale;
    var negative, p, whole := ParseWhole(t, i);
    var q, n, places := ParseFraction(t, p, whole);
    var e;
    end, e := ParseExponent(t, q);
    ghost var s := t[i..];
    ghost var reading := Numbers.Gathered(negative, Numbers.ParseWhole(s).1, Numbers.ParseFraction(t[p..]).0, e);
    assert Numbers.ParseNumber(s) == (reading, t[end..]);
    n := Numbers.Scale(if negative then -n else n, -places + e);
    assert n == reading.Value();
    item.valuedouble := n;
    item.valueint := Truncate(n);
    item.kind := NumberKind;
  }

  /** Without an exponent, the integer field holds the digits before the point, with their sign. */
  lemma IntegerPart(t: Numbers.Token)
    requires t.Valid() && t.exponent.NoExponent?
    ensures var n := Numbers.DigitsValue(t.digits); Truncate(t.Value()) == if t.negative then -n else n
  {
    Numbers.FractionBelow(t.fraction);
    Numbers.DigitsBelow(t.digits);
  }

  /** Sign, leading zero and digits. */
  method ParseWhole(t: seq<byte>, i: nat) returns (negative: bool, j: nat, n: real)
    requires i <= |t|
    ensures j <= |t| && Numbers.ParseWhole(t[i..]).0 == negative && Numbers.ParseWhole(t[i..]).2 == t[j..]
    ensures n == Numbers.Accumulate(0.0, Numbers.ParseWhole(t[i..]).1)
  {
    j := i;
    AtHead(t, j);
    negative := At(t, j) == MINUS;
    if negative {
      j := j + 1;
    }
    AtHead(t, j);
    if At(t, j) == ZERO {
      j := j + 1;
    }
    AtHead(t, j);
    n := 0.0;
    if At(t, j) >= 0x31 && At(t, j) <= NINE {
      ghost var start := j;
      j, n := DigitRun(t, j, n);
      Slices(t, start, j);
    }
  }

  /** A point with digits after it. */
  method ParseFraction(t: seq<byte>, i: nat, n: real) returns (j: nat, m: real, places: int)
    requires i <= |t|
    ensures j <= |t| && Numbers.ParseFraction(t[i..]).1 == t[j..]
    ensures m == Numbers.Accumulate(n, Numbers.ParseFraction(t[i..]).0)
    ensures places == |Numbers.ParseFraction(t[i..]).0|
  {
    j, m, places := i, n, 0;
    AtHead(t, i);
    if At(t, i) == DOT && At(t, i + 1) >= ZERO && At(t, i + 1) <= NINE {
      j, m := DigitRun(t, i + 1, n);
      places := j - (i + 1);
      assert t[i..][1..1 + places] == t[i + 1..j] && t[i..][1 + places..] == t[j..];
    }
  }

  method ParseExponent(t: seq<byte>, i: nat) returns (j: nat, e: int)
    requires i <= |t|
    ensures j <= |t| && Numbers.ParseExponent(t[i..]) == (e, t[j..])
  {
    j, e := i, 0;
    AtHead(t, i);
    if At(t, i) == LOWER_E || At(t, i) == UPPER_E {
      j := j + 1;
      AtHead(t, j);
      var minus := At(t, j) == MINUS;
      if At(t, j) == PLUS || At(t, j) == MINUS {
        j := j + 1;
      }
      ghost var start := j;
      j, e := ExponentRun(t, j);
      Slices(t, start, j);
      if minus {
        e := -e;
      }
    }
  }

  // ---------------------------------------------------------------- lists of children

  /** A list of children built in blocks allocated since the ledger was `before`. */
  ghost predicate Built(a: Allocator, before: set<object>, kids: seq<Shape>)
    reads a, Feet(kids)
  {
    && a.Valid() && a !in Feet(kids) && a.live == before + Feet(kids)
    && Linked(kids) && AllApart(kids) && Whole(kids)
  }

  lemma SingleBuilt(a: Allocator, before: set<object>, n: Node)
    requires a.Valid() && n.IsZero() && n !in before && a.live == before + {n}
    ensures Built(a, before, [] + [Shape(n, false, null, null, [])])
  {
    var s := Shape(n, false, null, null, []);
    Appended([], s);
    assert [] + [s] == [s];
  }

  /** A new node is linked in behind the last one, if there is memory for it. */
  method Append(child: Node, a: Allocator, ghost kids: seq<Shape>, ghost before: set<object>) returns (n: Node?)
    requires Built(a, before, kids) && kids != [] && kids[|kids| - 1].node == child
    modifies a, child`next
    ensures n == null ==> a.failed > old(a.failed) && Built(a, before, kids)
    ensures n != null ==>
      && fresh(n) && a.failed == old(a.failed)
      && n.child == null && n.valuestring == null && n.name == null && !n.isReference
      && Built(a, before, kids + [Shape(n, false, null, null, [])])
    ensures Values(kids) == old(Values(kids)) && Members(kids) == old(Members(kids))
    ensures AllTyped(kids) == old(AllTyped(kids)) && AllNamed(kids) == old(AllNamed(kids))
  {
    NodesInFeet(kids);
    n := a.NewNode();
    Untouched(kids);
    label L:
    if n != null {
      ghost var s := Shape(n, false, null, null, []);
      ChainAppend(child, n, kids, s);
      LastRelinked@L(kids);
      Appended(kids, s);
    }
  }

  method ChainAppend(child: Node, n: Node, ghost kids: seq<Shape>, ghost s: Shape)
    requires kids != [] && kids[|kids| - 1].node == child && s.node == n && n !in Feet(kids)
    requires Chained(kids) && AllApart(kids) && n.next == null
    modifies child`next, n`prev
    ensures child.next == n && Chained(kids + [s])
  {
    NodesDiffer(kids);
    NodesInFeet(kids);
    child.next := n;
    n.prev := child;
    ghost var more := kids + [s];
    assert forall i :: 0 <= i < |kids| ==> more[i] == kids[i] && kids[i].node in Nodes(kids);
  }

  // ---------------------------------------------------------------- values

  /** The first three tests of `parse_value`: `strncmp` with the words. */
  method ParseWord(item: Node, t: seq<byte>, i: nat) returns (found: bool, end: nat)
    requires i <= |t|
    modifies item`kind, item`valueint
    ensures i <= end <= |t|
    ensures found ==>
      && (item.kind == NullKind || item.kind == FalseKind || (item.kind == TrueKind && item.valueint == 1))
      && Spec.ParseValue(t[i..]) == Spec.Parsed(ValueOf(ShapeOf(item, [])), t[end..])
    ensures !found ==> unchanged(item) && !(NULL_WORD <= t[i..]) && !(FALSE_WORD <= t[i..]) && !(TRUE_WORD <= t[i..])
  {
    found, end := true, i;
    if NULL_WORD <= t[i..] {
      item.kind := NullKind;
      end := i + 4;
    } else if FALSE_WORD <= t[i..] {
      item.kind := FalseKind;
      end := i + 5;
    } else if TRUE_WORD <= t[i..] {
      item.kind := TrueKind;
      item.valueint := 1;
      end := i + 4;
    } else {
      found := false;
    }
    Slices(t, i, end);
  }

  /**
    `parse_value`.  Whether it succeeds or not, what hangs on the item afterwards was
    allocated by the call, is linked properly, and is all that the call left allocated.
   */
  method ParseValue(item: Node, t: seq<byte>, i: nat, a: Allocator) returns (ok: bool, end: nat, ghost kids: seq<Shape>)
    requires a.Valid() && i <= |t| && !Spec.ParseValue(t[i..]).Undefined?
    requires item in a.live && item.child == null && item.valuestring == null && !item.isReference
    modifies a, item`kind, item`child, item`valuestring, item`valueint, item`valuedouble
    ensures end <= |t| && item.child == First(kids) && fresh(Feet(kids))
    ensures item.valuestring == null || (fresh(item.valuestring) && item.valuestring !in Feet(kids))
    ensures IsString(item.valuestring)
    ensures Built(a, old(a.live) + Block(item.valuestring), kids)
    ensures ok ==>
      && a.failed == old(a.failed) && Typed(ShapeOf(item, kids))
      && Spec.ParseValue(t[i..]) == Spec.Parsed(ValueOf(ShapeOf(item, kids)), t[end..])
      && (item.kind == TrueKind ==> item.valueint == 1)
    ensures !ok ==> Spec.ParseValue(t[i..]).Rejected? || a.failed > old(a.failed)
    decreases |t| - i, 1
  {
    hide Truncate, Numbers.ParseNumber, Skip, Apart, Spec.ParseArray, Foot, Spec.ParseString, CStr;
    ok, end, kids := true, i, [];
    AtHead(t, i);
    var found;
    found, end := ParseWord(item, t, i);
    if found {
      return;
    } else if At(t, i) == QUOTE {
      ok, end := ParseString(item, t, i, a);
    } else if At(t, i) == MINUS || (At(t, i) >= ZERO && At(t, i) <= NINE) {
      end := ParseNumber(item, t, i);
    } else if At(t, i) == LBRACKET {
      ok, end, kids := ParseArray(item, t, i, a);
    } else if At(t, i) == LBRACE {
      ok, end, kids := ParseObject(item, t, i, a);
    } else {
      ok := false;
    }
  }

  lemma SameNodes(init: seq<Shape>, s: Shape, s': Shape)
    requires Chained(init + [s]) && s.node == s'.node
    ensures Chained(init + [s'])
  {
    var ss, ss' := init + [s], init + [s'];
    assert forall i :: 0 <= i < |ss| ==> ss[i].node == ss'[i].node;
  }

  /** A list is linked when its first nodes are, and its last one holds what it should. */
  lemma LinkedOf(init: seq<Shape>, s: Shape, blank: Shape)
    requires AllHold(init) && AllApart(init) && Whole(init)
    requires Holds(s) && Apart(s) && !s.ref && Whole(s.kids) && Feet(init) !! Foot(s)
    requires Chained(init + [blank]) && s.node == blank.node
    ensures Linked(init + [s]) && AllApart(init + [s]) && Whole(init + [s])
    ensures Feet(init + [s]) == Feet(init) + Foot(s)
  {
    Appended(init, s);
    SameNodes(init, blank, s);
  }

  lemma Filled(init: seq<Shape>, child: Node, kids: seq<Shape>, blank: Shape)
    requires AllHold(init) && AllApart(init) && Whole(init)
    requires Linked(kids) && AllApart(kids) && Whole(kids)
    requires child.child == First(kids) && !child.isReference && child !in Feet(init) + Feet(kids)
    requires (Block(child.valuestring) + Block(child.name)) !! (Feet(init) + Feet(kids))
    requires Block(child.valuestring) !! Block(child.name) && Feet(init) !! Feet(kids)
    requires IsString(child.valuestring) && IsString(child.name)
    requires Chained(init + [blank]) && child == blank.node
    ensures var s := ShapeOf(child, kids);
            && Linked(init + [s]) && AllApart(init + [s]) && Whole(init + [s])
            && Feet(init + [s]) == Feet(init) + ({child} + Block(child.valuestring) + Block(child.name) + Feet(kids))
  {
    LinkedOf(init, ShapeOf(child, kids), blank);
  }

  /** A value is parsed into the last, still empty, node of a list; the nodes before it stay as they are. */
  method ParseLast(child: Node, t: seq<byte>, i: nat, a: Allocator, ghost init: seq<Shape>, ghost before: set<object>)
    returns (ok: bool, end: nat, ghost kids: seq<Shape>)
    requires i <= |t| && !Spec.ParseValue(t[i..]).Undefined?
    requires Built(a, before, init + [Shape(child, false, null, child.name, [])])
    modifies a, child`kind, child`child, child`valuestring, child`valueint, child`valuedouble
    ensures end <= |t| && fresh(Feet(kids) + Block(child.valuestring))
    ensures a.Valid()
    ensures a.live == before + (Feet(init) + ({child} + Block(child.valuestring) + Block(child.name) + Feet(kids)))
    ensures Linked(kids) && AllApart(kids) && Whole(kids)
    ensures child.child == First(kids) && !child.isReference && child !in Feet(init) + Feet(kids)
    ensures Block(child.name) !! (Feet(init) + Feet(kids)) && Block(child.valuestring) !! (Feet(init) + Feet(kids))
    ensures Block(child.valuestring) !! Block(child.name) && Feet(init) !! Feet(kids)
    ensures IsString(child.valuestring) && IsString(child.name)
    ensures AllHold(init) && AllApart(init) && Whole(init)
    ensures Chained(init + [Shape(child, false, null, child.name, [])])
    ensures Values(init) == old(Values(init)) && Members(init) == old(Members(init))
    ensures AllTyped(init) == old(AllTyped(init)) && AllNamed(init) == old(AllNamed(init))
    ensures ok ==>
      && a.failed == old(a.failed) && Typed(ShapeOf(child, kids))
      && Spec.ParseValue(t[i..]) == Spec.Parsed(ValueOf(ShapeOf(child, kids)), t[end..])
    ensures !ok ==> Spec.ParseValue(t[i..]).Rejected? || a.failed > old(a.failed)
    decreases |t| - i, 2
  {
    hide AllHold, AllTyped, AllNamed, Members, Values, ValueOf, Chained, Failures, Spec.ParseValue, CStr;
    ghost var blank := Shape(child, false, null, child.name, []);
    Appended(init, blank);
    NodesInFeet(init + [blank]);
    assert Foot(blank) == {child} + Block(child.name) && Holds(blank);
    ok, end, kids := ParseValue(child, t, i, a);
    Untouched(init);
  }

  method FillLast(child: Node, t: seq<byte>, i: nat, a: Allocator, ghost init: seq<Shape>, ghost before: set<object>)
    returns (ok: bool, end: nat, ghost s: Shape)
    requires i <= |t| && !Spec.ParseValue(t[i..]).Undefined?
    requires Built(a, before, init + [Shape(child, false, null, child.name, [])])
    modifies a, child`kind, child`child, child`valuestring, child`valueint, child`valuedouble
    ensures end <= |t| && s.node == child && s.name == child.name
    ensures Built(a, before, init + [s]) && fresh(Feet(s.kids) + Block(s.text))
    ensures Values(init) == old(Values(init)) && Members(init) == old(Members(init))
    ensures AllTyped(init) == old(AllTyped(init)) && AllNamed(init) == old(AllNamed(init))
    ensures ok ==>
      && a.failed == old(a.failed) && Typed(s)
      && Spec.ParseValue(t[i..]) == Spec.Parsed(ValueOf(s), t[end..])
    ensures !ok ==> Spec.ParseValue(t[i..]).Rejected? || a.failed > old(a.failed)
    decreases |t| - i, 3
  {
    ghost var kids;
    ok, end, kids := ParseLast(child, t, i, a, init, before);
    s := ShapeOf(child, kids);
    Filled(init, child, kids, Shape(child, false, null, child.name, []));
  }

  /** `skip`, a value into the new last node, `skip`. */
  method AddItem(child: Node, t: seq<byte>, i: nat, a: Allocator, ghost kids: seq<Shape>, ghost before: set<object>)
    returns (ok: bool, end: nat, ghost more: seq<Shape>)
    requires i <= |t| && !Spec.ParseItem(Values(kids), Skip(t[i..])).Undefined?
    requires Built(a, before, kids + [Shape(child, false, null, null, [])]) && AllTyped(kids)
    requires child.name == null && child.valuestring == null
    modifies a, child`kind, child`child, child`valuestring, child`valueint, child`valuedouble
    ensures Built(a, before, more) && fresh(Feet(more) - Feet(kids) - {child})
    ensures |more| == |kids| + 1 && more[..|kids|] == kids && more[|kids|].node == child
    ensures ok ==>
      && i < end <= |t| && a.failed == old(a.failed) && AllTyped(more)
      && Spec.ParseItem(old(Values(kids)), Skip(t[i..])) == Spec.ArrayTail(Values(more), t[end..])
    ensures !ok ==> Spec.ParseItem(old(Values(kids)), Skip(t[i..])).Rejected? || a.failed > old(a.failed)
    decreases |t| - i, 6
  {
    hide Holds, AllNamed, Members, Values, ValueOf, Chained, AllApart, Apart, Whole, Spec.ParseValue, Skip;
    end := i;
    ghost var s;
    var v := SkipBlanks(t, i);
    ok, v, s := FillLast(child, t, v, a, kids, before);
    Appended(kids, s);
    more := kids + [s];
    if ok {
      end := SkipBlanks(t, v);
    }
  }

  /** One round of the loop of `parse_array`: a comma and a value. */
  method NextItem(last: Node, t: seq<byte>, i: nat, a: Allocator, ghost kids: seq<Shape>, ghost before: set<object>)
    returns (ok: bool, end: nat, child: Node, ghost more: seq<Shape>)
    requires i < |t| && t[i] == COMMA && !Spec.ArrayTail(Values(kids), t[i..]).Undefined?
    requires Built(a, before, kids) && kids != [] && kids[|kids| - 1].node == last && AllTyped(kids)
    modifies a, last`next
    ensures Built(a, before, more) && fresh(Feet(more) - Feet(kids))
    ensures more != [] && more[|more| - 1].node == child && First(more) == First(kids)
    ensures ok ==>
      && i < end <= |t| && a.failed == old(a.failed) && AllTyped(more) && fresh(child)
      && Spec.ArrayTail(old(Values(kids)), t[i..]) == Spec.ArrayTail(Values(more), t[end..])
    ensures !ok ==> Spec.ArrayTail(old(Values(kids)), t[i..]).Rejected? || a.failed > old(a.failed)
    decreases |t| - i, 0
  {
    ok, end, child, more := false, i, last, kids;
    AtHead(t, i);
    var newItem := Append(child, a, kids, before);
    if newItem == null {
      return;
    }
    child := newItem;
    ok, end, more := AddItem(child, t, i + 1, a, kids, before);
  }

  /** The first node of an array. */
  method FirstItem(item: Node, t: seq<byte>, i: nat, a: Allocator)
    returns (ok: bool, end: nat, child: Node?, ghost kids: seq<Shape>)
    requires a.Valid() && i <= |t| && !Spec.ParseItem([], t[i..]).Undefined? && Skip(t[i..]) == t[i..]
    requires item in a.live && item.child == null
    modifies a, item`child
    ensures Built(a, old(a.live), kids) && fresh(Feet(kids)) && item.child == First(kids)
    ensures ok ==>
      && i < end <= |t| && a.failed == old(a.failed) && AllTyped(kids)
      && kids != [] && kids[|kids| - 1].node == child
      && Spec.ParseItem([], t[i..]) == Spec.ArrayTail(Values(kids), t[end..])
    ensures !ok ==> Spec.ParseItem([], t[i..]).Rejected? || a.failed > old(a.failed)
    decreases |t| - i, 7
  {
    ok, end, kids := false, i, [];
    child := a.NewNode();
    item.child := child;
    if child == null {
      return;
    }
    SingleBuilt(a, old(a.live), child);
    ok, end, kids := AddItem(child, t, i, a, [], old(a.live));
  }

  /** The loop of `parse_array` and its closing bracket. */
  method ArrayLoop(first: Node, t: seq<byte>, i: nat, a: Allocator, ghost kids: seq<Shape>, ghost before: set<object>)
    returns (ok: bool, end: nat, ghost more: seq<Shape>)
    requires i <= |t| && !Spec.ArrayTail(Values(kids), t[i..]).Undefined?
    requires Built(a, before, kids) && kids != [] && kids[|kids| - 1].node == first && AllTyped(kids)
    modifies a, first`next
    ensures Built(a, before, more) && fresh(Feet(more) - Feet(kids)) && First(more) == First(kids) && end <= |t|
    ensures ok ==>
      && a.failed == old(a.failed) && AllTyped(more)
      && Spec.ArrayTail(old(Values(kids)), t[i..]) == Spec.Parsed(Array(Values(more)), t[end..])
    ensures !ok ==> Spec.ArrayTail(old(Values(kids)), t[i..]).Rejected? || a.failed > old(a.failed)
    decreases |t| - i, 1
  {
    var v, child := i, first;
    more := kids;
    while At(t, v) == COMMA
      invariant i <= v <= |t| && more != [] && child == more[|more| - 1].node && First(more) == First(kids)
      invariant child == first || fresh(child)
      invariant Built(a, before, more) && fresh(Feet(more) - Feet(kids)) && AllTyped(more)
      invariant a.failed == old(a.failed)
      invariant Spec.ArrayTail(old(Values(kids)), t[i..]) == Spec.ArrayTail(Values(more), t[v..])
      decreases |t| - v
    {
      AtHead(t, v);
      ghost var seen := more;
      ok, v, child, more := NextItem(child, t, v, a, seen, before);
      if !ok {
        end := i;
        return;
      }
    }
    AtHead(t, v);
    ok := At(t, v) == RBRACKET;
    end := if ok then v + 1 else i;
  }

  method ParseArray(item: Node, t: seq<byte>, i: nat, a: Allocator) returns (ok: bool, end: nat, ghost kids: seq<Shape>)
    requires a.Valid() && i < |t| && t[i] == LBRACKET && !Spec.ParseArray(t[i + 1..]).Undefined?
    requires item in a.live && item.child == null
    modifies a, item`kind, item`child
    ensures end <= |t| && item.child == First(kids) && item.kind == ArrayKind && fresh(Feet(kids))
    ensures Built(a, old(a.live), kids)
    ensures ok ==>
      && a.failed == old(a.failed) && AllTyped(kids)
      && Spec.ParseArray(t[i + 1..]) == Spec.Parsed(Array(Values(kids)), t[end..])
    ensures !ok ==> Spec.ParseArray(t[i + 1..]).Rejected? || a.failed > old(a.failed)
    decreases |t| - i, 0
  {
    item.kind := ArrayKind;
    kids := [];
    ok, end := false, i;
    var v := SkipBlanks(t, i + 1);
    AtHead(t, v);
    if At(t, v) == RBRACKET {
      ok, end := true, v + 1;
      return;
    }
    var child;
    ok, v, child, kids := FirstItem(item, t, v, a);
    if !ok {
      return;
    }
    ok, end, kids := ArrayLoop(child, t, v, a, kids, old(a.live));
  }

  /** A name, a colon and a value are parsed into the last, still empty, node of a list. */
  method FillMember(child: Node, t: seq<byte>, i: nat, a: Allocator, ghost init: seq<Shape>, ghost before: set<object>)
    returns (ok: bool, end: nat, ghost s: Shape)
    requires i <= |t| && !Spec.ParseMember(Members(init), t[i..]).Undefined?
    requires Built(a, before, init + [Shape(child, false, null, null, [])])
    requires child.valuestring == null && child.name == null
    modifies a, child`kind, child`child, child`valuestring, child`valueint, child`valuedouble, child`name
    ensures end <= |t| && s.node == child
    ensures Built(a, before, init + [s]) && fresh(Feet(s.kids) + Block(s.text) + Block(s.name))
    ensures Members(init) == old(Members(init))
    ensures AllTyped(init) == old(AllTyped(init)) && AllNamed(init) == old(AllNamed(init))
    ensures ok ==>
      && i < end && a.failed == old(a.failed) && Typed(s) && HoldsString(s.name)
      && Spec.ParseMember(Members(init), t[i..])
         == Spec.ObjectTail(Members(init) + [Member(StringOf(s.name), ValueOf(s))], Skip(t[end..]))
    ensures !ok ==> Spec.ParseMember(Members(init), t[i..]).Rejected? || a.failed > old(a.failed)
    decreases |t| - i, 4
  {
    hide Spec.ParseValue, Members, Failures, Skip, CStr, Values;
    ok, end := FillKey(child, t, i, a, init, before);
    s := Shape(child, false, null, child.name, []);
    if ok {
      ok, end, s := FillLast(child, t, end, a, init, before);
    }
  }

  /** The name and the colon. */
  method FillKey(child: Node, t: seq<byte>, i: nat, a: Allocator, ghost init: seq<Shape>, ghost before: set<object>)
    returns (ok: bool, end: nat)
    requires i <= |t| && !Spec.ParseString(t[i..]).Undefined?
    requires Built(a, before, init + [Shape(child, false, null, null, [])])
    requires child.valuestring == null && child.name == null
    modifies a, child`kind, child`valuestring, child`name
    ensures end <= |t| && child.valuestring == null
    ensures Built(a, before, init + [Shape(child, false, null, child.name, [])])
    ensures child.name == null || fresh(child.name)
    ensures Members(init) == old(Members(init))
    ensures AllTyped(init) == old(AllTyped(init)) && AllNamed(init) == old(AllNamed(init))
    ensures ok ==>
      && i < end && a.failed == old(a.failed) && HoldsString(child.name)
      && Spec.ParseString(t[i..]).Parsed? && Spec.ParseString(t[i..]).value.text == StringOf(child.name)
      && Head(Skip(Spec.ParseString(t[i..]).rest)) == COLON
      && t[end..] == Skip(Skip(Spec.ParseString(t[i..]).rest)[1..])
    ensures !ok ==>
      || Spec.ParseString(t[i..]).Rejected? || a.failed > old(a.failed)
      || (Spec.ParseString(t[i..]).Parsed? && Head(Skip(Spec.ParseString(t[i..]).rest)) != COLON)
  {
    ok, end := FillName(child, t, i, a, init, before);
    if ok {
      ok, end := PassColon(t, end);
    }
  }

  /** The colon after a name and the blanks on both sides. */
  method PassColon(t: seq<byte>, i: nat) returns (ok: bool, end: nat)
    requires i <= |t|
    ensures i <= end <= |t| && ok == (Head(Skip(t[i..])) == COLON)
    ensures ok ==> i < end && t[end..] == Skip(Skip(t[i..])[1..])
  {
    end := SkipBlanks(t, i);
    AtHead(t, end);
    ok := At(t, end) == COLON;
    if ok {
      end := SkipBlanks(t, end + 1);
    }
  }

  /** A literal is parsed, and moves from the value string of the node to its name. */
  method TakeName(child: Node, t: seq<byte>, i: nat, a: Allocator) returns (ok: bool, end: nat)
    requires a.Valid() && i <= |t| && !Spec.ParseString(t[i..]).Undefined?
    requires child.valuestring == null && child.name == null
    modifies a, child`kind, child`valuestring, child`name
    ensures a.Valid() && end <= |t| && child.valuestring == null
    ensures child.name == null || fresh(child.name)
    ensures a.live == old(a.live) + Block(child.name)
    ensures ok ==>
      && a.failed == old(a.failed) && HoldsString(child.name)
      && Spec.ParseString(t[i..]) == Spec.Parsed(String(StringOf(child.name)), t[end..])
    ensures !ok ==> child.name == null && (Spec.ParseString(t[i..]).Rejected? || a.failed > old(a.failed))
  {
    ok, end := ParseString(child, t, i, a);
    if ok {
      child.name := child.valuestring;
      child.valuestring := null;
    }
  }

  /** The name is parsed into the last node of a list; the nodes before it stay as they are. */
  method FillName(child: Node, t: seq<byte>, i: nat, a: Allocator, ghost init: seq<Shape>, ghost before: set<object>)
    returns (ok: bool, end: nat)
    requires i <= |t| && !Spec.ParseString(t[i..]).Undefined?
    requires Built(a, before, init + [Shape(child, false, null, null, [])])
    requires child.valuestring == null && child.name == null
    modifies a, child`kind, child`valuestring, child`name
    ensures end <= |t| && child.valuestring == null
    ensures Built(a, before, init + [Shape(child, false, null, child.name, [])])
    ensures child.name == null || fresh(child.name)
    ensures Members(init) == old(Members(init))
    ensures AllTyped(init) == old(AllTyped(init)) && AllNamed(init) == old(AllNamed(init))
    ensures ok ==>
      && a.failed == old(a.failed) && HoldsString(child.name)
      && Spec.ParseString(t[i..]) == Spec.Parsed(String(StringOf(child.name)), t[end..])
    ensures !ok ==> Spec.ParseString(t[i..]).Rejected? || a.failed > old(a.failed)
  {
    hide AllHold, Members, Values, AllApart, Spec.ParseString;
    ghost var blank := Shape(child, false, null, null, []);
    Appended(init, blank);
    assert Foot(blank) == {child} && Holds(blank);
    ok, end := TakeName(child, t, i, a);
    Untouched(init);
    LinkedOf(init, Shape(child, false, null, child.name, []), blank);
  }

  /** `skip`, a name, a colon and a value into the new last node, `skip`. */
  method AddMember(child: Node, t: seq<byte>, i: nat, a: Allocator, ghost kids: seq<Shape>, ghost before: set<object>)
    returns (ok: bool, end: nat, ghost more: seq<Shape>)
    requires i <= |t| && !Spec.ParseMember(Members(kids), Skip(t[i..])).Undefined?
    requires Built(a, before, kids + [Shape(child, false, null, null, [])]) && AllTyped(kids) && AllNamed(kids)
    requires child.name == null && child.valuestring == null
    modifies a, child`kind, child`child, child`valuestring, child`valueint, child`valuedouble, child`name
    ensures Built(a, before, more) && fresh(Feet(more) - Feet(kids) - {child})
    ensures |more| == |kids| + 1 && more[..|kids|] == kids && more[|kids|].node == child
    ensures ok ==>
      && i < end <= |t| && a.failed == old(a.failed) && AllTyped(more) && AllNamed(more)
      && Spec.ParseMember(old(Members(kids)), Skip(t[i..])) == Spec.ObjectTail(Members(more), t[end..])
    ensures !ok ==> Spec.ParseMember(old(Members(kids)), Skip(t[i..])).Rejected? || a.failed > old(a.failed)
    decreases |t| - i, 6
  {
    hide Holds, AllNamed, Members, Values, ValueOf, Chained, AllApart, Apart, Whole, Skip;
    end := i;
    ghost var s;
    var v := SkipBlanks(t, i);
    ok, v, s := FillMember(child, t, v, a, kids, before);
    Appended(kids, s);
    more := kids + [s];
    if ok {
      end := SkipBlanks(t, v);
    }
  }

  /** One round of the loop of `parse_object`: a comma, a name, a colon and a value. */
  method NextMember(last: Node, t: seq<byte>, i: nat, a: Allocator, ghost kids: seq<Shape>, ghost before: set<object>)
    returns (ok: bool, end: nat, child: Node, ghost more: seq<Shape>)
    requires i < |t| && t[i] == COMMA && !Spec.ObjectTail(Members(kids), t[i..]).Undefined?
    requires Built(a, before, kids) && kids != [] && kids[|kids| - 1].node == last && AllTyped(kids) && AllNamed(kids)
    modifies a, last`next
    ensures Built(a, before, more) && fresh(Feet(more) - Feet(kids))
    ensures more != [] && more[|more| - 1].node == child && First(more) == First(kids)
    ensures ok ==>
      && i < end <= |t| && a.failed == old(a.failed) && AllTyped(more) && AllNamed(more) && fresh(child)
      && Spec.ObjectTail(old(Members(kids)), t[i..]) == Spec.ObjectTail(Members(more), t[end..])
    ensures !ok ==> Spec.ObjectTail(old(Members(kids)), t[i..]).Rejected? || a.failed > old(a.failed)
    decreases |t| - i, 0
  {
    hide Chained, Holds, AllApart, Apart, Whole, Members, Values;
    ok, end, child, more := false, i, last, kids;
    AtHead(t, i);
    var newItem := Append(child, a, kids, before);
    if newItem == null {
      return;
    }
    child := newItem;
    ok, end, more := AddMember(child, t, i + 1, a, kids, before);
  }

  /** The first node of an object. */
  method FirstMember(item: Node, t: seq<byte>, i: nat, a: Allocator)
    returns (ok: bool, end: nat, child: Node?, ghost kids: seq<Shape>)
    requires a.Valid() && i <= |t| && !Spec.ParseMember([], t[i..]).Undefined? && Skip(t[i..]) == t[i..]
    requires item in a.live && item.child == null
    modifies a, item`child
    ensures Built(a, old(a.live), kids) && fresh(Feet(kids)) && item.child == First(kids)
    ensures ok ==>
      && i < end <= |t| && a.failed == old(a.failed) && AllTyped(kids) && AllNamed(kids)
      && kids != [] && kids[|kids| - 1].node == child
      && Spec.ParseMember([], t[i..]) == Spec.ObjectTail(Members(kids), t[end..])
    ensures !ok ==> Spec.ParseMember([], t[i..]).Rejected? || a.failed > old(a.failed)
    decreases |t| - i, 7
  {
    ok, end, kids := false, i, [];
    child := a.NewNode();
    item.child := child;
    if child == null {
      return;
    }
    SingleBuilt(a, old(a.live), child);
    ok, end, kids := AddMember(child, t, i, a, [], old(a.live));
  }

  /** The loop of `parse_object` and its closing bracket. */
  method ObjectLoop(first: Node, t: seq<byte>, i: nat, a: Allocator, ghost kids: seq<Shape>, ghost before: set<object>)
    returns (ok: bool, end: nat, ghost more: seq<Shape>)
    requires i <= |t| && !Spec.ObjectTail(Members(kids), t[i..]).Undefined?
    requires Built(a, before, kids) && kids != [] && kids[|kids| - 1].node == first && AllTyped(kids) && AllNamed(kids)
    modifies a, first`next
    ensures Built(a, before, more) && fresh(Feet(more) - Feet(kids)) && First(more) == First(kids) && end <= |t|
    ensures ok ==>
      && a.failed == old(a.failed) && AllTyped(more) && AllNamed(more)
      && Spec.ObjectTail(old(Members(kids)), t[i..]) == Spec.Parsed(Object(Members(more)), t[end..])
    ensures !ok ==> Spec.ObjectTail(old(Members(kids)), t[i..]).Rejected? || a.failed > old(a.failed)
    decreases |t| - i, 1
  {
    var v, child := i, first;
    more := kids;
    while At(t, v) == COMMA
      invariant i <= v <= |t| && more != [] && child == more[|more| - 1].node && First(more) == First(kids)
      invariant child == first || fresh(child)
      invariant Built(a, before, more) && fresh(Feet(more) - Feet(kids)) && AllTyped(more) && AllNamed(more)
      invariant a.failed == old(a.failed)
      invariant Spec.ObjectTail(old(Members(kids)), t[i..]) == Spec.ObjectTail(Members(more), t[v..])
      decreases |t| - v
    {
      AtHead(t, v);
      ghost var seen := more;
      ok, v, child, more := NextMember(child, t, v, a, seen, before);
      if !ok {
        end := i;
        return;
      }
    }
    AtHead(t, v);
    ok := At(t, v) == RBRACE;
    end := if ok then v + 1 else i;
  }

  method ParseObject(item: Node, t: seq<byte>, i: nat, a: Allocator)
    returns (ok: bool, end: nat, ghost kids: seq<Shape>)
    requires a.Valid() && i < |t| && t[i] == LBRACE && !Spec.ParseObject(t[i + 1..]).Undefined?
    requires item in a.live && item.child == null
    modifies a, item`kind, item`child
    ensures end <= |t| && item.child == First(kids) && item.kind == ObjectKind && fresh(Feet(kids))
    ensures Built(a, old(a.live), kids)
    ensures ok ==>
      && a.failed == old(a.failed) && AllTyped(kids) && AllNamed(kids)
      && Spec.ParseObject(t[i + 1..]) == Spec.Parsed(Object(Members(kids)), t[end..])
    ensures !ok ==> Spec.ParseObject(t[i + 1..]).Rejected? || a.failed > old(a.failed)
    decreases |t| - i, 0
  {
    item.kind := ObjectKind;
    kids := [];
    ok, end := false, i;
    var v := SkipBlanks(t, i + 1);
    AtHead(t, v);
    if At(t, v) == RBRACE {
      ok, end := true, v + 1;
      return;
    }
    var child;
    ok, v, child, kids := FirstMember(item, t, v, a);
    if !ok {
      return;
    }
    ok, end, kids := ObjectLoop(child, t, v, a, kids, old(a.live));
  }
}
