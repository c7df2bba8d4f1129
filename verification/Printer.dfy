/**
  The unbuffered printer: every piece is printed into a block of its own, the pieces are
  measured, and a block for the whole is filled from them.
 */
module Printer {
  import opened Bytes
  import opened Composer
  import opened Heap
  import opened Json
  import opened Pieces
  import StringPrinter
  import Writer

  /** A new block with the given text, or nothing new and a failed allocation. */
  ghost predicate Result(a: Allocator, before: set<object>, failed: nat, out: array?<byte>, text: seq<byte>)
    reads a, out
  {
    && a.Valid()
    && (out != null ==>
          Terminated(out[..]) && CStr(out[..]) == text && a.live == before + {out} && a.failed == failed)
    && (out == null ==> a.live == before && a.failed > failed)
  }

  /** `cJSON_malloc` of a size and `strcpy` of a text into the block. */
  method NewString(size: nat, text: seq<byte>, a: Allocator) returns (out: array?<byte>)
    requires a.Valid() && |text| < size && NulFree(text)
    modifies a
    ensures Result(a, old(a.live), old(a.failed), out, text)
    ensures out != null ==> fresh(out)
  {
    out := a.NewBytes(size);
    if out != null {
      var end := Writer.Put(out, 0, text + [NUL]);
      Neutral(text + [NUL]);
      assert out[..0] == [];
      Writer.HoldsText(out[..], text);
    }
  }

  lemma PrintIntLength(n: int)
    requires INT_MIN <= n <= INT_MAX
    ensures |PrintInt(n)| <= 11 && NulFree(PrintInt(n))
  {
    DecimalLength(if n < 0 then -n else n, 10);
    IntNulFree(n);
  }

  lemma {:induction false} DecimalLength(n: nat, k: nat)
    requires n < Tens(k)
    ensures |Decimal(n)| <= k
  {
    if n > 0 {
      assert k > 0 && n / 10 < Tens(k - 1);
      DecimalLength(n / 10, k - 1);
    }
  }

  function Tens(k: nat): nat {
    if k == 0 then 1 else 10 * Tens(k - 1)
  }

  lemma IntNumber(d: real)
    requires IsInt(d)
    ensures Truncate(d) == d.Floor && d == d.Floor as real && (d == 0.0 <==> d.Floor == 0)
    ensures INT_MIN as real <= d <= INT_MAX as real
  {
    var n := d.Floor;
    assert (-d).Floor == -n by {
      assert -d == (-n) as real;
    }
  }

  /** `print_number` for the numbers it prints with `%d`. */
  method PrintNumber(item: Node, a: Allocator) returns (out: array?<byte>)
    requires a.Valid() && IsInt(item.valuedouble) && item.valueint == Truncate(item.valuedouble)
    modifies a
    ensures Result(a, old(a.live), old(a.failed), out, PrintInt(item.valuedouble.Floor))
    ensures out != null ==> fresh(out)
  {
    var d := item.valuedouble;
    if d == 0.0 {
      IntNumber(d);
      out := NewString(2, [ZERO], a);
    } else {
      // an integral value within the range of an int takes the branch that prints the int
      assert item.valueint as real - d == 0.0 && INT_MIN as real <= d <= INT_MAX as real by {
        IntNumber(d);
      }
      IntNumber(d);
      PrintIntLength(item.valueint);
      out := NewString(21, PrintInt(item.valueint), a);
    }
  }

  method PrintStringPtr(str: array<byte>, a: Allocator) returns (out: array?<byte>)
    requires a.Valid() && Terminated(str[..])
    modifies a
    ensures Result(a, old(a.live), old(a.failed), out, PrintString(CStr(str[..])))
    ensures out != null ==> fresh(out)
  {
    var flag, size := StringPrinter.Measure(str);
    out := a.NewBytes(size);
    if out != null {
      ghost var s := CStr(str[..]);
      var end := StringPrinter.Write(out, 0, str, flag);
      assert out[..0] == [];
      Neutral(PrintString(s));
      CStrPrefix(str[..]);
      BytesNulFree(s);
      Writer.HoldsText(out[..], PrintString(s));
    }
  }

  // ---------------------------------------------------------------- values

  /** `print_value` without a buffer. */
  method PrintNode(item: Node, depth: nat, fmt: bool, a: Allocator, ghost s: Shape) returns (out: array?<byte>)
    requires a.Valid() && s.node == item && Holds(s) && Typed(s) && a !in Foot(s) && Printable(ValueOf(s))
    modifies a
    ensures Result(a, old(a.live), old(a.failed), out, PrintValue(ValueOf(s), depth, fmt))
    ensures out != null ==> fresh(out)
    decreases s, 3
  {
    match item.kind
    case NullKind => out := NewString(5, NULL_WORD, a);
    case FalseKind => out := NewString(6, FALSE_WORD, a);
    case TrueKind => out := NewString(5, TRUE_WORD, a);
    case NumberKind => out := PrintNumber(item, a);
    case StringKind => out := PrintStringPtr(item.valuestring, a);
    case ArrayKind => out := PrintArray(item, depth, fmt, a, s);
    case ObjectKind => out := PrintObject(item, depth, fmt, a, s);
  }

  /** The walk that counts the children. */
  method CountKids(item: Node, ghost kids: seq<Shape>) returns (n: nat)
    requires item.child == First(kids) && Chained(kids)
    ensures n == |kids|
  {
    var child := item.child;
    n := 0;
    while child != null
      invariant n <= |kids| && child == (if n < |kids| then kids[n].node else null)
      decreases |kids| - n
    {
      n, child := n + 1, child.next;
    }
  }

  // ---------------------------------------------------------------- arrays

  /** The first `i` pieces are in blocks of their own, apart from those that were live before. */
  ghost predicate Stored(entries: array<array?<byte>>, i: nat, before: set<object>)
    reads entries
  {
    && i <= entries.Length && Distinct(entries[..i]) && before !! BlocksOf(entries[..i])
    && (forall j :: i <= j < entries.Length ==> entries[j] == null) && entries in before
  }

  /** Besides, nothing else is new. */
  ghost predicate Collected(entries: array<array?<byte>>, i: nat, a: Allocator, before: set<object>)
    reads entries, a
  {
    Stored(entries, i, before) && a.Valid() && a.live == before + BlocksOf(entries[..i])
  }

  /** A piece is put in its place, whether it was printed or not. */
  method Store(entries: array<array?<byte>>, i: nat, ret: array?<byte>, a: Allocator, ghost before: set<object>,
               ghost texts: seq<seq<byte>>, ghost text: seq<byte>)
    requires i < entries.Length && Distinct(entries[..i]) && a !in BlocksOf(entries[..i])
    requires entries in before
    requires a.Valid() && a.live == before + BlocksOf(entries[..i]) + Block(ret) && Block(ret) !! BlocksOf(entries[..i])
    requires before !! BlocksOf(entries[..i]) + Block(ret)
    requires forall j :: i <= j < entries.Length ==> entries[j] == null
    modifies entries
    ensures Collected(entries, i + 1, a, before) && entries[i] == ret && entries[..i] == old(entries[..i])
    ensures old(Hold(entries[..i], texts)) && ret != null && Terminated(ret[..]) && CStr(ret[..]) == text ==>
              Hold(entries[..i + 1], texts + [text])
  {
    ghost var was := entries[..i];
    Added(was, ret, texts, text);
    entries[i] := ret;
    assert entries[..i] == was && entries[..i + 1] == was + [ret];
  }

  /** One round of the first loop: an item is printed and stored. */
  method CollectItem(child: Node, depth: nat, fmt: bool, entries: array<array?<byte>>, i: nat, a: Allocator,
                     ghost kids: seq<Shape>, ghost vs: seq<Json>, ghost before: set<object>)
    returns (ok: bool, n: nat)
    requires i < |kids| && child == kids[i].node && entries.Length == |kids| && Collected(entries, i, a, before)
    requires a !in Feet(kids) && entries !in Feet(kids)
    requires Linked(kids) && AllTyped(kids) && vs == Values(kids) && AllPrintable(vs)
    modifies a, entries
    ensures Collected(entries, i + 1, a, before) && entries[..i] == old(entries[..i])
    ensures Linked(kids) && AllTyped(kids) && Values(kids) == vs
    ensures ok ==> a.failed == old(a.failed) && n == |ItemTexts(vs, depth, fmt)[i]|
    ensures ok && old(Hold(entries[..i], ItemTexts(vs, depth, fmt)[..i])) ==>
              Hold(entries[..i + 1], ItemTexts(vs, depth, fmt)[..i + 1])
    ensures !ok ==> a.failed > old(a.failed)
    decreases kids, 0
  {
    hide Feet, Foot, AllHold, Failures, Hold, BlocksOf, Distinct;
    ghost var texts := ItemTexts(vs, depth, fmt);
    Element(kids, i);
    var ret := PrintNode(child, depth + 1, fmt, a, kids[i]);
    Untouched(kids);
    Store(entries, i, ret, a, before, texts[..i], texts[i]);
    Untouched(kids);
    assert texts[..i + 1] == texts[..i] + [texts[i]];
    ok, n := ret != null, 0;
    if ok {
      n := Writer.StrLen(ret);
    }
  }

  /** The first loop of `print_array`: the items are printed and measured. */
  method CollectItems(first: Node?, depth: nat, fmt: bool, entries: array<array?<byte>>, a: Allocator,
                      ghost kids: seq<Shape>, ghost vs: seq<Json>)
    returns (fail: bool, len: nat)
    requires a.Valid() && a !in Feet(kids) && entries !in Feet(kids) && entries in a.live && entries.Length == |kids|
    requires first == First(kids) && Linked(kids) && AllTyped(kids) && vs == Values(kids) && AllPrintable(vs)
    requires forall i :: 0 <= i < entries.Length ==> entries[i] == null
    modifies a, entries
    ensures a.Valid() && a.live == old(a.live) + BlocksOf(entries[..])
    ensures Distinct(entries[..]) && BlocksOf(entries[..]) !! old(a.live)
    ensures !fail ==>
      && a.failed == old(a.failed) && Hold(entries[..], ItemTexts(vs, depth, fmt)) && len == 5 + Room(vs, depth, fmt)
    ensures fail ==> a.failed > old(a.failed)
    decreases kids, 1
  {
    hide Feet, Values, AllPrintable, CStr;
    ghost var texts := ItemTexts(vs, depth, fmt);
    var i, child := 0, first;
    fail, len := false, 5;
    WholeSlice(vs);
    while child != null && !fail
      invariant 0 <= i <= |kids| && child == (if i < |kids| then kids[i].node else null)
      invariant Linked(kids) && AllTyped(kids) && Values(kids) == vs
      invariant Collected(entries, i, a, old(a.live))
      invariant !fail ==> a.failed == old(a.failed) && Hold(entries[..i], texts[..i])
      invariant !fail ==> len + Room(vs[i..], depth, fmt) == 5 + Room(vs, depth, fmt)
      invariant fail ==> a.failed > old(a.failed)
      decreases |kids| - i
    {
      var ok, n := CollectItem(child, depth, fmt, entries, i, a, kids, vs, old(a.live));
      RoomStep(vs, i, depth, fmt);
      i := i + 1;
      if ok {
        len := len + n + 2 + (if fmt then 1 else 0);
      } else {
        fail := true;
      }
      child := child.next;
    }
    RestNull(entries[..], i);
    assert entries[..][..i] == entries[..i];
    assert i == |kids| ==> entries[..i] == entries[..] && texts[..i] == texts && vs[i..] == [];
  }

  /** The part of `print_array` between the allocation of `entries` and its release. */
  method PrintEntries(first: Node?, depth: nat, fmt: bool, entries: array<array?<byte>>, a: Allocator,
                      ghost kids: seq<Shape>, ghost vs: seq<Json>)
    returns (out: array?<byte>)
    requires a.Valid() && a !in Feet(kids)
    requires entries !in Feet(kids) && entries in a.live && entries.Length == |kids| > 0
    requires first == First(kids) && Linked(kids) && AllTyped(kids) && vs == Values(kids) && AllPrintable(vs)
    requires forall i :: 0 <= i < entries.Length ==> entries[i] == null
    modifies a, entries
    ensures Result(a, old(a.live), old(a.failed), out, PrintValue(Array(vs), depth, fmt))
    ensures out != null ==> fresh(out)
    decreases kids, 2
  {
    hide Feet, Foot, BlocksOf, Distinct, AllHold, Failures;
    var fail, len := CollectItems(first, depth, fmt, entries, a, kids, vs);
    out := null;
    if !fail {
      out := a.NewBytes(len);
    }
    if out == null {
      FreeAll(entries, a);
    } else {
      ComposeItems(out, depth, fmt, entries, a, vs);
    }
  }

  method PrintArray(item: Node, depth: nat, fmt: bool, a: Allocator, ghost s: Shape) returns (out: array?<byte>)
    requires a.Valid() && s.node == item && Holds(s) && Typed(s) && a !in Foot(s) && Printable(ValueOf(s))
    requires item.kind == ArrayKind
    modifies a
    ensures Result(a, old(a.live), old(a.failed), out, PrintValue(ValueOf(s), depth, fmt))
    ensures out != null ==> fresh(out)
    decreases s, 2
  {
    var numentries := CountKids(item, s.kids);
    if numentries == 0 {
      out := NewString(3, [LBRACKET, RBRACKET], a);
    } else {
      Untouched(s.kids);
      out := PrintSomeItems(item.child, numentries, depth, fmt, a, s.kids, Values(s.kids));
      Untouched(s.kids);
    }
  }

  method PrintSomeItems(first: Node?, numentries: nat, depth: nat, fmt: bool, a: Allocator,
                        ghost kids: seq<Shape>, ghost vs: seq<Json>)
    returns (out: array?<byte>)
    requires a.Valid() && a !in Feet(kids) && numentries == |kids| > 0 && first == First(kids)
    requires Linked(kids) && AllTyped(kids) && vs == Values(kids) && AllPrintable(vs)
    modifies a
    ensures Result(a, old(a.live), old(a.failed), out, PrintValue(Array(vs), depth, fmt))
    ensures out != null ==> fresh(out)
    decreases kids, 3
  {
    out := null;
    var entries := a.NewPointers(numentries);
    if entries == null {
      return;
    }
    Untouched(kids);
    out := PrintEntries(first, depth, fmt, entries, a, kids, vs);
    a.Free(entries);
  }

  // ---------------------------------------------------------------- objects

  /** The name of a member is printed and stored. */
  method CollectName(child: Node, names: array<array?<byte>>, i: nat, a: Allocator, ghost kids: seq<Shape>,
                     ghost ms: seq<Member>, ghost before: set<object>)
    returns (str: array?<byte>)
    requires i < |kids| && child == kids[i].node && names.Length == |kids|
    requires Collected(names, i, a, before) && names !in Feet(kids)
    requires Linked(kids) && AllNamed(kids) && ms == Members(kids)
    modifies a, names
    ensures Collected(names, i + 1, a, before)
    ensures names[i] == str && names[..i] == old(names[..i])
    ensures str == null ==> a.failed > old(a.failed)
    ensures str != null ==> a.failed == old(a.failed) && Terminated(str[..]) && CStr(str[..]) == PrintString(ms[i].name)
    ensures str != null && old(Hold(names[..i], NameTexts(ms)[..i])) ==> Hold(names[..i + 1], NameTexts(ms)[..i + 1])
  {
    hide Feet, Foot;
    ghost var texts := NameTexts(ms);
    Element(kids, i);
    str := PrintStringPtr(child.name, a);
    Store(names, i, str, a, before, texts[..i], texts[i]);
    assert texts[..i + 1] == texts[..i] + [texts[i]];
  }

  /** The value of a member is printed and stored. */
  method CollectValue(child: Node, depth: nat, fmt: bool, entries: array<array?<byte>>, i: nat, a: Allocator,
                      ghost kids: seq<Shape>, ghost ms: seq<Member>, ghost before: set<object>)
    returns (ret: array?<byte>)
    requires i < |kids| && child == kids[i].node && entries.Length == |kids| && Collected(entries, i, a, before)
    requires a !in Feet(kids) && entries !in Feet(kids)
    requires Linked(kids) && AllTyped(kids) && ms == Members(kids) && AllPrintableMembers(ms)
    modifies a, entries
    ensures Collected(entries, i + 1, a, before)
    ensures entries[i] == ret && entries[..i] == old(entries[..i])
    ensures ret == null ==> a.failed > old(a.failed)
    ensures ret != null ==>
      && a.failed == old(a.failed) && Terminated(ret[..]) && CStr(ret[..]) == PrintValue(ms[i].value, depth + 1, fmt)
    ensures ret != null && old(Hold(entries[..i], MemberTexts(ms, depth, fmt)[..i])) ==>
              Hold(entries[..i + 1], MemberTexts(ms, depth, fmt)[..i + 1])
    decreases kids, 0
  {
    hide Feet, Foot, Members, AllHold, AllTyped, Hold, Distinct, BlocksOf;
    ghost var texts := MemberTexts(ms, depth, fmt);
    Element(kids, i);
    assert texts[i] == PrintValue(ms[i].value, depth + 1, fmt);
    ret := PrintNode(child, depth + 1, fmt, a, kids[i]);
    Untouched(kids);
    Element(kids, i);
    Store(entries, i, ret, a, before, texts[..i], texts[i]);
    assert texts[..i + 1] == texts[..i] + [texts[i]];
  }

  /** The first `i` names and values are stored in blocks of their own, and nothing else is new. */
  ghost predicate BothCollected(names: array<array?<byte>>, entries: array<array?<byte>>, i: nat, a: Allocator,
                                before: set<object>)
    reads names, entries, a
  {
    && i <= names.Length == entries.Length && names != entries && Stored(names, i, before) && entries in before
    && Collected(entries, i, a, before + BlocksOf(names[..i]))
  }

  /** One round of the collecting loop; the value is printed even when the name could not be. */
  method CollectMember(child: Node, depth: nat, fmt: bool, names: array<array?<byte>>, entries: array<array?<byte>>,
                       i: nat, a: Allocator, ghost kids: seq<Shape>, ghost ms: seq<Member>, ghost before: set<object>)
    returns (ok: bool, n: nat)
    requires i < |kids| && child == kids[i].node && entries.Length == |kids|
    requires BothCollected(names, entries, i, a, before)
    requires a !in Feet(kids) && names !in Feet(kids) && entries !in Feet(kids)
    requires Linked(kids) && AllTyped(kids) && AllNamed(kids) && ms == Members(kids) && AllPrintableMembers(ms)
    modifies a, names, entries
    ensures BothCollected(names, entries, i + 1, a, before)
    ensures Linked(kids) && AllTyped(kids) && AllNamed(kids) && Members(kids) == ms
    ensures !ok ==> a.failed > old(a.failed)
    ensures ok ==> n == |PrintString(ms[i].name)| + |PrintValue(ms[i].value, depth + 1, fmt)|
    ensures ok ==> a.failed == old(a.failed)
    ensures ok && old(Hold(names[..i], NameTexts(ms)[..i])) ==> Hold(names[..i + 1], NameTexts(ms)[..i + 1])
    ensures ok && old(Hold(entries[..i], MemberTexts(ms, depth, fmt)[..i])) ==>
              Hold(entries[..i + 1], MemberTexts(ms, depth, fmt)[..i + 1])
    decreases kids, 1
  {
    hide Feet, AllHold, Failures, Hold, BlocksOf, Distinct;
    ghost var es := BlocksOf(entries[..i]);
    var str := CollectName(child, names, i, a, kids, ms, before + es);
    Untouched(kids);
    ghost var ns := BlocksOf(names[..i + 1]);
    assert a.live == before + ns + es;
    var ret := CollectValue(child, depth, fmt, entries, i, a, kids, ms, before + ns);
    Untouched(kids);
    ok, n := str != null && ret != null, 0;
    if ok {
      n := Writer.StrLen(ret) + Writer.StrLen(str);
    }
  }

  lemma AllCollected(names: array<array?<byte>>, entries: array<array?<byte>>, a: Allocator, before: set<object>,
                     texts: seq<seq<byte>>, values: seq<seq<byte>>)
    requires BothCollected(names, entries, names.Length, a, before)
    ensures a.live == before + BlocksOf(names[..]) + BlocksOf(entries[..])
    ensures Distinct(names[..]) && Distinct(entries[..]) && BlocksOf(names[..]) !! BlocksOf(entries[..])
    ensures BlocksOf(names[..]) + BlocksOf(entries[..]) !! before
    ensures names.Length == |texts| && Hold(names[..names.Length], texts[..names.Length]) ==> Hold(names[..], texts)
    ensures entries.Length == |values| && Hold(entries[..names.Length], values[..names.Length]) ==>
              Hold(entries[..], values)
  {
    assert names[..names.Length] == names[..] && entries[..entries.Length] == entries[..];
    WholeSlice(texts);
    WholeSlice(values);
  }

  /** The collecting loop of `print_object`: names and values are printed and measured. */
  method CollectMembers(first: Node?, depth: nat, fmt: bool, names: array<array?<byte>>, entries: array<array?<byte>>,
                        a: Allocator, ghost kids: seq<Shape>, ghost ms: seq<Member>)
    returns (fail: bool, len: nat)
    requires a.Valid() && a !in Feet(kids) && names !in Feet(kids) && entries !in Feet(kids)
    requires names != entries && {names, entries} <= a.live
    requires entries.Length == names.Length == |kids| && first == First(kids)
    requires Linked(kids) && AllTyped(kids) && AllNamed(kids) && ms == Members(kids) && AllPrintableMembers(ms)
    requires forall i :: 0 <= i < entries.Length ==> entries[i] == null && names[i] == null
    modifies a, names, entries
    ensures a.Valid() && a.live == old(a.live) + BlocksOf(names[..]) + BlocksOf(entries[..])
    ensures Distinct(names[..]) && Distinct(entries[..]) && BlocksOf(names[..]) !! BlocksOf(entries[..])
    ensures BlocksOf(names[..]) + BlocksOf(entries[..]) !! old(a.live)
    ensures !fail ==>
      && a.failed == old(a.failed) && Hold(names[..], NameTexts(ms)) && Hold(entries[..], MemberTexts(ms, depth, fmt))
      && len == 7 + (if fmt then depth + 1 else 0) + MemberRoom(ms, depth, fmt)
    ensures fail ==> a.failed > old(a.failed)
    decreases kids, 3
  {
    fail, len := CollectLoop(first, depth, fmt, names, entries, a, kids, ms);
    AllCollected(names, entries, a, old(a.live), NameTexts(ms), MemberTexts(ms, depth, fmt));
  }

  method CollectLoop(first: Node?, depth: nat, fmt: bool, names: array<array?<byte>>, entries: array<array?<byte>>,
                     a: Allocator, ghost kids: seq<Shape>, ghost ms: seq<Member>)
    returns (fail: bool, len: nat)
    requires a.Valid() && a !in Feet(kids) && names !in Feet(kids) && entries !in Feet(kids)
    requires names != entries && {names, entries} <= a.live
    requires entries.Length == names.Length == |kids| && first == First(kids)
    requires Linked(kids) && AllTyped(kids) && AllNamed(kids) && ms == Members(kids) && AllPrintableMembers(ms)
    requires forall i :: 0 <= i < entries.Length ==> entries[i] == null && names[i] == null
    modifies a, names, entries
    ensures BothCollected(names, entries, |kids|, a, old(a.live))
    ensures !fail ==>
      && a.failed == old(a.failed) && len == 7 + (if fmt then depth + 1 else 0) + MemberRoom(ms, depth, fmt)
      && Hold(names[..|kids|], NameTexts(ms)[..|kids|])
      && Hold(entries[..|kids|], MemberTexts(ms, depth, fmt)[..|kids|])
    ensures fail ==> a.failed > old(a.failed)
    decreases kids, 2
  {
    hide Feet, Foot, AllTyped, AllNamed, Members;
    ghost var texts, values := NameTexts(ms), MemberTexts(ms, depth, fmt);
    ghost var total := 7 + (if fmt then depth + 1 else 0) + MemberRoom(ms, depth, fmt);
    var i: nat, child := 0, first;
    fail, len := false, 7 + (if fmt then depth + 1 else 0);
    WholeSlice(ms);
    while child != null
      invariant i <= |kids| && child == (if i < |kids| then kids[i].node else null)
      invariant Linked(kids) && AllTyped(kids) && AllNamed(kids) && Members(kids) == ms
      invariant BothCollected(names, entries, i, a, old(a.live))
      invariant !fail ==> a.failed == old(a.failed) && Hold(names[..i], texts[..i]) && Hold(entries[..i], values[..i])
      invariant !fail ==> len + MemberRoom(ms[i..], depth, fmt) == total
      invariant fail ==> a.failed > old(a.failed)
      decreases |kids| - i
    {
      var ok, n := CollectMember(child, depth, fmt, names, entries, i, a, kids, ms, old(a.live));
      MemberRoomStep(ms, i, depth, fmt);
      i := i + 1;
      if ok {
        len := len + n + 2 + (if fmt then 2 + (depth + 1) else 0);
      } else {
        fail := true;
      }
      child := child.next;
    }
  }

  /** The part of `print_object` between the allocation of the two arrays and their release. */
  method PrintPieces(first: Node?, depth: nat, fmt: bool, names: array<array?<byte>>, entries: array<array?<byte>>,
                     a: Allocator, ghost kids: seq<Shape>, ghost ms: seq<Member>)
    returns (out: array?<byte>)
    requires a.Valid() && a !in Feet(kids) && names !in Feet(kids) && entries !in Feet(kids)
    requires names != entries && {names, entries} <= a.live
    requires entries.Length == names.Length == |kids| > 0 && first == First(kids)
    requires Linked(kids) && AllTyped(kids) && AllNamed(kids) && ms == Members(kids) && AllPrintableMembers(ms)
    requires forall i :: 0 <= i < entries.Length ==> entries[i] == null && names[i] == null
    modifies a, names, entries
    ensures Result(a, old(a.live), old(a.failed), out, PrintValue(Object(ms), depth, fmt))
    ensures out != null ==> fresh(out)
    decreases kids, 4
  {
    hide Hold, BlocksOf, Distinct, MemberRoom;
    var fail, len := CollectMembers(first, depth, fmt, names, entries, a, kids, ms);
    out := null;
    if !fail {
      out := a.NewBytes(len);
    }
    if out == null {
      FreeAll(names, a);
      FreeAll(entries, a);
    } else {
      ComposeMembers(out, depth, fmt, names, entries, a, ms);
    }
  }

  /** The text of an empty object, which in formatted text breaks the line. */
  method PrintEmptyObject(depth: nat, fmt: bool, a: Allocator) returns (out: array?<byte>)
    requires a.Valid()
    modifies a
    ensures Result(a, old(a.live), old(a.failed), out, PrintValue(Object([]), depth, fmt))
    ensures out != null ==> fresh(out)
  {
    out := a.NewBytes(if fmt then depth + 4 else 3);
    if out == null {
      return;
    }
    ValueNulFree(Object([]), depth, fmt);
    var w: nat := ComposeOpening(out, fmt);
    ghost var opening, tabs := out[..w], if fmt then Tabs(depth - 1) else [];
    Neutral(opening);
    if fmt {
      w := PutTabs(out, w, depth - 1);
      Associate([LBRACE], [LF], tabs);
    }
    w := Writer.PutByte(out, w, RBRACE);
    w := Writer.PutByte(out, w, NUL);
    Writer.HoldsText(out[..], opening + tabs + [RBRACE]);
  }

  method PrintObject(item: Node, depth: nat, fmt: bool, a: Allocator, ghost s: Shape) returns (out: array?<byte>)
    requires a.Valid() && s.node == item && Holds(s) && Typed(s) && a !in Foot(s) && Printable(ValueOf(s))
    requires item.kind == ObjectKind
    modifies a
    ensures Result(a, old(a.live), old(a.failed), out, PrintValue(ValueOf(s), depth, fmt))
    ensures out != null ==> fresh(out)
    decreases s, 2
  {
    var numentries := CountKids(item, s.kids);
    if numentries == 0 {
      out := PrintEmptyObject(depth, fmt, a);
    } else {
      Untouched(s.kids);
      out := PrintSomeMembers(item.child, numentries, depth, fmt, a, s.kids, Members(s.kids));
      Untouched(s.kids);
    }
  }

  method PrintSomeMembers(first: Node?, numentries: nat, depth: nat, fmt: bool, a: Allocator,
                          ghost kids: seq<Shape>, ghost ms: seq<Member>)
    returns (out: array?<byte>)
    requires a.Valid() && a !in Feet(kids) && numentries == |kids| > 0 && first == First(kids)
    requires Linked(kids) && AllTyped(kids) && AllNamed(kids) && ms == Members(kids) && AllPrintableMembers(ms)
    modifies a
    ensures Result(a, old(a.live), old(a.failed), out, PrintValue(Object(ms), depth, fmt))
    ensures out != null ==> fresh(out)
    decreases kids, 5
  {
    hide AllNamed, Members;
    out := null;
    var entries := a.NewPointers(numentries);
    if entries == null {
      return;
    }
    var names := a.NewPointers(numentries);
    if names == null {
      a.Free(entries);
      return;
    }
    Untouched(kids);
    out := PrintPieces(first, depth, fmt, names, entries, a, kids, ms);
    a.Free(names);
    a.Free(entries);
  }

  // ---------------------------------------------------------------- the entry points

  /** `cJSON_Print` */
  method Print(item: Node?, a: Allocator, ghost s: Shape) returns (out: array?<byte>)
    requires a.Valid()
    requires item != null ==> s.node == item && Holds(s) && Typed(s) && a !in Foot(s) && Printable(ValueOf(s))
    modifies a
    ensures item == null ==> out == null && a.Valid() && a.live == old(a.live)
    ensures item != null && (forall n: nat :: a.succeeds(n)) ==> out != null
    ensures item != null ==>
      Result(a, old(a.live), old(a.failed), out, PrintValue(ValueOf(s), 0, true)) && (out == null <==> Denied(a))
    ensures out != null ==> fresh(out)
  {
    out := null;
    if item != null {
      out := PrintNode(item, 0, true, a, s);
      DeniedIsCounted(a);
    }
  }

  /** `cJSON_PrintUnformatted` */
  method PrintUnformatted(item: Node?, a: Allocator, ghost s: Shape) returns (out: array?<byte>)
    requires a.Valid()
    requires item != null ==> s.node == item && Holds(s) && Typed(s) && a !in Foot(s) && Printable(ValueOf(s))
    modifies a
    ensures item == null ==> out == null && a.Valid() && a.live == old(a.live)
    ensures item != null && (forall n: nat :: a.succeeds(n)) ==> out != null
    ensures item != null ==>
      Result(a, old(a.live), old(a.failed), out, PrintValue(ValueOf(s), 0, false)) && (out == null <==> Denied(a))
    ensures out != null ==> fresh(out)
  {
    out := null;
    if item != null {
      out := PrintNode(item, 0, false, a, s);
      DeniedIsCounted(a);
    }
  }
}
