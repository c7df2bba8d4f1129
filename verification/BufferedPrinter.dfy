/** The buffered printer: every piece is printed at the end of one growing buffer. */
module BufferedPrinter {
  import opened Bytes
  import opened Composer
  import opened Growth
  import opened Heap
  import opened Json
  import opened PrintBuffers
  import opened Wrappers
  import Printer
  import StringPrinter
  import Writer

  /** How far a request may exceed the text it is made for: numbers ask for 21 bytes. */
  const SLACK := 20

  /** What every step keeps: the buffer is the one new block, or it is gone and an allocation has failed. */
  twostate predicate Step(p: PrintBuffer, a: Allocator, before: set<object>)
    reads p, a
  {
    && p.Valid() && Owned(p, a, before) && SameRun(p)
    && (p.buffer != null ==> old(p.buffer) != null)
  }

  /** Printing does not write to what is printed. */
  ghost predicate Clear(p: PrintBuffer, a: Allocator, feet: set<object>)
    reads p
  {
    p !in feet && a !in feet && Block(p.buffer) !! feet
  }

  // ---------------------------------------------------------------- pieces

  /** A piece in the middle of a text; the terminator is written only if there was room asked for it. */
  method Append(p: PrintBuffer, s: seq<byte>, needed: nat, a: Allocator, ghost before: set<object>) returns (ok: bool)
    requires p.Valid() && Owned(p, a, before) && |s| <= needed && needed >= 1
    requires p.buffer != null ==> p.offset + needed <= p.bound
    modifies p, p.buffer, a
    ensures Step(p, a, before) && ok == (p.buffer != null)
    ensures ok ==> p.Text() == old(p.Text()) + s
  {
    ok := p.Ensure(needed, a, before);
    if ok {
      assert p.Text() == old(p.Text());
      var end := Writer.Put(p.buffer, p.offset, s);
      if |s| < needed {
        p.buffer[end] := NUL;
      }
      p.offset := p.offset + |s|;
    }
  }

  /** The last piece of a text, with the terminator; the offset stays before it. */
  method Emit(p: PrintBuffer, s: seq<byte>, needed: nat, a: Allocator, ghost before: set<object>) returns (ok: bool)
    requires p.Valid() && Owned(p, a, before) && |s| < needed
    requires p.buffer != null ==> p.offset + needed <= p.bound
    modifies p, p.buffer, a
    ensures Step(p, a, before) && ok == (p.buffer != null)
    ensures ok ==> p.offset == old(p.offset) && Wrote(p, old(p.Text()), s)
  {
    ok := p.Ensure(needed, a, before);
    if ok {
      assert p.Text() == old(p.Text());
      var end := Writer.Put(p.buffer, p.offset, s);
      end := Writer.PutByte(p.buffer, end, NUL);
    }
  }

  /** `print_string_ptr` with a buffer. */
  method PrintStringPtr(str: array<byte>, p: PrintBuffer, a: Allocator, ghost before: set<object>) returns (ok: bool)
    requires p.Valid() && Owned(p, a, before) && Terminated(str[..]) && p.buffer != str
    requires p.buffer != null ==> p.offset + |PrintString(CStr(str[..]))| < p.bound
    modifies p, p.buffer, a
    ensures Step(p, a, before) && ok == (p.buffer != null)
    ensures ok ==> p.offset == old(p.offset) && Wrote(p, old(p.Text()), PrintString(CStr(str[..])))
  {
    var flag, size := StringPrinter.Measure(str);
    ok := p.Ensure(size, a, before);
    if ok {
      assert p.Text() == old(p.Text());
      var end := StringPrinter.Write(p.buffer, p.offset, str, flag);
    }
  }

  /** `print_number` with a buffer, for the numbers it prints with `%d`. */
  method PrintNumber(item: Node, p: PrintBuffer, a: Allocator, ghost before: set<object>) returns (ok: bool)
    requires IsInt(item.valuedouble) && item.valueint == Truncate(item.valuedouble)
    requires p.Valid() && Owned(p, a, before)
    requires p.buffer != null ==> p.offset + |PrintInt(item.valuedouble.Floor)| + SLACK <= p.bound
    modifies p, p.buffer, a
    ensures Step(p, a, before) && ok == (p.buffer != null)
    ensures ok ==> p.offset == old(p.offset) && Wrote(p, old(p.Text()), PrintInt(old(item.valuedouble).Floor))
  {
    var d := item.valuedouble;
    Printer.IntNumber(d);
    if d == 0.0 {
      ok := Emit(p, [ZERO], 2, a, before);
    } else {
      assert item.valueint as real - d == 0.0 && INT_MIN as real <= d <= INT_MAX as real;
      Printer.PrintIntLength(item.valueint);
      ok := Emit(p, PrintInt(item.valueint), 21, a, before);
    }
  }

  // ---------------------------------------------------------------- values

  /**
    Where the pointer returned for a value points: for a formatted object that is not empty,
    the loop that writes the closing tabs has overwritten the offset it was kept in.
   */
  function Start(v: Json, depth: nat, fmt: bool, offset: nat): nat {
    if v.Object? && v.members != [] && fmt then depth else offset
  }

  /** `print_value` with a buffer. */
  method PrintNode(item: Node, depth: nat, fmt: bool, p: PrintBuffer, a: Allocator, ghost s: Shape,
                   ghost before: set<object>)
    returns (out: Option<nat>)
    requires p.Valid() && Owned(p, a, before) && Clear(p, a, Foot(s))
    requires s.node == item && Holds(s) && Typed(s) && Printable(ValueOf(s))
    requires p.buffer != null ==> p.offset + |PrintValue(ValueOf(s), depth, fmt)| + SLACK <= p.bound
    modifies p, p.buffer, a
    ensures Step(p, a, before) && out.Some? == (p.buffer != null)
    ensures out.Some? ==>
      && Wrote(p, old(p.Text()), PrintValue(old(ValueOf(s)), depth, fmt))
      && out.value == Start(old(ValueOf(s)), depth, fmt, old(p.offset))
    decreases s, 3
  {
    var at, ok := p.offset, false;
    match item.kind {
      case NullKind => ok := Emit(p, NULL_WORD, 5, a, before);
      case FalseKind => ok := Emit(p, FALSE_WORD, 6, a, before);
      case TrueKind => ok := Emit(p, TRUE_WORD, 5, a, before);
      case NumberKind => ok := PrintNumber(item, p, a, before);
      case StringKind => ok := PrintStringPtr(item.valuestring, p, a, before);
      case ArrayKind =>
        out := PrintArray(item, depth, fmt, p, a, s, before);
        return;
      case ObjectKind =>
        out := PrintObject(item, depth, fmt, p, a, s, before);
        return;
    }
    out := if ok then Some(at) else None;
  }

  /** The last piece completes the text. */
  lemma Completed(p: PrintBuffer, done: seq<byte>, text: seq<byte>, before: seq<byte>, last: seq<byte>)
    requires p.buffer != null && Wrote(p, before, last) && before + last == done + text && |done| <= |before|
    ensures Wrote(p, done, text)
  {
  }

  // ---------------------------------------------------------------- arrays

  /** The items to print, and the buffer to print them into. */
  ghost predicate ItemsReady(p: PrintBuffer, a: Allocator, kids: seq<Shape>, vs: seq<Json>, before: set<object>)
    reads p, a, Feet(kids)
  {
    && p.Valid() && Owned(p, a, before) && Clear(p, a, Feet(kids))
    && Linked(kids) && AllTyped(kids) && Values(kids) == vs && AllPrintable(vs)
  }

  /** The items from the `i`-th are still to be printed to make up the text `all`. */
  ghost predicate ItemsLeft(p: PrintBuffer, a: Allocator, kids: seq<Shape>, vs: seq<Json>, i: nat, depth: nat,
                            fmt: bool, from: nat, all: seq<byte>, before: set<object>)
    reads p, p.buffer, a, Feet(kids)
  {
    && ItemsReady(p, a, kids, vs, before) && i <= |vs|
    && (p.buffer != null ==>
          p.Text() + PrintItems(vs[i..], depth, fmt) == all && |all| + SLACK <= p.bound && |p.Text()| >= from)
  }

  /** The value of a child, and `update`. */
  method PrintChild(child: Node, depth: nat, fmt: bool, p: PrintBuffer, a: Allocator, ghost s: Shape, ghost v: Json,
                    ghost before: set<object>)
    requires p.Valid() && Owned(p, a, before) && Clear(p, a, Foot(s))
    requires s.node == child && Holds(s) && Typed(s) && ValueOf(s) == v && Printable(v)
    requires p.buffer != null ==> p.offset + |PrintValue(v, depth + 1, fmt)| + SLACK <= p.bound
    modifies p, p.buffer, a
    ensures Step(p, a, before)
    ensures p.buffer != null ==> p.Text() == old(p.Text()) + PrintValue(v, depth + 1, fmt)
    decreases s, 4
  {
    ghost var done := p.Text();
    var out := PrintNode(child, depth + 1, fmt, p, a, s, before);
    ValueNulFree(v, depth + 1, fmt);
    p.Update(done, PrintValue(v, depth + 1, fmt));
  }

  /** One round of the loop over the items; `!ok` is the return from inside the loop. */
  method PrintItem(child: Node, last: bool, depth: nat, fmt: bool, p: PrintBuffer, a: Allocator, ghost s: Shape,
                   ghost v: Json, ghost before: set<object>)
    returns (ok: bool)
    requires p.Valid() && Owned(p, a, before) && Clear(p, a, Foot(s))
    requires s.node == child && Holds(s) && Typed(s) && ValueOf(s) == v && Printable(v)
    requires p.buffer != null ==> p.offset + |ItemText(v, last, depth, fmt)| + SLACK <= p.bound
    modifies p, p.buffer, a
    ensures Step(p, a, before) && (!ok ==> p.buffer == null)
    ensures p.buffer != null ==> p.Text() == old(p.Text()) + ItemText(v, last, depth, fmt)
    decreases s, 5
  {
    hide PrintValue, Holds, Typed, ValueOf;
    ghost var done, text := p.Text(), PrintValue(v, depth + 1, fmt);
    PrintChild(child, depth, fmt, p, a, s, v, before);
    ok := true;
    var sep := if last then [] else if fmt then [COMMA, SPACE] else [COMMA];
    if !last {
      ok := Append(p, sep, |sep| + 1, a, before);
    }
    Neutral(done + text);
    Associate(done, text, sep);
  }

  method PrintArray(item: Node, depth: nat, fmt: bool, p: PrintBuffer, a: Allocator, ghost s: Shape,
                    ghost before: set<object>)
    returns (out: Option<nat>)
    requires p.Valid() && Owned(p, a, before) && Clear(p, a, Foot(s))
    requires s.node == item && Holds(s) && Typed(s) && Printable(ValueOf(s)) && item.kind == ArrayKind
    requires p.buffer != null ==> p.offset + |PrintValue(ValueOf(s), depth, fmt)| + SLACK <= p.bound
    modifies p, p.buffer, a
    ensures Step(p, a, before) && out.Some? == (p.buffer != null)
    ensures out.Some? ==>
      Wrote(p, old(p.Text()), PrintValue(old(ValueOf(s)), depth, fmt)) && out.value == old(p.offset)
    decreases s, 2
  {
    hide PrintMembers, PrintItems, Feet, AllHold, AllTyped, Members, Values, Chained, After, Tabs;
    ghost var vs := Values(s.kids);
    InHeap(s.kids);
    var numentries := Printer.CountKids(item, s.kids);
    if numentries == 0 {
      var i := p.offset;
      var ok := Emit(p, [LBRACKET, RBRACKET], 3, a, before);
      out := if ok then Some(i) else None;
    } else {
      Untouched(s.kids);
      out := PrintItemsOf(item.child, depth, fmt, p, a, s.kids, vs, before);
    }
  }

  method PrintItemsOf(first: Node?, depth: nat, fmt: bool, p: PrintBuffer, a: Allocator, ghost kids: seq<Shape>,
                      ghost vs: seq<Json>, ghost before: set<object>)
    returns (out: Option<nat>)
    requires p.Valid() && Owned(p, a, before) && Clear(p, a, Feet(kids)) && first == First(kids) && kids != []
    requires Linked(kids) && AllTyped(kids) && vs == Values(kids) && AllPrintable(vs)
    requires p.buffer != null ==> p.offset + |PrintValue(Array(vs), depth, fmt)| + SLACK <= p.bound
    modifies p, p.buffer, a
    ensures Step(p, a, before) && out.Some? == (p.buffer != null)
    ensures out.Some? ==>
      Wrote(p, old(p.Text()), PrintValue(Array(vs), depth, fmt)) && out.value == old(p.offset)
    decreases kids, 2
  {
    hide PrintMembers, Feet, AllHold, AllTyped, AllNamed, Members, Values, Chained, After, Tabs;
    ghost var done, text := p.Text(), PrintValue(Array(vs), depth, fmt);
    var at := p.offset;
    Associate(done, [LBRACKET], PrintItems(vs, depth, fmt));
    var ok := Append(p, [LBRACKET], 1, a, before);
    if !ok {
      return None;
    }
    Untouched(kids);
    WholeSlice(vs);
    ok := PrintAllItems(first, depth, fmt, p, a, kids, vs, |done|, done + text, before);
    if !ok {
      return None;
    }
    ghost var most := p.Text();
    ok := Emit(p, [RBRACKET], 2, a, before);
    if !ok {
      return None;
    }
    Completed(p, done, text, most, [RBRACKET]);
    out := Some(at);
  }

  /** The same in the list of items. */
  method PrintItemAt(child: Node, depth: nat, fmt: bool, p: PrintBuffer, a: Allocator, ghost kids: seq<Shape>,
                     ghost i: nat, ghost vs: seq<Json>, ghost from: nat, ghost all: seq<byte>,
                     ghost before: set<object>)
    returns (ok: bool)
    requires ItemsLeft(p, a, kids, vs, i, depth, fmt, from, all, before) && i < |kids| && child == kids[i].node
    modifies p, p.buffer, a
    ensures ItemsLeft(p, a, kids, vs, i + 1, depth, fmt, from, all, before)
    ensures Step(p, a, before) && (!ok ==> p.buffer == null)
    decreases kids, 0
  {
    InHeap(kids);
    Element(kids, i);
    ItemStep(p.Text(), vs, i, depth, fmt);
    ok := PrintItem(child, child.next == null, depth, fmt, p, a, kids[i], vs[i], before);
    Untouched(kids);
  }

  /** The loop over the items. */
  method PrintAllItems(first: Node?, depth: nat, fmt: bool, p: PrintBuffer, a: Allocator, ghost kids: seq<Shape>,
                       ghost vs: seq<Json>, ghost from: nat, ghost all: seq<byte>, ghost before: set<object>)
    returns (ok: bool)
    requires ItemsLeft(p, a, kids, vs, 0, depth, fmt, from, all, before) && first == First(kids)
    modifies p, p.buffer, a
    ensures Step(p, a, before) && (!ok ==> p.buffer == null)
    ensures p.buffer != null ==> p.Text() + PrintItems([], depth, fmt) == all && |p.Text()| >= from
    decreases kids, 1
  {
    hide PrintMembers, PrintValue, Feet, AllHold, AllTyped, AllNamed, Members, After, Tabs, CStr;
    ok := true;
    var child := first;
    ghost var i: nat := 0;
    while child != null && ok
      invariant i <= |kids| && child == (if i < |kids| then kids[i].node else null)
      invariant ItemsLeft(p, a, kids, vs, i, depth, fmt, from, all, before)
      invariant Step(p, a, before) && (!ok ==> p.buffer == null)
      decreases |kids| - i
    {
      ok := PrintItemAt(child, depth, fmt, p, a, kids, i, vs, from, all, before);
      i := i + 1;
      child := child.next;
    }
    WholeSlice(vs);
  }

  // ---------------------------------------------------------------- objects

  /** The tabs, the name and the colon of a member. */
  method PrintName(name: array<byte>, depth: nat, fmt: bool, p: PrintBuffer, a: Allocator, ghost before: set<object>)
    returns (ok: bool)
    requires p.Valid() && Owned(p, a, before) && Terminated(name[..]) && p.buffer != name
    requires p.buffer != null ==> p.offset + |NameText(CStr(name[..]), depth, fmt)| + SLACK <= p.bound
    modifies p, p.buffer, a
    ensures Step(p, a, before) && (!ok ==> p.buffer == null)
    ensures p.buffer != null ==> p.Text() == old(p.Text()) + NameText(CStr(name[..]), depth, fmt)
  {
    hide After, PrintBytes, Tabs, CStr;
    ghost var done, tabs, text := p.Text(), if fmt then Tabs(depth + 1) else [], PrintString(CStr(name[..]));
    Neutral(done);
    ok := true;
    if fmt {
      ok := Append(p, Tabs(depth + 1), depth + 1, a, before);
      if !ok {
        return;
      }
    }
    ok := PrintStringPtr(name, p, a, before);
    CStrPrefix(name[..]);
    BytesNulFree(CStr(name[..]));
    p.Update(done + tabs, text);
    var colon := if fmt then [COLON, TAB] else [COLON];
    ok := Append(p, colon, |colon|, a, before);
    Associate(done, tabs, text);
    Associate(done, tabs + text, colon);
  }

  /** The members to print, and the buffer to print them into. */
  ghost predicate MembersReady(p: PrintBuffer, a: Allocator, kids: seq<Shape>, ms: seq<Member>, before: set<object>)
    reads p, a, Feet(kids)
  {
    && p.Valid() && Owned(p, a, before) && Clear(p, a, Feet(kids))
    && Linked(kids) && AllTyped(kids) && AllNamed(kids) && Members(kids) == ms && AllPrintableMembers(ms)
  }

  /** The members from the `i`-th are still to be printed to make up the text `all`. */
  ghost predicate MembersLeft(p: PrintBuffer, a: Allocator, kids: seq<Shape>, ms: seq<Member>, i: nat, depth: nat,
                              fmt: bool, from: nat, all: seq<byte>, before: set<object>)
    reads p, p.buffer, a, Feet(kids)
  {
    && MembersReady(p, a, kids, ms, before) && i <= |ms|
    && (p.buffer != null ==>
          p.Text() + PrintMembers(ms[i..], depth, fmt) == all && |all| + SLACK <= p.bound && |p.Text()| >= from)
  }

  /** The value of a member and what comes after it. */
  method PrintMemberValue(child: Node, last: bool, depth: nat, fmt: bool, p: PrintBuffer, a: Allocator,
                          ghost s: Shape, ghost v: Json, ghost before: set<object>)
    returns (ok: bool)
    requires p.Valid() && Owned(p, a, before) && Clear(p, a, Foot(s))
    requires s.node == child && Holds(s) && Typed(s) && ValueOf(s) == v && Printable(v)
    requires p.buffer != null ==> p.offset + |ValueText(v, last, depth, fmt)| + SLACK <= p.bound
    modifies p, p.buffer, a
    ensures Step(p, a, before) && (!ok ==> p.buffer == null)
    ensures p.buffer != null ==> p.Text() == old(p.Text()) + ValueText(v, last, depth, fmt)
    decreases s, 5
  {
    hide PrintValue;
    ghost var done := p.Text();
    PrintChild(child, depth, fmt, p, a, s, v, before);
    var sep := (if last then [] else [COMMA]) + (if fmt then [LF] else []);
    ok := Append(p, sep, |sep| + 1, a, before);
    Associate(done, PrintValue(v, depth + 1, fmt), sep);
  }

  /** One round of the loop over the members; `!ok` is the return from inside the loop. */
  method PrintMember(child: Node, last: bool, depth: nat, fmt: bool, p: PrintBuffer, a: Allocator, ghost s: Shape,
                     ghost m: Member, ghost before: set<object>)
    returns (ok: bool)
    requires p.Valid() && Owned(p, a, before) && Clear(p, a, Foot(s)) && s.node == child && Holds(s) && Typed(s)
    requires HoldsString(s.name) && m == Member(StringOf(s.name), ValueOf(s)) && Printable(m.value)
    requires p.buffer != null ==> p.offset + |MemberText(m, last, depth, fmt)| + SLACK <= p.bound
    modifies p, p.buffer, a
    ensures Step(p, a, before) && (!ok ==> p.buffer == null)
    ensures p.buffer != null ==> p.Text() == old(p.Text()) + MemberText(m, last, depth, fmt)
    decreases s, 6
  {
    ghost var done := p.Text();
    MemberTextParts(m, last, depth, fmt);
    Associate(done, NameText(m.name, depth, fmt), ValueText(m.value, last, depth, fmt));
    ok := PrintName(child.name, depth, fmt, p, a, before);
    if ok {
      Unchanged(s);
      ok := PrintMemberValue(child, last, depth, fmt, p, a, s, m.value, before);
    }
  }

  /** The same in the list of members. */
  method PrintMemberAt(child: Node, depth: nat, fmt: bool, p: PrintBuffer, a: Allocator, ghost kids: seq<Shape>,
                     ghost i: nat, ghost ms: seq<Member>, ghost from: nat, ghost all: seq<byte>,
                     ghost before: set<object>)
    returns (ok: bool)
    requires MembersLeft(p, a, kids, ms, i, depth, fmt, from, all, before) && i < |kids| && child == kids[i].node
    modifies p, p.buffer, a
    ensures MembersLeft(p, a, kids, ms, i + 1, depth, fmt, from, all, before)
    ensures Step(p, a, before) && (!ok ==> p.buffer == null)
    decreases kids, 0
  {
    InHeap(kids);
    Element(kids, i);
    MemberStep(p.Text(), ms, i, depth, fmt);
    ok := PrintMember(child, child.next == null, depth, fmt, p, a, kids[i], ms[i], before);
    Untouched(kids);
  }

  /** The loop over the members. */
  method PrintAllMembers(first: Node?, depth: nat, fmt: bool, p: PrintBuffer, a: Allocator, ghost kids: seq<Shape>,
                       ghost ms: seq<Member>, ghost from: nat, ghost all: seq<byte>, ghost before: set<object>)
    returns (ok: bool)
    requires MembersLeft(p, a, kids, ms, 0, depth, fmt, from, all, before) && first == First(kids)
    modifies p, p.buffer, a
    ensures Step(p, a, before) && (!ok ==> p.buffer == null)
    ensures p.buffer != null ==> p.Text() + PrintMembers([], depth, fmt) == all && |p.Text()| >= from
    decreases kids, 1
  {
    hide PrintMembers, Feet, AllHold, AllTyped, AllNamed, Members;
    ok := true;
    var child := first;
    ghost var i: nat := 0;
    while child != null && ok
      invariant i <= |kids| && child == (if i < |kids| then kids[i].node else null)
      invariant MembersLeft(p, a, kids, ms, i, depth, fmt, from, all, before)
      invariant Step(p, a, before) && (!ok ==> p.buffer == null)
      decreases |kids| - i
    {
      ok := PrintMemberAt(child, depth, fmt, p, a, kids, i, ms, from, all, before);
      i := i + 1;
      child := child.next;
    }
    WholeSlice(ms);
  }

  method PrintMembersOf(first: Node?, depth: nat, fmt: bool, p: PrintBuffer, a: Allocator, ghost kids: seq<Shape>,
                        ghost ms: seq<Member>, ghost before: set<object>)
    returns (out: Option<nat>)
    requires p.Valid() && Owned(p, a, before) && Clear(p, a, Feet(kids)) && first == First(kids) && kids != []
    requires Linked(kids) && AllTyped(kids) && AllNamed(kids) && ms == Members(kids) && AllPrintableMembers(ms)
    requires p.buffer != null ==> p.offset + |PrintValue(Object(ms), depth, fmt)| + SLACK <= p.bound
    modifies p, p.buffer, a
    ensures Step(p, a, before) && out.Some? == (p.buffer != null)
    ensures out.Some? ==>
      && Wrote(p, old(p.Text()), PrintValue(Object(ms), depth, fmt))
      && out.value == if fmt then depth else old(p.offset)
    decreases kids, 3
  {
    hide Feet, AllHold, AllNamed, Members, Chained, After, PrintBytes, Tabs;
    ghost var done, text := p.Text(), PrintValue(Object(ms), depth, fmt);
    var i := p.offset;
    var opening := [LBRACE] + if fmt then [LF] else [];
    Associate(done, opening, PrintMembers(ms, depth, fmt));
    var ok := Append(p, opening, |opening| + 1, a, before);
    if !ok {
      return None;
    }
    Untouched(kids);
    WholeSlice(ms);
    ok := PrintAllMembers(first, depth, fmt, p, a, kids, ms, |done|, done + text, before);
    if !ok {
      return None;
    }
    ghost var most := p.Text();
    var closing := (if fmt then Tabs(depth) else []) + [RBRACE];
    ok := Emit(p, closing, if fmt then depth + 2 else 2, a, before);
    if !ok {
      return None;
    }
    Completed(p, done, text, most, closing);
    if fmt {
      // the loop that puts the closing tabs counts with the variable that held the start offset
      i := depth;
    }
    out := Some(i);
  }

  method PrintObject(item: Node, depth: nat, fmt: bool, p: PrintBuffer, a: Allocator, ghost s: Shape,
                     ghost before: set<object>)
    returns (out: Option<nat>)
    requires p.Valid() && Owned(p, a, before) && Clear(p, a, Foot(s))
    requires s.node == item && Holds(s) && Typed(s) && Printable(ValueOf(s)) && item.kind == ObjectKind
    requires p.buffer != null ==> p.offset + |PrintValue(ValueOf(s), depth, fmt)| + SLACK <= p.bound
    modifies p, p.buffer, a
    ensures Step(p, a, before) && out.Some? == (p.buffer != null)
    ensures out.Some? ==>
      && Wrote(p, old(p.Text()), PrintValue(old(ValueOf(s)), depth, fmt))
      && out.value == Start(old(ValueOf(s)), depth, fmt, old(p.offset))
    decreases s, 2
  {
    hide PrintMembers, Feet, AllHold, AllTyped, AllNamed, Members, Values;
    ghost var ms := Members(s.kids);
    InHeap(s.kids);
    var numentries := Printer.CountKids(item, s.kids);
    if numentries == 0 {
      var at := p.offset;
      var text := [LBRACE] + (if fmt then [LF] + Tabs(depth - 1) else []) + [RBRACE];
      var ok := Emit(p, text, if fmt then depth + 4 else 3, a, before);
      out := if ok then Some(at) else None;
    } else {
      Untouched(s.kids);
      out := PrintMembersOf(item.child, depth, fmt, p, a, s.kids, ms, before);
    }
  }

  // ---------------------------------------------------------------- the entry point

  /** A text written from the start is what the buffer holds. */
  lemma Finished(p: PrintBuffer, text: seq<byte>)
    requires p.buffer != null && Wrote(p, [], text) && NulFree(text)
    ensures Terminated(p.buffer[..]) && CStr(p.buffer[..]) == text
  {
    Neutral(text);
    Writer.HoldsText(p.buffer[..], text);
  }

  /**
    `cJSON_PrintBuffered`.  The pointer returned is `out+at`, and `at` is 0.  `asked` are the
    requests made on the buffer; what they make of its length, and what that costs, is `After`.
    A null item leaves the buffer behind when there was memory for it.
   */
  method PrintBuffered(item: Node?, prebuffer: nat, fmt: bool, a: Allocator, ghost s: Shape)
    returns (out: array?<byte>, at: nat, ghost asked: seq<nat>)
    requires a.Valid()
    requires item != null ==> s.node == item && Holds(s) && Typed(s) && a !in Foot(s) && Printable(ValueOf(s))
    requires item != null ==> |PrintValue(ValueOf(s), 0, fmt)| + SLACK <= MAX_REQUEST
    modifies a
    ensures at == 0 && (out != null ==> fresh(out))
    ensures a.requests == old(a.requests) + 1 + After(prebuffer, asked).growths
    ensures item != null ==>
      && Printer.Result(a, old(a.live), old(a.failed), out, PrintValue(old(ValueOf(s)), 0, fmt))
      && (out == null <==> Denied(a))
      && After(prebuffer, asked).peak <= |PrintValue(old(ValueOf(s)), 0, fmt)| + SLACK
    ensures item != null && out != null ==>
      var t := After(prebuffer, asked);
      && out.Length == t.length && t.peak > |PrintValue(old(ValueOf(s)), 0, fmt)|
      && (t.growths == 0 ==> out.Length == prebuffer)
      && (t.growths > 0 ==> out.Length < 2 * t.peak && t.copied < prebuffer + out.Length)
    ensures item == null ==> out == null && asked == []
    ensures out == null ==> (a.live == old(a.live) <==> item != null || !a.succeeds(old(a.requests)))
    ensures item == null && !a.succeeds(old(a.requests)) ==> a.live == old(a.live)
    ensures item == null && a.succeeds(old(a.requests)) ==>
      exists b: array<byte> :: fresh(b) && b.Length == prebuffer && a.live == old(a.live) + {b}
  {
    ghost var text: seq<byte> := if item == null then [] else PrintValue(ValueOf(s), 0, fmt);
    ghost var feet := Foot(s);
    InHeap([s]);
    assert Feet([s]) == Foot(s);
    var p := new PrintBuffer(prebuffer, a, if item == null then 0 else |text| + SLACK);
    at, asked := 0, [];
    if item == null {
      return null, 0, [];
    }
    Unchanged(s);
    var r := PrintNode(item, 0, fmt, p, a, s, old(a.live));
    asked := p.asked;
    DeniedIsCounted(a);
    if r == None {
      return null, 0, asked;
    }
    at := r.value;
    out := p.buffer;
    Amortised(prebuffer, asked);
    ValueNulFree(old(ValueOf(s)), 0, fmt);
    Finished(p, text);
  }
}
