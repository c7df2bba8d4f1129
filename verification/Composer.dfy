/** The second loops of `print_array` and `print_object`: measured pieces are put together. */
module Composer {
  import opened Bytes
  import opened Heap
  import opened Json
  import opened Pieces
  import Writer

  ghost predicate AllPrintable(vs: seq<Json>) {
    forall i :: 0 <= i < |vs| ==> Printable(vs[i])
  }

  function ItemTexts(vs: seq<Json>, depth: nat, fmt: bool): (r: seq<seq<byte>>)
    ensures |r| == |vs|
  {
    seq(|vs|, i requires 0 <= i < |vs| => PrintValue(vs[i], depth + 1, fmt))
  }

  /** What the loop that measures the items adds to `len`. */
  function Room(vs: seq<Json>, depth: nat, fmt: bool): nat {
    if vs == [] then 0
    else |PrintValue(vs[0], depth + 1, fmt)| + 2 + (if fmt then 1 else 0) + Room(vs[1..], depth, fmt)
  }

  lemma RoomStep(vs: seq<Json>, i: nat, depth: nat, fmt: bool)
    requires i < |vs|
    ensures Room(vs[i..], depth, fmt)
         == |PrintValue(vs[i], depth + 1, fmt)| + 2 + (if fmt then 1 else 0) + Room(vs[i + 1..], depth, fmt)
  {
    Slices(vs, i, i + 1);
  }

  /** The measure covers what is written. */
  lemma {:induction false} RoomSuffices(vs: seq<Json>, depth: nat, fmt: bool)
    ensures |PrintItems(vs, depth, fmt)| <= 1 + Room(vs, depth, fmt)
  {
    if vs != [] {
      RoomSuffices(vs[1..], depth, fmt);
    }
  }

  /** One round of the second loop: an item and the separator after it. */
  method ComposeItem(out: array<byte>, at: nat, entry: array<byte>, last: bool, fmt: bool) returns (w: nat)
    requires out != entry && Terminated(entry[..])
    requires at + |CStr(entry[..])| + (if last then 0 else if fmt then 2 else 1) < out.Length
    modifies out
    ensures w < out.Length
    ensures out[..w]
         == old(out[..at]) + (CStr(entry[..]) + if last then [] else if fmt then [COMMA, SPACE] else [COMMA])
  {
    w := Writer.Copy(out, at, entry);
    ghost var done := out[..w];
    Neutral(done);
    if !last {
      w := Writer.PutByte(out, w, COMMA);
      if fmt {
        w := Writer.PutByte(out, w, SPACE);
        Associate(done, [COMMA], [SPACE]);
        assert [COMMA] + [SPACE] == [COMMA, SPACE];
      }
      out[w] := NUL;
    }
    Associate(old(out[..at]), CStr(entry[..]), if last then [] else if fmt then [COMMA, SPACE] else [COMMA]);
  }

  /** An item and the separator after it. */
  function ItemText(v: Json, last: bool, depth: nat, fmt: bool): seq<byte> {
    PrintValue(v, depth + 1, fmt) + if last then [] else if fmt then [COMMA, SPACE] else [COMMA]
  }

  lemma ItemStep(done: seq<byte>, vs: seq<Json>, i: nat, depth: nat, fmt: bool)
    requires i < |vs|
    ensures done + ItemText(vs[i], i == |vs| - 1, depth, fmt) + PrintItems(vs[i + 1..], depth, fmt)
         == done + PrintItems(vs[i..], depth, fmt)
  {
    Slices(vs, i, i + 1);
    Associate(done, ItemText(vs[i], i == |vs| - 1, depth, fmt), PrintItems(vs[i + 1..], depth, fmt));
  }

  /** The second loop of `print_array`: the items are put together and freed. */
  method ComposeItems(out: array<byte>, depth: nat, fmt: bool, entries: array<array?<byte>>, a: Allocator,
                      ghost vs: seq<Json>)
    requires a.Valid() && Hold(entries[..], ItemTexts(vs, depth, fmt)) && AllPrintable(vs) && vs != []
    requires Distinct(entries[..]) && BlocksOf(entries[..]) <= a.live && out !in BlocksOf(entries[..])
    requires out.Length == 5 + Room(vs, depth, fmt)
    modifies a, out
    ensures a.Valid() && a.live == old(a.live) - BlocksOf(entries[..]) && a.failed == old(a.failed)
    ensures Terminated(out[..]) && CStr(out[..]) == PrintValue(Array(vs), depth, fmt)
  {
    ghost var all := PrintValue(Array(vs), depth, fmt);
    RoomSuffices(vs, depth, fmt);
    var w: nat := Writer.PutByte(out, 0, LBRACKET);
    assert out[..w] == [LBRACKET];
    AllHeld(entries[..], ItemTexts(vs, depth, fmt), out);
    w := ComposeItemsFrom(out, w, depth, fmt, entries, a, vs, all);
    w := Writer.PutByte(out, w, RBRACKET);
    w := Writer.PutByte(out, w, NUL);
    ValueNulFree(Array(vs), depth, fmt);
    Writer.HoldsText(out[..], all);
  }

  method ComposeItemsFrom(out: array<byte>, at: nat, depth: nat, fmt: bool, entries: array<array?<byte>>,
                          a: Allocator, ghost vs: seq<Json>, ghost all: seq<byte>)
    returns (w: nat)
    requires a.Valid() && at <= out.Length && entries.Length == |vs|
    requires HoldEach(entries[..], ItemTexts(vs, depth, fmt), out)
    requires Distinct(entries[..]) && BlocksOf(entries[..]) <= a.live
    requires out[..at] + PrintItems(vs, depth, fmt) == all && |all| < out.Length
    modifies a, out
    ensures a.Valid() && a.live == old(a.live) - BlocksOf(entries[..]) && a.failed == old(a.failed)
    ensures w <= out.Length && out[..w] + PrintItems([], depth, fmt) == all
  {
    hide Distinct, PrintValue, PrintItems;
    ghost var es, texts := entries[..], ItemTexts(vs, depth, fmt);
    assert vs[0..] == vs && es[..0] == [];
    var i: nat := 0;
    w := at;
    while i < entries.Length
      invariant i <= |vs| && w <= out.Length && HoldEach(es, texts, out)
      invariant out[..w] + PrintItems(vs[i..], depth, fmt) == all
      invariant a.Valid() && a.live == old(a.live) - BlocksOf(es[..i]) && a.failed == old(a.failed)
    {
      Piece(es, i);
      assert texts[i] == PrintValue(vs[i], depth + 1, fmt);
      ItemStep(out[..w], vs, i, depth, fmt);
      w := ComposeItem(out, w, entries[i], i == entries.Length - 1, fmt);
      a.Free(entries[i]);
      i := i + 1;
    }
    assert es[..i] == es && vs[i..] == [];
  }

  // ---------------------------------------------------------------- objects

  ghost predicate AllPrintableMembers(ms: seq<Member>) {
    forall i :: 0 <= i < |ms| ==> NulFree(ms[i].name) && Printable(ms[i].value)
  }

  function NameTexts(ms: seq<Member>): (r: seq<seq<byte>>)
    ensures |r| == |ms|
  {
    seq(|ms|, i requires 0 <= i < |ms| => PrintString(ms[i].name))
  }

  function MemberTexts(ms: seq<Member>, depth: nat, fmt: bool): (r: seq<seq<byte>>)
    ensures |r| == |ms|
  {
    seq(|ms|, i requires 0 <= i < |ms| => PrintValue(ms[i].value, depth + 1, fmt))
  }

  /** What the loop that measures the members adds to `len`. */
  function MemberRoom(ms: seq<Member>, depth: nat, fmt: bool): nat {
    if ms == [] then 0
    else
      |PrintValue(ms[0].value, depth + 1, fmt)| + |PrintString(ms[0].name)| + 2 + (if fmt then 2 + (depth + 1) else 0)
      + MemberRoom(ms[1..], depth, fmt)
  }

  lemma MemberRoomStep(ms: seq<Member>, i: nat, depth: nat, fmt: bool)
    requires i < |ms|
    ensures MemberRoom(ms[i..], depth, fmt)
         == |PrintString(ms[i].name)| + |PrintValue(ms[i].value, depth + 1, fmt)| + 2
            + (if fmt then 2 + (depth + 1) else 0) + MemberRoom(ms[i + 1..], depth, fmt)
  {
    Slices(ms, i, i + 1);
  }

  /** The measure covers what is written. */
  lemma {:induction false} MemberRoomSuffices(ms: seq<Member>, depth: nat, fmt: bool)
    ensures |PrintMembers(ms, depth, fmt)| <= 1 + (if fmt then depth else 0) + MemberRoom(ms, depth, fmt)
  {
    if ms != [] {
      MemberRoomSuffices(ms[1..], depth, fmt);
    }
  }

  /** What one round of the composing loop writes. */
  function MemberText(m: Member, last: bool, depth: nat, fmt: bool): seq<byte> {
    (if fmt then Tabs(depth + 1) else [])
    + PrintString(m.name)
    + (if fmt then [COLON, TAB] else [COLON])
    + PrintValue(m.value, depth + 1, fmt)
    + (if last then [] else [COMMA])
    + (if fmt then [LF] else [])
  }

  function NameText(name: seq<byte>, depth: nat, fmt: bool): seq<byte> {
    (if fmt then Tabs(depth + 1) else []) + PrintString(name) + (if fmt then [COLON, TAB] else [COLON])
  }

  function ValueText(v: Json, last: bool, depth: nat, fmt: bool): seq<byte> {
    PrintValue(v, depth + 1, fmt) + ((if last then [] else [COMMA]) + (if fmt then [LF] else []))
  }

  lemma MemberTextParts(m: Member, last: bool, depth: nat, fmt: bool)
    ensures MemberText(m, last, depth, fmt) == NameText(m.name, depth, fmt) + ValueText(m.value, last, depth, fmt)
  {
  }

  lemma MemberStep(done: seq<byte>, ms: seq<Member>, i: nat, depth: nat, fmt: bool)
    requires i < |ms|
    ensures done + MemberText(ms[i], i == |ms| - 1, depth, fmt) + PrintMembers(ms[i + 1..], depth, fmt)
         == done + PrintMembers(ms[i..], depth, fmt)
  {
    assert ms[i..][1..] == ms[i + 1..];
    Associate(done, MemberText(ms[i], i == |ms| - 1, depth, fmt), PrintMembers(ms[i + 1..], depth, fmt));
  }

  lemma {:induction false} TabsAppend(n: nat)
    ensures Tabs(n + 1) == Tabs(n) + [TAB]
  {
    if n > 0 {
      TabsAppend(n - 1);
    }
  }

  /** One tab for each level of nesting, and none for a negative count. */
  method PutTabs(dst: array<byte>, at: nat, n: int) returns (end: nat)
    requires at + |Tabs(n)| <= dst.Length
    modifies dst
    ensures end == at + |Tabs(n)| && dst[..end] == old(dst[..at]) + Tabs(n)
  {
    end := at;
    var j: nat := 0;
    Neutral(dst[..at]);
    while j < n
      invariant (j <= n || j == 0) && end == at + j <= at + |Tabs(n)|
      invariant dst[..end] == old(dst[..at]) + Tabs(j)
    {
      TabsAppend(j);
      Associate(old(dst[..at]), Tabs(j), [TAB]);
      end := Writer.PutByte(dst, end, TAB);
      j := j + 1;
    }
  }

  /** A name, its tabs before it and the colon after it. */
  method ComposeName(out: array<byte>, at: nat, name: array<byte>, depth: nat, fmt: bool) returns (w: nat)
    requires out != name && Terminated(name[..])
    requires at + |CStr(name[..])| + (if fmt then depth + 3 else 1) < out.Length
    modifies out
    ensures w == at + |CStr(name[..])| + (if fmt then depth + 3 else 1)
    ensures out[..w] == old(out[..at]) + ((if fmt then Tabs(depth + 1) else []) + CStr(name[..])
                                            + (if fmt then [COLON, TAB] else [COLON]))
  {
    ghost var done, tabs, text := out[..at], if fmt then Tabs(depth + 1) else [], CStr(name[..]);
    w := at;
    Neutral(done);
    if fmt {
      w := PutTabs(out, at, depth + 1);
    }
    w := Writer.Copy(out, w, name);
    w := Writer.PutByte(out, w, COLON);
    if fmt {
      w := Writer.PutByte(out, w, TAB);
      Associate(done + tabs + text, [COLON], [TAB]);
      assert [COLON] + [TAB] == [COLON, TAB];
    }
    Associate(done, tabs, text);
    Associate(done, tabs + text, if fmt then [COLON, TAB] else [COLON]);
  }

  /** A value and what comes after it. */
  method ComposeValue(out: array<byte>, at: nat, entry: array<byte>, last: bool, fmt: bool) returns (w: nat)
    requires out != entry && Terminated(entry[..])
    requires at + |CStr(entry[..])| + (if last then 0 else 1) + (if fmt then 1 else 0) < out.Length
    modifies out
    ensures w < out.Length
    ensures out[..w]
         == old(out[..at]) + (CStr(entry[..]) + ((if last then [] else [COMMA]) + (if fmt then [LF] else [])))
  {
    ghost var done, text, comma := out[..at], CStr(entry[..]), if last then [] else [COMMA];
    w := Writer.Copy(out, at, entry);
    Neutral(done + text);
    if !last {
      w := Writer.PutByte(out, w, COMMA);
    }
    Neutral(done + text + comma);
    if fmt {
      w := Writer.PutByte(out, w, LF);
    }
    ghost var lf := if fmt then [LF] else [];
    Associate(done + text, comma, lf);
    Associate(done, text, comma + lf);
    out[w] := NUL;
  }

  /** One round of the composing loop. */
  method ComposeMember(out: array<byte>, at: nat, name: array<byte>, entry: array<byte>, last: bool, depth: nat,
                       fmt: bool, ghost m: Member)
    returns (w: nat)
    requires out != name && out != entry && Terminated(name[..]) && Terminated(entry[..])
    requires CStr(name[..]) == PrintString(m.name) && CStr(entry[..]) == PrintValue(m.value, depth + 1, fmt)
    requires at + |MemberText(m, last, depth, fmt)| < out.Length
    modifies out
    ensures w < out.Length && out[..w] == old(out[..at]) + MemberText(m, last, depth, fmt)
  {
    MemberTextParts(m, last, depth, fmt);
    ghost var done := out[..at];
    w := ComposeName(out, at, name, depth, fmt);
    w := ComposeValue(out, w, entry, last, fmt);
    Associate(done, NameText(m.name, depth, fmt), ValueText(m.value, last, depth, fmt));
  }

  lemma OpeningLength(ms: seq<Member>, depth: nat, fmt: bool)
    requires ms != []
    ensures PrintValue(Object(ms), depth, fmt) == [LBRACE] + (if fmt then [LF] else []) + PrintMembers(ms, depth, fmt)
    ensures |PrintValue(Object(ms), depth, fmt)| < 7 + (if fmt then depth + 1 else 0) + MemberRoom(ms, depth, fmt)
  {
    MemberRoomSuffices(ms, depth, fmt);
  }

  /** `{` and, in formatted text, a line break. */
  method ComposeOpening(out: array<byte>, fmt: bool) returns (w: nat)
    requires out.Length > 2
    modifies out
    ensures w <= 2 && out[..w] == [LBRACE] + (if fmt then [LF] else [])
  {
    w := Writer.PutByte(out, 0, LBRACE);
    if fmt {
      w := Writer.PutByte(out, w, LF);
    }
    out[w] := NUL;
  }

  /** The closing tabs and brace, and the terminator. */
  method ComposeClosing(out: array<byte>, at: nat, depth: nat, fmt: bool)
    requires at + (if fmt then depth else 0) + 1 < out.Length
    requires NulFree(out[..at] + ((if fmt then Tabs(depth) else []) + [RBRACE]))
    modifies out
    ensures Terminated(out[..]) && CStr(out[..]) == old(out[..at]) + ((if fmt then Tabs(depth) else []) + [RBRACE])
  {
    ghost var done, tabs := out[..at], if fmt then Tabs(depth) else [];
    var w := at;
    Neutral(done);
    if fmt {
      w := PutTabs(out, at, depth);
    }
    w := Writer.PutByte(out, w, RBRACE);
    w := Writer.PutByte(out, w, NUL);
    Associate(done, tabs, [RBRACE]);
    Writer.HoldsText(out[..], done + (tabs + [RBRACE]));
  }

  /** The last loop of `print_object`: the members are put together and their pieces freed. */
  method ComposeMembers(out: array<byte>, depth: nat, fmt: bool, names: array<array?<byte>>,
                        entries: array<array?<byte>>, a: Allocator, ghost ms: seq<Member>)
    requires a.Valid() && AllPrintableMembers(ms) && ms != []
    requires Hold(names[..], NameTexts(ms)) && Hold(entries[..], MemberTexts(ms, depth, fmt))
    requires Distinct(names[..]) && Distinct(entries[..]) && BlocksOf(names[..]) !! BlocksOf(entries[..])
    requires BlocksOf(names[..]) + BlocksOf(entries[..]) <= a.live
    requires out !in BlocksOf(names[..]) + BlocksOf(entries[..])
    requires out.Length == 7 + (if fmt then depth + 1 else 0) + MemberRoom(ms, depth, fmt)
    modifies a, out
    ensures a.Valid() && a.live == old(a.live) - BlocksOf(names[..]) - BlocksOf(entries[..])
    ensures a.failed == old(a.failed)
    ensures Terminated(out[..]) && CStr(out[..]) == PrintValue(Object(ms), depth, fmt)
  {
    hide BlocksOf, Distinct, PrintValue, CStr, Failures, Tabs, PrintBytes, PrintItems;
    OpeningLength(ms, depth, fmt);
    var w := ComposeOpening(out, fmt);
    AllHeld(names[..], NameTexts(ms), out);
    AllHeld(entries[..], MemberTexts(ms, depth, fmt), out);
    w := ComposeRest(out, w, depth, fmt, names, entries, a, ms, PrintValue(Object(ms), depth, fmt));
    ValueNulFree(Object(ms), depth, fmt);
    ComposeClosing(out, w, depth, fmt);
  }

  method ComposeRest(out: array<byte>, at: nat, depth: nat, fmt: bool, names: array<array?<byte>>,
                     entries: array<array?<byte>>, a: Allocator, ghost ms: seq<Member>, ghost all: seq<byte>)
    returns (w: nat)
    requires a.Valid() && at <= out.Length && names.Length == entries.Length == |ms|
    requires HoldEach(names[..], NameTexts(ms), out) && HoldEach(entries[..], MemberTexts(ms, depth, fmt), out)
    requires Distinct(names[..]) && Distinct(entries[..]) && BlocksOf(names[..]) !! BlocksOf(entries[..])
    requires BlocksOf(names[..]) + BlocksOf(entries[..]) <= a.live
    requires out[..at] + PrintMembers(ms, depth, fmt) == all && |all| < out.Length
    modifies a, out
    ensures a.Valid() && a.live == old(a.live) - BlocksOf(names[..]) - BlocksOf(entries[..])
    ensures a.failed == old(a.failed)
    ensures w <= out.Length && out[..w] + PrintMembers([], depth, fmt) == all
  {
    hide PrintMembers;
    ghost var ns, es, ts, us := names[..], entries[..], NameTexts(ms), MemberTexts(ms, depth, fmt);
    assert ms[0..] == ms && ns[..0] == [] && es[..0] == [];
    var i: nat := 0;
    w := at;
    while i < entries.Length
      invariant i <= |ms| && w <= out.Length && HoldEach(ns, ts, out) && HoldEach(es, us, out)
      invariant out[..w] + PrintMembers(ms[i..], depth, fmt) == all
      invariant a.Valid() && a.live == old(a.live) - BlocksOf(ns[..i]) - BlocksOf(es[..i])
      invariant a.failed == old(a.failed)
    {
      w := ComposeAt(out, w, i, depth, fmt, names, entries, a, ms, all, old(a.live));
      i := i + 1;
    }
    assert ns[..i] == ns && es[..i] == es && ms[i..] == [];
  }

  method ComposeAt(out: array<byte>, at: nat, i: nat, depth: nat, fmt: bool, names: array<array?<byte>>,
                   entries: array<array?<byte>>, a: Allocator, ghost ms: seq<Member>, ghost all: seq<byte>,
                   ghost before: set<object>)
    returns (w: nat)
    requires a.Valid() && at <= out.Length && i < names.Length == entries.Length == |ms|
    requires HoldEach(names[..], NameTexts(ms), out) && HoldEach(entries[..], MemberTexts(ms, depth, fmt), out)
    requires Distinct(names[..]) && Distinct(entries[..]) && BlocksOf(names[..]) !! BlocksOf(entries[..])
    requires BlocksOf(names[..]) + BlocksOf(entries[..]) <= before
    requires a.live == before - BlocksOf(names[..][..i]) - BlocksOf(entries[..][..i])
    requires out[..at] + PrintMembers(ms[i..], depth, fmt) == all && |all| < out.Length
    modifies a, out
    ensures a.Valid() && a.live == before - BlocksOf(names[..][..i + 1]) - BlocksOf(entries[..][..i + 1])
    ensures a.failed == old(a.failed)
    ensures HoldEach(names[..], NameTexts(ms), out) && HoldEach(entries[..], MemberTexts(ms, depth, fmt), out)
    ensures w <= out.Length && out[..w] + PrintMembers(ms[i + 1..], depth, fmt) == all
  {
    hide BlocksOf, Distinct;
    NextPair(names[..], entries[..], i, before, a.live);
    assert NameTexts(ms)[i] == PrintString(ms[i].name);
    assert MemberTexts(ms, depth, fmt)[i] == PrintValue(ms[i].value, depth + 1, fmt);
    w := ComposeNext(out, at, i, depth, fmt, names[i], entries[i], i == entries.Length - 1, a, ms, all);
  }

  /** One round of the last loop of `print_object`. */
  method ComposeNext(out: array<byte>, at: nat, ghost i: nat, depth: nat, fmt: bool, name: array<byte>,
                     entry: array<byte>, last: bool, a: Allocator, ghost ms: seq<Member>, ghost all: seq<byte>)
    returns (w: nat)
    requires a.Valid() && i < |ms| && (last <==> i == |ms| - 1) && at <= out.Length
    requires {name, entry} <= a.live && name != entry
    requires out != name && out != entry && Terminated(name[..]) && Terminated(entry[..])
    requires CStr(name[..]) == PrintString(ms[i].name) && CStr(entry[..]) == PrintValue(ms[i].value, depth + 1, fmt)
    requires out[..at] + PrintMembers(ms[i..], depth, fmt) == all && |all| < out.Length
    modifies a, out
    ensures w <= out.Length && out[..w] + PrintMembers(ms[i + 1..], depth, fmt) == all
    ensures a.Valid() && a.failed == old(a.failed) && a.live == old(a.live) - {name, entry}
  {
    MemberStep(out[..at], ms, i, depth, fmt);
    w := ComposeMember(out, at, name, entry, last, depth, fmt, ms[i]);
    a.Free(name);
    a.Free(entry);
  }
}
