/** The arrays of printed pieces (`entries`, `names`) of the unbuffered printer. */
module Pieces {
  import opened Bytes
  import opened Heap

  /** The blocks among some pointers. */
  function BlocksOf(es: seq<array?<byte>>): set<object> {
    if es == [] then {} else BlocksOf(es[..|es| - 1]) + Block(es[|es| - 1])
  }

  /** No block is pointed to twice. */
  predicate Distinct(es: seq<array?<byte>>) {
    es == [] || (Distinct(es[..|es| - 1]) && Block(es[|es| - 1]) !! BlocksOf(es[..|es| - 1]))
  }

  /** Each block holds the text in the same place. */
  ghost predicate Hold(es: seq<array?<byte>>, texts: seq<seq<byte>>)
    reads BlocksOf(es)
  {
    |es| == |texts|
    && (es == []
        || var b := es[|es| - 1];
           && Hold(es[..|es| - 1], texts[..|es| - 1])
           && b != null && Terminated(b[..]) && CStr(b[..]) == texts[|es| - 1])
  }

  lemma Added(es: seq<array?<byte>>, b: array?<byte>, texts: seq<seq<byte>>, text: seq<byte>)
    ensures BlocksOf(es + [b]) == BlocksOf(es) + Block(b)
    ensures Distinct(es + [b]) <==> Distinct(es) && Block(b) !! BlocksOf(es)
    ensures Hold(es, texts) && b != null && Terminated(b[..]) && CStr(b[..]) == text ==> Hold(es + [b], texts + [text])
  {
    assert (es + [b])[..|es|] == es;
    assert (texts + [text])[..|texts|] == texts;
  }

  /** The blocks of the first pieces, and the block of the next. */
  lemma {:induction false} Piece(es: seq<array?<byte>>, i: nat)
    requires i < |es|
    ensures BlocksOf(es[..i + 1]) == BlocksOf(es[..i]) + Block(es[i]) && BlocksOf(es[..i + 1]) <= BlocksOf(es)
    ensures Distinct(es) ==> Block(es[i]) !! BlocksOf(es[..i])
    decreases |es|
  {
    var init := es[..|es| - 1];
    assert es[..i + 1][..i] == es[..i];
    if i < |init| {
      assert init[..i] == es[..i] && init[..i + 1] == es[..i + 1] && init[i] == es[i];
      Piece(init, i);
    } else {
      assert es[..i + 1] == es;
    }
  }

  lemma {:induction false} Held(es: seq<array?<byte>>, texts: seq<seq<byte>>, i: nat)
    requires i < |es| && Hold(es, texts)
    ensures es[i] != null && es[i] in BlocksOf(es) && Terminated(es[i][..]) && CStr(es[i][..]) == texts[i]
    decreases |es|
  {
    var init := es[..|es| - 1];
    if i < |init| {
      assert init[i] == es[i] && texts[..|init|][i] == texts[i];
      Held(init, texts[..|init|], i);
    }
  }

  /** `Hold`, block by block, for blocks that are not the one being written. */
  ghost predicate HoldEach(es: seq<array?<byte>>, texts: seq<seq<byte>>, out: array<byte>)
    reads set i | 0 <= i < |es| :: es[i]
  {
    && |es| == |texts|
    && forall i :: 0 <= i < |es| ==>
         es[i] != null && es[i] != out && Terminated(es[i][..]) && CStr(es[i][..]) == texts[i]
  }

  lemma AllHeld(es: seq<array?<byte>>, texts: seq<seq<byte>>, out: array<byte>)
    requires Hold(es, texts) && out !in BlocksOf(es)
    ensures HoldEach(es, texts, out)
  {
    forall i | 0 <= i < |es|
      ensures es[i] != null && es[i] != out && Terminated(es[i][..]) && CStr(es[i][..]) == texts[i]
    {
      Held(es, texts, i);
    }
  }

  /** What remains live when the first pieces of two arrays are freed, one after the other. */
  lemma NextPair(ns: seq<array?<byte>>, es: seq<array?<byte>>, i: nat, before: set<object>, live: set<object>)
    requires i < |ns| == |es| && ns[i] != null && es[i] != null
    requires Distinct(ns) && Distinct(es) && BlocksOf(ns) !! BlocksOf(es) && BlocksOf(ns) + BlocksOf(es) <= before
    requires live == before - BlocksOf(ns[..i]) - BlocksOf(es[..i])
    ensures {ns[i], es[i]} <= live && ns[i] != es[i]
    ensures live - {ns[i], es[i]} == before - BlocksOf(ns[..i + 1]) - BlocksOf(es[..i + 1])
  {
    Piece(ns, i);
    Piece(es, i);
    PartOf(ns, i);
    PartOf(es, i);
  }

  lemma PartOf(es: seq<array?<byte>>, i: nat)
    requires i < |es|
    ensures BlocksOf(es[..i]) <= BlocksOf(es)
  {
    Piece(es, i);
  }

  /** Pointers that are still null add no blocks. */
  lemma {:induction false} RestNull(es: seq<array?<byte>>, i: nat)
    requires i <= |es| && forall j :: i <= j < |es| ==> es[j] == null
    ensures BlocksOf(es) == BlocksOf(es[..i]) && Distinct(es) == Distinct(es[..i])
    decreases |es|
  {
    if i < |es| {
      RestNull(es[..|es| - 1], i);
      assert es[..|es| - 1][..i] == es[..i];
    } else {
      assert es[..i] == es;
    }
  }

  /** Every piece that was printed is freed. */
  method FreeAll(entries: array<array?<byte>>, a: Allocator)
    requires a.Valid() && Distinct(entries[..]) && BlocksOf(entries[..]) <= a.live
    modifies a
    ensures a.Valid() && a.live == old(a.live) - BlocksOf(entries[..]) && a.failed == old(a.failed)
  {
    var i := 0;
    while i < entries.Length
      invariant 0 <= i <= entries.Length
      invariant a.Valid() && a.live == old(a.live) - BlocksOf(entries[..i]) && a.failed == old(a.failed)
    {
      Piece(entries[..], i);
      assert entries[..][..i] == entries[..i] && entries[..][..i + 1] == entries[..i + 1];
      if entries[i] != null {
        a.Free(entries[i]);
      }
      i := i + 1;
    }
    assert entries[..i] == entries[..];
  }
}
