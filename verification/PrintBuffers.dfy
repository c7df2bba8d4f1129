/** The growing buffer of the buffered printer: `ensure` and `update`. */
module PrintBuffers {
  import opened Bits
  import opened Bytes
  import opened Growth
  import opened Heap
  import Writer

  /** The largest size for which `pow2gt` stays inside `int`. */
  const MAX_REQUEST := 0x4000_0000

  class PrintBuffer {
    var buffer: array?<byte>
    var length: nat
    var offset: nat
    /** The size the buffer starts with, and what no request exceeds. */
    ghost const initial: nat
    ghost const bound: nat
    /** How many requests the allocator had seen, and failed, when the buffer was made. */
    ghost const requests: nat
    ghost const failed: nat
    /** The requests so far, each with the offset it was made at, and what they come to. */
    ghost var asked: seq<nat>
    ghost var tally: Tally

    constructor (prebuffer: nat, a: Allocator, ghost bound: nat)
      requires a.Valid() && bound <= MAX_REQUEST
      modifies a
      ensures Valid() && Owned(this, a, old(a.live)) && Text() == [] && offset == 0 && asked == []
      ensures initial == prebuffer && this.bound == bound
      ensures requests == old(a.requests) + 1 == a.requests && failed == old(a.failed)
      ensures fresh(Block(buffer)) && (buffer != null <==> a.succeeds(old(a.requests)))
    {
      this.bound, this.requests, this.failed := bound, a.requests + 1, a.failed;
      var block := a.NewBytes(prebuffer);
      buffer, length, offset := block, prebuffer, 0;
      initial, asked, tally := prebuffer, [], Tally(prebuffer, 0, 0, 0);
    }

    /** The length is what the requests made it, and what is printed was asked for. */
    ghost predicate Valid()
      reads this
    {
      && tally == After(initial, asked) && tally.peak <= bound <= MAX_REQUEST
      && (buffer != null ==> buffer.Length == length == tally.length && offset <= length && offset <= tally.peak)
    }

    /** What is printed already. */
    ghost function Text(): seq<byte>
      reads this, buffer
    {
      if buffer == null || offset > buffer.Length then [] else buffer[..offset]
    }

    /** `ensure`; the pointer it returns is `buffer+offset`, null for `!ok`. */
    method Ensure(needed: nat, a: Allocator, ghost before: set<object>) returns (ok: bool)
      requires Valid() && Owned(this, a, before) && needed >= 1 && (buffer != null ==> offset + needed <= bound)
      modifies this, a
      ensures Valid() && Owned(this, a, before) && SameRun(this) && ok == (buffer != null)
      ensures old(buffer) != null ==>
        asked == old(asked) + [offset + needed] && tally == Serve(old(tally), offset + needed)
      ensures old(buffer) == null ==> asked == old(asked) && tally == old(tally)
      ensures offset == old(offset)
      ensures ok ==>
        && old(buffer) != null && offset + needed <= buffer.Length && old(buffer.Length) <= buffer.Length
        && buffer[..old(buffer.Length)] == old(buffer[..])
        && (buffer == old(buffer) <==> offset + needed <= old(length))
    {
      hide After, LeastPow2, Failures;
      if buffer == null {
        return false;
      }
      Ask(offset + needed);
      if offset + needed <= length {
        assert Valid() && Owned(this, a, before);
        return true;
      }
      ok := Grow(offset + needed, a, before);
      assert Valid() && Owned(this, a, before);
    }

    /** A request is noted. */
    ghost method Ask(total: nat)
      requires tally == After(initial, asked)
      modifies this`asked, this`tally
      ensures asked == old(asked) + [total] && old(asked) <= asked
      ensures tally == After(initial, asked) == Serve(old(tally), total)
      ensures tally.peak == Max(old(tally).peak, total)
      ensures tally.growths == old(tally).growths + if total <= old(tally).length then 0 else 1
    {
      AfterOneMore(initial, asked, total);
      asked, tally := asked + [total], Serve(tally, total);
    }

    /** The part of `ensure` that replaces the buffer by a longer one. */
    method Grow(needed: nat, a: Allocator, ghost before: set<object>) returns (ok: bool)
      requires buffer != null && buffer.Length == length < needed <= MAX_REQUEST
      requires a.Valid() && a.live == before + {buffer} && buffer !in before
      modifies this`buffer, this`length, a
      ensures a.Valid() && a.live == before + Block(buffer) && Block(buffer) !! before
      ensures a.requests == old(a.requests) + 1 && ok == (buffer != null)
      ensures ok ==>
        && fresh(buffer) && a.failed == old(a.failed) && needed <= buffer.Length == length == LeastPow2(needed)
        && old(buffer.Length) <= buffer.Length && buffer[..old(buffer.Length)] == old(buffer[..])
      ensures !ok ==> a.failed > old(a.failed)
    {
      var newsize := Pow2gt(needed);
      LeastPow2Only(needed, newsize);
      var newbuffer := a.NewBytes(newsize);
      if newbuffer == null {
        a.Free(buffer);
        length, buffer := 0, null;
        return false;
      }
      var end := Writer.Put(newbuffer, 0, buffer[..]);
      assert newbuffer[..0] == [];
      Neutral(buffer[..]);
      a.Free(buffer);
      length := newsize;
      buffer := newbuffer;
      ok := true;
    }

    /** `update`: the offset of the terminator that comes next. */
    method Update(ghost done: seq<byte>, ghost text: seq<byte>)
      requires Valid() && (buffer != null ==> Wrote(this, done, text) && NulFree(text))
      modifies this`offset
      ensures Valid() && (buffer != null ==> Text() == done + text)
    {
      if buffer == null {
        offset := 0;
      } else {
        AtText(done, text);
        offset := offset + |CStr(buffer[offset..])|;
      }
    }

    lemma AtText(done: seq<byte>, text: seq<byte>)
      requires buffer != null && Wrote(this, done, text) && NulFree(text)
      ensures CStr(buffer[offset..]) == text[offset - |done|..]
      ensures buffer[..|done| + |text|] == done + text
    {
      var rest := text[offset - |done|..];
      var all := buffer[..|done| + |text| + 1];
      assert all == done + text + [NUL];
      assert buffer[offset..][..|rest|] == rest by {
        assert all[offset..][..|rest|] == rest;
      }
      assert buffer[offset..][|rest|] == all[|done| + |text|];
      CStrIs(buffer[offset..], rest);
    }
  }

  /**
    The buffer is the only new block, there was one request for it and one for each time it
    grew, and it is there unless one of these failed.
   */
  ghost predicate Owned(p: PrintBuffer, a: Allocator, before: set<object>)
    reads p, a
  {
    && a.Valid() && a.live == before + Block(p.buffer) && Block(p.buffer) !! before
    && a.requests == p.requests + p.tally.growths
    && (if p.buffer == null then a.failed > p.failed else a.failed == p.failed)
  }

  /** The buffer in use is the one that was or a new one, and requests are only added. */
  twostate predicate SameRun(p: PrintBuffer)
    reads p
  {
    old(p.asked) <= p.asked && fresh(Block(p.buffer) - old(Block(p.buffer)))
  }

  /**
    A text and its terminator stand after what was printed before, in room that was asked for;
    the offset is somewhere in that text, and `update` is to find its end.
   */
  ghost predicate Wrote(p: PrintBuffer, done: seq<byte>, text: seq<byte>)
    requires p.buffer != null
    reads p, p.buffer
  {
    && |done| <= p.offset <= |done| + |text| < p.buffer.Length && |done| + |text| < p.tally.peak
    && p.buffer[..|done| + |text| + 1] == done + text + [NUL]
  }
}
