/**
  Writing into a block at an offset: what `strcpy`, `memcpy` and `sprintf` do for the
  printers.  Each of these methods keeps what is before the offset and puts a text after it.
 */
module Writer {
  import opened Bytes

  method Put(dst: array<byte>, at: nat, s: seq<byte>) returns (end: nat)
    requires at + |s| <= dst.Length
    modifies dst
    ensures end == at + |s| && dst[..end] == old(dst[..at]) + s
  {
    end := at;
    while end < at + |s|
      invariant at <= end <= at + |s|
      invariant dst[..end] == old(dst[..at]) + s[..end - at]
    {
      dst[end] := s[end - at];
      end := end + 1;
    }
    assert s[..|s|] == s;
  }

  method PutByte(dst: array<byte>, at: nat, b: byte) returns (end: nat)
    requires at < dst.Length
    modifies dst
    ensures end == at + 1 && dst[..end] == old(dst[..at]) + [b]
  {
    dst[at] := b;
    end := at + 1;
  }

  /** The text of a C string in another block, without its terminator. */
  method Copy(dst: array<byte>, at: nat, src: array<byte>) returns (end: nat)
    requires src != dst && Terminated(src[..]) && at + |CStr(src[..])| <= dst.Length
    modifies dst
    ensures end == at + |CStr(src[..])| && dst[..end] == old(dst[..at]) + CStr(src[..])
  {
    ghost var s := CStr(src[..]);
    CStrPrefix(src[..]);
    var i := 0;
    while src[i] != NUL
      invariant 0 <= i <= |s|
      invariant dst[..at + i] == old(dst[..at]) + s[..i]
      decreases |s| - i
    {
      assert i < |s| && s[i] == src[i];
      dst[at + i] := src[i];
      i := i + 1;
    }
    assert s[..|s|] == s;
    end := at + i;
  }

  /** `strlen` */
  function StrLen(src: array<byte>): nat
    requires Terminated(src[..])
    reads src
  {
    |CStr(src[..])|
  }

  /** A block that starts with a text and a terminator holds the text as a C string. */
  lemma HoldsText(m: seq<byte>, s: seq<byte>)
    requires NulFree(s) && |s| < |m| && m[..|s| + 1] == s + [NUL]
    ensures Terminated(m) && CStr(m) == s
  {
    assert m[..|s|] == m[..|s| + 1][..|s|] && m[|s|] == m[..|s| + 1][|s|];
    CStrIs(m, s);
  }
}
