/** `print_string_ptr`: the two scans of the string and the two ways of writing it. */
module StringPrinter {
  import opened Bytes
  import opened Json
  import opened Writer

  /** A byte that is printed as it is. */
  predicate IsBare(b: byte) {
    b >= 32 && b != QUOTE && b != BACKSLASH
  }

  predicate AllBare(s: seq<byte>) {
    forall i :: 0 <= i < |s| ==> IsBare(s[i])
  }

  lemma {:induction false} BareText(s: seq<byte>)
    requires AllBare(s)
    ensures PrintBytes(s) == s
  {
    if s != [] {
      var rest := s[1..];
      assert AllBare(rest);
      BareText(rest);
      assert PrintByte(s[0]) == [s[0]] && s == [s[0]] + rest;
    }
  }

  lemma {:induction false} PrintBytesAppend(s: seq<byte>, b: byte)
    ensures PrintBytes(s + [b]) == PrintBytes(s) + PrintByte(b)
  {
    if s == [] {
      assert [b][1..] == [];
      Neutral(PrintByte(b));
    } else {
      assert (s + [b])[1..] == s[1..] + [b];
      PrintBytesAppend(s[1..], b);
      Associate(PrintByte(s[0]), PrintBytes(s[1..]), PrintByte(b));
    }
  }

  /** The first scan: whether any byte needs an escape, and the length of the string. */
  method NeedsEscape(str: array<byte>) returns (flag: bool, len: nat)
    requires Terminated(str[..])
    ensures len == |CStr(str[..])|
    ensures flag <==> exists i :: 0 <= i < len && !IsBare(CStr(str[..])[i])
  {
    ghost var s := CStr(str[..]);
    CStrPrefix(str[..]);
    flag, len := false, 0;
    while str[len] != NUL
      invariant 0 <= len <= |s|
      invariant flag <==> exists i :: 0 <= i < len && !IsBare(s[i])
      decreases |s| - len
    {
      assert str[len] == s[len];
      if (str[len] > 0 && str[len] < 32) || str[len] == QUOTE || str[len] == BACKSLASH {
        flag := true;
      }
      len := len + 1;
    }
  }

  /** The second scan: the exact length of the escaped text. */
  method EscapedLength(str: array<byte>) returns (len: nat)
    requires Terminated(str[..])
    ensures len == |PrintBytes(CStr(str[..]))|
  {
    ghost var s := CStr(str[..]);
    CStrPrefix(str[..]);
    len := 0;
    var p := 0;
    assert s[..0] == [];
    while str[p] != NUL
      invariant 0 <= p <= |s| && len == |PrintBytes(s[..p])|
      decreases |s| - p
    {
      var token := str[p];
      assert token == s[p] && s[..p + 1] == s[..p] + [token];
      PrintBytesAppend(s[..p], token);
      len := len + 1;
      if token in [QUOTE, BACKSLASH, BS, FF, LF, CR, TAB] {
        len := len + 1;
      } else if token < 32 {
        len := len + 5;
      }
      p := p + 1;
    }
    assert s[..|s|] == s;
  }

  /** `"`, the bytes as they are, `"` and the terminator. */
  method WriteBare(dst: array<byte>, at: nat, str: array<byte>) returns (end: nat)
    requires str != dst && Terminated(str[..]) && at + |CStr(str[..])| + 3 <= dst.Length
    modifies dst
    ensures end == at + |CStr(str[..])| + 3
    ensures dst[..end] == old(dst[..at]) + [QUOTE] + CStr(str[..]) + [QUOTE] + [NUL]
  {
    end := PutByte(dst, at, QUOTE);
    end := Copy(dst, end, str);
    end := PutByte(dst, end, QUOTE);
    end := PutByte(dst, end, NUL);
  }

  /** One byte of the string, escaped if it must be. */
  method WriteByte(dst: array<byte>, at: nat, b: byte) returns (end: nat)
    requires b != NUL && at + |PrintByte(b)| <= dst.Length
    modifies dst
    ensures end == at + |PrintByte(b)| && dst[..end] == old(dst[..at]) + PrintByte(b)
  {
    if b > 31 && b != QUOTE && b != BACKSLASH {
      end := PutByte(dst, at, b);
    } else {
      ghost var done := dst[..at];
      end := PutByte(dst, at, BACKSLASH);
      if b == BACKSLASH {
        end := PutByte(dst, end, BACKSLASH);
      } else if b == QUOTE {
        end := PutByte(dst, end, QUOTE);
      } else if b == BS {
        end := PutByte(dst, end, LOWER_B);
      } else if b == FF {
        end := PutByte(dst, end, LOWER_F);
      } else if b == LF {
        end := PutByte(dst, end, LOWER_N);
      } else if b == CR {
        end := PutByte(dst, end, LOWER_R);
      } else if b == TAB {
        end := PutByte(dst, end, LOWER_T);
      } else {
        // any other control character: the letter u and the code as four hex digits
        end := Put(dst, end, [LOWER_U, ZERO, ZERO, HexLetter(b as int / 16), HexLetter(b as int % 16)]);
      }
      assert PrintByte(b) == [BACKSLASH] + PrintByte(b)[1..];
      Associate(done, [BACKSLASH], PrintByte(b)[1..]);
    }
  }

  /** `"`, the escaped bytes, `"` and the terminator, in exactly the room counted. */
  method WriteEscaped(dst: array<byte>, at: nat, str: array<byte>) returns (end: nat)
    requires str != dst && Terminated(str[..]) && at + |PrintBytes(CStr(str[..]))| + 3 <= dst.Length
    modifies dst
    ensures end == at + |PrintString(CStr(str[..]))| + 1
    ensures dst[..end] == old(dst[..at]) + PrintString(CStr(str[..])) + [NUL]
  {
    hide CStr;
    ghost var s, done := CStr(str[..]), dst[..at] + [QUOTE];
    CStrPrefix(str[..]);
    end := PutByte(dst, at, QUOTE);
    var p := 0;
    assert s[..0] == [];
    Neutral(done);
    while str[p] != NUL
      invariant 0 <= p <= |s| && at + 1 <= end && end == at + 1 + |PrintBytes(s[..p])| <= dst.Length
      invariant dst[..end] == done + PrintBytes(s[..p])
      decreases |s| - p
    {
      assert str[p] == s[p];
      PrintedPrefix(s, p);
      end := WriteByte(dst, end, str[p]);
      Associate(done, PrintBytes(s[..p]), PrintByte(s[p]));
      p := p + 1;
    }
    assert s[..|s|] == s;
    end := PutByte(dst, end, QUOTE);
    end := PutByte(dst, end, NUL);
    assert old(dst[..at]) + [QUOTE] + PrintBytes(s) + [QUOTE] == old(dst[..at]) + PrintString(s);
  }

  lemma PrintedPrefix(s: seq<byte>, p: nat)
    requires p < |s|
    ensures PrintBytes(s[..p + 1]) == PrintBytes(s[..p]) + PrintByte(s[p])
    ensures |PrintBytes(s[..p + 1])| <= |PrintBytes(s)|
  {
    assert s[..p + 1] == s[..p] + [s[p]];
    PrintBytesAppend(s[..p], s[p]);
    PrintedLonger(s[..p + 1], s[p + 1..]);
    assert s == s[..p + 1] + s[p + 1..];
  }

  lemma {:induction false} PrintedLonger(s: seq<byte>, t: seq<byte>)
    ensures |PrintBytes(s)| <= |PrintBytes(s + t)|
  {
    if s != [] {
      assert (s + t)[1..] == s[1..] + t;
      PrintedLonger(s[1..], t);
    }
  }

  /** The scans: which way to write the string, and the exact size of its text with the terminator. */
  method Measure(str: array<byte>) returns (flag: bool, size: nat)
    requires Terminated(str[..])
    ensures size == |PrintString(CStr(str[..]))| + 1
    ensures !flag ==> PrintBytes(CStr(str[..])) == CStr(str[..])
  {
    var len;
    flag, len := NeedsEscape(str);
    if !flag {
      BareText(CStr(str[..]));
    } else {
      len := EscapedLength(str);
    }
    size := len + 3;
  }

  /** The text of the string and the terminator, in exactly the room measured. */
  method Write(dst: array<byte>, at: nat, str: array<byte>, flag: bool) returns (end: nat)
    requires str != dst && Terminated(str[..]) && at + |PrintString(CStr(str[..]))| + 1 <= dst.Length
    requires !flag ==> PrintBytes(CStr(str[..])) == CStr(str[..])
    modifies dst
    ensures end == at + |PrintString(CStr(str[..]))| + 1
    ensures dst[..end] == old(dst[..at]) + PrintString(CStr(str[..])) + [NUL]
  {
    if !flag {
      end := WriteBare(dst, at, str);
      ghost var s := CStr(str[..]);
      assert old(dst[..at]) + [QUOTE] + s + [QUOTE] == old(dst[..at]) + PrintString(s);
    } else {
      end := WriteEscaped(dst, at, str);
    }
  }
}
