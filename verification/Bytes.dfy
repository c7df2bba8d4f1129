/**
  Bytes and C strings.  A C string is modelled by the sequence of the bytes before
  its terminator; reading at the end of the sequence reads the terminator.
 */
module Bytes {
  newtype byte = x: int | 0 <= x < 256

  const NUL: byte := 0x00
  const BS: byte := 0x08
  const TAB: byte := 0x09
  const LF: byte := 0x0A
  const FF: byte := 0x0C
  const CR: byte := 0x0D
  const SPACE: byte := 0x20
  const QUOTE: byte := 0x22
  const STAR: byte := 0x2A
  const PLUS: byte := 0x2B
  const COMMA: byte := 0x2C
  const MINUS: byte := 0x2D
  const DOT: byte := 0x2E
  const SLASH: byte := 0x2F
  const ZERO: byte := 0x30
  const NINE: byte := 0x39
  const COLON: byte := 0x3A
  const UPPER_E: byte := 0x45
  const LBRACKET: byte := 0x5B
  const BACKSLASH: byte := 0x5C
  const RBRACKET: byte := 0x5D
  const LOWER_B: byte := 0x62
  const LOWER_E: byte := 0x65
  const LOWER_F: byte := 0x66
  const LOWER_N: byte := 0x6E
  const LOWER_R: byte := 0x72
  const LOWER_T: byte := 0x74
  const LOWER_U: byte := 0x75
  const LBRACE: byte := 0x7B
  const RBRACE: byte := 0x7D

  const NULL_WORD: seq<byte> := [0x6E, 0x75, 0x6C, 0x6C]
  const FALSE_WORD: seq<byte> := [0x66, 0x61, 0x6C, 0x73, 0x65]
  const TRUE_WORD: seq<byte> := [0x74, 0x72, 0x75, 0x65]

  predicate IsDigit(b: byte) {
    ZERO <= b <= NINE
  }

  /** A byte that `skip` passes over: any control character or the space. */
  predicate IsBlank(b: byte) {
    0 < b <= SPACE
  }

  /** The white space of section 2 of RFC 8259, which is also what `cJSON_Minify` drops. */
  predicate IsRfcBlank(b: byte) {
    b == SPACE || b == TAB || b == CR || b == LF
  }

  predicate NulFree(s: seq<byte>) {
    forall i :: 0 <= i < |s| ==> s[i] != NUL
  }

  predicate AllDigits(s: seq<byte>) {
    forall i :: 0 <= i < |s| ==> IsDigit(s[i])
  }

  predicate AllBlank(s: seq<byte>) {
    forall i :: 0 <= i < |s| ==> IsBlank(s[i])
  }

  lemma Associate<T>(a: seq<T>, b: seq<T>, c: seq<T>)
    ensures a + b + c == a + (b + c)
  {
  }

  lemma Neutral<T>(a: seq<T>)
    ensures [] + a == a && a + [] == a
  {
  }

  lemma Slices<T>(s: seq<T>, i: nat, j: nat)
    requires i <= j <= |s|
    ensures s[i..][..j - i] == s[i..j] && s[i..][j - i..] == s[j..]
  {
  }

  lemma Halves<T>(s: seq<T>, i: nat)
    requires i <= |s|
    ensures s[..i] + s[i..] == s
  {
  }

  lemma WholeSlice<T>(s: seq<T>)
    ensures s[..|s|] == s && s[|s|..] == [] && s[0..] == s && s[..0] == []
  {
  }

  lemma Uncons<T>(s: seq<T>)
    requires s != []
    ensures [s[0]] + s[1..] == s
  {
  }

  lemma Unsnoc<T>(s: seq<T>)
    requires s != []
    ensures s[..|s| - 1] + [s[|s| - 1]] == s
  {
  }

  lemma Drop<T>(s: seq<T>, n: nat)
    requires 0 < n <= |s|
    ensures s[1..][n - 1..] == s[n..]
  {
  }

  lemma DropIn<T>(a: seq<T>, b: seq<T>, n: nat)
    requires n <= |a|
    ensures (a + b)[n..] == a[n..] + b
  {
  }

  lemma Behind<T>(a: seq<T>, b: seq<T>)
    ensures (a + b)[|a|..] == b
  {
  }

  /** What a C program reads through a pointer to the first byte of `s`. */
  function Head(s: seq<byte>): byte {
    if s == [] then NUL else s[0]
  }

  /** What is left of `s` after the leading blanks. */
  function Skip(s: seq<byte>): (r: seq<byte>)
    ensures |r| <= |s|
  {
    if s != [] && IsBlank(s[0]) then Skip(s[1..]) else s
  }

  /** The content of a memory block read as a C string: the bytes before the first NUL. */
  function CStr(m: seq<byte>): (r: seq<byte>)
    ensures |r| <= |m|
  {
    if m == [] || m[0] == NUL then [] else [m[0]] + CStr(m[1..])
  }

  /** A block holds a C string when it holds a terminator. */
  ghost predicate Terminated(m: seq<byte>) {
    |CStr(m)| < |m|
  }

  lemma {:induction false} Skipped(s: seq<byte>)
    ensures var n := |s| - |Skip(s)|;
            AllBlank(s[..n]) && Skip(s) == s[n..] && !IsBlank(Head(Skip(s)))
  {
    if s != [] && IsBlank(s[0]) {
      Skipped(s[1..]);
      var n := |s| - |Skip(s)|;
      assert s[..n] == [s[0]] + s[1..][..n - 1];
    }
  }

  lemma NulFreeSkip(s: seq<byte>)
    requires NulFree(s)
    ensures NulFree(Skip(s))
  {
    Skipped(s);
  }

  lemma NulFreeEnd(a: seq<byte>, k: seq<byte>)
    requires NulFree(a + k)
    ensures NulFree(k)
  {
    Behind(a, k);
  }

  lemma {:induction false} SkipBlanks(w: seq<byte>, s: seq<byte>)
    requires AllBlank(w)
    ensures Skip(w + s) == Skip(s)
  {
    if w == [] {
      assert w + s == s;
    } else {
      assert (w + s)[1..] == w[1..] + s;
      SkipBlanks(w[1..], s);
    }
  }

  lemma CStrPrefix(m: seq<byte>)
    ensures var r := CStr(m); NulFree(r) && r == m[..|r|] && (|r| < |m| ==> m[|r|] == NUL)
  {
  }

  /** The string a block holds is fixed by its bytes up to the first terminator. */
  lemma {:induction false} CStrIs(m: seq<byte>, s: seq<byte>)
    requires NulFree(s) && |s| < |m| && m[..|s|] == s && m[|s|] == NUL
    ensures CStr(m) == s && Terminated(m)
  {
    if s != [] {
      assert m[0] == s[0];
      assert m[1..][..|s| - 1] == s[1..];
      CStrIs(m[1..], s[1..]);
    }
  }
}
