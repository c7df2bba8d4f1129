/** `cJSON_Minify`: a read cursor and a write cursor move over the same block. */
module Minifier {
  import opened Bytes
  import Spec = MinifySpec
  import Strings

  /** What both cursors keep true: the block holds `text` from the read cursor on. */
  ghost predicate Unread(block: seq<byte>, text: seq<byte>, into: int, from: int) {
    && 0 <= into <= from <= |text| < |block|
    && (forall i :: from <= i < |text| ==> block[i] == text[i])
    && block[|text|] == NUL
    && NulFree(text)
  }

  /** Reading the block at the cursor is reading the text from there on. */
  lemma Peek(block: seq<byte>, text: seq<byte>, into: int, from: int)
    requires Unread(block, text, into, from)
    ensures block[from] == Head(text[from..])
    ensures from < |text| ==> block[from + 1] == Head(text[from + 1..]) && text[from..][1..] == text[from + 1..]
  {
  }

  /** The `//` branch: up to the line feed or the end. */
  method PassLine(json: array<byte>, from: nat, ghost text: seq<byte>, ghost into: int) returns (r: nat)
    requires Unread(json[..], text, into, from)
    requires Spec.IsLineComment(text[from..]) && Spec.Closed(text[from..])
    ensures from < r && Unread(json[..], text, into, r) && Spec.Closed(text[r..])
    ensures Spec.Minify(text[r..]) == Spec.Minify(text[from..])
  {
    r := from + 1;
    assert text[from..][1..] == text[r..];
    ghost var start := r;
    while json[r] != NUL && json[r] != LF
      invariant Unread(json[..], text, into, r) && start <= r
      invariant Spec.LineEnd(text[r..]) == Spec.LineEnd(text[start..])
      decreases |text| - r
    {
      Peek(json[..], text, into, r);
      r := r + 1;
    }
    Peek(json[..], text, into, r);
  }

  /** The block comment branch: past the closing star and slash. */
  method PassBlock(json: array<byte>, from: nat, ghost text: seq<byte>, ghost into: int) returns (r: nat)
    requires Unread(json[..], text, into, from)
    requires Spec.IsBlockComment(text[from..]) && Spec.Closed(text[from..])
    ensures from < r && Unread(json[..], text, into, r) && Spec.Closed(text[r..])
    ensures Spec.Minify(text[r..]) == Spec.Minify(text[from..])
  {
    r := from + 1;
    assert text[from..][1..] == text[r..];
    ghost var start := r;
    while json[r] != NUL && !(json[r] == STAR && json[r + 1] == SLASH)
      invariant Unread(json[..], text, into, r) && start <= r
      invariant Spec.StarSlash(text[r..]) == Spec.StarSlash(text[start..])
      decreases |text| - r
    {
      Peek(json[..], text, into, r);
      r := r + 1;
    }
    Peek(json[..], text, into, r);
    assert text[r..][2..] == text[r + 2..];
    r := r + 2;
  }

  /** One byte is copied from the read cursor to the write cursor, and both move on. */
  method Copy(json: array<byte>, into: nat, from: nat, ghost text: seq<byte>)
    requires Unread(json[..], text, into, from) && from < |text|
    modifies json
    ensures Unread(json[..], text, into + 1, from + 1)
    ensures json[..into + 1] == old(json[..into]) + [text[from]]
    ensures json[|text|..] == old(json[|text|..])
  {
    json[into] := json[from];
  }

  /** The literal branch, after the opening quote and up to the closing one. */
  method CopyBody(json: array<byte>, into: nat, from: nat, ghost text: seq<byte>) returns (w: nat, r: nat)
    requires Unread(json[..], text, into, from)
    requires Head(Strings.Count(text[from..]).1) == QUOTE
    modifies json
    ensures Unread(json[..], text, w, r) && from <= r
    ensures text[r..] == Strings.Count(text[from..]).1
    ensures json[..w] == old(json[..into]) + text[from..r]
    ensures json[|text|..] == old(json[|text|..])
  {
    hide Strings.Count, CStr;
    ghost var done := json[..into];
    w, r := into, from;
    Neutral(done);
    while json[r] != NUL && json[r] != QUOTE
      invariant Unread(json[..], text, w, r) && from <= r
      invariant Strings.Count(text[r..]).1 == Strings.Count(text[from..]).1
      invariant json[..w] == done + text[from..r]
      invariant json[|text|..] == old(json[|text|..])
      decreases |text| - r
    {
      Peek(json[..], text, w, r);
      ghost var start := r;
      w, r := CopyPlain(json, w, r, text);
      Extend(done, text, from, start, r);
    }
    Peek(json[..], text, w, r);
    BodyEnds(text[r..]);
  }

  /** A byte of a literal, with the backslash before it if there is one. */
  method CopyPlain(json: array<byte>, into: nat, from: nat, ghost text: seq<byte>) returns (w: nat, r: nat)
    requires Unread(json[..], text, into, from) && from < |text| && text[from] != QUOTE
    requires Head(Strings.Count(text[from..]).1) == QUOTE
    modifies json
    ensures Unread(json[..], text, w, r) && from < r
    ensures Strings.Count(text[r..]).1 == Strings.Count(text[from..]).1
    ensures json[..w] == old(json[..into]) + text[from..r]
    ensures json[|text|..] == old(json[|text|..])
  {
    hide Strings.Count, CStr;
    ghost var done := json[..into];
    Peek(json[..], text, into, from);
    PlainByte(text[from..]);
    Slices(text, from, from + 1);
    w, r := into, from;
    if json[r] == BACKSLASH {
      Slices(text, from, from + 2);
      Copy(json, w, r, text);
      w, r := w + 1, r + 1;
    }
    Copy(json, w, r, text);
    w, r := w + 1, r + 1;
    assert [text[from], text[r - 1]] == [text[from]] + [text[r - 1]];
    Associate(done, [text[from]], [text[r - 1]]);
  }

  lemma Extend(done: seq<byte>, text: seq<byte>, from: nat, start: nat, r: nat)
    requires from <= start <= r <= |text|
    ensures done + text[from..start] + text[start..r] == done + text[from..r]
  {
  }

  /** What the counting pass goes on with after a byte or an escape. */
  lemma PlainByte(s: seq<byte>)
    requires s != [] && s[0] != NUL && s[0] != QUOTE && Head(Strings.Count(s).1) == QUOTE
    ensures if s[0] == BACKSLASH then |s| >= 2 && Strings.Count(s).1 == Strings.Count(s[2..]).1
            else Strings.Count(s).1 == Strings.Count(s[1..]).1
  {
  }

  lemma BodyEnds(s: seq<byte>)
    requires Strings.AtEnd(s)
    ensures Strings.Count(s).1 == s
  {
  }

  /**
    The text is replaced by its minified form in place.  The write cursor never passes the
    read cursor, and nothing after the old terminator is touched.
   */
  method Minify(json: array<byte>)
    requires Terminated(json[..]) && Spec.Closed(CStr(json[..]))
    modifies json
    ensures Terminated(json[..]) && CStr(json[..]) == Spec.Minify(old(CStr(json[..])))
    ensures json[|old(CStr(json[..]))| + 1..] == old(json[|CStr(json[..])| + 1..])
  {
    hide CStr, Spec.LineEnd, Spec.StarSlash, Strings.Count;
    ghost var text := CStr(json[..]);
    CStrPrefix(json[..]);
    var into, from := 0, 0;
    assert text[0..] == text;
    while json[from] != NUL
      invariant Unread(json[..], text, into, from) && Spec.Closed(text[from..])
      invariant json[..into] + Spec.Minify(text[from..]) == Spec.Minify(text)
      invariant json[|text|..] == old(json[|text|..])
      decreases |text| - from
    {
      Peek(json[..], text, into, from);
      if IsRfcBlank(json[from]) {
        from := from + 1;
      } else if json[from] == SLASH && json[from + 1] == SLASH {
        from := PassLine(json, from, text, into);
      } else if json[from] == SLASH && json[from + 1] == STAR {
        from := PassBlock(json, from, text, into);
      } else if json[from] == QUOTE {
        into, from := CopyLiteral(json, into, from, text);
      } else {
        ghost var done := json[..into];
        Copy(json, into, from, text);
        into, from := into + 1, from + 1;
        Associate(done, [text[from - 1]], Spec.Minify(text[from..]));
      }
    }
    Peek(json[..], text, into, from);
    assert json[..into] + [] == json[..into];
    json[into] := NUL;
    assert json[..into] == Spec.Minify(text);
    MinifyNulFree(text);
    CStrIs(json[..], Spec.Minify(text));
  }

  /** The literal branch, from the opening quote past the closing one. */
  method CopyLiteral(json: array<byte>, into: nat, from: nat, ghost text: seq<byte>) returns (w: nat, r: nat)
    requires Unread(json[..], text, into, from) && from < |text| && text[from] == QUOTE
    requires Spec.Closed(text[from..])
    modifies json
    ensures Unread(json[..], text, w, r) && from < r && Spec.Closed(text[r..])
    ensures json[..w] + Spec.Minify(text[r..]) == old(json[..into]) + Spec.Minify(text[from..])
    ensures json[|text|..] == old(json[|text|..])
  {
    hide Strings.Count, Spec.Minify;
    ghost var done := json[..into];
    assert text[from..][1..] == text[from + 1..];
    Copy(json, into, from, text);
    w, r := CopyBody(json, into + 1, from + 1, text);
    LiteralMinified(text, from, r, done);
    Copy(json, w, r, text);
    w, r := w + 1, r + 1;
  }

  /** What is written for a literal. */
  lemma LiteralMinified(text: seq<byte>, from: nat, r: nat, done: seq<byte>)
    requires from < r <= |text| && text[from] == QUOTE && Spec.Closed(text[from..])
    requires text[r..] == Strings.Count(text[from + 1..]).1
    ensures r < |text| && text[r] == QUOTE && Spec.Closed(text[r + 1..])
    ensures done + [text[from]] + text[from + 1..r] + [text[r]] + Spec.Minify(text[r + 1..])
         == done + Spec.Minify(text[from..])
  {
    var s1 := text[from + 1..];
    Slices(text, from, from + 1);
    MinifyLiteral(text[from..], s1, text[r..]);
    Slices(text, from + 1, r);
    Slices(text, r, r + 1);
    CopiedLiteral(done, text[from + 1..r], Spec.Minify(text[r + 1..]));
  }

  lemma MinifyLiteral(s: seq<byte>, s1: seq<byte>, k: seq<byte>)
    requires s != [] && s[0] == QUOTE && Spec.Closed(s) && s1 == s[1..] && k == Strings.Count(s1).1
    ensures Head(k) == QUOTE && Spec.Closed(k[1..])
    ensures Spec.Minify(s) == [QUOTE] + (s1[..|s1| - |k|] + ([QUOTE] + Spec.Minify(k[1..])))
  {
  }

  lemma CopiedLiteral(a: seq<byte>, b: seq<byte>, c: seq<byte>)
    ensures a + [QUOTE] + b + [QUOTE] + c == a + ([QUOTE] + (b + ([QUOTE] + c)))
  {
    Associate(a + [QUOTE] + b, [QUOTE], c);
    Associate(a + [QUOTE], b, [QUOTE] + c);
    Associate(a, [QUOTE], b + ([QUOTE] + c));
  }

  lemma {:induction false} MinifyNulFree(s: seq<byte>)
    requires NulFree(s) && Spec.Closed(s)
    ensures NulFree(Spec.Minify(s))
    decreases |s|
  {
    hide Spec.LineEnd, Spec.StarSlash;
    if s != [] {
      var s1 := s[1..];
      if IsRfcBlank(s[0]) {
        MinifyNulFree(s1);
      } else if Spec.IsLineComment(s) {
        LineEndSuffix(s1);
        MinifyNulFree(Spec.LineEnd(s1));
      } else if Spec.IsBlockComment(s) {
        StarSlashSuffix(s1);
        MinifyNulFree(Spec.StarSlash(s1)[2..]);
      } else if s[0] == QUOTE {
        Strings.CountSuffix(s1);
        MinifyNulFree(Strings.Count(s1).1[1..]);
      } else {
        MinifyNulFree(s1);
      }
    }
  }

  lemma LineEndSuffix(s: seq<byte>)
    ensures var k := Spec.LineEnd(s); k == s[|s| - |k|..]
  {
  }

  lemma StarSlashSuffix(s: seq<byte>)
    ensures var k := Spec.StarSlash(s); k == s[|s| - |k|..]
  {
  }
}
