/** `str_replace` of the CGI helpers: replacement in place of every match, from left to right. */
module StrReplace {
  import opened Bytes
  import Writer

  /** The text after all replacements; an empty pattern matches nowhere. */
  function Replaced(s: seq<byte>, f: seq<byte>, r: seq<byte>): seq<byte>
    decreases |s|
  {
    if s == [] then []
    else if f != [] && f <= s then r + Replaced(s[|f|..], f, r)
    else [s[0]] + Replaced(s[1..], f, r)
  }

  // ---------------------------------------------------------------- what it means

  /** Pieces of a text with a separator between them. */
  function Join(pieces: seq<seq<byte>>, sep: seq<byte>): seq<byte>
    requires pieces != []
  {
    if |pieces| == 1 then pieces[0] else pieces[0] + sep + Join(pieces[1..], sep)
  }

  /** No match begins inside a piece. */
  ghost predicate Leftmost(pieces: seq<seq<byte>>, f: seq<byte>)
    requires pieces != []
  {
    && (forall k :: 0 <= k < |pieces[0]| ==> !(f <= Join(pieces, f)[k..]))
    && (|pieces| > 1 ==> Leftmost(pieces[1..], f))
  }

  /** The pieces between the matches that are replaced. */
  function Split(s: seq<byte>, f: seq<byte>): (pieces: seq<seq<byte>>)
    requires f != []
    ensures pieces != []
    decreases |s|
  {
    if s == [] then [[]]
    else if f <= s then [[]] + Split(s[|f|..], f)
    else
      var rest := Split(s[1..], f);
      [[s[0]] + rest[0]] + rest[1..]
  }

  function Matches(s: seq<byte>, f: seq<byte>): nat
    requires f != []
  {
    |Split(s, f)| - 1
  }

  /** Exactly the separators of the pieces are replaced, so nothing inserted is ever looked at again. */
  lemma {:induction false} ReplacesSeparators(s: seq<byte>, f: seq<byte>, r: seq<byte>)
    requires f != []
    ensures Replaced(s, f, r) == Join(Split(s, f), r)
    decreases |s|
  {
    if s != [] {
      if f <= s {
        ReplacesSeparators(s[|f|..], f, r);
        assert Split(s, f)[1..] == Split(s[|f|..], f);
        Neutral(r);
      } else {
        ReplacesSeparators(s[1..], f, r);
        Prepended(s[0], Split(s[1..], f), r);
      }
    }
  }

  lemma Prepended(b: byte, rest: seq<seq<byte>>, sep: seq<byte>)
    requires rest != []
    ensures var pieces := [[b] + rest[0]] + rest[1..];
            pieces[1..] == rest[1..] && Join(pieces, sep) == [b] + Join(rest, sep)
  {
    var pieces := [[b] + rest[0]] + rest[1..];
    assert pieces[1..] == rest[1..];
    if |rest| > 1 {
      Associate([b], rest[0], sep);
      Associate([b], rest[0] + sep, Join(rest[1..], sep));
    }
  }

  lemma {:induction false} ReplacedItself(s: seq<byte>, f: seq<byte>)
    requires f != []
    ensures Replaced(s, f, f) == s
    decreases |s|
  {
    if s != [] {
      if f <= s {
        ReplacedItself(s[|f|..], f);
        assert s == f + s[|f|..];
      } else {
        ReplacedItself(s[1..], f);
      }
    }
  }

  /** The pieces make up the text, and no match begins inside one of them. */
  lemma {:induction false} SplitIsLeftmost(s: seq<byte>, f: seq<byte>)
    requires f != []
    ensures Join(Split(s, f), f) == s && Leftmost(Split(s, f), f)
    decreases |s|
  {
    ReplacesSeparators(s, f, f);
    ReplacedItself(s, f);
    var pieces := Split(s, f);
    if s != [] {
      if f <= s {
        SplitIsLeftmost(s[|f|..], f);
        assert pieces[1..] == Split(s[|f|..], f);
      } else {
        var rest := Split(s[1..], f);
        SplitIsLeftmost(s[1..], f);
        Prepended(s[0], rest, f);
        forall k | 0 <= k < |pieces[0]|
          ensures !(f <= s[k..])
        {
          if k > 0 {
            assert s[k..] == s[1..][k - 1..];
          }
        }
      }
    }
  }

  /** There is only one such way to cut the text. */
  lemma {:induction false} LeftmostIsUnique(pieces: seq<seq<byte>>, f: seq<byte>)
    requires f != [] && pieces != [] && Leftmost(pieces, f)
    ensures Split(Join(pieces, f), f) == pieces
    decreases |pieces|, |pieces[0]|
  {
    var s := Join(pieces, f);
    if pieces[0] == [] {
      if |pieces| == 1 {
        assert pieces == [[]];
      } else {
        Neutral(f);
        assert s[|f|..] == Join(pieces[1..], f);
        LeftmostIsUnique(pieces[1..], f);
        assert pieces == [[]] + pieces[1..];
      }
    } else {
      var shorter := [pieces[0][1..]] + pieces[1..];
      assert pieces[0] == [s[0]] + shorter[0];
      Prepended(s[0], shorter, f);
      assert [[s[0]] + shorter[0]] + shorter[1..] == pieces;
      assert s[1..] == Join(shorter, f);
      assert !(f <= s[0..]) && s[0..] == s;
      forall k | 0 <= k < |shorter[0]|
        ensures !(f <= Join(shorter, f)[k..])
      {
        assert s[1..][k..] == s[k + 1..];
      }
      assert shorter[1..] == pieces[1..];
      LeftmostIsUnique(shorter, f);
    }
  }

  /** Every match changes the length by the same amount. */
  lemma {:induction false} LengthLaw(s: seq<byte>, f: seq<byte>, r: seq<byte>)
    requires f != []
    ensures |Replaced(s, f, r)| == |s| + Matches(s, f) * (|r| - |f|)
    decreases |s|
  {
    if s != [] {
      if f <= s {
        LengthLaw(s[|f|..], f, r);
        OneMoreMatch(Matches(s[|f|..], f), |r| - |f|);
      } else {
        LengthLaw(s[1..], f, r);
      }
    }
  }

  lemma OneMoreMatch(n: nat, d: int)
    ensures (n + 1) * d == n * d + d
  {
  }

  lemma {:induction false} EmptyPattern(s: seq<byte>, r: seq<byte>)
    ensures Replaced(s, [], r) == s
  {
    if s != [] {
      EmptyPattern(s[1..], r);
      Uncons(s);
    }
  }

  lemma NotShorter(s: seq<byte>, f: seq<byte>, r: seq<byte>)
    requires |r| >= |f|
    ensures |Replaced(s, f, r)| >= |s|
    decreases |s|
  {
  }

  // ---------------------------------------------------------------- the loop

  /** Whether the pattern stands at an offset. */
  predicate StartsWith(src: array<byte>, at: nat, find: array<byte>)
    requires at <= src.Length
    reads src, find
  {
    CStr(find[..]) <= CStr(src[at..])
  }

  /** The text of a block at an offset. */
  ghost predicate TextAt(src: array<byte>, at: nat, s: seq<byte>)
    reads src
  {
    at + |s| < src.Length && NulFree(s) && src[at..at + |s| + 1] == s + [NUL]
  }

  lemma ReadsText(src: array<byte>, at: nat, s: seq<byte>)
    requires TextAt(src, at, s)
    ensures CStr(src[at..]) == s && src[at] == Head(s)
    ensures forall n :: 0 <= n <= |s| ==> TextAt(src, at + n, s[n..])
  {
    var piece := src[at..at + |s| + 1];
    assert src[at..][..|s|] == piece[..|s|] && src[at..][|s|] == piece[|s|];
    CStrIs(src[at..], s);
    assert src[at] == piece[0];
    forall n | 0 <= n <= |s|
      ensures TextAt(src, at + n, s[n..])
    {
      assert src[at + n..at + |s| + 1] == piece[n..];
    }
  }

  /** One match is replaced: the rest of the text is saved, the replacement written, the rest put back. */
  method ReplaceOne(src: array<byte>, at: nat, find: array<byte>, repl: array<byte>, ghost s: seq<byte>,
                    ghost f: seq<byte>, ghost r: seq<byte>)
    returns (next: nat)
    requires src != find && src != repl && Terminated(find[..]) && Terminated(repl[..])
    requires f == CStr(find[..]) && r == CStr(repl[..]) && TextAt(src, at, s) && f <= s
    requires at + |r| + |s| - |f| < src.Length
    modifies src
    ensures next == at + |r| && src[..next] == old(src[..at]) + r && TextAt(src, next, s[|f|..])
  {
    ghost var rest := s[|f|..];
    ReadsText(src, at, s);
    var q := at + Writer.StrLen(find);
    ReadsText(src, q, rest);
    var temp := SaveRest(src, q, rest);
    next := Writer.Copy(src, at, repl);
    ghost var done := src[..next];
    var end := Writer.Copy(src, next, temp);
    end := Writer.PutByte(src, end, NUL);
    PutBack(src[..], done, rest);
  }

  /** The rest of the text is copied to a block of its own. */
  method SaveRest(src: array<byte>, q: nat, ghost rest: seq<byte>) returns (temp: array<byte>)
    requires TextAt(src, q, rest) && CStr(src[q..]) == rest
    ensures fresh(temp) && Terminated(temp[..]) && CStr(temp[..]) == rest
  {
    var lastLen := |CStr(src[q..])|;
    temp := new byte[lastLen + 1];
    assert src[q..q + lastLen] == src[q..q + lastLen + 1][..lastLen];
    var end := Writer.Put(temp, 0, src[q..q + lastLen] + [NUL]);
    assert temp[..0] == [];
    Neutral(rest + [NUL]);
    Writer.HoldsText(temp[..], rest);
  }

  lemma PutBack(m: seq<byte>, done: seq<byte>, rest: seq<byte>)
    requires var n := |done| + |rest| + 1; n <= |m| && m[..n] == done + rest + [NUL]
    ensures m[..|done|] == done && m[|done|..|done| + |rest| + 1] == rest + [NUL]
  {
    var n := |done| + |rest| + 1;
    Associate(done, rest, [NUL]);
    assert m[..n][..|done|] == done && m[..n][|done|..] == rest + [NUL];
  }

  lemma WholeText(src: array<byte>)
    requires Terminated(src[..])
    ensures TextAt(src, 0, CStr(src[..]))
  {
    var s := CStr(src[..]);
    CStrPrefix(src[..]);
    assert src[0..|s| + 1] == src[..][..|s|] + [src[..][|s|]];
  }

  lemma OneFurther(m: seq<byte>, at: nat)
    requires at < |m|
    ensures m[..at + 1] == m[..at] + [m[at]]
  {
  }

  /** `str_replace`; the memory for the saved rest is taken to be there. */
  method Replace(strSrc: array<byte>, strFind: array<byte>, strReplace: array<byte>)
    requires strSrc != strFind && strSrc != strReplace
    requires Terminated(strSrc[..]) && Terminated(strFind[..]) && Terminated(strReplace[..])
    requires |Replaced(CStr(strSrc[..]), CStr(strFind[..]), CStr(strReplace[..]))| < strSrc.Length
    modifies strSrc
    ensures Terminated(strSrc[..])
    ensures CStr(strSrc[..]) == Replaced(old(CStr(strSrc[..])), CStr(strFind[..]), CStr(strReplace[..]))
  {
    hide CStr;
    ghost var s, f, r := CStr(strSrc[..]), CStr(strFind[..]), CStr(strReplace[..]);
    ghost var all := Replaced(s, f, r);
    CStrPrefix(strSrc[..]);
    CStrPrefix(strFind[..]);
    CStrPrefix(strReplace[..]);
    WholeText(strSrc);
    var at: nat := 0;
    assert strSrc[..0] == [];
    while strSrc[at] != NUL
      invariant TextAt(strSrc, at, s) && NulFree(strSrc[..at])
      invariant strSrc[..at] + Replaced(s, f, r) == all
      decreases |s|
    {
      ReadsText(strSrc, at, s);
      if strSrc[at] == strFind[0] && StartsWith(strSrc, at, strFind) {
        assert f != [];
        if |r| >= |f| {
          NotShorter(s[|f|..], f, r);
        }
        Associate(strSrc[..at], r, Replaced(s[|f|..], f, r));
        at := ReplaceOne(strSrc, at, strFind, strReplace, s, f, r);
        s := s[|f|..];
      } else {
        Associate(strSrc[..at], [s[0]], Replaced(s[1..], f, r));
        OneFurther(strSrc[..], at);
        at := at + 1;
        s := s[1..];
      }
    }
    ReadsText(strSrc, at, s);
    assert s == [];
    Neutral(strSrc[..at]);
    CStrIs(strSrc[..], all);
  }
}
