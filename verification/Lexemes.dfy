/**
  The lexical structure that `cJSON_Minify` goes by: a text is a row of bytes, literals and
  comments, and what is left of it are its literals and those bytes that are not white space.
 */
module Lexemes {
  import opened Bytes
  import opened MinifySpec
  import Strings

  /**
    The text of a line comment is what is behind its two slashes, that of a block comment what
    is between the first byte and the last two.
   */
  datatype Lexeme = Byte(b: byte) | Literal(body: seq<byte>) | Line(text: seq<byte>) | Block(text: seq<byte>) {
    /** The lexeme followed by `k`. */
    function Emit(k: seq<byte>): (r: seq<byte>)
      ensures |r| > |k|
    {
      match this
      case Byte(b) => [b] + k
      case Literal(body) => [QUOTE] + (body + ([QUOTE] + k))
      case Line(text) => [SLASH, SLASH] + (text + k)
      case Block(text) => [SLASH] + (text + ([STAR, SLASH] + k))
    }

    /** What is left of it, followed by `k`. */
    function Keep(k: seq<byte>): seq<byte> {
      match this
      case Byte(b) => if IsRfcBlank(b) then k else [b] + k
      case Literal(body) => [QUOTE] + (body + ([QUOTE] + k))
      case _ => k
    }

    /** Whether the lexeme can stand before `k`, as a whole. */
    predicate Before(k: seq<byte>) {
      match this
      case Byte(b) => b != NUL && b != QUOTE && (b == SLASH ==> Head(k) != SLASH && Head(k) != STAR)
      case Literal(body) => IsBody(body)
      case Line(text) => NulFree(text) && LF !in text && (k == [] || k[0] == LF)
      case Block(text) =>
        && NulFree(text) && (text != [] ==> text[0] == STAR)
        && forall i :: 0 < i < |text| ==> text[i - 1] != STAR || text[i] != SLASH
    }
  }

  /** No quote but behind a backslash, and a byte behind each backslash that is not itself behind one. */
  predicate IsBody(s: seq<byte>) {
    if s == [] then true
    else if s[0] == BACKSLASH then |s| >= 2 && s[1] != NUL && IsBody(s[2..])
    else s[0] != QUOTE && s[0] != NUL && IsBody(s[1..])
  }

  function Emitted(ls: seq<Lexeme>): seq<byte> {
    if ls == [] then [] else ls[0].Emit(Emitted(ls[1..]))
  }

  function Kept(ls: seq<Lexeme>): seq<byte> {
    if ls == [] then [] else ls[0].Keep(Kept(ls[1..]))
  }

  predicate InOrder(ls: seq<Lexeme>) {
    ls == [] || (ls[0].Before(Emitted(ls[1..])) && InOrder(ls[1..]))
  }

  // ---------------------------------------------------------------- a row of lexemes is minified to what is kept

  lemma {:induction false} BodyCounted(body: seq<byte>, k: seq<byte>)
    requires IsBody(body)
    ensures Strings.Count(body + ([QUOTE] + k)).1 == [QUOTE] + k
    decreases |body|
  {
    if body == [] {
      Neutral([QUOTE] + k);
    } else {
      var n := if body[0] == BACKSLASH then 2 else 1;
      DropIn(body, [QUOTE] + k, n);
      BodyCounted(body[n..], k);
    }
  }

  lemma {:induction false} LineEnds(text: seq<byte>, k: seq<byte>)
    requires NulFree(text) && LF !in text && (k == [] || k[0] == LF)
    ensures LineEnd(text + k) == k
  {
    if text == [] {
      Neutral(k);
    } else {
      DropIn(text, k, 1);
      LineEnds(text[1..], k);
    }
  }

  lemma {:induction false} BlockEnds(text: seq<byte>, k: seq<byte>)
    requires NulFree(text) && forall i :: 0 < i < |text| ==> text[i - 1] != STAR || text[i] != SLASH
    ensures StarSlash(text + ([STAR, SLASH] + k)) == [STAR, SLASH] + k
  {
    if text == [] {
      Neutral([STAR, SLASH] + k);
    } else {
      DropIn(text, [STAR, SLASH] + k, 1);
      var rest := text[1..];
      assert forall i :: 0 < i < |rest| ==> rest[i] == text[i + 1];
      assert Head(rest + ([STAR, SLASH] + k)) == if rest == [] then STAR else text[1];
      BlockEnds(rest, k);
    }
  }

  lemma LexemeMinified(l: Lexeme, k: seq<byte>)
    requires l.Before(k)
    ensures Minify(l.Emit(k)) == l.Keep(Minify(k)) && (Closed(l.Emit(k)) <==> Closed(k))
  {
    match l
    case Byte(b) => Behind([b], k);
    case Literal(body) => LiteralMinified(body, k);
    case Line(text) => LineMinified(text, k);
    case Block(text) => BlockMinified(text, k);
  }

  lemma LiteralMinified(body: seq<byte>, k: seq<byte>)
    requires IsBody(body)
    ensures var s := [QUOTE] + (body + ([QUOTE] + k));
            Minify(s) == [QUOTE] + (body + ([QUOTE] + Minify(k))) && (Closed(s) <==> Closed(k))
  {
    hide IsBody, Strings.Count;
    var s1 := body + ([QUOTE] + k);
    BodyCounted(body, k);
    Behind([QUOTE], s1);
    Behind([QUOTE], k);
    Front(body, [QUOTE] + k);
  }

  lemma LineMinified(text: seq<byte>, k: seq<byte>)
    requires NulFree(text) && LF !in text && (k == [] || k[0] == LF)
    ensures var s := [SLASH, SLASH] + (text + k); Minify(s) == Minify(k) && (Closed(s) <==> Closed(k))
  {
    hide LineEnd, StarSlash;
    LineEnds([SLASH] + text, k);
    Associate([SLASH], text, k);
    assert ([SLASH, SLASH] + (text + k))[1..] == [SLASH] + (text + k);
  }

  lemma BlockMinified(text: seq<byte>, k: seq<byte>)
    requires Block(text).Before(k)
    ensures var s := [SLASH] + (text + ([STAR, SLASH] + k)); Minify(s) == Minify(k) && (Closed(s) <==> Closed(k))
  {
    hide LineEnd, StarSlash;
    BlockEnds(text, k);
    Behind([SLASH], text + ([STAR, SLASH] + k));
    Behind([STAR, SLASH], k);
  }

  lemma Front<T>(a: seq<T>, b: seq<T>)
    ensures (a + b)[..|a + b| - |b|] == a
  {
  }

  /** The minified text is what is kept of the lexemes. */
  lemma {:induction false} Minified(ls: seq<Lexeme>)
    requires InOrder(ls)
    ensures Closed(Emitted(ls)) && Minify(Emitted(ls)) == Kept(ls)
  {
    if ls != [] {
      Minified(ls[1..]);
      LexemeMinified(ls[0], Emitted(ls[1..]));
    }
  }

  // ---------------------------------------------------------------- every text that can be minified is such a row

  lemma {:induction false} BodyOf(s: seq<byte>) returns (body: seq<byte>)
    requires NulFree(s) && Head(Strings.Count(s).1) == QUOTE
    ensures IsBody(body) && s == body + Strings.Count(s).1
    decreases |s|
  {
    body := [];
    if Strings.AtEnd(s) {
      Neutral(s);
    } else {
      var n := if s[0] == BACKSLASH then 2 else 1;
      assert n == 2 ==> |s| >= 2;
      var rest := BodyOf(s[n..]);
      body := s[..n] + rest;
      Halves(s, n);
      Associate(s[..n], rest, Strings.Count(s).1);
      Behind(s[..n], rest);
    }
  }

  lemma {:induction false} LineOf(s: seq<byte>) returns (text: seq<byte>)
    requires NulFree(s)
    ensures NulFree(text) && LF !in text && s == text + LineEnd(s)
    ensures LineEnd(s) == [] || LineEnd(s)[0] == LF
  {
    text := [];
    if Head(s) == NUL || s[0] == LF {
      Neutral(s);
    } else {
      var rest := LineOf(s[1..]);
      text := [s[0]] + rest;
      Uncons(s);
      Associate([s[0]], rest, LineEnd(s));
    }
  }

  lemma {:induction false} BlockOf(s: seq<byte>) returns (text: seq<byte>)
    requires NulFree(s) && |StarSlash(s)| >= 2
    ensures NulFree(text) && s == text + ([STAR, SLASH] + StarSlash(s)[2..])
    ensures forall i :: 0 < i < |text| ==> text[i - 1] != STAR || text[i] != SLASH
  {
    text := [];
    if s[0] == STAR && Head(s[1..]) == SLASH {
      assert s == [STAR, SLASH] + s[2..];
      Neutral(s);
    } else {
      var rest := BlockOf(s[1..]);
      text := [s[0]] + rest;
      Uncons(s);
      Associate([s[0]], rest, [STAR, SLASH] + StarSlash(s)[2..]);
      assert rest != [] ==> rest[0] == s[1..][0];
      assert forall i :: 0 < i < |text| ==> text[i] == rest[i - 1];
    }
  }

  lemma FirstLexeme(s: seq<byte>) returns (l: Lexeme, k: seq<byte>)
    requires NulFree(s) && Closed(s) && s != []
    ensures l.Before(k) && s == l.Emit(k) && NulFree(k) && Closed(k)
  {
    var s1 := s[1..];
    Uncons(s);
    l, k := Byte(s[0]), s1;
    if IsLineComment(s) {
      var text := LineOf(s1[1..]);
      Uncons(s1);
      l, k := Line(text), LineEnd(s1);
      assert [SLASH] + ([SLASH] + (text + k)) == [SLASH, SLASH] + (text + k);
    } else if IsBlockComment(s) {
      var text := BlockOf(s1);
      l, k := Block(text), StarSlash(s1)[2..];
    } else if s[0] == QUOTE {
      var body := BodyOf(s1);
      k := Strings.Count(s1).1;
      Uncons(k);
      l, k := Literal(body), k[1..];
    }
    LexemeMinified(l, k);
    NulFreeBehind(l, k);
  }

  lemma NulFreeBehind(l: Lexeme, k: seq<byte>)
    requires NulFree(l.Emit(k))
    ensures NulFree(k)
  {
    var s := l.Emit(k);
    assert s[|s| - |k|..] == k;
  }

  lemma {:induction false} LexemesOf(s: seq<byte>) returns (ls: seq<Lexeme>)
    requires NulFree(s) && Closed(s)
    ensures InOrder(ls) && Emitted(ls) == s
    decreases |s|
  {
    ls := [];
    if s != [] {
      var l, k := FirstLexeme(s);
      var more := LexemesOf(k);
      ls := [l] + more;
      Behind([l], more);
    }
  }

  /** The C strings that can be minified are the rows of lexemes, and each is minified to what is kept of them. */
  lemma MinifiesLexemes(s: seq<byte>)
    requires NulFree(s)
    ensures Closed(s) <==> exists ls :: InOrder(ls) && Emitted(ls) == s
    ensures forall ls :: InOrder(ls) && Emitted(ls) == s ==> Minify(s) == Kept(ls)
  {
    forall ls | InOrder(ls) && Emitted(ls) == s
      ensures Closed(s) && Minify(s) == Kept(ls)
    {
      Minified(ls);
    }
    if Closed(s) {
      var ls := LexemesOf(s);
    }
  }
}
