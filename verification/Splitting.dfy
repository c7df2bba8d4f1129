/**
  When a text can be minified without becoming more acceptable than it was: when no comment
  is removed, and no white space from between two bytes that then make up one token.
 */
module Splitting {
  import opened Bytes
  import opened Json
  import opened ParserSpec
  import opened Grammar
  import opened Soundness
  import opened MinifySpec
  import opened Theorems
  import Strings
  import Numbers

  predicate IsStructural(b: byte) {
    b == LBRACKET || b == RBRACKET || b == LBRACE || b == RBRACE || b == COMMA || b == COLON
  }

  /** A byte outside literals that is neither structural nor blank. */
  predicate IsTokenByte(b: byte) {
    b != NUL && !IsBlank(b) && !IsStructural(b) && b != QUOTE
  }

  /** What is left after the leading white space of RFC 8259. */
  function SkipSpace(s: seq<byte>): seq<byte> {
    if s != [] && IsRfcBlank(s[0]) then SkipSpace(s[1..]) else s
  }

  /** Outside its literals the text has a comment, or white space between two token bytes. */
  predicate Splits(s: seq<byte>)
    decreases |s|
  {
    if Head(s) == NUL then false
    else if IsLineComment(s) || IsBlockComment(s) then true
    else if s[0] == QUOTE then
      var k := Strings.Count(s[1..]).1;
      Head(k) == QUOTE && Splits(k[1..])
    else
      || (IsTokenByte(s[0]) && IsRfcBlank(Head(s[1..])) && IsTokenByte(Head(SkipSpace(s[1..]))))
      || Splits(s[1..])
  }

  ghost predicate Good(s: seq<byte>) {
    NulFree(s) && Closed(s) && !Splits(s)
  }

  // ---------------------------------------------------------------- accepted texts are not split

  predicate AllToken(x: seq<byte>) {
    forall i :: 0 <= i < |x| ==> IsTokenByte(x[i])
  }

  /** Whether white space at the start of `k` would stand before a token byte. */
  predicate TokenNext(k: seq<byte>) {
    IsTokenByte(Head(SkipSpace(k)))
  }

  lemma {:induction false} UnsplitRun(x: seq<byte>, k: seq<byte>)
    requires AllToken(x) && SLASH !in x && !Splits(k) && !TokenNext(k)
    ensures !Splits(x + k)
  {
    if x == [] {
      Neutral(k);
    } else {
      var rest := x[1..];
      assert AllToken(rest) && SLASH !in rest;
      UnsplitRun(rest, k);
      Uncons(x);
      Associate([x[0]], rest, k);
      Behind([x[0]], rest + k);
      if rest == [] {
        Neutral(k);
      }
    }
  }

  lemma {:induction false} UnsplitBlanks(w: seq<byte>, k: seq<byte>)
    requires AllBlank(w)
    ensures Splits(w + k) == Splits(k)
    ensures !TokenNext(k) ==> !TokenNext(w + k)
  {
    if w == [] {
      Neutral(k);
    } else {
      UnsplitBlanks(w[1..], k);
      Uncons(w);
      Associate([w[0]], w[1..], k);
      Behind([w[0]], w[1..] + k);
    }
  }

  lemma UnsplitStructural(b: byte, k: seq<byte>)
    requires IsStructural(b)
    ensures Splits([b] + k) == Splits(k) && !TokenNext([b] + k)
  {
    Behind([b], k);
  }

  lemma UnsplitToken(t: Numbers.Token, k: seq<byte>)
    requires t.Valid() && !Splits(k) && !TokenNext(k)
    ensures !Splits(t.Emit(k))
  {
    Numbers.EmitAppend(t, k);
    TokenBytes(t);
    UnsplitRun(t.Emit([]), k);
  }

  lemma TokenBytes(t: Numbers.Token)
    requires t.Valid()
    ensures AllToken(t.Emit([])) && SLASH !in t.Emit([])
  {
    var e := t.exponent.Emit([]);
    assert AllToken(e) && SLASH !in e;
    var f := Numbers.EmitFraction(t.fraction, e);
    assert AllToken(f) && SLASH !in f;
  }

  lemma UnsplitString(body: seq<Strings.Element>, k: seq<byte>)
    requires Body(Accepted, body)
    ensures Splits(EmitString(body, k)) == Splits(k) && !TokenNext(EmitString(body, k))
  {
    var s1 := Strings.EmitBody(body, [QUOTE] + k);
    Strings.DecodesBody(body, [QUOTE] + k);
    Strings.PassesAgree(s1);
    Behind([QUOTE], s1);
    Behind([QUOTE], k);
  }

  lemma {:induction false} UnsplitTree(t: Tree, k: seq<byte>)
    requires In(Accepted, t) && !Splits(k) && !TokenNext(k)
    ensures !Splits(Emit(t, k))
    decreases t, 0
  {
    match t
    case NullWord => UnsplitRun(NULL_WORD, k);
    case FalseWord => UnsplitRun(FALSE_WORD, k);
    case TrueWord => UnsplitRun(TRUE_WORD, k);
    case Numeral(token) => UnsplitToken(token, k);
    case Quoted(body) => UnsplitString(body, k);
    case EmptyArray(w) =>
      UnsplitStructural(RBRACKET, k);
      UnsplitBlanks(w, [RBRACKET] + k);
      UnsplitStructural(LBRACKET, w + ([RBRACKET] + k));
    case FullArray(items) =>
      UnsplitItems(items, k);
      UnsplitStructural(LBRACKET, EmitItems(items, k));
    case EmptyObject(w) =>
      UnsplitStructural(RBRACE, k);
      UnsplitBlanks(w, [RBRACE] + k);
      UnsplitStructural(LBRACE, w + ([RBRACE] + k));
    case FullObject(pairs) =>
      UnsplitPairs(pairs, k);
      UnsplitStructural(LBRACE, EmitPairs(pairs, k));
  }

  /** A value between blanks, before a structural byte. */
  lemma {:induction false} UnsplitGap(before: seq<byte>, t: Tree, after: seq<byte>, b: byte, k: seq<byte>)
    requires AllBlank(before) && In(Accepted, t) && AllBlank(after) && IsStructural(b) && !Splits(k)
    ensures !Splits(before + Emit(t, after + ([b] + k)))
    decreases t, 1
  {
    UnsplitStructural(b, k);
    UnsplitBlanks(after, [b] + k);
    UnsplitTree(t, after + ([b] + k));
    UnsplitBlanks(before, Emit(t, after + ([b] + k)));
  }

  lemma {:induction false} UnsplitItems(i: Items, k: seq<byte>)
    requires ItemsIn(Accepted, i) && !Splits(k)
    ensures !Splits(EmitItems(i, k))
    decreases i, 0
  {
    if i.LastItem? {
      UnsplitGap(i.before, i.value, i.after, RBRACKET, k);
    } else {
      UnsplitItems(i.items, k);
      UnsplitGap(i.before, i.value, i.after, COMMA, EmitItems(i.items, k));
    }
  }

  lemma {:induction false} UnsplitPairs(p: Pairs, k: seq<byte>)
    requires PairsIn(Accepted, p) && !Splits(k)
    ensures !Splits(EmitPairs(p, k))
    decreases p, 0
  {
    var b, more := RBRACE, k;
    if p.NextPair? {
      UnsplitPairs(p.pairs, k);
      b, more := COMMA, EmitPairs(p.pairs, k);
    }
    UnsplitGap(p.gap, p.value, p.after, b, more);
    var v := p.gap + Emit(p.value, p.after + ([b] + more));
    UnsplitStructural(COLON, v);
    UnsplitBlanks(p.middle, [COLON] + v);
    UnsplitString(p.name, p.middle + ([COLON] + v));
    UnsplitBlanks(p.before, EmitString(p.name, p.middle + ([COLON] + v)));
  }

  /** An accepted text has no comment, and no white space inside a token. */
  lemma AcceptedIsUnsplit(s: seq<byte>)
    requires NulFree(s) && StartsClosed(Skip(s)) && ParseText(s, true).Parsed?
    ensures !Splits(s)
  {
    var before, t, after := TreeOfText(s);
    UnsplitBlanks(after, []);
    Neutral(after);
    UnsplitTree(t, after);
    UnsplitBlanks(before, Emit(t, after));
  }

  // ---------------------------------------------------------------- the same parse

  lemma {:induction false} SpaceMinified(s: seq<byte>)
    requires !Splits(s)
    ensures Head(Minify(s)) == Head(SkipSpace(s))
  {
    if s != [] && IsRfcBlank(s[0]) {
      SpaceMinified(s[1..]);
    }
  }

  /** Skipping blanks and minifying can change places. */
  lemma {:induction false} SkipMinified(s: seq<byte>)
    requires Good(s)
    ensures Good(Skip(s)) && Skip(Minify(s)) == Minify(Skip(s))
  {
    if s != [] && IsBlank(s[0]) {
      SkipMinified(s[1..]);
      if !IsRfcBlank(s[0]) {
        Behind([s[0]], Minify(s[1..]));
      }
    }
  }

  lemma HeadMinified(s: seq<byte>)
    requires Good(s) && !IsBlank(Head(s))
    ensures Head(Minify(s)) == Head(s)
    ensures IsStructural(Head(s)) ==> Minify(s) != [] && Minify(s)[1..] == Minify(s[1..]) && Good(s[1..])
  {
  }

  function Run(s: seq<byte>): (n: nat)
    ensures n <= |s|
  {
    if s != [] && IsTokenByte(s[0]) then 1 + Run(s[1..]) else 0
  }

  /** The token bytes at the start of a text stay together. */
  lemma {:induction false} RunMinified(s: seq<byte>)
    requires Good(s)
    ensures var n := Run(s);
            && AllToken(s[..n]) && Minify(s) == s[..n] + Minify(s[n..]) && !IsTokenByte(Head(s[n..]))
            && (n > 0 ==> !IsTokenByte(Head(Minify(s[n..]))))
  {
    if s == [] || !IsTokenByte(s[0]) {
      WholeSlice(s);
      Neutral(Minify(s));
    } else {
      var n, s1 := Run(s), s[1..];
      RunMinified(s1);
      Front(s, n);
      Drop(s, n);
      Associate([s[0]], s1[..n - 1], Minify(s[n..]));
      if n == 1 {
        SpaceMinified(s1);
      }
    }
  }

  lemma Front<T>(s: seq<T>, n: nat)
    requires 0 < n <= |s|
    ensures s[..n] == [s[0]] + s[1..][..n - 1]
  {
  }

  lemma {:induction false} InsideRun(s: seq<byte>, j: nat)
    requires Good(s) && j <= Run(s)
    ensures Good(s[j..]) && Run(s[j..]) == Run(s) - j
    decreases j
  {
    if j == 0 {
      WholeSlice(s);
    } else {
      InsideRun(s[1..], j - 1);
      Drop(s, j);
    }
  }

  /** From inside such a run the text is minified as after it. */
  lemma RestOfRun(s: seq<byte>, j: nat)
    requires Good(s) && j <= Run(s)
    ensures var n := Run(s); Good(s[j..]) && Minify(s[j..]) == s[..n][j..] + Minify(s[n..])
  {
    var n := Run(s);
    InsideRun(s, j);
    RunMinified(s[j..]);
    Slices(s, j, n);
    Middle(s, j, n);
  }

  lemma Middle<T>(s: seq<T>, j: nat, n: nat)
    requires j <= n <= |s|
    ensures s[..n][j..] == s[j..n] == s[j..][..n - j] && s[..n] + s[n..] == s && s[j..] == s[..n][j..] + s[n..]
  {
  }

  lemma Overlap<T>(a: seq<T>, x: seq<T>, e: seq<T>, k: seq<T>)
    requires a + x == e + k && |e| <= |a|
    ensures e == a[..|e|] && k == a[|e|..] + x
  {
    assert (a + x)[..|e|] == a[..|e|] && (e + k)[..|e|] == e;
    assert (a + x)[|e|..] == a[|e|..] + x && (e + k)[|e|..] == k;
  }

  lemma Sticks(a: seq<byte>, x: seq<byte>, e: seq<byte>, k: seq<byte>)
    requires a + x == e + k && |a| < |e|
    ensures e[|a|] == Head(x)
  {
    assert (e + k)[|a|] == e[|a|];
  }

  /** A number is read the same whatever comes after the token bytes around it. */
  lemma SameNumber(run: seq<byte>, x: seq<byte>, y: seq<byte>) returns (j: nat)
    requires AllToken(run) && run != [] && (run[0] == MINUS || IsDigit(run[0]))
    requires !IsTokenByte(Head(x)) && !IsTokenByte(Head(y))
    ensures j <= |run| && Numbers.ParseNumber(run + y).0 == Numbers.ParseNumber(run + x).0
    ensures Numbers.ParseNumber(run + x).1 == run[j..] + x && Numbers.ParseNumber(run + y).1 == run[j..] + y
  {
    var t := Numbers.TokenRead(run + x);
    var e, k := t.Emit([]), Numbers.ParseNumber(run + x).1;
    Numbers.EmitAppend(t, k);
    TokenBytes(t);
    if |e| > |run| {
      Sticks(run, x, e, k);
      assert false;
    }
    j := |e|;
    Overlap(run, x, e, k);
    Halves(run, j);
    Associate(e, run[j..], y);
    Numbers.EmitAppend(t, run[j..] + y);
    SameExtended(t, run[j..], x, y);
    Numbers.ReadsToken(t, run[j..] + y);
  }

  lemma SameExtended(t: Numbers.Token, r: seq<byte>, x: seq<byte>, y: seq<byte>)
    requires !IsTokenByte(Head(x)) && !IsTokenByte(Head(y))
    ensures t.ExtendedBy(r + x) == t.ExtendedBy(r + y)
  {
    if r == [] {
      Neutral(x);
      Neutral(y);
    } else {
      assert (r + x)[1..] == r[1..] + x && (r + y)[1..] == r[1..] + y;
      if r[1..] == [] {
        Neutral(x);
        Neutral(y);
      }
    }
  }

  /** So is a word. */
  lemma SameWord(word: seq<byte>, run: seq<byte>, x: seq<byte>)
    requires AllToken(word) && !IsTokenByte(Head(x))
    ensures word <= run + x <==> word <= run
  {
    if word <= run + x {
      var k := (run + x)[|word|..];
      if |word| > |run| {
        Sticks(run, x, word, k);
        assert false;
      }
      Overlap(run, x, word, k);
    }
  }

  /** The same value, and rests of which one is the other minified. */
  ghost predicate Same(r: Outcome, q: Outcome) {
    match r
    case Parsed(v, k) => Good(k) && q == Parsed(v, Minify(k))
    case Rejected => q.Rejected?
    case Undefined => q.Undefined?
  }

  lemma SameString(s: seq<byte>)
    requires Good(s) && !IsBlank(Head(s))
    ensures Same(ParseString(s), ParseString(Minify(s)))
  {
    HeadMinified(s);
    if Head(s) == QUOTE {
      SameComplete(s);
      if Strings.Complete(s[1..]) {
        var body := SoundString(s);
        var k := ParseString(s).rest;
        Strings.PassesAgree(s[1..]);
        MinifyString(body, k);
        CompleteString(body, Minify(k));
      }
    }
  }

  /** An escape is cut short in a literal or not, whatever comes after the closing quote. */
  lemma SameComplete(s: seq<byte>)
    requires Good(s) && Head(s) == QUOTE
    ensures Strings.Complete(s[1..]) <==> Strings.Complete(Minify(s)[1..])
  {
    var s1 := s[1..];
    var k := Strings.Count(s1).1;
    var x := s1[..|s1| - |k|];
    Strings.CountSuffix(s1);
    Halves(s1, |x|);
    Uncons(k);
    Strings.CompleteCut(x, k[1..], Minify(k[1..]));
    Behind([QUOTE], x + ([QUOTE] + Minify(k[1..])));
  }

  lemma SameToken(s: seq<byte>)
    requires Good(s) && IsTokenByte(Head(s))
    ensures Same(ParseValue(s), ParseValue(Minify(s)))
  {
    hide Good, Minify, Closed, Splits, NulFree;
    var n := Run(s);
    var run, x := s[..n], s[n..];
    var y := Minify(x);
    RunMinified(s);
    Middle(s, 0, n);
    SameWord(NULL_WORD, run, x);
    SameWord(NULL_WORD, run, y);
    SameWord(FALSE_WORD, run, x);
    SameWord(FALSE_WORD, run, y);
    SameWord(TRUE_WORD, run, x);
    SameWord(TRUE_WORD, run, y);
    assert run[0] == s[0] && Head(run + y) == s[0];
    if NULL_WORD <= run || TRUE_WORD <= run {
      RestAfter(s, run, y, 4);
    } else if FALSE_WORD <= run {
      RestAfter(s, run, y, 5);
    } else if s[0] == MINUS || IsDigit(s[0]) {
      var j := SameNumber(run, x, y);
      RestAfter(s, run, y, j);
      Middle(s, j, n);
    }
  }

  lemma RestAfter(s: seq<byte>, run: seq<byte>, y: seq<byte>, j: nat)
    requires Good(s) && run == s[..Run(s)] && y == Minify(s[Run(s)..]) && j <= |run|
    ensures Good(s[j..]) && (run + y)[j..] == run[j..] + y == Minify(s[j..])
  {
    RestOfRun(s, j);
    assert (run + y)[j..] == run[j..] + y;
  }

  lemma {:induction false} SameValue(s: seq<byte>)
    requires Good(s) && !IsBlank(Head(s))
    ensures Same(ParseValue(s), ParseValue(Minify(s)))
    decreases |s|, 1
  {
    HeadMinified(s);
    if Head(s) == QUOTE {
      SameString(s);
    } else if IsTokenByte(Head(s)) {
      SameToken(s);
    } else if Head(s) == LBRACKET {
      SameArray(s[1..]);
    } else if Head(s) == LBRACE {
      SameObject(s[1..]);
    }
  }

  lemma {:induction false} SameArray(s: seq<byte>)
    requires Good(s)
    ensures Same(ParseArray(s), ParseArray(Minify(s)))
    decreases |s|, 3
  {
    SameTail(s);
    if Head(Skip(s)) != RBRACKET {
      SameItem([], Skip(s));
    }
  }

  lemma {:induction false} SameObject(s: seq<byte>)
    requires Good(s)
    ensures Same(ParseObject(s), ParseObject(Minify(s)))
    decreases |s|, 3
  {
    SameTail(s);
    if Head(Skip(s)) != RBRACE {
      SameMember([], Skip(s));
    }
  }

  /** What follows a value, after the blanks. */
  lemma SameTail(k: seq<byte>)
    requires Good(k)
    ensures var s := Skip(k);
            && Good(s) && !IsBlank(Head(s)) && Skip(Minify(k)) == Minify(s) && Head(Minify(s)) == Head(s)
            && (IsStructural(Head(s)) ==>
                  && Minify(s) != [] && Minify(s)[1..] == Minify(s[1..]) && Good(s[1..])
                  && Good(Skip(s[1..])) && !IsBlank(Head(Skip(s[1..])))
                  && Skip(Minify(s[1..])) == Minify(Skip(s[1..])))
  {
    SkipMinified(k);
    Skipped(k);
    var s := Skip(k);
    HeadMinified(s);
    if IsStructural(Head(s)) {
      SkipMinified(s[1..]);
      Skipped(s[1..]);
    }
  }

  lemma {:induction false} SameItem(items: seq<Json>, s: seq<byte>)
    requires Good(s) && !IsBlank(Head(s))
    ensures Same(ParseItem(items, s), ParseItem(items, Minify(s)))
    decreases |s|, 2
  {
    hide Good, Closed, Splits, Minify, Skip, StartsClosed, NulFree;
    SameValue(s);
    match ParseValue(s)
    case Parsed(v, k) =>
      SameTail(k);
      if Head(Skip(k)) == COMMA {
        SameItem(items + [v], Skip(Skip(k)[1..]));
      }
    case _ =>
  }

  lemma {:induction false} SameMember(members: seq<Member>, s: seq<byte>)
    requires Good(s) && !IsBlank(Head(s))
    ensures Same(ParseMember(members, s), ParseMember(members, Minify(s)))
    decreases |s|, 2
  {
    SameString(s);
    match ParseString(s)
    case Parsed(name, k) =>
      SameTail(k);
      if Head(Skip(k)) == COLON {
        var s1 := Skip(Skip(k)[1..]);
        SameValue(s1);
        match ParseValue(s1) {
          case Parsed(v, k1) =>
            SameTail(k1);
            if Head(Skip(k1)) == COMMA {
              SameMember(members + [Member(name.text, v)], Skip(Skip(k1)[1..]));
            }
          case _ =>
        }
      }
    case _ =>
  }

  // ---------------------------------------------------------------- the law

  /** A text that is not split is accepted, with its value, exactly when its minified form is. */
  lemma UnsplitIsSame(s: seq<byte>)
    requires NulFree(s) && Closed(s) && !Splits(s)
    ensures ParseText(Minify(s), true) == ParseText(s, true)
  {
    SkipMinified(s);
    Skipped(s);
    SameValue(Skip(s));
    match ParseValue(Skip(s))
    case Parsed(v, k) =>
      SameTail(k);
      assert Head(Skip(k)) == NUL ==> Skip(k) == [];
    case _ =>
  }

  /** In a text that can be minified, a literal at the start is closed. */
  lemma {:induction false} ClosedStarts(s: seq<byte>)
    requires Closed(s)
    ensures StartsClosed(Skip(s))
  {
    if s != [] && IsBlank(s[0]) {
      ClosedStarts(s[1..]);
    }
  }

  /**
    A text that can be minified is accepted exactly when it is not split and its minified form
    is accepted, and then both have the same value.
   */
  lemma MinifyConverse(s: seq<byte>)
    requires NulFree(s) && Closed(s)
    ensures ParseText(s, true).Parsed? <==> !Splits(s) && ParseText(Minify(s), true).Parsed?
    ensures !Splits(s) ==> ParseText(s, true) == ParseText(Minify(s), true)
  {
    if !Splits(s) {
      UnsplitIsSame(s);
    } else if ParseText(s, true).Parsed? {
      ClosedStarts(s);
      AcceptedIsUnsplit(s);
    }
  }
}
