/** What `cJSON_Minify` makes of a text, and why the parser reads the same value in it. */
module MinifySpec {
  import opened Bytes
  import opened Grammar
  import Strings
  import Numbers

  /** From `s`, the first line feed or the end: where a `//` comment stops. */
  function LineEnd(s: seq<byte>): (r: seq<byte>)
    ensures |r| <= |s|
  {
    if Head(s) == NUL || s[0] == LF then s else LineEnd(s[1..])
  }

  /** From `s`, the first star and slash or the end: where the search of a block comment stops. */
  function StarSlash(s: seq<byte>): (r: seq<byte>)
    ensures |r| <= |s|
  {
    if Head(s) == NUL || (s[0] == STAR && Head(s[1..]) == SLASH) then s else StarSlash(s[1..])
  }

  predicate IsLineComment(s: seq<byte>) {
    |s| >= 2 && s[0] == SLASH && s[1] == SLASH
  }

  predicate IsBlockComment(s: seq<byte>) {
    |s| >= 2 && s[0] == SLASH && s[1] == STAR
  }

  /** The text without white space and comments; literals are copied. */
  function Minify(s: seq<byte>): seq<byte>
    decreases |s|
  {
    if Head(s) == NUL then []
    else if IsRfcBlank(s[0]) then Minify(s[1..])
    else if IsLineComment(s) then Minify(LineEnd(s[1..]))
    else if IsBlockComment(s) then
      var k := StarSlash(s[1..]);
      if |k| < 2 then [] else Minify(k[2..])
    else if s[0] != QUOTE then [s[0]] + Minify(s[1..])
    else
      var s1 := s[1..];
      var k := Strings.Count(s1).1;
      if Head(k) == QUOTE then [QUOTE] + (s1[..|s1| - |k|] + ([QUOTE] + Minify(k[1..]))) else s
  }

  /** Every literal and every block comment of the text is closed. */
  predicate Closed(s: seq<byte>)
    decreases |s|
  {
    if Head(s) == NUL then true
    else if IsRfcBlank(s[0]) then Closed(s[1..])
    else if IsLineComment(s) then Closed(LineEnd(s[1..]))
    else if IsBlockComment(s) then
      var k := StarSlash(s[1..]);
      |k| >= 2 && Closed(k[2..])
    else if s[0] != QUOTE then Closed(s[1..])
    else
      var k := Strings.Count(s[1..]).1;
      Head(k) == QUOTE && Closed(k[1..])
  }

  // ---------------------------------------------------------------- trees

  /** `w` without the white space of RFC 8259: what is left are other control characters. */
  function StripBlanks(w: seq<byte>): seq<byte> {
    if w == [] then [] else if IsRfcBlank(w[0]) then StripBlanks(w[1..]) else [w[0]] + StripBlanks(w[1..])
  }

  function Strip(t: Tree): Tree {
    match t
    case EmptyArray(w) => EmptyArray(StripBlanks(w))
    case FullArray(items) => FullArray(StripItems(items))
    case EmptyObject(w) => EmptyObject(StripBlanks(w))
    case FullObject(pairs) => FullObject(StripPairs(pairs))
    case _ => t
  }

  function StripItems(i: Items): Items {
    match i
    case LastItem(b, t, a) => LastItem(StripBlanks(b), Strip(t), StripBlanks(a))
    case NextItem(b, t, a, more) => NextItem(StripBlanks(b), Strip(t), StripBlanks(a), StripItems(more))
  }

  function StripPairs(p: Pairs): Pairs {
    match p
    case LastPair(b, name, m, g, t, a) =>
      LastPair(StripBlanks(b), name, StripBlanks(m), StripBlanks(g), Strip(t), StripBlanks(a))
    case NextPair(b, name, m, g, t, a, more) =>
      NextPair(StripBlanks(b), name, StripBlanks(m), StripBlanks(g), Strip(t), StripBlanks(a), StripPairs(more))
  }

  lemma {:induction false} StripKeeps(t: Tree)
    requires In(Accepted, t)
    ensures In(Accepted, Strip(t)) && Denote(Strip(t)) == Denote(t)
    ensures forall k :: ExtendedBy(t, k) <==> ExtendedBy(Strip(t), k)
    decreases t
  {
    match t
    case EmptyArray(w) => StripBlanksKeeps(w);
    case FullArray(items) => StripItemsKeeps(items);
    case EmptyObject(w) => StripBlanksKeeps(w);
    case FullObject(pairs) => StripPairsKeeps(pairs);
    case _ =>
  }

  lemma StripBlanksKeeps(w: seq<byte>)
    requires AllBlank(w)
    ensures AllBlank(StripBlanks(w))
  {
  }

  lemma {:induction false} StripItemsKeeps(i: Items)
    requires ItemsIn(Accepted, i)
    ensures ItemsIn(Accepted, StripItems(i)) && DenoteItems(StripItems(i)) == DenoteItems(i)
    decreases i
  {
    StripBlanksKeeps(i.before);
    StripKeeps(i.value);
    StripBlanksKeeps(i.after);
    if i.NextItem? {
      StripItemsKeeps(i.items);
    }
  }

  lemma {:induction false} StripPairsKeeps(p: Pairs)
    requires PairsIn(Accepted, p)
    ensures PairsIn(Accepted, StripPairs(p)) && DenotePairs(StripPairs(p)) == DenotePairs(p)
    decreases p
  {
    StripBlanksKeeps(p.before);
    StripBlanksKeeps(p.middle);
    StripBlanksKeeps(p.gap);
    StripKeeps(p.value);
    StripBlanksKeeps(p.after);
    if p.NextPair? {
      StripPairsKeeps(p.pairs);
    }
  }

  // ---------------------------------------------------------------- minifying the text of a tree

  /** A byte outside literals that is always copied. */
  predicate IsKept(b: byte) {
    b != NUL && !IsRfcBlank(b) && b != SLASH && b != QUOTE
  }

  lemma {:induction false} MinifyKept(x: seq<byte>, k: seq<byte>)
    requires forall i :: 0 <= i < |x| ==> IsKept(x[i])
    ensures Minify(x + k) == x + Minify(k)
    ensures Closed(x + k) <==> Closed(k)
  {
    if x == [] {
      assert x + k == k;
    } else {
      MinifyKept(x[1..], k);
      assert (x + k)[1..] == x[1..] + k;
    }
  }

  lemma {:induction false} MinifyBlanks(w: seq<byte>, k: seq<byte>)
    requires AllBlank(w)
    ensures Minify(w + k) == StripBlanks(w) + Minify(k)
    ensures Closed(w + k) <==> Closed(k)
  {
    if w == [] {
      assert w + k == k;
    } else {
      MinifyBlanks(w[1..], k);
      assert (w + k)[1..] == w[1..] + k;
    }
  }

  lemma MinifyToken(t: Numbers.Token, k: seq<byte>)
    requires t.Valid()
    ensures Minify(t.Emit(k)) == t.Emit(Minify(k))
    ensures Closed(t.Emit(k)) <==> Closed(k)
  {
    hide Minify, Closed;
    var e := t.exponent;
    if e.Exponent? {
      MinifyKept(e.digits, k);
      MinifyKept(Numbers.SignText(e.sign), e.digits + k);
      MinifyKept([e.letter], Numbers.SignText(e.sign) + (e.digits + k));
    }
    MinifyKept(if t.fraction == [] then [] else [DOT] + t.fraction, e.Emit(k));
    var f := Numbers.EmitFraction(t.fraction, e.Emit(k));
    MinifyKept(t.digits, f);
    MinifyKept(if t.zero then [ZERO] else [], t.digits + f);
    MinifyKept(if t.negative then [MINUS] else [], t.EmitWhole(k));
  }

  lemma MinifyString(body: seq<Strings.Element>, k: seq<byte>)
    requires Body(Accepted, body)
    ensures Minify(EmitString(body, k)) == EmitString(body, Minify(k))
    ensures Closed(EmitString(body, k)) <==> Closed(k)
  {
    hide Strings.EmitBody, Strings.Decode, Strings.Count, Strings.Complete;
    var s1 := Strings.EmitBody(body, [QUOTE] + k);
    Strings.DecodesBody(body, [QUOTE] + k);
    Strings.PassesAgree(s1);
    Strings.EmitBodyAppend(body, [QUOTE] + k);
    Strings.EmitBodyAppend(body, [QUOTE] + Minify(k));
    assert s1[..|s1| - |[QUOTE] + k|] == Strings.EmitBody(body, []);
  }

  /** Minifying the text of a tree gives the text of the tree without its white space. */
  lemma {:induction false} MinifyTree(t: Tree, k: seq<byte>)
    requires In(Accepted, t)
    ensures Minify(Emit(t, k)) == Emit(Strip(t), Minify(k))
    ensures Closed(Emit(t, k)) <==> Closed(k)
    decreases t
  {
    hide StripBlanks, EmitString, Body;
    match t
    case NullWord => MinifyKept(NULL_WORD, k);
    case FalseWord => MinifyKept(FALSE_WORD, k);
    case TrueWord => MinifyKept(TRUE_WORD, k);
    case Numeral(token) => MinifyToken(token, k);
    case Quoted(body) => MinifyString(body, k);
    case EmptyArray(w) =>
      MinifyBlanks(w, [RBRACKET] + k);
    case FullArray(items) => MinifyItems(items, k);
    case EmptyObject(w) =>
      MinifyBlanks(w, [RBRACE] + k);
    case FullObject(pairs) => MinifyPairs(pairs, k);
  }

  lemma {:induction false} MinifyItems(i: Items, k: seq<byte>)
    requires ItemsIn(Accepted, i)
    ensures Minify(EmitItems(i, k)) == EmitItems(StripItems(i), Minify(k))
    ensures Closed(EmitItems(i, k)) <==> Closed(k)
    decreases i
  {
    hide Emit, StripBlanks, Strip;
    if i.NextItem? {
      MinifyItems(i.items, k);
    }
    var k1 := if i.LastItem? then [RBRACKET] + k else [COMMA] + EmitItems(i.items, k);
    MinifyBlanks(i.after, k1);
    MinifyTree(i.value, i.after + k1);
    MinifyBlanks(i.before, Emit(i.value, i.after + k1));
  }

  lemma {:induction false} MinifyPairs(p: Pairs, k: seq<byte>)
    requires PairsIn(Accepted, p)
    ensures Minify(EmitPairs(p, k)) == EmitPairs(StripPairs(p), Minify(k))
    ensures Closed(EmitPairs(p, k)) <==> Closed(k)
    decreases p
  {
    hide StripBlanks, EmitString;
    if p.NextPair? {
      MinifyPairs(p.pairs, k);
    }
    var k1 := if p.LastPair? then [RBRACE] + k else [COMMA] + EmitPairs(p.pairs, k);
    var v := Emit(p.value, p.after + k1);
    MinifyBlanks(p.after, k1);
    MinifyTree(p.value, p.after + k1);
    MinifyBlanks(p.gap, v);
    MinifyBlanks(p.middle, [COLON] + (p.gap + v));
    MinifyString(p.name, p.middle + ([COLON] + (p.gap + v)));
    MinifyBlanks(p.before, EmitString(p.name, p.middle + ([COLON] + (p.gap + v))));
  }
}
