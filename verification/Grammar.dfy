/**
  Derivation trees of the language the parser accepts, with the language of section 2 of
  RFC 8259 inside it.  `Complete` shows that the parser reads the texts of such trees and gives
  each the value its tree denotes.
 */
module Grammar {
  import opened Bytes
  import opened Json
  import opened ParserSpec
  import Strings
  import Numbers

  datatype Tree =
    | NullWord
    | FalseWord
    | TrueWord
    | Numeral(token: Numbers.Token)
    | Quoted(body: seq<Strings.Element>)
    | EmptyArray(blanks: seq<byte>)
    | FullArray(items: Items)
    | EmptyObject(blanks: seq<byte>)
    | FullObject(pairs: Pairs)

  /** Blanks, a value, blanks, and either the closing bracket or a comma and more items. */
  datatype Items =
    | LastItem(before: seq<byte>, value: Tree, after: seq<byte>)
    | NextItem(before: seq<byte>, value: Tree, after: seq<byte>, items: Items)

  /** Blanks, a name, blanks, a colon, blanks, a value, blanks, and the closing brace or a comma and more pairs. */
  datatype Pairs =
    | LastPair(before: seq<byte>, name: seq<Strings.Element>, middle: seq<byte>, gap: seq<byte>, value: Tree,
               after: seq<byte>)
    | NextPair(before: seq<byte>, name: seq<Strings.Element>, middle: seq<byte>, gap: seq<byte>, value: Tree,
               after: seq<byte>, pairs: Pairs)

  // ---------------------------------------------------------------- text

  /** The text of a tree followed by `k`. */
  function Emit(t: Tree, k: seq<byte>): seq<byte> {
    match t
    case NullWord => NULL_WORD + k
    case FalseWord => FALSE_WORD + k
    case TrueWord => TRUE_WORD + k
    case Numeral(token) => token.Emit(k)
    case Quoted(body) => EmitString(body, k)
    case EmptyArray(w) => [LBRACKET] + (w + ([RBRACKET] + k))
    case FullArray(items) => [LBRACKET] + EmitItems(items, k)
    case EmptyObject(w) => [LBRACE] + (w + ([RBRACE] + k))
    case FullObject(pairs) => [LBRACE] + EmitPairs(pairs, k)
  }

  function EmitString(body: seq<Strings.Element>, k: seq<byte>): seq<byte> {
    [QUOTE] + Strings.EmitBody(body, [QUOTE] + k)
  }

  function EmitItems(i: Items, k: seq<byte>): seq<byte> {
    i.before + Emit(i.value, i.after + (if i.LastItem? then [RBRACKET] + k else [COMMA] + EmitItems(i.items, k)))
  }

  function EmitPairs(p: Pairs, k: seq<byte>): seq<byte> {
    p.before + EmitString(p.name, p.middle + ([COLON] + (p.gap + Emit(p.value, p.after +
      (if p.LastPair? then [RBRACE] + k else [COMMA] + EmitPairs(p.pairs, k))))))
  }

  // ---------------------------------------------------------------- validity

  /** The language the parser accepts, or that of RFC 8259. */
  datatype Language = Accepted | Rfc8259

  ghost predicate Blanks(l: Language, w: seq<byte>) {
    if l == Accepted then AllBlank(w) else forall i :: 0 <= i < |w| ==> IsRfcBlank(w[i])
  }

  ghost predicate Body(l: Language, es: seq<Strings.Element>) {
    if l == Accepted then Strings.ValidBody(es) else Strings.RfcBody(es)
  }

  ghost predicate In(l: Language, t: Tree) {
    match t
    case Numeral(token) => if l == Accepted then token.Valid() else token.IsRfc()
    case Quoted(body) => Body(l, body)
    case EmptyArray(w) => Blanks(l, w)
    case FullArray(items) => ItemsIn(l, items)
    case EmptyObject(w) => Blanks(l, w)
    case FullObject(pairs) => PairsIn(l, pairs)
    case _ => true
  }

  ghost predicate ItemsIn(l: Language, i: Items) {
    Blanks(l, i.before) && In(l, i.value) && Blanks(l, i.after) && (i.NextItem? ==> ItemsIn(l, i.items))
  }

  ghost predicate PairsIn(l: Language, p: Pairs) {
    && Blanks(l, p.before) && Body(l, p.name) && Blanks(l, p.middle) && Blanks(l, p.gap) && In(l, p.value)
    && Blanks(l, p.after) && (p.NextPair? ==> PairsIn(l, p.pairs))
  }

  // ---------------------------------------------------------------- meaning

  function Text(es: seq<Strings.Element>): seq<byte>
    requires Body(Accepted, es)
  {
    Strings.Meaning(es)
  }

  /** The value a tree denotes. */
  function Denote(t: Tree): Json
    requires In(Accepted, t)
  {
    match t
    case NullWord => Null
    case FalseWord => False
    case TrueWord => True
    case Numeral(token) => Number(token.Value())
    case Quoted(body) => String(Text(body))
    case EmptyArray(_) => Array([])
    case FullArray(items) => Array(DenoteItems(items))
    case EmptyObject(_) => Object([])
    case FullObject(pairs) => Object(DenotePairs(pairs))
  }

  function DenoteItems(i: Items): seq<Json>
    requires ItemsIn(Accepted, i)
  {
    [Denote(i.value)] + if i.LastItem? then [] else DenoteItems(i.items)
  }

  function DenotePairs(p: Pairs): seq<Member>
    requires PairsIn(Accepted, p)
  {
    [Member(Text(p.name), Denote(p.value))] + if p.LastPair? then [] else DenotePairs(p.pairs)
  }

  /** Whether a parser reading `t` would go on into `k`: only a number can be continued. */
  predicate ExtendedBy(t: Tree, k: seq<byte>) {
    t.Numeral? && t.token.ExtendedBy(k)
  }

  // ---------------------------------------------------------------- completeness

  /** The parser reads the text of every tree to its end and gives the value the tree denotes. */
  lemma {:induction false} Complete(t: Tree, k: seq<byte>)
    requires In(Accepted, t) && !ExtendedBy(t, k)
    ensures ParseValue(Emit(t, k)) == Parsed(Denote(t), k)
    decreases t, 0
  {
    match t
    case Numeral(token) => CompleteDigits(token, k);
    case Quoted(body) => CompleteString(body, k);
    case FullArray(items) =>
      CompleteItems([], items, k);
      OpensArray(EmitItems(items, k));
      Neutral(DenoteItems(items));
    case FullObject(pairs) =>
      CompletePairs([], pairs, k);
      OpensObject(EmitPairs(pairs, k));
      Neutral(DenotePairs(pairs));
    case _ => CompleteFixed(t, k);
  }

  lemma OpensArray(s: seq<byte>)
    requires Head(Skip(s)) != RBRACKET
    ensures ParseValue([LBRACKET] + s) == ParseItem([], Skip(s))
  {
    Behind([LBRACKET], s);
    var x := [LBRACKET] + s;
    assert x[0] != NULL_WORD[0] && x[0] != FALSE_WORD[0] && x[0] != TRUE_WORD[0];
  }

  lemma OpensObject(s: seq<byte>)
    requires Head(Skip(s)) != RBRACE
    ensures ParseValue([LBRACE] + s) == ParseMember([], Skip(s))
  {
    Behind([LBRACE], s);
    var x := [LBRACE] + s;
    assert x[0] != NULL_WORD[0] && x[0] != FALSE_WORD[0] && x[0] != TRUE_WORD[0];
  }

  /** The words, and arrays and objects with nothing in them. */
  lemma CompleteFixed(t: Tree, k: seq<byte>)
    requires In(Accepted, t) && (t.NullWord? || t.FalseWord? || t.TrueWord? || t.EmptyArray? || t.EmptyObject?)
    ensures ParseValue(Emit(t, k)) == Parsed(Denote(t), k)
  {
    match t
    case NullWord =>
    case FalseWord => assert Emit(t, k)[0] != NULL_WORD[0];
    case TrueWord => assert Emit(t, k)[0] != NULL_WORD[0] && Emit(t, k)[0] != FALSE_WORD[0];
    case EmptyArray(w) => SkipTo(w, [RBRACKET] + k);
    case EmptyObject(w) => SkipTo(w, [RBRACE] + k);
  }

  lemma SkipTo(w: seq<byte>, s: seq<byte>)
    requires AllBlank(w) && !IsBlank(Head(s))
    ensures Skip(w + s) == s
  {
    SkipBlanks(w, s);
  }

  lemma CompleteDigits(token: Numbers.Token, k: seq<byte>)
    requires token.Valid() && !token.ExtendedBy(k)
    ensures ParseValue(token.Emit(k)) == Parsed(Number(token.Value()), k)
  {
    hide Numbers.ParseNumber;
    Numbers.ReadsToken(token, k);
    Numbers.ReadingValue(token);
    NumberHead(token, k);
  }

  lemma NumberHead(token: Numbers.Token, k: seq<byte>)
    requires token.Valid()
    ensures var b := Head(token.Emit(k)); b == MINUS || IsDigit(b)
  {
  }

  lemma CompleteString(body: seq<Strings.Element>, k: seq<byte>)
    requires Body(Accepted, body)
    ensures ParseString(EmitString(body, k)) == Parsed(String(Text(body)), k)
  {
    Strings.DecodesBody(body, [QUOTE] + k);
  }

  lemma {:induction false} TreeHead(t: Tree, k: seq<byte>)
    requires In(Accepted, t)
    ensures var b := Head(Emit(t, k)); b != NUL && !IsBlank(b) && b != RBRACKET
  {
    if t.Numeral? {
      NumberHead(t.token, k);
    }
  }

  /** What follows a value inside an array or object cannot continue it. */
  lemma Follows(t: Tree, w: seq<byte>, k: seq<byte>)
    requires AllBlank(w) && (Head(k) == COMMA || Head(k) == RBRACKET || Head(k) == RBRACE)
    ensures Skip(w + k) == k && !ExtendedBy(t, w + k)
  {
    SkipTo(w, k);
    var b := Head(w + k);
    assert b == if w == [] then Head(k) else w[0];
    assert IsBlank(b) || b == COMMA || b == RBRACKET || b == RBRACE;
  }

  lemma {:induction false} CompleteItems(acc: seq<Json>, i: Items, k: seq<byte>)
    requires ItemsIn(Accepted, i)
    ensures var s := Skip(EmitItems(i, k));
            Head(s) != RBRACKET && ParseItem(acc, s) == Parsed(Array(acc + DenoteItems(i)), k)
    decreases i, 0
  {
    var v := Denote(i.value);
    if i.LastItem? {
      CompleteGap(i.before, i.value, i.after, [RBRACKET] + k);
      assert acc + [v] == acc + DenoteItems(i);
    } else {
      var k1 := EmitItems(i.items, k);
      CompleteGap(i.before, i.value, i.after, [COMMA] + k1);
      CompleteItems(acc + [v], i.items, k);
      Associate(acc, [v], DenoteItems(i.items));
    }
  }

  /** A value between blanks. */
  lemma {:induction false} CompleteGap(before: seq<byte>, t: Tree, after: seq<byte>, k: seq<byte>)
    requires AllBlank(before) && In(Accepted, t) && AllBlank(after)
    requires Head(k) == COMMA || Head(k) == RBRACKET || Head(k) == RBRACE
    ensures var s := Skip(before + Emit(t, after + k));
            Head(s) != RBRACKET && ParseValue(s) == Parsed(Denote(t), after + k)
    ensures Skip(after + k) == k
    decreases t, 1
  {
    TreeHead(t, after + k);
    SkipTo(before, Emit(t, after + k));
    Follows(t, after, k);
    Complete(t, after + k);
  }

  lemma {:induction false} CompletePairs(acc: seq<Member>, p: Pairs, k: seq<byte>)
    requires PairsIn(Accepted, p)
    ensures var s := Skip(EmitPairs(p, k));
            Head(s) == QUOTE && ParseMember(acc, s) == Parsed(Object(acc + DenotePairs(p)), k)
    decreases p, 0
  {
    var m := Member(Text(p.name), Denote(p.value));
    if p.LastPair? {
      CompletePair(acc, p, [RBRACE] + k);
      assert acc + [m] == acc + DenotePairs(p);
    } else {
      var k1 := EmitPairs(p.pairs, k);
      CompletePair(acc, p, [COMMA] + k1);
      CompletePairs(acc + [m], p.pairs, k);
      Associate(acc, [m], DenotePairs(p.pairs));
    }
  }

  lemma {:induction false} CompletePair(acc: seq<Member>, p: Pairs, k: seq<byte>)
    requires PairsIn(Accepted, p) && (Head(k) == COMMA || Head(k) == RBRACE)
    ensures var s := Skip(p.before + EmitString(p.name, p.middle + ([COLON] + (p.gap + Emit(p.value, p.after + k)))));
            Head(s) == QUOTE && ParseMember(acc, s) == ObjectTail(acc + [Member(Text(p.name), Denote(p.value))], k)
    decreases p.value, 2
  {
    CompleteName(p.before, p.name, p.middle, p.gap + Emit(p.value, p.after + k));
    CompleteGap(p.gap, p.value, p.after, k);
  }

  /** A name between blanks and the colon after it. */
  lemma CompleteName(before: seq<byte>, name: seq<Strings.Element>, middle: seq<byte>, k: seq<byte>)
    requires AllBlank(before) && Body(Accepted, name) && AllBlank(middle)
    ensures var s := Skip(before + EmitString(name, middle + ([COLON] + k)));
            && Head(s) == QUOTE && ParseString(s) == Parsed(String(Text(name)), middle + ([COLON] + k))
            && Skip(middle + ([COLON] + k)) == [COLON] + k
  {
    SkipTo(before, EmitString(name, middle + ([COLON] + k)));
    CompleteString(name, middle + ([COLON] + k));
    SkipTo(middle, [COLON] + k);
  }

  // ---------------------------------------------------------------- RFC 8259

  /** Every text of RFC 8259 is in the language the parser accepts. */
  lemma {:induction false} RfcIsAccepted(t: Tree)
    requires In(Rfc8259, t)
    ensures In(Accepted, t)
    decreases t
  {
    match t
    case FullArray(items) => RfcItems(items);
    case FullObject(pairs) => RfcPairs(pairs);
    case _ =>
  }

  lemma {:induction false} RfcItems(i: Items)
    requires ItemsIn(Rfc8259, i)
    ensures ItemsIn(Accepted, i)
    decreases i
  {
    RfcIsAccepted(i.value);
    if i.NextItem? {
      RfcItems(i.items);
    }
  }

  lemma {:induction false} RfcPairs(p: Pairs)
    requires PairsIn(Rfc8259, p)
    ensures PairsIn(Accepted, p)
    decreases p
  {
    RfcIsAccepted(p.value);
    if p.NextPair? {
      RfcPairs(p.pairs);
    }
  }
}
