/** The laws of the texts: what the parser, the printer and the minifier make of each other's output. */
module Theorems {
  import opened Bytes
  import opened Json
  import opened ParserSpec
  import opened Grammar
  import opened Soundness
  import opened MinifySpec
  import opened RoundTrip
  import Numbers
  import Strings

  /** Whether `k` would be read as part of a number printed just before it. */
  predicate Continues(v: Json, k: seq<byte>) {
    v.Number? && TokenOf(v.number.Floor).ExtendedBy(k)
  }

  /** A derived text is read to its end and no further exactly when what follows does not continue it. */
  lemma StopsAtTheEnd(t: Tree, k: seq<byte>)
    requires In(Accepted, t)
    ensures ParseValue(Emit(t, k)) == Parsed(Denote(t), k) <==> !ExtendedBy(t, k)
  {
    if !ExtendedBy(t, k) {
      Complete(t, k);
    } else {
      Numbers.TokenEnds(t.token, k);
      NumberHead(t.token, k);
    }
  }

  /**
    Reading printed text gives the value back and stops at its end, whatever follows,
    unless what follows continues a number.
   */
  lemma PrintThenParse(v: Json, depth: nat, fmt: bool, k: seq<byte>)
    requires Printable(v)
    ensures ParseValue(PrintValue(v, depth, fmt) + k) == Parsed(v, k) <==> !Continues(v, k)
  {
    TreeText(v, depth, fmt, k);
    TreeMeaning(v, depth, fmt);
    StopsAtTheEnd(TreeOf(v, depth, fmt), k);
  }

  /** A printed text is accepted whole and gives the value back. */
  lemma ParsePrinted(v: Json, fmt: bool)
    requires Printable(v)
    ensures ParseText(PrintValue(v, 0, fmt), true) == Parsed(v, [])
  {
    var p, t := PrintValue(v, 0, fmt), TreeOf(v, 0, fmt);
    TreeText(v, 0, fmt, []);
    TreeMeaning(v, 0, fmt);
    Neutral(p);
    AcceptsTree([], t, []);
    Neutral(Emit(t, []));
  }

  /** The printed text is a JSON text of RFC 8259. */
  lemma PrintsRfc8259(v: Json, depth: nat, fmt: bool)
    requires Printable(v)
    ensures exists t :: In(Rfc8259, t) && Emit(t, []) == PrintValue(v, depth, fmt)
  {
    TreeText(v, depth, fmt, []);
    TreeMeaning(v, depth, fmt);
    var p := PrintValue(v, depth, fmt);
    assert p + [] == p;
  }

  /** Minifying the formatted text gives the unformatted text. */
  lemma MinifyPrinted(v: Json, depth: nat)
    requires Printable(v)
    ensures Minify(PrintValue(v, depth, true)) == PrintValue(v, 0, false)
  {
    TreeText(v, depth, true, []);
    TreeText(v, 0, false, []);
    TreeMeaning(v, depth, true);
    MinifyTree(TreeOf(v, depth, true), []);
    StripTree(v, depth, 0);
    var p, q := PrintValue(v, depth, true), PrintValue(v, 0, false);
    assert p + [] == p && q + [] == q;
  }

  /** Every text of RFC 8259 is accepted to its last byte and gives the value it denotes. */
  lemma AcceptsRfc8259(before: seq<byte>, t: Tree, after: seq<byte>)
    requires Blanks(Rfc8259, before) && In(Rfc8259, t) && Blanks(Rfc8259, after)
    ensures In(Accepted, t)
    ensures ParseText(before + Emit(t, after), true) == Parsed(Denote(t), [])
  {
    RfcIsAccepted(t);
    AcceptsTree(before, t, after);
  }

  lemma AcceptsTree(before: seq<byte>, t: Tree, after: seq<byte>)
    requires AllBlank(before) && In(Accepted, t) && AllBlank(after)
    ensures ParseText(before + Emit(t, after), true) == Parsed(Denote(t), [])
  {
    TreeHead(t, after);
    SkipTo(before, Emit(t, after));
    SkipTo(after, []);
    assert after + [] == after;
    assert IsBlank(Head(after)) || Head(after) == NUL;
    Complete(t, after);
  }

  /** A text with nothing but white space around the text of a tree. */
  ghost predicate IsTextOf(s: seq<byte>, before: seq<byte>, t: Tree, after: seq<byte>) {
    AllBlank(before) && In(Accepted, t) && AllBlank(after) && s == before + Emit(t, after)
  }

  /** A text that is one literal that is not closed. */
  ghost predicate IsOpenLiteral(s: seq<byte>, before: seq<byte>, body: seq<Strings.Element>) {
    AllBlank(before) && Body(Accepted, body) && s == before + ([QUOTE] + Strings.EmitBody(body, []))
  }

  /**
    The C strings accepted whole are exactly those of a derivation tree, and the tree gives the
    value, and those of one literal that is not closed, and its body gives the value.
   */
  lemma AcceptedTexts(s: seq<byte>)
    requires NulFree(s)
    ensures ParseText(s, true).Parsed? <==>
      || (exists before, t, after :: IsTextOf(s, before, t, after))
      || (exists before, body :: IsOpenLiteral(s, before, body))
    ensures forall before, t, after :: IsTextOf(s, before, t, after) ==> ParseText(s, true) == Parsed(Denote(t), [])
    ensures forall before, body :: IsOpenLiteral(s, before, body) ==>
              ParseText(s, true) == Parsed(String(Text(body)), [])
  {
    forall before, t, after | IsTextOf(s, before, t, after)
      ensures ParseText(s, true) == Parsed(Denote(t), [])
    {
      AcceptsTree(before, t, after);
    }
    forall before, body | IsOpenLiteral(s, before, body)
      ensures ParseText(s, true) == Parsed(String(Text(body)), [])
    {
      AcceptsOpenLiteral(before, body);
    }
    if ParseText(s, true).Parsed? {
      NulFreeSkip(s);
      if StartsClosed(Skip(s)) {
        var before, t, after := TreeOfText(s);
        assert IsTextOf(s, before, t, after);
      } else {
        var before, body := OpenLiteralOf(s);
        assert IsOpenLiteral(s, before, body);
      }
    }
  }

  lemma AcceptsOpenLiteral(before: seq<byte>, body: seq<Strings.Element>)
    requires AllBlank(before) && Body(Accepted, body)
    ensures var s := before + ([QUOTE] + Strings.EmitBody(body, []));
            ParseText(s, true) == ParseText(s, false) == Parsed(String(Text(body)), [])
  {
    var s1 := Strings.EmitBody(body, []);
    SkipTo(before, [QUOTE] + s1);
    Strings.DecodesBody(body, []);
    Behind([QUOTE], s1);
  }

  lemma OpenLiteralOf(s: seq<byte>) returns (before: seq<byte>, body: seq<Strings.Element>)
    requires NulFree(s) && ParseText(s, true).Parsed? && !StartsClosed(Skip(s))
    ensures IsOpenLiteral(s, before, body)
  {
    before := BlanksOf(s);
    NulFreeSkip(s);
    var s1 := Skip(s)[1..];
    body := Strings.BodyRead(s1);
    Strings.CountSuffix(s1);
    assert Strings.Count(s1).1 == [];
  }

  lemma TreeOfText(s: seq<byte>) returns (before: seq<byte>, t: Tree, after: seq<byte>)
    requires NulFree(s) && ParseText(s, true).Parsed? && StartsClosed(Skip(s))
    ensures IsTextOf(s, before, t, after)
    ensures Denote(t) == ParseText(s, true).value
  {
    before := BlanksOf(s);
    NulFreeSkip(s);
    t := Sound(Skip(s));
    var k := ParseValue(Skip(s)).rest;
    after := BlanksOf(k);
    NulFreeSkip(k);
    assert Skip(k) == [];
    Neutral(after);
  }

  // ---------------------------------------------------------------- texts with something behind them

  /** A text that goes on after the text of a tree and the blanks before it. */
  ghost predicate StartsWith(s: seq<byte>, before: seq<byte>, t: Tree, k: seq<byte>) {
    AllBlank(before) && In(Accepted, t) && !ExtendedBy(t, k) && s == before + Emit(t, k)
  }

  /** Without a terminator required, a derived text is read to its end, and what follows is left over. */
  lemma AcceptsPrefix(before: seq<byte>, t: Tree, k: seq<byte>)
    requires AllBlank(before) && In(Accepted, t)
    ensures ParseText(before + Emit(t, k), false) == Parsed(Denote(t), k) <==> !ExtendedBy(t, k)
  {
    TreeHead(t, k);
    SkipTo(before, Emit(t, k));
    StopsAtTheEnd(t, k);
  }

  /**
    The C strings of which a value is read when no terminator is required are exactly those that
    start with the text of a derivation tree, and exactly what follows it is left over, and those
    of one literal that is not closed.
   */
  lemma AcceptedPrefixes(s: seq<byte>)
    requires NulFree(s)
    ensures ParseText(s, false).Parsed? <==>
      || (exists before, t, k :: StartsWith(s, before, t, k))
      || (exists before, body :: IsOpenLiteral(s, before, body))
    ensures forall before, t, k :: StartsWith(s, before, t, k) ==> ParseText(s, false) == Parsed(Denote(t), k)
    ensures forall before, body :: IsOpenLiteral(s, before, body) ==>
              ParseText(s, false) == Parsed(String(Text(body)), [])
  {
    forall before, t, k | StartsWith(s, before, t, k)
      ensures ParseText(s, false) == Parsed(Denote(t), k)
    {
      AcceptsPrefix(before, t, k);
    }
    forall before, body | IsOpenLiteral(s, before, body)
      ensures ParseText(s, false) == Parsed(String(Text(body)), [])
    {
      AcceptsOpenLiteral(before, body);
    }
    if ParseText(s, false).Parsed? {
      NulFreeSkip(s);
      var before := BlanksOf(s);
      if StartsClosed(Skip(s)) {
        var t := Sound(Skip(s));
        assert StartsWith(s, before, t, ParseValue(Skip(s)).rest);
      } else {
        var s1 := Skip(s)[1..];
        var body := Strings.BodyRead(s1);
        Strings.CountSuffix(s1);
        assert Strings.Count(s1).1 == [];
        assert IsOpenLiteral(s, before, body);
      }
    }
  }

  /** A terminator is required: then nothing but blanks may be left over, and the value is the same. */
  lemma ToTheEnd(s: seq<byte>)
    requires NulFree(s)
    ensures ParseText(s, true).Parsed? <==> ParseText(s, false).Parsed? && AllBlank(ParseText(s, false).rest)
    ensures ParseText(s, true).Parsed? ==> ParseText(s, true) == Parsed(ParseText(s, false).value, [])
    ensures ParseText(s, true).Undefined? <==> ParseText(s, false).Undefined?
  {
    hide ParseValue;
    NulFreeSkip(s);
    if ParseText(s, false).Parsed? {
      var k := ParseText(s, false).rest;
      ParsedNulFree(Skip(s));
      Skipped(k);
      NulFreeSkip(k);
      if AllBlank(k) {
        SkipBlanks(k, []);
        Neutral(k);
      }
    }
  }

  /** What is left over of a C string is a C string. */
  lemma ParsedNulFree(s: seq<byte>)
    requires NulFree(s) && ParseValue(s).Parsed?
    ensures NulFree(ParseValue(s).rest)
  {
    if StartsClosed(s) {
      var t := Sound(s);
    } else if ParseValue(s).rest != [] {
      ValueMoreAfter(s);
    }
  }

  /** `null`, `false` and `true` stand for these values. */
  lemma WordsRead()
    ensures ParseText([0x6E, 0x75, 0x6C, 0x6C], true) == Parsed(Null, [])
    ensures ParseText([0x66, 0x61, 0x6C, 0x73, 0x65], true) == Parsed(False, [])
    ensures ParseText([0x74, 0x72, 0x75, 0x65], true) == Parsed(True, [])
  {
    assert NULL_WORD[4..] == [] && FALSE_WORD[5..] == [] && TRUE_WORD[4..] == [];
  }

  /** Before a value exactly the bytes from 1 to 32 are passed over. */
  lemma BlankBefore(b: byte)
    ensures ParseText([b] + NULL_WORD, true) == Parsed(Null, []) <==> 1 <= b <= 32
  {
    var s := [b] + NULL_WORD;
    Behind([b], NULL_WORD);
    assert NULL_WORD[4..] == [];
    assert s[1..] == NULL_WORD && s[1] != NULL_WORD[1] && s[1] != FALSE_WORD[1] && s[1] != TRUE_WORD[1];
    assert Skip(NULL_WORD) == NULL_WORD && ParseValue(NULL_WORD) == Parsed(Null, []);
    assert Skip(s) == if IsBlank(b) then NULL_WORD else s;
    if IsBlank(b) {
      assert Skip([]) == [];
    } else if b == LBRACKET {
      assert ParseItem([], NULL_WORD) == ArrayTail([Null], []);
      assert ParseValue(s) == ParseArray(NULL_WORD) == ParseItem([], NULL_WORD);
    } else if b == LBRACE {
      assert ParseValue(s) == ParseObject(NULL_WORD) == ParseMember([], NULL_WORD);
    } else {
      assert !(NULL_WORD <= s);
      assert ParseValue(s).Parsed? ==> ParseValue(s).value != Null;
    }
  }

  /**
    A text accepted whole can be minified, unless it is one literal that is not closed, and is
    then accepted whole after minification, with the same value.
   */
  lemma MinifyPreserves(s: seq<byte>)
    requires NulFree(s) && StartsClosed(Skip(s)) && ParseText(s, true).Parsed?
    ensures Closed(s)
    ensures ParseText(Minify(s), true) == ParseText(s, true)
  {
    var before, t, after := TreeOfText(s);
    AcceptsTree(before, t, after);
    MinifyBlanks(before, Emit(t, after));
    MinifyTree(t, after);
    MinifyBlanks(after, []);
    assert after + [] == after;
    StripKeeps(t);
    StripBlanksKeeps(before);
    StripBlanksKeeps(after);
    AcceptsTree(StripBlanks(before), Strip(t), StripBlanks(after));
    assert StripBlanks(after) + [] == StripBlanks(after);
  }

  /** The converse does not hold: minifying can join two halves of a word. */
  lemma MinifyAcceptsMore()
    ensures var s := [0x6E, 0x75, SPACE, 0x6C, 0x6C];
            ParseText(s, true).Rejected? && ParseText(Minify(s), true) == Parsed(Null, [])
  {
    var s: seq<byte> := [0x6E, 0x75, SPACE, 0x6C, 0x6C];
    assert s[1..] == [0x75, SPACE, 0x6C, 0x6C];
    MinifyKept([0x6E, 0x75], [SPACE, 0x6C, 0x6C]);
    MinifyKept([0x6C, 0x6C], []);
    assert s == [0x6E, 0x75] + [SPACE, 0x6C, 0x6C];
    assert [SPACE, 0x6C, 0x6C][1..] == [0x6C, 0x6C] + [];
    assert Minify(s) == NULL_WORD;
    assert NULL_WORD[4..] == [];
  }
}
