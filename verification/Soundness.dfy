/** Whatever the parser reads is the text of a derivation tree, and the tree denotes the value. */
module Soundness {
  import opened Bytes
  import opened Json
  import opened ParserSpec
  import opened Grammar
  import Strings
  import Numbers

  /**
    Whatever the parser reads is the text of a tree that denotes the value it gives, unless it
    is a literal that is not closed.
   */
  lemma {:induction false} Sound(s: seq<byte>) returns (t: Tree)
    requires NulFree(s) && ParseValue(s).Parsed? && StartsClosed(s)
    ensures NulFree(ParseValue(s).rest)
    ensures In(Accepted, t) && !ExtendedBy(t, ParseValue(s).rest)
    ensures Emit(t, ParseValue(s).rest) == s
    ensures Denote(t) == ParseValue(s).value
    decreases |s|, 1
  {
    if NULL_WORD <= s {
      t := NullWord;
    } else if FALSE_WORD <= s {
      t := FalseWord;
    } else if TRUE_WORD <= s {
      t := TrueWord;
    } else if Head(s) == QUOTE {
      var body := SoundString(s);
      t := Quoted(body);
    } else if Head(s) == MINUS || IsDigit(Head(s)) {
      var token := Numbers.TokenRead(s);
      Numbers.ReadingValue(token);
      t := Numeral(token);
      Numbers.EmitAppend(token, ParseValue(s).rest);
      NulFreeEnd(token.Emit([]), ParseValue(s).rest);
    } else if Head(s) == LBRACKET {
      t := SoundArray(s);
    } else {
      t := SoundObject(s);
    }
  }

  lemma {:induction false} SoundArray(s: seq<byte>) returns (t: Tree)
    requires NulFree(s) && s != [] && s[0] == LBRACKET && ParseArray(s[1..]).Parsed?
    ensures NulFree(ParseArray(s[1..]).rest)
    ensures In(Accepted, t) && !t.Numeral?
    ensures Emit(t, ParseArray(s[1..]).rest) == s
    ensures Denote(t) == ParseArray(s[1..]).value
    decreases |s|, 0
  {
    var s1 := s[1..];
    Uncons(s);
    var w := BlanksOf(s1);
    NulFreeSkip(s1);
    if Head(Skip(s1)) == RBRACKET {
      t := EmptyArray(w);
    } else {
      var items := SoundItems([], s1);
      t := FullArray(items);
      Neutral(DenoteItems(items));
    }
  }

  lemma {:induction false} SoundObject(s: seq<byte>) returns (t: Tree)
    requires NulFree(s) && s != [] && s[0] == LBRACE && ParseObject(s[1..]).Parsed?
    ensures NulFree(ParseObject(s[1..]).rest)
    ensures In(Accepted, t) && !t.Numeral?
    ensures Emit(t, ParseObject(s[1..]).rest) == s
    ensures Denote(t) == ParseObject(s[1..]).value
    decreases |s|, 0
  {
    var s1 := s[1..];
    Uncons(s);
    var w := BlanksOf(s1);
    NulFreeSkip(s1);
    if Head(Skip(s1)) == RBRACE {
      t := EmptyObject(w);
    } else {
      var pairs := SoundPairs([], s1);
      t := FullObject(pairs);
      Neutral(DenotePairs(pairs));
    }
  }

  lemma BlanksOf(s: seq<byte>) returns (w: seq<byte>)
    ensures AllBlank(w) && w + Skip(s) == s
    ensures Skip(s) != [] ==> Skip(s) == [Skip(s)[0]] + Skip(s)[1..]
  {
    w := s[..|s| - |Skip(s)|];
    Skipped(s);
  }

  lemma SoundString(s: seq<byte>) returns (body: seq<Strings.Element>)
    requires NulFree(s) && ParseString(s).Parsed? && StartsClosed(s)
    ensures NulFree(ParseString(s).rest)
    ensures Body(Accepted, body)
    ensures EmitString(body, ParseString(s).rest) == s
    ensures Text(body) == ParseString(s).value.text
  {
    body := Strings.BodyRead(s[1..]);
    Strings.PassesAgree(s[1..]);
    Strings.CountSuffix(s[1..]);
    var k := Strings.Count(s[1..]).1;
    Uncons(k);
    Strings.DecodesBody(body, k);
  }

  lemma {:induction false} SoundItems(acc: seq<Json>, s: seq<byte>) returns (i: Items)
    requires NulFree(s) && ParseItem(acc, Skip(s)).Parsed?
    ensures NulFree(ParseItem(acc, Skip(s)).rest)
    ensures ItemsIn(Accepted, i)
    ensures EmitItems(i, ParseItem(acc, Skip(s)).rest) == s
    ensures Array(acc + DenoteItems(i)) == ParseItem(acc, Skip(s)).value
    decreases |s|, 3
  {
    var before, t, after, k := SoundGap(s);
    var v := ParseValue(Skip(s)).value;
    Uncons(k);
    if Head(k) == RBRACKET {
      i := LastItem(before, t, after);
      assert acc + [v] == acc + DenoteItems(i);
    } else {
      var more := SoundItems(acc + [v], k[1..]);
      i := NextItem(before, t, after, more);
      Associate(acc, [v], DenoteItems(more));
    }
  }

  /** A value between blanks, with something after it. */
  lemma {:induction false} SoundGap(s: seq<byte>) returns (before: seq<byte>, t: Tree, after: seq<byte>, k: seq<byte>)
    requires NulFree(s) && ParseValue(Skip(s)).Parsed? && Skip(ParseValue(Skip(s)).rest) != []
    ensures k == Skip(ParseValue(Skip(s)).rest) && k != [] && NulFree(k) && NulFree(k[1..])
    ensures AllBlank(before) && In(Accepted, t) && AllBlank(after) && Denote(t) == ParseValue(Skip(s)).value
    ensures s == before + Emit(t, after + k)
    decreases |s|, 2
  {
    before := BlanksOf(s);
    NulFreeSkip(s);
    ValueMoreAfter(Skip(s));
    t := Sound(Skip(s));
    var rest := ParseValue(Skip(s)).rest;
    after := BlanksOf(rest);
    NulFreeSkip(rest);
    k := Skip(rest);
  }

  lemma {:induction false} SoundPairs(acc: seq<Member>, s: seq<byte>) returns (p: Pairs)
    requires NulFree(s) && ParseMember(acc, Skip(s)).Parsed?
    ensures NulFree(ParseMember(acc, Skip(s)).rest)
    ensures PairsIn(Accepted, p)
    ensures EmitPairs(p, ParseMember(acc, Skip(s)).rest) == s
    ensures Object(acc + DenotePairs(p)) == ParseMember(acc, Skip(s)).value
    decreases |s|, 3
  {
    var before, name, middle, s1 := SoundName(s);
    var gap, t, after, k := SoundGap(s1);
    var m := Member(Text(name), Denote(t));
    Uncons(k);
    if Head(k) == RBRACE {
      p := LastPair(before, name, middle, gap, t, after);
      assert acc + [m] == acc + DenotePairs(p);
    } else {
      var more := SoundPairs(acc + [m], k[1..]);
      p := NextPair(before, name, middle, gap, t, after, more);
      Associate(acc, [m], DenotePairs(more));
    }
  }

  /** A name between blanks and the colon after it. */
  lemma SoundName(s: seq<byte>) returns (w: seq<byte>, name: seq<Strings.Element>, middle: seq<byte>, s1: seq<byte>)
    requires NulFree(s) && ParseString(Skip(s)).Parsed? && Head(Skip(ParseString(Skip(s)).rest)) == COLON
    ensures [COLON] + s1 == Skip(ParseString(Skip(s)).rest) && NulFree(s1) && |s1| < |s|
    ensures AllBlank(w) && Body(Accepted, name) && AllBlank(middle)
    ensures Text(name) == ParseString(Skip(s)).value.text
    ensures s == w + EmitString(name, middle + ([COLON] + s1))
  {
    w := BlanksOf(s);
    NulFreeSkip(s);
    MoreAfter(Skip(s));
    name := SoundString(Skip(s));
    var k := ParseString(Skip(s)).rest;
    middle := BlanksOf(k);
    NulFreeSkip(k);
    s1 := Skip(k)[1..];
    Uncons(Skip(k));
  }
}
