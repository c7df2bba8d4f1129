/** What the parser computes: the value at the start of a text and what follows it. */
module ParserSpec {
  import opened Bytes
  import opened Json
  import Strings
  import Numbers

  /**
    `Undefined` marks a text on which the C parser would run over the end of a string
    literal: one that is cut short after a backslash or inside a `\u` escape.
   */
  datatype Outcome = Parsed(value: Json, rest: seq<byte>) | Rejected | Undefined

  /** The bytes after a literal body that stopped at `k`. */
  function AfterQuote(k: seq<byte>): (r: seq<byte>)
    ensures |r| <= |k|
  {
    if Head(k) == QUOTE then k[1..] else k
  }

  function ParseString(s: seq<byte>): (r: Outcome)
    ensures r.Parsed? ==> r.value.String? && |r.rest| < |s|
  {
    if Head(s) != QUOTE then Rejected
    else if !Strings.Complete(s[1..]) then Undefined
    else
      var (text, k) := Strings.Decode(s[1..]);
      Strings.DecodeStops(s[1..]);
      Parsed(String(text), AfterQuote(k))
  }

  function ParseValue(s: seq<byte>): (r: Outcome)
    ensures r.Parsed? ==> |r.rest| < |s|
    decreases |s|, 1
  {
    if NULL_WORD <= s then Parsed(Null, s[4..])
    else if FALSE_WORD <= s then Parsed(False, s[5..])
    else if TRUE_WORD <= s then Parsed(True, s[4..])
    else if Head(s) == QUOTE then ParseString(s)
    else if Head(s) == MINUS || IsDigit(Head(s)) then
      var (n, k) := Numbers.ParseNumber(s);
      Parsed(Number(n.Value()), k)
    else if Head(s) == LBRACKET then ParseArray(s[1..])
    else if Head(s) == LBRACE then ParseObject(s[1..])
    else Rejected
  }

  /** After the opening bracket. */
  function ParseArray(s: seq<byte>): (r: Outcome)
    ensures r.Parsed? ==> |r.rest| < |s|
    decreases |s|, 3
  {
    var a := Skip(s);
    if Head(a) == RBRACKET then Parsed(Array([]), a[1..]) else ParseItem([], a)
  }

  /** A value and the items after it. */
  function ParseItem(items: seq<Json>, s: seq<byte>): (r: Outcome)
    ensures r.Parsed? ==> |r.rest| < |s|
    decreases |s|, 2
  {
    match ParseValue(s)
    case Parsed(v, k) => ArrayTail(items + [v], Skip(k))
    case other => other
  }

  /** After an item and the blanks that follow it. */
  function ArrayTail(items: seq<Json>, s: seq<byte>): (r: Outcome)
    ensures r.Parsed? ==> |r.rest| < |s|
    decreases |s|, 0
  {
    if Head(s) == COMMA then ParseItem(items, Skip(s[1..]))
    else if Head(s) == RBRACKET then Parsed(Array(items), s[1..])
    else Rejected
  }

  /** After the opening brace. */
  function ParseObject(s: seq<byte>): (r: Outcome)
    ensures r.Parsed? ==> |r.rest| < |s|
    decreases |s|, 3
  {
    var a := Skip(s);
    if Head(a) == RBRACE then Parsed(Object([]), a[1..]) else ParseMember([], a)
  }

  /** A name, a colon, a value, and the members after it. */
  function ParseMember(members: seq<Member>, s: seq<byte>): (r: Outcome)
    ensures r.Parsed? ==> |r.rest| < |s|
    decreases |s|, 2
  {
    match ParseString(s)
    case Parsed(name, k) =>
      if Head(Skip(k)) != COLON then Rejected
      else
        (match ParseValue(Skip(Skip(k)[1..]))
         case Parsed(v, k1) => ObjectTail(members + [Member(name.text, v)], Skip(k1))
         case other => other)
    case other => other
  }

  /** After a member and the blanks that follow it. */
  function ObjectTail(members: seq<Member>, s: seq<byte>): (r: Outcome)
    ensures r.Parsed? ==> |r.rest| < |s|
    decreases |s|, 0
  {
    if Head(s) == COMMA then ParseMember(members, Skip(s[1..]))
    else if Head(s) == RBRACE then Parsed(Object(members), s[1..])
    else Rejected
  }

  /** `cJSON_ParseWithOpts`: leading blanks, a value and, when asked for, nothing but blanks after it. */
  function ParseText(s: seq<byte>, toTheEnd: bool): Outcome {
    match ParseValue(Skip(s))
    case Parsed(v, k) =>
      if !toTheEnd then Parsed(v, k) else if Head(Skip(k)) == NUL then Parsed(v, Skip(k)) else Rejected
    case other => other
  }

  // ---------------------------------------------------------------- literals at the end of a text

  /** If the text starts with a literal, the literal is closed. */
  predicate StartsClosed(s: seq<byte>) {
    Head(s) != QUOTE || Head(Strings.Count(s[1..]).1) == QUOTE
  }

  /** A literal with something after it is closed. */
  lemma MoreAfter(s: seq<byte>)
    requires NulFree(s) && ParseString(s).Parsed? && ParseString(s).rest != []
    ensures StartsClosed(s)
  {
    Strings.PassesAgree(s[1..]);
    Strings.CountSuffix(s[1..]);
  }

  lemma ValueMoreAfter(s: seq<byte>)
    requires NulFree(s) && ParseValue(s).Parsed? && ParseValue(s).rest != []
    ensures StartsClosed(s)
  {
    if Head(s) == QUOTE {
      MoreAfter(s);
    }
  }

  // ---------------------------------------------------------------- lexically complete texts

  /** The text is a C string, and every string literal in it is closed and has no escape cut short. */
  predicate Lexed(s: seq<byte>)
    decreases |s|
  {
    if s == [] then true
    else if s[0] != QUOTE then s[0] != NUL && Lexed(s[1..])
    else
      var k := Strings.Count(s[1..]).1;
      Strings.Complete(s[1..]) && Head(k) == QUOTE && Lexed(k[1..])
  }

  lemma {:induction false} LexedDrop(s: seq<byte>, n: nat)
    requires Lexed(s) && n <= |s| && QUOTE !in s[..n]
    ensures Lexed(s[n..])
    decreases n
  {
    if n == 0 {
      assert s[0..] == s;
    } else {
      assert s[0] in s[..n];
      assert s[1..][..n - 1] == s[..n][1..];
      LexedDrop(s[1..], n - 1);
      assert s[1..][n - 1..] == s[n..];
    }
  }

  lemma LexedSkip(s: seq<byte>)
    requires Lexed(s)
    ensures Lexed(Skip(s))
  {
  }

  lemma LexedSpan(s: seq<byte>)
    requires Lexed(s)
    ensures Lexed(s[Numbers.Span(s)..])
  {
    Numbers.Spanned(s);
    LexedDrop(s, Numbers.Span(s));
  }

  lemma LexedNumber(s: seq<byte>)
    requires Lexed(s)
    ensures Lexed(Numbers.ParseNumber(s).1)
  {
    var s3 := Numbers.ParseWhole(s).2;
    LexedWhole(s);
    LexedFraction(s3);
    LexedExponent(Numbers.ParseFraction(s3).1);
  }

  lemma LexedWhole(s: seq<byte>)
    requires Lexed(s)
    ensures Lexed(Numbers.ParseWhole(s).2)
  {
    var s1 := if Head(s) == MINUS then s[1..] else s;
    var s2 := if Head(s1) == ZERO then s1[1..] else s1;
    LexedSpan(s2);
    assert s2[0..] == s2;
  }

  lemma LexedFraction(s: seq<byte>)
    requires Lexed(s)
    ensures Lexed(Numbers.ParseFraction(s).1)
  {
    if Head(s) == DOT {
      var n := Numbers.Span(s[1..]);
      LexedSpan(s[1..]);
      Slices(s, 1, 1 + n);
    }
  }

  lemma LexedExponent(s: seq<byte>)
    requires Lexed(s)
    ensures Lexed(Numbers.ParseExponent(s).1)
  {
    if Head(s) == LOWER_E || Head(s) == UPPER_E {
      var s1 := s[1..];
      LexedSpan(if Head(s1) == PLUS || Head(s1) == MINUS then s1[1..] else s1);
    }
  }

  lemma LexedString(s: seq<byte>)
    requires Lexed(s)
    ensures !ParseString(s).Undefined? && (ParseString(s).Parsed? ==> Lexed(ParseString(s).rest))
  {
    if Head(s) == QUOTE {
      Strings.PassesAgree(s[1..]);
    }
  }

  /** On such a text the parser never runs over the end of a literal. */
  lemma {:induction false} LexedValue(s: seq<byte>)
    requires Lexed(s)
    ensures !ParseValue(s).Undefined? && (ParseValue(s).Parsed? ==> Lexed(ParseValue(s).rest))
    decreases |s|, 1
  {
    if NULL_WORD <= s || TRUE_WORD <= s {
      LexedDrop(s, 4);
    } else if FALSE_WORD <= s {
      LexedDrop(s, 5);
    } else if Head(s) == QUOTE {
      LexedString(s);
    } else if Head(s) == MINUS || IsDigit(Head(s)) {
      LexedNumber(s);
    } else if Head(s) == LBRACKET {
      LexedSkip(s[1..]);
      LexedItem([], Skip(s[1..]));
    } else if Head(s) == LBRACE {
      LexedSkip(s[1..]);
      LexedMember([], Skip(s[1..]));
    }
  }

  lemma {:induction false} LexedItem(items: seq<Json>, s: seq<byte>)
    requires Lexed(s)
    ensures var r := ParseItem(items, s); !r.Undefined? && (r.Parsed? ==> Lexed(r.rest))
    decreases |s|, 2
  {
    LexedValue(s);
    match ParseValue(s)
    case Parsed(v, k) =>
      LexedSkip(k);
      if Head(Skip(k)) == COMMA {
        LexedSkip(Skip(k)[1..]);
        LexedItem(items + [v], Skip(Skip(k)[1..]));
      }
    case _ =>
  }

  lemma {:induction false} LexedMember(members: seq<Member>, s: seq<byte>)
    requires Lexed(s)
    ensures var r := ParseMember(members, s); !r.Undefined? && (r.Parsed? ==> Lexed(r.rest))
    decreases |s|, 2
  {
    LexedString(s);
    match ParseString(s)
    case Parsed(name, k) =>
      LexedSkip(k);
      if Head(Skip(k)) == COLON {
        var s1 := Skip(Skip(k)[1..]);
        LexedSkip(Skip(k)[1..]);
        LexedValue(s1);
        match ParseValue(s1)
        case Parsed(v, k1) =>
          LexedSkip(k1);
          if Head(Skip(k1)) == COMMA {
            LexedSkip(Skip(k1)[1..]);
            LexedMember(members + [Member(name.text, v)], Skip(Skip(k1)[1..]));
          }
        case _ =>
      }
    case _ =>
  }
}
