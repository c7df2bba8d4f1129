/**
  Literals as section 7 of RFC 8259 describes them: every spelling of a text is stored as the
  UTF-8 form of its characters, and the printer chooses the shortest spelling.
 */
module Escapes {
  import opened Bytes
  import opened Json
  import opened ParserSpec
  import opened Strings
  import opened Unicode
  import opened Wrappers
  import Grammar

  // ---------------------------------------------------------------- four hexadecimal digits

  function Digit(d: int, upper: bool): (b: byte)
    requires 0 <= d < 16
  {
    if d < 10 then (0x30 + d) as byte else if upper then (0x41 + (d - 10)) as byte else (0x61 + (d - 10)) as byte
  }

  /** The four digits of a code unit, each in either case. */
  function Digits(c: int, upper: seq<bool>): (h: seq<byte>)
    requires 0 <= c <= 0xFFFF && |upper| == 4
    ensures |h| == 4
  {
    [Digit(c / 0x1000, upper[0]), Digit(c / 0x100 % 0x10, upper[1]), Digit(c / 0x10 % 0x10, upper[2]),
     Digit(c % 0x10, upper[3])]
  }

  lemma DigitRead(d: int, upper: bool)
    requires 0 <= d < 16
    ensures HexDigit(Digit(d, upper)) == d && IsPlain(Digit(d, upper))
  {
  }

  /** The digits of a code unit are read as the code unit. */
  lemma HexRead(c: int, upper: seq<bool>)
    requires 0 <= c <= 0xFFFF && |upper| == 4
    ensures IsHex4(Digits(c, upper)) && Hex4(Digits(c, upper)) == c && Unit(Digits(c, upper)).Valid()
  {
    DigitRead(c / 0x1000, upper[0]);
    DigitRead(c / 0x100 % 0x10, upper[1]);
    DigitRead(c / 0x10 % 0x10, upper[2]);
    DigitRead(c % 0x10, upper[3]);
    assert c / 0x100 == c / 0x10 / 0x10 && c / 0x1000 == c / 0x100 / 0x10;
  }

  predicate IsHexLetter(b: byte) {
    0x30 <= b <= 0x39 || 0x41 <= b <= 0x46 || 0x61 <= b <= 0x66
  }

  /** Four bytes that are not all digits are read as 0, and all others are the digits of what is read. */
  lemma HexOnly(h: seq<byte>) returns (upper: seq<bool>)
    requires |h| == 4
    ensures |upper| == 4
    ensures if forall i :: 0 <= i < 4 ==> IsHexLetter(h[i]) then h == Digits(Hex4(h), upper) else Hex4(h) == 0
  {
    upper := [h[0] < 0x61, h[1] < 0x61, h[2] < 0x61, h[3] < 0x61];
    assert forall i :: 0 <= i < 4 ==> (IsHexLetter(h[i]) <==> HexDigit(h[i]) >= 0);
    if IsHex4(h) {
      DigitsOf(h, upper);
    }
  }

  lemma DigitsOf(h: seq<byte>, upper: seq<bool>)
    requires IsHex4(h) && upper == [h[0] < 0x61, h[1] < 0x61, h[2] < 0x61, h[3] < 0x61]
    ensures h == Digits(Hex4(h), upper)
  {
    hide HexDigit, Digit;
    Nibbles(HexDigit(h[0]), HexDigit(h[1]), HexDigit(h[2]), HexDigit(h[3]));
    DigitOf(h[0]);
    DigitOf(h[1]);
    DigitOf(h[2]);
    DigitOf(h[3]);
  }

  lemma DigitOf(b: byte)
    requires HexDigit(b) >= 0
    ensures Digit(HexDigit(b), b < 0x61) == b
  {
  }

  lemma Nibbles(a: int, b: int, c: int, d: int)
    requires 0 <= a < 16 && 0 <= b < 16 && 0 <= c < 16 && 0 <= d < 16
    ensures var n := ((a * 16 + b) * 16 + c) * 16 + d;
            n / 0x1000 == a && n / 0x100 % 0x10 == b && n / 0x10 % 0x10 == c && n % 0x10 == d
  {
  }

  // ---------------------------------------------------------------- spellings

  /** The letters of the two-byte escapes and the bytes they stand for. */
  const SHORT_ESCAPES: map<byte, byte> := map[
    QUOTE := 0x22, BACKSLASH := 0x5C, SLASH := 0x2F, LOWER_B := 0x08, LOWER_F := 0x0C, LOWER_N := 0x0A,
    LOWER_R := 0x0D, LOWER_T := 0x09]

  /** One character of a text: as it is, by a two-byte escape, or by the digits of its UTF-16 code units. */
  datatype Spelling = Bare(c: int) | Short(letter: byte) | Numeric(c: int, first: seq<bool>, second: seq<bool>) {
    predicate Valid() {
      match this
      case Bare(c) => IsScalar(c) && c >= 0x20 && c != 0x22 && c != 0x5C
      case Short(letter) => letter in SHORT_ESCAPES
      case Numeric(c, first, second) => IsScalar(c) && c != 0 && |first| == 4 && |second| == 4
    }

    function Character(): (c: int)
      requires Valid()
      ensures IsScalar(c) && c != 0
    {
      if Short? then SHORT_ESCAPES[letter] as int else c
    }

    function Text(): seq<byte>
      requires Valid()
    {
      match this
      case Bare(c) => Utf8(c)
      case Short(letter) => [BACKSLASH, letter]
      case Numeric(c, first, second) =>
        if c < 0x10000 then [BACKSLASH, LOWER_U] + Digits(c, first)
        else
          var d := c - 0x10000;
          [BACKSLASH, LOWER_U] + Digits(0xD800 + d / 0x400, first)
          + ([BACKSLASH, LOWER_U] + Digits(0xDC00 + d % 0x400, second))
    }

    /** The elements of a literal that make up the spelling. */
    function Elements(): seq<Element>
      requires Valid()
    {
      match this
      case Bare(c) => Raws(Utf8(c))
      case Short(letter) => [Escape(letter)]
      case Numeric(c, first, second) =>
        if c < 0x10000 then [Unit(Digits(c, first))]
        else
          var d := c - 0x10000;
          [Unit(Digits(0xD800 + d / 0x400, first)), Unit(Digits(0xDC00 + d % 0x400, second))]
    }
  }

  ghost predicate AllValid(ps: seq<Spelling>) {
    forall i :: 0 <= i < |ps| ==> ps[i].Valid()
  }

  function SpelledText(ps: seq<Spelling>): seq<byte>
    requires AllValid(ps)
  {
    if ps == [] then [] else ps[0].Text() + SpelledText(ps[1..])
  }

  function SpelledCharacters(ps: seq<Spelling>): seq<int>
    requires AllValid(ps)
  {
    if ps == [] then [] else [ps[0].Character()] + SpelledCharacters(ps[1..])
  }

  function SpelledElements(ps: seq<Spelling>): seq<Element>
    requires AllValid(ps)
  {
    if ps == [] then [] else ps[0].Elements() + SpelledElements(ps[1..])
  }

  function Raws(s: seq<byte>): (es: seq<Element>)
    ensures |es| == |s|
  {
    if s == [] then [] else [Raw(s[0])] + Raws(s[1..])
  }

  lemma {:induction false} RawsMean(s: seq<byte>, es: seq<Element>, k: seq<byte>)
    requires ValidBody(es) && forall i :: 0 <= i < |s| ==> IsPlain(s[i])
    ensures ValidBody(Raws(s) + es) && Meaning(Raws(s) + es) == s + Meaning(es)
    ensures EmitBody(Raws(s) + es, k) == s + EmitBody(es, k)
  {
    if s == [] {
      Neutral(es);
      Neutral(Meaning(es));
      Neutral(EmitBody(es, k));
    } else {
      RawsMean(s[1..], es, k);
      Associate([Raw(s[0])], Raws(s[1..]), es);
      Behind([Raw(s[0])], Raws(s[1..]) + es);
      Uncons(s);
      Associate([s[0]], s[1..], Meaning(es));
      Associate([s[0]], s[1..], EmitBody(es, k));
    }
  }

  /** The bytes of a character that may stand as it is have no special meaning in a literal. */
  lemma BareIsPlain(c: int)
    requires IsScalar(c) && c >= 0x20 && c != 0x22 && c != 0x5C
    ensures forall i :: 0 <= i < |Utf8(c)| ==> IsPlain(Utf8(c)[i])
  {
  }

  /** A spelling stands for its character, whatever comes after it. */
  lemma SpellingMeans(p: Spelling, es: seq<Element>, k: seq<byte>)
    requires p.Valid() && ValidBody(es)
    ensures ValidBody(p.Elements() + es) && Meaning(p.Elements() + es) == Utf8(p.Character()) + Meaning(es)
    ensures EmitBody(p.Elements() + es, k) == p.Text() + EmitBody(es, k)
  {
    hide Meaning, EmitBody, ValidBody, Utf8, Hex4, Digits, Raws, Combine;
    match p
    case Bare(c) =>
      BareIsPlain(c);
      RawsMean(Utf8(c), es, k);
    case Short(letter) => ShortMeans(letter, es, k);
    case Numeric(c, first, second) =>
      if c < 0x10000 {
        HexRead(c, first);
        UnitMeans(Digits(c, first), es, k);
      } else {
        var d := c - 0x10000;
        HexRead(0xD800 + d / 0x400, first);
        HexRead(0xDC00 + d % 0x400, second);
        Recombined(c);
        PairMeans(Digits(0xD800 + d / 0x400, first), Digits(0xDC00 + d % 0x400, second), es, k);
      }
  }

  lemma ShortMeans(letter: byte, es: seq<Element>, k: seq<byte>)
    requires letter in SHORT_ESCAPES && ValidBody(es)
    ensures ValidBody([Escape(letter)] + es)
    ensures Meaning([Escape(letter)] + es) == Utf8(SHORT_ESCAPES[letter] as int) + Meaning(es)
    ensures EmitBody([Escape(letter)] + es, k) == [BACKSLASH, letter] + EmitBody(es, k)
  {
    Behind([Escape(letter)], es);
  }

  lemma Recombined(c: int)
    requires 0x10000 <= c <= 0x10FFFF
    ensures var d := c - 0x10000;
            && IsHighSurrogate(0xD800 + d / 0x400) && IsLowSurrogate(0xDC00 + d % 0x400)
            && Combine(0xD800 + d / 0x400, 0xDC00 + d % 0x400) == c
  {
  }

  lemma UnitMeans(h: seq<byte>, es: seq<Element>, k: seq<byte>)
    requires Unit(h).Valid() && ValidBody(es) && IsScalar(Hex4(h)) && Hex4(h) != 0
    ensures ValidBody([Unit(h)] + es) && Meaning([Unit(h)] + es) == Utf8(Hex4(h)) + Meaning(es)
    ensures EmitBody([Unit(h)] + es, k) == [BACKSLASH, LOWER_U] + h + EmitBody(es, k)
  {
    hide Hex4;
    Behind([Unit(h)], es);
    Associate([BACKSLASH, LOWER_U], h, EmitBody(es, k));
  }

  lemma PairMeans(h: seq<byte>, l: seq<byte>, es: seq<Element>, k: seq<byte>)
    requires Unit(h).Valid() && Unit(l).Valid() && ValidBody(es)
    requires IsHighSurrogate(Hex4(h)) && IsLowSurrogate(Hex4(l))
    ensures var ps := [Unit(h), Unit(l)] + es;
            && ValidBody(ps) && Meaning(ps) == Utf8(Combine(Hex4(h), Hex4(l))) + Meaning(es)
            && EmitBody(ps, k) == [BACKSLASH, LOWER_U] + h + ([BACKSLASH, LOWER_U] + l) + EmitBody(es, k)
  {
    hide Hex4;
    var u := [BACKSLASH, LOWER_U];
    var ps := [Unit(h), Unit(l)] + es;
    assert ps[1..] == [Unit(l)] + es && ps[2..] == es;
    Behind([Unit(l)], es);
    Associate(u, l, EmitBody(es, k));
    Associate(u, h, u + l + EmitBody(es, k));
    Associate(u + h, u + l, EmitBody(es, k));
  }

  lemma {:induction false} SpellingsMean(ps: seq<Spelling>, k: seq<byte>)
    requires AllValid(ps)
    ensures ValidBody(SpelledElements(ps)) && EmitBody(SpelledElements(ps), k) == SpelledText(ps) + k
    ensures Characters(Meaning(SpelledElements(ps))) == Some(SpelledCharacters(ps))
  {
    if ps == [] {
      Neutral(k);
    } else {
      var es := SpelledElements(ps[1..]);
      SpellingsMean(ps[1..], k);
      SpellingMeans(ps[0], es, k);
      Associate(ps[0].Text(), SpelledText(ps[1..]), k);
      CharactersOne(ps[0].Character(), Meaning(es));
    }
  }

  /**
    However the characters of a text are spelled in a literal, what is stored is the UTF-8 form
    of these characters.
   */
  lemma StoresCharacters(ps: seq<Spelling>, k: seq<byte>)
    requires AllValid(ps)
    ensures var r := ParseString([QUOTE] + (SpelledText(ps) + ([QUOTE] + k)));
            r.Parsed? && r.rest == k && Characters(r.value.text) == Some(SpelledCharacters(ps))
  {
    var es := SpelledElements(ps);
    SpellingsMean(ps, [QUOTE] + k);
    Grammar.CompleteString(es, k);
  }

  /** A byte behind a backslash: the eight two-byte escapes, and otherwise the byte itself. */
  lemma EscapedByte(c: byte, k: seq<byte>)
    requires c != NUL && c != LOWER_U
    ensures ParseString([QUOTE] + ([BACKSLASH, c] + ([QUOTE] + k)))
         == Parsed(String([if c in SHORT_ESCAPES then SHORT_ESCAPES[c] else c]), k)
  {
    var es := [Escape(c)];
    assert es[1..] == [] && Meaning([]) == [];
    assert Meaning(es) == [Unescape(c)] + [];
    assert EmitBody(es, [QUOTE] + k) == [BACKSLASH, c] + ([QUOTE] + k);
    Grammar.CompleteString(es, k);
  }

  /** An escape that stands for no character, alone in a literal, stands for nothing. */
  lemma LoneUnit(h: seq<byte>, k: seq<byte>)
    requires Unit(h).Valid() && (!IsScalar(Hex4(h)) || Hex4(h) == 0)
    ensures ParseString([QUOTE] + ([BACKSLASH, LOWER_U] + (h + ([QUOTE] + k)))) == Parsed(String([]), k)
  {
    hide Hex4, Utf8, ParseString;
    var es := [Unit(h)];
    assert es[1..] == [] && Meaning([]) == [];
    assert Meaning(es) == [] + [];
    assert EmitBody(es, [QUOTE] + k) == [BACKSLASH, LOWER_U] + (h + ([QUOTE] + k));
    Grammar.CompleteString(es, k);
  }

  /** So does a high surrogate with the escape after it, when that is not a low surrogate. */
  lemma BrokenPair(h: seq<byte>, l: seq<byte>, k: seq<byte>)
    requires Unit(h).Valid() && Unit(l).Valid() && IsHighSurrogate(Hex4(h)) && !IsLowSurrogate(Hex4(l))
    ensures var u := [BACKSLASH, LOWER_U];
            ParseString([QUOTE] + (u + (h + (u + (l + ([QUOTE] + k)))))) == Parsed(String([]), k)
  {
    hide Hex4, Utf8, ParseString;
    var es := [Unit(h), Unit(l)];
    assert es[1..] == [Unit(l)] && es[2..] == [] && es[1..][1..] == [] && Meaning([]) == [];
    assert Meaning(es) == [] + [];
    assert EmitBody(es[1..], [QUOTE] + k) == [BACKSLASH, LOWER_U] + (l + ([QUOTE] + k));
    Grammar.CompleteString(es, k);
  }

  // ---------------------------------------------------------------- the spelling of the printer

  lemma {:induction false} PrintJoined(a: seq<byte>, b: seq<byte>)
    ensures PrintBytes(a + b) == PrintBytes(a) + PrintBytes(b)
  {
    if a == [] {
      Neutral(b);
      Neutral(PrintBytes(b));
    } else {
      PrintJoined(a[1..], b);
      DropIn(a, b, 1);
      Associate(PrintByte(a[0]), PrintBytes(a[1..]), PrintBytes(b));
    }
  }

  /** Each byte is printed by its two-byte escape, by four lower-case digits, or as it is. */
  lemma PrintedByte(b: byte)
    ensures forall letter :: letter in SHORT_ESCAPES && letter != SLASH && SHORT_ESCAPES[letter] == b ==>
              PrintBytes([b]) == [BACKSLASH, letter]
    ensures b < 0x20 && b !in SHORT_ESCAPES.Values ==>
              PrintBytes([b]) == [BACKSLASH, LOWER_U] + Digits(b as int, [false, false, false, false])
    ensures b >= 0x20 && (b == SLASH || b !in SHORT_ESCAPES.Values) ==> PrintBytes([b]) == [b]
  {
    assert PrintBytes([b]) == PrintByte(b) by {
      assert [b][1..] == [];
      Neutral(PrintByte(b));
    }
    assert forall letter :: letter in SHORT_ESCAPES ==> SHORT_ESCAPES[letter] in SHORT_ESCAPES.Values;
    if b == SLASH {
    } else if EscapeLetter(b) != NUL {
      assert SHORT_ESCAPES[EscapeLetter(b)] == b;
    }
  }

  lemma {:induction false} BarePrinted(s: seq<byte>)
    requires forall i :: 0 <= i < |s| ==> s[i] >= 0x20 && s[i] != QUOTE && s[i] != BACKSLASH
    ensures PrintBytes(s) == s
  {
    if s != [] {
      BarePrinted(s[1..]);
      Uncons(s);
    }
  }

  /** A character takes at most as many printed bytes as its `\u` escapes. */
  lemma PrintedLength(c: int)
    requires 0 < c <= 0x10FFFF
    ensures |PrintBytes(Utf8(c))| <= 6
  {
    if c >= 0x80 {
      BarePrinted(Utf8(c));
    } else {
      assert Utf8(c)[1..] == [];
    }
  }

  lemma ElementPrinted(e: Element)
    requires e.IsRfc()
    ensures e.Valid() && |PrintBytes(MeaningOf(e))| <= |e.Emit([])|
  {
    if e.Unit? {
      if IsScalar(e.Code()) && e.Code() != 0 {
        PrintedLength(e.Code());
      }
    } else {
      assert MeaningOf(e)[1..] == [];
    }
  }

  lemma EmitLength(e: Element, k: seq<byte>)
    requires e.Valid()
    ensures |e.Emit(k)| == |e.Emit([])| + |k|
  {
  }

  /** No literal of RFC 8259 for the same bytes is shorter than the printed one. */
  lemma {:induction false} Shortest(es: seq<Element>)
    requires RfcBody(es)
    ensures ValidBody(es) && |PrintBytes(Meaning(es))| <= |EmitBody(es, [])|
    decreases |es|
  {
    forall i | 0 <= i < |es|
      ensures es[i].Valid()
    {
      ElementPrinted(es[i]);
    }
    if es != [] {
      EmitLength(es[0], EmitBody(es[1..], []));
      if es[0].Unit? && IsHighSurrogate(es[0].Code()) && |es| > 1 && es[1].Unit? {
        Shortest(es[2..]);
        EmitLength(es[1], EmitBody(es[2..], []));
        assert es[1..][1..] == es[2..];
        var c := if IsLowSurrogate(es[1].Code()) then Utf8(Combine(es[0].Code(), es[1].Code())) else [];
        if c != [] {
          PrintedLength(Combine(es[0].Code(), es[1].Code()));
        }
        PrintJoined(c, Meaning(es[2..]));
      } else {
        Shortest(es[1..]);
        ElementPrinted(es[0]);
        PrintJoined(MeaningOf(es[0]), Meaning(es[1..]));
      }
    }
  }
}
