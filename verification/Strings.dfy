/**
  String literals.  The first half is what the two passes of `parse_string` do on the
  bytes after the opening quote; the second half gives the same literal as a sequence of
  grammar elements (section 7 of RFC 8259) with their meaning.
 */
module Strings {
  import opened Bytes
  import opened Unicode
  import opened Wrappers

  function HexDigit(b: byte): (r: int)
    ensures -1 <= r < 16
  {
    if ZERO <= b <= NINE then b as int - ZERO as int
    else if 0x41 <= b <= 0x46 then 10 + (b as int - 0x41)
    else if 0x61 <= b <= 0x66 then 10 + (b as int - 0x61)
    else -1
  }

  predicate IsHex4(h: seq<byte>) {
    |h| == 4 && HexDigit(h[0]) >= 0 && HexDigit(h[1]) >= 0 && HexDigit(h[2]) >= 0 && HexDigit(h[3]) >= 0
  }

  /** The code unit written by four hexadecimal digits; 0 when one of them is not a digit. */
  function Hex4(h: seq<byte>): (r: int)
    requires |h| == 4
    ensures 0 <= r <= 0xFFFF
  {
    if IsHex4(h) then
      ((HexDigit(h[0]) * 16 + HexDigit(h[1])) * 16 + HexDigit(h[2])) * 16 + HexDigit(h[3])
    else 0
  }

  /** The byte a one-letter escape stands for. */
  function Unescape(c: byte): byte {
    if c == LOWER_B then BS
    else if c == LOWER_F then FF
    else if c == LOWER_N then LF
    else if c == LOWER_R then CR
    else if c == LOWER_T then TAB
    else c
  }

  predicate IsPlain(b: byte) {
    b != NUL && b != QUOTE && b != BACKSLASH
  }

  predicate AtEnd(s: seq<byte>) {
    Head(s) == QUOTE || Head(s) == NUL
  }

  /**
    No escape of the literal body `s` is cut short: a byte follows each backslash and four
    bytes that are neither quotes nor backslashes follow each `\u`.
   */
  predicate Complete(s: seq<byte>) {
    if AtEnd(s) then true
    else if s[0] != BACKSLASH then Complete(s[1..])
    else if Head(s[1..]) == NUL then false
    else if s[1] != LOWER_U then Complete(s[2..])
    else |s| >= 6 && IsPlain(s[2]) && IsPlain(s[3]) && IsPlain(s[4]) && IsPlain(s[5]) && Complete(s[6..])
  }

  /** Counting on from inside an escape stays on complete text. */
  lemma CompleteTail(s: seq<byte>)
    requires Complete(s) && !AtEnd(s)
    ensures if s[0] != BACKSLASH then Complete(s[1..]) else |s| >= 2 && Complete(s[2..])
  {
    if s[0] == BACKSLASH && s[1] == LOWER_U {
      var a, b, c, d := s[2..], s[3..], s[4..], s[5..];
      assert d[1..] == s[6..] && c[1..] == d && b[1..] == c && a[1..] == b;
      assert Complete(d) && Complete(c) && Complete(b);
    }
  }

  /** The counting pass: how often `len` is incremented, and where the pass stops. */
  function Count(s: seq<byte>): (r: (nat, seq<byte>))
    ensures AtEnd(r.1) && |r.1| <= |s| && r.0 >= 0
    decreases |s|
  {
    if AtEnd(s) then (0, s)
    else
      var (n, k) := Count(if s[0] != BACKSLASH then s[1..] else if |s| == 1 then [] else s[2..]);
      (1 + n, k)
  }

  lemma {:induction false} CountSuffix(s: seq<byte>)
    ensures var k := Count(s).1; k == s[|s| - |k|..]
    decreases |s|
  {
    var k := Count(s).1;
    if AtEnd(s) {
      assert s[0..] == s;
    } else {
      var n := if s[0] != BACKSLASH || |s| == 1 then 1 else 2;
      CountSuffix(s[n..]);
      Slices(s, n, |s| - |k|);
    }
  }

  /**
    One round of the decoding pass: the bytes it writes and the number of bytes it reads.
    A literal that is not complete is taken to end where it is cut short.
   */
  function Step(s: seq<byte>): (r: (seq<byte>, nat))
    requires !AtEnd(s)
    ensures 1 <= r.1 <= |s|
  {
    if s[0] != BACKSLASH then ([s[0]], 1)
    else if |s| == 1 then ([], 1)
    else if s[1] != LOWER_U then ([Unescape(s[1])], 2)
    else if |s| < 6 then ([], |s|)
    else
      var uc := Hex4(s[2..6]);
      if IsLowSurrogate(uc) || uc == 0 then ([], 6)
      else if !IsHighSurrogate(uc) then (Utf8(uc), 6)
      else if Head(s[6..]) != BACKSLASH || Head(s[7..]) != LOWER_U then ([], 6)
      else if |s| < 12 then ([], |s|)
      else
        var uc2 := Hex4(s[8..12]);
        (if IsLowSurrogate(uc2) then Utf8(Combine(uc, uc2)) else [], 12)
  }

  /** The decoding pass: the bytes written before the terminator, and where the pass stops. */
  function Decode(s: seq<byte>): (seq<byte>, seq<byte>) {
    if AtEnd(s) then ([], s)
    else
      var (bytes, n) := Step(s);
      var (more, k) := Decode(s[n..]);
      (bytes + more, k)
  }

  lemma {:induction false} DecodeStops(s: seq<byte>)
    ensures |Decode(s).1| <= |s|
    decreases |s|
  {
    if !AtEnd(s) {
      DecodeStops(s[Step(s).1..]);
    }
  }

  lemma StepStaysComplete(s: seq<byte>)
    requires Complete(s) && !AtEnd(s)
    ensures Complete(s[Step(s).1..]) && NulFree(Step(s).0)
  {
    if Step(s).1 == 12 {
      assert s[6..][0] == s[6] && s[6..][1] == s[7];
      assert s[6..][6..] == s[12..];
    }
  }

  /**
    The passes agree: they stop at the same byte, and the decoding pass never writes more
    bytes than the counting pass counted.
   */
  lemma {:induction false} PassesAgree(s: seq<byte>)
    requires Complete(s)
    ensures Decode(s).1 == Count(s).1
    ensures |Decode(s).0| <= Count(s).0
    ensures NulFree(Decode(s).0)
  {
    if !AtEnd(s) {
      StepStaysComplete(s);
      PassesAgree(s[Step(s).1..]);
      CountStep(s);
    }
  }

  /** The counting pass counts at least as many bytes as one round of decoding writes. */
  lemma {:induction false} CountStep(s: seq<byte>)
    requires Complete(s) && !AtEnd(s)
    ensures var (bytes, n) := Step(s);
            Count(s).1 == Count(s[n..]).1 && Count(s).0 >= |bytes| + Count(s[n..]).0
  {
    var n := Step(s).1;
    if n >= 6 {
      CountHex(s);
      if n == 12 {
        var s1 := s[6..];
        assert s1[0] == s[6] && s1[1] == s[7];
        CountHex(s1);
        assert s1[6..] == s[12..];
      }
    }
  }

  lemma {:induction false} CountHex(s: seq<byte>)
    requires |s| >= 6 && s[0] == BACKSLASH && IsPlain(s[2]) && IsPlain(s[3]) && IsPlain(s[4]) && IsPlain(s[5])
    ensures Count(s) == (5 + Count(s[6..]).0, Count(s[6..]).1)
  {
    var a, b, c, d := s[2..], s[3..], s[4..], s[5..];
    assert a[1..] == b && b[1..] == c && c[1..] == d && d[1..] == s[6..];
    CountPlain(a);
    CountPlain(b);
    CountPlain(c);
    CountPlain(d);
  }

  lemma {:induction false} CountPlain(s: seq<byte>)
    requires s != [] && IsPlain(s[0])
    ensures Count(s) == (1 + Count(s[1..]).0, Count(s[1..]).1)
  {
  }

  /** What comes after the closing quote of a literal decides nothing about its body. */
  lemma {:induction false} CompleteCut(x: seq<byte>, y: seq<byte>, z: seq<byte>)
    requires Count(x + ([QUOTE] + y)).1 == [QUOTE] + y
    ensures Complete(x + ([QUOTE] + y)) <==> Complete(x + ([QUOTE] + z))
    ensures Count(x + ([QUOTE] + z)).1 == [QUOTE] + z
    decreases |x|
  {
    var s, r := x + ([QUOTE] + y), x + ([QUOTE] + z);
    if x == [] {
      Neutral([QUOTE] + y);
      Neutral([QUOTE] + z);
    } else {
      var n := if x[0] != BACKSLASH then 1 else 2;
      DropIn(x, [QUOTE] + y, n);
      DropIn(x, [QUOTE] + z, n);
      CompleteCut(x[n..], y, z);
      if n == 2 && |x| >= 6 && IsPlain(x[2]) && IsPlain(x[3]) && IsPlain(x[4]) && IsPlain(x[5]) {
        DropIn(x, [QUOTE] + y, 6);
        DropIn(x, [QUOTE] + z, 6);
        CountHex(s);
        CompleteCut(x[6..], y, z);
      }
    }
  }

  // ------------------------------------------------------- grammar elements

  datatype Element = Raw(b: byte) | Escape(c: byte) | Unit(hex: seq<byte>) {
    predicate Valid() {
      match this
      case Raw(b) => IsPlain(b)
      case Escape(c) => c != NUL && c != LOWER_U
      case Unit(h) => |h| == 4 && IsPlain(h[0]) && IsPlain(h[1]) && IsPlain(h[2]) && IsPlain(h[3])
    }

    /** The elements of section 7 of RFC 8259. */
    predicate IsRfc() {
      match this
      case Raw(b) => b >= 0x20 && IsPlain(b)
      case Escape(c) =>
        c == QUOTE || c == BACKSLASH || c == SLASH || c == LOWER_B || c == LOWER_F || c == LOWER_N || c == LOWER_R
        || c == LOWER_T
      case Unit(h) => IsHex4(h)
    }

    function Emit(k: seq<byte>): (r: seq<byte>)
      ensures |r| > |k|
    {
      match this
      case Raw(b) => [b] + k
      case Escape(c) => [BACKSLASH, c] + k
      case Unit(h) => [BACKSLASH, LOWER_U] + (h + k)
    }

    /** The UTF-16 code unit of a `\u` escape. */
    function Code(): int
      requires Unit? && |hex| == 4
    {
      Hex4(hex)
    }
  }

  ghost predicate ValidBody(es: seq<Element>) {
    forall i :: 0 <= i < |es| ==> es[i].Valid()
  }

  ghost predicate RfcBody(es: seq<Element>) {
    forall i :: 0 <= i < |es| ==> es[i].IsRfc()
  }

  /** The body of a literal followed by `k`. */
  function EmitBody(es: seq<Element>, k: seq<byte>): seq<byte> {
    if es == [] then k else es[0].Emit(EmitBody(es[1..], k))
  }

  /**
    The bytes a body stands for.  A NUL, an unpaired surrogate, and both units of a high
    surrogate followed by something else than a low one stand for nothing.
   */
  function Meaning(es: seq<Element>): seq<byte>
    requires ValidBody(es)
  {
    if es == [] then []
    else
      if es[0].Unit? && IsHighSurrogate(es[0].Code()) && |es| > 1 && es[1].Unit? then
        (if IsLowSurrogate(es[1].Code()) then Utf8(Combine(es[0].Code(), es[1].Code())) else []) + Meaning(es[2..])
      else MeaningOf(es[0]) + Meaning(es[1..])
  }

  lemma EmitBodyAppend(es: seq<Element>, k: seq<byte>)
    ensures EmitBody(es, k) == EmitBody(es, []) + k
  {
  }

  /** A body followed by its closing quote is decoded to its meaning. */
  lemma {:induction false} DecodesBody(es: seq<Element>, k: seq<byte>)
    requires ValidBody(es) && (Head(k) == QUOTE || k == [])
    ensures Complete(EmitBody(es, k)) && Decode(EmitBody(es, k)) == (Meaning(es), k)
    decreases |es|
  {
    hide Utf8, Hex4;
    if es != [] {
      var s1 := EmitBody(es[1..], k);
      DecodesBody(es[1..], k);
      if es[0].Unit? && IsHighSurrogate(es[0].Code()) && |es| > 1 && es[1].Unit? {
        assert es[1..][1..] == es[2..];
        DecodesBody(es[2..], k);
        ReadsPair(es[0], es[1], EmitBody(es[2..], k));
      } else {
        if es[0].Unit? && IsHighSurrogate(es[0].Code()) {
          NotUnit(es[1..], k);
        }
        ReadsElement(es[0], s1);
      }
    }
  }

  lemma NotUnit(es: seq<Element>, k: seq<byte>)
    requires ValidBody(es) && (es != [] ==> !es[0].Unit?) && (Head(k) == QUOTE || k == [])
    ensures var s := EmitBody(es, k); !StartsUnit(s)
  {
  }

  predicate StartsUnit(s: seq<byte>) {
    |s| >= 2 && s[0] == BACKSLASH && s[1] == LOWER_U
  }

  /** The bytes of a single element that is not the first half of a pair. */
  function MeaningOf(e: Element): seq<byte>
    requires e.Valid()
  {
    match e
    case Raw(b) => [b]
    case Escape(c) => [Unescape(c)]
    case Unit(_) => if IsScalar(e.Code()) && e.Code() != 0 then Utf8(e.Code()) else []
  }

  lemma ReadsElement(e: Element, k: seq<byte>)
    requires e.Valid() && Complete(k)
    requires e.Unit? && IsHighSurrogate(e.Code()) ==> !StartsUnit(k)
    ensures var s := e.Emit(k);
            !AtEnd(s) && Complete(s) && Step(s) == (MeaningOf(e), |s| - |k|) && s[|s| - |k|..] == k
  {
    if e.Unit? {
      var s := e.Emit(k);
      assert s[2..6] == e.hex && s[6..] == k;
      assert |k| >= 2 ==> s[7..][0] == k[1];
    } else {
      assert e.Emit(k)[if e.Raw? then 1 else 2..] == k;
    }
  }

  lemma ReadsPair(e1: Element, e2: Element, k: seq<byte>)
    requires e1.Valid() && e2.Valid() && Complete(k) && e1.Unit? && e2.Unit? && IsHighSurrogate(e1.Code())
    ensures var s := e1.Emit(e2.Emit(k));
            && !AtEnd(s) && Complete(s) && |s| >= 12 && s[12..] == k
            && Step(s) == (if IsLowSurrogate(e2.Code()) then Utf8(Combine(e1.Code(), e2.Code())) else [], 12)
  {
    var s1 := e2.Emit(k);
    var s := e1.Emit(s1);
    assert s1[2..6] == e2.hex && s1[6..] == k;
    assert s[2..6] == e1.hex && s[6..] == s1;
    assert s[8..12] == s1[2..6] && s[12..] == s1[6..];
    assert s[7..][0] == s1[1];
  }

  /** Conversely, a complete body is the text of some sequence of elements. */
  lemma {:induction false} BodyRead(s: seq<byte>) returns (es: seq<Element>)
    requires Complete(s)
    ensures ValidBody(es) && EmitBody(es, Count(s).1) == s
    decreases |s|
  {
    es := [];
    if !AtEnd(s) {
      var e, n := Raw(s[0]), 1;
      if s[0] == BACKSLASH {
        e, n := Escape(s[1]), 2;
        if s[1] == LOWER_U {
          e, n := Unit(s[2..6]), 6;
          CountHex(s);
        }
      }
      assert e.Emit(s[n..]) == s;
      var more := BodyRead(s[n..]);
      es := [e] + more;
    }
  }

  // ------------------------------------------------------- characters

  /** The bytes of the elements before the first `\u` escape. */
  function LeadingBytes(es: seq<Element>): seq<byte>
    requires ValidBody(es)
  {
    if es == [] || es[0].Unit? then [] else MeaningOf(es[0]) + LeadingBytes(es[1..])
  }

  /**
    The characters of a literal: unescaped bytes are read as UTF-8 (section 3 of RFC 3629),
    `\u` escapes as UTF-16 (section 2.2 of RFC 2781) with NULs and ill-formed units dropped.
    There are none when the unescaped bytes are not well-formed.
   */
  function LiteralCharacters(es: seq<Element>): Option<seq<int>>
    requires ValidBody(es)
    decreases |es|
  {
    if es == [] then Some([])
    else if !es[0].Unit? then
      LeadingLength(es);
      var (c, n) := DecodeUtf8(LeadingBytes(es));
      if n == 0 then None else Prepend([c], LiteralCharacters(es[n..]))
    else if IsHighSurrogate(es[0].Code()) && |es| > 1 && es[1].Unit? then
      Prepend(if IsLowSurrogate(es[1].Code()) then [Combine(es[0].Code(), es[1].Code())] else [],
              LiteralCharacters(es[2..]))
    else
      Prepend(if IsScalar(es[0].Code()) && es[0].Code() != 0 then [es[0].Code()] else [],
              LiteralCharacters(es[1..]))
  }

  function Prepend(cs: seq<int>, more: Option<seq<int>>): Option<seq<int>> {
    if more.None? then None else Some(cs + more.value)
  }

  lemma LeadingLength(es: seq<Element>)
    requires ValidBody(es)
    ensures |LeadingBytes(es)| <= |es|
  {
  }

  /** The stored bytes are the UTF-8 form of the characters of the literal. */
  lemma {:induction false} Transcodes(es: seq<Element>)
    requires ValidBody(es) && LiteralCharacters(es).Some?
    ensures Characters(Meaning(es)) == LiteralCharacters(es)
    decreases |es|
  {
    if es == [] {
    } else if !es[0].Unit? {
      LeadingLength(es);
      var (c, n) := DecodeUtf8(LeadingBytes(es));
      LeadingPrefix(es);
      MeaningFrom(es, n);
      DecodePrefix(LeadingBytes(es), Meaning(es));
      Transcodes(es[n..]);
    } else if IsHighSurrogate(es[0].Code()) && |es| > 1 && es[1].Unit? {
      Transcodes(es[2..]);
      if IsLowSurrogate(es[1].Code()) {
        CharactersOne(Combine(es[0].Code(), es[1].Code()), Meaning(es[2..]));
      }
      Nothing(Meaning(es[2..]), LiteralCharacters(es[2..]));
    } else {
      Transcodes(es[1..]);
      if IsScalar(es[0].Code()) && es[0].Code() != 0 {
        CharactersOne(es[0].Code(), Meaning(es[1..]));
      }
      Nothing(Meaning(es[1..]), LiteralCharacters(es[1..]));
    }
  }

  lemma Nothing(s: seq<byte>, o: Option<seq<int>>)
    ensures [] + s == s && Prepend([], o) == o
  {
    if o.Some? {
      assert [] + o.value == o.value;
    }
  }

  lemma CharactersOne(c: int, s: seq<byte>)
    requires IsScalar(c) && c != 0
    ensures Characters(Utf8(c) + s) == Prepend([c], Characters(s))
  {
    EncodeDecode(c, s);
    assert (Utf8(c) + s)[|Utf8(c)|..] == s;
  }

  lemma {:induction false} LeadingPrefix(es: seq<Element>)
    requires ValidBody(es)
    ensures LeadingBytes(es) <= Meaning(es)
  {
    hide MeaningOf;
    if es != [] && !es[0].Unit? {
      LeadingPrefix(es[1..]);
      var m, l := Meaning(es[1..]), LeadingBytes(es[1..]);
      assert m == l + m[|l|..];
      assert Meaning(es) == (MeaningOf(es[0]) + l) + m[|l|..];
    }
  }

  lemma {:induction false} MeaningFrom(es: seq<Element>, n: nat)
    requires ValidBody(es) && n <= |LeadingBytes(es)| && n <= |es|
    ensures n <= |Meaning(es)| && Meaning(es)[n..] == Meaning(es[n..])
    decreases n
  {
    if n == 0 {
      assert es[0..] == es;
    } else {
      var rest := es[1..];
      MeaningFrom(rest, n - 1);
      Drop(es, n);
      Behind(MeaningOf(es[0]), Meaning(rest));
      Drop(Meaning(es), n);
    }
  }
}
