/**
  Number tokens.  `Token` is a derivation of the number grammar that `parse_number`
  accepts (section 6 of RFC 8259 is the part `IsRfc`), `Value` its rational value, and
  `ParseNumber` what the C function computes over exact arithmetic.
 */
module Numbers {
  import opened Bytes

  datatype Sign = NoSign | Plus | Minus

  datatype Exponent = NoExponent | Exponent(letter: byte, sign: Sign, digits: seq<byte>) {
    predicate Valid() {
      Exponent? ==> (letter == LOWER_E || letter == UPPER_E) && AllDigits(digits)
    }

    function Emit(k: seq<byte>): seq<byte> {
      if NoExponent? then k else [letter] + (SignText(sign) + (digits + k))
    }

    function Value(): int {
      if NoExponent? then 0 else if sign == Minus then -DigitsValue(digits) else DigitsValue(digits)
    }

    /** Whether the first bytes of `k` would be read as part of the exponent. */
    predicate ExtendedBy(k: seq<byte>) {
      if NoExponent? then Head(k) == LOWER_E || Head(k) == UPPER_E
      else IsDigit(Head(k)) || (sign == NoSign && digits == [] && (Head(k) == PLUS || Head(k) == MINUS))
    }
  }

  /** [ "-" ] [ "0" ] [ digits not starting with "0" ] [ "." digits ] [ exponent ] */
  datatype Token = Token(negative: bool, zero: bool, digits: seq<byte>, fraction: seq<byte>, exponent: Exponent) {
    predicate Valid() {
      && (negative || zero || digits != [])
      && AllDigits(digits) && (digits != [] ==> digits[0] != ZERO)
      && AllDigits(fraction)
      && exponent.Valid()
    }

    /** The tokens of section 6 of RFC 8259. */
    predicate IsRfc() {
      && Valid()
      && (zero <==> digits == [])
      && (exponent.Exponent? ==> exponent.digits != [])
    }

    /** The token followed by `k`. */
    function Emit(k: seq<byte>): seq<byte> {
      (if negative then [MINUS] else []) + EmitWhole(k)
    }

    function EmitWhole(k: seq<byte>): seq<byte> {
      (if zero then [ZERO] else []) + (digits + EmitFraction(fraction, exponent.Emit(k)))
    }

    /** The meaning of the token: its sign, integer part and fraction, scaled by its exponent. */
    function Value(): real {
      var magnitude := DigitsValue(digits) as real + Scale(DigitsValue(fraction) as real, -|fraction|);
      Scale(if negative then -magnitude else magnitude, exponent.Value())
    }

    /** Whether the first bytes of `k` would be read as a longer version of this token. */
    predicate ExtendedBy(k: seq<byte>) {
      || exponent.ExtendedBy(k)
      || (exponent.NoExponent?
          && (if fraction != [] then IsDigit(Head(k))
              else (Head(k) == DOT && IsDigit(Head(k[1..])))
                   || (IsDigit(Head(k)) && (digits == [] && zero ==> Head(k) != ZERO))))
    }

    /** What `parse_number` gathers from this token. */
    function Reading(): Reading {
      Gathered(negative, digits, fraction, exponent.Value())
    }
  }

  function EmitFraction(fraction: seq<byte>, k: seq<byte>): seq<byte> {
    (if fraction == [] then [] else [DOT] + fraction) + k
  }

  function SignText(s: Sign): seq<byte> {
    match s
    case NoSign => []
    case Plus => [PLUS]
    case Minus => [MINUS]
  }

  /** The natural number written in decimal by `ds`. */
  function DigitsValue(ds: seq<byte>): int {
    if ds == [] then 0 else 10 * DigitsValue(ds[..|ds| - 1]) + (ds[|ds| - 1] as int - ZERO as int)
  }

  /** The rational number `n` times ten to the `e`. */
  function Scale(n: real, e: int): real
    decreases if e < 0 then -e else e
  {
    if e == 0 then n else if e > 0 then Scale(n * 10.0, e - 1) else Scale(n / 10.0, e + 1)
  }

  function Span(s: seq<byte>): (n: nat)
    ensures n <= |s|
  {
    if s != [] && IsDigit(s[0]) then 1 + Span(s[1..]) else 0
  }

  /** The digits `ds` appended one by one to the number `n`. */
  function Accumulate(n: real, ds: seq<byte>): real {
    if ds == [] then n
    else Accumulate(n, ds[..|ds| - 1]) * 10.0 + (ds[|ds| - 1] as int - ZERO as int) as real
  }

  /** What the loops of `parse_number` gather before the final scaling. */
  datatype Reading = Gathered(negative: bool, whole: seq<byte>, fraction: seq<byte>, subscale: int) {
    /** The sign, and the digits scaled by a power of ten for the fraction and the exponent. */
    function Value(): real {
      var n := Accumulate(Accumulate(0.0, whole), fraction);
      Scale(if negative then -n else n, -|fraction| + subscale)
    }
  }

  /** The number at the start of `s`, and what follows it. */
  function ParseNumber(s: seq<byte>): (r: (Reading, seq<byte>))
    ensures |r.1| <= |s|
    ensures Head(s) == MINUS || IsDigit(Head(s)) ==> |r.1| < |s|
  {
    var (negative, whole, s3) := ParseWhole(s);
    var (fraction, s4) := ParseFraction(s3);
    var (subscale, rest) := ParseExponent(s4);
    (Gathered(negative, whole, fraction, subscale), rest)
  }

  /** The sign, the digits after an optional zero, and what follows them. */
  function ParseWhole(s: seq<byte>): (r: (bool, seq<byte>, seq<byte>))
    ensures |r.2| <= |s|
    ensures Head(s) == MINUS || IsDigit(Head(s)) ==> |r.2| < |s|
  {
    var negative := Head(s) == MINUS;
    var s1 := if negative then s[1..] else s;
    var s2 := if Head(s1) == ZERO then s1[1..] else s1;
    var n := if Head(s2) == ZERO then 0 else Span(s2);
    (negative, s2[..n], s2[n..])
  }

  function ParseFraction(s: seq<byte>): (r: (seq<byte>, seq<byte>))
    ensures |r.1| <= |s|
  {
    var places := if Head(s) == DOT then Span(s[1..]) else 0;
    if places > 0 then (s[1..1 + places], s[1 + places..]) else ([], s)
  }

  function ParseExponent(s: seq<byte>): (r: (int, seq<byte>))
    ensures |r.1| <= |s|
  {
    if Head(s) == LOWER_E || Head(s) == UPPER_E then
      var s1 := s[1..];
      var s2 := if Head(s1) == PLUS || Head(s1) == MINUS then s1[1..] else s1;
      var n := Span(s2);
      var subscale := DigitsValue(s2[..n]);
      (if Head(s1) == MINUS then -subscale else subscale, s2[n..])
    else
      (0, s)
  }

  // ---------------------------------------------------------------- lemmas

  lemma {:induction false} Spanned(s: seq<byte>)
    ensures var n := Span(s); AllDigits(s[..n]) && !IsDigit(Head(s[n..]))
  {
    if s != [] && IsDigit(s[0]) {
      Spanned(s[1..]);
      var n := Span(s);
      assert s[n..] == s[1..][n - 1..] && s[..n] == [s[0]] + s[1..][..n - 1];
    }
  }

  lemma {:induction false} SpanOf(ds: seq<byte>, k: seq<byte>)
    requires AllDigits(ds) && !IsDigit(Head(k))
    ensures Span(ds + k) == |ds|
  {
    if ds == [] {
      assert ds + k == k;
    } else {
      assert (ds + k)[1..] == ds[1..] + k;
      SpanOf(ds[1..], k);
    }
  }

  lemma {:induction false} AccumulateValue(n: real, ds: seq<byte>)
    ensures Accumulate(n, ds) == Scale(n, |ds|) + DigitsValue(ds) as real
  {
    if ds != [] {
      AccumulateValue(n, ds[..|ds| - 1]);
      ScaleTwice(n, |ds| - 1, 1);
      ScaleTwice(n, 1, |ds| - 1);
      assert Scale(Scale(n, |ds| - 1), 1) == Scale(n, |ds| - 1) * 10.0;
    }
  }

  lemma {:induction false} ScaleTwice(n: real, a: int, b: int)
    ensures Scale(Scale(n, a), b) == Scale(n, a + b)
    decreases if a < 0 then -a else a
  {
    if a > 0 {
      ScaleTwice(n * 10.0, a - 1, b);
      ScaleUp(n, a - 1 + b);
    } else if a < 0 {
      ScaleTwice(n / 10.0, a + 1, b);
      ScaleUp(n / 10.0, a + b);
    }
  }

  lemma ScaleUp(n: real, e: int)
    ensures Scale(n * 10.0, e) == Scale(n, e + 1)
  {
    if e < 0 {
      assert n * 10.0 / 10.0 == n;
    }
  }

  lemma {:induction false} ScaleSum(m: real, n: real, e: int)
    ensures Scale(m + n, e) == Scale(m, e) + Scale(n, e)
    decreases if e < 0 then -e else e
  {
    if e > 0 {
      ScaleSum(m * 10.0, n * 10.0, e - 1);
    } else if e < 0 {
      ScaleSum(m / 10.0, n / 10.0, e + 1);
      assert (m + n) / 10.0 == m / 10.0 + n / 10.0;
    }
  }

  lemma {:induction false} ScaleZero(e: int)
    ensures Scale(0.0, e) == 0.0
    decreases if e < 0 then -e else e
  {
    if e > 0 {
      ScaleZero(e - 1);
    } else if e < 0 {
      ScaleZero(e + 1);
    }
  }

  /** Collecting the digits first and scaling once at the end gives the rational value. */
  lemma ReadingValue(t: Token)
    ensures t.Reading().Value() == t.Value()
  {
    var w, f, places := DigitsValue(t.digits) as real, DigitsValue(t.fraction) as real, |t.fraction|;
    var n := Accumulate(Accumulate(0.0, t.digits), t.fraction);
    AccumulateValue(0.0, t.digits);
    ScaleZero(|t.digits|);
    AccumulateValue(w, t.fraction);
    ScaleSum(Scale(w, places), f, -places);
    ScaleTwice(w, places, -places);
    ScaleSum(n, -n, -places);
    ScaleZero(-places);
    ScaleTwice(if t.negative then -n else n, -places, t.exponent.Value());
  }

  /** `x`, multiplied by ten `n` times. */
  function Tens(x: real, n: nat): real {
    if n == 0 then x else 10.0 * Tens(x, n - 1)
  }

  lemma {:induction false} ScaleIs(x: real, e: int)
    ensures e >= 0 ==> Scale(x, e) == Tens(x, e)
    ensures e <= 0 ==> Tens(Scale(x, e), -e) == x
    decreases if e < 0 then -e else e
  {
    if e > 0 {
      ScaleIs(x, e - 1);
      ScaleTwice(x, e - 1, 1);
      ScaleOnce(Scale(x, e - 1));
    } else if e < 0 {
      ScaleIs(x / 10.0, e + 1);
    }
  }

  lemma ScaleOnce(x: real)
    ensures Scale(x, 1) == x * 10.0
  {
    assert Scale(x * 10.0, 0) == x * 10.0;
  }

  lemma {:induction false} AccumulateAppend(n: real, a: seq<byte>, b: seq<byte>)
    ensures Accumulate(Accumulate(n, a), b) == Accumulate(n, a + b)
  {
    if b == [] {
      Neutral(a);
    } else {
      assert (a + b)[..|a + b| - 1] == a + b[..|b| - 1];
      AccumulateAppend(n, a, b[..|b| - 1]);
    }
  }

  /** The first digit counts ten times as much for each digit behind it. */
  lemma {:induction false} LeadingDigit(d: byte, ds: seq<byte>)
    ensures DigitsValue([]) == 0
    ensures DigitsValue([d] + ds) as real == Tens((d as int - 0x30) as real, |ds|) + DigitsValue(ds) as real
  {
    var s := [d] + ds;
    if ds == [] {
      assert s[..|s| - 1] == [];
    } else {
      var init := ds[..|ds| - 1];
      LeadingDigit(d, init);
      assert s[..|s| - 1] == [d] + init;
    }
  }

  /**
    The value of a token is the number its digits make up without the point, multiplied or
    divided by ten as often as the exponent says, less once for each place behind the point.
   */
  lemma ValueIs(t: Token)
    ensures var m := DigitsValue(t.digits + t.fraction) as real;
            var times := if t.exponent.NoExponent? then 0 else DigitsValue(t.exponent.digits);
            var n, e := if t.negative then -m else m,
                        (if t.exponent.Exponent? && t.exponent.sign == Minus then -times else times) - |t.fraction|;
            && (e >= 0 ==> t.Value() == Tens(n, e))
            && (e <= 0 ==> Tens(t.Value(), -e) == n)
  {
    hide Scale, Accumulate, Tens, DigitsValue;
    var ds := t.digits + t.fraction;
    var m, e := DigitsValue(ds) as real, t.exponent.Value() - |t.fraction|;
    ReadingValue(t);
    AccumulateAppend(0.0, t.digits, t.fraction);
    AccumulateValue(0.0, ds);
    ScaleZero(|ds|);
    ScaleIs(if t.negative then -m else m, e);
  }

  lemma {:induction false} DigitsBelow(ds: seq<byte>)
    requires AllDigits(ds)
    ensures 0 <= DigitsValue(ds) && DigitsValue(ds) as real + 1.0 <= Tens(1.0, |ds|)
  {
    if ds != [] {
      DigitsBelow(ds[..|ds| - 1]);
    }
  }

  lemma {:induction false} TensLess(x: real, y: real, n: nat)
    ensures x < y <==> Tens(x, n) < Tens(y, n)
  {
    if n > 0 {
      TensLess(x, y, n - 1);
    }
  }

  /** What stands behind the point is less than one. */
  lemma FractionBelow(ds: seq<byte>)
    requires AllDigits(ds)
    ensures 0.0 <= Scale(DigitsValue(ds) as real, -|ds|) < 1.0
  {
    hide Scale, Tens, DigitsValue;
    var x := Scale(DigitsValue(ds) as real, -|ds|);
    DigitsBelow(ds);
    ScaleIs(DigitsValue(ds) as real, -|ds|);
    TensLess(x, 1.0, |ds|);
    TensLess(x, 0.0, |ds|);
    TensZero(|ds|);
  }

  lemma TensZero(n: nat)
    ensures Tens(0.0, n) == 0.0
  {
  }

  /** Every token is read to its end and no further. */
  lemma ReadsToken(t: Token, k: seq<byte>)
    requires t.Valid() && !t.ExtendedBy(k)
    ensures ParseNumber(t.Emit(k)) == (t.Reading(), k)
  {
    var s4 := t.exponent.Emit(k);
    ReadsExponent(t.exponent, k);
    ReadsFraction(t.fraction, s4);
    ReadsWhole(t, k);
  }

  lemma ReadsWhole(t: Token, k: seq<byte>)
    requires t.Valid() && !t.ExtendedBy(k)
    ensures ParseWhole(t.Emit(k)) == (t.negative, t.digits, EmitFraction(t.fraction, t.exponent.Emit(k)))
  {
    var s3 := EmitFraction(t.fraction, t.exponent.Emit(k));
    var s2 := t.digits + s3;
    var s1 := t.EmitWhole(k);
    assert t.fraction == [] ==> s3 == t.exponent.Emit(k);
    if t.digits != [] {
      SpanOf(t.digits, s3);
    }
    assert s2[..|t.digits|] == t.digits && s2[|t.digits|..] == s3;
    assert s1 == if t.zero then [ZERO] + s2 else s2;
    assert !t.negative ==> Head(s1) != MINUS;
    assert t.Emit(k) == if t.negative then [MINUS] + s1 else s1;
  }

  lemma ReadsFraction(fraction: seq<byte>, k: seq<byte>)
    requires AllDigits(fraction)
    requires if fraction == [] then Head(k) == DOT ==> !IsDigit(Head(k[1..])) else !IsDigit(Head(k))
    ensures ParseFraction(EmitFraction(fraction, k)) == (fraction, k)
  {
    var s := EmitFraction(fraction, k);
    if fraction == [] {
      assert s == k;
    } else {
      assert s[1..] == fraction + k;
      SpanOf(fraction, k);
    }
  }

  lemma ReadsExponent(e: Exponent, k: seq<byte>)
    requires e.Valid() && !e.ExtendedBy(k)
    ensures ParseExponent(e.Emit(k)) == (e.Value(), k)
  {
    if e.Exponent? {
      var s2 := e.digits + k;
      var s1 := SignText(e.sign) + s2;
      assert e.Emit(k)[1..] == s1;
      SpanOf(e.digits, k);
      assert s2[..|e.digits|] == e.digits && s2[|e.digits|..] == k;
      assert if e.sign == NoSign then s1 == s2 else s1[1..] == s2;
    }
  }

  /** Conversely, whatever is read is a token. */
  lemma TokenRead(s: seq<byte>) returns (t: Token)
    requires Head(s) == MINUS || IsDigit(Head(s))
    ensures t.Valid() && t.Emit(ParseNumber(s).1) == s
    ensures !t.ExtendedBy(ParseNumber(s).1)
    ensures ParseNumber(s).0 == t.Reading()
  {
    var (negative, digits, s3) := ParseWhole(s);
    var (fraction, s4) := ParseFraction(s3);
    var zero := WholeRead(s);
    FractionRead(s3);
    var e := ExponentRead(s4);
    t := Token(negative, zero, digits, fraction, e);
  }

  lemma WholeRead(s: seq<byte>) returns (zero: bool)
    requires Head(s) == MINUS || IsDigit(Head(s))
    ensures var (negative, digits, k) := ParseWhole(s);
            && (negative || zero || digits != [])
            && AllDigits(digits) && (digits != [] ==> digits[0] != ZERO)
            && s == (if negative then [MINUS] else []) + ((if zero then [ZERO] else []) + (digits + k))
            && (IsDigit(Head(k)) ==> digits == [] && zero && Head(k) == ZERO)
  {
    hide Span, IsDigit;
    var negative := Head(s) == MINUS;
    var s1 := if negative then s[1..] else s;
    zero := Head(s1) == ZERO;
    var s2 := if zero then s1[1..] else s1;
    var n := if Head(s2) == ZERO then 0 else Span(s2);
    Spanned(s2);
    Halves(s2, n);
    Neutral(s2);
    Neutral(s1);
    if zero {
      Uncons(s1);
    }
    if negative {
      Uncons(s);
    }
  }

  lemma FractionRead(s: seq<byte>)
    ensures var (fraction, k) := ParseFraction(s);
            && AllDigits(fraction) && EmitFraction(fraction, k) == s
            && (if fraction == [] then Head(k) == DOT ==> !IsDigit(Head(k[1..])) else !IsDigit(Head(k)))
  {
    hide Span, IsDigit;
    var (fraction, k) := ParseFraction(s);
    if Head(s) == DOT {
      Spanned(s[1..]);
    }
    if fraction != [] {
      assert s == [DOT] + s[1..];
      assert s[1..] == fraction + k;
    }
  }

  lemma ExponentRead(s: seq<byte>) returns (e: Exponent)
    ensures var (v, k) := ParseExponent(s);
            e.Valid() && e.Emit(k) == s && e.Value() == v && !e.ExtendedBy(k)
  {
    if Head(s) == LOWER_E || Head(s) == UPPER_E {
      var s1 := s[1..];
      var sign := if Head(s1) == PLUS then Plus else if Head(s1) == MINUS then Minus else NoSign;
      var s2 := if sign == NoSign then s1 else s1[1..];
      var n := Span(s2);
      Spanned(s2);
      e := Exponent(s[0], sign, s2[..n]);
      Halves(s2, n);
      if sign != NoSign {
        Uncons(s1);
      }
      Uncons(s);
    } else {
      e := NoExponent;
    }
  }

  /** A token is told from every other by its text. */
  lemma SameToken(t: Token, u: Token)
    requires t.Valid() && u.Valid() && t.Emit([]) == u.Emit([])
    ensures t == u
  {
    hide SignText;
    ReadsWhole(t, []);
    ReadsWhole(u, []);
    ReadsFraction(t.fraction, t.exponent.Emit([]));
    ReadsFraction(u.fraction, u.exponent.Emit([]));
    SameExponent(t.exponent, u.exponent);
  }

  lemma SameExponent(e: Exponent, f: Exponent)
    requires e.Valid() && f.Valid() && e.Emit([]) == f.Emit([])
    ensures e == f
  {
    if e.Exponent? && f.Exponent? {
      Neutral(e.digits);
      Neutral(f.digits);
      var a, b := SignText(e.sign) + e.digits, SignText(f.sign) + f.digits;
      assert e.Emit([])[1..] == a && f.Emit([])[1..] == b;
      assert a[|SignText(e.sign)|..] == e.digits && b[|SignText(f.sign)|..] == f.digits;
      assert a != [] ==> a[0] == b[0];
    }
  }

  lemma EmitAppend(t: Token, k: seq<byte>)
    ensures t.Emit(k) == t.Emit([]) + k
  {
    hide SignText;
    var e, f := t.exponent.Emit([]), t.exponent.Emit(k);
    assert f == e + k;
    assert EmitFraction(t.fraction, f) == EmitFraction(t.fraction, e) + k;
    assert t.EmitWhole(k) == t.EmitWhole([]) + k;
  }

  /** What follows a token is left alone exactly when it does not extend the token. */
  lemma TokenEnds(t: Token, k: seq<byte>)
    requires t.Valid()
    ensures ParseNumber(t.Emit(k)).1 == k <==> !t.ExtendedBy(k)
  {
    if !t.ExtendedBy(k) {
      ReadsToken(t, k);
    } else if ParseNumber(t.Emit(k)).1 == k {
      var u := TokenRead(t.Emit(k));
      EmitAppend(t, k);
      EmitAppend(u, k);
      SameTail(t.Emit([]), u.Emit([]), k);
      SameToken(t, u);
    }
  }

  lemma SameTail(a: seq<byte>, b: seq<byte>, k: seq<byte>)
    requires a + k == b + k
    ensures a == b
  {
    assert |a + k| == |b + k|;
    assert (a + k)[..|a|] == a && (b + k)[..|b|] == b;
  }
}
