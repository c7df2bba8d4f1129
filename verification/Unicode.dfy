/**
  UTF-8 (section 3 of RFC 3629) and UTF-16 surrogates (section 2.2 of RFC 2781).
 */
module Unicode {
  import opened Bytes
  import opened Wrappers

  predicate IsHighSurrogate(u: int) {
    0xD800 <= u <= 0xDBFF
  }

  predicate IsLowSurrogate(u: int) {
    0xDC00 <= u <= 0xDFFF
  }

  predicate IsScalar(c: int) {
    0 <= c <= 0x10FFFF && !IsHighSurrogate(c) && !IsLowSurrogate(c)
  }

  /** The character a surrogate pair stands for. */
  function Combine(high: int, low: int): (c: int)
    requires IsHighSurrogate(high) && IsLowSurrogate(low)
    ensures 0x10000 <= c <= 0x10FFFF
  {
    0x10000 + (high - 0xD800) * 0x400 + (low - 0xDC00)
  }

  /** The bytes of one character, as the code writes them. */
  function Utf8(c: int): (r: seq<byte>)
    requires 0 < c <= 0x10FFFF
    ensures 1 <= |r| <= 4 && NulFree(r)
  {
    if c < 0x80 then [c as byte]
    else if c < 0x800 then [(0xC0 + c / 0x40) as byte, Trailing(c)]
    else if c < 0x10000 then [(0xE0 + c / 0x1000) as byte, Trailing(c / 0x40), Trailing(c)]
    else [(0xF0 + c / 0x40000) as byte, Trailing(c / 0x1000), Trailing(c / 0x40), Trailing(c)]
  }

  /** A trailing byte: the two marker bits 10 and the six lowest bits of `c`. */
  function Trailing(c: int): (b: byte)
    requires 0 <= c
    ensures b >= 0x80
  {
    (0x80 + c % 0x40) as byte
  }

  predicate IsTrailing(b: byte) {
    0x80 <= b <= 0xBF
  }

  /**
    The character at the start of `s` and the number of bytes it takes, or no bytes when
    `s` does not start with a shortest-form encoding of a scalar value.
   */
  function DecodeUtf8(s: seq<byte>): (r: (int, nat))
    ensures r.1 <= |s| && r.1 <= 4
    ensures r.1 > 0 ==> IsScalar(r.0)
  {
    if s == [] then (0, 0)
    else if s[0] < 0x80 then (s[0] as int, 1)
    else if 0xC0 <= s[0] <= 0xDF && |s| >= 2 && IsTrailing(s[1]) then
      Shortest((s[0] as int - 0xC0) * 0x40 + Six(s[1]), 0x80, 2)
    else if 0xE0 <= s[0] <= 0xEF && |s| >= 3 && IsTrailing(s[1]) && IsTrailing(s[2]) then
      Shortest((s[0] as int - 0xE0) * 0x1000 + Six(s[1]) * 0x40 + Six(s[2]), 0x800, 3)
    else if 0xF0 <= s[0] <= 0xF7 && |s| >= 4 && IsTrailing(s[1]) && IsTrailing(s[2]) && IsTrailing(s[3]) then
      Shortest((s[0] as int - 0xF0) * 0x40000 + Six(s[1]) * 0x1000 + Six(s[2]) * 0x40 + Six(s[3]), 0x10000, 4)
    else (0, 0)
  }

  function Six(b: byte): int {
    b as int - 0x80
  }

  function Shortest(c: int, least: int, size: nat): (r: (int, nat)) {
    if c >= least && IsScalar(c) then (c, size) else (0, 0)
  }


  /** The characters encoded by `s`, if `s` is well-formed UTF-8. */
  function Characters(s: seq<byte>): Option<seq<int>> {
    if s == [] then Some([])
    else
      var (c, n) := DecodeUtf8(s);
      if n == 0 then None
      else
        match Characters(s[n..])
        case None => None
        case Some(cs) => Some([c] + cs)
  }

  /** The encoder is inverted by the decoder, whatever follows. */
  lemma EncodeDecode(c: int, s: seq<byte>)
    requires IsScalar(c) && c != 0
    ensures DecodeUtf8(Utf8(c) + s) == (c, |Utf8(c)|)
  {
    hide Characters;
    var e := Utf8(c);
    var t := e + s;
    assert forall i :: 0 <= i < |e| ==> t[i] == e[i];
    SixBits(c);
    if 0x80 <= c < 0x800 {
      assert DecodeUtf8(t) == Shortest(c, 0x80, 2);
    } else if 0x800 <= c < 0x10000 {
      assert DecodeUtf8(t) == Shortest(c, 0x800, 3);
    } else if 0x10000 <= c {
      assert DecodeUtf8(t) == Shortest(c, 0x10000, 4);
    }
  }

  lemma SixBits(c: int)
    requires 0 <= c <= 0x10FFFF
    ensures c == c / 0x40 * 0x40 + c % 0x40
    ensures c / 0x40 == c / 0x1000 * 0x40 + c / 0x40 % 0x40
    ensures c / 0x1000 == c / 0x40000 * 0x40 + c / 0x1000 % 0x40
    ensures c / 0x40000 <= 4
  {
    assert c / 0x1000 == c / 0x40 / 0x40;
    assert c / 0x40000 == c / 0x1000 / 0x40;
  }

  lemma DecodePrefix(s: seq<byte>, t: seq<byte>)
    requires s <= t && DecodeUtf8(s).1 > 0
    ensures DecodeUtf8(t) == DecodeUtf8(s)
  {
    assert forall i :: 0 <= i < |s| ==> s[i] == t[i];
  }
}
