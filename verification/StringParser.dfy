/** `parse_hex4` and `parse_string`. */
module StringParser {
  import opened Bytes
  import opened Heap
  import opened Strings
  import opened Unicode
  import Bits
  import ParserSpec
  import Json

  /** What a read through a pointer to position `i` of the text gives. */
  function At(t: seq<byte>, i: nat): byte {
    if i < |t| then t[i] else NUL
  }

  lemma AtHead(t: seq<byte>, i: nat)
    requires i <= |t|
    ensures At(t, i) == Head(t[i..])
    ensures i < |t| ==> At(t, i + 1) == Head(t[i..][1..]) && t[i..][1..] == t[i + 1..]
  {
  }

  method ParseHexDigit(b: byte) returns (h: int)
    ensures h == HexDigit(b)
  {
    if ZERO <= b <= NINE {
      h := b as int - 0x30;
    } else if 0x41 <= b <= 0x46 {
      h := 10 + b as int - 0x41;
    } else if 0x61 <= b <= 0x66 {
      h := 10 + b as int - 0x61;
    } else {
      h := -1;
    }
  }

  method ParseHex4(t: seq<byte>, i: nat) returns (h: int)
    requires i + 4 <= |t|
    ensures h == Hex4(t[i..i + 4])
  {
    h := ParseHexDigit(t[i]);
    if h < 0 {
      return 0;
    }
    var d := ParseHexDigit(t[i + 1]);
    if d < 0 {
      return 0;
    }
    h := h * 16 + d;
    d := ParseHexDigit(t[i + 2]);
    if d < 0 {
      return 0;
    }
    h := h * 16 + d;
    d := ParseHexDigit(t[i + 3]);
    if d < 0 {
      return 0;
    }
    h := h * 16 + d;
  }

  /** The bytes of a character, written from the last one back. */
  method PutUtf8(out: array<byte>, into: nat, c: nat) returns (w: nat)
    requires 0 < c <= 0x10FFFF && into + |Utf8(c)| <= out.Length
    modifies out
    ensures w == into + |Utf8(c)|
    ensures out[..w] == old(out[..into]) + Utf8(c)
  {
    hide Bits.Or, Trailing;
    var size := if c < 0x80 then 1 else if c < 0x800 then 2 else if c < 0x10000 then 3 else 4;
    w := into + size;
    var uc: nat, p := c, w;
    if size == 4 {
      p := p - 1;
      uc := PutTrailing(out, p, uc);
    }
    if size >= 3 {
      p := p - 1;
      uc := PutTrailing(out, p, uc);
    }
    if size >= 2 {
      p := p - 1;
      uc := PutTrailing(out, p, uc);
    }
    p := p - 1;
    Bits.LeadingBits(uc);
    SixBits(c);
    out[p] := Bits.Or(uc, [0x00, 0x00, 0xC0, 0xE0, 0xF0][size]) as byte;
  }

  /** One trailing byte takes the six lowest bits of what is left of the character. */
  method PutTrailing(out: array<byte>, p: nat, uc: nat) returns (rest: nat)
    requires p < out.Length
    modifies out
    ensures out[..] == old(out[..])[p := Trailing(uc)]
    ensures rest == uc / 0x40
  {
    Bits.TrailingBits(uc);
    out[p] := Bits.And(Bits.Or(uc, 0x80), 0xBF) as byte;
    rest := uc / 0x40;
  }

  lemma CombineBits(high: nat, low: nat)
    requires IsHighSurrogate(high) && IsLowSurrogate(low)
    ensures 0x10000 + Bits.Or(Bits.And(high, 0x3FF) * 0x400, Bits.And(low, 0x3FF)) == Combine(high, low)
  {
    Bits.PairBits(high, low);
    Bits.ModUnique(high, 0x400, 54, high - 0xD800);
    Bits.ModUnique(low, 0x400, 55, low - 0xDC00);
  }

  /** There is room for the escape at `i`, and for the second one if it is a high surrogate before another. */
  predicate HasUnits(t: seq<byte>, i: nat) {
    && i + 6 <= |t|
    && (IsHighSurrogate(Hex4(t[i + 2..i + 6])) && At(t, i + 6) == BACKSLASH && At(t, i + 7) == LOWER_U ==>
          i + 12 <= |t|)
  }

  /** The bytes of the `\u` escape at `i`, and how far it goes. */
  function UnitsAt(t: seq<byte>, i: nat): (seq<byte>, nat)
    requires HasUnits(t, i)
  {
    var uc := Hex4(t[i + 2..i + 6]);
    if IsLowSurrogate(uc) || uc == 0 then ([], 6)
    else if !IsHighSurrogate(uc) then (Utf8(uc), 6)
    else if At(t, i + 6) != BACKSLASH || At(t, i + 7) != LOWER_U then ([], 6)
    else
      var uc2 := Hex4(t[i + 8..i + 12]);
      (if IsLowSurrogate(uc2) then Utf8(Combine(uc, uc2)) else [], 12)
  }

  lemma UnicodeStep(t: seq<byte>, i: nat)
    requires i <= |t| && Complete(t[i..]) && StartsUnit(t[i..])
    ensures HasUnits(t, i) && Step(t[i..]) == UnitsAt(t, i)
  {
    var s := t[i..];
    assert s[2..6] == t[i + 2..i + 6];
    if |s| >= 8 && s[6] == BACKSLASH && s[7] == LOWER_U {
      assert s[6..][0] == s[6] && s[6..][1] == s[7];
      assert Complete(s[6..]) && |s| >= 12;
      assert s[8..12] == t[i + 8..i + 12];
    }
  }

  /**
    The `case 'u'` branch, from the backslash at `i`: the bytes of one character, or none,
    are written, and the cursor moves past one or two escapes.
   */
  method ParseUnicode(t: seq<byte>, i: nat, out: array<byte>, into: nat, ghost bytes: seq<byte>, ghost n: nat)
    returns (r: nat, w: nat)
    requires HasUnits(t, i) && UnitsAt(t, i) == (bytes, n) && into + |bytes| <= out.Length
    modifies out
    ensures r == i + n <= |t|
    ensures w == into + |bytes| && out[..w] == old(out[..into]) + bytes
  {
    hide Bits.Or, Bits.And;
    Neutral(out[..into]);
    var uc := ParseHex4(t, i + 2);
    r, w := i + 6, into;
    if (0xDC00 <= uc <= 0xDFFF) || uc == 0 {
      return;
    }
    if 0xD800 <= uc <= 0xDBFF {
      if At(t, r) != BACKSLASH || At(t, r + 1) != LOWER_U {
        return;
      }
      var uc2 := ParseHex4(t, r + 2);
      r := r + 6;
      if uc2 < 0xDC00 || uc2 > 0xDFFF {
        return;
      }
      CombineBits(uc, uc2);
      uc := 0x10000 + Bits.Or(Bits.And(uc, 0x3FF) * 0x400, Bits.And(uc2, 0x3FF));
    }
    w := PutUtf8(out, into, uc);
  }

  /** The counting pass over the body that starts at `i`. */
  method CountBody(t: seq<byte>, i: nat) returns (len: nat)
    requires i <= |t| && Complete(t[i..])
    ensures len == Count(t[i..]).0
  {
    len := 0;
    var ptr := i;
    while At(t, ptr) != QUOTE && At(t, ptr) != NUL
      invariant i <= ptr <= |t| && Complete(t[ptr..])
      invariant len + Count(t[ptr..]).0 == Count(t[i..]).0
      decreases |t| - ptr
    {
      AtHead(t, ptr);
      CompleteTail(t[ptr..]);
      len := len + 1;
      if At(t, ptr) == BACKSLASH {
        ptr := ptr + 1;
      }
      ptr := ptr + 1;
    }
  }

  /** One round of the decoding pass. */
  method DecodeOne(t: seq<byte>, i: nat, out: array<byte>, into: nat, ghost bytes: seq<byte>, ghost n: nat)
    returns (r: nat, w: nat)
    requires i <= |t| && Complete(t[i..]) && !AtEnd(t[i..]) && Step(t[i..]) == (bytes, n)
    requires into + |bytes| <= out.Length
    modifies out
    ensures r == i + n <= |t|
    ensures w == into + |bytes| && out[..w] == old(out[..into]) + bytes
  {
    AtHead(t, i);
    if t[i] != BACKSLASH {
      out[into] := t[i];
      r, w := i + 1, into + 1;
    } else {
      var c := At(t, i + 1);
      if c == LOWER_U {
        UnicodeStep(t, i);
        r, w := ParseUnicode(t, i, out, into, bytes, n);
      } else {
        out[into] :=
          if c == LOWER_B then BS
          else if c == LOWER_F then FF
          else if c == LOWER_N then LF
          else if c == LOWER_R then CR
          else if c == LOWER_T then TAB
          else c;
        r, w := i + 2, into + 1;
      }
    }
  }

  lemma DecodeRound(t: seq<byte>, i: nat, bytes: seq<byte>, n: nat)
    requires i <= |t| && Complete(t[i..]) && !AtEnd(t[i..]) && Step(t[i..]) == (bytes, n)
    ensures i + n <= |t| && n > 0 && Complete(t[i + n..])
    ensures Decode(t[i..]) == (bytes + Decode(t[i + n..]).0, Decode(t[i + n..]).1)
    ensures Count(t[i..]).0 >= |bytes| + Count(t[i + n..]).0
  {
    StepStaysComplete(t[i..]);
    CountStep(t[i..]);
    assert t[i..][n..] == t[i + n..];
  }

  lemma RoundKeeps(t: seq<byte>, i: nat, bytes: seq<byte>, r: nat, done: seq<byte>, into: nat, w: nat, length: nat)
    requires i < r <= |t| && Complete(t[i..]) && !AtEnd(t[i..]) && Step(t[i..]) == (bytes, r - i)
    requires into + Count(t[i..]).0 < length && w == into + |bytes|
    ensures Complete(t[r..]) && w + Count(t[r..]).0 < length
    ensures done + bytes + Decode(t[r..]).0 == done + Decode(t[i..]).0
    ensures Decode(t[r..]).1 == Decode(t[i..]).1
  {
    hide Count, Decode, Step, Complete;
    DecodeRound(t, i, bytes, r - i);
    Associate(done, bytes, Decode(t[r..]).0);
  }

  /** A round leaves as much room in the block as is needed for the rest, and the result is the same. */
  method DecodeNext(t: seq<byte>, i: nat, out: array<byte>, into: nat) returns (r: nat, w: nat)
    requires i <= |t| && Complete(t[i..]) && !AtEnd(t[i..])
    requires into + Count(t[i..]).0 < out.Length
    modifies out
    ensures i < r <= |t| && Complete(t[r..])
    ensures w + Count(t[r..]).0 < out.Length
    ensures out[..w] + Decode(t[r..]).0 == old(out[..into]) + Decode(t[i..]).0
    ensures Decode(t[r..]).1 == Decode(t[i..]).1
  {
    ghost var (bytes, n) := Step(t[i..]);
    DecodeRound(t, i, bytes, n);
    r, w := DecodeOne(t, i, out, into, bytes, n);
    RoundKeeps(t, i, bytes, r, old(out[..into]), into, w, out.Length);
  }

  /** The decoding pass: it stays inside a block of the size counted. */
  method DecodeLoop(t: seq<byte>, i: nat, out: array<byte>) returns (r: nat, w: nat)
    requires i <= |t| && Complete(t[i..]) && out.Length == Count(t[i..]).0 + 1
    modifies out
    ensures r <= |t| && t[r..] == Decode(t[i..]).1
    ensures w < out.Length && out[..w] == Decode(t[i..]).0
  {
    ghost var all := Decode(t[i..]);
    r, w := i, 0;
    assert out[..0] == [];
    Neutral(all.0);
    while At(t, r) != QUOTE && At(t, r) != NUL
      invariant i <= r <= |t| && Complete(t[r..])
      invariant w + Count(t[r..]).0 < out.Length
      invariant out[..w] + Decode(t[r..]).0 == all.0
      invariant Decode(t[r..]).1 == all.1
      decreases |t| - r
    {
      AtHead(t, r);
      r, w := DecodeNext(t, r, out, w);
    }
    AtHead(t, r);
    Neutral(out[..w]);
  }

  method DecodeBody(t: seq<byte>, i: nat, out: array<byte>) returns (r: nat)
    requires i <= |t| && Complete(t[i..]) && out.Length == Count(t[i..]).0 + 1
    modifies out
    ensures r <= |t| && t[r..] == Decode(t[i..]).1
    ensures Terminated(out[..]) && CStr(out[..]) == Decode(t[i..]).0
  {
    var w;
    r, w := DecodeLoop(t, i, out);
    out[w] := NUL;
    PassesAgree(t[i..]);
    CStrIs(out[..], Decode(t[i..]).0);
  }

  /**
    `parse_string`: on success the item holds a new block with the decoded literal, and on
    failure nothing is allocated.
   */
  method ParseString(item: Node, t: seq<byte>, i: nat, a: Allocator) returns (ok: bool, end: nat)
    requires a.Valid() && i <= |t| && !ParserSpec.ParseString(t[i..]).Undefined?
    modifies a, item`valuestring, item`kind
    ensures a.Valid() && end <= |t|
    ensures ok ==>
      && item.kind == StringKind && item.valuestring != null && fresh(item.valuestring)
      && Terminated(item.valuestring[..]) && a.live == old(a.live) + {item.valuestring} && a.failed == old(a.failed)
      && ParserSpec.ParseString(t[i..]) == ParserSpec.Parsed(Json.String(CStr(item.valuestring[..])), t[end..])
    ensures !ok ==>
      && item.valuestring == old(item.valuestring) && item.kind == old(item.kind) && a.live == old(a.live)
      && (ParserSpec.ParseString(t[i..]).Rejected? || a.failed > old(a.failed))
  {
    ok, end := false, i;
    AtHead(t, i);
    if At(t, i) != QUOTE {
      return;
    }
    var len := CountBody(t, i + 1);
    var out := a.NewBytes(len + 1);
    if out == null {
      return;
    }
    var ptr := DecodeBody(t, i + 1, out);
    AtHead(t, ptr);
    if At(t, ptr) == QUOTE {
      ptr := ptr + 1;
    }
    item.valuestring := out;
    item.kind := StringKind;
    ok, end := true, ptr;
  }
}
