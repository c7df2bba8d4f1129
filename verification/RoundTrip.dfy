/**
  The printed text of a value is the text of a derivation tree of RFC 8259 that denotes the
  value.  Reading it back, and minifying it, then follow from what is known of trees.
 */
module RoundTrip {
  import opened Bytes
  import opened Json
  import opened Grammar
  import opened MinifySpec
  import Strings
  import Numbers

  function ElementOf(b: byte): Strings.Element {
    if EscapeLetter(b) != NUL then Strings.Escape(EscapeLetter(b))
    else if b >= 32 then Strings.Raw(b)
    else Strings.Unit([ZERO, ZERO, HexLetter(b as int / 16), HexLetter(b as int % 16)])
  }

  function BodyOf(s: seq<byte>): seq<Strings.Element> {
    if s == [] then [] else [ElementOf(s[0])] + BodyOf(s[1..])
  }

  function TokenOf(n: int): Numbers.Token {
    Numbers.Token(n < 0, n == 0, Decimal(if n < 0 then -n else n), [], Numbers.NoExponent)
  }

  /** The derivation tree of the printed text of a value. */
  function TreeOf(v: Json, depth: nat, fmt: bool): Tree
    decreases v, 0
  {
    match v
    case Null => NullWord
    case False => FalseWord
    case True => TrueWord
    case Number(r) => Numeral(TokenOf(r.Floor))
    case String(s) => Quoted(BodyOf(s))
    case Array(items) =>
      if items == [] then EmptyArray([]) else FullArray(ItemsOf(items, [], depth, fmt))
    case Object(members) =>
      if members == [] then EmptyObject(if fmt then [LF] + Tabs(depth - 1) else [])
      else FullObject(PairsOf(members, depth, fmt))
  }

  function ItemsOf(items: seq<Json>, before: seq<byte>, depth: nat, fmt: bool): Items
    requires items != []
    decreases items, 1
  {
    var t := TreeOf(items[0], depth + 1, fmt);
    if |items| == 1 then LastItem(before, t, [])
    else NextItem(before, t, [], ItemsOf(items[1..], if fmt then [SPACE] else [], depth, fmt))
  }

  function PairsOf(members: seq<Member>, depth: nat, fmt: bool): Pairs
    requires members != []
    decreases members, 1
  {
    var before, gap := if fmt then [LF] + Tabs(depth + 1) else [], if fmt then [TAB] else [];
    var name, t := BodyOf(members[0].name), TreeOf(members[0].value, depth + 1, fmt);
    if |members| == 1 then LastPair(before, name, [], gap, t, if fmt then [LF] + Tabs(depth) else [])
    else NextPair(before, name, [], gap, t, [], PairsOf(members[1..], depth, fmt))
  }

  // ---------------------------------------------------------------- the text of the tree

  lemma {:induction false} BodyText(s: seq<byte>, k: seq<byte>)
    ensures Strings.EmitBody(BodyOf(s), k) == PrintBytes(s) + k
  {
    if s == [] {
      assert [] + k == k;
    } else {
      BodyText(s[1..], k);
      assert BodyOf(s)[1..] == BodyOf(s[1..]);
      Associate(PrintByte(s[0]), PrintBytes(s[1..]), k);
      ElementText(s[0], PrintBytes(s[1..]) + k);
    }
  }

  lemma ElementText(b: byte, k: seq<byte>)
    ensures ElementOf(b).Emit(k) == PrintByte(b) + k
  {
  }

  lemma StringText(s: seq<byte>, k: seq<byte>)
    ensures EmitString(BodyOf(s), k) == PrintString(s) + k
  {
    BodyText(s, [QUOTE] + k);
    assert [QUOTE] + (PrintBytes(s) + ([QUOTE] + k)) == [QUOTE] + PrintBytes(s) + [QUOTE] + k;
  }

  lemma IntText(n: int, k: seq<byte>)
    ensures TokenOf(n).Emit(k) == PrintInt(n) + k
  {
    var t := TokenOf(n);
    assert t.exponent.Emit(k) == k && Numbers.EmitFraction([], k) == k;
    if n == 0 {
      assert t.Emit(k) == [ZERO] + k;
    }
  }

  lemma {:induction false} TreeText(v: Json, depth: nat, fmt: bool, k: seq<byte>)
    ensures Emit(TreeOf(v, depth, fmt), k) == PrintValue(v, depth, fmt) + k
    decreases v, 0
  {
    hide EmitPairs, PrintMembers;
    match v
    case Null =>
    case False =>
    case True =>
    case Number(r) => IntText(r.Floor, k);
    case String(s) => StringText(s, k);
    case Array(items) =>
      if items != [] {
        ItemsText(items, [], depth, fmt, k);
        Associate([LBRACKET], PrintItems(items, depth, fmt), k);
        assert [] + (PrintItems(items, depth, fmt) + k) == PrintItems(items, depth, fmt) + k;
      }
    case Object(members) =>
      if members != [] {
        PairsText(members, depth, fmt, k);
        var lf := if fmt then [LF] else [];
        Associate([LBRACE], lf, PrintMembers(members, depth, fmt) + k);
        Associate([LBRACE] + lf, PrintMembers(members, depth, fmt), k);
      } else {
        EmptyObjectText(if fmt then [LF] + Tabs(depth - 1) else [], k);
      }
  }

  lemma EmptyObjectText(w: seq<byte>, k: seq<byte>)
    ensures [LBRACE] + (w + ([RBRACE] + k)) == [LBRACE] + w + [RBRACE] + k
  {
  }

  lemma {:induction false} ItemsText(items: seq<Json>, before: seq<byte>, depth: nat, fmt: bool, k: seq<byte>)
    requires items != []
    ensures EmitItems(ItemsOf(items, before, depth, fmt), k) == before + (PrintItems(items, depth, fmt) + k)
    decreases items, 1
  {
    var sep := if fmt then [SPACE] else [];
    var first := PrintValue(items[0], depth + 1, fmt);
    if |items| == 1 {
      TreeText(items[0], depth + 1, fmt, [RBRACKET] + k);
      assert [] + ([RBRACKET] + k) == [RBRACKET] + k;
      Associate(first, [RBRACKET], k);
      assert PrintItems(items, depth, fmt) == first + [RBRACKET];
    } else {
      var more := PrintItems(items[1..], depth, fmt);
      var k1 := [COMMA] + (sep + (more + k));
      ItemsText(items[1..], sep, depth, fmt, k);
      TreeText(items[0], depth + 1, fmt, k1);
      assert [] + k1 == k1;
      Associate([COMMA], sep, more + k);
      Associate(first, [COMMA] + sep, more + k);
      Associate(first + ([COMMA] + sep), more, k);
      assert [COMMA] + sep == if fmt then [COMMA, SPACE] else [COMMA];
    }
  }

  lemma {:induction false} PairsText(members: seq<Member>, depth: nat, fmt: bool, k: seq<byte>)
    requires members != []
    ensures EmitPairs(PairsOf(members, depth, fmt), k)
         == (if fmt then [LF] else []) + (PrintMembers(members, depth, fmt) + k)
    decreases members, 1
  {
    hide TreeOf, PrintValue, Emit, EmitString, PrintString, BodyOf, Tabs;
    var lf, tabs, gap := if fmt then [LF] else [], if fmt then Tabs(depth + 1) else [], if fmt then [TAB] else [];
    var name, value := members[0].name, members[0].value;
    var p := PairsOf(members, depth, fmt);
    var text := PrintValue(value, depth + 1, fmt);
    var sep, k0: seq<byte> := [], [];
    if |members| == 1 {
      var close := if fmt then Tabs(depth) else [];
      k0 := close + ([RBRACE] + k);
      Associate(lf, close, [RBRACE] + k);
      Associate(close, [RBRACE], k);
      assert p.after + ([RBRACE] + k) == lf + k0;
    } else {
      PairsText(members[1..], depth, fmt, k);
      sep, k0 := [COMMA], PrintMembers(members[1..], depth, fmt) + k;
      assert [] + ([COMMA] + (lf + k0)) == [COMMA] + (lf + k0);
    }
    var k1 := sep + (lf + k0);
    assert k0 == PrintMembers(members[1..], depth, fmt) + k;
    assert [] + (lf + k0) == lf + k0;
    TreeText(value, depth + 1, fmt, k1);
    assert Emit(p.value, k1) == text + k1;
    StringText(name, [COLON] + (gap + (text + k1)));
    assert [] + ([COLON] + (gap + (text + k1))) == [COLON] + (gap + (text + k1));
    Associate([COLON], gap, text + k1);
    Associate(lf, tabs, PrintString(name) + ([COLON] + gap + (text + k1)));
    assert EmitPairs(p, k) == lf + (tabs + (PrintString(name) + ([COLON] + gap + (text + k1))));
    Flatten(tabs, PrintString(name), [COLON] + gap, text, sep, lf, PrintMembers(members[1..], depth, fmt), k);
    assert [COLON] + gap == if fmt then [COLON, TAB] else [COLON];
  }

  lemma Flatten(a: seq<byte>, b: seq<byte>, c: seq<byte>, d: seq<byte>, e: seq<byte>, f: seq<byte>, g: seq<byte>,
                k: seq<byte>)
    ensures a + b + c + d + e + f + g + k == a + (b + (c + (d + (e + (f + (g + k))))))
  {
    Associate(a + b + c + d + e + f, g, k);
    Associate(a + b + c + d + e, f, g + k);
    Associate(a + b + c + d, e, f + (g + k));
    Associate(a + b + c, d, e + (f + (g + k)));
    Associate(a + b, c, d + (e + (f + (g + k))));
    Associate(a, b, c + (d + (e + (f + (g + k)))));
  }

  // ---------------------------------------------------------------- the meaning of the tree

  lemma {:induction false} BodyMeaning(s: seq<byte>)
    requires NulFree(s)
    ensures Strings.RfcBody(BodyOf(s)) && Strings.ValidBody(BodyOf(s))
    ensures Strings.Meaning(BodyOf(s)) == s
  {
    if s != [] {
      BodyMeaning(s[1..]);
      ElementMeaning(s[0]);
      assert BodyOf(s)[1..] == BodyOf(s[1..]);
    }
  }

  lemma ElementMeaning(b: byte)
    requires b != NUL
    ensures ElementOf(b).IsRfc() && ElementOf(b).Valid() && Strings.MeaningOf(ElementOf(b)) == [b]
    ensures ElementOf(b).Unit? ==> ElementOf(b).Code() == b as int
  {
    var e := ElementOf(b);
    if e.Unit? {
      HexLetterDigit(b as int / 16);
      HexLetterDigit(b as int % 16);
    }
  }

  lemma HexLetterDigit(d: int)
    requires 0 <= d < 16
    ensures Strings.HexDigit(HexLetter(d)) == d && Strings.IsPlain(HexLetter(d))
  {
  }

  lemma {:induction false} DecimalValue(n: nat)
    ensures var ds := Decimal(n);
            AllDigits(ds) && (ds != [] ==> ds[0] != ZERO) && (ds == [] <==> n == 0) && Numbers.DigitsValue(ds) == n
  {
    if n > 0 {
      DecimalValue(n / 10);
      var ds := Decimal(n);
      assert ds[..|ds| - 1] == Decimal(n / 10);
    }
  }

  lemma TokenMeaning(n: int)
    ensures TokenOf(n).IsRfc() && TokenOf(n).Value() == n as real
  {
    DecimalValue(if n < 0 then -n else n);
    assert Numbers.DigitsValue([]) == 0;
  }

  /** A number without a leading zero is the decimal form of its value. */
  lemma {:induction false} DecimalOfDigits(ds: seq<byte>)
    requires AllDigits(ds) && (ds != [] ==> ds[0] != ZERO)
    ensures Numbers.DigitsValue(ds) >= 0 && Decimal(Numbers.DigitsValue(ds)) == ds
    ensures ds != [] ==> Numbers.DigitsValue(ds) > 0
  {
    if ds != [] {
      var init, d := ds[..|ds| - 1], ds[|ds| - 1];
      assert init != [] ==> init[0] == ds[0];
      DecimalOfDigits(init);
      LastDigit(Numbers.DigitsValue(init), d);
      Unsnoc(ds);
    }
  }

  lemma LastDigit(n: int, d: byte)
    requires n >= 0 && IsDigit(d) && (n > 0 || d != ZERO)
    ensures Decimal(10 * n + (d as int - 0x30)) == Decimal(n) + [d]
  {
    var m := 10 * n + (d as int - 0x30);
    assert m / 10 == n && m % 10 == d as int - 0x30;
  }

  /** Of the RFC numbers that are only digits, the printed one is the only one for its value, but for `-0`. */
  lemma PrintedNumber(t: Numbers.Token)
    requires t.IsRfc() && t.fraction == [] && t.exponent.NoExponent? && (t.negative ==> t.digits != [])
    ensures t.Value() == t.Value().Floor as real && t.Emit([]) == PrintInt(t.Value().Floor)
  {
    var n := Numbers.DigitsValue(t.digits);
    DecimalOfDigits(t.digits);
    assert t.Value() == (if t.negative then -n else n) as real;
    assert t == TokenOf(if t.negative then -n else n);
    IntText(if t.negative then -n else n, []);
    Neutral(PrintInt(if t.negative then -n else n));
  }

  lemma {:induction false} TreeMeaning(v: Json, depth: nat, fmt: bool)
    requires Printable(v)
    ensures var t := TreeOf(v, depth, fmt); In(Rfc8259, t) && In(Accepted, t) && Denote(t) == v
    decreases v, 0
  {
    match v
    case Number(r) => TokenMeaning(r.Floor);
    case String(s) => BodyMeaning(s);
    case Array(items) =>
      if items != [] {
        ItemsMeaning(items, [], depth, fmt);
      }
    case Object(members) =>
      if members != [] {
        PairsMeaning(members, depth, fmt);
      } else {
        TabsBlank(depth - 1);
      }
    case _ =>
  }

  lemma TabsBlank(n: int)
    ensures Blanks(Rfc8259, Tabs(n)) && Blanks(Rfc8259, [LF] + Tabs(n)) && AllBlank([LF] + Tabs(n))
  {
  }

  lemma {:induction false} ItemsMeaning(items: seq<Json>, before: seq<byte>, depth: nat, fmt: bool)
    requires items != [] && forall i :: 0 <= i < |items| ==> Printable(items[i])
    requires before == [] || before == [SPACE]
    ensures var t := ItemsOf(items, before, depth, fmt);
            ItemsIn(Rfc8259, t) && ItemsIn(Accepted, t) && DenoteItems(t) == items
    decreases items, 1
  {
    TreeMeaning(items[0], depth + 1, fmt);
    Uncons(items);
    if |items| > 1 {
      ItemsMeaning(items[1..], if fmt then [SPACE] else [], depth, fmt);
    }
  }

  lemma {:induction false} PairsMeaning(members: seq<Member>, depth: nat, fmt: bool)
    requires members != []
    requires forall i :: 0 <= i < |members| ==> NulFree(members[i].name) && Printable(members[i].value)
    ensures var t := PairsOf(members, depth, fmt);
            PairsIn(Rfc8259, t) && PairsIn(Accepted, t) && DenotePairs(t) == members
    decreases members, 1
  {
    hide Tabs, Printable;
    TabsBlank(depth);
    TabsBlank(depth + 1);
    BodyMeaning(members[0].name);
    TreeMeaning(members[0].value, depth + 1, fmt);
    Uncons(members);
    if |members| > 1 {
      PairsMeaning(members[1..], depth, fmt);
    }
  }

  /** Without its white space, the tree of a formatted text is that of the unformatted one. */
  lemma {:induction false} StripTree(v: Json, depth: nat, d: nat)
    ensures Strip(TreeOf(v, depth, true)) == TreeOf(v, d, false)
    decreases v, 0
  {
    match v
    case Array(items) =>
      if items != [] {
        StripItemsOf(items, [], depth, d);
      }
    case Object(members) =>
      if members != [] {
        StripPairsOf(members, depth, d);
      } else {
        StripTabs(depth - 1);
      }
    case _ =>
  }

  lemma StripTabs(n: int)
    ensures StripBlanks([LF] + Tabs(n)) == [] && StripBlanks(Tabs(n)) == []
  {
  }

  lemma {:induction false} StripItemsOf(items: seq<Json>, before: seq<byte>, depth: nat, d: nat)
    requires items != [] && StripBlanks(before) == []
    ensures StripItems(ItemsOf(items, before, depth, true)) == ItemsOf(items, [], d, false)
    decreases items, 1
  {
    StripTree(items[0], depth + 1, d + 1);
    if |items| > 1 {
      StripItemsOf(items[1..], [SPACE], depth, d);
    }
  }

  lemma {:induction false} StripPairsOf(members: seq<Member>, depth: nat, d: nat)
    requires members != []
    ensures StripPairs(PairsOf(members, depth, true)) == PairsOf(members, d, false)
    decreases members, 1
  {
    StripTabs(depth);
    StripTabs(depth + 1);
    StripTabs(0);
    assert StripBlanks([TAB]) == [];
    StripTree(members[0].value, depth + 1, d + 1);
    if |members| > 1 {
      StripPairsOf(members[1..], depth, d);
    }
  }
}
