/**
  Where the white space of formatted text stands.  The text is scanned outside its literals,
  with the brackets that are open; values and their printing play no part in the definition.
 */
module Layout {
  import opened Bytes
  import opened Json
  import opened MinifySpec
  import RoundTrip
  import Strings
  import Theorems

  /** What is left after the leading tabs. */
  function AfterTabs(s: seq<byte>): (r: seq<byte>)
    ensures |r| <= |s|
  {
    if Head(s) == TAB then AfterTabs(s[1..]) else s
  }

  /** How many tabs there are in front. */
  function LeadingTabs(s: seq<byte>): nat {
    |s| - |AfterTabs(s)|
  }

  /** The bracket that was opened last. */
  function Innermost(open: seq<byte>): byte {
    if open == [] then NUL else open[|open| - 1]
  }

  /**
    The text goes on from a place outside literals where the brackets `open` are open.  A line
    feed stands after an opening brace, after each member, with its comma, and nowhere else.  As
    many tabs follow it as brackets are open, not counting the one that is closed next, and one
    fewer in an object without members.  One space follows a comma between items and one tab a
    colon.  There is no other white space.
   */
  predicate LaidOut(s: seq<byte>, open: seq<byte>)
    decreases |s|
  {
    if s == [] then open == []
    else if s[0] == QUOTE then
      var k := Strings.Count(s[1..]).1;
      Head(k) == QUOTE && LaidOut(k[1..], open)
    else if s[0] == LBRACKET then LaidOut(s[1..], open + [LBRACKET])
    else if s[0] == RBRACKET then Innermost(open) == LBRACKET && LaidOut(s[1..], open[..|open| - 1])
    else if s[0] == LBRACE then
      Head(s[1..]) == LF &&
      var k := AfterTabs(s[2..]);
      if Head(k) == RBRACE then
        LeadingTabs(s[2..]) == (if open == [] then 0 else |open| - 1) && LaidOut(k[1..], open)
      else
        LeadingTabs(s[2..]) == |open| + 1 && Head(k) == QUOTE && LaidOut(k, open + [LBRACE])
    else if s[0] == LF then
      var k := AfterTabs(s[1..]);
      Innermost(open) == LBRACE && LeadingTabs(s[1..]) == |open| - 1 && Head(k) == RBRACE
      && LaidOut(k[1..], open[..|open| - 1])
    else if s[0] == COMMA && Innermost(open) == LBRACE then
      Head(s[1..]) == LF &&
      var k := AfterTabs(s[2..]);
      LeadingTabs(s[2..]) == |open| && Head(k) == QUOTE && LaidOut(k, open)
    else if s[0] == COMMA then Head(s[1..]) == SPACE && LaidOut(s[2..], open)
    else if s[0] == COLON then Head(s[1..]) == TAB && LaidOut(s[2..], open)
    else s[0] != RBRACE && s[0] != SLASH && s[0] > SPACE && LaidOut(s[1..], open)
  }

  /** The text has no white space outside its literals. */
  predicate Spaceless(s: seq<byte>)
    decreases |s|
  {
    if s == [] then true
    else if s[0] == QUOTE then
      var k := Strings.Count(s[1..]).1;
      Head(k) == QUOTE && Spaceless(k[1..])
    else s[0] > SPACE && Spaceless(s[1..])
  }

  // ---------------------------------------------------------------- what is printed is laid out

  lemma {:induction false} TabsCounted(n: nat, k: seq<byte>)
    requires Head(k) != TAB
    ensures AfterTabs(Tabs(n) + k) == k && LeadingTabs(Tabs(n) + k) == n
  {
    if n == 0 {
      Neutral(k);
    } else {
      TabsCounted(n - 1, k);
      Associate([TAB], Tabs(n - 1), k);
      Behind([TAB], Tabs(n - 1) + k);
    }
  }

  /** A literal takes up no brackets. */
  lemma StringLaid(s: seq<byte>, open: seq<byte>, k: seq<byte>)
    requires NulFree(s) && LaidOut(k, open)
    ensures LaidOut(PrintString(s) + k, open) && Head(PrintString(s) + k) == QUOTE
  {
    var body := RoundTrip.BodyOf(s);
    var s1 := Strings.EmitBody(body, [QUOTE] + k);
    RoundTrip.StringText(s, k);
    RoundTrip.BodyMeaning(s);
    Strings.DecodesBody(body, [QUOTE] + k);
    Strings.PassesAgree(s1);
    Behind([QUOTE], s1);
    Behind([QUOTE], k);
  }

  lemma {:induction false} BytesLaid(x: seq<byte>, open: seq<byte>, k: seq<byte>)
    requires LaidOut(k, open)
    requires forall i :: 0 <= i < |x| ==> x[i] == MINUS || IsDigit(x[i]) || 0x61 <= x[i] <= 0x7A
    ensures LaidOut(x + k, open)
  {
    if x == [] {
      Neutral(k);
    } else {
      BytesLaid(x[1..], open, k);
      DropIn(x, k, 1);
    }
  }

  lemma IntBytes(n: int)
    ensures forall i :: 0 <= i < |PrintInt(n)| ==> PrintInt(n)[i] == MINUS || IsDigit(PrintInt(n)[i])
  {
    RoundTrip.DecimalValue(if n < 0 then -n else n);
  }

  lemma {:induction false} ValueLaid(v: Json, open: seq<byte>, k: seq<byte>)
    requires Printable(v) && LaidOut(k, open)
    ensures LaidOut(PrintValue(v, |open|, true) + k, open)
    decreases v, 0
  {
    match v
    case Null => BytesLaid(NULL_WORD, open, k);
    case False => BytesLaid(FALSE_WORD, open, k);
    case True => BytesLaid(TRUE_WORD, open, k);
    case Number(r) =>
      IntBytes(r.Floor);
      BytesLaid(PrintInt(r.Floor), open, k);
    case String(s) => StringLaid(s, open, k);
    case Array(items) =>
      if items == [] {
        EmptyArrayLaid(open, k);
      } else {
        ItemsLaid(items, open, k);
        ArrayOpens(PrintItems(items, |open|, true), open, k);
      }
    case Object(members) =>
      if members == [] {
        EmptyObjectLaid(open, k);
      } else {
        var text := MembersLaid(members, open, k);
        ObjectOpens(PrintMembers(members, |open|, true), text, open, k);
      }
  }

  lemma EmptyArrayLaid(open: seq<byte>, k: seq<byte>)
    requires LaidOut(k, open)
    ensures LaidOut([LBRACKET, RBRACKET] + k, open)
  {
    var s := [LBRACKET, RBRACKET] + k;
    assert s[1..] == [RBRACKET] + k && s[1..][1..] == k;
    assert (open + [LBRACKET])[..|open|] == open;
  }

  lemma ArrayOpens(text: seq<byte>, open: seq<byte>, k: seq<byte>)
    requires LaidOut(text + k, open + [LBRACKET])
    ensures LaidOut([LBRACKET] + text + k, open)
  {
    Associate([LBRACKET], text, k);
    Behind([LBRACKET], text + k);
  }

  lemma EmptyObjectLaid(open: seq<byte>, k: seq<byte>)
    requires LaidOut(k, open)
    ensures LaidOut([LBRACE] + ([LF] + Tabs(|open| - 1)) + [RBRACE] + k, open)
  {
    var tabs := Tabs(|open| - 1);
    var s := [LBRACE] + ([LF] + tabs) + [RBRACE] + k;
    assert s == [LBRACE, LF] + (tabs + ([RBRACE] + k));
    TabsCounted(if open == [] then 0 else |open| - 1, [RBRACE] + k);
    Behind([LBRACE, LF], tabs + ([RBRACE] + k));
    Behind([RBRACE], k);
  }

  lemma ObjectOpens(members: seq<byte>, text: seq<byte>, open: seq<byte>, k: seq<byte>)
    requires members + k == Tabs(|open| + 1) + text && Head(text) == QUOTE && LaidOut(text, open + [LBRACE])
    ensures LaidOut([LBRACE] + [LF] + members + k, open)
  {
    var s := [LBRACE] + [LF] + members + k;
    assert s == [LBRACE, LF] + (members + k);
    Behind([LBRACE, LF], members + k);
    TabsCounted(|open| + 1, text);
  }

  lemma {:induction false} ItemsLaid(items: seq<Json>, open: seq<byte>, k: seq<byte>)
    requires items != [] && (forall i :: 0 <= i < |items| ==> Printable(items[i])) && LaidOut(k, open)
    ensures LaidOut(PrintItems(items, |open|, true) + k, open + [LBRACKET])
    decreases items, 1
  {
    var first, inside := PrintValue(items[0], |open| + 1, true), open + [LBRACKET];
    if |items| == 1 {
      ArrayCloses(open, k);
      ValueLaid(items[0], inside, [RBRACKET] + k);
      assert PrintItems(items, |open|, true) == first + [] + [RBRACKET];
      Neutral(first);
      Associate(first, [RBRACKET], k);
    } else {
      var more := PrintItems(items[1..], |open|, true);
      ItemsLaid(items[1..], open, k);
      CommaLaid(more + k, inside);
      ValueLaid(items[0], inside, [COMMA, SPACE] + (more + k));
      Associate(first + [COMMA, SPACE], more, k);
      Associate(first, [COMMA, SPACE], more + k);
    }
  }

  lemma ArrayCloses(open: seq<byte>, k: seq<byte>)
    requires LaidOut(k, open)
    ensures LaidOut([RBRACKET] + k, open + [LBRACKET])
  {
    Behind([RBRACKET], k);
    assert (open + [LBRACKET])[..|open|] == open;
  }

  lemma CommaLaid(k: seq<byte>, open: seq<byte>)
    requires LaidOut(k, open) && Innermost(open) == LBRACKET
    ensures LaidOut([COMMA, SPACE] + k, open)
  {
    Behind([COMMA, SPACE], k);
  }

  /** The members from one of them on, after the tabs in front of it. */
  lemma {:induction false} MembersLaid(members: seq<Member>, open: seq<byte>, k: seq<byte>) returns (text: seq<byte>)
    requires members != [] && LaidOut(k, open)
    requires forall i :: 0 <= i < |members| ==> NulFree(members[i].name) && Printable(members[i].value)
    ensures PrintMembers(members, |open|, true) + k == Tabs(|open| + 1) + text
    ensures Head(text) == QUOTE && LaidOut(text, open + [LBRACE])
    decreases members, 1
  {
    var name, value := PrintString(members[0].name), PrintValue(members[0].value, |open| + 1, true);
    var inside, more := open + [LBRACE], PrintMembers(members[1..], |open|, true);
    var sep := if |members| == 1 then [] else [COMMA];
    var rest := sep + ([LF] + (more + k));
    if |members| == 1 {
      ObjectCloses(open, k);
      Neutral([LF] + (more + k));
    } else {
      var next := MembersLaid(members[1..], open, k);
      MemberLaid(more + k, next, inside);
    }
    ValueLaid(members[0].value, inside, rest);
    ColonLaid(value + rest, inside);
    StringLaid(members[0].name, inside, [COLON, TAB] + (value + rest));
    text := name + ([COLON, TAB] + (value + rest));
    RoundTrip.Flatten(Tabs(|open| + 1), name, [COLON, TAB], value, sep, [LF], more, k);
  }

  lemma ObjectCloses(open: seq<byte>, k: seq<byte>)
    requires LaidOut(k, open)
    ensures LaidOut([LF] + (PrintMembers([], |open|, true) + k), open + [LBRACE])
  {
    var s := [LF] + (PrintMembers([], |open|, true) + k);
    Associate(Tabs(|open|), [RBRACE], k);
    Behind([LF], PrintMembers([], |open|, true) + k);
    TabsCounted(|open|, [RBRACE] + k);
    Behind([RBRACE], k);
    assert (open + [LBRACE])[..|open|] == open;
  }

  lemma MemberLaid(members: seq<byte>, text: seq<byte>, open: seq<byte>)
    requires members == Tabs(|open|) + text && Head(text) == QUOTE
    requires LaidOut(text, open) && Innermost(open) == LBRACE
    ensures LaidOut([COMMA] + ([LF] + members), open)
  {
    var s := [COMMA] + ([LF] + members);
    Behind([COMMA], [LF] + members);
    Behind([LF], members);
    Drop(s, 2);
    TabsCounted(|open|, text);
  }

  lemma ColonLaid(k: seq<byte>, open: seq<byte>)
    requires LaidOut(k, open)
    ensures LaidOut([COLON, TAB] + k, open)
  {
    Behind([COLON, TAB], k);
  }

  // ---------------------------------------------------------------- the layout leaves no choice

  lemma {:induction false} MinifyTabs(s: seq<byte>)
    ensures Minify(s) == Minify(AfterTabs(s)) && s == Tabs(LeadingTabs(s)) + AfterTabs(s)
  {
    if Head(s) == TAB {
      MinifyTabs(s[1..]);
      Uncons(s);
      Associate([TAB], Tabs(LeadingTabs(s[1..])), AfterTabs(s));
    } else {
      Neutral(s);
    }
  }

  /** A line feed and the tabs behind it. */
  lemma Break(s: seq<byte>)
    requires Head(s) == LF
    ensures Minify(s) == Minify(AfterTabs(s[1..]))
    ensures s == [LF] + (Tabs(LeadingTabs(s[1..])) + AfterTabs(s[1..]))
  {
    MinifyTabs(s[1..]);
    Uncons(s);
  }

  lemma MinifyHead(s: seq<byte>, open: seq<byte>)
    requires LaidOut(s, open)
    ensures Minify(s) == [] <==> s == []
    ensures s != [] ==> Minify(s)[0] == if s[0] == LF then RBRACE else s[0]
    ensures s != [] && s[0] != LF && s[0] != QUOTE ==> Minify(s) == [s[0]] + Minify(s[1..])
  {
    if Head(s) == LF {
      Break(s);
    }
  }

  /** A literal in front, what is behind it, and the literal in the minified text. */
  lemma Literal(s: seq<byte>) returns (x: seq<byte>, r: seq<byte>)
    requires Head(s) == QUOTE && Head(Strings.Count(s[1..]).1) == QUOTE
    ensures r == Strings.Count(s[1..]).1[1..] && |r| < |s| && s == [QUOTE] + (x + ([QUOTE] + r))
    ensures Minify(s) == [QUOTE] + (x + ([QUOTE] + Minify(r)))
    ensures Strings.Count(x + ([QUOTE] + Minify(r))).1 == [QUOTE] + Minify(r)
  {
    var s1 := s[1..];
    var k := Strings.Count(s1).1;
    x, r := s1[..|s1| - |k|], k[1..];
    Strings.CountSuffix(s1);
    Halves(s1, |x|);
    Uncons(k);
    Uncons(s);
    Strings.CompleteCut(x, r, Minify(r));
  }

  lemma SameLiteral(x: seq<byte>, a: seq<byte>, y: seq<byte>, b: seq<byte>)
    requires [QUOTE] + (x + ([QUOTE] + a)) == [QUOTE] + (y + ([QUOTE] + b))
    requires Strings.Count(x + ([QUOTE] + a)).1 == [QUOTE] + a && Strings.Count(y + ([QUOTE] + b)).1 == [QUOTE] + b
    ensures x == y && a == b
  {
    Behind([QUOTE], x + ([QUOTE] + a));
    Behind([QUOTE], y + ([QUOTE] + b));
    Behind([QUOTE], a);
    Behind([QUOTE], b);
    var s := x + ([QUOTE] + a);
    assert s[..|x|] == x && s[..|y|] == y;
  }

  lemma FirstKept(k: seq<byte>)
    requires Head(k) == RBRACE || Head(k) == QUOTE
    ensures Head(Minify(k)) == k[0] && (k[0] == RBRACE ==> Minify(k) == [RBRACE] + Minify(k[1..]))
  {
  }

  /** The minified text tells a brace from a literal behind a line feed. */
  lemma SameBreak(s: seq<byte>, t: seq<byte>)
    requires Head(s) == LF && Head(t) == LF && Minify(s) == Minify(t)
    requires Head(AfterTabs(s[1..])) == RBRACE || Head(AfterTabs(s[1..])) == QUOTE
    requires Head(AfterTabs(t[1..])) == RBRACE || Head(AfterTabs(t[1..])) == QUOTE
    ensures var k, l := AfterTabs(s[1..]), AfterTabs(t[1..]);
            && Minify(k) == Minify(l) && k[0] == l[0] && (k[0] == RBRACE ==> Minify(k[1..]) == Minify(l[1..]))
  {
    hide Minify;
    Break(s);
    Break(t);
    var k, l := AfterTabs(s[1..]), AfterTabs(t[1..]);
    FirstKept(k);
    FirstKept(l);
    if k[0] == RBRACE {
      Behind([RBRACE], Minify(k[1..]));
      Behind([RBRACE], Minify(l[1..]));
    }
  }

  lemma Rejoined(s: seq<byte>, t: seq<byte>)
    requires Head(s) == LF && Head(t) == LF && LeadingTabs(s[1..]) == LeadingTabs(t[1..])
    requires AfterTabs(s[1..]) == AfterTabs(t[1..])
    ensures s == t
  {
    Break(s);
    Break(t);
  }

  /** Two texts that are laid out and have the same bytes apart from white space are the same. */
  lemma {:induction false} OneLayout(s: seq<byte>, t: seq<byte>, open: seq<byte>)
    requires LaidOut(s, open) && LaidOut(t, open) && Minify(s) == Minify(t)
    ensures s == t
    decreases |s|, 2
  {
    MinifyHead(s, open);
    MinifyHead(t, open);
    if s != [] {
      if s[0] == QUOTE {
        var x, a := Literal(s);
        var y, b := Literal(t);
        SameLiteral(x, Minify(a), y, Minify(b));
        OneLayout(a, b, open);
      } else if s[0] == LF {
        OneEnd(s, t, open);
      } else {
        Behind([s[0]], Minify(s[1..]));
        Behind([t[0]], Minify(t[1..]));
        OneToken(s, t, open);
      }
    }
  }

  lemma {:induction false} OneEnd(s: seq<byte>, t: seq<byte>, open: seq<byte>)
    requires LaidOut(s, open) && LaidOut(t, open) && Head(s) == LF && Head(t) == LF && Minify(s) == Minify(t)
    ensures s == t
    decreases |s|, 1
  {
    var k, l := AfterTabs(s[1..]), AfterTabs(t[1..]);
    SameBreak(s, t);
    OneLayout(k[1..], l[1..], open[..|open| - 1]);
    Uncons(k);
    Uncons(l);
    Rejoined(s, t);
  }

  /** A token other than a literal, and the white space behind it. */
  lemma {:induction false} OneToken(s: seq<byte>, t: seq<byte>, open: seq<byte>)
    requires LaidOut(s, open) && LaidOut(t, open) && s != [] && t != [] && Minify(s[1..]) == Minify(t[1..])
    requires s[0] == t[0] && s[0] != QUOTE && s[0] != LF
    ensures s == t
    decreases |s|, 1
  {
    var s1, t1 := s[1..], t[1..];
    Uncons(s);
    Uncons(t);
    if s[0] == LBRACKET {
      OneLayout(s1, t1, open + [LBRACKET]);
    } else if s[0] == RBRACKET {
      OneLayout(s1, t1, open[..|open| - 1]);
    } else if s[0] == LBRACE {
      OneOpening(s, t, open);
    } else if s[0] == COMMA && Innermost(open) == LBRACE {
      SameBreak(s1, t1);
      Drop(s, 2);
      Drop(t, 2);
      OneLayout(AfterTabs(s1[1..]), AfterTabs(t1[1..]), open);
      Rejoined(s1, t1);
    } else if s[0] == COMMA || s[0] == COLON {
      Uncons(s1);
      Uncons(t1);
      OneLayout(s1[1..], t1[1..], open);
    } else {
      OneLayout(s1, t1, open);
    }
  }

  lemma {:induction false} OneOpening(s: seq<byte>, t: seq<byte>, open: seq<byte>)
    requires LaidOut(s, open) && LaidOut(t, open) && Head(s) == LBRACE && Head(t) == LBRACE
    requires Minify(s[1..]) == Minify(t[1..])
    ensures s == t
    decreases |s|, 0
  {
    var s1, t1 := s[1..], t[1..];
    Uncons(s);
    Uncons(t);
    Drop(s, 2);
    Drop(t, 2);
    var k, l := AfterTabs(s1[1..]), AfterTabs(t1[1..]);
    SameBreak(s1, t1);
    if k[0] == RBRACE {
      OneLayout(k[1..], l[1..], open);
      Uncons(k);
      Uncons(l);
    } else {
      OneLayout(k, l, open + [LBRACE]);
    }
    Rejoined(s1, t1);
  }

  // ---------------------------------------------------------------- the laws

  /** What is left of a text that is laid out when its white space is removed has none. */
  lemma {:induction false} MinifiedIsSpaceless(s: seq<byte>, open: seq<byte>)
    requires LaidOut(s, open)
    ensures Spaceless(Minify(s))
    decreases |s|, 1
  {
    MinifyHead(s, open);
    if s != [] {
      if s[0] == QUOTE {
        var x, r := Literal(s);
        MinifiedIsSpaceless(r, open);
        Behind([QUOTE], x + ([QUOTE] + Minify(r)));
        Behind([QUOTE], Minify(r));
      } else if s[0] == LF {
        Break(s);
        MinifiedIsSpaceless(AfterTabs(s[1..])[1..], open[..|open| - 1]);
        Behind([RBRACE], Minify(AfterTabs(s[1..])[1..]));
      } else {
        Behind([s[0]], Minify(s[1..]));
        TokenIsSpaceless(s, open);
      }
    }
  }

  lemma {:induction false} TokenIsSpaceless(s: seq<byte>, open: seq<byte>)
    requires LaidOut(s, open) && s != [] && s[0] != QUOTE && s[0] != LF
    ensures s[0] > SPACE && Spaceless(Minify(s[1..]))
    decreases |s|, 0
  {
    var s1 := s[1..];
    if s[0] == LBRACKET {
      MinifiedIsSpaceless(s1, open + [LBRACKET]);
    } else if s[0] == RBRACKET {
      MinifiedIsSpaceless(s1, open[..|open| - 1]);
    } else if s[0] == LBRACE || (s[0] == COMMA && Innermost(open) == LBRACE) {
      Drop(s, 2);
      Break(s1);
      var k := AfterTabs(s1[1..]);
      if Head(k) == RBRACE {
        MinifiedIsSpaceless(k[1..], open);
        Behind([RBRACE], Minify(k[1..]));
      } else {
        MinifiedIsSpaceless(k, if s[0] == LBRACE then open + [LBRACE] else open);
      }
    } else if s[0] == COMMA || s[0] == COLON {
      MinifiedIsSpaceless(s1[1..], open);
    } else {
      MinifiedIsSpaceless(s1, open);
    }
  }

  /** Unformatted text has no white space outside its literals. */
  lemma PrintsSpaceless(v: Json)
    requires Printable(v)
    ensures Spaceless(PrintValue(v, 0, false))
  {
    PrintsLayout(v, PrintValue(v, 0, true));
    MinifiedIsSpaceless(PrintValue(v, 0, true), []);
  }

  /**
    The formatted text of a value is the one text that is laid out and has the bytes of the
    unformatted text apart from white space.
   */
  lemma PrintsLayout(v: Json, s: seq<byte>)
    requires Printable(v)
    ensures s == PrintValue(v, 0, true) <==> LaidOut(s, []) && Minify(s) == PrintValue(v, 0, false)
  {
    var p := PrintValue(v, 0, true);
    ValueLaid(v, [], []);
    Neutral(p);
    Theorems.MinifyPrinted(v, 0);
    if LaidOut(s, []) && Minify(s) == Minify(p) {
      OneLayout(s, p, []);
    }
  }
}
