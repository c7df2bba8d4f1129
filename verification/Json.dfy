/** JSON values, and the text `cJSON_Print` and `cJSON_PrintUnformatted` give for them. */
module Json {
  import opened Bytes

  datatype Json =
    | Null
    | False
    | True
    | Number(number: real)
    | String(text: seq<byte>)
    | Array(items: seq<Json>)
    | Object(members: seq<Member>)

  datatype Member = Member(name: seq<byte>, value: Json)

  const INT_MIN: int := -0x8000_0000
  const INT_MAX: int := 0x7FFF_FFFF

  /** A number that `print_number` prints with `%d`. */
  predicate IsInt(r: real) {
    r == r.Floor as real && INT_MIN <= r.Floor <= INT_MAX
  }

  /** Values whose numbers are C integers and whose strings are C strings. */
  predicate Printable(v: Json) {
    match v
    case Number(r) => IsInt(r)
    case String(s) => NulFree(s)
    case Array(items) => forall i :: 0 <= i < |items| ==> Printable(items[i])
    case Object(members) => forall i :: 0 <= i < |members| ==> NulFree(members[i].name) && Printable(members[i].value)
    case _ => true
  }

  // ---------------------------------------------------------------- printing

  /** The decimal digits of `n`, as many as needed, none for zero. */
  function Decimal(n: nat): seq<byte>
  {
    if n == 0 then [] else Decimal(n / 10) + [(0x30 + n % 10) as byte]
  }

  /** `%d` */
  function PrintInt(n: int): seq<byte> {
    if n == 0 then [ZERO] else if n < 0 then [MINUS] + Decimal(-n) else Decimal(n)
  }

  /** The letter of the short escape of a byte, or NUL when it has none. */
  function EscapeLetter(b: byte): byte {
    if b == QUOTE || b == BACKSLASH then b
    else if b == BS then LOWER_B
    else if b == FF then LOWER_F
    else if b == LF then LOWER_N
    else if b == CR then LOWER_R
    else if b == TAB then LOWER_T
    else NUL
  }

  /** A lower-case hexadecimal digit. */
  function HexLetter(d: int): byte
    requires 0 <= d < 16
  {
    if d < 10 then (0x30 + d) as byte else (0x57 + d) as byte
  }

  function PrintByte(b: byte): (r: seq<byte>)
    ensures r != []
  {
    if EscapeLetter(b) != NUL then [BACKSLASH, EscapeLetter(b)]
    else if b >= 32 then [b]
    else [BACKSLASH, LOWER_U, ZERO, ZERO, HexLetter(b as int / 16), HexLetter(b as int % 16)]
  }

  function PrintBytes(s: seq<byte>): seq<byte> {
    if s == [] then [] else PrintByte(s[0]) + PrintBytes(s[1..])
  }

  function PrintString(s: seq<byte>): seq<byte> {
    [QUOTE] + PrintBytes(s) + [QUOTE]
  }

  function Tabs(n: int): (r: seq<byte>)
    ensures |r| == if n < 0 then 0 else n
  {
    if n <= 0 then [] else [TAB] + Tabs(n - 1)
  }

  /** The text of a printable value at a nesting depth, formatted or not. */
  function PrintValue(v: Json, depth: nat, fmt: bool): seq<byte>
    decreases v, 0
  {
    match v
    case Null => NULL_WORD
    case False => FALSE_WORD
    case True => TRUE_WORD
    case Number(r) => PrintInt(r.Floor)
    case String(s) => PrintString(s)
    case Array(items) =>
      if items == [] then [LBRACKET, RBRACKET]
      else [LBRACKET] + PrintItems(items, depth, fmt)
    case Object(members) =>
      if members == [] then [LBRACE] + (if fmt then [LF] + Tabs(depth - 1) else []) + [RBRACE]
      else [LBRACE] + (if fmt then [LF] else []) + PrintMembers(members, depth, fmt)
  }

  /** The last items of an array at `depth`, from one of them to the closing bracket. */
  function PrintItems(items: seq<Json>, depth: nat, fmt: bool): seq<byte>
    decreases items, 1
  {
    if items == [] then [RBRACKET]
    else
      PrintValue(items[0], depth + 1, fmt)
      + (if |items| == 1 then [] else if fmt then [COMMA, SPACE] else [COMMA])
      + PrintItems(items[1..], depth, fmt)
  }

  /** The last members of an object at `depth`, from one of them to the closing brace. */
  function PrintMembers(members: seq<Member>, depth: nat, fmt: bool): seq<byte>
    decreases members, 1
  {
    if members == [] then (if fmt then Tabs(depth) else []) + [RBRACE]
    else
      (if fmt then Tabs(depth + 1) else [])
      + PrintString(members[0].name)
      + (if fmt then [COLON, TAB] else [COLON])
      + PrintValue(members[0].value, depth + 1, fmt)
      + (if |members| == 1 then [] else [COMMA])
      + (if fmt then [LF] else [])
      + PrintMembers(members[1..], depth, fmt)
  }

  // ---------------------------------------------------------------- printed text has no terminator inside

  lemma TabsNulFree(n: int)
    ensures NulFree(Tabs(n))
  {
  }

  lemma IntNulFree(n: int)
    ensures NulFree(PrintInt(n))
  {
    DecimalNulFree(if n < 0 then -n else n);
  }

  lemma DecimalNulFree(n: nat)
    ensures NulFree(Decimal(n))
  {
  }

  lemma BytesNulFree(s: seq<byte>)
    requires NulFree(s)
    ensures NulFree(PrintBytes(s))
  {
  }

  lemma {:induction false} ValueNulFree(v: Json, depth: nat, fmt: bool)
    requires Printable(v)
    ensures NulFree(PrintValue(v, depth, fmt))
    decreases v, 0
  {
    hide PrintInt, PrintBytes, PrintItems, PrintMembers;
    match v
    case Number(r) => IntNulFree(r.Floor);
    case String(s) => BytesNulFree(s);
    case Array(items) => ItemsNulFree(items, depth, fmt);
    case Object(members) =>
      TabsNulFree(depth - 1);
      MembersNulFree(members, depth, fmt);
    case _ =>
  }

  lemma {:induction false} ItemsNulFree(items: seq<Json>, depth: nat, fmt: bool)
    requires forall i :: 0 <= i < |items| ==> Printable(items[i])
    ensures NulFree(PrintItems(items, depth, fmt))
    decreases items, 1
  {
    if items != [] {
      ValueNulFree(items[0], depth + 1, fmt);
      ItemsNulFree(items[1..], depth, fmt);
    }
  }

  lemma {:induction false} MembersNulFree(members: seq<Member>, depth: nat, fmt: bool)
    requires forall i :: 0 <= i < |members| ==> NulFree(members[i].name) && Printable(members[i].value)
    ensures NulFree(PrintMembers(members, depth, fmt))
    decreases members, 1
  {
    hide PrintBytes, PrintValue, Tabs;
    TabsNulFree(depth);
    TabsNulFree(depth + 1);
    if members != [] {
      BytesNulFree(members[0].name);
      ValueNulFree(members[0].value, depth + 1, fmt);
      MembersNulFree(members[1..], depth, fmt);
    }
  }
}
