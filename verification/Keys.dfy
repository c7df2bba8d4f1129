/** Case-insensitive keys, and the first item of a list that has a key. */
module Keys {
  import opened Bytes
  import opened Heap
  import opened Lists
  import opened Wrappers

  /** `tolower` in the C locale */
  function Lower(b: byte): byte {
    if 0x41 <= b <= 0x5A then b + 0x20 else b
  }

  function LowerAll(s: seq<byte>): (r: seq<byte>)
    ensures |r| == |s|
  {
    if s == [] then [] else [Lower(s[0])] + LowerAll(s[1..])
  }

  /** What `cJSON_strcasecmp` returns for two strings: the difference at the first place where they differ. */
  function Compare(a: seq<byte>, b: seq<byte>): int {
    var x, y := Lower(Head(a)), Lower(Head(b));
    if x != y then x as int - y as int
    else if a == [] || b == [] then 0
    else Compare(a[1..], b[1..])
  }

  /** Strings compare equal exactly when they differ at most in case, so it is an equivalence. */
  lemma {:induction false} CompareEqual(a: seq<byte>, b: seq<byte>)
    requires NulFree(a) && NulFree(b)
    ensures Compare(a, b) == 0 <==> LowerAll(a) == LowerAll(b)
  {
    if a != [] && b != [] {
      CompareEqual(a[1..], b[1..]);
      assert LowerAll(a)[0] == Lower(a[0]) && LowerAll(a)[1..] == LowerAll(a[1..]);
      assert LowerAll(b)[0] == Lower(b[0]) && LowerAll(b)[1..] == LowerAll(b[1..]);
    }
  }

  // ---------------------------------------------------------------- letters of either case

  /** The same byte, or the same letter of the ASCII alphabet in upper and in lower case. */
  predicate SameLetter(x: byte, y: byte) {
    || x == y
    || (0x41 <= x <= 0x5A && y == x + 0x20)
    || (0x41 <= y <= 0x5A && x == y + 0x20)
  }

  predicate SameLetters(a: seq<byte>, b: seq<byte>) {
    |a| == |b| && forall i :: 0 <= i < |a| ==> SameLetter(a[i], b[i])
  }

  lemma {:induction false} LowerAllAt(s: seq<byte>, i: nat)
    requires i < |s|
    ensures LowerAll(s)[i] == Lower(s[i])
  {
    if i > 0 {
      LowerAllAt(s[1..], i - 1);
    }
  }

  /** Two strings have the same lower-case form exactly when they have the same letters. */
  lemma SameForm(a: seq<byte>, b: seq<byte>)
    ensures LowerAll(a) == LowerAll(b) <==> SameLetters(a, b)
  {
    forall i | 0 <= i < |a|
      ensures LowerAll(a)[i] == Lower(a[i])
    {
      LowerAllAt(a, i);
    }
    forall i | 0 <= i < |b|
      ensures LowerAll(b)[i] == Lower(b[i])
    {
      LowerAllAt(b, i);
    }
    if LowerAll(a) == LowerAll(b) {
      assert forall i :: 0 <= i < |a| ==> LowerAll(a)[i] == LowerAll(b)[i];
    } else if SameLetters(a, b) {
      assert forall i :: 0 <= i < |a| ==> LowerAll(a)[i] == LowerAll(b)[i];
      assert false;
    }
  }

  /** The comparison is zero exactly for strings with the same letters. */
  lemma CompareSame(a: seq<byte>, b: seq<byte>)
    requires NulFree(a) && NulFree(b)
    ensures Compare(a, b) == 0 <==> SameLetters(a, b)
  {
    CompareEqual(a, b);
    SameForm(a, b);
  }

  /**
    Otherwise it is the difference of the bytes at the first place where the letters differ, the
    terminator included, with a letter in upper case taken as the one in lower case.
   */
  lemma {:induction false} CompareDiffers(a: seq<byte>, b: seq<byte>, i: nat)
    requires NulFree(a) && NulFree(b) && i <= |a| && i <= |b| && SameLetters(a[..i], b[..i])
    requires !SameLetter(Head(a[i..]), Head(b[i..]))
    ensures var x, y := Head(a[i..]), Head(b[i..]);
            Compare(a, b) == (if 0x41 <= x <= 0x5A then x as int + 0x20 else x as int)
                             - (if 0x41 <= y <= 0x5A then y as int + 0x20 else y as int)
    decreases i
  {
    if i == 0 {
      WholeSlice(a);
      WholeSlice(b);
    } else {
      assert SameLetter(a[..i][0], b[..i][0]);
      var c, d := a[1..], b[1..];
      forall j | 0 <= j < i - 1
        ensures SameLetter(c[j], d[j])
      {
        assert SameLetter(a[..i][j + 1], b[..i][j + 1]);
      }
      Drop(a, i);
      Drop(b, i);
      CompareDiffers(c, d, i - 1);
    }
  }

  /** Both pointers are null, or both point to strings with the same letters. */
  ghost predicate SameName(x: array?<byte>, y: array?<byte>)
    reads x, y
  {
    if x == null || y == null then x == y else SameLetters(CStr(x[..]), CStr(y[..]))
  }

  lemma SameKey(x: array?<byte>, y: array?<byte>)
    ensures KeyOf(x) == KeyOf(y) <==> SameName(x, y)
  {
    if x != null && y != null {
      SameForm(CStr(x[..]), CStr(y[..]));
    }
  }

  /** What the comparison sees of a string pointer. */
  ghost function KeyOf(b: array?<byte>): Option<seq<byte>>
    reads b
  {
    if b == null then None else Some(LowerAll(CStr(b[..])))
  }

  /** `cJSON_strcasecmp` */
  method StrCaseCmp(s1: array?<byte>, s2: array?<byte>) returns (r: int)
    requires IsString(s1) && IsString(s2)
    ensures r == 0 <==> KeyOf(s1) == KeyOf(s2)
    ensures r == 0 <==> SameName(s1, s2)
    ensures s1 != null && s2 != null ==> r == Compare(CStr(s1[..]), CStr(s2[..]))
    ensures (s1 == null) != (s2 == null) ==> r == 1
  {
    hide LowerAll;
    SameKey(s1, s2);
    if s1 == null {
      return if s1 == s2 then 0 else 1;
    }
    if s2 == null {
      return 1;
    }
    ghost var a, b := CStr(s1[..]), CStr(s2[..]);
    CStrPrefix(s1[..]);
    CStrPrefix(s2[..]);
    CompareEqual(a, b);
    var i: nat := 0;
    assert a[0..] == a && b[0..] == b;
    while Lower(s1[i]) == Lower(s2[i])
      invariant i <= |a| && i <= |b| && Compare(a[i..], b[i..]) == Compare(a, b)
      decreases |a| - i
    {
      Ends(s1[..], i);
      Ends(s2[..], i);
      if s1[i] == NUL {
        return 0;
      }
      i := i + 1;
    }
    Ends(s1[..], i);
    Ends(s2[..], i);
    r := Lower(s1[i]) as int - Lower(s2[i]) as int;
  }

  /** What stands at a place of a string. */
  lemma Ends(m: seq<byte>, i: nat)
    requires Terminated(m) && i <= |CStr(m)|
    ensures m[i] == Head(CStr(m)[i..]) && (m[i] == NUL <==> i == |CStr(m)|)
  {
    CStrPrefix(m);
  }

  // ---------------------------------------------------------------- keys of a list

  /** The blocks of the names of a list. */
  function NameBlocks(ss: seq<Shape>): set<array<byte>> {
    if ss == [] then {}
    else
      var b := ss[|ss| - 1].name;
      NameBlocks(ss[..|ss| - 1]) + if b == null then {} else {b}
  }

  ghost function KeysOf(ss: seq<Shape>): (r: seq<Option<seq<byte>>>)
    reads NameBlocks(ss)
    ensures |r| == |ss|
    decreases ss
  {
    if ss == [] then [] else KeysOf(ss[..|ss| - 1]) + [KeyOf(ss[|ss| - 1].name)]
  }

  lemma {:induction false} KeyAt(ss: seq<Shape>, i: nat)
    requires i < |ss|
    ensures Block(ss[i].name) <= NameBlocks(ss) && KeysOf(ss)[i] == KeyOf(ss[i].name)
    decreases ss
  {
    var init := ss[..|ss| - 1];
    if i < |init| {
      assert init[i] == ss[i];
      KeyAt(init, i);
    }
  }

  twostate lemma KeysUntouched(ss: seq<Shape>)
    requires old(allocated(NameBlocks(ss))) && unchanged(NameBlocks(ss))
    ensures KeysOf(ss) == old(KeysOf(ss))
  {
  }

  lemma {:induction false} KeysJoined(a: seq<Shape>, b: seq<Shape>)
    ensures KeysOf(a + b) == KeysOf(a) + KeysOf(b)
    decreases |b|
  {
    if b == [] {
      Neutral(a);
      Neutral(KeysOf(a));
    } else {
      var init, s := b[..|b| - 1], b[|b| - 1];
      KeysJoined(a, init);
      assert (a + b)[..|a + b| - 1] == a + init;
      Associate(KeysOf(a), KeysOf(init), [KeyOf(s.name)]);
    }
  }

  /** Editing a list of shapes edits the list of their keys. */
  lemma KeysSplit(ss: seq<Shape>, i: nat)
    requires i < |ss|
    ensures ss == ss[..i] + [ss[i]] + ss[i + 1..]
    ensures KeysOf(ss) == KeysOf(ss[..i]) + [KeyOf(ss[i].name)] + KeysOf(ss[i + 1..])
  {
    var a, b := ss[..i], ss[i + 1..];
    assert ss == a + [ss[i]] + b;
    KeysAdded(a, ss[i]);
    KeysJoined(a + [ss[i]], b);
  }

  lemma KeysAdded(ss: seq<Shape>, s: Shape)
    ensures KeysOf(ss + [s]) == KeysOf(ss) + [KeyOf(s.name)]
  {
    assert (ss + [s])[..|ss|] == ss;
  }

  lemma KeysRemoved(ss: seq<Shape>, i: nat)
    requires i < |ss|
    ensures KeysOf(Removed(ss, i)) == Removed(KeysOf(ss), i)
  {
    KeysSplit(ss, i);
    KeysJoined(ss[..i], ss[i + 1..]);
    TakenOut(KeysOf(ss[..i]), KeyOf(ss[i].name), KeysOf(ss[i + 1..]));
  }

  lemma TakenOut<T>(a: seq<T>, x: T, b: seq<T>)
    ensures Removed(a + [x] + b, |a|) == a + b
  {
  }

  lemma KeysReplaced(ss: seq<Shape>, i: nat, s: Shape)
    requires i < |ss|
    ensures KeysOf(ss[i := s]) == KeysOf(ss)[i := KeyOf(s.name)]
  {
    KeysSplit(ss, i);
    var r := ss[i := s];
    KeysSplit(r, i);
    assert r[..i] == ss[..i] && r[i + 1..] == ss[i + 1..];
    PutIn(KeysOf(ss[..i]), KeyOf(ss[i].name), KeyOf(s.name), KeysOf(ss[i + 1..]));
  }

  lemma PutIn<T>(a: seq<T>, x: T, y: T, b: seq<T>)
    ensures (a + [x] + b)[|a| := y] == a + [y] + b
  {
  }

  lemma NamesInHeap(ss: seq<Shape>)
    ensures allocated(NameBlocks(ss))
  {
  }

  // ---------------------------------------------------------------- lookup

  /** The first place of a key, or the length of the list. */
  function Find<K(==)>(keys: seq<K>, k: K): (i: nat)
    ensures i <= |keys|
  {
    if keys == [] || keys[0] == k then 0 else 1 + Find(keys[1..], k)
  }

  lemma Found<K>(keys: seq<K>, k: K)
    ensures var i := Find(keys, k); (i < |keys| ==> keys[i] == k) && forall j :: 0 <= j < i ==> keys[j] != k
  {
  }

  lemma FindIs<K>(keys: seq<K>, k: K, i: nat)
    requires i <= |keys| && (i < |keys| ==> keys[i] == k) && forall j :: 0 <= j < i ==> keys[j] != k
    ensures Find(keys, k) == i
  {
    Found(keys, k);
  }

  lemma FindBehind<K>(front: seq<K>, rest: seq<K>, k: K)
    requires forall j :: 0 <= j < |front| ==> front[j] != k
    ensures Find(front + rest, k) == |front| + Find(rest, k)
  {
    hide Find;
    Found(rest, k);
    FindIs(front + rest, k, |front| + Find(rest, k));
  }

  /** The place where a key is found is that of the first name with the same letters. */
  lemma FirstNamed(ss: seq<Shape>, str: array?<byte>)
    ensures var i := Find(KeysOf(ss), KeyOf(str));
            && (i < |ss| ==> SameName(ss[i].name, str))
            && forall j :: 0 <= j < i ==> !SameName(ss[j].name, str)
  {
    hide Find;
    Found(KeysOf(ss), KeyOf(str));
    forall j | 0 <= j < |ss|
      ensures KeysOf(ss)[j] == KeyOf(str) <==> SameName(ss[j].name, str)
    {
      KeyAt(ss, j);
      SameKey(ss[j].name, str);
    }
  }

  /** A removal: every other key finds the same item, one place further to the front if it stood behind. */
  lemma RemovedFinds<K>(keys: seq<K>, i: nat, other: K)
    requires i < |keys| && keys[i] != other
    ensures var j := Find(keys, other); Find(Removed(keys, i), other) == if j > i then j - 1 else j
  {
    hide Find;
    var j, r := Find(keys, other), Removed(keys, i);
    Found(keys, other);
    RemovedAt(keys, i);
    var at := if j > i then j - 1 else j;
    assert at <= |r| && (at < |r| ==> r[at] == other);
    FindIs(r, other, at);
  }

  /** After a removal the key finds the next item that has it. */
  lemma RemovedNext<K>(keys: seq<K>, k: K)
    requires Find(keys, k) < |keys|
    ensures var i := Find(keys, k); Find(Removed(keys, i), k) == i + Find(keys[i + 1..], k)
  {
    hide Find;
    var i := Find(keys, k);
    Found(keys, k);
    FindBehind(keys[..i], keys[i + 1..], k);
  }

  /** A key is overwritten at the place where it is found, by itself or by one that is not looked for. */
  lemma ReplacedFinds<K>(keys: seq<K>, i: nat, k: K, x: K, other: K)
    requires i == Find(keys, k) && i < |keys| && (x == k || x != other)
    ensures Find(keys[i := x], other) == i <==> x == other
    ensures other != k ==> Find(keys[i := x], other) == Find(keys, other)
  {
    Found(keys, k);
    Found(keys, other);
    Found(keys[i := x], other);
    if other != k || x == k {
      FindIs(keys[i := x], other, Find(keys, other));
    }
  }

  // ---------------------------------------------------------------- lookup after an edit

  /** After an item is removed, every key that is not its own finds the item it found before, or still none. */
  lemma LookupAfterRemoval(ss: seq<Shape>, i: nat, other: Option<seq<byte>>)
    requires i < |ss| && KeysOf(ss)[i] != other
    ensures var r, j := Removed(ss, i), Find(KeysOf(ss), other);
            var at := Find(KeysOf(r), other);
            if j < |ss| then at < |r| && r[at] == ss[j] else at == |r|
  {
    KeysRemoved(ss, i);
    RemovedFinds(KeysOf(ss), i, other);
    Found(KeysOf(ss), other);
  }

  /** After the item of a key is replaced under that key, it finds the new item and every other key what it found. */
  lemma LookupAfterReplacement(ss: seq<Shape>, i: nat, s: Shape, other: Option<seq<byte>>)
    requires i == Find(KeysOf(ss), KeyOf(s.name)) && i < |ss|
    ensures Find(KeysOf(ss[i := s]), KeyOf(s.name)) == i && ss[i := s][i] == s
    ensures other != KeyOf(s.name) ==>
      var j := Find(KeysOf(ss), other);
      Find(KeysOf(ss[i := s]), other) == j && (j < |ss| ==> ss[i := s][j] == ss[j])
  {
    KeysReplaced(ss, i, s);
    Found(KeysOf(ss), KeyOf(s.name));
    assert KeysOf(ss)[i := KeyOf(s.name)] == KeysOf(ss);
    Found(KeysOf(ss), other);
  }
}
