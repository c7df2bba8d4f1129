/** The functions that find and edit the members of an object by key. */
module ObjectEdit {
  import opened Bytes
  import opened Deleter
  import opened Heap
  import opened Json
  import opened Keys
  import opened ListEdit
  import opened Lists
  import opened Wrappers
  import Writer

  /** The walk to the first member whose key compares equal. */
  method SeekKey(parent: Node, str: array?<byte>, ghost kids: seq<Shape>, ghost at: nat) returns (i: nat, c: Node?)
    requires ListOf(parent, kids) && IsString(str) && at == Find(KeysOf(kids), KeyOf(str))
    ensures i == at && c == if i < |kids| then kids[i].node else null
  {
    hide KeysOf, NameBlocks, Find, Foot, Feet, Holds, AllHold, Members, Values, CStr;
    ghost var keys := KeysOf(kids);
    NamesInHeap(kids);
    i, c := 0, parent.child;
    while c != null
      invariant i <= |kids| && c == (if i < |kids| then kids[i].node else null)
      invariant Linked(kids) && KeysOf(kids) == keys
      invariant forall j :: 0 <= j < i ==> keys[j] != KeyOf(str)
      decreases |kids| - i
    {
      KeyAt(kids, i);
      Element(kids, i);
      var r := StrCaseCmp(c.name, str);
      Untouched(kids);
      KeysUntouched(kids);
      if r == 0 {
        break;
      }
      i := i + 1;
      c := c.next;
    }
    FindIs(keys, KeyOf(str), i);
  }

  /** `cJSON_GetObjectItem` */
  method GetObjectItem(object_: Node, str: array?<byte>, ghost kids: seq<Shape>, ghost i: nat) returns (c: Node?)
    requires ListOf(object_, kids) && IsString(str) && i == Find(KeysOf(kids), KeyOf(str))
    ensures c == if i < |kids| then kids[i].node else null
    ensures i < |kids| ==> SameName(kids[i].name, str)
    ensures forall j :: 0 <= j < i ==> !SameName(kids[j].name, str)
  {
    var n;
    NamesInHeap(kids);
    n, c := SeekKey(object_, str, kids, i);
    KeysUntouched(kids);
    FirstNamed(kids, str);
  }

  /** `cJSON_DetachItemFromObject`: exactly the item that a lookup would have found is taken out. */
  method DetachItemFromObject(object_: Node, str: array?<byte>, ghost kids: seq<Shape>, ghost i: nat) returns (c: Node?)
    requires ListOf(object_, kids) && IsString(str)
    requires i == Find(KeysOf(kids), KeyOf(str))
    modifies object_`child, Nodes(kids)`next, Nodes(kids)`prev
    ensures Kept(kids)
    ensures if i < |kids| then
              && c == kids[i].node && c.next == null && c.prev == null && Holds(kids[i])
              && ListOf(object_, Removed(kids, i))
            else c == null && ListOf(object_, kids)
  {
    var n;
    n, c := SeekKey(object_, str, kids, i);
    Untouched(kids);
    if c != null {
      c := DetachItemFromArray(object_, n, kids);
    }
  }

  /** `cJSON_DeleteItemFromObject` */
  method DeleteItemFromObject(object_: Node, str: array?<byte>, a: Allocator, ghost kids: seq<Shape>, ghost i: nat)
    requires ListOf(object_, kids) && IsString(str) && a.Valid() && a !in Feet(kids)
    requires i == Find(KeysOf(kids), KeyOf(str)) && (i < |kids| ==> OwnsOnce(kids[i]) && Owns(kids[i]) <= a.live)
    modifies object_`child, Nodes(kids)`next, Nodes(kids)`prev, a
    ensures Kept(kids) && a.Valid() && a.failed == old(a.failed)
    ensures if i < |kids| then ListOf(object_, Removed(kids, i)) && a.live == old(a.live) - Owns(kids[i])
            else ListOf(object_, kids) && a.live == old(a.live)
  {
    InHeap(kids);
    var c := DetachItemFromObject(object_, str, kids, i);
    if c != null {
      RemovedShapes(kids, i);
      label L:
      DeleteAlone(c, a, kids[i]);
      Untouched@L(kids);
      Untouched@L(Removed(kids, i));
    }
  }

  /** `cJSON_strdup` */
  method StrDup(str: array<byte>, a: Allocator) returns (copy: array?<byte>)
    requires a.Valid() && Terminated(str[..])
    modifies a
    ensures a.Valid() && a.live == old(a.live) + Block(copy)
    ensures copy == null ==> a.failed > old(a.failed)
    ensures copy != null ==>
      fresh(copy) && a.failed == old(a.failed) && Terminated(copy[..]) && CStr(copy[..]) == CStr(str[..])
  {
    ghost var s := CStr(str[..]);
    CStrPrefix(str[..]);
    copy := a.NewBytes(Writer.StrLen(str) + 1);
    if copy != null {
      var end := Writer.Copy(copy, 0, str);
      end := Writer.PutByte(copy, end, NUL);
      assert copy[..0] == [];
      Neutral(s);
      Writer.HoldsText(copy[..], s);
    }
  }

  /** A shape under the name that its node has now. */
  ghost function Named(s: Shape): Shape
    reads s.node
  {
    s.(name := s.node.name)
  }

  /** Renaming an item leaves what it says as it is. */
  twostate lemma Renamed(s: Shape)
    requires old(Holds(s)) && old(allocated(Foot(s))) && unchanged(Feet(s.kids) + Block(s.text))
    requires s.node.child == old(s.node.child) && s.node.kind == old(s.node.kind)
    requires s.node.isReference == old(s.node.isReference) && s.node.valuestring == old(s.node.valuestring)
    requires s.node.valueint == old(s.node.valueint) && s.node.valuedouble == old(s.node.valuedouble)
    requires IsString(s.node.name)
    ensures Holds(Named(s)) && ValueOf(Named(s)) == old(ValueOf(s)) && Typed(Named(s)) == old(Typed(s))
  {
    NodesInFeet(s.kids);
  }

  /** The item gets a copy of the string as its name, or no name without memory. */
  method SetName(item: Node, str: array<byte>, a: Allocator, ghost s: Shape)
    requires a.Valid() && a !in Foot(s) && Terminated(str[..]) && s.node == item && Holds(s)
    requires item !in Feet(s.kids) + Block(s.text)
    modifies item`name, a
    ensures a.Valid() && a.live == old(a.live) + Block(item.name)
    ensures item.name == null ==> a.failed > old(a.failed)
    ensures item.name != null ==>
      && fresh(item.name) && a.failed == old(a.failed) && Terminated(item.name[..])
      && CStr(item.name[..]) == old(CStr(str[..]))
    ensures Holds(Named(s)) && ValueOf(Named(s)) == old(ValueOf(s)) && Typed(Named(s)) == old(Typed(s))
  {
    InHeap([s]);
    assert Feet([s]) == Foot(s);
    item.name := StrDup(str, a);
    Renamed(s);
  }

  /** The same for a name that is freed first. */
  method ChangeName(item: Node, str: array<byte>, a: Allocator, ghost s: Shape)
    requires a.Valid() && a !in Foot(s) && Terminated(str[..]) && s.node == item && Holds(s)
    requires item !in Feet(s.kids) + Block(s.text) && Block(s.name) <= a.live
    modifies item`name, a
    ensures a.Valid() && a.live == old(a.live) - Block(s.name) + Block(item.name)
    ensures item.name == null ==> a.failed > old(a.failed)
    ensures item.name != null ==>
      && fresh(item.name) && a.failed == old(a.failed) && Terminated(item.name[..])
      && CStr(item.name[..]) == old(CStr(str[..]))
    ensures Holds(Named(s)) && ValueOf(Named(s)) == old(ValueOf(s)) && Typed(Named(s)) == old(Typed(s))
  {
    InHeap([s]);
    assert Feet([s]) == Foot(s);
    if item.name != null {
      a.Free(item.name);
    }
    Unchanged(s);
    SetName(item, str, a, s);
  }

  /** `cJSON_AddItemToObject` */
  method AddItemToObject(object_: Node, str: array<byte>, item: Node?, a: Allocator, ghost kids: seq<Shape>,
                         ghost s: Shape)
    requires ListOf(object_, kids) && a.Valid() && a !in Feet(kids) && Terminated(str[..])
    requires item != null ==>
      && Joinable(object_, item, kids, s) && item.next == null && item.prev == null && item !in Feet(kids)
      && a !in Foot(s) && str != s.name && Block(s.name) <= a.live
    modifies object_`child, Nodes(kids)`next, Only(item)`prev, Only(item)`name, a
    ensures item == null ==> ListOf(object_, kids) && Kept(kids) && a.Valid() && a.live == old(a.live)
    ensures item != null ==>
      var r := kids + [Named(s)];
      && a.Valid() && a.live == old(a.live) - Block(s.name) + Block(item.name)
      && (item.name == null <==> Denied(a))
      && (item.name != null ==>
            fresh(item.name) && Terminated(item.name[..]) && CStr(item.name[..]) == old(CStr(str[..])))
      && ListOf(object_, r) && Values(r) == old(Values(kids)) + [old(ValueOf(s))]
      && Members(r) == old(Members(kids)) + [Member(StringOf(item.name), old(ValueOf(s)))]
      && AllTyped(r) == (old(AllTyped(kids)) && old(Typed(s)))
  {
    if item != null {
      Appended(kids, s);
      PutItem(object_, str, item, a, kids, s);
      DeniedIsCounted(a);
    }
  }

  method PutItem(object_: Node, str: array<byte>, item: Node, a: Allocator, ghost kids: seq<Shape>, ghost s: Shape)
    requires ListOf(object_, kids) && Joinable(object_, item, kids, s) && item.next == null && item.prev == null
    requires a.Valid() && a !in Feet(kids + [s]) && Terminated(str[..]) && str != s.name && Block(s.name) <= a.live
    requires item !in Feet(kids)
    modifies object_`child, Nodes(kids)`next, item`prev, item`name, a
    ensures a.Valid() && a.live == old(a.live) - Block(s.name) + Block(item.name)
    ensures item.name == null ==> a.failed > old(a.failed)
    ensures item.name != null ==>
      && fresh(item.name) && a.failed == old(a.failed) && Terminated(item.name[..])
      && CStr(item.name[..]) == old(CStr(str[..]))
    ensures var r := kids + [Named(s)];
            && ListOf(object_, r) && Values(r) == old(Values(kids)) + [old(ValueOf(s))]
            && Members(r) == old(Members(kids)) + [Member(StringOf(item.name), old(ValueOf(s)))]
            && AllTyped(r) == (old(AllTyped(kids)) && old(Typed(s)))
  {
    hide Feet, AllHold, Members, Values;
    InHeap(kids + [s]);
    Appended(kids, s);
    NotBelow(kids, s);
    ChangeName(item, str, a, s);
    Untouched(kids);
    AddNamed(object_, item, kids, s);
  }

  method AddNamed(object_: Node, item: Node, ghost kids: seq<Shape>, ghost s: Shape)
    requires ListOf(object_, kids) && Separate(kids + [s]) && item == s.node && Holds(Named(s))
    requires object_ !in Foot(Named(s)) && item.next == null && item.prev == null
    modifies object_`child, Nodes(kids)`next, item`prev
    ensures var r := kids + [Named(s)];
            && ListOf(object_, r) && Values(r) == old(Values(kids)) + [old(ValueOf(Named(s)))]
            && Members(r) == old(Members(kids)) + [Member(StringOf(item.name), old(ValueOf(Named(s))))]
            && AllTyped(r) == (old(AllTyped(kids)) && old(Typed(Named(s))))
  {
    ghost var t := Named(s);
    ghost var v := ValueOf(t);
    SeparateNamed(kids, s);
    Appended(kids, t);
    AppendItem(object_, item, kids, t);
    LastMember(kids, t);
  }

  lemma LastMember(kids: seq<Shape>, s: Shape)
    ensures Values(kids + [s])[|kids|] == ValueOf(s)
    ensures Members(kids + [s])[|kids|] == Member(StringOf(s.name), ValueOf(s))
  {
    Appended(kids, s);
  }

  lemma NotBelow(kids: seq<Shape>, s: Shape)
    requires Separate(kids + [s])
    ensures s.node !in Below(s)
  {
    assert (kids + [s])[|kids|] == s;
  }

  lemma SeparateNamed(kids: seq<Shape>, s: Shape)
    requires Separate(kids + [s])
    ensures Separate(kids + [Named(s)])
  {
    var r, e := kids + [Named(s)], kids + [s];
    assert forall i :: 0 <= i < |r| ==> r[i].node == e[i].node;
    forall i, j | 0 <= i < |r| && 0 <= j < |r|
      ensures r[i].node !in Below(r[j])
    {
      assert e[i].node !in Below(e[j]);
    }
  }

  /**
    `cJSON_ReplaceItemInObject`.  The old name of the new item is not freed.  The new item
    gets the key it is put in under, so the keys of the list, and with them what each key
    finds, stay the same; without memory for the name it is put in without one.
   */
  method ReplaceItemInObject(object_: Node, str: array<byte>, item: Node, a: Allocator, ghost kids: seq<Shape>,
                             ghost s: Shape, ghost i: nat)
    requires ListOf(object_, kids) && Joinable(object_, item, kids, s) && item !in Feet(kids)
    requires Terminated(str[..]) && i == Find(KeysOf(kids), KeyOf(str))
    requires a.Valid() && a !in Feet(kids + [s]) && (i < |kids| ==> OwnsOnce(kids[i]) && Owns(kids[i]) <= a.live)
    modifies object_`child, Nodes(kids)`next, Nodes(kids)`prev, item`next, item`prev, item`name, a
    ensures a.Valid()
    ensures i == |kids| ==> ListOf(object_, kids) && Kept(kids + [s]) && a.live == old(a.live) && unchanged(item)
    ensures i < |kids| ==>
      && ListOf(object_, kids[i := Named(s)]) && a.live == old(a.live) - Owns(kids[i]) + Block(item.name)
      && Values(kids[i := Named(s)]) == old(Values(kids))[i := old(ValueOf(s))]
      && (item.name == null <==> Denied(a))
      && (item.name != null ==>
            fresh(item.name) && Terminated(item.name[..]) && CStr(item.name[..]) == old(CStr(str[..])))
      && KeysOf(kids[i := Named(s)]) == if item.name == null then old(KeysOf(kids))[i := None] else old(KeysOf(kids))
  {
    InHeap(kids + [s]);
    Appended(kids, s);
    NotBelow(kids, s);
    NamesInHeap(kids);
    var n, c := SeekKey(object_, str, kids, i);
    KeysUntouched(kids);
    Untouched(kids);
    Untouched(kids + [s]);
    Unchanged(s);
    if c != null {
      ReplaceUnderKey(object_, n, str, item, a, kids, s);
      DeniedIsCounted(a);
    }
  }

  method ReplaceUnderKey(object_: Node, i: nat, str: array<byte>, item: Node, a: Allocator, ghost kids: seq<Shape>,
                         ghost s: Shape)
    requires ListOf(object_, kids) && Joinable(object_, item, kids, s) && item !in Feet(kids)
    requires Terminated(str[..]) && i == Find(KeysOf(kids), KeyOf(str))
    requires a.Valid() && a !in Feet(kids + [s]) && i < |kids| && OwnsOnce(kids[i]) && Owns(kids[i]) <= a.live
    modifies object_`child, Nodes(kids)`next, Nodes(kids)`prev, item`next, item`prev, item`name, a
    ensures a.Valid()
    ensures
      && ListOf(object_, kids[i := Named(s)]) && a.live == old(a.live) - Owns(kids[i]) + Block(item.name)
      && Values(kids[i := Named(s)]) == old(Values(kids))[i := old(ValueOf(s))]
      && (item.name == null ==> a.failed > old(a.failed) && KeysOf(kids[i := Named(s)]) == old(KeysOf(kids))[i := None])
      && (item.name != null ==> a.failed == old(a.failed) && KeysOf(kids[i := Named(s)]) == old(KeysOf(kids)))
      && (item.name != null ==>
            fresh(item.name) && Terminated(item.name[..]) && CStr(item.name[..]) == old(CStr(str[..])))
  {
    hide Feet, AllHold, Holds, AllTyped, Whole, Owns, KeysOf, NameBlocks, Find, CStr, Separate, OwnsOnce, Members,
         Values, ValueOf, Chained, Failures;
    Found(KeysOf(kids), KeyOf(str));
    InHeap(kids + [s]);
    NamesInHeap(kids);
    Appended(kids, s);
    NotBelow(kids, s);
    SetName(item, str, a, s);
    KeysUntouched(kids);
    Untouched(kids);
    ReplaceNamed(object_, i, item, a, kids, s);
  }

  method ReplaceNamed(object_: Node, i: nat, item: Node, a: Allocator, ghost kids: seq<Shape>, ghost s: Shape)
    requires ListOf(object_, kids) && Separate(kids + [s]) && item == s.node && Holds(Named(s)) && i < |kids|
    requires object_ !in Foot(Named(s)) && a.Valid() && a !in Feet(kids) + Foot(Named(s))
    requires OwnsOnce(kids[i]) && Owns(kids[i]) <= a.live
    modifies object_`child, Nodes(kids)`next, Nodes(kids)`prev, item`next, item`prev, a
    ensures var r := kids[i := Named(s)];
            && a.Valid() && a.failed == old(a.failed) && a.live == old(a.live) - Owns(kids[i])
            && ListOf(object_, r) && Values(r) == old(Values(kids))[i := old(ValueOf(Named(s)))]
            && KeysOf(r) == old(KeysOf(kids))[i := old(KeyOf(item.name))]
  {
    hide Feet, Foot;
    ghost var t := Named(s);
    SeparateNamed(kids, s);
    Appended(kids, t);
    KeysReplaced(kids, i, t);
    ReplacedShapes(kids, i, t);
    NamesInHeap(kids[i := t]);
    ReplaceItemInArray(object_, i, item, a, kids, t);
    KeysUntouched(kids[i := t]);
    ReplacedValues(kids, i, t);
  }

  /**
    A replacement and a lookup after it: a key finds the new item exactly when the item got its
    name and the key is that name but for case, and any other key finds what it found before.
   */
  method ReplaceThenGet(object_: Node, str: array<byte>, key: array<byte>, item: Node, a: Allocator,
                        ghost kids: seq<Shape>, ghost s: Shape, ghost i: nat, ghost j: nat)
    returns (c: Node?)
    requires ListOf(object_, kids) && Joinable(object_, item, kids, s) && item !in Feet(kids)
    requires Terminated(str[..]) && i == Find(KeysOf(kids), KeyOf(str)) && i < |kids|
    requires Terminated(key[..]) && j == Find(KeysOf(kids), KeyOf(key)) && key !in Owns(kids[i])
    requires a.Valid() && a !in Feet(kids + [s]) && OwnsOnce(kids[i]) && Owns(kids[i]) <= a.live
    modifies object_`child, Nodes(kids)`next, Nodes(kids)`prev, item`next, item`prev, item`name, a
    ensures item.name == null <==> Denied(a)
    ensures c == item <==> item.name != null && SameName(key, str)
    ensures !SameName(key, str) ==> c == if j < |kids| then kids[j].node else null
  {
    hide ListOf, Feet, Holds, Whole, Owns, KeysOf, NameBlocks, Values, Separate, Find, OwnsOnce;
    ghost var keys := KeysOf(kids);
    NotAt(kids, item);
    SameKey(key, str);
    ReplaceItemInObject(object_, str, item, a, kids, s, i);
    ghost var t := Named(s);
    ReplacedFinds(keys, i, KeyOf(str), if item.name == null then None else KeyOf(str), KeyOf(key));
    ghost var at := Find(KeysOf(kids[i := t]), KeyOf(key));
    c := GetObjectItem(object_, key, kids[i := t], at);
    assert at < |kids| && at != i ==> kids[i := t][at] == kids[at];
  }

  lemma NotAt(kids: seq<Shape>, item: Node)
    requires item !in Feet(kids)
    ensures forall n :: 0 <= n < |kids| ==> kids[n].node != item
  {
    forall n | 0 <= n < |kids|
      ensures kids[n].node != item
    {
      Element(kids, n);
    }
  }

  /** What the list says after a replacement is known from what all items say. */
  lemma ReplacedValues(kids: seq<Shape>, i: nat, s: Shape)
    requires i < |kids|
    ensures Values(kids[i := s]) == Values(kids + [s])[..|kids|][i := Values(kids + [s])[|kids|]]
  {
    Appended(kids, s);
    ReplacedShapes(kids, i, s);
    assert (Values(kids) + [ValueOf(s)])[..|kids|] == Values(kids);
  }
}
