/** The key/value list of the settings (src/installer/helper.c:222-294). */
module KvList {

  import opened Wrappers

  datatype Item = Item(key: string, value: string)

  // ---- lists of items ----

  /** The value of the first item with this key. */
  function Find(items: seq<Item>, key: string): Option<string> {
    if items == [] then None
    else if items[0].key == key then Some(items[0].value)
    else Find(items[1..], key)
  }

  /** The value of the last item with this key. */
  function FindLast(items: seq<Item>, key: string): Option<string> {
    if items == [] then None
    else if items[|items| - 1].key == key then Some(items[|items| - 1].value)
    else FindLast(items[..|items| - 1], key)
  }

  /** Change the first item with this key, or put a new one in front. */
  function Update(items: seq<Item>, key: string, value: string): seq<Item> {
    if exists i :: 0 <= i < |items| && items[i].key == key then Replace(items, key, value)
    else [Item(key, value)] + items
  }

  function Replace(items: seq<Item>, key: string, value: string): (r: seq<Item>)
    ensures |r| == |items|
  {
    if items == [] then []
    else if items[0].key == key then [Item(key, value)] + items[1..]
    else [items[0]] + Replace(items[1..], key, value)
  }

  ghost predicate DistinctKeys(items: seq<Item>) {
    forall i, j :: 0 <= i < j < |items| ==> items[i].key != items[j].key
  }

  const STRING_SIZE: nat := 256

  /** What strncpy into a buffer of STRING_SIZE leaves of a text. */
  function Clipped(s: string): string {
    if |s| < STRING_SIZE then s else s[..STRING_SIZE - 1]
  }

  const SUCCESS: int := 0
  const FAILURE: int := 1

  class Node {
    const key: string
    var value: string
    const next: Node?

    constructor (key: string, value: string, next: Node?)
      ensures this.key == key && this.value == value && this.next == next
    {
      this.key, this.value, this.next := key, value, next;
    }
  }

  ghost function NodeAt(nodes: seq<Node>, i: nat): Node? {
    if i < |nodes| then nodes[i] else null
  }

  ghost function ItemsOf(nodes: seq<Node>): (items: seq<Item>)
    reads nodes
    ensures |items| == |nodes|
    ensures forall i :: 0 <= i < |nodes| ==> items[i] == Item(nodes[i].key, nodes[i].value)
  {
    if nodes == [] then [] else [Item(nodes[0].key, nodes[0].value)] + ItemsOf(nodes[1..])
  }

  class KvList {
    var head: Node?
    ghost var spine: seq<Node>

    ghost predicate Valid()
      reads this
    {
      && head == NodeAt(spine, 0)
      && (forall i {:trigger spine[i].next} :: 0 <= i < |spine| ==> spine[i].next == NodeAt(spine, i + 1))
      && (forall i, j :: 0 <= i < j < |spine| ==> spine[i] != spine[j])
    }

    ghost function Contents(): (items: seq<Item>)
      reads this, spine
      ensures |items| == |spine|
    {
      ItemsOf(spine)
    }

    constructor ()
      ensures Valid() && Contents() == [] && spine == []
    {
      head, spine := null, [];
    }

    method AddKv(key: string, value: string)
      requires Valid()
      modifies this
      ensures Valid() && Contents() == [Item(key, value)] + old(Contents())
      ensures |spine| == |old(spine)| + 1 && fresh(spine[0]) && spine[1..] == old(spine)
    {
      var p := new Node(key, value, head);
      head := p;
      spine := [p] + spine;
    }

    method FindKv(key: string) returns (value: Option<string>)
      requires Valid()
      ensures value == Find(Contents(), key)
    {
      var p := head;
      ghost var k := 0;
      while p != null
        invariant 0 <= k <= |spine| && p == NodeAt(spine, k)
        invariant Find(Contents(), key) == Find(Contents()[k..], key)
        decreases |spine| - k
      {
        assert Contents()[k..][1..] == Contents()[k + 1..];
        if p.key == key {
          return Some(p.value);
        }
        p := p.next;
        k := k + 1;
      }
      value := None;
    }

    /** The caller's default stays when there is no such key. */
    method FindKvDefault(key: string, default: string) returns (rc: int, value: string)
      requires Valid()
      ensures Find(Contents(), key) == None ==> rc == FAILURE && value == default
      ensures Find(Contents(), key).Some? ==> rc == SUCCESS && value == Clipped(Find(Contents(), key).value)
    {
      var found := FindKv(key);
      if found.None? {
        return FAILURE, default;
      }
      return SUCCESS, Clipped(found.value);
    }

    method TestKv(key: string, expected: string) returns (rc: int)
      requires Valid()
      ensures rc == SUCCESS <==> Find(Contents(), key) == Some(expected)
    {
      var found := FindKv(key);
      if found.None? || found.value != expected {
        return FAILURE;
      }
      rc := SUCCESS;
    }

    method UpdateKv(key: string, value: string)
      requires Valid()
      modifies this, spine
      ensures Valid() && Contents() == Update(old(Contents()), key, value)
      ensures forall n :: n in spine ==> n in old(spine) || fresh(n)
    {
      var b := head;
      ghost var k := 0;
      ghost var items := Contents();
      while b != null
        invariant 0 <= k <= |spine| && b == NodeAt(spine, k)
        invariant Valid() && Contents() == items && spine == old(spine)
        invariant forall i :: 0 <= i < k ==> items[i].key != key
        decreases |spine| - k
      {
        if b.key == key {
          assert items[k].key == key;
          b.value := value;
          ReplaceFirst(items, key, value, k);
          assert Contents() == items[k := Item(key, value)];
          return;
        }
        b := b.next;
        k := k + 1;
      }
      AddKv(key, value);
    }
  }

  lemma {:induction false} ReplaceFirst(items: seq<Item>, key: string, value: string, k: nat)
    requires k < |items| && items[k].key == key && forall i :: 0 <= i < k ==> items[i].key != key
    ensures Replace(items, key, value) == items[k := Item(key, value)]
  {
    if k != 0 {
      ReplaceFirst(items[1..], key, value, k - 1);
    }
  }

  // ---- the list as a map ----

  lemma {:induction false} FindIsNoneIffAbsent(items: seq<Item>, key: string)
    ensures Find(items, key) == None <==> forall i :: 0 <= i < |items| ==> items[i].key != key
  {
    if items != [] {
      FindIsNoneIffAbsent(items[1..], key);
      assert forall i :: 1 <= i < |items| ==> items[i] == items[1..][i - 1];
    }
  }

  lemma {:induction false} FindAfterReplace(items: seq<Item>, key: string, value: string, k: string)
    ensures Find(Replace(items, key, value), k)
         == if k == key && Find(items, key).Some? then Some(value) else Find(items, k)
  {
    if items != [] && items[0].key != key {
      FindAfterReplace(items[1..], key, value, k);
    }
  }

  /** update_kv is map update as far as find_kv can tell. */
  lemma FindAfterUpdate(items: seq<Item>, key: string, value: string, k: string)
    ensures Find(Update(items, key, value), k) == if k == key then Some(value) else Find(items, k)
  {
    FindIsNoneIffAbsent(items, key);
    FindAfterReplace(items, key, value, k);
  }

  lemma {:induction false} ReplaceKeepsKeys(items: seq<Item>, key: string, value: string)
    ensures forall i :: 0 <= i < |items| ==> Replace(items, key, value)[i].key == items[i].key
  {
    if items != [] {
      ReplaceKeepsKeys(items[1..], key, value);
    }
  }

  lemma UpdateKeepsDistinct(items: seq<Item>, key: string, value: string)
    requires DistinctKeys(items)
    ensures DistinctKeys(Update(items, key, value))
  {
    ReplaceKeepsKeys(items, key, value);
  }

  function Reverse(items: seq<Item>): (r: seq<Item>)
    ensures |r| == |items|
  {
    if items == [] then [] else Reverse(items[1..]) + [items[0]]
  }

  lemma {:induction false} ReverseAt(items: seq<Item>, i: nat)
    requires i < |items|
    ensures Reverse(items)[i] == items[|items| - 1 - i]
  {
    if i < |items| - 1 {
      ReverseAt(items[1..], i);
    }
  }

  lemma ReverseTwice(items: seq<Item>)
    ensures Reverse(Reverse(items)) == items
  {
    forall i | 0 <= i < |items|
      ensures Reverse(Reverse(items))[i] == items[i]
    {
      ReverseAt(Reverse(items), i);
      ReverseAt(items, |items| - 1 - i);
    }
  }

  lemma ReverseKeepsDistinct(items: seq<Item>)
    requires DistinctKeys(items)
    ensures DistinctKeys(Reverse(items))
  {
    forall i, j | 0 <= i < j < |items|
      ensures Reverse(items)[i].key != Reverse(items)[j].key
    {
      ReverseAt(items, i);
      ReverseAt(items, j);
    }
  }

  /** Reversal makes the last duplicate the winner. */
  lemma {:induction false} FindInReverse(items: seq<Item>, key: string)
    ensures Find(Reverse(items), key) == FindLast(items, key)
  {
    if items != [] {
      var before, last := items[..|items| - 1], items[|items| - 1];
      FindInReverse(before, key);
      assert Reverse(items) == [last] + Reverse(before) by {
        forall i | 0 <= i < |items|
          ensures Reverse(items)[i] == ([last] + Reverse(before))[i]
        {
          ReverseAt(items, i);
          if i > 0 {
            ReverseAt(before, i - 1);
          }
        }
      }
    }
  }

  lemma {:induction false} FindLastIsAt(items: seq<Item>, i: nat)
    requires i < |items| && DistinctKeys(items)
    ensures FindLast(items, items[i].key) == Some(items[i].value)
  {
    if i < |items| - 1 {
      FindLastIsAt(items[..|items| - 1], i);
    }
  }

  lemma {:induction false} FindLastIsNone(items: seq<Item>, key: string)
    requires forall i :: 0 <= i < |items| ==> items[i].key != key
    ensures FindLast(items, key) == None
  {
    if items != [] {
      FindLastIsNone(items[..|items| - 1], key);
    }
  }

  lemma {:induction false} FindIsAt(items: seq<Item>, i: nat)
    requires i < |items| && DistinctKeys(items)
    ensures Find(items, items[i].key) == Some(items[i].value)
  {
    if i > 0 {
      FindIsAt(items[1..], i - 1);
    }
  }

  /** Without duplicates the order does not matter. */
  lemma DistinctKeysFind(items: seq<Item>, key: string)
    requires DistinctKeys(items)
    ensures Find(Reverse(items), key) == Find(items, key)
  {
    FindInReverse(items, key);
    FindIsNoneIffAbsent(items, key);
    if Find(items, key) == None {
      FindLastIsNone(items, key);
    } else {
      var i :| 0 <= i < |items| && items[i].key == key;
      FindLastIsAt(items, i);
      FindIsAt(items, i);
    }
  }

  // ---- where a change goes, and what a lookup copies ----

  /** Changing a key changes the first item that has it; a new key is put in front. */
  lemma UpdateIsInPlace(items: seq<Item>, key: string, value: string, k: nat)
    requires k <= |items| && forall i :: 0 <= i < k ==> items[i].key != key
    ensures k == |items| ==> Update(items, key, value) == [Item(key, value)] + items
    ensures k < |items| && items[k].key == key ==> Update(items, key, value) == items[k := Item(key, value)]
  {
    if k < |items| && items[k].key == key {
      ReplaceFirst(items, key, value, k);
    }
  }

  /** A buffer holds 255 characters of a value. */
  lemma ClippedTo255(s: string)
    ensures |s| <= 255 ==> Clipped(s) == s
    ensures |s| > 255 ==> Clipped(s) == s[..255]
  {
  }
}
