/** uthash.h: the items of the table, and the two doubly linked lists each of them is in. */
module HashChains {
  import opened Bytes

  class Item {
    const key: seq<Byte>
    const hashv: nat
    var prev: Item?
    var next: Item?
    var hhPrev: Item?
    var hhNext: Item?

    constructor (key: seq<Byte>, hashv: nat)
      ensures this.key == key && this.hashv == hashv
    {
      this.key, this.hashv := key, hashv;
      prev, next, hhPrev, hhNext := null, null, null, null;
    }
  }

  ghost predicate Distinct(c: seq<Item>) {
    forall i, j :: 0 <= i < j < |c| ==> c[i] != c[j]
  }

  function At(c: seq<Item>, i: int): Item? {
    if 0 <= i < |c| then c[i] else null
  }

  /** The chain of a bucket, from its head on, linked in both directions. */
  ghost predicate Chain(c: seq<Item>, hd: Item?)
    reads c`hhPrev, c`hhNext
  {
    && Distinct(c) && hd == At(c, 0)
    && forall i :: 0 <= i < |c| ==> c[i].hhPrev == At(c, i - 1) && c[i].hhNext == At(c, i + 1)
  }

  /** The links of a chain that a walk from its head follows. */
  ghost predicate Forward(c: seq<Item>, hd: Item?)
    reads c`hhNext
  {
    && Distinct(c) && hd == At(c, 0)
    && forall i :: 0 <= i < |c| ==> c[i].hhNext == At(c, i + 1)
  }

  /** The list of all items in the order in which they were added. */
  ghost predicate Order(items: seq<Item>)
    reads items`prev, items`next
  {
    && Distinct(items)
    && forall i :: 0 <= i < |items| ==> items[i].prev == At(items, i - 1) && items[i].next == At(items, i + 1)
  }

  function Without(c: seq<Item>, i: nat): (r: seq<Item>)
    requires i < |c|
    ensures |r| == |c| - 1
  {
    c[..i] + c[i + 1..]
  }

  lemma WithoutFacts(c: seq<Item>, i: nat)
    requires i < |c| && Distinct(c)
    ensures Distinct(Without(c, i))
    ensures forall x :: x in Without(c, i) <==> x in c && x != c[i]
  {
    var r := Without(c, i);
    forall j | 0 <= j < |r|
      ensures r[j] == c[if j < i then j else j + 1]
    {
    }
    forall x | x in c && x != c[i]
      ensures x in r
    {
      var j :| 0 <= j < |c| && c[j] == x;
      assert r[if j < i then j else j - 1] == x;
    }
  }

  /** The head part of HASH_ADD_TO_BKT. */
  method PushFront(hd: Item?, x: Item, ghost c: seq<Item>)
    requires Chain(c, hd) && x !in c
    modifies x`hhPrev, x`hhNext, c`hhPrev
    ensures Chain([x] + c, x)
  {
    x.hhNext := hd;
    x.hhPrev := null;
    if hd != null {
      hd.hhPrev := x;
    }
    ghost var d := [x] + c;
    forall i | 0 <= i < |d|
      ensures d[i].hhPrev == At(d, i - 1) && d[i].hhNext == At(d, i + 1)
    {
      if i > 0 {
        assert d[i] == c[i - 1];
      }
    }
  }

  /** The relinking of HASH_DEL_IN_BKT. */
  method Unlink(hd: Item?, x: Item, ghost c: seq<Item>, ghost i: nat) returns (newHd: Item?)
    requires Chain(c, hd) && i < |c| && c[i] == x
    modifies c`hhPrev, c`hhNext
    ensures Chain(Without(c, i), newHd)
  {
    WithoutFacts(c, i);
    newHd := if hd == x then x.hhNext else hd;
    if x.hhPrev != null {
      x.hhPrev.hhNext := x.hhNext;
    }
    if x.hhNext != null {
      x.hhNext.hhPrev := x.hhPrev;
    }
    ghost var d := Without(c, i);
    forall j | 0 <= j < |d|
      ensures d[j].hhPrev == At(d, j - 1) && d[j].hhNext == At(d, j + 1)
    {
      assert d[j] == c[if j < i then j else j + 1];
    }
  }

  /** The end of the list of all items. */
  method AppendItem(tail: Item, x: Item, ghost items: seq<Item>)
    requires Order(items) && items != [] && tail == items[|items| - 1] && x !in items
    modifies x`prev, x`next, tail`next
    ensures Order(items + [x])
  {
    x.next := null;
    tail.next := x;
    x.prev := tail;
    ghost var d := items + [x];
    forall i | 0 <= i < |d|
      ensures d[i].prev == At(d, i - 1) && d[i].next == At(d, i + 1)
    {
      if i < |items| {
        assert d[i] == items[i];
      }
    }
  }

  /** The patch-up of HASH_DELETE, for an item that is not the only one. */
  method RemoveItem(hd: Item, tl: Item, x: Item, ghost items: seq<Item>, ghost i: nat) returns (newHd: Item, newTl: Item)
    requires Order(items) && i < |items| && items[i] == x && |items| > 1
    requires hd == items[0] && tl == items[|items| - 1]
    modifies items`prev, items`next
    ensures Order(Without(items, i)) && newHd == Without(items, i)[0] && newTl == Without(items, i)[|items| - 2]
  {
    WithoutFacts(items, i);
    newHd, newTl := hd, tl;
    if x == tl {
      newTl := x.prev;
    }
    if x.prev != null {
      x.prev.next := x.next;
    } else {
      newHd := x.next;
    }
    if x.next != null {
      x.next.prev := x.prev;
    }
    ghost var d := Without(items, i);
    forall j | 0 <= j < |d|
      ensures d[j].prev == At(d, j - 1) && d[j].next == At(d, j + 1)
    {
      assert d[j] == items[if j < i then j else j + 1];
    }
  }
}
