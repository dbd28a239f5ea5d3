/** uthash.h: a table after any sequence of additions, deletions and lookups. */
module HashRun {
  import opened Bytes
  import opened HashChains
  import opened HashTable

  datatype Op = Insert(item: Item) | Erase(key: seq<Byte>) | Lookup(key: seq<Byte>)

  /** The same on a finite map: an item is only added under a key that is not there yet. */
  function Apply(m: map<seq<Byte>, Item>, op: Op): map<seq<Byte>, Item> {
    match op
    case Insert(x) => if x.key in m then m else m[x.key := x]
    case Erase(k) => m - {k}
    case Lookup(_) => m
  }

  function ApplyAll(m: map<seq<Byte>, Item>, ops: seq<Op>): map<seq<Byte>, Item> {
    if ops == [] then m else Apply(ApplyAll(m, ops[..|ops| - 1]), ops[|ops| - 1])
  }

  function ValueAt(m: map<seq<Byte>, Item>, k: seq<Byte>): Item? {
    if k in m then m[k] else null
  }

  lemma ApplyNone(m: map<seq<Byte>, Item>, ops: seq<Op>)
    requires ops == []
    ensures ApplyAll(m, ops) == m
  {
  }

  lemma ApplyNext(m: map<seq<Byte>, Item>, ops: seq<Op>, i: nat)
    requires i < |ops|
    ensures ApplyAll(m, ops[..i + 1]) == Apply(ApplyAll(m, ops[..i]), ops[i])
  {
    hide Apply;
    assert ops[..i + 1][..i] == ops[..i];
  }

  ghost function Inserted(ops: seq<Op>): set<Item> {
    set i | 0 <= i < |ops| && ops[i].Insert? :: ops[i].item
  }

  /** After every sequence of operations the table is consistent and agrees with the map, and so
      did every lookup on the way. */
  method Replay(t: Table, ops: seq<Op>) returns (found: seq<Item?>)
    requires t.Valid() && forall x :: x in Inserted(ops) ==> x.hashv == t.hash(x.key)
    modifies t, t.heads, t.counts, t.items, Inserted(ops)
    ensures t.Valid() && AsMap(t.items) == ApplyAll(old(AsMap(t.items)), ops)
    ensures |found| == |ops|
    ensures forall i :: 0 <= i < |ops| && ops[i].Lookup? ==>
      found[i] == ValueAt(ApplyAll(old(AsMap(t.items)), ops[..i]), ops[i].key)
  {
    hide AsMap, Apply, ApplyAll, ValueAt, Table.Valid;
    ghost var m := AsMap(t.items);
    found := [];
    ApplyNone(m, ops[..0]);
    for i := 0 to |ops|
      invariant t.Valid() && t.hash == old(t.hash) && AsMap(t.items) == ApplyAll(m, ops[..i])
      invariant (t.heads == old(t.heads) || fresh(t.heads)) && (t.counts == old(t.counts) || fresh(t.counts))
      invariant forall x :: x in t.items ==> x in old(t.items) || x in Inserted(ops)
      invariant |found| == i
      invariant forall j :: 0 <= j < i && ops[j].Lookup? ==>
        found[j] == ValueAt(ApplyAll(m, ops[..j]), ops[j].key)
    {
      ApplyNext(m, ops, i);
      var y := Do(t, ops[i]);
      found := found + [y];
    }
    assert ops[..|ops|] == ops;
  }

  method Do(t: Table, op: Op) returns (y: Item?)
    requires t.Valid() && (op.Insert? ==> op.item.hashv == t.hash(op.item.key))
    modifies t, t.heads, t.counts, t.items, if op.Insert? then {op.item} else {}
    ensures t.Valid() && t.hash == old(t.hash) && AsMap(t.items) == Apply(old(AsMap(t.items)), op)
    ensures (t.heads == old(t.heads) || fresh(t.heads)) && (t.counts == old(t.counts) || fresh(t.counts))
    ensures forall x :: x in t.items ==> x in old(t.items) || (op.Insert? && x == op.item)
    ensures op.Lookup? ==> y == ValueAt(old(AsMap(t.items)), op.key)
  {
    hide AsMap, Order, Buckets, Covered, Chain;
    MapHas(t.items);
    match op
    case Insert(x) =>
      y := t.Find(x.key);
      if y == null {
        t.Add(x);
      }
    case Erase(k) =>
      y := t.Find(k);
      if y != null {
        ghost var j :| 0 <= j < |t.items| && t.items[j] == y;
        t.Delete(y, j);
      }
    case Lookup(k) =>
      y := t.Find(k);
  }
}
