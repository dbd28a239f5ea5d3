/** uthash.h: the table agrees with a finite map from keys to items, whatever its buckets
    and however often they were doubled. */
module HashTable {
  import opened Numerals
  import opened Bytes
  import opened HashChains

  const INITIAL_LOG2 := 5
  const INITIAL_BUCKETS := 32
  const CAPACITY := 10       // HASH_BKT_CAPACITY_THRESH

  /** HASH_TO_BKT, for a power of two. */
  function BucketOf(hashv: nat, n: nat): (b: nat)
    requires n > 0
    ensures b < n
  {
    hashv % n
  }

  /** The bits under the mask are the remainder. */
  lemma BucketIsMasked(hashv: nat, log2: nat)
    requires log2 <= 32
    ensures Pow(2, log2) > 0 && BucketOf(hashv, Pow(2, log2)) == AndBits(hashv, Pow(2, log2) - 1, 32)
  {
    MaskIsRemainder(hashv, log2, 32);
  }

  /** The items of a chain are items of the table and belong to its bucket. */
  ghost predicate Belongs(items: seq<Item>, c: seq<Item>, b: nat, n: nat)
  {
    n > 0 && forall i :: 0 <= i < |c| ==> c[i] in items && BucketOf(c[i].hashv, n) == b
  }

  /** Every chain hangs on its bucket, holds the items of that bucket only, and is counted. */
  ghost predicate Buckets(items: seq<Item>, chains: seq<seq<Item>>, heads: seq<Item?>, counts: seq<nat>)
    reads items`hhPrev, items`hhNext
  {
    && |chains| == |heads| == |counts| > 0
    && (forall b :: 0 <= b < |chains| ==> Belongs(items, chains[b], b, |chains|))
    && (forall b :: 0 <= b < |chains| ==> Chain(chains[b], heads[b]) && counts[b] == |chains[b]|)
  }

  ghost predicate Covered(items: seq<Item>, chains: seq<seq<Item>>) {
    |chains| > 0 && forall x :: x in items ==> x in chains[BucketOf(x.hashv, |chains|)]
  }

  /** Chains of different buckets share no item. */
  lemma Apart(items: seq<Item>, c: seq<Item>, b: nat, d: seq<Item>, b': nat, n: nat)
    requires Belongs(items, c, b, n) && Belongs(items, d, b', n) && b != b'
    ensures forall x :: x in c ==> x !in d
  {
  }

  /** One more item at the front of its chain. */
  method AddToChain(heads: array<Item?>, counts: array<nat>, b: nat, x: Item, ghost items: seq<Item>, ghost chains: seq<seq<Item>>)
    returns (ghost now: seq<seq<Item>>)
    requires Buckets(items, chains, heads[..], counts[..]) && x in items && b == BucketOf(x.hashv, |chains|)
    requires heads.Length == counts.Length == |chains| && forall k :: 0 <= k < |chains| ==> x !in chains[k]
    modifies heads, counts, x`hhPrev, x`hhNext, chains[b]`hhPrev
    ensures now == chains[b := [x] + chains[b]] && Buckets(items, now, heads[..], counts[..])
  {
    ghost var n := |chains|;
    now := chains[b := [x] + chains[b]];
    label Start:
    counts[b] := counts[b] + 1;
    PushFront(heads[b], x, chains[b]);
    heads[b] := x;
    forall k | 0 <= k < n
      ensures Chain(now[k], heads[k]) && counts[k] == |now[k]| && Belongs(items, now[k], k, n)
    {
      if k != b {
        Apart(items, chains[b], b, chains[k], k, n);
        assert old@Start(Chain(chains[k], heads[k]));
      }
    }
  }

  // ---- HASH_EXPAND_BUCKETS ----

  ghost predicate Absent(c: seq<Item>, chains: seq<seq<Item>>) {
    forall x, k :: x in c && 0 <= k < |chains| ==> x !in chains[k]
  }

  ghost predicate Within(items: seq<Item>, c: seq<Item>) {
    forall x :: x in c ==> x in items
  }

  /** `now` holds what `was` held and the items of c, each in its bucket. */
  ghost predicate Moved(was: seq<seq<Item>>, now: seq<seq<Item>>, c: seq<Item>) {
    && |now| == |was| > 0
    && (forall x :: x in c ==> x in now[BucketOf(x.hashv, |now|)])
    && (forall k, x :: 0 <= k < |was| && x in was[k] ==> x in now[k])
    && (forall k, x :: 0 <= k < |was| && x in now[k] ==> x in was[k] || x in c)
  }

  lemma MovedFurther(a: seq<seq<Item>>, b: seq<seq<Item>>, c: seq<seq<Item>>, s: seq<Item>, x: Item)
    requires Moved(a, b, s) && |c| == |b| && c == b[BucketOf(x.hashv, |b|) := [x] + b[BucketOf(x.hashv, |b|)]]
    ensures Moved(a, c, s + [x])
  {
    forall k, y | 0 <= k < |a| && y in c[k]
      ensures y in a[k] || y in s + [x]
    {
      if y !in b[k] {
        assert y == x;
      }
    }
  }

  /** Moves the items of one chain, from its head on, to the new buckets. */
  method MoveChain(thh0: Item?, heads: array<Item?>, counts: array<nat>, mults: array<nat>, ideal: nat, nonideal0: nat,
                   ghost c: seq<Item>, ghost items: seq<Item>, ghost chains: seq<seq<Item>>)
    returns (nonideal: nat, ghost now: seq<seq<Item>>)
    requires Buckets(items, chains, heads[..], counts[..]) && heads.Length == counts.Length == mults.Length == |chains|
    requires Forward(c, thh0) && Within(items, c) && Absent(c, chains) && ideal > 0 && counts != mults
    modifies heads, counts, mults, items`hhPrev, items`hhNext
    ensures Buckets(items, now, heads[..], counts[..]) && Moved(chains, now, c)
    ensures forall x :: x in items && x !in c ==> x.hhNext == old(x.hhNext)
  {
    nonideal, now := nonideal0, chains;
    var thh := thh0;
    ghost var i := 0;
    assert c[..0] == [];
    while thh != null
      invariant 0 <= i <= |c| && thh == At(c, i)
      invariant Buckets(items, now, heads[..], counts[..]) && Moved(chains, now, c[..i])
      invariant forall j :: i <= j < |c| ==> c[j].hhNext == At(c, j + 1)
      invariant forall x :: x in items && x !in c ==> x.hhNext == old(x.hhNext)
      decreases |c| - i
    {
      assert c[i] in c;
      var next := thh.hhNext;
      nonideal, now := MoveItem(thh, heads, counts, mults, ideal, nonideal, c, i, items, chains, now);
      thh := next;
      i := i + 1;
    }
    assert c[..|c|] == c;
  }

  method MoveItem(thh: Item, heads: array<Item?>, counts: array<nat>, mults: array<nat>, ideal: nat, nonideal0: nat,
                  ghost c: seq<Item>, ghost i: nat, ghost items: seq<Item>, ghost was: seq<seq<Item>>, ghost chains: seq<seq<Item>>)
    returns (nonideal: nat, ghost now: seq<seq<Item>>)
    requires Buckets(items, chains, heads[..], counts[..]) && heads.Length == counts.Length == mults.Length == |chains|
    requires Distinct(c) && i < |c| && thh == c[i] && Within(items, c) && Absent(c, was) && ideal > 0 && counts != mults
    requires Moved(was, chains, c[..i])
    modifies heads, counts, mults, items`hhPrev, items`hhNext
    ensures Buckets(items, now, heads[..], counts[..]) && Moved(was, now, c[..i + 1])
    ensures forall x :: x in items && x != thh ==> x.hhNext == old(x.hhNext)
  {
    hide Moved, Absent, Distinct, Chain;
    var b := BucketOf(thh.hashv, heads.Length);
    assert c[i] in c && thh in items;
    NotMovedYet(c, i, was, chains);
    WithinChain(items, chains, b);
    MovedFurther(was, chains, chains[b := [thh] + chains[b]], c[..i], thh);
    assert c[..i + 1] == c[..i] + [thh];
    now := AddToChain(heads, counts, b, thh, items, chains);
    nonideal := CountMove(counts[b], b, mults, ideal, nonideal0);
  }

  /** A chain longer than ideal may grow further before the next expansion. */
  method CountMove(count: nat, b: nat, mults: array<nat>, ideal: nat, nonideal0: nat) returns (nonideal: nat)
    requires b < mults.Length && ideal > 0
    modifies mults
    ensures nonideal == nonideal0 + if count > ideal then 1 else 0
  {
    nonideal := nonideal0;
    if count > ideal {
      nonideal := nonideal + 1;
      mults[b] := count / ideal;
    }
  }

  lemma WithinChain(items: seq<Item>, chains: seq<seq<Item>>, b: nat)
    requires b < |chains| && Belongs(items, chains[b], b, |chains|)
    ensures forall x :: x in chains[b] ==> x in items
  {
  }

  lemma NotMovedYet(c: seq<Item>, i: nat, was: seq<seq<Item>>, now: seq<seq<Item>>)
    requires Distinct(c) && i < |c| && Absent(c, was) && Moved(was, now, c[..i])
    ensures forall k :: 0 <= k < |now| ==> c[i] !in now[k]
  {
    assert c[i] in c;
    assert c[i] !in c[..i];
  }

  /** The new buckets hold the items of the first i old chains, and nothing else. */
  ghost predicate Collected(chains: seq<seq<Item>>, now: seq<seq<Item>>, i: nat) {
    && |now| > 0 && i <= |chains|
    && (forall b, x :: 0 <= b < i && x in chains[b] ==> x in now[BucketOf(x.hashv, |now|)])
    && (forall k, x :: 0 <= k < |now| && x in now[k] ==> exists b :: 0 <= b < i && x in chains[b])
  }

  lemma NotCollected(items: seq<Item>, chains: seq<seq<Item>>, now: seq<seq<Item>>, i: nat)
    requires Collected(chains, now, i) && i < |chains|
    requires forall b :: 0 <= b < |chains| ==> Belongs(items, chains[b], b, |chains|)
    ensures Absent(chains[i], now) && Within(items, chains[i])
  {
    forall b | 0 <= b < i
      ensures forall x :: x in chains[i] ==> x !in chains[b]
    {
      Apart(items, chains[i], i, chains[b], b, |chains|);
    }
  }

  lemma StillCollected(chains: seq<seq<Item>>, was: seq<seq<Item>>, now: seq<seq<Item>>, i: nat)
    requires i < |chains| && Collected(chains, was, i) && Moved(was, now, chains[i])
    ensures Collected(chains, now, i + 1)
  {
    forall k, x | 0 <= k < |now| && x in now[k]
      ensures exists b :: 0 <= b < i + 1 && x in chains[b]
    {
      if x in was[k] {
        var b :| 0 <= b < i && x in chains[b];
      }
    }
  }

  lemma LaterChains(items: seq<Item>, chains: seq<seq<Item>>, i: nat)
    requires i < |chains| && forall b :: 0 <= b < |chains| ==> Belongs(items, chains[b], b, |chains|)
    ensures forall b, x :: i < b < |chains| && x in chains[b] ==> x in items && x !in chains[i]
  {
    forall b, x | i < b < |chains| && x in chains[b]
      ensures x in items && x !in chains[i]
    {
      Apart(items, chains[b], b, chains[i], i, |chains|);
    }
  }

  lemma AllMoved(items: seq<Item>, chains: seq<seq<Item>>, now: seq<seq<Item>>)
    requires Covered(items, chains) && |now| > 0
    requires forall b, x :: 0 <= b < |chains| && x in chains[b] ==> x in now[BucketOf(x.hashv, |now|)]
    ensures Covered(items, now)
  {
  }

  lemma IdealPositive(m: nat, n: nat)
    requires m > 0 && n > 0
    ensures m / n + (if m % n != 0 then 1 else 0) > 0
  {
    assert m == n * (m / n) + m % n;
  }

  // ---- the map that the table stands for ----

  ghost function AsMap(items: seq<Item>): map<seq<Byte>, Item> {
    if items == [] then map[] else AsMap(items[..|items| - 1])[items[|items| - 1].key := items[|items| - 1]]
  }

  lemma MapGrows(items: seq<Item>, x: Item)
    ensures AsMap(items + [x]) == AsMap(items)[x.key := x]
  {
    assert (items + [x])[..|items|] == items;
  }

  ghost predicate DistinctKeys(items: seq<Item>) {
    forall i, j :: 0 <= i < j < |items| ==> items[i].key != items[j].key
  }

  /** With distinct keys, the map has exactly the items, each under its key. */
  lemma {:induction false} MapHas(items: seq<Item>)
    requires DistinctKeys(items)
    ensures forall x :: x in items ==> x.key in AsMap(items) && AsMap(items)[x.key] == x
    ensures forall k :: k in AsMap(items) ==> AsMap(items)[k] in items && AsMap(items)[k].key == k
  {
    if items != [] {
      MapHas(items[..|items| - 1]);
    }
  }

  /** Taking an item out of the list takes its key out of the map. */
  lemma MapShrinks(items: seq<Item>, i: nat)
    requires i < |items| && Distinct(items) && DistinctKeys(items)
    ensures DistinctKeys(Without(items, i)) && AsMap(Without(items, i)) == AsMap(items) - {items[i].key}
  {
    hide AsMap, Without;
    KeysStayDistinct(items, i);
    WithoutFacts(items, i);
    MapHas(items);
    MapHas(Without(items, i));
    SameMaps(items, Without(items, i), items[i]);
  }

  lemma KeysStayDistinct(items: seq<Item>, i: nat)
    requires i < |items| && DistinctKeys(items)
    ensures DistinctKeys(Without(items, i))
  {
    var rest := Without(items, i);
    forall j, k | 0 <= j < k < |rest|
      ensures rest[j].key != rest[k].key
    {
      assert rest[j] == items[if j < i then j else j + 1] && rest[k] == items[if k < i then k else k + 1];
    }
  }

  lemma SameMaps(items: seq<Item>, rest: seq<Item>, x: Item)
    requires DistinctKeys(items) && x in items && forall y :: y in rest <==> y in items && y != x
    requires forall y :: y in items ==> y.key in AsMap(items) && AsMap(items)[y.key] == y
    requires forall k :: k in AsMap(items) ==> AsMap(items)[k] in items && AsMap(items)[k].key == k
    requires forall y :: y in rest ==> y.key in AsMap(rest) && AsMap(rest)[y.key] == y
    requires forall k :: k in AsMap(rest) ==> AsMap(rest)[k] in rest && AsMap(rest)[k].key == k
    ensures AsMap(rest) == AsMap(items) - {x.key}
  {
    hide AsMap;
    var m, n := AsMap(rest), AsMap(items) - {x.key};
    forall k | k in n
      ensures k in m && m[k] == n[k]
    {
      assert n[k] in rest;
    }
    forall k | k in m
      ensures k in n
    {
      assert m[k] in items && m[k] != x;
    }
  }

  /** A new item that is in no chain yet does not disturb the buckets. */
  lemma ItemsGrow(items: seq<Item>, chains: seq<seq<Item>>, heads: seq<Item?>, counts: seq<nat>, x: Item)
    requires Buckets(items, chains, heads, counts) && x !in items
    ensures Buckets(items + [x], chains, heads, counts) && forall k :: 0 <= k < |chains| ==> x !in chains[k]
  {
    hide Chain;
    forall b | 0 <= b < |chains|
      ensures Belongs(items + [x], chains[b], b, |chains|) && x !in chains[b]
    {
    }
  }

  lemma NowCovered(items: seq<Item>, chains: seq<seq<Item>>, x: Item)
    requires items != [] && x == items[|items| - 1] && Covered(items[..|items| - 1], chains)
    ensures var b := BucketOf(x.hashv, |chains|); Covered(items, chains[b := [x] + chains[b]])
  {
    assert items == items[..|items| - 1] + [x];
  }

  lemma OnlyItem(x: Item)
    requires x.prev == null && x.next == null
    ensures Order([x])
  {
  }

  /** HASH_FIND_IN_BKT: the walk along a chain. */
  method FindInBucket(hd: Item?, key: seq<Byte>, ghost c: seq<Item>) returns (out: Item?)
    requires Chain(c, hd)
    ensures out != null ==> out in c && out.key == key
    ensures out == null ==> forall x :: x in c ==> x.key != key
  {
    out := hd;
    ghost var i := 0;
    while out != null && out.key != key
      invariant 0 <= i <= |c| && out == At(c, i)
      invariant forall j :: 0 <= j < i ==> c[j].key != key
      decreases |c| - i
    {
      out := out.hhNext;
      i := i + 1;
    }
  }

  lemma HeadAndTail(items: seq<Item>, x: Item)
    ensures At(items + [x], 0) == (if items == [] then x else items[0]) && At(items + [x], |items|) == x
    ensures At(items, 0) == null <==> items == []
    ensures items != [] ==> At(items, 0) == items[0] && At(items, |items| - 1) == items[|items| - 1]
  {
  }

  ghost predicate Hashed(hash: seq<Byte> -> nat, items: seq<Item>) {
    forall i :: 0 <= i < |items| ==> items[i].hashv == hash(items[i].key)
  }

  lemma KeysGrow(hash: seq<Byte> -> nat, items: seq<Item>, x: Item)
    requires DistinctKeys(items) && Hashed(hash, items) && x.hashv == hash(x.key)
    requires forall y :: y in items ==> y.key != x.key
    ensures DistinctKeys(items + [x]) && Hashed(hash, items + [x])
  {
  }

  lemma HashesStay(hash: seq<Byte> -> nat, items: seq<Item>, i: nat)
    requires Hashed(hash, items) && i < |items|
    ensures Hashed(hash, Without(items, i))
  {
    var rest := Without(items, i);
    forall j | 0 <= j < |rest|
      ensures rest[j].hashv == hash(rest[j].key)
    {
      assert rest[j] == items[if j < i then j else j + 1];
    }
  }

  lemma AloneOrNot(items: seq<Item>, i: nat)
    requires Order(items) && i < |items|
    ensures items[i].prev == null && items[i].next == null <==> |items| == 1
    ensures |items| == 1 ==> Without(items, i) == []
  {
  }

  lemma OnlyEmpty()
    ensures Order([])
  {
  }

  lemma OrderDistinct(items: seq<Item>)
    requires Order(items)
    ensures Distinct(items)
  {
  }

  lemma HeadAndTailOf(items: seq<Item>)
    ensures items != [] ==> At(items, 0) == items[0] && At(items, |items| - 1) == items[|items| - 1]
  {
  }

  /** HASH_DEL_IN_BKT for the bucket of an item that leaves the table. */
  method RemoveFromBucket(heads: array<Item?>, counts: array<nat>, x: Item, ghost items: seq<Item>,
                          ghost chains: seq<seq<Item>>, ghost i: nat)
    returns (ghost now: seq<seq<Item>>)
    requires Buckets(items, chains, heads[..], counts[..]) && Covered(items, chains) && Distinct(items)
    requires heads.Length == counts.Length == |chains| && i < |items| && items[i] == x
    modifies heads, counts, items`hhPrev, items`hhNext
    ensures |now| == |chains| && Buckets(Without(items, i), now, heads[..], counts[..]) && Covered(Without(items, i), now)
  {
    hide Without, Chain, Covered, Distinct;
    var b := BucketOf(x.hashv, heads.Length);
    ghost var j := PlaceInChain(items, chains, i);
    ChainDistinct(chains[b], heads[b]);
    now := chains[b := Without(chains[b], j)];
    LeavesBelong(items, chains, b, j, i);
    WithinChain(items, chains, b);
    UnlinkFromBucket(heads, counts, b, x, items, chains, j);
  }

  lemma PlaceInChain(items: seq<Item>, chains: seq<seq<Item>>, i: nat) returns (j: nat)
    requires i < |items| && Covered(items, chains)
    ensures var b := BucketOf(items[i].hashv, |chains|); j < |chains[b]| && chains[b][j] == items[i]
  {
    var x := items[i];
    assert x in items;
    var b := BucketOf(x.hashv, |chains|);
    assert x in chains[b];
    j :| j < |chains[b]| && chains[b][j] == x;
  }

  lemma ChainDistinct(c: seq<Item>, hd: Item?)
    requires Chain(c, hd)
    ensures Distinct(c)
  {
  }

  method UnlinkFromBucket(heads: array<Item?>, counts: array<nat>, b: nat, x: Item, ghost items: seq<Item>,
                          ghost chains: seq<seq<Item>>, ghost j: nat)
    requires Buckets(items, chains, heads[..], counts[..]) && heads.Length == counts.Length == |chains|
    requires b < |chains| && j < |chains[b]| && chains[b][j] == x
    modifies heads, counts, chains[b]`hhPrev, chains[b]`hhNext
    ensures var now := chains[b := Without(chains[b], j)];
      forall k :: 0 <= k < |now| ==> Chain(now[k], heads[k]) && counts[k] == |now[k]|
  {
    hide Chain;
    ghost var now := chains[b := Without(chains[b], j)];
    label Start:
    counts[b] := counts[b] - 1;
    heads[b] := Unlink(heads[b], x, chains[b], j);
    forall k | 0 <= k < |chains|
      ensures Chain(now[k], heads[k]) && counts[k] == |now[k]|
    {
      if k != b {
        Apart(items, chains[b], b, chains[k], k, |chains|);
        assert old@Start(Chain(chains[k], heads[k]));
      }
    }
  }

  lemma LeavesBelong(items: seq<Item>, chains: seq<seq<Item>>, b: nat, j: nat, i: nat)
    requires i < |items| && b < |chains| && j < |chains[b]| && chains[b][j] == items[i] && Distinct(items) && Distinct(chains[b])
    requires Covered(items, chains) && forall k :: 0 <= k < |chains| ==> Belongs(items, chains[k], k, |chains|)
    ensures var now := chains[b := Without(chains[b], j)];
      Covered(Without(items, i), now) && forall k :: 0 <= k < |now| ==> Belongs(Without(items, i), now[k], k, |now|)
  {
    var now := chains[b := Without(chains[b], j)];
    WithoutFacts(items, i);
    WithoutFacts(chains[b], j);
    assert items[i] in chains[b];
    forall x: Item | x in Without(items, i)
      ensures x in now[BucketOf(x.hashv, |now|)]
    {
      assert x in items;
    }
    forall k | 0 <= k < |now|
      ensures Belongs(Without(items, i), now[k], k, |now|)
    {
      LeavesOne(items, chains, b, j, i, k);
    }
  }

  lemma LeavesOne(items: seq<Item>, chains: seq<seq<Item>>, b: nat, j: nat, i: nat, k: nat)
    requires i < |items| && b < |chains| && j < |chains[b]| && chains[b][j] == items[i] && Distinct(items) && Distinct(chains[b])
    requires k < |chains| && Belongs(items, chains[b], b, |chains|) && Belongs(items, chains[k], k, |chains|)
    ensures Belongs(Without(items, i), if k == b then Without(chains[b], j) else chains[k], k, |chains|)
  {
    WithoutFacts(items, i);
    WithoutFacts(chains[b], j);
    WithinChain(items, chains, k);
    assert items[i] in chains[b];
    if k != b {
      Apart(items, chains[b], b, chains[k], k, |chains|);
      forall m | 0 <= m < |chains[k]|
        ensures chains[k][m] in Without(items, i)
      {
        assert chains[k][m] in chains[k];
      }
    } else {
      var c := Without(chains[b], j);
      forall m | 0 <= m < |c|
        ensures c[m] in Without(items, i) && BucketOf(c[m].hashv, |chains|) == k
      {
        var y: Item := c[m];
        assert y in c && y in chains[b];
      }
    }
  }

  lemma ThirtyTwo()
    ensures Pow(2, INITIAL_LOG2) == INITIAL_BUCKETS
  {
  }

  lemma EmptyBuckets(items: seq<Item>, chains: seq<seq<Item>>, heads: seq<Item?>, counts: seq<nat>)
    requires |chains| == |heads| == |counts| > 0
    requires forall b :: 0 <= b < |chains| ==> chains[b] == [] && heads[b] == null && counts[b] == 0
    ensures Buckets(items, chains, heads, counts)
  {
  }

  /** Bucket storage, all zero. */
  method NewBuckets(n: nat) returns (heads: array<Item?>, counts: array<nat>, mults: array<nat>)
    ensures fresh(heads) && fresh(counts) && fresh(mults) && counts != mults
    ensures heads.Length == counts.Length == mults.Length == n
    ensures forall k :: 0 <= k < n ==> heads[k] == null && counts[k] == 0
  {
    heads := new Item?[n](_ => null);
    counts := new nat[n](_ => 0);
    mults := new nat[n](_ => 0);
  }

  // ---- the bucket counts ----

  function Total(counts: seq<nat>): nat {
    if counts == [] then 0 else Total(counts[..|counts| - 1]) + counts[|counts| - 1]
  }

  /** The items that belong to the first b of n buckets. */
  ghost function Below(items: seq<Item>, n: nat, b: nat): set<Item>
    requires n > 0
  {
    set x | x in items && BucketOf(x.hashv, n) < b
  }

  ghost function ItemsOf(c: seq<Item>): set<Item> {
    set x | x in c
  }

  lemma {:induction false} DistinctSize(c: seq<Item>)
    requires Distinct(c)
    ensures |ItemsOf(c)| == |c|
  {
    if c != [] {
      var rest, x := c[..|c| - 1], c[|c| - 1];
      DistinctSize(rest);
      assert x !in ItemsOf(rest);
      assert ItemsOf(c) == ItemsOf(rest) + {x};
    }
  }

  lemma {:induction false} CountBelow(items: seq<Item>, chains: seq<seq<Item>>, heads: seq<Item?>, counts: seq<nat>, b: nat)
    requires Buckets(items, chains, heads, counts) && Covered(items, chains) && b <= |counts|
    ensures Total(counts[..b]) == |Below(items, |chains|, b)|
  {
    hide Belongs, Covered, Below, Distinct;
    if b > 0 {
      CountBelow(items, chains, heads, counts, b - 1);
      assert counts[..b][..b - 1] == counts[..b - 1];
      assert Chain(chains[b - 1], heads[b - 1]);
      NextBucket(items, chains, b - 1);
    } else {
      NoBucket(items, |chains|);
    }
  }

  lemma NoBucket(items: seq<Item>, n: nat)
    requires n > 0
    ensures |Below(items, n, 0)| == 0
  {
    assert Below(items, n, 0) == {};
  }

  lemma NextBucket(items: seq<Item>, chains: seq<seq<Item>>, b: nat)
    requires Covered(items, chains) && b < |chains| && Belongs(items, chains[b], b, |chains|) && Distinct(chains[b])
    ensures |Below(items, |chains|, b + 1)| == |Below(items, |chains|, b)| + |chains[b]|
  {
    forall x | x in ItemsOf(chains[b])
      ensures x in items && BucketOf(x.hashv, |chains|) == b
    {
      var i :| 0 <= i < |chains[b]| && chains[b][i] == x;
    }
    assert Below(items, |chains|, b + 1) == Below(items, |chains|, b) + ItemsOf(chains[b]);
    assert Below(items, |chains|, b) !! ItemsOf(chains[b]);
    DistinctSize(chains[b]);
  }

  /** The bucket counts sum up to the number of items. */
  lemma CountsAddUp(items: seq<Item>, chains: seq<seq<Item>>, heads: seq<Item?>, counts: seq<nat>)
    requires Buckets(items, chains, heads, counts) && Covered(items, chains) && Distinct(items)
    ensures Total(counts) == |items|
  {
    CountBelow(items, chains, heads, counts, |counts|);
    assert counts[..|counts|] == counts;
    DistinctSize(items);
    assert Below(items, |chains|, |chains|) == ItemsOf(items);
  }

  class Table {
    var hash: seq<Byte> -> nat
    var head: Item?
    var tail: Item?
    var heads: array<Item?>
    var counts: array<nat>
    var mults: array<nat>
    var numBuckets: nat
    var log2: nat
    var numItems: nat
    var noexpand: bool
    var ineffective: nat
    ghost var items: seq<Item>
    ghost var chains: seq<seq<Item>>

    ghost predicate Valid()
      reads this, heads, counts, items
    {
      && head == At(items, 0) && tail == At(items, |items| - 1) && Order(items)
      && Hashed(hash, items)
      && DistinctKeys(items)
      && (items != [] ==> Full())
    }

    /** The part of the table that exists only while there are items. */
    ghost predicate Full()
      reads this, heads, counts, items
    {
      && numBuckets == heads.Length == counts.Length == mults.Length == |chains| == Pow(2, log2)
      && numItems == |items|
      && Buckets(items, chains, heads[..], counts[..]) && Covered(items, chains)
    }

    constructor (hash: seq<Byte> -> nat)
      ensures Valid() && items == [] && this.hash == hash
    {
      this.hash, head, tail, items, chains := hash, null, null, [], [];
      heads, counts, mults := new Item?[0], new nat[0], new nat[0];
      numBuckets, log2, numItems, noexpand, ineffective := 0, 0, 0, false, 0;
    }

    /** HASH_FIND: the item with the key, if there is one. */
    method Find(key: seq<Byte>) returns (out: Item?)
      requires Valid()
      ensures out == null <==> key !in AsMap(items)
      ensures out != null ==> out in items && AsMap(items)[key] == out
    {
      hide Order, Chain, Pow, DistinctKeys, AsMap;
      MapHas(items);
      out := null;
      if head == null {
        return;
      }
      var b := BucketOf(hash(key), numBuckets);
      WithinChain(items, chains, b);
      out := FindInBucket(heads[b], key, chains[b]);
    }

    /** HASH_EXPAND_BUCKETS: twice the buckets, every item in its new one. */
    method Expand()
      requires Full() && Order(items) && items != [] && numBuckets > 0
      modifies this`heads, this`counts, this`mults, this`numBuckets, this`log2, this`noexpand, this`ineffective, this`chains
      modifies items`hhPrev, items`hhNext
      ensures Full() && Order(items) && fresh(heads) && fresh(counts) && fresh(mults)
      ensures numBuckets == 2 * old(numBuckets) && log2 == old(log2) + 1
    {
      hide Order, Covered, Buckets, Pow;
      var n2 := 2 * numBuckets;
      var newHeads, newCounts, newMults := NewBuckets(n2);
      var ideal := numItems / n2 + if numItems % n2 != 0 then 1 else 0;
      IdealPositive(numItems, n2);
      var nonideal;
      ghost var now;
      nonideal, now := MoveAll(newHeads, newCounts, newMults, ideal);
      AllMoved(items, chains, now);
      Install(newHeads, newCounts, newMults, nonideal, now);
    }

    /** The new buckets take the old ones' place. */
    method Install(newHeads: array<Item?>, newCounts: array<nat>, newMults: array<nat>, nonideal: nat, ghost now: seq<seq<Item>>)
      requires newHeads.Length == newCounts.Length == newMults.Length == |now| == 2 * numBuckets && numBuckets == Pow(2, log2)
      requires numItems == |items| && Buckets(items, now, newHeads[..], newCounts[..]) && Covered(items, now)
      modifies this`heads, this`counts, this`mults, this`numBuckets, this`log2, this`noexpand, this`ineffective, this`chains
      ensures Full() && heads == newHeads && counts == newCounts && mults == newMults
      ensures numBuckets == 2 * old(numBuckets) && log2 == old(log2) + 1
    {
      hide Covered, Buckets, Pow;
      PowStep(2, log2);
      numBuckets, log2 := 2 * numBuckets, log2 + 1;
      heads, counts, mults, chains := newHeads, newCounts, newMults, now;
      ineffective := if nonideal > numItems / 2 then ineffective + 1 else 0;
      if ineffective > 1 {
        noexpand := true;
      }
    }

    /** The walk over the old buckets. */
    method MoveAll(newHeads: array<Item?>, newCounts: array<nat>, newMults: array<nat>, ideal: nat)
      returns (nonideal: nat, ghost now: seq<seq<Item>>)
      requires Full() && ideal > 0 && numBuckets > 0
      requires newHeads.Length == newCounts.Length == newMults.Length == 2 * numBuckets && newCounts != newMults
      requires newHeads != heads && newCounts != counts && newMults != counts && newMults != mults && newCounts != mults
      requires forall k :: 0 <= k < newHeads.Length ==> newHeads[k] == null && newCounts[k] == 0
      modifies newHeads, newCounts, newMults, items`hhPrev, items`hhNext
      ensures |now| == 2 * numBuckets && Buckets(items, now, newHeads[..], newCounts[..])
      ensures forall b, x :: 0 <= b < |chains| && x in chains[b] ==> x in now[BucketOf(x.hashv, |now|)]
    {
      hide Belongs, Covered, Pow, At;
      nonideal, now := 0, seq(2 * numBuckets, _ => []);
      ghost var old0 := heads[..];
      EmptyBuckets(items, now, newHeads[..], newCounts[..]);
      for i := 0 to numBuckets
        invariant |now| == 2 * numBuckets && heads[..] == old0
        invariant Buckets(items, now, newHeads[..], newCounts[..])
        invariant Collected(chains, now, i)
        invariant forall b :: i <= b < |chains| ==> Forward(chains[b], heads[b])
      {
        NotCollected(items, chains, now, i);
        ghost var was := now;
        nonideal, now := MoveChain(heads[i], newHeads, newCounts, newMults, ideal, nonideal, chains[i], items, now);
        StillCollected(chains, was, now, i);
        LaterChains(items, chains, i);
      }
    }

    /** HASH_ADD_KEYPTR for an item whose key is not in the table; its hash value is that of its key. */
    method Add(add: Item)
      requires Valid() && add !in items && add.hashv == hash(add.key) && forall x :: x in items ==> x.key != add.key
      modifies this, heads, counts, add, items`prev, items`next, items`hhPrev, items`hhNext
      ensures Valid() && items == old(items) + [add] && hash == old(hash)
      ensures AsMap(items) == old(AsMap(items))[add.key := add]
      ensures (heads == old(heads) || fresh(heads)) && (counts == old(counts) || fresh(counts))
    {
      hide Buckets, AsMap, Order, Covered, Pow, At, DistinctKeys, Hashed, Ready;
      MapGrows(items, add);
      KeysGrow(hash, items, add);
      HeadAndTail(items, add);
      if head == null {
        StartTable(add);
      } else {
        LinkLast(add);
      }
      AddToBucket(add);
      assert items == old(items) + [add];
      assert head == At(items, 0) && tail == At(items, |items| - 1);
      assert DistinctKeys(items) && Hashed(hash, items);
    }

    /** An item that is in the list but not yet in its bucket. */
    ghost predicate Ready(add: Item)
      reads this, heads, counts, items
    {
      && items != [] && add == items[|items| - 1] && Order(items) && numItems == |items|
      && numBuckets == heads.Length == counts.Length == mults.Length == |chains| == Pow(2, log2)
      && Buckets(items, chains, heads[..], counts[..]) && Covered(items[..|items| - 1], chains)
      && forall k :: 0 <= k < |chains| ==> add !in chains[k]
    }

    method StartTable(add: Item)
      requires items == []
      modifies this, add`prev, add`next
      ensures Ready(add) && items == [add] && head == add && tail == add && hash == old(hash)
      ensures fresh(heads) && fresh(counts)
    {
      hide Pow;
      add.prev, add.next := null, null;
      head := add;
      MakeTable(add);
      items := [add];
      numItems := numItems + 1;
      OnlyItem(add);
      assert items[..|items| - 1] == [];
    }

    method LinkLast(add: Item)
      requires items != [] && tail == items[|items| - 1] && Order(items) && Full() && add !in items
      modifies this`tail, this`items, this`numItems, add`prev, add`next, items`next
      ensures Ready(add) && items == old(items) + [add] && tail == add
    {
      hide Buckets, Order, Pow, Covered;
      AppendItem(tail, add, items);
      tail := add;
      ItemsGrow(items, chains, heads[..], counts[..], add);
      assert (items + [add])[..|items|] == items;
      items := items + [add];
      numItems := numItems + 1;
    }

    /** HASH_ADD_TO_BKT, with the expansion it may bring about. */
    method AddToBucket(add: Item)
      requires Ready(add)
      modifies this`heads, this`counts, this`mults, this`numBuckets, this`log2, this`noexpand, this`ineffective, this`chains
      modifies heads, counts, items`hhPrev, items`hhNext
      ensures Full() && Order(items) && items != []
      ensures (heads == old(heads) && counts == old(counts)) || (fresh(heads) && fresh(counts))
    {
      hide Order, Pow, Chain;
      var b := BucketOf(add.hashv, numBuckets);
      WithinChain(items, chains, b);
      NowCovered(items, chains, add);
      chains := AddToChain(heads, counts, b, add, items, chains);
      if counts[b] >= (mults[b] + 1) * CAPACITY && !noexpand {
        Expand();
      }
    }

    /** HASH_MAKE_TABLE: 32 empty buckets. */
    method MakeTable(first: Item)
      modifies this`tail, this`numItems, this`chains, this`heads, this`counts, this`mults
      modifies this`numBuckets, this`log2, this`noexpand, this`ineffective
      ensures tail == first && numItems == 0 && fresh(heads) && fresh(counts) && fresh(mults)
      ensures numBuckets == heads.Length == counts.Length == mults.Length == |chains| == Pow(2, log2)
      ensures Buckets([first], chains, heads[..], counts[..]) && forall k :: 0 <= k < |chains| ==> chains[k] == []
    {
      hide Pow, Buckets;
      ThirtyTwo();
      tail := first;
      numBuckets, log2, numItems, noexpand, ineffective := INITIAL_BUCKETS, INITIAL_LOG2, 0, false, 0;
      heads, counts, mults := NewBuckets(INITIAL_BUCKETS);
      chains := seq(INITIAL_BUCKETS, _ => []);
      EmptyBuckets([first], chains, heads[..], counts[..]);
    }

    /** HASH_DELETE: the table goes with its last item. */
    method Delete(delptr: Item, ghost i: nat)
      requires Valid() && i < |items| && items[i] == delptr
      modifies this, heads, counts, items`prev, items`next, items`hhPrev, items`hhNext
      ensures Valid() && items == Without(old(items), i) && hash == old(hash)
      ensures AsMap(items) == old(AsMap(items)) - {delptr.key}
      ensures heads == old(heads) && counts == old(counts)
    {
      hide Buckets, AsMap, Covered, Pow, DistinctKeys, Hashed, Without;
      MapShrinks(items, i);
      HashesStay(hash, items, i);
      AloneOrNot(items, i);
      if delptr.prev == null && delptr.next == null {
        head, tail := null, null;
        items := [];
        OnlyEmpty();
      } else {
        Remove(delptr, i);
      }
    }

    method Remove(delptr: Item, ghost i: nat)
      requires Valid() && i < |items| && items[i] == delptr && |items| > 1
      modifies this`head, this`tail, this`items, this`chains, this`numItems, heads, counts
      modifies items`prev, items`next, items`hhPrev, items`hhNext
      ensures items == Without(old(items), i) && Order(items) && Full()
      ensures head == At(items, 0) && tail == At(items, |items| - 1)
    {
      hide Buckets, AsMap, Covered, Pow, DistinctKeys, Hashed, Order, Without;
      OrderDistinct(items);
      HeadAndTailOf(items);
      HeadAndTailOf(Without(items, i));
      head, tail := RemoveItem(head, tail, delptr, items, i);
      DropFromBucket(delptr, i);
    }

    method DropFromBucket(delptr: Item, ghost i: nat)
      requires Full() && Distinct(items) && i < |items| && items[i] == delptr && Order(Without(items, i))
      modifies this`items, this`chains, this`numItems, heads, counts, items`hhPrev, items`hhNext
      ensures items == Without(old(items), i) && Full() && Order(items)
    {
      hide Buckets, Covered, Pow, Distinct, Without;
      ghost var rest := Without(items, i);
      chains := RemoveFromBucket(heads, counts, delptr, items, chains, i);
      assert Order(rest);
      numItems := numItems - 1;
      items := rest;
      assert Order(rest);
    }
  }
}
