/** The hash table of uthash.h. */
module HashTable {
  import opened Bytes
  import opened Sequences
  import opened Bits
  import opened Chains

  const INITIAL_BUCKETS: nat := 32
  const INITIAL_LOG2: nat := 5
  const CAPACITY: nat := 10     // a chain of this many items, times a multiplier, is too long

  function Last(s: seq<Item>): Item? {
    if s == [] then null else s[|s| - 1]
  }

  ghost predicate NextLinks(s: seq<Item>)
    reads s`next
  {
    (s != [] ==> s[|s| - 1].next == null) && forall i {:trigger s[i].next} :: 0 <= i < |s| - 1 ==> s[i].next == s[i + 1]
  }

  /** A list that ends meets no item twice. */
  lemma OrderDistinct(s: seq<Item>)
    requires NextLinks(s)
    ensures Distinct(s)
  {
    forall i, j | 0 <= i < j < |s|
      ensures s[i] != s[j]
    {
      ListedOnce(s, i, j);
    }
  }

  lemma {:induction false} ListedOnce(s: seq<Item>, i: nat, j: nat)
    requires NextLinks(s) && i < j < |s|
    ensures s[i] != s[j]
    decreases |s| - j
  {
    if s[i] == s[j] {
      assert s[i].next == s[i + 1];
      if j + 1 < |s| {
        assert s[j].next == s[j + 1];
        ListedOnce(s, i + 1, j + 1);
      }
    }
  }

  ghost predicate PrevLinks(s: seq<Item>)
    reads s`prev
  {
    (s != [] ==> s[0].prev == null) && forall i {:trigger s[i].prev} :: 0 < i < |s| ==> s[i].prev == s[i - 1]
  }

  ghost predicate KeysDiffer(items: set<Item>) {
    forall x, y {:trigger x.key, y.key} :: x in items && y in items && x.key == y.key ==> x == y
  }

  /** `order` lists exactly the items, whose keys differ. */
  ghost predicate Matches(order: seq<Item>, items: set<Item>) {
    && (forall i :: 0 <= i < |order| ==> order[i] in items) && (forall x :: x in items ==> x in order)
    && KeysDiffer(items)
  }

  /** The map from keys to items that a set of items stands for. */
  ghost function MapOf(items: set<Item>): (m: map<Text, Item>)
    requires KeysDiffer(items)
    ensures forall x :: x in items ==> x.key in m && m[x.key] == x
    ensures forall k :: k in m ==> m[k] in items && m[k].key == k
  {
    map x | x in items :: x.key := x
  }

  predicate TooLong(count: nat, expandMult: nat) {
    count >= (expandMult + 1) * CAPACITY
  }

  class Table {
    const hash: Text -> nat
    var head: Item?                 // null: no table has been made
    var tail: Item?
    var buckets: array<Bucket>
    var numBuckets: nat
    var log2NumBuckets: nat
    var numItems: nat
    var idealChainMaxlen: nat
    var nonidealItems: nat
    var ineffExpands: nat
    var noexpand: bool

    ghost var items: set<Item>
    ghost var order: seq<Item>      // in insertion order
    ghost var chains: seq<seq<Item>>

    // ---- invariants ----

    ghost predicate OrderOk()
      reads this`head, this`tail, this`order, order`next, order`prev
    {
      && head == First(order) && tail == Last(order)
      && NextLinks(order) && PrevLinks(order)
    }

    ghost predicate ItemsOk()
      reads this`items, this`order
    {
      && Matches(order, items)
      && forall x :: x in items ==> x.hashv == hash(x.key)
    }

    ghost predicate BucketsOk()
      reads this`buckets, this`numBuckets, this`chains, this`items, buckets, items`hhNext, items`hhPrev
    {
      && numBuckets == buckets.Length == |chains|
      && Filled(buckets[..], chains, items) && AllIn(items, chains)
    }

    ghost predicate TableOk()
      reads this`buckets, this`numBuckets, this`chains, this`items, buckets, items`hhNext, items`hhPrev
      reads this`numItems, this`log2NumBuckets
    {
      BucketsOk() && numItems == Total(chains) && IsLog(numBuckets, log2NumBuckets)
    }

    ghost predicate Valid()
      reads this, buckets, order`next, order`prev, items`hhNext, items`hhPrev
    {
      OrderOk() && ItemsOk() && (head != null ==> TableOk() && numItems == |order|)
    }

    ghost function Contents(): map<Text, Item>
      requires KeysDiffer(items)
      reads this`items
    {
      MapOf(items)
    }

    constructor (hash: Text -> nat)
      ensures Valid() && this.hash == hash && items == {} && fresh(buckets)
    {
      this.hash := hash;
      head, tail := null, null;
      buckets := new Bucket[0];
      numBuckets, log2NumBuckets, numItems := 0, 0, 0;
      idealChainMaxlen, nonidealItems, ineffExpands, noexpand := 0, 0, 0, false;
      items, order, chains := {}, [], [];
    }

    // ---- finding ----

    /** HASH_FIND. */
    method Find(key: Text) returns (out: Item?)
      requires Valid()
      ensures out == if key in Contents() then Contents()[key] else null
    {
      out := null;
      if head != null {
        var hashv := hash(key);
        var bkt := HashToBkt(hashv, numBuckets);
        out := FindInBucket(bkt, key);
        if key in Contents() {
          assert InChain(Contents()[key], chains);
        }
      }
    }

    method FindInBucket(bkt: nat, key: Text) returns (out: Item?)
      requires BucketsOk() && bkt < numBuckets
      ensures out != null ==> out in items && out in chains[bkt] && out.key == key
      ensures out == null ==> forall i :: 0 <= i < |chains[bkt]| ==> chains[bkt][i].key != key
    {
      ghost var chain := chains[bkt];
      assert BucketOk(buckets[..][bkt], chain, bkt, numBuckets, items);
      out := buckets[bkt].head;
      ghost var i := 0;
      while out != null
        invariant i <= |chain| && out == (if i < |chain| then chain[i] else null)
        invariant forall k :: 0 <= k < i ==> chain[k].key != key
        decreases |chain| - i
      {
        if |out.key| == |key| && out.key == key {
          break;
        }
        assert i < |chain| - 1 ==> out.hhNext == chain[i + 1];
        out := out.hhNext;
        i := i + 1;
      }
    }

    // ---- adding ----

    /** Puts an item last in insertion order. */
    method AppendOrder(add: Item)
      requires OrderOk() && add !in order
      modifies this`head, this`tail, this`order, add`next, add`prev, order`next
      ensures OrderOk() && order == old(order) + [add]
    {
      add.next := null;
      if head == null {
        head := add;
        add.prev := null;
      } else {
        tail.next := add;
        add.prev := tail;
      }
      tail := add;
      order := order + [add];
    }

    method MakeTable()
      requires items == {}
      modifies this`buckets, this`numBuckets, this`log2NumBuckets, this`numItems, this`chains, this`items
      modifies this`idealChainMaxlen, this`nonidealItems, this`ineffExpands, this`noexpand
      ensures TableOk() && numItems == 0 && items == {} && fresh(buckets)
      ensures numBuckets == INITIAL_BUCKETS && ineffExpands == 0 && !noexpand
    {
      var newBuckets := new Bucket[INITIAL_BUCKETS](_ => Bucket(null, 0, 0));
      ghost var empty := seq(INITIAL_BUCKETS, _ => []);
      NothingYet(newBuckets[..], empty, 1);
      assert IsLog(32, 5) by { assert IsLog(1, 0) && IsLog(2, 1) && IsLog(4, 2) && IsLog(8, 3) && IsLog(16, 4); }
      idealChainMaxlen, nonidealItems, ineffExpands, noexpand := 0, 0, 0, false;
      buckets, numBuckets, log2NumBuckets := newBuckets, INITIAL_BUCKETS, INITIAL_LOG2;
      Count(0, empty, {});
    }

    /** Counts an item and puts it first in its bucket, which then has `count` items. */
    method Hang(add: Item, bkt: nat) returns (count: nat)
      requires TableOk() && add !in items && bkt == BucketOf(add.hashv, numBuckets) < numBuckets
      modifies this`numItems, this`chains, this`items
      modifies buckets, items`hhPrev, add`hhPrev, add`hhNext
      ensures TableOk() && items == old(items) + {add} && numItems == old(numItems) + 1
      ensures bkt < |old(chains)| && count == |old(chains)[bkt]| + 1
    {
      ghost var more := chains[bkt := [add] + chains[bkt]];
      PushedIn(items, chains, bkt, add, more);
      TotalUpdate(chains, bkt, [add] + chains[bkt]);
      ghost var all := items + {add};
      count, more := PushFront(buckets, bkt, add, chains, items);
      Count(numItems + 1, more, all);
    }

    method Count(n: nat, ghost chains': seq<seq<Item>>, ghost items': set<Item>)
      requires numBuckets == buckets.Length == |chains'| && IsLog(numBuckets, log2NumBuckets)
      requires Filled(buckets[..], chains', items') && AllIn(items', chains') && Total(chains') == n
      modifies this`numItems, this`chains, this`items
      ensures TableOk() && numItems == n && chains == chains' && items == items'
    {
      numItems, chains, items := n, chains', items';
    }

    /** HASH_ADD_TO_BKT: a chain that has become too long doubles the buckets, unless that
        has been given up. */
    method AddToBucket(add: Item, bkt: nat)
      requires TableOk() && add !in items && bkt == BucketOf(add.hashv, numBuckets) < |chains| == buckets.Length
      modifies this`buckets, this`numBuckets, this`log2NumBuckets, this`numItems, this`chains, this`items
      modifies this`idealChainMaxlen, this`nonidealItems, this`ineffExpands, this`noexpand
      modifies buckets, items`hhPrev, items`hhNext, add`hhPrev, add`hhNext
      ensures TableOk() && items == old(items) + {add} && numItems == old(numItems) + 1
      ensures buckets == old(buckets) || fresh(buckets)
      ensures numBuckets == if old(|chains[bkt]| + 1 >= 10 * (buckets[bkt].expandMult + 1) && !noexpand) then 2 * old(numBuckets) else old(numBuckets)
    {
      var expandMult := buckets[bkt].expandMult;
      var count := Hang(add, bkt);
      if TooLong(count, expandMult) && !noexpand {
        Expand();
      }
    }

    /** Puts an item last, after making a table if there is none. */
    method Enter(add: Item)
      requires OrderOk() && Matches(order, items) && add !in items && (head != null ==> TableOk() && numItems == |order|)
      modifies this, add`next, add`prev, order`next
      ensures OrderOk() && order == old(order) + [add] && items == old(items)
      ensures TableOk() && numItems == |old(order)|
      ensures buckets == old(buckets) || fresh(buckets)
    {
      var first := head == null;
      AppendOrder(add);
      if first {
        MakeTable();
      }
    }

    /** Adds an item to its bucket; the order stays as it is. */
    method AddHashed(add: Item)
      requires OrderOk() && TableOk() && add !in items
      modifies this`buckets, this`numBuckets, this`log2NumBuckets, this`numItems, this`chains, this`items
      modifies this`idealChainMaxlen, this`nonidealItems, this`ineffExpands, this`noexpand
      modifies buckets, items`hhPrev, items`hhNext, add`hhPrev, add`hhNext
      ensures OrderOk()
      ensures TableOk() && items == old(items) + {add} && numItems == old(numItems) + 1
      ensures buckets == old(buckets) || fresh(buckets)
    {
      var bkt := HashToBkt(add.hashv, numBuckets);
      AddToBucket(add, bkt);
    }

    /** Enters an item in both the order and its bucket. */
    method Insert(add: Item)
      requires OrderOk() && Matches(order, items) && add !in items && (head != null ==> TableOk() && numItems == |order|)
      modifies this, buckets, items, add
      ensures OrderOk() && TableOk() && numItems == |order|
      ensures order == old(order) + [add] && items == old(items) + {add}
      ensures buckets == old(buckets) || fresh(buckets)
    {
      Enter(add);
      AddHashed(add);
    }

    /** HASH_ADD_KEYPTR. */
    method Add(add: Item)
      requires Valid() && add !in items && add.hashv == hash(add.key) && add.key !in Contents()
      modifies this, buckets, items, add
      ensures Valid() && order == old(order) + [add] && items == old(items) + {add}
      ensures Contents() == old(Contents())[add.key := add]
      ensures buckets == old(buckets) || fresh(buckets)
    {
      ItemsAdd(order, order + [add], items, items + {add}, add);
      Insert(add);
    }

    // ---- removing ----

    /** Takes the `k`th item out of the insertion order. */
    method UnlinkOrder(x: Item, ghost k: nat)
      requires OrderOk() && k < |order| && order[k] == x && |order| > 1
      modifies this`head, this`tail, this`order, order`next, order`prev
      ensures OrderOk() && order == Without(old(order), k)
    {
      ghost var all := order;
      OrderDistinct(all);
      assert k > 0 ==> x.prev == all[k - 1];
      assert k < |all| - 1 ==> x.next == all[k + 1];
      if x == tail {
        tail := x.prev;
      }
      if x.prev != null {
        x.prev.next := x.next;
      } else {
        head := x.next;
      }
      if x.next != null {
        x.next.prev := x.prev;
      }
      order := Without(all, k);
    }

    /** Takes an item out of its bucket and discounts it. */
    method UnhangItem(x: Item)
      requires TableOk() && x in items
      modifies this`numItems, this`chains, this`items, buckets, items`hhPrev, items`hhNext
      ensures TableOk() && items == old(items) - {x} && numItems == old(numItems) - 1
    {
      var bkt := HashToBkt(x.hashv, numBuckets);
      assert InChain(x, chains);
      ghost var j :| 0 <= j < |chains[bkt]| && chains[bkt][j] == x;
      assert BucketOk(buckets[..][bkt], chains[bkt], bkt, numBuckets, items);
      LinkedDistinct(chains[bkt]);
      ghost var all := items - {x};
      UnhungIn(items, chains, bkt, j, x, chains[bkt := Without(chains[bkt], j)]);
      ghost var less := Unhang(buckets, bkt, x, j, chains, items);
      Count(numItems - 1, less, all);
    }

    /** Takes an item out of both the order and its bucket. */
    method Remove(x: Item, ghost k: nat)
      requires OrderOk() && TableOk() && Matches(order, items) && numItems == |order|
      requires k < |order| && order[k] == x && |order| > 1
      modifies this`head, this`tail, this`order, this`numItems, this`chains, this`items, buckets, items
      ensures OrderOk() && TableOk() && numItems == |order|
      ensures order == Without(old(order), k) && items == old(items) - {x}
    {
      UnlinkOrder(x, k);
      UnhangItem(x);
    }

    /** HASH_DELETE; the table goes with its last item. `k` is the item's place in the order. */
    method Delete(x: Item, ghost k: nat)
      requires Valid() && k < |order| && order[k] == x
      modifies this, buckets, items
      ensures Valid() && order == Without(old(order), k) && items == old(items) - {x}
      ensures Contents() == old(Contents()) - {x.key}
      ensures buckets == old(buckets)
    {
      OrderDistinct(order);
      ItemsRemove(order, Without(order, k), items, items - {x}, x, k);
      MapRemove(items, items - {x}, x);
      var alone := Alone(x, k);
      if alone {
        head, tail := null, null;
        order, items := [], {};
      } else {
        Remove(x, k);
      }
    }

    /** Neither end of the item's links leads anywhere. */
    method Alone(x: Item, ghost k: nat) returns (alone: bool)
      requires OrderOk() && k < |order| && order[k] == x
      ensures alone <==> |order| == 1
    {
      assert k > 0 ==> x.prev == order[k - 1];
      assert k < |order| - 1 ==> x.next == order[k + 1];
      alone := x.prev == null && x.next == null;
    }

    // ---- checking ----

    /** HASH_FSCK: back-links and counts of every bucket, the total, and the insertion order. */
    method Fsck() returns (ok: bool)
      requires Valid()
      ensures ok
    {
      ok := true;
      if head != null {
        ok := FsckBuckets();
        if ok {
          ok := FsckOrder();
        }
      }
    }

    method FsckBuckets() returns (ok: bool)
      requires TableOk()
      ensures ok
    {
      var count := 0;
      for bkt := 0 to numBuckets
        invariant count == Total(chains[..bkt])
      {
        var good, n := FsckBucket(bkt);
        if !good || n != buckets[bkt].count {
          return false;
        }
        TotalStep(chains, bkt);
        count := count + n;
      }
      assert chains[..numBuckets] == chains;
      ok := count == numItems;
    }

    method FsckBucket(bkt: nat) returns (good: bool, n: nat)
      requires BucketsOk() && bkt < numBuckets
      ensures good && n == |chains[bkt]| == buckets[bkt].count
    {
      ghost var chain := chains[bkt];
      assert BucketOk(buckets[..][bkt], chain, bkt, numBuckets, items);
      var x, prev: Item? := buckets[bkt].head, null;
      n := 0;
      while x != null
        invariant n <= |chain| && x == (if n < |chain| then chain[n] else null)
        invariant prev == if n == 0 then null else chain[n - 1]
        decreases |chain| - n
      {
        assert x.hhPrev == prev;
        if prev != x.hhPrev {
          return false, n;
        }
        assert n < |chain| - 1 ==> x.hhNext == chain[n + 1];
        n, prev, x := n + 1, x, x.hhNext;
      }
      good := true;
    }

    method FsckOrder() returns (ok: bool)
      requires OrderOk() && numItems == |order|
      ensures ok
    {
      var x, prev: Item? := head, null;
      var n := 0;
      while x != null
        invariant n <= |order| && x == (if n < |order| then order[n] else null)
        invariant prev == if n == 0 then null else order[n - 1]
        decreases |order| - n
      {
        assert x.prev == prev;
        if prev != x.prev {
          return false;
        }
        assert n < |order| - 1 ==> x.next == order[n + 1];
        n, prev, x := n + 1, x, x.next;
      }
      ok := n == numItems;
    }

    // ---- doubling ----

    /** HASH_EXPAND_BUCKETS: twice the buckets, the same items, and fresh statistics. */
    method Expand()
      requires TableOk() && numItems > 0
      modifies this`buckets, this`numBuckets, this`log2NumBuckets, this`chains
      modifies this`idealChainMaxlen, this`nonidealItems, this`ineffExpands, this`noexpand
      modifies items`hhPrev, items`hhNext
      ensures TableOk() && numBuckets == 2 * old(numBuckets) && fresh(buckets)
      ensures Spread(buckets[..], chains, idealChainMaxlen, nonidealItems)
      ensures LeastRoom(numItems, numBuckets, idealChainMaxlen)
      ensures ineffExpands == if nonidealItems > numItems / 2 then old(ineffExpands) + 1 else 0
      ensures noexpand == (old(noexpand) || ineffExpands > 1)
    {
      var ideal := Ideal(numItems, numBuckets, log2NumBuckets);
      var newBuckets, nonideal;
      ghost var moved;
      newBuckets, nonideal, moved := Doubled(buckets, ideal, chains, items);
      Install(newBuckets, ideal, nonideal, moved);
    }

    /** Puts the doubled buckets to use. Two doublings in a row that leave most items beyond
        the ideal place are the last. */
    method Install(newBuckets: array<Bucket>, ideal: nat, nonideal: nat, ghost moved: seq<seq<Item>>)
      requires Filled(newBuckets[..], moved, items) && AllIn(items, moved)
      requires newBuckets.Length == 2 * numBuckets
      modifies this`buckets, this`numBuckets, this`log2NumBuckets, this`chains
      modifies this`idealChainMaxlen, this`nonidealItems, this`ineffExpands, this`noexpand
      ensures BucketsOk() && buckets == newBuckets && chains == moved
      ensures numBuckets == 2 * old(numBuckets) && log2NumBuckets == old(log2NumBuckets) + 1
      ensures idealChainMaxlen == ideal && nonidealItems == nonideal
      ensures ineffExpands == if nonidealItems > numItems / 2 then old(ineffExpands) + 1 else 0
      ensures noexpand == (old(noexpand) || ineffExpands > 1)
    {
      Rate(nonideal);
      idealChainMaxlen, nonidealItems := ideal, nonideal;
      numBuckets, log2NumBuckets := numBuckets * 2, log2NumBuckets + 1;
      buckets, chains := newBuckets, moved;
    }

    method Rate(nonideal: nat)
      modifies this`ineffExpands, this`noexpand
      ensures ineffExpands == if nonideal > numItems / 2 then old(ineffExpands) + 1 else 0
      ensures noexpand == (old(noexpand) || ineffExpands > 1)
    {
      assert Shift(numItems, 1) == Shift(numItems / 2, 0) == numItems / 2;
      ineffExpands := if nonideal > Shift(numItems, 1) then ineffExpands + 1 else 0;
      if ineffExpands > 1 {
        noexpand := true;
      }
    }
  }

  lemma ItemsAdd(order: seq<Item>, order': seq<Item>, items: set<Item>, items': set<Item>, x: Item)
    requires Matches(order, items) && x.key !in MapOf(items) && order' == order + [x] && items' == items + {x}
    ensures Matches(order', items') && MapOf(items') == MapOf(items)[x.key := x]
  {
  }

  lemma ItemsRemove(order: seq<Item>, order': seq<Item>, items: set<Item>, items': set<Item>, x: Item, k: nat)
    requires Matches(order, items) && Distinct(order) && k < |order| && order[k] == x
    requires order' == Without(order, k) && items' == items - {x}
    ensures Matches(order', items')
  {
    forall y | y in items'
      ensures y in order'
    {
      var i :| 0 <= i < |order| && order[i] == y;
      assert order'[if i < k then i else i - 1] == y;
    }
  }

  lemma MapRemove(items: set<Item>, items': set<Item>, x: Item)
    requires KeysDiffer(items) && x in items && items' == items - {x} && KeysDiffer(items')
    ensures MapOf(items') == MapOf(items) - {x.key}
  {
  }

  /** All items in twice as many buckets. */
  method Doubled(source: array<Bucket>, ideal: nat, ghost chains: seq<seq<Item>>, ghost items: set<Item>)
    returns (buckets: array<Bucket>, nonideal: nat, ghost moved: seq<seq<Item>>)
    requires Filled(source[..], chains, items) && AllIn(items, chains) && PowerOfTwo(2 * source.Length) && ideal > 0
    modifies items`hhPrev, items`hhNext
    ensures fresh(buckets) && buckets.Length == 2 * source.Length
    ensures Growing(buckets[..], moved, items, ideal, nonideal) && Total(moved) == Total(chains)
  {
    buckets := new Bucket[2 * source.Length](_ => Bucket(null, 0, 0));
    ghost var empty := seq(buckets.Length, _ => []);
    NothingYet(buckets[..], empty, ideal);
    WholeTable(source[..], chains, items);
    nonideal, moved := Redistribute(source, buckets, ideal, chains, items, empty);
  }

  /** The shift and the mask give the exact ceiling, for the doubled number of buckets. */
  method Ideal(numItems: nat, numBuckets: nat, log2: nat) returns (ideal: nat)
    requires IsLog(numBuckets, log2)
    ensures LeastRoom(numItems, 2 * numBuckets, ideal)
    ensures numItems > 0 ==> ideal > 0
    ensures IsLog(2 * numBuckets, log2 + 1)
  {
    LogIs(numBuckets, log2);
    LogIs(2 * numBuckets, log2 + 1);
    ideal := Shift(numItems, log2 + 1) + if And(numItems, 2 * numBuckets - 1) != 0 then 1 else 0;
    CeilingIsLeast(numItems, log2 + 1);
  }

  lemma NothingYet(buckets: seq<Bucket>, chains: seq<seq<Item>>, ideal: nat)
    requires |buckets| == |chains| && ideal > 0
    requires forall b :: 0 <= b < |chains| ==> buckets[b] == Bucket(null, 0, 0) && chains[b] == []
    ensures Growing(buckets, chains, {}, ideal, 0) && Total(chains) == 0
  {
    AllEmpty(chains, ideal);
  }

  lemma {:induction false} AllEmpty(chains: seq<seq<Item>>, ideal: nat)
    requires forall b :: 0 <= b < |chains| ==> chains[b] == []
    ensures Total(chains) == 0 && Excess(chains, ideal) == 0
  {
    if chains != [] {
      AllEmpty(chains[..|chains| - 1], ideal);
    }
  }

  lemma WholeTable(buckets: seq<Bucket>, chains: seq<seq<Item>>, items: set<Item>)
    requires Filled(buckets, chains, items) && AllIn(items, chains)
    ensures Source(buckets, chains, items) && Later(chains, 0, items)
  {
    forall b | 0 <= b < |chains|
      ensures buckets[b].head == First(chains[b]) && HashesTo(chains[b], b, |chains|)
    {
      assert BucketOk(buckets[b], chains[b], b, |chains|, items);
    }
    LaterAll(buckets, chains, items, 0);
  }

  lemma {:induction false} LaterAll(buckets: seq<Bucket>, chains: seq<seq<Item>>, items: set<Item>, i: nat)
    requires Filled(buckets, chains, items)
    ensures Later(chains, i, items)
    decreases |chains| - i
  {
    if i < |chains| {
      assert BucketOk(buckets[i], chains[i], i, |chains|, items);
      LaterAll(buckets, chains, items, i + 1);
    }
  }
}
