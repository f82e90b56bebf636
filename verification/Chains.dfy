/** The bucket chains of uthash.h. */
module Chains {
  import opened Bytes
  import opened Sequences
  import opened Bits

  /** A hash handle: one element of a table. */
  class Item {
    const key: Text
    const hashv: nat       // the hash of the key
    var prev: Item?        // in insertion order
    var next: Item?
    var hhPrev: Item?      // in its bucket
    var hhNext: Item?

    constructor (key: Text, hashv: nat)
      ensures this.key == key && this.hashv == hashv
    {
      this.key := key;
      this.hashv := hashv;
      prev, next, hhPrev, hhNext := null, null, null, null;
    }
  }

  datatype Bucket = Bucket(head: Item?, count: nat, expandMult: nat)

  function First(s: seq<Item>): Item? {
    if s == [] then null else s[0]
  }

  ghost predicate Distinct(s: seq<Item>) {
    forall i, j :: 0 <= i < j < |s| ==> s[i] != s[j]
  }

  /** Each item leads to the next in its bucket, the last to none. */
  ghost predicate Linked(s: seq<Item>)
    reads s`hhNext
  {
    (s != [] ==> s[|s| - 1].hhNext == null) && forall i {:trigger s[i].hhNext} :: 0 <= i < |s| - 1 ==> s[i].hhNext == s[i + 1]
  }

  /** A chain that ends meets no item twice. */
  lemma LinkedDistinct(s: seq<Item>)
    requires Linked(s)
    ensures Distinct(s)
  {
    forall i, j | 0 <= i < j < |s|
      ensures s[i] != s[j]
    {
      MeetsOnce(s, i, j);
    }
  }

  lemma {:induction false} MeetsOnce(s: seq<Item>, i: nat, j: nat)
    requires Linked(s) && i < j < |s|
    ensures s[i] != s[j]
    decreases |s| - j
  {
    if s[i] == s[j] {
      assert s[i].hhNext == s[i + 1];
      if j + 1 < |s| {
        assert s[j].hhNext == s[j + 1];
        MeetsOnce(s, i + 1, j + 1);
      }
    }
  }

  ghost predicate BackLinked(s: seq<Item>)
    reads s`hhPrev
  {
    (s != [] ==> s[0].hhPrev == null) && forall i {:trigger s[i].hhPrev} :: 0 < i < |s| ==> s[i].hhPrev == s[i - 1]
  }

  /** `chain` is what hangs off bucket `b` of `n`. */
  ghost predicate BucketOk(bucket: Bucket, chain: seq<Item>, b: nat, n: nat, items: set<Item>)
    reads chain`hhNext, chain`hhPrev
  {
    && bucket.head == First(chain) && bucket.count == |chain|
    && Linked(chain) && BackLinked(chain)
    && forall i :: 0 <= i < |chain| ==> chain[i] in items && n > 0 && BucketOf(chain[i].hashv, n) == b
  }

  ghost predicate Within(chains: seq<seq<Item>>, all: set<Item>) {
    forall b, i :: 0 <= b < |chains| && 0 <= i < |chains[b]| ==> chains[b][i] in all
  }

  ghost predicate Filled(buckets: seq<Bucket>, chains: seq<seq<Item>>, items: set<Item>)
    reads items`hhNext, items`hhPrev
  {
    && |buckets| == |chains|
    && (forall b, i :: 0 <= b < |chains| && 0 <= i < |chains[b]| ==> chains[b][i] in items)
    && forall b :: 0 <= b < |chains| ==> BucketOk(buckets[b], chains[b], b, |chains|, items)
  }

  /** No item is missing from the chain of its bucket. */
  ghost predicate AllIn(items: set<Item>, chains: seq<seq<Item>>) {
    forall x {:trigger InChain(x, chains)} :: x in items ==> InChain(x, chains)
  }

  ghost predicate InChain(x: Item, chains: seq<seq<Item>>) {
    BucketOf(x.hashv, |chains|) < |chains| && x in chains[BucketOf(x.hashv, |chains|)]
  }

  function Total(chains: seq<seq<Item>>): nat {
    if chains == [] then 0 else Total(chains[..|chains| - 1]) + |chains[|chains| - 1]|
  }

  /** How many items stand beyond place `ideal` in their chains. */
  function Excess(chains: seq<seq<Item>>, ideal: nat): nat {
    if chains == [] then 0
    else Excess(chains[..|chains| - 1], ideal) + Beyond(|chains[|chains| - 1]|, ideal)
  }

  function Beyond(count: nat, ideal: nat): nat {
    if count > ideal then count - ideal else 0
  }

  lemma {:induction false} TotalUpdate(chains: seq<seq<Item>>, b: nat, chain: seq<Item>)
    requires b < |chains|
    ensures Total(chains[b := chain]) == Total(chains) - |chains[b]| + |chain|
  {
    var last := |chains| - 1;
    var updated := chains[b := chain];
    if b < last {
      TotalUpdate(chains[..last], b, chain);
      assert updated[..last] == chains[..last][b := chain];
    } else {
      assert updated[..last] == chains[..last];
    }
  }

  lemma {:induction false} ExcessUpdate(chains: seq<seq<Item>>, b: nat, chain: seq<Item>, ideal: nat)
    requires b < |chains|
    ensures Excess(chains[b := chain], ideal) == Excess(chains, ideal) - Beyond(|chains[b]|, ideal) + Beyond(|chain|, ideal)
  {
    var last := |chains| - 1;
    var updated := chains[b := chain];
    if b < last {
      ExcessUpdate(chains[..last], b, chain, ideal);
      assert updated[..last] == chains[..last][b := chain];
    } else {
      assert updated[..last] == chains[..last];
    }
  }

  /** Hangs `x` in front of one chain. */
  method HangFront(bucket: Bucket, x: Item, ghost chain: seq<Item>, ghost b: nat, ghost n: nat, ghost items: set<Item>)
    returns (bucket': Bucket)
    requires BucketOk(bucket, chain, b, n, items) && x !in items && n > 0 && BucketOf(x.hashv, n) == b
    modifies x`hhPrev, x`hhNext, chain`hhPrev
    ensures bucket' == Bucket(x, bucket.count + 1, bucket.expandMult)
    ensures BucketOk(bucket', [x] + chain, b, n, items + {x})
  {
    assert x !in chain;
    x.hhNext := bucket.head;
    x.hhPrev := null;
    if bucket.head != null {
      bucket.head.hhPrev := x;
    }
    assert Linked(chain);
    bucket' := bucket.(head := x, count := bucket.count + 1);
    ghost var more := [x] + chain;
    assert forall i :: 0 < i < |more| ==> more[i] == chain[i - 1];
  }

  /** Hangs `x` in front of the chain of bucket `b`. */
  method PushFront(buckets: array<Bucket>, b: nat, x: Item, ghost chains: seq<seq<Item>>, ghost items: set<Item>)
    returns (count: nat, ghost chains': seq<seq<Item>>)
    requires Filled(buckets[..], chains, items) && b < |chains| && x !in items && BucketOf(x.hashv, |chains|) == b
    modifies buckets, items`hhPrev, x`hhPrev, x`hhNext
    ensures chains' == chains[b := [x] + chains[b]] && Filled(buckets[..], chains', items + {x})
    ensures buckets[..] == old(buckets[..])[b := Bucket(x, count, old(buckets[b].expandMult))] && count == |chains'[b]|
  {
    var bucket := buckets[b];
    chains' := chains[b := [x] + chains[b]];
    assert BucketOk(bucket, chains[b], b, |chains|, items);
    bucket := HangFront(bucket, x, chains[b], b, |chains|, items);
    buckets[b] := bucket;
    count := bucket.count;
    forall c | 0 <= c < |chains| && c != b
      ensures BucketOk(buckets[..][c], chains'[c], c, |chains|, items + {x})
    {
      assert old(BucketOk(buckets[..][c], chains[c], c, |chains|, items));
      assert forall i, j :: 0 <= i < |chains[c]| && 0 <= j < |chains[b]| ==> chains[c][i] != chains[b][j];
    }
  }

  lemma PushedIn(items: set<Item>, chains: seq<seq<Item>>, b: nat, x: Item, chains': seq<seq<Item>>)
    requires AllIn(items, chains) && b < |chains| && BucketOf(x.hashv, |chains|) == b
    requires chains' == chains[b := [x] + chains[b]]
    ensures AllIn(items + {x}, chains')
  {
    forall y | y in items + {x}
      ensures InChain(y, chains')
    {
      assert y != x ==> InChain(y, chains);
    }
  }

  // ---- doubling ----

  function Quotient(a: nat, b: nat): nat
    requires b > 0
  {
    a / b
  }

  /** Each bucket's multiplier, and the number of items beyond the ideal place. */
  ghost predicate Spread(buckets: seq<Bucket>, chains: seq<seq<Item>>, ideal: nat, nonideal: nat) {
    && |buckets| == |chains| && ideal > 0 && nonideal == Excess(chains, ideal)
    && forall b :: 0 <= b < |chains| ==> buckets[b].expandMult == if |chains[b]| > ideal then Quotient(|chains[b]|, ideal) else 0
  }

  /** One more item in bucket `b`, whose multiplier is set anew if that is one too many. */
  lemma SpreadStep(buckets: seq<Bucket>, buckets': seq<Bucket>, chains: seq<seq<Item>>, chains': seq<seq<Item>>, ideal: nat,
                   nonideal: nat, nonideal': nat, b: nat, x: Item, count: nat)
    requires Spread(buckets, chains, ideal, nonideal) && b < |chains| && chains' == chains[b := [x] + chains[b]]
    requires count == |chains'[b]| && nonideal' == if count > ideal then nonideal + 1 else nonideal
    requires |buckets'| == |buckets| && forall c :: 0 <= c < |buckets| && c != b ==> buckets'[c] == buckets[c]
    requires buckets'[b].expandMult == if count > ideal then Quotient(count, ideal) else buckets[b].expandMult
    ensures Spread(buckets', chains', ideal, nonideal') && Total(chains') == Total(chains) + 1
  {
    ExcessUpdate(chains, b, [x] + chains[b], ideal);
    TotalUpdate(chains, b, [x] + chains[b]);
  }

  /** The doubled table as far as it is filled: `items` are in it. */
  ghost predicate Growing(buckets: seq<Bucket>, chains: seq<seq<Item>>, items: set<Item>, ideal: nat, nonideal: nat)
    reads items`hhNext, items`hhPrev
  {
    Filled(buckets, chains, items) && AllIn(items, chains) && Spread(buckets, chains, ideal, nonideal)
  }

  /** Moves one item to the bucket that is its in the doubled table. */
  method MoveItem(buckets: array<Bucket>, b: nat, x: Item, ideal: nat, nonideal: nat, ghost chains: seq<seq<Item>>, ghost items: set<Item>)
    returns (nonideal': nat, ghost chains': seq<seq<Item>>)
    requires Growing(buckets[..], chains, items, ideal, nonideal)
    requires x !in items && b < |chains| && BucketOf(x.hashv, |chains|) == b
    modifies buckets, items`hhPrev, x`hhPrev, x`hhNext
    ensures Growing(buckets[..], chains', items + {x}, ideal, nonideal') && Total(chains') == Total(chains) + 1
  {
    ghost var was, more := buckets[..], chains[b := [x] + chains[b]];
    PushedIn(items, chains, b, x, more);
    var count;
    count, chains' := PushFront(buckets, b, x, chains, items);
    nonideal' := Judge(buckets, b, x, count, ideal, nonideal, was, chains, chains', items + {x});
  }

  /** Counts an item that is one too many in its bucket. */
  method Judge(buckets: array<Bucket>, b: nat, x: Item, count: nat, ideal: nat, nonideal: nat, ghost was: seq<Bucket>,
               ghost chains: seq<seq<Item>>, ghost chains': seq<seq<Item>>, ghost items: set<Item>)
    returns (nonideal': nat)
    requires Spread(was, chains, ideal, nonideal) && b < |chains| && chains' == chains[b := [x] + chains[b]]
    requires Filled(buckets[..], chains', items) && count == |chains'[b]|
    requires buckets[..] == was[b := Bucket(x, count, was[b].expandMult)]
    modifies buckets
    ensures Filled(buckets[..], chains', items) && Spread(buckets[..], chains', ideal, nonideal')
    ensures Total(chains') == Total(chains) + 1
  {
    nonideal' := nonideal;
    if count > ideal {
      nonideal' := nonideal + 1;
      SetMultiplier(buckets, b, Quotient(count, ideal), chains', items);
    }
    SpreadStep(was, buckets[..], chains, chains', ideal, nonideal, nonideal', b, x, count);
  }

  method SetMultiplier(buckets: array<Bucket>, b: nat, mult: nat, ghost chains: seq<seq<Item>>, ghost items: set<Item>)
    requires Filled(buckets[..], chains, items) && b < buckets.Length
    modifies buckets
    ensures Filled(buckets[..], chains, items)
    ensures buckets[..] == old(buckets[..])[b := old(buckets[b]).(expandMult := mult)]
  {
    buckets[b] := buckets[b].(expandMult := mult);
    forall c | 0 <= c < |chains|
      ensures BucketOk(buckets[..][c], chains[c], c, |chains|, items)
    {
      assert old(BucketOk(buckets[..][c], chains[c], c, |chains|, items));
    }
  }

  /** A chain, or what is left of it, that has yet to be moved. */
  ghost predicate Unmoved(todo: seq<Item>, items: set<Item>, all: set<Item>)
    reads todo`hhNext
  {
    && Linked(todo) && items <= all
    && forall i :: 0 <= i < |todo| ==> todo[i] !in items && todo[i] in all
  }

  lemma UnmovedRest(todo: seq<Item>, items: set<Item>, all: set<Item>, x: Item, rest: seq<Item>)
    requires Unmoved(todo, items, all) && todo != [] && x == todo[0] && rest == todo[1..]
    ensures Unmoved(rest, items + {x}, all) && x.hhNext == First(rest) && x in all && x !in items && x !in rest
    ensures forall y :: y in todo <==> y == x || y in rest
  {
    LinkedDistinct(todo);
    assert forall i :: 0 <= i < |rest| ==> rest[i] == todo[i + 1];
    assert todo == [x] + rest;
  }

  /** Moves the first item of a chain. */
  method MoveFirst(buckets: array<Bucket>, b: nat, x: Item, ideal: nat, nonideal: nat, ghost todo: seq<Item>, ghost rest: seq<Item>,
                   ghost chains: seq<seq<Item>>, ghost items: set<Item>, ghost all: set<Item>)
    returns (next: Item?, nonideal': nat, ghost chains': seq<seq<Item>>)
    requires Growing(buckets[..], chains, items, ideal, nonideal) && Unmoved(todo, items, all)
    requires todo != [] && x == todo[0] && rest == todo[1..] && b == BucketOf(x.hashv, buckets.Length) < buckets.Length
    modifies buckets, all`hhPrev, x`hhNext
    ensures Growing(buckets[..], chains', items + {x}, ideal, nonideal') && Unmoved(rest, items + {x}, all)
    ensures next == First(rest) && Total(chains') == Total(chains) + 1
  {
    UnmovedRest(todo, items, all, x, rest);
    next := x.hhNext;
    nonideal', chains' := MoveItem(buckets, b, x, ideal, nonideal, chains, items);
  }

  lemma Drained(items: set<Item>, left: set<Item>, whole: set<Item>)
    requires items + left == whole && forall x :: x !in left
    ensures items == whole
  {
  }

  lemma Drain(items: set<Item>, left: set<Item>, whole: set<Item>, x: Item, items': set<Item>, left': set<Item>)
    requires items + left == whole && x in left && items' == items + {x} && left' == left - {x}
    ensures items' + left' == whole
  {
  }

  /** Moves every item of a chain. */
  method MoveChain(buckets: array<Bucket>, head: Item?, ideal: nat, nonideal0: nat, ghost chain: seq<Item>,
                   ghost chains0: seq<seq<Item>>, ghost items0: set<Item>, ghost all: set<Item>, ghost own: set<Item>)
    returns (nonideal: nat, ghost chains: seq<seq<Item>>)
    requires Growing(buckets[..], chains0, items0, ideal, nonideal0)
    requires Unmoved(chain, items0, all) && head == First(chain) && PowerOfTwo(buckets.Length)
    requires forall x :: x in own <==> x in chain
    modifies buckets, all`hhPrev, own`hhNext
    ensures Growing(buckets[..], chains, items0 + own, ideal, nonideal)
    ensures Total(chains) == Total(chains0) + |chain|
  {
    var x := head;
    ghost var todo := chain;
    nonideal, chains := nonideal0, chains0;
    ghost var items, left := items0, own;
    while x != null
      invariant Growing(buckets[..], chains, items, ideal, nonideal)
      invariant Unmoved(todo, items, all) && x == First(todo)
      invariant (forall y :: y in left <==> y in todo) && left <= own && items + left == items0 + own
      invariant Total(chains) + |todo| == Total(chains0) + |chain|
      decreases |todo|
    {
      var y: Item := x;
      ghost var rest := todo[1..];
      UnmovedRest(todo, items, all, y, rest);
      var b := HashToBkt(y.hashv, buckets.Length);
      x, nonideal, chains := MoveFirst(buckets, b, y, ideal, nonideal, todo, rest, chains, items, all);
      Drain(items, left, items0 + own, y, items + {y}, left - {y});
      items, todo, left := items + {y}, rest, left - {y};
    }
    Drained(items, left, items0 + own);
  }

  /** The old table's chains hold all items, each in the chain of its bucket. */
  ghost predicate Source(source: seq<Bucket>, chains: seq<seq<Item>>, all: set<Item>) {
    && |source| == |chains|
    && Within(chains, all)
    && (forall b :: 0 <= b < |chains| ==> source[b].head == First(chains[b]) && HashesTo(chains[b], b, |chains|))
    && AllIn(all, chains)
  }

  ghost predicate HashesTo(chain: seq<Item>, b: nat, n: nat) {
    n > 0 && forall k :: 0 <= k < |chain| ==> BucketOf(chain[k].hashv, n) == b
  }

  /** The chains from bucket `i` on are whole, all of items among `later`. */
  ghost predicate Later(chains: seq<seq<Item>>, i: nat, later: set<Item>)
    reads later`hhNext
    decreases |chains| - i
  {
    i < |chains| ==>
      && (forall k :: 0 <= k < |chains[i]| ==> chains[i][k] in later)
      && Linked(chains[i]) && Later(chains, i + 1, later)
  }

  ghost predicate Before(x: Item, i: nat, n: nat) {
    n > 0 && BucketOf(x.hashv, n) < i
  }

  /** The items of the buckets before `i` have been moved. */
  ghost predicate MovedUpTo(items: set<Item>, all: set<Item>, i: nat, n: nat) {
    items <= all && forall x :: x in all ==> (x in items <==> Before(x, i, n))
  }

  lemma OwnChain(source: seq<Bucket>, chains: seq<seq<Item>>, all: set<Item>, b: nat, x: Item)
    requires Source(source, chains, all) && b < |chains| && x in all
    ensures x in chains[b] <==> BucketOf(x.hashv, |chains|) == b
  {
    assert HashesTo(chains[b], b, |chains|) && InChain(x, chains);
  }

  lemma NextChain(source: seq<Bucket>, chains: seq<seq<Item>>, all: set<Item>, i: nat, items: set<Item>, later: set<Item>)
    requires Source(source, chains, all) && i < |chains|
    requires Later(chains, i, later) && MovedUpTo(items, all, i, |chains|)
    ensures Unmoved(chains[i], items, all)
  {
    forall k | 0 <= k < |chains[i]|
      ensures chains[i][k] in all && chains[i][k] !in items
    {
      OwnChain(source, chains, all, i, chains[i][k]);
    }
  }

  /** The chains from bucket `i` on have no item of chain `without`. */
  lemma {:induction false} LaterWithout(source: seq<Bucket>, chains: seq<seq<Item>>, all: set<Item>, i: nat,
                                        without: nat, later: set<Item>, later': set<Item>)
    requires Source(source, chains, all) && without < i <= |chains| && Later(chains, i, later)
    requires forall x :: x in later' <==> x in later && x !in chains[without]
    ensures Later(chains, i, later')
    decreases |chains| - i
  {
    if i < |chains| {
      LaterWithout(source, chains, all, i + 1, without, later, later');
      forall k | 0 <= k < |chains[i]|
        ensures chains[i][k] in later'
      {
        OwnChain(source, chains, all, i, chains[i][k]);
        OwnChain(source, chains, all, without, chains[i][k]);
      }
    }
  }

  lemma Prepare(source: seq<Bucket>, chains: seq<seq<Item>>, all: set<Item>, i: nat, items: set<Item>, later: set<Item>)
    returns (own: set<Item>, later': set<Item>)
    requires Source(source, chains, all) && i < |chains|
    requires Later(chains, i, later) && later <= all && MovedUpTo(items, all, i, |chains|)
    ensures Unmoved(chains[i], items, all) && Later(chains, i + 1, later') && later' <= all && later' !! own
    ensures source[i].head == First(chains[i]) && forall x :: x in own <==> x in chains[i]
    ensures MovedUpTo(items + own, all, i + 1, |chains|)
  {
    own := set x | x in chains[i];
    later' := later - own;
    NextChain(source, chains, all, i, items, later);
    LaterWithout(source, chains, all, i + 1, i, later, later');
    OwnSet(source, chains, all, i, own);
  }

  lemma OwnSet(source: seq<Bucket>, chains: seq<seq<Item>>, all: set<Item>, i: nat, own: set<Item>)
    requires Source(source, chains, all) && i < |chains| && forall x :: x in own <==> x in chains[i]
    ensures own <= all && forall x :: x in all ==> (x in own <==> BucketOf(x.hashv, |chains|) == i)
  {
    forall x | x in all
      ensures x in own <==> BucketOf(x.hashv, |chains|) == i
    {
      OwnChain(source, chains, all, i, x);
    }
  }

  lemma TotalStep(chains: seq<seq<Item>>, i: nat)
    requires i < |chains|
    ensures Total(chains[..i + 1]) == Total(chains[..i]) + |chains[i]|
  {
    assert chains[..i + 1][..i] == chains[..i];
  }

  /** The old chains and all their items, the new chains, and which items are in the new
      chains and which are still to come. */
  datatype Migration = Migration(chains: seq<seq<Item>>, all: set<Item>, moved: seq<seq<Item>>, items: set<Item>, later: set<Item>)

  /** The chains of the buckets before `i` have been moved. */
  ghost predicate Midway(buckets: seq<Bucket>, m: Migration, i: nat, ideal: nat, nonideal: nat)
    reads m.items`hhNext, m.items`hhPrev, m.later`hhNext
  {
    && Growing(buckets, m.moved, m.items, ideal, nonideal)
    && Later(m.chains, i, m.later) && m.later <= m.all && MovedUpTo(m.items, m.all, i, |m.chains|)
  }

  /** Moves one chain; the later chains are not touched. */
  method MoveNext(head: Item?, buckets: array<Bucket>, ideal: nat, nonideal: nat, ghost i: nat, ghost m: Migration, ghost own: set<Item>)
    returns (nonideal': nat, ghost moved': seq<seq<Item>>)
    requires i < |m.chains| && head == First(m.chains[i]) && PowerOfTwo(buckets.Length)
    requires Growing(buckets[..], m.moved, m.items, ideal, nonideal) && Unmoved(m.chains[i], m.items, m.all)
    requires (forall x :: x in own <==> x in m.chains[i]) && Later(m.chains, i + 1, m.later) && m.later !! own
    modifies buckets, m.all`hhPrev, own`hhNext
    ensures Growing(buckets[..], moved', m.items + own, ideal, nonideal') && Later(m.chains, i + 1, m.later)
    ensures Total(moved') == Total(m.moved) + |m.chains[i]|
  {
    nonideal', moved' := MoveChain(buckets, head, ideal, nonideal, m.chains[i], m.moved, m.items, m.all, own);
    ghost var kept := Later(m.chains, i + 1, m.later);
    assert kept;
  }

  /** Moves the chain of bucket `i`. */
  method MoveBucket(source: array<Bucket>, buckets: array<Bucket>, i: nat, ideal: nat, nonideal: nat, ghost m: Migration)
    returns (nonideal': nat, ghost m': Migration)
    requires source != buckets && Source(source[..], m.chains, m.all) && i < |m.chains| && PowerOfTwo(buckets.Length)
    requires Midway(buckets[..], m, i, ideal, nonideal)
    modifies buckets, m.all`hhPrev, m.all`hhNext
    ensures m'.chains == m.chains && m'.all == m.all && Midway(buckets[..], m', i + 1, ideal, nonideal')
    ensures Total(m'.moved) == Total(m.moved) + |m.chains[i]|
  {
    ghost var own, later' := Prepare(source[..], m.chains, m.all, i, m.items, m.later);
    ghost var moved';
    nonideal', moved' := MoveNext(source[i].head, buckets, ideal, nonideal, i, m.(later := later'), own);
    m' := Migration(m.chains, m.all, moved', m.items + own, later');
  }

  /** Moves every item to the doubled table, bucket by bucket. */
  method Redistribute(source: array<Bucket>, buckets: array<Bucket>, ideal: nat, ghost chains: seq<seq<Item>>, ghost all: set<Item>,
                      ghost empty: seq<seq<Item>>)
    returns (nonideal: nat, ghost moved: seq<seq<Item>>)
    requires source != buckets && Source(source[..], chains, all) && Later(chains, 0, all) && PowerOfTwo(buckets.Length)
    requires Growing(buckets[..], empty, {}, ideal, 0) && Total(empty) == 0
    modifies buckets, all`hhPrev, all`hhNext
    ensures Growing(buckets[..], moved, all, ideal, nonideal) && Total(moved) == Total(chains)
  {
    nonideal := 0;
    ghost var m := Migration(chains, all, empty, {}, all);
    for i := 0 to source.Length
      invariant m.chains == chains && m.all == all && Source(source[..], chains, all)
      invariant Midway(buckets[..], m, i, ideal, nonideal) && Total(m.moved) == Total(chains[..i])
    {
      TotalStep(chains, i);
      nonideal, m := MoveBucket(source, buckets, i, ideal, nonideal, m);
    }
    assert chains[..|chains|] == chains;
    AllMoved(source[..], chains, all, m.items);
    moved := m.moved;
  }

  lemma AllMoved(source: seq<Bucket>, chains: seq<seq<Item>>, all: set<Item>, items: set<Item>)
    requires Source(source, chains, all) && MovedUpTo(items, all, |chains|, |chains|)
    ensures items == all
  {
    forall x | x in all
      ensures x in items
    {
      assert InChain(x, chains);
    }
  }

  // ---- removing ----

  /** Takes the `j`th item off its chain. */
  method UnhangFrom(bucket: Bucket, x: Item, ghost j: nat, ghost chain: seq<Item>, ghost b: nat, ghost n: nat, ghost items: set<Item>)
    returns (bucket': Bucket)
    requires BucketOk(bucket, chain, b, n, items) && j < |chain| && chain[j] == x
    modifies chain`hhPrev, chain`hhNext
    ensures BucketOk(bucket', Without(chain, j), b, n, items - {x}) && bucket'.expandMult == bucket.expandMult
  {
    LinkedDistinct(chain);
    assert j > 0 ==> x.hhPrev == chain[j - 1];
    assert j < |chain| - 1 ==> x.hhNext == chain[j + 1];
    bucket' := bucket.(count := bucket.count - 1);
    if bucket'.head == x {
      bucket' := bucket'.(head := x.hhNext);
    }
    if x.hhPrev != null {
      x.hhPrev.hhNext := x.hhNext;
    }
    if x.hhNext != null {
      x.hhNext.hhPrev := x.hhPrev;
    }
  }

  /** Takes the `j`th item of bucket `b` off its chain. */
  method Unhang(buckets: array<Bucket>, b: nat, x: Item, ghost j: nat, ghost chains: seq<seq<Item>>, ghost items: set<Item>)
    returns (ghost chains': seq<seq<Item>>)
    requires Filled(buckets[..], chains, items) && b < |chains| && j < |chains[b]| && chains[b][j] == x
    modifies buckets, items`hhPrev, items`hhNext
    ensures chains' == chains[b := Without(chains[b], j)] && Filled(buckets[..], chains', items - {x})
  {
    chains' := chains[b := Without(chains[b], j)];
    assert BucketOk(buckets[..][b], chains[b], b, |chains|, items);
    var bucket := UnhangFrom(buckets[b], x, j, chains[b], b, |chains|, items);
    buckets[b] := bucket;
    forall c | 0 <= c < |chains| && c != b
      ensures BucketOk(buckets[..][c], chains'[c], c, |chains|, items - {x})
    {
      assert old(BucketOk(buckets[..][c], chains[c], c, |chains|, items));
      assert forall i, k :: 0 <= i < |chains[c]| && 0 <= k < |chains[b]| ==> chains[c][i] != chains[b][k];
    }
  }

  lemma UnhungIn(items: set<Item>, chains: seq<seq<Item>>, b: nat, j: nat, x: Item, chains': seq<seq<Item>>)
    requires AllIn(items, chains) && b < |chains| && j < |chains[b]| && chains[b][j] == x
    requires BucketOf(x.hashv, |chains|) == b && Distinct(chains[b])
    requires chains' == chains[b := Without(chains[b], j)]
    ensures AllIn(items - {x}, chains') && Total(chains') == Total(chains) - 1
  {
    TotalUpdate(chains, b, Without(chains[b], j));
    forall y | y in items - {x}
      ensures InChain(y, chains')
    {
      assert InChain(y, chains);
      var c := BucketOf(y.hashv, |chains|);
      var i :| 0 <= i < |chains[c]| && chains[c][i] == y;
      if c == b {
        assert Without(chains[b], j)[if i < j then i else i - 1] == y;
      }
    }
  }
}
