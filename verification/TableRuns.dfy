/** Whole runs of a hash table: finding, adding what is absent, deleting what is present. */
module TableRuns {
  import opened Bytes
  import opened Sequences
  import opened Chains
  import opened HashTable

  datatype Op = Put(key: Text) | Drop(key: Text)

  // ---- what a run should leave behind: keys in insertion order ----

  function IndexOf(keys: seq<Text>, key: Text): (k: nat)
    requires key in keys
    ensures k < |keys| && keys[k] == key
  {
    if keys[0] == key then 0 else 1 + IndexOf(keys[1..], key)
  }

  function Applied(keys: seq<Text>, op: Op): seq<Text> {
    match op
    case Put(key) => if key in keys then keys else keys + [key]
    case Drop(key) => if key in keys then Without(keys, IndexOf(keys, key)) else keys
  }

  function KeysAfter(ops: seq<Op>): seq<Text> {
    if ops == [] then [] else Applied(KeysAfter(ops[..|ops| - 1]), ops[|ops| - 1])
  }

  ghost predicate Different(keys: seq<Text>) {
    forall i, j :: 0 <= i < j < |keys| ==> keys[i] != keys[j]
  }

  /** The last operation on `key` put it there. */
  predicate LastPut(ops: seq<Op>, key: Text) {
    if ops == [] then false
    else
      var last := ops[|ops| - 1];
      if last.key == key then last.Put? else LastPut(ops[..|ops| - 1], key)
  }

  /** A key is there, once, exactly when the last operation on it put it there. */
  lemma {:induction false} PresentIffLastPut(ops: seq<Op>, key: Text)
    ensures Different(KeysAfter(ops))
    ensures key in KeysAfter(ops) <==> LastPut(ops, key)
  {
    if ops != [] {
      var before, op := KeysAfter(ops[..|ops| - 1]), ops[|ops| - 1];
      PresentIffLastPut(ops[..|ops| - 1], key);
      if op.Drop? && op.key in before {
        DropOne(before, op.key, key);
      }
    }
  }

  lemma DropOne(keys: seq<Text>, gone: Text, key: Text)
    requires Different(keys) && gone in keys
    ensures Different(Without(keys, IndexOf(keys, gone)))
    ensures key in Without(keys, IndexOf(keys, gone)) <==> key in keys && key != gone
  {
    var k := IndexOf(keys, gone);
    var less := Without(keys, k);
    if key in keys && key != gone {
      var i :| 0 <= i < |keys| && keys[i] == key;
      assert less[if i < k then i else i - 1] == key;
    }
  }

  // ---- what a run does leave behind ----

  ghost predicate Lists(order: seq<Item>, keys: seq<Text>) {
    |order| == |keys| && forall i {:trigger order[i]} {:trigger keys[i]} :: 0 <= i < |keys| ==> order[i].key == keys[i]
  }

  /** After any run of operations the table is sound and lists the keys that it should. */
  method Run(hash: Text -> nat, ops: seq<Op>) returns (t: Table)
    ensures t.Valid() && t.hash == hash
    ensures Lists(t.order, KeysAfter(ops))
  {
    t := new Table(hash);
    for i := 0 to |ops|
      invariant t.Valid() && t.hash == hash && Lists(t.order, KeysAfter(ops[..i]))
      invariant fresh(t) && fresh(t.buckets) && fresh(t.items)
    {
      assert ops[..i + 1][..i] == ops[..i];
      Step(t, ops[i], KeysAfter(ops[..i]));
    }
    assert ops[..|ops|] == ops;
  }

  method Step(t: Table, op: Op, ghost keys: seq<Text>)
    requires t.Valid() && Lists(t.order, keys)
    modifies t, t.buckets, t.items
    ensures t.Valid() && Lists(t.order, Applied(keys, op))
    ensures (t.buckets == old(t.buckets) || fresh(t.buckets)) && fresh(t.items - old(t.items))
  {
    match op
    case Put(key) => PutIfAbsent(t, key, keys);
    case Drop(key) => DropIfPresent(t, key, keys);
  }

  method PutIfAbsent(t: Table, key: Text, ghost keys: seq<Text>)
    requires t.Valid() && Lists(t.order, keys)
    modifies t, t.buckets, t.items
    ensures t.Valid() && Lists(t.order, if key in keys then keys else keys + [key])
    ensures (t.buckets == old(t.buckets) || fresh(t.buckets)) && fresh(t.items - old(t.items))
  {
    var x := t.Find(key);
    KnownIff(t.order, t.items, keys, key);
    if x == null {
      PutAbsent(t, key, keys);
    }
  }

  method PutAbsent(t: Table, key: Text, ghost keys: seq<Text>)
    requires t.Valid() && Lists(t.order, keys) && key !in t.Contents()
    modifies t, t.buckets, t.items
    ensures t.Valid() && Lists(t.order, keys + [key])
    ensures (t.buckets == old(t.buckets) || fresh(t.buckets)) && fresh(t.items - old(t.items))
  {
    var item := new Item(key, t.hash(key));
    ListsAdd(t.order, keys, item);
    t.Add(item);
  }

  method DropIfPresent(t: Table, key: Text, ghost keys: seq<Text>)
    requires t.Valid() && Lists(t.order, keys)
    modifies t, t.buckets, t.items
    ensures t.Valid() && Lists(t.order, if key in keys then Without(keys, IndexOf(keys, key)) else keys)
    ensures t.buckets == old(t.buckets) && t.items <= old(t.items)
  {
    var x := t.Find(key);
    KnownIff(t.order, t.items, keys, key);
    if x != null {
      ListsDrop(t.order, keys, IndexOf(keys, key));
      t.Delete(x, IndexOf(keys, key));
    }
  }

  lemma ListsAdd(order: seq<Item>, keys: seq<Text>, item: Item)
    requires Lists(order, keys)
    ensures Lists(order + [item], keys + [item.key])
  {
  }

  lemma ListsDrop(order: seq<Item>, keys: seq<Text>, k: nat)
    requires Lists(order, keys) && k < |keys|
    ensures Lists(Without(order, k), Without(keys, k))
  {
  }

  lemma KnownIff(order: seq<Item>, items: set<Item>, keys: seq<Text>, key: Text)
    requires Matches(order, items) && Lists(order, keys)
    ensures key in MapOf(items) <==> key in keys
    ensures key in keys ==> MapOf(items)[key] == order[IndexOf(keys, key)]
  {
    if key in keys {
      assert order[IndexOf(keys, key)] in items;
    }
    if key in MapOf(items) {
      assert MapOf(items)[key] in order;
    }
  }
}
