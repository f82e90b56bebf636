/** The doubly linked lists of utlist.h: `head.prev` is the last node, the last `next` is null. */
module DList {
  import opened Sequences
  import opened Nodes
  import opened MergeSort

  function First<T>(s: seq<Node<T>>): Node?<T> {
    if s == [] then null else s[0]
  }

  function Last<T>(s: seq<Node<T>>): Node?<T> {
    if s == [] then null else s[|s| - 1]
  }

  ghost predicate Distinct<T(!new)>(s: seq<Node<T>>) {
    forall i, j :: 0 <= i < j < |s| ==> s[i] != s[j]
  }

  ghost predicate Apart<T(!new)>(a: seq<Node<T>>, b: seq<Node<T>>) {
    forall i, j :: 0 <= i < |a| && 0 <= j < |b| ==> a[i] != b[j]
  }

  /** Each node points to the one after it; the last may point anywhere. */
  ghost predicate Forward<T>(s: seq<Node<T>>)
    reads s
  {
    forall i {:trigger s[i].next} :: 0 <= i < |s| - 1 ==> s[i].next == s[i + 1]
  }

  /** Each node points back to the one before it, the first to null. */
  ghost predicate Backward<T>(s: seq<Node<T>>)
    reads s
  {
    (s != [] ==> s[0].prev == null) && forall i {:trigger s[i].prev} :: 0 < i < |s| ==> s[i].prev == s[i - 1]
  }

  ghost predicate Ends<T>(s: seq<Node<T>>)
    reads s
  {
    s != [] ==> s[|s| - 1].next == null
  }

  ghost predicate Among<T(!new)>(s: seq<Node<T>>, all: set<Node<T>>) {
    forall i :: 0 <= i < |s| ==> s[i] in all
  }

  /** The output, what is left of the first run, and the rest of the list, whose first `n`
      nodes are what is left of the second run. */
  datatype Merging<T> = Merging(done: seq<Node<T>>, a: seq<Node<T>>, rest: seq<Node<T>>, n: nat)

  /** What the output will be when both runs have been emitted. */
  function Outcome<T>(cmp: (T, T) -> int, g: Merging<T>): seq<Node<T>>
    requires g.n <= |g.rest|
  {
    g.done + Merge(cmp, g.a, g.rest[..g.n])
  }

  lemma FirstTaken<T>(cmp: (T, T) -> int, g: Merging<T>, g': Merging<T>, e: Node<T>)
    requires g.a != [] && g.a[0] == e && g.n <= |g.rest| && (g.n == 0 || Le(cmp, e, g.rest[0]))
    requires g' == Merging(g.done + [e], g.a[1..], g.rest, g.n)
    ensures Outcome(cmp, g') == Outcome(cmp, g)
  {
    MergeTakesFirst(cmp, g.done, e, g.a, g.rest[..g.n]);
  }

  lemma SecondTaken<T>(cmp: (T, T) -> int, g: Merging<T>, g': Merging<T>, e: Node<T>)
    requires 0 < g.n <= |g.rest| && g.rest[0] == e && (g.a == [] || !Le(cmp, g.a[0], e))
    requires g' == Merging(g.done + [e], g.a, g.rest[1..], g.n - 1)
    ensures Outcome(cmp, g') == Outcome(cmp, g) && g'.rest[g'.n..] == g.rest[g.n..]
  {
    assert g'.rest[..g'.n] == g.rest[..g.n][1..];
    MergeTakesSecond(cmp, g.done, e, g.a, g.rest[..g.n]);
  }

  class List<T(!new)> {
    var head: Node?<T>
    ghost var nodes: seq<Node<T>>

    ghost predicate Valid()
      reads this, nodes
    {
      && Distinct(nodes) && head == First(nodes)
      && Forward(nodes) && Ends(nodes)
      && (nodes != [] ==> nodes[0].prev == Last(nodes))
      && forall i {:trigger nodes[i].prev} :: 0 < i < |nodes| ==> nodes[i].prev == nodes[i - 1]
    }

    constructor ()
      ensures Valid() && nodes == []
    {
      head, nodes := null, [];
    }

    /** DL_APPEND. */
    method Append(add: Node<T>)
      requires Valid() && add !in nodes
      modifies this, nodes, add
      ensures Valid() && nodes == old(nodes) + [add]
    {
      if head != null {
        add.prev := head.prev;
        head.prev.next := add;
        head.prev := add;
        add.next := null;
      } else {
        head := add;
        head.prev := head;
        head.next := null;
      }
      nodes := nodes + [add];
    }

    /** DL_DELETE; `k` is where the node is. */
    method Delete(del: Node<T>, ghost k: nat)
      requires Valid() && k < |nodes| && nodes[k] == del
      modifies this, nodes
      ensures Valid() && nodes == Without(old(nodes), k)
    {
      ghost var all := nodes;
      assert k > 0 ==> del.prev == all[k - 1];
      assert k < |all| - 1 ==> del.next == all[k + 1];
      if del.prev == del {
        head := null;
      } else if del == head {
        del.next.prev := del.prev;
        head := del.next;
      } else {
        del.prev.next := del.next;
        if del.next != null {
          del.next.prev := del.prev;
        } else {
          head.prev := del.prev;
        }
      }
      nodes := Without(all, k);
    }

    // ---- DL_SORT ----

    /** The output so far, still without its closing links. */
    ghost predicate Built(done: seq<Node<T>>, tail: Node?<T>)
      reads this, done
    {
      Distinct(done) && head == First(done) && tail == Last(done) && Forward(done) && Backward(done)
    }

    /** Two runs that are neither in the output nor share a node; `b` goes on to the end of the list. */
    ghost predicate Waiting(done: seq<Node<T>>, a: seq<Node<T>>, b: seq<Node<T>>)
      reads a, b
    {
      && Distinct(a) && Distinct(b) && Apart(done, a) && Apart(done, b) && Apart(a, b)
      && Forward(a) && Forward(b) && Ends(b)
    }

    method Emit(e: Node<T>, tail: Node?<T>, ghost done: seq<Node<T>>)
      requires Built(done, tail) && Apart(done, [e])
      modifies this`head, e`prev, done
      ensures Built(done + [e], e) && e.next == old(e.next)
    {
      if tail != null {
        tail.next := e;
      } else {
        head := e;
      }
      e.prev := tail;
      assert Apart(done, [e]) && [e][0] == e;
    }

    ghost predicate InMerge(g: Merging<T>, all: set<Node<T>>, tail: Node?<T>, p: Node?<T>, q: Node?<T>)
      reads this, g.done, g.a, g.rest
    {
      && Among(g.done, all) && Among(g.a, all) && Among(g.rest, all) && g.n <= |g.rest|
      && Built(g.done, tail) && Waiting(g.done, g.a, g.rest)
      && (g.a != [] ==> p == g.a[0]) && q == First(g.rest)
    }

    /** Emits the first node of the first run. */
    method TakeFirst(p: Node<T>, q: Node?<T>, tail: Node?<T>, ghost all: set<Node<T>>, ghost g: Merging<T>)
      returns (next: Node?<T>, ghost g': Merging<T>)
      requires InMerge(g, all, tail, p, q) && g.a != []
      modifies this`head, all
      ensures InMerge(g', all, p, next, q) && g' == Merging(g.done + [p], g.a[1..], g.rest, g.n)
    {
      next := p.next;
      g' := Merging(g.done + [p], g.a[1..], g.rest, g.n);
      assert Apart(g.done, [p]);
      assert forall i :: 0 <= i < |g'.a| ==> g'.a[i] == g.a[i + 1];
      Emit(p, tail, g.done);
    }

    /** Emits the first node of the second run. */
    method TakeSecond(p: Node?<T>, q: Node<T>, tail: Node?<T>, ghost all: set<Node<T>>, ghost g: Merging<T>)
      returns (next: Node?<T>, ghost g': Merging<T>)
      requires InMerge(g, all, tail, p, q) && g.n > 0
      modifies this`head, all
      ensures InMerge(g', all, q, p, next) && g' == Merging(g.done + [q], g.a, g.rest[1..], g.n - 1)
    {
      next := q.next;
      g' := Merging(g.done + [q], g.a, g.rest[1..], g.n - 1);
      assert Apart(g.done, [q]);
      assert forall i :: 0 <= i < |g'.rest| ==> g'.rest[i] == g.rest[i + 1];
      Emit(q, tail, g.done);
    }

    /** Merges a run of `psize` nodes and the next `width` nodes behind the output. */
    method MergeRuns(cmp: (T, T) -> int, p0: Node?<T>, psize0: nat, q0: Node?<T>, width: nat, tail0: Node?<T>,
                     ghost all: set<Node<T>>, ghost g0: Merging<T>)
      returns (q: Node?<T>, tail: Node?<T>, ghost g: Merging<T>)
      requires InMerge(g0, all, tail0, p0, q0)
      requires psize0 == |g0.a| && g0.n == Min(width, |g0.rest|)
      modifies this`head, all
      ensures g == Merging(Outcome(cmp, g0), [], g0.rest[g0.n..], 0) && InMerge(g, all, tail, null, q)
    {
      var p, psize, qsize := p0, psize0, width;
      q, tail, g := q0, tail0, g0;
      while psize > 0 || (qsize > 0 && q != null)
        invariant InMerge(g, all, tail, p, q) && g.rest[g.n..] == g0.rest[g0.n..]
        invariant psize == |g.a| && g.n == Min(qsize, |g.rest|)
        invariant Outcome(cmp, g) == Outcome(cmp, g0)
        decreases psize + qsize
      {
        p, psize, q, qsize, tail, g := TakeNext(cmp, p, psize, q, qsize, tail, all, g);
      }
    }

    /** Emits the lesser of the two first nodes, the first run's if they rank the same. */
    method TakeNext(cmp: (T, T) -> int, p: Node?<T>, psize: nat, q: Node?<T>, qsize: nat, tail: Node?<T>,
                    ghost all: set<Node<T>>, ghost g: Merging<T>)
      returns (p': Node?<T>, psize': nat, q': Node?<T>, qsize': nat, e: Node<T>, ghost g': Merging<T>)
      requires InMerge(g, all, tail, p, q) && psize == |g.a| && g.n == Min(qsize, |g.rest|)
      requires psize > 0 || (qsize > 0 && q != null)
      modifies this`head, all
      ensures InMerge(g', all, e, p', q') && g'.rest[g'.n..] == g.rest[g.n..]
      ensures psize' == |g'.a| && g'.n == Min(qsize', |g'.rest|) && psize' + qsize' < psize + qsize
      ensures Outcome(cmp, g') == Outcome(cmp, g)
    {
      p', psize', q', qsize' := p, psize, q, qsize;
      if psize == 0 {
        e, qsize' := q, qsize - 1;
        q', g' := TakeSecond(p, e, tail, all, g);
        SecondTaken(cmp, g, g', e);
      } else if qsize == 0 || q == null || cmp(p.item, q.item) <= 0 {
        e, psize' := p, psize - 1;
        p', g' := TakeFirst(e, q, tail, all, g);
        FirstTaken(cmp, g, g', e);
      } else {
        e, qsize' := q, qsize - 1;
        q', g' := TakeSecond(p, e, tail, all, g);
        SecondTaken(cmp, g, g', e);
      }
    }

    /** Steps over at most `width` nodes. */
    method Advance(p: Node<T>, width: nat, ghost rest: seq<Node<T>>) returns (psize: nat, q: Node?<T>)
      requires Forward(rest) && Ends(rest) && p == First(rest) && width > 0
      ensures psize == Min(width, |rest|) && q == First(rest[psize..])
    {
      psize, q := 0, p;
      for i := 0 to width
        invariant psize == i < |rest| && q == rest[i]
      {
        psize := psize + 1;
        q := q.next;
        assert i < |rest| - 1 ==> q == rest[i + 1];
        if q == null {
          break;
        }
      }
    }

    /** Splits the first run off the rest of the list. */
    ghost method SplitRun(all: set<Node<T>>, tail: Node?<T>, p: Node<T>, psize: nat, q: Node?<T>, width: nat, g: Merging<T>)
      returns (g': Merging<T>)
      requires InMerge(g, all, tail, null, p) && g.a == []
      requires psize == Min(width, |g.rest|) && q == First(g.rest[psize..]) && width > 0
      ensures g' == Merging(g.done, g.rest[..psize], g.rest[psize..], Min(width, |g.rest| - psize))
      ensures InMerge(g', all, tail, p, q)
    {
      g' := Merging(g.done, g.rest[..psize], g.rest[psize..], Min(width, |g.rest| - psize));
    }

    /** Merges the first two runs of what is left of the list. */
    method MergePair(cmp: (T, T) -> int, p: Node<T>, width: nat, tail: Node?<T>, ghost all: set<Node<T>>, ghost g: Merging<T>)
      returns (p': Node?<T>, tail': Node?<T>, ghost g': Merging<T>)
      requires InMerge(g, all, tail, null, p) && g.a == [] && g.n == 0 && width > 0
      modifies this`head, all
      ensures InMerge(g', all, tail', null, p') && g'.a == [] && g'.n == 0 && |g'.rest| < |g.rest|
      ensures g'.done + Pass(cmp, g'.rest, width) == g.done + Pass(cmp, g.rest, width)
      ensures Merges(g.rest, width) == 1 + Merges(g'.rest, width)
    {
      var psize, q := Advance(p, width, g.rest);
      ghost var split := SplitRun(all, tail, p, psize, q, width, g);
      PassStep(cmp, g, split, width, psize);
      p', tail', g' := MergeRuns(cmp, p, psize, q, width, tail, all, split);
    }

    /** Ties the output up as the list. */
    method Close(tail: Node?<T>, ghost all: set<Node<T>>, ghost g: Merging<T>)
      requires InMerge(g, all, tail, null, null) && g.done != []
      modifies this, all
      ensures Valid() && nodes == g.done
    {
      head.prev := tail;
      tail.next := null;
      nodes := g.done;
    }

    /** One pass: merges neighbouring runs of `width` nodes and counts the merges. */
    method PassOnce(cmp: (T, T) -> int, width: nat, ghost all: set<Node<T>>) returns (merges: nat)
      requires Valid() && width > 0 && nodes != [] && Among(nodes, all)
      modifies this, all
      ensures Valid()
      ensures nodes == Pass(cmp, old(nodes), width) && merges == Merges(old(nodes), width)
    {
      var p, tail: Node?<T> := head, null;
      ghost var g := Merging([], [], nodes, 0);
      head, merges := null, 0;
      while p != null
        invariant InMerge(g, all, tail, null, p) && g.a == [] && g.n == 0
        invariant g.done + Pass(cmp, g.rest, width) == Pass(cmp, old(nodes), width)
        invariant merges + Merges(g.rest, width) == Merges(old(nodes), width)
        decreases |g.rest|
      {
        merges := merges + 1;
        p, tail, g := MergePair(cmp, p, width, tail, all, g);
      }
      assert g.rest == [];
      Close(tail, all, g);
    }

    /** One pass takes runs of `width` to runs of twice that; one merge is the last. */
    method SortPass(cmp: (T, T) -> int, width: nat, ghost all: set<Node<T>>) returns (more: bool)
      requires Valid() && TotalPreorder(cmp) && width > 0 && nodes != [] && Among(nodes, all)
      requires Runs(cmp, nodes, width)
      modifies this, all
      ensures Valid() && Among(nodes, all) && |nodes| == |old(nodes)|
      ensures Stable(cmp, nodes, old(nodes)) && Runs(cmp, nodes, 2 * width)
      ensures more <==> 2 * width < |nodes|
    {
      ghost var was := nodes;
      PassStable(cmp, was, width);
      PassDoublesRuns(cmp, was, width);
      OneMerge(was, width);
      StableAmong(cmp, Pass(cmp, was, width), was, all);
      var merges := PassOnce(cmp, width, all);
      more := merges > 1;
    }

    /** DL_SORT: a stable sort, whatever total preorder `cmp` decides. */
    method Sort(cmp: (T, T) -> int)
      requires Valid() && TotalPreorder(cmp)
      modifies this, nodes
      ensures Valid() && Sorted(cmp, nodes) && Stable(cmp, nodes, old(nodes))
    {
      if head == null {
        return;
      }
      var width, looping := 1, true;
      ghost var all := set x | x in nodes;
      SingleRuns(cmp, nodes);
      while looping
        invariant Valid() && Stable(cmp, nodes, old(nodes)) && |nodes| == |old(nodes)|
        invariant Among(nodes, all)
        invariant width >= 1 && Runs(cmp, nodes, width)
        invariant looping <==> width <= |nodes| && (width == 1 || width < |nodes|)
        decreases looping, |old(nodes)| - width
      {
        ghost var was := nodes;
        looping := SortPass(cmp, width, all);
        StableTransitive(cmp, nodes, was, old(nodes));
        width := width * 2;
      }
      OneRun(cmp, nodes, width);
    }
  }

  lemma StableTransitive<T(!new)>(cmp: (T, T) -> int, s: seq<Node<T>>, t: seq<Node<T>>, u: seq<Node<T>>)
    requires Stable(cmp, s, t) && Stable(cmp, t, u)
    ensures Stable(cmp, s, u)
  {
  }

  lemma StableAmong<T(!new)>(cmp: (T, T) -> int, s: seq<Node<T>>, t: seq<Node<T>>, all: set<Node<T>>)
    requires Stable(cmp, s, t) && Among(t, all)
    ensures Among(s, all)
  {
    forall i | 0 <= i < |s|
      ensures s[i] in all
    {
      assert s[i] in multiset(t);
    }
  }

  lemma PassStep<T>(cmp: (T, T) -> int, g: Merging<T>, split: Merging<T>, width: nat, psize: nat)
    requires width > 0 && g.rest != [] && g.a == [] && psize == Min(width, |g.rest|)
    requires split == Merging(g.done, g.rest[..psize], g.rest[psize..], Min(width, |g.rest| - psize))
    ensures Outcome(cmp, split) + Pass(cmp, split.rest[split.n..], width) == g.done + Pass(cmp, g.rest, width)
    ensures Merges(g.rest, width) == 1 + Merges(split.rest[split.n..], width)
  {
    var end := Min(2 * width, |g.rest|);
    var b, left := g.rest[psize..end], g.rest[end..];
    assert split.rest[..split.n] == b && split.rest[split.n..] == left;
    PassUnfolds(cmp, g.rest, width, split.a, b, left);
    Associate(g.done, Merge(cmp, split.a, b), Pass(cmp, left, width));
  }

  lemma PassUnfolds<T>(cmp: (T, T) -> int, s: seq<Node<T>>, width: nat, a: seq<Node<T>>, b: seq<Node<T>>, left: seq<Node<T>>)
    requires width > 0 && s != [] && a == s[..Min(width, |s|)]
    requires b == s[Min(width, |s|)..Min(2 * width, |s|)] && left == s[Min(2 * width, |s|)..]
    ensures Pass(cmp, s, width) == Merge(cmp, a, b) + Pass(cmp, left, width)
    ensures Merges(s, width) == 1 + Merges(left, width)
  {
  }
}
