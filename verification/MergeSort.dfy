/** What the bottom-up merge sort of utlist.h does to the order of a list's nodes. */
module MergeSort {
  import opened Nodes

  // ---- comparing ----

  ghost predicate TotalPreorder<T(!new)>(cmp: (T, T) -> int) {
    && (forall x, y :: cmp(x, y) <= 0 || cmp(y, x) <= 0)
    && (forall x, y, z :: cmp(x, y) <= 0 && cmp(y, z) <= 0 ==> cmp(x, z) <= 0)
  }

  predicate Le<T>(cmp: (T, T) -> int, a: Node<T>, b: Node<T>) {
    cmp(a.item, b.item) <= 0
  }

  ghost predicate Sorted<T>(cmp: (T, T) -> int, s: seq<Node<T>>) {
    forall i, j :: 0 <= i < j < |s| ==> Le(cmp, s[i], s[j])
  }

  function Peer<T>(cmp: (T, T) -> int, e: Node<T>, x: T): seq<Node<T>> {
    if cmp(e.item, x) <= 0 && cmp(x, e.item) <= 0 then [e] else []
  }

  /** The nodes that rank the same as `x`, in order. */
  function Peers<T>(cmp: (T, T) -> int, s: seq<Node<T>>, x: T): seq<Node<T>> {
    if s == [] then []
    else Peer(cmp, s[0], x) + Peers(cmp, s[1..], x)
  }

  /** `s` is a stable rearrangement of `t`. */
  ghost predicate Stable<T(!new)>(cmp: (T, T) -> int, s: seq<Node<T>>, t: seq<Node<T>>) {
    multiset(s) == multiset(t) && forall x :: Peers(cmp, s, x) == Peers(cmp, t, x)
  }

  // ---- merging two runs ----

  function Merge<T>(cmp: (T, T) -> int, a: seq<Node<T>>, b: seq<Node<T>>): (r: seq<Node<T>>)
    ensures |r| == |a| + |b|
  {
    if a == [] then b
    else if b == [] then a
    else if Le(cmp, a[0], b[0]) then [a[0]] + Merge(cmp, a[1..], b)
    else [b[0]] + Merge(cmp, a, b[1..])
  }

  lemma MergeTakesFirst<T>(cmp: (T, T) -> int, done: seq<Node<T>>, e: Node<T>, a: seq<Node<T>>, b: seq<Node<T>>)
    requires a != [] && a[0] == e && (b == [] || Le(cmp, e, b[0]))
    ensures done + Merge(cmp, a, b) == (done + [e]) + Merge(cmp, a[1..], b)
  {
  }

  lemma MergeTakesSecond<T>(cmp: (T, T) -> int, done: seq<Node<T>>, e: Node<T>, a: seq<Node<T>>, b: seq<Node<T>>)
    requires b != [] && b[0] == e && (a == [] || !Le(cmp, a[0], e))
    ensures done + Merge(cmp, a, b) == (done + [e]) + Merge(cmp, a, b[1..])
  {
  }

  lemma HeadAndTail<E>(s: seq<E>)
    requires s != []
    ensures multiset(s) == multiset{s[0]} + multiset(s[1..])
  {
    assert s == [s[0]] + s[1..];
  }

  lemma {:induction false} MergeKeeps<T>(cmp: (T, T) -> int, a: seq<Node<T>>, b: seq<Node<T>>)
    ensures multiset(Merge(cmp, a, b)) == multiset(a) + multiset(b)
  {
    if a != [] && b != [] {
      if Le(cmp, a[0], b[0]) {
        MergeKeeps(cmp, a[1..], b);
        HeadAndTail(a);
        HeadAndTail(Merge(cmp, a, b));
        assert Merge(cmp, a, b)[1..] == Merge(cmp, a[1..], b);
      } else {
        MergeKeeps(cmp, a, b[1..]);
        HeadAndTail(b);
        HeadAndTail(Merge(cmp, a, b));
        assert Merge(cmp, a, b)[1..] == Merge(cmp, a, b[1..]);
      }
    }
  }

  lemma {:induction false} MergeSorted<T(!new)>(cmp: (T, T) -> int, a: seq<Node<T>>, b: seq<Node<T>>)
    requires TotalPreorder(cmp) && Sorted(cmp, a) && Sorted(cmp, b)
    ensures Sorted(cmp, Merge(cmp, a, b))
  {
    if a != [] && b != [] {
      if Le(cmp, a[0], b[0]) {
        MergeSorted(cmp, a[1..], b);
        MergeKeeps(cmp, a[1..], b);
        HeadFirst(cmp, a[0], a[1..], b, Merge(cmp, a[1..], b));
      } else {
        MergeSorted(cmp, a, b[1..]);
        MergeKeeps(cmp, a, b[1..]);
        HeadFirst(cmp, b[0], a, b[1..], Merge(cmp, a, b[1..]));
      }
    }
  }

  lemma HeadFirst<T(!new)>(cmp: (T, T) -> int, x: Node<T>, a: seq<Node<T>>, b: seq<Node<T>>, m: seq<Node<T>>)
    requires TotalPreorder(cmp) && multiset(m) == multiset(a) + multiset(b) && Sorted(cmp, m)
    requires a != [] ==> Le(cmp, x, a[0]) && Sorted(cmp, a)
    requires b != [] ==> Le(cmp, x, b[0]) && Sorted(cmp, b)
    ensures Sorted(cmp, [x] + m)
  {
    forall i | 0 <= i < |m|
      ensures Le(cmp, x, m[i])
    {
      assert m[i] in multiset(m);
      if m[i] in a {
        var k :| 0 <= k < |a| && a[k] == m[i];
        assert k > 0 ==> Le(cmp, a[0], a[k]);
      } else {
        var k :| 0 <= k < |b| && b[k] == m[i];
        assert k > 0 ==> Le(cmp, b[0], b[k]);
      }
    }
  }

  lemma {:induction false} PeersSplit<T>(cmp: (T, T) -> int, a: seq<Node<T>>, b: seq<Node<T>>, x: T)
    ensures Peers(cmp, a + b, x) == Peers(cmp, a, x) + Peers(cmp, b, x)
  {
    if a == [] {
      assert a + b == b;
    } else {
      assert (a + b)[1..] == a[1..] + b;
      PeersSplit(cmp, a[1..], b, x);
    }
  }

  lemma {:induction false} NoPeers<T(!new)>(cmp: (T, T) -> int, a: seq<Node<T>>, x: T)
    requires TotalPreorder(cmp) && forall i :: 0 <= i < |a| ==> cmp(a[i].item, x) > 0
    ensures Peers(cmp, a, x) == []
  {
    if a != [] {
      NoPeers(cmp, a[1..], x);
    }
  }

  lemma PeersOfPair<T>(cmp: (T, T) -> int, e: Node<T>, s: seq<Node<T>>, x: T)
    ensures Peers(cmp, [e] + s, x) == Peer(cmp, e, x) + Peers(cmp, s, x)
  {
    assert ([e] + s)[1..] == s;
  }

  /** Among nodes of equal rank, those of the first run come first, in their order. */
  lemma {:induction false} MergeStable<T(!new)>(cmp: (T, T) -> int, a: seq<Node<T>>, b: seq<Node<T>>, x: T)
    requires TotalPreorder(cmp) && Sorted(cmp, a)
    ensures Peers(cmp, Merge(cmp, a, b), x) == Peers(cmp, a, x) + Peers(cmp, b, x)
  {
    if a != [] && b != [] {
      if Le(cmp, a[0], b[0]) {
        MergeStable(cmp, a[1..], b, x);
        StableFirst(cmp, a, b, Merge(cmp, a[1..], b), x);
      } else {
        MergeStable(cmp, a, b[1..], x);
        StableSecond(cmp, a, b, Merge(cmp, a, b[1..]), x);
      }
    }
  }

  lemma StableFirst<T>(cmp: (T, T) -> int, a: seq<Node<T>>, b: seq<Node<T>>, m: seq<Node<T>>, x: T)
    requires a != [] && Peers(cmp, m, x) == Peers(cmp, a[1..], x) + Peers(cmp, b, x)
    ensures Peers(cmp, [a[0]] + m, x) == Peers(cmp, a, x) + Peers(cmp, b, x)
  {
    PeersOfPair(cmp, a[0], m, x);
  }

  lemma StableSecond<T(!new)>(cmp: (T, T) -> int, a: seq<Node<T>>, b: seq<Node<T>>, m: seq<Node<T>>, x: T)
    requires TotalPreorder(cmp) && Sorted(cmp, a) && a != [] && b != [] && !Le(cmp, a[0], b[0])
    requires Peers(cmp, m, x) == Peers(cmp, a, x) + Peers(cmp, b[1..], x)
    ensures Peers(cmp, [b[0]] + m, x) == Peers(cmp, a, x) + Peers(cmp, b, x)
  {
    PeersOfPair(cmp, b[0], m, x);
    if Peer(cmp, b[0], x) != [] {
      LaterNoPeers(cmp, a, b[0], x);
    }
    SlipPast(Peer(cmp, b[0], x), Peers(cmp, a, x), Peers(cmp, b[1..], x));
  }

  lemma SlipPast<E>(e: seq<E>, a: seq<E>, b: seq<E>)
    requires e == [] || a == []
    ensures e + (a + b) == a + (e + b)
  {
  }

  lemma LaterNoPeers<T(!new)>(cmp: (T, T) -> int, a: seq<Node<T>>, e: Node<T>, x: T)
    requires TotalPreorder(cmp) && Sorted(cmp, a) && a != [] && !Le(cmp, a[0], e)
    requires cmp(e.item, x) <= 0 && cmp(x, e.item) <= 0
    ensures Peers(cmp, a, x) == []
  {
    forall i | 0 <= i < |a|
      ensures cmp(a[i].item, x) > 0
    {
      assert i > 0 ==> Le(cmp, a[0], a[i]);
    }
    NoPeers(cmp, a, x);
  }

  // ---- one pass over the list ----

  function Min(a: nat, b: nat): nat {
    if a < b then a else b
  }

  /** Merges neighbouring runs of `width` nodes, two by two. */
  function Pass<T>(cmp: (T, T) -> int, s: seq<Node<T>>, width: nat): (r: seq<Node<T>>)
    requires width > 0
    ensures |r| == |s|
    decreases |s|
  {
    if s == [] then []
    else
      var mid, end := Min(width, |s|), Min(2 * width, |s|);
      Merge(cmp, s[..mid], s[mid..end]) + Pass(cmp, s[end..], width)
  }

  /** How many merges that takes. */
  function Merges<T>(s: seq<Node<T>>, width: nat): nat
    requires width > 0
    decreases |s|
  {
    if s == [] then 0 else 1 + Merges(s[Min(2 * width, |s|)..], width)
  }

  lemma OneMerge<T>(s: seq<Node<T>>, width: nat)
    requires width > 0
    ensures Merges(s, width) <= 1 <==> |s| <= 2 * width
  {
  }

  /** Every run of `width` nodes is sorted. */
  ghost predicate Runs<T>(cmp: (T, T) -> int, s: seq<Node<T>>, width: nat)
    requires width > 0
    decreases |s|
  {
    s == [] || (Sorted(cmp, s[..Min(width, |s|)]) && Runs(cmp, s[Min(width, |s|)..], width))
  }

  lemma {:induction false} SingleRuns<T>(cmp: (T, T) -> int, s: seq<Node<T>>)
    ensures Runs(cmp, s, 1)
    decreases |s|
  {
    if s != [] {
      SingleRuns(cmp, s[1..]);
    }
  }

  /** The whole list is one run when it is no longer than the width. */
  lemma OneRun<T>(cmp: (T, T) -> int, s: seq<Node<T>>, width: nat)
    requires width > 0 && |s| <= width && Runs(cmp, s, width)
    ensures Sorted(cmp, s)
  {
    assert s[..|s|] == s;
  }

  lemma {:induction false} PassDoublesRuns<T(!new)>(cmp: (T, T) -> int, s: seq<Node<T>>, width: nat)
    requires TotalPreorder(cmp) && width > 0 && Runs(cmp, s, width)
    ensures Runs(cmp, Pass(cmp, s, width), 2 * width)
    decreases |s|
  {
    if s != [] {
      var mid, end := Min(width, |s|), Min(2 * width, |s|);
      assert s[mid..][..Min(width, |s| - mid)] == s[mid..end];
      assert s[mid..][Min(width, |s| - mid)..] == s[end..];
      NextRun(cmp, s[mid..], width);
      var head, tail := Merge(cmp, s[..mid], s[mid..end]), Pass(cmp, s[end..], width);
      MergeSorted(cmp, s[..mid], s[mid..end]);
      PassDoublesRuns(cmp, s[end..], width);
      RunInFront(cmp, head, tail, 2 * width);
    }
  }

  lemma RunInFront<T>(cmp: (T, T) -> int, head: seq<Node<T>>, tail: seq<Node<T>>, width: nat)
    requires width > 0 && Sorted(cmp, head) && Runs(cmp, tail, width)
    requires |head| == Min(width, |head + tail|)
    ensures Runs(cmp, head + tail, width)
  {
    assert (head + tail)[..|head|] == head && (head + tail)[|head|..] == tail;
  }

  lemma NextRun<T>(cmp: (T, T) -> int, s: seq<Node<T>>, width: nat)
    requires width > 0 && Runs(cmp, s, width)
    ensures Sorted(cmp, s[..Min(width, |s|)]) && Runs(cmp, s[Min(width, |s|)..], width)
  {
  }

  lemma {:induction false} PassStable<T(!new)>(cmp: (T, T) -> int, s: seq<Node<T>>, width: nat)
    requires TotalPreorder(cmp) && width > 0 && Runs(cmp, s, width)
    ensures Stable(cmp, Pass(cmp, s, width), s)
    decreases |s|
  {
    if s != [] {
      var mid, end := Min(width, |s|), Min(2 * width, |s|);
      var a, b, rest := s[..mid], s[mid..end], s[end..];
      assert s == a + b + rest;
      assert s[mid..][Min(width, |s| - mid)..] == rest;
      NextRun(cmp, s[mid..], width);
      PassStable(cmp, rest, width);
      MergeKeeps(cmp, a, b);
      forall x
        ensures Peers(cmp, Pass(cmp, s, width), x) == Peers(cmp, s, x)
      {
        MergeStable(cmp, a, b, x);
        PeersSplit(cmp, Merge(cmp, a, b), Pass(cmp, rest, width), x);
        PeersSplit(cmp, a + b, rest, x);
        PeersSplit(cmp, a, b, x);
      }
    }
  }

  /** Sorted and stable leave no choice: there is only one such arrangement. */
  lemma {:induction false} OnlyOne<T(!new)>(cmp: (T, T) -> int, s: seq<Node<T>>, t: seq<Node<T>>)
    requires TotalPreorder(cmp) && Sorted(cmp, s) && Sorted(cmp, t) && Stable(cmp, s, t)
    ensures s == t
  {
    assert |multiset(s)| == |multiset(t)|;
    if s != [] {
      SameHead(cmp, s, t);
      StableTails(cmp, s, t);
      OnlyOne(cmp, s[1..], t[1..]);
      assert s == [s[0]] + s[1..] && t == [t[0]] + t[1..];
    }
  }

  lemma StableTails<T(!new)>(cmp: (T, T) -> int, s: seq<Node<T>>, t: seq<Node<T>>)
    requires s != [] && t != [] && s[0] == t[0] && Stable(cmp, s, t)
    ensures Stable(cmp, s[1..], t[1..])
  {
    HeadAndTail(s);
    HeadAndTail(t);
    assert multiset(s[1..]) == multiset(s) - multiset{s[0]} == multiset(t[1..]);
    forall x
      ensures Peers(cmp, s[1..], x) == Peers(cmp, t[1..], x)
    {
      SameTails(cmp, s, t, x);
    }
  }

  lemma SameTails<T>(cmp: (T, T) -> int, s: seq<Node<T>>, t: seq<Node<T>>, x: T)
    requires s != [] && t != [] && s[0] == t[0] && Peers(cmp, s, x) == Peers(cmp, t, x)
    ensures Peers(cmp, s[1..], x) == Peers(cmp, t[1..], x)
  {
    var head := Peer(cmp, s[0], x);
    assert Peers(cmp, s[1..], x) == (head + Peers(cmp, s[1..], x))[|head|..];
    assert Peers(cmp, t[1..], x) == (head + Peers(cmp, t[1..], x))[|head|..];
  }

  lemma SameHead<T(!new)>(cmp: (T, T) -> int, s: seq<Node<T>>, t: seq<Node<T>>)
    requires TotalPreorder(cmp) && Sorted(cmp, s) && Sorted(cmp, t) && Stable(cmp, s, t)
    requires s != [] && t != []
    ensures s[0] == t[0]
  {
    assert s[0] in multiset(t) && t[0] in multiset(s);
    var i :| 0 <= i < |t| && t[i] == s[0];
    var j :| 0 <= j < |s| && s[j] == t[0];
    assert Le(cmp, t[0], t[0]) && Le(cmp, s[0], s[0]);
    assert Le(cmp, t[0], s[0]) && Le(cmp, s[0], t[0]);
    var x := s[0].item;
    assert Peers(cmp, s, x)[0] == s[0] && Peers(cmp, t, x)[0] == t[0];
  }
}
