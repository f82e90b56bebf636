/** The chunked bump allocator of frf_malloc.c. */
module Arena {
  import opened Bytes

  const ALIGN: nat := 16   // twice the size of a pointer

  function RoundUp(n: nat): (r: nat)
    ensures r % ALIGN == 0 && n <= r < n + ALIGN
  {
    (n + (ALIGN - 1)) / ALIGN * ALIGN
  }

  /** `top` is buf_ptr - buf. It passes `size` when a request did not fit. */
  datatype Chunk = Chunk(size: nat, top: nat)

  datatype Context = Context(chunks: seq<Chunk>, used: nat)

  /** `size` bytes handed out at offset `at` of chunk number `chunk`. */
  datatype Block = Block(chunk: nat, at: nat, size: nat)

  function Fresh(size: nat): Context {
    Context([Chunk(if size < 2 * ALIGN then 2 * ALIGN else size, 0)], 0)
  }

  function NewSize(tail: nat, need: nat): nat {
    if 2 * tail < need then 2 * need else 2 * tail
  }

  function Grow(c: Context, size: nat): (r: Context)
    requires c.chunks != []
    ensures r.chunks != []
  {
    var need, last := RoundUp(size), |c.chunks| - 1;
    var tail := c.chunks[last];
    var bumped := c.chunks[last := tail.(top := tail.top + need)];
    if tail.top + need > tail.size
    then Context(bumped + [Chunk(NewSize(tail.size, need), need)], c.used + need)
    else Context(bumped, c.used + need)
  }

  /** The block that the request that made `r` returned. */
  function Given(r: Context, size: nat): Block
    requires r.chunks != [] && RoundUp(size) <= r.chunks[|r.chunks| - 1].top
  {
    var last := |r.chunks| - 1;
    Block(last, r.chunks[last].top - RoundUp(size), RoundUp(size))
  }

  function Emptied(c: Context): (r: Context)
    requires c.chunks != []
    ensures r.chunks != []
  {
    Context([Chunk(c.chunks[|c.chunks| - 1].size, 0)], 0)
  }

  // ---- any sequence of requests ----

  predicate Empty(c: Context) {
    |c.chunks| == 1 && c.chunks[0].top == 0 && c.used == 0
  }

  function Run(c: Context, sizes: seq<nat>): (r: Context)
    requires c.chunks != []
    ensures r.chunks != []
  {
    if sizes == [] then c else Grow(Run(c, sizes[..|sizes| - 1]), sizes[|sizes| - 1])
  }

  function Blocks(c: Context, sizes: seq<nat>): (bs: seq<Block>)
    requires c.chunks != []
    ensures |bs| == |sizes|
  {
    if sizes == [] then []
    else
      var last := sizes[|sizes| - 1];
      Blocks(c, sizes[..|sizes| - 1]) + [Given(Run(c, sizes), last)]
  }

  predicate Disjoint(a: Block, b: Block) {
    a.chunk != b.chunk || a.at + a.size <= b.at || b.at + b.size <= a.at
  }

  predicate Inside(c: Context, b: Block) {
    b.chunk < |c.chunks| && b.at % ALIGN == 0 && b.at + b.size <= c.chunks[b.chunk].size
  }

  /** Blocks lie in their chunks, those of the tail chunk below its top, and none overlap. */
  ghost predicate Safe(c: Context, live: seq<Block>) {
    && c.chunks != []
    && var last := |c.chunks| - 1;
       && c.chunks[last].top % ALIGN == 0
       && c.chunks[last].top <= c.chunks[last].size
       && (forall i :: 0 <= i < |live| ==> Inside(c, live[i]) && (live[i].chunk == last ==> live[i].at + live[i].size <= c.chunks[last].top))
       && (forall i, j :: 0 <= i < j < |live| ==> Disjoint(live[i], live[j]))
  }

  lemma GrowIsSafe(c: Context, live: seq<Block>, size: nat)
    requires Safe(c, live)
    ensures var r := Grow(c, size);
            RoundUp(size) <= r.chunks[|r.chunks| - 1].top && Safe(r, live + [Given(r, size)])
  {
  }

  /** Between resets, whatever is asked for: every block is large enough, aligned, inside
      its chunk, and overlaps no other. */
  lemma {:induction false} BlocksAreSafe(c: Context, sizes: seq<nat>)
    requires Empty(c)
    ensures Safe(Run(c, sizes), Blocks(c, sizes))
    ensures forall i :: 0 <= i < |sizes| ==> Blocks(c, sizes)[i].size >= sizes[i]
  {
    if sizes != [] {
      BlocksAreSafe(c, sizes[..|sizes| - 1]);
      GrowIsSafe(Run(c, sizes[..|sizes| - 1]), Blocks(c, sizes[..|sizes| - 1]), sizes[|sizes| - 1]);
    }
  }

  lemma LiveDisjoint(c: Context, live: seq<Block>, a: Block, b: Block)
    requires Safe(c, live) && a in live && b in live && a != b
    ensures Disjoint(a, b)
  {
    var i :| 0 <= i < |live| && live[i] == a;
    var j :| 0 <= j < |live| && live[j] == b;
    assert Disjoint(live[i], live[j]) || Disjoint(live[j], live[i]);
  }

  // ---- how much memory the chunks take ----

  function Total(chunks: seq<Chunk>): nat {
    if chunks == [] then 0 else Total(chunks[..|chunks| - 1]) + chunks[|chunks| - 1].size
  }

  function Tail(c: Context): Chunk
    requires c.chunks != []
  {
    c.chunks[|c.chunks| - 1]
  }

  lemma TotalIgnoresTop(chunks: seq<Chunk>, top: nat)
    requires chunks != []
    ensures var last := |chunks| - 1;
            Total(chunks[last := chunks[last].(top := top)]) == Total(chunks)
  {
    var last := |chunks| - 1;
    assert chunks[last := chunks[last].(top := top)][..last] == chunks[..last];
  }

  /** One request either stays in the tail chunk or starts one at least twice as large. */
  lemma GrowStep(c: Context, size: nat)
    requires c.chunks != []
    ensures var r, need := Grow(c, size), RoundUp(size);
            && r.used == c.used + need
            && if Tail(c).top + need <= Tail(c).size then
                 && |r.chunks| == |c.chunks| && Total(r.chunks) == Total(c.chunks)
                 && Tail(r).size == Tail(c).size && Tail(r).top == Tail(c).top + need
               else
                 && |r.chunks| == |c.chunks| + 1
                 && Total(r.chunks) == Total(c.chunks) + Tail(r).size
                 && (Tail(r).size == 2 * Tail(c).size || (Tail(r).size == 2 * need && 2 * Tail(c).size < need))
                 && Tail(r).size >= need && Tail(r).top == need
  {
    var need, last := RoundUp(size), |c.chunks| - 1;
    TotalIgnoresTop(c.chunks, c.chunks[last].top + need);
    var bumped := c.chunks[last := c.chunks[last].(top := c.chunks[last].top + need)];
    if Tail(c).top + need > Tail(c).size {
      var added := Chunk(NewSize(Tail(c).size, need), need);
      assert (bumped + [added])[..|bumped|] == bumped;
    }
  }

  /** Chunk bytes stay within the head chunk or four times the bytes handed out. */
  lemma {:induction false} Footprint(c: Context, sizes: seq<nat>)
    requires Empty(c)
    ensures var r := Run(c, sizes);
            && Tail(r).top <= r.used
            && Tail(r).top <= Tail(r).size
            && Total(r.chunks) <= 2 * Tail(r).size
            && r.used <= Total(r.chunks) - Tail(r).size + Tail(r).top
            && (if |r.chunks| == 1 then Total(r.chunks) == c.chunks[0].size else Total(r.chunks) <= 4 * r.used)
            && (|r.chunks| == 1 ==> Tail(r).size == c.chunks[0].size)
            && (|r.chunks| > 1 ==> Tail(r).size >= 2 * c.chunks[0].size)
  {
    if sizes == [] {
      assert c.chunks[..0] == [];
      assert Total(c.chunks[..0]) == 0;
    } else {
      var before := Run(c, sizes[..|sizes| - 1]);
      Footprint(c, sizes[..|sizes| - 1]);
      GrowStep(before, sizes[|sizes| - 1]);
    }
  }

  // ---- replaying the same requests after every reset ----

  function Need(sizes: seq<nat>): nat {
    if sizes == [] then 0 else Need(sizes[..|sizes| - 1]) + RoundUp(sizes[|sizes| - 1])
  }

  lemma {:induction false} ChunksOfReplay(c: Context, sizes: seq<nat>)
    requires Empty(c)
    ensures var r := Run(c, sizes);
            && r.used == Need(sizes)
            && (Need(sizes) <= c.chunks[0].size ==> |r.chunks| == 1 && Tail(r).top == Need(sizes))
            && (Need(sizes) <= 2 * c.chunks[0].size ==> |r.chunks| <= 2)
  {
    if sizes != [] {
      var before := Run(c, sizes[..|sizes| - 1]);
      ChunksOfReplay(c, sizes[..|sizes| - 1]);
      Footprint(c, sizes[..|sizes| - 1]);
      GrowStep(before, sizes[|sizes| - 1]);
    }
  }

  /** The context after `k` rounds of the same requests, each ended by a reset. */
  function Replayed(c: Context, sizes: seq<nat>, k: nat): (r: Context)
    requires c.chunks != []
    ensures r.chunks != []
    decreases k
  {
    if k == 0 then c else Emptied(Run(Replayed(c, sizes, k - 1), sizes))
  }

  lemma {:induction false} ReplayedFits(c: Context, sizes: seq<nat>, k: nat)
    requires Empty(c)
    ensures var r := Replayed(c, sizes, k);
            && Empty(r)
            && (k >= 1 ==> Need(sizes) <= 2 * r.chunks[0].size)
            && (k >= 2 ==> Need(sizes) <= r.chunks[0].size)
  {
    if k > 0 {
      var before := Replayed(c, sizes, k - 1);
      ReplayedFits(c, sizes, k - 1);
      Footprint(before, sizes);
      ChunksOfReplay(before, sizes);
    }
  }

  /** After the first round the second adds at most one chunk, and no later round adds any. */
  lemma SteadyState(c: Context, sizes: seq<nat>, k: nat)
    requires Empty(c)
    ensures k >= 1 ==> |Run(Replayed(c, sizes, k), sizes).chunks| <= 2
    ensures k >= 2 ==> |Run(Replayed(c, sizes, k), sizes).chunks| == 1
  {
    ReplayedFits(c, sizes, k);
    ChunksOfReplay(Replayed(c, sizes, k), sizes);
  }

  // ---- the allocator itself ----

  method WriteAt(buf: array<byte>, at: nat, s: Text)
    requires at + |s| <= buf.Length
    modifies buf
    ensures forall k :: 0 <= k < buf.Length ==> buf[k] == if at <= k < at + |s| then s[k - at] else old(buf[k])
  {
    for i := 0 to |s|
      invariant forall k :: 0 <= k < buf.Length ==> buf[k] == if at <= k < at + i then s[k - at] else old(buf[k])
    {
      buf[at + i] := s[i];
    }
  }

  class Allocator {
    var chunks: seq<Chunk>
    var bufs: seq<array<byte>>
    var used: nat
    ghost var live: seq<Block>             // handed out since the last reset
    ghost var repr: set<array<byte>>       // every buffer so far

    ghost function Abs(): Context
      reads this
    {
      Context(chunks, used)
    }

    ghost predicate Backed()
      reads this
    {
      && |bufs| == |chunks| > 0
      && (forall i :: 0 <= i < |bufs| ==> bufs[i] in repr && bufs[i].Length == chunks[i].size)
      && (forall i, j :: 0 <= i < j < |bufs| ==> bufs[i] != bufs[j])
    }

    ghost predicate Valid()
      reads this
    {
      Backed() && Safe(Abs(), live)
    }

    constructor (size: nat)
      ensures Valid() && Abs() == Fresh(size) && live == []
      ensures |chunks| == 1 && chunks[0].top == 0 && chunks[0].size == (if size <= 32 then 32 else size)
      ensures fresh(repr)
    {
      var n := if size < 2 * ALIGN then 2 * ALIGN else size;
      chunks := [Chunk(n, 0)];
      var buf := new byte[n];
      bufs, repr := [buf], {buf};
      used := 0;
      live := [];
    }

    method Malloc(size: nat) returns (b: Block)
      requires Valid()
      modifies this
      ensures Valid()
      ensures Abs() == Grow(old(Abs()), size) && b == Given(Abs(), size)
      ensures live == old(live) + [b]
      ensures |bufs| >= |old(bufs)| && bufs[..|old(bufs)|] == old(bufs)
      ensures fresh(repr - old(repr))
    {
      ghost var c, before, after := Abs(), live, Grow(Abs(), size);
      GrowIsSafe(c, live, size);
      var need := RoundUp(size);
      var last := |chunks| - 1;
      var at := chunks[last].top;
      chunks := chunks[last := chunks[last].(top := at + need)];
      used := used + need;
      if chunks[last].top > chunks[last].size {
        AppendChunk(chunks[last].size, need);
        last := last + 1;
        at := 0;
      }
      b := Block(last, at, need);
      live := live + [b];
      assert Abs() == after && b == Given(after, size);
    }

    method AppendChunk(tail: nat, need: nat)
      requires Backed()
      modifies this`chunks, this`bufs, this`repr
      ensures Backed()
      ensures chunks == old(chunks) + [Chunk(NewSize(tail, need), need)]
      ensures |bufs| == |old(bufs)| + 1 && bufs[..|old(bufs)|] == old(bufs)
      ensures fresh(repr - old(repr))
    {
      var newSize := tail * 2;
      if newSize < need {
        newSize := need * 2;
      }
      var buf := new byte[newSize];
      bufs, repr := bufs + [buf], repr + {buf};
      chunks := chunks + [Chunk(newSize, need)];
    }

    /** Everything is given back but the tail chunk, which becomes the only one. */
    method Reset()
      requires Valid()
      modifies this
      ensures Valid() && Abs() == Emptied(old(Abs())) && live == []
      ensures bufs == [old(bufs)[|old(bufs)| - 1]] && repr == old(repr)
    {
      var last := |chunks| - 1;
      bufs := [bufs[last]];
      chunks := [chunks[last].(top := 0)];
      used := 0;
      live := [];
    }

    /** The first `len` bytes of a block. */
    function Load(b: Block, len: nat): Text
      requires b.chunk < |bufs| && b.at + len <= bufs[b.chunk].Length
      reads this, if b.chunk < |bufs| then {bufs[b.chunk]} else {}
    {
      bufs[b.chunk][b.at..b.at + len]
    }

    /** Writes into a block that is in use; no other block in use changes. */
    method Store(b: Block, s: Text)
      requires Valid() && b in live && |s| <= b.size
      modifies bufs[b.chunk]
      ensures Load(b, |s|) == s
      ensures forall o, len: nat :: o in live && o != b && len <= o.size ==> Load(o, len) == old(Load(o, len))
    {
      WriteAt(bufs[b.chunk], b.at, s);
      forall o, len: nat | o in live && o != b && len <= o.size
        ensures Load(o, len) == old(Load(o, len))
      {
        LiveDisjoint(Abs(), live, o, b);
      }
    }

    /** A new block that holds `s`. */
    method Place(s: Text) returns (b: Block)
      requires Valid() && s != []
      modifies this, repr
      ensures Valid() && fresh(repr - old(repr))
      ensures Abs() == Grow(old(Abs()), |s|) && live == old(live) + [b]
      ensures b in live && |s| <= b.size && Load(b, |s|) == s
      ensures forall o, len: nat :: o in old(live) && len <= o.size ==> o in live && Load(o, len) == old(Load(o, len))
    {
      ghost var before := live;
      b := Malloc(|s|);
      assert forall i :: 0 <= i < |before| ==> Disjoint(live[i], live[|before|]);
      Store(b, s);
    }
  }
}
