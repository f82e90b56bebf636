/** Bytes, 32-bit words as the four bytes they occupy in a file, and the
    big-endian packing done by htonl and undone by ntohl. */
module Bytes {
  type byte = x: int | 0 <= x < 0x100
  type Text = seq<byte>

  datatype Option<+T> = None | Some(value: T)

  /** A uint32_t as it lies in memory or in a file; `b0` comes first. */
  datatype Word = Word(b0: byte, b1: byte, b2: byte, b3: byte)

  const ZERO := Word(0, 0, 0, 0)
  const TOP_BIT: nat := 0x8000_0000

  /** The number that the first `k` bytes spell, most significant byte first. */
  function Leading(w: Word, k: nat): nat
    requires k <= 4
    decreases w, k
  {
    if k == 0 then 0
    else Leading(w, k - 1) * 0x100 + (if k == 1 then w.b0 else if k == 2 then w.b1 else if k == 3 then w.b2 else w.b3)
  }

  lemma LeadingIs(w: Word)
    ensures Leading(w, 4) == w.b0 * 0x100_0000 + w.b1 * 0x1_0000 + w.b2 * 0x100 + w.b3
  {
    assert Leading(w, 1) == w.b0;
    assert Leading(w, 2) == w.b0 * 0x100 + w.b1;
    assert Leading(w, 3) == w.b0 * 0x1_0000 + w.b1 * 0x100 + w.b2;
  }

  /** ntohl. */
  function Unpack(w: Word): (n: nat)
    ensures n < 0x1_0000_0000
    ensures n == 0 <==> w == ZERO
    ensures n >= TOP_BIT <==> w.b0 >= 0x80
  {
    LeadingIs(w);
    Leading(w, 4)
  }

  /** What a uint32_t keeps of `n`. */
  function Wrap(n: nat): (m: nat)
    ensures m < 0x1_0000_0000
    ensures n < 0x1_0000_0000 ==> m == n
  {
    n % 0x1_0000_0000
  }

  lemma UnpackInjective(v: Word, w: Word)
    requires Unpack(v) == Unpack(w)
    ensures v == w
  {
    LeadingInjective(v, w, 4);
  }

  lemma LeadingInjective(v: Word, w: Word, k: nat)
    requires k <= 4 && Leading(v, k) == Leading(w, k)
    ensures k >= 1 ==> v.b0 == w.b0
    ensures k >= 2 ==> v.b1 == w.b1
    ensures k >= 3 ==> v.b2 == w.b2
    ensures k >= 4 ==> v.b3 == w.b3
    decreases k
  {
    if k > 0 {
      LeadingInjective(v, w, k - 1);
    }
  }

  /** The bytes of `n`, most significant first. */
  function BigEndian(n: nat): (w: Word)
    requires n < 0x1_0000_0000
    ensures Unpack(w) == n
  {
    var high, low := n / 0x1_0000, n % 0x1_0000;
    var w := Word(high / 0x100, high % 0x100, low / 0x100, low % 0x100);
    LeadingIs(w);
    w
  }

  /** htonl. */
  function Pack(n: nat): (w: Word)
    ensures n < 0x1_0000_0000 ==> Unpack(w) == n
  {
    BigEndian(Wrap(n))
  }

  function Raw(w: Word): (s: Text)
    ensures |s| == 4
  {
    [w.b0, w.b1, w.b2, w.b3]
  }

  function WordAt(s: Text, i: nat): (w: Word)
    requires i + 4 <= |s|
    ensures Raw(w) == s[i..i + 4]
  {
    Word(s[i], s[i + 1], s[i + 2], s[i + 3])
  }

  function RawAll(ws: seq<Word>): (s: Text)
    ensures |s| == 4 * |ws|
  {
    if ws == [] then [] else RawAll(ws[..|ws| - 1]) + Raw(ws[|ws| - 1])
  }

  function Concat(parts: seq<Text>): Text {
    if parts == [] then [] else Concat(parts[..|parts| - 1]) + parts[|parts| - 1]
  }

  lemma {:induction false} ConcatSplit(a: seq<Text>, b: seq<Text>)
    ensures Concat(a + b) == Concat(a) + Concat(b)
  {
    if b == [] {
      assert a + b == a;
    } else {
      assert (a + b)[..|a + b| - 1] == a + b[..|b| - 1];
      ConcatSplit(a, b[..|b| - 1]);
    }
  }

  lemma {:induction false} RawAllAt(ws: seq<Word>, i: nat)
    requires i < |ws|
    ensures RawAll(ws)[4 * i..4 * i + 4] == Raw(ws[i])
  {
    var init := ws[..|ws| - 1];
    assert RawAll(ws) == RawAll(init) + Raw(ws[|ws| - 1]);
    if i < |ws| - 1 {
      RawAllAt(init, i);
      assert RawAll(ws)[4 * i..4 * i + 4] == RawAll(init)[4 * i..4 * i + 4];
    }
  }

  /** Reading a word back where the same word was written. */
  lemma WordAtRaw(s: Text, i: nat, w: Word)
    requires i + 4 <= |s| && s[i..i + 4] == Raw(w)
    ensures WordAt(s, i) == w
  {
    var four := s[i..i + 4];
    assert s[i] == four[0] && s[i + 1] == four[1] && s[i + 2] == four[2] && s[i + 3] == four[3];
  }

  /** The bytes `part` lie in `s` from `at` on. */
  ghost predicate LiesAt(s: Text, at: nat, part: Text) {
    at + |part| <= |s| && forall k :: 0 <= k < |part| ==> s[at + k] == part[k]
  }

  lemma LiesInside(s: Text, at: nat, part: Text, from: nat, inner: Text)
    requires LiesAt(s, at, part) && LiesAt(part, from, inner)
    ensures LiesAt(s, at + from, inner)
  {
    forall k | 0 <= k < |inner|
      ensures s[at + from + k] == inner[k]
    {
      assert part[from + k] == inner[k];
    }
  }

  lemma LiesApart(s: Text, at: nat, part: Text, a: Text, b: Text)
    requires LiesAt(s, at, part) && part == a + b
    ensures LiesAt(s, at, a) && LiesAt(s, at + |a|, b)
  {
    LiesInside(s, at, part, 0, a);
    LiesInside(s, at, part, |a|, b);
  }
}
