/** The three growing streams of a file in the making: strings, row shapes, rows. */
module Streams {
  import opened Bytes
  import opened Codec

  // ---- words into the string table ----

  /** In a table that is small enough, `w` reads back as what is stored for `s`. */
  predicate Denotes(table: Text, w: Word, s: Text) {
    Small(table) ==> w != ZERO && Decode(table, w) == Some(Stored(s))
  }

  lemma DenotesGrows(table: Text, longer: Text, w: Word, s: Text)
    requires table <= longer && Denotes(table, w, s)
    ensures Denotes(longer, w, s)
  {
    if Small(longer) {
      DecodeGrows(table, longer, w);
    }
  }

  ghost predicate AllDenote(table: Text, words: seq<Word>, strs: seq<Text>) {
    |words| == |strs| && forall i :: 0 <= i < |strs| ==> Denotes(table, words[i], strs[i])
  }

  lemma AllDenoteStep(table: Text, longer: Text, words: seq<Word>, strs: seq<Text>, w: Word, s: Text)
    requires AllDenote(table, words, strs) && table <= longer && Denotes(longer, w, s)
    ensures AllDenote(longer, words + [w], strs + [s])
  {
    forall i | 0 <= i < |strs|
      ensures Denotes(longer, words[i], strs[i])
    {
      DenotesGrows(table, longer, words[i], strs[i]);
    }
  }

  /** Each cached string has its record where the cache says. */
  ghost predicate CacheOk(table: Text, cache: map<Text, nat>) {
    Small(table) ==> forall s :: s in cache ==> CacheEntryOk(table, s, cache[s])
  }

  ghost predicate CacheEntryOk(table: Text, s: Text, offset: nat) {
    SHORT <= |s| < LONG && offset > 0 && RecordAt(table, offset - 1, s)
  }

  lemma RecordGrows(table: Text, longer: Text, off: nat, s: Text)
    requires table <= longer && RecordAt(table, off, s)
    ensures RecordAt(longer, off, s)
  {
    assert longer[off..off + |Record(s)|] == table[off..off + |Record(s)|];
  }

  lemma CacheGrows(table: Text, longer: Text, cache: map<Text, nat>)
    requires table <= longer && CacheOk(table, cache)
    ensures CacheOk(longer, cache)
  {
    if Small(longer) {
      forall s | s in cache
        ensures CacheEntryOk(longer, s, cache[s])
      {
        assert CacheEntryOk(table, s, cache[s]);
        RecordGrows(table, longer, cache[s] - 1, s);
      }
    }
  }

  lemma WordDenotes(table: Text, w: Word, s: Text)
    requires |s| >= SHORT
    requires Small(table) ==> Unpack(w) > 0 && RecordAt(table, Unpack(w) - 1, s)
    ensures Denotes(table, w, s)
  {
    if Small(table) {
      DecodeRecord(table, Unpack(w) - 1, s, w);
    }
  }

  /** A record at byte `written - 1` is what the offset word for `written` denotes. */
  lemma RecordDenotes(table: Text, written: nat, s: Text)
    requires |s| >= SHORT && (Small(table) ==> written > 0 && RecordAt(table, written - 1, s))
    ensures Denotes(table, Pack(written), s)
  {
    WordDenotes(table, Pack(written), s);
  }

  lemma InlineDenotes(table: Text, s: Text)
    requires |s| < SHORT
    ensures Denotes(table, InlineWord(s), s)
  {
    DecodeInline(table, s);
  }

  lemma AppendedRecord(table: Text, longer: Text, s: Text)
    requires longer == table + Record(s)
    ensures RecordAt(longer, |table|, s)
  {
    assert longer[|table|..|table| + |Record(s)|] == Record(s);
  }

  lemma CacheHit(table: Text, cache: map<Text, nat>, s: Text)
    requires CacheOk(table, cache) && s in cache && |s| >= SHORT
    ensures Denotes(table, Pack(cache[s]), s)
  {
    if Small(table) {
      assert CacheEntryOk(table, s, cache[s]);
      RecordDenotes(table, cache[s], s);
    }
  }

  lemma RecordAppended(table: Text, longer: Text, s: Text, written: nat)
    requires |s| >= SHORT && longer == table + Record(s) && written == |table| + 1
    ensures Denotes(longer, Pack(written), s)
  {
    AppendedRecord(table, longer, s);
    RecordDenotes(longer, written, s);
  }

  lemma CacheAdd(table: Text, longer: Text, cache: map<Text, nat>, s: Text)
    requires CacheOk(table, cache) && SHORT <= |s| < LONG && longer == table + Record(s)
    ensures CacheOk(longer, cache[s := |table| + 1])
  {
    AppendedRecord(table, longer, s);
    CacheGrows(table, longer, cache);
    assert CacheEntryOk(longer, s, |table| + 1);
  }

  // ---- row shapes ----

  /** How many words of a shape stand for a value kept with the row. */
  function Zeros(shape: seq<Word>): (n: nat)
    ensures n <= |shape|
  {
    if shape == [] then 0
    else Zeros(shape[..|shape| - 1]) + if shape[|shape| - 1] == ZERO then 1 else 0
  }

  /** The shape with its zero words replaced, left to right, by the row's own words. */
  function Fill(shape: seq<Word>, own: seq<Word>): (r: seq<Word>)
    requires Zeros(shape) == |own|
    ensures |r| == |shape|
  {
    if shape == [] then []
    else
      var init, last := shape[..|shape| - 1], shape[|shape| - 1];
      if last == ZERO then Fill(init, own[..|own| - 1]) + [own[|own| - 1]] else Fill(init, own) + [last]
  }

  ghost function ShapeRecord(shape: seq<Word>, ownCount: nat): (s: Text)
    ensures |s| == 8 + 4 * |shape|
  {
    Raw(Pack(|shape|)) + Raw(Pack(ownCount)) + RawAll(shape)
  }

  ghost predicate ShapeAt(uniq: Text, off: nat, shape: seq<Word>) {
    LiesAt(uniq, off, ShapeRecord(shape, Zeros(shape)))
  }

  /** Every known shape has a record of its own; `table` bounds the words it can hold. */
  ghost predicate ShapesOk(table: Text, uniq: Text, shapes: map<seq<Word>, nat>) {
    && (forall k :: k in shapes ==> shapes[k] + 8 <= |uniq|)
    && (forall a, b :: a in shapes && b in shapes && a != b ==> shapes[a] != shapes[b])
    && (Small(table) ==> forall k :: k in shapes ==> ShapeAt(uniq, shapes[k], k))
  }

  lemma ShapeGrows(uniq: Text, longer: Text, off: nat, shape: seq<Word>)
    requires uniq <= longer && ShapeAt(uniq, off, shape)
    ensures ShapeAt(longer, off, shape)
  {
  }

  lemma ShapesGrow(table: Text, longer: Text, uniq: Text, shapes: map<seq<Word>, nat>)
    requires table <= longer && ShapesOk(table, uniq, shapes)
    ensures ShapesOk(longer, uniq, shapes)
  {
  }

  lemma ShapesAdd(table: Text, uniq: Text, longer: Text, shapes: map<seq<Word>, nat>,
                  shape: seq<Word>, record: Text, off: nat, ownCount: nat)
    requires ShapesOk(table, uniq, shapes) && shape !in shapes
    requires Small(table) ==> ownCount == Zeros(shape)
    requires record == ShapeRecord(shape, ownCount) && off == |uniq| && longer == uniq + record
    ensures ShapesOk(table, longer, shapes[shape := off])
  {
    var more := shapes[shape := off];
    forall k | k in more
      ensures more[k] + 8 <= |longer|
    {
    }
    if Small(table) {
      assert LiesAt(longer, off, record);
      forall k | k in more
        ensures ShapeAt(longer, more[k], k)
      {
        if k != shape {
          ShapeGrows(uniq, longer, shapes[k], k);
        }
      }
    }
  }

  // ---- rows ----

  /** One row as written: where its shape's record is, the shape, the row's own words. */
  datatype Emitted = Emitted(off: nat, shape: seq<Word>, own: seq<Word>)

  ghost function RowBytes(e: Emitted): (s: Text)
    ensures |s| == 4 + 4 * |e.own|
  {
    Raw(Pack(e.off)) + RawAll(e.own)
  }

  ghost function Layout(rows: seq<Emitted>): Text {
    if rows == [] then [] else Layout(rows[..|rows| - 1]) + RowBytes(rows[|rows| - 1])
  }

  /** `shape` and `own` hold one word for each of `texts`. */
  ghost predicate Holds(table: Text, shape: seq<Word>, own: seq<Word>, texts: seq<Text>) {
    Small(table) ==>
      && Zeros(shape) == |own|
      && |shape| == |texts|
      && forall i :: 0 <= i < |texts| ==> Denotes(table, Fill(shape, own)[i], texts[i])
  }

  lemma HoldsGrows(table: Text, longer: Text, shape: seq<Word>, own: seq<Word>, texts: seq<Text>)
    requires table <= longer && Holds(table, shape, own, texts)
    ensures Holds(longer, shape, own, texts)
  {
    if Small(longer) {
      forall i | 0 <= i < |texts|
        ensures Denotes(longer, Fill(shape, own)[i], texts[i])
      {
        DenotesGrows(table, longer, Fill(shape, own)[i], texts[i]);
      }
    }
  }

  lemma HoldsStatic(table: Text, shape: seq<Word>, own: seq<Word>, texts: seq<Text>, w: Word, text: Text)
    requires Holds(table, shape, own, texts) && Denotes(table, w, text)
    ensures Holds(table, shape + [w], own, texts + [text])
  {
    assert (shape + [w])[..|shape|] == shape;
  }

  lemma HoldsOwn(table: Text, shape: seq<Word>, own: seq<Word>, texts: seq<Text>, w: Word, text: Text)
    requires Holds(table, shape, own, texts) && Denotes(table, w, text)
    ensures Holds(table, shape + [ZERO], own + [w], texts + [text])
  {
    assert (shape + [ZERO])[..|shape|] == shape;
    assert (own + [w])[..|own|] == own;
  }

  lemma {:induction false} LayoutSplit(rows: seq<Emitted>, i: nat)
    requires i < |rows|
    ensures var at, e := |Layout(rows[..i])|, RowBytes(rows[i]);
            LiesAt(Layout(rows), at, e) && at + |e| == |Layout(rows[..i + 1])|
  {
    assert rows[..i + 1][..i] == rows[..i];
    LayoutPrefix(rows, i + 1);
    assert Layout(rows[..i + 1]) == Layout(rows[..i]) + RowBytes(rows[i]);
  }

  lemma {:induction false} LayoutPrefix(rows: seq<Emitted>, i: nat)
    requires i <= |rows|
    ensures Layout(rows[..i]) <= Layout(rows)
  {
    if i < |rows| {
      assert rows[..|rows| - 1][..i] == rows[..i];
      LayoutPrefix(rows[..|rows| - 1], i);
    } else {
      assert rows[..i] == rows;
    }
  }

  // ---- the file ----

  const HEADER: nat := 16

  ghost function HeaderOf(numRows: nat, tableLen: nat, uniqLen: nat): (s: Text)
    ensures |s| == HEADER
  {
    Raw(Pack(numRows)) + Raw(Pack(HEADER)) + Raw(Pack(HEADER + tableLen)) + Raw(Pack(HEADER + tableLen + uniqLen))
  }

  ghost function FileOf(numRows: nat, table: Text, uniq: Text, vector: Text): Text {
    HeaderOf(numRows, |table|, |uniq|) + table + uniq + vector
  }
}
