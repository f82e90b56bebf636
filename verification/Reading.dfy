/** What the bytes of a file say, read the way frf.c reads them. */
module Reading {
  import opened Bytes
  import opened Codec
  import opened Streams

  /** Where the three streams start in the file. */
  datatype Sections = Sections(strings: nat, cells: nat, vectors: nat)

  /** None where the four bytes do not all lie in the file. */
  function ReadWord(file: Text, at: int): Option<Word> {
    if 0 <= at && at + 4 <= |file| then Some(WordAt(file, at)) else None
  }

  /** The int that a uint32_t of value `n` converts to. */
  function Signed(n: nat): int
    requires n < 0x1_0000_0000
  {
    if n < TOP_BIT then n else n - 0x1_0000_0000
  }

  /** The string a word stands for; None where a read would leave the file. */
  function ReadString(file: Text, sec: Sections, w: Word): Option<Text> {
    if sec.strings <= |file| then Decode(file[sec.strings..], w) else None
  }

  /** The texts of the cells read so far, and where the next word of the row's own lies. */
  datatype CellsRead = CellsRead(texts: seq<Text>, vec: nat)

  /** `n` cells from `cell` on; a zero cell takes the next word at `vec`. */
  function ReadCells(file: Text, sec: Sections, cell: nat, vec: nat, n: nat): (r: Option<CellsRead>)
    ensures r.Some? ==> |r.value.texts| == n
  {
    if n == 0 then Some(CellsRead([], vec))
    else
      match ReadCells(file, sec, cell, vec, n - 1)
      case None => None
      case Some(sofar) => ReadCell(file, sec, cell + 4 * (n - 1), sofar)
  }

  function ReadCell(file: Text, sec: Sections, cell: nat, sofar: CellsRead): (r: Option<CellsRead>)
    ensures r.Some? ==> |r.value.texts| == |sofar.texts| + 1
  {
    match ReadWord(file, cell)
    case None => None
    case Some(index) =>
      var taken := if index == ZERO then ReadWord(file, sofar.vec) else Some(index);
      if taken.None? then None
      else match ReadString(file, sec, taken.value)
        case None => None
        case Some(text) => Some(CellsRead(sofar.texts + [text], if index == ZERO then sofar.vec + 4 else sofar.vec))
  }

  lemma {:induction false} ReadCellsBefore(file: Text, sec: Sections, cell: nat, vec: nat, i: nat, n: nat)
    requires i <= n && ReadCells(file, sec, cell, vec, n).Some?
    ensures ReadCells(file, sec, cell, vec, i).Some?
  {
    if i < n {
      var before := ReadCells(file, sec, cell, vec, n - 1);
      assert before.Some?;
      ReadCellsBefore(file, sec, cell, vec, i, n - 1);
    }
  }

  /** The texts of the row at `row`. */
  function ReadRow(file: Text, sec: Sections, row: int): Option<seq<Text>> {
    match ReadWord(file, row)
    case None => None
    case Some(off) =>
      match ReadWord(file, sec.cells + Unpack(off))
      case None => None
      case Some(count) =>
        match ReadCells(file, sec, sec.cells + Unpack(off) + 8, row + 4, CellCount(count))
        case None => None
        case Some(r) => Some(r.texts)
  }

  /** How often a loop up to the int `num_elements` runs. */
  function CellCount(w: Word): nat {
    if Signed(Unpack(w)) > 0 then Signed(Unpack(w)) else 0
  }

  /** Where frf_next goes from the row at `row`. */
  function NextRow(file: Text, sec: Sections, row: int): Option<int> {
    match ReadWord(file, row)
    case None => None
    case Some(off) =>
      match ReadWord(file, sec.cells + Unpack(off) + 4)
      case None => None
      case Some(own) => Some(row + 4 * Skip(own))
  }

  /** The int `to_skip`: the row's own words and the one before them. */
  function Skip(own: Word): int {
    Signed(Wrap(Unpack(own) + 1))
  }

  lemma CountsAre(w: Word, n: nat)
    requires n + 1 < TOP_BIT && Unpack(w) == n
    ensures CellCount(w) == n && Skip(w) == n + 1
  {
  }

  /** The shape that the row at `row` points to: the words of its record. */
  function ReadShape(file: Text, sec: Sections, row: int): Option<seq<Word>> {
    match ReadWord(file, row)
    case None => None
    case Some(off) =>
      match ReadWord(file, sec.cells + Unpack(off))
      case None => None
      case Some(count) => ReadWords(file, sec.cells + Unpack(off) + 8, CellCount(count))
  }

  function ReadWords(file: Text, at: nat, n: nat): Option<seq<Word>> {
    if at + 4 * n <= |file| then Some(seq(n, i requires 0 <= i < n => WordAt(file, at + 4 * i))) else None
  }

  /** The second word of the record that the row at `row` points to. */
  function ReadOwnCount(file: Text, sec: Sections, row: int): Option<Word> {
    match ReadWord(file, row)
    case None => None
    case Some(off) => ReadWord(file, sec.cells + Unpack(off) + 4)
  }

  function SectionsOf(file: Text): Sections
    requires |file| >= HEADER
  {
    Sections(Unpack(WordAt(file, 4)), Unpack(WordAt(file, 8)), Unpack(WordAt(file, 12)))
  }

  // ---- one row of a file that was laid out as the maker does ----

  lemma {:induction false} FillAt(shape: seq<Word>, own: seq<Word>, i: nat)
    requires Zeros(shape) == |own| && i < |shape|
    ensures Zeros(shape[..i + 1]) == Zeros(shape[..i]) + (if shape[i] == ZERO then 1 else 0)
    ensures Zeros(shape[..i + 1]) <= |own|
    ensures Fill(shape, own)[i] == if shape[i] == ZERO then own[Zeros(shape[..i])] else shape[i]
  {
    var init := shape[..|shape| - 1];
    if i < |shape| - 1 {
      assert init[..i] == shape[..i] && init[..i + 1] == shape[..i + 1];
      FillAt(init, if shape[|shape| - 1] == ZERO then own[..|own| - 1] else own, i);
    } else {
      assert shape[..i + 1] == shape && shape[..i + 1][..i] == shape[..i] == init;
    }
  }

  /** The words of `ws` lie in the file from `at` on. */
  ghost predicate WordsAt(file: Text, at: nat, ws: seq<Word>) {
    forall i :: 0 <= i < |ws| ==> ReadWord(file, at + 4 * i) == Some(ws[i])
  }

  lemma WordLies(s: Text, at: nat, w: Word)
    requires LiesAt(s, at, Raw(w))
    ensures ReadWord(s, at) == Some(w)
  {
    WordAtRaw(s, at, w);
  }

  lemma WordsLie(s: Text, at: nat, raw: Text, ws: seq<Word>)
    requires LiesAt(s, at, raw) && raw == RawAll(ws)
    ensures WordsAt(s, at, ws)
  {
    forall i | 0 <= i < |ws|
      ensures ReadWord(s, at + 4 * i) == Some(ws[i])
    {
      RawAllAt(ws, i);
      LiesInside(s, at, raw, 4 * i, Raw(ws[i]));
      WordLies(s, at + 4 * i, ws[i]);
    }
  }

  /** Each of `words` reads as what is stored for the text at the same place. */
  ghost predicate AllRead(file: Text, sec: Sections, words: seq<Word>, texts: seq<Text>) {
    |words| == |texts| && forall i :: 0 <= i < |words| ==> ReadString(file, sec, words[i]) == Some(Stored(texts[i]))
  }

  lemma HeldRead(file: Text, sec: Sections, table: Text, shape: seq<Word>, own: seq<Word>, texts: seq<Text>)
    requires sec.strings <= |file| && table <= file[sec.strings..] && Small(table)
    requires Holds(table, shape, own, texts)
    ensures AllRead(file, sec, Fill(shape, own), texts)
  {
    var words := Fill(shape, own);
    forall i | 0 <= i < |words|
      ensures ReadString(file, sec, words[i]) == Some(Stored(texts[i]))
    {
      assert Denotes(table, words[i], texts[i]);
      DecodeGrows(table, file[sec.strings..], words[i]);
    }
  }

  /** Where `n` cells into a row the reader stands. */
  function ReadSoFar(vec: nat, shape: seq<Word>, texts: seq<Text>, n: nat): CellsRead
    requires n <= |shape| && n <= |texts|
  {
    CellsRead(StoredAll(texts[..n]), vec + 4 * Zeros(shape[..n]))
  }

  /** Reading the words of a shape and of a row gives back what they stand for. */
  lemma {:induction false} ReadCellsIs(file: Text, sec: Sections, cell: nat, vec: nat,
                                       shape: seq<Word>, own: seq<Word>, texts: seq<Text>, n: nat)
    requires WordsAt(file, cell, shape) && WordsAt(file, vec, own)
    requires Zeros(shape) == |own| && n <= |shape|
    requires AllRead(file, sec, Fill(shape, own), texts)
    ensures ReadCells(file, sec, cell, vec, n) == Some(ReadSoFar(vec, shape, texts, n))
  {
    if n == 0 {
      ReadNone(file, sec, cell, vec, shape, texts);
    } else {
      ReadCellsIs(file, sec, cell, vec, shape, own, texts, n - 1);
      TakenWord(file, sec, cell, vec, shape, own, texts, n - 1);
    }
  }

  lemma ReadNone(file: Text, sec: Sections, cell: nat, vec: nat, shape: seq<Word>, texts: seq<Text>)
    ensures ReadCells(file, sec, cell, vec, 0) == Some(ReadSoFar(vec, shape, texts, 0))
  {
    assert texts[..0] == [] && shape[..0] == [];
  }

  lemma TakenWord(file: Text, sec: Sections, cell: nat, vec: nat, shape: seq<Word>, own: seq<Word>, texts: seq<Text>, i: nat)
    requires WordsAt(file, cell, shape) && WordsAt(file, vec, own)
    requires Zeros(shape) == |own| && i < |shape| && AllRead(file, sec, Fill(shape, own), texts)
    requires ReadCells(file, sec, cell, vec, i) == Some(ReadSoFar(vec, shape, texts, i))
    ensures ReadCells(file, sec, cell, vec, i + 1) == Some(ReadSoFar(vec, shape, texts, i + 1))
  {
    var sofar, next := ReadSoFar(vec, shape, texts, i), ReadSoFar(vec, shape, texts, i + 1);
    FillAt(shape, own, i);
    StoredStep(texts, i);
    var w, index, text := Fill(shape, own)[i], shape[i], texts[i];
    ReadOne(file, sec, Fill(shape, own), texts, i, w, text);
    ReadOwn(file, cell, shape, i, index);
    if index == ZERO {
      ReadOwn(file, vec, own, Zeros(shape[..i]), w);
    }
    CellStep(file, sec, cell, vec, i, sofar, next, index, w, text);
  }

  lemma ReadOne(file: Text, sec: Sections, words: seq<Word>, texts: seq<Text>, i: nat, w: Word, text: Text)
    requires AllRead(file, sec, words, texts) && i < |words| && words[i] == w && texts[i] == text
    ensures ReadString(file, sec, w) == Some(Stored(text))
  {
  }

  lemma ReadOwn(file: Text, at: nat, ws: seq<Word>, i: nat, w: Word)
    requires WordsAt(file, at, ws) && i < |ws| && ws[i] == w
    ensures ReadWord(file, at + 4 * i) == Some(w)
  {
  }

  lemma CellStep(file: Text, sec: Sections, cell: nat, vec: nat, i: nat, sofar: CellsRead, next: CellsRead,
                 index: Word, w: Word, text: Text)
    requires ReadCells(file, sec, cell, vec, i) == Some(sofar) && ReadWord(file, cell + 4 * i) == Some(index)
    requires if index == ZERO then ReadWord(file, sofar.vec) == Some(w) else w == index
    requires ReadString(file, sec, w) == Some(Stored(text)) && next.texts == sofar.texts + [Stored(text)]
    requires next.vec == sofar.vec + (if index == ZERO then 4 else 0)
    ensures ReadCells(file, sec, cell, vec, i + 1) == Some(next)
  {
  }

  /** What a reader gets for each of `texts`. */
  function StoredAll(texts: seq<Text>): (r: seq<Text>)
    ensures |r| == |texts|
  {
    if texts == [] then [] else StoredAll(texts[..|texts| - 1]) + [Stored(texts[|texts| - 1])]
  }

  lemma StoredStep(texts: seq<Text>, i: nat)
    requires i < |texts|
    ensures StoredAll(texts[..i + 1]) == StoredAll(texts[..i]) + [Stored(texts[i])]
  {
    assert texts[..i + 1][..i] == texts[..i];
  }

  // ---- the whole file ----

  /** What the three streams of a file hold. */
  datatype Image = Image(table: Text, uniq: Text, rows: seq<Emitted>)

  /** Each stream is small enough for 31-bit offsets, and the last starts within reach of 32 bits. */
  predicate Addressable(table: Text, uniq: Text, vector: Text) {
    && Small(table) && |uniq| < TOP_BIT && |vector| < TOP_BIT
    && HEADER + |table| + |uniq| < 0x1_0000_0000
  }

  /** `file` is a header and the three streams, all of them addressable. */
  ghost predicate Laid(file: Text, m: Image) {
    file == FileOf(|m.rows|, m.table, m.uniq, Layout(m.rows)) && Addressable(m.table, m.uniq, Layout(m.rows))
  }

  function Where(m: Image): Sections {
    Sections(HEADER, HEADER + |m.table|, HEADER + |m.table| + |m.uniq|)
  }

  /** The streams lie where `sec` says, the rows at the end. */
  ghost predicate InPlace(file: Text, sec: Sections, m: Image) {
    && Addressable(m.table, m.uniq, Layout(m.rows)) && |file| == sec.vectors + |Layout(m.rows)|
    && sec.strings <= |file| && m.table <= file[sec.strings..]
    && LiesAt(file, sec.cells, m.uniq)
    && LiesAt(file, sec.vectors, Layout(m.rows))
  }

  lemma LaidInPlace(file: Text, m: Image)
    requires Laid(file, m)
    ensures InPlace(file, Where(m), m)
  {
  }

  lemma LaidHeader(file: Text, m: Image)
    requires Laid(file, m)
    ensures |file| >= HEADER && SectionsOf(file) == Where(m)
    ensures Unpack(WordAt(file, 0)) == |m.rows|
  {
    var head := HeaderOf(|m.rows|, |m.table|, |m.uniq|);
    assert LiesAt(file, 0, head);
    LayoutLength(m.rows);
    HeaderWords(file, Pack(|m.rows|), Pack(HEADER), Pack(HEADER + |m.table|), Pack(HEADER + |m.table| + |m.uniq|));
  }

  lemma {:induction false} LayoutLength(rows: seq<Emitted>)
    ensures |Layout(rows)| >= 4 * |rows|
  {
    if rows != [] {
      LayoutLength(rows[..|rows| - 1]);
    }
  }

  lemma HeaderWords(file: Text, w0: Word, w1: Word, w2: Word, w3: Word)
    requires LiesAt(file, 0, Raw(w0) + Raw(w1) + Raw(w2) + Raw(w3))
    ensures |file| >= HEADER
    ensures WordAt(file, 0) == w0 && WordAt(file, 4) == w1 && WordAt(file, 8) == w2 && WordAt(file, 12) == w3
  {
    LiesApart(file, 0, Raw(w0) + Raw(w1) + Raw(w2) + Raw(w3), Raw(w0) + Raw(w1) + Raw(w2), Raw(w3));
    LiesApart(file, 0, Raw(w0) + Raw(w1) + Raw(w2), Raw(w0) + Raw(w1), Raw(w2));
    LiesApart(file, 0, Raw(w0) + Raw(w1), Raw(w0), Raw(w1));
    WordLies(file, 0, w0);
    WordLies(file, 4, w1);
    WordLies(file, 8, w2);
    WordLies(file, 12, w3);
  }

  /** The bytes of a file: how many rows there are, where each stream starts, and the strings,
      the shapes and the rows one behind the other. */
  lemma FileIs(numRows: nat, table: Text, uniq: Text, vector: Text)
    requires numRows < 0x1_0000_0000 && 16 + |table| + |uniq| < 0x1_0000_0000
    ensures var f := FileOf(numRows, table, uniq, vector);
            && |f| >= 16 && f[16..] == table + uniq + vector
            && Unpack(WordAt(f, 0)) == numRows && Unpack(WordAt(f, 4)) == 16
            && Unpack(WordAt(f, 8)) == 16 + |table| && Unpack(WordAt(f, 12)) == 16 + |table| + |uniq|
  {
    var head, rest, f := HeaderOf(numRows, |table|, |uniq|), table + uniq + vector, FileOf(numRows, table, uniq, vector);
    assert f == head + rest;
    assert f[16..] == rest;
    assert LiesAt(f, 0, head);
    HeaderWords(f, Pack(numRows), Pack(HEADER), Pack(HEADER + |table|), Pack(HEADER + |table| + |uniq|));
  }

  // ---- one row of a laid file ----

  /** Byte offset of row `i` in the vector stream, as frf_maker_add returns it. */
  ghost function Offset(m: Image, i: nat): nat
    requires i <= |m.rows|
  {
    |Layout(m.rows[..i])|
  }

  /** Where it lies in the file. */
  ghost function Position(sec: Sections, m: Image, i: nat): nat
    requires i <= |m.rows|
  {
    sec.vectors + Offset(m, i)
  }

  /** Row `i`, in its shape and its own words, holds `texts`. */
  ghost predicate RowHolds(m: Image, i: nat, texts: seq<Text>) {
    && i < |m.rows|
    && ShapeAt(m.uniq, m.rows[i].off, m.rows[i].shape)
    && Holds(m.table, m.rows[i].shape, m.rows[i].own, texts)
  }

  lemma RowParts(file: Text, row: nat, e: Emitted, off: Word, own: seq<Word>)
    requires LiesAt(file, row, RowBytes(e)) && off == Pack(e.off) && own == e.own
    ensures ReadWord(file, row) == Some(off) && WordsAt(file, row + 4, own) && row + 4 * (|own| + 1) <= |file|
  {
    LiesApart(file, row, RowBytes(e), Raw(off), RawAll(own));
    WordLies(file, row, off);
    WordsLie(file, row + 4, RawAll(own), own);
  }

  /** The row's words, where the reader looks for them. */
  lemma PlacedRow(file: Text, vectors: nat, rows: seq<Emitted>, i: nat, row: nat, e: Emitted)
    requires LiesAt(file, vectors, Layout(rows))
    requires i < |rows| && e == rows[i] && row == vectors + |Layout(rows[..i])|
    ensures ReadWord(file, row) == Some(Pack(e.off)) && WordsAt(file, row + 4, e.own)
    ensures row + 4 * (|e.own| + 1) == vectors + |Layout(rows[..i + 1])| <= |file|
  {
    var at, bytes, off := |Layout(rows[..i])|, RowBytes(e), Pack(e.off);
    LayoutSplit(rows, i);
    LiesInside(file, vectors, Layout(rows), at, bytes);
    RowParts(file, row, e, off, e.own);
    assert |bytes| == 4 * (|e.own| + 1) by {
      RowLength(e);
    }
  }

  lemma RowLength(e: Emitted)
    ensures |RowBytes(e)| == 4 * (|e.own| + 1)
  {
  }

  lemma ShapeWords(uniq: Text, off: nat, shape: seq<Word>, count: Word, own: Word) returns (record: Text)
    requires ShapeAt(uniq, off, shape) && count == Pack(|shape|) && own == Pack(Zeros(shape))
    ensures LiesAt(uniq, off, record) && record == Raw(count) + Raw(own) + RawAll(shape)
  {
    record := ShapeRecord(shape, Zeros(shape));
  }

  lemma RecordParts(file: Text, cells: nat, uniq: Text, off: nat, at: nat, record: Text, count: Word, own: Word, shape: seq<Word>)
    requires LiesAt(file, cells, uniq) && LiesAt(uniq, off, record) && at == cells + off
    requires record == Raw(count) + Raw(own) + RawAll(shape)
    ensures ReadWord(file, at) == Some(count) && ReadWord(file, at + 4) == Some(own) && WordsAt(file, at + 8, shape)
    ensures at + 8 + 4 * |shape| <= |file|
  {
    LiesInside(file, cells, uniq, off, record);
    var head, words := Raw(count) + Raw(own), RawAll(shape);
    LiesApart(file, at, record, head, words);
    LiesApart(file, at, head, Raw(count), Raw(own));
    WordLies(file, at, count);
    WordLies(file, at + 4, own);
    WordsLie(file, at + 8, words, shape);
  }

  /** A row reads as what is stored for its texts. */
  lemma RowReads(file: Text, sec: Sections, m: Image, i: nat, row: nat, texts: seq<Text>)
    requires InPlace(file, sec, m) && RowHolds(m, i, texts) && row == Position(sec, m, i)
    ensures ReadRow(file, sec, row) == Some(StoredAll(texts))
  {
    var e, at, off, count, ownCount := PlacedWords(file, sec, m, i, row);
    HeldRead(file, sec, m.table, e.shape, e.own, texts);
    RowIs(file, sec, row, at, e.shape, e.own, texts, off, count, |e.shape|);
  }

  /** The step from a row leads to the next. */
  lemma RowSteps(file: Text, sec: Sections, m: Image, i: nat, row: nat, texts: seq<Text>)
    requires InPlace(file, sec, m) && RowHolds(m, i, texts) && row == Position(sec, m, i)
    ensures NextRow(file, sec, row) == Some(Position(sec, m, i + 1))
  {
    var e, at, off, count, ownCount := PlacedWords(file, sec, m, i, row);
    NextRowIs(file, sec, row, at, off, ownCount, |e.own|);
  }

  lemma PlacedWords(file: Text, sec: Sections, m: Image, i: nat, row: nat)
    returns (e: Emitted, at: nat, off: Word, count: Word, ownCount: Word)
    requires InPlace(file, sec, m) && i < |m.rows| && row == Position(sec, m, i)
    requires ShapeAt(m.uniq, m.rows[i].off, m.rows[i].shape) && Zeros(m.rows[i].shape) == |m.rows[i].own|
    ensures e == m.rows[i] && at == sec.cells + e.off && Unpack(off) == e.off
    ensures ReadWord(file, row) == Some(off) && WordsAt(file, row + 4, e.own)
    ensures ReadWord(file, at) == Some(count) && ReadWord(file, at + 4) == Some(ownCount) && WordsAt(file, at + 8, e.shape)
    ensures Unpack(count) == |e.shape| < TOP_BIT - 1 && Unpack(ownCount) == |e.own| < TOP_BIT - 1
    ensures row + 4 * (|e.own| + 1) == Position(sec, m, i + 1)
  {
    e := m.rows[i];
    at, off, count, ownCount := sec.cells + e.off, Pack(e.off), Pack(|e.shape|), Pack(|e.own|);
    PlacedRow(file, sec.vectors, m.rows, i, row, e);
    var record := ShapeWords(m.uniq, e.off, e.shape, count, ownCount);
    RecordParts(file, sec.cells, m.uniq, e.off, at, record, count, ownCount, e.shape);
  }

  lemma RowIs(file: Text, sec: Sections, row: nat, at: nat, shape: seq<Word>, own: seq<Word>, texts: seq<Text>,
              off: Word, count: Word, cells: nat)
    requires sec.cells + Unpack(off) == at && Unpack(count) == cells == |shape| < TOP_BIT - 1
    requires ReadWord(file, row) == Some(off) && WordsAt(file, row + 4, own)
    requires ReadWord(file, at) == Some(count) && WordsAt(file, at + 8, shape)
    requires Zeros(shape) == |own| && AllRead(file, sec, Fill(shape, own), texts)
    ensures ReadRow(file, sec, row) == Some(StoredAll(texts))
  {
    ReadCellsIs(file, sec, at + 8, row + 4, shape, own, texts, cells);
    assert texts[..cells] == texts;
    ReadRowIs(file, sec, row, at, off, count, cells, ReadSoFar(row + 4, shape, texts, cells));
  }

  lemma ReadRowIs(file: Text, sec: Sections, row: nat, at: nat, off: Word, count: Word, cells: nat, r: CellsRead)
    requires sec.cells + Unpack(off) == at && Unpack(count) == cells < TOP_BIT - 1
    requires ReadWord(file, row) == Some(off) && ReadWord(file, at) == Some(count)
    requires ReadCells(file, sec, at + 8, row + 4, cells) == Some(r)
    ensures ReadRow(file, sec, row) == Some(r.texts)
  {
    CountsAre(count, cells);
  }

  lemma NextRowIs(file: Text, sec: Sections, row: nat, at: nat, off: Word, ownCount: Word, n: nat)
    requires sec.cells + Unpack(off) == at && Unpack(ownCount) == n < TOP_BIT - 1
    requires ReadWord(file, row) == Some(off) && ReadWord(file, at + 4) == Some(ownCount)
    ensures NextRow(file, sec, row) == Some(row + 4 * (n + 1))
  {
    CountsAre(ownCount, n);
  }

  // ---- from row to row ----

  /** Row `i` of the file holds `texts[i]`, for every row. */
  ghost predicate RowsHold(m: Image, texts: seq<seq<Text>>) {
    |texts| == |m.rows| && forall i :: 0 <= i < |texts| ==> RowHolds(m, i, texts[i])
  }

  /** Where `i` steps of frf_next from the first row lead. */
  function Walked(file: Text, sec: Sections, i: nat): Option<int> {
    if i == 0 then Some(sec.vectors)
    else
      match Walked(file, sec, i - 1)
      case None => None
      case Some(row) => NextRow(file, sec, row)
  }

  /** Stepping from row to row meets the offsets of the rows. */
  lemma {:induction false} WalkMeetsRows(file: Text, sec: Sections, m: Image, texts: seq<seq<Text>>, i: nat)
    requires InPlace(file, sec, m) && RowsHold(m, texts) && i <= |m.rows|
    ensures Walked(file, sec, i) == Some(Position(sec, m, i))
  {
    if i == 0 {
      assert m.rows[..0] == [];
    } else {
      WalkMeetsRows(file, sec, m, texts, i - 1);
      RowSteps(file, sec, m, i - 1, Position(sec, m, i - 1), texts[i - 1]);
    }
  }

  /** The step from the last row, and no other, leads to the end of the file. */
  lemma PositionsRise(file: Text, sec: Sections, m: Image, i: nat)
    requires InPlace(file, sec, m) && i <= |m.rows|
    ensures Position(sec, m, i) <= |file|
    ensures Position(sec, m, i) == |file| <==> i == |m.rows|
  {
    OffsetsRise(m.rows, i);
  }

  lemma OffsetsRise(rows: seq<Emitted>, i: nat)
    requires i <= |rows|
    ensures |Layout(rows[..i])| <= |Layout(rows)|
    ensures |Layout(rows[..i])| == |Layout(rows)| <==> i == |rows|
  {
    if i < |rows| {
      LayoutSplit(rows, i);
    } else {
      assert rows[..i] == rows;
    }
  }

  // ---- shapes are shared ----

  /** Rows of different shapes have different records, rows of the same shape the same. */
  ghost predicate Shared(rows: seq<Emitted>) {
    forall i, j :: 0 <= i < |rows| && 0 <= j < |rows| ==> SameRecord(rows[i], rows[j])
  }

  predicate SameRecord(a: Emitted, b: Emitted) {
    a.off == b.off <==> a.shape == b.shape
  }

  /** In the file, two rows point to the same record exactly when their shapes are equal. */
  lemma SharedIffEqual(file: Text, sec: Sections, m: Image, texts: seq<seq<Text>>, i: nat, j: nat)
    requires InPlace(file, sec, m) && RowsHold(m, texts) && Shared(m.rows) && i < |m.rows| && j < |m.rows|
    ensures ReadWord(file, Position(sec, m, i)).Some? && ReadWord(file, Position(sec, m, j)).Some?
    ensures ReadWord(file, Position(sec, m, i)) == ReadWord(file, Position(sec, m, j)) <==> m.rows[i].shape == m.rows[j].shape
  {
    assert RowHolds(m, i, texts[i]) && RowHolds(m, j, texts[j]) && SameRecord(m.rows[i], m.rows[j]);
    var ei, ati, offi, ni, owni := PlacedWords(file, sec, m, i, Position(sec, m, i));
    var ej, atj, offj, nj, ownj := PlacedWords(file, sec, m, j, Position(sec, m, j));
    SameWords(offi, offj);
  }

  lemma SameWords(v: Word, w: Word)
    ensures v == w <==> Unpack(v) == Unpack(w)
  {
    if Unpack(v) == Unpack(w) {
      UnpackInjective(v, w);
    }
  }

  /** Two rows point to the same record exactly when the shapes that they point to are equal. */
  predicate ShareIffEqual(file: Text, sec: Sections, a: int, b: int) {
    && ReadShape(file, sec, a).Some? && ReadShape(file, sec, b).Some?
    && (ReadWord(file, a) == ReadWord(file, b) <==> ReadShape(file, sec, a) == ReadShape(file, sec, b))
  }

  /** The second word of a row's record is the number of zeros in its shape, and the number of
      words between the row's first and the next row. */
  predicate CountsOwn(file: Text, sec: Sections, row: int) {
    && ReadShape(file, sec, row).Some? && ReadOwnCount(file, sec, row).Some?
    && var zeros := Zeros(ReadShape(file, sec, row).value);
       && Unpack(ReadOwnCount(file, sec, row).value) == zeros
       && NextRow(file, sec, row) == Some(row + 4 * (zeros + 1))
  }

  lemma WordsRead(file: Text, at: nat, ws: seq<Word>)
    requires WordsAt(file, at, ws) && at <= |file|
    ensures ReadWords(file, at, |ws|) == Some(ws)
  {
    if ws != [] {
      assert ReadWord(file, at + 4 * (|ws| - 1)) == Some(ws[|ws| - 1]);
    }
    var got := ReadWords(file, at, |ws|).value;
    forall i | 0 <= i < |ws|
      ensures got[i] == ws[i]
    {
      assert ReadWord(file, at + 4 * i) == Some(ws[i]);
    }
    assert got == ws;
  }

  lemma ShapeRead(file: Text, sec: Sections, m: Image, texts: seq<seq<Text>>, i: nat, row: nat)
    requires InPlace(file, sec, m) && RowsHold(m, texts) && i < |m.rows| && row == Position(sec, m, i)
    ensures ReadShape(file, sec, row) == Some(m.rows[i].shape)
  {
    assert RowHolds(m, i, texts[i]);
    var e, at, off, count, own := PlacedWords(file, sec, m, i, row);
    ShapeIs(file, sec, row, at, e.shape, off, count);
  }

  lemma ShapeIs(file: Text, sec: Sections, row: nat, at: nat, shape: seq<Word>, off: Word, count: Word)
    requires sec.cells + Unpack(off) == at && Unpack(count) == |shape| < TOP_BIT - 1 && at + 8 <= |file|
    requires ReadWord(file, row) == Some(off) && ReadWord(file, at) == Some(count) && WordsAt(file, at + 8, shape)
    ensures ReadShape(file, sec, row) == Some(shape)
  {
    CountsAre(count, |shape|);
    WordsRead(file, at + 8, shape);
  }

  lemma RowsShare(file: Text, sec: Sections, m: Image, texts: seq<seq<Text>>, i: nat, j: nat, a: nat, b: nat)
    requires InPlace(file, sec, m) && RowsHold(m, texts) && Shared(m.rows) && i < |m.rows| && j < |m.rows|
    requires a == Position(sec, m, i) && b == Position(sec, m, j)
    ensures ShareIffEqual(file, sec, a, b)
  {
    SharedIffEqual(file, sec, m, texts, i, j);
    ShapeRead(file, sec, m, texts, i, a);
    ShapeRead(file, sec, m, texts, j, b);
  }

  lemma RowCounts(file: Text, sec: Sections, m: Image, texts: seq<seq<Text>>, i: nat, row: nat)
    requires InPlace(file, sec, m) && RowsHold(m, texts) && i < |m.rows| && row == Position(sec, m, i)
    ensures CountsOwn(file, sec, row)
  {
    ShapeRead(file, sec, m, texts, i, row);
    RowSteps(file, sec, m, i, row, texts[i]);
    CountsInRecord(file, sec, m, texts, i, row, m.rows[i].shape);
  }

  /** A row's record counts, second, the words kept with every row that has it: the zeros of
      the shape. */
  lemma CountsInRecord(file: Text, sec: Sections, m: Image, texts: seq<seq<Text>>, i: nat, row: nat, shape: seq<Word>)
    requires InPlace(file, sec, m) && RowsHold(m, texts) && i < |m.rows| && row == Position(sec, m, i) && shape == m.rows[i].shape
    ensures ReadOwnCount(file, sec, row).Some? && Unpack(ReadOwnCount(file, sec, row).value) == Zeros(shape)
    ensures Position(sec, m, i + 1) == row + 4 * (Zeros(shape) + 1)
  {
    assert RowHolds(m, i, texts[i]);
    var e, at, off, count, own := PlacedWords(file, sec, m, i, row);
  }

  /** A row that is read comes back exactly when every one of its strings survives. */
  lemma {:induction false} ExactIffSurvive(texts: seq<Text>)
    ensures |Concat(StoredAll(texts))| <= |Concat(texts)|
    ensures Concat(StoredAll(texts)) == Concat(texts) <==> forall i :: 0 <= i < |texts| ==> Survives(texts[i])
  {
    if texts != [] {
      var n := |texts| - 1;
      var init, last := texts[..n], texts[n];
      ExactIffSurvive(init);
      StoredIsExact(last);
      assert forall i :: 0 <= i < n ==> init[i] == texts[i];
      var a, b := Concat(StoredAll(init)), Concat(init);
      assert StoredAll(texts)[..n] == StoredAll(init);
      assert Concat(StoredAll(texts)) == a + Stored(last) && Concat(texts) == b + last;
      if a + Stored(last) == b + last {
        assert |a| == |b|;
        assert a == (a + Stored(last))[..|a|] == b;
        assert Stored(last) == (a + Stored(last))[|a|..] == last;
      }
    }
  }
}
