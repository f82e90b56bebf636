/** From a template and its rows to a file, and back: what a reader gets for a row is what
    the template means on that row. */
module RoundTrip {
  import opened Bytes
  import opened Sequences
  import opened Codec
  import opened Evaluator
  import opened Program
  import opened Template
  import opened Substitution
  import opened Streams
  import opened Cells
  import opened Progress
  import opened Reading
  import opened Maker
  import opened Reader

  // ---- meaning ----

  /** What the direct interpreter makes of the body of a template on a row. */
  ghost function Meaning(p: Program, row: Row): Option<Text>
    requires WellFormed(p) && Finite(p, row)
  {
    var n: nat :| Trace(p, row, p.bodies[BODY], n).Some?;
    Interpret(p, row, p.bodies[BODY], n)
  }

  /** Any bound on nesting that suffices gives the same answer. */
  lemma MeaningIs(p: Program, row: Row, n: nat)
    requires WellFormed(p) && Trace(p, row, p.bodies[BODY], n).Some?
    ensures Finite(p, row) && Interpret(p, row, p.bodies[BODY], n) == Meaning(p, row)
  {
    var m: nat :| Trace(p, row, p.bodies[BODY], m).Some? && Interpret(p, row, p.bodies[BODY], m) == Meaning(p, row);
    TraceDeeper(p, row, p.bodies[BODY], n, n + m);
    TraceDeeper(p, row, p.bodies[BODY], m, n + m);
    InterpretIsTrace(p, row, p.bodies[BODY], n);
    InterpretIsTrace(p, row, p.bodies[BODY], m);
  }

  /** What substituting in the text of the body of a template gives on a row. */
  ghost function TemplateText(t: Template, row: Row): Option<Text>
    requires WellFormed(Link(t)) && Finite(Link(t), row)
  {
    var n: nat :| Trace(Link(t), row, Link(t).bodies[BODY], n).Some?;
    SourceText(t, row, BODY, n)
  }

  lemma MeaningIsTemplateText(t: Template, row: Row)
    requires WellFormed(Link(t)) && Finite(Link(t), row)
    ensures Meaning(Link(t), row) == TemplateText(t, row)
  {
    var p := Link(t);
    var n: nat :| Trace(p, row, p.bodies[BODY], n).Some? && SourceText(t, row, BODY, n) == TemplateText(t, row);
    MeaningIs(p, row, n);
    InterpretSubstitutes(t, row, BODY, n);
  }

  /** The texts of the cells of a row. */
  ghost function RowTexts(p: Program, row: Row): seq<Text>
    requires WellFormed(p) && Finite(p, row)
  {
    CellTexts(p, row, Walk(p, row))
  }

  lemma MeaningIsTexts(p: Program, row: Row)
    requires WellFormed(p) && Finite(p, row)
    ensures AllSound(p, row, Walk(p, row)) ==> Meaning(p, row) == Some(Concat(RowTexts(p, row)))
    ensures !AllSound(p, row, Walk(p, row)) ==> Meaning(p, row) == None
  {
    var n: nat :| Trace(p, row, p.bodies[BODY], n).Some? && Interpret(p, row, p.bodies[BODY], n) == Meaning(p, row);
    WalkIs(p, row, n);
    InterpretIsTrace(p, row, p.bodies[BODY], n);
  }

  // ---- the rows behind a file ----

  /** Each row of the image holds what its template means on that row's values. */
  ghost predicate HistoryHolds(p: Program, m: Image, history: seq<Row>)
    requires WellFormed(p)
  {
    && |history| == |m.rows| && Shared(m.rows)
    && forall i :: 0 <= i < |history| ==> RowMeans(p, m, i, history[i])
  }

  ghost predicate RowMeans(p: Program, m: Image, i: nat, row: Row)
    requires WellFormed(p)
  {
    Finite(p, row) && AllReady(p, row, Walk(p, row)) && RowHolds(m, i, RowTexts(p, row))
  }

  lemma OutputHolds(p: Program, table: Text, o: Output, m: Image)
    requires OutputGood(p, table, o) && Small(table) && m == Image(table, o.uniq, o.rows)
    ensures HistoryHolds(p, m, o.history)
  {
    forall i | 0 <= i < |o.rows|
      ensures RowMeans(p, m, i, o.history[i])
    {
      assert RowOk(p, table, o.shapes, o.rows[i], o.history[i]);
    }
    forall i, j | 0 <= i < |o.rows| && 0 <= j < |o.rows|
      ensures SameRecord(o.rows[i], o.rows[j])
    {
      assert RowOk(p, table, o.shapes, o.rows[i], o.history[i]) && RowOk(p, table, o.shapes, o.rows[j], o.history[j]);
    }
  }

  ghost function AllTexts(p: Program, m: Image, history: seq<Row>): (texts: seq<seq<Text>>)
    requires WellFormed(p) && HistoryHolds(p, m, history)
    ensures RowsHold(m, texts)
    ensures forall i :: 0 <= i < |history| ==> Finite(p, history[i]) && texts[i] == RowTexts(p, history[i])
  {
    assert forall i :: 0 <= i < |history| ==> RowMeans(p, m, i, history[i]);
    seq(|history|, i requires 0 <= i < |history| => RowTextsAt(p, m, i, history[i]))
  }

  ghost function RowTextsAt(p: Program, m: Image, i: nat, row: Row): (texts: seq<Text>)
    requires WellFormed(p) && RowMeans(p, m, i, row)
    ensures RowHolds(m, i, texts) && texts == RowTexts(p, row)
  {
    RowTexts(p, row)
  }

  // ---- a finished file ----

  ghost predicate OffsetsOf(rows: seq<Emitted>, offsets: seq<nat>) {
    |offsets| == |rows| && forall i :: 0 <= i < |rows| ==> offsets[i] == |Layout(rows[..i])|
  }

  /** In `file`, the row at `offset` is the `i`th from the start, and reads as what is stored
      for the texts of which the meaning of `row` is made. */
  ghost predicate Faithful(p: Program, file: Text, i: nat, offset: nat, row: Row)
    requires WellFormed(p) && |file| >= HEADER
  {
    Finite(p, row) && FaithfulTo(file, SectionsOf(file), i, offset, RowTexts(p, row), Meaning(p, row))
  }

  ghost predicate FaithfulTo(file: Text, sec: Sections, i: nat, offset: nat, texts: seq<Text>, meaning: Option<Text>) {
    && Walked(file, sec, i) == Some(sec.vectors + offset) && sec.vectors + offset < |file| && offset < TOP_BIT
    && ReadRow(file, sec, sec.vectors + offset) == Some(StoredAll(texts))
    && meaning == Some(Concat(texts))
  }

  lemma RowIsFaithful(p: Program, file: Text, sec: Sections, m: Image, history: seq<Row>, i: nat, row: Row)
    requires WellFormed(p) && HistoryHolds(p, m, history) && InPlace(file, sec, m)
    requires i < |history| && row == history[i]
    ensures Finite(p, row)
    ensures FaithfulTo(file, sec, i, Offset(m, i), RowTexts(p, row), Meaning(p, row))
  {
    var texts := AllTexts(p, m, history);
    assert RowMeans(p, m, i, row);
    MeaningIsTexts(p, row);
    RowStands(file, sec, m, texts, i, Position(sec, m, i), texts[i]);
  }

  lemma RowStands(file: Text, sec: Sections, m: Image, texts: seq<seq<Text>>, i: nat, at: nat, row: seq<Text>)
    requires InPlace(file, sec, m) && RowsHold(m, texts) && i < |m.rows| && at == Position(sec, m, i) && row == texts[i]
    ensures Walked(file, sec, i) == Some(at) && at < |file| && Offset(m, i) < TOP_BIT
    ensures ReadRow(file, sec, at) == Some(StoredAll(row))
  {
    RowReads(file, sec, m, i, at, row);
    WalkMeetsRows(file, sec, m, texts, i);
    PositionsRise(file, sec, m, i);
  }

  lemma WalkEnds(p: Program, file: Text, sec: Sections, m: Image, history: seq<Row>)
    requires WellFormed(p) && HistoryHolds(p, m, history) && InPlace(file, sec, m)
    ensures Walked(file, sec, |history|) == Some(|file|)
  {
    WalkMeetsRows(file, sec, m, AllTexts(p, m, history), |history|);
    PositionsRise(file, sec, m, |history|);
  }

  /** Every row can be read at its offset and by stepping, and the last step ends the file. */
  ghost predicate Legible(p: Program, rows: seq<Row>, file: Text, offsets: seq<nat>)
    requires WellFormed(p)
  {
    && |file| >= HEADER && Unpack(WordAt(file, 0)) == |rows| == |offsets|
    && (forall i :: 0 <= i < |rows| ==> Faithful(p, file, i, offsets[i], rows[i]))
    && Walked(file, SectionsOf(file), |rows|) == Some(|file|)
  }

  /** Besides, rows share a record exactly when their shapes are equal, and records count right. */
  ghost predicate Complete(p: Program, rows: seq<Row>, file: Text, offsets: seq<nat>)
    requires WellFormed(p)
  {
    Legible(p, rows, file, offsets) && RecordsSound(file, SectionsOf(file), offsets)
  }

  ghost predicate RecordsSound(file: Text, sec: Sections, offsets: seq<nat>) {
    && (forall i, j :: 0 <= i < |offsets| && 0 <= j < |offsets| ==>
          ShareIffEqual(file, sec, sec.vectors + offsets[i], sec.vectors + offsets[j]))
    && forall i :: 0 <= i < |offsets| ==> CountsOwn(file, sec, sec.vectors + offsets[i])
  }

  lemma RecordsAreSound(file: Text, sec: Sections, m: Image, texts: seq<seq<Text>>, offsets: seq<nat>)
    requires InPlace(file, sec, m) && RowsHold(m, texts) && Shared(m.rows) && OffsetsOf(m.rows, offsets)
    ensures RecordsSound(file, sec, offsets)
  {
    forall i, j | 0 <= i < |offsets| && 0 <= j < |offsets|
      ensures ShareIffEqual(file, sec, sec.vectors + offsets[i], sec.vectors + offsets[j])
    {
      PairShares(file, sec, m, texts, offsets, i, j);
    }
    forall i | 0 <= i < |offsets|
      ensures CountsOwn(file, sec, sec.vectors + offsets[i])
    {
      OneCounts(file, sec, m, texts, offsets, i);
    }
  }

  lemma PairShares(file: Text, sec: Sections, m: Image, texts: seq<seq<Text>>, offsets: seq<nat>, i: nat, j: nat)
    requires InPlace(file, sec, m) && RowsHold(m, texts) && Shared(m.rows) && OffsetsOf(m.rows, offsets)
    requires i < |offsets| && j < |offsets|
    ensures ShareIffEqual(file, sec, sec.vectors + offsets[i], sec.vectors + offsets[j])
  {
    RowsShare(file, sec, m, texts, i, j, sec.vectors + offsets[i], sec.vectors + offsets[j]);
  }

  lemma OneCounts(file: Text, sec: Sections, m: Image, texts: seq<seq<Text>>, offsets: seq<nat>, i: nat)
    requires InPlace(file, sec, m) && RowsHold(m, texts) && OffsetsOf(m.rows, offsets) && i < |offsets|
    ensures CountsOwn(file, sec, sec.vectors + offsets[i])
  {
    RowCounts(file, sec, m, texts, i, sec.vectors + offsets[i]);
  }

  lemma FileIsComplete(p: Program, file: Text, m: Image, history: seq<Row>, offsets: seq<nat>)
    requires WellFormed(p) && HistoryHolds(p, m, history) && OffsetsOf(m.rows, offsets) && Laid(file, m)
    ensures Complete(p, history, file, offsets)
  {
    var sec := Where(m);
    LaidInPlace(file, m);
    LaidHeader(file, m);
    WalkEnds(p, file, sec, m, history);
    RecordsAreSound(file, sec, m, AllTexts(p, m, history), offsets);
    forall i | 0 <= i < |history|
      ensures Faithful(p, file, i, offsets[i], history[i])
    {
      RowIsFaithful(p, file, sec, m, history, i, history[i]);
    }
  }

  // ---- a whole run ----

  /** The sources compiled before row `i` is added. */
  ghost function Before(p: Program, rows: seq<Row>, i: nat): set<nat>
    requires WellFormed(p) && i <= |rows| && forall k :: 0 <= k < |rows| ==> Finite(p, rows[k])
  {
    if i == 0 then {BODY} else Before(p, rows, i - 1) + Selected(p, rows[i - 1], Walk(p, rows[i - 1]))
  }

  ghost predicate Accepted(p: Program, rows: seq<Row>, i: nat)
    requires WellFormed(p) && i < |rows| && forall k :: 0 <= k < |rows| ==> Finite(p, rows[k])
  {
    AllReady(p, rows[i], Walk(p, rows[i])) && MemoFits(p, rows[i], Before(p, rows, i), Walk(p, rows[i]))
  }

  /** `i` rows have been accepted; `sources` have been compiled so far. */
  ghost predicate Upto(p: Program, rows: seq<Row>, i: nat, sources: set<nat>, history: seq<Row>)
    requires WellFormed(p) && i <= |rows| && forall k :: 0 <= k < |rows| ==> Finite(p, rows[k])
  {
    sources == Before(p, rows, i) && history == rows[..i] && forall k :: 0 <= k < i ==> Accepted(p, rows, k)
  }

  lemma UptoStep(p: Program, rows: seq<Row>, i: nat, sources: set<nat>, sources': set<nat>, history: seq<Row>, history': seq<Row>)
    requires WellFormed(p) && i < |rows| && forall k :: 0 <= k < |rows| ==> Finite(p, rows[k])
    requires Upto(p, rows, i, sources, history) && Accepted(p, rows, i)
    requires sources' == sources + Selected(p, rows[i], Walk(p, rows[i])) && history' == history + [rows[i]]
    ensures Upto(p, rows, i + 1, sources', history')
  {
  }

  lemma OffsetsAdd(rows: seq<Emitted>, more: seq<Emitted>, offsets: seq<nat>, offset: nat)
    requires OffsetsOf(rows, offsets) && rows <= more && |more| == |rows| + 1 && offset == |Layout(rows)|
    ensures OffsetsOf(more, offsets + [offset])
  {
    forall i | 0 <= i < |more|
      ensures (offsets + [offset])[i] == |Layout(more[..i])|
    {
      assert i < |rows| ==> more[..i] == rows[..i];
      assert i == |rows| ==> more[..i] == rows;
    }
  }

  /** The file with the three streams it was made of, and where the rows are. */
  datatype Published = Written(file: Text, table: Text, uniq: Text, vector: Text, offsets: seq<nat>) | Abandoned

  /** Compiles a template, adds every row, and finishes the file. */
  method Publish(t: Template, rows: seq<Row>) returns (r: Published)
    requires WellFormed(Link(t)) && forall k :: 0 <= k < |rows| ==> Finite(Link(t), rows[k])
    ensures r.Written? <==> Broken !in Link(t).bodies[BODY] && forall i :: 0 <= i < |rows| ==> Accepted(Link(t), rows, i)
    ensures r.Written? ==> r.file == FileOf(|rows|, r.table, r.uniq, r.vector)
    ensures r.Written? && Addressable(r.table, r.uniq, r.vector) ==> Complete(Link(t), rows, r.file, r.offsets)
  {
    var maker := new FrfMaker(t);
    var ok := maker.CompileFirst();
    if !ok {
      return Abandoned;
    }
    var offsets;
    ok, offsets := AddRows(maker, maker.p, rows);
    if !ok {
      return Abandoned;
    }
    var file := Close(maker, maker.p, rows, offsets);
    r := Written(file, maker.stringTable, maker.uniqueCells, maker.vector, offsets);
  }

  method AddRows(maker: FrfMaker, ghost p: Program, rows: seq<Row>) returns (ok: bool, offsets: seq<nat>)
    requires WellFormed(p) && forall k :: 0 <= k < |rows| ==> Finite(p, rows[k])
    requires maker.Valid() && maker.p == p && maker.compiled.Keys == {BODY} && maker.rows == [] && maker.history == []
    modifies maker
    ensures ok <==> forall i :: 0 <= i < |rows| ==> Accepted(p, rows, i)
    ensures ok ==> maker.Valid() && maker.history == rows && OffsetsOf(maker.rows, offsets)
  {
    ok, offsets := true, [];
    for i := 0 to |rows|
      invariant maker.Valid() && BODY in maker.compiled
      invariant Upto(p, rows, i, maker.compiled.Keys, maker.history) && OffsetsOf(maker.rows, offsets)
    {
      ghost var before, sources, history := maker.rows, maker.compiled.Keys, maker.history;
      var r := maker.Add(rows[i]);
      if !r.Done? {
        assert !Accepted(p, rows, i);
        return false, offsets;
      }
      UptoStep(p, rows, i, sources, maker.compiled.Keys, history, maker.history);
      OffsetsAdd(before, maker.rows, offsets, r.offset);
      offsets := offsets + [r.offset];
    }
  }

  method Close(maker: FrfMaker, ghost p: Program, rows: seq<Row>, offsets: seq<nat>) returns (file: Text)
    requires maker.Valid() && maker.p == p && maker.history == rows && OffsetsOf(maker.rows, offsets)
    ensures file == FileOf(|rows|, maker.stringTable, maker.uniqueCells, maker.vector)
    ensures Addressable(maker.stringTable, maker.uniqueCells, maker.vector) ==> Complete(p, rows, file, offsets)
  {
    file := maker.Finish();
    if Addressable(maker.stringTable, maker.uniqueCells, maker.vector) {
      ghost var m := Image(maker.stringTable, maker.uniqueCells, maker.rows);
      OutputHolds(p, maker.stringTable, maker.OutputView(), m);
      FileIsComplete(p, file, m, rows, offsets);
    }
  }

  // ---- back again ----

  /** A row as a reader renders it. */
  function Rendering(file: Text, at: int): Option<Text>
    requires |file| >= HEADER
  {
    match ReadRow(file, SectionsOf(file), at)
    case None => None
    case Some(texts) => if |texts| <= IOV_MAX then Some(Concat(texts)) else None
  }

  /** Renders the current row into a buffer of the size that it asks for. */
  method RenderCurrent(frf: Frf) returns (text: Text)
    requires frf.Valid() && frf.Readable()
    modifies frf.context, frf.context.repr
    ensures frf.Valid() && fresh(frf.context.repr - old(frf.context.repr))
    ensures text == Concat(frf.Texts())
  {
    var size := frf.GetRenderSize();
    var buf := new byte[size];
    ghost var k;
    var written;
    written, k := frf.RenderToBuffer(buf, size);
    FitsIff(frf.Texts(), size, k);
    ConcatShorter(frf.Texts(), k);
    text := buf[..];
  }

  /** Opens a file, seeks to an offset and renders. */
  method FetchAt(file: Text, offset: nat) returns (text: Text)
    requires |file| >= HEADER && Rendering(file, SectionsOf(file).vectors + offset).Some?
    ensures Some(text) == Rendering(file, SectionsOf(file).vectors + offset)
  {
    var frf := new Frf(file);
    var r := frf.Seek(offset);
    text := RenderCurrent(frf);
  }

  /** Opens a file, steps to row `i` and renders. */
  method FetchNth(file: Text, i: nat) returns (text: Text, offset: nat)
    requires |file| >= HEADER && Walked(file, SectionsOf(file), i).Some?
    requires Rendering(file, Walked(file, SectionsOf(file), i).value).Some?
    ensures Some(text) == Rendering(file, Walked(file, SectionsOf(file), i).value)
    ensures offset == Distance(Walked(file, SectionsOf(file), i).value, SectionsOf(file).vectors)
  {
    var frf := new Frf(file);
    for k := 0 to i
      invariant frf.Valid() && fresh(frf) && fresh(frf.context) && fresh(frf.context.repr)
      invariant Walked(file, frf.sec, k) == Some(frf.rowPtr)
    {
      WalkedBefore(file, frf.sec, k + 1, i);
      var more := frf.Next();
    }
    text := RenderCurrent(frf);
    offset := frf.GetOffset();
  }

  lemma {:induction false} WalkedBefore(file: Text, sec: Sections, i: nat, n: nat)
    requires i <= n && Walked(file, sec, n).Some?
    ensures Walked(file, sec, i).Some?
  {
    if i < n {
      var before := Walked(file, sec, n - 1);
      assert before.Some?;
      WalkedBefore(file, sec, i, n - 1);
    }
  }

  /** Stepping to row `i` and seeking to the offset that adding it returned lead to the same
      rendering, which is the interpreter's answer exactly when the row's strings survive. */
  lemma FetchedIsMeaning(p: Program, file: Text, i: nat, offset: nat, row: Row, at: nat)
    requires WellFormed(p) && |file| >= HEADER && Faithful(p, file, i, offset, row) && at == SectionsOf(file).vectors + offset
    ensures Walked(file, SectionsOf(file), i) == Some(at) && Distance(at, SectionsOf(file).vectors) == offset
    ensures Exact(file, at, RowTexts(p, row), Meaning(p, row))
  {
    DistanceIs(at, SectionsOf(file).vectors, offset);
    RenderingIs(file, at, RowTexts(p, row), Meaning(p, row));
  }

  /** A row of at most IOV_MAX cells renders, as `meaning` exactly when all its texts survive. */
  ghost predicate Exact(file: Text, at: int, texts: seq<Text>, meaning: Option<Text>)
    requires |file| >= HEADER
  {
    if |texts| <= IOV_MAX
    then Rendering(file, at).Some? && (Rendering(file, at) == meaning <==> forall k :: 0 <= k < |texts| ==> Survives(texts[k]))
    else Rendering(file, at).None?
  }

  lemma RenderingIs(file: Text, at: int, texts: seq<Text>, meaning: Option<Text>)
    requires |file| >= HEADER && ReadRow(file, SectionsOf(file), at) == Some(StoredAll(texts)) && meaning == Some(Concat(texts))
    ensures Exact(file, at, texts, meaning)
  {
    ExactIffSurvive(texts);
  }

  /** From a template and its rows to a file and back: `sought` and `stepped` are row `i` as it
      is rendered at its offset and after `i` steps. On addressable streams and at most IOV_MAX
      cells they are the same, and the interpreter's answer exactly when every string survives. */
  method PublishAndFetch(t: Template, rows: seq<Row>, i: nat) returns (r: Published, sought: Text, stepped: Text)
    requires WellFormed(Link(t)) && forall k :: 0 <= k < |rows| ==> Finite(Link(t), rows[k])
    requires i < |rows|
    ensures r.Written? <==> Broken !in Link(t).bodies[BODY] && forall k :: 0 <= k < |rows| ==> Accepted(Link(t), rows, k)
    ensures r.Written? && Addressable(r.table, r.uniq, r.vector) && |RowTexts(Link(t), rows[i])| <= IOV_MAX ==>
              && sought == stepped && FetchedRight(Link(t), rows[i], sought)
              && Meaning(Link(t), rows[i]) == TemplateText(t, rows[i])
  {
    sought, stepped := [], [];
    r := Publish(t, rows);
    MeaningIsTemplateText(t, rows[i]);
    if r.Written? && |r.file| >= HEADER && i < |r.offsets| {
      sought, stepped := FetchBoth(r.file, i, r.offsets[i]);
      if Addressable(r.table, r.uniq, r.vector) {
        CompleteRight(Link(t), rows, r.file, r.offsets, i, sought, stepped);
      }
    }
  }

  ghost predicate FetchedRight(p: Program, row: Row, text: Text)
    requires WellFormed(p) && Finite(p, row)
  {
    Some(text) == Meaning(p, row) <==> forall k :: 0 <= k < |RowTexts(p, row)| ==> Survives(RowTexts(p, row)[k])
  }

  ghost predicate FetchedFrom(file: Text, sec: Sections, i: nat, offset: nat, sought: Text, stepped: Text)
    requires |file| >= HEADER
  {
    && (Rendering(file, sec.vectors + offset).Some? ==> Some(sought) == Rendering(file, sec.vectors + offset))
    && (Walked(file, sec, i).Some? && Rendering(file, Walked(file, sec, i).value).Some? ==>
          Some(stepped) == Rendering(file, Walked(file, sec, i).value))
  }

  /** What can be rendered at the offset and after `i` steps. */
  method FetchBoth(file: Text, i: nat, offset: nat) returns (sought: Text, stepped: Text)
    requires |file| >= HEADER
    ensures FetchedFrom(file, SectionsOf(file), i, offset, sought, stepped)
  {
    sought, stepped := [], [];
    if Rendering(file, SectionsOf(file).vectors + offset).Some? {
      sought := FetchAt(file, offset);
    }
    var at := Walked(file, SectionsOf(file), i);
    if at.Some? && Rendering(file, at.value).Some? {
      var where;
      stepped, where := FetchNth(file, i);
    }
  }

  lemma CompleteRight(p: Program, rows: seq<Row>, file: Text, offsets: seq<nat>, i: nat, sought: Text, stepped: Text)
    requires WellFormed(p) && Complete(p, rows, file, offsets) && i < |rows|
    requires FetchedFrom(file, SectionsOf(file), i, offsets[i], sought, stepped)
    ensures Finite(p, rows[i])
    ensures |RowTexts(p, rows[i])| <= IOV_MAX ==> sought == stepped && FetchedRight(p, rows[i], sought)
  {
    assert Faithful(p, file, i, offsets[i], rows[i]);
    BothRight(p, file, i, offsets[i], rows[i], sought, stepped, SectionsOf(file).vectors + offsets[i]);
  }

  lemma BothRight(p: Program, file: Text, i: nat, offset: nat, row: Row, sought: Text, stepped: Text, at: nat)
    requires WellFormed(p) && |file| >= HEADER && Faithful(p, file, i, offset, row) && at == SectionsOf(file).vectors + offset
    requires FetchedFrom(file, SectionsOf(file), i, offset, sought, stepped)
    ensures |RowTexts(p, row)| <= IOV_MAX ==> sought == stepped && FetchedRight(p, row, sought)
  {
    FetchedIsMeaning(p, file, i, offset, row, at);
  }

  /** frf_next answers 1 on every row of a file, the last included: it lands on the end of
      the file, which it does not tell apart from a row. */
  lemma NextNeverStops(p: Program, rows: seq<Row>, file: Text, offsets: seq<nat>, i: nat, at: int)
    requires WellFormed(p) && Legible(p, rows, file, offsets) && i < |rows|
    requires Walked(file, SectionsOf(file), i) == Some(at)
    ensures NextRow(file, SectionsOf(file), at).Some? && NextRow(file, SectionsOf(file), at).value <= |file|
    ensures NextRow(file, SectionsOf(file), at) == Some(|file|) <==> i + 1 == |rows|
  {
    WalkedStep(file, SectionsOf(file), i, at);
    var next := Walked(file, SectionsOf(file), i + 1);
    if i + 1 < |rows| {
      assert Faithful(p, file, i + 1, offsets[i + 1], rows[i + 1]);
      assert next.Some? && next.value < |file|;
    }
  }

  lemma WalkedStep(file: Text, sec: Sections, i: nat, at: int)
    requires Walked(file, sec, i) == Some(at)
    ensures Walked(file, sec, i + 1) == NextRow(file, sec, at)
  {
  }

  // ---- strings ----

  /** Whenever the cache is dropped on the way, every word returned denotes its string in
      the table that is left in the end. */
  method StoreAll(maker: FrfMaker, strs: seq<Text>, drops: seq<bool>) returns (words: seq<Word>)
    requires StringsGood(maker.View()) && |drops| == |strs|
    modifies maker`stringTable, maker`stringTableWritten, maker`stringsLookup
    ensures StringsGood(maker.View()) && old(maker.stringTable) <= maker.stringTable
    ensures AllDenote(maker.stringTable, words, strs)
  {
    words := [];
    for i := 0 to |strs|
      invariant StringsGood(maker.View()) && old(maker.stringTable) <= maker.stringTable
      invariant AllDenote(maker.stringTable, words, strs[..i])
    {
      ghost var table := maker.stringTable;
      var w := maker.AddToStringTable(strs[i], drops[i]);
      AllDenoteStep(table, maker.stringTable, words, strs[..i], w, strs[i]);
      PrefixTransitive(old(maker.stringTable), table, maker.stringTable);
      assert strs[..i + 1] == strs[..i] + [strs[i]];
      words := words + [w];
    }
    assert strs[..|strs|] == strs;
  }
}
