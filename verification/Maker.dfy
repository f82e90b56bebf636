/** frf_maker.c: compile a template once, then append one row of words per call. */
module Maker {
  import opened Bytes
  import opened Sequences
  import opened Codec
  import opened Transform
  import opened Evaluator
  import opened Program
  import opened Template
  import opened Streams
  import opened Cells
  import opened Progress

  /** A row's offset in the vector stream, or the process ended: by its own error exit, or
      by an access outside an array or through NULL. */
  datatype Outcome = Done(offset: nat) | Exited | Faulted

  class FrfMaker {
    const t: Template
    ghost const p: Program                // `t` with its tags resolved

    var stringTable: Text                 // the .st file
    var stringTableWritten: nat           // one more than its length
    var uniqueCells: Text                 // the .uc file
    var uniqueCellsWritten: nat
    var vector: Text                      // the .v file
    var vectorWritten: nat
    var numRows: nat

    var stringsLookup: map<Text, nat>
    var uniqCellsLookup: map<seq<Word>, nat>
    var tagLookup: map<Text, Cell>
    var numUniqTags: nat
    var compiled: map<nat, seq<Cell>>     // contents whose is_compiled is set

    ghost var slots: seq<Tag>             // tags in the order of their value_index
    ghost var rows: seq<Emitted>
    ghost var history: seq<Row>           // the field values each row was made from

    // ---- invariants ----

    ghost function View(): Compiler
      reads this`stringTable, this`stringTableWritten, this`stringsLookup
      reads this`tagLookup, this`numUniqTags, this`slots, this`compiled
    {
      Compiler(stringTable, stringTableWritten, stringsLookup, tagLookup, numUniqTags, slots, compiled)
    }

    ghost predicate CompilerOk()
      reads this`stringTable, this`stringTableWritten, this`stringsLookup
      reads this`tagLookup, this`numUniqTags, this`slots, this`compiled
    {
      CompilerGood(t, p, View())
    }

    ghost function OutputView(): Output
      reads this`uniqueCells, this`uniqueCellsWritten, this`vector, this`vectorWritten
      reads this`numRows, this`uniqCellsLookup, this`rows, this`history
    {
      Output(uniqueCells, uniqueCellsWritten, vector, vectorWritten, numRows, uniqCellsLookup, rows, history)
    }

    ghost predicate Valid()
      reads this
    {
      CompilerOk() && OutputGood(p, stringTable, OutputView())
    }

    constructor (t: Template)
      requires WellFormed(Link(t))
      ensures this.t == t && p == Link(t) && Valid()
      ensures compiled == map[] && rows == [] && history == []
    {
      this.t := t;
      p := Link(t);
      stringTable, stringTableWritten := [], 1;
      uniqueCells, uniqueCellsWritten := [], 0;
      vector, vectorWritten := [], 0;
      numRows := 0;
      stringsLookup, uniqCellsLookup, tagLookup := map[], map[], map[];
      numUniqTags, compiled := 0, map[];
      slots, rows, history := [], [], [];
    }

    // ---- strings ----

    /** `full` says whether the cache's arena has passed its limit. */
    method AddToStringTable(str: Text, full: bool) returns (w: Word)
      requires StringsGood(View())
      modifies this`stringTable, this`stringTableWritten, this`stringsLookup
      ensures StringsGood(View())
      ensures old(stringTable) <= stringTable && Denotes(stringTable, w, str)
      ensures var cache := if |str| >= SHORT && full then map[] else old(stringsLookup);
              var append := |str| >= SHORT && (|str| < LONG ==> str !in cache);
              && stringTable == old(stringTable) + (if append then Record(str) else [])
              && stringsLookup == if append && |str| < LONG then cache[str := old(stringTableWritten)] else cache
    {
      if |str| < SHORT {
        w := PackInline(str);
        InlineDenotes(stringTable, str);
        return;
      }
      if full {
        stringsLookup := map[];
      }
      if |str| < LONG && str in stringsLookup {
        w := Pack(stringsLookup[str]);
        CacheHit(stringTable, stringsLookup, str);
      } else {
        ghost var before, cache, written := stringTable, stringsLookup, stringTableWritten;
        w := Pack(stringTableWritten);
        if |str| < LONG {
          stringsLookup := stringsLookup[str := stringTableWritten];
        }
        WriteRecord(str);
        RecordAppended(before, stringTable, str, written);
        CacheGrows(before, stringTable, cache);
        if |str| < LONG {
          CacheAdd(before, stringTable, cache, str);
        }
      }
    }

    method WriteRecord(str: Text)
      requires stringTableWritten == 1 + |stringTable|
      modifies this`stringTable, this`stringTableWritten
      ensures stringTable == old(stringTable) + Record(str) && stringTableWritten == 1 + |stringTable|
    {
      if |str| < LONG {
        stringTable := stringTable + [|str|] + str;
        stringTableWritten := stringTableWritten + 1 + |str|;
      } else {
        var longLen := Pack(LongLength(|str|));
        stringTable := stringTable + Raw(longLen) + str;
        stringTableWritten := stringTableWritten + 4 + |str|;
      }
      assert stringTable == old(stringTable) + Record(str);
    }

    // ---- compiling content ----

    /** The cell of a tag key, if it has one: made earlier, or made now with the next memo
        slot. `ok` is false where the process exits over a key that does not compile. */
    method TagCells(key: Text) returns (ok: bool, cells: seq<Cell>)
      requires TagsGood(t, View())
      modifies this`tagLookup, this`numUniqTags, this`slots
      ensures ok <==> Broken !in KeyItems(t, key)
      ensures old(slots) <= slots
      ensures ok ==>
                && TagsGood(t, View())
                && CellsMatch([], slots, cells, KeyItems(t, key))
                && tagLookup.Keys == old(tagLookup.Keys) + TagKeys(t, key)
    {
      if key in tagLookup {
        ok, cells := true, [tagLookup[key]];
        TagMatches(t, tagLookup, slots, key);
        return;
      }
      ok, cells := NewCell(key);
      if ok && cells != [] {
        AddTag(key, cells[0]);
        TagMatches(t, tagLookup, slots, key);
      }
    }

    method NewCell(key: Text) returns (ok: bool, cells: seq<Cell>)
      ensures ok <==> Broken !in KeyItems(t, key)
      ensures ok ==>
                if Resolve(t, key).Some?
                then |cells| == 1 && TagOk(Tag(key, Resolve(t, key).value), cells[0], numUniqTags)
                else cells == []
    {
      ok, cells := true, [];
      if key in t.env.fields {
        cells := [Cell(Personal(t.env.fields[key]), numUniqTags)];
      } else if key in t.choices {
        cells := [Cell(Dc(key), numUniqTags)];
      } else if OPEN in key {
        match Compile(t.env, key) {
          case Tree(e) => cells := [Cell(Dt(e), numUniqTags)];
          case Empty =>
          case Fatal =>
            assert KeyItems(t, key)[0] == Broken;
            ok := false;
        }
      }
    }

    method AddTag(key: Text, cell: Cell)
      requires TagsGood(t, View()) && key !in tagLookup && Resolve(t, key).Some?
      requires TagOk(Tag(key, Resolve(t, key).value), cell, numUniqTags)
      modifies this`tagLookup, this`numUniqTags, this`slots
      ensures TagsGood(t, View())
      ensures slots == old(slots) + [Tag(key, Resolve(t, key).value)] && tagLookup == old(tagLookup)[key := cell]
    {
      ghost var tag := Tag(key, Resolve(t, key).value);
      TagsAdd(tagLookup, slots, tag, cell);
      numUniqTags := numUniqTags + 1;
      tagLookup := tagLookup[key := cell];
      slots := slots + [tag];
    }

    method StaticCells(str: Text) returns (cells: seq<Cell>)
      requires StringsGood(View())
      modifies this`stringTable, this`stringTableWritten, this`stringsLookup
      ensures StringsGood(View()) && old(stringTable) <= stringTable
      ensures CellsMatch(stringTable, slots, cells, LitItems(str))
    {
      cells := [];
      if |str| > 0 {
        var full: bool := *;
        var w := AddToStringTable(str, full);
        cells := [Cell(Static(w), 0)];
      }
    }

    method PieceCells(piece: Piece) returns (ok: bool, cells: seq<Cell>)
      requires StringsGood(View()) && TagsGood(t, View())
      modifies this`stringTable, this`stringTableWritten, this`stringsLookup
      modifies this`tagLookup, this`numUniqTags, this`slots
      ensures Grown(old(View()), View())
      ensures ok <==> Broken !in PieceItems(t, piece)
      ensures ok ==>
                && StringsGood(View()) && TagsGood(t, View())
                && CellsMatch(stringTable, slots, cells, PieceItems(t, piece))
                && tagLookup.Keys == old(tagLookup.Keys) + TagKeys(t, Expanded(t, piece.key))
    {
      ghost var before := slots;
      var lits := StaticCells(piece.text);
      var key := if piece.key in t.macros then t.macros[piece.key] else piece.key;
      var tags;
      ok, tags := TagCells(key);
      cells := lits + tags;
      if ok {
        MatchGrows([], stringTable, slots, slots, tags, KeyItems(t, key));
        MatchExtend(stringTable, stringTable, before, slots, lits, tags, LitItems(piece.text), KeyItems(t, key));
      }
    }

    method PiecesCells(pieces: seq<Piece>) returns (ok: bool, cells: seq<Cell>)
      requires StringsGood(View()) && TagsGood(t, View())
      modifies this`stringTable, this`stringTableWritten, this`stringsLookup
      modifies this`tagLookup, this`numUniqTags, this`slots
      ensures Grown(old(View()), View())
      ensures ok <==> Broken !in PiecesItems(t, pieces)
      ensures ok ==>
                && StringsGood(View()) && TagsGood(t, View())
                && CellsMatch(stringTable, slots, cells, PiecesItems(t, pieces))
                && tagLookup.Keys == old(tagLookup.Keys) + KeysOf(t, pieces)
    {
      ok, cells := true, [];
      ghost var keys := tagLookup.Keys;
      for i := 0 to |pieces|
        invariant Grown(old(View()), View())
        invariant Compiling(t, keys, View(), cells, pieces, i)
      {
        ghost var c := View();
        var more;
        ok, more := PieceCells(pieces[i]);
        GrownTransitive(old(View()), c, View());
        if !ok {
          PiecesContain(t, pieces, i, Broken);
          return;
        }
        PieceStep(t, keys, c, View(), cells, more, cells + more, pieces, i);
        cells := cells + more;
      }
      PiecesWhole(t, pieces);
      MatchSound(stringTable, slots, cells, PiecesItems(t, pieces));
      ok := true;
    }

    method SourceCells(id: nat) returns (ok: bool, cells: seq<Cell>)
      requires StringsGood(View()) && TagsGood(t, View()) && id < |t.sources|
      modifies this`stringTable, this`stringTableWritten, this`stringsLookup
      modifies this`tagLookup, this`numUniqTags, this`slots
      ensures Grown(old(View()), View())
      ensures ok <==> Broken !in Items(t, id)
      ensures ok ==>
                && StringsGood(View()) && TagsGood(t, View())
                && CellsMatch(stringTable, slots, cells, Items(t, id))
                && tagLookup.Keys == old(tagLookup.Keys) + Keys(t, id)
    {
      var source := t.sources[id];
      ok, cells := PiecesCells(source.pieces);
      if ok {
        ghost var c := View();
        var tail := StaticCells(source.tail);
        GrownTransitive(old(View()), c, View());
        MatchExtend(c.table, stringTable, slots, slots, cells, tail, PiecesItems(t, source.pieces), LitItems(source.tail));
        cells := cells + tail;
        MatchSound(stringTable, slots, cells, Items(t, id));
      }
    }

    /** Compiles one source; the result is kept for every later use. */
    method Precompile(id: nat) returns (ok: bool)
      requires CompilerOk() && id < |t.sources|
      modifies this`stringTable, this`stringTableWritten, this`stringsLookup
      modifies this`tagLookup, this`numUniqTags, this`slots, this`compiled
      ensures Grown(old(View()), View())
      ensures ok <==> Broken !in p.bodies[id]
      ensures ok ==> CompilerOk() && compiled.Keys == old(compiled.Keys) + {id}
      ensures id in old(compiled) ==> View() == old(View())
    {
      ok := true;
      if id in compiled {
        MatchSound(stringTable, slots, compiled[id], p.bodies[id]);
        AlreadyIn(compiled.Keys, id);
      } else {
        ghost var c := View();
        var cells;
        ok, cells := SourceCells(id);
        if ok {
          SourceAdded(t, p, c, View(), id, cells);
          compiled := compiled[id := cells];
        }
      }
    }

    method CompileContent(id: nat) returns (ok: bool, cells: seq<Cell>)
      requires CompilerOk() && id < |t.sources|
      modifies this`stringTable, this`stringTableWritten, this`stringsLookup
      modifies this`tagLookup, this`numUniqTags, this`slots, this`compiled
      ensures Grown(old(View()), View())
      ensures ok <==> Broken !in p.bodies[id]
      ensures ok ==>
                && CompilerOk() && compiled.Keys == old(compiled.Keys) + {id}
                && CellsMatch(stringTable, slots, cells, p.bodies[id])
    {
      cells := [];
      ok := Precompile(id);
      if ok {
        cells := compiled[id];
      }
    }

    /** What frf_maker_init does after loading the template: the body is compiled. */
    method CompileFirst() returns (ok: bool)
      requires Valid()
      modifies this`stringTable, this`stringTableWritten, this`stringsLookup
      modifies this`tagLookup, this`numUniqTags, this`slots, this`compiled
      ensures ok <==> Broken !in p.bodies[BODY]
      ensures ok ==> Valid() && compiled.Keys == old(compiled.Keys) + {BODY}
    {
      ghost var table := stringTable;
      ok := Precompile(BODY);
      OutputGrows(p, table, stringTable, OutputView());
    }

    // ---- shapes ----

    method AddUniqVector(cells: seq<Cell>, vectorCnt: nat, ghost record: Text) returns (off: nat)
      requires uniqueCellsWritten == |uniqueCells|
      requires record == ShapeRecord(ShapeOf(cells), vectorCnt)
      modifies this`uniqueCells, this`uniqueCellsWritten, this`uniqCellsLookup
      ensures uniqueCellsWritten == |uniqueCells|
      ensures ShapeKnown(old(uniqueCells), uniqueCells, old(uniqCellsLookup), uniqCellsLookup, ShapeOf(cells), record, off)
    {
      var key := ShapeKey(cells);
      if key in uniqCellsLookup {
        off := uniqCellsLookup[key];
      } else {
        off := uniqueCellsWritten;
        uniqCellsLookup := uniqCellsLookup[key := off];
        WriteShape(cells, vectorCnt, record);
      }
    }

    method ShapeKey(cells: seq<Cell>) returns (key: seq<Word>)
      ensures key == ShapeOf(cells)
    {
      var words := new Word[|cells|](_ => ZERO);
      for i := 0 to |cells|
        invariant words[..i] == ShapeOf(cells[..i])
      {
        words[i] := if cells[i].kind.Static? then cells[i].kind.word else ZERO;
        ShapeStep(cells, i);
      }
      ShapeWhole(cells);
      key := words[..];
    }

    method WriteShape(cells: seq<Cell>, vectorCnt: nat, ghost record: Text)
      requires uniqueCellsWritten == |uniqueCells|
      requires record == ShapeRecord(ShapeOf(cells), vectorCnt)
      modifies this`uniqueCells, this`uniqueCellsWritten
      ensures uniqueCells == old(uniqueCells) + record
      ensures uniqueCellsWritten == |uniqueCells|
    {
      var cellsWord := Pack(|cells|);
      var vectorWord := Pack(vectorCnt);
      WriteWord(cellsWord);
      WriteWord(vectorWord);
      WriteWords(cells);
    }

    method WriteWords(cells: seq<Cell>)
      requires uniqueCellsWritten == |uniqueCells|
      modifies this`uniqueCells, this`uniqueCellsWritten
      ensures uniqueCells == old(uniqueCells) + RawAll(ShapeOf(cells))
      ensures uniqueCellsWritten == |uniqueCells|
    {
      ghost var done: Text := [];
      for i := 0 to |cells|
        invariant done == RawAll(ShapeOf(cells[..i]))
        invariant uniqueCells == old(uniqueCells) + done
        invariant uniqueCellsWritten == |uniqueCells|
      {
        ShapeStep(cells, i);
        var word := if cells[i].kind.Static? then cells[i].kind.word else ZERO;
        WriteWord(word);
        Associate(old(uniqueCells), done, Raw(word));
        done := done + Raw(word);
      }
      ShapeWhole(cells);
    }

    method WriteWord(w: Word)
      requires uniqueCellsWritten == |uniqueCells|
      modifies this`uniqueCells, this`uniqueCellsWritten
      ensures uniqueCells == old(uniqueCells) + Raw(w) && uniqueCellsWritten == |uniqueCells|
    {
      uniqueCells := uniqueCells + Raw(w);
      uniqueCellsWritten := uniqueCellsWritten + 4;
    }

    // ---- rows ----

    /** The word of a cell that is no choice: its own, the memo's, or a new one. */
    method CellWord(cell: Cell, row: Row, results: array<Word>, ghost item: Item) returns (r: Option<Word>)
      requires StringsGood(View()) && !item.Dynamic?
      requires p.env == t.env
      requires CellMatches(stringTable, slots, cell, item)
      requires MemoOk(p, row, stringTable, slots, results[..])
      modifies this`stringTable, this`stringTableWritten, this`stringsLookup, results
      ensures StringsGood(View()) && old(stringTable) <= stringTable
      ensures MemoOk(p, row, stringTable, slots, results[..])
      ensures r.Some? <==> ItemResult(p, row, item).Value?
      ensures r.Some? ==> Denotes(stringTable, r.value, ItemResult(p, row, item).text)
      ensures cell.kind.Static? ==> r == Some(cell.kind.word)
      ensures cell.kind.Static? || old(results[cell.slot]) != ZERO ==> stringTable == old(stringTable)
      ensures !cell.kind.Static? && old(results[cell.slot]) != ZERO ==> r == Some(old(results[cell.slot]))
      ensures results[..] == if cell.kind.Static? || r.None? then old(results[..]) else old(results[..])[cell.slot := r.value]
    {
      if cell.kind.Static? {
        return Some(cell.kind.word);
      }
      assert SlotOk(p, row, stringTable, slots[cell.slot].item, results[..][cell.slot]);
      if results[cell.slot] != ZERO {
        return Some(results[cell.slot]);
      }
      var value;
      match cell.kind {
        case Personal(offset) => value := if offset < |row| then Value(row[offset]) else Fault;
        case Dt(e) => value := ExecExpression(t.env, e, row);
      }
      if !value.Value? {
        return None;
      }
      var full: bool := *;
      ghost var table, memo := stringTable, results[..];
      var w := AddToStringTable(value.text, full);
      MemoStore(p, row, table, stringTable, slots, memo, cell.slot, w);
      results[cell.slot] := w;
      assert results[..] == memo[cell.slot := w];
      r := Some(w);
    }

    method ChoiceSource(name: Text, row: Row) returns (id: Option<nat>)
      requires WellFormed(p) && p.choices == t.choices
      ensures id == Select(p, row, name)
      ensures id.None? <==> name !in t.choices || t.choices[name].field >= |row|
      ensures id.Some? ==>
                var c := t.choices[name];
                && (row[c.field] in c.alternatives ==> id.value == c.alternatives[row[c.field]])
                && (row[c.field] !in c.alternatives ==> id.value == c.fallback)
    {
      if name !in t.choices || t.choices[name].field >= |row| {
        return None;
      }
      var choice, value := t.choices[name], row[t.choices[name].field];
      id := Some(if value in choice.alternatives then choice.alternatives[value] else choice.fallback);
    }

    /** The cells of a selected source, never none. Tags met for the first time get their
        memo slots cleared; past the end of the memo that is a fault, for the larger copy
        that the source makes of the memo is never put to use. */
    method EnterSource(id: nat, row: Row, results: array<Word>) returns (ok: Outcome, cells: seq<Cell>)
      requires CompilerOk() && MemoOk(p, row, stringTable, slots, results[..]) && id < |t.sources|
      modifies this`stringTable, this`stringTableWritten, this`stringsLookup
      modifies this`tagLookup, this`numUniqTags, this`slots, this`compiled, results
      ensures Grown(old(View()), View())
      ensures ok.Done? <==>
                && p.bodies[id] != [] && Broken !in p.bodies[id]
                && |AllKeys(p, old(compiled.Keys) + {id})| <= results.Length
      ensures ok.Exited? <==> Broken in p.bodies[id]
      ensures ok.Done? ==> Entered(t, p, row, old(View()), View(), old(results[..]), results[..], id, cells)
    {
      var oldTags := numUniqTags;
      ghost var c := View();
      var good;
      good, cells := CompileContent(id);
      if !good {
        return Exited, [];
      }
      var fits := ClearNewSlots(row, results, oldTags, c);
      ok := if !fits || cells == [] then Faulted else Done(0);
    }

    method ClearNewSlots(row: Row, results: array<Word>, oldTags: nat, ghost c: Compiler) returns (fits: bool)
      requires CompilerOk() && Grown(c, View()) && oldTags == |c.slots|
      requires MemoOk(p, row, c.table, c.slots, results[..])
      modifies results
      ensures fits <==> |AllKeys(p, compiled.Keys)| <= results.Length
      ensures fits ==> MemoOk(p, row, stringTable, slots, results[..])
    {
      CountsTags(t, p, View());
      fits := numUniqTags <= results.Length;
      if fits {
        ghost var memo := results[..];
        ClearSlots(results, oldTags, numUniqTags);
        MemoExtend(p, row, c.table, stringTable, c.slots, slots, memo, results[..]);
      }
    }

    method ClearSlots(results: array<Word>, from: nat, to: nat)
      requires from <= to <= results.Length
      modifies results
      ensures forall i :: 0 <= i < results.Length ==> results[i] == if from <= i < to then ZERO else old(results[i])
    {
      for i := from to to
        invariant forall j :: 0 <= j < results.Length ==> results[j] == if from <= j < i then ZERO else old(results[j])
      {
        results[i] := ZERO;
      }
    }

    /** The worklist: one pass over the body's cells, splicing in the cells of each choice. */
    method Expand(row: Row, ghost plan: Plan) returns (ok: Outcome, cells: seq<Cell>, own: seq<Word>)
      requires CompilerOk() && BODY in compiled
      requires plan.row == row && plan.before == compiled.Keys
      requires Trace(p, row, p.bodies[BODY], plan.n) == Some(plan.walk)
      modifies this`stringTable, this`stringTableWritten, this`stringsLookup
      modifies this`tagLookup, this`numUniqTags, this`slots, this`compiled
      ensures Grown(old(View()), View())
      ensures ok.Done? <==> AllReady(p, row, plan.walk) && MemoFits(p, row, plan.before, plan.walk)
      ensures ok.Done? ==>
                && CompilerOk() && compiled.Keys == plan.before + Selected(p, row, plan.walk)
                && Holds(stringTable, ShapeOf(cells), own, CellTexts(p, row, plan.walk)) && |own| == OwnCount(plan.walk)
    {
      var stack := CompileBody();
      var results := NewMemo();
      ghost var w := Worklist(0, stack, p.bodies[BODY]);
      RowStart(t, p, plan, RowState(View(), results[..], w, [], []));
      cells, own := [], [];
      while stack != []
        invariant w.stack == stack && fresh(results)
        invariant Grown(old(View()), View())
        invariant InRow(t, p, plan, RowState(View(), results[..], w, cells, own))
        decreases |plan.walk| - w.d
      {
        ghost var c := View();
        ok, stack, w, cells, own := TakeTurn(row, plan, results, stack, w, cells, own);
        if !ok.Done? {
          return;
        }
        GrownTransitive(old(View()), c, View());
      }
      RowEnd(t, p, plan, RowState(View(), results[..], w, cells, own));
      ok := Done(0);
    }

    /** The body was compiled when the template was loaded. */
    method CompileBody() returns (stack: seq<Cell>)
      requires CompilerOk() && BODY in compiled
      modifies this`stringTable, this`stringTableWritten, this`stringsLookup
      modifies this`tagLookup, this`numUniqTags, this`slots, this`compiled
      ensures Grown(old(View()), View())
      ensures CompilerOk() && compiled.Keys == old(compiled.Keys)
      ensures CellsMatch(stringTable, slots, stack, p.bodies[BODY])
    {
      MatchSound(stringTable, slots, compiled[BODY], p.bodies[BODY]);
      AlreadyIn(compiled.Keys, BODY);
      var good;
      good, stack := CompileContent(BODY);
    }

    method NewMemo() returns (results: array<Word>)
      ensures fresh(results) && results.Length == MemoSlots(numUniqTags)
      ensures forall i :: 0 <= i < numUniqTags ==> results[..][i] == ZERO
    {
      results := new Word[MemoSlots(numUniqTags)];
      ClearSlots(results, 0, numUniqTags);
    }

    method TakeTurn(row: Row, ghost plan: Plan, results: array<Word>, stack: seq<Cell>, ghost w: Worklist,
                    cells: seq<Cell>, own: seq<Word>)
      returns (ok: Outcome, stack': seq<Cell>, ghost w': Worklist, cells': seq<Cell>, own': seq<Word>)
      requires plan.row == row && w.stack == stack && stack != []
      requires InRow(t, p, plan, RowState(View(), results[..], w, cells, own))
      modifies this`stringTable, this`stringTableWritten, this`stringsLookup
      modifies this`tagLookup, this`numUniqTags, this`slots, this`compiled, results
      ensures Grown(old(View()), View()) && w'.stack == stack'
      ensures ok.Done? ==> w'.d == w.d + 1 <= |plan.walk| && InRow(t, p, plan, RowState(View(), results[..], w', cells', own'))
      ensures !ok.Done? ==> !(AllReady(p, row, plan.walk) && MemoFits(p, row, plan.before, plan.walk))
    {
      HeadMatches(t, p, plan, RowState(View(), results[..], w, cells, own));
      if stack[0].kind.Dc? {
        ok, stack', w' := SpliceChoice(row, plan, results, stack, w, cells, own);
        cells', own' := cells, own;
      } else {
        ok, cells', own' := EmitCell(row, plan, results, stack[0], w, cells, own);
        stack', w' := stack[1..], Popped(w);
      }
    }

    method SpliceChoice(row: Row, ghost plan: Plan, results: array<Word>, stack: seq<Cell>, ghost w: Worklist,
                        ghost cells: seq<Cell>, ghost own: seq<Word>)
      returns (ok: Outcome, stack': seq<Cell>, ghost w': Worklist)
      requires plan.row == row && w.stack == stack && stack != [] && stack[0].kind.Dc?
      requires w.items != [] && w.items[0].Dynamic? && w.items[0].name == stack[0].kind.name
      requires InRow(t, p, plan, RowState(View(), results[..], w, cells, own))
      modifies this`stringTable, this`stringTableWritten, this`stringsLookup
      modifies this`tagLookup, this`numUniqTags, this`slots, this`compiled, results
      ensures Grown(old(View()), View()) && w'.stack == stack'
      ensures ok.Done? ==> w'.d == w.d + 1 && InRow(t, p, plan, RowState(View(), results[..], w', cells, own))
      ensures !ok.Done? ==> !(AllReady(p, row, plan.walk) && MemoFits(p, row, plan.before, plan.walk))
    {
      ghost var s := RowState(View(), results[..], w, cells, own);
      stack', w' := stack, w;
      var id := ChoiceSource(stack[0].kind.name, row);
      if id.None? {
        ChoiceStuck(t, p, plan, s);
        return Faulted, stack, w;
      }
      var inner;
      ok, inner := EnterSource(id.value, row, results);
      if ok.Done? {
        stack', w' := inner + stack[1..], Spliced(p, plan, w, inner);
        ChoiceStep(t, p, plan, s, RowState(View(), results[..], w', cells, own), inner);
      } else {
        ChoiceStuck(t, p, plan, s);
      }
    }

    method EmitCell(row: Row, ghost plan: Plan, results: array<Word>, cell: Cell, ghost w: Worklist,
                    cells: seq<Cell>, own: seq<Word>)
      returns (ok: Outcome, cells': seq<Cell>, own': seq<Word>)
      requires plan.row == row && w.stack != [] && w.stack[0] == cell && !cell.kind.Dc?
      requires w.items != [] && !w.items[0].Dynamic? && CellMatches(stringTable, slots, cell, w.items[0])
      requires InRow(t, p, plan, RowState(View(), results[..], w, cells, own))
      modifies this`stringTable, this`stringTableWritten, this`stringsLookup, results
      ensures Grown(old(View()), View())
      ensures ok.Done? ==> InRow(t, p, plan, RowState(View(), results[..], Popped(w), cells', own'))
      ensures !ok.Done? ==> !AllReady(p, row, plan.walk)
    {
      ghost var s := RowState(View(), results[..], w, cells, own);
      var r := CellWord(cell, row, results, w.items[0]);
      if r.None? {
        LeafStuck(t, p, plan, s);
        return Faulted, cells, own;
      }
      ok, cells', own' := Done(0), cells + [cell], if cell.kind.Static? then own else own + [r.value];
      LeafStep(t, p, plan, s, RowState(View(), results[..], Popped(w), cells', own'), r.value);
    }

    /** frf_maker_add: a row is written exactly when every item on its walk is ready and the
        tags it meets fit the memo; nothing already written changes. */
    method Add(row: Row) returns (r: Outcome)
      requires Valid() && BODY in compiled && Finite(p, row)
      modifies this
      ensures r.Done? <==> AllReady(p, row, Walk(p, row)) && MemoFits(p, row, old(compiled.Keys), Walk(p, row))
      ensures r.Done? ==>
                && Valid() && r.offset == |old(vector)| && |vector| == r.offset + 4 + 4 * OwnCount(Walk(p, row))
                && compiled.Keys == old(compiled.Keys) + Selected(p, row, Walk(p, row))
                && history == old(history) + [row]
                && |rows| == |old(rows)| + 1 && old(rows) <= rows
      ensures old(stringTable) <= stringTable && old(uniqueCells) <= uniqueCells && old(vector) <= vector
    {
      ghost var plan := NewPlan(p, row, compiled.Keys);
      var cells, own;
      r, cells, own := ExpandRow(row, plan);
      if !r.Done? {
        return;
      }
      var offset := Commit(row, cells, own);
      r := Done(offset);
    }

    /** Writing a row leaves the compiler's state as it was. */
    method Commit(row: Row, cells: seq<Cell>, own: seq<Word>) returns (offset: nat)
      requires Valid() && Finite(p, row) && AllReady(p, row, Walk(p, row))
      requires Holds(stringTable, ShapeOf(cells), own, CellTexts(p, row, Walk(p, row)))
      modifies this`uniqueCells, this`uniqueCellsWritten, this`uniqCellsLookup
      modifies this`vector, this`vectorWritten, this`numRows, this`rows, this`history
      ensures Valid() && offset == |old(vector)| && history == old(history) + [row]
      ensures |vector| == offset + 4 + 4 * |own|
      ensures |rows| == |old(rows)| + 1 && old(rows) <= rows
      ensures old(uniqueCells) <= uniqueCells && old(vector) <= vector
    {
      offset := WriteRow(row, cells, own);
    }

    /** Expansion leaves the rows that have been written as they were. */
    method ExpandRow(row: Row, ghost plan: Plan) returns (ok: Outcome, cells: seq<Cell>, own: seq<Word>)
      requires Valid() && BODY in compiled && plan.row == row && plan.before == compiled.Keys
      requires Trace(p, row, p.bodies[BODY], plan.n) == Some(plan.walk)
      modifies this`stringTable, this`stringTableWritten, this`stringsLookup
      modifies this`tagLookup, this`numUniqTags, this`slots, this`compiled
      ensures old(stringTable) <= stringTable
      ensures ok.Done? <==> AllReady(p, row, plan.walk) && MemoFits(p, row, plan.before, plan.walk)
      ensures ok.Done? ==>
                && Valid() && compiled.Keys == plan.before + Selected(p, row, plan.walk)
                && Holds(stringTable, ShapeOf(cells), own, CellTexts(p, row, plan.walk)) && |own| == OwnCount(plan.walk)
    {
      ghost var table := stringTable;
      ok, cells, own := Expand(row, plan);
      OutputGrows(p, table, stringTable, OutputView());
    }

    method WriteRow(row: Row, cells: seq<Cell>, own: seq<Word>) returns (offset: nat)
      requires OutputGood(p, stringTable, OutputView())
      requires Finite(p, row) && AllReady(p, row, Walk(p, row))
      requires Holds(stringTable, ShapeOf(cells), own, CellTexts(p, row, Walk(p, row)))
      modifies this`uniqueCells, this`uniqueCellsWritten, this`uniqCellsLookup
      modifies this`vector, this`vectorWritten, this`numRows, this`rows, this`history
      ensures OutputGood(p, stringTable, OutputView()) && OutputGrown(old(OutputView()), OutputView())
      ensures history == old(history) + [row] && |rows| == |old(rows)| + 1 && offset == |old(vector)|
      ensures |vector| == offset + 4 + 4 * |own|
    {
      offset := vectorWritten;
      ghost var o := OutputView();
      ghost var record := ShapeRecord(ShapeOf(cells), |own|);
      var off := AddUniqVector(cells, |own|, record);
      ghost var e := Emitted(off, ShapeOf(cells), own);
      EmitRow(off, own, e, row);
      assert |RowBytes(e)| == 4 + 4 * |own|;
      RowAdded(p, stringTable, o, OutputView(), e, record, row);
    }

    method EmitRow(off: nat, own: seq<Word>, ghost e: Emitted, ghost row: Row)
      requires vectorWritten == |vector| && e.off == off && e.own == own
      modifies this`vector, this`vectorWritten, this`numRows, this`rows, this`history
      ensures vector == old(vector) + RowBytes(e) && vectorWritten == |vector| && numRows == old(numRows) + 1
      ensures rows == old(rows) + [e] && history == old(history) + [row]
    {
      WriteVector(off, own, e);
      numRows := numRows + 1;
      rows, history := rows + [e], history + [row];
    }

    method WriteVector(off: nat, own: seq<Word>, ghost e: Emitted)
      requires vectorWritten == |vector| && e.off == off && e.own == own
      modifies this`vector, this`vectorWritten
      ensures vector == old(vector) + RowBytes(e) && vectorWritten == |vector|
    {
      var offWord := Pack(off);
      vector := vector + Raw(offWord);
      for i := 0 to |own|
        invariant vector == old(vector) + Raw(offWord) + RawAll(own[..i])
        invariant vectorWritten == old(vectorWritten)
      {
        assert own[..i + 1][..i] == own[..i];
        vector := vector + Raw(own[i]);
      }
      assert own[..|own|] == own;
      assert vector == old(vector) + RowBytes(e);
      assert |RowBytes(e)| == 4 + 4 * |own|;
      vectorWritten := vectorWritten + 4 * (|own| + 1);
    }

    /** The four header words, then the three streams. */
    method Finish() returns (file: Text)
      requires stringTableWritten == 1 + |stringTable| && uniqueCellsWritten == |uniqueCells|
      ensures file == FileOf(numRows, stringTable, uniqueCells, vector)
    {
      var uniqueCellsAt := 16 + stringTableWritten - 1;
      var vectorAt := uniqueCellsAt + uniqueCellsWritten;
      var w0 := Pack(numRows);
      var w1 := Pack(16);
      var w2 := Pack(uniqueCellsAt);
      var w3 := Pack(vectorAt);
      var header := Raw(w0) + Raw(w1) + Raw(w2) + Raw(w3);
      assert header == HeaderOf(numRows, |stringTable|, |uniqueCells|);
      file := header + stringTable + uniqueCells + vector;
    }
  }
}
