/** One row on its way through the worklist of frf_maker_add. */
module Progress {
  import opened Bytes
  import opened Codec
  import opened Evaluator
  import opened Program
  import opened Template
  import opened Streams
  import opened Cells
  import Arena

  // ---- what a row needs ----

  /** The item has a string; a choice selects a source that compiles to at least one cell. */
  predicate Ready(p: Program, row: Row, item: Item)
    requires WellFormed(p)
  {
    Sound(p, row, item) && (item.Dynamic? ==> p.bodies[Select(p, row, item.name).value] != [])
  }

  ghost predicate AllReady(p: Program, row: Row, walk: seq<Item>)
    requires WellFormed(p)
  {
    forall i :: 0 <= i < |walk| ==> Ready(p, row, walk[i])
  }

  /** The sources that the choices of a walk select. */
  ghost function Selected(p: Program, row: Row, walk: seq<Item>): set<nat>
    requires WellFormed(p)
  {
    set i | 0 <= i < |walk| && walk[i].Dynamic? && Select(p, row, walk[i].name).Some?
          :: Select(p, row, walk[i].name).value
  }

  /** Memo slots in the block that a request for `n` 4-byte slots is given. */
  function MemoSlots(n: nat): (m: nat)
    ensures n <= m < n + 4
  {
    Arena.RoundUp(4 * n) / 4
  }

  /** The memo fills the block that any context hands out for `n` slots, down to the last byte. */
  lemma MemoIsBlock(c: Arena.Context, live: seq<Arena.Block>, n: nat)
    requires Arena.Safe(c, live)
    ensures var r := Arena.Grow(c, 4 * n);
            && Arena.RoundUp(4 * n) <= r.chunks[|r.chunks| - 1].top
            && Arena.Safe(r, live + [Arena.Given(r, 4 * n)])
            && 4 * MemoSlots(n) == Arena.Given(r, 4 * n).size
    ensures MemoSlots(n) % 4 == 0
  {
    Arena.GrowIsSafe(c, live, 4 * n);
  }

  /** The tags of the sources this row selects fit in the memo sized before the row. */
  ghost predicate MemoFits(p: Program, row: Row, compiled: set<nat>, walk: seq<Item>)
    requires WellFormed(p)
  {
    |AllKeys(p, compiled + Selected(p, row, walk))| <= MemoSlots(|AllKeys(p, compiled)|)
  }

  // ---- the memo ----

  /** A memo slot is zero or holds the word of its tag's string on this row. */
  ghost predicate MemoOk(p: Program, row: Row, table: Text, slots: seq<Tag>, memo: seq<Word>) {
    |slots| <= |memo| && forall i :: 0 <= i < |slots| ==> SlotOk(p, row, table, slots[i].item, memo[i])
  }

  predicate SlotOk(p: Program, row: Row, table: Text, item: Item, w: Word) {
    w == ZERO || (ItemResult(p, row, item).Value? && Denotes(table, w, ItemResult(p, row, item).text))
  }

  lemma MemoGrows(p: Program, row: Row, table: Text, longer: Text, slots: seq<Tag>, memo: seq<Word>)
    requires table <= longer && MemoOk(p, row, table, slots, memo)
    ensures MemoOk(p, row, longer, slots, memo)
  {
    forall i | 0 <= i < |slots|
      ensures SlotOk(p, row, longer, slots[i].item, memo[i])
    {
      assert SlotOk(p, row, table, slots[i].item, memo[i]);
      if memo[i] != ZERO {
        DenotesGrows(table, longer, memo[i], ItemResult(p, row, slots[i].item).text);
      }
    }
  }

  /** The memo after tags met for the first time had their slots cleared. */
  lemma MemoExtend(p: Program, row: Row, table: Text, longer: Text, slots: seq<Tag>, more: seq<Tag>, memo: seq<Word>, cleared: seq<Word>)
    requires table <= longer && slots <= more && MemoOk(p, row, table, slots, memo)
    requires |cleared| == |memo| >= |more|
    requires forall i :: 0 <= i < |memo| ==> cleared[i] == if |slots| <= i < |more| then ZERO else memo[i]
    ensures MemoOk(p, row, longer, more, cleared)
  {
    MemoGrows(p, row, table, longer, slots, memo);
    forall i | 0 <= i < |more|
      ensures SlotOk(p, row, longer, more[i].item, cleared[i])
    {
      assert i < |slots| ==> SlotOk(p, row, longer, slots[i].item, memo[i]);
    }
  }

  /** The memo after slot `i` got the word of its tag's string. */
  lemma MemoStore(p: Program, row: Row, table: Text, longer: Text, slots: seq<Tag>, memo: seq<Word>, i: nat, w: Word)
    requires table <= longer && MemoOk(p, row, table, slots, memo)
    requires i < |slots| && SlotOk(p, row, longer, slots[i].item, w)
    ensures MemoOk(p, row, longer, slots, memo[i := w])
  {
    MemoGrows(p, row, table, longer, slots, memo);
  }

  // ---- the shape of the cells so far ----

  function WordOf(cell: Cell): Word {
    if cell.kind.Static? then cell.kind.word else ZERO
  }

  /** The words a shape records for these cells. */
  function ShapeOf(cells: seq<Cell>): (s: seq<Word>)
    ensures |s| == |cells|
  {
    if cells == [] then []
    else ShapeOf(cells[..|cells| - 1]) + [WordOf(cells[|cells| - 1])]
  }

  lemma ShapeAppend(cells: seq<Cell>, cell: Cell)
    ensures ShapeOf(cells + [cell]) == ShapeOf(cells) + [WordOf(cell)]
  {
    assert (cells + [cell])[..|cells|] == cells;
  }

  lemma ShapeStep(cells: seq<Cell>, i: nat)
    requires i < |cells|
    ensures ShapeOf(cells[..i + 1]) == ShapeOf(cells[..i]) + [WordOf(cells[i])]
    ensures RawAll(ShapeOf(cells[..i + 1])) == RawAll(ShapeOf(cells[..i])) + Raw(WordOf(cells[i]))
  {
    assert cells[..i + 1] == cells[..i] + [cells[i]];
    ShapeAppend(cells[..i], cells[i]);
    var longer := ShapeOf(cells[..i]) + [WordOf(cells[i])];
    assert longer[..i] == ShapeOf(cells[..i]);
  }

  lemma ShapeWhole(cells: seq<Cell>)
    ensures ShapeOf(cells[..|cells|]) == ShapeOf(cells)
  {
    assert cells[..|cells|] == cells;
  }

  // ---- along the walk ----

  /** The row being added: its values, the sources compiled before it, and its whole walk. */
  datatype Plan = Plan(row: Row, before: set<nat>, n: nat, walk: seq<Item>)

  ghost function NewPlan(p: Program, row: Row, before: set<nat>): (plan: Plan)
    requires WellFormed(p) && Finite(p, row)
    ensures plan.row == row && plan.before == before && plan.walk == Walk(p, row)
    ensures Trace(p, row, p.bodies[BODY], plan.n) == Some(plan.walk)
  {
    var n: nat :| Trace(p, row, p.bodies[BODY], n).Some?;
    WalkIs(p, row, n);
    Plan(row, before, n, Walk(p, row))
  }

  /** The worklist with what it stands for, and how much of the walk is done. */
  datatype Worklist = Worklist(d: nat, stack: seq<Cell>, items: seq<Item>)

  ghost predicate OnWalk(p: Program, plan: Plan, d: nat, items: seq<Item>) {
    WellFormed(p) && d <= |plan.walk| && Trace(p, plan.row, items, plan.n) == Some(plan.walk[d..])
  }

  lemma LeafAhead(p: Program, plan: Plan, d: nat, items: seq<Item>)
    requires OnWalk(p, plan, d, items) && items != [] && !items[0].Dynamic?
    ensures d < |plan.walk| && plan.walk[d] == items[0] && OnWalk(p, plan, d + 1, items[1..])
  {
    var inner, rest := TraceInner(p, plan.row, items[0], plan.n), Trace(p, plan.row, items[1..], plan.n);
    assert plan.walk[d..] == [items[0]] + inner.value + rest.value;
    assert plan.walk[d..][0] == items[0];
    assert plan.walk[d..][1..] == plan.walk[d + 1..] == rest.value;
  }

  lemma ChoiceAhead(p: Program, plan: Plan, d: nat, items: seq<Item>)
    requires OnWalk(p, plan, d, items) && items != [] && items[0].Dynamic?
    ensures d < |plan.walk| && plan.walk[d] == items[0]
    ensures var id := Select(p, plan.row, items[0].name);
            id.Some? ==> OnWalk(p, plan, d + 1, p.bodies[id.value] + items[1..])
  {
    var inner, rest := TraceInner(p, plan.row, items[0], plan.n), Trace(p, plan.row, items[1..], plan.n);
    assert plan.walk[d..] == [items[0]] + inner.value + rest.value;
    assert plan.walk[d..][0] == items[0];
    assert plan.walk[d..][1..] == plan.walk[d + 1..];
    if Select(p, plan.row, items[0].name).Some? {
      Splice(p, plan.row, items, plan.n);
    }
  }

  lemma ReadyStep(p: Program, row: Row, walk: seq<Item>, d: nat)
    requires WellFormed(p) && d < |walk| && AllReady(p, row, walk[..d]) && Ready(p, row, walk[d])
    ensures AllReady(p, row, walk[..d + 1])
    ensures CellTexts(p, row, walk[..d + 1])
         == CellTexts(p, row, walk[..d]) + (if walk[d].Dynamic? then [] else [ItemResult(p, row, walk[d]).text])
  {
    var after := walk[..d + 1];
    assert after[..d] == walk[..d] && after[d] == walk[d];
    assert forall i :: 0 <= i < d ==> after[i] == walk[..d][i];
  }

  lemma SelectedStep(p: Program, row: Row, walk: seq<Item>, d: nat)
    requires WellFormed(p) && d < |walk|
    ensures Selected(p, row, walk[..d + 1])
         == Selected(p, row, walk[..d]) + (if walk[d].Dynamic? && Select(p, row, walk[d].name).Some?
                                            then {Select(p, row, walk[d].name).value} else {})
    ensures Selected(p, row, walk[..d + 1]) <= Selected(p, row, walk)
  {
    var before, after := walk[..d], walk[..d + 1];
    assert forall i :: 0 <= i < d ==> before[i] == walk[i];
    assert forall i :: 0 <= i < d + 1 ==> after[i] == walk[i];
    forall id | id in Selected(p, row, after)
      ensures id in Selected(p, row, before) || (walk[d].Dynamic? && Select(p, row, walk[d].name) == Some(id))
    {
      var i :| 0 <= i < |after| && after[i].Dynamic? && Select(p, row, after[i].name) == Some(id);
      assert i < d ==> before[i] == after[i];
    }
    forall id | id in Selected(p, row, before)
      ensures id in Selected(p, row, after)
    {
      var i :| 0 <= i < |before| && before[i].Dynamic? && Select(p, row, before[i].name) == Some(id);
      assert after[i] == before[i];
    }
  }

  lemma SelectedChoice(p: Program, plan: Plan, d: nat)
    requires WellFormed(p) && d < |plan.walk| && plan.walk[d].Dynamic?
    requires Select(p, plan.row, plan.walk[d].name).Some?
    ensures plan.before + Selected(p, plan.row, plan.walk[..d + 1])
         == plan.before + Selected(p, plan.row, plan.walk[..d]) + {Select(p, plan.row, plan.walk[d].name).value}
  {
    SelectedStep(p, plan.row, plan.walk, d);
  }

  // ---- the state between two turns ----

  /** A row on its way: the compiler, the memo, the worklist, and what has been laid out so far. */
  datatype RowState = RowState(c: Compiler, memo: seq<Word>, w: Worklist, cells: seq<Cell>, own: seq<Word>)

  /** Worklist and compiled cells agree, and the memo is right. */
  ghost predicate Ahead(t: Template, p: Program, plan: Plan, s: RowState) {
    && CompilerGood(t, p, s.c)
    && OnWalk(p, plan, s.w.d, s.w.items)
    && CellsMatch(s.c.table, s.c.slots, s.w.stack, s.w.items)
    && MemoOk(p, plan.row, s.c.table, s.c.slots, s.memo)
  }

  /** What the part of the walk that is done has left behind. */
  ghost predicate Behind(p: Program, plan: Plan, s: RowState) {
    && WellFormed(p) && s.w.d <= |plan.walk|
    && AllReady(p, plan.row, plan.walk[..s.w.d])
    && Holds(s.c.table, ShapeOf(s.cells), s.own, CellTexts(p, plan.row, plan.walk[..s.w.d]))
    && s.c.compiled.Keys == plan.before + Selected(p, plan.row, plan.walk[..s.w.d])
  }

  /** How many words of its own a row has for these items: one for every field and expression. */
  function OwnCount(items: seq<Item>): nat {
    if items == [] then 0
    else
      var last := items[|items| - 1];
      OwnCount(items[..|items| - 1]) + if last.Field? || last.Transformed? then 1 else 0
  }

  lemma OwnCountStep(items: seq<Item>, d: nat)
    requires d < |items|
    ensures OwnCount(items[..d + 1]) == OwnCount(items[..d]) + if items[d].Field? || items[d].Transformed? then 1 else 0
  {
    assert items[..d + 1][..d] == items[..d];
  }

  /** The row's own words so far are one for every field and expression met. */
  ghost predicate OwnCounted(plan: Plan, s: RowState) {
    s.w.d <= |plan.walk| && |s.own| == OwnCount(plan.walk[..s.w.d])
  }

  /** The memo is as long as it was made, and long enough so far. */
  ghost predicate Roomy(p: Program, plan: Plan, s: RowState) {
    |s.memo| == MemoSlots(|AllKeys(p, plan.before)|) && |AllKeys(p, s.c.compiled.Keys)| <= |s.memo|
  }

  /** What holds between two turns. */
  ghost predicate InRow(t: Template, p: Program, plan: Plan, s: RowState) {
    Ahead(t, p, plan, s) && Behind(p, plan, s) && Roomy(p, plan, s) && OwnCounted(plan, s)
  }

  lemma RowStart(t: Template, p: Program, plan: Plan, s: RowState)
    requires CompilerGood(t, p, s.c) && s.c.compiled.Keys == plan.before
    requires CellsMatch(s.c.table, s.c.slots, s.w.stack, p.bodies[BODY])
    requires Trace(p, plan.row, p.bodies[BODY], plan.n) == Some(plan.walk)
    requires |s.memo| == MemoSlots(s.c.count) && forall i :: 0 <= i < s.c.count ==> s.memo[i] == ZERO
    requires s.w.d == 0 && s.w.items == p.bodies[BODY] && s.cells == [] && s.own == []
    ensures InRow(t, p, plan, s)
  {
    assert plan.walk[0..] == plan.walk && plan.walk[..0] == [];
    CountsTags(t, p, s.c);
  }

  lemma HeadMatches(t: Template, p: Program, plan: Plan, s: RowState)
    requires Ahead(t, p, plan, s) && s.w.stack != []
    ensures s.w.items != [] && CellMatches(s.c.table, s.c.slots, s.w.stack[0], s.w.items[0])
    ensures s.w.stack[0].kind.Dc? <==> s.w.items[0].Dynamic?
    ensures s.w.items[0].Dynamic? ==> s.w.stack[0].kind.name == s.w.items[0].name
    ensures s.w.d < |plan.walk| && plan.walk[s.w.d] == s.w.items[0]
  {
    assert CellMatches(s.c.table, s.c.slots, s.w.stack[0], s.w.items[0]);
    if s.w.items[0].Dynamic? {
      ChoiceAhead(p, plan, s.w.d, s.w.items);
    } else {
      LeafAhead(p, plan, s.w.d, s.w.items);
    }
  }

  // ---- a cell is consumed ----

  function Popped(w: Worklist): Worklist
    requires w.stack != [] && w.items != []
  {
    Worklist(w.d + 1, w.stack[1..], w.items[1..])
  }

  /** `s'` is `s` with the first cell of the worklist laid out, as `word`. */
  ghost predicate LaidOut(p: Program, row: Row, s: RowState, s': RowState, word: Word) {
    && s.w.stack != [] && s.w.items != [] && !s.w.items[0].Dynamic?
    && ItemResult(p, row, s.w.items[0]).Value?
    && Denotes(s'.c.table, word, ItemResult(p, row, s.w.items[0]).text)
    && (s.w.stack[0].kind.Static? ==> s.w.stack[0].kind.word == word)
    && s'.w == Popped(s.w) && s'.cells == s.cells + [s.w.stack[0]]
    && s'.own == if s.w.stack[0].kind.Static? then s.own else s.own + [word]
  }

  /** What adding strings and filling memo slots may change. */
  ghost predicate StringsOnly(p: Program, row: Row, s: RowState, s': RowState) {
    && s'.c == s.c.(table := s'.c.table, written := s'.c.written, cache := s'.c.cache)
    && StringsGood(s'.c) && s.c.table <= s'.c.table
    && MemoOk(p, row, s'.c.table, s'.c.slots, s'.memo) && |s'.memo| == |s.memo|
  }

  lemma LeafStepAhead(t: Template, p: Program, plan: Plan, s: RowState, s': RowState)
    requires Ahead(t, p, plan, s) && s.w.stack != [] && s.w.items != []
    requires StringsOnly(p, plan.row, s, s') && s'.w == Popped(s.w) && OnWalk(p, plan, s'.w.d, s'.w.items)
    ensures Ahead(t, p, plan, s')
  {
    StringsGrow(t, p, s.c, s'.c);
    MatchGrows(s.c.table, s'.c.table, s.c.slots, s.c.slots, s.w.stack, s.w.items);
  }

  /** An item with a string brings that string and selects nothing. */
  lemma LeafDone(p: Program, row: Row, walk: seq<Item>, d: nat, text: Text)
    requires WellFormed(p) && d < |walk| && AllReady(p, row, walk[..d])
    requires !walk[d].Dynamic? && ItemResult(p, row, walk[d]) == Value(text)
    ensures AllReady(p, row, walk[..d + 1])
    ensures CellTexts(p, row, walk[..d + 1]) == CellTexts(p, row, walk[..d]) + [text]
    ensures Selected(p, row, walk[..d + 1]) == Selected(p, row, walk[..d])
  {
    ReadyStep(p, row, walk, d);
    SelectedStep(p, row, walk, d);
  }

  lemma LeafStepBehind(p: Program, plan: Plan, s: RowState, s': RowState, word: Word)
    requires Behind(p, plan, s) && StringsOnly(p, plan.row, s, s') && LaidOut(p, plan.row, s, s', word)
    requires s.w.d < |plan.walk| && plan.walk[s.w.d] == s.w.items[0]
    ensures Behind(p, plan, s')
  {
    var row, walk, d, text := plan.row, plan.walk, s.w.d, ItemResult(p, plan.row, s.w.items[0]).text;
    LeafDone(p, row, walk, d, text);
    LeafHolds(s, s', CellTexts(p, row, walk[..d]), CellTexts(p, row, walk[..d + 1]), s.w.stack[0], word, text);
  }

  lemma LeafHolds(s: RowState, s': RowState, before: seq<Text>, after: seq<Text>, cell: Cell, word: Word, text: Text)
    requires Holds(s.c.table, ShapeOf(s.cells), s.own, before) && s.c.table <= s'.c.table && Denotes(s'.c.table, word, text)
    requires cell.kind.Static? ==> cell.kind.word == word
    requires s'.cells == s.cells + [cell] && s'.own == (if cell.kind.Static? then s.own else s.own + [word])
    requires after == before + [text]
    ensures Holds(s'.c.table, ShapeOf(s'.cells), s'.own, after)
  {
    ShapeAppend(s.cells, cell);
    HoldsGrows(s.c.table, s'.c.table, ShapeOf(s.cells), s.own, before);
    if cell.kind.Static? {
      HoldsStatic(s'.c.table, ShapeOf(s.cells), s.own, before, word, text);
    } else {
      HoldsOwn(s'.c.table, ShapeOf(s.cells), s.own, before, word, text);
    }
  }

  lemma LeafOnWalk(p: Program, plan: Plan, s: RowState, s': RowState)
    requires OnWalk(p, plan, s.w.d, s.w.items) && s.w.items != [] && !s.w.items[0].Dynamic?
    requires s'.w.d == s.w.d + 1 && s'.w.items == s.w.items[1..]
    ensures s.w.d < |plan.walk| && plan.walk[s.w.d] == s.w.items[0] && OnWalk(p, plan, s'.w.d, s'.w.items)
  {
    LeafAhead(p, plan, s.w.d, s.w.items);
  }

  lemma LeafStep(t: Template, p: Program, plan: Plan, s: RowState, s': RowState, word: Word)
    requires InRow(t, p, plan, s) && StringsOnly(p, plan.row, s, s') && LaidOut(p, plan.row, s, s', word)
    ensures InRow(t, p, plan, s')
  {
    LeafOnWalk(p, plan, s, s');
    LeafStepAhead(t, p, plan, s, s');
    LeafStepBehind(p, plan, s, s', word);
    LeafCounted(p, plan, s, s', word);
  }

  lemma LeafCounted(p: Program, plan: Plan, s: RowState, s': RowState, word: Word)
    requires LaidOut(p, plan.row, s, s', word) && OwnCounted(plan, s)
    requires s.w.d < |plan.walk| && plan.walk[s.w.d] == s.w.items[0]
    requires CellsMatch(s.c.table, s.c.slots, s.w.stack, s.w.items)
    ensures OwnCounted(plan, s')
  {
    OwnCountStep(plan.walk, s.w.d);
    assert CellMatches(s.c.table, s.c.slots, s.w.stack[0], s.w.items[0]);
  }

  lemma LeafStuck(t: Template, p: Program, plan: Plan, s: RowState)
    requires InRow(t, p, plan, s) && s.w.items != [] && !s.w.items[0].Dynamic?
    requires !ItemResult(p, plan.row, s.w.items[0]).Value?
    ensures !AllReady(p, plan.row, plan.walk)
  {
    LeafAhead(p, plan, s.w.d, s.w.items);
    assert !Ready(p, plan.row, plan.walk[s.w.d]);
  }

  // ---- a choice is replaced by the cells of the source it selects ----

  function Spliced(p: Program, plan: Plan, w: Worklist, inner: seq<Cell>): Worklist
    requires WellFormed(p) && w.stack != [] && w.items != []
    requires w.items[0].Dynamic? && Select(p, plan.row, w.items[0].name).Some?
  {
    Worklist(w.d + 1, inner + w.stack[1..], p.bodies[Select(p, plan.row, w.items[0].name).value] + w.items[1..])
  }

  /** What entering source `id` has done. */
  ghost predicate Entered(t: Template, p: Program, row: Row, c: Compiler, c': Compiler, memo: seq<Word>, memo': seq<Word>,
                          id: nat, inner: seq<Cell>)
  {
    && CompilerGood(t, p, c') && Grown(c, c')
    && id < |p.bodies| && p.bodies[id] != []
    && CellsMatch(c'.table, c'.slots, inner, p.bodies[id])
    && c'.compiled.Keys == c.compiled.Keys + {id}
    && MemoOk(p, row, c'.table, c'.slots, memo') && |memo'| == |memo|
    && |AllKeys(p, c'.compiled.Keys)| <= |memo'|
  }

  lemma ChoiceStepAhead(t: Template, p: Program, plan: Plan, s: RowState, s': RowState, inner: seq<Cell>, body: seq<Item>)
    requires Ahead(t, p, plan, s) && s.w.stack != [] && s.w.items != []
    requires CompilerGood(t, p, s'.c) && Grown(s.c, s'.c)
    requires CellsMatch(s'.c.table, s'.c.slots, inner, body)
    requires s'.w == Worklist(s.w.d + 1, inner + s.w.stack[1..], body + s.w.items[1..]) && OnWalk(p, plan, s'.w.d, s'.w.items)
    requires MemoOk(p, plan.row, s'.c.table, s'.c.slots, s'.memo)
    ensures Ahead(t, p, plan, s')
  {
    SpliceMatches(s.c.table, s'.c.table, s.c.slots, s'.c.slots, s.w.stack, s.w.items, inner, body);
  }

  lemma SpliceMatches(table: Text, longer: Text, slots: seq<Tag>, more: seq<Tag>, stack: seq<Cell>, items: seq<Item>,
                      inner: seq<Cell>, body: seq<Item>)
    requires table <= longer && slots <= more && CellsMatch(table, slots, stack, items) && stack != []
    requires CellsMatch(longer, more, inner, body)
    ensures CellsMatch(longer, more, inner + stack[1..], body + items[1..])
  {
    MatchRest(table, slots, stack, items, stack[1..], items[1..]);
    MatchGrows(table, longer, slots, more, stack[1..], items[1..]);
    MatchConcat(longer, more, inner, stack[1..], body, items[1..]);
  }

  lemma MatchRest(table: Text, slots: seq<Tag>, stack: seq<Cell>, items: seq<Item>, stack': seq<Cell>, items': seq<Item>)
    requires CellsMatch(table, slots, stack, items) && stack != [] && stack' == stack[1..] && items' == items[1..]
    ensures CellsMatch(table, slots, stack', items')
  {
    forall i | 0 <= i < |stack'|
      ensures CellMatches(table, slots, stack'[i], items'[i])
    {
      assert CellMatches(table, slots, stack[i + 1], items[i + 1]);
    }
  }

  lemma ChoiceStepBehind(p: Program, plan: Plan, s: RowState, s': RowState)
    requires Behind(p, plan, s) && s.w.d < |plan.walk|
    requires plan.walk[s.w.d].Dynamic? && Ready(p, plan.row, plan.walk[s.w.d])
    requires s.c.table <= s'.c.table && s'.w.d == s.w.d + 1 && s'.cells == s.cells && s'.own == s.own
    requires s'.c.compiled.Keys == s.c.compiled.Keys + {Select(p, plan.row, plan.walk[s.w.d].name).value}
    ensures Behind(p, plan, s')
  {
    var texts := CellTexts(p, plan.row, plan.walk[..s.w.d]);
    ReadyStep(p, plan.row, plan.walk, s.w.d);
    SelectedChoice(p, plan, s.w.d);
    HoldsGrows(s.c.table, s'.c.table, ShapeOf(s.cells), s.own, texts);
    assert texts + [] == texts;
  }

  lemma ChoiceStep(t: Template, p: Program, plan: Plan, s: RowState, s': RowState, inner: seq<Cell>)
    requires InRow(t, p, plan, s) && s.w.stack != [] && s.w.items != [] && s.w.items[0].Dynamic?
    requires Select(p, plan.row, s.w.items[0].name).Some?
    requires Entered(t, p, plan.row, s.c, s'.c, s.memo, s'.memo, Select(p, plan.row, s.w.items[0].name).value, inner)
    requires s'.w == Spliced(p, plan, s.w, inner) && s'.cells == s.cells && s'.own == s.own
    ensures InRow(t, p, plan, s')
  {
    ChoiceAhead(p, plan, s.w.d, s.w.items);
    ChoiceStepAhead(t, p, plan, s, s', inner, p.bodies[Select(p, plan.row, s.w.items[0].name).value]);
    ChoiceStepBehind(p, plan, s, s');
    ChoiceCounted(plan, s, s');
  }

  lemma ChoiceCounted(plan: Plan, s: RowState, s': RowState)
    requires OwnCounted(plan, s) && s.w.d < |plan.walk| && plan.walk[s.w.d].Dynamic?
    requires s'.w.d == s.w.d + 1 && s'.own == s.own
    ensures OwnCounted(plan, s')
  {
    OwnCountStep(plan.walk, s.w.d);
  }

  // ---- how a row ends ----

  /** What is on the worklist is on the walk. */
  lemma {:induction false} TraceContains(p: Program, row: Row, items: seq<Item>, n: nat, i: nat)
    requires WellFormed(p) && Trace(p, row, items, n).Some? && i < |items|
    ensures items[i] in Trace(p, row, items, n).value
    decreases |items|
  {
    if i > 0 {
      TraceContains(p, row, items[1..], n, i - 1);
    }
  }

  lemma SelectsBroken(p: Program, plan: Plan, d: nat, items: seq<Item>)
    requires OnWalk(p, plan, d, items) && items != [] && items[0].Dynamic?
    requires Select(p, plan.row, items[0].name).Some?
    requires Broken in p.bodies[Select(p, plan.row, items[0].name).value]
    ensures !AllReady(p, plan.row, plan.walk)
  {
    ChoiceAhead(p, plan, d, items);
    var inner := p.bodies[Select(p, plan.row, items[0].name).value];
    var i :| 0 <= i < |inner| && inner[i] == Broken;
    TraceContains(p, plan.row, inner + items[1..], plan.n, i);
    var k :| 0 <= k < |plan.walk[d + 1..]| && plan.walk[d + 1..][k] == Broken;
    assert !Ready(p, plan.row, plan.walk[d + 1 + k]);
  }

  /** More tags than the memo has slots for, already at this choice. */
  lemma MemoOverrun(p: Program, plan: Plan, d: nat)
    requires WellFormed(p) && d < |plan.walk| && plan.walk[d].Dynamic? && Select(p, plan.row, plan.walk[d].name).Some?
    requires |AllKeys(p, plan.before + Selected(p, plan.row, plan.walk[..d]) + {Select(p, plan.row, plan.walk[d].name).value})|
             > MemoSlots(|AllKeys(p, plan.before)|)
    ensures !MemoFits(p, plan.row, plan.before, plan.walk)
  {
    SelectedChoice(p, plan, d);
    SelectedStep(p, plan.row, plan.walk, d);
    KeysMonotone(p, plan.before + Selected(p, plan.row, plan.walk[..d + 1]), plan.before + Selected(p, plan.row, plan.walk));
  }

  /** What makes a choice fail makes the row fail. */
  lemma ChoiceStuck(t: Template, p: Program, plan: Plan, s: RowState)
    requires InRow(t, p, plan, s) && s.w.items != [] && s.w.items[0].Dynamic?
    requires var id := Select(p, plan.row, s.w.items[0].name);
             id.Some? && p.bodies[id.value] != [] && Broken !in p.bodies[id.value] ==>
               |AllKeys(p, s.c.compiled.Keys + {id.value})| > |s.memo|
    ensures !(AllReady(p, plan.row, plan.walk) && MemoFits(p, plan.row, plan.before, plan.walk))
  {
    ChoiceAhead(p, plan, s.w.d, s.w.items);
    var id := Select(p, plan.row, s.w.items[0].name);
    if !Ready(p, plan.row, s.w.items[0]) {
      assert !Ready(p, plan.row, plan.walk[s.w.d]);
    } else if Broken in p.bodies[id.value] {
      SelectsBroken(p, plan, s.w.d, s.w.items);
    } else {
      MemoOverrun(p, plan, s.w.d);
    }
  }

  lemma RowEnd(t: Template, p: Program, plan: Plan, s: RowState)
    requires InRow(t, p, plan, s) && s.w.stack == []
    ensures AllReady(p, plan.row, plan.walk) && MemoFits(p, plan.row, plan.before, plan.walk)
    ensures CompilerGood(t, p, s.c) && s.c.compiled.Keys == plan.before + Selected(p, plan.row, plan.walk)
    ensures Holds(s.c.table, ShapeOf(s.cells), s.own, CellTexts(p, plan.row, plan.walk))
    ensures |s.own| == OwnCount(plan.walk)
  {
    assert plan.walk[..s.w.d] == plan.walk;
  }

  // ---- rows already written ----

  /** Row `row` was written as `e`. */
  ghost predicate RowOk(p: Program, table: Text, shapes: map<seq<Word>, nat>, e: Emitted, row: Row)
    requires WellFormed(p)
  {
    && Finite(p, row)
    && AllReady(p, row, Walk(p, row))
    && e.shape in shapes && shapes[e.shape] == e.off
    && Holds(table, e.shape, e.own, CellTexts(p, row, Walk(p, row)))
  }

  ghost predicate RowsOk(p: Program, table: Text, shapes: map<seq<Word>, nat>, rows: seq<Emitted>, history: seq<Row>)
    requires WellFormed(p)
  {
    |rows| == |history| && forall i :: 0 <= i < |rows| ==> RowOk(p, table, shapes, rows[i], history[i])
  }

  lemma RowsAdd(p: Program, table: Text, shapes: map<seq<Word>, nat>, rows: seq<Emitted>, history: seq<Row>, e: Emitted, row: Row)
    requires WellFormed(p) && RowsOk(p, table, shapes, rows, history) && RowOk(p, table, shapes, e, row)
    ensures RowsOk(p, table, shapes, rows + [e], history + [row])
    ensures Layout(rows + [e]) == Layout(rows) + RowBytes(e)
  {
    assert (rows + [e])[..|rows|] == rows;
  }

  /** Rows already written keep their meaning as strings and shapes are added. */
  lemma RowsGrow(p: Program, table: Text, longer: Text, shapes: map<seq<Word>, nat>, more: map<seq<Word>, nat>,
                 rows: seq<Emitted>, history: seq<Row>)
    requires WellFormed(p) && RowsOk(p, table, shapes, rows, history) && table <= longer
    requires forall k :: k in shapes ==> k in more && more[k] == shapes[k]
    ensures RowsOk(p, longer, more, rows, history)
  {
    forall i | 0 <= i < |rows|
      ensures RowOk(p, longer, more, rows[i], history[i])
    {
      assert RowOk(p, table, shapes, rows[i], history[i]);
      HoldsGrows(table, longer, rows[i].shape, rows[i].own, CellTexts(p, history[i], Walk(p, history[i])));
    }
  }

  /** The fields of the maker that writing rows changes. */
  datatype Output = Output(uniq: Text, uniqWritten: nat, vector: Text, vectorWritten: nat, numRows: nat,
                           shapes: map<seq<Word>, nat>, rows: seq<Emitted>, history: seq<Row>)

  ghost predicate OutputGood(p: Program, table: Text, o: Output) {
    && WellFormed(p)
    && o.uniqWritten == |o.uniq|
    && o.vectorWritten == |o.vector| && o.vector == Layout(o.rows)
    && o.numRows == |o.rows|
    && ShapesOk(table, o.uniq, o.shapes)
    && RowsOk(p, table, o.shapes, o.rows, o.history)
  }

  ghost predicate OutputGrown(o: Output, o': Output) {
    o.uniq <= o'.uniq && o.vector <= o'.vector && o.rows <= o'.rows
  }

  /** More strings leave every row as it was. */
  lemma OutputGrows(p: Program, table: Text, longer: Text, o: Output)
    requires OutputGood(p, table, o) && table <= longer
    ensures OutputGood(p, longer, o)
  {
    ShapesGrow(table, longer, o.uniq, o.shapes);
    RowsGrow(p, table, longer, o.shapes, o.shapes, o.rows, o.history);
  }

  /** `shapes'` knows `shape`, which is written to the stream if it is new; `off` is where. */
  ghost predicate ShapeKnown(uniq: Text, uniq': Text, shapes: map<seq<Word>, nat>, shapes': map<seq<Word>, nat>,
                             shape: seq<Word>, record: Text, off: nat)
  {
    if shape in shapes
    then uniq' == uniq && shapes' == shapes && off == shapes[shape]
    else uniq' == uniq + record && shapes' == shapes[shape := off] && off == |uniq|
  }

  lemma ShapeKnownKeeps(p: Program, table: Text, o: Output, uniq': Text, shapes': map<seq<Word>, nat>,
                        shape: seq<Word>, ownCount: nat, record: Text, off: nat)
    requires OutputGood(p, table, o) && ShapeKnown(o.uniq, uniq', o.shapes, shapes', shape, record, off)
    requires record == ShapeRecord(shape, ownCount) && (Small(table) ==> ownCount == Zeros(shape))
    ensures ShapesOk(table, uniq', shapes') && o.uniq <= uniq'
    ensures RowsOk(p, table, shapes', o.rows, o.history)
    ensures shape in shapes' && shapes'[shape] == off
  {
    if shape !in o.shapes {
      ShapesAdd(table, o.uniq, uniq', o.shapes, shape, record, off, ownCount);
      RowsGrow(p, table, table, o.shapes, shapes', o.rows, o.history);
    }
  }

  /** A row was written. */
  lemma RowAdded(p: Program, table: Text, o: Output, o': Output, e: Emitted, record: Text, row: Row)
    requires OutputGood(p, table, o) && record == ShapeRecord(e.shape, |e.own|)
    requires ShapeKnown(o.uniq, o'.uniq, o.shapes, o'.shapes, e.shape, record, e.off)
    requires Finite(p, row) && AllReady(p, row, Walk(p, row))
    requires Holds(table, e.shape, e.own, CellTexts(p, row, Walk(p, row)))
    requires o'.uniqWritten == |o'.uniq|
    requires o'.vector == o.vector + RowBytes(e) && o'.vectorWritten == |o'.vector|
    requires o'.numRows == o.numRows + 1
    requires o'.rows == o.rows + [e] && o'.history == o.history + [row]
    ensures OutputGood(p, table, o') && OutputGrown(o, o')
  {
    ShapeKnownKeeps(p, table, o, o'.uniq, o'.shapes, e.shape, |e.own|, record, e.off);
    RowsAdd(p, table, o'.shapes, o.rows, o.history, e, row);
  }
}
