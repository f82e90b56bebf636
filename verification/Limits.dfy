/** Inputs on which the program does less than it promises. The exact conditions are
    Codec.StoredIsExact, Printer.PrintThenCompile and Maker.FrfMaker.Add. */
module Limits {
  import opened Bytes
  import opened Sequences
  import opened Codec
  import opened Transform
  import opened Printer
  import opened Evaluator
  import opened Program
  import opened Template
  import opened Progress
  import opened Cells

  /** The word for "abc" and a byte 0xC3 reads as "abcC": the tag took the top bit of the last byte. */
  lemma FourthByteLost(table: Text)
    ensures Decode(table, InlineWord([97, 98, 99, 0xC3])) == Some([97, 98, 99, 0x43])
  {
    var four: Text := [97, 98, 99, 0xC3];
    var masked: Text := [97, 98, 99, 0x43];
    DecodeInline(table, four);
    assert four[3 := ClearTag(four[3])] == masked;
    UpToNulIs(masked);
  }

  /** A quoted blank compiles to a string, is printed bare, and then there is nothing to compile. */
  lemma QuotesLost(env: Env)
    ensures Compile(env, [QUOTE, SPACE, QUOTE]) == Tree(Str([SPACE]))
    ensures Compile(env, Print(Str([SPACE]))) != Tree(Str([SPACE]))
  {
    var s: Text := [QUOTE, SPACE, QUOTE];
    assert s[1..] == [SPACE, QUOTE] && s[1..][1..] == [QUOTE];
    assert ClosingQuote([QUOTE]) == 1 && ClosingQuote([SPACE, QUOTE]) == 2 && LiteralLen(s) == 3;
    assert s[1..2] == [SPACE] && s[3..] == [];
    assert Scan([]) == [];
    assert Scan(s) == [StringLit([SPACE])];
    PrintThenCompile(env, Str([SPACE]));
  }

  // ---- a row that selects content with more new tags than its memo has room for ----

  const LETTERS: nat := 26
  const SLOT: Text := [96]

  function Letter(i: nat): Text
    requires i < LETTERS
  {
    [97 + i]
  }

  ghost function Fields(): map<Text, nat> {
    map i: nat | i < LETTERS :: Letter(i) := i
  }

  function Tags(k: nat): seq<Piece>
    requires k <= LETTERS
  {
    seq(k, i requires 0 <= i < k => Piece([], Letter(i)))
  }

  /** The body is one choice, and whatever its field holds it selects the first `k` fields. */
  ghost function Narrow(k: nat): Template
    requires k <= LETTERS
  {
    Template(Env(Fields(), map[]), map[], map[SLOT := Choice(0, map[], 1)],
             [Source([Piece([], SLOT)], []), Source(Tags(k), [])])
  }

  function FieldItems(k: nat): seq<Item> {
    seq(k, i requires 0 <= i < k => Field(i))
  }

  function Letters(k: nat): set<Text>
    requires k <= LETTERS
  {
    if k == 0 then {} else Letters(k - 1) + {Letter(k - 1)}
  }

  lemma {:induction false} LettersAre(k: nat)
    requires k <= LETTERS
    ensures |Letters(k)| == k && forall s :: s in Letters(k) ==> |s| == 1 && 97 <= s[0] < 97 + k
  {
    if k > 0 {
      LettersAre(k - 1);
    }
  }

  /** Letters are fields, and no macros. */
  ghost predicate Lettered(t: Template) {
    t.env.fields == Fields() && t.macros == map[]
  }

  lemma OneField(t: Template, i: nat)
    requires Lettered(t) && i < LETTERS
    ensures PieceItems(t, Piece([], Letter(i))) == [Field(i)]
    ensures TagKeys(t, Expanded(t, Letter(i))) == {Letter(i)}
  {
    assert Letter(i) in Fields() && Fields()[Letter(i)] == i;
    assert Resolve(t, Letter(i)) == Some(Field(i));
  }

  lemma {:induction false} FieldsLinked(t: Template, k: nat)
    requires Lettered(t) && k <= LETTERS
    ensures PiecesItems(t, Tags(k)) == FieldItems(k) && KeysOf(t, Tags(k)) == Letters(k)
  {
    if k > 0 {
      var all, front, i := Tags(k), Tags(k - 1), k - 1;
      FieldsLinked(t, i);
      assert all[..i] == front && all[..k] == all && all[i] == Piece([], Letter(i));
      PiecesStep(t, all, i);
      OneField(t, i);
      assert FieldItems(k) == FieldItems(i) + [Field(i)];
    }
  }

  lemma ChoiceLinked(t: Template)
    requires Lettered(t) && SLOT in t.choices
    ensures PiecesItems(t, [Piece([], SLOT)]) == [Dynamic(SLOT)] && KeysOf(t, [Piece([], SLOT)]) == {SLOT}
  {
    forall s | s in Fields()
      ensures s != SLOT
    {
      var i: nat :| i < LETTERS && s == Letter(i);
      assert s[0] != SLOT[0];
    }
    assert Resolve(t, SLOT) == Some(Dynamic(SLOT));
    var pieces := [Piece([], SLOT)];
    PiecesStep(t, pieces, 0);
    PiecesWhole(t, pieces);
  }

  lemma NarrowLinked(k: nat)
    requires k <= LETTERS
    ensures var p := Link(Narrow(k));
            && WellFormed(p) && p.choices == map[SLOT := Choice(0, map[], 1)]
            && p.bodies == [[Dynamic(SLOT)], FieldItems(k)] && p.keys == [{SLOT}, Letters(k)]
  {
    var t := Narrow(k);
    ChoiceLinked(t);
    FieldsLinked(t, k);
    assert Items(t, 0) == [Dynamic(SLOT)] && Items(t, 1) == FieldItems(k);
    assert Keys(t, 0) == {SLOT} && Keys(t, 1) == Letters(k);
  }

  /** Fields walk as they stand. */
  lemma {:induction false} FieldTrace(p: Program, row: Row, items: seq<Item>, n: nat)
    requires WellFormed(p) && forall i :: 0 <= i < |items| ==> items[i].Field?
    ensures Trace(p, row, items, n) == Some(items)
    decreases |items|
  {
    if items != [] {
      FieldTrace(p, row, items[1..], n);
      assert [items[0]] + [] + items[1..] == items;
    }
  }

  lemma NarrowTrace(p: Program, row: Row, fields: seq<Item>)
    requires WellFormed(p) && row != [] && p.bodies == [[Dynamic(SLOT)], fields]
    requires forall i :: 0 <= i < |fields| ==> fields[i].Field?
    requires p.choices == map[SLOT := Choice(0, map[], 1)]
    ensures Trace(p, row, p.bodies[BODY], 1) == Some([Dynamic(SLOT)] + fields)
  {
    FieldTrace(p, row, fields, 0);
    var items := p.bodies[BODY];
    assert items[1..] == [] && Select(p, row, SLOT) == Some(1);
    assert TraceInner(p, row, items[0], 1) == Some(fields);
    assert [items[0]] + fields + [] == [Dynamic(SLOT)] + fields;
  }

  lemma NarrowReady(p: Program, row: Row, walk: seq<Item>, k: nat)
    requires WellFormed(p) && p.choices == map[SLOT := Choice(0, map[], 1)] && p.bodies == [[Dynamic(SLOT)], FieldItems(k)]
    requires walk == [Dynamic(SLOT)] + FieldItems(k) && 0 < k <= |row|
    ensures AllReady(p, row, walk) && Selected(p, row, walk) == {1}
  {
    assert walk[0] == Dynamic(SLOT) && Select(p, row, SLOT) == Some(1);
    assert forall i :: 1 <= i < |walk| ==> walk[i] == Field(i - 1);
  }

  lemma NarrowKeys(p: Program, k: nat)
    requires k <= LETTERS && p.keys == [{SLOT}, Letters(k)]
    ensures |AllKeys(p, {BODY})| == 1 && |AllKeys(p, {BODY} + {1})| == k + 1
  {
    var letters := Letters(k);
    AllKeysAdd(p, {}, BODY);
    AllKeysAdd(p, {BODY}, 1);
    assert {} + {BODY} == {BODY} && AllKeys(p, {}) == {};
    OneMore(k, SLOT, letters);
  }

  lemma OneMore(k: nat, slot: Text, letters: set<Text>)
    requires k <= LETTERS && letters == Letters(k) && slot == [96]
    ensures |{slot} + letters| == k + 1
  {
    LettersAre(k);
    assert slot !in letters;
    assert {slot} + letters == letters + {slot};
  }

  /** One tag before the row makes room for four. With a value for every letter the row is
      ready in every other way, and it is accepted with up to three more tags and not beyond. */
  lemma RoomForFour(k: nat, row: Row)
    requires 0 < k <= LETTERS == |row|
    ensures var p := Link(Narrow(k));
            && WellFormed(p) && Finite(p, row) && AllReady(p, row, Walk(p, row))
            && (MemoFits(p, row, {BODY}, Walk(p, row)) <==> k <= 3)
  {
    var p, fields := Link(Narrow(k)), FieldItems(k);
    NarrowLinked(k);
    NarrowTrace(p, row, fields);
    WalkIs(p, row, 1);
    NarrowReady(p, row, Walk(p, row), k);
    NarrowKeys(p, k);
  }

  /** A row with a value, here an empty one, for every field. */
  function Empties(): Row {
    seq(LETTERS, _ => [])
  }

  /** Ready in every way but this: five tags, where one before the row made room for four. */
  lemma MemoTooSmall()
    ensures var p := Link(Narrow(4));
            && WellFormed(p) && Finite(p, Empties()) && AllReady(p, Empties(), Walk(p, Empties()))
            && !MemoFits(p, Empties(), {BODY}, Walk(p, Empties()))
  {
    RoomForFour(4, Empties());
  }
}
