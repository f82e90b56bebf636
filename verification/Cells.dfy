/** Compiled cells, the tags that own memo slots, and the compiler's state. */
module Cells {
  import opened Bytes
  import opened Sequences
  import opened Codec
  import opened Transform
  import opened Program
  import opened Template
  import opened Streams

  datatype Kind = Static(word: Word) | Personal(offset: nat) | Dc(name: Text) | Dt(e: Exp)

  /** A cell of compiled content; `slot` is its tag's place in a row's memo. */
  datatype Cell = Cell(kind: Kind, slot: nat)

  /** A tag key that has a memo slot, and what it stands for. */
  datatype Tag = Tag(key: Text, item: Item)

  predicate Tagged(item: Item) {
    item.Field? || item.Dynamic? || item.Transformed?
  }

  function CellOf(item: Item, slot: nat): Cell
    requires Tagged(item)
  {
    match item
    case Field(offset) => Cell(Personal(offset), slot)
    case Dynamic(name) => Cell(Dc(name), slot)
    case Transformed(e) => Cell(Dt(e), slot)
  }

  /** `cell` compiles `item`; `slots` lists the tags by memo slot. */
  predicate CellMatches(table: Text, slots: seq<Tag>, cell: Cell, item: Item) {
    match item
    case Lit(s) => cell.kind.Static? && Denotes(table, cell.kind.word, s)
    case Broken => false
    case _ => cell.slot < |slots| && slots[cell.slot].item == item && cell == CellOf(item, cell.slot)
  }

  ghost predicate CellsMatch(table: Text, slots: seq<Tag>, cells: seq<Cell>, items: seq<Item>) {
    |cells| == |items| && forall i :: 0 <= i < |cells| ==> CellMatches(table, slots, cells[i], items[i])
  }

  lemma MatchGrows(table: Text, longer: Text, slots: seq<Tag>, more: seq<Tag>, cells: seq<Cell>, items: seq<Item>)
    requires table <= longer && slots <= more && CellsMatch(table, slots, cells, items)
    ensures CellsMatch(longer, more, cells, items)
  {
    forall i | 0 <= i < |cells|
      ensures CellMatches(longer, more, cells[i], items[i])
    {
      assert CellMatches(table, slots, cells[i], items[i]);
      if items[i].Lit? {
        DenotesGrows(table, longer, cells[i].kind.word, items[i].s);
      }
    }
  }

  lemma MatchConcat(table: Text, slots: seq<Tag>, a: seq<Cell>, b: seq<Cell>, ia: seq<Item>, ib: seq<Item>)
    requires CellsMatch(table, slots, a, ia) && CellsMatch(table, slots, b, ib)
    ensures CellsMatch(table, slots, a + b, ia + ib)
  {
  }

  /** Cells made later, against a longer table and more tags, go behind earlier ones. */
  lemma MatchExtend(table: Text, longer: Text, slots: seq<Tag>, more: seq<Tag>, a: seq<Cell>, b: seq<Cell>, ia: seq<Item>, ib: seq<Item>)
    requires table <= longer && slots <= more
    requires CellsMatch(table, slots, a, ia) && CellsMatch(longer, more, b, ib)
    ensures CellsMatch(longer, more, a + b, ia + ib)
  {
    MatchGrows(table, longer, slots, more, a, ia);
    MatchConcat(longer, more, a, b, ia, ib);
  }

  lemma MatchSound(table: Text, slots: seq<Tag>, cells: seq<Cell>, items: seq<Item>)
    requires CellsMatch(table, slots, cells, items)
    ensures Broken !in items
  {
    forall i | 0 <= i < |items|
      ensures items[i] != Broken
    {
      assert CellMatches(table, slots, cells[i], items[i]);
    }
  }

  // ---- tags ----

  /** Tag keys and memo slots are in one-to-one correspondence. */
  ghost predicate TagsOk(tags: map<Text, Cell>, slots: seq<Tag>) {
    && |tags| == |slots|
    && (forall i :: 0 <= i < |slots| ==> slots[i].key in tags && TagOk(slots[i], tags[slots[i].key], i))
    && (forall k :: k in tags ==> tags[k].slot < |slots| && slots[tags[k].slot].key == k)
  }

  predicate TagOk(tag: Tag, cell: Cell, slot: nat) {
    Tagged(tag.item) && cell == CellOf(tag.item, slot)
  }

  /** Tags stand for what the template says. */
  ghost predicate TagsResolved(t: Template, slots: seq<Tag>) {
    forall i {:trigger Resolve(t, slots[i].key)} :: 0 <= i < |slots| ==> Resolve(t, slots[i].key) == Some(slots[i].item)
  }

  lemma TagsAdd(tags: map<Text, Cell>, slots: seq<Tag>, tag: Tag, cell: Cell)
    requires TagsOk(tags, slots) && tag.key !in tags && TagOk(tag, cell, |slots|)
    ensures TagsOk(tags[tag.key := cell], slots + [tag])
  {
  }

  lemma TagMatches(t: Template, tags: map<Text, Cell>, slots: seq<Tag>, key: Text)
    requires TagsOk(tags, slots) && TagsResolved(t, slots) && key in tags
    ensures CellsMatch([], slots, [tags[key]], KeyItems(t, key))
    ensures Broken !in KeyItems(t, key) && TagKeys(t, key) == {key}
  {
    var i := tags[key].slot;
    assert TagOk(slots[i], tags[key], i);
    assert Resolve(t, slots[i].key) == Some(slots[i].item);
  }

  // ---- compiled sources ----

  ghost predicate CompiledOk(p: Program, table: Text, slots: seq<Tag>, compiled: map<nat, seq<Cell>>) {
    forall id :: id in compiled ==> id < |p.bodies| && CellsMatch(table, slots, compiled[id], p.bodies[id])
  }

  lemma CompiledGrows(p: Program, table: Text, longer: Text, slots: seq<Tag>, more: seq<Tag>, compiled: map<nat, seq<Cell>>)
    requires table <= longer && slots <= more && CompiledOk(p, table, slots, compiled)
    ensures CompiledOk(p, longer, more, compiled)
  {
    forall id | id in compiled
      ensures CellsMatch(longer, more, compiled[id], p.bodies[id])
    {
      MatchGrows(table, longer, slots, more, compiled[id], p.bodies[id]);
    }
  }

  lemma CompiledAdd(p: Program, table: Text, slots: seq<Tag>, compiled: map<nat, seq<Cell>>, id: nat, cells: seq<Cell>)
    requires CompiledOk(p, table, slots, compiled)
    requires id < |p.bodies| && CellsMatch(table, slots, cells, p.bodies[id])
    ensures CompiledOk(p, table, slots, compiled[id := cells])
    ensures compiled[id := cells].Keys == compiled.Keys + {id}
  {
  }

  /** The tag keys of a set of sources. */
  ghost function AllKeys(p: Program, ids: set<nat>): set<Text> {
    set id: nat, k | id in ids && id < |p.keys| && k in p.keys[id] :: k
  }

  lemma AllKeysAdd(p: Program, ids: set<nat>, id: nat)
    requires id < |p.keys|
    ensures AllKeys(p, ids + {id}) == AllKeys(p, ids) + p.keys[id]
  {
  }

  lemma KeysMonotone(p: Program, a: set<nat>, b: set<nat>)
    requires a <= b
    ensures |AllKeys(p, a)| <= |AllKeys(p, b)|
  {
    assert AllKeys(p, a) <= AllKeys(p, b);
    SubsetSize(AllKeys(p, a), AllKeys(p, b));
  }

  // ---- the compiler's state ----

  /** The fields of the maker that compiling content and adding strings change. */
  datatype Compiler = Compiler(table: Text, written: nat, cache: map<Text, nat>,
                               tags: map<Text, Cell>, count: nat, slots: seq<Tag>, compiled: map<nat, seq<Cell>>)

  ghost predicate StringsGood(c: Compiler) {
    c.written == 1 + |c.table| && CacheOk(c.table, c.cache)
  }

  ghost predicate TagsGood(t: Template, c: Compiler) {
    TagsOk(c.tags, c.slots) && TagsResolved(t, c.slots) && c.count == |c.slots|
  }

  ghost predicate CompilerGood(t: Template, p: Program, c: Compiler) {
    && WellFormed(p) && Linked(t, p)
    && StringsGood(c) && TagsGood(t, c)
    && CompiledOk(p, c.table, c.slots, c.compiled)
    && c.tags.Keys == AllKeys(p, c.compiled.Keys)
  }

  /** The number of memo slots in use is the number of distinct tag keys compiled. */
  lemma CountsTags(t: Template, p: Program, c: Compiler)
    requires CompilerGood(t, p, c)
    ensures c.count == |AllKeys(p, c.compiled.Keys)|
  {
    assert |c.tags| == |c.tags.Keys|;
  }

  ghost predicate Grown(c: Compiler, c': Compiler) {
    c.table <= c'.table && c.slots <= c'.slots
  }

  lemma GrownTransitive(a: Compiler, b: Compiler, c: Compiler)
    requires Grown(a, b) && Grown(b, c)
    ensures Grown(a, c)
  {
    PrefixTransitive(a.table, b.table, c.table);
    PrefixTransitive(a.slots, b.slots, c.slots);
  }

  /** The first `i` pieces are compiled; `keys` are the tag keys known before them. */
  ghost predicate Compiling(t: Template, keys: set<Text>, c: Compiler, cells: seq<Cell>, pieces: seq<Piece>, i: nat) {
    && i <= |pieces|
    && StringsGood(c) && TagsGood(t, c)
    && CellsMatch(c.table, c.slots, cells, PiecesItems(t, pieces[..i]))
    && c.tags.Keys == keys + KeysOf(t, pieces[..i])
  }

  lemma PieceStep(t: Template, keys: set<Text>, c: Compiler, c': Compiler, cells: seq<Cell>, more: seq<Cell>, cells': seq<Cell>,
                  pieces: seq<Piece>, i: nat)
    requires i < |pieces| && Compiling(t, keys, c, cells, pieces, i)
    requires StringsGood(c') && TagsGood(t, c') && Grown(c, c')
    requires CellsMatch(c'.table, c'.slots, more, PieceItems(t, pieces[i]))
    requires c'.tags.Keys == c.tags.Keys + TagKeys(t, Expanded(t, pieces[i].key))
    requires cells' == cells + more
    ensures Compiling(t, keys, c', cells', pieces, i + 1)
  {
    PiecesStep(t, pieces, i);
    MatchExtend(c.table, c'.table, c.slots, c'.slots, cells, more, PiecesItems(t, pieces[..i]), PieceItems(t, pieces[i]));
  }

  /** One more source compiled: `c` before, `c'` with its strings and tags, then its cells. */
  lemma SourceAdded(t: Template, p: Program, c: Compiler, c': Compiler, id: nat, cells: seq<Cell>)
    requires CompilerGood(t, p, c) && StringsGood(c') && TagsGood(t, c') && Grown(c, c')
    requires c'.compiled == c.compiled && id < |p.bodies|
    requires c'.tags.Keys == c.tags.Keys + p.keys[id]
    requires CellsMatch(c'.table, c'.slots, cells, p.bodies[id])
    ensures CompilerGood(t, p, c'.(compiled := c.compiled[id := cells]))
    ensures c.compiled[id := cells].Keys == c.compiled.Keys + {id}
  {
    CompiledGrows(p, c.table, c'.table, c.slots, c'.slots, c.compiled);
    CompiledAdd(p, c'.table, c'.slots, c.compiled, id, cells);
    AllKeysAdd(p, c.compiled.Keys, id);
  }

  /** Adding strings keeps the compiler's state good. */
  lemma StringsGrow(t: Template, p: Program, c: Compiler, c': Compiler)
    requires CompilerGood(t, p, c) && StringsGood(c') && c.table <= c'.table
    requires c' == c.(table := c'.table, written := c'.written, cache := c'.cache)
    ensures CompilerGood(t, p, c')
  {
    CompiledGrows(p, c.table, c'.table, c.slots, c.slots, c.compiled);
  }
}
