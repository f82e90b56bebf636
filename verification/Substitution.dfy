/** What a template means on a row, read off its own text: the text before each tag as it
    stands, each tag replaced by what its key stands for, and the rest as it stands. */
module Substitution {
  import opened Bytes
  import opened Sequences
  import opened Transform
  import opened Evaluator
  import opened Program
  import opened Template

  /** Source `id` with its tags replaced, choices nested at most `n` deep; None where a field
      or a string is missing, a key does not compile, or `n` is not enough. */
  function SourceText(t: Template, row: Row, id: nat, n: nat): Option<Text>
    requires WellFormed(Link(t)) && id < |t.sources|
    decreases n, 2, 0
  {
    match PiecesText(t, row, t.sources[id].pieces, n)
    case Some(x) => Some(x + t.sources[id].tail)
    case None => None
  }

  function PiecesText(t: Template, row: Row, pieces: seq<Piece>, n: nat): Option<Text>
    requires WellFormed(Link(t))
    decreases n, 1, |pieces|
  {
    if pieces == [] then Some([])
    else
      var last := pieces[|pieces| - 1];
      var x := PiecesText(t, row, pieces[..|pieces| - 1], n);
      var y := KeyText(t, row, if last.key in t.macros then t.macros[last.key] else last.key, n);
      if x.Some? && y.Some? then Some(x.value + last.text + y.value) else None
  }

  /** A field's value; else the source that dynamic content selects by the value of its field,
      or its default; else what an expression evaluates to; else nothing. */
  function KeyText(t: Template, row: Row, key: Text, n: nat): Option<Text>
    requires WellFormed(Link(t))
    decreases n, 0, 0
  {
    if key in t.env.fields then
      if t.env.fields[key] < |row| then Some(row[t.env.fields[key]]) else None
    else if key in t.choices then
      var c := t.choices[key];
      if c.field >= |row| || n == 0 then None
      else if row[c.field] in c.alternatives then SourceText(t, row, c.alternatives[row[c.field]], n - 1)
      else SourceText(t, row, c.fallback, n - 1)
    else if OPEN in key then
      match Compile(t.env, key)
      case Empty => Some([])
      case Fatal => None
      case Tree(e) => TextOrNone(Exec(t.env, e, row))
    else Some([])
  }

  function TextOrNone(r: Result): Option<Text> {
    if r.Value? then Some(r.text) else None
  }

  // ---- what the interpreter makes of single items ----

  /** Dynamic content means the source that the map of alternatives gives for the value of its
      field, its default where the map has none, and nothing at all without that field. */
  lemma ChoiceMeans(p: Program, row: Row, name: Text, n: nat)
    requires WellFormed(p) && name in p.choices
    ensures var c := p.choices[name];
            && (c.field >= |row| ==> Interpret(p, row, [Dynamic(name)], n + 1) == None)
            && (c.field < |row| && row[c.field] in c.alternatives ==>
                  Interpret(p, row, [Dynamic(name)], n + 1) == Interpret(p, row, p.bodies[c.alternatives[row[c.field]]], n))
            && (c.field < |row| && row[c.field] !in c.alternatives ==>
                  Interpret(p, row, [Dynamic(name)], n + 1) == Interpret(p, row, p.bodies[c.fallback], n))
  {
    InterpretOne(p, row, [Dynamic(name)], n + 1);
  }

  /** The first item's part of an interpretation. */
  function HeadText(p: Program, row: Row, item: Item, n: nat): Option<Text>
    requires WellFormed(p)
  {
    if item.Dynamic? then
      var id := Select(p, row, item.name);
      if id.None? || n == 0 then None else Interpret(p, row, p.bodies[id.value], n - 1)
    else TextOrNone(ItemResult(p, row, item))
  }

  lemma InterpretOne(p: Program, row: Row, one: seq<Item>, n: nat)
    requires WellFormed(p) && |one| == 1
    ensures Interpret(p, row, one, n) == HeadText(p, row, one[0], n)
  {
    var head := HeadText(p, row, one[0], n);
    assert one[1..] == [] && Interpret(p, row, one[1..], n) == Some([]);
    assert head.Some? ==> head.value + [] == head.value;
  }

  /** The two texts in a row, if both are there. */
  function Joined(x: Option<Text>, y: Option<Text>): Option<Text> {
    if x.Some? && y.Some? then Some(x.value + y.value) else None
  }

  lemma JoinedAgain(x: Option<Text>, y: Option<Text>, z: Option<Text>)
    ensures Joined(Joined(x, y), z) == Joined(x, Joined(y, z))
    ensures Joined(Some([]), x) == x == Joined(x, Some([]))
  {
    if x.Some? && y.Some? && z.Some? {
      Associate(x.value, y.value, z.value);
    }
    assert x.Some? ==> [] + x.value == x.value == x.value + [];
  }

  lemma InterpretFirst(p: Program, row: Row, items: seq<Item>, n: nat)
    requires WellFormed(p) && items != []
    ensures Interpret(p, row, items, n) == Joined(Interpret(p, row, items[..1], n), Interpret(p, row, items[1..], n))
  {
    InterpretOne(p, row, items[..1], n);
  }

  lemma {:induction false} InterpretSplit(p: Program, row: Row, a: seq<Item>, b: seq<Item>, n: nat)
    requires WellFormed(p)
    ensures Interpret(p, row, a + b, n) == Joined(Interpret(p, row, a, n), Interpret(p, row, b, n))
    decreases |a|
  {
    if a == [] {
      assert a + b == b;
      JoinedAgain(Interpret(p, row, b, n), None, None);
    } else {
      var all := a + b;
      assert all[1..] == a[1..] + b && all[..1] == a[..1];
      InterpretFirst(p, row, all, n);
      InterpretFirst(p, row, a, n);
      InterpretSplit(p, row, a[1..], b, n);
      JoinedAgain(Interpret(p, row, a[..1], n), Interpret(p, row, a[1..], n), Interpret(p, row, b, n));
    }
  }

  /** An item that is not a choice means its string. */
  lemma LeafMeans(p: Program, row: Row, item: Item, n: nat)
    requires WellFormed(p) && !item.Dynamic?
    ensures Interpret(p, row, [item], n) == TextOrNone(ItemResult(p, row, item))
  {
    InterpretOne(p, row, [item], n);
  }

  // ---- the interpreter of linked items substitutes ----

  /** Interpreting the items that a source is linked to is substituting in its text. */
  lemma {:induction false} InterpretSubstitutes(t: Template, row: Row, id: nat, n: nat)
    requires WellFormed(Link(t)) && id < |t.sources|
    ensures Interpret(Link(t), row, Link(t).bodies[id], n) == SourceText(t, row, id, n)
    decreases n, 2, 0
  {
    var p, pieces, tail := Link(t), t.sources[id].pieces, t.sources[id].tail;
    PiecesSubstitute(t, row, pieces, n);
    LitMeans(p, row, tail, n);
    InterpretSplit(p, row, PiecesItems(t, pieces), LitItems(tail), n);
  }

  lemma {:induction false} PiecesSubstitute(t: Template, row: Row, pieces: seq<Piece>, n: nat)
    requires WellFormed(Link(t))
    ensures Interpret(Link(t), row, PiecesItems(t, pieces), n) == PiecesText(t, row, pieces, n)
    decreases n, 1, |pieces|
  {
    if pieces != [] {
      var p, front, last := Link(t), pieces[..|pieces| - 1], pieces[|pieces| - 1];
      var key := Expanded(t, last.key);
      PiecesSubstitute(t, row, front, n);
      LitMeans(p, row, last.text, n);
      KeySubstitutes(t, row, key, n);
      InterpretSplit(p, row, LitItems(last.text), KeyItems(t, key), n);
      InterpretSplit(p, row, PiecesItems(t, front), PieceItems(t, last), n);
      JoinedAgain(PiecesText(t, row, front, n), Some(last.text), KeyText(t, row, key, n));
    }
  }

  lemma LitMeans(p: Program, row: Row, s: Text, n: nat)
    requires WellFormed(p)
    ensures Interpret(p, row, LitItems(s), n) == Some(s)
  {
    if s != [] {
      LeafMeans(p, row, Lit(s), n);
    }
  }

  lemma {:induction false} KeySubstitutes(t: Template, row: Row, key: Text, n: nat)
    requires WellFormed(Link(t))
    ensures Interpret(Link(t), row, KeyItems(t, key), n) == KeyText(t, row, key, n)
    decreases n, 0, 1
  {
    var p := Link(t);
    var item := Resolve(t, key);
    if item.Some? && !item.value.Dynamic? {
      LeafMeans(p, row, item.value, n);
    } else if item.Some? {
      ChoiceSubstitutes(t, row, key, n);
    }
  }

  lemma {:induction false} ChoiceSubstitutes(t: Template, row: Row, key: Text, n: nat)
    requires WellFormed(Link(t)) && key !in t.env.fields && key in t.choices
    ensures Interpret(Link(t), row, [Dynamic(key)], n) == KeyText(t, row, key, n)
    decreases n, 0, 0
  {
    var c, items := t.choices[key], [Dynamic(key)];
    if n > 0 {
      ChoiceMeans(Link(t), row, key, n - 1);
      if c.field < |row| {
        InterpretSubstitutes(t, row, if row[c.field] in c.alternatives then c.alternatives[row[c.field]] else c.fallback, n - 1);
      }
    }
  }

  // ---- which tags a source has ----

  /** The tags that a source needs memo slots for: its keys, macros replaced, but for those
      that stand for nothing. */
  lemma KeysAre(t: Template, id: nat, key: Text)
    requires id < |t.sources|
    ensures var pieces := t.sources[id].pieces;
            key in Link(t).keys[id] <==>
              && (exists i :: 0 <= i < |pieces| && key == if pieces[i].key in t.macros then t.macros[pieces[i].key] else pieces[i].key)
              && (key in t.env.fields || key in t.choices || (OPEN in key && Compile(t.env, key) != Empty))
  {
    assert Link(t).keys[id] == Keys(t, id);
  }
}
