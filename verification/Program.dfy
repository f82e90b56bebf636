/** The meaning of a template whose tags have been resolved: a direct recursive
    interpreter, and the flat list of items a worklist walks through instead. */
module Program {
  import opened Bytes
  import opened Transform
  import opened Evaluator

  datatype Item = Lit(s: Text) | Field(offset: nat) | Dynamic(name: Text) | Transformed(e: Exp) | Broken

  /** Dynamic content: the value of one field picks a source. */
  datatype Choice = Choice(field: nat, alternatives: map<Text, nat>, fallback: nat)

  /** Each source as a list of items, with the keys of the tags in it. */
  datatype Program = Program(env: Env, choices: map<Text, Choice>, bodies: seq<seq<Item>>, keys: seq<set<Text>>)

  const BODY: nat := 0

  predicate WellFormed(p: Program) {
    && p.bodies != []
    && |p.keys| == |p.bodies|
    && forall name :: name in p.choices ==>
         && p.choices[name].fallback < |p.bodies|
         && forall v :: v in p.choices[name].alternatives ==> p.choices[name].alternatives[v] < |p.bodies|
  }

  // ---- meaning of one item on one row ----

  /** The source that a choice selects; None where the row has no such field. */
  function Select(p: Program, row: Row, name: Text): (r: Option<nat>)
    requires WellFormed(p)
    ensures r.Some? ==> r.value < |p.bodies|
  {
    if name in p.choices && p.choices[name].field < |row| then
      var c := p.choices[name];
      Some(if row[c.field] in c.alternatives then c.alternatives[row[c.field]] else c.fallback)
    else None
  }

  function ItemResult(p: Program, row: Row, item: Item): Result {
    match item
    case Lit(s) => Value(s)
    case Field(offset) => if offset < |row| then Value(row[offset]) else Fault
    case Transformed(e) => Exec(p.env, e, row)
    case Dynamic(_) => Fault
    case Broken => Fault
  }

  // ---- the direct interpreter ----

  /** The text of `items` on `row`, with choices nested at most `n` deep; None where a
      transform answers NULL, an access leaves an array, or `n` is not enough. */
  function Interpret(p: Program, row: Row, items: seq<Item>, n: nat): Option<Text>
    requires WellFormed(p)
    decreases n, |items|
  {
    if items == [] then Some([])
    else
      var first :=
        if items[0].Dynamic? then
          var id := Select(p, row, items[0].name);
          if id.None? || n == 0 then None else Interpret(p, row, p.bodies[id.value], n - 1)
        else
          match ItemResult(p, row, items[0])
          case Value(text) => Some(text)
          case _ => None;
      var rest := Interpret(p, row, items[1..], n);
      if first.Some? && rest.Some? then Some(first.value + rest.value) else None
  }

  // ---- the flat walk ----

  /** Every item a walk over `items` meets, in order: a choice is followed by the items of
      the source it selects. None if choices nest deeper than `n`. */
  function Trace(p: Program, row: Row, items: seq<Item>, n: nat): Option<seq<Item>>
    requires WellFormed(p)
    decreases n, |items|
  {
    if items == [] then Some([])
    else
      var inner := TraceInner(p, row, items[0], n);
      var rest := Trace(p, row, items[1..], n);
      if inner.Some? && rest.Some? then Some([items[0]] + inner.value + rest.value) else None
  }

  function TraceInner(p: Program, row: Row, item: Item, n: nat): Option<seq<Item>>
    requires WellFormed(p)
    decreases n, 0
  {
    if !item.Dynamic? then Some([])
    else
      var id := Select(p, row, item.name);
      if id.None? then Some([])
      else if n == 0 then None
      else Trace(p, row, p.bodies[id.value], n - 1)
  }

  predicate Sound(p: Program, row: Row, item: Item)
    requires WellFormed(p)
  {
    if item.Dynamic? then Select(p, row, item.name).Some? else ItemResult(p, row, item).Value?
  }

  predicate AllSound(p: Program, row: Row, trace: seq<Item>)
    requires WellFormed(p)
  {
    forall i :: 0 <= i < |trace| ==> Sound(p, row, trace[i])
  }

  /** The strings of the cells in a trace, in order: one for every item but the choices. */
  function CellTexts(p: Program, row: Row, trace: seq<Item>): seq<Text> {
    if trace == [] then []
    else
      var init, last := CellTexts(p, row, trace[..|trace| - 1]), trace[|trace| - 1];
      if last.Dynamic? then init
      else match ItemResult(p, row, last)
        case Value(text) => init + [text]
        case _ => init + [[]]
  }

  lemma {:induction false} CellTextsSplit(p: Program, row: Row, a: seq<Item>, b: seq<Item>)
    ensures CellTexts(p, row, a + b) == CellTexts(p, row, a) + CellTexts(p, row, b)
  {
    if b == [] {
      assert a + b == a;
    } else {
      assert (a + b)[..|a + b| - 1] == a + b[..|b| - 1];
      CellTextsSplit(p, row, a, b[..|b| - 1]);
    }
  }

  lemma {:induction false} TraceDeeper(p: Program, row: Row, items: seq<Item>, n: nat, m: nat)
    requires WellFormed(p) && n <= m && Trace(p, row, items, n).Some?
    ensures Trace(p, row, items, m) == Trace(p, row, items, n)
    decreases n, |items|
  {
    if items != [] {
      TraceDeeper(p, row, items[1..], n, m);
      InnerDeeper(p, row, items[0], n, m);
    }
  }

  lemma {:induction false} InnerDeeper(p: Program, row: Row, item: Item, n: nat, m: nat)
    requires WellFormed(p) && n <= m && TraceInner(p, row, item, n).Some?
    ensures TraceInner(p, row, item, m) == TraceInner(p, row, item, n)
    decreases n, 0
  {
    if item.Dynamic? && Select(p, row, item.name).Some? {
      TraceDeeper(p, row, p.bodies[Select(p, row, item.name).value], n - 1, m - 1);
    }
  }

  lemma {:induction false} TraceSplit(p: Program, row: Row, a: seq<Item>, b: seq<Item>, n: nat)
    requires WellFormed(p)
    ensures var ta, tb := Trace(p, row, a, n), Trace(p, row, b, n);
            Trace(p, row, a + b, n) == if ta.Some? && tb.Some? then Some(ta.value + tb.value) else None
    decreases |a|
  {
    if a == [] {
      assert a + b == b;
      var tb := Trace(p, row, b, n);
      assert tb.Some? ==> [] + tb.value == tb.value;
    } else {
      assert (a + b)[1..] == a[1..] + b;
      TraceSplit(p, row, a[1..], b, n);
      var inner, ta, tb := TraceInner(p, row, a[0], n), Trace(p, row, a[1..], n), Trace(p, row, b, n);
      if inner.Some? && ta.Some? && tb.Some? {
        assert [a[0]] + inner.value + (ta.value + tb.value) == [a[0]] + inner.value + ta.value + tb.value;
      }
    }
  }

  /** The worklist's splice: the trace of a choice and what follows it is the choice, then
      the trace of the selected items put in front of what follows. */
  lemma Splice(p: Program, row: Row, items: seq<Item>, n: nat)
    requires WellFormed(p) && items != [] && items[0].Dynamic?
    requires Select(p, row, items[0].name).Some? && Trace(p, row, items, n).Some?
    ensures var id := Select(p, row, items[0].name).value;
            var spliced := Trace(p, row, p.bodies[id] + items[1..], n);
            spliced.Some? && Trace(p, row, items, n).value == [items[0]] + spliced.value
  {
    var id := Select(p, row, items[0].name).value;
    TraceDeeper(p, row, p.bodies[id], n - 1, n);
    TraceSplit(p, row, p.bodies[id], items[1..], n);
  }

  /** Walking flat and interpreting directly agree: the interpreter has an answer exactly
      when the walk ends and every item on it is sound, and the answer is then the cell
      strings of the walk in a row. */
  lemma {:induction false} InterpretIsTrace(p: Program, row: Row, items: seq<Item>, n: nat)
    requires WellFormed(p)
    ensures Interpret(p, row, items, n) == TextOf(p, row, Trace(p, row, items, n))
    decreases n, |items|
  {
    if items != [] {
      var inner, rest := TraceInner(p, row, items[0], n), Trace(p, row, items[1..], n);
      InterpretIsTrace(p, row, items[1..], n);
      if items[0].Dynamic? && Select(p, row, items[0].name).Some? && n > 0 {
        InterpretIsTrace(p, row, p.bodies[Select(p, row, items[0].name).value], n - 1);
      }
      if inner.Some? && rest.Some? {
        TextOfSplit(p, row, [items[0]] + inner.value, rest.value);
        TextOfSplit(p, row, [items[0]], inner.value);
        TextOfOne(p, row, items[0]);
        assert Trace(p, row, items, n) == Some([items[0]] + inner.value + rest.value);
        var one := TextOf(p, row, Some([items[0]]));
        assert one.Some? ==> [] + one.value == one.value == one.value + [];
        var body := TextOf(p, row, Some(inner.value));
        assert body.Some? ==> [] + body.value == body.value;
      }
    }
  }

  function TextOf(p: Program, row: Row, trace: Option<seq<Item>>): Option<Text>
    requires WellFormed(p)
  {
    if trace.Some? && AllSound(p, row, trace.value) then Some(Concat(CellTexts(p, row, trace.value))) else None
  }

  lemma TextOfSplit(p: Program, row: Row, a: seq<Item>, b: seq<Item>)
    requires WellFormed(p)
    ensures var ta, tb := TextOf(p, row, Some(a)), TextOf(p, row, Some(b));
            TextOf(p, row, Some(a + b)) == if ta.Some? && tb.Some? then Some(ta.value + tb.value) else None
  {
    CellTextsSplit(p, row, a, b);
    ConcatSplit(CellTexts(p, row, a), CellTexts(p, row, b));
    assert forall i :: 0 <= i < |a| ==> (a + b)[i] == a[i];
    assert forall i :: 0 <= i < |b| ==> (a + b)[i + |a|] == b[i];
  }

  lemma TextOfOne(p: Program, row: Row, item: Item)
    requires WellFormed(p)
    ensures TextOf(p, row, Some([item]))
         == if !Sound(p, row, item) then None else if item.Dynamic? then Some([]) else Some(ItemResult(p, row, item).text)
  {
    assert [item][0] == item && [item][..0] == [];
    assert AllSound(p, row, [item]) <==> Sound(p, row, item);
    assert CellTexts(p, row, [item][..0]) == [];
    if item.Dynamic? {
      assert [item][|[item]| - 1] == item;
      assert CellTexts(p, row, [item]) == [];
    } else if ItemResult(p, row, item).Value? {
      var text := ItemResult(p, row, item).text;
      var one := [text];
      assert CellTexts(p, row, [item]) == one && one[..0] == [];
      assert Concat(one) == [] + text == text;
    }
  }

  // ---- when the worklist empties ----

  /** One turn of the worklist: a choice is replaced by what it selects, anything else is consumed. */
  function Turn(p: Program, row: Row, list: seq<Item>): seq<Item>
    requires WellFormed(p)
  {
    if list == [] then []
    else if list[0].Dynamic? && Select(p, row, list[0].name).Some? then
      p.bodies[Select(p, row, list[0].name).value] + list[1..]
    else list[1..]
  }

  function Turns(p: Program, row: Row, list: seq<Item>, k: nat): seq<Item>
    requires WellFormed(p)
    decreases k
  {
    if k == 0 then list else Turns(p, row, Turn(p, row, list), k - 1)
  }

  lemma {:induction false} EmptiesMeansFinite(p: Program, row: Row, list: seq<Item>, k: nat)
    requires WellFormed(p) && Turns(p, row, list, k) == []
    ensures Trace(p, row, list, k).Some?
    decreases k
  {
    if list != [] {
      EmptiesMeansFinite(p, row, Turn(p, row, list), k - 1);
      if list[0].Dynamic? && Select(p, row, list[0].name).Some? {
        TraceSplit(p, row, p.bodies[Select(p, row, list[0].name).value], list[1..], k - 1);
      }
      TraceDeeper(p, row, list[1..], k - 1, k);
    }
  }

  lemma {:induction false} FiniteMeansEmpties(p: Program, row: Row, list: seq<Item>, n: nat)
    requires WellFormed(p) && Trace(p, row, list, n).Some?
    ensures Turns(p, row, list, |Trace(p, row, list, n).value|) == []
    decreases |Trace(p, row, list, n).value|
  {
    if list != [] {
      if list[0].Dynamic? && Select(p, row, list[0].name).Some? {
        Splice(p, row, list, n);
      }
      FiniteMeansEmpties(p, row, Turn(p, row, list), n);
    }
  }

  /** The row's recursive substitution of choices is finite. */
  ghost predicate Finite(p: Program, row: Row)
    requires WellFormed(p)
  {
    exists n: nat :: Trace(p, row, p.bodies[BODY], n).Some?
  }

  /** The worklist empties exactly for the rows whose recursive substitution is finite. */
  lemma WorklistEmptiesIffFinite(p: Program, row: Row)
    requires WellFormed(p)
    ensures (exists k: nat :: Turns(p, row, p.bodies[BODY], k) == []) <==> Finite(p, row)
  {
    var body := p.bodies[BODY];
    if k: nat :| Turns(p, row, body, k) == [] {
      EmptiesMeansFinite(p, row, body, k);
    }
    if n: nat :| Trace(p, row, body, n).Some? {
      FiniteMeansEmpties(p, row, body, n);
    }
  }

  /** Every item a row's walk meets, body and selected sources alike. */
  ghost function Walk(p: Program, row: Row): seq<Item>
    requires WellFormed(p) && Finite(p, row)
  {
    var n: nat :| Trace(p, row, p.bodies[BODY], n).Some?;
    Trace(p, row, p.bodies[BODY], n).value
  }

  lemma WalkIs(p: Program, row: Row, n: nat)
    requires WellFormed(p) && Trace(p, row, p.bodies[BODY], n).Some?
    ensures Finite(p, row) && Trace(p, row, p.bodies[BODY], n) == Some(Walk(p, row))
  {
    var body := p.bodies[BODY];
    var m: nat :| Trace(p, row, body, m).Some? && Trace(p, row, body, m).value == Walk(p, row);
    TraceDeeper(p, row, body, n, n + m);
    TraceDeeper(p, row, body, m, n + m);
  }

  /** Choices only select sources of lower rank. */
  ghost predicate Ranked(p: Program, rank: seq<nat>)
    requires WellFormed(p)
  {
    && |rank| == |p.bodies|
    && forall id: nat, i: nat, v :: id < |p.bodies| && i < |p.bodies[id]| ==>
         Descends(p, rank, id, p.bodies[id][i], v)
  }

  predicate Descends(p: Program, rank: seq<nat>, id: nat, item: Item, v: Text)
    requires WellFormed(p) && |rank| == |p.bodies| && id < |rank|
  {
    item.Dynamic? && item.name in p.choices ==>
      var c := p.choices[item.name];
      && rank[c.fallback] < rank[id]
      && (v in c.alternatives ==> rank[c.alternatives[v]] < rank[id])
  }

  /** Without cycles among the choices, every row is finite. */
  lemma RankedIsFinite(p: Program, rank: seq<nat>, row: Row)
    requires WellFormed(p) && Ranked(p, rank)
    ensures Finite(p, row)
  {
    assert p.bodies[BODY][0..] == p.bodies[BODY];
    RankedTrace(p, rank, row, BODY, 0, rank[BODY]);
  }

  lemma {:induction false} RankedTrace(p: Program, rank: seq<nat>, row: Row, id: nat, i: nat, n: nat)
    requires WellFormed(p) && Ranked(p, rank) && id < |p.bodies| && rank[id] <= n
    requires i <= |p.bodies[id]|
    ensures Trace(p, row, p.bodies[id][i..], n).Some?
    decreases n, |p.bodies[id]| - i
  {
    var items := p.bodies[id][i..];
    if items != [] {
      assert items[1..] == p.bodies[id][i + 1..];
      RankedTrace(p, rank, row, id, i + 1, n);
      RankedInner(p, rank, row, id, i, n);
    }
  }

  lemma {:induction false} RankedInner(p: Program, rank: seq<nat>, row: Row, id: nat, i: nat, n: nat)
    requires WellFormed(p) && Ranked(p, rank) && id < |p.bodies| && rank[id] <= n
    requires i < |p.bodies[id]|
    ensures TraceInner(p, row, p.bodies[id][i], n).Some?
    decreases n, 0
  {
    var item := p.bodies[id][i];
    if item.Dynamic? && Select(p, row, item.name).Some? {
      var to := Select(p, row, item.name).value;
      assert Descends(p, rank, id, item, row[p.choices[item.name].field]);
      RankedTrace(p, rank, row, to, 0, n - 1);
      assert p.bodies[to][0..] == p.bodies[to];
    }
  }
}
