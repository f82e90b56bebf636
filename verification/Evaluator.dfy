/** frf_transform_exec: evaluating a compiled expression on one row of field values. */
module Evaluator {
  import opened Bytes
  import opened Transform

  type Row = seq<Text>

  const MAX_ARGS: nat := 100

  /** A string, NULL, or an access outside an array: the row or the 100 argument slots. */
  datatype Result = Value(text: Text) | Null | Fault

  datatype Arguments = Arguments(values: seq<Text>) | Stopped(why: Result)

  function Exec(env: Env, e: Exp, row: Row): Result
    decreases e, 1
  {
    match e
    case Str(s) => Value(s)
    case P13n(_, offset) => if offset < |row| then Value(row[offset]) else Fault
    case Func(name, args) =>
      match ExecArgs(env, args, row)
      case Stopped(why) => why
      case Arguments(values) => Call(env, name, values)
  }

  function Call(env: Env, name: Text, values: seq<Text>): Result {
    if name !in env.funcs then Fault
    else match env.funcs[name](values)
      case Some(text) => Value(text)
      case None => Null
  }

  /** Left to right; the first NULL ends the evaluation, as does a 101st argument. */
  function ExecArgs(env: Env, args: seq<Exp>, row: Row): (r: Arguments)
    ensures r.Arguments? ==> |r.values| == |args| <= MAX_ARGS
    decreases args, 0
  {
    if args == [] then Arguments([])
    else
      var last := |args| - 1;
      Append(ExecArgs(env, args[..last], row), Exec(env, args[last], row))
  }

  /** The arguments after one more has been evaluated. */
  function Append(sofar: Arguments, next: Result): Arguments
  {
    match sofar
    case Stopped(why) => Stopped(why)
    case Arguments(values) =>
      if next == Fault || |values| >= MAX_ARGS then Stopped(Fault)
      else if next == Null then Stopped(Null)
      else Arguments(values + [next.text])
  }

  lemma ArgumentStep(env: Env, args: seq<Exp>, row: Row, i: nat)
    requires i < |args|
    ensures ExecArgs(env, args[..i + 1], row) == Append(ExecArgs(env, args[..i], row), Exec(env, args[i], row))
  {
    var next := args[..i + 1];
    assert next[..i] == args[..i] && next[i] == args[i];
  }

  lemma {:induction false} StoppedStays(env: Env, args: seq<Exp>, row: Row, k: nat)
    requires k <= |args| && ExecArgs(env, args[..k], row).Stopped?
    ensures ExecArgs(env, args, row) == ExecArgs(env, args[..k], row)
    decreases |args| - k
  {
    if k == |args| {
      assert args[..k] == args;
    } else {
      ArgumentStep(env, args, row, k);
      StoppedStays(env, args, row, k + 1);
    }
  }

  // ---- what evaluation means, in terms of the values of the arguments ----

  /** A string stands for itself, a field name for the row's value. */
  lemma LeafValue(env: Env, row: Row, s: Text, name: Text, k: nat)
    ensures Exec(env, Str(s), row) == Value(s)
    ensures k < |row| ==> Exec(env, P13n(name, k), row) == Value(row[k])
    ensures k >= |row| ==> Exec(env, P13n(name, k), row) == Fault
  {
  }

  /** A call whose arguments all have values, at most a hundred, is the function on these
      values, in their order. */
  lemma CallValue(env: Env, name: Text, args: seq<Exp>, row: Row, vs: seq<Text>)
    requires |vs| == |args| <= 100 && name in env.funcs
    requires forall i :: 0 <= i < |args| ==> Exec(env, args[i], row) == Value(vs[i])
    ensures Exec(env, Func(name, args), row)
         == if env.funcs[name](vs).Some? then Value(env.funcs[name](vs).value) else Null
  {
    ArgumentValues(env, args, row, vs, |args|);
    assert args[..|args|] == args && vs[..|args|] == vs;
  }

  /** The first argument without a value decides a call, and so does a hundred and first one. */
  lemma CallStops(env: Env, name: Text, args: seq<Exp>, row: Row, vs: seq<Text>, k: nat)
    requires k < |args| && |vs| == k <= 100
    requires forall i :: 0 <= i < k ==> Exec(env, args[i], row) == Value(vs[i])
    requires k < 100 ==> !Exec(env, args[k], row).Value?
    ensures Exec(env, Func(name, args), row) == if k < 100 then Exec(env, args[k], row) else Fault
  {
    ArgumentValues(env, args, row, vs, k);
    assert vs[..k] == vs;
    ArgumentStep(env, args, row, k);
    StoppedStays(env, args, row, k + 1);
  }

  lemma {:induction false} ArgumentValues(env: Env, args: seq<Exp>, row: Row, vs: seq<Text>, k: nat)
    requires k <= |args| && k <= |vs| && k <= MAX_ARGS
    requires forall i :: 0 <= i < k ==> Exec(env, args[i], row) == Value(vs[i])
    ensures ExecArgs(env, args[..k], row) == Arguments(vs[..k])
  {
    if k > 0 {
      ArgumentValues(env, args, row, vs, k - 1);
      ArgumentStep(env, args, row, k - 1);
    }
  }

  method ExecExpression(env: Env, e: Exp, row: Row) returns (r: Result)
    ensures r == Exec(env, e, row)
    decreases e
  {
    match e {
      case Str(s) => r := Value(s);
      case P13n(_, offset) => r := if offset < |row| then Value(row[offset]) else Fault;
      case Func(name, args) =>
        var buf := new Text[MAX_ARGS](_ => []);
        var i := 0;
        while i < |args|
          invariant i <= |args| && i <= MAX_ARGS
          invariant ExecArgs(env, args[..i], row) == Arguments(buf[..i])
        {
          var temp := ExecExpression(env, args[i], row);
          ArgumentStep(env, args, row, i);
          if temp == Fault || i == MAX_ARGS {
            StoppedStays(env, args, row, i + 1);
            return Fault;
          }
          if temp == Null {
            StoppedStays(env, args, row, i + 1);
            return Null;
          }
          ghost var values := buf[..i];
          buf[i] := temp.text;
          assert buf[..i + 1] == values + [temp.text];
          i := i + 1;
        }
        assert args[..i] == args;
        r := Call(env, name, buf[..i]);
    }
  }
}
