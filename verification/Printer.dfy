/** frf_transform_pp_expression, and exactly when the scanner and parser undo it. */
module Printer {
  import opened Bytes
  import opened Sequences
  import opened Transform

  function Print(e: Exp): Text
    decreases e, 1
  {
    match e
    case P13n(name, _) => name
    case Str(s) => s
    case Func(name, args) => name + [OPEN] + PrintArgs(args) + [CLOSE]
  }

  function PrintArgs(args: seq<Exp>): Text
    decreases args, 0
  {
    if args == [] then []
    else
      var last := |args| - 1;
      if last == 0 then Print(args[0]) else PrintArgs(args[..last]) + [SEPARATOR] + Print(args[last])
  }

  /** The trees that survive printing: the printer writes no quotes, so a string must
      look like an identifier, and must not be taken for a field when read back. */
  predicate Printable(env: Env, e: Exp)
    decreases e, 1
  {
    match e
    case P13n(name, offset) => Identifier(name) && name in env.fields && env.fields[name] == offset
    case Str(s) => Identifier(s) && s !in env.fields
    case Func(name, args) => Identifier(name) && name in env.funcs && args != [] && PrintableArgs(env, args)
  }

  predicate PrintableArgs(env: Env, args: seq<Exp>)
    decreases args, 0
  {
    if args == [] then true
    else
      var last := |args| - 1;
      PrintableArgs(env, args[..last]) && Printable(env, args[last])
  }

  // ---- scanning what was printed ----

  function Tokens(e: Exp): seq<Token>
    decreases e, 1
  {
    match e
    case P13n(name, _) => [Ident(name)]
    case Str(s) => [Ident(s)]
    case Func(name, args) => [Ident(name), LeftParen] + TokensOf(args) + [RightParen]
  }

  function TokensOf(args: seq<Exp>): seq<Token>
    decreases args, 0
  {
    if args == [] then []
    else
      var last := |args| - 1;
      if last == 0 then Tokens(args[0]) else TokensOf(args[..last]) + [Comma] + Tokens(args[last])
  }

  predicate Delimited(rest: Text) {
    rest == [] || rest[0] == OPEN || rest[0] == CLOSE || rest[0] == SEPARATOR
  }

  predicate NoSemicolon(rest: Text) {
    rest == [] || rest[0] != SEMICOLON
  }

  lemma {:induction false} IdentLenIs(id: Text, rest: Text)
    requires Delimited(rest) && forall i :: 0 <= i < |id| ==> IdentByte(id[i])
    ensures IdentLen(id + rest) == |id|
  {
    if id == [] {
      assert id + rest == rest;
    } else {
      assert (id + rest)[1..] == id[1..] + rest;
      IdentLenIs(id[1..], rest);
    }
  }

  lemma ScanIdent(id: Text, rest: Text)
    requires Identifier(id) && Delimited(rest)
    ensures Scan(id + rest) == [Ident(id)] + Scan(rest)
  {
    var s := id + rest;
    IdentLenIs(id, rest);
    assert s[0] == id[0];
    assert |id| >= 2 ==> s[1] == id[1];
    assert |id| == 1 && rest != [] ==> s[1] == rest[0];
    assert s[..|id|] == id && s[|id|..] == rest;
    assert Next(s) == Match(|id|, Some(Ident(id)));
  }

  lemma ScanMark(mark: byte, token: Token, rest: Text)
    requires (mark, token) in {(OPEN, LeftParen), (CLOSE, RightParen), (SEPARATOR, Comma)}
    requires NoSemicolon(rest)
    ensures Scan([mark] + rest) == [token] + Scan(rest)
  {
    var s := [mark] + rest;
    assert s[1..] == rest;
    assert |s| >= 2 ==> s[1] == rest[0];
    assert Next(s) == Match(1, Some(token));
  }

  lemma PrintStart(env: Env, e: Exp)
    requires Printable(env, e)
    ensures Print(e) != [] && IdentByte(Print(e)[0])
  {
  }

  lemma PrintArgsStart(env: Env, args: seq<Exp>)
    requires PrintableArgs(env, args) && args != []
    ensures PrintArgs(args) != [] && IdentByte(PrintArgs(args)[0])
  {
    var last := |args| - 1;
    PrintStart(env, args[last]);
    if last > 0 {
      PrintArgsStart(env, args[..last]);
    }
  }

  lemma ScanCall(name: Text, body: Text, toks: seq<Token>, rest: Text)
    requires Identifier(name) && NoSemicolon(rest)
    requires body != [] && IdentByte(body[0])
    requires Scan(body + ([CLOSE] + rest)) == toks + Scan([CLOSE] + rest)
    ensures Scan(name + ([OPEN] + (body + ([CLOSE] + rest))))
         == [Ident(name), LeftParen] + toks + [RightParen] + Scan(rest)
  {
    var inner := body + ([CLOSE] + rest);
    ScanIdent(name, [OPEN] + inner);
    ScanMark(OPEN, LeftParen, inner);
    ScanMark(CLOSE, RightParen, rest);
    Glue(Ident(name), toks, Scan(rest));
  }

  lemma Glue(head: Token, toks: seq<Token>, rest: seq<Token>)
    ensures [head] + ([LeftParen] + (toks + ([RightParen] + rest)))
         == [head, LeftParen] + toks + [RightParen] + rest
  {
  }

  lemma PrintCall(name: Text, args: seq<Exp>, rest: Text)
    ensures Print(Func(name, args)) + rest == name + ([OPEN] + (PrintArgs(args) + ([CLOSE] + rest)))
  {
  }

  lemma {:induction false} ScanPrint(env: Env, e: Exp, rest: Text)
    requires Printable(env, e) && Delimited(rest) && (rest != [] ==> rest[0] != OPEN)
    ensures Scan(Print(e) + rest) == Tokens(e) + Scan(rest)
    decreases e, 1
  {
    if e.Func? {
      var body := PrintArgs(e.args);
      ScanPrintArgs(env, e.args, [CLOSE] + rest);
      PrintArgsStart(env, e.args);
      ScanCall(e.name, body, TokensOf(e.args), rest);
      PrintCall(e.name, e.args, rest);
    } else {
      ScanIdent(Print(e), rest);
    }
  }

  lemma {:induction false} ScanPrintArgs(env: Env, args: seq<Exp>, rest: Text)
    requires args != [] && PrintableArgs(env, args)
    requires Delimited(rest) && (rest != [] ==> rest[0] != OPEN)
    ensures Scan(PrintArgs(args) + rest) == TokensOf(args) + Scan(rest)
    decreases args, 0
  {
    var last := |args| - 1;
    ScanPrint(env, args[last], rest);
    if last > 0 {
      var tail := Print(args[last]) + rest;
      var init, toks := PrintArgs(args[..last]), TokensOf(args[..last]);
      ScanPrintArgs(env, args[..last], [SEPARATOR] + tail);
      PrintStart(env, args[last]);
      ScanMark(SEPARATOR, Comma, tail);
      Associate(init + [SEPARATOR], Print(args[last]), rest);
      Associate(init, [SEPARATOR], Print(args[last]) + rest);
      Associate(toks + [Comma], Tokens(args[last]), Scan(rest));
      Associate(toks, [Comma], Tokens(args[last]) + Scan(rest));
    }
  }

  lemma {:induction false} TokensDerive(env: Env, e: Exp)
    requires Printable(env, e)
    ensures Derives(env, e, Tokens(e))
    decreases e, 1
  {
    if e.Func? {
      TokensOfDerive(env, e.args);
      var toks := Tokens(e);
      assert toks[2..|toks| - 1] == TokensOf(e.args);
    }
  }

  lemma {:induction false} TokensOfDerive(env: Env, args: seq<Exp>)
    requires args != [] && PrintableArgs(env, args)
    ensures DerivesList(env, args, TokensOf(args))
    decreases args, 0
  {
    var last := |args| - 1;
    TokensDerive(env, args[last]);
    if last > 0 {
      TokensOfDerive(env, args[..last]);
      DerivesMore(env, args[..last], TokensOf(args[..last]), args[last], Tokens(args[last]));
      assert args[..last] + [args[last]] == args;
    }
  }

  // ---- the other direction: a tree that comes back was printable ----

  /** The fewest bytes a token can have been scanned from. */
  function Width(t: Token): nat {
    match t
    case Ident(s) => |s|
    case StringLit(s) => |s| + 2
    case _ => 1
  }

  function TotalWidth(toks: seq<Token>): nat {
    if toks == [] then 0 else Width(toks[0]) + TotalWidth(toks[1..])
  }

  predicate IdentsScanned(toks: seq<Token>) {
    forall i :: 0 <= i < |toks| && toks[i].Ident? ==> Identifier(toks[i].s)
  }

  lemma {:induction false} WidthSplit(a: seq<Token>, b: seq<Token>)
    ensures TotalWidth(a + b) == TotalWidth(a) + TotalWidth(b)
  {
    if a == [] {
      assert a + b == b;
    } else {
      assert (a + b)[1..] == a[1..] + b;
      WidthSplit(a[1..], b);
    }
  }

  lemma {:induction false} ScanWidth(s: Text)
    ensures TotalWidth(Scan(s)) <= |s| && IdentsScanned(Scan(s))
    decreases |s|
  {
    if s != [] {
      var m := Next(s);
      ScanWidth(s[m.len..]);
      if m.token.Some? {
        assert Scan(s)[1..] == Scan(s[m.len..]);
      }
    }
  }

  lemma {:induction false} DerivesWidth(env: Env, e: Exp, toks: seq<Token>)
    requires Derives(env, e, toks) && IdentsScanned(toks)
    ensures TotalWidth(toks) >= |Print(e)|
    ensures TotalWidth(toks) == |Print(e)| ==> Printable(env, e)
    decreases e, 1
  {
    if e.Func? {
      var inner := toks[2..|toks| - 1];
      assert toks == [toks[0], toks[1]] + (inner + [RightParen]);
      WidthSplit([toks[0], toks[1]], inner + [RightParen]);
      WidthSplit(inner, [RightParen]);
      assert forall i :: 0 <= i < |inner| ==> inner[i] == toks[i + 2];
      DerivesListWidth(env, e.args, inner);
    } else {
      assert toks[1..] == [];
    }
  }

  lemma ListWidth(list: seq<Token>, item: seq<Token>)
    ensures TotalWidth(list + [Comma] + item) == TotalWidth(list) + 1 + TotalWidth(item)
    ensures IdentsScanned(list + [Comma] + item) ==> IdentsScanned(list) && IdentsScanned(item)
  {
    var toks := list + [Comma] + item;
    WidthSplit(list + [Comma], item);
    WidthSplit(list, [Comma]);
    assert forall i :: 0 <= i < |list| ==> list[i] == toks[i];
    assert forall i :: 0 <= i < |item| ==> item[i] == toks[i + |list| + 1];
  }

  lemma {:induction false} DerivesListWidth(env: Env, args: seq<Exp>, toks: seq<Token>)
    requires DerivesList(env, args, toks) && IdentsScanned(toks)
    ensures TotalWidth(toks) >= |PrintArgs(args)|
    ensures TotalWidth(toks) == |PrintArgs(args)| ==> PrintableArgs(env, args)
    decreases args, 0
  {
    var last := |args| - 1;
    if last == 0 {
      DerivesWidth(env, args[0], toks);
    } else {
      var list, item :|
        && DerivesList(env, args[..last], list)
        && Derives(env, args[last], item)
        && toks == list + [Comma] + item;
      ListWidth(list, item);
      DerivesListWidth(env, args[..last], list);
      DerivesWidth(env, args[last], item);
    }
  }

  /** Printing and compiling again gives the same tree back exactly for printable trees. */
  lemma PrintThenCompile(env: Env, e: Exp)
    ensures Compile(env, Print(e)) == Tree(e) <==> Printable(env, e)
  {
    var toks := Scan(Print(e));
    ParserDecidesGrammar(env, toks, e);
    if Printable(env, e) {
      ScanPrint(env, e, []);
      assert Print(e) + [] == Print(e) && Scan([]) == [];
      assert toks == Tokens(e);
      TokensDerive(env, e);
    }
    if Derives(env, e, toks) {
      ScanWidth(Print(e));
      DerivesWidth(env, e, toks);
    }
  }

  // ---- printing writes what an expression was made of ----

  /** The bytes of a token; a string without the quotes around it. */
  function Spelling(t: Token): Text {
    match t
    case Ident(s) => s
    case StringLit(s) => s
    case LeftParen => [OPEN]
    case RightParen => [CLOSE]
    case Comma => [SEPARATOR]
  }

  function Spelled(toks: seq<Token>): Text {
    if toks == [] then [] else Spelled(toks[..|toks| - 1]) + Spelling(toks[|toks| - 1])
  }

  lemma {:induction false} SpelledSplit(a: seq<Token>, b: seq<Token>)
    ensures Spelled(a + b) == Spelled(a) + Spelled(b)
  {
    if b == [] {
      assert a + b == a;
    } else {
      assert (a + b)[..|a + b| - 1] == a + b[..|b| - 1];
      SpelledSplit(a, b[..|b| - 1]);
    }
  }

  lemma SpelledOne(t: Token)
    ensures Spelled([t]) == Spelling(t)
  {
    assert [t][..0] == [] && Spelled([t][..0]) == [];
  }

  lemma SpelledCall(name: Text, inner: seq<Token>)
    ensures Spelled([Ident(name), LeftParen] + inner + [RightParen]) == name + [OPEN] + Spelled(inner) + [CLOSE]
  {
    var head := [Ident(name)];
    assert [Ident(name), LeftParen] == head + [LeftParen];
    SpelledSplit(head + [LeftParen] + inner, [RightParen]);
    SpelledSplit(head + [LeftParen], inner);
    SpelledSplit(head, [LeftParen]);
    SpelledOne(Ident(name));
    SpelledOne(LeftParen);
    SpelledOne(RightParen);
  }

  lemma SpelledList(list: seq<Token>, item: seq<Token>)
    ensures Spelled(list + [Comma] + item) == Spelled(list) + [SEPARATOR] + Spelled(item)
  {
    SpelledSplit(list + [Comma], item);
    SpelledSplit(list, [Comma]);
    SpelledOne(Comma);
  }

  /** Whatever tokens an expression was parsed from, printable or not, printing it writes
      all of them again, in order and without quotes, and nothing else. */
  lemma {:induction false} PrintSpells(env: Env, e: Exp, toks: seq<Token>)
    requires Derives(env, e, toks)
    ensures Print(e) == Spelled(toks)
    decreases e, 1
  {
    if e.Func? {
      var inner := toks[2..|toks| - 1];
      assert toks == [Ident(e.name), LeftParen] + inner + [RightParen];
      PrintArgsSpells(env, e.args, inner);
      SpelledCall(e.name, inner);
    } else {
      SpelledOne(toks[0]);
    }
  }

  lemma {:induction false} PrintArgsSpells(env: Env, args: seq<Exp>, toks: seq<Token>)
    requires DerivesList(env, args, toks)
    ensures PrintArgs(args) == Spelled(toks)
    decreases args, 0
  {
    var last := |args| - 1;
    if last == 0 {
      PrintSpells(env, args[0], toks);
    } else {
      var list, item :|
        && DerivesList(env, args[..last], list)
        && Derives(env, args[last], item)
        && toks == list + [Comma] + item;
      PrintArgsSpells(env, args[..last], list);
      PrintSpells(env, args[last], item);
      SpelledList(list, item);
    }
  }
}
