/** Transform expressions: the flex scanner, the bison grammar, the printer and
    the evaluator of frf_transform.l and frf_transform.y. */
module Transform {
  import opened Bytes
  import opened Sequences

  datatype Exp =
    | P13n(name: Text, offset: nat)
    | Str(s: Text)
    | Func(name: Text, args: seq<Exp>)

  datatype Token = LeftParen | RightParen | Comma | StringLit(s: Text) | Ident(s: Text)

  /** What an expression is compiled against: the field names with their offsets
      and the FRF_TRANSFORM_ symbols that dlsym can find. A symbol may answer NULL. */
  datatype Env = Env(fields: map<Text, nat>, funcs: map<Text, seq<Text> -> Option<Text>>)

  const TAB: byte := 9
  const NEWLINE: byte := 10
  const SPACE: byte := 32
  const QUOTE: byte := 34
  const OPEN: byte := 40
  const CLOSE: byte := 41
  const SEPARATOR: byte := 44
  const SEMICOLON: byte := 59
  const LETTER_L: byte := 76
  const BACKSLASH: byte := 92

  // ---- scanner: longest match, then first rule ----

  predicate IdentByte(b: byte) {
    || 48 <= b <= 57
    || 65 <= b <= 90
    || b == 95
    || 97 <= b <= 122
  }

  predicate Identifier(s: Text) {
    s != [] && forall i :: 0 <= i < |s| ==> IdentByte(s[i])
  }

  /** Length of the longest run of identifier bytes that `s` starts with. */
  function IdentLen(s: Text): (n: nat)
    ensures n <= |s|
    ensures forall i :: 0 <= i < n ==> IdentByte(s[i])
    ensures n < |s| ==> !IdentByte(s[n])
  {
    if s == [] || !IdentByte(s[0]) then 0 else 1 + IdentLen(s[1..])
  }

  /** Bytes up to and including the quote that closes a literal; 0 if none does. */
  function ClosingQuote(s: Text): (n: nat)
    ensures n <= |s|
    ensures n > 0 ==> s[n - 1] == QUOTE
  {
    if s == [] then 0
    else if s[0] == QUOTE then 1
    else
      var step := if s[0] == BACKSLASH then 2 else 1;
      if step > |s| || (step == 2 && s[1] == NEWLINE) then 0
      else
        var n := ClosingQuote(s[step..]);
        if n == 0 then 0 else step + n
  }

  /** Length of the string literal that `s` starts with; 0 if it starts with none. */
  function LiteralLen(s: Text): (n: nat)
    ensures n <= |s|
    ensures n > 0 ==> n >= 2
  {
    if s != [] && s[0] == QUOTE then
      var n := ClosingQuote(s[1..]);
      if n == 0 then 0 else 1 + n
    else if |s| >= 2 && s[0] == LETTER_L && s[1] == QUOTE then
      var n := ClosingQuote(s[2..]);
      if n == 0 then 0 else 2 + n
    else 0
  }

  datatype Match = Match(len: nat, token: Option<Token>)

  /** One match of the scanner; bytes without a token are skipped or echoed. */
  function Next(s: Text): (m: Match)
    requires s != []
    ensures 1 <= m.len <= |s|
  {
    var literal, ident := LiteralLen(s), IdentLen(s);
    if literal > 0 then Match(literal, Some(StringLit(s[1..literal - 1])))
    else if ident >= 2 then Match(ident, Some(Ident(s[..ident])))
    else if |s| >= 2 && s[0] != NEWLINE && s[1] == SEMICOLON then Match(2, None)
    else if ident == 1 then Match(1, Some(Ident(s[..1])))
    else if s[0] == OPEN then Match(1, Some(LeftParen))
    else if s[0] == CLOSE then Match(1, Some(RightParen))
    else if s[0] == SEPARATOR then Match(1, Some(Comma))
    else Match(1, None)
  }

  // ---- the scanner's rules, in the order of the file ----

  datatype Rule = Blank | Literal | Name | LeftMark | RightMark | CommaMark | ThenSemicolon

  function Order(r: Rule): nat {
    match r
    case Blank => 0
    case Literal => 1
    case Name => 2
    case LeftMark => 3
    case RightMark => 4
    case CommaMark => 5
    case ThenSemicolon => 6
  }

  /** A backslash and the byte it escapes, or any other byte but a quote, over and over. */
  predicate LiteralBody(s: Text) {
    || s == []
    || (|s| >= 2 && s[0] == BACKSLASH && s[1] != NEWLINE && LiteralBody(s[2..]))
    || (s[0] != BACKSLASH && s[0] != QUOTE && LiteralBody(s[1..]))
  }

  predicate Quoted(s: Text) {
    |s| >= 2 && s[0] == QUOTE && s[|s| - 1] == QUOTE && LiteralBody(s[1..|s| - 1])
  }

  /** The whole of `s` matches the pattern of the rule. */
  predicate Matches(r: Rule, s: Text) {
    match r
    case Blank => s == [SPACE] || s == [TAB]
    case Literal => Quoted(s) || (s != [] && s[0] == LETTER_L && Quoted(s[1..]))
    case Name => Identifier(s)
    case LeftMark => s == [OPEN]
    case RightMark => s == [CLOSE]
    case CommaMark => s == [SEPARATOR]
    case ThenSemicolon => |s| == 2 && s[0] != NEWLINE && s[1] == SEMICOLON
  }

  /** What the rule returns for the bytes it matched. */
  function Action(r: Rule, s: Text): Option<Token>
    requires Matches(r, s)
  {
    match r
    case Blank => None
    case Literal => Some(StringLit(s[1..|s| - 1]))
    case Name => Some(Ident(s))
    case LeftMark => Some(LeftParen)
    case RightMark => Some(RightParen)
    case CommaMark => Some(Comma)
    case ThenSemicolon => None
  }

  /** No rule matches more of `s` than `r` matches with `n` bytes, and none as much that stands before `r`. */
  ghost predicate Taken(s: Text, r: Rule, n: nat) {
    n <= |s| && Matches(r, s[..n]) && forall q: Rule, k: nat :: NotBetter(s, r, n, q, k)
  }

  predicate NotBetter(s: Text, r: Rule, n: nat, q: Rule, k: nat) {
    k <= |s| && Matches(q, s[..k]) ==> k < n || (k == n && Order(r) <= Order(q))
  }

  lemma {:induction false} ClosingIs(s: Text, n: nat)
    requires 0 < n <= |s|
    ensures s[n - 1] == QUOTE && LiteralBody(s[..n - 1]) <==> n == ClosingQuote(s)
    decreases |s|
  {
    var body := s[..n - 1];
    if s[0] == BACKSLASH {
      if n >= 3 {
        assert body[2..] == s[2..][..n - 3];
        ClosingIs(s[2..], n - 2);
      }
    } else if s[0] != QUOTE && n >= 2 {
      assert body[1..] == s[1..][..n - 2];
      ClosingIs(s[1..], n - 1);
    }
  }

  lemma LiteralIs(s: Text, n: nat)
    requires n <= |s|
    ensures Matches(Literal, s[..n]) <==> n > 0 && n == LiteralLen(s)
  {
    var t := s[..n];
    if n >= 2 {
      QuotedIs(s, n);
      assert t[1..] == s[1..][..n - 1];
      if n >= 3 {
        QuotedIs(s[1..], n - 1);
        assert s[1..][1..] == s[2..];
      }
    }
  }

  lemma QuotedIs(s: Text, n: nat)
    requires 2 <= n <= |s|
    ensures Quoted(s[..n]) <==> s[0] == QUOTE && n - 1 == ClosingQuote(s[1..])
  {
    assert s[..n][1..n - 1] == s[1..][..n - 2];
    ClosingIs(s[1..], n - 1);
  }

  lemma NameIs(s: Text, n: nat)
    requires n <= |s|
    ensures Matches(Name, s[..n]) <==> 0 < n <= IdentLen(s)
  {
    if n > IdentLen(s) {
      assert s[..n][IdentLen(s)] == s[IdentLen(s)];
    }
  }

  /** Which prefixes of `s` a rule of fixed length matches. */
  lemma ShortIs(r: Rule, s: Text, n: nat)
    requires n <= |s| && s != [] && r != Literal && r != Name
    ensures Matches(r, s[..n]) <==> Fixed(r, s) && n == if r == ThenSemicolon then 2 else 1
  {
    assert n == 1 ==> s[..n] == [s[0]];
  }

  predicate Fixed(r: Rule, s: Text)
    requires s != []
  {
    match r
    case Blank => s[0] == SPACE || s[0] == TAB
    case LeftMark => s[0] == OPEN
    case RightMark => s[0] == CLOSE
    case CommaMark => s[0] == SEPARATOR
    case ThenSemicolon => |s| >= 2 && s[0] != NEWLINE && s[1] == SEMICOLON
    case _ => false
  }

  lemma MatchIs(r: Rule, s: Text, n: nat)
    requires n <= |s| && s != []
    ensures Matches(r, s[..n]) <==>
              if r == Literal then n > 0 && n == LiteralLen(s)
              else if r == Name then 0 < n <= IdentLen(s)
              else Fixed(r, s) && n == if r == ThenSemicolon then 2 else 1
  {
    if r == Literal {
      LiteralIs(s, n);
    } else if r == Name {
      NameIs(s, n);
    } else {
      ShortIs(r, s, n);
    }
  }

  /** The rule that `Next` follows, if any. */
  function RuleOf(s: Text): Option<Rule>
    requires s != []
  {
    if LiteralLen(s) > 0 then Some(Literal)
    else if IdentLen(s) >= 2 then Some(Name)
    else if Fixed(ThenSemicolon, s) then Some(ThenSemicolon)
    else if IdentLen(s) == 1 then Some(Name)
    else if Fixed(Blank, s) then Some(Blank)
    else if s[0] == OPEN then Some(LeftMark)
    else if s[0] == CLOSE then Some(RightMark)
    else if s[0] == SEPARATOR then Some(CommaMark)
    else None
  }

  /** The scanner takes the longest match there is, by the earliest rule that has it; a byte
      where no rule matches is echoed. */
  lemma NextIsLongestEarliest(s: Text)
    requires s != []
    ensures if exists r: Rule, n: nat :: n <= |s| && Matches(r, s[..n])
            then exists r: Rule :: Taken(s, r, Next(s).len) && Next(s).token == Action(r, s[..Next(s).len])
            else Next(s) == Match(1, None)
  {
    if RuleOf(s).Some? {
      RuleIsTaken(s, RuleOf(s).value, Next(s).len);
    } else {
      forall r: Rule, n: nat | n <= |s|
        ensures !Matches(r, s[..n])
      {
        MatchIs(r, s, n);
      }
    }
  }

  lemma RuleIsTaken(s: Text, r: Rule, n: nat)
    requires s != [] && RuleOf(s) == Some(r) && n == Next(s).len
    ensures Taken(s, r, n) && Next(s).token == Action(r, s[..n])
  {
    MatchIs(r, s, n);
    forall q: Rule, k: nat
      ensures NotBetter(s, r, n, q, k)
    {
      if k <= |s| {
        MatchIs(q, s, k);
      }
    }
    assert r == Literal ==> s[..n][1..n - 1] == s[1..n - 1];
  }

  function Scan(s: Text): seq<Token> {
    if s == [] then []
    else
      var m := Next(s);
      var rest := Scan(s[m.len..]);
      if m.token.Some? then [m.token.value] + rest else rest
  }

  // ---- the scanner cuts the whole text ----

  /** A stretch of the text, and the rule it was taken by; no rule where it is echoed. */
  datatype Cut = Cut(rule: Option<Rule>, bytes: Text)

  /** `cut` is what the scanner takes from the front of `s`. */
  ghost predicate CutIs(s: Text, cut: Cut) {
    && 0 < |cut.bytes| <= |s| && cut.bytes == s[..|cut.bytes|]
    && match cut.rule
       case Some(r) => Taken(s, r, |cut.bytes|)
       case None => |cut.bytes| == 1 && forall r: Rule, n: nat :: n <= |s| ==> !Matches(r, s[..n])
  }

  /** The cuts, one behind the other, are taken from the front of what is left of `s`. */
  ghost predicate CutsAre(s: Text, cuts: seq<Cut>) {
    if s == [] then cuts == []
    else cuts != [] && CutIs(s, cuts[0]) && CutsAre(s[|cuts[0].bytes|..], cuts[1..])
  }

  /** The text that was cut, put together again. */
  function Uncut(cuts: seq<Cut>): Text {
    if cuts == [] then [] else cuts[0].bytes + Uncut(cuts[1..])
  }

  /** What the rule of a cut returns. */
  function ReturnOf(cut: Cut): Option<Token>
    requires cut.rule.Some? ==> Matches(cut.rule.value, cut.bytes)
  {
    if cut.rule.Some? then Action(cut.rule.value, cut.bytes) else None
  }

  /** The tokens are what the rules of the cuts return, in order, where they return something. */
  ghost predicate Returned(cuts: seq<Cut>, toks: seq<Token>) {
    if cuts == [] then toks == []
    else
      && (cuts[0].rule.Some? ==> Matches(cuts[0].rule.value, cuts[0].bytes))
      && match ReturnOf(cuts[0])
         case Some(tok) => toks != [] && toks[0] == tok && Returned(cuts[1..], toks[1..])
         case None => Returned(cuts[1..], toks)
  }

  /** Only what `Next` matches can be cut from the front. */
  lemma CutIsNext(s: Text, cut: Cut)
    requires s != []
    ensures CutIs(s, cut) <==> cut == Cut(RuleOf(s), s[..Next(s).len])
    ensures CutIs(s, cut) ==> (cut.rule.Some? ==> Matches(cut.rule.value, cut.bytes)) && Next(s).token == ReturnOf(cut)
  {
    var n := Next(s).len;
    if RuleOf(s).Some? {
      var r := RuleOf(s).value;
      RuleIsTaken(s, r, n);
      if CutIs(s, cut) {
        assert Matches(r, s[..n]);
        assert NotBetter(s, r, n, cut.rule.value, |cut.bytes|);
        assert NotBetter(s, cut.rule.value, |cut.bytes|, r, n);
      }
    } else {
      forall r: Rule, k: nat | k <= |s|
        ensures !Matches(r, s[..k])
      {
        MatchIs(r, s, k);
      }
    }
  }

  /** Every text can be cut into longest matches to its very end, in one way only, and what is
      scanned is what the rules of the cuts return. */
  lemma ScanIsCuts(s: Text)
    ensures exists cuts :: CutsAre(s, cuts)
    ensures forall cuts :: CutsAre(s, cuts) ==> Uncut(cuts) == s && Returned(cuts, Scan(s))
    ensures forall a, b :: CutsAre(s, a) && CutsAre(s, b) ==> a == b
  {
    var all := CutUp(s);
    forall cuts | CutsAre(s, cuts)
      ensures cuts == all
    {
      CutsAreUnique(s, cuts, all);
    }
  }

  lemma {:induction false} CutUp(s: Text) returns (cuts: seq<Cut>)
    ensures CutsAre(s, cuts) && Uncut(cuts) == s && Returned(cuts, Scan(s))
    decreases |s|
  {
    cuts := [];
    if s != [] {
      var n := Next(s).len;
      var cut := Cut(RuleOf(s), s[..n]);
      CutIsNext(s, cut);
      var rest := CutUp(s[n..]);
      cuts := [cut] + rest;
      CutsMore(s, s[n..], cut, rest, cuts);
      ReturnsMore(s, s[n..], cut, rest, cuts);
    }
  }

  lemma CutsMore(s: Text, after: Text, cut: Cut, rest: seq<Cut>, cuts: seq<Cut>)
    requires s != [] && CutIs(s, cut) && after == s[|cut.bytes|..] && cuts == [cut] + rest
    requires CutsAre(after, rest) && Uncut(rest) == after
    ensures CutsAre(s, cuts) && Uncut(cuts) == s
  {
    assert cuts[1..] == rest;
    assert s == cut.bytes + after;
  }

  lemma ReturnsMore(s: Text, after: Text, cut: Cut, rest: seq<Cut>, cuts: seq<Cut>)
    requires s != [] && after == s[Next(s).len..] && cuts == [cut] + rest && Returned(rest, Scan(after))
    requires cut.rule.Some? ==> Matches(cut.rule.value, cut.bytes)
    requires Next(s).token == ReturnOf(cut)
    ensures Returned(cuts, Scan(s))
  {
    var toks := Scan(s);
    assert cuts[1..] == rest;
    assert toks == if Next(s).token.Some? then [Next(s).token.value] + Scan(after) else Scan(after);
    assert Next(s).token.Some? ==> toks[1..] == Scan(after);
  }

  lemma {:induction false} CutsAreUnique(s: Text, a: seq<Cut>, b: seq<Cut>)
    requires CutsAre(s, a) && CutsAre(s, b)
    ensures a == b
    decreases |s|
  {
    if s != [] {
      CutIsNext(s, a[0]);
      CutIsNext(s, b[0]);
      CutsAreUnique(s[|a[0].bytes|..], a[1..], b[1..]);
      assert a == [a[0]] + a[1..] && b == [b[0]] + b[1..];
    }
  }

  // ---- grammar ----

  /** `toks` is an `expression` of the grammar with value `e`. */
  ghost predicate Derives(env: Env, e: Exp, toks: seq<Token>)
    decreases e, 1
  {
    match e
    case P13n(name, offset) => toks == [Ident(name)] && name in env.fields && env.fields[name] == offset
    case Str(s) => toks == [StringLit(s)] || (toks == [Ident(s)] && s !in env.fields)
    case Func(name, args) =>
      && name in env.funcs
      && |toks| >= 3
      && toks[0] == Ident(name) && toks[1] == LeftParen && toks[|toks| - 1] == RightParen
      && DerivesList(env, args, toks[2..|toks| - 1])
  }

  /** `toks` is a `list` of the grammar with arguments `args`. */
  ghost predicate DerivesList(env: Env, args: seq<Exp>, toks: seq<Token>)
    decreases args, 0
  {
    if args == [] then false
    else
      var last := |args| - 1;
      if last == 0 then Derives(env, args[0], toks)
      else
        exists list, item ::
          && DerivesList(env, args[..last], list)
          && Derives(env, args[last], item)
          && toks == list + [Comma] + item
  }

  datatype Parsed<+T> = Failed | Parsed(value: T, rest: seq<Token>)

  function ParseExpression(env: Env, toks: seq<Token>): (r: Parsed<Exp>)
    ensures r.Parsed? ==> |r.rest| < |toks|
    decreases |toks|, 0
  {
    if toks == [] then Failed
    else match toks[0]
      case StringLit(s) => Parsed(Str(s), toks[1..])
      case Ident(s) =>
        if |toks| >= 2 && toks[1] == LeftParen then
          match ParseList(env, toks[2..])
          case Failed => Failed
          case Parsed(args, rest) =>
            if rest != [] && rest[0] == RightParen && s in env.funcs
            then Parsed(Func(s, args), rest[1..]) else Failed
        else if s in env.fields then Parsed(P13n(s, env.fields[s]), toks[1..])
        else Parsed(Str(s), toks[1..])
      case _ => Failed
  }

  function ParseList(env: Env, toks: seq<Token>): (r: Parsed<seq<Exp>>)
    ensures r.Parsed? ==> |r.rest| < |toks|
    decreases |toks|, 1
  {
    match ParseExpression(env, toks)
    case Failed => Failed
    case Parsed(e, rest) => ParseMore(env, [e], rest)
  }

  /** The left-recursive list rule: append one argument per comma. */
  function ParseMore(env: Env, args: seq<Exp>, toks: seq<Token>): (r: Parsed<seq<Exp>>)
    ensures r.Parsed? ==> |r.rest| <= |toks|
    decreases |toks|, 1
  {
    if toks == [] || toks[0] != Comma then Parsed(args, toks)
    else
      match ParseExpression(env, toks[1..])
      case Failed => Failed
      case Parsed(e, rest) => ParseMore(env, args + [e], rest)
  }

  /** What frf_transform_compile answers: a tree, NULL for empty input, or no answer
      because a syntax error or a missing symbol ended the process. */
  datatype Compiled = Tree(e: Exp) | Empty | Fatal

  function ParseTop(env: Env, toks: seq<Token>): Compiled {
    if toks == [] then Empty
    else match ParseExpression(env, toks)
      case Failed => Fatal
      case Parsed(e, rest) => if rest == [] then Tree(e) else Fatal
  }

  function Compile(env: Env, s: Text): Compiled {
    ParseTop(env, Scan(s))
  }

  // ---- the parser decides the grammar ----

  predicate NotOpen(rest: seq<Token>) {
    rest == [] || rest[0] != LeftParen
  }

  lemma {:induction false} ParseComplete(env: Env, e: Exp, toks: seq<Token>, rest: seq<Token>)
    requires Derives(env, e, toks) && NotOpen(rest)
    ensures ParseExpression(env, toks + rest) == Parsed(e, rest)
    decreases e, 1
  {
    if e.Func? {
      var inner := toks[2..|toks| - 1];
      assert (toks + rest)[2..] == inner + ([RightParen] + rest);
      ParseListComplete(env, e.args, inner, [RightParen] + rest);
      assert ([RightParen] + rest)[1..] == rest;
    } else {
      assert (toks + rest)[1..] == rest;
    }
  }

  lemma {:induction false} ParseListComplete(env: Env, args: seq<Exp>, toks: seq<Token>, rest: seq<Token>)
    requires DerivesList(env, args, toks) && NotOpen(rest)
    ensures ParseList(env, toks + rest) == ParseMore(env, args, rest)
    decreases args, 0
  {
    var last := |args| - 1;
    if last == 0 {
      ParseComplete(env, args[0], toks, rest);
      assert args == [args[0]];
    } else {
      var list, item :|
        && DerivesList(env, args[..last], list)
        && Derives(env, args[last], item)
        && toks == list + [Comma] + item;
      var tail := [Comma] + (item + rest);
      assert toks + rest == list + tail;
      ParseListComplete(env, args[..last], list, tail);
      assert tail[1..] == item + rest;
      ParseComplete(env, args[last], item, rest);
      assert args == args[..last] + [args[last]];
    }
  }

  lemma DerivesMore(env: Env, args: seq<Exp>, list: seq<Token>, e: Exp, item: seq<Token>)
    requires DerivesList(env, args, list) && Derives(env, e, item)
    ensures DerivesList(env, args + [e], list + [Comma] + item)
  {
    var all, toks := args + [e], list + [Comma] + item;
    var last := |all| - 1;
    assert all[..last] == args && all[last] == e;
    DerivesBoth(env, all, list, item, toks);
  }

  lemma DerivesBoth(env: Env, args: seq<Exp>, list: seq<Token>, item: seq<Token>, toks: seq<Token>)
    requires |args| >= 2 && toks == list + [Comma] + item
    requires DerivesList(env, args[..|args| - 1], list) && Derives(env, args[|args| - 1], item)
    ensures DerivesList(env, args, toks)
  {
  }

  lemma {:induction false} ParseSound(env: Env, toks: seq<Token>) returns (used: seq<Token>)
    requires ParseExpression(env, toks).Parsed?
    ensures var r := ParseExpression(env, toks);
            toks == used + r.rest && Derives(env, r.value, used)
    decreases |toks|, 0
  {
    var r := ParseExpression(env, toks);
    if r.value.Func? {
      var inner := ParseListSound(env, toks[2..]);
      used := toks[..2] + inner + [RightParen];
      assert used[2..|used| - 1] == inner;
    } else {
      used := toks[..1];
    }
  }

  lemma {:induction false} ParseListSound(env: Env, toks: seq<Token>) returns (used: seq<Token>)
    requires ParseList(env, toks).Parsed?
    ensures var r := ParseList(env, toks);
            toks == used + r.rest && DerivesList(env, r.value, used)
    decreases |toks|, 1
  {
    var first, all := ParseExpression(env, toks), ParseList(env, toks);
    var head := ParseSound(env, toks);
    var args := [first.value];
    DerivesFirst(env, first.value, head, args);
    var more := ParseMoreSound(env, args, head, first.rest);
    used := head + more;
    Split(toks, head, more, all.rest, used);
  }

  lemma DerivesFirst(env: Env, e: Exp, toks: seq<Token>, args: seq<Exp>)
    requires Derives(env, e, toks) && args == [e]
    ensures DerivesList(env, args, toks)
  {
  }

  lemma Split(toks: seq<Token>, a: seq<Token>, b: seq<Token>, rest: seq<Token>, ab: seq<Token>)
    requires toks == a + (b + rest) && ab == a + b
    ensures toks == ab + rest
  {
  }

  lemma {:induction false} ParseMoreSound(env: Env, args: seq<Exp>, list: seq<Token>, toks: seq<Token>)
    returns (used: seq<Token>)
    requires DerivesList(env, args, list) && ParseMore(env, args, toks).Parsed?
    ensures var r := ParseMore(env, args, toks);
            toks == used + r.rest && DerivesList(env, r.value, list + used)
    decreases |toks|, 1
  {
    if toks == [] || toks[0] != Comma {
      used := [];
      assert list + [] == list;
    } else {
      var next := ParseExpression(env, toks[1..]);
      var item := ParseSound(env, toks[1..]);
      DerivesMore(env, args, list, next.value, item);
      var longer := list + [Comma] + item;
      var more := ParseMoreSound(env, args + [next.value], longer, next.rest);
      used := [Comma] + item + more;
      Associate(list, [Comma] + item, more);
      Associate(list, [Comma], item);
      Associate([Comma], item, more + ParseMore(env, args, toks).rest);
      Associate([Comma] + item, more, ParseMore(env, args, toks).rest);
    }
  }

  /** frf_transform_compile's parser accepts exactly the sentences of the grammar, and
      gives each the one tree the grammar gives it. */
  lemma ParserDecidesGrammar(env: Env, toks: seq<Token>, e: Exp)
    ensures ParseTop(env, toks) == Tree(e) <==> Derives(env, e, toks)
  {
    if Derives(env, e, toks) {
      ParseComplete(env, e, toks, []);
      assert toks + [] == toks;
    }
    if ParseTop(env, toks) == Tree(e) {
      var used := ParseSound(env, toks);
      assert used + [] == used;
    }
  }

  /** frf_transform_compile answers a tree for the sentences of the grammar, NULL for a text
      without tokens, and does not return for any other. */
  lemma CompileAnswers(env: Env, s: Text)
    ensures forall e :: Compile(env, s) == Tree(e) <==> Derives(env, e, Scan(s))
    ensures Compile(env, s) == Empty <==> Scan(s) == []
    ensures Compile(env, s) == Fatal <==> Scan(s) != [] && forall e :: !Derives(env, e, Scan(s))
  {
    forall e
      ensures Compile(env, s) == Tree(e) <==> Derives(env, e, Scan(s))
    {
      ParserDecidesGrammar(env, Scan(s), e);
    }
  }
}
