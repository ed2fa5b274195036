// Whatever the automaton accepts is a tree of the precedence grammar over exactly its input.
module PluralSoundness {
  import opened PluralGrammar
  import opened PluralTables
  import opened PluralParser
  import opened PluralCompleteness

  // What the entries of the parser stack stand for: a token or a tree that has been recognised.
  datatype Symbols = Bottom | Tok(below: Symbols, t: Token) | Sub(below: Symbols, tree: Tree)

  // The tokens that the stack spans.
  function Span(d: Symbols): seq<Token> {
    match d
    case Bottom => []
    case Tok(b, t) => Span(b) + [t]
    case Sub(b, tree) => Span(b) + Yield(tree)
  }

  // The token whose shift leads to state q.
  predicate TokenFits(q: nat, t: Token) {
    match q
    case 1 => t.Bang?
    case 2 => t.Number?
    case 3 => t.N?
    case 4 => t.LParen?
    case 8 => t.Quest?
    case 15 => t.RParen?
    case 23 => t.Colon?
    case _ => 9 <= q <= 14 && t.Oper? && OpLevel(t.op) == q - 8
  }

  // The invariant of the stack: operands are trees of the grammar, tight enough for their place.
  predicate Explains(st: Stack, d: Symbols)
    requires Path(st)
  {
    if st.below.Nil? then d.Bottom?
    else
      !d.Bottom? && Explains(st.below, d.below) &&
      if AfterOperand(st.state) then
        d.Sub? && WellFormed(d.tree) && SExp(Ast(d.tree)) == st.sem && Floor(Before(st.state)) <= Level(d.tree)
      else if st.state == 25 then
        d.Sub? && WellFormed(d.tree) && SExp(Ast(d.tree)) == st.sem
      else
        d.Tok? && st.state < 25 && TokenFits(st.state, d.t) && STok(d.t) == st.sem
        && (8 <= st.state <= 14 ==> d.below.Sub? && LeftOk(Level(d.below.tree), [d.t]))
  }

  // The tree on top was closed only because the lookahead does not bind tighter.
  predicate TopClosed(st: Stack, d: Symbols, input: seq<Token>) {
    st.Push? && AfterOperand(st.state) && d.Sub? ==> LeftOk(Level(d.tree), input)
  }

  lemma Unstack(st: Stack, d: Symbols)
    requires Path(st) && Explains(st, d) && 1 < Depth(st)
    ensures Path(st.below) && !d.Bottom? && Explains(st.below, d.below) && Depth(st.below) == Depth(st) - 1
    ensures Span(d) == Span(d.below) + if d.Tok? then [d.t] else Yield(d.tree)
  {
  }

  // Pushing a recognised operand keeps the invariant.
  lemma Restack(base: Stack, d: Symbols, tree: Tree)
    requires Path(base) && WantsOperand(base.state) && Explains(base, d)
    requires WellFormed(tree) && Floor(base.state) <= Level(tree)
    ensures Explains(Operand(base, Ast(tree)), Sub(d, tree))
  {
  }

  lemma ReductionIsOperand(st: Stack, rule: nat)
    requires Reducible(st, rule) && rule != 1
    ensures yyr2(rule) < Depth(st) && Path(Pop(st, yyr2(rule))) && WantsOperand(Pop(st, yyr2(rule)).state)
    ensures Reduction(st, rule) == Operand(Pop(st, yyr2(rule)), Build(st, rule).e)
  {
    HandlePresent(st, rule);
    GotoMeaning(Pop(st, yyr2(rule)).state, rule);
  }

  lemma LeafExplained(st: Stack, d: Symbols, rule: nat) returns (d': Symbols)
    requires Reducible(st, rule) && Explains(st, d) && (rule == 10 || rule == 11)
    ensures Explains(Reduction(st, rule), d') && Span(d') == Span(d)
    ensures d'.Sub? && Level(d'.tree) == 8
  {
    hide Reduction;
    ReductionIsOperand(st, rule);
    PopOne(st);
    d' := Sub(d.below, if rule == 10 then TVar else TNum(d.t.n));
    Restack(st.below, d.below, d'.tree);
  }

  lemma SpanNot(d: Symbols, a: Tree)
    ensures Span(d) + Yield(TNot(a)) == Span(d) + [Bang] + Yield(a)
  {
  }

  lemma NotShape(st: Stack, d: Symbols) returns (d2: Symbols, a: Tree)
    requires Reducible(st, 9) && 2 < Depth(st) && st.below.state == 1 && Explains(st, d)
    ensures st.below.Push? && Path(st.below.below) && Explains(st.below.below, d2)
    ensures WellFormed(a) && 7 <= Level(a) && st.sem == SExp(Ast(a)) && Span(d) == Span(d2) + Yield(TNot(a))
  {
    hide Span, Yield, Path;
    Unstack(st, d);
    Unstack(st.below, d.below);
    d2, a := d.below.below, d.tree;
    SpanNot(d2, a);
  }

  lemma NotExplained(st: Stack, d: Symbols) returns (d': Symbols)
    requires Reducible(st, 9) && Explains(st, d)
    ensures Explains(Reduction(st, 9), d') && Span(d') == Span(d)
    ensures d'.Sub? && Level(d'.tree) == 7
  {
    hide Reduction, Explains, Path;
    ReductionIsOperand(st, 9);
    OperandBelow(st);
    PopOne(st);
    var d2, a := NotShape(st, d);
    PopOne(st.below);
    PopTwice(st, 1, 1);
    d' := Sub(d2, TNot(a));
    Restack(st.below.below, d2, d'.tree);
  }

  lemma ParenShape(st: Stack, d: Symbols) returns (b: Stack, d3: Symbols, i: Tree)
    requires Reducible(st, 12) && Explains(st, d)
    ensures Path(b) && Explains(b, d3) && 3 < Depth(st) && b == Pop(st, 3) && WellFormed(i)
    ensures Value(st, 1) == SExp(Ast(i)) && Span(d) == Span(d3) + Yield(TParen(i))
  {
    hide Span, Yield;
    ParenHandle(st);
    PopOne(st);
    PopThree(st);
    Unstack(st, d);
    Unstack(st.below, d.below);
    Unstack(st.below.below, d.below.below);
    i := d.below.tree;
    d3 := d.below.below.below;
    b := st.below.below.below;
    SpanParen(d3, i);
  }

  lemma SpanParen(d: Symbols, i: Tree)
    ensures Span(d) + Yield(TParen(i)) == Span(d) + [LParen] + Yield(i) + [RParen]
  {
    assert Yield(TParen(i)) == [LParen] + Yield(i) + [RParen];
    hide *;
    Grouped(Span(d), [LParen], Yield(i), [RParen]);
  }

  lemma Grouped<T>(a: seq<T>, b: seq<T>, c: seq<T>, d: seq<T>)
    ensures a + (b + c + d) == a + b + c + d
  {}

  lemma ParenExplained(st: Stack, d: Symbols) returns (d': Symbols)
    requires Reducible(st, 12) && Explains(st, d)
    ensures Explains(Reduction(st, 12), d') && Span(d') == Span(d)
    ensures d'.Sub? && Level(d'.tree) == 8
  {
    hide Reduction, Explains, Path;
    ReductionIsOperand(st, 12);
    var b, d3, i := ParenShape(st, d);
    d' := Sub(d3, TParen(i));
    Restack(b, d3, d'.tree);
  }

  // The two operands around an infix symbol, and the stack below them.
  predicate Infix(st: Stack, d: Symbols, b: Stack, d3: Symbols, l: Tree, t: Token, r: Tree)
    requires Path(st)
  {
    && 3 < Depth(st) && b == Pop(st, 3) && Path(b) && WantsOperand(b.state) && Explains(b, d3)
    && WellFormed(l) && WellFormed(r) && Floor(b.state) <= Level(l) && AfterOperand(st.state)
    && Floor(Before(st.state)) <= Level(r)
    && Path(Pop(st, 2)) && AfterOperand(Pop(st, 2).state) && Explains(Pop(st, 2), Sub(d3, l))
    && Value(st, 0) == SExp(Ast(r)) && Value(st, 1) == STok(t) && Value(st, 2) == SExp(Ast(l))
    && (st.state <= 22 ==> Floor(b.state) <= st.state - 16)
    && TokenFits(Before(st.state), t) && (st.state != 24 ==> LeftOk(Level(l), [t]))
    && Span(d) == Span(d3) + Yield(l) + [t] + Yield(r)
  }

  lemma InfixShape(st: Stack, d: Symbols) returns (b: Stack, d3: Symbols, l: Tree, t: Token, r: Tree)
    requires Path(st) && AfterOperand(st.state) && 16 <= st.state && Explains(st, d)
    ensures Infix(st, d, b, d3, l, t, r)
  {
    OperandsBelow(st);
    PopOne(st);
    PopThree(st);
    Unstack(st, d);
    Unstack(st.below, d.below);
    Unstack(st.below.below, d.below.below);
    r, t, l := d.tree, d.below.t, d.below.below.tree;
    d3 := d.below.below.below;
    b := st.below.below.below;
  }

  lemma SpanBin(d: Symbols, l: Tree, op: BinOp, r: Tree)
    ensures Span(Sub(d, TBin(op, l, r))) == Span(d) + Yield(l) + [Oper(op)] + Yield(r)
  {
  }

  lemma SpanCond(d: Symbols, c: Tree, x: Tree, y: Tree)
    ensures Span(Sub(d, TCond(c, x, y))) == Span(d) + Yield(c) + [Quest] + Yield(x) + [Colon] + Yield(y)
  {
  }

  lemma BinExplained(st: Stack, d: Symbols, rule: nat) returns (d': Symbols)
    requires 3 <= rule <= 8 && Reducible(st, rule) && Explains(st, d)
    ensures Explains(Reduction(st, rule), d') && Span(d') == Span(d)
    ensures d'.Sub? && Level(d'.tree) == rule - 2
  {
    hide Reduction, Explains, Path, Span, Yield, Pop, Depth;
    OperandsBelow(st);
    ReductionIsOperand(st, rule);
    var b, d3, l, t, r := InfixShape(st, d);
    d' := Sub(d3, TBin(t.op, l, r));
    Restack(b, d3, d'.tree);
    SpanBin(d3, l, t.op, r);
  }

  lemma CondExplained(st: Stack, d: Symbols) returns (d': Symbols)
    requires Reducible(st, 2) && Explains(st, d)
    ensures Explains(Reduction(st, 2), d') && Span(d') == Span(d)
    ensures d'.Sub?
  {
    hide Reduction, Explains, Path, Yield, Pop, Depth;
    OperandsBelow(st);
    ReductionIsOperand(st, 2);
    var mid, d3, x, colon, y := InfixShape(st, d);
    var b, d5, c, quest, x' := InfixShape(Pop(st, 2), Sub(d3, x));
    PopTwice(st, 2, 0);
    PopTwice(st, 2, 2);
    PopTwice(st, 2, 3);
    d' := Sub(d5, TCond(c, x', y));
    Restack(b, d5, d'.tree);
    SpanCond(d5, c, x', y);
  }

  // A reduction keeps the invariant and the spanned tokens.
  lemma ReductionExplained(st: Stack, d: Symbols, input: seq<Token>, rule: nat) returns (d': Symbols)
    requires Path(st) && st.state < 27 && SpecAction(st.state, Lookahead(input)) == Reduce(rule)
    requires Reducible(st, rule) && Explains(st, d) && TopClosed(st, d, input)
    ensures Explains(Reduction(st, rule), d') && Span(d') == Span(d)
    ensures TopClosed(Reduction(st, rule), d', input)
  {
    hide Explains, Reduction, Span;
    if rule == 1 {
      d' := StartExplained(st, d);
    } else if rule == 2 {
      d' := CondExplained(st, d);
    } else if rule <= 8 {
      d' := BinExplained(st, d, rule);
    } else if rule == 9 {
      d' := NotExplained(st, d);
    } else if rule == 12 {
      d' := ParenExplained(st, d);
    } else {
      d' := LeafExplained(st, d, rule);
    }
  }

  lemma StartExplained(st: Stack, d: Symbols) returns (d': Symbols)
    requires Reducible(st, 1) && Explains(st, d)
    ensures Explains(Reduction(st, 1), d') && Span(d') == Span(d)
    ensures Reduction(st, 1).state == 25
  {
    OperandBelow(st);
    PopOne(st);
    GotoMeaning(0, 1);
    d' := d;
  }

  lemma ShiftExplained(st: Stack, d: Symbols, input: seq<Token>, s: nat)
    requires Path(st) && st.state < 27 && input != [] && SpecAction(st.state, Lookahead(input)) == Shift(s)
    requires Explains(st, d) && TopClosed(st, d, input)
    requires Path(Shifted(st, s, input))
    ensures Explains(Shifted(st, s, input), Tok(d, input[0]))
    ensures Span(Tok(d, input[0])) + Rest(input) == Span(d) + input
    ensures !AfterOperand(s)
  {
    assert input == [input[0]] + input[1..];
  }

  // The main soundness result, from any explained stack.
  lemma {:induction false} RunSound(st: Stack, d: Symbols, input: seq<Token>, limit: nat) returns (t: Tree)
    requires Path(st) && Depth(st) < limit && st.state < 26
    requires Explains(st, d) && TopClosed(st, d, input) && Run(st, input, limit).Accepted?
    ensures WellFormed(t) && Run(st, input, limit) == Accepted(Ast(t)) && Yield(t) == Span(d) + input
    decreases Measure(st, input), AtEnd(st)
  {
    ActionMeaning(st.state, Lookahead(input));
    DecisionSound(st, input);
    match TableAction(st.state, Lookahead(input))
    case Reduce(rule) =>
      var d' := ReductionExplained(st, d, input, rule);
      t := RunSound(Reduction(st, rule), d', input, limit);
    case Shift(s) =>
      ShiftSound(st, s, input);
      if input == [] {
        t := EndSound(st, d, limit);
      } else {
        ShiftExplained(st, d, input, s);
        t := RunSound(Shifted(st, s, input), Tok(d, input[0]), Rest(input), limit);
      }
  }

  lemma EndSound(st: Stack, d: Symbols, limit: nat) returns (t: Tree)
    requires Path(st) && Depth(st) < limit && st.state == 25
    requires Explains(st, d) && Run(st, [], limit).Accepted?
    ensures WellFormed(t) && Run(st, [], limit) == Accepted(Ast(t)) && Yield(t) == Span(d) + []
  {
    ActionMeaning(25, 0);
    ActionMeaning(26, 0);
    t := d.tree;
    var top := Shifted(st, 26, []);
    ShiftSound(st, 26, []);
    assert Run(st, [], limit) == Run(top, [], limit);
    assert Run(top, [], limit) == Accepted(st.sem.e);
  }

  // ---- The parser decides the precedence grammar ----

  predicate Parses(t: Tree, input: seq<Token>, e: Expr) {
    WellFormed(t) && Yield(t) == input && Ast(t) == e
  }

  lemma SoundWithin(input: seq<Token>, limit: nat) returns (t: Tree)
    requires 3 < limit && ParseWithin(input, limit).Accepted?
    ensures Parses(t, input, ParseWithin(input, limit).e)
  {
    t := RunSound(START, Bottom, input, limit);
    assert Span(Bottom) + input == input;
  }

  lemma CompleteWithin(t: Tree, limit: nat)
    requires WellFormed(t) && 3 < limit
    ensures ParseWithin(Yield(t), limit) == if 1 + Peak(t) >= limit then Overflow else Accepted(Ast(t))
  {
    assert Yield(t) + [] == Yield(t);
    ParseTree(START, t, [], limit);
    if 1 + Peak(t) < limit {
      FinishParse(Ast(t), limit);
    }
  }

  lemma FinishParse(e: Expr, limit: nat)
    requires 3 < limit
    ensures Run(Push(START, 5, SExp(e)), [], limit) == Accepted(e)
  {
    var st := Operand(START, e);
    ReduceStep(st, [], 1, limit);
    PopOne(st);
    GotoMeaning(0, 1);
    var end := Push(START, 25, SExp(e));
    ActionMeaning(25, 0);
    ActionMeaning(26, 0);
    ShiftSound(end, 26, []);
    var top := Shifted(end, 26, []);
    assert Run(end, [], limit) == Run(top, [], limit);
  }

  lemma ParseSound(input: seq<Token>) returns (t: Tree)
    requires Parse(input).Accepted?
    ensures Parses(t, input, Parse(input).e)
  {
    t := SoundWithin(input, YYMAXDEPTH);
  }

  lemma ParseComplete(t: Tree)
    requires WellFormed(t)
    ensures Parse(Yield(t)) == if 1 + Peak(t) >= YYMAXDEPTH then Overflow else Accepted(Ast(t))
  {
    CompleteWithin(t, YYMAXDEPTH);
  }

  // Acceptance characterised for every token sequence and every expression.
  lemma ParseIff(input: seq<Token>, e: Expr)
    ensures Parse(input) == Accepted(e) <==> exists t :: Parses(t, input, e) && 1 + Peak(t) < YYMAXDEPTH
  {
    if Parse(input) == Accepted(e) {
      var t := ParseSound(input);
      ParseComplete(t);
      assert Parses(t, input, e) && 1 + Peak(t) < YYMAXDEPTH;
    }
    if t :| Parses(t, input, e) && 1 + Peak(t) < YYMAXDEPTH {
      ParseComplete(t);
    }
  }

  // A syntax error is reported only for a sentence outside the grammar.
  lemma SyntaxErrorIffNoTree(input: seq<Token>)
    requires Parse(input) != Overflow
    ensures Parse(input) == SyntaxError <==> !exists t, e :: Parses(t, input, e)
  {
    if t, e :| Parses(t, input, e) {
      ParseComplete(t);
    }
    if Parse(input).Accepted? {
      var t := ParseSound(input);
    }
  }

  // The grammar is unambiguous: a parser with enough room reads both trees as the same expression.
  lemma Unambiguous(t: Tree, u: Tree)
    requires WellFormed(t) && WellFormed(u) && Yield(t) == Yield(u)
    ensures Ast(t) == Ast(u)
  {
    var limit := 4 + Peak(t) + Peak(u);
    CompleteWithin(t, limit);
    CompleteWithin(u, limit);
  }
}
