// Every tree of the precedence grammar is parsed to its own expression.
module PluralCompleteness {
  import opened PluralGrammar
  import opened PluralTables
  import opened PluralParser

  // The lookahead does not bind tighter than an operand of precedence k that it follows.
  predicate LeftOk(k: nat, input: seq<Token>) {
    input != [] ==>
      (input[0].Oper? ==> OpLevel(input[0].op) <= k) && (input[0].Quest? ==> 1 <= k)
  }

  function Operand(st: Stack, e: Expr): (r: Stack)
    requires Path(st) && WantsOperand(st.state)
    ensures Path(r) && Depth(r) == Depth(st) + 1
  {
    Push(st, After(st.state), SExp(e))
  }

  // The run after the tree t has been read on top of st.
  function Resume(st: Stack, t: Tree, rest: seq<Token>, limit: nat): Outcome
    requires Path(st) && WantsOperand(st.state)
  {
    if Depth(st) + Peak(t) >= limit then Overflow else Run(Operand(st, Ast(t)), rest, limit)
  }

  lemma ShiftStep(st: Stack, tok: Token, rest: seq<Token>, s: nat, limit: nat)
    requires Path(st) && Depth(st) < limit && st.state < 27
    requires SpecAction(st.state, Code(tok)) == Shift(s)
    ensures Path(Push(st, s, STok(tok))) && Depth(Push(st, s, STok(tok))) == Depth(st) + 1
    ensures Run(st, [tok] + rest, limit) ==
      if Depth(st) + 1 >= limit then Overflow else Run(Push(st, s, STok(tok)), rest, limit)
  {
    ActionMeaning(st.state, Code(tok));
    ShiftSound(st, s, [tok] + rest);
    assert Rest([tok] + rest) == rest;
  }

  lemma ReduceStep(st: Stack, rest: seq<Token>, rule: nat, limit: nat)
    requires Path(st) && Depth(st) < limit && st.state < 27
    requires SpecAction(st.state, Lookahead(rest)) == Reduce(rule)
    ensures Reducible(st, rule) && Run(st, rest, limit) == Run(Reduction(st, rule), rest, limit)
  {
    ActionMeaning(st.state, Lookahead(rest));
    DecisionSound(st, rest);
  }

  // Reductions of a stack whose top is fully known.
  lemma PopOne(st: Stack)
    requires 1 <= Depth(st)
    ensures Pop(st, 1) == st.below
  {
  }

  lemma PopThree(st: Stack)
    requires 3 <= Depth(st)
    ensures Pop(st, 2) == st.below.below && Pop(st, 3) == st.below.below.below
  {
    PopOne(st);
    PopOne(st.below);
    PopOne(st.below.below);
    PopTwice(st, 1, 1);
    PopTwice(st, 2, 1);
  }

  lemma LeafReduction(st: Stack, t: Tree)
    requires Path(st) && WantsOperand(st.state) && (t.TVar? || t.TNum?)
    ensures var top := Push(st, if t.TVar? then 3 else 2, STok(Yield(t)[0]));
      var rule := if t.TVar? then 10 else 11;
      Reducible(top, rule) && Reduction(top, rule) == Operand(st, Ast(t))
  {
    PopOne(Push(st, if t.TVar? then 3 else 2, STok(Yield(t)[0])));
    GotoMeaning(st.state, if t.TVar? then 10 else 11);
  }

  lemma ParseLeaf(st: Stack, t: Tree, rest: seq<Token>, limit: nat)
    requires Path(st) && Depth(st) < limit && WantsOperand(st.state) && (t.TVar? || t.TNum?)
    ensures Run(st, Yield(t) + rest, limit) == Resume(st, t, rest, limit)
  {
    hide Run, Path, Depth;
    var tok := Yield(t)[0];
    var s := if t.TVar? then 3 else 2;
    ShiftStep(st, tok, rest, s, limit);
    if Depth(st) + 1 < limit {
      ReduceStep(Push(st, s, STok(tok)), rest, if t.TVar? then 10 else 11, limit);
      LeafReduction(st, t);
    }
  }

  lemma NotReduction(st: Stack, a: Expr)
    requires Path(st) && WantsOperand(st.state)
    ensures var top := Push(Push(st, 1, STok(Bang)), 6, SExp(a));
      Reducible(top, 9) && Reduction(top, 9) == Operand(st, Not(a))
  {
    var bang := Push(st, 1, STok(Bang));
    PopOne(Push(bang, 6, SExp(a)));
    PopOne(bang);
    PopTwice(Push(bang, 6, SExp(a)), 1, 1);
    GotoMeaning(st.state, 9);
  }

  lemma ParenReduction(st: Stack, a: Expr)
    requires Path(st) && WantsOperand(st.state)
    ensures var top := Push(Push(Push(st, 4, STok(LParen)), 7, SExp(a)), 15, STok(RParen));
      Reducible(top, 12) && Reduction(top, 12) == Operand(st, a)
  {
    var open := Push(st, 4, STok(LParen));
    assert Path(open) && Path(Push(open, 7, SExp(a)));
    var top := Push(Push(open, 7, SExp(a)), 15, STok(RParen));
    ParenHandle(top);
    PopOne(top);
    PopThree(top);
    GotoMeaning(st.state, 12);
  }

  lemma BinReduction(st: Stack, a: Expr, op: BinOp, b: Expr)
    requires Path(st) && WantsOperand(st.state) && Floor(st.state) <= OpLevel(op)
    ensures var mid := Push(Operand(st, a), OpLevel(op) + 8, STok(Oper(op)));
      var top := Push(mid, OpLevel(op) + 16, SExp(b));
      Reducible(top, OpLevel(op) + 2) && Reduction(top, OpLevel(op) + 2) == Operand(st, Bin(op, a, b))
  {
    var mid := Push(Operand(st, a), OpLevel(op) + 8, STok(Oper(op)));
    var top := Push(mid, OpLevel(op) + 16, SExp(b));
    BinPath(st, a, op, b);
    GotoMeaning(st.state, OpLevel(op) + 2);
    PopOne(top);
    PopThree(top);
    hide Path, Depth, TableGoto;
  }

  lemma BinPath(st: Stack, a: Expr, op: BinOp, b: Expr)
    requires Path(st) && WantsOperand(st.state) && Floor(st.state) <= OpLevel(op)
    ensures var mid := Push(Operand(st, a), OpLevel(op) + 8, STok(Oper(op)));
      Path(mid) && Path(Push(mid, OpLevel(op) + 16, SExp(b)))
  {}

  lemma CondPath(st: Stack, a: Expr, b: Expr, c: Expr)
    requires Path(st) && WantsOperand(st.state) && Floor(st.state) == 0
    ensures var then0 := Operand(Push(Operand(st, a), 8, STok(Quest)), b);
      Path(then0) && Path(Push(Push(then0, 23, STok(Colon)), 24, SExp(c)))
  {
    var ask := Push(Operand(st, a), 8, STok(Quest));
    assert Path(ask);
    var colon := Push(Operand(ask, b), 23, STok(Colon));
    assert Path(colon);
  }

  lemma CondReduction(st: Stack, a: Expr, b: Expr, c: Expr)
    requires Path(st) && WantsOperand(st.state) && Floor(st.state) == 0
    ensures var then0 := Operand(Push(Operand(st, a), 8, STok(Quest)), b);
      var top := Push(Push(then0, 23, STok(Colon)), 24, SExp(c));
      Reducible(top, 2) && Reduction(top, 2) == Operand(st, Cond(a, b, c))
  {
    var ask := Push(Operand(st, a), 8, STok(Quest));
    var then0 := Operand(ask, b);
    var top := Push(Push(then0, 23, STok(Colon)), 24, SExp(c));
    CondPath(st, a, b, c);
    GotoMeaning(st.state, 2);
    CondPops(st, a, b, c);
    hide Path, Depth, TableGoto, Pop;
  }

  lemma CondPops(st: Stack, a: Expr, b: Expr, c: Expr)
    requires Path(st) && WantsOperand(st.state) && Floor(st.state) == 0
    ensures var then0 := Operand(Push(Operand(st, a), 8, STok(Quest)), b);
      var top := Push(Push(then0, 23, STok(Colon)), 24, SExp(c));
      5 < Depth(top) && Pop(top, 0) == top && Pop(top, 2) == then0 && Pop(top, 4) == Operand(st, a) && Pop(top, 5) == st
  {
    var then0 := Operand(Push(Operand(st, a), 8, STok(Quest)), b);
    var top := Push(Push(then0, 23, STok(Colon)), 24, SExp(c));
    assert 1 <= Depth(st);
    PopThree(top);
    PopThree(then0);
    hide Path;
    PopTwice(top, 2, 3);
    PopTwice(top, 2, 2);
  }

  lemma SplitBin(t: Tree, rest: seq<Token>)
    requires t.TBin?
    ensures Yield(t) + rest == Yield(t.left) + ([Oper(t.op)] + (Yield(t.right) + rest))
  {
  }

  lemma SplitCond(t: Tree, rest: seq<Token>)
    requires t.TCond?
    ensures Yield(t) + rest == Yield(t.test) + ([Quest] + (Yield(t.tbranch) + ([Colon] + (Yield(t.fbranch) + rest))))
  {
  }

  // The heart of completeness: reading the tokens of t on top of st is pushing Ast(t).
  lemma {:induction false} ParseTree(st: Stack, t: Tree, rest: seq<Token>, limit: nat)
    requires Path(st) && Depth(st) < limit && WantsOperand(st.state)
    requires WellFormed(t) && Floor(st.state) <= Level(t) && LeftOk(Level(t), rest)
    ensures Run(st, Yield(t) + rest, limit) == Resume(st, t, rest, limit)
    decreases t
  {
    match t
    case TVar => ParseLeaf(st, t, rest, limit);
    case TNum(_) => ParseLeaf(st, t, rest, limit);
    case TNot(a) => ParseNot(st, t, rest, limit);
    case TParen(i) => ParseParen(st, t, rest, limit);
    case TBin(_, _, _) => ParseBin(st, t, rest, limit);
    case TCond(_, _, _) => ParseCond(st, t, rest, limit);
  }

  lemma {:induction false} ParseNot(st: Stack, t: Tree, rest: seq<Token>, limit: nat)
    requires Path(st) && Depth(st) < limit && WantsOperand(st.state) && t.TNot?
    requires WellFormed(t) && Floor(st.state) <= Level(t) && LeftOk(Level(t), rest)
    ensures Run(st, Yield(t) + rest, limit) == Resume(st, t, rest, limit)
    decreases t, 0
  {
    hide Run, Path, Depth;
    assert Yield(t) + rest == [Bang] + (Yield(t.arg) + rest);
    ShiftStep(st, Bang, Yield(t.arg) + rest, 1, limit);
    if Depth(st) + 1 < limit {
      var inner := Push(st, 1, STok(Bang));
      ParseTree(inner, t.arg, rest, limit);
      if Depth(st) + Peak(t) < limit {
        ReduceStep(Operand(inner, Ast(t.arg)), rest, 9, limit);
        NotReduction(st, Ast(t.arg));
      }
    }
  }

  lemma {:induction false} ParseParen(st: Stack, t: Tree, rest: seq<Token>, limit: nat)
    requires Path(st) && Depth(st) < limit && WantsOperand(st.state) && t.TParen?
    requires WellFormed(t) && Floor(st.state) <= Level(t) && LeftOk(Level(t), rest)
    ensures Run(st, Yield(t) + rest, limit) == Resume(st, t, rest, limit)
    decreases t, 0
  {
    hide Run, Path, Depth;
    var close := [RParen] + rest;
    assert Yield(t) + rest == [LParen] + (Yield(t.inner) + close);
    ShiftStep(st, LParen, Yield(t.inner) + close, 4, limit);
    if Depth(st) + 1 < limit {
      var inner := Push(st, 4, STok(LParen));
      ParseTree(inner, t.inner, close, limit);
      if Depth(inner) + Peak(t.inner) < limit {
        var body := Operand(inner, Ast(t.inner));
        ShiftStep(body, RParen, rest, 15, limit);
        if Depth(st) + 3 < limit {
          ReduceStep(Push(body, 15, STok(RParen)), rest, 12, limit);
          ParenReduction(st, Ast(t.inner));
        }
      }
    }
  }

  lemma {:induction false} ParseBin(st: Stack, t: Tree, rest: seq<Token>, limit: nat)
    requires Path(st) && Depth(st) < limit && WantsOperand(st.state) && t.TBin?
    requires WellFormed(t) && Floor(st.state) <= Level(t) && LeftOk(Level(t), rest)
    ensures Run(st, Yield(t) + rest, limit) == Resume(st, t, rest, limit)
    decreases t, 1
  {
    hide Run, Path, Depth, Yield;
    var tail := Yield(t.right) + rest;
    SplitBin(t, rest);
    ParseTree(st, t.left, [Oper(t.op)] + tail, limit);
    if Depth(st) + Peak(t.left) < limit {
      var left := Operand(st, Ast(t.left));
      ShiftStep(left, Oper(t.op), tail, OpLevel(t.op) + 8, limit);
      if Depth(st) + 2 < limit {
        ParseRight(st, t, Push(left, OpLevel(t.op) + 8, STok(Oper(t.op))), rest, limit);
      }
    }
  }

  // The right operand, once the operator has been shifted.
  lemma {:induction false} ParseRight(st: Stack, t: Tree, mid: Stack, rest: seq<Token>, limit: nat)
    requires Path(st) && Depth(st) + 2 < limit && WantsOperand(st.state) && t.TBin?
    requires WellFormed(t) && Floor(st.state) <= Level(t) && LeftOk(Level(t), rest)
    requires mid == Push(Operand(st, Ast(t.left)), OpLevel(t.op) + 8, STok(Oper(t.op))) && Path(mid)
    requires Depth(mid) == Depth(st) + 2
    ensures Run(mid, Yield(t.right) + rest, limit) ==
      if Depth(st) + 2 + Peak(t.right) >= limit then Overflow else Run(Operand(st, Ast(t)), rest, limit)
    decreases t, 0
  {
    hide Run, Path, Depth, Yield;
    ParseTree(mid, t.right, rest, limit);
    if Depth(mid) + Peak(t.right) < limit {
      ReduceStep(Operand(mid, Ast(t.right)), rest, OpLevel(t.op) + 2, limit);
      BinReduction(st, Ast(t.left), t.op, Ast(t.right));
    }
  }

  lemma {:induction false} ParseCond(st: Stack, t: Tree, rest: seq<Token>, limit: nat)
    requires Path(st) && Depth(st) < limit && WantsOperand(st.state) && t.TCond?
    requires WellFormed(t) && Floor(st.state) <= Level(t) && LeftOk(Level(t), rest)
    ensures Run(st, Yield(t) + rest, limit) == Resume(st, t, rest, limit)
    decreases t, 1
  {
    hide Run, Path, Depth, Yield;
    var tail := [Colon] + (Yield(t.fbranch) + rest);
    SplitCond(t, rest);
    ParseTree(st, t.test, [Quest] + (Yield(t.tbranch) + tail), limit);
    if Depth(st) + Peak(t.test) < limit {
      var test := Operand(st, Ast(t.test));
      ShiftStep(test, Quest, Yield(t.tbranch) + tail, 8, limit);
      if Depth(st) + 2 < limit {
        ParseBranches(st, t, Push(test, 8, STok(Quest)), rest, limit);
      }
    }
  }

  lemma {:induction false} ParseBranches(st: Stack, t: Tree, ask: Stack, rest: seq<Token>, limit: nat)
    requires Path(st) && Depth(st) + 2 < limit && WantsOperand(st.state) && t.TCond?
    requires WellFormed(t) && Floor(st.state) == 0 && LeftOk(0, rest)
    requires ask == Push(Operand(st, Ast(t.test)), 8, STok(Quest)) && Path(ask) && Depth(ask) == Depth(st) + 2
    ensures Run(ask, Yield(t.tbranch) + ([Colon] + (Yield(t.fbranch) + rest)), limit) ==
        if Depth(st) + 2 + Peak(t.tbranch) >= limit || Depth(st) + 4 + Peak(t.fbranch) >= limit then Overflow
        else Run(Operand(st, Ast(t)), rest, limit)
    decreases t, 0
  {
    hide Run, Path, Depth, Yield;
    var tail := Yield(t.fbranch) + rest;
    ParseTree(ask, t.tbranch, [Colon] + tail, limit);
    if Depth(ask) + Peak(t.tbranch) < limit {
      var then0 := Operand(ask, Ast(t.tbranch));
      ShiftStep(then0, Colon, tail, 23, limit);
      if Depth(st) + 4 < limit {
        var colon := Push(then0, 23, STok(Colon));
        ParseTree(colon, t.fbranch, rest, limit);
        if Depth(colon) + Peak(t.fbranch) < limit {
          ReduceStep(Operand(colon, Ast(t.fbranch)), rest, 2, limit);
          CondReduction(st, Ast(t.test), Ast(t.tbranch), Ast(t.fbranch));
        }
      }
    }
  }
}
