// yyparse: the table-driven automaton as a function, and what it accepts.
module PluralParser {
  import opened PluralGrammar
  import opened PluralTables

  const YYMAXDEPTH := 10000

  // A semantic value: nothing yet, a shifted token, or a built expression.
  datatype Sem = SNone | STok(t: Token) | SExp(e: Expr)

  // The state stack and the value stack, side by side.
  datatype Stack = Nil | Push(below: Stack, state: nat, sem: Sem)

  datatype Outcome = Accepted(e: Expr) | SyntaxError | Overflow

  datatype Move = Stop(outcome: Outcome) | Go(st: Stack, rest: seq<Token>)

  function Depth(st: Stack): nat {
    if st.Nil? then 0 else 1 + Depth(st.below)
  }

  function Lookahead(input: seq<Token>): (c: nat)
    ensures c < 16
    ensures c == 0 <==> input == []
  {
    if input == [] then 0 else Code(input[0])
  }

  // The transitions of the automaton: q can lie directly above p.
  predicate Edge(p: nat, q: nat) {
    if AfterOperand(q) then p == Before(q)
    else if 1 <= q <= 4 then WantsOperand(p)
    else if 8 <= q <= 14 then AfterOperand(p) && Floor(Before(p)) <= q - 8
    else (q == 15 && p == 7) || (q == 23 && p == 16) || (q == 25 && p == 0) || (q == 26 && p == 25)
  }

  predicate SemFits(q: nat, sem: Sem) {
    (AfterOperand(q) || q == 25 ==> sem.SExp?) &&
    (q == 2 ==> sem.STok? && sem.t.Number?) &&
    (9 <= q <= 14 ==> sem.STok? && sem.t.Oper? && OpLevel(sem.t.op) == q - 8)
  }

  // Every stack the parser can build: a path of the automaton from state 0.
  predicate Path(st: Stack) {
    st.Push? && SemFits(st.state, st.sem) &&
    if st.below.Nil? then st.state == 0 else Path(st.below) && Edge(st.below.state, st.state)
  }

  function Weight(s: nat): nat {
    if s == 2 || s == 3 then 3 else if AfterOperand(s) then 2 else if s == 26 then 0 else 1
  }

  function Total(st: Stack): nat {
    if st.Nil? then 0 else Weight(st.state) + Total(st.below)
  }

  // The state in which `rule` is complete.
  function Handle(rule: nat): (q: nat)
    requires 1 <= rule <= 12
  {
    if rule == 1 then 5 else if rule == 2 then 24 else if rule <= 8 then rule + 14
    else if rule == 9 then 6 else if rule == 10 then 3 else if rule == 11 then 2 else 15
  }

  predicate Reducible(st: Stack, rule: nat) {
    Path(st) && 1 <= rule <= 12 && st.state == Handle(rule)
  }

  function Pop(st: Stack, n: nat): (r: Stack)
    requires n <= Depth(st)
    ensures Depth(r) == Depth(st) - n
  {
    if n == 0 then st else Pop(st.below, n - 1)
  }

  // yyvsp[-k]
  function Value(st: Stack, k: nat): Sem
    requires k < Depth(st)
  {
    Pop(st, k).sem
  }

  lemma PopTwice(st: Stack, m: nat, n: nat)
    requires m + n <= Depth(st)
    ensures Pop(Pop(st, m), n) == Pop(st, m + n)
  {
  }

  // An operand on the stack lies above a state that was waiting for it.
  lemma OperandBelow(st: Stack)
    requires Path(st) && AfterOperand(st.state)
    ensures 1 < Depth(st) && Path(Pop(st, 1)) && Pop(st, 1).state == Before(st.state)
    ensures st.sem.SExp? && Total(Pop(st, 1)) + 2 == Total(st)
  {
  }

  // The two operands around an infix symbol.
  lemma OperandsBelow(st: Stack)
    requires Path(st) && AfterOperand(st.state) && 16 <= st.state
    ensures 3 < Depth(st) && Path(Pop(st, 2)) && Path(Pop(st, 3))
    ensures Value(st, 0).SExp? && Value(st, 2).SExp? && Pop(st, 1).state == Before(st.state)
    ensures AfterOperand(Pop(st, 2).state) && Pop(st, 3).state == Before(Pop(st, 2).state)
    ensures Total(Pop(st, 3)) + 5 == Total(st)
    ensures st.state == 24 ==> Pop(st, 2).state == 16
    ensures 17 <= st.state <= 22 ==>
      Value(st, 1).STok? && Value(st, 1).t.Oper? && OpLevel(Value(st, 1).t.op) == st.state - 16
    ensures st.state <= 22 ==> Floor(Pop(st, 3).state) <= st.state - 16
  {
    OperandBelow(st);
    OperandBelow(st.below.below);
    PopTwice(st, 1, 1);
    PopTwice(st, 2, 1);
  }

  lemma CondHandle(st: Stack)
    requires Reducible(st, 2)
    ensures 5 < Depth(st) && Path(Pop(st, 5)) && WantsOperand(Pop(st, 5).state) && Total(Pop(st, 5)) + 3 <= Total(st)
    ensures Value(st, 0).SExp? && Value(st, 2).SExp? && Value(st, 4).SExp?
  {
    OperandsBelow(st);
    OperandsBelow(Pop(st, 2));
    PopTwice(st, 2, 1);
    PopTwice(st, 2, 2);
    PopTwice(st, 2, 3);
  }

  lemma NotHandle(st: Stack)
    requires Reducible(st, 9)
    ensures 2 < Depth(st) && Path(Pop(st, 2)) && WantsOperand(Pop(st, 2).state) && Total(Pop(st, 2)) + 3 <= Total(st)
  {
    OperandBelow(st);
    PopTwice(st, 1, 1);
  }

  lemma ParenHandle(st: Stack)
    requires Reducible(st, 12)
    ensures 3 < Depth(st) && Path(Pop(st, 3)) && WantsOperand(Pop(st, 3).state) && Total(Pop(st, 3)) + 3 <= Total(st)
    ensures Value(st, 1).SExp?
  {
    OperandBelow(st.below);
    PopTwice(st, 1, 1);
    PopTwice(st, 2, 1);
  }

  // Whenever the tables reduce, the right-hand side of the rule is on the stack, with its values.
  lemma HandlePresent(st: Stack, rule: nat)
    requires Reducible(st, rule)
    ensures yyr2(rule) < Depth(st)
    ensures Path(Pop(st, yyr2(rule)))
    ensures if rule == 1 then Pop(st, 1).state == 0 else WantsOperand(Pop(st, yyr2(rule)).state)
    ensures Total(Pop(st, yyr2(rule))) + (if rule == 1 then 2 else 3) <= Total(st)
    ensures rule <= 9 ==> Value(st, 0).SExp?
    ensures 2 <= rule <= 8 ==> Value(st, 2).SExp?
    ensures 3 <= rule <= 8 ==> Value(st, 1).STok? && Value(st, 1).t.Oper? && OpLevel(Value(st, 1).t.op) == rule - 2
    ensures rule == 2 ==> Value(st, 4).SExp?
    ensures rule == 11 ==> Value(st, 0).STok? && Value(st, 0).t.Number?
    ensures rule == 12 ==> Value(st, 1).SExp?
  {
    if rule == 2 {
      CondHandle(st);
    } else if rule <= 8 {
      if rule != 1 {
        OperandsBelow(st);
      }
    } else if rule == 9 {
      NotHandle(st);
    } else if rule == 12 {
      ParenHandle(st);
    }
  }

  // The semantic actions of the grammar.
  function Build(st: Stack, rule: nat): (v: Sem)
    requires Reducible(st, rule)
    ensures v.SExp?
  {
    HandlePresent(st, rule);
    if rule == 1 then Value(st, 0)
    else if rule == 2 then SExp(Cond(Value(st, 4).e, Value(st, 2).e, Value(st, 0).e))
    else if rule == 3 then SExp(Bin(Lor, Value(st, 2).e, Value(st, 0).e))
    else if rule == 4 then SExp(Bin(Land, Value(st, 2).e, Value(st, 0).e))
    else if rule <= 8 then SExp(Bin(Value(st, 1).t.op, Value(st, 2).e, Value(st, 0).e))
    else if rule == 9 then SExp(Not(Value(st, 0).e))
    else if rule == 10 then SExp(Var)
    else if rule == 11 then SExp(Num(Value(st, 0).t.n))
    else Value(st, 1)
  }

  function Reduction(st: Stack, rule: nat): (r: Stack)
    requires Reducible(st, rule)
    ensures r.Push? && Path(r) && Total(r) < Total(st) && Depth(r) <= Depth(st)
    ensures r.below.Push? && (if rule == 1 then r.state == 25 else AfterOperand(r.state))
  {
    HandlePresent(st, rule);
    var base := Pop(st, yyr2(rule));
    GotoMeaning(base.state, rule);
    Push(base, TableGoto(base.state, rule), Build(st, rule))
  }

  function Shifted(st: Stack, s: nat, input: seq<Token>): Stack {
    Push(st, s, if input == [] then SNone else STok(input[0]))
  }

  function Rest(input: seq<Token>): seq<Token> {
    if input == [] then [] else input[1..]
  }

  function Measure(st: Stack, input: seq<Token>): nat {
    Total(st) + 4 * |input|
  }

  function AtEnd(st: Stack): nat {
    if st.Push? && st.state == 26 then 0 else 1
  }

  // A shift keeps the stack a path; only the end marker is shifted without consuming input.
  lemma ShiftSound(st: Stack, s: nat, input: seq<Token>)
    requires Path(st) && st.state < 27 && SpecAction(st.state, Lookahead(input)) == Shift(s)
    ensures Path(Shifted(st, s, input))
    ensures s == 26 <==> input == []
    ensures Measure(Shifted(st, s, input), Rest(input)) <= Measure(st, input)
    ensures input != [] ==> Measure(Shifted(st, s, input), Rest(input)) < Measure(st, input)
    ensures input == [] ==> st.state == 25
  {
    if input != [] {
      assert Edge(st.state, s);
      assert SemFits(s, STok(input[0]));
    }
  }

  lemma DecisionSound(st: Stack, input: seq<Token>)
    requires Path(st) && st.state < 27
    ensures SpecAction(st.state, Lookahead(input)).Reduce? ==>
      Reducible(st, SpecAction(st.state, Lookahead(input)).rule)
    ensures SpecAction(st.state, Lookahead(input)).Accept? ==> st.state == 26 && Path(st.below) && st.below.state == 25
  {
  }

  lemma StatesBelow27(st: Stack)
    requires Path(st)
    ensures st.state < 27
  {
  }

  // One round of yybackup .. yynewstate, when the stacks can grow to `limit` entries.
  function Step(st: Stack, input: seq<Token>, limit: nat): (m: Move)
    requires Path(st) && Depth(st) < limit
    ensures m.Go? ==> Path(m.st) && Depth(m.st) < limit
    ensures m.Go? ==> Measure(m.st, m.rest) <= Measure(st, input)
    ensures m.Go? && Measure(m.st, m.rest) == Measure(st, input) ==> AtEnd(m.st) < AtEnd(st)
  {
    StatesBelow27(st);
    ActionMeaning(st.state, Lookahead(input));
    DecisionSound(st, input);
    match TableAction(st.state, Lookahead(input))
    case Accept => Stop(Accepted(st.below.sem.e))
    case Fail => Stop(SyntaxError)
    case Reduce(rule) => Go(Reduction(st, rule), input)
    case Shift(s) =>
      ShiftSound(st, s, input);
      if Depth(st) + 1 >= limit then Stop(Overflow) else Go(Shifted(st, s, input), Rest(input))
  }

  const START := Push(Nil, 0, SNone)

  function Run(st: Stack, input: seq<Token>, limit: nat): Outcome
    requires Path(st) && Depth(st) < limit
    decreases Measure(st, input), AtEnd(st)
  {
    match Step(st, input, limit)
    case Stop(o) => o
    case Go(st', rest) => Run(st', rest, limit)
  }

  function ParseWithin(input: seq<Token>, limit: nat): Outcome
    requires 3 < limit
  {
    Run(START, input, limit)
  }

  function Parse(input: seq<Token>): Outcome {
    ParseWithin(input, YYMAXDEPTH)
  }
}
