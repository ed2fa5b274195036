// The tables that Bison generated for the plural grammar, and what they decide.
module PluralTables {
  import opened PluralGrammar

  const YYFLAG := -32768
  const YYLAST := 53
  const YYFINAL := 27
  const YYNTBASE := 16

  function yypact(i: nat): int
    requires i < 28
  {
    match i
    case 0 => -9
    case 1 => -9 case 2 => YYFLAG case 3 => YYFLAG case 4 => -9 case 5 => 34
    case 6 => YYFLAG case 7 => 11 case 8 => -9 case 9 => -9 case 10 => -9
    case 11 => -9 case 12 => -9 case 13 => -9 case 14 => -9 case 15 => YYFLAG
    case 16 => 24 case 17 => 39 case 18 => 43 case 19 => 16 case 20 => 26
    case 21 => -3 case 22 => YYFLAG case 23 => -9 case 24 => 34 case 25 => 21 case 26 => 53 case _ => YYFLAG
  }

  function yydefact(i: nat): int
    requires i < 28
  {
    match i
    case 0 => 0
    case 1 => 0 case 2 => 11 case 3 => 10 case 4 => 0 case 5 => 1
    case 6 => 9 case 7 => 0 case 8 => 0 case 9 => 0 case 10 => 0
    case 11 => 0 case 12 => 0 case 13 => 0 case 14 => 0 case 15 => 12
    case 16 => 0 case 17 => 3 case 18 => 4 case 19 => 5 case 20 => 6
    case 21 => 7 case 22 => 8 case 23 => 0 case 24 => 2 case 25 => 0 case 26 => 0 case _ => 0
  }

  function yytable(i: nat): int
    requires i < 54
  {
    match i
    case 0 => 6
    case 1 => 1 case 2 => 2 case 3 => 7 case 4 => 3 case 5 => 4
    case 6 => 14 case 7 => 16 case 8 => 17 case 9 => 18 case 10 => 19
    case 11 => 20 case 12 => 21 case 13 => 22 case 14 => 8 case 15 => 9
    case 16 => 10 case 17 => 11 case 18 => 12 case 19 => 13 case 20 => 14
    case 21 => 26 case 22 => 24 case 23 => 12 case 24 => 13 case 25 => 14
    case 26 => 15 case 27 => 8 case 28 => 9 case 29 => 10 case 30 => 11
    case 31 => 12 case 32 => 13 case 33 => 14 case 34 => 13 case 35 => 14
    case 36 => 23 case 37 => 8 case 38 => 9 case 39 => 10 case 40 => 11
    case 41 => 12 case 42 => 13 case 43 => 14 case 44 => 10 case 45 => 11
    case 46 => 12 case 47 => 13 case 48 => 14 case 49 => 11 case 50 => 12
    case 51 => 13 case 52 => 14 case _ => 27
  }

  function yycheck(i: nat): int
    requires i < 54
  {
    match i
    case 0 => 1
    case 1 => 10 case 2 => 11 case 3 => 4 case 4 => 13 case 5 => 14
    case 6 => 9 case 7 => 8 case 8 => 9 case 9 => 10 case 10 => 11
    case 11 => 12 case 12 => 13 case 13 => 14 case 14 => 3 case 15 => 4
    case 16 => 5 case 17 => 6 case 18 => 7 case 19 => 8 case 20 => 9
    case 21 => 0 case 22 => 23 case 23 => 7 case 24 => 8 case 25 => 9
    case 26 => 15 case 27 => 3 case 28 => 4 case 29 => 5 case 30 => 6
    case 31 => 7 case 32 => 8 case 33 => 9 case 34 => 8 case 35 => 9
    case 36 => 12 case 37 => 3 case 38 => 4 case 39 => 5 case 40 => 6
    case 41 => 7 case 42 => 8 case 43 => 9 case 44 => 5 case 45 => 6
    case 46 => 7 case 47 => 8 case 48 => 9 case 49 => 6 case 50 => 7
    case 51 => 8 case 52 => 9 case _ => 0
  }

  function yyr1(rule: nat): int
    requires rule < 13
  {
    match rule
    case 0 => 0
    case 1 => 16
    case _ => 17
  }

  function yyr2(rule: nat): nat
    requires rule < 13
  {
    match rule
    case 0 => 0
    case 1 => 1 case 2 => 5 case 3 => 3 case 4 => 3 case 5 => 3 case 6 => 3
    case 7 => 3 case 8 => 3 case 9 => 2 case 10 => 1 case 11 => 1 case _ => 3
  }

  const yydefgoto: seq<int> := [25, 5]
  const yypgoto: seq<int> := [YYFLAG, -1]

  // The internal number of a token: YYTRANSLATE of what the lexer returns.
  function Code(t: Token): (c: nat)
    ensures 1 <= c <= 15 && c != 2
  {
    match t
    case Error => 1
    case Quest => 3
    case Bang => 10
    case Number(_) => 11
    case Colon => 12
    case N => 13
    case LParen => 14
    case RParen => 15
    case Oper(op) => OpLevel(op) + 3
  }

  datatype Action = Shift(state: nat) | Reduce(rule: nat) | Accept | Fail

  // yybackup and yydefault of the skeleton: the decision in `state` on internal token `c`.
  function TableAction(state: nat, c: nat): Action
    requires state < 28 && c < 16
  {
    var n := yypact(state);
    if n == YYFLAG || n + c < 0 || n + c > YYLAST || yycheck(n + c) != c then
      var d := yydefact(state);
      if d == 0 then Fail else Reduce(d)
    else
      var a := yytable(n + c);
      if a < 0 then (if a == YYFLAG then Fail else Reduce(-a))
      else if a == 0 then Fail
      else if a == YYFINAL then Accept
      else Shift(a)
  }

  // The state entered after a reduction by `rule` uncovers `state`.
  function TableGoto(state: nat, rule: nat): int
    requires state < 28 && 1 <= rule <= 12
  {
    var k := yyr1(rule) - YYNTBASE;
    var g := yypgoto[k] + state;
    if 0 <= g <= YYLAST && yycheck(g) == state then yytable(g) else yydefgoto[k]
  }

  // ---- What the states mean ----

  // States in which an operand must follow.
  predicate WantsOperand(s: nat) { s == 0 || s == 1 || s == 4 || 8 <= s <= 14 || s == 23 }

  // States entered after an operand has been read.
  predicate AfterOperand(s: nat) { s == 5 || s == 6 || s == 7 || 16 <= s <= 22 || s == 24 }

  // The lowest precedence that an operand read in state p may have.
  function Floor(p: nat): nat
    requires WantsOperand(p)
  {
    if p == 1 then 7 else if 9 <= p <= 14 then p - 7 else 0
  }

  // The state entered when an operand has been read in state p.
  function After(p: nat): (q: nat)
    requires WantsOperand(p)
    ensures AfterOperand(q)
  {
    if p == 0 then 5 else if p == 1 then 6 else if p == 4 then 7
    else if 8 <= p <= 14 then p + 8 else 24
  }

  // The state in which that operand was awaited.
  function Before(q: nat): (p: nat)
    requires AfterOperand(q)
    ensures WantsOperand(p) && After(p) == q
  {
    if q == 5 then 0 else if q == 6 then 1 else if q == 7 then 4
    else if 16 <= q <= 22 then q - 8 else 23
  }

  // The rule that ends with an operand in state q; 0 when something must still follow.
  function Complete(q: nat): nat
    requires AfterOperand(q)
  {
    if q == 5 then 1 else if q == 6 then 9 else if 17 <= q <= 22 then q - 14
    else if q == 24 then 2 else 0
  }

  function SpecAction(s: nat, c: nat): Action
    requires s < 28 && c < 16
  {
    if WantsOperand(s) then
      (if c == 10 then Shift(1) else if c == 11 then Shift(2) else if c == 13 then Shift(3)
       else if c == 14 then Shift(4) else Fail)
    else if s == 2 then Reduce(11)
    else if s == 3 then Reduce(10)
    else if s == 15 then Reduce(12)
    else if s == 25 then (if c == 0 then Shift(26) else Fail)
    else if s == 26 then (if c == 0 then Accept else Fail)
    else if s == 27 then Fail
    else if 3 <= c <= 9 && Floor(Before(s)) <= c - 3 then Shift(c + 5)
    else if s == 7 && c == 15 then Shift(15)
    else if s == 16 && c == 12 then Shift(23)
    else if Complete(s) == 0 then Fail
    else Reduce(Complete(s))
  }

  // The 28 rows of the automaton, checked entry by entry in four groups.
  lemma OperandRows(s: nat, c: nat)
    requires s < 28 && c < 16 && WantsOperand(s)
    ensures TableAction(s, c) == SpecAction(s, c)
  {
    assert yypact(s) == -9;
    assert yydefact(s) == 0;
  }

  lemma ClosedRows(s: nat, c: nat)
    requires s < 28 && c < 16 && !WantsOperand(s) && !AfterOperand(s)
    ensures TableAction(s, c) == SpecAction(s, c)
  {
  }

  lemma OpenRows(s: nat, c: nat)
    requires c < 16 && (5 <= s <= 7 || s == 16 || s == 24)
    ensures TableAction(s, c) == SpecAction(s, c)
  {
  }

  lemma BinaryRows(s: nat, c: nat)
    requires c < 16 && 17 <= s <= 22
    ensures TableAction(s, c) == SpecAction(s, c)
  {
  }

  lemma ActionMeaning(s: nat, c: nat)
    requires s < 28 && c < 16
    ensures TableAction(s, c) == SpecAction(s, c)
  {
    if WantsOperand(s) {
      OperandRows(s, c);
    } else if 17 <= s <= 22 {
      BinaryRows(s, c);
    } else if AfterOperand(s) {
      OpenRows(s, c);
    } else {
      ClosedRows(s, c);
    }
  }

  lemma GotoMeaning(p: nat, rule: nat)
    requires p < 28 && 1 <= rule <= 12
    requires rule == 1 ==> p == 0
    requires rule != 1 ==> WantsOperand(p)
    ensures TableGoto(p, rule) == if rule == 1 then 25 else After(p)
  {
  }
}
