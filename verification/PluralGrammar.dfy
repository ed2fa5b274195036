// The plural-expression language: tokens, expressions, and the precedence grammar
// as an independent reference (it mentions no parser state and no table).
module PluralGrammar {

  // The operators of `enum operator` that take two arguments.
  datatype BinOp = Mult | Divide | Module | Plus | Minus
    | LessThan | GreaterThan | LessOrEqual | GreaterOrEqual
    | Equal | NotEqual | Land | Lor

  // `struct expression`: the tree that the parser builds.
  datatype Expr = Var | Num(n: nat)
    | Not(arg: Expr)
    | Bin(op: BinOp, left: Expr, right: Expr)
    | Cond(test: Expr, tbranch: Expr, fbranch: Expr)

  // What the lexer returns. `Error` is YYERRCODE. The end of input is no token.
  datatype Token = Quest | Colon | Bang | N | LParen | RParen | Error
    | Number(n: nat)
    | Oper(op: BinOp)

  // Concrete syntax: an expression with its parentheses.
  datatype Tree = TVar | TNum(n: nat)
    | TParen(inner: Tree)
    | TNot(arg: Tree)
    | TBin(op: BinOp, left: Tree, right: Tree)
    | TCond(test: Tree, tbranch: Tree, fbranch: Tree)

  function Ast(t: Tree): Expr {
    match t
    case TVar => Var
    case TNum(n) => Num(n)
    case TParen(i) => Ast(i)
    case TNot(a) => Not(Ast(a))
    case TBin(op, l, r) => Bin(op, Ast(l), Ast(r))
    case TCond(c, x, y) => Cond(Ast(c), Ast(x), Ast(y))
  }

  function Yield(t: Tree): seq<Token> {
    match t
    case TVar => [N]
    case TNum(n) => [Number(n)]
    case TParen(i) => [LParen] + Yield(i) + [RParen]
    case TNot(a) => [Bang] + Yield(a)
    case TBin(op, l, r) => Yield(l) + [Oper(op)] + Yield(r)
    case TCond(c, x, y) => Yield(c) + [Quest] + Yield(x) + [Colon] + Yield(y)
  }

  // Precedence, lowest first: ?:  ||  &&  equality  comparison  additive  multiplicative  !  atoms.
  function OpLevel(op: BinOp): (k: nat)
    ensures 1 <= k <= 6
  {
    match op
    case Lor => 1
    case Land => 2
    case Equal => 3
    case NotEqual => 3
    case LessThan => 4
    case GreaterThan => 4
    case LessOrEqual => 4
    case GreaterOrEqual => 4
    case Plus => 5
    case Minus => 5
    case Mult => 6
    case Divide => 6
    case Module => 6
  }

  function Level(t: Tree): nat {
    match t
    case TCond(_, _, _) => 0
    case TBin(op, _, _) => OpLevel(op)
    case TNot(_) => 7
    case TVar => 8
    case TNum(_) => 8
    case TParen(_) => 8
  }

  // The precedence grammar: binary operators associate to the left, ?: to the right.
  predicate WellFormed(t: Tree) {
    match t
    case TVar => true
    case TNum(_) => true
    case TParen(i) => WellFormed(i)
    case TNot(a) => WellFormed(a) && 7 <= Level(a)
    case TBin(op, l, r) => WellFormed(l) && WellFormed(r) && OpLevel(op) <= Level(l) && OpLevel(op) < Level(r)
    case TCond(c, x, y) => WellFormed(c) && WellFormed(x) && WellFormed(y) && 1 <= Level(c)
  }

  // The stack entries a bottom-up parser needs above the entries it starts with.
  function Peak(t: Tree): (p: nat)
    ensures 1 <= p
  {
    match t
    case TVar => 1
    case TNum(_) => 1
    case TParen(i) => Max(1 + Peak(i), 3)
    case TNot(a) => 1 + Peak(a)
    case TBin(_, l, r) => Max(Peak(l), 2 + Peak(r))
    case TCond(c, x, y) => Max(Peak(c), Max(2 + Peak(x), 4 + Peak(y)))
  }

  function Max(a: nat, b: nat): nat { if a < b then b else a }

  // The printer: parentheses exactly where precedence or associativity demands them.
  function Wrap(t: Tree, floor: nat): Tree {
    if Level(t) < floor then TParen(t) else t
  }

  function Minimal(e: Expr): Tree {
    match e
    case Var => TVar
    case Num(n) => TNum(n)
    case Not(a) => TNot(Wrap(Minimal(a), 7))
    case Bin(op, l, r) => TBin(op, Wrap(Minimal(l), OpLevel(op)), Wrap(Minimal(r), OpLevel(op) + 1))
    case Cond(c, x, y) => TCond(Wrap(Minimal(c), 1), Minimal(x), Minimal(y))
  }

  // The printed form is in the grammar, denotes the expression, and never wraps
  // anything that could have stood bare.
  lemma {:induction false} MinimalCorrect(e: Expr)
    ensures WellFormed(Minimal(e)) && Ast(Minimal(e)) == e
    ensures !Minimal(e).TParen?
  {
    match e
    case Var =>
    case Num(_) =>
    case Not(a) => MinimalCorrect(a);
    case Bin(_, l, r) => MinimalCorrect(l); MinimalCorrect(r);
    case Cond(c, x, y) => MinimalCorrect(c); MinimalCorrect(x); MinimalCorrect(y);
  }

  function Parens(t: Tree): nat {
    match t
    case TVar => 0
    case TNum(_) => 0
    case TParen(i) => 1 + Parens(i)
    case TNot(a) => Parens(a)
    case TBin(_, l, r) => Parens(l) + Parens(r)
    case TCond(c, x, y) => Parens(c) + Parens(x) + Parens(y)
  }

  // No tree of the grammar for the same expression has fewer parentheses.
  lemma {:induction false} MinimalFewest(t: Tree)
    requires WellFormed(t)
    ensures Parens(Minimal(Ast(t))) <= Parens(t)
    ensures !t.TParen? ==> Level(Minimal(Ast(t))) == Level(t)
    ensures t.TParen? ==> Parens(Minimal(Ast(t))) < Parens(t)
  {
    match t
    case TVar =>
    case TNum(_) =>
    case TParen(i) => MinimalFewest(i);
    case TNot(a) => MinimalFewest(a);
    case TBin(_, l, r) => MinimalFewest(l); MinimalFewest(r);
    case TCond(c, x, y) => MinimalFewest(c); MinimalFewest(x); MinimalFewest(y);
  }
}
