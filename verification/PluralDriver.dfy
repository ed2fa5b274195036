// The imperative scanner and parser: pointers, growing stacks, error recovery.
module PluralDriver {
  import opened PluralGrammar
  import opened PluralTables
  import opened PluralParser
  import opened PluralLexer
  import opened PluralCompleteness

  const YYEMPTY := -2
  const YYEOF := 0
  const YYERRCODE := 256
  const YYINITDEPTH := 200

  // The union of semantic values.
  datatype YYSTYPE = Uninit | NumVal(num: nat) | OpVal(op: BinOp) | ExpVal(exp: Expr)

  // What yylex returns for a token, and YYTRANSLATE of it.
  function External(t: Token): (x: int)
    ensures 0 < x && yytranslate(x) == Code(t)
  {
    match t
    case Quest => '?' as int
    case Colon => ':' as int
    case Bang => '!' as int
    case N => 'n' as int
    case LParen => '(' as int
    case RParen => ')' as int
    case Error => YYERRCODE
    case Number(_) => 261
    case Oper(op) => if op == Lor then '|' as int else if op == Land then '&' as int else 254 + OpLevel(op)
  }

  function yytranslate(x: int): int {
    if x == 0 then 0
    else if x == 33 then 10 else if x == 38 then 5 else if x == 40 then 14 else if x == 41 then 15
    else if x == 58 then 12 else if x == 63 then 3 else if x == 110 then 13 else if x == 124 then 4
    else if x == 256 then 1 else if x == 257 then 6 else if x == 258 then 7 else if x == 259 then 8
    else if x == 260 then 9 else if x == 261 then 11
    else if 0 <= x <= 261 then 2 else 18
  }

  // The value yylex leaves in *lval; it touches it only for numbers and for the CMP, EQ, ADD and MUL operators.
  predicate LvalFits(v: YYSTYPE, t: Token) {
    (t.Number? ==> v == NumVal(t.n)) &&
    (t.Oper? && t.op != Lor && t.op != Land ==> v == OpVal(t.op))
  }

  // The digit loop of the scanner.
  method YyLexNumber(cp: string, pexp: nat, first: nat, word: nat) returns (n: nat, exp: nat)
    requires pexp <= |cp| && 0 < word
    ensures exp <= |cp| && ScanDigits(cp[pexp..], first, word) == (n, cp[exp..])
  {
    n, exp := first, pexp;
    while exp < |cp| && Digit(cp[exp])
      invariant exp <= |cp|
      invariant ScanDigits(cp[exp..], n, word) == ScanDigits(cp[pexp..], first, word)
    {
      n := (n * 10 + DigitValue(cp[exp])) % word;
      exp := exp + 1;
    }
  }

  method YyLex(cp: string, pexp: nat, lval: YYSTYPE, word: nat) returns (result: int, newval: YYSTYPE, newpexp: nat)
    requires pexp <= |cp| && 9 < word
    ensures newpexp <= |cp|
    ensures match NextToken(cp[pexp..], word)
      case End(rest) => result == YYEOF && cp[newpexp..] == rest
      case Lexeme(t, rest) => result == External(t) && LvalFits(newval, t) && cp[newpexp..] == rest
  {
    var exp := pexp;
    while exp < |cp| && cp[exp] != '\0' && Blank(cp[exp])
      invariant pexp <= exp <= |cp|
      invariant SkipBlanks(cp[exp..]) == SkipBlanks(cp[pexp..])
    {
      exp := exp + 1;
    }
    if exp == |cp| || cp[exp] == '\0' {
      return YYEOF, lval, exp;
    }
    result, newval, newpexp := YyLexSwitch(cp, exp, lval, word);
  }

  // The cases of the switch that look at a second character.
  method YyLexPair(cp: string, pexp: nat, lval: YYSTYPE, word: nat) returns (result: int, newval: YYSTYPE, exp: nat)
    requires pexp < |cp| && 9 < word && cp[pexp] in "=!&|<>"
    ensures exp <= |cp|
    ensures match Scan(cp[pexp..], word)
      case End(_) => false
      case Lexeme(t, rest) => result == External(t) && LvalFits(newval, t) && cp[exp..] == rest
  {
    var c := cp[pexp];
    exp := pexp + 1;
    assert cp[pexp..][1..] == cp[exp..];
    assert exp < |cp| ==> cp[exp..][1..] == cp[exp + 1..];
    newval := lval;
    result := c as int;
    var next := if exp < |cp| then cp[exp] else '\0';
    match c {
      case '=' =>
        if next == '=' { exp := exp + 1; newval := OpVal(Equal); result := 257; }
        else { result := YYERRCODE; }
      case '!' =>
        if next == '=' { exp := exp + 1; newval := OpVal(NotEqual); result := 257; }
      case '<' =>
        if next == '=' { exp := exp + 1; newval := OpVal(LessOrEqual); } else { newval := OpVal(LessThan); }
        result := 258;
      case '>' =>
        if next == '=' { exp := exp + 1; newval := OpVal(GreaterOrEqual); } else { newval := OpVal(GreaterThan); }
        result := 258;
      case _ =>
        if next == c { exp := exp + 1; } else { result := YYERRCODE; }
    }
  }

  // The switch on the first character that is not blank.
  method YyLexSwitch(cp: string, pexp: nat, lval: YYSTYPE, word: nat)
    returns (result: int, newval: YYSTYPE, newpexp: nat)
    requires pexp < |cp| && 9 < word
    ensures newpexp <= |cp|
    ensures match Scan(cp[pexp..], word)
      case End(rest) => result == YYEOF && cp[newpexp..] == rest
      case Lexeme(t, rest) => result == External(t) && LvalFits(newval, t) && cp[newpexp..] == rest
  {
    var c := cp[pexp];
    if c in "=!&|<>" {
      result, newval, newpexp := YyLexPair(cp, pexp, lval, word);
      return;
    }
    var exp := pexp + 1;
    assert cp[pexp..][1..] == cp[exp..];
    newval := lval;
    result := c as int;
    if Digit(c) {
      var n;
      n, exp := YyLexNumber(cp, exp, DigitValue(c), word);
      return 261, NumVal(n), exp;
    }
    match c {
      case '*' => newval := OpVal(Mult); result := 260;
      case '/' => newval := OpVal(Divide); result := 260;
      case '%' => newval := OpVal(Module); result := 260;
      case '+' => newval := OpVal(Plus); result := 259;
      case '-' => newval := OpVal(Minus); result := 259;
      case 'n' =>
      case '?' =>
      case ':' =>
      case '(' =>
      case ')' =>
      case ';' => exp := exp - 1; result := YYEOF;
      case '\n' => exp := exp - 1; result := YYEOF;
      case '\0' => exp := exp - 1; result := YYEOF;
      case _ => result := YYERRCODE;
    }
    newpexp := exp;
  }

  // ---- yyparse ----

  // An entry of the value stack agrees with the entry of the model, where the grammar will look at it.
  predicate Holds(q: nat, v: YYSTYPE, sem: Sem) {
    && (AfterOperand(q) || q == 25 ==> sem.SExp? && v == ExpVal(sem.e))
    && (q == 2 ==> sem.STok? && sem.t.Number? && v == NumVal(sem.t.n))
    && (11 <= q <= 14 ==> sem.STok? && sem.t.Oper? && v == OpVal(sem.t.op))
  }

  // The two C stacks represent `st`.
  predicate Matches(st: Stack, ss: seq<int>, vs: seq<YYSTYPE>)
    decreases st
  {
    if st.Nil? then ss == [] && vs == []
    else
      var n := |ss| - 1;
      0 <= n && |vs| == n + 1 && ss[n] == st.state && Holds(st.state, vs[n], st.sem)
      && Matches(st.below, ss[..n], vs[..n])
  }

  lemma {:induction false} MatchesDepth(st: Stack, ss: seq<int>, vs: seq<YYSTYPE>)
    requires Matches(st, ss, vs)
    ensures |ss| == |vs| == Depth(st)
  {
    if st.Push? {
      MatchesDepth(st.below, ss[..|ss| - 1], vs[..|vs| - 1]);
    }
  }

  lemma {:induction false} MatchesPop(st: Stack, ss: seq<int>, vs: seq<YYSTYPE>, k: nat)
    requires Matches(st, ss, vs) && k <= Depth(st)
    ensures |ss| == |vs| == Depth(st) && Matches(Pop(st, k), ss[..|ss| - k], vs[..|vs| - k])
    ensures k < Depth(st) ==>
      ss[|ss| - 1 - k] == Pop(st, k).state && Holds(Pop(st, k).state, vs[|vs| - 1 - k], Value(st, k))
  {
    MatchesDepth(st, ss, vs);
    if k == 0 {
      assert ss[..|ss|] == ss && vs[..|vs|] == vs;
    } else {
      var n := |ss| - 1;
      MatchesPop(st.below, ss[..n], vs[..n], k - 1);
      assert ss[..n][..n - (k - 1)] == ss[..|ss| - k];
      assert vs[..n][..n - (k - 1)] == vs[..|vs| - k];
    }
  }

  lemma MatchesPush(st: Stack, ss: seq<int>, vs: seq<YYSTYPE>, q: nat, v: YYSTYPE, sem: Sem)
    requires Matches(st, ss, vs) && Holds(q, v, sem)
    ensures Matches(Push(st, q, sem), ss + [q], vs + [v])
  {
    MatchesDepth(st, ss, vs);
    assert (ss + [q])[..|ss|] == ss && (vs + [v])[..|vs|] == vs;
  }

  // The value stack holds what the action of `rule` reads.
  lemma OperandsHeld(st: Stack, rule: nat, ss: seq<int>, vs: seq<YYSTYPE>)
    requires Reducible(st, rule) && 2 <= rule <= 8 && Matches(st, ss, vs)
    ensures 4 <= |vs| == Depth(st) && Value(st, 0).SExp? && Value(st, 2).SExp?
    ensures vs[|vs| - 1] == ExpVal(Value(st, 0).e) && vs[|vs| - 3] == ExpVal(Value(st, 2).e)
    ensures 5 <= rule ==> Value(st, 1).STok? && Value(st, 1).t.Oper? && vs[|vs| - 2] == OpVal(Value(st, 1).t.op)
    ensures rule == 2 ==> 6 <= |vs| && Value(st, 4).SExp? && vs[|vs| - 5] == ExpVal(Value(st, 4).e)
  {
    hide Matches;
    OperandsBelow(st);
    MatchesPop(st, ss, vs, 0);
    MatchesPop(st, ss, vs, 1);
    MatchesPop(st, ss, vs, 2);
    if rule == 2 {
      CondHandle(st);
      OperandsBelow(Pop(st, 2));
      PopTwice(st, 2, 2);
      MatchesPop(st, ss, vs, 4);
    }
  }

  lemma OperandHeld(st: Stack, rule: nat, ss: seq<int>, vs: seq<YYSTYPE>)
    requires Reducible(st, rule) && (rule == 1 || rule == 9 || rule == 11 || rule == 12) && Matches(st, ss, vs)
    ensures |vs| == Depth(st) && yyr2(rule) < |vs|
    ensures rule <= 9 ==> Value(st, 0).SExp? && vs[|vs| - 1] == ExpVal(Value(st, 0).e)
    ensures rule == 11 ==> Value(st, 0).STok? && Value(st, 0).t.Number? && vs[|vs| - 1] == NumVal(Value(st, 0).t.n)
    ensures rule == 12 ==> Value(st, 1).SExp? && vs[|vs| - 2] == ExpVal(Value(st, 1).e)
  {
    hide Matches;
    HandlePresent(st, rule);
    MatchesPop(st, ss, vs, 0);
    if rule == 12 {
      MatchesPop(st, ss, vs, 1);
      PopOne(st);
    }
  }

  // The switch of semantic actions, on the top of the value stack.
  method Act(yyvs: array<YYSTYPE>, top: nat, rule: nat, ghost st: Stack, ghost ss: seq<int>) returns (yyval: YYSTYPE)
    requires top < yyvs.Length && Reducible(st, rule) && Matches(st, ss, yyvs[..top + 1])
    ensures yyval == ExpVal(Build(st, rule).e)
  {
    hide Matches, Path;
    ghost var vs := yyvs[..top + 1];
    if 2 <= rule <= 8 {
      OperandsHeld(st, rule, ss, vs);
    } else if rule != 10 {
      OperandHeld(st, rule, ss, vs);
    }
    if rule == 1 {
      yyval := yyvs[top];
    } else if rule == 2 {
      yyval := ExpVal(Cond(yyvs[top - 4].exp, yyvs[top - 2].exp, yyvs[top].exp));
    } else if rule == 3 {
      yyval := ExpVal(Bin(Lor, yyvs[top - 2].exp, yyvs[top].exp));
    } else if rule == 4 {
      yyval := ExpVal(Bin(Land, yyvs[top - 2].exp, yyvs[top].exp));
    } else if rule <= 8 {
      yyval := ExpVal(Bin(yyvs[top - 1].op, yyvs[top - 2].exp, yyvs[top].exp));
    } else if rule == 9 {
      yyval := ExpVal(Not(yyvs[top].exp));
    } else if rule == 10 {
      yyval := ExpVal(Var);
    } else if rule == 11 {
      yyval := ExpVal(Num(yyvs[top].num));
    } else {
      yyval := yyvs[top - 1];
    }
  }

  // `struct parse_args`: the text with the read position, and the result.
  class ParseArgs {
    const text: string
    var cp: nat
    var res: Expr

    constructor (text: string)
      ensures this.text == text && cp == 0
    {
      this.text := text;
      cp := 0;
      res := Var;
    }
  }

  // The lookahead variable and the unread text together spell the remaining input.
  predicate LookaheadFits(yychar: int, yylval: YYSTYPE, unread: string, input: seq<Token>, word: nat)
    requires 9 < word
  {
    if yychar == YYEMPTY then input == Tokens(unread, word)
    else if yychar == YYEOF then input == []
    else input != [] && yychar == External(input[0]) && LvalFits(yylval, input[0]) && input[1..] == Tokens(unread, word)
  }

  // The lookahead token has been shifted.
  lemma LookaheadNext(yychar: int, yylval: YYSTYPE, unread: string, input: seq<Token>, word: nat)
    requires 9 < word && LookaheadFits(yychar, yylval, unread, input, word) && yychar != YYEMPTY
    ensures LookaheadFits(if yychar != YYEOF then YYEMPTY else yychar, yylval, unread, Rest(input), word)
  {
    hide Tokens;
  }

  // What the caller of yyparse sees of an outcome.
  function Status(o: Outcome): int {
    match o
    case Accepted(_) => 0
    case SyntaxError => 1
    case Overflow => 2
  }

  // The state does something for the error token, whose number is 1.
  predicate ShiftsError(s: nat)
    requires s < 28
  {
    var n := yypact(s) + 1;
    yypact(s) != YYFLAG && 0 <= n <= YYLAST && yycheck(n) == 1
  }

  // No state shifts the error token, so recovery can only pop.
  lemma NoErrorShift(s: nat)
    requires s < 28
    ensures !ShiftsError(s)
  {
  }

  lemma {:induction false} StatesBounded(st: Stack, ss: seq<int>, vs: seq<YYSTYPE>)
    requires Path(st) && Matches(st, ss, vs)
    ensures forall i :: 0 <= i < |ss| ==> 0 <= ss[i] < 27
  {
    if st.below.Push? {
      StatesBounded(st.below, ss[..|ss| - 1], vs[..|vs| - 1]);
      forall i | 0 <= i < |ss| - 1 ensures 0 <= ss[i] < 27 {
        assert ss[..|ss| - 1][i] == ss[i];
      }
    }
  }

  // The registers of yyparse: the two stacks, the pending state and the lookahead.
  // `st` and `input` are the configuration of the model that they represent.
  class Registers {
    const arg: ParseArgs
    const word: nat
    var yyss: array<int>
    var yyvs: array<YYSTYPE>
    var size: nat
    var yystate: nat
    var yychar: int
    var yylval: YYSTYPE
    ghost var st: Stack
    ghost var input: seq<Token>

    ghost predicate Sized()
      reads this
    {
      && 9 < word && 0 < yyss.Length == yyvs.Length <= YYMAXDEPTH && size < yyss.Length
      && Path(st) && st.state == yystate
    }

    ghost predicate LookaheadValid()
      reads this, arg
    {
      9 < word && arg.cp <= |arg.text| && LookaheadFits(yychar, yylval, arg.text[arg.cp..], input, word)
    }

    // Before yynewstate: the value has been pushed, the state has not.
    ghost predicate Pending()
      reads this, yyss, yyvs
    {
      Sized() && Matches(st, yyss[..size] + [yystate], yyvs[..size + 1])
    }

    // After yynewstate, with room for one more entry.
    ghost predicate Settled()
      reads this, yyss, yyvs
    {
      Sized() && Matches(st, yyss[..size], yyvs[..size]) && Depth(st) < YYMAXDEPTH
    }

    constructor (arg: ParseArgs, word: nat)
      requires 9 < word && arg.cp <= |arg.text|
      ensures this.arg == arg && this.word == word && fresh(yyss) && fresh(yyvs)
      ensures Pending() && LookaheadValid() && st == START && input == Tokens(arg.text[arg.cp..], word)
    {
      hide Tokens, Path, Matches, LookaheadFits;
      StartDepth();
      NothingRead(arg.text[arg.cp..], word);
      this.arg, this.word := arg, word;
      yyss, yyvs := new int[YYINITDEPTH], new YYSTYPE[YYINITDEPTH];
      size, yystate, yychar, yylval := 0, 0, YYEMPTY, Uninit;
      st, input := START, Tokens(arg.text[arg.cp..], word);
      new;
      assert yyss[..0] + [0] == [0];
      StartMatches([0], yyvs[..1]);
    }

    // yynewstate: push the state; a full stack is doubled up to YYMAXDEPTH.
    method NewState() returns (ok: bool)
      requires Pending()
      modifies this, yyss
      ensures yystate == old(yystate) && yychar == old(yychar) && yylval == old(yylval)
      ensures st == old(st) && input == old(input)
      ensures yyss == old(yyss) || fresh(yyss)
      ensures yyvs == old(yyvs) || fresh(yyvs)
      ensures ok == (Depth(st) < YYMAXDEPTH)
      ensures ok ==> Settled()
    {
      hide Matches, Path;
      ghost var ss, vs := yyss[..size] + [yystate], yyvs[..size + 1];
      MatchesDepth(st, ss, vs);
      yyss[size] := yystate;
      size := size + 1;
      assert yyss[..size] == ss && yyvs[..size] == vs;
      if size >= yyss.Length {
        if yyss.Length >= YYMAXDEPTH {
          return false;
        }
        assert yyss[..] == ss && yyvs[..] == vs;
        Grow();
      }
      ok := true;
    }

    method Grow()
      requires 0 < size == yyss.Length == yyvs.Length < YYMAXDEPTH
      modifies this`yyss, this`yyvs
      ensures fresh(yyss) && fresh(yyvs) && size < yyss.Length == yyvs.Length <= YYMAXDEPTH
      ensures yyss[..size] == old(yyss[..]) && yyvs[..size] == old(yyvs[..])
    {
      var yystacksize := size * 2;
      if yystacksize > YYMAXDEPTH {
        yystacksize := YYMAXDEPTH;
      }
      var ss, vs := new int[yystacksize], new YYSTYPE[yystacksize];
      forall i | 0 <= i < size { ss[i] := yyss[i]; }
      forall i | 0 <= i < size { vs[i] := yyvs[i]; }
      yyss, yyvs := ss, vs;
    }

    // Read a lookahead token if there is none; its internal number is the model's lookahead.
    method Fetch() returns (yychar1: int)
      requires LookaheadValid()
      modifies this`yychar, this`yylval, arg`cp
      ensures LookaheadValid() && yychar != YYEMPTY && yychar1 == Lookahead(input)
    {
      if yychar == YYEMPTY {
        var result, newval, cp := YyLex(arg.text, arg.cp, yylval, word);
        yychar, yylval, arg.cp := result, newval, cp;
      }
      yychar1 := yytranslate(yychar);
    }

    // yybackup: decide, reading a lookahead token only when the state needs one.
    method Backup() returns (action: Action)
      requires yystate < 27 && LookaheadValid()
      modifies this`yychar, this`yylval, arg`cp
      ensures LookaheadValid() && action == TableAction(yystate, Lookahead(input))
      ensures action.Shift? ==> yychar != YYEMPTY
    {
      hide Tokens, LookaheadFits;
      var yyn := yypact(yystate);
      if yyn == YYFLAG {
        return Default(yystate);
      }
      var yychar1 := Fetch();
      yyn := yyn + yychar1;
      if yyn < 0 || yyn > YYLAST || yycheck(yyn) != yychar1 {
        return Default(yystate);
      }
      yyn := yytable(yyn);
      if yyn < 0 {
        return if yyn == YYFLAG then Fail else Reduce(-yyn);
      } else if yyn == 0 {
        return Fail;
      } else if yyn == YYFINAL {
        return Accept;
      }
      return Shift(yyn);
    }

    // Shift the lookahead token, and discard it unless it is the end marker.
    method DoShift(s: nat)
      requires Settled() && LookaheadValid() && yychar != YYEMPTY && yystate < 27
      requires TableAction(yystate, Lookahead(input)) == Shift(s)
      modifies this, yyvs
      ensures yyss == old(yyss) && yyvs == old(yyvs)
      ensures st == Shifted(old(st), s, old(input)) && input == Rest(old(input))
      ensures Pending() && LookaheadValid()
    {
      ActionMeaning(yystate, Lookahead(input));
      ShiftSound(st, s, input);
      MatchesDepth(st, yyss[..size], yyvs[..size]);
      ghost var top := Shifted(st, s, input);
      ShiftHolds(st, s, input, yylval);
      MatchesPush(st, yyss[..size], yyvs[..size], s, yylval, top.sem);
      LookaheadNext(yychar, yylval, arg.text[arg.cp..], input, word);
      yyvs[size] := yylval;
      assert yyvs[..size + 1] == old(yyvs[..size]) + [yylval];
      if yychar != YYEOF {
        yychar := YYEMPTY;
      }
      yystate := s;
      st, input := top, Rest(input);
    }

    // yyreduce: run the action, pop the handle, push the value, find the next state.
    method DoReduce(rule: nat)
      requires Settled() && Reducible(st, rule)
      modifies this`size, this`yystate, this`st, yyvs, arg`res
      ensures st == Reduction(old(st), rule)
      ensures Pending()
      ensures rule == 1 ==> st.sem.SExp? && arg.res == st.sem.e
      ensures rule != 1 ==> arg.res == old(arg.res)
    {
      hide Matches, Path, TableGoto, Build, Reduction;
      ghost var ss, vs := yyss[..size], yyvs[..size];
      ReduceMatches(st, rule, ss, vs);
      var yylen := yyr2(rule);
      var yyval := Act(yyvs, size - 1, rule, st, ss);
      if rule == 1 {
        arg.res := yyval.exp;
      }
      size := size - yylen;
      assert yyss[..size] == ss[..size] && yyvs[..size] == vs[..size];
      yyvs[size] := yyval;
      yystate := TableGoto(yyss[size - 1], rule);
      assert yyvs[..size + 1] == vs[..size] + [yyval];
      st := Reduction(st, rule);
    }
  }

  // Popping a handle and pushing the reduced operand, on the C stacks.
  lemma ReduceMatches(st: Stack, rule: nat, ss: seq<int>, vs: seq<YYSTYPE>)
    requires Reducible(st, rule) && Matches(st, ss, vs)
    ensures yyr2(rule) < |ss| == |vs| && 0 <= ss[|ss| - yyr2(rule) - 1] < 28
    ensures Path(Reduction(st, rule)) && Build(st, rule).SExp?
    ensures Reduction(st, rule).state == TableGoto(ss[|ss| - yyr2(rule) - 1], rule)
    ensures Matches(Reduction(st, rule), ss[..|ss| - yyr2(rule)] + [Reduction(st, rule).state],
      vs[..|ss| - yyr2(rule)] + [ExpVal(Build(st, rule).e)])
    ensures rule == 1 ==> Reduction(st, rule).sem == Build(st, rule)
  {
    hide Matches, Path, Holds, TableGoto, Build, Reduction;
    var base, m := ReductionBase(st, rule), |ss| - yyr2(rule);
    MatchesPop(st, ss, vs, yyr2(rule));
    MatchesPop(base, ss[..m], vs[..m], 0);
    MatchesPush(base, ss[..m], vs[..m], Reduction(st, rule).state, ExpVal(Build(st, rule).e), Build(st, rule));
  }

  function ReductionBase(st: Stack, rule: nat): (b: Stack)
    requires Reducible(st, rule)
    ensures Path(b) && yyr2(rule) < Depth(st) && b == Pop(st, yyr2(rule)) && b == Reduction(st, rule).below
    ensures b.state < 27
    ensures Reduction(st, rule) == Push(b, TableGoto(b.state, rule), Build(st, rule))
    ensures Holds(Reduction(st, rule).state, ExpVal(Build(st, rule).e), Build(st, rule)) && Path(Reduction(st, rule))
  {
    HandlePresent(st, rule);
    Pop(st, yyr2(rule))
  }

  // The value a shift leaves on the value stack is the one the grammar will look for.
  lemma ShiftHolds(st: Stack, s: nat, input: seq<Token>, yylval: YYSTYPE)
    requires Path(st) && st.state < 27 && SpecAction(st.state, Lookahead(input)) == Shift(s)
    requires input != [] ==> LvalFits(yylval, input[0])
    ensures Holds(s, yylval, Shifted(st, s, input).sem)
  {
  }

  // yydefault
  function Default(yystate: nat): Action
    requires yystate < 28
  {
    var d := yydefact(yystate);
    if d == 0 then Fail else Reduce(d)
  }

  // The whole parser: status 0 with the expression, 1 for a syntax error, 2 for a full stack.
  method YyParse(arg: ParseArgs, word: nat) returns (status: int)
    requires 9 < word && arg.cp <= |arg.text|
    modifies arg
    ensures status == Status(Parse(Tokens(arg.text[old(arg.cp)..], word)))
    ensures status == 0 ==> Parse(Tokens(arg.text[old(arg.cp)..], word)) == Accepted(arg.res)
  {
    hide Path, Depth, Measure, Tokens, SpecAction, Run, Matches, TableAction, LookaheadFits, Lookahead;
    StartDepth();
    ghost var outcome := Parse(Tokens(arg.text[arg.cp..], word));
    var r := new Registers(arg, word);
    while true
      invariant r.arg == arg && r.word == word && fresh(r) && fresh(r.yyss) && fresh(r.yyvs)
      invariant r.Pending() && r.LookaheadValid()
      invariant Depth(r.st) >= YYMAXDEPTH ==> outcome == Overflow
      invariant Depth(r.st) < YYMAXDEPTH ==> Run(r.st, r.input, YYMAXDEPTH) == outcome
      invariant ResultStored(r.st, arg.res)
      decreases Measure(r.st, r.input), AtEnd(r.st)
    {
      var ok := r.NewState();
      if !ok {
        return 2;
      }
      StatesBelow27(r.st);
      var action := r.Backup();
      RunOneStep(r.st, r.input, arg.res);
      match action {
        case Accept => return 0;
        case Fail =>
          var yyssp;
          status, yyssp := Recover(r);
          return;
        case Shift(s) => r.DoShift(s);
        case Reduce(rule) => r.DoReduce(rule);
      }
    }
  }

  lemma NothingRead(unread: string, word: nat)
    requires 9 < word
    ensures LookaheadFits(YYEMPTY, Uninit, unread, Tokens(unread, word), word)
  {
    hide Tokens;
  }

  lemma StartMatches(ss: seq<int>, vs: seq<YYSTYPE>)
    requires |vs| == 1 && ss == [0]
    ensures Matches(START, ss, vs)
  {
    assert ss[..0] == [] && vs[..0] == [];
  }

  lemma StartDepth()
    ensures Path(START) && Depth(START) == 1
  {
  }

  // arg->res holds the expression once rule 1 has been reduced.
  predicate ResultStored(st: Stack, res: Expr)
    requires Path(st)
  {
    && (st.state == 25 ==> st.sem == SExp(res))
    && (st.state == 26 ==> st.below.Push? && st.below.sem == SExp(res))
  }

  predicate AfterReduce(st: Stack, input: seq<Token>, top: Stack, rule: nat)
    requires Path(st) && Depth(st) < YYMAXDEPTH
  {
    && Path(top) && Depth(top) <= Depth(st) && Run(st, input, YYMAXDEPTH) == Run(top, input, YYMAXDEPTH)
    && Measure(top, input) < Measure(st, input) && top.state != 26 && (top.state == 25 ==> rule == 1)
  }

  predicate AfterShift(st: Stack, input: seq<Token>, top: Stack, res: Expr)
    requires Path(st) && Depth(st) < YYMAXDEPTH && Path(top)
  {
    && (Depth(top) >= YYMAXDEPTH ==> Run(st, input, YYMAXDEPTH) == Overflow)
    && (Depth(top) < YYMAXDEPTH ==> Run(st, input, YYMAXDEPTH) == Run(top, Rest(input), YYMAXDEPTH))
    && Measure(top, Rest(input)) <= Measure(st, input)
    && (Measure(top, Rest(input)) == Measure(st, input) ==> AtEnd(top) < AtEnd(st))
    && ResultStored(top, res)
  }

  lemma RunOneStep(st: Stack, input: seq<Token>, res: Expr)
    requires Path(st) && Depth(st) < YYMAXDEPTH && ResultStored(st, res)
    ensures st.state < 27
    ensures TableAction(st.state, Lookahead(input)) == Accept ==> Run(st, input, YYMAXDEPTH) == Accepted(res)
    ensures TableAction(st.state, Lookahead(input)) == Fail ==> Run(st, input, YYMAXDEPTH) == SyntaxError
    ensures var a := TableAction(st.state, Lookahead(input)); a.Reduce? ==>
      Reducible(st, a.rule) && AfterReduce(st, input, Reduction(st, a.rule), a.rule)
    ensures var a := TableAction(st.state, Lookahead(input)); a.Shift? ==>
      Path(Shifted(st, a.state, input)) && AfterShift(st, input, Shifted(st, a.state, input), res)
  {
    StatesBelow27(st);
    ActionMeaning(st.state, Lookahead(input));
    DecisionSound(st, input);
    if TableAction(st.state, Lookahead(input)).Shift? {
      ShiftSound(st, TableAction(st.state, Lookahead(input)).state, input);
    }
  }

  // yyerrhandle and yyerrpop: every state is popped, down to the bottom of the stack, and the parse is given up.
  method Recover(r: Registers) returns (status: int, yyssp: nat)
    requires r.Settled()
    ensures status == 1 && yyssp == 0
    ensures 0 < r.size <= r.yyss.Length
    ensures forall i :: 0 <= i < r.size ==> 0 <= r.yyss[i] < 28 && !ShiftsError(r.yyss[i])
  {
    MatchesDepth(r.st, r.yyss[..r.size], r.yyvs[..r.size]);
    StatesBounded(r.st, r.yyss[..r.size], r.yyvs[..r.size]);
    yyssp := r.size - 1;
    while true
      invariant 0 <= yyssp < r.size
      invariant forall i :: yyssp < i < r.size ==> 0 <= r.yyss[i] < 28 && !ShiftsError(r.yyss[i])
      decreases yyssp
    {
      assert r.yyss[yyssp] == r.yyss[..r.size][yyssp];
      var yystate := r.yyss[yyssp];
      NoErrorShift(yystate);
      if ShiftsError(yystate) {
        assert false;
      }
      if yyssp == 0 {
        return 1, 0;
      }
      yyssp := yyssp - 1;
    }
  }
}
