// The plural rules of the shipped catalogues: their texts are read, and they select what they are meant to.
module PluralRules {
  import opened Options
  import opened Arithmetic
  import opened PluralGrammar
  import opened PluralParser
  import opened PluralLexer
  import opened PluralSoundness
  import opened PluralRoundTrip
  import opened PluralEval
  import opened PluralHeader

  // ---- Grammar trees as people write them ----

  // Spaces around ? and : and around some of the operators.
  function Shown(t: Tree, spaced: set<BinOp>): string {
    match t
    case TVar => "n"
    case TNum(k) => Decimal(k)
    case TParen(i) => "(" + Shown(i, spaced) + ")"
    case TNot(a) => "!" + Shown(a, spaced)
    case TBin(op, l, r) => Shown(l, spaced) + Gap(op, spaced) + OpText(op) + Gap(op, spaced) + Shown(r, spaced)
    case TCond(c, x, y) => Shown(c, spaced) + " ? " + Shown(x, spaced) + " : " + Shown(y, spaced)
  }

  function Gap(op: BinOp, spaced: set<BinOp>): string {
    if op in spaced then " " else ""
  }

  // The gaps in front of the tokens, the first one being g.
  function Gaps(t: Tree, spaced: set<BinOp>, g: string): (gaps: seq<string>)
    ensures |gaps| == |Yield(t)|
  {
    match t
    case TVar => [g]
    case TNum(_) => [g]
    case TParen(i) => [g] + Gaps(i, spaced, "") + [""]
    case TNot(a) => [g] + Gaps(a, spaced, "")
    case TBin(op, l, r) => Gaps(l, spaced, g) + [Gap(op, spaced)] + Gaps(r, spaced, Gap(op, spaced))
    case TCond(c, x, y) => Gaps(c, spaced, g) + [" "] + Gaps(x, spaced, " ") + [" "] + Gaps(y, spaced, " ")
  }

  lemma {:induction false} GapsBlank(t: Tree, spaced: set<BinOp>, g: string)
    requires AllBlank(g)
    ensures forall i :: 0 <= i < |Gaps(t, spaced, g)| ==> AllBlank(Gaps(t, spaced, g)[i])
  {
    match t
    case TVar =>
    case TNum(_) =>
    case TParen(i) => GapsBlank(i, spaced, "");
    case TNot(a) => GapsBlank(a, spaced, "");
    case TBin(op, l, r) =>
      GapsBlank(l, spaced, g);
      GapsBlank(r, spaced, Gap(op, spaced));
    case TCond(c, x, y) =>
      GapsBlank(c, spaced, g);
      GapsBlank(x, spaced, " ");
      GapsBlank(y, spaced, " ");
  }

  lemma {:induction false} RenderAppend(a: seq<Token>, ga: seq<string>, b: seq<Token>, gb: seq<string>, tail: string)
    requires |ga| == |a| && |gb| == |b|
    ensures Render(a + b, ga + gb, tail) == Render(a, ga, Render(b, gb, tail))
  {
    hide TokenText;
    if a == [] {
      assert a + b == b && ga + gb == gb;
    } else {
      RenderAppend(a[1..], ga[1..], b, gb, tail);
      assert (a + b)[1..] == a[1..] + b && (ga + gb)[1..] == ga[1..] + gb;
    }
  }

  lemma RenderFirst(t: Token, g: string, ts: seq<Token>, gs: seq<string>, tail: string)
    requires |gs| == |ts|
    ensures Render([t] + ts, [g] + gs, tail) == g + TokenText(t) + Render(ts, gs, tail)
  {
    hide TokenText;
    assert ([t] + ts)[1..] == ts && ([g] + gs)[1..] == gs;
  }

  // Two sentences with a token between them.
  lemma RenderJoin(
    a: seq<Token>, ga: seq<string>, t: Token, g: string, b: seq<Token>, gb: seq<string>, tail: string)
    requires |ga| == |a| && |gb| == |b|
    ensures Render(a + [t] + b, ga + [g] + gb, tail) == Render(a, ga, g + TokenText(t) + Render(b, gb, tail))
  {
    hide *;
    RenderFirst(t, g, b, gb, tail);
    RenderAppend(a, ga, [t] + b, [g] + gb, tail);
    assert a + [t] + b == a + ([t] + b) && ga + [g] + gb == ga + ([g] + gb);
  }

  lemma LeafRendered(t: Token, g: string, tail: string)
    ensures Render([t], [g], tail) == g + TokenText(t) + tail
  {
    RenderFirst(t, g, [], [], tail);
    hide TokenText;
  }

  lemma ParenParts(i: Tree, spaced: set<BinOp>, g: string)
    ensures Yield(TParen(i)) == [LParen] + (Yield(i) + [RParen])
    ensures Gaps(TParen(i), spaced, g) == [g] + (Gaps(i, spaced, "") + [""])
    ensures Shown(TParen(i), spaced) == "(" + Shown(i, spaced) + ")"
    ensures TokenText(LParen) == "(" && TokenText(RParen) == ")"
  {}

  lemma ParenRendered(i: Tree, spaced: set<BinOp>, g: string, tail: string)
    requires Render(Yield(i), Gaps(i, spaced, ""), ")" + tail) == "" + Shown(i, spaced) + (")" + tail)
    ensures Render(Yield(TParen(i)), Gaps(TParen(i), spaced, g), tail) == g + Shown(TParen(i), spaced) + tail
  {
    hide *;
    ParenParts(i, spaced, g);
    LeafRendered(RParen, "", tail);
    RenderAppend(Yield(i), Gaps(i, spaced, ""), [RParen], [""], tail);
    RenderFirst(LParen, g, Yield(i) + [RParen], Gaps(i, spaced, "") + [""], tail);
    assert "" + ")" + tail == ")" + tail;
    ParenRegrouped(g, Shown(i, spaced), tail);
  }

  lemma ParenRegrouped(g: string, s: string, tail: string)
    ensures g + "(" + ("" + s + (")" + tail)) == g + ("(" + s + ")") + tail
  {}

  lemma NotRendered(a: Tree, spaced: set<BinOp>, g: string, tail: string)
    requires Render(Yield(a), Gaps(a, spaced, ""), tail) == "" + Shown(a, spaced) + tail
    ensures Render(Yield(TNot(a)), Gaps(TNot(a), spaced, g), tail) == g + Shown(TNot(a), spaced) + tail
  {
    hide *;
    NotParts(a, spaced, g);
    RenderFirst(Bang, g, Yield(a), Gaps(a, spaced, ""), tail);
    assert g + "!" + ("" + Shown(a, spaced) + tail) == g + ("!" + Shown(a, spaced)) + tail;
  }

  lemma NotParts(a: Tree, spaced: set<BinOp>, g: string)
    ensures Yield(TNot(a)) == [Bang] + Yield(a) && Gaps(TNot(a), spaced, g) == [g] + Gaps(a, spaced, "")
    ensures Shown(TNot(a), spaced) == "!" + Shown(a, spaced) && TokenText(Bang) == "!"
  {}

  lemma BinParts(op: BinOp, l: Tree, r: Tree, spaced: set<BinOp>, g: string)
    ensures var gap, t := Gap(op, spaced), TBin(op, l, r);
      && Yield(t) == Yield(l) + [Oper(op)] + Yield(r)
      && Gaps(t, spaced, g) == Gaps(l, spaced, g) + [gap] + Gaps(r, spaced, gap)
      && Shown(t, spaced) == Shown(l, spaced) + gap + OpText(op) + gap + Shown(r, spaced)
      && TokenText(Oper(op)) == OpText(op)
  {
    hide OpText, Gap;
  }

  lemma BinRendered(op: BinOp, l: Tree, r: Tree, spaced: set<BinOp>, g: string, tail: string)
    requires var gap := Gap(op, spaced);
      && Render(Yield(r), Gaps(r, spaced, gap), tail) == gap + Shown(r, spaced) + tail
      && Render(Yield(l), Gaps(l, spaced, g), gap + OpText(op) + (gap + Shown(r, spaced) + tail))
         == g + Shown(l, spaced) + (gap + OpText(op) + (gap + Shown(r, spaced) + tail))
    ensures Render(Yield(TBin(op, l, r)), Gaps(TBin(op, l, r), spaced, g), tail) ==
      g + Shown(TBin(op, l, r), spaced) + tail
  {
    hide *;
    var gap := Gap(op, spaced);
    BinParts(op, l, r, spaced, g);
    RenderJoin(Yield(l), Gaps(l, spaced, g), Oper(op), gap, Yield(r), Gaps(r, spaced, gap), tail);
    Regrouped(g, Shown(l, spaced), gap, OpText(op), Shown(r, spaced), tail);
  }

  lemma Regrouped(g: string, l: string, gap: string, op: string, r: string, tail: string)
    ensures g + l + (gap + op + (gap + r + tail)) == g + (l + gap + op + gap + r) + tail
  {}

  lemma CondParts(c: Tree, x: Tree, y: Tree, spaced: set<BinOp>, g: string)
    ensures var t := TCond(c, x, y);
      && Yield(t) == Yield(c) + [Quest] + (Yield(x) + [Colon] + Yield(y))
      && Gaps(t, spaced, g) == Gaps(c, spaced, g) + [" "] + (Gaps(x, spaced, " ") + [" "] + Gaps(y, spaced, " "))
      && Shown(t, spaced) == Shown(c, spaced) + " ? " + Shown(x, spaced) + " : " + Shown(y, spaced)
      && TokenText(Quest) == "?" && TokenText(Colon) == ":"
  {
    Associate(Yield(c), [Quest], Yield(x), [Colon], Yield(y));
    Associate(Gaps(c, spaced, g), [" "], Gaps(x, spaced, " "), [" "], Gaps(y, spaced, " "));
  }

  lemma Associate<T>(a: seq<T>, b: seq<T>, c: seq<T>, d: seq<T>, e: seq<T>)
    ensures a + b + c + d + e == a + b + (c + d + e)
  {}

  lemma CondRendered(c: Tree, x: Tree, y: Tree, spaced: set<BinOp>, g: string, tail: string)
    requires var after := " " + Shown(y, spaced) + tail;
      && Render(Yield(y), Gaps(y, spaced, " "), tail) == after
      && Render(Yield(x), Gaps(x, spaced, " "), " :" + after) == " " + Shown(x, spaced) + (" :" + after)
      && Render(Yield(c), Gaps(c, spaced, g), " ?" + (" " + Shown(x, spaced) + (" :" + after)))
         == g + Shown(c, spaced) + (" ?" + (" " + Shown(x, spaced) + (" :" + after)))
    ensures var t := TCond(c, x, y);
      Render(Yield(t), Gaps(t, spaced, g), tail) == g + Shown(t, spaced) + tail
  {
    hide *;
    CondParts(c, x, y, spaced, g);
    var gx, gy := Gaps(x, spaced, " "), Gaps(y, spaced, " ");
    RenderJoin(Yield(x), gx, Colon, " ", Yield(y), gy, tail);
    RenderJoin(Yield(c), Gaps(c, spaced, g), Quest, " ", Yield(x) + [Colon] + Yield(y), gx + [" "] + gy, tail);
    CondRegrouped(g, Shown(c, spaced), Shown(x, spaced), Shown(y, spaced), tail);
  }

  lemma CondRegrouped(g: string, c: string, x: string, y: string, tail: string)
    ensures " " + ":" + (" " + y + tail) == " :" + (" " + y + tail)
    ensures " " + "?" + (" " + x + (" :" + (" " + y + tail))) == " ?" + (" " + x + (" :" + (" " + y + tail)))
    ensures g + c + (" ?" + (" " + x + (" :" + (" " + y + tail)))) == g + (c + " ? " + x + " : " + y) + tail
  {}

  // The text of a tree is a layout of its sentence.
  lemma {:induction false} ShownRendered(t: Tree, spaced: set<BinOp>, g: string, tail: string)
    ensures Render(Yield(t), Gaps(t, spaced, g), tail) == g + Shown(t, spaced) + tail
  {
    match t
    case TVar => LeafRendered(N, g, tail);
    case TNum(k) => LeafRendered(Number(k), g, tail);
    case TParen(i) =>
      hide *;
      ShownRendered(i, spaced, "", ")" + tail);
      ParenRendered(i, spaced, g, tail);
    case TNot(a) =>
      hide *;
      ShownRendered(a, spaced, "", tail);
      NotRendered(a, spaced, g, tail);
    case TBin(op, l, r) =>
      hide *;
      var gap := Gap(op, spaced);
      ShownRendered(l, spaced, g, gap + OpText(op) + (gap + Shown(r, spaced) + tail));
      ShownRendered(r, spaced, gap, tail);
      BinRendered(op, l, r, spaced, g, tail);
    case TCond(c, x, y) =>
      hide *;
      var after := " " + Shown(y, spaced) + tail;
      ShownRendered(y, spaced, " ", tail);
      ShownRendered(x, spaced, " ", " :" + after);
      ShownRendered(c, spaced, g, " ?" + (" " + Shown(x, spaced) + (" :" + after)));
      CondRendered(c, x, y, spaced, g, tail);
  }

  predicate Ends(tail: string) {
    tail == "" || tail[0] == ';' || tail[0] == '\n' || tail[0] == '\0'
  }

  lemma TightLayout(t: Tree, spaced: set<BinOp>, tail: string, word: nat)
    requires Tight(Yield(t), word) && Ends(tail)
    ensures Layout(Yield(t), Gaps(t, spaced, ""), tail, word)
  {
    GapsBlank(t, spaced, "");
    hide Yield, Gaps, Clash, Writable, AllBlank;
  }

  // Every tree of the grammar, with or without redundant parentheses and spaces, is read as what it denotes.
  lemma ShownParsed(t: Tree, spaced: set<BinOp>, tail: string, word: nat)
    requires 9 < word && WellFormed(t) && Fits(Ast(t), word) && Ends(tail) && 1 + Peak(t) < YYMAXDEPTH
    ensures Parse(Tokens(Shown(t, spaced) + tail, word)) == Accepted(Ast(t))
  {
    hide *;
    var gaps := Gaps(t, spaced, "");
    YieldTight(t, word);
    TightLayout(t, spaced, tail, word);
    ShownRendered(t, spaced, "", tail);
    LayoutRead(Yield(t), gaps, tail, word);
    ParseComplete(t);
    assert "" + Shown(t, spaced) + tail == Shown(t, spaced) + tail;
  }

  lemma OneOperator(op: BinOp, k: nat, word: nat)
    requires 9 < word && k < word
    ensures Parse(Tokens("n" + OpText(op) + Decimal(k), word)) == Accepted(Bin(op, Var, PluralGrammar.Num(k)))
  {
    hide *;
    IsTree(op, k, word);
    IsShown(op, k, {});
    ShownParsed(Is(op, k), {}, "", word);
    assert "n" + "" + OpText(op) + "" + Decimal(k) + "" == "n" + OpText(op) + Decimal(k);
  }

  lemma IsTree(op: BinOp, k: nat, word: nat)
    requires k < word
    ensures WellFormed(Is(op, k)) && 1 + Peak(Is(op, k)) < YYMAXDEPTH && Fits(Ast(Is(op, k)), word)
    ensures Ast(Is(op, k)) == Bin(op, Var, PluralGrammar.Num(k))
    ensures Gap(op, {}) == "" && Ends("")
  {
    hide OpLevel;
    Tightest(op);
  }

  lemma Tightest(op: BinOp)
    ensures OpLevel(op) <= 6
  {}

  // The characters of the arithmetic operators and of the negation.
  lemma OperatorTexts(k: nat, word: nat)
    requires 9 < word && k < word
    ensures Parse(Tokens("n" + "*" + Decimal(k), word)) == Accepted(Bin(Mult, Var, PluralGrammar.Num(k)))
    ensures Parse(Tokens("n" + "/" + Decimal(k), word)) == Accepted(Bin(Divide, Var, PluralGrammar.Num(k)))
    ensures Parse(Tokens("n" + "%" + Decimal(k), word)) == Accepted(Bin(Module, Var, PluralGrammar.Num(k)))
    ensures Parse(Tokens("n" + "+" + Decimal(k), word)) == Accepted(Bin(Plus, Var, PluralGrammar.Num(k)))
    ensures Parse(Tokens("n" + "-" + Decimal(k), word)) == Accepted(Bin(Minus, Var, PluralGrammar.Num(k)))
    ensures Parse(Tokens("!" + "n", word)) == Accepted(Not(Var))
  {
    Arithmetical();
    hide *;
    OneOperator(Mult, k, word);
    OneOperator(Divide, k, word);
    OneOperator(Module, k, word);
    OneOperator(Plus, k, word);
    OneOperator(Minus, k, word);
    Negated(word);
  }

  lemma Arithmetical()
    ensures OpText(Mult) == "*" && OpText(Divide) == "/" && OpText(Module) == "%"
    ensures OpText(Plus) == "+" && OpText(Minus) == "-"
  {}

  lemma Negated(word: nat)
    requires 9 < word
    ensures Parse(Tokens("!" + "n", word)) == Accepted(Not(Var))
  {
    assert WellFormed(TNot(TVar)) && Peak(TNot(TVar)) == 2 && Ast(TNot(TVar)) == Not(Var) && Fits(Not(Var), word);
    assert Shown(TNot(TVar), {}) == "!" + "n" && Ends("");
    hide *;
    ShownParsed(TNot(TVar), {}, "", word);
    assert "!" + "n" + "" == "!" + "n";
  }

  // ---- The rules ----

  function Is(op: BinOp, k: nat): Tree { TBin(op, TVar, TNum(k)) }

  // n % m op k.
  function Rest(m: nat, op: BinOp, k: nat): Tree { TBin(op, TBin(Module, TVar, TNum(m)), TNum(k)) }

  function Both(a: Tree, b: Tree): Tree { TBin(Land, a, b) }

  // n%100<10 || n%100>=20
  const NotTeens := TParen(TBin(Lor, Rest(100, LessThan, 10), Rest(100, GreaterOrEqual, 20)))

  // n%10>=2 && n%10<=4 && (n%100<10 || n%100>=20)
  const Few := Both(Both(Rest(10, GreaterOrEqual, 2), Rest(10, LessOrEqual, 4)), NotTeens)

  const Two := Is(NotEqual, 1)
  const French := Is(GreaterThan, 1)
  const Polish := TCond(Is(Equal, 1), TNum(0), TCond(Few, TNum(1), TNum(2)))
  const Lithuanian := TCond(Both(Rest(10, Equal, 1), Rest(100, NotEqual, 11)), TNum(0),
    TCond(Both(Rest(10, GreaterOrEqual, 2), NotTeens), TNum(1), TNum(2)))
  const Russian := TCond(Both(Rest(10, Equal, 1), Rest(100, NotEqual, 11)), TNum(0), TCond(Few, TNum(1), TNum(2)))
  const Slovenian := TCond(Rest(100, Equal, 1), TNum(1), TCond(Rest(100, Equal, 2), TNum(2),
    TCond(TBin(Lor, Rest(100, Equal, 3), Rest(100, Equal, 4)), TNum(3), TNum(0))))

  // How they are written.
  const Wide: set<BinOp> := {Land, Lor}
  const WIDE_NE: set<BinOp> := {NotEqual, GreaterThan}

  lemma Numbers()
    ensures Decimal(0) == "0" && Decimal(1) == "1" && Decimal(2) == "2" && Decimal(3) == "3" && Decimal(4) == "4"
    ensures Decimal(10) == "10" && Decimal(11) == "11" && Decimal(20) == "20" && Decimal(100) == "100"
  {
    assert Decimal(10) == Decimal(1) + "0" && Decimal(11) == Decimal(1) + "1" && Decimal(20) == Decimal(2) + "0";
    assert Decimal(100) == Decimal(10) + "0";
  }

  lemma IsShown(op: BinOp, k: nat, spaced: set<BinOp>)
    ensures Shown(Is(op, k), spaced) == "n" + Gap(op, spaced) + OpText(op) + Gap(op, spaced) + Decimal(k)
  {
    hide OpText, Gap, Decimal;
  }

  lemma RestShown(m: nat, op: BinOp, k: nat)
    requires op !in Wide
    ensures Shown(Rest(m, op, k), Wide) == "n%" + Decimal(m) + OpText(op) + Decimal(k)
  {
    hide Decimal;
    IsShown(Module, m, Wide);
    var left := TBin(Module, TVar, TNum(m));
    assert left == Is(Module, m) && OpText(Module) == "%" && Gap(Module, Wide) == Gap(op, Wide) == "";
    assert Shown(Rest(m, op, k), Wide) == Shown(left, Wide) + "" + OpText(op) + "" + Decimal(k);
  }

  lemma TwoShown()
    ensures Shown(Two, WIDE_NE) == "n != 1" && Shown(French, WIDE_NE) == "n > 1"
  {
    IsShown(NotEqual, 1, WIDE_NE);
    IsShown(GreaterThan, 1, WIDE_NE);
    Numbers();
    hide Shown, Decimal;
  }

  lemma PairShown(op: BinOp, a: Tree, b: Tree)
    requires op == Land || op == Lor
    ensures Shown(TBin(op, a, b), Wide) == Shown(a, Wide) + (if op == Land then " && " else " || ") + Shown(b, Wide)
  {
    var x, y := Shown(a, Wide), Shown(b, Wide);
    assert Shown(TBin(op, a, b), Wide) == x + " " + OpText(op) + " " + y;
    assert OpText(op) == if op == Land then "&&" else "||";
    hide *;
    assert x + " " + "&&" + " " + y == x + " && " + y;
    assert x + " " + "||" + " " + y == x + " || " + y;
  }

  lemma CondShown(c: Tree, x: Tree, y: Tree)
    ensures Shown(TCond(c, x, y), Wide) == Shown(c, Wide) + " ? " + Shown(x, Wide) + " : " + Shown(y, Wide)
  {}

  lemma ParenShown(i: Tree, spaced: set<BinOp>)
    ensures Shown(TParen(i), spaced) == "(" + Shown(i, spaced) + ")"
  {}

  // The comparisons that occur.
  lemma Atoms()
    ensures Shown(Is(Equal, 1), Wide) == "n==1"
    ensures Shown(Rest(10, Equal, 1), Wide) == "n%10==1" && Shown(Rest(100, NotEqual, 11), Wide) == "n%100!=11"
    ensures Shown(Rest(10, GreaterOrEqual, 2), Wide) == "n%10>=2" && Shown(Rest(10, LessOrEqual, 4), Wide) == "n%10<=4"
    ensures Shown(Rest(100, LessThan, 10), Wide) == "n%100<10"
    ensures Shown(Rest(100, GreaterOrEqual, 20), Wide) == "n%100>=20"
    ensures Shown(Rest(100, Equal, 1), Wide) == "n%100==1" && Shown(Rest(100, Equal, 2), Wide) == "n%100==2"
    ensures Shown(Rest(100, Equal, 3), Wide) == "n%100==3" && Shown(Rest(100, Equal, 4), Wide) == "n%100==4"
    ensures Shown(TNum(0), Wide) == "0" && Shown(TNum(1), Wide) == "1" && Shown(TNum(2), Wide) == "2"
    ensures Shown(TNum(3), Wide) == "3"
  {
    Numbers();
    Leaves();
    Operators();
    hide *;
    IsShown(Equal, 1, Wide);
    RestShown(10, Equal, 1);
    RestShown(100, NotEqual, 11);
    RestShown(10, GreaterOrEqual, 2);
    RestShown(10, LessOrEqual, 4);
    RestShown(100, LessThan, 10);
    RestShown(100, GreaterOrEqual, 20);
    RestShown(100, Equal, 1);
    RestShown(100, Equal, 2);
    RestShown(100, Equal, 3);
    RestShown(100, Equal, 4);
  }

  lemma Leaves()
    ensures forall k: nat :: Shown(TNum(k), Wide) == Decimal(k)
    ensures Gap(Equal, Wide) == ""
  {}

  lemma Operators()
    ensures OpText(Equal) == "==" && OpText(NotEqual) == "!=" && OpText(LessThan) == "<"
    ensures OpText(LessOrEqual) == "<=" && OpText(GreaterOrEqual) == ">="
    ensures Equal !in Wide && NotEqual !in Wide && LessThan !in Wide && LessOrEqual !in Wide
    ensures GreaterOrEqual !in Wide
  {}

  // The texts, piece by piece as they are written.
  const NotTeensText := "(" + ("n%100<10" + " || " + "n%100>=20") + ")"
  const FewText := "n%10>=2" + " && " + "n%10<=4" + " && " + NotTeensText
  const PolishText := "(" + ("n==1" + " ? " + "0" + " : " + (FewText + " ? " + "1" + " : " + "2")) + ")"
  const LithuanianText := "(" + ("n%10==1" + " && " + "n%100!=11" + " ? " + "0" + " : " +
    ("n%10>=2" + " && " + NotTeensText + " ? " + "1" + " : " + "2")) + ")"
  const RussianText := "(" + ("n%10==1" + " && " + "n%100!=11" + " ? " + "0" + " : " +
    (FewText + " ? " + "1" + " : " + "2")) + ")"
  const SlovenianText := "(" + ("n%100==1" + " ? " + "1" + " : " + ("n%100==2" + " ? " + "2" + " : " +
    ("n%100==3" + " || " + "n%100==4" + " ? " + "3" + " : " + "0"))) + ")"

  lemma NotTeensShown()
    ensures Shown(NotTeens, Wide) == NotTeensText
  {
    hide Shown, Rest, Wide;
    Atoms();
    ParenShown(TBin(Lor, Rest(100, LessThan, 10), Rest(100, GreaterOrEqual, 20)), Wide);
    PairShown(Lor, Rest(100, LessThan, 10), Rest(100, GreaterOrEqual, 20));
  }

  lemma FewShown()
    ensures Shown(Few, Wide) == FewText
  {
    hide Shown, Rest, Wide, NotTeens, NotTeensText;
    Atoms();
    NotTeensShown();
    PairShown(Land, Rest(10, GreaterOrEqual, 2), Rest(10, LessOrEqual, 4));
    PairShown(Land, Both(Rest(10, GreaterOrEqual, 2), Rest(10, LessOrEqual, 4)), NotTeens);
  }

  // Each tree is written as its text.
  lemma PolishShown()
    ensures Shown(TParen(Polish), Wide) == PolishText
  {
    hide Shown, Rest, Is, Wide, Few, FewText;
    Atoms();
    FewShown();
    ParenShown(Polish, Wide);
    CondShown(Few, TNum(1), TNum(2));
    CondShown(Is(Equal, 1), TNum(0), TCond(Few, TNum(1), TNum(2)));
  }

  lemma RussianShown()
    ensures Shown(TParen(Russian), Wide) == RussianText
  {
    hide Shown, Rest, Is, Wide, Few, FewText;
    Atoms();
    FewShown();
    ParenShown(Russian, Wide);
    PairShown(Land, Rest(10, Equal, 1), Rest(100, NotEqual, 11));
    CondShown(Few, TNum(1), TNum(2));
    CondShown(Both(Rest(10, Equal, 1), Rest(100, NotEqual, 11)), TNum(0), TCond(Few, TNum(1), TNum(2)));
  }

  lemma LithuanianShown()
    ensures Shown(TParen(Lithuanian), Wide) == LithuanianText
  {
    hide Shown, Rest, Is, Wide, NotTeens, NotTeensText;
    Atoms();
    NotTeensShown();
    var few := Both(Rest(10, GreaterOrEqual, 2), NotTeens);
    ParenShown(Lithuanian, Wide);
    PairShown(Land, Rest(10, Equal, 1), Rest(100, NotEqual, 11));
    PairShown(Land, Rest(10, GreaterOrEqual, 2), NotTeens);
    CondShown(few, TNum(1), TNum(2));
    CondShown(Both(Rest(10, Equal, 1), Rest(100, NotEqual, 11)), TNum(0), TCond(few, TNum(1), TNum(2)));
  }

  lemma SlovenianShown()
    ensures Shown(TParen(Slovenian), Wide) == SlovenianText
  {
    hide Shown, Rest, Wide;
    Atoms();
    var last := TCond(TBin(Lor, Rest(100, Equal, 3), Rest(100, Equal, 4)), TNum(3), TNum(0));
    ParenShown(Slovenian, Wide);
    PairShown(Lor, Rest(100, Equal, 3), Rest(100, Equal, 4));
    CondShown(TBin(Lor, Rest(100, Equal, 3), Rest(100, Equal, 4)), TNum(3), TNum(0));
    CondShown(Rest(100, Equal, 2), TNum(2), last);
    CondShown(Rest(100, Equal, 1), TNum(1), TCond(Rest(100, Equal, 2), TNum(2), last));
  }

  // ---- What they select ----

  function Compared(op: BinOp, x: nat, y: nat): bool {
    match op
    case LessThan => x < y
    case GreaterThan => x > y
    case LessOrEqual => x <= y
    case GreaterOrEqual => x >= y
    case Equal => x == y
    case _ => x != y
  }

  predicate Comparison(op: BinOp) {
    op == LessThan || op == GreaterThan || op == LessOrEqual || op == GreaterOrEqual || op == Equal || op == NotEqual
  }

  lemma ComparedValue(op: BinOp, a: Expr, b: Expr, n: nat, word: nat)
    requires 1 < word && n < word && Fits(a, word) && Fits(b, word) && Comparison(op)
    requires Eval(a, n, word).Value? && Eval(b, n, word).Value?
    ensures Fits(Bin(op, a, b), word)
    ensures Eval(Bin(op, a, b), n, word) == Bool(Compared(op, Eval(a, n, word).v, Eval(b, n, word).v))
  {
    hide *;
    ComparisonMeans(a, b, n, word);
    BinFits(op, a, b, word);
    ComparedIs(op, Eval(a, n, word).v, Eval(b, n, word).v);
  }

  lemma BinFits(op: BinOp, a: Expr, b: Expr, word: nat)
    requires Fits(a, word) && Fits(b, word)
    ensures Fits(Bin(op, a, b), word)
  {}

  lemma ComparedIs(op: BinOp, x: nat, y: nat)
    requires Comparison(op)
    ensures op in {LessThan, GreaterThan, LessOrEqual, GreaterOrEqual, Equal, NotEqual}
    ensures Compared(LessThan, x, y) == (x < y) && Compared(GreaterThan, x, y) == (x > y)
    ensures Compared(LessOrEqual, x, y) == (x <= y) && Compared(GreaterOrEqual, x, y) == (x >= y)
    ensures Compared(Equal, x, y) == (x == y) && Compared(NotEqual, x, y) == (x != y)
  {}

  lemma RestOperand(m: nat, n: nat, word: nat)
    requires 1 < word && n < word && 0 < m < word
    ensures Fits(Bin(Module, Var, PluralGrammar.Num(m)), word)
    ensures Eval(Bin(Module, Var, PluralGrammar.Num(m)), n, word) == Value(n % m)
  {
    LeafMeans(n, m, word);
    DivisionMeans(Var, PluralGrammar.Num(m), n, word);
    hide Eval;
    Remainder(n, m, Eval(Bin(Divide, Var, PluralGrammar.Num(m)), n, word).v,
              Eval(Bin(Module, Var, PluralGrammar.Num(m)), n, word).v);
  }

  lemma RestAst(m: nat, op: BinOp, k: nat)
    ensures Ast(Rest(m, op, k)) == Bin(op, Bin(Module, Var, PluralGrammar.Num(m)), PluralGrammar.Num(k))
  {
    assert Ast(TBin(Module, TVar, TNum(m))) == Bin(Module, Var, PluralGrammar.Num(m));
  }

  lemma RestValue(m: nat, op: BinOp, k: nat, n: nat, word: nat)
    requires 1 < word && n < word && 0 < m < word && k < word && Comparison(op)
    ensures Fits(Ast(Rest(m, op, k)), word) && Eval(Ast(Rest(m, op, k)), n, word) == Bool(Compared(op, n % m, k))
  {
    var left := Bin(Module, Var, PluralGrammar.Num(m));
    hide Eval, Compared;
    RestAst(m, op, k);
    hide Rest;
    RestOperand(m, n, word);
    LeafMeans(n, k, word);
    ComparedValue(op, left, PluralGrammar.Num(k), n, word);
  }

  lemma IsValue(op: BinOp, k: nat, n: nat, word: nat)
    requires 1 < word && n < word && k < word && Comparison(op)
    ensures Fits(Ast(Is(op, k)), word) && Eval(Ast(Is(op, k)), n, word) == Bool(Compared(op, n, k))
  {
    assert Ast(Is(op, k)) == Bin(op, Var, PluralGrammar.Num(k));
    hide Eval, Compared;
    LeafMeans(n, k, word);
    ComparedValue(op, Var, PluralGrammar.Num(k), n, word);
  }

  lemma PairValue(op: BinOp, a: Tree, b: Tree, x: bool, y: bool, n: nat, word: nat)
    requires 1 < word && n < word && Fits(Ast(a), word) && Fits(Ast(b), word) && (op == Land || op == Lor)
    requires Eval(Ast(a), n, word) == Bool(x) && Eval(Ast(b), n, word) == Bool(y)
    ensures Fits(Ast(TBin(op, a, b)), word)
    ensures Eval(Ast(TBin(op, a, b)), n, word) == Bool(if op == Land then x && y else x || y)
  {
    LogicMeans(Ast(a), Ast(b), n, word);
    hide Eval;
  }

  lemma CondValue(c: Tree, x: Tree, y: Tree, b: bool, n: nat, word: nat)
    requires 1 < word && n < word && Fits(Ast(c), word) && Fits(Ast(x), word) && Fits(Ast(y), word)
    requires Eval(Ast(c), n, word) == Bool(b)
    ensures Fits(Ast(TCond(c, x, y)), word)
    ensures Eval(Ast(TCond(c, x, y)), n, word) == Eval(Ast(if b then x else y), n, word)
  {
    ChoiceMeans(Ast(c), Ast(x), Ast(y), n, word);
    hide Eval;
  }

  lemma NumberValue(k: nat, n: nat, word: nat)
    requires 1 < word && n < word && k < word
    ensures Fits(Ast(TNum(k)), word) && Eval(Ast(TNum(k)), n, word) == Value(k)
  {}

  // The numbers from 10 to 19 of each hundred.
  predicate Teen(n: nat) { 10 <= n % 100 < 20 }

  lemma NotTeensValue(n: nat, word: nat)
    requires 100 < word && n < word
    ensures Fits(Ast(NotTeens), word) && Eval(Ast(NotTeens), n, word) == Bool(!Teen(n))
  {
    var a, b := Rest(100, LessThan, 10), Rest(100, GreaterOrEqual, 20);
    RestValue(100, LessThan, 10, n, word);
    RestValue(100, GreaterOrEqual, 20, n, word);
    PairValue(Lor, a, b, n % 100 < 10, n % 100 >= 20, n, word);
    assert Ast(NotTeens) == Ast(TBin(Lor, a, b));
    hide Eval;
  }

  predicate IsFew(n: nat) { 2 <= n % 10 <= 4 && !Teen(n) }

  lemma FewValue(n: nat, word: nat)
    requires 100 < word && n < word
    ensures Fits(Ast(Few), word) && Eval(Ast(Few), n, word) == Bool(IsFew(n))
  {
    hide Eval, NotTeens, Rest, Ast, Fits;
    var a, b := Rest(10, GreaterOrEqual, 2), Rest(10, LessOrEqual, 4);
    RestValue(10, GreaterOrEqual, 2, n, word);
    RestValue(10, LessOrEqual, 4, n, word);
    NotTeensValue(n, word);
    PairValue(Land, a, b, n % 10 >= 2, n % 10 <= 4, n, word);
    PairValue(Land, Both(a, b), NotTeens, n % 10 >= 2 && n % 10 <= 4, !Teen(n), n, word);
  }

  lemma Remainder(n: nat, m: nat, q: nat, r: nat)
    requires 0 < m && q * m + r == n && r < m
    ensures n % m == r
  {
    SameResidue(n, r, q, m);
  }

  // Two or three variants by the value v.
  lemma Chosen(e: Expr, v: nat, n: nat, nplurals: nat, word: nat)
    requires 1 < word && n < word && Fits(e, word) && Eval(e, n, word) == Value(v) && v < nplurals
    ensures Selected(e, n, nplurals, nplurals, word) == Value(v)
  {
    hide Eval;
  }

  // Polish: one; two to four but for the teens; the rest.
  lemma PolishSelects(n: nat, word: nat)
    requires 100 < word && n < word
    ensures Fits(Ast(Polish), word)
    ensures Selected(Ast(Polish), n, 3, 3, word) == Value(if n == 1 then 0 else if IsFew(n) then 1 else 2)
  {
    hide Eval, Few, Ast, Fits, IsFew, Selected;
    IsValue(Equal, 1, n, word);
    FewValue(n, word);
    NumberValue(0, n, word);
    NumberValue(1, n, word);
    NumberValue(2, n, word);
    CondValue(Few, TNum(1), TNum(2), IsFew(n), n, word);
    CondValue(Is(Equal, 1), TNum(0), TCond(Few, TNum(1), TNum(2)), n == 1, n, word);
    Chosen(Ast(Polish), if n == 1 then 0 else if IsFew(n) then 1 else 2, n, 3, word);
  }

  predicate EndsInOne(n: nat) { n % 10 == 1 && n % 100 != 11 }

  lemma EndsInOneValue(n: nat, word: nat)
    requires 100 < word && n < word
    ensures var t := Both(Rest(10, Equal, 1), Rest(100, NotEqual, 11));
      Fits(Ast(t), word) && Eval(Ast(t), n, word) == Bool(EndsInOne(n))
  {
    hide Eval, Rest, Ast, Fits;
    RestValue(10, Equal, 1, n, word);
    RestValue(100, NotEqual, 11, n, word);
    PairValue(Land, Rest(10, Equal, 1), Rest(100, NotEqual, 11), n % 10 == 1, n % 100 != 11, n, word);
  }

  // Russian and Ukrainian: what ends in one but not in eleven; two to four but for the teens; the rest.
  lemma RussianSelects(n: nat, word: nat)
    requires 100 < word && n < word
    ensures Fits(Ast(Russian), word)
    ensures Selected(Ast(Russian), n, 3, 3, word) == Value(if EndsInOne(n) then 0 else if IsFew(n) then 1 else 2)
  {
    hide Eval, Few, Rest, Ast, Fits, IsFew, EndsInOne, Selected;
    EndsInOneValue(n, word);
    FewValue(n, word);
    NumberValue(0, n, word);
    NumberValue(1, n, word);
    NumberValue(2, n, word);
    CondValue(Few, TNum(1), TNum(2), IsFew(n), n, word);
    CondValue(Both(Rest(10, Equal, 1), Rest(100, NotEqual, 11)), TNum(0), TCond(Few, TNum(1), TNum(2)),
              EndsInOne(n), n, word);
    Chosen(Ast(Russian), if EndsInOne(n) then 0 else if IsFew(n) then 1 else 2, n, 3, word);
  }

  // Lithuanian: what ends in one but not in eleven; what ends in two to nine but for the teens; the rest.
  lemma LithuanianSelects(n: nat, word: nat)
    requires 100 < word && n < word
    ensures Fits(Ast(Lithuanian), word)
    ensures Selected(Ast(Lithuanian), n, 3, 3, word) ==
      Value(if EndsInOne(n) then 0 else if 2 <= n % 10 && !Teen(n) then 1 else 2)
  {
    hide Eval, NotTeens, Rest, Ast, Fits, Teen, EndsInOne, Selected;
    EndsInOneValue(n, word);
    RestValue(10, GreaterOrEqual, 2, n, word);
    NotTeensValue(n, word);
    NumberValue(0, n, word);
    NumberValue(1, n, word);
    NumberValue(2, n, word);
    var few, b := Both(Rest(10, GreaterOrEqual, 2), NotTeens), 2 <= n % 10 && !Teen(n);
    PairValue(Land, Rest(10, GreaterOrEqual, 2), NotTeens, n % 10 >= 2, !Teen(n), n, word);
    CondValue(few, TNum(1), TNum(2), b, n, word);
    CondValue(Both(Rest(10, Equal, 1), Rest(100, NotEqual, 11)), TNum(0), TCond(few, TNum(1), TNum(2)),
              EndsInOne(n), n, word);
    Chosen(Ast(Lithuanian), if EndsInOne(n) then 0 else if b then 1 else 2, n, 3, word);
  }

  // Slovenian: one, two, and three or four of each hundred; the rest comes first.
  lemma SlovenianSelects(n: nat, word: nat)
    requires 100 < word && n < word
    ensures Fits(Ast(Slovenian), word)
    ensures Selected(Ast(Slovenian), n, 4, 4, word) ==
      Value(if n % 100 == 1 then 1 else if n % 100 == 2 then 2 else if n % 100 in {3, 4} then 3 else 0)
  {
    hide Eval, Rest, Ast, Fits, Selected;
    var r := n % 100;
    RestValue(100, Equal, 1, n, word);
    RestValue(100, Equal, 2, n, word);
    RestValue(100, Equal, 3, n, word);
    RestValue(100, Equal, 4, n, word);
    NumberValue(0, n, word);
    NumberValue(1, n, word);
    NumberValue(2, n, word);
    NumberValue(3, n, word);
    var either := TBin(Lor, Rest(100, Equal, 3), Rest(100, Equal, 4));
    var last := TCond(either, TNum(3), TNum(0));
    PairValue(Lor, Rest(100, Equal, 3), Rest(100, Equal, 4), r == 3, r == 4, n, word);
    CondValue(either, TNum(3), TNum(0), r == 3 || r == 4, n, word);
    CondValue(Rest(100, Equal, 2), TNum(2), last, r == 2, n, word);
    CondValue(Rest(100, Equal, 1), TNum(1), TCond(Rest(100, Equal, 2), TNum(2), last), r == 1, n, word);
    Chosen(Ast(Slovenian), if r == 1 then 1 else if r == 2 then 2 else if r in {3, 4} then 3 else 0, n, 4, word);
  }

  // The rules with two variants, and with one.
  lemma TwoSelects(n: nat, word: nat)
    requires 9 < word && n < word
    ensures Fits(Ast(Two), word) && Selected(Ast(Two), n, 2, 2, word) == Value(if n == 1 then 0 else 1)
    ensures Fits(Ast(French), word) && Selected(Ast(French), n, 2, 2, word) == Value(if n <= 1 then 0 else 1)
    ensures Fits(Ast(TNum(0)), word) && Selected(Ast(TNum(0)), n, 1, 1, word) == Value(0)
  {
    hide Eval, Ast, Fits, Selected;
    IsValue(NotEqual, 1, n, word);
    IsValue(GreaterThan, 1, n, word);
    NumberValue(0, n, word);
    Chosen(Ast(Two), if n == 1 then 0 else 1, n, 2, word);
    Chosen(Ast(French), if n <= 1 then 0 else 1, n, 2, word);
    Chosen(Ast(TNum(0)), 0, n, 1, word);
  }

  // ---- The shape of the trees ----

  // A tree of the grammar that binds at least as tightly as level and needs at most peak entries.
  predicate Shaped(t: Tree, level: nat, peak: nat) {
    WellFormed(t) && level <= Level(t) && Peak(t) <= peak
  }

  lemma LeafShape(k: nat)
    ensures Shaped(TVar, 8, 1) && Shaped(TNum(k), 8, 1)
  {}

  lemma BinShape(op: BinOp, l: Tree, r: Tree, peak: nat)
    requires Shaped(l, OpLevel(op), peak + 2) && Shaped(r, OpLevel(op) + 1, peak)
    ensures Shaped(TBin(op, l, r), OpLevel(op), peak + 2)
  {}

  lemma CondShape(c: Tree, x: Tree, y: Tree, peak: nat)
    requires Shaped(c, 1, peak + 4) && Shaped(x, 0, peak) && Shaped(y, 0, peak)
    ensures Shaped(TCond(c, x, y), 0, peak + 4)
  {}

  lemma ParenShape(i: Tree, level: nat, peak: nat)
    requires Shaped(i, level, peak + 2)
    ensures Shaped(TParen(i), 8, peak + 3)
  {}

  lemma Looser(t: Tree, level: nat, peak: nat, level': nat, peak': nat)
    requires Shaped(t, level, peak) && level' <= level && peak <= peak'
    ensures Shaped(t, level', peak')
  {}

  lemma Levels()
    ensures OpLevel(Lor) == 1 && OpLevel(Land) == 2 && OpLevel(Module) == 6
    ensures forall op :: Comparison(op) ==> 3 <= OpLevel(op) <= 4
  {}

  lemma IsShape(op: BinOp, k: nat)
    requires Comparison(op)
    ensures Shaped(Is(op, k), 3, 3)
  {
    hide Shaped, OpLevel;
    Levels();
    LeafShape(k);
    Looser(TVar, 8, 1, OpLevel(op), 3);
    Looser(TNum(k), 8, 1, OpLevel(op) + 1, 1);
    BinShape(op, TVar, TNum(k), 1);
    Looser(Is(op, k), OpLevel(op), 3, 3, 3);
  }

  lemma RestShape(m: nat, op: BinOp, k: nat)
    requires Comparison(op)
    ensures Shaped(Rest(m, op, k), 3, 3)
  {
    hide Shaped, OpLevel;
    Levels();
    LeafShape(m);
    LeafShape(k);
    Looser(TVar, 8, 1, 6, 3);
    Looser(TNum(m), 8, 1, 7, 1);
    BinShape(Module, TVar, TNum(m), 1);
    Looser(TBin(Module, TVar, TNum(m)), 6, 3, OpLevel(op), 3);
    Looser(TNum(k), 8, 1, OpLevel(op) + 1, 1);
    BinShape(op, TBin(Module, TVar, TNum(m)), TNum(k), 1);
    Looser(Rest(m, op, k), OpLevel(op), 3, 3, 3);
  }

  lemma BothShape(a: Tree, b: Tree, p: nat, q: nat)
    requires Shaped(a, 2, p) && Shaped(b, 3, q)
    ensures Shaped(Both(a, b), 2, p + q + 2)
  {
    hide Shaped, OpLevel;
    Levels();
    Looser(a, 2, p, 2, p + q + 2);
    Looser(b, 3, q, 3, p + q);
    BinShape(Land, a, b, p + q);
  }

  lemma EitherShape(a: Tree, b: Tree, p: nat, q: nat)
    requires Shaped(a, 3, p) && Shaped(b, 3, q)
    ensures Shaped(TBin(Lor, a, b), 1, p + q + 2)
  {
    hide Shaped, OpLevel;
    Levels();
    Looser(a, 3, p, 1, p + q + 2);
    Looser(b, 3, q, 2, p + q);
    BinShape(Lor, a, b, p + q);
  }

  lemma ChoiceShape(c: Tree, level: nat, k: nat, y: Tree, p: nat, q: nat)
    requires Shaped(c, level, p) && Shaped(y, 0, q) && 1 <= level
    ensures Shaped(TCond(c, TNum(k), y), 0, p + q + 5)
  {
    hide Shaped;
    LeafShape(k);
    Looser(c, level, p, 1, p + q + 5);
    Looser(TNum(k), 8, 1, 0, p + q + 1);
    Looser(y, 0, q, 0, p + q + 1);
    CondShape(c, TNum(k), y, p + q + 1);
  }

  lemma LastShape(k: nat)
    ensures Shaped(TNum(k), 0, 1)
  {}

  lemma NotTeensShape()
    ensures Shaped(NotTeens, 8, 9)
  {
    hide Shaped, Rest;
    var a, b := Rest(100, LessThan, 10), Rest(100, GreaterOrEqual, 20);
    RestShape(100, LessThan, 10);
    RestShape(100, GreaterOrEqual, 20);
    EitherShape(a, b, 3, 3);
    ParenShape(TBin(Lor, a, b), 1, 6);
  }

  lemma FewShape()
    ensures Shaped(Few, 2, 19)
  {
    hide Shaped, Rest, NotTeens;
    var a, b := Rest(10, GreaterOrEqual, 2), Rest(10, LessOrEqual, 4);
    RestShape(10, GreaterOrEqual, 2);
    RestShape(10, LessOrEqual, 4);
    NotTeensShape();
    Looser(a, 3, 3, 2, 3);
    BothShape(a, b, 3, 3);
    Looser(NotTeens, 8, 9, 3, 9);
    BothShape(Both(a, b), NotTeens, 8, 9);
  }

  lemma EndsInOneShape()
    ensures Shaped(Both(Rest(10, Equal, 1), Rest(100, NotEqual, 11)), 2, 8)
  {
    hide Shaped, Rest;
    RestShape(10, Equal, 1);
    RestShape(100, NotEqual, 11);
    Looser(Rest(10, Equal, 1), 3, 3, 2, 3);
    BothShape(Rest(10, Equal, 1), Rest(100, NotEqual, 11), 3, 3);
  }

  lemma PolishShape()
    ensures Shaped(TParen(Polish), 8, 100)
  {
    hide Shaped, Is, Few;
    IsShape(Equal, 1);
    FewShape();
    LastShape(2);
    ChoiceShape(Few, 2, 1, TNum(2), 19, 1);
    ChoiceShape(Is(Equal, 1), 3, 0, TCond(Few, TNum(1), TNum(2)), 3, 25);
    ParenShape(Polish, 0, 31);
    Looser(TParen(Polish), 8, 34, 8, 100);
  }

  lemma RussianShape()
    ensures Shaped(TParen(Russian), 8, 100)
  {
    hide Shaped, Rest, Few;
    EndsInOneShape();
    FewShape();
    LastShape(2);
    ChoiceShape(Few, 2, 1, TNum(2), 19, 1);
    ChoiceShape(
      Both(Rest(10, Equal, 1), Rest(100, NotEqual, 11)), 2, 0, TCond(Few, TNum(1), TNum(2)), 8, 25);
    ParenShape(Russian, 0, 36);
    Looser(TParen(Russian), 8, 39, 8, 100);
  }

  lemma LithuanianShape()
    ensures Shaped(TParen(Lithuanian), 8, 100)
  {
    hide Shaped, Rest, NotTeens;
    EndsInOneShape();
    RestShape(10, GreaterOrEqual, 2);
    NotTeensShape();
    LastShape(2);
    var a := Rest(10, GreaterOrEqual, 2);
    Looser(a, 3, 3, 2, 3);
    Looser(NotTeens, 8, 9, 3, 9);
    BothShape(a, NotTeens, 3, 9);
    ChoiceShape(Both(a, NotTeens), 2, 1, TNum(2), 14, 1);
    ChoiceShape(
      Both(Rest(10, Equal, 1), Rest(100, NotEqual, 11)), 2, 0, TCond(Both(a, NotTeens), TNum(1), TNum(2)), 8, 20);
    ParenShape(Lithuanian, 0, 31);
    Looser(TParen(Lithuanian), 8, 34, 8, 100);
  }

  lemma SlovenianShape()
    ensures Shaped(TParen(Slovenian), 8, 100)
  {
    hide Shaped, Rest;
    RestShape(100, Equal, 1);
    RestShape(100, Equal, 2);
    RestShape(100, Equal, 3);
    RestShape(100, Equal, 4);
    LastShape(0);
    var either := TBin(Lor, Rest(100, Equal, 3), Rest(100, Equal, 4));
    var last := TCond(either, TNum(3), TNum(0));
    EitherShape(Rest(100, Equal, 3), Rest(100, Equal, 4), 3, 3);
    ChoiceShape(either, 1, 3, TNum(0), 8, 1);
    ChoiceShape(Rest(100, Equal, 2), 3, 2, last, 3, 14);
    ChoiceShape(Rest(100, Equal, 1), 3, 1, TCond(Rest(100, Equal, 2), TNum(2), last), 3, 22);
    ParenShape(Slovenian, 0, 28);
    Looser(TParen(Slovenian), 8, 31, 8, 100);
  }

  lemma TwoShape()
    ensures Shaped(Two, 3, 100) && Shaped(TParen(Two), 8, 100) && Shaped(TParen(French), 8, 100)
    ensures Shaped(TNum(0), 8, 100)
  {
    hide Shaped;
    LeafShape(0);
    Looser(TNum(0), 8, 1, 8, 100);
    IsShape(NotEqual, 1);
    IsShape(GreaterThan, 1);
    Looser(Two, 3, 3, 3, 100);
    ParenShape(Two, 3, 1);
    ParenShape(French, 3, 1);
    Looser(TParen(Two), 8, 4, 8, 100);
    Looser(TParen(French), 8, 4, 8, 100);
  }

  // ---- From the header to the variant ----

  // What follows the keywords of a header entry.
  predicate Parts(text: string, plural: string, nplurals: string) {
    var p, q := StrStr(text, PLURAL), StrStr(text, NPLURALS);
    p.Some? && q.Some? && text[p.value + |PLURAL|..] == plural && text[q.value + |NPLURALS|..] == nplurals
  }

  lemma OpenParts(text: string, plural: string, nplurals: string)
    requires Parts(text, plural, nplurals)
    ensures var p, q := StrStr(text, PLURAL), StrStr(text, NPLURALS);
      p.Some? && q.Some? && text[p.value + |PLURAL|..] == plural && text[q.value + |NPLURALS|..] == nplurals
  {
    hide StrStr;
  }

  predicate OneDigit(d: string) { |d| == 1 && Digit(d[0]) }

  // The line of a header, behind lines without the keywords.
  lemma LineParts(before: string, d: string, rule: string)
    requires OneDigit(d)
    requires var text := before + NPLURALS + d + "; " + PLURAL + rule;
      forall i :: 0 <= i < |before| ==> !OccursAt(text, PLURAL, i) && !OccursAt(text, NPLURALS, i)
    ensures Parts(before + NPLURALS + d + "; " + PLURAL + rule, rule, d + "; " + PLURAL + rule)
  {
    var text := before + NPLURALS + d + "; " + PLURAL + rule;
    var b := |before|;
    assert text == before + (NPLURALS + (d + "; " + PLURAL + rule));
    assert OccursAt(text, NPLURALS, b) && text[b + 9..] == d + "; " + PLURAL + rule;
    assert text == (before + NPLURALS + d + "; ") + (PLURAL + rule);
    assert OccursAt(text, PLURAL, b + 12) && text[b + 19..] == rule;
    forall i | b <= i < b + 12 ensures !OccursAt(text, PLURAL, i) {
      NoEarlier(before, d, rule, i - b);
    }
  }

  lemma NoEarlier(before: string, d: string, rule: string, i: nat)
    requires OneDigit(d) && i < 12
    ensures !OccursAt(before + NPLURALS + d + "; " + PLURAL + rule, PLURAL, |before| + i)
  {
    var text, s, b := before + NPLURALS + d + "; " + PLURAL + rule, NPLURALS + d + "; " + PLURAL, |before|;
    assert text[b + i] == s[i] && text[b + i + 6] == s[i + 6];
    assert s[i] == 'p' ==> i == 1;
    assert text[b + i..b + i + 7][0] == text[b + i] && text[b + i..b + i + 7][6] == text[b + i + 6];
  }

  // A header with the text of a tree and a number declares the expression of the tree and the number.
  lemma RuleDeclared(text: string, t: Tree, spaced: set<BinOp>, tail: string, k: nat, rest: string, word: nat)
    requires 9 < word && WellFormed(t) && Fits(Ast(t), word) && Ends(tail) && 1 + Peak(t) < YYMAXDEPTH
    requires k < word && !Digit(PluralLexer.Peek(rest)) && Parts(text, Shown(t, spaced) + tail, Decimal(k) + rest)
    ensures Declared(Some(text), word) == Rule(Ast(t), k)
  {
    hide *;
    OpenParts(text, Shown(t, spaced) + tail, Decimal(k) + rest);
    ShownParsed(t, spaced, tail, word);
    assert Decimal(k) + rest == "" + Decimal(k) + rest;
    NumberFound(Decimal(k) + rest, k, "", rest, word);
    DeclaredFrom(text, StrStr(text, PLURAL).value, StrStr(text, NPLURALS).value, Decimal(k) + rest, Ast(t), word);
  }

  // The variant that the header selects is v.
  predicate Selects(text: string, n: nat, count: nat, v: nat, word: nat)
    requires 9 < word && n < word && 0 < count
  {
    var rule := Declared(Some(text), word);
    rule.nplurals == count && Selected(rule.plural, n, count, count, word) == Value(v)
  }

  lemma HeaderSelects(
    text: string, t: Tree, spaced: set<BinOp>, tail: string, k: nat, rest: string, n: nat, v: nat, word: nat)
    requires 100 < word && n < word && Shaped(t, 0, 100) && Fits(Ast(t), word) && Ends(tail)
    requires 0 < k < word && !Digit(PluralLexer.Peek(rest)) && Parts(text, Shown(t, spaced) + tail, Decimal(k) + rest)
    requires Selected(Ast(t), n, k, k, word) == Value(v)
    ensures Selects(text, n, k, v, word)
  {
    hide Shown, Parts, Decimal, Declared, Selected, WellFormed, Ast;
    RuleDeclared(text, t, spaced, tail, k, rest, word);
  }

  lemma ParenAst(t: Tree)
    ensures Ast(TParen(t)) == Ast(t)
  {}

  // Whatever else the header says: the variant that pl.po declares for n.
  lemma PolishHeader(text: string, tail: string, rest: string, n: nat, word: nat)
    requires 100 < word && n < word && Ends(tail) && !Digit(PluralLexer.Peek(rest))
    requires Parts(text, PolishText + tail, "3" + rest)
    ensures Selects(text, n, 3, if n == 1 then 0 else if IsFew(n) then 1 else 2, word)
  {
    hide *;
    Numbers();
    PolishShown();
    PolishSelects(n, word);
    ParenAst(Polish);
    PolishShape();
    Looser(TParen(Polish), 8, 100, 0, 100);
    var v := if n == 1 then 0 else if IsFew(n) then 1 else 2;
    HeaderSelects(text, TParen(Polish), Wide, tail, 3, rest, n, v, word);
  }

  // ru.po and uk.po.
  lemma RussianHeader(text: string, tail: string, rest: string, n: nat, word: nat)
    requires 100 < word && n < word && Ends(tail) && !Digit(PluralLexer.Peek(rest))
    requires Parts(text, RussianText + tail, "3" + rest)
    ensures Selects(text, n, 3, if EndsInOne(n) then 0 else if IsFew(n) then 1 else 2, word)
  {
    hide *;
    Numbers();
    RussianShown();
    RussianSelects(n, word);
    ParenAst(Russian);
    RussianShape();
    Looser(TParen(Russian), 8, 100, 0, 100);
    var v := if EndsInOne(n) then 0 else if IsFew(n) then 1 else 2;
    HeaderSelects(text, TParen(Russian), Wide, tail, 3, rest, n, v, word);
  }

  // lt.po.
  lemma LithuanianHeader(text: string, tail: string, rest: string, n: nat, word: nat)
    requires 100 < word && n < word && Ends(tail) && !Digit(PluralLexer.Peek(rest))
    requires Parts(text, LithuanianText + tail, "3" + rest)
    ensures Selects(text, n, 3, if EndsInOne(n) then 0 else if 2 <= n % 10 && !Teen(n) then 1 else 2, word)
  {
    hide *;
    Numbers();
    LithuanianShown();
    LithuanianSelects(n, word);
    ParenAst(Lithuanian);
    LithuanianShape();
    Looser(TParen(Lithuanian), 8, 100, 0, 100);
    var v := if EndsInOne(n) then 0 else if 2 <= n % 10 && !Teen(n) then 1 else 2;
    HeaderSelects(text, TParen(Lithuanian), Wide, tail, 3, rest, n, v, word);
  }

  // sl.po.
  lemma SlovenianHeader(text: string, tail: string, rest: string, n: nat, word: nat)
    requires 100 < word && n < word && Ends(tail) && !Digit(PluralLexer.Peek(rest))
    requires Parts(text, SlovenianText + tail, "4" + rest)
    ensures var r := n % 100;
      Selects(text, n, 4, if r == 1 then 1 else if r == 2 then 2 else if r in {3, 4} then 3 else 0, word)
  {
    hide *;
    Numbers();
    SlovenianShown();
    SlovenianSelects(n, word);
    ParenAst(Slovenian);
    SlovenianShape();
    Looser(TParen(Slovenian), 8, 100, 0, 100);
    var r := n % 100;
    var v := if r == 1 then 1 else if r == 2 then 2 else if r in {3, 4} then 3 else 0;
    HeaderSelects(text, TParen(Slovenian), Wide, tail, 4, rest, n, v, word);
  }

  // de.po and others, with parentheses or without.
  lemma GermanHeader(text: string, tail: string, rest: string, n: nat, word: nat)
    requires 100 < word && n < word && Ends(tail) && !Digit(PluralLexer.Peek(rest))
    requires Parts(text, "n != 1" + tail, "2" + rest) || Parts(text, "(" + "n != 1" + ")" + tail, "2" + rest)
    ensures Selects(text, n, 2, if n == 1 then 0 else 1, word)
  {
    hide *;
    Numbers();
    TwoShown();
    TwoSelects(n, word);
    ParenAst(Two);
    TwoShape();
    Looser(Two, 3, 100, 0, 100);
    Looser(TParen(Two), 8, 100, 0, 100);
    if Parts(text, "n != 1" + tail, "2" + rest) {
      HeaderSelects(text, Two, WIDE_NE, tail, 2, rest, n, if n == 1 then 0 else 1, word);
    } else {
      ParenShown(Two, WIDE_NE);
      HeaderSelects(text, TParen(Two), WIDE_NE, tail, 2, rest, n, if n == 1 then 0 else 1, word);
    }
  }

  // fr.po, ko_KR.po and pt_BR.po.
  lemma FrenchHeader(text: string, tail: string, rest: string, n: nat, word: nat)
    requires 100 < word && n < word && Ends(tail) && !Digit(PluralLexer.Peek(rest))
    requires Parts(text, "(" + "n > 1" + ")" + tail, "2" + rest)
    ensures Selects(text, n, 2, if n <= 1 then 0 else 1, word)
  {
    hide *;
    Numbers();
    TwoShown();
    TwoSelects(n, word);
    ParenAst(French);
    TwoShape();
    Looser(TParen(French), 8, 100, 0, 100);
    ParenShown(French, WIDE_NE);
    HeaderSelects(text, TParen(French), WIDE_NE, tail, 2, rest, n, if n <= 1 then 0 else 1, word);
  }

  // hu.po and ja.po.
  lemma JapaneseHeader(text: string, tail: string, rest: string, n: nat, word: nat)
    requires 100 < word && n < word && Ends(tail) && !Digit(PluralLexer.Peek(rest))
    requires Parts(text, "0" + tail, "1" + rest)
    ensures Selects(text, n, 1, 0, word)
  {
    hide *;
    Numbers();
    ZeroShown();
    TwoSelects(n, word);
    TwoShape();
    Looser(TNum(0), 8, 100, 0, 100);
    HeaderSelects(text, TNum(0), Wide, tail, 1, rest, n, 0, word);
  }

  lemma ZeroShown()
    ensures Shown(TNum(0), Wide) == "0"
  {
    Numbers();
    hide Decimal;
  }
}
