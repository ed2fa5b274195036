// Printing, scanning and parsing compose to the identity.
module PluralRoundTrip {
  import opened PluralGrammar
  import opened PluralParser
  import opened PluralLexer
  import opened PluralSoundness

  predicate Fits(e: Expr, word: nat) {
    match e
    case Var => true
    case Num(n) => n < word
    case Not(a) => Fits(a, word)
    case Bin(_, l, r) => Fits(l, word) && Fits(r, word)
    case Cond(c, x, y) => Fits(c, word) && Fits(x, word) && Fits(y, word)
  }

  predicate Opens(t: Token) { t.Bang? || t.Number? || t.N? || t.LParen? }

  predicate Closes(t: Token) { t.Number? || t.N? || t.RParen? }

  // A sentence that can be written without any space.
  predicate Tight(ts: seq<Token>, word: nat) {
    && ts != [] && Opens(ts[0]) && Closes(ts[|ts| - 1])
    && (forall i :: 0 <= i < |ts| ==> Writable(ts[i], word))
    && (forall i :: 0 < i < |ts| ==> !Clash(ts[i - 1], ts[i]))
  }

  lemma TightInfix(a: seq<Token>, t: Token, b: seq<Token>, word: nat)
    requires Tight(a, word) && Tight(b, word) && (t.Oper? || t.Quest? || t.Colon?)
    ensures Tight(a + [t] + b, word)
  {
  }

  // Adjacent tokens of a sentence never run together, so no space is ever needed.
  lemma {:induction false} YieldTight(t: Tree, word: nat)
    requires WellFormed(t) && Fits(Ast(t), word)
    ensures Tight(Yield(t), word)
  {
    match t
    case TVar =>
    case TNum(_) =>
    case TParen(i) => YieldTight(i, word);
    case TNot(a) => YieldTight(a, word);
    case TBin(op, l, r) =>
      YieldTight(l, word);
      YieldTight(r, word);
      TightInfix(Yield(l), Oper(op), Yield(r), word);
    case TCond(c, x, y) =>
      YieldTight(c, word);
      YieldTight(x, word);
      YieldTight(y, word);
      hide Tight;
      TightInfix(Yield(c), Quest, Yield(x), word);
      TightInfix(Yield(c) + [Quest] + Yield(x), Colon, Yield(y), word);
  }

  // The text of the catalogue header: any blanks, then a terminator.
  predicate Printed(e: Expr, gaps: seq<string>, tail: string) {
    && |gaps| == |Yield(Minimal(e))|
    && (forall i :: 0 <= i < |gaps| ==> AllBlank(gaps[i]))
    && (tail == "" || tail[0] == ';' || tail[0] == '\n' || tail[0] == '\0')
  }

  lemma RoundTrip(e: Expr, gaps: seq<string>, tail: string, word: nat)
    requires 9 < word && Fits(e, word) && Printed(e, gaps, tail)
    ensures var text := Render(Yield(Minimal(e)), gaps, tail);
      Parse(Tokens(text, word)) == if 1 + Peak(Minimal(e)) < YYMAXDEPTH then Accepted(e) else Overflow
  {
    MinimalCorrect(e);
    YieldTight(Minimal(e), word);
    LayoutRead(Yield(Minimal(e)), gaps, tail, word);
    ParseComplete(Minimal(e));
  }
}
