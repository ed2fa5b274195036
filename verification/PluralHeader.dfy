// EXTRACT_PLURAL_EXPRESSION: from the header entry of a catalogue to the variant of a translation.
module PluralHeader {
  import opened Options
  import opened PluralGrammar
  import opened PluralParser
  import opened PluralLexer
  import opened PluralSoundness
  import opened PluralRoundTrip
  import opened PluralDriver
  import opened PluralEval

  // GERMANIC_PLURAL: singular form only for one.
  const GERMANIC_PLURAL: Expr := Bin(NotEqual, Var, PluralGrammar.Num(1))

  // ---- What is parsed fits the word ----

  predicate Small(ts: seq<Token>, word: nat) {
    forall i :: 0 <= i < |ts| && ts[i].Number? ==> ts[i].n < word
  }

  lemma {:induction false} DigitsSmall(cp: string, n: nat, word: nat)
    requires n < word
    ensures ScanDigits(cp, n, word).0 < word
    decreases |cp|
  {
    if Digit(Peek(cp)) {
      DigitsSmall(cp[1..], (n * 10 + DigitValue(cp[0])) % word, word);
    }
  }

  lemma ScanSmall(cp: string, word: nat)
    requires 9 < word
    ensures Scan(cp, word).Lexeme? && Scan(cp, word).t.Number? ==> Scan(cp, word).t.n < word
  {
    if cp != "" && Digit(cp[0]) {
      DigitsSmall(cp[1..], DigitValue(cp[0]), word);
    }
  }

  lemma {:induction false} TokensSmall(cp: string, word: nat)
    requires 9 < word
    ensures Small(Tokens(cp, word), word)
    decreases |cp|
  {
    ScanSmall(SkipBlanks(cp), word);
    hide Scan, SkipBlanks;
    match NextToken(cp, word)
    case End(_) =>
    case Lexeme(t, rest) => TokensSmall(rest, word);
  }

  lemma SmallParts(a: seq<Token>, b: seq<Token>, word: nat)
    requires Small(a + b, word)
    ensures Small(a, word) && Small(b, word)
  {
    assert forall i :: 0 <= i < |a| ==> (a + b)[i] == a[i];
    assert forall i :: 0 <= i < |b| ==> (a + b)[|a| + i] == b[i];
  }

  lemma {:induction false} YieldFits(t: Tree, word: nat)
    requires Small(Yield(t), word)
    ensures Fits(Ast(t), word)
  {
    match t
    case TVar =>
    case TNum(n) => assert Yield(t)[0] == Number(n);
    case TParen(i) =>
      SmallParts([LParen] + Yield(i), [RParen], word);
      SmallParts([LParen], Yield(i), word);
      YieldFits(i, word);
    case TNot(a) =>
      SmallParts([Bang], Yield(a), word);
      YieldFits(a, word);
    case TBin(op, l, r) =>
      SmallParts(Yield(l) + [Oper(op)], Yield(r), word);
      SmallParts(Yield(l), [Oper(op)], word);
      YieldFits(l, word);
      YieldFits(r, word);
    case TCond(c, x, y) =>
      SmallParts(Yield(c) + [Quest] + Yield(x) + [Colon], Yield(y), word);
      SmallParts(Yield(c) + [Quest] + Yield(x), [Colon], word);
      SmallParts(Yield(c) + [Quest], Yield(x), word);
      SmallParts(Yield(c), [Quest], word);
      YieldFits(c, word);
      YieldFits(x, word);
      YieldFits(y, word);
  }

  // Whatever the text is: the numbers of an accepted expression are numbers of the machine.
  lemma ParsedFits(text: string, word: nat)
    requires 9 < word && Parse(Tokens(text, word)).Accepted?
    ensures Fits(Parse(Tokens(text, word)).e, word)
  {
    TokensSmall(text, word);
    hide Tokens;
    var t := ParseSound(Tokens(text, word));
    YieldFits(t, word);
  }

  // ---- The header entry ----

  predicate OccursAt(text: string, pattern: string, i: nat) {
    i + |pattern| <= |text| && text[i..i + |pattern|] == pattern
  }

  // strstr: the first occurrence.
  function StrStr(text: string, pattern: string, from: nat := 0): (r: Option<nat>)
    requires from <= |text|
    ensures r.Some? ==> from <= r.value && OccursAt(text, pattern, r.value)
    ensures r.Some? ==> forall i :: from <= i < r.value ==> !OccursAt(text, pattern, i)
    ensures r.None? ==> forall i :: from <= i ==> !OccursAt(text, pattern, i)
    decreases |text| - from
  {
    if OccursAt(text, pattern, from) then Some(from)
    else if from == |text| then None
    else StrStr(text, pattern, from + 1)
  }

  predicate Space(c: char) { c == ' ' || '\t' <= c <= '\r' }

  // strtoul of a text that starts with a digit: the largest value stands for all that do not fit.
  function StrToUL(s: string, n: nat, word: nat): (r: nat)
    requires n < word
    ensures r < word
  {
    if !Digit(Peek(s)) then n
    else
      var m := n * 10 + DigitValue(s[0]);
      StrToUL(s[1..], if m < word then m else word - 1, word)
  }

  const PLURAL := "plural="
  const NPLURALS := "nplurals="

  function AfterSpaces(s: string): (r: string)
    ensures r == "" || !Space(r[0])
  {
    if s != "" && Space(s[0]) then AfterSpaces(s[1..]) else s
  }

  // The rule for choosing a variant: the expression and the number of variants.
  datatype Rule = Rule(plural: Expr, nplurals: nat)

  const GERMANIC := Rule(GERMANIC_PLURAL, 2)

  // What the two parts of a header say, without their keywords.
  function Read(plural: string, nplurals: string, word: nat): (r: Rule)
    requires 9 < word
    ensures Fits(r.plural, word) && r.nplurals < word
  {
    var number, tokens := AfterSpaces(nplurals), Tokens(plural, word);
    if !Digit(Peek(number)) || !Parse(tokens).Accepted? then GERMANIC
    else
      ParsedFits(plural, word);
      Rule(Parse(tokens).e, StrToUL(number, 0, word))
  }

  // The rule that a header declares; the Germanic one where it declares none.
  function Declared(nullentry: Option<string>, word: nat): (r: Rule)
    requires 9 < word
    ensures Fits(r.plural, word) && r.nplurals < word
  {
    if nullentry.None? then GERMANIC
    else
      var p, q := StrStr(nullentry.value, PLURAL), StrStr(nullentry.value, NPLURALS);
      if p.None? || q.None? then GERMANIC
      else Read(nullentry.value[p.value + |PLURAL|..], nullentry.value[q.value + |NPLURALS|..], word)
  }

  // The first occurrence of the pattern.
  ghost predicate FirstAt(text: string, pattern: string, i: nat) {
    OccursAt(text, pattern, i) && forall j: nat :: j < i ==> !OccursAt(text, pattern, j)
  }

  ghost predicate Lacks(text: string, pattern: string) {
    forall i: nat :: !OccursAt(text, pattern, i)
  }

  lemma DeclaredIs(nullentry: Option<string>, word: nat)
    requires 9 < word
    ensures (nullentry.None? || Lacks(nullentry.value, PLURAL) || Lacks(nullentry.value, NPLURALS)) ==>
      Declared(nullentry, word) == GERMANIC
    ensures forall p: nat, q: nat ::
      nullentry.Some? && FirstAt(nullentry.value, PLURAL, p) && FirstAt(nullentry.value, NPLURALS, q) ==>
        Declared(nullentry, word) == Read(nullentry.value[p + 7..], nullentry.value[q + 9..], word)
  {
    hide Read, OccursAt;
  }

  method ExtractPluralExpression(nullentry: Option<string>, word: nat) returns (plural: Expr, nplurals: nat)
    requires 9 < word
    ensures Rule(plural, nplurals) == Declared(nullentry, word)
    ensures Fits(plural, word) && nplurals < word
    ensures (nullentry.None? || Lacks(nullentry.value, "plural=") || Lacks(nullentry.value, "nplurals=")) ==>
      plural == Bin(NotEqual, Var, PluralGrammar.Num(1)) && nplurals == 2
    ensures forall p: nat, q: nat ::
      nullentry.Some? && FirstAt(nullentry.value, "plural=", p) && FirstAt(nullentry.value, "nplurals=", q) ==>
        var rule, number := Tokens(nullentry.value[p + 7..], word), AfterSpaces(nullentry.value[q + 9..]);
        if Digit(Peek(number)) && Parse(rule).Accepted?
        then plural == Parse(rule).e && nplurals == StrToUL(number, 0, word)
        else plural == Bin(NotEqual, Var, PluralGrammar.Num(1)) && nplurals == 2
  {
    DeclaredIs(nullentry, word);
    plural, nplurals := GERMANIC_PLURAL, 2;
    if nullentry.None? {
      return;
    }
    var text := nullentry.value;
    var p, q := StrStr(text, PLURAL), StrStr(text, NPLURALS);
    if p.None? || q.None? {
      return;
    }
    hide Parse, Tokens, StrToUL, StrStr;
    var at := SkipSpaces(text, q.value + |NPLURALS|);
    if !Digit(Peek(text[at..])) {
      return;
    }
    var n := StrToUL(text[at..], 0, word);
    var args := new ParseArgs(text[p.value + |PLURAL|..]);
    assert args.text[0..] == args.text;
    var status := YyParse(args, word);
    if status == 0 {
      plural, nplurals := args.res, n;
    }
  }

  // The loop over isspace.
  method SkipSpaces(text: string, from: nat) returns (at: nat)
    requires from <= |text|
    ensures at <= |text| && text[at..] == AfterSpaces(text[from..])
  {
    at := from;
    while at < |text| && Space(text[at])
      invariant at <= |text| && AfterSpaces(text[at..]) == AfterSpaces(text[from..])
    {
      assert text[at..][1..] == text[at + 1..];
      at := at + 1;
    }
  }

  // A header that declares an expression in any layout gives exactly this expression and number.
  lemma HeaderRead(
    text: string, e: Expr, gaps: seq<string>, tail: string, k: nat, spaces: string, rest: string, word: nat)
    requires 9 < word && Fits(e, word) && k < word && Printed(e, gaps, tail) && 1 + Peak(Minimal(e)) < YYMAXDEPTH
    requires StrStr(text, PLURAL).Some? && StrStr(text, NPLURALS).Some?
    requires text[StrStr(text, PLURAL).value + |PLURAL|..] == Render(Yield(Minimal(e)), gaps, tail)
    requires text[StrStr(text, NPLURALS).value + |NPLURALS|..] == spaces + Decimal(k) + rest
    requires (forall i :: 0 <= i < |spaces| ==> Space(spaces[i])) && !Digit(Peek(rest))
    ensures Declared(Some(text), word) == Rule(e, k)
  {
    hide Render, Tokens, Parse, StrStr, AfterSpaces, Decimal, StrToUL, Yield, Minimal, Fits;
    RoundTrip(e, gaps, tail, word);
    NumberFound(text[StrStr(text, NPLURALS).value + |NPLURALS|..], k, spaces, rest, word);
    DeclaredFrom(text, StrStr(text, PLURAL).value, StrStr(text, NPLURALS).value, Decimal(k) + rest, e, word);
  }

  lemma NumberFound(s: string, k: nat, spaces: string, rest: string, word: nat)
    requires 9 < word && k < word && s == spaces + Decimal(k) + rest
    requires (forall i :: 0 <= i < |spaces| ==> Space(spaces[i])) && !Digit(Peek(rest))
    ensures AfterSpaces(s) == Decimal(k) + rest && Digit(Peek(Decimal(k) + rest))
    ensures StrToUL(Decimal(k) + rest, 0, word) == k
  {
    NumberRead(k, rest, word);
    var number := Decimal(k) + rest;
    assert number[0] == Decimal(k)[0];
    hide AfterSpaces, Decimal;
    SpacesSkipped(spaces, number);
    assert s == spaces + number;
  }

  lemma DeclaredFrom(text: string, p: nat, q: nat, number: string, e: Expr, word: nat)
    requires 9 < word && StrStr(text, PLURAL) == Some(p) && StrStr(text, NPLURALS) == Some(q)
    requires AfterSpaces(text[q + |NPLURALS|..]) == number && Digit(Peek(number))
    requires Parse(Tokens(text[p + |PLURAL|..], word)) == Accepted(e)
    ensures Declared(Some(text), word) == Rule(e, StrToUL(number, 0, word))
  {
    hide Tokens, Parse, StrStr, AfterSpaces, StrToUL;
  }

  lemma {:induction false} SpacesSkipped(spaces: string, s: string)
    requires forall i :: 0 <= i < |spaces| ==> Space(spaces[i])
    requires s != "" && !Space(s[0])
    ensures AfterSpaces(spaces + s) == s
  {
    if spaces == "" {
      assert spaces + s == s;
    } else {
      assert (spaces + s)[1..] == spaces[1..] + s;
      SpacesSkipped(spaces[1..], s);
    }
  }

  // A number is read up to the largest of the word, which stands for all above it.
  lemma {:induction false} NumberRead(k: nat, rest: string, word: nat)
    requires 9 < word
    ensures StrToUL(Decimal(k) + rest, 0, word) == StrToUL(rest, if k < word then k else word - 1, word)
  {
    var d := Decimal(k);
    if k < 10 {
      assert (d + rest)[1..] == rest;
    } else {
      var c := [('0' as int + k % 10) as char];
      NumberRead(k / 10, c + rest, word);
      assert d + rest == Decimal(k / 10) + (c + rest);
      assert (c + rest)[1..] == rest;
    }
  }

  // The Germanic rule keeps the first variant for one.
  lemma GermanicRule(n: nat, count: nat, word: nat)
    requires 9 < word && n < word && 0 < count
    ensures Fits(GERMANIC.plural, word)
    ensures Selected(GERMANIC.plural, n, GERMANIC.nplurals, count, word) == Value(if n == 1 || count == 1 then 0 else 1)
  {
    assert Eval(Var, n, word) == Value(n) && Eval(PluralGrammar.Num(1), n, word) == Value(1);
  }

  // From the header to the text: the variant delivered for n is the one that the declared rule selects.
  method LookupPlural(
    nullentry: Option<string>, n: nat, translation: string, ghost forms: seq<string>, word: nat)
    returns (p: PluralEval.Result)
    requires 9 < word && n < word
    requires forms != [] && translation == Join(forms) && forall i :: 0 <= i < |forms| ==> NoNul(forms[i])
    ensures var rule := Declared(nullentry, word);
      var s := Selected(rule.plural, n, rule.nplurals, |forms|, word);
      p.Value? == s.Value? && (p.Value? ==> p.v < |translation| && CString(translation[p.v..]) == forms[s.v])
  {
    var plural, nplurals := ExtractPluralExpression(nullentry, word);
    hide Declared, Selected;
    p := PluralLookup(plural, n, nplurals, translation, forms, word);
  }
}
