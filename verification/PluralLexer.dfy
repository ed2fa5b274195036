// yylex: the scanner of plural expressions, its token stream, and the layouts it reads back.
module PluralLexer {
  import opened Arithmetic
  import opened PluralGrammar

  // What one call of yylex delivers; `rest` is the text from *pexp on.
  datatype Lexed = End(rest: string) | Lexeme(t: Token, rest: string)

  // exp[0] of a C string.
  function Peek(cp: string): char {
    if cp == "" then '\0' else cp[0]
  }

  predicate Blank(c: char) { c == ' ' || c == '\t' }

  predicate Digit(c: char) { '0' <= c <= '9' }

  function DigitValue(c: char): (d: nat)
    requires Digit(c)
    ensures d < 10
  {
    c as int - '0' as int
  }

  function SkipBlanks(cp: string): (r: string)
    ensures |r| <= |cp| && !Blank(Peek(r))
  {
    if Blank(Peek(cp)) then SkipBlanks(cp[1..]) else cp
  }

  // The digit loop; `word` is the number of values of `unsigned long`.
  function ScanDigits(cp: string, n: nat, word: nat): (r: (nat, string))
    requires 0 < word
    ensures |r.1| <= |cp|
    decreases |cp|
  {
    if Digit(Peek(cp)) then ScanDigits(cp[1..], (n * 10 + DigitValue(cp[0])) % word, word) else (n, cp)
  }

  // `c` if the next character is `want`, else `d`; tells whether it was consumed.
  function Either(cp: string, want: char, c: Token, d: Token): Lexed {
    if Peek(cp) == want && cp != "" then Lexeme(c, cp[1..]) else Lexeme(d, cp)
  }

  function Scan(cp: string, word: nat): (r: Lexed)
    requires 9 < word
    ensures r.Lexeme? ==> |r.rest| < |cp|
  {
    if cp == "" then End(cp)
    else
      var tail := cp[1..];
      match cp[0]
      case '=' => Either(tail, '=', Oper(Equal), Error)
      case '!' => Either(tail, '=', Oper(NotEqual), Bang)
      case '&' => Either(tail, '&', Oper(Land), Error)
      case '|' => Either(tail, '|', Oper(Lor), Error)
      case '<' => Either(tail, '=', Oper(LessOrEqual), Oper(LessThan))
      case '>' => Either(tail, '=', Oper(GreaterOrEqual), Oper(GreaterThan))
      case '*' => Lexeme(Oper(Mult), tail)
      case '/' => Lexeme(Oper(Divide), tail)
      case '%' => Lexeme(Oper(Module), tail)
      case '+' => Lexeme(Oper(Plus), tail)
      case '-' => Lexeme(Oper(Minus), tail)
      case 'n' => Lexeme(N, tail)
      case '?' => Lexeme(Quest, tail)
      case ':' => Lexeme(Colon, tail)
      case '(' => Lexeme(LParen, tail)
      case ')' => Lexeme(RParen, tail)
      case ';' => End(cp)
      case '\n' => End(cp)
      case '\0' => End(cp)
      case _ =>
        if Digit(cp[0]) then
          var (n, rest) := ScanDigits(tail, DigitValue(cp[0]), word);
          Lexeme(Number(n), rest)
        else Lexeme(Error, tail)
  }

  function NextToken(cp: string, word: nat): (r: Lexed)
    requires 9 < word
    ensures r.Lexeme? ==> |r.rest| < |cp|
  {
    Scan(SkipBlanks(cp), word)
  }

  // All tokens up to the end of the input.
  function Tokens(cp: string, word: nat): seq<Token>
    requires 9 < word
    decreases |cp|
  {
    match NextToken(cp, word)
    case End(_) => []
    case Lexeme(t, rest) => [t] + Tokens(rest, word)
  }

  // ---- Writing tokens ----

  function Decimal(n: nat): (s: string)
    ensures s != "" && forall i :: 0 <= i < |s| ==> Digit(s[i])
  {
    if n < 10 then [('0' as int + n) as char] else Decimal(n / 10) + [('0' as int + n % 10) as char]
  }

  function OpText(op: BinOp): string {
    match op
    case Mult => "*" case Divide => "/" case Module => "%" case Plus => "+" case Minus => "-"
    case LessThan => "<" case GreaterThan => ">" case LessOrEqual => "<=" case GreaterOrEqual => ">="
    case Equal => "==" case NotEqual => "!=" case Land => "&&" case Lor => "||"
  }

  function TokenText(t: Token): (s: string)
    ensures s != ""
  {
    match t
    case Quest => "?" case Colon => ":" case Bang => "!" case N => "n"
    case LParen => "(" case RParen => ")" case Error => "#"
    case Number(n) => Decimal(n)
    case Oper(op) => OpText(op)
  }

  // Two tokens that would run together when nothing separates them.
  predicate Clash(a: Token, b: Token) {
    (a.Number? && b.Number?) ||
    ((a.Bang? || a == Oper(LessThan) || a == Oper(GreaterThan)) && b == Oper(Equal))
  }

  // A token that the lexer can return for some text: no error, and a number that fits the word.
  predicate Writable(t: Token, word: nat) {
    !t.Error? && (t.Number? ==> t.n < word)
  }

  predicate AllBlank(s: string) {
    forall i :: 0 <= i < |s| ==> Blank(s[i])
  }

  // `gaps[i]` is the space in front of token i; the text ends at a terminator.
  predicate Layout(ts: seq<Token>, gaps: seq<string>, tail: string, word: nat) {
    && |gaps| == |ts|
    && (forall i :: 0 <= i < |ts| ==> Writable(ts[i], word) && AllBlank(gaps[i]))
    && (forall i :: 0 < i < |ts| && Clash(ts[i - 1], ts[i]) ==> gaps[i] != "")
    && (tail == "" || tail[0] == ';' || tail[0] == '\n' || tail[0] == '\0')
  }

  function Render(ts: seq<Token>, gaps: seq<string>, tail: string): string
    requires |gaps| == |ts|
  {
    if ts == [] then tail else gaps[0] + TokenText(ts[0]) + Render(ts[1..], gaps[1..], tail)
  }

  lemma {:induction false} SkipGap(gap: string, s: string)
    requires AllBlank(gap) && !Blank(Peek(s))
    ensures SkipBlanks(gap + s) == s
  {
    if gap == "" {
      assert gap + s == s;
    } else {
      assert (gap + s)[1..] == gap[1..] + s;
      SkipGap(gap[1..], s);
    }
  }

  lemma ScanOneDigit(q: nat, d: nat, s: string, word: nat)
    requires d < 10 && 0 < word
    ensures ScanDigits([('0' as int + d) as char] + s, q, word) == ScanDigits(s, (q * 10 + d) % word, word)
  {
    assert ([('0' as int + d) as char] + s)[1..] == s;
  }

  lemma NoWrap(n: nat, word: nat)
    requires n < word
    ensures n % word == n
  {}

  // Ten times a remainder and a digit.
  lemma WrapOnce(q: nat, d: nat, word: nat)
    requires 0 < word
    ensures (q % word * 10 + d) % word == (q * 10 + d) % word
  {
    var k, r := q / word, q % word;
    assert q == k * word + r;
    Regrouped(k, r, d, word);
    SameResidue(q * 10 + d, r * 10 + d, 10 * k, word);
  }

  lemma Regrouped(k: nat, r: nat, d: nat, word: nat)
    ensures (k * word + r) * 10 + d == r * 10 + d + 10 * k * word
  {}

  lemma DecimalEnds(n: nat, s: string)
    requires 10 <= n
    ensures Decimal(n)[0] == Decimal(n / 10)[0]
    ensures Decimal(n)[1..] + s == Decimal(n / 10)[1..] + ([('0' as int + n % 10) as char] + s)
    ensures n == n / 10 * 10 + n % 10
  {
    assert Decimal(n) == Decimal(n / 10) + [('0' as int + n % 10) as char];
  }

  lemma OneDigit(n: nat, s: string)
    requires n < 10
    ensures Decimal(n)[1..] + s == s && DigitValue(Decimal(n)[0]) == n
  {}

  // Scanning the digits of n, whatever follows, arrives at what follows with n modulo the word in hand.
  lemma {:induction false} DecimalPrefix(n: nat, s: string, word: nat)
    requires 9 < word
    ensures ScanDigits(Decimal(n)[1..] + s, DigitValue(Decimal(n)[0]), word) == ScanDigits(s, n % word, word)
  {
    hide *;
    if n < 10 {
      OneDigit(n, s);
      NoWrap(n, word);
    } else {
      var q, d := n / 10, n % 10;
      DecimalEnds(n, s);
      DecimalPrefix(q, [('0' as int + d) as char] + s, word);
      ScanOneDigit(q % word, d, s, word);
      WrapOnce(q, d, word);
    }
  }

  lemma ScanNumber(n: nat, s: string, word: nat)
    requires n < word && 9 < word && !Digit(Peek(s))
    ensures Scan(TokenText(Number(n)) + s, word) == Lexeme(Number(n), s)
  {
    var text := Decimal(n);
    assert TokenText(Number(n)) == text;
    hide *;
    DecimalPrefix(n, s, word);
    NoWrap(n, word);
    assert (text + s)[0] == text[0] && (text + s)[1..] == text[1..] + s;
    ScanDigit(text + s, word);
    DigitsEnd(s, n, word);
  }

  lemma ScanDigit(cp: string, word: nat)
    requires 9 < word && cp != "" && Digit(cp[0])
    ensures var (n, rest) := ScanDigits(cp[1..], DigitValue(cp[0]), word);
      Scan(cp, word) == Lexeme(Number(n), rest)
  {
    hide ScanDigits;
  }

  lemma DigitsEnd(s: string, n: nat, word: nat)
    requires 0 < word && !Digit(Peek(s))
    ensures ScanDigits(s, n, word) == (n, s)
  {}

  // A token text that does not run into what follows is read back as that token.
  lemma ScanText(t: Token, s: string, word: nat)
    requires Writable(t, word) && 9 < word
    requires t.Number? ==> !Digit(Peek(s))
    requires t.Bang? || t == Oper(LessThan) || t == Oper(GreaterThan) ==> Peek(s) != '='
    ensures Scan(TokenText(t) + s, word) == Lexeme(t, s)
  {
    if t.Number? {
      hide *;
      ScanNumber(t.n, s, word);
      return;
    }
    hide ScanDigits, Decimal;
    var text := TokenText(t);
    if |text| == 1 {
      assert (text + s)[1..] == s;
    } else {
      assert (text + s)[1..] == [text[1]] + s;
      assert ([text[1]] + s)[1..] == s;
    }
  }

  lemma RenderStarts(ts: seq<Token>, gaps: seq<string>, tail: string, word: nat)
    requires Layout(ts, gaps, tail, word)
    ensures var c := Peek(Render(ts, gaps, tail));
      if ts == [] then c == Peek(tail) else if gaps[0] != "" then Blank(c) else c == TokenText(ts[0])[0]
  {
  }

  // The first token of a layout is read, and the rest of the layout is left.
  lemma LayoutStep(ts: seq<Token>, gaps: seq<string>, tail: string, word: nat)
    requires 9 < word && ts != [] && Layout(ts, gaps, tail, word) && Layout(ts[1..], gaps[1..], tail, word)
    ensures NextToken(Render(ts, gaps, tail), word) == Lexeme(ts[0], Render(ts[1..], gaps[1..], tail))
  {
    hide Scan, SkipBlanks;
    var more := Render(ts[1..], gaps[1..], tail);
    RenderStarts(ts[1..], gaps[1..], tail, word);
    TextFirst(ts[0]);
    if 1 < |ts| {
      TextFirst(ts[1]);
    }
    ScanText(ts[0], more, word);
    assert Render(ts, gaps, tail) == gaps[0] + (TokenText(ts[0]) + more);
    SkipGap(gaps[0], TokenText(ts[0]) + more);
  }

  // Any layout of any sequence of tokens is read back as that sequence.
  lemma {:induction false} LayoutRead(ts: seq<Token>, gaps: seq<string>, tail: string, word: nat)
    requires 9 < word && Layout(ts, gaps, tail, word)
    ensures Tokens(Render(ts, gaps, tail), word) == ts
  {
    if ts == [] {
      assert Scan(tail, word) == End(tail);
    } else {
      assert Layout(ts[1..], gaps[1..], tail, word);
      LayoutRead(ts[1..], gaps[1..], tail, word);
      LayoutStep(ts, gaps, tail, word);
    }
  }

  lemma TextFirst(t: Token)
    ensures var c := TokenText(t)[0];
      !Blank(c) && (Digit(c) <==> t.Number?) && (c == '=' <==> t == Oper(Equal))
  {
  }
}
