// plural_eval and plural_lookup: from a number to the plural variant of a translation.
module PluralEval {
  import opened Arithmetic
  import opened PluralGrammar
  import opened PluralRoundTrip

  // `Raised` is the SIGFPE of a division by zero.
  datatype Result = Value(v: nat) | Raised

  function Truth(b: bool): Result { Value(if b then 1 else 0) }

  // Reduction to the word size.
  function Wrapped(x: nat, word: nat): (r: nat)
    requires 0 < word
    ensures r < word && (x < word ==> r == x)
  {
    x % word
  }

  function Quotient(a: nat, b: nat): (q: nat)
    requires 0 < b
    ensures q * b <= a < q * b + b && q <= a
  {
    a / b
  }

  function Apply(op: BinOp, a: nat, b: nat, word: nat): (r: Result)
    requires 1 < word && a < word && b < word
    ensures r.Value? ==> r.v < word
  {
    match op
    case Mult => Value(Wrapped(a * b, word))
    case Divide => if b == 0 then Raised else Value(Quotient(a, b))
    case Module => if b == 0 then Raised else Value(Wrapped(a, b))
    case Plus => Value(Wrapped(a + b, word))
    case Minus => Value(Wrapped(a + (word - b), word))
    case LessThan => Truth(a < b)
    case GreaterThan => Truth(a > b)
    case LessOrEqual => Truth(a <= b)
    case GreaterOrEqual => Truth(a >= b)
    case Equal => Truth(a == b)
    case NotEqual => Truth(a != b)
    case Land => Truth(a != 0 && b != 0)
    case Lor => Truth(a != 0 || b != 0)
  }

  // Arithmetic in `unsigned long`; && || and ?: evaluate only what they need.
  function Eval(e: Expr, n: nat, word: nat): (r: Result)
    requires 1 < word && n < word && Fits(e, word)
    ensures r.Value? ==> r.v < word
  {
    match e
    case Var => Value(n)
    case Num(k) => Value(k)
    case Not(a) =>
      var x := Eval(a, n, word);
      if x.Raised? then Raised else Truth(x.v == 0)
    case Bin(op, a, b) =>
      var x := Eval(a, n, word);
      if x.Raised? then Raised
      else if op == Lor && x.v != 0 then Value(1)
      else if op == Land && x.v == 0 then Value(0)
      else
        var y := Eval(b, n, word);
        if y.Raised? then Raised else Apply(op, x.v, y.v, word)
    case Cond(c, a, b) =>
      var x := Eval(c, n, word);
      if x.Raised? then Raised else if x.v != 0 then Eval(a, n, word) else Eval(b, n, word)
  }

  // ---- What evaluation computes ----

  lemma DivisionFacts(a: nat, b: nat, word: nat)
    requires 1 < word && a < word && b < word
    ensures b == 0 ==> Apply(Divide, a, b, word) == Raised && Apply(Module, a, b, word) == Raised
    ensures b != 0 ==> Apply(Divide, a, b, word).Value? && Apply(Module, a, b, word).Value?
    ensures b != 0 ==> Apply(Module, a, b, word).v < b
    ensures b != 0 ==> Apply(Divide, a, b, word).v * b + Apply(Module, a, b, word).v == a
  {}

  // ---- What each operator computes ----

  // Arithmetic is that of the integers, modulo the word.
  lemma ArithmeticMeans(a: Expr, b: Expr, n: nat, word: nat)
    requires 1 < word && n < word && Fits(a, word) && Fits(b, word)
    requires Eval(a, n, word).Value? && Eval(b, n, word).Value?
    ensures var x, y := Eval(a, n, word).v, Eval(b, n, word).v;
      && Eval(Bin(Plus, a, b), n, word).Value? && (Eval(Bin(Plus, a, b), n, word).v - (x + y)) % word == 0
      && Eval(Bin(Minus, a, b), n, word).Value? && (Eval(Bin(Minus, a, b), n, word).v - (x - y)) % word == 0
      && Eval(Bin(Mult, a, b), n, word).Value? && (Eval(Bin(Mult, a, b), n, word).v - x * y) % word == 0
  {
    hide *;
    BothEvaluated(Plus, a, b, n, word);
    BothEvaluated(Minus, a, b, n, word);
    BothEvaluated(Mult, a, b, n, word);
    ArithmeticFacts(Eval(a, n, word).v, Eval(b, n, word).v, word);
  }

  lemma BothEvaluated(op: BinOp, a: Expr, b: Expr, n: nat, word: nat)
    requires 1 < word && n < word && Fits(a, word) && Fits(b, word) && op != Lor && op != Land
    requires Eval(a, n, word).Value? && Eval(b, n, word).Value?
    ensures Fits(Bin(op, a, b), word)
    ensures Eval(Bin(op, a, b), n, word) == Apply(op, Eval(a, n, word).v, Eval(b, n, word).v, word)
  {
    hide Apply;
  }

  lemma ArithmeticFacts(x: nat, y: nat, word: nat)
    requires 1 < word && x < word && y < word
    ensures Apply(Plus, x, y, word).Value? && (Apply(Plus, x, y, word).v - (x + y)) % word == 0
    ensures Apply(Minus, x, y, word).Value? && (Apply(Minus, x, y, word).v - (x - y)) % word == 0
    ensures Apply(Mult, x, y, word).Value? && (Apply(Mult, x, y, word).v - x * y) % word == 0
  {
    hide Wrapped;
    WrappedMeans(x + y, word);
    WrappedMeans(x + (word - y), word);
    WrappedMeans(x * y, word);
    MoreMeans(Wrapped(x + (word - y), word) - (x + (word - y)), word);
  }

  lemma WrappedMeans(x: nat, word: nat)
    requires 0 < word
    ensures (Wrapped(x, word) - x) % word == 0
  {
    var q := x / word;
    assert x == q * word + x % word;
    SameResidue(Wrapped(x, word) - x, 0, -q, word);
  }

  lemma MoreMeans(d: int, word: nat)
    requires 0 < word && d % word == 0
    ensures (d + word) % word == 0
  {
    SameResidue(d + word, d, 1, word);
  }

  lemma DivisionMeans(a: Expr, b: Expr, n: nat, word: nat)
    requires 1 < word && n < word && Fits(a, word) && Fits(b, word)
    requires Eval(a, n, word).Value? && Eval(b, n, word).Value?
    ensures var x, y := Eval(a, n, word).v, Eval(b, n, word).v;
      if y == 0 then Eval(Bin(Divide, a, b), n, word).Raised? && Eval(Bin(Module, a, b), n, word).Raised?
      else
        Eval(Bin(Divide, a, b), n, word).Value? && Eval(Bin(Module, a, b), n, word).Value? &&
        Eval(Bin(Divide, a, b), n, word).v * y + Eval(Bin(Module, a, b), n, word).v == x &&
        Eval(Bin(Module, a, b), n, word).v < y
  {
    DivisionFacts(Eval(a, n, word).v, Eval(b, n, word).v, word);
    hide Apply;
  }

  function Bool(b: bool): Result { if b then Value(1) else Value(0) }

  // Comparisons are those of the integers.
  lemma ComparisonMeans(a: Expr, b: Expr, n: nat, word: nat)
    requires 1 < word && n < word && Fits(a, word) && Fits(b, word)
    requires Eval(a, n, word).Value? && Eval(b, n, word).Value?
    ensures var x, y := Eval(a, n, word).v, Eval(b, n, word).v;
      && Eval(Bin(LessThan, a, b), n, word) == Bool(x < y)
      && Eval(Bin(GreaterThan, a, b), n, word) == Bool(x > y)
      && Eval(Bin(LessOrEqual, a, b), n, word) == Bool(x <= y)
      && Eval(Bin(GreaterOrEqual, a, b), n, word) == Bool(x >= y)
      && Eval(Bin(Equal, a, b), n, word) == Bool(x == y)
      && Eval(Bin(NotEqual, a, b), n, word) == Bool(x != y)
  {}

  lemma LogicMeans(a: Expr, b: Expr, n: nat, word: nat)
    requires 1 < word && n < word && Fits(a, word) && Fits(b, word) && Eval(a, n, word).Value?
    ensures var x, y := Eval(a, n, word).v, Eval(b, n, word);
      && Eval(Not(a), n, word) == Bool(x == 0)
      && (x == 0 ==> Eval(Bin(Land, a, b), n, word) == Value(0))
      && (x != 0 ==> Eval(Bin(Lor, a, b), n, word) == Value(1))
      && (y.Value? ==> Eval(Bin(Land, a, b), n, word) == Bool(x != 0 && y.v != 0))
      && (y.Value? ==> Eval(Bin(Lor, a, b), n, word) == Bool(x != 0 || y.v != 0))
  {}

  lemma ChoiceMeans(c: Expr, a: Expr, b: Expr, n: nat, word: nat)
    requires 1 < word && n < word && Fits(c, word) && Fits(a, word) && Fits(b, word) && Eval(c, n, word).Value?
    ensures Eval(Cond(c, a, b), n, word) == Eval(if Eval(c, n, word).v != 0 then a else b, n, word)
  {}

  lemma LeafMeans(n: nat, k: nat, word: nat)
    requires 1 < word && n < word && k < word
    ensures Eval(Var, n, word) == Value(n) && Eval(Num(k), n, word) == Value(k)
  {}

  // Every operand is evaluated, and what would divide by zero is 0.
  function Strict(e: Expr, n: nat, word: nat): (v: nat)
    requires 1 < word && n < word && Fits(e, word)
    ensures v < word
  {
    match e
    case Var => n
    case Num(k) => k
    case Not(a) => if Strict(a, n, word) == 0 then 1 else 0
    case Bin(op, a, b) =>
      var r := Apply(op, Strict(a, n, word), Strict(b, n, word), word);
      if r.Raised? then 0 else r.v
    case Cond(c, a, b) =>
      var x, y := Strict(a, n, word), Strict(b, n, word);
      if Strict(c, n, word) != 0 then x else y
  }

  // Whether the second operand matters.
  predicate Needed(op: BinOp, left: nat) {
    match op
    case Lor => left == 0
    case Land => left != 0
    case _ => true
  }

  // A division by zero is reached.
  predicate Faults(e: Expr, n: nat, word: nat)
    requires 1 < word && n < word && Fits(e, word)
  {
    match e
    case Var => false
    case Num(_) => false
    case Not(a) => Faults(a, n, word)
    case Bin(op, a, b) =>
      Faults(a, n, word) ||
      (Needed(op, Strict(a, n, word)) &&
       (Faults(b, n, word) || ((op.Divide? || op.Module?) && Strict(b, n, word) == 0)))
    case Cond(c, a, b) =>
      Faults(c, n, word) || if Strict(c, n, word) != 0 then Faults(a, n, word) else Faults(b, n, word)
  }

  // Leaving operands out never changes a value: evaluation raises exactly when a division by zero is reached,
  // and gives the strict value otherwise.
  lemma {:induction false} EvalStrict(e: Expr, n: nat, word: nat)
    requires 1 < word && n < word && Fits(e, word)
    ensures Eval(e, n, word) == if Faults(e, n, word) then Raised else Value(Strict(e, n, word))
  {
    match e
    case Var =>
    case Num(_) =>
    case Not(a) => EvalStrict(a, n, word);
    case Bin(op, a, b) =>
      EvalStrict(a, n, word);
      EvalStrict(b, n, word);
      hide Wrapped, Quotient;
    case Cond(c, a, b) =>
      EvalStrict(c, n, word);
      EvalStrict(a, n, word);
      EvalStrict(b, n, word);
  }

  // A second operand that is not needed may divide by zero.
  lemma ShortCircuit(a: Expr, b: Expr, n: nat, word: nat)
    requires 1 < word && n < word && Fits(a, word) && Fits(b, word) && Eval(a, n, word).Value?
    ensures Eval(Bin(Lor, a, b), n, word).Raised? <==> Eval(a, n, word).v == 0 && Eval(b, n, word).Raised?
    ensures Eval(Bin(Land, a, b), n, word).Raised? <==> Eval(a, n, word).v != 0 && Eval(b, n, word).Raised?
  {}

  // Variants are stored one after another, each with its terminating NUL.
  function Join(forms: seq<string>): string {
    if forms == [] then "" else forms[0] + ['\0'] + Join(forms[1..])
  }

  predicate NoNul(s: string) { '\0' !in s }

  // The C string at an offset.
  function CString(s: string): (r: string)
    ensures NoNul(r) && |r| <= |s|
  {
    if s == "" || s[0] == '\0' then "" else [s[0]] + CString(s[1..])
  }

  lemma {:induction false} CStringOf(a: string, rest: string)
    requires NoNul(a)
    ensures CString(a + ['\0'] + rest) == a
  {
    if a != "" {
      assert (a + ['\0'] + rest)[1..] == a[1..] + ['\0'] + rest;
      CStringOf(a[1..], rest);
    } else {
      assert a + ['\0'] + rest == ['\0'] + rest;
    }
  }

  // strchr (p, '\0') from an offset of a terminated block.
  method FindNul(translation: string, from: nat) returns (p: nat)
    requires from < |translation| && translation[|translation| - 1] == '\0'
    ensures p == from + |CString(translation[from..])| && p < |translation| && translation[p] == '\0'
  {
    p := from;
    while translation[p] != '\0'
      invariant from <= p < |translation|
      invariant |CString(translation[from..])| == p - from + |CString(translation[p..])|
      decreases |translation| - p
    {
      p := p + 1;
    }
  }

  // The offset of form k in Join(forms).
  function Offset(forms: seq<string>, k: nat): nat
    requires k <= |forms|
  {
    if k == 0 then 0 else |forms[0]| + 1 + Offset(forms[1..], k - 1)
  }

  lemma {:induction false} JoinAt(forms: seq<string>, k: nat)
    requires k <= |forms| && forall i :: 0 <= i < |forms| ==> NoNul(forms[i])
    ensures Offset(forms, k) <= |Join(forms)|
    ensures Join(forms)[Offset(forms, k)..] == Join(forms[k..])
    ensures k == |forms| <==> Offset(forms, k) == |Join(forms)|
  {
    if k > 0 {
      JoinAt(forms[1..], k - 1);
      var head := forms[0] + ['\0'];
      assert Join(forms) == head + Join(forms[1..]);
      assert Join(forms)[Offset(forms, k)..] == Join(forms[1..])[Offset(forms[1..], k - 1)..];
      assert forms[1..][k - 1..] == forms[k..];
    } else {
      assert forms[0..] == forms;
    }
  }

  lemma OffsetNext(forms: seq<string>, k: nat)
    requires k < |forms|
    ensures Offset(forms, k + 1) == Offset(forms, k) + |forms[k]| + 1
    decreases k
  {
    if k > 0 {
      OffsetNext(forms[1..], k - 1);
    }
  }

  lemma {:induction false} JoinTerminated(forms: seq<string>)
    requires forms != []
    ensures Join(forms) != "" && Join(forms)[|Join(forms)| - 1] == '\0'
  {
    if |forms| > 1 {
      JoinTerminated(forms[1..]);
    }
  }

  // The variant selected for n: index 0 when the expression gives one that does not exist.
  function Selected(plural: Expr, n: nat, nplurals: nat, count: nat, word: nat): (r: Result)
    requires 1 < word && n < word && Fits(plural, word) && 0 < count
    ensures r.Value? ==> r.v < count
  {
    var x := Eval(plural, n, word);
    if x.Raised? then Raised else if x.v < nplurals && x.v < count then x else Value(0)
  }

  // plural_lookup, on the block of variants that msgfmt wrote.
  method PluralLookup(plural: Expr, n: nat, nplurals: nat, translation: string, ghost forms: seq<string>, word: nat)
    returns (p: Result)
    requires 1 < word && n < word && Fits(plural, word)
    requires forms != [] && translation == Join(forms) && forall i :: 0 <= i < |forms| ==> NoNul(forms[i])
    ensures var s := Selected(plural, n, nplurals, |forms|, word);
      p.Value? == s.Value? && (p.Value? ==> p.v < |translation| && CString(translation[p.v..]) == forms[s.v])
    ensures var x := Eval(plural, n, word);
      && (x.Raised? <==> p.Raised?) && (p.Value? ==> p.v < |translation|)
      && (x.Value? && x.v < nplurals && x.v < |forms| ==> CString(translation[p.v..]) == forms[x.v])
      && (x.Value? && (nplurals <= x.v || |forms| <= x.v) ==> CString(translation[p.v..]) == forms[0])
  {
    hide *;
    SelectedIndex(plural, n, nplurals, |forms|, word);
    var x := Eval(plural, n, word);
    if x.Raised? {
      return Raised;
    }
    var index := x.v;
    if index >= nplurals {
      index := 0;
    }
    FormAt(forms, 0);
    FormRead(forms, 0, 0);
    var q: nat, k: nat := 0, 0;
    while k < index
      invariant k <= index && k < |forms| && FormStarts(forms, k, q)
    {
      NextForm(forms, k, q);
      q := FindNul(translation, q);
      q := q + 1;
      k := k + 1;
      if q >= |translation| {
        return Value(0);
      }
    }
    FormRead(forms, k, q);
    p := Value(q);
  }

  lemma SelectedIndex(plural: Expr, n: nat, nplurals: nat, count: nat, word: nat)
    requires 1 < word && n < word && Fits(plural, word) && 0 < count
    ensures var x := Eval(plural, n, word);
      Selected(plural, n, nplurals, count, word) ==
        if x.Raised? then Raised else Value(if x.v < nplurals && x.v < count then x.v else 0)
  {}

  // Form k starts at offset q of the block.
  predicate FormStarts(forms: seq<string>, k: nat, q: nat) {
    k < |forms| && q < |Join(forms)| && q == Offset(forms, k) && CString(Join(forms)[q..]) == forms[k]
  }

  lemma FormRead(forms: seq<string>, k: nat, q: nat)
    requires FormStarts(forms, k, q)
    ensures k < |forms| && q < |Join(forms)| && CString(Join(forms)[q..]) == forms[k]
  {}

  lemma FormAt(forms: seq<string>, k: nat)
    requires k < |forms| && forall i :: 0 <= i < |forms| ==> NoNul(forms[i])
    ensures FormStarts(forms, k, Offset(forms, k)) && Offset(forms, 0) == 0
  {
    JoinAt(forms, k);
    var rest := forms[k..];
    assert Join(rest) == rest[0] + ['\0'] + Join(rest[1..]);
    CStringOf(rest[0], Join(rest[1..]));
  }

  lemma NextForm(forms: seq<string>, k: nat, q: nat)
    requires FormStarts(forms, k, q) && forall i :: 0 <= i < |forms| ==> NoNul(forms[i])
    ensures var s := Join(forms);
      q < |s| && s[|s| - 1] == '\0' && CString(s[q..]) == forms[k] &&
      if k + 1 < |forms| then FormStarts(forms, k + 1, q + |forms[k]| + 1) else q + |forms[k]| + 1 >= |s|
  {
    JoinTerminated(forms);
    OffsetNext(forms, k);
    if k + 1 < |forms| {
      FormAt(forms, k + 1);
    } else {
      JoinAt(forms, |forms|);
    }
  }
}
