// C strings in strcmp order.
module Strings {
  type byte = x: int | 0 <= x < 256

  // A C string without its terminating NUL.
  type Str = seq<byte>

  const SLASH: byte := 47
  const COLON: byte := 58

  // strcmp, as the sign of the comparison of the first differing byte.
  function StrCmp(a: Str, b: Str): int {
    if a == [] && b == [] then 0
    else if a == [] then -1
    else if b == [] then 1
    else if a[0] != b[0] then a[0] - b[0]
    else StrCmp(a[1..], b[1..])
  }

  lemma {:induction false} StrCmpZero(a: Str, b: Str)
    ensures StrCmp(a, b) == 0 <==> a == b
  {
    if a != [] && b != [] {
      StrCmpZero(a[1..], b[1..]);
      assert a == [a[0]] + a[1..] && b == [b[0]] + b[1..];
    }
  }

  // The first differing byte decides, as an unsigned one; a prefix comes first.
  lemma {:induction false} StrCmpDecides(p: Str, x: byte, a: Str, y: byte, b: Str)
    requires x < y
    ensures StrCmp(p + [x] + a, p + [y] + b) < 0 && StrCmp(p, p + [y] + b) < 0
  {
    var s, t := p + [x] + a, p + [y] + b;
    if p != [] {
      StrCmpDecides(p[1..], x, a, y, b);
      assert s[1..] == p[1..] + [x] + a && t[1..] == p[1..] + [y] + b;
    }
  }

  lemma {:induction false} StrCmpOrder(a: Str, b: Str, c: Str)
    requires StrCmp(a, b) < 0 && StrCmp(b, c) <= 0
    ensures StrCmp(a, c) < 0
  {
    if a != [] && b != [] && c != [] && a[0] == b[0] == c[0] {
      StrCmpOrder(a[1..], b[1..], c[1..]);
    }
  }

  lemma {:induction false} StrCmpFlip(a: Str, b: Str)
    ensures StrCmp(a, b) < 0 <==> StrCmp(b, a) > 0
  {
    if a != [] && b != [] {
      StrCmpFlip(a[1..], b[1..]);
    }
  }

  predicate Less(a: Str, b: Str) {
    StrCmp(a, b) < 0
  }

  lemma LessTrans(a: Str, b: Str, c: Str)
    requires Less(a, b) && Less(b, c)
    ensures Less(a, c)
  {
    StrCmpOrder(a, b, c);
  }

  lemma LessDistinct(a: Str, b: Str)
    requires Less(a, b)
    ensures a != b
  {
    StrCmpZero(a, b);
  }
}
