// What a lookup without the cache finds: the locale list, the directories, the order of locales and
// catalogues, and the message that stands in for a missing translation.
module GettextLaws {
  import opened Options
  import opened Strings
  import opened TranslationCache
  import PluralEval
  import PluralHeader

  // ---- The locale list ----

  function Colons(n: nat): Str {
    if n == 0 then [] else [COLON] + Colons(n - 1)
  }

  // A list of the elements with any number of colons before, between and behind them.
  function Listed(elements: seq<Str>, gaps: seq<nat>): Str
    requires |gaps| == |elements| + 1
  {
    Colons(gaps[0]) + if elements == [] then [] else elements[0] + Listed(elements[1..], gaps[1..])
  }

  ghost predicate Separated(elements: seq<Str>, gaps: seq<nat>) {
    && |gaps| == |elements| + 1
    && (forall i :: 0 <= i < |elements| ==> elements[i] != [] && COLON !in elements[i])
    && (forall i :: 0 < i < |elements| ==> 0 < gaps[i])
  }

  lemma {:induction false} ColonsSkipped(n: nat, s: Str)
    ensures Split(Colons(n) + s) == Split(s)
  {
    if n == 0 {
      assert Colons(n) + s == s;
    } else {
      assert (Colons(n) + s)[1..] == Colons(n - 1) + s;
      ColonsSkipped(n - 1, s);
    }
  }

  lemma FirstTaken(element: Str, rest: Str)
    requires element != [] && COLON !in element && (rest != [] ==> rest[0] == COLON)
    ensures Split(element + rest) == [element] + Split(rest)
  {
    var s := element + rest;
    assert s[0..|element|] == element && s[|element|..] == rest && s[0..] == s;
    SplitElement(s, 0, |element|);
  }

  // The elements come back whole and in order from every such list.
  lemma {:induction false} SplitListed(elements: seq<Str>, gaps: seq<nat>)
    requires Separated(elements, gaps)
    ensures Split(Listed(elements, gaps)) == elements
  {
    if elements == [] {
      ColonsSkipped(gaps[0], []);
    } else {
      var rest := Listed(elements[1..], gaps[1..]);
      if elements[1..] == [] && gaps[1] == 0 {
        assert rest == [];
      } else {
        assert gaps[1..][0] == gaps[1] > 0;
      }
      SplitListed(elements[1..], gaps[1..]);
      ColonsSkipped(gaps[0], elements[0] + rest);
      FirstTaken(elements[0], rest);
    }
  }

  // Every string is such a list.
  lemma {:induction false} EveryListed(s: Str) returns (gaps: seq<nat>)
    ensures Separated(Split(s), gaps) && Listed(Split(s), gaps) == s
    decreases |s|
  {
    if s == [] {
      gaps := [0];
    } else if s[0] == COLON {
      gaps := EveryListed(s[1..]);
      hide Listed, Separated;
      MoreColons(Split(s[1..]), gaps);
      gaps := gaps[0 := gaps[0] + 1];
      assert s == [COLON] + s[1..];
    } else {
      var n := Element(s);
      gaps := EveryListed(s[n..]);
      hide Listed, Separated;
      OneMore(s[..n], Split(s[n..]), gaps);
      gaps := [0] + gaps;
      assert s == s[..n] + s[n..];
    }
  }

  lemma MoreColons(elements: seq<Str>, gaps: seq<nat>)
    requires Separated(elements, gaps)
    ensures gaps != []
    ensures var more := gaps[0 := gaps[0] + 1];
      Separated(elements, more) && Listed(elements, more) == [COLON] + Listed(elements, gaps)
  {
    assert gaps[0 := gaps[0] + 1][1..] == gaps[1..];
  }

  lemma OneMore(element: Str, elements: seq<Str>, gaps: seq<nat>)
    requires element != [] && COLON !in element && Separated(elements, gaps)
    requires Listed(elements, gaps) == [] || Listed(elements, gaps)[0] == COLON
    ensures Separated([element] + elements, [0] + gaps)
    ensures Listed([element] + elements, [0] + gaps) == element + Listed(elements, gaps)
  {
    assert ([element] + elements)[1..] == elements && ([0] + gaps)[1..] == gaps;
    if elements != [] && gaps[0] == 0 {
      NoColonFirst(elements, gaps);
    }
  }

  lemma NoColonFirst(elements: seq<Str>, gaps: seq<nat>)
    requires Separated(elements, gaps) && elements != [] && gaps[0] == 0
    ensures Listed(elements, gaps) != [] && Listed(elements, gaps)[0] != COLON
  {
    assert Listed(elements, gaps)[0] == elements[0][0];
    assert elements[0][0] in elements[0];
  }

  // ---- What is found ----

  // The k-th locale of the list is asked: no "C" or "POSIX" up to it, and no path for a privileged process.
  ghost predicate Asked(locales: seq<Str>, secure: bool, k: nat) {
    && k < |locales|
    && !(secure && SLASH in locales[k])
    && (forall j: nat :: j <= k ==> locales[j] != C_LOCALE && locales[j] != POSIX_LOCALE)
  }

  // Catalogue i is the first of the list with a message for msgid, and f names it and the message.
  ghost predicate FirstAt(env: Env, domains: seq<Domain>, codeset: Option<Str>, msgid: Str, i: nat, f: Found) {
    && i < |domains| && domains[i] == f.domain && env.message(f.domain, codeset, msgid) == Some(f.translation)
    && (forall j: nat :: j < i ==> env.message(domains[j], codeset, msgid).None?)
  }

  ghost predicate Shows(env: Env, dir: Str, codeset: Option<Str>, key: Key, locale: Str, f: Found) {
    var domains := env.file(dir, locale, key.category, key.domainname);
    domains.Some? && exists i: nat :: FirstAt(env, domains.value, codeset, key.msgid, i, f)
  }

  // No catalogue of the locale has a message.
  ghost predicate Silent(env: Env, dir: Str, codeset: Option<Str>, key: Key, locale: Str) {
    var domains := env.file(dir, locale, key.category, key.domainname);
    domains.None? || forall i: nat :: i < |domains.value| ==> env.message(domains.value[i], codeset, key.msgid).None?
  }

  lemma {:induction false} FirstMessageIs(env: Env, domains: seq<Domain>, codeset: Option<Str>, msgid: Str)
    returns (i: nat)
    ensures var f := FirstMessage(env, domains, codeset, msgid);
      && (f.None? ==> forall j: nat :: j < |domains| ==> env.message(domains[j], codeset, msgid).None?)
      && (f.Some? ==> FirstAt(env, domains, codeset, msgid, i, f.value))
  {
    i := 0;
    if domains != [] && env.message(domains[0], codeset, msgid).None? {
      var r := FirstMessageIs(env, domains[1..], codeset, msgid);
      assert forall j: nat :: 0 < j < |domains| ==> domains[j] == domains[1..][j - 1];
      i := r + 1;
    }
  }

  lemma InLocaleIs(env: Env, dir: Str, codeset: Option<Str>, key: Key, locale: Str)
    ensures var f := InLocale(env, dir, codeset, key, locale);
      && (f.None? ==> Silent(env, dir, codeset, key, locale))
      && (f.Some? ==> Shows(env, dir, codeset, key, locale, f.value))
  {
    var domains := env.file(dir, locale, key.category, key.domainname);
    if domains.Some? {
      var i := FirstMessageIs(env, domains.value, codeset, key.msgid);
    }
  }

  // f comes from the k-th locale, the first one asked that has a message.
  ghost predicate FoundAt(env: Env, dir: Str, codeset: Option<Str>, key: Key, locales: seq<Str>, k: nat, f: Found) {
    && Asked(locales, env.secure, k)
    && Shows(env, dir, codeset, key, locales[k], f)
    && (forall j: nat :: j < k && Asked(locales, env.secure, j) ==> Silent(env, dir, codeset, key, locales[j]))
  }

  ghost predicate NowhereFound(env: Env, dir: Str, codeset: Option<Str>, key: Key, locales: seq<Str>) {
    forall k: nat :: Asked(locales, env.secure, k) ==> Silent(env, dir, codeset, key, locales[k])
  }

  lemma AskedRest(locales: seq<Str>, secure: bool)
    requires locales != [] && locales[0] != C_LOCALE && locales[0] != POSIX_LOCALE
    ensures forall k: nat :: k > 0 ==> (Asked(locales, secure, k) <==> Asked(locales[1..], secure, k - 1))
    ensures Asked(locales, secure, 0) <==> !(secure && HasDir(locales[0]))
  {
    forall k: nat | k > 0 ensures Asked(locales, secure, k) <==> Asked(locales[1..], secure, k - 1) {
      if k < |locales| {
        assert locales[1..][k - 1] == locales[k];
        assert forall j: nat :: j <= k - 1 ==> locales[1..][j] == locales[j + 1];
        assert forall j: nat :: 0 < j <= k ==> locales[j] == locales[1..][j - 1];
      }
    }
  }

  lemma NoneAsked(locales: seq<Str>, secure: bool)
    requires locales == [] || locales[0] == C_LOCALE || locales[0] == POSIX_LOCALE
    ensures forall k: nat :: !Asked(locales, secure, k)
    ensures Tried(locales, secure) == []
  {
    assert SLASH !in C_LOCALE && SLASH !in POSIX_LOCALE;
  }

  lemma TriedRest(env: Env, dir: Str, codeset: Option<Str>, key: Key, locales: seq<Str>)
    requires locales != [] && locales[0] != C_LOCALE && locales[0] != POSIX_LOCALE
    ensures var here := InLocale(env, dir, codeset, key, locales[0]);
      FirstLocale(env, dir, codeset, key, Tried(locales, env.secure)) ==
        if !(env.secure && HasDir(locales[0])) && here.Some? then here
        else FirstLocale(env, dir, codeset, key, Tried(locales[1..], env.secure))
  {
    TriedStep(locales, env.secure);
    hide InLocale, Tried;
    FirstLocaleStep(env, dir, codeset, key, locales[0], Tried(locales[1..], env.secure));
  }

  lemma {:induction false} FirstLocaleIs(env: Env, dir: Str, codeset: Option<Str>, key: Key, locales: seq<Str>)
    returns (k: nat)
    ensures var f := FirstLocale(env, dir, codeset, key, Tried(locales, env.secure));
      && (f.None? ==> NowhereFound(env, dir, codeset, key, locales))
      && (f.Some? ==> FoundAt(env, dir, codeset, key, locales, k, f.value))
  {
    hide InLocale, Silent, Shows, Tried, Asked;
    k := 0;
    if locales == [] || locales[0] == C_LOCALE || locales[0] == POSIX_LOCALE {
      NoneAsked(locales, env.secure);
      return;
    }
    hide FirstLocale;
    TriedRest(env, dir, codeset, key, locales);
    AskedRest(locales, env.secure);
    InLocaleIs(env, dir, codeset, key, locales[0]);
    if (env.secure && HasDir(locales[0])) || InLocale(env, dir, codeset, key, locales[0]).None? {
      var r := FirstLocaleIs(env, dir, codeset, key, locales[1..]);
      Extended(env, dir, codeset, key, locales, r);
      k := r + 1;
    }
  }

  lemma Extended(env: Env, dir: Str, codeset: Option<Str>, key: Key, locales: seq<Str>, r: nat)
    requires locales != [] && locales[0] != C_LOCALE && locales[0] != POSIX_LOCALE
    requires Asked(locales, env.secure, 0) ==> Silent(env, dir, codeset, key, locales[0])
    ensures NowhereFound(env, dir, codeset, key, locales[1..]) ==> NowhereFound(env, dir, codeset, key, locales)
    ensures forall f :: FoundAt(env, dir, codeset, key, locales[1..], r, f) ==>
      FoundAt(env, dir, codeset, key, locales, r + 1, f)
  {
    AskedRest(locales, env.secure);
    AskedInside(locales, env.secure);
    AskedInside(locales[1..], env.secure);
    var rest := locales[1..];
    assert forall j: nat :: 0 < j < |locales| ==> locales[j] == rest[j - 1];
    hide Silent, Shows, Asked;
    if NowhereFound(env, dir, codeset, key, rest) {
      forall k: nat | Asked(locales, env.secure, k) ensures Silent(env, dir, codeset, key, locales[k]) {
        if k > 0 {
          assert Asked(rest, env.secure, k - 1);
        }
      }
    }
    forall f | FoundAt(env, dir, codeset, key, rest, r, f) ensures FoundAt(env, dir, codeset, key, locales, r + 1, f) {
      forall k: nat | k < r + 1 && Asked(locales, env.secure, k) ensures Silent(env, dir, codeset, key, locales[k]) {
        if k > 0 {
          assert Asked(rest, env.secure, k - 1);
        }
      }
    }
  }

  lemma AskedInside(locales: seq<Str>, secure: bool)
    ensures forall k: nat :: Asked(locales, secure, k) ==> k < |locales|
  {}

  lemma ShowsOne(env: Env, dir: Str, codeset: Option<Str>, key: Key, locale: Str, f: Found)
    requires Shows(env, dir, codeset, key, locale, f)
    ensures !Silent(env, dir, codeset, key, locale)
    ensures forall g :: Shows(env, dir, codeset, key, locale, g) ==> g == f
  {
    var domains := env.file(dir, locale, key.category, key.domainname).value;
    var i: nat :| FirstAt(env, domains, codeset, key.msgid, i, f);
    forall g | Shows(env, dir, codeset, key, locale, g) ensures g == f {
      var j: nat :| FirstAt(env, domains, codeset, key.msgid, j, g);
      assert i == j;
    }
  }

  lemma FoundOnce(
    env: Env, dir: Str, codeset: Option<Str>, key: Key, locales: seq<Str>, k: nat, f: Found, j: nat, g: Found)
    requires FoundAt(env, dir, codeset, key, locales, k, f)
    ensures !NowhereFound(env, dir, codeset, key, locales)
    ensures FoundAt(env, dir, codeset, key, locales, j, g) ==> f == g
  {
    ShowsOne(env, dir, codeset, key, locales[k], f);
    if FoundAt(env, dir, codeset, key, locales, j, g) {
      ShowsOne(env, dir, codeset, key, locales[j], g);
      assert j == k;
    }
  }

  lemma FoundIff(env: Env, dir: Str, codeset: Option<Str>, key: Key, locales: seq<Str>, f: Found)
    ensures FirstLocale(env, dir, codeset, key, Tried(locales, env.secure)) == Some(f) <==>
      exists k: nat :: FoundAt(env, dir, codeset, key, locales, k, f)
  {
    var k := FirstLocaleIs(env, dir, codeset, key, locales);
    var r := FirstLocale(env, dir, codeset, key, Tried(locales, env.secure));
    hide FirstLocale, Tried, FoundAt, NowhereFound;
    forall j: nat | FoundAt(env, dir, codeset, key, locales, j, f) ensures r == Some(f) {
      FoundOnce(env, dir, codeset, key, locales, j, f, k, if r.Some? then r.value else f);
    }
  }

  // The directory of a binding's catalogues: as it is when absolute, below the working directory when not.
  ghost predicate Below(env: Env, b: Option<Binding>, dir: Str) {
    if b.None? then dir == env.defaultDirname
    else if [SLASH] <= b.value.dirname then dir == b.value.dirname
    else env.cwd.Some? && dir == env.cwd.value + [SLASH] + b.value.dirname
  }

  ghost predicate CodesetOf(b: Option<Binding>, codeset: Option<Str>) {
    if b.None? then codeset.None? else codeset == b.value.codeset
  }

  lemma DirectoryIs(env: Env, b: Option<Binding>, dir: Str)
    ensures Directory(env, b) == Some(dir) <==> Below(env, b, dir)
    ensures Directory(env, b).None? <==> b.Some? && !([SLASH] <= b.value.dirname) && env.cwd.None?
  {
    if b.Some? && b.value.dirname != [] {
      assert [SLASH] <= b.value.dirname <==> b.value.dirname[0] == SLASH;
    }
  }

  // A search finds f exactly when the first locale asked that has a message shows f.
  lemma UncachedIff(env: Env, b: Option<Binding>, key: Key, f: Found)
    ensures Uncached(env, b, key) == Some(f) <==>
      exists dir, codeset, k: nat :: Below(env, b, dir) && CodesetOf(b, codeset) &&
        FoundAt(env, dir, codeset, key, Split(env.value(key.category)), k, f)
  {
    assert forall codeset :: CodesetOf(b, codeset) <==> codeset == Codeset(b);
    forall dir: Str ensures Below(env, b, dir) <==> Directory(env, b) == Some(dir) {
      DirectoryIs(env, b, dir);
    }
    hide *;
    OpenUncached(env, b, key);
    var locales := Split(env.value(key.category));
    if Directory(env, b).Some? {
      var dir := Directory(env, b).value;
      FoundIff(env, dir, Codeset(b), key, locales, f);
      if Uncached(env, b, key) == Some(f) {
        var k: nat :| FoundAt(env, dir, Codeset(b), key, locales, k, f);
        assert Below(env, b, dir) && CodesetOf(b, Codeset(b));
      }
    }
  }

  lemma OpenUncached(env: Env, b: Option<Binding>, key: Key)
    ensures Directory(env, b).None? ==> Uncached(env, b, key) == None
    ensures Directory(env, b).Some? ==>
      var tried := Tried(Split(env.value(key.category)), env.secure);
      Uncached(env, b, key) == FirstLocale(env, Directory(env, b).value, Codeset(b), key, tried)
  {
    hide FirstLocale, Tried, Split, Directory, Codeset;
  }

  // ---- The message that stands in ----

  // Without a translation the caller gets the form of its two that the Germanic rule selects.
  lemma StandIn(env: Env, msgid1: Str, msgid2: Str, n: nat, word: nat)
    requires 9 < word && n < word
    ensures var rule := PluralHeader.GERMANIC;
      var s := PluralEval.Selected(rule.plural, n, rule.nplurals, 2, word);
      s.Value? && Answer(env, None, msgid1, msgid2, true, n) == [msgid1, msgid2][s.v]
    ensures Answer(env, None, msgid1, msgid2, false, n) == msgid1
  {
    PluralHeader.GermanicRule(n, 2, word);
    hide PluralEval.Selected;
  }
}
