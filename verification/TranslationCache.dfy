// The domain bindings, the default domain, the cache of known translations, and the counter that keeps
// them together.
module TranslationCache {
  import opened Options
  import opened Sequences
  import opened Strings

  const C_LOCALE: Str := [67]
  const POSIX_LOCALE: Str := [80, 79, 83, 73, 88]

  // A binding of bindtextdomain and bind_textdomain_codeset; codesetCounter is codeset_cntr.
  datatype Binding = Binding(domainname: Str, dirname: Str, codeset: Option<Str>, codesetCounter: nat)

  // A loaded catalogue, by name.
  type Domain = nat

  datatype Found = Found(domain: Domain, translation: Str)

  // What does not change during a run: the directory of the catalogues, the working directory, whether the
  // process is privileged, the environment's locale lists, the files, and their contents.
  datatype Env = Env(
    defaultDirname: Str,
    defaultDomain: Str,
    cwd: Option<Str>,
    secure: bool,
    value: int -> Str,                                                // category -> locale list
    file: (Str, Str, int, Str) -> Option<seq<Domain>>,                // directory, locale, category, domain name
    message: (Domain, Option<Str>, Str) -> Option<Str>,               // catalogue, codeset, msgid
    plural: (Domain, nat, Str) -> Str)                                // plural_lookup

  datatype Key = Key(msgid: Str, domainname: Str, category: int)
  datatype Known = Known(counter: nat, found: Found)

  // ---- Bindings: a list sorted by domain name ----

  ghost predicate Sorted(bs: seq<Binding>) {
    forall i, j :: 0 <= i < j < |bs| ==> Less(bs[i].domainname, bs[j].domainname)
  }

  // A plain search of the whole list.
  function Lookup(bs: seq<Binding>, name: Str): Option<Binding> {
    if bs == [] then None else if bs[0].domainname == name then Some(bs[0]) else Lookup(bs[1..], name)
  }

  lemma {:induction false} LookupAt(bs: seq<Binding>, name: Str, i: nat)
    requires i < |bs| && bs[i].domainname == name && forall k :: 0 <= k < i ==> bs[k].domainname != name
    ensures Lookup(bs, name) == Some(bs[i])
  {
    if i > 0 {
      LookupAt(bs[1..], name, i - 1);
    }
  }

  lemma {:induction false} LookupNone(bs: seq<Binding>, name: Str)
    requires forall k :: 0 <= k < |bs| ==> bs[k].domainname != name
    ensures Lookup(bs, name) == None
  {
    if bs != [] {
      LookupNone(bs[1..], name);
    }
  }

  lemma Trichotomy(a: Str, b: Str)
    ensures StrCmp(a, b) == 0 <==> a == b
    ensures StrCmp(a, b) > 0 <==> Less(b, a)
  {
    StrCmpZero(a, b);
    StrCmpFlip(b, a);
  }

  // ---- The locale list ----

  // The elements of a colon-separated list; empty ones do not count.
  function Split(s: Str): seq<Str> {
    if s == [] then []
    else if s[0] == COLON then Split(s[1..])
    else
      var n := Element(s);
      [s[..n]] + Split(s[n..])
  }

  // The length of the element at the start of s.
  function Element(s: Str): (n: nat)
    ensures n <= |s| && (s != [] && s[0] != COLON ==> n > 0)
    ensures COLON !in s[..n] && (n < |s| ==> s[n] == COLON)
  {
    if s == [] || s[0] == COLON then 0 else
      var n := 1 + Element(s[1..]);
      assert s[..n] == [s[0]] + s[1..][..n - 1];
      n
  }

  predicate HasDir(s: Str) {
    SLASH in s
  }

  // The locales that are tried: those before "C" or "POSIX", without paths for a privileged process.
  function Tried(locales: seq<Str>, secure: bool): seq<Str> {
    if locales == [] then []
    else if secure && HasDir(locales[0]) then Tried(locales[1..], secure)
    else if locales[0] == C_LOCALE || locales[0] == POSIX_LOCALE then []
    else [locales[0]] + Tried(locales[1..], secure)
  }

  // The first catalogue of the list with a message for msgid.
  function FirstMessage(env: Env, domains: seq<Domain>, codeset: Option<Str>, msgid: Str): Option<Found> {
    if domains == [] then None
    else
      match env.message(domains[0], codeset, msgid)
      case Some(t) => Some(Found(domains[0], t))
      case None => FirstMessage(env, domains[1..], codeset, msgid)
  }

  function InLocale(env: Env, dirname: Str, codeset: Option<Str>, key: Key, locale: Str): Option<Found> {
    match env.file(dirname, locale, key.category, key.domainname)
    case None => None
    case Some(domains) => FirstMessage(env, domains, codeset, key.msgid)
  }

  function FirstLocale(env: Env, dirname: Str, codeset: Option<Str>, key: Key, locales: seq<Str>): Option<Found> {
    if locales == [] then None
    else
      match InLocale(env, dirname, codeset, key, locales[0])
      case Some(f) => Some(f)
      case None => FirstLocale(env, dirname, codeset, key, locales[1..])
  }

  // The directory of a domain's catalogues; none when it is relative and there is no working directory.
  function Directory(env: Env, b: Option<Binding>): Option<Str> {
    if b.None? then Some(env.defaultDirname)
    else if b.value.dirname != [] && b.value.dirname[0] == SLASH then Some(b.value.dirname)
    else if env.cwd.None? then None
    else Some(env.cwd.value + [SLASH] + b.value.dirname)
  }

  function Codeset(b: Option<Binding>): Option<Str> {
    if b.Some? then b.value.codeset else None
  }

  // What a search without the cache finds, when b is the domain's binding.
  function Uncached(env: Env, b: Option<Binding>, key: Key): Option<Found> {
    var dir := Directory(env, b);
    if dir.None? then None
    else FirstLocale(env, dir.value, Codeset(b), key, Tried(Split(env.value(key.category)), env.secure))
  }

  // What gettext returns for a search result.
  function Answer(env: Env, f: Option<Found>, msgid1: Str, msgid2: Str, plural: bool, n: nat): Str {
    match f
    case Some(found) => if plural then env.plural(found.domain, n, found.translation) else found.translation
    case None => if !plural || n == 1 then msgid1 else msgid2
  }

  // A translation or its variant; without one msgid2 exactly for a plural of other than one.
  lemma AnswerIs(env: Env, f: Option<Found>, msgid1: Str, msgid2: Str, plural: bool, n: nat)
    ensures var r := Answer(env, f, msgid1, msgid2, plural, n);
      && (f.None? && (plural ==> n == 1) ==> r == msgid1)
      && (f.None? && plural && n != 1 ==> r == msgid2)
      && (f.Some? && !plural ==> r == f.value.translation)
      && (f.Some? && plural ==> r == env.plural(f.value.domain, n, f.value.translation))
  {}

  // The binding of a domain after set_binding_values; None stands for a null pointer, and for a pointer to
  // a null string that only asks.
  function Rebound(
    env: Env, b: Option<Binding>, name: Str, dir: Option<Option<Str>>, code: Option<Option<Str>>): Option<Binding>
  {
    var newDir := if dir.Some? then dir.value else None;
    var newCode := if code.Some? then code.value else None;
    if b.Some? then
      var x := if newDir.Some? then b.value.(dirname := newDir.value) else b.value;
      Some(if newCode.Some? && x.codeset != newCode then x.(codeset := newCode, codesetCounter := x.codesetCounter + 1)
           else x)
    else if newDir.None? && newCode.None? then None
    else Some(Binding(name, if newDir.Some? then newDir.value else env.defaultDirname, newCode,
                      if newCode.Some? then 1 else 0))
  }

  // A value is set, as opposed to left out or asked for.
  predicate Given(x: Option<Option<Str>>) { x.Some? && x.value.Some? }

  // What a rebinding replaces, adds and keeps.
  lemma ReboundFields(
    env: Env, was: Option<Binding>, name: Str, dir: Option<Option<Str>>, code: Option<Option<Str>>)
    requires was.Some? ==> was.value.domainname == name
    ensures var b := Rebound(env, was, name, dir, code);
      && (b.None? <==> was.None? && !Given(dir) && !Given(code))
      && (b.Some? ==> b.value.domainname == name)
      && (b.Some? && Given(dir) ==> Some(b.value.dirname) == dir.value)
      && (b.Some? && !Given(dir) ==> b.value.dirname == if was.Some? then was.value.dirname else env.defaultDirname)
      && (b.Some? && Given(code) ==> b.value.codeset == code.value)
      && (b.Some? && !Given(code) ==> b.value.codeset == if was.Some? then was.value.codeset else None)
    ensures var b := Rebound(env, was, name, dir, code);
      var before := if was.Some? then was.value.codesetCounter else 0;
      var changed := Given(code) && (was.None? || code.value != was.value.codeset);
      b.Some? ==> b.value.codesetCounter == before + if changed then 1 else 0
  {}

  lemma {:induction false} LookupName(bs: seq<Binding>, name: Str)
    ensures Lookup(bs, name).Some? ==> Lookup(bs, name).value.domainname == name
  {
    if bs != [] {
      LookupName(bs[1..], name);
    }
  }

  // ---- Facts about the loops ----

  lemma {:induction false} ElementIs(s: Str, n: nat)
    requires n <= |s| && COLON !in s[..n] && (n < |s| ==> s[n] == COLON)
    ensures Element(s) == n
  {
    if n > 0 {
      assert s[0] in s[..n];
      assert s[1..][..n - 1] == s[..n][1..];
      ElementIs(s[1..], n - 1);
    }
  }

  lemma SplitElement(s: Str, i: nat, j: nat)
    requires i < j <= |s| && COLON !in s[i..j] && (j < |s| ==> s[j] == COLON)
    ensures Split(s[i..]) == [s[i..j]] + Split(s[j..])
  {
    var t := s[i..];
    assert t[..j - i] == s[i..j] && t[j - i..] == s[j..];
    assert t[0] == s[i..j][0];
    ElementIs(t, j - i);
  }

  lemma SplitColon(s: Str, i: nat)
    requires i < |s| && s[i] == COLON
    ensures Split(s[i..]) == Split(s[i + 1..])
  {
    assert s[i..][1..] == s[i + 1..];
  }

  lemma {:induction false} FirstMessageAt(env: Env, domains: seq<Domain>, codeset: Option<Str>, msgid: Str, i: nat)
    requires i <= |domains| && forall k :: 0 <= k < i ==> env.message(domains[k], codeset, msgid).None?
    ensures FirstMessage(env, domains, codeset, msgid) == FirstMessage(env, domains[i..], codeset, msgid)
  {
    if i > 0 {
      FirstMessageAt(env, domains[1..], codeset, msgid, i - 1);
      assert domains[1..][i - 1..] == domains[i..];
    } else {
      assert domains[0..] == domains;
    }
  }

  lemma TriedStep(locales: seq<Str>, secure: bool)
    requires locales != []
    ensures secure && HasDir(locales[0]) ==> Tried(locales, secure) == Tried(locales[1..], secure)
    ensures !(secure && HasDir(locales[0])) && locales[0] != C_LOCALE && locales[0] != POSIX_LOCALE ==>
      Tried(locales, secure) == [locales[0]] + Tried(locales[1..], secure)
    ensures !(secure && HasDir(locales[0])) && (locales[0] == C_LOCALE || locales[0] == POSIX_LOCALE) ==>
      Tried(locales, secure) == []
  {}

  lemma FirstLocaleStep(env: Env, dirname: Str, codeset: Option<Str>, key: Key, locale: Str, rest: seq<Str>)
    ensures FirstLocale(env, dirname, codeset, key, [locale] + rest) ==
      if InLocale(env, dirname, codeset, key, locale).Some? then InLocale(env, dirname, codeset, key, locale)
      else FirstLocale(env, dirname, codeset, key, rest)
  {
    assert ([locale] + rest)[1..] == rest;
  }

  // ---- Insertion ----

  lemma InsertedSorted(bs: seq<Binding>, i: nat, b: Binding)
    requires Sorted(bs) && i <= |bs|
    requires forall k :: 0 <= k < i ==> Less(bs[k].domainname, b.domainname)
    requires forall k :: i <= k < |bs| ==> Less(b.domainname, bs[k].domainname)
    ensures Sorted(Inserted(bs, i, b))
  {
    hide Less;
    var s := Inserted(bs, i, b);
    forall j, k | 0 <= j < k < |s| ensures Less(s[j].domainname, s[k].domainname) {
    }
  }

  lemma {:induction false} InsertedLookup(bs: seq<Binding>, i: nat, b: Binding, name: Str)
    requires i <= |bs| && forall k :: 0 <= k < |bs| ==> bs[k].domainname != b.domainname
    ensures Lookup(Inserted(bs, i, b), name) == if name == b.domainname then Some(b) else Lookup(bs, name)
  {
    var s := Inserted(bs, i, b);
    if i == 0 {
      assert s[1..] == bs;
    } else {
      InsertedLookup(bs[1..], i - 1, b, name);
      assert s[1..] == Inserted(bs[1..], i - 1, b);
      if name == b.domainname {
        assert bs[0].domainname != name;
      }
    }
  }

  lemma {:induction false} ReplacedLookup(bs: seq<Binding>, i: nat, b: Binding, name: Str)
    requires i < |bs| && b.domainname == bs[i].domainname
    requires forall k :: 0 <= k < i ==> bs[k].domainname != b.domainname
    ensures Lookup(bs[i := b], name) == if name == b.domainname then Some(b) else Lookup(bs, name)
  {
    if i > 0 {
      ReplacedLookup(bs[1..], i - 1, b, name);
      assert bs[i := b][1..] == bs[1..][i - 1 := b];
      if name == b.domainname {
        assert bs[0].domainname != name;
      }
    } else {
      assert bs[0 := b][1..] == bs[1..];
    }
  }
}
