// bindtextdomain, textdomain and dcigettext on their shared state.
module Gettext {
  import opened Options
  import opened Sequences
  import opened Strings
  import opened TranslationCache

  // ---- The reference: the same interface without list, cache or counter ----

  datatype Plain = Plain(bound: map<Str, Binding>, current: Str)

  datatype Op =
    | Bind(domainname: Option<Str>, dir: Option<Option<Str>>, code: Option<Option<Str>>)
    | TextDomain(domainname: Option<Str>)
    | Get(domainname: Option<Str>, msgid1: Str, msgid2: Str, plural: bool, n: nat, category: int)

  function BindingOf(s: Plain, name: Str): Option<Binding> {
    if name in s.bound then Some(s.bound[name]) else None
  }

  function PlainBind(env: Env, s: Plain, name: Str, dir: Option<Option<Str>>, code: Option<Option<Str>>): Plain {
    var b := Rebound(env, BindingOf(s, name), name, dir, code);
    if b.Some? then s.(bound := s.bound[name := b.value]) else s
  }

  function NewDefault(env: Env, name: Str): Str {
    if name == [] then env.defaultDomain else name
  }

  function PlainStep(env: Env, s: Plain, op: Op): Plain {
    match op
    case Bind(name, dir, code) => if name.None? || name.value == [] then s else PlainBind(env, s, name.value, dir, code)
    case TextDomain(name) => if name.None? then s else s.(current := NewDefault(env, name.value))
    case Get(_, _, _, _, _, _) => s
  }

  function PlainGet(env: Env, s: Plain, op: Op): Str
    requires op.Get?
  {
    var name := if op.domainname.Some? then op.domainname.value else s.current;
    var found := Uncached(env, BindingOf(s, name), Key(op.msgid1, name, op.category));
    Answer(env, found, op.msgid1, op.msgid2, op.plural, op.n)
  }

  // The answers of all the Get operations of a run, in order.
  function PlainRun(env: Env, s: Plain, ops: seq<Op>): seq<Str>
    decreases |ops|
  {
    if ops == [] then []
    else (if ops[0].Get? then [PlainGet(env, s, ops[0])] else []) + PlainRun(env, PlainStep(env, s, ops[0]), ops[1..])
  }

  // ---- The cache ----

  // Entries never come from the future, and those of the present are what a search would find now.
  ghost predicate Coherent(env: Env, bs: seq<Binding>, counter: nat, known: map<Key, Known>) {
    forall k :: k in known ==>
      known[k].counter <= counter &&
      (known[k].counter == counter ==> Uncached(env, Lookup(bs, k.domainname), k) == Some(known[k].found))
  }

  lemma Flushed(env: Env, bs: seq<Binding>, bs': seq<Binding>, counter: nat, known: map<Key, Known>)
    requires Coherent(env, bs, counter, known)
    ensures Coherent(env, bs', counter + 1, known)
  {}

  lemma Remembered(env: Env, bs: seq<Binding>, counter: nat, known: map<Key, Known>, key: Key, found: Found)
    requires Coherent(env, bs, counter, known) && Uncached(env, Lookup(bs, key.domainname), key) == Some(found)
    ensures Coherent(env, bs, counter, known[key := Known(counter, found)])
  {
    hide Uncached;
  }

  // The two sides show the same bindings.
  ghost predicate Agree(bs: seq<Binding>, bound: map<Str, Binding>) {
    forall name :: Lookup(bs, name) == if name in bound then Some(bound[name]) else None
  }

  // Only the binding of one domain is different.
  ghost predicate Rebinds(bs: seq<Binding>, bs': seq<Binding>, name: Str, b: Option<Binding>) {
    forall other :: Lookup(bs', other) == if other == name then b else Lookup(bs, other)
  }

  lemma ReplacedRebinds(bs: seq<Binding>, i: nat, b: Binding)
    requires i < |bs| && b.domainname == bs[i].domainname
    requires forall k :: 0 <= k < i ==> bs[k].domainname != b.domainname
    ensures Rebinds(bs, bs[i := b], b.domainname, Some(b))
  {
    var bs' := bs[i := b];
    forall other: Str ensures Lookup(bs', other) == if other == b.domainname then Some(b) else Lookup(bs, other) {
      ReplacedLookup(bs, i, b, other);
    }
  }

  lemma InsertedRebinds(bs: seq<Binding>, i: nat, b: Binding)
    requires i <= |bs| && forall k :: 0 <= k < |bs| ==> bs[k].domainname != b.domainname
    ensures Rebinds(bs, Inserted(bs, i, b), b.domainname, Some(b))
  {
    forall other
      ensures Lookup(Inserted(bs, i, b), other) == if other == b.domainname then Some(b) else Lookup(bs, other)
    {
      InsertedLookup(bs, i, b, other);
    }
  }

  lemma NothingRebinds(bs: seq<Binding>, name: Str)
    ensures Rebinds(bs, bs, name, Lookup(bs, name))
  {}

  lemma AgreeAfter(bs: seq<Binding>, bs': seq<Binding>, bound: map<Str, Binding>, name: Str, b: Option<Binding>)
    requires Agree(bs, bound) && Rebinds(bs, bs', name, b) && (b.None? ==> name !in bound)
    ensures Agree(bs', if b.Some? then bound[name := b.value] else bound)
  {}

  class State {
    const env: Env
    var bindings: seq<Binding>
    var counter: nat                 // _nl_msg_cat_cntr
    var current: Str                 // _nl_current_default_domain
    var known: map<Key, Known>

    ghost predicate Valid()
      reads this
    {
      Sorted(bindings) && Coherent(env, bindings, counter, known)
    }

    constructor (env: Env)
      ensures Valid() && this.env == env && bindings == [] && current == env.defaultDomain && known == map[]
    {
      this.env := env;
      bindings, counter, current, known := [], 0, env.defaultDomain, map[];
    }

    // The loop with its early exit finds what a search of the whole list finds.
    method FindBinding(name: Str) returns (at: Option<nat>)
      requires Sorted(bindings)
      ensures at.Some? ==> at.value < |bindings| && bindings[at.value].domainname == name
      ensures at.Some? ==> Lookup(bindings, name) == Some(bindings[at.value])
      ensures at.Some? ==> forall k :: 0 <= k < at.value ==> bindings[k].domainname != name
      ensures at.None? ==>
        Lookup(bindings, name) == None && forall k :: 0 <= k < |bindings| ==> bindings[k].domainname != name
    {
      var i := 0;
      while i < |bindings|
        invariant 0 <= i <= |bindings|
        invariant forall k :: 0 <= k < i ==> bindings[k].domainname != name
      {
        var compare := StrCmp(name, bindings[i].domainname);
        Trichotomy(name, bindings[i].domainname);
        if compare == 0 {
          LookupAt(bindings, name, i);
          return Some(i);
        }
        if compare < 0 {
          NotLater(bindings, name, i);
          LookupNone(bindings, name);
          return None;
        }
        i := i + 1;
      }
      LookupNone(bindings, name);
      at := None;
    }

    lemma NotLater(bs: seq<Binding>, name: Str, i: nat)
      requires Sorted(bs) && i < |bs| && Less(name, bs[i].domainname)
      requires forall k :: 0 <= k < i ==> bs[k].domainname != name
      ensures forall k :: 0 <= k < |bs| ==> bs[k].domainname != name
    {
      forall k | i <= k < |bs| ensures bs[k].domainname != name {
        if k > i {
          LessTrans(name, bs[i].domainname, bs[k].domainname);
        }
        LessDistinct(name, bs[k].domainname);
      }
    }

    // The position at which set_binding_values enqueues a new binding.
    method InsertPosition(name: Str) returns (i: nat)
      requires Sorted(bindings) && forall k :: 0 <= k < |bindings| ==> bindings[k].domainname != name
      ensures i <= |bindings|
      ensures forall k :: 0 <= k < i ==> Less(bindings[k].domainname, name)
      ensures forall k :: i <= k < |bindings| ==> Less(name, bindings[k].domainname)
    {
      if |bindings| == 0 || StrCmp(name, bindings[0].domainname) < 0 {
        AllLater(bindings, name, 0);
        return 0;
      }
      Trichotomy(name, bindings[0].domainname);
      var at := 0;
      while at + 1 < |bindings| && StrCmp(name, bindings[at + 1].domainname) > 0
        invariant 0 <= at < |bindings| && Less(bindings[at].domainname, name)
      {
        Trichotomy(name, bindings[at + 1].domainname);
        at := at + 1;
      }
      i := at + 1;
      AllEarlier(bindings, name, at);
      if i < |bindings| {
        Trichotomy(name, bindings[i].domainname);
        AllLater(bindings, name, i);
      }
    }

    lemma AllLater(bs: seq<Binding>, name: Str, i: nat)
      requires Sorted(bs) && (i < |bs| ==> Less(name, bs[i].domainname))
      ensures forall k :: i <= k < |bs| ==> Less(name, bs[k].domainname)
    {
      forall k | i < k < |bs| ensures Less(name, bs[k].domainname) {
        LessTrans(name, bs[i].domainname, bs[k].domainname);
      }
    }

    lemma AllEarlier(bs: seq<Binding>, name: Str, i: nat)
      requires Sorted(bs) && i < |bs| && Less(bs[i].domainname, name)
      ensures forall k :: 0 <= k <= i ==> Less(bs[k].domainname, name)
    {
      forall k | 0 <= k < i ensures Less(bs[k].domainname, name) {
        LessTrans(bs[k].domainname, bs[i].domainname, name);
      }
    }

    // set_binding_values. The counter moves exactly when a binding changes.
    method SetBindingValues(domainname: Option<Str>, dir: Option<Option<Str>>, code: Option<Option<Str>>)
      returns (dirname: Option<Str>, codeset: Option<Str>)
      requires Valid()
      modifies this
      ensures Valid() && current == old(current) && known == old(known)
      ensures counter == old(counter) + if bindings != old(bindings) then 1 else 0
      ensures domainname.None? || domainname.value == [] ==>
        bindings == old(bindings) && dirname == None && codeset == None
      ensures domainname.Some? && domainname.value != [] ==>
        var b := Rebound(env, old(Lookup(bindings, domainname.value)), domainname.value, dir, code);
        && Rebinds(old(bindings), bindings, domainname.value, b)
        && dirname == (if dir.None? then None else ReportedDirname(env, b))
        && codeset == (if code.None? then None else Codeset(b))
      ensures domainname.Some? && domainname.value != [] ==>
        var was, b := old(Lookup(bindings, domainname.value)), Lookup(bindings, domainname.value);
        && (b.None? <==> was.None? && !Given(dir) && !Given(code))
        && (b.Some? && Given(dir) ==> Some(b.value.dirname) == dir.value)
        && (b.Some? && !Given(dir) ==> b.value.dirname == if was.Some? then was.value.dirname else env.defaultDirname)
        && (b.Some? && Given(code) ==> b.value.codeset == code.value)
        && (b.Some? && !Given(code) ==> b.value.codeset == if was.Some? then was.value.codeset else None)
      ensures domainname.Some? && domainname.value != [] ==>
        var b := Lookup(bindings, domainname.value);
        && (dir.None? <==> dirname.None?) && (b.Some? && dir.Some? ==> dirname == Some(b.value.dirname))
        && (b.None? && dir.Some? ==> dirname == Some(env.defaultDirname))
        && (codeset.Some? ==> code.Some?) && (b.Some? && code.Some? ==> codeset == b.value.codeset)
    {
      if domainname.None? || domainname.value == [] {
        return None, None;
      }
      var name := domainname.value;
      dirname, codeset := None, None;
      var at := FindBinding(name);
      NothingRebinds(bindings, name);
      LookupName(bindings, name);
      ReboundFields(env, Lookup(bindings, name), name, dir, code);
      hide Coherent, Sorted, Lookup, Rebinds;
      if at.Some? {
        var b := bindings[at.value];
        var modified := false;
        if dir.Some? {
          if dir.value.Some? && dir.value.value != b.dirname {
            b := b.(dirname := dir.value.value);
            modified := true;
          }
          dirname := Some(b.dirname);
        }
        if code.Some? {
          if code.value.Some? && code.value != b.codeset {
            b := b.(codeset := code.value, codesetCounter := b.codesetCounter + 1);
            modified := true;
          }
          codeset := b.codeset;
        }
        if modified {
          Rebind(at.value, b);
        }
      } else if (dir.None? || dir.value.None?) && (code.None? || code.value.None?) {
        if dir.Some? {
          dirname := Some(env.defaultDirname);
        }
      } else {
        var b := Binding(name, env.defaultDirname, None, 0);
        if dir.Some? {
          if dir.value.Some? {
            b := b.(dirname := dir.value.value);
          }
          dirname := Some(b.dirname);
        }
        if code.Some? {
          if code.value.Some? {
            b := b.(codeset := code.value, codesetCounter := 1);
          }
          codeset := b.codeset;
        }
        Enqueue(b);
      }
    }

    // Replacing a field of a binding, and flushing the cache.
    method Rebind(i: nat, b: Binding)
      requires Valid() && i < |bindings| && b.domainname == bindings[i].domainname && b != bindings[i]
      requires forall k :: 0 <= k < i ==> bindings[k].domainname != b.domainname
      modifies `bindings, `counter
      ensures Valid() && counter == old(counter) + 1 && bindings != old(bindings)
      ensures Rebinds(old(bindings), bindings, b.domainname, Some(b))
    {
      ghost var before := bindings;
      ReplacedSorted(bindings, i, b);
      ReplacedRebinds(bindings, i, b);
      Flushed(env, bindings, bindings[i := b], counter, known);
      hide Coherent, Sorted, Rebinds;
      bindings := bindings[i := b];
      assert bindings[i] != before[i];
      counter := counter + 1;
    }

    // Entering a new binding at its place, and flushing the cache.
    method Enqueue(b: Binding)
      requires Valid() && forall k :: 0 <= k < |bindings| ==> bindings[k].domainname != b.domainname
      modifies `bindings, `counter
      ensures Valid() && counter == old(counter) + 1 && bindings != old(bindings)
      ensures Rebinds(old(bindings), bindings, b.domainname, Some(b))
    {
      ghost var before := bindings;
      var i := InsertPosition(b.domainname);
      InsertedSorted(bindings, i, b);
      InsertedRebinds(bindings, i, b);
      Flushed(env, bindings, Inserted(bindings, i, b), counter, known);
      hide Coherent, Sorted, Rebinds;
      bindings := bindings[..i] + [b] + bindings[i..];
      assert bindings == Inserted(before, i, b);
      assert |bindings| != |before|;
      counter := counter + 1;
    }

    lemma ReplacedSorted(bs: seq<Binding>, i: nat, b: Binding)
      requires Sorted(bs) && i < |bs| && b.domainname == bs[i].domainname
      ensures Sorted(bs[i := b])
    {
      hide Less;
    }

    // TEXTDOMAIN: a null name asks; every other call moves the counter.
    method SetTextDomain(domainname: Option<Str>) returns (r: Str)
      requires Valid()
      modifies `current, `counter
      ensures Valid() && r == current
      ensures domainname.None? ==> current == old(current)
      ensures domainname.Some? ==>
        current == if domainname.value == [] then env.defaultDomain else domainname.value
      ensures counter == old(counter) + if domainname.None? then 0 else 1
    {
      if domainname.None? {
        return current;
      }
      Flushed(env, bindings, bindings, counter, known);
      hide Coherent;
      if domainname.value == [] || domainname.value == env.defaultDomain {
        current := env.defaultDomain;
      } else if domainname.value != current {
        current := domainname.value;
      }
      counter := counter + 1;
      r := current;
    }

    // The loop over the locale list: it ends, with the first locale that has a translation before "C" or
    // "POSIX", or with none.
    method FindTranslation(dirname: Str, codeset: Option<Str>, key: Key) returns (r: Option<Found>)
      ensures r == FirstLocale(env, dirname, codeset, key, Tried(Split(env.value(key.category)), env.secure))
    {
      var value := env.value(key.category);
      var i := 0;
      ghost var goal := FirstLocale(env, dirname, codeset, key, Tried(Split(value), env.secure));
      assert value[0..] == value;
      while true
        invariant 0 <= i <= |value|
        invariant FirstLocale(env, dirname, codeset, key, Tried(Split(value[i..]), env.secure)) == goal
        decreases |value| - i
      {
        i := SkipColons(value, i);
        if i == |value| {
          return None;
        }
        var j := ElementEnd(value, i);
        var single := value[i..j];
        SplitElement(value, i, j);
        ghost var rest := Split(value[j..]);
        hide Split, FirstLocale, InLocale, Tried;
        assert ([single] + rest)[1..] == rest;
        TriedStep([single] + rest, env.secure);
        i := j;
        if env.secure && HasDir(single) {
          continue;
        }
        if single == C_LOCALE || single == POSIX_LOCALE {
          NothingTried(env, dirname, codeset, key);
          return None;
        }
        r := SearchLocale(dirname, codeset, key, single);
        FirstLocaleStep(env, dirname, codeset, key, single, Tried(rest, env.secure));
        if r.Some? {
          return;
        }
      }
    }

    lemma NothingTried(env: Env, dirname: Str, codeset: Option<Str>, key: Key)
      ensures FirstLocale(env, dirname, codeset, key, []) == None
    {}

    method SkipColons(value: Str, from: nat) returns (i: nat)
      requires from <= |value|
      ensures from <= i <= |value| && (i < |value| ==> value[i] != COLON)
      ensures Split(value[i..]) == Split(value[from..])
      ensures i == |value| ==> Split(value[from..]) == []
    {
      i := from;
      while i < |value| && value[i] == COLON
        invariant from <= i <= |value| && Split(value[i..]) == Split(value[from..])
      {
        SplitColon(value, i);
        i := i + 1;
      }
    }

    method ElementEnd(value: Str, from: nat) returns (j: nat)
      requires from < |value| && value[from] != COLON
      ensures from < j <= |value| && COLON !in value[from..j] && (j < |value| ==> value[j] == COLON)
    {
      j := from + 1;
      while j < |value| && value[j] != COLON
        invariant from < j <= |value| && COLON !in value[from..j]
      {
        assert value[from..j + 1] == value[from..j] + [value[j]];
        j := j + 1;
      }
    }

    // One locale: the catalogue itself, then its successors.
    method SearchLocale(dirname: Str, codeset: Option<Str>, key: Key, locale: Str) returns (r: Option<Found>)
      ensures r == InLocale(env, dirname, codeset, key, locale)
    {
      var domains := env.file(dirname, locale, key.category, key.domainname);
      if domains.None? {
        return None;
      }
      var cnt := 0;
      while cnt < |domains.value|
        invariant 0 <= cnt <= |domains.value|
        invariant forall k :: 0 <= k < cnt ==> env.message(domains.value[k], codeset, key.msgid).None?
      {
        var translation := env.message(domains.value[cnt], codeset, key.msgid);
        FirstMessageAt(env, domains.value, codeset, key.msgid, cnt);
        if translation.Some? {
          return Some(Found(domains.value[cnt], translation.value));
        }
        cnt := cnt + 1;
      }
      FirstMessageAt(env, domains.value, codeset, key.msgid, cnt);
      r := None;
    }

    // DCIGETTEXT: with or without a hit, the answer is what the search would give now.
    method DcGettext(domainname: Option<Str>, msgid1: Str, msgid2: Str, plural: bool, n: nat, category: int)
      returns (r: Str)
      requires Valid()
      modifies `known
      ensures Valid()
      ensures var name := if domainname.Some? then domainname.value else current;
        var f := Uncached(env, Lookup(bindings, name), Key(msgid1, name, category));
        && r == Answer(env, f, msgid1, msgid2, plural, n)
        && (f.None? && (plural ==> n == 1) ==> r == msgid1)
        && (f.None? && plural && n != 1 ==> r == msgid2)
        && (f.Some? && !plural ==> r == f.value.translation)
        && (f.Some? && plural ==> r == env.plural(f.value.domain, n, f.value.translation))
    {
      var name := if domainname.Some? then domainname.value else current;
      var key := Key(msgid1, name, category);
      hide Uncached, Lookup, Answer;
      AnswerIs(env, Uncached(env, Lookup(bindings, name), key), msgid1, msgid2, plural, n);
      if key in known && known[key].counter == counter {
        var found := known[key].found;
        return if plural then env.plural(found.domain, n, found.translation) else found.translation;
      }
      var found := SearchDomain(name, key);
      if found.None? {
        return if !plural then msgid1 else if n == 1 then msgid1 else msgid2;
      }
      Remembered(env, bindings, counter, known, key, found.value);
      hide Coherent;
      known := known[key := Known(counter, found.value)];
      r := if plural then env.plural(found.value.domain, n, found.value.translation) else found.value.translation;
    }

    // The directory of the domain's binding, then the locale list; nothing is found when the directory is
    // relative and there is no working directory.
    method SearchDomain(name: Str, key: Key) returns (found: Option<Found>)
      requires Valid()
      ensures found == Uncached(env, Lookup(bindings, name), key)
    {
      hide FirstLocale, Tried, Split, Coherent;
      var at := FindBinding(name);
      var dirname := env.defaultDirname;
      var codeset: Option<Str> := None;
      if at.Some? {
        dirname := bindings[at.value].dirname;
        codeset := bindings[at.value].codeset;
        if !(dirname != [] && dirname[0] == SLASH) {
          if env.cwd.None? {
            return None;
          }
          dirname := env.cwd.value + [SLASH] + dirname;
        }
      }
      assert Directory(env, Lookup(bindings, name)) == Some(dirname) && Codeset(Lookup(bindings, name)) == codeset;
      found := FindTranslation(dirname, codeset, key);
    }

    // Any run gives the answers of the reference, which has no cache, no list order and no counter.
    method Run(ops: seq<Op>, ghost s: Plain) returns (answers: seq<Str>)
      requires Valid() && Agree(bindings, s.bound) && s.current == current
      modifies this
      ensures Valid() && answers == PlainRun(env, s, ops)
    {
      hide PlainRun, PlainGet, PlainStep, Coherent, Sorted, Agree;
      answers := [];
      var i := 0;
      ghost var t := s;
      assert ops[0..] == ops;
      while i < |ops|
        invariant 0 <= i <= |ops|
        invariant Valid() && Agree(bindings, t.bound) && t.current == current
        invariant answers + PlainRun(env, t, ops[i..]) == PlainRun(env, s, ops)
      {
        RunStep(env, t, ops, i);
        var out := Serve(ops[i], t);
        answers := answers + out;
        t := PlainStep(env, t, ops[i]);
        i := i + 1;
      }
      RunEnd(env, t, ops);
    }

    lemma RunEnd(env: Env, t: Plain, ops: seq<Op>)
      ensures PlainRun(env, t, ops[|ops|..]) == []
    {}

    method Serve(op: Op, ghost t: Plain) returns (out: seq<Str>)
      requires Valid() && Agree(bindings, t.bound) && t.current == current
      modifies this
      ensures out == if op.Get? then [PlainGet(env, t, op)] else []
      ensures Valid() && Agree(bindings, PlainStep(env, t, op).bound) && PlainStep(env, t, op).current == current
    {
      hide Coherent, Sorted, Uncached, Answer;
      if op.Get? {
        var r := DcGettext(op.domainname, op.msgid1, op.msgid2, op.plural, op.n, op.category);
        out := [r];
      } else {
        Configure(op, t);
        out := [];
      }
    }

    lemma RunStep(env: Env, t: Plain, ops: seq<Op>, i: nat)
      requires i < |ops|
      ensures PlainRun(env, t, ops[i..]) ==
        (if ops[i].Get? then [PlainGet(env, t, ops[i])] else []) +
        PlainRun(env, PlainStep(env, t, ops[i]), ops[i + 1..])
    {
      assert ops[i..][1..] == ops[i + 1..];
    }

    method Configure(op: Op, ghost t: Plain)
      requires Valid() && Agree(bindings, t.bound) && t.current == current && !op.Get?
      modifies this
      ensures Valid() && Agree(bindings, PlainStep(env, t, op).bound) && PlainStep(env, t, op).current == current
    {
      match op
      case Bind(name, dir, code) =>
        ghost var before := bindings;
        var dirname, codeset := SetBindingValues(name, dir, code);
        if name.Some? && name.value != [] {
          AgreeAfter(
            before, bindings, t.bound, name.value, Rebound(env, Lookup(before, name.value), name.value, dir, code));
        }
      case TextDomain(name) =>
        var r := SetTextDomain(name);
    }
  }

  // The directory that is reported: the binding's, or the default.
  function ReportedDirname(env: Env, b: Option<Binding>): Option<Str> {
    Some(if b.Some? then b.value.dirname else env.defaultDirname)
  }
}
