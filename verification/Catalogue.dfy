// A loaded message catalogue: augmenting the hash table, and finding a message.
module Catalogue {
  import opened Options
  import opened Strings
  import opened HashString
  import opened ProbeSequence
  import opened HashTable
  import opened Sysdep

  // A string of the file: `text` is what its pointer addresses, up to and including a final NUL.
  // `length` counts the NUL for a system-dependent string and not for a static one.
  datatype Desc = Desc(length: nat, text: seq<byte>)

  predicate StaticDesc(d: Desc) { |d.text| == d.length + 1 && d.text[d.length] == 0 }

  predicate SysdepDesc(d: Desc) { 0 < d.length == |d.text| && d.text[d.length - 1] == 0 }

  // The C string at the start of a text: plural entries hold more after an embedded NUL.
  function Key(text: seq<byte>): (k: seq<byte>)
    ensures 0 !in k && |k| <= |text|
    ensures 0 in text ==> |k| < |text| && text[..|k|] == k && text[|k|] == 0
  {
    if text == [] || text[0] == 0 then [] else [text[0]] + Key(text[1..])
  }

  function Keys(tab: seq<Desc>): (ks: seq<seq<byte>>)
    ensures |ks| == |tab|
  {
    seq(|tab|, i requires 0 <= i < |tab| => Key(tab[i].text))
  }

  predicate SortedKeys(keys: seq<seq<byte>>) {
    forall i, j :: 0 <= i < j < |keys| ==> StrCmp(keys[i], keys[j]) < 0
  }

  class LoadedDomain {
    const signed: bool
    var orig_tab: seq<Desc>
    var trans_tab: seq<Desc>
    var orig_sysdep_tab: seq<Desc>
    var trans_sysdep_tab: seq<Desc>
    var hash_tab: array?<nat>

    ghost function AllKeys(): seq<seq<byte>>
      reads this
    {
      Keys(orig_tab) + Keys(orig_sysdep_tab)
    }

    // What msgfmt writes and the loader keeps.
    ghost predicate Valid()
      reads this, hash_tab
    {
      && (forall i :: 0 <= i < |orig_tab| ==> StaticDesc(orig_tab[i]))
      && (forall i :: 0 <= i < |orig_sysdep_tab| ==> SysdepDesc(orig_sysdep_tab[i]))
      && |trans_tab| == |orig_tab| && |trans_sysdep_tab| == |orig_sysdep_tab|
      && (if hash_tab == null then orig_sysdep_tab == [] && SortedKeys(Keys(orig_tab))
          else WellFormedTable(hash_tab[..], AllKeys(), signed))
    }

    constructor (signed: bool, orig: seq<Desc>, trans: seq<Desc>, table: array?<nat>)
      requires |orig| == |trans| && forall i :: 0 <= i < |orig| ==> StaticDesc(orig[i])
      requires if table == null then SortedKeys(Keys(orig)) else WellFormedTable(table[..], Keys(orig), signed)
      ensures Valid() && AllKeys() == Keys(orig) && hash_tab == table && orig_tab == orig && trans_tab == trans
      ensures orig_sysdep_tab == []
      ensures this.signed == signed
    {
      this.signed := signed;
      orig_tab, trans_tab, orig_sysdep_tab, trans_sysdep_tab, hash_tab := orig, trans, [], [], table;
      new;
      assert Keys(orig_sysdep_tab) == [];
    }

    // The augmented hash table: a copy of the file's table with the system-dependent strings added.
    method Augment(sysdep: seq<Desc>, sysdeptrans: seq<Desc>)
      requires |sysdep| == |sysdeptrans|
      requires Valid() && hash_tab != null && orig_sysdep_tab == []
      requires forall i :: 0 <= i < |sysdep| ==> SysdepDesc(sysdep[i])
      requires |sysdep| <= |Empties(hash_tab[..])|
      modifies this
      ensures Valid() && hash_tab != null && fresh(hash_tab)
      ensures orig_tab == old(orig_tab) && trans_tab == old(trans_tab)
      ensures orig_sysdep_tab == sysdep && trans_sysdep_tab == sysdeptrans
      ensures AllKeys() == old(AllKeys()) + Keys(sysdep)
      ensures |Empties(hash_tab[..])| == old(|Empties(hash_tab[..])|) - |sysdep|
    {
      hide WellFormedTable;
      ghost var t := hash_tab[..];
      var file := hash_tab;
      var tab := new nat[file.Length];
      forall i | 0 <= i < file.Length { tab[i] := file[i]; }
      assert tab[..] == t;
      assert AllKeys() == Keys(orig_tab);
      InsertAll(tab, Keys(orig_tab), sysdep, signed);
      hash_tab := tab;
      orig_sysdep_tab, trans_sysdep_tab := sysdep, sysdeptrans;
    }

    // Minor revision 1 of the file format: build the system-dependent strings and enter them.
    // Without a hash table, or with a reference outside the segment table, the file is invalid; without such
    // strings the file's own table stays.
    method LoadSysdep(orig: seq<SysdepString>, trans: seq<SysdepString>, values: seq<seq<byte>>) returns (ok: bool)
      requires Valid() && orig_sysdep_tab == [] && |orig| == |trans| && |values| < SEGMENTS_END
      requires AllWellFormed(orig) && AllWellFormed(trans)
      requires AllValid(orig, |values|) ==> Terminate(orig, values)
      requires hash_tab != null ==> |orig| <= |Empties(hash_tab[..])|
      modifies this
      ensures ok <==> old(hash_tab) != null && AllValid(orig, |values|) && AllValid(trans, |values|)
      ensures !ok ==> unchanged(this)
      ensures orig == [] ==> unchanged(this)
      ensures ok ==> Valid() && hash_tab != null && orig_tab == old(orig_tab) && trans_tab == old(trans_tab)
      ensures ok && orig != [] ==> fresh(hash_tab)
      ensures ok ==> Texts(orig_sysdep_tab, orig, values) && Texts(trans_sysdep_tab, trans, values)
      ensures ok ==> AllKeys() == old(AllKeys()) + Keys(orig_sysdep_tab)
      ensures ok ==> |Empties(hash_tab[..])| == old(|Empties(hash_tab[..])|) - |orig|
    {
      if hash_tab == null {
        return false;
      }
      if orig == [] {
        assert AllKeys() == AllKeys() + Keys([]);
        return true;
      }
      hide WellFormedTable, Empties, Text, RefsValid, WellFormedString;
      Joined(orig, trans, |values|);
      var descs := Build(orig + trans, values);
      if descs.None? {
        return false;
      }
      SplitTexts(descs.value, orig, trans, values);
      Augment(descs.value[..|orig|], descs.value[|orig|..]);
      return true;
    }

    // The translation of msgid, as _nl_find_msg delivers it, with the length including the final NUL.
    method Translation(msgid: seq<byte>) returns (result: Option<(seq<byte>, nat)>)
      requires Valid() && 0 !in msgid
      requires hash_tab != null ==> Empties(hash_tab[..]) != {} || msgid in AllKeys()
      ensures result.None? <==> msgid !in AllKeys()
      ensures result.Some? ==>
        exists act :: 0 <= act < |AllKeys()| && AllKeys()[act] == msgid && result.value == Paired(act)
      ensures result.Some? && msgid !in Keys(orig_sysdep_tab) ==>
        exists i :: 0 <= i < |orig_tab| && Keys(orig_tab)[i] == msgid &&
          result.value == (trans_tab[i].text, trans_tab[i].length + 1)
      ensures result.Some? && msgid !in Keys(orig_tab) ==>
        exists i :: 0 <= i < |orig_sysdep_tab| && Keys(orig_sysdep_tab)[i] == msgid &&
          result.value == (trans_sysdep_tab[i].text, trans_sysdep_tab[i].length)
    {
      var act := FindMsg(msgid);
      if act.None? {
        return None;
      }
      if act.value < |orig_tab| {
        var d := trans_tab[act.value];
        result := Some((d.text, d.length + 1));
      } else {
        var d := trans_sysdep_tab[act.value - |orig_tab|];
        result := Some((d.text, d.length));
      }
      assert result.value == Paired(act.value);
    }

    // The translation stored beside original string `act`.
    ghost function Paired(act: nat): (seq<byte>, nat)
      reads this
      requires act < |AllKeys()| && |trans_tab| == |orig_tab| && |trans_sysdep_tab| == |orig_sysdep_tab|
    {
      if act < |orig_tab| then (trans_tab[act].text, trans_tab[act].length + 1)
      else (trans_sysdep_tab[act - |orig_tab|].text, trans_sysdep_tab[act - |orig_tab|].length)
    }

    // _nl_find_msg up to `found`: the index of the original string that msgid names.
    method FindMsg(msgid: seq<byte>) returns (act: Option<nat>)
      requires Valid() && 0 !in msgid
      requires hash_tab != null ==> Empties(hash_tab[..]) != {} || msgid in AllKeys()
      ensures act.None? <==> msgid !in AllKeys()
      ensures act.Some? ==> act.value < |AllKeys()| && AllKeys()[act.value] == msgid
    {
      if hash_tab != null {
        act := FindByHash(msgid);
      } else {
        act := Bisect(Keys(orig_tab), msgid);
      }
    }

    // The hash loop with its comparisons: lengths first, then strcmp on the text.
    method FindByHash(msgid: seq<byte>) returns (act: Option<nat>)
      requires Valid() && 0 !in msgid && hash_tab != null
      requires Empties(hash_tab[..]) != {} || msgid in AllKeys()
      ensures act.None? <==> msgid !in AllKeys()
      ensures act.Some? ==> act.value < |AllKeys()| && AllKeys()[act.value] == msgid
    {
      hide Slot, Prime, Hash32, Start, Incr, Advance, WellFormedTable, Missed, Keys, Empties, SortedKeys;
      var tab := hash_tab;
      var h := Hash32(msgid, signed);
      ghost var t, keys, k := tab[..], AllKeys(), 0;
      ghost var last := Landmark(t, keys, msgid, signed);
      TableBounds(t, keys, signed);
      var idx, incr := Start(h, tab.Length), Incr(h, tab.Length);
      SlotZero(h, tab.Length);
      MissNone(t, keys, msgid, h);
      while true
        invariant 0 <= k <= last && idx == Slot(h, tab.Length, k) && incr == Incr(h, tab.Length)
        invariant Missed(t, keys, msgid, h, k)
        decreases last - k
      {
        var nstr := tab[idx];
        assert nstr == t[idx];
        if nstr == 0 {
          AbsentWhenEmpty(t, keys, msgid, signed, k);
          return None;
        }
        nstr := nstr - 1;
        var same := SameString(nstr, msgid);
        if same {
          return Some(nstr);
        }
        MissNext(t, keys, msgid, h, k, last);
        SlotNext(h, tab.Length, k);
        idx := Advance(idx, incr, tab.Length);
        k := k + 1;
      }
    }

    // The length test never rejects a string that strcmp would accept.
    method SameString(nstr: nat, msgid: seq<byte>) returns (same: bool)
      requires Valid() && nstr < |AllKeys()|
      ensures same <==> AllKeys()[nstr] == msgid
    {
      hide WellFormedTable;
      var len, nstrings := |msgid|, |orig_tab|;
      if nstr < nstrings {
        var d := orig_tab[nstr];
        StrCmpZero(msgid, Key(d.text));
        assert 0 in d.text;
        same := d.length >= len && StrCmp(msgid, Key(d.text)) == 0;
      } else {
        var d := orig_sysdep_tab[nstr - nstrings];
        StrCmpZero(msgid, Key(d.text));
        assert 0 in d.text;
        same := d.length > len && StrCmp(msgid, Key(d.text)) == 0;
      }
    }
  }

  // Each expanded string brings its terminating NUL.
  predicate Terminate(strings: seq<SysdepString>, values: seq<seq<byte>>)
    requires AllWellFormed(strings) && AllValid(strings, |values|) && |values| < SEGMENTS_END
  {
    forall i :: 0 <= i < |strings| ==> var t := Text(strings[i], values); t != [] && t[|t| - 1] == 0
  }

  // The descriptors denote the expanded strings.
  predicate Texts(descs: seq<Desc>, strings: seq<SysdepString>, values: seq<seq<byte>>)
    requires AllWellFormed(strings) && AllValid(strings, |values|) && |values| < SEGMENTS_END
  {
    |descs| == |strings| &&
    forall i :: 0 <= i < |strings| ==> descs[i].text == Text(strings[i], values) && descs[i].length == |descs[i].text|
  }

  function Descriptors(
    tab: seq<Located>, mem: seq<byte>, ghost strings: seq<SysdepString>, ghost values: seq<seq<byte>>): (ds: seq<Desc>)
    requires AllWellFormed(strings) && AllValid(strings, |values|) && |values| < SEGMENTS_END
    requires |tab| == |strings| && forall i :: 0 <= i < |strings| ==> Describes(tab[i], mem, strings[i], values)
    ensures Texts(ds, strings, values)
  {
    var ds := seq(|tab|, i requires 0 <= i < |tab| => Desc(|Content(tab[i], mem)|, Content(tab[i], mem)));
    assert forall i :: 0 <= i < |strings| ==>
      Describes(tab[i], mem, strings[i], values) && ds[i].text == Content(tab[i], mem);
    ds
  }

  // Both passes: the descriptors of all strings, or None for an invalid file.
  method Build(strings: seq<SysdepString>, values: seq<seq<byte>>) returns (descs: Option<seq<Desc>>)
    requires AllWellFormed(strings) && |values| < SEGMENTS_END
    ensures descs.Some? <==> AllValid(strings, |values|)
    ensures descs.Some? ==> Texts(descs.value, strings, values)
  {
    var memneed := Measure(strings, values);
    if memneed.None? {
      return None;
    }
    var mem := new byte[memneed.value];
    var tab := Fill(strings, values, mem);
    return Some(Descriptors(tab, mem[..], strings, values));
  }

  lemma Joined(orig: seq<SysdepString>, trans: seq<SysdepString>, n: nat)
    requires AllWellFormed(orig) && AllWellFormed(trans)
    ensures AllWellFormed(orig + trans)
    ensures AllValid(orig + trans, n) <==> AllValid(orig, n) && AllValid(trans, n)
  {
    var all := orig + trans;
    assert forall i :: 0 <= i < |orig| ==> orig[i] == all[i];
    assert forall i :: 0 <= i < |trans| ==> trans[i] == all[|orig| + i];
  }

  lemma SplitTexts(descs: seq<Desc>, orig: seq<SysdepString>, trans: seq<SysdepString>, values: seq<seq<byte>>)
    requires AllWellFormed(orig + trans) && AllValid(orig + trans, |values|) && |values| < SEGMENTS_END
    requires Texts(descs, orig + trans, values)
    ensures AllWellFormed(orig) && AllWellFormed(trans) && AllValid(orig, |values|) && AllValid(trans, |values|)
    ensures |descs| == |orig| + |trans|
    ensures Texts(descs[..|orig|], orig, values) && Texts(descs[|orig|..], trans, values)
  {
    var all := orig + trans;
    assert forall i :: 0 <= i < |orig| ==> orig[i] == all[i];
    assert forall i :: 0 <= i < |trans| ==> trans[i] == all[|orig| + i];
  }

  method InsertAll(tab: array<nat>, base: seq<seq<byte>>, sysdep: seq<Desc>, signed: bool)
    requires WellFormedTable(tab[..], base, signed) && |sysdep| <= |Empties(tab[..])|
    modifies tab
    ensures WellFormedTable(tab[..], base + Keys(sysdep), signed)
    ensures |Empties(tab[..])| == old(|Empties(tab[..])|) - |sysdep|
  {
    hide Placed;
    var i := 0;
    assert base + Keys(sysdep)[..0] == base;
    while i < |sysdep|
      invariant 0 <= i <= |sysdep|
      invariant WellFormedTable(tab[..], base + Keys(sysdep)[..i], signed)
      invariant |Empties(tab[..])| == old(|Empties(tab[..])|) - i
    {
      ghost var before, keys := tab[..], base + Keys(sysdep)[..i];
      var msgid := Key(sysdep[i].text);
      Insert(tab, Hash32(msgid, signed), |base| + i);
      ghost var k :| 0 <= k < tab.Length && InsertedAt(before, tab[..], Hash32(msgid, signed), |base| + i, k);
      InsertKeeps(before, tab[..], keys, msgid, signed, k);
      assert keys + [msgid] == base + Keys(sysdep)[..i + 1];
      i := i + 1;
    }
    assert Keys(sysdep)[..|sysdep|] == Keys(sysdep);
  }

  // The default method: binary search over strings in strcmp order.
  method Bisect(keys: seq<seq<byte>>, msgid: seq<byte>) returns (act: Option<nat>)
    requires SortedKeys(keys)
    ensures act.None? <==> msgid !in keys
    ensures act.Some? ==> act.value < |keys| && keys[act.value] == msgid
  {
    var bottom, top := 0, |keys|;
    while bottom < top
      invariant 0 <= bottom <= top <= |keys|
      invariant msgid !in keys[..bottom] && msgid !in keys[top..]
    {
      var mid := (bottom + top) / 2;
      var cmp_val := StrCmp(msgid, keys[mid]);
      StrCmpZero(msgid, keys[mid]);
      if cmp_val < 0 {
        BelowAll(keys, msgid, mid);
        top := mid;
      } else if cmp_val > 0 {
        AboveAll(keys, msgid, mid);
        bottom := mid + 1;
      } else {
        return Some(mid);
      }
    }
    assert keys == keys[..bottom] + keys[bottom..];
    return None;
  }

  lemma BelowAll(keys: seq<seq<byte>>, msgid: seq<byte>, mid: nat)
    requires SortedKeys(keys) && mid < |keys| && StrCmp(msgid, keys[mid]) < 0
    ensures msgid !in keys[mid..]
  {
    forall j | mid <= j < |keys| ensures keys[j] != msgid {
      StrCmpZero(keys[mid], keys[mid]);
      StrCmpOrder(msgid, keys[mid], keys[j]);
      StrCmpZero(msgid, keys[j]);
    }
  }

  lemma AboveAll(keys: seq<seq<byte>>, msgid: seq<byte>, mid: nat)
    requires SortedKeys(keys) && mid < |keys| && StrCmp(msgid, keys[mid]) > 0
    ensures msgid !in keys[..mid + 1]
  {
    StrCmpFlip(keys[mid], msgid);
    forall j | 0 <= j <= mid ensures keys[j] != msgid {
      if j < mid {
        StrCmpOrder(keys[j], keys[mid], msgid);
      }
      StrCmpZero(keys[j], msgid);
    }
  }
}
