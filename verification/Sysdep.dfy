// System-dependent strings of a catalogue: measured in one pass, built in a second.
module Sysdep {
  import opened Options
  import opened Strings

  const SEGMENTS_END := 0xFFFF_FFFF

  // A static segment of `segsize` bytes, then a reference to a system-dependent segment.
  datatype Pair = Pair(segsize: nat, sysdepref: nat)

  // `statics` is the text of the file from the static segments on.
  datatype SysdepString = SysdepString(statics: seq<byte>, segments: seq<Pair>)

  // The segment list ends with, and only with, the end marker, and its text is in the file.
  predicate Terminated(segments: seq<Pair>) {
    && segments != []
    && segments[|segments| - 1].sysdepref == SEGMENTS_END
    && forall i :: 0 <= i < |segments| - 1 ==> segments[i].sysdepref != SEGMENTS_END
  }

  function StaticSize(segments: seq<Pair>): nat {
    if segments == [] then 0 else segments[0].segsize + StaticSize(segments[1..])
  }

  predicate WellFormedString(s: SysdepString) {
    Terminated(s.segments) && StaticSize(s.segments) <= |s.statics|
  }

  // Every reference is to a segment of the file.
  predicate RefsValid(segments: seq<Pair>, n: nat) {
    forall i :: 0 <= i < |segments| ==> segments[i].sysdepref == SEGMENTS_END || segments[i].sysdepref < n
  }

  // The string that is meant: static and expanded segments in turn.
  function Expand(statics: seq<byte>, segments: seq<Pair>, values: seq<seq<byte>>): seq<byte>
    requires Terminated(segments) && StaticSize(segments) <= |statics| && RefsValid(segments, |values|)
    requires |values| < SEGMENTS_END
  {
    var p := segments[0];
    if p.sysdepref == SEGMENTS_END then statics[..p.segsize]
    else statics[..p.segsize] + values[p.sysdepref] + Expand(statics[p.segsize..], segments[1..], values)
  }

  // Where segment k starts in the expanded string.
  function StartOf(segments: seq<Pair>, values: seq<seq<byte>>, k: nat): nat
    requires Terminated(segments) && RefsValid(segments, |values|) && k < |segments|
  {
    if k == 0 then 0
    else segments[0].segsize + |values[segments[0].sysdepref]| + StartOf(segments[1..], values, k - 1)
  }

  // The static part lies at its place, with the value that the segment refers to behind it; after the last one
  // nothing comes.
  predicate SegmentAt(s: seq<byte>, at: nat, part: seq<byte>, p: Pair, values: seq<seq<byte>>) {
    var end := at + |part|;
    && end <= |s| && s[at..end] == part
    && if p.sysdepref == SEGMENTS_END then |s| == end
       else p.sysdepref < |values| && values[p.sysdepref] <= s[end..]
  }

  lemma Later(head: seq<byte>, s: seq<byte>, at: nat, part: seq<byte>, p: Pair, values: seq<seq<byte>>)
    requires SegmentAt(s, at, part, p, values)
    ensures SegmentAt(head + s, |head| + at, part, p, values)
  {
    var end := at + |part|;
    assert (head + s)[|head| + at..|head| + end] == s[at..end];
    assert (head + s)[|head| + end..] == s[end..];
  }

  lemma FirstSegment(statics: seq<byte>, segments: seq<Pair>, values: seq<seq<byte>>)
    requires Terminated(segments) && StaticSize(segments) <= |statics| && RefsValid(segments, |values|)
    requires |values| < SEGMENTS_END
    ensures StaticSize(segments[..0]) == 0 == StartOf(segments, values, 0) && segments[0].segsize <= |statics|
    ensures SegmentAt(Expand(statics, segments, values), 0, statics[..segments[0].segsize], segments[0], values)
  {
    var p := segments[0];
    if p.sysdepref != SEGMENTS_END {
      var v, s := values[p.sysdepref], Expand(statics[p.segsize..], segments[1..], values);
      assert (statics[..p.segsize] + v + s)[p.segsize..] == v + s;
    }
  }

  lemma ExpandStep(statics: seq<byte>, segments: seq<Pair>, values: seq<seq<byte>>, k: nat)
    requires Terminated(segments) && StaticSize(segments) <= |statics| && RefsValid(segments, |values|)
    requires |values| < SEGMENTS_END && 0 < k < |segments|
    ensures var p, rest := segments[0], segments[1..];
      && Terminated(rest) && p.segsize <= |statics| && StaticSize(rest) <= |statics[p.segsize..]|
      && RefsValid(rest, |values|) && p.sysdepref < |values|
      && Expand(statics, segments, values) ==
         statics[..p.segsize] + values[p.sysdepref] + Expand(statics[p.segsize..], rest, values)
      && StartOf(segments, values, k) == |statics[..p.segsize] + values[p.sysdepref]| + StartOf(rest, values, k - 1)
      && StaticSize(segments[..k]) == p.segsize + StaticSize(rest[..k - 1])
  {
    assert segments[..k][1..] == segments[1..][..k - 1];
  }

  // Each static segment is the next part of the file's text, and the value that it refers to comes behind it.
  lemma {:induction false} ExpandAt(statics: seq<byte>, segments: seq<Pair>, values: seq<seq<byte>>, k: nat)
    requires Terminated(segments) && StaticSize(segments) <= |statics| && RefsValid(segments, |values|)
    requires |values| < SEGMENTS_END && k < |segments|
    ensures StaticSize(segments[..k]) + segments[k].segsize <= |statics|
    ensures var from := StaticSize(segments[..k]);
      SegmentAt(Expand(statics, segments, values), StartOf(segments, values, k),
                statics[from..from + segments[k].segsize], segments[k], values)
  {
    hide *;
    if k == 0 {
      FirstSegment(statics, segments, values);
      assert statics[0..0 + segments[0].segsize] == statics[..segments[0].segsize];
    } else {
      var p := segments[0];
      ExpandStep(statics, segments, values, k);
      var rest := statics[p.segsize..];
      ExpandAt(rest, segments[1..], values, k - 1);
      var from, size := StaticSize(segments[1..][..k - 1]), segments[k].segsize;
      assert segments[1..][k - 1] == segments[k];
      Later(statics[..p.segsize] + values[p.sysdepref], Expand(rest, segments[1..], values),
            StartOf(segments[1..], values, k - 1), rest[from..from + size], segments[k], values);
      assert rest[from..from + size] == statics[p.segsize + from..p.segsize + from + size];
    }
  }

  function Text(s: SysdepString, values: seq<seq<byte>>): seq<byte>
    requires WellFormedString(s) && RefsValid(s.segments, |values|) && |values| < SEGMENTS_END
  {
    Expand(s.statics, s.segments, values)
  }

  // A string of one static segment stays in the file.
  predicate OnlyStatic(s: SysdepString)
    requires WellFormedString(s)
  {
    s.segments[0].sysdepref == SEGMENTS_END
  }

  predicate AllWellFormed(strings: seq<SysdepString>) {
    forall i :: 0 <= i < |strings| ==> WellFormedString(strings[i])
  }

  predicate AllValid(strings: seq<SysdepString>, n: nat) {
    forall i :: 0 <= i < |strings| ==> RefsValid(strings[i].segments, n)
  }

  // The strings that are built in memory, one after another.
  function Packed(strings: seq<SysdepString>, values: seq<seq<byte>>): seq<byte>
    requires AllWellFormed(strings) && AllValid(strings, |values|) && |values| < SEGMENTS_END
  {
    if strings == [] then [] else
      Packed(strings[..|strings| - 1], values) + Piece(strings[|strings| - 1], values)
  }

  function Piece(s: SysdepString, values: seq<seq<byte>>): seq<byte>
    requires WellFormedString(s) && RefsValid(s.segments, |values|) && |values| < SEGMENTS_END
  {
    if OnlyStatic(s) then [] else Text(s, values)
  }

  // The measuring loop over the segments of one string; None for a reference outside the file.
  method MeasureString(segments: seq<Pair>, statics: seq<byte>, values: seq<seq<byte>>) returns (need: Option<nat>)
    requires Terminated(segments) && StaticSize(segments) <= |statics| && |values| < SEGMENTS_END
    ensures need.Some? <==> RefsValid(segments, |values|)
    ensures need.Some? ==> need.value == |Expand(statics, segments, values)|
  {
    var n, p := 0, 0;
    ghost var rest := statics;
    while true
      invariant 0 <= p < |segments| && Terminated(segments[p..]) && StaticSize(segments[p..]) <= |rest|
      invariant forall i :: 0 <= i < p ==> segments[i].sysdepref < |values|
      invariant RefsValid(segments, |values|) ==>
        |Expand(statics, segments, values)| == n + |Expand(rest, segments[p..], values)|
      decreases |segments| - p
    {
      var sysdepref := segments[p].sysdepref;
      n := n + segments[p].segsize;
      if sysdepref == SEGMENTS_END {
        assert p == |segments| - 1;
        return Some(n);
      }
      if sysdepref >= |values| {
        return None;
      }
      n := n + |values[sysdepref]|;
      assert segments[p..][1..] == segments[p + 1..];
      rest := rest[segments[p].segsize..];
      p := p + 1;
    }
  }

  method MeasureOne(s: SysdepString, values: seq<seq<byte>>) returns (need: Option<nat>)
    requires WellFormedString(s) && |values| < SEGMENTS_END
    ensures need.Some? <==> RefsValid(s.segments, |values|)
    ensures need.Some? ==> need.value == |Piece(s, values)|
  {
    if s.segments[0].sysdepref == SEGMENTS_END {
      assert |s.segments| == 1;
      return Some(0);
    }
    need := MeasureString(s.segments, s.statics, values);
  }

  // The measuring pass: the bytes needed for all strings, or None when the file is invalid.
  method Measure(strings: seq<SysdepString>, values: seq<seq<byte>>) returns (memneed: Option<nat>)
    requires AllWellFormed(strings) && |values| < SEGMENTS_END
    ensures memneed.Some? <==> AllValid(strings, |values|)
    ensures memneed.Some? ==> memneed.value == |Packed(strings, values)|
  {
    hide RefsValid, Piece, WellFormedString;
    var total, i := 0, 0;
    while i < |strings|
      invariant i <= |strings| && AllValid(strings[..i], |values|)
      invariant total == |Packed(strings[..i], values)|
    {
      assert strings[..i + 1][..i] == strings[..i];
      var need := MeasureOne(strings[i], values);
      if need.None? {
        return None;
      }
      total := total + need.value;
      i := i + 1;
    }
    assert strings[..|strings|] == strings;
    return Some(total);
  }

  // memcpy into the allocated block.
  method Copy(mem: array<byte>, at: nat, bytes: seq<byte>)
    requires at + |bytes| <= mem.Length
    modifies mem
    ensures mem[..at + |bytes|] == old(mem[..at]) + bytes
  {
    forall i | 0 <= i < |bytes| {
      mem[at + i] := bytes[i];
    }
  }

  // One round: a static segment, and the expansion that follows it.
  method CopyPair(mem: array<byte>, at: nat, bytes: seq<byte>, value: seq<byte>)
    requires at + |bytes| + |value| <= mem.Length
    modifies mem
    ensures mem[..at + |bytes| + |value|] == old(mem[..at]) + bytes + value
  {
    if |bytes| > 0 {
      Copy(mem, at, bytes);
    }
    assert mem[..at + |bytes|] == old(mem[..at]) + bytes;
    Copy(mem, at + |bytes|, value);
  }

  // Strings that can be expanded.
  predicate Expandable(statics: seq<byte>, segs: seq<Pair>, n: nat) {
    Terminated(segs) && StaticSize(segs) <= |statics| && RefsValid(segs, n) && n < SEGMENTS_END
  }

  lemma FirstPair(statics: seq<byte>, segs: seq<Pair>, values: seq<seq<byte>>)
    requires Expandable(statics, segs, |values|)
    ensures segs != [] && segs[0].segsize <= |statics|
    ensures segs[0].sysdepref == SEGMENTS_END || segs[0].sysdepref < |values|
    ensures segs[0].sysdepref == SEGMENTS_END ==>
      |segs| == 1 && Expand(statics, segs, values) == statics[..segs[0].segsize]
  {
  }

  lemma NextPair(statics: seq<byte>, segs: seq<Pair>, values: seq<seq<byte>>)
    requires Expandable(statics, segs, |values|) && segs[0].sysdepref != SEGMENTS_END
    ensures segs[0].segsize <= |statics| && segs[0].sysdepref < |values|
    ensures Expandable(statics[segs[0].segsize..], segs[1..], |values|)
    ensures Expand(statics, segs, values) == statics[..segs[0].segsize] + values[segs[0].sysdepref]
        + Expand(statics[segs[0].segsize..], segs[1..], values)
  {
    LaterPairs(statics, segs, |values|);
    hide Terminated, StaticSize, RefsValid;
  }

  lemma LaterPairs(statics: seq<byte>, segs: seq<Pair>, n: nat)
    requires Expandable(statics, segs, n) && segs[0].sysdepref != SEGMENTS_END
    ensures segs[0].segsize <= |statics| && segs[0].sysdepref < n
    ensures Expandable(statics[segs[0].segsize..], segs[1..], n)
  {}

  lemma Associative(a: seq<byte>, b: seq<byte>, c: seq<byte>, d: seq<byte>)
    ensures a + (b + c + d) == (a + b + c) + d
  {
  }

  // The filling loop for one string; it stays inside the block.
  method FillString(mem: array<byte>, at: nat, s: SysdepString, values: seq<seq<byte>>) returns (end: nat)
    requires WellFormedString(s) && RefsValid(s.segments, |values|) && |values| < SEGMENTS_END
    requires at + |Text(s, values)| <= mem.Length
    modifies mem
    ensures end == at + |Text(s, values)| <= mem.Length
    ensures mem[..end] == old(mem[..at]) + Text(s, values)
  {
    FirstPair(s.statics, s.segments, values);
    assert Expandable(s.statics, s.segments, |values|);
    hide Expand, Terminated, RefsValid, StaticSize, Expandable;
    end := at;
    var statics, segs := s.statics, s.segments;
    ghost var all := mem[..at] + Text(s, values);
    while segs[0].sysdepref != SEGMENTS_END
      invariant segs != [] && Expandable(statics, segs, |values|)
      invariant at <= end <= |all| <= mem.Length
      invariant mem[..end] + Expand(statics, segs, values) == all
      decreases |segs|
    {
      ghost var prefix := mem[..end];
      var segsize, value := segs[0].segsize, values[segs[0].sysdepref];
      NextPair(statics, segs, values);
      Associative(prefix, statics[..segsize], value, Expand(statics[segsize..], segs[1..], values));
      CopyPair(mem, end, statics[..segsize], value);
      end := end + segsize + |value|;
      statics, segs := statics[segsize..], segs[1..];
      FirstPair(statics, segs, values);
    }
    FirstPair(statics, segs, values);
    CopyPair(mem, end, statics[..segs[0].segsize], []);
    end := end + segs[0].segsize;
  }

  // Where a string ended up: in the file, or at an offset of the allocated block.
  datatype Located = InFile(text: seq<byte>) | InMemory(offset: nat, length: nat)

  function Content(d: Located, mem: seq<byte>): seq<byte> {
    match d
    case InFile(t) => t
    case InMemory(o, n) => if o + n <= |mem| then mem[o..o + n] else []
  }

  predicate Describes(d: Located, mem: seq<byte>, s: SysdepString, values: seq<seq<byte>>)
    requires WellFormedString(s) && RefsValid(s.segments, |values|) && |values| < SEGMENTS_END
  {
    Content(d, mem) == Text(s, values) && (d.InMemory? ==> d.offset + d.length <= |mem|)
  }

  method FillOne(mem: array<byte>, at: nat, s: SysdepString, values: seq<seq<byte>>) returns (d: Located, end: nat)
    requires WellFormedString(s) && RefsValid(s.segments, |values|) && |values| < SEGMENTS_END
    requires at + |Piece(s, values)| <= mem.Length
    modifies mem
    ensures end == at + |Piece(s, values)| <= mem.Length
    ensures mem[..end] == old(mem[..at]) + Piece(s, values)
    ensures Describes(d, mem[..end], s, values)
  {
    if s.segments[0].sysdepref == SEGMENTS_END {
      d, end := InFile(s.statics[..s.segments[0].segsize]), at;
      assert mem[..end] + [] == mem[..end];
    } else {
      end := FillString(mem, at, s, values);
      d := InMemory(at, end - at);
    }
  }

  // The filling pass uses exactly the measured bytes, and every descriptor denotes its string.
  method Fill(strings: seq<SysdepString>, values: seq<seq<byte>>, mem: array<byte>) returns (tab: seq<Located>)
    requires AllWellFormed(strings) && AllValid(strings, |values|) && |values| < SEGMENTS_END
    requires mem.Length == |Packed(strings, values)|
    modifies mem
    ensures mem[..] == Packed(strings, values)
    ensures |tab| == |strings| && forall i :: 0 <= i < |strings| ==> Describes(tab[i], mem[..], strings[i], values)
  {
    hide Describes, RefsValid, Piece, WellFormedString;
    tab := [];
    var at, i := 0, 0;
    while i < |strings|
      invariant i == |tab| <= |strings| && at == |Packed(strings[..i], values)| <= mem.Length
      invariant mem[..at] == Packed(strings[..i], values)
      invariant forall j :: 0 <= j < i ==> Describes(tab[j], mem[..at], strings[j], values)
    {
      assert strings[..i + 1][..i] == strings[..i];
      PackedPrefix(strings, values, i + 1);
      ghost var before := mem[..at];
      var d, end := FillOne(mem, at, strings[i], values);
      Extended(tab, before, Piece(strings[i], values), strings, values);
      tab := tab + [d];
      at := end;
      i := i + 1;
    }
    assert strings[..|strings|] == strings;
    assert mem[..at] == mem[..];
  }

  lemma Extended(
    tab: seq<Located>, before: seq<byte>, more: seq<byte>, strings: seq<SysdepString>, values: seq<seq<byte>>)
    requires AllWellFormed(strings) && AllValid(strings, |values|) && |values| < SEGMENTS_END && |tab| <= |strings|
    requires forall j :: 0 <= j < |tab| ==> Describes(tab[j], before, strings[j], values)
    ensures forall j :: 0 <= j < |tab| ==> Describes(tab[j], before + more, strings[j], values)
  {
    forall j | 0 <= j < |tab| ensures Describes(tab[j], before + more, strings[j], values) {
      assert Describes(tab[j], before, strings[j], values);
      if tab[j].InMemory? {
        var o, n := tab[j].offset, tab[j].length;
        assert (before + more)[o..o + n] == before[o..o + n];
      }
    }
  }

  lemma {:induction false} PackedPrefix(strings: seq<SysdepString>, values: seq<seq<byte>>, k: nat)
    requires AllWellFormed(strings) && AllValid(strings, |values|) && |values| < SEGMENTS_END && k <= |strings|
    ensures |Packed(strings[..k], values)| <= |Packed(strings, values)|
    decreases |strings| - k
  {
    if k < |strings| {
      PackedPrefix(strings, values, k + 1);
      assert strings[..k + 1][..k] == strings[..k];
    } else {
      assert strings[..k] == strings;
    }
  }
}
