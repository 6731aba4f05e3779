/**
 DNS names (sections 3.1 and 4.1.4 of RFC 1035): writing a dotted name as labels, and reading a
 compressed name of a packet back into a bounded destination.
 */
module DnsNames {
  import opened Bytes

  const DOT: byte := 46

  // ----- reading: one turn of the decompression loop -----

  /** Where the loop of the reader stands: done with what it wrote and its result, or at the next length octet. */
  datatype Turn = Done(text: seq<byte>, len: nat) | More(off: nat, out: seq<byte>)

  /** The offset in a pointer; any of the two top bits makes one. */
  function Target(pkt: seq<byte>, off: nat): nat
    requires off + 1 < |pkt|
  {
    FromBE16(pkt[off] % 64, pkt[off + 1])
  }

  /** The loop body at the length octet pkt[off], with out written so far of at most max bytes. */
  function Step(pkt: seq<byte>, off: nat, out: seq<byte>, max: nat): (t: Turn)
    requires off < |pkt| && |out| <= max
    ensures t.Done? ==> t.len <= |t.text| <= max
    ensures t.More? ==> t.off < |pkt| && |t.out| <= max
  {
    var c := pkt[off];
    if c == 0 then
      if out == [] then Done([], 0) else Done(out[..|out| - 1] + [0], |out| - 1)
    else if off + 1 >= |pkt| then Done(out, 0)
    else if c >= 64 then
      if Target(pkt, off) >= |pkt| then Done(out, 0) else More(Target(pkt, off), out)
    else
      var n := Min(c, max - |out|);
      if off + 1 + n >= |pkt| then Done(out, 0) else
      var out' := out + pkt[off + 1..off + 1 + n];
      if |out'| == max then Done(out', max) else More(off + 1 + n, out' + [DOT])
  }

  /** The reader's run from a length octet, if it ends within n turns. */
  function Resolve(pkt: seq<byte>, off: nat, out: seq<byte>, max: nat, n: nat): (r: Option<(seq<byte>, nat)>)
    requires off < |pkt| && |out| <= max
    ensures r.Some? ==> r.value.1 <= |r.value.0| <= max
    decreases n
  {
    if n == 0 then None else
    var t := Step(pkt, off, out, max);
    if t.Done? then Some((t.text, t.len)) else Resolve(pkt, t.off, t.out, max, n - 1)
  }

  lemma ResolveOnce(pkt: seq<byte>, off: nat, out: seq<byte>, max: nat, n: nat)
    requires off < |pkt| && |out| <= max
    ensures var t := Step(pkt, off, out, max);
            Resolve(pkt, off, out, max, n + 1)
            == if t.Done? then Some((t.text, t.len)) else Resolve(pkt, t.off, t.out, max, n)
  {
    hide Step;
  }

  /** The loop of the reader over the destination array, on every packet and offset where it ends. */
  method UncompressName(pkt: seq<byte>, name: nat, dst: array<byte>, dstLen: nat, ghost turns: nat) returns (len: nat)
    requires dstLen <= dst.Length
    requires name < |pkt| ==> Resolve(pkt, name, [], dstLen, turns).Some?
    modifies dst
    ensures name >= |pkt| ==> len == 0 && dst[..] == old(dst[..])
    ensures name < |pkt| ==> var r := Resolve(pkt, name, [], dstLen, turns).value;
                             len == r.1 && dst[..] == r.0 + old(dst[..])[|r.0|..]
  {
    hide Resolve, Step;
    if name >= |pkt| {
      return 0;
    }
    var off: nat, at: nat, done := name, 0, false;
    ghost var was, out: seq<byte>, n: nat := dst[..], [], turns;
    while true
      invariant off < |pkt| && at == |out| <= dstLen
      invariant Resolve(pkt, off, out, dstLen, n).Some?
      invariant Resolve(pkt, off, out, dstLen, n) == Resolve(pkt, name, [], dstLen, turns)
      invariant dst[..] == out + was[at..]
      decreases n
    {
      NoTurns(pkt, off, out, dstLen, n);
      n := n - 1;
      ResolveOnce(pkt, off, out, dstLen, n);
      done, len, off, at, out := TurnOnce(pkt, off, dst, at, dstLen, out, was);
      if done {
        return;
      }
    }
  }

  /** The loop body. */
  method TurnOnce(pkt: seq<byte>, at: nat, dst: array<byte>, written: nat, dstLen: nat, ghost out: seq<byte>,
                  ghost was: seq<byte>)
    returns (done: bool, len: nat, off: nat, at': nat, ghost out': seq<byte>)
    requires at < |pkt| && written == |out| <= dstLen <= |was| && dst[..] == out + was[written..]
    modifies dst
    ensures |out'| <= |was| && dst[..] == out' + was[|out'|..]
    ensures Step(pkt, at, out, dstLen) == if done then Done(out', len) else More(off, out')
    ensures !done ==> off < |pkt| && at' == |out'| <= dstLen
  {
    hide Step;
    StepCases(pkt, at, out, dstLen);
    done, len, off, at', out' := true, 0, at, written, out;
    var chunkLen: nat := pkt[at];
    if chunkLen == 0 {
      len, out' := EndName(dst, written, out, was);
      return;
    }
    var data := at + 1;
    var leeway := dstLen - written;
    if data >= |pkt| {
      return;
    }
    if chunkLen >= 64 {
      off := FromBE16(pkt[data - 1] % 64, pkt[data]);
      done := off >= |pkt|;
      return;
    }
    if chunkLen > leeway {
      chunkLen := leeway;
    }
    if data + chunkLen >= |pkt| {
      return;
    }
    CopyBytes(dst, written, pkt[data..data + chunkLen], out, was);
    out', off, at' := out + pkt[data..data + chunkLen], data + chunkLen, written + chunkLen;
    if leeway == chunkLen {
      len := at';
      return;
    }
    CopyBytes(dst, at', [DOT], out', was);
    done, out', at' := false, out' + [DOT], at' + 1;
  }

  /** Turns the last dot into the final zero octet. */
  method EndName(dst: array<byte>, at: nat, ghost out: seq<byte>, ghost was: seq<byte>)
    returns (len: nat, ghost text: seq<byte>)
    requires at == |out| <= |was| && dst[..] == out + was[at..]
    modifies dst
    ensures len == if out == [] then 0 else |out| - 1
    ensures text == if out == [] then [] else out[..|out| - 1] + [0]
    ensures |text| <= |was| && dst[..] == text + was[|text|..]
  {
    len, text := at, [];
    if at != 0 {
      len := at - 1;
      ghost var d := dst[..];
      dst[len] := 0;
      assert dst[..] == d[len := 0];
      LastByte(out, was);
      text := out[..|out| - 1] + [0];
    }
  }

  /** Copies bytes behind what is written. */
  method CopyBytes(dst: array<byte>, at: nat, s: seq<byte>, ghost out: seq<byte>, ghost was: seq<byte>)
    requires at == |out| && at + |s| <= |was| && dst[..] == out + was[at..]
    modifies dst
    ensures dst[..] == out + s + was[at + |s|..]
  {
    MemCpy(dst, at, s);
    Written(out, was, s);
  }

  lemma StepCases(pkt: seq<byte>, off: nat, out: seq<byte>, max: nat)
    requires off < |pkt| && |out| <= max
    ensures var c, t := pkt[off], Step(pkt, off, out, max);
            && (c == 0 ==> t == if out == [] then Done([], 0) else Done(out[..|out| - 1] + [0], |out| - 1))
            && (c != 0 && off + 1 >= |pkt| ==> t == Done(out, 0))
            && (c >= 64 && off + 1 < |pkt| ==>
                  var p := FromBE16(c % 64, pkt[off + 1]); t == if p >= |pkt| then Done(out, 0) else More(p, out))
            && (0 < c < 64 && off + 1 < |pkt| ==>
                  var n := Min(c, max - |out|);
                  if off + 1 + n >= |pkt| then t == Done(out, 0) else
                  var s := pkt[off + 1..off + 1 + n];
                  t == if |out| + n == max then Done(out + s, max) else More(off + 1 + n, out + s + [DOT]))
  {
  }

  lemma NoTurns(pkt: seq<byte>, off: nat, out: seq<byte>, max: nat, n: nat)
    requires off < |pkt| && |out| <= max && Resolve(pkt, off, out, max, n).Some?
    ensures n > 0
  {
    hide Step;
  }

  lemma LastByte(out: seq<byte>, was: seq<byte>)
    requires 0 < |out| <= |was|
    ensures (out + was[|out|..])[|out| - 1 := 0] == out[..|out| - 1] + [0] + was[|out|..]
  {
  }

  lemma Written(out: seq<byte>, was: seq<byte>, s: seq<byte>)
    requires |out| + |s| <= |was|
    ensures var d := out + was[|out|..];
            d[..|out|] + s + d[|out| + |s|..] == out + s + was[|out| + |s|..]
  {
  }

  // ----- when it ends -----

  /** The octet at off is a pointer into the packet: one hop. */
  function Hop(pkt: seq<byte>, off: nat): (t: Option<nat>)
    requires off < |pkt|
    ensures t.Some? ==> t.value < |pkt|
  {
    if off + 1 < |pkt| && pkt[off] >= 64 && Target(pkt, off) < |pkt| then Some(Target(pkt, off)) else None
  }

  /** A label at off that leaves room for more output: where the next length octet is. */
  function Label(pkt: seq<byte>, off: nat, room: nat): (t: Option<nat>)
    requires off < |pkt|
    ensures t.Some? ==> t.value < |pkt| && off < t.value && t.value - off - 1 < room
  {
    if off + 1 < |pkt| && 0 < pkt[off] < 64 && pkt[off] < room && off + 1 + pkt[off] < |pkt|
    then Some(off + 1 + pkt[off]) else None
  }

  lemma StepIs(pkt: seq<byte>, off: nat, out: seq<byte>, max: nat)
    requires off < |pkt| && |out| <= max
    ensures var t := Step(pkt, off, out, max); var room := max - |out|;
            if Hop(pkt, off).Some? then t == More(Hop(pkt, off).value, out)
            else if Label(pkt, off, room).Some? then
              t.More? && t.off == Label(pkt, off, room).value && |t.out| == |out| + t.off - off
            else t.Done?
  {
  }

  /** No more than k pointers in a row from here, and no more than |pkt| further on, until room bytes are written. */
  predicate Ends(pkt: seq<byte>, off: nat, room: nat, k: nat)
    requires off < |pkt|
    decreases room, k
  {
    if Hop(pkt, off).Some? then k > 0 && Ends(pkt, Hop(pkt, off).value, room, k - 1)
    else if Label(pkt, off, room).Some? then
      var next := Label(pkt, off, room).value;
      Ends(pkt, next, room - (next - off), |pkt|)
    else true
  }

  lemma {:induction false} EndingIsEnough(pkt: seq<byte>, off: nat, out: seq<byte>, max: nat, k: nat)
    requires off < |pkt| && |out| <= max && Ends(pkt, off, max - |out|, k)
    ensures exists n: nat :: Resolve(pkt, off, out, max, n).Some?
    decreases max - |out|, k
  {
    hide Step, Hop, Label, Resolve;
    StepIs(pkt, off, out, max);
    var t := Step(pkt, off, out, max);
    if t.Done? {
      ResolveOnce(pkt, off, out, max, 0);
    } else {
      EndingIsEnough(pkt, t.off, t.out, max, if Hop(pkt, off).Some? then k - 1 else |pkt|);
      var n: nat :| Resolve(pkt, t.off, t.out, max, n).Some?;
      ResolveOnce(pkt, off, out, max, n);
    }
  }

  /** Exactly h hops lead from off to an octet that is no pointer. */
  predicate Hops(pkt: seq<byte>, off: nat, h: nat)
    requires off < |pkt|
    decreases h
  {
    if h == 0 then Hop(pkt, off).None? else Hop(pkt, off).Some? && Hops(pkt, Hop(pkt, off).value, h - 1)
  }

  /** The octets on the way. */
  ghost function Visited(pkt: seq<byte>, off: nat, h: nat): (s: set<nat>)
    requires off < |pkt| && Hops(pkt, off, h)
    decreases h
  {
    if h == 0 then {off} else {off} + Visited(pkt, Hop(pkt, off).value, h - 1)
  }

  lemma {:induction false} HopsUnique(pkt: seq<byte>, off: nat, h: nat, g: nat)
    requires off < |pkt| && Hops(pkt, off, h) && Hops(pkt, off, g)
    ensures h == g
    decreases h
  {
    hide Hop;
    if h > 0 && g > 0 {
      HopsUnique(pkt, Hop(pkt, off).value, h - 1, g - 1);
    }
  }

  lemma {:induction false} VisitedBefore(pkt: seq<byte>, off: nat, h: nat, p: nat)
    requires off < |pkt| && Hops(pkt, off, h) && p in Visited(pkt, off, h)
    ensures p < |pkt| && exists g: nat :: g <= h && Hops(pkt, p, g)
    decreases h
  {
    hide Hop;
    if p != off {
      VisitedBefore(pkt, Hop(pkt, off).value, h - 1, p);
    }
  }

  lemma {:induction false} VisitedSize(pkt: seq<byte>, off: nat, h: nat)
    requires off < |pkt| && Hops(pkt, off, h)
    ensures |Visited(pkt, off, h)| == h + 1
    decreases h
  {
    hide Hop;
    if h > 0 {
      var t := Hop(pkt, off).value;
      VisitedSize(pkt, t, h - 1);
      if off in Visited(pkt, t, h - 1) {
        VisitedBefore(pkt, t, h - 1, off);
        var g: nat :| g <= h - 1 && Hops(pkt, off, g);
        HopsUnique(pkt, off, h, g);
      }
    }
  }

  /** A chain of pointers that gets anywhere has fewer hops than the packet has octets. */
  lemma HopsBound(pkt: seq<byte>, off: nat, h: nat)
    requires off < |pkt| && Hops(pkt, off, h)
    ensures h < |pkt|
  {
    hide Hop, Hops;
    VisitedSize(pkt, off, h);
    forall p | p in Visited(pkt, off, h)
      ensures 0 <= p < |pkt|
    {
      VisitedBefore(pkt, off, h, p);
    }
    BelowSize(Visited(pkt, off, h), |pkt|);
  }

  lemma {:induction false} BelowSize(s: set<nat>, n: nat)
    requires forall p :: p in s ==> p < n
    ensures |s| <= n
  {
    if n > 0 {
      BelowSize(s - {n - 1}, n - 1);
    } else {
      assert s == {};
    }
  }

  lemma {:induction false} EndsHops(pkt: seq<byte>, off: nat, room: nat, k: nat)
    requires off < |pkt| && Ends(pkt, off, room, k)
    ensures exists h: nat :: h <= k && Hops(pkt, off, h)
    decreases k
  {
    hide Hop, Label;
    if Hop(pkt, off).Some? {
      EndsHops(pkt, Hop(pkt, off).value, room, k - 1);
      var h: nat :| h <= k - 1 && Hops(pkt, Hop(pkt, off).value, h);
      assert Hops(pkt, off, h + 1);
    } else {
      assert Hops(pkt, off, 0);
    }
  }

  lemma {:induction false} FewerHopsDo(pkt: seq<byte>, off: nat, room: nat, k: nat, h: nat)
    requires off < |pkt| && Ends(pkt, off, room, k) && Hops(pkt, off, h) && h <= k
    ensures Ends(pkt, off, room, h)
    decreases h
  {
    hide Hop, Label;
    if h > 0 {
      FewerHopsDo(pkt, Hop(pkt, off).value, room, k - 1, h - 1);
    }
  }

  lemma {:induction false} MoreHopsDo(pkt: seq<byte>, off: nat, room: nat, k: nat, k': nat)
    requires off < |pkt| && Ends(pkt, off, room, k) && k <= k'
    ensures Ends(pkt, off, room, k')
    decreases k
  {
    hide Hop, Label;
    if Hop(pkt, off).Some? {
      MoreHopsDo(pkt, Hop(pkt, off).value, room, k - 1, k' - 1);
    }
  }

  lemma {:induction false} EndingIsNeeded(pkt: seq<byte>, off: nat, out: seq<byte>, max: nat, n: nat)
    requires off < |pkt| && |out| <= max && Resolve(pkt, off, out, max, n).Some?
    ensures Ends(pkt, off, max - |out|, |pkt|)
    decreases n
  {
    hide Step, Hop, Label, Resolve;
    NoTurns(pkt, off, out, max, n);
    ResolveOnce(pkt, off, out, max, n - 1);
    StepIs(pkt, off, out, max);
    var t, room := Step(pkt, off, out, max), max - |out|;
    if t.More? {
      EndingIsNeeded(pkt, t.off, t.out, max, n - 1);
      if Hop(pkt, off).Some? {
        EndsHops(pkt, t.off, room, |pkt|);
        var h: nat :| h <= |pkt| && Hops(pkt, t.off, h);
        HopsBound(pkt, t.off, h);
        FewerHopsDo(pkt, t.off, room, |pkt|, h);
        MoreHopsDo(pkt, t.off, room, h, |pkt| - 1);
      }
    }
  }

  /** The reader ends exactly when it never meets more pointers in a row than the packet has octets. */
  lemma EndsExactlyWhen(pkt: seq<byte>, off: nat, max: nat)
    requires off < |pkt|
    ensures (exists n: nat :: Resolve(pkt, off, [], max, n).Some?) <==> Ends(pkt, off, max, |pkt|)
  {
    hide Resolve, Ends;
    if Ends(pkt, off, max, |pkt|) {
      EndingIsEnough(pkt, off, [], max, |pkt|);
    }
    if n: nat :| Resolve(pkt, off, [], max, n).Some? {
      EndingIsNeeded(pkt, off, [], max, n);
    }
  }

  /** It does not end on every packet: a pointer to itself is followed for ever. */
  lemma SelfPointerNeverEnds(pkt: seq<byte>, off: nat, max: nat, n: nat)
    requires off < |pkt| && Hop(pkt, off) == Some(off)
    ensures Resolve(pkt, off, [], max, n).None?
  {
    hide Step, Hop, Resolve, Ends;
    if Resolve(pkt, off, [], max, n).Some? {
      EndingIsNeeded(pkt, off, [], max, n);
      EndsHops(pkt, off, max, |pkt|);
      var h: nat :| h <= |pkt| && Hops(pkt, off, h);
      HopsUnique(pkt, off, h, h - 1);
    }
  }

  /** Every pointer met before the room is used up refers strictly backwards. */
  predicate Backwards(pkt: seq<byte>, off: nat, room: nat)
    requires off < |pkt|
    decreases room, off
  {
    if Hop(pkt, off).Some? then Hop(pkt, off).value < off && Backwards(pkt, Hop(pkt, off).value, room)
    else if Label(pkt, off, room).Some? then
      var next := Label(pkt, off, room).value;
      Backwards(pkt, next, room - (next - off))
    else true
  }

  /** Pointers as section 4.1.4 of RFC 1035 has them, to prior octets only, are enough for it to end. */
  lemma {:induction false} BackwardsEnds(pkt: seq<byte>, off: nat, room: nat)
    requires off < |pkt| && Backwards(pkt, off, room)
    ensures Ends(pkt, off, room, |pkt|) && Ends(pkt, off, room, off)
    decreases room, off
  {
    hide Hop, Label;
    if Hop(pkt, off).Some? {
      var t := Hop(pkt, off).value;
      BackwardsEnds(pkt, t, room);
      MoreHopsDo(pkt, t, room, t, off - 1);
      MoreHopsDo(pkt, t, room, t, |pkt| - 1);
    } else if Label(pkt, off, room).Some? {
      var next := Label(pkt, off, room).value;
      BackwardsEnds(pkt, next, room - (next - off));
    }
  }

  // ----- what a compressed name means -----

  /** The labels of the name at off: labels of at most 63 octets up to a zero octet, or up to a pointer to a name that
      starts before limit, where this one started (section 4.1.4 of RFC 1035). */
  function Name(pkt: seq<byte>, off: nat, limit: nat): (labels: Option<seq<seq<byte>>>)
    requires off < |pkt|
    decreases limit, |pkt| - off
  {
    var c := pkt[off];
    if c == 0 then Some([])
    else if off + 1 >= |pkt| then None
    else if c >= 192 then
      var t := Target(pkt, off);
      if t < limit && t < |pkt| then Name(pkt, t, t) else None
    else if c >= 64 || off + 1 + c >= |pkt| then None
    else
      var rest := Name(pkt, off + 1 + c, limit);
      if rest.Some? then Some([pkt[off + 1..off + 1 + c]] + rest.value) else None
  }

  /** Labels with a dot behind each. */
  function Dotted(labels: seq<seq<byte>>): (s: seq<byte>)
  {
    if labels == [] then [] else labels[0] + [DOT] + Dotted(labels[1..])
  }

  /** What the reader writes and returns for a dotted text: as much as fits of all but its last dot, and a zero octet
      in place of that dot where there is room for one. */
  function Fitted(text: seq<byte>, max: nat): (seq<byte>, nat)
  {
    if text == [] then ([], 0)
    else if |text| > max then (text[..max], max)
    else (text[..|text| - 1] + [0], |text| - 1)
  }

  /** The reader writes the name's meaning, behind what it wrote before. */
  lemma {:induction false} NameResolves(pkt: seq<byte>, off: nat, limit: nat, out: seq<byte>, max: nat)
    requires off < |pkt| && |out| <= max && Name(pkt, off, limit).Some?
    ensures exists n: nat ::
      Resolve(pkt, off, out, max, n) == Some(Fitted(out + Dotted(Name(pkt, off, limit).value), max))
    decreases limit, |pkt| - off
  {
    hide Resolve, Step, Fitted, Dotted, Target;
    var c, labels := pkt[off], Name(pkt, off, limit).value;
    StepCases(pkt, off, out, max);
    if c == 0 {
      NoMoreLabels(out, max);
      ResolveOnce(pkt, off, out, max, 0);
    } else if c >= 192 {
      var t := Target(pkt, off);
      TargetIs(pkt, off);
      NameResolves(pkt, t, t, out, max);
      var n: nat :| Resolve(pkt, t, out, max, n) == Some(Fitted(out + Dotted(labels), max));
      ResolveOnce(pkt, off, out, max, n);
    } else {
      var next, s := off + 1 + c, pkt[off + 1..off + 1 + c];
      var rest := Name(pkt, next, limit).value;
      assert labels == [s] + rest;
      if |out| + c >= max {
        FullAt(out, s, rest, max);
        var m := max - |out|;
        assert pkt[off + 1..off + 1 + m] == s[..m];
        ResolveOnce(pkt, off, out, max, 0);
      } else {
        OneLabel(out, s, rest);
        NameResolves(pkt, next, limit, out + s + [DOT], max);
        var n: nat :| Resolve(pkt, next, out + s + [DOT], max, n) == Some(Fitted(out + Dotted(labels), max));
        ResolveOnce(pkt, off, out, max, n);
      }
    }
  }

  lemma TargetIs(pkt: seq<byte>, off: nat)
    requires off + 1 < |pkt|
    ensures Target(pkt, off) == FromBE16(pkt[off] % 64, pkt[off + 1])
  {
  }

  lemma NoMoreLabels(out: seq<byte>, max: nat)
    requires |out| <= max
    ensures Fitted(out + Dotted([]), max) == if out == [] then ([], 0) else (out[..|out| - 1] + [0], |out| - 1)
  {
    assert out + Dotted([]) == out;
  }

  lemma DottedOnce(s: seq<byte>, rest: seq<seq<byte>>)
    ensures Dotted([s] + rest) == s + [DOT] + Dotted(rest)
  {
    assert ([s] + rest)[1..] == rest;
  }

  lemma OneLabel(out: seq<byte>, s: seq<byte>, rest: seq<seq<byte>>)
    ensures out + Dotted([s] + rest) == out + s + [DOT] + Dotted(rest)
  {
    DottedOnce(s, rest);
    hide Dotted;
    assert out + (s + [DOT] + Dotted(rest)) == out + s + [DOT] + Dotted(rest);
  }

  lemma FullAt(out: seq<byte>, s: seq<byte>, rest: seq<seq<byte>>, max: nat)
    requires |out| <= max <= |out| + |s|
    ensures Fitted(out + Dotted([s] + rest), max) == (out + s[..max - |out|], max)
  {
    OneLabel(out, s, rest);
    assert (out + s + [DOT] + Dotted(rest))[..max] == out + s[..max - |out|];
  }

  // ----- writing -----

  /** strchr up to a dot. */
  function FirstDot(name: seq<byte>): (d: nat)
    ensures d <= |name| && (d < |name| ==> name[d] == DOT)
    ensures forall k :: 0 <= k < d ==> name[k] != DOT
  {
    if name == [] || name[0] == DOT then 0 else 1 + FirstDot(name[1..])
  }

  /** Every label of a dotted name has from lo to hi bytes. */
  predicate LabelSizes(name: seq<byte>, lo: nat, hi: nat)
    decreases |name|
  {
    var d := FirstDot(name);
    lo <= d <= hi && (d < |name| ==> LabelSizes(name[d + 1..], lo, hi))
  }

  /** What the writer appends for a dotted name: it stops in front of a label of more than 127 bytes. */
  function NameBytes(name: seq<byte>): (s: seq<byte>)
    decreases |name|
  {
    var d := FirstDot(name);
    if d > 127 then [] else [d] + (name[..d] + if d == |name| then [0] else NameBytes(name[d + 1..]))
  }

  /** The labels in front of the first empty one, each with its dot: what a reader of the written name sees. */
  function Shown(name: seq<byte>): (s: seq<byte>)
    decreases |name|
  {
    var d := FirstDot(name);
    if d == 0 then [] else name[..d] + [DOT] + if d == |name| then [] else Shown(name[d + 1..])
  }

  /** s lies in pkt at off. */
  predicate LiesAt(pkt: seq<byte>, off: nat, s: seq<byte>)
  {
    off + |s| <= |pkt| && pkt[off..off + |s|] == s
  }

  lemma LiesIn(pkt: seq<byte>, off: nat, a: seq<byte>, b: seq<byte>)
    requires LiesAt(pkt, off, a + b)
    ensures LiesAt(pkt, off, a) && LiesAt(pkt, off + |a|, b)
  {
    assert pkt[off..off + |a|] == (a + b)[..|a|];
    assert pkt[off + |a|..off + |a| + |b|] == (a + b)[|a|..];
  }

  lemma NameBytesOnce(name: seq<byte>)
    ensures var d := FirstDot(name);
            d <= 127 ==> NameBytes(name) == [d] + (name[..d] + if d == |name| then [0] else NameBytes(name[d + 1..]))
  {
    hide FirstDot;
  }

  lemma {:induction false} WrittenNameMeans(pkt: seq<byte>, off: nat, name: seq<byte>, limit: nat)
    requires LabelSizes(name, 0, 63) && LiesAt(pkt, off, NameBytes(name)) && |NameBytes(name)| > 0
    ensures Name(pkt, off, limit).Some? && Dotted(Name(pkt, off, limit).value) == Shown(name)
    decreases |name|
  {
    hide FirstDot, NameBytes, Dotted, Name, Shown;
    var d := FirstDot(name);
    FirstLabel(pkt, off, name);
    ShownOnce(name);
    if d == 0 {
      EndsHere(pkt, off, limit);
      NoLabels();
    } else {
      var next := off + 1 + d;
      if d == |name| {
        EndsHere(pkt, next, limit);
        LabelThenRest(pkt, off, name, limit, []);
        NoLabels();
      } else {
        NameBytesNonempty(name[d + 1..]);
        WrittenNameMeans(pkt, next, name[d + 1..], limit);
        LabelThenRest(pkt, off, name[..d], limit, Name(pkt, next, limit).value);
      }
    }
  }

  lemma ShownOnce(name: seq<byte>)
    ensures FirstDot(name) == 0 ==> Shown(name) == []
    ensures 0 < FirstDot(name) == |name| ==> Shown(name) == name + [DOT] + []
    ensures var d := FirstDot(name); 0 < d < |name| ==> Shown(name) == name[..d] + [DOT] + Shown(name[d + 1..])
  {
    hide FirstDot;
    if FirstDot(name) == |name| {
      assert name[..|name|] == name;
    }
  }

  lemma SizesOnce(name: seq<byte>, lo: nat, hi: nat)
    ensures var d := FirstDot(name);
            LabelSizes(name, lo, hi) <==> lo <= d <= hi && (d < |name| ==> LabelSizes(name[d + 1..], lo, hi))
  {
    hide FirstDot;
  }

  /** Where the first label of a written name is, and what follows it. */
  lemma FirstLabel(pkt: seq<byte>, off: nat, name: seq<byte>)
    requires LabelSizes(name, 0, 63) && LiesAt(pkt, off, NameBytes(name)) && |NameBytes(name)| > 0
    ensures var d := FirstDot(name);
            && off + 1 + d <= |pkt| && pkt[off] == d && LiesAt(pkt, off + 1, name[..d])
            && (d == |name| ==> off + 1 + d < |pkt| && pkt[off + 1 + d] == 0 && LiesAt(pkt, off + 1, name))
            && (d < |name| ==> LiesAt(pkt, off + 1 + d, NameBytes(name[d + 1..])))
  {
    hide FirstDot, NameBytes, LabelSizes;
    var d := FirstDot(name);
    NameBytesOnce(name);
    SizesOnce(name, 0, 63);
    var tail := if d == |name| then [0] else NameBytes(name[d + 1..]);
    LabelLies(pkt, off, d, name[..d], tail);
    if d == |name| {
      assert name[..d] == name;
    }
  }

  lemma LabelLies(pkt: seq<byte>, off: nat, d: byte, first: seq<byte>, tail: seq<byte>)
    requires LiesAt(pkt, off, [d] + (first + tail))
    ensures off < |pkt| && pkt[off] == d && LiesAt(pkt, off + 1, first) && LiesAt(pkt, off + 1 + |first|, tail)
    ensures tail == [0] ==> off + 1 + |first| < |pkt| && pkt[off + 1 + |first|] == 0
  {
    LiesIn(pkt, off, [d], first + tail);
    assert pkt[off] == pkt[off..off + 1][0];
    LiesIn(pkt, off + 1, first, tail);
    if tail == [0] {
      var next := off + 1 + |first|;
      assert pkt[next] == pkt[next..next + 1][0];
    }
  }

  lemma LabelThenRest(pkt: seq<byte>, off: nat, first: seq<byte>, limit: nat, rest: seq<seq<byte>>)
    requires 0 < |first| < 64 && off + 1 + |first| < |pkt|
    requires pkt[off] == |first| && LiesAt(pkt, off + 1, first) && Name(pkt, off + 1 + |first|, limit) == Some(rest)
    ensures Name(pkt, off, limit).Some? && Dotted(Name(pkt, off, limit).value) == first + [DOT] + Dotted(rest)
  {
    hide Dotted;
    assert Name(pkt, off, limit).value == [first] + rest;
    DottedOnce(first, rest);
  }

  lemma NoLabels()
    ensures Dotted([]) == []
  {
  }

  lemma EndsHere(pkt: seq<byte>, off: nat, limit: nat)
    requires off < |pkt| && pkt[off] == 0
    ensures Name(pkt, off, limit) == Some([])
  {
  }

  lemma NameBytesNonempty(name: seq<byte>)
    requires LabelSizes(name, 0, 63)
    ensures |NameBytes(name)| > 0
  {
    hide FirstDot;
  }

  lemma {:induction false} ShownWhole(name: seq<byte>)
    requires LabelSizes(name, 0, 63)
    ensures |Shown(name)| <= |name| + 1
    ensures Shown(name) == name + [DOT] <==> LabelSizes(name, 1, 63)
    decreases |name|
  {
    hide FirstDot, Shown, LabelSizes;
    var d := FirstDot(name);
    ShownOnce(name);
    SizesOnce(name, 0, 63);
    SizesOnce(name, 1, 63);
    if d != 0 && d < |name| {
      var rest := name[d + 1..];
      ShownWhole(rest);
      Behind(name, d + 1, Shown(rest));
      SplitAt(name, d);
    } else if d == |name| {
      assert name + [DOT] + [] == name + [DOT];
    }
  }

  lemma Behind(s: seq<byte>, n: nat, t: seq<byte>)
    requires n <= |s|
    ensures s[..n] + t == s + [DOT] <==> t == s[n..] + [DOT]
  {
    assert s + [DOT] == s[..n] + (s[n..] + [DOT]);
    ConcatParts(s[..n], t);
    ConcatParts(s[..n], s[n..] + [DOT]);
  }

  /** With labels the reader knows, what it shows is the name up to its first empty label. */
  lemma ShortLabelsRead(pkt: seq<byte>, off: nat, name: seq<byte>, max: nat)
    requires LabelSizes(name, 0, 63) && LiesAt(pkt, off, NameBytes(name)) && off < |pkt| && |name| <= max
    ensures exists n: nat :: Resolve(pkt, off, [], max, n) == Some(Fitted(Shown(name), max))
    ensures var r := Fitted(Shown(name), max);
            r.0[..Min(|r.0|, r.1)] == name <==> name == [] || LabelSizes(name, 1, 63)
  {
    hide Resolve, LabelSizes, Shown, FirstDot;
    NameBytesNonempty(name);
    WrittenNameMeans(pkt, off, name, off);
    NameResolves(pkt, off, off, [], max);
    assert [] + Shown(name) == Shown(name);
    ShownWhole(name);
    ShownEmpty(name);
    FittedText(Shown(name), name, max);
  }

  lemma ShownEmpty(name: seq<byte>)
    requires LabelSizes(name, 0, 63)
    ensures |Shown(name)| > 0 ==> Shown(name)[|Shown(name)| - 1] == DOT
    ensures name == [] ==> Shown(name) == []
  {
    hide FirstDot;
    ShownEnds(name);
  }

  lemma {:induction false} ShownEnds(name: seq<byte>)
    ensures |Shown(name)| > 0 ==> Shown(name)[|Shown(name)| - 1] == DOT
    decreases |name|
  {
    hide FirstDot;
    var d := FirstDot(name);
    if 0 < d < |name| {
      ShownEnds(name[d + 1..]);
    }
  }

  lemma FittedText(text: seq<byte>, name: seq<byte>, max: nat)
    requires |text| <= |name| + 1 && |name| <= max && (text == [] || text[|text| - 1] == DOT)
    ensures var r := Fitted(text, max);
            r.0[..Min(|r.0|, r.1)] == name <==> if text == [] then name == [] else text == name + [DOT]
  {
    if text != [] {
      var body := text[..|text| - 1];
      assert text == body + [DOT];
    }
  }

  // ----- labels of 64 bytes and more -----

  /** 64 bytes in a row without a dot. */
  predicate LongRun(s: seq<byte>) {
    exists i: nat :: i + 64 <= |s| && NoDot(s, i, 64)
  }

  predicate NoDot(s: seq<byte>, i: nat, n: nat)
    requires i + n <= |s|
  {
    forall j :: i <= j < i + n ==> s[j] != DOT
  }

  /** Behind a dot, a label that the reader copies makes no such row. */
  lemma NoLongRun(out: seq<byte>, s: seq<byte>)
    requires !LongRun(out) && (out == [] || out[|out| - 1] == DOT) && |s| < 64
    ensures !LongRun(out + s) && !LongRun(out + s + [DOT])
  {
    forall i: nat | i + 64 <= |out + s + [DOT]|
      ensures !NoDot(out + s + [DOT], i, 64)
      ensures i + 64 <= |out + s| ==> !NoDot(out + s, i, 64)
    {
      var t := out + s + [DOT];
      if i + 64 <= |out| {
        assert !NoDot(out, i, 64);
        var j :| i <= j < i + 64 && out[j] == DOT;
        assert t[j] == DOT && (out + s)[j] == DOT;
      } else if i < |out| {
        assert t[|out| - 1] == DOT && (out + s)[|out| - 1] == DOT;
      } else {
        assert t[|out| + |s|] == DOT;
      }
    }
  }

  lemma PrefixRun(s: seq<byte>, n: nat)
    requires n <= |s| && !LongRun(s)
    ensures !LongRun(s[..n])
  {
    forall i: nat | i + 64 <= n
      ensures !NoDot(s[..n], i, 64)
    {
      assert !NoDot(s, i, 64);
      var j :| i <= j < i + 64 && s[j] == DOT;
      assert s[..n][j] == DOT;
    }
  }

  /** Whatever the packet is, no result of the reader has one. */
  lemma {:induction false} ResultHasNoLongRun(pkt: seq<byte>, off: nat, out: seq<byte>, max: nat, n: nat)
    requires off < |pkt| && |out| <= max && Resolve(pkt, off, out, max, n).Some?
    requires !LongRun(out) && (out == [] || out[|out| - 1] == DOT)
    ensures var r := Resolve(pkt, off, out, max, n).value; !LongRun(r.0[..r.1])
    decreases n
  {
    hide Resolve, Step, LongRun;
    NoTurns(pkt, off, out, max, n);
    ResolveOnce(pkt, off, out, max, n - 1);
    StepCases(pkt, off, out, max);
    var t := Step(pkt, off, out, max);
    PrefixRun(out, 0);
    if t.More? {
      if pkt[off] < 64 {
        NoLongRun(out, pkt[off + 1..off + 1 + Min(pkt[off], max - |out|)]);
      }
      ResultHasNoLongRun(pkt, t.off, t.out, max, n - 1);
    } else if pkt[off] == 0 && out != [] {
      PrefixRun(out, |out| - 1);
      assert t.text[..t.len] == out[..|out| - 1];
    } else if t.len == 0 {
      assert t.text[..0] == out[..0];
    } else {
      NoLongRun(out, pkt[off + 1..off + 1 + Min(pkt[off], max - |out|)]);
      assert t.text[..t.len] == t.text;
    }
  }

  lemma {:induction false} LongLabelRuns(name: seq<byte>)
    requires LabelSizes(name, 0, 127) && !LabelSizes(name, 0, 63)
    ensures LongRun(name)
    decreases |name|
  {
    hide LongRun;
    var d := FirstDot(name);
    if d >= 64 {
      RunAt(name, 0);
    } else {
      var rest := name[d + 1..];
      LongLabelRuns(rest);
      RunBehind(name, d + 1);
    }
  }

  lemma RunAt(s: seq<byte>, i: nat)
    requires i + 64 <= |s| && NoDot(s, i, 64)
    ensures LongRun(s)
  {
  }

  lemma RunBehind(s: seq<byte>, n: nat)
    requires n <= |s| && LongRun(s[n..])
    ensures LongRun(s)
  {
    var i: nat :| i + 64 <= |s[n..]| && NoDot(s[n..], i, 64);
    forall j | n + i <= j < n + i + 64
      ensures s[j] != DOT
    {
      assert s[n..][j - n] == s[j];
    }
    assert NoDot(s, n + i, 64);
  }

  /** The reader returns this text. */
  ghost predicate ReadsText(pkt: seq<byte>, off: nat, max: nat, text: seq<byte>)
    requires off < |pkt|
  {
    exists n: nat :: Resolve(pkt, off, [], max, n).Some? && ResultIs(Resolve(pkt, off, [], max, n).value, text)
  }

  predicate ResultIs(r: (seq<byte>, nat), text: seq<byte>) {
    r.1 <= |r.0| && r.0[..r.1] == text
  }

  /** A name with a label of 64 to 127 bytes, which is written, is never read, from this packet or any other: its length
      octet reads as a pointer, whether that loops, leaves the packet or lands in it. */
  lemma LongLabelLost(pkt: seq<byte>, off: nat, name: seq<byte>, max: nat)
    requires off < |pkt| && LabelSizes(name, 0, 127) && !LabelSizes(name, 0, 63)
    ensures !ReadsText(pkt, off, max, name)
  {
    hide Resolve, LongRun, LabelSizes;
    LongLabelRuns(name);
    EmptyHasNoRun();
    if n: nat :| Resolve(pkt, off, [], max, n).Some? && ResultIs(Resolve(pkt, off, [], max, n).value, name) {
      ResultHasNoLongRun(pkt, off, [], max, n);
    }
  }

  lemma EmptyHasNoRun()
    ensures !LongRun([])
  {
  }

  /** The name comes back from the packet it was written into if and only if it is empty or each label has 1 to 63 bytes. */
  lemma NameRoundTrip(pkt: seq<byte>, off: nat, name: seq<byte>, max: nat)
    requires LabelSizes(name, 0, 127) && LiesAt(pkt, off, NameBytes(name)) && off < |pkt| && |name| <= max
    ensures ReadsText(pkt, off, max, name) <==> name == [] || LabelSizes(name, 1, 63)
  {
    hide Resolve, LongRun, NameBytes, LiesAt, Fitted, Shown;
    if LabelSizes(name, 0, 63) {
      ShortLabelsRead(pkt, off, name, max);
      var r := Fitted(Shown(name), max);
      var n: nat :| Resolve(pkt, off, [], max, n) == Some(r);
      if m: nat :| Resolve(pkt, off, [], max, m).Some? && ResultIs(Resolve(pkt, off, [], max, m).value, name) {
        SameResult(pkt, off, [], max, n, m);
      }
    } else {
      LongLabelLost(pkt, off, name, max);
      NarrowSizes(name);
      EmptyName();
    }
  }

  lemma EmptyName()
    ensures LabelSizes([], 0, 63)
  {
  }

  lemma {:induction false} NarrowSizes(name: seq<byte>)
    ensures LabelSizes(name, 1, 63) ==> LabelSizes(name, 0, 63)
    decreases |name|
  {
    hide FirstDot;
    if FirstDot(name) < |name| {
      NarrowSizes(name[FirstDot(name) + 1..]);
    }
  }

  lemma {:induction false} SameResult(pkt: seq<byte>, off: nat, out: seq<byte>, max: nat, n: nat, m: nat)
    requires off < |pkt| && |out| <= max
    requires Resolve(pkt, off, out, max, n).Some? && Resolve(pkt, off, out, max, m).Some?
    ensures Resolve(pkt, off, out, max, n) == Resolve(pkt, off, out, max, m)
    decreases n
  {
    hide Resolve, Step;
    NoTurns(pkt, off, out, max, n);
    NoTurns(pkt, off, out, max, m);
    ResolveOnce(pkt, off, out, max, n - 1);
    ResolveOnce(pkt, off, out, max, m - 1);
    var t := Step(pkt, off, out, max);
    if t.More? {
      SameResult(pkt, t.off, t.out, max, n - 1, m - 1);
    }
  }
}
