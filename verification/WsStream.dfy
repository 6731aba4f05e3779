/**
 Websocket streams: frames on the wire, messages cut into frames, and the
 independence of delivery from fragmentation and from segmentation.
 */
module WsStream {
  import opened Bytes
  import opened WsCodec

  /** The three length forms of section 5.2 of RFC 6455. */
  datatype LenForm = Short | Medium | Long

  datatype Frame = Frame(flags: byte, mask: Option<seq<byte>>, form: LenForm, payload: seq<byte>) {
    predicate Valid() {
      && (mask.Some? ==> |mask.value| == 4)
      && match form
         case Short => |payload| < 126
         case Medium => |payload| < 0x1_0000
         case Long => |payload| + 14 < WORD64
    }

    function HeaderLen(): nat {
      (match form case Short => 2 case Medium => 4 case Long => 10) + (if mask.Some? then 4 else 0)
    }

    function LengthBytes(): (r: seq<byte>)
      requires Valid()
      ensures |r| + 1 == HeaderLen() - (if mask.Some? then 4 else 0)
    {
      var bit := if mask.Some? then 128 else 0;
      match form
      case Short => [bit + |payload|]
      case Medium => [bit + 126] + BE16(|payload|)
      case Long => [bit + 127] + BE32(|payload| / WORD32) + BE32(|payload| % WORD32)
    }

    function HeaderBytes(): (r: seq<byte>)
      requires Valid()
      ensures |r| == HeaderLen()
    {
      [flags] + LengthBytes() + (if mask.Some? then mask.value else [])
    }

    function WirePayload(): (r: seq<byte>)
      requires Valid()
      ensures |r| == |payload|
    {
      if mask.Some? then Masked(payload, mask.value) else payload
    }

    function Wire(): (r: seq<byte>)
      requires Valid()
      ensures |r| == HeaderLen() + |payload|
    {
      HeaderBytes() + WirePayload()
    }
  }

  /** The length bytes of a header sit at offset 1. */
  lemma LengthBytesAt(f: Frame, b: seq<byte>)
    requires f.Valid() && f.HeaderBytes() <= b
    ensures |b| >= f.HeaderLen() >= 2 && b[0] == f.flags
    ensures var lb := f.LengthBytes(); 1 + |lb| <= |b| && b[1..1 + |lb|] == lb
  {
    var hb, lb := f.HeaderBytes(), f.LengthBytes();
    assert hb[1..1 + |lb|] == lb;
    assert b[..|hb|] == hb;
    assert b[1..1 + |lb|] == b[..|hb|][1..1 + |lb|];
  }

  lemma LongLength(lb: seq<byte>, first: byte, n: nat)
    requires n < WORD64
    requires lb == [first] + BE32(n / WORD32) + BE32(n % WORD32)
    ensures |lb| == 9 && lb[0] == first
    ensures FromBE32(lb[1], lb[2], lb[3], lb[4]) * WORD32 + FromBE32(lb[5], lb[6], lb[7], lb[8]) == n
  {
    var hi, lo := BE32(n / WORD32), BE32(n % WORD32);
    Octets32(n / WORD32);
    Octets32(n % WORD32);
    assert lb[1] == hi[0] && lb[2] == hi[1] && lb[3] == hi[2] && lb[4] == hi[3];
    assert lb[5] == lo[0] && lb[6] == lo[1] && lb[7] == lo[2] && lb[8] == lo[3];
  }

  /** The receiver reads back the header of a frame, whatever follows it. */
  lemma HeaderRoundTrip(f: Frame, b: seq<byte>)
    requires f.Valid() && f.HeaderBytes() <= b
    ensures ParseHeader(b) == Header(f.HeaderLen(), if f.mask.Some? then 4 else 0, |f.payload|) && b[0] == f.flags
  {
    hide FromBE32, Frame.HeaderBytes;
    LengthBytesAt(f, b);
    var lb := f.LengthBytes();
    Bytewise(b, lb);
    if f.form == Long {
      LongLength(lb, lb[0], |f.payload|);
    }
  }

  lemma Bytewise(b: seq<byte>, lb: seq<byte>)
    requires 1 + |lb| <= |b| && b[1..1 + |lb|] == lb
    ensures forall k :: 0 <= k < |lb| ==> lb[k] == b[1 + k]
  {
    forall k | 0 <= k < |lb|
      ensures lb[k] == b[1 + k]
    {
      assert lb[k] == b[1..1 + |lb|][k];
    }
  }

  lemma MaskAt(f: Frame, b: seq<byte>)
    requires f.Valid() && f.HeaderBytes() <= b && f.mask.Some?
    ensures b[f.HeaderLen() - 4..f.HeaderLen()] == f.mask.value
  {
    var hb := f.HeaderBytes();
    assert hb[|hb| - 4..] == f.mask.value;
    assert b[..|hb|] == hb;
  }

  lemma FrameRoundTrip(f: Frame, more: seq<byte>)
    requires f.Valid()
    ensures var b := f.Wire() + more;
            var h := ParseHeader(b);
            && h == Header(f.HeaderLen(), if f.mask.Some? then 4 else 0, |f.payload|)
            && FrameReady(h, |b|) && h.headerLen + h.dataLen < WORD64
            && PayloadOf(b, h) == f.payload && b[0] == f.flags
            && b[h.headerLen + h.dataLen..] == more
  {
    var b := f.Wire() + more;
    var n := f.HeaderLen();
    assert f.HeaderBytes() <= b;
    HeaderRoundTrip(f, b);
    assert b[n..n + |f.payload|] == f.WirePayload();
    if f.mask.Some? {
      MaskAt(f, b);
      MaskedTwice(f.payload, f.mask.value);
    }
  }

  /** Header length, from the second byte alone. */
  function HeaderLenFrom(second: byte): nat
  {
    (if second % 128 < 126 then 2 else if second % 128 == 126 then 4 else 10) + (if second >= 128 then 4 else 0)
  }

  lemma SecondByte(f: Frame)
    requires f.Valid()
    ensures var hb := f.HeaderBytes(); hb[0] == f.flags && HeaderLenFrom(hb[1]) == f.HeaderLen() == |hb|
  {
    var hb, lb := f.HeaderBytes(), f.LengthBytes();
    LengthBytesAt(f, hb);
    assert hb[1] == hb[1..1 + |lb|][0] == lb[0];
  }

  lemma CutHeaderNotReady(p: seq<byte>)
    requires |p| >= 2 ==> |p| < HeaderLenFrom(p[1])
    ensures !FrameReady(ParseHeader(p), |p|)
  {
  }

  /** No proper prefix of a frame is ready. */
  lemma PrefixNotReady(f: Frame, p: seq<byte>)
    requires f.Valid() && p <= f.Wire() && |p| < |f.Wire()|
    ensures !FrameReady(ParseHeader(p), |p|)
    ensures |p| > 0 ==> p[0] == f.flags
  {
    var hb := f.HeaderBytes();
    assert hb == f.Wire()[..|hb|];
    SecondByte(f);
    hide Frame.Wire, Frame.HeaderBytes, Frame.HeaderLen, ParseHeader, HeaderLenFrom;
    if |p| > 0 {
      assert p[0] == f.Wire()[0] == hb[0];
    }
    if |p| >= |hb| {
      assert p[..|hb|] == f.Wire()[..|hb|];
      HeaderRoundTrip(f, p);
    } else {
      if |p| >= 2 {
        assert p[1] == f.Wire()[1] == hb[1];
      }
      CutHeaderNotReady(p);
    }
  }

  // ----- what a stream of frames means -----

  /** The message under reassembly: the flag byte kept in the buffer and the payload so far. */
  datatype Open = Closed | Open(flag: byte, data: seq<byte>)

  function Rep(st: Open): seq<byte>
    requires st.Open? ==> |st.data| < WORD32
  {
    if st.Open? then Partial(st.flag, st.data) else []
  }

  predicate ValidOpen(st: Open)
  {
    st.Open? ==> |st.data| < WORD32 && Opcode(st.flag) == 0
  }

  /**
   Frame f may follow in state st: continuation frames exactly inside a message; a
   reassembled message stays below 4 GiB; and a frame that opens a message has a header of at
   least five bytes, which masking guarantees (see FirstFragmentIntact).
   */
  predicate Fits(f: Frame, st: Open)
  {
    && f.Valid() && ValidOpen(st)
    && if st.Open? then Opcode(f.flags) == 0 && |st.data| + |f.payload| < WORD32
       else Opcode(f.flags) != 0
            && (IsFirstFragment(f.flags) ==> f.HeaderLen() >= 5 && |f.payload| < WORD32)
  }

  function After(f: Frame, st: Open): Open
  {
    if st.Open? then
      if Fin(f.flags) then Closed else Open(st.flag, st.data + f.payload)
    else if IsFirstFragment(f.flags) then Open(f.flags - Opcode(f.flags), f.payload)
    else Closed
  }

  function Raised(f: Frame, st: Open): seq<Event>
  {
    if st.Open? then
      if Fin(f.flags) then [Incoming(f.flags, st.data + f.payload)] else []
    else if IsFirstFragment(f.flags) then []
    else [Incoming(f.flags, f.payload)]
  }

  predicate WellFormed(frames: seq<Frame>, st: Open)
  {
    frames != [] ==> Fits(frames[0], st) && WellFormed(frames[1..], After(frames[0], st))
  }

  /** The events of a whole stream of frames. */
  function Meaning(frames: seq<Frame>, st: Open): seq<Event>
  {
    if frames == [] then [] else Raised(frames[0], st) + Meaning(frames[1..], After(frames[0], st))
  }

  function WireAll(frames: seq<Frame>, st: Open): seq<byte>
    requires WellFormed(frames, st)
  {
    if frames == [] then [] else frames[0].Wire() + WireAll(frames[1..], After(frames[0], st))
  }

  lemma StepOnFrame(f: Frame, st: Open, more: seq<byte>)
    requires Fits(f, st)
    ensures ValidOpen(After(f, st))
    ensures Step(Rep(st) + f.Wire() + more, false) == Delivered(Raised(f, st), Rep(After(f, st)) + more)
    ensures KeepsPayload(Rep(st) + f.Wire() + more)
  {
    var raw := f.Wire() + more;
    FrameRoundTrip(f, more);
    assert Rep(st) + f.Wire() + more == Rep(st) + raw;
    hide ParseHeader, PayloadOf, Absorb, Base, Frame.Wire, Frame.HeaderBytes;
    AbsorbFrame(f, st, raw, more);
    assert (Rep(st) + raw)[|Rep(st)|..] == raw;
    if st.Closed? {
      assert Rep(st) + raw == raw;
    }
  }

  /** The same with the raw bytes of the frame left abstract. */
  lemma AbsorbFrame(f: Frame, st: Open, raw: seq<byte>, more: seq<byte>)
    requires Fits(f, st) && raw != [] && raw[0] == f.flags
    ensures ValidOpen(After(f, st)) && Base(Rep(st) + raw, false) == |Rep(st)|
    ensures Absorb(Rep(st) + raw, false, f.flags, f.HeaderLen(), f.payload, more)
            == Delivered(Raised(f, st), Rep(After(f, st)) + more)
    ensures Reassembling(Rep(st) + raw, false) && IsFirstFragment((Rep(st) + raw)[0]) ==> st.Closed? && f.HeaderLen() >= 5
  {
    hide LE32, FromLE32, Frame.Valid;
    if st.Open? {
      PartialShape(st.flag, st.data, raw);
    } else {
      assert Rep(st) + raw == raw;
      if IsFirstFragment(f.flags) {
        var all := f.payload + more;
        assert Stomped(all, 5 - f.HeaderLen()) == all;
        var flag := f.flags - Opcode(f.flags);
        assert [flag] + LE32(|f.payload|) + all == Partial(flag, f.payload) + more;
      } else {
        assert Rep(Closed) + more == more;
      }
    }
  }

  lemma StepOnPrefix(f: Frame, st: Open, p: seq<byte>)
    requires Fits(f, st) && p <= f.Wire() && |p| < |f.Wire()|
    ensures Step(Rep(st) + p, false).Incomplete?
  {
    PrefixNotReady(f, p);
    if st.Open? {
      PartialShape(st.flag, st.data, p);
    } else {
      assert Rep(st) + p == p;
      assert p[Base(p, false)..] == p;
    }
  }

  lemma StepOnNothing(st: Open)
    requires ValidOpen(st)
    ensures Step(Rep(st), false).Incomplete?
  {
    assert Rep(st) == Rep(st) + [];
    if st.Open? {
      PartialShape(st.flag, st.data, []);
    }
  }

  // ----- any prefix of a stream, in any segmentation -----

  /** What the first bytes w of a stream amount to. */
  datatype Progress = Progress(events: seq<Event>, st: Open, tail: seq<byte>)

  /** Takes off the frames that lie wholly within w. */
  function Seen(frames: seq<Frame>, st: Open, w: seq<byte>): Progress
    requires WellFormed(frames, st)
  {
    if frames != [] && |frames[0].Wire()| <= |w| then
      var p := Seen(frames[1..], After(frames[0], st), w[|frames[0].Wire()|..]);
      p.(events := Raised(frames[0], st) + p.events)
    else Progress([], st, w)
  }

  /** The message under reassembly after all the frames. */
  function Last(frames: seq<Frame>, st: Open): Open
  {
    if frames == [] then st else Last(frames[1..], After(frames[0], st))
  }

  lemma {:induction false} SeenAll(frames: seq<Frame>, st: Open)
    requires WellFormed(frames, st)
    ensures var p := Seen(frames, st, WireAll(frames, st));
            p == Progress(Meaning(frames, st), Last(frames, st), [])
  {
    if frames != [] {
      SeenAll(frames[1..], After(frames[0], st));
    }
  }

  /** One run of the delivery loop over a prefix w of the wire form of frames. */
  lemma {:induction false} DrainPrefix(frames: seq<Frame>, st: Open, w: seq<byte>)
    requires WellFormed(frames, st) && ValidOpen(st) && w <= WireAll(frames, st)
    ensures var p := Seen(frames, st, w);
            ValidOpen(p.st) && Drain(Rep(st) + w, false) == Some((p.events, Rep(p.st) + p.tail))
    ensures Clean(Rep(st) + w)
    decreases |frames|
  {
    hide Frame.Wire, Frame.HeaderBytes, Step, KeepsPayload, Undecoded, After, Raised, Rep;
    if frames == [] {
      assert Rep(st) + w == Rep(st);
      StepOnNothing(st);
    } else if |frames[0].Wire()| <= |w| {
      var f, rest, st' := frames[0], frames[1..], After(frames[0], st);
      var w' := w[|f.Wire()|..];
      assert WireAll(frames, st) == f.Wire() + WireAll(rest, st');
      assert w == f.Wire() + w';
      assert Rep(st) + w == Rep(st) + f.Wire() + w';
      StepOnFrame(f, st, w');
      DrainPrefix(rest, st', w');
    } else {
      StepOnPrefix(frames[0], st, w);
    }
  }

  /** Appending each segment to the buffer and running the delivery loop. */
  function Receive(b: seq<byte>, segments: seq<seq<byte>>): Option<(seq<Event>, seq<byte>)>
  {
    if segments == [] then Some(([], b))
    else
      var n := |segments| - 1;
      match Receive(b, segments[..n])
      case None => None
      case Some((events, left)) =>
        match Drain(left + segments[n], false)
        case None => None
        case Some((more, last)) => Some((events + more, last))
  }

  /**
   Segmentation independence: the bytes of a well-formed stream, cut into any segments and
   received up to any point, raise the events of the frames that have arrived whole, and
   leave the representation of the open message followed by the raw bytes of the frame
   still incomplete.
   */
  lemma {:induction false} SegmentationIndependent(frames: seq<Frame>, segments: seq<seq<byte>>)
    requires WellFormed(frames, Closed) && Concat(segments) <= WireAll(frames, Closed)
    ensures var p := Seen(frames, Closed, Concat(segments));
            ValidOpen(p.st) && Receive([], segments) == Some((p.events, Rep(p.st) + p.tail))
    decreases |segments|
  {
    hide Seen, Clean, Rep, WellFormed, WireAll, Receive, Drain, Concat;
    var w := Concat(segments);
    DrainWhole(frames, w);
    ReceiveOnce([], segments);
    if segments == [] {
      NothingSeen(frames);
    } else {
      var n := |segments| - 1;
      var front, last := segments[..n], segments[n];
      ConcatSnoc(front, last);
      assert front + [last] == segments;
      assert w == Concat(front) + last;
      DrainWhole(frames, Concat(front));
      SegmentationIndependent(frames, front);
      DrainExtends(Concat(front), last);
    }
  }

  lemma ReceiveOnce(b: seq<byte>, segments: seq<seq<byte>>)
    ensures segments == [] ==> Receive(b, segments) == Some(([], b)) && Concat(segments) == []
    ensures segments != [] ==>
              var n := |segments| - 1;
              var r := Receive(b, segments[..n]);
              Receive(b, segments)
              == if r.None? then None else
                 var q := Drain(r.value.1 + segments[n], false);
                 if q.None? then None else Some((r.value.0 + q.value.0, q.value.1))
  {
    hide Drain;
  }

  lemma DrainWhole(frames: seq<Frame>, w: seq<byte>)
    requires WellFormed(frames, Closed) && w <= WireAll(frames, Closed)
    ensures var p := Seen(frames, Closed, w);
            ValidOpen(p.st) && Drain(w, false) == Some((p.events, Rep(p.st) + p.tail))
    ensures Clean(w)
  {
    DrainPrefix(frames, Closed, w);
    assert Rep(Closed) + w == w;
  }

  lemma NothingSeen(frames: seq<Frame>)
    requires WellFormed(frames, Closed)
    ensures Seen(frames, Closed, []) == Progress([], Closed, [])
    ensures Rep(Closed) + [] == []
  {
  }

  // ----- messages cut into fragments -----

  datatype Fragment = Fragment(rsv: nat, mask: Option<seq<byte>>, form: LenForm, payload: seq<byte>)

  datatype Message = Message(opcode: nat, fragments: seq<Fragment>)

  predicate ValidFragment(g: Fragment)
  {
    g.rsv < 8 && Frame(0, g.mask, g.form, g.payload).Valid()
  }

  function FlagsOf(g: Fragment, last: bool, opcode: nat): byte
    requires g.rsv < 8 && opcode < 16
  {
    (if last then 0x80 else 0) + g.rsv * 16 + opcode
  }

  lemma FlagsMean(g: Fragment, last: bool, opcode: nat)
    requires g.rsv < 8 && opcode < 16
    ensures Opcode(FlagsOf(g, last, opcode)) == opcode && Fin(FlagsOf(g, last, opcode)) == last
    ensures var flag := FlagsOf(g, last, opcode); Opcode(flag - Opcode(flag)) == 0
  {
  }

  /** The first frame carries the opcode, the last one the FIN bit. */
  function FramesOf(gs: seq<Fragment>, opcode: nat): seq<Frame>
    requires opcode < 16 && forall i | 0 <= i < |gs| :: ValidFragment(gs[i])
  {
    if gs == [] then []
    else
      assert ValidFragment(gs[0]);
      [Frame(FlagsOf(gs[0], |gs| == 1, opcode), gs[0].mask, gs[0].form, gs[0].payload)] + FramesOf(gs[1..], 0)
  }

  function Payload(gs: seq<Fragment>): seq<byte>
  {
    if gs == [] then [] else gs[0].payload + Payload(gs[1..])
  }

  /** Masked fragments (section 5.3 of RFC 6455); a message cut in two or more stays below 4 GiB. */
  predicate ValidMessage(m: Message)
  {
    && 0 < m.opcode < 16 && m.fragments != []
    && (forall i | 0 <= i < |m.fragments| :: ValidFragment(m.fragments[i]))
    && (|m.fragments| > 1 ==> |Payload(m.fragments)| < WORD32 && m.fragments[0].mask.Some?)
  }

  /** The event a message raises: its whole payload, under the flags of its last frame. */
  function EventOf(m: Message): Event
    requires ValidMessage(m)
  {
    var n := |m.fragments| - 1;
    Incoming(FlagsOf(m.fragments[n], true, if n == 0 then m.opcode else 0), Payload(m.fragments))
  }

  function FramesOfAll(ms: seq<Message>): seq<Frame>
    requires forall i | 0 <= i < |ms| :: ValidMessage(ms[i])
  {
    if ms == [] then []
    else
      assert ValidMessage(ms[0]);
      FramesOf(ms[0].fragments, ms[0].opcode) + FramesOfAll(ms[1..])
  }

  function EventsOf(ms: seq<Message>): seq<Event>
    requires forall i | 0 <= i < |ms| :: ValidMessage(ms[i])
  {
    if ms == [] then [] else [EventOf(ms[0])] + EventsOf(ms[1..])
  }

  lemma {:induction false} ContinuationsMean(gs: seq<Fragment>, st: Open, rest: seq<Frame>)
    requires gs != [] && (forall i | 0 <= i < |gs| :: ValidFragment(gs[i]))
    requires st.Open? && ValidOpen(st) && |st.data| + |Payload(gs)| < WORD32
    requires WellFormed(rest, Closed)
    ensures WellFormed(FramesOf(gs, 0) + rest, st)
    ensures Meaning(FramesOf(gs, 0) + rest, st)
            == [Incoming(FlagsOf(gs[|gs| - 1], true, 0), st.data + Payload(gs))] + Meaning(rest, Closed)
    ensures Last(FramesOf(gs, 0) + rest, st) == Last(rest, Closed)
    decreases |gs|
  {
    hide LE32;
    var frames := FramesOf(gs, 0);
    var f := frames[0];
    FlagsMean(gs[0], |gs| == 1, 0);
    assert ValidFragment(gs[0]) && f.Valid();
    assert (frames + rest)[0] == f;
    assert (frames + rest)[1..] == FramesOf(gs[1..], 0) + rest;
    hide FlagsOf, Opcode, Fin;
    if |gs| == 1 {
      assert FramesOf(gs[1..], 0) + rest == rest;
      assert Payload(gs) == gs[0].payload;
    } else {
      ContinuationsMean(gs[1..], After(f, st), rest);
      assert (st.data + gs[0].payload) + Payload(gs[1..]) == st.data + Payload(gs);
      assert Raised(f, st) == [];
    }
  }

  /** A message, in however many fragments, is well formed on the wire and raises exactly its own event. */
  lemma MessageMeans(m: Message, rest: seq<Frame>)
    requires ValidMessage(m) && WellFormed(rest, Closed)
    ensures var frames := FramesOf(m.fragments, m.opcode) + rest;
            && WellFormed(frames, Closed) && Meaning(frames, Closed) == [EventOf(m)] + Meaning(rest, Closed)
            && Last(frames, Closed) == Last(rest, Closed)
  {
    var gs := m.fragments;
    var frames := FramesOf(gs, m.opcode);
    var f := frames[0];
    FlagsMean(gs[0], |gs| == 1, m.opcode);
    assert ValidFragment(gs[0]) && f.Valid();
    assert (frames + rest)[0] == f;
    assert (frames + rest)[1..] == FramesOf(gs[1..], 0) + rest;
    hide FlagsOf, Opcode, Fin;
    if |gs| == 1 {
      assert FramesOf(gs[1..], 0) + rest == rest;
      assert Payload(gs) == gs[0].payload;
    } else {
      assert gs[0].payload + Payload(gs[1..]) == Payload(gs);
      ContinuationsMean(gs[1..], After(f, Closed), rest);
      assert Raised(f, Closed) == [];
    }
  }

  lemma {:induction false} MessagesMean(ms: seq<Message>)
    requires forall i | 0 <= i < |ms| :: ValidMessage(ms[i])
    ensures WellFormed(FramesOfAll(ms), Closed) && Meaning(FramesOfAll(ms), Closed) == EventsOf(ms)
    ensures Last(FramesOfAll(ms), Closed) == Closed
  {
    if ms != [] {
      MessagesMean(ms[1..]);
      MessageMeans(ms[0], FramesOfAll(ms[1..]));
    }
  }

  /** Messages in any fragmentation and any segmentation: the handler sees exactly the messages, in order, and nothing
      of them is left in the buffer. */
  lemma MessagesDelivered(ms: seq<Message>, segments: seq<seq<byte>>)
    requires forall i | 0 <= i < |ms| :: ValidMessage(ms[i])
    ensures WellFormed(FramesOfAll(ms), Closed)
    ensures Concat(segments) == WireAll(FramesOfAll(ms), Closed)
            ==> Receive([], segments) == Some((EventsOf(ms), []))
  {
    MessagesMean(ms);
    var frames := FramesOfAll(ms);
    if Concat(segments) == WireAll(frames, Closed) {
      SegmentationIndependent(frames, segments);
      SeenAll(frames, Closed);
      assert Rep(Closed) + [] == [];
    }
  }

  // ----- where the code does not meet its intent -----

  /** The bytes that clearing the size field overwrites are zero already, or there are none (n <= 0). */
  predicate StompHarmless(data: seq<byte>, n: int)
  {
    forall i :: 0 <= i < |data| && i < n ==> data[i] == 0
  }

  /**
   A frame opening a message leaves its payload in the buffer if and only if the size field
   hits nothing: the header has five or more bytes (it is masked, or has a 64-bit length), or the
   bytes hit are zero already.
   */
  lemma FirstFragmentIntact(f: Frame, more: seq<byte>)
    requires f.Valid() && IsFirstFragment(f.flags) && |f.payload| < WORD32
    ensures Step(f.Wire() + more, false) == Delivered([], Partial(f.flags - Opcode(f.flags), f.payload) + more)
            <==> StompHarmless(f.payload + more, 5 - f.HeaderLen())
    ensures f.mask.Some? || f.form.Long? ==> StompHarmless(f.payload + more, 5 - f.HeaderLen())
  {
    hide Step, Frame.Wire, Frame.Valid, LE32, Partial, Stomped, IsFirstFragment;
    StepOnFirstFragment(f, more);
    var all, flag := f.payload + more, f.flags - Opcode(f.flags);
    PartialSplit(flag, f.payload, more);
    StompedSame([flag] + LE32(|f.payload|), all, 5 - f.HeaderLen());
  }

  lemma PartialSplit(flag: byte, data: seq<byte>, more: seq<byte>)
    requires |data| < WORD32
    ensures Partial(flag, data) + more == [flag] + LE32(|data|) + (data + more)
  {
  }

  lemma StepOnFirstFragment(f: Frame, more: seq<byte>)
    requires f.Valid() && IsFirstFragment(f.flags) && |f.payload| < WORD32
    ensures Step(f.Wire() + more, false)
            == Delivered([], [f.flags - Opcode(f.flags)] + LE32(|f.payload|)
                             + Stomped(f.payload + more, 5 - f.HeaderLen()))
  {
    hide Frame.HeaderLen, ParseHeader, PayloadOf, Frame.Wire, Frame.HeaderBytes, Base, LE32, Stomped, FrameReady;
    hide Frame.Valid;
    var raw := f.Wire() + more;
    FrameRoundTrip(f, more);
    FirstFragmentAtFront(raw);
    assert raw[0..] == raw;
  }

  lemma StompedSame(pre: seq<byte>, all: seq<byte>, n: int)
    ensures pre + Stomped(all, n) == pre + all <==> StompHarmless(all, n)
  {
    var st := Stomped(all, n);
    if pre + st == pre + all {
      assert st == (pre + st)[|pre|..] == (pre + all)[|pre|..] == all;
      forall i | 0 <= i < |all| && i < n
        ensures all[i] == 0
      {
        assert st[i] == 0;
      }
    }
    if StompHarmless(all, n) {
      assert st == all;
    }
  }

  /** An unmasked fragment of three bytes loses all of them. */
  lemma UnmaskedFragmentLost()
    ensures var f := Frame(0x01, None, Short, [0x61, 0x62, 0x63]);
            f.Valid() && Step(f.Wire(), false) == Delivered([], Partial(0, [0, 0, 0]))
  {
    var f := Frame(0x01, None, Short, [0x61, 0x62, 0x63]);
    StepOnFirstFragment(f, []);
    hide Step, Frame.Wire;
    assert f.Wire() + [] == f.Wire();
    assert Stomped(f.payload + [], 3) == [0, 0, 0];
    assert [0] + LE32(3) + [0, 0, 0] == Partial(0, [0, 0, 0]);
  }

  /**
   The byte that the test for a close frame comes to: the first of what follows an unfragmented frame; the first of
   a fragment's payload; and, once a message is complete, the one that has come to where its last frame began.
   Where nothing is moved it is the one that was there before.
   */
  function TestedByte(f: Frame, st: Open, more: seq<byte>): byte
    requires Fits(f, st)
  {
    var moved, base := f.payload + more, |Rep(st)|;
    if st.Closed? && !IsFirstFragment(f.flags) then if more != [] then more[0] else f.flags
    else if Fin(f.flags) && base < |more| then more[base]
    else if moved != [] then moved[0]
    else if st.Closed? then f.HeaderBytes()[5]
    else f.flags
  }

  /**
   The test that should close the connection on a close frame reads the buffer after it was shifted, so it tests
   another byte than the frame's. (A fragmented text starting with 'H' closes the connection.)
   */
  lemma CloseTestReads(f: Frame, st: Open, more: seq<byte>)
    requires Fits(f, st)
    ensures Step(Rep(st) + f.Wire() + more, false).Delivered?
    ensures StepCloseByte(Rep(st) + f.Wire() + more, false) == Some(TestedByte(f, st, more))
  {
    hide ParseHeader, PayloadOf, Absorb, Base, Frame.Wire, Frame.HeaderBytes, Frame.HeaderLen, Step, CloseByte, TestedByte;
    hide Rep, LE32, IsFirstFragment, After, Raised;
    var raw := f.Wire() + more;
    StepOnFrame(f, st, more);
    FrameRoundTrip(f, more);
    assert Rep(st) + f.Wire() + more == Rep(st) + raw;
    CloseByteOfFrame(f, st, raw, more);
    assert (Rep(st) + raw)[|Rep(st)|..] == raw;
  }

  lemma CloseByteOfFrame(f: Frame, st: Open, raw: seq<byte>, more: seq<byte>)
    requires Fits(f, st) && raw == f.Wire() + more && raw[0] == f.flags
    ensures Base(Rep(st) + raw, false) == |Rep(st)|
    ensures CloseByte(Rep(st) + raw, false, f.flags, f.HeaderLen(), f.payload, more) == Some(TestedByte(f, st, more))
  {
    hide LE32, FromLE32, Frame.Valid;
    if st.Open? {
      PartialShape(st.flag, st.data, raw);
    } else {
      assert Rep(st) + raw == raw;
      hide Frame.HeaderBytes;
      if f.payload + more != [] {
        assert f.HeaderLen() >= 5 ==> Stomped(f.payload + more, 5 - f.HeaderLen())[0] == (f.payload + more)[0];
      }
    }
  }

  // ----- the frames this library sends -----

  const DONT_FIN := 0x100

  const INT_LIMIT := 0x8000_0000

  /** The frame that a send with these arguments stands for: the length form is chosen by the payload's size. */
  function SentFrame(op: nat, mask: Option<seq<byte>>, payload: seq<byte>): (f: Frame)
    requires |payload| < INT_LIMIT && (mask.Some? ==> |mask.value| == 4)
    ensures f.Valid() && f.payload == payload
  {
    var flags := (if op / DONT_FIN % 2 == 1 then 0 else 0x80) + op % 16;
    var form := if |payload| < 126 then Short else if |payload| < 65535 then Medium else Long;
    Frame(flags, mask, form, payload)
  }

  /** Whatever is sent with FIN and a non-zero opcode is received as one event with the same flags and payload. */
  lemma SendReceive(op: nat, mask: Option<seq<byte>>, payload: seq<byte>, more: seq<byte>, noDefrag: bool)
    requires |payload| < INT_LIMIT && (mask.Some? ==> |mask.value| == 4)
    requires op < DONT_FIN && op % 16 != 0
    ensures Step(SentFrame(op, mask, payload).Wire() + more, noDefrag)
            == Delivered([Incoming(0x80 + op % 16, payload)], more)
  {
    hide Step, Frame.Wire, Incoming, Frame.Valid;
    var f := SentFrame(op, mask, payload);
    assert f.flags == 0x80 + op % 16;
    UnfragmentedDelivered(f, more, noDefrag);
  }

  lemma UnfragmentedDelivered(f: Frame, more: seq<byte>, noDefrag: bool)
    requires f.Valid() && Fin(f.flags) && Opcode(f.flags) != 0
    ensures Step(f.Wire() + more, noDefrag) == Delivered([Incoming(f.flags, f.payload)], more)
  {
    var b := f.Wire() + more;
    FrameRoundTrip(f, more);
    hide ParseHeader, PayloadOf, Frame.Wire, Frame.HeaderBytes, Frame.HeaderLen, Opcode;
    assert b[0..] == b;
    assert !Reassembling(b, noDefrag);
  }
}
