/**
 WebSocket frames as octets (section 5.2 of RFC 6455): what each octet of a frame is, and the examples of
 section 5.7 as they are received.
 */
module WsWire {
  import opened Bytes
  import opened WsCodec
  import opened WsStream

  /** Every octet of a frame's header: its flags, the mask bit and the length form, the length in network order, and
      the mask. */
  lemma HeaderIs(f: Frame)
    requires f.Valid()
    ensures var w, n, h := f.Wire(), |f.payload|, f.HeaderLen();
            && |w| == h + n && 2 <= h && w[0] == f.flags
            && h == (match f.form case Short => 2 case Medium => 4 case Long => 10) + (if f.mask.Some? then 4 else 0)
            && w[1] == (if f.mask.Some? then 128 else 0)
                       + (match f.form case Short => n case Medium => 126 case Long => 127)
            && (f.form.Medium? ==> Value(w[2..4]) == n)
            && (f.form.Long? ==> Value(w[2..6]) * 0x1_0000_0000 + Value(w[6..10]) == n)
            && (f.mask.Some? ==> w[h - 4..h] == f.mask.value)
  {
    LengthIs(f);
    LengthOctets(f);
    hide Frame.Wire, Frame.WirePayload, Frame.LengthBytes, Frame.HeaderBytes, Value;
  }

  /** Where the octets of the length are in a frame. */
  lemma LengthOctets(f: Frame)
    requires f.Valid()
    ensures var w, lb, h := f.Wire(), f.LengthBytes(), f.HeaderLen();
            && |w| == h + |f.payload| && h == 1 + |lb| + (if f.mask.Some? then 4 else 0) && |lb| >= 1
            && w[0] == f.flags && w[1] == lb[0] && (f.mask.Some? ==> w[h - 4..h] == f.mask.value)
            && (|lb| >= 3 ==> w[2..4] == lb[1..3]) && (|lb| >= 9 ==> w[2..6] == lb[1..5] && w[6..10] == lb[5..9])
  {
    hide Frame.WirePayload, Frame.LengthBytes;
    var lb, m, p := f.LengthBytes(), if f.mask.Some? then f.mask.value else [], f.WirePayload();
    assert f.Wire() == [f.flags] + lb + m + p;
    hide Frame.Wire, Frame.HeaderBytes;
    Parts(f.flags, lb, m, p);
    InLength(f.flags, lb, m, p);
  }

  lemma Parts(a: byte, b: seq<byte>, c: seq<byte>, d: seq<byte>)
    requires |b| >= 1
    ensures var w, h := [a] + b + c + d, 1 + |b| + |c|;
            && |w| == h + |d| && w[0] == a && w[1] == b[0] && w[h - |c|..h] == c
  {
  }

  lemma InLength(a: byte, b: seq<byte>, c: seq<byte>, d: seq<byte>)
    ensures var w := [a] + b + c + d;
            && (|b| >= 3 ==> w[2..4] == b[1..3]) && (|b| >= 9 ==> w[2..6] == b[1..5] && w[6..10] == b[5..9])
  {
  }

  lemma LengthIs(f: Frame)
    requires f.Valid()
    ensures var lb, n := f.LengthBytes(), |f.payload|;
            && |lb| == (match f.form case Short => 1 case Medium => 3 case Long => 9)
            && lb[0] == (if f.mask.Some? then 128 else 0)
                        + (match f.form case Short => n case Medium => 126 case Long => 127)
            && (f.form.Medium? ==> Value(lb[1..3]) == n)
            && (f.form.Long? ==> Value(lb[1..5]) * 0x1_0000_0000 + Value(lb[5..9]) == n)
  {
    hide Value, BE16, BE32;
    var lb, n := f.LengthBytes(), |f.payload|;
    match f.form {
      case Short =>
      case Medium =>
        OctetOrder(n);
        assert lb[1..3] == BE16(n);
      case Long =>
        assert n / WORD32 < WORD32;
        OctetOrder(n / WORD32);
        OctetOrder(n % WORD32);
        assert lb[1..5] == BE32(n / WORD32) && lb[5..9] == BE32(n % WORD32);
    }
  }

  /** Every bit of a frame's payload: flipped exactly where the mask has it set. */
  lemma PayloadIs(f: Frame, i: nat, k: nat)
    requires f.Valid() && i < |f.payload| && k < 8
    ensures Bit(f.Wire()[f.HeaderLen() + i], k) != Bit(f.payload[i], k)
            <==> f.mask.Some? && Bit(f.mask.value[i % 4], k) == 1
  {
    hide Xor, Bit, Frame.HeaderBytes;
    assert f.Wire()[f.HeaderLen() + i] == f.WirePayload()[i];
    if f.mask.Some? {
      Flipped(f.payload[i], f.mask.value[i % 4], k);
    }
  }

  lemma Flipped(a: byte, m: byte, k: nat)
    requires k < 8
    ensures Bit(Xor(a, m), k) != Bit(a, k) <==> Bit(m, k) == 1
  {
    hide Xor, Bit;
    XorAt(a, m, k);
    BitIs(Xor(a, m), k);
    BitIs(a, k);
    BitIs(m, k);
  }

  lemma BitIs(n: nat, k: nat)
    ensures Bit(n, k) == 0 || Bit(n, k) == 1
  {
    hide Bit;
  }

  /** What the receiver makes of any payload: each bit flipped exactly where the mask has it set. */
  lemma UnmaskedIs(b: seq<byte>, h: Header, i: nat, k: nat)
    requires h.headerLen + h.dataLen <= |b| && h.maskLen <= h.headerLen && h.maskLen in {0, 4} && i < h.dataLen && k < 8
    ensures var at := h.headerLen;
            Bit(PayloadOf(b, h)[i], k) != Bit(b[at + i], k) <==> h.maskLen == 4 && Bit(b[at - 4 + i % 4], k) == 1
  {
    hide Xor, Bit;
    var at := h.headerLen;
    if h.maskLen == 4 {
      assert b[at..at + h.dataLen][i] == b[at + i] && b[at - 4..at][i % 4] == b[at - 4 + i % 4];
      Flipped(b[at + i], b[at - 4 + i % 4], k);
    }
  }

  // ----- the examples of section 5.7 -----

  const HELLO: seq<byte> := [0x48, 0x65, 0x6c, 0x6c, 0x6f]

  const MASKED_HELLO: seq<byte> := [0x81, 0x85, 0x37, 0xfa, 0x21, 0x3d, 0x7f, 0x9f, 0x4d, 0x51, 0x58]

  function Text(): Frame {
    Frame(0x81, Some([0x37, 0xfa, 0x21, 0x3d]), Short, HELLO)
  }

  lemma MaskedHelloIs()
    ensures Text().Valid() && Text().Wire() == MASKED_HELLO
  {
    var f := Text();
    XorExamples();
    hide Xor;
    var p := f.WirePayload();
    assert p[0] == 0x7f && p[1] == 0x9f && p[2] == 0x4d && p[3] == 0x51 && p[4] == 0x58;
    hide Masked;
    assert f.HeaderBytes() == [0x81, 0x85, 0x37, 0xfa, 0x21, 0x3d];
  }

  /** Whole messages, in whatever pieces they come, leave nothing behind. */
  lemma AllReceived(frames: seq<Frame>, segments: seq<seq<byte>>)
    requires WellFormed(frames, Closed) && Last(frames, Closed) == Closed && Concat(segments) == WireAll(frames, Closed)
    ensures Receive([], segments) == Some((Meaning(frames, Closed), []))
  {
    NothingOpen();
    hide Receive, Concat, Rep, WellFormed, WireAll, Meaning, Last, Seen;
    SegmentationIndependent(frames, segments);
    SeenAll(frames, Closed);
    assert Rep(Closed) + [] == [];
  }

  lemma OneFrame(f: Frame, st: Open)
    requires Fits(f, st)
    ensures WellFormed([f], st) && WireAll([f], st) == f.Wire() && Meaning([f], st) == Raised(f, st)
    ensures Last([f], st) == After(f, st)
  {
    FitIsValid(f, st);
    hide Fits, After, Raised, Frame.Wire;
    assert [f][1..] == [];
    assert f.Wire() + [] == f.Wire() && Raised(f, st) + [] == Raised(f, st);
  }

  lemma FitIsValid(f: Frame, st: Open)
    requires Fits(f, st)
    ensures f.Valid()
  {
  }

  lemma TwoFrames(f: Frame, g: Frame)
    requires Fits(f, Closed) && Fits(g, After(f, Closed))
    ensures WellFormed([f, g], Closed) && f.Valid() && g.Valid() && WireAll([f, g], Closed) == f.Wire() + g.Wire()
    ensures Meaning([f, g], Closed) == Raised(f, Closed) + Raised(g, After(f, Closed))
    ensures Last([f, g], Closed) == After(g, After(f, Closed))
  {
    FitIsValid(f, Closed);
    FitIsValid(g, After(f, Closed));
    OneFrame(g, After(f, Closed));
    hide Fits, After, Raised, Frame.Wire;
    assert [f, g][1..] == [g];
  }

  lemma TextFits()
    ensures Fits(Text(), Closed) && After(Text(), Closed) == Closed && Raised(Text(), Closed) == [Data(0x81, HELLO)]
  {
  }

  /** The masked text frame, in whatever pieces it comes, is told as that text, and nothing is left of it. */
  lemma HelloReceived(segments: seq<seq<byte>>)
    requires Concat(segments) == MASKED_HELLO
    ensures Receive([], segments) == Some(([Data(0x81, HELLO)], []))
  {
    hide Text, Receive, Frame.Wire, Concat, Fits, After, Raised;
    MaskedHelloIs();
    TextFits();
    hide WellFormed, WireAll, Meaning, Last;
    OneFrame(Text(), Closed);
    AllReceived([Text()], segments);
  }

  /** The same text in two masked fragments. */
  const FIRST_FRAGMENT: seq<byte> := [0x01, 0x83, 0x37, 0xfa, 0x21, 0x3d, 0x7f, 0x9f, 0x4d]

  const LAST_FRAGMENT: seq<byte> := [0x80, 0x82, 0x37, 0xfa, 0x21, 0x3d, 0x5b, 0x95]

  function First(): Frame {
    Frame(0x01, Some([0x37, 0xfa, 0x21, 0x3d]), Short, [0x48, 0x65, 0x6c])
  }

  function Final(): Frame {
    Frame(0x80, Some([0x37, 0xfa, 0x21, 0x3d]), Short, [0x6c, 0x6f])
  }

  lemma FirstIs()
    ensures First().Valid() && First().Wire() == FIRST_FRAGMENT
  {
    XorExamples();
    hide Xor;
    var p := First().WirePayload();
    assert p[0] == 0x7f && p[1] == 0x9f && p[2] == 0x4d;
    hide Masked;
    assert First().HeaderBytes() == [0x01, 0x83, 0x37, 0xfa, 0x21, 0x3d];
  }

  lemma FinalIs()
    ensures Final().Valid() && Final().Wire() == LAST_FRAGMENT
  {
    XorExamples();
    hide Xor;
    var p := Final().WirePayload();
    assert p[0] == 0x5b && p[1] == 0x95;
    hide Masked;
    assert Final().HeaderBytes() == [0x80, 0x82, 0x37, 0xfa, 0x21, 0x3d];
  }

  lemma FragmentsFit()
    ensures Fits(First(), Closed) && After(First(), Closed) == Open(0, [0x48, 0x65, 0x6c]) && Raised(First(), Closed) == []
    ensures var st := Open(0, [0x48, 0x65, 0x6c]);
            Fits(Final(), st) && After(Final(), st) == Closed && Raised(Final(), st) == [Data(0x80, HELLO)]
  {
    assert [0x48, 0x65, 0x6c] + [0x6c, 0x6f] == HELLO;
  }

  lemma FragmentedHelloReceived(segments: seq<seq<byte>>)
    requires Concat(segments) == FIRST_FRAGMENT + LAST_FRAGMENT
    ensures Receive([], segments) == Some(([Data(0x80, HELLO)], []))
  {
    hide First, Final, Receive, Frame.Wire, Concat, Fits, After, Raised;
    FirstIs();
    FinalIs();
    FragmentsFit();
    hide WellFormed, WireAll, Meaning, Last;
    TwoFrames(First(), Final());
    AllReceived([First(), Final()], segments);
    assert [] + [Data(0x80, HELLO)] == [Data(0x80, HELLO)];
  }

  /** What the first fragment becomes in the buffer: a flag octet, the size as the machine has it, and the text so far. */
  lemma FragmentKept()
    ensures Step(FIRST_FRAGMENT, false) == Delivered([], [0x00, 3, 0, 0, 0, 0x48, 0x65, 0x6c])
  {
    hide First, Frame.Wire, Step, Rep, Fits, After, Raised;
    FirstIs();
    FragmentsFit();
    KeptIs();
    NothingOpen();
    StepOnFrame(First(), Closed, []);
    ThreeJoined(FIRST_FRAGMENT, [0x00, 3, 0, 0, 0, 0x48, 0x65, 0x6c]);
  }

  lemma KeptIs()
    ensures Rep(Open(0, [0x48, 0x65, 0x6c])) == [0x00, 3, 0, 0, 0, 0x48, 0x65, 0x6c]
  {
    assert LE32(3) == [3, 0, 0, 0];
  }

  lemma ThreeJoined(a: seq<byte>, b: seq<byte>)
    ensures [] + a + [] == a && b + [] == b
  {
  }

  lemma NothingOpen()
    ensures Rep(Closed) == []
  {
  }

  /** A frame is told as a control frame exactly when its opcode is 8 or more. */
  lemma KindOf(flags: byte, payload: seq<byte>)
    ensures Incoming(flags, payload) == if flags % 16 >= 8 then Control(flags, payload) else Data(flags, payload)
  {
  }

  /** A ping, and binary messages of 256 octets and of 64 KiB, unmasked. */
  lemma PingReceived(more: seq<byte>, noDefrag: bool)
    ensures Step([0x89, 5] + HELLO + more, noDefrag) == Delivered([Control(0x89, HELLO)], more)
  {
    var f := Frame(0x89, None, Short, HELLO);
    assert f.Wire() == [0x89, 5] + HELLO;
    hide Frame.Wire, Step;
    UnfragmentedDelivered(f, more, noDefrag);
  }

  lemma BinaryReceived(payload: seq<byte>, more: seq<byte>, noDefrag: bool)
    ensures |payload| == 256 ==>
              Step([0x82, 0x7e, 1, 0] + payload + more, noDefrag) == Delivered([Data(0x82, payload)], more)
    ensures |payload| == 65536 ==>
              Step([0x82, 0x7f, 0, 0, 0, 0, 0, 1, 0, 0] + payload + more, noDefrag)
              == Delivered([Data(0x82, payload)], more)
  {
    hide Step;
    if |payload| == 256 {
      var f := Frame(0x82, None, Medium, payload);
      assert f.Wire() == [0x82, 0x7e, 1, 0] + payload;
      hide Frame.Wire;
      UnfragmentedDelivered(f, more, noDefrag);
    } else if |payload| == 65536 {
      var f := Frame(0x82, None, Long, payload);
      assert BE32(0) == [0, 0, 0, 0] && BE32(65536) == [0, 1, 0, 0];
      assert f.Wire() == [0x82, 0x7f, 0, 0, 0, 0, 0, 1, 0, 0] + payload;
      hide Frame.Wire;
      UnfragmentedDelivered(f, more, noDefrag);
    }
  }

  /** A length of 64 ones: with the header it comes to nine, which is there, and the source then works outside its buffer. */
  lemma LengthWraps()
    ensures Step([0x82, 0x7f, 0xff, 0xff, 0xff, 0xff, 0xff, 0xff, 0xff, 0xff], false) == Undefined
  {
    var b := [0x82, 0x7f, 0xff, 0xff, 0xff, 0xff, 0xff, 0xff, 0xff, 0xff];
    assert !Reassembling(b, false) && b[0..] == b;
    assert ParseHeader(b) == Header(10, 0, 0xffff_ffff_ffff_ffff);
  }

  /** A text sent at once, masked and not, and its two fragments, the first sent without FIN. */
  lemma HelloSent()
    ensures SentFrame(1, None, HELLO).Wire() == [0x81, 5] + HELLO
    ensures SentFrame(1, Some([0x37, 0xfa, 0x21, 0x3d]), HELLO).Wire() == MASKED_HELLO
    ensures SentFrame(0x101, None, [0x48, 0x65, 0x6c]).Wire() == [0x01, 3, 0x48, 0x65, 0x6c]
    ensures SentFrame(0, None, [0x6c, 0x6f]).Wire() == [0x80, 2, 0x6c, 0x6f]
  {
    hide Masked;
    MaskedHelloIs();
  }

  /** The first octet of what is sent: FIN unless the bit 100 is set in op, and the low four bits of op. */
  lemma SentFlags(op: nat, mask: Option<seq<byte>>, payload: seq<byte>)
    requires |payload| < INT_LIMIT && (mask.Some? ==> |mask.value| == 4)
    ensures var w := SentFrame(op, mask, payload).Wire();
            |w| > 0 && w[0] % 16 == op % 16 && (w[0] >= 0x80 <==> op % 0x200 < 0x100) && w[0] % 0x80 < 16
  {
    Flags(op);
    hide Frame.Wire;
    FirstOctet(SentFrame(op, mask, payload));
  }

  lemma Flags(op: nat)
    ensures var v := (if op / 0x100 % 2 == 1 then 0 else 0x80) + op % 16;
            v % 16 == op % 16 && (v >= 0x80 <==> op % 0x200 < 0x100) && v % 0x80 < 16
  {
    assert op % 0x200 == op / 0x100 % 2 * 0x100 + op % 0x100;
  }

  lemma FirstOctet(f: Frame)
    requires f.Valid()
    ensures f.Wire() != [] && f.Wire()[0] == f.flags
  {
    hide Frame.LengthBytes, Frame.WirePayload;
  }

  /** The length form a payload is sent in: 65535 octets take the longest already. */
  lemma SentForm(op: nat, mask: Option<seq<byte>>, payload: seq<byte>)
    requires |payload| < INT_LIMIT && (mask.Some? ==> |mask.value| == 4)
    ensures SentFrame(op, mask, payload).HeaderLen()
            == (if |payload| <= 125 then 2 else if |payload| <= 65534 then 4 else 10) + (if mask.Some? then 4 else 0)
  {
  }

  /** An empty close frame closes the connection, and so does a fragmented text that starts with 'H', but not with 'I'. */
  lemma ClosesOn()
    ensures var b := [0x88, 0x80, 1, 2, 3, 4];
            Step(b, false).Delivered? && StepCloseByte(b, false) == Some(0x88) && Opcode(0x88) == OP_CLOSE
    ensures var b := FIRST_FRAGMENT + LAST_FRAGMENT;
            Step(b, false).Delivered? && StepCloseByte(b, false) == Some(0x48) && Opcode(0x48) == OP_CLOSE != Opcode(0x49)
  {
    hide First, Frame.Wire, StepCloseByte, Step, Rep, Fits, TestedByte;
    CloseFrameTested();
    FirstIs();
    FirstTested();
    NothingOpen();
    CloseTestReads(First(), Closed, LAST_FRAGMENT);
    assert [] + FIRST_FRAGMENT + LAST_FRAGMENT == FIRST_FRAGMENT + LAST_FRAGMENT;
  }

  function CloseFrame(): Frame {
    Frame(0x88, Some([1, 2, 3, 4]), Short, [])
  }

  lemma CloseFrameFits()
    ensures Fits(CloseFrame(), Closed) && TestedByte(CloseFrame(), Closed, []) == 0x88
    ensures CloseFrame().Wire() == [0x88, 0x80, 1, 2, 3, 4]
  {
  }

  lemma CloseFrameTested()
    ensures var b := [0x88, 0x80, 1, 2, 3, 4]; Step(b, false).Delivered? && StepCloseByte(b, false) == Some(0x88)
  {
    hide CloseFrame, Frame.Wire, StepCloseByte, Step, Rep, Fits, TestedByte;
    CloseFrameFits();
    NothingOpen();
    CloseTestReads(CloseFrame(), Closed, []);
    assert [] + CloseFrame().Wire() + [] == CloseFrame().Wire();
  }

  lemma FirstTested()
    ensures Fits(First(), Closed) && TestedByte(First(), Closed, LAST_FRAGMENT) == 0x48
  {
    assert ([0x48, 0x65, 0x6c] + LAST_FRAGMENT)[0] == 0x48;
  }

  lemma XorExamples()
    ensures Xor(0x48, 0x37) == 0x7f && Xor(0x65, 0xfa) == 0x9f && Xor(0x6c, 0x21) == 0x4d
    ensures Xor(0x6c, 0x3d) == 0x51 && Xor(0x6f, 0x37) == 0x58 && Xor(0x6c, 0x37) == 0x5b && Xor(0x6f, 0xfa) == 0x95
  {
    hide Xor;
    XorIs(0x48, 0x37, 0x7f);
    XorIs(0x65, 0xfa, 0x9f);
    XorIs(0x6c, 0x21, 0x4d);
    XorIs(0x6c, 0x3d, 0x51);
    XorIs(0x6f, 0x37, 0x58);
    XorIs(0x6c, 0x37, 0x5b);
    XorIs(0x6f, 0xfa, 0x95);
  }

  predicate Parity(a: nat, b: nat, c: nat) {
    (a + b) % 2 == c % 2
  }

  lemma XorIs(a: byte, b: byte, c: byte)
    requires Parity(a, b, c) && Parity(a / 2, b / 2, c / 2) && Parity(a / 4, b / 4, c / 4)
    requires Parity(a / 8, b / 8, c / 8) && Parity(a / 16, b / 16, c / 16) && Parity(a / 32, b / 32, c / 32)
    requires Parity(a / 64, b / 64, c / 64) && Parity(a / 128, b / 128, c / 128)
    ensures Xor(a, b) == c
  {
    hide Parity, XorBits;
    Halves(a);
    Halves(b);
    Halves(c);
    FourBits(a / 16, b / 16, c / 16, 0);
    FourBits(a, b, c, 4);
  }

  lemma Halves(a: byte)
    ensures a / 16 / 2 == a / 32 && a / 16 / 4 == a / 64 && a / 16 / 8 == a / 128 && a / 16 / 16 == 0
  {
  }

  lemma FourBits(a: nat, b: nat, c: nat, n: nat)
    requires Parity(a, b, c) && Parity(a / 2, b / 2, c / 2) && Parity(a / 4, b / 4, c / 4) && Parity(a / 8, b / 8, c / 8)
    requires if n == 0 then c / 16 == 0 else XorBits(a / 16, b / 16, n) == c / 16
    ensures XorBits(a, b, n + 4) == c
  {
    hide Parity, XorBits;
    Halving(a);
    Halving(b);
    Halving(c);
    XorStep(a / 8, b / 8, c / 8, n + 1);
    XorStep(a / 4, b / 4, c / 4, n + 2);
    XorStep(a / 2, b / 2, c / 2, n + 3);
    XorStep(a, b, c, n + 4);
  }

  lemma Halving(a: nat)
    ensures a / 2 / 2 == a / 4 && a / 4 / 2 == a / 8 && a / 8 / 2 == a / 16
  {
  }

  lemma XorStep(a: nat, b: nat, c: nat, n: nat)
    requires n > 0 && Parity(a, b, c) && (n == 1 ==> c / 2 == 0) && (n > 1 ==> XorBits(a / 2, b / 2, n - 1) == c / 2)
    ensures XorBits(a, b, n) == c
  {
  }
}
