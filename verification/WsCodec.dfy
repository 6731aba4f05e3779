/**
 Websocket frames (RFC 6455, section 5.2) and what one call of the delivery
 routine makes of the bytes in the receive buffer. The receive buffer holds raw
 bytes, or, while a message is being defragmented, one flag byte, a four-byte
 size in machine order, that many payload bytes, and then raw bytes.
 */
module WsCodec {
  import opened Bytes

  const WORD64 := 0x1_0000_0000_0000_0000
  const WORD32 := 0x1_0000_0000

  const OP_CLOSE: byte := 8

  function Opcode(flags: byte): byte { flags % 16 }

  predicate Fin(flags: byte) { flags >= 0x80 }

  predicate IsFragment(flags: byte) { !Fin(flags) || Opcode(flags) == 0 }

  predicate IsFirstFragment(flags: byte) { !Fin(flags) && Opcode(flags) != 0 }

  /** What the user's handler is called with. */
  datatype Event = Data(flags: byte, payload: seq<byte>) | Control(flags: byte, payload: seq<byte>)

  function Incoming(flags: byte, payload: seq<byte>): Event
  {
    if flags / 8 % 2 == 1 then Control(flags, payload) else Data(flags, payload)
  }

  function Masked(data: seq<byte>, mask: seq<byte>): (r: seq<byte>)
    requires |mask| == 4
    ensures |r| == |data|
  {
    seq(|data|, i requires 0 <= i < |data| => Xor(data[i], mask[i % 4]))
  }

  lemma MaskedTwice(data: seq<byte>, mask: seq<byte>)
    requires |mask| == 4
    ensures Masked(Masked(data, mask), mask) == data
  {
    forall i | 0 <= i < |data|
      ensures Masked(Masked(data, mask), mask)[i] == data[i]
    {
      XorTwice(data[i], mask[i % 4]);
    }
  }

  // ----- the header as the receiver reads it -----

  /** headerLen == 0 stands for a header that is not there yet. */
  datatype Header = Header(headerLen: nat, maskLen: nat, dataLen: nat)

  function ParseHeader(b: seq<byte>): (h: Header)
    ensures h.headerLen != 0 ==> 2 + h.maskLen <= h.headerLen <= 10 + h.maskLen && h.maskLen in {0, 4}
    ensures h.headerLen == 0 ==> h.dataLen == 0
    ensures h.dataLen < WORD64
  {
    if |b| < 2 then Header(0, 0, 0)
    else
      var len := b[1] % 128;
      var maskLen := if b[1] >= 128 then 4 else 0;
      if len < 126 && |b| >= maskLen then Header(2 + maskLen, maskLen, len)
      else if len == 126 && |b| >= 4 + maskLen then Header(4 + maskLen, maskLen, FromBE16(b[2], b[3]))
      else if |b| >= 10 + maskLen then
        Header(10 + maskLen, maskLen,
               FromBE32(b[2], b[3], b[4], b[5]) * WORD32 + FromBE32(b[6], b[7], b[8], b[9]))
      else Header(0, maskLen, 0)
  }

  /** Addition of 64-bit words. */
  function Add64(x: nat, y: nat): nat
    requires x < WORD64 && y < WORD64
  {
    if x + y < WORD64 then x + y else x + y - WORD64
  }

  /** The whole frame, header included, is in the buffer. */
  predicate FrameReady(h: Header, bufLen: nat)
    requires h.headerLen < WORD64 && h.dataLen < WORD64
  {
    0 < Add64(h.headerLen, h.dataLen) <= bufLen
  }

  function PayloadOf(f: seq<byte>, h: Header): (r: seq<byte>)
    requires h.headerLen + h.dataLen <= |f| && h.maskLen <= h.headerLen && h.maskLen in {0, 4}
    ensures |r| == h.dataLen
  {
    var raw := f[h.headerLen..h.headerLen + h.dataLen];
    if h.maskLen == 0 then raw else Masked(raw, f[h.headerLen - 4..h.headerLen])
  }

  // ----- one delivery step -----

  /**
   Incomplete: nothing happens. Undefined: the source would touch memory outside what
   it received (a 64-bit length that wraps, a continuation frame with no message open,
   or a reassembled message of 4 GiB or more). Delivered: the events raised
   and what is left in the buffer.
   */
  datatype Outcome = Incomplete | Undefined | Delivered(events: seq<Event>, rest: seq<byte>)

  /** The size field that overlays bytes 1..4 of a buffer under reassembly. */
  function SizeField(b: seq<byte>): nat
    requires |b| >= 5
  {
    FromLE32(b[1], b[2], b[3], b[4])
  }

  predicate HoldsPartial(b: seq<byte>)
  {
    |b| >= 5 && Opcode(b[0]) == 0 && |b| >= 5 + SizeField(b)
  }

  predicate Reassembling(b: seq<byte>, noDefrag: bool)
  {
    |b| > 0 && IsFragment(b[0]) && !noDefrag
  }

  /** Where the next raw frame starts. */
  function Base(b: seq<byte>, noDefrag: bool): (n: nat)
    ensures n <= |b|
  {
    if Reassembling(b, noDefrag) && HoldsPartial(b) then 5 + SizeField(b) else 0
  }

  /** Clearing the size field zeroes payload bytes when the header is shorter than five bytes. */
  function Stomped(data: seq<byte>, n: int): (r: seq<byte>)
    ensures |r| == |data|
  {
    seq(|data|, i requires 0 <= i < |data| => if i < n then 0 else data[i])
  }

  function Partial(flag: byte, data: seq<byte>): seq<byte>
    requires |data| < WORD32
  {
    [flag] + LE32(|data|) + data
  }

  function Step(b: seq<byte>, noDefrag: bool): Outcome
  {
    var base := Base(b, noDefrag);
    var f := b[base..];
    var h := ParseHeader(f);
    if !FrameReady(h, |f|) then Incomplete
    else if h.headerLen + h.dataLen >= WORD64 then Undefined
    else Absorb(b, noDefrag, f[0], h.headerLen, PayloadOf(f, h), f[h.headerLen + h.dataLen..])
  }

  /**
   A complete frame with these flags and this unmasked payload meets buffer b. A frame that
   opens a message starts the reassembly area afresh, even inside another message.
   */
  function Absorb(b: seq<byte>, noDefrag: bool, flags: byte, headerLen: nat, payload: seq<byte>, after: seq<byte>): Outcome
    requires b != []
  {
    var base := Base(b, noDefrag);
    if !Reassembling(b, noDefrag) then
      Delivered([Incoming(flags, payload)], after)
    else if IsFirstFragment(flags) then
      if |payload| >= WORD32 then Undefined
      else Delivered([], [b[0] - Opcode(b[0])] + LE32(|payload|) + Stomped(payload + after, 5 - base - headerLen))
    else if base == 0 || base - 5 + |payload| >= WORD32 then Undefined
    else
      var data := b[5..base] + payload;
      if Fin(flags) then Delivered([Incoming(flags, data)], after)
      else Delivered([], Partial(b[0], data) + after)
  }

  /**
   The byte whose low half decides, after a delivery, whether the connection is closed: the one found where the
   frame began, or where the area of a message just opened begins, once the buffer has been shifted. None where
   nothing was ever received there.
   */
  function CloseByte(b: seq<byte>, noDefrag: bool, flags: byte, headerLen: nat, payload: seq<byte>, after: seq<byte>): Option<byte>
    requires b != []
  {
    var base, moved := Base(b, noDefrag), payload + after;
    if !Reassembling(b, noDefrag) then Some(if after != [] then after[0] else b[0])
    else if IsFirstFragment(flags) then
      if moved != [] then Some(Stomped(moved, 5 - base - headerLen)[0])
      else if |b| > 5 then Some(b[5])
      else None
    else if Fin(flags) && base < |after| then Some(after[base])
    else Some(if moved != [] then moved[0] else flags)
  }

  function StepCloseByte(b: seq<byte>, noDefrag: bool): Option<byte>
    requires Step(b, noDefrag).Delivered?
  {
    var f := b[Base(b, noDefrag)..];
    var h := ParseHeader(f);
    CloseByte(b, noDefrag, f[0], h.headerLen, PayloadOf(f, h), f[h.headerLen + h.dataLen..])
  }

  /** Bytes not decoded yet: what makes the delivery loop terminate. */
  function Undecoded(b: seq<byte>, noDefrag: bool): nat
  {
    |b| - Base(b, noDefrag)
  }

  lemma PartialShape(flag: byte, data: seq<byte>, more: seq<byte>)
    requires |data| < WORD32 && Opcode(flag) == 0
    ensures var b := Partial(flag, data) + more;
            |b| >= 5 && b[0] == flag && SizeField(b) == |data| && HoldsPartial(b)
            && b[5..5 + |data|] == data && b[5 + |data|..] == more
            && Base(b, false) == 5 + |data|
  {
    var b := Partial(flag, data) + more;
    var s := LE32(|data|);
    Octets32(|data|);
    assert b[0] == flag;
    assert b[1] == s[0] && b[2] == s[1] && b[3] == s[2] && b[4] == s[3];
    assert b[5..5 + |data|] == data && b[5 + |data|..] == more;
  }

  /** Every delivery consumes raw bytes, whatever the input is. */
  lemma StepConsumes(b: seq<byte>, noDefrag: bool)
    requires Step(b, noDefrag).Delivered?
    ensures Undecoded(Step(b, noDefrag).rest, noDefrag) < Undecoded(b, noDefrag)
  {
    hide ParseHeader, PayloadOf;
    var f := b[Base(b, noDefrag)..];
    var h := ParseHeader(f);
    AbsorbConsumes(b, noDefrag, f[0], h.headerLen, PayloadOf(f, h), f[h.headerLen + h.dataLen..]);
  }

  lemma AbsorbConsumes(b: seq<byte>, noDefrag: bool, flags: byte, headerLen: nat, payload: seq<byte>, after: seq<byte>)
    requires b != [] && Absorb(b, noDefrag, flags, headerLen, payload, after).Delivered?
    ensures Undecoded(Absorb(b, noDefrag, flags, headerLen, payload, after).rest, noDefrag) <= |after|
  {
    if Reassembling(b, noDefrag) {
      if IsFirstFragment(flags) {
        var all := Stomped(payload + after, 5 - Base(b, noDefrag) - headerLen);
        var flag := b[0] - Opcode(b[0]);
        assert [flag] + LE32(|payload|) + all == Partial(flag, all[..|payload|]) + all[|payload|..];
        PartialShape(flag, all[..|payload|], all[|payload|..]);
      } else if !Fin(flags) {
        PartialShape(b[0], b[5..Base(b, noDefrag)] + payload, after);
      }
    }
  }

  /** The delivery loop: steps until one does not deliver. None when some step is Undefined. */
  function Drain(b: seq<byte>, noDefrag: bool): Option<(seq<Event>, seq<byte>)>
    decreases Undecoded(b, noDefrag)
  {
    match Step(b, noDefrag)
    case Incomplete => Some(([], b))
    case Undefined => None
    case Delivered(events, rest) =>
      StepConsumes(b, noDefrag);
      match Drain(rest, noDefrag)
      case None => None
      case Some((more, left)) => Some((events + more, left))
  }

  lemma DrainStep(b: seq<byte>, noDefrag: bool)
    requires Step(b, noDefrag).Delivered? && Drain(b, noDefrag).Some?
    ensures var r := Step(b, noDefrag);
            Drain(r.rest, noDefrag).Some?
            && Drain(b, noDefrag).value.0 == r.events + Drain(r.rest, noDefrag).value.0
            && Drain(b, noDefrag).value.1 == Drain(r.rest, noDefrag).value.1
  {
  }

  // ----- more bytes later: the same as more bytes now -----

  /** The step does not open a message with a header so short that clearing the size field hits what follows. */
  predicate KeepsPayload(b: seq<byte>)
  {
    Reassembling(b, false) && IsFirstFragment(b[0]) ==> ParseHeader(b).headerLen >= 5
  }

  /** Every step of the delivery loop keeps the payload. */
  predicate Clean(b: seq<byte>)
    decreases Undecoded(b, false)
  {
    match Step(b, false)
    case Delivered(_, rest) => StepConsumes(b, false); KeepsPayload(b) && Clean(rest)
    case _ => true
  }

  lemma HeaderExtends(f: seq<byte>, x: seq<byte>)
    requires ParseHeader(f).headerLen > 0
    ensures ParseHeader(f + x) == ParseHeader(f)
  {
  }

  lemma BaseExtends(b: seq<byte>, x: seq<byte>)
    requires b != [] && (Reassembling(b, false) && !IsFirstFragment(b[0]) ==> HoldsPartial(b))
    ensures Base(b + x, false) == Base(b, false) && Reassembling(b + x, false) == Reassembling(b, false)
  {
  }

  lemma PayloadExtends(f: seq<byte>, x: seq<byte>, h: Header)
    requires h.headerLen + h.dataLen <= |f| && h.maskLen <= h.headerLen && h.maskLen in {0, 4}
    ensures PayloadOf(f + x, h) == PayloadOf(f, h)
  {
    var n := h.headerLen + h.dataLen;
    assert (f + x)[h.headerLen..n] == f[h.headerLen..n];
    assert (f + x)[h.headerLen - h.maskLen..h.headerLen] == f[h.headerLen - h.maskLen..h.headerLen];
  }

  /** A delivered step is not changed by bytes that arrive later. */
  lemma StepExtends(b: seq<byte>, x: seq<byte>)
    requires Step(b, false).Delivered? && KeepsPayload(b)
    ensures Step(b + x, false) == Delivered(Step(b, false).events, Step(b, false).rest + x)
    ensures KeepsPayload(b + x)
  {
    hide ParseHeader, PayloadOf, Absorb, Base;
    var f := b[Base(b, false)..];
    var h := ParseHeader(f);
    var n := h.headerLen + h.dataLen;
    HeaderExtends(f, x);
    if IsFirstFragment(b[0]) {
      FirstFragmentAtFront(b);
      assert b[0..] == b;
    }
    AbsorbExtends(b, f[0], h.headerLen, PayloadOf(f, h), f[n..], x);
    assert (b + x)[Base(b, false)..] == f + x;
    PayloadExtends(f, x, h);
    assert (f + x)[n..] == f[n..] + x;
  }

  lemma FirstFragmentAtFront(b: seq<byte>)
    requires b != [] && IsFirstFragment(b[0])
    ensures Base(b, false) == 0
  {
  }

  lemma AbsorbExtends(b: seq<byte>, flags: byte, headerLen: nat, payload: seq<byte>, after: seq<byte>, x: seq<byte>)
    requires b != [] && Absorb(b, false, flags, headerLen, payload, after).Delivered?
    requires b[Base(b, false)..] != [] && flags == b[Base(b, false)..][0]
    requires IsFirstFragment(b[0]) ==> headerLen >= 5
    ensures var r := Absorb(b, false, flags, headerLen, payload, after);
            Absorb(b + x, false, flags, headerLen, payload, after + x) == Delivered(r.events, r.rest + x)
    ensures Base(b + x, false) == Base(b, false)
  {
    BaseExtends(b, x);
    var base := Base(b, false);
    assert (b + x)[0] == b[0];
    if Reassembling(b, false) {
      if IsFirstFragment(flags) {
        var n := 5 - base - headerLen;
        assert n <= 0;
        assert Stomped(payload + (after + x), n) == Stomped(payload + after, n) + x;
      } else {
        assert (b + x)[5..base] == b[5..base];
      }
    }
  }

  /** Running the loop now and again after x arrives is running it once over everything. */
  lemma {:induction false} DrainExtends(b: seq<byte>, x: seq<byte>)
    requires Drain(b, false).Some? && Clean(b)
    ensures var (events, left) := Drain(b, false).value;
            Drain(b + x, false) ==
            match Drain(left + x, false)
            case None => None
            case Some((more, last)) => Some((events + more, last))
    decreases Undecoded(b, false)
  {
    hide Step, KeepsPayload, Undecoded;
    if Step(b, false).Delivered? {
      var (events, rest) := (Step(b, false).events, Step(b, false).rest);
      StepConsumes(b, false);
      StepExtends(b, x);
      DrainExtends(rest, x);
      var (e1, left) := Drain(rest, false).value;
      match Drain(left + x, false)
      case None =>
      case Some((more, last)) =>
        assert (events + e1) + more == events + (e1 + more);
    } else {
      match Drain(b + x, false)
      case None =>
      case Some((more, last)) =>
        assert [] + more == more;
    }
  }
}
