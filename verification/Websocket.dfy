/**
 The websocket side of a connection: in-place delivery of received frames, and
 the frames it sends.
 */
module Websocket {
  import opened Bytes
  import opened IoBuffers
  import opened WsCodec
  import opened WsStream

  class Connection {
    const recv: Mbuf
    const send: Mbuf
    var noDefrag: bool
    var sendAndClose: bool
    const isClient: bool  // no listener
    ghost var trace: seq<Event>

    ghost predicate Valid()
      reads this, recv, send
    {
      recv.Valid() && send.Valid() && recv != send && recv.buf != send.buf
    }

    constructor (isClient: bool, noDefrag: bool)
      ensures Valid() && fresh(recv) && fresh(send) && fresh(recv.buf) && fresh(send.buf)
      ensures recv.Contents() == send.Contents() == [] && trace == [] && !sendAndClose
      ensures this.isClient == isClient && this.noDefrag == noDefrag
    {
      recv := new Mbuf(0);
      send := new Mbuf(0);
      this.isClient, this.noDefrag := isClient, noDefrag;
      sendAndClose := false;
      trace := [];
    }

    /** Appends received bytes, then delivers frames until none is complete. */
    method Receive(segment: seq<byte>)
      requires Valid() && Drain(recv.Contents() + segment, noDefrag).Some?
      modifies this`trace, this`sendAndClose, recv, recv.buf
      ensures Valid() && (recv.buf == old(recv.buf) || fresh(recv.buf))
      ensures var (events, rest) := Drain(old(recv.Contents()) + segment, noDefrag).value;
              recv.Contents() == rest && trace == old(trace) + events
      ensures old(sendAndClose) ==> sendAndClose
    {
      hide Step, Undecoded, StepCloseByte;
      recv.Append(segment);
      ghost var (more, final) := Drain(recv.Contents(), noDefrag).value;
      ghost var goal := trace + more;
      var ok := true;
      while ok
        invariant Valid() && (recv.buf == old(recv.buf) || fresh(recv.buf))
        invariant Drain(recv.Contents(), noDefrag) == Some((more, final)) && trace + more == goal
        invariant !ok ==> Step(recv.Contents(), noDefrag).Incomplete?
        invariant old(sendAndClose) ==> sendAndClose
        decreases ok, Undecoded(recv.Contents(), noDefrag)
      {
        ghost var b := recv.Contents();
        assert !Step(b, noDefrag).Undefined?;
        hide Drain;
        ok := DeliverData();
        if ok {
          StepConsumes(b, noDefrag);
          DrainStep(b, noDefrag);
          more := Drain(Step(b, noDefrag).rest, noDefrag).value.0;
        }
      }
      assert trace + [] == trace;
    }

    /** One call of the delivery routine is one step on the buffer's contents. */
    method DeliverData() returns (ok: bool)
      requires Valid() && !Step(recv.Contents(), noDefrag).Undefined?
      modifies this`trace, this`sendAndClose, recv, recv.buf
      ensures Valid() && (recv.buf == old(recv.buf) || fresh(recv.buf))
      ensures var r := old(Step(recv.Contents(), noDefrag));
              ok == r.Delivered?
              && if ok then recv.Contents() == r.rest && trace == old(trace) + r.events
                 else recv.Contents() == old(recv.Contents()) && trace == old(trace)
                      && sendAndClose == old(sendAndClose)
      ensures old(sendAndClose) ==> sendAndClose
      ensures old(Step(recv.Contents(), noDefrag)).Delivered? ==>
                var c := old(StepCloseByte(recv.Contents(), noDefrag));
                c.Some? ==> sendAndClose == (old(sendAndClose) || Opcode(c.value) == OP_CLOSE)
    {
      ghost var b := recv.Contents();
      var base := FindBase();
      var h := ReadHeader(base);
      ok := FrameReady(h, recv.len - base);
      StepReady(b, noDefrag, base, h);
      hide Step, StepCloseByte, Absorb, CloseByte, FrameReady, ParseHeader, PayloadOf, Base, SizeField;
      if ok {
        ClearPayload(base, h);
        StepInPlace(b, recv.Contents(), noDefrag, base, h);
        var told := Dispatch(base, h);
      }
    }

    /** Unmasks the payload of the frame at base where it lies. */
    method ClearPayload(base: nat, h: Header)
      requires Valid() && base <= recv.len && h == ParseHeader(recv.Contents()[base..])
      requires 0 < h.headerLen && base + h.headerLen + h.dataLen <= recv.len
      modifies recv.buf
      ensures Valid()
      ensures var b, c, n := old(recv.Contents()), recv.Contents(), base + h.headerLen;
              && c[..n] == b[..n] && c[n..n + h.dataLen] == PayloadOf(b[base..], h)
              && c[n + h.dataLen..] == b[base..][h.headerLen + h.dataLen..]
    {
      hide ParseHeader, PayloadOf, Masked;
      ghost var b := recv.Contents();
      if h.maskLen > 0 {
        Unmask(recv.buf, base + h.headerLen, h.dataLen, recv.len);
      }
      UnmaskedInPlace(b, recv.Contents(), base, h);
    }

    /** What happens to a frame whose payload is already in the clear; told is what the handler is called with. */
    method Dispatch(base: nat, h: Header) returns (ghost told: seq<Event>)
      requires Valid() && 2 <= h.headerLen && base + h.headerLen + h.dataLen <= recv.len
      requires base == Base(recv.Contents(), noDefrag) && AbsorbedAt(recv.Contents(), noDefrag, base, h).Delivered?
      modifies this`trace, this`sendAndClose, recv, recv.buf
      ensures Valid() && (recv.buf == old(recv.buf) || fresh(recv.buf)) && trace == old(trace) + told
      ensures Dispatched(old(recv.Contents()), noDefrag, base, h, recv.Contents(), told, old(sendAndClose), sendAndClose)
    {
      hide AbsorbedAt, Dispatched, SizeField, Opcode;
      ghost var c := recv.Contents();
      AbsorbGuards(c, noDefrag, base, h);
      told := [];
      if !(IsFragment(recv.buf[0]) && !noDefrag) {
        told := [Incoming(c[0], c[h.headerLen..h.headerLen + h.dataLen])];
        DeliverWhole(h);
        WholeDispatched(c, noDefrag, h, recv.Contents(), old(sendAndClose), sendAndClose);
      } else if IsFirstFragment(recv.buf[base]) {
        OpenMessage(base, h);
        FirstDispatched(c, base, h, recv.Contents(), old(sendAndClose), sendAndClose);
      } else {
        told := ContinueMessage(base, h);
        NextDispatched(c, base, h, recv.Contents(), told, old(sendAndClose), sendAndClose);
      }
    }

    /** An unfragmented frame at the front of the buffer goes to the handler and out of the buffer. */
    method DeliverWhole(h: Header)
      requires Valid() && 2 <= h.headerLen && h.headerLen + h.dataLen <= recv.len
      modifies this`trace, this`sendAndClose, recv`len, recv.buf
      ensures Valid()
      ensures var c, n := old(recv.Contents()), h.headerLen + h.dataLen;
              && recv.Contents() == c[n..]
              && trace == old(trace) + [Incoming(c[0], c[h.headerLen..n])]
              && sendAndClose == (old(sendAndClose) || Opcode(if n < |c| then c[n] else c[0]) == OP_CLOSE)
    {
      var n := h.headerLen + h.dataLen;
      assert recv.buf[h.headerLen..n] == recv.Contents()[h.headerLen..n];
      trace := trace + [Incoming(recv.buf[0], recv.buf[h.headerLen..n])];
      recv.Remove(n);
      CloseTest(0);
    }

    /** The first fragment of a message: its header becomes the flag and size of the reassembly area. */
    method OpenMessage(base: nat, h: Header)
      requires Valid() && 2 <= h.headerLen && h.dataLen < WORD32 && base + h.headerLen + h.dataLen <= recv.len
      modifies this`sendAndClose, recv, recv.buf
      ensures Valid() && fresh(recv.buf)
      ensures var c, all := old(recv.Contents()), Stomped(old(recv.Contents())[base + h.headerLen..], 5 - base - h.headerLen);
              && recv.Contents() == [c[0] - Opcode(c[0])] + LE32(h.dataLen) + all
              && (all != [] || |c| > 5 ==>
                    sendAndClose == (old(sendAndClose) || Opcode(if all != [] then all[0] else c[5]) == OP_CLOSE))
      ensures old(sendAndClose) ==> sendAndClose
    {
      hide LE32, Stomped;
      ghost var c := recv.Contents();
      var data, e := base + h.headerLen, recv.len;
      recv.Resize(recv.buf.Length + 4);
      assert recv.buf[..][..e] == c;
      OpenArea(recv.buf, data, e, h.dataLen);
      recv.len := e - data + 5;
      assert recv.Contents() == recv.buf[..][..recv.len];
      CloseTest(5);
    }

    /** A later fragment: its payload moves down behind the payload gathered so far. */
    method ContinueMessage(base: nat, h: Header) returns (ghost told: seq<Event>)
      requires Valid() && 2 <= h.headerLen && base + h.headerLen + h.dataLen <= recv.len
      requires base >= 5 && base - 5 + h.dataLen < WORD32
      requires base == 5 + SizeField(recv.Contents())
      modifies this`trace, this`sendAndClose, recv`len, recv.buf
      ensures Valid()
      ensures var c, n := old(recv.Contents()), base + h.headerLen;
              var whole := c[5..base] + c[n..n + h.dataLen];
              && trace == old(trace) + told
              && if Fin(c[base]) then recv.Contents() == c[n + h.dataLen..] && told == [Incoming(c[base], whole)]
                 else recv.Contents() == Partial(c[0], whole) + c[n + h.dataLen..] && told == []
      ensures var c, n := old(recv.Contents()), base + h.headerLen;
              var t := if Fin(c[base]) && base < |c| - n - h.dataLen then c[n + h.dataLen + base]
                       else if n < |c| then c[n] else c[base];
              sendAndClose == (old(sendAndClose) || Opcode(t) == OP_CLOSE)
    {
      hide LE32, Partial, Opcode, Fin, SizeField;
      ghost var c, n := recv.Contents(), base + h.headerLen;
      ghost var whole, more := c[5..base] + c[n..n + h.dataLen], c[n + h.dataLen..];
      var flags := recv.buf[base];
      var size := AppendFragment(base, h);
      PartialParts(recv.Contents(), c[0], whole, more);
      ghost var t := recv.buf[base];
      told := if Fin(flags) then [Incoming(flags, whole)] else [];
      if Fin(flags) {
        assert |whole| == size && recv.Contents()[5..5 + size] == whole;
        EndMessage(flags, size);
        assert recv.Contents() == more;
        assert recv.buf[base] == if base < |more| then recv.Contents()[base] else t;
      }
      CloseTest(base);
    }

    /** Moves a fragment's payload, and what follows it, down over its header, and adds its length to the size. */
    method AppendFragment(base: nat, h: Header) returns (size: nat)
      requires Valid() && 2 <= h.headerLen && base + h.headerLen + h.dataLen <= recv.len
      requires base >= 5 && base - 5 + h.dataLen < WORD32
      requires base == 5 + SizeField(recv.Contents())
      modifies recv`len, recv.buf
      ensures Valid() && base < recv.buf.Length && size == base - 5 + h.dataLen
      ensures var c, n := old(recv.Contents()), base + h.headerLen;
              && recv.Contents() == Partial(c[0], c[5..base] + c[n..n + h.dataLen]) + c[n + h.dataLen..]
              && recv.buf[base] == if n < |c| then c[n] else c[base]
    {
      hide LE32, Partial, FromLE32;
      ghost var c := recv.Contents();
      assert recv.buf[..recv.len] == c;
      size := GrowArea(recv.buf, base, base + h.headerLen, recv.len, h.dataLen);
      recv.len := recv.len - h.headerLen;
      assert recv.Contents() == recv.buf[..][..recv.len];
    }

    /** The last fragment is in: the message goes to the handler, and its area out of the buffer. */
    method EndMessage(flags: byte, size: nat)
      requires Valid() && 5 + size <= recv.len
      modifies this`trace, recv`len, recv.buf
      ensures Valid() && recv.Contents() == old(recv.Contents())[5 + size..]
      ensures trace == old(trace) + [Incoming(flags, old(recv.Contents())[5..5 + size])]
      ensures forall k :: recv.len <= k < recv.buf.Length ==> recv.buf[k] == old(recv.buf[k])
    {
      hide Incoming;
      assert recv.buf[5..5 + size] == recv.Contents()[5..5 + size];
      trace := trace + [Incoming(flags, recv.buf[5..5 + size])];
      recv.Remove(5 + size);
    }

    /** Closes once sent if the byte now at this offset looks like a close opcode. */
    method CloseTest(at: nat)
      requires at < recv.buf.Length
      modifies this`sendAndClose
      ensures sendAndClose == (old(sendAndClose) || Opcode(recv.buf[at]) == OP_CLOSE)
    {
      if Opcode(recv.buf[at]) == OP_CLOSE {
        sendAndClose := true;
      }
    }

    method FindBase() returns (base: nat)
      requires Valid()
      ensures base == Base(recv.Contents(), noDefrag)
    {
      ghost var b := recv.Contents();
      base := 0;
      if recv.len > 0 && IsFragment(recv.buf[0]) && !noDefrag && !IsFirstFragment(recv.buf[0]) && recv.len >= 5 {
        var size := FromLE32(recv.buf[1], recv.buf[2], recv.buf[3], recv.buf[4]);
        assert size == SizeField(b);
        if recv.len >= 5 + size {
          base := 5 + size;
        }
      }
    }

    method ReadHeader(base: nat) returns (h: Header)
      requires Valid() && base <= recv.len
      ensures h == ParseHeader(recv.Contents()[base..])
    {
      ghost var f := recv.Contents()[base..];
      var p := recv.buf;
      var bufLen := recv.len - base;
      var maskLen, headerLen, dataLen := 0, 0, 0;
      if bufLen >= 2 {
        assert p[base + 1] == f[1];
        var len := p[base + 1] % 128;
        maskLen := if p[base + 1] >= 128 then 4 else 0;
        if len < 126 && bufLen >= maskLen {
          headerLen, dataLen := 2 + maskLen, len;
        } else if len == 126 && bufLen >= 4 + maskLen {
          headerLen, dataLen := 4 + maskLen, FromBE16(p[base + 2], p[base + 3]);
        } else if bufLen >= 10 + maskLen {
          headerLen := 10 + maskLen;
          dataLen := FromBE32(p[base + 2], p[base + 3], p[base + 4], p[base + 5]) * WORD32
                     + FromBE32(p[base + 6], p[base + 7], p[base + 8], p[base + 9]);
        }
      }
      h := Header(headerLen, maskLen, dataLen);
    }

    // ----- sending -----

    /** Queues the header, and the mask if this is a client; pos is where a payload to be masked starts, or 0. */
    method SendHeader(op: nat, len: nat, mask: seq<byte>, ghost payload: seq<byte>) returns (pos: nat)
      requires Valid() && len == |payload| < INT_LIMIT && |mask| == 4
      modifies send, send.buf
      ensures Valid() && (send.buf == old(send.buf) || fresh(send.buf))
      ensures send.Contents() == old(send.Contents()) + SentFrame(op, SendMask(mask), payload).HeaderBytes()
      ensures pos == if isClient then send.len else 0
    {
      hide SentFrame, Frame.HeaderBytes;
      var header := ComposeHeader(op, len, isClient, SendMask(mask), payload);
      send.Append(header);
      pos := 0;
      if isClient {
        send.Append(mask);
        pos := send.len;
      }
    }

    /** Only clients mask. */
    function SendMask(mask: seq<byte>): Option<seq<byte>>
    {
      if isClient then Some(mask) else None
    }

    /** Masks what was queued since pos, in place; everything queued earlier stays as it is. */
    method MaskFrame(pos: nat, mask: seq<byte>)
      requires Valid() && pos <= send.len && |mask| == 4
      modifies send.buf
      ensures Valid()
      ensures send.Contents() == if pos == 0 then old(send.Contents())
                                 else old(send.Contents())[..pos] + Masked(old(send.Contents())[pos..], mask)
    {
      if pos == 0 {
        return;
      }
      hide Xor, Masked;
      ghost var b := send.Contents();
      var p := send.buf;
      var i := 0;
      while i < send.len - pos
        invariant 0 <= i <= send.len - pos
        invariant forall k :: 0 <= k < pos || pos + i <= k < send.len ==> p[k] == b[k]
        invariant forall k :: 0 <= k < i ==> p[pos + k] == Xor(b[pos + k], mask[k % 4])
      {
        p[pos + i] := Xor(p[pos + i], mask[i % 4]);
        i := i + 1;
      }
      XoredByMask(b, send.Contents(), pos, mask);
    }

    /** Queues one frame; mask is the random mask, used by clients only. */
    method SendFrame(op: nat, data: seq<byte>, mask: seq<byte>)
      requires Valid() && |data| < INT_LIMIT && |mask| == 4
      modifies this`sendAndClose, send, send.buf
      ensures Valid() && (send.buf == old(send.buf) || fresh(send.buf))
      ensures send.Contents() == old(send.Contents()) + SentFrame(op, SendMask(mask), data).Wire()
      ensures sendAndClose == (old(sendAndClose) || op == OP_CLOSE)
    {
      hide Frame.Wire, Frame.HeaderBytes, Masked, SentFrame;
      ghost var b, f := send.Contents(), SentFrame(op, SendMask(mask), data);
      SentFrameIs(op, SendMask(mask), data);
      var pos := SendHeader(op, |data|, mask, data);
      send.Append(data);
      QueuedFrame(b, f, send.Contents(), pos);
      MaskFrame(pos, mask);
      if op == OP_CLOSE {
        sendAndClose := true;
      }
    }

    /** Queues one frame whose payload comes in pieces: the same bytes as sending the concatenation. */
    method SendFrameV(op: nat, parts: seq<seq<byte>>, mask: seq<byte>)
      requires Valid() && |Concat(parts)| < INT_LIMIT && |mask| == 4
      modifies this`sendAndClose, send, send.buf
      ensures Valid() && (send.buf == old(send.buf) || fresh(send.buf))
      ensures send.Contents() == old(send.Contents()) + SentFrame(op, SendMask(mask), Concat(parts)).Wire()
      ensures sendAndClose == (old(sendAndClose) || op == OP_CLOSE)
    {
      hide Frame.Wire, Frame.HeaderBytes, Masked, SentFrame, Concat;
      ghost var b, f := send.Contents(), SentFrame(op, SendMask(mask), Concat(parts));
      SentFrameIs(op, SendMask(mask), Concat(parts));
      var len := TotalLength(parts);
      var pos := SendHeader(op, len, mask, Concat(parts));
      AppendParts(send, parts);
      QueuedFrame(b, f, send.Contents(), pos);
      MaskFrame(pos, mask);
      if op == OP_CLOSE {
        sendAndClose := true;
      }
    }
  }

  /** Absorbing the frame at base, its payload in the clear. */
  function AbsorbedAt(c: seq<byte>, noDefrag: bool, base: nat, h: Header): Outcome
    requires base < base + h.headerLen + h.dataLen <= |c|
  {
    var n := base + h.headerLen;
    Absorb(c, noDefrag, c[base], h.headerLen, c[n..n + h.dataLen], c[n + h.dataLen..])
  }

  function CloseByteAt(c: seq<byte>, noDefrag: bool, base: nat, h: Header): Option<byte>
    requires base < base + h.headerLen + h.dataLen <= |c|
  {
    var n := base + h.headerLen;
    CloseByte(c, noDefrag, c[base], h.headerLen, c[n..n + h.dataLen], c[n + h.dataLen..])
  }

  /** What is left in the buffer, what the handler was told, and whether the connection is to close, before and now. */
  predicate Dispatched(c: seq<byte>, noDefrag: bool, base: nat, h: Header, rest: seq<byte>, told: seq<Event>,
                       before: bool, now: bool)
    requires base < base + h.headerLen + h.dataLen <= |c|
  {
    var t := CloseByteAt(c, noDefrag, base, h);
    && AbsorbedAt(c, noDefrag, base, h) == Delivered(told, rest)
    && (before ==> now) && (t.Some? ==> now == (before || Opcode(t.value) == OP_CLOSE))
  }

  /** What is known of a frame that can be absorbed, in each of the three ways. */
  lemma AbsorbGuards(c: seq<byte>, noDefrag: bool, base: nat, h: Header)
    requires 2 <= h.headerLen && base + h.headerLen + h.dataLen <= |c| && base == Base(c, noDefrag)
    requires AbsorbedAt(c, noDefrag, base, h).Delivered?
    ensures !IsFragment(c[0]) || noDefrag ==> base == 0
    ensures IsFragment(c[0]) && !noDefrag ==>
              if IsFirstFragment(c[base]) then h.dataLen < WORD32
              else base >= 5 && base == 5 + SizeField(c) && base - 5 + h.dataLen < WORD32
  {
    hide Opcode, Fin, FromLE32;
  }

  lemma WholeDispatched(c: seq<byte>, noDefrag: bool, h: Header, rest: seq<byte>, before: bool, now: bool)
    requires 2 <= h.headerLen && h.headerLen + h.dataLen <= |c| && (!IsFragment(c[0]) || noDefrag)
    requires var n := h.headerLen + h.dataLen;
             rest == c[n..] && now == (before || Opcode(if n < |c| then c[n] else c[0]) == OP_CLOSE)
    ensures Dispatched(c, noDefrag, 0, h, rest, [Incoming(c[0], c[h.headerLen..h.headerLen + h.dataLen])], before, now)
  {
    hide Opcode, Fin;
  }

  lemma FirstDispatched(c: seq<byte>, base: nat, h: Header, rest: seq<byte>, before: bool, now: bool)
    requires 2 <= h.headerLen && base + h.headerLen + h.dataLen <= |c| && h.dataLen < WORD32
    requires base == Base(c, false) && IsFragment(c[0]) && IsFirstFragment(c[base])
    requires var all := Stomped(c[base + h.headerLen..], 5 - base - h.headerLen);
             && rest == [c[0] - Opcode(c[0])] + LE32(h.dataLen) + all && (before ==> now)
             && (all != [] || |c| > 5 ==> now == (before || Opcode(if all != [] then all[0] else c[5]) == OP_CLOSE))
    ensures Dispatched(c, false, base, h, rest, [], before, now)
  {
    hide Opcode, Fin, LE32, FromLE32, Base;
    var n := base + h.headerLen;
    assert c[n..] == c[n..n + h.dataLen] + c[n + h.dataLen..];
  }

  lemma NextDispatched(c: seq<byte>, base: nat, h: Header, rest: seq<byte>, told: seq<Event>, before: bool, now: bool)
    requires 2 <= h.headerLen && base + h.headerLen + h.dataLen <= |c| && 5 <= base && base - 5 + h.dataLen < WORD32
    requires base == Base(c, false) && IsFragment(c[0]) && !IsFirstFragment(c[base])
    requires var n := base + h.headerLen;
             var whole := c[5..base] + c[n..n + h.dataLen];
             var t := if Fin(c[base]) && base < |c| - n - h.dataLen then c[n + h.dataLen + base]
                      else if n < |c| then c[n] else c[base];
             && now == (before || Opcode(t) == OP_CLOSE)
             && if Fin(c[base]) then rest == c[n + h.dataLen..] && told == [Incoming(c[base], whole)]
                else rest == Partial(c[0], whole) + c[n + h.dataLen..] && told == []
    ensures Dispatched(c, false, base, h, rest, told, before, now)
  {
    hide Opcode, Fin, LE32, FromLE32, Base, Partial;
    var n := base + h.headerLen;
    assert c[n..] == c[n..n + h.dataLen] + c[n + h.dataLen..];
  }

  method ComposeHeader(op: nat, len: nat, masked: bool, ghost mask: Option<seq<byte>>, ghost payload: seq<byte>)
    returns (header: seq<byte>)
    requires len == |payload| < INT_LIMIT && (mask.Some? ==> |mask.value| == 4) && (masked <==> mask.Some?)
    ensures SentFrame(op, mask, payload).HeaderBytes() == header + if masked then mask.value else []
  {
    hide BE32, BE16;
    header := [(if op / DONT_FIN % 2 == 1 then 0 else 0x80) + op % 16];
    var bit := if masked then 128 else 0;
    if len < 126 {
      header := header + [bit + len];
    } else if len < 65535 {
      header := header + [bit + 126] + BE16(len);
    } else {
      assert len / WORD32 < WORD32;
      header := header + [bit + 127] + BE32(len / WORD32) + BE32(len % WORD32);
    }
    HeaderQueued(op, mask, payload, header);
  }

  lemma SentFrameIs(op: nat, mask: Option<seq<byte>>, payload: seq<byte>)
    requires |payload| < INT_LIMIT && (mask.Some? ==> |mask.value| == 4)
    ensures var f := SentFrame(op, mask, payload); f.Valid() && f.payload == payload && f.mask == mask
  {
  }

  method AppendParts(io: Mbuf, parts: seq<seq<byte>>)
    requires io.Valid()
    modifies io, io.buf
    ensures io.Valid() && (io.buf == old(io.buf) || fresh(io.buf))
    ensures io.Contents() == old(io.Contents()) + Concat(parts)
  {
    hide Concat;
    ghost var q := io.Contents();
    NoParts(q);
    for i := 0 to |parts|
      invariant io.Valid() && (io.buf == old(io.buf) || fresh(io.buf))
      invariant io.Contents() == q + Concat(parts[..i])
    {
      SplitAt(parts, i);
      ConcatSnoc(parts[..i], parts[i]);
      io.Append(parts[i]);
    }
    assert parts[..|parts|] == parts;
  }

  lemma NoParts(q: seq<byte>)
    ensures q + Concat([]) == q
  {
  }

  method TotalLength(parts: seq<seq<byte>>) returns (len: nat)
    ensures len == |Concat(parts)|
  {
    len := 0;
    for i := 0 to |parts|
      invariant len == |Concat(parts[..i])|
    {
      assert parts[..i + 1] == parts[..i] + [parts[i]];
      ConcatSnoc(parts[..i], parts[i]);
      len := len + |parts[i]|;
    }
    assert parts[..|parts|] == parts;
  }

  lemma HeaderQueued(op: nat, mask: Option<seq<byte>>, payload: seq<byte>, header: seq<byte>)
    requires |payload| < INT_LIMIT && (mask.Some? ==> |mask.value| == 4)
    requires var bit := if mask.Some? then 128 else 0;
             header == [(if op / DONT_FIN % 2 == 1 then 0 else 0x80) + op % 16]
                       + (if |payload| < 126 then [bit + |payload|]
                          else if |payload| < 65535 then [bit + 126] + BE16(|payload|)
                          else [bit + 127] + BE32(|payload| / WORD32) + BE32(|payload| % WORD32))
    ensures SentFrame(op, mask, payload).HeaderBytes() == header + if mask.Some? then mask.value else []
  {
  }

  /** A queued header and clear payload become the frame once the payload is masked. */
  lemma QueuedFrame(b: seq<byte>, f: Frame, q: seq<byte>, pos: nat)
    requires f.Valid() && q == b + f.HeaderBytes() + f.payload
    requires pos == if f.mask.Some? then |b| + f.HeaderLen() else 0
    ensures f.mask.None? ==> q == b + f.Wire()
    ensures f.mask.Some? ==> pos > 0 && q[..pos] + Masked(q[pos..], f.mask.value) == b + f.Wire()
  {
    hide Masked, Frame.HeaderBytes;
    if f.mask.Some? {
      assert q[pos..] == f.payload && q[..pos] == b + f.HeaderBytes();
    }
  }

  lemma XoredByMask(b: seq<byte>, c: seq<byte>, pos: nat, mask: seq<byte>)
    requires pos <= |b| == |c| && |mask| == 4
    requires forall k :: 0 <= k < pos ==> c[k] == b[k]
    requires forall i :: 0 <= i < |b| - pos ==> c[pos + i] == Xor(b[pos + i], mask[i % 4])
    ensures c == b[..pos] + Masked(b[pos..], mask)
  {
    hide Xor;
    assert c[pos..] == Masked(b[pos..], mask);
    assert c[..pos] == b[..pos];
  }

  /** XORs n bytes from offset data on with the four mask bytes in front of them. */
  method Unmask(p: array<byte>, data: nat, n: nat, ghost e: nat)
    requires 4 <= data && data + n <= e <= p.Length
    modifies p
    ensures var b := old(p[..e]);
            p[..e] == b[..data] + Masked(b[data..data + n], b[data - 4..data]) + b[data + n..]
  {
    hide Xor, Masked;
    var i := 0;
    while i < n
      invariant 0 <= i <= n
      invariant forall k :: 0 <= k < data || data + i <= k < p.Length ==> p[k] == old(p[k])
      invariant forall k :: 0 <= k < i ==> p[data + k] == Xor(old(p[data + k]), old(p[data - 4 + k % 4]))
    {
      p[data + i] := Xor(p[data + i], p[data - 4 + i % 4]);
      i := i + 1;
    }
    XoredIsMasked(old(p[..e]), p[..e], data, n);
  }

  /** Opens the reassembly area over a first fragment's header: clears the opcode, zeroes the size, moves the data. */
  method OpenArea(p: array<byte>, data: nat, e: nat, n: nat)
    requires 2 <= data <= e && e + 4 <= p.Length && n < WORD32
    modifies p
    ensures var b := old(p[..]);
            p[..][..e - data + 5] == [b[0] - Opcode(b[0])] + LE32(n) + Stomped(b[data..e], 5 - data)
    ensures data == e > 5 ==> p[5] == old(p[5])
  {
    hide LE32, Stomped;
    ghost var p0 := p[..];
    p[0] := p[0] - Opcode(p[0]);
    MemCpy(p, 1, LE32(0));
    ghost var p1 := p[..];
    assert p1[5..] == p0[5..];
    MemMove(p, 5, data, e - data);
    ghost var p2 := p[..];
    MemCpy(p, 1, LE32(n));
    OpenedByte(p0, p1, p2, p[..], LE32(n), data, e);
    OpenedArea(p0[..e], p0, p1, p2, p[..], data, n);
    assert p0[..e][data..] == p0[data..e];
  }

  /** Moves a fragment's payload, and all that follows it, down behind the reassembled payload and adds to the size. */
  method GrowArea(p: array<byte>, base: nat, data: nat, e: nat, n: nat) returns (size: nat)
    requires 5 <= base < data && data + n <= e <= p.Length && base - 5 + n < WORD32
    requires base == 5 + FromLE32(p[1], p[2], p[3], p[4])
    modifies p
    ensures size == base - 5 + n
    ensures var c := old(p[..e]);
            p[..][..e - data + base] == Partial(c[0], c[5..base] + c[data..data + n]) + c[data + n..]
    ensures p[base] == old(p[if data < e then data else base])
  {
    hide LE32, Partial, FromLE32;
    ghost var p0 := p[..];
    size := FromLE32(p[1], p[2], p[3], p[4]) + n;
    MemMove(p, base, data, e - data);
    ghost var p1 := p[..];
    MemCpy(p, 1, LE32(size));
    GrownByte(p0, p1, p[..], LE32(size), base, data, e);
    GrownArea(p0[..e], p0, p1, p[..], base, data, n);
  }

  lemma PartialParts(b: seq<byte>, flag: byte, data: seq<byte>, more: seq<byte>)
    requires |data| < WORD32 && b == Partial(flag, data) + more
    ensures |b| == 5 + |data| + |more| && b[5..5 + |data|] == data && b[5 + |data|..] == more
  {
  }

  lemma XoredIsMasked(b: seq<byte>, c: seq<byte>, data: nat, n: nat)
    requires 4 <= data && data + n <= |b| == |c|
    requires forall k :: 0 <= k < data || data + n <= k < |b| ==> c[k] == b[k]
    requires forall i :: 0 <= i < n ==> c[data + i] == Xor(b[data + i], b[data - 4 + i % 4])
    ensures c == b[..data] + Masked(b[data..data + n], b[data - 4..data]) + b[data + n..]
  {
    hide Xor;
    var raw, mask := b[data..data + n], b[data - 4..data];
    forall i | 0 <= i < n
      ensures c[data..data + n][i] == Masked(raw, mask)[i]
    {
      assert raw[i] == b[data + i] && mask[i % 4] == b[data - 4 + i % 4];
    }
    assert c[data..data + n] == Masked(raw, mask);
    assert c[..data] == b[..data] && c[data + n..] == b[data + n..];
    assert c == c[..data] + c[data..data + n] + c[data + n..];
  }

  lemma StepReady(b: seq<byte>, noDefrag: bool, base: nat, h: Header)
    requires base == Base(b, noDefrag) && h == ParseHeader(b[base..]) && !Step(b, noDefrag).Undefined?
    ensures Step(b, noDefrag).Delivered? == FrameReady(h, |b| - base)
    ensures FrameReady(h, |b| - base) ==> 2 + h.maskLen <= h.headerLen && base + h.headerLen + h.dataLen <= |b|
    ensures !Step(b, noDefrag).Delivered? ==> Step(b, noDefrag).Incomplete?
  {
    hide ParseHeader, PayloadOf, LE32, Stomped, Partial;
  }

  /** A delivering step, told in terms of the buffer c in which the payload is already unmasked. */
  lemma StepInPlace(b: seq<byte>, c: seq<byte>, noDefrag: bool, base: nat, h: Header)
    requires base == Base(b, noDefrag) && h == ParseHeader(b[base..]) && Step(b, noDefrag).Delivered?
    requires 2 <= h.headerLen && base + h.headerLen + h.dataLen <= |b|
    requires var n := base + h.headerLen;
             && |c| == |b| && c[..n] == b[..n] && c[n..n + h.dataLen] == PayloadOf(b[base..], h)
             && c[n + h.dataLen..] == b[base..][h.headerLen + h.dataLen..]
    ensures Base(c, noDefrag) == base
    ensures Step(b, noDefrag) == AbsorbedAt(c, noDefrag, base, h)
    ensures StepCloseByte(b, noDefrag) == CloseByteAt(c, noDefrag, base, h)
  {
    hide ParseHeader, PayloadOf, Absorb, CloseByte, Base;
    var n := base + h.headerLen;
    assert c[base] == c[..n][base] == b[..n][base] == b[base];
    SameFront(b, c, n, noDefrag, c[base], h.headerLen, c[n..n + h.dataLen], c[n + h.dataLen..]);
  }

  /** Absorbing a frame looks at the buffer only up to the frame's payload. */
  lemma SameFront(b: seq<byte>, c: seq<byte>, n: nat, noDefrag: bool, flags: byte, headerLen: nat, payload: seq<byte>, after: seq<byte>)
    requires |b| == |c| && 0 < n <= |b| && b[..n] == c[..n] && Base(b, noDefrag) < n
    requires Absorb(b, noDefrag, flags, headerLen, payload, after).Delivered?
    requires Base(b, noDefrag) == 0 ==> flags == b[0]
    requires n + |payload + after| == |b|
    ensures Base(c, noDefrag) == Base(b, noDefrag)
    ensures Absorb(c, noDefrag, flags, headerLen, payload, after) == Absorb(b, noDefrag, flags, headerLen, payload, after)
    ensures CloseByte(c, noDefrag, flags, headerLen, payload, after) == CloseByte(b, noDefrag, flags, headerLen, payload, after)
  {
    hide LE32, FromLE32, Stomped, Incoming;
    var base := Base(b, noDefrag);
    assert b[0] == b[..n][0] == c[0];
    if base != 0 {
      assert forall k | 0 <= k < 5 :: b[k] == b[..n][k] == c[k];
      assert b[5..base] == b[..n][5..base] == c[5..base];
    }
  }

  /** The byte moves that open the reassembly area. */
  lemma OpenedArea(c: seq<byte>, p0: seq<byte>, p1: seq<byte>, p2: seq<byte>, p3: seq<byte>, data: nat, n: nat)
    requires 2 <= data <= |c| && |c| + 4 <= |p0| && p0[..|c|] == c && n < WORD32
    requires p1 == [p0[0] - Opcode(p0[0])] + LE32(0) + p0[5..]
    requires p2 == p1[..5] + p1[data..|c|] + p1[5 + |c| - data..]
    requires p3 == p2[..1] + LE32(n) + p2[5..]
    ensures p3[..|c| - data + 5] == [c[0] - Opcode(c[0])] + LE32(n) + Stomped(c[data..], 5 - data)
  {
    assert LE32(0) == [0, 0, 0, 0];
    hide LE32;
    assert p1[data..|c|] == Stomped(c[data..], 5 - data);
  }

  lemma OpenedByte(p0: seq<byte>, p1: seq<byte>, p2: seq<byte>, p3: seq<byte>, size: seq<byte>, data: nat, e: nat)
    requires 2 <= data <= e && e + 4 <= |p0| && |size| == 4
    requires |p1| == |p0| && p1[5..] == p0[5..]
    requires p2 == p1[..5] + p1[data..e] + p1[5 + e - data..]
    requires p3 == p2[..1] + size + p2[5..]
    ensures |p3| == |p0| && (data == e > 5 ==> p3[5] == p0[5])
  {
    if data == e > 5 {
      assert p3[5] == p2[5] == p1[5..][0];
    }
  }

  /** The byte moves that append a fragment to the reassembly area. */
  lemma GrownArea(c: seq<byte>, p0: seq<byte>, p1: seq<byte>, p2: seq<byte>, base: nat, data: nat, n: nat)
    requires 5 <= base < data && data + n <= |c| <= |p0| && p0[..|c|] == c && base - 5 + n < WORD32
    requires p1 == p0[..base] + p0[data..|c|] + p0[base + |c| - data..]
    requires p2 == p1[..1] + LE32(base - 5 + n) + p1[5..]
    ensures p2[..|c| - data + base] == Partial(c[0], c[5..base] + c[data..data + n]) + c[data + n..]
    ensures p2[5..base + n] == c[5..base] + c[data..data + n]
  {
    hide LE32;
    var size, area, part, tail := LE32(base - 5 + n), c[5..base], c[data..data + n], c[data + n..];
    var junk := p0[base + |c| - data..];
    assert p0[data..|c|] == part + tail && p0[..base] == c[..base];
    assert p1[..1] == [c[0]] && p1[5..] == area + (part + tail) + junk;
    Grown(c[0], size, area, part, tail, junk, p2);
  }

  lemma GrownByte(p0: seq<byte>, p1: seq<byte>, p2: seq<byte>, size: seq<byte>, base: nat, data: nat, e: nat)
    requires 5 <= base < data <= e <= |p0| && |size| == 4
    requires p1 == p0[..base] + p0[data..e] + p0[base + e - data..]
    requires p2 == p1[..1] + size + p1[5..]
    ensures |p2| == |p0| && p2[base] == p0[if data < e then data else base]
  {
    assert p2[base] == p1[base];
  }

  lemma Grown(first: byte, size: seq<byte>, area: seq<byte>, part: seq<byte>, tail: seq<byte>, junk: seq<byte>, p: seq<byte>)
    requires |size| == 4 && p == [first] + size + (area + (part + tail) + junk)
    ensures p[..5 + |area| + |part| + |tail|] == [first] + size + (area + part) + tail
    ensures p[5..5 + |area| + |part|] == area + part
  {
    assert p == ([first] + size) + (area + part) + (tail + junk);
    ThreeParts([first] + size, area + part, tail + junk);
    assert p == ([first] + size + (area + part) + tail) + junk;
  }

  /** Unmasking in place turns the frame's raw payload into the payload it carries, and nothing else. */
  lemma UnmaskedInPlace(b: seq<byte>, c: seq<byte>, base: nat, h: Header)
    requires base <= |b| && h == ParseHeader(b[base..])
    requires 0 < h.headerLen && base + h.headerLen + h.dataLen <= |b|
    requires var n := base + h.headerLen;
             c == if h.maskLen == 0 then b
                  else b[..n] + Masked(b[n..n + h.dataLen], b[n - 4..n]) + b[n + h.dataLen..]
    ensures var n := base + h.headerLen;
            && |c| == |b| && c[..n] == b[..n]
            && c[n..n + h.dataLen] == PayloadOf(b[base..], h)
            && c[n + h.dataLen..] == b[base..][h.headerLen + h.dataLen..]
  {
    var n := base + h.headerLen;
    SliceOfTail(b, base, h.headerLen, h.headerLen + h.dataLen);
    SliceOfTail(b, base, h.headerLen - h.maskLen, h.headerLen);
    TailOfTail(b, base, h.headerLen + h.dataLen);
    hide ParseHeader, Masked;
    if h.maskLen != 0 {
      ThreeParts(b[..n], Masked(b[n..n + h.dataLen], b[n - 4..n]), b[n + h.dataLen..]);
    }
  }
}
