/** The MQTT side of a connection: parsing what was received, and the packets it sends. */
module Mqtt {
  import opened Bytes
  import opened IoBuffers
  import opened MqttCodec
  import opened MqttWire

  class Connection {
    const recv: Mbuf
    const send: Mbuf
    ghost var trace: seq<Message>  // one event per packet

    ghost predicate Valid()
      reads this, recv, send
    {
      recv.Valid() && send.Valid() && recv != send && recv.buf != send.buf
    }

    constructor ()
      ensures Valid() && fresh(recv) && fresh(send) && fresh(recv.buf) && fresh(send.buf)
      ensures recv.Contents() == send.Contents() == [] && trace == []
    {
      recv := new Mbuf(0);
      send := new Mbuf(0);
      trace := [];
    }

    /** Inserts the fixed header in front of the last len queued bytes; what was queued before them stays. */
    method PrependHeader(cmd: nat, flags: nat, len: nat)
      requires Valid() && cmd < 16 && flags < 16 && len <= send.len
      modifies send, send.buf
      ensures Valid() && (send.buf == old(send.buf) || fresh(send.buf))
      ensures var s := old(send.Contents()); var off := |s| - len;
              send.Contents() == s[..off] + ([cmd * 16 + flags] + VarLen(len)) + s[off..]
    {
      hide VarLen;
      var off := send.len - len;
      var vlen := EncodeLength(len);
      send.Insert(off, [cmd * 16 + flags] + vlen);
    }

    method Publish(topic: seq<byte>, messageId: nat, flags: nat, data: seq<byte>)
      requires Valid() && flags < 16 && messageId < 0x1_0000 && |topic| < 0x1_0000
      modifies send, send.buf
      ensures Valid() && (send.buf == old(send.buf) || fresh(send.buf))
      ensures send.Contents() == old(send.Contents()) + Wire(PublishPacket(topic, messageId, flags, data))
    {
      hide Wire, BE16;
      ghost var s := send.Contents();
      var oldLen := send.len;
      send.Append(BE16(|topic|));
      send.Append(topic);
      if flags / 2 % 4 > 0 {
        send.Append(BE16(messageId));
      }
      send.Append(data);
      PublishBody(s, topic, messageId, flags, data, send.Contents());
      PrependPacket(s, PublishPacket(topic, messageId, flags, data), PUBLISH, flags, send.len - oldLen);
    }

    method Subscribe(topics: seq<(seq<byte>, byte)>, messageId: nat)
      requires Valid() && messageId < 0x1_0000 && forall i :: 0 <= i < |topics| ==> |topics[i].0| < 0x1_0000
      modifies send, send.buf
      ensures Valid() && (send.buf == old(send.buf) || fresh(send.buf))
      ensures send.Contents() == old(send.Contents()) + Wire(SubscribePacket(topics, messageId))
    {
      hide Wire, BE16, TopicBytes;
      ghost var s := send.Contents();
      var oldLen := send.len;
      send.Append(BE16(messageId));
      ghost var front := send.Contents();
      var i := 0;
      TopicsDone(topics);
      while i < |topics|
        invariant 0 <= i <= |topics|
        invariant Valid() && (send.buf == old(send.buf) || fresh(send.buf))
        invariant send.Contents() == front + TopicBytes(topics[..i])
      {
        TopicsNext(topics, i, front);
        send.Append(BE16(|topics[i].0|));
        send.Append(topics[i].0);
        send.Append([topics[i].1]);
        i := i + 1;
      }
      assert send.Contents() == s + SubscribePacket(topics, messageId).body;
      PrependPacket(s, SubscribePacket(topics, messageId), SUBSCRIBE, 2, send.len - oldLen);
    }

    /** Makes the last len bytes, a packet's body, into the packet. */
    method PrependPacket(ghost s: seq<byte>, ghost k: Packet, cmd: nat, flags: nat, len: nat)
      requires Valid() && cmd < 16 && flags < 16 && k.header == cmd * 16 + flags
      requires send.Contents() == s + k.body && len == |k.body|
      modifies send, send.buf
      ensures Valid() && (send.buf == old(send.buf) || fresh(send.buf))
      ensures send.Contents() == s + Wire(k)
    {
      hide VarLen;
      PrependHeader(cmd, flags, len);
      Prepended(s, k.body, [cmd * 16 + flags] + VarLen(len), send.Contents());
    }

    /** PUBACK, PUBREC and their like. */
    method SendShortCommand(cmd: nat, messageId: nat)
      requires Valid() && cmd < 16 && messageId < 0x1_0000
      modifies send, send.buf
      ensures Valid() && (send.buf == old(send.buf) || fresh(send.buf))
      ensures send.Contents() == old(send.Contents()) + Wire(ShortCommand(cmd, messageId))
    {
      hide Wire;
      ghost var s := send.Contents();
      send.Append(BE16(messageId));
      PrependPacket(s, ShortCommand(cmd, messageId), cmd, 2, 2);
    }

    /** A received segment: every packet complete by now raises its event, once, and queues its acknowledgement. */
    method Receive(segment: seq<byte>)
      requires Valid() && Drain(recv.Contents() + segment).Some?
      modifies this, recv, recv.buf, send, send.buf
      ensures Valid() && (recv.buf == old(recv.buf) || fresh(recv.buf)) && (send.buf == old(send.buf) || fresh(send.buf))
      ensures var (ms, left) := Drain(old(recv.Contents()) + segment).value;
              && recv.Contents() == left && trace == old(trace) + ms
              && send.Contents() == old(send.Contents()) + AllAcks(ms)
    {
      hide Drain, Acks;
      recv.Append(segment);
      ghost var (more, final) := Drain(recv.Contents()).value;
      ghost var goal, queued := trace + more, send.Contents() + AllAcks(more);
      var again := true;
      while again
        invariant Valid() && (recv.buf == old(recv.buf) || fresh(recv.buf)) && (send.buf == old(send.buf) || fresh(send.buf))
        invariant Drain(recv.Contents()) == Some((more, final)) && trace + more == goal
        invariant send.Contents() + AllAcks(more) == queued
        invariant !again ==> more == [] && final == recv.Contents()
        decreases again, recv.len
      {
        ghost var before, was, sent := trace, more, send.Contents();
        again := ParseNext();
        more := Drain(recv.Contents()).value.0;
        if trace != before {
          FirstDone(before, sent, was);
        }
      }
      assert trace + [] == trace && send.Contents() + [] == send.Contents();
    }

    /** One turn of the handler: parses, raises the event, removes the packet; goes on while two bytes are left. */
    method ParseNext() returns (again: bool)
      requires Valid() && Drain(recv.Contents()).Some?
      modifies this, recv, recv.buf, send, send.buf
      ensures Valid() && (recv.buf == old(recv.buf) || fresh(recv.buf)) && (send.buf == old(send.buf) || fresh(send.buf))
      ensures Drain(recv.Contents()).Some?
      ensures var was, now := old(Drain(recv.Contents())).value, Drain(recv.Contents()).value;
              && now.1 == was.1
              && if trace == old(trace) then
                   !again && was.0 == now.0 == [] && send.Contents() == old(send.Contents())
                 else
                   && was.0 != [] && now.0 == was.0[1..] && trace == old(trace) + [was.0[0]]
                   && send.Contents() == old(send.Contents()) + Acks(was.0[0])
                   && recv.len < old(recv.len)
      ensures !again ==> Drain(recv.Contents()).value == ([], recv.Contents())
    {
      hide Drain, Step, Acks;
      ghost var b := recv.Contents();
      DrainUnfold(b);
      var past: byte := *;
      SameStep(b, 0, past);
      again := false;
      var len, mm := ParseMqtt(past);
      if len != -1 {
        trace := trace + [mm];
        recv.Remove(len);
        again := recv.len >= 2;
        if !again {
          TooShort(recv.Contents());
          DrainUnfold(recv.Contents());
        }
      }
    }

    /**
     Parses the packet at the front of the buffer: its length, or -1 if it is not all there; past is the byte that
     lies just past the data.
     */
    method ParseMqtt(past: byte) returns (len: int, mm: Message)
      requires Valid() && Step(recv.Contents(), past) !in {Malformed, Undefined}
      modifies send, send.buf
      ensures Valid() && (send.buf == old(send.buf) || fresh(send.buf))
      ensures match Step(recv.Contents(), past)
              case Incomplete => len == -1 && send.Contents() == old(send.Contents())
              case Done(m, rest) =>
                && mm == m && 0 <= len <= recv.len && rest == recv.Contents()[len..]
                && send.Contents() == old(send.Contents()) + Acks(m)
    {
      hide ScanLen, Interpret, Acks;
      ghost var b := recv.Contents();
      mm := Blank(0, 0);
      if recv.len < 2 {
        return -1, mm;
      }
      var header := recv.buf[0];
      var n, p := ReadLength(past);
      if p + n > recv.len {
        return -1, mm;
      }
      assert recv.buf[p..p + n] == b[p..p + n];
      mm := ReadFields(header, recv.buf[p..p + n]);
      len := p + n;
    }

    /** The length field: it is scanned as long as bytes have their top bit set and p is not beyond the data. */
    method ReadLength(past: byte) returns (len: nat, p: nat)
      requires Valid() && recv.len >= 1 && ScanLen(recv.Contents(), past, 1).Some?
      ensures ScanLen(recv.Contents(), past, 1) == Some((len, p))
    {
      hide ScanLen;
      ghost var b := recv.Contents();
      len, p := 0, 1;
      var scale, more := 1, true;
      while more
        invariant 1 <= p <= recv.len + 1 && scale >= 1
        invariant more ==> p <= recv.len
        invariant if more then
                    var r := ScanLen(b, past, p);
                    r.Some? && ScanLen(b, past, 1) == Some((len + scale * r.value.0, r.value.1))
                  else ScanLen(b, past, 1) == Some((len, p))
        decreases recv.len + 1 - p, more
      {
        ScanOnce(b, past, p);
        var c := ByteNear(p, past);
        if c >= 0x80 && p + 1 <= recv.len {
          Accumulate(len, scale, c % 0x80, ScanLen(b, past, p + 1).value.0);
        }
        len := len + scale * (c % 0x80);
        p := p + 1;
        more := c >= 0x80 && p <= recv.len;
        scale := scale * 0x80;
      }
    }

    method ByteNear(i: nat, past: byte) returns (c: byte)
      requires Valid() && i <= recv.len
      ensures c == ByteAt(recv.Contents(), past, i)
    {
      if i < recv.len {
        c := recv.buf[i];
      } else {
        c := past;
      }
    }

    /** The fields of a complete packet; a PUBLISH is acknowledged here. */
    method ReadFields(header: byte, s: seq<byte>) returns (mm: Message)
      requires Valid() && Interpret(header, s).Some?
      modifies send, send.buf
      ensures Valid() && (send.buf == old(send.buf) || fresh(send.buf))
      ensures Interpret(header, s) == Some(mm)
      ensures send.Contents() == old(send.Contents()) + Acks(mm)
    {
      hide ReadConnect;
      var cmd, qos := header / 16, header / 2 % 4;
      mm := Blank(cmd, qos);
      if cmd == CONNECT {
        var c := ReadConnectFields(s);
        mm := mm.(connect := c);
      } else if cmd == CONNACK {
        mm := mm.(connackCode := s[1]);
      } else if cmd in {PUBACK, PUBREC, PUBREL, PUBCOMP, SUBACK} {
        mm := mm.(messageId := FromBE16(s[0], s[1]));
      } else if cmd == PUBLISH {
        var topic, i := ScanTo(s, 0);
        mm := mm.(topic := topic);
        if qos > 0 {
          mm := mm.(messageId := FromBE16(s[i], s[i + 1]));
          i := i + 2;
        }
        mm := mm.(payload := s[i..]);
        hide FromBE16, ScanString, Wire;
        if qos == 1 {
          SendShortCommand(PUBACK, mm.messageId);
        } else if qos == 2 {
          SendShortCommand(PUBREC, mm.messageId);
        }
      } else if cmd == SUBSCRIBE {
        mm := mm.(messageId := FromBE16(s[0], s[1]), payload := s[2..]);
      }
      assert old(send.Contents()) + [] == old(send.Contents());
    }
  }

  method ScanTo(s: seq<byte>, i: nat) returns (r: seq<byte>, next: nat)
    requires ScanString(s, i).Some?
    ensures ScanString(s, i) == Some((r, next))
  {
    var n := FromBE16(s[i], s[i + 1]);
    r, next := s[i + 2..i + 2 + n], i + 2 + n;
  }

  /** The fields of a CONNECT: each optional one only if its flag is set and the packet goes on. */
  method ReadConnectFields(s: seq<byte>) returns (c: Connect)
    requires ReadConnect(s).Some?
    ensures ReadConnect(s) == Some(c)
  {
    var name, i := ScanTo(s, 0);
    var flags := s[i + 1];
    c := NoConnect.(protocolName := name, version := s[i], flags := flags, keepAlive := FromBE16(s[i + 2], s[i + 3]));
    i := i + 4;
    var r;
    if i < |s| {
      r, i := ScanTo(s, i);
      c := c.(clientId := r);
    }
    if i < |s| && HasFlag(flags, HAS_WILL) {
      r, i := ScanTo(s, i);
      c := c.(willTopic := r);
    }
    if i < |s| && HasFlag(flags, HAS_WILL) {
      r, i := ScanTo(s, i);
      c := c.(willMessage := r);
    }
    if i < |s| && HasFlag(flags, HAS_USER_NAME) {
      r, i := ScanTo(s, i);
      c := c.(userName := r);
    }
    if i < |s| && HasFlag(flags, HAS_PASSWORD) {
      r, i := ScanTo(s, i);
      c := c.(password := r);
    }
  }

  /** The variable-length form of a length. */
  method EncodeLength(len: nat) returns (vlen: seq<byte>)
    ensures vlen == VarLen(len)
  {
    hide VarLen;
    vlen := [];
    var n, more := len, true;
    assert [] + VarLen(len) == VarLen(len);
    while more
      invariant VarLen(len) == vlen + if more then VarLen(n) else []
      decreases if more then n + 1 else 0
    {
      LengthDigit(vlen, n);
      var d := n % 0x80;
      n := n / 0x80;
      more := n > 0;
      vlen := vlen + [if more then 0x80 + d else d];
    }
    assert vlen + [] == vlen;
  }

  lemma LengthDigit(vlen: seq<byte>, n: nat)
    ensures vlen + VarLen(n)
            == (vlen + [if n / 0x80 > 0 then 0x80 + n % 0x80 else n % 0x80])
               + if n / 0x80 > 0 then VarLen(n / 0x80) else []
  {
    var d := if n / 0x80 > 0 then 0x80 + n % 0x80 else n % 0x80;
    assert VarLen(n) == [d] + if n / 0x80 > 0 then VarLen(n / 0x80) else [];
  }

  lemma PublishBody(s: seq<byte>, topic: seq<byte>, messageId: nat, flags: nat, data: seq<byte>, r: seq<byte>)
    requires flags < 16 && messageId < 0x1_0000 && |topic| < 0x1_0000
    requires var w := (s + BE16(|topic|)) + topic;
             r == (if flags / 2 % 4 > 0 then w + BE16(messageId) else w) + data
    ensures r == s + PublishPacket(topic, messageId, flags, data).body
  {
    hide BE16;
  }

  lemma TopicsDone(topics: seq<(seq<byte>, byte)>)
    requires forall i :: 0 <= i < |topics| ==> |topics[i].0| < 0x1_0000
    ensures TopicBytes(topics[..0]) == [] && topics[..|topics|] == topics
  {
  }

  /** One more topic at the end of the list is its bytes at the end of the bytes. */
  lemma {:induction false} TopicBytesSnoc(front: seq<(seq<byte>, byte)>, t: (seq<byte>, byte))
    requires |t.0| < 0x1_0000 && forall i :: 0 <= i < |front| ==> |front[i].0| < 0x1_0000
    ensures TopicBytes(front + [t]) == TopicBytes(front) + (BE16(|t.0|) + t.0 + [t.1])
  {
    hide BE16;
    if front == [] {
      assert front + [t] == [t] && [t][1..] == [];
    } else {
      assert (front + [t])[1..] == front[1..] + [t];
      TopicBytesSnoc(front[1..], t);
    }
  }

  lemma TopicsNext(topics: seq<(seq<byte>, byte)>, i: nat, front: seq<byte>)
    requires i < |topics| && forall i :: 0 <= i < |topics| ==> |topics[i].0| < 0x1_0000
    ensures var t := topics[i];
            front + TopicBytes(topics[..i + 1]) == (((front + TopicBytes(topics[..i])) + BE16(|t.0|)) + t.0) + [t.1]
  {
    hide BE16, TopicBytes;
    assert topics[..i + 1] == topics[..i] + [topics[i]];
    TopicBytesSnoc(topics[..i], topics[i]);
  }

  lemma FirstDone(before: seq<Message>, sent: seq<byte>, ms: seq<Message>)
    requires ms != []
    ensures (before + [ms[0]]) + ms[1..] == before + ms
    ensures (sent + Acks(ms[0])) + AllAcks(ms[1..]) == sent + AllAcks(ms)
  {
    assert [ms[0]] + ms[1..] == ms;
    AcksOnce(ms);
    hide Acks, AllAcks;
    Regroup(before, [ms[0]], ms[1..]);
    Regroup(sent, Acks(ms[0]), AllAcks(ms[1..]));
  }

  lemma AcksOnce(ms: seq<Message>)
    requires ms != []
    ensures AllAcks(ms) == Acks(ms[0]) + AllAcks(ms[1..])
  {
    hide Acks;
  }

  lemma Prepended(s: seq<byte>, body: seq<byte>, header: seq<byte>, r: seq<byte>)
    requires r == (s + body)[..|s|] + header + (s + body)[|s|..]
    ensures r == s + (header + body)
  {
    ConcatParts(s, body);
  }

  lemma ScanOnce(b: seq<byte>, past: byte, p: nat)
    requires p <= |b| && ScanLen(b, past, p).Some?
    ensures var c, r := ByteAt(b, past, p), ScanLen(b, past, p).value;
            if c >= 0x80 && p + 1 <= |b| then
              && ScanLen(b, past, p + 1).Some?
              && r == (c % 0x80 + 0x80 * ScanLen(b, past, p + 1).value.0, ScanLen(b, past, p + 1).value.1)
            else r == (c % 0x80, p + 1)
  {
  }

  lemma Accumulate(len: nat, scale: nat, d: nat, rest: nat)
    ensures len + scale * (d + 0x80 * rest) == (len + scale * d) + (scale * 0x80) * rest
  {
  }

  lemma DrainUnfold(b: seq<byte>)
    requires Drain(b).Some?
    ensures !PastMatters(b)
    ensures match Step(b, 0)
            case Incomplete => Drain(b) == Some(([], b))
            case Malformed => false
            case Undefined => false
            case Done(m, rest) =>
              && Drain(rest).Some? && Drain(b).value.0 != []
              && Drain(b).value.0[0] == m && Drain(b).value.0[1..] == Drain(rest).value.0
              && Drain(b).value.1 == Drain(rest).value.1
  {
    hide Step;
  }

  lemma TooShort(b: seq<byte>)
    requires |b| < 2
    ensures Step(b, 0) == Incomplete && !PastMatters(b)
  {
  }

  // ----- a whole run -----

  /** A stream of packets, received in any segments on a new connection: each packet that has arrived whole has been told,
      and answered with the octets that are owed for it, in order; nothing else has been queued. */
  method ReceiveAll(c: Connection, segments: seq<seq<byte>>, ghost ks: seq<Packet>) returns (ghost n: nat)
    requires c.Valid() && c.recv.Contents() == [] && c.trace == []
    requires AllReadable(ks) && Concat(segments) <= WireAll(ks)
    modifies c, c.recv, c.recv.buf, c.send, c.send.buf
    ensures c.Valid() && n <= |ks| && AllReadable(ks[..n])
    ensures |WireAll(ks[..n])| <= |Concat(segments)| && (n < |ks| ==> |Concat(segments)| < |WireAll(ks[..n + 1])|)
    ensures c.trace == Messages(ks[..n]) && c.send.Contents() == old(c.send.Contents()) + Answers(ks[..n])
  {
    hide Drain, Receive, AllAcks, Answers, AllReadable, Messages, WireAll, Concat, Seen;
    ghost var queued := c.send.Contents();
    NothingReceived(queued);
    var i := 0;
    while i < |segments|
      invariant i <= |segments| && c.Valid()
      invariant c.recv.buf == old(c.recv.buf) || fresh(c.recv.buf)
      invariant c.send.buf == old(c.send.buf) || fresh(c.send.buf)
      invariant Receive([], segments[..i]) == Some((c.trace, c.recv.Contents()))
      invariant c.send.Contents() == queued + AllAcks(c.trace)
    {
      ghost var told := c.trace;
      NextReceived(ks, segments, i);
      ghost var more := Drain(c.recv.Contents() + segments[i]).value.0;
      c.Receive(segments[i]);
      AcksJoin(told, more);
      assert (queued + AllAcks(told)) + AllAcks(more) == queued + (AllAcks(told) + AllAcks(more));
      i := i + 1;
    }
    assert segments[..i] == segments;
    n := Told(ks, segments);
  }

  lemma NothingReceived(queued: seq<byte>)
    ensures MqttCodec.Receive([], []) == Some(([], [])) && queued + AllAcks([]) == queued
  {
  }

  /** The next segment can be received, and what it comes to. */
  lemma NextReceived(ks: seq<Packet>, segments: seq<seq<byte>>, i: nat)
    requires AllReadable(ks) && Concat(segments) <= WireAll(ks) && i < |segments|
    requires Receive([], segments[..i]).Some?
    ensures var (ms, left) := Receive([], segments[..i]).value;
            && Drain(left + segments[i]).Some?
            && var (more, last) := Drain(left + segments[i]).value;
               Receive([], segments[..i + 1]) == Some((ms + more, last))
  {
    hide Drain, Concat, WireAll, AllReadable, Seen;
    var front := segments[..i + 1];
    assert segments == front + segments[i + 1..];
    ConcatAppend(front, segments[i + 1..]);
    SegmentationIndependent(ks, front);
    assert front[..i] == segments[..i] && front[i] == segments[i];
  }

  lemma Told(ks: seq<Packet>, segments: seq<seq<byte>>) returns (n: nat)
    requires AllReadable(ks) && Concat(segments) <= WireAll(ks)
    ensures n <= |ks| && AllReadable(ks[..n]) && Receive([], segments).Some?
    ensures |WireAll(ks[..n])| <= |Concat(segments)| && (n < |ks| ==> |Concat(segments)| < |WireAll(ks[..n + 1])|)
    ensures Receive([], segments).value.0 == Messages(ks[..n]) && AllAcks(Messages(ks[..n])) == Answers(ks[..n])
  {
    hide Receive, Seen, AllAcks, Answers, AllReadable, Messages, WireAll, Concat;
    SegmentationIndependent(ks, segments);
    n := SeenIs(ks, Concat(segments));
    AnswersAre(ks[..n]);
  }

  lemma {:induction false} AcksJoin(a: seq<Message>, b: seq<Message>)
    ensures AllAcks(a + b) == AllAcks(a) + AllAcks(b)
    decreases |a|
  {
    hide Acks;
    if a == [] {
      assert a + b == b;
    } else {
      AcksJoin(a[1..], b);
      assert (a + b)[1..] == a[1..] + b;
    }
  }
}
