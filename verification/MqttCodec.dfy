/**
 MQTT 3.1.1 packets: the variable-length framing of section 2.2.3, the fields the
 library reads from a packet, and packets in a byte stream.
 */
module MqttCodec {
  import opened Bytes

  // ----- remaining length -----

  const MAX_REMAINING := 0x1000_0000  // 2^28: four length bytes
  const INT_LIMIT := 0x8000_0000      // 2^31

  function VarLen(n: nat): (r: seq<byte>)
    ensures r != []
  {
    if n < 0x80 then [n] else [0x80 + n % 0x80] + VarLen(n / 0x80)
  }

  /** The byte at offset i, or the unknown one just past the end. */
  function ByteAt(b: seq<byte>, past: byte, i: nat): byte
    requires i <= |b|
  {
    if i < |b| then b[i] else past
  }

  /**
   The seven bits d of the length byte at offset p, shifted into place, are an int: the fifth byte has room
   for three of them, and a sixth would be shifted by more than the width of an int.
   */
  predicate Shifts(p: nat, d: nat) {
    p < 5 || (p == 5 && d < 8)
  }

  /**
   The length field from offset p on, and where it ends: the scan goes on while a byte has its
   top bit set and p is not yet past the end, so it may read one byte too many. None: a shift leaves the int.
   */
  function ScanLen(b: seq<byte>, past: byte, p: nat): (r: Option<(nat, nat)>)
    requires p <= |b|
    ensures r.Some? ==> p < r.value.1 <= |b| + 1
    decreases |b| - p
  {
    var c := ByteAt(b, past, p);
    if !Shifts(p, c % 0x80) then None
    else if c >= 0x80 && p + 1 <= |b| then
      var r := ScanLen(b, past, p + 1);
      if r.None? then None else Some((c % 0x80 + 0x80 * r.value.0, r.value.1))
    else Some((c % 0x80, p + 1))
  }

  /** The number of bytes in a row, from offset p on, that have their top bit set. */
  function Leading(b: seq<byte>, p: nat): (n: nat)
    ensures p <= |b| ==> n <= |b| - p
    decreases |b| - p
  {
    if p < |b| && b[p] >= 0x80 then 1 + Leading(b, p + 1) else 0
  }

  lemma {:induction false} VarLenShort(n: nat)
    requires n < MAX_REMAINING
    ensures |VarLen(n)| <= 4
  {
    if n >= 0x80 {
      var n1 := n / 0x80;
      assert n1 < 0x20_0000;
      if n1 >= 0x80 {
        var n2 := n1 / 0x80;
        assert n2 < 0x4000;
        assert |VarLen(n1)| == 1 + |VarLen(n2)|;
        if n2 >= 0x80 {
          assert n2 / 0x80 < 0x80;
        }
      }
    }
  }

  /** A longer length has five bytes or more, so the first four have their top bit set. */
  lemma VarLenLong(n: nat)
    requires n >= MAX_REMAINING
    ensures var v := VarLen(n);
            |v| >= 5 && v[0] >= 0x80 && v[1] >= 0x80 && v[2] >= 0x80 && v[3] >= 0x80
  {
    var n1, n2, n3 := n / 0x80, n / 0x80 / 0x80, n / 0x80 / 0x80 / 0x80;
    assert n1 >= 0x20_0000 && n2 >= 0x4000 && n3 >= 0x80;
    var v1, v2, v3 := VarLen(n1), VarLen(n2), VarLen(n3);
    assert VarLen(n)[1..] == v1 && v1[1..] == v2 && v2[1..] == v3;
    assert |v3| >= 2;
  }

  /** What lengths a field that starts at offset p can hold: all of it in an int, and without a fifth byte. */
  function Limit(p: nat): nat {
    if p == 1 then INT_LIMIT else if p == 2 then 0x100_0000 else if p == 3 then 0x2_0000
    else if p == 4 then 0x400 else if p == 5 then 8 else 0
  }

  function FourByteLimit(p: nat): nat {
    if p == 1 then MAX_REMAINING else if p == 2 then 0x20_0000 else if p == 3 then 0x4000
    else if p == 4 then 0x80 else 0
  }

  /** A length field that is there in full is read back, and its end found, if and only if it fits an int. */
  lemma {:induction false} ScanVarLen(b: seq<byte>, past: byte, p: nat, n: nat)
    requires 1 <= p <= |b| && VarLen(n) <= b[p..]
    ensures ScanLen(b, past, p) == if n < Limit(p) then Some((n, p + |VarLen(n)|)) else None
    decreases n
  {
    var first: byte, w := if n < 0x80 then n else 0x80 + n % 0x80, if n < 0x80 then [] else VarLen(n / 0x80);
    assert VarLen(n) == [first] + w;
    SplitAt(b, p);
    TailsAgree(first, w, b[p], b[p + 1..]);
    hide VarLen;
    if n >= 0x80 {
      LimitShifts(p, n);
      if Shifts(p, n % 0x80) {
        ScanVarLen(b, past, p + 1, n / 0x80);
      }
    }
  }

  lemma LimitShifts(p: nat, n: nat)
    requires p >= 1 && n >= 0x80
    ensures n < Limit(p) <==> Shifts(p, n % 0x80) && n / 0x80 < Limit(p + 1)
  {
  }

  /** A field of at most four bytes that is not there in full: the scan runs off the end. */
  lemma {:induction false} ScanCut(b: seq<byte>, past: byte, p: nat, n: nat)
    requires 1 <= p <= |b| && b[p..] < VarLen(n) && n < FourByteLimit(p)
    ensures ScanLen(b, past, p).Some? && ScanLen(b, past, p).value.1 == |b| + 1
    decreases n
  {
    if p < |b| {
      assert n >= 0x80 by {
        assert |VarLen(n)| >= 2;
      }
      var first: byte, w := 0x80 + n % 0x80, VarLen(n / 0x80);
      assert VarLen(n) == [first] + w;
      SplitAt(b, p);
      TailsAgree(first, w, b[p], b[p + 1..]);
      hide VarLen;
      ScanCut(b, past, p + 1, n / 0x80);
    }
  }

  /** Two byte strings, one of them a prefix of the other, begin alike and go on so. */
  lemma TailsAgree(x: byte, s: seq<byte>, y: byte, t: seq<byte>)
    requires [y] + t <= [x] + s || [x] + s <= [y] + t
    ensures x == y && (t <= s || s <= t)
    ensures [y] + t < [x] + s <==> t < s
    ensures [x] + s <= [y] + t <==> s <= t
  {
    assert ([x] + s)[0] == x && ([y] + t)[0] == y;
    assert ([x] + s)[1..] == s && ([y] + t)[1..] == t;
    if s <= t {
      assert [x] + s <= [y] + t;
    }
    if t <= s {
      assert [y] + t <= [x] + s;
    }
    if [x] + s <= [y] + t {
      assert forall k :: 0 <= k < |s| ==> s[k] == ([x] + s)[k + 1];
    }
    if [y] + t <= [x] + s {
      assert forall k :: 0 <= k < |t| ==> t[k] == ([y] + t)[k + 1];
    }
  }

  /** A field whose every byte has its top bit set is truncated. The scan of one or more such bytes runs off the end,
      through the byte past the data; with four of them that byte is the fifth, and with more the shift is lost. */
  lemma {:induction false} TruncatedScan(b: seq<byte>, past: byte, p: nat)
    requires 1 <= p <= |b| && p <= 6 && Leading(b, p) == |b| - p
    ensures ScanLen(b, past, p).Some? <==> |b| <= 4 || (|b| == 5 && past % 0x80 < 8)
    ensures ScanLen(b, past, p).Some? ==> ScanLen(b, past, p).value.1 == |b| + 1
    decreases |b| - p
  {
    if p < |b| && p < 6 {
      TruncatedScan(b, past, p + 1);
    }
  }

  /** A scan that ends within the data did not look past it, nor does it notice bytes added later. */
  lemma {:induction false} ScanExtends(b: seq<byte>, x: seq<byte>, past: byte, past': byte, p: nat)
    requires p <= |b| && ScanLen(b, past, p).Some? && ScanLen(b, past, p).value.1 <= |b|
    ensures ScanLen(b + x, past', p) == ScanLen(b, past, p)
    decreases |b| - p
  {
    if ByteAt(b, past, p) >= 0x80 && p + 1 <= |b| {
      ScanExtends(b, x, past, past', p + 1);
    }
  }

  /** Whatever the byte past the data is, the scan does the same, unless that byte is the fifth of the field. */
  lemma {:induction false} ScanPast(b: seq<byte>, past: byte, past': byte, p: nat)
    requires 1 <= p <= |b| && !(|b| == 5 && Leading(b, p) == 5 - p)
    ensures ScanLen(b, past, p).None? <==> ScanLen(b, past', p).None?
    ensures ScanLen(b, past, p).Some? && ScanLen(b, past, p).value.1 <= |b| ==>
              ScanLen(b, past', p) == ScanLen(b, past, p)
    ensures ScanLen(b, past, p).Some? && ScanLen(b, past, p).value.1 > |b| ==>
              ScanLen(b, past', p).value.1 > |b|
    decreases |b| - p
  {
    if p < |b| && b[p] >= 0x80 {
      ScanPast(b, past, past', p + 1);
    }
  }

  // ----- the fields of a packet -----

  const CONNECT := 1
  const CONNACK := 2
  const PUBLISH := 3
  const PUBACK := 4
  const PUBREC := 5
  const PUBREL := 6
  const PUBCOMP := 7
  const SUBSCRIBE := 8
  const SUBACK := 9

  const HAS_WILL := 0x04
  const HAS_PASSWORD := 0x40
  const HAS_USER_NAME := 0x80

  predicate HasFlag(flags: byte, bit: nat)
    requires bit > 0
  {
    flags / bit % 2 == 1
  }

  datatype Message = Message(cmd: nat, qos: nat, messageId: nat, topic: seq<byte>, payload: seq<byte>,
                             connackCode: nat, connect: Connect)

  datatype Connect = Connect(protocolName: seq<byte>, version: nat, flags: nat, keepAlive: nat, clientId: seq<byte>,
                             willTopic: seq<byte>, willMessage: seq<byte>, userName: seq<byte>, password: seq<byte>)

  const NoConnect := Connect([], 0, 0, 0, [], [], [], [], [])

  function Blank(cmd: nat, qos: nat): Message
  {
    Message(cmd, qos, 0, [], [], 0, NoConnect)
  }

  /** A length-prefixed string at offset i, and the offset after it. None: it would run out of the packet. */
  function ScanString(s: seq<byte>, i: nat): (r: Option<(seq<byte>, nat)>)
    ensures r.Some? ==> i < r.value.1 <= |s|
  {
    if i + 2 > |s| then None
    else
      var n := FromBE16(s[i], s[i + 1]);
      if i + 2 + n > |s| then None else Some((s[i + 2..i + 2 + n], i + 2 + n))
  }

  /** A string that is read only if wanted and if the packet has not ended; else it stays empty. */
  function ScanIf(wanted: bool, s: seq<byte>, i: nat): (r: Option<(seq<byte>, nat)>)
    requires i <= |s|
    ensures r.Some? ==> i <= r.value.1 <= |s|
  {
    if wanted && i < |s| then ScanString(s, i) else Some(([], i))
  }

  function ReadConnect(s: seq<byte>): Option<Connect>
  {
    match ScanString(s, 0)
    case None => None
    case Some((name, i)) =>
      if i + 4 > |s| then None
      else
        var flags := s[i + 1];
        match ScanIf(true, s, i + 4)
        case None => None
        case Some((clientId, i1)) =>
          match ScanIf(HasFlag(flags, HAS_WILL), s, i1)
          case None => None
          case Some((willTopic, i2)) =>
            match ScanIf(HasFlag(flags, HAS_WILL), s, i2)
            case None => None
            case Some((willMessage, i3)) =>
              match ScanIf(HasFlag(flags, HAS_USER_NAME), s, i3)
              case None => None
              case Some((userName, i4)) =>
                match ScanIf(HasFlag(flags, HAS_PASSWORD), s, i4)
                case None => None
                case Some((password, _)) =>
                  Some(Connect(name, s[i], flags, FromBE16(s[i + 2], s[i + 3]),
                               clientId, willTopic, willMessage, userName, password))
  }

  /** The fields read from a packet's body. None: the body is too short for its command, and the source reads outside it. */
  function Interpret(header: byte, s: seq<byte>): Option<Message>
  {
    var cmd, qos := header / 16, header / 2 % 4;
    var m := Blank(cmd, qos);
    if cmd == CONNECT then
      match ReadConnect(s)
      case None => None
      case Some(c) => Some(m.(connect := c))
    else if cmd == CONNACK then
      if |s| < 2 then None else Some(m.(connackCode := s[1]))
    else if cmd in {PUBACK, PUBREC, PUBREL, PUBCOMP, SUBACK} then
      if |s| < 2 then None else Some(m.(messageId := FromBE16(s[0], s[1])))
    else if cmd == PUBLISH then
      match ScanString(s, 0)
      case None => None
      case Some((topic, i)) =>
        if qos == 0 then Some(m.(topic := topic, payload := s[i..]))
        else if i + 2 > |s| then None
        else Some(m.(topic := topic, messageId := FromBE16(s[i], s[i + 1]), payload := s[i + 2..]))
    else if cmd == SUBSCRIBE then
      if |s| < 2 then None else Some(m.(messageId := FromBE16(s[0], s[1]), payload := s[2..]))
    else Some(m)
  }

  // ----- packets in a stream -----

  datatype Packet = Packet(header: byte, body: seq<byte>)

  function Wire(k: Packet): (r: seq<byte>)
    ensures |r| >= 2
  {
    [k.header] + VarLen(|k.body|) + k.body
  }

  /** What one parse makes of the buffer: too little, a malformed body, a length that leaves its int, or a message and
      what is left. */
  datatype Outcome = Incomplete | Malformed | Undefined | Done(message: Message, rest: seq<byte>)

  function Step(b: seq<byte>, past: byte): (r: Outcome)
    ensures r.Done? ==> |r.rest| < |b|
  {
    if |b| < 2 then Incomplete
    else
      match ScanLen(b, past, 1)
      case None => Undefined
      case Some((len, p)) =>
        if p + len > |b| then Incomplete
        else if p + len >= INT_LIMIT then Undefined  // the length returned is an int
        else match Interpret(b[0], b[p..p + len])
          case None => Malformed
          case Some(m) => Done(m, b[p + len..])
  }

  /** The byte past the data would be the fifth of the length field. */
  predicate PastMatters(b: seq<byte>) {
    |b| == 5 && Leading(b, 1) == 4
  }

  lemma SameStep(b: seq<byte>, past: byte, past': byte)
    requires !PastMatters(b)
    ensures Step(b, past) == Step(b, past')
  {
    hide ScanLen, Interpret, Leading;
    if |b| >= 2 {
      ScanPast(b, past, past', 1);
    }
  }

  /** The byte past the data decides nothing if and only if it is not behind exactly four length bytes with their top
      bit set. */
  lemma PastIrrelevant(b: seq<byte>)
    ensures (forall past: byte, past': byte :: Step(b, past) == Step(b, past')) <==> !PastMatters(b)
  {
    hide Step;
    if PastMatters(b) {
      TruncatedStep(b, 0);
      TruncatedStep(b, 8);
    } else {
      forall past: byte, past': byte
        ensures Step(b, past) == Step(b, past')
      {
        SameStep(b, past, past');
      }
    }
  }

  /** What becomes of a truncated length field. */
  lemma TruncatedStep(b: seq<byte>, past: byte)
    requires |b| >= 1 && Leading(b, 1) == |b| - 1
    ensures Step(b, past) == if |b| <= 4 || (|b| == 5 && past % 0x80 < 8) then Incomplete else Undefined
  {
    hide ScanLen, Interpret, Leading;
    if |b| >= 2 {
      TruncatedScan(b, past, 1);
    }
  }

  /** A truncated length field waits for more, whatever byte lies past it, if and only if it has at most three bytes. */
  lemma TruncatedIncomplete(b: seq<byte>)
    requires |b| >= 1 && Leading(b, 1) == |b| - 1
    ensures (forall past: byte :: Step(b, past) == Incomplete) <==> Leading(b, 1) <= 3
  {
    hide Step;
    TruncatedStep(b, 8);
    forall past: byte | |b| <= 4
      ensures Step(b, past) == Incomplete
    {
      TruncatedStep(b, past);
    }
  }

  /** Four length bytes of a packet, and an eight that happens to lie past them. */
  lemma FiveBytesMisread()
    ensures var b := [0x30, 0x80, 0x80, 0x80, 0x80];
            Step(b, 8) == Undefined && Step(b, 0) == Incomplete
  {
    var b: seq<byte> := [0x30, 0x80, 0x80, 0x80, 0x80];
    assert Leading(b, 5) == 0 && Leading(b, 4) == 1 && Leading(b, 3) == 2 && Leading(b, 2) == 3;
    hide Step;
    TruncatedStep(b, 8);
    TruncatedStep(b, 0);
  }

  lemma StepExtends(b: seq<byte>, x: seq<byte>, past: byte)
    requires Step(b, past).Done?
    ensures Step(b + x, past) == Done(Step(b, past).message, Step(b, past).rest + x)
  {
    hide ScanLen, Interpret;
    var (len, p) := ScanLen(b, past, 1).value;
    ScanExtends(b, x, past, past, 1);
    Parts(b, x, p, len);
  }

  lemma Parts(b: seq<byte>, x: seq<byte>, p: nat, n: nat)
    requires 0 < p && p + n <= |b|
    ensures (b + x)[0] == b[0] && (b + x)[p..p + n] == b[p..p + n] && (b + x)[p + n..] == b[p + n..] + x
  {
  }

  /** A complete packet is parsed, and exactly its bytes are taken, if and only if it is shorter than 2^31 bytes. */
  lemma StepOnPacket(k: Packet, m: Message, more: seq<byte>, past: byte)
    requires Interpret(k.header, k.body) == Some(m)
    ensures Step(Wire(k) + more, past) == if |Wire(k)| < INT_LIMIT then Done(m, more) else Undefined
  {
    hide Interpret, VarLen;
    var b, v := Wire(k) + more, VarLen(|k.body|);
    assert b == [k.header] + (v + (k.body + more));
    assert b[0] == k.header && b[1..] == v + (k.body + more);
    ScanVarLen(b, past, 1, |k.body|);
    hide ScanLen;
    var p := 1 + |v|;
    assert b[p..p + |k.body|] == k.body && b[p + |k.body|..] == more;
  }

  lemma StepOnPrefix(k: Packet, w: seq<byte>, past: byte)
    requires |k.body| < MAX_REMAINING && w <= Wire(k) && |w| < |Wire(k)|
    ensures Step(w, past) == Incomplete
  {
    hide ScanLen, Interpret, VarLen;
    if |w| >= 2 {
      var v := VarLen(|k.body|);
      var all, n := Wire(k), |w| - 1;
      assert all[1..] == v + k.body;
      assert w == all[..|w|];
      SliceParts(all, 0, |all|, 1);
      assert w[1..] == (v + k.body)[..n];
      if n >= |v| {
        assert w[1..][..|v|] == v;
        ScanVarLen(w, past, 1, |k.body|);
      } else {
        assert w[1..] == v[..n];
        ScanCut(w, past, 1, |k.body|);
      }
    }
  }

  /** Four bytes of a length that has more of them. */
  lemma LongPrefix(k: Packet)
    requires |k.body| >= MAX_REMAINING
    ensures var w := Wire(k)[..5]; w <= Wire(k) && |w| < |Wire(k)| && Step(w, 8) == Undefined
  {
    VarLenLong(|k.body|);
    var v := VarLen(|k.body|);
    hide VarLen, Step;
    var w := Wire(k)[..5];
    assert w == [k.header] + v[..4];
    assert w[1] == v[0] && w[2] == v[1] && w[3] == v[2] && w[4] == v[3];
    assert Leading(w, 5) == 0 && Leading(w, 4) == 1 && Leading(w, 3) == 2 && Leading(w, 2) == 3;
    TruncatedStep(w, 8);
  }

  /** A packet waits at every cut, whatever lies past the data, if and only if its remaining length is below 2^28. */
  lemma PrefixesWait(k: Packet)
    ensures (forall w, past: byte :: w <= Wire(k) && |w| < |Wire(k)| ==> Step(w, past) == Incomplete)
            <==> |k.body| < MAX_REMAINING
  {
    hide Step, Wire;
    if |k.body| < MAX_REMAINING {
      forall w, past: byte | w <= Wire(k) && |w| < |Wire(k)|
        ensures Step(w, past) == Incomplete
      {
        StepOnPrefix(k, w, past);
      }
    } else {
      LongPrefix(k);
    }
  }

  /** A prefix of a packet below the bound never depends on the byte past it. */
  lemma PrefixSettled(k: Packet, w: seq<byte>)
    requires |k.body| < MAX_REMAINING && w <= Wire(k)
    ensures !PastMatters(w)
  {
    hide Step, Wire, Leading;
    if PastMatters(w) {
      TruncatedStep(w, 8);
      if |w| < |Wire(k)| {
        StepOnPrefix(k, w, 8);
      } else {
        assert w == Wire(k);
        WholeSettled(k);
      }
    }
  }

  lemma WholeSettled(k: Packet)
    requires |k.body| < MAX_REMAINING
    ensures Leading(Wire(k), 1) < |Wire(k)| - 1
  {
    hide VarLen;
    var b := Wire(k);
    assert b[1..] == VarLen(|k.body|) + k.body;
    ScanVarLen(b, 0, 1, |k.body|);
    if Leading(b, 1) == |b| - 1 {
      TruncatedScan(b, 0, 1);
    }
  }

  /** A complete packet settles what follows as well. */
  lemma PacketSettled(k: Packet, more: seq<byte>)
    requires |k.body| < MAX_REMAINING
    ensures !PastMatters(Wire(k) + more)
  {
    hide VarLen;
    var b := Wire(k) + more;
    assert b[1..] == VarLen(|k.body|) + (k.body + more);
    ScanVarLen(b, 8, 1, |k.body|);
    if Leading(b, 1) == |b| - 1 {
      TruncatedScan(b, 8, 1);
    }
  }

  /** Parsing until too little is left. None when a malformed packet, or a length that may leave its int, is met. */
  function Drain(b: seq<byte>): Option<(seq<Message>, seq<byte>)>
    decreases |b|
  {
    if PastMatters(b) then None else
    match Step(b, 0)
    case Incomplete => Some(([], b))
    case Malformed => None
    case Undefined => None
    case Done(m, rest) =>
      match Drain(rest)
      case None => None
      case Some((more, left)) => Some(([m] + more, left))
  }

  lemma DoneSettled(b: seq<byte>, past: byte)
    requires Step(b, past).Done?
    ensures !PastMatters(b)
  {
    hide Step, Leading;
    if PastMatters(b) {
      TruncatedStep(b, past);
    }
  }

  /** Parsing now and again after x arrives is parsing everything at once. */
  lemma {:induction false} DrainExtends(b: seq<byte>, x: seq<byte>)
    requires Drain(b).Some?
    ensures var (ms, left) := Drain(b).value;
            Drain(b + x) == match Drain(left + x)
                            case None => None
                            case Some((more, last)) => Some((ms + more, last))
    decreases |b|
  {
    hide Step, Leading;
    match Step(b, 0)
    case Incomplete =>
      if Drain(b + x).Some? {
        assert [] + Drain(b + x).value.0 == Drain(b + x).value.0;
      }
    case Done(m, rest) =>
      StepExtends(b, x, 0);
      DoneSettled(b + x, 0);
      DrainExtends(rest, x);
      var (ms, left) := Drain(rest).value;
      if Drain(left + x).Some? {
        var more := Drain(left + x).value.0;
        assert ([m] + ms) + more == [m] + (ms + more);
      }
  }

  /** Each packet's remaining length is below 2^28 (section 2.2.3 of MQTT 3.1.1), and its body suits its command. */
  predicate AllReadable(ks: seq<Packet>)
  {
    ks != [] ==>
      |ks[0].body| < MAX_REMAINING && Interpret(ks[0].header, ks[0].body).Some? && AllReadable(ks[1..])
  }

  function WireAll(ks: seq<Packet>): seq<byte>
  {
    if ks == [] then [] else Wire(ks[0]) + WireAll(ks[1..])
  }

  function Messages(ks: seq<Packet>): seq<Message>
    requires AllReadable(ks)
  {
    if ks == [] then [] else [Interpret(ks[0].header, ks[0].body).value] + Messages(ks[1..])
  }

  /** The packets lying wholly within the first bytes w of a stream: their messages, and the bytes left. */
  function Seen(ks: seq<Packet>, w: seq<byte>): (seq<Message>, seq<byte>)
    requires AllReadable(ks)
  {
    if ks != [] && |Wire(ks[0])| <= |w| then
      var (ms, tail) := Seen(ks[1..], w[|Wire(ks[0])|..]);
      ([Interpret(ks[0].header, ks[0].body).value] + ms, tail)
    else ([], w)
  }

  lemma {:induction false} SeenAll(ks: seq<Packet>)
    requires AllReadable(ks)
    ensures Seen(ks, WireAll(ks)) == (Messages(ks), [])
  {
    hide Interpret, Wire;
    if ks != [] {
      assert WireAll(ks)[|Wire(ks[0])|..] == WireAll(ks[1..]);
      SeenAll(ks[1..]);
    }
  }

  lemma {:induction false} DrainPrefix(ks: seq<Packet>, w: seq<byte>)
    requires AllReadable(ks) && w <= WireAll(ks)
    ensures Drain(w) == Some(Seen(ks, w))
    ensures Seen(ks, w).1 != [] ==> exists k :: Seen(ks, w).1 < Wire(k) && k in ks
    decreases |ks|
  {
    hide Interpret, Wire, Step, PastMatters;
    if ks == [] {
      NothingToParse(w);
    } else {
      var k, n := ks[0], |Wire(ks[0])|;
      assert ks == [k] + ks[1..];
      if n <= |w| {
        var w' := w[n..];
        assert w[..n] == WireAll(ks)[..n] == Wire(k);
        assert w == Wire(k) + w';
        assert w' <= WireAll(ks[1..]);
        StepOnPacket(k, Interpret(k.header, k.body).value, w', 0);
        ShortWire(k);
        PacketSettled(k, w');
        DrainPrefix(ks[1..], w');
      } else {
        assert w == WireAll(ks)[..|w|] == Wire(k)[..|w|];
        StepOnPrefix(k, w, 0);
        PrefixSettled(k, w);
      }
    }
  }

  lemma NothingToParse(w: seq<byte>)
    requires w == []
    ensures Step(w, 0) == Incomplete && !PastMatters(w)
  {
  }

  lemma ShortWire(k: Packet)
    requires |k.body| < MAX_REMAINING
    ensures |Wire(k)| < INT_LIMIT
  {
    VarLenShort(|k.body|);
  }

  function Receive(b: seq<byte>, segments: seq<seq<byte>>): Option<(seq<Message>, seq<byte>)>
  {
    if segments == [] then Some(([], b))
    else
      var n := |segments| - 1;
      match Receive(b, segments[..n])
      case None => None
      case Some((ms, left)) =>
        match Drain(left + segments[n])
        case None => None
        case Some((more, last)) => Some((ms + more, last))
  }

  /**
   Framing: packets cut into any segments give exactly one message each, in order,
   and what is left is a proper prefix of the next packet.
   */
  lemma {:induction false} SegmentationIndependent(ks: seq<Packet>, segments: seq<seq<byte>>)
    requires AllReadable(ks) && Concat(segments) <= WireAll(ks)
    ensures Receive([], segments) == Some(Seen(ks, Concat(segments)))
    ensures var tail := Seen(ks, Concat(segments)).1;
            tail != [] ==> exists k :: tail < Wire(k) && k in ks
    decreases |segments|
  {
    hide Interpret, Seen, Wire, WireAll, Drain;
    var w := Concat(segments);
    DrainPrefix(ks, w);
    if segments == [] {
      NothingSeen(ks);
    } else {
      var n := |segments| - 1;
      var front, last := segments[..n], segments[n];
      ConcatSnoc(front, last);
      assert front + [last] == segments;
      assert w == Concat(front) + last;
      DrainPrefix(ks, Concat(front));
      SegmentationIndependent(ks, front);
      DrainExtends(Concat(front), last);
    }
  }

  lemma NothingSeen(ks: seq<Packet>)
    requires AllReadable(ks)
    ensures Seen(ks, []) == ([], [])
  {
  }

  // ----- packets the library sends -----

  /** A PUBLISH with these arguments: flags hold retain, QoS and dup. */
  function PublishPacket(topic: seq<byte>, messageId: nat, flags: nat, data: seq<byte>): Packet
    requires flags < 16 && messageId < 0x1_0000 && |topic| < 0x1_0000
  {
    Packet(PUBLISH * 16 + flags,
           BE16(|topic|) + topic + (if flags / 2 % 4 > 0 then BE16(messageId) else []) + data)
  }

  /** What was published is read back: topic, QoS, payload, and the message id if and only if the QoS is not 0. */
  lemma PublishRoundTrip(topic: seq<byte>, messageId: nat, flags: nat, data: seq<byte>)
    requires flags < 16 && messageId < 0x1_0000 && |topic| < 0x1_0000
    ensures var k, qos := PublishPacket(topic, messageId, flags, data), flags / 2 % 4;
            Interpret(k.header, k.body)
            == Some(Blank(PUBLISH, qos).(topic := topic, payload := data, messageId := if qos > 0 then messageId else 0))
  {
    var k := PublishPacket(topic, messageId, flags, data);
    var id := if flags / 2 % 4 > 0 then BE16(messageId) else [];
    var s, len := k.body, BE16(|topic|);
    FieldsOf(len, topic, id, data, s);
    assert k.header / 16 == PUBLISH && k.header / 2 % 4 == flags / 2 % 4;
  }

  lemma FieldsOf(len: seq<byte>, topic: seq<byte>, id: seq<byte>, data: seq<byte>, s: seq<byte>)
    requires |len| == 2 && s == len + topic + id + data
    ensures s[0] == len[0] && s[1] == len[1] && s[2..2 + |topic|] == topic && s[2 + |topic| + |id|..] == data
    ensures |id| == 2 ==> s[2 + |topic|] == id[0] && s[2 + |topic| + 1] == id[1]
  {
    ThreeParts(len, topic, id + data);
    assert s == len + topic + (id + data);
    ThreeParts(len + topic, id, data);
  }

  /** Topics with their requested QoS, as a SUBSCRIBE carries them. */
  function TopicBytes(topics: seq<(seq<byte>, byte)>): seq<byte>
    requires forall i :: 0 <= i < |topics| ==> |topics[i].0| < 0x1_0000
  {
    if topics == [] then [] else BE16(|topics[0].0|) + topics[0].0 + [topics[0].1] + TopicBytes(topics[1..])
  }

  function SubscribePacket(topics: seq<(seq<byte>, byte)>, messageId: nat): Packet
    requires messageId < 0x1_0000 && forall i :: 0 <= i < |topics| ==> |topics[i].0| < 0x1_0000
  {
    Packet(SUBSCRIBE * 16 + 2, BE16(messageId) + TopicBytes(topics))
  }

  /** The topic at offset pos of a SUBSCRIBE's payload: the offset of the next one, or -1 at the end. */
  datatype NextTopic = NoMore | Outside | Topic(topic: seq<byte>, qos: byte, next: nat)

  function NextSubscribeTopic(payload: seq<byte>, pos: nat): (r: NextTopic)
    ensures r.Topic? ==> pos < r.next <= |payload|
  {
    if pos >= |payload| then NoMore
    else match ScanString(payload, pos)
      case None => Outside
      case Some((topic, i)) => if i < |payload| then Topic(topic, payload[i], i + 1) else Outside
  }

  /** Asking for topics from offset pos until there are no more. None: an entry runs out of the packet. */
  function TopicsFrom(payload: seq<byte>, pos: nat): Option<seq<(seq<byte>, byte)>>
    decreases |payload| - pos
  {
    match NextSubscribeTopic(payload, pos)
    case NoMore => Some([])
    case Outside => None
    case Topic(topic, qos, next) =>
      match TopicsFrom(payload, next)
      case None => None
      case Some(rest) => Some([(topic, qos)] + rest)
  }

  lemma {:induction false} TopicsRoundTrip(topics: seq<(seq<byte>, byte)>, front: seq<byte>)
    requires forall i :: 0 <= i < |topics| ==> |topics[i].0| < 0x1_0000
    ensures TopicsFrom(front + TopicBytes(topics), |front|) == Some(topics)
    decreases |topics|
  {
    hide NextSubscribeTopic, BE16, TopicsFrom;
    if topics == [] {
      NoTopics(front);
    } else {
      var topic, qos, rest := topics[0].0, topics[0].1, topics[1..];
      var entry, more := BE16(|topic|) + topic + [qos], TopicBytes(rest);
      assert TopicBytes(topics) == entry + more;
      hide TopicBytes;
      assert front + (entry + more) == (front + entry) + more;
      FirstTopic(front + (entry + more), front, topic, qos, more);
      TopicsOnce(front + (entry + more), |front|);
      TopicsRoundTrip(rest, front + entry);
      assert topics == [(topic, qos)] + rest;
    }
  }

  lemma NoTopics(front: seq<byte>)
    ensures TopicsFrom(front + TopicBytes([]), |front|) == Some([])
  {
    assert front + TopicBytes([]) == front;
    hide TopicBytes;
  }

  lemma TopicsOnce(payload: seq<byte>, pos: nat)
    ensures NextSubscribeTopic(payload, pos).NoMore? ==> TopicsFrom(payload, pos) == Some([])
    ensures var t := NextSubscribeTopic(payload, pos);
            t.Topic? && TopicsFrom(payload, t.next).Some? ==>
              TopicsFrom(payload, pos) == Some([(t.topic, t.qos)] + TopicsFrom(payload, t.next).value)
  {
    hide NextSubscribeTopic;
  }

  lemma FirstTopic(payload: seq<byte>, front: seq<byte>, topic: seq<byte>, qos: byte, more: seq<byte>)
    requires |topic| < 0x1_0000
    requires payload == (front + (BE16(|topic|) + topic + [qos])) + more
    ensures NextSubscribeTopic(payload, |front|) == Topic(topic, qos, |front| + 3 + |topic|)
  {
    var pos, len := |front|, BE16(|topic|);
    assert payload[pos] == len[0] && payload[pos + 1] == len[1];
    assert payload[pos + 2..pos + 2 + |topic|] == topic && payload[pos + 2 + |topic|] == qos;
  }

  lemma InterpretSubscribe(s: seq<byte>)
    requires |s| >= 2
    ensures Interpret(SUBSCRIBE * 16 + 2, s)
            == Some(Blank(SUBSCRIBE, 1).(messageId := FromBE16(s[0], s[1]), payload := s[2..]))
  {
    hide ReadConnect, ScanString, FromBE16;
  }

  /** A subscription is read back: its id, and, topic by topic, exactly its list. */
  lemma SubscribeRoundTrip(topics: seq<(seq<byte>, byte)>, messageId: nat)
    requires messageId < 0x1_0000 && forall i :: 0 <= i < |topics| ==> |topics[i].0| < 0x1_0000
    ensures var k := SubscribePacket(topics, messageId);
            && Interpret(k.header, k.body)
               == Some(Blank(SUBSCRIBE, 1).(messageId := messageId, payload := TopicBytes(topics)))
            && TopicsFrom(TopicBytes(topics), 0) == Some(topics)
  {
    hide TopicsFrom, TopicBytes, Interpret;
    var k, id := SubscribePacket(topics, messageId), BE16(messageId);
    ConcatParts(id, TopicBytes(topics));
    assert k.body[0] == id[0] && k.body[1] == id[1] && k.body[2..] == TopicBytes(topics);
    InterpretSubscribe(k.body);
    TopicsRoundTrip(topics, []);
    assert [] + TopicBytes(topics) == TopicBytes(topics);
  }

  // ----- acknowledgements -----

  /** A packet that carries only a message id, with the QoS bits 01. */
  function ShortCommand(cmd: nat, messageId: nat): Packet
    requires cmd < 16 && messageId < 0x1_0000
  {
    Packet(cmd * 16 + 2, BE16(messageId))
  }

  /** What parsing a message queues for sending: a PUBACK or PUBREC for a PUBLISH of QoS 1 or 2. */
  function Acks(m: Message): seq<byte>
  {
    if m.cmd == PUBLISH && m.messageId < 0x1_0000 then
      if m.qos == 1 then Wire(ShortCommand(PUBACK, m.messageId))
      else if m.qos == 2 then Wire(ShortCommand(PUBREC, m.messageId))
      else []
    else []
  }

  function AllAcks(ms: seq<Message>): seq<byte>
  {
    if ms == [] then [] else Acks(ms[0]) + AllAcks(ms[1..])
  }
}
