/**
 MQTT packets as octets (chapters 2 and 3 of MQTT 3.1.1): where each field of a packet is, and which octets
 answer a publication.
 */
module MqttWire {
  import opened Bytes
  import opened MqttCodec

  // ----- the remaining length -----

  /** The number that the low seven bits of octets spell, the first counting least. */
  function Low7(s: seq<byte>): nat
  {
    if s == [] then 0 else s[0] % 128 + 128 * Low7(s[1..])
  }

  /** A length in seven bits to an octet, the top bit set on all but the last; 321 is the standard's example. */
  lemma {:induction false} LengthIs(n: nat)
    ensures var v := VarLen(n);
            && Low7(v) == n && v[|v| - 1] < 128 && (forall i :: 0 <= i < |v| - 1 ==> v[i] >= 128)
            && (n > 0 ==> v[|v| - 1] > 0)
  {
    if n >= 128 {
      LengthIs(n / 128);
      assert VarLen(n)[1..] == VarLen(n / 128);
    }
  }

  lemma LengthExample()
    ensures VarLen(321) == [0xc1, 0x02] && VarLen(127) == [0x7f] && VarLen(128) == [0x80, 0x01]
  {
  }

  // ----- where the fields are -----

  /** A length-prefixed string. */
  function Text(x: seq<byte>): (s: seq<byte>)
    requires |x| < 0x1_0000
    ensures |s| == 2 + |x|
  {
    [|x| / 0x100, |x| % 0x100] + x
  }

  lemma TextAt(front: seq<byte>, x: seq<byte>, rest: seq<byte>)
    requires |x| < 0x1_0000
    ensures ScanString(front + Text(x) + rest, |front|) == Some((x, |front| + 2 + |x|))
  {
    var s, i := front + Text(x) + rest, |front|;
    assert s[i] == Text(x)[0] && s[i + 1] == Text(x)[1];
    assert s[i + 2..i + 2 + |x|] == x;
  }

  /** The first octet of a publication. */
  lemma PublishHeader(header: byte)
    ensures header in {0x30, 0x31, 0x38, 0x39} ==> header / 16 == 3 && header / 2 % 4 == 0
    ensures header in {0x32, 0x33, 0x3a, 0x3b} ==> header / 16 == 3 && header / 2 % 4 == 1
    ensures header in {0x34, 0x35, 0x3c, 0x3d} ==> header / 16 == 3 && header / 2 % 4 == 2
    ensures header / 16 == 3 ==> header in {0x30, 0x31, 0x38, 0x39, 0x32, 0x33, 0x3a, 0x3b,
                                            0x34, 0x35, 0x3c, 0x3d, 0x36, 0x37, 0x3e, 0x3f}
    ensures header in {0x36, 0x37, 0x3e, 0x3f} ==> header / 2 % 4 == 3
  {
  }

  lemma PublishFields(header: byte, s: seq<byte>, topic: seq<byte>, n: nat)
    requires header / 16 == 3 && ScanString(s, 0) == Some((topic, n)) && n <= |s|
    ensures header / 2 % 4 == 0 ==> Interpret(header, s) == Some(Message(3, 0, 0, topic, s[n..], 0, NoConnect))
    ensures header / 2 % 4 != 0 && n + 2 <= |s| ==>
              Interpret(header, s)
              == Some(Message(3, header / 2 % 4, Value([s[n], s[n + 1]]), topic, s[n + 2..], 0, NoConnect))
    ensures header / 2 % 4 != 0 && n + 2 > |s| ==> Interpret(header, s) == None
  {
    hide ScanString, FromBE16, Value, ReadConnect;
    if n + 2 <= |s| {
      ReadOrder(s[n], s[n + 1], 0, 0);
    }
  }

  /** A publication: QoS 0 in 30, 31, 38 and 39; QoS 1 in 32, 33, 3a and 3b; QoS 2 in 34, 35, 3c and 3d. */
  lemma PublishIs(header: byte, topic: seq<byte>, id: seq<byte>, data: seq<byte>)
    requires |topic| < 0x1_0000 && |id| == 2
    ensures header in {0x30, 0x31, 0x38, 0x39} ==>
              Interpret(header, Text(topic) + data) == Some(Message(3, 0, 0, topic, data, 0, NoConnect))
    ensures header in {0x32, 0x33, 0x3a, 0x3b} ==>
              Interpret(header, Text(topic) + id + data) == Some(Message(3, 1, Value(id), topic, data, 0, NoConnect))
    ensures header in {0x34, 0x35, 0x3c, 0x3d} ==>
              Interpret(header, Text(topic) + id + data) == Some(Message(3, 2, Value(id), topic, data, 0, NoConnect))
  {
    hide Text, ScanString, Value, Interpret;
    var n, s, t := 2 + |topic|, Text(topic) + data, Text(topic) + id + data;
    PublishHeader(header);
    TextAt([], topic, data);
    TextAt([], topic, id + data);
    assert [] + Text(topic) + data == s && s[n..] == data;
    assert [] + Text(topic) + (id + data) == t && id == [t[n], t[n + 1]] && t[n + 2..] == data;
    if header / 16 == 3 {
      PublishFields(header, s, topic, n);
      PublishFields(header, t, topic, n);
    }
  }

  /** An acknowledged connection, the acknowledgements that carry a message id, and a subscription. */
  lemma ShortOnesAre(a: byte, b: byte, header: byte, data: seq<byte>)
    ensures Interpret(0x20, [a, b]) == Some(Message(2, 0, 0, [], [], b, NoConnect))
    ensures header in {0x40, 0x50, 0x62, 0x70, 0x90} ==>
              Interpret(header, [a, b] + data)
              == Some(Message(header / 16, if header == 0x62 then 1 else 0, Value([a, b]), [], [], 0, NoConnect))
    ensures Interpret(0x82, [a, b] + data) == Some(Message(8, 1, Value([a, b]), [], data, 0, NoConnect))
    ensures Interpret(0xc0, []) == Some(Message(12, 0, 0, [], [], 0, NoConnect))
  {
    hide ScanString, FromBE16, Value, ReadConnect;
    ReadOrder(a, b, 0, 0);
    var s := [a, b] + data;
    assert s[0] == a && s[1] == b && s[2..] == data;
  }

  // ----- a connect -----

  /** The fields of a connect, the optional ones as its flags have them. */
  datatype Fields = Fields(name: seq<byte>, version: byte, flags: byte, keep: seq<byte>, client: seq<byte>,
                           will: Option<(seq<byte>, seq<byte>)>, user: Option<seq<byte>>, password: Option<seq<byte>>)

  predicate Short(x: seq<byte>) {
    |x| < 0x1_0000
  }

  /** The will is announced by bit 2, the password by bit 6, the user by bit 7 (section 3.1.2.3). */
  predicate FieldsOk(c: Fields) {
    && Short(c.name) && |c.keep| == 2 && Short(c.client)
    && (c.will.Some? <==> c.flags / 4 % 2 == 1) && (c.will.Some? ==> Short(c.will.value.0) && Short(c.will.value.1))
    && (c.user.Some? <==> c.flags / 128 % 2 == 1) && (c.user.Some? ==> Short(c.user.value))
    && (c.password.Some? <==> c.flags / 64 % 2 == 1) && (c.password.Some? ==> Short(c.password.value))
  }

  function Maybe(x: Option<seq<byte>>): seq<byte>
    requires x.Some? ==> Short(x.value)
  {
    if x.Some? then Text(x.value) else []
  }

  function Topic(c: Fields): Option<seq<byte>> {
    if c.will.Some? then Some(c.will.value.0) else None
  }

  function LastWords(c: Fields): Option<seq<byte>> {
    if c.will.Some? then Some(c.will.value.1) else None
  }

  /** Name, version, flags, keep-alive, client, will topic and message, user, password: in this order. */
  function ConnectBody(c: Fields): seq<byte>
    requires FieldsOk(c)
  {
    Text(c.name) + [c.version, c.flags] + c.keep + Text(c.client) + Maybe(Topic(c)) + Maybe(LastWords(c))
    + Maybe(c.user) + Maybe(c.password)
  }

  function OrEmpty(x: Option<seq<byte>>): seq<byte> {
    if x.Some? then x.value else []
  }

  lemma MaybeAt(front: seq<byte>, x: Option<seq<byte>>, rest: seq<byte>)
    requires x.Some? ==> Short(x.value)
    ensures ScanIf(x.Some?, front + Maybe(x) + rest, |front|) == Some((OrEmpty(x), |front + Maybe(x)|))
  {
    hide Text, ScanString;
    if x.Some? {
      TextAt(front, x.value, rest);
    }
  }

  lemma ConnectStart(name: seq<byte>, mid: seq<byte>, rest: seq<byte>)
    requires Short(name) && |mid| == 4
    ensures var s, i := Text(name) + mid + rest, 2 + |name|;
            && ScanString(s, 0) == Some((name, i)) && i + 4 <= |s|
            && s[i] == mid[0] && s[i + 1] == mid[1] && s[i + 2] == mid[2] && s[i + 3] == mid[3]
  {
    hide Text, ScanString;
    TextAt([], name, mid + rest);
    assert [] + Text(name) + (mid + rest) == Text(name) + mid + rest;
  }

  /** Every field of a connect is read from its place. */
  lemma ConnectIs(c: Fields)
    requires FieldsOk(c)
    ensures Interpret(0x10, ConnectBody(c))
            == Some(Message(1, 0, 0, [], [], 0,
                            Connect(c.name, c.version, c.flags, Value(c.keep), c.client, OrEmpty(Topic(c)),
                                    OrEmpty(LastWords(c)), OrEmpty(c.user), OrEmpty(c.password))))
  {
    ConnectFields(c);
    hide ReadConnect, ConnectBody, Value, FieldsOk, ScanString, FromBE16;
  }

  lemma ConnectFields(c: Fields)
    requires FieldsOk(c)
    ensures ReadConnect(ConnectBody(c))
            == Some(Connect(c.name, c.version, c.flags, Value(c.keep), c.client, OrEmpty(Topic(c)),
                            OrEmpty(LastWords(c)), OrEmpty(c.user), OrEmpty(c.password)))
  {
    hide Text, Maybe, OrEmpty, ScanString, ScanIf, Value, FromBE16, ReadConnect, ConnectBody;
    var s, f, mid := ConnectBody(c), Fronts(c), [c.version, c.flags] + c.keep;
    Regrouped(c);
    ConnectStart(c.name, mid, Text(c.client) + f.r1);
    ReadOrder(c.keep[0], c.keep[1], 0, 0);
    assert c.keep == [c.keep[0], c.keep[1]];
    ClientAt(f.f0, c.client, f.r1);
    MaybeAt(f.f1, Topic(c), f.r2);
    MaybeAt(f.f2, LastWords(c), f.r3);
    MaybeAt(f.f3, c.user, Maybe(c.password));
    MaybeAt(f.f4, c.password, []);
    FieldsRead(s, c, 2 + |c.name|, |f.f1|, |f.f2|, |f.f3|, |f.f4|, |s|);
  }

  /** What comes before each field, and what after it. */
  datatype Places = Places(f0: seq<byte>, f1: seq<byte>, f2: seq<byte>, f3: seq<byte>, f4: seq<byte>,
                           r1: seq<byte>, r2: seq<byte>, r3: seq<byte>)

  function Fronts(c: Fields): Places
    requires FieldsOk(c)
  {
    var f0 := Text(c.name) + ([c.version, c.flags] + c.keep);
    var f1 := f0 + Text(c.client);
    var f2 := f1 + Maybe(Topic(c));
    var f3 := f2 + Maybe(LastWords(c));
    var r3 := Maybe(c.user) + Maybe(c.password);
    var r2 := Maybe(LastWords(c)) + r3;
    Places(f0, f1, f2, f3, f3 + Maybe(c.user), Maybe(Topic(c)) + r2, r2, r3)
  }

  lemma Regrouped(c: Fields)
    requires FieldsOk(c)
    ensures var s, f, mid := ConnectBody(c), Fronts(c), [c.version, c.flags] + c.keep;
            && s == Text(c.name) + mid + (Text(c.client) + f.r1) && |f.f0| == 2 + |c.name| + 4
            && s == f.f0 + Text(c.client) + f.r1 && s == f.f1 + Maybe(Topic(c)) + f.r2
            && s == f.f2 + Maybe(LastWords(c)) + f.r3 && s == f.f3 + Maybe(c.user) + Maybe(c.password)
            && s == f.f4 + Maybe(c.password) + []
            && f.f1 == f.f0 + Text(c.client) && f.f2 == f.f1 + Maybe(Topic(c)) && f.f3 == f.f2 + Maybe(LastWords(c))
            && f.f4 == f.f3 + Maybe(c.user) && s == f.f4 + Maybe(c.password)
  {
    hide Text, Maybe;
    var s, f, mid := ConnectBody(c), Fronts(c), [c.version, c.flags] + c.keep;
    assert Text(c.name) + [c.version, c.flags] + c.keep == f.f0;
    assert s == f.f4 + Maybe(c.password);
    Regroup(f.f3, Maybe(c.user), Maybe(c.password));
    Regroup(f.f2, Maybe(LastWords(c)), f.r3);
    Regroup(f.f1, Maybe(Topic(c)), f.r2);
    Regroup(f.f0, Text(c.client), f.r1);
  }

  lemma FieldsRead(s: seq<byte>, c: Fields, i: nat, i1: nat, i2: nat, i3: nat, i4: nat, i5: nat)
    requires FieldsOk(c) && ScanString(s, 0) == Some((c.name, i)) && i + 4 <= |s|
    requires s[i] == c.version && s[i + 1] == c.flags && FromBE16(s[i + 2], s[i + 3]) == Value(c.keep)
    requires ScanIf(true, s, i + 4) == Some((c.client, i1)) && i1 <= |s|
    requires ScanIf(c.will.Some?, s, i1) == Some((OrEmpty(Topic(c)), i2)) && i2 <= |s|
    requires ScanIf(c.will.Some?, s, i2) == Some((OrEmpty(LastWords(c)), i3)) && i3 <= |s|
    requires ScanIf(c.user.Some?, s, i3) == Some((OrEmpty(c.user), i4)) && i4 <= |s|
    requires ScanIf(c.password.Some?, s, i4) == Some((OrEmpty(c.password), i5))
    ensures ReadConnect(s)
            == Some(Connect(c.name, c.version, c.flags, Value(c.keep), c.client, OrEmpty(Topic(c)),
                            OrEmpty(LastWords(c)), OrEmpty(c.user), OrEmpty(c.password)))
  {
    hide ScanString, ScanIf, OrEmpty, Value, FromBE16, Topic, LastWords;
  }

  lemma ClientAt(front: seq<byte>, x: seq<byte>, rest: seq<byte>)
    requires Short(x)
    ensures ScanIf(true, front + Text(x) + rest, |front|) == Some((x, |front + Text(x)|))
  {
    hide Text, ScanString;
    TextAt(front, x, rest);
  }

  // ----- what is sent -----

  /** A publication: its type and flags, the length of the rest, and its parts. */
  lemma PublishSent(topic: seq<byte>, id: nat, flags: nat, data: seq<byte>)
    requires flags < 16 && id < 0x1_0000 && |topic| < 0x1_0000
    ensures var body := Text(topic) + (if flags in {0, 1, 8, 9} then [] else [id / 0x100, id % 0x100]) + data;
            Wire(PublishPacket(topic, id, flags, data)) == [0x30 + flags] + VarLen(|body|) + body
  {
    hide VarLen;
    assert flags / 2 % 4 == 0 <==> flags in {0, 1, 8, 9};
  }

  /** The standard's example of a subscription to two topics, with id 10 (section 3.8). */
  lemma SubscribeSent()
    ensures Wire(SubscribePacket([([0x61, 0x2f, 0x62], 1), ([0x63, 0x2f, 0x64], 2)], 10))
            == [0x82, 14, 0, 10, 0, 3, 0x61, 0x2f, 0x62, 1, 0, 3, 0x63, 0x2f, 0x64, 2]
  {
    TwoTopics();
    assert BE16(10) == [0, 10];
    hide TopicBytes, Wire;
    ShortWire(0x82, [0, 10] + TopicBytes([([0x61, 0x2f, 0x62], 1), ([0x63, 0x2f, 0x64], 2)]));
  }

  lemma ShortWire(header: byte, body: seq<byte>)
    requires |body| < 128
    ensures Wire(Packet(header, body)) == [header, |body|] + body
  {
    assert [header] + [|body|] == [header, |body|];
  }

  lemma TwoTopics()
    ensures TopicBytes([([0x61, 0x2f, 0x62], 1), ([0x63, 0x2f, 0x64], 2)])
            == [0, 3, 0x61, 0x2f, 0x62, 1, 0, 3, 0x63, 0x2f, 0x64, 2]
  {
    var none: seq<(seq<byte>, byte)>, one, two := [], ([0x61, 0x2f, 0x62], 1), ([0x63, 0x2f, 0x64], 2);
    OneTopic([0x61, 0x2f, 0x62], 1, [two]);
    OneTopic([0x63, 0x2f, 0x64], 2, none);
    assert TopicBytes(none) == [] && [one] + [two] == [one, two] && [two] + none == [two];
    hide TopicBytes;
    assert TopicBytes([two]) == [0, 3, 0x63, 0x2f, 0x64, 2];
  }

  lemma OneTopic(topic: seq<byte>, qos: byte, rest: seq<(seq<byte>, byte)>)
    requires |topic| == 3 && forall i :: 0 <= i < |rest| ==> |rest[i].0| < 0x1_0000
    ensures TopicBytes([(topic, qos)] + rest) == [0, 3] + topic + [qos] + TopicBytes(rest)
  {
    assert ([(topic, qos)] + rest)[1..] == rest;
  }

  // ----- what answers a publication -----

  /** The octets that answer a packet: 42 02 and the id for QoS 1, 52 02 and the id for QoS 2, none for any other. The id
      is the two octets behind the topic. */
  function Answer(k: Packet): seq<byte>
  {
    if |k.body| < 2 then [] else
    var i := 2 + Value([k.body[0], k.body[1]]);
    if i + 2 > |k.body| then []
    else if k.header in {0x32, 0x33, 0x3a, 0x3b} then [0x42, 0x02, k.body[i], k.body[i + 1]]
    else if k.header in {0x34, 0x35, 0x3c, 0x3d} then [0x52, 0x02, k.body[i], k.body[i + 1]]
    else []
  }

  /** What is queued for a packet is its answer. */
  lemma AcksAre(k: Packet)
    requires Interpret(k.header, k.body).Some?
    ensures Acks(Interpret(k.header, k.body).value) == Answer(k)
    ensures |Answer(k)| == if k.header in {0x32, 0x33, 0x3a, 0x3b, 0x34, 0x35, 0x3c, 0x3d} then 4 else 0
  {
    PublishHeader(k.header);
    hide Value, ReadConnect;
    if k.header / 16 == 3 {
      TopicRead(k.body);
      var (topic, i) := ScanString(k.body, 0).value;
      hide ScanString, Interpret;
      PublishFields(k.header, k.body, topic, i);
      if i + 2 <= |k.body| {
        ShortIs(k.body[i], k.body[i + 1]);
      }
    }
  }

  lemma TopicRead(s: seq<byte>)
    requires ScanString(s, 0).Some?
    ensures |s| >= 2 && ScanString(s, 0).value.1 == 2 + Value([s[0], s[1]])
  {
    ReadOrder(s[0], s[1], 0, 0);
  }

  /** PUBACK and PUBREC as they are sent. */
  lemma ShortIs(a: byte, b: byte)
    ensures Value([a, b]) < 0x1_0000
    ensures Wire(ShortCommand(4, Value([a, b]))) == [0x42, 0x02, a, b]
    ensures Wire(ShortCommand(5, Value([a, b]))) == [0x52, 0x02, a, b]
  {
    Value2(a, b);
    hide Value;
    assert VarLen(2) == [2] && BE16(a * 0x100 + b) == [a, b];
  }

  function Answers(ks: seq<Packet>): seq<byte>
  {
    if ks == [] then [] else Answer(ks[0]) + Answers(ks[1..])
  }

  lemma {:induction false} AnswersAre(ks: seq<Packet>)
    requires AllReadable(ks)
    ensures AllAcks(Messages(ks)) == Answers(ks)
  {
    hide Interpret, Acks, Answer;
    if ks != [] {
      AcksAre(ks[0]);
      AnswersAre(ks[1..]);
      var m := Interpret(ks[0].header, ks[0].body).value;
      assert ([m] + Messages(ks[1..]))[1..] == Messages(ks[1..]);
    }
  }

  /** The packet that a packet is to be answered with: of type 4 for a publication of QoS 1, of type 5 for one of QoS 2,
      with its id. */
  function Owed(k: Packet): seq<Message>
    requires Interpret(k.header, k.body).Some?
  {
    var id := Interpret(k.header, k.body).value.messageId;
    if k.header in {0x32, 0x33, 0x3a, 0x3b} then [Message(4, 1, id, [], [], 0, NoConnect)]
    else if k.header in {0x34, 0x35, 0x3c, 0x3d} then [Message(5, 1, id, [], [], 0, NoConnect)]
    else []
  }

  function AllOwed(ks: seq<Packet>): seq<Message>
    requires AllReadable(ks)
  {
    if ks == [] then [] else Owed(ks[0]) + AllOwed(ks[1..])
  }

  /** What a receiver of the answers reads: one packet for each publication that is owed one, in their order, and
      nothing else. */
  lemma {:induction false} AnswersRead(ks: seq<Packet>)
    requires AllReadable(ks)
    ensures Drain(Answers(ks)) == Some((AllOwed(ks), []))
  {
    hide Interpret, Answer, Drain, Owed;
    if ks == [] {
      NothingRead();
    } else {
      AnswersRead(ks[1..]);
      AnswerRead(ks[0], Answers(ks[1..]));
    }
  }

  lemma NothingRead()
    ensures Drain([]) == Some(([], []))
  {
  }

  lemma AnswerRead(k: Packet, more: seq<byte>)
    requires Interpret(k.header, k.body).Some? && Drain(more).Some?
    ensures Drain(Answer(k) + more) == Some((Owed(k) + Drain(more).value.0, Drain(more).value.1))
  {
    hide Drain, Interpret, Answer, Owed, Value;
    var header := AnswerCases(k);
    if header == 0 {
      assert [] + more == more && [] + Drain(more).value.0 == Drain(more).value.0;
    } else {
      var i := 2 + Value([k.body[0], k.body[1]]);
      ShortDrained(header, k.body[i], k.body[i + 1], more);
    }
  }

  /** The first octet of the answer, if there is one. */
  lemma AnswerCases(k: Packet) returns (header: byte)
    requires Interpret(k.header, k.body).Some?
    ensures header in {0, 0x42, 0x52}
    ensures header == 0 ==> Answer(k) == [] && Owed(k) == []
    ensures header != 0 ==>
              && |k.body| >= 2
              && var i := 2 + Value([k.body[0], k.body[1]]);
              && i + 2 <= |k.body| && Answer(k) == [header, 0x02, k.body[i], k.body[i + 1]]
              && Owed(k) == [Message(header / 16, 1, Value([k.body[i], k.body[i + 1]]), [], [], 0, NoConnect)]
  {
    AcksAre(k);
    PublishHeader(k.header);
    hide Interpret, Value, Acks;
    if Answer(k) == [] {
      header := 0;
    } else {
      header := Answer(k)[0];
      IdRead(k, 2 + Value([k.body[0], k.body[1]]));
    }
  }

  lemma IdRead(k: Packet, i: nat)
    requires Interpret(k.header, k.body).Some? && k.header / 16 == 3 && k.header / 2 % 4 in {1, 2}
    requires |k.body| >= 2 && i == 2 + Value([k.body[0], k.body[1]])
    ensures i + 2 <= |k.body| && Interpret(k.header, k.body).value.messageId == Value([k.body[i], k.body[i + 1]])
  {
    hide Value, ReadConnect;
    TopicRead(k.body);
    var (topic, n) := ScanString(k.body, 0).value;
    hide ScanString, Interpret;
    PublishFields(k.header, k.body, topic, n);
  }

  lemma ShortDrained(header: byte, a: byte, b: byte, more: seq<byte>)
    requires header in {0x42, 0x52} && Drain(more).Some?
    ensures var d := Drain([header, 0x02, a, b] + more);
            && d.Some? && d.value.1 == Drain(more).value.1
            && d.value.0 == [Message(header / 16, 1, Value([a, b]), [], [], 0, NoConnect)] + Drain(more).value.0
  {
    var k, m := Packet(header, [a, b]), Message(header / 16, 1, Value([a, b]), [], [], 0, NoConnect);
    ShortOnes(header, a, b);
    assert VarLen(2) == [2];
    assert Wire(k) + more == [header, 0x02, a, b] + more;
    hide Interpret, VarLen, Step, Value;
    StepOnPacket(k, m, more, 0);
    PacketSettled(k, more);
  }

  lemma ShortOnes(header: byte, a: byte, b: byte)
    requires header in {0x42, 0x52}
    ensures Interpret(header, [a, b]) == Some(Message(header / 16, 1, Value([a, b]), [], [], 0, NoConnect))
  {
    hide Value;
    ReadOrder(a, b, 0, 0);
  }

  // ----- over a run -----

  /** After any segments, the messages are those of the packets that have arrived whole, and so are the answers. */
  lemma {:induction false} SeenIs(ks: seq<Packet>, w: seq<byte>) returns (n: nat)
    requires AllReadable(ks) && w <= WireAll(ks)
    ensures n <= |ks| && AllReadable(ks[..n]) && Seen(ks, w).0 == Messages(ks[..n])
    ensures |WireAll(ks[..n])| <= |w| && (n < |ks| ==> |w| < |WireAll(ks[..n + 1])|)
    decreases |ks|
  {
    hide Interpret, Wire;
    n := 0;
    if ks != [] {
      var l := |Wire(ks[0])|;
      if l <= |w| {
        assert w[..l] == WireAll(ks)[..l] == Wire(ks[0]);
        assert w[l..] <= WireAll(ks[1..]);
        n := SeenIs(ks[1..], w[l..]);
        assert ks[..n + 1][1..] == ks[1..][..n];
        if n < |ks[1..]| {
          assert ks[..n + 2][1..] == ks[1..][..n + 1];
        }
        n := n + 1;
      } else {
        assert ks[..1][1..] == [];
      }
    }
  }
}
