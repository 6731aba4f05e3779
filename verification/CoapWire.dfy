/** CoAP messages as octets (section 3 of RFC 7252): what is refused, where each field is, and what is an error. */
module CoapWire {
  import opened Bytes
  import opened CoapCodec

  // ----- what can be composed -----

  /** The number in front of an option's. */
  function Before(opts: seq<Opt>, i: nat, prev: nat): nat
    requires i < |opts|
  {
    if i == 0 then prev else opts[i - 1].number
  }

  /** Options can be written if their numbers do not fall, and no step and no value is longer than 65804. */
  lemma {:induction false} OptionsAre(opts: seq<Opt>, prev: nat)
    ensures OptionsOk(opts, prev)
            <==> forall i :: 0 <= i < |opts| ==>
                   && Before(opts, i, prev) <= opts[i].number <= Before(opts, i, prev) + 65804
                   && |opts[i].value| <= 65804
    decreases |opts|
  {
    if opts != [] {
      var rest, n := opts[1..], opts[0].number;
      OptionsAre(rest, n);
      forall i | 0 <= i < |rest|
        ensures rest[i] == opts[i + 1] && Before(rest, i, n) == Before(opts, i + 1, prev)
      {
      }
      if OptionsOk(opts, prev) {
        forall i | 0 <= i < |opts|
          ensures Before(opts, i, prev) <= opts[i].number <= Before(opts, i, prev) + 65804 && |opts[i].value| <= 65804
        {
          if i > 0 {
            assert rest[i - 1] == opts[i];
          }
        }
      }
    }
  }

  /** A message is refused for the first of these that is wrong, and for nothing else: its type above 3, its token longer
      than 8, its class above 7, its detail above 31, its options. */
  lemma RefusedIs(m: Message)
    ensures Refused(m).None?
            <==> m.msgType <= 3 && |m.token| <= 8 && m.codeClass <= 7 && m.codeDetail <= 31 && OptionsOk(m.options, 0)
    ensures Refused(m) == Some(BadType) <==> m.msgType >= 4
    ensures Refused(m) == Some(BadToken) <==> m.msgType <= 3 && |m.token| >= 9
    ensures Refused(m) == Some(BadClass) <==> m.msgType <= 3 && |m.token| <= 8 && m.codeClass >= 8
    ensures Refused(m) == Some(BadDetail)
            <==> m.msgType <= 3 && |m.token| <= 8 && m.codeClass <= 7 && m.codeDetail >= 32
  {
    hide OptionsOk;
  }

  // ----- where the fields are -----

  /** Version 1 in the top two bits, the type in the next two, the token's length in the other four; the class in the top
      three bits, the detail in the others; the id, the token; and the payload behind an octet of ones. */
  lemma MessageIs(m: Message)
    requires Composable(m)
    ensures var w := ComposeBytes(m);
            && |w| >= 4 + |m.token| && w[0] / 64 == 1 && w[0] / 16 % 4 == m.msgType && w[0] % 16 == |m.token|
            && w[1] / 32 == m.codeClass && w[1] % 32 == m.codeDetail && Value(w[2..4]) == m.msgId
            && w[4..4 + |m.token|] == m.token
            && (m.payload != [] ==>
                  |w| > |m.payload| && w[|w| - |m.payload|..] == m.payload && w[|w| - |m.payload| - 1] == 0xff)
  {
    hide OptionsBytes, BE16, Value, OptionsOk;
    var w, h, o, p := ComposeBytes(m), HeaderBytes(m), OptionsBytes(m.options, 0), PayloadBytes(m);
    assert w == h + m.token + o + p && w[..4] == h && w[4..4 + |m.token|] == m.token;
    assert w[2..4] == h[2..4] == BE16(m.msgId) && w[0] == h[0] && w[1] == h[1];
    OctetOrder(m.msgId);
    if m.payload != [] {
      assert p == [0xff] + m.payload && p[1..] == m.payload;
      assert w[|w| - |p|..] == p && w[|w| - |m.payload|..] == p[1..];
    }
  }

  /** How a number of an option is written: in four bits up to 12; from 13 to 268 as 13 and an octet; from 269 on as 14
      and two. */
  lemma FormsAre(v: nat, more: seq<byte>)
    ensures v <= 12 ==> Nibble(v) == v && ExtBytes(v) == []
    ensures 13 <= v <= 268 ==> Nibble(v) == 13 && ExtBytes(v) == [v - 13]
    ensures 269 <= v <= 65804 ==> Nibble(v) == 14 && |ExtBytes(v)| == 2 && Value(ExtBytes(v)) == v - 269
  {
    if 269 <= v <= 65804 {
      OctetOrder(v - 269);
    }
  }

  /** An option: the step to its number and the length of its value, in those forms, and the value. */
  lemma OptionIs(o: Opt, prev: nat)
    requires prev <= o.number && o.number - prev <= 65804 && |o.value| <= 65804
    ensures var w, d, l := OptionBytes(o, prev), o.number - prev, |o.value|;
            && |w| >= 1 + l && w[0] / 16 == Nibble(d) && w[0] % 16 == Nibble(l) && w[|w| - l..] == o.value
            && w[1..|w| - l] == ExtBytes(d) + ExtBytes(l)
  {
    hide ExtBytes, ExtSize, Nibble;
    var d, l := o.number - prev, |o.value|;
    var first := [Nibble(d) * 16 + Nibble(l)];
    assert OptionBytes(o, prev) == first + (ExtBytes(d) + ExtBytes(l)) + o.value;
    ThreeParts(first, ExtBytes(d) + ExtBytes(l), o.value);
  }

  /** The request of figure 16 of RFC 7252: GET /temperature, confirmable, with id 7d34. */
  lemma RequestComposed()
    ensures var temperature := [0x74, 0x65, 0x6d, 0x70, 0x65, 0x72, 0x61, 0x74, 0x75, 0x72, 0x65];
            var m := Message(0, 0, 1, 0x7d34, [], [Opt(11, temperature)], []);
            && Composable(m) && ComposeBytes(m) == [0x40, 0x01, 0x7d, 0x34, 0xbb] + temperature
            && Parse([0x40, 0x01, 0x7d, 0x34, 0xbb] + temperature)
               == Parsed(None, {TypeField, ClassField, DetailField, IdField, OptionsField}, m)
  {
    var temperature: seq<byte> := [0x74, 0x65, 0x6d, 0x70, 0x65, 0x72, 0x61, 0x74, 0x75, 0x72, 0x65];
    var o := Opt(11, temperature);
    var m := Message(0, 0, 1, 0x7d34, [], [o], []);
    assert [o][1..] == [] && OptionsOk([], 11) && OptionsOk([o], 0) && OptionsBytes([], 11) == [];
    assert OptionBytes(o, 0) == [0xbb] + temperature;
    assert OptionsBytes([o], 0) == OptionBytes(o, 0) + [];
    assert HeaderBytes(m) == [0x40, 0x01, 0x7d, 0x34];
    assert Restored(m) == Parsed(None, {TypeField, ClassField, DetailField, IdField, OptionsField}, m);
    assert Small([o]) && Composable(m);
    hide OptionsOk, OptionBytes, OptionsBytes, HeaderBytes, Parse;
    assert ComposeBytes(m) == [0x40, 0x01, 0x7d, 0x34] + [] + ([0xbb] + temperature) + [];
    RoundTrip(m);
  }

  // ----- errors -----

  /** Fewer than four octets are too few; a version other than 1 is to be ignored; a token of more than 8 octets, or
      a 15 in an option's first octet that is not the payload marker, is no message; what ends early has too little. */
  lemma ErrorsAre(b: seq<byte>)
    ensures |b| <= 3 ==> Parse(b).error == Some(NotEnoughData)
    ensures |b| >= 4 && b[0] / 64 != 1 ==> Parse(b).error == Some(Ignore)
    ensures |b| >= 4 && b[0] / 64 == 1 && b[0] % 16 >= 9 ==> Parse(b).error == Some(FormatError)
    ensures |b| >= 4 && b[0] / 64 == 1 && b[0] % 16 <= 8 && |b| < 4 + b[0] % 16 ==> Parse(b).error == Some(NotEnoughData)
    ensures |b| >= 5 && b[0] / 64 == 1 && b[0] % 16 == 0 && b[4] != 0xff && (b[4] / 16 == 15 || b[4] % 16 == 15) ==>
              Parse(b).error == Some(FormatError)
    ensures |b| == 5 && b[0] / 64 == 1 && b[0] % 16 == 0 && b[4] / 16 in {13, 14} && b[4] % 16 != 15 ==>
              Parse(b).error == Some(NotEnoughData)
  {
    hide FromBE16, Insert;
    if |b| >= 5 {
      assert b[4..][0] == b[4] && b[4..][1..] == b[5..];
    }
  }
}
