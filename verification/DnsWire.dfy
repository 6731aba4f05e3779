/** DNS packets as octets (sections 3 and 4 of RFC 1035): a query, names, and the fields of a response. */
module DnsWire {
  import opened Bytes
  import opened DnsNames
  import opened DnsCodec
  import opened Dns

  // ----- names -----

  /** Labels with dots between them. */
  function Text(labels: seq<seq<byte>>): seq<byte>
  {
    if labels == [] then [] else if |labels| == 1 then labels[0] else labels[0] + [0x2e] + Text(labels[1..])
  }

  /** Each label behind its length, and a zero octet (section 3.1); nothing more from a label of over 127 octets on. */
  function Labels(labels: seq<seq<byte>>): seq<byte>
  {
    if labels == [] then [0] else if |labels[0]| > 127 then [] else [|labels[0]|] + labels[0] + Labels(labels[1..])
  }

  predicate NoDots(labels: seq<seq<byte>>) {
    forall i :: 0 <= i < |labels| ==> 0x2e !in labels[i]
  }

  /** A name is written as its labels. */
  lemma {:induction false} NameIs(labels: seq<seq<byte>>)
    requires labels != [] && NoDots(labels)
    ensures NameBytes(Text(labels)) == Labels(labels)
    decreases |labels|
  {
    var l := labels[0];
    LabelsOnce(labels);
    hide NameBytes, Text, Labels;
    if |labels| == 1 {
      FirstOnly(l);
    } else {
      FirstThenRest(l, Text(labels[1..]));
      NameIs(labels[1..]);
    }
  }

  lemma LabelsOnce(labels: seq<seq<byte>>)
    requires labels != []
    ensures |labels| == 1 ==> Labels(labels[1..]) == [0] && Text(labels) == labels[0]
    ensures |labels| > 1 ==> Text(labels) == labels[0] + [0x2e] + Text(labels[1..])
    ensures Labels(labels) == if |labels[0]| > 127 then [] else [|labels[0]|] + labels[0] + Labels(labels[1..])
  {
  }

  lemma FirstOnly(l: seq<byte>)
    requires 0x2e !in l
    ensures NameBytes(l) == if |l| > 127 then [] else [|l|] + l + [0]
  {
    hide NameBytes, FirstDot;
    DotAt(l, []);
    assert l + [] == l && l[..|l|] == l;
    LongNone(l);
    NameBytesOnce(l);
    if |l| <= 127 {
      Regroup([|l|], l, [0]);
    }
  }

  lemma FirstThenRest(l: seq<byte>, rest: seq<byte>)
    requires 0x2e !in l
    ensures NameBytes(l + [0x2e] + rest) == if |l| > 127 then [] else [|l|] + l + NameBytes(rest)
  {
    hide NameBytes, FirstDot;
    var t := l + [0x2e] + rest;
    DotAt(l, [0x2e] + rest);
    Cut(l, rest);
    LongNone(t);
    NameBytesOnce(t);
    if |l| <= 127 {
      Regroup([|l|], l, NameBytes(rest));
    }
  }

  lemma Cut(l: seq<byte>, rest: seq<byte>)
    ensures var t := l + [0x2e] + rest; t == l + ([0x2e] + rest) && t[..|l|] == l && t[|l| + 1..] == rest
  {
  }

  lemma LongNone(name: seq<byte>)
    ensures FirstDot(name) > 127 ==> NameBytes(name) == []
  {
    hide FirstDot;
  }

  lemma {:induction false} DotAt(l: seq<byte>, rest: seq<byte>)
    requires 0x2e !in l && (rest != [] ==> rest[0] == 0x2e)
    ensures FirstDot(l + rest) == |l|
    decreases |l|
  {
    if l == [] {
      assert l + rest == rest;
    } else {
      assert (l + rest)[1..] == l[1..] + rest && (l + rest)[0] == l[0] && l[0] in l;
      DotAt(l[1..], rest);
    }
  }

  /** What the reader does with an octet and what is behind it (section 4.1.4). Any of the two top bits makes a pointer,
      with the offset in the other six bits and the next octet; up to 3f it is the length of a label, which is copied
      with a dot behind it, or as far as there is room; at the end the last dot becomes a zero. What reaches behind the
      packet is given up. */
  lemma TurnIs(pkt: seq<byte>, off: nat, out: seq<byte>, max: nat)
    requires off + 1 < |pkt| && |out| <= max
    ensures pkt[off] >= 0x40 ==>
              var t := Value([pkt[off] % 0x40, pkt[off + 1]]);
              Step(pkt, off, out, max) == if t < |pkt| then More(t, out) else Done(out, 0)
    ensures 1 <= pkt[off] <= 0x3f ==>
              var n, room := pkt[off], max - |out|;
              Step(pkt, off, out, max)
              == if off + 1 + Min(n, room) >= |pkt| then Done(out, 0)
                 else if n >= room then Done(out + pkt[off + 1..off + 1 + room], max)
                 else More(off + 1 + n, out + pkt[off + 1..off + 1 + n] + [0x2e])
    ensures pkt[off] == 0 ==>
              Step(pkt, off, out, max) == if out == [] then Done([], 0) else Done(out[..|out| - 1] + [0], |out| - 1)
  {
    ReadOrder(pkt[off] % 0x40, pkt[off + 1], 0, 0);
    hide Value, FromBE16;
    if 1 <= pkt[off] <= 0x3f && off + 1 + Min(pkt[off], max - |out|) < |pkt| {
      assert |out + pkt[off + 1..off + 1 + Min(pkt[off], max - |out|)]| == |out| + Min(pkt[off], max - |out|);
    }
  }

  /** At the very end of a packet only the end of the name is read. */
  lemma LastTurnIs(pkt: seq<byte>, off: nat, out: seq<byte>, max: nat)
    requires off + 1 == |pkt| && |out| <= max
    ensures Step(pkt, off, out, max)
            == if pkt[off] != 0 then Done(out, 0)
               else if out == [] then Done([], 0) else Done(out[..|out| - 1] + [0], |out| - 1)
  {
  }

  // ----- packets -----

  /** A query: the id as it lies in memory, recursion desired, one question; the name, the type, and class 1. */
  lemma QueryIs(tid: nat, name: seq<byte>, queryType: nat)
    requires tid < 0x1_0000 && queryType < 0x1_0000
    ensures QueryPacket(tid, name, queryType)
            == [tid % 0x100, tid / 0x100, 0x01, 0x00, 0, 1, 0, 0, 0, 0, 0, 0]
               + NameBytes(name) + [queryType / 0x100, queryType % 0x100, 0, 1]
  {
    var e := Entry(name, queryType, 1, 0, Question, []);
    var n, f := NameBytes(name), [queryType / 0x100, queryType % 0x100, 0, 1];
    OneEntry(e);
    assert FixedBytes(e) == f && EntryBytes(e) == n + (f + []);
    assert HeaderBytes(tid, 0x100, 1, 0) == [tid % 0x100, tid / 0x100, 0x01, 0x00, 0, 1, 0, 0, 0, 0, 0, 0];
    hide NameBytes, EntryBytes, FixedBytes, EntriesBytes, HeaderBytes;
    assert f + [] == f;
    Regroup(HeaderBytes(tid, 0x100, 1, 0), n, f);
  }

  /** The query for type 1 of www.a. */
  lemma QueryExample()
    ensures QueryPacket(0x0102, [0x77, 0x77, 0x77, 0x2e, 0x61], 1)
            == [0x02, 0x01, 0x01, 0x00, 0, 1, 0, 0, 0, 0, 0, 0] + [3, 0x77, 0x77, 0x77, 1, 0x61, 0] + [0, 1, 0, 1]
  {
    hide QueryPacket, NameBytes;
    ExampleName();
    QueryIs(0x0102, [0x77, 0x77, 0x77, 0x2e, 0x61], 1);
  }

  lemma ExampleName()
    ensures NameBytes([0x77, 0x77, 0x77, 0x2e, 0x61]) == [3, 0x77, 0x77, 0x77, 1, 0x61, 0]
  {
    hide NameBytes;
    TwoLabels([0x77, 0x77, 0x77], [0x61]);
    assert [0x77, 0x77, 0x77, 0x2e, 0x61] == [0x77, 0x77, 0x77] + [0x2e] + [0x61];
  }

  lemma TwoLabels(a: seq<byte>, b: seq<byte>)
    requires |a| <= 127 && |b| <= 127 && NoDots([a, b])
    ensures NameBytes(a + [0x2e] + b) == [|a|] + a + ([|b|] + b + [0])
  {
    hide NameBytes;
    var none: seq<seq<byte>> := [];
    assert [a, b][1..] == [b] && [b][1..] == none && Labels(none) == [0];
    assert Text([a, b]) == a + [0x2e] + Text([b]) && Labels([b]) == [|b|] + b + Labels(none);
    NameIs([a, b]);
  }

  /** A header as it is written: the id as it lies in memory, everything else in network order. */
  lemma HeaderWritten(tid: nat, flags: nat, questions: int, answers: int)
    requires tid < 0x1_0000 && flags < 0x1_0000
    ensures var q, a := questions % 0x1_0000, answers % 0x1_0000;
            HeaderBytes(tid, flags, questions, answers)
            == [tid % 0x100, tid / 0x100, flags / 0x100, flags % 0x100, q / 0x100, q % 0x100, a / 0x100, a % 0x100,
                0, 0, 0, 0]
  {
  }

  /** What a record is written as: name, type, class, and, for an answer, time to live, length and data, as words; the
      data of type 5 are a name. */
  lemma EntryIs(e: Entry)
    requires e.kind != Invalid
    ensures DataBytes(e) == if e.rtype == 5 then NameBytes(e.rdata) else e.rdata
    ensures EntryBytes(e)
            == NameBytes(e.name) + (Word(e.rtype) + Word(e.rclass)
                                    + if e.kind == Question then []
                                      else Long(e.ttl) + Word(|DataBytes(e)|) + DataBytes(e))
  {
    hide NameBytes, AnswerBytes;
    AnswerFields(e);
    assert FixedBytes(e) == Word(e.rtype) + Word(e.rclass);
  }

  function Word(n: int): seq<byte> {
    [n % 0x1_0000 / 0x100, n % 0x1_0000 % 0x100]
  }

  function Long(n: int): seq<byte> {
    var u := n % 0x1_0000_0000;
    [u / 0x100_0000, u / 0x1_0000 % 0x100, u / 0x100 % 0x100, u % 0x100]
  }

  lemma AnswerFields(e: Entry)
    ensures AnswerBytes(e) == Long(e.ttl) + Word(|DataBytes(e)|) + DataBytes(e)
  {
    hide DataBytes;
  }

  /** What has been written when a name turns out to have a label of more than 127 octets: all in front of that label.
      In front of an alias that is cut like that, the octets for its length still hold the class. */
  lemma BrokenIs(e: Entry)
    ensures e.kind == Invalid ==> Partial(e) == []
    ensures e.kind != Invalid && !LabelSizes(e.name, 0, 127) ==> Partial(e) == NameBytes(e.name)
    ensures e.kind == Answer && LabelSizes(e.name, 0, 127) && e.rtype == 5 && !LabelSizes(e.rdata, 0, 127) ==>
              Partial(e)
              == NameBytes(e.name)
                 + (Word(e.rtype) + Word(e.rclass) + (Long(e.ttl) + Word(e.rclass) + NameBytes(e.rdata)))
  {
    hide NameBytes, LabelSizes;
    assert FixedBytes(e) == Word(e.rtype) + Word(e.rclass);
  }

  /** The header of a response: id, flags, and how many records of each kind are taken, 32 at the most. */
  lemma HeaderIs(pkt: seq<byte>)
    requires ParseMessage(pkt).Some?
    ensures var m := ParseMessage(pkt).value;
            && |pkt| >= 12 && m.tid == Value([pkt[1], pkt[0]]) && m.flags == Value([pkt[2], pkt[3]])
            && |m.questions| == Min(32, Value([pkt[4], pkt[5]])) && |m.answers| == Min(32, Value([pkt[6], pkt[7]]))
  {
    ReadOrder(pkt[1], pkt[0], 0, 0);
    ReadOrder(pkt[2], pkt[3], 0, 0);
    ReadOrder(pkt[4], pkt[5], 0, 0);
    ReadOrder(pkt[6], pkt[7], 0, 0);
    hide ParseRecords, FromBE16, Value;
  }

  /** A packet that is refused leaves these too, if it has a header at all. */
  lemma LeftIs(pkt: seq<byte>)
    ensures |pkt| < 12 ==> Left(pkt) == Message(0, 0, [], [])
    ensures |pkt| >= 12 ==>
              var m := Left(pkt);
              && m.tid == Value([pkt[1], pkt[0]]) && m.flags == Value([pkt[2], pkt[3]])
              && |m.questions| == Min(32, Value([pkt[4], pkt[5]])) && |m.answers| == Min(32, Value([pkt[6], pkt[7]]))
  {
    hide ParseRecords, Slots, FromBE16, Value;
    if |pkt| >= 12 {
      ReadOrder(pkt[1], pkt[0], 0, 0);
      ReadOrder(pkt[2], pkt[3], 0, 0);
      ReadOrder(pkt[4], pkt[5], 0, 0);
      ReadOrder(pkt[6], pkt[7], 0, 0);
    }
  }

  /** An answer behind a pointer that is cut off leaves its name, type and class, or nothing if not even these are there. */
  lemma CutAnswerIs(pkt: seq<byte>, off: nat)
    requires off < |pkt| && pkt[off] >= 0xc0
    ensures |pkt| < off + 6 ==> ParseRecord(pkt, off, true) == None && Slot(pkt, off, true) == NO_RECORD
    ensures off + 6 <= |pkt| < off + 13 ==>
              && ParseRecord(pkt, off, true) == None
              && Slot(pkt, off, true)
                 == Record(Slice(off, 2), Value([pkt[off + 2], pkt[off + 3]]), Value([pkt[off + 4], pkt[off + 5]]),
                           0, Answer, Slice(0, 0))
  {
    assert SkipName(pkt, off) == off + 1;
    if off + 6 <= |pkt| {
      ReadOrder(pkt[off + 2], pkt[off + 3], 0, 0);
      ReadOrder(pkt[off + 4], pkt[off + 5], 0, 0);
    }
    hide FromBE16, FromBE32, Value;
  }

  /** An answer whose name is a pointer, as servers write it: where its fields are. */
  lemma AnswerIs(pkt: seq<byte>, off: nat)
    requires off + 13 <= |pkt| && pkt[off] >= 0xc0
    ensures var p, ttl := off + 2, Value([pkt[off + 6], pkt[off + 7], pkt[off + 8], pkt[off + 9]]);
            var n := Value([pkt[off + 10], pkt[off + 11]]);
            ParseRecord(pkt, off, true)
            == Some((Record(Slice(off, 2), Value([pkt[p], pkt[p + 1]]), Value([pkt[p + 2], pkt[p + 3]]),
                            if ttl < 0x8000_0000 then ttl else ttl - 0x1_0000_0000, Answer, Slice(off + 12, n)),
                     off + 12 + n))
    ensures ParseRecord(pkt, off, false)
            == Some((Record(Slice(off, 2), Value([pkt[off + 2], pkt[off + 3]]), Value([pkt[off + 4], pkt[off + 5]]),
                            0, Question, Slice(0, 0)), off + 6))
  {
    assert SkipName(pkt, off) == off + 1;
    ReadOrder(pkt[off + 2], pkt[off + 3], 0, 0);
    ReadOrder(pkt[off + 4], pkt[off + 5], 0, 0);
    ReadOrder(pkt[off + 6], pkt[off + 7], pkt[off + 8], pkt[off + 9]);
    ReadOrder(pkt[off + 10], pkt[off + 11], 0, 0);
    hide FromBE16, FromBE32, Value;
  }
}
