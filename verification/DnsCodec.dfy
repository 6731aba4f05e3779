/**
 DNS packets (section 4.1 of RFC 1035): the bytes of a header and its records, and parsing them back
 into names and record data that point into the packet.
 */
module DnsCodec {
  import opened Bytes
  import opened DnsNames

  const HEADER := 12
  const MAX_RECORDS := 32
  const CNAME := 5

  datatype Kind = Invalid | Question | Answer

  /** A stretch of the packet. */
  datatype Slice = Slice(off: nat, len: nat)

  datatype Record = Record(name: Slice, rtype: nat, rclass: nat, ttl: int, kind: Kind, rdata: Slice)

  datatype Message = Message(tid: nat, flags: nat, questions: seq<Record>, answers: seq<Record>)

  /** A record to be written: its name and data as text and bytes. */
  datatype Entry = Entry(name: seq<byte>, rtype: int, rclass: int, ttl: int, kind: Kind, rdata: seq<byte>)

  // ----- parsing -----

  /** The walk over a name without following it: to its zero octet, or just behind its first pointer octet. */
  function SkipName(pkt: seq<byte>, off: nat): (r: nat)
    ensures r >= off
    decreases |pkt| - off
  {
    if off >= |pkt| || pkt[off] == 0 then off
    else if pkt[off] >= 64 then off + 1
    else SkipName(pkt, off + pkt[off] + 1)
  }

  /** The conversion of 32 bits to an int. */
  function ToInt32(u: nat): (t: int)
    requires u < 0x1_0000_0000
    ensures -0x8000_0000 <= t < 0x8000_0000 && t % 0x1_0000_0000 == u
  {
    if u < 0x8000_0000 then u else u - 0x1_0000_0000
  }

  /** One record at off, and where the next one is. The data of an answer may reach behind the packet's end. */
  function ParseRecord(pkt: seq<byte>, off: nat, reply: bool): (r: Option<(Record, nat)>)
    ensures r.Some? ==> r.value.1 > off
  {
    var z := SkipName(pkt, off);
    if z > |pkt| - 5 then None else
    var name, p := Slice(off, z - off + 1), z + 1;
    var rtype, rclass := FromBE16(pkt[p], pkt[p + 1]), FromBE16(pkt[p + 2], pkt[p + 3]);
    if !reply then Some((Record(name, rtype, rclass, 0, Question, Slice(0, 0)), p + 4))
    else if p + 4 >= |pkt| - 6 then None
    else
      var ttl := ToInt32(FromBE32(pkt[p + 4], pkt[p + 5], pkt[p + 6], pkt[p + 7]));
      var n := FromBE16(pkt[p + 8], pkt[p + 9]);
      Some((Record(name, rtype, rclass, ttl, Answer, Slice(p + 10, n)), p + 10 + n))
  }

  function ParseRecords(pkt: seq<byte>, off: nat, n: nat, reply: bool): (r: Option<(seq<Record>, nat)>)
    ensures r.Some? ==> |r.value.0| == n
    decreases n
  {
    if n == 0 then Some(([], off)) else
    var first := ParseRecord(pkt, off, reply);
    if first.None? then None else
    var rest := ParseRecords(pkt, first.value.1, n - 1, reply);
    if rest.None? then None else Some(([first.value.0] + rest.value.0, rest.value.1))
  }

  function Questions(pkt: seq<byte>): (n: nat)
    requires |pkt| >= HEADER
    ensures n <= MAX_RECORDS
  {
    Min(MAX_RECORDS, FromBE16(pkt[4], pkt[5]))
  }

  function Answers(pkt: seq<byte>): (n: nat)
    requires |pkt| >= HEADER
    ensures n <= MAX_RECORDS
  {
    Min(MAX_RECORDS, FromBE16(pkt[6], pkt[7]))
  }

  function ParseMessage(pkt: seq<byte>): (m: Option<Message>)
  {
    if |pkt| < HEADER then None else
    var qs := ParseRecords(pkt, HEADER, Questions(pkt), false);
    if qs.None? then None else
    var ans := ParseRecords(pkt, qs.value.1, Answers(pkt), true);
    if ans.None? then None
    else Some(Message(FromBE16(pkt[1], pkt[0]), FromBE16(pkt[2], pkt[3]), qs.value.0, ans.value.0))
  }

  const NO_RECORD := Record(Slice(0, 0), 0, 0, 0, Invalid, Slice(0, 0))

  function NoRecords(n: nat): (r: seq<Record>)
    ensures |r| == n && forall i :: 0 <= i < n ==> r[i] == NO_RECORD
  {
    seq(n, _ => NO_RECORD)
  }

  /** What parsing the record at off leaves in an empty slot; a cut answer leaves all but its time and its data. */
  function Slot(pkt: seq<byte>, off: nat, reply: bool): Record
  {
    var r, z := ParseRecord(pkt, off, reply), SkipName(pkt, off);
    if r.Some? then r.value.0
    else if z > |pkt| - 5 then NO_RECORD
    else Record(Slice(off, z - off + 1), FromBE16(pkt[z + 1], pkt[z + 2]), FromBE16(pkt[z + 3], pkt[z + 4]),
                0, Answer, Slice(0, 0))
  }

  /** What parsing n records leaves in n empty slots. */
  function Slots(pkt: seq<byte>, off: nat, n: nat, reply: bool): (r: seq<Record>)
    ensures |r| == n
    decreases n
  {
    if n == 0 then [] else
    var first := ParseRecord(pkt, off, reply);
    [Slot(pkt, off, reply)]
    + if first.None? then NoRecords(n - 1) else Slots(pkt, first.value.1, n - 1, reply)
  }

  /** The slots hold the records in front of the first that cannot be parsed, what that one leaves, and nothing more. */
  lemma {:induction false} SlotsHold(pkt: seq<byte>, off: nat, n: nat, reply: bool) returns (k: nat)
    ensures k <= n && ParseRecords(pkt, off, k, reply).Some?
    ensures k < n ==> ParseRecords(pkt, off, k + 1, reply).None? && ParseRecords(pkt, off, n, reply).None?
    ensures var (records, end) := ParseRecords(pkt, off, k, reply).value;
            && Slots(pkt, off, n, reply)[..k] == records
            && (k < n ==> Slots(pkt, off, n, reply)[k] == Slot(pkt, end, reply))
    ensures forall j :: k < j < n ==> Slots(pkt, off, n, reply)[j] == NO_RECORD
    decreases n
  {
    hide ParseRecord, Slot;
    k := 0;
    if n > 0 {
      var first := ParseRecord(pkt, off, reply);
      if first.Some? {
        SlotIsRecord(pkt, off, reply);
        k := SlotsHold(pkt, first.value.1, n - 1, reply);
        var rest := Slots(pkt, first.value.1, n - 1, reply);
        assert ([Slot(pkt, off, reply)] + rest)[..k + 1] == [Slot(pkt, off, reply)] + rest[..k];
        k := k + 1;
      }
    }
  }

  lemma SlotIsRecord(pkt: seq<byte>, off: nat, reply: bool)
    ensures ParseRecord(pkt, off, reply).Some? ==> Slot(pkt, off, reply) == ParseRecord(pkt, off, reply).value.0
  {
  }

  /** A message as parsing leaves it, whether the packet is refused or not. */
  function Left(pkt: seq<byte>): Message
  {
    if |pkt| < HEADER then Message(0, 0, [], []) else
    var qs := ParseRecords(pkt, HEADER, Questions(pkt), false);
    Message(FromBE16(pkt[1], pkt[0]), FromBE16(pkt[2], pkt[3]), Slots(pkt, HEADER, Questions(pkt), false),
            if qs.None? then NoRecords(Answers(pkt)) else Slots(pkt, qs.value.1, Answers(pkt), true))
  }

  lemma LeftWhole(pkt: seq<byte>)
    requires ParseMessage(pkt).Some?
    ensures Left(pkt) == ParseMessage(pkt).value
  {
    hide ParseRecords, Slots;
    var qs := ParseRecords(pkt, HEADER, Questions(pkt), false);
    var k := SlotsHold(pkt, HEADER, Questions(pkt), false);
    var l := SlotsHold(pkt, qs.value.1, Answers(pkt), true);
  }

  /** One more record at the end of a list. */
  lemma {:induction false} ParseSnoc(pkt: seq<byte>, off: nat, n: nat, reply: bool)
    ensures var a := ParseRecords(pkt, off, n, reply);
            ParseRecords(pkt, off, n + 1, reply)
            == if a.None? then None else
               var r := ParseRecord(pkt, a.value.1, reply);
               if r.None? then None else Some((a.value.0 + [r.value.0], r.value.1))
    decreases n
  {
    hide ParseRecord;
    var first := ParseRecord(pkt, off, reply);
    if n == 0 {
      if first.Some? {
        OnlyOne(first.value.0);
      }
    } else if first.Some? {
      ParseSnoc(pkt, first.value.1, n - 1, reply);
      var a := ParseRecords(pkt, first.value.1, n - 1, reply);
      if a.Some? {
        var r := ParseRecord(pkt, a.value.1, reply);
        if r.Some? {
          assert [first.value.0] + (a.value.0 + [r.value.0]) == [first.value.0] + a.value.0 + [r.value.0];
        }
      }
    }
  }

  lemma OnlyOne(r: Record)
    ensures [r] + [] == [] + [r]
  {
  }

  // ----- writing -----

  function HeaderBytes(tid: nat, flags: nat, questions: int, answers: int): (s: seq<byte>)
    requires tid < 0x1_0000 && flags < 0x1_0000
    ensures |s| == HEADER
  {
    [tid % 0x100, tid / 0x100] + BE16(flags) + BE16(questions % 0x1_0000) + BE16(answers % 0x1_0000) + [0, 0, 0, 0]
  }

  /** The data of a record as it is written: that of an alias is a name. */
  function DataBytes(e: Entry): seq<byte>
  {
    if e.rtype == CNAME then NameBytes(e.rdata) else e.rdata
  }

  /** Type and class. */
  function FixedBytes(e: Entry): (s: seq<byte>)
    ensures |s| == 4
  {
    BE16(e.rtype % 0x1_0000) + BE16(e.rclass % 0x1_0000)
  }

  /** What only an answer has: time to live, length, and data. */
  function AnswerBytes(e: Entry): (s: seq<byte>)
    ensures |s| == 6 + |DataBytes(e)|
  {
    BE32(e.ttl % 0x1_0000_0000) + BE16(|DataBytes(e)| % 0x1_0000) + DataBytes(e)
  }

  function EntryBytes(e: Entry): (s: seq<byte>)
  {
    NameBytes(e.name) + (FixedBytes(e) + if e.kind == Answer then AnswerBytes(e) else [])
  }

  function EntriesBytes(es: seq<Entry>): seq<byte>
  {
    if es == [] then [] else EntryBytes(es[0]) + EntriesBytes(es[1..])
  }

  // ----- round trip -----

  /** Fields that fit, and a name of labels of 1 to 63 bytes (section 2.3.4 of RFC 1035). */
  predicate Fits(e: Entry, kind: Kind)
  {
    && e.kind == kind && LabelSizes(e.name, 1, 63)
    && 0 <= e.rtype < 0x1_0000 && 0 <= e.rclass < 0x1_0000
    && (kind == Answer ==> -0x8000_0000 <= e.ttl < 0x8000_0000 && |DataBytes(e)| < 0x1_0000)
  }

  /** The record an entry becomes when it is read at off. */
  function Placed(e: Entry, off: nat): Record
  {
    var name := Slice(off, |NameBytes(e.name)|);
    if e.kind == Answer
    then Record(name, e.rtype % 0x1_0000, e.rclass % 0x1_0000, e.ttl, Answer,
                Slice(off + name.len + 10, |DataBytes(e)|))
    else Record(name, e.rtype % 0x1_0000, e.rclass % 0x1_0000, 0, Question, Slice(0, 0))
  }

  lemma {:induction false} SkipWritten(pkt: seq<byte>, off: nat, name: seq<byte>)
    requires LabelSizes(name, 1, 63) && LiesAt(pkt, off, NameBytes(name))
    ensures SkipName(pkt, off) == off + |NameBytes(name)| - 1
    decreases |name|
  {
    hide FirstDot, NameBytes, SkipName, LiesAt;
    var d := FirstDot(name);
    NameBytesOnce(name);
    var tail := if d == |name| then [0] else NameBytes(name[d + 1..]);
    LabelLies(pkt, off, d, name[..d], tail);
    var next := off + 1 + d;
    SkipOnce(pkt, off);
    if d == |name| {
      SkipOnce(pkt, next);
    } else {
      SkipWritten(pkt, next, name[d + 1..]);
    }
  }

  lemma SkipOnce(pkt: seq<byte>, off: nat)
    requires off < |pkt| && pkt[off] < 64
    ensures SkipName(pkt, off) == if pkt[off] == 0 then off else SkipName(pkt, off + pkt[off] + 1)
  {
  }

  lemma ReadBE16(pkt: seq<byte>, off: nat, n: nat)
    requires n < 0x1_0000 && LiesAt(pkt, off, BE16(n))
    ensures FromBE16(pkt[off], pkt[off + 1]) == n
  {
    var s := pkt[off..off + 2];
    assert pkt[off] == s[0] && pkt[off + 1] == s[1];
    assert n == n / 0x100 * 0x100 + n % 0x100;
  }

  lemma ReadBE32(pkt: seq<byte>, off: nat, n: nat)
    requires n < 0x1_0000_0000 && LiesAt(pkt, off, BE32(n))
    ensures FromBE32(pkt[off], pkt[off + 1], pkt[off + 2], pkt[off + 3]) == n
  {
    hide BE32;
    var s := pkt[off..off + 4];
    assert pkt[off] == s[0] && pkt[off + 1] == s[1] && pkt[off + 2] == s[2] && pkt[off + 3] == s[3];
    Octets32(n);
  }

  lemma SameInt32(t: int)
    requires -0x8000_0000 <= t < 0x8000_0000
    ensures ToInt32(t % 0x1_0000_0000) == t
  {
  }

  /** Where the fixed fields of a written record are. */
  lemma FixedLies(pkt: seq<byte>, off: nat, e: Entry, kind: Kind)
    requires kind != Invalid && Fits(e, kind) && LiesAt(pkt, off, EntryBytes(e))
    ensures var p := off + |NameBytes(e.name)|;
            && SkipName(pkt, off) == p - 1 && p + 4 <= |pkt|
            && FromBE16(pkt[p], pkt[p + 1]) == e.rtype && FromBE16(pkt[p + 2], pkt[p + 3]) == e.rclass
            && LiesAt(pkt, off, NameBytes(e.name))
            && |EntryBytes(e)| == |NameBytes(e.name)| + 4 + (if kind == Answer then |AnswerBytes(e)| else 0)
            && (kind == Answer ==> LiesAt(pkt, p + 4, AnswerBytes(e)))
  {
    hide SkipName, NameBytes, LabelSizes, FromBE16, AnswerBytes, FixedBytes, LiesAt;
    var name, p := NameBytes(e.name), off + |NameBytes(e.name)|;
    var more := if e.kind == Answer then AnswerBytes(e) else [];
    LiesIn(pkt, off, name, FixedBytes(e) + more);
    SkipWritten(pkt, off, e.name);
    LiesIn(pkt, p, FixedBytes(e), more);
    TypeAndClass(pkt, p, e);
  }

  lemma TypeAndClass(pkt: seq<byte>, p: nat, e: Entry)
    requires 0 <= e.rtype < 0x1_0000 && 0 <= e.rclass < 0x1_0000 && LiesAt(pkt, p, FixedBytes(e))
    ensures p + 4 <= |pkt|
    ensures FromBE16(pkt[p], pkt[p + 1]) == e.rtype && FromBE16(pkt[p + 2], pkt[p + 3]) == e.rclass
  {
    hide FromBE16, BE16;
    LiesIn(pkt, p, BE16(e.rtype), BE16(e.rclass));
    ReadBE16(pkt, p, e.rtype);
    ReadBE16(pkt, p + 2, e.rclass);
  }

  /** Where the time to live and the length of a written answer are. */
  lemma AnswerLies(pkt: seq<byte>, off: nat, e: Entry)
    requires Fits(e, Answer) && LiesAt(pkt, off, AnswerBytes(e))
    ensures off + 6 + |DataBytes(e)| <= |pkt|
    ensures ToInt32(FromBE32(pkt[off], pkt[off + 1], pkt[off + 2], pkt[off + 3])) == e.ttl
    ensures FromBE16(pkt[off + 4], pkt[off + 5]) == |DataBytes(e)| && LiesAt(pkt, off + 6, DataBytes(e))
  {
    hide LabelSizes, FromBE16, FromBE32, ToInt32, BE16, BE32, DataBytes;
    var data, ttl := DataBytes(e), BE32(e.ttl % 0x1_0000_0000);
    LiesIn(pkt, off, ttl + BE16(|data|), data);
    LiesIn(pkt, off, ttl, BE16(|data|));
    ReadBE32(pkt, off, e.ttl % 0x1_0000_0000);
    ReadBE16(pkt, off + 4, |data|);
    SameInt32(e.ttl);
  }

  /** A written record is read back as it was, unless it is an answer without data at the very end of the packet. */
  lemma RecordRoundTrip(pkt: seq<byte>, off: nat, e: Entry, kind: Kind)
    requires kind != Invalid && Fits(e, kind) && LiesAt(pkt, off, EntryBytes(e))
    ensures var r, next := ParseRecord(pkt, off, kind == Answer), off + |EntryBytes(e)|;
            && (r.Some? <==> kind == Question || DataBytes(e) != [] || next < |pkt|)
            && (r.Some? ==> r.value == (Placed(e, off), next))
  {
    hide SkipName, NameBytes, LabelSizes, FromBE16, FromBE32, ToInt32, DataBytes, EntryBytes, AnswerBytes, LiesAt;
    FixedLies(pkt, off, e, kind);
    if kind == Answer {
      AnswerLies(pkt, off + |NameBytes(e.name)| + 4, e);
    }
  }

  /** The records a list of entries becomes when it is read at off. */
  function PlacedAll(es: seq<Entry>, off: nat): (rs: seq<Record>)
    ensures |rs| == |es|
    decreases |es|
  {
    if es == [] then [] else [Placed(es[0], off)] + PlacedAll(es[1..], off + |EntryBytes(es[0])|)
  }

  ghost predicate AllFit(es: seq<Entry>, kind: Kind)
  {
    forall i :: 0 <= i < |es| ==> Fits(es[i], kind) && (kind == Answer ==> DataBytes(es[i]) != [])
  }

  lemma {:induction false} RecordsRoundTrip(pkt: seq<byte>, off: nat, es: seq<Entry>, kind: Kind)
    requires kind != Invalid && AllFit(es, kind) && LiesAt(pkt, off, EntriesBytes(es))
    ensures ParseRecords(pkt, off, |es|, kind == Answer) == Some((PlacedAll(es, off), off + |EntriesBytes(es)|))
    decreases |es|
  {
    hide ParseRecord, EntryBytes, Placed, Fits, DataBytes;
    if es != [] {
      var rest := es[1..];
      LiesIn(pkt, off, EntryBytes(es[0]), EntriesBytes(rest));
      RecordRoundTrip(pkt, off, es[0], kind);
      assert AllFit(rest, kind) by {
        assert forall i :: 0 <= i < |rest| ==> rest[i] == es[i + 1];
      }
      RecordsRoundTrip(pkt, off + |EntryBytes(es[0])|, rest, kind);
    }
  }

  function PacketBytes(tid: nat, flags: nat, qs: seq<Entry>, ans: seq<Entry>): seq<byte>
    requires tid < 0x1_0000 && flags < 0x1_0000
  {
    HeaderBytes(tid, flags, |qs|, |ans|) + (EntriesBytes(qs) + EntriesBytes(ans))
  }

  lemma HeaderRead(pkt: seq<byte>, tid: nat, flags: nat, questions: nat, answers: nat)
    requires tid < 0x1_0000 && flags < 0x1_0000 && questions < 0x1_0000 && answers < 0x1_0000
    requires LiesAt(pkt, 0, HeaderBytes(tid, flags, questions, answers))
    ensures FromBE16(pkt[1], pkt[0]) == tid && FromBE16(pkt[2], pkt[3]) == flags
    ensures FromBE16(pkt[4], pkt[5]) == questions && FromBE16(pkt[6], pkt[7]) == answers
  {
    var h := HeaderBytes(tid, flags, questions, answers);
    assert forall k :: 0 <= k < HEADER ==> pkt[k] == pkt[0..12][k];
    assert h[2..4] == BE16(flags) && h[4..6] == BE16(questions) && h[6..8] == BE16(answers);
    assert tid == tid / 0x100 * 0x100 + tid % 0x100;
    assert LiesAt(pkt, 2, h[2..4]) && LiesAt(pkt, 4, h[4..6]) && LiesAt(pkt, 6, h[6..8]);
    hide BE16, FromBE16;
    ReadBE16(pkt, 2, flags);
    ReadBE16(pkt, 4, questions);
    ReadBE16(pkt, 6, answers);
  }

  /** A packet of at most 32 questions and 32 answers with data is parsed into what it was made of. */
  lemma PacketRoundTrip(tid: nat, flags: nat, qs: seq<Entry>, ans: seq<Entry>)
    requires tid < 0x1_0000 && flags < 0x1_0000 && |qs| <= MAX_RECORDS && |ans| <= MAX_RECORDS
    requires AllFit(qs, Question) && AllFit(ans, Answer)
    ensures ParseMessage(PacketBytes(tid, flags, qs, ans))
            == Some(Message(tid, flags, PlacedAll(qs, HEADER), PlacedAll(ans, HEADER + |EntriesBytes(qs)|)))
  {
    hide HeaderBytes, ParseRecords, EntriesBytes, PlacedAll, AllFit, FromBE16;
    var pkt := PacketBytes(tid, flags, qs, ans);
    assert LiesAt(pkt, 0, HeaderBytes(tid, flags, |qs|, |ans|) + (EntriesBytes(qs) + EntriesBytes(ans))) by {
      assert pkt[0..|pkt|] == pkt;
    }
    LiesIn(pkt, 0, HeaderBytes(tid, flags, |qs|, |ans|), EntriesBytes(qs) + EntriesBytes(ans));
    LiesIn(pkt, HEADER, EntriesBytes(qs), EntriesBytes(ans));
    HeaderRead(pkt, tid, flags, |qs|, |ans|);
    RecordsRoundTrip(pkt, HEADER, qs, Question);
    RecordsRoundTrip(pkt, HEADER + |EntriesBytes(qs)|, ans, Answer);
  }

  /** A parsed record is the entry: its name resolves to the text, its fields are the same, its data are the bytes. */
  ghost predicate ReadsAs(pkt: seq<byte>, r: Record, e: Entry, max: nat) {
    && r.name.off < |pkt|
    && ReadsText(pkt, r.name.off, max, e.name)
    && r.rtype == e.rtype && r.rclass == e.rclass && r.kind == e.kind
    && (e.kind == Answer ==>
          r.ttl == e.ttl && r.rdata.len == |DataBytes(e)| && LiesAt(pkt, r.rdata.off, DataBytes(e)))
  }

  lemma PlacedReads(pkt: seq<byte>, off: nat, e: Entry, kind: Kind, max: nat)
    requires kind != Invalid && Fits(e, kind) && LiesAt(pkt, off, EntryBytes(e)) && |e.name| <= max
    ensures ReadsAs(pkt, Placed(e, off), e, max)
  {
    hide NameBytes, LabelSizes, DataBytes, AnswerBytes, EntryBytes, ReadsText;
    FixedLies(pkt, off, e, kind);
    WiderSizes(e.name);
    NameRoundTrip(pkt, off, e.name, max);
    if kind == Answer {
      AnswerLies(pkt, off + |NameBytes(e.name)| + 4, e);
    }
  }

  lemma {:induction false} WiderSizes(name: seq<byte>)
    requires LabelSizes(name, 1, 63)
    ensures LabelSizes(name, 0, 63) && LabelSizes(name, 0, 127)
    decreases |name|
  {
    hide FirstDot;
    if FirstDot(name) < |name| {
      WiderSizes(name[FirstDot(name) + 1..]);
    }
  }

  /** Reading back each record of a list: the i-th lies behind the ones before it. */
  lemma {:induction false} PlacedAllReads(pkt: seq<byte>, off: nat, es: seq<Entry>, kind: Kind, i: nat, max: nat)
    requires kind != Invalid && AllFit(es, kind) && LiesAt(pkt, off, EntriesBytes(es))
    requires i < |es| && |es[i].name| <= max
    ensures ReadsAs(pkt, PlacedAll(es, off)[i], es[i], max)
    decreases |es|
  {
    hide EntryBytes, ReadsAs, Placed, Fits;
    LiesIn(pkt, off, EntryBytes(es[0]), EntriesBytes(es[1..]));
    if i == 0 {
      PlacedReads(pkt, off, es[0], kind, max);
    } else {
      var rest := es[1..];
      assert AllFit(rest, kind) by {
        assert forall j :: 0 <= j < |rest| ==> rest[j] == es[j + 1];
      }
      PlacedAllReads(pkt, off + |EntryBytes(es[0])|, rest, kind, i - 1, max);
    }
  }

  /** Every name of a parsed round-trip packet reads back as the text it was written from. */
  lemma PacketNamesRead(tid: nat, flags: nat, qs: seq<Entry>, ans: seq<Entry>, kind: Kind, i: nat, max: nat)
    requires tid < 0x1_0000 && flags < 0x1_0000 && |qs| <= MAX_RECORDS && |ans| <= MAX_RECORDS
    requires AllFit(qs, Question) && AllFit(ans, Answer)
    requires kind != Invalid && i < if kind == Question then |qs| else |ans|
    requires |(if kind == Question then qs else ans)[i].name| <= max
    ensures var pkt := PacketBytes(tid, flags, qs, ans);
            var e := (if kind == Question then qs else ans)[i];
            && ParseMessage(pkt).Some?
            && var m := ParseMessage(pkt).value;
            && m.tid == tid && m.flags == flags && |m.questions| == |qs| && |m.answers| == |ans|
            && ReadsAs(pkt, (if kind == Question then m.questions else m.answers)[i], e, max)
  {
    hide HeaderBytes, ParseMessage, EntriesBytes, PlacedAll, AllFit, ReadsAs;
    PacketRoundTrip(tid, flags, qs, ans);
    var pkt, head := PacketBytes(tid, flags, qs, ans), HeaderBytes(tid, flags, |qs|, |ans|);
    assert LiesAt(pkt, 0, head + (EntriesBytes(qs) + EntriesBytes(ans))) by {
      assert pkt[0..|pkt|] == pkt;
    }
    LiesIn(pkt, 0, head, EntriesBytes(qs) + EntriesBytes(ans));
    LiesIn(pkt, HEADER, EntriesBytes(qs), EntriesBytes(ans));
    if kind == Question {
      PlacedAllReads(pkt, HEADER, qs, Question, i, max);
    } else {
      PlacedAllReads(pkt, HEADER + |EntriesBytes(qs)|, ans, Answer, i, max);
    }
  }
}
