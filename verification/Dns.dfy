/** Building DNS packets in an I/O buffer, and parsing received ones. */
module Dns {
  import opened Bytes
  import opened IoBuffers
  import opened DnsNames
  import opened DnsCodec

  /** A NUL-terminated string, without its NUL. */
  predicate CString(s: seq<byte>) {
    forall k :: 0 <= k < |s| ==> s[k] != 0
  }

  // ----- writing -----

  method InsertHeader(io: Mbuf, pos: nat, tid: nat, flags: nat, questions: int, answers: int)
    requires io.Valid() && pos <= io.len && tid < 0x1_0000 && flags < 0x1_0000
    modifies io, io.buf
    ensures io.Valid() && (io.buf == old(io.buf) || fresh(io.buf))
    ensures io.Contents()
            == old(io.Contents())[..pos] + HeaderBytes(tid, flags, questions, answers) + old(io.Contents())[pos..]
  {
    io.Insert(pos, [tid % 0x100, tid / 0x100] + BE16(flags) + BE16(questions % 0x1_0000) + BE16(answers % 0x1_0000)
                   + [0, 0, 0, 0]);
  }

  method FindDot(name: seq<byte>, i: nat) returns (s: nat)
    requires i <= |name|
    ensures s == i + FirstDot(name[i..])
  {
    hide FirstDot;
    s := i;
    while s < |name| && name[s] != DOT
      invariant i <= s <= |name|
      invariant i + FirstDot(name[i..]) == s + FirstDot(name[s..])
    {
      NotADot(name[s..]);
      SplitAt(name, s);
      s := s + 1;
    }
    AtDot(name[s..]);
  }

  lemma NotADot(rest: seq<byte>)
    requires rest != [] && rest[0] != DOT
    ensures FirstDot(rest) == 1 + FirstDot(rest[1..])
  {
  }

  lemma AtDot(rest: seq<byte>)
    requires rest == [] || rest[0] == DOT
    ensures FirstDot(rest) == 0
  {
  }

  /** Appends a dotted name as labels; -1 at a label of more than 127 bytes, with the labels before it appended. */
  method EncodeName(io: Mbuf, name: seq<byte>) returns (n: int)
    requires io.Valid() && CString(name)
    modifies io, io.buf
    ensures io.Valid() && (io.buf == old(io.buf) || fresh(io.buf))
    ensures io.Contents() == old(io.Contents()) + NameBytes(name)
    ensures n == if LabelSizes(name, 0, 127) then |NameBytes(name)| else -1
  {
    hide FirstDot, NameBytes, LabelSizes;
    var pos := io.len;
    ghost var was := io.Contents();
    var i := 0;
    assert name[0..] == name;
    while true
      invariant i <= |name| && io.Valid() && (io.buf == old(io.buf) || fresh(io.buf))
      invariant io.Contents() + NameBytes(name[i..]) == was + NameBytes(name)
      invariant LabelSizes(name[i..], 0, 127) <==> LabelSizes(name, 0, 127)
      decreases |name| - i
    {
      ghost var now, rest := io.Contents(), name[i..];
      NameBytesOnce(rest);
      SizesOnce(rest, 0, 127);
      var s := FindDot(name, i);
      if s - i > 127 {
        NothingMore(rest);
        assert now + [] == now;
        return -1;
      }
      io.Append([s - i]);
      io.Append(name[i..s]);
      assert rest[..s - i] == name[i..s];
      if s == |name| {
        Regrouped(now, [s - i], name[i..s], [0]);
        break;
      }
      assert rest[s - i + 1..] == name[s + 1..];
      Regrouped(now, [s - i], name[i..s], NameBytes(name[s + 1..]));
      i := s + 1;
    }
    io.Append([0]);
    return io.len - pos;
  }

  lemma NothingMore(name: seq<byte>)
    requires FirstDot(name) > 127
    ensures NameBytes(name) == [] && !LabelSizes(name, 0, 127)
  {
  }

  lemma Regrouped(a: seq<byte>, b: seq<byte>, c: seq<byte>, d: seq<byte>)
    ensures a + b + c + d == a + (b + (c + d))
  {
  }

  /** What is appended for a record that cannot be written: up to the label that is too long. */
  function Partial(e: Entry): seq<byte>
  {
    if e.kind == Invalid then []
    else if !LabelSizes(e.name, 0, 127) then NameBytes(e.name)
    else NameBytes(e.name) + (FixedBytes(e) + BrokenAnswer(e))
  }

  /** An alias whose name cannot be written: the class stands where its length would. */
  function BrokenAnswer(e: Entry): seq<byte> {
    BE32(e.ttl % 0x1_0000_0000) + BE16(e.rclass % 0x1_0000) + DataBytes(e)
  }

  predicate Writable(e: Entry)
  {
    && e.kind != Invalid && LabelSizes(e.name, 0, 127)
    && (e.kind == Answer && e.rtype == CNAME ==> LabelSizes(e.rdata, 0, 127))
  }

  method EncodeRecord(io: Mbuf, e: Entry) returns (n: int)
    requires io.Valid() && CString(e.name) && (e.kind == Answer && e.rtype == CNAME ==> CString(e.rdata))
    modifies io, io.buf
    ensures io.Valid() && (io.buf == old(io.buf) || fresh(io.buf))
    ensures io.Contents() == old(io.Contents()) + if Writable(e) then EntryBytes(e) else Partial(e)
    ensures n == if Writable(e) then |EntryBytes(e)| else -1
  {
    hide NameBytes, LabelSizes, FixedBytes, AnswerBytes, BrokenAnswer;
    ghost var was := io.Contents();
    var pos := io.len;
    if e.kind == Invalid {
      return -1;
    }
    n := EncodeName(io, e.name);
    if n == -1 {
      return;
    }
    EncodeFixed(io, e);
    if e.kind == Answer {
      var ok := EncodeAnswer(io, e);
      Regrouped(was, NameBytes(e.name), FixedBytes(e), if ok then AnswerBytes(e) else BrokenAnswer(e));
      if !ok {
        return -1;
      }
    } else {
      assert FixedBytes(e) + [] == FixedBytes(e);
      Regrouped(was, NameBytes(e.name), FixedBytes(e), []);
    }
    n := io.len - pos;
  }

  method EncodeFixed(io: Mbuf, e: Entry)
    requires io.Valid()
    modifies io, io.buf
    ensures io.Valid() && (io.buf == old(io.buf) || fresh(io.buf))
    ensures io.Contents() == old(io.Contents()) + FixedBytes(e)
  {
    hide BE16;
    io.Append(BE16(e.rtype % 0x1_0000));
    io.Append(BE16(e.rclass % 0x1_0000));
  }

  method EncodeAnswer(io: Mbuf, e: Entry) returns (ok: bool)
    requires io.Valid() && (e.rtype == CNAME ==> CString(e.rdata))
    modifies io, io.buf
    ensures io.Valid() && (io.buf == old(io.buf) || fresh(io.buf))
    ensures ok <==> (e.rtype == CNAME ==> LabelSizes(e.rdata, 0, 127))
    ensures io.Contents() == old(io.Contents()) + if ok then AnswerBytes(e) else BrokenAnswer(e)
  {
    hide NameBytes, LabelSizes, BE16, BE32;
    ghost var was := io.Contents();
    io.Append(BE32(e.ttl % 0x1_0000_0000));
    if e.rtype == CNAME {
      var n := EncodeAlias(io, e.rdata, e.rclass);
      ok := n != -1;
    } else {
      io.Append(BE16(|e.rdata| % 0x1_0000));
      io.Append(e.rdata);
      ok := true;
    }
  }

  /** The data of an alias, with its length filled in once it is known; the octets it goes to hold the class at first. */
  method EncodeAlias(io: Mbuf, rdata: seq<byte>, rclass: int) returns (n: int)
    requires io.Valid() && CString(rdata)
    modifies io, io.buf
    ensures io.Valid() && (io.buf == old(io.buf) || fresh(io.buf))
    ensures n == -1 <==> !LabelSizes(rdata, 0, 127)
    ensures io.Contents() == old(io.Contents())
            + BE16((if n == -1 then rclass else |NameBytes(rdata)|) % 0x1_0000) + NameBytes(rdata)
  {
    hide NameBytes, LabelSizes, BE16;
    ghost var was := io.Contents();
    var off := io.len;
    io.Append(BE16(rclass % 0x1_0000));
    n := EncodeName(io, rdata);
    if n == -1 {
      return;
    }
    Patch16(io, off, n % 0x1_0000, was, BE16(rclass % 0x1_0000), NameBytes(rdata));
  }

  method Patch16(io: Mbuf, off: nat, u16: nat, ghost a: seq<byte>, ghost b: seq<byte>, ghost c: seq<byte>)
    requires io.Valid() && u16 < 0x1_0000 && |a| == off && |b| == 2 && io.Contents() == a + b + c
    modifies io.buf
    ensures io.Valid() && io.Contents() == a + BE16(u16) + c
  {
    io.buf[off] := u16 / 0x100;
    io.buf[off + 1] := u16 % 0x100;
    assert io.Contents() == a + [u16 / 0x100, u16 % 0x100] + c;
  }

  function QueryPacket(tid: nat, name: seq<byte>, queryType: nat): seq<byte>
    requires tid < 0x1_0000
  {
    PacketBytes(tid, 0x100, [Entry(name, queryType, 1, 0, Question, [])], [])
  }

  /** A query for one name; over TCP it is prefixed with its length. Nothing is sent for a name that cannot be written. */
  method SendQuery(sent: Mbuf, tid: nat, name: seq<byte>, queryType: nat, udp: bool)
    requires sent.Valid() && CString(name) && tid < 0x1_0000
    modifies sent, sent.buf
    ensures sent.Valid()
    ensures var pkt := QueryPacket(tid, name, queryType);
            sent.Contents() == old(sent.Contents())
            + if !LabelSizes(name, 0, 127) then [] else if udp then pkt else BE16(|pkt| % 0x1_0000) + pkt
  {
    hide LabelSizes, QueryPacket, BE16;
    var pkt, ok := BuildQuery(tid, name, queryType);
    if !ok {
      return;
    }
    if !udp {
      pkt.Insert(0, BE16(pkt.len % 0x1_0000));
    }
    ghost var prefix := if udp then [] else BE16(|QueryPacket(tid, name, queryType)| % 0x1_0000);
    assert pkt.Contents() == prefix + QueryPacket(tid, name, queryType);
    sent.Append(pkt.buf[..pkt.len]);
  }

  method BuildQuery(tid: nat, name: seq<byte>, queryType: nat) returns (pkt: Mbuf, ok: bool)
    requires CString(name) && tid < 0x1_0000
    ensures fresh(pkt) && fresh(pkt.buf) && pkt.Valid() && (ok <==> LabelSizes(name, 0, 127))
    ensures ok ==> pkt.Contents() == QueryPacket(tid, name, queryType)
  {
    hide LabelSizes, HeaderBytes, EntryBytes, EntriesBytes, Partial;
    var e := Entry(name, queryType, 1, 0, Question, []);
    pkt := new Mbuf(64);
    InsertHeader(pkt, 0, tid, 0x100, 1, 0);
    assert pkt.Contents() == HeaderBytes(tid, 0x100, 1, 0);
    var n := EncodeRecord(pkt, e);
    ok := n != -1;
    OneEntry(e);
  }

  lemma OneEntry(e: Entry)
    ensures EntriesBytes([e]) + EntriesBytes([]) == EntryBytes(e)
  {
    hide EntryBytes;
  }

  // ----- parsing -----

  /** Parses the record at start into a slot that was empty; next is where the record behind it is. */
  method ParseResourceRecord(pkt: seq<byte>, start: nat, reply: bool) returns (rr: Record, next: Option<nat>)
    ensures rr == Slot(pkt, start, reply)
    ensures ParseRecord(pkt, start, reply) == if next.None? then None else Some((rr, next.value))
  {
    hide SkipName, ToInt32, FromBE16, FromBE32;
    rr, next := NO_RECORD, None;
    var data := start;
    ghost var goal := SkipName(pkt, start);
    while data < |pkt| && pkt[data] != 0
      invariant start <= data && SkipName(pkt, data) == goal
    {
      SkipFrom(pkt, data);
      if pkt[data] >= 64 {
        data := data + 1;
        break;
      }
      data := data + pkt[data] + 1;
    }
    SkipFrom(pkt, data);
    assert data == goal;
    if data > |pkt| - 5 {
      return;
    }
    rr := rr.(name := Slice(start, data - start + 1));
    data := data + 1;
    rr := rr.(rtype := FromBE16(pkt[data], pkt[data + 1]));
    data := data + 2;
    rr := rr.(rclass := FromBE16(pkt[data], pkt[data + 1]));
    data := data + 2;
    rr := rr.(kind := if reply then Answer else Question);
    if reply {
      if data >= |pkt| - 6 {
        return;
      }
      rr := rr.(ttl := ToInt32(FromBE32(pkt[data], pkt[data + 1], pkt[data + 2], pkt[data + 3])));
      data := data + 4;
      var dataLen := FromBE16(pkt[data], pkt[data + 1]);
      data := data + 2;
      rr := rr.(rdata := Slice(data, dataLen));
      data := data + dataLen;
    }
    next := Some(data);
  }

  lemma SkipFrom(pkt: seq<byte>, off: nat)
    ensures off >= |pkt| || pkt[off] == 0 ==> SkipName(pkt, off) == off
    ensures off < |pkt| && pkt[off] >= 64 ==> SkipName(pkt, off) == off + 1
    ensures off < |pkt| && 0 < pkt[off] < 64 ==> SkipName(pkt, off) == SkipName(pkt, off + pkt[off] + 1)
  {
  }

  /** A parsed message: the records stand in tables of fixed size. */
  class DnsMessage {
    var tid: nat
    var flags: nat
    var numQuestions: nat
    var numAnswers: nat
    const questions: array<Record>
    const answers: array<Record>

    ghost predicate Valid()
      reads this
    {
      && questions.Length == answers.Length == MAX_RECORDS && questions != answers
      && numQuestions <= MAX_RECORDS && numAnswers <= MAX_RECORDS
    }

    /** The message as a value. */
    ghost function Value(): Message
      requires Valid()
      reads this, questions, answers
    {
      Message(tid, flags, questions[..numQuestions], answers[..numAnswers])
    }

    constructor ()
      ensures Valid() && fresh(questions) && fresh(answers)
    {
      tid, flags, numQuestions, numAnswers := 0, 0, 0, 0;
      questions := new Record[MAX_RECORDS](_ => NO_RECORD);
      answers := new Record[MAX_RECORDS](_ => NO_RECORD);
    }

    method Parse(pkt: seq<byte>) returns (ok: bool)
      requires Valid()
      modifies this, questions, answers
      ensures Valid() && (ok <==> ParseMessage(pkt).Some?)
      ensures Value() == Left(pkt)
      ensures forall i :: numQuestions <= i < MAX_RECORDS ==> questions[i] == NO_RECORD
      ensures forall i :: numAnswers <= i < MAX_RECORDS ==> answers[i] == NO_RECORD
    {
      hide ParseRecords, Slots, FromBE16;
      tid, flags, numQuestions, numAnswers := 0, 0, 0, 0;
      forall i | 0 <= i < MAX_RECORDS {
        questions[i] := NO_RECORD;
      }
      forall i | 0 <= i < MAX_RECORDS {
        answers[i] := NO_RECORD;
      }
      if |pkt| < HEADER {
        return false;
      }
      tid := FromBE16(pkt[1], pkt[0]);
      flags := FromBE16(pkt[2], pkt[3]);
      numQuestions := Min(FromBE16(pkt[4], pkt[5]), MAX_RECORDS);
      numAnswers := Min(FromBE16(pkt[6], pkt[7]), MAX_RECORDS);
      var data;
      ok, data := FillTable(questions, pkt, HEADER, numQuestions, false);
      if ok {
        ok, data := FillTable(answers, pkt, data, numAnswers, true);
      }
    }
  }

  /** Parses n records into the first n slots of a table, up to the first that cannot be parsed. */
  method FillTable(table: array<Record>, pkt: seq<byte>, start: nat, n: nat, reply: bool) returns (ok: bool, data: nat)
    requires n <= table.Length && forall k :: 0 <= k < n ==> table[k] == NO_RECORD
    modifies table
    ensures ok <==> ParseRecords(pkt, start, n, reply).Some?
    ensures ok ==> ParseRecords(pkt, start, n, reply) == Some((table[..n], data))
    ensures table[..n] == Slots(pkt, start, n, reply)
    ensures table[n..] == old(table[n..])
  {
    hide ParseRecords, ParseRecord, Slot, Slots, NoRecords;
    data := start;
    var i := 0;
    NothingParsed(pkt, start, reply);
    NoSlots([], Slots(pkt, start, n, reply));
    while i < n
      invariant i <= n && table[n..] == old(table[n..])
      invariant forall k :: i <= k < n ==> table[k] == NO_RECORD
      invariant ParseRecords(pkt, start, i, reply) == Some((table[..i], data))
      invariant Slots(pkt, start, n, reply) == table[..i] + Slots(pkt, data, n - i, reply)
    {
      ParseSnoc(pkt, start, i, reply);
      ghost var before := table[..i];
      NextSlot(before, pkt, data, n - i, reply);
      var rr, next := ParseResourceRecord(pkt, data, reply);
      table[i] := rr;
      assert table[..i + 1] == before + [rr];
      if next.None? {
        StaysUnparsed(pkt, start, i + 1, n, reply);
        RestEmpty(table[..], i + 1, n);
        return false, data;
      }
      data := next.value;
      i := i + 1;
    }
    NoSlots(table[..n], Slots(pkt, data, 0, reply));
    return true, data;
  }

  lemma RestEmpty(t: seq<Record>, i: nat, n: nat)
    requires i <= n <= |t| && forall k :: i <= k < n ==> t[k] == NO_RECORD
    ensures t[..n] == t[..i] + NoRecords(n - i)
  {
    assert t[i..n] == NoRecords(n - i);
    assert t[..n] == t[..i] + t[i..n];
  }

  lemma NoSlots(a: seq<Record>, b: seq<Record>)
    ensures a == [] ==> a + b == b
    ensures b == [] ==> a + b == a
  {
  }

  lemma NextSlot(before: seq<Record>, pkt: seq<byte>, data: nat, n: nat, reply: bool)
    requires n > 0
    ensures var first := ParseRecord(pkt, data, reply);
            before + Slots(pkt, data, n, reply)
            == (before + [Slot(pkt, data, reply)])
               + if first.None? then NoRecords(n - 1) else Slots(pkt, first.value.1, n - 1, reply)
  {
    hide ParseRecord, Slot, NoRecords;
  }

  lemma NothingParsed(pkt: seq<byte>, start: nat, reply: bool)
    ensures ParseRecords(pkt, start, 0, reply) == Some(([], start))
  {
  }

  lemma {:induction false} StaysUnparsed(pkt: seq<byte>, start: nat, i: nat, n: nat, reply: bool)
    requires i <= n && ParseRecords(pkt, start, i, reply).None?
    ensures ParseRecords(pkt, start, n, reply).None?
    decreases n - i
  {
    hide ParseRecords, ParseRecord;
    if i < n {
      ParseSnoc(pkt, start, i, reply);
      StaysUnparsed(pkt, start, i + 1, n, reply);
    }
  }
}
