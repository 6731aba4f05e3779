/**
 CoAP messages (RFC 7252, section 3): the option list, the bytes of a message, and the
 reading of them, as composed and parsed by the library.
 */
module CoapCodec {
  import opened Bytes

  datatype Opt = Opt(number: nat, value: seq<byte>)

  // ----- the option list -----

  predicate Ordered(s: seq<Opt>)
  {
    forall i, j :: 0 <= i < j < |s| ==> s[i].number <= s[j].number
  }

  /** Before the first option with a larger number. */
  function InsertBefore(s: seq<Opt>, o: Opt): seq<Opt>
  {
    if s == [] || s[0].number > o.number then [o] + s else [s[0]] + InsertBefore(s[1..], o)
  }

  /** At the end if the last option's number allows it, else before the first option with a larger number. */
  function Insert(s: seq<Opt>, o: Opt): seq<Opt>
  {
    if s == [] || s[|s| - 1].number <= o.number then s + [o] else InsertBefore(s, o)
  }

  function InsertAll(added: seq<Opt>): seq<Opt>
  {
    if added == [] then [] else Insert(InsertAll(added[..|added| - 1]), added[|added| - 1])
  }

  /** The options with one number, in list order. */
  function WithNumber(s: seq<Opt>, n: nat): seq<Opt>
  {
    if s == [] then [] else (if s[0].number == n then [s[0]] else []) + WithNumber(s[1..], n)
  }

  lemma {:induction false} WithNumberAppend(a: seq<Opt>, b: seq<Opt>, n: nat)
    ensures WithNumber(a + b, n) == WithNumber(a, n) + WithNumber(b, n)
  {
    if a == [] {
      assert a + b == b;
    } else {
      assert (a + b)[1..] == a[1..] + b && (a + b)[0] == a[0];
      WithNumberAppend(a[1..], b, n);
      var first := if a[0].number == n then [a[0]] else [];
      assert first + (WithNumber(a[1..], n) + WithNumber(b, n)) == (first + WithNumber(a[1..], n)) + WithNumber(b, n);
    }
  }

  lemma {:induction false} WithNumberNone(s: seq<Opt>, n: nat)
    requires forall i :: 0 <= i < |s| ==> s[i].number != n
    ensures WithNumber(s, n) == []
  {
    if s != [] {
      WithNumberNone(s[1..], n);
    }
  }

  /** Where a new option goes: behind every option whose number is not larger, up to the first larger one. */
  function Place(s: seq<Opt>, n: nat): (k: nat)
    ensures k <= |s| && (k < |s| ==> s[k].number > n)
  {
    if s == [] || s[0].number > n then 0 else 1 + Place(s[1..], n)
  }

  lemma {:induction false} PlaceSplits(s: seq<Opt>, o: Opt)
    ensures var k := Place(s, o.number);
            InsertBefore(s, o) == s[..k] + [o] + s[k..] && forall i :: 0 <= i < k ==> s[i].number <= o.number
  {
    var k := Place(s, o.number);
    if k == 0 {
      assert s[..0] + [o] + s[0..] == [o] + s;
    } else {
      PlaceSplits(s[1..], o);
      assert s[..k] == [s[0]] + s[1..][..k - 1] && s[k..] == s[1..][k - 1..];
      forall i | 0 <= i < k
        ensures s[i].number <= o.number
      {
        if i > 0 {
          assert s[i] == s[1..][i - 1];
        }
      }
    }
  }

  /** On an ordered list both ways of inserting agree. */
  lemma InsertSplits(s: seq<Opt>, o: Opt) returns (k: nat)
    requires Ordered(s)
    ensures k <= |s| && Insert(s, o) == s[..k] + [o] + s[k..]
    ensures forall i :: 0 <= i < k ==> s[i].number <= o.number
    ensures forall i :: k <= i < |s| ==> s[i].number > o.number
  {
    if s == [] || s[|s| - 1].number <= o.number {
      k := |s|;
      assert s[..k] + [o] + s[k..] == s + [o];
    } else {
      k := Place(s, o.number);
      PlaceSplits(s, o);
    }
  }

  /** Adding keeps the list ordered, loses and repeats nothing, and keeps equal numbers in the order they came. */
  lemma InsertKeeps(s: seq<Opt>, o: Opt, n: nat)
    requires Ordered(s)
    ensures var r := Insert(s, o);
            Ordered(r) && multiset(r) == multiset(s) + multiset{o} && WithNumber(r, n) == WithNumber(s + [o], n)
  {
    hide InsertBefore, WithNumber, Insert;
    var k := InsertSplits(s, o);
    assert s == s[..k] + s[k..];
    SpliceKeepsOrder(s, o, k);
    SpliceIsStable(s[..k], s[k..], o, n);
    assert multiset(s) == multiset(s[..k]) + multiset(s[k..]);
  }

  lemma SpliceKeepsOrder(s: seq<Opt>, o: Opt, k: nat)
    requires Ordered(s) && k <= |s|
    requires forall i :: 0 <= i < k ==> s[i].number <= o.number
    requires forall i :: k <= i < |s| ==> s[i].number > o.number
    ensures Ordered(s[..k] + [o] + s[k..])
  {
  }

  lemma SpliceIsStable(a: seq<Opt>, b: seq<Opt>, o: Opt, n: nat)
    requires forall i :: 0 <= i < |b| ==> b[i].number > o.number
    ensures WithNumber(a + [o] + b, n) == WithNumber(a + b + [o], n)
  {
    hide WithNumber;
    WithNumberAppend(a + [o], b, n);
    WithNumberAppend(a, [o], n);
    WithNumberAppend(a + b, [o], n);
    WithNumberAppend(a, b, n);
    if o.number == n {
      WithNumberNone(b, n);
    } else {
      WithNumberNone([o], n);
    }
  }

  /** After any sequence of additions the list is their stable sort by number. */
  lemma {:induction false} InsertAllIsStableSort(added: seq<Opt>, n: nat)
    ensures var r := InsertAll(added);
            Ordered(r) && multiset(r) == multiset(added) && WithNumber(r, n) == WithNumber(added, n)
    decreases |added|
  {
    if added != [] {
      var k := |added| - 1;
      var front, o := added[..k], added[k];
      assert added == front + [o];
      InsertAllIsStableSort(front, n);
      InsertKeeps(InsertAll(front), o, n);
      WithNumberAppend(front, [o], n);
      WithNumberAppend(InsertAll(front), [o], n);
    }
  }

  /** Order, content and stability leave one list only. */
  lemma {:induction false} StableSortUnique(a: seq<Opt>, b: seq<Opt>)
    requires Ordered(a) && Ordered(b) && |a| == |b|
    requires forall n: nat :: WithNumber(a, n) == WithNumber(b, n)
    ensures a == b
  {
    if a != [] {
      SameFirst(a, b);
      forall m: nat
        ensures WithNumber(a[1..], m) == WithNumber(b[1..], m)
      {
        assert WithNumber(a, m) == WithNumber(b, m);
        WithNumberTail(a, m);
        WithNumberTail(b, m);
      }
      StableSortUnique(a[1..], b[1..]);
    }
  }

  lemma WithNumberTail(s: seq<Opt>, n: nat)
    requires s != []
    ensures s[0].number == n ==> WithNumber(s, n) != []
    ensures WithNumber(s[1..], n) == if s[0].number == n then WithNumber(s, n)[1..] else WithNumber(s, n)
  {
    assert [] + WithNumber(s[1..], n) == WithNumber(s[1..], n);
  }

  lemma SameFirst(a: seq<Opt>, b: seq<Opt>)
    requires Ordered(a) && Ordered(b) && a != [] && b != []
    requires forall n: nat :: WithNumber(a, n) == WithNumber(b, n)
    ensures a[0] == b[0]
  {
    hide WithNumber;
    FirstWithNumber(a);
    FirstWithNumber(b);
    var m, n := a[0].number, b[0].number;
    assert WithNumber(a, m) == WithNumber(b, m) && WithNumber(a, n) == WithNumber(b, n);
    if m < n {
      WithNumberNone(b, m);
    } else if n < m {
      WithNumberNone(a, n);
    }
  }

  lemma FirstWithNumber(s: seq<Opt>)
    requires s != []
    ensures WithNumber(s, s[0].number) != [] && WithNumber(s, s[0].number)[0] == s[0]
  {
  }

  // ----- composing -----

  datatype Message = Message(msgType: nat, codeClass: nat, codeDetail: nat, msgId: nat,
                             token: seq<byte>, options: seq<Opt>, payload: seq<byte>)

  const EXT1_MAX := 0xff + 13
  const EXT2_MAX := 0xffff + 269

  /** Size of the extended form of an option delta or length. */
  function ExtSize(v: nat): nat
  {
    if 13 <= v <= EXT1_MAX then 1 else if EXT1_MAX < v <= EXT2_MAX then 2 else 0
  }

  /** The four-bit form. */
  function Nibble(v: nat): (n: nat)
    ensures n < 15
  {
    if v < 13 then v else if v <= EXT1_MAX then 13 else if v <= EXT2_MAX then 14 else 0
  }

  function ExtBytes(v: nat): (r: seq<byte>)
    ensures |r| == ExtSize(v)
  {
    if 13 <= v <= EXT1_MAX then [v - 13] else if EXT1_MAX < v <= EXT2_MAX then BE16(v - 269) else []
  }

  /** Option numbers do not fall, and deltas and lengths fit their extended forms. */
  predicate OptionsOk(opts: seq<Opt>, prev: nat)
  {
    opts != [] ==>
      && prev <= opts[0].number && opts[0].number - prev <= EXT2_MAX && |opts[0].value| <= EXT2_MAX
      && OptionsOk(opts[1..], opts[0].number)
  }

  datatype Refusal = BadType | BadToken | BadClass | BadDetail | BadOptions

  /** What the composer refuses, in the order it checks. */
  function Refused(m: Message): Option<Refusal>
  {
    if m.msgType > 3 then Some(BadType)
    else if |m.token| > 8 then Some(BadToken)
    else if m.codeClass > 7 then Some(BadClass)
    else if m.codeDetail > 31 then Some(BadDetail)
    else if !OptionsOk(m.options, 0) then Some(BadOptions)
    else None
  }

  predicate Composable(m: Message)
  {
    Refused(m).None? && m.msgId < 0x1_0000
  }

  function OptionsSize(opts: seq<Opt>, prev: nat): nat
    requires OptionsOk(opts, prev)
  {
    if opts == [] then 0
    else 1 + ExtSize(opts[0].number - prev) + ExtSize(|opts[0].value|) + |opts[0].value|
         + OptionsSize(opts[1..], opts[0].number)
  }

  function PacketSize(m: Message): nat
    requires OptionsOk(m.options, 0)
  {
    4 + |m.token| + (if m.payload != [] then |m.payload| + 1 else 0) + OptionsSize(m.options, 0)
  }

  function OptionBytes(o: Opt, prev: nat): (r: seq<byte>)
    requires prev <= o.number
  {
    [Nibble(o.number - prev) * 16 + Nibble(|o.value|)] + ExtBytes(o.number - prev) + ExtBytes(|o.value|) + o.value
  }

  function OptionsBytes(opts: seq<Opt>, prev: nat): (r: seq<byte>)
    requires OptionsOk(opts, prev)
    ensures |r| == OptionsSize(opts, prev)
  {
    if opts == [] then [] else OptionBytes(opts[0], prev) + OptionsBytes(opts[1..], opts[0].number)
  }

  function HeaderBytes(m: Message): (r: seq<byte>)
    requires Composable(m)
    ensures |r| == 4
  {
    [64 + m.msgType * 16 + |m.token|, m.codeClass * 32 + m.codeDetail] + BE16(m.msgId)
  }

  function PayloadBytes(m: Message): seq<byte>
  {
    if m.payload != [] then [0xff] + m.payload else []
  }

  /** The size computed before composing is the number of bytes written. */
  function ComposeBytes(m: Message): (r: seq<byte>)
    requires Composable(m)
    ensures |r| == PacketSize(m)
  {
    HeaderBytes(m) + m.token + OptionsBytes(m.options, 0) + PayloadBytes(m)
  }

  // ----- parsing -----

  datatype Error = FormatError | Ignore | NotEnoughData

  datatype Field = TypeField | ClassField | DetailField | IdField | TokenField | OptionsField | PayloadField

  datatype Parsed = Parsed(error: Option<Error>, fields: set<Field>, message: Message)

  /** An option delta or length after its nibble: the value, in a 16-bit word, and the bytes it took. */
  function ReadExt(s: seq<byte>, nibble: nat): Option<(nat, nat)>
    requires nibble < 16
  {
    if nibble == 13 then
      if |s| > 0 then var v: nat := s[0]; Some((v + 13, 1)) else None
    else if nibble == 14 then
      if |s| > 1 then Some(((FromBE16(s[0], s[1]) + 269) % 0x1_0000, 2)) else None
    else Some((nibble, 0))
  }

  datatype OptionsRead = Failed(error: Error) | Done(options: seq<Opt>, rest: seq<byte>)

  /** One option and the bytes after it. */
  datatype OptionRead = OptionFailed(error: Error) | OptionDone(option: Opt, rest: seq<byte>)

  function ReadOption(s: seq<byte>, prev: nat): (r: OptionRead)
    requires s != []
    ensures r.OptionDone? ==> |r.rest| < |s| && r.option.number < 0x1_0000 && |r.option.value| < 0x1_0000
  {
    var d, l := s[0] / 16, s[0] % 16;
    if d == 15 || l == 15 then OptionFailed(FormatError)
    else match ReadExt(s[1..], d)
      case None => OptionFailed(NotEnoughData)
      case Some((delta, n1)) =>
        match ReadExt(s[1 + n1..], l)
        case None => OptionFailed(NotEnoughData)
        case Some((len, n2)) =>
          var at := 1 + n1 + n2;
          if at + len > |s| then OptionFailed(NotEnoughData)
          else OptionDone(Opt((delta + prev) % 0x1_0000, s[at..at + len]), s[at + len..])
  }

  function ReadOptions(s: seq<byte>, prev: nat, acc: seq<Opt>): (r: OptionsRead)
    ensures r.Done? ==> |r.rest| <= |s| && (r.rest == [] || r.rest[0] == 0xff)
    decreases |s|
  {
    if s == [] || s[0] == 0xff then Done(acc, s)
    else match ReadOption(s, prev)
      case OptionFailed(e) => Failed(e)
      case OptionDone(o, rest) => ReadOptions(rest, o.number, Insert(acc, o))
  }

  const NoMessage := Message(0, 0, 0, 0, [], [], [])

  function Parse(b: seq<byte>): Parsed
  {
    if |b| < 4 then Parsed(Some(NotEnoughData), {}, NoMessage)
    else if b[0] / 64 != 1 then Parsed(Some(Ignore), {}, NoMessage)
    else
      var m1 := NoMessage.(msgType := b[0] / 16 % 4);
      var tokenLen := b[0] % 16;
      if tokenLen > 8 then Parsed(Some(FormatError), {TypeField}, m1)
      else
        var m2 := m1.(codeClass := b[1] / 32, codeDetail := b[1] % 32, msgId := FromBE16(b[2], b[3]));
        ParseBody(b[4..], tokenLen, Parsed(None, {TypeField, ClassField, DetailField, IdField}, m2))
  }

  function ParseBody(s: seq<byte>, tokenLen: nat, p: Parsed): Parsed
  {
    if tokenLen > |s| then p.(error := Some(NotEnoughData))
    else if tokenLen == 0 then ParseRest(s, p)
    else
      ParseRest(s[tokenLen..], p.(fields := p.fields + {TokenField}, message := p.message.(token := s[..tokenLen])))
  }

  /** Options, and then the payload behind its marker. */
  function ParseRest(s: seq<byte>, p: Parsed): Parsed
  {
    if s == [] then p
    else match ReadOptions(s, 0, [])
      case Failed(e) => p.(error := Some(e))
      case Done(opts, rest) =>
        WithPayload(if rest == [] then [] else rest[1..],
                    p.(fields := p.fields + {OptionsField}, message := p.message.(options := opts)))
  }

  function WithPayload(payload: seq<byte>, p: Parsed): Parsed
  {
    if payload == [] then p
    else p.(fields := p.fields + {PayloadField}, message := p.message.(payload := payload))
  }

  // ----- the round trip -----

  /** A value survives its encoding if and only if it fits sixteen bits. */
  lemma ExtRoundTrip(v: nat, more: seq<byte>)
    requires v <= EXT2_MAX
    ensures ReadExt(ExtBytes(v) + more, Nibble(v)) == Some((v % 0x1_0000, ExtSize(v)))
    ensures v % 0x1_0000 == v <==> v < 0x1_0000
  {
    var s := ExtBytes(v) + more;
    if EXT1_MAX < v {
      assert s[0] == BE16(v - 269)[0] && s[1] == BE16(v - 269)[1];
    }
  }

  lemma OptionRoundTrip(o: Opt, prev: nat, more: seq<byte>)
    requires prev <= o.number < 0x1_0000 && |o.value| < 0x1_0000
    ensures var s := OptionBytes(o, prev) + more;
            s[0] != 0xff && ReadOption(s, prev) == OptionDone(o, more)
  {
    hide ExtBytes, ExtSize, Nibble, ReadExt, OptionBytes, ReadOption;
    var d, l := o.number - prev, |o.value|;
    var s := OptionBytes(o, prev) + more;
    OptionShape(o, prev, more);
    Nibbles(Nibble(d), Nibble(l));
    ExtRoundTrip(d, ExtBytes(l) + (o.value + more));
    ExtRoundTrip(l, o.value + more);
    ReadAs(s, prev, d, ExtSize(d), l, ExtSize(l));
    assert (d + prev) % 0x1_0000 == o.number;
  }

  lemma Nibbles(x: nat, y: nat)
    requires x < 16 && y < 16
    ensures (x * 16 + y) / 16 == x && (x * 16 + y) % 16 == y
  {
  }

  /** Reading an option, step by step. */
  lemma ReadAs(s: seq<byte>, prev: nat, delta: nat, n1: nat, len: nat, n2: nat)
    requires s != [] && s[0] / 16 != 15 && s[0] % 16 != 15
    requires 1 + n1 + n2 + len <= |s|
    requires ReadExt(s[1..], s[0] / 16) == Some((delta, n1))
    requires ReadExt(s[1 + n1..], s[0] % 16) == Some((len, n2))
    ensures ReadOption(s, prev)
            == OptionDone(Opt((delta + prev) % 0x1_0000, s[1 + n1 + n2..1 + n1 + n2 + len]), s[1 + n1 + n2 + len..])
  {
    hide ReadExt;
  }

  lemma OptionShape(o: Opt, prev: nat, more: seq<byte>)
    requires prev <= o.number
    ensures var d, l, s := o.number - prev, |o.value|, OptionBytes(o, prev) + more;
            && |s| == 1 + ExtSize(d) + ExtSize(l) + |o.value| + |more|
            && s[0] == Nibble(d) * 16 + Nibble(l)
            && s[1..] == ExtBytes(d) + (ExtBytes(l) + (o.value + more))
            && s[1 + ExtSize(d)..] == ExtBytes(l) + (o.value + more)
            && s[1 + ExtSize(d) + ExtSize(l)..] == o.value + more
            && s[1 + ExtSize(d) + ExtSize(l)..1 + ExtSize(d) + ExtSize(l) + l] == o.value
            && s[1 + ExtSize(d) + ExtSize(l) + l..] == more
  {
    hide ExtSize, ExtBytes, Nibble;
    var d, l := o.number - prev, |o.value|;
    var first := [Nibble(d) * 16 + Nibble(l)];
    Tails(first, ExtBytes(d), ExtBytes(l), o.value, more);
    assert OptionBytes(o, prev) == first + ExtBytes(d) + ExtBytes(l) + o.value;
  }

  lemma Tails(a: seq<byte>, b: seq<byte>, c: seq<byte>, d: seq<byte>, e: seq<byte>)
    ensures var s := a + b + c + d + e;
            && s[|a|..] == b + (c + (d + e)) && s[|a| + |b|..] == c + (d + e)
            && s[|a| + |b| + |c|..] == d + e && s[|a| + |b| + |c|..|a| + |b| + |c| + |d|] == d
            && s[|a| + |b| + |c| + |d|..] == e
  {
  }

  /** No option number in acc exceeds n. */
  predicate UpTo(acc: seq<Opt>, n: nat)
  {
    forall i :: 0 <= i < |acc| ==> acc[i].number <= n
  }

  predicate Small(opts: seq<Opt>)
  {
    forall i :: 0 <= i < |opts| ==> opts[i].number < 0x1_0000 && |opts[i].value| < 0x1_0000
  }

  lemma {:induction false} OptionsRoundTrip(opts: seq<Opt>, prev: nat, acc: seq<Opt>, tail: seq<byte>)
    requires OptionsOk(opts, prev) && Small(opts) && UpTo(acc, prev)
    requires tail == [] || tail[0] == 0xff
    ensures ReadOptions(OptionsBytes(opts, prev) + tail, prev, acc) == Done(acc + opts, tail)
    decreases |opts|
  {
    hide OptionsBytes, ReadOptions, OptionBytes, Insert, OptionsOk, Small, UpTo;
    if opts == [] {
      NoOptions(prev, acc, tail);
    } else {
      var o, rest := opts[0], opts[1..];
      FirstOptionOk(opts, prev, acc);
      var more := OptionsBytes(rest, o.number) + tail;
      FirstOptionBytes(opts, prev, tail);
      OptionRoundTrip(o, prev, more);
      AppendLast(acc, o);
      ReadOneMore(OptionBytes(o, prev) + more, prev, acc, o, more);
      OptionsRoundTrip(rest, o.number, acc + [o], tail);
      assert (acc + [o]) + rest == acc + opts;
    }
  }

  lemma NoOptions(prev: nat, acc: seq<Opt>, tail: seq<byte>)
    requires tail == [] || tail[0] == 0xff
    ensures ReadOptions(OptionsBytes([], prev) + tail, prev, acc) == Done(acc + [], tail)
  {
    assert OptionsBytes([], prev) + tail == tail && acc + [] == acc;
  }

  lemma FirstOptionOk(opts: seq<Opt>, prev: nat, acc: seq<Opt>)
    requires opts != [] && OptionsOk(opts, prev) && Small(opts) && UpTo(acc, prev)
    ensures var o := opts[0];
            && prev <= o.number < 0x1_0000 && o.number - prev <= EXT2_MAX && |o.value| < 0x1_0000 && |o.value| <= EXT2_MAX
            && OptionsOk(opts[1..], o.number) && Small(opts[1..]) && UpTo(acc, o.number)
  {
  }

  lemma FirstOptionBytes(opts: seq<Opt>, prev: nat, tail: seq<byte>)
    requires opts != [] && OptionsOk(opts, prev)
    ensures OptionsBytes(opts, prev) + tail
            == OptionBytes(opts[0], prev) + (OptionsBytes(opts[1..], opts[0].number) + tail)
  {
    hide OptionBytes;
  }

  lemma AppendLast(acc: seq<Opt>, o: Opt)
    requires UpTo(acc, o.number)
    ensures Insert(acc, o) == acc + [o] && UpTo(acc + [o], o.number)
  {
  }

  lemma ReadOnce(s: seq<byte>, prev: nat, acc: seq<Opt>)
    ensures ReadOptions(s, prev, acc)
            == if s == [] || s[0] == 0xff then Done(acc, s)
               else
                 var r := ReadOption(s, prev);
                 if r.OptionFailed? then Failed(r.error) else ReadOptions(r.rest, r.option.number, Insert(acc, r.option))
  {
    hide ReadOption, Insert;
  }

  lemma ReadOneMore(s: seq<byte>, prev: nat, acc: seq<Opt>, o: Opt, more: seq<byte>)
    requires s != [] && s[0] != 0xff && ReadOption(s, prev) == OptionDone(o, more)
    ensures ReadOptions(s, prev, acc) == ReadOptions(more, o.number, Insert(acc, o))
  {
    hide ReadOption, Insert;
  }

  lemma {:induction false} InsertBeforeSmall(s: seq<Opt>, o: Opt)
    requires Small(s) && Small([o])
    ensures Small(InsertBefore(s, o))
  {
    PlaceSplits(s, o);
    var k := Place(s, o.number);
    assert [o][0] == o;
  }

  /** Whatever is read has sixteen-bit numbers and lengths. */
  lemma {:induction false} ReadSmall(s: seq<byte>, prev: nat, acc: seq<Opt>)
    requires Small(acc)
    ensures ReadOptions(s, prev, acc).Done? ==> Small(ReadOptions(s, prev, acc).options)
    decreases |s|
  {
    hide ReadOption, InsertBefore;
    if s != [] && s[0] != 0xff && ReadOption(s, prev).OptionDone? {
      var o := ReadOption(s, prev).option;
      InsertBeforeSmall(acc, o);
      ReadSmall(ReadOption(s, prev).rest, o.number, Insert(acc, o));
    }
  }

  /** What parsing should give back: the message, and a flag for each part that is there. */
  function Restored(m: Message): Parsed
  {
    Parsed(None,
           {TypeField, ClassField, DetailField, IdField}
           + (if m.token != [] then {TokenField} else {})
           + (if m.options != [] || m.payload != [] then {OptionsField} else {})
           + (if m.payload != [] then {PayloadField} else {}), m)
  }

  lemma HeaderRoundTrip(m: Message, more: seq<byte>)
    requires Composable(m)
    ensures var b := HeaderBytes(m) + more;
            Parse(b) == ParseBody(more, |m.token|,
                                  Parsed(None, {TypeField, ClassField, DetailField, IdField},
                                         m.(token := [], options := [], payload := [])))
  {
    hide ParseBody;
    var b := HeaderBytes(m) + more;
    var id := BE16(m.msgId);
    assert b[0] == 64 + m.msgType * 16 + |m.token| && b[1] == m.codeClass * 32 + m.codeDetail;
    assert b[2] == id[0] && b[3] == id[1];
    assert b[4..] == more;
  }

  lemma BodyRoundTrip(m: Message, p: Parsed)
    requires Composable(m) && Small(m.options)
    requires p == Parsed(None, {TypeField, ClassField, DetailField, IdField},
                         m.(token := [], options := [], payload := []))
    ensures ParseBody(m.token + (OptionsBytes(m.options, 0) + PayloadBytes(m)), |m.token|, p) == Restored(m)
  {
    hide ReadOptions, OptionsBytes, PayloadBytes;
    var tail := OptionsBytes(m.options, 0) + PayloadBytes(m);
    ConcatParts(m.token, tail);
    PayloadShape(m);
    OptionsRoundTrip(m.options, 0, [], PayloadBytes(m));
    assert [] + m.options == m.options;
  }

  lemma PayloadShape(m: Message)
    requires Composable(m)
    ensures var p := PayloadBytes(m);
            && (p == [] || p[0] == 0xff) && (|p| <= 1 <==> m.payload == []) && (p != [] ==> p[1..] == m.payload)
            && |OptionsBytes(m.options, 0) + p| == PacketSize(m) - 4 - |m.token|
            && (OptionsBytes(m.options, 0) + p == [] <==> m.options == [] && m.payload == [])
  {
    if m.options != [] {
      assert |OptionsBytes(m.options, 0)| > 0;
    }
  }

  /**
   Round trip: parsing what was composed restores the whole message with no error if and
   only if every option number and every value length fits sixteen bits.
   (The composer also accepts numbers and lengths up to 65535 + 269, or more for numbers
   reached in several steps.)
   */
  lemma RoundTrip(m: Message)
    requires Composable(m)
    ensures Parse(ComposeBytes(m)) == Restored(m) <==> Small(m.options)
  {
    var tail := OptionsBytes(m.options, 0) + PayloadBytes(m);
    var p := Parsed(None, {TypeField, ClassField, DetailField, IdField}, m.(token := [], options := [], payload := []));
    assert ComposeBytes(m) == HeaderBytes(m) + (m.token + tail);
    HeaderRoundTrip(m, m.token + tail);
    hide Parse, ComposeBytes, HeaderBytes, OptionsBytes, PayloadBytes, ParseBody;
    if Small(m.options) {
      BodyRoundTrip(m, p);
    }
    ParsedSmall(m.token + tail, |m.token|, p);
  }

  /** Every option of a parsed message is small. */
  lemma ParsedSmall(s: seq<byte>, tokenLen: nat, p: Parsed)
    requires p.message.options == []
    ensures Small(ParseBody(s, tokenLen, p).message.options)
  {
    hide ReadOptions;
    if tokenLen <= |s| {
      ReadSmall(s[tokenLen..], 0, []);
      assert s[0..] == s;
    }
  }
}
