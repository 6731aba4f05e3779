/**
 CoAP messages in memory: the linked option list, composing into an I/O buffer, and
 parsing out of one.
 */
module Coap {
  import opened Bytes
  import opened IoBuffers
  import opened CoapCodec

  class OptionNode {
    var number: nat
    var value: seq<byte>
    var next: OptionNode?

    constructor (number: nat, value: seq<byte>)
      ensures this.number == number && this.value == value && next == null
    {
      this.number, this.value, next := number, value, null;
    }
  }

  class CoapMessage {
    var error: Option<Error>
    var fields: set<Field>
    var msgType: nat
    var codeClass: nat
    var codeDetail: nat
    var msgId: nat
    var token: seq<byte>
    var payload: seq<byte>
    var options: OptionNode?
    var tail: OptionNode?
    ghost var nodes: seq<OptionNode>  // the list from options on

    /** The list is acyclic, ends at null, and its tail pointer is on its last node. */
    ghost predicate Valid()
      reads this, nodes
    {
      && (nodes == [] ==> options == null)
      && (nodes != [] ==> options == nodes[0] && tail == nodes[|nodes| - 1])
      && Linked(nodes)
    }

    ghost function Opts(): (s: seq<Opt>)
      reads this, nodes
      ensures |s| == |nodes|
    {
      OptsOf(nodes)
    }

    ghost function Msg(): Message
      reads this, nodes
    {
      Message(msgType, codeClass, codeDetail, msgId, token, Opts(), payload)
    }

    constructor ()
      ensures Valid() && nodes == [] && Msg() == NoMessage && error == None && fields == {}
    {
      error, fields := None, {};
      msgType, codeClass, codeDetail, msgId, token, payload := 0, 0, 0, 0, [], [];
      options, tail, nodes := null, null, [];
    }

    method FreeOptions()
      modifies this`options, this`nodes
      ensures Valid() && nodes == []
    {
      options := null;
      nodes := [];
    }

    /** Adds an option: the list becomes the stable insertion of it. */
    method AddOption(number: nat, value: seq<byte>) returns (o: OptionNode)
      requires Valid()
      modifies this`options, this`tail, this`nodes, nodes
      ensures Valid() && fresh(o) && o in nodes
      ensures forall n :: n in nodes ==> n in old(nodes) || n == o
      ensures Opts() == Insert(old(Opts()), Opt(number, value))
    {
      hide OptsOf, Insert, InsertBefore, Linked;
      o := new OptionNode(number, value);
      if options == null {
        AddFirst(o);
      } else if tail.number <= number {
        AddLast(o);
      } else {
        ghost var k;
        var prev, current;
        prev, current, k := FindPlace(number);
        InsertAt(Opts(), Opt(number, value), k);
        AddBetween(prev, current, o, k);
      }
    }

    method AddFirst(o: OptionNode)
      requires Valid() && options == null && o.next == null
      modifies this`options, this`tail, this`nodes
      ensures Valid() && nodes == [o]
      ensures Opts() == Insert(old(Opts()), Opt(o.number, o.value))
    {
      options, tail, nodes := o, o, [o];
      assert Opts() == [Opt(o.number, o.value)];
    }

    method AddLast(o: OptionNode)
      requires Valid() && nodes != [] && o !in nodes && o.next == null && tail.number <= o.number
      modifies this`tail, this`nodes, tail`next
      ensures Valid() && nodes == old(nodes) + [o]
      ensures Opts() == Insert(old(Opts()), Opt(o.number, o.value))
    {
      ghost var s := Opts();
      tail.next := o;
      tail := o;
      nodes := nodes + [o];
      assert Opts() == s + [Opt(o.number, o.value)];
    }

    /** The first node with a larger number, and the node before it. */
    method FindPlace(number: nat) returns (prev: OptionNode?, current: OptionNode, ghost k: nat)
      requires Valid() && nodes != [] && tail.number > number
      ensures k < |nodes| && current == nodes[k] && current.number > number
      ensures forall i :: 0 <= i < k ==> nodes[i].number <= number
      ensures prev == if k == 0 then null else nodes[k - 1]
    {
      var at := options;
      prev := null;
      k := 0;
      while at != null && at.number <= number
        invariant k < |nodes| && at == nodes[k]
        invariant prev == if k == 0 then null else nodes[k - 1]
        invariant forall i :: 0 <= i < k ==> nodes[i].number <= number
        decreases |nodes| - k
      {
        prev := at;
        at := at.next;
        k := k + 1;
      }
      current := at;
    }

    method AddBetween(prev: OptionNode?, current: OptionNode, o: OptionNode, ghost k: nat)
      requires Valid() && o !in nodes && o.next == null
      requires k < |nodes| && current == nodes[k] && prev == if k == 0 then null else nodes[k - 1]
      modifies this`options, this`nodes, nodes`next, o`next
      ensures Valid() && nodes == old(nodes)[..k] + [o] + old(nodes)[k..]
      ensures Opts() == old(Opts())[..k] + [Opt(o.number, o.value)] + old(Opts())[k..]
    {
      hide OptsOf;
      ghost var was, s := nodes, Opts();
      if prev != null {
        prev.next := o;
        o.next := current;
      } else {
        o.next := options;
        options := o;
      }
      nodes := was[..k] + [o] + was[k..];
      LinkedThrough(was, o, k);
      hide Linked;
      assert OptsOf(was) == s;
      OptsOfSplice(was, o, k);
    }

    // ----- composing -----

    /** Checks the message and computes the number of bytes it takes. */
    method CalculatePacketSize() returns (res: Option<Refusal>, len: nat)
      requires Valid()
      ensures res == Refused(Msg())
      ensures res.None? ==> len == PacketSize(Msg())
    {
      hide OptsOf, ExtSize;
      len := 4;
      if msgType > 3 {
        return Some(BadType), len;
      }
      if |token| > 8 {
        return Some(BadToken), len;
      }
      if codeClass > 7 {
        return Some(BadClass), len;
      }
      if codeDetail > 31 {
        return Some(BadDetail), len;
      }
      len := len + |token|;
      if |payload| != 0 {
        len := len + |payload| + 1;
      }
      ghost var s, i := Opts(), 0;
      ghost var front := len;
      var opt := options;
      var prev: nat := 0;
      assert s[0..] == s;
      while opt != null
        invariant i <= |nodes| && opt == if i < |nodes| then nodes[i] else null
        invariant opt != null ==> prev <= opt.number
        invariant OptionsOk(s, 0) == OptionsOk(s[i..], prev)
        invariant OptionsOk(s, 0) ==> len + OptionsSize(s[i..], prev) == front + OptionsSize(s, 0)
        decreases |nodes| - i
      {
        assert s[i..][1..] == s[i + 1..] && s[i..][0] == s[i] == Opt(opt.number, opt.value);
        len := len + 1 + ExtSize(opt.number - prev) + ExtSize(|opt.value|);
        if (opt.next != null && opt.number > opt.next.number) || |opt.value| > EXT2_MAX || opt.number - prev > EXT2_MAX {
          assert opt.next != null ==> s[i + 1..][0] == s[i + 1] == Opt(opt.next.number, opt.next.value);
          return Some(BadOptions), len;
        }
        len := len + |opt.value|;
        prev := opt.number;
        opt := opt.next;
        i := i + 1;
      }
      res := None;
    }

    /** Writes the header and the token. */
    method WriteHeader(p: array<byte>, at: nat, ghost b: seq<byte>) returns (ptr: nat)
      requires Composable(Msg()) && at + 4 + |token| <= p.Length && p[..][..at] == b
      modifies p
      ensures ptr == at + 4 + |token|
      ensures p[..][..ptr] == b + HeaderBytes(Msg()) + token
    {
      hide BE16, OptsOf;
      ptr := PutByte(p, at, 64 + msgType * 16 + |token|);
      ptr := PutByte(p, ptr, codeClass * 32 + codeDetail);
      ptr := PutUint16(p, ptr, msgId);
      if |token| != 0 {
        ptr := PutBytes(p, ptr, token);
      }
    }

    /** Writes the options, each as the delta to the one before it. */
    method WriteOptions(p: array<byte>, at: nat, ghost b: seq<byte>) returns (ptr: nat)
      requires Valid() && OptionsOk(Opts(), 0) && at + OptionsSize(Opts(), 0) <= p.Length && p[..][..at] == b
      modifies p
      ensures ptr == at + OptionsSize(Opts(), 0)
      ensures p[..][..ptr] == b + OptionsBytes(Opts(), 0)
    {
      hide OptsOf, OptionBytes, OptionsOk, OptionsBytes, OptionsSize;
      ghost var s, i := Opts(), 0;
      ghost var w := [];
      var opt := options;
      var prev: nat := 0;
      ptr := at;
      assert s[0..] == s;
      while opt != null
        invariant i <= |nodes| && opt == if i < |nodes| then nodes[i] else null
        invariant OptionsOk(s[i..], prev)
        invariant w + OptionsBytes(s[i..], prev) == OptionsBytes(s, 0)
        invariant ptr == at + |w| && p[..][..ptr] == b + w
        decreases |nodes| - i
      {
        NextOption(s, i, prev, w);
        assert s[i] == Opt(opt.number, opt.value);
        ptr := WriteOption(p, ptr, opt.number, opt.value, prev);
        w := w + OptionBytes(s[i], prev);
        prev := opt.number;
        opt := opt.next;
        i := i + 1;
      }
      NoMoreOptions(prev);
      assert s[i..] == [] && w + [] == w;
    }

    /** Writes the message behind what is there. */
    method WriteMessage(p: array<byte>, at: nat, ghost b: seq<byte>)
      requires Valid() && Composable(Msg()) && at + PacketSize(Msg()) <= p.Length && p[..][..at] == b
      modifies p
      ensures p[..][..at + PacketSize(Msg())] == b + ComposeBytes(Msg())
    {
      hide OptsOf, Refused, OptionsOk, OptionsBytes, OptionsSize, HeaderBytes, ComposeBytes;
      ghost var m := Msg();
      ComposableParts(m);
      var ptr := WriteHeader(p, at, b);
      ptr := WriteOptions(p, ptr, b + HeaderBytes(m) + token);
      if |payload| != 0 {
        ptr := PutByte(p, ptr, 0xff);
        ptr := PutBytes(p, ptr, payload);
      }
      assert ptr == at + PacketSize(m);
      Composed(b, m, p[..][..ptr]);
    }

    /** Appends the message to a buffer, or says why it cannot be composed and leaves the buffer alone. */
    method Compose(io: Mbuf) returns (res: Option<Refusal>)
      requires Valid() && io.Valid() && msgId < 0x1_0000
      modifies io, io.buf
      ensures io.Valid() && (io.buf == old(io.buf) || fresh(io.buf))
      ensures res == Refused(Msg())
      ensures io.Contents() == old(io.Contents()) + if res.None? then ComposeBytes(Msg()) else []
    {
      hide OptsOf, Refused, OptionsOk, OptionsBytes, HeaderBytes, PayloadBytes;
      ghost var b, m := io.Contents(), Msg();
      var size;
      res, size := CalculatePacketSize();
      if res.Some? {
        assert b + [] == b;
        return;
      }
      var at := io.len;
      io.AppendGap(size);
      assert io.buf[..][..at] == b;
      hide ComposeBytes;
      WriteMessage(io.buf, at, b);
      assert io.Contents() == io.buf[..][..io.len];
    }

    // ----- parsing -----

    /** Resets the message and fills it from a packet. */
    method Parse(io: Mbuf)
      requires io.Valid()
      modifies this
      ensures Valid() && fresh(set n | n in nodes)
      ensures Parsed(error, fields, Msg()) == CoapCodec.Parse(io.Contents())
    {
      hide OptsOf, CoapCodec.Parse, ParseBody, ParseRest, ReadOptions, FromBE16;
      Reset();
      ghost var b := io.Contents();
      var tokenLen := ParseHeader(io);
      if error.None? {
        var ptr := GetToken(io, tokenLen);
        if error.None? {
          ptr := GetOptions(io, ptr);
          if error.None? && ptr < io.len {
            payload := io.buf[ptr..io.len];
            assert payload == b[ptr..];
            fields := fields + {PayloadField};
          }
        }
      }
    }

    method Reset()
      modifies this
      ensures Valid() && nodes == [] && Msg() == NoMessage && error == None && fields == {}
    {
      error, fields := None, {};
      msgType, codeClass, codeDetail, msgId, token, payload := 0, 0, 0, 0, [], [];
      options, tail, nodes := null, null, [];
      assert Opts() == [];
    }

    /** The four header bytes; the token's length comes back apart from the message. */
    method ParseHeader(io: Mbuf) returns (tokenLen: nat)
      requires io.Valid() && Valid() && Msg() == NoMessage && error == None && fields == {}
      modifies this`error, this`fields, this`msgType, this`codeClass, this`codeDetail, this`msgId
      ensures Valid()
      ensures var b := io.Contents();
              if error.Some? then Parsed(error, fields, Msg()) == CoapCodec.Parse(b)
              else |b| >= 4 && tokenLen <= 8
                   && CoapCodec.Parse(b) == ParseBody(b[4..], tokenLen, Parsed(error, fields, Msg()))
    {
      hide OptsOf, ParseBody, FromBE16;
      ghost var b := io.Contents();
      tokenLen := 0;
      if io.len < 4 {
        error := Some(NotEnoughData);
        return;
      }
      if io.buf[0] / 64 != 1 {
        error := Some(Ignore);
        return;
      }
      msgType := io.buf[0] / 16 % 4;
      fields := fields + {TypeField};
      tokenLen := io.buf[0] % 16;
      if tokenLen > 8 {
        error := Some(FormatError);
        return;
      }
      codeClass := io.buf[1] / 32;
      codeDetail := io.buf[1] % 32;
      fields := fields + {ClassField, DetailField};
      msgId := FromBE16(io.buf[2], io.buf[3]);
      fields := fields + {IdField};
      assert fields == {TypeField, ClassField, DetailField, IdField};
    }

    method GetToken(io: Mbuf, tokenLen: nat) returns (ptr: nat)
      requires io.Valid() && io.len >= 4 && Valid() && error == None
      modifies this`error, this`fields, this`token
      ensures Valid()
      ensures var q := ParseBody(io.Contents()[4..], tokenLen, old(Parsed(error, fields, Msg())));
              if error.Some? then Parsed(error, fields, Msg()) == q
              else ptr <= io.len && q == ParseRest(io.Contents()[ptr..], Parsed(error, fields, Msg()))
    {
      hide OptsOf, ParseRest;
      ghost var b := io.Contents();
      ptr := 4;
      if tokenLen != 0 {
        if ptr + tokenLen > io.len {
          error := Some(NotEnoughData);
        } else {
          assert io.buf[4..4 + tokenLen] == b[4..4 + tokenLen];
          token := io.buf[ptr..ptr + tokenLen];
          HeadOfTail(b, 4, tokenLen);
          TailOfTail(b, 4, tokenLen);
          ptr := ptr + tokenLen;
          fields := fields + {TokenField};
        }
      }
    }

    /** Reads the options at ptr; what comes back is where the payload starts, or the end of the packet. */
    method GetOptions(io: Mbuf, ptr: nat) returns (next: nat)
      requires io.Valid() && ptr <= io.len && Valid() && nodes == [] && error == None && payload == []
      modifies this`error, this`fields, this`options, this`tail, this`nodes
      ensures Valid() && fresh(set n | n in nodes)
      ensures var b := io.Contents();
              var q := ParseRest(b[ptr..], old(Parsed(error, fields, Msg())));
              if error.Some? then Parsed(error, fields, Msg()) == q
              else next <= io.len && q == WithPayload(b[next..], Parsed(error, fields, Msg()))
    {
      hide OptsOf, ReadOptions, Insert;
      ghost var b := io.Contents();
      assert Opts() == [];
      if ptr == io.len {
        return ptr;
      }
      next := ReadList(io, ptr);
      if error.Some? {
        FreeOptions();
        assert Opts() == [];
        return;
      }
      fields := fields + {OptionsField};
      if next == io.len {
        return;
      }
      assert b[next..][1..] == b[next + 1..];
      next := next + 1;
    }

    /** The loop over the options, up to the payload marker or the end. */
    method ReadList(io: Mbuf, ptr: nat) returns (next: nat)
      requires io.Valid() && ptr <= io.len && Valid() && nodes == [] && error == None
      modifies this`error, this`options, this`tail, this`nodes
      ensures Valid() && fresh(set n | n in nodes)
      ensures next <= io.len
      ensures ReadOptions(io.Contents()[ptr..], 0, [])
              == if error.Some? then Failed(error.value) else Done(Opts(), io.Contents()[next..])
    {
      hide OptsOf, Insert, ReadOption, ReadOptions, Linked;
      ghost var b := io.Contents();
      assert Opts() == [];
      next := ptr;
      var prev := 0;
      while next < io.len && io.buf[next] != 0xff
        invariant ptr <= next <= io.len && prev < 0x1_0000
        invariant Valid() && fresh(set n | n in nodes) && error == None
        invariant ReadOptions(b[ptr..], 0, []) == ReadOptions(b[next..], prev, Opts())
        decreases io.len - next
      {
        ghost var s := b[next..];
        assert s[0] == io.buf[next];
        ReadOnce(s, prev, Opts());
        var e, number, at, len := ReadOptionAt(io, next, prev);
        if e.Some? {
          error := e;
          return;
        }
        var o := AddOption(number, io.buf[at..at + len]);
        prev := number;
        next := at + len;
      }
      assert b[next..] == [] || b[next..][0] == 0xff;
      ReadOnce(b[next..], prev, Opts());
    }

    /** One option: its number, and where its value lies. */
    method ReadOptionAt(io: Mbuf, ptr: nat, prev: nat) returns (e: Option<Error>, number: nat, at: nat, len: nat)
      requires io.Valid() && ptr < io.len && prev < 0x1_0000
      ensures var b := io.Contents();
              match ReadOption(b[ptr..], prev)
              case OptionFailed(err) => e == Some(err)
              case OptionDone(o, rest) =>
                e == None && ptr < at && at + len <= io.len && number < 0x1_0000
                && o == Opt(number, io.buf[at..at + len]) && rest == b[at + len..]
    {
      hide ReadExt, ReadOption;
      ghost var b := io.Contents();
      e, number, at, len := None, 0, ptr + 1, 0;
      var delta, length := io.buf[ptr] / 16, io.buf[ptr] % 16;
      OptionCut(b, ptr, prev);
      if delta == 15 || length == 15 {
        return Some(FormatError), 0, 0, 0;
      }
      var n1, n2;
      delta, n1 := GetExtOpt(io, at, delta);
      if n1 < 0 {
        return Some(NotEnoughData), 0, 0, 0;
      }
      at := at + n1;
      LengthCut(b, ptr, prev, delta, n1);
      length, n2 := GetExtOpt(io, at, length);
      if n2 < 0 {
        return Some(NotEnoughData), 0, 0, 0;
      }
      at := at + n2;
      OptionHere(b, ptr, prev, delta, n1, length, n2);
      number := (delta + prev) % 0x1_0000;
      if at + length > io.len {
        return Some(NotEnoughData), 0, 0, 0;
      }
      len := length;
      assert b[at..at + len] == io.buf[at..at + len];
    }

    /** Replaces a nibble by its extended value; n is the bytes read, or -1. */
    method GetExtOpt(io: Mbuf, ptr: nat, nibble: nat) returns (v: nat, n: int)
      requires io.Valid() && ptr <= io.len && nibble < 15
      ensures n >= -1 && ptr + n <= io.len
      ensures ReadExt(io.Contents()[ptr..], nibble) == if n == -1 then None else Some((v, n))
      ensures n != -1 ==> v < 0x1_0000
    {
      ghost var s := io.Contents()[ptr..];
      v, n := nibble, 0;
      if nibble == 13 {
        if ptr < io.len {
          assert s[0] == io.buf[ptr];
          v := io.buf[ptr];
          v, n := v + 13, 1;
        } else {
          n := -1;
        }
      } else if nibble == 14 {
        if ptr + 1 < io.len {
          assert s[0] == io.buf[ptr] && s[1] == io.buf[ptr + 1];
          v, n := (FromBE16(io.buf[ptr], io.buf[ptr + 1]) + 269) % 0x1_0000, 2;
        } else {
          n := -1;
        }
      }
    }
  }

  /** Reading the option at ptr: its two nibbles and the extended delta, the extended length, and its value. */
  lemma OptionCut(b: seq<byte>, ptr: nat, prev: nat)
    requires ptr < |b|
    ensures b[ptr] / 16 == 15 || b[ptr] % 16 == 15 ==> ReadOption(b[ptr..], prev) == OptionFailed(FormatError)
    ensures b[ptr] / 16 != 15 && b[ptr] % 16 != 15 && ReadExt(b[ptr + 1..], b[ptr] / 16) == None
            ==> ReadOption(b[ptr..], prev) == OptionFailed(NotEnoughData)
  {
    hide ReadExt;
    assert b[ptr..][1..] == b[ptr + 1..];
  }

  lemma LengthCut(b: seq<byte>, ptr: nat, prev: nat, delta: nat, n1: nat)
    requires ptr + 1 + n1 <= |b| && b[ptr] / 16 != 15 && b[ptr] % 16 != 15
    requires ReadExt(b[ptr + 1..], b[ptr] / 16) == Some((delta, n1))
    ensures ReadExt(b[ptr + 1 + n1..], b[ptr] % 16) == None ==> ReadOption(b[ptr..], prev) == OptionFailed(NotEnoughData)
  {
    hide ReadExt;
    TailOfTail(b, ptr, 1);
    TailOfTail(b, ptr, 1 + n1);
  }

  lemma OptionHere(b: seq<byte>, ptr: nat, prev: nat, delta: nat, n1: nat, len: nat, n2: nat)
    requires ptr + 1 + n1 + n2 <= |b| && b[ptr] / 16 != 15 && b[ptr] % 16 != 15
    requires ReadExt(b[ptr + 1..], b[ptr] / 16) == Some((delta, n1))
    requires ReadExt(b[ptr + 1 + n1..], b[ptr] % 16) == Some((len, n2))
    ensures var at := ptr + 1 + n1 + n2;
            ReadOption(b[ptr..], prev)
            == if at + len > |b| then OptionFailed(NotEnoughData)
               else OptionDone(Opt((delta + prev) % 0x1_0000, b[at..at + len]), b[at + len..])
  {
    hide ReadExt;
    TailOfTail(b, ptr, 1);
    TailOfTail(b, ptr, 1 + n1);
    var at := ptr + 1 + n1 + n2;
    if at + len <= |b| {
      SliceOfTail(b, ptr, at - ptr, at - ptr + len);
      TailOfTail(b, ptr, at - ptr + len);
    }
  }

  lemma ComposableParts(m: Message)
    requires Composable(m)
    ensures OptionsOk(m.options, 0)
    ensures PacketSize(m) == 4 + |m.token| + OptionsSize(m.options, 0) + if m.payload != [] then 1 + |m.payload| else 0
  {
  }

  /** The parts of a message, one behind the other, are the message. */
  lemma Composed(b: seq<byte>, m: Message, r: seq<byte>)
    requires Composable(m)
    requires var w := (b + HeaderBytes(m) + m.token) + OptionsBytes(m.options, 0);
             r == if m.payload != [] then (w + [0xff]) + m.payload else w
    ensures r == b + ComposeBytes(m)
  {
    hide HeaderBytes, OptionsBytes;
  }

  // ----- writing through a cursor -----

  method PutByte(p: array<byte>, ptr: nat, x: byte) returns (next: nat)
    requires ptr < p.Length
    modifies p
    ensures next == ptr + 1 && p[..][..next] == old(p[..])[..ptr] + [x]
  {
    p[ptr] := x;
    next := ptr + 1;
    assert p[..][..ptr] == old(p[..])[..ptr];
  }

  method PutBytes(p: array<byte>, ptr: nat, s: seq<byte>) returns (next: nat)
    requires ptr + |s| <= p.Length
    modifies p
    ensures next == ptr + |s| && p[..][..next] == old(p[..])[..ptr] + s
  {
    MemCpy(p, ptr, s);
    next := ptr + |s|;
  }

  method PutUint16(p: array<byte>, ptr: nat, v: nat) returns (next: nat)
    requires v < 0x1_0000 && ptr + 2 <= p.Length
    modifies p
    ensures next == ptr + 2 && p[..][..next] == old(p[..])[..ptr] + BE16(v)
  {
    next := PutByte(p, ptr, v / 0x100);
    next := PutByte(p, next, v % 0x100);
  }

  /** Splits an option delta or length into its nibble and extended value; n is the size of the latter. */
  method SplitOpt(v: nat) returns (nibble: nat, ext: nat, n: nat)
    requires v <= EXT2_MAX
    ensures nibble == Nibble(v) && n == ExtSize(v) && ext < 0x1_0000
    ensures ExtBytes(v) == if n == 1 then [ext % 0x100] else if n == 2 then BE16(ext) else []
  {
    nibble, ext, n := v, 0, 0;
    if v >= 13 && v <= EXT1_MAX {
      nibble, ext, n := 13, v - 13, 1;
    } else if v > EXT1_MAX {
      nibble, ext, n := 14, v - 269, 2;
    }
  }

  method PutOptInfo(p: array<byte>, ptr: nat, ext: nat, n: nat) returns (next: nat)
    requires ext < 0x1_0000 && n <= 2 && ptr + n <= p.Length
    modifies p
    ensures next == ptr + n
    ensures p[..][..next] == old(p[..])[..ptr] + if n == 1 then [ext % 0x100] else if n == 2 then BE16(ext) else []
  {
    next := ptr;
    if n == 1 {
      next := PutByte(p, ptr, ext % 0x100);
    } else if n == 2 {
      next := PutUint16(p, ptr, ext);
    }
  }

  /** Each node's next is the following one, the last one's is null, and no node occurs twice. */
  ghost predicate Linked(nodes: seq<OptionNode>)
    reads nodes
  {
    && (forall i {:trigger nodes[i].next} :: 0 <= i < |nodes| - 1 ==> nodes[i].next == nodes[i + 1])
    && (nodes != [] ==> nodes[|nodes| - 1].next == null)
    && (forall i, j :: 0 <= i < j < |nodes| ==> nodes[i] != nodes[j])
  }

  lemma LinkedThrough(s: seq<OptionNode>, o: OptionNode, k: nat)
    requires k < |s| && o !in s && o.next == s[k] && s[|s| - 1].next == null
    requires k > 0 ==> s[k - 1].next == o
    requires forall i {:trigger s[i].next} :: 0 <= i < |s| - 1 && i != k - 1 ==> s[i].next == s[i + 1]
    requires forall i, j :: 0 <= i < j < |s| ==> s[i] != s[j]
    ensures Linked(s[..k] + [o] + s[k..])
  {
    var all := s[..k] + [o] + s[k..];
    assert forall i | 0 <= i < k :: all[i] == s[i];
    assert forall i | k < i < |all| :: all[i] == s[i - 1];
    forall i | 0 <= i < |all| - 1
      ensures all[i].next == all[i + 1]
    {
      if i > k {
        assert s[i - 1].next == s[i];
      }
    }
    forall i, j | 0 <= i < j < |all|
      ensures all[i] != all[j]
    {
      assert all[i] == o || all[i] in s;
    }
  }

  method WriteOption(p: array<byte>, at: nat, number: nat, value: seq<byte>, prev: nat) returns (ptr: nat)
    requires prev <= number && number - prev <= EXT2_MAX && |value| <= EXT2_MAX
    requires at + |OptionBytes(Opt(number, value), prev)| <= p.Length
    modifies p
    ensures ptr == at + |OptionBytes(Opt(number, value), prev)|
    ensures p[..][..ptr] == old(p[..])[..at] + OptionBytes(Opt(number, value), prev)
  {
    hide ExtSize, ExtBytes, Nibble;
    var deltaBase, deltaExt, n1 := SplitOpt(number - prev);
    var lenBase, lenExt, n2 := SplitOpt(|value|);
    assert n1 <= 2 && n2 <= 2;
    ptr := PutByte(p, at, deltaBase * 16 + lenBase);
    ptr := PutOptInfo(p, ptr, deltaExt, n1);
    ptr := PutOptInfo(p, ptr, lenExt, n2);
    if |value| != 0 {
      ptr := PutBytes(p, ptr, value);
    }
    OptionParts(old(p[..])[..at], Opt(number, value), prev, p[..][..ptr]);
  }

  lemma NextOption(s: seq<Opt>, i: nat, prev: nat, w: seq<byte>)
    requires i < |s| && OptionsOk(s[i..], prev)
    ensures prev <= s[i].number && s[i].number - prev <= EXT2_MAX && |s[i].value| <= EXT2_MAX
    ensures OptionsOk(s[i + 1..], s[i].number)
    ensures (w + OptionBytes(s[i], prev)) + OptionsBytes(s[i + 1..], s[i].number) == w + OptionsBytes(s[i..], prev)
  {
    hide OptionBytes;
    assert s[i..][0] == s[i] && s[i..][1..] == s[i + 1..];
  }

  lemma NoMoreOptions(prev: nat)
    ensures OptionsOk([], prev) && OptionsBytes([], prev) == []
  {
  }

  lemma OptionParts(b: seq<byte>, o: Opt, prev: nat, r: seq<byte>)
    requires prev <= o.number
    requires var w := ((b + [Nibble(o.number - prev) * 16 + Nibble(|o.value|)]) + ExtBytes(o.number - prev)) + ExtBytes(|o.value|);
             r == if o.value != [] then w + o.value else w
    ensures r == b + OptionBytes(o, prev)
  {
    hide ExtBytes, Nibble;
  }

  ghost function OptsOf(nodes: seq<OptionNode>): (s: seq<Opt>)
    reads nodes
    ensures |s| == |nodes|
    ensures forall i :: 0 <= i < |s| ==> s[i] == Opt(nodes[i].number, nodes[i].value)
  {
    seq(|nodes|, i requires 0 <= i < |nodes| reads nodes => Opt(nodes[i].number, nodes[i].value))
  }

  lemma OptsOfSplice(nodes: seq<OptionNode>, o: OptionNode, k: nat)
    requires k <= |nodes|
    ensures OptsOf(nodes[..k] + [o] + nodes[k..])
            == OptsOf(nodes)[..k] + [Opt(o.number, o.value)] + OptsOf(nodes)[k..]
  {
    hide OptsOf;
  }

  /** The search loop finds the place of the insertion. */
  lemma InsertAt(s: seq<Opt>, o: Opt, k: nat)
    requires k < |s| && s[|s| - 1].number > o.number
    requires (forall i :: 0 <= i < k ==> s[i].number <= o.number) && s[k].number > o.number
    ensures Insert(s, o) == s[..k] + [o] + s[k..]
  {
    PlaceSplits(s, o);
    var m := Place(s, o.number);
    assert m == k by {
      PlaceFirst(s, o.number, k);
    }
  }

  lemma {:induction false} PlaceFirst(s: seq<Opt>, n: nat, k: nat)
    requires k < |s| && (forall i :: 0 <= i < k ==> s[i].number <= n) && s[k].number > n
    ensures Place(s, n) == k
  {
    if k > 0 {
      assert forall i | 0 <= i < k - 1 :: s[1..][i] == s[i + 1];
      PlaceFirst(s[1..], n, k - 1);
    }
  }
}
