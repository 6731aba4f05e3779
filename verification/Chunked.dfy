/**
 Chunked bodies reassembled inside the receive buffer: chunk data is collapsed onto
 the front of the body while later chunks are still being read behind it.
 */
module Chunked {
  import opened Bytes
  import opened IoBuffers
  import opened ChunkedCodec

  /** Bytes off..off + n of an array's contents. */
  ghost function Region(s: seq<byte>, off: nat, n: nat): (r: seq<byte>)
    requires off + n <= |s|
    ensures |r| == n
  {
    s[off..off + n]
  }

  /** Reads the chunk at offset from of the array, in which len bytes may be read; total is 0 when none is fully buffered. */
  method ReadChunk(p: array<byte>, from: nat, len: nat) returns (total: nat, start: nat, n: nat)
    requires from + len <= p.Length && !Wraps(Region(p[..], from, len))
    ensures var r := ParseChunk(Region(p[..], from, len));
            if r.None? then total == 0 else r == Some(Chunk(total, start, n))
  {
    hide DigitRun, ParseChunk, Wraps;
    ghost var s := Region(p[..], from, len);
    NoDigits(s);
    var i := 0;
    n, total, start := 0, 0, 0;
    while i < len && IsXDigit(p[from + i])
      invariant 0 <= i <= len
      invariant AllXDigits(s[..i]) && n == HexNumber(s[..i]) % WORD
    {
      assert s[i] == p[from + i];
      NextDigit(s, i);
      n := n * 16 % WORD;
      n := (n + HexValue(p[from + i])) % WORD;
      i := i + 1;
    }
    RunEndsAt(s, i);
    if i == 0 || i + 2 > len || p[from + i] != CR || p[from + i + 1] != LF {
      return;
    }
    start := i + 2;
    SizeRead(s, i, n);
    i := (start + n) % WORD;
    if i == 0 || i + 2 > len || p[from + i] != CR || p[from + i + 1] != LF {
      return;
    }
    total := i + 2;
  }

  lemma NoDigits(s: seq<byte>)
    ensures AllXDigits(s[..0]) && HexNumber(s[..0]) % WORD == 0
    ensures DigitRun(s) == 0 || !LineEndAt(s, DigitRun(s)) ==> ParseChunk(s) == None
  {
  }

  /** A digit at a time, in words. */
  lemma NextDigit(s: seq<byte>, i: nat)
    requires i < |s| && AllXDigits(s[..i]) && IsXDigit(s[i])
    ensures AllXDigits(s[..i + 1])
    ensures (HexNumber(s[..i]) % WORD * 16 % WORD + HexValue(s[i])) % WORD == HexNumber(s[..i + 1]) % WORD
  {
    hide HexValue;
    assert s[..i + 1][..i] == s[..i] && s[..i + 1][i] == s[i];
    OneMoreDigit(HexNumber(s[..i]), HexValue(s[i]));
  }

  lemma OneMoreDigit(v: nat, d: nat)
    ensures (v % WORD * 16 % WORD + d) % WORD == (v * 16 + d) % WORD
  {
    var q, x := v / WORD, v % WORD * 16;
    ModuloWord(x / WORD, x % WORD + d);
    ModuloWord(q * 16, x + d);
  }

  lemma ModuloWord(q: nat, x: nat)
    ensures (q * WORD + x) % WORD == x % WORD
  {
    if q > 0 {
      ModuloWord(q - 1, x);
      assert q * WORD + x == (q - 1) * WORD + x + WORD;
    }
  }

  /** Behind the digits and their line end: the end computed in words is the chunk's, or that of none. */
  lemma SizeRead(s: seq<byte>, i: nat, n: nat)
    requires i == DigitRun(s) && i > 0 && LineEndAt(s, i) && n == HexNumber(s[..i]) % WORD && !Wraps(s)
    ensures var e := (i + 2 + n) % WORD;
            ParseChunk(s) == if e != 0 && LineEndAt(s, e) then Some(Chunk(e + 2, i + 2, n)) else None
  {
    hide HexNumber;
    if i + 2 + n >= WORD {
      BackInDigits(s, i, (i + 2 + n) % WORD);
    }
  }

  /** No line end but that of the size starts within it. */
  lemma BackInDigits(s: seq<byte>, i: nat, e: nat)
    requires i == DigitRun(s) && LineEndAt(s, i) && e < i + 2 && e != i
    ensures !LineEndAt(s, e)
  {
    assert e < i ==> IsXDigit(s[..i][e]);
  }

  lemma RunEndsAt(s: seq<byte>, n: nat)
    requires n <= |s| && AllXDigits(s[..n]) && (n < |s| ==> !IsXDigit(s[n]))
    ensures DigitRun(s) == n
  {
    if n < |s| {
      DigitRunUnique(s, n);
    } else {
      assert s[..n] == s;
    }
  }

  // ----- collapsing -----

  /** The chunks of region b up to offset i are collapsed in c: they gave the data d, which ends at bl. */
  ghost predicate Collapsing(b: seq<byte>, c: seq<byte>, bodyLen: nat, i: nat, bl: nat, d: seq<byte>, zero: bool)
    requires bodyLen <= |b|
  {
    && bodyLen <= bl <= i <= |b| == |c|
    && c[..bl] == b[..bodyLen] + d && c[i..] == b[i..]
    && (bl < i || (i == bodyLen && d == [] && !zero))
    && Decode(b[bodyLen..]) == if zero then Decoded(d, b[i..], true)
                               else Decoded(d + Decode(b[i..]).data, Decode(b[i..]).rest, Decode(b[i..]).zero)
  }

  lemma CollapseStart(b: seq<byte>, bodyLen: nat)
    requires bodyLen <= |b|
    ensures Collapsing(b, b, bodyLen, bodyLen, bodyLen, [], false)
  {
    hide ParseChunk, Decode;
    assert [] + Decode(b[bodyLen..]).data == Decode(b[bodyLen..]).data;
    assert b[..bodyLen] + [] == b[..bodyLen];
  }

  /** Collapsing one more chunk: c becomes c' by moving its data down to bl. */
  lemma CollapseOne(b: seq<byte>, c: seq<byte>, c': seq<byte>, bodyLen: nat, i: nat, bl: nat, d: seq<byte>, ch: Chunk)
    requires bodyLen <= |b| && Collapsing(b, c, bodyLen, i, bl, d, false)
    requires ParseChunk(c[i..]) == Some(ch)
    requires bl + ch.len <= |c| && i + ch.start + ch.len <= |c|
    requires c' == c[..bl] + c[i + ch.start..i + ch.start + ch.len] + c[bl + ch.len..]
    ensures Collapsing(b, c', bodyLen, i + ch.total, bl + ch.len, d + ChunkData(b[i..], ch), ch.len == 0)
  {
    hide ParseChunk, Decode;
    var data := ChunkData(b[i..], ch);
    SliceOfTail(c, i, ch.start, ch.start + ch.len);
    assert data == c[i + ch.start..i + ch.start + ch.len];
    DecodeOnce(b[i..]);
    var j := i + ch.total;
    assert b[i..][ch.total..] == b[j..];
    assert c'[j..] == c[j..] == c[i..][ch.total..];
    assert c'[..bl + ch.len] == c[..bl] + data;
    assert (b[..bodyLen] + d) + data == b[..bodyLen] + (d + data);
    assert (d + data) + Decode(b[j..]).data == d + (data + Decode(b[j..]).data);
    if ch.len == 0 {
      assert data == [];
    }
  }

  /** What a whole region b decodes to, in place: the body up to bl, undecoded bytes from i on. */
  ghost predicate Collapsed(b: seq<byte>, c: seq<byte>, bodyLen: nat, i: nat, bl: nat, zero: bool)
    requires bodyLen <= |b|
  {
    var r := Decode(b[bodyLen..]);
    && bl == bodyLen + |r.data| && i == |b| - |r.rest| && bl <= i && zero == r.zero && |c| == |b|
    && c[..bl] == b[..bodyLen] + r.data && c[i..] == r.rest
    && (bl < i <==> r.rest != b[bodyLen..])
  }

  lemma CollapseEnd(b: seq<byte>, c: seq<byte>, bodyLen: nat, i: nat, bl: nat, d: seq<byte>, zero: bool)
    requires bodyLen <= |b| && Collapsing(b, c, bodyLen, i, bl, d, zero)
    requires !zero ==> ParseChunk(c[i..]).None?
    ensures Collapsed(b, c, bodyLen, i, bl, zero)
  {
    hide ParseChunk, Decode;
    if !zero {
      DecodeOnce(b[i..]);
      assert d + [] == d;
    }
    assert |c[..bl]| == bl;
  }

  /** Where the whole region is not lost, no size in it wraps. */
  lemma NotWrapping(b: seq<byte>, c: seq<byte>, bodyLen: nat, i: nat, bl: nat, d: seq<byte>)
    requires bodyLen <= |b| && Collapsing(b, c, bodyLen, i, bl, d, false) && !Lost(Decode(b[bodyLen..]))
    ensures i <= |c| && !Wraps(c[i..])
  {
    hide Decode, Wraps;
    WrapsIsLost(b[i..]);
  }

  /** Collapses all fully buffered chunks of the region of blen bytes at off, whose first bodyLen bytes are body already. */
  method Collapse(p: array<byte>, off: nat, blen: nat, bodyLen: nat) returns (i: nat, bl: nat, zero: bool)
    requires off + blen <= p.Length && bodyLen <= blen && !Lost(Decode(Region(p[..], off, blen)[bodyLen..]))
    modifies p
    ensures Region(p[..], 0, off) == old(Region(p[..], 0, off))
    ensures Collapsed(old(Region(p[..], off, blen)), Region(p[..], off, blen), bodyLen, i, bl, zero)
  {
    hide ParseChunk, Decode, Collapsing, Collapsed, Region, Wraps, Lost;
    ghost var b := Region(p[..], off, blen);
    i, bl, zero := bodyLen, bodyLen, false;
    ghost var d := [];
    CollapseStart(b, bodyLen);
    NotWrapping(b, b, bodyLen, bodyLen, bodyLen, []);
    RegionTail(p[..], off, blen, i);
    var n: nat, start: nat, len: nat := ReadChunk(p, off + i, blen - i);
    while n > 0
      invariant bodyLen <= bl <= i <= blen
      invariant Region(p[..], 0, off) == old(Region(p[..], 0, off))
      invariant Collapsing(b, Region(p[..], off, blen), bodyLen, i, bl, d, zero)
      invariant zero ==> n == 0
      invariant !zero && n == 0 ==> ParseChunk(Region(p[..], off + i, blen - i)).None?
      invariant n > 0 ==> ParseChunk(Region(p[..], off + i, blen - i)) == Some(Chunk(n, start, len))
      decreases blen - i, n
    {
      ghost var c := Region(p[..], off, blen);
      ghost var ch := Chunk(n, start, len);
      RegionTail(p[..], off, blen, i);
      MoveInRegion(p, off, blen, bl, i + start, len);
      CollapseOne(b, c, Region(p[..], off, blen), bodyLen, i, bl, d, ch);
      d := d + ChunkData(b[i..], ch);
      bl := bl + len;
      i := i + n;
      if len == 0 {
        zero := true;
        n := 0;
        break;
      }
      NotWrapping(b, Region(p[..], off, blen), bodyLen, i, bl, d);
      RegionTail(p[..], off, blen, i);
      n, start, len := ReadChunk(p, off + i, blen - i);
    }
    RegionTail(p[..], off, blen, i);
    CollapseEnd(b, Region(p[..], off, blen), bodyLen, i, bl, d, zero);
  }

  lemma RegionTail(s: seq<byte>, off: nat, blen: nat, i: nat)
    requires off + blen <= |s| && i <= blen
    ensures Region(s, off, blen)[i..] == Region(s, off + i, blen - i)
  {
    SliceOfSlice(s, off, off + blen, i, blen);
  }

  /** memmove of n bytes inside a region of an array. */
  method MoveInRegion(p: array<byte>, off: nat, blen: nat, dst: nat, src: nat, n: nat)
    requires off + blen <= p.Length && dst + n <= blen && src + n <= blen
    modifies p
    ensures Region(p[..], 0, off) == old(Region(p[..], 0, off))
    ensures var c := old(Region(p[..], off, blen));
            Region(p[..], off, blen) == c[..dst] + c[src..src + n] + c[dst + n..]
  {
    hide Region;
    ghost var p0 := p[..];
    MemMove(p, off + dst, off + src, n);
    RegionMoved(p0, p[..], off, blen, dst, src, n);
  }

  lemma RegionMoved(p0: seq<byte>, p1: seq<byte>, off: nat, blen: nat, dst: nat, src: nat, n: nat)
    requires off + blen <= |p0| && dst + n <= blen && src + n <= blen
    requires p1 == p0[..off + dst] + p0[off + src..off + src + n] + p0[off + dst + n..]
    ensures |p1| == |p0| && Region(p1, 0, off) == Region(p0, 0, off)
    ensures var c := Region(p0, off, blen);
            Region(p1, off, blen) == c[..dst] + c[src..src + n] + c[dst + n..]
  {
    var c := p0[off..off + blen];
    SliceOfSlice(p0, off, off + blen, src, src + n);
    SliceOfSlice(p0, off, off + blen, dst + n, blen);
    SliceOfSlice(p0, off, off + blen, 0, dst);
    var moved := p0[off + src..off + src + n];
    assert p1[off + dst..off + dst + n] == moved;
    assert p1[off..off + dst] == p0[off..off + dst];
    assert p1[off + dst + n..off + blen] == p0[off + dst + n..off + blen];
    assert p1[off..off + blen] == p1[off..off + dst] + p1[off + dst..off + dst + n] + p1[off + dst + n..off + blen];
  }

  // ----- what follows the collapse -----

  /** Moves the undecoded bytes of a region down behind the body and clears what they leave. */
  method Compact(p: array<byte>, off: nat, blen: nat, i: nat, bl: nat)
    requires off + blen <= p.Length && bl <= i <= blen
    modifies p
    ensures Region(p[..], 0, off) == old(Region(p[..], 0, off))
    ensures var c := old(Region(p[..], off, blen));
            Region(p[..], off, bl + blen - i) == c[..bl] + c[i..]
  {
    hide Region;
    ghost var p0 := p[..];
    MemMove(p, off + bl, off + i, blen - i);
    ghost var p1 := p[..];
    MemSet(p, off + bl + blen - i, 0, i - bl);
    RegionCompacted(p0, p1, p[..], off, blen, i, bl);
  }

  lemma RegionCompacted(p0: seq<byte>, p1: seq<byte>, p2: seq<byte>, off: nat, blen: nat, i: nat, bl: nat)
    requires off + blen <= |p0| && bl <= i <= blen
    requires p1 == p0[..off + bl] + p0[off + i..off + i + (blen - i)] + p0[off + bl + (blen - i)..]
    requires p2 == p1[..off + bl + blen - i] + seq(i - bl, _ => 0) + p1[off + bl + blen - i + (i - bl)..]
    ensures |p2| == |p0| && Region(p2, 0, off) == Region(p0, 0, off)
    ensures Region(p2, off, bl + blen - i) == Region(p0, off, blen)[..bl] + Region(p0, off, blen)[i..]
  {
    var n := bl + blen - i;
    SliceOfSlice(p0, off, off + blen, 0, bl);
    SliceOfSlice(p0, off, off + blen, i, blen);
    assert p2[..off + n] == p1[..off + n];
    assert p1[off..off + bl] == p0[off..off + bl];
    assert p1[off + bl..off + n] == p0[off + i..off + blen];
    assert p2[off..off + n] == p2[..off + n][off..] == p1[off..off + bl] + p1[off + bl..off + n];
  }

  /** Deletes a body of bl bytes from the front of a region of n bytes. */
  method DropBody(p: array<byte>, off: nat, n: nat, bl: nat)
    requires off + n <= p.Length && bl <= n
    modifies p
    ensures Region(p[..], 0, off) == old(Region(p[..], 0, off))
    ensures Region(p[..], off, n - bl) == old(Region(p[..], off, n))[bl..]
  {
    hide Region, Repeat;
    ghost var p0 := p[..];
    MemSet(p, off, 0, bl);
    ghost var p1 := p[..];
    MemMove(p, off, off + bl, n - bl);
    RegionDropped(p0, p1, p[..], off, n, bl);
  }

  lemma RegionDropped(p0: seq<byte>, p1: seq<byte>, p2: seq<byte>, off: nat, n: nat, bl: nat)
    requires off + n <= |p0| && bl <= n
    requires p1 == p0[..off] + Repeat(0, bl) + p0[off + bl..]
    requires p2 == p1[..off] + p1[off + bl..off + bl + (n - bl)] + p1[off + (n - bl)..]
    ensures |p2| == |p0| && Region(p2, 0, off) == Region(p0, 0, off)
    ensures Region(p2, off, n - bl) == Region(p0, off, n)[bl..]
  {
    hide Repeat;
    SliceOfSlice(p0, off, off + n, bl, n);
    assert p1[off + bl..off + n] == p0[off + bl..off + n];
    assert p2[off..off + n - bl] == p1[off + bl..off + n];
  }

  /** The outcome of one reassembly of region b: the new region c, the new body length, the bytes left behind it. */
  ghost predicate Reassembled(b: seq<byte>, c: seq<byte>, bodyLen: nat, del: bool, any: bool, bl: nat, left: nat, zero: bool)
    requires bodyLen <= |b|
  {
    var r := Decode(b[bodyLen..]);
    var body := b[..bodyLen] + r.data;
    && any == (r.rest != b[bodyLen..]) && zero == r.zero && left == |r.rest|
    && bl == (if any && del then 0 else |body|)
    && c == (if any && del then [] else body) + r.rest
  }

  /**
   Decodes what can be decoded of a region whose first bodyLen bytes are body already; show is the body the
   handler is shown, before it is deleted if the handler asked for that.
   */
  method Reassemble(p: array<byte>, off: nat, blen: nat, bodyLen: nat, del: bool)
    returns (any: bool, bl: nat, left: nat, zero: bool, ghost show: seq<byte>)
    requires off + blen <= p.Length && bodyLen <= blen && !Lost(Decode(Region(p[..], off, blen)[bodyLen..]))
    modifies p
    ensures Region(p[..], 0, off) == old(Region(p[..], 0, off))
    ensures bl + left <= blen
    ensures var b := old(Region(p[..], off, blen));
            && Reassembled(b, Region(p[..], off, bl + left), bodyLen, del, any, bl, left, zero)
            && (any ==> show == b[..bodyLen] + Decode(b[bodyLen..]).data)
  {
    hide Decode, ParseChunk, Region, Collapsed, Reassembled, Lost;
    ghost var b := Region(p[..], off, blen);
    var i;
    i, bl, zero := Collapse(p, off, blen, bodyLen);
    ghost var c := Region(p[..], off, blen);
    Finish(b, c, bodyLen, i, bl, zero, del);
    left, any, show := blen - i, i > bl, [];
    if any {
      Compact(p, off, blen, i, bl);
      show := Region(p[..], off, bl + left)[..bl];
      if del {
        DropBody(p, off, bl + left, bl);
        bl := 0;
      }
    }
  }

  /** What the region must become, in each of the cases after a collapse. */
  lemma Finish(b: seq<byte>, c: seq<byte>, bodyLen: nat, i: nat, bl: nat, zero: bool, del: bool)
    requires bodyLen <= |b| && Collapsed(b, c, bodyLen, i, bl, zero)
    ensures bl <= i <= |b| == |c|
    ensures var left, body := |b| - i, b[..bodyLen] + Decode(b[bodyLen..]).data;
            && (c[..bl] + c[i..])[..bl] == body
            && if i > bl then
                 && Reassembled(b, c[..bl] + c[i..], bodyLen, false, true, bl, left, zero)
                 && Reassembled(b, (c[..bl] + c[i..])[bl..], bodyLen, true, true, 0, left, zero)
               else
                 Reassembled(b, c, bodyLen, del, false, bl, left, zero)
  {
    hide Decode, ParseChunk;
    ConcatParts(c[..bl], c[i..]);
    if i == bl {
      assert c == c[..bl] + c[i..];
    }
  }

  // ----- the connection -----

  class Connection {
    const recv: Mbuf
    var bodyLen: nat  // reassembled body bytes behind the headers
    ghost var deleted: seq<byte>  // body bytes the handler took and had deleted
    ghost var shown: seq<seq<byte>>  // body shown with each chunk event
    ghost var done: bool  // the zero chunk was received

    ghost predicate Valid(reqLen: nat)
      reads this, recv
    {
      recv.Valid() && reqLen + bodyLen <= recv.len
    }

    /** The connection's chunked body, behind reqLen bytes of request headers. */
    ghost function Abs(reqLen: nat): State
      requires Valid(reqLen)
      reads this, recv, recv.buf
    {
      var s := recv.Contents()[reqLen..];
      State(deleted, s[..bodyLen], s[bodyLen..], done)
    }

    constructor (headers: seq<byte>)
      ensures Valid(|headers|) && fresh(recv) && fresh(recv.buf)
      ensures Run([], []) == Some(Abs(|headers|)) && recv.Contents() == headers && shown == []
    {
      recv := new Mbuf(0);
      bodyLen, deleted, shown, done := 0, [], [], false;
      new;
      recv.Append(headers);
      assert Abs(|headers|) == State([], [], [], false);
    }

    /**
     One received segment: the buffer becomes what OnSegment says, behind unchanged
     headers. message is the message length set when the zero chunk is there: it covers
     the whole buffer, so the request event fires in this same step.
     */
    method Receive(reqLen: nat, segment: seq<byte>, del: bool) returns (message: Option<nat>)
      requires Valid(reqLen) && !done && !Lost(Decode(Abs(reqLen).tail + segment))
      modifies this, recv, recv.buf
      ensures Valid(reqLen) && (recv.buf == old(recv.buf) || fresh(recv.buf))
      ensures recv.Contents()[..reqLen] == old(recv.Contents())[..reqLen]
      ensures Abs(reqLen) == OnSegment(old(Abs(reqLen)), segment, del)
      ensures shown == old(shown) + Shown(old(Abs(reqLen)), segment)
      ensures message == if done then Some(recv.len) else None
    {
      hide Decode, ParseChunk, OnTail, Lost;
      ghost var c, st := recv.Contents(), Abs(reqLen);
      recv.Append(segment);
      assert recv.Contents()[reqLen..][..bodyLen] == c[reqLen..][..bodyLen];
      assert recv.Contents()[reqLen..][bodyLen..] == st.tail + segment;
      assert recv.Contents()[..reqLen] == c[..reqLen];
      assert (st.tail + segment) + [] == st.tail + segment;
      message := HandleChunked(reqLen, del);
    }

    method HandleChunked(reqLen: nat, del: bool) returns (message: Option<nat>)
      requires Valid(reqLen) && !done && !Lost(Decode(Abs(reqLen).tail))
      modifies this`bodyLen, this`deleted, this`shown, this`done, recv`len, recv.buf
      ensures Valid(reqLen)
      ensures recv.Contents()[..reqLen] == old(recv.Contents())[..reqLen]
      ensures Abs(reqLen) == OnTail(old(Abs(reqLen)), del)
      ensures shown == old(shown) + Shown(old(Abs(reqLen)), [])
      ensures message == if done then Some(recv.len) else None
    {
      hide Decode, ParseChunk, Region, Reassembled, OnTail, Lost;
      ghost var s, st := recv.Contents(), Abs(reqLen);
      assert s[reqLen..] == st.body + st.tail;
      var p, blen := recv.buf, recv.len - reqLen;
      RegionsOf(p[..], s, reqLen);
      var any, bl, left, zero, show := Reassemble(p, reqLen, blen, bodyLen, del);
      recv.len := reqLen + bl + left;
      bodyLen := bl;
      RegionsOf(p[..], recv.Contents(), reqLen);
      Outcome(st, recv.Contents()[reqLen..], del, any, bl, left, zero);
      message := None;
      if any {
        shown := shown + [show];
        if del {
          deleted := deleted + show;
        }
        done := zero;
        if zero {
          message := Some(bodyLen + left + reqLen);
        }
      }
    }
  }

  /** Sends one chunk: the size in hexadecimal digits, the data, and the line ends around them. */
  method SendChunk(send: Mbuf, data: seq<byte>)
    requires send.Valid()
    modifies send, send.buf
    ensures send.Valid() && (send.buf == old(send.buf) || fresh(send.buf))
    ensures send.Contents() == old(send.Contents()) + WireChunk(HexText(|data|, false), data)
    ensures |WireChunk(HexText(|data|, false), data)| < WORD ==> SpellsSize(HexText(|data|, false), data)
  {
    hide HexText, AllXDigits, HexNumber;
    ghost var was := send.Contents();
    send.Append(HexText(|data|, false) + [CR, LF]);
    send.Append(data);
    send.Append([CR, LF]);
    assert was + (HexText(|data|, false) + [CR, LF]) + data + [CR, LF] == was + WireChunk(HexText(|data|, false), data);
  }

  /** The chunk event of a segment, if there is one: it shows the body so far. */
  ghost function Shown(st: State, segment: seq<byte>): seq<seq<byte>>
  {
    var r := Decode(st.tail + segment);
    if r.rest == st.tail + segment then [] else [st.body + r.data]
  }

  lemma RegionsOf(p: seq<byte>, s: seq<byte>, n: nat)
    requires |s| <= |p| && s == p[..|s|] && n <= |s|
    ensures Region(p, 0, n) == s[..n] && Region(p, n, |s| - n) == s[n..]
  {
  }

  lemma Outcome(st: State, c: seq<byte>, del: bool, any: bool, bl: nat, left: nat, zero: bool)
    requires Reassembled(st.body + st.tail, c, |st.body|, del, any, bl, left, zero) && !st.done
    ensures bl <= |c|
    ensures var st', show := OnTail(st, del), st.body + Decode(st.tail).data;
            && Shown(st, []) == (if any then [show] else [])
            && st'.body == c[..bl] && st'.tail == c[bl..]
            && st'.deleted == (if any && del then st.deleted + show else st.deleted)
            && st'.done == (any && zero)
  {
    hide Decode, ParseChunk;
    ConcatParts(st.body, st.tail);
    assert st.tail + [] == st.tail;
    var r := Decode(st.tail);
    ConcatParts(st.body + r.data, r.rest);
    if !any {
      assert st.body + [] == st.body;
    }
  }
}
