/**
 HTTP chunked transfer coding (RFC 7230, section 4.1): one chunk, a whole byte
 stream, and the state of a body that is being reassembled.
 */
module ChunkedCodec {
  import opened Bytes

  const CR: byte := 13
  const LF: byte := 10

  /** Sizes and offsets are words of 64 bits, and wrap. */
  const WORD := 0x1_0000_0000_0000_0000

  predicate IsXDigit(c: byte)
  {
    0x30 <= c <= 0x39 || 0x41 <= c <= 0x46 || 0x61 <= c <= 0x66
  }

  function HexValue(c: byte): (v: nat)
    requires IsXDigit(c)
    ensures v < 16
  {
    if c <= 0x39 then c - 0x30 else if c <= 0x46 then c - 0x41 + 10 else c - 0x61 + 10
  }

  predicate AllXDigits(s: seq<byte>)
  {
    forall i :: 0 <= i < |s| ==> IsXDigit(s[i])
  }

  function HexNumber(s: seq<byte>): nat
    requires AllXDigits(s)
  {
    if s == [] then 0 else HexNumber(s[..|s| - 1]) * 16 + HexValue(s[|s| - 1])
  }

  /** How many hexadecimal digits s starts with. */
  function DigitRun(s: seq<byte>): (n: nat)
    ensures n <= |s| && AllXDigits(s[..n]) && (n < |s| ==> !IsXDigit(s[n]))
  {
    if s == [] || !IsXDigit(s[0]) then 0 else 1 + DigitRun(s[1..])
  }

  lemma DigitRunUnique(s: seq<byte>, n: nat)
    requires n < |s| && AllXDigits(s[..n]) && !IsXDigit(s[n])
    ensures DigitRun(s) == n
  {
  }

  predicate LineEndAt(s: seq<byte>, i: nat)
  {
    i + 2 <= |s| && s[i] == CR && s[i + 1] == LF
  }

  /** One fully buffered chunk: the bytes it takes and where its data lies. */
  datatype Chunk = Chunk(total: nat, start: nat, len: nat)

  function ParseChunk(s: seq<byte>): (r: Option<Chunk>)
    ensures r.Some? ==> 3 <= r.value.start && r.value.start + r.value.len + 2 == r.value.total <= |s|
  {
    var i := DigitRun(s);
    if i == 0 || !LineEndAt(s, i) then None
    else
      var n := HexNumber(s[..i]) % WORD;
      if i + 4 + n >= WORD || !LineEndAt(s, i + 2 + n) then None else Some(Chunk(i + 4 + n, i + 2, n))
  }

  /** A size whose end wraps around to the line end behind the digits, or to the two bytes before them: the source
      then moves 2^64 - 2 bytes, or looks before the chunk. Every other wrapped end is that of an incomplete chunk. */
  predicate Wraps(s: seq<byte>)
  {
    var i := DigitRun(s);
    && i != 0 && LineEndAt(s, i)
    && var n := HexNumber(s[..i]) % WORD;
       n == WORD - 2 || WORD - 2 <= i + 2 + n < WORD
  }

  function ChunkData(s: seq<byte>, c: Chunk): seq<byte>
    requires c.start + c.len <= |s|
  {
    s[c.start..c.start + c.len]
  }

  /** What a byte stream decodes to: the data of its complete chunks, up to the zero chunk, and what is left. */
  datatype Decoded = Decoded(data: seq<byte>, rest: seq<byte>, zero: bool)

  function Decode(s: seq<byte>): (r: Decoded)
    ensures |r.data| + |r.rest| <= |s|
    ensures r.zero || r.data != [] ==> |r.data| + |r.rest| < |s|
    ensures !r.zero && r.data == [] ==> r.rest == s
    decreases |s|
  {
    match ParseChunk(s)
    case None => Decoded([], s, false)
    case Some(c) =>
      if c.len == 0 then Decoded([], s[c.total..], true)
      else
        var r := Decode(s[c.total..]);
        r.(data := ChunkData(s, c) + r.data)
  }

  /** Decoding comes to a size that wraps. */
  predicate Lost(r: Decoded)
  {
    !r.zero && Wraps(r.rest)
  }

  lemma WrapsIsLost(s: seq<byte>)
    ensures Wraps(s) ==> Decode(s) == Decoded([], s, false) && Lost(Decode(s))
  {
    hide HexNumber;
  }

  // ----- decoding in pieces -----

  lemma ParseExtends(s: seq<byte>, x: seq<byte>)
    requires ParseChunk(s).Some?
    ensures ParseChunk(s + x) == ParseChunk(s)
    ensures var c := ParseChunk(s).value;
            ChunkData(s + x, c) == ChunkData(s, c) && (s + x)[c.total..] == s[c.total..] + x
  {
    var i := DigitRun(s);
    assert (s + x)[..i] == s[..i];
    DigitRunUnique(s + x, i);
  }

  /** Decoding what has arrived, and then the rest of it with what arrives later, is decoding it all at once. */
  lemma {:induction false} DecodeExtends(s: seq<byte>, x: seq<byte>)
    ensures Decode(s).zero ==> Decode(s + x) == Decoded(Decode(s).data, Decode(s).rest + x, true)
    ensures !Decode(s).zero ==>
              var q := Decode(Decode(s).rest + x);
              Decode(s + x) == Decoded(Decode(s).data + q.data, q.rest, q.zero)
    decreases |s|
  {
    hide Decode, ParseChunk, ChunkData;
    DecodeOnce(s);
    match ParseChunk(s)
    case None =>
    case Some(c) =>
      ParseExtends(s, x);
      DecodeOnce(s + x);
      if c.len != 0 {
        DecodeExtends(s[c.total..], x);
        var r := Decode(s[c.total..]);
        if !r.zero {
          var q := Decode(r.rest + x);
          assert (ChunkData(s, c) + r.data) + q.data == ChunkData(s, c) + (r.data + q.data);
        }
      }
  }

  /** What is lost stays lost. */
  lemma LostStays(s: seq<byte>, x: seq<byte>)
    requires Lost(Decode(s))
    ensures Lost(Decode(s + x))
  {
    hide Decode;
    var rest := Decode(s).rest;
    DecodeExtends(s, x);
    WrapExtends(rest, x);
    WrapsIsLost(rest + x);
  }

  lemma WrapExtends(s: seq<byte>, x: seq<byte>)
    requires Wraps(s)
    ensures Wraps(s + x)
  {
    var i := DigitRun(s);
    assert (s + x)[..i] == s[..i];
    DigitRunUnique(s + x, i);
  }

  lemma DecodeOnce(s: seq<byte>)
    ensures ParseChunk(s).None? ==> Decode(s) == Decoded([], s, false)
    ensures ParseChunk(s).Some? ==>
              var c := ParseChunk(s).value;
              var r := Decode(s[c.total..]);
              Decode(s) == if c.len == 0 then Decoded([], s[c.total..], true)
                           else Decoded(ChunkData(s, c) + r.data, r.rest, r.zero)
  {
    hide ParseChunk, ChunkData;
  }

  // ----- what senders produce -----

  /** A chunk whose size is spelled by these digits. */
  function WireChunk(digits: seq<byte>, data: seq<byte>): seq<byte>
  {
    digits + [CR, LF] + data + [CR, LF]
  }

  /** The digits spell the size of the data, as a word, of a chunk that can be counted in one. */
  predicate SpellsSize(digits: seq<byte>, data: seq<byte>)
  {
    digits != [] && AllXDigits(digits) && HexNumber(digits) % WORD == |data| && |WireChunk(digits, data)| < WORD
  }

  lemma ChunkRoundTrip(digits: seq<byte>, data: seq<byte>, more: seq<byte>)
    requires SpellsSize(digits, data)
    ensures var s := WireChunk(digits, data) + more;
            && ParseChunk(s) == Some(Chunk(|digits| + 4 + |data|, |digits| + 2, |data|))
            && ChunkData(s, ParseChunk(s).value) == data
            && s[|digits| + 4 + |data|..] == more
  {
    var s := WireChunk(digits, data) + more;
    assert s[..|digits|] == digits;
    DigitRunUnique(s, |digits|);
  }

  /** A body: non-empty chunks, then the zero chunk. */
  function WireBody(chunks: seq<(seq<byte>, seq<byte>)>, zero: seq<byte>): seq<byte>
  {
    if chunks == [] then WireChunk(zero, [])
    else WireChunk(chunks[0].0, chunks[0].1) + WireBody(chunks[1..], zero)
  }

  function BodyData(chunks: seq<(seq<byte>, seq<byte>)>): seq<byte>
  {
    if chunks == [] then [] else chunks[0].1 + BodyData(chunks[1..])
  }

  lemma {:induction false} BodyRoundTrip(chunks: seq<(seq<byte>, seq<byte>)>, zero: seq<byte>, more: seq<byte>)
    requires forall i :: 0 <= i < |chunks| ==> SpellsSize(chunks[i].0, chunks[i].1) && chunks[i].1 != []
    requires SpellsSize(zero, [])
    ensures Decode(WireBody(chunks, zero) + more) == Decoded(BodyData(chunks), more, true)
  {
    if chunks == [] {
      ChunkRoundTrip(zero, [], more);
    } else {
      var rest := WireBody(chunks[1..], zero) + more;
      assert WireBody(chunks, zero) + more == WireChunk(chunks[0].0, chunks[0].1) + rest;
      assert SpellsSize(chunks[0].0, chunks[0].1) && chunks[0].1 != [];
      ChunkRoundTrip(chunks[0].0, chunks[0].1, rest);
      BodyRoundTrip(chunks[1..], zero, more);
    }
  }

  // ----- sizes as they are printed -----

  /** "0123456789abcdef" and "0123456789ABCDEF" */
  const DIGITS: seq<byte> :=
    [0x30, 0x31, 0x32, 0x33, 0x34, 0x35, 0x36, 0x37, 0x38, 0x39, 0x61, 0x62, 0x63, 0x64, 0x65, 0x66]

  const CAPITALS: seq<byte> :=
    [0x30, 0x31, 0x32, 0x33, 0x34, 0x35, 0x36, 0x37, 0x38, 0x39, 0x41, 0x42, 0x43, 0x44, 0x45, 0x46]

  /** The digits are those of the two alphabets, and each counts what its place there is. */
  lemma DigitTable(c: byte, v: nat)
    requires v < 16
    ensures IsXDigit(c) <==> c in DIGITS || c in CAPITALS
    ensures HexValue(DIGITS[v]) == v && HexValue(CAPITALS[v]) == v
  {
    if IsXDigit(c) {
      assert DIGITS[HexValue(c)] == c || CAPITALS[HexValue(c)] == c;
    }
  }

  /** A digit as `%x` or `%X` prints it. */
  function HexDigit(v: nat, lower: bool): (c: byte)
    requires v < 16
    ensures IsXDigit(c) && HexValue(c) == v
  {
    if lower then DIGITS[v] else CAPITALS[v]
  }

  /** A number as `%lx` or `%lX` prints it. */
  function HexText(n: nat, lower: bool): (s: seq<byte>)
    ensures s != [] && AllXDigits(s) && HexNumber(s) == n
  {
    var front, digit := if n < 16 then [] else HexText(n / 16, lower), HexDigit(n % 16, lower);
    OneMore(front, digit);
    front + [digit]
  }

  lemma OneMore(s: seq<byte>, c: byte)
    requires AllXDigits(s) && IsXDigit(c)
    ensures AllXDigits(s + [c]) && HexNumber(s + [c]) == HexNumber(s) * 16 + HexValue(c)
  {
    assert (s + [c])[..|s|] == s;
  }

  /** Zeros in front of a number change nothing. */
  lemma {:induction false} LeadingZeros(z: nat, s: seq<byte>)
    requires AllXDigits(s)
    ensures AllXDigits(Repeat(0x30, z) + s) && HexNumber(Repeat(0x30, z) + s) == HexNumber(s)
    decreases z + |s|
  {
    var t := Repeat(0x30, z) + s;
    if s != [] {
      LeadingZeros(z, s[..|s| - 1]);
      assert t[..|t| - 1] == Repeat(0x30, z) + s[..|s| - 1];
    } else if z > 0 {
      LeadingZeros(z - 1, []);
      assert t[..|t| - 1] == Repeat(0x30, z - 1) + [];
    } else {
      assert t == s;
    }
  }

  /** Nor does the case of its letters. */
  lemma {:induction false} CaseOfDigits(s: seq<byte>, t: seq<byte>)
    requires AllXDigits(s) && SameLetters(s, t)
    ensures AllXDigits(t) && HexNumber(t) == HexNumber(s)
    decreases |s|
  {
    if s != [] {
      var n := |s| - 1;
      assert AllXDigits(s[..n]) && SameLetters(s[..n], t[..n]);
      CaseOfDigits(s[..n], t[..n]);
      assert SameLetter(s[n], t[n]) && t == t[..n] + [t[n]];
    }
  }

  /** A chunk as it is sent: its size printed in either case, with any number of zeros in front. */
  datatype Printed = Printed(data: seq<byte>, lower: bool, zeros: nat)

  function Print(c: Printed): seq<byte>
  {
    Repeat(0x30, c.zeros) + HexText(|c.data|, c.lower)
  }

  function Spell(cs: seq<Printed>): (r: seq<(seq<byte>, seq<byte>)>)
    ensures |r| == |cs| && forall i :: 0 <= i < |r| ==> r[i] == (Print(cs[i]), cs[i].data)
  {
    seq(|cs|, i requires 0 <= i < |cs| => (Print(cs[i]), cs[i].data))
  }

  lemma PrintedSpells(c: Printed)
    requires |WireChunk(Print(c), c.data)| < WORD
    ensures SpellsSize(Print(c), c.data)
  {
    hide HexText, HexNumber, Repeat;
    LeadingZeros(c.zeros, HexText(|c.data|, c.lower));
  }

  // ----- the body under reassembly, over a whole connection -----

  /**
   deleted: data the handler took with MG_F_DELETE_CHUNK; body: data in the buffer;
   tail: bytes not decoded yet; done: the zero chunk has been received.
   */
  datatype State = State(deleted: seq<byte>, body: seq<byte>, tail: seq<byte>, done: bool)

  /** Decodes what the tail holds; del says whether the handler asks for deletion when it is shown the body. */
  function OnTail(st: State, del: bool): State
  {
    var r := Decode(st.tail);
    var body := st.body + r.data;
    if r.rest == st.tail then st
    else if del then State(st.deleted + body, [], r.rest, r.zero)
    else State(st.deleted, body, r.rest, r.zero)
  }

  /** One received segment. */
  function OnSegment(st: State, segment: seq<byte>, del: bool): State
  {
    OnTail(st.(tail := st.tail + segment), del)
  }

  /** All of them; nothing is said from a size on that wraps. */
  function Run(segments: seq<seq<byte>>, dels: seq<bool>): Option<State>
    requires |segments| == |dels|
  {
    if segments == [] then Some(State([], [], [], false))
    else
      var n := |segments| - 1;
      var st := Run(segments[..n], dels[..n]);
      if st.None? || Lost(Decode(st.value.tail + segments[n])) then None
      else Some(OnSegment(st.value, segments[n], dels[n]))
  }

  /**
   However the stream is cut and whenever the handler deletes, the data taken so far
   followed by the data in the buffer is the decoding of everything received, and the bytes
   after it are those not decoded yet, unless decoding comes to a size that wraps.
   (Up to the segment that brings the zero chunk.)
   */
  lemma {:induction false} RunIsDecode(segments: seq<seq<byte>>, dels: seq<bool>)
    requires |segments| == |dels|
    requires |segments| > 0 ==> !Decode(Concat(segments[..|segments| - 1])).zero
    ensures var run, r := Run(segments, dels), Decode(Concat(segments));
            && (run.None? <==> Lost(r))
            && (run.Some? ==> var st := run.value;
                  st.deleted + st.body == r.data && st.tail == r.rest && st.done == r.zero)
    decreases |segments|
  {
    if segments != [] {
      var n := |segments| - 1;
      if n > 0 {
        NoZeroEarlier(segments[..n]);
      }
      RunIsDecode(segments[..n], dels[..n]);
      hide Decode, OnSegment, Concat, Lost;
      ConcatSplit(segments);
      var st, w := Run(segments[..n], dels[..n]), Concat(segments[..n]);
      if st.None? {
        LostStays(w, segments[n]);
      } else {
        StepIsDecode(st.value, w, segments[n], dels[n]);
      }
    }
  }

  lemma ZeroStays(w: seq<byte>, x: seq<byte>)
    requires Decode(w).zero
    ensures Decode(w + x).zero
  {
    hide Decode;
    DecodeExtends(w, x);
  }

  lemma NoZeroEarlier(parts: seq<seq<byte>>)
    requires parts != [] && !Decode(Concat(parts)).zero
    ensures !Decode(Concat(parts[..|parts| - 1])).zero
  {
    hide Decode, Concat;
    ConcatSplit(parts);
    var w, x := Concat(parts[..|parts| - 1]), parts[|parts| - 1];
    if Decode(w).zero {
      ZeroStays(w, x);
    }
  }

  lemma StepIsDecode(st: State, w: seq<byte>, segment: seq<byte>, del: bool)
    requires var r := Decode(w);
             !r.zero && !st.done && st.deleted + st.body == r.data && st.tail == r.rest
    ensures var st', r := OnSegment(st, segment, del), Decode(w + segment);
            && st'.deleted + st'.body == r.data && st'.tail == r.rest && st'.done == r.zero
            && (Lost(Decode(st.tail + segment)) <==> Lost(r))
  {
    hide ParseChunk, OnSegment, Decode, Wraps;
    DecodeExtends(w, segment);
    OnSegmentDecodes(st, segment, del);
    var q := Decode(st.tail + segment);
    assert (st.deleted + st.body) + q.data == st.deleted + (st.body + q.data);
  }

  lemma ConcatSplit(parts: seq<seq<byte>>)
    requires parts != []
    ensures Concat(parts) == Concat(parts[..|parts| - 1]) + parts[|parts| - 1]
  {
    var n := |parts| - 1;
    ConcatSnoc(parts[..n], parts[n]);
    assert parts[..n] + [parts[n]] == parts;
  }

  lemma OnSegmentDecodes(st: State, segment: seq<byte>, del: bool)
    requires !st.done
    ensures var r, st' := Decode(st.tail + segment), OnSegment(st, segment, del);
            st'.deleted + st'.body == st.deleted + (st.body + r.data) && st'.tail == r.rest && st'.done == r.zero
  {
    hide ParseChunk;
    var r := Decode(st.tail + segment);
    if r.rest == st.tail + segment {
      assert r.data == [] && !r.zero;
      assert st.body + [] == st.body;
    }
  }

  /** With the end of the data computed in a word: the source leaves its buffer exactly if that is the size's own line
      end, or so high that the two octets behind it wrap around and pass the test of the buffer's length. */
  lemma WrapsIs(s: seq<byte>)
    requires |s| < 0x8000_0000_0000_0000
    ensures var i := DigitRun(s);
            Wraps(s) <==> && i > 0 && LineEndAt(s, i)
                          && var e := (i + 2 + HexNumber(s[..i])) % 0x1_0000_0000_0000_0000;
                             e == i || e + 2 >= 0x1_0000_0000_0000_0000
  {
    var i := DigitRun(s);
    hide HexNumber, DigitRun;
    var v := HexNumber(s[..i]);
    WordEnd(i, v, v % WORD);
  }

  lemma WordEnd(i: nat, v: nat, n: nat)
    requires i < 0x8000_0000_0000_0000 && n == v % WORD
    ensures (i + 2 + v) % WORD == (i + 2 + n) % WORD
    ensures (i + 2 + n) % WORD == if i + 2 + n < WORD then i + 2 + n else i + 2 + n - WORD
  {
    var q := v / WORD;
    assert i + 2 + v == q * WORD + (i + 2 + n);
    Multiples(q, i + 2 + n);
  }

  lemma Multiples(q: nat, x: nat)
    ensures (q * WORD + x) % WORD == x % WORD
  {
    if q > 0 {
      Multiples(q - 1, x);
      assert q * WORD + x == (q - 1) * WORD + x + WORD;
    }
  }

  /** FFFFFFFFFFFFFFFE, the size 2^64 - 2, whose chunk the source takes to end in the size's own line end. */
  lemma LargestSizeWraps(rest: seq<byte>)
    ensures var s := Repeat(0x46, 15) + [0x45] + [CR, LF] + rest; Wraps(s) && Lost(Decode(s))
  {
    var f, d := Repeat(0x46, 15), Repeat(0x46, 15) + [0x45];
    RepeatedF(15);
    assert Power16(15) == 0x1000_0000_0000_0000;
    assert d[..15] == f && AllXDigits(d);
    assert HexNumber(d) == HexNumber(f) * 16 + 14;
    hide HexNumber, Repeat, Decode;
    var s := d + [CR, LF] + rest;
    assert s[..16] == d;
    DigitRunUnique(s, 16);
    WrapsIsLost(s);
  }

  lemma {:induction false} RepeatedF(n: nat)
    ensures AllXDigits(Repeat(0x46, n)) && HexNumber(Repeat(0x46, n)) + 1 == Power16(n)
  {
    if n > 0 {
      RepeatedF(n - 1);
      assert Repeat(0x46, n)[..n - 1] == Repeat(0x46, n - 1);
    }
  }

  function Power16(n: nat): nat {
    if n == 0 then 1 else 16 * Power16(n - 1)
  }

  /** A complete chunked body, cut anywhere, is handed over whole, with the bytes after it untouched. */
  lemma BodyDelivered(chunks: seq<(seq<byte>, seq<byte>)>, zero: seq<byte>, more: seq<byte>,
                      segments: seq<seq<byte>>, dels: seq<bool>)
    requires forall i :: 0 <= i < |chunks| ==> SpellsSize(chunks[i].0, chunks[i].1) && chunks[i].1 != []
    requires SpellsSize(zero, [])
    requires |segments| == |dels| > 0 && Concat(segments) == WireBody(chunks, zero) + more
    requires !Decode(Concat(segments[..|segments| - 1])).zero
    ensures var run := Run(segments, dels);
            && run.Some? && run.value.deleted + run.value.body == BodyData(chunks)
            && run.value.tail == more && run.value.done
  {
    BodyRoundTrip(chunks, zero, more);
    RunIsDecode(segments, dels);
  }

  /** The same for a body whose sizes are printed, in either case, with zeros in front or not. */
  lemma PrintedBodyDelivered(cs: seq<Printed>, zeros: nat, more: seq<byte>, segments: seq<seq<byte>>, dels: seq<bool>)
    requires forall i :: 0 <= i < |cs| ==> cs[i].data != [] && |WireChunk(Print(cs[i]), cs[i].data)| < WORD
    requires zeros + 5 < WORD
    requires |segments| == |dels| > 0
    requires Concat(segments) == WireBody(Spell(cs), Repeat(0x30, zeros) + [0x30]) + more
    requires !Decode(Concat(segments[..|segments| - 1])).zero
    ensures var run := Run(segments, dels);
            && run.Some? && run.value.deleted + run.value.body == BodyData(Spell(cs))
            && run.value.tail == more && run.value.done
  {
    hide Decode, Print, Repeat, HexNumber, HexText, WireBody, SpellsSize;
    var last := Printed([], false, zeros);
    ZeroPrinted(zeros);
    PrintedSpells(last);
    forall i | 0 <= i < |cs|
      ensures SpellsSize(Print(cs[i]), cs[i].data)
    {
      PrintedSpells(cs[i]);
    }
    BodyDelivered(Spell(cs), Repeat(0x30, zeros) + [0x30], more, segments, dels);
  }

  lemma ZeroPrinted(zeros: nat)
    ensures Print(Printed([], false, zeros)) == Repeat(0x30, zeros) + [0x30]
    ensures |WireChunk(Print(Printed([], false, zeros)), [])| == zeros + 5
  {
    assert HexText(0, false) == [0x30];
  }

  /** "a" is ten octets, and "A" too. */
  lemma TenOctets(data: seq<byte>, more: seq<byte>, size: byte)
    requires |data| == 10 && size in {0x61, 0x41}
    ensures var s := [size] + [0x0d, 0x0a] + data + [0x0d, 0x0a] + more;
            ParseChunk(s) == Some(Chunk(15, 3, 10)) && Decode(s).data == data + Decode(more).data
  {
    OneDigit(size);
    hide ParseChunk, Decode, HexNumber, HexText;
    ChunkRoundTrip([size], data, more);
    assert WireChunk([size], data) == [size] + [0x0d, 0x0a] + data + [0x0d, 0x0a];
    DecodeOnce(WireChunk([size], data) + more);
  }

  lemma OneDigit(c: byte)
    requires IsXDigit(c)
    ensures AllXDigits([c]) && HexNumber([c]) == HexValue(c)
  {
    OneMore([], c);
    assert [] + [c] == [c];
  }

  /** The last chunk, in octets. */
  lemma LastChunk(more: seq<byte>)
    ensures Decode([0x30, 0x0d, 0x0a, 0x0d, 0x0a] + more) == Decoded([], more, true)
  {
    OneDigit(0x30);
    hide ParseChunk, Decode, HexNumber, HexText;
    ChunkRoundTrip([0x30], [], more);
    assert WireChunk([0x30], []) == [0x30, 0x0d, 0x0a, 0x0d, 0x0a];
    DecodeOnce(WireChunk([0x30], []) + more);
  }
}
