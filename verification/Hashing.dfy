/**
 Incremental hashing: buffering, bit counting and padding around a block transform
 that is left abstract, for SHA-1 (section 5.1.1 of FIPS 180-4) and MD5 (sections 3.1 and 3.2
 of RFC 1321).
 */
module Hashing {
  import opened Bytes

  const BLOCK := 64
  const WORD32 := 0x1_0000_0000
  const WORD64 := 0x1_0000_0000_0000_0000

  /** The state after the whole blocks of data. */
  ghost function Absorb<S>(transform: (S, seq<byte>) -> S, s: S, data: seq<byte>): S
    decreases |data|
  {
    if |data| < BLOCK then s else Absorb(transform, transform(s, data[..BLOCK]), data[BLOCK..])
  }

  /** What is left of data behind its whole blocks. */
  function Leftover(data: seq<byte>): (r: seq<byte>)
    ensures |r| == |data| % BLOCK
  {
    data[|data| - |data| % BLOCK..]
  }

  /** More data after some: the blocks of what was left over and the new data. */
  lemma {:induction false} AbsorbMore<S>(transform: (S, seq<byte>) -> S, s: S, data: seq<byte>, more: seq<byte>)
    ensures Absorb(transform, s, data + more)
            == Absorb(transform, Absorb(transform, s, data), Leftover(data) + more)
    ensures Leftover(data + more) == Leftover(Leftover(data) + more)
    decreases |data|
  {
    if |data| < BLOCK {
      assert Leftover(data) == data;
    } else {
      var rest := data[BLOCK..];
      AbsorbMore(transform, transform(s, data[..BLOCK]), rest, more);
      assert (data + more)[..BLOCK] == data[..BLOCK] && (data + more)[BLOCK..] == rest + more;
      LeftoverTail(data);
      LeftoverTail(data + more);
    }
  }

  lemma LeftoverTail(data: seq<byte>)
    requires |data| >= BLOCK
    ensures Leftover(data) == Leftover(data[BLOCK..])
  {
    assert |data[BLOCK..]| % BLOCK == |data| % BLOCK;
  }

  // ----- the bit counter: two 32-bit words with a carry -----

  function Counter(lo: nat, hi: nat): nat { hi * WORD32 + lo }

  /** Adding the bits of n bytes: the low word wraps, and its carry and the bits above it go to the high word. */
  function AddLow(lo: nat, n: nat): (r: nat)
    ensures r < WORD32
  {
    (lo + n * 8 % WORD32) % WORD32
  }

  function AddHigh(lo: nat, hi: nat, n: nat): (r: nat)
    ensures r < WORD32
  {
    ((if AddLow(lo, n) < lo then (hi + 1) % WORD32 else hi) + n / 0x2000_0000) % WORD32
  }

  lemma CounterAdds(lo: nat, hi: nat, n: nat)
    requires lo < WORD32 && hi < WORD32 && n < WORD32
    ensures Counter(AddLow(lo, n), AddHigh(lo, hi, n)) == (Counter(lo, hi) + 8 * n) % WORD64
  {
    var up, low := n / 0x2000_0000, n * 8 % WORD32;
    BitsOf(n);
    LowWraps(lo, low);
    var carry := if lo + low >= WORD32 then 1 else 0;
    assert AddLow(lo, n) == lo + low - carry * WORD32;
    var total := hi + carry + up;
    HighWraps(hi, carry, up);
    assert Counter(lo, hi) + 8 * n == total * WORD32 + AddLow(lo, n);
    hide AddLow;
    WrapHigh(total, AddLow(lo, n));
  }

  lemma BitsOf(n: nat)
    requires n < WORD32
    ensures n * 8 == n / 0x2000_0000 * WORD32 + n * 8 % WORD32
  {
  }

  lemma LowWraps(lo: nat, low: nat)
    requires lo < WORD32 && low < WORD32
    ensures (lo + low) % WORD32 == if lo + low >= WORD32 then lo + low - WORD32 else lo + low
  {
  }

  lemma HighWraps(hi: nat, carry: nat, up: nat)
    requires hi < WORD32 && carry <= 1
    ensures ((if carry == 1 then (hi + 1) % WORD32 else hi) + up) % WORD32 == (hi + carry + up) % WORD32
  {
  }

  lemma WrapHigh(high: nat, low: nat)
    requires low < WORD32
    ensures (high * WORD32 + low) % WORD64 == high % WORD32 * WORD32 + low
  {
    var q := high / WORD32;
    assert high * WORD32 + low == q * WORD64 + (high % WORD32 * WORD32 + low);
  }

  /** The low word tells where in a block the next byte goes. */
  lemma CounterPosition(lo: nat, hi: nat, n: nat)
    requires lo < WORD32 && Counter(lo, hi) == 8 * n % WORD64
    ensures lo / 8 % BLOCK == n % BLOCK && lo % 8 == 0
  {
    var q := 8 * n / WORD64;
    assert 8 * n == q * WORD64 + hi * WORD32 + lo;
    var m := n - q * 0x2000_0000_0000_0000 - hi * 0x2000_0000;
    assert lo == 8 * m;
    Multiples(m, q * 0x80_0000_0000_0000 + hi * 0x80_0000);
  }

  lemma Multiples(m: nat, blocks: nat)
    ensures (m + BLOCK * blocks) % BLOCK == m % BLOCK && 8 * m / 8 == m
  {
  }

  // ----- padding -----

  function Zeros(n: nat): (r: seq<byte>)
    ensures |r| == n
  {
    Repeat(0, n)
  }

  /** The fewest zeros that leave eight bytes to the end of a block behind n bytes and the end marker. */
  function PadZeros(n: nat): (k: nat)
    ensures (n + 1 + k) % BLOCK == BLOCK - 8 && k < BLOCK
  {
    (119 - n % BLOCK) % BLOCK
  }

  function Padding(zeros: nat, length: seq<byte>): seq<byte>
  {
    [0x80] + Zeros(zeros) + length
  }

  /** The message, a one bit, zeros, and the bit length in eight bytes. */
  function Padded(msg: seq<byte>, length: seq<byte>): (r: seq<byte>)
    requires |length| == 8
    ensures |r| % BLOCK == 0
  {
    msg + Padding(PadZeros(|msg|), length)
  }

  function BE64(n: nat): seq<byte>
    requires n < WORD64
  {
    BE32(n / WORD32) + BE32(n % WORD32)
  }

  function LE64(n: nat): seq<byte>
    requires n < WORD64
  {
    LE32(n % WORD32) + LE32(n / WORD32)
  }

  lemma CounterBytes(lo: nat, hi: nat)
    requires lo < WORD32 && hi < WORD32
    ensures Counter(lo, hi) < WORD64
    ensures BE64(Counter(lo, hi)) == BE32(hi) + BE32(lo) && LE64(Counter(lo, hi)) == LE32(lo) + LE32(hi)
  {
    assert (hi * WORD32 + lo) / WORD32 == hi && (hi * WORD32 + lo) % WORD32 == lo;
  }

  /** The words of the counter after an update count the bits of the longer message. */
  lemma Added(lo: nat, hi: nat, n: nat, lo': nat, hi': nat, was: nat)
    requires lo < WORD32 && hi < WORD32 && n < WORD32
    requires lo' == (lo + n * 8 % WORD32) % WORD32
    requires hi' == ((if lo' < lo then (hi + 1) % WORD32 else hi) + n / 0x2000_0000) % WORD32
    requires Counter(lo, hi) == 8 * was % WORD64
    ensures Counter(lo', hi') == 8 * (was + n) % WORD64
  {
    CounterAdds(lo, hi, n);
    var q := 8 * was / WORD64;
    assert 8 * (was + n) == q * WORD64 + (Counter(lo, hi) + 8 * n);
    hide Counter;
    ModShift(q, Counter(lo, hi) + 8 * n);
  }

  lemma ModShift(q: nat, x: nat)
    ensures (q * WORD64 + x) % WORD64 == x % WORD64
  {
  }

  lemma SameLeftover(a: nat, b: nat)
    ensures (a + b) % BLOCK == (a % BLOCK + b) % BLOCK
  {
  }

  lemma FirstBlock<S>(transform: (S, seq<byte>) -> S, s: S, part: seq<byte>, data: seq<byte>, block: seq<byte>)
    requires |part| < BLOCK <= |part| + |data| && |block| == BLOCK
    requires block[..|part|] == part && block[|part|..] == data[..BLOCK - |part|]
    ensures Absorb(transform, s, part + data) == Absorb(transform, transform(s, block), data[BLOCK - |part|..])
    ensures Leftover(part + data) == Leftover(data[BLOCK - |part|..])
  {
    hide Leftover;
    var all := part + data;
    assert all[..BLOCK] == block && all[BLOCK..] == data[BLOCK - |part|..];
    LeftoverTail(all);
  }

  lemma NextBlock<S>(transform: (S, seq<byte>) -> S, s: S, data: seq<byte>, i: nat)
    requires i + BLOCK <= |data|
    ensures Absorb(transform, s, data[i..]) == Absorb(transform, transform(s, data[i..i + BLOCK]), data[i + BLOCK..])
    ensures Leftover(data[i..]) == Leftover(data[i + BLOCK..])
  {
    var rest := data[i..];
    SliceOfTail(data, i, 0, BLOCK);
    assert rest[..BLOCK] == data[i..i + BLOCK] && rest[BLOCK..] == data[i + BLOCK..];
    LeftoverTail(rest);
    hide Leftover;
  }

  lemma LastPart<S>(transform: (S, seq<byte>) -> S, s: S, rest: seq<byte>)
    requires |rest| < BLOCK
    ensures Absorb(transform, s, rest) == s && Leftover(rest) == rest
  {
    ShortLeftover(rest);
    hide Leftover;
  }

  lemma ShortLeftover(rest: seq<byte>)
    requires |rest| < BLOCK
    ensures Leftover(rest) == rest
  {
    assert |rest| % BLOCK == |rest|;
    assert rest[0..] == rest;
  }

  lemma ZerosLeft(n: nat, k: nat)
    requires k <= PadZeros(n) && (n + 1 + k) % BLOCK != 56
    ensures k < PadZeros(n)
  {
  }

  lemma ZerosDone(n: nat, k: nat)
    requires k <= PadZeros(n) && (n + 1 + k) % BLOCK == 56
    ensures k == PadZeros(n)
  {
    var d := PadZeros(n) - k;
    assert d % BLOCK == 0;
  }

  // ----- the block buffer, shared by both hashes -----

  /** memcpy into the block buffer, which holds part in front of the copied bytes. */
  method Buffer(buffer: array<byte>, j: nat, s: seq<byte>)
    requires buffer.Length == BLOCK && j + |s| <= BLOCK
    modifies buffer
    ensures buffer[..][..j + |s|] == old(buffer[..])[..j] + s
  {
    MemCpy(buffer, j, s);
    ghost var was := old(buffer[..]);
    assert was[..j] + s + was[j + |s|..] == (was[..j] + s) + was[j + |s|..];
  }

  /** Whole blocks straight from the data, from i on. */
  method Blocks<S>(transform: (S, seq<byte>) -> S, s0: S, data: seq<byte>, i0: nat) returns (s: S, i: nat)
    requires i0 <= |data|
    ensures i0 <= i <= |data| && |data| - i == (|data| - i0) % BLOCK
    ensures s == Absorb(transform, s0, data[i0..]) && data[i..] == Leftover(data[i0..])
  {
    hide Absorb, Leftover;
    s, i := s0, i0;
    while i + BLOCK - 1 < |data|
      invariant i0 <= i <= |data|
      invariant (|data| - i) % BLOCK == (|data| - i0) % BLOCK
      invariant Absorb(transform, s0, data[i0..]) == Absorb(transform, s, data[i..])
      invariant Leftover(data[i0..]) == Leftover(data[i..])
      decreases |data| - i
    {
      NextBlock(transform, s, data, i);
      s := transform(s, data[i..i + BLOCK]);
      i := i + BLOCK;
    }
    LastPart(transform, s, data[i..]);
  }

  // ----- SHA-1 -----

  class Sha1<S> {
    const transform: (S, seq<byte>) -> S
    const init: S
    var state: S
    var count0: nat  // low word of the bit count
    var count1: nat
    const buffer: array<byte>
    ghost var msg: seq<byte>  // everything hashed so far

    ghost predicate Valid()
      reads this, buffer
    {
      && buffer.Length == BLOCK && count0 < WORD32 && count1 < WORD32
      && Counter(count0, count1) == 8 * |msg| % WORD64
      && state == Absorb(transform, init, msg)
      && buffer[..][..|msg| % BLOCK] == Leftover(msg)
    }

    constructor (transform: (S, seq<byte>) -> S, init: S)
      ensures Valid() && fresh(buffer) && msg == [] && this.transform == transform && this.init == init
    {
      this.transform, this.init, state := transform, init, init;
      count0, count1, buffer, msg := 0, 0, new byte[BLOCK], [];
    }

    /** Hashes more data; its length and the bytes buffered together fit a 32-bit word, see BlockTest. */
    method Update(data: seq<byte>)
      requires Valid() && |msg| % BLOCK + |data| < WORD32
      modifies this`state, this`count0, this`count1, this`msg, buffer
      ensures Valid() && msg == old(msg) + data
    {
      hide Absorb, Leftover, AddLow, AddHigh, Counter;
      var len := |data|;
      CounterPosition(count0, count1, |msg|);
      var j := count0;
      ghost var hi := count1;
      count0 := (count0 + len * 8 % WORD32) % WORD32;
      if count0 < j {
        count1 := (count1 + 1) % WORD32;
      }
      count1 := (count1 + len / 0x2000_0000) % WORD32;
      Added(j, hi, len, count0, count1, |msg|);
      j := j / 8 % BLOCK;
      state := Feed(data, j);
      AbsorbMore(transform, init, msg, data);
      SameLeftover(|msg|, len);
      msg := msg + data;
    }

    /** Completes the buffered block, takes whole blocks straight from the data, and buffers the rest. */
    method Feed(data: seq<byte>, j: nat) returns (s: S)
      requires buffer.Length == BLOCK && j < BLOCK && j + |data| < WORD32
      modifies buffer
      ensures s == Absorb(transform, state, old(buffer[..])[..j] + data)
      ensures buffer[..][..(j + |data|) % BLOCK] == Leftover(old(buffer[..])[..j] + data)
    {
      hide Absorb, Leftover;
      ghost var part := buffer[..][..j];
      if (j + |data|) % WORD32 > BLOCK - 1 {
        var i := BLOCK - j;
        Buffer(buffer, j, data[..i]);
        FirstBlock(transform, state, part, data, buffer[..]);
        SameLeftover(BLOCK, |data| - i);
        s := transform(state, buffer[..]);
        s, i := Blocks(transform, s, data, i);
        Buffer(buffer, 0, data[i..]);
      } else {
        Buffer(buffer, j, data);
        s := state;
        LastPart(transform, s, part + data);
      }
    }

    /** Pads: the state is then what the blocks of the padded message make of init. */
    method Final()
      requires Valid()
      modifies this`state, this`count0, this`count1, this`msg, buffer
      ensures state == Absorb(transform, init, Padded(old(msg), BE64(8 * |old(msg)| % WORD64)))
    {
      hide Absorb, Leftover, Counter;
      ghost var was := msg;
      CounterBytes(count0, count1);
      var finalcount := BE32(count1) + BE32(count0);
      Update([0x80]);
      ghost var k := 0;
      CounterPosition(count0, count1, |msg|);
      assert msg == was + [0x80] + Zeros(0);
      while count0 / 8 % BLOCK != 56
        invariant Valid() && k <= PadZeros(|was|) && msg == was + [0x80] + Zeros(k)
        invariant count0 / 8 % BLOCK == |msg| % BLOCK
        decreases PadZeros(|was|) - k
      {
        ZerosLeft(|was|, k);
        Update([0]);
        k := k + 1;
        assert Zeros(k - 1) + [0] == Zeros(k);
        CounterPosition(count0, count1, |msg|);
      }
      ZerosDone(|was|, k);
      Update(finalcount);
      assert msg == was + ([0x80] + Zeros(k) + finalcount);
    }
  }

  /** The test for a whole block, on 32-bit words, is right exactly where the sum fits. Where it does not, the source
      copies all of the data into what is left of the block. */
  lemma BlockTest(j: nat, len: nat)
    requires j < BLOCK && len < WORD32
    ensures ((j + len) % WORD32 > BLOCK - 1 <==> j + len > BLOCK - 1) <==> j + len < WORD32
  {
    if j + len >= WORD32 {
      assert (j + len) % WORD32 == j + len - WORD32;
    }
  }

  /** A length passed as a 32-bit word. */
  function Cut(part: seq<byte>): seq<byte> {
    part[..|part| % WORD32]
  }

  /** What of the parts is hashed. */
  function Hashed(parts: seq<seq<byte>>): seq<byte> {
    if parts == [] then [] else Cut(parts[0]) + Hashed(parts[1..])
  }

  lemma {:induction false} HashedSnoc(parts: seq<seq<byte>>, i: nat)
    requires i < |parts|
    ensures Hashed(parts[..i + 1]) == Hashed(parts[..i]) + Cut(parts[i])
    decreases i
  {
    hide Cut;
    assert parts[..i + 1][1..] == parts[1..][..i];
    if i > 0 {
      HashedSnoc(parts[1..], i - 1);
      assert parts[..i][1..] == parts[1..][..i - 1];
    }
  }

  /** All of the parts is hashed exactly if their lengths fit 32 bits. */
  lemma {:induction false} HashedWhole(parts: seq<seq<byte>>)
    ensures Hashed(parts) == Concat(parts) <==> forall i :: 0 <= i < |parts| ==> |parts[i]| < WORD32
    ensures |Hashed(parts)| <= |Concat(parts)|
  {
    if parts != [] {
      HashedWhole(parts[1..]);
      var p, rest := parts[0], parts[1..];
      assert forall i :: 0 <= i < |rest| ==> rest[i] == parts[i + 1];
      if |p| < WORD32 {
        assert Cut(p) == p;
        assert Concat(parts)[|p|..] == Concat(rest) && Hashed(parts)[|p|..] == Hashed(rest);
        assert forall i :: 0 < i < |parts| ==> parts[i] == rest[i - 1];
      } else {
        assert |Cut(p)| < WORD32 <= |p|;
      }
    }
  }

  /** Hashing a message handed over in parts: the cut does not matter, and the lengths count as 32-bit words. */
  method Sha1Digest<S>(transform: (S, seq<byte>) -> S, init: S, parts: seq<seq<byte>>) returns (digest: S)
    requires forall i :: 0 <= i < |parts| ==> |Hashed(parts[..i])| % BLOCK + |Cut(parts[i])| < WORD32
    ensures digest == Absorb(transform, init, Padded(Hashed(parts), BE64(8 * |Hashed(parts)| % WORD64)))
  {
    hide Absorb, Leftover, Counter, Padded, BE64, Cut;
    var ctx := new Sha1<S>(transform, init);
    var i := 0;
    while i < |parts|
      invariant i <= |parts| && ctx.Valid() && fresh(ctx) && fresh(ctx.buffer)
      invariant ctx.transform == transform && ctx.init == init && ctx.msg == Hashed(parts[..i])
    {
      ctx.Update(Cut(parts[i]));
      HashedSnoc(parts, i);
      i := i + 1;
    }
    assert parts[..i] == parts;
    ctx.Final();
    digest := ctx.state;
  }

  // ----- MD5 -----

  class Md5<S> {
    const transform: (S, seq<byte>) -> S
    const init: S
    var buf: S
    var bits0: nat  // low word of the bit count
    var bits1: nat
    const block: array<byte>
    ghost var msg: seq<byte>  // everything hashed so far
    ghost var counted: nat    // the bytes of it that the counter has seen

    ghost predicate Valid()
      reads this, block
    {
      && block.Length == BLOCK && bits0 < WORD32 && bits1 < WORD32
      && Counter(bits0, bits1) == 8 * counted % WORD64 && counted % BLOCK == |msg| % BLOCK
      && buf == Absorb(transform, init, msg)
      && block[..][..|msg| % BLOCK] == Leftover(msg)
    }

    constructor (transform: (S, seq<byte>) -> S, init: S)
      ensures Valid() && fresh(block) && msg == [] && counted == 0 && this.transform == transform && this.init == init
    {
      this.transform, this.init, buf := transform, init, init;
      bits0, bits1, block, msg, counted := 0, 0, new byte[BLOCK], [], 0;
    }

    /** Hashes more data; the counter takes the low 32 bits of its length. */
    method Update(data: seq<byte>)
      requires Valid()
      modifies this`buf, this`bits0, this`bits1, this`msg, this`counted, block
      ensures Valid() && msg == old(msg) + data && counted == old(counted) + |data| % WORD32
    {
      hide Absorb, Leftover, AddLow, AddHigh, Counter;
      var len := |data|;
      CounterPosition(bits0, bits1, counted);
      var t := bits0;
      ghost var hi := bits1;
      bits0 := (t + len % WORD32 * 8 % WORD32) % WORD32;
      if bits0 < t {
        bits1 := (bits1 + 1) % WORD32;
      }
      bits1 := (bits1 + len % WORD32 / 0x2000_0000) % WORD32;
      Added(t, hi, len % WORD32, bits0, bits1, counted);
      SamePosition(counted, |msg|, len);
      t := t / 8 % BLOCK;
      buf := Feed(data, t);
      AbsorbMore(transform, init, msg, data);
      SameLeftover(|msg|, len);
      counted := counted + len % WORD32;
      msg := msg + data;
    }

    method Feed(data: seq<byte>, t: nat) returns (s: S)
      requires block.Length == BLOCK && t < BLOCK
      modifies block
      ensures s == Absorb(transform, buf, old(block[..])[..t] + data)
      ensures block[..][..(t + |data|) % BLOCK] == Leftover(old(block[..])[..t] + data)
    {
      hide Absorb, Leftover;
      ghost var part := block[..][..t];
      var i := 0;
      s := buf;
      if t != 0 {
        i := BLOCK - t;
        if |data| < i {
          Buffer(block, t, data);
          LastPart(transform, s, part + data);
          return;
        }
        Buffer(block, t, data[..i]);
        FirstBlock(transform, s, part, data, block[..]);
        s := transform(s, block[..]);
        SameLeftover(BLOCK, |data| - i);
      } else {
        ConcatParts(part, data);
        assert data[0..] == data;
      }
      s, i := Blocks(transform, s, data, i);
      Buffer(block, 0, data[i..]);
    }

    /** Pads in the block itself, in two blocks where the length no longer fits. */
    method Final()
      requires Valid()
      modifies this`buf, block
      ensures buf == Absorb(transform, init, Padded(msg, LE64(8 * counted % WORD64)))
    {
      hide Absorb, Leftover, Counter, LE64, PadZeros, Padding, Padded;
      CounterPosition(bits0, bits1, counted);
      CounterBytes(bits0, bits1);
      var count := bits0 / 8 % BLOCK;
      PaddingAbsorbed(transform, init, msg, LE64(8 * counted % WORD64));
      PadZerosIs(|msg|);
      Buffer(block, count, [0x80]);
      if BLOCK - 1 - count < 8 {
        PadTwo(count, LE32(bits0) + LE32(bits1), Leftover(msg));
      } else {
        PadOne(count, LE32(bits0) + LE32(bits1), Leftover(msg));
      }
    }

    method PadTwo(at: nat, length: seq<byte>, ghost part: seq<byte>)
      requires block.Length == BLOCK && |part| == at && 56 <= at < BLOCK && |length| == 8
      requires block[..][..at + 1] == part + [0x80]
      modifies this`buf, block
      ensures buf == Absorb(transform, old(buf), part + Padding(119 - at, length))
    {
      hide Absorb, Padding;
      ghost var state := buf;
      Fill(block, at + 1, BLOCK - 1 - at);
      ghost var first := block[..];
      assert first == part + [0x80] + Zeros(63 - at);
      buf := transform(buf, block[..]);
      Fill(block, 0, BLOCK - 8);
      Buffer(block, BLOCK - 8, length);
      TwoBlocks(transform, state, part, 63 - at, length, first, block[..]);
      buf := transform(buf, block[..]);
    }

    method PadOne(at: nat, length: seq<byte>, ghost part: seq<byte>)
      requires block.Length == BLOCK && |part| == at < 56 && |length| == 8
      requires block[..][..at + 1] == part + [0x80]
      modifies this`buf, block
      ensures buf == Absorb(transform, old(buf), part + Padding(55 - at, length))
    {
      hide Absorb, Padding;
      Fill(block, at + 1, BLOCK - 1 - at - 8);
      Buffer(block, BLOCK - 8, length);
      OneBlock(transform, buf, part, 55 - at, length, block[..]);
      buf := transform(buf, block[..]);
    }
  }

  /** memset to zero behind the first j bytes of the block. */
  method Fill(block: array<byte>, j: nat, n: nat)
    requires block.Length == BLOCK && j + n <= BLOCK
    modifies block
    ensures block[..][..j + n] == old(block[..])[..j] + Zeros(n)
  {
    MemSet(block, j, 0, n);
    ghost var was := old(block[..]);
    assert was[..j] + Zeros(n) + was[j + n..] == (was[..j] + Zeros(n)) + was[j + n..];
  }

  lemma SamePosition(counted: nat, n: nat, len: nat)
    requires counted % BLOCK == n % BLOCK
    ensures (counted + len % WORD32) % BLOCK == (n + len) % BLOCK
  {
    LowBits(len);
    AddBoth(counted, len % WORD32);
    AddBoth(n, len);
  }

  lemma AddBoth(a: nat, b: nat)
    ensures (a + b) % BLOCK == (a % BLOCK + b % BLOCK) % BLOCK
  {
  }

  lemma LowBits(len: nat)
    ensures len % WORD32 % BLOCK == len % BLOCK
  {
    var q := len / WORD32;
    assert len == len % WORD32 + BLOCK * (q * 0x400_0000);
    Multiples(len % WORD32, q * 0x400_0000);
  }

  lemma ZerosSplit(m: nat, n: nat)
    ensures Zeros(m + n) == Zeros(m) + Zeros(n)
  {
  }

  lemma PadZerosIs(n: nat)
    ensures PadZeros(n) == if n % BLOCK < 56 then 55 - n % BLOCK else 119 - n % BLOCK
  {
  }

  /** The state once the padding behind a message is absorbed: the bytes left over come first. */
  lemma PaddingAbsorbed<S>(transform: (S, seq<byte>) -> S, init: S, msg: seq<byte>, length: seq<byte>)
    requires |length| == 8
    ensures Absorb(transform, init, Padded(msg, length))
            == Absorb(transform, Absorb(transform, init, msg), Leftover(msg) + Padding(PadZeros(|msg|), length))
  {
    hide Absorb, Leftover, PadZeros, Padding;
    AbsorbMore(transform, init, msg, Padding(PadZeros(|msg|), length));
  }

  lemma PaddingBehind(part: seq<byte>, zeros: nat, length: seq<byte>)
    ensures part + Padding(zeros, length) == part + [0x80] + Zeros(zeros) + length
  {
    hide Zeros;
    var z := Zeros(zeros);
    assert part + ([0x80] + z + length) == part + [0x80] + z + length;
  }

  lemma RegroupFour(a: seq<byte>, b: seq<byte>, c: seq<byte>, d: seq<byte>)
    ensures a + (b + c) + d == (a + b) + (c + d)
  {
  }

  lemma OneBlock<S>(transform: (S, seq<byte>) -> S, s: S, part: seq<byte>, zeros: nat, length: seq<byte>, block: seq<byte>)
    requires |block| == BLOCK && block == part + [0x80] + Zeros(zeros) + length
    ensures Absorb(transform, s, part + Padding(zeros, length)) == transform(s, block)
  {
    hide Absorb, Padding, Zeros;
    PaddingBehind(part, zeros, length);
    LastBlock(transform, s, block);
  }

  lemma TwoBlocks<S>(transform: (S, seq<byte>) -> S, s: S, part: seq<byte>, zeros: nat, length: seq<byte>,
                     first: seq<byte>, second: seq<byte>)
    requires |first| == BLOCK == |second|
    requires first == part + [0x80] + Zeros(zeros) && second == Zeros(56) + length
    ensures Absorb(transform, s, part + Padding(zeros + 56, length)) == transform(transform(s, first), second)
  {
    hide Absorb, Padding, Zeros;
    PaddingBehind(part, zeros + 56, length);
    ZerosSplit(zeros, 56);
    RegroupFour(part + [0x80], Zeros(zeros), Zeros(56), length);
    WholeBlock(transform, s, first, second);
    LastBlock(transform, transform(s, first), second);
  }

  lemma WholeBlock<S>(transform: (S, seq<byte>) -> S, s: S, block: seq<byte>, rest: seq<byte>)
    requires |block| == BLOCK
    ensures Absorb(transform, s, block + rest) == Absorb(transform, transform(s, block), rest)
  {
    ConcatParts(block, rest);
  }

  lemma LastBlock<S>(transform: (S, seq<byte>) -> S, s: S, block: seq<byte>)
    requires |block| == BLOCK
    ensures Absorb(transform, s, block) == transform(s, block)
  {
    assert block[..BLOCK] == block;
  }

  /** The bytes the MD5 counter sees of a message handed over in parts. */
  function Counted(parts: seq<seq<byte>>): nat
  {
    if parts == [] then 0 else |parts[0]| % WORD32 + Counted(parts[1..])
  }

  /** The 2^32-byte units of the parts that it misses. */
  function Missed(parts: seq<seq<byte>>): nat
  {
    if parts == [] then 0 else |parts[0]| / WORD32 + Missed(parts[1..])
  }

  lemma {:induction false} CountedSnoc(parts: seq<seq<byte>>, p: seq<byte>)
    ensures Counted(parts + [p]) == Counted(parts) + |p| % WORD32
  {
    if parts != [] {
      CountedSnoc(parts[1..], p);
      assert (parts + [p])[1..] == parts[1..] + [p];
    }
  }

  lemma {:induction false} CountedAndMissed(parts: seq<seq<byte>>)
    ensures |Concat(parts)| == Counted(parts) + WORD32 * Missed(parts)
  {
    if parts != [] {
      CountedAndMissed(parts[1..]);
    }
  }

  lemma {:induction false} NothingMissed(parts: seq<seq<byte>>)
    ensures Missed(parts) == 0 <==> forall i :: 0 <= i < |parts| ==> |parts[i]| < WORD32
  {
    if parts != [] {
      NothingMissed(parts[1..]);
      assert forall i :: 0 < i < |parts| ==> parts[i] == parts[1..][i - 1];
      assert forall i :: 0 <= i < |parts| - 1 ==> parts[1..][i] == parts[i + 1];
    }
  }

  /** MD5 of parts uses the length of section 3.2 exactly when no part reaches 2^32 bytes. */
  lemma Md5LengthExact(parts: seq<seq<byte>>)
    requires |Concat(parts)| < 0x2000_0000_0000_0000
    ensures LE64(8 * Counted(parts) % WORD64) == LE64(8 * |Concat(parts)| % WORD64)
            <==> forall i :: 0 <= i < |parts| ==> |parts[i]| < WORD32
  {
    CountedAndMissed(parts);
    NothingMissed(parts);
    hide LE64, Counted, Missed, Concat;
    var a, b := 8 * Counted(parts), 8 * |Concat(parts)|;
    LE64Injective(a, b);
  }

  lemma Below(a: nat)
    requires a < WORD64
    ensures a % WORD64 == a
  {
  }

  lemma LE64Injective(a: nat, b: nat)
    requires a < WORD64 && b < WORD64
    ensures LE64(a % WORD64) == LE64(b % WORD64) <==> a == b
  {
    Below(a);
    Below(b);
    if LE64(a) == LE64(b) {
      Octets32(a % WORD32);
      Octets32(a / WORD32);
      Octets32(b % WORD32);
      Octets32(b / WORD32);
      assert LE64(a)[..4] == LE32(a % WORD32) && LE64(a)[4..] == LE32(a / WORD32);
      assert LE64(b)[..4] == LE32(b % WORD32) && LE64(b)[4..] == LE32(b / WORD32);
    }
  }

  method Md5Digest<S>(transform: (S, seq<byte>) -> S, init: S, parts: seq<seq<byte>>) returns (digest: S)
    ensures digest == Absorb(transform, init, Padded(Concat(parts), LE64(8 * Counted(parts) % WORD64)))
  {
    hide Absorb, Leftover, Counter, Padded, LE64;
    var ctx := new Md5<S>(transform, init);
    var i := 0;
    while i < |parts|
      invariant i <= |parts| && ctx.Valid() && fresh(ctx) && fresh(ctx.block)
      invariant ctx.transform == transform && ctx.init == init
      invariant ctx.msg == Concat(parts[..i]) && ctx.counted == Counted(parts[..i])
    {
      ctx.Update(parts[i]);
      SplitAt(parts, i);
      ConcatSnoc(parts[..i], parts[i]);
      CountedSnoc(parts[..i], parts[i]);
      i := i + 1;
    }
    assert parts[..i] == parts;
    ctx.Final();
    digest := ctx.buf;
  }

  // ----- the padded message, octet by octet -----

  /** The message, the octet 80, at least no and at most 63 zeros, and the length in eight octets; whole blocks in all. */
  lemma PaddedIs(msg: seq<byte>, length: seq<byte>)
    requires |length| == 8
    ensures var p, n := Padded(msg, length), |msg|;
            && |p| % 64 == 0 && n + 9 <= |p| <= n + 72 && p[..n] == msg && p[n] == 0x80 && p[|p| - 8..] == length
            && forall k :: n < k < |p| - 8 ==> p[k] == 0
  {
    var p, n, z := Padded(msg, length), |msg|, Zeros(PadZeros(|msg|));
    assert p == msg + [0x80] + z + length;
    ThreeParts(msg + [0x80], z, length);
    forall k | n < k < |p| - 8
      ensures p[k] == 0
    {
      assert p[k] == z[k - n - 1];
    }
  }

  /** The length of SHA-1 starts with its highest octet, that of MD5 with its lowest. */
  lemma LengthIs(n: nat)
    requires n < WORD64
    ensures var s := BE64(n); |s| == 8 && Value(s[..4]) * 0x1_0000_0000 + Value(s[4..]) == n
    ensures var s := LE64(n);
            |s| == 8 && Value([s[7], s[6], s[5], s[4]]) * 0x1_0000_0000 + Value([s[3], s[2], s[1], s[0]]) == n
  {
    var hi, lo := n / WORD32, n % WORD32;
    assert n == hi * WORD32 + lo && hi < WORD32;
    OctetOrder(hi);
    OctetOrder(lo);
    hide Value, BE32, LE32;
    ConcatParts(BE32(hi), BE32(lo));
    ConcatParts(LE32(lo), LE32(hi));
  }

  /** Blocks are taken in order, each with the state that the one before left. */
  lemma BlocksInOrder<S>(transform: (S, seq<byte>) -> S, s: S, a: seq<byte>, b: seq<byte>, rest: seq<byte>)
    requires |a| == |b| == 64 && |rest| < 64
    ensures Absorb(transform, s, a + b + rest) == transform(transform(s, a), b)
  {
    hide Absorb;
    assert a + b + rest == a + (b + rest);
    BlockTaken(transform, s, a, b + rest);
    BlockTaken(transform, transform(s, a), b, rest);
    NoneTaken(transform, transform(transform(s, a), b), rest);
  }

  lemma BlockTaken<S>(transform: (S, seq<byte>) -> S, s: S, a: seq<byte>, rest: seq<byte>)
    requires |a| == 64
    ensures Absorb(transform, s, a + rest) == Absorb(transform, transform(s, a), rest)
  {
    var w := a + rest;
    assert |w| >= 64 && w[..64] == a && w[64..] == rest;
  }

  lemma NoneTaken<S>(transform: (S, seq<byte>) -> S, s: S, rest: seq<byte>)
    requires |rest| < 64
    ensures Absorb(transform, s, rest) == s
  {
  }
}
