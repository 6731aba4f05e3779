/** Octets, and the operations on them that several protocol engines share. */
module Bytes {

  type byte = b: int | 0 <= b < 256

  datatype Option<+T> = None | Some(value: T)

  function Min(a: int, b: int): int { if a < b then a else b }

  function Pow2(n: nat): nat
  {
    if n == 0 then 1 else 2 * Pow2(n - 1)
  }

  /** Exclusive or of the low n bits of a and b. */
  function XorBits(a: nat, b: nat, n: nat): nat
  {
    if n == 0 then 0 else (a + b) % 2 + 2 * XorBits(a / 2, b / 2, n - 1)
  }

  lemma {:induction false} XorBitsBound(a: nat, b: nat, n: nat)
    ensures XorBits(a, b, n) < Pow2(n)
  {
    if n != 0 {
      XorBitsBound(a / 2, b / 2, n - 1);
    }
  }

  lemma Doubled(bit: nat, y: nat)
    requires bit < 2
    ensures (bit + 2 * y) / 2 == y && (bit + 2 * y) % 2 == bit
  {
  }

  lemma ParityTwice(a: nat, b: nat, y: nat)
    ensures ((a + b) % 2 + 2 * y + b) % 2 == a % 2
  {
  }

  lemma {:induction false} XorBitsTwice(a: nat, b: nat, n: nat)
    requires a < Pow2(n)
    ensures XorBits(XorBits(a, b, n), b, n) == a
  {
    if n != 0 {
      var y := XorBits(a / 2, b / 2, n - 1);
      Doubled((a + b) % 2, y);
      ParityTwice(a, b, y);
      XorBitsTwice(a / 2, b / 2, n - 1);
    }
  }

  function Xor(a: byte, b: byte): (r: byte)
  {
    XorBitsBound(a, b, 8);
    assert Pow2(8) == 256;
    XorBits(a, b, 8)
  }

  lemma XorTwice(a: byte, b: byte)
    ensures Xor(Xor(a, b), b) == a
  {
    assert Pow2(8) == 256;
    XorBitsTwice(a, b, 8);
  }

  /** Bit k, counted from the low end. */
  function Bit(n: nat, k: nat): (bit: nat)
    ensures bit < 2
    decreases k
  {
    if k == 0 then n % 2 else Bit(n / 2, k - 1)
  }

  lemma {:induction false} XorBitsAt(a: nat, b: nat, n: nat, k: nat)
    requires k < n
    ensures Bit(XorBits(a, b, n), k) == 1 <==> Bit(a, k) != Bit(b, k)
    decreases k
  {
    Doubled((a + b) % 2, XorBits(a / 2, b / 2, n - 1));
    if k == 0 {
      Parity(a, b);
    } else {
      XorBitsAt(a / 2, b / 2, n - 1, k - 1);
    }
  }

  lemma Parity(a: nat, b: nat)
    ensures (a + b) % 2 == 1 <==> a % 2 != b % 2
  {
  }

  /** Exclusive or, bit by bit: a bit of it is set exactly where the two octets differ. */
  lemma XorAt(a: byte, b: byte, k: nat)
    requires k < 8
    ensures Bit(Xor(a, b), k) == 1 <==> Bit(a, k) != Bit(b, k)
  {
    XorBitsAt(a, b, 8, k);
  }

  /** Eight bits are all there is to an octet. */
  lemma {:induction false} BitsDetermine(a: nat, b: nat, n: nat)
    requires a < Pow2(n) && b < Pow2(n) && forall k :: 0 <= k < n ==> Bit(a, k) == Bit(b, k)
    ensures a == b
    decreases n
  {
    if n > 0 {
      assert Bit(a, 0) == Bit(b, 0);
      forall k | 0 <= k < n - 1
        ensures Bit(a / 2, k) == Bit(b / 2, k)
      {
        assert Bit(a, k + 1) == Bit(b, k + 1);
      }
      BitsDetermine(a / 2, b / 2, n - 1);
    }
  }

  /** A letter in lower case, in the C locale. */
  function Lower(c: byte): byte {
    if 0x41 <= c <= 0x5a then c + 32 else c
  }

  /** The same letter in either case, or the same octet. */
  predicate SameLetter(a: byte, b: byte) {
    a == b || (0x41 <= a <= 0x5a && b == a + 0x20) || (0x41 <= b <= 0x5a && a == b + 0x20)
  }

  /** Two octets match regardless of case exactly if they are the same letter but for the bit 0x20, or the same. */
  lemma LettersMatch(a: byte, b: byte)
    ensures Lower(a) == Lower(b) <==> SameLetter(a, b)
  {
  }

  /** Texts that differ in the case of letters only. */
  predicate SameLetters(s: seq<byte>, t: seq<byte>) {
    |s| == |t| && forall k :: 0 <= k < |s| ==> SameLetter(s[k], t[k])
  }

  /** The octets of a text. */
  function Ascii(t: string): (s: seq<byte>)
    ensures |s| == |t| && forall k :: 0 <= k < |s| ==> s[k] == t[k] as int % 256
  {
    seq(|t|, i requires 0 <= i < |t| => t[i] as int % 256)
  }

  /** Two octets in network order. */
  function BE16(n: nat): (r: seq<byte>)
    requires n < 0x1_0000
    ensures |r| == 2
  {
    [n / 0x100, n % 0x100]
  }

  function FromBE16(hi: byte, lo: byte): (r: nat)
    ensures r < 0x1_0000
  {
    hi * 0x100 + lo
  }

  /** Four octets in network order. */
  function BE32(n: nat): (r: seq<byte>)
    requires n < 0x1_0000_0000
    ensures |r| == 4
  {
    [n / 0x100_0000, n / 0x1_0000 % 0x100, n / 0x100 % 0x100, n % 0x100]
  }

  function FromBE32(a: byte, b: byte, c: byte, d: byte): (r: nat)
    ensures r < 0x1_0000_0000
  {
    a * 0x100_0000 + b * 0x1_0000 + c * 0x100 + d
  }

  /** Four octets in little-endian order: how an `unsigned` lies in memory. */
  function LE32(n: nat): (r: seq<byte>)
    requires n < 0x1_0000_0000
    ensures |r| == 4
  {
    [n % 0x100, n / 0x100 % 0x100, n / 0x1_0000 % 0x100, n / 0x100_0000]
  }

  function FromLE32(a: byte, b: byte, c: byte, d: byte): (r: nat)
    ensures r < 0x1_0000_0000
  {
    FromBE32(d, c, b, a)
  }

  /** The number that octets spell, the first counting most. */
  function Value(s: seq<byte>): nat
  {
    if s == [] then 0 else Value(s[..|s| - 1]) * 0x100 + s[|s| - 1]
  }

  lemma Value2(a: byte, b: byte)
    ensures Value([a, b]) == a * 0x100 + b
  {
    assert [a, b][..1] == [a] && [a][..0] == [];
    assert Value([a]) == a;
  }

  lemma Value4(a: byte, b: byte, c: byte, d: byte)
    ensures Value([a, b, c, d]) == ((a * 0x100 + b) * 0x100 + c) * 0x100 + d
  {
    assert [a, b, c, d][..3] == [a, b, c] && [a, b, c][..2] == [a, b];
    Value2(a, b);
  }

  /** Network order is the order of the digits of a number; in memory the order is the other one. */
  lemma OctetOrder(n: nat)
    ensures n < 0x1_0000 ==> Value(BE16(n)) == n
    ensures n < 0x1_0000_0000 ==> Value(BE32(n)) == n
    ensures n < 0x1_0000_0000 ==> var s := LE32(n); Value([s[3], s[2], s[1], s[0]]) == n
  {
    if n < 0x1_0000 {
      Value2(n / 0x100, n % 0x100);
    }
    if n < 0x1_0000_0000 {
      Octets32(n);
      var s := BE32(n);
      assert s == [s[0], s[1], s[2], s[3]] == [LE32(n)[3], LE32(n)[2], LE32(n)[1], LE32(n)[0]];
      Value4(s[0], s[1], s[2], s[3]);
    }
  }

  lemma ReadOrder(a: byte, b: byte, c: byte, d: byte)
    ensures FromBE16(a, b) == Value([a, b]) && FromBE32(a, b, c, d) == Value([a, b, c, d]) == FromLE32(d, c, b, a)
  {
    Value2(a, b);
    Value4(a, b, c, d);
  }

  lemma Octets32(n: nat)
    requires n < 0x1_0000_0000
    ensures var s := BE32(n); FromBE32(s[0], s[1], s[2], s[3]) == n
    ensures var s := LE32(n); FromLE32(s[0], s[1], s[2], s[3]) == n
  {
    var q := n / 0x100;
    assert n == q * 0x100 + n % 0x100;
    var r := q / 0x100;
    assert q == r * 0x100 + q % 0x100 && r == n / 0x1_0000;
    assert r == r / 0x100 * 0x100 + r % 0x100 && r / 0x100 == n / 0x100_0000;
  }

  /** Concatenation of a list of byte strings. */
  function Concat<T>(parts: seq<seq<T>>): seq<T>
  {
    if parts == [] then [] else parts[0] + Concat(parts[1..])
  }

  lemma {:induction false} ConcatAppend<T>(a: seq<seq<T>>, b: seq<seq<T>>)
    ensures Concat(a + b) == Concat(a) + Concat(b)
  {
    if a == [] {
      assert a + b == b;
    } else {
      ConcatAppend(a[1..], b);
      assert (a + b)[1..] == a[1..] + b;
      assert Concat(a + b) == a[0] + (Concat(a[1..]) + Concat(b));
    }
  }

  lemma ConcatSnoc<T>(a: seq<seq<T>>, x: seq<T>)
    ensures Concat(a + [x]) == Concat(a) + x
  {
    ConcatAppend(a, [x]);
    assert Concat([x]) == x + Concat<T>([]);
  }

  lemma SliceOfTail<T>(s: seq<T>, from: nat, i: nat, j: nat)
    requires i <= j && from + j <= |s|
    ensures s[from..][i..j] == s[from + i..from + j]
  {
  }

  lemma TailOfTail<T>(s: seq<T>, i: nat, j: nat)
    requires i + j <= |s|
    ensures s[i..][j..] == s[i + j..]
  {
  }

  lemma HeadOfTail<T>(s: seq<T>, i: nat, n: nat)
    requires i + n <= |s|
    ensures s[i..][..n] == s[i..i + n]
  {
  }

  lemma SliceOfPrefix<T>(s: seq<T>, n: nat, i: nat, j: nat)
    requires i <= j <= n <= |s|
    ensures s[..n][i..j] == s[i..j]
  {
  }

  lemma ThreeParts<T>(a: seq<T>, b: seq<T>, c: seq<T>)
    ensures var s := a + b + c; s[..|a|] == a && s[|a|..|a| + |b|] == b && s[|a| + |b|..] == c
  {
  }

  lemma SplitAt<T>(s: seq<T>, n: nat)
    requires n < |s|
    ensures s == s[..n] + ([s[n]] + s[n + 1..]) && s[n..] == [s[n]] + s[n + 1..]
    ensures s[..n + 1] == s[..n] + [s[n]]
  {
  }

  lemma Regroup<T>(a: seq<T>, b: seq<T>, c: seq<T>)
    ensures a + b + c == a + (b + c)
  {
  }

  lemma ConcatParts<T>(a: seq<T>, b: seq<T>)
    ensures (a + b)[..|a|] == a && (a + b)[|a|..] == b && [] + b == b
  {
  }

  lemma SliceOfSlice<T>(s: seq<T>, lo: nat, hi: nat, i: nat, j: nat)
    requires i <= j && lo + j <= hi <= |s|
    ensures s[lo..hi][i..j] == s[lo + i..lo + j]
  {
    forall k | 0 <= k < j - i
      ensures s[lo..hi][i..j][k] == s[lo + i..lo + j][k]
    {
      assert s[lo..hi][i + k] == s[lo + i + k];
    }
  }

  lemma SliceParts<T>(s: seq<T>, lo: nat, hi: nat, k: nat)
    requires lo + k <= hi <= |s|
    ensures s[lo..hi][..k] == s[lo..lo + k] && s[lo..hi][k..] == s[lo + k..hi]
  {
    SliceOfSlice(s, lo, hi, 0, k);
    SliceOfSlice(s, lo, hi, k, hi - lo);
    assert s[lo..hi][k..] == s[lo..hi][k..hi - lo];
  }

  /** memmove inside one array: the ranges may overlap. */
  method MemMove(a: array<byte>, dst: nat, src: nat, n: nat)
    requires dst + n <= a.Length && src + n <= a.Length
    modifies a
    ensures a[..] == old(a[..])[..dst] + old(a[..])[src..src + n] + old(a[..])[dst + n..]
  {
    forall k | 0 <= k < n {
      a[dst + k] := a[src + k];
    }
  }

  /** memcpy from a byte string into an array. */
  method MemCpy(a: array<byte>, dst: nat, s: seq<byte>)
    requires dst + |s| <= a.Length
    modifies a
    ensures a[..] == old(a[..])[..dst] + s + old(a[..])[dst + |s|..]
  {
    forall k | 0 <= k < |s| {
      a[dst + k] := s[k];
    }
  }

  function Repeat(c: byte, n: nat): (s: seq<byte>)
    ensures |s| == n
  {
    seq(n, _ => c)
  }

  /** memset. */
  method MemSet(a: array<byte>, dst: nat, c: byte, n: nat)
    requires dst + n <= a.Length
    modifies a
    ensures a[..] == old(a[..])[..dst] + Repeat(c, n) + old(a[..])[dst + n..]
  {
    forall k | 0 <= k < n {
      a[dst + k] := c;
    }
  }

  /** Opens a gap of |data| bytes at offset off in the first n bytes of p and fills it. */
  method InsertInto(p: array<byte>, off: nat, data: seq<byte>, n: nat)
    requires off <= n && n + |data| <= p.Length
    modifies p
    ensures p[..n + |data|] == old(p[..n])[..off] + data + old(p[..n])[off..]
  {
    ghost var p0 := p[..];
    MemMove(p, off + |data|, off, n - off);
    ghost var p1 := p[..];
    MemCpy(p, off, data);
    InsertedAt(p0, p1, p[..], off, data, n);
    assert p[..n + |data|] == p[..][..n + |data|] && p0[..n] == old(p[..n]);
  }

  lemma InsertedAt(p0: seq<byte>, p1: seq<byte>, p2: seq<byte>, off: nat, data: seq<byte>, n: nat)
    requires off <= n && n + |data| <= |p0|
    requires p1 == p0[..off + |data|] + p0[off..n] + p0[n + |data|..]
    requires p2 == p1[..off] + data + p1[off + |data|..]
    ensures p2[..n + |data|] == p0[..n][..off] + data + p0[..n][off..]
  {
    assert p1[..off] == p0[..off];
    assert p1[off + |data|..][..n - off] == p0[off..n];
  }
}
