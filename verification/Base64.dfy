/** Base64 (section 4 of RFC 4648): the streamed encoder, the one-shot encoder, and the decoder. */
module Base64 {
  import opened Bytes

  const PAD: byte := 61
  const IS_PAD := 200   // what the decoder's table has for the padding character
  const INVALID := 255  // and for a character outside the alphabet

  // ----- the standard -----

  /** The alphabet: A-Z, a-z, 0-9, + and /. */
  function Code(v: nat): (c: byte)
    requires v < 64
  {
    if v < 26 then 65 + v else if v < 52 then 97 + v - 26 else if v < 62 then 48 + v - 52 else if v == 62 then 43 else 47
  }

  /** Three octets, or fewer with zeros behind them, as one 24-bit number. */
  function Group(s: seq<byte>): (n: nat)
    requires 0 < |s| <= 3
    ensures n < 0x100_0000
  {
    var a: nat, b: nat, c: nat := s[0], if |s| > 1 then s[1] else 0, if |s| > 2 then s[2] else 0;
    a * 0x1_0000 + b * 0x100 + c
  }

  /** Its four digits to the base 64, from the top; padding stands for those that no octet reaches. */
  function GroupText(s: seq<byte>): (t: seq<byte>)
    requires 0 < |s| <= 3
    ensures |t| == 4
  {
    var n := Group(s);
    [Code(n / 0x4_0000), Code(n / 0x1000 % 64), if |s| > 1 then Code(n / 64 % 64) else PAD,
     if |s| > 2 then Code(n % 64) else PAD]
  }

  function Encode(data: seq<byte>): (t: seq<byte>)
    ensures |t| == (|data| + 2) / 3 * 4
  {
    if data == [] then []
    else if |data| < 3 then GroupText(data)
    else GroupText(data[..3]) + Encode(data[3..])
  }

  lemma {:induction false} EncodeAppend(a: seq<byte>, b: seq<byte>)
    requires |a| % 3 == 0
    ensures Encode(a + b) == Encode(a) + Encode(b)
    decreases |a|
  {
    hide GroupText;
    if a == [] {
      assert a + b == b;
    } else {
      EncodeAppend(a[3..], b);
      assert (a + b)[..3] == a[..3] && (a + b)[3..] == a[3..] + b;
      assert Encode(a + b) == GroupText(a[..3]) + (Encode(a[3..]) + Encode(b));
    }
  }

  /** One more group behind whole groups. */
  lemma EncodeMore(whole: seq<byte>, group: seq<byte>)
    requires |whole| % 3 == 0 && 0 < |group| <= 3
    ensures Encode(whole + group) == Encode(whole) + GroupText(group)
  {
    hide GroupText;
    EncodeAppend(whole, group);
    if |group| == 3 {
      assert group[..3] == group && group[3..] == [];
      assert GroupText(group) + Encode([]) == GroupText(group);
    }
  }

  /** The digits as the encoders take them out of the octets, by shifts and masks. */
  lemma GroupDigits(s: seq<byte>)
    requires 0 < |s| <= 3
    ensures var a: nat, b: nat, c: nat := s[0], if |s| > 1 then s[1] else 0, if |s| > 2 then s[2] else 0;
            && a / 4 < 64 && a % 4 * 16 + b / 16 < 64 && b % 16 * 4 + c / 64 < 64 && c % 64 < 64
            && GroupText(s) == [Code(a / 4), Code(a % 4 * 16 + b / 16), if |s| > 1 then Code(b % 16 * 4 + c / 64) else PAD,
                                if |s| > 2 then Code(c % 64) else PAD]
  {
    hide Code;
    var a: nat, b: nat, c: nat := s[0], if |s| > 1 then s[1] else 0, if |s| > 2 then s[2] else 0;
    Digits(a, b, c);
  }

  lemma Digits(a: nat, b: nat, c: nat)
    requires a < 256 && b < 256 && c < 256
    ensures var n := a * 0x1_0000 + b * 0x100 + c;
            && n / 0x4_0000 == a / 4 && n / 0x1000 % 64 == a % 4 * 16 + b / 16
            && n / 64 % 64 == b % 16 * 4 + c / 64 && n % 64 == c % 64
  {
    var a1, a0, b1, b0, c1, c0 := a / 4, a % 4, b / 16, b % 16, c / 64, c % 64;
    var d1, d2 := a0 * 16 + b1, b0 * 4 + c1;
    assert a * 0x1_0000 + b * 0x100 + c == ((a1 * 64 + d1) * 64 + d2) * 64 + c0;
    FourDigits(a1, d1, d2, c0);
  }

  lemma FourDigits(w: nat, x: nat, y: nat, z: nat)
    requires x < 64 && y < 64 && z < 64
    ensures var n := ((w * 64 + x) * 64 + y) * 64 + z;
            n % 64 == z && n / 64 % 64 == y && n / 0x1000 % 64 == x && n / 0x4_0000 == w
  {
    var u, v := w * 64 + x, (w * 64 + x) * 64 + y;
    var n := v * 64 + z;
    assert n / 64 == v && n % 64 == z;
    assert v / 64 == u && v % 64 == y && n / 0x1000 == v / 64;
    assert u / 64 == w && u % 64 == x && n / 0x4_0000 == u / 64;
  }

  // ----- the streamed encoder -----

  class Encoder {
    const chunk: array<byte>
    var chunkSize: nat
    var out: seq<byte>          // what the output function was given
    ghost var data: seq<byte>   // everything encoded so far
    ghost var whole: seq<byte>  // its whole groups
    ghost var groups: nat       // and their number

    /** All whole groups are out, and the chunk holds the octets behind them. */
    ghost predicate Valid()
      reads this, chunk
    {
      && chunk.Length == 3 && chunkSize < 3 && |whole| == 3 * groups
      && data == whole + chunk[..chunkSize] && out == Encode(whole)
    }

    constructor ()
      ensures Valid() && fresh(chunk) && data == [] && out == []
    {
      chunk, chunkSize, out, data, whole, groups := new byte[3], 0, [], [], [], 0;
    }

    method EmitCode(v: nat)
      requires v < 64
      modifies this`out
      ensures out == old(out) + [Code(v)]
    {
      var c: byte;
      if v < 26 {
        c := v + 65;
      } else if v < 52 {
        c := v - 26 + 97;
      } else if v < 62 {
        c := v - 52 + 48;
      } else {
        c := if v - 52 - 10 == 0 then 43 else 47;
      }
      out := out + [c];
    }

    method EmitChunk()
      requires chunk.Length == 3 && 0 < chunkSize <= 3
      requires forall i :: chunkSize <= i < 3 ==> chunk[i] == 0
      modifies this`out
      ensures out == old(out) + GroupText(chunk[..chunkSize])[..chunkSize + 1]
    {
      hide GroupText, Code;
      var a, b, c := chunk[0], chunk[1], chunk[2];
      ghost var s := chunk[..chunkSize];
      GroupDigits(s);
      EmitCode(a / 4);
      EmitCode(a % 4 * 16 + b / 16);
      if chunkSize > 1 {
        EmitCode(b % 16 * 4 + c / 64);
      }
      if chunkSize > 2 {
        EmitCode(c % 64);
      }
    }

    method Update(str: seq<byte>)
      requires Valid()
      modifies this`chunkSize, this`out, this`data, this`whole, this`groups, chunk
      ensures Valid() && data == old(data) + str
    {
      var i := 0;
      while i < |str|
        invariant i <= |str| && Valid() && data == old(data) + str[..i]
      {
        SplitAt(str, i);
        Put(str[i]);
        i := i + 1;
      }
      assert str[..i] == str;
    }

    /** The loop body of an update. */
    method Put(c: byte)
      requires Valid()
      modifies this`chunkSize, this`out, this`data, this`whole, this`groups, chunk
      ensures Valid() && data == old(data) + [c]
    {
      hide Encode, GroupText;
      ghost var part := chunk[..chunkSize] + [c];
      Keep(c);
      data := data + [c];
      Regroup(whole, part[..|part| - 1], [c]);
      if chunkSize == 3 {
        EmitChunk();
        WholeGroup(whole, groups, part);
        whole, groups := whole + part, groups + 1;
        chunkSize := 0;
        assert whole + [] == whole;
      }
    }

    method Keep(c: byte)
      requires chunk.Length == 3 && chunkSize < 3
      modifies this`chunkSize, chunk
      ensures chunkSize == old(chunkSize) + 1 && chunk[..chunkSize] == old(chunk[..chunkSize]) + [c]
    {
      chunk[chunkSize] := c;
      chunkSize := chunkSize + 1;
    }

    /** Pads; what was put out is then the encoding of everything, however it was cut into updates. */
    method Finish()
      requires Valid()
      modifies this`out, chunk
      ensures out == Encode(data)
    {
      hide Encode, GroupText, Pads;
      ghost var part := chunk[..chunkSize];
      if chunkSize > 0 {
        var n := chunkSize;
        forall k | n <= k < 3 {
          chunk[k] := 0;
        }
        assert chunk[..n] == part;
        EmitChunk();
        Triples(groups);
        EncodeMore(whole, part);
        WithPads(Encode(whole), part);
        var i := 0;
        while i < 3 - chunkSize
          invariant i <= 3 - n && out + Pads(3 - n - i) == Encode(data)
        {
          OnePad(out, 3 - n - i);
          out := out + [PAD];
          i := i + 1;
        }
        NoPads(out);
      } else {
        assert whole + [] == whole;
      }
    }
  }

  lemma Triples(n: nat)
    ensures 3 * n % 3 == 0
  {
  }

  lemma WholeGroup(whole: seq<byte>, groups: nat, part: seq<byte>)
    requires |whole| == 3 * groups && |part| == 3
    ensures Encode(whole + part) == Encode(whole) + GroupText(part)[..4]
  {
    hide Encode, GroupText;
    Triples(groups);
    EncodeMore(whole, part);
    assert GroupText(part)[..4] == GroupText(part);
  }

  /** Any split into updates puts out the same text as one encoding of the whole. */
  method EncodeParts(parts: seq<seq<byte>>) returns (text: seq<byte>)
    ensures text == Encode(Concat(parts))
  {
    hide Encode;
    var e := new Encoder();
    var i := 0;
    while i < |parts|
      invariant i <= |parts| && e.Valid() && fresh(e) && fresh(e.chunk) && e.data == Concat(parts[..i])
    {
      e.Update(parts[i]);
      SplitAt(parts, i);
      ConcatSnoc(parts[..i], parts[i]);
      i := i + 1;
    }
    assert parts[..i] == parts;
    e.Finish();
    text := e.out;
  }

  // ----- the one-shot encoder -----

  /** Stores one character behind the text so far. */
  method Put(dst: array<byte>, j: nat, c: byte, ghost text: seq<byte>, ghost was: seq<byte>)
    requires j == |text| < dst.Length == |was| && dst[..] == text + was[j..]
    modifies dst
    ensures dst[..] == text + [c] + was[j + 1..]
  {
    dst[j] := c;
  }

  function Pads(n: nat): (s: seq<byte>)
    ensures |s| == n
  {
    Repeat(PAD, n)
  }

  /** The text of the source up to i; behind the end of the source, only padding is missing. */
  predicate Partway(src: seq<byte>, i: nat, text: seq<byte>) {
    && i % 3 == 0 && i <= |src| + 2
    && text + Pads(if i > |src| then i - |src| else 0) == Encode(src[..Min(i, |src|)])
  }

  lemma NothingYet(src: seq<byte>)
    ensures Partway(src, 0, [])
  {
    assert src[..0] == [];
  }

  lemma AllButPads(src: seq<byte>, i: nat, text: seq<byte>)
    requires Partway(src, i, text) && i >= |src|
    ensures i - |src| <= 2 && text + Pads(i - |src|) == Encode(src) && (|text| + i - |src|) % 4 == 0
  {
    hide Encode, Pads, Partway;
    PartwayEnd(src, i, text);
    Quadruples((|src| + 2) / 3, |text|, i - |src|);
  }

  lemma PartwayEnd(src: seq<byte>, i: nat, text: seq<byte>)
    requires Partway(src, i, text) && i >= |src|
    ensures i - |src| <= 2 && text + Pads(i - |src|) == Encode(src) && |text| + (i - |src|) == |Encode(src)|
  {
    hide Encode, Pads;
    assert src[..|src|] == src;
    assert |text + Pads(i - |src|)| == |text| + (i - |src|);
  }

  lemma Quadruples(q: nat, n: nat, p: nat)
    requires n + p == q * 4
    ensures (n + p) % 4 == 0
  {
  }

  /** Writes the text and a final zero octet. */
  method EncodeInto(src: seq<byte>, dst: array<byte>)
    requires dst.Length > (|src| + 2) / 3 * 4
    modifies dst
    ensures var t := Encode(src); dst[..] == t + [0] + old(dst[..])[|t| + 1..]
  {
    hide Encode, Pads, Partway;
    ghost var was, text: seq<byte> := dst[..], [];
    var i, j := 0, 0;
    NothingYet(src);
    while i < |src|
      invariant Partway(src, i, text)
      invariant j == |text| <= |was| && dst[..] == text + was[j..]
    {
      j, text := EncodeGroup(src, i, dst, j, text, was);
      i := i + 3;
    }
    AllButPads(src, i, text);
    j, text := PadOut(dst, j, i - |src|, text, was);
    Put(dst, j, 0, text, was);
  }

  /** Padding up to a multiple of four. */
  method PadOut(dst: array<byte>, at: nat, ghost pads: nat, ghost text: seq<byte>, ghost was: seq<byte>)
    returns (j: nat, ghost text': seq<byte>)
    requires pads <= 2 && (at + pads) % 4 == 0
    requires at == |text| && at + pads < dst.Length == |was| && dst[..] == text + was[at..]
    modifies dst
    ensures text' == text + Pads(pads) && j == |text'| && dst[..] == text' + was[j..]
  {
    hide Pads;
    ghost var p: nat := pads;
    j, text' := at, text;
    while j % 4 != 0
      invariant p <= pads && j + p == at + pads && text' + Pads(p) == text + Pads(pads)
      invariant j == |text'| && dst[..] == text' + was[j..]
      decreases p
    {
      Put(dst, j, PAD, text', was);
      OnePad(text', p);
      text', p, j := text' + [PAD], p - 1, j + 1;
    }
    NoPads(text');
  }

  /** One turn of the encoder's loop. */
  method EncodeGroup(src: seq<byte>, i: nat, dst: array<byte>, at: nat, ghost text: seq<byte>, ghost was: seq<byte>)
    returns (j: nat, ghost text': seq<byte>)
    requires i < |src| && Partway(src, i, text)
    requires at == |text| && (|src| + 2) / 3 * 4 < dst.Length == |was| && dst[..] == text + was[at..]
    modifies dst
    ensures j == |text'| <= |was| && dst[..] == text' + was[j..]
    ensures Partway(src, i + 3, text')
  {
    hide Encode, GroupText, Code, Pads;
    NoPads(text);
    var n := Min(3, |src| - i);
    ghost var s := src[i..i + n];
    GroupDigits(s);
    EncodeMore(src[..i], s);
    assert src[..i] + s == src[..i + n];
    var a: nat := src[i];
    var b: nat := if i + 1 >= |src| then 0 else src[i + 1];
    var c: nat := if i + 2 >= |src| then 0 else src[i + 2];
    j := PutGroup(dst, at, a, b, c, n, text, was);
    WithPads(text, s);
    text' := text + GroupText(s)[..n + 1];
  }

  /** The characters of one group: two, three or four. */
  method PutGroup(dst: array<byte>, at: nat, a: nat, b: nat, c: nat, n: nat, ghost text: seq<byte>, ghost was: seq<byte>)
    returns (j: nat)
    requires a < 256 && b < 256 && c < 256 && 1 <= n <= 3
    requires at == |text| && at + n < dst.Length == |was| && dst[..] == text + was[at..]
    modifies dst
    ensures j == at + n + 1
    ensures var g := [Code(a / 4), Code(a % 4 * 16 + b / 16), Code(b % 16 * 4 + c / 64), Code(c % 64)][..n + 1];
            dst[..] == text + g + was[j..]
  {
    hide Code;
    ghost var g := [Code(a / 4), Code(a % 4 * 16 + b / 16), Code(b % 16 * 4 + c / 64), Code(c % 64)];
    Put(dst, at, Code(a / 4), text, was);
    Put(dst, at + 1, Code(a % 4 * 16 + b / 16), text + [g[0]], was);
    j := at + 2;
    assert text + [g[0]] + [g[1]] == text + g[..2];
    if n > 1 {
      Put(dst, j, Code(b % 16 * 4 + c / 64), text + g[..2], was);
      assert text + g[..2] + [g[2]] == text + g[..3];
      j := j + 1;
    }
    if n > 2 {
      Put(dst, j, Code(c % 64), text + g[..3], was);
      assert text + g[..3] + [g[3]] == text + g[..4];
      j := j + 1;
    }
  }

  lemma NoPads(text: seq<byte>)
    ensures text + Pads(0) == text
  {
  }

  lemma OnePad(text: seq<byte>, p: nat)
    requires p > 0
    ensures text + Pads(p) == text + [PAD] + Pads(p - 1)
  {
  }

  lemma WithPads(text: seq<byte>, s: seq<byte>)
    requires 0 < |s| <= 3
    ensures text + GroupText(s) == text + GroupText(s)[..|s| + 1] + Pads(3 - |s|)
  {
    hide Code;
  }

  // ----- the decoder -----

  /** The inverse of the alphabet, on the low seven bits of a character. */
  function FromCode(ch: byte): (v: nat)
    ensures v < 64 || v == IS_PAD || v == INVALID
  {
    var c := ch % 128;
    if 65 <= c <= 90 then c - 65 else if 97 <= c <= 122 then c - 97 + 26 else if 48 <= c <= 57 then c - 48 + 52
    else if c == 43 then 62 else if c == 47 then 63 else if c == 61 then IS_PAD else INVALID
  }

  /** What is decoded of s, and how many characters of it are used. */
  function Decode(s: seq<byte>): (r: (seq<byte>, nat))
    ensures |r.0| <= |s| / 4 * 3 && r.1 <= |s|
  {
    if |s| < 4 then ([], 0) else
    var a, b, c, d := FromCode(s[0]), FromCode(s[1]), FromCode(s[2]), FromCode(s[3]);
    if a == INVALID || b == INVALID || c == INVALID || d == INVALID then ([], 0)
    else if a == IS_PAD || b == IS_PAD then ([], 4)
    else if c == IS_PAD then ([a * 4 + b / 16], 4)
    else if d == IS_PAD then ([a * 4 + b / 16, b % 16 * 16 + c / 4], 4)
    else var r := Decode(s[4..]); ([a * 4 + b / 16, b % 16 * 16 + c / 4, c % 4 * 64 + d] + r.0, 4 + r.1)
  }

  lemma CodeRoundTrip(v: nat)
    requires v < 64
    ensures FromCode(Code(v)) == v && FromCode(PAD) == IS_PAD
  {
  }

  /** The digits the decoder's table has for the text of a group. */
  lemma GroupReads(s: seq<byte>)
    requires 0 < |s| <= 3
    ensures var a: nat, b: nat, c: nat := s[0], if |s| > 1 then s[1] else 0, if |s| > 2 then s[2] else 0;
            var t := GroupText(s);
            && FromCode(t[0]) == a / 4 < 64 && FromCode(t[1]) == a % 4 * 16 + b / 16 < 64
            && FromCode(t[2]) == (if |s| > 1 then b % 16 * 4 + c / 64 else IS_PAD)
            && FromCode(t[3]) == (if |s| > 2 then c % 64 else IS_PAD)
            && b % 16 * 4 + c / 64 < 64
  {
    hide GroupText, Code, FromCode;
    var a: nat, b: nat, c: nat := s[0], if |s| > 1 then s[1] else 0, if |s| > 2 then s[2] else 0;
    GroupDigits(s);
    CodeRoundTrip(a / 4);
    CodeRoundTrip(a % 4 * 16 + b / 16);
    CodeRoundTrip(b % 16 * 4 + c / 64);
    CodeRoundTrip(c % 64);
  }

  /** A group is decoded into its octets; only a full group goes on. */
  lemma GroupRoundTrip(s: seq<byte>, rest: seq<byte>)
    requires 0 < |s| <= 3
    ensures Decode(GroupText(s) + rest)
            == if |s| < 3 then (s, 4) else (s + Decode(rest).0, 4 + Decode(rest).1)
  {
    hide GroupText, FromCode, Decode;
    GroupReads(s);
    DecodeThen(GroupText(s), rest);
    SameOctets(s, s[0], if |s| > 1 then s[1] else 0, if |s| > 2 then s[2] else 0);
  }

  lemma DecodeThen(g: seq<byte>, rest: seq<byte>)
    requires |g| == 4
    requires var a, b, c, d := FromCode(g[0]), FromCode(g[1]), FromCode(g[2]), FromCode(g[3]);
             a < 64 && b < 64 && c != INVALID && d != INVALID
    ensures var a, b, c, d := FromCode(g[0]), FromCode(g[1]), FromCode(g[2]), FromCode(g[3]);
            Decode(g + rest) == if c == IS_PAD then ([a * 4 + b / 16], 4)
                                else if d == IS_PAD then ([a * 4 + b / 16, b % 16 * 16 + c / 4], 4)
                                else ([a * 4 + b / 16, b % 16 * 16 + c / 4, c % 4 * 64 + d] + Decode(rest).0,
                                      4 + Decode(rest).1)
  {
    hide FromCode, Decode;
    ConcatParts(g, rest);
    DecodeOnce(g + rest);
  }

  lemma SameOctets(s: seq<byte>, a: byte, b: byte, c: byte)
    requires 0 < |s| <= 3 && s[0] == a && (|s| > 1 ==> s[1] == b) && (|s| > 2 ==> s[2] == c)
    ensures var w, x, y, z := a / 4, a % 4 * 16 + b / 16, b % 16 * 4 + c / 64, c % 64;
            s == if |s| == 1 then [w * 4 + x / 16]
                 else if |s| == 2 then [w * 4 + x / 16, x % 16 * 16 + y / 4]
                 else [w * 4 + x / 16, x % 16 * 16 + y / 4, y % 4 * 64 + z]
  {
    Octets(a, b, c);
  }

  lemma DecodeOnce(s: seq<byte>)
    requires |s| >= 4
    requires var a, b, c, d := FromCode(s[0]), FromCode(s[1]), FromCode(s[2]), FromCode(s[3]);
             a < 64 && b < 64 && c != INVALID && d != INVALID
    ensures var a, b, c, d := FromCode(s[0]), FromCode(s[1]), FromCode(s[2]), FromCode(s[3]);
            Decode(s) == if c == IS_PAD then ([a * 4 + b / 16], 4)
                         else if d == IS_PAD then ([a * 4 + b / 16, b % 16 * 16 + c / 4], 4)
                         else ([a * 4 + b / 16, b % 16 * 16 + c / 4, c % 4 * 64 + d] + Decode(s[4..]).0,
                               4 + Decode(s[4..]).1)
  {
    hide FromCode;
  }

  lemma Octets(a: nat, b: nat, c: nat)
    requires a < 256 && b < 256 && c < 256
    ensures var w, x, y, z := a / 4, a % 4 * 16 + b / 16, b % 16 * 4 + c / 64, c % 64;
            w * 4 + x / 16 == a && x % 16 * 16 + y / 4 == b && y % 4 * 64 + z == c
  {
  }

  /** Decoding what was encoded uses all of it and gives back the octets. */
  lemma {:induction false} RoundTrip(data: seq<byte>)
    ensures Decode(Encode(data)) == (data, |Encode(data)|)
  {
    hide GroupText, Decode;
    if data == [] {
      NothingDecoded();
    } else if |data| <= 3 {
      EncodeMore([], data);
      assert [] + data == data && Encode([]) + GroupText(data) == GroupText(data);
      GroupRoundTrip(data, []);
      assert GroupText(data) + [] == GroupText(data);
      NothingDecoded();
      assert data + [] == data;
    } else {
      RoundTrip(data[3..]);
      GroupRoundTrip(data[..3], Encode(data[3..]));
      assert data[..3] + data[3..] == data;
    }
  }

  lemma NothingDecoded()
    ensures Decode([]) == ([], 0)
  {
  }

  lemma DecodeCases(s: seq<byte>)
    requires |s| >= 4
    ensures var a, b, c, d := FromCode(s[0]), FromCode(s[1]), FromCode(s[2]), FromCode(s[3]);
            && (a == INVALID || b == INVALID || c == INVALID || d == INVALID ==> Decode(s) == ([], 0))
            && (c != INVALID && d != INVALID && (a == IS_PAD || b == IS_PAD) && a != INVALID && b != INVALID ==>
                  Decode(s) == ([], 4))
  {
    hide FromCode;
    if FromCode(s[0]) < 64 && FromCode(s[1]) < 64 && FromCode(s[2]) != INVALID && FromCode(s[3]) != INVALID {
      DecodeOnce(s);
    }
  }

  /** The decoder over its buffer: the octets, a zero octet behind them, their number, and the characters used. */
  method DecodeInto(s: seq<byte>, dst: array<byte>) returns (used: nat, decLen: nat)
    requires dst.Length > |s| / 4 * 3
    modifies dst
    ensures var r := Decode(s);
            used == r.1 && decLen == |r.0| && dst[..] == r.0 + [0] + old(dst[..])[decLen + 1..]
  {
    hide Decode;
    ghost var was, text: seq<byte>, groups: nat := dst[..], [], 0;
    used, decLen := 0, 0;
    var stop := false;
    assert s[0..] == s && [] + Decode(s).0 == Decode(s).0;
    while !stop
      invariant used <= |s| && decLen == |text| <= |was| && dst[..] == text + was[decLen..]
      invariant stop ==> Decode(s) == (text, used)
      invariant !stop ==> used == 4 * groups && decLen == 3 * groups
                          && Decode(s) == (text + Decode(s[used..]).0, used + Decode(s[used..]).1)
      decreases !stop, |s| - used
    {
      ghost var before := text;
      stop, used, decLen, text := DecodeGroup(s, used, dst, decLen, groups, text, was);
      groups := groups + 1;
      if !stop {
        Regroup(before, text[|before|..], Decode(s[used..]).0);
        assert text == before + text[|before|..];
      }
    }
    Put(dst, decLen, 0, text, was);
  }

  /** One turn of the decoder's loop: it stops at the end, at a character outside the alphabet, and behind padding. */
  method DecodeGroup(s: seq<byte>, at: nat, dst: array<byte>, decLen: nat, ghost groups: nat, ghost text: seq<byte>,
                     ghost was: seq<byte>)
    returns (stop: bool, used: nat, j: nat, ghost text': seq<byte>)
    requires at <= |s| && decLen == |text| == 3 * groups && at == 4 * groups
    requires |s| / 4 * 3 < dst.Length == |was| && dst[..] == text + was[decLen..]
    modifies dst
    ensures at <= used <= |s| && j == |text'| <= |was| && dst[..] == text' + was[j..]
    ensures var r := Decode(s[at..]);
            if stop then text' == text + r.0 && used == at + r.1
            else used == at + 4 && |text'| == |text| + 3 && text' == text + text'[|text|..]
                 && r == (text'[|text|..] + Decode(s[used..]).0, 4 + Decode(s[used..]).1)
  {
    hide Decode, FromCode;
    stop, used, j, text' := true, at, decLen, text;
    ghost var rest := s[at..];
    if |s| - at < 4 {
      TooShort(rest);
      return;
    }
    DecodeCases(rest);
    assert rest[4..] == s[at + 4..];
    var a, b := FromCode(s[at]), FromCode(s[at + 1]);
    var c, d := FromCode(s[at + 2]), FromCode(s[at + 3]);
    if a == INVALID || b == INVALID || c == INVALID || d == INVALID {
      return;
    }
    used := at + 4;
    if a == IS_PAD || b == IS_PAD {
      return;
    }
    DecodeOnce(rest);
    Put(dst, j, a * 4 + b / 16, text', was);
    text', j := text' + [a * 4 + b / 16], j + 1;
    if c == IS_PAD {
      return;
    }
    Put(dst, j, b % 16 * 16 + c / 4, text', was);
    text', j := text' + [b % 16 * 16 + c / 4], j + 1;
    if d == IS_PAD {
      return;
    }
    Put(dst, j, c % 4 * 64 + d, text', was);
    text', j := text' + [c % 4 * 64 + d], j + 1;
    assert text'[|text|..] == [a * 4 + b / 16, b % 16 * 16 + c / 4, c % 4 * 64 + d];
    stop := false;
  }

  lemma TooShort(s: seq<byte>)
    requires |s| < 4
    ensures Decode(s) == ([], 0)
  {
  }

  // ----- the alphabet -----

  /** The digits are A to Z, a to z, 0 to 9, + and /, in this order; seven-bit octets that are neither among them nor the
      padding are refused, and an eighth bit is not looked at. */
  lemma AlphabetIs(v: nat, c: byte)
    requires v < 64
    ensures Code(0) == 0x41 && Code(26) == 0x61 && Code(52) == 0x30 && Code(62) == 0x2b && Code(63) == 0x2f
    ensures v !in {25, 51, 61, 62, 63} ==> Code(v + 1) == Code(v) + 1
    ensures FromCode(Code(v)) == v
    ensures c < 128 ==> (FromCode(c) < 64 <==> exists d: nat :: d < 64 && Code(d) == c)
    ensures c < 128 ==> (FromCode(c) == IS_PAD <==> c == 0x3d)
    ensures c >= 128 ==> FromCode(c) == FromCode(c - 128)
  {
    if c < 128 && FromCode(c) < 64 {
      CodeOf(c);
    }
    forall d: nat | d < 64 && Code(d) == c
      ensures FromCode(c) == d
    {
      CodeRoundTrip(d);
    }
  }

  lemma CodeOf(c: byte)
    requires c < 128 && FromCode(c) < 64
    ensures Code(FromCode(c)) == c
  {
  }

  /** Some of the vectors of section 10 of RFC 4648: f, fo, foo, and foobar. */
  lemma Vectors()
    ensures Encode([0x66]) == [0x5a, 0x67, 0x3d, 0x3d]
    ensures Encode([0x66, 0x6f]) == [0x5a, 0x6d, 0x38, 0x3d]
    ensures Encode([0x66, 0x6f, 0x6f]) == [0x5a, 0x6d, 0x39, 0x76]
    ensures Encode([0x66, 0x6f, 0x6f, 0x62, 0x61, 0x72]) == [0x5a, 0x6d, 0x39, 0x76, 0x59, 0x6d, 0x46, 0x79]
  {
    var foo, bar: seq<byte> := [0x66, 0x6f, 0x6f], [0x62, 0x61, 0x72];
    var foobar: seq<byte> := [0x66, 0x6f, 0x6f, 0x62, 0x61, 0x72];
    assert foo[..3] == foo && foo[3..] == [] && bar[..3] == bar && bar[3..] == [];
    assert foobar[..3] == foo && foobar[3..] == bar;
    VectorGroups();
    hide GroupText;
    assert Encode(foo) == GroupText(foo) + [] && Encode(bar) == GroupText(bar) + [];
  }

  lemma VectorGroups()
    ensures GroupText([0x66]) == [0x5a, 0x67, 0x3d, 0x3d]
    ensures GroupText([0x66, 0x6f]) == [0x5a, 0x6d, 0x38, 0x3d]
    ensures GroupText([0x66, 0x6f, 0x6f]) == [0x5a, 0x6d, 0x39, 0x76]
    ensures GroupText([0x62, 0x61, 0x72]) == [0x59, 0x6d, 0x46, 0x79]
  {
    assert Group([0x66]) == 0x66_0000 && Group([0x66, 0x6f]) == 0x66_6f00;
    assert Group([0x66, 0x6f, 0x6f]) == 0x66_6f6f && Group([0x62, 0x61, 0x72]) == 0x62_6172;
  }

  /** What is refused: an octet outside the alphabet stops the decoder where it is. */
  lemma Refused(a: byte, b: byte, c: byte, d: byte, more: seq<byte>)
    requires FromCode(a) == INVALID || FromCode(b) == INVALID || FromCode(c) == INVALID || FromCode(d) == INVALID
    ensures Decode([a, b, c, d] + more) == ([], 0)
  {
    hide FromCode;
  }
}
