/**
 Path normalisation in place. The meaning is the remove_dot_segments routine of
 section 5.2.4 of RFC 3986.
 */
module UriPath {
  import opened Bytes

  const SLASH: byte := 0x2f
  const DOT: byte := 0x2e

  /** Offset of the first '/', or the length. */
  function SlashAt(s: seq<byte>): (n: nat)
    ensures n <= |s| && (n < |s| ==> s[n] == SLASH)
  {
    if s == [] || s[0] == SLASH then 0 else 1 + SlashAt(s[1..])
  }

  lemma {:induction false} SlashAtUnique(s: seq<byte>, n: nat)
    requires n <= |s| && SLASH !in s[..n] && (n < |s| ==> s[n] == SLASH)
    ensures SlashAt(s) == n
  {
    if n > 0 {
      assert s[0] in s[..n];
      assert s[1..][..n - 1] == s[..n][1..];
      SlashAtUnique(s[1..], n - 1);
    }
  }

  lemma {:induction false} NoSlashBefore(s: seq<byte>)
    ensures SLASH !in s[..SlashAt(s)]
  {
    if s != [] && s[0] != SLASH {
      NoSlashBefore(s[1..]);
      assert s[..SlashAt(s)] == [s[0]] + s[1..][..SlashAt(s[1..])];
    }
  }

  /** Where the component after the first one starts. */
  function Next(s: seq<byte>): (n: nat)
    ensures n <= |s| && (s != [] ==> n > 0)
  {
    if SlashAt(s) < |s| then SlashAt(s) + 1 else SlashAt(s)
  }

  function Rest(s: seq<byte>): seq<byte>
  {
    s[Next(s)..]
  }

  // ----- what the loop computes -----

  /** Where a ".." leaves the write cursor: after the slash before the last segment. */
  function PopTo(out: seq<byte>): (d: nat)
    ensures d <= |out|
  {
    var d := if |out| > 1 && out[|out| - 1] == SLASH then |out| - 1 else |out|;
    BackToSlash(out, d)
  }

  function BackToSlash(out: seq<byte>, d: nat): (r: nat)
    requires d <= |out|
    ensures r <= d && (r > 0 ==> out[r - 1] == SLASH) && (forall k :: r <= k < d ==> out[k] != SLASH)
  {
    if d > 0 && out[d - 1] != SLASH then BackToSlash(out, d - 1) else d
  }

  function IsDot(c: seq<byte>): bool { c == [DOT] }

  function IsDotDot(c: seq<byte>): bool { c == [DOT, DOT] }

  /** Segments of the input, each with its slash, against the output written so far. */
  function Norm(out: seq<byte>, input: seq<byte>): seq<byte>
    decreases |input|
  {
    if input == [] then out
    else
      var i := SlashAt(input);
      if IsDot(input[..i]) then Norm(out, Rest(input))
      else if IsDotDot(input[..i]) then Norm(out[..PopTo(out)], Rest(input))
      else Norm(out + input[..Next(input)], Rest(input))
  }

  // ----- RFC 3986, section 5.2.4 -----

  /** Removes the last segment and its preceding slash, if any. */
  function DropLast(out: seq<byte>): seq<byte>
  {
    var r := BackToSlash(out, |out|);
    if r == 0 then [] else out[..r - 1]
  }

  /** One of the steps 2A to 2E: the input and output buffers after it. */
  function Rule(input: seq<byte>, out: seq<byte>): (r: (seq<byte>, seq<byte>))
    requires input != []
    ensures |r.0| < |input|
  {
    if [DOT, DOT, SLASH] <= input then (input[3..], out)
    else if [DOT, SLASH] <= input then (input[2..], out)
    else if [SLASH, DOT, SLASH] <= input then ([SLASH] + input[3..], out)
    else if input == [SLASH, DOT] then ([SLASH], out)
    else if [SLASH, DOT, DOT, SLASH] <= input then ([SLASH] + input[4..], DropLast(out))
    else if input == [SLASH, DOT, DOT] then ([SLASH], DropLast(out))
    else if input == [DOT] || input == [DOT, DOT] then ([], out)
    else
      var n := 1 + SlashAt(input[1..]);
      (input[n..], out + input[..n])
  }

  /** The steps, applied until the input buffer is empty. */
  function RemoveDotSegments(input: seq<byte>, out: seq<byte>): seq<byte>
    decreases |input|
  {
    if input == [] then out
    else
      var (input', out') := Rule(input, out);
      RemoveDotSegments(input', out')
  }

  /** The loop has o and a slash written, where the standard has o written and a slash still to read. */
  lemma {:induction false} NormIsRemoveDotSegments(o: seq<byte>, input: seq<byte>)
    requires o != [] ==> o[0] == SLASH
    ensures Norm(o + [SLASH], input) == RemoveDotSegments([SLASH] + input, o)
    decreases |input|
  {
    hide Rule, DropLast, PopTo, SlashAt, Rest, Next;
    if input == [] {
      SlashOnly(o);
    } else {
      var comp, rest := input[..SlashAt(input)], Rest(input);
      NormUnfold(o + [SLASH], input);
      if IsDot(comp) {
        DotRead(input, o);
        NormIsRemoveDotSegments(o, rest);
      } else if IsDotDot(comp) {
        DotDotRead(input, o);
        PopIsDropLast(o);
        NormIsRemoveDotSegments(DropLast(o), rest);
      } else {
        PlainRead(input, o);
        PlainWritten(input, o);
        if SlashAt(input) < |input| {
          NormIsRemoveDotSegments(o + ([SLASH] + comp), rest);
        }
      }
    }
  }

  lemma PlainWritten(input: seq<byte>, o: seq<byte>)
    requires input != []
    ensures var o' := (o + [SLASH]) + input[..Next(input)];
            var o1 := o + ([SLASH] + input[..SlashAt(input)]);
            && (SlashAt(input) < |input| ==> o' == o1 + [SLASH])
            && (SlashAt(input) == |input| ==> o' == o1 && Rest(input) == [])
  {
    var i := SlashAt(input);
    SlashMoves(o, input[..i]);
    if i < |input| {
      SplitAt(input, i);
    } else {
      assert input[..i] == input && input[i..] == [];
    }
    hide SlashAt;
  }

  lemma SlashMoves(o: seq<byte>, comp: seq<byte>)
    ensures (o + [SLASH]) + comp == o + ([SLASH] + comp)
    ensures (o + [SLASH]) + (comp + [SLASH]) == o + ([SLASH] + comp) + [SLASH]
  {
  }

  /** One turn of the loop. */
  lemma NormUnfold(out: seq<byte>, input: seq<byte>)
    requires input != []
    ensures var comp, rest := input[..SlashAt(input)], Rest(input);
            Norm(out, input) == Norm(if IsDot(comp) then out
                                     else if IsDotDot(comp) then out[..PopTo(out)]
                                     else out + input[..Next(input)], rest)
  {
    hide SlashAt, Next, PopTo, IsDot, IsDotDot;
  }

  lemma SlashOnly(o: seq<byte>)
    ensures RemoveDotSegments([SLASH] + [], o) == o + [SLASH]
  {
    var whole := [SLASH] + [];
    assert whole == [SLASH] && whole[1..] == [] && whole[..1] == whole;
    assert RemoveDotSegments([], o + whole) == o + whole;
  }

  lemma PopIsDropLast(o: seq<byte>)
    requires o != [] ==> o[0] == SLASH
    ensures var out := o + [SLASH]; out[..PopTo(out)] == DropLast(o) + [SLASH]
    ensures DropLast(o) != [] ==> DropLast(o)[0] == SLASH
  {
    var out := o + [SLASH];
    SameBack(o, out, |o|);
  }

  lemma {:induction false} SameBack(o: seq<byte>, out: seq<byte>, d: nat)
    requires d <= |o| && o <= out
    ensures BackToSlash(o, d) == BackToSlash(out, d)
    decreases d
  {
    if d > 0 && o[d - 1] != SLASH {
      SameBack(o, out, d - 1);
    }
  }

  /** The standard's rules 2B and 2C on their own patterns. */
  lemma RuleOnDots(rest: seq<byte>, o: seq<byte>)
    ensures Rule([SLASH, DOT, SLASH] + rest, o) == ([SLASH] + rest, o)
    ensures Rule([SLASH, DOT, DOT, SLASH] + rest, o) == ([SLASH] + rest, DropLast(o))
    ensures Rule([SLASH, DOT], o) == ([SLASH], o)
    ensures Rule([SLASH, DOT, DOT], o) == ([SLASH], DropLast(o))
  {
    hide DropLast, SlashAt;
    var one, two := [SLASH, DOT, SLASH] + rest, [SLASH, DOT, DOT, SLASH] + rest;
    assert one[3..] == rest && two[4..] == rest;
    assert one[..3] == [SLASH, DOT, SLASH] && two[..4] == [SLASH, DOT, DOT, SLASH];
    assert one[0] == SLASH && two[0] == SLASH;
    assert one[1] == DOT && one[2] == SLASH && two[1] == DOT && two[2] == DOT;
  }

  /** The two shapes of an input, by its first segment. */
  lemma FirstSegment(input: seq<byte>)
    ensures SlashAt(input) < |input| ==> input == input[..SlashAt(input)] + ([SLASH] + Rest(input))
    ensures SlashAt(input) == |input| ==> input == input[..SlashAt(input)] && Rest(input) == []
    ensures input[SlashAt(input)..] == if SlashAt(input) < |input| then [SLASH] + Rest(input) else []
  {
    hide SlashAt, Next, Rest;
    var next := RestFrom(input);
    UpToSlash(input, SlashAt(input), next);
  }

  lemma RestFrom(input: seq<byte>) returns (next: nat)
    ensures next == SlashAt(input) + (if SlashAt(input) < |input| then 1 else 0) && Rest(input) == input[next..]
  {
    hide SlashAt;
    next := Next(input);
  }

  lemma UpToSlash(input: seq<byte>, n: nat, next: nat)
    requires n <= |input| && (n < |input| ==> input[n] == SLASH) && next == n + if n < |input| then 1 else 0
    ensures n < |input| ==> input == input[..n] + ([SLASH] + input[next..])
    ensures n == |input| ==> input == input[..n] && input[next..] == []
    ensures input[n..] == if n < |input| then [SLASH] + input[next..] else []
  {
  }

  lemma DotRead(input: seq<byte>, o: seq<byte>)
    requires IsDot(input[..SlashAt(input)])
    ensures Rule([SLASH] + input, o) == ([SLASH] + Rest(input), o)
  {
    hide Rule, SlashAt, Rest;
    var rest := Rest(input);
    FirstSegment(input);
    RuleOnDots(rest, o);
    if SlashAt(input) < |input| {
      assert [SLASH] + ([DOT] + ([SLASH] + rest)) == [SLASH, DOT, SLASH] + rest;
    } else {
      assert [SLASH] + [DOT] == [SLASH, DOT] && [SLASH] + [] == [SLASH];
    }
  }

  lemma DotDotRead(input: seq<byte>, o: seq<byte>)
    requires IsDotDot(input[..SlashAt(input)])
    ensures Rule([SLASH] + input, o) == ([SLASH] + Rest(input), DropLast(o))
  {
    hide Rule, SlashAt, DropLast, Rest;
    var rest := Rest(input);
    FirstSegment(input);
    RuleOnDots(rest, o);
    if SlashAt(input) < |input| {
      assert [SLASH] + ([DOT, DOT] + ([SLASH] + rest)) == [SLASH, DOT, DOT, SLASH] + rest;
    } else {
      assert [SLASH] + [DOT, DOT] == [SLASH, DOT, DOT] && [SLASH] + [] == [SLASH];
    }
  }

  /** The standard's rule 2E on an input whose first segment is no dot segment. */
  lemma PlainRead(input: seq<byte>, o: seq<byte>)
    requires input != [] && !IsDot(input[..SlashAt(input)]) && !IsDotDot(input[..SlashAt(input)])
    ensures Rule([SLASH] + input, o)
            == (if SlashAt(input) < |input| then [SLASH] + Rest(input) else [], o + ([SLASH] + input[..SlashAt(input)]))
  {
    DotPrefix(input);
    PrefixShift(input);
    RuleMove(input, o);
    FirstSegment(input);
    hide SlashAt, IsDot, IsDotDot, DropLast, Rest, Rule;
  }

  lemma RuleMove(input: seq<byte>, o: seq<byte>)
    requires !([SLASH, DOT, SLASH] <= [SLASH] + input) && !([SLASH, DOT, DOT, SLASH] <= [SLASH] + input)
    requires [SLASH] + input != [SLASH, DOT] && [SLASH] + input != [SLASH, DOT, DOT]
    ensures Rule([SLASH] + input, o) == (input[SlashAt(input)..], o + ([SLASH] + input[..SlashAt(input)]))
  {
    hide SlashAt, DropLast;
    var whole, i := [SLASH] + input, SlashAt(input);
    assert whole[0] == SLASH && whole[1..] == input;
    assert whole[1 + i..] == input[i..] && whole[..1 + i] == [SLASH] + input[..i];
  }

  lemma PrefixShift(input: seq<byte>)
    ensures [SLASH, DOT, SLASH] <= [SLASH] + input ==> [DOT, SLASH] <= input
    ensures [SLASH, DOT, DOT, SLASH] <= [SLASH] + input ==> [DOT, DOT, SLASH] <= input
    ensures [SLASH] + input == [SLASH, DOT] ==> input == [DOT]
    ensures [SLASH] + input == [SLASH, DOT, DOT] ==> input == [DOT, DOT]
  {
    var whole := [SLASH] + input;
    assert whole[1..] == input;
    if [SLASH, DOT, SLASH] <= whole {
      assert input[..2] == whole[..3][1..] == [DOT, SLASH];
    }
    if [SLASH, DOT, DOT, SLASH] <= whole {
      assert input[..3] == whole[..4][1..] == [DOT, DOT, SLASH];
    }
    assert whole == [SLASH, DOT] ==> input == [SLASH, DOT][1..];
    assert whole == [SLASH, DOT, DOT] ==> input == [SLASH, DOT, DOT][1..];
  }

  lemma DotPrefix(input: seq<byte>)
    ensures input == [DOT] || [DOT, SLASH] <= input ==> IsDot(input[..SlashAt(input)])
    ensures input == [DOT, DOT] || [DOT, DOT, SLASH] <= input ==> IsDotDot(input[..SlashAt(input)])
  {
    if input == [DOT] || [DOT, SLASH] <= input {
      SlashAtUnique(input, 1);
    }
    if input == [DOT, DOT] || [DOT, DOT, SLASH] <= input {
      SlashAtUnique(input, 2);
    }
  }

  // ----- properties of the result -----

  /** No segment is "." or "..". */
  predicate DotFree(s: seq<byte>)
  {
    var i := SlashAt(s);
    !IsDot(s[..i]) && !IsDotDot(s[..i]) && (i < |s| ==> DotFree(s[i + 1..]))
  }

  lemma {:induction false} DotFreeJoin(a: seq<byte>, b: seq<byte>)
    ensures DotFree(a + [SLASH] + b) <==> DotFree(a) && DotFree(b)
    decreases |a|
  {
    var s, i := a + [SLASH] + b, SlashAt(a);
    NoSlashBefore(a);
    assert s[..i] == a[..i];
    SlashAtUnique(s, i);
    if i < |a| {
      assert s[i + 1..] == a[i + 1..] + [SLASH] + b;
      DotFreeJoin(a[i + 1..], b);
    } else {
      assert s[i + 1..] == b;
    }
  }

  lemma {:induction false} NormDotFree(o: seq<byte>, input: seq<byte>)
    requires DotFree(o) && (o != [] ==> o[0] == SLASH)
    ensures var r := Norm(o + [SLASH], input); DotFree(r) && r != [] && r[0] == SLASH
    decreases |input|
  {
    if input == [] {
      DotFreeJoin(o, []);
      assert o + [SLASH] + [] == o + [SLASH];
    } else {
      var i := SlashAt(input);
      var next := Next(input);
      if IsDot(input[..i]) {
        NormDotFree(o, input[next..]);
      } else if IsDotDot(input[..i]) {
        PopIsDropLast(o);
        DropLastDotFree(o);
        NormDotFree(DropLast(o), input[next..]);
      } else {
        var o' := o + [SLASH] + input[..i];
        NoSlashBefore(input);
        SegmentDotFree(input[..i]);
        DotFreeJoin(o, input[..i]);
        if i < |input| {
          assert (o + [SLASH]) + input[..next] == o' + [SLASH];
          NormDotFree(o', input[next..]);
        } else {
          assert (o + [SLASH]) + input[..next] == o';
        }
      }
    }
  }

  lemma SegmentDotFree(c: seq<byte>)
    requires SLASH !in c && !IsDot(c) && !IsDotDot(c)
    ensures DotFree(c)
  {
    assert c[..|c|] == c;
    SlashAtUnique(c, |c|);
  }

  lemma DropLastDotFree(o: seq<byte>)
    requires DotFree(o)
    ensures DotFree(DropLast(o))
  {
    var r := BackToSlash(o, |o|);
    if r != 0 {
      assert o == o[..r - 1] + [SLASH] + o[r..];
      DotFreeJoin(o[..r - 1], o[r..]);
    }
  }

  lemma {:induction false} NormKeepsDotFree(out: seq<byte>, input: seq<byte>)
    requires DotFree(input)
    ensures Norm(out, input) == out + input
    decreases |input|
  {
    if input == [] {
      assert out + input == out;
    } else {
      var i, next := SlashAt(input), Next(input);
      if i < |input| {
        NormKeepsDotFree(out + input[..next], input[next..]);
      } else {
        assert input[next..] == [];
      }
      assert (out + input[..next]) + input[next..] == out + input;
    }
  }

  /** What is written for a path: the loop's output, or "/" should that be empty. */
  function Normalized(path: seq<byte>): seq<byte>
  {
    var r := Norm([], path);
    if r == [] then [SLASH] else r
  }

  lemma RootFirst(rest: seq<byte>)
    ensures Norm([], [SLASH] + rest) == Norm([SLASH], rest)
  {
    var path := [SLASH] + rest;
    SlashAtUnique(path, 0);
    assert path[1..] == rest && [] + path[..1] == [SLASH];
  }

  /** Normalisation is remove_dot_segments on every path that starts with '/'. */
  lemma NormalizedIsRemoveDotSegments(path: seq<byte>)
    requires path != [] && path[0] == SLASH
    ensures Normalized(path) == RemoveDotSegments(path, [])
  {
    var rest := path[1..];
    assert path == [SLASH] + rest && [] + [SLASH] == [SLASH];
    RootFirst(rest);
    NormIsRemoveDotSegments([], rest);
    NormDotFree([], rest);
  }

  /** The result is absolute, has no dot segment, and is left alone by a second normalisation. */
  lemma NormalizedProperties(path: seq<byte>)
    requires path != [] && path[0] == SLASH
    ensures var r := Normalized(path);
            r != [] && r[0] == SLASH && DotFree(r) && Normalized(r) == r
  {
    var rest := path[1..];
    assert path == [SLASH] + rest && [] + [SLASH] == [SLASH];
    RootFirst(rest);
    NormDotFree([], rest);
    var r := Normalized(path);
    NormKeepsDotFree([], r);
    assert [] + r == r;
  }

  // ----- in place -----

  /** Scans to the end of the component at s: its length, and where the next one starts. */
  method ParseComponent(a: array<byte>, s: nat, se: nat) returns (len: nat, next: nat)
    requires s <= se <= a.Length
    ensures var rest := a[..][s..se];
            len == SlashAt(rest) && next == s + Next(rest)
  {
    ghost var rest := a[..][s..se];
    next := s;
    while next < se && a[next] != SLASH
      invariant s <= next <= se
      invariant SLASH !in rest[..next - s]
    {
      assert rest[..next - s + 1] == rest[..next - s] + [rest[next - s]];
      next := next + 1;
    }
    SlashAtUnique(rest, next - s);
    len := next - s;
    if next < se {
      next := next + 1;
    }
  }

  /** One component: skipped, undone, or moved down to the write cursor. */
  method Turn(a: array<byte>, s: nat, d: nat, n: nat) returns (next: nat, d': nat)
    requires d <= s < n <= a.Length
    modifies a
    ensures s < next <= n && d' <= next
    ensures a[..][n..] == old(a[..])[n..]
    ensures Norm(a[..][..d'], a[..][next..n]) == Norm(old(a[..])[..d], old(a[..])[s..n])
  {
    hide Norm, SlashAt, PopTo, Next;
    ghost var a0 := a[..];
    var i;
    i, next := ParseComponent(a, s, n);
    NormOnce(a0, d, s, n);
    d' := d;
    if i == 1 && a[s] == DOT {
    } else if i == 2 && a[s] == DOT && a[s + 1] == DOT {
      d' := Backtrack(a, d);
    } else {
      MemMove(a, d, s, next - s);
      Copied(a0, a[..], d, s, next, n);
      d' := d + (next - s);
    }
  }

  /** Normalises the path in the first n bytes of a, over itself; len is its new length. */
  method NormalizeUriPath(a: array<byte>, n: nat) returns (ok: bool, len: nat)
    requires n <= a.Length
    modifies a
    ensures ok == (n > 0 && old(a[..])[0] == SLASH)
    ensures ok ==> len <= n && a[..][..len] == Normalized(old(a[..])[..n])
    ensures !ok ==> len == 0 && a[..] == old(a[..])
    ensures a[..][n..] == old(a[..])[n..]
  {
    ghost var path := a[..][..n];
    if n == 0 || a[0] != SLASH {
      return false, 0;
    }
    var s, d := 0, 0;
    while s < n
      invariant 0 <= d <= s <= n
      invariant a[..][n..] == old(a[..])[n..]
      invariant Norm(a[..][..d], a[..][s..n]) == Norm([], path)
    {
      s, d := Turn(a, s, d, n);
    }
    NormEnd(a[..][..d], a[..][s..n]);
    if d == 0 {
      a[d] := SLASH;
      d := 1;
    }
    return true, d;
  }

  lemma NormEnd(out: seq<byte>, input: seq<byte>)
    requires input == []
    ensures Norm(out, input) == out
  {
  }

  /** One turn of the loop over contents a, with the write cursor at d and the read cursor at s. */
  lemma NormOnce(a: seq<byte>, d: nat, s: nat, n: nat)
    requires d <= s < n <= |a|
    ensures var input := a[s..n];
            var i, next := SlashAt(input), s + Next(input);
            && next <= n
            && (i == 1 && a[s] == DOT ==>
                  Norm(a[..d], input) == Norm(a[..d], a[next..n]))
            && (i == 2 && a[s] == DOT && a[s + 1] == DOT ==>
                  Norm(a[..d], input) == Norm(a[..d][..PopTo(a[..d])], a[next..n]))
            && (!(i == 1 && a[s] == DOT) && !(i == 2 && a[s] == DOT && a[s + 1] == DOT) ==>
                  Norm(a[..d], input) == Norm(a[..d] + a[s..next], a[next..n]))
  {
    hide Norm, PopTo, SlashAt, IsDot, IsDotDot;
    var input, out := a[s..n], a[..d];
    NormUnfold(out, input);
    var k := Next(input);
    SliceParts(a, s, n, k);
    DotsAt(a, s, n, SlashAt(input));
  }

  lemma DotsAt(a: seq<byte>, s: nat, n: nat, i: nat)
    requires s + i <= n <= |a|
    ensures IsDot(a[s..n][..i]) <==> i == 1 && a[s] == DOT
    ensures IsDotDot(a[s..n][..i]) <==> i == 2 && a[s] == DOT && a[s + 1] == DOT
  {
    SliceOfSlice(a, s, n, 0, i);
    assert i == 1 ==> a[s..s + i] == [a[s]];
    assert i == 2 ==> a[s..s + i] == [a[s], a[s + 1]];
  }

  lemma Copied(a0: seq<byte>, a1: seq<byte>, d: nat, s: nat, next: nat, n: nat)
    requires d <= s <= next <= n <= |a0|
    requires a1 == a0[..d] + a0[s..s + (next - s)] + a0[d + (next - s)..]
    ensures |a1| == |a0| && a1[next..n] == a0[next..n] && a1[n..] == a0[n..]
    ensures a1[..d + (next - s)] == a0[..d] + a0[s..next]
  {
  }

  method Backtrack(a: array<byte>, from: nat) returns (d: nat)
    requires from <= a.Length
    ensures d == PopTo(a[..][..from]) && a[..][..d] == a[..][..from][..d]
  {
    ghost var out := a[..][..from];
    d := from;
    if d > 1 && a[d - 1] == SLASH {
      d := d - 1;
    }
    while d > 0 && a[d - 1] != SLASH
      invariant d <= from && BackToSlash(out, d) == PopTo(out)
    {
      d := d - 1;
    }
  }

  // ----- paths as their segments -----

  /** Segments, each behind a slash, 2f. */
  function Path(segments: seq<seq<byte>>): (s: seq<byte>)
    ensures s != [] ==> s[0] == 0x2f
  {
    if segments == [] then [] else [0x2f] + segments[0] + Path(segments[1..])
  }

  predicate Dots(s: seq<byte>) {
    s == [0x2e] || s == [0x2e, 0x2e]
  }

  /** The segments above s: of two dots, 2e, the one in front of them is not. */
  function Above(above: seq<seq<byte>>, s: seq<byte>): seq<seq<byte>> {
    if s == [0x2e, 0x2e] && above != [] then above[..|above| - 1] else above
  }

  /** Segments behind those of above, without the dots; a path that ends in dots ends in a slash. */
  function Climb(above: seq<seq<byte>>, segments: seq<seq<byte>>): seq<seq<byte>>
    decreases |segments|
  {
    if segments == [] then above
    else if !Dots(segments[0]) then Climb(above + [segments[0]], segments[1..])
    else if |segments| == 1 then Above(above, segments[0]) + [[]]
    else Climb(Above(above, segments[0]), segments[1..])
  }

  predicate NoSlashes(segments: seq<seq<byte>>) {
    forall i :: 0 <= i < |segments| ==> 0x2f !in segments[i]
  }

  /** Every path that starts with a slash is one of segments without any. */
  lemma {:induction false} Segmented(path: seq<byte>) returns (segments: seq<seq<byte>>)
    requires path != [] ==> path[0] == 0x2f
    ensures NoSlashes(segments) && Path(segments) == path
    decreases |path|
  {
    if path == [] {
      segments := [];
    } else {
      var n := SlashAt(path[1..]);
      NoSlashBefore(path[1..]);
      var rest := Segmented(path[1 + n..]);
      segments := [path[1..][..n]] + rest;
      hide Path, SlashAt;
      PathOnce(segments);
      assert segments[1..] == rest && path == [0x2f] + path[1..][..n] + path[1 + n..];
    }
  }

  lemma {:induction false} PathSnoc(segments: seq<seq<byte>>, s: seq<byte>)
    ensures Path(segments + [s]) == Path(segments) + [0x2f] + s
  {
    if segments == [] {
      assert [s][1..] == [] && Path([]) == [];
      assert Path([s]) == [0x2f] + s + Path([]);
    } else {
      var t := segments + [s];
      PathSnoc(segments[1..], s);
      assert t[0] == segments[0] && t[1..] == segments[1..] + [s];
      assert Path(t) == [0x2f] + segments[0] + (Path(segments[1..]) + [0x2f] + s);
    }
  }

  /** What normalisation does, segment by segment. */
  lemma {:induction false} SegmentsAre(above: seq<seq<byte>>, segments: seq<seq<byte>>)
    requires NoSlashes(above) && NoSlashes(segments)
    ensures RemoveDotSegments(Path(segments), Path(above)) == Path(Climb(above, segments))
    decreases |segments|
  {
    hide RemoveDotSegments, DropLast, Path;
    PathOnce(segments);
    if segments != [] {
      var s, rest := segments[0], segments[1..];
      PathOnce(rest);
      if Dots(s) {
        AbovePath(above, s);
        DotStep(s, Path(rest), Path(above));
        if rest == [] {
          PathSnoc(Above(above, s), []);
          LastSlash(Path(Above(above, s)));
          assert [0x2f] + [] == [0x2f];
        } else {
          assert [0x2f] + Path(rest)[1..] == Path(rest);
          SegmentsAre(Above(above, s), rest);
        }
      } else {
        PlainStep(s, Path(rest), Path(above));
        PathSnoc(above, s);
        SegmentsAre(above + [s], rest);
      }
    } else {
      NothingRead(Path(above));
    }
  }

  lemma NothingRead(out: seq<byte>)
    ensures RemoveDotSegments([], out) == out
  {
  }

  lemma PathOnce(segments: seq<seq<byte>>)
    ensures segments == [] ==> Path(segments) == []
    ensures segments != [] ==> Path(segments) == [0x2f] + segments[0] + Path(segments[1..])
  {
  }

  lemma AbovePath(above: seq<seq<byte>>, s: seq<byte>)
    requires NoSlashes(above) && Dots(s)
    ensures NoSlashes(Above(above, s))
    ensures Path(Above(above, s)) == if s == [0x2e] then Path(above) else DropLast(Path(above))
  {
    if above == [] {
      NothingDropped();
    } else {
      hide DropLast, Path;
      var n := |above| - 1;
      assert above[..n] + [above[n]] == above;
      DropLastIs(above[..n], above[n]);
    }
  }

  lemma PlainStep(a: seq<byte>, rest: seq<byte>, out: seq<byte>)
    requires 0x2f !in a && !Dots(a) && (rest == [] || rest[0] == 0x2f)
    ensures RemoveDotSegments([0x2f] + a + rest, out) == RemoveDotSegments(rest, out + [0x2f] + a)
  {
    var input := [0x2f] + a + rest;
    NoDotsInFront(a, rest);
    FirstMoved(a, rest);
    hide Dots, SlashAt;
    OtherRule(input, out, 1 + |a|);
    hide Rule;
    assert out + ([0x2f] + a) == out + [0x2f] + a;
  }

  lemma FirstMoved(a: seq<byte>, rest: seq<byte>)
    requires 0x2f !in a && (rest == [] || rest[0] == 0x2f)
    ensures var input, n := [0x2f] + a + rest, 1 + |a|;
            input[1..] == a + rest && SlashAt(input[1..]) == |a| && input[..n] == [0x2f] + a && input[n..] == rest
  {
    assert ([0x2f] + a + rest)[1..] == a + rest && (a + rest)[..|a|] == a;
    SlashAtUnique(a + rest, |a|);
  }

  lemma OtherRule(input: seq<byte>, out: seq<byte>, n: nat)
    requires |input| >= n > 0 && input[0] == 0x2f && SlashAt(input[1..]) == n - 1
    requires !([SLASH, DOT, SLASH] <= input) && input != [SLASH, DOT]
    requires !([SLASH, DOT, DOT, SLASH] <= input) && input != [SLASH, DOT, DOT]
    ensures Rule(input, out) == (input[n..], out + input[..n])
  {
    hide DropLast, SlashAt;
  }

  lemma NoDotsInFront(a: seq<byte>, rest: seq<byte>)
    requires 0x2f !in a && !Dots(a) && (rest == [] || rest[0] == 0x2f)
    ensures var s := [0x2f] + a + rest;
            && !([SLASH, DOT, SLASH] <= s) && s != [SLASH, DOT]
            && !([SLASH, DOT, DOT, SLASH] <= s) && s != [SLASH, DOT, DOT] && s[0] == 0x2f
  {
    var s := [0x2f] + a + rest;
    assert s[0] == 0x2f && (rest != [] ==> s[1 + |a|] == 0x2f);
    if |a| == 1 {
      assert s[1] == a[0] && a == [a[0]];
    } else if |a| == 2 {
      assert s[1] == a[0] && s[2] == a[1] && a == [a[0], a[1]];
    } else if |a| > 2 {
      assert s[2] == a[1] && s[3] == a[2] && a[1] in a && a[2] in a;
    }
  }

  lemma DotStep(s: seq<byte>, rest: seq<byte>, out: seq<byte>)
    requires Dots(s) && (rest == [] || rest[0] == 0x2f)
    ensures RemoveDotSegments([0x2f] + s + rest, out)
            == RemoveDotSegments([0x2f] + if rest == [] then [] else rest[1..], if s == [0x2e] then out else DropLast(out))
  {
    if s == [0x2e] {
      OneDot(rest, out);
    } else {
      TwoDots(rest, out);
    }
    hide Rule, DropLast;
  }

  lemma OneDot(rest: seq<byte>, out: seq<byte>)
    requires rest == [] || rest[0] == 0x2f
    ensures Rule([0x2f] + [0x2e] + rest, out) == ([0x2f] + if rest == [] then [] else rest[1..], out)
  {
    var input := [0x2f] + [0x2e] + rest;
    hide DropLast;
    assert input[0] == 0x2f && input[1] == 0x2e;
    if rest == [] {
      assert input == [SLASH, DOT] && [0x2f] + [] == [SLASH];
    } else {
      assert input[2] == 0x2f && input[3..] == rest[1..];
    }
  }

  lemma TwoDots(rest: seq<byte>, out: seq<byte>)
    requires rest == [] || rest[0] == 0x2f
    ensures Rule([0x2f] + [0x2e, 0x2e] + rest, out) == ([0x2f] + if rest == [] then [] else rest[1..], DropLast(out))
  {
    var input := [0x2f] + [0x2e, 0x2e] + rest;
    hide DropLast;
    assert input[0] == 0x2f && input[1] == 0x2e && input[2] == 0x2e;
    if rest == [] {
      assert input == [SLASH, DOT, DOT] && [0x2f] + [] == [SLASH];
    } else {
      assert input[3] == 0x2f && input[4..] == rest[1..];
    }
  }

  lemma LastSlash(out: seq<byte>)
    ensures RemoveDotSegments([0x2f], out) == out + [0x2f]
  {
  }

  lemma DropLastIs(front: seq<seq<byte>>, a: seq<byte>)
    requires 0x2f !in a
    ensures DropLast(Path(front + [a])) == Path(front)
  {
    hide DropLast, Path;
    PathSnoc(front, a);
    LastDropped(Path(front), a);
  }

  lemma LastDropped(front: seq<byte>, a: seq<byte>)
    requires 0x2f !in a
    ensures DropLast(front + [0x2f] + a) == front
  {
    var out, n := front + [0x2f] + a, |front|;
    assert out[n] == 0x2f && forall k :: n < k < |out| ==> out[k] == a[k - n - 1];
    assert BackToSlash(out, |out|) == n + 1;
  }

  lemma NothingDropped()
    ensures DropLast([]) == []
  {
  }
}
