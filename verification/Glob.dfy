/**
 Glob patterns: `?` one byte, `*` any bytes but '/', `**` any bytes, `$` end of string
 (what follows it is ignored), `|` alternatives, everything else itself in either case.
 Patterns and strings are NUL-terminated, so the byte just past a pattern is no '*'.
 */
module Glob {
  import opened Bytes

  const QUESTION: byte := 0x3f
  const DOLLAR: byte := 0x24
  const STAR: byte := 0x2a
  const SLASH: byte := 0x2f
  const BAR: byte := 0x7c

  // ----- what a pattern means -----

  datatype Token = AnyOne | AnyInSegment | AnyAtAll | AtEnd | Literal(c: byte)

  function Tokens(p: seq<byte>): seq<Token>
    decreases |p|
  {
    if p == [] then []
    else if p[0] == QUESTION then [AnyOne] + Tokens(p[1..])
    else if p[0] == DOLLAR then [AtEnd]
    else if p[0] == STAR then
      if |p| > 1 && p[1] == STAR then [AnyAtAll] + Tokens(p[2..]) else [AnyInSegment] + Tokens(p[1..])
    else [Literal(p[0])] + Tokens(p[1..])
  }

  /** A piece of text that one token may stand for. */
  predicate PieceOk(t: Token, w: seq<byte>)
  {
    match t
    case AnyOne => |w| == 1
    case AnyInSegment => SLASH !in w
    case AnyAtAll => true
    case AtEnd => w == []
    case Literal(c) => |w| == 1 && Lower(w[0]) == Lower(c)
  }

  /** The declarative meaning: a prefix of s falls into pieces, one for each token; `$` wants the prefix to be all of s. */
  ghost predicate Matches(ts: seq<Token>, s: seq<byte>, pieces: seq<seq<byte>>)
  {
    && |pieces| == |ts|
    && Concat(pieces) <= s
    && (forall k :: 0 <= k < |ts| ==> PieceOk(ts[k], pieces[k]))
    && (AtEnd in ts ==> Concat(pieces) == s)
  }

  // ----- the greedy match -----

  /** Number of bytes before the first '/'. */
  function SegmentLen(s: seq<byte>): (n: nat)
    ensures n <= |s| && SLASH !in s[..n] && (n < |s| ==> s[n] == SLASH)
  {
    if s == [] || s[0] == SLASH then 0 else 1 + SegmentLen(s[1..])
  }

  /** The pieces chosen by trying, for each star, the longest text first. */
  function Best(ts: seq<Token>, s: seq<byte>): Option<seq<seq<byte>>>
    decreases |ts|, 0
  {
    if ts == [] then Some([])
    else match ts[0]
      case AnyOne => if s == [] then None else BestAfter(ts, s, 1)
      case AnyInSegment => BestUpTo(ts, s, SegmentLen(s))
      case AnyAtAll => BestUpTo(ts, s, |s|)
      case AtEnd => if s == [] then BestAfter(ts, s, 0) else None
      case Literal(c) => if s == [] || Lower(s[0]) != Lower(c) then None else BestAfter(ts, s, 1)
  }

  /** The first token takes n bytes. */
  function BestAfter(ts: seq<Token>, s: seq<byte>, n: nat): Option<seq<seq<byte>>>
    requires ts != [] && n <= |s|
    decreases |ts|, 0, 0
  {
    match Best(ts[1..], s[n..])
    case None => None
    case Some(rest) => Some([s[..n]] + rest)
  }

  /** The first token takes as many bytes as it can, n at the most. */
  function BestUpTo(ts: seq<Token>, s: seq<byte>, n: nat): Option<seq<seq<byte>>>
    requires ts != [] && n <= |s|
    decreases |ts|, 0, n + 1
  {
    match BestAfter(ts, s, n)
    case None => if n == 0 then None else BestUpTo(ts, s, n - 1)
    case Some(pieces) => Some(pieces)
  }

  /** What the matcher returns for a choice of pieces: the length of the matched prefix. */
  function Score(r: Option<seq<seq<byte>>>): (n: int)
    ensures n >= -1 && (n == -1 <==> r.None?)
  {
    if r.None? then -1 else |Concat(r.value)|
  }

  /** `$` ends a token list. */
  ghost predicate EndsOnly(ts: seq<Token>)
  {
    forall k :: 0 <= k < |ts| - 1 ==> ts[k] != AtEnd
  }

  lemma {:induction false} TokensEndOnly(p: seq<byte>)
    ensures EndsOnly(Tokens(p))
    decreases |p|
  {
    if p != [] && p[0] != DOLLAR {
      if p[0] == STAR && |p| > 1 && p[1] == STAR {
        TokensEndOnly(p[2..]);
      } else {
        TokensEndOnly(p[1..]);
      }
    }
  }

  lemma PrefixCons(w: seq<byte>, c: seq<byte>, s: seq<byte>)
    ensures w + c <= s <==> w <= s && c <= s[|w|..]
    ensures w <= s ==> (w + c == s <==> c == s[|w|..])
  {
    if w + c <= s {
      assert s[..|w|] == (w + c)[..|w|] == w;
    }
    if w <= s {
      assert s == w + s[|w|..];
      ConcatParts(w, s[|w|..]);
      if w + c <= s {
        assert c == s[|w|..][..|c|];
      }
      if c <= s[|w|..] {
        assert w + c == s[..|w| + |c|];
      }
    }
  }

  /** Matching, one piece at a time. */
  lemma MatchesCons(ts: seq<Token>, s: seq<byte>, w: seq<byte>, rest: seq<seq<byte>>)
    requires ts != [] && EndsOnly(ts)
    ensures Matches(ts, s, [w] + rest) <==>
              && PieceOk(ts[0], w) && w <= s && Matches(ts[1..], s[|w|..], rest)
              && (ts[0] == AtEnd ==> s == [])
  {
    var all := [w] + rest;
    assert all[1..] == rest && Concat(all) == w + Concat(rest);
    hide Concat, PieceOk;
    assert ts == [ts[0]] + ts[1..];
    PrefixCons(w, Concat(rest), s);
    if Matches(ts, s, all) {
      forall k | 0 <= k < |ts[1..]|
        ensures PieceOk(ts[1..][k], rest[k])
      {
        assert PieceOk(ts[k + 1], all[k + 1]);
      }
      assert PieceOk(ts[0], all[0]);
      if ts[0] == AtEnd {
        assert |ts| == 1;
        assert rest == [];
      }
    }
  }

  lemma {:induction false} BestSound(ts: seq<Token>, s: seq<byte>)
    requires EndsOnly(ts) && Best(ts, s).Some?
    ensures Matches(ts, s, Best(ts, s).value)
    decreases |ts|, 0
  {
    if ts != [] {
      match ts[0]
      case AnyInSegment => BestUpToSound(ts, s, SegmentLen(s));
      case AnyAtAll => BestUpToSound(ts, s, |s|);
      case AtEnd => BestAfterSound(ts, s, 0);
      case _ => BestAfterSound(ts, s, 1);
    }
  }

  lemma BestAfterSound(ts: seq<Token>, s: seq<byte>, n: nat)
    requires EndsOnly(ts) && ts != [] && n <= |s| && BestAfter(ts, s, n).Some?
    requires PieceOk(ts[0], s[..n]) && (ts[0] == AtEnd ==> s == [])
    ensures Matches(ts, s, BestAfter(ts, s, n).value)
    decreases |ts|, 0, 0
  {
    BestSound(ts[1..], s[n..]);
    MatchesCons(ts, s, s[..n], Best(ts[1..], s[n..]).value);
  }

  lemma {:induction false} BestUpToSound(ts: seq<Token>, s: seq<byte>, n: nat)
    requires EndsOnly(ts) && ts != [] && n <= |s| && BestUpTo(ts, s, n).Some?
    requires ts[0] == AnyAtAll || (ts[0] == AnyInSegment && SLASH !in s[..n])
    ensures Matches(ts, s, BestUpTo(ts, s, n).value)
    decreases |ts|, 0, n + 1
  {
    if BestAfter(ts, s, n).Some? {
      BestAfterSound(ts, s, n);
    } else {
      assert forall c :: c in s[..n - 1] ==> c in s[..n];
      BestUpToSound(ts, s, n - 1);
    }
  }

  /** The first list gives its first differing piece more text: what trying the longest first prefers. */
  predicate Preferred(a: seq<seq<byte>>, b: seq<seq<byte>>)
    requires |a| == |b|
  {
    a == [] || |a[0]| > |b[0]| || (|a[0]| == |b[0]| && Preferred(a[1..], b[1..]))
  }

  /** Whatever matches is found, or something preferred to it. */
  lemma {:induction false} BestComplete(ts: seq<Token>, s: seq<byte>, pieces: seq<seq<byte>>)
    requires EndsOnly(ts) && Matches(ts, s, pieces)
    ensures Best(ts, s).Some? && |Best(ts, s).value| == |pieces| && Preferred(Best(ts, s).value, pieces)
    decreases |ts|
  {
    if ts != [] {
      var w, rest := pieces[0], pieces[1..];
      assert pieces == [w] + rest;
      MatchesCons(ts, s, w, rest);
      assert w == s[..|w|];
      BestComplete(ts[1..], s[|w|..], rest);
      var found := BestAfter(ts, s, |w|).value;
      assert found[1..] == Best(ts[1..], s[|w|..]).value;
      match ts[0]
      case AnyInSegment =>
        SegmentBounds(s, |w|);
        BestUpToReaches(ts, s, |w|, SegmentLen(s));
      case AnyAtAll =>
        BestUpToReaches(ts, s, |w|, |s|);
      case _ =>
    }
  }

  lemma SegmentBounds(s: seq<byte>, n: nat)
    requires n <= |s| && SLASH !in s[..n]
    ensures n <= SegmentLen(s)
  {
  }

  /** Searching down from n stops at m or before. */
  lemma {:induction false} BestUpToReaches(ts: seq<Token>, s: seq<byte>, m: nat, n: nat)
    requires ts != [] && m <= n <= |s| && BestAfter(ts, s, m).Some?
    ensures BestUpTo(ts, s, n).Some?
    ensures var found := BestUpTo(ts, s, n).value;
            found == BestAfter(ts, s, m).value || (|found| > 0 && |found[0]| > m)
    ensures |BestUpTo(ts, s, n).value| == |BestAfter(ts, s, m).value|
    decreases n
  {
    if BestAfter(ts, s, n).Some? {
      BestCount(ts[1..], s[m..]);
      BestCount(ts[1..], s[n..]);
    } else {
      BestUpToReaches(ts, s, m, n - 1);
    }
  }

  lemma {:induction false} BestCount(ts: seq<Token>, s: seq<byte>)
    ensures Best(ts, s).Some? ==> |Best(ts, s).value| == |ts|
    decreases |ts|, 0
  {
    if ts != [] {
      match ts[0]
      case AnyInSegment => BestUpToCount(ts, s, SegmentLen(s));
      case AnyAtAll => BestUpToCount(ts, s, |s|);
      case AtEnd => BestCount(ts[1..], s[0..]);
      case _ => if s != [] { BestCount(ts[1..], s[1..]); }
    }
  }

  lemma {:induction false} BestUpToCount(ts: seq<Token>, s: seq<byte>, n: nat)
    requires ts != [] && n <= |s|
    ensures BestUpTo(ts, s, n).Some? ==> |BestUpTo(ts, s, n).value| == |ts|
    decreases |ts|, 0, n + 1
  {
    BestCount(ts[1..], s[n..]);
    if n > 0 {
      BestUpToCount(ts, s, n - 1);
    }
  }

  /**
   The matcher decides: -1 exactly when no prefix matches; otherwise the length of a prefix that
   does, by pieces that are preferred to those of any other match.
   */
  lemma MatchExact(p: seq<byte>, s: seq<byte>)
    ensures var n := Score(Best(Tokens(p), s));
            && (n == -1 <==> !exists pieces :: Matches(Tokens(p), s, pieces))
            && (n != -1 ==> exists best ::
                  && Matches(Tokens(p), s, best) && n == |Concat(best)|
                  && forall pieces :: Matches(Tokens(p), s, pieces) ==> |best| == |pieces| && Preferred(best, pieces))
  {
    var ts := Tokens(p);
    TokensEndOnly(p);
    if Best(ts, s).Some? {
      BestSound(ts, s);
      var best := Best(ts, s).value;
      forall pieces | Matches(ts, s, pieces)
        ensures |best| == |pieces| && Preferred(best, pieces)
      {
        BestComplete(ts, s, pieces);
      }
    } else if exists pieces :: Matches(ts, s, pieces) {
      var pieces :| Matches(ts, s, pieces);
      BestComplete(ts, s, pieces);
    }
  }

  // ----- alternatives -----

  function BarAt(p: seq<byte>): (n: nat)
    ensures n <= |p| && BAR !in p[..n] && (n < |p| ==> p[n] == BAR)
  {
    if p == [] || p[0] == BAR then 0 else 1 + BarAt(p[1..])
  }

  function Alternatives(p: seq<byte>): (r: seq<seq<byte>>)
    ensures r != []
    decreases |p|
  {
    var n := BarAt(p);
    if n == |p| then [p] else [p[..n]] + Alternatives(p[n + 1..])
  }

  /** What the matcher returns for a whole pattern: it looks at the rest only after a result of 0 or less. */
  function MatchResult(p: seq<byte>, s: seq<byte>): int
    decreases |p|
  {
    var n := BarAt(p);
    if n == |p| then Score(Best(Tokens(p), s))
    else
      var res := MatchResult(p[..n], s);
      if res > 0 then res else MatchResult(p[n + 1..], s)
  }

  lemma NoBar(p: seq<byte>, n: nat)
    requires n <= |p| && BAR !in p[..n]
    ensures BarAt(p[..n]) == n
  {
  }

  /** Alternative k is the first with a positive match, or else the last one; res is its result. */
  ghost predicate Decides(alts: seq<seq<byte>>, k: nat, s: seq<byte>, res: int)
  {
    && k < |alts| && res == Score(Best(Tokens(alts[k]), s))
    && (forall m :: 0 <= m < k ==> Score(Best(Tokens(alts[m]), s)) <= 0)
    && (res > 0 || k == |alts| - 1)
  }

  lemma {:induction false} FirstPositiveAlternative(p: seq<byte>, s: seq<byte>)
    ensures exists k: nat :: Decides(Alternatives(p), k, s, MatchResult(p, s))
    decreases |p|
  {
    hide Best, Tokens, Score;
    var alts := Alternatives(p);
    var n := BarAt(p);
    if n == |p| {
      assert Decides(alts, 0, s, MatchResult(p, s));
    } else {
      NoBar(p, n);
      assert MatchResult(p[..n], s) == Score(Best(Tokens(p[..n]), s));
      if MatchResult(p[..n], s) > 0 {
        assert Decides(alts, 0, s, MatchResult(p, s));
      } else {
        FirstPositiveAlternative(p[n + 1..], s);
        var rest := Alternatives(p[n + 1..]);
        var k: nat :| Decides(rest, k, s, MatchResult(p[n + 1..], s));
        LaterDecides(p[..n], rest, k, s, MatchResult(p[n + 1..], s));
        assert Decides(alts, k + 1, s, MatchResult(p, s));
      }
    }
  }

  lemma LaterDecides(first: seq<byte>, rest: seq<seq<byte>>, k: nat, s: seq<byte>, res: int)
    requires Decides(rest, k, s, res) && Score(Best(Tokens(first), s)) <= 0
    ensures Decides([first] + rest, k + 1, s, res)
  {
    hide Best, Tokens, Score;
    var alts := [first] + rest;
    forall m | 0 <= m < k + 1
      ensures Score(Best(Tokens(alts[m]), s)) <= 0
    {
      if m > 0 {
        assert alts[m] == rest[m - 1];
      }
    }
  }

  // ----- the matcher -----

  /** Consuming n bytes for the first token leaves the rest of the match to the rest of the tokens. */
  lemma ScoreAfter(ts: seq<Token>, s: seq<byte>, n: nat)
    requires ts != [] && n <= |s|
    ensures var r := Score(Best(ts[1..], s[n..]));
            Score(BestAfter(ts, s, n)) == if r == -1 then -1 else n + r
  {
    var r := Best(ts[1..], s[n..]);
    if r.Some? {
      assert ([s[..n]] + r.value)[1..] == r.value;
    }
  }

  /** The matcher's own description, on a pattern without alternatives. */
  function Simple(p: seq<byte>, s: seq<byte>): (n: int)
    ensures n >= -1
  {
    Score(Best(Tokens(p), s))
  }

  method MatchPrefixN(pattern: seq<byte>, str: seq<byte>) returns (res: int)
    requires 0 !in pattern
    ensures res == MatchResult(pattern, str)
    decreases |pattern|, 1
  {
    var bar := FindBar(pattern);
    if bar < |pattern| {
      res := MatchPrefixN(pattern[..bar], str);
      if res > 0 {
        return;
      }
      res := MatchPrefixN(pattern[bar + 1..], str);
      return;
    }
    res := MatchSimple(pattern, str);
  }

  /** The loop over a pattern without alternatives. */
  method MatchSimple(pattern: seq<byte>, str: seq<byte>) returns (res: int)
    requires 0 !in pattern && BarAt(pattern) == |pattern|
    ensures res == Simple(pattern, str)
    decreases |pattern|, 0
  {
    hide Simple, Tokens, Best, BestUpTo, BarAt, Score;
    var i, j := 0, 0;
    assert pattern[0..] == pattern && str[0..] == str;
    while i < |pattern|
      invariant 0 <= i <= |pattern| && 0 <= j <= |str|
      invariant var r := Simple(pattern[i..], str[j..]);
                Simple(pattern, str) == if r == -1 then -1 else j + r
    {
      ghost var p, s := pattern[i..], str[j..];
      SimpleOnByte(p, s);
      TailOfTail(pattern, i, 1);
      var c := pattern[i];
      if c == QUESTION && j != |str| {
        TailOfTail(str, j, 1);
      } else if c == DOLLAR {
        return if j == |str| then j else -1;
      } else if c == STAR {
        SimpleOnStar(p, s);
        i := i + 1;
        var len;
        if i < |pattern| && pattern[i] == STAR {
          TailOfTail(pattern, i - 1, 2);
          i := i + 1;
          len := |str| - j;
        } else {
          len := SegmentEnd(str, j);
        }
        NoBarTail(pattern, i);
        res := MatchAfterStar(pattern[i..], str[j..], len, Tokens(p));
        return if res == -1 then -1 else j + res;
      } else if j == |str| || Lower(c) != Lower(str[j]) {
        // the string's terminator is no pattern byte
        return -1;
      } else {
        TailOfTail(str, j, 1);
      }
      i, j := i + 1, j + 1;
    }
    NothingLeft(str[j..]);
    assert pattern[i..] == [];
    return j;
  }

  /** What a pattern byte other than a star does to the result. */
  lemma SimpleOnByte(p: seq<byte>, s: seq<byte>)
    requires p != []
    ensures p[0] == DOLLAR ==> Simple(p, s) == if s == [] then 0 else -1
    ensures p[0] != DOLLAR && p[0] != STAR && (s == [] || (p[0] != QUESTION && Lower(p[0]) != Lower(s[0]))) ==>
              Simple(p, s) == -1
    ensures p[0] != DOLLAR && p[0] != STAR && s != [] && (p[0] == QUESTION || Lower(p[0]) == Lower(s[0])) ==>
              var r := Simple(p[1..], s[1..]); Simple(p, s) == if r == -1 then -1 else 1 + r
  {
    hide BestUpTo, BestAfter, Score;
    var ts := Tokens(p);
    if p[0] == DOLLAR {
      ScoreAfter(ts, s, 0);
      NothingLeft(s[0..]);
      assert ts[1..] == Tokens([]);
    } else if p[0] != STAR && s != [] {
      ScoreAfter(ts, s, 1);
      assert ts[1..] == Tokens(p[1..]);
    }
  }

  /** A star is tried from its longest text down. */
  lemma SimpleOnStar(p: seq<byte>, s: seq<byte>)
    requires p != [] && p[0] == STAR
    ensures var ts, two := Tokens(p), |p| > 1 && p[1] == STAR;
            && ts != [] && ts[1..] == Tokens(p[if two then 2 else 1..])
            && Simple(p, s) == Score(BestUpTo(ts, s, if two then |s| else SegmentLen(s)))
  {
    hide BestUpTo, BestAfter, Score, SegmentLen;
  }

  /** A star, and then the rest of the pattern: the star takes len bytes, or one less until the rest matches. */
  method MatchAfterStar(rest: seq<byte>, s: seq<byte>, longest: nat, ghost ts: seq<Token>) returns (res: int)
    requires 0 !in rest && BarAt(rest) == |rest| && longest <= |s|
    requires ts != [] && ts[1..] == Tokens(rest)
    ensures res == Score(BestUpTo(ts, s, longest))
    decreases |rest|, 2
  {
    hide Best, Tokens, BestAfter;
    var len := longest;
    if rest == [] {
      ScoreAfter(ts, s, len);
      NothingLeft(s[len..]);
      return len;
    }
    res := MatchPrefixN(rest, s[len..]);
    ScoreAfter(ts, s, len);
    while res == -1 && len > 0
      invariant 0 <= len <= |s|
      invariant res == Simple(rest, s[len..])
      invariant Score(BestUpTo(ts, s, longest)) == Score(BestUpTo(ts, s, len))
      decreases len
    {
      ScoreAfter(ts, s, len);
      len := len - 1;
      res := MatchPrefixN(rest, s[len..]);
    }
    ScoreAfter(ts, s, len);
    return if res == -1 then -1 else res + len;
  }

  lemma NothingLeft(s: seq<byte>)
    ensures Best(Tokens([]), s) == Some([]) && Simple([], s) == 0
  {
  }

  lemma NoBarTail(p: seq<byte>, i: nat)
    requires BarAt(p) == |p| && i <= |p|
    ensures BarAt(p[i..]) == |p| - i
  {
    assert p[..|p|] == p;
    forall k | 0 <= k < |p| - i
      ensures p[i..][k] != BAR
    {
      assert p[i..][k] == p[i + k] && p[i + k] in p;
    }
  }

  /** memchr for '|'. */
  method FindBar(p: seq<byte>) returns (n: nat)
    ensures n == BarAt(p)
  {
    n := 0;
    while n < |p| && p[n] != BAR
      invariant n <= |p| && BarAt(p) == n + BarAt(p[n..])
    {
      assert p[n..][1..] == p[n + 1..];
      n := n + 1;
    }
  }

  method SegmentEnd(str: seq<byte>, j: nat) returns (len: nat)
    requires j <= |str|
    ensures len == SegmentLen(str[j..])
  {
    len := 0;
    while j + len != |str| && str[j + len] != SLASH
      invariant j + len <= |str| && SegmentLen(str[j..]) == len + SegmentLen(str[j + len..])
    {
      assert str[j + len..][1..] == str[j + len + 1..];
      len := len + 1;
    }
  }

  // ----- letters of either case -----

  predicate SameToken(t: Token, u: Token) {
    t == u || (t.Literal? && u.Literal? && SameLetter(t.c, u.c))
  }

  predicate SameTokens(ts: seq<Token>, us: seq<Token>) {
    |ts| == |us| && forall k :: 0 <= k < |ts| ==> SameToken(ts[k], us[k])
  }

  lemma TailsSame(s: seq<byte>, r: seq<byte>, n: nat)
    requires SameLetters(s, r) && n <= |s|
    ensures SameLetters(s[n..], r[n..]) && SameLetters(s[..n], r[..n])
  {
  }

  lemma {:induction false} TokensSame(p: seq<byte>, q: seq<byte>)
    requires SameLetters(p, q)
    ensures SameTokens(Tokens(p), Tokens(q))
    decreases |p|
  {
    if p != [] {
      assert SameLetter(p[0], q[0]);
      TailsSame(p, q, 1);
      if p[0] == STAR && |p| > 1 && p[1] == STAR {
        assert SameLetter(p[1], q[1]);
        TailsSame(p, q, 2);
        TokensSame(p[2..], q[2..]);
      } else if p[0] != DOLLAR {
        assert |p| > 1 ==> SameLetter(p[1], q[1]);
        TokensSame(p[1..], q[1..]);
      }
    }
  }

  lemma {:induction false} SegmentsSame(s: seq<byte>, r: seq<byte>)
    requires SameLetters(s, r)
    ensures SegmentLen(s) == SegmentLen(r)
  {
    if s != [] {
      assert SameLetter(s[0], r[0]);
      TailsSame(s, r, 1);
      SegmentsSame(s[1..], r[1..]);
    }
  }

  lemma BarsSame(p: seq<byte>, q: seq<byte>)
    requires SameLetters(p, q)
    ensures BarAt(p) == BarAt(q)
    decreases |p|
  {
    if p != [] {
      assert SameLetter(p[0], q[0]);
      TailsSame(p, q, 1);
      BarsSame(p[1..], q[1..]);
    }
  }

  lemma {:induction false} BestSame(ts: seq<Token>, us: seq<Token>, s: seq<byte>, r: seq<byte>)
    requires SameTokens(ts, us) && SameLetters(s, r)
    ensures Score(Best(ts, s)) == Score(Best(us, r))
    decreases |ts|, 0
  {
    hide Score;
    if ts == [] {
      NothingScored();
    } else {
      assert SameToken(ts[0], us[0]);
      match ts[0] {
        case AnyOne => if s != [] { AfterSame(ts, us, s, r, 1); }
        case AnyInSegment => SegmentsSame(s, r); UpToSame(ts, us, s, r, SegmentLen(s));
        case AnyAtAll => UpToSame(ts, us, s, r, |s|);
        case AtEnd => AfterSame(ts, us, s, r, 0);
        case Literal(c) =>
          if s != [] {
            assert SameLetter(s[0], r[0]);
            LettersMatch(s[0], c);
            LettersMatch(r[0], us[0].c);
            AfterSame(ts, us, s, r, 1);
          }
      }
    }
  }

  lemma NothingScored()
    ensures Score(Some([])) == 0
  {
  }

  lemma {:induction false} AfterSame(ts: seq<Token>, us: seq<Token>, s: seq<byte>, r: seq<byte>, n: nat)
    requires ts != [] && SameTokens(ts, us) && SameLetters(s, r) && n <= |s|
    ensures Score(BestAfter(ts, s, n)) == Score(BestAfter(us, r, n))
    decreases |ts|, 0, 0
  {
    hide Score, Best, BestAfter;
    TailsSame(s, r, n);
    assert SameTokens(ts[1..], us[1..]);
    BestSame(ts[1..], us[1..], s[n..], r[n..]);
    ScoreAfter(ts, s, n);
    ScoreAfter(us, r, n);
  }

  lemma {:induction false} UpToSame(ts: seq<Token>, us: seq<Token>, s: seq<byte>, r: seq<byte>, n: nat)
    requires ts != [] && SameTokens(ts, us) && SameLetters(s, r) && n <= |s|
    ensures Score(BestUpTo(ts, s, n)) == Score(BestUpTo(us, r, n))
    decreases |ts|, 0, n + 1
  {
    hide Best, BestAfter;
    AfterSame(ts, us, s, r, n);
    if n > 0 {
      UpToSame(ts, us, s, r, n - 1);
    }
  }

  /** The matcher does not see the case of letters, of the pattern or of the string. */
  lemma {:induction false} CaseIgnored(p: seq<byte>, q: seq<byte>, s: seq<byte>, r: seq<byte>)
    requires SameLetters(p, q) && SameLetters(s, r)
    ensures MatchResult(p, s) == MatchResult(q, r)
    decreases |p|
  {
    hide Best, Tokens, Score;
    BarsSame(p, q);
    var n := BarAt(p);
    if n == |p| {
      TokensSame(p, q);
      BestSame(Tokens(p), Tokens(q), s, r);
    } else {
      TailsSame(p, q, n);
      TailsSame(p, q, n + 1);
      CaseIgnored(p[..n], q[..n], s, r);
      CaseIgnored(p[n + 1..], q[n + 1..], s, r);
    }
  }

  // ----- the characters of a pattern -----

  /** '?' is 3f, '*' is 2a, '$' is 24, '|' is 7c, '/' is 2f; any other octet stands for the same letter, and for no other. */
  lemma PatternExamples(c: byte, d: byte)
    ensures MatchResult([0x3f], [c]) == 1 && MatchResult([0x3f], []) == -1
    ensures c !in {0x3f, 0x2a, 0x24, 0x7c} ==> MatchResult([c], [d]) == if SameLetter(c, d) then 1 else -1
    ensures MatchResult([0x24], []) == 0 && MatchResult([0x24], [c]) == -1
  {
    AnyExample(c);
    if c !in {0x3f, 0x2a, 0x24, 0x7c} {
      LetterExample(c, d);
    }
    EndExample(c);
    hide MatchResult;
  }

  lemma AnyExample(c: byte)
    ensures MatchResult([0x3f], [c]) == 1 && MatchResult([0x3f], []) == -1
  {
    assert [0x3f][1..] == [] && Tokens([]) == [] && BarAt([0x3f]) == 1;
    assert Tokens([0x3f]) == [AnyOne] + [] == [AnyOne];
    OneTaken(AnyOne, c);
    hide BestAfter, Score;
  }

  lemma LetterExample(c: byte, d: byte)
    requires c !in {0x3f, 0x2a, 0x24, 0x7c}
    ensures MatchResult([c], [d]) == if SameLetter(c, d) then 1 else -1
  {
    assert [c][1..] == [] && Tokens([]) == [] && BarAt([c]) == 1;
    assert Tokens([c]) == [Literal(c)] + [] == [Literal(c)];
    LettersMatch(c, d);
    OneTaken(Literal(c), d);
    hide BestAfter, SameLetter, Lower;
  }

  lemma OneTaken(t: Token, c: byte)
    ensures Score(BestAfter([t], [c], 1)) == 1
  {
    assert [t][1..] == [] && Best([], [c][1..]) == Some([]);
    OnePiece(c);
  }

  lemma EndExample(c: byte)
    ensures MatchResult([0x24], []) == 0 && MatchResult([0x24], [c]) == -1
  {
    assert BarAt([0x24]) == 1 && [0x24][1..] == [];
    assert Tokens([0x24]) == [AtEnd] && [AtEnd][1..] == [];
  }

  lemma OnePiece(c: byte)
    ensures [c][..1] == [c] && |Concat([[c][..1]] + [])| == 1
  {
    var pieces := [[c][..1]] + [];
    assert pieces[1..] == [] && Concat(pieces) == [c] + [];
  }

  /** "*" stops at a slash, "**" does not, and of two alternatives the first that matches decides. */
  lemma StarExamples()
    ensures MatchResult([0x2a], [0x61, 0x2f, 0x62]) == 1 && MatchResult([0x2a, 0x2a], [0x61, 0x2f, 0x62]) == 3
    ensures MatchResult([0x62, 0x7c, 0x61], [0x61]) == 1
  {
  }
}
