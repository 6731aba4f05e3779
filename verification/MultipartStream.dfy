/**
 What a multipart body means (section 5.1 of RFC 2046), and that the reader tells exactly that, however the body is cut.
 */
module MultipartStream {
  import opened Bytes
  import opened MultipartCodec

  // ----- occurrences -----

  /** The boundary first occurs behind the content and the delimiter (section 5.1.1 of RFC 2046). */
  predicate Clean(content: seq<byte>, b: seq<byte>) {
    Find(content + DELIMITER + b, b) == Some(|content| + 4)
  }

  lemma OccursWithin(s: seq<byte>, t: seq<byte>, b: seq<byte>, p: nat)
    requires p + |b| <= |s|
    ensures OccursAt(s, b, p) <==> OccursAt(s + t, b, p)
  {
    assert (s + t)[p..p + |b|] == s[p..p + |b|];
  }

  lemma OccursBehind(s: seq<byte>, t: seq<byte>, b: seq<byte>, p: nat)
    ensures OccursAt(s + t, b, |s| + p) <==> OccursAt(t, b, p)
  {
    if p + |b| <= |t| {
      assert (s + t)[|s| + p..|s| + p + |b|] == t[p..p + |b|];
    }
  }

  /** In a stream that starts with head and has b at its end first, a buffer that holds a prefix of the stream has b
      first there too, as soon as it is long enough, and not at all before. */
  lemma FirstInBuffer(head: seq<byte>, b: seq<byte>, tail: seq<byte>, io: seq<byte>, f: seq<byte>)
    requires b != [] && Find(head + b, b) == Some(|head|) && io + f == head + b + tail
    ensures Find(io, b) == if |head| + |b| <= |io| then Some(|head|) else None
  {
    var w := head + b + tail;
    OccursWithin(head + b, tail, b, |head|);
    if |head| + |b| <= |io| {
      OccursWithin(io, f, b, |head|);
    }
    var p := Find(io, b);
    if p.Some? {
      var q := p.value;
      OccursWithin(io, f, b, q);
      if q < |head| {
        OccursWithin(head + b, tail, b, q);
      }
    }
  }

  /** Content stays clean when its front is taken off. */
  lemma CleanTail(content: seq<byte>, b: seq<byte>, d: nat)
    requires b != [] && Clean(content, b) && d <= |content|
    ensures Clean(content[d..], b)
  {
    hide OccursAt, Find;
    var w, v := content + DELIMITER + b, content[d..] + DELIMITER + b;
    assert w == content[..d] + v;
    OccursBehind(content[..d], v, b, |content| - d + 4);
    var p := Find(v, b);
    if p.Some? {
      OccursBehind(content[..d], v, b, p.value);
    }
  }

  // ----- inside the content of a part -----

  /** rest is what is still to come of a part's content; behind it are the delimiter, the boundary and any tail. */
  ghost predicate AtContent(b: seq<byte>, m: Machine, rest: seq<byte>, tail: seq<byte>, f: seq<byte>) {
    && Ok(m) && InContent(m.st) && b != [] && Clean(rest, b)
    && m.io + f == (rest + DELIMITER) + b + tail
    && (m.st == GotChunk ==> m.prev <= |rest| && Find(m.io, b).None?)
  }

  /** One turn in content: it delivers a piece of it, or all that is left and the buffer starts with the boundary. */
  lemma ContentTurn(b: seq<byte>, m: Machine, rest: seq<byte>, tail: seq<byte>, f: seq<byte>) returns (d: nat)
    requires AtContent(b, m, rest, tail, f) && |tail| >= 2
    ensures d <= |rest|
    ensures var (m', more) := Turn(b, m);
            && m'.part == m.part && (!more ==> f != [] && |m'.io| < |rest| - d + |b| + 8)
            && if InContent(m'.st)
               then AtContent(b, m', rest[d..], tail, f)
                    && m'.trace == m.trace + (if m.st == GotChunk then [PartData(rest[..d])] else [])
                    && (m.st != GotChunk ==> d == 0)
               else more && m'.st == WaitingForBoundary && d == |rest| && m'.trace == m.trace + [PartData(rest)]
                    && m'.io + f == b + tail && m'.prev == 0
  {
    hide Find, Clean;
    FirstAt(rest, b);
    FirstInBuffer(rest + DELIMITER, b, tail, m.io, f);
    var (m', more) := Turn(b, m);
    assert rest[0..] == rest;
    if m.st == GotChunk {
      d := m.prev;
      CleanTail(rest, b, d);
      Shifted(m.io, f, rest, b, tail, d);
    } else if m'.st == WaitingForBoundary {
      d := |rest|;
      assert rest[..d] == rest;
      Shifted(m.io, f, rest, b, tail, d);
      ShiftedMore(m.io, f, rest, b, tail);
    } else {
      d := 0;
    }
  }

  lemma FirstAt(rest: seq<byte>, b: seq<byte>)
    requires Clean(rest, b)
    ensures Find((rest + DELIMITER) + b, b) == Some(|rest + DELIMITER|)
  {
  }

  lemma Shifted(io: seq<byte>, f: seq<byte>, rest: seq<byte>, b: seq<byte>, tail: seq<byte>, d: nat)
    requires io + f == (rest + DELIMITER) + b + tail && d <= |rest| && d <= |io|
    ensures io[..d] == rest[..d] && io[d..] + f == (rest[d..] + DELIMITER) + b + tail
  {
    var w := (rest + DELIMITER) + b + tail;
    assert (io + f)[..d] == io[..d] && (io + f)[d..] == io[d..] + f;
    assert w[..d] == rest[..d] && w[d..] == (rest[d..] + DELIMITER) + b + tail;
  }

  lemma ShiftedMore(io: seq<byte>, f: seq<byte>, rest: seq<byte>, b: seq<byte>, tail: seq<byte>)
    requires io + f == (rest + DELIMITER) + b + tail && |rest| + 4 <= |io|
    ensures io[|rest| + 4..] + f == b + tail
  {
    var w, n := (rest + DELIMITER) + b + tail, |rest| + 4;
    assert (io + f)[n..] == io[n..] + f;
    assert w[n..] == b + tail;
  }

  // ----- header blocks -----

  /** A header line: it ends at its first newline, and is not blank. */
  predicate Line(l: seq<byte>) {
    && l != [] && l[|l| - 1] == NEWLINE && l != CRLF
    && forall k :: 0 <= k < |l| - 1 ==> l[k] != NEWLINE
  }

  predicate Lines(lines: seq<seq<byte>>) {
    forall i :: 0 <= i < |lines| ==> Line(lines[i])
  }

  /** The value of the last disposition line. */
  function Disposition(lines: seq<seq<byte>>, d: Option<seq<byte>>): Option<seq<byte>> {
    if lines == [] then d
    else Disposition(lines[1..], if IsDisposition(lines[0]) then Some(lines[0][21..|lines[0]| - 2]) else d)
  }

  /** A line that is no disposition line is complete within the first n bytes of the block. */
  predicate OtherWithin(lines: seq<seq<byte>>, n: nat) {
    lines != [] && |lines[0]| <= n && (!IsDisposition(lines[0]) || OtherWithin(lines[1..], n - |lines[0]|))
  }

  lemma LineAt(io: seq<byte>, at: nat, f: seq<byte>, l: seq<byte>, after: seq<byte>)
    requires at <= |io| && io[at..] + f == l + after
    requires l != [] && l[|l| - 1] == NEWLINE && forall k :: 0 <= k < |l| - 1 ==> l[k] != NEWLINE
    ensures LineLen(io, at) == if |io| - at >= |l| then |l| else 0
    ensures |io| - at >= |l| ==> io[at..at + |l|] == l && io[at + |l|..] + f == after
  {
    var n, w := LineLen(io, at), io[at..] + f;
    assert forall k :: at <= k < |io| ==> io[k] == w[k - at];
    assert forall k :: 0 <= k < |l| ==> w[k] == l[k];
    if |io| - at >= |l| {
      assert io[at + |l| - 1] == NEWLINE;
      assert w[..|l|] == l && w[|l|..] == after;
      assert w[..|l|] == io[at..at + |l|] && w[|l|..] == io[at + |l|..] + f;
    }
  }

  /** The scan of a header block finds its end as soon as it is there. Before that it runs off the buffer exactly when
      a line that is no disposition line is complete, here or among the lines passed before. */
  lemma {:induction false} ScanLines(io: seq<byte>, at: nat, size: int, d: Option<seq<byte>>, lines: seq<seq<byte>>,
                                     after: seq<byte>, f: seq<byte>)
    requires at <= |io| <= at + size && Lines(lines) && io[at..] + f == Concat(lines) + (CRLF + after)
    ensures var r, n := ScanHeader(io, at, size, d), |io| - at;
            if n >= |Concat(lines)| + 2 then r == Blank(at + |Concat(lines)| + 2, Disposition(lines, d))
            else !r.Blank? && (r == Overrun <==> at + size > |io| || OtherWithin(lines, n))
    decreases |lines|
  {
    hide LineLen, IsDisposition, ScanHeader;
    ScanOnce(io, at, size, d);
    if lines == [] {
      assert Concat(lines) + (CRLF + after) == CRLF + after;
      LineAt(io, at, f, CRLF, after);
      CrlfIsBlank();
    } else {
      var l, rest := lines[0], lines[1..];
      assert Concat(lines) + (CRLF + after) == l + (Concat(rest) + (CRLF + after));
      hide Concat;
      LineAt(io, at, f, l, Concat(rest) + (CRLF + after));
      if |io| - at >= |l| {
        DispositionIsLong(l);
        ScanLines(io, at + |l|, if IsDisposition(l) then size - |l| else size,
                  if IsDisposition(l) then Some(l[21..|l| - 2]) else d, rest, after, f);
      }
    }
  }

  lemma CrlfIsBlank()
    ensures !IsDisposition(CRLF) && |CRLF| == 2
  {
  }

  // ----- whole bodies -----

  datatype Part = Part(lines: seq<seq<byte>>, content: seq<byte>)

  /** What follows a boundary: the parts still to come, each up to the boundary behind it, and the end. */
  function Body(b: seq<byte>, ps: seq<Part>, epilogue: seq<byte>): (s: seq<byte>)
    ensures |s| >= 4
  {
    if ps == [] then LAST + epilogue
    else CRLF + Concat(ps[0].lines) + CRLF + ps[0].content + DELIMITER + b + Body(b, ps[1..], epilogue)
  }

  /** Parts as a reader is to see them. */
  function Told(ps: seq<Part>): seq<(Option<seq<byte>>, seq<byte>)> {
    if ps == [] then [] else [(Disposition(ps[0].lines, None), ps[0].content)] + Told(ps[1..])
  }

  ghost predicate WellFormed(b: seq<byte>, ps: seq<Part>) {
    b != [] && forall i :: 0 <= i < |ps| ==> Lines(ps[i].lines) && Clean(ps[i].content, b)
  }

  /** Header blocks of disposition lines only. */
  ghost predicate Plain(ps: seq<Part>) {
    forall i, j :: 0 <= i < |ps| && 0 <= j < |ps[i].lines| ==> IsDisposition(ps[i].lines[j])
  }

  // ----- bad cuts -----

  /** From behind one boundary to behind the next. */
  function Block(b: seq<byte>, p: Part): nat {
    2 + |Concat(p.lines)| + 2 + |p.content| + 4 + |b|
  }

  /** With n octets there behind a boundary, what is there ends within a header block, behind the two octets that end
      the boundary's line, two more octets, and a complete line that is no disposition line: here, or behind one of
      the boundaries that follow. */
  predicate BadCut(b: seq<byte>, ps: seq<Part>, n: int) {
    ps != [] &&
    if n < |Concat(ps[0].lines)| + 4 then n >= 4 && OtherWithin(ps[0].lines, n - 2)
    else BadCut(b, ps[1..], n - Block(b, ps[0]))
  }

  /** The i-th receive ends in a bad cut of the body. */
  predicate BadAt(b: seq<byte>, ps: seq<Part>, segments: seq<seq<byte>>, i: nat) {
    i <= |segments| && BadCut(b, ps, |Concat(segments[..i])| - |DASHES| - |b|)
  }

  lemma BadNeedsFour(b: seq<byte>, ps: seq<Part>, n: int)
    ensures BadCut(b, ps, n) ==> n >= 4
  {
  }

  lemma {:induction false} WholeNotBad(b: seq<byte>, ps: seq<Part>, epilogue: seq<byte>)
    ensures !BadCut(b, ps, |Body(b, ps, epilogue)|)
  {
    hide Concat, OtherWithin;
    if ps != [] {
      WholeNotBad(b, ps[1..], epilogue);
    }
  }

  lemma {:induction false} PlainNotBad(b: seq<byte>, ps: seq<Part>, n: int)
    requires Plain(ps)
    ensures !BadCut(b, ps, n)
  {
    hide IsDisposition, Concat, OtherWithin;
    if ps != [] {
      if n >= 4 {
        OtherNotWithin(ps[0].lines, n - 2);
      }
      PlainNotBad(b, ps[1..], n - Block(b, ps[0]));
    }
  }

  lemma {:induction false} OtherNotWithin(lines: seq<seq<byte>>, n: nat)
    requires forall j :: 0 <= j < |lines| ==> IsDisposition(lines[j])
    ensures !OtherWithin(lines, n)
  {
    hide IsDisposition;
    if lines != [] && |lines[0]| <= n {
      OtherNotWithin(lines[1..], n - |lines[0]|);
    }
  }

  // ----- keeping track of a body -----

  /** Where the machine is in a body: in front of a boundary or the headers behind it, in a part's content, or done. */
  datatype Where = AtBoundary(lead: seq<byte>, ps: seq<Part>) | InPart(rest: seq<byte>, ps: seq<Part>)
                 | Ending | Over

  /** A buffer of this length ends in a bad cut. */
  predicate Bad(b: seq<byte>, w: Where, len: nat) {
    match w
    case AtBoundary(lead, ps) => BadCut(b, ps, len - |lead| - |b|)
    case InPart(rest, ps) => BadCut(b, ps, len - |rest| - 4 - |b|)
    case _ => false
  }

  /** After a step that took g octets off the buffer the same cuts are bad. */
  ghost predicate Follows(b: seq<byte>, w: Where, w': Where, g: nat) {
    forall len: nat :: Bad(b, w', len) == Bad(b, w, len + g)
  }

  /** The story told so far, and what is still to come of it, make the whole. */
  ghost predicate OnTrack(b: seq<byte>, m: Machine, w: Where, f: seq<byte>, total: seq<(Option<seq<byte>>, seq<byte>)>,
                          epilogue: seq<byte>)
  {
    && Ok(m) && total != [] && Read(m.trace).Some?
    && var s := Read(m.trace).value;
    && s.requested && (s.done <==> w.Over?)
    && (!w.Over? ==> |s.parts| == m.part && (s.open <==> m.part > 0))
    && (w.AtBoundary? || w.InPart? ==> WellFormed(b, w.ps))
    && match w
       case AtBoundary(lead, ps) =>
         && m.st in {Begin, WaitingForBoundary, GotBoundary}
         && Find(lead + b, b) == Some(|lead|) && m.io + f == lead + b + Body(b, ps, epilogue)
         && (m.st == GotBoundary ==> ps != [] && |m.io| >= |lead| + |b| + 4)
         && s.parts + Told(ps) == total
       case InPart(rest, ps) =>
         && AtContent(b, m, rest, Body(b, ps, epilogue), f)
         && m.part > 0 && Append(s.parts, rest) + Told(ps) == total
       case Ending => m.st == Finalize && s.parts == total
       case Over => m.st == Finished && s.parts == total && !s.open
  }

  lemma BodyOnce(b: seq<byte>, ps: seq<Part>, epilogue: seq<byte>)
    requires ps != []
    ensures Body(b, ps, epilogue)
            == CRLF + (Concat(ps[0].lines) + (CRLF + (ps[0].content + DELIMITER + b + Body(b, ps[1..], epilogue))))
  {
    hide Concat;
    var h, c, tail := Concat(ps[0].lines), ps[0].content, Body(b, ps[1..], epilogue);
    assert CRLF + h + CRLF + c + DELIMITER + b + tail == CRLF + (h + (CRLF + (c + DELIMITER + b + tail)));
  }

  /** Four octets behind the boundary tell the last one from the others. */
  lemma BodyStarts(b: seq<byte>, ps: seq<Part>, epilogue: seq<byte>)
    ensures Body(b, ps, epilogue)[..4] == LAST <==> ps == []
  {
    if ps != [] {
      BodyOnce(b, ps, epilogue);
      hide Body;
      assert Body(b, ps, epilogue)[0] == CRLF[0] != LAST[0];
    }
  }

  lemma BoundaryTurn(b: seq<byte>, m: Machine, lead: seq<byte>, ps: seq<Part>, f: seq<byte>,
                     total: seq<(Option<seq<byte>>, seq<byte>)>, epilogue: seq<byte>) returns (w: Where)
    requires OnTrack(b, m, AtBoundary(lead, ps), f, total, epilogue) && m.st == WaitingForBoundary
    ensures var (m', more) := Turn(b, m);
            && OnTrack(b, m', w, f, total, epilogue) && |m'.io| <= |m.io| && Follows(b, AtBoundary(lead, ps), w, |m.io| - |m'.io|)
            && (!more ==> f != [] && !Bad(b, w, |m'.io|))
  {
    hide Find, Read, Body, Told, WellFormed, Concat, OtherWithin;
    var tail := Body(b, ps, epilogue);
    NotEmpty(b, ps);
    FirstInBuffer(lead, b, tail, m.io, f);
    BodyStarts(b, ps, epilogue);
    w := AtBoundary(lead, ps);
    var e := |lead| + |b|;
    if |m.io| >= e + 4 {
      Peek(m.io, f, lead + b, tail, 4);
      if ps == [] {
        w := Ending;
        NothingTold(Read(m.trace).value.parts);
      }
    }
  }

  lemma NotEmpty(b: seq<byte>, ps: seq<Part>)
    requires WellFormed(b, ps)
    ensures b != []
  {
  }

  lemma NothingTold(parts: seq<(Option<seq<byte>>, seq<byte>)>)
    ensures parts + Told([]) == parts
  {
    assert Told([]) == [];
  }

  lemma Peek(io: seq<byte>, f: seq<byte>, head: seq<byte>, tail: seq<byte>, n: nat)
    requires io + f == head + tail && |head| + n <= |io|
    ensures n <= |tail| && io[|head|..|head| + n] == tail[..n] && io[|head| + n..] + f == tail[n..]
  {
    var w, k := io + f, |head|;
    assert |w| == |head + tail|;
    assert w[k..k + n] == io[k..k + n] && (head + tail)[k..k + n] == tail[..n];
    assert w[k + n..] == io[k + n..] + f && (head + tail)[k + n..] == tail[n..];
  }

  /** A buffer that ends in the first header block. */
  lemma CutInHeader(b: seq<byte>, lead: seq<byte>, ps: seq<Part>, len: nat)
    requires ps != [] && |lead| + |b| + 4 <= len < |lead| + |b| + |Concat(ps[0].lines)| + 4
    ensures Bad(b, AtBoundary(lead, ps), len) <==> OtherWithin(ps[0].lines, len - |lead| - |b| - 2)
  {
  }

  /** The first header block taken off. */
  lemma CutBehindHeader(b: seq<byte>, lead: seq<byte>, ps: seq<Part>)
    requires ps != []
    ensures Follows(b, AtBoundary(lead, ps), InPart(ps[0].content, ps[1..]), |lead| + |b| + |Concat(ps[0].lines)| + 4)
  {
    hide OtherWithin, Concat;
  }

  lemma HeaderTurn(b: seq<byte>, m: Machine, lead: seq<byte>, ps: seq<Part>, f: seq<byte>,
                   total: seq<(Option<seq<byte>>, seq<byte>)>, epilogue: seq<byte>) returns (w: Where)
    requires OnTrack(b, m, AtBoundary(lead, ps), f, total, epilogue) && m.st == GotBoundary
    ensures var (m', more) := Turn(b, m);
            if m'.st == Undefined then Bad(b, AtBoundary(lead, ps), |m.io|)
            else OnTrack(b, m', w, f, total, epilogue)
                 && |m'.io| <= |m.io| && Follows(b, AtBoundary(lead, ps), w, |m.io| - |m'.io|)
                 && (!more ==> f != [] && !Bad(b, w, |m'.io|))
  {
    hide Find, Read, Body, Told, WellFormed, ScanHeader, Concat, Disposition, OtherWithin, AtContent, Append;
    hide Bad, Follows;
    var p, rest, h := ps[0], ps[1..], Concat(ps[0].lines);
    var tail := p.content + DELIMITER + b + Body(b, rest, epilogue);
    WellFormedFirst(b, ps);
    FirstInBuffer(lead, b, Body(b, ps, epilogue), m.io, f);
    BodyOnce(b, ps, epilogue);
    var at := |lead| + |b| + 2;
    Peek(m.io, f, lead + b, Body(b, ps, epilogue), 2);
    assert (CRLF + (h + (CRLF + tail)))[2..] == h + (CRLF + tail);
    ScanLines(m.io, at, |m.io| - at, None, p.lines, tail, f);
    w := AtBoundary(lead, ps);
    var end := at + |h| + 2;
    if |m.io| < end {
      MoreToCome(m.io[at..], f, h + (CRLF + tail));
      CutInHeader(b, lead, ps, |m.io|);
      Unmoved(b, w);
    } else {
      HeaderPassed(m.io, at, f, h, tail);
      CutBehindHeader(b, lead, ps);
      w := InPart(p.content, rest);
      PartBegun(m.trace, m.part, Disposition(p.lines, None), p.content, ps);
      AtStart(b, Turn(b, m).0, p.content, Body(b, rest, epilogue), f);
    }
  }

  lemma Unmoved(b: seq<byte>, w: Where)
    ensures Follows(b, w, w, 0)
  {
  }

  lemma MoreToCome(io: seq<byte>, f: seq<byte>, whole: seq<byte>)
    requires io + f == whole && |io| < |whole|
    ensures f != []
  {
    assert |io + f| == |io| + |f|;
  }

  lemma WellFormedFirst(b: seq<byte>, ps: seq<Part>)
    requires WellFormed(b, ps) && ps != []
    ensures b != [] && WellFormed(b, ps[1..]) && Lines(ps[0].lines) && Clean(ps[0].content, b)
  {
    assert forall i :: 0 <= i < |ps| - 1 ==> ps[1..][i] == ps[i + 1];
  }

  lemma HeaderPassed(io: seq<byte>, at: nat, f: seq<byte>, h: seq<byte>, tail: seq<byte>)
    requires at <= |io| && io[at..] + f == h + (CRLF + tail) && at + |h| + 2 <= |io|
    ensures io[at + |h| + 2..] + f == tail
  {
    var n := |h| + 2;
    assert (io[at..] + f)[n..] == io[at + n..] + f;
    assert (h + (CRLF + tail))[n..] == tail;
  }

  lemma AtStart(b: seq<byte>, m: Machine, content: seq<byte>, tail: seq<byte>, f: seq<byte>)
    requires Ok(m) && m.st == WaitingForChunk && b != [] && Clean(content, b)
    requires m.io + f == content + DELIMITER + b + tail
    ensures AtContent(b, m, content, tail, f)
  {
  }

  /** The events at the end of a header block open the next part. */
  lemma PartBegun(trace: seq<Event>, part: nat, d: Option<seq<byte>>, content: seq<byte>, ps: seq<Part>)
    requires Read(trace).Some? && ps != [] && d == Disposition(ps[0].lines, None) && content == ps[0].content
    requires var s := Read(trace).value;
             s.requested && !s.done && |s.parts| == part && (s.open <==> part > 0)
    ensures var s, r := Read(trace).value, Read(trace + (if part != 0 then [PartEnd] else []) + [PartBegin(d)]);
            && r == Some(Story(true, s.parts + [(d, [])], true, false))
            && Append(r.value.parts, content) + Told(ps[1..]) == s.parts + Told(ps)
  {
    hide Read, Disposition, Append;
    ReadSnoc(trace, PartEnd);
    var t := if part != 0 then trace + [PartEnd] else trace;
    assert trace + (if part != 0 then [PartEnd] else []) == t;
    ReadSnoc(t, PartBegin(d));
    var parts := Read(trace).value.parts;
    FirstPiece(parts, d, content);
    hide Told;
    ToldFirst(parts, ps);
  }

  lemma FirstPiece(parts: seq<(Option<seq<byte>>, seq<byte>)>, d: Option<seq<byte>>, content: seq<byte>)
    ensures Append(parts + [(d, [])], content) == parts + [(d, content)]
  {
    assert (parts + [(d, [])])[..|parts|] == parts && [] + content == content;
  }

  lemma ToldFirst(parts: seq<(Option<seq<byte>>, seq<byte>)>, ps: seq<Part>)
    requires ps != []
    ensures parts + [(Disposition(ps[0].lines, None), ps[0].content)] + Told(ps[1..]) == parts + Told(ps)
  {
    hide Disposition;
  }

  lemma InPartTurn(b: seq<byte>, m: Machine, rest: seq<byte>, ps: seq<Part>, f: seq<byte>,
                   total: seq<(Option<seq<byte>>, seq<byte>)>, epilogue: seq<byte>) returns (w: Where)
    requires OnTrack(b, m, InPart(rest, ps), f, total, epilogue)
    ensures var (m', more) := Turn(b, m);
            && OnTrack(b, m', w, f, total, epilogue) && |m'.io| <= |m.io| && Follows(b, InPart(rest, ps), w, |m.io| - |m'.io|)
            && (!more ==> f != [] && !Bad(b, w, |m'.io|))
  {
    hide Find, Read, Body, Told, WellFormed, AtContent, Turn, Append, BadCut;
    var tail := Body(b, ps, epilogue);
    var m', more := Turn(b, m).0, Turn(b, m).1;
    var d := ContentTurn(b, m, rest, tail, f);
    ContentState(b, m, rest, tail, f);
    DataRead(m.trace, rest, d);
    BadNeedsFour(b, ps, |m'.io| - (|rest| - d) - 4 - |b|);
    if InContent(m'.st) {
      w := InPart(rest[d..], ps);
      assert rest[0..] == rest;
      ContentState(b, m', rest[d..], tail, f);
    } else {
      w := AtBoundary([], ps);
      assert rest[..d] == rest && rest[d..] == [];
      assert [] + b == b;
      assert |m'.io + f| == |b + tail|;
      AtItsStart(b);
      AppendNothing(Read(m'.trace).value.parts);
    }
  }

  lemma ContentState(b: seq<byte>, m: Machine, rest: seq<byte>, tail: seq<byte>, f: seq<byte>)
    requires AtContent(b, m, rest, tail, f)
    ensures Ok(m) && InContent(m.st) && b != [] && |m.io| + |f| == |rest| + 4 + |b| + |tail|
  {
    assert |m.io + f| == |(rest + DELIMITER) + b + tail|;
  }

  lemma AtItsStart(b: seq<byte>)
    requires b != []
    ensures Find(b, b) == Some(0)
  {
    assert b[0..|b|] == b && OccursAt(b, b, 0);
  }

  lemma AppendNothing(parts: seq<(Option<seq<byte>>, seq<byte>)>)
    ensures Append(parts, []) == parts
  {
    if parts != [] {
      var last := parts[|parts| - 1];
      assert last.1 + [] == last.1;
      assert parts[..|parts| - 1] + [last] == parts;
    }
  }

  /** A piece of content told now, and the rest later, are the same as all of it later. */
  lemma DataRead(trace: seq<Event>, rest: seq<byte>, d: nat)
    requires d <= |rest| && Read(trace).Some? && Read(trace).value.open && Read(trace).value.parts != []
    ensures var s, r := Read(trace).value, Read(trace + [PartData(rest[..d])]);
            && r == Some(s.(parts := Append(s.parts, rest[..d])))
            && |r.value.parts| == |s.parts|
            && Append(r.value.parts, rest[d..]) == Append(s.parts, rest)
    ensures trace + [] == trace
  {
    hide Read;
    ReadSnoc(trace, PartData(rest[..d]));
    var parts := Read(trace).value.parts;
    var last := parts[|parts| - 1];
    assert last.1 + rest[..d] + rest[d..] == last.1 + rest;
    var now := Append(parts, rest[..d]);
    assert now[..|now| - 1] == parts[..|parts| - 1];
  }

  lemma EndingTurn(b: seq<byte>, m: Machine, f: seq<byte>, total: seq<(Option<seq<byte>>, seq<byte>)>, epilogue: seq<byte>)
    requires OnTrack(b, m, Ending, f, total, epilogue)
    ensures OnTrack(b, Turn(b, m).0, Over, f, total, epilogue) && Turn(b, m).0.io == m.io
  {
    hide Read;
    ReadSnoc(m.trace, PartEnd);
    ReadTwo(m.trace, PartEnd, RequestEnd);
    ReadSnoc(m.trace + [PartEnd], RequestEnd);
  }

  /** A turn keeps on track; it leaves the buffer only at a bad cut, and stops short of the end only for more bytes. */
  lemma TurnOnTrack(b: seq<byte>, m: Machine, w: Where, f: seq<byte>, total: seq<(Option<seq<byte>>, seq<byte>)>,
                    epilogue: seq<byte>) returns (w': Where)
    requires OnTrack(b, m, w, f, total, epilogue)
    ensures var (m', more) := Turn(b, m);
            if m'.st == Undefined then !more && Bad(b, w, |m.io|)
            else OnTrack(b, m', w', f, total, epilogue)
                 && |m'.io| <= |m.io| && Follows(b, w, w', |m.io| - |m'.io|)
                 && (!more ==> (f != [] || m'.st == Finished) && !Bad(b, w', |m'.io|))
  {
    hide BadCut;
    w' := w;
    match w {
      case AtBoundary(lead, ps) =>
        if m.st == WaitingForBoundary {
          w' := BoundaryTurn(b, m, lead, ps, f, total, epilogue);
        } else if m.st == GotBoundary {
          w' := HeaderTurn(b, m, lead, ps, f, total, epilogue);
        }
      case InPart(rest, ps) =>
        w' := InPartTurn(b, m, rest, ps, f, total, epilogue);
      case Ending =>
        EndingTurn(b, m, f, total, epilogue);
        w' := Over;
      case Over =>
    }
  }

  /** The loop keeps on track, leaves the buffer exactly at a bad cut, and stops short of the end only for more bytes. */
  lemma {:induction false} LoopOnTrack(b: seq<byte>, m: Machine, w: Where, f: seq<byte>,
                                       total: seq<(Option<seq<byte>>, seq<byte>)>, epilogue: seq<byte>)
    returns (w': Where)
    requires OnTrack(b, m, w, f, total, epilogue)
    ensures var m' := Loop(b, m);
            && (m'.st == Undefined <==> Bad(b, w, |m.io|))
            && (m'.st != Undefined ==>
                  OnTrack(b, m', w', f, total, epilogue) && (f != [] || m'.st == Finished)
                  && |m'.io| <= |m.io| && Follows(b, w, w', |m.io| - |m'.io|))
    decreases |m.io|, Rank(m.st)
  {
    hide OnTrack, Turn, Bad, Follows, Loop;
    TrackOk(b, m, w, f, total, epilogue);
    LoopOnce(b, m);
    var w1 := TurnOnTrack(b, m, w, f, total, epilogue);
    w' := w1;
    var m1 := Turn(b, m).0;
    if Turn(b, m).1 {
      w' := LoopOnTrack(b, m1, w1, f, total, epilogue);
      FollowsOn(b, w, w1, w', |m.io|, |m1.io|, |Loop(b, m1).io|);
    } else if m1.st != Undefined {
      FollowsOn(b, w, w1, w1, |m.io|, |m1.io|, |m1.io|);
    }
  }

  lemma LoopOnce(b: seq<byte>, m: Machine)
    requires Ok(m)
    ensures Loop(b, m) == if Turn(b, m).1 then Loop(b, Turn(b, m).0) else Turn(b, m).0
  {
  }

  lemma FollowsOn(b: seq<byte>, w: Where, w1: Where, w2: Where, n: nat, n1: nat, n2: nat)
    requires n1 <= n && Follows(b, w, w1, n - n1)
    ensures Bad(b, w1, n1) == Bad(b, w, n)
    ensures n2 <= n1 && Follows(b, w1, w2, n1 - n2) ==> Follows(b, w, w2, n - n2)
  {
    hide Bad, Follows;
    FollowsAt(b, w, w1, n - n1, n1);
    if n2 <= n1 && Follows(b, w1, w2, n1 - n2) {
      FollowsTwice(b, w, w1, w2, n - n1, n1 - n2);
    }
  }

  lemma FollowsAt(b: seq<byte>, w: Where, w': Where, g: nat, len: nat)
    requires Follows(b, w, w', g)
    ensures Bad(b, w', len) == Bad(b, w, len + g)
  {
  }

  lemma FollowsTwice(b: seq<byte>, w: Where, w1: Where, w2: Where, g: nat, g': nat)
    requires Follows(b, w, w1, g) && Follows(b, w1, w2, g')
    ensures Follows(b, w, w2, g + g')
  {
    hide Bad;
    forall len: nat ensures Bad(b, w2, len) == Bad(b, w, len + (g + g')) {
      FollowsAt(b, w1, w2, g', len);
      FollowsAt(b, w, w1, g, len + g');
      assert len + g' + g == len + (g + g');
    }
  }

  lemma TrackOk(b: seq<byte>, m: Machine, w: Where, f: seq<byte>, total: seq<(Option<seq<byte>>, seq<byte>)>,
                epilogue: seq<byte>)
    requires OnTrack(b, m, w, f, total, epilogue)
    ensures Ok(m) && m.st != Undefined && (m.st == Finished <==> w == Over)
  {
  }

  /** More of the stream in the buffer is less of it to come. */
  lemma MoreArrives(b: seq<byte>, m: Machine, w: Where, segment: seq<byte>, f: seq<byte>,
                    total: seq<(Option<seq<byte>>, seq<byte>)>, epilogue: seq<byte>)
    requires OnTrack(b, m, w, segment + f, total, epilogue) && (m.st == WaitingForBoundary || m.st == Begin || m.st == WaitingForChunk)
    ensures OnTrack(b, m.(io := m.io + segment), w, f, total, epilogue)
  {
    hide Read, Find, Body, Told, Append, Clean;
    assert m.io + (segment + f) == m.io + segment + f;
  }

  /** Between receives the machine waits, or is done. */
  lemma {:induction false} LoopWaits(b: seq<byte>, m: Machine)
    requires Ok(m)
    ensures Loop(b, m).st in {WaitingForBoundary, WaitingForChunk, Finished, Undefined}
    decreases |m.io|, Rank(m.st)
  {
    hide Find, ScanHeader;
    if Turn(b, m).1 {
      LoopWaits(b, Turn(b, m).0);
    }
  }

  /** One of these receives, behind len octets in the buffer, ends in a bad cut. */
  predicate BadlyCut(b: seq<byte>, w: Where, len: nat, segments: seq<seq<byte>>)
    decreases |segments|
  {
    segments != [] && (Bad(b, w, len + |segments[0]|) || BadlyCut(b, w, len + |segments[0]|, segments[1..]))
  }

  lemma {:induction false} CutsFollow(b: seq<byte>, w: Where, w': Where, g: nat, len: nat, segments: seq<seq<byte>>)
    requires Follows(b, w, w', g)
    ensures BadlyCut(b, w', len, segments) == BadlyCut(b, w, len + g, segments)
    decreases |segments|
  {
    hide Bad;
    if segments != [] {
      assert len + g + |segments[0]| == len + |segments[0]| + g;
      CutsFollow(b, w, w', g, len + |segments[0]|, segments[1..]);
    }
  }

  lemma {:induction false} OverNotCut(b: seq<byte>, len: nat, segments: seq<seq<byte>>)
    ensures !BadlyCut(b, Over, len, segments)
    decreases |segments|
  {
    if segments != [] {
      OverNotCut(b, len + |segments[0]|, segments[1..]);
    }
  }

  lemma {:induction false} SegmentsOnTrack(b: seq<byte>, m: Machine, w: Where, segments: seq<seq<byte>>,
                                           total: seq<(Option<seq<byte>>, seq<byte>)>, epilogue: seq<byte>)
    requires OnTrack(b, m, w, Concat(segments), total, epilogue)
    requires m.st in {Begin, WaitingForBoundary, WaitingForChunk, Finished}
    requires Concat(segments) == [] ==> m.st == Finished
    ensures var m' := ReceiveAll(b, m, segments);
            && (m'.st == Undefined <==> BadlyCut(b, w, |m.io|, segments))
            && (m'.st != Undefined ==> OnTrack(b, m', Over, [], total, epilogue))
    decreases |segments|
  {
    hide OnTrack, Loop, Bad, Follows;
    TrackOk(b, m, w, Concat(segments), total, epilogue);
    if m.st == Finished {
      FinishedStays(b, m, segments);
      OverNotCut(b, |m.io|, segments);
      DoneAnyway(b, m, Concat(segments), total, epilogue);
    } else {
      var rest, m1 := segments[1..], m.(io := m.io + segments[0]);
      MoreArrives(b, m, w, segments[0], Concat(rest), total, epilogue);
      var w' := LoopOnTrack(b, m1, w, Concat(rest), total, epilogue);
      LoopWaits(b, m1);
      var m' := Receive(b, m, segments[0]);
      if m'.st == Undefined {
        UndefinedStays(b, m', rest);
      } else {
        CutsFollow(b, w, w', |m1.io| - |m'.io|, |m'.io|, rest);
        SegmentsOnTrack(b, m', w', rest, total, epilogue);
      }
    }
  }

  lemma DoneAnyway(b: seq<byte>, m: Machine, f: seq<byte>, total: seq<(Option<seq<byte>>, seq<byte>)>, epilogue: seq<byte>)
    requires OnTrack(b, m, Over, f, total, epilogue)
    ensures OnTrack(b, m, Over, [], total, epilogue)
  {
  }

  lemma {:induction false} FinishedStays(b: seq<byte>, m: Machine, segments: seq<seq<byte>>)
    requires Ok(m) && m.st == Finished
    ensures ReceiveAll(b, m, segments) == m
    decreases |segments|
  {
    if segments != [] {
      FinishedStays(b, m, segments[1..]);
    }
  }

  lemma {:induction false} UndefinedStays(b: seq<byte>, m: Machine, segments: seq<seq<byte>>)
    requires Ok(m) && m.st == Undefined
    ensures ReceiveAll(b, m, segments).st == Undefined
    decreases |segments|
  {
    if segments != [] {
      UndefinedStays(b, Receive(b, m, segments[0]), segments[1..]);
    }
  }

  /** The receives from the j-th on, counted from the start of the body. */
  lemma {:induction false} CutsOfBody(b: seq<byte>, ps: seq<Part>, segments: seq<seq<byte>>, j: nat)
    requires j <= |segments|
    ensures BadlyCut(b, AtBoundary(DASHES, ps), |Concat(segments[..j])|, segments[j..])
            <==> exists i: nat :: j < i && BadAt(b, ps, segments, i)
    decreases |segments| - j
  {
    hide BadCut, Concat;
    if j < |segments| {
      CutsOfBody(b, ps, segments, j + 1);
      assert segments[j..][1..] == segments[j + 1..] && segments[j..][0] == segments[j];
      ConcatNext(segments, j);
      assert Bad(b, AtBoundary(DASHES, ps), |Concat(segments[..j + 1])|) == BadAt(b, ps, segments, j + 1);
    }
  }

  lemma ConcatNext(segments: seq<seq<byte>>, j: nat)
    requires j < |segments|
    ensures |Concat(segments[..j + 1])| == |Concat(segments[..j])| + |segments[j]|
  {
    assert segments[..j + 1] == segments[..j] + [segments[j]];
    ConcatAppend(segments[..j], [segments[j]]);
  }

  /** A well-formed body of at least one part, cut into any receives, is told whole and as it is: every part with its
      disposition and its content, in order, and the end. Unless some receive ends in a bad cut; then, and only
      then, the source reads outside its buffer. */
  lemma BodyDelivered(b: seq<byte>, ps: seq<Part>, epilogue: seq<byte>, segments: seq<seq<byte>>)
    requires WellFormed(b, ps) && ps != [] && Find(DASHES + b, b) == Some(2)
    requires Concat(segments) == DASHES + b + Body(b, ps, epilogue)
    ensures var m := ReceiveAll(b, START, segments);
            && (m.st == Undefined <==> exists i: nat :: BadAt(b, ps, segments, i))
            && (m.st != Undefined ==> m.st == Finished && Read(m.trace) == Some(Story(true, Told(ps), false, true)))
  {
    hide Find, Body, WellFormed, ReceiveAll, BadAt, Bad, BadlyCut, Read, Told, Concat, OnTrack;
    StartOnTrack(b, ps, epilogue, segments);
    CutsOfBody(b, ps, segments, 0);
    NothingNotBad(b, ps, segments);
    assert segments[0..] == segments;
    SegmentsOnTrack(b, START, AtBoundary(DASHES, ps), segments, Told(ps), epilogue);
    TrackOver(b, ReceiveAll(b, START, segments), Told(ps), epilogue);
  }

  lemma StartOnTrack(b: seq<byte>, ps: seq<Part>, epilogue: seq<byte>, segments: seq<seq<byte>>)
    requires WellFormed(b, ps) && ps != [] && Find(DASHES + b, b) == Some(2)
    requires Concat(segments) == DASHES + b + Body(b, ps, epilogue)
    ensures OnTrack(b, START, AtBoundary(DASHES, ps), Concat(segments), Told(ps), epilogue) && Concat(segments) != []
  {
    hide Find, Body, WellFormed, Concat;
    StartTidy();
    assert Read(START.trace) == Some(Story(true, [], false, false));
    assert [] + Told(ps) == Told(ps);
    assert START.io + Concat(segments) == DASHES + b + Body(b, ps, epilogue);
  }

  lemma TrackOver(b: seq<byte>, m: Machine, total: seq<(Option<seq<byte>>, seq<byte>)>, epilogue: seq<byte>)
    ensures OnTrack(b, m, Over, [], total, epilogue) ==>
              m.st == Finished && Read(m.trace) == Some(Story(true, total, false, true))
  {
    hide Read;
  }

  lemma NothingNotBad(b: seq<byte>, ps: seq<Part>, segments: seq<seq<byte>>)
    ensures !BadAt(b, ps, segments, 0) && |Concat(segments[..0])| == 0
  {
    BadNeedsFour(b, ps, -2 - |b|);
  }

  lemma LastNotBad(b: seq<byte>, ps: seq<Part>, epilogue: seq<byte>, segments: seq<seq<byte>>)
    requires Concat(segments) == DASHES + b + Body(b, ps, epilogue)
    ensures !BadAt(b, ps, segments, |segments|)
  {
    hide Body, Concat;
    assert segments[..|segments|] == segments;
    WholeNotBad(b, ps, epilogue);
  }

  /** A body received at once, and one whose header lines are all disposition lines, is always told whole. */
  lemma AlwaysTold(b: seq<byte>, ps: seq<Part>, epilogue: seq<byte>, segments: seq<seq<byte>>)
    requires WellFormed(b, ps) && ps != [] && Find(DASHES + b, b) == Some(2)
    requires Concat(segments) == DASHES + b + Body(b, ps, epilogue) && (Plain(ps) || |segments| == 1)
    ensures var m := ReceiveAll(b, START, segments);
            m.st == Finished && Read(m.trace) == Some(Story(true, Told(ps), false, true))
  {
    hide Find, Body, Concat, WellFormed, ReceiveAll, Plain, BadCut, Read, Told, OnTrack;
    BodyDelivered(b, ps, epilogue, segments);
    if Plain(ps) {
      forall i: nat ensures !BadAt(b, ps, segments, i) {
        if i <= |segments| {
          PlainNotBad(b, ps, |Concat(segments[..i])| - |DASHES| - |b|);
        }
      }
    } else {
      NothingNotBad(b, ps, segments);
      LastNotBad(b, ps, epilogue, segments);
      assert forall i: nat :: BadAt(b, ps, segments, i) ==> i == 0 || i == 1;
    }
  }

  /** A header line T, the boundary B and the cut behind that line: in two receives the source leaves its buffer, in
      one the same octets are told. */
  lemma CutMatters()
    ensures var s, t: seq<byte> := [45, 45, 66, 13, 10, 84, 10], [13, 10, 13, 10, 45, 45, 66, 45, 45, 13, 10];
            && ReceiveAll([66], START, [s, t]).st == Undefined
            && ReceiveAll([66], START, [s + t]).st == Finished
            && Read(ReceiveAll([66], START, [s + t]).trace) == Some(Story(true, [(None, [])], false, true))
  {
    var b, s, t: seq<byte> := [66], [45, 45, 66, 13, 10, 84, 10], [13, 10, 13, 10, 45, 45, 66, 45, 45, 13, 10];
    var p := Part([[84, 10]], []);
    assert Told([p]) == [(None, [])];
    CutBody(p);
    OneReceive(s);
    OneReceive(s + t);
    TwoReceives(s, t);
    OnlyAtEnd(DASHES, 66);
    OnlyAtEnd(DELIMITER, 66);
    assert [] + DELIMITER + b == DELIMITER + b;
    assert [s, t][..1] == [s];
    assert BadAt(b, [p], [s, t], 1);
    hide ReceiveAll, Read, Find, Body, BadAt;
    BodyDelivered(b, [p], [], [s, t]);
    AlwaysTold(b, [p], [], [s + t]);
  }

  lemma CutBody(p: Part)
    requires p == Part([[84, 10]], [])
    ensures Concat(p.lines) == [84, 10]
    ensures DASHES + [66] + Body([66], [p], [])
            == [45, 45, 66, 13, 10, 84, 10] + [13, 10, 13, 10, 45, 45, 66, 45, 45, 13, 10]
  {
    OneReceive([84, 10]);
    assert Body([66], [p], []) == [13, 10, 84, 10, 13, 10, 13, 10, 45, 45, 66, 45, 45, 13, 10];
  }

  lemma OneReceive(s: seq<byte>)
    ensures Concat([s]) == s
  {
    assert [s][1..] == [];
  }

  lemma TwoReceives(s: seq<byte>, t: seq<byte>)
    ensures Concat([s, t]) == s + t
  {
    OneReceive(t);
    assert [s, t][1..] == [t];
  }

  lemma OnlyAtEnd(s: seq<byte>, c: byte)
    requires c !in s
    ensures Find(s + [c], [c]) == Some(|s|)
  {
    var w := s + [c];
    assert w[|s|..|s| + 1] == [c] && OccursAt(w, [c], |s|);
    forall q: nat | q < |s| ensures !OccursAt(w, [c], q) {
      assert w[q..q + 1][0] == s[q];
    }
  }

  // ----- a body without parts -----

  ghost predicate Partless(b: seq<byte>, m: Machine, f: seq<byte>, epilogue: seq<byte>) {
    if m.st == Finished then Ok(m) && m.trace == [Request, PartEnd, RequestEnd]
    else
      && Ok(m) && m.part == 0 && m.trace == [Request]
      && (m.st == Finalize || (m.st in {Begin, WaitingForBoundary} && m.io + f == DASHES + b + (LAST + epilogue)))
  }

  lemma PartlessTurn(b: seq<byte>, m: Machine, f: seq<byte>, epilogue: seq<byte>)
    requires Partless(b, m, f, epilogue) && b != [] && Find(DASHES + b, b) == Some(2)
    ensures var (m', more) := Turn(b, m); Partless(b, m', f, epilogue) && (!more ==> f != [] || m'.st == Finished)
  {
    if m.st == WaitingForBoundary {
      FirstInBuffer(DASHES, b, LAST + epilogue, m.io, f);
      if |m.io| >= 6 + |b| {
        Peek(m.io, f, DASHES + b, LAST + epilogue, 4);
      }
    }
  }

  lemma {:induction false} PartlessLoop(b: seq<byte>, m: Machine, f: seq<byte>, epilogue: seq<byte>)
    requires Partless(b, m, f, epilogue) && b != [] && Find(DASHES + b, b) == Some(2)
    ensures Partless(b, Loop(b, m), f, epilogue) && (f != [] || Loop(b, m).st == Finished)
    decreases |m.io|, Rank(m.st)
  {
    PartlessTurn(b, m, f, epilogue);
    hide Turn, Find;
    if Turn(b, m).1 {
      PartlessLoop(b, Turn(b, m).0, f, epilogue);
    }
  }

  /** A body without parts, however it is cut, ends a part that never began, which is no story. */
  lemma {:induction false} NoPartsNoStory(b: seq<byte>, m: Machine, epilogue: seq<byte>, segments: seq<seq<byte>>)
    requires b != [] && Find(DASHES + b, b) == Some(2) && Partless(b, m, Concat(segments), epilogue) && m.st != Finalize
    requires Concat(segments) == [] ==> m.st == Finished
    ensures var m' := ReceiveAll(b, m, segments);
            m'.st == Finished && m'.trace == [Request, PartEnd, RequestEnd] && Read(m'.trace) == None
    decreases |segments|
  {
    hide Find, Loop;
    if m.st == Finished {
      FinishedStays(b, m, segments);
      ReadSnoc([Request], PartEnd);
      ReadSnoc([Request, PartEnd], RequestEnd);
      assert [Request] + [PartEnd] == [Request, PartEnd];
      assert [Request, PartEnd] + [RequestEnd] == [Request, PartEnd, RequestEnd];
      StartTidy();
    } else {
      var m1 := m.(io := m.io + segments[0]);
      assert m.io + Concat(segments) == m1.io + Concat(segments[1..]);
      PartlessLoop(b, m1, Concat(segments[1..]), epilogue);
      LoopWaits(b, m1);
      NoPartsNoStory(b, Receive(b, m, segments[0]), epilogue, segments[1..]);
    }
  }

  // ----- conservation of one part's content, whatever follows it -----

  /** The data of the events from n on, up to the first that is no data. */
  function LeadingData(trace: seq<Event>, n: nat): seq<byte>
    decreases |trace| - n
  {
    if n >= |trace| || !trace[n].PartData? then [] else trace[n].data + LeadingData(trace, n + 1)
  }

  predicate OtherFrom(trace: seq<Event>, n: nat) {
    exists i :: n <= i < |trace| && !trace[i].PartData?
  }

  lemma {:induction false} LeadingSnoc(trace: seq<Event>, n: nat, e: Event)
    requires n <= |trace|
    ensures LeadingData(trace + [e], n)
            == if OtherFrom(trace, n) || !e.PartData? then LeadingData(trace, n) else LeadingData(trace, n) + e.data
    ensures OtherFrom(trace + [e], n) <==> OtherFrom(trace, n) || !e.PartData?
    decreases |trace| - n
  {
    OtherSnoc(trace, n, e);
    OtherOnce(trace, n);
    hide OtherFrom;
    var t := trace + [e];
    if n == |trace| {
      if e.PartData? {
        assert LeadingData(t, n + 1) == [];
        assert e.data + [] == e.data == [] + e.data;
      }
    } else if trace[n].PartData? {
      LeadingSnoc(trace, n + 1, e);
      if e.PartData? {
        assert trace[n].data + (LeadingData(trace, n + 1) + e.data) == trace[n].data + LeadingData(trace, n + 1) + e.data;
      }
    }
  }

  lemma OtherSnoc(trace: seq<Event>, n: nat, e: Event)
    requires n <= |trace|
    ensures OtherFrom(trace + [e], n) <==> OtherFrom(trace, n) || !e.PartData?
  {
    var t := trace + [e];
    assert t[|trace|] == e;
    if OtherFrom(trace, n) {
      var i :| n <= i < |trace| && !trace[i].PartData?;
      assert t[i] == trace[i];
    }
  }

  lemma OtherOnce(trace: seq<Event>, n: nat)
    ensures OtherFrom(trace, n) <==> n < |trace| && (!trace[n].PartData? || OtherFrom(trace, n + 1))
  {
  }

  /** The content c of a part, told from event n on: a piece of it so far, or all of it and no more data before the
      next event of another kind. */
  ghost predicate Conserving(b: seq<byte>, m: Machine, n: nat, c: seq<byte>, tail: seq<byte>, f: seq<byte>) {
    && Ok(m) && n <= |m.trace|
    && if InContent(m.st) && !OtherFrom(m.trace, n)
       then var d := |LeadingData(m.trace, n)|;
            d <= |c| && LeadingData(m.trace, n) == c[..d] && AtContent(b, m, c[d..], tail, f)
       else LeadingData(m.trace, n) == c
  }

  lemma TurnConserves(b: seq<byte>, m: Machine, n: nat, c: seq<byte>, tail: seq<byte>, f: seq<byte>)
    requires Conserving(b, m, n, c, tail, f) && |tail| >= 2
    ensures Conserving(b, Turn(b, m).0, n, c, tail, f)
    ensures var (m', more) := Turn(b, m); !more && InContent(m'.st) && !OtherFrom(m'.trace, n) ==> f != []
  {
    hide Find, ScanHeader, LeadingData, OtherFrom;
    var m' := Turn(b, m).0;
    if InContent(m.st) && !OtherFrom(m.trace, n) {
      var d := |LeadingData(m.trace, n)|;
      var e := ContentTurn(b, m, c[d..], tail, f);
      hide AtContent, Turn;
      LeadingSnoc(m.trace, n, PartData(c[d..][..e]));
      assert c[..d] + c[d..][..e] == c[..d + e] && c[d..][e..] == c[d + e..];
      assert m.trace + [] == m.trace && c[d..][0..] == c[d..];
      if !InContent(m'.st) {
        assert c[d..][..e] == c[d..] && c[..d] + c[d..] == c;
      }
    } else {
      OthersConserve(b, m, n);
    }
  }

  /** Outside the content the next event is none of data. */
  lemma OthersConserve(b: seq<byte>, m: Machine, n: nat)
    requires Ok(m) && n <= |m.trace| && (!InContent(m.st) || OtherFrom(m.trace, n))
    ensures var m' := Turn(b, m).0;
            && n <= |m'.trace| && LeadingData(m'.trace, n) == LeadingData(m.trace, n)
            && (m'.trace != m.trace ==> OtherFrom(m'.trace, n))
            && (InContent(m'.st) && !InContent(m.st) ==> OtherFrom(m'.trace, n))
  {
    hide Find, ScanHeader, LeadingData, OtherFrom;
    var m', t := Turn(b, m).0, m.trace;
    if m'.trace != t {
      var e := m'.trace[|t|];
      LeadingSnoc(t, n, e);
      if |m'.trace| == |t| + 2 {
        LeadingSnoc(t + [e], n, m'.trace[|t| + 1]);
        assert m'.trace == t + [e] + [m'.trace[|t| + 1]];
      } else {
        assert m'.trace == t + [e];
      }
    }
  }

  lemma {:induction false} LoopConserves(b: seq<byte>, m: Machine, n: nat, c: seq<byte>, tail: seq<byte>, f: seq<byte>)
    requires Conserving(b, m, n, c, tail, f) && |tail| >= 2
    ensures Conserving(b, Loop(b, m), n, c, tail, f)
    ensures var m' := Loop(b, m); InContent(m'.st) && !OtherFrom(m'.trace, n) ==> f != []
    decreases |m.io|, Rank(m.st)
  {
    TurnConserves(b, m, n, c, tail, f);
    hide Turn, Conserving;
    var t := Turn(b, m);
    if t.1 {
      LoopConserves(b, t.0, n, c, tail, f);
    }
  }

  /** From the start of a part's content c on, whatever follows the boundary behind it, and however all that is cut:
      the data told before the next event of another kind are exactly c. */
  lemma {:induction false} ContentConserved(b: seq<byte>, m: Machine, n: nat, c: seq<byte>, tail: seq<byte>,
                                            segments: seq<seq<byte>>)
    requires Conserving(b, m, n, c, tail, Concat(segments)) && |tail| >= 2
    requires m.st != GotChunk && (InContent(m.st) && !OtherFrom(m.trace, n) ==> Concat(segments) != [])
    ensures LeadingData(ReceiveAll(b, m, segments).trace, n) == c
    decreases |segments|
  {
    hide Loop, Find;
    if segments != [] {
      if m.st != Finished {
        var m1 := m.(io := m.io + segments[0]);
        assert m.io + Concat(segments) == m1.io + Concat(segments[1..]);
        LoopConserves(b, m1, n, c, tail, Concat(segments[1..]));
        LoopWaits(b, m1);
      }
      ContentConserved(b, Receive(b, m, segments[0]), n, c, tail, segments[1..]);
    }
  }

  /** The same from an empty buffer at the start of a part's content. */
  lemma PartContentConserved(b: seq<byte>, m: Machine, c: seq<byte>, tail: seq<byte>, segments: seq<seq<byte>>)
    requires b != [] && Clean(c, b) && |tail| >= 2 && m.st == WaitingForChunk && m.io == [] && m.prev == 0
    requires Concat(segments) == c + DELIMITER + b + tail
    ensures LeadingData(ReceiveAll(b, m, segments).trace, |m.trace|) == c
  {
    hide Clean, Concat, ReceiveAll;
    assert c[0..] == c && c[..0] == [];
    assert m.io + Concat(segments) == (c + DELIMITER) + b + tail;
    ContentConserved(b, m, |m.trace|, c, tail, segments);
  }
}
