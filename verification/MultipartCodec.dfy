/**
 The streaming multipart reader as a machine: its states, one turn of its loop, and a run over received bytes.
 The events it raises are read back by a grammar of their own.
 */
module MultipartCodec {
  import opened Bytes

  const CRLF: seq<byte> := [13, 10]
  const DASHES: seq<byte> := [45, 45]
  const DELIMITER: seq<byte> := [13, 10, 45, 45]  // in front of a boundary behind content
  const LAST: seq<byte> := [45, 45, 13, 10]       // behind the last boundary
  const NEWLINE: byte := 10

  /** "content-disposition: " */
  const DISPOSITION: seq<byte> :=
    [99, 111, 110, 116, 101, 110, 116, 45, 100, 105, 115, 112, 111, 115, 105, 116, 105, 111, 110, 58, 32]

  // ----- searching -----

  predicate OccursAt(s: seq<byte>, b: seq<byte>, p: nat) {
    p + |b| <= |s| && s[p..p + |b|] == b
  }

  /** The first occurrence of b in s, from i on. */
  function FindFrom(s: seq<byte>, b: seq<byte>, i: nat): (p: Option<nat>)
    ensures p.Some? ==> i <= p.value && OccursAt(s, b, p.value)
    ensures p.Some? ==> forall q :: i <= q < p.value ==> !OccursAt(s, b, q)
    ensures p.None? && b != [] ==> forall q :: i <= q ==> !OccursAt(s, b, q)
    decreases |s| - i
  {
    if i >= |s| || i + |b| > |s| then None
    else if s[i..i + |b|] == b then Some(i)
    else FindFrom(s, b, i + 1)
  }

  function Find(s: seq<byte>, b: seq<byte>): (p: Option<nat>)
    ensures p.Some? ==> OccursAt(s, b, p.value) && forall q: nat :: q < p.value ==> !OccursAt(s, b, q)
    ensures p.None? && b != [] ==> forall q: nat :: !OccursAt(s, b, q)
  {
    FindFrom(s, b, 0)
  }

  /** The length of the line at at, with its newline; 0 when the newline is not there. */
  function LineLen(s: seq<byte>, at: nat): (n: nat)
    ensures n > 0 ==> at + n <= |s| && s[at + n - 1] == NEWLINE
    ensures forall k :: at <= k < |s| && (n > 0 ==> k < at + n - 1) ==> s[k] != NEWLINE
    decreases |s| - at
  {
    if at >= |s| then 0
    else if s[at] == NEWLINE then 1
    else var n := LineLen(s, at + 1); if n == 0 then 0 else n + 1
  }

  predicate EqualsLower(s: seq<byte>, t: seq<byte>) {
    |s| == |t| && forall k :: 0 <= k < |s| ==> Lower(s[k]) == Lower(t[k])
  }

  predicate IsDisposition(line: seq<byte>) {
    |line| > 22 && EqualsLower(line[..21], DISPOSITION)
  }

  // ----- the machine -----

  datatype State = Begin | WaitingForBoundary | WaitingForChunk | GotChunk | GotBoundary | Finalize | Finished
                 | Undefined  // the source reads outside its buffer

  /** The names of a part are in the value of its last disposition line; without one they are not set. */
  datatype Event = Request | PartBegin(disposition: Option<seq<byte>>) | PartData(data: seq<byte>) | PartEnd | RequestEnd

  /** The reader: its buffer, the buffer length it remembered, the number of parts begun, the events raised. */
  datatype Machine = Machine(st: State, io: seq<byte>, prev: nat, part: nat, trace: seq<Event>)

  predicate InContent(st: State) {
    st == WaitingForChunk || st == GotChunk
  }

  predicate Ok(m: Machine) {
    m.prev <= |m.io| && (m.prev > 0 ==> InContent(m.st)) && (m.st == GotChunk ==> m.prev > 0)
  }

  datatype Scan = Blank(end: nat, disposition: Option<seq<byte>>) | Incomplete | Overrun

  /** The lines of a header block. Only disposition lines are taken off the size that is still to be scanned. */
  function ScanHeader(io: seq<byte>, at: nat, size: int, disposition: Option<seq<byte>>): (r: Scan)
    requires at <= |io| <= at + size
    ensures r.Blank? ==> at + 2 <= r.end <= |io|
    decreases |io| - at
  {
    var n := LineLen(io, at);
    if size <= 0 then Incomplete
    else if n == 0 then if at + size > |io| then Overrun else Incomplete
    else
      var line := io[at..at + n];
      if IsDisposition(line) then ScanHeader(io, at + n, size - n, Some(line[21..n - 2]))
      else if line == CRLF then Blank(at + 2, disposition)
      else ScanHeader(io, at + n, size, disposition)
  }

  lemma ScanOnce(io: seq<byte>, at: nat, size: int, d: Option<seq<byte>>)
    requires at <= |io| <= at + size
    ensures var r, n := ScanHeader(io, at, size, d), LineLen(io, at);
            if size <= 0 then r == Incomplete
            else if n == 0 then r == if at + size > |io| then Overrun else Incomplete
            else
              var line := io[at..at + n];
              if IsDisposition(line) then r == ScanHeader(io, at + n, size - n, Some(line[21..n - 2]))
              else r == if line == CRLF then Blank(at + 2, d) else ScanHeader(io, at + n, size, d)
  {
    hide LineLen, IsDisposition;
    DispositionIsLong(if LineLen(io, at) == 0 then [] else io[at..at + LineLen(io, at)]);
  }

  lemma DispositionIsLong(l: seq<byte>)
    ensures IsDisposition(l) ==> |l| > 22
  {
  }

  /** Each turn of the loop: the machine after it, and whether the loop goes on. */
  function WaitForBoundary(b: seq<byte>, m: Machine): (r: (Machine, bool))
    requires Ok(m) && m.st == WaitingForBoundary
    ensures Ok(r.0)
  {
    var p := Find(m.io, b);
    if |m.io| < |b| + 2 || p.None? || |m.io| - (p.value + |b|) < 4 then (m, false)
    else
      var e := p.value + |b|;
      if m.io[e..e + 4] == LAST then (m.(st := Finalize, io := m.io[e + 4..]), true)
      else (m.(st := GotBoundary), true)
  }

  function ProcessBoundary(b: seq<byte>, m: Machine): (r: (Machine, bool))
    requires Ok(m) && m.st == GotBoundary
    ensures Ok(r.0)
  {
    var p := Find(m.io, b);
    if p.None? || p.value + |b| + 2 > |m.io| then (m.(st := Undefined), false) else
    var at := p.value + |b| + 2;
    match ScanHeader(m.io, at, |m.io| - at, None)
    case Incomplete => (m.(st := WaitingForBoundary), false)
    case Overrun => (m.(st := Undefined), false)
    case Blank(end, disposition) =>
      (m.(st := WaitingForChunk, io := m.io[end..], part := m.part + 1,
          trace := m.trace + (if m.part != 0 then [PartEnd] else []) + [PartBegin(disposition)]), true)
  }

  function WaitForChunk(b: seq<byte>, m: Machine): (r: (Machine, bool))
    requires Ok(m) && m.st == WaitingForChunk
    ensures Ok(r.0)
  {
    if |m.io| < |b| + 6 then (m, false) else
    var p := Find(m.io, b);
    if p.None? then
      if m.prev == 0 then (m.(prev := |m.io|), false)
      else if |m.io| > m.prev + |b| + 4 then (m.(st := GotChunk), true)
      else (m, false)
    else if p.value < 4 then (m.(st := Undefined, prev := 0), false)
    else (m.(st := WaitingForBoundary, io := m.io[p.value..], prev := 0,
             trace := m.trace + [PartData(m.io[..p.value - 4])]), true)
  }

  function TakeChunk(m: Machine): (r: (Machine, bool))
    requires Ok(m) && m.st == GotChunk
    ensures Ok(r.0)
  {
    (m.(st := WaitingForChunk, io := m.io[m.prev..], prev := 0, trace := m.trace + [PartData(m.io[..m.prev])]), false)
  }

  function Turn(b: seq<byte>, m: Machine): (r: (Machine, bool))
    requires Ok(m)
    ensures Ok(r.0)
    ensures r.1 ==> |r.0.io| < |m.io| || (|r.0.io| == |m.io| && Rank(r.0.st) < Rank(m.st))
  {
    match m.st
    case Begin => (m.(st := WaitingForBoundary), true)
    case WaitingForBoundary => WaitForBoundary(b, m)
    case GotBoundary => ProcessBoundary(b, m)
    case WaitingForChunk => WaitForChunk(b, m)
    case GotChunk => TakeChunk(m)
    case Finalize => (Machine(Finished, m.io, 0, 0, m.trace + [PartEnd, RequestEnd]), true)
    case Finished => (m.(io := []), false)
    case Undefined => (m, false)
  }

  function Rank(st: State): nat {
    match st
    case Begin => 4
    case WaitingForChunk => 3
    case WaitingForBoundary => 2
    case GotBoundary => 1
    case GotChunk => 1
    case Finalize => 1
    case _ => 0
  }

  /** The loop: it ends, for each turn that goes on shortens the buffer or lowers the rank of the state. */
  function Loop(b: seq<byte>, m: Machine): (r: Machine)
    requires Ok(m)
    ensures Ok(r)
    decreases |m.io|, Rank(m.st)
  {
    var t := Turn(b, m);
    if t.1 then Loop(b, t.0) else t.0
  }

  /** More bytes; a machine that has finished gets none, they belong to the next request. */
  function Receive(b: seq<byte>, m: Machine, segment: seq<byte>): (r: Machine)
    requires Ok(m)
    ensures Ok(r)
  {
    if m.st == Finished then m else Loop(b, m.(io := m.io + segment))
  }

  function ReceiveAll(b: seq<byte>, m: Machine, segments: seq<seq<byte>>): (r: Machine)
    requires Ok(m)
    ensures Ok(r)
    decreases |segments|
  {
    if segments == [] then m else ReceiveAll(b, Receive(b, m, segments[0]), segments[1..])
  }

  const START := Machine(Begin, [], 0, 0, [Request])

  /** The connection closes: what is open is ended. */
  function Closed(m: Machine): seq<Event> {
    if m.st == Finished then m.trace else m.trace + [PartEnd, RequestEnd]
  }

  // ----- the grammar of the events -----

  /** A request as its events tell it: each part with its disposition and its content. */
  datatype Story = Story(requested: bool, parts: seq<(Option<seq<byte>>, seq<byte>)>, open: bool, done: bool)

  function Append(parts: seq<(Option<seq<byte>>, seq<byte>)>, data: seq<byte>): seq<(Option<seq<byte>>, seq<byte>)> {
    if parts == [] then [] else
    var last := parts[|parts| - 1];
    parts[..|parts| - 1] + [(last.0, last.1 + data)]
  }

  function Next(s: Story, e: Event): Option<Story> {
    match e
    case Request => if s.requested then None else Some(s.(requested := true))
    case PartBegin(d) =>
      if s.requested && !s.open && !s.done then Some(s.(parts := s.parts + [(d, [])], open := true)) else None
    case PartData(data) => if s.open && s.parts != [] then Some(s.(parts := Append(s.parts, data))) else None
    case PartEnd => if s.open then Some(s.(open := false)) else None
    case RequestEnd => if s.requested && !s.open && !s.done && s.parts != [] then Some(s.(done := true)) else None
  }

  /** The story of a trace, if it is a prefix of REQUEST (BEGIN DATA* END)+ REQUEST_END. */
  function Read(trace: seq<Event>): Option<Story>
    decreases |trace|
  {
    if trace == [] then Some(Story(false, [], false, false)) else
    var s := Read(trace[..|trace| - 1]);
    if s.None? then None else Next(s.value, trace[|trace| - 1])
  }

  lemma ReadSnoc(trace: seq<Event>, e: Event)
    ensures Read(trace + [e]) == if Read(trace).None? then None else Next(Read(trace).value, e)
  {
    assert (trace + [e])[..|trace|] == trace;
  }

  lemma ReadTwo(trace: seq<Event>, e: Event, e': Event)
    ensures Read(trace + [e, e']) == Read(trace + [e] + [e'])
  {
    assert trace + [e, e'] == trace + [e] + [e'];
  }

  predicate HasPart(trace: seq<Event>) {
    exists i :: 0 <= i < |trace| && trace[i].PartBegin?
  }

  lemma HasPartSnoc(trace: seq<Event>, e: Event)
    ensures HasPart(trace + [e]) <==> HasPart(trace) || e.PartBegin?
  {
    var t := trace + [e];
    if HasPart(trace) {
      var i :| 0 <= i < |trace| && trace[i].PartBegin?;
      assert t[i].PartBegin?;
    }
    assert t[|trace|] == e;
  }

  /** The story keeps pace with the machine: a part is open exactly when one was begun. */
  predicate Tidy(m: Machine) {
    var s := Read(m.trace);
    match m.st
    case Undefined => s.Some?
    case Finished => (s.Some? <==> HasPart(m.trace)) && (s.Some? ==> s.value.done)
    case _ =>
      && s.Some? && s.value.requested && !s.value.done && |s.value.parts| == m.part
      && (s.value.open <==> m.part > 0) && (HasPart(m.trace) <==> m.part > 0)
      && (InContent(m.st) ==> m.part > 0)
  }

  lemma TurnTidy(b: seq<byte>, m: Machine)
    requires Ok(m) && Tidy(m)
    ensures Tidy(Turn(b, m).0)
  {
    hide ScanHeader, Find, Read, HasPart;
    match m.st {
      case GotBoundary =>
        var t := if m.part != 0 then m.trace + [PartEnd] else m.trace;
        ReadSnoc(m.trace, PartEnd);
        HasPartSnoc(m.trace, PartEnd);
        var m' := ProcessBoundary(b, m).0;
        if m'.st == WaitingForChunk {
          var e := m'.trace[|m'.trace| - 1];
          ReadSnoc(t, e);
          HasPartSnoc(t, e);
          assert m'.trace == t + [e];
        }
      case WaitingForChunk =>
        var m' := WaitForChunk(b, m).0;
        if m'.st == WaitingForBoundary {
          ReadSnoc(m.trace, m'.trace[|m.trace|]);
          HasPartSnoc(m.trace, m'.trace[|m.trace|]);
        }
      case GotChunk =>
        ReadSnoc(m.trace, PartData(m.io[..m.prev]));
        HasPartSnoc(m.trace, PartData(m.io[..m.prev]));
      case Finalize =>
        EndsTidily(m);
      case _ =>
    }
  }

  /** Ending the open part and the request keeps the grammar exactly when there was a part. */
  lemma EndsTidily(m: Machine)
    requires Tidy(m) && m.st != Finished && m.st != Undefined
    ensures var t := m.trace + [PartEnd, RequestEnd];
            && (HasPart(t) <==> m.part > 0) && (Read(t).Some? <==> m.part > 0)
            && (Read(t).Some? ==> Read(t).value.done && Read(t).value.parts == Read(m.trace).value.parts)
  {
    hide Read, HasPart;
    ReadSnoc(m.trace, PartEnd);
    ReadTwo(m.trace, PartEnd, RequestEnd);
    ReadSnoc(m.trace + [PartEnd], RequestEnd);
    HasPartSnoc(m.trace, PartEnd);
    HasPartSnoc(m.trace + [PartEnd], RequestEnd);
    assert m.trace + [PartEnd, RequestEnd] == m.trace + [PartEnd] + [RequestEnd];
  }

  lemma {:induction false} LoopTidy(b: seq<byte>, m: Machine)
    requires Ok(m) && Tidy(m)
    ensures Tidy(Loop(b, m))
    decreases |m.io|, Rank(m.st)
  {
    TurnTidy(b, m);
    hide Turn, Tidy;
    if Turn(b, m).1 {
      LoopTidy(b, Turn(b, m).0);
    }
  }

  /** Whatever is received, and however it is cut, the events follow the grammar while the request goes on; a part
      is open exactly when one was begun; and the request ends by the grammar exactly when it had a part. */
  lemma {:induction false} EventGrammar(b: seq<byte>, m: Machine, segments: seq<seq<byte>>)
    requires Ok(m) && Tidy(m)
    ensures Tidy(ReceiveAll(b, m, segments))
    decreases |segments|
  {
    hide Tidy, Loop, Read;
    if segments != [] {
      var m' := m.(io := m.io + segments[0]);
      if m.st != Finished {
        assert Tidy(m') by { SameTidy(m, m'); }
        LoopTidy(b, m');
      }
      EventGrammar(b, Receive(b, m, segments[0]), segments[1..]);
    }
  }

  lemma SameTidy(m: Machine, m': Machine)
    requires Tidy(m) && m' == m.(io := m'.io)
    ensures Tidy(m')
  {
  }

  lemma StartTidy()
    ensures Ok(START) && Tidy(START)
  {
    ReadSnoc([], Request);
    assert [] + [Request] == [Request];
  }

  /** A connection that closes in the middle of a request finishes the open part and the request once; the events
      are then a whole request exactly when it had a part. */
  lemma CloseGrammar(b: seq<byte>, segments: seq<seq<byte>>)
    ensures var m := ReceiveAll(b, START, segments);
            m.st != Undefined ==>
              && (Read(Closed(m)).Some? <==> HasPart(m.trace))
              && (Read(Closed(m)).Some? ==> Read(Closed(m)).value.done)
  {
    hide ReceiveAll, Read, HasPart;
    StartTidy();
    EventGrammar(b, START, segments);
    var m := ReceiveAll(b, START, segments);
    if m.st != Finished && m.st != Undefined {
      EndsTidily(m);
    }
  }
}
