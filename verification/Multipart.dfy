/** The multipart reader of a connection, working on its receive buffer in place. */
module Multipart {
  import opened Bytes
  import opened IoBuffers
  import opened MultipartCodec

  /** The first occurrence of find in the first n bytes of p. */
  method Strnstr(p: array<byte>, find: seq<byte>, n: nat) returns (r: Option<nat>)
    requires n <= p.Length
    ensures r == Find(p[..n], find)
  {
    ghost var s := p[..n];
    var i := 0;
    while i < n
      invariant i <= n && FindFrom(s, find, i) == Find(s, find)
    {
      if i + |find| > n {
        return None;
      }
      if p[i..i + |find|] == find {
        assert s[i..i + |find|] == find;
        return Some(i);
      }
      assert s[i..i + |find|] == p[i..i + |find|];
      i := i + 1;
    }
    return None;
  }

  /** The length of a line in the first n bytes of p, with its newline; 0 when the newline is not there. */
  method GetLineLen(p: array<byte>, at: nat, n: nat) returns (len: nat)
    requires at <= n <= p.Length
    ensures len == LineLen(p[..n], at)
  {
    ghost var s := p[..n];
    len := 0;
    while at + len < n && p[at + len] != NEWLINE
      invariant at + len <= n
      invariant LineLen(s, at) == (if LineLen(s, at + len) == 0 then 0 else len + LineLen(s, at + len))
    {
      len := len + 1;
    }
    return if at + len == n then 0 else len + 1;
  }

  class Reader {
    const recv: Mbuf
    const boundary: seq<byte>
    var st: State
    var prevIoLen: nat
    var processingPart: nat
    var disposition: Option<seq<byte>>  // what the names of the part are taken from
    ghost var trace: seq<Event>

    ghost predicate Valid()
      reads this, recv, recv.buf
    {
      recv.Valid() && boundary != [] && Ok(View())
    }

    ghost function View(): Machine
      requires recv.Valid()
      reads this, recv, recv.buf
    {
      Machine(st, recv.Contents(), prevIoLen, processingPart, trace)
    }

    /** The first part of the handler for a new request: what is behind its headers goes into the buffer. */
    constructor (boundary: seq<byte>, body: seq<byte>)
      requires boundary != []
      ensures Valid() && View() == START.(io := body) && this.boundary == boundary
      ensures fresh(recv) && fresh(recv.buf)
    {
      recv := new Mbuf(0);
      this.boundary, st, prevIoLen, processingPart, disposition := boundary, Begin, 0, 0, None;
      trace := [Request];
      new;
      recv.Append(body);
      assert [] + body == body;
    }

    method GotChunk()
      requires Valid() && st == State.GotChunk
      modifies this, recv, recv.buf
      ensures Valid() && View() == TakeChunk(old(View())).0 && (recv.buf == old(recv.buf) || fresh(recv.buf))
    {
      trace := trace + [PartData(recv.Contents()[..prevIoLen])];
      recv.Remove(prevIoLen);
      prevIoLen := 0;
      st := WaitingForChunk;
    }

    method FinalizeRequest()
      requires Valid() && st == Finalize
      modifies this
      ensures Valid() && View() == Turn(boundary, old(View())).0
    {
      trace := trace + [PartEnd, RequestEnd];
      disposition, prevIoLen, processingPart := None, 0, 0;
      st := Finished;
    }

    method WaitForBoundary() returns (more: bool)
      requires Valid() && st == WaitingForBoundary
      modifies this`st, recv, recv.buf
      ensures Valid() && (View(), more) == MultipartCodec.WaitForBoundary(boundary, old(View()))
      ensures recv.buf == old(recv.buf) || fresh(recv.buf)
    {
      hide Find;
      ghost var io := recv.Contents();
      if recv.len < |boundary| + 2 {
        return false;
      }
      var p := Strnstr(recv.buf, boundary, recv.len);
      if p.None? {
        return false;
      }
      var end := p.value + |boundary|;
      if recv.len - end < 4 {
        return false;
      }
      SliceOfPrefix(recv.buf[..], recv.len, end, end + 4);
      assert recv.buf[end..end + 4] == io[end..end + 4];
      if recv.buf[end..end + 4] == LAST {
        st := Finalize;
        recv.Remove(end + 4);
      } else {
        st := GotBoundary;
      }
      return true;
    }

    method WaitForChunk() returns (more: bool)
      requires Valid() && st == WaitingForChunk
      modifies this`st, this`prevIoLen, this`trace, recv, recv.buf
      ensures Valid() && (View(), more) == MultipartCodec.WaitForChunk(boundary, old(View()))
      ensures recv.buf == old(recv.buf) || fresh(recv.buf)
    {
      hide Find;
      if recv.len < |boundary| + 6 {
        return false;
      }
      var p := Strnstr(recv.buf, boundary, recv.len);
      if p.None? && prevIoLen == 0 {
        prevIoLen := recv.len;
        return false;
      } else if p.None? && recv.len > prevIoLen + |boundary| + 4 {
        st := State.GotChunk;
        return true;
      } else if p.Some? {
        if p.value < 4 {
          st, prevIoLen := Undefined, 0;
          return false;
        }
        trace := trace + [PartData(recv.Contents()[..p.value - 4])];
        recv.Remove(p.value);
        prevIoLen := 0;
        st := WaitingForBoundary;
        return true;
      }
      return false;
    }

    /** Whether the line of n bytes at at is a disposition line. */
    method CompareDisposition(at: nat, n: nat) returns (r: bool)
      requires recv.Valid() && at + n <= recv.len
      ensures r == IsDisposition(recv.Contents()[at..at + n])
    {
      ghost var line := recv.Contents()[at..at + n];
      if n <= 22 {
        return false;
      }
      var k := 0;
      while k < 21 && Lower(recv.buf[at + k]) == Lower(DISPOSITION[k])
        invariant k <= 21
        invariant forall j :: 0 <= j < k ==> Lower(line[j]) == Lower(DISPOSITION[j])
      {
        k := k + 1;
      }
      assert k < 21 ==> line[..21][k] == recv.buf[at + k];
      return k == 21;
    }

    /** The walk over the header lines, taking only disposition lines off the size. */
    method ScanBlock(start: nat) returns (r: Scan)
      requires recv.Valid() && start <= recv.len
      ensures r == ScanHeader(recv.Contents(), start, recv.len - start, None)
    {
      hide LineLen, IsDisposition, ScanHeader;
      ghost var io := recv.Contents();
      var at, size: int, found := start, recv.len - start, None;
      while size > 0
        invariant start <= at <= recv.len <= at + size
        invariant ScanHeader(io, at, size, found) == ScanHeader(io, start, recv.len - start, None)
        decreases recv.len - at
      {
        ScanOnce(io, at, size, found);
        var n := GetLineLen(recv.buf, at, recv.len);
        if n == 0 {
          return if at + size > recv.len then Overrun else Incomplete;
        }
        var disp := CompareDisposition(at, n);
        SliceOfPrefix(recv.buf[..], recv.len, at, at + n);
        assert recv.buf[at..at + n] == io[at..at + n];
        if disp {
          DispositionIsLong(io[at..at + n]);
          found := Some(recv.buf[at..at + n][21..n - 2]);
          size := size - n;
        } else if n == 2 && recv.buf[at..at + n] == CRLF {
          return Blank(at + 2, found);
        }
        at := at + n;
      }
      ScanOnce(io, at, size, found);
      return Incomplete;
    }

    method ProcessBoundary() returns (more: bool)
      requires Valid() && st == State.GotBoundary
      modifies this, recv, recv.buf
      ensures Valid() && (View(), more) == MultipartCodec.ProcessBoundary(boundary, old(View()))
      ensures recv.buf == old(recv.buf) || fresh(recv.buf)
    {
      hide Find, ScanHeader;
      var p := Strnstr(recv.buf, boundary, recv.len);
      if p.None? || p.value + |boundary| + 2 > recv.len {
        st := Undefined;
        return false;
      }
      var scan := ScanBlock(p.value + |boundary| + 2);
      match scan {
        case Incomplete =>
          st := WaitingForBoundary;
          return false;
        case Overrun =>
          st := Undefined;
          return false;
        case Blank(end, found) =>
          recv.Remove(end);
          assert trace + [] == trace;
          if processingPart != 0 {
            trace := trace + [PartEnd];
          }
          disposition := found;
          trace := trace + [PartBegin(found)];
          st := WaitingForChunk;
          processingPart := processingPart + 1;
          return true;
      }
    }

    method Continue()
      requires Valid()
      modifies this, recv, recv.buf
      ensures Valid() && View() == Loop(boundary, old(View())) && (recv.buf == old(recv.buf) || fresh(recv.buf))
    {
      hide Loop, MultipartCodec.WaitForBoundary, MultipartCodec.ProcessBoundary, MultipartCodec.WaitForChunk;
      while true
        invariant Valid() && Loop(boundary, View()) == Loop(boundary, old(View()))
        invariant recv.buf == old(recv.buf) || fresh(recv.buf)
        decreases recv.len, Rank(st)
      {
        LoopOnce(boundary, View());
        var more := true;
        match st {
          case Begin => st := WaitingForBoundary;
          case WaitingForBoundary => more := WaitForBoundary();
          case GotBoundary => more := ProcessBoundary();
          case WaitingForChunk => more := WaitForChunk();
          case GotChunk =>
            GotChunk();
            more := false;
          case Finalize => FinalizeRequest();
          case Finished =>
            recv.Remove(recv.len);
            assert recv.Contents() == [];
            more := false;
          case Undefined => more := false;
        }
        if !more {
          return;
        }
      }
    }

    /** What a receive event does while the request goes on. */
    method Receive(segment: seq<byte>)
      requires Valid() && st != Finished
      modifies this, recv, recv.buf
      ensures Valid() && View() == MultipartCodec.Receive(boundary, old(View()), segment)
    {
      hide Loop;
      recv.Append(segment);
      Continue();
    }

    /** The connection closes. */
    method Close()
      requires Valid()
      modifies this`trace
      ensures trace == Closed(old(View()))
    {
      if st != Finished {
        trace := trace + [PartEnd, RequestEnd];
      }
    }
  }

  lemma LoopOnce(b: seq<byte>, m: Machine)
    requires Ok(m)
    ensures Loop(b, m) == if Turn(b, m).1 then Loop(b, Turn(b, m).0) else Turn(b, m).0
  {
  }
}
