/** Multipart bodies as octets: which header line names a part, and an upload as browsers send it. */
module MultipartWire {
  import opened Bytes
  import opened MultipartCodec
  import opened MultipartStream

  /** The line that names a part, in either case of its letters. */
  lemma DispositionIs(line: seq<byte>)
    ensures IsDisposition(line) <==> |line| > 22 && SameLetters(line[..21], Ascii("content-disposition: "))
  {
    SpellingIs();
    if |line| > 22 {
      forall k | 0 <= k < 21
        ensures Lower(line[k]) == Lower(DISPOSITION[k]) <==> SameLetter(line[k], Ascii("content-disposition: ")[k])
      {
        LettersMatch(line[k], DISPOSITION[k]);
      }
    }
  }

  lemma SpellingIs()
    ensures DISPOSITION == Ascii("content-disposition: ")
  {
  }

  /** The spelling that browsers use. */
  const BROWSERS: seq<byte> := Ascii("Content-Disposition: ")

  lemma BrowsersSpelling()
    ensures |BROWSERS| == 21 && SameLetters(BROWSERS, Ascii("content-disposition: "))
    ensures forall k :: 0 <= k < 21 ==> BROWSERS[k] != NEWLINE
  {
    SpellingIs();
    BrowsersOctets();
    hide Ascii;
  }

  lemma BrowsersOctets()
    ensures BROWSERS
            == [67, 111, 110, 116, 101, 110, 116, 45, 68, 105, 115, 112, 111, 115, 105, 116, 105, 111, 110, 58, 32]
  {
  }

  /** In it, the value is what follows, up to the line's end. */
  lemma BrowserLine(v: seq<byte>)
    requires 10 !in v
    ensures var line := BROWSERS + v + [13, 10];
            && IsDisposition(line) && Line(line) && Disposition([line], None) == Some(v)
  {
    BrowsersSpelling();
    hide BROWSERS, Ascii;
    var line := BROWSERS + v + [13, 10];
    ThreeParts(BROWSERS, v, [13, 10]);
    assert line[21..|line| - 2] == v && line[|line| - 1] == NEWLINE;
    DispositionIs(line);
    hide IsDisposition;
    assert [line][1..] == [];
    forall k | 0 <= k < |line| - 1
      ensures line[k] != NEWLINE
    {
      if 21 <= k < 21 + |v| {
        assert line[k] == v[k - 21];
      }
    }
  }

  /** A line of another name does not. */
  lemma OtherLine()
    ensures !IsDisposition(Ascii("Content-Type: application/octet-stream") + [13, 10])
  {
    var line := Ascii("Content-Type: application/octet-stream") + [13, 10];
    DispositionIs(line);
    assert line[..21][8] == line[8] == 84;
    assert Ascii("content-disposition: ")[8] == 100;
  }

  /** An upload of one part. */
  function Upload(b: seq<byte>, v: seq<byte>, content: seq<byte>): seq<byte>
  {
    Ascii("--") + b + [13, 10] + Ascii("Content-Disposition: ") + v + [13, 10, 13, 10]
    + content + [13, 10] + Ascii("--") + b + Ascii("--") + [13, 10]
  }

  /** In whatever pieces it comes, it is told with its value and its content, and nothing else is. */
  lemma UploadTold(b: seq<byte>, v: seq<byte>, content: seq<byte>, segments: seq<seq<byte>>)
    requires 10 !in v && b != [] && Clean(content, b) && Find(DASHES + b, b) == Some(2)
    requires Concat(segments) == Upload(b, v, content)
    ensures var m := ReceiveAll(b, START, segments);
            m.st == Finished && Read(m.trace) == Some(Story(true, [(Some(v), content)], false, true))
  {
    BrowserLine(v);
    UploadBody(b, v, content);
    hide Find, Clean, IsDisposition, Line, Disposition, ReceiveAll, Read, Body, Concat, BROWSERS, Upload;
    var line := BROWSERS + v + [13, 10];
    var p := Part([line], content);
    assert [p][1..] == [] && Told([p]) == [(Some(v), content)] + [] == [(Some(v), content)];
    assert Plain([p]) && Lines(p.lines) && WellFormed(b, [p]);
    AlwaysTold(b, [p], [], segments);
  }

  lemma UploadBody(b: seq<byte>, v: seq<byte>, content: seq<byte>)
    ensures DASHES + b + Body(b, [Part([BROWSERS + v + [13, 10]], content)], []) == Upload(b, v, content)
  {
    var line := BROWSERS + v + [13, 10];
    var p := Part([line], content);
    assert Ascii("--") == DASHES;
    OneReceive(line);
    assert [p][1..] == [] && Body(b, [], []) == LAST + [];
    hide Concat;
    assert Body(b, [p], []) == CRLF + line + CRLF + content + DELIMITER + b + (LAST + []);
    Joined(b, BROWSERS, v, content);
  }

  lemma Joined(b: seq<byte>, t: seq<byte>, v: seq<byte>, content: seq<byte>)
    ensures DASHES + b + (CRLF + (t + v + [13, 10]) + CRLF + content + DELIMITER + b + (LAST + []))
            == DASHES + b + [13, 10] + t + v + [13, 10, 13, 10] + content + [13, 10] + DASHES + b + DASHES + [13, 10]
  {
    assert [13, 10] + CRLF == [13, 10, 13, 10] && [13, 10] + DASHES == DELIMITER && DASHES + [13, 10] == LAST + [];
  }
}
