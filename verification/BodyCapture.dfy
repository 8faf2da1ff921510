/** The receive loop of `ReconDeBodyCaptio::scan` in res_body_captio.cpp. */
module BodyCapture {
  import opened Wrappers
  import opened Sequences
  import opened Network
  import opened Receiving
  import opened StatusLine
  import opened TextSearch

  const BUFFER: nat := 8192
  const BODY: nat := 4096

  /** The captured body as a function of the whole stream: what follows the first blank line
      within the first 8191 bytes, cut to 4095 bytes. */
  function BodyOf(stream: string): Option<string> {
    var d := First(BUFFER - 1, stream);
    match HeaderEnd(d)
    case None => None
    case Some(h) => Some(First(BODY - 1, d[h..]))
  }

  /** What the run does until the blank line is seen: the first piece decides whether the status
      of what was received is defined, since the search for it is repeated with every piece. */
  ghost predicate FirstPieceFails(stream: string, first: nat)
    requires first <= |stream|
  {
    first > 0 && LacksStatusAt(stream, first)
  }

  /** The status that is extracted from the buffer, if it is defined. */
  method BufferStatus(buffer: array<char>, total: nat) returns (status: Status)
    requires total < buffer.Length && buffer[total] == NUL
    ensures status.Undefined? <==> LacksStatusAt(buffer[..total], total)
  {
    TerminatedSearch(buffer[..], total);
    assert buffer[..][..total] == buffer[..total] == buffer[..total][..total];
    status := ExtractStatus(CString(buffer[..]));
  }

  /** Gathers the response until the buffer is full, the stream has ended, or 4096 bytes of body
      are there. The run is undefined as soon as the received bytes lack a status. */
  method GatherResponse(c: Connection<char>, flag: CancelFlag, buffer: array<char>)
      returns (cancelled: bool, undefined: bool, total: nat, bodyStart: Option<nat>)
    requires buffer.Length == BUFFER && c.first == 0
    modifies c, flag, buffer
    ensures cancelled ==> flag.raised && !undefined
    ensures total < BUFFER && c.first <= total <= |old(c.pending)|
    ensures !cancelled ==> (undefined <==> FirstPieceFails(old(c.pending), c.first))
    ensures !cancelled && !undefined ==> buffer[..total] == old(c.pending)[..total]
    ensures !cancelled && !undefined ==>
              bodyStart == HeaderEnd(buffer[..total]) && Enough(old(c.pending), total)
  {
    ghost var stream := c.pending;
    cancelled, undefined, total, bodyStart := false, false, 0, None;
    while true
      invariant Holds(buffer, total, stream, c) && (c.first == 0 <==> total == 0) && c.first <= total
      invariant total > 0 ==> !LacksStatusAt(stream, c.first)
      invariant bodyStart == HeaderEnd(stream[..total])
      decreases |stream| - total
    {
      if BUFFER - total - 1 == 0 {
        return;
      }
      var _, now := ReceiveInto(c, buffer, total, false, stream);
      if now == total {
        return;
      }
      if bodyStart.Some? {
        Grows(stream, total, now);
      }
      ghost var before := total;
      total := now;
      cancelled := flag.Poll();
      if cancelled {
        return;
      }
      if bodyStart.None? {
        var status := BufferStatus(buffer, total);
        PieceStatus(stream, buffer[..total], c.first, before, total);
        if status.Undefined? {
          undefined := true;
          return;
        }
        bodyStart := SearchBuffer(buffer, total);
      }
      cancelled := flag.Poll();
      if cancelled {
        return;
      }
      if bodyStart.Some? && total - bodyStart.value >= BODY {
        return;
      }
      cancelled := flag.Poll();
      if cancelled {
        return;
      }
    }
  }

  /** The status of what was received lacks only if it lacked in the first piece. */
  lemma PieceStatus(stream: string, received: string, first: nat, before: nat, total: nat)
    requires before < total <= |stream| && received == stream[..total] && 0 < first <= total
    requires if before == 0 then first == total else !LacksStatusAt(stream, first)
    ensures LacksStatusAt(received, total) <==> LacksStatusAt(stream, first)
  {
    assert received[..total] == stream[..total];
    if before > 0 {
      StatusStays(stream, first, total);
    }
  }

  /** A run that is not cancelled, as no run is whose flag stays down, is undefined if and only if
      its first piece lacks a status. Otherwise the captured bytes depend on the stream alone, not
      on how it was cut into reads; without a blank line nothing is captured. */
  method CaptureBody(c: Connection<char>, flag: CancelFlag)
      returns (cancelled: bool, undefined: bool, body: Option<string>)
    requires c.first == 0
    modifies c, flag
    ensures cancelled ==> flag.raised && !undefined
    ensures c.first <= |old(c.pending)|
    ensures !cancelled ==> (undefined <==> FirstPieceFails(old(c.pending), c.first))
    ensures !cancelled && !undefined ==> body == BodyOf(old(c.pending))
  {
    ghost var stream := c.pending;
    var buffer := new char[BUFFER];
    var total, bodyStart;
    body := None;
    cancelled, undefined, total, bodyStart := GatherResponse(c, flag, buffer);
    if cancelled || undefined {
      return;
    }
    cancelled := flag.Poll();
    CapturedIsFinal(stream, total);
    if bodyStart.Some? {
      var captured := CopyBody(buffer, bodyStart.value, total);
      body := Some(captured);
    }
  }

  /** A response whose first byte arrives alone: the run is undefined, though it would capture the
      one byte of the body if its first five bytes came together. */
  lemma OneByteRead()
    ensures var stream := "HTTP/1.1 200 OK\r\n\r\nx";
            && FirstPieceFails(stream, 1) && !FirstPieceFails(stream, 5)
            && BodyOf(stream) == Some("x")
  {
    var header, content := "HTTP/1.1 200 OK\r\n\r\n", "x";
    var stream := header + content;
    assert |header| == 19 && header[15..19] == DIVIDER;
    assert stream[..5] == HTTP;
    FirstBytesOfResponse(stream, 1);
    FirstBytesOfResponse(stream, 5);
    forall i: nat | i + 4 < |header|
      ensures !MatchAt(header, DIVIDER, i)
    {
      assert header[i..i + 4][0] == header[i];
    }
    assert stream[..|header|] == header;
    CapturedBody(header, content);
    assert stream == "HTTP/1.1 200 OK\r\n\r\nx";
  }

  /** Copies at most 4095 bytes of what was received behind the headers. */
  method CopyBody(buffer: array<char>, start: nat, total: nat) returns (body: string)
    requires start <= total <= buffer.Length
    ensures body == First(BODY - 1, buffer[..total][start..])
  {
    var available := total - start;
    var count := if available > BODY - 1 then BODY - 1 else available;
    body := buffer[start..start + count];
    SliceOfPrefix(buffer[..], total, start, count);
    assert buffer[..][..total] == buffer[..total];
    assert |buffer[..total][start..]| == available;
  }

  /** Nothing that is received later can change the captured body. */
  ghost predicate Enough(stream: string, total: nat)
    requires total <= |stream|
  {
    var h := HeaderEnd(stream[..total]);
    total == BUFFER - 1 || total == |stream| || (h.Some? && total - h.value >= BODY)
  }

  /** What is captured when the loop ends is what the whole stream calls for. */
  lemma CapturedIsFinal(stream: string, total: nat)
    requires total <= BUFFER - 1 && total <= |stream|
    requires Enough(stream, total)
    ensures BodyOf(stream) ==
            match HeaderEnd(stream[..total])
            case None => None
            case Some(h) => Some(First(BODY - 1, stream[..total][h..]))
  {
    var d := First(BUFFER - 1, stream);
    assert stream[..total] == d[..total];
    var h := HeaderEnd(stream[..total]);
    if total < |d| {
      HeaderEndIsFinal(d, total);
      SliceOfPrefix(d, total, h.value, BODY - 1);
    } else {
      assert d[..total] == d;
    }
  }

  /** For a header block of `h` <= 8191 bytes without a NUL, the captured bytes are exactly the
      first min(4095, body length, 8191 - h) bytes of the body. */
  lemma CapturedBody(header: string, content: string)
    requires |header| <= 8191 && IsHeaderBlock(header, header + content)
    ensures BodyOf(header + content) == Some(First(4095, First(8191 - |header|, content)))
  {
    var stream := header + content;
    var d := First(BUFFER - 1, stream);
    assert d[..|header|] == header && stream[..|header|] == header;
    HeaderEndIsShortest(d, header);
    assert header <= d;
    assert d[|header|..] == First(BUFFER - 1 - |header|, content);
  }

  /** Nothing is captured exactly when no header block ends within the first 8191 bytes. */
  lemma NothingCaptured(stream: string)
    ensures BodyOf(stream).None? <==> forall h :: IsHeaderBlock(h, stream) ==> |h| > 8191
  {
    var d := First(8191, stream);
    forall h | IsHeaderBlock(h, stream) && |h| <= 8191
      ensures BodyOf(stream).Some?
    {
      CapturedBody(h, stream[|h|..]);
      assert h + stream[|h|..] == stream;
    }
    if HeaderEnd(d).Some? {
      var h := d[..HeaderEnd(d).value];
      HeaderEndIsShortest(d, h);
      assert IsHeaderBlock(h, stream) && |h| <= 8191;
    }
  }
}
