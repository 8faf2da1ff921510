/** `Scan::tor_scan` of tor_scan.cpp with the transport functions it calls: `SockTunnel`,
    `TorRotation` and `interface_scan`. Peers, proxies and the cancel flag are arbitrary. */
module TorScan {
  import opened Wrappers
  import opened TextSearch
  import opened Network
  import opened Receiving
  import opened Handles
  import opened Lines
  import opened HeaderSanitiser
  import opened RequestText
  import opened StatusLine

  const BUFFER: nat := 65536

  /** The header block as a function of the whole stream: its shortest prefix that ends in a
      blank line, if that ends within 65535 bytes and before any NUL, else nothing. */
  function HeadersOf(stream: string): string {
    var d := First(BUFFER - 1, stream);
    match HeaderEnd(d)
    case None => ""
    case Some(h) => d[..h]
  }

  lemma StoredIsBlock(stream: string, h: string)
    requires h != "" && HeadersOf(stream) == h
    ensures IsHeaderBlock(h, stream) && |h| <= 65535
  {
    var d := First(BUFFER - 1, stream);
    FoundIsShortest(d, h);
  }

  /** What is stored, if anything, is the header block of at most 65535 bytes. */
  lemma HeadersAreBlock(stream: string, h: string)
    requires h != ""
    ensures HeadersOf(stream) == h <==> IsHeaderBlock(h, stream) && |h| <= 65535
  {
    if HeadersOf(stream) == h {
      StoredIsBlock(stream, h);
    }
    if IsHeaderBlock(h, stream) && |h| <= 65535 {
      assert h + stream[|h|..] == stream;
      HeadersOfBlock(h, stream[|h|..]);
    }
  }

  /** A header block of at most 65535 bytes is what is stored, whatever follows it. */
  lemma HeadersOfBlock(header: string, more: string)
    requires IsHeaderBlock(header, header + more) && |header| <= 65535
    ensures HeadersOf(header + more) == header
  {
    var d := First(BUFFER - 1, header + more);
    assert header <= d && d[..|header|] == header;
    HeaderEndIsShortest(d, header);
  }

  // ---------------------------------------------------------------- ownership

  /** The socket and TLS handle that the variables `sock` and `ssl` name: a negative descriptor
      and a null pointer name nothing. */
  function Named(sock: int, ssl: Option<nat>): set<Handle> {
    if sock < 0 then {} else {Socket(sock)} + (if ssl.Some? then {Tls(ssl.value, sock)} else {})
  }

  /** Beside the handles in `base`, which belong to others, exactly those named by the two
      variables are open. */
  ghost predicate Owns(l: Ledger, base: set<Handle>, sock: int, ssl: Option<nat>)
    reads l
  {
    && l.Good() && l.live == base + Named(sock, ssl) && base !! Named(sock, ssl)
    && (sock < 0 ==> ssl.None?)
    && (sock >= 0 ==> forall t | t in base && t.Tls? :: t.fd != sock)
  }

  /** Releases the TLS handle, if there is one, and then the socket, and forgets both. */
  method CleanUp(l: Ledger, ghost base: set<Handle>, isHttps: bool, sock: int, ssl: Option<nat>)
      returns (sock': int, ssl': Option<nat>)
    requires Owns(l, base, sock, ssl) && (ssl.Some? ==> isHttps)
    modifies l`trace, l`live
    ensures Owns(l, base, sock', ssl') && sock' < 0 && l.live == base && old(l.trace) <= l.trace
  {
    sock', ssl' := sock, ssl;
    if isHttps && ssl'.Some? {
      l.Use(Tls(ssl'.value, sock));
      l.Release(Tls(ssl'.value, sock));
      ssl' := None;
    }
    if sock' >= 0 {
      l.Release(Socket(sock'));
      sock' := -1;
    }
  }

  // ---------------------------------------------------------------- tunnels

  /** Opens a socket to the proxy and asks it for the target. Every failure closes the socket. */
  method SockTunnel(l: Ledger, ghost base: set<Handle>) returns (sock: int)
    requires Owns(l, base, -1, None)
    modifies l`trace, l`live, l`tunnels, l`failures
    ensures Owns(l, base, sock, None) && old(l.trace) <= l.trace && l.tunnels == old(l.tunnels) + 1
    ensures l.failures == old(l.failures) + if sock < 0 then 1 else 0
  {
    l.tunnels := l.tunnels + 1;
    sock := l.OpenSocket();
    if sock < 0 {
      l.failures := l.failures + 1;
      return -1;
    }
    var addressParses: bool := *;
    if !addressParses {
      sock := CloseFailed(l, base, sock);
      return;
    }
    var connects: bool := *;
    if !connects {
      sock := CloseFailed(l, base, sock);
      return;
    }
    l.Use(Socket(sock));
    var greeted: bool := *;
    if greeted {
      l.Use(Socket(sock));
      var granted: bool := *;
      if !granted {
        sock := CloseFailed(l, base, sock);
      }
    } else {
      sock := CloseFailed(l, base, sock);
    }
  }

  /** Gives up on a tunnel: its socket is closed and the failure reported. */
  method CloseFailed(l: Ledger, ghost base: set<Handle>, sock: nat) returns (closed: int)
    requires Owns(l, base, sock, None)
    modifies l`trace, l`live, l`failures
    ensures Owns(l, base, closed, None) && closed == -1 && old(l.trace) <= l.trace
    ensures l.failures == old(l.failures) + 1
  {
    l.Release(Socket(sock));
    l.failures := l.failures + 1;
    closed := -1;
  }

  /** Asks the control port for new circuits over a socket of its own, closed on every exit. The
      code is 0 exactly when both commands were sent: opened, used twice and released. */
  method TorRotation(l: Ledger, ghost base: set<Handle>) returns (code: int)
    requires Owns(l, base, -1, None)
    modifies l`trace, l`live, l`rotations
    ensures Owns(l, base, -1, None) && old(l.trace) <= l.trace && l.rotations == old(l.rotations) + 1
    ensures code == 0 || code == -1
    ensures code == 0 <==> |l.trace| == |old(l.trace)| + 4
  {
    l.rotations := l.rotations + 1;
    var control := l.OpenSocket();
    if control < 0 {
      return -1;
    }
    var connects: bool := *;
    if !connects {
      l.Release(Socket(control));
      return -1;
    }
    l.Use(Socket(control));
    var authenticated: bool := *;
    if !authenticated {
      l.Release(Socket(control));
      return -1;
    }
    l.Use(Socket(control));
    l.Release(Socket(control));
    return 0;
  }

  /** A TLS handle on the tunnel and its handshake. A failed handshake frees the handle and
      closes the socket. */
  method SecureTunnel(l: Ledger, ghost base: set<Handle>, sock: nat) returns (ssl: Option<nat>)
    requires Owns(l, base, sock, None)
    modifies l`trace, l`live, l`nextTls, l`failures
    ensures old(l.trace) <= l.trace && l.failures == old(l.failures) + if ssl.Some? then 0 else 1
    ensures if ssl.Some? then Owns(l, base, sock, ssl) else Owns(l, base, -1, None)
  {
    var id := l.OpenTls(sock);
    l.Use(Tls(id, sock));
    var connected: bool := *;
    if !connected {
      l.Release(Tls(id, sock));
      l.Release(Socket(sock));
      l.failures := l.failures + 1;
      return None;
    }
    return Some(id);
  }

  // ---------------------------------------------------------------- one request

  /** Neither cancelled nor hit by a failure since `failures` were counted. */
  ghost predicate Undisturbed(l: Ledger, flag: CancelFlag, failures: nat)
    reads l, flag
  {
    !flag.raised && l.failures == failures
  }

  /** `SSL_write` or `send`. A write on a null handle or a negative descriptor fails. */
  method Write(l: Ledger, ghost base: set<Handle>, isHttps: bool, sock: int, ssl: Option<nat>) returns (written: bool)
    requires Owns(l, base, sock, ssl)
    modifies l`trace, l`live, l`failures
    ensures Owns(l, base, sock, ssl) && old(l.trace) <= l.trace
    ensures written ==> sock >= 0 && (isHttps ==> ssl.Some?)
    ensures l.failures == old(l.failures) + if written then 0 else 1
  {
    if sock < 0 || (isHttps && ssl.None?) {
      l.failures := l.failures + 1;
      return false;
    }
    l.Use(if isHttps then Tls(ssl.value, sock) else Socket(sock));
    written := *;
    if !written {
      l.failures := l.failures + 1;
    }
  }

  /** The receive loop: reads until the blank line, the end of the stream or a full buffer. In
      every run that is not cancelled the stored headers depend on the stream alone, whatever
      the read sizes and however often TLS asks to repeat a read. */
  method ReceiveHeaders(
      l: Ledger, ghost base: set<Handle>, c: Connection<char>, flag: CancelFlag, isHttps: bool, sock: int,
      ssl: Option<nat>)
      returns (cancelled: bool, headers: string)
    requires Owns(l, base, sock, ssl) && sock >= 0 && (isHttps ==> ssl.Some?)
    modifies l`trace, l`live, c, flag
    ensures Owns(l, base, sock, ssl) && old(l.trace) <= l.trace
    ensures cancelled ==> flag.raised
    ensures !cancelled ==> flag.raised == old(flag.raised)
    ensures !cancelled ==> headers == HeadersOf(old(c.pending))
  {
    ghost var stream := c.pending;
    var buffer := new char[BUFFER](_ => NUL);
    var total := 0;
    headers := "";
    while total < BUFFER - 1
      invariant Owns(l, base, sock, ssl) && old(l.trace) <= l.trace
      invariant Holds(buffer, total, stream, c) && fresh(buffer)
      invariant HeaderEnd(stream[..total]).None?
      invariant flag.raised == old(flag.raised)
      decreases c.retries, |stream| - total
    {
      var cancel := flag.Poll();
      if cancel {
        return true, "";
      }
      l.Use(if isHttps then Tls(ssl.value, sock) else Socket(sock));
      var again, now := ReceiveInto(c, buffer, total, isHttps, stream);
      if now == total {
        if again {
          continue;
        }
        break;
      }
      total := now;
      var end := SearchBuffer(buffer, total);
      if end.Some? {
        BlockIsFinal(stream, total);
        headers := buffer[..total][..end.value];
        return false, headers;
      }
    }
    NoBlock(stream, total);
    cancelled := false;
  }

  lemma BlockIsFinal(stream: string, total: nat)
    requires total <= |stream| && total <= BUFFER - 1 && HeaderEnd(stream[..total]).Some?
    ensures HeadersOf(stream) == stream[..total][..HeaderEnd(stream[..total]).value]
  {
    var d := First(BUFFER - 1, stream);
    assert d[..total] == stream[..total];
    HeaderEndIsFinal(d, total);
    var h := HeaderEnd(d).value;
    assert d[..h] == d[..total][..h];
  }

  lemma NoBlock(stream: string, total: nat)
    requires total == |stream| || total == BUFFER - 1
    requires total <= |stream| && total <= BUFFER - 1 && HeaderEnd(stream[..total]).None?
    ensures HeadersOf(stream) == ""
  {
    assert First(BUFFER - 1, stream) == stream[..total];
  }

  /** The request is written, unless the run is cancelled before or during that. */
  method SendRequest(
      l: Ledger, ghost base: set<Handle>, flag: CancelFlag, isHttps: bool, sock: int, ssl: Option<nat>)
      returns (sent: bool)
    requires Owns(l, base, sock, ssl)
    modifies l`trace, l`live, l`failures, flag
    ensures Owns(l, base, sock, ssl) && old(l.trace) <= l.trace && l.failures >= old(l.failures)
    ensures sent ==> sock >= 0 && (isHttps ==> ssl.Some?) && l.failures == old(l.failures) && !flag.raised
    ensures !sent ==> flag.raised || l.failures > old(l.failures)
    ensures old(flag.raised) ==> flag.raised
  {
    var cancel := flag.Poll();
    if cancel {
      return false;
    }
    cancel := flag.Poll();
    if cancel {
      return false;
    }
    var written := Write(l, base, isHttps, sock, ssl);
    if !written {
      return false;
    }
    cancel := flag.Poll();
    sent := !cancel;
  }

  /** One request over the tunnel. Cancellation and a failed write release the handles; on any
      other run they stay with the caller, and the headers are those of the stream. */
  method InterfaceScan(
      l: Ledger, ghost base: set<Handle>, c: Connection<char>, flag: CancelFlag, isHttps: bool, rawHeaders: string,
      path: string, domain: string, sock: int, ssl: Option<nat>)
      returns (sock': int, ssl': Option<nat>, headers: string, request: string)
    requires Owns(l, base, sock, ssl) && (ssl.Some? ==> isHttps)
    modifies l`trace, l`live, l`failures, c, flag
    ensures old(l.trace) <= l.trace && (ssl'.Some? ==> isHttps)
    ensures Owns(l, base, sock', ssl') && l.failures >= old(l.failures)
    ensures Undisturbed(l, flag, old(l.failures)) ==>
              sock' >= 0 && (sock', ssl') == (sock, ssl) && headers == HeadersOf(old(c.pending))
    ensures !Undisturbed(l, flag, old(l.failures)) ==> sock' < 0 && ssl' == None && headers == ""
    ensures old(flag.raised) ==> flag.raised
    ensures request == Request(path, domain, Sanitised(rawHeaders))
    ensures SingleLine(path) && SingleLine(domain) ==>
              LinesOf(request) == ["GET " + path + " HTTP/1.1" + "\r", "Host: " + domain + "\r"]
                                  + WithReturn(CleanLines(Unescape(rawHeaders))) + ["\r"]
  {
    if SingleLine(path) && SingleLine(domain) {
      RequestLines(path, domain, rawHeaders);
    }
    var sanitised := SanitiseHeaders(rawHeaders);
    request := Request(path, domain, sanitised);
    headers := "";
    var sent := SendRequest(l, base, flag, isHttps, sock, ssl);
    if !sent {
      sock', ssl' := CleanUp(l, base, isHttps, sock, ssl);
      return;
    }
    sock', ssl' := sock, ssl;
    var cancelled, block := ReceiveHeaders(l, base, c, flag, isHttps, sock, ssl);
    if cancelled {
      sock', ssl' := CleanUp(l, base, isHttps, sock, ssl);
      return;
    }
    headers := block;
  }

  // ---------------------------------------------------------------- the scan

  datatype Output = Output(headers: string, status: int, reason: string)

  predicate Accepted(status: int) {
    200 <= status && (status < 400 || status == 404)
  }

  /** Headers with a status below 200, or from 400 on and not 404. */
  ghost predicate Refused(headers: string) {
    exists code :: IsStatus(headers, code) && (code < 200 || (code >= 400 && code != 404))
  }

  /** The reason phrase field: the headers up to the first line end, at most 127 characters. */
  function FirstLine(headers: string): (line: string)
    ensures line <= headers && '\r' !in line && '\n' !in line
    ensures |line| < |headers| ==> headers[|line|] == '\r' || headers[|line|] == '\n'
  {
    if headers == [] || headers[0] == '\r' || headers[0] == '\n' then [] else [headers[0]] + FirstLine(headers[1..])
  }

  const NOTHING := Output("", 0, "")

  /** How an attempt ends: without an answer and with nothing left open, with headers for which the
      source defines no status, or with headers and their status. */
  datatype Attempt = GivenUp | NoStatus | Answered(status: int)

  /** What `end` says of the headers. */
  ghost predicate Judged(end: Attempt, headers: string) {
    match end
    case GivenUp => true
    case NoStatus => LacksStatus(headers)
    case Answered(status) => IsStatus(headers, status)
  }

  lemma RefusedStatus(end: Attempt, headers: string)
    requires Judged(end, headers) && !end.GivenUp?
    ensures Refused(headers) <==> end.Answered? && !Accepted(end.status)
  {
    forall code | IsStatus(headers, code)
      ensures end.Answered? && code == end.status
    {
      StatusIsUnique(headers, code, if end.Answered? then end.status else code);
    }
  }

  method Judge(headers: string) returns (end: Attempt)
    ensures !end.GivenUp? && Judged(end, headers)
  {
    var status := ExtractStatus(headers);
    end := if status.Code? then Answered(status.value) else NoStatus;
  }

  /** The second tunnel. A failed handshake ends the run; a failed tunnel does not: the request
      is tried all the same, and its write fails. */
  method Reopen(l: Ledger, ghost base: set<Handle>, isHttps: bool) returns (ready: bool, sock: int, ssl: Option<nat>)
    requires Owns(l, base, -1, None)
    modifies l`trace, l`live, l`nextTls, l`tunnels, l`failures
    ensures old(l.trace) <= l.trace && Owns(l, base, sock, ssl) && (ssl.Some? ==> isHttps)
    ensures l.tunnels == old(l.tunnels) + 1 && l.failures >= old(l.failures)
    ensures sock < 0 <==> l.failures > old(l.failures)
    ensures !ready ==> sock < 0
  {
    ready, ssl := true, None;
    sock := SockTunnel(l, base);
    if sock >= 0 && isHttps {
      ssl := SecureTunnel(l, base, sock);
      if ssl.None? {
        return false, -1, None;
      }
    }
  }

  /** The part of the run that follows a status the scan does not accept: release everything,
      rotate the circuit once, and try once more over a new tunnel. */
  method Retry(
      l: Ledger, ghost base: set<Handle>, c: Connection<char>, flag: CancelFlag, isHttps: bool, rawHeaders: string,
      path: string, domain: string, sock0: int, ssl0: Option<nat>)
      returns (end: Attempt, sock: int, ssl: Option<nat>, headers: string)
    requires Owns(l, base, sock0, ssl0) && (ssl0.Some? ==> isHttps)
    modifies l, c, flag
    ensures old(l.trace) <= l.trace && (ssl.Some? ==> isHttps)
    ensures Owns(l, base, sock, ssl) && (end.GivenUp? ==> sock < 0)
    ensures l.rotations == old(l.rotations) + 1 && l.tunnels <= old(l.tunnels) + 1
    ensures l.failures >= old(l.failures) && (old(flag.raised) ==> flag.raised)
    ensures Judged(end, headers) && (headers == "" || headers == HeadersOf(old(c.pending)))
    ensures Undisturbed(l, flag, old(l.failures)) ==> !end.GivenUp? && headers == HeadersOf(old(c.pending))
  {
    sock, ssl := CleanUp(l, base, isHttps, sock0, ssl0);
    headers, end := "", GivenUp;
    var _ := TorRotation(l, base);
    var cancel := flag.Poll();
    if cancel {
      return;
    }
    var ready;
    ready, sock, ssl := Reopen(l, base, isHttps);
    if !ready {
      return;
    }
    var request;
    sock, ssl, headers, request := InterfaceScan(l, base, c, flag, isHttps, rawHeaders, path, domain, sock, ssl);
    end := Judge(headers);
  }

  /** A tunnel with its TLS handshake; nothing is open when either fails or the run is cancelled
      behind them. */
  method OpenTunnel(l: Ledger, ghost base: set<Handle>, flag: CancelFlag, isHttps: bool)
      returns (sock: int, ssl: Option<nat>)
    requires Owns(l, base, -1, None)
    modifies l`trace, l`live, l`nextTls, l`tunnels, l`failures, flag
    ensures old(l.trace) <= l.trace && Owns(l, base, sock, ssl) && (ssl.Some? ==> isHttps)
    ensures l.tunnels == old(l.tunnels) + 1 && l.failures >= old(l.failures) && (old(flag.raised) ==> flag.raised)
    ensures sock < 0 ==> !Undisturbed(l, flag, old(l.failures))
  {
    ssl := None;
    sock := SockTunnel(l, base);
    if sock < 0 {
      return;
    }
    if isHttps {
      ssl := SecureTunnel(l, base, sock);
      if ssl.None? {
        return -1, None;
      }
    }
    var cancel := flag.Poll();
    if cancel {
      if isHttps && ssl.Some? {
        l.Release(Tls(ssl.value, sock));
      }
      l.Release(Socket(sock));
      return -1, None;
    }
  }

  /** The run up to the first status: a tunnel and one request over it. */
  method FirstAttempt(
      l: Ledger, ghost base: set<Handle>, c: Connection<char>, flag: CancelFlag, isHttps: bool, rawHeaders: string,
      path: string, domain: string)
      returns (end: Attempt, sock: int, ssl: Option<nat>, headers: string)
    requires Owns(l, base, -1, None)
    modifies l`trace, l`live, l`nextTls, l`tunnels, l`failures, c, flag
    ensures old(l.trace) <= l.trace && (ssl.Some? ==> isHttps)
    ensures Owns(l, base, sock, ssl) && (end.GivenUp? ==> sock < 0)
    ensures l.tunnels <= old(l.tunnels) + 1
    ensures l.failures >= old(l.failures) && (old(flag.raised) ==> flag.raised)
    ensures Judged(end, headers) && (headers == "" || headers == HeadersOf(old(c.pending)))
    ensures Undisturbed(l, flag, old(l.failures)) ==> !end.GivenUp? && headers == HeadersOf(old(c.pending))
  {
    end, sock, ssl, headers := GivenUp, -1, None, "";
    var cancel := flag.Poll();
    if cancel {
      return;
    }
    sock, ssl := OpenTunnel(l, base, flag, isHttps);
    if sock < 0 {
      return;
    }
    var request;
    sock, ssl, headers, request := InterfaceScan(l, base, c, flag, isHttps, rawHeaders, path, domain, sock, ssl);
    end := Judge(headers);
  }

  /** What a completed run reports: the reason phrase belongs to the headers, the status to them
      as well, and without a rotation the status is accepted and the headers are those of the
      first stream; after a rotation they are those of the second stream, or none. */
  ghost predicate Reported(output: Output, rotated: bool, first: string, second: string) {
    && output.reason == First(127, FirstLine(output.headers))
    && IsStatus(output.headers, output.status)
    && (if rotated then output.headers == "" || output.headers == HeadersOf(second)
        else Accepted(output.status) && output.headers == HeadersOf(first))
  }

  /** Each header block that a run examines has a status: those of the first stream and, after a
      rotation, those of the second. */
  predicate Examinable(rotated: bool, first: string, second: string) {
    !LacksStatus(HeadersOf(first)) && (rotated ==> !LacksStatus(HeadersOf(second)))
  }

  /** How a run ends: completed, given up, or in headers for which the source defines no status. */
  datatype Ending = Completed | Stopped | Undetermined

  /** How an undisturbed run ends: it rotates exactly when the first stream's status is refused, and
      completes exactly when each header block that it examines has a status, with the headers of
      the second stream if it rotated and of the first one if not. */
  ghost predicate Determined(ending: Ending, output: Output, rotated: bool, first: string, second: string) {
    && (rotated <==> Refused(HeadersOf(first)))
    && (ending.Completed? <==> Examinable(rotated, first, second))
    && (ending.Completed? ==> output.headers == HeadersOf(if rotated then second else first))
  }

  lemma EndIsDetermined(
      end: Attempt, headers: string, ending: Ending, output: Output, rotated: bool, first: string, second: string)
    requires !end.GivenUp? && Judged(end, headers) && headers == HeadersOf(if rotated then second else first)
    requires rotated <==> Refused(HeadersOf(first))
    requires if end.Answered? then ending.Completed? && output.headers == headers else ending.Undetermined?
    ensures Determined(ending, output, rotated, first, second)
  {
    if rotated {
      RefusedHaveStatus(HeadersOf(first));
    }
    if end.Answered? {
      HasStatus(headers, end.status);
    }
  }

  lemma RefusedHaveStatus(headers: string)
    requires Refused(headers)
    ensures !LacksStatus(headers)
  {
    var code :| IsStatus(headers, code);
    HasStatus(headers, code);
  }

  /** The end of a run that has examined its headers: everything is released, and the headers are
      reported. Headers without a status lead no further. */
  method Conclude(
      l: Ledger, ghost base: set<Handle>, isHttps: bool, sock: int, ssl: Option<nat>, end: Attempt, headers: string)
      returns (ending: Ending, output: Output)
    requires Owns(l, base, sock, ssl) && (ssl.Some? ==> isHttps) && !end.GivenUp? && Judged(end, headers)
    modifies l`trace, l`live
    ensures l.Good() && base <= l.live && old(l.trace) <= l.trace
    ensures if end.NoStatus? then ending == Undetermined && output == NOTHING && LacksStatus(headers)
            else ending == Completed && output == Output(headers, end.status, First(127, FirstLine(headers)))
                 && l.live == base && !LacksStatus(headers)
  {
    if end.NoStatus? {
      return Undetermined, NOTHING;
    }
    HasStatus(headers, end.status);
    var _, _ := CleanUp(l, base, isHttps, sock, ssl);
    return Completed, Output(headers, end.status, First(127, FirstLine(headers)));
  }

  /** Over every run: the trace stays disciplined; when the scan returns, its handles are all
      released and those of others are untouched; at most two tunnels are asked for and at most
      one rotation is made. A run whose headers lack a status does not return. A run that is
      neither cancelled nor hit by a failure completes if and only if each header block that it
      examines has a status, and its headers are then determined by the two streams. */
  method TorScan(
      l: Ledger, first: Connection<char>, second: Connection<char>, flag: CancelFlag, isHttps: bool,
      rawHeaders: string, path: string, domain: string)
      returns (ending: Ending, output: Output)
    requires l.Good() && first != second
    modifies l, first, second, flag
    ensures l.Good() && old(l.live) <= l.live && old(l.trace) <= l.trace
    ensures !ending.Undetermined? ==> l.live == old(l.live)
    ensures l.tunnels <= old(l.tunnels) + 2
    ensures old(l.rotations) <= l.rotations <= old(l.rotations) + 1
    ensures l.tunnels == old(l.tunnels) + 2 ==> l.rotations == old(l.rotations) + 1
    ensures !ending.Completed? ==> output == NOTHING
    ensures ending.Completed? ==>
              Reported(output, l.rotations > old(l.rotations), old(first.pending), old(second.pending))
    ensures ending.Undetermined? ==>
              !Examinable(l.rotations > old(l.rotations), old(first.pending), old(second.pending))
    ensures Undisturbed(l, flag, old(l.failures)) ==>
              Determined(ending, output, l.rotations > old(l.rotations), old(first.pending), old(second.pending))
  {
    ghost var base := l.live;
    ending, output := Stopped, NOTHING;
    var end, sock, ssl, headers := FirstAttempt(l, base, first, flag, isHttps, rawHeaders, path, domain);
    if end.GivenUp? {
      return;
    }
    RefusedStatus(end, headers);
    ghost var rotated := end.Answered? && !Accepted(end.status);
    if end.Answered? && !Accepted(end.status) {
      end, sock, ssl, headers := Retry(l, base, second, flag, isHttps, rawHeaders, path, domain, sock, ssl);
      if end.GivenUp? {
        return;
      }
    }
    assert rotated <==> l.rotations > old(l.rotations);
    ending, output := Conclude(l, base, isHttps, sock, ssl, end, headers);
    if Undisturbed(l, flag, old(l.failures)) {
      EndIsDetermined(end, headers, ending, output, rotated, old(first.pending), old(second.pending));
    }
  }

  lemma HasStatus(headers: string, status: int)
    requires IsStatus(headers, status)
    ensures !LacksStatus(headers)
  {
    StatusIsUnique(headers, status, status);
  }

  /** A scan that starts with nothing open: when it returns, every handle was released exactly as
      often as it was opened. */
  method ScanAlone(first: Connection<char>, second: Connection<char>, flag: CancelFlag, isHttps: bool,
                   rawHeaders: string, path: string, domain: string)
      returns (ghost trace: seq<Event>, ending: Ending, output: Output)
    requires first != second
    modifies first, second, flag
    ensures Disciplined(trace)
    ensures !ending.Undetermined? ==>
              Live(trace) == {} && forall h :: Times(trace, Opened(h)) == Times(trace, Released(h))
  {
    var l := new Ledger();
    ending, output := TorScan(l, first, second, flag, isHttps, rawHeaders, path, domain);
    trace := l.trace;
    if !ending.Undetermined? {
      forall h
        ensures Times(trace, Opened(h)) == Times(trace, Released(h))
      {
        ReleasedExactlyOnce(trace, h);
      }
    }
  }

  /** Headers without a status line: no run returns that examines them. */
  lemma BlankReply()
    ensures HeadersOf("x\r\n\r\n") == "x\r\n\r\n" && !Examinable(false, "x\r\n\r\n", "")
  {
    var h := "x\r\n\r\n";
    assert h[1..5] == DIVIDER && h + "" == h;
    assert !MatchAt(h, DIVIDER, 0) by {
      assert h[0..4][0] == 'x' != DIVIDER[0];
    }
    HeadersOfBlock(h, "");
    CLengthIs(h, 5);
    assert CString(h) == h;
    assert !MatchAt(h, HTTP, 0) by {
      assert h[0..5][0] == 'x' != HTTP[0];
    }
  }
}
