/** One read of a receive loop into its NUL-terminated buffer, and the search for the end of the
    headers in it. */
module Receiving {
  import opened Wrappers
  import opened Network
  import opened TextSearch

  /** The flag that the caller may raise at any moment, and never lowers. */
  class CancelFlag {
    var raised: bool

    constructor ()
      ensures !raised
    {
      raised := false;
    }

    method Poll() returns (cancel: bool)
      modifies this
      ensures cancel == raised && (old(raised) ==> raised)
    {
      var now: bool := *;
      raised := raised || now;
      cancel := raised;
    }
  }

  /** The buffer holds the first `total` bytes of the stream, and the rest is still to come. */
  ghost predicate Holds(buffer: array<char>, total: nat, stream: string, c: Connection<char>)
    reads buffer, c
  {
    && total < buffer.Length && total <= |stream|
    && buffer[..total] == stream[..total] && c.pending == stream[total..]
  }

  /** One `recv`, or one `SSL_read`, which may ask to be repeated. */
  method ReceiveInto(c: Connection<char>, buffer: array<char>, total: nat, tls: bool, ghost stream: string)
      returns (again: bool, now: nat)
    requires total + 1 < buffer.Length && Holds(buffer, total, stream, c)
    modifies c, buffer
    ensures Holds(buffer, now, stream, c) && total <= now
    ensures now > total ==> buffer[now] == NUL
    ensures again ==> tls && now == total && c.retries < old(c.retries)
    ensures !again ==> c.retries == old(c.retries) && (now == total ==> now == |stream|)
    ensures c.first == if old(c.first) == 0 then now - total else old(c.first)
  {
    var chunk;
    if tls {
      again, chunk := c.SslRead(buffer.Length - total - 1);
    } else {
      again := false;
      chunk := c.Recv(buffer.Length - total - 1);
    }
    now := total;
    if chunk != [] {
      TakePiece(stream, total, chunk, c.pending);
      PrefixGrows(stream, total, chunk);
      Store(buffer, total, chunk);
      now := total + |chunk|;
      ghost var received := buffer[..now];
      buffer[now] := NUL;
      assert buffer[..now] == received;
    }
  }

  /** The search for the end of the headers, over the buffer as a C string. */
  method SearchBuffer(buffer: array<char>, total: nat) returns (end: Option<nat>)
    requires total < buffer.Length && buffer[total] == NUL
    ensures end == HeaderEnd(buffer[..total])
  {
    TerminatedSearch(buffer[..], total);
    assert buffer[..][..total] == buffer[..total];
    end := HeaderEnd(buffer[..]);
  }

  /** A blank line that has been found stays where it is while more is received. */
  lemma Grows(stream: string, m: nat, n: nat)
    requires m <= n <= |stream| && HeaderEnd(stream[..m]).Some?
    ensures HeaderEnd(stream[..n]) == HeaderEnd(stream[..m])
  {
    assert stream[..n][..m] == stream[..m];
    HeaderEndIsFinal(stream[..n], m);
  }
}
