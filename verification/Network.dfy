/** What the receive loops see of the network: a byte stream that a peer delivers in pieces of
    any size. */
module Network {
  class Connection<T(0)> {
    /** Everything that is delivered before the first read that returns no data. */
    var pending: seq<T>
    /** How many TLS reads will still ask to be repeated. */
    var retries: nat
    /** The size of the first piece that was delivered, 0 before that. */
    var first: nat

    constructor (pending: seq<T>, retries: nat)
      ensures this.pending == pending && this.retries == retries && first == 0
    {
      this.pending, this.retries, first := pending, retries, 0;
    }

    /** `recv`: some non-empty piece of what is pending, at most `max` long; nothing once the
        stream has ended. */
    method Recv(max: nat) returns (chunk: seq<T>)
      requires max > 0
      modifies this
      ensures chunk + pending == old(pending) && retries == old(retries)
      ensures |chunk| <= max
      ensures old(pending) != [] ==> chunk != []
      ensures first == if old(first) == 0 then |chunk| else old(first)
    {
      var n: int := *;
      var most := if |pending| < max then |pending| else max;
      if n < 1 || n > most {
        n := most;
      }
      chunk := pending[..n];
      pending := pending[n..];
      first := if first == 0 then n else first;
    }

    /** `SSL_read`: like `Recv`, but any read may first ask to be repeated. */
    method SslRead(max: nat) returns (again: bool, chunk: seq<T>)
      requires max > 0
      modifies this
      ensures chunk + pending == old(pending) && |chunk| <= max
      ensures again ==> chunk == [] && retries < old(retries)
      ensures !again ==> retries == old(retries) && (old(pending) != [] ==> chunk != [])
      ensures first == if old(first) == 0 then |chunk| else old(first)
    {
      again, chunk := *, [];
      if again && retries > 0 {
        retries := retries - 1;
      } else {
        again := false;
        chunk := Recv(max);
      }
    }
  }

  /** Where a piece stands in the stream it was taken from, behind the first `at` elements. */
  lemma TakePiece<T>(stream: seq<T>, at: nat, piece: seq<T>, rest: seq<T>)
    requires at <= |stream| && stream[at..] == piece + rest
    ensures at + |piece| <= |stream| && stream[at..at + |piece|] == piece
    ensures rest == stream[at + |piece|..]
  {
    assert stream[at..][..|piece|] == piece && stream[at..][|piece|..] == rest;
  }

  lemma PrefixGrows<T>(stream: seq<T>, at: nat, piece: seq<T>)
    requires at + |piece| <= |stream| && stream[at..at + |piece|] == piece
    ensures stream[..at + |piece|] == stream[..at] + piece
  {}

  /** Copies a received piece into a buffer, from index `at` on. */
  method Store<T>(buffer: array<T>, at: nat, chunk: seq<T>)
    requires at + |chunk| <= buffer.Length
    modifies buffer
    ensures buffer[..at] == old(buffer[..at])
    ensures buffer[..at + |chunk|] == old(buffer[..at]) + chunk
    ensures forall i | at + |chunk| <= i < buffer.Length :: buffer[i] == old(buffer[i])
  {
    forall i | 0 <= i < |chunk| {
      buffer[at + i] := chunk[i];
    }
    assert buffer[..at] == old(buffer[..at]);
    assert buffer[..at + |chunk|] == buffer[..at] + chunk;
  }
}
