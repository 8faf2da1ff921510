/** The sockets and TLS handles of a scan: a trace of what happens to them, the discipline that a
    trace should keep, and the operations that extend it. */
module Handles {
  datatype Handle = Socket(fd: nat) | Tls(id: nat, fd: nat)

  datatype Event = Opened(h: Handle) | Released(h: Handle) | Used(h: Handle)

  // ---------------------------------------------------------------- traces

  function Step(live: set<Handle>, e: Event): set<Handle> {
    match e
    case Opened(h) => live + {h}
    case Released(h) => live - {h}
    case Used(_) => live
  }

  /** The handles that are open after the trace. A descriptor may be reused once it is closed. */
  function Live(trace: seq<Event>): set<Handle> {
    if trace == [] then {} else Step(Live(trace[..|trace| - 1]), trace[|trace| - 1])
  }

  /** A handle is opened only while it is not open and released or used only while it is; a TLS
      handle is opened and used only over an open socket, and released before that socket. */
  predicate Allowed(live: set<Handle>, e: Event) {
    match e
    case Opened(h) => h !in live && (h.Tls? ==> Socket(h.fd) in live)
    case Released(h) => h in live && (h.Socket? ==> forall t | t in live && t.Tls? :: t.fd != h.fd)
    case Used(h) => h in live && (h.Tls? ==> Socket(h.fd) in live)
  }

  predicate Disciplined(trace: seq<Event>) {
    trace == []
    || (Disciplined(trace[..|trace| - 1]) && Allowed(Live(trace[..|trace| - 1]), trace[|trace| - 1]))
  }

  function Times(trace: seq<Event>, e: Event): nat {
    if trace == [] then 0
    else Times(trace[..|trace| - 1], e) + (if trace[|trace| - 1] == e then 1 else 0)
  }

  /** In a disciplined trace a handle has been opened once more than released while it is open,
      and as often otherwise. */
  lemma {:induction false} OpenedAndReleased(trace: seq<Event>, h: Handle)
    requires Disciplined(trace)
    ensures Times(trace, Opened(h)) == Times(trace, Released(h)) + (if h in Live(trace) then 1 else 0)
  {
    if trace != [] {
      OpenedAndReleased(trace[..|trace| - 1], h);
    }
  }

  /** A trace that ends with nothing open has released every handle exactly as often as it opened
      it: no leak and no double release. */
  lemma ReleasedExactlyOnce(trace: seq<Event>, h: Handle)
    requires Disciplined(trace) && Live(trace) == {}
    ensures Times(trace, Opened(h)) == Times(trace, Released(h))
  {
    OpenedAndReleased(trace, h);
  }

  lemma {:induction false} LiveSinceOpened(trace: seq<Event>, h: Handle) returns (i: nat)
    requires h in Live(trace)
    ensures i < |trace| && trace[i] == Opened(h)
    ensures forall k | i < k < |trace| :: trace[k] != Released(h)
  {
    var n := |trace| - 1;
    if trace[n] == Opened(h) {
      return n;
    }
    i := LiveSinceOpened(trace[..n], h);
  }

  lemma {:induction false} DisciplinedPrefix(trace: seq<Event>, n: nat)
    requires Disciplined(trace) && n < |trace|
    ensures Disciplined(trace[..n]) && Allowed(Live(trace[..n]), trace[n])
  {
    if n < |trace| - 1 {
      DisciplinedPrefix(trace[..|trace| - 1], n);
      assert trace[..|trace| - 1][..n] == trace[..n];
    }
  }

  /** Every use of a handle comes after it was opened, with no release in between. */
  lemma NoUseAfterRelease(trace: seq<Event>, n: nat, h: Handle) returns (i: nat)
    requires Disciplined(trace) && n < |trace| && trace[n] == Used(h)
    ensures i < n && trace[i] == Opened(h)
    ensures forall k | i < k < n :: trace[k] != Released(h)
  {
    DisciplinedPrefix(trace, n);
    i := LiveSinceOpened(trace[..n], h);
    assert forall k | i < k < n :: trace[k] == trace[..n][k];
  }

  // ---------------------------------------------------------------- operations

  class Ledger {
    var trace: seq<Event>
    var live: set<Handle>
    var nextTls: nat
    /** How often a tunnel was asked for, and how often the circuit was rotated. */
    var tunnels: nat
    var rotations: nat
    /** How often the tunnel, the handshake or the write of a request has failed. */
    var failures: nat

    /** The trace is disciplined, and each open TLS handle stands on an open socket. */
    ghost predicate Good()
      reads this
    {
      && Disciplined(trace) && live == Live(trace)
      && forall h | h in live && h.Tls? :: h.id < nextTls && Socket(h.fd) in live
    }

    constructor ()
      ensures Good() && trace == [] && live == {} && tunnels == rotations == failures == 0
    {
      trace, live, nextTls, tunnels, rotations, failures := [], {}, 0, 0, 0, 0;
    }

    method Record(e: Event)
      requires Good() && Allowed(live, e) && (e.Opened? && e.h.Tls? ==> e.h.id < nextTls)
      modifies this`trace, this`live
      ensures Good() && trace == old(trace) + [e] && live == Step(old(live), e)
    {
      trace := trace + [e];
      live := Step(live, e);
      assert trace[..|trace| - 1] == old(trace);
    }

    /** `socket`: a descriptor that is not in use, or a failure. */
    method OpenSocket() returns (fd: int)
      requires Good()
      modifies this`trace, this`live
      ensures Good() && old(trace) <= trace
      ensures fd < 0 ==> live == old(live) && trace == old(trace)
      ensures fd >= 0 ==> Socket(fd) !in old(live) && live == old(live) + {Socket(fd)}
      ensures fd >= 0 ==> |trace| == |old(trace)| + 1
    {
      fd := *;
      if fd < 0 || Socket(fd) in live {
        return -1;
      }
      Record(Opened(Socket(fd)));
    }

    /** `SSL_new` and `SSL_set_fd`. */
    method OpenTls(fd: nat) returns (id: nat)
      requires Good() && Socket(fd) in live
      modifies this`trace, this`live, this`nextTls
      ensures Good() && old(trace) <= trace
      ensures Tls(id, fd) !in old(live) && live == old(live) + {Tls(id, fd)}
    {
      id := nextTls;
      nextTls := nextTls + 1;
      Record(Opened(Tls(id, fd)));
    }

    method Use(h: Handle)
      requires Good() && h in live
      modifies this`trace, this`live
      ensures Good() && old(trace) <= trace && live == old(live)
      ensures |trace| == |old(trace)| + 1
    {
      Record(Used(h));
    }

    method Release(h: Handle)
      requires Good() && h in live && (h.Socket? ==> forall t | t in live && t.Tls? :: t.fd != h.fd)
      modifies this`trace, this`live
      ensures Good() && old(trace) <= trace && live == old(live) - {h}
      ensures |trace| == |old(trace)| + 1
    {
      Record(Released(h));
    }
  }
}
