/** What the answer walk makes of a response that is cut off: announced short over TCP, ended
    early by the peer, or received as a part of a datagram. */
module DnsTruncation {
  import opened Wrappers
  import opened Sequences
  import opened DnsName
  import opened DnsMessage
  import opened DnsResolver

  /** Where the data of the first usable record stands, for records that start at `offset`. */
  function AddressAt(offset: nat, rs: seq<Record>): (at: Option<nat>)
    requires forall r | r in rs :: WellFormedRecord(r)
    ensures at.Some? ==> at.value >= offset + RECORD_HEADER
    decreases rs
  {
    if rs == [] then None
    else if Usable(rs[0]) then Some(offset + |NameBytes(rs[0].name)| + RECORD_HEADER)
    else AddressAt(offset + |RecordBytes(rs[0])|, rs[1..])
  }

  /** The offset behind header and question. */
  function AnswersAt(m: Message): nat
    requires WellFormedMessage(m)
  {
    HEADER + |NameBytes(m.qname)| + QUESTION_META
  }

  /** The answer when `received` octets have arrived and the address stands at `at`: none before
      its data is reached; behind that the four octets that the buffer holds there, received or
      not, as long as the buffer reaches so far. */
  function CutAnswer(buffer: seq<byte>, received: nat, at: Option<nat>): Answer {
    match at
    case None => NoAddress
    case Some(data) =>
      if received < data then NoAddress else OctetsAt(buffer, data)
  }

  // ---------------------------------------------------------------- skipping names that are cut

  /** The first octets of `buffer` are those of `whole`. */
  predicate Agrees(buffer: seq<byte>, whole: seq<byte>, received: nat) {
    received <= |buffer| && received <= |whole| && buffer[..received] == whole[..received]
  }

  /** Skipping looks at the received octets only. */
  lemma {:induction false} SkipAgrees(buffer: seq<byte>, whole: seq<byte>, offset: nat, received: nat)
    requires Agrees(buffer, whole, received)
    ensures SkipName(buffer, offset, received) == SkipName(whole, offset, received)
    decreases received - offset
  {
    if offset < received {
      assert buffer[offset] == buffer[..received][offset] == whole[offset];
      if 0 < whole[offset] < 0xC0 {
        SkipAgrees(buffer, whole, offset + whole[offset] + 1, received);
      }
    }
  }

  /** A name that is cut is skipped to the end of what was received, or beyond. */
  lemma {:induction false} SkipCutName(
      buffer: seq<byte>, offset: nat, received: nat, labels: seq<seq<byte>>, end: NameEnd)
    requires At(buffer, offset, LabelBytes(labels) + EndBytes(end)) && received <= |buffer|
    requires received < offset + |LabelBytes(labels) + EndBytes(end)|
    requires (forall l | l in labels :: WireLabel(l)) && (end.Pointer? ==> end.high >= 0xC0)
    ensures SkipName(buffer, offset, received) >= received
    decreases labels
  {
    if offset < received {
      if labels == [] {
        SkipsEnd(buffer, offset, received, end);
      } else {
        var l := labels[0];
        assert l in labels;
        SplitName(labels, end);
        SkipsOneLabel(buffer, offset, received, l, LabelBytes(labels[1..]) + EndBytes(end));
        SkipCutName(buffer, offset + 1 + |l|, received, labels[1..], end);
      }
    }
  }

  /** The loop stops without an address once its offset is not below the received octets. */
  lemma WalkBehindEnd(buffer: seq<byte>, received: nat, offset: nat, left: nat)
    requires received <= |buffer| && offset >= received
    ensures WalkAnswers(buffer, received, offset, left) == NoAddress
  {}

  // ---------------------------------------------------------------- answers that are cut

  lemma WordAgrees(buffer: seq<byte>, whole: seq<byte>, received: nat, i: nat)
    requires Agrees(buffer, whole, received) && i + 2 <= received
    ensures WordAt(buffer, i) == WordAt(whole, i)
  {
    assert buffer[i] == buffer[..received][i] == whole[i];
    assert buffer[i + 1] == buffer[..received][i + 1] == whole[i + 1];
  }

  /** The name and the header of `r` stand in `whole` at `offset`, whose name ends at `at`. */
  predicate HeadStands(whole: seq<byte>, offset: nat, r: Record, at: nat) {
    && WellFormedRecord(r) && at == offset + |NameBytes(r.name)|
    && At(whole, offset, NameBytes(r.name)) && At(whole, at, RecordHeader(r))
  }

  /** The walk at a record whose name and header have arrived. */
  lemma HeaderArrived(buffer: seq<byte>, whole: seq<byte>, received: nat, offset: nat, r: Record, at: nat)
    requires Agrees(buffer, whole, received) && HeadStands(whole, offset, r, at) && at + RECORD_HEADER <= received
    ensures at == SkipName(buffer, offset, received)
    ensures WordAt(buffer, at) == r.rtype && WordAt(buffer, at + 8) == |r.rdata|
  {
    SkipLandsBehindName(whole, offset, received, r.name.labels, r.name.end);
    SkipAgrees(buffer, whole, offset, received);
    RecordHeaderLayout(whole, at, r);
    WordAgrees(buffer, whole, received, at);
    WordAgrees(buffer, whole, received, at + 8);
  }

  /** The walk at a record whose name or header is cut. */
  lemma HeaderCut(buffer: seq<byte>, whole: seq<byte>, received: nat, offset: nat, r: Record, at: nat)
    requires Agrees(buffer, whole, received) && HeadStands(whole, offset, r, at) && received < at + RECORD_HEADER
    ensures SkipName(buffer, offset, received) + RECORD_HEADER > received
  {
    SkipAgrees(buffer, whole, offset, received);
    if received < at {
      SkipCutName(whole, offset, received, r.name.labels, r.name.end);
    } else {
      SkipLandsBehindName(whole, offset, received, r.name.labels, r.name.end);
    }
  }

  /** One turn of the loop at a record, arrived or not. */
  lemma CutTurn(buffer: seq<byte>, whole: seq<byte>, received: nat, offset: nat, r: Record, at: nat, left: nat)
    requires Agrees(buffer, whole, received) && HeadStands(whole, offset, r, at) && left > 0
    ensures WalkAnswers(buffer, received, offset, left) ==
            if Usable(r) then CutAnswer(buffer, received, Some(at + RECORD_HEADER))
            else WalkAnswers(buffer, received, at + RECORD_HEADER + |r.rdata|, left - 1)
  {
    if received < at + RECORD_HEADER {
      HeaderCut(buffer, whole, received, offset, r, at);
      TurnCut(buffer, received, offset, left);
      WalkBehindEnd(buffer, received, at + RECORD_HEADER + |r.rdata|, left - 1);
    } else {
      HeaderArrived(buffer, whole, received, offset, r, at);
      TurnArrived(buffer, received, offset, left, at);
    }
  }

  /** From offset `at` one turn of the loop either stops with what `stop` makes of the place where
      `r` has its data, or goes on at `next` with one record less. */
  ghost predicate TurnsCut(
      buffer: seq<byte>, received: nat, stop: Option<nat> -> Answer, at: nat, next: nat, r: Record)
    requires received <= |buffer| && WellFormedRecord(r)
  {
    && next == at + |RecordBytes(r)|
    && forall left: nat | left > 0 ::
         WalkAnswers(buffer, received, at, left) ==
         if Usable(r) then stop(Some(at + |NameBytes(r.name)| + RECORD_HEADER))
         else WalkAnswers(buffer, received, next, left - 1)
  }

  function StopAt(buffer: seq<byte>, received: nat): Option<nat> -> Answer {
    at => CutAnswer(buffer, received, at)
  }

  lemma CutRecordIsOneTurn(buffer: seq<byte>, whole: seq<byte>, received: nat, offset: nat, next: nat, r: Record)
    requires Agrees(buffer, whole, received) && WellFormedRecord(r) && At(whole, offset, RecordBytes(r))
    requires next == offset + |RecordBytes(r)|
    ensures TurnsCut(buffer, received, StopAt(buffer, received), offset, next, r)
  {
    RecordParts(whole, offset, r);
    var at := offset + |NameBytes(r.name)|;
    CutTurns(buffer, whole, received, offset, r, at);
    assert next == at + RECORD_HEADER + |r.rdata|;
  }

  lemma CutTurns(buffer: seq<byte>, whole: seq<byte>, received: nat, offset: nat, r: Record, at: nat)
    requires Agrees(buffer, whole, received) && HeadStands(whole, offset, r, at)
    ensures forall left: nat | left > 0 ::
              WalkAnswers(buffer, received, offset, left) ==
              if Usable(r) then CutAnswer(buffer, received, Some(at + RECORD_HEADER))
              else WalkAnswers(buffer, received, at + RECORD_HEADER + |r.rdata|, left - 1)
  {
    forall left: nat | left > 0
      ensures WalkAnswers(buffer, received, offset, left) ==
              if Usable(r) then CutAnswer(buffer, received, Some(at + RECORD_HEADER))
              else WalkAnswers(buffer, received, at + RECORD_HEADER + |r.rdata|, left - 1)
    {
      CutTurn(buffer, whole, received, offset, r, at, left);
    }
  }

  lemma CutTurnFollowsRecord(buffer: seq<byte>, whole: seq<byte>, received: nat, offset: nat, rs: seq<Record>, i: nat)
    requires Agrees(buffer, whole, received) && forall r | r in rs :: WellFormedRecord(r)
    requires At(whole, offset, RecordsBytes(rs)) && i < |rs|
    ensures var starts := Starts(offset, rs);
            TurnsCut(buffer, received, StopAt(buffer, received), starts[i], starts[i + 1], rs[i])
  {
    RecordStands(whole, offset, rs, i);
    CutRecordIsOneTurn(buffer, whole, received, Starts(offset, rs)[i], Starts(offset, rs)[i + 1], rs[i]);
  }

  lemma CutHead(stop: Option<nat> -> Answer, at: nat, next: nat, rs: seq<Record>, walk: Answer, later: Answer)
    requires rs != [] && (forall r | r in rs :: WellFormedRecord(r)) && next == at + |RecordBytes(rs[0])|
    requires later == stop(AddressAt(next, rs[1..]))
    requires walk == if Usable(rs[0]) then stop(Some(at + |NameBytes(rs[0].name)| + RECORD_HEADER)) else later
    ensures walk == stop(AddressAt(at, rs))
  {}

  /** A loop that takes such turns stops at the first usable record. */
  lemma {:induction false} CutTurnsAnswer(
      buffer: seq<byte>, received: nat, stop: Option<nat> -> Answer, starts: seq<nat>, rs: seq<Record>)
    requires received <= |buffer| && |starts| == |rs| + 1 && forall r | r in rs :: WellFormedRecord(r)
    requires forall i | 0 <= i < |rs| :: TurnsCut(buffer, received, stop, starts[i], starts[i + 1], rs[i])
    requires stop(None) == NoAddress
    ensures WalkAnswers(buffer, received, starts[0], |rs|) == stop(AddressAt(starts[0], rs))
    decreases rs
  {
    if rs != [] {
      assert TurnsCut(buffer, received, stop, starts[0], starts[1], rs[0]);
      forall i | 0 <= i < |rs| - 1
        ensures TurnsCut(buffer, received, stop, starts[1..][i], starts[1..][i + 1], rs[1..][i])
      {
        assert TurnsCut(buffer, received, stop, starts[i + 1], starts[i + 2], rs[i + 1]);
      }
      CutTurnsAnswer(buffer, received, stop, starts[1..], rs[1..]);
      CutHead(stop, starts[0], starts[1], rs, WalkAnswers(buffer, received, starts[0], |rs|),
              WalkAnswers(buffer, received, starts[1], |rs| - 1));
    }
  }

  /** Over encoded records of which the first `received` octets of the message have arrived. */
  lemma CutRecords(buffer: seq<byte>, whole: seq<byte>, received: nat, offset: nat, rs: seq<Record>)
    requires Agrees(buffer, whole, received) && forall r | r in rs :: WellFormedRecord(r)
    requires At(whole, offset, RecordsBytes(rs))
    ensures WalkAnswers(buffer, received, offset, |rs|) == CutAnswer(buffer, received, AddressAt(offset, rs))
  {
    var starts, stop := Starts(offset, rs), StopAt(buffer, received);
    forall i | 0 <= i < |rs|
      ensures TurnsCut(buffer, received, stop, starts[i], starts[i + 1], rs[i])
    {
      CutTurnFollowsRecord(buffer, whole, received, offset, rs, i);
    }
    CutTurnsAnswer(buffer, received, stop, starts, rs);
  }

  /** The question is skipped whole, or to the end of what was received, or beyond. */
  lemma CutQuestion(buffer: seq<byte>, received: nat, m: Message)
    requires WellFormedMessage(m) && Agrees(buffer, MessageBytes(m), received)
    ensures var offset := SkipName(buffer, HEADER, received) + QUESTION_META;
            if received < AnswersAt(m) then offset >= received else offset == AnswersAt(m)
  {
    var whole := MessageBytes(m);
    TakeAll(whole);
    var _ := MessageLayout(whole, m);
    SkipAgrees(buffer, whole, HEADER, received);
    if received < HEADER + |NameBytes(m.qname)| {
      SkipCutName(whole, HEADER, received, m.qname.labels, m.qname.end);
    } else {
      SkipLandsBehindName(whole, HEADER, received, m.qname.labels, m.qname.end);
    }
  }

  /** For every well-formed response and every number of its octets that have arrived, in a buffer
      of any size and content behind them. */
  lemma CutMessage(buffer: seq<byte>, received: nat, m: Message)
    requires WellFormedMessage(m) && |buffer| >= HEADER && Agrees(buffer, MessageBytes(m), received)
    ensures WalkMessage(buffer, received) == CutAnswer(buffer, received, AddressAt(AnswersAt(m), m.answers))
  {
    var whole := MessageBytes(m);
    var at := AnswersAt(m);
    CutQuestion(buffer, received, m);
    if received < at {
      WalkBehindEnd(buffer, received, SkipName(buffer, HEADER, received) + QUESTION_META, WordAt(buffer, 6));
    } else {
      TakeAll(whole);
      var _ := MessageLayout(whole, m);
      WordAgrees(buffer, whole, received, 6);
      CutRecords(buffer, whole, received, at, m.answers);
    }
  }

  // ---------------------------------------------------------------- what the octets found are

  /** In the whole message the address stands where `AddressAt` says. */
  lemma {:induction false} AddressStands(whole: seq<byte>, offset: nat, rs: seq<Record>)
    requires (forall r | r in rs :: WellFormedRecord(r)) && At(whole, offset, RecordsBytes(rs))
    ensures AddressAt(offset, rs).None? <==> FirstAddress(rs).None?
    ensures AddressAt(offset, rs).Some? ==>
              var at := AddressAt(offset, rs).value;
              at + 4 <= |whole| && FirstAddress(rs) == Some(whole[at..at + 4])
    decreases rs
  {
    if rs != [] {
      var r := rs[0];
      RecordsParts(whole, offset, rs);
      if Usable(r) {
        RecordParts(whole, offset, r);
      } else {
        AddressStands(whole, offset + |RecordBytes(r)|, rs[1..]);
      }
    }
  }

  /** The first usable record of `m` has its data at `at`. */
  predicate HasAddressAt(m: Message, at: nat) {
    WellFormedMessage(m) && AddressAt(AnswersAt(m), m.answers) == Some(at)
  }

  lemma AddressInMessage(m: Message, at: nat)
    requires HasAddressAt(m, at)
    ensures at + 4 <= |MessageBytes(m)| && AnswerOf(m.answers) == Address(MessageBytes(m)[at..at + 4])
  {
    var whole := MessageBytes(m);
    TakeAll(whole);
    var answers := MessageLayout(whole, m);
    AddressStands(whole, answers, m.answers);
  }

  /** A response without a usable record gives no address however it is cut. */
  lemma NothingFromNothing(buffer: seq<byte>, received: nat, m: Message)
    requires WellFormedMessage(m) && |buffer| >= HEADER && Agrees(buffer, MessageBytes(m), received)
    requires AnswerOf(m.answers) == NoAddress
    ensures WalkMessage(buffer, received) == NoAddress
  {
    TakeAll(MessageBytes(m));
    var answers := MessageLayout(MessageBytes(m), m);
    AddressStands(MessageBytes(m), answers, m.answers);
    CutMessage(buffer, received, m);
  }

  /** The buffer holds the first `n` octets of `whole` and `tail` behind them: what stands where
      the address belongs. */
  lemma CutOctets(whole: seq<byte>, n: nat, tail: seq<byte>, at: nat)
    requires at <= n <= |whole| && at + 4 <= |whole| && at + 4 <= n + |tail|
    ensures (whole[..n] + tail)[at..at + 4] ==
            if n >= at + 4 then whole[at..at + 4] else whole[at..n] + tail[..at + 4 - n]
  {}

  /** What the walk gives for the first `n` octets of a response with `tail` behind them. */
  lemma CutWithTail(m: Message, n: nat, tail: seq<byte>, at: nat)
    requires HasAddressAt(m, at) && n <= |MessageBytes(m)| && n + |tail| >= HEADER
    ensures WalkMessage(MessageBytes(m)[..n] + tail, n) ==
            if n < at then NoAddress
            else if n >= at + 4 then AnswerOf(m.answers)
            else if n + |tail| >= at + 4 then Address(MessageBytes(m)[at..n] + tail[..at + 4 - n])
            else OutsideBuffer
  {
    var whole := MessageBytes(m);
    var buffer := whole[..n] + tail;
    AddressInMessage(m, at);
    assert buffer[..n] == whole[..n];
    CutMessage(buffer, n, m);
    if n >= at && at + 4 <= n + |tail| {
      CutOctets(whole, n, tail, at);
    }
  }

  // ---------------------------------------------------------------- over TCP and UDP

  /** The first `n` octets of a response, announced as `n` and received whole over TCP: the first
      usable address exactly from the end of its record on, a read outside the buffer exactly
      within the last four octets of that record, and no address below. */
  lemma AnnouncedShort(m: Message, n: nat, more: seq<byte>, at: nat)
    requires HasAddressAt(m, at) && HEADER <= n <= |MessageBytes(m)| && n < 0x1_0000
    ensures var p := Payload(WordBytes(n) + (MessageBytes(m)[..n] + more));
            var answer := WalkMessage(p.0, p.1);
            && (answer == AnswerOf(m.answers) <==> n >= at + 4)
            && (answer == OutsideBuffer <==> at <= n < at + 4)
            && (answer == NoAddress <==> n < at)
  {
    var bytes := MessageBytes(m)[..n];
    WholePayload(bytes, more);
    assert bytes + [] == bytes;
    CutWithTail(m, n, [], at);
    AddressInMessage(m, at);
  }

  lemma FirstZeros(n: nat, k: nat)
    requires k <= n
    ensures Zeros(n)[..k] == Zeros(k)
  {}

  lemma ZerosBehindEnd(m: Message, size: nat, n: nat, at: nat)
    requires HasAddressAt(m, at) && HEADER <= size && n < size && n <= |MessageBytes(m)|
    ensures WalkMessage(MessageBytes(m)[..n] + Zeros(size - n), n) ==
            if n < at then NoAddress
            else if n >= at + 4 then AnswerOf(m.answers)
            else if size >= at + 4 then Address(MessageBytes(m)[at..n] + Zeros(at + 4 - n))
            else OutsideBuffer
  {
    CutWithTail(m, n, Zeros(size - n), at);
    if at <= n < at + 4 <= size {
      FirstZeros(size - n, at + 4 - n);
    }
  }

  /** A peer that announces `size` octets and stops after `n` of them: within the last four octets
      of the record the missing ones are read as zeros, if the announced size reaches so far. */
  lemma EndedEarly(m: Message, size: nat, n: nat, at: nat)
    requires HasAddressAt(m, at) && HEADER <= size < 0x1_0000 && n < size && n <= |MessageBytes(m)|
    ensures var p := Payload(WordBytes(size) + MessageBytes(m)[..n]);
            WalkMessage(p.0, p.1) ==
            if n < at then NoAddress
            else if n >= at + 4 then AnswerOf(m.answers)
            else if size >= at + 4 then Address(MessageBytes(m)[at..n] + Zeros(at + 4 - n))
            else OutsideBuffer
  {
    EndedPayload(MessageBytes(m)[..n], size);
    ZerosBehindEnd(m, size, n, at);
  }

  lemma PrefixReadsBack(size: nat, rest: seq<byte>)
    requires Word16(size)
    ensures WordAt(WordBytes(size) + rest, 0) == size
  {
    DropAppend(WordBytes(size), rest);
    assert At(WordBytes(size) + rest, 0, WordBytes(size));
    WordReadsBack(WordBytes(size) + rest, 0, size);
  }

  lemma PayloadOf(stream: seq<byte>, size: nat, received: nat)
    requires |stream| == received + 2 && received < size && WordAt(stream, 0) == size
    ensures Payload(stream) == (stream[2..2 + received] + Zeros(size - received), received)
  {}

  lemma EndedPayload(bytes: seq<byte>, size: nat)
    requires |bytes| < size < 0x1_0000
    ensures Payload(WordBytes(size) + bytes) == (bytes + Zeros(size - |bytes|), |bytes|)
  {
    PrefixReadsBack(size, bytes);
    PayloadOf(WordBytes(size) + bytes, size, |bytes|);
    DropAppend(WordBytes(size), bytes);
    assert (WordBytes(size) + bytes)[2..2 + |bytes|] == bytes;
  }

  /** A response of which a datagram holds the first `n` octets, in the buffer of the UDP resolver:
      within the last four octets of the record the missing ones are what the buffer held before. */
  lemma CutDatagram(buffer: seq<byte>, m: Message, n: nat, at: nat)
    requires HasAddressAt(m, at) && |buffer| == 65536 && n + 4 <= |buffer| && Agrees(buffer, MessageBytes(m), n)
    ensures WalkMessage(buffer, n) ==
            if n < at then NoAddress
            else if n >= at + 4 then AnswerOf(m.answers)
            else Address(MessageBytes(m)[at..n] + buffer[n..at + 4])
  {
    assert buffer == MessageBytes(m)[..n] + buffer[n..];
    CutWithTail(m, n, buffer[n..], at);
    if at <= n < at + 4 {
      assert buffer[n..][..at + 4 - n] == buffer[n..at + 4];
    }
  }

  /** A response of 28 octets to a question for the root, with one record of type A that ends
      right behind its header: the read leaves the buffer that exactly holds it. */
  lemma ReadOutsideBuffer()
    ensures var bytes: seq<byte> :=
              [0, 0, 0x81, 0x80, 0, 1, 0, 1, 0, 0, 0, 0] + [0, 0, 1, 0, 1] + [0, 0, 1, 0, 1, 0, 0, 0, 0, 0, 4];
            |bytes| == 28 && WalkMessage(bytes, 28) == OutsideBuffer
  {
    var bytes: seq<byte> :=
      [0, 0, 0x81, 0x80, 0, 1, 0, 1, 0, 0, 0, 0] + [0, 0, 1, 0, 1] + [0, 0, 1, 0, 1, 0, 0, 0, 0, 0, 4];
    assert SkipName(bytes, 12, 28) == 13 && WordAt(bytes, 6) == 1;
    assert SkipName(bytes, 17, 28) == 18;
    assert WordAt(bytes, 18) == 1 && WordAt(bytes, 26) == 4;
  }
}
