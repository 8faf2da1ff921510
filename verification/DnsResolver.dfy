/** The receive sides of `DomainStack::resolv` (UDP) and `TorDnsResolver::resolvede` (TCP through
    a proxy), and the query packet. */
module DnsResolver {
  import opened Sequences
  import opened Decimal
  import opened DnsName
  import opened DnsMessage
  import opened Network

  // ---------------------------------------------------------------- the query

  /** Header, name and question of a query for the address of `domain`. */
  method BuildQuery(domain: seq<byte>, id: int) returns (packet: seq<byte>)
    requires Word16(id)
    ensures packet == HeaderBytes(id, 0x0100, 1, 0, 0, 0)
                      + (NameBytes(Name(Labels(domain), Root)) + QuestionMeta(TYPE_A, CLASS_IN))
    ensures packet == [id / 256, id % 256, 1, 0, 0, 1, 0, 0, 0, 0, 0, 0]
                      + ((LabelBytes(Labels(domain)) + [0]) + [0, 1, 0, 1])
  {
    packet := HeaderBytes(id, 0x0100, 1, 0, 0, 0);
    assert packet == [id / 256, id % 256, 1, 0, 0, 1, 0, 0, 0, 0, 0, 0];
    assert QuestionMeta(TYPE_A, CLASS_IN) == [0, 1, 0, 1];
    var qname := EncodeDnsName(domain);
    packet := packet + qname;
    packet := packet + QuestionMeta(TYPE_A, CLASS_IN);
    Associate(HeaderBytes(id, 0x0100, 1, 0, 0, 0), qname, QuestionMeta(TYPE_A, CLASS_IN));
  }

  /** Where the parts of a built query stand. */
  lemma QueryParts(packet: seq<byte>, header: seq<byte>, name: seq<byte>, qtype: int, qclass: int)
    requires Word16(qtype) && Word16(qclass) && |header| == HEADER
    requires packet == header + (name + QuestionMeta(qtype, qclass))
    ensures At(packet, HEADER, name) && |packet| == HEADER + |name| + QUESTION_META
    ensures WordAt(packet, |packet| - 4) == qtype && WordAt(packet, |packet| - 2) == qclass
  {
    TakeAll(packet);
    AtParts(packet, 0, header, name + QuestionMeta(qtype, qclass));
    AtParts(packet, HEADER, name, QuestionMeta(qtype, qclass));
    AtParts(packet, HEADER + |name|, WordBytes(qtype), WordBytes(qclass));
    WordReadsBack(packet, HEADER + |name|, qtype);
    WordReadsBack(packet, HEADER + |name| + 2, qclass);
  }

  /** Skipping the name of a built query from offset 12 lands 4 octets before its end. */
  lemma SkipBuiltQuery(packet: seq<byte>, domain: seq<byte>, id: int)
    requires Word16(id) && forall l | l in Labels(domain) :: |l| < 0xC0
    requires packet == HeaderBytes(id, 0x0100, 1, 0, 0, 0)
                       + (NameBytes(Name(Labels(domain), Root)) + QuestionMeta(TYPE_A, CLASS_IN))
    ensures SkipName(packet, HEADER, |packet|) == |packet| - QUESTION_META
    ensures WordAt(packet, |packet| - 4) == TYPE_A && WordAt(packet, |packet| - 2) == CLASS_IN
  {
    LabelsAreLabels([], domain);
    QueryParts(packet, HeaderBytes(id, 0x0100, 1, 0, 0, 0), NameBytes(Name(Labels(domain), Root)), TYPE_A, CLASS_IN);
    SkipLandsBehindName(packet, HEADER, |packet|, Labels(domain), Root);
  }

  // ---------------------------------------------------------------- the answer loop

  /** The loop of both resolvers, with its running offset. */
  method AnswerLoop(buffer: seq<byte>, received: nat) returns (answer: Answer)
    requires HEADER <= |buffer| && received <= |buffer|
    ensures answer == WalkMessage(buffer, received)
  {
    var count := WordAt(buffer, 6);
    var offset: nat := SkipNameField(buffer, HEADER, received);
    offset := offset + QUESTION_META;
    ghost var walk := WalkAnswers(buffer, received, offset, count);
    assert walk == WalkMessage(buffer, received);
    var i := 0;
    while i < count
      invariant i <= count
      invariant WalkAnswers(buffer, received, offset, count - i) == walk
    {
      ghost var start := offset;
      offset := SkipNameField(buffer, offset, received);
      if offset + RECORD_HEADER > received {
        TurnCut(buffer, received, start, count - i);
        return NoAddress;
      }
      TurnArrived(buffer, received, start, count - i, offset);
      var length, rtype := WordAt(buffer, offset + 8), WordAt(buffer, offset);
      offset := offset + RECORD_HEADER;
      if rtype == TYPE_A && length == 4 {
        if offset + 4 > |buffer| {
          return OutsideBuffer;
        }
        return Address(buffer[offset..offset + 4]);
      }
      offset := offset + length;
      i := i + 1;
    }
    return NoAddress;
  }

  /** What `resolv` makes of one datagram in its buffer of 65536 octets: a datagram shorter than
      a header gives the empty string. */
  method ResolveDatagram(buffer: seq<byte>, received: nat) returns (text: string, answer: Answer)
    requires |buffer| == 65536 && received + 4 <= |buffer|
    ensures received < HEADER ==> answer == NoAddress
    ensures received >= HEADER ==> answer == WalkMessage(buffer, received)
    ensures answer != OutsideBuffer && (answer.Address? ==> |answer.ip| == 4) && text == Render(answer)
  {
    if received < HEADER {
      return "", NoAddress;
    }
    answer := AnswerLoop(buffer, received);
    AddressHasFourOctets(buffer, received, SkipName(buffer, HEADER, received) + QUESTION_META, WordAt(buffer, 6));
    WalkStaysInside(buffer, received, SkipName(buffer, HEADER, received) + QUESTION_META, WordAt(buffer, 6));
    text := "";
    if answer.Address? {
      text := Dotted(answer.ip);
    }
  }

  function Dotted(ip: seq<byte>): (text: string)
    requires |ip| == 4
    ensures text == DottedFrom(ip)
  {
    assert ip[1..][1..] == ip[2..] && ip[2..][1..] == ip[3..];
    assert DottedFrom(ip[3..]) == Digits(ip[3]);
    assert DottedFrom(ip[2..]) == Digits(ip[2]) + ("." + Digits(ip[3]));
    assert DottedFrom(ip[1..]) == Digits(ip[1]) + ("." + (Digits(ip[2]) + ("." + Digits(ip[3]))));
    Digits(ip[0]) + ("." + (Digits(ip[1]) + ("." + (Digits(ip[2]) + ("." + Digits(ip[3]))))))
  }

  // ---------------------------------------------------------------- TCP framing

  function Zeros(n: nat): (z: seq<byte>)
    ensures |z| == n && forall i | 0 <= i < n :: z[i] == 0
  {
    if n == 0 then [] else Zeros(n - 1) + [0]
  }

  /** The receive buffer after the length prefix at the head of `stream`: the announced number
      of octets, or as many as the stream holds and zeros for the others. */
  function Payload(stream: seq<byte>): (p: (seq<byte>, nat))
    requires |stream| >= 2
    ensures |p.0| == WordAt(stream, 0) && p.1 <= |p.0|
  {
    var size := WordAt(stream, 0);
    var received := if |stream| - 2 < size then |stream| - 2 else size;
    (stream[2..2 + received] + Zeros(size - received), received)
  }

  /** Reads the 2-octet prefix (RFC 1035 section 4.2.2) in one `recv`, then gathers the message
      from pieces of any size. A first `recv` of one octet, or none, gives up. */
  method ReceiveMessage(c: Connection<byte>) returns (framed: bool, message: seq<byte>, received: nat)
    modifies c
    ensures !framed ==> received == 0 && message == []
    ensures !framed ==> old(c.pending) == [] || |old(c.pending)| == |c.pending| + 1
    ensures framed ==> |old(c.pending)| >= 2 && (message, received) == Payload(old(c.pending))
    ensures framed ==> |old(c.pending)| == 2 + received + |c.pending|
  {
    ghost var stream := c.pending;
    var prefix := c.Recv(2);
    if |prefix| < 2 {
      return false, [], 0;
    }
    TakePiece(stream, 0, prefix, c.pending);
    var size := WordAt(prefix, 0);
    var buffer := new byte[size](_ => 0);
    received := 0;
    var ended := false;
    while received < size && !ended
      invariant received <= size == buffer.Length && fresh(buffer) && received <= |stream| - 2
      invariant buffer[..received] == stream[2..2 + received]
      invariant forall i | received <= i < size :: buffer[i] == 0
      invariant c.pending == stream[2 + received..]
      invariant ended ==> c.pending == []
      decreases !ended, size - received
    {
      var chunk := c.Recv(size - received);
      if chunk == [] {
        ended := true;
      } else {
        TakePiece(stream, 2 + received, chunk, c.pending);
        SliceGrows(stream, 2, 2 + received, chunk);
        Store(buffer, received, chunk);
        received := received + |chunk|;
      }
    }
    message := buffer[..];
    assert message == buffer[..received] + Zeros(size - received);
    framed := true;
  }

  lemma SliceGrows(stream: seq<byte>, from: nat, to: nat, piece: seq<byte>)
    requires from <= to && to + |piece| <= |stream| && stream[to..to + |piece|] == piece
    ensures stream[from..to + |piece|] == stream[from..to] + piece
  {}

  /** What `resolvede` answers once the prefix has been read whole; without it, no address. */
  method ResolveStream(c: Connection<byte>) returns (framed: bool, text: string, answer: Answer)
    modifies c
    ensures !framed ==> answer == NoAddress
    ensures !framed ==> old(c.pending) == [] || |old(c.pending)| == |c.pending| + 1
    ensures framed ==> |old(c.pending)| >= 2
                       && answer == WalkMessage(Payload(old(c.pending)).0, Payload(old(c.pending)).1)
    ensures (answer.Address? ==> |answer.ip| == 4) && text == Render(answer)
  {
    var message, received;
    framed, message, received := ReceiveMessage(c);
    if !framed {
      return false, "", NoAddress;
    }
    if |message| < HEADER {
      return true, "", OutsideBuffer;
    }
    answer := AnswerLoop(message, received);
    AddressHasFourOctets(message, received, SkipName(message, HEADER, received) + QUESTION_META, WordAt(message, 6));
    text := if answer.Address? then Dotted(answer.ip) else "";
  }

  /** A stream that holds the announced message whole yields exactly its octets. */
  lemma WholePayload(bytes: seq<byte>, more: seq<byte>)
    requires |bytes| < 0x1_0000
    ensures Payload(WordBytes(|bytes|) + (bytes + more)) == (bytes, |bytes|)
  {
    var stream := WordBytes(|bytes|) + (bytes + more);
    assert WordAt(stream, 0) == |bytes|;
    assert stream[2..2 + |bytes|] == bytes;
    assert bytes + Zeros(0) == bytes;
  }

  /** The same well-formed message gives the same answer over TCP and over UDP: the data of its
      first usable record. */
  lemma TcpAgreesWithUdp(m: Message, more: seq<byte>, datagram: seq<byte>)
    requires WellFormedMessage(m) && |MessageBytes(m)| < 0x1_0000
    requires At(datagram, 0, MessageBytes(m))
    ensures var p := Payload(WordBytes(|MessageBytes(m)|) + (MessageBytes(m) + more));
            WalkMessage(p.0, p.1) == WalkMessage(datagram, |MessageBytes(m)|) == AnswerOf(m.answers)
  {
    var bytes := MessageBytes(m);
    WholePayload(bytes, more);
    TakeAll(bytes);
    WalkRefinesMessage(bytes, m);
    WalkRefinesMessage(datagram, m);
  }
}
