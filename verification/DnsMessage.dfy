/** DNS responses as structured messages (RFC 1035 sections 4.1.1 to 4.1.3) and the offset-driven
    walk over their bytes that both resolvers make. */
module DnsMessage {
  import opened Wrappers
  import opened Sequences
  import opened Decimal
  import opened DnsName

  const HEADER: nat := 12
  const QUESTION_META: nat := 4
  const RECORD_HEADER: nat := 10
  const TYPE_A := 1
  const CLASS_IN := 1

  predicate Word16(v: int) {
    0 <= v < 0x1_0000
  }

  /** A 16-bit number in network byte order. */
  function WordBytes(v: int): (b: seq<byte>)
    requires Word16(v)
    ensures |b| == 2
  {
    [v / 256, v % 256]
  }

  function WordAt(buffer: seq<byte>, i: nat): (v: int)
    requires i + 2 <= |buffer|
    ensures Word16(v)
  {
    var high: int := buffer[i];
    high * 256 + buffer[i + 1]
  }

  lemma WordReadsBack(buffer: seq<byte>, offset: nat, v: int)
    requires Word16(v) && At(buffer, offset, WordBytes(v))
    ensures WordAt(buffer, offset) == v
  {
    AtIndex(buffer, offset, WordBytes(v), 0);
    AtIndex(buffer, offset, WordBytes(v), 1);
  }

  // ---------------------------------------------------------------- messages

  datatype Record = Record(name: Name, rtype: int, rclass: int, ttl: seq<byte>, rdata: seq<byte>)

  predicate WellFormedRecord(r: Record) {
    && WellFormedName(r.name) && Word16(r.rtype) && Word16(r.rclass)
    && |r.ttl| == 4 && |r.rdata| < 0x1_0000
  }

  /** Type, class, time to live and data length: the part that `DNSResourceRecordHeader` overlays. */
  function RecordHeader(r: Record): (b: seq<byte>)
    requires WellFormedRecord(r)
    ensures |b| == RECORD_HEADER
  {
    WordBytes(r.rtype) + (WordBytes(r.rclass) + r.ttl) + WordBytes(|r.rdata|)
  }

  function RecordBytes(r: Record): seq<byte>
    requires WellFormedRecord(r)
  {
    NameBytes(r.name) + (RecordHeader(r) + r.rdata)
  }

  function RecordsBytes(rs: seq<Record>): seq<byte>
    requires forall r | r in rs :: WellFormedRecord(r)
  {
    if rs == [] then [] else RecordBytes(rs[0]) + RecordsBytes(rs[1..])
  }

  /** A response with one question. `rest` holds the authority and additional sections. */
  datatype Message = Message(
    id: int, flags: int, authorities: int, additionals: int,
    qname: Name, qtype: int, qclass: int, answers: seq<Record>, rest: seq<byte>)

  predicate WellFormedMessage(m: Message) {
    && Word16(m.id) && Word16(m.flags) && Word16(m.authorities) && Word16(m.additionals)
    && WellFormedName(m.qname) && Word16(m.qtype) && Word16(m.qclass)
    && Word16(|m.answers|) && (forall r | r in m.answers :: WellFormedRecord(r))
  }

  function HeaderBytes(
      id: int, flags: int, questions: int, answers: int, authorities: int, additionals: int): (b: seq<byte>)
    requires Word16(id) && Word16(flags) && Word16(questions)
    requires Word16(answers) && Word16(authorities) && Word16(additionals)
    ensures |b| == HEADER
  {
    (WordBytes(id) + WordBytes(flags) + WordBytes(questions))
    + (WordBytes(answers) + (WordBytes(authorities) + WordBytes(additionals)))
  }

  function QuestionMeta(qtype: int, qclass: int): (b: seq<byte>)
    requires Word16(qtype) && Word16(qclass)
    ensures |b| == QUESTION_META
  {
    WordBytes(qtype) + WordBytes(qclass)
  }

  function MessageBytes(m: Message): seq<byte>
    requires WellFormedMessage(m)
  {
    HeaderBytes(m.id, m.flags, 1, |m.answers|, m.authorities, m.additionals)
    + (NameBytes(m.qname) + (QuestionMeta(m.qtype, m.qclass) + (RecordsBytes(m.answers) + m.rest)))
  }

  /** Octet by octet: the six numbers of the header with their high octets first, the question's
      name, its type and its class, and what follows it. */
  lemma MessageOctets(m: Message)
    requires WellFormedMessage(m)
    ensures var n, more := |m.answers|, RecordsBytes(m.answers) + m.rest;
            MessageBytes(m) ==
            [m.id / 256, m.id % 256, m.flags / 256, m.flags % 256, 0, 1, n / 256, n % 256,
             m.authorities / 256, m.authorities % 256, m.additionals / 256, m.additionals % 256]
            + (NameBytes(m.qname)
               + ([m.qtype / 256, m.qtype % 256, m.qclass / 256, m.qclass % 256] + more))
  {}

  lemma RecordOctets(r: Record)
    requires WellFormedRecord(r)
    ensures var n := |r.rdata|;
            RecordBytes(r) ==
            NameBytes(r.name)
            + ([r.rtype / 256, r.rtype % 256, r.rclass / 256, r.rclass % 256,
                r.ttl[0], r.ttl[1], r.ttl[2], r.ttl[3], n / 256, n % 256] + r.rdata)
  {}

  /** A record of type A with four octets of data. */
  predicate Usable(r: Record) {
    r.rtype == TYPE_A && |r.rdata| == 4
  }

  /** The data of the first usable record. */
  function FirstAddress(rs: seq<Record>): Option<seq<byte>> {
    if rs == [] then None
    else if Usable(rs[0]) then Some(rs[0].rdata)
    else FirstAddress(rs[1..])
  }

  // ---------------------------------------------------------------- the walk

  /** What the walk comes to. `OutsideBuffer` marks a read behind the end of the receive buffer,
      whose effect the source does not define. */
  datatype Answer = Address(ip: seq<byte>) | NoAddress | OutsideBuffer

  /** The answer loop, from `offset` with `left` records still announced. Offsets are checked
      against the `received` bytes, data is read from the whole buffer. */
  function WalkAnswers(buffer: seq<byte>, received: nat, offset: nat, left: nat): Answer
    requires received <= |buffer|
    decreases left
  {
    if left == 0 then NoAddress else
      var at := SkipName(buffer, offset, received);
      if at + RECORD_HEADER > received then NoAddress else
        var rtype, length := WordAt(buffer, at), WordAt(buffer, at + 8);
        var data := at + RECORD_HEADER;
        if rtype == TYPE_A && length == 4 then
          (if data + 4 <= |buffer| then Address(buffer[data..data + 4]) else OutsideBuffer)
        else WalkAnswers(buffer, received, data + length, left - 1)
  }

  /** One turn of the loop, from the offset behind the record's name. */
  lemma WalkTurn(buffer: seq<byte>, received: nat, offset: nat, left: nat)
    requires received <= |buffer| && left > 0
    ensures var at := SkipName(buffer, offset, received);
            WalkAnswers(buffer, received, offset, left) ==
            if at + RECORD_HEADER > received then NoAddress
            else if WordAt(buffer, at) == TYPE_A && WordAt(buffer, at + 8) == 4 then
              (if at + RECORD_HEADER + 4 <= |buffer|
               then Address(buffer[at + RECORD_HEADER..at + RECORD_HEADER + 4]) else OutsideBuffer)
            else WalkAnswers(buffer, received, at + RECORD_HEADER + WordAt(buffer, at + 8), left - 1)
  {}

  lemma TurnCut(buffer: seq<byte>, received: nat, offset: nat, left: nat)
    requires received <= |buffer| && left > 0 && SkipName(buffer, offset, received) + RECORD_HEADER > received
    ensures WalkAnswers(buffer, received, offset, left) == NoAddress
  {
    WalkTurn(buffer, received, offset, left);
  }

  /** What the buffer holds as an address at `data`. */
  function OctetsAt(buffer: seq<byte>, data: nat): Answer {
    if data + 4 <= |buffer| then Address(buffer[data..data + 4]) else OutsideBuffer
  }

  lemma TurnArrived(buffer: seq<byte>, received: nat, offset: nat, left: nat, at: nat)
    requires received <= |buffer| && left > 0 && at == SkipName(buffer, offset, received)
    requires at + RECORD_HEADER <= received
    ensures WalkAnswers(buffer, received, offset, left) ==
            if WordAt(buffer, at) == TYPE_A && WordAt(buffer, at + 8) == 4 then OctetsAt(buffer, at + RECORD_HEADER)
            else WalkAnswers(buffer, received, at + RECORD_HEADER + WordAt(buffer, at + 8), left - 1)
  {
    WalkTurn(buffer, received, offset, left);
  }

  /** Header, question and answers of a received message. */
  function WalkMessage(buffer: seq<byte>, received: nat): Answer
    requires received <= |buffer|
  {
    if |buffer| < HEADER then OutsideBuffer else
      var question := SkipName(buffer, HEADER, received);
      WalkAnswers(buffer, received, question + QUESTION_META, WordAt(buffer, 6))
  }

  /** A receive buffer with room behind the received bytes, as the UDP resolver has, is never
      left. */
  lemma {:induction false} WalkStaysInside(buffer: seq<byte>, received: nat, offset: nat, left: nat)
    requires received + 4 <= |buffer|
    ensures WalkAnswers(buffer, received, offset, left) != OutsideBuffer
    decreases left
  {
    if left > 0 {
      var at := SkipName(buffer, offset, received);
      if at + RECORD_HEADER <= received {
        WalkStaysInside(buffer, received, at + RECORD_HEADER + WordAt(buffer, at + 8), left - 1);
      }
    }
  }

  lemma {:induction false} AddressHasFourOctets(buffer: seq<byte>, received: nat, offset: nat, left: nat)
    requires received <= |buffer|
    ensures var a := WalkAnswers(buffer, received, offset, left); a.Address? ==> |a.ip| == 4
    decreases left
  {
    if left > 0 {
      WalkTurn(buffer, received, offset, left);
      var at := SkipName(buffer, offset, received);
      if at + RECORD_HEADER <= received {
        AddressHasFourOctets(buffer, received, at + RECORD_HEADER + WordAt(buffer, at + 8), left - 1);
      }
    }
  }

  /** Where the parts of an encoded record stand. */
  lemma RecordParts(buffer: seq<byte>, offset: nat, r: Record)
    requires WellFormedRecord(r) && At(buffer, offset, RecordBytes(r))
    ensures var at := offset + |NameBytes(r.name)|;
            && At(buffer, offset, NameBytes(r.name)) && At(buffer, at, RecordHeader(r))
            && At(buffer, at + RECORD_HEADER, r.rdata)
            && at + RECORD_HEADER + |r.rdata| == offset + |RecordBytes(r)|
  {
    AtParts(buffer, offset, NameBytes(r.name), RecordHeader(r) + r.rdata);
    AtParts(buffer, offset + |NameBytes(r.name)|, RecordHeader(r), r.rdata);
  }

  /** Where the first of several encoded records stands, and where the others do. */
  lemma RecordsParts(buffer: seq<byte>, offset: nat, rs: seq<Record>)
    requires rs != [] && (forall r | r in rs :: WellFormedRecord(r)) && At(buffer, offset, RecordsBytes(rs))
    ensures var next := offset + |RecordBytes(rs[0])|;
            && At(buffer, offset, RecordBytes(rs[0])) && At(buffer, next, RecordsBytes(rs[1..]))
            && next + |RecordsBytes(rs[1..])| == offset + |RecordsBytes(rs)|
  {
    AtParts(buffer, offset, RecordBytes(rs[0]), RecordsBytes(rs[1..]));
  }

  lemma RecordHeaderLayout(buffer: seq<byte>, at: nat, r: Record)
    requires WellFormedRecord(r) && At(buffer, at, RecordHeader(r))
    ensures WordAt(buffer, at) == r.rtype && WordAt(buffer, at + 8) == |r.rdata|
  {
    AtParts(buffer, at, WordBytes(r.rtype) + (WordBytes(r.rclass) + r.ttl), WordBytes(|r.rdata|));
    AtParts(buffer, at, WordBytes(r.rtype), WordBytes(r.rclass) + r.ttl);
    WordReadsBack(buffer, at, r.rtype);
    WordReadsBack(buffer, at + 8, |r.rdata|);
  }

  lemma RecordLayout(buffer: seq<byte>, received: nat, offset: nat, r: Record)
    requires WellFormedRecord(r) && At(buffer, offset, RecordBytes(r))
    requires offset + |RecordBytes(r)| <= received <= |buffer|
    ensures var at := SkipName(buffer, offset, received);
            && at == offset + |NameBytes(r.name)|
            && at + RECORD_HEADER + |r.rdata| == offset + |RecordBytes(r)|
            && WordAt(buffer, at) == r.rtype && WordAt(buffer, at + 8) == |r.rdata|
            && At(buffer, at + RECORD_HEADER, r.rdata)
  {
    RecordParts(buffer, offset, r);
    SkipLandsBehindName(buffer, offset, received, r.name.labels, r.name.end);
    RecordHeaderLayout(buffer, offset + |NameBytes(r.name)|, r);
  }

  /** From offset `at` one turn of the loop either stops with the address of `r`, or goes on at
      `next` with one record less. */
  ghost predicate Turn(buffer: seq<byte>, received: nat, at: nat, next: nat, r: Record)
    requires received <= |buffer|
  {
    forall left: nat | left > 0 ::
      WalkAnswers(buffer, received, at, left) ==
      if Usable(r) then Address(r.rdata)
      else WalkAnswers(buffer, received, next, left - 1)
  }

  lemma RecordIsOneTurn(buffer: seq<byte>, received: nat, offset: nat, next: nat, r: Record)
    requires WellFormedRecord(r) && At(buffer, offset, RecordBytes(r))
    requires next == offset + |RecordBytes(r)| && next <= received <= |buffer|
    ensures Turn(buffer, received, offset, next, r)
  {
    RecordLayout(buffer, received, offset, r);
    forall left: nat | left > 0
      ensures WalkAnswers(buffer, received, offset, left) ==
              if Usable(r) then Address(r.rdata)
              else WalkAnswers(buffer, received, next, left - 1)
    {
      WalkTurn(buffer, received, offset, left);
    }
  }

  /** The answer that the records of a response call for. */
  function AnswerOf(rs: seq<Record>): Answer {
    match FirstAddress(rs)
    case None => NoAddress
    case Some(ip) => Address(ip)
  }

  lemma AnswerOfHead(rs: seq<Record>, walk: Answer, next: Answer)
    requires rs != [] && next == AnswerOf(rs[1..])
    requires walk == if Usable(rs[0]) then Address(rs[0].rdata) else next
    ensures walk == AnswerOf(rs)
  {}

  /** Where the records start, and where the last one ends. */
  function Starts(offset: nat, rs: seq<Record>): (starts: seq<nat>)
    requires forall r | r in rs :: WellFormedRecord(r)
    ensures |starts| == |rs| + 1 && starts[0] == offset
    decreases rs
  {
    if rs == [] then [offset] else [offset] + Starts(offset + |RecordBytes(rs[0])|, rs[1..])
  }

  lemma StartsShift(offset: nat, rs: seq<Record>, i: nat)
    requires rs != [] && i <= |rs| && forall r | r in rs :: WellFormedRecord(r)
    ensures i > 0 ==> Starts(offset, rs)[i] == Starts(offset + |RecordBytes(rs[0])|, rs[1..])[i - 1]
  {}

  /** Each record stands at its start, and ends at the start of the next one. */
  lemma {:induction false} RecordStands(buffer: seq<byte>, offset: nat, rs: seq<Record>, i: nat)
    requires i < |rs| && forall r | r in rs :: WellFormedRecord(r)
    requires At(buffer, offset, RecordsBytes(rs))
    ensures At(buffer, Starts(offset, rs)[i], RecordBytes(rs[i]))
    ensures Starts(offset, rs)[i + 1] == Starts(offset, rs)[i] + |RecordBytes(rs[i])|
    ensures Starts(offset, rs)[i + 1] <= offset + |RecordsBytes(rs)|
    decreases rs
  {
    RecordsParts(buffer, offset, rs);
    StartsShift(offset, rs, i);
    StartsShift(offset, rs, i + 1);
    var next := offset + |RecordBytes(rs[0])|;
    if i > 0 {
      RecordStands(buffer, next, rs[1..], i - 1);
    } else {
      assert Starts(next, rs[1..])[0] == next;
    }
  }

  /** Over encoded records the loop goes from record start to record start. */
  lemma TurnFollowsRecord(buffer: seq<byte>, received: nat, offset: nat, rs: seq<Record>, i: nat)
    requires i < |rs| && forall r | r in rs :: WellFormedRecord(r)
    requires At(buffer, offset, RecordsBytes(rs)) && offset + |RecordsBytes(rs)| <= received <= |buffer|
    ensures Turn(buffer, received, Starts(offset, rs)[i], Starts(offset, rs)[i + 1], rs[i])
  {
    RecordStands(buffer, offset, rs, i);
    RecordIsOneTurn(buffer, received, Starts(offset, rs)[i], Starts(offset, rs)[i + 1], rs[i]);
  }

  /** A loop that takes one turn per record stops at the first usable address. */
  lemma {:induction false} TurnsAnswer(buffer: seq<byte>, received: nat, starts: seq<nat>, rs: seq<Record>)
    requires received <= |buffer| && |starts| == |rs| + 1
    requires forall i | 0 <= i < |rs| :: Turn(buffer, received, starts[i], starts[i + 1], rs[i])
    ensures WalkAnswers(buffer, received, starts[0], |rs|) == AnswerOf(rs)
    decreases rs
  {
    if rs != [] {
      assert Turn(buffer, received, starts[0], starts[1], rs[0]);
      forall i | 0 <= i < |rs| - 1
        ensures Turn(buffer, received, starts[1..][i], starts[1..][i + 1], rs[1..][i])
      {
        assert Turn(buffer, received, starts[i + 1], starts[i + 2], rs[i + 1]);
      }
      TurnsAnswer(buffer, received, starts[1..], rs[1..]);
      AnswerOfHead(rs, WalkAnswers(buffer, received, starts[0], |rs|),
                   WalkAnswers(buffer, received, starts[1], |rs| - 1));
    }
  }

  /** For every well-formed response, in a buffer of any size and whatever is stale behind it,
      the walk returns the data of the first type A record with four octets of data, and no
      address if there is none. */
  lemma WalkRefinesMessage(buffer: seq<byte>, m: Message)
    requires WellFormedMessage(m) && At(buffer, 0, MessageBytes(m))
    ensures WalkMessage(buffer, |MessageBytes(m)|) == AnswerOf(m.answers)
  {
    var received := |MessageBytes(m)|;
    var answers := MessageLayout(buffer, m);
    forall i | 0 <= i < |m.answers|
      ensures Turn(buffer, received, Starts(answers, m.answers)[i], Starts(answers, m.answers)[i + 1], m.answers[i])
    {
      TurnFollowsRecord(buffer, received, answers, m.answers, i);
    }
    TurnsAnswer(buffer, received, Starts(answers, m.answers), m.answers);
  }

  /** Where the question and what follows it stand, in an encoded message. */
  lemma QuestionParts(buffer: seq<byte>, m: Message)
    requires WellFormedMessage(m) && At(buffer, 0, MessageBytes(m))
    ensures var at := HEADER + |NameBytes(m.qname)|;
            && At(buffer, HEADER, NameBytes(m.qname))
            && At(buffer, at + QUESTION_META, RecordsBytes(m.answers) + m.rest)
            && |MessageBytes(m)| == at + QUESTION_META + |RecordsBytes(m.answers) + m.rest|
    ensures |buffer| >= HEADER && WordAt(buffer, 6) == |m.answers|
  {
    var header := HeaderBytes(m.id, m.flags, 1, |m.answers|, m.authorities, m.additionals);
    var answers := RecordsBytes(m.answers) + m.rest;
    var meta := QuestionMeta(m.qtype, m.qclass);
    AtParts(buffer, 0, header, NameBytes(m.qname) + (meta + answers));
    AtParts(buffer, HEADER, NameBytes(m.qname), meta + answers);
    AtParts(buffer, HEADER + |NameBytes(m.qname)|, meta, answers);
    CountReadsBack(buffer, m);
  }

  /** Where the parts of an encoded message stand: the record count at 6, the question from 12,
      and the answers behind it. */
  lemma MessageLayout(buffer: seq<byte>, m: Message) returns (at: nat)
    requires WellFormedMessage(m) && At(buffer, 0, MessageBytes(m))
    ensures at == HEADER + |NameBytes(m.qname)| + QUESTION_META
    ensures At(buffer, HEADER, NameBytes(m.qname)) && at == SkipName(buffer, HEADER, |MessageBytes(m)|) + QUESTION_META
    ensures At(buffer, at, RecordsBytes(m.answers)) && at + |RecordsBytes(m.answers)| <= |MessageBytes(m)|
    ensures |buffer| >= HEADER && WordAt(buffer, 6) == |m.answers|
  {
    QuestionParts(buffer, m);
    at := HEADER + |NameBytes(m.qname)| + QUESTION_META;
    AtParts(buffer, at, RecordsBytes(m.answers), m.rest);
    SkipLandsBehindName(buffer, HEADER, |MessageBytes(m)|, m.qname.labels, m.qname.end);
  }

  lemma CountReadsBack(buffer: seq<byte>, m: Message)
    requires WellFormedMessage(m)
    requires At(buffer, 0, HeaderBytes(m.id, m.flags, 1, |m.answers|, m.authorities, m.additionals))
    ensures WordAt(buffer, 6) == |m.answers|
  {
    var tail := WordBytes(m.authorities) + WordBytes(m.additionals);
    AtParts(buffer, 0, WordBytes(m.id) + WordBytes(m.flags) + WordBytes(1), WordBytes(|m.answers|) + tail);
    AtParts(buffer, 6, WordBytes(|m.answers|), tail);
    WordReadsBack(buffer, 6, |m.answers|);
  }

  /** The answer is the data of the first record of type 1 with four octets, and there is none
      exactly without such a record. */
  lemma {:induction false} AnswerIsFirstAddress(rs: seq<Record>, ip: seq<byte>)
    ensures AnswerOf(rs) == Address(ip) <==>
            exists i | 0 <= i < |rs| :: rs[i].rtype == 1 && |rs[i].rdata| == 4 && rs[i].rdata == ip
                       && forall j | 0 <= j < i :: !(rs[j].rtype == 1 && |rs[j].rdata| == 4)
    ensures AnswerOf(rs) == NoAddress <==>
            forall i | 0 <= i < |rs| :: !(rs[i].rtype == 1 && |rs[i].rdata| == 4)
  {
    if rs != [] {
      AnswerIsFirstAddress(rs[1..], ip);
      assert forall i | 0 < i < |rs| :: rs[i] == rs[1..][i - 1];
      assert forall i | 0 <= i < |rs[1..]| :: rs[i + 1] == rs[1..][i];
    }
  }

  // ---------------------------------------------------------------- dotted quads

  function DottedFrom(ip: seq<byte>): string
    requires ip != []
  {
    if |ip| == 1 then Digits(ip[0]) else Digits(ip[0]) + ("." + DottedFrom(ip[1..]))
  }

  /** Four numbers with a point between them. */
  lemma DottedQuad(a: byte, b: byte, c: byte, d: byte)
    ensures DottedFrom([a, b, c, d]) == Digits(a) + ("." + (Digits(b) + ("." + (Digits(c) + ("." + Digits(d))))))
  {
    assert [a, b, c, d][1..] == [b, c, d] && [b, c, d][1..] == [c, d] && [c, d][1..] == [d];
    assert DottedFrom([d]) == Digits(d);
    assert DottedFrom([c, d]) == Digits(c) + ("." + DottedFrom([d]));
    assert DottedFrom([b, c, d]) == Digits(b) + ("." + DottedFrom([c, d]));
  }

  /** Reading a number, passing over a point, and so on, gives the four octets back. */
  lemma QuadReadsBack(a: byte, b: byte, c: byte, d: byte) returns (r1: string, r2: string, r3: string)
    ensures ReadInt(DottedFrom([a, b, c, d]), 0, 255) == Some((a as int, "." + r1))
    ensures ReadInt(r1, 0, 255) == Some((b as int, "." + r2))
    ensures ReadInt(r2, 0, 255) == Some((c as int, "." + r3))
    ensures ReadInt(r3, 0, 255) == Some((d as int, ""))
  {
    DottedQuad(a, b, c, d);
    r3 := Digits(d);
    r2 := Digits(c) + ("." + r3);
    r1 := Digits(b) + ("." + r2);
    ReadsNaturalBack(a, "." + r1, 0, 255);
    ReadsNaturalBack(b, "." + r2, 0, 255);
    ReadsNaturalBack(c, "." + r3, 0, 255);
    ReadsNaturalBack(d, "", 0, 255);
    assert Digits(d) + "" == Digits(d);
  }

  lemma SampleQuad()
    ensures DottedFrom([192, 168, 0, 1]) == "192.168.0.1"
  {
    DottedQuad(192, 168, 0, 1);
    ThreeDigitText(192);
    ThreeDigitText(168);
    DigitCharacter(0);
    DigitCharacter(1);
    assert Digits(0) == "0" && Digits(1) == "1";
  }

  /** The result string of a resolver: the dotted quad, or empty. */
  function Render(a: Answer): string
    requires a.Address? ==> |a.ip| == 4
  {
    if a.Address? then DottedFrom(a.ip) else ""
  }

  /** Different addresses give different strings. */
  lemma {:induction false} DottedIsInjective(a: seq<byte>, b: seq<byte>)
    requires |a| == |b| > 0 && DottedFrom(a) == DottedFrom(b)
    ensures a == b
  {
    var restA := if |a| == 1 then "" else "." + DottedFrom(a[1..]);
    var restB := if |b| == 1 then "" else "." + DottedFrom(b[1..]);
    assert DottedFrom(a) == Digits(a[0]) + restA && DottedFrom(b) == Digits(b[0]) + restB;
    DigitRunStops(Digits(a[0]), restA);
    DigitRunStops(Digits(b[0]), restB);
    DropAppend(Digits(a[0]), restA);
    DropAppend(Digits(b[0]), restB);
    ValueOfDigits(a[0]);
    ValueOfDigits(b[0]);
    if |a| > 1 {
      assert restA[1..] == DottedFrom(a[1..]) && restB[1..] == DottedFrom(b[1..]);
      DottedIsInjective(a[1..], b[1..]);
      assert a == [a[0]] + a[1..] && b == [b[0]] + b[1..];
    }
  }
}
