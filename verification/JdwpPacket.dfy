/** JDWP packets on a byte stream, and the client's wait for the reply to its command. */
module JdwpPacket {
  import opened Bytes

  const HEADER_SIZE: nat := 11
  const MAX_PACKET_LENGTH: nat := 32 * 1024 * 1024
  const REPLY: byte := 0x80

  datatype Packet = Packet(length: int32, id: int32, flags: byte, cmdSet: byte, cmd: byte, errCode: int16,
      data: seq<byte>)

  /** One packet read: with `next` the position behind it. A reply that reports an error
      comes back together with a Go error; every other failure leaves no packet. */
  datatype ReadOutcome = Got(packet: Packet, next: nat) | GotErrorReply(packet: Packet, next: nat) | Broken

  /** The bytes that WriteJDWPPacket sends; the length field wraps at 32 bits. */
  function PutPacket(p: Packet): seq<byte> {
    PutU4(LowU4(HEADER_SIZE + |p.data|)) + PutU4(LowU4(p.id)) + [p.flags, p.cmdSet, p.cmd] + p.data
  }

  function PacketAt(s: seq<byte>, pos: nat): ReadOutcome {
    if pos + HEADER_SIZE > |s| then Broken else
    var rawLen := U4At(s, pos);
    if rawLen < HEADER_SIZE || rawLen > MAX_PACKET_LENGTH || pos + rawLen > |s| then Broken else
    var id, flags, data := ToInt32(U4At(s, pos + 4)), s[pos + 8], s[pos + HEADER_SIZE..pos + rawLen];
    if flags == REPLY then
      var errCode := ToInt16(U2At(s, pos + 9));
      var p := Packet(rawLen, id, flags, 0, 0, errCode, data);
      if errCode != 0 then GotErrorReply(p, pos + rawLen) else Got(p, pos + rawLen)
    else
      Got(Packet(rawLen, id, flags, s[pos + 9], s[pos + 10], 0, data), pos + rawLen)
  }

  // -------------------------------------------------------------- round trip

  /** Packets that survive the wire: no more than 32 MB, the length field filled in, and in
      a reply no command fields and no error code, for the writer never writes one. */
  predicate Faithful(p: Packet) {
    && HEADER_SIZE + |p.data| <= MAX_PACKET_LENGTH
    && p.length == HEADER_SIZE + |p.data|
    && p.errCode == 0
    && (p.flags == REPLY ==> p.cmdSet == 0 && p.cmd == 0)
  }

  /** The fields as they stand in a written packet. */
  lemma PacketFields(s: seq<byte>, pos: nat, p: Packet)
    requires Has(s, pos, PutPacket(p))
    ensures pos + HEADER_SIZE + |p.data| <= |s|
    ensures U4At(s, pos) == LowU4(HEADER_SIZE + |p.data|) && ToInt32(U4At(s, pos + 4)) == p.id
    ensures s[pos + 8] == p.flags && s[pos + 9] == p.cmdSet && s[pos + 10] == p.cmd
    ensures s[pos + HEADER_SIZE..pos + HEADER_SIZE + |p.data|] == p.data
  {
    hide PutU4, U4At;
    var head := [p.flags, p.cmdSet, p.cmd];
    HasSplit(s, pos, PutU4(LowU4(HEADER_SIZE + |p.data|)) + PutU4(LowU4(p.id)) + head, p.data);
    HasSplit(s, pos, PutU4(LowU4(HEADER_SIZE + |p.data|)) + PutU4(LowU4(p.id)), head);
    HasSplit(s, pos, PutU4(LowU4(HEADER_SIZE + |p.data|)), PutU4(LowU4(p.id)));
    U4RoundTrip(s, pos, LowU4(HEADER_SIZE + |p.data|));
    U4RoundTrip(s, pos + 4, LowU4(p.id));
    assert s[pos + 8..pos + 11] == head;
    assert s[pos + 8..pos + 11][0] == s[pos + 8] && s[pos + 8..pos + 11][1] == s[pos + 9]
        && s[pos + 8..pos + 11][2] == s[pos + 10];
  }

  /** The layout of a packet: length and id in network byte order, flags, and in the bytes
      where a reply carries its error code the command fields, then the data. */
  lemma PacketLayout(s: seq<byte>, pos: nat, p: Packet)
    requires Has(s, pos, PutPacket(p))
    ensures pos + 11 + |p.data| <= |s|
    ensures Value(s[pos..pos + 4]) == (11 + |p.data|) % 0x1_0000_0000
    ensures Value(s[pos + 4..pos + 8]) == if p.id >= 0 then p.id as int else p.id as int + 0x1_0000_0000
    ensures s[pos + 8] == p.flags && s[pos + 9] == p.cmdSet && s[pos + 10] == p.cmd
    ensures s[pos + 11..pos + 11 + |p.data|] == p.data
  {
    PacketFields(s, pos, p);
    hide PutPacket, U4At, Has, Value;
    U4IsValue(s, pos);
    U4IsValue(s, pos + 4);
  }

  /** Packets that reach the peer at all: no more than 32 MB, and in a reply no command fields,
      for they stand where a reader expects the error code. */
  predicate Deliverable(p: Packet) {
    11 + |p.data| <= 0x200_0000 && (p.flags == 0x80 ==> p.cmdSet == 0 && p.cmd == 0)
  }

  /** What the peer makes of a packet: the length is filled in, and the writer sends no error code. */
  function Received(p: Packet): Packet
    requires Deliverable(p)
  {
    p.(length := HEADER_SIZE + |p.data|, errCode := 0)
  }

  /** From a written packet one of the same size is read exactly if it is deliverable and the
      one read is the one received. */
  lemma PacketDelivered(s: seq<byte>, pos: nat, p: Packet, q: Packet)
    requires Has(s, pos, PutPacket(p)) && |q.data| == |p.data|
    ensures PacketAt(s, pos) == Got(q, pos + HEADER_SIZE + |p.data|) <==> Deliverable(p) && q == Received(p)
  {
    PacketFields(s, pos, p);
    hide PutPacket, U4At, Has;
    var n := HEADER_SIZE + |p.data|;
    if n <= MAX_PACKET_LENGTH {
      assert LowU4(n) == n;
    } else {
      assert MAX_PACKET_LENGTH < n;
    }
  }

  /** A written packet is read back unchanged exactly if it is faithful. */
  lemma PacketRoundTrip(s: seq<byte>, pos: nat, p: Packet)
    requires Has(s, pos, PutPacket(p))
    ensures PacketAt(s, pos) == Got(p, pos + HEADER_SIZE + |p.data|) <==> Faithful(p)
  {
    hide PacketAt, Has;
    PacketDelivered(s, pos, p, p);
  }

  /** For the packets of a request, with flags other than 0x80, the size is the only limit. */
  lemma CommandRoundTrip(s: seq<byte>, pos: nat, p: Packet)
    requires Has(s, pos, PutPacket(p)) && p.flags != REPLY && HEADER_SIZE + |p.data| <= MAX_PACKET_LENGTH
    ensures PacketAt(s, pos) == Got(p.(length := HEADER_SIZE + |p.data|, errCode := 0), pos + HEADER_SIZE + |p.data|)
  {
    hide PacketAt, Has;
    PacketDelivered(s, pos, p, Received(p));
  }

  function PutPackets(ps: seq<Packet>): seq<byte> {
    if ps == [] then [] else PutPacket(ps[0]) + PutPackets(ps[1..])
  }

  datatype Stream = Packets(packets: seq<Packet>, next: nat) | Interrupted

  /** What n reads in a row deliver. */
  function ReadPackets(s: seq<byte>, pos: nat, n: nat): Stream
    decreases n
  {
    if n == 0 then Packets([], pos) else
    match PacketAt(s, pos)
    case Broken => Interrupted
    case GotErrorReply(_, _) => Interrupted
    case Got(p, next) =>
      match ReadPackets(s, next, n - 1)
      case Interrupted => Interrupted
      case Packets(ps, end) => Packets([p] + ps, end)
  }

  /** Reading as many packets as qs has, in a row from pos on, delivers qs and ends at `end`. */
  predicate ReadsAs(s: seq<byte>, pos: nat, qs: seq<Packet>, end: nat) {
    ReadPackets(s, pos, |qs|) == Packets(qs, end)
  }

  predicate AllDeliverable(ps: seq<Packet>) {
    forall i :: 0 <= i < |ps| ==> Deliverable(ps[i])
  }

  function AllReceived(ps: seq<Packet>): seq<Packet>
    requires AllDeliverable(ps)
  {
    seq(|ps|, i requires 0 <= i < |ps| => Received(ps[i]))
  }

  /** Everything is delivered, and qs is what is received. */
  predicate DeliveredAs(ps: seq<Packet>, qs: seq<Packet>) {
    AllDeliverable(ps) && qs == AllReceived(ps)
  }

  /** What was read has as many packets as what was written, each with as much data. */
  predicate SameSizes(ps: seq<Packet>, qs: seq<Packet>) {
    |ps| == |qs| && forall i :: 0 <= i < |ps| ==> |ps[i].data| == |qs[i].data|
  }

  lemma NothingLike(qs: seq<Packet>)
    ensures SameSizes([], qs) ==> qs == []
  {
  }

  lemma FirstOfBoth(ps: seq<Packet>, qs: seq<Packet>)
    returns (p: Packet, tail: seq<Packet>, q: Packet, rest: seq<Packet>)
    requires SameSizes(ps, qs) && ps != []
    ensures ps == [p] + tail && qs == [q] + rest && |tail| == |ps| - 1
    ensures |p.data| == |q.data| && |tail| == |rest| && SameSizes(tail, rest)
  {
    p, tail, q, rest := ps[0], ps[1..], qs[0], qs[1..];
  }

  predicate AllFaithful(ps: seq<Packet>) {
    forall i :: 0 <= i < |ps| ==> Faithful(ps[i])
  }

  lemma PutPacketsStep(p: Packet, tail: seq<Packet>)
    ensures PutPackets([p] + tail) == PutPacket(p) + PutPackets(tail)
    ensures |PutPacket(p)| == HEADER_SIZE + |p.data|
  {
    assert ([p] + tail)[0] == p && ([p] + tail)[1..] == tail;
    hide PutU4;
  }

  lemma DeliverableStep(p: Packet, tail: seq<Packet>)
    ensures AllDeliverable([p] + tail) <==> Deliverable(p) && AllDeliverable(tail)
    ensures AllDeliverable([p] + tail) ==> AllReceived([p] + tail) == [Received(p)] + AllReceived(tail)
  {
    hide Deliverable;
    var ps := [p] + tail;
    assert ps[0] == p && ps[1..] == tail;
    if AllDeliverable(ps) {
      assert forall i :: 0 <= i < |tail| ==> tail[i] == ps[i + 1];
      ReceivedStep(p, tail);
    }
    if Deliverable(p) && AllDeliverable(tail) {
      assert forall i :: 0 <= i < |ps| ==> ps[i] == if i == 0 then p else tail[i - 1];
    }
  }

  lemma ReceivedStep(p: Packet, tail: seq<Packet>)
    requires AllDeliverable([p] + tail) && Deliverable(p) && AllDeliverable(tail)
    ensures AllReceived([p] + tail) == [Received(p)] + AllReceived(tail)
  {
    hide Deliverable, Received;
    var qs, rest := AllReceived([p] + tail), AllReceived(tail);
    assert forall i :: 0 <= i < |qs| ==> qs[i] == ([Received(p)] + rest)[i];
  }

  lemma ReadPacketsStep(s: seq<byte>, pos: nat, p: Packet, next: nat, tail: seq<Packet>, end: nat)
    requires PacketAt(s, pos) == Got(p, next) && ReadPackets(s, next, |tail|) == Packets(tail, end)
    ensures ReadPackets(s, pos, 1 + |tail|) == Packets([p] + tail, end)
  {
    hide PacketAt;
  }

  lemma ReadPacketsFirst(s: seq<byte>, pos: nat, p: Packet, tail: seq<Packet>, end: nat)
    requires ReadPackets(s, pos, 1 + |tail|) == Packets([p] + tail, end)
    ensures PacketAt(s, pos) == Got(p, pos + HEADER_SIZE + |p.data|)
    ensures ReadPackets(s, pos + HEADER_SIZE + |p.data|, |tail|) == Packets(tail, end)
  {
    GotSize(s, pos);
    hide PacketAt;
    assert ([p] + tail)[0] == p && ([p] + tail)[1..] == tail;
    var next := PacketAt(s, pos).next;
    var rest := ReadPackets(s, next, |tail|).packets;
    var read := [PacketAt(s, pos).packet] + rest;
    assert read[0] == PacketAt(s, pos).packet && read[1..] == rest;
  }

  lemma GotSize(s: seq<byte>, pos: nat)
    ensures PacketAt(s, pos).Got? ==> PacketAt(s, pos).next == pos + HEADER_SIZE + |PacketAt(s, pos).packet.data|
  {
  }

  lemma NothingToRead(s: seq<byte>, pos: nat)
    ensures PutPackets([]) == [] && ReadsAs(s, pos, [], pos)
    ensures DeliveredAs([], [])
  {
  }

  lemma ReadPacketsExactly(s: seq<byte>, pos: nat, q: Packet, rest: seq<Packet>, end: nat)
    ensures ReadsAs(s, pos, [q] + rest, end) <==>
            && PacketAt(s, pos) == Got(q, pos + HEADER_SIZE + |q.data|)
            && ReadsAs(s, pos + HEADER_SIZE + |q.data|, rest, end)
  {
    hide ReadPackets, PacketAt;
    var next := pos + HEADER_SIZE + |q.data|;
    if ReadPackets(s, pos, 1 + |rest|) == Packets([q] + rest, end) {
      ReadPacketsFirst(s, pos, q, rest, end);
    }
    if PacketAt(s, pos) == Got(q, next) && ReadPackets(s, next, |rest|) == Packets(rest, end) {
      ReadPacketsStep(s, pos, q, next, rest, end);
    }
  }

  lemma ReceivedExactly(p: Packet, tail: seq<Packet>, q: Packet, rest: seq<Packet>)
    ensures DeliveredAs([p] + tail, [q] + rest) <==> Deliverable(p) && q == Received(p) && DeliveredAs(tail, rest)
  {
    DeliverableStep(p, tail);
    hide Deliverable, AllDeliverable, Received, AllReceived;
    if Deliverable(p) && AllDeliverable(tail) {
      SameCons(q, rest, Received(p), AllReceived(tail));
    }
  }

  lemma SameCons(q: Packet, rest: seq<Packet>, q': Packet, rest': seq<Packet>)
    ensures [q] + rest == [q'] + rest' <==> q == q' && rest == rest'
  {
    if [q] + rest == [q'] + rest' {
      assert ([q] + rest)[0] == q && ([q'] + rest')[0] == q';
      assert ([q] + rest)[1..] == rest && ([q'] + rest')[1..] == rest';
    }
  }

  /** Where the second of the written packets starts. */
  lemma FirstPacket(s: seq<byte>, pos: nat, p: Packet, tail: seq<Packet>) returns (next: nat)
    requires Has(s, pos, PutPackets([p] + tail))
    ensures Has(s, pos, PutPacket(p)) && Has(s, next, PutPackets(tail)) && next == pos + HEADER_SIZE + |p.data|
    ensures pos + |PutPackets([p] + tail)| == next + |PutPackets(tail)|
  {
    hide *;
    PutPacketsStep(p, tail);
    HasSplit(s, pos, PutPacket(p), PutPackets(tail));
    next := pos + |PutPacket(p)|;
  }

  lemma StreamStep(s: seq<byte>, pos: nat, p: Packet, tail: seq<Packet>, q: Packet, rest: seq<Packet>, end: nat)
    requires Has(s, pos, PutPacket(p)) && |q.data| == |p.data|
    requires ReadsAs(s, pos + HEADER_SIZE + |p.data|, rest, end) <==> DeliveredAs(tail, rest)
    ensures ReadsAs(s, pos, [q] + rest, end) <==> DeliveredAs([p] + tail, [q] + rest)
  {
    PacketDelivered(s, pos, p, q);
    ReceivedExactly(p, tail, q, rest);
    hide *;
    ReadPacketsExactly(s, pos, q, rest, end);
  }

  /** From the concatenation of written packets, packets of the same sizes are read to the last
      byte exactly if all are deliverable and those read are the ones received, in order. */
  lemma {:induction false} StreamFraming(s: seq<byte>, pos: nat, ps: seq<Packet>, qs: seq<Packet>)
    requires Has(s, pos, PutPackets(ps)) && SameSizes(ps, qs)
    ensures ReadsAs(s, pos, qs, pos + |PutPackets(ps)|) <==> DeliveredAs(ps, qs)
    decreases |ps|
  {
    hide *;
    if ps == [] {
      NothingToRead(s, pos);
      NothingLike(qs);
    } else {
      var p, tail, q, rest := FirstOfBoth(ps, qs);
      var next := FirstPacket(s, pos, p, tail);
      StreamFraming(s, next, tail, rest);
      StreamStep(s, pos, p, tail, q, rest, next + |PutPackets(tail)|);
    }
  }

  /** Any sequence of commands, with flags other than 0x80 and whatever length field and error
      code, comes back as sent, lengths filled in, to the last byte. */
  lemma CommandStreamFraming(s: seq<byte>, pos: nat, ps: seq<Packet>)
    requires Has(s, pos, PutPackets(ps))
    requires forall i :: 0 <= i < |ps| ==> ps[i].flags != 0x80 && 11 + |ps[i].data| <= 0x200_0000
    ensures AllDeliverable(ps) && ReadsAs(s, pos, AllReceived(ps), pos + |PutPackets(ps)|)
    ensures forall i :: 0 <= i < |ps| ==>
              AllReceived(ps)[i] == ps[i].(length := 11 + |ps[i].data|, errCode := 0)
  {
    hide ReadPackets, PutPackets, Has;
    StreamFraming(s, pos, ps, AllReceived(ps));
  }

  /** A stream comes back unchanged exactly if every packet is faithful. */
  lemma StreamUnchanged(s: seq<byte>, pos: nat, ps: seq<Packet>)
    requires Has(s, pos, PutPackets(ps))
    ensures ReadsAs(s, pos, ps, pos + |PutPackets(ps)|) <==> AllFaithful(ps)
  {
    assert SameSizes(ps, ps);
    hide ReadPackets, PutPackets, Has, SameSizes;
    StreamFraming(s, pos, ps, ps);
    if AllDeliverable(ps) && ps == AllReceived(ps) {
      assert forall i :: 0 <= i < |ps| ==> ps[i] == AllReceived(ps)[i];
    }
    if AllFaithful(ps) {
      assert forall i :: 0 <= i < |ps| ==> Faithful(ps[i]);
      assert AllReceived(ps) == ps;
    }
  }


  // ------------------------------------------------------- waiting for a reply

  datatype SendResult =
    | Reply(packet: Packet, next: nat)
    | ErrorReply(packet: Packet)        // a reply to this command that reports an error
    | IdMismatch(id: int32)
    | ReadFailed
    | WriteFailed

  /** How the wait for the reply to command `id` ends, with the input from `pos` on. */
  function AwaitReply(s: seq<byte>, pos: nat, id: int32): SendResult
    decreases |s| - pos
  {
    match PacketAt(s, pos)
    case Broken => ReadFailed
    case GotErrorReply(_, _) => ReadFailed
    case Got(p, next) =>
      if p.flags < REPLY then AwaitReply(s, next, id)
      else if p.id < id then AwaitReply(s, next, id)
      else if p.id > id then IdMismatch(p.id)
      else if p.errCode != 0 then ErrorReply(p)
      else Reply(p, next)
  }

  /** Events and replies with smaller ids: those of earlier commands, until ids wrap. */
  predicate Skippable(p: Packet, id: int32) {
    p.flags < REPLY || p.id < id
  }

  /** After `skipped`, which may all be skipped, the packet p follows, which may not. */
  ghost predicate SkippedTo(s: seq<byte>, pos: nat, id: int32, skipped: seq<Packet>, p: Packet, next: nat) {
    && (forall i :: 0 <= i < |skipped| ==> Skippable(skipped[i], id))
    && !Skippable(p, id)
    && ReadPackets(s, pos, |skipped|).Packets?
    && ReadPackets(s, pos, |skipped|).packets == skipped
    && PacketAt(s, ReadPackets(s, pos, |skipped|).next) == Got(p, next)
  }

  ghost predicate SkippedThen(s: seq<byte>, pos: nat, id: int32, skipped: seq<Packet>, p: Packet, next: nat) {
    SkippedTo(s, pos, id, skipped, p, next) && p.id == id
  }

  lemma {:induction false} WaitEnds(s: seq<byte>, pos: nat, id: int32, skipped: seq<Packet>, p: Packet, next: nat)
    requires SkippedTo(s, pos, id, skipped, p, next)
    ensures AwaitReply(s, pos, id) == if p.id == id then Reply(p, next) else IdMismatch(p.id)
    decreases |skipped|
  {
    NoErrorCodeInGot(s, ReadPackets(s, pos, |skipped|).next);
    hide PacketAt;
    if skipped == [] {
    } else {
      var q := PacketAt(s, pos).next;
      assert ReadPackets(s, q, |skipped| - 1).packets == skipped[1..];
      assert skipped[0] == PacketAt(s, pos).packet && Skippable(skipped[0], id);
      WaitEnds(s, q, id, skipped[1..], p, next);
    }
  }

  lemma {:induction false} WaitEnded(s: seq<byte>, pos: nat, id: int32)
    returns (skipped: seq<Packet>, p: Packet, next: nat)
    requires AwaitReply(s, pos, id).Reply? || AwaitReply(s, pos, id).IdMismatch?
    ensures SkippedTo(s, pos, id, skipped, p, next)
    ensures AwaitReply(s, pos, id) == if p.id == id then Reply(p, next) else IdMismatch(p.id)
    decreases |s| - pos
  {
    NoErrorCodeInGot(s, pos);
    var q := PacketAt(s, pos);
    assert q.next > pos;
    hide PacketAt;
    if Skippable(q.packet, id) {
      var tail;
      tail, p, next := WaitEnded(s, q.next, id);
      skipped := [q.packet] + tail;
      ReadPacketsStep(s, pos, q.packet, q.next, tail, ReadPackets(s, q.next, |tail|).next);
    } else {
      skipped, p, next := [], q.packet, q.next;
    }
  }

  lemma NoErrorCodeInGot(s: seq<byte>, pos: nat)
    ensures PacketAt(s, pos).Got? ==> PacketAt(s, pos).packet.errCode == 0
  {
  }

  /** A reply is returned exactly if, after packets that are all events or replies with smaller
      ids and free of errors, the next one is a reply that carries this command's id. */
  lemma ReplyExactly(s: seq<byte>, pos: nat, id: int32, p: Packet, next: nat)
    ensures AwaitReply(s, pos, id) == Reply(p, next) <==>
            exists skipped :: SkippedThen(s, pos, id, skipped, p, next)
  {
    if AwaitReply(s, pos, id) == Reply(p, next) {
      var skipped, q, end := WaitEnded(s, pos, id);
      assert SkippedThen(s, pos, id, skipped, p, next);
    }
    forall skipped | SkippedThen(s, pos, id, skipped, p, next) ensures AwaitReply(s, pos, id) == Reply(p, next) {
      WaitEnds(s, pos, id, skipped, p, next);
    }
  }

  /** The wait ends with a mismatch exactly if such packets are followed by a reply with a
      greater id, and in all other cases with a read error. */
  lemma OtherwiseExactly(s: seq<byte>, pos: nat, id: int32, other: int32)
    ensures AwaitReply(s, pos, id) == IdMismatch(other) <==>
            exists skipped, p, next :: SkippedTo(s, pos, id, skipped, p, next) && p.id == other != id
    ensures AwaitReply(s, pos, id).Reply? || AwaitReply(s, pos, id).IdMismatch? || AwaitReply(s, pos, id) == ReadFailed
  {
    if AwaitReply(s, pos, id) == IdMismatch(other) {
      var skipped, p, next := WaitEnded(s, pos, id);
    }
    forall skipped, p, next | SkippedTo(s, pos, id, skipped, p, next) && p.id == other != id
      ensures AwaitReply(s, pos, id) == IdMismatch(other)
    {
      WaitEnds(s, pos, id, skipped, p, next);
    }
    ErrorBranchDead(s, pos, id);
    OnlyReadErrors(s, pos, id);
  }

  lemma {:induction false} OnlyReadErrors(s: seq<byte>, pos: nat, id: int32)
    ensures AwaitReply(s, pos, id) != WriteFailed
    decreases |s| - pos
  {
    var q := PacketAt(s, pos);
    if !q.Got? {
    } else {
      assert q.next > pos;
      hide PacketAt;
      OnlyReadErrors(s, q.next, id);
    }
  }

  /** The branch that turns a matching reply's error code into an error is never reached. */
  lemma {:induction false} ErrorBranchDead(s: seq<byte>, pos: nat, id: int32)
    ensures !AwaitReply(s, pos, id).ErrorReply?
    decreases |s| - pos
  {
    NoErrorCodeInGot(s, pos);
    var q := PacketAt(s, pos);
    if !q.Got? {
    } else {
      assert q.next > pos;
      hide PacketAt;
      ErrorBranchDead(s, q.next, id);
    }
  }

  /** Replies to earlier commands are meant to be skipped, but one that reports an error
      ends the wait, whatever follows it. */
  lemma StaleErrorEndsWait(s: seq<byte>, pos: nat, id: int32)
    requires PacketAt(s, pos).GotErrorReply?
    ensures AwaitReply(s, pos, id) == ReadFailed
  {
  }

  const STALE: Packet := Packet(11, 2, REPLY, 0, 10, 0, [])
  const GOOD: Packet := Packet(11, 3, REPLY, 0, 0, 0, [])

  /** For instance: an error reply to command 2 spoils command 3, whose good reply follows. */
  lemma StaleErrorExample()
    ensures AwaitReply(PutPackets([GOOD]), 0, 3) == Reply(GOOD, 11)
    ensures AwaitReply(PutPackets([STALE, GOOD]), 0, 3) == ReadFailed
    ensures PutPackets([STALE, GOOD]) == [0, 0, 0, 11, 0, 0, 0, 2, 0x80, 0, 10, 0, 0, 0, 11, 0, 0, 0, 3, 0x80, 0, 0]
  {
    RawBytes();
    GoodIsReply();
    StaleIsError();
    hide PutPackets, PacketAt, AwaitReply;
    StaleErrorEndsWait(PutPackets([STALE, GOOD]), 0, 3);
  }

  lemma RawBytes()
    ensures PutPackets([STALE, GOOD]) == [0, 0, 0, 11, 0, 0, 0, 2, 0x80, 0, 10, 0, 0, 0, 11, 0, 0, 0, 3, 0x80, 0, 0]
  {
    NothingToRead([], 0);
    RawStale();
    RawGood();
    hide PutPacket, PutPackets;
    PutPacketsStep(STALE, [GOOD]);
    PutPacketsStep(GOOD, []);
    assert [STALE, GOOD] == [STALE] + [GOOD] && [GOOD] == [GOOD] + [];
    var stale: seq<byte> := [0, 0, 0, 11, 0, 0, 0, 2, 0x80, 0, 10];
    var good: seq<byte> := [0, 0, 0, 11, 0, 0, 0, 3, 0x80, 0, 0];
    assert PutPackets([STALE, GOOD]) == stale + (good + []);
  }

  lemma RawStale()
    ensures PutPacket(STALE) == [0, 0, 0, 11, 0, 0, 0, 2, 0x80, 0, 10]
  {
    assert PutU4(11) == [0, 0, 0, 11] && PutU4(2) == [0, 0, 0, 2];
    hide PutU4;
  }

  lemma RawGood()
    ensures PutPacket(GOOD) == [0, 0, 0, 11, 0, 0, 0, 3, 0x80, 0, 0]
  {
    assert PutU4(11) == [0, 0, 0, 11] && PutU4(3) == [0, 0, 0, 3];
    hide PutU4;
  }

  lemma GoodIsReply()
    ensures AwaitReply(PutPackets([GOOD]), 0, 3) == Reply(GOOD, 11)
  {
    var s := PutPackets([GOOD]);
    assert s == PutPacket(GOOD);
    assert Has(s, 0, PutPacket(GOOD));
    hide PutPackets, PutPacket, Has, PacketAt;
    PacketRoundTrip(s, 0, GOOD);
  }

  lemma StaleIsError()
    ensures PacketAt(PutPackets([STALE, GOOD]), 0).GotErrorReply?
  {
    var s := PutPackets([STALE, GOOD]);
    PutPacketsStep(STALE, [GOOD]);
    assert [STALE, GOOD] == [STALE] + [GOOD];
    assert Has(s, 0, PutPacket(STALE) + PutPackets([GOOD]));
    hide PutPackets, PutPacket, Has, PacketAt;
    HasSplit(s, 0, PutPacket(STALE), PutPackets([GOOD]));
    CommandFieldsAreError(s, 0, STALE);
  }

  /** Command fields of a reply are taken for its error code. */
  lemma CommandFieldsAreError(s: seq<byte>, pos: nat, p: Packet)
    requires Has(s, pos, PutPacket(p)) && HEADER_SIZE + |p.data| <= MAX_PACKET_LENGTH
    requires p.flags == REPLY && (p.cmdSet != 0 || p.cmd != 0)
    ensures PacketAt(s, pos).GotErrorReply?
  {
    PacketFields(s, pos, p);
    hide PutPacket, U4At, Has;
    assert LowU4(HEADER_SIZE + |p.data|) == HEADER_SIZE + |p.data|;
    assert ToInt16(U2At(s, pos + 9)) != 0;
    hide ToInt16, U2At, ToInt32;
  }

  // ---------------------------------------------------------------- connection

  class JDWPConn {
    const inbound: seq<byte>  // everything the peer will ever send, sooner or later
    var pos: nat              // how much of it has been read
    var outbound: seq<byte>
    var nextID: int32

    constructor (inbound: seq<byte>)
      ensures this.inbound == inbound && pos == 0 && outbound == [] && nextID == 1
    {
      this.inbound, pos, outbound, nextID := inbound, 0, [], 1;
    }

    /** io.ReadFull: n bytes, or an error after reading what has arrived by the deadline. */
    method ReadFull(n: nat, arrived: nat) returns (ok: bool, bytes: seq<byte>)
      requires pos <= arrived <= |inbound|
      modifies this`pos
      ensures ok <==> old(pos) + n <= arrived
      ensures ok ==> pos == old(pos) + n && bytes == inbound[old(pos)..pos]
      ensures !ok ==> pos == arrived
    {
      if pos + n > arrived {
        pos := arrived;
        return false, [];
      }
      bytes := inbound[pos..pos + n];
      pos := pos + n;
      ok := true;
    }

    /** A write of the connection that takes no more than `room` bytes before it fails. */
    method Write(bytes: seq<byte>, room: nat) returns (ok: bool)
      modifies this`outbound
      ensures ok <==> |bytes| <= room
      ensures outbound == old(outbound) + if ok then bytes else bytes[..room]
    {
      ok := |bytes| <= room;
      outbound := outbound + if ok then bytes else bytes[..room];
    }

    /** Header and data go out in two writes; on a failure as much of the packet as there was room for. */
    method WritePacket(p: Packet, room: nat) returns (ok: bool)
      modifies this`outbound
      ensures ok <==> |PutPacket(p)| <= room
      ensures outbound == old(outbound) + if ok then PutPacket(p) else PutPacket(p)[..room]
    {
      var header := PutU4(LowU4(HEADER_SIZE + |p.data|)) + PutU4(LowU4(p.id)) + [p.flags, p.cmdSet, p.cmd];
      ghost var all := PutPacket(p);
      assert all == header + p.data;
      hide PutPacket, PutU4;
      ok := Write(header, room);
      if !ok {
        assert header[..room] == all[..room];
        return;
      }
      if |p.data| > 0 {
        ok := Write(p.data, room - |header|);
        if !ok {
          assert header + p.data[..room - |header|] == all[..room];
        }
      }
    }

    /** Reads one packet out of what has arrived by the deadline. */
    method ReadPacket(arrived: nat) returns (r: ReadOutcome)
      requires pos <= arrived <= |inbound|
      modifies this`pos
      ensures old(pos) <= pos <= arrived
      ensures r == PacketAt(inbound[..arrived], old(pos))
      ensures !r.Broken? ==> pos == r.next && pos > old(pos)
    {
      ghost var start, s := pos, inbound[..arrived];
      var ok, header := ReadFull(HEADER_SIZE, arrived);
      if !ok {
        return Broken;
      }
      assert header == s[start..start + HEADER_SIZE];
      HeaderFields(s, start, header);
      var rawLen := U4At(header, 0);
      if rawLen < HEADER_SIZE {
        return Broken;
      }
      if rawLen > MAX_PACKET_LENGTH {
        return Broken;
      }
      var id, flags := ToInt32(U4At(header, 4)), header[8];
      var errCode := ToInt16(U2At(header, 9));
      hide U4At, U2At;
      var data: seq<byte> := [];
      if rawLen > HEADER_SIZE {
        ok, data := ReadFull(rawLen - HEADER_SIZE, arrived);
        if !ok {
          return Broken;
        }
      }
      assert data == s[start + HEADER_SIZE..start + rawLen];
      if flags == REPLY {
        var p := Packet(rawLen, id, flags, 0, 0, errCode, data);
        if errCode != 0 {
          return GotErrorReply(p, pos);
        }
        return Got(p, pos);
      }
      return Got(Packet(rawLen, id, flags, header[9], header[10], 0, data), pos);
    }

    /** Sends one command under a fresh id and waits for its reply. The connection takes `room`
        bytes, and before the deadline the peer's first `arrived` bytes come in. */
    method Send(cmdSet: byte, cmd: byte, data: seq<byte>, room: nat, arrived: nat) returns (r: SendResult)
      requires pos <= arrived <= |inbound|
      modifies this
      ensures nextID == ToInt32(LowU4(old(nextID) + 1))
      ensures var sent := PutPacket(Packet(0, nextID, 0, cmdSet, cmd, 0, data));
              && outbound == old(outbound) + (if |sent| <= room then sent else sent[..room])
              && r == if |sent| <= room then AwaitReply(inbound[..arrived], old(pos), nextID) else WriteFailed
      ensures old(pos) <= pos <= arrived
      ensures r.Reply? ==> pos == r.next
      ensures r == WriteFailed ==> pos == old(pos)
    {
      hide PutPacket, PacketAt;
      nextID := ToInt32(LowU4(nextID + 1));
      var id := nextID;
      var ok := WritePacket(Packet(0, id, 0, cmdSet, cmd, 0, data), room);
      if !ok {
        return WriteFailed;
      }
      ghost var sent := outbound;
      while true
        invariant old(pos) <= pos <= arrived && nextID == id && outbound == sent
        invariant AwaitReply(inbound[..arrived], pos, id) == AwaitReply(inbound[..arrived], old(pos), id)
        decreases arrived - pos
      {
        var reply := ReadPacket(arrived);
        if !reply.Got? {
          return ReadFailed;
        }
        var p := reply.packet;
        if p.flags < REPLY {
          continue;
        }
        if p.id != id {
          if p.id < id {
            continue;
          }
          return IdMismatch(p.id);
        }
        if p.errCode != 0 {
          return ErrorReply(p);
        }
        return Reply(p, reply.next);
      }
    }
  }

  lemma HeaderFields(s: seq<byte>, pos: nat, header: seq<byte>)
    requires pos + HEADER_SIZE <= |s| && header == s[pos..pos + HEADER_SIZE]
    ensures U4At(header, 0) == U4At(s, pos) && U4At(header, 4) == U4At(s, pos + 4)
        && U2At(header, 9) == U2At(s, pos + 9)
  {
  }
}
