/** Socket: the connection state, the three-way handshake of connect and
    accept (section 3.4 of RFC 793) as this version of the code performs it,
    checksumFor and isValid, and the state checks of read, write and close.
    The IP layer is not part of this model: every packet handed to ip_send
    is appended to the socket's `sent` log, and the packets ip_receive
    would deliver are given to connect and accept as an `inbox`; running
    out of inbox is where the Java call would block for ever. */
module Sockets {
  import opened Bytes
  import opened Outcomes
  import opened Segments
  import opened Checksum

  datatype ConnectionState = CLOSED | ESTABLISHED | READ_ONLY | WRITE_ONLY

  /** How a call that may block ends. */
  datatype Completion<T> = Returned(value: T) | Threw(error: JavaException) | Blocked

  /** IP.Packet: addresses, protocol number, id, the bytes and their count. */
  datatype Packet = Packet(source: uint32, destination: uint32, protocol: uint16, id: int,
                           data: seq<uint8>, length: int)

  /** A packet fromByteArray can copy into the 148-byte segment buffer. */
  predicate Deliverable(p: Packet)
  {
    0 <= p.length <= |p.data| && p.length <= CAPACITY
  }

  predicate AllDeliverable(ps: seq<Packet>)
  {
    forall i | 0 <= i < |ps| :: Deliverable(ps[i])
  }

  /** Whether isValid accepts the segment received from `p`. */
  predicate Admits(local: uint32, remote: uint32, protocol: uint16, p: Packet)
    requires Deliverable(p)
  {
    IsValid(local, remote, protocol, p.data[..p.length], p.length)
  }

  /** The segment buffer after fromByteArray has copied each of `ps` over
      `s` in turn. */
  function Received(s: seq<uint8>, ps: seq<Packet>): (r: seq<uint8>)
    requires |s| == CAPACITY
    requires AllDeliverable(ps)
    ensures |r| == CAPACITY
    decreases |ps|
  {
    if ps == [] then s
    else
      var last := ps[|ps| - 1];
      Overlay(Received(s, ps[..|ps| - 1]), last.data, last.length)
  }

  /** Packet `j` of `ps`, copied in over `s` and the packets before it, is
      admitted and leaves SYN set in the segment: accept's inner loop stops
      on it. */
  predicate SynAt(local: uint32, remote: uint32, protocol: uint16, s: seq<uint8>, ps: seq<Packet>, j: nat)
    requires |s| == CAPACITY && AllDeliverable(ps) && j < |ps|
  {
    Admits(local, remote, protocol, ps[j]) && HasFlag(Received(s, ps[..j + 1])[FLAGS_IX], SYN_FLAG)
  }

  /** accept's inner loop, run over `ps` from the buffer `s`, stops after
      taking the first `k` packets. */
  predicate FirstSyn(local: uint32, remote: uint32, protocol: uint16, s: seq<uint8>, ps: seq<Packet>, k: nat)
    requires |s| == CAPACITY && AllDeliverable(ps)
  {
    && 0 < k <= |ps|
    && SynAt(local, remote, protocol, s, ps, k - 1)
    && forall j | 0 <= j < k - 1 :: !SynAt(local, remote, protocol, s, ps, j)
  }

  /** accept's inner loop, run over `ps` from the buffer `s`, never stops. */
  predicate NoSyn(local: uint32, remote: uint32, protocol: uint16, s: seq<uint8>, ps: seq<Packet>)
    requires |s| == CAPACITY && AllDeliverable(ps)
  {
    forall j | 0 <= j < |ps| :: !SynAt(local, remote, protocol, s, ps, j)
  }

  /** A receive that takes `n` packets after the first `c` leaves the
      overlay of all `c + n`. */
  lemma {:induction false} ReceivedChunk(s0: seq<uint8>, inbox: seq<Packet>, c: nat, n: nat)
    requires |s0| == CAPACITY && AllDeliverable(inbox) && c + n <= |inbox|
    ensures AllDeliverable(inbox[..c]) && AllDeliverable(inbox[c..][..n]) && AllDeliverable(inbox[..c + n])
    ensures Received(Received(s0, inbox[..c]), inbox[c..][..n]) == Received(s0, inbox[..c + n])
    decreases n
  {
    DeliverableSlices(inbox, c, n);
    if n == 0 {
      assert inbox[c..][..n] == [] && inbox[..c + n] == inbox[..c];
    } else {
      ReceivedChunk(s0, inbox, c, n - 1);
      assert inbox[c..][..n][..n - 1] == inbox[c..][..n - 1];
      assert inbox[..c + n][..c + n - 1] == inbox[..c + n - 1];
      assert inbox[c..][..n][n - 1] == inbox[..c + n][c + n - 1];
    }
  }

  /** The packets before `c`, the `n` after it, and all `c + n` of a
      deliverable inbox are deliverable. */
  lemma {:induction false} DeliverableSlices(inbox: seq<Packet>, c: nat, n: nat)
    requires AllDeliverable(inbox) && c + n <= |inbox|
    ensures AllDeliverable(inbox[..c]) && AllDeliverable(inbox[c..][..n]) && AllDeliverable(inbox[..c + n])
  {
    forall i | 0 <= i < n ensures Deliverable(inbox[c..][..n][i]) {
      assert inbox[c..][..n][i] == inbox[c + i];
    }
  }

  /** Packets isValid rejects never stop accept's inner loop. */
  lemma {:induction false} RejectedHoldNoSyn(local: uint32, remote: uint32, protocol: uint16, s0: seq<uint8>, inbox: seq<Packet>,
                          c: nat, n: nat)
    requires |s0| == CAPACITY && AllDeliverable(inbox) && c + n <= |inbox|
    requires forall j | 0 <= j < n - 1 :: !Admits(local, remote, protocol, inbox[c..][j])
    ensures forall j | c <= j < c + n - 1 :: !SynAt(local, remote, protocol, s0, inbox, j)
  {
    forall j | c <= j < c + n - 1
      ensures !SynAt(local, remote, protocol, s0, inbox, j)
    {
      assert inbox[c..][j - c] == inbox[j];
    }
  }

  /** The packet at `k` stops accept's inner loop exactly when it is
      admitted and the overlay up to it, `b`, has SYN set. */
  lemma LastPacketSyn(local: uint32, remote: uint32, protocol: uint16, s0: seq<uint8>, inbox: seq<Packet>,
                      k: nat, b: seq<uint8>)
    requires |s0| == CAPACITY && AllDeliverable(inbox) && k < |inbox|
    requires AllDeliverable(inbox[..k + 1]) && b == Received(s0, inbox[..k + 1])
    ensures SynAt(local, remote, protocol, s0, inbox, k) <==>
      Admits(local, remote, protocol, inbox[k]) && HasFlag(b[FLAGS_IX], SYN_FLAG)
  {
  }

  /** One receiveSegment inside accept's inner loop: after `c` packets
      that held no SYN, it takes `n` more, none but the last admitted, and
      leaves `b` in the buffer.  Then `b` is the overlay of all `c + n`; the
      loop has found its first SYN when the last packet is admitted and `b`
      has SYN set, and otherwise none of the `c + n` holds one. */
  lemma {:induction false} ReceiveChunk(local: uint32, remote: uint32, protocol: uint16, s0: seq<uint8>,
                     inbox: seq<Packet>, c: nat, n: nat, b: seq<uint8>)
    requires |s0| == CAPACITY && AllDeliverable(inbox) && c + n <= |inbox|
    requires b == Received(Received(s0, inbox[..c]), inbox[c..][..n])
    requires forall j | 0 <= j < n - 1 :: !Admits(local, remote, protocol, inbox[c..][j])
    requires forall j | 0 <= j < c :: !SynAt(local, remote, protocol, s0, inbox, j)
    ensures |b| == CAPACITY && b == Received(s0, inbox[..c + n])
    ensures 0 < n && Admits(local, remote, protocol, inbox[c..][n - 1]) && HasFlag(b[FLAGS_IX], SYN_FLAG) ==>
      FirstSyn(local, remote, protocol, s0, inbox, c + n)
    ensures !(0 < n && Admits(local, remote, protocol, inbox[c..][n - 1]) && HasFlag(b[FLAGS_IX], SYN_FLAG)) ==>
      forall j | 0 <= j < c + n :: !SynAt(local, remote, protocol, s0, inbox, j)
  {
    ReceivedChunk(s0, inbox, c, n);
    RejectedHoldNoSyn(local, remote, protocol, s0, inbox, c, n);
    if 0 < n {
      var last := c + n - 1;
      assert inbox[c..][n - 1] == inbox[last];
      assert inbox[..last + 1] == inbox[..c + n];
      LastPacketSyn(local, remote, protocol, s0, inbox, last, b);
      assert forall j | 0 <= j < last :: !SynAt(local, remote, protocol, s0, inbox, j);
    }
  }

  /** isValid admits none of `ps`. */
  predicate NoneAdmitted(local: uint32, remote: uint32, protocol: uint16, ps: seq<Packet>)
    requires AllDeliverable(ps)
  {
    forall j | 0 <= j < |ps| :: !Admits(local, remote, protocol, ps[j])
  }

  /** receiveSegment, run over `ps`, stops on its last packet: isValid
      admits that packet and none before it. */
  predicate ReceivesLast(local: uint32, remote: uint32, protocol: uint16, ps: seq<Packet>)
    requires AllDeliverable(ps)
  {
    && 0 < |ps|
    && Admits(local, remote, protocol, ps[|ps| - 1])
    && forall j | 0 <= j < |ps| - 1 :: !Admits(local, remote, protocol, ps[j])
  }

  /** receiveSegment's outcome over the packets from `c` on, restated on
      the slice `inbox[c..c + n]` it took. */
  lemma {:induction false} ReplySlices(local: uint32, remote: uint32, protocol: uint16, inbox: seq<Packet>,
                    c: nat, n: nat, received: bool)
    requires AllDeliverable(inbox) && c + n <= |inbox|
    requires received <==> 0 < n && Admits(local, remote, protocol, inbox[c..][n - 1])
    requires forall j | 0 <= j < n - 1 :: !Admits(local, remote, protocol, inbox[c..][j])
    requires !received ==> c + n == |inbox|
    ensures AllDeliverable(inbox[c..]) && AllDeliverable(inbox[c..c + n]) && inbox[c..][..n] == inbox[c..c + n]
    ensures received <==> ReceivesLast(local, remote, protocol, inbox[c..c + n])
    ensures !received ==> NoneAdmitted(local, remote, protocol, inbox[c..])
  {
    assert inbox[c..][..n] == inbox[c..c + n];
    DeliverableSlices(inbox, c, n);
    assert forall j | 0 <= j < n :: inbox[c..c + n][j] == inbox[c..][j];
  }

  /** A round of accept that answered a SYN: run over `inbox[start..]`
      from the buffer `before`, its inner loop stopped on packet
      `synEnd - 1` with the header `syn`, it sent `answer`, the SYN-ACK for
      `syn`, and its wait for the reply took `inbox[synEnd..consumed]`,
      leaving `after`. */
  predicate AnsweredRound(local: uint32, remote: uint32, protocol: uint16, localPort: uint16, isn: uint32,
                          inbox: seq<Packet>, start: nat, synEnd: nat, consumed: nat, before: seq<uint8>,
                          syn: Header, answer: Packet, after: seq<uint8>, returned: bool,
                          remotePort: uint16, remoteSequenceNumber: uint32, localSequenceNumber: uint32)
    requires AllDeliverable(inbox) && start <= synEnd <= consumed <= |inbox| && |before| == CAPACITY
  {
    DeliverableSlices(inbox, start, synEnd - start);
    DeliverableSlices(inbox, synEnd, consumed - synEnd);
    DeliverableSlices(inbox, synEnd, |inbox| - synEnd);
    assert inbox[synEnd..][..consumed - synEnd] == inbox[synEnd..consumed];
    assert inbox[synEnd..][..|inbox| - synEnd] == inbox[synEnd..];
    && FirstSyn(local, remote, protocol, before, inbox[start..], synEnd - start)
    && syn == HeaderOf(Received(before, inbox[start..][..synEnd - start]))
    && HasFlag(syn.flags, SYN_FLAG)
    && AnswersSyn(answer, syn, local, remote, protocol, localPort, isn)
    && after == Received(answer.data, inbox[synEnd..consumed])
    && remotePort == syn.fromPort && remoteSequenceNumber == syn.seqNumber
    && localSequenceNumber == Add32(isn, 1)
    && (returned <==> ReceivesLast(local, remote, protocol, inbox[synEnd..consumed]))
    && (!returned ==> consumed == |inbox| && NoneAdmitted(local, remote, protocol, inbox[synEnd..]))
  }

  /** isValid decides on the packet's own bytes, whatever stale bytes the
      segment buffer holds beyond them. */
  lemma AdmitsOverlay(local: uint32, remote: uint32, protocol: uint16, stale: seq<uint8>, p: Packet)
    requires |stale| == CAPACITY && Deliverable(p)
    ensures IsValid(local, remote, protocol, Overlay(stale, p.data, p.length), p.length)
            == Admits(local, remote, protocol, p)
  {
    var o := Overlay(stale, p.data, p.length);
    assert o[..p.length] == p.data[..p.length][..p.length];
    ChecksumReadsPrefix(local, remote, protocol, o, p.data[..p.length], p.length);
  }

  /** Only packets shorter than a header get through isValid. */
  lemma AdmittedPacketsAreShort(local: uint32, remote: uint32, protocol: uint16, p: Packet)
    requires Deliverable(p) && Admits(local, remote, protocol, p)
    ensures p.length < TCP_HEADER_LENGTH
  {
    IsValidRejectsFullSegments(local, remote, protocol, p.data[..p.length], p.length);
  }

  // ---------------------------------------------------------------------
  // The handshake tests

  /** connect's test of the reply to its SYN: from the remote port, SYN and
      ACK set, acknowledging the local sequence number plus one. */
  predicate SynAckAccepted(h: Header, remotePort: uint16, localSeq: uint32)
  {
    h.fromPort == remotePort && HasFlag(h.flags, SYN_FLAG) && HasFlag(h.flags, ACK_FLAG)
    && h.ackNumber == Add32(localSeq, 1)
  }

  /** accept's test of the final ACK, with `localSeq` already incremented
      past the SYN-ACK: from the remote port, ACK without SYN, acknowledging
      `localSeq` plus one. */
  predicate AckAccepted(h: Header, remotePort: uint16, localSeq: uint32)
  {
    h.fromPort == remotePort && !HasFlag(h.flags, SYN_FLAG) && HasFlag(h.flags, ACK_FLAG)
    && h.ackNumber == Add32(localSeq, 1)
  }

  /** The final ACK a passive opener of section 3.4 of RFC 793 accepts: it
      acknowledges the SYN-ACK, whose sequence number was `iss`, so it
      carries `iss + 1`. */
  predicate Rfc793FinalAck(h: Header, remotePort: uint16, iss: uint32)
  {
    h.fromPort == remotePort && !HasFlag(h.flags, SYN_FLAG) && HasFlag(h.flags, ACK_FLAG)
    && h.ackNumber == Add32(iss, 1)
  }

  /** The SYN-ACK accept sends in answer to a SYN with sequence number
      `clientIsn` passes connect's test. */
  lemma SynAckPassesConnect(h: Header, serverPort: uint16, clientIsn: uint32)
    requires h.fromPort == serverPort && h.flags == SYN_FLAG + ACK_FLAG
    requires h.ackNumber == Add32(clientIsn, 1)
    ensures SynAckAccepted(h, serverPort, clientIsn)
  {
    FlagBits();
  }

  /** The ACK connect sends in answer to a SYN-ACK with sequence number
      `serverIsn` is the one section 3.4 of RFC 793 expects, yet accept,
      which has incremented its sequence number to `serverIsn + 1` and
      waits for `serverIsn + 2`, rejects it: the handshake between two
      such sockets cannot complete. */
  lemma ConnectAckFailsAccept(h: Header, clientPort: uint16, serverIsn: uint32)
    requires h.fromPort == clientPort && h.flags == ACK_FLAG
    requires h.ackNumber == Add32(serverIsn, 1)
    ensures Rfc793FinalAck(h, clientPort, serverIsn)
    ensures !AckAccepted(h, clientPort, Add32(serverIsn, 1))
  {
    FlagBits();
  }

  /** No final ACK satisfies both accept's test and that of RFC 793. */
  lemma AcceptAndRfc793Disjoint(h: Header, remotePort: uint16, iss: uint32)
    ensures AckAccepted(h, remotePort, Add32(iss, 1)) ==> !Rfc793FinalAck(h, remotePort, iss)
  {
  }

  /** A reply too short to reach the flags byte leaves the flags of the SYN
      that connect sent in the buffer, so connect's test fails on it; with
      isValid admitting only packets shorter than a header, connect can
      succeed only on a reply of 14 to 19 bytes. */
  lemma ConnectNeedsFlagsInReply(syn: seq<uint8>, p: Packet, remotePort: uint16, localSeq: uint32)
    requires |syn| == CAPACITY && HeaderOf(syn).flags == SYN_FLAG
    requires Deliverable(p) && p.length <= FLAGS_IX
    ensures !SynAckAccepted(HeaderOf(Overlay(syn, p.data, p.length)), remotePort, localSeq)
  {
    var o := Overlay(syn, p.data, p.length);
    assert o[FLAGS_IX] == syn[FLAGS_IX];
    FlagBits();
  }

  // ---------------------------------------------------------------------
  // Packets the socket sends

  /** A packet of this socket whose header carries the given ports,
      sequence number and flags, and a window of 1. */
  predicate Carries(p: Packet, src: uint32, dst: uint32, protocol: uint16,
                    fromPort: uint16, toPort: uint16, seqNumber: uint32, flags: uint8)
  {
    && p.source == src && p.destination == dst && p.protocol == protocol && p.id == 1
    && |p.data| == CAPACITY
    && var h := HeaderOf(p.data);
    && h.fromPort == fromPort && h.toPort == toPort && h.seqNumber == seqNumber
    && h.flags == flags && h.window == 1
  }

  function AckOf(p: Packet): uint32
    requires |p.data| == CAPACITY
  {
    HeaderOf(p.data).ackNumber
  }

  /** `p` is this socket's SYN-ACK with sequence number `isn` answering
      `syn`: addressed to its source port, acknowledging its sequence
      number plus one. */
  predicate AnswersSyn(p: Packet, syn: Header, src: uint32, dst: uint32, protocol: uint16,
                       fromPort: uint16, isn: uint32)
  {
    && Carries(p, src, dst, protocol, fromPort, syn.fromPort, isn, SYN_FLAG + ACK_FLAG)
    && AckOf(p) == Add32(syn.seqNumber, 1)
  }

  /** Every packet in `ps` is a SYN-ACK of this socket with sequence
      number `isn`. */
  predicate SynAcks(ps: seq<Packet>, src: uint32, dst: uint32, protocol: uint16, fromPort: uint16, isn: uint32)
  {
    forall i | 0 <= i < |ps| :: IsSynAck(ps[i], src, dst, protocol, fromPort, isn)
  }

  /** `p` is a SYN-ACK of this socket with sequence number `isn`, to
      whichever port. */
  predicate IsSynAck(p: Packet, src: uint32, dst: uint32, protocol: uint16, fromPort: uint16, isn: uint32)
  {
    |p.data| == CAPACITY && Carries(p, src, dst, protocol, fromPort, HeaderOf(p.data).toPort, isn, SYN_FLAG + ACK_FLAG)
  }

  /** A round of accept sends at most one packet, the SYN-ACK answering
      `syn`, so `SynAcks` still holds of what was sent since `start`. */
  lemma {:induction false} SynAcksAppend(before: seq<Packet>, after: seq<Packet>, start: nat, syn: Header,
                      src: uint32, dst: uint32, protocol: uint16, fromPort: uint16, isn: uint32)
    requires start <= |before| <= |after| <= |before| + 1 && after[..|before|] == before
    requires SynAcks(before[start..], src, dst, protocol, fromPort, isn)
    requires |before| < |after| ==> AnswersSyn(after[|after| - 1], syn, src, dst, protocol, fromPort, isn)
    ensures SynAcks(after[start..], src, dst, protocol, fromPort, isn)
  {
    if |before| == |after| {
      assert after == before;
    } else {
      forall i | 0 <= i < |after[start..]|
        ensures IsSynAck(after[start..][i], src, dst, protocol, fromPort, isn)
      {
        if i < |before[start..]| {
          assert after[start..][i] == before[start..][i];
        }
      }
    }
  }

  /** A round of accept that answered the SYN `syn` with `answer` over
      `inbox[start..end]`, beginning with `before` in the buffer; `synEnd`
      is where its inner loop stopped. */
  datatype Round = Round(start: nat, synEnd: nat, end: nat, before: seq<uint8>, syn: Header, answer: Packet)

  /** `r` answered a SYN and received a reply, leaving `after` in the
      buffer, and that reply failed accept's test, so the loop went round
      again. */
  predicate Rejected(local: uint32, remote: uint32, protocol: uint16, localPort: uint16, isn: uint32,
                     inbox: seq<Packet>, r: Round, after: seq<uint8>)
    requires AllDeliverable(inbox)
  {
    && r.start <= r.synEnd <= r.end <= |inbox| && |r.before| == CAPACITY
    && AnsweredRound(local, remote, protocol, localPort, isn, inbox, r.start, r.synEnd, r.end, r.before,
                     r.syn, r.answer, after, true, r.syn.fromPort, r.syn.seqNumber, Add32(isn, 1))
    && !AckAccepted(HeaderOf(after), r.syn.fromPort, Add32(isn, 1))
  }

  /** A sequence one longer than `a` that starts with `a` is `a` plus its
      last element. */
  lemma AppendedOne<T>(a: seq<T>, b: seq<T>, x: T)
    requires |b| == |a| + 1 && b[..|a|] == a && b[|a|] == x
    ensures b == a + [x]
  {
    assert b == b[..|a|] + [b[|a|]];
  }

  /** Concatenation is associative. */
  lemma AppendedRest<T>(a: seq<T>, b: seq<T>, c: seq<T>)
    ensures a + (b + c) == a + b + c
  {
  }

  /** What was sent before the rounds, then each round's SYN-ACK, extends
      by the SYN-ACK of one more round. */
  lemma AnswersAppend(sent0: seq<Packet>, rounds: seq<Round>, r: Round, sent: seq<Packet>)
    requires sent == sent0 + Answers(rounds) + [r.answer]
    ensures sent == sent0 + Answers(rounds + [r])
  {
    assert (rounds + [r])[..|rounds|] == rounds;
  }

  /** The SYN-ACKs the rounds sent, in order. */
  function Answers(rounds: seq<Round>): (ps: seq<Packet>)
    ensures |ps| == |rounds| && forall i | 0 <= i < |rounds| :: ps[i] == rounds[i].answer
  {
    if rounds == [] then [] else Answers(rounds[..|rounds| - 1]) + [rounds[|rounds| - 1].answer]
  }

  /** The rounds of accept's `for (;;)` before the current one: they follow
      one another from the start of `inbox` and the buffer `s0`, each
      rejected, and the current round starts at `start` with `before` in
      the buffer. */
  predicate RejectedRounds(local: uint32, remote: uint32, protocol: uint16, localPort: uint16, isn: uint32,
                           inbox: seq<Packet>, s0: seq<uint8>, rounds: seq<Round>, start: nat, before: seq<uint8>)
    requires AllDeliverable(inbox)
    decreases |rounds|
  {
    if rounds == [] then start == 0 && before == s0
    else
      var last := rounds[|rounds| - 1];
      && RejectedRounds(local, remote, protocol, localPort, isn, inbox, s0, rounds[..|rounds| - 1],
                        last.start, last.before)
      && last.end == start
      && Rejected(local, remote, protocol, localPort, isn, inbox, last, before)
  }

  /** A round that answered a SYN and whose reply failed accept's test,
      starting where the earlier rejected rounds left off, extends them. */
  lemma RejectedRoundsExtend(local: uint32, remote: uint32, protocol: uint16, localPort: uint16, isn: uint32,
                             inbox: seq<Packet>, s0: seq<uint8>, rounds: seq<Round>, start: nat, synEnd: nat,
                             end: nat, before: seq<uint8>, syn: Header, answer: Packet, after: seq<uint8>,
                             remotePort: uint16, remoteSequenceNumber: uint32, localSequenceNumber: uint32)
    requires AllDeliverable(inbox) && start <= synEnd <= end <= |inbox| && |before| == CAPACITY
    requires RejectedRounds(local, remote, protocol, localPort, isn, inbox, s0, rounds, start, before)
    requires AnsweredRound(local, remote, protocol, localPort, isn, inbox, start, synEnd, end, before, syn, answer,
                           after, true, remotePort, remoteSequenceNumber, localSequenceNumber)
    requires !AckAccepted(HeaderOf(after), remotePort, localSequenceNumber)
    ensures RejectedRounds(local, remote, protocol, localPort, isn, inbox, s0,
                           rounds + [Round(start, synEnd, end, before, syn, answer)], end, after)
  {
    var r := Round(start, synEnd, end, before, syn, answer);
    assert (rounds + [r])[..|rounds|] == rounds;
  }

  /** Every round before the current one sent a SYN-ACK with sequence
      number `isn`. */
  lemma {:induction false} RejectedRoundsSynAcks(local: uint32, remote: uint32, protocol: uint16, localPort: uint16,
                                                 isn: uint32, inbox: seq<Packet>, s0: seq<uint8>, rounds: seq<Round>,
                                                 start: nat, before: seq<uint8>)
    requires AllDeliverable(inbox) && RejectedRounds(local, remote, protocol, localPort, isn, inbox, s0, rounds, start, before)
    ensures SynAcks(Answers(rounds), local, remote, protocol, localPort, isn)
    decreases |rounds|
  {
    if rounds != [] {
      var last := rounds[|rounds| - 1];
      RejectedRoundsSynAcks(local, remote, protocol, localPort, isn, inbox, s0, rounds[..|rounds| - 1],
                            last.start, last.before);
      SynAcksAppend(Answers(rounds[..|rounds| - 1]), Answers(rounds), 0, last.syn, local, remote, protocol,
                    localPort, isn);
    }
  }

  /** The rejected rounds' SYN-ACKs, followed by the current round's
      answer when it sent one, are all SYN-ACKs with sequence number
      `isn`. */
  lemma SentSynAcks(local: uint32, remote: uint32, protocol: uint16, localPort: uint16, isn: uint32,
                    inbox: seq<Packet>, s0: seq<uint8>, rounds: seq<Round>, start: nat, before: seq<uint8>,
                    answered: bool, syn: Header, answer: Packet)
    requires AllDeliverable(inbox) && RejectedRounds(local, remote, protocol, localPort, isn, inbox, s0, rounds, start, before)
    requires answered ==> AnswersSyn(answer, syn, local, remote, protocol, localPort, isn)
    ensures SynAcks(Answers(rounds) + (if answered then [answer] else []), local, remote, protocol, localPort, isn)
  {
    RejectedRoundsSynAcks(local, remote, protocol, localPort, isn, inbox, s0, rounds, start, before);
    if answered {
      SynAcksAppend(Answers(rounds), Answers(rounds) + [answer], 0, syn, local, remote, protocol, localPort, isn);
    } else {
      assert Answers(rounds) + [] == Answers(rounds);
    }
  }

  class Socket {
    var state: ConnectionState
    /** IP.TCP_PROTOCOL. */
    const protocol: uint16
    const localAddress: uint32
    var remoteAddress: uint32
    const localPort: uint16
    var remotePort: uint16
    var localSequenceNumber: uint32
    var remoteSequenceNumber: uint32
    /** The one segment the socket builds and receives into. */
    const segment: TcpSegment
    /** Every packet handed to ip_send, in order. */
    var sent: seq<Packet>

    ghost predicate Valid()
      reads this, segment
    {
      segment.Valid() && 0 <= segment.length <= CAPACITY
    }

    /** A socket starts CLOSED with a fresh segment and nothing sent. */
    constructor (localAddress: uint32, localPort: uint16, protocol: uint16)
      ensures Valid() && fresh(segment) && fresh(segment.buffer)
      ensures state == CLOSED && sent == []
      ensures this.localAddress == localAddress && this.localPort == localPort
      ensures this.protocol == protocol
      ensures segment.length == TCP_HEADER_LENGTH && segment.buffer[..] == Zeros(CAPACITY)
    {
      state := CLOSED;
      this.protocol := protocol;
      this.localAddress := localAddress;
      remoteAddress := 0;
      this.localPort := localPort;
      remotePort := 0;
      localSequenceNumber := 0;
      remoteSequenceNumber := 0;
      segment := new TcpSegment();
      sent := [];
    }

    /** checksumFor: the pseudo-header terms, the big-endian words of the
        segment's first `length` bytes, an odd trailing byte, one carry
        fold and the complement. */
    method ChecksumFor(seg: TcpSegment) returns (r: uint16)
      requires seg.Valid() && 0 <= seg.length <= CAPACITY
      ensures r == ChecksumOf(localAddress, remoteAddress, protocol, seg.buffer[..], seg.length)
    {
      var sum: int := 0;
      sum := sum + (localAddress / 0x1_0000 + localAddress) % 0x1_0000;
      sum := sum + (remoteAddress / 0x1_0000 + remoteAddress) % 0x1_0000;
      sum := sum + protocol;
      sum := sum + (seg.length / 0x1_0000 + seg.length) % 0x1_0000;
      ghost var pseudo := sum;
      var i := 0;
      ghost var words := 0;
      while i < seg.length - 1
        invariant 0 <= i <= seg.length && i == 2 * words
        invariant sum == pseudo + WordSum(seg.buffer[..], words)
      {
        assert GetShort(seg.buffer[..], i) == seg.buffer[i] as int * 0x100 + seg.buffer[i + 1];
        sum := sum + (seg.buffer[i] as int * 0x100 + seg.buffer[i + 1]);
        i, words := i + 2, words + 1;
      }
      assert words == seg.length / 2;
      if seg.length % 2 != 0 {
        var b := seg.buffer[seg.length - 1];
        sum := sum + (if b < 0x80 then b as int else b as int + 0xff00) * 0x100;
      }
      sum := sum + sum / 0x1_0000;
      r := 0xffff - sum % 0x1_0000;
    }

    /** isValid: shorter than a header and checksumming to zero; the
        checksum is computed only when the length test passes. */
    method IsValid(seg: TcpSegment) returns (b: bool)
      requires seg.Valid() && 0 <= seg.length <= CAPACITY
      ensures b == Checksum.IsValid(localAddress, remoteAddress, protocol, seg.buffer[..], seg.length)
    {
      if seg.length < TCP_HEADER_LENGTH {
        var c := ChecksumFor(seg);
        b := c == 0;
      } else {
        b := false;
      }
    }

    /** sendSegment: stores checksumFor in the checksum field, then hands
        the segment's array and length to ip_send. */
    method SendSegment(seg: TcpSegment)
      requires seg.Valid() && 0 <= seg.length <= CAPACITY
      modifies this`sent, seg.buffer
      ensures seg.buffer[..] == PutShort(old(seg.buffer[..]), CHECKSUM_IX,
        ChecksumOf(localAddress, remoteAddress, protocol, old(seg.buffer[..]), seg.length))
      ensures seg.Fields() == old(seg.Fields()).(checksum := seg.Fields().checksum)
      ensures sent == old(sent) + [Packet(localAddress, remoteAddress, protocol, 1, seg.buffer[..], seg.length)]
    {
      var c := ChecksumFor(seg);
      seg.SetChecksum(c);
      var data := seg.ToByteArray();
      sent := sent + [Packet(localAddress, remoteAddress, protocol, 1, data[..], seg.length)];
    }

    /** receiveSegment: copies packets from the inbox into the segment
        until isValid accepts one.  `consumed` counts the packets taken;
        `received` is false when the inbox ran out first. */
    method ReceiveSegment(inbox: seq<Packet>) returns (consumed: nat, received: bool)
      requires Valid() && AllDeliverable(inbox)
      modifies segment, segment.buffer
      ensures Valid() && consumed <= |inbox|
      ensures segment.buffer[..] == Received(old(segment.buffer[..]), inbox[..consumed])
      ensures consumed > 0 ==> segment.length == inbox[consumed - 1].length
      ensures consumed == 0 ==> segment.length == old(segment.length)
      ensures received <==> 0 < consumed && Admits(localAddress, remoteAddress, protocol, inbox[consumed - 1])
      ensures forall j | 0 <= j < consumed - 1 :: !Admits(localAddress, remoteAddress, protocol, inbox[j])
      ensures !received ==> consumed == |inbox|
    {
      consumed, received := 0, false;
      while !received && consumed < |inbox|
        invariant Valid() && consumed <= |inbox|
        invariant segment.buffer[..] == Received(old(segment.buffer[..]), inbox[..consumed])
        invariant consumed > 0 ==> segment.length == inbox[consumed - 1].length
        invariant consumed == 0 ==> segment.length == old(segment.length) && !received
        invariant received <==> 0 < consumed && Admits(localAddress, remoteAddress, protocol, inbox[consumed - 1])
        invariant forall j | 0 <= j < consumed - 1 :: !Admits(localAddress, remoteAddress, protocol, inbox[j])
        decreases |inbox| - consumed
      {
        received := ReceiveOne(inbox[consumed]);
        assert inbox[..consumed + 1][..consumed] == inbox[..consumed];
        consumed := consumed + 1;
      }
    }

    /** One pass of receiveSegment's loop: `ip_receive` delivers `p` in a
        fresh array, fromByteArray copies it in and isValid judges it. */
    method ReceiveOne(p: Packet) returns (admitted: bool)
      requires Valid() && Deliverable(p)
      modifies segment, segment.buffer
      ensures Valid() && segment.length == p.length
      ensures segment.buffer[..] == Overlay(old(segment.buffer[..]), p.data, p.length)
      ensures admitted == Admits(localAddress, remoteAddress, protocol, p)
    {
      var data := new uint8[|p.data|](k requires 0 <= k < |p.data| => p.data[k]);
      assert data[..] == p.data;
      ghost var stale := segment.buffer[..];
      segment.FromByteArray(data, p.length);
      AdmitsOverlay(localAddress, remoteAddress, protocol, stale, p);
      admitted := IsValid(segment);
    }

    /** The setter sequence connect and accept run before each send: ports,
        sequence number, optionally the acknowledgment number, flags, a
        window of 1; then sendSegment.  The checksum field is never cleared,
        so the checksum sent is that of the packet with the field's old
        value in place of it. */
    method SendControl(seqNumber: uint32, setAck: bool, ack: uint32, flags: uint8)
      requires Valid()
      modifies this`sent, segment.buffer
      ensures Valid()
      ensures |sent| == |old(sent)| + 1 && sent[..|old(sent)|] == old(sent)
      ensures Carries(sent[|old(sent)|], localAddress, remoteAddress, protocol,
                      localPort, remotePort, seqNumber, flags)
      ensures setAck ==> AckOf(sent[|old(sent)|]) == ack
      ensures !setAck ==> AckOf(sent[|old(sent)|]) == old(segment.Fields().ackNumber)
      ensures sent[|old(sent)|].data == segment.buffer[..]
      ensures sent[|old(sent)|].length == segment.length
      ensures forall k | 0 <= k < CAPACITY && (k == 12 || DATA_IX - 2 <= k) ::
        sent[|old(sent)|].data[k] == old(segment.buffer[k])
      ensures GetShort(sent[|old(sent)|].data, CHECKSUM_IX)
        == ChecksumOf(localAddress, remoteAddress, protocol,
                      PutShort(sent[|old(sent)|].data, CHECKSUM_IX, old(segment.Fields().checksum)), segment.length)
    {
      SetControlFields(seqNumber, setAck, ack, flags);
      ghost var fields := segment.buffer[..];
      GetShortFrame(fields, old(segment.buffer[..]), CHECKSUM_IX);
      SendSegment(segment);
      PutShortUndo(fields, CHECKSUM_IX, ChecksumOf(localAddress, remoteAddress, protocol, fields, segment.length));
    }

    /** The setters alone: the header fields they name change, and byte 12,
        the checksum field, the urgent pointer and the data area keep their
        bytes. */
    method SetControlFields(seqNumber: uint32, setAck: bool, ack: uint32, flags: uint8)
      requires Valid()
      modifies segment.buffer
      ensures Valid()
      ensures segment.Fields() == old(segment.Fields()).(fromPort := localPort, toPort := remotePort,
        seqNumber := seqNumber, ackNumber := if setAck then ack else old(segment.Fields().ackNumber),
        flags := flags, window := 1)
      ensures forall k | 0 <= k < CAPACITY && (k == 12 || CHECKSUM_IX <= k) ::
        segment.buffer[k] == old(segment.buffer[k])
    {
      segment.SetFromPort(localPort);
      segment.SetToPort(remotePort);
      segment.SetSeq(seqNumber);
      if setAck {
        segment.SetAck(ack);
      }
      segment.SetFlags(flags);
      segment.SetWindowSize(1);
    }

    /** connect: from CLOSED only; sends a SYN, receives a reply and, if it
        passes connect's test, records the reply's sequence number, sends
        an ACK and becomes ESTABLISHED; otherwise stays CLOSED and returns
        false.  `reply` is the header connect tested and `consumed` the
        number of packets the receive took. */
    method Connect(dst: uint32, port: int, isn: uint32, inbox: seq<Packet>)
      returns (r: Completion<bool>, ghost reply: Header, ghost consumed: nat)
      requires Valid() && AllDeliverable(inbox)
      modifies this, segment, segment.buffer
      ensures Valid()
      ensures old(state) != CLOSED ==>
        r == Threw(IllegalState) && unchanged(this) && unchanged(segment) && unchanged(segment.buffer)
      ensures old(state) == CLOSED ==>
        && localSequenceNumber == isn && remoteAddress == dst && remotePort == ToShort(port)
        && |old(sent)| < |sent| && sent[..|old(sent)|] == old(sent)
        && Carries(sent[|old(sent)|], localAddress, dst, protocol, localPort, ToShort(port), isn, SYN_FLAG)
        && (r.Blocked? || r.Returned?)
      ensures r.Blocked? ==>
        state == CLOSED && forall j | 0 <= j < |inbox| :: !Admits(localAddress, dst, protocol, inbox[j])
      ensures r.Returned? ==>
        && 0 < consumed <= |inbox|
        && Admits(localAddress, dst, protocol, inbox[consumed - 1])
        && (forall j | 0 <= j < consumed - 1 :: !Admits(localAddress, dst, protocol, inbox[j]))
        && reply == HeaderOf(Received(sent[|old(sent)|].data, inbox[..consumed]))
        && (r.value <==> SynAckAccepted(reply, ToShort(port), isn))
      ensures r == Returned(false) ==>
        state == CLOSED && |sent| == |old(sent)| + 1 && segment.Fields() == reply
      ensures r.Blocked? ==> consumed == |inbox| && |sent| == |old(sent)| + 1
      ensures old(state) == CLOSED && r != Returned(true) ==>
        && remoteSequenceNumber == old(remoteSequenceNumber)
        && segment.buffer[..] == Received(sent[|old(sent)|].data, inbox[..consumed])
      ensures r == Returned(true) ==>
        && state == ESTABLISHED && remoteSequenceNumber == reply.seqNumber
        && |sent| == |old(sent)| + 2
        && Carries(sent[|old(sent)| + 1], localAddress, dst, protocol, localPort, ToShort(port), isn, ACK_FLAG)
        && AckOf(sent[|old(sent)| + 1]) == Add32(reply.seqNumber, 1)
    {
      reply, consumed := segment.Fields(), 0;
      if state != CLOSED {
        return Threw(IllegalState), reply, consumed;
      }
      localSequenceNumber := isn;
      remoteAddress := dst;
      remotePort := ToShort(port);
      SendControl(localSequenceNumber, false, 0, SYN_FLAG);
      ghost var syn := sent[|sent| - 1];
      assert syn == sent[|old(sent)|];
      r, reply, consumed := AwaitSynAck(inbox);
    }

    /** The second half of connect: receives the reply, tests it and, when
        it passes, records its sequence number, sends the ACK and becomes
        ESTABLISHED. */
    method AwaitSynAck(inbox: seq<Packet>) returns (r: Completion<bool>, ghost reply: Header, ghost consumed: nat)
      requires Valid() && AllDeliverable(inbox)
      modifies this`remoteSequenceNumber, this`sent, this`state, segment, segment.buffer
      ensures Valid()
      ensures r.Blocked? || r.Returned?
      ensures r != Returned(true) ==> state == old(state) && sent == old(sent)
      ensures r.Blocked? ==> forall j | 0 <= j < |inbox| :: !Admits(localAddress, remoteAddress, protocol, inbox[j])
      ensures r.Returned? ==>
        && 0 < consumed <= |inbox|
        && Admits(localAddress, remoteAddress, protocol, inbox[consumed - 1])
        && (forall j | 0 <= j < consumed - 1 :: !Admits(localAddress, remoteAddress, protocol, inbox[j]))
        && reply == HeaderOf(Received(old(segment.buffer[..]), inbox[..consumed]))
        && (r.value <==> SynAckAccepted(reply, remotePort, localSequenceNumber))
      ensures r == Returned(false) ==> segment.Fields() == reply
      ensures r.Blocked? ==> consumed == |inbox|
      ensures r != Returned(true) ==>
        && remoteSequenceNumber == old(remoteSequenceNumber)
        && segment.buffer[..] == Received(old(segment.buffer[..]), inbox[..consumed])
      ensures r == Returned(true) ==>
        && state == ESTABLISHED && remoteSequenceNumber == reply.seqNumber
        && |sent| == |old(sent)| + 1 && sent[..|old(sent)|] == old(sent)
        && Carries(sent[|old(sent)|], localAddress, remoteAddress, protocol, localPort, remotePort,
                   localSequenceNumber, ACK_FLAG)
        && AckOf(sent[|old(sent)|]) == Add32(reply.seqNumber, 1)
    {
      var received;
      consumed, received := ReceiveSegment(inbox);
      reply := segment.Fields();
      if !received {
        return Blocked, reply, consumed;
      }
      var accepted := AnswerSynAck();
      return Returned(accepted), reply, consumed;
    }

    /** connect's test of the received segment and, when it passes, the
        recorded sequence number, the ACK and the move to ESTABLISHED. */
    method AnswerSynAck() returns (accepted: bool)
      requires Valid()
      modifies this`remoteSequenceNumber, this`sent, this`state, segment.buffer
      ensures Valid()
      ensures accepted == SynAckAccepted(old(segment.Fields()), remotePort, localSequenceNumber)
      ensures !accepted ==> unchanged(this) && unchanged(segment.buffer)
      ensures accepted ==>
        && state == ESTABLISHED && remoteSequenceNumber == old(segment.Fields()).seqNumber
        && |sent| == |old(sent)| + 1 && sent[..|old(sent)|] == old(sent)
        && Carries(sent[|old(sent)|], localAddress, remoteAddress, protocol, localPort, remotePort,
                   localSequenceNumber, ACK_FLAG)
        && AckOf(sent[|old(sent)|]) == Add32(remoteSequenceNumber, 1)
    {
      accepted := segment.GetFromPort() == remotePort && HasFlag(segment.Flags(), SYN_FLAG)
        && HasFlag(segment.Flags(), ACK_FLAG) && segment.GetAck() == Add32(localSequenceNumber, 1);
      if accepted {
        remoteSequenceNumber := segment.GetSeq();
        SendControl(localSequenceNumber, true, Add32(remoteSequenceNumber, 1), ACK_FLAG);
        state := ESTABLISHED;
      }
    }

    /** accept: only from CLOSED; otherwise, round after round, waits for
        a SYN, takes the remote port and sequence number from it, answers
        with a SYN-ACK, increments the local sequence number and becomes
        ESTABLISHED on the first reply that passes accept's test, starting
        over with the next SYN otherwise.  It never returns false and blocks
        only once the inbox is used up.  `rounds` are the rounds whose reply
        failed the test and `consumed` the number of packets taken.  The
        last round began at `start` with `before` in the buffer; `answered`
        tells whether it answered a SYN, `syn`, the packet just before
        `synEnd`, with `answer`, which left `after` in the buffer. */
    method Accept(isn: uint32, inbox: seq<Packet>)
      returns (r: Completion<()>, ghost rounds: seq<Round>, ghost syn: Header, consumed: nat, ghost start: nat,
               ghost synEnd: nat, ghost before: seq<uint8>, ghost answered: bool, ghost answer: Packet,
               ghost after: seq<uint8>)
      requires Valid() && AllDeliverable(inbox)
      modifies this`state, this`localSequenceNumber, this`remotePort, this`remoteSequenceNumber, this`sent
      modifies segment, segment.buffer
      ensures Valid() && start <= synEnd <= consumed <= |inbox| && |before| == CAPACITY
      ensures AllDeliverable(inbox[start..]) && AllDeliverable(inbox[synEnd..consumed])
      ensures old(state) != CLOSED ==>
        r == Threw(IllegalState) && unchanged(this) && unchanged(segment) && unchanged(segment.buffer)
      ensures old(state) == CLOSED ==> r.Returned? || r.Blocked?
      ensures RejectedRounds(localAddress, remoteAddress, protocol, localPort, isn, inbox, old(segment.buffer[..]),
                             rounds, start, before)
      ensures sent == old(sent) + Answers(rounds) + (if answered then [answer] else [])
      ensures SynAcks(Answers(rounds) + (if answered then [answer] else []),
                      localAddress, remoteAddress, protocol, localPort, isn)
      ensures after == segment.buffer[..]
      ensures r.Blocked? ==> state == CLOSED && consumed == |inbox|
      ensures r.Blocked? && !answered ==> NoSyn(localAddress, remoteAddress, protocol, before, inbox[start..])
      ensures answered <==>
        AnsweredRound(localAddress, remoteAddress, protocol, localPort, isn, inbox, start, synEnd, consumed,
                      before, syn, answer, after, r.Returned?, remotePort, remoteSequenceNumber, localSequenceNumber)
      ensures r.Returned? ==>
        state == ESTABLISHED && answered && AckAccepted(HeaderOf(after), remotePort, localSequenceNumber)
    {
      if state != CLOSED {
        return Threw(IllegalState), [], segment.Fields(), 0, 0, 0, segment.buffer[..], false,
          Packet(0, 0, 0, 0, [], 0), segment.buffer[..];
      }
      ghost var s0 := segment.buffer[..];
      var outcome;
      outcome, rounds, syn, consumed, start, synEnd, before, answered, answer, after := AcceptLoop(isn, inbox);
      r := if outcome.Blocked? then Blocked else Returned(());
      SentSynAcks(localAddress, remoteAddress, protocol, localPort, isn, inbox, s0, rounds, start, before,
                  answered, syn, answer);
    }

    /** accept's `for (;;)`: rounds until one blocks or receives a reply
        that passes accept's test (`Returned(true)`).  `rounds` are the
        rounds whose reply failed the test, in order; the last round, the
        one that ended the loop, began at `start` with `before` in the
        buffer. */
    method AcceptLoop(isn: uint32, inbox: seq<Packet>)
      returns (outcome: Completion<bool>, ghost rounds: seq<Round>, ghost syn: Header, consumed: nat,
               ghost start: nat, ghost synEnd: nat, ghost before: seq<uint8>, ghost answered: bool,
               ghost answer: Packet, ghost after: seq<uint8>)
      requires Valid() && AllDeliverable(inbox) && state == CLOSED
      modifies this`state, this`localSequenceNumber, this`remotePort, this`remoteSequenceNumber, this`sent
      modifies segment, segment.buffer
      ensures Valid() && start <= synEnd <= consumed <= |inbox| && |before| == CAPACITY
      ensures AllDeliverable(inbox[start..]) && AllDeliverable(inbox[synEnd..consumed])
      ensures outcome == Blocked || outcome == Returned(true)
      ensures state == if outcome.Returned? then ESTABLISHED else CLOSED
      ensures RejectedRounds(localAddress, remoteAddress, protocol, localPort, isn, inbox, old(segment.buffer[..]),
                             rounds, start, before)
      ensures sent == old(sent) + Answers(rounds) + (if answered then [answer] else [])
      ensures after == segment.buffer[..]
      ensures outcome.Blocked? ==> consumed == |inbox|
      ensures outcome.Blocked? && !answered ==> NoSyn(localAddress, remoteAddress, protocol, before, inbox[start..])
      ensures answered <==>
        AnsweredRound(localAddress, remoteAddress, protocol, localPort, isn, inbox, start, synEnd, consumed,
                      before, syn, answer, after, outcome.Returned?, remotePort, remoteSequenceNumber, localSequenceNumber)
      ensures outcome.Returned? ==> answered && AckAccepted(HeaderOf(after), remotePort, localSequenceNumber)
    {
      consumed, rounds := 0, [];
      while true
        invariant Valid() && consumed <= |inbox| && state == CLOSED
        invariant RejectedRounds(localAddress, remoteAddress, protocol, localPort, isn, inbox, old(segment.buffer[..]),
                                 rounds, consumed, segment.buffer[..])
        invariant sent == old(sent) + Answers(rounds)
        decreases |inbox| - consumed
      {
        start, before := consumed, segment.buffer[..];
        ghost var sentBefore := sent;
        consumed, outcome, syn, synEnd, answered, answer, after := AcceptRound(isn, inbox, consumed, before);
        if outcome != Returned(false) {
          AppendedRest(old(sent), Answers(rounds), if answered then [answer] else []);
          return;
        }
        ghost var r := Round(start, synEnd, consumed, before, syn, answer);
        RejectedRoundsExtend(localAddress, remoteAddress, protocol, localPort, isn, inbox, old(segment.buffer[..]),
                             rounds, start, synEnd, consumed, before, syn, answer, after,
                             remotePort, remoteSequenceNumber, localSequenceNumber);
        AnswersAppend(old(sent), rounds, r, sent);
        rounds := rounds + [r];
      }
    }

    /** One pass of accept's `for (;;)`: wait for a SYN, record its source
        port and sequence number, answer it with a SYN-ACK acknowledging
        that sequence number plus one, increment the local sequence number,
        receive and test the reply.  `syn` is the SYN header the round
        answered. */
    method AcceptRound(isn: uint32, inbox: seq<Packet>, start: nat, ghost before: seq<uint8>)
      returns (consumed: nat, outcome: Completion<bool>, ghost syn: Header, synEnd: nat, ghost answered: bool,
               ghost answer: Packet, ghost after: seq<uint8>)
      requires Valid() && AllDeliverable(inbox) && start <= |inbox| && before == segment.buffer[..]
      requires state == CLOSED
      modifies this`state, this`localSequenceNumber, this`remotePort, this`remoteSequenceNumber, this`sent
      modifies segment, segment.buffer
      ensures Valid() && start <= synEnd <= consumed <= |inbox|
      ensures AllDeliverable(inbox[start..]) && AllDeliverable(inbox[synEnd..consumed])
      ensures outcome.Returned? || outcome.Blocked?
      ensures state == if outcome == Returned(true) then ESTABLISHED else CLOSED
      ensures outcome.Blocked? ==> consumed == |inbox|
      ensures outcome.Returned? ==> start < consumed
      ensures sent == old(sent) + (if answered then [answer] else [])
      ensures !answered ==> outcome.Blocked? && NoSyn(localAddress, remoteAddress, protocol, before, inbox[start..])
      ensures answered <==>
        AnsweredRound(localAddress, remoteAddress, protocol, localPort, isn, inbox, start, synEnd, consumed,
                      before, syn, answer, after, outcome.Returned?, remotePort, remoteSequenceNumber, localSequenceNumber)
      ensures after == segment.buffer[..]
      ensures outcome.Returned? ==>
        (outcome.value <==> AckAccepted(HeaderOf(after), remotePort, localSequenceNumber))
    {
      var skipped, gotSyn;
      skipped, gotSyn, syn := AwaitSyn(inbox[start..]);
      synEnd := start + skipped;
      answered := gotSyn;
      if !gotSyn {
        return synEnd, Blocked, syn, synEnd, answered, Packet(0, 0, 0, 0, [], 0), segment.buffer[..];
      }
      ghost var sent0 := sent;
      consumed, outcome := ReplyToSyn(isn, inbox, synEnd);
      answer, after := sent[|sent| - 1], segment.buffer[..];
      AppendedOne(sent0, sent, answer);
    }

    /** The rest of a round once a SYN is in the segment: answer it
        (`AnswerSyn`), then receive from `inbox[skipped..]` and test the
        reply (`AwaitReply`).  A reply that passes makes the socket
        ESTABLISHED here, which is accept's `break` followed by its
        `state = ESTABLISHED`. */
    method ReplyToSyn(isn: uint32, inbox: seq<Packet>, skipped: nat) returns (consumed: nat, outcome: Completion<bool>)
      requires Valid() && AllDeliverable(inbox) && skipped <= |inbox| && state == CLOSED
      modifies this`state, this`localSequenceNumber, this`remotePort, this`remoteSequenceNumber, this`sent
      modifies segment, segment.buffer
      ensures Valid() && skipped <= consumed <= |inbox|
      ensures outcome.Returned? || outcome.Blocked?
      ensures state == if outcome == Returned(true) then ESTABLISHED else CLOSED
      ensures |sent| == |old(sent)| + 1 && sent[..|old(sent)|] == old(sent)
      ensures remotePort == old(segment.Fields()).fromPort && remoteSequenceNumber == old(segment.Fields()).seqNumber
      ensures localSequenceNumber == Add32(isn, 1)
      ensures AnswersSyn(sent[|sent| - 1], old(segment.Fields()), localAddress, remoteAddress, protocol, localPort, isn)
      ensures AllDeliverable(inbox[skipped..consumed])
      ensures segment.buffer[..] == Received(sent[|sent| - 1].data, inbox[skipped..consumed])
      ensures outcome.Returned? <==> ReceivesLast(localAddress, remoteAddress, protocol, inbox[skipped..consumed])
      ensures outcome.Blocked? ==>
        consumed == |inbox| && NoneAdmitted(localAddress, remoteAddress, protocol, inbox[skipped..])
      ensures outcome.Returned? ==>
        (outcome.value <==> AckAccepted(segment.Fields(), remotePort, localSequenceNumber))
    {
      AnswerSyn(isn);
      consumed, outcome := AwaitReply(inbox, skipped);
      if outcome == Returned(true) {
        state := ESTABLISHED;
      }
    }

    /** accept's answer to the SYN in the segment: record its source port
        and sequence number, send a SYN-ACK with sequence number `isn`
        acknowledging that sequence number plus one, then increment the
        local sequence number. */
    method AnswerSyn(isn: uint32)
      requires Valid()
      modifies this`localSequenceNumber, this`remotePort, this`remoteSequenceNumber, this`sent, segment.buffer
      ensures Valid()
      ensures |sent| == |old(sent)| + 1 && sent[..|old(sent)|] == old(sent)
      ensures remotePort == old(segment.Fields()).fromPort && remoteSequenceNumber == old(segment.Fields()).seqNumber
      ensures localSequenceNumber == Add32(isn, 1)
      ensures AnswersSyn(sent[|sent| - 1], old(segment.Fields()), localAddress, remoteAddress, protocol, localPort, isn)
      ensures sent[|sent| - 1].data == segment.buffer[..]
    {
      localSequenceNumber := isn;
      remotePort := segment.GetFromPort();
      remoteSequenceNumber := segment.GetSeq();
      SendControl(localSequenceNumber, true, Add32(remoteSequenceNumber, 1), SYN_FLAG + ACK_FLAG);
      localSequenceNumber := Add32(localSequenceNumber, 1);
    }

    /** accept's wait for the reply to its SYN-ACK: receiveSegment over
        `inbox[skipped..]`, then the test on the segment received: from the
        remote port, SYN clear, ACK set and acknowledging the local sequence
        number plus one. */
    method AwaitReply(inbox: seq<Packet>, skipped: nat) returns (consumed: nat, outcome: Completion<bool>)
      requires Valid() && AllDeliverable(inbox) && skipped <= |inbox|
      modifies segment, segment.buffer
      ensures Valid() && skipped <= consumed <= |inbox|
      ensures outcome.Returned? || outcome.Blocked?
      ensures AllDeliverable(inbox[skipped..consumed])
      ensures segment.buffer[..] == Received(old(segment.buffer[..]), inbox[skipped..consumed])
      ensures outcome.Returned? <==> ReceivesLast(localAddress, remoteAddress, protocol, inbox[skipped..consumed])
      ensures outcome.Blocked? ==>
        consumed == |inbox| && NoneAdmitted(localAddress, remoteAddress, protocol, inbox[skipped..])
      ensures outcome.Returned? ==>
        (outcome.value <==> AckAccepted(segment.Fields(), remotePort, localSequenceNumber))
    {
      var n, received := ReceiveSegment(inbox[skipped..]);
      consumed := skipped + n;
      ReplySlices(localAddress, remoteAddress, protocol, inbox, skipped, n, received);
      if !received {
        return consumed, Blocked;
      }
      var passed := segment.GetFromPort() == remotePort && !HasFlag(segment.Flags(), SYN_FLAG)
        && HasFlag(segment.Flags(), ACK_FLAG) && segment.GetAck() == Add32(localSequenceNumber, 1);
      return consumed, Returned(passed);
    }

    /** accept's inner `do { receiveSegment } while (!hasSynFlag)`: stops
        after the first packet that is admitted and leaves SYN set, whose
        header is `syn`, or once the inbox is used up without one. */
    method AwaitSyn(inbox: seq<Packet>) returns (consumed: nat, gotSyn: bool, ghost syn: Header)
      requires Valid() && AllDeliverable(inbox)
      modifies segment, segment.buffer
      ensures Valid() && consumed <= |inbox|
      ensures segment.buffer[..] == Received(old(segment.buffer[..]), inbox[..consumed])
      ensures gotSyn ==>
        && FirstSyn(localAddress, remoteAddress, protocol, old(segment.buffer[..]), inbox, consumed)
        && syn == segment.Fields() && HasFlag(syn.flags, SYN_FLAG)
      ensures !gotSyn ==>
        consumed == |inbox| && NoSyn(localAddress, remoteAddress, protocol, old(segment.buffer[..]), inbox)
    {
      ghost var s0 := segment.buffer[..];
      consumed := 0;
      while true
        invariant Valid() && consumed <= |inbox|
        invariant segment.buffer[..] == Received(s0, inbox[..consumed])
        invariant forall j | 0 <= j < consumed :: !SynAt(localAddress, remoteAddress, protocol, s0, inbox, j)
        decreases |inbox| - consumed
      {
        var n, received, stop := AwaitSynStep(s0, inbox, consumed);
        consumed := consumed + n;
        if !received || stop {
          return consumed, stop, segment.Fields();
        }
      }
    }

    /** One pass of accept's inner loop after `c` packets that held no SYN:
        receiveSegment takes `n` more, and `stop` tells whether the last
        of them is admitted with SYN set. */
    method AwaitSynStep(ghost s0: seq<uint8>, inbox: seq<Packet>, c: nat) returns (n: nat, received: bool, stop: bool)
      requires Valid() && |s0| == CAPACITY && AllDeliverable(inbox) && c <= |inbox|
      requires segment.buffer[..] == Received(s0, inbox[..c])
      requires forall j | 0 <= j < c :: !SynAt(localAddress, remoteAddress, protocol, s0, inbox, j)
      modifies segment, segment.buffer
      ensures Valid() && c + n <= |inbox|
      ensures segment.buffer[..] == Received(s0, inbox[..c + n])
      ensures received ==> 0 < n
      ensures !received ==> c + n == |inbox| && !stop
      ensures stop ==>
        && FirstSyn(localAddress, remoteAddress, protocol, s0, inbox, c + n)
        && HasFlag(segment.Fields().flags, SYN_FLAG)
      ensures !stop ==> forall j | 0 <= j < c + n :: !SynAt(localAddress, remoteAddress, protocol, s0, inbox, j)
    {
      n, received := ReceiveSegment(inbox[c..]);
      ReceiveChunk(localAddress, remoteAddress, protocol, s0, inbox, c, n, segment.buffer[..]);
      stop := received && HasFlag(segment.Flags(), SYN_FLAG);
    }

    /** read: the null and state checks; the transfer itself is a stub
        that returns -1. */
    method Read(buf: array?<uint8>, offset: int, maxlen: int) returns (r: Result<int>)
      ensures buf == null ==> r == Failure(NullPointer)
      ensures buf != null && state != ESTABLISHED ==> r == Failure(IllegalState)
      ensures buf != null && state == ESTABLISHED ==> r == Success(-1)
    {
      if buf == null {
        return Failure(NullPointer);
      }
      if state != ESTABLISHED {
        return Failure(IllegalState);
      }
      return Success(-1);
    }

    /** write: the null and state checks; the transfer itself is a stub
        that returns -1. */
    method Write(buf: array?<uint8>, offset: int, len: int) returns (r: Result<int>)
      ensures buf == null ==> r == Failure(NullPointer)
      ensures buf != null && state != ESTABLISHED ==> r == Failure(IllegalState)
      ensures buf != null && state == ESTABLISHED ==> r == Success(-1)
    {
      if buf == null {
        return Failure(NullPointer);
      }
      if state != ESTABLISHED {
        return Failure(IllegalState);
      }
      return Success(-1);
    }

    /** close: the state check, then a stub that returns false.  On a
        socket that is not ESTABLISHED it throws rather than returning
        false, and on an ESTABLISHED one it neither returns true nor moves
        to READ_ONLY. */
    method Close() returns (r: Result<bool>)
      ensures state != ESTABLISHED ==> r == Failure(IllegalState)
      ensures state == ESTABLISHED ==> r == Success(false)
    {
      if state != ESTABLISHED {
        return Failure(IllegalState);
      }
      return Success(false);
    }
  }

  /** A client's connect followed by a server's accept, each on its own
      inbox, as in the simple connect/accept test.  When both establish,
      the fields the test compares are tied as follows: the client's
      remote address and port are the server's local ones exactly when
      connect was given them; the client's remote sequence number is the
      sequence number of the SYN-ACK it accepted, while the server's local
      one is its initial number plus one, so the two differ whenever that
      SYN-ACK carried the server's initial number; accept never sets the
      server's remote address; the server's remote port and sequence number
      are the client's local port and initial number exactly when the SYN
      it answered carried them, and that SYN is the first admitted packet
      with SYN set in the server's last round, which began at `start`
      with `before` in its buffer. */
  method Handshake(client: Socket, server: Socket, serverAddr: uint32, serverPort: int,
                   clientIsn: uint32, serverIsn: uint32, clientInbox: seq<Packet>, serverInbox: seq<Packet>)
    returns (connected: Completion<bool>, accepted: Completion<()>, ghost reply: Header, ghost syn: Header,
             ghost start: nat, ghost synEnd: nat, ghost before: seq<uint8>)
    requires client.Valid() && server.Valid()
    requires AllDeliverable(clientInbox) && AllDeliverable(serverInbox)
    requires client != server && client.segment != server.segment
    requires client.segment.buffer != server.segment.buffer
    requires client.state == CLOSED && server.state == CLOSED
    modifies client, client.segment, client.segment.buffer, server, server.segment, server.segment.buffer
    ensures connected == Returned(true) && accepted == Returned(()) ==>
      && client.state == ESTABLISHED && server.state == ESTABLISHED
      && (client.remoteAddress == server.localAddress <==> serverAddr == server.localAddress)
      && (client.remotePort == server.localPort <==> ToShort(serverPort) == server.localPort)
      && client.remoteSequenceNumber == reply.seqNumber
      && server.localSequenceNumber == Add32(serverIsn, 1)
      && (reply.seqNumber == serverIsn ==> client.remoteSequenceNumber != server.localSequenceNumber)
      && server.remoteAddress == old(server.remoteAddress)
      && (server.remotePort == client.localPort <==> syn.fromPort == client.localPort)
      && (server.remoteSequenceNumber == client.localSequenceNumber <==> syn.seqNumber == clientIsn)
      && start <= synEnd <= |serverInbox| && |before| == CAPACITY
      && AllDeliverable(serverInbox[start..])
      && FirstSyn(server.localAddress, server.remoteAddress, server.protocol, before, serverInbox[start..],
                  synEnd - start)
      && syn == HeaderOf(Received(before, serverInbox[start..][..synEnd - start]))
  {
    ghost var consumed;
    connected, reply, consumed := client.Connect(serverAddr, serverPort, clientIsn, clientInbox);
    var taken;
    ghost var rounds, answered, answer, after;
    accepted, rounds, syn, taken, start, synEnd, before, answered, answer, after := server.Accept(serverIsn, serverInbox);
  }
}
