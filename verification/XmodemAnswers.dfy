/** From what arrives to what the receiver of src/xmodem.c answers, for
    everything that can arrive while it waits for a control byte. */
module XmodemAnswers {
  import opened Crc16
  import opened Xmodem
  import opened XmodemLink

  function Invitation(r: Receiver): seq<Byte> {
    if r.asking then [INVITE] else []
  }

  /** Nothing counted, accepted or stored, and nothing lost. */
  ghost predicate Untouched(r: Receiver, t: Receiver) {
    && t.log == r.log && t.totalbytes == r.totalbytes && t.pos == r.pos && t.dest == r.dest
    && t.seqnum == r.seqnum && t.retry == r.retry && t.check == r.check
  }

  // ----- control bytes

  /** Silence, and any byte that is no control byte, bring only an invitation,
      and that only until the first packet has begun. */
  lemma NoiseIsIgnored(r: Receiver, e: Event)
    requires r.phase == Control && (e.Got? ==> e.c !in {SOH, STX, EOT, CAN})
    ensures Run(r, [e]) == r.(out := r.out + Invitation(r))
  {
    RunOne(r, e);
  }

  /** EOT: refused with -2 and without an answer while nothing has been accepted,
      otherwise acknowledged, and the size of the data is returned. */
  lemma EndOfTransfer(r: Receiver)
    requires r.phase == Control
    ensures var t := Run(r, Events([EOT]));
            && Untouched(r, t)
            && (r.totalbytes == 0 ==> t.phase == Done(-2) && t.out == r.out)
            && (r.totalbytes > 0 ==> t.phase == Flush(Return(r.totalbytes)) && t.out == r.out + [ACK])
  {
    assert Events([EOT]) == [Got(EOT)];
    RunOne(r, Got(EOT));
  }

  /** CAN CAN is acknowledged and ends the transfer with -1; after one CAN
      anything else is dropped and the wait goes on. */
  lemma Cancelling(r: Receiver, e: Event)
    requires r.phase == Control
    ensures var t := Run(r, [Got(CAN), e]);
            && Untouched(r, t)
            && (e == Got(CAN) ==> t.phase == Flush(Return(-1)) && t.out == r.out + [ACK])
            && (e != Got(CAN) ==> t.phase == Control && t.out == r.out + Invitation(r))
  {
    RunTwo(r, Got(CAN), e);
  }

  // ----- the flush

  lemma {:induction false} FlushEats(r: Receiver, bytes: seq<Byte>)
    requires r.phase.Flush?
    ensures Run(r, Events(bytes)) == r
    decreases |bytes|
  {
    if bytes != [] {
      assert Events(bytes)[1..] == Events(bytes[1..]);
      FlushEats(r, bytes[1..]);
    }
  }

  /** After an answer that flushes, all bytes are dropped up to the first silence;
      then the function returns, or waits for a control byte again. */
  lemma FlushEnds(r: Receiver, bytes: seq<Byte>)
    requires r.phase.Flush?
    ensures var t := Run(r, Events(bytes) + [Timeout]);
            && Untouched(r, t)
            && (r.phase.after.Continue? ==> t.phase == Control && t.out == r.out + Invitation(r))
            && (r.phase.after.Return? ==> t.phase == Done(r.phase.after.ret) && t.out == r.out)
  {
    FlushEats(r, bytes);
    RunConcat(r, Events(bytes), [Timeout]);
    RunOne(r, Timeout);
  }

  // ----- packets

  /** The buffer once a payload has gone through it at the end of what was
      accepted: it is written only if all of it fits. */
  function Placed(dest: seq<Byte>, at: nat, payload: seq<Byte>): (r: seq<Byte>)
    ensures |r| == |dest|
  {
    if at + |payload| <= |dest| then dest[..at] + payload + dest[at + |payload|..] else dest
  }

  /** The same after the first bytes of a payload of this size. */
  function PartPlaced(dest: seq<Byte>, at: nat, size: nat, part: seq<Byte>): (r: seq<Byte>)
    requires |part| <= size
    ensures |r| == |dest|
  {
    if at + size <= |dest| then dest[..at] + part + dest[at + |part|..] else dest
  }

  lemma {:induction false} PayloadInBuffer(r: Receiver, payload: seq<Byte>, dest: seq<Byte>, done: seq<Byte>)
    requires r.phase.Packet? && r.phase.rx == |done| && |done| + |payload| <= r.phase.size
    requires r.pos == r.totalbytes && r.dest == PartPlaced(dest, r.pos, r.phase.size, done)
    ensures Run(r, Events(payload)).dest == PartPlaced(dest, r.pos, r.phase.size, done + payload)
    decreases |payload|
  {
    if payload == [] {
      assert done + payload == done;
    } else {
      var s := Step(r, Got(payload[0]));
      assert Events(payload)[1..] == Events(payload[1..]);
      assert s.dest == PartPlaced(dest, r.pos, r.phase.size, done + [payload[0]]);
      PayloadInBuffer(s, payload[1..], dest, done + [payload[0]]);
      assert done + [payload[0]] + payload[1..] == done + payload;
    }
  }

  lemma FrontSplit(r: Receiver, number: Byte, complement: Byte, payload: seq<Byte>, hi: Byte, a: Receiver)
    requires a == Run(r, Events([StartByte(payload), number, complement]))
    ensures Run(r, Events(Front(number, complement, payload, hi))) == Run(Run(a, Events(payload)), [Got(hi)])
  {
    var head := [StartByte(payload), number, complement];
    EventsConcat(head, payload + [hi]);
    EventsConcat(payload, [hi]);
    assert Events([hi]) == [Got(hi)];
    RunConcat(r, Events(head), Events(payload) + [Got(hi)]);
    RunConcat(a, Events(payload), [Got(hi)]);
  }

  lemma FrontInBuffer(r: Receiver, number: Byte, complement: Byte, payload: seq<Byte>, hi: Byte)
    requires r.phase == Control && IsPayload(payload) && r.pos == r.totalbytes
    ensures Run(r, Events(Front(number, complement, payload, hi))).dest == Placed(r.dest, r.pos, payload)
  {
    HeaderRun(r, payload, number, complement);
    var a := Run(r, Events([StartByte(payload), number, complement]));
    FrontSplit(r, number, complement, payload, hi, a);
    PayloadInBuffer(a, payload, r.dest, []);
    assert [] + payload == payload;
    var b := PayloadRun(a, payload);
    RunOne(b, Got(hi));
  }

  /** Whatever the checks say later, a complete packet leaves its payload behind the
      data accepted so far if it fits there, and no byte of the buffer otherwise. */
  lemma PacketInBuffer(r: Receiver, number: Byte, complement: Byte, payload: seq<Byte>, hi: Byte, lo: Byte)
    requires r.phase == Control && IsPayload(payload) && r.pos == r.totalbytes
    ensures Run(r, Events(Packed(number, complement, payload, hi, lo))).dest == Placed(r.dest, r.pos, payload)
  {
    FrontInBuffer(r, number, complement, payload, hi);
    var q := PacketRun(r, number, complement, payload, hi, lo);
  }

  /** What becomes of a complete packet, by what is in it. */
  ghost predicate Answered(r: Receiver, t: Receiver, number: Byte, complement: Byte, payload: seq<Byte>,
                           hi: Byte, lo: Byte)
  {
    var refused := number != 255 - complement || !r.check(payload, hi, lo);
    var expected := !refused && number == r.seqnum;
    var repeated := !refused && number + 1 == r.seqnum;
    && t.dest == Placed(r.dest, r.pos, payload) && !t.asking && t.check == r.check
    && (expected ==>
          t.phase == Control && t.out == r.out + [ACK] && t.log == r.log + [payload]
          && t.totalbytes == r.totalbytes + |payload| && t.retry == MAXRETRANS
          && t.seqnum == (r.seqnum + 1) % 256)
    && (!expected ==> t.log == r.log && t.totalbytes == r.totalbytes && t.seqnum == r.seqnum)
    && (refused ==> t.phase == Flush(Continue) && t.out == r.out + [NAK] && t.retry == r.retry)
    && (repeated && r.retry > 1 ==> t.phase == Control && t.out == r.out + [ACK] && t.retry == r.retry - 1)
    && (repeated && r.retry <= 1 ==> t.phase == Flush(Return(-3)) && t.out == r.out + [CAN, CAN, CAN])
    && (!refused && !expected && !repeated ==> t.phase == Flush(Return(-2)) && t.out == r.out + [CAN, CAN, CAN])
  }

  lemma JudgeAnswers(r: Receiver, q: Receiver, number: Byte, complement: Byte, payload: seq<Byte>, hi: Byte,
                     lo: Byte)
    requires q == r.(phase := Packet(|payload|, |payload| + 1), asking := false, frame := payload,
                     seq0 := number, seq1 := complement, bufHi := hi, dest := Placed(r.dest, r.pos, payload))
    ensures Answered(r, Judge(q, lo), number, complement, payload, hi, lo)
  {
  }

  /** Every complete packet, whatever is in it, is answered by its content: a
      packet that fails a check with NAK; an intact one with ACK if it has the
      number expected, which alone is accepted; with ACK, or with CAN and -3 once
      the retries are used up, if it has the number before; and every other intact
      packet is out of sequence and ends the transfer with CAN and -2. */
  lemma PacketAnswered(r: Receiver, number: Byte, complement: Byte, payload: seq<Byte>, hi: Byte, lo: Byte)
    requires r.phase == Control && IsPayload(payload) && r.pos == r.totalbytes
    ensures Answered(r, Run(r, Events(Packed(number, complement, payload, hi, lo))),
                     number, complement, payload, hi, lo)
  {
    var q := PacketRun(r, number, complement, payload, hi, lo);
    PacketInBuffer(r, number, complement, payload, hi, lo);
    assert Judge(q, lo).dest == q.dest;
    JudgeAnswers(r, q, number, complement, payload, hi, lo);
  }

  lemma IntactAnswered(r: Receiver, t: Receiver, number: Byte, payload: seq<Byte>, hi: Byte, lo: Byte)
    requires Answered(r, t, number, 255 - number, payload, hi, lo) && r.check(payload, hi, lo)
    ensures t.log == r.log + [payload] <==> number == r.seqnum
    ensures number != r.seqnum ==> t.log == r.log && t.totalbytes == r.totalbytes
    ensures number != r.seqnum && r.seqnum != (number + 1) % 256 ==>
              t.phase == Flush(Return(-2)) && t.out == r.out + [CAN, CAN, CAN]
  {
    assert |r.log + [payload]| == |r.log| + 1;
  }

  /** So an intact packet is accepted if and only if it has the number expected;
      any other leaves the data accepted so far as it is, and with any number but
      this and the one before it the transfer ends with -2. */
  lemma AcceptedExactly(r: Receiver, line: seq<Event>, number: Byte, payload: seq<Byte>)
    requires Good(r) && r.phase == Control && IsPayload(payload) && Carries(r.check, line, number, payload)
    ensures var t := Run(r, line);
            && (t.log == r.log + [payload] <==> number == r.seqnum)
            && (number != r.seqnum ==> t.log == r.log && t.totalbytes == r.totalbytes && Stored(r.log, t.dest))
            && (number != r.seqnum && r.seqnum != (number + 1) % 256 ==>
                  t.phase == Flush(Return(-2)) && t.out == r.out + [CAN, CAN, CAN])
  {
    var hi: Byte, lo: Byte :|
      line == Events(Packed(number, 255 - number, payload, hi, lo)) && r.check(payload, hi, lo);
    PacketAnswered(r, number, 255 - number, payload, hi, lo);
    var t := Run(r, line);
    IntactAnswered(r, t, number, payload, hi, lo);
    RunKeepsGood(r, line);
    assert Stored(t.log, t.dest);
  }

  /** A packet cut short by silence, after any number of its bytes, is answered
      with NAK and counts nothing. */
  lemma CutPacketIsRefused(r: Receiver, number: Byte, complement: Byte, payload: seq<Byte>, hi: Byte, k: nat)
    requires r.phase == Control && IsPayload(payload)
    requires 0 < k <= |Front(number, complement, payload, hi)|
    ensures var t := Run(r, Events(Front(number, complement, payload, hi)[..k]) + [Timeout]);
            && t.phase == Flush(Continue) && t.out == r.out + [NAK] && !t.asking
            && t.log == r.log && t.totalbytes == r.totalbytes && t.seqnum == r.seqnum && t.retry == r.retry
  {
    var bytes := Front(number, complement, payload, hi)[..k];
    assert Events(bytes)[1..] == Events(bytes[1..]);
    var a := Step(r, Got(bytes[0]));
    InsidePacket(a, bytes[1..]);
    RunConcat(r, Events(bytes), [Timeout]);
    RunOne(Run(r, Events(bytes)), Timeout);
  }

  lemma {:induction false} InsidePacket(r: Receiver, bytes: seq<Byte>)
    requires r.phase.Packet? && r.phase.size >= 0 && -2 <= r.phase.rx && r.phase.rx + |bytes| <= r.phase.size + 1
    ensures var t := Run(r, Events(bytes));
            && t.phase.Packet? && t.asking == r.asking && t.out == r.out && t.log == r.log
            && t.totalbytes == r.totalbytes && t.seqnum == r.seqnum && t.retry == r.retry
    decreases |bytes|
  {
    if bytes != [] {
      assert Events(bytes)[1..] == Events(bytes[1..]);
      InsidePacket(Step(r, Got(bytes[0])), bytes[1..]);
    }
  }
}
