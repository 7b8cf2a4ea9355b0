/** The receiver of src/xmodem.c against a stop-and-wait sender over a line that
    loses and damages. */
module XmodemLink {
  import opened Crc16
  import opened Xmodem

  // ----- a whole packet on the line

  function Events(bytes: seq<Byte>): (r: seq<Event>)
    ensures |r| == |bytes|
  {
    seq(|bytes|, i requires 0 <= i < |bytes| => Got(bytes[i]))
  }

  lemma EventsConcat(a: seq<Byte>, b: seq<Byte>)
    ensures Events(a + b) == Events(a) + Events(b)
  {
  }

  predicate IsPayload(p: seq<Byte>) {
    |p| == 128 || |p| == 1024
  }

  function StartByte(p: seq<Byte>): Byte {
    if |p| == 128 then SOH else STX
  }

  /** Packet number, its complement, payload, and any two trailer bytes. */
  function Packed(number: Byte, complement: Byte, payload: seq<Byte>, hi: Byte, lo: Byte): seq<Byte> {
    [StartByte(payload), number, complement] + (payload + [hi, lo])
  }

  /** The line carries this packet undamaged, as far as the check can tell. */
  ghost predicate Carries(check: Check, line: seq<Event>, number: Byte, payload: seq<Byte>) {
    exists hi: Byte, lo: Byte ::
      line == Events(Packed(number, 255 - number, payload, hi, lo)) && check(payload, hi, lo)
  }

  /** The packet as the sender makes it. */
  function Frame(number: Byte, payload: seq<Byte>): seq<Byte> {
    var t := Trailer(Crc(Zeros(REG_BITS), payload));
    Packed(number, 255 - number, payload, t[0], t[1])
  }

  lemma FrameCarries(number: Byte, payload: seq<Byte>)
    ensures Carries(CrcCheck, Events(Frame(number, payload)), number, payload)
  {
    var t := Trailer(Crc(Zeros(REG_BITS), payload));
    TrailerWord(Crc(Zeros(REG_BITS), payload));
    assert CrcCheck(payload, t[0], t[1]);
    assert Events(Frame(number, payload)) == Events(Packed(number, 255 - number, payload, t[0], t[1]));
  }

  lemma {:induction false} PayloadRun(r: Receiver, payload: seq<Byte>) returns (t: Receiver)
    requires r.phase.Packet? && 0 <= r.phase.rx && r.phase.rx + |payload| <= r.phase.size
    ensures t == Run(r, Events(payload))
    ensures t == r.(dest := t.dest, frame := r.frame + payload,
                    phase := Packet(r.phase.size, r.phase.rx + |payload|))
    decreases |payload|
  {
    if payload == [] {
      t := r;
      assert r.frame + payload == r.frame;
    } else {
      var s := Step(r, Got(payload[0]));
      assert Events(payload)[1..] == Events(payload[1..]);
      t := PayloadRun(s, payload[1..]);
      assert s.frame + payload[1..] == r.frame + payload;
    }
  }

  lemma HeaderRun(r: Receiver, payload: seq<Byte>, number: Byte, complement: Byte)
    requires r.phase == Control && IsPayload(payload)
    ensures Run(r, Events([StartByte(payload), number, complement]))
         == r.(phase := Packet(|payload|, 0), asking := false, frame := [],
               seq0 := number, seq1 := complement)
  {
    var e := Events([StartByte(payload), number, complement]);
    assert e == [Got(StartByte(payload)), Got(number), Got(complement)];
    assert e[1..] == [Got(number), Got(complement)] && e[1..][1..] == [Got(complement)];
    var a := Step(r, e[0]);
    var b := Step(a, Got(number));
    var c := Step(b, Got(complement));
    assert Run(b, [Got(complement)]) == Run(c, []);
    assert Run(a, e[1..]) == Run(b, [Got(complement)]);
  }

  function WithFirstTrailerByte(r: Receiver, hi: Byte): (t: Receiver)
    requires r.phase.Packet?
    ensures t.phase.Packet?
  {
    r.(bufHi := hi, phase := Packet(r.phase.size, r.phase.size + 1))
  }

  lemma FirstTrailerByte(r: Receiver, hi: Byte)
    requires r.phase.Packet? && r.phase.rx == r.phase.size >= 0
    ensures Step(r, Got(hi)) == WithFirstTrailerByte(r, hi)
  {
  }

  lemma LastTrailerByte(r: Receiver, lo: Byte)
    requires r.phase.Packet? && r.phase.rx == r.phase.size + 1 && r.phase.size >= 0
    ensures Step(r, Got(lo)) == Judge(r, lo)
  {
  }

  /** All of a packet but its last byte. */
  function Front(number: Byte, complement: Byte, payload: seq<Byte>, hi: Byte): seq<Byte> {
    [StartByte(payload), number, complement] + (payload + [hi])
  }

  lemma FrontRun(r: Receiver, number: Byte, complement: Byte, payload: seq<Byte>, hi: Byte)
    returns (q: Receiver)
    requires r.phase == Control && IsPayload(payload)
    ensures q.phase.Packet? && Run(r, Events(Front(number, complement, payload, hi))) == q
    ensures q == r.(phase := Packet(|payload|, |payload| + 1), asking := false,
                    frame := payload, seq0 := number, seq1 := complement, bufHi := hi, dest := q.dest)
  {
    var head := [StartByte(payload), number, complement];
    EventsConcat(head, payload + [hi]);
    EventsConcat(payload, [hi]);
    RunConcat(r, Events(head), Events(payload) + Events([hi]));
    HeaderRun(r, payload, number, complement);
    var a := Run(r, Events(head));
    RunConcat(a, Events(payload), Events([hi]));
    var b := PayloadRun(a, payload);
    assert [] + payload == payload;
    FirstTrailerByte(b, hi);
    RunOne(b, Got(hi));
    assert Events([hi]) == [Got(hi)];
    q := WithFirstTrailerByte(b, hi);
  }

  lemma RunOne(r: Receiver, e: Event)
    ensures Run(r, [e]) == Step(r, e)
  {
    assert [e][1..] == [];
  }

  /** Whatever their content, the bytes of a packet that arrive complete are
      judged once, with the payload, the numbers and the CRC they carry. */
  lemma PacketRun(r: Receiver, number: Byte, complement: Byte, payload: seq<Byte>, hi: Byte, lo: Byte)
    returns (q: Receiver)
    requires r.phase == Control && IsPayload(payload)
    ensures q.phase.Packet? && Run(r, Events(Packed(number, complement, payload, hi, lo))) == Judge(q, lo)
    ensures Run(r, Events(Front(number, complement, payload, hi))) == q
    ensures q == r.(phase := Packet(|payload|, |payload| + 1), asking := false,
                    frame := payload, seq0 := number, seq1 := complement, bufHi := hi, dest := q.dest)
  {
    var front := Front(number, complement, payload, hi);
    q := FrontRun(r, number, complement, payload, hi);
    assert Packed(number, complement, payload, hi, lo) == front + [lo];
    EventsConcat(front, [lo]);
    RunConcat(r, Events(front), Events([lo]));
    assert Events([lo]) == [Got(lo)];
    RunOne(q, Got(lo));
    LastTrailerByte(q, lo);
  }

  lemma CarriedPacketRun(r: Receiver, line: seq<Event>, number: Byte, payload: seq<Byte>)
    returns (q: Receiver, lo: Byte)
    requires r.phase == Control && IsPayload(payload) && Carries(r.check, line, number, payload)
    ensures q.phase.Packet? && Intact(q, lo) && Run(r, line) == Judge(q, lo)
    ensures q == r.(phase := Packet(|payload|, |payload| + 1), asking := false, frame := payload,
                    seq0 := number, seq1 := q.seq1, bufHi := q.bufHi, dest := q.dest)
  {
    var hi: Byte, last: Byte :|
      line == Events(Packed(number, 255 - number, payload, hi, last)) && r.check(payload, hi, last);
    q := PacketRun(r, number, 255 - number, payload, hi, last);
    lo := last;
  }

  /** An undamaged packet with the expected number is stored and acknowledged. */
  lemma NewPacketIsAccepted(r: Receiver, line: seq<Event>, payload: seq<Byte>)
    requires r.phase == Control && IsPayload(payload) && Carries(r.check, line, r.seqnum, payload)
    ensures var t := Run(r, line);
            && t.phase == Control && t.log == r.log + [payload] && t.totalbytes == r.totalbytes + |payload|
            && t.out == r.out + [ACK] && t.retry == MAXRETRANS && !t.asking
            && t.seqnum == (r.seqnum + 1) % 256 && t.check == r.check
  {
    var q, lo := CarriedPacketRun(r, line, r.seqnum, payload);
  }

  /** What becomes of a repeat of the last accepted packet. */
  ghost predicate RepeatAnswered(r: Receiver, t: Receiver, number: Byte) {
    && t.log == r.log && t.totalbytes == r.totalbytes && t.check == r.check
    && (t.phase == Control && t.out == r.out + [ACK] <==> number != 255 && r.retry > 1)
    && (number != 255 && r.retry > 1 ==> t.retry == r.retry - 1 && !t.asking && t.seqnum == r.seqnum)
    && (number == 255 ==> t.phase == Flush(Return(-2)) && t.out == r.out + [CAN, CAN, CAN])
    && (number != 255 && r.retry <= 1 ==> t.phase == Flush(Return(-3)) && t.out == r.out + [CAN, CAN, CAN])
  }

  lemma RepeatIsJudged(r: Receiver, q: Receiver, lo: Byte, number: Byte)
    requires r.seqnum == (number + 1) % 256
    requires q.phase.Packet? && Intact(q, lo) && q.seq0 == number && !q.asking && q.check == r.check
    requires q.seqnum == r.seqnum && q.retry == r.retry && q.log == r.log
    requires q.out == r.out && q.totalbytes == r.totalbytes
    ensures RepeatAnswered(r, Judge(q, lo), number)
  {
  }

  /** The last accepted packet, sent again because its acknowledgement was lost:
      it is acknowledged and stored nowhere, unless its number is 255 or it is
      the 25th repeat in a row.  With 255 the test at line 188 misses it and the
      transfer is cancelled; the 25th is too many for line 191.  The data
      accepted so far stays as it is either way. */
  lemma RepeatedPacket(r: Receiver, line: seq<Event>, payload: seq<Byte>, number: Byte)
    requires r.phase == Control && IsPayload(payload) && Carries(r.check, line, number, payload)
    requires r.seqnum == (number + 1) % 256
    ensures RepeatAnswered(r, Run(r, line), number)
  {
    var q, lo := CarriedPacketRun(r, line, number, payload);
    RepeatIsJudged(r, q, lo, number);
  }

  /** What arrives differs from the payload and its trailer, within 16 consecutive bits. */
  ghost predicate DamagedInTransit(payload: seq<Byte>, damaged: seq<Byte>, hi: Byte, lo: Byte) {
    |damaged| == |payload|
    && Burst(Xor(Flat(payload + Trailer(Crc(Zeros(REG_BITS), payload))), Flat(damaged + [hi, lo])))
  }

  lemma BurstFailsTheCheck(payload: seq<Byte>, damaged: seq<Byte>, hi: Byte, lo: Byte)
    requires DamagedInTransit(payload, damaged, hi, lo)
    ensures !CrcCheck(damaged, hi, lo)
  {
    var z: Reg := Zeros(REG_BITS);
    var t := Trailer(Crc(z, payload));
    TrailerWord(Crc(z, payload));
    assert t == [t[0], t[1]];
    AcceptIsZeroResidue(payload, t[0], t[1]);
    DamagedFrameIsRefused(payload + t, damaged + [hi, lo]);
    AcceptIsZeroResidue(damaged, hi, lo);
  }

  /** The line is answered with NAK and nothing is counted. */
  ghost predicate Refuses(r: Receiver, line: seq<Event>) {
    var t := Run(r, line);
    && t.phase == Flush(Continue) && t.out == r.out + [NAK]
    && t.log == r.log && t.totalbytes == r.totalbytes && t.retry == r.retry
  }

  lemma RefusedPacket(r: Receiver, number: Byte, complement: Byte, payload: seq<Byte>, hi: Byte, lo: Byte)
    requires r.phase == Control && IsPayload(payload)
    requires number != 255 - complement || !r.check(payload, hi, lo)
    ensures Refuses(r, Events(Packed(number, complement, payload, hi, lo)))
  {
    var q := PacketRun(r, number, complement, payload, hi, lo);
    assert !Intact(q, lo);
  }

  /** A packet whose payload or trailer was damaged within 16 consecutive bits is
      refused, whatever its number, and nothing is counted. */
  lemma DamagedPacketIsRefused(r: Receiver, number: Byte, complement: Byte, payload: seq<Byte>, damaged: seq<Byte>,
                               hi: Byte, lo: Byte, line: seq<Event>)
    requires r.phase == Control && IsPayload(payload) && r.check == CrcCheck
    requires DamagedInTransit(payload, damaged, hi, lo)
    requires line == Events(Packed(number, complement, damaged, hi, lo))
    ensures Refuses(r, line)
  {
    BurstFailsTheCheck(payload, damaged, hi, lo);
    RefusedPacket(r, number, complement, damaged, hi, lo);
  }

  /** A packet whose number and complement do not match is refused as well. */
  lemma DamagedHeaderIsRefused(r: Receiver, number: Byte, complement: Byte, payload: seq<Byte>, hi: Byte, lo: Byte)
    requires r.phase == Control && IsPayload(payload) && number != 255 - complement
    ensures Refuses(r, Events(Packed(number, complement, payload, hi, lo)))
  {
    RefusedPacket(r, number, complement, payload, hi, lo);
  }

  lemma IntactPacketIsNotRefused(r: Receiver, number: Byte, payload: seq<Byte>, hi: Byte, lo: Byte, line: seq<Event>)
    requires r.phase == Control && IsPayload(payload) && r.check(payload, hi, lo)
    requires line == Events(Packed(number, 255 - number, payload, hi, lo))
    ensures !Refuses(r, line)
  {
    var q := PacketRun(r, number, 255 - number, payload, hi, lo);
    assert Intact(q, lo) && Judge(q, lo).phase != Flush(Continue);
  }

  /** Everything behind the start byte. */
  function Body(number: Byte, complement: Byte, payload: seq<Byte>, hi: Byte, lo: Byte): seq<Byte> {
    [number, complement] + (payload + [hi, lo])
  }

  function SentBody(number: Byte, payload: seq<Byte>): seq<Byte> {
    var t := Trailer(Crc(Zeros(REG_BITS), payload));
    Body(number, 255 - number, payload, t[0], t[1])
  }

  /** The packet after damage within 16 consecutive bits, anywhere behind the start byte. */
  ghost predicate BurstOnPacket(number: Byte, payload: seq<Byte>, number2: Byte, complement2: Byte,
                                payload2: seq<Byte>, hi: Byte, lo: Byte) {
    |payload2| == |payload|
    && Burst(Xor(Flat(SentBody(number, payload)), Flat(Body(number2, complement2, payload2, hi, lo))))
  }

  /** Payload or trailer is not what was sent. */
  ghost predicate TailHit(payload: seq<Byte>, payload2: seq<Byte>, hi: Byte, lo: Byte) {
    payload2 + [hi, lo] != payload + Trailer(Crc(Zeros(REG_BITS), payload))
  }

  lemma BurstReachesTail(number: Byte, payload: seq<Byte>, number2: Byte, complement2: Byte,
                         payload2: seq<Byte>, hi: Byte, lo: Byte)
    requires BurstOnPacket(number, payload, number2, complement2, payload2, hi, lo)
    requires TailHit(payload, payload2, hi, lo)
    ensures DamagedInTransit(payload, payload2, hi, lo)
  {
    var t := Trailer(Crc(Zeros(REG_BITS), payload));
    assert t == [t[0], t[1]];
    BurstInTail([number, 255 - number], payload + t, [number2, complement2], payload2 + [hi, lo]);
  }

  lemma UnhitTail(payload: seq<Byte>, payload2: seq<Byte>, hi: Byte, lo: Byte)
    requires |payload2| == |payload| && !TailHit(payload, payload2, hi, lo)
    ensures CrcCheck(payload2, hi, lo) && payload2 == payload
  {
    var t := Trailer(Crc(Zeros(REG_BITS), payload));
    TrailerWord(Crc(Zeros(REG_BITS), payload));
    var a, b := payload2 + [hi, lo], payload + t;
    assert a[..|payload|] == payload2 && b[..|payload|] == payload;
    assert a[|payload|] == hi && a[|payload| + 1] == lo && b[|payload|] == t[0] && b[|payload| + 1] == t[1];
  }

  lemma HitTailIsRefused(r: Receiver, number: Byte, payload: seq<Byte>, number2: Byte, complement2: Byte,
                         payload2: seq<Byte>, hi: Byte, lo: Byte, line: seq<Event>)
    requires r.phase == Control && IsPayload(payload) && r.check == CrcCheck
    requires BurstOnPacket(number, payload, number2, complement2, payload2, hi, lo)
    requires TailHit(payload, payload2, hi, lo)
    requires line == Events(Packed(number2, complement2, payload2, hi, lo))
    ensures Refuses(r, line)
  {
    BurstReachesTail(number, payload, number2, complement2, payload2, hi, lo);
    DamagedPacketIsRefused(r, number2, complement2, payload, payload2, hi, lo, line);
  }

  lemma UnhitTailPasses(r: Receiver, payload: seq<Byte>, number2: Byte,
                        payload2: seq<Byte>, hi: Byte, lo: Byte, line: seq<Event>)
    requires r.phase == Control && IsPayload(payload) && r.check == CrcCheck && |payload2| == |payload|
    requires !TailHit(payload, payload2, hi, lo)
    requires line == Events(Packed(number2, 255 - number2, payload2, hi, lo))
    ensures !Refuses(r, line)
  {
    UnhitTail(payload, payload2, hi, lo);
    IntactPacketIsNotRefused(r, number2, payload2, hi, lo, line);
  }

  /** After a burst anywhere in number, complement, payload and trailer a packet
      is refused exactly when its number and complement no longer match or its
      payload or trailer was hit. */
  lemma BurstRefusedExactly(r: Receiver, number: Byte, payload: seq<Byte>, number2: Byte, complement2: Byte,
                            payload2: seq<Byte>, hi: Byte, lo: Byte, line: seq<Event>)
    requires r.phase == Control && IsPayload(payload) && r.check == CrcCheck
    requires BurstOnPacket(number, payload, number2, complement2, payload2, hi, lo)
    requires line == Events(Packed(number2, complement2, payload2, hi, lo))
    ensures Refuses(r, line) <==> number2 != 255 - complement2 || TailHit(payload, payload2, hi, lo)
  {
    if number2 != 255 - complement2 {
      DamagedHeaderIsRefused(r, number2, complement2, payload2, hi, lo);
    } else if TailHit(payload, payload2, hi, lo) {
      HitTailIsRefused(r, number, payload, number2, complement2, payload2, hi, lo, line);
    } else {
      UnhitTailPasses(r, payload, number2, payload2, hi, lo, line);
    }
  }

  /** The CRC does not cover the header: another number with its own complement
      lies within 16 consecutive bits of the number sent, and passes. */
  lemma HeaderBurst(number: Byte, number2: Byte, payload: seq<Byte>)
    requires number != number2
    ensures var t := Trailer(Crc(Zeros(REG_BITS), payload));
            BurstOnPacket(number, payload, number2, 255 - number2, payload, t[0], t[1])
  {
    var t := Trailer(Crc(Zeros(REG_BITS), payload));
    HeadIsBurst([number, 255 - number], [number2, 255 - number2], payload + [t[0], t[1]]);
  }

  lemma TwoPackets(r: Receiver, first: seq<Event>, second: seq<Event>, payload: seq<Byte>) returns (t: Receiver)
    requires r.phase == Control && r.seqnum == 1 && r.log == [] && IsPayload(payload)
    requires Carries(r.check, first, 1, payload) && Carries(r.check, second, 2, payload)
    ensures t == Run(r, first + second) && t.log == [payload, payload] && t.out == r.out + [ACK] + [ACK]
  {
    NewPacketIsAccepted(r, first, payload);
    NewPacketIsAccepted(Run(r, first), second, payload);
    RunConcat(r, first, second);
    t := Run(r, first + second);
  }

  /** The failing input: packet 1 repeated with number and complement hit alike
      arrives as packet 2, is acknowledged and stored a second time. */
  lemma HeaderBurstIsAccepted(payload: seq<Byte>, dest: seq<Byte>) returns (t: Receiver)
    requires IsPayload(payload)
    ensures var c := Trailer(Crc(Zeros(REG_BITS), payload));
            && BurstOnPacket(1, payload, 2, 253, payload, c[0], c[1])
            && t == Run(Init(CrcCheck, dest), Events(Frame(1, payload)) + Events(Packed(2, 253, payload, c[0], c[1])))
    ensures t.log == [payload, payload] && t.out == [INVITE] + [ACK] + [ACK]
  {
    HeaderBurst(1, 2, payload);
    FrameCarries(1, payload);
    FrameCarries(2, payload);
    t := TwoPackets(Init(CrcCheck, dest), Events(Frame(1, payload)), Events(Frame(2, payload)), payload);
  }

  // ----- an undisturbed transfer

  /** The packets one after the other, then EOT and silence. */
  function Transfer(lines: seq<seq<Event>>): seq<Event>
    decreases |lines|
  {
    if lines == [] then [Got(EOT), Timeout] else lines[0] + Transfer(lines[1..])
  }

  /** What a sender puts on the line. */
  function Lines(packets: seq<seq<Byte>>): (r: seq<seq<Event>>)
    ensures |r| == |packets|
  {
    seq(|packets|, i requires 0 <= i < |packets| => Events(Frame((i + 1) % 256, packets[i])))
  }

  ghost predicate AllCarried(check: Check, lines: seq<seq<Event>>, first: Byte, packets: seq<seq<Byte>>) {
    && |lines| == |packets|
    && forall i :: 0 <= i < |packets| ==>
         IsPayload(packets[i]) && Carries(check, lines[i], (first + i) % 256, packets[i])
  }

  lemma RestCarried(check: Check, lines: seq<seq<Event>>, first: Byte, packets: seq<seq<Byte>>)
    requires packets != [] && AllCarried(check, lines, first, packets)
    ensures IsPayload(packets[0]) && Carries(check, lines[0], first, packets[0])
    ensures AllCarried(check, lines[1..], (first + 1) % 256, packets[1..])
  {
    assert Carries(check, lines[0], (first + 0) % 256, packets[0]);
    forall i | 0 <= i < |packets[1..]|
      ensures IsPayload(packets[1..][i])
           && Carries(check, lines[1..][i], ((first + 1) % 256 + i) % 256, packets[1..][i])
    {
      assert Carries(check, lines[i + 1], (first + (i + 1)) % 256, packets[i + 1]);
    }
  }

  ghost predicate Delivers(r: Receiver, lines: seq<seq<Event>>, packets: seq<seq<Byte>>) {
    var t := Run(r, Transfer(lines)); t.log == r.log + packets && t.phase == Done(t.totalbytes)
  }

  lemma LastDelivered(r: Receiver)
    requires r.phase == Control && r.totalbytes > 0
    ensures Delivers(r, [], [])
  {
    RunTwo(r, Got(EOT), Timeout);
    assert r.log + [] == r.log;
  }

  lemma FirstTransferred(r: Receiver, lines: seq<seq<Event>>, packets: seq<seq<Byte>>) returns (s: Receiver)
    requires r.phase == Control && packets != [] && AllCarried(r.check, lines, r.seqnum, packets)
    ensures s.phase == Control && s.totalbytes > 0 && AllCarried(s.check, lines[1..], s.seqnum, packets[1..])
    ensures s.log == r.log + [packets[0]] && Run(r, Transfer(lines)) == Run(s, Transfer(lines[1..]))
  {
    RestCarried(r.check, lines, r.seqnum, packets);
    NewPacketIsAccepted(r, lines[0], packets[0]);
    RunConcat(r, lines[0], Transfer(lines[1..]));
    s := Run(r, lines[0]);
  }

  lemma FirstDelivered(r: Receiver, lines: seq<seq<Event>>, packets: seq<seq<Byte>>) returns (s: Receiver)
    requires r.phase == Control && packets != [] && AllCarried(r.check, lines, r.seqnum, packets)
    ensures s.phase == Control && s.totalbytes > 0 && AllCarried(s.check, lines[1..], s.seqnum, packets[1..])
    ensures Delivers(s, lines[1..], packets[1..]) ==> Delivers(r, lines, packets)
  {
    s := FirstTransferred(r, lines, packets);
    assert s.log + packets[1..] == r.log + packets;
  }

  lemma {:induction false} TransferRun(r: Receiver, lines: seq<seq<Event>>, packets: seq<seq<Byte>>)
    requires r.phase == Control && (r.totalbytes > 0 || packets != [])
    requires AllCarried(r.check, lines, r.seqnum, packets)
    ensures Delivers(r, lines, packets)
    decreases |packets|
  {
    if packets == [] {
      LastDelivered(r);
    } else {
      var s := FirstDelivered(r, lines, packets);
      TransferRun(s, lines[1..], packets[1..]);
    }
  }

  /** Round trip: the receiver returns the size of what the sender packs, for any
      number of packets of either size and any number of wraps of the packet
      number.  The data is in the buffer exactly when it fits: line 169 drops
      what does not, and the returned count does not tell. */
  lemma RoundTrip(packets: seq<seq<Byte>>, dest: seq<Byte>)
    requires packets != [] && forall i :: 0 <= i < |packets| ==> IsPayload(packets[i])
    ensures var t := Run(Init(CrcCheck, dest), Transfer(Lines(packets)));
            && t.phase == Done(|Data(packets)|)
            && (Data(packets) <= t.dest <==> |Data(packets)| <= |dest|)
  {
    var line := Transfer(Lines(packets));
    AllFramesCarried(packets);
    TransferRun(Init(CrcCheck, dest), Lines(packets), packets);
    BufferHoldsAccepted(CrcCheck, dest, line);
    assert [] + packets == packets;
  }

  lemma AllFramesCarried(packets: seq<seq<Byte>>)
    requires forall i :: 0 <= i < |packets| ==> IsPayload(packets[i])
    ensures AllCarried(CrcCheck, Lines(packets), 1, packets)
  {
    forall i | 0 <= i < |packets| ensures Carries(CrcCheck, Lines(packets)[i], (1 + i) % 256, packets[i]) {
      FrameCarries((i + 1) % 256, packets[i]);
    }
  }
}
