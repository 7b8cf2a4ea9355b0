/** The receiver of src/xmodem.c against a stop-and-wait sender over a line that
    loses packets and replies and damages packets. */
module XmodemLossy {
  import opened Crc16
  import opened Xmodem
  import opened XmodemLink

  // ----- the line, described by itself

  /** What arrives of one sending: all of it, fewer bytes than were sent, or a
      packet of its size with other content. */
  datatype Arrival =
    | Whole
    | Short(bytes: seq<Byte>)
    | Damaged(number: Byte, complement: Byte, payload: seq<Byte>, hi: Byte, lo: Byte)

  /** One attempt of the sender: what arrives, for how many time-outs the line is
      quiet afterwards, and whether a reply reaches the sender before it resends. */
  datatype Attempt = Attempt(arrival: Arrival, pauses: nat, replied: bool)

  /** What the sender sends: packet `next`, or EOT when all are acknowledged. */
  function Sent(packets: seq<seq<Byte>>, next: nat): seq<Byte> {
    if next < |packets| then Frame((next + 1) % 256, packets[next]) else [EOT]
  }

  function Bytes(a: Attempt, packets: seq<seq<Byte>>, next: nat): seq<Byte> {
    match a.arrival
    case Whole => Sent(packets, next)
    case Short(bytes) => bytes
    case Damaged(number, complement, payload, hi, lo) => Packed(number, complement, payload, hi, lo)
  }

  function Pauses(n: nat): (r: seq<Event>)
    ensures |r| == n
  {
    seq(n, i => Timeout)
  }

  function Line(a: Attempt, packets: seq<seq<Byte>>, next: nat): seq<Event> {
    Events(Bytes(a, packets, next)) + Pauses(a.pauses)
  }

  /** The line loses and damages, but no more than this: what is cut short starts
      with the start byte and is followed by silence; a damaged packet keeps its
      start byte and its size, and either its number and complement do not match
      or payload and trailer differ from what was sent within 16 consecutive bits. */
  ghost predicate Possible(a: Attempt, packets: seq<seq<Byte>>, next: nat) {
    match a.arrival
    case Whole => true
    case Short(bytes) =>
      |bytes| < |Sent(packets, next)| && (bytes != [] ==> bytes[0] == Sent(packets, next)[0] && a.pauses >= 1)
    case Damaged(number, complement, payload, hi, lo) =>
      next < |packets| && |payload| == |packets[next]|
      && (number != 255 - complement || DamagedInTransit(packets[next], payload, hi, lo))
  }

  ghost predicate ArePayloads(packets: seq<seq<Byte>>) {
    forall i :: 0 <= i < |packets| ==> IsPayload(packets[i])
  }

  // ----- such a line passes nothing but the packet sent

  /** This byte completes a packet that passes every check. */
  predicate Passes(r: Receiver, e: Event) {
    r.phase.Packet? && r.phase.size >= 0 && r.phase.rx == r.phase.size + 1 && e.Got? && Intact(r, e.c)
  }

  /** A packet that passes every check is the one the sender is sending. */
  ghost predicate Genuine(r: Receiver, line: seq<Event>, packets: seq<seq<Byte>>, next: nat)
    decreases |line|
  {
    line != [] ==>
      && (Passes(r, line[0]) ==> next < |packets| && r.seq0 == (next + 1) % 256 && r.frame == packets[next])
      && Genuine(Step(r, line[0]), line[1..], packets, next)
  }

  /** Between two attempts: not inside a packet. */
  predicate Idle(r: Receiver) {
    r.phase.Control? || r.phase.Flush? || r.phase.Done?
  }

  lemma {:induction false} GenuineConcat(r: Receiver, a: seq<Event>, b: seq<Event>, packets: seq<seq<Byte>>, next: nat)
    requires Genuine(r, a, packets, next) && Genuine(Run(r, a), b, packets, next)
    ensures Genuine(r, a + b, packets, next)
    decreases |a|
  {
    if a == [] {
      assert a + b == b;
    } else {
      assert (a + b)[1..] == a[1..] + b;
      GenuineConcat(Step(r, a[0]), a[1..], b, packets, next);
    }
  }

  /** Silence: a flush ends, nothing is received. */
  lemma {:induction false} PausesAreGenuine(r: Receiver, n: nat, packets: seq<seq<Byte>>, next: nat)
    requires Idle(r)
    ensures Genuine(r, Pauses(n), packets, next) && Idle(Run(r, Pauses(n))) && Run(r, Pauses(n)).check == r.check
    decreases n
  {
    if n > 0 {
      assert Pauses(n)[1..] == Pauses(n - 1);
      PausesAreGenuine(Step(r, Timeout), n - 1, packets, next);
    }
  }

  /** While it flushes, or when it has returned, it eats everything. */
  lemma {:induction false} EatenBytes(r: Receiver, bytes: seq<Byte>, packets: seq<seq<Byte>>, next: nat)
    requires r.phase.Flush? || r.phase.Done?
    ensures Genuine(r, Events(bytes), packets, next) && Run(r, Events(bytes)) == r
    decreases |bytes|
  {
    if bytes != [] {
      assert Events(bytes)[1..] == Events(bytes[1..]);
      EatenBytes(r, bytes[1..], packets, next);
    }
  }

  /** Inside a packet, with nothing answered yet. */
  ghost predicate StillIn(r: Receiver, t: Receiver) {
    t.phase.Packet? && t.check == r.check && t.log == r.log && t.retry == r.retry && t.out == r.out
  }

  /** Bytes that do not complete the packet. */
  lemma {:induction false} NotYet(r: Receiver, bytes: seq<Byte>, packets: seq<seq<Byte>>, next: nat)
    requires r.phase.Packet? && r.phase.size >= 0 && -2 <= r.phase.rx && r.phase.rx + |bytes| <= r.phase.size + 1
    ensures Genuine(r, Events(bytes), packets, next) && StillIn(r, Run(r, Events(bytes)))
    decreases |bytes|
  {
    if bytes != [] {
      assert Events(bytes)[1..] == Events(bytes[1..]);
      NotYet(Step(r, Got(bytes[0])), bytes[1..], packets, next);
    }
  }

  /** Part of a packet of a size. */
  lemma PartOfPacket(r: Receiver, bytes: seq<Byte>, size: nat, packets: seq<seq<Byte>>, next: nat)
    requires r.phase == Control && (size == 128 || size == 1024) && 0 < |bytes| <= size + 4
    requires bytes[0] == if size == 128 then SOH else STX
    ensures Genuine(r, Events(bytes), packets, next) && StillIn(r, Run(r, Events(bytes)))
  {
    assert Events(bytes)[1..] == Events(bytes[1..]);
    var s := Step(r, Got(bytes[0]));
    assert s == Start(r, size);
    NotYet(s, bytes[1..], packets, next);
  }

  /** A complete packet passes only if it is intact, and then it is the one sent. */
  lemma PacketIsGenuine(r: Receiver, number: Byte, complement: Byte, payload: seq<Byte>, hi: Byte, lo: Byte,
                        packets: seq<seq<Byte>>, next: nat, line: seq<Event>)
    requires r.phase == Control && IsPayload(payload) && line == Events(Packed(number, complement, payload, hi, lo))
    requires number == 255 - complement && r.check(payload, hi, lo) ==>
               next < |packets| && number == (next + 1) % 256 && payload == packets[next]
    ensures Genuine(r, line, packets, next) && Idle(Run(r, line)) && Run(r, line).check == r.check
  {
    var front := Front(number, complement, payload, hi);
    var q := PacketRun(r, number, complement, payload, hi, lo);
    PartOfPacket(r, front, |payload|, packets, next);
    assert Packed(number, complement, payload, hi, lo) == front + [lo];
    EventsConcat(front, [lo]);
    LastByteIsGenuine(q, lo, packets, next);
    GenuineConcat(r, Events(front), Events([lo]), packets, next);
  }

  lemma LastByteIsGenuine(q: Receiver, lo: Byte, packets: seq<seq<Byte>>, next: nat)
    requires q.phase.Packet?
    requires Intact(q, lo) ==> next < |packets| && q.seq0 == (next + 1) % 256 && q.frame == packets[next]
    ensures Genuine(q, Events([lo]), packets, next)
  {
    var e := Events([lo]);
    assert e == [Got(lo)] && e[1..] == [];
    assert Genuine(Step(q, e[0]), e[1..], packets, next);
  }

  lemma DamagedIsGenuine(r: Receiver, a: Attempt, packets: seq<seq<Byte>>, next: nat, line: seq<Event>)
    requires r.phase == Control && r.check == CrcCheck && ArePayloads(packets)
    requires Possible(a, packets, next) && a.arrival.Damaged? && line == Events(Bytes(a, packets, next))
    ensures Genuine(r, line, packets, next) && Idle(Run(r, line)) && Run(r, line).check == r.check
  {
    var Damaged(number, complement, payload, hi, lo) := a.arrival;
    if number == 255 - complement {
      BurstFailsTheCheck(packets[next], payload, hi, lo);
    }
    PacketIsGenuine(r, number, complement, payload, hi, lo, packets, next, line);
  }

  lemma EotIsGenuine(r: Receiver, packets: seq<seq<Byte>>, next: nat, line: seq<Event>)
    requires r.phase == Control && line == [Got(EOT)]
    ensures Genuine(r, line, packets, next) && Idle(Run(r, line)) && Run(r, line).check == r.check
  {
    assert line[1..] == [] && Genuine(Step(r, line[0]), line[1..], packets, next);
    RunOne(r, Got(EOT));
  }

  lemma FrameIsGenuine(r: Receiver, packets: seq<seq<Byte>>, next: nat, line: seq<Event>)
    requires r.phase == Control && next < |packets| && IsPayload(packets[next])
    requires line == Events(Frame((next + 1) % 256, packets[next]))
    ensures Genuine(r, line, packets, next) && Idle(Run(r, line)) && Run(r, line).check == r.check
  {
    var number: Byte := (next + 1) % 256;
    var c := Trailer(Crc(Zeros(REG_BITS), packets[next]));
    PacketIsGenuine(r, number, 255 - number, packets[next], c[0], c[1], packets, next, line);
  }

  lemma WholeIsGenuine(r: Receiver, packets: seq<seq<Byte>>, next: nat, line: seq<Event>)
    requires r.phase == Control && ArePayloads(packets) && line == Events(Sent(packets, next))
    ensures Genuine(r, line, packets, next) && Idle(Run(r, line)) && Run(r, line).check == r.check
  {
    if next < |packets| {
      FrameIsGenuine(r, packets, next, line);
    } else {
      EotIsGenuine(r, packets, next, line);
    }
  }

  /** What was cut short, with the silence behind it. */
  lemma ShortIsGenuine(r: Receiver, a: Attempt, packets: seq<seq<Byte>>, next: nat)
    requires r.phase == Control && ArePayloads(packets) && Possible(a, packets, next) && a.arrival.Short?
    ensures var line := Line(a, packets, next);
            Genuine(r, line, packets, next) && Idle(Run(r, line)) && Run(r, line).check == r.check
  {
    var bytes := a.arrival.bytes;
    if bytes == [] {
      assert Line(a, packets, next) == Pauses(a.pauses);
      PausesAreGenuine(r, a.pauses, packets, next);
    } else {
      PartOfPacket(r, bytes, |packets[next]|, packets, next);
      var s := Run(r, Events(bytes));
      CutPacket(s, a.pauses, packets, next);
      GenuineConcat(r, Events(bytes), Pauses(a.pauses), packets, next);
      RunConcat(r, Events(bytes), Pauses(a.pauses));
    }
  }

  lemma CutPacket(s: Receiver, n: nat, packets: seq<seq<Byte>>, next: nat)
    requires s.phase.Packet? && n >= 1
    ensures Genuine(s, Pauses(n), packets, next) && Idle(Run(s, Pauses(n))) && Run(s, Pauses(n)).check == s.check
  {
    assert Pauses(n)[1..] == Pauses(n - 1);
    PausesAreGenuine(Step(s, Timeout), n - 1, packets, next);
  }

  lemma ListenedIsGenuine(r: Receiver, a: Attempt, packets: seq<seq<Byte>>, next: nat)
    requires r.phase == Control && r.check == CrcCheck && ArePayloads(packets) && Possible(a, packets, next)
    ensures var line := Line(a, packets, next);
            Genuine(r, line, packets, next) && Idle(Run(r, line)) && Run(r, line).check == r.check
  {
    if a.arrival.Short? {
      ShortIsGenuine(r, a, packets, next);
    } else {
      var line := Events(Bytes(a, packets, next));
      if a.arrival.Whole? {
        WholeIsGenuine(r, packets, next, line);
      } else {
        DamagedIsGenuine(r, a, packets, next, line);
      }
      ThenSilence(r, line, a.pauses, packets, next);
    }
  }

  lemma ThenSilence(r: Receiver, line: seq<Event>, n: nat, packets: seq<seq<Byte>>, next: nat)
    requires Genuine(r, line, packets, next) && Idle(Run(r, line)) && Run(r, line).check == r.check
    ensures var all := line + Pauses(n);
            Genuine(r, all, packets, next) && Idle(Run(r, all)) && Run(r, all).check == r.check
  {
    PausesAreGenuine(Run(r, line), n, packets, next);
    GenuineConcat(r, line, Pauses(n), packets, next);
    RunConcat(r, line, Pauses(n));
  }

  /** Detection: with the CRC check, over such a line a packet that passes every
      check is the one sent; and the receiver is idle again afterwards. */
  lemma LineIsGenuine(r: Receiver, a: Attempt, packets: seq<seq<Byte>>, next: nat, line: seq<Event>)
    requires Idle(r) && r.check == CrcCheck && ArePayloads(packets) && Possible(a, packets, next)
    requires line == Line(a, packets, next)
    ensures Genuine(r, line, packets, next) && Idle(Run(r, line)) && Run(r, line).check == CrcCheck
  {
    if r.phase.Control? {
      ListenedIsGenuine(r, a, packets, next);
    } else {
      EatenBytes(r, Bytes(a, packets, next), packets, next);
      ThenSilence(r, Events(Bytes(a, packets, next)), a.pauses, packets, next);
    }
  }

  // ----- sender and receiver

  /** The sender repeats packet `next` until a reply acknowledges it; when `next`
      is past the last packet it sends EOT.  `receiver` is what has become of the
      function by then. */
  datatype Link = Link(receiver: Receiver, next: nat)

  function Replies(before: Receiver, after: Receiver): seq<Byte>
    requires |before.out| <= |after.out|
  {
    after.out[|before.out|..]
  }

  lemma StepOnlyAppends(r: Receiver, e: Event)
    ensures r.out <= Step(r, e).out
  {
  }

  lemma {:induction false} RunOnlyAppends(r: Receiver, input: seq<Event>)
    ensures r.out <= Run(r, input).out
    decreases |input|
  {
    if input != [] {
      StepOnlyAppends(r, input[0]);
      RunOnlyAppends(Step(r, input[0]), input[1..]);
    }
  }

  function AfterAttempt(l: Link, a: Attempt, packets: seq<seq<Byte>>): Link {
    var line := Line(a, packets, l.next);
    RunOnlyAppends(l.receiver, line);
    var t := Run(l.receiver, line);
    Link(t, if a.replied && l.next < |packets| && ACK in Replies(l.receiver, t) then l.next + 1 else l.next)
  }

  ghost predicate LineAllows(l: Link, attempts: seq<Attempt>, packets: seq<seq<Byte>>)
    decreases |attempts|
  {
    attempts != [] ==>
      && Possible(attempts[0], packets, l.next)
      && LineAllows(AfterAttempt(l, attempts[0], packets), attempts[1..], packets)
  }

  function AfterAll(l: Link, attempts: seq<Attempt>, packets: seq<seq<Byte>>): Link
    decreases |attempts|
  {
    if attempts == [] then l else AfterAll(AfterAttempt(l, attempts[0], packets), attempts[1..], packets)
  }

  /** The function will accept nothing more. */
  predicate Ending(r: Receiver) {
    r.phase.Done? || (r.phase.Flush? && r.phase.after.Return?)
  }

  /** The packets accepted are the first ones sent, and while the function
      listens it is at most the lost acknowledgement ahead of the sender. */
  ghost predicate InStep(r: Receiver, base: nat, packets: seq<seq<Byte>>, next: nat) {
    && base <= |r.out| && next <= |packets| && r.log <= packets
    && (!Ending(r) ==>
          next <= |r.log| <= next + 1 && (ACK in r.out[base..] ==> |r.log| == next + 1))
  }

  /** Elsewhere than at the end of a packet nothing is accepted, and ACK is sent
      only before returning. */
  lemma OtherStepInStep(r: Receiver, e: Event, base: nat, packets: seq<seq<Byte>>, next: nat)
    requires InStep(r, base, packets, next)
    requires !(r.phase.Packet? && e.Got? && r.phase.rx == r.phase.size + 1 && r.phase.size >= 0)
    requires r.phase.Packet? ==> r.phase.size >= 0 && -2 <= r.phase.rx <= r.phase.size + 1
    ensures InStep(Step(r, e), base, packets, next)
  {
    var t := Step(r, e);
    assert t.log == r.log && (Ending(r) ==> Ending(t));
    assert Ending(t) || t.out == r.out || t.out == r.out + [INVITE] || t.out == r.out + [NAK];
  }

  lemma StepInStep(r: Receiver, e: Event, base: nat, packets: seq<seq<Byte>>, next: nat)
    requires Good(r) && InStep(r, base, packets, next)
    requires Passes(r, e) ==> next < |packets| && r.seq0 == (next + 1) % 256 && r.frame == packets[next]
    ensures InStep(Step(r, e), base, packets, next)
  {
    if r.phase.Packet? && e.Got? && r.phase.rx == r.phase.size + 1 {
      JudgeInStep(r, e.c, base, packets, next);
    } else {
      OtherStepInStep(r, e, base, packets, next);
    }
  }

  lemma JudgeInStep(r: Receiver, lo: Byte, base: nat, packets: seq<seq<Byte>>, next: nat)
    requires Good(r) && InStep(r, base, packets, next) && r.phase.Packet? && r.phase.rx == r.phase.size + 1
    requires Intact(r, lo) ==> next < |packets| && r.seq0 == (next + 1) % 256 && r.frame == packets[next]
    ensures InStep(Judge(r, lo), base, packets, next)
  {
  }

  lemma {:induction false} RunInStep(r: Receiver, line: seq<Event>, base: nat, packets: seq<seq<Byte>>, next: nat)
    requires Good(r) && InStep(r, base, packets, next) && Genuine(r, line, packets, next)
    ensures InStep(Run(r, line), base, packets, next)
    decreases |line|
  {
    if line != [] {
      StepInStep(r, line[0], base, packets, next);
      StepKeepsGood(r, line[0]);
      RunInStep(Step(r, line[0]), line[1..], base, packets, next);
    }
  }

  ghost predicate LinkGood(l: Link, packets: seq<seq<Byte>>) {
    && Good(l.receiver) && Idle(l.receiver) && l.receiver.check == CrcCheck
    && InStep(l.receiver, |l.receiver.out|, packets, l.next)
  }

  lemma AttemptKeepsGood(l: Link, a: Attempt, packets: seq<seq<Byte>>)
    requires LinkGood(l, packets) && ArePayloads(packets) && Possible(a, packets, l.next)
    ensures LinkGood(AfterAttempt(l, a, packets), packets)
    ensures |AfterAttempt(l, a, packets).receiver.dest| == |l.receiver.dest|
  {
    var line := Line(a, packets, l.next);
    LineIsGenuine(l.receiver, a, packets, l.next, line);
    GenuineKeepsGood(l, line, a.replied, packets);
  }

  lemma GenuineKeepsGood(l: Link, line: seq<Event>, replied: bool, packets: seq<seq<Byte>>)
    requires LinkGood(l, packets) && Genuine(l.receiver, line, packets, l.next)
    ensures var t := Run(l.receiver, line);
            && Good(t) && |t.dest| == |l.receiver.dest| && l.receiver.out <= t.out
            && InStep(t, |t.out|, packets,
                      if replied && l.next < |packets| && ACK in t.out[|l.receiver.out|..] then l.next + 1 else l.next)
  {
    var t := Run(l.receiver, line);
    RunInStep(l.receiver, line, |l.receiver.out|, packets, l.next);
    RunKeepsGood(l.receiver, line);
    RunOnlyAppends(l.receiver, line);
    assert t.out[|t.out|..] == [];
  }

  lemma {:induction false} AttemptsKeepGood(l: Link, attempts: seq<Attempt>, packets: seq<seq<Byte>>)
    requires LinkGood(l, packets) && ArePayloads(packets) && LineAllows(l, attempts, packets)
    ensures LinkGood(AfterAll(l, attempts, packets), packets)
    ensures |AfterAll(l, attempts, packets).receiver.dest| == |l.receiver.dest|
    decreases |attempts|
  {
    if attempts != [] {
      AttemptKeepsGood(l, attempts[0], packets);
      AttemptsKeepGood(AfterAttempt(l, attempts[0], packets), attempts[1..], packets);
    }
  }

  function Fresh(dest: seq<Byte>): Link {
    Link(Init(CrcCheck, dest), 0)
  }

  lemma FreshIsGood(dest: seq<Byte>, packets: seq<seq<Byte>>)
    ensures LinkGood(Fresh(dest), packets)
  {
    InitIsGood(CrcCheck, dest);
    var out := Init(CrcCheck, dest).out;
    assert out[|out|..] == [];
  }

  // ----- main results

  /** Safety over the lossy line: however often packets and replies are lost or
      damaged, the receiver has accepted the first packets of the sender, each
      once and in order, and the buffer starts with their data while they fit. */
  lemma Safety(dest: seq<Byte>, packets: seq<seq<Byte>>, attempts: seq<Attempt>)
    requires ArePayloads(packets) && LineAllows(Fresh(dest), attempts, packets)
    ensures var r := AfterAll(Fresh(dest), attempts, packets).receiver;
            && |r.log| <= |packets| && r.log == packets[..|r.log|]
            && r.totalbytes == |Data(packets[..|r.log|])|
            && (r.totalbytes <= |dest| ==> Data(packets[..|r.log|]) <= r.dest)
  {
    FreshIsGood(dest, packets);
    AttemptsKeepGood(Fresh(dest), attempts, packets);
    var r := AfterAll(Fresh(dest), attempts, packets).receiver;
    assert r.log[..|r.log|] == r.log;
  }

  /** Completeness: if the transfer was still going when the sender had every
      packet acknowledged, and in the next attempt (its EOT) the function returns
      a positive count, then it has received everything. */
  lemma Completeness(dest: seq<Byte>, packets: seq<seq<Byte>>, attempts: seq<Attempt>, last: Attempt,
                     l: Link, t: Receiver)
    requires ArePayloads(packets) && LineAllows(Fresh(dest), attempts, packets)
    requires l == AfterAll(Fresh(dest), attempts, packets) && l.next == |packets| && !Ending(l.receiver)
    requires Possible(last, packets, l.next) && t == AfterAttempt(l, last, packets).receiver
    requires t.phase.Done? && t.phase.ret > 0
    ensures t.log == packets && t.phase.ret == |Data(packets)|
    ensures t.phase.ret <= |dest| ==> Data(packets) <= t.dest
  {
    FreshIsGood(dest, packets);
    AttemptsKeepGood(Fresh(dest), attempts, packets);
    AttemptKeepsGood(l, last, packets);
    LogOnlyGrows(l.receiver, Line(last, packets, l.next));
    assert t.log[..|t.log|] == t.log;
  }

  lemma {:induction false} LogOnlyGrows(r: Receiver, input: seq<Event>)
    ensures r.log <= Run(r, input).log
    decreases |input|
  {
    if input != [] {
      LogOnlyGrows(Step(r, input[0]), input[1..]);
    }
  }

  // ----- delivery

  /** How often a packet may arrive whole before the receiver gives up on it:
      once and 24 repeats; packet 255 only once. */
  function Cap(next: nat): nat {
    if (next + 1) % 256 == 255 then 1 else MAXRETRANS
  }

  /** How often the packet being sent has arrived whole, after this attempt. */
  function Arrivals(l: Link, a: Attempt, after: Link, c: nat): nat {
    if after.next != l.next then 0 else if a.arrival.Whole? then c + 1 else c
  }

  /** The line allows the attempts, each for a packet, and no packet arrives whole
      more often than the receiver bears. */
  ghost predicate Patient(l: Link, c: nat, attempts: seq<Attempt>, packets: seq<seq<Byte>>)
    decreases |attempts|
  {
    attempts != [] ==>
      var after := AfterAttempt(l, attempts[0], packets);
      && l.next < |packets| && Possible(attempts[0], packets, l.next)
      && (attempts[0].arrival.Whole? ==> c < Cap(l.next))
      && Patient(after, Arrivals(l, attempts[0], after, c), attempts[1..], packets)
  }

  /** The transfer is going on, and the retries left tell the repeats so far. */
  ghost predicate Alive(l: Link, c: nat, packets: seq<seq<Byte>>) {
    && LinkGood(l, packets) && !Ending(l.receiver)
    && (|l.receiver.log| == l.next + 1 ==> c >= 1 && l.receiver.retry + c >= MAXRETRANS + 1)
    && (l.next == |packets| ==> |packets| == 0 || l.receiver.phase == Control)
  }

  /** Nothing accepted, repeated or acknowledged. */
  ghost predicate Unmoved(r: Receiver, t: Receiver) {
    && t.log == r.log && t.retry == r.retry && t.check == r.check
    && r.out <= t.out && ACK !in t.out[|r.out|..]
    && !Ending(t) && Idle(t)
  }

  lemma UnmovedTwice(r: Receiver, s: Receiver, t: Receiver)
    requires Unmoved(r, s) && Unmoved(s, t)
    ensures Unmoved(r, t)
  {
    assert t.out[|r.out|..] == s.out[|r.out|..] + t.out[|s.out|..];
  }

  lemma SilenceStep(r: Receiver)
    requires Idle(r) && !Ending(r)
    ensures Unmoved(r, Step(r, Timeout)) && Step(r, Timeout).phase == Control
  {
    var t := Step(r, Timeout);
    assert t.out[|r.out|..] == if r.asking then [INVITE] else [];
  }

  lemma {:induction false} SilenceUnmoved(r: Receiver, n: nat)
    requires Idle(r) && !Ending(r)
    ensures Unmoved(r, Run(r, Pauses(n)))
    ensures n > 0 || r.phase == Control ==> Run(r, Pauses(n)).phase == Control
    decreases n
  {
    if n == 0 {
      assert r.out[|r.out|..] == [];
    } else {
      assert Pauses(n)[1..] == Pauses(n - 1);
      SilenceStep(r);
      SilenceUnmoved(Step(r, Timeout), n - 1);
      UnmovedTwice(r, Step(r, Timeout), Run(r, Pauses(n)));
    }
  }

  lemma RefusedUnmoved(r: Receiver, t: Receiver)
    requires r.phase == Control && t.log == r.log && t.retry == r.retry && t.check == r.check
    requires t.phase == Flush(Continue) && t.out == r.out + [NAK]
    ensures Unmoved(r, t)
  {
    assert t.out[|r.out|..] == [NAK];
  }

  lemma CutUnmoved(r: Receiver, s: Receiver, n: nat)
    requires r.phase == Control && StillIn(r, s) && n >= 1
    ensures Unmoved(r, Run(s, Pauses(n)))
  {
    var t := Step(s, Timeout);
    assert Pauses(n)[1..] == Pauses(n - 1);
    RefusedUnmoved(r, t);
    SilenceUnmoved(t, n - 1);
    UnmovedTwice(r, t, Run(s, Pauses(n)));
  }

  lemma ShortUnmoved(r: Receiver, a: Attempt, packets: seq<seq<Byte>>, next: nat)
    requires r.phase == Control && ArePayloads(packets) && Possible(a, packets, next) && a.arrival.Short?
    ensures Unmoved(r, Run(r, Line(a, packets, next)))
  {
    var bytes := a.arrival.bytes;
    if bytes == [] {
      assert Line(a, packets, next) == Pauses(a.pauses);
      SilenceUnmoved(r, a.pauses);
    } else {
      PartOfPacket(r, bytes, |packets[next]|, packets, next);
      RunConcat(r, Events(bytes), Pauses(a.pauses));
      CutUnmoved(r, Run(r, Events(bytes)), a.pauses);
    }
  }

  lemma DamagedRefused(r: Receiver, a: Attempt, packets: seq<seq<Byte>>, next: nat, line: seq<Event>)
    requires r.phase == Control && r.check == CrcCheck && ArePayloads(packets)
    requires Possible(a, packets, next) && a.arrival.Damaged? && line == Events(Bytes(a, packets, next))
    ensures Refuses(r, line)
  {
    var Damaged(number, complement, payload, hi, lo) := a.arrival;
    if number != 255 - complement {
      DamagedHeaderIsRefused(r, number, complement, payload, hi, lo);
    } else {
      DamagedPacketIsRefused(r, number, complement, packets[next], payload, hi, lo, line);
    }
  }

  lemma DamagedUnmoved(r: Receiver, a: Attempt, packets: seq<seq<Byte>>, next: nat)
    requires r.phase == Control && r.check == CrcCheck && ArePayloads(packets)
    requires Possible(a, packets, next) && a.arrival.Damaged?
    ensures Unmoved(r, Run(r, Line(a, packets, next)))
  {
    var line := Events(Bytes(a, packets, next));
    DamagedRefused(r, a, packets, next, line);
    DamagedIsGenuine(r, a, packets, next, line);
    RunConcat(r, line, Pauses(a.pauses));
    var t := Run(r, line);
    RefusedUnmoved(r, t);
    SilenceUnmoved(t, a.pauses);
    UnmovedTwice(r, t, Run(r, Line(a, packets, next)));
  }

  lemma EatenUnmoved(r: Receiver, a: Attempt, packets: seq<seq<Byte>>, next: nat)
    requires r.phase == Flush(Continue)
    ensures Unmoved(r, Run(r, Line(a, packets, next)))
  {
    EatenBytes(r, Bytes(a, packets, next), packets, next);
    RunConcat(r, Events(Bytes(a, packets, next)), Pauses(a.pauses));
    SilenceUnmoved(r, a.pauses);
  }

  /** What a packet that arrives whole does while the receiver listens. */
  ghost predicate Acknowledged(r: Receiver, t: Receiver, next: nat) {
    && t.phase == Control && t.check == r.check && t.out == r.out + [ACK] && |t.log| == next + 1
    && t.retry == if |r.log| == next then MAXRETRANS else r.retry - 1
  }

  lemma FirstHeard(r: Receiver, payload: seq<Byte>, next: nat, number: Byte, line: seq<Event>)
    requires Good(r) && r.phase == Control && IsPayload(payload) && number == (next + 1) % 256
    requires |r.log| == next && Carries(r.check, line, number, payload)
    ensures Acknowledged(r, Run(r, line), next)
  {
    NewPacketIsAccepted(r, line, payload);
  }

  lemma RepeatHeard(r: Receiver, payload: seq<Byte>, next: nat, number: Byte, line: seq<Event>)
    requires Good(r) && r.phase == Control && IsPayload(payload) && number == (next + 1) % 256
    requires |r.log| == next + 1 && number != 255 && r.retry > 1 && Carries(r.check, line, number, payload)
    ensures Acknowledged(r, Run(r, line), next)
  {
    RepeatedPacket(r, line, payload, number);
  }

  lemma WholeHeard(r: Receiver, packets: seq<seq<Byte>>, next: nat, line: seq<Event>)
    requires Good(r) && r.phase == Control && r.check == CrcCheck && ArePayloads(packets) && next < |packets|
    requires |r.log| == next || (|r.log| == next + 1 && (next + 1) % 256 != 255 && r.retry > 1)
    requires line == Events(Frame((next + 1) % 256, packets[next]))
    ensures Acknowledged(r, Run(r, line), next)
  {
    var number: Byte := (next + 1) % 256;
    FrameCarries(number, packets[next]);
    if |r.log| == next {
      FirstHeard(r, packets[next], next, number, line);
    } else {
      RepeatHeard(r, packets[next], next, number, line);
    }
  }

  /** The same with the silence behind it. */
  lemma HeardThenSilence(r: Receiver, line: seq<Event>, n: nat, next: nat)
    requires Acknowledged(r, Run(r, line), next)
    ensures var t := Run(r, line + Pauses(n));
            && t.phase == Control && |t.log| == next + 1 && r.out <= t.out && ACK in t.out[|r.out|..]
            && t.retry == if |r.log| == next then MAXRETRANS else r.retry - 1
  {
    RunConcat(r, line, Pauses(n));
    var s := Run(r, line);
    SilenceUnmoved(s, n);
    var t := Run(s, Pauses(n));
    assert t.out[|r.out|] == ACK;
  }

  /** An attempt that moves nothing leaves the transfer alive. */
  lemma UnmovedAlive(l: Link, c: nat, a: Attempt, packets: seq<seq<Byte>>)
    requires Alive(l, c, packets) && ArePayloads(packets) && l.next < |packets| && Possible(a, packets, l.next)
    requires Unmoved(l.receiver, Run(l.receiver, Line(a, packets, l.next)))
    ensures var after := AfterAttempt(l, a, packets);
            after.next == l.next && Alive(after, Arrivals(l, a, after, c), packets)
  {
    AttemptKeepsGood(l, a, packets);
  }

  lemma HeardAlive(l: Link, c: nat, a: Attempt, packets: seq<seq<Byte>>)
    requires Alive(l, c, packets) && ArePayloads(packets) && l.next < |packets|
    requires a.arrival.Whole? && c < Cap(l.next) && l.receiver.phase == Control
    ensures var after := AfterAttempt(l, a, packets);
            && Alive(after, Arrivals(l, a, after, c), packets) && after.receiver.phase == Control
            && after.next == if a.replied then l.next + 1 else l.next
  {
    var r := l.receiver;
    var line := Events(Bytes(a, packets, l.next));
    AttemptKeepsGood(l, a, packets);
    WholeHeard(r, packets, l.next, line);
    HeardThenSilence(r, line, a.pauses, l.next);
  }

  lemma AttemptKeepsAlive(l: Link, c: nat, a: Attempt, packets: seq<seq<Byte>>)
    requires Alive(l, c, packets) && ArePayloads(packets) && l.next < |packets| && Possible(a, packets, l.next)
    requires a.arrival.Whole? ==> c < Cap(l.next)
    ensures var after := AfterAttempt(l, a, packets); Alive(after, Arrivals(l, a, after, c), packets)
  {
    if l.receiver.phase != Control {
      EatenUnmoved(l.receiver, a, packets, l.next);
      UnmovedAlive(l, c, a, packets);
    } else if a.arrival.Whole? {
      HeardAlive(l, c, a, packets);
    } else {
      if a.arrival.Short? {
        ShortUnmoved(l.receiver, a, packets, l.next);
      } else {
        DamagedUnmoved(l.receiver, a, packets, l.next);
      }
      UnmovedAlive(l, c, a, packets);
    }
  }

  lemma {:induction false} AttemptsKeepAlive(l: Link, c: nat, attempts: seq<Attempt>, packets: seq<seq<Byte>>)
    returns (d: nat)
    requires Alive(l, c, packets) && ArePayloads(packets) && Patient(l, c, attempts, packets)
    ensures Alive(AfterAll(l, attempts, packets), d, packets)
    decreases |attempts|
  {
    if attempts == [] {
      d := c;
    } else {
      var after := AfterAttempt(l, attempts[0], packets);
      AttemptKeepsAlive(l, c, attempts[0], packets);
      d := AttemptsKeepAlive(after, Arrivals(l, attempts[0], after, c), attempts[1..], packets);
    }
  }

  lemma FreshIsAlive(dest: seq<Byte>, packets: seq<seq<Byte>>)
    ensures Alive(Fresh(dest), 0, packets)
  {
    FreshIsGood(dest, packets);
  }

  /** EOT to a receiver that listens and has something. */
  lemma EotReturns(r: Receiver, a: Attempt, packets: seq<seq<Byte>>, next: nat)
    requires r.phase == Control && r.totalbytes > 0 && next >= |packets| && a.arrival.Whole? && a.pauses >= 1
    ensures var t := Run(r, Line(a, packets, next));
            t.phase == Done(r.totalbytes) && t.log == r.log && t.dest == r.dest && t.totalbytes == r.totalbytes
  {
    var e := Events([EOT]);
    assert e == [Got(EOT)];
    RunConcat(r, e, Pauses(a.pauses));
    RunOne(r, Got(EOT));
    var s := Step(r, Got(EOT));
    assert Pauses(a.pauses)[1..] == Pauses(a.pauses - 1);
    StaysDone(Step(s, Timeout), a.pauses - 1);
  }

  lemma {:induction false} StaysDone(r: Receiver, n: nat)
    requires r.phase.Done?
    ensures Run(r, Pauses(n)) == r
    decreases n
  {
    if n > 0 {
      assert Pauses(n)[1..] == Pauses(n - 1);
      StaysDone(r, n - 1);
    }
  }

  /** Delivery: over any line on which no packet arrives whole more often than the
      receiver bears, when the sender has every packet acknowledged and its EOT
      arrives, the function returns the size of all the data, and the data is in
      the buffer if and only if it fits. */
  lemma Delivery(dest: seq<Byte>, packets: seq<seq<Byte>>, attempts: seq<Attempt>, last: Attempt, l: Link, t: Receiver)
    requires ArePayloads(packets) && packets != [] && Patient(Fresh(dest), 0, attempts, packets)
    requires l == AfterAll(Fresh(dest), attempts, packets) && l.next == |packets|
    requires last.arrival.Whole? && last.pauses >= 1 && t == AfterAttempt(l, last, packets).receiver
    ensures t.phase == Done(|Data(packets)|) && t.log == packets
    ensures Data(packets) <= t.dest <==> |Data(packets)| <= |dest|
  {
    FreshIsAlive(dest, packets);
    var d := AttemptsKeepAlive(Fresh(dest), 0, attempts, packets);
    PatientIsAllowed(Fresh(dest), 0, attempts, packets);
    FreshIsGood(dest, packets);
    AttemptsKeepGood(Fresh(dest), attempts, packets);
    SomeData(packets);
    assert l.receiver.log == packets;
    EotReturns(l.receiver, last, packets, l.next);
    assert packets[..|packets|] == packets;
  }

  lemma {:induction false} PatientIsAllowed(l: Link, c: nat, attempts: seq<Attempt>, packets: seq<seq<Byte>>)
    requires Patient(l, c, attempts, packets)
    ensures LineAllows(l, attempts, packets)
    decreases |attempts|
  {
    if attempts != [] {
      var after := AfterAttempt(l, attempts[0], packets);
      PatientIsAllowed(after, Arrivals(l, attempts[0], after, c), attempts[1..], packets);
    }
  }

  lemma SomeData(packets: seq<seq<Byte>>)
    requires ArePayloads(packets) && packets != []
    ensures |Data(packets)| > 0
  {
    assert IsPayload(packets[|packets| - 1]);
  }

  /** No such line leads to a dead end: as long as the packet being sent may still
      arrive, some further attempts deliver everything. */
  lemma {:induction false} CanFinish(l: Link, c: nat, packets: seq<seq<Byte>>) returns (rest: seq<Attempt>)
    requires Alive(l, c, packets) && ArePayloads(packets)
    requires l.next < |packets| ==> c < Cap(l.next)
    ensures Patient(l, c, rest, packets) && AfterAll(l, rest, packets).next == |packets|
    decreases |packets| - l.next, if l.receiver.phase == Control then 0 else 1
  {
    if l.next == |packets| {
      rest := [];
    } else {
      var a := if l.receiver.phase == Control then Attempt(Whole, 0, true) else Attempt(Short([]), 1, false);
      var after := AfterAttempt(l, a, packets);
      if l.receiver.phase == Control {
        HeardAlive(l, c, a, packets);
      } else {
        AttemptKeepsAlive(l, c, a, packets);
        Listens(l, a, packets);
      }
      var more := CanFinish(after, Arrivals(l, a, after, c), packets);
      rest := [a] + more;
      assert rest[1..] == more;
    }
  }

  /** A second of silence ends the flush. */
  lemma Listens(l: Link, a: Attempt, packets: seq<seq<Byte>>)
    requires l.receiver.phase == Flush(Continue) && l.next < |packets| && a == Attempt(Short([]), 1, false)
    ensures var after := AfterAttempt(l, a, packets); after.receiver.phase == Control && after.next == l.next
  {
    assert Line(a, packets, l.next) == Pauses(1);
    SilenceUnmoved(l.receiver, 1);
  }
}
