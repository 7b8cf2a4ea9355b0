/** The XMODEM receiver of src/xmodem.c as a machine that reacts to what
    `_inbyte` returns: one byte or a timeout. */
module Xmodem {
  import opened Crc16

  const SOH: Byte := 0x01
  const STX: Byte := 0x02
  const EOT: Byte := 0x04
  const ACK: Byte := 0x06
  const NAK: Byte := 0x15
  const CAN: Byte := 0x18
  const MAXRETRANS: nat := 25

  /** The invitation 'C'. */
  const INVITE: Byte := 0x43

  datatype Event = Got(c: Byte) | Timeout

  /** Where the function stands, and what it does once the line is quiet. */
  datatype Phase =
    | Control                      // 119
    | SecondCan                    // 143
    | Packet(size: nat, rx: int)   // 160
    | Flush(after: Resume)         // 86
    | Done(ret: int)

  /** Does a payload agree with its two trailer bytes?  The function compares
      CRCs (`CrcCheck`); most of what follows holds for any check. */
  type Check = (seq<Byte>, Byte, Byte) -> bool

  /** `buf_crc == partial_crc`, line 183: the CRC is folded from 0, line 123. */
  predicate CrcCheck(payload: seq<Byte>, hi: Byte, lo: Byte) {
    Crc(Zeros(REG_BITS), payload) == Word(hi, lo)
  }

  datatype Resume = Continue | Return(ret: int)

  /** The locals of xmodem_receive and the destination buffer.  `frame` and `log`
      are history: the payload received so far in this packet, and the packets
      accepted so far. */
  datatype Receiver = Receiver(
    check: Check,
    phase: Phase,
    asking: bool,        // trychar is 'C' and not 0
    seq0: Byte,
    seq1: Byte,
    bufHi: Byte,         // first half of buf_crc
    seqnum: Byte,
    pos: nat,            // buf - dest
    totalbytes: nat,
    retry: int,
    dest: seq<Byte>,
    out: seq<Byte>,      // everything sent with _outbyte
    frame: seq<Byte>,
    log: seq<seq<Byte>>)

  /** The top of the loop at 117-118. */
  function Await(r: Receiver): Receiver {
    r.(phase := Control, out := r.out + if r.asking then [INVITE] else [])
  }

  function Init(check: Check, dest: seq<Byte>): Receiver {
    Await(Receiver(check, Control, true, 0, 0, 0, 1, 0, 0, MAXRETRANS, dest, [], [], []))
  }

  function Send(r: Receiver, reply: seq<Byte>): Receiver {
    r.(out := r.out + reply)
  }

  /** Lines 162-164, 180-182, 185-187. */
  function Refuse(r: Receiver): Receiver {
    Send(r, [NAK]).(phase := Flush(Continue))
  }

  /** xmodem_send_can and the return that follows it. */
  function Cancel(r: Receiver, ret: int): Receiver {
    Send(r, [CAN, CAN, CAN]).(phase := Flush(Return(ret)))
  }

  /** Lines 121-130. */
  function Start(r: Receiver, size: nat): Receiver {
    r.(phase := Packet(size, -2), asking := false, frame := [])
  }

  function OnControl(r: Receiver, c: Byte): Receiver {
    if c == SOH then Start(r, 128)
    else if c == STX then Start(r, 1024)
    else if c == EOT then
      if r.totalbytes == 0 then r.(phase := Done(-2))
      else Send(r, [ACK]).(phase := Flush(Return(r.totalbytes)))
    else if c == CAN then r.(phase := SecondCan)
    else Await(r)
  }

  /** The checks of lines 178-187 on a complete packet. */
  predicate Intact(r: Receiver, lo: Byte)
    requires r.phase.Packet?
  {
    r.seq0 == 255 - r.seq1 && r.check(r.frame, r.bufHi, lo)
  }

  function Accept(r: Receiver, size: nat): Receiver {
    Await(Send(r.(seqnum := (r.seqnum + 1) % 256, pos := r.pos + size, totalbytes := r.totalbytes + size,
                  retry := MAXRETRANS, log := r.log + [r.frame]), [ACK]))
  }

  function Repeat(r: Receiver): Receiver {
    var s := r.(retry := r.retry - 1);
    if s.retry <= 0 then Cancel(s, -3) else Await(Send(s, [ACK]))
  }

  /** Lines 174-209: the last byte of a packet.  `seqnum == seq[0] + 1` is
      computed in int, so it fails when seq[0] is 255. */
  function Judge(r: Receiver, lo: Byte): Receiver
    requires r.phase.Packet?
  {
    if !Intact(r, lo) then Refuse(r)
    else if r.seqnum == r.seq0 + 1 then Repeat(r)
    else if r.seqnum == r.seq0 then Accept(r, r.phase.size)
    else Cancel(r, -2)
  }

  /** Lines 169-170. */
  function StoreByte(r: Receiver, size: nat, rx: nat, c: Byte): seq<Byte> {
    if r.totalbytes + size <= |r.dest| && r.pos + rx < |r.dest| then r.dest[r.pos + rx := c] else r.dest
  }

  function OnPacket(r: Receiver, c: Byte): Receiver
    requires r.phase.Packet?
  {
    var Packet(size, rx) := r.phase;
    var next := Packet(size, rx + 1);
    if rx == -2 then r.(seq0 := c, phase := next)
    else if rx < 0 then r.(seq1 := c, phase := next)
    else if rx < size then
      r.(dest := StoreByte(r, size, rx, c), frame := r.frame + [c], phase := next)
    else if rx == size then r.(bufHi := c, phase := next)
    else Judge(r, c)
  }

  function Step(r: Receiver, e: Event): Receiver {
    match r.phase
    case Control => if e.Got? then OnControl(r, e.c) else Await(r)
    case SecondCan =>
      if e == Got(CAN) then Send(r, [ACK]).(phase := Flush(Return(-1))) else Await(r)
    case Packet(_, _) => if e.Got? then OnPacket(r, e.c) else Refuse(r)
    case Flush(after) =>
      if e.Got? then r
      else if after.Continue? then Await(r)
      else r.(phase := Done(after.ret))
    case Done(_) => r
  }

  function Run(r: Receiver, input: seq<Event>): Receiver
    decreases |input|
  {
    if input == [] then r else Run(Step(r, input[0]), input[1..])
  }

  lemma {:induction false} RunConcat(r: Receiver, a: seq<Event>, b: seq<Event>)
    ensures Run(r, a + b) == Run(Run(r, a), b)
    decreases |a|
  {
    if a == [] {
      assert a + b == b;
    } else {
      assert (a + b)[1..] == a[1..] + b;
      RunConcat(Step(r, a[0]), a[1..], b);
    }
  }

  lemma RunSnoc(r: Receiver, input: seq<Event>, k: nat)
    requires k < |input|
    ensures Run(r, input[..k + 1]) == Step(Run(r, input[..k]), input[k])
  {
    assert input[..k + 1] == input[..k] + [input[k]];
    RunConcat(r, input[..k], [input[k]]);
    var s := Run(r, input[..k]);
    assert Run(s, [input[k]]) == Run(Step(s, input[k]), []);
  }

  lemma RunTwo(r: Receiver, a: Event, b: Event)
    ensures Run(r, [a, b]) == Step(Step(r, a), b)
  {
    assert [a, b][1..] == [b];
    assert Run(Step(r, a), [b]) == Run(Step(Step(r, a), b), []);
  }

  // ----- what holds for any input whatever

  function Data(log: seq<seq<Byte>>): seq<Byte> {
    if log == [] then [] else Data(log[..|log| - 1]) + log[|log| - 1]
  }

  ghost predicate PacketGood(r: Receiver) {
    r.phase.Packet? ==>
      var Packet(size, rx) := r.phase;
      && (size == 128 || size == 1024)
      && -2 <= rx <= size + 1
      && |r.frame| == (if rx < 0 then 0 else if rx <= size then rx else size)
      && (r.totalbytes + size <= |r.dest| ==> r.dest[r.totalbytes..r.totalbytes + |r.frame|] == r.frame)
  }

  /** Every group of leading packets that fits the buffer stands at its start. */
  ghost predicate Stored(log: seq<seq<Byte>>, dest: seq<Byte>) {
    forall j :: 0 <= j <= |log| && |Data(log[..j])| <= |dest| ==> Data(log[..j]) <= dest
  }

  /** A positive result is the number of bytes counted. */
  ghost predicate ResultGood(r: Receiver) {
    match r.phase
    case Flush(Return(ret)) => ret > 0 ==> ret == r.totalbytes
    case Done(ret) => ret > 0 ==> ret == r.totalbytes
    case _ => true
  }

  ghost predicate Good(r: Receiver) {
    && r.pos == r.totalbytes == |Data(r.log)|
    && r.seqnum == (1 + |r.log|) % 256
    && Stored(r.log, r.dest)
    && PacketGood(r)
    && ResultGood(r)
  }

  lemma DataSnoc(log: seq<seq<Byte>>, f: seq<Byte>)
    ensures Data(log + [f]) == Data(log) + f
  {
    assert (log + [f])[..|log|] == log;
  }

  lemma {:induction false} DataGrows(log: seq<seq<Byte>>, j: nat)
    requires j <= |log|
    ensures Data(log[..j]) <= Data(log)
    decreases |log|
  {
    if j == |log| {
      assert log[..j] == log;
    } else {
      var front := log[..|log| - 1];
      assert front[..j] == log[..j];
      DataGrows(front, j);
    }
  }

  /** A byte stored behind the accepted data disturbs no accepted packet. */
  lemma StoreKeeps(log: seq<seq<Byte>>, dest: seq<Byte>, at: nat, c: Byte)
    requires Stored(log, dest) && |Data(log)| <= at < |dest|
    ensures Stored(log, dest[at := c])
  {
    forall j | 0 <= j <= |log| && |Data(log[..j])| <= |dest| ensures Data(log[..j]) <= dest[at := c] {
      DataGrows(log, j);
    }
  }

  lemma StoredSnoc(log: seq<seq<Byte>>, f: seq<Byte>, dest: seq<Byte>)
    requires Stored(log, dest)
    requires |Data(log)| + |f| <= |dest| ==> dest[|Data(log)|..|Data(log)| + |f|] == f
    ensures Stored(log + [f], dest)
  {
    forall j | 0 <= j <= |log + [f]| && |Data((log + [f])[..j])| <= |dest| ensures Data((log + [f])[..j]) <= dest {
      if j <= |log| {
        assert (log + [f])[..j] == log[..j];
      } else {
        assert (log + [f])[..j] == log + [f] && log[..|log|] == log;
        DataSnoc(log, f);
        assert Data(log) <= dest;
      }
    }
  }

  /** The two receivers have stored and counted the same. */
  ghost predicate SameData(r: Receiver, t: Receiver) {
    r.pos == t.pos && r.totalbytes == t.totalbytes && r.log == t.log && r.seqnum == t.seqnum && r.dest == t.dest
  }

  lemma SameDataGood(r: Receiver, t: Receiver)
    requires Good(r) && SameData(r, t) && PacketGood(t) && ResultGood(t)
    ensures Good(t)
  {
  }

  lemma StartGood(r: Receiver, size: nat)
    requires Good(r) && (size == 128 || size == 1024)
    ensures Good(Start(r, size))
  {
    var t := Start(r, size);
    SameDataGood(r, t);
  }

  /** Everywhere but inside a packet a step stores and counts nothing. */
  lemma OutsidePacketGood(r: Receiver, e: Event)
    requires Good(r) && (!r.phase.Packet? || e.Timeout?)
    ensures Good(Step(r, e)) && Step(r, e).dest == r.dest
  {
    var t := Step(r, e);
    if r.phase.Control? && e == Got(SOH) {
      StartGood(r, 128);
    } else if r.phase.Control? && e == Got(STX) {
      StartGood(r, 1024);
    } else {
      assert !t.phase.Packet?;
      SameDataGood(r, t);
    }
  }

  lemma PacketByteGood(r: Receiver, c: Byte)
    requires Good(r) && r.phase.Packet? && !(0 <= r.phase.rx < r.phase.size) && r.phase.rx <= r.phase.size
    ensures Good(OnPacket(r, c)) && OnPacket(r, c).dest == r.dest
  {
    SameDataGood(r, OnPacket(r, c));
  }

  lemma PayloadStored(r: Receiver, c: Byte)
    requires Good(r) && r.phase.Packet? && 0 <= r.phase.rx < r.phase.size
    ensures var dest := StoreByte(r, r.phase.size, r.phase.rx, c);
            && |dest| == |r.dest| && Stored(r.log, dest)
            && (r.totalbytes + r.phase.size <= |r.dest| ==>
                  dest[r.totalbytes..r.totalbytes + |r.frame| + 1] == r.frame + [c])
  {
    var size, rx := r.phase.size, r.phase.rx;
    if r.totalbytes + size <= |r.dest| {
      StoreKeeps(r.log, r.dest, r.pos + rx, c);
    }
  }

  lemma PayloadByteGood(r: Receiver, c: Byte)
    requires Good(r) && r.phase.Packet? && 0 <= r.phase.rx < r.phase.size
    ensures Good(OnPacket(r, c)) && |OnPacket(r, c).dest| == |r.dest|
  {
    PayloadStored(r, c);
  }

  lemma AcceptGood(r: Receiver, t: Receiver)
    requires Good(r) && r.phase.Packet? && r.phase.rx == r.phase.size + 1 && t == Accept(r, r.phase.size)
    ensures Good(t)
  {
    StoredSnoc(r.log, r.frame, r.dest);
    DataSnoc(r.log, r.frame);
  }

  lemma JudgeGood(r: Receiver, lo: Byte)
    requires Good(r) && r.phase.Packet? && r.phase.rx == r.phase.size + 1
    ensures Good(Judge(r, lo)) && Judge(r, lo).dest == r.dest
  {
    var t := Judge(r, lo);
    if t == Accept(r, r.phase.size) {
      AcceptGood(r, t);
    } else {
      SameDataGood(r, t);
    }
  }

  lemma StepKeepsGood(r: Receiver, e: Event)
    requires Good(r)
    ensures Good(Step(r, e)) && |Step(r, e).dest| == |r.dest|
  {
    if !r.phase.Packet? || e.Timeout? {
      OutsidePacketGood(r, e);
    } else if 0 <= r.phase.rx < r.phase.size {
      PayloadByteGood(r, e.c);
    } else if r.phase.rx <= r.phase.size {
      PacketByteGood(r, e.c);
    } else {
      JudgeGood(r, e.c);
    }
  }

  lemma {:induction false} RunKeepsGood(r: Receiver, input: seq<Event>)
    requires Good(r)
    ensures Good(Run(r, input)) && |Run(r, input).dest| == |r.dest|
    decreases |input|
  {
    if input != [] {
      StepKeepsGood(r, input[0]);
      RunKeepsGood(Step(r, input[0]), input[1..]);
    }
  }

  lemma InitIsGood(check: Check, dest: seq<Byte>)
    ensures Good(Init(check, dest))
  {
  }

  /** For any bytes and pauses on the line: the buffer starts with the accepted
      packets, in order, as far as they fit. */
  lemma BufferHoldsAccepted(check: Check, dest: seq<Byte>, input: seq<Event>)
    ensures var r := Run(Init(check, dest), input);
            && |r.dest| == |dest| && r.totalbytes == |Data(r.log)|
            && (r.totalbytes <= |r.dest| ==> r.dest[..r.totalbytes] == Data(r.log))
            && (forall j :: 0 <= j <= |r.log| && |Data(r.log[..j])| <= |dest| ==> Data(r.log[..j]) <= r.dest)
            && (r.phase.Done? && r.phase.ret > 0 ==> r.phase.ret == |Data(r.log)|)
  {
    InitIsGood(check, dest);
    RunKeepsGood(Init(check, dest), input);
    var r := Run(Init(check, dest), input);
    assert r.log[..|r.log|] == r.log;
  }
}
