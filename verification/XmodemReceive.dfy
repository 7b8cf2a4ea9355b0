/** xmodem_receive of src/xmodem.c:97-214 with its loops and its buffer, against
    the machine of module Xmodem.  The locals of the C function are the fields
    of a session; `input` is what its calls of `_inbyte` return.  The function is
    still waiting when the input ends before it returns. */
module XmodemReceive {
  import opened Crc16
  import opened Xmodem

  datatype Outcome = Waiting | Returned(ret: int)

  /** What a stretch of the function leads to. */
  datatype Turn = Begin(size: nat) | Again | Leave(outcome: Outcome)

  class Session {
    const input: seq<Event>
    const dest: array<Byte>
    ghost const start: Receiver

    var k: nat               // events consumed
    var asking: bool         // trychar
    var seqnum: Byte
    var pos: nat             // buf - dest
    var totalbytes: nat
    var retry: int
    var out: seq<Byte>
    ghost var r: Receiver    // the machine after k events

    constructor (input: seq<Event>, dest: array<Byte>)
      ensures this.input == input && this.dest == dest && start == Init(CrcCheck, dest[..])
      ensures Following() && Agrees() && r.phase == Control && out == [] && k == 0 && asking
    {
      this.input, this.dest, start := input, dest, Init(CrcCheck, dest[..]);
      k, asking, seqnum, pos, totalbytes, retry, out := 0, true, 1, 0, 0, MAXRETRANS, [];
      r := Init(CrcCheck, dest[..]);
    }

    /** The machine has consumed the same events. */
    ghost predicate Following()
      reads this
    {
      k <= |input| && r == Run(start, input[..k])
    }

    /** The fields and the buffer agree with the machine, but for the output. */
    ghost predicate Agrees()
      reads this, dest
    {
      && r.asking == asking && r.seqnum == seqnum && r.pos == pos == totalbytes && r.totalbytes == totalbytes
      && r.retry == retry && r.dest == dest[..] && r.check == CrcCheck
    }

    /** At the top of the loop, line 117: the next thing is the invitation. */
    ghost predicate AtTop()
      reads this, dest
    {
      Following() && Agrees() && r.phase == Control && r.out == out + if asking then [INVITE] else []
    }

    /** `_inbyte`; not ok when the input has ended. */
    method InByte() returns (ok: bool, e: Event)
      requires Following()
      modifies this`k, this`r
      ensures Following()
      ensures ok ==> k == old(k) + 1 && r == Step(old(r), e)
      ensures !ok ==> k == old(k) && r == old(r) && k == |input|
    {
      if k == |input| {
        return false, Timeout;
      }
      ok, e := true, input[k];
      RunSnoc(start, input, k);
      r := Step(r, e);
      k := k + 1;
    }

    /** flushinput, lines 84-87. */
    method FlushInput() returns (quiet: bool)
      requires Following() && r.phase.Flush?
      modifies this`k, this`r
      ensures Following() && k >= old(k)
      ensures quiet ==> r == Step(old(r), Timeout)
      ensures !quiet ==> r == old(r) && k == |input|
    {
      quiet := false;
      var ok := true;
      while ok && !quiet
        invariant Following() && k >= old(k)
        invariant quiet ==> r == Step(old(r), Timeout)
        invariant !quiet ==> r == old(r)
        invariant !ok ==> k == |input|
        decreases |input| - k, ok && !quiet
      {
        var e;
        ok, e := InByte();
        quiet := ok && e.Timeout?;
      }
    }

    /** The return after a flush, or the wait for one. */
    method FlushAndReturn(ret: int) returns (turn: Turn)
      requires Following() && r.phase == Flush(Return(ret)) && r.out == out && r.dest == dest[..]
      modifies this`k, this`r
      ensures Following() && r.out == out && r.dest == dest[..] && turn.Leave? && k >= old(k)
      ensures if turn.outcome.Waiting? then k == |input| && !r.phase.Done? else r.phase == Done(turn.outcome.ret)
    {
      var quiet := FlushInput();
      return Leave(if quiet then Returned(ret) else Waiting);
    }

    /** Back to line 117 after a flush. */
    method FlushAndContinue() returns (turn: Turn)
      requires Following() && Agrees() && r.phase == Flush(Continue) && r.out == out
      modifies this`k, this`r
      ensures k >= old(k)
      ensures turn.Again? ==> AtTop()
      ensures !turn.Again? ==> turn == Leave(Waiting) && k == |input| && Following() && r == old(r) && r.phase.Flush?
    {
      var quiet := FlushInput();
      return if quiet then Again else Leave(Waiting);
    }

    /** How a stretch may end. */
    ghost predicate Left(turn: Turn)
      reads this, dest
    {
      turn.Leave? ==>
        && Following() && r.out == out && r.dest == dest[..]
        && if turn.outcome.Waiting? then k == |input| && !r.phase.Done? else r.phase == Done(turn.outcome.ret)
    }

    /** One turn of the loop at lines 117-153. */
    method ControlTurn() returns (turn: Turn)
      requires AtTop()
      modifies this`k, this`r, this`out, this`asking
      ensures k >= old(k) && (turn.Again? ==> AtTop() && k > old(k))
      ensures turn.Begin? ==>
                && Following() && Agrees() && k > old(k) && r.out == out && !asking
                && (turn.size == 128 || turn.size == 1024)
                && r.phase == Packet(turn.size, -2) && r.frame == []
      ensures Left(turn)
    {
      if asking {
        out := out + [INVITE];
      }
      var ok, e := InByte();
      if !ok {
        return Leave(Waiting);
      }
      if e == Got(SOH) {
        asking := false;
        return Begin(128);
      } else if e == Got(STX) {
        asking := false;
        return Begin(1024);
      } else if e == Got(EOT) {
        if totalbytes == 0 {
          return Leave(Returned(-2));
        }
        out := out + [ACK];
        turn := FlushAndReturn(totalbytes);
      } else if e == Got(CAN) {
        ok, e := InByte();
        if !ok {
          return Leave(Waiting);
        }
        if e == Got(CAN) {
          out := out + [ACK];
          turn := FlushAndReturn(-1);
        } else {
          return Again;
        }
      } else {
        return Again;
      }
    }

    /** The verdict on a complete packet, lines 178-209. */
    method Verdict(seq0: Byte, seq1: Byte, buf_crc: Reg, partial_crc: Reg, pktsize: nat,
                   ghost before: Receiver, ghost lo: Byte)
      returns (turn: Turn)
      requires Following() && before.phase.Packet? && r == Judge(before, lo)
      requires before.phase == Packet(pktsize, pktsize + 1)
      requires before.seq0 == seq0 && before.seq1 == seq1
      requires before.check(before.frame, before.bufHi, lo) <==> buf_crc == partial_crc
      requires before.check == CrcCheck && before.asking == asking == false
      requires before.seqnum == seqnum && before.retry == retry
      requires before.pos == pos == totalbytes == before.totalbytes && before.dest == dest[..] && before.out == out
      modifies this`k, this`r, this`out, this`seqnum, this`pos, this`totalbytes, this`retry
      ensures k >= old(k) && !turn.Begin?
      ensures turn.Again? ==> AtTop()
      ensures Left(turn)
    {
      if seq0 != 255 - seq1 || buf_crc != partial_crc {
        out := out + [NAK];
        turn := FlushAndContinue();
      } else if seqnum == seq0 + 1 {
        retry := retry - 1;
        if retry <= 0 {
          out := out + [CAN, CAN, CAN];
          turn := FlushAndReturn(-3);
        } else {
          out := out + [ACK];
          turn := Again;
        }
      } else if seqnum == seq0 {
        seqnum := (seqnum + 1) % 256;
        pos := pos + pktsize;
        totalbytes := totalbytes + pktsize;
        retry := MAXRETRANS;
        out := out + [ACK];
        turn := Again;
      } else {
        out := out + [CAN, CAN, CAN];
        turn := FlushAndReturn(-2);
      }
    }

    /** The loop at lines 159-212: one packet. */
    method ReceivePacket(pktsize: nat) returns (turn: Turn)
      requires Following() && Agrees() && !asking && r.out == out && pktsize > 0
      requires r.phase == Packet(pktsize, -2) && r.frame == []
      modifies this`k, this`r, this`out, this`seqnum, this`pos, this`totalbytes, this`retry, dest
      ensures k >= old(k) && !turn.Begin?
      ensures turn.Again? ==> AtTop()
      ensures Left(turn)
    {
      var rxsize: int := -2;
      var partial_crc: Reg := Zeros(REG_BITS);
      var seq0: Byte, seq1: Byte, hi: Byte := 0, 0, 0;
      while true
        invariant Following() && Agrees() && !asking && r.out == out && k >= old(k)
        invariant r.phase == Packet(pktsize, rxsize) && -2 <= rxsize <= pktsize + 1
        invariant partial_crc == Crc(Zeros(REG_BITS), r.frame) && r.check == CrcCheck
        invariant (rxsize > -2 ==> r.seq0 == seq0) && (rxsize > -1 ==> r.seq1 == seq1)
        invariant rxsize > pktsize ==> r.bufHi == hi
        decreases |input| - k
      {
        ghost var before := r;
        var ok, e := InByte();
        if !ok {
          return Leave(Waiting);
        }
        if e.Timeout? {
          out := out + [NAK];
          turn := FlushAndContinue();
          return;
        }
        var c := e.c;
        if rxsize == -2 {
          seq0 := c;
        } else if rxsize < 0 {
          seq1 := c;
        } else if rxsize < pktsize {
          if totalbytes + pktsize <= dest.Length {
            dest[pos + rxsize] := c;
          }
          CrcSnoc(Zeros(REG_BITS), before.frame, c);
          partial_crc := Crc16CcittUpdate(partial_crc, c);
        } else if rxsize == pktsize {
          hi := c;
        } else {
          turn := Verdict(seq0, seq1, Word(hi, c), partial_crc, pktsize, before, c);
          return;
        }
        rxsize := rxsize + 1;
      }
    }
  }

  lemma RunOn(start: Receiver, input: seq<Event>, k: nat)
    requires k <= |input|
    ensures Run(start, input) == Run(Run(start, input[..k]), input[k..])
  {
    assert input == input[..k] + input[k..];
    RunConcat(start, input[..k], input[k..]);
  }

  /** Nothing happens after the return. */
  lemma {:induction false} DoneStays(r: Receiver, input: seq<Event>)
    requires r.phase.Done?
    ensures Run(r, input) == r
    decreases |input|
  {
    if input != [] {
      DoneStays(Step(r, input[0]), input[1..]);
    }
  }

  /** For any input the function leaves in the buffer, sends and returns what the
      machine does. */
  method XmodemReceive(input: seq<Event>, dest: array<Byte>) returns (outcome: Outcome, out: seq<Byte>)
    modifies dest
    ensures var r := Run(Init(CrcCheck, old(dest[..])), input);
            && dest[..] == r.dest && out == r.out
            && (outcome.Waiting? <==> !r.phase.Done?)
            && (outcome.Returned? ==> r.phase == Done(outcome.ret))
  {
    var s := new Session(input, dest);
    var turn := Again;
    while turn.Again?
      invariant s.input == input && s.dest == dest && s.start == Init(CrcCheck, old(dest[..]))
      invariant fresh(s) && !turn.Begin?
      invariant turn.Again? ==> s.AtTop()
      invariant s.Left(turn)
      decreases |input| - s.k, turn.Again?
    {
      turn := s.ControlTurn();
      if turn.Begin? {
        turn := s.ReceivePacket(turn.size);
      }
    }
    outcome, out := turn.outcome, s.out;
    RunOn(s.start, input, s.k);
    if outcome.Returned? {
      DoneStays(s.r, input[s.k..]);
    }
  }
}
