/** What xqspi_flash_write sends, for every start and size, as one stream of
    bytes: which bytes go where, in which portions, and what is erased when. */
module FlashStream {
  import opened Flash

  /** The data bytes of the program commands, in the order sent. */
  function Payload(log: seq<Command>): seq<byte> {
    if log == [] then []
    else
      var last := log[|log| - 1];
      Payload(log[..|log| - 1]) + if last.Program? then last.data else []
  }

  /** The command is the right one after so many bytes of a stream of so many:
      an erase at the start of a 4096-byte stretch, or the next 256 bytes or what
      is left of them, each at the address that the byte count gives. */
  predicate Next(c: Command, start: nat, done: nat, size: nat) {
    done < size && c.at == start + done &&
    match c
    case Erase(_) => done % SECTOR == 0
    case Program(_, data) => |data| == Min(PAGE, size - done)
  }

  /** Every command is the right one, and each stretch of 4096 bytes is erased
      immediately before its first byte is sent, and at no other time. */
  ghost predicate IsStream(log: seq<Command>, start: nat, size: nat) {
    && (forall k :: 0 <= k < |log| ==>
          Next(log[k], start, |Payload(log[..k])|, size))
    && (forall k :: 0 <= k < |log| && log[k].Program? && |Payload(log[..k])| % SECTOR == 0 ==>
          k > 0 && log[k - 1].Erase?)
    && (forall k :: 0 < k < |log| && log[k - 1].Erase? ==> log[k].Program?)
  }

  ghost predicate EndsInProgram(log: seq<Command>) {
    log != [] ==> log[|log| - 1].Program?
  }

  lemma PayloadOn(log: seq<Command>, c: Command)
    ensures Payload(log + [c]) == Payload(log) + if c.Program? then c.data else []
    ensures forall k :: 0 <= k <= |log| ==> (log + [c])[..k] == log[..k]
  {
    assert (log + [c])[..|log|] == log;
  }

  lemma RightOn(log: seq<Command>, more: seq<Command>, c: Command, start: nat, size: nat, k: nat)
    requires more == log + [c] && forall k :: 0 <= k <= |log| ==> more[..k] == log[..k]
    requires IsStream(log, start, size) && Next(c, start, |Payload(log)|, size) && k < |more|
    ensures Next(more[k], start, |Payload(more[..k])|, size)
  {
    if k < |log| {
      assert more[k] == log[k];
    } else {
      assert more[..k] == log;
    }
  }

  lemma ErasedOn(log: seq<Command>, more: seq<Command>, c: Command, start: nat, size: nat, k: nat)
    requires more == log + [c] && forall k :: 0 <= k <= |log| ==> more[..k] == log[..k]
    requires IsStream(log, start, size) && k < |more| && more[k].Program? && |Payload(more[..k])| % SECTOR == 0
    requires c.Program? && |Payload(log)| % SECTOR == 0 ==> log != [] && log[|log| - 1].Erase?
    ensures k > 0 && more[k - 1].Erase?
  {
    if k < |log| {
      assert more[k] == log[k];
    } else {
      assert more[..k] == log;
    }
  }

  lemma StreamOn(log: seq<Command>, c: Command, start: nat, size: nat)
    requires IsStream(log, start, size) && Next(c, start, |Payload(log)|, size)
    requires c.Program? && |Payload(log)| % SECTOR == 0 ==> log != [] && log[|log| - 1].Erase?
    requires c.Erase? ==> EndsInProgram(log)
    ensures IsStream(log + [c], start, size)
    ensures Payload(log + [c]) == Payload(log) + if c.Program? then c.data else []
  {
    var more := log + [c];
    PayloadOn(log, c);
    forall k | 0 <= k < |more| ensures Next(more[k], start, |Payload(more[..k])|, size) {
      RightOn(log, more, c, start, size, k);
    }
    forall k | 0 <= k < |more| && more[k].Program? && |Payload(more[..k])| % SECTOR == 0
      ensures k > 0 && more[k - 1].Erase?
    {
      ErasedOn(log, more, c, start, size, k);
    }
  }

  /** The stream is right so far and has carried the first bytes of the buffer. */
  ghost predicate Streamed(log: seq<Command>, start: nat, buf: seq<byte>, done: nat) {
    IsStream(log, start, |buf|) && done <= |buf| && Payload(log) == buf[..done]
  }

  /** The bytes of one turn of the loop over sectors. */
  predicate IsTurn(size: nat, from: nat, to: nat) {
    from < to <= size && from % SECTOR == 0 && to == Min(from + SECTOR, size)
  }

  lemma PageEnds(size: nat, from: nat, to: nat, c: nat, at: nat)
    requires IsTurn(size, from, to) && at == from + c * PAGE < to
    ensures Min(from + (c + 1) * PAGE, to) == at + Min(PAGE, size - at)
    ensures c > 0 ==> at % SECTOR != 0
  {
    assert c < 16;
  }

  lemma OnePage(log: seq<Command>, p: Command, start: nat, buf: seq<byte>, at: nat, end: nat)
    requires Streamed(log, start, buf, at) && at < |buf| && end == at + Min(PAGE, |buf| - at)
    requires p == Program(start + at, buf[at..end])
    requires at % SECTOR == 0 ==> log != [] && log[|log| - 1].Erase?
    ensures Streamed(log + [p], start, buf, end)
  {
    StreamOn(log, p, start, |buf|);
    assert buf[..at] + buf[at..end] == buf[..end];
  }

  /** Page c of the turn. */
  lemma NextPage(log: seq<Command>, p: Command, start: nat, buf: seq<byte>, from: nat, to: nat, c: nat)
    requires IsTurn(|buf|, from, to) && from + c * PAGE < to
    requires Streamed(log, start, buf, from + c * PAGE) && p == PageAt(start + from, buf, from, to, c)
    requires c == 0 ==> log != [] && log[|log| - 1].Erase?
    ensures Streamed(log + [p], start, buf, Min(from + (c + 1) * PAGE, to)) && p.Program?
  {
    var at := from + c * PAGE;
    PageEnds(|buf|, from, to, c, at);
    OnePage(log, p, start, buf, at, Min(from + (c + 1) * PAGE, to));
  }

  /** The first c pages of the turn have been sent after `log`. */
  ghost predicate PagesSent(log: seq<Command>, now: seq<Command>, start: nat, buf: seq<byte>, from: nat, to: nat,
                            c: nat)
    requires from <= to <= |buf|
  {
    now == log + Joined(Pages(start + from, buf, from, to), c)
    && Streamed(now, start, buf, Min(from + c * PAGE, to)) && (c > 0 ==> EndsInProgram(now) && now != [])
  }

  lemma OneMorePage(log: seq<Command>, now: seq<Command>, start: nat, buf: seq<byte>, from: nat, to: nat, c: nat)
    returns (more: seq<Command>)
    requires IsTurn(|buf|, from, to) && PagesSent(log, now, start, buf, from, to, c) && from + c * PAGE < to
    requires log != [] && log[|log| - 1].Erase?
    ensures PagesSent(log, more, start, buf, from, to, c + 1)
  {
    var p := PageAt(start + from, buf, from, to, c);
    NextPage(now, p, start, buf, from, to, c);
    OneMore(log, Pages(start + from, buf, from, to), c);
    more := now + [p];
  }

  lemma {:induction false} PagesStream(log: seq<Command>, start: nat, buf: seq<byte>, from: nat, to: nat, c: nat)
    returns (now: seq<Command>)
    requires IsTurn(|buf|, from, to) && Streamed(log, start, buf, from) && log != [] && log[|log| - 1].Erase?
    requires c > 0 ==> from + (c - 1) * PAGE < to
    ensures PagesSent(log, now, start, buf, from, to, c)
    decreases c
  {
    if c == 0 {
      now := log + Joined(Pages(start + from, buf, from, to), 0);
      assert now == log;
    } else {
      var before := PagesStream(log, start, buf, from, to, c - 1);
      now := OneMorePage(log, before, start, buf, from, to, c - 1);
    }
  }

  /** All n pages of the turn. */
  lemma AllPagesSent(from: nat, to: nat, n: nat)
    requires from < to && n == Units(to - from, PAGE)
    ensures n > 0 && from + (n - 1) * PAGE < to <= from + n * PAGE
  {
    UnitsLeft(to - from, PAGE, n);
    UnitsLeft(to - from, PAGE, 0);
    UnitsLeft(to - from, PAGE, n - 1);
  }

  lemma SectorStream(log: seq<Command>, now: seq<Command>, start: nat, buf: seq<byte>, from: nat, to: nat, n: nat)
    requires IsTurn(|buf|, from, to) && Streamed(log, start, buf, from) && EndsInProgram(log)
    requires n > 0 && from + (n - 1) * PAGE < to <= from + n * PAGE
    requires now == log + ([Erase(start + from)] + Joined(Pages(start + from, buf, from, to), n))
    ensures Streamed(now, start, buf, to) && EndsInProgram(now)
  {
    var erase := Erase(start + from);
    StreamOn(log, erase, start, |buf|);
    var sent := PagesStream(log + [erase], start, buf, from, to, n);
    Regroup(log, [erase], Joined(Pages(start + from, buf, from, to), n));
    assert sent == now;
  }

  lemma SectorIs(start: nat, buf: seq<byte>, c: nat, from: nat, to: nat) returns (n: nat)
    requires from == c * SECTOR < to == Min((c + 1) * SECTOR, |buf|)
    ensures SectorAt(start, buf, c) == [Erase(start + from)] + Joined(Pages(start + from, buf, from, to), n)
    ensures n > 0 && from + (n - 1) * PAGE < to <= from + n * PAGE
  {
    n := Units(to - from, PAGE);
    AllPagesSent(from, to, n);
  }

  /** Turn c of the loop over sectors. */
  lemma OneMoreSector(log: seq<Command>, now: seq<Command>, start: nat, buf: seq<byte>, c: nat, from: nat, to: nat)
    requires from == c * SECTOR < to == Min((c + 1) * SECTOR, |buf|) && IsTurn(|buf|, from, to)
    requires Streamed(log, start, buf, from) && EndsInProgram(log) && now == log + SectorAt(start, buf, c)
    ensures Streamed(now, start, buf, to) && EndsInProgram(now)
  {
    var n := SectorIs(start, buf, c, from, to);
    SectorStream(log, now, start, buf, from, to, n);
  }

  lemma NextSectorSent(log: seq<Command>, now: seq<Command>, start: nat, buf: seq<byte>, c: nat)
    requires Streamed(log, start, buf, Min(c * SECTOR, |buf|)) && EndsInProgram(log) && c * SECTOR < |buf|
    requires now == log + SectorAt(start, buf, c)
    ensures Streamed(now, start, buf, Min((c + 1) * SECTOR, |buf|)) && EndsInProgram(now)
  {
    OneMoreSector(log, now, start, buf, c, c * SECTOR, Min((c + 1) * SECTOR, |buf|));
  }

  lemma {:induction false} SectorsStream(start: nat, buf: seq<byte>, c: nat)
    requires c > 0 ==> (c - 1) * SECTOR < |buf|
    ensures var now := Joined(Sectors(start, buf), c);
            Streamed(now, start, buf, Min(c * SECTOR, |buf|)) && EndsInProgram(now)
  {
    if c > 0 {
      SectorsStream(start, buf, c - 1);
      var log := Joined(Sectors(start, buf), c - 1);
      NextSectorSent(log, log + SectorAt(start, buf, c - 1), start, buf, c - 1);
    }
  }

  /** For every start, aligned or not, and every buffer: the bytes of the program
      commands are the buffer, in order; each command goes to the start plus the
      number of bytes sent before it; a program carries 256 bytes, or the rest;
      and each stretch of 4096 bytes is erased just before its first byte. */
  lemma WholeBufferIsSent(start: nat, buf: seq<byte>)
    ensures Payload(FlashCommands(start, buf)) == buf && IsStream(FlashCommands(start, buf), start, |buf|)
  {
    var n := Units(|buf|, SECTOR);
    UnitsLeft(|buf|, SECTOR, n);
    if n > 0 {
      UnitsLeft(|buf|, SECTOR, n - 1);
    }
    SectorsStream(start, buf, n);
  }
}
