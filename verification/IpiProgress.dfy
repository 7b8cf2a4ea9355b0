/** The IPI message pool cannot get stuck: every step but an empty look at the
    mail lowers a measure, and from every reachable state some run completes all
    calls, reads all mail and brings every count back to zero. */
module IpiProgress {
  import opened Bits
  import opened IpiPool
  import opened IpiSafety
  import T = IpiTheorems

  // ----- the measure

  /** Work to read one message: start, its words, give it back, and the scan
      that a look at the mail at line 121 restarts. */
  ghost function MailWork(slots: nat): nat {
    MESSAGE_WORDS + 3 * slots + 6
  }

  ghost function HandlerWork(handler: Handler): nat {
    match handler
    case NoHandler => 0
    case Running(Signal(_), _) => 1
    case Running(Ref(_, _, words), seen) => if |seen| <= |words| then |words| - |seen| + 1 else 1
  }

  /** Work left in the loop of ipi_send_cmd from index i on. */
  ghost function LoopWork(i: nat, harts: nat, slots: nat): nat {
    3 + (if i < harts then (harts - i) * (MailWork(slots) + 3) else 0)
  }

  ghost function EnterWork(harts: nat, slots: nat): nat {
    LoopWork(0, harts, slots) + MESSAGE_WORDS + 2
  }

  ghost function FillWork(words: nat, j: nat, harts: nat, slots: nat): nat {
    EnterWork(harts, slots) + 1 + (if j <= words then words - j else 0)
  }

  ghost function PollWork(harts: nat, slots: nat): nat {
    FillWork(MESSAGE_WORDS, 0, harts, slots) + 1
  }

  ghost function ScanWork(i: nat, harts: nat, slots: nat): nat {
    PollWork(harts, slots) + 3 + (if i < slots then 3 * (slots - i) else 0)
  }

  ghost function PcWork(pc: Pc, harts: nat, slots: nat): nat {
    match pc
    case Idle => 0
    case Release(_) => 1
    case Loop(send) => LoopWork(send.i, harts, slots)
    case Commit(send) => LoopWork(send.i, harts, slots) - 1
    case Put(send) => LoopWork(send.i, harts, slots) - 2
    case Enter(_) => EnterWork(harts, slots)
    case Fill(req, _, j) => FillWork(|req.words|, j, harts, slots)
    case Poll(_) => PollWork(harts, slots)
    case BackOff(_, i) => ScanWork(i, harts, slots) - 2
    case Claim(_, i) => ScanWork(i, harts, slots) - 1
    case Scan(_, i) => ScanWork(i, harts, slots)
  }

  ghost function HartWork(h: Hart, harts: nat, slots: nat): nat {
    PcWork(h.pc, harts, slots) + HandlerWork(h.handler)
  }

  ghost function AllWork(hs: seq<Hart>, harts: nat, slots: nat): nat {
    if hs == [] then 0 else HartWork(hs[0], harts, slots) + AllWork(hs[1..], harts, slots)
  }

  ghost function RowLoad(row: seq<Buffer>): nat {
    if row == [] then 0 else One(row[0].Full?) + RowLoad(row[1..])
  }

  ghost function MailLoad(box: seq<seq<Buffer>>): nat {
    if box == [] then 0 else RowLoad(box[0]) + MailLoad(box[1..])
  }

  /** Targets left, messages in flight, words to read and slots to scan. */
  ghost function Measure(s: State): nat {
    AllWork(s.harts, |s.harts|, |s.count|) + MailLoad(s.box) * MailWork(|s.count|)
  }

  lemma {:induction false} WorkUpdate(hs: seq<Hart>, h: nat, x: Hart, harts: nat, slots: nat)
    requires h < |hs|
    ensures AllWork(hs[h := x], harts, slots)
         == AllWork(hs, harts, slots) - HartWork(hs[h], harts, slots) + HartWork(x, harts, slots)
  {
    if h == 0 {
      assert hs[h := x][1..] == hs[1..];
    } else {
      assert hs[h := x][1..] == hs[1..][h - 1 := x];
      WorkUpdate(hs[1..], h - 1, x, harts, slots);
    }
  }

  lemma {:induction false} RowLoadUpdate(row: seq<Buffer>, r: nat, b: Buffer)
    requires r < |row|
    ensures RowLoad(row[r := b]) == RowLoad(row) - One(row[r].Full?) + One(b.Full?)
  {
    if r == 0 {
      assert row[r := b][1..] == row[1..];
    } else {
      assert row[r := b][1..] == row[1..][r - 1 := b];
      RowLoadUpdate(row[1..], r - 1, b);
    }
  }

  lemma {:induction false} MailLoadUpdate(box: seq<seq<Buffer>>, q: nat, row: seq<Buffer>)
    requires q < |box|
    ensures MailLoad(box[q := row]) == MailLoad(box) - RowLoad(box[q]) + RowLoad(row)
  {
    if q == 0 {
      assert box[q := row][1..] == box[1..];
    } else {
      assert box[q := row][1..] == box[1..][q - 1 := row];
      MailLoadUpdate(box[1..], q - 1, row);
    }
  }

  lemma LoopAdvance(i: nat, harts: nat, slots: nat)
    requires i < harts
    ensures LoopWork(i + 1, harts, slots) + MailWork(slots) + 3 == LoopWork(i, harts, slots)
  {
    assert (harts - i) * (MailWork(slots) + 3) == (harts - (i + 1)) * (MailWork(slots) + 3) + (MailWork(slots) + 3);
  }

  // ----- every step but a new call and an empty look at the mail lowers it

  ghost predicate EmptyPoll(s: State, h: nat, a: Action) {
    h < |s.harts| && a.Step? && s.harts[h].handler.NoHandler? && s.harts[h].pc.Poll?
  }

  lemma MeasureAfterHart(s: State, h: nat, x: Hart, t: State)
    requires h < |s.harts| && t.harts == s.harts[h := x] && t.box == s.box && |t.count| == |s.count|
    requires HartWork(x, |s.harts|, |s.count|) < HartWork(s.harts[h], |s.harts|, |s.count|)
    ensures Measure(t) < Measure(s)
  {
    WorkUpdate(s.harts, h, x, |s.harts|, |s.count|);
  }

  lemma HandlerLowers(s: State, h: nat)
    requires Inv(s) && h < |s.harts| && s.harts[h].handler.Running? && HandlerInRange(s, h)
    ensures Measure(HandlerStep(s, h)) < Measure(s)
  {
    var t := HandlerStep(s, h);
    assert HartGood(s, h);
    MeasureAfterHart(s, h, t.harts[h], t);
  }

  lemma ClientLowers(s: State, h: nat)
    requires Inv(s) && ClientTurn(s, h) && !s.harts[h].pc.Poll?
    ensures Measure(ClientStep(s, h)) < Measure(s)
  {
    var t := ClientStep(s, h);
    assert HartGood(s, h);
    MeasureAfterHart(s, h, t.harts[h], t);
  }

  lemma OneMoreTimes(n: nat, w: nat)
    ensures (n + 1) * w == n * w + w
  {
  }

  lemma LoadAfter(box: seq<seq<Buffer>>, q: nat, r: nat, b: Buffer)
    requires q < |box| && r < |box[q]|
    ensures MailLoad(box[q := box[q][r := b]]) == MailLoad(box) - One(box[q][r].Full?) + One(b.Full?)
  {
    RowLoadUpdate(box[q], r, b);
    MailLoadUpdate(box, q, box[q][r := b]);
  }

  /** One message more in the mail, paid for by the hart that put it there. */
  lemma MeasureAfterPut(s: State, h: nat, x: Hart, r: nat, b: Buffer, t: State)
    requires Shape(s) && h < |s.harts| && r < |s.harts| && s.box[h][r].Empty? && b.Full?
    requires t.harts == s.harts[h := x] && t.box == s.box[h := s.box[h][r := b]] && |t.count| == |s.count|
    requires HartWork(x, |s.harts|, |s.count|) + MailWork(|s.count|) < HartWork(s.harts[h], |s.harts|, |s.count|)
    ensures Measure(t) < Measure(s)
  {
    WorkUpdate(s.harts, h, x, |s.harts|, |s.count|);
    LoadAfter(s.box, h, r, b);
    OneMoreTimes(MailLoad(s.box), MailWork(|s.count|));
  }

  /** One message less in the mail pays for the handler. */
  lemma MeasureAfterTake(s: State, h: nat, x: Hart, q: nat, t: State)
    requires Shape(s) && h < |s.harts| && q < |s.harts| && s.box[q][h].Full?
    requires t.harts == s.harts[h := x] && t.box == s.box[q := s.box[q][h := Empty]] && |t.count| == |s.count|
    requires HartWork(x, |s.harts|, |s.count|) < HartWork(s.harts[h], |s.harts|, |s.count|) + MailWork(|s.count|)
    ensures Measure(t) < Measure(s)
  {
    WorkUpdate(s.harts, h, x, |s.harts|, |s.count|);
    LoadAfter(s.box, q, h, Empty);
    OneMoreTimes(MailLoad(t.box), MailWork(|s.count|));
  }

  lemma SendLowers(s: State, h: nat)
    requires Inv(s) && SendTurn(s, h) && !s.harts[h].pc.Put?
    ensures Measure(SendStep(s, h)) < Measure(s)
  {
    var t := SendStep(s, h);
    assert SenderGood(s, h) by { assert HartGood(s, h); }
    var send := s.harts[h].pc.send;
    if send.i < |s.harts| {
      LoopAdvance(send.i, |s.harts|, |s.count|);
    }
    MeasureAfterHart(s, h, t.harts[h], t);
  }

  lemma PutLowers(s: State, h: nat)
    requires Inv(s) && SendTurn(s, h) && s.harts[h].pc.Put?
    ensures Measure(SendStep(s, h)) < Measure(s)
  {
    var t := SendStep(s, h);
    assert SenderGood(s, h) by { assert HartGood(s, h); }
    var send := s.harts[h].pc.send;
    LoopAdvance(send.i, |s.harts|, |s.count|);
    MeasureAfterPut(s, h, t.harts[h], send.i, Full(send.msg), t);
  }

  lemma TakeLowers(s: State, h: nat, q: nat)
    requires Inv(s) && Enabled(s, h, Take(q))
    ensures Measure(Next(s, h, Take(q))) < Measure(s)
  {
    var t := Next(s, h, Take(q));
    assert Carries(s, s.box[q][h].msg);
    assert HandlerWork(t.harts[h].handler) <= MESSAGE_WORDS + 1;
    assert PcWork(t.harts[h].pc, |s.harts|, |s.count|)
      <= PcWork(s.harts[h].pc, |s.harts|, |s.count|) + 3 * |s.count| + 3;
    MeasureAfterTake(s, h, t.harts[h], q, t);
  }

  /** Every step of every reachable state lowers the measure, except a new call
      and the look at an empty mailbox at line 121.  (Spinning on a busy receiver
      changes nothing and is no step.) */
  lemma StepLowers(s: State, h: nat, a: Action)
    requires Inv(s) && Enabled(s, h, a) && (a.Step? || a.Take?) && !EmptyPoll(s, h, a)
    ensures Measure(Next(s, h, a)) < Measure(s)
  {
    if a.Take? {
      TakeLowers(s, h, a.sender);
    } else if s.harts[h].handler.Running? {
      HandlerLowers(s, h);
    } else if s.harts[h].pc.Put? {
      PutLowers(s, h);
    } else if SendTurn(s, h) {
      SendLowers(s, h);
    } else {
      ClientLowers(s, h);
    }
  }

  // ----- somebody can always lower it

  ghost predicate Quiet(s: State) {
    && (forall h :: 0 <= h < |s.harts| ==> s.harts[h] == Hart(Idle, NoHandler))
    && (forall q, r :: 0 <= q < |s.box| && 0 <= r < |s.box[q]| ==> s.box[q][r].Empty?)
  }

  ghost predicate Lowers(s: State, h: nat, a: Action)
    requires Shape(s)
  {
    (a.Step? || a.Take?) && Enabled(s, h, a) && !EmptyPoll(s, h, a)
  }

  ghost predicate NobodyLowers(s: State)
    requires Shape(s)
  {
    forall h: nat, a: Action :: !Lowers(s, h, a)
  }

  lemma StuckHart(s: State, h: nat)
    requires Inv(s) && NobodyLowers(s) && h < |s.harts|
    ensures s.harts[h].handler.NoHandler? && ReadsMail(s, h)
  {
    assert HartGood(s, h);
    assert !Lowers(s, h, Step);
  }

  /** When nobody can lower the measure, the mailboxes are empty, and every hart
      is idle or looks for mail while it scans for a slot. */
  lemma StuckSystem(s: State)
    requires Inv(s) && NobodyLowers(s)
    ensures forall q, r :: 0 <= q < |s.box| && 0 <= r < |s.box| ==> s.box[q][r].Empty?
    ensures forall h :: 0 <= h < |s.harts| ==>
              s.harts[h].handler.NoHandler? && (s.harts[h].pc.Idle? || s.harts[h].pc.Poll?)
  {
    forall q: nat, r: nat | q < |s.box| && r < |s.box| ensures s.box[q][r].Empty? {
      StuckHart(s, r);
      assert !Lowers(s, r, Take(q));
    }
    forall h: nat | h < |s.harts|
      ensures s.harts[h].handler.NoHandler? && (s.harts[h].pc.Idle? || s.harts[h].pc.Poll?)
    {
      StuckHart(s, h);
    }
  }

  lemma StuckCounts(s: State, p: nat)
    requires Inv(s) && NobodyLowers(s) && p < |s.count|
    ensures s.count[p] == 0
  {
    StuckSystem(s);
    assert s.count[p] == References(s, p);
    NothingHeldBy(s.harts, p);
    T.NothingInMail(s.box, p);
  }

  lemma {:induction false} NothingHeldBy(harts: seq<Hart>, p: nat)
    requires forall h :: 0 <= h < |harts| ==> harts[h].handler.NoHandler? && (harts[h].pc.Idle? || harts[h].pc.Poll?)
    ensures Held(harts, p) == 0
  {
    if harts != [] {
      NothingHeldBy(harts[1..], p);
    }
  }

  ghost predicate NoNewCalls(run: Schedule) {
    forall i :: 0 <= i < |run| ==> run[i].1.Step? || run[i].1.Take?
  }

  /** A hart that scans an idle pool allocates slot 0 in three steps. */
  lemma ScanSucceeds(s: State, h: nat) returns (run: Schedule)
    requires Inv(s) && NobodyLowers(s) && h < |s.harts| && s.harts[h].pc.Poll?
    ensures Runs(s, run) && NoNewCalls(run) && Inv(After(s, run)) && Measure(After(s, run)) < Measure(s)
  {
    StuckSystem(s);
    StuckCounts(s, 0);
    assert HartGood(s, h);
    var a := Next(s, h, Step);
    StepKeepsInv(s, h, Step);
    var b := Next(a, h, Step);
    StepKeepsInv(a, h, Step);
    var c := Next(b, h, Step);
    StepKeepsInv(b, h, Step);
    run := [(h, Step)] + ([(h, Step)] + [(h, Step)]);
    Extend(b, h, Step, []);
    Extend(a, h, Step, [(h, Step)]);
    Extend(s, h, Step, [(h, Step)] + [(h, Step)]);
    assert c.harts == s.harts[h := c.harts[h]];
    MeasureAfterHart(s, h, c.harts[h], c);
  }

  lemma Extend(s: State, h: nat, a: Action, rest: Schedule)
    requires Shape(s) && Enabled(s, h, a) && Runs(Next(s, h, a), rest)
    ensures Runs(s, [(h, a)] + rest) && After(s, [(h, a)] + rest) == After(Next(s, h, a), rest)
  {
    assert ([(h, a)] + rest)[1..] == rest;
  }

  lemma Advance(s: State) returns (run: Schedule)
    requires Inv(s) && !Quiet(s)
    ensures Runs(s, run) && NoNewCalls(run) && Inv(After(s, run)) && Measure(After(s, run)) < Measure(s)
  {
    if h: nat, a: Action :| Lowers(s, h, a) {
      StepLowers(s, h, a);
      StepKeepsInv(s, h, a);
      Extend(s, h, a, []);
      run := [(h, a)] + [];
    } else {
      assert NobodyLowers(s);
      StuckSystem(s);
      var h: nat :| h < |s.harts| && s.harts[h] != Hart(Idle, NoHandler);
      run := ScanSucceeds(s, h);
    }
  }

  lemma {:induction false} Join(s: State, first: Schedule, second: Schedule)
    requires Shape(s) && Runs(s, first) && Runs(After(s, first), second)
    ensures Runs(s, first + second) && After(s, first + second) == After(After(s, first), second)
    decreases |first|
  {
    if first == [] {
      assert first + second == second;
    } else {
      Join(Next(s, first[0].0, first[0].1), first[1..], second);
      assert (first + second)[1..] == first[1..] + second;
    }
  }

  lemma {:induction false} Drain(s: State) returns (run: Schedule)
    requires Inv(s)
    ensures Runs(s, run) && NoNewCalls(run) && Inv(After(s, run)) && Quiet(After(s, run))
    decreases Measure(s)
  {
    if Quiet(s) {
      run := [];
    } else {
      var first := Advance(s);
      var second := Drain(After(s, first));
      Join(s, first, second);
      run := first + second;
    }
  }

  lemma QuietMeansFree(s: State)
    requires Inv(s) && Quiet(s)
    ensures forall p :: 0 <= p < |s.count| ==> s.count[p] == 0
  {
    forall p: nat | p < |s.count| ensures s.count[p] == 0 {
      assert s.count[p] == References(s, p);
      T.NothingHeld(s.harts, p);
      T.NothingInMail(s.box, p);
    }
  }

  /** No run can be led into a dead end: without any new call, some continuation
      completes all calls, empties all mailboxes and frees every slot. */
  lemma AlwaysDrainable(harts: nat, body: seq<seq<int>>, run: Schedule, s: State) returns (rest: Schedule)
    requires T.Reaches(harts, body, run, s)
    ensures Shape(s) && Runs(s, rest) && NoNewCalls(rest) && Quiet(After(s, rest))
    ensures forall p :: 0 <= p < |s.count| ==> After(s, rest).count[p] == 0
  {
    T.Reached(harts, body, run, s);
    rest := Drain(s);
    QuietMeansFree(After(s, rest));
  }

  /** While a hart spins on a busy receiver, some hart has a step that lowers the
      measure. */
  lemma SpinningIsNotDeadlock(harts: nat, body: seq<seq<int>>, run: Schedule, s: State, h: nat, send: Send)
    requires T.Reaches(harts, body, run, s) && h < |s.harts|
    requires Shape(s) && s.harts[h] == Hart(Loop(send), NoHandler) && Spins(s, h, send)
    ensures exists k: nat, a: Action :: Lowers(s, k, a) && Measure(Next(s, k, a)) < Measure(s)
  {
    T.Reached(harts, body, run, s);
    if NobodyLowers(s) {
      StuckSystem(s);
    } else {
      var k: nat, a: Action :| Lowers(s, k, a);
      StepLowers(s, k, a);
    }
  }

  // ----- which slot a call takes

  ghost predicate OnlyHart(run: Schedule, h: nat) {
    forall i :: 0 <= i < |run| ==> run[i].0 == h
  }

  /** The slot p is the first free one from slot i on. */
  ghost predicate FirstFree(s: State, i: nat, p: nat) {
    i <= p < |s.count| && s.count[p] == 0 && forall j :: i <= j < p ==> s.count[j] != 0
  }

  /** The state when hart h has taken slot p for this request. */
  ghost function WithSlot(s: State, h: nat, req: Request, p: nat): State
    requires h < |s.harts| && p < |s.count|
  {
    s.(count := s.count[p := 1], harts := s.harts[h := Hart(Fill(req, p, 0), NoHandler)])
  }

  lemma TakesSlot(s: State, h: nat, req: Request, p: nat) returns (run: Schedule)
    requires Shape(s) && h < |s.harts| && s.harts[h] == Hart(Scan(req, p), NoHandler)
    requires p < |s.count| && s.count[p] == 0
    ensures Runs(s, run) && OnlyHart(run, h) && After(s, run) == WithSlot(s, h, req, p)
  {
    var a := Next(s, h, Step);
    Extend(a, h, Step, []);
    Extend(s, h, Step, [(h, Step)]);
    run := [(h, Step)] + [(h, Step)];
    assert Next(a, h, Step) == WithSlot(s, h, req, p);
  }

  lemma {:induction false} ScansTo(s: State, h: nat, req: Request, i: nat, p: nat) returns (run: Schedule)
    requires Shape(s) && h < |s.harts| && s.harts[h] == Hart(Scan(req, i), NoHandler) && FirstFree(s, i, p)
    ensures Runs(s, run) && OnlyHart(run, h) && After(s, run) == WithSlot(s, h, req, p)
    decreases p - i
  {
    if i == p {
      run := TakesSlot(s, h, req, p);
    } else {
      var a := Next(s, h, Step);
      var rest := ScansTo(a, h, req, i + 1, p);
      Extend(s, h, Step, rest);
      run := [(h, Step)] + rest;
      assert WithSlot(a, h, req, p) == WithSlot(s, h, req, p);
    }
  }

  /** A call that nobody disturbs takes the first free slot from its hart's own
      on, and counts in no other. */
  lemma AloneTakesFirstFree(s: State, h: nat, req: Request, p: nat) returns (run: Schedule)
    requires Inv(s) && Enabled(s, h, Call(req)) && FirstFree(s, h % |s.count|, p)
    ensures Runs(s, [(h, Call(req))] + run) && OnlyHart(run, h)
    ensures After(s, [(h, Call(req))] + run) == WithSlot(s, h, req, p)
  {
    var a := Next(s, h, Call(req));
    run := ScansTo(a, h, req, h % |s.count|, p);
    Extend(s, h, Call(req), run);
    assert WithSlot(a, h, req, p) == WithSlot(s, h, req, p);
  }

  /** A hart that loses a slot to another gives it back and takes the first free
      one behind it. */
  lemma AloneAfterConflict(s: State, h: nat, req: Request, i: nat, p: nat) returns (run: Schedule)
    requires Inv(s) && h < |s.harts| && s.harts[h] == Hart(Claim(req, i), NoHandler)
    requires i < |s.count| && s.count[i] != 0 && FirstFree(s, i + 1, p)
    ensures Runs(s, run) && OnlyHart(run, h) && After(s, run) == WithSlot(s, h, req, p)
  {
    var a := Next(s, h, Step);
    var b := Next(a, h, Step);
    assert b.count == s.count && b.harts == s.harts[h := Hart(Scan(req, i + 1), NoHandler)];
    var rest := ScansTo(b, h, req, i + 1, p);
    Extend(a, h, Step, rest);
    Extend(s, h, Step, [(h, Step)] + rest);
    run := [(h, Step)] + ([(h, Step)] + rest);
    assert WithSlot(b, h, req, p) == WithSlot(s, h, req, p);
  }

  lemma {:induction false} HandlerFinishes(s: State, h: nat) returns (run: Schedule)
    requires Inv(s) && h < |s.harts| && s.harts[h].handler.Running?
    ensures Runs(s, run) && OnlyHart(run, h) && Inv(After(s, run))
    ensures After(s, run).harts == s.harts[h := Hart(s.harts[h].pc, NoHandler)]
    decreases HandlerWork(s.harts[h].handler)
  {
    assert HartGood(s, h);
    var a := Next(s, h, Step);
    StepKeepsInv(s, h, Step);
    var rest: Schedule := [];
    if a.harts[h].handler.Running? {
      rest := HandlerFinishes(a, h);
    }
    Extend(s, h, Step, rest);
    run := [(h, Step)] + rest;
  }

  /** When the scan has come round, a hart reads one message and no more, and then
      takes the first free slot from 0 on, whatever mail is left. */
  lemma OneMessageThenScan(s: State, h: nat, req: Request, q: nat) returns (run: Schedule, t: State)
    requires Inv(s) && Enabled(s, h, Take(q)) && s.harts[h].pc == Poll(req)
    ensures Runs(s, [(h, Take(q))] + run) && OnlyHart(run, h) && t == After(s, [(h, Take(q))] + run)
    ensures Inv(t) && t.harts == s.harts[h := Hart(Scan(req, 0), NoHandler)]
    ensures forall p :: FirstFree(t, 0, p) ==>
              exists more :: Runs(t, more) && OnlyHart(more, h) && After(t, more) == WithSlot(t, h, req, p)
  {
    var a := Next(s, h, Take(q));
    StepKeepsInv(s, h, Take(q));
    run := HandlerFinishes(a, h);
    Extend(s, h, Take(q), run);
    t := After(a, run);
    forall p | FirstFree(t, 0, p)
      ensures exists more :: Runs(t, more) && OnlyHart(more, h) && After(t, more) == WithSlot(t, h, req, p)
    {
      var more := ScansTo(t, h, req, 0, p);
    }
  }
}
