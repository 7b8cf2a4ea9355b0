/** Every call is carried out by the harts it names, exactly once by each, and
    by nobody else. */
module IpiDelivery {
  import opened Bits
  import opened IpiPool
  import opened IpiSafety
  import T = IpiTheorems
  import P = IpiProgress

  // ----- the call that a hart is busy with

  predicate IsCall(a: Action) {
    a.Call? || a.CallSignal?
  }

  /** The last call of hart h in a run, before which its last call was `was`. */
  ghost function LastCall(was: Action, run: Schedule, h: nat): Action
    decreases |run|
  {
    if run == [] then was
    else LastCall(if run[0].0 == h && IsCall(run[0].1) then run[0].1 else was, run[1..], h)
  }

  function MaskOf(call: Action): nat
    requires IsCall(call)
  {
    if call.Call? then call.req.mask else call.mask
  }

  ghost predicate SendServes(send: Send, call: Action) {
    match send.msg
    case Ref(_, _, words) => call == Call(Request(words, send.mask))
    case Signal(_) => call == CallSignal(send.mask)
  }

  /** What the hart does belongs to this call. */
  ghost predicate Serves(pc: Pc, call: Action) {
    match pc
    case Scan(req, _) => call == Call(req)
    case Claim(req, _) => call == Call(req)
    case BackOff(req, _) => call == Call(req)
    case Poll(req) => call == Call(req)
    case Fill(req, _, _) => call == Call(req)
    case Enter(send) => SendServes(send, call)
    case Loop(send) => SendServes(send, call)
    case Commit(send) => SendServes(send, call)
    case Put(send) => SendServes(send, call)
    case _ => true
  }

  lemma StepServes(s: State, h: nat, a: Action, k: nat, was: Action)
    requires Shape(s) && Enabled(s, h, a) && k < |s.harts| && Serves(s.harts[k].pc, was)
    ensures Serves(Next(s, h, a).harts[k].pc, if h == k && IsCall(a) then a else was)
  {
  }

  lemma {:induction false} RunServes(s: State, run: Schedule, k: nat, was: Action)
    requires Shape(s) && Runs(s, run) && k < |s.harts| && Serves(s.harts[k].pc, was)
    ensures Serves(After(s, run).harts[k].pc, LastCall(was, run, k))
    decreases |run|
  {
    if run != [] {
      var (h, a) := run[0];
      StepServes(s, h, a, k, was);
      RunServes(Next(s, h, a), run[1..], k, if h == k && IsCall(a) then a else was);
    }
  }

  /** Words and mask that a hart works with are those of one and the same call,
      the last that it made. */
  lemma CallInHand(harts: nat, body: seq<seq<int>>, run: Schedule, s: State, h: nat)
    requires T.Reaches(harts, body, run, s) && h < |s.harts|
    ensures Serves(s.harts[h].pc, LastCall(Step, run, h))
  {
    RunServes(Init(harts, body), run, h, Step);
  }

  /** Exact multicast: when the loop is over, the harts served are those whose
      bit is set among the first `harts` bits of the mask passed to the call,
      each once, with the words passed to the call. */
  lemma ExactMulticast(harts: nat, body: seq<seq<int>>, run: Schedule, s: State, h: nat, send: Send)
    requires T.Reaches(harts, body, run, s) && h < |s.harts|
    requires s.harts[h].pc == Loop(send) && send.i >= harts
    ensures var call := LastCall(Step, run, h);
            && IsCall(call) && (call.Call? <==> send.msg.Ref?)
            && (call.Call? ==> send.msg.words == call.req.words)
            && NoRepeats(send.sent)
            && forall r: nat :: r in send.sent <==> r < harts && Bit(MaskOf(call), r)
  {
    T.Reached(harts, body, run, s);
    CallInHand(harts, body, run, s, h);
    assert HartGood(s, h);
  }

  // ----- exactly once

  /** What a call asks of each hart in its mask. */
  datatype Job = Fence(words: seq<int>) | Ping

  ghost function JobOf(m: Msg): Job {
    if m.Ref? then Fence(m.words) else Ping
  }

  /** A call that asks hart r for this. */
  ghost predicate Asks(a: Action, r: nat, job: Job) {
    match a
    case Call(req) => job == Fence(req.words) && Bit(req.mask, r)
    case CallSignal(mask) => job == Ping && Bit(mask, r)
    case _ => false
  }

  /** How often hart q has asked hart r for this. */
  ghost function Asked(run: Schedule, q: nat, r: nat, job: Job): nat {
    if run == [] then 0 else One(run[0].0 == q && Asks(run[0].1, r, job)) + Asked(run[1..], q, r, job)
  }

  /** With this step hart r has done what q asked it for, with the words that it
      has itself read from the pool. */
  ghost predicate Does(s: State, h: nat, a: Action, q: nat, r: nat, job: Job)
    requires Shape(s) && Enabled(s, h, a)
  {
    h == r && s.harts[h].handler.Running? && Next(s, h, a).harts[h].handler.NoHandler?
    && s.harts[h].handler.msg.sender == q
    && job == if s.harts[h].handler.msg.Ref? then Fence(s.harts[h].handler.seen) else Ping
  }

  /** How often hart r has done this for hart q. */
  ghost function Done(s: State, run: Schedule, q: nat, r: nat, job: Job): nat
    requires Shape(s) && Runs(s, run)
    decreases |run|
  {
    if run == [] then 0
    else One(Does(s, run[0].0, run[0].1, q, r, job)) + Done(Next(s, run[0].0, run[0].1), run[1..], q, r, job)
  }

  /** The call in progress has still to put it before hart r. */
  ghost function ToSend(pc: Pc, r: nat, job: Job): nat {
    match pc
    case Scan(req, _) => One(Asks(Call(req), r, job))
    case Claim(req, _) => One(Asks(Call(req), r, job))
    case BackOff(req, _) => One(Asks(Call(req), r, job))
    case Poll(req) => One(Asks(Call(req), r, job))
    case Fill(req, _, _) => One(Asks(Call(req), r, job))
    case Enter(send) => LeftToSend(send, r, job)
    case Loop(send) => LeftToSend(send, r, job)
    case Commit(send) => LeftToSend(send, r, job)
    case Put(send) => LeftToSend(send, r, job)
    case _ => 0
  }

  ghost function LeftToSend(send: Send, r: nat, job: Job): nat {
    One(JobOf(send.msg) == job && Bit(send.mask, r) && r !in send.sent)
  }

  /** What is under way from q to r: in q's call, in the mailbox, or at work in r. */
  ghost function UnderWay(s: State, q: nat, r: nat, job: Job): nat
    requires Shape(s) && q < |s.harts| && r < |s.harts|
  {
    ToSend(s.harts[q].pc, r, job) + InBox(s.box[q][r], job) + AtWork(s.harts[r].handler, q, job)
  }

  ghost function InBox(b: Buffer, job: Job): nat {
    One(b.Full? && JobOf(b.msg) == job)
  }

  ghost function AtWork(handler: Handler, q: nat, job: Job): nat {
    One(handler.Running? && handler.msg.sender == q && JobOf(handler.msg) == job)
  }

  /** What the step adds on one side it adds on the other. */
  ghost predicate Balanced(s: State, h: nat, a: Action, q: nat, r: nat, job: Job)
    requires Shape(s) && Enabled(s, h, a) && q < |s.harts| && r < |s.harts|
  {
    UnderWay(Next(s, h, a), q, r, job) + One(Does(s, h, a, q, r, job))
    == UnderWay(s, q, r, job) + One(h == q && Asks(a, r, job))
  }

  lemma CallBalanced(s: State, h: nat, a: Action, q: nat, r: nat, job: Job)
    requires Inv(s) && Enabled(s, h, a) && q < |s.harts| && r < |s.harts| && IsCall(a)
    ensures Balanced(s, h, a, q, r, job)
  {
  }

  lemma TakeBalanced(s: State, h: nat, x: nat, q: nat, r: nat, job: Job)
    requires Inv(s) && Enabled(s, h, Take(x)) && q < |s.harts| && r < |s.harts|
    ensures Balanced(s, h, Take(x), q, r, job)
  {
    assert s.box[x][h].msg.sender == x;
  }

  lemma HandlerBalanced(s: State, h: nat, q: nat, r: nat, job: Job)
    requires Inv(s) && Enabled(s, h, Step) && s.harts[h].handler.Running? && q < |s.harts| && r < |s.harts|
    ensures Balanced(s, h, Step, q, r, job)
  {
    assert HartGood(s, h);
    var handler := s.harts[h].handler;
    if handler.msg.Ref? && |handler.seen| == |handler.msg.words| {
      assert handler.seen == handler.msg.words;
    }
  }

  lemma PutBalanced(s: State, h: nat, q: nat, r: nat, job: Job)
    requires Inv(s) && Enabled(s, h, Step) && SendTurn(s, h) && s.harts[h].pc.Put? && q < |s.harts| && r < |s.harts|
    ensures Balanced(s, h, Step, q, r, job)
  {
    assert SenderGood(s, h) by { assert HartGood(s, h); }
    var send := s.harts[h].pc.send;
    TargetBit(send.mask, h, send.i);
  }

  lemma SendBalanced(s: State, h: nat, q: nat, r: nat, job: Job)
    requires Inv(s) && Enabled(s, h, Step) && SendTurn(s, h) && !s.harts[h].pc.Put? && q < |s.harts| && r < |s.harts|
    ensures Balanced(s, h, Step, q, r, job)
  {
    assert SenderGood(s, h) by { assert HartGood(s, h); }
  }

  lemma ClientStillToSend(s: State, h: nat, r: nat, job: Job)
    requires Inv(s) && ClientTurn(s, h)
    ensures var t := ClientStep(s, h);
            && t.box == s.box && t.harts == s.harts[h := t.harts[h]] && t.harts[h].handler == s.harts[h].handler
            && ToSend(t.harts[h].pc, r, job) == ToSend(s.harts[h].pc, r, job)
  {
  }

  lemma ClientBalanced(s: State, h: nat, q: nat, r: nat, job: Job)
    requires Inv(s) && Enabled(s, h, Step) && ClientTurn(s, h) && q < |s.harts| && r < |s.harts|
    ensures Balanced(s, h, Step, q, r, job)
  {
    ClientStillToSend(s, h, r, job);
  }

  lemma StepBalanced(s: State, h: nat, a: Action, q: nat, r: nat, job: Job)
    requires Inv(s) && Enabled(s, h, a) && q < |s.harts| && r < |s.harts|
    ensures Balanced(s, h, a, q, r, job)
  {
    if a.Take? {
      TakeBalanced(s, h, a.sender, q, r, job);
    } else if IsCall(a) {
      CallBalanced(s, h, a, q, r, job);
    } else if s.harts[h].handler.Running? {
      HandlerBalanced(s, h, q, r, job);
    } else if SendTurn(s, h) && s.harts[h].pc.Put? {
      PutBalanced(s, h, q, r, job);
    } else if SendTurn(s, h) {
      SendBalanced(s, h, q, r, job);
    } else {
      ClientBalanced(s, h, q, r, job);
    }
  }

  lemma {:induction false} RunBalanced(s: State, run: Schedule, q: nat, r: nat, job: Job)
    requires Inv(s) && Runs(s, run) && q < |s.harts| && r < |s.harts|
    ensures Done(s, run, q, r, job) + UnderWay(After(s, run), q, r, job)
         == UnderWay(s, q, r, job) + Asked(run, q, r, job)
    decreases |run|
  {
    if run != [] {
      var (h, a) := run[0];
      StepBalanced(s, h, a, q, r, job);
      StepKeepsInv(s, h, a);
      RunBalanced(Next(s, h, a), run[1..], q, r, job);
    }
  }

  /** Exactly once: in every run, what hart q has asked hart r for, hart r has
      done as often, but for what is still under way; and it does nothing that
      it was not asked for. */
  lemma ExactlyOnce(harts: nat, body: seq<seq<int>>, run: Schedule, s: State, q: nat, r: nat, job: Job)
    requires T.Reaches(harts, body, run, s) && q < harts && r < harts
    ensures Shape(s) && |s.harts| == harts && Shape(Init(harts, body))
    ensures Asked(run, q, r, job) == Done(Init(harts, body), run, q, r, job) + UnderWay(s, q, r, job)
    ensures P.Quiet(s) ==> UnderWay(s, q, r, job) == 0
  {
    T.Reached(harts, body, run, s);
    T.InitIsGood(harts, body);
    RunBalanced(Init(harts, body), run, q, r, job);
  }

  lemma {:induction false} AskedJoined(first: Schedule, second: Schedule, q: nat, r: nat, job: Job)
    requires P.NoNewCalls(second)
    ensures Asked(first + second, q, r, job) == Asked(first, q, r, job)
    decreases |first|, |second|
  {
    if first != [] {
      assert (first + second)[1..] == first[1..] + second;
      AskedJoined(first[1..], second, q, r, job);
    } else if second != [] {
      assert first + second == second && [] + second[1..] == second[1..];
      AskedJoined([], second[1..], q, r, job);
    }
  }

  /** Every run can go on, without any new call, until every hart has done
      exactly what it was asked for, as often as it was asked. */
  lemma EveryCallIsCarriedOut(harts: nat, body: seq<seq<int>>, run: Schedule, s: State) returns (all: Schedule)
    requires T.Reaches(harts, body, run, s)
    ensures run <= all && P.NoNewCalls(all[|run|..]) && Shape(Init(harts, body)) && Runs(Init(harts, body), all)
    ensures forall q: nat, r: nat, job: Job :: q < harts && r < harts ==>
              Done(Init(harts, body), all, q, r, job) == Asked(run, q, r, job)
  {
    var rest := P.AlwaysDrainable(harts, body, run, s);
    P.Join(Init(harts, body), run, rest);
    all := run + rest;
    assert all[|run|..] == rest;
    forall q: nat, r: nat, job: Job | q < harts && r < harts
      ensures Done(Init(harts, body), all, q, r, job) == Asked(run, q, r, job)
    {
      ExactlyOnce(harts, body, all, After(Init(harts, body), all), q, r, job);
      AskedJoined(run, rest, q, r, job);
    }
  }
}
