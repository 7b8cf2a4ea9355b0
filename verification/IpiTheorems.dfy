/** The promises of the IPI message pool, over every run from start-up. */
module IpiTheorems {
  import opened Bits
  import opened IpiPool
  import opened IpiSafety

  ghost predicate GoodPool(body: seq<seq<int>>) {
    |body| > 0 && forall p :: 0 <= p < |body| ==> |body[p]| == MESSAGE_WORDS
  }

  lemma {:induction false} NothingHeld(harts: seq<Hart>, p: nat)
    requires forall h :: 0 <= h < |harts| ==> harts[h] == Hart(Idle, NoHandler)
    ensures Held(harts, p) == 0
  {
    if harts != [] {
      NothingHeld(harts[1..], p);
    }
  }

  lemma {:induction false} NothingInRow(row: seq<Buffer>, p: nat)
    requires forall r :: 0 <= r < |row| ==> row[r].Empty?
    ensures InRow(row, p) == 0
  {
    if row != [] {
      NothingInRow(row[1..], p);
    }
  }

  lemma {:induction false} NothingInMail(box: seq<seq<Buffer>>, p: nat)
    requires forall q, r :: 0 <= q < |box| && 0 <= r < |box[q]| ==> box[q][r].Empty?
    ensures InMail(box, p) == 0
  {
    if box != [] {
      NothingInRow(box[0], p);
      NothingInMail(box[1..], p);
    }
  }

  lemma InitIsGood(harts: nat, body: seq<seq<int>>)
    requires GoodPool(body)
    ensures Inv(Init(harts, body))
  {
    var s := Init(harts, body);
    forall p: nat | p < |s.count| ensures s.count[p] == References(s, p) {
      NothingHeld(s.harts, p);
      NothingInMail(s.box, p);
    }
  }

  /** The run takes a system of `harts` harts and an idle pool to state s. */
  ghost predicate Reaches(harts: nat, body: seq<seq<int>>, run: Schedule, s: State) {
    GoodPool(body) && Runs(Init(harts, body), run) && s == After(Init(harts, body), run)
  }

  lemma Reached(harts: nat, body: seq<seq<int>>, run: Schedule, s: State)
    requires Reaches(harts, body, run, s)
    ensures Inv(s) && |s.harts| == harts && |s.count| == |body|
  {
    InitIsGood(harts, body);
    RunKeepsInv(Init(harts, body), run);
  }

  /** In every reachable state the count of a slot is exactly the number of its
      owners, raised puts, mailbox entries, running handlers and back-outs; it is
      never negative and a slot has at most one owner. */
  lemma ReferenceConservation(harts: nat, body: seq<seq<int>>, run: Schedule, s: State, p: nat, h: nat, k: nat)
    requires Reaches(harts, body, run, s) && p < |body| && h < harts && k < harts
    ensures |s.harts| == harts && |s.count| == |body|
    ensures s.count[p] == Held(s.harts, p) + InMail(s.box, p)
    ensures s.count[p] >= 0
    ensures Owns(s.harts[h].pc, p) && Owns(s.harts[k].pc, p) ==> h == k
  {
    Reached(harts, body, run, s);
    assert s.count[p] == References(s, p);
    if h < k {
      assert !(Owns(s.harts[h].pc, p) && Owns(s.harts[k].pc, p));
    } else if k < h {
      assert !(Owns(s.harts[k].pc, p) && Owns(s.harts[h].pc, p));
    }
  }

  // ----- payload integrity

  /** The requests made so far, with the hart that made each. */
  ghost function Made(run: Schedule): set<(nat, seq<int>)> {
    if run == [] then {}
    else (if run[0].1.Call? then {(run[0].0, run[0].1.req.words)} else {}) + Made(run[1..])
  }

  ghost predicate MsgMade(m: Msg, made: set<(nat, seq<int>)>) {
    m.Ref? ==> (m.sender, m.words) in made
  }

  ghost predicate PcMade(pc: Pc, h: nat, made: set<(nat, seq<int>)>) {
    match pc
    case Scan(req, _) => (h, req.words) in made
    case Claim(req, _) => (h, req.words) in made
    case BackOff(req, _) => (h, req.words) in made
    case Poll(req) => (h, req.words) in made
    case Fill(req, _, _) => (h, req.words) in made
    case Enter(send) => MsgMade(send.msg, made)
    case Loop(send) => MsgMade(send.msg, made)
    case Commit(send) => MsgMade(send.msg, made)
    case Put(send) => MsgMade(send.msg, made)
    case _ => true
  }

  ghost predicate AllMade(s: State, made: set<(nat, seq<int>)>)
    requires Shape(s)
  {
    && (forall h :: 0 <= h < |s.harts| ==>
          PcMade(s.harts[h].pc, h, made) && (s.harts[h].handler.Running? ==> MsgMade(s.harts[h].handler.msg, made)))
    && (forall q, r :: 0 <= q < |s.box| && 0 <= r < |s.box| && s.box[q][r].Full? ==> MsgMade(s.box[q][r].msg, made))
  }

  lemma SendKeepsMade(s: State, h: nat, made: set<(nat, seq<int>)>)
    requires Inv(s) && SendTurn(s, h) && AllMade(s, made)
    ensures AllMade(SendStep(s, h), made)
  {
    assert HartGood(s, h);
    assert PcMade(s.harts[h].pc, h, made);
  }

  lemma ClientKeepsMade(s: State, h: nat, made: set<(nat, seq<int>)>)
    requires Inv(s) && ClientTurn(s, h) && AllMade(s, made)
    ensures AllMade(ClientStep(s, h), made)
  {
    assert PcMade(s.harts[h].pc, h, made);
  }

  lemma OthersKeepMade(s: State, h: nat, a: Action, made: set<(nat, seq<int>)>)
    requires Inv(s) && Enabled(s, h, a) && AllMade(s, made)
    requires a.Step? ==> s.harts[h].handler.Running?
    requires a.Call? ==> (h, a.req.words) in made
    ensures AllMade(Next(s, h, a), made)
  {
    assert PcMade(s.harts[h].pc, h, made);
  }

  lemma StepKeepsMade(s: State, h: nat, a: Action, made: set<(nat, seq<int>)>)
    requires Inv(s) && Enabled(s, h, a) && AllMade(s, made)
    requires a.Call? ==> (h, a.req.words) in made
    ensures AllMade(Next(s, h, a), made)
  {
    if !a.Step? || s.harts[h].handler.Running? {
      OthersKeepMade(s, h, a, made);
    } else if SendTurn(s, h) {
      SendKeepsMade(s, h, made);
    } else {
      ClientKeepsMade(s, h, made);
    }
  }

  lemma {:induction false} RunKeepsMade(s: State, run: Schedule, made: set<(nat, seq<int>)>)
    requires Inv(s) && Runs(s, run) && AllMade(s, made) && Made(run) <= made
    ensures AllMade(After(s, run), made)
    decreases |run|
  {
    if run != [] {
      StepKeepsInv(s, run[0].0, run[0].1);
      StepKeepsMade(s, run[0].0, run[0].1, made);
      RunKeepsMade(Next(s, run[0].0, run[0].1), run[1..], made);
    }
  }

  lemma ReachedMade(harts: nat, body: seq<seq<int>>, run: Schedule, s: State)
    requires Reaches(harts, body, run, s)
    ensures Shape(s) && AllMade(s, Made(run))
  {
    InitIsGood(harts, body);
    assert AllMade(Init(harts, body), Made(run));
    RunKeepsMade(Init(harts, body), run, Made(run));
  }

  /** Payload integrity: whatever a handler has read so far is what some hart
      passed to the call for which it sent this message, word by word and from
      the first; and the rest is still there for it to read. */
  lemma PayloadIntegrity(harts: nat, body: seq<seq<int>>, run: Schedule, s: State, h: nat)
    requires Reaches(harts, body, run, s) && h < |s.harts|
    requires s.harts[h].handler.Running? && s.harts[h].handler.msg.Ref?
    ensures var handler := s.harts[h].handler;
            var msg := handler.msg;
            && (msg.sender, msg.words) in Made(run)
            && handler.seen <= msg.words
            && msg.slot < |s.body| && msg.words <= s.body[msg.slot]
  {
    Reached(harts, body, run, s);
    ReachedMade(harts, body, run, s);
    assert HartGood(s, h);
  }

  /** A handler gives its reference back only when it has read the whole payload. */
  lemma HandlerReadsItAll(harts: nat, body: seq<seq<int>>, run: Schedule, s: State, h: nat)
    requires Reaches(harts, body, run, s) && h < |s.harts|
    requires s.harts[h].handler.Running? && s.harts[h].handler.msg.Ref?
    requires Shape(s) && Enabled(s, h, Step) && Next(s, h, Step).harts[h].handler.NoHandler?
    ensures var handler := s.harts[h].handler;
            handler.seen == handler.msg.words && (handler.msg.sender, handler.seen) in Made(run)
  {
    PayloadIntegrity(harts, body, run, s, h);
  }

  /** While a message names a slot, no step of any hart stores in the slot or
      allocates it. */
  lemma NoRewriteWhileInUse(harts: nat, body: seq<seq<int>>, run: Schedule, s: State, h: nat, a: Action, p: nat, k: nat)
    requires Reaches(harts, body, run, s) && p < |s.body| && k < |s.harts|
    requires Shape(s) && Enabled(s, h, a) && !NoMessage(s, p)
    ensures var t := Next(s, h, a);
            t.body[p] == s.body[p] && (Owns(t.harts[k].pc, p) ==> Owns(s.harts[k].pc, p))
  {
    Reached(harts, body, run, s);
    UsedSlotKept(s, h, a, p, k);
  }

  lemma FramedSlotKept(s: State, h: nat, t: State, p: nat, k: nat)
    requires Inv(s) && Framed(s, h, t) && p < |s.count| && k < |s.harts| && !NoMessage(s, p) && s.count[p] > 0
    requires Owns(t.harts[h].pc, p) ==> Owns(s.harts[h].pc, p)
    ensures t.body[p] == s.body[p] && (Owns(t.harts[k].pc, p) ==> Owns(s.harts[k].pc, p))
  {
    assert HartGood(s, h);
  }

  lemma UsedSlotKept(s: State, h: nat, a: Action, p: nat, k: nat)
    requires Inv(s) && Enabled(s, h, a) && p < |s.count| && k < |s.harts| && !NoMessage(s, p)
    ensures var t := Next(s, h, a);
            t.body[p] == s.body[p] && (Owns(t.harts[k].pc, p) ==> Owns(s.harts[k].pc, p))
  {
    UsedMeansPositive(s, p);
    if a.Step? && s.harts[h].handler.NoHandler? {
      if SendTurn(s, h) {
        SendFramed(s, h);
        FramedSlotKept(s, h, SendStep(s, h), p, k);
      } else {
        ClientFramed(s, h);
        FramedSlotKept(s, h, ClientStep(s, h), p, k);
      }
    }
  }

  // ----- the multicast

  /** This step puts the message of hart h before hart r: into the empty mailbox
      from h to r, or, for h itself, into its own handler. */
  ghost predicate Delivers(s: State, t: State, h: nat, r: nat, m: Msg)
    requires Shape(s) && Shape(t) && h < |s.harts| == |t.harts|
  {
    r < |s.harts| &&
    if r == h then s.harts[h].handler.NoHandler? && t.harts[h].handler == Running(m, [])
    else s.box[h][r].Empty? && t.box[h][r] == Full(m)
  }

  /** In a send, one step delivers to r exactly when r joins `sent`, and changes
      no other mailbox. */
  lemma SentMeansDelivered(s: State, h: nat, r: nat)
    requires Inv(s) && SendTurn(s, h) && SendStep(s, h).harts[h].pc.Loop?
    ensures var t := SendStep(s, h);
            var send := s.harts[h].pc.send;
            && (r in t.harts[h].pc.send.sent && r !in send.sent <==> Delivers(s, t, h, r, send.msg))
            && forall x, y :: 0 <= x < |s.box| && 0 <= y < |s.box| && (x != h || !Delivers(s, t, h, y, send.msg)) ==>
                 t.box[x][y] == s.box[x][y]
  {
    assert HartGood(s, h);
    var send := s.harts[h].pc.send;
    TargetBit(send.mask, h, send.i);
  }

  /** The second test of the receiver, at line 47, never finds it busy again: only
      the sender fills its buffer, so no target is passed over. */
  lemma FoundFreeStaysFree(harts: nat, body: seq<seq<int>>, run: Schedule, s: State, h: nat, send: Send)
    requires Reaches(harts, body, run, s) && h < |s.harts| && s.harts[h].pc == Commit(send)
    ensures Shape(s) && send.i < |s.harts| && send.i != h && Bit(send.mask, send.i) && !ReceiverBusy(s, h, send.i)
  {
    Reached(harts, body, run, s);
    assert HartGood(s, h);
    TargetBit(send.mask, h, send.i);
  }

  // ----- no overflow of the 32-bit counter

  lemma {:induction false} HeldBound(harts: seq<Hart>, p: nat)
    ensures Held(harts, p) <= 4 * |harts|
  {
    if harts != [] {
      HeldBound(harts[1..], p);
    }
  }

  lemma {:induction false} RowBound(row: seq<Buffer>, p: nat)
    ensures InRow(row, p) <= |row|
  {
    if row != [] {
      RowBound(row[1..], p);
    }
  }

  lemma {:induction false} MailBound(box: seq<seq<Buffer>>, n: nat, p: nat)
    requires n <= 64 && forall q :: 0 <= q < |box| ==> |box[q]| <= n
    ensures InMail(box, p) <= |box| * 64
  {
    if box != [] {
      RowBound(box[0], p);
      MailBound(box[1..], n, p);
    }
  }

  /** With as many harts as a mask has bits the counter stays far below 2^31. */
  lemma CounterFits(harts: nat, body: seq<seq<int>>, run: Schedule, s: State, p: nat)
    requires Reaches(harts, body, run, s) && p < |s.count| && harts <= 64
    ensures 0 <= s.count[p] < 0x8000_0000
  {
    Reached(harts, body, run, s);
    assert s.count[p] == References(s, p);
    HeldBound(s.harts, p);
    MailBound(s.box, harts, p);
  }
}
