/** The pool of reference-counted IPI messages: src/ipi.c, its clients in
    src/mtrap.c and the interrupt-side consumer in src/mentry.S.  Each atomic
    add, payload word, mailbox write, mailbox read and handler read is one step;
    harts interleave in any order. */
module IpiPool {
  import opened Bits

  /** One remote fence as mcall_sfence_vma or mcall_sfence_vma_asid issues it:
      the words it stores in the message (handler, address, size and, in the
      second, ASID) and the harts it addresses. */
  datatype Request = Request(words: seq<int>, mask: nat)

  const MESSAGE_WORDS: nat := 4

  /** What a mailbox carries.  On the wire that is a command or a slot number;
      `sender` and `words` are history: the hart that sent it and what that hart
      stored in the slot for this send. */
  datatype Msg = Signal(sender: nat) | Ref(slot: nat, sender: nat, words: seq<int>)

  datatype Buffer = Empty | Full(msg: Msg)

  /** do_local_ipi_cmd or the interrupt handler at work; `seen` are the words it
      has read from the slot so far. */
  datatype Handler = NoHandler | Running(msg: Msg, seen: seq<int>)

  /** ipi_send_cmd: `rest` and `i` are its loop variables, `mask` its argument;
      `sent` is history: the harts served so far. */
  datatype Send = Send(msg: Msg, mask: nat, rest: nat, i: nat, sent: seq<nat>)

  /** What a hart is about to do, with the line of src/ipi.c. */
  datatype Pc =
    | Idle
    | Scan(req: Request, i: nat)                 // 112 read the count
    | Claim(req: Request, i: nat)                // 113 add 1
    | BackOff(req: Request, i: nat)              // 116 add -1
    | Poll(req: Request)                         // 121 look for mail
    | Fill(req: Request, slot: nat, j: nat)      // store word j; src/mtrap.c:260-262
    | Enter(send: Send)                          // 30-36
    | Loop(send: Send)                           // 38-45
    | Commit(send: Send)                         // 47-49
    | Put(send: Send)                            // 50
    | Release(slot: nat)                         // 77, called at src/mtrap.c:265

  datatype Hart = Hart(pc: Pc, handler: Handler)

  /** `box[q][r]` is the buffer that q writes and r reads. */
  datatype State = State(count: seq<int>, body: seq<seq<int>>, harts: seq<Hart>, box: seq<seq<Buffer>>)

  datatype Action =
    | Call(req: Request)       // start a remote fence
    | CallSignal(mask: nat)    // start ipi_send_signal
    | Take(sender: nat)        // read a mailbox and start its handler
    | Step                     // whatever comes next

  predicate Shape(s: State) {
    && 0 < |s.count| == |s.body|
    && |s.box| == |s.harts|
    && (forall q :: 0 <= q < |s.box| ==> |s.box[q]| == |s.harts|)
    && (forall p :: 0 <= p < |s.body| ==> |s.body[p]| == MESSAGE_WORDS)
  }

  /** All harts idle, all counts zero, all mailboxes empty. */
  function Init(harts: nat, body: seq<seq<int>>): State {
    State(seq(|body|, i => 0), body, seq(harts, i => Hart(Idle, NoHandler)), seq(harts, i => seq(harts, j => Empty)))
  }

  predicate HasMail(s: State, h: nat)
    requires Shape(s) && h < |s.harts|
  {
    exists q :: 0 <= q < |s.box| && s.box[q][h].Full?
  }

  /** Line 44: the receiver has not read the last message of this sender. */
  predicate ReceiverBusy(s: State, h: nat, r: nat)
    requires Shape(s) && h < |s.harts| && r < |s.harts|
  {
    s.box[h][r].Full?
  }

  /** The loop at 38-45 spins: it has a target and the target is busy. */
  predicate Spins(s: State, h: nat, send: Send)
    requires Shape(s) && h < |s.harts|
  {
    send.i < |s.harts| && send.rest % 2 == 1 && ReceiverBusy(s, h, send.i)
  }

  predicate GoodRequest(req: Request) {
    0 < |req.words| <= MESSAGE_WORDS
  }

  /** Mail is read on the interrupt path (idle), at line 121 and at line 45. */
  predicate ReadsMail(s: State, h: nat)
    requires Shape(s) && h < |s.harts|
  {
    match s.harts[h].pc
    case Idle => true
    case Poll(_) => true
    case Loop(send) => Spins(s, h, send)
    case _ => false
  }

  predicate CanStep(s: State, h: nat)
    requires Shape(s) && h < |s.harts|
  {
    s.harts[h].handler.Running? ||
    match s.harts[h].pc
    case Idle => false
    case Poll(_) => !HasMail(s, h)
    case Loop(send) => !Spins(s, h, send)
    case Scan(_, i) => i < |s.count|
    case Claim(_, i) => i < |s.count|
    case BackOff(_, i) => i < |s.count|
    case Fill(_, slot, _) => slot < |s.count|
    case Release(slot) => slot < |s.count|
    case Commit(send) => send.i < |s.harts| && (send.msg.Ref? ==> send.msg.slot < |s.count|)
    case Put(send) => send.i < |s.harts|
    case Enter(send) => send.msg.Ref? ==> send.msg.slot < |s.count|
  }

  predicate Enabled(s: State, h: nat, a: Action)
    requires Shape(s)
  {
    h < |s.harts| &&
    match a
    case Call(req) => s.harts[h] == Hart(Idle, NoHandler) && GoodRequest(req)
    case CallSignal(_) => s.harts[h] == Hart(Idle, NoHandler)
    case Take(q) => s.harts[h].handler.NoHandler? && ReadsMail(s, h) && q < |s.box| && s.box[q][h].Full?
    case Step => CanStep(s, h) && HandlerInRange(s, h)
  }

  predicate HandlerInRange(s: State, h: nat)
    requires Shape(s) && h < |s.harts|
  {
    match s.harts[h].handler
    case Running(Ref(slot, _, words), seen) => slot < |s.count| && |seen| <= |words| <= MESSAGE_WORDS
    case _ => true
  }

  function SetHart(s: State, h: nat, hart: Hart): State
    requires h < |s.harts|
  {
    s.(harts := s.harts[h := hart])
  }

  function Goto(s: State, h: nat, pc: Pc): State
    requires h < |s.harts|
  {
    SetHart(s, h, s.harts[h].(pc := pc))
  }

  /** atomic_add(d, &pool[slot].shared_cnt). */
  function Add(s: State, slot: nat, d: int): State
    requires slot < |s.count|
  {
    s.(count := s.count[slot := s.count[slot] + d])
  }

  /** Raises the count for one more recipient, if the message is counted. */
  function AddFor(s: State, msg: Msg): State
    requires msg.Ref? ==> msg.slot < |s.count|
  {
    if msg.Ref? then Add(s, msg.slot, 1) else s
  }

  /** Line 118: the next slot, with a look at the mail after the last one. */
  function Onward(s: State, req: Request, i: nat): Pc {
    if i + 1 < |s.count| then Scan(req, i + 1) else Poll(req)
  }

  /** do_local_ipi_cmd, lines 94-104, and src/mentry.S:400-419: read the words of
      the message one by one, then give the reference back. */
  function HandlerStep(s: State, h: nat): State
    requires Shape(s) && h < |s.harts| && s.harts[h].handler.Running? && HandlerInRange(s, h)
  {
    var hart := s.harts[h];
    match hart.handler.msg
    case Signal(_) => SetHart(s, h, hart.(handler := NoHandler))
    case Ref(slot, _, words) =>
      var seen := hart.handler.seen;
      if |seen| < |words| then
        SetHart(s, h, hart.(handler := Running(hart.handler.msg, seen + [s.body[slot][|seen|]])))
      else
        SetHart(Add(s, slot, -1), h, hart.(handler := NoHandler))
  }

  function StartSend(msg: Msg, mask: nat): Pc {
    Enter(Send(msg, mask, mask, 0, []))
  }

  function NextTarget(send: Send): Send {
    send.(i := send.i + 1, rest := send.rest / 2)
  }

  /** Lines 30-52 of ipi_send_cmd, one step. */
  function SendStep(s: State, h: nat): State
    requires Shape(s) && h < |s.harts| && s.harts[h].handler.NoHandler? && CanStep(s, h)
    requires var pc := s.harts[h].pc; pc.Enter? || pc.Loop? || pc.Commit? || pc.Put?
  {
    match s.harts[h].pc
    case Enter(send) =>
      if Bit(send.rest, h) then
        SetHart(AddFor(s, send.msg), h,
                Hart(Loop(send.(rest := ClearBit(send.rest, h), sent := send.sent + [h])), Running(send.msg, [])))
      else
        Goto(s, h, Loop(send))
    case Loop(send) =>
      if send.i >= |s.harts| then
        Goto(s, h, if send.msg.Ref? then Release(send.msg.slot) else Idle)
      else
        Goto(s, h, if send.rest % 2 == 1 then Commit(send) else Loop(NextTarget(send)))
    case Commit(send) =>
      if ReceiverBusy(s, h, send.i) then
        Goto(s, h, Loop(NextTarget(send)))
      else
        Goto(AddFor(s, send.msg), h, Put(send))
    case Put(send) =>
      Goto(s.(box := s.box[h := s.box[h][send.i := Full(send.msg)]]), h,
           Loop(NextTarget(send).(sent := send.sent + [send.i])))
  }

  /** Lines 107-126 of ipi_alloc_msg, the stores of the client, and
      ipi_free_msg, one step. */
  function ClientStep(s: State, h: nat): State
    requires Shape(s) && h < |s.harts| && s.harts[h].handler.NoHandler? && CanStep(s, h)
    requires var pc := s.harts[h].pc; !(pc.Enter? || pc.Loop? || pc.Commit? || pc.Put?)
  {
    match s.harts[h].pc
    case Scan(req, i) => Goto(s, h, if s.count[i] == 0 then Claim(req, i) else Onward(s, req, i))
    case Claim(req, i) => Goto(Add(s, i, 1), h, if s.count[i] == 0 then Fill(req, i, 0) else BackOff(req, i))
    case BackOff(req, i) => Goto(Add(s, i, -1), h, Onward(s, req, i))
    case Poll(req) => Goto(s, h, Scan(req, 0))
    case Fill(req, slot, j) =>
      if j < |req.words| && j < MESSAGE_WORDS then
        Goto(s.(body := s.body[slot := s.body[slot][j := req.words[j]]]), h, Fill(req, slot, j + 1))
      else
        Goto(s, h, StartSend(Ref(slot, h, req.words), req.mask))
    case Release(slot) => Goto(Add(s, slot, -1), h, Idle)
  }

  /** After a look at the mail at line 121 the scan resumes at slot 0. */
  function AfterMail(pc: Pc): Pc {
    if pc.Poll? then Scan(pc.req, 0) else pc
  }

  function Next(s: State, h: nat, a: Action): (t: State)
    requires Shape(s) && Enabled(s, h, a)
    ensures Shape(t) && |t.harts| == |s.harts| && |t.count| == |s.count|
  {
    match a
    case Call(req) => Goto(s, h, Scan(req, h % |s.count|))
    case CallSignal(mask) => Goto(s, h, StartSend(Signal(h), mask))
    case Take(q) =>
      SetHart(s.(box := s.box[q := s.box[q][h := Empty]]), h,
              Hart(AfterMail(s.harts[h].pc), Running(s.box[q][h].msg, [])))
    case Step =>
      if s.harts[h].handler.Running? then HandlerStep(s, h)
      else if s.harts[h].pc.Enter? || s.harts[h].pc.Loop? || s.harts[h].pc.Commit? || s.harts[h].pc.Put? then
        SendStep(s, h)
      else ClientStep(s, h)
  }

  /** A run: which hart acts, and how. */
  type Schedule = seq<(nat, Action)>

  predicate Runs(s: State, run: Schedule)
    requires Shape(s)
    decreases |run|
  {
    run == [] || (Enabled(s, run[0].0, run[0].1) && Runs(Next(s, run[0].0, run[0].1), run[1..]))
  }

  function After(s: State, run: Schedule): (t: State)
    requires Shape(s) && Runs(s, run)
    ensures Shape(t) && |t.harts| == |s.harts| && |t.count| == |s.count|
    decreases |run|
  {
    if run == [] then s else After(Next(s, run[0].0, run[0].1), run[1..])
  }
}
