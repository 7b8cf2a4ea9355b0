/** What every step of the IPI message pool keeps: the reference count of a slot
    is the number of references to it, and a slot in use is never rewritten. */
module IpiSafety {
  import opened Bits
  import opened IpiPool

  // ----- counting references

  ghost function One(b: bool): nat {
    if b then 1 else 0
  }

  ghost predicate Names(m: Msg, p: nat) {
    m.Ref? && m.slot == p
  }

  /** The slot that a hart has allocated and not yet given back. */
  ghost predicate Owns(pc: Pc, p: nat) {
    match pc
    case Fill(_, slot, _) => slot == p
    case Release(slot) => slot == p
    case Enter(send) => Names(send.msg, p)
    case Loop(send) => Names(send.msg, p)
    case Commit(send) => Names(send.msg, p)
    case Put(send) => Names(send.msg, p)
    case _ => false
  }

  /** Owner, back-out of a lost allocation, count raised for the next put, and
      running handler. */
  ghost function HartRefs(h: Hart, p: nat): nat {
    One(Owns(h.pc, p)) + One(h.pc.BackOff? && h.pc.i == p) + One(h.pc.Put? && Names(h.pc.send.msg, p))
    + One(h.handler.Running? && Names(h.handler.msg, p))
  }

  ghost function Held(harts: seq<Hart>, p: nat): nat {
    if harts == [] then 0 else HartRefs(harts[0], p) + Held(harts[1..], p)
  }

  ghost function InRow(row: seq<Buffer>, p: nat): nat {
    if row == [] then 0 else One(row[0].Full? && Names(row[0].msg, p)) + InRow(row[1..], p)
  }

  ghost function InMail(box: seq<seq<Buffer>>, p: nat): nat {
    if box == [] then 0 else InRow(box[0], p) + InMail(box[1..], p)
  }

  ghost function References(s: State, p: nat): nat {
    Held(s.harts, p) + InMail(s.box, p)
  }

  lemma {:induction false} HeldUpdate(harts: seq<Hart>, h: nat, x: Hart, p: nat)
    requires h < |harts|
    ensures Held(harts[h := x], p) == Held(harts, p) - HartRefs(harts[h], p) + HartRefs(x, p)
  {
    if h == 0 {
      assert harts[h := x][1..] == harts[1..];
    } else {
      assert harts[h := x][1..] == harts[1..][h - 1 := x];
      HeldUpdate(harts[1..], h - 1, x, p);
    }
  }

  lemma {:induction false} RowUpdate(row: seq<Buffer>, r: nat, b: Buffer, p: nat)
    requires r < |row|
    ensures InRow(row[r := b], p)
         == InRow(row, p) - One(row[r].Full? && Names(row[r].msg, p)) + One(b.Full? && Names(b.msg, p))
  {
    if r == 0 {
      assert row[r := b][1..] == row[1..];
    } else {
      assert row[r := b][1..] == row[1..][r - 1 := b];
      RowUpdate(row[1..], r - 1, b, p);
    }
  }

  lemma {:induction false} MailUpdate(box: seq<seq<Buffer>>, q: nat, row: seq<Buffer>, p: nat)
    requires q < |box|
    ensures InMail(box[q := row], p) == InMail(box, p) - InRow(box[q], p) + InRow(row, p)
  {
    if q == 0 {
      assert box[q := row][1..] == box[1..];
    } else {
      assert box[q := row][1..] == box[1..][q - 1 := row];
      MailUpdate(box[1..], q - 1, row, p);
    }
  }

  lemma {:induction false} HeldCovers(harts: seq<Hart>, h: nat, p: nat)
    requires h < |harts|
    ensures HartRefs(harts[h], p) <= Held(harts, p)
  {
    if h > 0 {
      HeldCovers(harts[1..], h - 1, p);
    }
  }

  lemma {:induction false} RowCovers(row: seq<Buffer>, r: nat, p: nat)
    requires r < |row|
    ensures One(row[r].Full? && Names(row[r].msg, p)) <= InRow(row, p)
  {
    if r > 0 {
      RowCovers(row[1..], r - 1, p);
    }
  }

  lemma {:induction false} MailCovers(box: seq<seq<Buffer>>, q: nat, r: nat, p: nat)
    requires q < |box| && r < |box[q]|
    ensures One(box[q][r].Full? && Names(box[q][r].msg, p)) <= InMail(box, p)
  {
    if q == 0 {
      RowCovers(box[0], r, p);
    } else {
      MailCovers(box[1..], q - 1, r, p);
    }
  }

  // ----- the invariant

  ghost predicate Conserved(s: State) {
    forall p :: 0 <= p < |s.count| ==> s.count[p] == References(s, p)
  }

  ghost predicate SingleOwner(s: State) {
    forall h, k, p :: 0 <= h < k < |s.harts| && 0 <= p < |s.count| ==>
      !(Owns(s.harts[h].pc, p) && Owns(s.harts[k].pc, p))
  }

  /** The slot holds what the message was sent with. */
  ghost predicate Carries(s: State, m: Msg) {
    m.Ref? ==> m.slot < |s.body| && 0 < |m.words| <= MESSAGE_WORDS && m.words <= s.body[m.slot]
  }

  ghost predicate HandlerGood(s: State, handler: Handler) {
    handler.Running? ==>
      && Carries(s, handler.msg)
      && (if handler.msg.Ref? then handler.seen <= handler.msg.words else handler.seen == [])
  }

  ghost predicate MailGood(s: State)
    requires Shape(s)
  {
    forall q, r :: 0 <= q < |s.box| && 0 <= r < |s.box| && s.box[q][r].Full? ==>
      Carries(s, s.box[q][r].msg) && s.box[q][r].msg.sender == q
  }

  /** While a slot is being filled no message names it. */
  ghost predicate NoMessage(s: State, p: nat)
    requires Shape(s)
  {
    && (forall k :: 0 <= k < |s.harts| && s.harts[k].handler.Running? ==> !Names(s.harts[k].handler.msg, p))
    && (forall q, r :: 0 <= q < |s.box| && 0 <= r < |s.box| && s.box[q][r].Full? ==> !Names(s.box[q][r].msg, p))
  }

  ghost predicate FillGood(s: State, h: nat)
    requires Shape(s) && h < |s.harts|
  {
    match s.harts[h].pc
    case Fill(req, slot, j) =>
      && slot < |s.count| && GoodRequest(req) && j <= |req.words|
      && req.words[..j] == s.body[slot][..j]
      && NoMessage(s, slot)
    case _ => true
  }

  ghost predicate ScanGood(s: State, pc: Pc) {
    match pc
    case Scan(req, i) => i < |s.count| && GoodRequest(req)
    case Claim(req, i) => i < |s.count| && GoodRequest(req)
    case BackOff(req, i) => i < |s.count| && GoodRequest(req)
    case Poll(req) => GoodRequest(req)
    case Release(slot) => slot < |s.count|
    case _ => true
  }

  /** r is among the targets that the loop has dealt with. */
  ghost predicate Served(mask: nat, self: nat, i: nat, r: nat) {
    Bit(mask, r) && (r == self || r < i)
  }

  ghost predicate NoRepeats(xs: seq<nat>) {
    forall a, b :: 0 <= a < b < |xs| ==> xs[a] != xs[b]
  }

  ghost predicate SendGood(s: State, h: nat, send: Send)
    requires Shape(s) && h < |s.harts|
  {
    && Carries(s, send.msg)
    && send.msg.sender == h
    && send.i <= |s.harts|
    && NoRepeats(send.sent)
    && (forall r: nat :: r in send.sent <==> Served(send.mask, h, send.i, r))
    && send.rest == ShiftRight(ClearBit(send.mask, h), send.i)
  }

  ghost predicate SenderGood(s: State, h: nat)
    requires Shape(s) && h < |s.harts|
  {
    match s.harts[h].pc
    case Enter(send) =>
      Carries(s, send.msg) && send.msg.sender == h
      && send.rest == send.mask && send.i == 0 && send.sent == []
    case Loop(send) => SendGood(s, h, send)
    case Commit(send) => SendGood(s, h, send) && AtFreeTarget(s, h, send)
    case Put(send) => SendGood(s, h, send) && AtFreeTarget(s, h, send)
    case _ => true
  }

  /** The sender stands at a target whose mailbox it found empty; only the
      sender itself could have filled it since. */
  ghost predicate AtFreeTarget(s: State, h: nat, send: Send)
    requires Shape(s) && h < |s.harts|
  {
    send.i < |s.harts| && send.rest % 2 == 1 && s.box[h][send.i].Empty?
  }

  ghost predicate HartGood(s: State, h: nat)
    requires Shape(s) && h < |s.harts|
  {
    ScanGood(s, s.harts[h].pc) && FillGood(s, h) && SenderGood(s, h) && HandlerGood(s, s.harts[h].handler)
  }

  ghost predicate HartsGood(s: State)
    requires Shape(s)
  {
    forall h :: 0 <= h < |s.harts| ==> HartGood(s, h)
  }

  ghost predicate Inv(s: State) {
    Shape(s) && Conserved(s) && SingleOwner(s) && MailGood(s) && HartsGood(s)
  }

  // ----- consequences of a zero count

  lemma ZeroMeansUnused(s: State, p: nat)
    requires Inv(s) && p < |s.count| && s.count[p] == 0
    ensures NoMessage(s, p)
    ensures forall h :: 0 <= h < |s.harts| ==> !Owns(s.harts[h].pc, p)
  {
    forall h: nat | h < |s.harts| ensures HartRefs(s.harts[h], p) == 0 {
      HeldCovers(s.harts, h, p);
    }
    forall q: nat, r: nat | q < |s.box| && r < |s.box| ensures !(s.box[q][r].Full? && Names(s.box[q][r].msg, p)) {
      MailCovers(s.box, q, r, p);
    }
  }

  /** A message in flight or in a handler keeps the count up. */
  lemma UsedMeansPositive(s: State, p: nat)
    requires Inv(s) && p < |s.count| && !NoMessage(s, p)
    ensures s.count[p] > 0
  {
    if s.count[p] == 0 {
      ZeroMeansUnused(s, p);
    } else {
      assert s.count[p] == References(s, p);
    }
  }

  // ----- conservation, step by step

  lemma ConservedAfterHart(s: State, h: nat, x: Hart, t: State)
    requires Inv(s) && h < |s.harts| && t.harts == s.harts[h := x] && t.box == s.box && |t.count| == |s.count|
    requires forall p :: 0 <= p < |s.count| ==>
               t.count[p] == s.count[p] - HartRefs(s.harts[h], p) + HartRefs(x, p)
    ensures Conserved(t)
  {
    forall p: nat | p < |t.count| ensures t.count[p] == References(t, p) {
      HeldUpdate(s.harts, h, x, p);
    }
  }

  lemma ConservedAfterMail(s: State, h: nat, x: Hart, q: nat, r: nat, b: Buffer, t: State)
    requires Inv(s) && h < |s.harts| && q < |s.box| && r < |s.box|
    requires t.harts == s.harts[h := x] && t.box == s.box[q := s.box[q][r := b]] && t.count == s.count
    requires forall p :: 0 <= p < |s.count| ==>
               One(s.box[q][r].Full? && Names(s.box[q][r].msg, p)) + HartRefs(s.harts[h], p)
               == One(b.Full? && Names(b.msg, p)) + HartRefs(x, p)
    ensures Conserved(t)
  {
    forall p: nat | p < |t.count| ensures t.count[p] == References(t, p) {
      HeldUpdate(s.harts, h, x, p);
      RowUpdate(s.box[q], r, b, p);
      MailUpdate(s.box, q, s.box[q][r := b], p);
    }
  }

  // The kinds of step, each with its conservation.

  lemma HandlerConserves(s: State, h: nat)
    requires Inv(s) && h < |s.harts| && s.harts[h].handler.Running? && HandlerInRange(s, h)
    ensures Conserved(HandlerStep(s, h))
  {
    var t := HandlerStep(s, h);
    ConservedAfterHart(s, h, t.harts[h], t);
  }

  ghost predicate SendTurn(s: State, h: nat) {
    && Shape(s) && h < |s.harts| && s.harts[h].handler.NoHandler? && CanStep(s, h)
    && (s.harts[h].pc.Enter? || s.harts[h].pc.Loop? || s.harts[h].pc.Commit? || s.harts[h].pc.Put?)
  }

  ghost predicate ClientTurn(s: State, h: nat) {
    && Shape(s) && h < |s.harts| && s.harts[h].handler.NoHandler? && CanStep(s, h)
    && !(s.harts[h].pc.Enter? || s.harts[h].pc.Loop? || s.harts[h].pc.Commit? || s.harts[h].pc.Put?)
  }

  lemma SendConserves(s: State, h: nat)
    requires Inv(s) && SendTurn(s, h)
    ensures Conserved(SendStep(s, h))
  {
    var t := SendStep(s, h);
    assert SenderGood(s, h) by { assert HartGood(s, h); }
    if s.harts[h].pc.Put? {
      var send := s.harts[h].pc.send;
      ConservedAfterMail(s, h, t.harts[h], h, send.i, Full(send.msg), t);
    } else {
      ConservedAfterHart(s, h, t.harts[h], t);
    }
  }

  lemma ClientConserves(s: State, h: nat)
    requires Inv(s) && ClientTurn(s, h)
    ensures Conserved(ClientStep(s, h))
  {
    var t := ClientStep(s, h);
    ConservedAfterHart(s, h, t.harts[h], t);
  }

  lemma TakeConserves(s: State, h: nat, q: nat)
    requires Inv(s) && Enabled(s, h, Take(q))
    ensures Conserved(Next(s, h, Take(q)))
  {
    var t := Next(s, h, Take(q));
    ConservedAfterMail(s, h, t.harts[h], q, h, Empty, t);
  }

  lemma CallConserves(s: State, h: nat, a: Action)
    requires Inv(s) && Enabled(s, h, a) && (a.Call? || a.CallSignal?)
    ensures Conserved(Next(s, h, a))
  {
    var t := Next(s, h, a);
    ConservedAfterHart(s, h, t.harts[h], t);
  }

  // ----- ownership

  lemma OwnerFrame(s: State, h: nat, x: Hart, t: State)
    requires Inv(s) && h < |s.harts| && t.harts == s.harts[h := x] && |t.count| == |s.count|
    requires forall p :: 0 <= p < |s.count| && Owns(x.pc, p) ==>
               Owns(s.harts[h].pc, p) || (forall k :: 0 <= k < |s.harts| ==> !Owns(s.harts[k].pc, p))
    ensures SingleOwner(t)
  {
  }

  lemma ClientKeepsOwner(s: State, h: nat)
    requires Inv(s) && ClientTurn(s, h)
    ensures SingleOwner(ClientStep(s, h))
  {
    var t := ClientStep(s, h);
    if s.harts[h].pc.Claim? && s.count[s.harts[h].pc.i] == 0 {
      ZeroMeansUnused(s, s.harts[h].pc.i);
    }
    OwnerFrame(s, h, t.harts[h], t);
  }

  lemma SendKeepsOwner(s: State, h: nat)
    requires Inv(s) && SendTurn(s, h)
    ensures SingleOwner(SendStep(s, h))
  {
    var t := SendStep(s, h);
    OwnerFrame(s, h, t.harts[h], t);
  }

  lemma OthersKeepOwner(s: State, h: nat, a: Action)
    requires Inv(s) && Enabled(s, h, a) && (a.Step? ==> s.harts[h].handler.Running?)
    ensures SingleOwner(Next(s, h, a))
  {
    var t := Next(s, h, a);
    OwnerFrame(s, h, t.harts[h], t);
  }

  // ----- messages keep what they were sent with

  /** Only the owner stores in a slot, and only while no message names it. */
  ghost predicate OwnerStores(s: State, h: nat, t: State)
    requires Shape(s) && Shape(t) && h < |s.harts|
  {
    && |t.body| == |s.body|
    && forall p :: 0 <= p < |s.body| && t.body[p] != s.body[p] ==> NoMessage(s, p) && Owns(s.harts[h].pc, p)
  }

  /** No step of hart h makes a message that names a slot of another owner. */
  ghost predicate FreshMessagesOwned(s: State, h: nat, t: State)
    requires Shape(s) && Shape(t) && h < |s.harts|
  {
    forall p :: 0 <= p < |s.count| && NoMessage(s, p) && !Owns(s.harts[h].pc, p) ==> NoMessage(t, p)
  }

  /** No step of hart h fills a mailbox of another sender. */
  ghost predicate OthersBoxes(s: State, h: nat, t: State)
    requires Shape(s) && Shape(t)
  {
    && |t.box| == |s.box|
    && forall q, r :: 0 <= q < |s.box| && 0 <= r < |s.box| && q != h && s.box[q][r].Empty? ==> t.box[q][r].Empty?
  }

  ghost predicate Framed(s: State, h: nat, t: State) {
    && Shape(s) && Shape(t) && h < |s.harts| == |t.harts| && |t.count| == |s.count|
    && t.harts == s.harts[h := t.harts[h]]
    && OwnerStores(s, h, t) && FreshMessagesOwned(s, h, t) && OthersBoxes(s, h, t)
  }

  lemma OthersStayGood(s: State, h: nat, t: State, k: nat)
    requires Inv(s) && Framed(s, h, t) && k < |s.harts| && k != h
    ensures HartGood(t, k)
  {
    assert HartGood(s, k);
    assert t.harts[k] == s.harts[k];
    forall p: nat | p < |s.body| && Owns(s.harts[k].pc, p) ensures !Owns(s.harts[h].pc, p) {
    }
    forall p: nat | p < |s.body| && s.harts[k].handler.Running? && Names(s.harts[k].handler.msg, p)
      ensures t.body[p] == s.body[p]
    {
      assert !NoMessage(s, p);
    }
  }

  lemma GoodAfter(s: State, h: nat, t: State)
    requires Inv(s) && Framed(s, h, t) && HartGood(t, h)
    ensures HartsGood(t)
  {
    forall k: nat | k < |t.harts| ensures HartGood(t, k) {
      if k != h {
        OthersStayGood(s, h, t, k);
      }
    }
  }

  lemma MailAfter(s: State, h: nat, t: State)
    requires Inv(s) && Framed(s, h, t)
    requires forall q, r :: 0 <= q < |s.box| && 0 <= r < |s.box| && t.box[q][r] != s.box[q][r] ==>
               t.box[q][r].Empty?
               || (q == h && Carries(t, t.box[q][r].msg) && t.box[q][r].msg.sender == h)
    ensures MailGood(t)
  {
    forall q, r | 0 <= q < |t.box| && 0 <= r < |t.box| && t.box[q][r].Full?
      ensures Carries(t, t.box[q][r].msg) && t.box[q][r].msg.sender == q
    {
      if t.box[q][r] == s.box[q][r] && t.box[q][r].msg.Ref? {
        var p := t.box[q][r].msg.slot;
        assert Names(s.box[q][r].msg, p);
        assert !NoMessage(s, p);
      }
    }
  }

  lemma HandlerFramed(s: State, h: nat)
    requires Inv(s) && h < |s.harts| && s.harts[h].handler.Running? && HandlerInRange(s, h)
    ensures Framed(s, h, HandlerStep(s, h))
  {
  }

  lemma HandlerStaysGood(s: State, h: nat, t: State)
    requires Inv(s) && h < |s.harts| && s.harts[h].handler.Running? && HandlerInRange(s, h)
    requires t == HandlerStep(s, h)
    ensures HandlerGood(t, t.harts[h].handler)
  {
    assert HartGood(s, h);
  }

  lemma HandlerSenderGood(s: State, h: nat, t: State)
    requires Inv(s) && h < |s.harts| && s.harts[h].handler.Running? && HandlerInRange(s, h)
    requires t == HandlerStep(s, h)
    ensures SenderGood(t, h)
  {
    assert HartGood(s, h);
    assert t.body == s.body && t.box == s.box && t.harts[h].pc == s.harts[h].pc;
  }

  lemma HandlerFillGood(s: State, h: nat, t: State)
    requires Inv(s) && h < |s.harts| && s.harts[h].handler.Running? && HandlerInRange(s, h)
    requires t == HandlerStep(s, h)
    ensures ScanGood(t, t.harts[h].pc) && FillGood(t, h)
  {
    assert HartGood(s, h);
    if t.harts[h].pc.Fill? {
      var p := t.harts[h].pc.slot;
      forall k | 0 <= k < |t.harts| && t.harts[k].handler.Running? ensures !Names(t.harts[k].handler.msg, p) {
        assert t.harts[k].handler.msg == s.harts[k].handler.msg;
      }
    }
  }

  lemma HandlerHartGood(s: State, h: nat)
    requires Inv(s) && h < |s.harts| && s.harts[h].handler.Running? && HandlerInRange(s, h)
    ensures HartGood(HandlerStep(s, h), h)
  {
    var t := HandlerStep(s, h);
    HandlerStaysGood(s, h, t);
    HandlerSenderGood(s, h, t);
    HandlerFillGood(s, h, t);
  }

  lemma HandlerKeepsGood(s: State, h: nat)
    requires Inv(s) && h < |s.harts| && s.harts[h].handler.Running? && HandlerInRange(s, h)
    ensures MailGood(HandlerStep(s, h)) && HartsGood(HandlerStep(s, h))
  {
    var t := HandlerStep(s, h);
    HandlerFramed(s, h);
    HandlerHartGood(s, h);
    GoodAfter(s, h, t);
    MailAfter(s, h, t);
  }

  lemma CallKeepsGood(s: State, h: nat, a: Action)
    requires Inv(s) && Enabled(s, h, a) && (a.Call? || a.CallSignal?)
    ensures MailGood(Next(s, h, a)) && HartsGood(Next(s, h, a))
  {
    var t := Next(s, h, a);
    assert Framed(s, h, t);
    assert HartGood(s, h);
    assert HartGood(t, h);
    GoodAfter(s, h, t);
    MailAfter(s, h, t);
  }

  lemma TakeKeepsGood(s: State, h: nat, q: nat)
    requires Inv(s) && Enabled(s, h, Take(q))
    ensures MailGood(Next(s, h, Take(q))) && HartsGood(Next(s, h, Take(q)))
  {
    var t := Next(s, h, Take(q));
    assert HartGood(s, h);
    assert Framed(s, h, t);
    assert HartGood(t, h);
    GoodAfter(s, h, t);
    MailAfter(s, h, t);
  }

  lemma ClientFramed(s: State, h: nat)
    requires Inv(s) && ClientTurn(s, h)
    ensures Framed(s, h, ClientStep(s, h))
  {
    assert HartGood(s, h);
  }

  lemma ClientHartGood(s: State, h: nat)
    requires Inv(s) && ClientTurn(s, h)
    ensures HartGood(ClientStep(s, h), h)
  {
    assert HartGood(s, h);
    if s.harts[h].pc.Claim? && s.count[s.harts[h].pc.i] == 0 {
      ZeroMeansUnused(s, s.harts[h].pc.i);
    }
  }

  lemma ClientKeepsGood(s: State, h: nat)
    requires Inv(s) && ClientTurn(s, h)
    ensures MailGood(ClientStep(s, h)) && HartsGood(ClientStep(s, h))
  {
    var t := ClientStep(s, h);
    ClientFramed(s, h);
    ClientHartGood(s, h);
    GoodAfter(s, h, t);
    MailAfter(s, h, t);
  }

  // ----- the multicast loop

  /** The low bit of what is left of the mask is the bit of hart i, and the
      sender's own bit is gone. */
  lemma TargetBit(mask: nat, self: nat, i: nat)
    ensures ShiftRight(ClearBit(mask, self), i) % 2 == 1 <==> i != self && Bit(mask, i)
  {
    ShiftedBit(ClearBit(mask, self), i, 0);
    ClearedBit(mask, self, i);
  }

  lemma EnterGood(s: State, h: nat)
    requires Inv(s) && SendTurn(s, h) && s.harts[h].pc.Enter?
    ensures HartGood(SendStep(s, h), h)
  {
    assert HartGood(s, h);
    var send := s.harts[h].pc.send;
    if !Bit(send.mask, h) {
      ClearUnsetBit(send.mask, h);
    }
  }

  lemma LoopGood(s: State, h: nat)
    requires Inv(s) && SendTurn(s, h) && (s.harts[h].pc.Loop? || s.harts[h].pc.Commit?)
    ensures HartGood(SendStep(s, h), h)
  {
    assert HartGood(s, h);
    var send := s.harts[h].pc.send;
    TargetBit(send.mask, h, send.i);
  }

  lemma PutGood(s: State, h: nat)
    requires Inv(s) && SendTurn(s, h) && s.harts[h].pc.Put?
    ensures HartGood(SendStep(s, h), h)
  {
    assert HartGood(s, h);
    var send := s.harts[h].pc.send;
    TargetBit(send.mask, h, send.i);
    var now := NextTarget(send).(sent := send.sent + [send.i]);
    assert send.i !in send.sent;
    assert NoRepeats(now.sent);
    forall r: nat ensures r in now.sent <==> Served(send.mask, h, now.i, r) {
      assert r in now.sent <==> r in send.sent || r == send.i;
    }
    assert SendGood(SendStep(s, h), h, now);
  }

  lemma SendFramed(s: State, h: nat)
    requires Inv(s) && SendTurn(s, h)
    ensures Framed(s, h, SendStep(s, h))
  {
    assert HartGood(s, h);
  }

  lemma SendKeepsGood(s: State, h: nat)
    requires Inv(s) && SendTurn(s, h)
    ensures MailGood(SendStep(s, h)) && HartsGood(SendStep(s, h))
  {
    var t := SendStep(s, h);
    SendFramed(s, h);
    assert SenderGood(s, h) by { assert HartGood(s, h); }
    if s.harts[h].pc.Enter? {
      EnterGood(s, h);
    } else if s.harts[h].pc.Put? {
      PutGood(s, h);
    } else {
      LoopGood(s, h);
    }
    GoodAfter(s, h, t);
    MailAfter(s, h, t);
  }

  // ----- every run

  lemma StepKeepsInv(s: State, h: nat, a: Action)
    requires Inv(s) && Enabled(s, h, a)
    ensures Inv(Next(s, h, a))
  {
    if a.Take? {
      TakeConserves(s, h, a.sender);
      TakeKeepsGood(s, h, a.sender);
      OthersKeepOwner(s, h, a);
    } else if !a.Step? {
      CallConserves(s, h, a);
      CallKeepsGood(s, h, a);
      OthersKeepOwner(s, h, a);
    } else if s.harts[h].handler.Running? {
      HandlerConserves(s, h);
      HandlerKeepsGood(s, h);
      OthersKeepOwner(s, h, a);
    } else if SendTurn(s, h) {
      SendConserves(s, h);
      SendKeepsGood(s, h);
      SendKeepsOwner(s, h);
    } else {
      ClientConserves(s, h);
      ClientKeepsGood(s, h);
      ClientKeepsOwner(s, h);
    }
  }

  lemma {:induction false} RunKeepsInv(s: State, run: Schedule)
    requires Inv(s) && Runs(s, run)
    ensures Inv(After(s, run))
    decreases |run|
  {
    if run != [] {
      StepKeepsInv(s, run[0].0, run[0].1);
      RunKeepsInv(Next(s, run[0].0, run[0].1), run[1..]);
    }
  }
}
