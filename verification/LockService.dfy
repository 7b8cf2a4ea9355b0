/** What the lock of src/spinlock.c as written does for its callers: when each
    wait lets a hart through, that a busy hart never leaves the others stuck, that
    an unlock leaves the lock free, and what the wait of line 134 is good for. */
module LockService {
  import opened FlagWord
  import opened LockAsWritten

  // ----- the bytes follow the places

  predicate Outside(pc: Pc) {
    pc.Store119? || pc.Wait121?
  }

  /** From the store of line 123 to that of line 132: ASP_ST3. */
  predicate Arriving(pc: Pc) {
    pc.Test124? || pc.Store132?
  }

  /** From the store of line 132 to that of line 147: ASP_ST4. */
  predicate Holding(pc: Pc) {
    pc.Wait134? || Inside(pc)
  }

  /** Past the last wait of the lock call and not yet out. */
  predicate Inside(pc: Pc) {
    pc.Critical? || pc.Wait145? || pc.Store147?
  }

  predicate ByteFits(pc: Pc, b: bv8) {
    match pc
    case Store119 => b == 0 || b == ST0
    case Wait121 | Store123 => b == ST0
    case Test124 | Store132 => b == ST3
    case Wait134 | Critical | Wait145 | Store147 => b == ST4
    case _ => false
  }

  predicate BytesFit(s: State) {
    && Shape(s)
    && (forall i :: 0 <= i < |s.pc| ==> ByteFits(s.pc[i], s.word[i]))
    && (forall i :: |s.pc| <= i < WORD_BYTES ==> s.word[i] == 0)
  }

  lemma StepKeepsBytes(s: State, h: nat)
    requires BytesFit(s) && NoOne(s) && Enabled(s, h)
    ensures BytesFit(Next(s, h)) && NoOne(Next(s, h))
  {
    StepKeepsNoOne(s, h);
  }

  lemma {:induction false} RunKeepsBytes(s: State, schedule: seq<nat>)
    requires BytesFit(s) && NoOne(s) && Runs(s, schedule)
    ensures BytesFit(After(s, schedule)) && NoOne(After(s, schedule))
    decreases |schedule|
  {
    if schedule != [] {
      StepKeepsBytes(s, schedule[0]);
      RunKeepsBytes(Next(s, schedule[0]), schedule[1..]);
    }
  }

  ghost predicate Reachable(n: nat, schedule: seq<nat>, s: State) {
    n <= WORD_BYTES && Runs(Init(n), schedule) && s == After(Init(n), schedule)
  }

  lemma Reached(n: nat, schedule: seq<nat>, s: State)
    requires Reachable(n, schedule, s)
    ensures BytesFit(s) && NoOne(s) && |s.pc| == n
  {
    AnyEqByByte(Init(n).word, Mask(ST1));
    RunKeepsBytes(Init(n), schedule);
  }

  // ----- when each wait ends

  lemma ByteTests(b: bv8)
    requires b in {0, ST0, ST3, ST4}
    ensures b & !(ST0 | ST1 | ST2) == 0 <==> b in {0, ST0}
    ensures b & !(ST0 | ST1) == 0 <==> b in {0, ST0}
    ensures b & !(ST0 | ST1 | ST4) == 0 <==> b != ST3
  {
  }

  lemma DoorTest(w: Word)
    requires forall i :: 0 <= i < WORD_BYTES ==> w[i] in {0, ST0, ST3, ST4}
    ensures DoorOpen(w) <==> forall i :: 0 <= i < WORD_BYTES ==> w[i] in {0, ST0}
  {
    AllInByByte(w, Mask(ST0 | ST1 | ST2));
    forall i: nat | i < WORD_BYTES ensures w[i] & !(ST0 | ST1 | ST2) == 0 <==> w[i] in {0, ST0} {
      ByteTests(w[i]);
    }
  }

  lemma LowerTest(w: Word, p: nat)
    requires forall i :: 0 <= i < WORD_BYTES ==> w[i] in {0, ST0, ST3, ST4}
    ensures LowerDone(w, p) <==> forall i :: 0 <= i < p % 4 ==> w[i] in {0, ST0}
  {
    var mask := Or(Or(Mask(ST0 | ST1), HighMask(p)), SelfMask(p));
    AllInByByte(w, mask);
    forall i: nat | i < WORD_BYTES ensures w[i] & !mask[i] == 0 <==> i >= p % 4 || w[i] in {0, ST0} {
      MaskBytes(p, i);
      ByteTests(w[i]);
    }
  }

  lemma HigherTest(w: Word, p: nat)
    requires forall i :: 0 <= i < WORD_BYTES ==> w[i] in {0, ST0, ST3, ST4}
    ensures HigherDone(w, p) <==> forall i :: p % 4 <= i < WORD_BYTES ==> w[i] != ST3
  {
    var mask := Or(Mask(ST0 | ST1 | ST4), LowMask(p));
    AllInByByte(w, mask);
    forall i: nat | i < WORD_BYTES ensures w[i] & !mask[i] == 0 <==> i < p % 4 || w[i] != ST3 {
      MaskBytes(p, i);
      ByteTests(w[i]);
    }
  }

  lemma FittingBytes(s: State)
    requires BytesFit(s)
    ensures forall i :: 0 <= i < WORD_BYTES ==> s.word[i] in {0, ST0, ST3, ST4}
    ensures forall i :: 0 <= i < |s.pc| ==> (s.word[i] in {0, ST0} <==> !Arriving(s.pc[i]) && !Holding(s.pc[i]))
    ensures forall i :: 0 <= i < |s.pc| ==> (s.word[i] == ST3 <==> Arriving(s.pc[i]))
  {
  }

  lemma WaitsOf(s: State, p: nat)
    requires BytesFit(s) && p < |s.pc|
    ensures s.pc[p].Wait121? ==>
      (Enabled(s, p) <==> forall q :: 0 <= q < |s.pc| ==> !Arriving(s.pc[q]) && !Holding(s.pc[q]))
    ensures s.pc[p].Wait134? ==>
      (Enabled(s, p) <==> forall q :: 0 <= q < |s.pc| && q < p % 4 ==> !Arriving(s.pc[q]) && !Holding(s.pc[q]))
    ensures s.pc[p].Wait145? ==>
      (Enabled(s, p) <==> forall q :: p % 4 <= q < |s.pc| ==> !Arriving(s.pc[q]))
  {
    FittingBytes(s);
    DoorTest(s.word);
    LowerTest(s.word, p);
    HigherTest(s.word, p);
  }

  /** In every reachable state: the wait of line 121 ends exactly when nobody is
      between the store of line 123 and that of line 147; the wait of line 134
      when nobody is there of the harts below p % 4; and the wait of line 145 when
      no hart from p % 4 on is between the stores of lines 123 and 132. */
  lemma WaitsEndExactly(n: nat, schedule: seq<nat>, s: State, p: nat)
    requires Reachable(n, schedule, s) && p < n
    ensures |s.pc| == n
    ensures s.pc[p].Wait121? ==>
      (Enabled(s, p) <==> forall q :: 0 <= q < n ==> !Arriving(s.pc[q]) && !Holding(s.pc[q]))
    ensures s.pc[p].Wait134? ==>
      (Enabled(s, p) <==> forall q :: 0 <= q < n && q < p % 4 ==> !Arriving(s.pc[q]) && !Holding(s.pc[q]))
    ensures s.pc[p].Wait145? ==>
      (Enabled(s, p) <==> forall q :: p % 4 <= q < n ==> !Arriving(s.pc[q]))
  {
    Reached(n, schedule, s);
    WaitsOf(s, p);
  }

  // ----- no deadlock

  /** The lowest hart at the wait of line 134, if there is one. */
  lemma {:induction false} LowestWaiter(s: State, k: nat) returns (p: nat)
    requires k < |s.pc| && s.pc[k].Wait134?
    ensures p <= k && s.pc[p].Wait134? && forall q :: 0 <= q < p ==> !s.pc[q].Wait134?
  {
    if q: nat :| q < k && s.pc[q].Wait134? {
      p := LowestWaiter(s, q);
    } else {
      p := k;
    }
  }

  lemma WaiterGoesOn(s: State, k: nat) returns (h: nat)
    requires BytesFit(s) && k < |s.pc| && !s.pc[k].Store119?
    requires forall q :: 0 <= q < |s.pc| ==> Outside(s.pc[q]) || s.pc[q].Wait134?
    ensures h < |s.pc| && !s.pc[h].Store119? && Enabled(s, h)
  {
    if q: nat :| q < |s.pc| && s.pc[q].Wait134? {
      h := LowestWaiter(s, q);
    } else {
      h := k;
    }
    WaitsOf(s, h);
  }

  lemma SomeoneGoesOn(s: State, k: nat) returns (h: nat)
    requires BytesFit(s) && NoOne(s) && k < |s.pc| && !s.pc[k].Store119?
    ensures h < |s.pc| && !s.pc[h].Store119? && Enabled(s, h)
  {
    if q: nat :| q < |s.pc| && !Outside(s.pc[q]) && !s.pc[q].Wait134? && !s.pc[q].Wait145? {
      h := q;
    } else if q: nat :| q < |s.pc| && s.pc[q].Wait145? {
      WaitsOf(s, q);
      h := q;
    } else {
      h := WaiterGoesOn(s, k);
    }
  }

  /** As written, with any number of harts: while some hart is in a lock or unlock
      call or inside, one of these harts has an enabled step. */
  lemma DeadlockFreedom(n: nat, schedule: seq<nat>, s: State, k: nat) returns (h: nat)
    requires Reachable(n, schedule, s) && k < n && |s.pc| == n && !s.pc[k].Store119?
    ensures h < n && !s.pc[h].Store119? && Enabled(s, h)
  {
    Reached(n, schedule, s);
    h := SomeoneGoesOn(s, k);
  }

  /** Steps to the end of the unlock. */
  function Work(pc: Pc): nat {
    match pc
    case Store119 => 0
    case Store147 => 1
    case Wait145 => 2
    case Critical => 3
    case Wait134 => 4
    case Store132 => 5
    case Wait129 => 6
    case Store127 => 7
    case Test124 => 8
    case Store123 => 9
    case Wait121 => 10
  }

  function TotalWork(pc: seq<Pc>): nat {
    if pc == [] then 0 else Work(pc[0]) + TotalWork(pc[1..])
  }

  lemma {:induction false} WorkUpdate(pc: seq<Pc>, h: nat, x: Pc)
    requires h < |pc|
    ensures TotalWork(pc[h := x]) == TotalWork(pc) - Work(pc[h]) + Work(x)
  {
    if h == 0 {
      assert pc[h := x][1..] == pc[1..];
    } else {
      assert pc[h := x][1..] == pc[1..][h - 1 := x];
      WorkUpdate(pc[1..], h - 1, x);
    }
  }

  /** Nobody starts a lock call. */
  predicate NoNewcomers(s: State, schedule: seq<nat>)
    requires Runs(s, schedule)
    decreases |schedule|
  {
    schedule != [] ==> !s.pc[schedule[0]].Store119? && NoNewcomers(Next(s, schedule[0]), schedule[1..])
  }

  predicate AllOut(s: State) {
    forall i :: 0 <= i < |s.pc| ==> s.pc[i].Store119?
  }

  lemma {:induction false} OthersFinish(s: State) returns (rest: seq<nat>, t: State)
    requires BytesFit(s) && NoOne(s)
    ensures Reaches(s, rest, t) && NoNewcomers(s, rest) && AllOut(t) && |rest| <= TotalWork(s.pc)
    decreases TotalWork(s.pc)
  {
    if AllOut(s) {
      rest, t := [], s;
    } else {
      var k: nat :| k < |s.pc| && !s.pc[k].Store119?;
      var h := SomeoneGoesOn(s, k);
      StepKeepsBytes(s, h);
      WorkUpdate(s.pc, h, Next(s, h).pc[h]);
      var more;
      more, t := OthersFinish(Next(s, h));
      OneMore(s, h, more, t);
      rest := [h] + more;
      assert rest[1..] == more;
    }
  }

  /** Every step of a hart that is not a newcomer uses up some of the work left,
      so all of them together are through after a bounded number of steps. */
  lemma {:induction false} BoundedService(s: State, schedule: seq<nat>)
    requires BytesFit(s) && NoOne(s) && Runs(s, schedule) && NoNewcomers(s, schedule)
    ensures |schedule| + TotalWork(After(s, schedule).pc) <= TotalWork(s.pc)
    decreases |schedule|
  {
    if schedule != [] {
      var h := schedule[0];
      StepKeepsBytes(s, h);
      WorkUpdate(s.pc, h, Next(s, h).pc[h]);
      BoundedService(Next(s, h), schedule[1..]);
    }
  }

  /** From every reachable state, without any new lock call: no run is longer than
      the work left, and some run ends with every hart out. */
  lemma EveryoneFinishes(n: nat, schedule: seq<nat>, s: State) returns (rest: seq<nat>, t: State)
    requires Reachable(n, schedule, s)
    ensures forall more :: Runs(s, more) && NoNewcomers(s, more) ==> |more| <= TotalWork(s.pc)
    ensures Reaches(s, rest, t) && NoNewcomers(s, rest) && |t.pc| == n && AllOut(t)
  {
    Reached(n, schedule, s);
    forall more | Runs(s, more) && NoNewcomers(s, more) ensures |more| <= TotalWork(s.pc) {
      BoundedService(s, more);
    }
    rest, t := OthersFinish(s);
  }

  // ----- an unlock leaves the lock free

  /** Hart h locks, alone. */
  lemma LocksAlone(s: State, h: nat) returns (t: State)
    requires BytesFit(s) && NoOne(s) && AllOut(s) && h < |s.pc|
    ensures Reaches(s, [h, h, h, h, h, h], t) && t == State(s.word[h := ST4], s.pc[h := Critical])
  {
    var a := Next(s, h);
    StepKeepsBytes(s, h);
    WaitsOf(a, h);
    var b := Next(a, h);
    StepKeepsBytes(a, h);
    t := EntersFromTheDoorway(b, h);
    OneMore(a, h, [h, h, h, h], t);
    OneMore(s, h, [h, h, h, h, h], t);
  }

  /** And unlocks. */
  lemma UnlocksAlone(s: State, h: nat) returns (t: State)
    requires BytesFit(s) && NoOne(s) && h < |s.pc| && s.pc[h] == Critical
    requires forall q :: 0 <= q < |s.pc| && q != h ==> s.pc[q].Store119?
    ensures Reaches(s, [h, h, h], t) && t == State(s.word[h := ST0], s.pc[h := Store119])
  {
    var a := Next(s, h);
    StepKeepsBytes(s, h);
    WaitsOf(a, h);
    var b := Next(a, h);
    t := Next(b, h);
    OneMore(b, h, [], t);
    OneMore(a, h, [h], t);
    OneMore(s, h, [h, h], t);
  }

  /** Hart h locks and unlocks by its own steps alone. */
  ghost predicate Passes(s: State, h: nat, t: State) {
    exists inside: State ::
      && Reaches(s, [h, h, h, h, h, h], inside) && h < |inside.pc| && inside.pc[h].Critical?
      && Reaches(inside, [h, h, h], t)
  }

  /** The harts lock and unlock in this order, each by its own steps alone. */
  ghost predicate InTurn(s: State, order: seq<nat>, t: State)
    decreases |order|
  {
    if order == [] then s == t else exists next: State :: Passes(s, order[0], next) && InTurn(next, order[1..], t)
  }

  lemma {:induction false} LockStaysFree(s: State, order: seq<nat>) returns (t: State)
    requires BytesFit(s) && NoOne(s) && AllOut(s) && forall i :: 0 <= i < |order| ==> order[i] < |s.pc|
    ensures InTurn(s, order, t) && |t.pc| == |s.pc| && AllOut(t)
    decreases |order|
  {
    if order == [] {
      t := s;
    } else {
      var h := order[0];
      var inside := LocksAlone(s, h);
      RunKeepsBytes(s, [h, h, h, h, h, h]);
      var out := UnlocksAlone(inside, h);
      RunKeepsBytes(inside, [h, h, h]);
      assert Passes(s, h, out);
      t := LockStaysFree(out, order[1..]);
    }
  }

  /** The unlock releases the lock: whatever has happened, once all harts are out
      they can lock and unlock one after the other, in any order and as often as
      they like, each by its own steps alone. */
  lemma FreeAfterEveryRun(n: nat, schedule: seq<nat>, s: State, order: seq<nat>) returns (t: State)
    requires Reachable(n, schedule, s) && AllOut(s) && forall i :: 0 <= i < |order| ==> order[i] < n
    ensures InTurn(s, order, t) && |t.pc| == n && AllOut(t)
  {
    Reached(n, schedule, s);
    t := LockStaysFree(s, order);
  }

  // ----- what the wait of line 134 is good for

  /** When hart h passes the wait of line 134, no lower hart is about to show
      itself at line 123. */
  predicate PassesInOrder(s: State, h: nat) {
    h < |s.pc| && (s.pc[h].Wait134? ==> forall j :: 0 <= j < h ==> !s.pc[j].Store123?)
  }

  predicate PassInOrder(s: State, schedule: seq<nat>)
    requires Runs(s, schedule)
    decreases |schedule|
  {
    schedule != [] ==> PassesInOrder(s, schedule[0]) && PassInOrder(Next(s, schedule[0]), schedule[1..])
  }

  /** Below a hart that is inside, nobody has passed the door. */
  predicate LowerOutside(s: State) {
    forall j, k :: 0 <= j < k < |s.pc| && Inside(s.pc[k]) ==> Outside(s.pc[j])
  }

  lemma StepKeepsLowerOutside(s: State, h: nat)
    requires BytesFit(s) && |s.pc| <= 4 && LowerOutside(s) && Enabled(s, h) && PassesInOrder(s, h)
    ensures LowerOutside(Next(s, h))
  {
    WaitsOf(s, h);
    assert h % 4 == h;
  }

  lemma {:induction false} OrderedRunExcludes(s: State, schedule: seq<nat>)
    requires BytesFit(s) && NoOne(s) && |s.pc| <= 4 && LowerOutside(s)
    requires Runs(s, schedule) && PassInOrder(s, schedule)
    ensures LowerOutside(After(s, schedule))
    decreases |schedule|
  {
    if schedule != [] {
      StepKeepsBytes(s, schedule[0]);
      StepKeepsLowerOutside(s, schedule[0]);
      OrderedRunExcludes(Next(s, schedule[0]), schedule[1..]);
    }
  }

  ghost predicate OrderExcludes(n: nat)
    requires n <= WORD_BYTES
  {
    forall schedule: seq<nat> :: Runs(Init(n), schedule) && PassInOrder(Init(n), schedule) ==>
      Exclusive(After(Init(n), schedule))
  }

  lemma {:induction false} InOrderJoined(s: State, first: seq<nat>, mid: State, second: seq<nat>, t: State)
    requires Reaches(s, first, mid) && Reaches(mid, second, t)
    requires PassInOrder(s, first) && PassInOrder(mid, second)
    ensures Reaches(s, first + second, t) && PassInOrder(s, first + second)
    decreases |first|
  {
    if first == [] {
      assert first + second == second;
    } else {
      assert (first + second)[1..] == first[1..] + second;
      InOrderJoined(Next(s, first[0]), first[1..], mid, second, t);
    }
  }

  /** Hart h goes on alone while no lower hart stands at line 123. */
  lemma {:induction false} AloneInOrder(s: State, h: nat, schedule: seq<nat>)
    requires Shape(s) && h < |s.pc| && Runs(s, schedule) && forall i :: 0 <= i < |schedule| ==> schedule[i] == h
    requires forall j :: 0 <= j < h ==> !s.pc[j].Store123?
    ensures PassInOrder(s, schedule)
    decreases |schedule|
  {
    if schedule != [] {
      AloneInOrder(Next(s, h), h, schedule[1..]);
    }
  }

  lemma EntersInOrder(s: State, h: nat) returns (t: State)
    requires Shape(s) && h < |s.pc| && s.pc[h] == Store123
    requires forall i :: 0 <= i < WORD_BYTES ==> s.word[i] in {0, ST0, ST4}
    requires forall i :: 0 <= i < h % 4 ==> s.word[i] in {0, ST0}
    requires forall j :: 0 <= j < h ==> !s.pc[j].Store123?
    ensures t == State(s.word[h := ST4], s.pc[h := Critical])
    ensures Reaches(s, [h, h, h, h], t) && PassInOrder(s, [h, h, h, h])
  {
    t := EntersFromTheDoorway(s, h);
    AloneInOrder(s, h, [h, h, h, h]);
  }

  /** With five harts or more, hart 4 does not look at hart 0. */
  lemma FifthHartMeetsFirst(n: nat) returns (schedule: seq<nat>)
    requires 5 <= n <= WORD_BYTES
    ensures Runs(Init(n), schedule) && PassInOrder(Init(n), schedule)
    ensures !Exclusive(After(Init(n), schedule))
  {
    var s := InDoorway(n, 4);
    BothPassTheDoor(n, 4);
    DoorInOrder(n);
    var t := EntersInOrder(s, 0);
    var u := EntersInOrder(t, 4);
    InOrderJoined(s, [0, 0, 0, 0], t, [4, 4, 4, 4], u);
    InOrderJoined(Init(n), [0, 4, 0, 4], s, [0, 0, 0, 0] + [4, 4, 4, 4], u);
    schedule := [0, 4, 0, 4] + ([0, 0, 0, 0] + [4, 4, 4, 4]);
    assert u.pc[0].Critical? && u.pc[4].Critical?;
  }

  lemma DoorInOrder(n: nat)
    requires 5 <= n <= WORD_BYTES && Runs(Init(n), [0, 4, 0, 4])
    ensures PassInOrder(Init(n), [0, 4, 0, 4])
  {
    var a := Next(Init(n), 0);
    var b := Next(a, 4);
    var c := Next(b, 0);
    assert [0, 4, 0, 4][1..] == [4, 0, 4] && [4, 0, 4][1..] == [0, 4] && [0, 4][1..] == [4];
    assert PassInOrder(Next(c, 4), [4][1..]);
  }

  /** The wait of line 134 sorts out harts that pass the door together: the written
      lock excludes in every run in which nobody passes that wait while a lower
      hart stands at line 123, if and only if there are at most four harts. */
  lemma OrderedEntryExactlyToFour(n: nat)
    requires n <= WORD_BYTES
    ensures OrderExcludes(n) <==> n <= 4
  {
    if n <= 4 {
      forall schedule: seq<nat> | Runs(Init(n), schedule) && PassInOrder(Init(n), schedule)
        ensures Exclusive(After(Init(n), schedule))
      {
        AnyEqByByte(Init(n).word, Mask(ST1));
        OrderedRunExcludes(Init(n), schedule);
      }
    } else {
      var schedule := FifthHartMeetsFirst(n);
    }
  }
}
