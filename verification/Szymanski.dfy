/** The lock protocol that the header of src/spinlock.c states: Szymanski's
    algorithm with a waiting room, for any number of harts.  A wait is one
    snapshot of all flags; every flag write is a step of its own. */
module Szymanski {

  /** Where a hart stands.  The comment gives the line of the protocol that it
      is about to execute. */
  datatype Pc =
    | Out       // 17  flag <- 1
    | AtDoor    // 18  await all in {0, 1, 2}
    | Passed    // 19  flag <- 3
    | Doorway   // 20  any flag = 1?
    | MustWait  // 21  flag <- 2
    | Waiting   // 22  await any = 4
    | Called    // 24  flag <- 4, having seen a closed door
    | Clear     // 24  flag <- 4, having seen nobody at the door
    | Closed    // 25  await all lower in {0, 1}
    | Critical  // 27
    | Leaving   // 31  await all higher in {0, 1, 4}
    | Gone      // 33  flag <- 0

  /** `entered[h]` counts how often hart h has entered its critical section; it
      is history only and no guard reads it. */
  datatype State = State(flag: seq<nat>, pc: seq<Pc>, entered: seq<nat>)

  predicate Shape(s: State) {
    |s.flag| == |s.pc| == |s.entered|
  }

  function Init(n: nat): State {
    State(seq(n, i => 0), seq(n, i => Out), seq(n, i => 0))
  }

  predicate AllIn(s: State, allowed: set<nat>, lo: nat, hi: nat) {
    hi <= |s.flag| && forall i :: lo <= i < hi ==> s.flag[i] in allowed
  }

  predicate AnyIs(s: State, v: nat) {
    exists i :: 0 <= i < |s.flag| && s.flag[i] == v
  }

  /** The guard of hart h's next step: only the four waits can block. */
  predicate Enabled(s: State, h: nat)
    requires Shape(s)
  {
    h < |s.pc| &&
    match s.pc[h]
    case AtDoor => AllIn(s, {0, 1, 2}, 0, |s.flag|)
    case Waiting => AnyIs(s, 4)
    case Closed => AllIn(s, {0, 1}, 0, h)
    case Leaving => AllIn(s, {0, 1, 4}, h + 1, |s.flag|)
    case _ => true
  }

  function Write(s: State, h: nat, v: nat, pc: Pc): State
    requires Shape(s) && h < |s.pc|
  {
    s.(flag := s.flag[h := v], pc := s.pc[h := pc])
  }

  function Goto(s: State, h: nat, pc: Pc): State
    requires Shape(s) && h < |s.pc|
  {
    s.(pc := s.pc[h := pc])
  }

  /** One step of hart h. */
  function Next(s: State, h: nat): (t: State)
    requires Shape(s) && Enabled(s, h)
    ensures Shape(t) && |t.pc| == |s.pc|
  {
    match s.pc[h]
    case Out => Write(s, h, 1, AtDoor)
    case AtDoor => Goto(s, h, Passed)
    case Passed => Write(s, h, 3, Doorway)
    case Doorway => Goto(s, h, if AnyIs(s, 1) then MustWait else Clear)
    case MustWait => Write(s, h, 2, Waiting)
    case Waiting => Goto(s, h, Called)
    case Called => Write(s, h, 4, Closed)
    case Clear => Write(s, h, 4, Closed)
    case Closed => Goto(s, h, Critical).(entered := s.entered[h := s.entered[h] + 1])
    case Critical => Goto(s, h, Leaving)
    case Leaving => Goto(s, h, Gone)
    case Gone => Write(s, h, 0, Out)
  }

  /** A run is a schedule: the hart that takes each step.  It is a run when no
      step it takes is blocked. */
  predicate Runs(s: State, schedule: seq<nat>)
    requires Shape(s)
    decreases |schedule|
  {
    schedule == [] || (Enabled(s, schedule[0]) && Runs(Next(s, schedule[0]), schedule[1..]))
  }

  function After(s: State, schedule: seq<nat>): (t: State)
    requires Shape(s) && Runs(s, schedule)
    ensures Shape(t) && |t.pc| == |s.pc|
    decreases |schedule|
  {
    if schedule == [] then s else After(Next(s, schedule[0]), schedule[1..])
  }

  // ----- the inductive invariant

  function FlagAt(pc: Pc): nat {
    match pc
    case Out => 0
    case AtDoor | Passed => 1
    case Doorway | MustWait | Clear => 3
    case Waiting | Called => 2
    case Closed | Critical | Leaving | Gone => 4
  }

  /** Past the last entry wait and not yet out. */
  predicate Inside(pc: Pc) {
    pc.Critical? || pc.Leaving? || pc.Gone?
  }

  predicate Outside(pc: Pc) {
    pc.Out? || pc.AtDoor?
  }

  predicate DoorShut(pc: Pc) {
    pc.Clear? || pc.Closed? || Inside(pc)
  }

  predicate FlagsMatch(s: State) {
    Shape(s) && forall i :: 0 <= i < |s.pc| ==> s.flag[i] == FlagAt(s.pc[i])
  }

  predicate NobodyPassed(s: State) {
    forall i :: 0 <= i < |s.pc| ==> !s.pc[i].Passed?
  }

  /** Once a hart has seen nobody at the door, nobody is between the door wait
      and the doorway. */
  predicate ShutMeansNobodyPassed(s: State) {
    forall k :: 0 <= k < |s.pc| && DoorShut(s.pc[k]) ==> NobodyPassed(s)
  }

  predicate LowerOutside(s: State) {
    forall j, k :: 0 <= j < k < |s.pc| && Inside(s.pc[k]) ==> Outside(s.pc[j])
  }

  /** A hart about to reopen the door has left nobody in the waiting room. */
  predicate RoomEmptyWhenGone(s: State) {
    forall j, k :: 0 <= j < |s.pc| && 0 <= k < |s.pc| && s.pc[k].Gone? ==>
      Outside(s.pc[j]) || FlagAt(s.pc[j]) == 4
  }

  predicate CalledMeansClosed(s: State) {
    forall j :: 0 <= j < |s.pc| && s.pc[j].Called? ==> AnyIs(s, 4)
  }

  predicate InRoom(pc: Pc) {
    pc.MustWait? || pc.Waiting? || pc.Called?
  }

  /** A hart that will open or has opened the way for those in the room. */
  predicate Leads(pc: Pc) {
    pc != Out && !InRoom(pc)
  }

  predicate SomeoneLeads(s: State) {
    exists i :: 0 <= i < |s.pc| && Leads(s.pc[i])
  }

  predicate RoomHasLeader(s: State) {
    forall j :: 0 <= j < |s.pc| && InRoom(s.pc[j]) ==> SomeoneLeads(s)
  }

  predicate Inv(s: State) {
    && FlagsMatch(s)
    && ShutMeansNobodyPassed(s)
    && LowerOutside(s)
    && RoomEmptyWhenGone(s)
    && CalledMeansClosed(s)
    && RoomHasLeader(s)
  }

  lemma StepKeepsFlags(s: State, h: nat)
    requires Inv(s) && Enabled(s, h)
    ensures FlagsMatch(Next(s, h))
  {
  }

  lemma StepKeepsShut(s: State, h: nat)
    requires Inv(s) && Enabled(s, h)
    ensures ShutMeansNobodyPassed(Next(s, h))
  {
    var t := Next(s, h);
    forall k, i | 0 <= k < |t.pc| && 0 <= i < |t.pc| && DoorShut(t.pc[k]) ensures !t.pc[i].Passed? {
      assert s.flag[k] == FlagAt(s.pc[k]) && s.flag[i] == FlagAt(s.pc[i]);
      if s.pc[h].Called? {
        var c :| 0 <= c < |s.pc| && s.flag[c] == 4;
        assert s.flag[c] == FlagAt(s.pc[c]);
        assert DoorShut(s.pc[c]);
      }
    }
  }

  lemma StepKeepsLower(s: State, h: nat)
    requires Inv(s) && Enabled(s, h)
    ensures LowerOutside(Next(s, h))
  {
    var t := Next(s, h);
    forall j, k | 0 <= j < k < |t.pc| && Inside(t.pc[k]) ensures Outside(t.pc[j]) {
      assert s.flag[k] == FlagAt(s.pc[k]) && s.flag[j] == FlagAt(s.pc[j]);
      assert DoorShut(s.pc[k]);
    }
  }

  lemma StepKeepsRoomEmpty(s: State, h: nat)
    requires Inv(s) && Enabled(s, h)
    ensures RoomEmptyWhenGone(Next(s, h))
  {
    var t := Next(s, h);
    forall j, k | 0 <= j < |t.pc| && 0 <= k < |t.pc| && t.pc[k].Gone?
      ensures Outside(t.pc[j]) || FlagAt(t.pc[j]) == 4
    {
      assert s.flag[k] == FlagAt(s.pc[k]) && s.flag[j] == FlagAt(s.pc[j]);
      assert Inside(s.pc[k]) && DoorShut(s.pc[k]);
    }
  }

  lemma StepKeepsCalled(s: State, h: nat)
    requires Inv(s) && Enabled(s, h)
    ensures CalledMeansClosed(Next(s, h))
  {
    var t := Next(s, h);
    forall j | 0 <= j < |t.pc| && t.pc[j].Called? ensures AnyIs(t, 4) {
      var c :| 0 <= c < |s.pc| && s.flag[c] == 4;
      assert s.flag[c] == FlagAt(s.pc[c]) && s.flag[h] == FlagAt(s.pc[h]);
      assert t.flag[c] == 4;
    }
  }

  lemma StepKeepsLeader(s: State, h: nat)
    requires Inv(s) && Enabled(s, h)
    ensures RoomHasLeader(Next(s, h))
  {
    var t := Next(s, h);
    forall j | 0 <= j < |t.pc| && InRoom(t.pc[j]) ensures SomeoneLeads(t) {
      if s.pc[h].Doorway? && AnyIs(s, 1) {
        var i :| 0 <= i < |s.flag| && s.flag[i] == 1;
        assert s.flag[i] == FlagAt(s.pc[i]) && s.flag[h] == FlagAt(s.pc[h]);
        assert Leads(t.pc[i]);
      } else if Leads(t.pc[h]) {
      } else {
        var i :| 0 <= i < |s.pc| && Leads(s.pc[i]);
        assert s.flag[j] == FlagAt(s.pc[j]);
        assert Leads(t.pc[i]);
      }
    }
  }

  lemma StepKeepsInv(s: State, h: nat)
    requires Inv(s) && Enabled(s, h)
    ensures Inv(Next(s, h))
  {
    StepKeepsFlags(s, h);
    StepKeepsShut(s, h);
    StepKeepsLower(s, h);
    StepKeepsRoomEmpty(s, h);
    StepKeepsCalled(s, h);
    StepKeepsLeader(s, h);
  }

  lemma {:induction false} RunKeepsInv(s: State, schedule: seq<nat>)
    requires Inv(s) && Runs(s, schedule)
    ensures Inv(After(s, schedule))
    decreases |schedule|
  {
    if schedule != [] {
      StepKeepsInv(s, schedule[0]);
      RunKeepsInv(Next(s, schedule[0]), schedule[1..]);
    }
  }

  // ----- the theorems

  /** Mutual exclusion: whatever the number of harts and whatever the run, no
      two harts are past the last entry wait. */
  lemma MutualExclusion(n: nat, schedule: seq<nat>, j: nat, k: nat)
    requires Runs(Init(n), schedule)
    requires j < n && k < n
    requires Inside(After(Init(n), schedule).pc[j]) && Inside(After(Init(n), schedule).pc[k])
    ensures j == k
  {
    RunKeepsInv(Init(n), schedule);
  }

  /** The door: while a flag is 4, nobody is between passing the door wait and
      writing 3. */
  lemma DoorIsShut(n: nat, schedule: seq<nat>, i: nat)
    requires Runs(Init(n), schedule) && i < n
    requires AnyIs(After(Init(n), schedule), 4)
    ensures After(Init(n), schedule).pc[i] != Passed
  {
    RunKeepsInv(Init(n), schedule);
    var s := After(Init(n), schedule);
    var c :| 0 <= c < |s.flag| && s.flag[c] == 4;
    assert s.flag[c] == FlagAt(s.pc[c]);
    assert DoorShut(s.pc[c]);
  }

  /** Doorway, waiting room, or door closed and waiting for its turn. */
  predicate Waits(pc: Pc) {
    pc.Doorway? || InRoom(pc) || pc.Clear? || pc.Closed?
  }

  lemma {:induction false} HeldOutside(s: State, schedule: seq<nat>, j: nat, k: nat)
    requires Inv(s) && Runs(s, schedule) && j < |s.pc| && k < |s.pc|
    requires s.pc[j].Closed? && Outside(s.pc[k])
    ensures var t := After(s, schedule);
            t.entered[j] > s.entered[j] || (t.pc[j].Closed? && t.entered[j] == s.entered[j] && Outside(t.pc[k]))
    decreases |schedule|
  {
    if schedule != [] {
      var h := schedule[0];
      var t := Next(s, h);
      StepKeepsInv(s, h);
      assert s.flag[j] == 4;
      if h == j {
        EntriesOnlyGrow(t, schedule[1..], j);
      } else {
        HeldOutside(t, schedule[1..], j, k);
      }
    }
  }

  lemma {:induction false} EntriesOnlyGrow(s: State, schedule: seq<nat>, j: nat)
    requires Shape(s) && Runs(s, schedule) && j < |s.pc|
    ensures After(s, schedule).entered[j] >= s.entered[j]
    decreases |schedule|
  {
    if schedule != [] {
      EntriesOnlyGrow(Next(s, schedule[0]), schedule[1..], j);
    }
  }

  /** No overtaking: when hart k leaves, every hart j that then waits enters
      before k passes the door again. */
  lemma NoOvertaking(n: nat, before: seq<nat>, k: nat, j: nat, later: seq<nat>)
    requires Runs(Init(n), before) && k < n && j < n
    requires After(Init(n), before).pc[k].Gone? && Waits(After(Init(n), before).pc[j])
    requires Runs(Next(After(Init(n), before), k), later)
    ensures var left := Next(After(Init(n), before), k);
            var now := After(left, later);
            !Outside(now.pc[k]) ==> now.entered[j] > left.entered[j]
  {
    var s := After(Init(n), before);
    RunKeepsInv(Init(n), before);
    StepKeepsInv(s, k);
    assert s.pc[j].Closed?;
    HeldOutside(Next(s, k), later, j, k);
  }

  /** Hart k after it may have passed the waiting hart j once: e is how often it
      had entered when j began to wait. */
  predicate PassedOnce(s: State, j: nat, k: nat, e: nat)
    requires Shape(s) && j < |s.pc| && k < |s.pc|
  {
    s.entered[k] <= e
    || (s.entered[k] == e + 1 && (Inside(s.pc[k]) || (Outside(s.pc[k]) && s.pc[j].Closed?)))
  }

  lemma StepPassesOnce(s: State, h: nat, j: nat, k: nat, e: nat)
    requires Inv(s) && Enabled(s, h) && j < |s.pc| && k < |s.pc| && j != k
    requires Waits(s.pc[j]) && PassedOnce(s, j, k, e)
    ensures var t := Next(s, h);
            t.entered[j] > s.entered[j]
            || (t.entered[j] == s.entered[j] && Waits(t.pc[j]) && PassedOnce(t, j, k, e))
  {
    assert s.flag[j] == FlagAt(s.pc[j]);
  }

  lemma {:induction false} RunPassesOnce(s: State, schedule: seq<nat>, j: nat, k: nat, e: nat)
    requires Inv(s) && Runs(s, schedule) && j < |s.pc| && k < |s.pc| && j != k
    requires Waits(s.pc[j]) && PassedOnce(s, j, k, e)
    ensures var t := After(s, schedule); t.entered[j] > s.entered[j] || t.entered[k] <= e + 1
    decreases |schedule|
  {
    if schedule != [] {
      var t := Next(s, schedule[0]);
      StepPassesOnce(s, schedule[0], j, k, e);
      StepKeepsInv(s, schedule[0]);
      if t.entered[j] > s.entered[j] {
        EntriesOnlyGrow(t, schedule[1..], j);
      } else {
        RunPassesOnce(t, schedule[1..], j, k, e);
      }
    }
  }

  /** Bounded bypass, in any run, with newcomers or without: while a hart waits,
      every other hart enters at most once. */
  lemma BoundedBypass(n: nat, before: seq<nat>, j: nat, k: nat, later: seq<nat>)
    requires Runs(Init(n), before) && j < n && k < n && j != k
    requires Waits(After(Init(n), before).pc[j]) && Runs(After(Init(n), before), later)
    ensures var s := After(Init(n), before);
            var t := After(s, later);
            t.entered[j] == s.entered[j] ==> t.entered[k] <= s.entered[k] + 1
  {
    var s := After(Init(n), before);
    RunKeepsInv(Init(n), before);
    RunPassesOnce(s, later, j, k, s.entered[k]);
  }


  predicate Busy(s: State, h: nat) {
    h < |s.pc| && s.pc[h] != Out
  }

  predicate SomeoneCanMove(s: State)
    requires Shape(s)
  {
    exists h: nat :: h < |s.pc| && Busy(s, h) && Enabled(s, h)
  }

  predicate AllStuck(s: State)
    requires Shape(s)
  {
    forall h: nat :: h < |s.pc| && Busy(s, h) ==> !Enabled(s, h)
  }

  lemma StuckFlag(s: State, h: nat)
    requires Inv(s) && AllStuck(s) && h < |s.pc|
    ensures s.flag[h] == FlagAt(s.pc[h])
    ensures s.pc[h].Out? || s.pc[h].AtDoor? || s.pc[h].Waiting? || s.pc[h].Closed? || s.pc[h].Leaving?
  {
    assert Busy(s, h) ==> !Enabled(s, h);
  }

  lemma StuckHasNoFour(s: State)
    requires Inv(s) && AllStuck(s)
    ensures !AnyIs(s, 4)
  {
    if AnyIs(s, 4) {
      var c: nat :| c < |s.flag| && s.flag[c] == 4;
      forall i: nat | i < |s.pc| ensures s.flag[i] in {0, 1, 4} {
        StuckFlag(s, i);
        assert s.pc[i].Waiting? ==> Enabled(s, i) && Busy(s, i);
      }
      StuckFlag(s, c);
      var k := LowestFour(s, c);
      StuckFlag(s, k);
      assert AllIn(s, {0, 1}, 0, k);
      assert AllIn(s, {0, 1, 4}, k + 1, |s.flag|);
      assert Enabled(s, k) && Busy(s, k);
      assert false;
    }
  }

  lemma {:induction false} LowestFour(s: State, c: nat) returns (k: nat)
    requires c < |s.flag| && s.flag[c] == 4
    ensures k < |s.flag| && s.flag[k] == 4
    ensures forall i :: 0 <= i < k ==> s.flag[i] != 4
    decreases c
  {
    k := c;
    if i: nat :| i < c && s.flag[i] == 4 {
      k := LowestFour(s, i);
    }
  }

  lemma NotStuck(s: State, h: nat)
    requires Inv(s) && Busy(s, h)
    ensures SomeoneCanMove(s)
  {
    if !SomeoneCanMove(s) {
      assert AllStuck(s);
      StuckHasNoFour(s);
      forall i: nat | i < |s.pc| ensures s.flag[i] in {0, 1, 2} && (s.pc[i].Out? || s.pc[i].Waiting?) {
        forall x: nat | x < |s.pc| ensures s.flag[x] in {0, 1, 2} {
          StuckFlag(s, x);
        }
        StuckFlag(s, i);
        if s.pc[i].AtDoor? {
          assert Enabled(s, i) && Busy(s, i);
        }
      }
      assert InRoom(s.pc[h]);
      assert false;
    }
  }

  lemma StuckMeansOut(s: State)
    requires Inv(s) && !SomeoneCanMove(s)
    ensures forall h :: 0 <= h < |s.pc| ==> s.pc[h] == Out && s.flag[h] == 0
  {
    forall h: nat | h < |s.pc| ensures s.pc[h] == Out {
      if Busy(s, h) {
        NotStuck(s, h);
      }
    }
  }

  /** Deadlock freedom: while a hart is trying, inside or leaving, one of those
      harts (and not a newcomer) has a step to take. */
  lemma DeadlockFreedom(n: nat, schedule: seq<nat>, h: nat)
    requires Runs(Init(n), schedule) && Busy(After(Init(n), schedule), h)
    ensures SomeoneCanMove(After(Init(n), schedule))
  {
    RunKeepsInv(Init(n), schedule);
    NotStuck(After(Init(n), schedule), h);
  }

  // ----- service: without newcomers, every run ends with everybody out

  function Distance(pc: Pc): nat {
    match pc
    case Out => 0
    case AtDoor => 10
    case Passed => 9
    case Doorway => 8
    case MustWait => 7
    case Waiting => 6
    case Called | Clear => 5
    case Closed => 4
    case Critical => 3
    case Leaving => 2
    case Gone => 1
  }

  function Work(pcs: seq<Pc>): nat {
    if pcs == [] then 0 else Distance(pcs[0]) + Work(pcs[1..])
  }

  lemma {:induction false} WorkUpdate(pcs: seq<Pc>, h: nat, pc: Pc)
    requires h < |pcs|
    ensures Work(pcs[h := pc]) == Work(pcs) - Distance(pcs[h]) + Distance(pc)
  {
    if h == 0 {
      assert pcs[h := pc][1..] == pcs[1..];
    } else {
      assert pcs[h := pc][1..] == pcs[1..][h - 1 := pc];
      WorkUpdate(pcs[1..], h - 1, pc);
    }
  }

  /** No hart starts to try in this run. */
  predicate NoNewcomer(s: State, schedule: seq<nat>)
    requires Shape(s) && Runs(s, schedule)
    decreases |schedule|
  {
    schedule == [] || (Busy(s, schedule[0]) && NoNewcomer(Next(s, schedule[0]), schedule[1..]))
  }

  lemma {:induction false} BoundedService(s: State, schedule: seq<nat>)
    requires Shape(s) && Runs(s, schedule) && NoNewcomer(s, schedule)
    ensures |schedule| + Work(After(s, schedule).pc) <= Work(s.pc)
    decreases |schedule|
  {
    if schedule != [] {
      var h := schedule[0];
      WorkUpdate(s.pc, h, Next(s, h).pc[h]);
      assert Next(s, h).pc == s.pc[h := Next(s, h).pc[h]];
      BoundedService(Next(s, h), schedule[1..]);
    }
  }

  /** From any reachable state, a run without newcomers takes at most
      `Work(pc)` steps; where it cannot be extended, everybody is out again. */
  lemma EveryoneIsServed(n: nat, before: seq<nat>, schedule: seq<nat>)
    requires Runs(Init(n), before)
    requires Runs(After(Init(n), before), schedule) && NoNewcomer(After(Init(n), before), schedule)
    ensures var s := After(Init(n), before);
            var t := After(s, schedule);
            && |schedule| <= Work(s.pc)
            && (!SomeoneCanMove(t) ==> forall h :: 0 <= h < n ==> t.pc[h] == Out && t.flag[h] == 0)
  {
    var s := After(Init(n), before);
    var t := After(s, schedule);
    RunKeepsInv(Init(n), before);
    RunKeepsInv(s, schedule);
    BoundedService(s, schedule);
    if !SomeoneCanMove(t) {
      StuckMeansOut(t);
    }
  }
}
