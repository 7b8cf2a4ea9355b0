/** arch_spin_lock and arch_spin_unlock of src/spinlock.c statement by
    statement.  Line 119 stores ASP_ST0 where the header of the file writes 1,
    so this is not the protocol of module Szymanski. */
module LockAsWritten {
  import opened FlagWord

  /** The statement that a hart is about to execute, by line. */
  datatype Pc =
    | Store119 | Wait121 | Store123 | Test124 | Store127 | Wait129 | Store132 | Wait134
    | Critical | Wait145 | Store147

  datatype State = State(word: Word, pc: seq<Pc>)

  predicate Shape(s: State) {
    |s.pc| <= WORD_BYTES
  }

  function Init(n: nat): State
    requires n <= WORD_BYTES
  {
    State(Mask(0), seq(n, i => Store119))
  }

  predicate Enabled(s: State, h: nat) {
    Shape(s) && h < |s.pc| &&
    match s.pc[h]
    case Wait121 => DoorOpen(s.word)
    case Wait129 => FirstHartClosed(s.word)
    case Wait134 => LowerDone(s.word, h)
    case Wait145 => HigherDone(s.word, h)
    case _ => true
  }

  function Goto(s: State, h: nat, pc: Pc): State
    requires Shape(s) && h < |s.pc|
  {
    s.(pc := s.pc[h := pc])
  }

  function Store(s: State, h: nat, v: bv8, pc: Pc): State
    requires Shape(s) && h < |s.pc|
  {
    State(s.word[h := v], s.pc[h := pc])
  }

  function Next(s: State, h: nat): (t: State)
    requires Enabled(s, h)
    ensures Shape(t) && |t.pc| == |s.pc|
  {
    match s.pc[h]
    case Store119 => Store(s, h, ST0, Wait121)
    case Wait121 => Goto(s, h, Store123)
    case Store123 => Store(s, h, ST3, Test124)
    case Test124 => Goto(s, h, if SomeoneAtDoor(s.word) then Store127 else Store132)
    case Store127 => Store(s, h, ST2, Wait129)
    case Wait129 => Goto(s, h, Store132)
    case Store132 => Store(s, h, ST4, Wait134)
    case Wait134 => Goto(s, h, Critical)
    case Critical => Goto(s, h, Wait145)
    case Wait145 => Goto(s, h, Store147)
    case Store147 => Store(s, h, ST0, Store119)
  }

  predicate Runs(s: State, schedule: seq<nat>)
    decreases |schedule|
  {
    schedule == [] || (Enabled(s, schedule[0]) && Runs(Next(s, schedule[0]), schedule[1..]))
  }

  function After(s: State, schedule: seq<nat>): (t: State)
    requires Shape(s) && Runs(s, schedule)
    ensures Shape(t) && |t.pc| == |s.pc|
    decreases |schedule|
  {
    if schedule == [] then s else After(Next(s, schedule[0]), schedule[1..])
  }

  // ----- the branch of lines 125-130 is dead

  predicate NoOne(s: State) {
    && !SomeoneAtDoor(s.word)
    && forall i :: 0 <= i < |s.pc| ==> !s.pc[i].Store127? && !s.pc[i].Wait129?
  }

  lemma StepKeepsNoOne(s: State, h: nat)
    requires NoOne(s) && Enabled(s, h)
    ensures NoOne(Next(s, h))
  {
    AnyEqByByte(s.word, Mask(ST1));
    AnyEqByByte(Next(s, h).word, Mask(ST1));
  }

  lemma {:induction false} RunKeepsNoOne(s: State, schedule: seq<nat>)
    requires NoOne(s) && Shape(s) && Runs(s, schedule)
    ensures NoOne(After(s, schedule))
    decreases |schedule|
  {
    if schedule != [] {
      StepKeepsNoOne(s, schedule[0]);
      RunKeepsNoOne(Next(s, schedule[0]), schedule[1..]);
    }
  }

  /** No run stores ASP_ST1 and none takes the branch at line 124: nobody ever
      waits in the waiting room. */
  lemma WaitingRoomIsDead(n: nat, schedule: seq<nat>, h: nat)
    requires n <= WORD_BYTES && h < n && Runs(Init(n), schedule)
    ensures var s := After(Init(n), schedule);
            !SomeoneAtDoor(s.word) && s.pc[h] != Store127 && s.pc[h] != Wait129
  {
    AnyEqByByte(Init(n).word, Mask(ST1));
    RunKeepsNoOne(Init(n), schedule);
  }

  /** What the branch would do if some hart had ASP_ST1: a hart that meets such a
      byte at line 124 stores ASP_ST2 and waits until hart 0, and no other, has
      ASP_ST4; one that meets none goes on to line 132. */
  lemma RoomIfEntered(s: State, h: nat)
    requires Shape(s) && h < |s.pc|
    ensures s.pc[h] == Test124 ==>
      (Next(s, h).pc[h] == Store127 <==> exists i :: 0 <= i < WORD_BYTES && s.word[i] & ST1 != 0)
      && (Next(s, h).pc[h] == Store132 <==> forall i :: 0 <= i < WORD_BYTES ==> s.word[i] & ST1 == 0)
    ensures s.pc[h] == Store127 ==> Next(s, h) == State(s.word[h := ST2], s.pc[h := Wait129])
    ensures s.pc[h] == Wait129 ==> (Enabled(s, h) <==> s.word[0] & ST4 != 0)
    ensures s.pc[h] == Wait129 && Enabled(s, h) ==> Next(s, h) == State(s.word, s.pc[h := Store132])
  {
    AnyEqByByte(s.word, Mask(ST1));
    AnyEqByByte(s.word, [ST4, 0, 0, 0, 0, 0, 0, 0]);
  }

  // ----- mutual exclusion fails from two harts on

  predicate Exclusive(s: State) {
    forall j, k :: 0 <= j < |s.pc| && 0 <= k < |s.pc| && s.pc[j].Critical? && s.pc[k].Critical? ==> j == k
  }

  ghost predicate AlwaysExclusive(n: nat)
    requires n <= WORD_BYTES
  {
    forall schedule: seq<nat> :: Runs(Init(n), schedule) ==> Exclusive(After(Init(n), schedule))
  }

  ghost predicate Reaches(s: State, schedule: seq<nat>, t: State) {
    Shape(s) && Runs(s, schedule) && After(s, schedule) == t
  }

  lemma OneMore(s: State, h: nat, rest: seq<nat>, t: State)
    requires Enabled(s, h) && Reaches(Next(s, h), rest, t)
    ensures Reaches(s, [h] + rest, t)
  {
    assert ([h] + rest)[1..] == rest;
  }

  /** Harts 0 and k store ASP_ST0 and find the door open. */
  lemma BothPassTheDoor(n: nat, k: nat)
    requires 0 < k < n <= WORD_BYTES
    ensures Reaches(Init(n), [0, k, 0, k], InDoorway(n, k))
  {
    var a := Next(Init(n), 0);
    var b := Next(a, k);
    AllInByByte(b.word, Mask(ST0 | ST1 | ST2));
    var c := Next(b, 0);
    var d := Next(c, k);
    assert d == InDoorway(n, k);
    OneMore(c, k, [], d);
    OneMore(b, 0, [k], d);
    OneMore(a, k, [0, k], d);
    OneMore(Init(n), 0, [k, 0, k], d);
  }

  function InDoorway(n: nat, k: nat): State
    requires 0 < k < n <= WORD_BYTES
  {
    State(Mask(0)[0 := ST0][k := ST0], seq(n, i => if i == 0 || i == k then Store123 else Store119))
  }

  lemma LowerBytesDone(w: Word, h: nat)
    requires forall i :: 0 <= i < h % 4 ==> w[i] in {0, ST0}
    ensures LowerDone(w, h)
  {
    var mask := Or(Or(Mask(ST0 | ST1), HighMask(h)), SelfMask(h));
    forall i: nat | i < WORD_BYTES ensures w[i] & !mask[i] == 0 {
      MaskBytes(h, i);
    }
    AllInByByte(w, mask);
  }

  /** Hart h goes from the doorway into the critical section, if the harts that it
      looks at in line 134 are out or have ASP_ST0 in their byte. */
  lemma EntersFromTheDoorway(s: State, h: nat) returns (t: State)
    requires Shape(s) && h < |s.pc| && s.pc[h] == Store123
    requires forall i :: 0 <= i < WORD_BYTES ==> s.word[i] in {0, ST0, ST4}
    requires forall i :: 0 <= i < h % 4 ==> s.word[i] in {0, ST0}
    ensures t == State(s.word[h := ST4], s.pc[h := Critical])
    ensures Reaches(s, [h, h, h, h], t)
  {
    var a := Next(s, h);
    AnyEqByByte(a.word, Mask(ST1));
    var b := Next(a, h);
    var c := Next(b, h);
    LowerBytesDone(c.word, h);
    t := Next(c, h);
    OneMore(c, h, [], t);
    OneMore(b, h, [h], t);
    OneMore(a, h, [h, h], t);
    OneMore(s, h, [h, h, h], t);
  }

  lemma {:induction false} Chain(s: State, first: seq<nat>, mid: State, second: seq<nat>, t: State)
    requires Reaches(s, first, mid) && Reaches(mid, second, t)
    ensures Reaches(s, first + second, t)
    decreases |first|
  {
    if first == [] {
      assert first + second == second;
    } else {
      Chain(Next(s, first[0]), first[1..], mid, second, t);
      assert (first + second)[1..] == first[1..] + second;
    }
  }

  /** The run: both pass the door, hart 1 enters, then hart 0, which waits for
      nobody below it, enters as well. */
  lemma TwoInside(n: nat) returns (schedule: seq<nat>)
    requires 2 <= n <= WORD_BYTES
    ensures Runs(Init(n), schedule)
    ensures After(Init(n), schedule).pc[0] == Critical && After(Init(n), schedule).pc[1] == Critical
  {
    var s := InDoorway(n, 1);
    var t := EntersFromTheDoorway(s, 1);
    var u := EntersFromTheDoorway(t, 0);
    BothPassTheDoor(n, 1);
    Chain(s, [1, 1, 1, 1], t, [0, 0, 0, 0], u);
    Chain(Init(n), [0, 1, 0, 1], s, [1, 1, 1, 1] + [0, 0, 0, 0], u);
    schedule := [0, 1, 0, 1] + ([1, 1, 1, 1] + [0, 0, 0, 0]);
  }

  /** As written, the lock excludes exactly when there is nobody to exclude. */
  lemma ExclusiveExactlyAlone(n: nat)
    requires n <= WORD_BYTES
    ensures AlwaysExclusive(n) <==> n <= 1
  {
    if n >= 2 {
      var schedule := TwoInside(n);
      assert !Exclusive(After(Init(n), schedule));
    }
  }

  // ----- what it takes for two harts to meet

  /** Past the wait at line 121 and not yet past the store at line 147. */
  predicate PastDoor(pc: Pc) {
    !pc.Store119? && !pc.Wait121?
  }

  /** No two harts are between the wait at line 121 and the store at line 123. */
  predicate OneInDoorway(s: State) {
    forall j, k :: 0 <= j < |s.pc| && 0 <= k < |s.pc| && s.pc[j].Store123? && s.pc[k].Store123? ==> j == k
  }

  ghost predicate NeverTwoInDoorway(s: State, schedule: seq<nat>)
    requires Runs(s, schedule)
    decreases |schedule|
  {
    OneInDoorway(s) && (schedule != [] ==> NeverTwoInDoorway(Next(s, schedule[0]), schedule[1..]))
  }

  /** A hart past the doorway shows it in its byte, and nobody else is past the door. */
  predicate Alone(s: State) {
    && Shape(s) && NoOne(s)
    && (forall i :: 0 <= i < |s.pc| && PastDoor(s.pc[i]) && !s.pc[i].Store123? ==> s.word[i] in {ST3, ST4})
    && forall j, k :: 0 <= j < |s.pc| && 0 <= k < |s.pc| && PastDoor(s.pc[j]) && PastDoor(s.pc[k]) ==> j == k
  }

  lemma StepKeepsAlone(s: State, h: nat)
    requires Alone(s) && Enabled(s, h) && OneInDoorway(Next(s, h))
    ensures Alone(Next(s, h))
  {
    StepKeepsNoOne(s, h);
    if s.pc[h].Wait121? {
      AllInByByte(s.word, Mask(ST0 | ST1 | ST2));
      assert Next(s, h).pc[h].Store123?;
    }
  }

  /** The written body excludes in every run in which no two harts stand at the
      store of line 123 together: only harts that pass the door together meet. */
  lemma {:induction false} ExclusiveUnlessTwoInDoorway(s: State, schedule: seq<nat>)
    requires Alone(s) && Runs(s, schedule) && NeverTwoInDoorway(s, schedule)
    ensures Exclusive(After(s, schedule))
    decreases |schedule|
  {
    if schedule != [] {
      StepKeepsAlone(s, schedule[0]);
      ExclusiveUnlessTwoInDoorway(Next(s, schedule[0]), schedule[1..]);
    }
  }

  lemma ExclusiveFromTheStart(n: nat, schedule: seq<nat>)
    requires n <= WORD_BYTES && Runs(Init(n), schedule) && NeverTwoInDoorway(Init(n), schedule)
    ensures Exclusive(After(Init(n), schedule))
  {
    AnyEqByByte(Init(n).word, Mask(ST1));
    ExclusiveUnlessTwoInDoorway(Init(n), schedule);
  }
}
