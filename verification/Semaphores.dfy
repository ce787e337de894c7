/** The per-file semaphores, as atomic steps of any number of reader and writer threads.
    The test in the reader's entry is modelled as it is written: after the increment it
    compares the count with `> 0`, so every reader waits for the file semaphore. */
module Semaphores {

  /** Where a thread stands; the line it is about to run is in storageserverinit.c. */
  datatype Pc =
    | RStart      // 40: sem_wait(&semlocks)
    | RLocked     // 41: reader_count++
    | RTesting    // 42: if (reader_count > 0)
    | RWaiting    // 44: sem_wait(&semaphores)
    | REntered    // 46: sem_post(&semlocks)
    | RReading    // 48-99: sends the file, then sem_wait(&semlocks)
    | RLeaving    // 100: reader_count--
    | RLeft       // 101: if (reader_count == 0)
    | RPosting    // 103: sem_post(&semaphores)
    | RUnlocking  // 105: sem_post(&semlocks)
    | WStart      // 170: fopen(path, "wb"), which empties the file
    | WOpened     // 178: sem_wait(&semaphores)
    | WWriting    // 179-211: stores the chunks, then sem_post(&semaphores)
    | Done

  datatype State = State(lock: nat, sem: nat, readers: int, pcs: seq<Pc>)

  predicate HoldsLock(pc: Pc) {
    pc in {RLocked, RTesting, RWaiting, REntered, RLeaving, RLeft, RPosting, RUnlocking}
  }

  predicate HoldsSem(pc: Pc) {
    pc in {REntered, RReading, RLeaving, RLeft, RPosting, WWriting}
  }

  predicate Counted(pc: Pc) {
    pc in {RTesting, RWaiting, REntered, RReading, RLeaving}
  }

  /** A reader past the lock but not past the file semaphore. */
  predicate Entering(pc: Pc) {
    pc in {RLocked, RTesting, RWaiting}
  }

  // ---------- steps ----------

  predicate Enabled(s: State, i: nat)
    requires i < |s.pcs|
  {
    match s.pcs[i]
    case RStart => s.lock > 0
    case RReading => s.lock > 0
    case RWaiting => s.sem > 0
    case WOpened => s.sem > 0
    case Done => false
    case _ => true
  }

  function Next(s: State, i: nat): (s': State)
    requires i < |s.pcs| && Enabled(s, i)
    ensures |s'.pcs| == |s.pcs|
  {
    match s.pcs[i]
    case RStart => s.(lock := s.lock - 1, pcs := s.pcs[i := RLocked])
    case RLocked => s.(readers := s.readers + 1, pcs := s.pcs[i := RTesting])
    case RTesting => s.(pcs := s.pcs[i := if s.readers > 0 then RWaiting else REntered])
    case RWaiting => s.(sem := s.sem - 1, pcs := s.pcs[i := REntered])
    case REntered => s.(lock := s.lock + 1, pcs := s.pcs[i := RReading])
    case RReading => s.(lock := s.lock - 1, pcs := s.pcs[i := RLeaving])
    case RLeaving => s.(readers := s.readers - 1, pcs := s.pcs[i := RLeft])
    case RLeft => s.(pcs := s.pcs[i := if s.readers == 0 then RPosting else RUnlocking])
    case RPosting => s.(sem := s.sem + 1, pcs := s.pcs[i := RUnlocking])
    case RUnlocking => s.(lock := s.lock + 1, pcs := s.pcs[i := Done])
    case WStart => s.(pcs := s.pcs[i := WOpened])
    case WOpened => s.(sem := s.sem - 1, pcs := s.pcs[i := WWriting])
    case WWriting => s.(sem := s.sem + 1, pcs := s.pcs[i := Done])
  }

  /** A schedule names the thread that moves at each step. */
  ghost predicate CanRun(s: State, schedule: seq<nat>)
    decreases |schedule|
  {
    schedule != [] ==>
      schedule[0] < |s.pcs| && Enabled(s, schedule[0]) && CanRun(Next(s, schedule[0]), schedule[1..])
  }

  ghost function After(s: State, schedule: seq<nat>): State
    requires CanRun(s, schedule)
    decreases |schedule|
  {
    if schedule == [] then s else After(Next(s, schedule[0]), schedule[1..])
  }

  /** Any mix of readers and writers about to start, on semaphores of a given value. */
  ghost predicate Initial(s: State, value: nat) {
    && s.lock == s.sem == value && s.readers == 0
    && forall i :: 0 <= i < |s.pcs| ==> s.pcs[i] == RStart || s.pcs[i] == WStart
  }

  predicate AllDone(s: State) {
    forall i :: 0 <= i < |s.pcs| ==> s.pcs[i] == Done
  }

  // ---------- counting threads ----------

  function Count(pcs: seq<Pc>, p: Pc -> bool): (n: nat)
    ensures n <= |pcs|
  {
    if pcs == [] then 0 else (if p(pcs[0]) then 1 else 0) + Count(pcs[1..], p)
  }

  function One(b: bool): nat {
    if b then 1 else 0
  }

  lemma {:induction false} CountMove(pcs: seq<Pc>, i: nat, pc: Pc, p: Pc -> bool)
    requires i < |pcs|
    ensures Count(pcs[i := pc], p) == Count(pcs, p) - One(p(pcs[i])) + One(p(pc))
  {
    if i > 0 {
      CountMove(pcs[1..], i - 1, pc, p);
      assert pcs[i := pc][1..] == pcs[1..][i - 1 := pc];
    } else {
      assert pcs[0 := pc][1..] == pcs[1..];
    }
  }

  lemma {:induction false} CountNone(pcs: seq<Pc>, p: Pc -> bool)
    ensures Count(pcs, p) == 0 <==> forall i :: 0 <= i < |pcs| ==> !p(pcs[i])
  {
    if pcs != [] {
      CountNone(pcs[1..], p);
      assert forall i :: 1 <= i < |pcs| ==> pcs[i] == pcs[1..][i - 1];
    }
  }

  lemma {:induction false} CountTwo(pcs: seq<Pc>, p: Pc -> bool, i: nat, j: nat)
    requires i < j < |pcs| && p(pcs[i]) && p(pcs[j])
    ensures Count(pcs, p) >= 2
  {
    if i > 0 {
      CountTwo(pcs[1..], p, i - 1, j - 1);
    } else {
      CountNone(pcs[1..], p);
      assert pcs[1..][j - 1] == pcs[j];
    }
  }

  lemma {:induction false} CountBelow(pcs: seq<Pc>, p: Pc -> bool, q: Pc -> bool, r: Pc -> bool)
    requires forall pc :: p(pc) ==> q(pc) || r(pc)
    ensures Count(pcs, p) <= Count(pcs, q) + Count(pcs, r)
  {
    if pcs != [] {
      CountBelow(pcs[1..], p, q, r);
    }
  }

  lemma SomeThread(pcs: seq<Pc>, p: Pc -> bool) returns (i: nat)
    requires Count(pcs, p) > 0
    ensures i < |pcs| && p(pcs[i])
  {
    CountNone(pcs, p);
    i :| 0 <= i < |pcs| && p(pcs[i]);
  }

  // ---------- the invariant ----------

  /** Value plus holders is constant for both semaphores, and the count is exact. */
  ghost predicate Inv(s: State, value: nat) {
    && s.lock + Count(s.pcs, HoldsLock) == value
    && s.sem + Count(s.pcs, HoldsSem) == value
    && s.readers == Count(s.pcs, Counted)
  }

  lemma InitialInv(s: State, value: nat)
    requires Initial(s, value)
    ensures Inv(s, value)
  {
    CountNone(s.pcs, HoldsLock);
    CountNone(s.pcs, HoldsSem);
    CountNone(s.pcs, Counted);
  }

  /** With initial value at most 1, at most one thread holds either semaphore. */
  lemma OneHolder(s: State, value: nat, p: Pc -> bool, i: nat, j: nat)
    requires Inv(s, value) && value <= 1
    requires p == HoldsLock || p == HoldsSem
    requires i < |s.pcs| && j < |s.pcs| && p(s.pcs[i]) && p(s.pcs[j])
    ensures i == j
  {
    if i < j {
      CountTwo(s.pcs, p, i, j);
    } else if j < i {
      CountTwo(s.pcs, p, j, i);
    }
  }

  /** After the decrement the count is 0, so the file semaphore is always posted. */
  lemma DecrementReachesZero(s: State, value: nat, i: nat)
    requires Inv(s, value) && value <= 1
    requires i < |s.pcs| && s.pcs[i] == RLeft
    ensures s.readers == 0
  {
    forall j | 0 <= j < |s.pcs|
      ensures !Counted(s.pcs[j])
    {
      if HoldsLock(s.pcs[j]) {
        OneHolder(s, value, HoldsLock, i, j);
      } else if HoldsSem(s.pcs[j]) {
        OneHolder(s, value, HoldsSem, i, j);
      }
    }
    CountNone(s.pcs, Counted);
  }

  lemma StepInv(s: State, value: nat, i: nat)
    requires Inv(s, value) && value <= 1
    requires i < |s.pcs| && Enabled(s, i)
    ensures Inv(Next(s, i), value)
  {
    var pc := Next(s, i).pcs[i];
    assert Next(s, i).pcs == s.pcs[i := pc];
    CountMove(s.pcs, i, pc, HoldsLock);
    CountMove(s.pcs, i, pc, HoldsSem);
    CountMove(s.pcs, i, pc, Counted);
    if s.pcs[i] == RLeft {
      DecrementReachesZero(s, value, i);
    } else if s.pcs[i] == RTesting {
      CountNone(s.pcs, Counted);
    }
  }

  lemma {:induction false} RunInv(s: State, value: nat, schedule: seq<nat>)
    requires Inv(s, value) && value <= 1 && CanRun(s, schedule)
    ensures Inv(After(s, schedule), value)
    decreases |schedule|
  {
    if schedule != [] {
      StepInv(s, value, schedule[0]);
      RunInv(Next(s, schedule[0]), value, schedule[1..]);
    }
  }

  /** In every interleaving: value plus holders is 1, no two threads are ever between
      acquiring and releasing the file semaphore, and the count is 0, 1 or 2. */
  lemma Safety(s0: State, schedule: seq<nat>)
    requires Initial(s0, 1) && CanRun(s0, schedule)
    ensures var s := After(s0, schedule);
      && s.sem + Count(s.pcs, HoldsSem) == 1
      && s.lock + Count(s.pcs, HoldsLock) == 1
      && (forall i, j :: 0 <= i < j < |s.pcs| ==> !(HoldsSem(s.pcs[i]) && HoldsSem(s.pcs[j])))
      && 0 <= s.readers <= 2
      && (forall i :: 0 <= i < |s.pcs| && s.pcs[i] == RLeft ==> s.readers == 0)
  {
    InitialInv(s0, 1);
    RunInv(s0, 1, schedule);
    var s := After(s0, schedule);
    forall i, j | 0 <= i < j < |s.pcs|
      ensures !(HoldsSem(s.pcs[i]) && HoldsSem(s.pcs[j]))
    {
      if HoldsSem(s.pcs[i]) && HoldsSem(s.pcs[j]) {
        OneHolder(s, 1, HoldsSem, i, j);
      }
    }
    CountBelow(s.pcs, Counted, HoldsLock, HoldsSem);
    forall i | 0 <= i < |s.pcs| && s.pcs[i] == RLeft
      ensures s.readers == 0
    {
      DecrementReachesZero(s, 1, i);
    }
  }

  /** Before its first wait, or in it. */
  predicate Outside(pc: Pc) {
    pc in {RStart, WStart, WOpened}
  }

  lemma {:induction false} StayOutside(s: State, schedule: seq<nat>)
    requires s.lock == s.sem == 0 && CanRun(s, schedule)
    requires forall i :: 0 <= i < |s.pcs| ==> Outside(s.pcs[i])
    ensures var t := After(s, schedule);
      && |t.pcs| == |s.pcs|
      && forall i :: 0 <= i < |s.pcs| ==> Outside(t.pcs[i]) && (t.pcs[i] == RStart <==> s.pcs[i] == RStart)
    decreases |schedule|
  {
    if schedule != [] {
      StayOutside(Next(s, schedule[0]), schedule[1..]);
    }
  }

  /** On semaphores whose value is 0, which CREATE leaves for its files when static storage
      reads as 0, no thread ever gets past its first wait: a reader does not move at all, and
      a writer only empties the file. */
  lemma NeverInitialisedNeverEnters(s0: State, schedule: seq<nat>)
    requires Initial(s0, 0) && CanRun(s0, schedule)
    ensures var s := After(s0, schedule);
      && |s.pcs| == |s0.pcs|
      && (forall i :: 0 <= i < |s.pcs| ==> !HoldsLock(s.pcs[i]) && !HoldsSem(s.pcs[i]))
      && (forall i :: 0 <= i < |s.pcs| ==> if s0.pcs[i] == RStart then s.pcs[i] == RStart
                                           else s.pcs[i] == WStart || s.pcs[i] == WOpened)
  {
    StayOutside(s0, schedule);
  }

  // ---------- deadlock ----------

  /** A reader is on its way in while another is reading. */
  ghost predicate Doomed(s: State) {
    exists w, r :: 0 <= w < |s.pcs| && 0 <= r < |s.pcs| && Entering(s.pcs[w]) && s.pcs[r] == RReading
  }

  /** The two threads and what they block. */
  lemma DoomedBlocks(s: State, w: nat, r: nat)
    requires Inv(s, 1)
    requires w < |s.pcs| && r < |s.pcs| && Entering(s.pcs[w]) && s.pcs[r] == RReading
    ensures s.lock == 0 && s.sem == 0
    ensures forall i :: 0 <= i < |s.pcs| && HoldsLock(s.pcs[i]) ==> i == w
    ensures forall i :: 0 <= i < |s.pcs| && HoldsSem(s.pcs[i]) ==> i == r
  {
    CountNone(s.pcs, HoldsLock);
    CountNone(s.pcs, HoldsSem);
    forall i | 0 <= i < |s.pcs|
      ensures HoldsLock(s.pcs[i]) ==> i == w
      ensures HoldsSem(s.pcs[i]) ==> i == r
    {
      if HoldsLock(s.pcs[i]) {
        OneHolder(s, 1, HoldsLock, i, w);
      }
      if HoldsSem(s.pcs[i]) {
        OneHolder(s, 1, HoldsSem, i, r);
      }
    }
  }

  /** Once doomed, always doomed, by the same two threads. */
  lemma {:induction false} DoomedForever(s: State, w: nat, r: nat, schedule: seq<nat>)
    requires Inv(s, 1) && CanRun(s, schedule)
    requires w < |s.pcs| && r < |s.pcs| && Entering(s.pcs[w]) && s.pcs[r] == RReading
    ensures var t := After(s, schedule);
      |t.pcs| == |s.pcs| && Entering(t.pcs[w]) && t.pcs[r] == RReading
    decreases |schedule|
  {
    if schedule != [] {
      var i := schedule[0];
      DoomedBlocks(s, w, r);
      StepInv(s, 1, i);
      if s.pcs[w] == RTesting {
        CountNone(s.pcs, Counted);
      }
      DoomedForever(Next(s, i), w, r, schedule[1..]);
    }
  }

  /** When the count is 2, one reader is reading and one waits for it with the lock. */
  lemma TwoMeansWaiting(s: State) returns (w: nat, r: nat)
    requires Inv(s, 1) && s.readers == 2
    ensures w < |s.pcs| && r < |s.pcs| && Entering(s.pcs[w]) && s.pcs[w] != RLocked && s.pcs[r] == RReading
  {
    CountBelow(s.pcs, Counted, HoldsLock, HoldsSem);
    w := SomeThread(s.pcs, HoldsLock);
    r := SomeThread(s.pcs, HoldsSem);
    if !Counted(s.pcs[w]) || w == r || !Counted(s.pcs[r]) {
      CountedAtMost(s, w, r);
      assert false;
    }
    if HoldsLock(s.pcs[r]) {
      OneHolder(s, 1, HoldsLock, w, r);
    } else if HoldsSem(s.pcs[w]) {
      OneHolder(s, 1, HoldsSem, w, r);
    }
  }

  /** Every counted thread holds one of the semaphores. */
  lemma CountedAtMost(s: State, w: nat, r: nat)
    requires Inv(s, 1)
    requires w < |s.pcs| && r < |s.pcs| && HoldsLock(s.pcs[w]) && HoldsSem(s.pcs[r])
    requires !Counted(s.pcs[w]) || w == r || !Counted(s.pcs[r])
    ensures s.readers <= 1
  {
    var pcs := if Counted(s.pcs[w]) && w != r then s.pcs[w := Done] else s.pcs[r := Done];
    forall j | 0 <= j < |pcs|
      ensures !Counted(pcs[j])
    {
      if Counted(s.pcs[j]) {
        if HoldsLock(s.pcs[j]) {
          OneHolder(s, 1, HoldsLock, j, w);
        } else {
          OneHolder(s, 1, HoldsSem, j, r);
        }
      }
    }
    CountNone(pcs, Counted);
    CountMove(s.pcs, w, Done, Counted);
    CountMove(s.pcs, r, Done, Counted);
  }

  /** Once the count is 2, no thread enters or leaves the critical section again. */
  lemma WedgedForever(s: State, schedule: seq<nat>)
    requires Inv(s, 1) && s.readers == 2 && CanRun(s, schedule)
    ensures var t := After(s, schedule);
      && t.readers == 2 && |t.pcs| == |s.pcs|
      && (forall i :: 0 <= i < |s.pcs| ==> (HoldsSem(t.pcs[i]) <==> HoldsSem(s.pcs[i])))
      && (forall i :: 0 <= i < |s.pcs| ==> (t.pcs[i] == Done <==> s.pcs[i] == Done))
    decreases |schedule|
  {
    if schedule != [] {
      var i := schedule[0];
      var w, r := TwoMeansWaiting(s);
      DoomedBlocks(s, w, r);
      StepInv(s, 1, i);
      WedgedForever(Next(s, i), schedule[1..]);
    }
  }

  /** Short of 2, some thread can move until all are done. */
  lemma Progress(s: State) returns (i: nat)
    requires Inv(s, 1) && !AllDone(s) && s.readers <= 1
    ensures i < |s.pcs| && Enabled(s, i)
  {
    i :| 0 <= i < |s.pcs| && s.pcs[i] != Done;
    if s.lock > 0 {
      if !Enabled(s, i) {
        i := SomeThread(s.pcs, HoldsSem);
      }
    } else {
      i := SomeThread(s.pcs, HoldsLock);
      if !Enabled(s, i) {
        var r := SomeThread(s.pcs, HoldsSem);
        if s.pcs[r] == RReading {
          CountBothCounted(s.pcs, i, r);
          assert false;
        }
        i := r;
      }
    }
  }

  lemma CountBothCounted(pcs: seq<Pc>, w: nat, r: nat)
    requires w < |pcs| && r < |pcs| && w != r && Counted(pcs[w]) && Counted(pcs[r])
    ensures Count(pcs, Counted) >= 2
  {
    if w < r {
      CountTwo(pcs, Counted, w, r);
    } else {
      CountTwo(pcs, Counted, r, w);
    }
  }

  /** The states in which nothing can move: all done, or two readers and no writer that has
      yet to open the file. */
  lemma StuckExactly(s: State)
    requires Inv(s, 1)
    ensures (forall i :: 0 <= i < |s.pcs| ==> !Enabled(s, i))
            <==> AllDone(s) || (s.readers == 2 && forall i :: 0 <= i < |s.pcs| ==> s.pcs[i] !in {WStart, RTesting})
  {
    CountBelow(s.pcs, Counted, HoldsLock, HoldsSem);
    if s.readers <= 1 && !AllDone(s) {
      var i := Progress(s);
    } else if s.readers == 2 {
      var w, r := TwoMeansWaiting(s);
      DoomedBlocks(s, w, r);
      forall i | 0 <= i < |s.pcs|
        ensures Enabled(s, i) <==> s.pcs[i] in {WStart, RTesting}
      {
      }
      assert s.pcs[w] != Done;
    }
  }

  // ---------- who can finish ----------

  function Left(pc: Pc): nat {
    match pc
    case RStart => 10 case RLocked => 9 case RTesting => 8 case RWaiting => 7 case REntered => 6
    case RReading => 5 case RLeaving => 4 case RLeft => 3 case RPosting => 2 case RUnlocking => 1
    case WStart => 3 case WOpened => 2 case WWriting => 1 case Done => 0
  }

  function TotalLeft(pcs: seq<Pc>): nat {
    if pcs == [] then 0 else Left(pcs[0]) + TotalLeft(pcs[1..])
  }

  lemma {:induction false} TotalMove(pcs: seq<Pc>, i: nat, pc: Pc)
    requires i < |pcs|
    ensures TotalLeft(pcs[i := pc]) == TotalLeft(pcs) - Left(pcs[i]) + Left(pc)
  {
    if i > 0 {
      TotalMove(pcs[1..], i - 1, pc);
      assert pcs[i := pc][1..] == pcs[1..][i - 1 := pc];
    } else {
      assert pcs[0 := pc][1..] == pcs[1..];
    }
  }

  /** A move that does not doom the file: the reader inside goes first. */
  lemma SafeMove(s: State) returns (i: nat)
    requires Inv(s, 1) && !AllDone(s) && !Doomed(s)
    ensures i < |s.pcs| && Enabled(s, i) && !Doomed(Next(s, i))
  {
    CountBelow(s.pcs, Counted, HoldsLock, HoldsSem);
    if s.readers == 2 {
      var w, r := TwoMeansWaiting(s);
      assert Doomed(s);
    }
    if r :| 0 <= r < |s.pcs| && s.pcs[r] == RReading {
      if s.lock > 0 {
        i := r;
      } else {
        i := SomeThread(s.pcs, HoldsLock);
        assert !Entering(s.pcs[i]);
      }
    } else {
      i := Progress(s);
      if s.pcs[i] == REntered {
        forall w | 0 <= w < |s.pcs|
          ensures !Entering(Next(s, i).pcs[w])
        {
          if Entering(s.pcs[w]) {
            OneHolder(s, 1, HoldsLock, i, w);
          }
        }
      }
    }
  }

  lemma {:induction false} CanFinish(s: State) returns (schedule: seq<nat>)
    requires Inv(s, 1) && !Doomed(s)
    ensures CanRun(s, schedule) && AllDone(After(s, schedule))
    decreases TotalLeft(s.pcs)
  {
    if AllDone(s) {
      schedule := [];
    } else {
      var i := SafeMove(s);
      StepInv(s, 1, i);
      if s.pcs[i] == RTesting {
        CountNone(s.pcs, Counted);
      }
      TotalMove(s.pcs, i, Next(s, i).pcs[i]);
      var rest := CanFinish(Next(s, i));
      schedule := [i] + rest;
      assert schedule[1..] == rest;
    }
  }

  ghost predicate Completable(s: State) {
    exists schedule :: CanRun(s, schedule) && AllDone(After(s, schedule))
  }

  /** Some continuation finishes every thread iff no reader is on its way in while another
      is reading. */
  lemma CompletableExactly(s: State)
    requires Inv(s, 1)
    ensures Completable(s) <==> !Doomed(s)
  {
    if Doomed(s) {
      var w, r :| 0 <= w < |s.pcs| && 0 <= r < |s.pcs| && Entering(s.pcs[w]) && s.pcs[r] == RReading;
      forall schedule | CanRun(s, schedule)
        ensures !AllDone(After(s, schedule))
      {
        DoomedForever(s, w, r, schedule);
      }
    } else {
      var schedule := CanFinish(s);
    }
  }

  // ---------- the accept loop ----------

  /** Each worker is joined before the next request is taken up. */
  ghost predicate Serial(s: State, schedule: seq<nat>)
    requires CanRun(s, schedule)
    decreases |schedule|
  {
    schedule != [] ==>
      && (forall j :: 0 <= j < schedule[0] ==> s.pcs[j] == Done)
      && Serial(Next(s, schedule[0]), schedule[1..])
  }

  /** A thread has moved only if all before it are done. */
  ghost predicate InTurn(s: State) {
    forall i, j :: 0 <= i < j < |s.pcs| ==> s.pcs[i] == Done || s.pcs[j] == RStart || s.pcs[j] == WStart
  }

  lemma {:induction false} RunInTurn(s: State, schedule: seq<nat>)
    requires InTurn(s) && CanRun(s, schedule) && Serial(s, schedule)
    ensures InTurn(After(s, schedule))
    decreases |schedule|
  {
    if schedule != [] {
      RunInTurn(Next(s, schedule[0]), schedule[1..]);
    }
  }

  /** Driven by that loop, the count never reaches 2, and the worker whose turn it is can
      always move. */
  lemma SerialNeverWedges(s0: State, schedule: seq<nat>)
    requires Initial(s0, 1) && CanRun(s0, schedule) && Serial(s0, schedule)
    ensures var s := After(s0, schedule);
      && s.readers <= 1 && !Doomed(s)
      && (!AllDone(s) ==> exists i :: 0 <= i < |s.pcs| && Enabled(s, i) && forall j :: 0 <= j < i ==> s.pcs[j] == Done)
  {
    InitialInv(s0, 1);
    RunInv(s0, 1, schedule);
    RunInTurn(s0, schedule);
    var s := After(s0, schedule);
    if s.readers >= 2 {
      CountBelow(s.pcs, Counted, HoldsLock, HoldsSem);
      var w, r := TwoMeansWaiting(s);
      assert false;
    }
    if !AllDone(s) {
      var i := FirstLeft(s.pcs);
      TurnCanMove(s, i);
    }
  }

  /** Every move brings some thread closer to its end. */
  lemma {:induction false} RunsEnd(s: State, schedule: seq<nat>)
    requires CanRun(s, schedule)
    ensures |schedule| + TotalLeft(After(s, schedule).pcs) <= TotalLeft(s.pcs)
    decreases |schedule|
  {
    if schedule != [] {
      var i := schedule[0];
      TotalMove(s.pcs, i, Next(s, i).pcs[i]);
      RunsEnd(Next(s, i), schedule[1..]);
    }
  }

  /** So the accept loop serves every request: it cannot go on for ever, and once the worker
      whose turn it is cannot move, there is none left. */
  lemma SerialServesAll(s0: State, schedule: seq<nat>)
    requires Initial(s0, 1) && CanRun(s0, schedule) && Serial(s0, schedule)
    ensures |schedule| <= TotalLeft(s0.pcs)
    ensures var s := After(s0, schedule);
      (forall i :: 0 <= i < |s.pcs| && Enabled(s, i) ==> exists j :: 0 <= j < i && s.pcs[j] != Done) <==> AllDone(s)
  {
    RunsEnd(s0, schedule);
    SerialNeverWedges(s0, schedule);
  }

  lemma TurnCanMove(s: State, i: nat)
    requires Inv(s, 1) && InTurn(s)
    requires i < |s.pcs| && s.pcs[i] != Done && forall j :: 0 <= j < i ==> s.pcs[j] == Done
    ensures Enabled(s, i)
  {
    assert forall j :: 0 <= j < |s.pcs| && j != i ==> !HoldsLock(s.pcs[j]) && !HoldsSem(s.pcs[j]);
    CountNone(s.pcs, HoldsLock);
    CountNone(s.pcs, HoldsSem);
  }

  lemma {:induction false} FirstLeft(pcs: seq<Pc>) returns (i: nat)
    requires exists j :: 0 <= j < |pcs| && pcs[j] != Done
    ensures i < |pcs| && pcs[i] != Done && forall j :: 0 <= j < i ==> pcs[j] == Done
  {
    if pcs[0] != Done {
      i := 0;
    } else {
      assert exists j :: 0 <= j < |pcs[1..]| && pcs[1..][j] != Done by {
        var j :| 0 <= j < |pcs| && pcs[j] != Done;
        assert pcs[1..][j - 1] != Done;
      }
      i := FirstLeft(pcs[1..]);
      assert forall j :: 1 <= j <= i ==> pcs[j] == pcs[1..][j - 1];
      i := i + 1;
    }
  }

  // ---------- what a set of requests can come to ----------

  predicate IsWriter(pc: Pc) {
    pc in {WStart, WOpened, WWriting}
  }

  predicate IsReader(pc: Pc) {
    pc != Done && !IsWriter(pc)
  }

  /** A thread keeps its kind until it is done. */
  lemma {:induction false} KindKept(s: State, schedule: seq<nat>, i: nat)
    requires CanRun(s, schedule) && i < |s.pcs|
    ensures |After(s, schedule).pcs| == |s.pcs|
    ensures IsReader(After(s, schedule).pcs[i]) ==> IsReader(s.pcs[i])
    ensures IsWriter(After(s, schedule).pcs[i]) ==> IsWriter(s.pcs[i])
    decreases |schedule|
  {
    if schedule != [] {
      KindKept(Next(s, schedule[0]), schedule[1..], i);
    }
  }

  lemma RunsOneMore(s: State, i: nat, rest: seq<nat>)
    requires i < |s.pcs| && Enabled(s, i) && CanRun(Next(s, i), rest)
    ensures CanRun(s, [i] + rest) && After(s, [i] + rest) == After(Next(s, i), rest)
  {
    assert ([i] + rest)[1..] == rest;
  }

  /** On its own, any reader gets from its start into the critical section, whatever
      follows from there. */
  lemma ReaderGetsIn(s: State, r: nat, rest: seq<nat>) returns (schedule: seq<nat>)
    requires s.lock == s.sem == 1 && s.readers == 0
    requires r < |s.pcs| && s.pcs[r] == RStart
    requires CanRun(State(1, 0, 1, s.pcs[r := RReading]), rest)
    ensures CanRun(s, schedule) && After(s, schedule) == After(State(1, 0, 1, s.pcs[r := RReading]), rest)
  {
    var s1 := Next(s, r);
    var s2 := Next(s1, r);
    var s3 := Next(s2, r);
    var s4 := Next(s3, r);
    assert Next(s4, r) == State(1, 0, 1, s.pcs[r := RReading]);
    hide Next, Enabled;
    RunsOneMore(s4, r, rest);
    RunsOneMore(s3, r, [r] + rest);
    RunsOneMore(s2, r, [r] + ([r] + rest));
    RunsOneMore(s1, r, [r] + ([r] + ([r] + rest)));
    RunsOneMore(s, r, [r] + ([r] + ([r] + ([r] + rest))));
    schedule := [r] + ([r] + ([r] + ([r] + ([r] + rest))));
  }

  /** Some interleaving lets a thread of these requests into the critical section as a
      reader iff there is a reader and the semaphores were initialised. */
  lemma EnterableExactly(s0: State, value: nat)
    requires Initial(s0, value) && value <= 1
    ensures (exists schedule :: CanRun(s0, schedule) && RReading in After(s0, schedule).pcs)
            <==> value == 1 && RStart in s0.pcs
  {
    forall schedule | CanRun(s0, schedule) && RReading in After(s0, schedule).pcs
      ensures value == 1 && RStart in s0.pcs
    {
      var s := After(s0, schedule);
      var r :| 0 <= r < |s.pcs| && s.pcs[r] == RReading;
      InitialInv(s0, value);
      RunInv(s0, value, schedule);
      CountNone(s.pcs, HoldsSem);
      KindKept(s0, schedule, 0);
      KindKept(s0, schedule, r);
      assert s0.pcs[r] == RStart;
    }
    if value == 1 && RStart in s0.pcs {
      var r :| 0 <= r < |s0.pcs| && s0.pcs[r] == RStart;
      assert State(1, 0, 1, s0.pcs[r := RReading]).pcs[r] == RReading;
      var schedule := ReaderGetsIn(s0, r, []);
    }
  }

  /** A writer is about to empty the file, for which it does not wait, while a reader is in
      its critical section. */
  ghost predicate Truncates(s: State) {
    exists w, r :: 0 <= w < |s.pcs| && 0 <= r < |s.pcs| && s.pcs[w] == WStart && s.pcs[r] == RReading
  }

  /** Some interleaving empties the file under a reader iff a reader and a writer overlap
      at all. */
  lemma TruncationExactly(s0: State)
    requires Initial(s0, 1)
    ensures (exists schedule :: CanRun(s0, schedule) && Truncates(After(s0, schedule)))
            <==> RStart in s0.pcs && WStart in s0.pcs
  {
    forall schedule | CanRun(s0, schedule) && Truncates(After(s0, schedule))
      ensures RStart in s0.pcs && WStart in s0.pcs
    {
      var s := After(s0, schedule);
      var w, r :| 0 <= w < |s.pcs| && 0 <= r < |s.pcs| && s.pcs[w] == WStart && s.pcs[r] == RReading;
      KindKept(s0, schedule, 0);
      KindKept(s0, schedule, w);
      KindKept(s0, schedule, r);
      assert s0.pcs[w] == WStart && s0.pcs[r] == RStart;
    }
    if RStart in s0.pcs && WStart in s0.pcs {
      var r :| 0 <= r < |s0.pcs| && s0.pcs[r] == RStart;
      var w :| 0 <= w < |s0.pcs| && s0.pcs[w] == WStart;
      var s := State(1, 0, 1, s0.pcs[r := RReading]);
      assert s.pcs[w] == WStart && s.pcs[r] == RReading;
      var schedule := ReaderGetsIn(s0, r, []);
    }
  }

  /** Driven by the accept loop, no reader is in its critical section when a writer's turn
      to open the file has come. */
  lemma SerialNeverTruncates(s0: State, schedule: seq<nat>, w: nat)
    requires Initial(s0, 1) && CanRun(s0, schedule) && Serial(s0, schedule)
    requires var s := After(s0, schedule);
             w < |s.pcs| && s.pcs[w] == WStart && forall j :: 0 <= j < w ==> s.pcs[j] == Done
    ensures RReading !in After(s0, schedule).pcs
  {
    RunInTurn(s0, schedule);
  }

  ghost predicate TwoReaders(s0: State) {
    exists i, j :: 0 <= i < j < |s0.pcs| && s0.pcs[i] == s0.pcs[j] == RStart
  }

  lemma DoomTakesTwo(s0: State, schedule: seq<nat>)
    requires Initial(s0, 1) && CanRun(s0, schedule) && Doomed(After(s0, schedule))
    ensures TwoReaders(s0)
  {
    var s := After(s0, schedule);
    var w, r :| 0 <= w < |s.pcs| && 0 <= r < |s.pcs| && Entering(s.pcs[w]) && s.pcs[r] == RReading;
    KindKept(s0, schedule, 0);
    KindKept(s0, schedule, w);
    KindKept(s0, schedule, r);
    hide CanRun, After;
    var i, j := if w < r then w else r, if w < r then r else w;
    assert s0.pcs[i] == s0.pcs[j] == RStart;
  }

  lemma TwoCanDoom(s0: State, i: nat, j: nat) returns (schedule: seq<nat>)
    requires Initial(s0, 1)
    requires i < j < |s0.pcs| && s0.pcs[i] == s0.pcs[j] == RStart
    ensures CanRun(s0, schedule) && Doomed(After(s0, schedule))
  {
    var s := State(1, 0, 1, s0.pcs[i := RReading]);
    var t := Next(s, j);
    assert Entering(t.pcs[j]) && t.pcs[i] == RReading;
    assert CanRun(t, []) && After(t, []) == t;
    assert Enabled(s, j);
    hide Next, Enabled, CanRun, After;
    RunsOneMore(s, j, []);
    schedule := ReaderGetsIn(s0, i, [j] + []);
  }

  /** Some interleaving blocks the file for good iff at least two readers overlap. */
  lemma WedgeExactly(s0: State)
    requires Initial(s0, 1)
    ensures (exists schedule :: CanRun(s0, schedule) && Doomed(After(s0, schedule))) <==> TwoReaders(s0)
  {
    forall schedule | CanRun(s0, schedule) && Doomed(After(s0, schedule))
      ensures TwoReaders(s0)
    {
      DoomTakesTwo(s0, schedule);
    }
    if TwoReaders(s0) {
      var i, j :| 0 <= i < j < |s0.pcs| && s0.pcs[i] == s0.pcs[j] == RStart;
      var schedule := TwoCanDoom(s0, i, j);
    }
  }

  /** The smallest such requests: a reader and a writer, and two readers. */
  lemma SmallestOverlaps()
    ensures var a := State(1, 1, 0, [RStart, WStart]);
            exists schedule :: CanRun(a, schedule) && Truncates(After(a, schedule))
    ensures var b := State(1, 1, 0, [RStart, RStart]);
            exists schedule :: CanRun(b, schedule) && Doomed(After(b, schedule))
  {
    var a, b := State(1, 1, 0, [RStart, WStart]), State(1, 1, 0, [RStart, RStart]);
    assert a.pcs[0] == RStart && a.pcs[1] == WStart;
    TruncationExactly(a);
    assert b.pcs[0] == b.pcs[1] == RStart;
    WedgeExactly(b);
  }
}
