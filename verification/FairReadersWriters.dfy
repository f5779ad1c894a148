/** The readers-writers solution in which a writer collects all the permits of one semaphore. */
module FairReadersWriters {
  import opened Sums

  datatype Pc =
    // the reader's loop
    | ReadP             // P(sem)
    | Reading           // critical section, then V(sem)
    // the writer's loop
    | WriteP            // P(wmutex)
    | Acquire(i: nat)   // for (i = 0; i < N; i++) P(sem), then V(wmutex)
    | Writing           // critical section
    | Release(i: nat)   // for (i = 0; i < N; i++) V(sem)

  /** n is the number of permits, the constant N of the program. */
  datatype State = State(n: nat, sem: nat, wmutex: nat, pcs: seq<Pc>)

  ghost predicate Init(s: State) {
    && s.n > 0 && s.sem == s.n && s.wmutex == 1
    && forall t :: 0 <= t < |s.pcs| ==> s.pcs[t] == ReadP || s.pcs[t] == WriteP
  }

  predicate Enabled(s: State, t: int) {
    && 0 <= t < |s.pcs|
    && match s.pcs[t]
       case ReadP => s.sem > 0
       case WriteP => s.wmutex > 0
       case Acquire(i) => i < s.n ==> s.sem > 0
       case _ => true
  }

  function Do(s: State, t: int): State
    requires Enabled(s, t)
  {
    match s.pcs[t]
    case ReadP => Move(s, t, Reading).(sem := s.sem - 1)
    case Reading => Move(s, t, ReadP).(sem := s.sem + 1)
    case WriteP => Move(s, t, Acquire(0)).(wmutex := s.wmutex - 1)
    case Acquire(i) =>
      if i < s.n then Move(s, t, Acquire(i + 1)).(sem := s.sem - 1)
      else Move(s, t, Writing).(wmutex := s.wmutex + 1)
    case Writing => Move(s, t, Release(0))
    case Release(i) =>
      if i < s.n then Move(s, t, Release(i + 1)).(sem := s.sem + 1)
      else Move(s, t, WriteP)
  }

  function Move(s: State, t: int, pc: Pc): State
    requires 0 <= t < |s.pcs|
  {
    s.(pcs := s.pcs[t := pc])
  }

  ghost predicate Next(s: State, s': State) {
    exists t :: Enabled(s, t) && s' == Do(s, t)
  }

  ghost predicate IsRun(run: seq<State>) {
    && |run| > 0 && Init(run[0])
    && forall i :: 0 <= i < |run| - 1 ==> Next(run[i], run[i + 1])
  }

  /** The permits a thread holds. */
  function HeldBy(n: nat, pc: Pc): nat {
    match pc
    case ReadP => 0
    case Reading => 1
    case WriteP => 0
    case Acquire(i) => i
    case Writing => n
    case Release(i) => if i <= n then n - i else 0
  }
  function Held(n: nat): Pc -> nat {
    (pc: Pc) => HeldBy(n, pc)
  }
  /** The permits held by writers, whole or in part. */
  function HeldByWriter(n: nat): Pc -> nat {
    (pc: Pc) => if pc.Reading? then 0 else HeldBy(n, pc)
  }
  function Acquiring(pc: Pc): nat { if pc.Acquire? then 1 else 0 }
  function InReading(pc: Pc): nat { if pc.Reading? then 1 else 0 }

  ghost predicate Inv(s: State) {
    && s.n > 0
    && s.sem + Sum(s.pcs, Held(s.n)) == s.n
    && s.wmutex + Sum(s.pcs, Acquiring) == 1
    && forall t :: 0 <= t < |s.pcs| ==>
         (s.pcs[t].Acquire? || s.pcs[t].Release?) ==> s.pcs[t].i <= s.n
  }

  lemma InitInv(s: State)
    requires Init(s)
    ensures Inv(s)
  {
    SumZero(s.pcs, Held(s.n));
    SumZero(s.pcs, Acquiring);
  }

  lemma MoveThread(s: State, t: nat, pc: Pc)
    requires t < |s.pcs|
    ensures Sum(s.pcs[t := pc], Held(s.n)) + HeldBy(s.n, s.pcs[t]) == Sum(s.pcs, Held(s.n)) + HeldBy(s.n, pc)
    ensures Sum(s.pcs[t := pc], Acquiring) + Acquiring(s.pcs[t]) == Sum(s.pcs, Acquiring) + Acquiring(pc)
    ensures HeldBy(s.n, s.pcs[t]) <= Sum(s.pcs, Held(s.n)) && Acquiring(s.pcs[t]) <= Sum(s.pcs, Acquiring)
  {
    SumUpdate(s.pcs, t, pc, Held(s.n));
    SumUpdate(s.pcs, t, pc, Acquiring);
    SumMember(s.pcs, t, Held(s.n));
    SumMember(s.pcs, t, Acquiring);
  }

  lemma InvDo(s: State, t: nat)
    requires Inv(s) && Enabled(s, t)
    ensures Inv(Do(s, t))
  {
    var s' := Do(s, t);
    var pc := s'.pcs[t];
    assert s'.n == s.n && s'.pcs == s.pcs[t := pc];
    MoveThread(s, t, pc);
    assert s'.sem + HeldBy(s.n, pc) == s.sem + HeldBy(s.n, s.pcs[t]);
    assert s'.wmutex + Acquiring(pc) == s.wmutex + Acquiring(s.pcs[t]);
  }

  lemma InvNext(s: State, s': State)
    requires Inv(s) && Next(s, s')
    ensures Inv(s')
  {
    var t :| Enabled(s, t) && s' == Do(s, t);
    InvDo(s, t);
  }

  lemma {:induction false} Reachable(run: seq<State>)
    requires IsRun(run)
    ensures Inv(run[|run| - 1])
  {
    if |run| == 1 {
      InitInv(run[0]);
    } else {
      var before := run[..|run| - 1];
      Reachable(before);
      InvNext(before[|before| - 1], run[|run| - 1]);
    }
  }

  lemma {:induction false} SplitHeld(pcs: seq<Pc>, n: nat)
    ensures Sum(pcs, Held(n)) == Sum(pcs, InReading) + Sum(pcs, HeldByWriter(n))
  {
    if pcs != [] { SplitHeld(pcs[1..], n); }
  }

  /** Permits are conserved: free ones, one per reader inside, and those writers hold make n. */
  lemma Permits(run: seq<State>)
    requires IsRun(run)
    ensures var s := run[|run| - 1];
      s.sem + Sum(s.pcs, InReading) + Sum(s.pcs, HeldByWriter(s.n)) == s.n
  {
    Reachable(run);
    SplitHeld(run[|run| - 1].pcs, run[|run| - 1].n);
  }

  /** A writer in its critical section is there alone, and no other thread holds a permit. */
  lemma WriterExcludes(run: seq<State>, i: nat, j: nat)
    requires IsRun(run)
    requires i < |run[|run| - 1].pcs| && j < |run[|run| - 1].pcs| && i != j
    requires run[|run| - 1].pcs[i].Writing?
    ensures var s := run[|run| - 1];
      && !s.pcs[j].Writing? && !s.pcs[j].Reading?
      && s.sem == 0 && HeldBy(s.n, s.pcs[j]) == 0
  {
    var s := run[|run| - 1];
    Reachable(run);
    if i < j { SumTwoMembers(s.pcs, i, j, Held(s.n)); } else { SumTwoMembers(s.pcs, j, i, Held(s.n)); }
  }

  /** At most one writer is collecting permits, whatever the releasing writers do. */
  lemma OneAcquirer(run: seq<State>, i: nat, j: nat)
    requires IsRun(run)
    requires i < |run[|run| - 1].pcs| && j < |run[|run| - 1].pcs|
    requires run[|run| - 1].pcs[i].Acquire? && run[|run| - 1].pcs[j].Acquire?
    ensures i == j
  {
    var s := run[|run| - 1];
    Reachable(run);
    if i < j { SumTwoMembers(s.pcs, i, j, Acquiring); }
    if j < i { SumTwoMembers(s.pcs, j, i, Acquiring); }
  }

  ghost predicate Deadlocked(s: State) {
    forall t :: !Enabled(s, t)
  }

  lemma SomeEnabled(s: State) returns (t: nat)
    requires Inv(s) && s.pcs != []
    ensures Enabled(s, t)
  {
    if s.sem > 0 {
      t := 0;
      if !Enabled(s, 0) {
        t := SumWitness(s.pcs, Acquiring);
      }
    } else {
      t := SumWitness(s.pcs, Held(s.n));
      if !Enabled(s, t) {
        // t is the acquirer and lacks a permit, so another thread holds one and can move.
        var h := t;
        MoveThread(s, h, WriteP);
        t := SumWitness(s.pcs[h := WriteP], Held(s.n));
        if s.pcs[t].Acquire? {
          if t < h { SumTwoMembers(s.pcs, t, h, Acquiring); } else { SumTwoMembers(s.pcs, h, t, Acquiring); }
        }
      }
    }
  }

  /** No deadlock, although writers collect their permits one at a time. */
  lemma NoDeadlock(run: seq<State>)
    requires IsRun(run) && run[|run| - 1].pcs != []
    ensures !Deadlocked(run[|run| - 1])
  {
    Reachable(run);
    var t := SomeEnabled(run[|run| - 1]);
  }

  /** n readers at once is the most there can be, and no writer holds a permit then; nobody writes
      while anybody reads. */
  lemma AtMostNReaders(run: seq<State>)
    requires IsRun(run)
    ensures var s := run[|run| - 1];
      var readers := Sum(s.pcs, InReading);
      && readers <= s.n
      && (readers == s.n ==> s.sem == 0 && forall t :: 0 <= t < |s.pcs| && !s.pcs[t].Reading? ==> HeldBy(s.n, s.pcs[t]) == 0)
      && (readers > 0 ==> forall t :: 0 <= t < |s.pcs| ==> !s.pcs[t].Writing?)
  {
    Permits(run);
    Reachable(run);
    var s := run[|run| - 1];
    forall t | 0 <= t < |s.pcs| && !s.pcs[t].Reading?
      ensures HeldBy(s.n, s.pcs[t]) <= Sum(s.pcs, HeldByWriter(s.n))
    {
      SumMember(s.pcs, t, HeldByWriter(s.n));
    }
  }

  // ----- What one thread does when nobody interrupts it -----

  /** Thread t takes the state from s to s' in k steps of its own. */
  ghost predicate RunsAlone(s: State, s': State, t: int, k: nat)
    decreases k
  {
    if k == 0 then s' == s else Enabled(s, t) && RunsAlone(Do(s, t), s', t, k - 1)
  }

  lemma {:induction false} RunsOn(s: State, s1: State, s2: State, t: int, j: nat, k: nat)
    requires RunsAlone(s, s1, t, j) && RunsAlone(s1, s2, t, k)
    ensures RunsAlone(s, s2, t, j + k)
    decreases j
  {
    if j > 0 { RunsOn(Do(s, t), s1, s2, t, j - 1, k); }
  }

  lemma OneStep(s: State, t: int)
    requires Enabled(s, t)
    ensures RunsAlone(s, Do(s, t), t, 1)
  {
    assert RunsAlone(Do(s, t), Do(s, t), t, 0);
  }

  /** State s with thread t at pc and sem changed. */
  function At(s: State, t: int, pc: Pc, sem: nat): State
    requires 0 <= t < |s.pcs|
  {
    Move(s, t, pc).(sem := sem)
  }

  lemma AtAgain(s: State, t: int, pc: Pc, sem: nat, pc': Pc, sem': nat)
    requires 0 <= t < |s.pcs|
    ensures At(At(s, t, pc, sem), t, pc', sem') == At(s, t, pc', sem')
  {
    assert s.pcs[t := pc][t := pc'] == s.pcs[t := pc'];
  }

  /** The rest of the acquiring loop. */
  lemma {:induction false} Collects(s: State, t: nat, i: nat)
    requires t < |s.pcs| && s.pcs[t] == Acquire(i) && i <= s.n && s.n - i <= s.sem
    ensures RunsAlone(s, At(s, t, Acquire(s.n), s.sem - (s.n - i)), t, s.n - i)
    decreases s.n - i
  {
    if i == s.n {
      assert s.pcs[t := Acquire(i)] == s.pcs;
    } else {
      var s1 := Do(s, t);
      assert s1 == At(s, t, Acquire(i + 1), s.sem - 1);
      Collects(s1, t, i + 1);
      AtAgain(s, t, Acquire(i + 1), s.sem - 1, Acquire(s.n), s.sem - (s.n - i));
    }
  }

  /** The rest of the releasing loop. */
  lemma {:induction false} GivesBack(s: State, t: nat, i: nat)
    requires t < |s.pcs| && s.pcs[t] == Release(i) && i <= s.n
    ensures RunsAlone(s, At(s, t, Release(s.n), s.sem + (s.n - i)), t, s.n - i)
    decreases s.n - i
  {
    if i == s.n {
      assert s.pcs[t := Release(i)] == s.pcs;
    } else {
      var s1 := Do(s, t);
      assert s1 == At(s, t, Release(i + 1), s.sem + 1);
      GivesBack(s1, t, i + 1);
      AtAgain(s, t, Release(i + 1), s.sem + 1, Release(s.n), s.sem + (s.n - i));
    }
  }

  /** A writer that finds all the permits free gets them all and enters its critical section. */
  lemma WriterEnters(s: State, t: nat)
    requires t < |s.pcs| && s.pcs[t] == WriteP && s.wmutex > 0 && s.sem == s.n
    ensures RunsAlone(s, At(s, t, Writing, 0), t, s.n + 2)
  {
    var s1 := Do(s, t);
    var s2 := At(s1, t, Acquire(s.n), 0);
    OneStep(s, t);
    Collects(s1, t, 0);
    RunsOn(s, s1, s2, t, 1, s.n);
    OneStep(s2, t);
    RunsOn(s, s2, Do(s2, t), t, 1 + s.n, 1);
    assert s.pcs[t := Acquire(0)][t := Acquire(s.n)][t := Writing] == s.pcs[t := Writing];
  }

  /** And leaves it with all of them free again. */
  lemma WriterLeaves(s: State, t: nat)
    requires t < |s.pcs| && s.pcs[t] == Writing
    ensures RunsAlone(s, At(s, t, WriteP, s.sem + s.n), t, s.n + 2)
  {
    var s1 := Do(s, t);
    var s2 := At(s1, t, Release(s.n), s.sem + s.n);
    OneStep(s, t);
    GivesBack(s1, t, 0);
    RunsOn(s, s1, s2, t, 1, s.n);
    OneStep(s2, t);
    RunsOn(s, s2, Do(s2, t), t, 1 + s.n, 1);
    assert s.pcs[t := Release(0)][t := Release(s.n)][t := WriteP] == s.pcs[t := WriteP];
  }

  /** A reader needs one free permit to enter, and gives it back. */
  lemma ReaderEntersAndLeaves(s: State, t: nat)
    requires t < |s.pcs|
    ensures s.pcs[t] == ReadP && s.sem > 0 ==> RunsAlone(s, At(s, t, Reading, s.sem - 1), t, 1)
    ensures s.pcs[t] == Reading ==> RunsAlone(s, At(s, t, ReadP, s.sem + 1), t, 1)
  {
    if Enabled(s, t) { OneStep(s, t); }
  }
}
