/** The two readers-writers solutions that count their readers. They differ only in the writers'
    gate wg, so one step system with the flag `gated` covers both. */
module CountedReadersWriters {
  import opened Sums

  datatype Pc =
    // the reader's loop
    | EnterP                     // P(mutex)
    | IncLoad | IncStore(v: int) // readcnt++
    | TestFirst                  // if (readcnt == 1)
    | FirstPw                    // P(w)
    | EnterV                     // V(mutex)
    | Reading                    // critical section, then P(mutex)
    | DecLoad | DecStore(v: int) // readcnt--
    | TestLast                   // if (readcnt == 0)
    | LastVw                     // V(w)
    | LeaveV                     // V(mutex)
    // the writer's loop
    | GateP                      // P(wg), gated only
    | WriteP                     // P(w)
    | Writing                    // critical section, then V(w)
    | GateV                      // V(wg), gated only

  datatype State = State(gated: bool, readcnt: int, mutex: nat, w: nat, wg: nat, pcs: seq<Pc>)

  ghost predicate Init(s: State) {
    && s.readcnt == 0 && s.mutex == 1 && s.w == 1 && s.wg == 1
    && forall t :: 0 <= t < |s.pcs| ==> s.pcs[t] == EnterP || s.pcs[t] == WriterStart(s.gated)
  }

  function WriterStart(gated: bool): Pc {
    if gated then GateP else WriteP
  }

  predicate Enabled(s: State, t: int) {
    && 0 <= t < |s.pcs|
    && match s.pcs[t]
       case EnterP => s.mutex > 0
       case Reading => s.mutex > 0
       case FirstPw => s.w > 0
       case WriteP => s.w > 0
       case GateP => s.wg > 0
       case _ => true
  }

  function Do(s: State, t: int): State
    requires Enabled(s, t)
  {
    match s.pcs[t]
    case EnterP => Move(s, t, IncLoad).(mutex := s.mutex - 1)
    case IncLoad => Move(s, t, IncStore(s.readcnt + 1))
    case IncStore(v) => Move(s, t, TestFirst).(readcnt := v)
    case TestFirst => Move(s, t, if s.readcnt == 1 then FirstPw else EnterV)
    case FirstPw => Move(s, t, EnterV).(w := s.w - 1)
    case EnterV => Move(s, t, Reading).(mutex := s.mutex + 1)
    case Reading => Move(s, t, DecLoad).(mutex := s.mutex - 1)
    case DecLoad => Move(s, t, DecStore(s.readcnt - 1))
    case DecStore(v) => Move(s, t, TestLast).(readcnt := v)
    case TestLast => Move(s, t, if s.readcnt == 0 then LastVw else LeaveV)
    case LastVw => Move(s, t, LeaveV).(w := s.w + 1)
    case LeaveV => Move(s, t, EnterP).(mutex := s.mutex + 1)
    case GateP => Move(s, t, WriteP).(wg := s.wg - 1)
    case WriteP => Move(s, t, Writing).(w := s.w - 1)
    case Writing => Move(s, t, if s.gated then GateV else WriteP).(w := s.w + 1)
    case GateV => Move(s, t, GateP).(wg := s.wg + 1)
  }

  function Move(s: State, t: int, pc: Pc): State
    requires 0 <= t < |s.pcs|
  {
    s.(pcs := s.pcs[t := pc])
  }

  ghost predicate Next(s: State, s': State) {
    exists t :: Enabled(s, t) && s' == Do(s, t)
  }

  ghost predicate IsRun(run: seq<State>) {
    && |run| > 0 && Init(run[0])
    && forall i :: 0 <= i < |run| - 1 ==> Next(run[i], run[i + 1])
  }

  // Thread groups, as 0/1 weights.
  function InMutex(pc: Pc): nat {
    if pc.EnterP? || pc.Reading? || pc.GateP? || pc.WriteP? || pc.Writing? || pc.GateV? then 0 else 1
  }
  /** Readers counted in readcnt that do not share w yet. */
  function Arriving(pc: Pc): nat {
    if pc.TestFirst? || pc.FirstPw? then 1 else 0
  }
  /** Readers counted in readcnt that share w. */
  function Inside(pc: Pc): nat {
    if pc.EnterV? || pc.Reading? || pc.DecLoad? || pc.DecStore? then 1 else 0
  }
  /** Readers no longer counted that still share w. */
  function Leaving(pc: Pc): nat {
    if pc.TestLast? || pc.LastVw? then 1 else 0
  }
  function InWriting(pc: Pc): nat { if pc.Writing? then 1 else 0 }
  function PastGate(pc: Pc): nat { if pc.WriteP? || pc.Writing? || pc.GateV? then 1 else 0 }

  /** How many threads are in each group. */
  datatype Tally = Tally(inMutex: nat, arriving: nat, inside: nat, leaving: nat, writing: nat, pastGate: nat)

  ghost function TallyOf(pcs: seq<Pc>): Tally {
    Tally(Sum(pcs, InMutex), Sum(pcs, Arriving), Sum(pcs, Inside), Sum(pcs, Leaving),
          Sum(pcs, InWriting), Sum(pcs, PastGate))
  }

  /** One thread left program point a for b. */
  ghost predicate Shifted(c: Tally, c': Tally, a: Pc, b: Pc) {
    && c'.inMutex + InMutex(a) == c.inMutex + InMutex(b)
    && c'.arriving + Arriving(a) == c.arriving + Arriving(b)
    && c'.inside + Inside(a) == c.inside + Inside(b)
    && c'.leaving + Leaving(a) == c.leaving + Leaving(b)
    && c'.writing + InWriting(a) == c.writing + InWriting(b)
    && c'.pastGate + PastGate(a) == c.pastGate + PastGate(b)
  }

  /** The count and the semaphores, given the tally: the readers hold w as a group. */
  ghost predicate Balanced(s: State, c: Tally) {
    && s.mutex + c.inMutex == 1
    && s.readcnt == c.arriving + c.inside
    && s.w + c.writing + (if c.inside + c.leaving > 0 then 1 else 0) == 1
    && (s.gated ==> s.wg + c.pastGate == 1)
  }

  ghost predicate Counts(s: State) {
    Balanced(s, TallyOf(s.pcs))
  }

  ghost predicate Locals(s: State) {
    forall t :: 0 <= t < |s.pcs| ==>
      match s.pcs[t]
      case IncStore(v) => v == s.readcnt + 1
      case DecStore(v) => v == s.readcnt - 1
      case FirstPw => s.readcnt == 1
      case LastVw => s.readcnt == 0
      case GateP => s.gated
      case GateV => s.gated
      case _ => true
  }

  ghost predicate Inv(s: State) {
    Counts(s) && Locals(s)
  }

  lemma InitInv(s: State)
    requires Init(s)
    ensures Inv(s)
  {
    SumZero(s.pcs, InMutex);
    SumZero(s.pcs, Arriving);
    SumZero(s.pcs, Inside);
    SumZero(s.pcs, Leaving);
    SumZero(s.pcs, InWriting);
    if s.gated { SumZero(s.pcs, PastGate); }
  }

  lemma MoveThread(s: State, t: nat, pc: Pc)
    requires t < |s.pcs|
    ensures Shifted(TallyOf(s.pcs), TallyOf(s.pcs[t := pc]), s.pcs[t], pc)
  {
    SumUpdate(s.pcs, t, pc, InMutex);
    SumUpdate(s.pcs, t, pc, Arriving);
    SumUpdate(s.pcs, t, pc, Inside);
    SumUpdate(s.pcs, t, pc, Leaving);
    SumUpdate(s.pcs, t, pc, InWriting);
    SumUpdate(s.pcs, t, pc, PastGate);
  }

  lemma OneInMutex(s: State, i: nat, j: nat)
    requires Counts(s) && i < |s.pcs| && j < |s.pcs| && i != j
    ensures InMutex(s.pcs[i]) + InMutex(s.pcs[j]) <= 1
  {
    if i < j { SumTwoMembers(s.pcs, i, j, InMutex); } else { SumTwoMembers(s.pcs, j, i, InMutex); }
  }

  /** While thread t is inside the mutex no other thread arrives or leaves. */
  lemma HolderAlone(s: State, t: nat)
    requires Counts(s) && t < |s.pcs| && InMutex(s.pcs[t]) == 1
    ensures Sum(s.pcs, Arriving) == Arriving(s.pcs[t])
    ensures Sum(s.pcs, Leaving) == Leaving(s.pcs[t])
  {
    SumMember(s.pcs, t, InMutex);
    MoveThread(s, t, EnterP);
    SumBelow(s.pcs[t := EnterP], Arriving, InMutex);
    SumBelow(s.pcs[t := EnterP], Leaving, InMutex);
  }

  /** The arithmetic of one step, with the tally as plain numbers. */
  lemma BalancedDo(s: State, t: nat, c: Tally, c': Tally)
    requires Locals(s) && Enabled(s, t) && Balanced(s, c)
    requires Shifted(c, c', s.pcs[t], Do(s, t).pcs[t])
    requires Inside(s.pcs[t]) <= c.inside && Leaving(s.pcs[t]) <= c.leaving && InWriting(s.pcs[t]) <= c.writing
    requires InMutex(s.pcs[t]) == 1 ==> c.arriving == Arriving(s.pcs[t]) && c.leaving == Leaving(s.pcs[t])
    ensures Balanced(Do(s, t), c')
  {
  }

  lemma CountsDo(s: State, t: nat)
    requires Inv(s) && Enabled(s, t)
    ensures Counts(Do(s, t))
  {
    var s' := Do(s, t);
    assert s'.pcs == s.pcs[t := s'.pcs[t]];
    MoveThread(s, t, s'.pcs[t]);
    SumMember(s.pcs, t, Inside);
    SumMember(s.pcs, t, Leaving);
    SumMember(s.pcs, t, InWriting);
    if InMutex(s.pcs[t]) == 1 { HolderAlone(s, t); }
    BalancedDo(s, t, TallyOf(s.pcs), TallyOf(s'.pcs));
  }

  lemma LocalsDo(s: State, t: nat)
    requires Inv(s) && Enabled(s, t)
    ensures Locals(Do(s, t))
  {
    hide Counts;
    forall u | 0 <= u < |s.pcs| && u != t ensures InMutex(s.pcs[u]) + InMutex(s.pcs[t]) <= 1 {
      OneInMutex(s, u, t);
    }
  }

  lemma InvNext(s: State, s': State)
    requires Inv(s) && Next(s, s')
    ensures Inv(s')
  {
    var t :| Enabled(s, t) && s' == Do(s, t);
    CountsDo(s, t);
    LocalsDo(s, t);
  }

  lemma {:induction false} Reachable(run: seq<State>)
    requires IsRun(run)
    ensures Inv(run[|run| - 1])
  {
    if |run| == 1 {
      InitInv(run[0]);
    } else {
      var before := run[..|run| - 1];
      Reachable(before);
      InvNext(before[|before| - 1], run[|run| - 1]);
    }
  }

  /** Exclusion: a writer in its critical section is there alone. */
  lemma WriterExcludes(run: seq<State>, i: nat, j: nat)
    requires IsRun(run)
    requires i < |run[|run| - 1].pcs| && j < |run[|run| - 1].pcs| && i != j
    requires run[|run| - 1].pcs[i].Writing?
    ensures !run[|run| - 1].pcs[j].Writing? && !run[|run| - 1].pcs[j].Reading?
  {
    var s := run[|run| - 1];
    Reachable(run);
    SumMember(s.pcs, i, InWriting);
    SumMember(s.pcs, j, Inside);
    if i < j { SumTwoMembers(s.pcs, i, j, InWriting); } else { SumTwoMembers(s.pcs, j, i, InWriting); }
  }

  /** Outside the mutex the count is the number of readers in their critical section, and w is
      taken exactly when a writer or some reader is in its critical section. */
  lemma CountAndOwner(run: seq<State>)
    requires IsRun(run)
    ensures var s := run[|run| - 1];
      && s.readcnt == Sum(s.pcs, Arriving) + Sum(s.pcs, Inside)
      && s.w <= 1
      && (s.mutex == 1 ==> s.readcnt == Sum(s.pcs, InReading))
      && (s.mutex == 1 ==> (s.w == 0 <==> exists t :: 0 <= t < |s.pcs| && (s.pcs[t].Writing? || s.pcs[t].Reading?)))
  {
    var s := run[|run| - 1];
    Reachable(run);
    if s.mutex == 1 {
      forall t | 0 <= t < |s.pcs| ensures InMutex(s.pcs[t]) == 0 { SumMember(s.pcs, t, InMutex); }
      SumZero(s.pcs, Arriving);
      SumZero(s.pcs, Leaving);
      SumSame(s.pcs, s.pcs, Inside, InReading);
      if s.w == 0 {
        if Sum(s.pcs, InWriting) > 0 { var t := SumWitness(s.pcs, InWriting); }
        else { var t := SumWitness(s.pcs, Inside); }
      }
      if t :| 0 <= t < |s.pcs| && (s.pcs[t].Writing? || s.pcs[t].Reading?) {
        SumMember(s.pcs, t, InWriting);
        SumMember(s.pcs, t, Inside);
      }
    }
  }

  function InReading(pc: Pc): nat { if pc.Reading? then 1 else 0 }

  /** With the gate, at most one writer is anywhere between P(wg) and V(wg), so at most one ever
      competes with the readers for w. */
  lemma OneCompetitor(run: seq<State>, i: nat, j: nat)
    requires IsRun(run) && run[|run| - 1].gated
    requires i < |run[|run| - 1].pcs| && j < |run[|run| - 1].pcs|
    requires PastGate(run[|run| - 1].pcs[i]) == 1 == PastGate(run[|run| - 1].pcs[j])
    ensures i == j
  {
    var s := run[|run| - 1];
    Reachable(run);
    if i < j { SumTwoMembers(s.pcs, i, j, PastGate); }
    if j < i { SumTwoMembers(s.pcs, j, i, PastGate); }
  }

  ghost predicate Deadlocked(s: State) {
    forall t :: !Enabled(s, t)
  }

  /** No deadlock: in every reachable state some thread can take its next step. */
  lemma NoDeadlock(run: seq<State>)
    requires IsRun(run) && run[|run| - 1].pcs != []
    ensures !Deadlocked(run[|run| - 1])
  {
    var s := run[|run| - 1];
    Reachable(run);
    if s.mutex == 0 {
      var h := SumWitness(s.pcs, InMutex);
      if !Enabled(s, h) {
        HolderAlone(s, h);
        var t := SumWitness(s.pcs, InWriting);
        assert Enabled(s, t);
      }
    } else if s.w == 0 {
      var t: nat;
      if Sum(s.pcs, InWriting) > 0 { t := SumWitness(s.pcs, InWriting); }
      else if Sum(s.pcs, Inside) > 0 { t := SumWitness(s.pcs, Inside); }
      else { t := SumWitness(s.pcs, Leaving); }
      assert Enabled(s, t);
    } else if !Enabled(s, 0) {
      assert s.pcs[0] == GateP;
      var t := SumWitness(s.pcs, PastGate);
      assert Enabled(s, t);
    }
  }

  // ----- What one thread does when nobody interrupts it -----

  /** Thread t takes the state from s to s' in k steps of its own. */
  ghost predicate RunsAlone(s: State, s': State, t: int, k: nat)
    decreases k
  {
    if k == 0 then s' == s else Enabled(s, t) && RunsAlone(Do(s, t), s', t, k - 1)
  }

  /** The first reader enters in its own steps and takes w. */
  lemma FirstReaderEnters(s: State, t: nat)
    requires t < |s.pcs| && s.pcs[t] == EnterP && s.mutex > 0 && s.readcnt == 0 && s.w > 0
    ensures RunsAlone(s, s.(pcs := s.pcs[t := Reading], readcnt := 1, w := s.w - 1), t, 6)
  {
  }

  /** Later readers share it. */
  lemma AnotherReaderEnters(s: State, t: nat)
    requires t < |s.pcs| && s.pcs[t] == EnterP && s.mutex > 0 && s.readcnt != 0
    ensures RunsAlone(s, s.(pcs := s.pcs[t := Reading], readcnt := s.readcnt + 1), t, 5)
  {
  }

  /** The last reader leaves in its own steps and gives w back. */
  lemma LastReaderLeaves(s: State, t: nat)
    requires t < |s.pcs| && s.pcs[t] == Reading && s.mutex > 0 && s.readcnt == 1
    ensures RunsAlone(s, s.(pcs := s.pcs[t := EnterP], readcnt := 0, w := s.w + 1), t, 6)
  {
  }

  /** Earlier ones leave it taken. */
  lemma AnotherReaderLeaves(s: State, t: nat)
    requires t < |s.pcs| && s.pcs[t] == Reading && s.mutex > 0 && s.readcnt != 1
    ensures RunsAlone(s, s.(pcs := s.pcs[t := EnterP], readcnt := s.readcnt - 1), t, 5)
  {
  }

  /** A writer that finds w, and the gate if there is one, free enters and leaves in its own steps. */
  lemma WriterEntersAndLeaves(s: State, t: nat)
    requires t < |s.pcs|
    ensures !s.gated && s.pcs[t] == WriteP && s.w > 0 ==>
      RunsAlone(s, s.(pcs := s.pcs[t := Writing], w := s.w - 1), t, 1)
    ensures s.gated && s.pcs[t] == GateP && s.w > 0 && s.wg > 0 ==>
      RunsAlone(s, s.(pcs := s.pcs[t := Writing], w := s.w - 1, wg := s.wg - 1), t, 2)
    ensures !s.gated && s.pcs[t] == Writing ==>
      RunsAlone(s, s.(pcs := s.pcs[t := WriteP], w := s.w + 1), t, 1)
    ensures s.gated && s.pcs[t] == Writing ==>
      RunsAlone(s, s.(pcs := s.pcs[t := GateP], w := s.w + 1, wg := s.wg + 1), t, 2)
  {
  }
}
