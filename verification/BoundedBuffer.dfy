/** The semaphore-protected bounded buffer, shared by any number of threads. */
module BoundedBuffer {
  import opened Sums

  /** The fields of sbuf_t; a semaphore is its value. */
  datatype Shared = Shared(n: nat, buf: seq<int>, front: nat, rear: nat,
                           mutex: nat, slots: nat, items: nat)

  /** The two array accesses, shared by the class below and by the step system. */
  function WriteSlot(sh: Shared, r: nat, item: int): Shared
    requires sh.n > 0 && |sh.buf| == sh.n
  {
    sh.(buf := sh.buf[r % sh.n := item])
  }

  function ReadSlot(sh: Shared, r: nat): int
    requires sh.n > 0 && |sh.buf| == sh.n
  {
    sh.buf[r % sh.n]
  }

  function InitialShared(n: nat): Shared {
    Shared(n, seq(n, _ => 0), 0, 0, 1, n, 0)
  }

  /** What an insert, or a remove, that nobody interrupts does to the structure. */
  function InsertAlone(sh: Shared, item: int): Shared
    requires sh.n > 0 && |sh.buf| == sh.n && sh.slots > 0
  {
    WriteSlot(sh, sh.rear + 1, item).(rear := sh.rear + 1, slots := sh.slots - 1, items := sh.items + 1)
  }

  function RemoveAlone(sh: Shared): Shared
    requires sh.items > 0
  {
    sh.(front := sh.front + 1, items := sh.items - 1, slots := sh.slots + 1)
  }

  /** The C structure, changed in place; the step system below interleaves the same accesses. */
  class Sbuf {
    const n: nat
    const buf: array<int>
    var front: nat
    var rear: nat
    var mutex: nat
    var slots: nat
    var items: nat

    ghost predicate Valid() {
      buf.Length == n
    }

    ghost function View(): Shared
      reads this, buf
    {
      Shared(n, buf[..], front, rear, mutex, slots, items)
    }

    constructor (n: nat)
      ensures Valid() && fresh(buf)
      ensures View() == InitialShared(n)
    {
      this.n := n;
      buf := new int[n](_ => 0);
      front, rear := 0, 0;
      mutex, slots, items := 1, n, 0;
    }

    /** sbuf_insert by a caller that neither P makes wait. */
    method Insert(item: int)
      requires Valid() && n > 0 && slots > 0 && mutex > 0
      modifies this, buf
      ensures View() == InsertAlone(old(View()), item)
    {
      slots := slots - 1;
      mutex := mutex - 1;
      rear := rear + 1;
      buf[rear % n] := item;
      mutex := mutex + 1;
      items := items + 1;
    }

    /** sbuf_remove by a caller that neither P makes wait. */
    method Remove() returns (item: int)
      requires Valid() && n > 0 && items > 0 && mutex > 0
      modifies this
      ensures View() == RemoveAlone(old(View())) && item == ReadSlot(View(), front)
    {
      items := items - 1;
      mutex := mutex - 1;
      front := front + 1;
      item := buf[front % n];
      mutex := mutex + 1;
      slots := slots + 1;
    }
  }

  /** Where a thread stands; the name tells the step it takes next. */
  datatype Pc =
    | Idle
    | InsPSlots(item: int)
    | InsPMutex(item: int)
    | InsLoad(item: int)
    | InsStore(item: int, r: nat)
    | InsWrite(item: int, r: nat)
    | InsVMutex
    | InsVItems
    | RemPItems
    | RemPMutex
    | RemLoad
    | RemStore(r: nat)
    | RemRead(r: nat)
    | RemVMutex(got: int)
    | RemVSlots(got: int)

  /** The shared structure, every thread, and the histories of completed writes, of completed reads and
      of what the calls of sbuf_remove gave their callers. */
  datatype State = State(sh: Shared, pcs: seq<Pc>, inserted: seq<int>, removed: seq<int>, returned: seq<int>)

  ghost predicate Init(s: State) {
    && s.sh == InitialShared(s.sh.n)
    && (forall t :: 0 <= t < |s.pcs| ==> s.pcs[t].Idle?)
    && s.inserted == [] && s.removed == [] && s.returned == []
  }

  /** Thread t is inside a call and its next step does not block. */
  predicate Enabled(s: State, t: int) {
    && 0 <= t < |s.pcs|
    && match s.pcs[t]
       case Idle => false
       case InsPSlots(_) => s.sh.slots > 0
       case RemPItems => s.sh.items > 0
       case InsPMutex(_) => s.sh.mutex > 0
       case RemPMutex => s.sh.mutex > 0
       case _ => true
  }

  ghost predicate WellFormed(s: State) {
    && |s.sh.buf| == s.sh.n
    && forall t :: 0 <= t < |s.pcs| && !s.pcs[t].Idle? && !s.pcs[t].InsPSlots? && !s.pcs[t].RemPItems? ==> s.sh.n > 0
  }

  ghost function Do(s: State, t: int): State
    requires WellFormed(s) && Enabled(s, t)
  {
    var sh, pcs := s.sh, s.pcs;
    match pcs[t]
    case InsPSlots(x) => s.(sh := sh.(slots := sh.slots - 1), pcs := pcs[t := InsPMutex(x)])
    case InsPMutex(x) => s.(sh := sh.(mutex := sh.mutex - 1), pcs := pcs[t := InsLoad(x)])
    case InsLoad(x) => s.(pcs := pcs[t := InsStore(x, sh.rear)])
    case InsStore(x, r) => s.(sh := sh.(rear := r + 1), pcs := pcs[t := InsWrite(x, r + 1)])
    case InsWrite(x, r) =>
      s.(sh := WriteSlot(sh, r, x), pcs := pcs[t := InsVMutex], inserted := s.inserted + [x])
    case InsVMutex => s.(sh := sh.(mutex := sh.mutex + 1), pcs := pcs[t := InsVItems])
    case InsVItems => s.(sh := sh.(items := sh.items + 1), pcs := pcs[t := Idle])
    case RemPItems => s.(sh := sh.(items := sh.items - 1), pcs := pcs[t := RemPMutex])
    case RemPMutex => s.(sh := sh.(mutex := sh.mutex - 1), pcs := pcs[t := RemLoad])
    case RemLoad => s.(pcs := pcs[t := RemStore(sh.front)])
    case RemStore(r) => s.(sh := sh.(front := r + 1), pcs := pcs[t := RemRead(r + 1)])
    case RemRead(r) =>
      var x := ReadSlot(sh, r);
      s.(pcs := pcs[t := RemVMutex(x)], removed := s.removed + [x])
    case RemVMutex(x) => s.(sh := sh.(mutex := sh.mutex + 1), pcs := pcs[t := RemVSlots(x)])
    case RemVSlots(x) =>
      s.(sh := sh.(slots := sh.slots + 1), pcs := pcs[t := Idle], returned := s.returned + [x])
  }

  /** An idle thread calls sbuf_insert or sbuf_remove. */
  ghost predicate Call(s: State, s': State, t: int) {
    && 0 <= t < |s.pcs| && s.pcs[t].Idle?
    && (s' == s.(pcs := s.pcs[t := RemPItems])
        || exists x :: s' == s.(pcs := s.pcs[t := InsPSlots(x)]))
  }

  ghost predicate Next(s: State, s': State) {
    WellFormed(s) && exists t :: Call(s, s', t) || (Enabled(s, t) && s' == Do(s, t))
  }

  ghost predicate IsRun(run: seq<State>) {
    && |run| > 0 && Init(run[0])
    && forall i :: 0 <= i < |run| - 1 ==> Next(run[i], run[i + 1])
  }

  // Thread groups, as 0/1 weights.
  function InMutex(pc: Pc): nat {
    match pc
    case InsLoad(_) => 1 case InsStore(_, _) => 1 case InsWrite(_, _) => 1 case InsVMutex => 1
    case RemLoad => 1 case RemStore(_) => 1 case RemRead(_) => 1 case RemVMutex(_) => 1
    case _ => 0
  }
  /** Inserters that own a slot and have not written it yet. */
  function InsUnposted(pc: Pc): nat {
    match pc
    case InsPMutex(_) => 1 case InsLoad(_) => 1 case InsStore(_, _) => 1 case InsWrite(_, _) => 1
    case _ => 0
  }
  /** Inserters that have written an item and not announced it yet. */
  function InsPosted(pc: Pc): nat {
    if pc.InsVMutex? || pc.InsVItems? then 1 else 0
  }
  /** Removers that own an item and have not read it yet. */
  function RemPending(pc: Pc): nat {
    match pc
    case RemPMutex => 1 case RemLoad => 1 case RemStore(_) => 1 case RemRead(_) => 1
    case _ => 0
  }
  /** Removers that have read an item and not given the slot back yet. */
  function RemFreed(pc: Pc): nat {
    if pc.RemVMutex? || pc.RemVSlots? then 1 else 0
  }
  function Writing(pc: Pc): nat { if pc.InsWrite? then 1 else 0 }
  function Reading(pc: Pc): nat { if pc.RemRead? then 1 else 0 }

  ghost predicate LocalsFresh(s: State) {
    forall t :: 0 <= t < |s.pcs| ==>
      match s.pcs[t]
      case InsStore(_, r) => r == s.sh.rear
      case InsWrite(_, r) => r == s.sh.rear
      case RemStore(r) => r == s.sh.front
      case RemRead(r) => r == s.sh.front
      case _ => true
  }

  /** How many threads are in each group. */
  datatype Counts = Counts(inMutex: nat, insUnposted: nat, insPosted: nat, remPending: nat, remFreed: nat,
                           writing: nat, reading: nat)

  ghost function CountsOf(pcs: seq<Pc>): Counts {
    Counts(Sum(pcs, InMutex), Sum(pcs, InsUnposted), Sum(pcs, InsPosted), Sum(pcs, RemPending),
           Sum(pcs, RemFreed), Sum(pcs, Writing), Sum(pcs, Reading))
  }

  /** One thread left program point a for b. */
  ghost predicate Shifted(c: Counts, c': Counts, a: Pc, b: Pc) {
    && c'.inMutex + InMutex(a) == c.inMutex + InMutex(b)
    && c'.insUnposted + InsUnposted(a) == c.insUnposted + InsUnposted(b)
    && c'.insPosted + InsPosted(a) == c.insPosted + InsPosted(b)
    && c'.remPending + RemPending(a) == c.remPending + RemPending(b)
    && c'.remFreed + RemFreed(a) == c.remFreed + RemFreed(b)
    && c'.writing + Writing(a) == c.writing + Writing(b)
    && c'.reading + Reading(a) == c.reading + Reading(b)
  }

  /** Every resource is in exactly one place. */
  ghost predicate Balanced(sh: Shared, c: Counts, inserted: nat, removed: nat) {
    && sh.mutex + c.inMutex == 1
    && sh.slots + sh.items + c.insUnposted + c.insPosted + c.remPending + c.remFreed == sh.n
    && inserted == removed + sh.items + c.insPosted + c.remPending
    && inserted + c.writing == sh.rear
    && removed + c.reading == sh.front
  }

  ghost predicate Conserved(s: State) {
    Balanced(s.sh, CountsOf(s.pcs), |s.inserted|, |s.removed|)
  }

  /** The unread items lie in the buffer, where the next reads will look for them. */
  ghost predicate UnreadStored(s: State)
    requires |s.sh.buf| == s.sh.n
  {
    forall k :: |s.removed| <= k < |s.inserted| ==> s.sh.n > 0 && s.sh.buf[(k + 1) % s.sh.n] == s.inserted[k]
  }

  /** Whether a remover has read item x and not returned it yet. */
  function HoldsItem(pc: Pc, x: int): nat {
    match pc
    case RemVMutex(y) => if y == x then 1 else 0
    case RemVSlots(y) => if y == x then 1 else 0
    case _ => 0
  }

  function Holding(x: int): Pc -> nat {
    (pc: Pc) => HoldsItem(pc, x)
  }

  /** What was read is what was returned and what removers still hold. */
  ghost predicate Handed(s: State) {
    forall x :: multiset(s.removed)[x] == multiset(s.returned)[x] + Sum(s.pcs, Holding(x))
  }

  /** The remover inside the mutex holds the item read last. */
  ghost predicate HoldsLast(s: State) {
    forall t :: 0 <= t < |s.pcs| && s.pcs[t].RemVMutex? ==>
      s.removed != [] && s.pcs[t].got == s.removed[|s.removed| - 1]
  }

  ghost predicate Inv(s: State) {
    && WellFormed(s) && Conserved(s) && LocalsFresh(s) && UnreadStored(s) && s.removed <= s.inserted
    && Handed(s) && HoldsLast(s)
  }

  lemma InitInv(s: State)
    requires Init(s)
    ensures Inv(s)
  {
    SumZero(s.pcs, InMutex);
    SumZero(s.pcs, InsUnposted);
    SumZero(s.pcs, InsPosted);
    SumZero(s.pcs, RemPending);
    SumZero(s.pcs, RemFreed);
    SumZero(s.pcs, Writing);
    SumZero(s.pcs, Reading);
    forall x ensures Sum(s.pcs, Holding(x)) == 0 { SumZero(s.pcs, Holding(x)); }
  }

  lemma MoveThread(s: State, t: nat, pc: Pc)
    requires t < |s.pcs|
    ensures Shifted(CountsOf(s.pcs), CountsOf(s.pcs[t := pc]), s.pcs[t], pc)
  {
    SumUpdate(s.pcs, t, pc, InMutex);
    SumUpdate(s.pcs, t, pc, InsUnposted);
    SumUpdate(s.pcs, t, pc, InsPosted);
    SumUpdate(s.pcs, t, pc, RemPending);
    SumUpdate(s.pcs, t, pc, RemFreed);
    SumUpdate(s.pcs, t, pc, Writing);
    SumUpdate(s.pcs, t, pc, Reading);
  }

  /** Two positions less than n apart are different slots. */
  lemma DistinctSlots(a: nat, b: nat, n: nat)
    requires b < a < b + n
    ensures a % n != b % n
  {
    if a % n == b % n {
      MultipleBelow(a / n - b / n, n, a - b);
    }
  }

  lemma MultipleBelow(q: int, n: nat, d: int)
    requires 0 < d < n
    ensures q * n != d
  {
    if q >= 1 { assert q * n >= 1 * n; } else { assert q * n <= 0 * n; }
  }

  lemma OneInMutex(s: State, i: nat, j: nat)
    requires Conserved(s) && i < |s.pcs| && j < |s.pcs| && i != j
    ensures InMutex(s.pcs[i]) + InMutex(s.pcs[j]) <= 1
  {
    if i < j { SumTwoMembers(s.pcs, i, j, InMutex); } else { SumTwoMembers(s.pcs, j, i, InMutex); }
  }

  /** The arithmetic of one step, with the counts as plain numbers. */
  lemma BalancedDo(s: State, t: nat, c: Counts, c': Counts)
    requires WellFormed(s) && LocalsFresh(s) && Enabled(s, t)
    requires Balanced(s.sh, c, |s.inserted|, |s.removed|)
    requires Shifted(c, c', s.pcs[t], Do(s, t).pcs[t])
    requires Writing(s.pcs[t]) <= c.writing <= c.inMutex && Reading(s.pcs[t]) <= c.reading <= c.inMutex
    requires InMutex(s.pcs[t]) + c.writing <= 1 + Writing(s.pcs[t])
    requires InMutex(s.pcs[t]) + c.reading <= 1 + Reading(s.pcs[t])
    ensures Balanced(Do(s, t).sh, c', |Do(s, t).inserted|, |Do(s, t).removed|)
    ensures s.sh.n == 0 ==> s.pcs[t].Idle?
  {
  }

  /** The thread inside the mutex is the only one that writes or reads. */
  lemma HolderAlone(s: State, t: nat)
    requires Conserved(s) && t < |s.pcs|
    ensures Writing(s.pcs[t]) <= Sum(s.pcs, Writing) <= Sum(s.pcs, InMutex)
    ensures Reading(s.pcs[t]) <= Sum(s.pcs, Reading) <= Sum(s.pcs, InMutex)
    ensures InMutex(s.pcs[t]) + Sum(s.pcs, Writing) <= 1 + Writing(s.pcs[t])
    ensures InMutex(s.pcs[t]) + Sum(s.pcs, Reading) <= 1 + Reading(s.pcs[t])
  {
    SumMember(s.pcs, t, Writing);
    SumMember(s.pcs, t, Reading);
    SumMember(s.pcs, t, InMutex);
    SumBelow(s.pcs, Writing, InMutex);
    SumBelow(s.pcs, Reading, InMutex);
    MoveThread(s, t, Idle);
    SumBelow(s.pcs[t := Idle], Writing, InMutex);
    SumBelow(s.pcs[t := Idle], Reading, InMutex);
  }

  lemma ConservedDo(s: State, t: nat)
    requires Inv(s) && Enabled(s, t)
    ensures Conserved(Do(s, t)) && WellFormed(Do(s, t))
  {
    var s' := Do(s, t);
    assert s'.pcs == s.pcs[t := s'.pcs[t]];
    MoveThread(s, t, s'.pcs[t]);
    HolderAlone(s, t);
    BalancedDo(s, t, CountsOf(s.pcs), CountsOf(s'.pcs));
  }

  lemma LocalsFreshDo(s: State, t: int)
    requires Inv(s) && Enabled(s, t)
    ensures LocalsFresh(Do(s, t))
  {
    hide Conserved, UnreadStored;
    var s' := Do(s, t);
    forall u | 0 <= u < |s.pcs| && u != t ensures InMutex(s.pcs[u]) + InMutex(s.pcs[t]) <= 1 {
      OneInMutex(s, u, t);
    }
  }

  lemma ContentDo(s: State, t: int)
    requires Inv(s) && Enabled(s, t)
    ensures |Do(s, t).sh.buf| == s.sh.n && UnreadStored(Do(s, t)) && Do(s, t).removed <= Do(s, t).inserted
  {
    var n := s.sh.n;
    SumMember(s.pcs, t, InsUnposted);
    SumMember(s.pcs, t, RemPending);
    HolderAlone(s, t);
    match s.pcs[t]
    case InsWrite(x, r) =>
      forall k | |s.removed| <= k < |s.inserted| ensures Do(s, t).sh.buf[(k + 1) % n] == s.inserted[k] {
        DistinctSlots(r, k + 1, n);
      }
    case _ =>
  }

  /** One step, for one item. */
  lemma HandedStep(s: State, t: int, x: int)
    requires WellFormed(s) && Enabled(s, t)
    ensures var s' := Do(s, t);
      && 0 <= t < |s.pcs| == |s'.pcs| && s'.pcs == s.pcs[t := s'.pcs[t]]
      && multiset(s'.removed)[x] + multiset(s.returned)[x] + HoldsItem(s.pcs[t], x)
         == multiset(s.removed)[x] + multiset(s'.returned)[x] + HoldsItem(s'.pcs[t], x)
  {
    match s.pcs[t]
    case RemRead(r) => Logged(s.removed, ReadSlot(s.sh, r), x);
    case RemVSlots(y) => Logged(s.returned, y, x);
    case _ =>
  }

  lemma Logged(log: seq<int>, y: int, x: int)
    ensures multiset(log + [y])[x] == multiset(log)[x] + if y == x then 1 else 0
  {
  }

  lemma HandedDo(s: State, t: int)
    requires WellFormed(s) && Handed(s) && Enabled(s, t)
    ensures Handed(Do(s, t))
  {
    hide Do, WellFormed, Enabled;
    var s' := Do(s, t);
    forall x ensures multiset(s'.removed)[x] == multiset(s'.returned)[x] + Sum(s'.pcs, Holding(x)) {
      HandedStep(s, t, x);
      SumUpdate(s.pcs, t, s'.pcs[t], Holding(x));
    }
  }

  lemma HandedCall(s: State, t: nat, pc: Pc)
    requires Handed(s) && t < |s.pcs| && s.pcs[t].Idle? && (pc.InsPSlots? || pc.RemPItems?)
    ensures Handed(s.(pcs := s.pcs[t := pc]))
  {
    forall x ensures Sum(s.pcs[t := pc], Holding(x)) == Sum(s.pcs, Holding(x)) {
      SumUpdate(s.pcs, t, pc, Holding(x));
    }
  }

  lemma HoldsLastDo(s: State, t: int)
    requires Inv(s) && Enabled(s, t)
    ensures HoldsLast(Do(s, t))
  {
    hide Conserved, UnreadStored, LocalsFresh, Handed;
    forall u | 0 <= u < |s.pcs| && u != t ensures InMutex(s.pcs[u]) + InMutex(s.pcs[t]) <= 1 {
      OneInMutex(s, u, t);
    }
  }

  lemma InvCall(s: State, t: nat, pc: Pc)
    requires Inv(s) && t < |s.pcs| && s.pcs[t].Idle?
    requires pc.InsPSlots? || pc.RemPItems?
    ensures Inv(s.(pcs := s.pcs[t := pc]))
  {
    hide Handed;
    MoveThread(s, t, pc);
    HandedCall(s, t, pc);
  }

  lemma InvDo(s: State, t: nat)
    requires Inv(s) && Enabled(s, t)
    ensures Inv(Do(s, t))
  {
    ConservedDo(s, t);
    LocalsFreshDo(s, t);
    ContentDo(s, t);
    HandedDo(s, t);
    HoldsLastDo(s, t);
  }

  lemma InvNext(s: State, s': State)
    requires Inv(s) && Next(s, s')
    ensures Inv(s')
  {
    var t :| Call(s, s', t) || (Enabled(s, t) && s' == Do(s, t));
    if Call(s, s', t) {
      if s' == s.(pcs := s.pcs[t := RemPItems]) {
        InvCall(s, t, RemPItems);
      } else {
        var x :| s' == s.(pcs := s.pcs[t := InsPSlots(x)]);
        InvCall(s, t, InsPSlots(x));
      }
    } else {
      InvDo(s, t);
    }
  }

  lemma {:induction false} Reachable(run: seq<State>)
    requires IsRun(run)
    ensures Inv(run[|run| - 1])
  {
    if |run| == 1 {
      InitInv(run[0]);
    } else {
      var before := run[..|run| - 1];
      Reachable(before);
      InvNext(before[|before| - 1], run[|run| - 1]);
    }
  }

  /** FIFO: whatever the interleaving, what was removed is a prefix of what was inserted, never
      more than n items are unread, and each of them is intact in its slot. */
  lemma Fifo(run: seq<State>)
    requires IsRun(run)
    ensures var s := run[|run| - 1];
      && s.removed <= s.inserted
      && |s.inserted| <= |s.removed| + s.sh.n
      && forall k :: |s.removed| <= k < |s.inserted| ==>
           s.sh.n > 0 && |s.sh.buf| == s.sh.n && s.sh.buf[(k + 1) % s.sh.n] == s.inserted[k]
  {
    Reachable(run);
  }

  /** Delivery: each item was read as often as it was returned to a caller or is held by a remover, so
      no more often than it was inserted; and a remover that leaves the mutex holds the item just read. */
  lemma Delivery(run: seq<State>)
    requires IsRun(run)
    ensures var s := run[|run| - 1];
      && (forall x :: multiset(s.removed)[x] == multiset(s.returned)[x] + Sum(s.pcs, Holding(x)))
      && (forall x :: multiset(s.returned)[x] <= multiset(s.inserted)[x])
      && forall t :: 0 <= t < |s.pcs| && s.pcs[t].RemVMutex? ==>
           s.removed != [] && s.pcs[t].got == s.removed[|s.removed| - 1]
  {
    hide WellFormed, Conserved, LocalsFresh, UnreadStored;
    Reachable(run);
    var s := run[|run| - 1];
    var rest := s.inserted[|s.removed|..];
    assert s.inserted == s.removed + rest;
    assert multiset(s.inserted) == multiset(s.removed) + multiset(rest);
  }

  ghost predicate Active(s: State, t: int) {
    0 <= t < |s.pcs| && !s.pcs[t].Idle?
  }

  ghost predicate Stuck(s: State) {
    (exists t :: Active(s, t)) && forall t :: !Enabled(s, t)
  }

  ghost predicate AllWaitForSlots(s: State) {
    forall t :: Active(s, t) ==> s.pcs[t].InsPSlots?
  }

  ghost predicate AllWaitForItems(s: State) {
    forall t :: Active(s, t) ==> s.pcs[t].RemPItems?
  }

  ghost predicate AllWait(s: State) {
    forall t :: Active(s, t) ==> s.pcs[t].InsPSlots? || s.pcs[t].RemPItems?
  }

  lemma WaitingSums(s: State)
    requires AllWait(s)
    ensures Sum(s.pcs, InMutex) == Sum(s.pcs, InsUnposted) == Sum(s.pcs, InsPosted) == 0
    ensures Sum(s.pcs, RemPending) == Sum(s.pcs, RemFreed) == 0
  {
    assert forall t :: 0 <= t < |s.pcs| ==> Active(s, t) || s.pcs[t].Idle?;
    SumZero(s.pcs, InMutex);
    SumZero(s.pcs, InsUnposted);
    SumZero(s.pcs, InsPosted);
    SumZero(s.pcs, RemPending);
    SumZero(s.pcs, RemFreed);
  }

  /** Whoever holds the mutex can go on. */
  lemma HolderMoves(s: State) returns (h: nat)
    requires Inv(s) && s.sh.mutex == 0
    ensures Enabled(s, h)
  {
    h := SumWitness(s.pcs, InMutex);
  }

  lemma StuckMeansWaiting(s: State)
    requires Inv(s) && Stuck(s)
    ensures AllWait(s)
  {
    if s.sh.mutex == 0 { var h := HolderMoves(s); }
    forall t | Active(s, t) ensures s.pcs[t].InsPSlots? || s.pcs[t].RemPItems? {
      assert !Enabled(s, t);
    }
  }

  /** Progress: the calls in flight are all blocked exactly when every one is an insert and the
      buffer is full, or every one is a remove and the buffer is empty, or the buffer was
      created with no slot at all and nobody got past the first P. */
  lemma Progress(run: seq<State>)
    requires IsRun(run)
    ensures var s := run[|run| - 1];
      (exists t :: Active(s, t)) ==>
        (Stuck(s) <==> || (AllWaitForSlots(s) && |s.inserted| == |s.removed| + s.sh.n)
                       || (AllWaitForItems(s) && |s.inserted| == |s.removed|)
                       || s.sh.n == 0)
  {
    var s := run[|run| - 1];
    Reachable(run);
    if exists t :: Active(s, t) {
      if Stuck(s) {
        StuckMeansWaiting(s);
        WaitingSums(s);
        if t :| Active(s, t) && s.pcs[t].InsPSlots? { assert !Enabled(s, t); }
        if t :| Active(s, t) && s.pcs[t].RemPItems? { assert !Enabled(s, t); }
      }
      if || (AllWaitForSlots(s) && |s.inserted| == |s.removed| + s.sh.n)
         || (AllWaitForItems(s) && |s.inserted| == |s.removed|)
         || s.sh.n == 0 {
        assert AllWait(s);
        WaitingSums(s);
        forall t ensures !Enabled(s, t) {
          if 0 <= t < |s.pcs| { assert Active(s, t) || s.pcs[t].Idle?; }
        }
      }
    }
  }

  /** Mutual exclusion between P(mutex) and V(mutex). */
  lemma MutualExclusion(run: seq<State>, i: nat, j: nat)
    requires IsRun(run)
    requires i < |run[|run| - 1].pcs| && j < |run[|run| - 1].pcs|
    requires InMutex(run[|run| - 1].pcs[i]) == 1 == InMutex(run[|run| - 1].pcs[j])
    ensures i == j
  {
    Reachable(run);
    if i != j { OneInMutex(run[|run| - 1], i, j); }
  }

  /** The state after thread t has taken its next k steps without interruption. */
  ghost predicate RunsAlone(s: State, s': State, t: int, k: nat)
    decreases k
  {
    if k == 0 then s' == s
    else WellFormed(s) && Enabled(s, t) && RunsAlone(Do(s, t), s', t, k - 1)
  }

  /** Seven uninterrupted steps of an insert have the effect of Sbuf.Insert on its own item. */
  lemma InsertRunsAlone(s: State, t: nat)
    requires WellFormed(s) && s.sh.n > 0 && s.sh.mutex > 0 && s.sh.slots > 0
    requires t < |s.pcs| && s.pcs[t].InsPSlots?
    ensures var x := s.pcs[t].item;
      RunsAlone(s, s.(sh := InsertAlone(s.sh, x), pcs := s.pcs[t := Idle], inserted := s.inserted + [x]), t, 7)
  {
  }

  /** Seven uninterrupted steps of a remove have the effect of Sbuf.Remove, and give the caller the
      item read. */
  lemma RemoveRunsAlone(s: State, t: nat)
    requires WellFormed(s) && s.sh.n > 0 && s.sh.mutex > 0 && s.sh.items > 0
    requires t < |s.pcs| && s.pcs[t].RemPItems?
    ensures var sh := RemoveAlone(s.sh); var x := ReadSlot(sh, sh.front);
      RunsAlone(s, s.(sh := sh, pcs := s.pcs[t := Idle], removed := s.removed + [x], returned := s.returned + [x]), t, 7)
  {
  }
}
