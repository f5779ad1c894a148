/** The shell's fixed table of jobs: the searches and updates as functions on values, and the
    class that does them with loops over the array. */
module JobTable {

  datatype JobState = Undef | Fg | Bg | St
  datatype Job = Job(pid: int, jid: int, state: JobState)

  const MAXJOBS: nat := 16

  const CLEARED := Job(0, 0, Undef)

  /** The first slot with this pid; |jobs| when there is none. Pid 0 marks a free slot. */
  function SlotOfPid(jobs: seq<Job>, pid: int): (i: nat)
    ensures i <= |jobs| && (i < |jobs| ==> jobs[i].pid == pid)
    ensures forall k :: 0 <= k < i ==> jobs[k].pid != pid
  {
    if jobs == [] || jobs[0].pid == pid then 0 else 1 + SlotOfPid(jobs[1..], pid)
  }

  function SlotOfJid(jobs: seq<Job>, jid: int): (i: nat)
    ensures i <= |jobs| && (i < |jobs| ==> jobs[i].jid == jid)
    ensures forall k :: 0 <= k < i ==> jobs[k].jid != jid
  {
    if jobs == [] || jobs[0].jid == jid then 0 else 1 + SlotOfJid(jobs[1..], jid)
  }

  function FgSlot(jobs: seq<Job>): (i: nat)
    ensures i <= |jobs| && (i < |jobs| ==> jobs[i].state == Fg)
    ensures forall k :: 0 <= k < i ==> jobs[k].state != Fg
  {
    if jobs == [] || jobs[0].state == Fg then 0 else 1 + FgSlot(jobs[1..])
  }

  function FgPid(jobs: seq<Job>): int {
    if FgSlot(jobs) < |jobs| then jobs[FgSlot(jobs)].pid else 0
  }

  function MaxJid(jobs: seq<Job>): (m: nat)
    ensures forall k :: 0 <= k < |jobs| ==> jobs[k].jid <= m
    ensures m == 0 || exists k :: 0 <= k < |jobs| && jobs[k].jid == m
  {
    if jobs == [] then 0
    else
      var n, m := |jobs| - 1, MaxJid(jobs[..|jobs| - 1]);
      if jobs[n].jid > m then jobs[n].jid else m
  }

  datatype Table = Table(jobs: seq<Job>, nextjid: int)

  function Added(t: Table, pid: int, state: JobState): Table {
    var i := SlotOfPid(t.jobs, 0);
    if pid < 1 || i == |t.jobs| then t
    else Table(t.jobs[i := Job(pid, t.nextjid, state)], if t.nextjid + 1 > MAXJOBS then 1 else t.nextjid + 1)
  }

  function Deleted(t: Table, pid: int): Table {
    var i := SlotOfPid(t.jobs, pid);
    if pid < 1 || i == |t.jobs| then t
    else var jobs := t.jobs[i := CLEARED]; Table(jobs, MaxJid(jobs) + 1)
  }

  class Jobs {
    const jobs: array<Job>
    var nextjid: int

    ghost predicate Valid() {
      jobs.Length == MAXJOBS
    }

    ghost function View(): Table
      reads this, jobs
    {
      Table(jobs[..], nextjid)
    }

    constructor ()
      ensures Valid() && fresh(jobs)
      ensures View() == Table(seq(MAXJOBS, _ => CLEARED), 1)
    {
      jobs := new Job[MAXJOBS](_ => CLEARED);
      nextjid := 1;
    }

    method MaxJobId() returns (max: int)
      ensures max == MaxJid(jobs[..])
    {
      max := 0;
      for i := 0 to jobs.Length
        invariant max == MaxJid(jobs[..i])
      {
        assert jobs[..i + 1][..i] == jobs[..i];
        if jobs[i].jid > max { max := jobs[i].jid; }
      }
      assert jobs[..jobs.Length] == jobs[..];
    }

    method AddJob(pid: int, state: JobState) returns (ok: bool)
      requires Valid()
      modifies this, jobs
      ensures View() == Added(old(View()), pid, state)
      ensures ok <==> pid >= 1 && exists k :: 0 <= k < MAXJOBS && old(jobs[k]).pid == 0
    {
      if pid < 1 { return false; }
      var i := 0;
      while i < MAXJOBS
        invariant i <= MAXJOBS && View() == old(View())
        invariant SlotOfPid(jobs[..], 0) >= i
      {
        if jobs[i].pid == 0 {
          assert SlotOfPid(jobs[..], 0) == i;
          jobs[i] := Job(pid, nextjid, state);
          nextjid := nextjid + 1;
          if nextjid > MAXJOBS { nextjid := 1; }
          return true;
        }
        i := i + 1;
      }
      assert forall k :: 0 <= k < MAXJOBS ==> jobs[..][k].pid != 0;
      return false;
    }

    method DeleteJob(pid: int) returns (ok: bool)
      requires Valid()
      modifies this, jobs
      ensures View() == Deleted(old(View()), pid)
      ensures ok <==> pid >= 1 && exists k :: 0 <= k < MAXJOBS && old(jobs[k]).pid == pid
    {
      if pid < 1 { return false; }
      var i := 0;
      while i < MAXJOBS
        invariant i <= MAXJOBS && View() == old(View())
        invariant SlotOfPid(jobs[..], pid) >= i
      {
        if jobs[i].pid == pid {
          assert SlotOfPid(jobs[..], pid) == i;
          jobs[i] := CLEARED;
          var m := MaxJobId();
          nextjid := m + 1;
          return true;
        }
        i := i + 1;
      }
      assert forall k :: 0 <= k < MAXJOBS ==> jobs[..][k].pid != pid;
      return false;
    }

    method ForegroundPid() returns (pid: int)
      ensures pid == FgPid(jobs[..])
    {
      for i := 0 to jobs.Length
        invariant FgSlot(jobs[..]) >= i
      {
        if jobs[i].state == Fg {
          assert FgSlot(jobs[..]) == i;
          return jobs[i].pid;
        }
      }
      return 0;
    }

    /** getjobpid and getjobjid, with the slot for the pointer and MAXJOBS for NULL. */
    method GetJobPid(pid: int) returns (slot: nat)
      requires Valid()
      ensures slot == if pid < 1 then MAXJOBS else SlotOfPid(jobs[..], pid)
    {
      if pid < 1 { return MAXJOBS; }
      slot := 0;
      while slot < MAXJOBS
        invariant slot <= SlotOfPid(jobs[..], pid) <= MAXJOBS
      {
        if jobs[slot].pid == pid {
          assert jobs[..][slot].pid == pid;
          return;
        }
        slot := slot + 1;
      }
    }

    method GetJobJid(jid: int) returns (slot: nat)
      requires Valid()
      ensures slot == if jid < 1 then MAXJOBS else SlotOfJid(jobs[..], jid)
    {
      if jid < 1 { return MAXJOBS; }
      slot := 0;
      while slot < MAXJOBS
        invariant slot <= SlotOfJid(jobs[..], jid) <= MAXJOBS
      {
        if jobs[slot].jid == jid {
          assert jobs[..][slot].jid == jid;
          return;
        }
        slot := slot + 1;
      }
    }
  }

  // ----- A well-kept table, and what the updates keep -----

  /** Pids are distinct, and a free slot is clear, but for a Bg mark that the next job overwrites. */
  ghost predicate WellKept(t: Table) {
    && |t.jobs| == MAXJOBS && t.nextjid >= 1
    && (forall i :: 0 <= i < |t.jobs| ==>
          && t.jobs[i].pid >= 0 && (t.jobs[i].pid == 0 ==> t.jobs[i] == CLEARED || t.jobs[i] == Job(0, 0, Bg))
          && (t.jobs[i].pid != 0 ==> t.jobs[i].jid >= 1 && t.jobs[i].state != Undef))
    && forall i, j :: 0 <= i < j < |t.jobs| && t.jobs[i].pid == t.jobs[j].pid ==> t.jobs[i].pid == 0
  }

  /** The pids on the table. */
  ghost function Listed(t: Table): set<int> {
    set i | 0 <= i < |t.jobs| && t.jobs[i].pid != 0 :: t.jobs[i].pid
  }

  ghost predicate HasRoom(t: Table) {
    SlotOfPid(t.jobs, 0) < |t.jobs|
  }

  lemma ListedSlot(t: Table, pid: int)
    requires pid != 0
    ensures pid in Listed(t) <==> SlotOfPid(t.jobs, pid) < |t.jobs|
  {
    var i := SlotOfPid(t.jobs, pid);
    if i < |t.jobs| { assert t.jobs[i].pid == pid; }
  }

  /** The state the table gives for a pid; Undef when it is not listed. */
  function StateOf(t: Table, pid: int): JobState {
    var i := SlotOfPid(t.jobs, pid);
    if pid < 1 || i == |t.jobs| then Undef else t.jobs[i].state
  }

  lemma StateAt(t: Table, i: nat)
    requires WellKept(t) && i < MAXJOBS && t.jobs[i].pid >= 1
    ensures StateOf(t, t.jobs[i].pid) == t.jobs[i].state
  {
    var k := SlotOfPid(t.jobs, t.jobs[i].pid);
    assert k <= i;
  }

  lemma StateAbsent(t: Table, pid: int)
    requires pid !in Listed(t)
    ensures StateOf(t, pid) == Undef
  {
    if pid >= 1 { ListedSlot(t, pid); }
  }

  /** A new job is listed in the state it was started in, under the next job id; every other job stays
      in its state, and the next id is one up or, past MAXJOBS, 1. */
  lemma AddedMarks(t: Table, pid: int, state: JobState)
    requires WellKept(t) && HasRoom(t) && pid >= 1 && pid !in Listed(t) && state != Undef
    ensures var t' := Added(t, pid, state);
      && StateOf(t', pid) == state
      && (forall q :: q != pid ==> StateOf(t', q) == StateOf(t, q))
      && (exists i :: 0 <= i < MAXJOBS && t'.jobs[i].pid == pid && t'.jobs[i].jid == t.nextjid)
      && t'.nextjid == if t.nextjid >= MAXJOBS then 1 else t.nextjid + 1
  {
    AddedKeeps(t, pid, state);
    var t', k := Added(t, pid, state), SlotOfPid(t.jobs, 0);
    assert t'.jobs[k] == Job(pid, t.nextjid, state);
    StateAt(t', k);
    forall q | q != pid ensures StateOf(t', q) == StateOf(t, q) {
      SameSlot(t, t', k, q);
    }
  }

  /** Rewriting slot k leaves the state of every pid that is in it neither before nor after. */
  lemma SameSlot(t: Table, t': Table, k: nat, q: int)
    requires WellKept(t) && WellKept(t') && k < MAXJOBS && t'.jobs == t.jobs[k := t'.jobs[k]]
    requires q < 1 || (t.jobs[k].pid != q && t'.jobs[k].pid != q)
    ensures StateOf(t', q) == StateOf(t, q)
  {
    if q >= 1 {
      var i, j := SlotOfPid(t.jobs, q), SlotOfPid(t'.jobs, q);
      assert i < |t.jobs| ==> t'.jobs[i].pid == q;
      assert j < |t'.jobs| ==> t.jobs[j].pid == q;
    }
  }

  /** A deleted job has no state, the others keep theirs, and the next id is one above the greatest
      left. */
  lemma DeletedMarks(t: Table, pid: int)
    requires WellKept(t) && pid in Listed(t)
    ensures var t' := Deleted(t, pid);
      && StateOf(t', pid) == Undef
      && (forall q :: q != pid ==> StateOf(t', q) == StateOf(t, q))
      && (forall i :: 0 <= i < MAXJOBS ==> t'.jobs[i].jid < t'.nextjid)
      && (t'.nextjid == 1 || exists i :: 0 <= i < MAXJOBS && t'.jobs[i].jid == t'.nextjid - 1)
  {
    DeletedKeeps(t, pid);
    ListedSlot(t, pid);
    var t', k := Deleted(t, pid), SlotOfPid(t.jobs, pid);
    StateAbsent(t', pid);
    forall q | q != pid ensures StateOf(t', q) == StateOf(t, q) {
      SameSlot(t, t', k, q);
    }
  }

  lemma AddedKeeps(t: Table, pid: int, state: JobState)
    requires WellKept(t) && HasRoom(t) && pid >= 1 && pid !in Listed(t) && state != Undef
    ensures WellKept(Added(t, pid, state)) && Listed(Added(t, pid, state)) == Listed(t) + {pid}
    ensures forall i :: 0 <= i < MAXJOBS ==>
      Added(t, pid, state).jobs[i] == t.jobs[i] || (t.jobs[i].pid == 0 && Added(t, pid, state).jobs[i].pid == pid)
  {
    assert forall k :: 0 <= k < MAXJOBS && t.jobs[k].pid != 0 ==> t.jobs[k].pid in Listed(t);
    ListedReplace(t, Added(t, pid, state), SlotOfPid(t.jobs, 0));
  }

  lemma DeletedKeeps(t: Table, pid: int)
    requires WellKept(t) && pid in Listed(t)
    ensures WellKept(Deleted(t, pid)) && Listed(Deleted(t, pid)) == Listed(t) - {pid}
    ensures forall i :: 0 <= i < MAXJOBS ==>
      Deleted(t, pid).jobs[i] == if t.jobs[i].pid == pid then CLEARED else t.jobs[i]
  {
    ListedSlot(t, pid);
    var d := SlotOfPid(t.jobs, pid);
    assert t.jobs[d].pid == pid != 0;
    assert forall i :: 0 <= i < MAXJOBS && i != d ==> t.jobs[i].pid != pid;
    ListedReplace(t, Deleted(t, pid), d);
  }

  /** Changing one slot takes its old pid off the list and puts the new one on. */
  lemma ListedReplace(t: Table, t': Table, k: nat)
    requires |t.jobs| == |t'.jobs| && k < |t.jobs| && t'.jobs == t.jobs[k := t'.jobs[k]]
    requires forall i :: 0 <= i < |t.jobs| && i != k && t.jobs[i].pid != 0 ==> t.jobs[i].pid != t.jobs[k].pid
    ensures Listed(t') == Listed(t) - {t.jobs[k].pid} + (if t'.jobs[k].pid != 0 then {t'.jobs[k].pid} else {})
  {
    var want := Listed(t) - {t.jobs[k].pid} + (if t'.jobs[k].pid != 0 then {t'.jobs[k].pid} else {});
    forall x | x in want ensures x in Listed(t') {
      if x != t'.jobs[k].pid {
        var i :| 0 <= i < |t.jobs| && t.jobs[i].pid != 0 && t.jobs[i].pid == x;
        assert t'.jobs[i].pid == x;
      } else {
        assert x == 0 ==> x in Listed(t);
      }
    }
    forall x | x in Listed(t') ensures x in want {
      var i :| 0 <= i < |t'.jobs| && t'.jobs[i].pid != 0 && t'.jobs[i].pid == x;
      if i != k { assert t.jobs[i].pid == x; }
    }
  }

  /** Overwriting the state of an occupied slot. */
  function WithState(t: Table, slot: nat, state: JobState): Table
    requires slot < |t.jobs|
  {
    t.(jobs := t.jobs[slot := t.jobs[slot].(state := state)])
  }

  lemma WithStateKeeps(t: Table, slot: nat, state: JobState)
    requires WellKept(t) && slot < MAXJOBS && state != Undef && (t.jobs[slot].pid == 0 ==> state == Bg)
    ensures WellKept(WithState(t, slot, state)) && Listed(WithState(t, slot, state)) == Listed(t)
  {
    var t' := WithState(t, slot, state);
    assert forall i :: 0 <= i < MAXJOBS ==> t'.jobs[i].pid == t.jobs[i].pid;
    ListedReplace(t, t', slot);
    assert t.jobs[slot].pid != 0 ==> t.jobs[slot].pid in Listed(t);
    assert 0 !in Listed(t);
  }

  lemma WithStateMarks(t: Table, slot: nat, state: JobState)
    requires WellKept(t) && slot < MAXJOBS && state != Undef && (t.jobs[slot].pid == 0 ==> state == Bg)
    ensures var t', pid := WithState(t, slot, state), t.jobs[slot].pid;
      && (pid != 0 ==> StateOf(t', pid) == state)
      && forall q :: q != pid || pid == 0 ==> StateOf(t', q) == StateOf(t, q)
  {
    WithStateKeeps(t, slot, state);
    var t', pid := WithState(t, slot, state), t.jobs[slot].pid;
    if pid != 0 { StateAt(t', slot); }
    forall q | q != pid || pid == 0 ensures StateOf(t', q) == StateOf(t, q) {
      SameSlot(t, t', slot, q);
    }
  }
}
