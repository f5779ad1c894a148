/** The shell's main loop interleaved with its SIGCHLD handler, the kernel choosing freely when
    children stop, continue and end and when the handler is delivered. */
module ShellRuns {
  import opened JobTable

  /** A child that waitpid has not removed, with what waitpid would report about it. */
  datatype Child = Running | StopPending | Stopped | Exited | Signaled

  datatype Report = ByExit | ByStop | BySignal

  /** Where the main program stands. */
  datatype Pc =
    | Prompt
    | Blocked(bg: bool)                          // eval has blocked SIGCHLD
    | Forked(bg: bool, pid: int)                 // the child runs, addjob comes next
    | WaitEnter(pid: int, fromEval: bool)        // at the start of waitfg
    | Waiting(pid: int, prev: bool, fromEval: bool) // in waitfg's loop, mask empty
    | WaitLeave(prev: bool, fromEval: bool)      // waitfg restores the mask it found
    | Restore                                    // eval restores its mask
    | BgfgSet(slot: nat, pid: int, fg: bool)     // do_bgfg has looked the job up and tested it

  datatype Handler = Idle | Loop | Got(pid: int, report: Report)

  datatype Shell = Shell(t: Table, blocked: bool, pc: Pc, handler: Handler, children: map<int, Child>,
                         crashed: bool)

  ghost predicate Init(s: Shell) {
    s == Shell(Table(seq(MAXJOBS, _ => CLEARED), 1), false, Prompt, Idle, map[], false)
  }

  // ----- Steps of the main program -----

  ghost predicate EvalBlock(s: Shell, s': Shell) {
    s.pc == Prompt && exists bg :: s' == s.(blocked := true, pc := Blocked(bg))
  }

  /** The kernel gives the child a pid no unreaped child has. */
  ghost predicate Fork(s: Shell, s': Shell) {
    s.pc.Blocked? && exists pid ::
      pid >= 1 && pid !in s.children
      && s' == s.(children := s.children[pid := Running], pc := Forked(s.pc.bg, pid))
  }

  /** addjob; a full table refuses the job, and eval goes on all the same. */
  ghost predicate AddTheJob(s: Shell, s': Shell) {
    s.pc.Forked?
    && s' == s.(t := Added(s.t, s.pc.pid, if s.pc.bg then Bg else Fg),
                pc := if s.pc.bg then Restore else WaitEnter(s.pc.pid, true))
  }

  ghost predicate WaitUnmask(s: Shell, s': Shell) {
    s.pc.WaitEnter? && s' == s.(blocked := false, pc := Waiting(s.pc.pid, s.blocked, s.pc.fromEval))
  }

  ghost predicate WaitTest(s: Shell, s': Shell) {
    s.pc.Waiting?
    && s' == if s.pc.pid == FgPid(s.t.jobs) then s else s.(pc := WaitLeave(s.pc.prev, s.pc.fromEval))
  }

  ghost predicate WaitReturn(s: Shell, s': Shell) {
    s.pc.WaitLeave? && s' == s.(blocked := s.pc.prev, pc := if s.pc.fromEval then Restore else Prompt)
  }

  ghost predicate EvalReturn(s: Shell, s': Shell) {
    s.pc.Restore? && s' == s.(blocked := false, pc := Prompt)
  }

  /** fg or bg with a job id: look the job up and test its state. */
  ghost predicate BgfgLookup(s: Shell, s': Shell) {
    s.pc == Prompt && exists jid, fg ::
      jid >= 1
      && var slot := SlotOfJid(s.t.jobs, jid);
         s' == if slot < |s.t.jobs| && Movable(s.t.jobs[slot].state, fg)
               then s.(pc := BgfgSet(slot, s.t.jobs[slot].pid, fg))
               else s
  }

  predicate Movable(state: JobState, fg: bool) {
    state == St || state == if fg then Bg else Fg
  }

  ghost predicate BgfgStore(s: Shell, s': Shell) {
    s.pc.BgfgSet? && s.pc.slot < |s.t.jobs|
    && s' == s.(t := WithState(s.t, s.pc.slot, if s.pc.fg then Fg else Bg),
                pc := if s.pc.fg then WaitEnter(s.pc.pid, false) else Prompt)
  }

  ghost predicate MainStep(s: Shell, s': Shell) {
    s.handler == Idle && !s.crashed
    && (EvalBlock(s, s') || Fork(s, s') || AddTheJob(s, s') || WaitUnmask(s, s') || WaitTest(s, s')
        || WaitReturn(s, s') || EvalReturn(s, s') || BgfgLookup(s, s') || BgfgStore(s, s'))
  }

  // ----- Steps of the handler -----

  ghost predicate Deliver(s: Shell, s': Shell) {
    Deliverable(s) && s' == s.(handler := Loop)
  }

  ghost predicate Deliverable(s: Shell) {
    s.handler == Idle && !s.blocked && !s.crashed
  }

  /** waitpid reports a child; one that ended is gone for good. */
  ghost predicate WaitPid(s: Shell, s': Shell) {
    s.handler == Loop && exists pid ::
      pid in s.children &&
      match s.children[pid]
      case Exited => s' == s.(children := s.children - {pid}, handler := Got(pid, ByExit))
      case Signaled => s' == s.(children := s.children - {pid}, handler := Got(pid, BySignal))
      case StopPending => s' == s.(children := s.children[pid := Stopped], handler := Got(pid, ByStop))
      case _ => false
  }

  ghost predicate HandlerReturn(s: Shell, s': Shell) {
    s.handler == Loop
    && (forall pid :: pid in s.children ==> s.children[pid] == Running || s.children[pid] == Stopped)
    && s' == s.(handler := Idle)
  }

  /** What the handler does with a report. The lookups of a stopped or killed child are
      dereferenced, so a child that is not on the table crashes the shell. */
  ghost function Handle(s: Shell): Shell
    requires s.handler.Got?
  {
    var pid, slot := s.handler.pid, SlotOfPid(s.t.jobs, s.handler.pid);
    match s.handler.report
    case ByExit => s.(t := Deleted(s.t, pid), handler := Loop)
    case ByStop =>
      if pid < 1 || slot == |s.t.jobs| then s.(crashed := true)
      else s.(t := WithState(s.t, slot, St), handler := Loop)
    case BySignal =>
      if pid < 1 || slot == |s.t.jobs| then s.(crashed := true)
      else s.(t := Deleted(s.t, pid), handler := Loop)
  }

  ghost predicate HandlerStep(s: Shell, s': Shell) {
    !s.crashed
    && (Deliver(s, s') || WaitPid(s, s') || HandlerReturn(s, s') || (s.handler.Got? && s' == Handle(s)))
  }

  // ----- Steps of the children -----

  predicate Turns(a: Child, b: Child) {
    match a
    case Running => b != Stopped
    case StopPending => b != Stopped
    case Stopped => b != StopPending
    case _ => false
  }

  ghost predicate ChildStep(s: Shell, s': Shell) {
    exists pid, b ::
      pid in s.children && Turns(s.children[pid], b) && s' == s.(children := s.children[pid := b])
  }

  ghost predicate Next(s: Shell, s': Shell) {
    MainStep(s, s') || HandlerStep(s, s') || ChildStep(s, s')
  }

  ghost predicate IsRun(run: seq<Shell>) {
    && |run| > 0 && Init(run[0])
    && forall i :: 0 <= i < |run| - 1 ==> Next(run[i], run[i + 1])
  }

  // ----- The two assumptions -----

  /** A job is started only while the table has a free slot. */
  ghost predicate Room(s: Shell) {
    s.pc.Forked? ==> HasRoom(s.t)
  }

  /** The handler is not deleting the very job fg has just tested. For bg that does no harm: the
      slot is marked Bg without a process, and the next job overwrites it. */
  ghost predicate NoRace(s: Shell) {
    s.pc.BgfgSet? && s.pc.fg ==> s.handler != Got(s.pc.pid, ByExit) && s.handler != Got(s.pc.pid, BySignal)
  }

  ghost predicate Calm(run: seq<Shell>) {
    forall i :: 0 <= i < |run| ==> Room(run[i]) && NoRace(run[i])
  }

  // ----- The invariant -----

  ghost predicate Ended(h: Handler) {
    h.Got? && h.report != ByStop
  }

  /** The pids that ought to be on the table: the unreaped children, less one just forked, plus
      one just reaped. */
  ghost function Expected(s: Shell): set<int> {
    s.children.Keys + (if Ended(s.handler) then {s.handler.pid} else {}) - (if s.pc.Forked? then {s.pc.pid} else {})
  }

  ghost predicate MaskRight(s: Shell) {
    && (s.blocked <==> s.pc.Blocked? || s.pc.Forked? || s.pc.Restore? || (s.pc.WaitEnter? && s.pc.fromEval))
    && (s.pc.Waiting? || s.pc.WaitLeave? ==> s.pc.prev == s.pc.fromEval)
    && (s.handler != Idle ==> !s.blocked)
  }

  ghost predicate PidsRight(s: Shell) {
    && (forall pid :: pid in s.children ==> pid >= 1)
    && (s.handler.Got? ==> s.handler.pid >= 1 && (s.handler.pid in s.children <==> s.handler.report == ByStop))
    && (s.pc.Forked? ==> s.pc.pid in s.children)
    && Listed(s.t) == Expected(s)
  }

  ghost predicate ForegroundRight(s: Shell) {
    && (forall i :: 0 <= i < |s.t.jobs| && s.t.jobs[i].state == Fg ==>
          (s.pc.WaitEnter? || s.pc.Waiting?) && s.t.jobs[i].pid == s.pc.pid)
    && (s.pc.BgfgSet? ==>
          && s.pc.slot < |s.t.jobs| && s.pc.pid >= 1
          && (s.t.jobs[s.pc.slot].pid == s.pc.pid || (!s.pc.fg && s.t.jobs[s.pc.slot].pid == 0)))
  }

  ghost predicate Inv(s: Shell) {
    !s.crashed && WellKept(s.t) && MaskRight(s) && PidsRight(s) && ForegroundRight(s)
  }

  lemma InitInv(s: Shell)
    requires Init(s)
    ensures Inv(s)
  {
  }

  /** When waitfg's test fails, no job is in the foreground any more. */
  lemma NoForegroundLeft(s: Shell)
    requires Inv(s) && s.pc.Waiting? && s.pc.pid != FgPid(s.t.jobs)
    ensures forall i :: 0 <= i < |s.t.jobs| ==> s.t.jobs[i].state != Fg
  {
  }

  lemma MainInv(s: Shell, s': Shell)
    requires Inv(s) && MainStep(s, s') && !AddTheJob(s, s') && !BgfgStore(s, s')
    ensures Inv(s')
  {
    if WaitTest(s, s') && s' != s {
      NoForegroundLeft(s);
    }
  }

  lemma AddInv(s: Shell, s': Shell)
    requires Inv(s) && Room(s) && MainStep(s, s') && AddTheJob(s, s')
    ensures Inv(s')
  {
    AddedKeeps(s.t, s.pc.pid, if s.pc.bg then Bg else Fg);
  }

  lemma StoreInv(s: Shell, s': Shell)
    requires Inv(s) && MainStep(s, s') && BgfgStore(s, s')
    ensures Inv(s')
  {
    WithStateKeeps(s.t, s.pc.slot, if s.pc.fg then Fg else Bg);
  }

  lemma StopInv(s: Shell)
    requires Inv(s) && s.handler.Got? && s.handler.report == ByStop
    ensures Inv(Handle(s))
  {
    ListedSlot(s.t, s.handler.pid);
    WithStateKeeps(s.t, SlotOfPid(s.t.jobs, s.handler.pid), St);
  }

  lemma EndInv(s: Shell)
    requires Inv(s) && NoRace(s) && s.handler.Got? && s.handler.report != ByStop
    ensures Inv(Handle(s))
  {
    var pid, s' := s.handler.pid, Handle(s);
    ListedSlot(s.t, pid);
    DeletedKeeps(s.t, pid);
    assert s'.t == Deleted(s.t, pid);
    assert PidsRight(s') && MaskRight(s') && ForegroundRight(s');
  }

  lemma WaitPidInv(s: Shell, s': Shell)
    requires Inv(s) && !s.crashed && WaitPid(s, s')
    ensures Inv(s')
  {
    assert s'.handler.pid in s.children;
    assert Ended(s'.handler) ==> s'.children.Keys == s.children.Keys - {s'.handler.pid};
    assert !Ended(s'.handler) ==> s'.children.Keys == s.children.Keys;
    assert s'.t == s.t && s'.pc == s.pc;
  }

  lemma HandlerInv(s: Shell, s': Shell)
    requires Inv(s) && NoRace(s) && HandlerStep(s, s')
    ensures Inv(s')
  {
    if s.handler.Got? {
      if s.handler.report == ByStop { StopInv(s); } else { EndInv(s); }
    } else if WaitPid(s, s') {
      WaitPidInv(s, s');
    }
  }

  lemma ChildInv(s: Shell, s': Shell)
    requires Inv(s) && ChildStep(s, s')
    ensures Inv(s')
  {
    assert s'.children.Keys == s.children.Keys;
  }

  lemma InvNext(s: Shell, s': Shell)
    requires Inv(s) && Room(s) && NoRace(s) && Next(s, s')
    ensures Inv(s')
  {
    if ChildStep(s, s') {
      ChildInv(s, s');
    } else if HandlerStep(s, s') {
      HandlerInv(s, s');
    } else if AddTheJob(s, s') {
      AddInv(s, s');
    } else if BgfgStore(s, s') {
      StoreInv(s, s');
    } else {
      MainInv(s, s');
    }
  }

  lemma {:induction false} Reachable(run: seq<Shell>)
    requires IsRun(run) && Calm(run)
    ensures Inv(run[|run| - 1])
  {
    if |run| == 1 {
      InitInv(run[0]);
    } else {
      var before := run[..|run| - 1];
      Reachable(before);
      InvNext(before[|before| - 1], run[|run| - 1]);
    }
  }

  /** At most one job is in the foreground, none at the prompt, the table lists exactly the unreaped
      children whenever SIGCHLD can be delivered, and no lookup of the handler has failed. */
  ghost predicate Sound(s: Shell) {
    && (forall i, j :: 0 <= i < j < |s.t.jobs| ==> !(s.t.jobs[i].state == Fg && s.t.jobs[j].state == Fg))
    && (s.pc == Prompt ==> forall i :: 0 <= i < |s.t.jobs| ==> s.t.jobs[i].state != Fg)
    && (Deliverable(s) ==> Listed(s.t) == s.children.Keys)
    && !s.crashed
  }

  lemma InvSound(s: Shell)
    requires Inv(s)
    ensures Sound(s)
  {
    forall i, j | 0 <= i < j < |s.t.jobs| ensures !(s.t.jobs[i].state == Fg && s.t.jobs[j].state == Fg) {
      assert s.t.jobs[i].pid == s.t.jobs[j].pid ==> s.t.jobs[i].pid == 0;
    }
    assert Deliverable(s) ==> !s.pc.Forked? && !Ended(s.handler);
  }

  /** Job control, over every calm interleaving. */
  lemma JobControl(run: seq<Shell>)
    requires IsRun(run) && Calm(run)
    ensures Sound(run[|run| - 1])
  {
    Reachable(run);
    InvSound(run[|run| - 1]);
  }

  // ----- The states of the jobs -----

  /** What one step makes of a job's state: a new job is marked as it was started, fg and bg mark the
      job they found, a report of a stop marks it stopped, a report of its end removes it, and no
      other step changes any job's state. */
  function NextState(s: Shell, s': Shell, pid: int): JobState {
    if s.pc.Forked? && s'.pc != s.pc && pid == s.pc.pid then if s.pc.bg then Bg else Fg
    else if s.pc.BgfgSet? && s'.pc != s.pc && s.pc.slot < |s.t.jobs| && pid == s.pc.pid == s.t.jobs[s.pc.slot].pid then
      if s.pc.fg then Fg else Bg
    else if s.handler.Got? && s'.handler != s.handler && pid == s.handler.pid then
      if s.handler.report == ByStop then St else Undef
    else StateOf(s.t, pid)
  }

  lemma JobStates(s: Shell, s': Shell, pid: int)
    requires Inv(s) && Room(s) && NoRace(s) && Next(s, s')
    ensures StateOf(s'.t, pid) == NextState(s, s', pid)
  {
    if ChildStep(s, s') {
      assert s'.pc == s.pc && s'.handler == s.handler && s'.t == s.t;
    } else if HandlerStep(s, s') {
      HandlerStates(s, s', pid);
    } else if AddTheJob(s, s') {
      AddedMarks(s.t, s.pc.pid, if s.pc.bg then Bg else Fg);
    } else if BgfgStore(s, s') {
      StoreStates(s, s', pid);
    } else {
      assert s'.t == s.t;
      if Fork(s, s') { assert !s.pc.Forked?; }
    }
  }

  lemma HandlerStates(s: Shell, s': Shell, pid: int)
    requires Inv(s) && NoRace(s) && HandlerStep(s, s')
    ensures s'.pc == s.pc && StateOf(s'.t, pid) == NextState(s, s', pid)
  {
    if s.handler.Got? {
      ListedSlot(s.t, s.handler.pid);
      if s.handler.report == ByStop {
        WithStateMarks(s.t, SlotOfPid(s.t.jobs, s.handler.pid), St);
      } else {
        DeletedMarks(s.t, s.handler.pid);
      }
    }
  }

  lemma StoreStates(s: Shell, s': Shell, pid: int)
    requires Inv(s) && MainStep(s, s') && BgfgStore(s, s')
    ensures StateOf(s'.t, pid) == NextState(s, s', pid)
  {
    WithStateMarks(s.t, s.pc.slot, if s.pc.fg then Fg else Bg);
  }

  /** fg accepts exactly the background and the stopped jobs, bg the foreground and the stopped ones. */
  lemma LookupAccepts(s: Shell, slot: nat, fg: bool)
    requires s.pc == Prompt && slot < |s.t.jobs| && s.t.jobs[slot].jid >= 1
    requires SlotOfJid(s.t.jobs, s.t.jobs[slot].jid) == slot
    ensures (exists s' :: BgfgLookup(s, s') && s'.pc == BgfgSet(slot, s.t.jobs[slot].pid, fg)) <==>
              s.t.jobs[slot].state in (if fg then {Bg, St} else {Fg, St})
  {
    var s' := s.(pc := BgfgSet(slot, s.t.jobs[slot].pid, fg));
    if s.t.jobs[slot].state in (if fg then {Bg, St} else {Fg, St}) {
      assert BgfgLookup(s, s');
    }
  }

  // ----- Foreground jobs are waited for -----

  /** The shell is waiting for p, and p is in the foreground. */
  ghost predicate WaitsFor(s: Shell, p: int) {
    (s.pc.WaitEnter? || s.pc.Waiting?) && s.pc.pid == p && StateOf(s.t, p) == Fg
  }

  lemma WaitStep(s: Shell, s': Shell, p: int)
    requires Inv(s) && Room(s) && NoRace(s) && Next(s, s') && WaitsFor(s, p) && !(s.handler.Got? && s.handler.pid == p)
    ensures WaitsFor(s', p)
  {
    JobStates(s, s', p);
    StillForeground(s, p);
  }

  /** waitfg's test does not let go of a foreground job. */
  lemma StillForeground(s: Shell, p: int)
    requires Inv(s) && WaitsFor(s, p)
    ensures FgPid(s.t.jobs) == p
  {
    assert s.t.jobs[SlotOfPid(s.t.jobs, p)].state == Fg;
  }

  /** Eval started job p in the foreground, or fg marked it. */
  ghost predicate StartsForeground(s: Shell, s': Shell, p: int) {
    (s.pc == Forked(false, p) && AddTheJob(s, s')) || (s.pc.BgfgSet? && s.pc.fg && s.pc.pid == p && BgfgStore(s, s'))
  }

  lemma {:induction false} WaitedFor(run: seq<Shell>, i: nat, j: nat, p: int) returns (k: nat)
    requires IsRun(run) && Calm(run) && i <= j < |run| && WaitsFor(run[i], p) && !WaitsFor(run[j], p)
    ensures i <= k < j && run[k].handler.Got? && run[k].handler.pid == p
    decreases j - i
  {
    hide WaitsFor, Inv, Next, Room, NoRace, Init;
    Reachable(run[..i + 1]);
    assert Room(run[i]) && NoRace(run[i]);
    k := i;
    if !(run[i].handler.Got? && run[i].handler.pid == p) {
      WaitStep(run[i], run[i + 1], p);
      k := WaitedFor(run, i + 1, j, p);
    }
  }

  /** In a calm run the shell does not go on from a foreground job until the handler has got a report
      that this very job has stopped or ended. */
  lemma ForegroundIsWaitedFor(run: seq<Shell>, i: nat, j: nat, p: int) returns (k: nat)
    requires IsRun(run) && Calm(run) && i < j < |run| && MainStep(run[i], run[i + 1])
    requires StartsForeground(run[i], run[i + 1], p)
    requires !run[j].pc.WaitEnter? && !run[j].pc.Waiting?
    ensures i < k < j && run[k].handler.Got? && run[k].handler.pid == p
  {
    hide Inv, Room, NoRace, Init, Next, MainStep, StartsForeground;
    Reachable(run[..i + 1]);
    var s := run[i];
    assert Inv(s) && Room(s) && NoRace(s);
    ForegroundStarts(s, run[i + 1], p);
    k := WaitedFor(run, i + 1, j, p);
  }

  lemma ForegroundStarts(s: Shell, s': Shell, p: int)
    requires Inv(s) && Room(s) && NoRace(s) && MainStep(s, s') && StartsForeground(s, s', p)
    ensures WaitsFor(s', p)
  {
    JobStates(s, s', p);
    if s.pc.BgfgSet? { StateAt(s.t, s.pc.slot); }
  }

  // ----- The assumptions are exactly what is needed -----

  /** A child was forked on a full table: it is off the list, and SIGCHLD is still blocked. */
  ghost predicate Forsaken(s: Shell) {
    && s.handler == Idle && s.blocked && !s.crashed
    && ((s.pc.Forked? && s.pc.pid in s.children && s.pc.pid !in Listed(s.t) && !HasRoom(s.t))
        || ((s.pc == Restore || (s.pc.WaitEnter? && s.pc.fromEval))
            && exists pid :: pid in s.children && pid !in Listed(s.t)))
  }

  /** fg works on a slot whose job the handler is deleting or has deleted. */
  ghost predicate Raced(s: Shell) {
    match s.pc
    case BgfgSet(slot, pid, fg) =>
      && fg && slot < |s.t.jobs|
      && (s.t.jobs[slot].pid == 0 || (Ended(s.handler) && s.handler.pid == pid && pid >= 1 && SlotOfPid(s.t.jobs, pid) == slot))
    case WaitEnter(_, fromEval) => !fromEval && GhostForeground(s)
    case Waiting(_, _, fromEval) => !fromEval && GhostForeground(s)
    case WaitLeave(_, fromEval) => !fromEval && GhostForeground(s)
    case _ => false
  }

  /** A slot without a process whose state says foreground. */
  ghost predicate GhostForeground(s: Shell) {
    exists i :: 0 <= i < |s.t.jobs| && s.t.jobs[i].pid == 0 && s.t.jobs[i].state == Fg
  }

  lemma ForsakenStep(s: Shell, s': Shell)
    requires Forsaken(s) && Next(s, s')
    ensures Forsaken(s') || !Sound(s')
  {
    if ChildStep(s, s') {
      assert s'.children.Keys == s.children.Keys;
    } else if AddTheJob(s, s') {
      assert s'.t == s.t;
    }
  }

  /** The handler never touches a slot without a process. */
  lemma HandleSpares(s: Shell, i: nat)
    requires s.handler.Got? && i < |s.t.jobs| && s.t.jobs[i].pid == 0
    ensures |Handle(s).t.jobs| == |s.t.jobs| && Handle(s).t.jobs[i] == s.t.jobs[i]
  {
  }

  lemma RacedHandler(s: Shell, s': Shell)
    requires Raced(s) && (HandlerStep(s, s') || ChildStep(s, s'))
    ensures Raced(s')
  {
    if s.handler.Got? && s' == Handle(s) {
      if i :| 0 <= i < |s.t.jobs| && s.t.jobs[i].pid == 0 && s.t.jobs[i].state == Fg {
        HandleSpares(s, i);
      }
      if s.pc.BgfgSet? && s.t.jobs[s.pc.slot].pid == 0 {
        HandleSpares(s, s.pc.slot);
      }
    } else {
      assert s'.t == s.t && s'.pc == s.pc;
      assert s.handler.Got? ==> s'.handler == s.handler;
    }
  }

  lemma RacedStep(s: Shell, s': Shell)
    requires Raced(s) && Next(s, s')
    ensures Raced(s') || !Sound(s')
  {
    if HandlerStep(s, s') || ChildStep(s, s') {
      RacedHandler(s, s');
    } else if BgfgStore(s, s') {
      assert s'.t.jobs[s.pc.slot].state == Fg && s'.t.jobs[s.pc.slot].pid == 0;
    } else {
      assert s'.t == s.t;
    }
  }

  /** Once either has happened the run cannot come back to the prompt unharmed. */
  lemma {:induction false} Doomed(run: seq<Shell>, i: nat) returns (j: nat)
    requires IsRun(run) && i < |run| && run[|run| - 1].pc == Prompt
    requires Forsaken(run[i]) || Raced(run[i])
    ensures i < j < |run| && !Sound(run[j])
    decreases |run| - i
  {
    hide Sound, Next;
    assert i < |run| - 1;
    if Forsaken(run[i]) { ForsakenStep(run[i], run[i + 1]); } else { RacedStep(run[i], run[i + 1]); }
    j := i + 1;
    if Sound(run[i + 1]) { j := Doomed(run, i + 1); }
  }

  lemma BrokenAssumption(s: Shell)
    requires Inv(s) && !(Room(s) && NoRace(s))
    ensures Forsaken(s) || Raced(s)
  {
    if !Room(s) {
      assert s.pc.pid !in Listed(s.t);
    } else {
      var slot, pid := s.pc.slot, s.pc.pid;
      ListedSlot(s.t, pid);
      assert s.t.jobs[slot].pid == pid != 0;
    }
  }

  /** A run is calm up to its first state that is not. */
  lemma {:induction false} FirstStorm(run: seq<Shell>) returns (i: nat)
    requires IsRun(run) && !Calm(run)
    ensures i < |run| && Inv(run[i]) && !(Room(run[i]) && NoRace(run[i]))
  {
    hide Room, NoRace, Inv, Next, Init;
    var before := run[..|run| - 1];
    if before == [] {
      InitInv(run[0]);
      i := 0;
    } else if Calm(before) {
      Reachable(before);
      InvNext(before[|before| - 1], run[|run| - 1]);
      i := |run| - 1;
    } else {
      i := FirstStorm(before);
    }
  }

  /** The exact condition: a run that has come back to the prompt was sound throughout if and only
      if every job was started on a table with room and no job was reaped inside fg. */
  lemma JobControlIff(run: seq<Shell>)
    requires IsRun(run) && run[|run| - 1].pc == Prompt
    ensures (forall i :: 0 <= i < |run| ==> Sound(run[i])) <==> Calm(run)
  {
    hide Sound, Room, NoRace, Inv, Next, Init;
    if Calm(run) {
      forall i | 0 <= i < |run| ensures Sound(run[i]) {
        var before := run[..i + 1];
        JobControl(before);
      }
    } else {
      var i := FirstStorm(run);
      BrokenAssumption(run[i]);
      var j := Doomed(run, i);
    }
  }

  // ----- Both ways of failing, from the start -----

  ghost predicate IsPath(path: seq<Shell>) {
    |path| > 0 && forall i :: 0 <= i < |path| - 1 ==> Next(path[i], path[i + 1])
  }

  lemma Join(run: seq<Shell>, path: seq<Shell>)
    requires IsRun(run) && IsPath(path) && path[0] == run[|run| - 1]
    ensures IsRun(run + path[1..])
  {
    var r := run + path[1..];
    forall i | 0 <= i < |r| - 1 ensures Next(r[i], r[i + 1]) {
      if i >= |run| - 1 { assert r[i] == path[i - (|run| - 1)] && r[i + 1] == path[i + 1 - (|run| - 1)]; }
    }
  }

  /** A foreground job that ends brings the shell back to the prompt, with its signals unblocked and
      the job off the table. */
  lemma ForegroundFinishes(s: Shell) returns (path: seq<Shell>)
    requires Inv(s) && Room(s) && s.pc.Forked? && !s.pc.bg && s.children[s.pc.pid] == Running
    requires forall pid :: pid in s.children ==> s.children[pid] == Running || s.children[pid] == Stopped
    ensures IsPath(path) && path[0] == s
    ensures path[|path| - 1] == s.(t := Deleted(Added(s.t, s.pc.pid, Fg), s.pc.pid), blocked := false,
                                   pc := Prompt, children := s.children - {s.pc.pid})
    ensures StateOf(path[|path| - 1].t, s.pc.pid) == Undef
  {
    var pid := s.pc.pid;
    AddedMarks(s.t, pid, Fg);
    AddedKeeps(s.t, pid, Fg);
    DeletedMarks(Added(s.t, pid, Fg), pid);
    var start := StartForeground(s);
    var reap := ReapForeground(start[|start| - 1], pid);
    var end := LeaveForeground(reap[|reap| - 1], pid);
    JoinPaths(start, reap);
    JoinPaths(start + reap[1..], end);
    path := start + reap[1..] + end[1..];
  }

  lemma StartForeground(s: Shell) returns (path: seq<Shell>)
    requires Inv(s) && Room(s) && s.pc.Forked? && !s.pc.bg
    ensures IsPath(path) && path[0] == s
    ensures path[|path| - 1] == s.(t := Added(s.t, s.pc.pid, Fg), blocked := false, pc := Waiting(s.pc.pid, true, true))
  {
    var s1 := s.(t := Added(s.t, s.pc.pid, Fg), pc := WaitEnter(s.pc.pid, true));
    assert AddTheJob(s, s1);
    var s2 := s1.(blocked := false, pc := Waiting(s.pc.pid, true, true));
    assert WaitUnmask(s1, s2);
    path := [s, s1, s2];
    assert Next(s, s1) && Next(s1, s2);
  }

  lemma ReapForeground(s: Shell, pid: int) returns (path: seq<Shell>)
    requires Deliverable(s) && pid in s.children && s.children[pid] == Running
    requires forall q :: q in s.children ==> s.children[q] == Running || s.children[q] == Stopped
    ensures IsPath(path) && path[0] == s
    ensures path[|path| - 1] == s.(t := Deleted(s.t, pid), children := s.children - {pid})
  {
    var s1 := s.(children := s.children[pid := Exited]);
    assert Turns(Running, Exited) && ChildStep(s, s1);
    var s2 := s1.(handler := Loop);
    assert Deliver(s1, s2);
    var s3 := s2.(children := s2.children - {pid}, handler := Got(pid, ByExit));
    assert WaitPid(s2, s3);
    var s4 := Handle(s3);
    var s5 := s4.(handler := Idle);
    assert s5.children == s.children - {pid};
    assert HandlerReturn(s4, s5);
    path := [s, s1, s2, s3, s4, s5];
    assert Next(s, s1) && Next(s1, s2) && Next(s2, s3) && Next(s3, s4) && Next(s4, s5);
  }

  lemma LeaveForeground(s: Shell, pid: int) returns (path: seq<Shell>)
    requires s.handler == Idle && !s.crashed && s.pc == Waiting(pid, true, true) && pid >= 1
    requires StateOf(s.t, pid) == Undef && forall i :: 0 <= i < |s.t.jobs| && s.t.jobs[i].pid != 0 ==> s.t.jobs[i].state != Undef
    ensures IsPath(path) && path[0] == s
    ensures path[|path| - 1] == s.(blocked := false, pc := Prompt)
  {
    assert SlotOfPid(s.t.jobs, pid) == |s.t.jobs|;
    assert FgPid(s.t.jobs) != pid;
    var s1 := s.(pc := WaitLeave(true, true));
    assert WaitTest(s, s1);
    var s2 := s1.(blocked := true, pc := Restore);
    assert WaitReturn(s1, s2);
    var s3 := s2.(blocked := false, pc := Prompt);
    assert EvalReturn(s2, s3);
    path := [s, s1, s2, s3];
    assert Next(s, s1) && Next(s1, s2) && Next(s2, s3);
  }

  lemma JoinPaths(a: seq<Shell>, b: seq<Shell>)
    requires IsPath(a) && IsPath(b) && b[0] == a[|a| - 1]
    ensures IsPath(a + b[1..]) && (a + b[1..])[0] == a[0] && (a + b[1..])[|a + b[1..]| - 1] == b[|b| - 1]
  {
    hide Next;
    var r := a + b[1..];
    forall i | 0 <= i < |r| - 1 ensures Next(r[i], r[i + 1]) {
      if i >= |a| - 1 { assert r[i] == b[i - (|a| - 1)] && r[i + 1] == b[i + 1 - (|a| - 1)]; }
    }
  }

  /** Whenever a job is started on a full table, its stopping crashes the shell. */
  lemma FullTableCrashes(s: Shell) returns (path: seq<Shell>)
    requires Inv(s) && s.pc.Forked? && s.children[s.pc.pid] == Running && !HasRoom(s.t)
    ensures IsPath(path) && path[0] == s && path[|path| - 1].crashed
  {
    var pid, bg := s.pc.pid, s.pc.bg;
    assert pid !in Listed(s.t);
    ListedSlot(s.t, pid);
    var s1 := s.(pc := if bg then Restore else WaitEnter(pid, true));
    assert AddTheJob(s, s1);
    var s2 := s.(blocked := false, pc := if bg then Prompt else Waiting(pid, true, true));
    assert if bg then EvalReturn(s1, s2) else WaitUnmask(s1, s2);
    var s3 := s2.(children := s.children[pid := StopPending]);
    assert Turns(Running, StopPending) && ChildStep(s2, s3);
    var s4 := s3.(handler := Loop);
    assert Deliver(s3, s4);
    var s5 := s4.(children := s4.children[pid := Stopped], handler := Got(pid, ByStop));
    assert WaitPid(s4, s5);
    var s6 := Handle(s5);
    path := [s, s1, s2, s3, s4, s5, s6];
    assert Next(s, s1) && Next(s1, s2) && Next(s2, s3) && Next(s3, s4) && Next(s4, s5) && Next(s5, s6);
  }

  ghost predicate EndsWithGhost(run: seq<Shell>) {
    run != [] && var s := run[|run| - 1]; !s.crashed && s.pc == Prompt && GhostForeground(s)
  }

  /** Whenever the handler deletes the job that fg has just tested, a foreground job without a
      process is left at the prompt. */
  lemma RaceLeavesForeground(s: Shell) returns (path: seq<Shell>)
    requires Inv(s) && s.pc.BgfgSet? && s.pc.fg && Ended(s.handler) && s.handler.pid == s.pc.pid
    requires forall pid :: pid in s.children ==> s.children[pid] == Running || s.children[pid] == Stopped
    ensures IsPath(path) && path[0] == s && EndsWithGhost(path)
  {
    var pid, slot := s.pc.pid, s.pc.slot;
    ListedSlot(s.t, pid);
    DeletedKeeps(s.t, pid);
    var s1 := Handle(s);
    var s2 := s1.(handler := Idle);
    assert HandlerReturn(s1, s2);
    var t := WithState(s2.t, slot, Fg);
    GhostSlot(s2.t, slot);
    var s3 := s2.(t := t, pc := WaitEnter(pid, false));
    assert BgfgStore(s2, s3);
    var s4 := s3.(pc := Waiting(pid, false, false));
    assert WaitUnmask(s3, s4);
    var s5 := s4.(pc := WaitLeave(false, false));
    assert WaitTest(s4, s5);
    var s6 := s5.(pc := Prompt);
    assert WaitReturn(s5, s6);
    path := [s, s1, s2, s3, s4, s5, s6];
    assert Next(s, s1) && Next(s1, s2) && Next(s2, s3) && Next(s3, s4) && Next(s4, s5) && Next(s5, s6);
  }

  /** A free slot marked foreground makes fgpid answer 0. */
  lemma GhostSlot(t: Table, slot: nat)
    requires slot < |t.jobs| && t.jobs[slot] == CLEARED
    requires forall i :: 0 <= i < |t.jobs| ==> t.jobs[i].state != Fg
    ensures var jobs := WithState(t, slot, Fg).jobs; FgPid(jobs) == 0 && jobs[slot] == Job(0, 0, Fg)
  {
    var jobs := WithState(t, slot, Fg).jobs;
    assert jobs[slot].state == Fg && forall i :: 0 <= i < |jobs| && i != slot ==> jobs[i].state != Fg;
    assert FgSlot(jobs) == slot;
  }

  // Both situations can be reached from the start.

  function BgTable(k: nat): Table
    requires k <= MAXJOBS
  {
    Table(seq(MAXJOBS, i => if i < k then Job(i + 1, i + 1, Bg) else CLEARED), if k == MAXJOBS then 1 else k + 1)
  }

  function Kids(k: nat): (m: map<int, Child>)
    ensures forall pid :: pid in m <==> 1 <= pid <= k
  {
    if k == 0 then map[] else Kids(k - 1)[k := Running]
  }

  function BgShell(k: nat): Shell
    requires k <= MAXJOBS
  {
    Shell(BgTable(k), false, Prompt, Idle, Kids(k), false)
  }

  lemma BgTableGrows(k: nat)
    requires k < MAXJOBS
    ensures Added(BgTable(k), k + 1, Bg) == BgTable(k + 1)
  {
    var jobs := BgTable(k).jobs;
    assert jobs[k].pid == 0 && forall i :: 0 <= i < k ==> jobs[i].pid == i + 1;
    assert SlotOfPid(jobs, 0) == k;
    assert jobs[k := Job(k + 1, k + 1, Bg)] == BgTable(k + 1).jobs;
  }

  /** Starting one more background job. */
  lemma StartBackground(k: nat) returns (path: seq<Shell>)
    requires k < MAXJOBS
    ensures IsPath(path) && path[0] == BgShell(k) && path[|path| - 1] == BgShell(k + 1) && Calm(path)
  {
    var s, pid := BgShell(k), k + 1;
    BgTableGrows(k);
    var s1 := s.(blocked := true, pc := Blocked(true));
    assert EvalBlock(s, s1);
    var s2 := s1.(children := s.children[pid := Running], pc := Forked(true, pid));
    assert Fork(s1, s2);
    assert s.t.jobs[k].pid == 0;
    var s3 := s2.(t := BgTable(k + 1), pc := Restore);
    assert AddTheJob(s2, s3);
    var s4 := s3.(blocked := false, pc := Prompt);
    assert EvalReturn(s3, s4);
    assert s4.children == BgShell(k + 1).children;
    path := [s, s1, s2, s3, s4];
    assert Next(s, s1) && Next(s1, s2) && Next(s2, s3) && Next(s3, s4);
  }

  lemma {:induction false} ManyBackground(k: nat) returns (run: seq<Shell>)
    requires k <= MAXJOBS
    ensures IsRun(run) && run[|run| - 1] == BgShell(k) && Calm(run)
  {
    if k == 0 {
      assert BgTable(0).jobs == seq(MAXJOBS, _ => CLEARED);
      assert BgShell(0).children == map[];
      run := [BgShell(0)];
    } else {
      var before := ManyBackground(k - 1);
      var path := StartBackground(k - 1);
      Join(before, path);
      run := before + path[1..];
    }
  }

  lemma FullTable()
    ensures !HasRoom(BgTable(MAXJOBS))
  {
    assert forall i :: 0 <= i < MAXJOBS ==> BgTable(MAXJOBS).jobs[i].pid == i + 1;
  }

  /** A seventeenth job is forked. */
  lemma ForkSeventeenth(s: Shell) returns (path: seq<Shell>)
    requires s == BgShell(MAXJOBS) && Inv(s)
    ensures IsPath(path) && path[0] == s && Inv(path[|path| - 1])
    ensures path[|path| - 1].pc == Forked(false, 17) && path[|path| - 1].t == s.t
    ensures path[|path| - 1].children == s.children[17 := Running]
  {
    var s1 := s.(blocked := true, pc := Blocked(false));
    assert EvalBlock(s, s1);
    MainInv(s, s1);
    var s2 := s1.(children := s1.children[17 := Running], pc := Forked(false, 17));
    assert Fork(s1, s2);
    MainInv(s1, s2);
    path := [s, s1, s2];
    assert Next(s, s1) && Next(s1, s2);
  }

  /** The seventeenth job can crash the shell. */
  lemma FullTableIsReal()
    ensures exists run: seq<Shell> :: IsRun(run) && run[|run| - 1].crashed
  {
    hide Next, Init;
    var run := CrashingRun();
    assert IsRun(run);
  }

  lemma CrashingRun() returns (run: seq<Shell>)
    ensures IsRun(run) && run[|run| - 1].crashed
  {
    run := ManyBackground(MAXJOBS);
    Reachable(run);
    var fork := ForkSeventeenth(run[|run| - 1]);
    Join(run, fork);
    run := run + fork[1..];
    FullTable();
    var path := FullTableCrashes(run[|run| - 1]);
    Join(run, path);
    run := run + path[1..];
  }

  /** From one background job: fg tests it and it exits. */
  lemma RaceTest(s: Shell) returns (path: seq<Shell>)
    requires s == BgShell(1) && Inv(s)
    ensures IsPath(path) && path[0] == s && Inv(path[|path| - 1])
    ensures path[|path| - 1] == s.(pc := BgfgSet(0, 1, true), children := s.children[1 := Exited])
  {
    assert s.t.jobs[0] == Job(1, 1, Bg);
    assert SlotOfJid(s.t.jobs, 1) == 0;
    var s1 := s.(pc := BgfgSet(0, 1, true));
    assert BgfgLookup(s, s1);
    MainInv(s, s1);
    var s2 := s1.(children := s1.children[1 := Exited]);
    assert s1.children[1] == Kids(1)[1] == Running;
    assert Turns(s1.children[1], Exited);
    assert ChildStep(s1, s2);
    ChildInv(s1, s2);
    path := [s, s1, s2];
    assert Next(s, s1) && Next(s1, s2);
  }

  /** Then the handler reaps it. */
  lemma RaceReap(s: Shell) returns (path: seq<Shell>)
    requires Inv(s) && Deliverable(s) && 1 in s.children && s.children[1] == Exited
    ensures IsPath(path) && path[0] == s && Inv(path[|path| - 1])
    ensures path[|path| - 1] == s.(children := s.children - {1}, handler := Got(1, ByExit))
  {
    var s1 := s.(handler := Loop);
    assert Deliver(s, s1);
    HandlerInv(s, s1);
    var s2 := s1.(children := s1.children - {1}, handler := Got(1, ByExit));
    assert WaitPid(s1, s2);
    WaitPidInv(s1, s2);
    path := [s, s1, s2];
    assert Next(s, s1) && Next(s1, s2);
  }

  /** fg can leave a foreground job behind. */
  lemma RaceIsReal()
    ensures exists run: seq<Shell> :: IsRun(run) && EndsWithGhost(run)
  {
    hide IsRun, EndsWithGhost;
    var run := RacingRun();
  }

  lemma RacingRun() returns (run: seq<Shell>)
    ensures IsRun(run) && EndsWithGhost(run)
  {
    run := ManyBackground(1);
    Reachable(run);
    var test := RaceTest(run[|run| - 1]);
    Join(run, test);
    run := run + test[1..];
    var reap := RaceReap(run[|run| - 1]);
    Join(run, reap);
    run := run + reap[1..];
    assert run[|run| - 1].children.Keys == {};
    var rest := RaceLeavesForeground(run[|run| - 1]);
    Join(run, rest);
    run := run + rest[1..];
  }
}
