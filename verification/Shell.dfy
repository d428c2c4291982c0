/**
 * Job control in tshlab/tsh.c as a step system. The steps are those of eval, of the fg and bg commands and of the wait
 * they share, those of the SIGCHLD handler, and those of the children and the kernel; they interleave freely where
 * signals allow it.
 */
module Shell {
  import opened Jobs

  // A child that was not waited for yet. A stop is reported once.
  datatype Child = Running | StopUnreported | StopReported | Zombie

  /**
   * Where the shell is. In eval, the three signals are blocked from Masked on; fg and bg run under whatever mask they
   * find. Suspended is inside sigsuspend, which opens the signals. `builtin` tells the wait of fg from that of eval.
   */
  datatype Main =
    | Idle
    | Masked
    | Forked(pid: int, bg: bool, cmdline: string)
    | Testing(pid: int, builtin: bool)
    | Committed(pid: int, builtin: bool)
    | Suspended(pid: int, builtin: bool)
    | Finishing
    | Looked(pid: int, slot: nat, state: JobState)
    | Restated(pid: int, state: JobState)

  // Where the SIGCHLD handler is: before waitpid, holding what waitpid returned, or done with its loop.
  datatype Handler = Off | Waiting | Reaped(pid: int) | Stopped(pid: int) | Leaving

  datatype State = State(
    table: seq<Job>,
    nextjid: int,
    main: Main,
    blocked: bool,
    handler: Handler,
    children: map<int, Child>,
    pending: bool,
    failed: bool,          // the last eval gave up after a failed fork or addjob
    untracked: set<int>,   // children for which addjob failed
    strayed: bool          // fg or bg wrote to the slot of a job that was deleted since it was looked up
  )

  datatype Step =
    | Block
    | Fork(pid: int, bg: bool, cmdline: string)
    | ForkFails
    | RunAddJob
    | Test
    | Suspend
    | Interrupt                            // SIGINT or SIGTSTP ends sigsuspend; their handlers leave the job list alone
    | Unblock
    | Look(slot: nat, state: JobState)     // fg or bg finds its job
    | SetState
    | SendCont(signalled: bool)
    | Deliver
    | Wait(pid: int)
    | WaitNone
    | RunDeleteJob
    | RunStop
    | Return
    | Exit(pid: int)
    | Stop(pid: int)
    | Continue(pid: int, signalled: bool)

  const INITIAL: State :=
    State(EmptyTable(MAXJOBS), 1, Idle, false, Off, map[], false, false, {}, false)

  predicate Unreported(c: Child) {
    c == Zombie || c == StopUnreported
  }

  predicate Halted(c: Child) {
    c == StopReported || c == StopUnreported
  }

  // The shell is where eval has blocked the signals.
  predicate InEval(m: Main) {
    m.Masked? || m.Forked? || m.Finishing? || ((m.Testing? || m.Committed? || m.Suspended?) && !m.builtin)
  }

  predicate SignalsOpen(s: State) {
    s.main.Suspended? || (!InEval(s.main) && !s.blocked)
  }

  // The shell itself moves only while no handler runs.
  predicate MainStep(e: Step) {
    e.Block? || e.Fork? || e.ForkFails? || e.RunAddJob? || e.Test? || e.Suspend? || e.Interrupt? || e.Unblock?
    || e.Look? || e.SetState? || e.SendCont?
  }

  ghost predicate Enabled(s: State, e: Step) {
    && (MainStep(e) ==> s.handler.Off?)
    && match e
       case Block => s.main.Idle?
       case Fork(pid, _, _) => s.main.Masked? && pid >= 1 && pid !in s.children
       case ForkFails => s.main.Masked?
       case RunAddJob => s.main.Forked?
       case Test => s.main.Testing?
       case Suspend => s.main.Committed?
       case Interrupt => s.main.Suspended?
       case Unblock => s.main.Finishing?
       case Look(slot, state) => s.main.Idle? && slot < |s.table| && s.table[slot].pid != 0 && state in {FG, BG}
       case SetState => s.main.Looked? && s.main.slot < |s.table|
       case SendCont(_) => s.main.Restated?
       case Deliver => s.pending && (s.handler.Off? || s.handler.Leaving?) && SignalsOpen(s)
       case Wait(pid) => s.handler.Waiting? && pid in s.children && Unreported(s.children[pid])
       case WaitNone =>
         s.handler.Waiting? && forall p {:trigger s.children[p]} | p in s.children :: !Unreported(s.children[p])
       case RunDeleteJob => s.handler.Reaped?
       case RunStop => s.handler.Stopped? && HasPid(s.table, s.handler.pid)
       case Return => s.handler.Leaving?
       case Exit(pid) => pid in s.children && !s.children[pid].Zombie?
       case Stop(pid) => pid in s.children && s.children[pid].Running?
       case Continue(pid, _) => pid in s.children && Halted(s.children[pid])
  }

  // A stopped child goes on; the kernel may signal that.
  function Continued(s: State, pid: int, signalled: bool): State {
    if pid in s.children && Halted(s.children[pid]) then
      s.(children := s.children[pid := Running], pending := s.pending || signalled)
    else s
  }

  ghost function Next(s: State, e: Step): State
    requires Enabled(s, e)
  {
    match e
    case Block => s.(main := Masked, blocked := true)
    case Fork(pid, bg, cmdline) => s.(main := Forked(pid, bg, cmdline), children := s.children[pid := Running])
    case ForkFails => s.(main := Idle, failed := true)
    case RunAddJob =>
      var pid := s.main.pid;
      if CanAdd(s.table, pid) then
        s.(table := Added(s.table, s.nextjid, pid, if s.main.bg then BG else FG, s.main.cmdline),
           nextjid := Following(s.nextjid),
           main := if s.main.bg then Finishing else Testing(pid, false))
      else
        s.(main := Idle, failed := true, untracked := s.untracked + {pid})
    case Test =>
      s.(main := if FgPid(s.table) == s.main.pid then Committed(s.main.pid, s.main.builtin)
                 else if s.main.builtin then Idle else Finishing)
    case Suspend => s.(main := Suspended(s.main.pid, s.main.builtin))
    case Interrupt => s.(main := Testing(s.main.pid, s.main.builtin))
    case Unblock => s.(main := Idle, blocked := false, failed := false)
    case Look(slot, state) => s.(main := Looked(s.table[slot].pid, slot, state))
    case SetState =>
      var k := s.main.slot;
      s.(table := s.table[k := s.table[k].(state := s.main.state)],
         main := Restated(s.main.pid, s.main.state),
         strayed := s.strayed || s.table[k].pid != s.main.pid)
    case SendCont(signalled) =>
      Continued(s, s.main.pid, signalled).(main := if s.main.state == FG then Testing(s.main.pid, true) else Idle)
    case Deliver => s.(pending := false, handler := Waiting)
    case Wait(pid) =>
      if s.children[pid].Zombie? then
        s.(handler := Reaped(pid), children := s.children - {pid}, untracked := s.untracked - {pid})
      else
        s.(handler := Stopped(pid), children := s.children[pid := StopReported])
    case WaitNone => s.(handler := Leaving)
    case RunDeleteJob =>
      if HasPid(s.table, s.handler.pid) then
        var t := Deleted(s.table, s.handler.pid);
        s.(table := t, nextjid := MaxJid(t) + 1, handler := Waiting)
      else
        s.(handler := Waiting)
    case RunStop => s.(table := Marked(s.table, s.handler.pid, ST), handler := Waiting)
    case Return =>
      s.(handler := Off, main := if s.main.Suspended? then Testing(s.main.pid, s.main.builtin) else s.main)
    case Exit(pid) => s.(children := s.children[pid := Zombie], pending := true)
    case Stop(pid) => s.(children := s.children[pid := StopUnreported], pending := true)
    case Continue(pid, signalled) => Continued(s, pid, signalled)
  }

  // ---- The invariant ----------------------------------------------------------

  predicate IsForked(m: Main, p: int) {
    m.Forked? && m.pid == p
  }

  // The shell deals with p: it waits for it, or fg or bg is about to continue it.
  predicate Concerns(m: Main, p: int) {
    (m.Testing? || m.Committed? || m.Suspended? || m.Looked? || m.Restated?) && m.pid == p
  }

  // The shell waits for p, or is about to because fg has just made it the foreground job.
  predicate WaitsFor(m: Main, p: int) {
    ((m.Testing? || m.Committed? || m.Suspended?) && m.pid == p) || m == Restated(p, FG)
  }

  predicate Quiet(s: State) {
    s.handler.Off? || s.handler.Leaving?
  }

  ghost predicate JobOk(s: State, p: int, v: map<int, Job>)
    requires p in v
  {
    && p >= 1
    && (p in s.children || s.handler == Reaped(p))
    && p !in s.untracked
    && !IsForked(s.main, p)
    && (v[p].state == FG && !s.strayed ==> WaitsFor(s.main, p))
    && (p in s.children && s.children[p] == StopReported ==>
          v[p].state == ST || s.handler == Stopped(p) || (s.main.Restated? && s.main.pid == p))
  }

  ghost predicate ChildOk(s: State, p: int, v: map<int, Job>)
    requires p in s.children
  {
    && p >= 1
    && (p in v || p in s.untracked || IsForked(s.main, p))
    && (Unreported(s.children[p]) && Quiet(s) ==> s.pending)
    && s.handler != Reaped(p)
  }

  // Everything the invariant says about one pid.
  ghost predicate PidOk(s: State, p: int, v: map<int, Job>) {
    && (p in v ==> JobOk(s, p, v))
    && (p in s.children ==> ChildOk(s, p, v))
    && (p in s.untracked || IsForked(s.main, p) || s.handler == Stopped(p) ==> p in s.children)
    && (IsForked(s.main, p) ==> p !in s.untracked && s.children[p] != StopReported)
    && (s.handler == Reaped(p) || Concerns(s.main, p) ==> p >= 1)
  }

  ghost predicate MasksOk(s: State) {
    && (InEval(s.main) ==> s.blocked)
    && (!InEval(s.main) ==> (s.blocked <==> s.failed))
    && (!s.handler.Off? ==> SignalsOpen(s))
  }

  // fg and bg hold the slot of their job, unless the handler has deleted the job.
  ghost predicate LookOk(s: State) {
    s.main.Looked? ==>
      && s.main.slot < |s.table| && s.main.state in {FG, BG}
      && (s.table[s.main.slot].pid == s.main.pid
          || (s.table[s.main.slot].pid == 0 && s.main.pid !in View(s.table)))
  }

  // With the signals blocked, what the wait loop saw still holds when it goes to sleep.
  ghost predicate TrustOk(s: State) {
    s.blocked && (s.main.Committed? || (s.main.Suspended? && s.handler.Off?)) ==> FgPid(s.table) == s.main.pid
  }

  ghost predicate TableOk(s: State) {
    Sound(s.table) && (!s.strayed ==> Tidy(s.table)) && LookOk(s) && TrustOk(s)
  }

  ghost predicate Inv(s: State) {
    && TableOk(s)
    && MasksOk(s)
    && (forall p {:trigger PidOk(s, p, View(s.table))} :: PidOk(s, p, View(s.table)))
  }

  lemma InitialInv()
    ensures Inv(INITIAL)
  {
    var t := INITIAL.table;
    forall p ensures PidOk(INITIAL, p, View(t)) {
      InView(t, p);
    }
  }

  // The steps that leave the table alone, by who makes them: the shell, the handler, or the children.
  predicate ShellStep(e: Step) {
    e.Block? || e.Fork? || e.ForkFails? || e.Suspend? || e.Interrupt? || e.Unblock? || e.SendCont?
  }

  predicate HandlerStep(e: Step) {
    e.Deliver? || e.Wait? || e.WaitNone? || e.Return?
  }

  predicate ChildStep(e: Step) {
    e.Exit? || e.Stop? || e.Continue?
  }

  lemma ShellKeepsPid(s: State, e: Step, p: int, v: map<int, Job>)
    requires MasksOk(s) && PidOk(s, p, v) && Enabled(s, e) && ShellStep(e)
    requires e.SendCont? ==> PidOk(s, s.main.pid, v)
    ensures PidOk(Next(s, e), p, v)
  {
  }

  lemma ShellKeeps(s: State, e: Step)
    requires Inv(s) && Enabled(s, e) && ShellStep(e)
    ensures Inv(Next(s, e))
  {
    var v := View(s.table);
    if e.SendCont? {
      assert PidOk(s, s.main.pid, v);
    }
    forall p ensures PidOk(Next(s, e), p, v) {
      ShellKeepsPid(s, e, p, v);
    }
  }

  lemma HandlerKeepsPid(s: State, e: Step, p: int, v: map<int, Job>)
    requires MasksOk(s) && PidOk(s, p, v) && Enabled(s, e) && HandlerStep(e)
    ensures PidOk(Next(s, e), p, v)
  {
  }

  lemma HandlerKeeps(s: State, e: Step)
    requires Inv(s) && Enabled(s, e) && HandlerStep(e)
    ensures Inv(Next(s, e))
  {
    forall p ensures PidOk(Next(s, e), p, View(s.table)) {
      HandlerKeepsPid(s, e, p, View(s.table));
    }
  }

  lemma ChildKeeps(s: State, e: Step)
    requires Inv(s) && Enabled(s, e) && ChildStep(e)
    ensures Inv(Next(s, e))
  {
    var s' := Next(s, e);
    forall p ensures PidOk(s', p, View(s.table)) {
      assert PidOk(s, p, View(s.table));
    }
  }

  lemma LookKeeps(s: State, slot: nat, state: JobState)
    requires Inv(s) && Enabled(s, Look(slot, state))
    ensures Inv(Next(s, Look(slot, state)))
  {
    var s' := Next(s, Look(slot, state));
    SlotIs(s.table, slot);
    assert PidOk(s, s.table[slot].pid, View(s.table));
    forall p ensures PidOk(s', p, View(s.table)) {
      assert PidOk(s, p, View(s.table));
    }
  }

  lemma TestKeeps(s: State)
    requires Inv(s) && Enabled(s, Test)
    ensures Inv(Next(s, Test))
  {
    var s' := Next(s, Test);
    var v := View(s.table);
    FgPidIs(s.table);
    assert PidOk(s, s.main.pid, v) && PidOk(s, FgPid(s.table), v);
    forall p ensures PidOk(s', p, v) {
      assert PidOk(s, p, v);
    }
  }

  lemma AddedKeepsPid(s: State, s': State, p: int, v: map<int, Job>, j: Job)
    requires MasksOk(s) && s.main.Forked? && PidOk(s, p, v)
    requires j.pid == s.main.pid && j.state == if s.main.bg then BG else FG
    requires s' == s.(table := s'.table, nextjid := s'.nextjid,
                      main := if s.main.bg then Finishing else Testing(s.main.pid, false))
    ensures PidOk(s', p, v[j.pid := j])
  {
  }

  lemma AddJobKeeps(s: State)
    requires Inv(s) && Enabled(s, RunAddJob) && CanAdd(s.table, s.main.pid)
    ensures Inv(Next(s, RunAddJob))
  {
    var s' := Next(s, RunAddJob);
    var v, j := View(s.table), Job(s.main.pid, s.nextjid, if s.main.bg then BG else FG, s.main.cmdline);
    assert PidOk(s, j.pid, v);
    AddedIs(s.table, s.nextjid, j.pid, j.state, j.cmdline);
    forall p ensures PidOk(s', p, View(s'.table)) {
      AddedKeepsPid(s, s', p, v, j);
    }
  }

  lemma NoRoomKeeps(s: State)
    requires Inv(s) && Enabled(s, RunAddJob) && !CanAdd(s.table, s.main.pid)
    ensures Inv(Next(s, RunAddJob))
  {
    forall p ensures PidOk(Next(s, RunAddJob), p, View(s.table)) {
      assert PidOk(s, p, View(s.table));
    }
  }

  lemma RestatedKeepsPid(s: State, s': State, p: int, v: map<int, Job>, v': map<int, Job>)
    requires MasksOk(s) && s.main.Looked? && s.handler.Off? && s.main.state in {FG, BG} && PidOk(s, p, v)
    requires v' == v || (s.main.pid in v && v' == v[s.main.pid := v[s.main.pid].(state := s.main.state)])
    requires s' == s.(table := s'.table, main := Restated(s.main.pid, s.main.state), strayed := s'.strayed)
    requires s.strayed ==> s'.strayed
    ensures PidOk(s', p, v')
  {
  }

  lemma SetStateKeeps(s: State)
    requires Inv(s) && Enabled(s, SetState)
    ensures Inv(Next(s, SetState))
  {
    var s' := Next(s, SetState);
    var k, pid, v := s.main.slot, s.main.pid, View(s.table);
    assert PidOk(s, pid, v);
    if s.table[k].pid == pid {
      SlotIs(s.table, k);
      MarkedIs(s.table, pid, s.main.state);
    } else {
      StrayIs(s.table, k, s.main.state);
    }
    forall p ensures PidOk(s', p, View(s'.table)) {
      RestatedKeepsPid(s, s', p, v, View(s'.table));
    }
  }

  lemma DeletedKeepsPid(s: State, s': State, p: int, v: map<int, Job>)
    requires MasksOk(s) && s.handler.Reaped? && PidOk(s, p, v)
    requires s' == s.(table := s'.table, nextjid := s'.nextjid, handler := Waiting)
    ensures PidOk(s', p, v - {s.handler.pid})
  {
  }

  lemma DeletedKeepsLook(s: State, s': State)
    requires TableOk(s) && s.handler.Reaped? && s.handler.pid >= 1 && HasPid(s.table, s.handler.pid)
    requires s' == s.(table := Deleted(s.table, s.handler.pid), nextjid := s'.nextjid, handler := Waiting)
    ensures LookOk(s')
  {
    DeletedIs(s.table, s.handler.pid);
    if s.main.Looked? {
      InView(s.table, s.main.pid);
      if s.table[s.main.slot].pid != 0 {
        SlotIs(s.table, s.main.slot);
      }
    }
  }

  lemma DeleteJobKeeps(s: State)
    requires Inv(s) && Enabled(s, RunDeleteJob)
    ensures Inv(Next(s, RunDeleteJob))
  {
    var s' := Next(s, RunDeleteJob);
    var pid, v := s.handler.pid, View(s.table);
    assert PidOk(s, pid, v);
    InView(s.table, pid);
    if HasPid(s.table, pid) {
      DeletedIs(s.table, pid);
      DeletedKeepsLook(s, s');
    }
    assert View(s'.table) == v - {pid};
    forall p ensures PidOk(s', p, View(s'.table)) {
      DeletedKeepsPid(s, s', p, v);
    }
  }

  lemma StoppedKeepsPid(s: State, s': State, p: int, v: map<int, Job>)
    requires MasksOk(s) && s.handler.Stopped? && PidOk(s, p, v) && s.handler.pid in v
    requires s' == s.(table := s'.table, handler := Waiting)
    ensures PidOk(s', p, v[s.handler.pid := v[s.handler.pid].(state := ST)])
  {
  }

  lemma StopKeeps(s: State)
    requires Inv(s) && Enabled(s, RunStop)
    ensures Inv(Next(s, RunStop))
  {
    var s' := Next(s, RunStop);
    var pid, v := s.handler.pid, View(s.table);
    assert PidOk(s, pid, v);
    MarkedIs(s.table, pid, ST);
    forall p ensures PidOk(s', p, View(s'.table)) {
      StoppedKeepsPid(s, s', p, v);
    }
  }

  /** Every step keeps the invariant. */
  lemma StepKeeps(s: State, e: Step)
    requires Inv(s) && Enabled(s, e)
    ensures Inv(Next(s, e))
  {
    match e
    case Test => TestKeeps(s);
    case Look(slot, state) => LookKeeps(s, slot, state);
    case SetState => SetStateKeeps(s);
    case RunAddJob =>
      if CanAdd(s.table, s.main.pid) {
        AddJobKeeps(s);
      } else {
        NoRoomKeeps(s);
      }
    case RunDeleteJob => DeleteJobKeeps(s);
    case RunStop => StopKeeps(s);
    case _ =>
      if ShellStep(e) {
        ShellKeeps(s, e);
      } else if HandlerStep(e) {
        HandlerKeeps(s, e);
      } else {
        ChildKeeps(s, e);
      }
  }

  /** A new job gets the next id, which wraps after sixteen; after a deletion it is one more than the largest in use. */
  lemma JobIds(s: State, e: Step)
    requires Enabled(s, e) && Sound(s.table)
    ensures e.RunAddJob? && CanAdd(s.table, s.main.pid) && s.main.pid !in View(s.table) ==>
      && s.main.pid in View(Next(s, e).table) && View(Next(s, e).table)[s.main.pid].jid == s.nextjid
      && Next(s, e).nextjid == if s.nextjid >= 16 then 1 else s.nextjid + 1
    ensures e.RunDeleteJob? && HasPid(s.table, s.handler.pid) ==> NextOf(Next(s, e).table, Next(s, e).nextjid)
    ensures !e.RunAddJob? && !e.RunDeleteJob? ==> Next(s, e).nextjid == s.nextjid
  {
    if e.RunAddJob? && CanAdd(s.table, s.main.pid) && s.main.pid !in View(s.table) {
      AddedIs(s.table, s.nextjid, s.main.pid, if s.main.bg then BG else FG, s.main.cmdline);
    }
  }

  // ---- Over every interleaving ------------------------------------------------

  ghost predicate CanRun(s: State, es: seq<Step>)
    decreases |es|
  {
    es == [] || (Enabled(s, es[0]) && CanRun(Next(s, es[0]), es[1..]))
  }

  ghost function Run(s: State, es: seq<Step>): State
    requires CanRun(s, es)
    decreases |es|
  {
    if es == [] then s else Run(Next(s, es[0]), es[1..])
  }

  lemma RunOne(s: State, e: Step)
    requires Enabled(s, e)
    ensures CanRun(s, [e]) && Run(s, [e]) == Next(s, e)
  {
    var es := [e];
    assert es[1..] == [];
    assert CanRun(Next(s, e), []) && Run(Next(s, e), []) == Next(s, e);
    assert Run(s, es) == Run(Next(s, es[0]), es[1..]);
  }

  lemma {:induction false} RunJoins(s: State, es: seq<Step>, fs: seq<Step>)
    requires CanRun(s, es) && CanRun(Run(s, es), fs)
    ensures CanRun(s, es + fs) && Run(s, es + fs) == Run(Run(s, es), fs)
    decreases |es|
  {
    if es == [] {
      assert es + fs == fs;
    } else {
      assert (es + fs)[0] == es[0] && (es + fs)[1..] == es[1..] + fs;
      RunJoins(Next(s, es[0]), es[1..], fs);
    }
  }

  lemma {:induction false} RunKeeps(s: State, es: seq<Step>)
    requires Inv(s) && CanRun(s, es)
    ensures Inv(Run(s, es))
    decreases |es|
  {
    if es != [] {
      StepKeeps(s, es[0]);
      RunKeeps(Next(s, es[0]), es[1..]);
    }
  }

  lemma Reachable(es: seq<Step>)
    requires CanRun(INITIAL, es)
    ensures Inv(Run(INITIAL, es))
  {
    InitialInv();
    RunKeeps(INITIAL, es);
  }

  /**
   * Whenever no handler is running and eval is not between fork and addjob, the pids in the job list are distinct and
   * are those of the children not yet waited for, except the ones addjob had no room for.
   */
  lemma JobsAreChildren(es: seq<Step>)
    requires CanRun(INITIAL, es)
    ensures var s := Run(INITIAL, es);
      Sound(s.table) && (s.handler.Off? && !s.main.Forked? ==>
        View(s.table).Keys == s.children.Keys - s.untracked && s.untracked <= s.children.Keys)
  {
    Reachable(es);
    var s := Run(INITIAL, es);
    var v := View(s.table);
    if s.handler.Off? && !s.main.Forked? {
      forall p ensures p in v <==> p in s.children && p !in s.untracked
        ensures p in s.untracked ==> p in s.children
      {
        assert PidOk(s, p, v);
      }
    }
  }

  /** When addjob runs, its child was not reaped yet and is not in the list; so no finished child ever becomes a job. */
  lemma AddedBeforeReaped(es: seq<Step>)
    requires CanRun(INITIAL, es) && Run(INITIAL, es).main.Forked?
    ensures var s := Run(INITIAL, es);
      s.main.pid in s.children && s.main.pid !in View(s.table) && s.handler.Off?
  {
    Reachable(es);
    var s := Run(INITIAL, es);
    assert PidOk(s, s.main.pid, View(s.table));
  }

  lemma RoomIs(s: State)
    requires Inv(s) && s.main.Forked?
    ensures CanAdd(s.table, s.main.pid) <==> |s.children.Keys - s.untracked| <= MAXJOBS
  {
    var v, pid := View(s.table), s.main.pid;
    assert PidOk(s, pid, v);
    forall p ensures p in v.Keys + {pid} <==> p in s.children.Keys - s.untracked {
      assert PidOk(s, p, v);
    }
    assert v.Keys + {pid} == s.children.Keys - s.untracked;
    assert |v.Keys + {pid}| == |v| + 1;
    TableSize(s.table);
  }

  /**
   * addjob finds room exactly when there are at most sixteen children, not counting those it had no room for before.
   */
  lemma AddJobFindsRoom(es: seq<Step>)
    requires CanRun(INITIAL, es) && Run(INITIAL, es).main.Forked?
    ensures var s := Run(INITIAL, es);
      CanAdd(s.table, s.main.pid) <==> |s.children.Keys - s.untracked| <= MAXJOBS
  {
    Reachable(es);
    RoomIs(Run(INITIAL, es));
  }

  // At most sixteen children at any time of the run.
  ghost predicate FewChildren(s: State, es: seq<Step>)
    requires CanRun(s, es)
    decreases |es|
  {
    |s.children| <= MAXJOBS && (es != [] ==> FewChildren(Next(s, es[0]), es[1..]))
  }

  lemma {:induction false} NoneUntracked(s: State, es: seq<Step>)
    requires Inv(s) && s.untracked == {} && CanRun(s, es) && FewChildren(s, es)
    ensures Run(s, es).untracked == {}
    decreases |es|
  {
    if es != [] {
      StepKeeps(s, es[0]);
      if es[0].RunAddJob? {
        assert s.children.Keys - s.untracked == s.children.Keys;
        RoomIs(s);
      }
      NoneUntracked(Next(s, es[0]), es[1..]);
    }
  }

  /** With at most sixteen children at any time, the job list is exactly the children not yet waited for. */
  lemma JobsAreAllChildren(es: seq<Step>)
    requires CanRun(INITIAL, es) && FewChildren(INITIAL, es)
    ensures var s := Run(INITIAL, es);
      s.handler.Off? && !s.main.Forked? ==> View(s.table).Keys == s.children.Keys
  {
    InitialInv();
    NoneUntracked(INITIAL, es);
    JobsAreChildren(es);
  }

  /**
   * No lost wake-up with the signals blocked, as they always are in eval. While the shell sleeps in sigsuspend, its
   * child is the foreground job, and it is running unless a SIGCHLD is pending. The second part holds without the
   * condition, and also when a handler is about to return into the wait loop.
   */
  lemma NoLostWakeup(es: seq<Step>)
    requires CanRun(INITIAL, es)
    requires Run(INITIAL, es).main.Suspended? && Quiet(Run(INITIAL, es))
    ensures var s := Run(INITIAL, es); var pid := s.main.pid;
      && (!s.main.builtin ==> s.blocked)
      && (s.blocked && s.handler.Off? ==> FgPid(s.table) == pid)
      && (FgPid(s.table) == pid ==> pid in s.children && (s.pending || s.children[pid] == Running))
  {
    Reachable(es);
    var s := Run(INITIAL, es);
    var v := View(s.table);
    FgPidIs(s.table);
    assert PidOk(s, s.main.pid, v) && PidOk(s, FgPid(s.table), v);
  }

  /**
   * At most one job is in the foreground, it is the one the shell waits for, and there is none between commands; unless
   * fg or bg wrote to a slot that the handler had cleared in between.
   */
  lemma OneForeground(es: seq<Step>, p: int)
    requires CanRun(INITIAL, es)
    requires var s := Run(INITIAL, es); !s.strayed && p in View(s.table) && View(s.table)[p].state == FG
    ensures var s := Run(INITIAL, es); !s.main.Idle? && WaitsFor(s.main, p)
  {
    Reachable(es);
    var s := Run(INITIAL, es);
    assert PidOk(s, p, View(s.table));
  }

  /** Outside eval the three signals are blocked exactly when the last eval gave up after a failed fork or addjob. */
  lemma SignalsRestored(es: seq<Step>)
    requires CanRun(INITIAL, es) && !InEval(Run(INITIAL, es).main)
    ensures var s := Run(INITIAL, es); s.blocked <==> s.failed
  {
    Reachable(es);
  }

  // ---- After addjob has failed --------------------------------------------------

  // The shell takes commands with the signals blocked and the job list full.
  ghost predicate Wedged(s: State) {
    && s.blocked && s.handler.Off? && !HasPid(s.table, 0)
    && (s.main.Idle? || s.main.Masked? || s.main.Forked?
        || (s.main.Looked? && s.main.state == BG) || (s.main.Restated? && s.main.state == BG))
  }

  predicate Foregrounds(e: Step) {
    e.Look? && e.state == FG
  }

  lemma SlotRestated(t: seq<Job>, k: nat, state: JobState)
    requires k < |t| && !HasPid(t, 0)
    ensures !HasPid(t[k := t[k].(state := state)], 0)
  {
    var u := t[k := t[k].(state := state)];
    if HasPid(u, 0) {
      var i := Slot(u, 0);
      SlotBound(t, 0, i);
    }
  }

  lemma WedgedStep(s: State, e: Step)
    requires Wedged(s) && Enabled(s, e) && !Foregrounds(e)
    ensures Wedged(Next(s, e)) && !e.Deliver? && !e.Unblock?
  {
    if e.SetState? {
      SlotRestated(s.table, s.main.slot, s.main.state);
    }
  }

  lemma {:induction false} WedgedRun(s: State, es: seq<Step>)
    requires Wedged(s) && CanRun(s, es) && forall i {:trigger es[i]} | 0 <= i < |es| :: !Foregrounds(es[i])
    ensures Wedged(Run(s, es))
    ensures forall i {:trigger es[i]} | 0 <= i < |es| :: !es[i].Deliver? && !es[i].Unblock?
    decreases |es|
  {
    if es != [] {
      WedgedStep(s, es[0]);
      WedgedRun(Next(s, es[0]), es[1..]);
      forall i {:trigger es[i]} | 0 <= i < |es| ensures !es[i].Deliver? && !es[i].Unblock? {
        if i > 0 {
          assert es[i] == es[1..][i - 1];
        }
      }
    }
  }

  /**
   * Once addjob has found no room, and for as long as fg is not used, the list stays full, the signals stay blocked, no
   * SIGCHLD is handled and no command that forks completes.
   */
  lemma BlockedForGood(es: seq<Step>, fs: seq<Step>)
    requires CanRun(INITIAL, es)
    requires var s := Run(INITIAL, es);
      s.main.Forked? && !CanAdd(s.table, s.main.pid) && Enabled(s, RunAddJob) && CanRun(Next(s, RunAddJob), fs)
    requires forall i {:trigger fs[i]} | 0 <= i < |fs| :: !Foregrounds(fs[i])
    ensures var s := Run(Next(Run(INITIAL, es), RunAddJob), fs); s.blocked && s.handler.Off? && !HasPid(s.table, 0)
    ensures forall i {:trigger fs[i]} | 0 <= i < |fs| :: !fs[i].Deliver? && !fs[i].Unblock?
  {
    Reachable(es);
    var s := Run(INITIAL, es);
    assert PidOk(s, s.main.pid, View(s.table));
    WedgedRun(Next(s, RunAddJob), fs);
  }

  /**
   * The handler finds no job for a stopped child, and uses the NULL it got, exactly for a child addjob had no room for.
   */
  lemma NullExactlyForUntracked(es: seq<Step>)
    requires CanRun(INITIAL, es) && Run(INITIAL, es).handler.Stopped?
    ensures var s := Run(INITIAL, es); !HasPid(s.table, s.handler.pid) <==> s.handler.pid in s.untracked
  {
    Reachable(es);
    var s := Run(INITIAL, es);
    var pid := s.handler.pid;
    InView(s.table, pid);
    assert PidOk(s, pid, View(s.table));
  }

  // ---- The handler's loop -----------------------------------------------------

  ghost function UnreportedPids(s: State): set<int> {
    set p {:trigger s.children[p]} | p in s.children && Unreported(s.children[p])
  }

  // Steps left in the handler's loop, at most.
  ghost function Remaining(s: State): nat {
    2 * |UnreportedPids(s)| + if s.handler.Waiting? then 1 else if s.handler.Reaped? || s.handler.Stopped? then 2 else 0
  }

  predicate LoopStep(e: Step) {
    e.Wait? || e.WaitNone? || e.RunDeleteJob? || e.RunStop?
  }

  lemma WaitReports(s: State, pid: int)
    requires Enabled(s, Wait(pid))
    ensures |UnreportedPids(Next(s, Wait(pid)))| == |UnreportedPids(s)| - 1
  {
    assert UnreportedPids(Next(s, Wait(pid))) == UnreportedPids(s) - {pid};
    assert pid in UnreportedPids(s);
  }

  lemma LoopShrinks(s: State, e: Step)
    requires Enabled(s, e) && LoopStep(e)
    ensures Remaining(Next(s, e)) < Remaining(s)
  {
    if e.Wait? {
      WaitReports(s, e.pid);
    } else {
      assert Next(s, e).children == s.children;
    }
  }

  /** Left alone, the handler's loop ends: every step of it brings it nearer. */
  lemma {:induction false} LoopEnds(s: State, es: seq<Step>)
    requires CanRun(s, es) && forall i {:trigger es[i]} | 0 <= i < |es| :: LoopStep(es[i])
    ensures |es| <= Remaining(s)
    decreases |es|
  {
    if es != [] {
      LoopShrinks(s, es[0]);
      LoopEnds(Next(s, es[0]), es[1..]);
    }
  }

  /** Before it is done, the loop has a next step exactly when it is not at a stopped child addjob had no room for. */
  lemma LoopGoesOn(es: seq<Step>)
    requires CanRun(INITIAL, es) && !Quiet(Run(INITIAL, es))
    ensures var s := Run(INITIAL, es);
      (exists e: Step {:trigger LoopStep(e)} :: LoopStep(e) && Enabled(s, e))
        <==> !(s.handler.Stopped? && s.handler.pid in s.untracked)
  {
    var s := Run(INITIAL, es);
    if s.handler.Reaped? {
      assert LoopStep(RunDeleteJob) && Enabled(s, RunDeleteJob);
    } else if s.handler.Stopped? {
      NullExactlyForUntracked(es);
      assert LoopStep(RunStop) && (Enabled(s, RunStop) <==> HasPid(s.table, s.handler.pid));
    } else if p :| p in s.children && Unreported(s.children[p]) {
      assert LoopStep(Wait(p)) && Enabled(s, Wait(p));
    } else {
      assert LoopStep(WaitNone) && Enabled(s, WaitNone);
    }
  }
}
