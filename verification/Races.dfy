/** When the two races of fg go wrong: exact conditions, over every run. */
module Races {
  import opened Jobs
  import opened Shell

  // ---- Foreground jobs that are not waited for ----------------------------------

  ghost predicate Waited(m: Main, v: map<int, Job>) {
    forall p {:trigger v[p]} | p in v && v[p].state == FG :: WaitsFor(m, p)
  }

  // Every foreground job is the one the shell waits for.
  ghost predicate AllWaited(s: State) {
    Waited(s.main, View(s.table))
  }

  // The wait tests its job, a foreground job still, while an earlier slot is marked as the foreground job's.
  ghost predicate Drops(s: State, e: Step) {
    && e.Test? && s.main.Testing? && HasPid(s.table, s.main.pid)
    && s.table[Slot(s.table, s.main.pid)].state == FG && Shadowed(s.table, s.main.pid)
  }

  lemma ConcernIsPid(s: State, p: int)
    requires Inv(s) && Concerns(s.main, p)
    ensures p >= 1
  {
    assert PidOk(s, p, View(s.table));
  }

  lemma TestDrops(s: State)
    requires Inv(s) && Enabled(s, Test) && AllWaited(s)
    ensures AllWaited(Next(s, Test)) <==> !Drops(s, Test)
  {
    var t, pid := s.table, s.main.pid;
    ConcernIsPid(s, pid);
    FgPidIs(t);
    InView(t, pid);
    assert FgPid(t) == pid <==> pid in View(t) && View(t)[pid].state == FG && !Shadowed(t, pid);
    if pid in View(t) && View(t)[pid].state == FG && FgPid(t) != pid {
      assert !WaitsFor(Next(s, Test).main, pid);
    }
  }

  lemma ForkedIsNew(s: State)
    requires Inv(s) && s.main.Forked?
    ensures s.main.pid >= 1 && s.main.pid !in View(s.table)
  {
    assert PidOk(s, s.main.pid, View(s.table));
  }

  lemma AddedWaits(m: Main, v: map<int, Job>, j: Job)
    requires m.Forked? && Waited(m, v) && j.pid == m.pid && j.state == if m.bg then BG else FG
    ensures Waited(if m.bg then Finishing else Testing(m.pid, false), v[j.pid := j])
  {
  }

  lemma AddJobWaits(s: State)
    requires Inv(s) && Enabled(s, RunAddJob) && AllWaited(s)
    ensures AllWaited(Next(s, RunAddJob))
  {
    var j := Job(s.main.pid, s.nextjid, if s.main.bg then BG else FG, s.main.cmdline);
    ForkedIsNew(s);
    if CanAdd(s.table, j.pid) {
      AddedIs(s.table, s.nextjid, j.pid, j.state, j.cmdline);
      AddedWaits(s.main, View(s.table), j);
    }
  }

  lemma RestatedWaits(m: Main, v: map<int, Job>)
    requires m.Looked? && Waited(m, v)
    ensures Waited(Restated(m.pid, m.state), v)
    ensures m.pid in v ==> Waited(Restated(m.pid, m.state), v[m.pid := v[m.pid].(state := m.state)])
  {
  }

  lemma SetStateWaits(s: State)
    requires Inv(s) && Enabled(s, SetState) && AllWaited(s)
    ensures AllWaited(Next(s, SetState))
  {
    var k, pid := s.main.slot, s.main.pid;
    ConcernIsPid(s, pid);
    RestatedWaits(s.main, View(s.table));
    if s.table[k].pid == pid {
      SlotIs(s.table, k);
      MarkedIs(s.table, pid, s.main.state);
    } else {
      StrayIs(s.table, k, s.main.state);
    }
  }

  lemma HandlerWaits(s: State, e: Step)
    requires Inv(s) && Enabled(s, e) && AllWaited(s) && (e.RunDeleteJob? || e.RunStop?)
    ensures AllWaited(Next(s, e))
  {
    var pid, v := s.handler.pid, View(s.table);
    assert PidOk(s, pid, v);
    if e.RunStop? {
      MarkedIs(s.table, pid, ST);
      assert Waited(s.main, v[pid := v[pid].(state := ST)]);
    } else if HasPid(s.table, pid) {
      DeletedIs(s.table, pid);
      assert Waited(s.main, v - {pid});
    }
  }

  // The other steps leave the table alone.
  predicate LeavesTable(e: Step) {
    ShellStep(e) || HandlerStep(e) || ChildStep(e) || e.Look?
  }

  lemma StillWaits(s: State, e: Step, p: int)
    requires Enabled(s, e) && LeavesTable(e) && WaitsFor(s.main, p)
    ensures WaitsFor(Next(s, e).main, p)
  {
  }

  lemma OtherWaits(s: State, e: Step)
    requires Enabled(s, e) && LeavesTable(e) && AllWaited(s)
    ensures AllWaited(Next(s, e))
  {
    var v, s' := View(s.table), Next(s, e);
    assert s'.table == s.table;
    forall p | p in v && v[p].state == FG ensures WaitsFor(s'.main, p) {
      StillWaits(s, e, p);
    }
  }

  /** Of all steps, only such a test ever leaves a foreground job without anyone waiting for it. */
  lemma StepDrops(s: State, e: Step)
    requires Inv(s) && Enabled(s, e) && AllWaited(s)
    ensures AllWaited(Next(s, e)) <==> !Drops(s, e)
  {
    match e
    case Test => TestDrops(s);
    case RunAddJob => AddJobWaits(s);
    case SetState => SetStateWaits(s);
    case RunDeleteJob => HandlerWaits(s, e);
    case RunStop => HandlerWaits(s, e);
    case _ => OtherWaits(s, e);
  }

  ghost predicate AlwaysWaited(s: State, es: seq<Step>)
    requires CanRun(s, es)
    decreases |es|
  {
    AllWaited(s) && (es != [] ==> AlwaysWaited(Next(s, es[0]), es[1..]))
  }

  ghost predicate NeverDrops(s: State, es: seq<Step>)
    requires CanRun(s, es)
    decreases |es|
  {
    es != [] ==> !Drops(s, es[0]) && NeverDrops(Next(s, es[0]), es[1..])
  }

  lemma {:induction false} WaitedFrom(s: State, es: seq<Step>)
    requires Inv(s) && AllWaited(s) && CanRun(s, es)
    ensures AlwaysWaited(s, es) <==> NeverDrops(s, es)
    decreases |es|
  {
    if es != [] {
      var s' := Next(s, es[0]);
      StepKeeps(s, es[0]);
      StepDrops(s, es[0]);
      if AllWaited(s') {
        WaitedFrom(s', es[1..]);
      }
    }
  }

  /**
   * Along every run, at every moment every foreground job is waited for, exactly when no wait ever tests a foreground
   * job behind a slot that is marked as the foreground job's.
   */
  lemma WaitedUnlessDropped(es: seq<Step>)
    requires CanRun(INITIAL, es)
    ensures AlwaysWaited(INITIAL, es) <==> NeverDrops(INITIAL, es)
  {
    InitialInv();
    forall p ensures p !in View(INITIAL.table) {
      InView(INITIAL.table, p);
    }
    WaitedFrom(INITIAL, es);
  }

  // ---- Wake-ups that are missed -------------------------------------------------

  // What can happen from when the wait has tested its job until it sleeps.
  predicate BeforeSleep(e: Step) {
    HandlerStep(e) || ChildStep(e) || e.RunDeleteJob? || e.RunStop? || e.Suspend?
  }

  ghost predicate Gets(s: State, es: seq<Step>, s': State) {
    && CanRun(s, es) && Run(s, es) == s'
    && forall i {:trigger es[i]} | 0 <= i < |es| :: BeforeSleep(es[i])
  }

  // The shell goes to sleep although fgpid no longer names its job: the job has ended or stopped.
  ghost predicate Misses(s: State, es: seq<Step>) {
    exists s' {:trigger Gets(s, es, s')} ::
      Gets(s, es, s') && s'.main.Suspended? && s'.handler.Off? && FgPid(s'.table) != s'.main.pid
  }

  // The shell sleeps with nothing left to wake it: no SIGCHLD pending, no child, no job.
  ghost predicate Stranded(s: State) {
    s.main.Suspended? && s.handler.Off? && !s.pending && s.children == map[] && View(s.table) == map[]
  }

  ghost predicate Strands(s: State, es: seq<Step>) {
    exists s' {:trigger Gets(s, es, s')} :: Gets(s, es, s') && Stranded(s')
  }

  lemma GetsNone(s: State)
    ensures Gets(s, [], s)
  {
  }

  lemma GetsMore(s: State, es: seq<Step>, t: State, fs: seq<Step>, u: State)
    requires Gets(s, es, t) && Gets(t, fs, u)
    ensures Gets(s, es + fs, u)
  {
    RunJoins(s, es, fs);
  }

  lemma GetsNext(s: State, es: seq<Step>, t: State, e: Step) returns (fs: seq<Step>, u: State)
    requires Gets(s, es, t) && Enabled(t, e) && BeforeSleep(e)
    ensures fs == es + [e] && u == Next(t, e) && Gets(s, fs, u)
  {
    fs, u := es + [e], Next(t, e);
    RunOne(t, e);
    assert Gets(t, [e], u);
    GetsMore(s, es, t, [e], u);
  }

  ghost function Alive(s: State): set<int> {
    set p {:trigger s.children[p]} | p in s.children && !s.children[p].Zombie?
  }

  lemma Pick<T>(S: set<T>) returns (x: T)
    requires S != {}
    ensures x in S
  {
    x :| x in S;
  }

  // Every child exits.
  lemma {:induction false} AllExit(s: State) returns (es: seq<Step>, s': State)
    ensures Gets(s, es, s') && Alive(s') == {} && s' == s.(children := s'.children, pending := s'.pending)
    decreases |Alive(s)|
  {
    GetsNone(s);
    if Alive(s) == {} {
      es, s' := [], s;
    } else {
      var p := Pick(Alive(s));
      var fs, t := GetsNext(s, [], s, Exit(p));
      assert Alive(t) == Alive(s) - {p};
      var gs;
      gs, s' := AllExit(t);
      GetsMore(s, fs, t, gs, s');
      es := fs + gs;
    }
  }

  // The handler reaps them all.
  lemma {:induction false} AllReaped(s: State) returns (es: seq<Step>, s': State)
    requires s.handler.Waiting? && Alive(s) == {}
    ensures Gets(s, es, s') && s'.children == map[] && s'.handler.Waiting?
    ensures s'.main == s.main && s'.pending == s.pending && s'.blocked == s.blocked
    decreases |s.children|
  {
    GetsNone(s);
    if s.children.Keys == {} {
      es, s' := [], s;
    } else {
      var p := Pick(s.children.Keys);
      assert p !in Alive(s);
      var fs, t := GetsNext(s, [], s, Wait(p));
      fs, t := GetsNext(s, fs, t, RunDeleteJob);
      assert t.children == s.children - {p} && Alive(t) == {};
      var gs;
      gs, s' := AllReaped(t);
      GetsMore(s, fs, t, gs, s');
      es := fs + gs;
    }
  }

  lemma NoChildNoJob(s: State)
    requires Inv(s) && s.children == map[] && s.handler.Off?
    ensures View(s.table) == map[]
  {
    forall p ensures p !in View(s.table) {
      assert PidOk(s, p, View(s.table));
    }
  }

  lemma NoneLeft(s: State)
    requires Inv(s) && Alive(s) == {} && s.handler.Off? && !s.pending
    ensures s.children == map[]
  {
    forall p ensures p !in s.children {
      assert PidOk(s, p, View(s.table)) && p !in Alive(s);
    }
  }

  // Once all have exited, the handler runs if it has to, and returns to where the wait goes to sleep.
  lemma AllHandled(s: State) returns (es: seq<Step>, s': State)
    requires Inv(s) && s.main.Committed? && s.handler.Off? && !s.blocked && Alive(s) == {}
    ensures Gets(s, es, s') && s'.main == s.main && s'.handler.Off? && !s'.pending && s'.children == map[]
  {
    GetsNone(s);
    if s.pending {
      var fs, t := GetsNext(s, [], s, Deliver);
      var gs;
      gs, s' := AllReaped(t);
      GetsMore(s, fs, t, gs, s');
      es, s' := GetsNext(s, fs + gs, s', WaitNone);
      es, s' := GetsNext(s, es, s', Return);
    } else {
      NoneLeft(s);
      es, s' := [], s;
    }
  }

  lemma OpenStrands(s: State) returns (es: seq<Step>)
    requires Inv(s) && s.main.Committed? && s.handler.Off? && !s.blocked
    ensures Strands(s, es)
  {
    var fs, t := AllExit(s);
    RunKeeps(s, fs);
    var gs, u := AllHandled(t);
    GetsMore(s, fs, t, gs, u);
    es, u := GetsNext(s, fs + gs, u, Suspend);
    RunKeeps(s, es);
    NoChildNoJob(u);
  }

  lemma StrandedMisses(s: State, es: seq<Step>)
    requires Inv(s) && Strands(s, es)
    ensures Misses(s, es)
  {
    RunKeeps(s, es);
    var s' := Run(s, es);
    FgPidIs(s'.table);
    ConcernIsPid(s', s'.main.pid);
    assert Gets(s, es, s');
  }

  lemma {:induction false} StaysBlocked(s: State, es: seq<Step>, s': State)
    requires Gets(s, es, s')
    ensures s'.blocked == s.blocked
    decreases |es|
  {
    if es != [] {
      var t, fs := Next(s, es[0]), es[1..];
      forall i {:trigger fs[i]} | 0 <= i < |fs| ensures BeforeSleep(fs[i]) {
        assert fs[i] == es[i + 1];
      }
      assert BeforeSleep(es[0]);
      StaysBlocked(t, fs, s');
    }
  }

  lemma BlockedMissesNone(s: State, es: seq<Step>)
    requires Inv(s) && s.blocked
    ensures !Misses(s, es)
  {
    if Misses(s, es) {
      RunKeeps(s, es);
      StaysBlocked(s, es, Run(s, es));
    }
  }

  /**
   * When a wait has tested its job and goes to sleep, it can miss the end of the job exactly when the signals are not
   * blocked; and then it can even end up asleep with nothing left to wake it.
   */
  lemma MissesUnlessBlocked(es: seq<Step>)
    requires CanRun(INITIAL, es) && Run(INITIAL, es).main.Committed? && Run(INITIAL, es).handler.Off?
    ensures var s := Run(INITIAL, es); (exists fs {:trigger Misses(s, fs)} :: Misses(s, fs)) <==> !s.blocked
    ensures var s := Run(INITIAL, es); (exists fs {:trigger Strands(s, fs)} :: Strands(s, fs)) <==> !s.blocked
  {
    Reachable(es);
    var s := Run(INITIAL, es);
    if s.blocked {
      forall fs ensures !Misses(s, fs) && !Strands(s, fs) {
        BlockedMissesNone(s, fs);
        if Strands(s, fs) {
          StrandedMisses(s, fs);
        }
      }
    } else {
      var fs := OpenStrands(s);
      StrandedMisses(s, fs);
    }
  }
}
