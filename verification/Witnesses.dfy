/** Runs of the step system in which something goes wrong: each ends in the state its lemma describes. */
module Witnesses {
  import opened Jobs
  import opened Shell

  ghost predicate Reaches(es: seq<Step>, s: State) {
    CanRun(INITIAL, es) && Run(INITIAL, es) == s
  }

  lemma Then(es: seq<Step>, s: State, e: Step) returns (es': seq<Step>, s': State)
    requires Reaches(es, s) && Enabled(s, e)
    ensures es' == es + [e] && s' == Next(s, e) && Reaches(es', s')
  {
    RunOne(s, e);
    RunJoins(INITIAL, es, [e]);
    es', s' := es + [e], Next(s, e);
  }

  lemma Start() returns (es: seq<Step>, s: State)
    ensures es == [] && s == INITIAL && Reaches(es, s)
  {
    es, s := [], INITIAL;
  }

  // The n-th background command: child n in slot n - 1.
  ghost predicate Busy(s: State, n: nat) {
    && s.main.Idle? && s.handler.Off? && !s.blocked && !s.pending && s.untracked == {} && |s.table| == MAXJOBS
    && (forall i {:trigger s.table[i]} | 0 <= i < MAXJOBS :: s.table[i].pid == if i < n then i + 1 else 0)
    && (forall i {:trigger s.table[i]} | 0 <= i < MAXJOBS :: s.table[i].state == if i < n then BG else UNDEF)
    && (forall p {:trigger p in s.children} :: p in s.children <==> 1 <= p <= n)
    && (forall p {:trigger s.children[p]} | p in s.children :: s.children[p] == Running)
  }

  lemma {:induction false} FirstFree(t: seq<Job>, n: nat, i: nat)
    requires |t| == MAXJOBS && i <= n <= MAXJOBS
    requires forall k {:trigger t[k]} | 0 <= k < MAXJOBS :: t[k].pid == if k < n then k + 1 else 0
    ensures SlotFrom(t, 0, i) == n
    decreases n - i
  {
    if i < n {
      FirstFree(t, n, i + 1);
    }
  }

  lemma Launch(es: seq<Step>, s: State, n: nat) returns (es': seq<Step>, s': State)
    requires Reaches(es, s) && Busy(s, n) && n < MAXJOBS
    ensures Reaches(es', s') && Busy(s', n + 1)
  {
    FirstFree(s.table, n, 0);
    es', s' := Then(es, s, Block);
    es', s' := Then(es', s', Fork(n + 1, true, ""));
    es', s' := Then(es', s', RunAddJob);
    es', s' := Then(es', s', Unblock);
  }

  lemma {:induction false} LaunchMany(n: nat) returns (es: seq<Step>, s: State)
    requires n <= MAXJOBS
    ensures Reaches(es, s) && Busy(s, n)
  {
    if n == 0 {
      es, s := Start();
    } else {
      es, s := LaunchMany(n - 1);
      es, s := Launch(es, s, n - 1);
    }
  }

  /** A failed fork leaves the shell between commands with the signals blocked. */
  lemma GivesUpBlocked() returns (es: seq<Step>, s: State)
    ensures Reaches(es, s) && s.main.Idle? && s.blocked && s.handler.Off?
  {
    es, s := Start();
    es, s := Then(es, s, Block);
    es, s := Then(es, s, ForkFails);
  }

  /** The seventeenth child finds no slot: from here on the signals stay blocked unless fg is used. */
  lemma RunsOutOfSlots() returns (es: seq<Step>, s: State)
    ensures Reaches(es, s) && s.main == Forked(17, true, "") && s.handler.Off? && !CanAdd(s.table, 17)
    ensures forall p {:trigger p in s.children} :: p in s.children <==> 1 <= p <= 17
    ensures s.children[17] == Running && s.children[1] == Running && s.untracked == {} && !s.pending && s.blocked
    ensures |s.table| == MAXJOBS
    ensures forall i {:trigger s.table[i]} | 0 <= i < MAXJOBS :: s.table[i].pid == i + 1 && s.table[i].state == BG
  {
    es, s := LaunchMany(MAXJOBS);
    FirstFree(s.table, MAXJOBS, 0);
    es, s := Then(es, s, Block);
    es, s := Then(es, s, Fork(17, true, ""));
  }

  // fg of the running job in slot k, up to its wait.
  lemma Foregrounded(es: seq<Step>, s: State, k: nat) returns (es': seq<Step>, s': State)
    requires Reaches(es, s) && s.main.Idle? && s.handler.Off? && k < |s.table| && s.table[k].pid == k + 1
    requires k + 1 in s.children && s.children[k + 1] == Running
    ensures Reaches(es', s')
    ensures s' == s.(table := s.table[k := s.table[k].(state := FG)], main := Testing(k + 1, true))
  {
    es', s' := Then(es, s, Look(k, FG));
    es', s' := Then(es', s', SetState);
    es', s' := Then(es', s', SendCont(false));
  }

  // The same for slot 0, up to the end of the first test of its wait.
  lemma Foreground(es: seq<Step>, s: State) returns (es': seq<Step>, s': State)
    requires Reaches(es, s) && s.main.Idle? && s.handler.Off? && |s.table| == MAXJOBS && s.table[0].pid == 1
    requires 1 in s.children && s.children[1] == Running
    ensures Reaches(es', s')
    ensures s' == s.(table := s.table[0 := s.table[0].(state := FG)], main := Committed(1, true))
  {
    es', s' := Foregrounded(es, s, 0);
    assert FgPid(s'.table) == 1;
    es', s' := Then(es', s', Test);
  }

  // Child p ends and the handler gets as far as waitpid.
  lemma EndSeen(es: seq<Step>, s: State, p: int) returns (es': seq<Step>, s': State)
    requires Reaches(es, s) && s.handler.Off? && SignalsOpen(s) && p in s.children && !s.children[p].Zombie?
    ensures Reaches(es', s')
    ensures s' == s.(handler := Reaped(p), children := s.children - {p}, pending := false,
                     untracked := s.untracked - {p})
  {
    es', s' := Then(es, s, Exit(p));
    es', s' := Then(es', s', Deliver);
    es', s' := Then(es', s', Wait(p));
    assert s'.children == s.children - {p};
  }

  // Child p ends and the handler deletes its job, wherever the shell is outside sigsuspend with the signals open.
  lemma EndOf(es: seq<Step>, s: State, p: int) returns (es': seq<Step>, s': State)
    requires Reaches(es, s) && s.handler.Off? && SignalsOpen(s) && !s.main.Suspended?
    requires p in s.children && HasPid(s.table, p) && s.untracked == {}
    requires forall q {:trigger s.children[q]} | q in s.children :: s.children[q] == Running
    ensures Reaches(es', s') && s'.handler.Off? && !s'.pending && s'.untracked == {}
    ensures s'.main == s.main && s'.blocked == s.blocked && s'.strayed == s.strayed
    ensures s'.table == Deleted(s.table, p) && s'.children == s.children - {p}
  {
    es', s' := EndSeen(es, s, p);
    es', s' := Then(es', s', RunDeleteJob);
    es', s' := Then(es', s', WaitNone);
    es', s' := Then(es', s', Return);
  }

  // A child stops while the shell sleeps; the handler gets as far as waitpid.
  lemma StopSeen(es: seq<Step>, s: State, p: int) returns (es': seq<Step>, s': State)
    requires Reaches(es, s) && s.handler.Off? && s.main.Committed? && p in s.children && s.children[p] == Running
    ensures Reaches(es', s') && s'.handler == Handler.Stopped(p) && s'.table == s.table
  {
    es', s' := Then(es, s, Suspend);
    es', s' := Then(es', s', Stop(p));
    es', s' := Then(es', s', Deliver);
    es', s' := Then(es', s', Wait(p));
  }

  lemma {:induction false} NoSeventeen(t: seq<Job>, i: nat)
    requires i <= |t| == MAXJOBS && forall k {:trigger t[k]} | 0 <= k < MAXJOBS :: t[k].pid == k + 1
    ensures SlotFrom(t, 17, i) == MAXJOBS
    decreases MAXJOBS - i
  {
    if i < MAXJOBS {
      NoSeventeen(t, i + 1);
    }
  }

  /** fg then opens the signals, and when the child without a job stops, the handler uses a null pointer. */
  lemma NullReached() returns (es: seq<Step>, s: State)
    ensures Reaches(es, s) && s.handler.Stopped? && !HasPid(s.table, s.handler.pid)
  {
    es, s := RunsOutOfSlots();
    es, s := Then(es, s, RunAddJob);
    es, s := Foreground(es, s);
    es, s := StopSeen(es, s, 17);
    NoSeventeen(s.table, 0);
  }

  /** The wait of fg can miss its child's end: the shell sleeps with nothing pending, no job and no child. */
  lemma WakeupLost() returns (es: seq<Step>, s: State)
    ensures Reaches(es, s) && s.main == Suspended(1, true) && s.handler.Off?
    ensures !s.pending && forall p {:trigger p in s.children} :: p !in s.children
    ensures forall i {:trigger s.table[i]} | 0 <= i < |s.table| :: s.table[i].pid == 0
  {
    es, s := LaunchMany(1);
    es, s := Foreground(es, s);
    assert Slot(s.table, 1) == 0;
    es, s := EndOf(es, s, 1);
    es, s := Then(es, s, Suspend);
  }

  /**
   * fg of a job whose child ends just then marks a free slot as the foreground job. After that fg of another job does
   * not wait: the shell is ready for commands while that job runs in the foreground.
   */
  lemma ForegroundNotWaitedFor() returns (es: seq<Step>, s: State)
    ensures Reaches(es, s) && s.main.Idle? && s.handler.Off? && !s.pending
    ensures 2 in View(s.table) && View(s.table)[2].state == FG && 2 in s.children && s.children[2] == Running
  {
    es, s := LaunchMany(2);
    es, s := Then(es, s, Look(0, FG));
    assert Slot(s.table, 1) == 0;
    es, s := EndOf(es, s, 1);
    es, s := Then(es, s, SetState);
    es, s := Then(es, s, SendCont(false));
    es, s := SecondFg(es, s);
    Reachable(es);
    SlotIs(s.table, 1);
  }

  lemma SecondFg(es: seq<Step>, s: State) returns (es': seq<Step>, s': State)
    requires Reaches(es, s) && s.main == Testing(1, true) && s.handler.Off? && !s.pending && |s.table| == MAXJOBS
    requires s.table[0].pid == 0 && s.table[0].state == FG && s.table[1].pid == 2
    requires 2 in s.children && s.children[2] == Running
    ensures Reaches(es', s') && s'.main.Idle? && s'.handler.Off? && !s'.pending && |s'.table| == MAXJOBS
    ensures s'.table[1].pid == 2 && s'.table[1].state == FG && s'.children == s.children
  {
    assert FgPid(s.table) == 0;
    es', s' := Then(es, s, Test);
    es', s' := Foregrounded(es', s', 1);
    assert FgPid(s'.table) == 0;
    es', s' := Then(es', s', Test);
  }
}
