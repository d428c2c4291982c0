/** The job list of tshlab/tsh.c: a table of sixteen slots, as values and as the array the shell updates in place. */
module Jobs {
  const MAXJOBS: nat := 16

  datatype JobState = UNDEF | FG | BG | ST

  // A slot. pid 0 marks a free one.
  datatype Job = Job(pid: int, jid: int, state: JobState, cmdline: string)

  const CLEAR: Job := Job(0, 0, UNDEF, "")

  // initjobs
  function EmptyTable(n: nat): (t: seq<Job>)
    ensures |t| == n && forall i {:trigger t[i]} | 0 <= i < n :: t[i] == CLEAR
  {
    if n == 0 then [] else EmptyTable(n - 1) + [CLEAR]
  }

  // The first slot from i on with this pid, or |t|.
  function SlotFrom(t: seq<Job>, pid: int, i: nat): (r: nat)
    requires i <= |t|
    ensures i <= r <= |t|
    ensures r < |t| ==> t[r].pid == pid
    ensures forall k {:trigger t[k]} | i <= k < r :: t[k].pid != pid
    decreases |t| - i
  {
    if i == |t| || t[i].pid == pid then i else SlotFrom(t, pid, i + 1)
  }

  function Slot(t: seq<Job>, pid: int): nat {
    SlotFrom(t, pid, 0)
  }

  predicate HasPid(t: seq<Job>, pid: int) {
    Slot(t, pid) < |t|
  }

  lemma {:induction false} SlotFromBound(t: seq<Job>, pid: int, i: nat, k: nat)
    requires i <= k < |t| && t[k].pid == pid
    ensures SlotFrom(t, pid, i) <= k
    decreases k - i
  {
    if t[i].pid != pid {
      SlotFromBound(t, pid, i + 1, k);
    }
  }

  // A slot with this pid is enough for the search to find one.
  lemma SlotBound(t: seq<Job>, pid: int, k: nat)
    requires k < |t| && t[k].pid == pid
    ensures HasPid(t, pid) && Slot(t, pid) <= k
  {
    SlotFromBound(t, pid, 0, k);
  }

  function MaxJid(t: seq<Job>): (m: int)
    ensures m >= 0
    ensures forall k {:trigger t[k]} | 0 <= k < |t| :: t[k].jid <= m
    ensures m == 0 || exists k {:trigger t[k]} :: 0 <= k < |t| && t[k].jid == m
  {
    if t == [] then 0
    else var m := MaxJid(t[..|t| - 1]); if t[|t| - 1].jid > m then t[|t| - 1].jid else m
  }

  // n is one more than the largest job id in the table, or 1.
  ghost predicate NextOf(t: seq<Job>, n: int) {
    && n >= 1
    && (forall k {:trigger t[k]} | 0 <= k < |t| :: t[k].jid < n)
    && (n == 1 || exists k {:trigger t[k]} :: 0 <= k < |t| && t[k].jid == n - 1)
  }

  // The pid of the first foreground job from slot i on, or 0.
  function FgPidFrom(t: seq<Job>, i: nat): int
    requires i <= |t|
    decreases |t| - i
  {
    if i == |t| then 0 else if t[i].state == FG then t[i].pid else FgPidFrom(t, i + 1)
  }

  function FgPid(t: seq<Job>): int {
    FgPidFrom(t, 0)
  }

  // Job ids wrap after sixteen.
  function Following(nextjid: int): int {
    if nextjid + 1 > MAXJOBS then 1 else nextjid + 1
  }

  predicate CanAdd(t: seq<Job>, pid: int) {
    pid >= 1 && HasPid(t, 0)
  }

  function Added(t: seq<Job>, nextjid: int, pid: int, state: JobState, cmdline: string): seq<Job>
    requires CanAdd(t, pid)
  {
    t[Slot(t, 0) := Job(pid, nextjid, state, cmdline)]
  }

  function Deleted(t: seq<Job>, pid: int): seq<Job>
    requires HasPid(t, pid)
  {
    t[Slot(t, pid) := CLEAR]
  }

  function Marked(t: seq<Job>, pid: int, state: JobState): seq<Job>
    requires HasPid(t, pid)
  {
    t[Slot(t, pid) := t[Slot(t, pid)].(state := state)]
  }

  // ---- What a table means -----------------------------------------------------

  ghost predicate UsesOnce(t: seq<Job>, i: nat, k: nat)
    requires i < |t| && k < |t|
  {
    t[i].pid == t[k].pid ==> i == k
  }

  // Full slots have positive and distinct pids.
  ghost predicate Sound(t: seq<Job>) {
    && |t| == MAXJOBS
    && (forall i {:trigger t[i]} | 0 <= i < |t| :: t[i].pid >= 0)
    && (forall i: nat, k: nat {:trigger UsesOnce(t, i, k)} | i < |t| && k < |t| && t[i].pid != 0 :: UsesOnce(t, i, k))
  }

  // No free slot is marked as the foreground job.
  ghost predicate Tidy(t: seq<Job>) {
    forall i {:trigger t[i]} | 0 <= i < |t| && t[i].pid == 0 :: t[i].state != FG
  }

  ghost function Pids(t: seq<Job>): set<int> {
    set i {:trigger t[i]} | 0 <= i < |t| && t[i].pid != 0 :: t[i].pid
  }

  // The jobs by pid: what the table stands for.
  ghost function View(t: seq<Job>): map<int, Job> {
    map p {:trigger Slot(t, p)} | p in Pids(t) && HasPid(t, p) :: t[Slot(t, p)]
  }

  lemma SlotIs(t: seq<Job>, i: nat)
    requires Sound(t) && i < |t| && t[i].pid != 0
    ensures Slot(t, t[i].pid) == i && t[i].pid in View(t) && View(t)[t[i].pid] == t[i]
  {
    assert UsesOnce(t, i, Slot(t, t[i].pid));
    assert t[i].pid in Pids(t);
  }

  lemma InView(t: seq<Job>, p: int)
    ensures p in View(t) <==> p != 0 && HasPid(t, p)
    ensures p in View(t) ==> View(t)[p] == t[Slot(t, p)] && View(t)[p].pid == p
  {
    assert HasPid(t, p) && p != 0 ==> t[Slot(t, p)].pid in Pids(t);
  }

  lemma UpdateSound(t: seq<Job>, k: nat, j: Job)
    requires Sound(t) && k < |t| && j.pid >= 0
    requires j.pid == 0 || j.pid == t[k].pid || j.pid !in View(t)
    ensures Sound(t[k := j])
  {
    var u := t[k := j];
    forall i: nat, l: nat | i < |u| && l < |u| && u[i].pid != 0 ensures UsesOnce(u, i, l) {
      if i != k && l != k {
        assert UsesOnce(t, i, l);
      } else if i != l {
        var m := if i == k then l else i;
        if t[m].pid != 0 {
          SlotIs(t, m);
          assert UsesOnce(t, m, k);
        }
      }
    }
  }

  lemma UpdateFinds(t: seq<Job>, k: nat, j: Job, i: nat)
    requires k < |t| && Sound(t) && Sound(t[k := j]) && i < |t| && t[k := j][i].pid != 0
    ensures i == k ==> t[k := j][i] == j
    ensures i != k ==> t[i].pid in View(t) && View(t)[t[i].pid] == t[i] && t[i].pid != t[k].pid && t[i].pid != j.pid
  {
    if i != k {
      SlotIs(t, i);
      assert UsesOnce(t, i, k);
      assert UsesOnce(t[k := j], i, k);
    }
  }

  ghost function Replaced(v: map<int, Job>, was: int, j: Job): map<int, Job> {
    if j.pid == 0 then v - {was} else (v - {was})[j.pid := j]
  }

  lemma UpdateViewAt(t: seq<Job>, k: nat, j: Job, p: int)
    requires k < |t| && Sound(t) && Sound(t[k := j])
    ensures var v := Replaced(View(t), t[k].pid, j);
      (p in View(t[k := j]) <==> p in v) && (p in v ==> View(t[k := j])[p] == v[p])
  {
    var u := t[k := j];
    InView(t, p);
    InView(u, p);
    if p in View(u) {
      UpdateFinds(t, k, j, Slot(u, p));
    } else if p == j.pid && p != 0 {
      SlotIs(u, k);
    } else if p in View(t) && p != t[k].pid {
      SlotIs(u, Slot(t, p));
    }
  }

  // Replacing one slot replaces one job.
  lemma UpdateView(t: seq<Job>, k: nat, j: Job)
    requires k < |t| && Sound(t) && Sound(t[k := j])
    ensures View(t[k := j]) == Replaced(View(t), t[k].pid, j)
  {
    var u, v := View(t[k := j]), Replaced(View(t), t[k].pid, j);
    forall p: int ensures (p in u <==> p in v) && (p in v ==> u[p] == v[p]) {
      UpdateViewAt(t, k, j, p);
    }
    assert u.Keys == v.Keys;
  }

  /** addjob adds exactly its pid, with the given state, and keeps every other job. */
  lemma AddedIs(t: seq<Job>, nextjid: int, pid: int, state: JobState, cmdline: string)
    requires Sound(t) && CanAdd(t, pid) && pid !in View(t)
    ensures var u := Added(t, nextjid, pid, state, cmdline);
      && Sound(u) && View(u) == View(t)[pid := Job(pid, nextjid, state, cmdline)]
      && (Tidy(t) ==> Tidy(u))
  {
    var j := Job(pid, nextjid, state, cmdline);
    UpdateSound(t, Slot(t, 0), j);
    UpdateView(t, Slot(t, 0), j);
    InView(t, 0);
  }

  /** deletejob removes exactly its pid. */
  lemma DeletedIs(t: seq<Job>, pid: int)
    requires Sound(t) && pid >= 1 && HasPid(t, pid)
    ensures Sound(Deleted(t, pid)) && pid in View(t) && View(Deleted(t, pid)) == View(t) - {pid}
    ensures Tidy(t) ==> Tidy(Deleted(t, pid))
  {
    InView(t, pid);
    UpdateSound(t, Slot(t, pid), CLEAR);
    UpdateView(t, Slot(t, pid), CLEAR);
  }

  /** A change of state changes nothing else. */
  lemma MarkedIs(t: seq<Job>, pid: int, state: JobState)
    requires Sound(t) && pid >= 1 && HasPid(t, pid)
    ensures pid in View(t) && Sound(Marked(t, pid, state))
    ensures View(Marked(t, pid, state)) == View(t)[pid := View(t)[pid].(state := state)]
    ensures Tidy(t) ==> Tidy(Marked(t, pid, state))
  {
    InView(t, pid);
    var k := Slot(t, pid);
    UpdateSound(t, k, t[k].(state := state));
    UpdateView(t, k, t[k].(state := state));
  }

  /** A state written to a free slot changes no job. */
  lemma StrayIs(t: seq<Job>, k: nat, state: JobState)
    requires Sound(t) && k < |t| && t[k].pid == 0
    ensures var u := t[k := t[k].(state := state)];
      Sound(u) && View(u) == View(t) && (Tidy(t) && state != FG ==> Tidy(u))
  {
    var j := t[k].(state := state);
    UpdateSound(t, k, j);
    UpdateView(t, k, j);
    InView(t, 0);
  }

  // A slot before that of p is marked as the foreground job's.
  ghost predicate Shadowed(t: seq<Job>, p: int) {
    exists k {:trigger t[k]} :: 0 <= k < Slot(t, p) && t[k].state == FG
  }

  // fgpid stops at the first slot marked FG.
  lemma {:induction false} FgSlot(t: seq<Job>, i: nat) returns (k: nat)
    requires i <= |t|
    ensures i <= k <= |t| && forall j {:trigger t[j]} | i <= j < k :: t[j].state != FG
    ensures k < |t| ==> t[k].state == FG
    ensures FgPidFrom(t, i) == if k < |t| then t[k].pid else 0
    decreases |t| - i
  {
    if i == |t| || t[i].state == FG {
      k := i;
    } else {
      k := FgSlot(t, i + 1);
    }
  }

  /**
   * fgpid returns the pid of a foreground job, or 0. It returns that of job p exactly when p is in the foreground and
   * no earlier slot is marked as a foreground job, and 0 exactly when there is an earlier such slot for every
   * foreground job. When no free slot is marked so, it returns 0 only if there is no foreground job.
   */
  lemma FgPidIs(t: seq<Job>)
    requires Sound(t)
    ensures FgPid(t) != 0 ==> FgPid(t) in View(t) && View(t)[FgPid(t)].state == FG
    ensures forall p {:trigger Shadowed(t, p)} | p in View(t) ::
      FgPid(t) == p <==> View(t)[p].state == FG && !Shadowed(t, p)
    ensures FgPid(t) == 0 <==> forall p {:trigger Shadowed(t, p)} | p in View(t) && View(t)[p].state == FG ::
      Shadowed(t, p)
    ensures Tidy(t) ==> (FgPid(t) == 0 <==> forall p {:trigger View(t)[p]} | p in View(t) :: View(t)[p].state != FG)
  {
    var k := FgSlot(t, 0);
    if k < |t| && t[k].pid != 0 {
      SlotIs(t, k);
    }
    forall p | p in View(t) ensures View(t)[p].state == FG && k < Slot(t, p) ==> Shadowed(t, p)
      ensures View(t)[p].state == FG ==> k <= Slot(t, p)
      ensures Shadowed(t, p) ==> k < Slot(t, p)
    {
      InView(t, p);
    }
  }

  function FullSlots(t: seq<Job>): nat {
    if t == [] then 0 else FullSlots(t[..|t| - 1]) + if t[|t| - 1].pid != 0 then 1 else 0
  }

  lemma {:induction false} FullSlotsBound(t: seq<Job>, n: nat)
    requires n <= |t|
    ensures FullSlots(t[..n]) <= n
    ensures FullSlots(t[..n]) == n <==> forall i {:trigger t[i]} | 0 <= i < n :: t[i].pid != 0
  {
    if n > 0 {
      FullSlotsBound(t, n - 1);
      assert t[..n][..n - 1] == t[..n - 1];
    }
  }

  lemma PidsPrefix(t: seq<Job>, n: nat)
    requires 0 < n <= |t|
    ensures Pids(t[..n]) == Pids(t[..n - 1]) + if t[n - 1].pid != 0 then {t[n - 1].pid} else {}
  {
    forall p | p in Pids(t[..n - 1]) ensures p in Pids(t[..n]) {
      var i :| 0 <= i < n - 1 && t[..n - 1][i].pid == p && p != 0;
      assert t[..n][i].pid == p;
    }
    assert t[..n][n - 1] == t[n - 1];
  }

  lemma {:induction false} PidsCount(t: seq<Job>, n: nat)
    requires Sound(t) && n <= |t|
    ensures |Pids(t[..n])| == FullSlots(t[..n])
  {
    if n > 0 {
      PidsCount(t, n - 1);
      PidsPrefix(t, n);
      assert t[..n][..n - 1] == t[..n - 1];
      if t[n - 1].pid != 0 {
        forall i {:trigger t[i]} | 0 <= i < n - 1 ensures t[i].pid != t[n - 1].pid {
          assert UsesOnce(t, n - 1, i);
        }
      }
    }
  }

  /** The table holds at most sixteen jobs, and has no free slot exactly when it holds that many. */
  lemma TableSize(t: seq<Job>)
    requires Sound(t)
    ensures |View(t)| <= MAXJOBS && (|View(t)| == MAXJOBS <==> !HasPid(t, 0))
  {
    PidsCount(t, |t|);
    FullSlotsBound(t, |t|);
    assert t[..|t|] == t;
    forall p ensures p in View(t) <==> p in Pids(t) {
      InView(t, p);
    }
    assert View(t).Keys == Pids(t);
  }

  // ---- The job list in place --------------------------------------------------

  class JobList {
    const jobs: array<Job>
    var nextjid: int

    ghost predicate Valid() reads this {
      jobs.Length == MAXJOBS
    }

    // initjobs
    constructor ()
      ensures Valid() && fresh(jobs) && jobs[..] == EmptyTable(MAXJOBS) && nextjid == 1
    {
      jobs := new Job[MAXJOBS](i => CLEAR);
      nextjid := 1;
    }

    method ClearJob(i: nat)
      requires Valid() && i < jobs.Length
      modifies jobs
      ensures jobs[..] == old(jobs[..])[i := CLEAR]
    {
      jobs[i] := CLEAR;
    }

    method FindMaxJid() returns (max: int)
      requires Valid()
      ensures max == MaxJid(jobs[..])
    {
      max := 0;
      for i := 0 to MAXJOBS
        invariant max == MaxJid(jobs[..i])
      {
        assert jobs[..i + 1][..i] == jobs[..i];
        if jobs[i].jid > max {
          max := jobs[i].jid;
        }
      }
      assert jobs[..MAXJOBS] == jobs[..];
    }

    method AddJob(pid: int, state: JobState, cmdline: string) returns (ok: bool)
      requires Valid()
      modifies this`nextjid, jobs
      ensures ok <==> CanAdd(old(jobs[..]), pid)
      ensures ok ==>
        jobs[..] == Added(old(jobs[..]), old(nextjid), pid, state, cmdline) && nextjid == Following(old(nextjid))
      ensures ok && 1 <= old(nextjid) <= 15 ==> nextjid == old(nextjid) + 1
      ensures ok && old(nextjid) >= 16 ==> nextjid == 1
      ensures !ok ==> jobs[..] == old(jobs[..]) && nextjid == old(nextjid)
    {
      if pid < 1 {
        return false;
      }
      for i := 0 to MAXJOBS
        invariant jobs[..] == old(jobs[..]) && nextjid == old(nextjid)
        invariant Slot(jobs[..], 0) == SlotFrom(jobs[..], 0, i)
      {
        if jobs[i].pid == 0 {
          jobs[i] := Job(pid, nextjid, state, cmdline);
          nextjid := nextjid + 1;
          if nextjid > MAXJOBS {
            nextjid := 1;
          }
          return true;
        }
      }
      return false;
    }

    method DeleteJob(pid: int) returns (ok: bool)
      requires Valid()
      modifies this`nextjid, jobs
      ensures ok <==> pid >= 1 && HasPid(old(jobs[..]), pid)
      ensures ok ==> jobs[..] == Deleted(old(jobs[..]), pid) && nextjid == MaxJid(jobs[..]) + 1
      ensures ok ==> NextOf(jobs[..], nextjid)
      ensures !ok ==> jobs[..] == old(jobs[..]) && nextjid == old(nextjid)
    {
      if pid < 1 {
        return false;
      }
      for i := 0 to MAXJOBS
        invariant jobs[..] == old(jobs[..]) && nextjid == old(nextjid)
        invariant Slot(jobs[..], pid) == SlotFrom(jobs[..], pid, i)
      {
        if jobs[i].pid == pid {
          ClearJob(i);
          var max := FindMaxJid();
          nextjid := max + 1;
          return true;
        }
      }
      return false;
    }

    method FindFgPid() returns (pid: int)
      requires Valid()
      ensures pid == FgPid(jobs[..])
    {
      for i := 0 to MAXJOBS
        invariant FgPid(jobs[..]) == FgPidFrom(jobs[..], i)
      {
        if jobs[i].state == FG {
          return jobs[i].pid;
        }
      }
      return 0;
    }

    // The index of the job, or none for the NULL of getjobpid.
    method GetJobPid(pid: int) returns (slot: int)
      requires Valid()
      ensures slot == if pid >= 1 && HasPid(jobs[..], pid) then Slot(jobs[..], pid) else -1
    {
      if pid < 1 {
        return -1;
      }
      for i := 0 to MAXJOBS
        invariant Slot(jobs[..], pid) == SlotFrom(jobs[..], pid, i)
      {
        if jobs[i].pid == pid {
          return i;
        }
      }
      return -1;
    }

    // What the SIGCHLD handler does for a stopped child; false where it would use the NULL of getjobpid.
    method MarkStopped(pid: int) returns (ok: bool)
      requires Valid()
      modifies jobs
      ensures ok <==> pid >= 1 && HasPid(old(jobs[..]), pid)
      ensures jobs[..] == if ok then Marked(old(jobs[..]), pid, ST) else old(jobs[..])
    {
      var slot := GetJobPid(pid);
      ok := slot >= 0;
      if ok {
        jobs[slot] := jobs[slot].(state := ST);
      }
    }
  }

  // The first n slots hold the jobs 1 to n, and the others are free.
  ghost predicate FilledTo(t: seq<Job>, n: nat) {
    && |t| == 16
    && (forall k {:trigger t[k]} | 0 <= k < 16 :: t[k].pid == if k < n then k + 1 else 0)
    && forall k {:trigger t[k]} | 0 <= k < 16 && k < n :: t[k].jid == k + 1
  }

  lemma {:induction false} FirstFreeIs(t: seq<Job>, n: nat, i: nat)
    requires FilledTo(t, n) && i <= n < 16
    ensures SlotFrom(t, 0, i) == n
    decreases n - i
  {
    if i < n {
      FirstFreeIs(t, n, i + 1);
    }
  }

  /** Sixteen jobs added to a new list get the ids 1 to 16, and then the next id is 1 again. */
  method FillUp() returns (l: JobList)
    ensures fresh(l) && FilledTo(l.jobs[..], 16) && l.nextjid == 1
  {
    l := new JobList();
    for n := 0 to 16
      invariant l.Valid() && fresh(l) && fresh(l.jobs)
      invariant FilledTo(l.jobs[..], n) && l.nextjid == if n < 16 then n + 1 else 1
    {
      FirstFreeIs(l.jobs[..], n, 0);
      var _ := l.AddJob(n + 1, BG, "");
    }
  }
}
