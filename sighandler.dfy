/**
 * The bookkeeping of sighandler.c: get_job_idx, the search for the job
 * owning a process id, and the update sigchld_handler makes for one
 * reaped child. The wait status of that child is a ChildEvent; the
 * shell globals the handler writes (declared in my_shell.h) are the
 * fields of ShellStatus.
 */
module SigHandler {
  import opened Wrappers
  import opened JobControl

  /** What waitpid reported for the child: WIFEXITED with WEXITSTATUS, WIFSIGNALED, or WIFSTOPPED. */
  datatype ChildEvent = Exited(code: int) | Signaled | Stopped

  /** `pid` is among the first n_procs entries of the job's pid array. */
  predicate Owns(job: Job, pid: int) {
    exists j :: 0 <= j < job.nProcs && j < |job.pids| && job.pids[j] == pid
  }

  /** The lowest slot at or after `from` owning `pid`; freed slots are searched too. */
  function OwnerFrom(slots: seq<Job>, pid: int, from: nat): (r: Option<nat>)
    requires from <= |slots|
    ensures r.Some? ==> from <= r.value < |slots| && Owns(slots[r.value], pid)
    ensures r.Some? ==> forall k :: from <= k < r.value ==> !Owns(slots[k], pid)
    ensures r.None? ==> forall k :: from <= k < |slots| ==> !Owns(slots[k], pid)
    decreases |slots| - from
  {
    if from == |slots| then None
    else if Owns(slots[from], pid) then Some(from)
    else OwnerFrom(slots, pid, from + 1)
  }

  /** get_job_idx: the owning slot, or -1. */
  method GetJobIdx(t: JobTable, pid: int) returns (r: int)
    requires t.Valid()
    ensures var owner := OwnerFrom(t.jobs[..], pid, 0);
      (r == -1 <==> owner.None?) && (owner.Some? ==> r == owner.value)
  {
    var i := 0;
    while i < MAX_JOBS
      invariant 0 <= i <= MAX_JOBS
      invariant forall k :: 0 <= k < i ==> !Owns(t.jobs[k], pid)
    {
      var job := t.jobs[i];
      var j := 0;
      while j < job.nProcs
        invariant 0 <= j <= |job.pids|
        invariant j <= job.nProcs || job.nProcs < 0
        invariant forall m :: 0 <= m < j ==> job.pids[m] != pid
      {
        if job.pids[j] == pid {
          assert Owns(t.jobs[i], pid);
          assert OwnerFrom(t.jobs[..], pid, 0) == Some(i);
          return i;
        }
        j := j + 1;
      }
      assert !Owns(t.jobs[i], pid);
      i := i + 1;
    }
    return -1;
  }

  /** The globals fg_child_count, last_pid and last_status. */
  class ShellStatus {
    var fgChildCount: int
    var lastPid: int
    var lastStatus: int

    constructor (fgChildCount: int, lastPid: int, lastStatus: int)
      ensures this.fgChildCount == fgChildCount && this.lastPid == lastPid && this.lastStatus == lastStatus
    {
      this.fgChildCount := fgChildCount;
      this.lastPid := lastPid;
      this.lastStatus := lastStatus;
    }
  }

  /**
   * The body of the sigchld_handler loop for one child `pid`. A pid that
   * no job owns changes nothing. Otherwise: an exit or a kill counts the
   * process as finished; a stop marks the job stopped; fg_child_count
   * drops when the job is (now) in the foreground or the child stopped;
   * the slot is freed through deletejob when all its processes have
   * finished; last_status is the exit code of the last process of the
   * pipeline if it exited, and 1 otherwise.
   */
  method ReapChild(t: JobTable, sh: ShellStatus, pid: int, ev: ChildEvent)
    requires t.Valid()
    modifies t, t.jobs, sh
    ensures t.Valid() && t.init == old(t.init) && sh.lastPid == old(sh.lastPid)
    ensures OwnerFrom(old(t.jobs[..]), pid, 0).None? ==>
      t.jobs[..] == old(t.jobs[..]) && t.jid == old(t.jid) &&
      sh.fgChildCount == old(sh.fgChildCount) && sh.lastStatus == old(sh.lastStatus)
    ensures OwnerFrom(old(t.jobs[..]), pid, 0).Some? ==>
      var i := OwnerFrom(old(t.jobs[..]), pid, 0).value;
      var job := old(t.jobs[i]);
      var finished := if ev.Stopped? then job.nFinished else job.nFinished + 1;
      var state := if ev.Stopped? then ST else job.state;
      var freed := job.nProcs == finished;
      t.jobs[..] == old(t.jobs[..])[i := job.(nFinished := finished, state := state, pgid := if freed then 0 else job.pgid)] &&
      t.jid == (if freed then old(t.jid) - 1 else old(t.jid)) &&
      sh.fgChildCount == (if state == FG || ev.Stopped? then old(sh.fgChildCount) - 1 else old(sh.fgChildCount)) &&
      sh.lastStatus == (if pid == sh.lastPid && ev.Exited? then ev.code else 1)
  {
    var idx := GetJobIdx(t, pid);
    if idx == -1 {
      return;
    }
    var job := t.jobs[idx];
    if ev.Exited? || ev.Signaled? {
      job := job.(nFinished := job.nFinished + 1);
    }
    if ev.Stopped? {
      job := job.(state := ST);
    }
    t.jobs[idx] := job;
    if job.state == FG || ev.Stopped? {
      sh.fgChildCount := sh.fgChildCount - 1;
    }
    if job.nProcs == job.nFinished {
      t.DeleteJob(idx);
    }
    if pid == sh.lastPid && ev.Exited? {
      sh.lastStatus := ev.code;
    } else {
      sh.lastStatus := 1;
    }
  }
}
