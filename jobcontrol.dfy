/**
 * The job table of jobcontrol.c: a fixed array of MAX_JOBS slots, a jid
 * counter and the lazily run initialisation, with addjob, deletejob and
 * the slot lookup and state assignment of the fg, bg and disown builtins.
 *
 * A slot is free when its pgid is 0. The slot fields are those that
 * jobcontrol.c and sighandler.c use (pgid, jid, state, cmdline, n_procs,
 * n_finished, pids); `pids` is the process id array of the job.
 */
module JobControl {
  import opened Wrappers

  const MAX_JOBS: nat := 16
  const MAXLINE: nat := 1024

  /** Job states. */
  const UNDEF: int := 0
  const FG: int := 1
  const BG: int := 2
  const ST: int := 3

  datatype Job = Job(pgid: int, jid: int, state: int, cmdline: string, nProcs: int, nFinished: int, pids: seq<int>)

  /** A slot of the zero-initialised global array. */
  const ZeroJob := Job(0, 0, UNDEF, "", 0, 0, [])

  /** The lowest slot at or after `from` that is free. */
  function FreeSlot(slots: seq<Job>, from: nat): (r: Option<nat>)
    requires from <= |slots|
    ensures r.Some? ==> from <= r.value < |slots| && slots[r.value].pgid == 0
    ensures r.Some? ==> forall k :: from <= k < r.value ==> slots[k].pgid != 0
    ensures r.None? ==> forall k :: from <= k < |slots| ==> slots[k].pgid != 0
    decreases |slots| - from
  {
    if from == |slots| then None
    else if slots[from].pgid == 0 then Some(from)
    else FreeSlot(slots, from + 1)
  }

  /** The lowest slot at or after `from` whose jid is `j`, free or not. */
  function JidSlot(slots: seq<Job>, j: int, from: nat): (r: Option<nat>)
    requires from <= |slots|
    ensures r.Some? ==> from <= r.value < |slots| && slots[r.value].jid == j
    ensures r.Some? ==> forall k :: from <= k < r.value ==> slots[k].jid != j
    ensures r.None? ==> forall k :: from <= k < |slots| ==> slots[k].jid != j
    decreases |slots| - from
  {
    if from == |slots| then None
    else if slots[from].jid == j then Some(from)
    else JidSlot(slots, j, from + 1)
  }

  /** The slots after initjob: every pgid 0, nothing else touched. */
  function Cleared(slots: seq<Job>): (r: seq<Job>)
    ensures |r| == |slots|
    ensures forall k :: 0 <= k < |slots| ==> r[k] == slots[k].(pgid := 0)
  {
    if slots == [] then [] else [slots[0].(pgid := 0)] + Cleared(slots[1..])
  }

  /** The slot addjob writes: the new job's fields, with the slot's pid array left as it was. */
  function Filled(old_slot: Job, pgid: int, jid: int, state: int, cmdline: string): Job {
    old_slot.(pgid := pgid, nProcs := 0, nFinished := 0, jid := jid, state := state, cmdline := cmdline)
  }

  class JobTable {
    const jobs: array<Job>  // jobs[MAX_JOBS]
    var jid: int            // the jid counter
    var init: bool          // initjob has run

    ghost predicate Valid()
      reads this, jobs
    {
      jobs.Length == MAX_JOBS &&
      forall k :: 0 <= k < MAX_JOBS ==> jobs[k].nProcs <= |jobs[k].pids|
    }

    /** The globals at program start: all slots zero, counter 0, not yet initialised. */
    constructor ()
      ensures Valid() && fresh(jobs)
      ensures jid == 0 && !init
      ensures forall k :: 0 <= k < MAX_JOBS ==> jobs[k] == ZeroJob
    {
      jobs := new Job[MAX_JOBS](_ => ZeroJob);
      jid := 0;
      init := false;
    }

    /** initjob: frees every slot and resets the counter. */
    method InitJob()
      requires Valid()
      modifies this, jobs
      ensures Valid() && init == old(init)
      ensures jid == 0 && jobs[..] == Cleared(old(jobs[..]))
    {
      var i := 0;
      while i < MAX_JOBS
        invariant 0 <= i <= MAX_JOBS
        invariant forall k :: 0 <= k < i ==> jobs[k] == old(jobs[k]).(pgid := 0)
        invariant forall k :: i <= k < MAX_JOBS ==> jobs[k] == old(jobs[k])
        invariant init == old(init)
      {
        jobs[i] := jobs[i].(pgid := 0);
        i := i + 1;
      }
      jid := 0;
    }

    /**
     * addjob: on the first call initialises the table; rejects pgid <= 0;
     * fills the lowest free slot with a new job numbered by the counter and
     * returns that number; returns -1 when every slot is taken.
     */
    method AddJob(pgid: int, state: int, cmdline: string) returns (r: int)
      requires Valid() && |cmdline| < MAXLINE
      modifies this, jobs
      ensures Valid() && init
      ensures var s0 := if old(init) then old(jobs[..]) else Cleared(old(jobs[..]));
        var j0 := if old(init) then old(jid) else 0;
        if pgid <= 0 || FreeSlot(s0, 0).None? then
          r == -1 && jobs[..] == s0 && jid == j0
        else
          var i := FreeSlot(s0, 0).value;
          r == j0 && jid == j0 + 1 && jobs[..] == s0[i := Filled(s0[i], pgid, j0, state, cmdline)]
    {
      if !init {
        InitJob();
        init := true;
      }
      if pgid <= 0 {
        return -1;
      }
      ghost var s0 := jobs[..];
      var i := 0;
      while i < MAX_JOBS
        invariant 0 <= i <= MAX_JOBS
        invariant forall k :: 0 <= k < i ==> s0[k].pgid != 0
        invariant jobs[..] == s0
      {
        if jobs[i].pgid == 0 {
          assert FreeSlot(s0, 0) == Some(i);
          jobs[i] := Filled(jobs[i], pgid, jid, state, cmdline);
          jid := jid + 1;
          return jid - 1;
        }
        i := i + 1;
      }
      return -1;
    }

    /** deletejob: frees the slot and decrements the counter; the other fields stay. */
    method DeleteJob(i: nat)
      requires Valid() && i < MAX_JOBS
      modifies this, jobs
      ensures Valid() && init == old(init)
      ensures jobs[..] == old(jobs[..])[i := old(jobs[i]).(pgid := 0)]
      ensures jid == old(jid) - 1
    {
      jobs[i] := jobs[i].(pgid := 0);
      jid := jid - 1;
    }

    /** The slot lookup of fg, bg and disown: the lowest slot whose jid is `j`. */
    method FindJid(j: int) returns (r: Option<nat>)
      requires Valid()
      ensures r == JidSlot(jobs[..], j, 0)
    {
      var i := 0;
      while i < MAX_JOBS
        invariant 0 <= i <= MAX_JOBS
        invariant forall k :: 0 <= k < i ==> jobs[k].jid != j
      {
        if jobs[i].jid == j {
          return Some(i);
        }
        i := i + 1;
      }
      return None;
    }

    /** fg: the selected job goes to the foreground state. */
    method Fg(j: int) returns (res: int)
      requires Valid() && JidSlot(jobs[..], j, 0).Some?
      modifies jobs
      ensures Valid() && res == 0
      ensures var i := JidSlot(old(jobs[..]), j, 0).value; jobs[..] == old(jobs[..])[i := old(jobs[i]).(state := FG)]
    {
      var slot := FindJid(j);
      var i := slot.value;
      jobs[i] := jobs[i].(state := FG);
      res := 0;
    }

    /** bg: the selected job goes to the background state. */
    method Bg(j: int) returns (res: int)
      requires Valid() && JidSlot(jobs[..], j, 0).Some?
      modifies jobs
      ensures Valid() && res == 0
      ensures var i := JidSlot(old(jobs[..]), j, 0).value; jobs[..] == old(jobs[..])[i := old(jobs[i]).(state := BG)]
    {
      var slot := FindJid(j);
      var i := slot.value;
      jobs[i] := jobs[i].(state := BG);
      res := 0;
    }

    /** disown: the selected job's slot is deleted; exec_jobctrl then returns 1. */
    method Disown(j: int) returns (res: int)
      requires Valid() && JidSlot(jobs[..], j, 0).Some?
      modifies this, jobs
      ensures Valid() && res == 1 && init == old(init)
      ensures var i := JidSlot(old(jobs[..]), j, 0).value; jobs[..] == old(jobs[..])[i := old(jobs[i]).(pgid := 0)]
      ensures jid == old(jid) - 1
    {
      var slot := FindJid(j);
      DeleteJob(slot.value);
      res := 1;
    }
  }
}
