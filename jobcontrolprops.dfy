/**
 * Job numbers of live jobs. fg, bg and disown pick a job by its jid, so
 * two live jobs must not share one. addjob numbers jobs from a counter;
 * deletejob decrements that counter, which lets a later addjob hand out
 * the number of a job that is still live. Below: that sequence of calls
 * as written, and a deletion that leaves the counter alone, under which
 * live jids stay distinct.
 */
module JobControlProps {
  import opened Wrappers
  import opened JobControl

  /** Every live job has a number below the counter, and no two live jobs share one. */
  predicate DistinctLive(slots: seq<Job>, counter: int) {
    (forall k :: 0 <= k < |slots| && slots[k].pgid != 0 ==> slots[k].jid < counter) &&
    (forall k, m :: 0 <= k < m < |slots| && slots[k].pgid != 0 && slots[m].pgid != 0 ==> slots[k].jid != slots[m].jid)
  }

  /** The table right after initjob has no live job. */
  lemma ClearedDistinct(slots: seq<Job>)
    ensures DistinctLive(Cleared(slots), 0)
  {
  }

  /** addjob's new slot takes the counter's number, which no live job has, and the counter moves past it. */
  lemma AddKeepsDistinct(s0: seq<Job>, j0: int, pgid: int, state: int, cmdline: string)
    requires DistinctLive(s0, j0) && pgid > 0 && FreeSlot(s0, 0).Some?
    ensures var i := FreeSlot(s0, 0).value;
      DistinctLive(s0[i := Filled(s0[i], pgid, j0, state, cmdline)], j0 + 1)
  {
  }

  /** Freeing a slot while keeping the counter keeps live numbers distinct. */
  lemma FreeKeepsDistinct(slots: seq<Job>, counter: int, i: nat)
    requires DistinctLive(slots, counter) && i < |slots|
    ensures DistinctLive(slots[i := slots[i].(pgid := 0)], counter)
  {
  }

  /**
   * As written: add two jobs, delete the first, add a third. The third job
   * gets the number of the second, which is still live, and the jid lookup
   * of fg/bg/disown then finds the third job's slot for that number.
   */
  method DuplicateJidScenario() returns (second: int, third: int, found: Option<nat>)
    ensures second == 1 && third == 1
    ensures found == Some(0)
  {
    var t := new JobTable();
    var first := t.AddJob(100, FG, "a");
    second := t.AddJob(200, BG, "b");
    assert t.jobs[0].pgid == 100 && t.jobs[1].pgid == 200;
    t.DeleteJob(0);
    third := t.AddJob(300, BG, "c");
    assert t.jobs[0].pgid == 300 && t.jobs[1].pgid == 200;
    assert t.jobs[0].jid == 1 && t.jobs[1].jid == 1;
    found := t.FindJid(second);
  }

  /** The same sequence with the corrected deletion: three distinct numbers, and the lookup finds the second job. */
  method DistinctJidScenario() returns (second: int, third: int, found: Option<nat>)
    ensures second == 1 && third == 2
    ensures found == Some(1)
  {
    var t := new JobTable();
    var first := t.AddJob(100, FG, "a");
    second := t.AddJob(200, BG, "b");
    assert t.jobs[0].pgid == 100 && t.jobs[1].pgid == 200;
    DeleteJobCorrected(t, 0);
    third := t.AddJob(300, BG, "c");
    assert t.jobs[0].pgid == 300 && t.jobs[1].pgid == 200;
    assert t.jobs[0].jid == 2 && t.jobs[1].jid == 1;
    found := t.FindJid(second);
  }

  /** deletejob without the decrement: frees the slot and keeps every live job's number distinct. */
  method DeleteJobCorrected(t: JobTable, i: nat)
    requires t.Valid() && i < MAX_JOBS
    modifies t.jobs
    ensures t.Valid()
    ensures t.jobs[..] == old(t.jobs[..])[i := old(t.jobs[i]).(pgid := 0)]
    ensures DistinctLive(old(t.jobs[..]), t.jid) ==> DistinctLive(t.jobs[..], t.jid)
  {
    if DistinctLive(t.jobs[..], t.jid) {
      FreeKeepsDistinct(t.jobs[..], t.jid, i);
    }
    t.jobs[i] := t.jobs[i].(pgid := 0);
  }
}
