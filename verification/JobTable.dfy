/** The shell's job list (sp_02_shelllab/tsh.c:47-53, 485-589): a fixed array of slots, and the
    loops over it, against functions of its contents. */
module JobTable {

  const MAXJOBS := 16

  datatype JobState = UNDEF | FG | BG | ST

  datatype Job = Job(pid: int, jid: int, state: JobState, cmdline: string)

  const CLEAR := Job(0, 0, UNDEF, "")

  datatype Table = Table(jobs: seq<Job>, nextjid: int)

  /** The first wanted slot, or |jobs|. */
  function First(jobs: seq<Job>, wanted: Job -> bool): (k: nat)
    ensures k <= |jobs| && (k < |jobs| ==> wanted(jobs[k]))
    ensures forall i :: 0 <= i < k ==> !wanted(jobs[i])
  {
    if jobs == [] || wanted(jobs[0]) then 0 else 1 + First(jobs[1..], wanted)
  }

  /** The first slot holding pid, or |jobs|. */
  function SlotOf(jobs: seq<Job>, pid: int): (k: nat)
    ensures k <= |jobs| && (k < |jobs| ==> jobs[k].pid == pid)
    ensures forall i :: 0 <= i < k ==> jobs[i].pid != pid
  {
    First(jobs, (j: Job) => j.pid == pid)
  }

  /** The first slot holding jid, or |jobs|. */
  function JidSlot(jobs: seq<Job>, jid: int): (k: nat)
    ensures k <= |jobs| && (k < |jobs| ==> jobs[k].jid == jid)
    ensures forall i :: 0 <= i < k ==> jobs[i].jid != jid
  {
    First(jobs, (j: Job) => j.jid == jid)
  }

  /** The first slot in the foreground, or |jobs|. */
  function FgSlot(jobs: seq<Job>): (k: nat)
    ensures k <= |jobs| && (k < |jobs| ==> jobs[k].state == FG)
    ensures forall i :: 0 <= i < k ==> jobs[i].state != FG
  {
    First(jobs, (j: Job) => j.state == FG)
  }

  function ForegroundPid(jobs: seq<Job>): int
  {
    if FgSlot(jobs) < |jobs| then jobs[FgSlot(jobs)].pid else 0
  }

  function LargestJid(jobs: seq<Job>): (m: int)
    ensures m >= 0 && forall j :: j in jobs ==> j.jid <= m
    ensures m > 0 ==> exists j :: j in jobs && j.jid == m
  {
    if jobs == [] then 0
    else
      var m := LargestJid(jobs[..|jobs| - 1]);
      if jobs[|jobs| - 1].jid > m then jobs[|jobs| - 1].jid else m
  }

  function NextJid(jid: int): int
  {
    if jid + 1 > MAXJOBS then 1 else jid + 1
  }

  /** addjob: the first free slot takes the job; a full list or a pid below 1 changes nothing. */
  function Add(t: Table, pid: int, state: JobState, cmdline: string): Table
  {
    var k := SlotOf(t.jobs, 0);
    if pid < 1 || k == |t.jobs| then t
    else Table(t.jobs[k := Job(pid, t.nextjid, state, cmdline)], NextJid(t.nextjid))
  }

  /** deletejob: the slot of pid is cleared and the next job id starts after the largest in use. */
  function Delete(t: Table, pid: int): Table
  {
    var k := SlotOf(t.jobs, pid);
    if pid < 1 || k == |t.jobs| then t
    else
      var rest := t.jobs[k := CLEAR];
      Table(rest, LargestJid(rest) + 1)
  }

  // ----- what the slots hold

  ghost function Pids(jobs: seq<Job>): set<int>
  {
    set i | 0 <= i < |jobs| && jobs[i].pid != 0 :: jobs[i].pid
  }

  /** No process is listed twice. */
  ghost predicate Slots(jobs: seq<Job>)
  {
    && |jobs| == MAXJOBS
    && (forall i :: 0 <= i < |jobs| ==> jobs[i].pid >= 0)
    && (forall i, j :: 0 <= i < j < |jobs| && jobs[i].pid != 0 ==> jobs[i].pid != jobs[j].pid)
  }

  /** Besides, every slot is clear or holds a job with a state. */
  ghost predicate WellFormed(jobs: seq<Job>)
  {
    && Slots(jobs)
    && (forall i :: 0 <= i < |jobs| ==> (jobs[i].pid == 0 ==> jobs[i] == CLEAR))
    && (forall i :: 0 <= i < |jobs| ==> (jobs[i].pid != 0 <==> jobs[i].state != UNDEF))
  }

  lemma PidSlot(jobs: seq<Job>, pid: int)
    requires pid != 0
    ensures pid in Pids(jobs) <==> SlotOf(jobs, pid) < |jobs|
  {
  }

  lemma PidsLast(jobs: seq<Job>)
    requires jobs != [] && jobs[|jobs| - 1].pid != 0
    ensures Pids(jobs) == Pids(jobs[..|jobs| - 1]) + {jobs[|jobs| - 1].pid}
  {
    forall i | 0 <= i < |jobs| && jobs[i].pid != 0
      ensures jobs[i].pid in Pids(jobs[..|jobs| - 1]) + {jobs[|jobs| - 1].pid}
    {
      if i < |jobs| - 1 {
        assert jobs[..|jobs| - 1][i] == jobs[i];
      }
    }
  }

  /** With n slots in use there are n different pids. */
  lemma {:induction false} FullCount(jobs: seq<Job>)
    requires forall i :: 0 <= i < |jobs| ==> jobs[i].pid != 0
    requires forall i, j :: 0 <= i < j < |jobs| ==> jobs[i].pid != jobs[j].pid
    ensures |Pids(jobs)| == |jobs|
  {
    if jobs != [] {
      var n := |jobs| - 1;
      FullCount(jobs[..n]);
      PidsLast(jobs);
      assert jobs[n].pid !in Pids(jobs[..n]);
    }
  }

  /** A slot is free exactly when fewer than MAXJOBS processes have one. */
  lemma FreeSlotExact(jobs: seq<Job>)
    requires Slots(jobs)
    ensures SlotOf(jobs, 0) < |jobs| <==> |Pids(jobs)| < MAXJOBS
  {
    var k := SlotOf(jobs, 0);
    if k == |jobs| {
      FullCount(jobs);
    } else {
      OneFree(jobs, k);
    }
  }

  lemma OneFree(jobs: seq<Job>, k: nat)
    requires Slots(jobs) && k < |jobs| && jobs[k].pid == 0
    ensures |Pids(jobs)| < MAXJOBS
  {
    var others := jobs[..k] + jobs[k + 1..];
    forall i | 0 <= i < |jobs| && jobs[i].pid != 0
      ensures jobs[i].pid in Pids(others)
    {
      assert others[if i < k then i else i - 1] == jobs[i];
    }
    assert Pids(jobs) <= Pids(others);
    CountAtMost(others);
    Included(Pids(jobs), Pids(others));
  }

  lemma Included(a: set<int>, b: set<int>)
    requires a <= b
    ensures |a| <= |b|
  {
    assert b == a + (b - a);
  }

  lemma {:induction false} CountAtMost(jobs: seq<Job>)
    ensures |Pids(jobs)| <= |jobs|
  {
    if jobs != [] {
      var n := |jobs| - 1;
      CountAtMost(jobs[..n]);
      Included(Pids(jobs), Pids(jobs[..n]) + {jobs[n].pid});
    }
  }

  /** A job is added exactly when a slot is free; the others keep theirs. */
  lemma AddPids(t: Table, pid: int, state: JobState, cmdline: string)
    requires Slots(t.jobs) && pid > 0 && pid !in Pids(t.jobs) && state != UNDEF
    ensures Slots(Add(t, pid, state, cmdline).jobs)
    ensures WellFormed(t.jobs) ==> WellFormed(Add(t, pid, state, cmdline).jobs)
    ensures Pids(Add(t, pid, state, cmdline).jobs) ==
            if |Pids(t.jobs)| < MAXJOBS then Pids(t.jobs) + {pid} else Pids(t.jobs)
    ensures |Pids(t.jobs)| < MAXJOBS ==>
      var k := SlotOf(Add(t, pid, state, cmdline).jobs, pid);
      k < MAXJOBS && Add(t, pid, state, cmdline).jobs[k] == Job(pid, t.nextjid, state, cmdline)
  {
    hide Pids;
    FreeSlotExact(t.jobs);
    var k, job := SlotOf(t.jobs, 0), Job(pid, t.nextjid, state, cmdline);
    NotListed(t.jobs, pid);
    if k < |t.jobs| {
      SlotsChange(t.jobs, k, job);
      SlotIs(t.jobs[k := job], pid, k);
      assert 0 !in Pids(t.jobs) by {
        NoZero(t.jobs);
      }
    }
  }

  lemma NoZero(jobs: seq<Job>)
    ensures 0 !in Pids(jobs)
  {
  }

  lemma NotListed(jobs: seq<Job>, pid: int)
    requires pid !in Pids(jobs) && pid != 0
    ensures forall i :: 0 <= i < |jobs| ==> jobs[i].pid != pid
  {
  }

  lemma SlotsChange(jobs: seq<Job>, k: nat, job: Job)
    requires k < |jobs| && forall i :: 0 <= i < |jobs| && i != k && jobs[k].pid != 0 ==> jobs[i].pid != jobs[k].pid
    ensures Pids(jobs[k := job]) == Pids(jobs) - {jobs[k].pid} + (if job.pid == 0 then {} else {job.pid})
  {
    var after := jobs[k := job];
    forall p | p in Pids(jobs) - {jobs[k].pid}
      ensures p in Pids(after)
    {
      var i :| 0 <= i < |jobs| && jobs[i].pid == p;
      assert after[i].pid == p;
    }
    if job.pid != 0 {
      assert after[k].pid == job.pid;
    }
  }

  lemma DeletePids(t: Table, pid: int)
    requires Slots(t.jobs) && pid > 0
    ensures Slots(Delete(t, pid).jobs)
    ensures WellFormed(t.jobs) ==> WellFormed(Delete(t, pid).jobs)
    ensures Pids(Delete(t, pid).jobs) == Pids(t.jobs) - {pid}
  {
    PidSlot(t.jobs, pid);
    hide Pids, SlotOf, LargestJid;
    var k := SlotOf(t.jobs, pid);
    if k < |t.jobs| {
      SlotsChange(t.jobs, k, CLEAR);
    }
  }

  /** The next job id: one more than the last one given out, or 1 after 16 and above; after a deletion
      one more than the largest in use, so that the job entered next has an id that no other job has. */
  lemma NextIds(t: Table, pid: int, state: JobState, cmdline: string)
    ensures var after := Add(t, pid, state, cmdline);
      after.jobs != t.jobs ==> after.nextjid == if t.nextjid < 16 then t.nextjid + 1 else 1
    ensures var after := Delete(t, pid);
      pid > 0 && SlotOf(t.jobs, pid) < |t.jobs| ==>
        && (forall j :: j in after.jobs ==> j.jid < after.nextjid)
        && (after.nextjid == 1 || exists j :: j in after.jobs && j.jid == after.nextjid - 1)
  {
    hide SlotOf;
  }

  /** A deleted pid can be added back, and the slots then hold the same processes. */
  lemma DeleteThenAdd(t: Table, pid: int, state: JobState, cmdline: string)
    requires WellFormed(t.jobs) && pid in Pids(t.jobs) && pid > 0 && state != UNDEF
    ensures Pids(Add(Delete(t, pid), pid, state, cmdline).jobs) == Pids(t.jobs)
  {
    DeletePids(t, pid);
    CountAtMost(t.jobs);
    assert Pids(t.jobs) == Pids(Delete(t, pid).jobs) + {pid};
    AddPids(Delete(t, pid), pid, state, cmdline);
  }

  // ----- the array

  class JobList {
    const jobs: array<Job>
    var nextjid: int

    ghost function View(): Table
      reads this, jobs
    {
      Table(jobs[..], nextjid)
    }

    constructor ()
      ensures jobs.Length == MAXJOBS && fresh(jobs) && nextjid == 1 && WellFormed(jobs[..])
    {
      jobs := new Job[MAXJOBS](_ => CLEAR);
      nextjid := 1;
    }

    method InitJobs()
      requires jobs.Length == MAXJOBS
      modifies jobs
      ensures WellFormed(jobs[..]) && Pids(jobs[..]) == {}
    {
      for i := 0 to MAXJOBS
        invariant forall j :: 0 <= j < i ==> jobs[j] == CLEAR
      {
        jobs[i] := CLEAR;
      }
    }

    method MaxJid() returns (max: int)
      ensures max == LargestJid(jobs[..])
    {
      max := 0;
      for i := 0 to jobs.Length
        invariant max == LargestJid(jobs[..i])
      {
        assert jobs[..i + 1][..i] == jobs[..i];
        if jobs[i].jid > max {
          max := jobs[i].jid;
        }
      }
      assert jobs[..jobs.Length] == jobs[..];
    }

    method AddJob(pid: int, state: JobState, cmdline: string) returns (ok: bool)
      modifies this`nextjid, jobs
      ensures View() == Add(old(View()), pid, state, cmdline)
      ensures ok <==> pid >= 1 && SlotOf(old(jobs[..]), 0) < jobs.Length
      ensures ok ==> nextjid == if old(nextjid) < 16 then old(nextjid) + 1 else 1
    {
      if pid < 1 {
        return false;
      }
      for i := 0 to jobs.Length
        invariant jobs[..] == old(jobs[..]) && nextjid == old(nextjid)
        invariant forall j :: 0 <= j < i ==> jobs[j].pid != 0
      {
        if jobs[i].pid == 0 {
          SlotIs(jobs[..], 0, i);
          jobs[i] := Job(pid, nextjid, state, cmdline);
          nextjid := nextjid + 1;
          if nextjid > MAXJOBS {
            nextjid := 1;
          }
          return true;
        }
      }
      return false;
    }

    method DeleteJob(pid: int) returns (ok: bool)
      modifies this`nextjid, jobs
      ensures View() == Delete(old(View()), pid)
      ensures ok <==> pid >= 1 && SlotOf(old(jobs[..]), pid) < jobs.Length
    {
      if pid < 1 {
        return false;
      }
      for i := 0 to jobs.Length
        invariant jobs[..] == old(jobs[..]) && nextjid == old(nextjid)
        invariant forall j :: 0 <= j < i ==> jobs[j].pid != pid
      {
        if jobs[i].pid == pid {
          SlotIs(jobs[..], pid, i);
          jobs[i] := CLEAR;
          var max := MaxJid();
          nextjid := max + 1;
          return true;
        }
      }
      return false;
    }

    method FgPid() returns (pid: int)
      ensures pid == ForegroundPid(jobs[..])
    {
      for i := 0 to jobs.Length
        invariant forall j :: 0 <= j < i ==> jobs[j].state != FG
      {
        if jobs[i].state == FG {
          return jobs[i].pid;
        }
      }
      return 0;
    }

    /** getjobpid; jobs.Length stands for NULL. */
    method GetJobPid(pid: int) returns (k: nat)
      ensures k == if pid < 1 then jobs.Length else SlotOf(jobs[..], pid)
    {
      if pid < 1 {
        return jobs.Length;
      }
      k := 0;
      while k < jobs.Length && jobs[k].pid != pid
        invariant k <= jobs.Length && forall j :: 0 <= j < k ==> jobs[j].pid != pid
      {
        k := k + 1;
      }
      SlotIs(jobs[..], pid, k);
    }

    /** getjobjid; jobs.Length stands for NULL. */
    method GetJobJid(jid: int) returns (k: nat)
      ensures k == if jid < 1 then jobs.Length else JidSlot(jobs[..], jid)
    {
      if jid < 1 {
        return jobs.Length;
      }
      k := 0;
      while k < jobs.Length && jobs[k].jid != jid
        invariant k <= jobs.Length && forall j :: 0 <= j < k ==> jobs[j].jid != jid
      {
        k := k + 1;
      }
    }
  }

  lemma SlotIs(jobs: seq<Job>, pid: int, k: nat)
    requires k <= |jobs| && (k < |jobs| ==> jobs[k].pid == pid)
    requires forall i :: 0 <= i < k ==> jobs[i].pid != pid
    ensures SlotOf(jobs, pid) == k
  {
  }
}
