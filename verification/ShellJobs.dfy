/** The shell's job control (sp_02_shelllab/tsh.c) as a state machine: steps of the main program,
    of the SIGCHLD handler, and of the kernel, in any order that signal blocking allows. */
module ShellJobs {
  import opened JobTable

  /** What waitpid would say about a child that has not been reaped.  Stopped has not been reported
      yet, StopSeen has. */
  datatype Status = Running | Stopped | StopSeen | Exited | Signaled

  /** Where the main program is; the name says what it does next. */
  datatype Pc =
    | Prompt                                     // read a command
    | Forking(bg: bool)                          // fork, signals blocked
    | Adding(pid: int, bg: bool)                 // addjob, signals blocked
    | Unblocking(pid: int, bg: bool)             // restore the signal mask
    | Waiting(pid: int)                          // waitfg
    | Announcing(pid: int)                       // print_job_info(getjobpid(pid))
    | Found(slot: nat, fg: bool)                 // do_bgfg: pid = curr_job->pid
    | Resuming(slot: nat, pid: int, fg: bool)    // do_bgfg: write the state

  /** crashed: a NULL job was dereferenced. */
  datatype State = State(table: Table, children: map<int, Status>, pc: Pc, handling: bool, crashed: bool)

  datatype Step =
    | Command(bg: bool)
    | Fork(pid: int)
    | Enter(cmdline: string)
    | Unblock
    | Poll
    | Announce
    | Lookup(slot: nat, byJid: bool, fg: bool)
    | ReadPid
    | WriteState
    | Kernel(pid: int, status: Status)
    | HandlerStart
    | Reap(pid: int)
    | HandlerEnd

  const INITIAL := State(Table(seq(MAXJOBS, i => CLEAR), 1), map[], Prompt, false, false)

  /** eval holds SIGCHLD, SIGINT and SIGTSTP blocked from before the fork until after addjob. */
  predicate Blocked(pc: Pc)
  {
    pc.Forking? || pc.Adding? || pc.Unblocking?
  }

  /** waitpid has something to report. */
  predicate Reportable(st: Status)
  {
    st.Stopped? || st.Exited? || st.Signaled?
  }

  /** How a child's status may change by itself: it runs, stops, continues and finally dies. */
  predicate StatusChange(from: Status, to: Status)
  {
    && !from.Exited? && !from.Signaled?
    && to != StopSeen && to != from
  }

  predicate Enabled(s: State, step: Step)
  {
    && !s.crashed
    && match step
       case Command(_) => s.pc.Prompt? && !s.handling
       case Fork(pid) => s.pc.Forking? && !s.handling && pid > 0 && pid !in s.children
       case Enter(_) => s.pc.Adding? && !s.handling
       case Unblock => s.pc.Unblocking? && !s.handling
       case Poll => s.pc.Waiting? && !s.handling
       case Announce => s.pc.Announcing? && !s.handling
       case Lookup(slot, _, _) => s.pc.Prompt? && !s.handling && slot < |s.table.jobs| && s.table.jobs[slot].pid != 0
       case ReadPid => s.pc.Found? && !s.handling && s.pc.slot < |s.table.jobs|
       case WriteState => s.pc.Resuming? && !s.handling && s.pc.slot < |s.table.jobs|
       case Kernel(pid, status) => pid in s.children && StatusChange(s.children[pid], status)
       case HandlerStart => !Blocked(s.pc) && !s.handling
       case Reap(pid) => s.handling && pid in s.children && Reportable(s.children[pid])
       case HandlerEnd => s.handling && forall pid :: pid in s.children ==> !Reportable(s.children[pid])
  }

  function SetState(t: Table, k: nat, state: JobState): Table
    requires k < |t.jobs|
  {
    t.(jobs := t.jobs[k := t.jobs[k].(state := state)])
  }

  /** One round of the handler's loop. */
  function Reaped(s: State, pid: int): State
    requires pid in s.children
  {
    var k := SlotOf(s.table.jobs, pid);
    match s.children[pid]
    case Exited => s.(table := Delete(s.table, pid), children := s.children - {pid})
    case Signaled =>
      s.(table := Delete(s.table, pid), children := s.children - {pid}, crashed := k == |s.table.jobs|)
    case _ =>
      if k == |s.table.jobs| then s.(children := s.children[pid := StopSeen], crashed := true)
      else s.(table := SetState(s.table, k, ST), children := s.children[pid := StopSeen])
  }

  /** A job looked up by its pid keeps that pid; one looked up by job id is asked for it later. */
  function Next(s: State, step: Step): State
    requires Enabled(s, step)
  {
    match step
    case Command(bg) => s.(pc := Forking(bg))
    case Fork(pid) => s.(pc := Adding(pid, s.pc.bg), children := s.children[pid := Running])
    case Enter(cmdline) =>
      s.(table := Add(s.table, s.pc.pid, if s.pc.bg then BG else FG, cmdline), pc := Unblocking(s.pc.pid, s.pc.bg))
    case Unblock => s.(pc := if s.pc.bg then Announcing(s.pc.pid) else Waiting(s.pc.pid))
    case Poll => if ForegroundPid(s.table.jobs) == s.pc.pid then s else s.(pc := Prompt)
    case Announce => s.(pc := Prompt, crashed := SlotOf(s.table.jobs, s.pc.pid) == |s.table.jobs|)
    case Lookup(slot, byJid, fg) =>
      s.(pc := if byJid then Found(slot, fg) else Resuming(slot, s.table.jobs[slot].pid, fg))
    case ReadPid => s.(pc := Resuming(s.pc.slot, s.table.jobs[s.pc.slot].pid, s.pc.fg))
    case WriteState =>
      s.(table := SetState(s.table, s.pc.slot, if s.pc.fg then FG else BG),
         pc := if s.pc.fg then Waiting(s.pc.pid) else Prompt)
    case Kernel(pid, status) => s.(children := s.children[pid := status])
    case HandlerStart => s.(handling := true)
    case Reap(pid) => Reaped(s, pid)
    case HandlerEnd => s.(handling := false)
  }

  // ----- jobs and children

  /** The child that was forked but not yet entered. */
  function Unlisted(pc: Pc): set<int>
  {
    if pc.Adding? then {pc.pid} else {}
  }

  /** The list holds the unreaped children, once each, apart from the one about to be entered. */
  ghost predicate Listed(s: State)
  {
    && Slots(s.table.jobs)
    && Pids(s.table.jobs) == s.children.Keys - Unlisted(s.pc)
    && (s.pc.Adding? ==> s.pc.pid in s.children)
    && (forall p :: p in s.children ==> p > 0)
    && (s.handling ==> !Blocked(s.pc))
  }

  /** There is room for a job that is entered. */
  predicate Roomy(s: State, step: Step)
  {
    Enabled(s, step) && (step.Enter? ==> |s.children| <= MAXJOBS)
  }

  lemma MinusOne(s: set<int>, x: int)
    requires x in s
    ensures |s - {x}| == |s| - 1
  {
    assert s == s - {x} + {x};
  }

  lemma EnterListed(s: State, cmdline: string)
    requires Listed(s) && Enabled(s, Enter(cmdline))
    ensures Listed(Next(s, Enter(cmdline))) <==> |s.children| <= MAXJOBS
  {
    hide Pids, Slots;
    var pid, st := s.pc.pid, if s.pc.bg then BG else FG;
    MinusOne(s.children.Keys, pid);
    AddPids(s.table, pid, st, cmdline);
    assert Pids(s.table.jobs) + {pid} == s.children.Keys;
  }

  lemma SetStateSlots(t: Table, k: nat, st: JobState)
    requires Slots(t.jobs) && k < |t.jobs|
    ensures Slots(SetState(t, k, st).jobs) && Pids(SetState(t, k, st).jobs) == Pids(t.jobs)
  {
    var after := SetState(t, k, st).jobs;
    assert forall i :: 0 <= i < |after| ==> after[i].pid == t.jobs[i].pid;
  }

  lemma ReapFinds(s: State, pid: int)
    requires Listed(s) && Enabled(s, Reap(pid))
    ensures pid > 0 && SlotOf(s.table.jobs, pid) < |s.table.jobs|
  {
    PidSlot(s.table.jobs, pid);
  }

  lemma ReapListed(s: State, pid: int)
    requires Listed(s) && Enabled(s, Reap(pid))
    ensures Listed(Next(s, Reap(pid))) && !Next(s, Reap(pid)).crashed
  {
    ReapFinds(s, pid);
    hide Pids, Slots, SlotOf, Delete;
    if s.children[pid].Stopped? {
      SetStateSlots(s.table, SlotOf(s.table.jobs, pid), ST);
      assert s.children[pid := StopSeen].Keys == s.children.Keys;
    } else {
      DeletePids(s.table, pid);
      assert (s.children - {pid}).Keys == s.children.Keys - {pid};
    }
  }

  lemma ForkListed(s: State, pid: int)
    requires Listed(s) && Enabled(s, Fork(pid))
    ensures Listed(Next(s, Fork(pid)))
  {
    hide Pids, Slots;
    assert s.children[pid := Running].Keys - {pid} == s.children.Keys;
  }

  /** Steps that change neither the list nor which children there are. */
  lemma QuietListed(s: State, step: Step)
    requires Listed(s) && Enabled(s, step)
    requires !step.Enter? && !step.Reap? && !step.WriteState? && !step.Fork?
    ensures Listed(Next(s, step))
  {
    hide Pids, Slots, SlotOf, ForegroundPid;
    if step.Kernel? {
      assert s.children[step.pid := step.status].Keys == s.children.Keys;
    }
  }

  lemma WriteListed(s: State)
    requires Listed(s) && Enabled(s, WriteState)
    ensures Listed(Next(s, WriteState))
  {
    hide Pids, Slots, SetState;
    SetStateSlots(s.table, s.pc.slot, if s.pc.fg then FG else BG);
  }

  /** Whatever the handler deletes and however late the main program is, a step keeps list and
      children in step if and only if it does not enter a job for which there is no room. */
  lemma ListedExact(s: State, step: Step)
    requires Listed(s) && Enabled(s, step)
    ensures Listed(Next(s, step)) <==> Roomy(s, step)
  {
    hide Listed, Next;
    match step {
      case Enter(cmdline) => EnterListed(s, cmdline);
      case Reap(pid) => ReapListed(s, pid);
      case WriteState => WriteListed(s);
      case Fork(pid) => ForkListed(s, pid);
      case _ => QuietListed(s, step);
    }
  }

  // ----- foreground and slots

  /** The only process that may be the foreground job. */
  predicate MayBeForeground(pc: Pc, pid: int)
  {
    (pc.Waiting? && pid == pc.pid) || (pc.Unblocking? && !pc.bg && pid == pc.pid)
  }

  ghost predicate Foregrounds(s: State)
  {
    forall i :: 0 <= i < |s.table.jobs| && s.table.jobs[i].state == FG ==> MayBeForeground(s.pc, s.table.jobs[i].pid)
  }

  /** At most one job is in the foreground, and only the one waitfg is called for. */
  ghost predicate Orderly(s: State)
  {
    && Foregrounds(s)
    && (forall i, j :: 0 <= i < j < |s.table.jobs| ==> !(s.table.jobs[i].state == s.table.jobs[j].state == FG))
  }

  /** fg writes the state of the job it will wait for. */
  predicate Aimed(s: State, step: Step)
  {
    Enabled(s, step) && (step.WriteState? && s.pc.fg ==> s.table.jobs[s.pc.slot].pid == s.pc.pid)
  }

  /** addjob changes at most the first free slot. */
  lemma AddChanges(t: Table, pid: int, st: JobState, cmdline: string)
    ensures var jobs := Add(t, pid, st, cmdline).jobs;
      && |jobs| == |t.jobs|
      && (forall i :: 0 <= i < |jobs| && i != SlotOf(t.jobs, 0) ==> jobs[i] == t.jobs[i])
      && (forall i :: 0 <= i < |jobs| && jobs[i] != t.jobs[i] ==> jobs[i].pid == pid && jobs[i].state == st)
  {
  }

  /** deletejob clears at most one slot. */
  lemma DeleteClears(t: Table, pid: int)
    ensures |Delete(t, pid).jobs| == |t.jobs|
    ensures forall i :: 0 <= i < |t.jobs| ==> Delete(t, pid).jobs[i] == t.jobs[i] || Delete(t, pid).jobs[i] == CLEAR
  {
  }

  lemma EnterOrderly(s: State, cmdline: string)
    requires Orderly(s) && Enabled(s, Enter(cmdline))
    ensures Orderly(Next(s, Enter(cmdline)))
  {
    hide Add, SlotOf;
    AddChanges(s.table, s.pc.pid, if s.pc.bg then BG else FG, cmdline);
  }

  lemma ReapOrderly(s: State, pid: int)
    requires Orderly(s) && Enabled(s, Reap(pid))
    ensures Orderly(Next(s, Reap(pid)))
  {
    hide Delete;
    DeleteClears(s.table, pid);
  }

  lemma PollOrderly(s: State)
    requires Orderly(s) && Enabled(s, Poll)
    ensures Orderly(Next(s, Poll))
  {
  }

  lemma WriteOrderly(s: State)
    requires Orderly(s) && Enabled(s, WriteState)
    ensures Orderly(Next(s, WriteState)) <==> (s.pc.fg ==> s.table.jobs[s.pc.slot].pid == s.pc.pid)
  {
    var k, after := s.pc.slot, Next(s, WriteState);
    assert after.table.jobs[k].state == if s.pc.fg then FG else BG;
    assert after.table.jobs[k].pid == s.table.jobs[k].pid;
  }

  /** Whatever else comes late, and however full the list is: a step keeps the foreground in order if
      and only if it is not an fg that writes the state of a slot which is no longer its job's. */
  lemma OrderlyExact(s: State, step: Step)
    requires Orderly(s) && Enabled(s, step)
    ensures Orderly(Next(s, step)) <==> Aimed(s, step)
  {
    match step {
      case Enter(cmdline) => EnterOrderly(s, cmdline);
      case Reap(pid) => ReapOrderly(s, pid);
      case WriteState => WriteOrderly(s);
      case Poll => PollOrderly(s);
      case _ =>
    }
  }

  /** After an fg that is not aimed the next poll leads to a prompt with a job in the foreground. */
  lemma UnaimedBreaks(s: State)
    requires Orderly(s) && Enabled(s, WriteState) && !Aimed(s, WriteState)
    ensures var s1 := Next(s, WriteState);
      && Enabled(s1, Poll) && Next(s1, Poll).pc == Prompt
      && exists i :: 0 <= i < |s1.table.jobs| && Next(s1, Poll).table.jobs[i].state == FG
  {
    var k, jobs := s.pc.slot, SetState(s.table, s.pc.slot, FG).jobs;
    assert jobs[k].state == FG && forall i :: 0 <= i < |jobs| && i != k ==> jobs[i].state != FG;
    OnlyForeground(jobs, k);
  }

  lemma OnlyForeground(jobs: seq<Job>, k: nat)
    requires k < |jobs| && forall i :: 0 <= i < |jobs| && i != k ==> jobs[i].state != FG
    requires jobs[k].state == FG
    ensures ForegroundPid(jobs) == jobs[k].pid
  {
  }

  /** waitfg ends exactly when the job it waits for is not in the foreground any more, because the
      handler has deleted it or has seen it stop; a wait for pid 0 does not end. */
  lemma WaitEnds(s: State)
    requires Orderly(s) && Enabled(s, Poll)
    ensures Next(s, Poll).pc == Prompt <==>
            s.pc.pid != 0 && forall i :: 0 <= i < |s.table.jobs| && s.table.jobs[i].pid == s.pc.pid ==> s.table.jobs[i].state != FG
  {
    var k := FgSlot(s.table.jobs);
    if k < |s.table.jobs| {
      assert MayBeForeground(s.pc, s.table.jobs[k].pid);
    }
  }

  // ----- job states

  /** What a step does to the state of a job: addjob enters it in the foreground or background as the
      command asked, a report that it stopped makes it ST, an fg or bg that is aimed makes it FG or BG,
      and in each case no other slot changes. */
  lemma StatesWritten(s: State, step: Step)
    requires Listed(s) && Enabled(s, step) && Roomy(s, step) && Aimed(s, step)
    requires step.Enter? || step.WriteState? || (step.Reap? && s.children[step.pid].Stopped?)
    ensures var jobs, after := s.table.jobs, Next(s, step).table.jobs;
      exists k :: 0 <= k < |jobs| && |after| == |jobs| && (forall i :: 0 <= i < |jobs| && i != k ==> after[i] == jobs[i]) &&
        match step
        case Enter(cmdline) => jobs[k].pid == 0 && after[k] == Job(s.pc.pid, s.table.nextjid, if s.pc.bg then BG else FG, cmdline)
        case WriteState =>
          k == s.pc.slot && (s.pc.fg ==> jobs[k].pid == s.pc.pid) && after[k] == jobs[k].(state := if s.pc.fg then FG else BG)
        case Reap(pid) => jobs[k].pid == pid && after[k] == jobs[k].(state := ST)
        case _ => false
  {
    hide Pids, Slots;
    var jobs, after := s.table.jobs, Next(s, step).table.jobs;
    match step {
      case Enter(cmdline) =>
        EnterListed(s, cmdline);
        MinusOne(s.children.Keys, s.pc.pid);
        FreeSlotExact(jobs);
        var k := SlotOf(jobs, 0);
        assert after[k] == Job(s.pc.pid, s.table.nextjid, if s.pc.bg then BG else FG, cmdline);
      case WriteState =>
        assert after[s.pc.slot] == jobs[s.pc.slot].(state := if s.pc.fg then FG else BG);
      case Reap(pid) =>
        ReapFinds(s, pid);
        var k := SlotOf(jobs, pid);
        assert after[k] == jobs[k].(state := ST);
      case _ =>
    }
  }

  /** What the command being carried out asked for. */
  datatype Intent = Start(bg: bool) | Resume(slot: nat, fg: bool) | NoIntent

  function IntentOf(pc: Pc): Intent
  {
    match pc
    case Forking(bg) => Start(bg)
    case Adding(_, bg) => Start(bg)
    case Unblocking(_, bg) => Start(bg)
    case Found(slot, fg) => Resume(slot, fg)
    case Resuming(slot, _, fg) => Resume(slot, fg)
    case _ => NoIntent
  }

  lemma IntentNext(s: State, step: Step)
    requires Enabled(s, step)
    ensures step.Command? ==> IntentOf(Next(s, step).pc) == Start(step.bg)
    ensures step.Lookup? ==> IntentOf(Next(s, step).pc) == Resume(step.slot, step.fg)
    ensures IntentOf(s.pc) != NoIntent && !step.Unblock? && !step.WriteState? ==> IntentOf(Next(s, step).pc) == IntentOf(s.pc)
    ensures step.Unblock? ==> Next(s, step).pc == if s.pc.bg then Announcing(s.pc.pid) else Waiting(s.pc.pid)
  {
    hide SlotOf, Add, Delete, ForegroundPid;
  }

  lemma {:induction false} IntentStays(s: State, steps: seq<Step>)
    requires Possible(s, steps) && IntentOf(s.pc) != NoIntent && Unblock !in steps && WriteState !in steps
    ensures IntentOf(After(s, steps).pc) == IntentOf(s.pc)
    decreases |steps|
  {
    hide Next, Enabled;
    if steps != [] {
      assert steps[0] in steps;
      IntentNext(s, steps[0]);
      IntentStays(Next(s, steps[0]), steps[1..]);
    }
  }

  /** A command is carried out as it was typed, whatever the handler and the children do meanwhile: the
      job is entered, announced or waited for as bg said, and the slot and the state written by fg or bg
      are those asked for. */
  lemma IntentKept(s: State, step: Step, steps: seq<Step>)
    requires Enabled(s, step) && (step.Command? || step.Lookup?)
    requires Possible(Next(s, step), steps) && Unblock !in steps && WriteState !in steps
    ensures IntentOf(After(Next(s, step), steps).pc) == if step.Command? then Start(step.bg) else Resume(step.slot, step.fg)
  {
    hide Next, Enabled, After, Possible;
    IntentNext(s, step);
    IntentStays(Next(s, step), steps);
  }

  // ----- the shell waits for its foreground job

  /** Process pid has the only slot in the foreground, and the shell is about to wait for it or does. */
  ghost predicate HeldBy(s: State, pid: int)
  {
    && pid > 0 && (s.pc == Unblocking(pid, false) || s.pc == Waiting(pid))
    && exists k :: 0 <= k < |s.table.jobs| && OnlyFgSlot(s.table.jobs, k) && s.table.jobs[k].pid == pid
  }

  ghost predicate OnlyFgSlot(jobs: seq<Job>, k: int)
    requires 0 <= k < |jobs|
  {
    jobs[k].state == FG && forall i :: 0 <= i < |jobs| && i != k ==> jobs[i].state != FG
  }

  lemma HeldPoll(s: State, pid: int)
    requires HeldBy(s, pid)
    ensures ForegroundPid(s.table.jobs) == pid
  {
    var k :| 0 <= k < |s.table.jobs| && OnlyFgSlot(s.table.jobs, k) && s.table.jobs[k].pid == pid;
    OnlyForeground(s.table.jobs, k);
  }

  lemma HeldReap(s: State, pid: int, other: int)
    requires HeldBy(s, pid) && Enabled(s, Reap(other)) && other != pid
    ensures HeldBy(Next(s, Reap(other)), pid)
  {
    var k :| 0 <= k < |s.table.jobs| && OnlyFgSlot(s.table.jobs, k) && s.table.jobs[k].pid == pid;
    hide LargestJid;
    var after := Next(s, Reap(other)).table.jobs;
    assert |after| == |s.table.jobs| && after[k] == s.table.jobs[k];
    assert forall i :: 0 <= i < |after| && after[i] != s.table.jobs[i] ==> after[i].state != FG;
    assert OnlyFgSlot(after, k);
  }

  lemma HeldNext(s: State, step: Step, pid: int)
    requires HeldBy(s, pid) && Enabled(s, step) && step != Reap(pid)
    ensures HeldBy(Next(s, step), pid)
  {
    HeldPoll(s, pid);
    hide OnlyFgSlot, Add, Delete, ForegroundPid;
    if step.Reap? {
      HeldReap(s, pid, step.pid);
    }
  }

  /** As long as the handler is not told about pid, the shell stays where it is, however long the run. */
  lemma {:induction false} HeldRun(s: State, steps: seq<Step>, pid: int)
    requires HeldBy(s, pid) && Possible(s, steps) && Reap(pid) !in steps
    ensures HeldBy(After(s, steps), pid)
    decreases |steps|
  {
    hide HeldBy, Next, Enabled;
    if steps != [] {
      assert steps[0] in steps;
      HeldNext(s, steps[0], pid);
      HeldRun(Next(s, steps[0]), steps[1..], pid);
    }
  }

  /** The two ways in: a foreground command entered with room in the list, and an fg that is aimed. */
  lemma ForegroundTaken(s: State, step: Step)
    requires Listed(s) && Orderly(s) && Enabled(s, step) && Roomy(s, step) && Aimed(s, step)
    requires ((step.Enter? && !s.pc.bg) || (step.WriteState? && s.pc.fg)) && s.pc.pid > 0
    ensures HeldBy(Next(s, step), s.pc.pid)
  {
    StatesWritten(s, step);
    hide Add, SetState, Listed;
    var jobs, after := s.table.jobs, Next(s, step).table.jobs;
    var k :| 0 <= k < |jobs| && |after| == |jobs| && (forall i :: 0 <= i < |jobs| && i != k ==> after[i] == jobs[i])
             && after[k].state == FG && after[k].pid == s.pc.pid;
    assert OnlyFgSlot(after, k);
  }

  /** A foreground job holds the shell: after it is entered, or brought to the foreground by an fg that
      is aimed, every possible run in which the handler is not told about it, whatever else happens and
      however often waitfg looks, ends with the shell still waiting and the job in the foreground; so
      the next prompt comes only after the handler reaped it or saw it stop. */
  lemma ForegroundHolds(s: State, step: Step, steps: seq<Step>)
    requires Listed(s) && Orderly(s) && Enabled(s, step) && Roomy(s, step) && Aimed(s, step)
    requires ((step.Enter? && !s.pc.bg) || (step.WriteState? && s.pc.fg)) && s.pc.pid > 0
    requires Possible(Next(s, step), steps)
    ensures var pid, end := s.pc.pid, After(Next(s, step), steps);
      Reap(pid) !in steps ==>
        && (end.pc == Unblocking(pid, false) || end.pc == Waiting(pid)) && ForegroundPid(end.table.jobs) == pid
  {
    hide HeldBy, Next, Listed, Orderly, After, Possible;
    ForegroundTaken(s, step);
    if Reap(s.pc.pid) !in steps {
      HeldRun(Next(s, step), steps, s.pc.pid);
      HeldPoll(After(Next(s, step), steps), s.pc.pid);
      HeldWhere(After(Next(s, step), steps), s.pc.pid);
    }
  }

  lemma HeldWhere(s: State, pid: int)
    requires HeldBy(s, pid)
    ensures s.pc == Unblocking(pid, false) || s.pc == Waiting(pid)
  {
  }

  /** Once the handler was told, whether the job died or stopped, the next look lets the shell go. */
  lemma ReapReleases(s: State)
    requires Listed(s) && Orderly(s) && s.pc.Waiting? && Enabled(s, Reap(s.pc.pid))
    ensures var s1 := Next(s, Reap(s.pc.pid)); Orderly(s1) && ForegroundPid(s1.table.jobs) == 0
  {
    var pid := s.pc.pid;
    ReapFinds(s, pid);
    ReapListed(s, pid);
    ReapOrderly(s, pid);
    hide LargestJid, Pids;
    var k, after := SlotOf(s.table.jobs, pid), Next(s, Reap(pid)).table.jobs;
    assert after[k].state != FG && forall i :: 0 <= i < |after| && i != k ==> after[i] == s.table.jobs[i];
    assert forall i :: 0 <= i < |after| ==> after[i].state != FG;
  }

  // ----- NULL jobs

  /** The main program's own child has a pid. */
  predicate Named(s: State)
  {
    s.pc.Adding? || s.pc.Unblocking? || s.pc.Announcing? ==> s.pc.pid > 0
  }

  lemma NamedNext(s: State, step: Step)
    requires Named(s) && Enabled(s, step)
    ensures Named(Next(s, step))
  {
    hide SlotOf, Add, Delete, ForegroundPid;
  }

  /** With room for the jobs entered, the only step that uses a NULL job is an announcement that comes
      after the child was reaped. */
  lemma CrashExact(s: State, step: Step)
    requires Listed(s) && Named(s) && Enabled(s, step)
    ensures Next(s, step).crashed <==> step.Announce? && s.pc.pid !in s.children
  {
    hide Add, Delete, SlotOf, ForegroundPid;
    if step.Reap? {
      ReapListed(s, step.pid);
    }
    if step.Announce? {
      hide Slots;
      PidSlot(s.table.jobs, s.pc.pid);
    }
  }

  // ----- all of it together

  /** The job do_bgfg looked up keeps its slot, or was deleted from it. */
  predicate SlotRule(s: State)
  {
    && (s.pc.Found? ==> s.pc.slot < |s.table.jobs|)
    && (s.pc.Resuming? ==>
          && s.pc.slot < |s.table.jobs| && s.pc.pid > 0
          && (s.table.jobs[s.pc.slot].pid == s.pc.pid || s.table.jobs[s.pc.slot].pid == 0))
  }

  ghost predicate Inv(s: State)
  {
    && Listed(s)
    && WellFormed(s.table.jobs)
    && (s.pc.Waiting? || s.pc.Announcing? || s.pc.Unblocking? ==> s.pc.pid > 0)
    && !s.crashed
    && Foregrounds(s)
    && SlotRule(s)
  }

  /** The steps that go wrong when they come too late or too often: a job is entered while more than
      MAXJOBS children are outstanding; a job is announced, asked for its pid, or its state written,
      after the handler has deleted it. */
  predicate Timely(s: State, step: Step)
  {
    Enabled(s, step) &&
    match step
    case Enter(_) => |s.children| <= MAXJOBS
    case Announce => s.pc.pid in s.children
    case ReadPid => s.table.jobs[s.pc.slot].pid != 0
    case WriteState => s.table.jobs[s.pc.slot].pid == s.pc.pid
    case _ => true
  }

  lemma InitialInv()
    ensures Inv(INITIAL)
  {
  }

  lemma EnterExact(s: State, cmdline: string)
    requires Inv(s) && Enabled(s, Enter(cmdline))
    ensures Inv(Next(s, Enter(cmdline))) <==> |s.children| <= MAXJOBS
  {
    hide Pids, Slots, WellFormed, Add;
    var pid, st := s.pc.pid, if s.pc.bg then BG else FG;
    EnterListed(s, cmdline);
    AddPids(s.table, pid, st, cmdline);
    AddChanges(s.table, pid, st, cmdline);
  }

  lemma AnnounceExact(s: State)
    requires Inv(s) && Enabled(s, Announce)
    ensures Inv(Next(s, Announce)) <==> s.pc.pid in s.children
  {
    hide WellFormed;
    PidSlot(s.table.jobs, s.pc.pid);
  }

  lemma ReadPidExact(s: State)
    requires Inv(s) && Enabled(s, ReadPid)
    ensures Inv(Next(s, ReadPid)) <==> s.table.jobs[s.pc.slot].pid != 0
  {
    hide Pids;
  }

  lemma SetStateWellFormed(t: Table, k: nat, st: JobState)
    requires WellFormed(t.jobs) && k < |t.jobs| && st != UNDEF
    ensures WellFormed(SetState(t, k, st).jobs) <==> t.jobs[k].pid != 0
  {
    var after := SetState(t, k, st).jobs;
    assert forall i :: 0 <= i < |after| ==> after[i].pid == t.jobs[i].pid;
    assert after[k].state == st;
  }

  lemma WriteExact(s: State)
    requires Inv(s) && Enabled(s, WriteState)
    ensures Inv(Next(s, WriteState)) <==> s.table.jobs[s.pc.slot].pid == s.pc.pid
  {
    hide Pids, Slots, WellFormed;
    var st := if s.pc.fg then FG else BG;
    SetStateSlots(s.table, s.pc.slot, st);
    SetStateWellFormed(s.table, s.pc.slot, st);
  }

  lemma ReapInv(s: State, pid: int)
    requires Inv(s) && Enabled(s, Reap(pid))
    ensures Inv(Next(s, Reap(pid)))
  {
    hide Listed;
    ReapFinds(s, pid);
    ReapListed(s, pid);
    DeletePids(s.table, pid);
    DeleteClears(s.table, pid);
    SetStateWellFormed(s.table, SlotOf(s.table.jobs, pid), ST);
    hide Pids, Slots, SlotOf, WellFormed, Delete;
  }

  lemma PollInv(s: State)
    requires Inv(s) && Enabled(s, Poll)
    ensures Inv(Next(s, Poll))
  {
  }

  lemma LookupInv(s: State, slot: nat, byJid: bool, fg: bool)
    requires Inv(s) && Enabled(s, Lookup(slot, byJid, fg))
    ensures Inv(Next(s, Lookup(slot, byJid, fg)))
  {
  }

  /** A step from a good state leads to a good state exactly when it is timely. */
  lemma StepExact(s: State, step: Step)
    requires Inv(s) && Enabled(s, step)
    ensures Inv(Next(s, step)) <==> Timely(s, step)
  {
    hide Listed, WellFormed;
    ListedExact(s, step);
    match step {
      case Enter(cmdline) => EnterExact(s, cmdline);
      case Announce => AnnounceExact(s);
      case ReadPid => ReadPidExact(s);
      case WriteState => WriteExact(s);
      case Reap(pid) => ReapInv(s, pid);
      case Poll => PollInv(s);
      case Lookup(slot, byJid, fg) => LookupInv(s, slot, byJid, fg);
      case _ =>
    }
  }

  // ----- whole runs

  /** The steps can be taken one after the other from s, in any order that blocking allows. */
  ghost predicate Possible(s: State, steps: seq<Step>)
    decreases |steps|
  {
    steps == [] || (Enabled(s, steps[0]) && Possible(Next(s, steps[0]), steps[1..]))
  }

  /** So they can, and every one of them is as ok asks. */
  ghost predicate RunWith(s: State, steps: seq<Step>, ok: (State, Step) -> bool)
    decreases |steps|
  {
    steps == [] || (Enabled(s, steps[0]) && ok(s, steps[0]) && RunWith(Next(s, steps[0]), steps[1..], ok))
  }

  function After(s: State, steps: seq<Step>): State
    decreases |steps|
  {
    if steps == [] || !Enabled(s, steps[0]) then s else After(Next(s, steps[0]), steps[1..])
  }

  /** good holds in every state the steps lead through. */
  ghost predicate Throughout(s: State, steps: seq<Step>, good: State -> bool)
    requires Possible(s, steps)
    decreases |steps|
  {
    good(s) && (steps != [] ==> Throughout(Next(s, steps[0]), steps[1..], good))
  }

  /** What steps keep, runs keep. */
  lemma {:induction false} RunKeeps(s: State, steps: seq<Step>, good: State -> bool, ok: (State, Step) -> bool)
    requires good(s) && RunWith(s, steps, ok)
    requires forall t, step {:trigger Next(t, step)} :: good(t) && Enabled(t, step) && ok(t, step) ==> good(Next(t, step))
    ensures good(After(s, steps))
    decreases |steps|
  {
    hide Next, Enabled;
    if steps != [] {
      RunKeeps(Next(s, steps[0]), steps[1..], good, ok);
    }
  }

  /** What single steps keep exactly under a condition, runs keep throughout exactly under it. */
  lemma {:induction false} ThroughoutExact(s: State, steps: seq<Step>, good: State -> bool, ok: (State, Step) -> bool)
    requires good(s) && Possible(s, steps)
    requires forall t, step {:trigger Next(t, step)} :: good(t) && Enabled(t, step) ==> (good(Next(t, step)) <==> ok(t, step))
    ensures Throughout(s, steps, good) <==> RunWith(s, steps, ok)
    decreases |steps|
  {
    hide Next, Enabled;
    if steps != [] && ok(s, steps[0]) {
      ThroughoutExact(Next(s, steps[0]), steps[1..], good, ok);
    }
  }

  /** Every step is timely. */
  ghost predicate Run(s: State, steps: seq<Step>)
  {
    RunWith(s, steps, Timely)
  }

  /** A job is entered only while at most MAXJOBS children are outstanding. */
  ghost predicate RoomyRun(s: State, steps: seq<Step>)
  {
    RunWith(s, steps, Roomy)
  }

  /** fg writes the state only of the job it will wait for. */
  ghost predicate AimedRun(s: State, steps: seq<Step>)
  {
    RunWith(s, steps, Aimed)
  }

  lemma RunInv(s: State, steps: seq<Step>)
    requires Inv(s) && Run(s, steps)
    ensures Inv(After(s, steps))
  {
    hide Inv, Next, Enabled, Timely;
    forall t, step | Inv(t) && Enabled(t, step) && Timely(t, step)
      ensures Inv(Next(t, step))
    {
      StepExact(t, step);
    }
    RunKeeps(s, steps, Inv, Timely);
  }

  lemma RunListed(s: State, steps: seq<Step>)
    requires Listed(s) && RoomyRun(s, steps)
    ensures Listed(After(s, steps))
  {
    hide Listed, Next, Enabled, Roomy;
    forall t, step | Listed(t) && Enabled(t, step) && Roomy(t, step)
      ensures Listed(Next(t, step))
    {
      ListedExact(t, step);
    }
    RunKeeps(s, steps, Listed, Roomy);
  }

  lemma RunOrderly(s: State, steps: seq<Step>)
    requires Orderly(s) && AimedRun(s, steps)
    ensures Orderly(After(s, steps))
  {
    hide Orderly, Next, Enabled, Aimed;
    forall t, step | Orderly(t) && Enabled(t, step) && Aimed(t, step)
      ensures Orderly(Next(t, step))
    {
      OrderlyExact(t, step);
    }
    RunKeeps(s, steps, Orderly, Aimed);
  }

  /** A run keeps list and children in step throughout if and only if it only enters jobs there is
      room for. */
  lemma AlwaysListedExact(s: State, steps: seq<Step>)
    requires Listed(s) && Possible(s, steps)
    ensures Throughout(s, steps, Listed) <==> RoomyRun(s, steps)
  {
    hide Listed, Next, Enabled, Roomy;
    forall t, step | Listed(t) && Enabled(t, step)
      ensures Listed(Next(t, step)) <==> Roomy(t, step)
    {
      ListedExact(t, step);
    }
    ThroughoutExact(s, steps, Listed, Roomy);
  }

  /** A run keeps the foreground in order throughout if and only if every fg in it is aimed. */
  lemma AlwaysOrderlyExact(s: State, steps: seq<Step>)
    requires Orderly(s) && Possible(s, steps)
    ensures Throughout(s, steps, Orderly) <==> AimedRun(s, steps)
  {
    hide Orderly, Next, Enabled, Aimed;
    forall t, step | Orderly(t) && Enabled(t, step)
      ensures Orderly(Next(t, step)) <==> Aimed(t, step)
    {
      OrderlyExact(t, step);
    }
    ThroughoutExact(s, steps, Orderly, Aimed);
  }

  /** Whenever SIGCHLD is unblocked the jobs are exactly the unreaped children, once each, in every
      run with room for the jobs entered, late announcements and state writes included. */
  lemma JobsAreChildren(steps: seq<Step>)
    requires RoomyRun(INITIAL, steps)
    ensures var s := After(INITIAL, steps);
      && Slots(s.table.jobs)
      && (!Blocked(s.pc) ==> Pids(s.table.jobs) == s.children.Keys)
  {
    InitialInv();
    RunListed(INITIAL, steps);
  }

  /** So every child the handler is told about has a job entry. */
  lemma HandlerFindsJob(steps: seq<Step>, pid: int)
    requires RoomyRun(INITIAL, steps) && Enabled(After(INITIAL, steps), Reap(pid))
    ensures SlotOf(After(INITIAL, steps).table.jobs, pid) < MAXJOBS
    ensures !Next(After(INITIAL, steps), Reap(pid)).crashed
  {
    InitialInv();
    RunListed(INITIAL, steps);
    ReapFinds(After(INITIAL, steps), pid);
    ReapListed(After(INITIAL, steps), pid);
  }

  /** In every run whose fg writes are aimed, whatever else comes late: at most one job is in the
      foreground, and none when a command is read. */
  lemma OneForeground(steps: seq<Step>)
    requires AimedRun(INITIAL, steps)
    ensures var s := After(INITIAL, steps); var jobs := s.table.jobs;
      && (forall i, j :: 0 <= i < |jobs| && 0 <= j < |jobs| && jobs[i].state == jobs[j].state == FG ==> i == j)
      && (s.pc.Prompt? ==> forall i :: 0 <= i < |jobs| ==> jobs[i].state != FG)
  {
    RunOrderly(INITIAL, steps);
  }

  /** If there is also room for the jobs entered, ctrl-c and ctrl-z go to an unreaped child in the
      foreground that the shell is waiting for, or to nobody. */
  lemma SignalTarget(steps: seq<Step>)
    requires AimedRun(INITIAL, steps) && RoomyRun(INITIAL, steps) && !Blocked(After(INITIAL, steps).pc)
    ensures var s := After(INITIAL, steps);
      ForegroundPid(s.table.jobs) != 0 ==> ForegroundPid(s.table.jobs) in s.children && s.pc == Waiting(ForegroundPid(s.table.jobs))
  {
    JobsAreChildren(steps);
    RunOrderly(INITIAL, steps);
    var s := After(INITIAL, steps);
    var k := FgSlot(s.table.jobs);
    if k < |s.table.jobs| && s.table.jobs[k].pid != 0 {
      assert s.table.jobs[k].pid in Pids(s.table.jobs);
    }
  }

  /** In every run with room for the jobs entered, a NULL job is used exactly by an announcement that
      comes after its child was reaped. */
  lemma CrashOnlyLate(steps: seq<Step>, step: Step)
    requires RoomyRun(INITIAL, steps) && Enabled(After(INITIAL, steps), step)
    ensures var s := After(INITIAL, steps);
      Next(s, step).crashed <==> step.Announce? && s.pc.pid !in s.children
  {
    InitialInv();
    RunListed(INITIAL, steps);
    hide Listed, Next, Enabled, Roomy, Named;
    forall t, other | Named(t) && Enabled(t, other) && Roomy(t, other)
      ensures Named(Next(t, other))
    {
      NamedNext(t, other);
    }
    InitialNamed();
    RunKeeps(INITIAL, steps, Named, Roomy);
    CrashExact(After(INITIAL, steps), step);
  }

  lemma InitialNamed()
    ensures Named(INITIAL)
  {
  }

  lemma {:induction false} RunSnoc(s: State, steps: seq<Step>, step: Step)
    requires Run(s, steps) && Enabled(After(s, steps), step) && Timely(After(s, steps), step)
    ensures Run(s, steps + [step]) && After(s, steps + [step]) == Next(After(s, steps), step)
    decreases |steps|
  {
    hide Next, Enabled, Timely;
    if steps == [] {
      var n := Next(s, step);
      assert Run(n, []) && After(n, []) == n && ([step])[1..] == [];
    } else {
      RunSnoc(Next(s, steps[0]), steps[1..], step);
      assert (steps + [step])[1..] == steps[1..] + [step];
    }
  }

  // ----- runs that are not timely

  /** What is left when a child has exited and the handler has reaped it. */
  function Died(s: State, pid: int): State
  {
    s.(table := Delete(s.table, pid), children := s.children - {pid})
  }

  /** A running child can exit and be reaped between any two steps of the main program that do not
      run with signals blocked. */
  ghost predicate CanDie(s: State, pid: int)
  {
    && Enabled(s, Kernel(pid, Exited))
    && var s1 := Next(s, Kernel(pid, Exited));
    && Enabled(s1, HandlerStart)
    && var s2 := Next(s1, HandlerStart);
    && Enabled(s2, Reap(pid))
    && var s3 := Next(s2, Reap(pid));
    && Enabled(s3, HandlerEnd) && Next(s3, HandlerEnd) == Died(s, pid)
  }

  lemma ChildCanDie(s: State, pid: int)
    requires !s.crashed && !s.handling && !Blocked(s.pc) && pid in s.children
    requires forall p :: p in s.children ==> !Reportable(s.children[p])
    ensures CanDie(s, pid)
  {
    assert s.children[pid := Exited] - {pid} == s.children - {pid};
  }

  /** The state write and one poll lead to a prompt with a cleared slot as the foreground job. */
  ghost predicate ReturnsStale(s: State, slot: nat)
  {
    && Enabled(s, WriteState) && Enabled(Next(s, WriteState), Poll)
    && var s2 := Next(Next(s, WriteState), Poll);
    && s2.pc == Prompt && s2.children == s.children
    && slot < |s2.table.jobs| && s2.table.jobs[slot] == CLEAR.(state := FG)
  }

  lemma LateWrite(s: State)
    requires !s.crashed && !s.handling && s.pc.Resuming? && s.pc.fg && s.pc.pid != 0
    requires s.pc.slot < |s.table.jobs| && s.table.jobs[s.pc.slot] == CLEAR
    requires forall i :: 0 <= i < |s.table.jobs| ==> s.table.jobs[i].state != FG
    ensures ReturnsStale(s, s.pc.slot)
  {
    OnlyForeground(SetState(s.table, s.pc.slot, FG).jobs, s.pc.slot);
  }

  /** From any prompt with a job in the slot: if its process exits between the lookup and the state
      write of fg, the shell comes back to the prompt with a cleared slot as the foreground job. */
  lemma StaleResume(s: State, slot: nat)
    requires Inv(s) && s.pc.Prompt? && !s.handling && slot < MAXJOBS && s.table.jobs[slot].pid != 0
    requires forall p :: p in s.children ==> !Reportable(s.children[p])
    ensures var pid := s.table.jobs[slot].pid;
      && Enabled(s, Lookup(slot, false, true)) && CanDie(Next(s, Lookup(slot, false, true)), pid)
      && ReturnsStale(Died(Next(s, Lookup(slot, false, true)), pid), slot)
  {
    var pid := s.table.jobs[slot].pid;
    SlotHolds(s.table.jobs, slot);
    assert pid in Pids(s.table.jobs);
    hide WellFormed, CanDie, ReturnsStale, Pids, SlotOf, LargestJid, ForegroundPid;
    var s1 := Next(s, Lookup(slot, false, true));
    assert forall i :: 0 <= i < MAXJOBS ==> s.table.jobs[i].state != FG;
    ChildCanDie(s1, pid);
    assert Died(s1, pid).table.jobs == s.table.jobs[slot := CLEAR];
    LateWrite(Died(s1, pid));
  }

  /** waitfg(0): the foreground pid is 0 whether no job or only a cleared slot is in the foreground. */
  ghost predicate Stuck(s: State)
  {
    s.pc == Waiting(0) && forall i :: 0 <= i < |s.table.jobs| && s.table.jobs[i].state == FG ==> s.table.jobs[i].pid == 0
  }

  lemma StuckStays(s: State, step: Step)
    requires Stuck(s) && Enabled(s, step)
    ensures Stuck(Next(s, step))
  {
    hide SlotOf, LargestJid;
    if step.Reap? && !s.children[step.pid].Stopped? {
      DeleteClears(s.table, step.pid);
    }
  }

  /** Once there, the shell waits forever, whatever its children do. */
  lemma {:induction false} StuckForever(s: State, steps: seq<Step>)
    requires Stuck(s)
    ensures After(s, steps).pc == Waiting(0)
    decreases |steps|
  {
    if steps != [] && Enabled(s, steps[0]) {
      StuckStays(s, steps[0]);
      StuckForever(Next(s, steps[0]), steps[1..]);
    }
  }

  ghost predicate GetsStuck(s: State)
  {
    Enabled(s, ReadPid) && Enabled(Next(s, ReadPid), WriteState) && Stuck(Next(Next(s, ReadPid), WriteState))
  }

  lemma LateRead(s: State)
    requires !s.crashed && !s.handling && s.pc.Found? && s.pc.fg
    requires s.pc.slot < |s.table.jobs| && s.table.jobs[s.pc.slot] == CLEAR
    requires forall i :: 0 <= i < |s.table.jobs| ==> s.table.jobs[i].state != FG
    ensures GetsStuck(s)
  {
  }

  /** fg with a job id whose process is reaped before curr_job->pid is read gets there. */
  lemma ZeroPid(s: State, slot: nat)
    requires Inv(s) && s.pc.Prompt? && !s.handling && slot < MAXJOBS && s.table.jobs[slot].pid != 0
    requires forall p :: p in s.children ==> !Reportable(s.children[p])
    ensures var pid := s.table.jobs[slot].pid;
      && Enabled(s, Lookup(slot, true, true)) && CanDie(Next(s, Lookup(slot, true, true)), pid)
      && var s1 := Died(Next(s, Lookup(slot, true, true)), pid);
      && GetsStuck(s1)
  {
    var pid := s.table.jobs[slot].pid;
    SlotHolds(s.table.jobs, slot);
    assert pid in Pids(s.table.jobs);
    ChildOf(s, pid);
    hide WellFormed, CanDie, GetsStuck, Listed, Pids, SlotOf, LargestJid, ForegroundPid;
    var s1 := Next(s, Lookup(slot, true, true));
    assert forall i :: 0 <= i < MAXJOBS ==> s.table.jobs[i].state != FG;
    ChildCanDie(s1, pid);
    assert Died(s1, pid).table.jobs == s.table.jobs[slot := CLEAR];
    LateRead(Died(s1, pid));
  }

  lemma ChildOf(s: State, pid: int)
    requires Listed(s) && !Blocked(s.pc) && pid in Pids(s.table.jobs)
    ensures pid in s.children
  {
  }

  lemma SlotHolds(jobs: seq<Job>, k: nat)
    requires WellFormed(jobs) && k < |jobs| && jobs[k].pid != 0
    ensures SlotOf(jobs, jobs[k].pid) == k && jobs[k].pid > 0
  {
    SlotIs(jobs, jobs[k].pid, k);
  }

  /** A background child that exits before it is announced makes the shell dereference NULL. */
  lemma LateAnnounce(s: State)
    requires Inv(s) && s.pc.Announcing? && !s.handling && s.pc.pid in s.children
    requires forall p :: p in s.children ==> !Reportable(s.children[p])
    ensures CanDie(s, s.pc.pid)
    ensures var s1 := Died(s, s.pc.pid); Enabled(s1, Announce) && Next(s1, Announce).crashed
  {
    hide WellFormed, Pids, CanDie;
    ChildCanDie(s, s.pc.pid);
    DeletePids(s.table, s.pc.pid);
    PidSlot(Delete(s.table, s.pc.pid).jobs, s.pc.pid);
  }

  /** Timely runs lead to such states: starting process 7 in the background, and announcing it. */
  lemma BackgroundStarted() returns (early: seq<Step>, late: seq<Step>)
    ensures Run(INITIAL, early) && After(INITIAL, early).pc == Announcing(7)
    ensures Run(INITIAL, late) && After(INITIAL, late).pc == Prompt
    ensures After(INITIAL, late).table.jobs == [Job(7, 1, BG, "a &")] + seq(MAXJOBS - 1, i => CLEAR)
    ensures After(INITIAL, early).children == After(INITIAL, late).children == map[7 := Running]
    ensures !After(INITIAL, early).handling && !After(INITIAL, late).handling
  {
    hide Run, After, Pids;
    RunEmpty(INITIAL);
    RunSnoc(INITIAL, [], Command(true));
    RunSnoc(INITIAL, [] + [Command(true)], Fork(7));
    SlotIs(INITIAL.table.jobs, 0, 0);
    MinusOne({7}, 7);
    RunSnoc(INITIAL, [] + [Command(true)] + [Fork(7)], Enter("a &"));
    RunSnoc(INITIAL, [] + [Command(true)] + [Fork(7)] + [Enter("a &")], Unblock);
    early := [] + [Command(true)] + [Fork(7)] + [Enter("a &")] + [Unblock];
    SlotIs(After(INITIAL, early).table.jobs, 7, 0);
    RunSnoc(INITIAL, early, Announce);
    late := early + [Announce];
  }

  lemma RunEmpty(s: State)
    ensures Run(s, []) && After(s, []) == s
  {
  }

  // ----- a full list

  /** The prompt with n running children, numbered 1 to n. */
  ghost predicate Crowded(s: State, n: nat)
  {
    && s.pc == Prompt && !s.handling && !s.crashed && |s.children| == n
    && forall p :: p in s.children ==> p <= n && s.children[p] == Running
  }

  lemma AddKey(m: map<int, Status>, p: int)
    requires p !in m
    ensures |m[p := Running]| == |m| + 1
  {
    assert m[p := Running].Keys == m.Keys + {p};
  }

  lemma StartOneMore(steps: seq<Step>, n: nat) returns (r: seq<Step>)
    requires Run(INITIAL, steps) && Crowded(After(INITIAL, steps), n)
    ensures Run(INITIAL, r) && After(INITIAL, r).pc == Adding(n + 1, true)
    ensures var s := After(INITIAL, r);
      && !s.handling && !s.crashed && |s.children| == n + 1 && s.children[n + 1 := Running] == s.children
      && forall p :: p in s.children ==> p <= n + 1 && s.children[p] == Running
  {
    hide Run, After;
    RunSnoc(INITIAL, steps, Command(true));
    RunSnoc(INITIAL, steps + [Command(true)], Fork(n + 1));
    AddKey(After(INITIAL, steps).children, n + 1);
    r := steps + [Command(true)] + [Fork(n + 1)];
  }

  lemma EnterOneMore(steps: seq<Step>, n: nat) returns (r: seq<Step>)
    requires Run(INITIAL, steps) && Crowded(After(INITIAL, steps), n) && n < MAXJOBS
    ensures Run(INITIAL, r) && Crowded(After(INITIAL, r), n + 1)
  {
    var r0 := StartOneMore(steps, n);
    InitialInv();
    hide Run, After, Inv, Add;
    RunSnoc(INITIAL, r0, Enter(""));
    var r1 := r0 + [Enter("")];
    RunSnoc(INITIAL, r1, Unblock);
    var r2 := r1 + [Unblock];
    RunSnoc(INITIAL, r2, Announce);
    r := r2 + [Announce];
    RunInv(INITIAL, r);
    NotCrashed(After(INITIAL, r));
  }

  lemma NotCrashed(s: State)
    requires Inv(s)
    ensures !s.crashed
  {
  }

  lemma {:induction false} ManyJobs(n: nat) returns (steps: seq<Step>)
    requires n <= MAXJOBS
    ensures Run(INITIAL, steps) && Crowded(After(INITIAL, steps), n)
  {
    if n == 0 {
      RunEmpty(INITIAL);
      steps := [];
    } else {
      var before := ManyJobs(n - 1);
      steps := EnterOneMore(before, n - 1);
    }
  }

  /** A timely run after which the next job to be entered is the seventeenth. */
  lemma SeventeenChildren() returns (steps: seq<Step>)
    ensures Run(INITIAL, steps) && After(INITIAL, steps).pc == Adding(MAXJOBS + 1, true)
    ensures |After(INITIAL, steps).children| == MAXJOBS + 1 && !After(INITIAL, steps).handling
    ensures forall p :: p in After(INITIAL, steps).children ==> After(INITIAL, steps).children[p] == Running
  {
    var before := ManyJobs(MAXJOBS);
    steps := StartOneMore(before, MAXJOBS);
  }

  /** The child can stop and be reported, and the report makes the shell dereference NULL. */
  ghost predicate StopCrashes(s: State, pid: int)
  {
    && Enabled(s, Kernel(pid, Stopped))
    && var s1 := Next(s, Kernel(pid, Stopped));
    && Enabled(s1, HandlerStart)
    && var s2 := Next(s1, HandlerStart);
    && Enabled(s2, Reap(pid)) && Next(s2, Reap(pid)).crashed
  }

  lemma UnlistedCrashes(s: State, pid: int)
    requires !s.crashed && !s.handling && !Blocked(s.pc) && pid in s.children && s.children[pid] == Running
    requires SlotOf(s.table.jobs, pid) == |s.table.jobs|
    ensures StopCrashes(s, pid)
  {
  }

  /** When too many children are outstanding the new one gets no entry, although it is a child: the
      announcement of its job, or the first report that it stopped, crashes the shell. */
  lemma NoEntry(s: State, cmdline: string)
    requires Inv(s) && Enabled(s, Enter(cmdline)) && |s.children| > MAXJOBS && s.children[s.pc.pid] == Running
    ensures var pid := s.pc.pid; var s1 := Next(s, Enter(cmdline));
      && pid in s1.children && SlotOf(s1.table.jobs, pid) == |s1.table.jobs|
      && Enabled(s1, Unblock) && StopCrashes(Next(s1, Unblock), pid)
      && (s.pc.bg ==> Enabled(Next(s1, Unblock), Announce) && Next(Next(s1, Unblock), Announce).crashed)
  {
    var pid := s.pc.pid;
    var s1 := Next(s, Enter(cmdline));
    MinusOne(s.children.Keys, pid);
    AddPids(s.table, pid, if s.pc.bg then BG else FG, cmdline);
    PidSlot(s1.table.jobs, pid);
    hide Pids, Slots, WellFormed, Add, StopCrashes;
    UnlistedCrashes(Next(s1, Unblock), pid);
  }
}
