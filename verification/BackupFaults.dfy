/** What holds of a backup for every fault at every step. */
module BackupFaults {
  import opened Common
  import opened Backup

  /** `now` is `was` followed by staging work done while the workload was or was not running. */
  predicate Worked(was: seq<Event>, now: seq<Event>, running: bool) {
    was <= now && forall i :: |was| <= i < |now| ==> now[i].Work? && now[i].running == running
  }

  lemma {:induction false} PerformedWorks(log: seq<Event>, steps: seq<Step>, running: bool)
    ensures Worked(log, Performed(log, steps, running), running)
  {
    if steps != [] {
      PerformedWorks(log, steps[..|steps| - 1], running);
    }
  }

  lemma {:induction false} CredsWork(log: seq<Event>, cs: seq<Credential>, running: bool)
    ensures Worked(log, CredsCopied(log, cs, running), running)
  {
    if cs != [] {
      CredsWork(log, cs[..|cs| - 1], running);
    }
  }

  lemma FillWorks(log: seq<Event>, st: Staging, running: bool)
    ensures Worked(log, FillLog(log, st, running), running)
  {
    PerformedWorks(log, st.before, running);
    var l := Performed(log, st.before, running);
    CredsWork(l + [Work(CredDir, running)], st.creds, running);
    PerformedWorks(CredLog(l, st, running), st.after, running);
  }

  lemma StageWorks(log: seq<Event>, st: Staging, running: bool)
    ensures Worked(log, StageLog(log, st, running), running)
    ensures |StageLog(log, st, running)| > |log|
  {
    FillWorks(log + [Work(TempDir, running)], st, running);
  }

  /** Staging work since `from` that was done on a running workload. */
  predicate CopiedLive(log: seq<Event>, from: nat) {
    exists i :: from <= i < |log| && log[i].Work? && log[i].running
  }

  function Count(log: seq<Event>, e: Event): nat {
    if log == [] then 0 else Count(log[..|log| - 1], e) + if log[|log| - 1] == e then 1 else 0
  }

  lemma {:induction false} WorkedCounts(was: seq<Event>, now: seq<Event>, running: bool, e: Event)
    requires Worked(was, now, running) && !e.Work?
    ensures Count(now, e) == Count(was, e)
    decreases |now|
  {
    if |now| == |was| {
      assert now == was;
    } else {
      WorkedCounts(was, now[..|now| - 1], running, e);
    }
  }

  lemma CountSnoc(log: seq<Event>, last: Event, e: Event)
    ensures Count(log + [last], e) == Count(log, e) + if last == e then 1 else 0
  {
    assert (log + [last])[..|log|] == log;
  }

  // --- The copy ---

  /** A service the copy takes for stopped. */
  predicate SeenDown(p: Probe) { p.fault == None && !p.says }

  /** A copy works on a running workload exactly when told not to stop it, or when is-active says it is down. */
  lemma CopiesLiveExactly(log: seq<Event>, c: Copy, noStop: bool, running: bool)
    ensures log <= CopyLog(log, c, noStop, running)
    ensures CopiedLive(CopyLog(log, c, noStop, running), |log|) <==>
            running && c.probe.fault == None && (noStop || !c.probe.says)
  {
    var l := log + [IsActive];
    StageWorks(l, c.staging, running);
    StageWorks(l + [StopService], c.staging, false);
    var staged := StageLog(l, c.staging, running);
    if running && c.probe.fault == None && (noStop || !c.probe.says) {
      assert staged[|l|].Work? && staged[|l|].running;
    }
  }

  /** The service was seen active, stopped, and no interrupt fell between the guarded steps. */
  predicate Restarts(c: Copy, noStop: bool) {
    Stops(c, noStop) && c.stop.fault == None && c.gap.NoInterrupt?
  }

  /**
    A start is attempted, once and last, exactly when the service was seen active and stopped,
    interrupts in between aside.
   */
  lemma StartsExactly(log: seq<Event>, c: Copy, noStop: bool, running: bool)
    ensures Count(CopyLog(log, c, noStop, running), StartService) ==
            Count(log, StartService) + if Restarts(c, noStop) then 1 else 0
    ensures Restarts(c, noStop) ==> var now := CopyLog(log, c, noStop, running); now[|now| - 1] == StartService
  {
    var l := log + [IsActive];
    CountSnoc(log, IsActive, StartService);
    if c.probe.fault == None {
      if Stops(c, noStop) {
        CountSnoc(l, StopService, StartService);
        StagingNeverCounts(l + [StopService], c.staging, false, StartService);
        CountSnoc(StageLog(l + [StopService], c.staging, false), StartService, StartService);
      } else {
        StagingNeverCounts(l, c.staging, running, StartService);
      }
    }
  }

  /** Nothing but staging, and IsActive first, when the service is left alone. */
  lemma LeftAlone(log: seq<Event>, c: Copy, running: bool)
    ensures var now := CopyLog(log, c, true, running);
            log + [IsActive] <= now && Worked(log + [IsActive], now, running)
  {
    StageWorks(log + [IsActive], c.staging, running);
  }

  // --- The crash-consistent backup ---

  /** A crash-consistent backup never copies a running VM, unless is-active twice said it was down. */
  lemma CrashCopiesLiveExactly(log: seq<Event>, k: Crash, running: bool)
    ensures CopiedLive(CrashLog(log, k, running), |log|) <==> running && SeenDown(k.probe) && SeenDown(k.copy.probe)
  {
    var l := log + [IsActive];
    CopiesLiveExactly(l, k.copy, false, running);
    LeftAlone(l + [Connect] + [Negotiate] + [Pause], k.copy, false);
    var now := CrashLog(log, k, running);
    if Cold(k) {
      assert now[|log|] == l[|log|] == IsActive;
    }
  }

  /** `cont` is attempted exactly once if `stop` succeeded and no interrupt fell in between, and never otherwise. */
  lemma ResumesExactly(log: seq<Event>, k: Crash, running: bool)
    ensures Count(CrashLog(log, k, running), Resume) == Count(log, Resume) + if Resumes(k) then 1 else 0
  {
    var l := log + [IsActive];
    CountSnoc(log, IsActive, Resume);
    if Cold(k) {
      CopyNeverCounts(l, k.copy, false, running, Resume);
    } else if HasClient(k) {
      SessionResumes(l, k);
      CountSnoc(SessionLog(l, k), Close, Resume);
    }
  }

  lemma RecoveryCounts(copied: seq<Event>, e: Event)
    requires e in {Resume, Close}
    ensures Count(copied + [Resume], e) == Count(copied, e) + if e == Resume then 1 else 0
    ensures Count(copied + [Resume] + [Resync], e) == Count(copied + [Resume], e)
  {
    CountSnoc(copied, Resume, e);
    CountSnoc(copied + [Resume], Resync, e);
  }

  lemma PausedCounts(log: seq<Event>, k: Crash, e: Event)
    requires e in {Resume, Close}
    ensures Count(PausedLog(log, k), e) == Count(log, e) + if e == Resume && k.gap.NoInterrupt? then 1 else 0
  {
    CountSnoc(log, Pause, e);
    if !k.gap.BeforeBody? {
      CopyNeverCounts(log + [Pause], k.copy, true, false, e);
      RecoveryCounts(CopyLog(log + [Pause], k.copy, true, false), e);
    }
  }

  lemma SessionResumes(log: seq<Event>, k: Crash)
    requires HasClient(k)
    ensures Count(SessionLog(log, k), Resume) == Count(log, Resume) + if Resumes(k) then 1 else 0
    ensures Count(SessionLog(log, k), Close) == Count(log, Close)
  {
    var l1 := log + [Connect];
    var l2 := l1 + [Negotiate];
    forall e | e in {Resume, Close} ensures Count(l1, e) == Count(l2, e) == Count(l2 + [Pause], e) == Count(log, e) {
      CountSnoc(log, Connect, e);
      CountSnoc(l1, Negotiate, e);
      CountSnoc(l2, Pause, e);
    }
    PausedCounts(l2, k, Resume);
    PausedCounts(l2, k, Close);
  }

  /** A copy leaves the monitor alone. */
  lemma CopyNeverCounts(log: seq<Event>, c: Copy, noStop: bool, running: bool, e: Event)
    requires e in {Resume, Close, Pause, Resync, Connect, Negotiate}
    ensures Count(CopyLog(log, c, noStop, running), e) == Count(log, e)
  {
    var l := log + [IsActive];
    CountSnoc(log, IsActive, e);
    if c.probe.fault == None {
      if Stops(c, noStop) {
        CountSnoc(l, StopService, e);
        StagingNeverCounts(l + [StopService], c.staging, false, e);
        CountSnoc(StageLog(l + [StopService], c.staging, false), StartService, e);
      } else {
        StagingNeverCounts(l, c.staging, running, e);
      }
    }
  }

  lemma StagingNeverCounts(log: seq<Event>, st: Staging, running: bool, e: Event)
    requires !e.Work?
    ensures Count(StageLog(log, st, running), e) == Count(log, e)
  {
    StageWorks(log, st, running);
    WorkedCounts(log, StageLog(log, st, running), running, e);
  }

  /** The copy lies between the pause and the resume. */
  lemma ResumesAfterTheCopy(log: seq<Event>, k: Crash, running: bool, i: nat, j: nat)
    requires Resumes(k)
    requires |log| <= i < |CrashLog(log, k, running)| && |log| <= j < |CrashLog(log, k, running)|
    ensures var now := CrashLog(log, k, running);
            && (now[i].Work? && now[j] == Resume ==> i < j)
            && (now[i] == Pause && now[j].Work? ==> i < j)
            && (now[i] == Pause && now[j] == Resume ==> i < j)
  {
    var l := log + [IsActive] + [Connect] + [Negotiate] + [Pause];
    LeftAlone(l, k.copy, false);
  }

  /** The socket is closed last, once, on every path that made a client, and on no other. */
  lemma ClosesExactly(log: seq<Event>, k: Crash, running: bool)
    ensures Count(CrashLog(log, k, running), Close) == Count(log, Close) + if HasClient(k) then 1 else 0
    ensures HasClient(k) ==> var now := CrashLog(log, k, running); now[|now| - 1] == Close
  {
    var l := log + [IsActive];
    CountSnoc(log, IsActive, Close);
    if Cold(k) {
      CopyNeverCounts(l, k.copy, false, running, Close);
    } else if HasClient(k) {
      SessionResumes(l, k);
      CountSnoc(SessionLog(l, k), Close, Close);
    }
  }

  // --- What a reported size rules out ---

  lemma {:induction false} NoFirstFault(steps: seq<Step>)
    ensures FirstFault(steps) == None <==> forall i :: 0 <= i < |steps| ==> steps[i].fault == None
  {
    if steps != [] {
      var front := steps[..|steps| - 1];
      NoFirstFault(front);
      assert forall i :: 0 <= i < |front| ==> front[i] == steps[i];
    }
  }

  lemma {:induction false} NoCredsFault(cs: seq<Credential>)
    ensures CredsFault(cs) == None <==> forall i :: 0 <= i < |cs| && cs[i].stored ==> cs[i].fault == None
  {
    if cs != [] {
      var front := cs[..|cs| - 1];
      NoCredsFault(front);
      assert forall i :: 0 <= i < |front| ==> front[i] == cs[i];
    }
  }

  /** Every piece of staging went well; a credential that is not stored is no piece of it. */
  predicate StagedWell(st: Staging) {
    && st.tempDir == None && st.cleanup == None
    && (forall i :: 0 <= i < |st.before| ==> st.before[i].fault == None)
    && (st.creds != [] ==> st.credDir == None)
    && (forall i :: 0 <= i < |st.creds| && st.creds[i].stored ==> st.creds[i].fault == None)
    && (forall i :: 0 <= i < |st.after| ==> st.after[i].fault == None)
  }

  lemma StagesExactly(st: Staging)
    ensures StageFault(st) == None <==> StagedWell(st)
  {
    NoFirstFault(st.before);
    NoFirstFault(st.after);
    NoCredsFault(st.creds);
  }

  /** What the service has to do around a copy: nothing, or stop without raising and start without raising. */
  predicate ServiceWell(c: Copy, noStop: bool, vm: bool) {
    c.probe.says && !noStop ==>
      c.stop.fault == None && c.gap == NoInterrupt && (c.start.fault == None || (!vm && c.start.fault == Some(Called)))
  }

  lemma CopiesExactly(c: Copy, noStop: bool, vm: bool)
    ensures CopyFault(c, noStop, vm) == None <==>
            c.probe.fault == None && StagedWell(c.staging) && ServiceWell(c, noStop, vm)
  {
    StagesExactly(c.staging);
  }

  /** A reply to the resume that the backup goes on from. */
  predicate Tolerated(r: Reply) {
    r.Raise? ==> r.exc == Os || r.exc == Value
  }

  /**
    The monitor did what a backup cannot do without; a resume or a clock that failed in an expected
    way is not part of it.
   */
  predicate MonitorWell(k: Crash) {
    && k.socketExists && k.connect == None && k.negotiate == None && k.stop.reply == Return && k.gap == NoInterrupt
    && Tolerated(k.cont.reply) && k.resync != Some(Base) && k.close == None
  }

  /**
    A size is reported exactly when both probes, every piece of staging and the size's own lookup
    went well, and with them the stop and start of a cold copy or the monitor of a live one; and
    then it is the archive's.
   */
  lemma SucceedsExactly(k: Crash)
    ensures CrashResult(k).Size? <==>
            && k.probe.fault == None && k.copy.probe.fault == None && k.stat == None
            && StagedWell(k.copy.staging)
            && if k.probe.says then MonitorWell(k) else ServiceWell(k.copy, false, true)
    ensures CrashResult(k).Size? ==> CrashResult(k) == Size(k.size)
  {
    CopiesExactly(k.copy, false, true);
    CopiesExactly(k.copy, true, true);
  }

  /** The faults a backup tolerates: how the resume failed, if in an expected way, and what befell the clock. */
  lemma RecoveryNeverDecides(k: Crash, cont: Command, resync: Fault)
    requires Tolerated(k.cont.reply) && k.resync != Some(Base)
    requires Tolerated(cont.reply) && resync != Some(Base)
    ensures CrashResult(k.(cont := cont, resync := resync)) == CrashResult(k)
  {
  }

  // --- Every workload ---

  datatype Backed = Backed(workload: string, size: nat)
  datatype Attempt = Attempt(workload: string, result: Result)

  /** Faults the --all run records and goes on from. */
  predicate Isolated(e: Exc) { e == BackupError || e == Called || e == Os }

  predicate Aborts(a: Attempt) { a.result.Raised? && !Isolated(a.result.exc) }

  function Sizes(fleet: seq<Attempt>): seq<Backed> {
    if fleet == [] then []
    else
      var last := fleet[|fleet| - 1];
      Sizes(fleet[..|fleet| - 1]) + if last.result.Size? then [Backed(last.workload, last.result.bytes)] else []
  }

  function Failures(fleet: seq<Attempt>): seq<string> {
    if fleet == [] then []
    else
      var last := fleet[|fleet| - 1];
      Failures(fleet[..|fleet| - 1]) + if last.result.Raised? then [last.workload] else []
  }

  /** The workloads reached before one raises something no one catches. */
  method BackupAll(fleet: seq<Attempt>)
    returns (backups: seq<Backed>, failed: seq<string>, aborted: Option<Exc>, reached: nat)
    ensures reached <= |fleet| && (aborted == None <==> reached == |fleet|)
    ensures forall i :: 0 <= i < reached ==> !Aborts(fleet[i])
    ensures aborted.Some? ==> Aborts(fleet[reached]) && aborted == Some(fleet[reached].result.exc)
    ensures backups == Sizes(fleet[..reached]) && failed == Failures(fleet[..reached])
  {
    backups, failed := [], [];
    for i := 0 to |fleet|
      invariant forall k :: 0 <= k < i ==> !Aborts(fleet[k])
      invariant backups == Sizes(fleet[..i]) && failed == Failures(fleet[..i])
    {
      assert fleet[..i + 1][..i] == fleet[..i];
      match fleet[i].result {
        case Raised(e) =>
          if !Isolated(e) {
            return backups, failed, Some(e), i;
          }
          failed := failed + [fleet[i].workload];
        case Size(n) =>
          backups := backups + [Backed(fleet[i].workload, n)];
      }
    }
    return backups, failed, None, |fleet|;
  }

  function Names(bs: seq<Backed>): seq<string> {
    seq(|bs|, i requires 0 <= i < |bs| => bs[i].workload)
  }

  function Workloads(fleet: seq<Attempt>): seq<string> {
    seq(|fleet|, i requires 0 <= i < |fleet| => fleet[i].workload)
  }

  lemma OneMoreName(names: seq<string>, n: string)
    ensures multiset(names + [n]) == multiset(names) + multiset{n}
  {}

  /** Every workload reached is counted once, as backed up or as failed. */
  lemma {:induction false} EveryWorkloadOnce(fleet: seq<Attempt>)
    ensures multiset(Names(Sizes(fleet))) + multiset(Failures(fleet)) == multiset(Workloads(fleet))
  {
    if fleet != [] {
      var front, last := fleet[..|fleet| - 1], fleet[|fleet| - 1];
      EveryWorkloadOnce(front);
      LastAttempt(fleet);
      OneMoreName(Workloads(front), last.workload);
      OneMoreName(Names(Sizes(front)), last.workload);
      OneMoreName(Failures(front), last.workload);
    }
  }

  lemma LastAttempt(fleet: seq<Attempt>)
    requires fleet != []
    ensures var front, last := fleet[..|fleet| - 1], fleet[|fleet| - 1];
            && Workloads(fleet) == Workloads(front) + [last.workload]
            && Names(Sizes(fleet)) == Names(Sizes(front)) + (if last.result.Size? then [last.workload] else [])
            && Failures(fleet) == Failures(front) + (if last.result.Size? then [] else [last.workload])
  {
  }
}
