/**
  Taking a backup: quiesce the workload, stage and archive it, bring it back.

  Every step may raise. What each step does to the machine and whether it raises is an input,
  so a statement about all inputs is a statement about all faults.
 */
module Backup {
  import opened Common

  /** Os covers OSError and shutil.Error; Called is a nonzero exit under check; Base is an interrupt. */
  datatype Exc = Os | Value | Called | Other | Base | BackupError

  type Fault = Option<Exc>

  /** What a call did and whether it raised; a call can take effect and still raise. */
  datatype Effect = Effect(fault: Fault, took: bool)

  /** The answer of is-active, right or wrong. */
  datatype Probe = Probe(fault: Fault, says: bool)

  datatype Piece =
    | TempDir | Toml | Detect | CredDir | Cred(name: string) | Data | Parent | Create | Tar | Chmod | Cleanup

  datatype Step = Step(piece: Piece, fault: Fault)

  /** A referenced credential, in name order. */
  datatype Credential = Credential(name: string, stored: bool, fault: Fault)

  /**
    The staging work inside a temporary directory. `before` is the straight-line work ahead of
    the credentials (the config file, finding the credentials), `after` what follows them (the
    data tree, the archive's directory and file, tar, its mode).
   */
  datatype Staging = Staging(tempDir: Fault, before: seq<Step>, credDir: Fault, creds: seq<Credential>,
                             after: seq<Step>, cleanup: Fault)

  /** An interrupt between steps: before the guarded body is entered, or before its recovery step is issued. */
  datatype Gap = NoInterrupt | BeforeBody | BeforeRecovery

  datatype Copy = Copy(probe: Probe, stop: Effect, gap: Gap, staging: Staging, start: Effect)

  datatype Reply = Return | Error | Raise(exc: Exc)
  datatype Command = Command(reply: Reply, took: bool)

  /** One crash-consistent backup. */
  datatype Crash = Crash(probe: Probe, socketExists: bool, connect: Fault, negotiate: Fault, stop: Command,
                         gap: Gap, copy: Copy, cont: Command, resync: Fault, close: Fault, stat: Fault, size: nat)

  /** A piece of staging work notes whether the workload was running while it was done. */
  datatype Event =
    | IsActive | StopService | Work(piece: Piece, running: bool) | StartService
    | Connect | Negotiate | Pause | Resume | Resync | Close

  datatype Result = Size(bytes: nat) | Raised(exc: Exc)

  // --- Staging ---

  /** A later fault inside a finally block replaces the pending one. */
  function Then(pending: Fault, later: Fault): Fault {
    if later.Some? then later else pending
  }

  /** The fault that ends a list of steps: the first. */
  function FirstFault(steps: seq<Step>): Fault {
    if steps == [] then None
    else
      var front := FirstFault(steps[..|steps| - 1]);
      if front.Some? then front else steps[|steps| - 1].fault
  }

  /** The log after the steps, none of which begins once one has raised. */
  function Performed(log: seq<Event>, steps: seq<Step>, running: bool): seq<Event> {
    if steps == [] then log
    else
      var front := steps[..|steps| - 1];
      var sofar := Performed(log, front, running);
      if FirstFault(front).Some? then sofar else sofar + [Work(steps[|steps| - 1].piece, running)]
  }

  function CredsFault(cs: seq<Credential>): Fault {
    if cs == [] then None
    else
      var front, last := CredsFault(cs[..|cs| - 1]), cs[|cs| - 1];
      if front.Some? then front else if last.stored then last.fault else None
  }

  /** Credentials that are not in the store are passed over. */
  function CredsCopied(log: seq<Event>, cs: seq<Credential>, running: bool): seq<Event> {
    if cs == [] then log
    else
      var front, last := cs[..|cs| - 1], cs[|cs| - 1];
      var sofar := CredsCopied(log, front, running);
      if CredsFault(front).Some? || !last.stored then sofar else sofar + [Work(Cred(last.name), running)]
  }

  function CredLog(log: seq<Event>, st: Staging, running: bool): seq<Event> {
    if st.creds == [] then log
    else if st.credDir.Some? then log + [Work(CredDir, running)]
    else CredsCopied(log + [Work(CredDir, running)], st.creds, running)
  }

  function CredFault(st: Staging): Fault {
    if st.creds == [] then None else if st.credDir.Some? then st.credDir else CredsFault(st.creds)
  }

  /** The body of the temporary directory's scope. */
  function FillLog(log: seq<Event>, st: Staging, running: bool): seq<Event> {
    var l := Performed(log, st.before, running);
    if FirstFault(st.before).Some? then l
    else if CredFault(st).Some? then CredLog(l, st, running)
    else Performed(CredLog(l, st, running), st.after, running)
  }

  function FillFault(st: Staging): Fault {
    if FirstFault(st.before).Some? then FirstFault(st.before)
    else if CredFault(st).Some? then CredFault(st)
    else FirstFault(st.after)
  }

  function StageLog(log: seq<Event>, st: Staging, running: bool): seq<Event> {
    var l := log + [Work(TempDir, running)];
    if st.tempDir.Some? then l else FillLog(l, st, running) + [Work(Cleanup, running)]
  }

  function StageFault(st: Staging): Fault {
    if st.tempDir.Some? then st.tempDir else Then(FillFault(st), st.cleanup)
  }

  // --- The copy, with the service stopped around it or not ---

  predicate Stops(c: Copy, noStop: bool) {
    c.probe.fault == None && c.probe.says && !noStop
  }

  /** Bringing a container back tolerates a failing start; a VM is started without looking. */
  function StartFault(start: Effect, vm: bool): Fault {
    if !vm && start.fault == Some(Called) then None else start.fault
  }

  function CopyLog(log: seq<Event>, c: Copy, noStop: bool, running: bool): seq<Event> {
    var l := log + [IsActive];
    if c.probe.fault.Some? then l
    else if !Stops(c, noStop) then StageLog(l, c.staging, running)
    else if c.stop.fault.Some? || c.gap.BeforeBody? then l + [StopService]
    else if c.gap.BeforeRecovery? then StageLog(l + [StopService], c.staging, false)
    else StageLog(l + [StopService], c.staging, false) + [StartService]
  }

  function CopyFault(c: Copy, noStop: bool, vm: bool): Fault {
    if c.probe.fault.Some? then c.probe.fault
    else if !Stops(c, noStop) then StageFault(c.staging)
    else if c.stop.fault.Some? then c.stop.fault
    else if !c.gap.NoInterrupt? then Some(Base)
    else Then(StageFault(c.staging), StartFault(c.start, vm))
  }

  /** Whether the service is up after a copy that found it `active`. */
  predicate ActiveAfter(c: Copy, noStop: bool, active: bool) {
    if !Stops(c, noStop) then active
    else if c.stop.fault.Some? then active && !c.stop.took
    else c.gap.NoInterrupt? && c.start.took
  }

  // --- The crash-consistent backup of a VM ---

  predicate Expected(e: Exc) { e == Os || e == Value }

  function Wrapped(e: Exc): Exc { if Expected(e) then BackupError else e }

  predicate Active(k: Crash) { k.probe.fault == None && k.probe.says }

  predicate Cold(k: Crash) { k.probe.fault == None && !k.probe.says }

  /** A monitor client exists, and with it something to close. */
  predicate HasClient(k: Crash) { Active(k) && k.socketExists }

  predicate Commanding(k: Crash) { HasClient(k) && k.connect == None && k.negotiate == None }

  predicate Pauses(k: Crash) { Commanding(k) && k.stop.reply == Return }

  /** The pause is followed by a resume: no interrupt falls between the two guarded steps. */
  predicate Resumes(k: Crash) { Pauses(k) && k.gap.NoInterrupt? }

  predicate ContEscapes(k: Crash) { k.cont.reply.Raise? && !Expected(k.cont.reply.exc) }

  function PausedLog(log: seq<Event>, k: Crash): seq<Event> {
    if k.gap.BeforeBody? then log + [Pause]
    else
      var copied := CopyLog(log + [Pause], k.copy, true, false);
      if k.gap.BeforeRecovery? then copied
      else if ContEscapes(k) then copied + [Resume]
      else copied + [Resume] + [Resync]
  }

  function SessionLog(log: seq<Event>, k: Crash): seq<Event> {
    var l := log + [Connect];
    if k.connect.Some? then l
    else if k.negotiate.Some? then l + [Negotiate]
    else if k.stop.reply != Return then l + [Negotiate] + [Pause]
    else PausedLog(l + [Negotiate], k)
  }

  function CrashLog(log: seq<Event>, k: Crash, running: bool): seq<Event> {
    var l := log + [IsActive];
    if k.probe.fault.Some? then l
    else if !k.probe.says then CopyLog(l, k.copy, false, running)
    else if !k.socketExists then l
    else SessionLog(l, k) + [Close]
  }

  /** What the session raises, before its socket is closed. */
  function SessionFault(k: Crash): Fault {
    if k.connect.Some? then Some(Wrapped(k.connect.value))
    else if k.negotiate.Some? then Some(Wrapped(k.negotiate.value))
    else match k.stop.reply
      case Raise(e) => Some(Wrapped(e))
      case Error => Some(BackupError)
      case Return =>
        if !k.gap.NoInterrupt? then Some(Base)
        else if ContEscapes(k) then Some(k.cont.reply.exc)
        else Then(CopyFault(k.copy, true, true), if k.resync == Some(Base) then k.resync else None)
  }

  function CrashResult(k: Crash): Result {
    var fault :=
      if k.probe.fault.Some? then k.probe.fault
      else if !k.probe.says then CopyFault(k.copy, false, true)
      else if !k.socketExists then Some(BackupError)
      else Then(SessionFault(k), k.close);
    Measured(fault, k.stat, k.size)
  }

  function Measured(fault: Fault, stat: Fault, size: nat): Result {
    if fault.Some? then Raised(fault.value) else if stat.Some? then Raised(stat.value) else Size(size)
  }

  /** Whether the vCPUs are paused at the end, given whether they were before. */
  predicate PausedAfter(k: Crash, paused: bool) {
    if !Commanding(k) then paused
    else if k.stop.reply == Return then !(k.gap.NoInterrupt? && (k.cont.took || k.cont.reply == Return))
    else paused || k.stop.took
  }

  lemma {:induction false} PrefixFault(steps: seq<Step>, n: nat, log: seq<Event>, running: bool)
    requires n <= |steps| && FirstFault(steps[..n]).Some?
    ensures FirstFault(steps) == FirstFault(steps[..n])
    ensures Performed(log, steps, running) == Performed(log, steps[..n], running)
  {
    if n == |steps| {
      assert steps[..n] == steps;
    } else {
      assert steps[..|steps| - 1][..n] == steps[..n];
      PrefixFault(steps[..|steps| - 1], n, log, running);
    }
  }

  lemma {:induction false} PrefixCreds(cs: seq<Credential>, n: nat, log: seq<Event>, running: bool)
    requires n <= |cs| && CredsFault(cs[..n]).Some?
    ensures CredsFault(cs) == CredsFault(cs[..n])
    ensures CredsCopied(log, cs, running) == CredsCopied(log, cs[..n], running)
  {
    if n == |cs| {
      assert cs[..n] == cs;
    } else {
      assert cs[..|cs| - 1][..n] == cs[..n];
      PrefixCreds(cs[..|cs| - 1], n, log, running);
    }
  }

  class Machine {
    var active: bool
    var paused: bool
    var open: bool
    var log: seq<Event>

    constructor (active: bool, paused: bool)
      ensures this.active == active && this.paused == paused && !open && log == []
    {
      this.active, this.paused, open, log := active, paused, false, [];
    }

    predicate Running()
      reads this
    {
      active && !paused
    }

    /** Runs straight-line steps until one raises. */
    method Perform(steps: seq<Step>) returns (fault: Fault)
      modifies this`log
      ensures log == Performed(old(log), steps, Running())
      ensures fault == FirstFault(steps)
    {
      for i := 0 to |steps|
        invariant FirstFault(steps[..i]) == None
        invariant log == Performed(old(log), steps[..i], Running())
      {
        assert steps[..i + 1][..i] == steps[..i];
        log := log + [Work(steps[i].piece, Running())];
        if steps[i].fault.Some? {
          PrefixFault(steps, i + 1, old(log), Running());
          return steps[i].fault;
        }
      }
      assert steps[..|steps|] == steps;
      return None;
    }

    method CopyCredentials(creds: seq<Credential>) returns (fault: Fault)
      modifies this`log
      ensures log == CredsCopied(old(log), creds, Running())
      ensures fault == CredsFault(creds)
    {
      for i := 0 to |creds|
        invariant CredsFault(creds[..i]) == None
        invariant log == CredsCopied(old(log), creds[..i], Running())
      {
        assert creds[..i + 1][..i] == creds[..i];
        if creds[i].stored {
          log := log + [Work(Cred(creds[i].name), Running())];
          if creds[i].fault.Some? {
            PrefixCreds(creds, i + 1, old(log), Running());
            return creds[i].fault;
          }
        }
      }
      assert creds[..|creds|] == creds;
      return None;
    }

    method Stage(st: Staging) returns (fault: Fault)
      modifies this`log
      ensures log == StageLog(old(log), st, Running())
      ensures fault == StageFault(st)
    {
      log := log + [Work(TempDir, Running())];
      if st.tempDir.Some? {
        return st.tempDir;
      }
      fault := Fill(st);
      log := log + [Work(Cleanup, Running())];
      fault := Then(fault, st.cleanup);
    }

    method Fill(st: Staging) returns (fault: Fault)
      modifies this`log
      ensures log == FillLog(old(log), st, Running())
      ensures fault == FillFault(st)
    {
      fault := Perform(st.before);
      if fault.Some? {
        return;
      }
      if st.creds != [] {
        log := log + [Work(CredDir, Running())];
        if st.credDir.Some? {
          return st.credDir;
        }
        fault := CopyCredentials(st.creds);
        if fault.Some? {
          return;
        }
      }
      fault := Perform(st.after);
    }

    method Copy(c: Copy, noStop: bool, vm: bool) returns (fault: Fault)
      modifies this`log, this`active
      ensures log == CopyLog(old(log), c, noStop, old(Running()))
      ensures fault == CopyFault(c, noStop, vm)
      ensures active == ActiveAfter(c, noStop, old(active))
    {
      log := log + [IsActive];
      if c.probe.fault.Some? {
        return c.probe.fault;
      }
      var stops := c.probe.says && !noStop;
      if stops {
        log := log + [StopService];
        active := active && !(c.stop.took || c.stop.fault == None);
        if c.stop.fault.Some? {
          return c.stop.fault;
        }
        if c.gap.BeforeBody? {
          return Some(Base);
        }
      }
      fault := Stage(c.staging);
      if stops {
        if c.gap.BeforeRecovery? {
          return Some(Base);
        }
        log := log + [StartService];
        active := active || c.start.took;
        fault := Then(fault, StartFault(c.start, vm));
      }
    }

    method BackupVm(c: Copy, stat: Fault, size: nat) returns (r: Result)
      modifies this`log, this`active
      ensures log == CopyLog(old(log), c, false, old(Running()))
      ensures r == Measured(CopyFault(c, false, true), stat, size)
      ensures active == ActiveAfter(c, false, old(active))
    {
      var fault := Copy(c, false, true);
      if fault.Some? {
        return Raised(fault.value);
      }
      return if stat.Some? then Raised(stat.value) else Size(size);
    }

    /** Pauses the vCPUs, copies, and resumes them whatever the copy did, interrupts in between aside. */
    method Session(k: Crash) returns (fault: Fault)
      requires HasClient(k) && !open
      modifies this
      ensures log == SessionLog(old(log), k)
      ensures fault == SessionFault(k)
      ensures open <==> k.connect == None
      ensures active == old(active)
      ensures paused == PausedAfter(k, old(paused))
    {
      log := log + [Connect];
      if k.connect.Some? {
        return Some(Wrapped(k.connect.value));
      }
      open := true;
      log := log + [Negotiate];
      if k.negotiate.Some? {
        return Some(Wrapped(k.negotiate.value));
      }
      log := log + [Pause];
      paused := paused || k.stop.took || k.stop.reply == Return;
      match k.stop.reply {
        case Raise(e) => return Some(Wrapped(e));
        case Error => return Some(BackupError);
        case Return =>
      }
      if k.gap.BeforeBody? {
        return Some(Base);
      }
      fault := Copy(k.copy, true, true);
      if k.gap.BeforeRecovery? {
        return Some(Base);
      }
      log := log + [Resume];
      paused := paused && !(k.cont.took || k.cont.reply == Return);
      if k.cont.reply.Raise? && !Expected(k.cont.reply.exc) {
        return Some(k.cont.reply.exc);
      }
      log := log + [Resync];
      if k.resync == Some(Base) {
        fault := k.resync;
      }
    }

    method BackupVmCrash(k: Crash) returns (r: Result)
      requires !open
      modifies this
      ensures log == CrashLog(old(log), k, old(Running()))
      ensures r == CrashResult(k)
      ensures open ==> k.close.Some?
      ensures active == if Cold(k) then ActiveAfter(k.copy, false, old(active)) else old(active)
      ensures paused == PausedAfter(k, old(paused))
      // The vCPUs are left paused only by a failed `stop` that paused them all the same, an interrupt between
      // the guarded steps, or a `cont` that did not take.
      ensures !old(paused) && paused ==>
                Commanding(k) &&
                if k.stop.reply == Return then !Resumes(k) || (k.cont.reply != Return && !k.cont.took) else k.stop.took
    {
      log := log + [IsActive];
      if k.probe.fault.Some? {
        return Raised(k.probe.fault.value);
      }
      if !k.probe.says {
        r := BackupVm(k.copy, k.stat, k.size);
        return;
      }
      if !k.socketExists {
        return Raised(BackupError);
      }
      var fault := Session(k);
      log := log + [Close];
      open := open && k.close.Some?;
      fault := Then(fault, k.close);
      return Measured(fault, k.stat, k.size);
    }
  }
}
