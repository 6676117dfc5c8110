/** DaemonImpl::daemonize_me (src/lomiri/util/internal/DaemonImpl.cpp) on the abstract process. */
module Daemon {
  import opened Options
  import opened Processes

  /** The settings; an empty directory and no umask mean "leave as it is". */
  datatype Config = Config(closeFds: bool, resetSignals: bool, umask: Option<nat>, directory: string)

  /**
   A name in /proc/self/fd, by what std::stoi makes of it: a number, a number followed by something else (which
   is skipped), or no number at all, on which stoi throws and the noexcept function terminates the process.
   */
  datatype Entry = Number(fd: nat) | Prefixed | Word

  /** What the system answers to the calls that can fail, and the listing it gives for a set of descriptors. */
  datatype Environment = Environment(
    resolve: (Dir, string) -> Option<Dir>,
    dotOpens: bool, fchdirWorks: bool,
    firstFork: bool, secondFork: bool,
    listingOpens: bool, list: set<nat> -> seq<Entry>,
    nullOpens: bool)

  /** The listing names exactly the open descriptors, in any order, and may contain other entries. */
  ghost predicate Faithful(env: Environment) {
    forall open, fd :: Number(fd) in env.list(open) <==> fd in open
  }

  ghost predicate OnlyNumbers(env: Environment, open: set<nat>) {
    Word !in env.list(open)
  }

  /** An absolute path means the same directory from everywhere. */
  ghost predicate AbsolutePathsResolveAlike(env: Environment) {
    forall path: string, d, e :: path != "" && path[0] == '/' ==> env.resolve(d, path) == env.resolve(e, path)
  }

  datatype Ending = Daemonized | Threw | Terminated | AssertionFailed

  // ----- what is promised -----

  function TargetDir(cfg: Config, env: Environment, s: Proc): Option<Dir> {
    if cfg.directory == "" then Some(s.cwd) else env.resolve(s.cwd, cfg.directory)
  }

  function NullDescriptors(): map<nat, Target> {
    map[0 := DevNull, 1 := DevNull, 2 := DevNull]
  }

  /** The standard three on /dev/null; the others stay open, or none if they were to be closed and could be. */
  function DaemonFds(cfg: Config, env: Environment, fds: map<nat, Target>): map<nat, Target> {
    (if cfg.closeFds && env.listingOpens then map[] else fds - {0, 1, 2}) + NullDescriptors()
  }

  const DEFAULT_ACTION := SigAction(Default, 0)

  /**
   Defaults for everything that can be changed, or the original dispositions; only an ignored SIGHUP is left as
   the code has set it, without the mask and flags it may have had.
   */
  function DaemonActions(cfg: Config, lim: Limits, actions: map<int, SigAction>): map<int, SigAction> {
    if cfg.resetSignals then
      map sig | sig in actions :: if sig in lim.settable then DEFAULT_ACTION else actions[sig]
    else if SIGHUP in actions && actions[SIGHUP].handler == Ignore then actions[SIGHUP := SigAction(Ignore, 0)]
    else actions
  }

  lemma SettledIs(cfg: Config, lim: Limits, guarded: map<int, SigAction>, original: SigAction,
                  settled: map<int, SigAction>)
    requires SIGHUP in guarded && guarded[SIGHUP] == SigAction(Ignore, 0) && SIGHUP in lim.settable
    requires settled.Keys == guarded.Keys
    requires !cfg.resetSignals && original.handler == Ignore ==> settled == guarded
    requires !cfg.resetSignals && original.handler != Ignore ==> settled == guarded[SIGHUP := original]
    requires cfg.resetSignals ==> forall sig :: sig in settled ==>
               settled[sig] == if sig in lim.settable then DEFAULT_ACTION else guarded[sig]
    ensures settled == DaemonActions(cfg, lim, guarded[SIGHUP := original])
  {
    var actions := guarded[SIGHUP := original];
    assert actions.Keys == guarded.Keys;
    if !cfg.resetSignals && original.handler == Ignore {
      assert actions[SIGHUP := SigAction(Ignore, 0)] == guarded;
    } else if cfg.resetSignals {
      var want := DaemonActions(cfg, lim, actions);
      assert want.Keys == actions.Keys;
      assert forall sig :: sig in want ==> settled[sig] == want[sig];
    }
  }

  /** The process after a successful daemonize_me(). */
  function DaemonState(cfg: Config, env: Environment, lim: Limits, s: Proc): Proc {
    Proc(DaemonFds(cfg, env, s.fds),
         if TargetDir(cfg, env, s).Some? then TargetDir(cfg, env, s).value else s.cwd,
         if cfg.umask.Some? then cfg.umask.value % 0x200 else s.umask,
         DaemonActions(cfg, lim, s.actions),
         false, false, false)
  }

  /** Whether the previous directory could be saved: there was a descriptor left for it. */
  predicate Saved(env: Environment, lim: Limits, s: Proc) {
    env.dotOpens && LowestFree(s.fds, lim).Some?
  }

  /** The process after a failed fork: as before, except that the directory change may have stuck. */
  function RolledBack(cfg: Config, env: Environment, lim: Limits, s: Proc): Proc {
    if cfg.directory == "" || TargetDir(cfg, env, s).None? || (Saved(env, lim, s) && env.fchdirWorks) then s
    else s.(cwd := TargetDir(cfg, env, s).value)
  }

  /** What is open while the directory is read: all but the standard three, and the stream itself. */
  function ListedFds(fds: map<nat, Target>): set<nat> {
    (fds.Keys - {0, 1, 2}) + {0}
  }

  ghost predicate Fails(cfg: Config, env: Environment, s: Proc) {
    TargetDir(cfg, env, s).None? || !env.firstFork || !env.secondFork
  }

  /** No call fails and, if descriptors are to be closed, the listing has nothing in it but numbers. */
  ghost predicate Succeeds(cfg: Config, env: Environment, s: Proc) {
    && !Fails(cfg, env, s) && env.nullOpens
    && (cfg.closeFds && env.listingOpens ==> OnlyNumbers(env, ListedFds(s.fds)))
  }

  /** The strong exception guarantee holds on exactly these inputs, up to the session change. */
  lemma RollbackIsComplete(cfg: Config, env: Environment, lim: Limits, s: Proc)
    ensures RolledBack(cfg, env, lim, s) == s
            <==> TargetDir(cfg, env, s) in {None, Some(s.cwd)} || (Saved(env, lim, s) && env.fchdirWorks)
  {
  }

  // ----- the code -----

  /** The record has only grown, and by no fork. */
  ghost predicate NoForks(before: seq<Traced>, after: seq<Traced>) {
    before <= after && forall k :: |before| <= k < |after| ==> after[k].call != ForkCall
  }

  /** Besides, SIGHUP's disposition has been `hup` after each added call. */
  ghost predicate Quiet(before: seq<Traced>, after: seq<Traced>, hup: Handler) {
    NoForks(before, after) && forall k :: |before| <= k < |after| ==> after[k].hup == hup
  }

  lemma ForksSince(before: seq<Traced>, begun: seq<Traced>, after: seq<Traced>, first: nat, second: nat)
    requires NoForks(before, begun) && ForksAre(begun, after, first, second)
    ensures ForksAre(before, after, first, second)
  {
    assert forall k :: 0 <= k < |begun| ==> after[k] == begun[k];
  }

  lemma TwoForks(begun: seq<Traced>, entered: seq<Traced>, after: seq<Traced>)
    requires begun != [] && begun[|begun| - 1].call == ForkCall && NoForks(begun, entered)
    requires entered < after && after[|entered|].call == ForkCall && NoForks(after[..|entered| + 1], after)
    ensures ForksAre(begun[..|begun| - 1], after, |begun| - 1, |entered|)
  {
    assert forall k :: 0 <= k < |entered| ==> after[k] == entered[k];
    assert forall k :: 0 <= k < |begun| ==> after[k] == begun[k];
  }

  /** Of what was added to the record, the calls at `first` and `second`, and no others, are forks. */
  ghost predicate ForksAre(before: seq<Traced>, after: seq<Traced>, first: nat, second: nat) {
    && before <= after && |before| <= first < second < |after|
    && forall k :: |before| <= k < |after| ==> (after[k].call == ForkCall <==> k == first || k == second)
  }

  ghost function Hup(s: Proc): Handler
    requires SIGHUP in s.actions
  {
    s.actions[SIGHUP].handler
  }

  class DaemonImpl {
    var closeFds: bool
    var resetSignals: bool
    var setUmask: bool
    var umask: nat
    var workingDirectory: string

    ghost function Settings(): (c: Config)
      reads this
    {
      Config(closeFds, resetSignals, if setUmask then Some(umask) else None, workingDirectory)
    }

    constructor ()
      ensures Settings() == Config(false, false, None, "")
    {
      closeFds, resetSignals, setUmask := false, false, false;
      umask := *;
      workingDirectory := "";
    }

    method CloseFds()
      modifies this
      ensures Settings() == old(Settings()).(closeFds := true)
    {
      closeFds := true;
    }

    method ResetSignals()
      modifies this
      ensures Settings() == old(Settings()).(resetSignals := true)
    {
      resetSignals := true;
    }

    method SetUmask(mask: nat)
      modifies this
      ensures Settings() == old(Settings()).(umask := Some(mask))
    {
      setUmask := true;
      umask := mask;
    }

    method SetWorkingDirectory(directory: string)
      modifies this
      ensures Settings() == old(Settings()).(directory := directory)
    {
      workingDirectory := directory;
    }

    /** The descriptors named in the listing, in its order; `words` tells that stoi threw. */
    static method Collect(entries: seq<Entry>) returns (descriptors: seq<nat>, words: bool)
      ensures words <==> Word in entries
      ensures !words ==> forall fd :: fd in descriptors <==> Number(fd) in entries
    {
      descriptors := [];
      for i := 0 to |entries|
        invariant Word !in entries[..i]
        invariant forall fd :: fd in descriptors <==> Number(fd) in entries[..i]
      {
        assert entries[..i + 1] == entries[..i] + [entries[i]];
        match entries[i] {
          case Word => return descriptors, true;
          case Prefixed =>
          case Number(fd) => descriptors := descriptors + [fd];
        }
      }
      assert entries[..|entries|] == entries;
      words := false;
    }

    static method CloseAll(p: Process, descriptors: seq<nat>)
      requires p.Valid()
      modifies p
      ensures p.Valid() && p.s == old(p.s).(fds := p.s.fds) && Quiet(old(p.trace), p.trace, Hup(p.s))
      ensures p.s.fds == old(p.s.fds) - (set fd | fd in descriptors)
    {
      for i := 0 to |descriptors|
        invariant p.Valid() && p.s == old(p.s).(fds := p.s.fds) && Quiet(old(p.trace), p.trace, Hup(p.s))
        invariant p.s.fds == old(p.s.fds) - (set fd | fd in descriptors[..i])
      {
        assert descriptors[..i + 1] == descriptors[..i] + [descriptors[i]];
        p.Close(descriptors[i]);
      }
      assert descriptors[..|descriptors|] == descriptors;
    }

    /** Closes everything that is open, by way of the listing. */
    static method CloseListed(p: Process, env: Environment) returns (terminated: bool)
      requires p.Valid() && Faithful(env) && 0 !in p.s.fds
      modifies p
      ensures p.Valid() && p.s == old(p.s).(fds := p.s.fds) && Quiet(old(p.trace), p.trace, Hup(p.s))
      ensures terminated <==> env.listingOpens && !OnlyNumbers(env, old(p.s.fds.Keys) + {0})
      ensures !terminated ==> p.s.fds == if env.listingOpens then map[] else old(p.s.fds)
    {
      var dir := p.Open(DescriptorListing, env.listingOpens);
      if dir == -1 {
        return false;
      }
      assert p.s.fds.Keys == old(p.s.fds.Keys) + {0};
      var descriptors, words := Collect(env.list(p.s.fds.Keys));
      if words {
        return true;
      }
      assert (set fd | fd in descriptors) == p.s.fds.Keys;
      CloseAll(p, descriptors);
      // The stream is closed only here, by its owner, when its descriptor is closed already.
      p.Close(dir);
      terminated := false;
    }

    method CloseOpenFiles(p: Process, env: Environment) returns (terminated: bool)
      requires p.Valid() && Faithful(env)
      modifies p
      ensures p.Valid() && p.s == old(p.s).(fds := p.s.fds) && Quiet(old(p.trace), p.trace, Hup(p.s))
      ensures terminated <==> closeFds && env.listingOpens && !OnlyNumbers(env, ListedFds(old(p.s.fds)))
      ensures !terminated ==> p.s.fds == if closeFds && env.listingOpens then map[] else old(p.s.fds) - {0, 1, 2}
    {
      p.Close(0);
      p.Close(1);
      p.Close(2);
      assert p.s.fds == old(p.s.fds) - {0, 1, 2};
      terminated := false;
      if closeFds {
        terminated := CloseListed(p, env);
      }
    }

    /** Sets every signal that can be set to its default. */
    static method ResetAllSignals(p: Process)
      requires p.Valid()
      modifies p
      ensures p.Valid() && p.s == old(p.s).(actions := p.s.actions) && NoForks(old(p.trace), p.trace)
      ensures p.s.actions.Keys == old(p.s.actions).Keys
      ensures forall sig :: sig in p.s.actions ==>
                p.s.actions[sig] == if sig in p.lim.settable then DEFAULT_ACTION else old(p.s.actions)[sig]
      ensures |p.trace| > |old(p.trace)| && p.trace[|old(p.trace)|].call == SigactionCall
    {
      var sig := 1;
      while sig < NSIG
        invariant 1 <= sig <= NSIG
        invariant p.Valid() && p.s == old(p.s).(actions := p.s.actions) && NoForks(old(p.trace), p.trace)
        invariant p.s.actions.Keys == old(p.s.actions).Keys
        invariant forall g :: g in p.s.actions ==>
                    p.s.actions[g] == if g in p.lim.settable && g < sig then DEFAULT_ACTION else old(p.s.actions)[g]
        invariant sig == 1 ==> p.trace == old(p.trace)
        invariant sig > 1 ==> |p.trace| > |old(p.trace)| && p.trace[|old(p.trace)|].call == SigactionCall
      {
        var _ := p.Sigaction(sig, DEFAULT_ACTION);
        sig := sig + 1;
      }
    }

    /** Everything after the second fork but the descriptors: restore SIGHUP or reset all signals. */
    method SettleSignals(p: Process, oldAction: SigAction)
      requires p.Valid()
      modifies p
      ensures p.Valid() && p.s == old(p.s).(actions := p.s.actions) && NoForks(old(p.trace), p.trace)
      ensures old(p.s.actions)[SIGHUP] == SigAction(Ignore, 0) ==>
                p.s.actions == DaemonActions(Settings(), p.lim, old(p.s.actions)[SIGHUP := oldAction])
      ensures if p.trace == old(p.trace) then p.s == old(p.s)
              else |p.trace| > |old(p.trace)| && p.trace[|old(p.trace)|].call == SigactionCall
    {
      if !resetSignals && oldAction.handler != Ignore {
        var _ := p.Sigaction(SIGHUP, oldAction);
      }
      if resetSignals {
        ResetAllSignals(p);
      }
      if old(p.s.actions)[SIGHUP] == SigAction(Ignore, 0) {
        SettledIs(Settings(), p.lim, old(p.s.actions), oldAction, p.s.actions);
      }
    }

    /** Connects 0, 1 and 2 to the null device. */
    static method OpenNull(p: Process, env: Environment) returns (ok: bool)
      requires p.Valid() && 0 !in p.s.fds && 1 !in p.s.fds && 2 !in p.s.fds
      modifies p
      ensures p.Valid() && p.s == old(p.s).(fds := p.s.fds) && Quiet(old(p.trace), p.trace, Hup(p.s))
      ensures ok <==> env.nullOpens
      ensures ok ==> p.s.fds == old(p.s.fds) + NullDescriptors()
    {
      LowestFreeIs(p.s.fds, 0, p.lim);
      var fd := p.Open(DevNull, env.nullOpens);
      if fd != 0 {
        return false;
      }
      LowestFreeIs(p.s.fds, 1, p.lim);
      fd := p.Dup(fd);
      assert fd == 1;
      LowestFreeIs(p.s.fds, 2, p.lim);
      fd := p.Dup(fd);
      assert fd == 2;
      assert p.s.fds == old(p.s.fds)[0 := DevNull][1 := DevNull][2 := DevNull];
      ok := true;
    }

    /** The deleter of the saved working directory, run by the destructor that owns it. */
    static method RestoreDirectory(p: Process, env: Environment, saved: Option<int>)
      requires p.Valid()
      modifies p
      ensures p.Valid() && NoForks(old(p.trace), p.trace)
      ensures p.s == Restored(env, old(p.s), saved)
    {
      if saved.Some? {
        if saved.value != -1 {
          p.Fchdir(saved.value, env.fchdirWorks);
          p.Close(saved.value);
        }
      }
    }

    /** Saves the working directory and changes it, if that was asked for. */
    method ChangeDirectory(p: Process, env: Environment) returns (saved: Option<int>, ok: bool)
      requires p.Valid()
      modifies p
      ensures p.Valid() && NoForks(old(p.trace), p.trace)
      ensures ok <==> TargetDir(Settings(), env, old(p.s)).Some?
      ensures Changed(Settings(), env, p.lim, old(p.s), p.s, saved)
    {
      saved, ok := None, true;
      if workingDirectory != "" {
        var fd := p.Open(Directory(p.s.cwd), env.dotOpens);
        saved := Some(fd);
        ok := p.Chdir(env.resolve(p.s.cwd, workingDirectory));
      }
    }

    /** A new session, the umask, and SIGHUP ignored. */
    method EnterSession(p: Process) returns (oldUmask: nat, oldAction: SigAction)
      requires p.Valid() && !p.s.groupLeader
      modifies p
      ensures p.Valid() && oldAction == old(p.s.actions)[SIGHUP] && (setUmask ==> oldUmask == old(p.s.umask))
      ensures p.s == old(p.s).(
                sessionLeader := true, groupLeader := true, terminal := false,
                umask := if setUmask then umask % 0x200 else old(p.s.umask),
                actions := old(p.s.actions)[SIGHUP := SigAction(Ignore, 0)])
      ensures NoForks(old(p.trace), p.trace) && |p.trace| > |old(p.trace)|
      ensures p.trace[|p.trace| - 1] == Traced(SigactionCall, Ignore)
    {
      var ok := p.Setsid();
      assert ok;   // a process that leads no group cannot fail here
      oldUmask := 0;
      if setUmask {
        oldUmask := p.Umask(umask);
      }
      oldAction := p.Sigaction(SIGHUP, SigAction(Ignore, 0));
    }

    /** Enters a session with SIGHUP ignored, and forks. */
    method ForkAgain(p: Process, env: Environment) returns (forked: bool, oldUmask: nat, oldAction: SigAction)
      requires p.Valid() && !p.s.groupLeader
      modifies p
      ensures p.Valid() && forked == env.secondFork
      ensures oldAction == old(p.s.actions)[SIGHUP] && (setUmask ==> oldUmask == old(p.s.umask))
      ensures p.s == old(p.s).(
                sessionLeader := !forked, groupLeader := !forked, terminal := false,
                umask := if setUmask then umask % 0x200 else old(p.s.umask),
                actions := old(p.s.actions)[SIGHUP := SigAction(Ignore, 0)])
      ensures |p.trace| > 1 && p.trace[|p.trace| - 1] == Traced(ForkCall, Ignore)
              && p.trace[|p.trace| - 2] == Traced(SigactionCall, Ignore)
              && NoForks(old(p.trace), p.trace[..|p.trace| - 1])
    {
      oldUmask, oldAction := EnterSession(p);
      ghost var entered := p.trace;
      forked := p.Fork(env.secondFork);
      assert p.trace[..|p.trace| - 1] == entered;
    }

    /** What is done in the child of the second fork. */
    method SettleDown(p: Process, env: Environment, saved: Option<int>, oldAction: SigAction) returns (ending: Ending)
      requires p.Valid() && Faithful(env)
      requires p.s.actions[SIGHUP] == SigAction(Ignore, 0)
      requires p.trace != [] && p.trace[|p.trace| - 1] == Traced(ForkCall, Ignore)
      modifies p
      ensures p.Valid()
      ensures ending in {Daemonized, Terminated, AssertionFailed}
      ensures ending == Terminated <==> closeFds && env.listingOpens
                                        && !OnlyNumbers(env, ListedFds(Without(old(p.s), saved).fds))
      ensures ending == AssertionFailed ==> !env.nullOpens
      ensures ending == Daemonized ==>
                && env.nullOpens
                && p.s == old(p.s).(fds := DaemonFds(Settings(), env, Without(old(p.s), saved).fds),
                                    actions := DaemonActions(Settings(), p.lim,
                                                             old(p.s.actions)[SIGHUP := oldAction]))
      ensures NoForks(old(p.trace), p.trace) && IgnoredFrom(p.trace, |old(p.trace)| - 1)
    {
      ghost var forkAt := |p.trace| - 1;
      if saved.Some? {
        p.Close(saved.value);
      }
      assert p.s == Without(old(p.s), saved);
      ghost var beforeSettling := p.trace;
      SettleSignals(p, oldAction);
      ghost var settled := p.trace;
      ending := RenewDescriptors(p, env);
      IgnoredUntilSettled(beforeSettling, settled, p.trace, forkAt, Hup(p.s));
    }

    /** The last part of daemonize_me: close what is open, then open the null device three times. */
    method RenewDescriptors(p: Process, env: Environment) returns (ending: Ending)
      requires p.Valid() && Faithful(env)
      modifies p
      ensures p.Valid() && p.s == old(p.s).(fds := p.s.fds) && Quiet(old(p.trace), p.trace, Hup(p.s))
      ensures ending in {Daemonized, Terminated, AssertionFailed}
      ensures ending == Terminated <==> closeFds && env.listingOpens && !OnlyNumbers(env, ListedFds(old(p.s.fds)))
      ensures ending == AssertionFailed ==> !env.nullOpens
      ensures ending == Daemonized ==> env.nullOpens && p.s.fds == DaemonFds(Settings(), env, old(p.s.fds))
    {
      var terminated := CloseOpenFiles(p, env);
      if terminated {
        return Terminated;
      }
      var connected := OpenNull(p, env);
      ending := if connected then Daemonized else AssertionFailed;
    }

    /** What the child of the first fork does; `s` is the process that called daemonize_me(). */
    method DaemonizeChild(p: Process, env: Environment, saved: Option<int>, ghost s: Proc)
      returns (ending: Ending, ghost second: nat)
      requires p.Valid() && Faithful(env) && env.firstFork && TargetDir(Settings(), env, s).Some?
      requires !p.s.sessionLeader && !p.s.groupLeader && WellFormed(s, p.lim)
      requires Changed(Settings(), env, p.lim, s, AsBefore(p.s, s), saved)
      requires p.trace != [] && p.trace[|p.trace| - 1].call == ForkCall
      modifies p
      ensures p.Valid() && old(p.trace) <= p.trace
      ensures ending == Threw <==> !env.secondFork
      ensures ending == Threw ==> p.s == AfterFailure(Settings(), env, p.lim, s)
      ensures ending == Terminated <==> env.secondFork && closeFds && env.listingOpens
                                        && !OnlyNumbers(env, ListedFds(s.fds))
      ensures ending == AssertionFailed ==> !env.nullOpens
      ensures ending == Daemonized ==>
                && env.nullOpens
                && p.s == DaemonState(Settings(), env, p.lim, s)
                && ForksAre(old(p.trace)[..|old(p.trace)| - 1], p.trace, |old(p.trace)| - 1, second)
                && p.trace[second - 1] == Traced(SigactionCall, Ignore)
                && IgnoredFrom(p.trace, second)
    {
      ghost var changed := AsBefore(p.s, s);
      var forked, oldUmask, oldAction := ForkAgain(p, env);
      ghost var begun := p.trace;
      second := |p.trace| - 1;
      RestoreUndoesChange(Settings(), env, p.lim, s, changed, saved, p.s);
      assert p.s.actions[SIGHUP := oldAction] == s.actions;
      if !forked {
        LeaveSession(p, env, saved, oldUmask, oldAction);
        return Threw, second;
      }
      ending := SettleDown(p, env, saved, oldAction);
      assert p.trace[..second + 1] == begun && p.trace[..second] == begun[..second];
      TwoForks(old(p.trace), begun[..second], p.trace);
    }

    /**
     Either the surviving process is a daemon, or the call failed: with an exception up to the second fork, or
     abnormally after it. `first` and `second` are the positions of this call's forks in the record of system
     calls.
     */
    method DaemonizeMe(p: Process, env: Environment) returns (ending: Ending, ghost first: nat, ghost second: nat)
      requires p.Valid() && Faithful(env)
      modifies p
      ensures p.Valid() && old(p.trace) <= p.trace
      ensures ending == Threw <==> Fails(Settings(), env, old(p.s))
      ensures ending == Threw ==> p.s == AfterFailure(Settings(), env, p.lim, old(p.s))
      ensures ending == Terminated <==> !Fails(Settings(), env, old(p.s)) && closeFds && env.listingOpens
                                        && !OnlyNumbers(env, ListedFds(old(p.s.fds)))
      ensures ending == Daemonized <==> Succeeds(Settings(), env, old(p.s))
      ensures ending == AssertionFailed ==> !env.nullOpens
      ensures ending == Daemonized ==>
                && env.nullOpens
                && p.s == DaemonState(Settings(), env, p.lim, old(p.s))
                && ForksAre(old(p.trace), p.trace, first, second)
                && p.trace[second - 1] == Traced(SigactionCall, Ignore)
                && IgnoredFrom(p.trace, second)
    {
      first, second := 0, 0;
      var saved, forked := LeaveParent(p, env);
      if !forked {
        return Threw, first, second;
      }
      first := |p.trace| - 1;
      ghost var begun := p.trace[..first];
      ending, second := DaemonizeChild(p, env, saved, old(p.s));
      if ending == Daemonized {
        ForksSince(old(p.trace), begun, p.trace, first, second);
      }
    }

    /** The part that is run by the calling process: change directory and fork. */
    method LeaveParent(p: Process, env: Environment) returns (saved: Option<int>, forked: bool)
      requires p.Valid()
      modifies p
      ensures p.Valid() && old(p.trace) <= p.trace
      ensures forked <==> TargetDir(Settings(), env, old(p.s)).Some? && env.firstFork
      ensures !forked ==> p.s == RolledBack(Settings(), env, p.lim, old(p.s))
      ensures forked ==> && Changed(Settings(), env, p.lim, old(p.s), AsBefore(p.s, old(p.s)), saved)
                         && !p.s.sessionLeader && !p.s.groupLeader
                         && |p.trace| > |old(p.trace)| && p.trace[|p.trace| - 1].call == ForkCall
                         && NoForks(old(p.trace), p.trace[..|p.trace| - 1])
    {
      var ok;
      saved, ok := ChangeDirectory(p, env);
      RestoreRollsBack(Settings(), env, p.lim, old(p.s), p.s, saved);
      if !ok {
        RestoreDirectory(p, env, saved);
        return saved, false;
      }
      forked := p.Fork(env.firstFork);
      if !forked {
        RestoreDirectory(p, env, saved);
      }
    }

    /** Undoes what can be undone after the second fork has failed. */
    method LeaveSession(p: Process, env: Environment, saved: Option<int>, oldUmask: nat, oldAction: SigAction)
      requires p.Valid() && (setUmask ==> oldUmask < 0x200)
      modifies p
      ensures p.Valid() && NoForks(old(p.trace), p.trace)
      ensures p.s == Restored(env, old(p.s), saved).(
                umask := if setUmask then oldUmask else old(p.s.umask),
                actions := old(p.s.actions)[SIGHUP := oldAction])
    {
      if setUmask {
        var _ := p.Umask(oldUmask);
      }
      var _ := p.Sigaction(SIGHUP, oldAction);
      RestoreDirectory(p, env, saved);
    }
  }

  /** The effect of the saved directory's deleter. */
  ghost function Restored(env: Environment, s: Proc, saved: Option<int>): Proc {
    if saved.None? || saved.value == -1 then s
    else
      s.(fds := s.fds - {saved.value},
         cwd := if env.fchdirWorks && saved.value in s.fds && s.fds[saved.value].Directory?
                then s.fds[saved.value].dir else s.cwd)
  }

  /** `s` after the directory has been saved (in descriptor `saved`, or -1) and changed, if it was to be. */
  ghost predicate Changed(cfg: Config, env: Environment, lim: Limits, s: Proc, s': Proc, saved: Option<int>) {
    && (saved.None? <==> cfg.directory == "")
    && (saved.None? ==> s' == s)
    && (saved.Some? ==>
          && (saved.value != -1 <==> Saved(env, lim, s))
          && (saved.value != -1 ==> 0 <= saved.value && saved.value !in s.fds)
          && s' == s.(cwd := if TargetDir(cfg, env, s).Some? then TargetDir(cfg, env, s).value else s.cwd,
                      fds := if saved.value != -1 then s.fds[saved.value := Directory(s.cwd)] else s.fds))
  }

  /** The deleter gives back the descriptor and, if it can, the directory; closing it does the former alone. */
  lemma RestoreUndoesChange(cfg: Config, env: Environment, lim: Limits, s: Proc, s': Proc, saved: Option<int>, t: Proc)
    requires Changed(cfg, env, lim, s, s', saved)
    requires t.fds == s'.fds && t.cwd == s'.cwd
    ensures Restored(env, t, saved) == t.(fds := s.fds, cwd := RolledBack(cfg, env, lim, s).cwd)
    ensures Without(t, saved) == t.(fds := s.fds)
  {
  }

  lemma RestoreRollsBack(cfg: Config, env: Environment, lim: Limits, s: Proc, s': Proc, saved: Option<int>)
    requires Changed(cfg, env, lim, s, s', saved)
    ensures Restored(env, s', saved) == RolledBack(cfg, env, lim, s)
  {
  }

  ghost function AsBefore(child: Proc, s: Proc): Proc {
    child.(sessionLeader := s.sessionLeader, groupLeader := s.groupLeader)
  }

  /** `s` without the descriptor of the saved directory. */
  ghost function Without(s: Proc, saved: Option<int>): Proc {
    if saved.None? then s else s.(fds := s.fds - {saved.value})
  }

  /** The throwing process: rolled back, but in a session of its own if it was the second fork that failed. */
  ghost function AfterFailure(cfg: Config, env: Environment, lim: Limits, s: Proc): Proc {
    if env.firstFork && TargetDir(cfg, env, s).Some?
    then RolledBack(cfg, env, lim, s).(sessionLeader := true, groupLeader := true, terminal := false)
    else RolledBack(cfg, env, lim, s)
  }

  /** SIGHUP is ignored from position `from` on, until a disposition is set again. */
  ghost predicate IgnoredFrom(trace: seq<Traced>, from: nat) {
    forall k :: from <= k < |trace| && (forall j :: from <= j <= k ==> trace[j].call != SigactionCall) ==>
      trace[k].hup == Ignore
  }

  lemma IgnoredUntilSettled(before: seq<Traced>, settled: seq<Traced>, after: seq<Traced>, from: nat, hup: Handler)
    requires from < |before| && (forall k :: from <= k < |before| ==> before[k].hup == Ignore)
    requires before <= settled && (if settled == before then hup == Ignore
                                   else |settled| > |before| && settled[|before|].call == SigactionCall)
    requires Quiet(settled, after, hup)
    ensures IgnoredFrom(after, from)
  {
  }

  // ----- calling it again -----

  /**
   With an absolute directory or none, a second call leaves everything as it is. It throws only if the first one
   does; and after a success it succeeds exactly if, where descriptors are to be closed, the listing that has
   nothing but itself to list holds numbers only.
   */
  lemma CallingAgainIsSafe(cfg: Config, env: Environment, lim: Limits, s: Proc)
    requires AbsolutePathsResolveAlike(env) && WellFormed(s, lim)
    requires cfg.directory == "" || cfg.directory[0] == '/'
    ensures var once := DaemonState(cfg, env, lim, s);
            && DaemonState(cfg, env, lim, once) == once
            && (Fails(cfg, env, once) <==> Fails(cfg, env, s))
            && (Succeeds(cfg, env, s) ==>
                  (Succeeds(cfg, env, once) <==> (cfg.closeFds && env.listingOpens ==> OnlyNumbers(env, {0}))))
  {
    var once := DaemonState(cfg, env, lim, s);
    assert cfg.closeFds && env.listingOpens ==> ListedFds(once.fds) == {0};
  }

  /** In this environment a second call succeeds too, and changes nothing. */
  ghost predicate Repeatable(cfg: Config, env: Environment, lim: Limits, s: Proc) {
    var once := DaemonState(cfg, env, lim, s);
    Succeeds(cfg, env, once) && DaemonState(cfg, env, lim, once) == once
  }

  /** Listings hold the numbers of the open descriptors and nothing else; absolute paths mean one directory. */
  ghost predicate WellBehaved(env: Environment) {
    Faithful(env) && AbsolutePathsResolveAlike(env) && forall open :: OnlyNumbers(env, open)
  }

  /** A listing of a set of descriptors, in some order. */
  ghost function ListOf(open: set<nat>): (r: seq<Entry>)
    ensures forall fd :: Number(fd) in r <==> fd in open
    ensures Word !in r
  {
    if open == {} then []
    else
      var x :| x in open;
      [Number(x)] + ListOf(open - {x})
  }

  /** Nothing fails, and the given path leads one directory further from wherever it is used. */
  ghost function Treadmill(path: string): Environment {
    Environment((d: Dir, q: string) => if q == path then Some(d + 1) else None,
                true, true, true, true, true, (open: set<nat>) => ListOf(open), true)
  }

  /**
   In every well-behaved environment a successful daemonize_me() can be repeated with success and without effect,
   exactly with an absolute directory or none. With a relative one the second call may end up elsewhere.
   */
  lemma RepeatableExactly(cfg: Config, lim: Limits, s: Proc)
    requires WellFormed(s, lim)
    ensures (forall env | WellBehaved(env) && Succeeds(cfg, env, s) :: Repeatable(cfg, env, lim, s))
            <==> cfg.directory == "" || cfg.directory[0] == '/'
  {
    if cfg.directory == "" || cfg.directory[0] == '/' {
      forall env | WellBehaved(env) && Succeeds(cfg, env, s)
        ensures Repeatable(cfg, env, lim, s)
      {
        CallingAgainIsSafe(cfg, env, lim, s);
      }
    } else {
      var env := Treadmill(cfg.directory);
      assert WellBehaved(env) && Succeeds(cfg, env, s);
      var once := DaemonState(cfg, env, lim, s);
      assert once.cwd == s.cwd + 1 && DaemonState(cfg, env, lim, once).cwd == s.cwd + 2;
      assert !Repeatable(cfg, env, lim, s);
    }
  }

  /** Or it may fail, although the first one has succeeded. */
  lemma RelativeDirectoryMayFail(cfg: Config, lim: Limits, s: Proc)
    requires cfg.directory != "" && cfg.directory[0] != '/'
    ensures exists env :: && WellBehaved(env) && Succeeds(cfg, env, s)
                          && Fails(cfg, env, DaemonState(cfg, env, lim, s))
  {
    var env := Treadmill(cfg.directory).(
      resolve := (d: Dir, q: string) => if q == cfg.directory && d == s.cwd then Some(d + 1) else None);
    assert WellBehaved(env) && Succeeds(cfg, env, s);
  }

  // ----- what the state after success means -----

  /** It throws exactly if the directory cannot be changed to or a fork fails. */
  lemma FailsExactly(cfg: Config, env: Environment, s: Proc)
    ensures Fails(cfg, env, s)
            <==> || (cfg.directory != "" && env.resolve(s.cwd, cfg.directory).None?)
                 || !env.firstFork || !env.secondFork
  {
  }

  /** What the listing has to be free of words for: the stream itself, and what is open above 2. */
  lemma SucceedsExactly(cfg: Config, env: Environment, s: Proc)
    ensures Succeeds(cfg, env, s)
            <==> && !(cfg.directory != "" && env.resolve(s.cwd, cfg.directory).None?)
                 && env.firstFork && env.secondFork && env.nullOpens
                 && (cfg.closeFds && env.listingOpens ==>
                       Word !in env.list(set fd | fd in s.fds.Keys + {0} && (fd == 0 || fd > 2)))
  {
    assert ListedFds(s.fds) == set fd | fd in s.fds.Keys + {0} && (fd == 0 || fd > 2);
  }

  /** Where the daemon is, its umask, and that it leads nothing and has no terminal. */
  lemma PlaceAfterSuccess(cfg: Config, env: Environment, lim: Limits, s: Proc)
    requires Succeeds(cfg, env, s)
    ensures var after := DaemonState(cfg, env, lim, s);
            && (cfg.directory == "" ==> after.cwd == s.cwd)
            && (cfg.directory != "" ==> env.resolve(s.cwd, cfg.directory) == Some(after.cwd))
            && (cfg.umask.None? ==> after.umask == s.umask)
            && (cfg.umask.Some? ==> after.umask == cfg.umask.value % 0x200)
            && !after.sessionLeader && !after.groupLeader && !after.terminal
  {
  }

  /**
   After an exception everything is as it was, with two exceptions: if the directory was changed, and could not be
   saved (for lack of a descriptor, say) or gone back to, the change stays; and if it was the second fork that
   failed, the process is in a session of its own.
   */
  lemma StateAfterFailure(cfg: Config, env: Environment, lim: Limits, s: Proc)
    requires Fails(cfg, env, s)
    ensures var after := AfterFailure(cfg, env, lim, s);
            var changed := cfg.directory != "" && env.resolve(s.cwd, cfg.directory).Some?;
            var undone := env.dotOpens && env.fchdirWorks && exists fd: nat :: fd < lim.limit && fd !in s.fds;
            && after.fds == s.fds && after.umask == s.umask && after.actions == s.actions
            && (if changed && !undone then env.resolve(s.cwd, cfg.directory) == Some(after.cwd) else after.cwd == s.cwd)
            && (if env.firstFork && (cfg.directory == "" || changed)
                then after.sessionLeader && after.groupLeader && !after.terminal
                else after == s.(cwd := after.cwd))
  {
  }

  /** Descriptors: the standard three on the null device, the others as they were or gone, and nothing else. */
  lemma DescriptorsAfterSuccess(cfg: Config, env: Environment, lim: Limits, s: Proc, fd: nat)
    ensures var after := DaemonState(cfg, env, lim, s).fds;
            && (fd <= 2 ==> fd in after && after[fd] == DevNull)
            && (fd > 2 && cfg.closeFds && env.listingOpens ==> fd !in after)
            && (cfg.closeFds ==>
                  ((forall d :: d in after ==> d <= 2) <==> env.listingOpens || forall d :: d in s.fds ==> d <= 2))
            && (fd > 2 && !cfg.closeFds ==> (fd in after <==> fd in s.fds) && (fd in s.fds ==> after[fd] == s.fds[fd]))
  {
    var after := DaemonState(cfg, env, lim, s).fds;
    if cfg.closeFds && !env.listingOpens {
      assert forall d :: d in s.fds && d > 2 ==> d in after;
      assert forall d :: d in after && d > 2 ==> d in s.fds;
    }
  }

  /** Signals keep their handlers, or have the default one if asked for and possible. */
  lemma SignalsAfterSuccess(cfg: Config, env: Environment, lim: Limits, s: Proc, sig: int)
    requires WellFormed(s, lim) && 1 <= sig < NSIG
    ensures var after := DaemonState(cfg, env, lim, s).actions;
            && sig in after
            && (!cfg.resetSignals ==> after[sig].handler == s.actions[sig].handler)
            && (!cfg.resetSignals && !(sig == SIGHUP && s.actions[sig].handler == Ignore) ==>
                  after[sig] == s.actions[sig])
            && (cfg.resetSignals && sig in lim.settable ==> after[sig] == SigAction(Default, 0))
            && (sig !in lim.settable ==> after[sig] == s.actions[sig])
  {
  }

  /** Dispositions come back complete exactly if SIGHUP was not ignored with a mask or flags. */
  lemma ActionsRestoredExactly(cfg: Config, lim: Limits, actions: map<int, SigAction>)
    requires SIGHUP in actions && !cfg.resetSignals
    ensures DaemonActions(cfg, lim, actions) == actions
            <==> actions[SIGHUP].handler == Ignore ==> actions[SIGHUP].flags == 0
  {
  }
}
