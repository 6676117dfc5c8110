/**
 An abstract POSIX process and the system calls daemonize_me() makes.

 Whether a call that can fail does fail is decided by the environment and passed in. Descriptors are allocated
 lowest number first (section 2.14, "File Descriptor Allocation", of POSIX.1-2017, System Interfaces).
 */
module Processes {
  import opened Options

  type Dir = nat

  datatype Target = DevNull | Directory(dir: Dir) | DescriptorListing | Other(id: nat)

  datatype Handler = Default | Ignore | Custom(id: nat)

  /** struct sigaction: the handler, and mask and flags taken together (0 after memset). */
  datatype SigAction = SigAction(handler: Handler, flags: nat)

  const SIGHUP: int := 1
  const NSIG: int := 65

  datatype Proc = Proc(
    fds: map<nat, Target>,
    cwd: Dir,
    umask: nat,
    actions: map<int, SigAction>,
    sessionLeader: bool,
    groupLeader: bool,
    terminal: bool)

  /**
   The system limits: descriptors are below `limit` (POSIX guarantees 20); `settable` are the signals that
   sigaction() accepts.
   */
  datatype Limits = Limits(limit: nat, settable: set<int>)

  ghost predicate WellFormed(s: Proc, lim: Limits) {
    && s.umask < 0x200 && 20 <= lim.limit
    && (forall sig :: sig in s.actions <==> 1 <= sig < NSIG)
    && lim.settable <= s.actions.Keys && SIGHUP in lim.settable
  }

  function LowestFrom(fds: map<nat, Target>, k: nat, limit: nat): (r: Option<nat>)
    ensures r.Some? ==> k <= r.value < limit && r.value !in fds && forall j :: k <= j < r.value ==> j in fds
    ensures r.None? ==> forall j :: k <= j < limit ==> j in fds
    decreases limit - k
  {
    if limit <= k then None else if k !in fds then Some(k) else LowestFrom(fds, k + 1, limit)
  }

  function LowestFree(fds: map<nat, Target>, lim: Limits): Option<nat> {
    LowestFrom(fds, 0, lim.limit)
  }

  lemma LowestFreeIs(fds: map<nat, Target>, k: nat, lim: Limits)
    requires k !in fds && k < lim.limit && forall j: nat :: j < k ==> j in fds
    ensures LowestFree(fds, lim) == Some(k)
  {
  }

  /** fds with one more open descriptor, and its number, or -1. */
  function Opened(fds: map<nat, Target>, t: Target, lim: Limits, works: bool): (r: (map<nat, Target>, int))
    ensures r.1 == -1 <==> r.0 == fds
    ensures r.1 == -1 <==> !works || LowestFree(fds, lim).None?
    ensures r.1 != -1 ==> 0 <= r.1 && r.1 !in fds && r.0 == fds[r.1 := t]
  {
    var free := LowestFree(fds, lim);
    if !works || free.None? then (fds, -1)
    else
      assert free.value in fds[free.value := t];
      (fds[free.value := t], free.value)
  }

  datatype CallName = OpenCall | CloseCall | DupCall | ChdirCall | FchdirCall | ForkCall | SetsidCall | UmaskCall
                    | SigactionCall

  /** One entry of the record of system calls: the call, and what SIGHUP would do right after it. */
  datatype Traced = Traced(call: CallName, hup: Handler)

  class Process {
    var s: Proc
    const lim: Limits
    ghost var trace: seq<Traced>

    ghost predicate Valid()
      reads this
    {
      WellFormed(s, lim)
    }

    ghost function Traces(call: CallName): Traced
      requires Valid()
      reads this
    {
      Traced(call, s.actions[SIGHUP].handler)
    }

    constructor (s: Proc, lim: Limits)
      requires WellFormed(s, lim)
      ensures Valid() && this.s == s && this.lim == lim && trace == []
    {
      this.s := s;
      this.lim := lim;
      trace := [];
    }

    method Open(t: Target, works: bool) returns (fd: int)
      requires Valid()
      modifies this
      ensures Valid() && trace == old(trace) + [Traces(OpenCall)]
      ensures (s.fds, fd) == Opened(old(s.fds), t, lim, works) && s == old(s).(fds := s.fds)
    {
      var r := Opened(s.fds, t, lim, works);
      s := s.(fds := r.0);
      fd := r.1;
      trace := trace + [Traces(OpenCall)];
    }

    /** Closing a number that is not open does nothing (EBADF). */
    method Close(fd: int)
      requires Valid()
      modifies this
      ensures Valid() && trace == old(trace) + [Traces(CloseCall)]
      ensures s == old(s).(fds := old(s.fds) - {fd})
    {
      s := s.(fds := s.fds - {fd});
      trace := trace + [Traces(CloseCall)];
    }

    method Dup(fd: int) returns (r: int)
      requires Valid()
      modifies this
      ensures Valid() && trace == old(trace) + [Traces(DupCall)]
      ensures fd in old(s.fds) ==> (s.fds, r) == Opened(old(s.fds), old(s.fds)[fd], lim, true)
      ensures fd !in old(s.fds) ==> r == -1 && s.fds == old(s.fds)
      ensures s == old(s).(fds := s.fds)
    {
      r := -1;
      if fd in s.fds {
        var copied := Opened(s.fds, s.fds[fd], lim, true);
        s := s.(fds := copied.0);
        r := copied.1;
      }
      trace := trace + [Traces(DupCall)];
    }

    method Chdir(target: Option<Dir>) returns (ok: bool)
      requires Valid()
      modifies this
      ensures Valid() && trace == old(trace) + [Traces(ChdirCall)]
      ensures ok == target.Some?
      ensures s == if ok then old(s).(cwd := target.value) else old(s)
    {
      ok := target.Some?;
      if ok {
        s := s.(cwd := target.value);
      }
      trace := trace + [Traces(ChdirCall)];
    }

    method Fchdir(fd: int, works: bool)
      requires Valid()
      modifies this
      ensures Valid() && trace == old(trace) + [Traces(FchdirCall)]
      ensures s == if works && fd in old(s.fds) && old(s.fds)[fd].Directory?
                   then old(s).(cwd := old(s.fds)[fd].dir) else old(s)
    {
      if works && fd in s.fds && s.fds[fd].Directory? {
        s := s.(cwd := s.fds[fd].dir);
      }
      trace := trace + [Traces(FchdirCall)];
    }

    /** On success the caller goes on as the child, and the parent exits. */
    method Fork(works: bool) returns (ok: bool)
      requires Valid()
      modifies this
      ensures Valid() && trace == old(trace) + [Traces(ForkCall)]
      ensures ok == works
      ensures s == if ok then old(s).(sessionLeader := false, groupLeader := false) else old(s)
    {
      ok := works;
      if ok {
        s := s.(sessionLeader := false, groupLeader := false);
      }
      trace := trace + [Traces(ForkCall)];
    }

    method Setsid() returns (ok: bool)
      requires Valid()
      modifies this
      ensures Valid() && trace == old(trace) + [Traces(SetsidCall)]
      ensures ok == !old(s.groupLeader)
      ensures s == if ok then old(s).(sessionLeader := true, groupLeader := true, terminal := false) else old(s)
    {
      ok := !s.groupLeader;
      if ok {
        s := s.(sessionLeader := true, groupLeader := true, terminal := false);
      }
      trace := trace + [Traces(SetsidCall)];
    }

    method Umask(mask: nat) returns (previous: nat)
      requires Valid()
      modifies this
      ensures Valid() && trace == old(trace) + [Traces(UmaskCall)]
      ensures previous == old(s.umask) && s == old(s).(umask := mask % 0x200)
    {
      previous := s.umask;
      s := s.(umask := mask % 0x200);
      trace := trace + [Traces(UmaskCall)];
    }

    /** Fails without effect for signals that cannot be changed, such as SIGKILL and SIGSTOP. */
    method Sigaction(sig: int, action: SigAction) returns (previous: SigAction)
      requires Valid() && 1 <= sig < NSIG
      modifies this
      ensures Valid() && trace == old(trace) + [Traces(SigactionCall)]
      ensures previous == old(s.actions)[sig]
      ensures s == if sig in lim.settable then old(s).(actions := old(s.actions)[sig := action]) else old(s)
    {
      previous := s.actions[sig];
      if sig in lim.settable {
        s := s.(actions := s.actions[sig := action]);
      }
      trace := trace + [Traces(SigactionCall)];
    }
  }
}
