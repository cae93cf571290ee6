/**
 * The privileged side of dhcpcd's Linux privilege separation: the netlink
 * relay (ps_root_dosendnetlink), the command dispatcher (ps_root_os) and the
 * entry into the seccomp sandbox (ps_seccomp_enter).
 *
 * The kernel and the helpers these call are not modelled: each call is an
 * event in a trace, and what it did is an abstract outcome passed in. A call
 * that fails returns -1 and sets `errno`; one that succeeds returns its value
 * and leaves `errno` alone.
 */
module PrivsepRoot {
  import opened Words
  import opened SeccompData
  import opened Bpf
  import opened PsSeccomp

  // errno values of Linux.
  const EINVAL: int := 22
  const ENOSYS: int := 38
  const ENOTSUP: int := 95

  // prctl(2) options and the seccomp mode.
  const PR_SET_SECCOMP: int := 22
  const PR_SET_NO_NEW_PRIVS: int := 38
  const SECCOMP_MODE_FILTER: int := 2

  /** What an unseen call did: returned a non-negative value, or returned -1 and set `errno`. */
  datatype SysResult = Done(value: nat) | Failed(errno: int)

  /** The value the C code sees returned. */
  function ReturnValue(r: SysResult): (v: int)
    ensures v == -1 <==> r.Failed?
    ensures r.Done? ==> v == r.value
  {
    if r.Failed? then -1 else r.value
  }

  /** struct sock_fprog: a length and the instructions. */
  datatype SockFprog = SockFprog(len: u16, filter: seq<SockFilter>)

  /** The caller's outbound netlink message: opaque bytes, relayed as they are. */
  type Message = seq<u8>

  /** One call the privileged process makes, with its outcome. */
  datatype Event =
    | LinkSocket(protocol: int, result: SysResult)      // if_linksocket(&snl, protocol, 0)
    | SendMsg(fd: nat, msg: Message, result: SysResult) // sendmsg(s, msg, 0)
    | GetNetlink(fd: nat, result: SysResult)            // if_getnetlink(NULL, &riov, s, 0, NULL, NULL)
    | CloseFd(fd: nat, result: SysResult)               // close(s)
    | Prctl(option: int, arg2: int, fprog: Option<SockFprog>, result: SysResult)

  /** The `errno` a run of calls leaves: that of the last one that failed, else the one before them. */
  function ErrnoAfter(e0: int, evs: seq<Event>): int
    decreases |evs|
  {
    if evs == [] then e0
    else
      var last := evs[|evs| - 1];
      if last.result.Failed? then last.result.errno else ErrnoAfter(e0, evs[..|evs| - 1])
  }

  /** Calls made one after another leave `errno` as if made in one run. */
  lemma {:induction false} ErrnoAfterAppend(e0: int, a: seq<Event>, b: seq<Event>)
    ensures ErrnoAfter(e0, a + b) == ErrnoAfter(ErrnoAfter(e0, a), b)
    decreases |b|
  {
    if b != [] {
      var ab := a + b;
      var init := b[..|b| - 1];
      assert ab != [] && ab[..|ab| - 1] == a + init && ab[|ab| - 1] == b[|b| - 1];
      ErrnoAfterAppend(e0, a, init);
    } else {
      assert a + b == a;
    }
  }

  /** If no call of the run fails, `errno` is untouched; otherwise it is set by a call that failed. */
  lemma {:induction false} ErrnoAfterFromFailure(e0: int, evs: seq<Event>)
    ensures (forall i :: 0 <= i < |evs| ==> evs[i].result.Done?) ==> ErrnoAfter(e0, evs) == e0
    ensures (exists i :: 0 <= i < |evs| && evs[i].result.Failed?) ==>
      exists i :: 0 <= i < |evs| && evs[i].result.Failed? && ErrnoAfter(e0, evs) == evs[i].result.errno
    decreases |evs|
  {
    if evs != [] {
      var init := evs[..|evs| - 1];
      ErrnoAfterFromFailure(e0, init);
      forall i | 0 <= i < |init| ensures init[i] == evs[i] {
      }
    }
  }

  // ---------------------------------------------------------------------------
  // ps_root_dosendnetlink

  /** The outcomes of the four calls a relay may make, in order. */
  datatype RelayEnv = RelayEnv(socket: SysResult, send: SysResult, receive: SysResult, close: SysResult)

  /** The calls a relay makes: close only an opened socket, and skip the read when the send failed. */
  function RelayEvents(protocol: int, msg: Message, env: RelayEnv): seq<Event>
  {
    match env.socket
    case Failed(_) => [LinkSocket(protocol, env.socket)]
    case Done(fd) =>
      [LinkSocket(protocol, env.socket), SendMsg(fd, msg, env.send)]
      + (if env.send.Failed? then [] else [GetNetlink(fd, env.receive)])
      + [CloseFd(fd, env.close)]
  }

  /** What a relay returns: -1 if the socket or the send failed, otherwise what the read returned. */
  function RelayResult(env: RelayEnv): (r: int)
    ensures r >= 0 <==> env.socket.Done? && env.send.Done? && env.receive.Done?
    ensures r >= 0 ==> r == env.receive.value
    ensures r < 0 ==> r == -1
  {
    if env.socket.Failed? || env.send.Failed? then -1 else ReturnValue(env.receive)
  }

  function CountCloses(evs: seq<Event>): nat
  {
    if evs == [] then 0 else (if evs[0].CloseFd? then 1 else 0) + CountCloses(evs[1..])
  }

  function CountOpens(evs: seq<Event>): nat
  {
    if evs == [] then 0 else (if evs[0].LinkSocket? then 1 else 0) + CountOpens(evs[1..])
  }

  lemma {:induction false} CountsAppend(a: seq<Event>, b: seq<Event>)
    ensures CountOpens(a + b) == CountOpens(a) + CountOpens(b)
    ensures CountCloses(a + b) == CountCloses(a) + CountCloses(b)
    decreases |a|
  {
    if a != [] {
      assert a + b != [] && (a + b)[0] == a[0] && (a + b)[1..] == a[1..] + b;
      CountsAppend(a[1..], b);
    } else {
      assert a + b == b;
    }
  }

  /**
   * No descriptor leaks: a relay opens exactly once with the protocol it was
   * given; if the open failed nothing more happens (nothing is closed), and
   * otherwise the socket it opened, and only that one, is used and then closed
   * exactly once, as the last call.
   */
  lemma RelayClosesOnce(protocol: int, msg: Message, env: RelayEnv)
    ensures var evs := RelayEvents(protocol, msg, env);
      CountOpens(evs) == 1 && evs[0] == LinkSocket(protocol, env.socket)
      && CountCloses(evs) == (if env.socket.Failed? then 0 else 1)
      && (env.socket.Failed? ==> evs == [LinkSocket(protocol, env.socket)])
      && (env.socket.Done? ==>
            evs[1] == SendMsg(env.socket.value, msg, env.send)
            && evs[|evs| - 1] == CloseFd(env.socket.value, env.close)
            && forall i :: 0 < i < |evs| ==> !evs[i].LinkSocket? && evs[i].fd == env.socket.value)
  {
    var evs := RelayEvents(protocol, msg, env);
    if env.socket.Done? {
      var fd := env.socket.value;
      var open, send := [LinkSocket(protocol, env.socket)], [SendMsg(fd, msg, env.send)];
      var mid := if env.send.Failed? then [] else [GetNetlink(fd, env.receive)];
      var close := [CloseFd(fd, env.close)];
      assert evs == open + send + mid + close;
      CountsAppend(open + send + mid, close);
      CountsAppend(open + send, mid);
      CountsAppend(open, send);
      assert open[1..] == send[1..] == close[1..] == [];
      assert mid != [] ==> mid[1..] == [];
    }
  }

  /**
   * A failed relay reports the failing step's `errno` unless the close that
   * followed failed too; a successful one leaves `errno` as it was, unless close failed.
   */
  lemma RelayErrno(e0: int, protocol: int, msg: Message, env: RelayEnv)
    ensures var e := ErrnoAfter(e0, RelayEvents(protocol, msg, env));
      (env.socket.Failed? ==> e == env.socket.errno)
      && (env.socket.Done? && env.close.Failed? ==> e == env.close.errno)
      && (env.socket.Done? && env.close.Done? ==>
            e == (if env.send.Failed? then env.send.errno
                  else if env.receive.Failed? then env.receive.errno
                  else e0))
  {
    var evs := RelayEvents(protocol, msg, env);
    if env.socket.Done? {
      var fd := env.socket.value;
      var mid := if env.send.Failed? then [] else [GetNetlink(fd, env.receive)];
      assert evs == [LinkSocket(protocol, env.socket), SendMsg(fd, msg, env.send)] + mid + [CloseFd(fd, env.close)];
      ErrnoAfterAppend(e0, [LinkSocket(protocol, env.socket), SendMsg(fd, msg, env.send)] + mid, [CloseFd(fd, env.close)]);
      ErrnoAfterAppend(e0, [LinkSocket(protocol, env.socket), SendMsg(fd, msg, env.send)], mid);
      ErrnoAfterAppend(e0, [LinkSocket(protocol, env.socket)], [SendMsg(fd, msg, env.send)]);
      assert [LinkSocket(protocol, env.socket)] + [SendMsg(fd, msg, env.send)]
          == [LinkSocket(protocol, env.socket), SendMsg(fd, msg, env.send)];
    }
  }

  // ---------------------------------------------------------------------------
  // ps_root_os

  /** The part of struct ps_msghdr the dispatcher reads: the command and its flags (an `unsigned long`). */
  datatype PsMsgHdr = PsMsgHdr(cmd: u16, flags: u64)

  /** The calls ps_root_os makes; `psRoute` is the value of PS_ROUTE. */
  function RootOsEvents(psRoute: u16, psm: PsMsgHdr, msg: Message, env: RelayEnv): seq<Event>
  {
    if psm.cmd == psRoute then RelayEvents(ToInt(psm.flags), msg, env) else []
  }

  function RootOsResult(psRoute: u16, psm: PsMsgHdr, env: RelayEnv): int
  {
    if psm.cmd == psRoute then RelayResult(env) else -1
  }

  function RootOsErrno(e0: int, psRoute: u16, psm: PsMsgHdr, msg: Message, env: RelayEnv): int
  {
    if psm.cmd == psRoute then ErrnoAfter(e0, RootOsEvents(psRoute, psm, msg, env)) else ENOTSUP
  }

  /**
   * The dispatcher fails closed: the routing command performs exactly one
   * relay, for protocol `(int)ps_flags`, and returns its result; any other
   * command makes no call at all, returns -1 and sets ENOTSUP.
   */
  lemma DispatchFailsClosed(e0: int, psRoute: u16, psm: PsMsgHdr, msg: Message, env: RelayEnv)
    ensures var evs := RootOsEvents(psRoute, psm, msg, env);
      if psm.cmd == psRoute then
        CountOpens(evs) == 1 && evs[0] == LinkSocket(ToInt(psm.flags), env.socket)
        && RootOsResult(psRoute, psm, env) == RelayResult(env)
      else
        evs == [] && RootOsResult(psRoute, psm, env) == -1 && RootOsErrno(e0, psRoute, psm, msg, env) == ENOTSUP
  {
    if psm.cmd == psRoute {
      RelayClosesOnce(ToInt(psm.flags), msg, env);
    }
  }

  // ---------------------------------------------------------------------------
  // ps_seccomp_enter

  /** ps_seccomp_prog: the filter with its length cast to `unsigned short`. */
  function SeccompProg(t: Target): SockFprog
  {
    SockFprog(|Filter(t)| % 0x1_0000, Filter(t))
  }

  /** The `unsigned short` cast keeps the whole length, and the program is one the kernel accepts. */
  lemma SeccompProgLength(t: Target)
    ensures SeccompProg(t).len == |SeccompProg(t).filter|
    ensures WellFormed(SeccompProg(t).filter)
  {
    FilterWellFormed(t);
  }

  /** The prctl calls of ps_seccomp_enter: the second only when the first succeeded. */
  function EnterEvents(t: Target, noNewPrivs: SysResult, setFilter: SysResult): seq<Event>
  {
    [Prctl(PR_SET_NO_NEW_PRIVS, 1, None, noNewPrivs)]
    + (if noNewPrivs.Failed? then [] else [Prctl(PR_SET_SECCOMP, SECCOMP_MODE_FILTER, Some(SeccompProg(t)), setFilter)])
  }

  function EnterResult(noNewPrivs: SysResult, setFilter: SysResult): int
  {
    if noNewPrivs.Failed? || setFilter.Failed? then -1 else 0
  }

  /** `errno` after ps_seccomp_enter: on failure EINVAL becomes ENOSYS. */
  function EnterErrno(e0: int, t: Target, noNewPrivs: SysResult, setFilter: SysResult): int
  {
    var e := ErrnoAfter(e0, EnterEvents(t, noNewPrivs, setFilter));
    if EnterResult(noNewPrivs, setFilter) == -1 && e == EINVAL then ENOSYS else e
  }

  /**
   * ps_seccomp_enter returns 0 exactly when both prctl calls succeed; it tries
   * to install the filter only after no-new-privs is set; on success `errno`
   * is untouched, and on failure it is the failing call's, with EINVAL
   * reported as ENOSYS and every other value kept.
   */
  lemma EnterContract(e0: int, t: Target, noNewPrivs: SysResult, setFilter: SysResult)
    ensures (EnterResult(noNewPrivs, setFilter) == 0) <==> noNewPrivs.Done? && setFilter.Done?
    ensures EnterResult(noNewPrivs, setFilter) == 0 || EnterResult(noNewPrivs, setFilter) == -1
    ensures var evs := EnterEvents(t, noNewPrivs, setFilter);
      evs[0] == Prctl(PR_SET_NO_NEW_PRIVS, 1, None, noNewPrivs)
      && |evs| == (if noNewPrivs.Done? then 2 else 1)
      && (noNewPrivs.Done? ==> evs[1].option == PR_SET_SECCOMP && evs[1].fprog == Some(SeccompProg(t)))
    ensures var e := EnterErrno(e0, t, noNewPrivs, setFilter);
      var failed := if noNewPrivs.Failed? then noNewPrivs.errno else if setFilter.Failed? then setFilter.errno else e0;
      if EnterResult(noNewPrivs, setFilter) == 0 then e == e0
      else e == (if failed == EINVAL then ENOSYS else failed) && e != EINVAL
  {
    ErrnoAfterFromFailure(e0, EnterEvents(t, noNewPrivs, setFilter));
  }

  // ---------------------------------------------------------------------------
  // The process: its `errno` and the calls it has made.

  class Host {
    var errno: int
    var trace: seq<Event>

    constructor ()
      ensures errno == 0 && trace == []
    {
      errno := 0;
      trace := [];
    }

    /** Makes one unseen call: records it, and sets `errno` when it fails. */
    method Call(e: Event) returns (ret: int)
      modifies this
      ensures ret == ReturnValue(e.result)
      ensures trace == old(trace) + [e]
      ensures errno == ErrnoAfter(old(errno), [e])
    {
      trace := trace + [e];
      if e.result.Failed? {
        errno := e.result.errno;
      }
      ret := ReturnValue(e.result);
      assert [e][..0] == [];
    }

    /** ps_root_dosendnetlink: open, send, read the reply unless the send failed, close. */
    method DoSendNetlink(protocol: int, msg: Message, env: RelayEnv) returns (retval: int)
      modifies this
      ensures retval == RelayResult(env)
      ensures trace == old(trace) + RelayEvents(protocol, msg, env)
      ensures errno == ErrnoAfter(old(errno), RelayEvents(protocol, msg, env))
    {
      ghost var e0 := errno;
      var s := Call(LinkSocket(protocol, env.socket));
      if s == -1 {
        return -1;
      }
      var fd: nat := s;
      ghost var done := [LinkSocket(protocol, env.socket)];
      var sent := Call(SendMsg(fd, msg, env.send));
      ErrnoAfterAppend(e0, done, [SendMsg(fd, msg, env.send)]);
      done := done + [SendMsg(fd, msg, env.send)];
      if sent == -1 {
        retval := -1;
      } else {
        retval := Call(GetNetlink(fd, env.receive));
        ErrnoAfterAppend(e0, done, [GetNetlink(fd, env.receive)]);
        done := done + [GetNetlink(fd, env.receive)];
      }
      var _ := Call(CloseFd(fd, env.close));
      ErrnoAfterAppend(e0, done, [CloseFd(fd, env.close)]);
      done := done + [CloseFd(fd, env.close)];
      assert done == RelayEvents(protocol, msg, env);
    }

    /**
     * ps_root_os: the routing command relays once, with `(int)ps_flags` as the
     * netlink protocol, and returns the relay's result; any other command
     * fails with ENOTSUP and makes no call. The value of PS_ROUTE is `psRoute`.
     */
    method RootOs(psRoute: u16, psm: PsMsgHdr, msg: Message, env: RelayEnv) returns (r: int)
      modifies this
      ensures r == RootOsResult(psRoute, psm, env)
      ensures trace == old(trace) + RootOsEvents(psRoute, psm, msg, env)
      ensures errno == RootOsErrno(old(errno), psRoute, psm, msg, env)
    {
      if psm.cmd == psRoute {
        r := DoSendNetlink(ToInt(psm.flags), msg, env);
      } else {
        errno := ENOTSUP;
        r := -1;
        assert trace == old(trace) + [];
      }
    }

    /** ps_seccomp_enter: set no-new-privs, then install the filter; EINVAL is reported as ENOSYS. */
    method SeccompEnter(t: Target, noNewPrivs: SysResult, setFilter: SysResult) returns (r: int)
      modifies this
      ensures r == EnterResult(noNewPrivs, setFilter)
      ensures trace == old(trace) + EnterEvents(t, noNewPrivs, setFilter)
      ensures errno == EnterErrno(old(errno), t, noNewPrivs, setFilter)
    {
      ghost var e0 := errno;
      var first := Prctl(PR_SET_NO_NEW_PRIVS, 1, None, noNewPrivs);
      var ret := Call(first);
      if ret != -1 {
        var second := Prctl(PR_SET_SECCOMP, SECCOMP_MODE_FILTER, Some(SeccompProg(t)), setFilter);
        ret := Call(second);
        ErrnoAfterAppend(e0, [first], [second]);
        assert [first] + [second] == EnterEvents(t, noNewPrivs, setFilter);
      }
      if ret == -1 {
        if errno == EINVAL {
          errno := ENOSYS;
        }
        return -1;
      }
      return 0;
    }
  }
}
