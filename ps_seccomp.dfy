/**
 * The seccomp allow-list of the privileged dhcpcd process on Linux
 * (ps_seccomp_filter in src/privsep-linux.c), as a function of the build target.
 *
 * The program is: load `arch` and kill on a mismatch; load `nr`; one block per
 * allowed system call whose number the target defines (SECCOMP_ALLOW, two
 * instructions), five argument-checked blocks for `ioctl` (SECCOMP_ALLOW_ARG,
 * seven instructions each); and a final kill. Which `__NR_*` macros exist is
 * the target's business, so the target is a parameter: a map from the system
 * calls the filter names to the numbers it defines.
 */
module PsSeccomp {
  import opened Words
  import opened SeccompData
  import opened Bpf

  /** SECCOMP_RET_KILL (SECCOMP_RET_KILL_THREAD), which SECCOMP_FILTER_FAIL names. */
  const SECCOMP_RET_KILL: u32 := 0x0000_0000
  const SECCOMP_RET_ALLOW: u32 := 0x7fff_0000
  const SECCOMP_FILTER_FAIL: u32 := SECCOMP_RET_KILL

  // Interface request codes of linux/sockios.h.
  const SIOCGIFFLAGS: u64 := 0x8913
  const SIOCGIFMTU: u64 := 0x8921
  const SIOCGIFHWADDR: u64 := 0x8927
  const SIOCGIFINDEX: u64 := 0x8933
  const SIOCGIFVLAN: u64 := 0x8982

  /** The only `ioctl` requests (argument 1) the privileged process may make. */
  const IOCTL_REQUESTS: set<u64> := {SIOCGIFFLAGS, SIOCGIFHWADDR, SIOCGIFINDEX, SIOCGIFMTU, SIOCGIFVLAN}

  /** Every system call the filter names, one per `#ifdef __NR_*` guard. */
  datatype Syscall =
    | Accept | Brk | ClockGettime | ClockGettime64 | Close | ExitGroup | Fcntl
    | Fstat | Gettimeofday | Getpid | Ioctl | Mmap | Munmap | Ppoll | PpollTime64
    | Read | Readv | Recvfrom | Recvmsg | RtSigreturn | Sendmsg | Sendto
    | Shutdown | Wait4 | Write | Writev | Uname

  /**
   * A build target: its SECCOMP_AUDIT_ARCH, its byte order, the numbers of the
   * system calls it defines, and `__X32_SYSCALL_BIT` when it is an x32 build
   * (`__x86_64__` with `__ILP32__`).
   */
  datatype Target = Target(auditArch: u32, order: ByteOrder, nr: map<Syscall, u32>, x32Bit: Option<u32>)

  /** One allow rule: a system call number, optionally with one argument pinned to a value. */
  datatype Rule = Allow(nr: u32) | AllowArg(nr: u32, arg: ArgIndex, val: u64)

  /** Whether a rule lets system call `d` through. */
  predicate Matches(r: Rule, d: Data)
  {
    match r
    case Allow(n) => d.nr == n
    case AllowArg(n, a, v) => d.nr == n && d.args[a] == v
  }

  predicate AnyMatch(rules: seq<Rule>, d: Data)
  {
    exists i :: 0 <= i < |rules| && Matches(rules[i], d)
  }

  /** How many instructions each macro expands to. */
  function BlockSize(r: Rule): nat
  {
    if r.Allow? then 2 else 7
  }

  /** The instructions SECCOMP_ALLOW and SECCOMP_ALLOW_ARG expand to. */
  function Block(r: Rule, order: ByteOrder): (b: seq<SockFilter>)
    ensures |b| == BlockSize(r)
  {
    match r
    case Allow(n) => [
      Jump(JMP_JEQ_K, n, 0, 1),
      Stmt(RET_K, SECCOMP_RET_ALLOW)]
    case AllowArg(n, a, v) => [
      Jump(JMP_JEQ_K, n, 0, 6),
      Stmt(LD_W_ABS, ArgOffset(a) + ArgLo(order)),
      Jump(JMP_JEQ_K, Lo(v), 0, 3),
      Stmt(LD_W_ABS, ArgOffset(a) + ArgHi(order)),
      Jump(JMP_JEQ_K, Hi(v), 0, 1),
      Stmt(RET_K, SECCOMP_RET_ALLOW),
      Stmt(LD_W_ABS, OFFSET_NR)]
  }

  function Compile(rules: seq<Rule>, order: ByteOrder): seq<SockFilter>
  {
    if rules == [] then [] else Block(rules[0], order) + Compile(rules[1..], order)
  }

  /** One SECCOMP_ALLOW rule for each of `ss` that the target defines, in order. */
  function AllowEach(t: Target, ss: seq<Syscall>): seq<Rule>
  {
    if ss == [] then []
    else (if ss[0] in t.nr then [Allow(t.nr[ss[0]])] else []) + AllowEach(t, ss[1..])
  }

  const FIRST: seq<Syscall> := [Accept, Brk, ClockGettime]
  const BEFORE_IOCTL: seq<Syscall> := [ClockGettime64, Close, ExitGroup, Fcntl, Fstat, Gettimeofday, Getpid]
  const AFTER_IOCTL: seq<Syscall> :=
    [Mmap, Munmap, Ppoll, PpollTime64, Read, Readv, Recvfrom, Recvmsg, RtSigreturn,
     Sendmsg, Sendto, Shutdown, Wait4, Write, Writev, Uname]

  /** On x32, `clock_gettime` is also allowed under its number without the x32 bit. */
  function X32Rules(t: Target): seq<Rule>
  {
    if t.x32Bit.Some? && ClockGettime in t.nr then [Allow(AndNot(t.nr[ClockGettime], t.x32Bit.value))] else []
  }

  function IoctlRules(t: Target): seq<Rule>
  {
    if Ioctl in t.nr then
      var n := t.nr[Ioctl];
      [AllowArg(n, 1, SIOCGIFFLAGS), AllowArg(n, 1, SIOCGIFHWADDR), AllowArg(n, 1, SIOCGIFINDEX),
       AllowArg(n, 1, SIOCGIFMTU), AllowArg(n, 1, SIOCGIFVLAN)]
    else []
  }

  /** The allow rules in the order the filter lists them. */
  function Rules(t: Target): seq<Rule>
  {
    AllowEach(t, FIRST) + X32Rules(t) + AllowEach(t, BEFORE_IOCTL) + IoctlRules(t) + AllowEach(t, AFTER_IOCTL)
  }

  /** The architecture check and the load of `nr` that open the filter. */
  function Prologue(t: Target): seq<SockFilter>
  {
    [Stmt(LD_W_ABS, OFFSET_ARCH),
     Jump(JMP_JEQ_K, t.auditArch, 1, 0),
     Stmt(RET_K, SECCOMP_FILTER_FAIL),
     Stmt(LD_W_ABS, OFFSET_NR)]
  }

  /** ps_seccomp_filter for target `t`. */
  function Filter(t: Target): seq<SockFilter>
  {
    Prologue(t) + Compile(Rules(t), t.order) + [Stmt(RET_K, SECCOMP_FILTER_FAIL)]
  }

  // ---------------------------------------------------------------------------
  // Reference policy: what the filter is meant to allow, stated without BPF.

  /** Numbers allowed whatever the arguments: every defined system call but `ioctl`, and the x32 alias. */
  function PlainAllowed(t: Target): set<u32>
  {
    (set s | s in t.nr && s != Ioctl :: t.nr[s])
    + (if t.x32Bit.Some? && ClockGettime in t.nr then {AndNot(t.nr[ClockGettime], t.x32Bit.value)} else {})
  }

  /** An `ioctl` whose request code is one of the five. */
  predicate IoctlPermitted(t: Target, d: Data)
  {
    Ioctl in t.nr && d.nr == t.nr[Ioctl] && d.args[1] in IOCTL_REQUESTS
  }

  /** The action the filter is meant to return for system call `d`. */
  function Verdict(t: Target, d: Data): u32
  {
    if d.arch != t.auditArch then SECCOMP_RET_KILL
    else if d.nr in PlainAllowed(t) || IoctlPermitted(t, d) then SECCOMP_RET_ALLOW
    else SECCOMP_RET_KILL
  }

  // ---------------------------------------------------------------------------
  // The two macro blocks, wherever they stand in a program.

  /**
   * SECCOMP_ALLOW(n): returns ALLOW exactly when the accumulator holds `n`, and
   * otherwise falls through to the instruction after the block with the
   * accumulator untouched.
   */
  lemma AllowBlockRuns(prog: seq<SockFilter>, d: Data, order: ByteOrder, p: nat, acc: u32, n: u32)
    requires p + 2 <= |prog| && prog[p..p + 2] == Block(Allow(n), order)
    ensures Eval(prog, d, order, p, acc) ==
      if acc == n then Ret(SECCOMP_RET_ALLOW, p + 1) else Eval(prog, d, order, p + 2, acc)
  {
    assert prog[p] == prog[p..p + 2][0] && prog[p + 1] == prog[p..p + 2][1];
  }

  /**
   * SECCOMP_ALLOW_ARG(n, a, v), entered with `nr` in the accumulator: returns
   * ALLOW exactly when `nr == n` and both 32-bit halves of `args[a]` are those of
   * `v`, which is 64-bit equality. Every mismatch (jf = 6, 3 or 1) leaves the
   * block at its end, with `nr` in the accumulator again.
   */
  lemma AllowArgBlockRuns(prog: seq<SockFilter>, d: Data, order: ByteOrder, p: nat, acc: u32,
                          n: u32, a: ArgIndex, v: u64)
    requires p + 7 <= |prog| && prog[p..p + 7] == Block(AllowArg(n, a, v), order)
    ensures Eval(prog, d, order, p, acc) ==
      if acc == n && d.args[a] == v then Ret(SECCOMP_RET_ALLOW, p + 5)
      else Eval(prog, d, order, p + 7, if acc == n then d.nr else acc)
  {
    var w := prog[p..p + 7];
    assert prog[p] == w[0] && prog[p + 1] == w[1] && prog[p + 2] == w[2];
    assert prog[p + 3] == w[3] && prog[p + 4] == w[4] && prog[p + 5] == w[5] && prog[p + 6] == w[6];
    JumpStep(prog, d, order, p, acc);
    if acc == n {
      ArgCheckRuns(prog, d, order, p + 1, acc, a, v);
    }
  }

  /** The last six instructions of SECCOMP_ALLOW_ARG: the two half-word comparisons and the reload of `nr`. */
  lemma ArgCheckRuns(prog: seq<SockFilter>, d: Data, order: ByteOrder, q: nat, acc: u32, a: ArgIndex, v: u64)
    requires q + 6 <= |prog|
    requires prog[q] == Stmt(LD_W_ABS, ArgOffset(a) + ArgLo(order))
    requires prog[q + 1] == Jump(JMP_JEQ_K, Lo(v), 0, 3)
    requires prog[q + 2] == Stmt(LD_W_ABS, ArgOffset(a) + ArgHi(order))
    requires prog[q + 3] == Jump(JMP_JEQ_K, Hi(v), 0, 1)
    requires prog[q + 4] == Stmt(RET_K, SECCOMP_RET_ALLOW)
    requires prog[q + 5] == Stmt(LD_W_ABS, OFFSET_NR)
    ensures Eval(prog, d, order, q, acc) ==
      if d.args[a] == v then Ret(SECCOMP_RET_ALLOW, q + 4) else Eval(prog, d, order, q + 6, d.nr)
  {
    ArgWords(d, order, a);
    HeaderWords(d, order);
    HalvesEqual(d.args[a], v);
    var lo, hi := Lo(d.args[a]), Hi(d.args[a]);
    LoadStep(prog, d, order, q, acc, lo);
    JumpStep(prog, d, order, q + 1, lo);
    LoadStep(prog, d, order, q + 5, lo, d.nr);
    if lo == Lo(v) {
      LoadStep(prog, d, order, q + 2, lo, hi);
      JumpStep(prog, d, order, q + 3, hi);
      LoadStep(prog, d, order, q + 5, hi, d.nr);
      RetStep(prog, d, order, q + 4, hi);
    }
  }

  lemma AnyMatchCons(rules: seq<Rule>, d: Data)
    requires rules != []
    ensures AnyMatch(rules, d) <==> Matches(rules[0], d) || AnyMatch(rules[1..], d)
  {
    if AnyMatch(rules, d) && !Matches(rules[0], d) {
      var i :| 0 <= i < |rules| && Matches(rules[i], d);
      assert rules[1..][i - 1] == rules[i];
    }
    if AnyMatch(rules[1..], d) {
      var i :| 0 <= i < |rules[1..]| && Matches(rules[1..][i], d);
      assert rules[i + 1] == rules[1..][i];
    }
  }

  /** Either macro block, entered with `nr` loaded: ALLOW from inside it when the rule matches, else on to its end. */
  lemma BlockRuns(prog: seq<SockFilter>, d: Data, order: ByteOrder, p: nat, r: Rule)
    requires p + BlockSize(r) <= |prog| && prog[p..p + BlockSize(r)] == Block(r, order)
    ensures var o := Eval(prog, d, order, p, d.nr);
      Matches(r, d) ==> o.Ret? && o.k == SECCOMP_RET_ALLOW && p <= o.at < p + BlockSize(r)
    ensures !Matches(r, d) ==> Eval(prog, d, order, p, d.nr) == Eval(prog, d, order, p + BlockSize(r), d.nr)
  {
    match r
    case Allow(n) => AllowBlockRuns(prog, d, order, p, d.nr, n);
    case AllowArg(n, a, v) => AllowArgBlockRuns(prog, d, order, p, d.nr, n, a, v);
  }

  lemma SliceSplit(prog: seq<SockFilter>, p: nat, b: seq<SockFilter>, rest: seq<SockFilter>)
    requires p + |b| + |rest| <= |prog| && prog[p..p + |b| + |rest|] == b + rest
    ensures prog[p..p + |b|] == b && prog[p + |b|..p + |b| + |rest|] == rest
  {
    var window := prog[p..p + |b| + |rest|];
    assert window[..|b|] == prog[p..p + |b|];
    assert window[|b|..] == prog[p + |b|..p + |b| + |rest|];
  }

  /** The number of instructions the rules compile to. */
  function Size(rules: seq<Rule>): nat
  {
    if rules == [] then 0 else BlockSize(rules[0]) + Size(rules[1..])
  }

  /** The blocks of `rules` stand one after another in `prog` from `p` on. */
  predicate Placed(prog: seq<SockFilter>, p: nat, rules: seq<Rule>, order: ByteOrder)
    decreases rules
  {
    if rules == [] then p <= |prog|
    else
      p + BlockSize(rules[0]) <= |prog| && prog[p..p + BlockSize(rules[0])] == Block(rules[0], order)
      && Placed(prog, p + BlockSize(rules[0]), rules[1..], order)
  }

  /** Compiled code copied into a program places its blocks there. */
  lemma {:induction false} CompilePlaced(prog: seq<SockFilter>, p: nat, rules: seq<Rule>, order: ByteOrder)
    requires p + |Compile(rules, order)| <= |prog|
    requires prog[p..p + |Compile(rules, order)|] == Compile(rules, order)
    ensures Placed(prog, p, rules, order) && |Compile(rules, order)| == Size(rules)
    decreases rules
  {
    if rules != [] {
      var b := Block(rules[0], order);
      var rest := Compile(rules[1..], order);
      assert Compile(rules, order) == b + rest;
      SliceSplit(prog, p, b, rest);
      CompilePlaced(prog, p + |b|, rules[1..], order);
    }
  }

  /**
   * A run of compiled rules entered with `nr` in the accumulator returns ALLOW
   * from inside the run when some rule matches, and otherwise leaves it at its
   * end with `nr` still in the accumulator.
   */
  lemma {:induction false} RulesRun(prog: seq<SockFilter>, d: Data, order: ByteOrder, p: nat, rules: seq<Rule>)
    requires Placed(prog, p, rules, order)
    ensures var o := Eval(prog, d, order, p, d.nr);
      AnyMatch(rules, d) ==> o.Ret? && o.k == SECCOMP_RET_ALLOW && p <= o.at < p + Size(rules)
    ensures !AnyMatch(rules, d) ==> Eval(prog, d, order, p, d.nr) == Eval(prog, d, order, p + Size(rules), d.nr)
    decreases rules
  {
    if rules != [] {
      AnyMatchCons(rules, d);
      BlockRuns(prog, d, order, p, rules[0]);
      RulesRun(prog, d, order, p + BlockSize(rules[0]), rules[1..]);
    }
  }

  // ---------------------------------------------------------------------------
  // From the rule table to the reference policy.

  lemma AnyMatchAppend(a: seq<Rule>, b: seq<Rule>, d: Data)
    ensures AnyMatch(a + b, d) <==> AnyMatch(a, d) || AnyMatch(b, d)
  {
    if AnyMatch(a + b, d) {
      var i :| 0 <= i < |a + b| && Matches((a + b)[i], d);
      if i >= |a| {
        assert b[i - |a|] == (a + b)[i];
      }
    }
    if AnyMatch(b, d) {
      var i :| 0 <= i < |b| && Matches(b[i], d);
      assert (a + b)[|a| + i] == b[i];
    }
    if AnyMatch(a, d) {
      var i :| 0 <= i < |a| && Matches(a[i], d);
      assert (a + b)[i] == a[i];
    }
  }

  lemma {:induction false} AllowEachMatches(t: Target, ss: seq<Syscall>, d: Data)
    ensures AnyMatch(AllowEach(t, ss), d) <==> exists s :: s in ss && s in t.nr && t.nr[s] == d.nr
  {
    if ss != [] {
      var head := if ss[0] in t.nr then [Allow(t.nr[ss[0]])] else [];
      AnyMatchAppend(head, AllowEach(t, ss[1..]), d);
      AllowEachMatches(t, ss[1..], d);
      if head != [] {
        AnyMatchCons(head, d);
      }
      if exists s :: s in ss && s in t.nr && t.nr[s] == d.nr {
        var s :| s in ss && s in t.nr && t.nr[s] == d.nr;
        if s != ss[0] {
          assert s in ss[1..];
        }
      }
    }
  }

  /** The three lists name every system call of the filter except `ioctl`. */
  lemma ListsCoverAllButIoctl(s: Syscall)
    ensures s != Ioctl <==> s in FIRST || s in BEFORE_IOCTL || s in AFTER_IOCTL
  {
  }

  lemma IoctlRulesMatch(t: Target, d: Data)
    ensures AnyMatch(IoctlRules(t), d) <==> IoctlPermitted(t, d)
  {
    var rs := IoctlRules(t);
    if Ioctl in t.nr {
      if IoctlPermitted(t, d) {
        var v := d.args[1];
        var i := if v == SIOCGIFFLAGS then 0 else if v == SIOCGIFHWADDR then 1
                 else if v == SIOCGIFINDEX then 2 else if v == SIOCGIFMTU then 3 else 4;
        assert Matches(rs[i], d);
      }
    }
  }

  lemma X32RulesMatch(t: Target, d: Data)
    ensures AnyMatch(X32Rules(t), d) <==>
      t.x32Bit.Some? && ClockGettime in t.nr && d.nr == AndNot(t.nr[ClockGettime], t.x32Bit.value)
  {
    if X32Rules(t) != [] {
      AnyMatchCons(X32Rules(t), d);
    }
  }

  /** A defined system call on one of the three lists is allowed by its SECCOMP_ALLOW rule, and conversely. */
  lemma ListedMatch(t: Target, d: Data)
    ensures (AnyMatch(AllowEach(t, FIRST), d) || AnyMatch(AllowEach(t, BEFORE_IOCTL), d)
             || AnyMatch(AllowEach(t, AFTER_IOCTL), d))
            <==> exists s :: s != Ioctl && s in t.nr && t.nr[s] == d.nr
  {
    AllowEachMatches(t, FIRST, d);
    AllowEachMatches(t, BEFORE_IOCTL, d);
    AllowEachMatches(t, AFTER_IOCTL, d);
    if exists s :: s != Ioctl && s in t.nr && t.nr[s] == d.nr {
      var s :| s != Ioctl && s in t.nr && t.nr[s] == d.nr;
      ListsCoverAllButIoctl(s);
    }
    forall s | s in FIRST || s in BEFORE_IOCTL || s in AFTER_IOCTL ensures s != Ioctl {
      ListsCoverAllButIoctl(s);
    }
  }

  /** The unconditional rules together allow exactly the numbers of the non-`ioctl` system calls. */
  lemma PlainRulesMatch(t: Target, d: Data)
    ensures (AnyMatch(AllowEach(t, FIRST), d) || AnyMatch(AllowEach(t, BEFORE_IOCTL), d)
             || AnyMatch(AllowEach(t, AFTER_IOCTL), d))
            <==> d.nr in (set s | s in t.nr && s != Ioctl :: t.nr[s])
  {
    ListedMatch(t, d);
  }

  /** The compiled rule table matches exactly the calls the reference policy allows. */
  lemma RulesMeaning(t: Target, d: Data)
    ensures AnyMatch(Rules(t), d) <==> d.nr in PlainAllowed(t) || IoctlPermitted(t, d)
  {
    var r1, r2, r3, r4, r5 := AllowEach(t, FIRST), X32Rules(t), AllowEach(t, BEFORE_IOCTL), IoctlRules(t), AllowEach(t, AFTER_IOCTL);
    assert Rules(t) == r1 + r2 + r3 + r4 + r5;
    AnyMatchAppend(r1 + r2 + r3 + r4, r5, d);
    AnyMatchAppend(r1 + r2 + r3, r4, d);
    AnyMatchAppend(r1 + r2, r3, d);
    AnyMatchAppend(r1, r2, d);
    PlainRulesMatch(t, d);
    X32RulesMatch(t, d);
    IoctlRulesMatch(t, d);
  }

  // ---------------------------------------------------------------------------
  // The security claims about the whole program.

  /** Decoding of the first four instructions of the filter. */
  lemma PrologueRuns(t: Target, d: Data)
    ensures var f := Filter(t);
      Eval(f, d, t.order, 0, 0) ==
        if d.arch != t.auditArch then Ret(SECCOMP_FILTER_FAIL, 2)
        else Eval(f, d, t.order, 4, d.nr)
  {
    var f := Filter(t);
    HeaderWords(d, t.order);
    assert f[0] == Stmt(LD_W_ABS, OFFSET_ARCH) && f[1] == Jump(JMP_JEQ_K, t.auditArch, 1, 0);
    assert f[2] == Stmt(RET_K, SECCOMP_FILTER_FAIL) && f[3] == Stmt(LD_W_ABS, OFFSET_NR);
    LoadStep(f, d, t.order, 0, 0, d.arch);
    JumpStep(f, d, t.order, 1, d.arch);
    if d.arch == t.auditArch {
      LoadStep(f, d, t.order, 3, d.arch, d.nr);
    } else {
      RetStep(f, d, t.order, 2, d.arch);
    }
  }

  /** A system call made with a foreign architecture tag is killed by instruction 2, whatever its number and arguments. */
  lemma ArchMismatchKills(t: Target, d: Data)
    requires d.arch != t.auditArch
    ensures Eval(Filter(t), d, t.order, 0, 0) == Ret(SECCOMP_RET_KILL, 2)
  {
    PrologueRuns(t, d);
  }

  /**
   * The filter computes the reference policy, for every target: it returns the
   * verdict, and every kill is the architecture check's or the final one.
   */
  lemma FilterDecides(t: Target, d: Data)
    ensures var o := Eval(Filter(t), d, t.order, 0, 0);
      o.Ret? && o.k == Verdict(t, d)
      && (o.k == SECCOMP_RET_KILL ==> o.at == (if d.arch != t.auditArch then 2 else |Filter(t)| - 1))
  {
    var f := Filter(t);
    var c := Compile(Rules(t), t.order);
    PrologueRuns(t, d);
    if d.arch == t.auditArch {
      assert f[4..4 + |c|] == c;
      CompilePlaced(f, 4, Rules(t), t.order);
      RulesRun(f, d, t.order, 4, Rules(t));
      RulesMeaning(t, d);
      if !AnyMatch(Rules(t), d) {
        assert f[4 + |c|] == Stmt(RET_K, SECCOMP_FILTER_FAIL);
      }
    }
  }

  /**
   * Default deny: with the right architecture, a number that is neither
   * allowed outright nor `ioctl`'s ends at the final kill.
   */
  lemma DefaultDeny(t: Target, d: Data)
    requires d.arch == t.auditArch
    requires d.nr !in PlainAllowed(t)
    requires !(Ioctl in t.nr && d.nr == t.nr[Ioctl])
    ensures Eval(Filter(t), d, t.order, 0, 0) == Ret(SECCOMP_RET_KILL, |Filter(t)| - 1)
  {
    FilterDecides(t, d);
  }

  /**
   * `ioctl` is allowed exactly for the five interface requests, and any other
   * request is killed at the final instruction (when no other allowed system
   * call shares `ioctl`'s number).
   */
  lemma IoctlRestricted(t: Target, d: Data)
    requires d.arch == t.auditArch
    requires Ioctl in t.nr && d.nr == t.nr[Ioctl] && d.nr !in PlainAllowed(t)
    ensures var o := Eval(Filter(t), d, t.order, 0, 0);
      o.Ret? && (o.k == SECCOMP_RET_ALLOW <==> d.args[1] in IOCTL_REQUESTS)
      && (d.args[1] !in IOCTL_REQUESTS ==> o == Ret(SECCOMP_RET_KILL, |Filter(t)| - 1))
  {
    FilterDecides(t, d);
  }

  /** The kernel's evaluation of the installed filter for one system call. */
  method Decide(t: Target, d: Data) returns (action: u32)
    ensures action == Verdict(t, d)
    ensures action == SECCOMP_RET_ALLOW || action == SECCOMP_RET_KILL
  {
    var o := Run(Filter(t), d, t.order);
    FilterDecides(t, d);
    action := o.k;
  }

  // ---------------------------------------------------------------------------
  // Well-formedness: what the kernel checks before it accepts the program.

  /** A stretch of code whose jumps all land inside it or just past its end. */
  predicate SegmentOk(seg: seq<SockFilter>)
  {
    (forall i :: 0 <= i < |seg| ==> InsnValid(seg[i]))
    && (forall i :: 0 <= i < |seg| && seg[i].code == JMP_JEQ_K ==>
          i + 1 + seg[i].jt <= |seg| && i + 1 + seg[i].jf <= |seg|)
  }

  lemma SegmentAppend(a: seq<SockFilter>, b: seq<SockFilter>)
    requires SegmentOk(a) && SegmentOk(b)
    ensures SegmentOk(a + b)
  {
    forall i | |a| <= i < |a + b| ensures (a + b)[i] == b[i - |a|] {
    }
  }

  /** The hand-computed offsets 1, 6, 3 and 1 of the two macros stay inside their block. */
  lemma BlockOk(r: Rule, order: ByteOrder)
    ensures SegmentOk(Block(r, order))
  {
  }

  lemma {:induction false} CompileOk(rules: seq<Rule>, order: ByteOrder)
    ensures SegmentOk(Compile(rules, order))
    ensures |Compile(rules, order)| <= 7 * |rules|
  {
    if rules != [] {
      BlockOk(rules[0], order);
      CompileOk(rules[1..], order);
      SegmentAppend(Block(rules[0], order), Compile(rules[1..], order));
    }
  }

  lemma {:induction false} AllowEachLength(t: Target, ss: seq<Syscall>)
    ensures |AllowEach(t, ss)| <= |ss|
  {
    if ss != [] {
      AllowEachLength(t, ss[1..]);
    }
  }

  /** A segment closed by a `RET` is a well-formed program, when it is short enough. */
  lemma SegmentThenRet(seg: seq<SockFilter>, k: u32)
    requires SegmentOk(seg) && |seg| < BPF_MAXINSNS
    ensures WellFormed(seg + [Stmt(RET_K, k)])
  {
    var prog := seg + [Stmt(RET_K, k)];
    forall i | 0 <= i < |seg| ensures prog[i] == seg[i] {
    }
  }

  /**
   * For every target the filter is one the kernel accepts: every jump lands
   * forward and strictly inside it, every load reads a field of seccomp_data,
   * it ends in a `RET`, and it is short enough for BPF_MAXINSNS and for the
   * `unsigned short` length of ps_seccomp_prog.
   */
  lemma FilterWellFormed(t: Target)
    ensures WellFormed(Filter(t))
    ensures |Filter(t)| <= 5 + 7 * 32 < 0x1_0000
  {
    var c := Compile(Rules(t), t.order);
    AllowEachLength(t, FIRST);
    AllowEachLength(t, BEFORE_IOCTL);
    AllowEachLength(t, AFTER_IOCTL);
    CompileOk(Rules(t), t.order);
    assert SegmentOk(Prologue(t));
    SegmentAppend(Prologue(t), c);
    SegmentThenRet(Prologue(t) + c, SECCOMP_FILTER_FAIL);
  }
}
