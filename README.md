# dhcpcd privilege separation on Linux, modelled in Dafny

This project models the Linux back end of dhcpcd's privileged ("root") process,
as written in `src/privsep-linux.c`:

- **The seccomp allow-list `ps_seccomp_filter`.** This is a classic-BPF program evaluated by the kernel on every system call.
  - It first checks the audit architecture and kills on a mismatch.
  - It then allows a fixed list of system calls by number (`SECCOMP_ALLOW`).
  - It allows `ioctl` only for five interface requests (`SECCOMP_ALLOW_ARG`).
  - It kills everything else.
- **The dispatcher `ps_root_os`.** It accepts one command, PS_ROUTE, and refuses every other with ENOTSUP.
- **The netlink relay `ps_root_dosendnetlink`.** It opens a netlink socket, sends the caller's message, reads the reply and closes the socket.
- **The sandbox entry `ps_seccomp_enter`.** It sets no-new-privs, then installs the filter, and reports EINVAL as ENOSYS.

Files and modules:

- `words.dfy`, module `Words`:
  - fixed-width integers;
  - the 32-bit halves of a 64-bit value;
  - the `(unsigned long)` and `(int)` casts.
- `seccomp_data.dfy`, module `SeccompData`:
  - struct seccomp_data at its kernel ABI offsets, as sixteen native-order 32-bit words;
  - `SECCOMP_ARG_LO`/`SECCOMP_ARG_HI`.
- `bpf.dfy`, module `Bpf`:
  - struct sock_filter with its opcode constants;
  - `Eval`, the specification of a run;
  - `Run`, the kernel's pc/accumulator loop, proved equal to `Eval`;
  - `WellFormed`, the kernel's acceptance checks for this subset.
- `ps_seccomp.dfy`, module `PsSeccomp`:
  - the filter as a function `Filter(t)` of a build target `t`;
  - the expansion of the two macros;
  - `Verdict`, a reference policy written without BPF;
  - the proofs that connect `Filter(t)` and `Verdict`.
- `privsep_root.dfy`, module `PrivsepRoot`:
  - a `Host` class holding `errno` and the trace of calls made so far;
  - the relay, the dispatcher and the sandbox entry as methods on `Host`;
  - pure functions that specify what each method does, with lemmas about them.

The build target `t` is a parameter. It stands for everything the C preprocessor decides:

- `SECCOMP_AUDIT_ARCH`;
- the byte order;
- which `__NR_*` macros exist and their values, as a map;
- whether this is an x32 build, and if so its `__X32_SYSCALL_BIT`.

Every property of the filter is proved for all targets. That includes every subset of defined system calls.

System calls and helpers that the model cannot see are abstract outcomes passed in as parameters:

- `prctl`, `sendmsg` and `close`;
- the helpers `if_linksocket` and `if_getnetlink`.

Each outcome is either "returned a non-negative value" or "returned -1 and set errno to e". The C code's `== -1` tests read exactly that distinction.

In the relay, a failed step's `errno` is not saved around the `close(s)` that follows it. If that close fails too, its `errno` replaces the step's. `RelayErrno` states both cases.

## Model

| member | source | states |
|---|---|---|
| `Words.HalvesEqual` | src/privsep-linux.c:118-123 | comparing the low halves and the high halves of two 64-bit values is the same as 64-bit equality |
| `Words.Join` | src/privsep-linux.c:118-123 | building a 64-bit value from `hi` and `lo` and splitting it again with the two masks gives `hi` and `lo` back |
| `Words.SplitJoin` | src/privsep-linux.c:118-123 | splitting a 64-bit value with the two masks and joining the halves gives the value back, so the masks lose nothing |
| `Words.IntThroughULong` | src/privsep-linux.c:83 | a 32-bit protocol number that the proxy sends as `(unsigned long)protocol` (line 95) comes back unchanged through the dispatcher's `(int)ps_flags` |
| `SeccompData.HeaderWords` | src/privsep-linux.c:195-200 | the loads at `offsetof(struct seccomp_data, nr)` and `arch` read `nr` and `arch`; the instruction pointer's two halves load like an argument's |
| `SeccompData.LoadableOffsets` | src/privsep-linux.c:116-126 | a word load succeeds exactly at `nr`, `arch`, or the low or high half of the instruction pointer or of an argument; every other offset fails |
| `SeccompData.ArgWords` | src/privsep-linux.c:100-121 | for both byte orders, the word at `args[i]` + SECCOMP_ARG_LO is the low half of `args[i]`, and the word at + SECCOMP_ARG_HI is its high half |
| `Bpf.Run` | src/privsep-linux.c:193-295 | executing the filter instruction by instruction, with a program counter and an accumulator, gives exactly the outcome `Eval` specifies |
| `Bpf.WellFormedReturns` | src/privsep-linux.c:193-295 | a program that passes the kernel's checks never faults: from any instruction it reaches a `RET` of the program and returns that `RET`'s constant |
| `PsSeccomp.AllowBlockRuns` | src/privsep-linux.c:110-112 | the SECCOMP_ALLOW block returns ALLOW exactly when the accumulator equals its number; otherwise control reaches the next block with the accumulator unchanged |
| `PsSeccomp.AllowArgBlockRuns` | src/privsep-linux.c:114-126 | the SECCOMP_ALLOW_ARG block returns ALLOW exactly when `nr` matches and the full 64-bit `args[arg]` equals `val`; every mismatch (jf = 6, 3 or 1) reaches the block's end with `nr` back in the accumulator |
| `PsSeccomp.ArgCheckRuns` | src/privsep-linux.c:116-126 | the two half-word comparisons allow exactly when `args[arg] == val`, and otherwise reload `nr` and leave the block |
| `PsSeccomp.RulesRun` | src/privsep-linux.c:199-291 | a run of compiled allow blocks, entered with `nr` loaded, returns ALLOW from inside the run if any rule matches; otherwise it exits at the run's end with `nr` still loaded |
| `PsSeccomp.PlainRulesMatch` | src/privsep-linux.c:202-291 | the `SECCOMP_ALLOW(__NR_*)` rules of the three lists (every plain rule except the x32 one) match exactly the numbers of the defined system calls other than `ioctl` |
| `PsSeccomp.X32RulesMatch` | src/privsep-linux.c:211-213 | on an x32 build, the extra rule matches exactly `__NR_clock_gettime & ~__X32_SYSCALL_BIT` |
| `PsSeccomp.IoctlRulesMatch` | src/privsep-linux.c:235-243 | the five `ioctl` rules together match exactly an `ioctl` whose argument 1 is SIOCGIFFLAGS, SIOCGIFHWADDR, SIOCGIFINDEX, SIOCGIFMTU or SIOCGIFVLAN |
| `PsSeccomp.RulesMeaning` | src/privsep-linux.c:202-291 | the whole rule table matches a system call exactly when the reference policy allows it |
| `PsSeccomp.PrologueRuns` | src/privsep-linux.c:195-201 | the first four instructions return KILL at instruction 2 on an architecture mismatch, and otherwise continue at instruction 4 with `nr` loaded |
| `PsSeccomp.ArchMismatchKills` | src/privsep-linux.c:195-198 | a system call with a foreign architecture tag is killed at instruction 2, whatever its number and arguments |
| `PsSeccomp.FilterDecides` | src/privsep-linux.c:193-295 | for every target and every system call, the filter returns the reference verdict (ALLOW or KILL, never anything else); every KILL comes from instruction 2 or from the last instruction |
| `PsSeccomp.DefaultDeny` | src/privsep-linux.c:293-294 | with the right architecture, a number that is neither allowed outright nor `ioctl`'s ends at the final KILL |
| `PsSeccomp.IoctlRestricted` | src/privsep-linux.c:235-243 | `ioctl` is allowed exactly when argument 1 is one of the five request codes; any other request is killed by the final instruction |
| `PsSeccomp.Decide` | src/privsep-linux.c:193-295 | running the installed filter on a system call returns the reference verdict, which is ALLOW or KILL |
| `PsSeccomp.BlockOk` | src/privsep-linux.c:110-126 | the hand-computed jump offsets of both macros land inside their block or just past its end |
| `PsSeccomp.CompileOk` | src/privsep-linux.c:110-126 | any sequence of expanded blocks keeps all of its jumps within itself, and each block is at most 7 instructions |
| `PsSeccomp.FilterWellFormed` | src/privsep-linux.c:193-295 | for every target, every jump goes forward and lands strictly inside the program, every load reads a field of seccomp_data, the last instruction is a RET, and the length is within BPF_MAXINSNS |
| `PrivsepRoot.SeccompProgLength` | src/privsep-linux.c:297-300 | the `unsigned short` cast of the filter length loses nothing, and the installed program passes the kernel's checks |
| `PrivsepRoot.RelayResult` | src/privsep-linux.c:62-73 | the relay returns a non-negative count exactly when open, send and read all succeed, and that count is what the read returned; any other result is -1 |
| `PrivsepRoot.RelayClosesOnce` | src/privsep-linux.c:62-73 | the relay opens once with the given protocol. If the open fails, nothing else happens and nothing is closed. Otherwise: the caller's message is sent on that socket, only that socket is used, and it is closed exactly once, as the last call |
| `PrivsepRoot.RelayErrno` | src/privsep-linux.c:62-73 | the `errno` a relay leaves: the failing step's, or the close's if the close failed, or the caller's `errno` unchanged on full success |
| `PrivsepRoot.ErrnoAfterAppend` | src/privsep-linux.c:62-73 | the `errno` after two runs of calls, one after the other, is the `errno` of the combined run |
| `PrivsepRoot.DispatchFailsClosed` | src/privsep-linux.c:81-87 | PS_ROUTE performs exactly one relay, for protocol `(int)ps_flags`, and returns its result; any other command makes no call, returns -1 and sets ENOTSUP |
| `PrivsepRoot.EnterContract` | src/privsep-linux.c:306-313 | `ps_seccomp_enter` returns 0 exactly when both `prctl` calls succeed, and tries to install the filter only after no-new-privs succeeded. On success `errno` is unchanged. On failure `errno` is the failing call's, with EINVAL reported as ENOSYS |
| `PrivsepRoot.Host.DoSendNetlink` | src/privsep-linux.c:50-74 | the step-by-step relay returns `RelayResult`, appends exactly `RelayEvents` to the trace, and leaves the `errno` those calls set |
| `PrivsepRoot.Host.RootOs` | src/privsep-linux.c:76-88 | the dispatcher's result, its calls and its `errno` are those of `RootOsResult`, `RootOsEvents` and `RootOsErrno` |
| `PrivsepRoot.Host.SeccompEnter` | src/privsep-linux.c:302-314 | the sandbox entry's result, its `prctl` calls (including the program it installs) and its `errno` are those of `EnterResult`, `EnterEvents` and `EnterErrno` |

## Left out

- `ps_root_sendnetlink` (src/privsep-linux.c:90-98): it is a thin wrapper over an IPC transport (`ps_sendmsg`, `ps_root_readerror`) that is not part of this model. Only its `(unsigned long)protocol` cast is modelled, in `Words.IntThroughULong`.
- The architecture table (src/privsep-linux.c:132-191) and the concrete `__NR_*` values: they are compile-time choices. `SECCOMP_AUDIT_ARCH`, the byte order and the syscall numbers are parameters of the target instead. The sparc branch (lines 183-188) defines `AUDIT_ARCH_SPARC64`/`AUDIT_ARCH_SPARC` rather than `SECCOMP_AUDIT_ARCH`, so it would not compile; that branch is not reproduced.
- An x32 build flag given without `__NR_clock_gettime`: a C compiler would reject this at line 212. The model simply adds no rule.
- The value of PS_ROUTE is passed to `RootOs` as `psRoute`, because privsep.h is not part of this model.
- `ps_flags` is modelled as a 64-bit `unsigned long` (an LP64 target).
- `rdata` and `rlen` are not modelled: `ps_root_os` does not use them.
- Netlink message contents and the 16 KiB receive buffer (src/privsep-linux.c:55-59): the message is opaque bytes, and the reply length is whatever `if_getnetlink` returns.
- The kernel system calls and the helpers `if_linksocket` and `if_getnetlink`: they are unseen code and are abstract outcomes here.
- The behaviour of the kernel beyond evaluating this one program is not modelled:
  - stacking several filters, and the precedence of seccomp actions between them;
  - how no-new-privs is enforced;
  - what installing a second filter would do.
- The `nr` field of seccomp_data is a C `int`; the model keeps only its 32-bit pattern, which is what a word load reads.
- The record is modelled as 32-bit words, not as bytes, because the filter only ever loads aligned words.
- `Bpf.Eval` interprets only `LD|W|ABS`, `JMP|JEQ|K` and `RET|K`, the only instructions the filter uses. It reports any other opcode as a fault, which is not what the kernel does for other programs. `WellFormed`, proved for every target by `FilterWellFormed`, rules this case out for the filter.
- PsSeccomp.IoctlRestricted: assumes that `ioctl`'s number is not also the number of an unconditionally allowed system call. Real targets give each system call its own number. Without that assumption, `FilterDecides` still gives the exact verdict.
- Successful calls (`prctl`, `sendmsg`, `close`, `if_linksocket`, `if_getnetlink`) are assumed not to write `errno`. C allows a successful call to change it. So "`errno` unchanged on full success" in `RelayErrno` and `EnterContract` holds only under this assumption.
- compat/setproctitle.h: it holds only declarations for process-title display and contains no logic.
