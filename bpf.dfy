/**
 * The subset of classic BPF that a seccomp filter built from the allow-list
 * macros uses, run over a struct seccomp_data: word loads at absolute offsets
 * (`BPF_LD | BPF_W | BPF_ABS`), compare-with-constant jumps (`BPF_JMP | BPF_JEQ | BPF_K`)
 * and return-constant (`BPF_RET | BPF_K`). Instructions keep the kernel's
 * struct sock_filter layout: a 16-bit opcode, two 8-bit jump offsets and a
 * 32-bit constant. A jump continues at `pc + 1 + jt` when the accumulator
 * equals `k` and at `pc + 1 + jf` otherwise, so every jump goes forward.
 */
module Bpf {
  import opened Words
  import opened SeccompData

  // Opcode fields of linux/bpf_common.h.
  const BPF_LD: u16 := 0x00
  const BPF_JMP: u16 := 0x05
  const BPF_RET: u16 := 0x06
  const BPF_W: u16 := 0x00
  const BPF_ABS: u16 := 0x20
  const BPF_JEQ: u16 := 0x10
  const BPF_K: u16 := 0x00

  /** BPF_MAXINSNS: the longest program the kernel accepts. */
  const BPF_MAXINSNS: int := 4096

  const LD_W_ABS: u16 := BPF_LD + BPF_W + BPF_ABS
  const JMP_JEQ_K: u16 := BPF_JMP + BPF_JEQ + BPF_K
  const RET_K: u16 := BPF_RET + BPF_K

  datatype SockFilter = SockFilter(code: u16, jt: u8, jf: u8, k: u32)

  /** BPF_STMT(code, k) */
  function Stmt(code: u16, k: u32): SockFilter
  {
    SockFilter(code, 0, 0, k)
  }

  /** BPF_JUMP(code, k, jt, jf) */
  function Jump(code: u16, k: u32, jt: u8, jf: u8): SockFilter
  {
    SockFilter(code, jt, jf, k)
  }

  /**
   * How a run ends: the constant of the `RET` reached and where it stands, or a
   * fault at `at` (an opcode outside the subset, a load the kernel would refuse,
   * or control running past the last instruction).
   */
  datatype Outcome = Ret(k: u32, at: nat) | Fault(at: nat)

  /** Where a `JEQ K` instruction at `pc` sends control, given the accumulator. */
  function JumpTarget(ins: SockFilter, pc: nat, acc: u32): (next: nat)
    ensures next > pc
  {
    pc + 1 + (if acc == ins.k then ins.jt else ins.jf)
  }

  /**
   * The result of running `prog` on `d` from instruction `pc` with accumulator
   * `acc`. It is total because every step moves `pc` strictly forward.
   */
  function Eval(prog: seq<SockFilter>, d: Data, order: ByteOrder, pc: nat, acc: u32): Outcome
    decreases |prog| - pc
  {
    if pc >= |prog| then Fault(pc)
    else
      var ins := prog[pc];
      if ins.code == LD_W_ABS then
        match LoadWord(d, order, ins.k)
        case None => Fault(pc)
        case Some(w) => Eval(prog, d, order, pc + 1, w)
      else if ins.code == JMP_JEQ_K then
        Eval(prog, d, order, JumpTarget(ins, pc, acc), acc)
      else if ins.code == RET_K then
        Ret(ins.k, pc)
      else
        Fault(pc)
  }

  /** Runs a filter the way the kernel does: from instruction 0 with the accumulator 0. */
  method Run(prog: seq<SockFilter>, d: Data, order: ByteOrder) returns (out: Outcome)
    ensures out == Eval(prog, d, order, 0, 0)
  {
    var pc: nat := 0;
    var acc: u32 := 0;
    while pc < |prog|
      invariant Eval(prog, d, order, pc, acc) == Eval(prog, d, order, 0, 0)
      decreases |prog| - pc
    {
      var ins := prog[pc];
      if ins.code == LD_W_ABS {
        var w := LoadWord(d, order, ins.k);
        if w.None? {
          return Fault(pc);
        }
        acc := w.value;
        pc := pc + 1;
      } else if ins.code == JMP_JEQ_K {
        if acc == ins.k {
          pc := pc + 1 + ins.jt;
        } else {
          pc := pc + 1 + ins.jf;
        }
      } else if ins.code == RET_K {
        return Ret(ins.k, pc);
      } else {
        return Fault(pc);
      }
    }
    out := Fault(pc);
  }

  // One step of Eval for each kind of instruction, for proofs that follow a run.

  lemma LoadStep(prog: seq<SockFilter>, d: Data, order: ByteOrder, pc: nat, acc: u32, w: u32)
    requires pc < |prog| && prog[pc].code == LD_W_ABS && LoadWord(d, order, prog[pc].k) == Some(w)
    ensures Eval(prog, d, order, pc, acc) == Eval(prog, d, order, pc + 1, w)
  {
  }

  lemma JumpStep(prog: seq<SockFilter>, d: Data, order: ByteOrder, pc: nat, acc: u32)
    requires pc < |prog| && prog[pc].code == JMP_JEQ_K
    ensures Eval(prog, d, order, pc, acc) == Eval(prog, d, order, JumpTarget(prog[pc], pc, acc), acc)
  {
  }

  lemma RetStep(prog: seq<SockFilter>, d: Data, order: ByteOrder, pc: nat, acc: u32)
    requires pc < |prog| && prog[pc].code == RET_K
    ensures Eval(prog, d, order, pc, acc) == Ret(prog[pc].k, pc)
  {
  }

  /** The instruction is in the subset, and a load reads a valid offset. */
  predicate InsnValid(ins: SockFilter)
  {
    (ins.code == LD_W_ABS || ins.code == JMP_JEQ_K || ins.code == RET_K)
    && (ins.code == LD_W_ABS ==> ValidOffset(ins.k))
  }

  /**
   * The checks the kernel makes before it installs a filter, for this subset:
   * a non-empty program of at most BPF_MAXINSNS instructions, every jump
   * landing inside it, and a `RET` last.
   */
  predicate WellFormed(prog: seq<SockFilter>)
  {
    0 < |prog| <= BPF_MAXINSNS
    && (forall i :: 0 <= i < |prog| ==> InsnValid(prog[i]))
    && (forall i :: 0 <= i < |prog| && prog[i].code == JMP_JEQ_K ==>
          i + 1 + prog[i].jt < |prog| && i + 1 + prog[i].jf < |prog|)
    && prog[|prog| - 1].code == RET_K
  }

  /**
   * A well-formed program never faults: from any instruction, whatever the
   * accumulator, it ends at a `RET` of the program and returns that `RET`'s constant.
   */
  lemma {:induction false} WellFormedReturns(prog: seq<SockFilter>, d: Data, order: ByteOrder, pc: nat, acc: u32)
    requires WellFormed(prog) && pc < |prog|
    ensures var o := Eval(prog, d, order, pc, acc);
      o.Ret? && pc <= o.at < |prog| && prog[o.at].code == RET_K && o.k == prog[o.at].k
    decreases |prog| - pc
  {
    var ins := prog[pc];
    assert InsnValid(ins);
    if ins.code == LD_W_ABS {
      assert pc != |prog| - 1;
      WellFormedReturns(prog, d, order, pc + 1, LoadWord(d, order, ins.k).value);
    } else if ins.code == JMP_JEQ_K {
      WellFormedReturns(prog, d, order, JumpTarget(ins, pc, acc), acc);
    }
  }
}
