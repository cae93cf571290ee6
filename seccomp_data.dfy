/**
 * The record the kernel hands to a seccomp filter for every system call
 * (struct seccomp_data of include/uapi/linux/seccomp.h):
 *
 *   offset  0: int   nr                   (the system call number)
 *   offset  4: __u32 arch                 (an AUDIT_ARCH_* value)
 *   offset  8: __u64 instruction_pointer
 *   offset 16: __u64 args[6]              (args[i] at 16 + 8 * i)
 *
 * 64 bytes in all, in the machine's native byte order. A classic-BPF program
 * reads it one aligned 32-bit word at a time, so the record is modelled by its
 * sixteen words (WordAt).
 */
module SeccompData {
  import opened Words

  datatype ByteOrder = LittleEndian | BigEndian

  type ArgIndex = i: int | 0 <= i < 6

  type Args = s: seq<u64> | |s| == 6 witness [0, 0, 0, 0, 0, 0]

  /** `nr` is the bit pattern of the C `int`, as a 32-bit load sees it. */
  datatype Data = Data(nr: u32, arch: u32, instructionPointer: u64, args: Args)

  /** sizeof(struct seccomp_data) */
  const SIZE: int := 64

  /** offsetof(struct seccomp_data, nr) */
  const OFFSET_NR: u32 := 0

  /** offsetof(struct seccomp_data, arch) */
  const OFFSET_ARCH: u32 := 4

  /** offsetof(struct seccomp_data, instruction_pointer) */
  const OFFSET_IP: u32 := 8

  /** offsetof(struct seccomp_data, args[i]) */
  function ArgOffset(i: ArgIndex): (off: u32)
    ensures 16 <= off <= 56 && off % 8 == 0
  {
    16 + 8 * i
  }

  /** SECCOMP_ARG_LO: where, inside a 64-bit argument, its low word lies. */
  function ArgLo(order: ByteOrder): u32
  {
    match order
    case LittleEndian => 0
    case BigEndian => 4
  }

  /** SECCOMP_ARG_HI: where, inside a 64-bit argument, its high word lies. */
  function ArgHi(order: ByteOrder): u32
  {
    match order
    case LittleEndian => 4
    case BigEndian => 0
  }

  /** The two words of a 64-bit field in memory order. */
  function Halves(v: u64, order: ByteOrder): (ws: seq<u32>)
    ensures |ws| == 2
  {
    match order
    case LittleEndian => [Lo(v), Hi(v)]
    case BigEndian => [Hi(v), Lo(v)]
  }

  /** The 64-bit field that starts at byte `8 * f`: the instruction pointer or an argument. */
  function Field(d: Data, f: int): u64
    requires 1 <= f < 8
  {
    if f == 1 then d.instructionPointer else d.args[f - 2]
  }

  /** Word `j` of the record: bytes `4 * j .. 4 * j + 3`. */
  function WordAt(d: Data, order: ByteOrder, j: int): u32
    requires 0 <= j < 16
  {
    if j == 0 then d.nr
    else if j == 1 then d.arch
    else Halves(Field(d, j / 2), order)[j % 2]
  }

  /** What the kernel accepts as the offset of a word load (seccomp_check_filter). */
  predicate ValidOffset(off: int)
  {
    0 <= off < SIZE && off % 4 == 0
  }

  /** `BPF_LD | BPF_W | BPF_ABS` with offset `off`: the word there, if the offset is valid. */
  function LoadWord(d: Data, order: ByteOrder, off: u32): (w: Option<u32>)
    ensures w.Some? <==> ValidOffset(off)
    ensures w.Some? ==> w.value == WordAt(d, order, off / 4)
  {
    if ValidOffset(off) then Some(WordAt(d, order, off / 4)) else None
  }

  datatype Option<T> = None | Some(value: T)

  /**
   * The SECCOMP_ARG_LO/HI choice is right for both byte orders: the word loaded at
   * `args[i]` + LO is the low half of `args[i]`, the one at + HI its high half.
   */
  lemma ArgWords(d: Data, order: ByteOrder, i: ArgIndex)
    ensures LoadWord(d, order, ArgOffset(i) + ArgLo(order)) == Some(Lo(d.args[i]))
    ensures LoadWord(d, order, ArgOffset(i) + ArgHi(order)) == Some(Hi(d.args[i]))
  {
    var j := 4 + 2 * i;
    assert (ArgOffset(i) + ArgLo(order)) / 4 == j + ArgLo(order) / 4;
    assert (ArgOffset(i) + ArgHi(order)) / 4 == j + ArgHi(order) / 4;
    assert j / 2 == i + 2 && j % 2 == 0 && (j + 1) / 2 == i + 2 && (j + 1) % 2 == 1;
  }

  /**
   * The two 32-bit fields load as themselves, and the instruction pointer
   * splits into its halves the same way as an argument.
   */
  lemma HeaderWords(d: Data, order: ByteOrder)
    ensures LoadWord(d, order, OFFSET_NR) == Some(d.nr)
    ensures LoadWord(d, order, OFFSET_ARCH) == Some(d.arch)
    ensures LoadWord(d, order, OFFSET_IP + ArgLo(order)) == Some(Lo(d.instructionPointer))
    ensures LoadWord(d, order, OFFSET_IP + ArgHi(order)) == Some(Hi(d.instructionPointer))
  {
  }

  /**
   * A load succeeds exactly at the start of a 32-bit field or of a half of a
   * 64-bit field; at every other offset (unaligned, or past the record) it fails.
   */
  lemma LoadableOffsets(d: Data, order: ByteOrder, off: u32)
    ensures LoadWord(d, order, off).Some? <==>
      (off == OFFSET_NR || off == OFFSET_ARCH || off == OFFSET_IP || off == OFFSET_IP + 4
       || exists i: ArgIndex :: off == ArgOffset(i) || off == ArgOffset(i) + 4)
  {
    if ValidOffset(off) && off >= 16 {
      var i: ArgIndex := (off - 16) / 8;
      assert off == ArgOffset(i) || off == ArgOffset(i) + 4;
    }
  }
}
