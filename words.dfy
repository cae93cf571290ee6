/**
 * Fixed-width machine integers as bounded subsets of `int`, and the split of a
 * 64-bit value into the two 32-bit halves that a classic-BPF program can load.
 */
module Words {

  type u8 = x: int | 0 <= x < 0x100
  type u16 = x: int | 0 <= x < 0x1_0000
  type u32 = x: int | 0 <= x < 0x1_0000_0000
  type u64 = x: int | 0 <= x < 0x1_0000_0000_0000_0000
  type i32 = x: int | -0x8000_0000 <= x < 0x8000_0000

  /** 2^32: the modulus of one 32-bit word. */
  const WORD: int := 0x1_0000_0000

  /** `v & 0xffffffff`: the low 32 bits of a 64-bit value. */
  function Lo(v: u64): (r: u32)
    ensures r < WORD && v - r == Hi(v) * WORD
  {
    v % WORD
  }

  /** `(uint32_t)(v >> 32)`: the high 32 bits of a 64-bit value. */
  function Hi(v: u64): (r: u32)
  {
    v / WORD
  }

  /** The 64-bit value whose halves are `hi` and `lo`. */
  function Join(hi: u32, lo: u32): (v: u64)
    ensures Hi(v) == hi && Lo(v) == lo
  {
    hi * WORD + lo
  }

  /** Splitting a 64-bit value and joining its halves gives the value back: the two masks lose nothing. */
  lemma SplitJoin(v: u64)
    ensures Join(Hi(v), Lo(v)) == v
  {
  }

  /** A 64-bit value is determined by its two halves: comparing both halves is 64-bit equality. */
  lemma HalvesEqual(a: u64, b: u64)
    ensures (Lo(a) == Lo(b) && Hi(a) == Hi(b)) <==> a == b
  {
    if Lo(a) == Lo(b) && Hi(a) == Hi(b) {
      calc {
        a;
        Hi(a) * WORD + Lo(a);
        Hi(b) * WORD + Lo(b);
        b;
      }
    }
  }

  /** `a & ~b` on 32-bit words. */
  function AndNot(a: u32, b: u32): u32
  {
    ((a as bv32) & !(b as bv32)) as int
  }

  /** `(unsigned long)x` on an LP64 target: an int reduced modulo 2^64. */
  function ToULong(x: int): (r: u64)
    ensures r % WORD == x % WORD
  {
    x % 0x1_0000_0000_0000_0000
  }

  /** `(int)y`: the low 32 bits of `y` read as a two's-complement int. */
  function ToInt(y: u64): (r: i32)
    ensures r % WORD == y % WORD
  {
    var w := y % WORD;
    if w < 0x8000_0000 then w else w - WORD
  }

  /** A protocol number sent as `(unsigned long)protocol` comes back unchanged through `(int)`. */
  lemma IntThroughULong(p: i32)
    ensures ToInt(ToULong(p)) == p
  {
    var u := ToULong(p);
    assert u % WORD == p % WORD;
    if p < 0 {
      assert p % WORD == p + WORD;
    } else {
      assert p % WORD == p;
    }
  }
}
