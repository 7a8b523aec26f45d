/** Fixed-width unsigned integers of the Rust source and the bitwise
    operators `&`, `|` and `!` it applies to them.

    Widths are explicit: `u8`, `u16`, `u32` are the field types of the
    kernel structures, and `usize` is the 64-bit machine word of a 64-bit
    Linux target (the only width the socket-diagnostics client is built for
    here). Bitwise operators are defined on naturals, least significant bit
    first, so that the alignment mask trick can be proved rather than
    evaluated. */
module Ints {

  type u8 = x: int | 0 <= x < 0x100
  type u16 = x: int | 0 <= x < 0x1_0000
  type u32 = x: int | 0 <= x < 0x1_0000_0000

  const USIZE_MODULUS: nat := 0x1_0000_0000_0000_0000
  type usize = x: int | 0 <= x < 0x1_0000_0000_0000_0000

  function Pow2(k: nat): (r: nat)
    ensures r >= 1
  {
    if k == 0 then 1 else 2 * Pow2(k - 1)
  }

  /** Rust `a & b` on unsigned integers. */
  function BitAnd(a: nat, b: nat): nat
    decreases a
  {
    if a == 0 || b == 0 then 0
    else 2 * BitAnd(a / 2, b / 2) + (if a % 2 == 1 && b % 2 == 1 then 1 else 0)
  }

  /** Rust `a | b` on unsigned integers. */
  function BitOr(a: nat, b: nat): nat
    decreases a + b
  {
    if a == 0 then b
    else if b == 0 then a
    else 2 * BitOr(a / 2, b / 2) + (if a % 2 == 1 || b % 2 == 1 then 1 else 0)
  }

  /** Rust `!m` on a `usize`: every one of the 64 bits flipped, so `r` and
      `m` share no bit and together have all 64. */
  function NotUsize(m: usize): (r: usize)
    ensures BitAnd(r, m) == 0 && BitOr(r, m) == USIZE_MODULUS - 1
  {
    Pow2Of64();
    ComplementBits(USIZE_MODULUS - 1 - m, m, 64);
    USIZE_MODULUS - 1 - m
  }

  /** Two values that add up to n one-bits have no bit in common, and
      together have all n. */
  lemma {:induction false} ComplementBits(a: nat, b: nat, n: nat)
    requires a + b == Pow2(n) - 1
    ensures BitAnd(a, b) == 0 && BitOr(a, b) == Pow2(n) - 1
  {
    if n > 0 && a != 0 && b != 0 {
      assert a % 2 + b % 2 == 1;
      assert a / 2 + b / 2 == Pow2(n - 1) - 1;
      ComplementBits(a / 2, b / 2, n - 1);
    }
  }

  /** Rust `a + b` on `usize` as a release build computes it (wrapping). */
  function WrappingAdd(a: usize, b: usize): (r: usize)
    ensures r == (a + b) % USIZE_MODULUS
  {
    if a + b < USIZE_MODULUS then a + b else a + b - USIZE_MODULUS
  }

  /** Rust `a - b` on `usize` as a release build computes it (wrapping). */
  function WrappingSub(a: usize, b: usize): (r: usize)
    ensures r == (a - b) % USIZE_MODULUS
  {
    if a >= b then a - b else a - b + USIZE_MODULUS
  }

  /** Rust `x as u32` on a `usize`: keeps the low 32 bits. */
  function TruncateToU32(x: usize): (r: u32)
    ensures x < 0x1_0000_0000 ==> r == x
  {
    x % 0x1_0000_0000
  }

  lemma {:induction false} Pow2Add(a: nat, b: nat)
    ensures Pow2(a + b) == Pow2(a) * Pow2(b)
  {
    if a > 0 {
      Pow2Add(a - 1, b);
    }
  }

  /** 2^62, from repeated doubling. */
  lemma Pow2Of62()
    ensures Pow2(62) == 0x4000_0000_0000_0000
  {
    assert Pow2(2) == 4;
    Pow2Add(2, 2);
    assert Pow2(4) == 0x10;
    Pow2Add(4, 4);
    assert Pow2(8) == 0x100;
    Pow2Add(8, 8);
    assert Pow2(16) == 0x1_0000;
    Pow2Add(16, 16);
    assert Pow2(32) == 0x1_0000_0000;
    Pow2Add(4, 2);
    assert Pow2(6) == 0x40;
    Pow2Add(8, 6);
    assert Pow2(14) == 0x4000;
    Pow2Add(16, 14);
    assert Pow2(30) == 0x4000_0000;
    Pow2Add(32, 30);
  }

  /** 2^64, the modulus of `usize` arithmetic. */
  lemma Pow2Of64()
    ensures Pow2(64) == USIZE_MODULUS
  {
    Pow2Of62();
    Pow2Add(62, 2);
    assert Pow2(2) == 4;
  }

  /** Masking with k low one-bits keeps a value that already fits in k bits. */
  lemma {:induction false} BitAndLowOnes(x: nat, k: nat)
    requires x < Pow2(k)
    ensures BitAnd(x, Pow2(k) - 1) == x
  {
    if x != 0 {
      assert k > 0;
      var m := Pow2(k) - 1;
      assert m % 2 == 1 && m / 2 == Pow2(k - 1) - 1;
      BitAndLowOnes(x / 2, k - 1);
    }
  }

  /** Masking with an even value drops the lowest bit. */
  lemma BitAndEvenMask(x: nat, m: nat)
    requires m % 2 == 0
    ensures BitAnd(x, m) == 2 * BitAnd(x / 2, m / 2)
  {
  }

  /** `x & !3` clears the two low bits of a `usize`. */
  lemma BitAndClearsLowTwoBits(x: usize)
    ensures BitAnd(x, NotUsize(3)) == 4 * (x / 4)
  {
    var m := NotUsize(3);
    assert m == 0xFFFF_FFFF_FFFF_FFFC;
    BitAndEvenMask(x, m);
    BitAndEvenMask(x / 2, m / 2);
    assert x / 2 / 2 == x / 4 && m / 2 / 2 == 0x3FFF_FFFF_FFFF_FFFF;
    Pow2Of62();
    BitAndLowOnes(x / 4, 62);
  }

  /** `f & 2` is nonzero exactly when bit 1 of `f` is set. */
  lemma BitAndTwo(f: nat)
    ensures BitAnd(f, 2) == 2 * ((f / 2) % 2)
  {
    if f != 0 && f / 2 != 0 {
      assert BitAnd(f / 2, 1) == 2 * BitAnd(f / 4, 0) + (f / 2) % 2;
    }
  }

  /** Or-ing two even values is or-ing their halves, shifted back. */
  lemma BitOrDoubled(x: nat, y: nat)
    ensures BitOr(2 * x, 2 * y) == 2 * BitOr(x, y)
  {
  }

  /** `0x100 | 0x200` and `1 | 0x300`, the flag constants of a dump request. */
  lemma BitOrDumpFlags()
    ensures BitOr(0x100, 0x200) == 0x300
    ensures BitOr(1, 0x300) == 0x301
  {
    BitOrDoubled(0x80, 0x100);
    BitOrDoubled(0x40, 0x80);
    BitOrDoubled(0x20, 0x40);
    BitOrDoubled(0x10, 0x20);
    BitOrDoubled(0x8, 0x10);
    BitOrDoubled(0x4, 0x8);
    BitOrDoubled(0x2, 0x4);
    BitOrDoubled(0x1, 0x2);
    assert BitOr(1, 2) == 3;
  }
}
