/**
 * The machine integers of the web build (wasm32, so the pointer width W is 32): `isize`,
 * `usize`, Rust's signed remainder, which truncates toward zero, and the `as usize` cast,
 * which reinterprets the two's-complement bits.
 */
module MachineInt {
  import Arith

  /** The pointer width of the target. */
  const PointerBits: nat := 32

  /** `2^W`, the number of `usize` values. */
  const UsizeModulus: int := 0x1_0000_0000

  const IsizeMin: int := -0x8000_0000
  const IsizeMax: int := 0x7fff_ffff
  const UsizeMax: int := 0xffff_ffff

  newtype isize = x: int | -0x8000_0000 <= x <= 0x7fff_ffff
  newtype usize = x: int | 0 <= x <= 0xffff_ffff

  lemma UsizeModulusIsPow2()
    ensures UsizeModulus == Arith.Pow2(PointerBits)
  {
    assert Arith.Pow2(8) == 0x100;
    assert Arith.Pow2(16) == 0x1_0000 by {
      Arith.Pow2Add(8, 8);
    }
    Arith.Pow2Add(16, 16);
  }

  function Abs(x: int): nat
  {
    if x < 0 then -x else x
  }

  /**
   * `a % b` on signed integers: the remainder is smaller than the divisor in magnitude,
   * has the sign of the dividend, and differs from it by a multiple of the divisor.
   * Division by zero and `isize::MIN % -1` panic in Rust, so they are excluded.
   */
  function RemTruncating(a: isize, b: isize): (r: isize)
    requires b != 0 && !(a as int == IsizeMin && b == -1)
    ensures Abs(r as int) < Abs(b as int)
    ensures a >= 0 ==> r >= 0
    ensures a < 0 ==> r <= 0
    ensures (a as int - r as int) % Abs(b as int) == 0
  {
    var m := Abs(b as int);
    var x := a as int;
    if x >= 0 then
      RemainderLeavesMultiple(x, m);
      (x % m) as isize
    else
      RemainderLeavesMultiple(-x, m);
      (-((-x) % m)) as isize
  }

  /** Taking away the remainder leaves a multiple, of either sign. */
  lemma RemainderLeavesMultiple(x: nat, m: nat)
    requires m > 0
    ensures (x - x % m) % m == 0
    ensures (-(x - x % m)) % m == 0
  {
    var q := x / m;
    assert x - x % m == q * m;
    Arith.DivModUnique(q * m, m, q, 0);
    assert -(q * m) == (-q) * m;
    Arith.DivModUnique((-q) * m, m, -q, 0);
  }

  /**
   * `x as usize` for a signed `x`: the `usize` congruent to `x` modulo `2^W`, which is `x`
   * itself when `x` is not negative.
   */
  function AsUsize(x: isize): (r: usize)
    ensures (r as int - x as int) % UsizeModulus == 0
    ensures x >= 0 ==> r as int == x as int
  {
    if x >= 0 then x as int as usize
    else
      Arith.DivAddMultiple(1, 0, UsizeModulus);
      (x as int + UsizeModulus) as usize
  }

  /** `x % m` on unsigned integers, which is Euclidean. */
  function RemUnsigned(x: usize, m: usize): (r: usize)
    requires m != 0
    ensures r < m
    ensures r as int == x as int % m as int
  {
    x % m
  }

  /** `-1 as usize` is the all-ones value `2^W - 1`. */
  lemma MinusOneAsUsize()
    ensures AsUsize(-1) as int == UsizeMax
  {
  }
}
