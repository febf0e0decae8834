/** Java's fixed-width two's-complement integers: `long` (64 bits) and `int`
    (32 bits). Arithmetic on them wraps around silently. */
module JavaInt {

  const LongMin: int := -0x8000_0000_0000_0000
  const LongMax: int := 0x7fff_ffff_ffff_ffff
  const IntMin: int := -0x8000_0000
  const IntMax: int := 0x7fff_ffff

  predicate IsLong(x: int) { LongMin <= x <= LongMax }
  predicate IsInt(x: int) { IntMin <= x <= IntMax }

  /** The `long` a Java long operation yields for the exact result `x`. */
  function WrapLong(x: int): (r: int)
    ensures IsLong(r)
    ensures (x - r) % 0x1_0000_0000_0000_0000 == 0
    ensures IsLong(x) ==> r == x
  {
    (x - LongMin) % 0x1_0000_0000_0000_0000 + LongMin
  }

  /** The `int` a Java int operation yields for the exact result `x`. */
  function WrapInt(x: int): (r: int)
    ensures IsInt(r)
    ensures (x - r) % 0x1_0000_0000 == 0
    ensures IsInt(x) ==> r == x
  {
    (x - IntMin) % 0x1_0000_0000 + IntMin
  }

  /** `Math.min`. */
  function Min(a: int, b: int): int {
    if a <= b then a else b
  }
}
