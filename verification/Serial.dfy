/**
 Serial-number arithmetic on 32-bit words (network/kcp/kcp.go:96-98). Every
 sequence number and every millisecond clock of the protocol is a uint32 that
 wraps; two of them are compared by the sign of their 32-bit difference. The
 lemmas say when that comparison agrees with the unbounded one.
 */
module Serial {
  const HALF: int := 0x8000_0000
  const FULL: int := 0x1_0000_0000
  type u32 = x: int | 0 <= x < 0x1_0000_0000
  type i32 = x: int | -0x8000_0000 <= x < 0x8000_0000
  type u16 = x: int | 0 <= x < 0x1_0000

  /** Truncation of an unbounded integer to a uint32. */
  function Wrap(x: int): u32 {
    x % FULL
  }

  /** Truncation of an unbounded integer to an int32 (two's complement). */
  function Signed(x: int): i32 {
    (x + HALF) % FULL - HALF
  }

  /** The source's `_itimediff`: the signed 32-bit difference. */
  function Diff(later: u32, earlier: u32): i32 {
    Signed(later - earlier)
  }

  /** How far `x` lies ahead of `base`, going round the circle. */
  function Offset(x: u32, base: u32): u32 {
    Wrap(x - base)
  }

  function Min(a: int, b: int): int {
    if a <= b then a else b
  }

  function Max(a: int, b: int): int {
    if a >= b then a else b
  }

  /** The comparison is exact precisely when the numbers are within half the circle. */
  lemma DiffExact(a: int, b: int)
    ensures Diff(Wrap(a), Wrap(b)) == a - b <==> -HALF <= a - b < HALF
  {
  }

  /** Truncation commutes with subtraction up to a multiple of the modulus. */
  lemma WrapDifference(a: int, b: int)
    ensures exists q :: (a - b) - (Wrap(a) - Wrap(b)) == q * FULL
  {
    assert (a - b) - (Wrap(a) - Wrap(b)) == (a / FULL - b / FULL) * FULL;
  }

  lemma SignedCong(x: int, y: int)
    requires exists q :: x - y == q * FULL
    ensures Signed(x) == Signed(y)
    ensures Wrap(x) == Wrap(y)
    ensures Signed(x) == x <==> -HALF <= x < HALF
  {
  }

  /** The distance of two truncated numbers is their truncated distance. */
  lemma OffsetWrap(a: int, b: int)
    ensures Offset(Wrap(a), Wrap(b)) == Wrap(a - b)
    ensures Diff(Wrap(a), Wrap(b)) == Signed(a - b)
    ensures Wrap(Wrap(a) + b) == Wrap(a + b)
  {
    WrapDifference(a, b);
    SignedCong(a - b, Wrap(a) - Wrap(b));
    assert (a + b) - (Wrap(a) + b) == (a / FULL) * FULL;
    SignedCong(a + b, Wrap(a) + b);
  }

  /** The distance of two numbers less than a full circle apart. */
  lemma OffsetIs(a: int, b: int)
    requires 0 <= a - b < FULL
    ensures Offset(Wrap(a), Wrap(b)) == a - b
  {
  }

  /** Small unbounded numbers are unchanged by truncation. */
  lemma WrapSmall(x: int)
    ensures Wrap(x) == x <==> 0 <= x < FULL
    ensures Signed(x) == x <==> -HALF <= x < HALF
    ensures HALF <= x < FULL ==> Signed(x) == x - FULL
    ensures -FULL <= x < 0 ==> Wrap(x) == x + FULL
    ensures -FULL <= x < -HALF ==> Signed(x) == x + FULL
  {
  }

  lemma WrapPlus(a: int, b: int)
    ensures Wrap(Wrap(a) + b) == Wrap(a + b)
  {
  }

  lemma SignedId(x: int)
    requires -HALF <= x < HALF
    ensures Signed(x) == x
  {
  }

  lemma WrapId(x: int)
    requires 0 <= x < FULL
    ensures Wrap(x) == x
  {
  }

  /** A word at distance `off` from `base`, seen from `base + i`. */
  lemma DiffFrom(x: u32, base: u32, i: int)
    ensures Diff(x, Wrap(base + i)) == Signed(Offset(x, base) - i)
    ensures x == Wrap(base + i) <==> Offset(x, base) == Wrap(i)
    ensures Wrap(base + Offset(x, base)) == x
  {
    OffsetWrap(x, base + i);
    WrapSmall(x);
    WrapDifference(x - base, i);
    OffsetWrap(x - base, i);
    WrapSmall(Offset(x, base));
    assert Diff(x, Wrap(base + i)) == Signed(x - base - i);
    assert Signed(Offset(x, base) - i) == Signed(x - base - i) by {
      assert (x - base - i) - (Offset(x, base) - i) == ((x - base) / FULL) * FULL;
      SignedCong(x - base - i, Offset(x, base) - i);
    }
    assert Wrap(base + Offset(x, base)) == x by {
      assert (base + Offset(x, base)) - x == -((x - base) / FULL) * FULL;
      SignedCong(base + Offset(x, base), x);
    }
    if Offset(x, base) == Wrap(i) {
      assert (base + Offset(x, base)) - (base + i) == -(i / FULL) * FULL;
      SignedCong(base + Offset(x, base), base + i);
    }
    if x == Wrap(base + i) {
      assert (x - base) - i == -((base + i) / FULL) * FULL;
      SignedCong(x - base, i);
    }
  }

  /** The sign of the comparison with `base`, by distance ahead of it. */
  lemma DiffSign(x: u32, base: u32)
    ensures Diff(x, base) == if Offset(x, base) < HALF then Offset(x, base) else Offset(x, base) - FULL
  {
  }

  /** The comparison with a number a little after `base`. */
  lemma DiffPlace(x: u32, base: u32, i: nat)
    requires i < HALF && Offset(x, base) < HALF
    ensures Diff(x, Wrap(base + i)) == Offset(x, base) - i
    ensures x == Wrap(base + i) <==> Offset(x, base) == i
  {
  }

  /** Two numbers a little after a common base compare like their distances. */
  lemma DiffPlaces(base: u32, a: nat, b: nat)
    requires a < HALF && b < HALF
    ensures Diff(Wrap(base + a), Wrap(base + b)) == a - b
  {
  }
}
