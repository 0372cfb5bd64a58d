/** The two bit tricks of the texture processor: the power-of-two test `x & (x - 1)` and
    the round-up to a power of two by smearing the highest set bit into every lower one. */
module PowerOfTwo {
  import opened Int32

  /** `isPowerOfTwo`: a nonzero `int` whose 32-bit pattern has a single set bit. Besides the
      positive powers of two this admits `int.MinValue`, whose pattern is 0x8000_0000. */
  function IsPowerOfTwo(x: int32): (r: bool)
    ensures r <==> x == -0x8000_0000 || (x > 0 && IsPow2(x))
  {
    PowerOfTwoTest(x);
    x != 0 && And32(x, Wrap(x as int - 1)) == 0
  }

  lemma PowerOfTwoTest(x: int32)
    ensures (x != 0 && And32(x, Wrap(x as int - 1)) == 0) <==> x == -0x8000_0000 || (x > 0 && IsPow2(x))
  {
    if x != 0 {
      Pow2Is32();
      var u := Unsigned(x);
      UnsignedDecrement(x);
      var b := BitAnd(u, u - 1, 32);
      assert And32(x, Wrap(x as int - 1)) == Signed(b);
      assert Signed(b) == 0 <==> b == 0 by {
        assert Unsigned(Signed(b)) == b;
      }
      ClearLowestBit(u, 32);
      if x < 0 {
        if IsPow2(u) {
          IsPow2Exact(u);
          Log2Unique(u, 31);
        } else {
          Pow2IsPow2(31);
        }
      }
    }
  }

  /** The least power of two that is at least x, as `Pow2roundup` computes it over `int`:
      0 for x <= 0 and, once that power no longer fits, the wrapped-around `int.MinValue`. */
  function RoundUpPow2(x: int32): (r: int32)
    ensures x <= 0 ==> r == 0
    ensures 0 < x <= 0x4000_0000 ==> IsPow2(r) && x <= r < 2 * x
    ensures 0x4000_0000 < x ==> r == -0x8000_0000
  {
    Pow2Is32();
    if x <= 0 then 0
    else if x > 0x4000_0000 then -0x8000_0000
    else
      var L := BitLen(x - 1);
      BitLenAtMost30(x - 1);
      Pow2Monotone(L, 30);
      Pow2IsPow2(L);
      Pow2(L)
  }

  lemma BitLenAtMost30(y: nat)
    requires y < 0x4000_0000
    ensures BitLen(y) <= 30
    ensures y < Pow2(BitLen(y))
    ensures y >= 1 ==> Pow2(BitLen(y)) <= 2 * y
  {
    BitLenBounds(y);
    Pow2Is32();
    if BitLen(y) > 30 {
      Pow2Monotone(30, BitLen(y) - 1);
    }
  }

  /** No smaller power of two reaches x. */
  lemma RoundUpPow2Least(x: int32, p: int)
    requires 0 < x <= 0x4000_0000
    requires IsPow2(p) && p >= x
    ensures RoundUpPow2(x) <= p
  {
    var r := RoundUpPow2(x);
    if p < r {
      Pow2Gap(p, r);
    }
  }

  /** The high bits of an L-bit number: its top m bits are all ones. */
  ghost predicate TopOnes(v: nat, L: nat, m: nat)
  {
    m <= L && v < Pow2(L) && ShiftRight(v, L - m) == Ones(m)
  }

  /** What `Pow2roundup` keeps between its smearing steps: either the all-ones pattern of
      -1 (the round-up of 0), or a nonnegative L-bit value whose top k bits (all L of them
      once k >= L) are set. */
  ghost predicate Smeared(x: int32, L: nat, k: nat)
  {
    x == -1 || (0 <= x && L <= 31 && TopOnes(x, L, Min(k, L)))
  }

  /** One `x |= x >> s` step: the run of leading ones grows from k to k + s. */
  lemma SmearStep(x: int32, L: nat, k: nat, s: nat)
    requires Smeared(x, L, k)
    requires 1 <= s <= k && s < 32
    ensures Smeared(Or32(x, Shr(x, s)), L, k + s)
    ensures x == -1 <==> Or32(x, Shr(x, s)) == -1
  {
    if x == -1 {
      SmearMinusOne(s);
    } else {
      SmearStepNonnegative(x, L, k, s);
    }
  }

  /** The step on a nonnegative L-bit value: the result stays nonnegative and L bits wide. */
  lemma SmearStepNonnegative(x: int32, L: nat, k: nat, s: nat)
    requires 0 <= x && L <= 31 && TopOnes(x, L, Min(k, L))
    requires 1 <= s <= k && s < 32
    ensures 0 <= Or32(x, Shr(x, s)) && TopOnes(Or32(x, Shr(x, s)), L, Min(k + s, L))
  {
    var v: nat := x;
    OrShiftSmall(v, L, s);
    var m := Min(k, L);
    SmearTop(v, L, m, s);
    assert Min(m + s, L) == Min(k + s, L);
  }

  /** On a value below 2^L with L <= 31, `x | x >> s` is the bit pattern OR of the two. */
  lemma OrShiftSmall(v: nat, L: nat, s: nat)
    requires v < Pow2(L) && L <= 31 && s < 32
    ensures v < TwoTo31 && Or32(v, Shr(v, s)) == BitOr(v, ShiftRight(v, s), 32)
  {
    var sv := ShiftRight(v, s);
    Pow2Is32();
    Pow2Monotone(L, 31);
    assert Shr(v, s) == sv;
    BitOrBelow(v, sv, 32, L);
    Or32Small(v, sv);
  }

  /** -1 is all ones, and so is -1 >> s; smearing leaves it alone. */
  lemma SmearMinusOne(s: nat)
    requires s < 32
    ensures Or32(-1, Shr(-1, s)) == -1
  {
    Pow2Is32();
    ShiftRightMinusOne(s);
    BitOrSelf(TwoTo32 - 1, 32);
  }

  /** On nonnegative operands whose OR stays below 2^31, `|` is the bit pattern OR. */
  lemma Or32Small(a: nat, b: nat)
    requires a < TwoTo31 && b < TwoTo31 && BitOr(a, b, 32) < TwoTo31
    ensures Or32(a, b) == BitOr(a, b, 32)
  {
  }

  lemma SmearTop(v: nat, L: nat, m: nat, s: nat)
    requires TopOnes(v, L, m) && L <= 32
    requires 1 <= s && (s <= m || m == L)
    ensures TopOnes(BitOr(v, ShiftRight(v, s), 32), L, Min(m + s, L))
  {
    Pow2Monotone(L, 32);
    BitOrBelow(v, ShiftRight(v, s), 32, L);
    if m == L {
      SmearTopSaturated(v, L, s);
    } else {
      SmearTopGrows(v, L, m, s);
    }
  }

  /** Already all ones: the shifted copy adds nothing. */
  lemma SmearTopSaturated(v: nat, L: nat, s: nat)
    requires TopOnes(v, L, L) && L <= 32 && 1 <= s
    ensures BitOr(v, ShiftRight(v, s), 32) == v
  {
    assert v == Ones(L);
    ShiftRightOnes(L, s);
    if s <= L {
      ShiftRightOnes(L, L - s);
      BitOrComm(v, Ones(L - s), 32);
      BitOrFillsLow(v, L - s, s, 32);
    } else {
      OnesIsPow2Minus1(L);
      Pow2Monotone(L, 32);
      BitOrZero(v, 32);
    }
  }

  /** The top n = min(m + s, L) bits of the result are ones. */
  lemma SmearTopGrows(v: nat, L: nat, m: nat, s: nat)
    requires TopOnes(v, L, m) && L <= 32 && 1 <= s <= m < L
    ensures ShiftRight(BitOr(v, ShiftRight(v, s), 32), L - Min(m + s, L)) == Ones(Min(m + s, L))
  {
    var n := Min(m + s, L);
    SmearGrowsTo(v, L, m, s, n);
  }

  lemma SmearGrowsTo(v: nat, L: nat, m: nat, s: nat, n: nat)
    requires L <= 32 && 1 <= s <= m < L && ShiftRight(v, L - m) == Ones(m)
    requires n <= L && m < n <= m + s
    ensures ShiftRight(BitOr(v, ShiftRight(v, s), 32), L - n) == Ones(n)
  {
    var j := L - n;
    var a := n - m;
    var p := ShiftRight(v, j);
    ShiftRightAdd(v, j, a);
    calc {
      ShiftRight(BitOr(v, ShiftRight(v, s), 32), j);
    == { OrShiftedBy(v, s, j); }
      BitOr(p, ShiftRight(p, s), 32 - j);
    == { ShiftRightOnesFrom(p, a, m, s, n - s); }
      BitOr(p, Ones(n - s), 32 - j);
    == { ShiftRightOnesFrom(p, a, m, n - s, s); BitOrFillsLow(p, n - s, s, 32 - j); }
      Ones(n);
    }
  }

  /** Shifting `v | v >> s` right by j shifts both operands. */
  lemma OrShiftedBy(v: nat, s: nat, j: nat)
    requires j <= 32
    ensures ShiftRight(BitOr(v, ShiftRight(v, s), 32), j)
         == BitOr(ShiftRight(v, j), ShiftRight(ShiftRight(v, j), s), 32 - j)
  {
    BitOrShiftRight(v, ShiftRight(v, s), 32, j);
    ShiftRightAdd(v, s, j);
    ShiftRightAdd(v, j, s);
  }

  /** Below a run of m leading ones found at shift a, every shift c within the run leaves
      the rest of the run. */
  lemma ShiftRightOnesFrom(p: nat, a: nat, m: nat, c: nat, r: nat)
    requires ShiftRight(p, a) == Ones(m) && a <= c <= a + m && r == m - (c - a)
    ensures ShiftRight(p, c) == Ones(r)
  {
    ShiftRightAdd(p, a, c - a);
    ShiftRightOnes(m, c - a);
  }

  /** `Pow2roundup`: decrement, smear the highest set bit into all lower bits, increment. */
  method Pow2Roundup(x0: int32) returns (r: int32)
    ensures r == RoundUpPow2(x0)
  {
    var x := x0;
    if x < 0 {
      return 0;
    }
    x := Wrap(x as int - 1);
    ghost var L := SmearLength(x);
    ghost var smeared := SmearsFrom(x, 1);
    SmearStart(x);
    SmearsFromSmeared(x, L, 1);
    x := Or32(x, Shr(x, 1));
    assert SmearsFrom(x, 2) == smeared;
    x := Or32(x, Shr(x, 2));
    assert SmearsFrom(x, 4) == smeared;
    x := Or32(x, Shr(x, 4));
    assert SmearsFrom(x, 8) == smeared;
    x := Or32(x, Shr(x, 8));
    assert SmearsFrom(x, 16) == smeared;
    x := Or32(x, Shr(x, 16));
    assert x == smeared;
    SmearFinish(x0, x, L);
    r := Wrap(x as int + 1);
  }

  /** The smearing steps from shift k on: `x |= x >> k`, then the same with 2k, and so on
      while the shift is below 32. */
  ghost function SmearsFrom(x: int32, k: nat): int32
    requires 1 <= k
    decreases 32 - k
  {
    if k >= 32 then x else SmearsFrom(Or32(x, Shr(x, k)), 2 * k)
  }

  /** Each remaining step doubles the run of leading ones, until all L bits are set; -1
      stays -1 and nothing else becomes -1. */
  lemma {:induction false} SmearsFromSmeared(x: int32, L: nat, k: nat)
    requires 1 <= k && Smeared(x, L, k)
    ensures Smeared(SmearsFrom(x, k), L, 32)
    ensures x == -1 <==> SmearsFrom(x, k) == -1
    decreases 32 - k
  {
    if k < 32 {
      SmearStep(x, L, k, k);
      SmearsFromSmeared(Or32(x, Shr(x, k)), L, 2 * k);
    }
  }

  /** The number of bits the smearing fills: all bits below the leading one, inclusive. */
  ghost function SmearLength(x: int32): nat
  {
    if x < 0 then 0 else BitLen(x)
  }

  lemma SmearStart(x: int32)
    requires -1 <= x
    ensures Smeared(x, SmearLength(x), 1)
  {
    if 0 <= x {
      var L := BitLen(x);
      BitLenBounds(x);
      Pow2Is32();
      if L > 31 {
        Pow2Monotone(31, L - 1);
      }
      if 1 <= L {
        ShiftRightBitLen(x);
      }
    }
  }

  lemma SmearFinish(x0: int32, x: int32, L: nat)
    requires 0 <= x0 && L == SmearLength(Wrap(x0 as int - 1))
    requires Smeared(x, L, 32) && (x0 == 0 <==> x == -1)
    ensures Wrap(x as int + 1) == RoundUpPow2(x0)
  {
    if x0 > 0 {
      var y: nat := x0 - 1;
      assert L == BitLen(y);
      Pow2Is32();
      assert x == Ones(L);
      OnesIsPow2Minus1(L);
      if x0 <= 0x4000_0000 {
        SmearFinishSmall(x0, y, L);
      } else {
        SmearFinishLarge(x0, y, L);
      }
    }
  }

  /** Below 2^30 the smeared value plus one is the power of two just above x0 - 1. */
  lemma SmearFinishSmall(x0: int32, y: nat, L: nat)
    requires 0 < x0 <= 0x4000_0000 && y == x0 as int - 1 && L == BitLen(y)
    ensures Pow2(L) <= 0x4000_0000 && RoundUpPow2(x0) == Pow2(L)
  {
    Pow2Is32();
    BitLenAtMost30(y);
    Pow2Monotone(L, 30);
  }

  /** Above 2^30 the smeared value is 2^31 - 1, so adding one wraps to int.MinValue. */
  lemma SmearFinishLarge(x0: int32, y: nat, L: nat)
    requires 0x4000_0000 < x0 && y == x0 as int - 1 && L == BitLen(y)
    ensures L == 31 && Wrap(TwoTo31) == RoundUpPow2(x0)
  {
    Pow2Is32();
    BitLenBounds(y);
    if L > 31 {
      Pow2Monotone(31, L - 1);
    } else if L < 31 {
      Pow2Monotone(L, 30);
    }
  }
}
