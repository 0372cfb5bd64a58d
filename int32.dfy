/** C#'s 32-bit `int` and the integer helpers the texture code leans on: unchecked
    two's-complement wrap-around, truncating division, `>>` with its masked shift count,
    `|` and `&` on bit patterns, and powers of two. Shifts are repeated halvings, which keeps
    every proof in linear arithmetic. */
module Int32 {

  const TwoTo31: int := 0x8000_0000
  const TwoTo32: int := 0x1_0000_0000

  /** The values of a C# `int`. */
  type int32 = x: int | -0x8000_0000 <= x < 0x8000_0000

  /** The values of a C# `byte`. */
  type byte = x: int | 0 <= x < 0x100

  function Min(a: int, b: int): int { if a <= b then a else b }
  function Max(a: int, b: int): int { if a >= b then a else b }

  /** Unchecked C# arithmetic: the mathematical result reduced into the 32-bit range. */
  function Wrap(x: int): (r: int32)
    ensures -TwoTo31 <= x < TwoTo31 ==> r == x
  {
    var u := x % TwoTo32;
    if u < TwoTo31 then u else u - TwoTo32
  }

  /** Wrapping changes a value by a multiple of 2^32: it keeps the low 32 bits. */
  lemma WrapCongruent(x: int)
    ensures (Wrap(x) - x) % TwoTo32 == 0
  {
  }

  /** The 32-bit pattern of an `int`, read as an unsigned number. */
  function Unsigned(x: int32): (u: nat)
    ensures u < TwoTo32
    ensures 0 <= x ==> u == x
    ensures x < 0 ==> u == x + TwoTo32
  {
    if x < 0 then x + TwoTo32 else x
  }

  /** The `int` whose 32-bit pattern is `u`. */
  function Signed(u: nat): (x: int32)
    requires u < TwoTo32
    ensures Unsigned(x) == u
  {
    if u < TwoTo31 then u else u - TwoTo32
  }

  /** C# integer division, which truncates toward zero (Dafny's `/` is Euclidean). */
  function TruncDiv(a: int, b: int): (q: int)
    requires b > 0
    ensures 0 <= a ==> 0 <= a - q * b < b
    ensures a < 0 ==> -b < a - q * b <= 0
  {
    if a >= 0 then a / b else -((-a) / b)
  }

  function Pow2(k: nat): (p: nat)
    ensures p >= 1
  {
    if k == 0 then 1 else 2 * Pow2(k - 1)
  }

  /** 2^k - 1: k one-bits. */
  function Ones(k: nat): nat
  {
    if k == 0 then 0 else 2 * Ones(k - 1) + 1
  }

  /** `v` shifted right by `k` bits with the sign kept: k floor-halvings (Dafny's `/` by a
      positive divisor rounds toward minus infinity, as an arithmetic shift does). */
  function ShiftRight(v: int, k: nat): (r: int)
    ensures 0 <= v ==> 0 <= r <= v
    ensures v < 0 ==> v <= r < 0
    decreases k
  {
    if k == 0 then v else ShiftRight(v / 2, k - 1)
  }

  /** C#'s `v >> k` on an `int`: an arithmetic shift whose count is masked with `& 31`. */
  function Shr(v: int32, k: int): (r: int32)
    ensures 0 <= v ==> 0 <= r <= v
  {
    ShiftRight(v, k % 32)
  }

  /** n is 2^k for some k >= 0. */
  predicate IsPow2(n: int)
    decreases if n < 0 then 0 else n
  {
    n == 1 || (n > 1 && n % 2 == 0 && IsPow2(n / 2))
  }

  /** floor(log2 n). */
  function Log2(n: int): nat
    requires n >= 1
  {
    if n == 1 then 0 else 1 + Log2(n / 2)
  }

  /** Number of binary digits of n (0 for 0). */
  function BitLen(n: nat): nat
  {
    if n == 0 then 0 else 1 + BitLen(n / 2)
  }

  /** The low `width` bits of the bitwise OR of `a` and `b`. */
  function BitOr(a: nat, b: nat, width: nat): (r: nat)
    ensures r < Pow2(width)
  {
    if width == 0 then 0
    else 2 * BitOr(a / 2, b / 2, width - 1) + (if a % 2 == 1 || b % 2 == 1 then 1 else 0)
  }

  /** The low `width` bits of the bitwise AND of `a` and `b`. */
  function BitAnd(a: nat, b: nat, width: nat): (r: nat)
    ensures r < Pow2(width)
  {
    if width == 0 then 0
    else 2 * BitAnd(a / 2, b / 2, width - 1) + (if a % 2 == 1 && b % 2 == 1 then 1 else 0)
  }

  lemma Pow2Is32()
    ensures Pow2(32) == TwoTo32 && Pow2(31) == TwoTo31 && Pow2(30) == 0x4000_0000
  {
    assert Pow2(8) == 0x100;
    assert Pow2(16) == 0x1_0000;
    assert Pow2(24) == 0x100_0000;
  }

  /** C#'s `a | b` on `int`. */
  function Or32(a: int32, b: int32): int32
  {
    Pow2Is32();
    Signed(BitOr(Unsigned(a), Unsigned(b), 32))
  }

  /** Decrementing a nonzero `int` decrements its bit pattern, wrapping `int.MinValue`
      round to `int.MaxValue`. */
  lemma UnsignedDecrement(x: int32)
    requires x != 0
    ensures Unsigned(Wrap(x as int - 1)) == Unsigned(x) - 1
  {
    if x == -TwoTo31 {
      assert Wrap(x as int - 1) == TwoTo31 - 1;
    }
  }

  /** C#'s `a & b` on `int`. */
  function And32(a: int32, b: int32): int32
  {
    Pow2Is32();
    Signed(BitAnd(Unsigned(a), Unsigned(b), 32))
  }

  // ---------------------------------------------------------------------------------------
  // Powers of two and logarithms

  lemma {:induction false} OnesIsPow2Minus1(k: nat)
    ensures Ones(k) == Pow2(k) - 1
  {
    if k > 0 {
      OnesIsPow2Minus1(k - 1);
    }
  }

  lemma {:induction false} Pow2Monotone(a: nat, b: nat)
    requires a <= b
    ensures Pow2(a) <= Pow2(b)
  {
    if a < b {
      Pow2Monotone(a, b - 1);
    }
  }

  lemma {:induction false} Pow2IsPow2(k: nat)
    ensures IsPow2(Pow2(k))
  {
    if k > 0 {
      Pow2IsPow2(k - 1);
      assert Pow2(k) / 2 == Pow2(k - 1);
    }
  }

  lemma {:induction false} Log2Bounds(n: int)
    requires n >= 1
    ensures Pow2(Log2(n)) <= n < Pow2(Log2(n) + 1)
  {
    if n > 1 {
      Log2Bounds(n / 2);
    }
  }

  /** Log2 is the one exponent whose power brackets n. */
  lemma Log2Unique(n: int, k: nat)
    requires Pow2(k) <= n < Pow2(k + 1)
    ensures Log2(n) == k
  {
    Log2Bounds(n);
    if Log2(n) < k {
      Pow2Monotone(Log2(n) + 1, k);
    } else if Log2(n) > k {
      Pow2Monotone(k + 1, Log2(n));
    }
  }

  lemma {:induction false} Log2Monotone(a: int, b: int)
    requires 1 <= a <= b
    ensures Log2(a) <= Log2(b)
  {
    if a > 1 {
      Log2Monotone(a / 2, b / 2);
    }
  }

  /** The recursive definition of a power of two agrees with "n == 2^k". */
  lemma {:induction false} IsPow2Exact(n: int)
    ensures IsPow2(n) <==> n >= 1 && n == Pow2(Log2(n))
  {
    if n > 1 {
      IsPow2Exact(n / 2);
      Log2Bounds(n);
    }
  }

  /** Two powers of two that are not equal are at least a factor of two apart. */
  lemma Pow2Gap(p: int, q: int)
    requires IsPow2(p) && IsPow2(q) && p < q
    ensures 2 * p <= q
  {
    IsPow2Exact(p);
    IsPow2Exact(q);
    if Log2(p) >= Log2(q) {
      Pow2Monotone(Log2(q), Log2(p));
    } else {
      Pow2Monotone(Log2(p) + 1, Log2(q));
    }
  }

  lemma {:induction false} BitLenBounds(n: nat)
    ensures n < Pow2(BitLen(n))
    ensures n >= 1 ==> BitLen(n) >= 1 && Pow2(BitLen(n) - 1) <= n
  {
    if n > 0 {
      BitLenBounds(n / 2);
    }
  }

  // ---------------------------------------------------------------------------------------
  // Shifts

  lemma {:induction false} ShiftRightAdd(v: int, a: nat, b: nat)
    ensures ShiftRight(ShiftRight(v, a), b) == ShiftRight(v, a + b)
    decreases a
  {
    if a > 0 {
      ShiftRightAdd(v / 2, a - 1, b);
    }
  }

  /** One more shift halves the value. */
  lemma ShiftRightStep(v: int, k: nat)
    ensures ShiftRight(v, k + 1) == ShiftRight(v, k) / 2
  {
    ShiftRightAdd(v, k, 1);
  }

  /** An (j + n)-bit number shifted right by j is an n-bit number. */
  lemma {:induction false} ShiftRightBelow(v: nat, j: nat, n: nat)
    requires v < Pow2(j + n)
    ensures ShiftRight(v, j) < Pow2(n)
  {
    if j > 0 {
      ShiftRightBelow(v / 2, j - 1, n);
    }
  }

  /** A number whose bits at and above position L are all zero is below 2^L. */
  lemma {:induction false} ShiftRightZero(v: nat, L: nat)
    requires ShiftRight(v, L) == 0
    ensures v < Pow2(L)
  {
    if L > 0 {
      ShiftRightZero(v / 2, L - 1);
    }
  }

  lemma {:induction false} ShiftRightOnes(m: nat, t: nat)
    ensures ShiftRight(Ones(m), t) == if t <= m then Ones(m - t) else 0
  {
    if t > 0 {
      if m == 0 {
        ShiftRightOnes(0, t - 1);
      } else {
        ShiftRightOnes(m - 1, t - 1);
      }
    }
  }

  lemma {:induction false} ShiftRightMinusOne(k: nat)
    ensures ShiftRight(-1, k) == -1
  {
    if k > 0 {
      ShiftRightMinusOne(k - 1);
    }
  }

  /** The leading one of a positive number. */
  lemma {:induction false} ShiftRightBitLen(y: nat)
    requires y >= 1
    ensures BitLen(y) >= 1 && ShiftRight(y, BitLen(y) - 1) == 1
  {
    if y / 2 >= 1 {
      ShiftRightBitLen(y / 2);
    }
  }

  /** Shifting a positive number right by its logarithm leaves exactly 1. */
  lemma {:induction false} ShiftRightLog2(n: int)
    requires n >= 1
    ensures ShiftRight(n, Log2(n)) == 1
  {
    if n > 1 {
      ShiftRightLog2(n / 2);
    }
  }

  /** Shifting further than the logarithm leaves 0. */
  lemma {:induction false} ShiftRightPastLog2(n: int, k: nat)
    requires n >= 1 && k > Log2(n)
    ensures ShiftRight(n, k) == 0
  {
    if n > 1 {
      ShiftRightPastLog2(n / 2, k - 1);
    } else {
      ShiftRightZeroStays(0, k - 1);
    }
  }

  lemma {:induction false} ShiftRightZeroStays(z: int, k: nat)
    requires z == 0
    ensures ShiftRight(z, k) == 0
  {
    if k > 0 {
      ShiftRightZeroStays(z, k - 1);
    }
  }

  // ---------------------------------------------------------------------------------------
  // Bitwise OR / AND facts

  lemma {:induction false} BitOrShiftRight(a: nat, b: nat, width: nat, j: nat)
    requires j <= width
    ensures BitOr(a, b, width) >= 0
    ensures ShiftRight(BitOr(a, b, width), j) == BitOr(ShiftRight(a, j), ShiftRight(b, j), width - j)
  {
    if j > 0 {
      BitOrShiftRight(a / 2, b / 2, width - 1, j - 1);
    }
  }

  lemma {:induction false} BitOrComm(a: nat, b: nat, width: nat)
    ensures BitOr(a, b, width) == BitOr(b, a, width)
  {
    if width > 0 {
      BitOrComm(a / 2, b / 2, width - 1);
    }
  }

  lemma {:induction false} BitOrZero(p: nat, width: nat)
    requires p < Pow2(width)
    ensures BitOr(p, 0, width) == p
  {
    if width > 0 {
      BitOrZero(p / 2, width - 1);
    }
  }

  lemma {:induction false} BitOrZeroZero(width: nat)
    ensures BitOr(0, 0, width) == 0
  {
    if width > 0 {
      BitOrZeroZero(width - 1);
    }
  }

  lemma {:induction false} BitOrSelf(a: nat, width: nat)
    requires a < Pow2(width)
    ensures BitOr(a, a, width) == a
  {
    if width > 0 {
      BitOrSelf(a / 2, width - 1);
    }
  }

  /** OR of two L-bit numbers is an L-bit number. */
  lemma BitOrBelow(a: nat, b: nat, width: nat, L: nat)
    requires L <= width && a < Pow2(L) && b < Pow2(L)
    ensures BitOr(a, b, width) < Pow2(L)
  {
    ShiftRightBelow(a, L, 0);
    ShiftRightBelow(b, L, 0);
    BitOrShiftRight(a, b, width, L);
    BitOrZeroZero(width - L);
    ShiftRightZero(BitOr(a, b, width), L);
  }

  /** If the bits of p above position t are k ones, OR-ing in t low ones gives t + k ones. */
  lemma {:induction false} BitOrFillsLow(p: nat, t: nat, k: nat, width: nat)
    requires t + k <= width && ShiftRight(p, t) == Ones(k)
    ensures BitOr(p, Ones(t), width) == Ones(t + k)
  {
    if t == 0 {
      assert p == Ones(k);
      OnesIsPow2Minus1(k);
      Pow2Monotone(k, width);
      BitOrZero(p, width);
      assert BitOr(p, Ones(t), width) == Ones(t + k);
    } else {
      assert Ones(t) / 2 == Ones(t - 1) && Ones(t) % 2 == 1;
      assert BitOr(p, Ones(t), width) == 2 * BitOr(p / 2, Ones(t - 1), width - 1) + 1;
      BitOrFillsLow(p / 2, t - 1, k, width - 1);
      assert Ones(t + k) == 2 * Ones(t - 1 + k) + 1;
      assert BitOr(p, Ones(t), width) == Ones(t + k);
    }
  }

  lemma {:induction false} BitAndSelf(a: nat, width: nat)
    requires a < Pow2(width)
    ensures BitAnd(a, a, width) == a
  {
    if width > 0 {
      BitAndSelf(a / 2, width - 1);
    }
  }

  /** The `x & (x - 1) == 0` test: clearing the lowest set bit of a positive number leaves
      nothing exactly when it had a single set bit. */
  lemma {:induction false} ClearLowestBit(u: nat, width: nat)
    requires 1 <= u < Pow2(width)
    ensures BitAnd(u, u - 1, width) == 0 <==> IsPow2(u)
  {
    var m := u / 2;
    if u % 2 == 1 {
      assert (u - 1) / 2 == m;
      BitAndSelf(m, width - 1);
    } else {
      assert (u - 1) / 2 == m - 1;
      ClearLowestBit(m, width - 1);
    }
  }

  // ---------------------------------------------------------------------------------------
  // Mip-level extents

  /** The edge of mip level `level` of an image whose level-0 edge is `d`:
      `Math.Max(d >> level, 1)`, with C#'s masked shift count. */
  function MipExtent(d: int32, level: int): (e: int32)
    ensures 1 <= e
    ensures 1 <= d ==> e <= d
  {
    Max(Shr(d, level), 1)
  }

  /** Each mip level halves the previous one (rounding down, never below 1). */
  lemma MipExtentHalves(d: int32, level: nat)
    requires 1 <= d && level < 31
    ensures MipExtent(d, level + 1) == Max(MipExtent(d, level) / 2, 1)
  {
    var a := ShiftRight(d, level);
    ShiftRightStep(d, level);
    assert Shr(d, level) == a && Shr(d, level + 1) == a / 2;
  }

  /** The chain reaches 1 exactly at level floor(log2 d), and stays above 1 before it. */
  lemma MipExtentReachesOne(d: int32, level: nat)
    requires 1 <= d && level < 32
    ensures MipExtent(d, level) == 1 <==> level >= Log2(d)
  {
    if level >= Log2(d) {
      if level == Log2(d) {
        ShiftRightLog2(d);
      } else {
        ShiftRightPastLog2(d, level);
      }
    } else {
      ShiftRightLog2(d);
      ShiftRightAdd(d, level, Log2(d) - level);
      ShiftRightAtLeastOne(ShiftRight(d, level), Log2(d) - level);
    }
  }

  /** A value that shifts down to at least 1 in k > 0 steps was at least 2. */
  lemma {:induction false} ShiftRightAtLeastOne(v: int, k: nat)
    requires k > 0 && ShiftRight(v, k) >= 1
    ensures v >= 2
  {
    if k > 1 {
      ShiftRightAtLeastOne(v / 2, k - 1);
    }
  }
}
