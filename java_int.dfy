/** Java's 32-bit `int` arithmetic, as the measure rule uses it: subtraction and
    multiplication wrap around in two's complement, and division truncates toward
    zero and throws `ArithmeticException` when the divisor is zero. Also the
    widening of an `int` to `float` that a `float` parameter applies. */
module JavaInt {

  const TwoTo32: int := 0x1_0000_0000
  const MinValue: int := -0x8000_0000
  const MaxValue: int := 0x7fff_ffff

  /** The values a Java `int` can hold. */
  predicate IsInt(x: int) {
    MinValue <= x <= MaxValue
  }

  function Abs(x: int): (r: int)
    ensures 0 <= r && (r == x || r == -x)
  {
    if x < 0 then -x else x
  }

  /** The Java `int` that holds the mathematical value `x` after two's-complement
      truncation: the unique value in range that is congruent to `x` modulo 2^32. */
  function Wrap(x: int): (r: int)
    ensures IsInt(r)
    ensures (x - r) % TwoTo32 == 0
    ensures IsInt(x) ==> r == x
  {
    var m := x % TwoTo32;
    if m <= MaxValue then m else m - TwoTo32
  }

  /** Adding a multiple of 2^32 does not change the wrapped value. */
  lemma WrapShift(x: int, k: int)
    ensures Wrap(x + k * TwoTo32) == Wrap(x)
  {
    var y := x + k * TwoTo32;
    assert y / TwoTo32 == x / TwoTo32 + k by {
      assert y == (x / TwoTo32 + k) * TwoTo32 + x % TwoTo32;
    }
    assert y % TwoTo32 == x % TwoTo32;
  }

  /** Wrapping an intermediate result does not change the final wrapped value:
      a chain of Java `int` operations is the wrapped chain of exact operations. */
  lemma WrapAbsorbs(x: int, y: int)
    ensures Wrap(Wrap(x) + y) == Wrap(x + y)
  {
    var k := (x - Wrap(x)) / TwoTo32;
    assert x - Wrap(x) == k * TwoTo32;
    WrapShift(Wrap(x) + y, k);
  }

  /** Java `a - b` on `int`. */
  function Sub(a: int, b: int): (r: int)
    ensures IsInt(r)
    ensures IsInt(a - b) ==> r == a - b
  {
    Wrap(a - b)
  }

  /** Java `a * b` on `int`. */
  function Mul(a: int, b: int): (r: int)
    ensures IsInt(r)
    ensures IsInt(a * b) ==> r == a * b
  {
    Wrap(a * b)
  }

  /** Division truncating toward zero, as Java's `/` on integers does (Dafny's own
      `/` is Euclidean). The remainder `a - q * b` is smaller than the divisor in
      magnitude and is zero or has the sign of the dividend. */
  function Quot(a: int, b: int): (q: int)
    requires b != 0
    ensures Abs(a - q * b) < Abs(b)
    ensures a - q * b == 0 || (a - q * b < 0 <==> a < 0)
    ensures Abs(q) == Abs(a) / Abs(b)
  {
    var n := Abs(a) / Abs(b);
    var q := if (a < 0) == (b < 0) then n else -n;
    QuotRemainder(a, b, q);
    q
  }

  lemma QuotRemainder(a: int, b: int, q: int)
    requires b != 0
    requires q == if (a < 0) == (b < 0) then Abs(a) / Abs(b) else -(Abs(a) / Abs(b))
    ensures Abs(a - q * b) < Abs(b)
    ensures a - q * b == 0 || (a - q * b < 0 <==> a < 0)
    ensures Abs(q) == Abs(a) / Abs(b)
  {
    var n, r := Abs(a) / Abs(b), Abs(a) % Abs(b);
    DivMod(Abs(a), Abs(b));
    RemainderOf(a, b, q, n, r);
  }

  lemma DivMod(x: int, y: int)
    requires 0 <= x && 0 < y
    ensures x == (x / y) * y + x % y && 0 <= x % y < y && 0 <= x / y
  {
  }

  /** The remainder left by `q = ±n` where `|a| = n * |b| + r`. */
  lemma RemainderOf(a: int, b: int, q: int, n: int, r: int)
    requires b != 0 && Abs(a) == n * Abs(b) + r
    requires q == if (a < 0) == (b < 0) then n else -n
    ensures a - q * b == if a < 0 then -r else r
  {
    MulSigns(n, Abs(b));
  }

  lemma MulSigns(x: int, y: int)
    ensures x * (-y) == -(x * y)
    ensures (-x) * y == -(x * y)
    ensures (-x) * (-y) == x * y
  {
  }

  /** The two remainder conditions determine the truncating quotient: `Quot` is the
      only value that satisfies them. */
  lemma QuotUnique(a: int, b: int, q: int)
    requires b != 0
    requires Abs(a - q * b) < Abs(b)
    requires a - q * b == 0 || (a - q * b < 0 <==> a < 0)
    ensures q == Quot(a, b)
  {
    var p := Quot(a, b);
    var r, s := a - q * b, a - p * b;
    // both remainders lie on the dividend's side of zero, closer to it than |b|
    assert Abs(r - s) < Abs(b);
    assert r - s == (p - q) * b by {
      assert (p - q) * b == p * b - q * b;
    }
    if p != q {
      MulAtLeast(p - q, b);
      assert false;
    }
  }

  /** A non-zero multiple of `b` is at least as large as `b` in magnitude. */
  lemma MulAtLeast(d: int, b: int)
    requires d != 0 && b != 0
    ensures Abs(d * b) >= Abs(b)
  {
    MulSigns(Abs(d), Abs(b));
    assert Abs(d) * Abs(b) >= 1 * Abs(b);
    assert Abs(d * b) == Abs(d) * Abs(b);
  }

  /** On non-negative dividends and positive divisors truncation and Euclidean
      division agree. */
  lemma QuotOfNonNegative(a: int, b: int)
    requires 0 <= a && 0 < b
    ensures Quot(a, b) == a / b
  {
  }

  /** The result of Java's `a / b`: `DivideByZero` stands for the `ArithmeticException`
      thrown on a zero divisor. */
  datatype Quotient = Value(value: int) | DivideByZero

  /** Java `a / b` on `int`: truncates toward zero, throws on a zero divisor, and
      wraps `MinValue / -1` back to `MinValue`. */
  function Div(a: int, b: int): (r: Quotient)
    requires IsInt(a) && IsInt(b)
    ensures r.DivideByZero? <==> b == 0
    ensures r.Value? ==> IsInt(r.value)
    ensures r.Value? && !(a == MinValue && b == -1) ==> r.value == Quot(a, b)
    ensures a == MinValue && b == -1 ==> r == Value(MinValue)
  {
    if b == 0 then DivideByZero
    else
      QuotBounded(a, b);
      Value(Wrap(Quot(a, b)))
  }

  /** A truncating quotient of Java `int`s fits in an `int`, except `MinValue / -1`. */
  lemma QuotBounded(a: int, b: int)
    requires IsInt(a) && IsInt(b) && b != 0
    ensures !(a == MinValue && b == -1) ==> IsInt(Quot(a, b))
  {
    var n := Abs(a) / Abs(b);
    if Abs(b) == 1 {
      assert n == Abs(a);
    } else {
      HalfAtMost(Abs(a), Abs(b));
    }
  }

  lemma HalfAtMost(x: int, y: int)
    requires 0 <= x && 2 <= y
    ensures 2 * (x / y) <= x
  {
    var n := x / y;
    assert x == n * y + x % y;
    assert n * y - 2 * n == n * (y - 2);
    assert 0 <= n * (y - 2);
  }

  /** 1, 2, 4, 8, ... */
  predicate IsPowerOfTwo(n: nat) {
    n == 1 || (2 <= n && n % 2 == 0 && IsPowerOfTwo(n / 2))
  }

  /** The spacing of `float` values at magnitude `a`: 1 below 2^24, doubling with
      every further power of two (a `float` carries a 24-bit significand). */
  function Ulp(a: nat): (u: nat)
    ensures 1 <= u && IsPowerOfTwo(u)
    ensures a < 0x100_0000 ==> u == 1
    ensures 0x100_0000 <= a ==> 0x80_0000 * u <= a < 0x100_0000 * u
    ensures a < 0x200_0000 ==> u <= 2
  {
    if a < 0x100_0000 then 1 else 2 * Ulp(a / 2)
  }

  /** `a` rounded to a nearest multiple of `u`, a tie going to the even multiple. */
  function RoundToMultiple(a: nat, u: nat): (r: nat)
    requires 1 <= u
    ensures r % u == 0
    ensures 2 * Abs(r - a) <= u
    ensures 2 * Abs(r - a) == u ==> (r / u) % 2 == 0
    ensures a % u == 0 ==> r == a
  {
    var q, rem := a / u, a % u;
    DivMod(a, u);
    if 2 * rem < u || (2 * rem == u && q % 2 == 0) then
      MultipleOf(q, u);
      q * u
    else
      assert (q + 1) * u == q * u + u;
      MultipleOf(q + 1, u);
      (q + 1) * u
  }

  /** `k * u` leaves no remainder on division by `u`, and its quotient is `k`. */
  lemma MultipleOf(k: nat, u: nat)
    requires 1 <= u
    ensures (k * u) / u == k && (k * u) % u == 0
  {
    var d := (k * u) / u;
    DivMod(k * u, u);
    assert (k - d) * u == k * u - d * u;
    if k != d {
      MulAtLeast(k - d, u);
    }
  }

  /** Java's widening of an `int` to `float`: round to nearest, ties to even. The
      `float` values reached from an `int` are whole numbers, held here as `int`.
      The result is a multiple of the spacing at `x`, so a `float`; it differs from
      `x` by at most half that spacing, a tie going to the even multiple; and it is
      `x` itself up to magnitude 2^24. */
  function ToFloat(x: int): (r: int)
    ensures Abs(r) % Ulp(Abs(x)) == 0
    ensures 2 * Abs(r - x) <= Ulp(Abs(x))
    ensures 2 * Abs(r - x) == Ulp(Abs(x)) ==> (Abs(r) / Ulp(Abs(x))) % 2 == 0
    ensures Abs(x) <= 0x100_0000 ==> r == x
  {
    var m: int := RoundToMultiple(Abs(x), Ulp(Abs(x)));
    if x < 0 then -m else m
  }
}
