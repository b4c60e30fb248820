/** Bit arithmetic on naturals: `logb` and `round_pow2_boundary` of src/misc/bit_math.c.

    A machine word is a natural below 2^64 and every wrap-around is written out.  The bitwise
    operators are defined digit by digit, so that they can be related to division and to
    powers of two by induction. */
module BitMath {

  type Byte = b: nat | b < 256

  const U32: nat := 0x1_0000_0000
  const U64: nat := 0x1_0000_0000_0000_0000

  function Pow2(n: nat): (p: nat)
    ensures p > 0
  {
    if n == 0 then 1 else 2 * Pow2(n - 1)
  }

  function Or(a: nat, b: nat): nat
    decreases a + b
  {
    if a == 0 && b == 0 then 0
    else 2 * Or(a / 2, b / 2) + (if a % 2 == 1 || b % 2 == 1 then 1 else 0)
  }

  function Xor(a: nat, b: nat): nat
    decreases a + b
  {
    if a == 0 && b == 0 then 0
    else 2 * Xor(a / 2, b / 2) + (if a % 2 != b % 2 then 1 else 0)
  }

  function Shr(a: nat, k: nat): nat {
    if k == 0 then a else Shr(a / 2, k - 1)
  }

  /** The n lowest binary digits of a are zero. */
  predicate LowZeros(a: nat, n: nat) {
    n == 0 || (a % 2 == 0 && LowZeros(a / 2, n - 1))
  }

  // ----- arithmetic of multiples and powers of two

  lemma Pow2Add(a: nat, b: nat)
    ensures Pow2(a + b) == Pow2(a) * Pow2(b)
  {
    if a > 0 {
      Pow2Add(a - 1, b);
    }
  }

  lemma Pow2Monotone(a: nat, b: nat)
    requires a <= b
    ensures Pow2(a) <= Pow2(b)
    ensures a < b ==> 2 * Pow2(a) <= Pow2(b)
    decreases b
  {
    if a < b {
      Pow2Monotone(a, b - 1);
    }
  }

  lemma MulMonotone(a: int, b: int, d: int)
    requires a <= b && d >= 0
    ensures a * d <= b * d
  {
    assert (b - a) * d >= 0;
  }

  lemma MulDistributes(a: int, b: int, d: int)
    ensures (a + b) * d == a * d + b * d
    ensures (a - b) * d == a * d - b * d
  {
  }

  lemma MulAssociates(a: int, b: int, c: int)
    ensures a * (b * c) == (a * b) * c
  {
  }

  lemma MulDoubles(a: int, b: int)
    ensures a * (2 * b) == 2 * (a * b)
  {
  }

  lemma DivMod(a: int, d: int)
    requires d > 0
    ensures a == (a / d) * d + a % d && 0 <= a % d < d
  {
  }

  lemma DivModUnique(a: int, d: int, q: int, r: int)
    requires d > 0 && 0 <= r < d && a == q * d + r
    ensures a / d == q && a % d == r
  {
    var q', r' := a / d, a % d;
    assert a == q' * d + r' && 0 <= r' < d;
    if q > q' {
      MulMonotone(q' + 1, q, d);
      MulDistributes(q', 1, d);
      assert false;
    } else if q < q' {
      MulMonotone(q + 1, q', d);
      MulDistributes(q, 1, d);
      assert false;
    }
  }

  /** Arithmetic that stays below d does not wrap around. */
  lemma NoWrapAround(a: int, d: int)
    requires 0 <= a < d
    ensures a % d == a && (a + d) % d == a
  {
    DivModUnique(a, d, 0, a);
    DivModUnique(a + d, d, 1, a);
  }

  lemma DivDiv(a: nat, b: nat, c: nat)
    requires b > 0 && c > 0
    ensures b * c > 0 && a / (b * c) == a / b / c
  {
    var q, r := a / b, a % b;
    var q', r' := q / c, q % c;
    MulDistributes(q' * c, r', b);
    MulAssociates(q', c, b);
    MulMonotone(r' + 1, c, b);
    MulDistributes(r', 1, b);
    assert c * b == b * c;
    DivModUnique(a, b * c, q', r' * b + r);
  }

  /** Two different multiples of d are at least d apart. */
  lemma MultiplesApart(x: int, y: int, d: int)
    requires d > 0 && x % d == 0 && y % d == 0 && x < y
    ensures x + d <= y
  {
    var i, j := x / d, y / d;
    if j <= i {
      MulMonotone(j, i, d);
    } else {
      MulMonotone(i + 1, j, d);
      MulDistributes(i, 1, d);
    }
  }

  lemma MultiplesClosed(x: int, y: int, d: int)
    requires d > 0 && x % d == 0 && y % d == 0
    ensures (x + y) % d == 0 && (x - y) % d == 0
  {
    var i, j := x / d, y / d;
    MulDistributes(i, j, d);
    DivModUnique(x + y, d, i + j, 0);
    DivModUnique(x - y, d, i - j, 0);
  }

  lemma MultipleOfMultiple(x: int, c: int, d: int)
    requires c > 0 && d > 0 && c * d > 0 && x % (c * d) == 0
    ensures x % d == 0
  {
    var i := x / (c * d);
    MulAssociates(i, c, d);
    DivModUnique(x, d, i * c, 0);
  }

  /** A multiple of 2^b is a multiple of every smaller power of two. */
  lemma Pow2Divides(x: int, a: nat, b: nat)
    requires a <= b && x % Pow2(b) == 0
    ensures x % Pow2(a) == 0
  {
    Pow2Add(b - a, a);
    MultipleOfMultiple(x, Pow2(b - a), Pow2(a));
  }

  /** A right shift divides by a power of two. */
  lemma {:induction false} ShrDivides(a: nat, k: nat)
    ensures Shr(a, k) == a / Pow2(k)
  {
    if k > 0 {
      ShrDivides(a / 2, k - 1);
      DivDiv(a, 2, Pow2(k - 1));
    }
  }

  lemma {:induction false} LowZerosIsMultiple(a: nat, n: nat)
    ensures LowZeros(a, n) <==> a % Pow2(n) == 0
  {
    if n > 0 {
      var p := Pow2(n - 1);
      LowZerosIsMultiple(a / 2, n - 1);
      if LowZeros(a, n) {
        var q := a / 2 / p;
        DivMod(a / 2, p);
        MulDoubles(q, p);
        DivModUnique(a, Pow2(n), q, 0);
      } else if a % Pow2(n) == 0 {
        var q := a / Pow2(n);
        DivMod(a, Pow2(n));
        MulDoubles(q, p);
        DivModUnique(a / 2, p, q, 0);
      }
    }
  }

  // ----- XOR with one bit

  lemma XorZero(a: nat)
    ensures Xor(a, 0) == a && Xor(0, a) == a
  {
  }

  lemma XorDigits(a: nat, b: nat)
    ensures Xor(a, b) / 2 == Xor(a / 2, b / 2)
    ensures Xor(a, b) % 2 == (if a % 2 != b % 2 then 1 else 0)
  {
  }

  lemma XorSelf(a: nat)
    ensures Xor(a, a) == 0
  {
  }

  lemma XorCommutes(a: nat, b: nat)
    ensures Xor(a, b) == Xor(b, a)
    decreases a + b
  {
    if a + b > 0 {
      XorCommutes(a / 2, b / 2);
    }
  }

  lemma {:induction false} XorAssociates(a: nat, b: nat, c: nat)
    ensures Xor(Xor(a, b), c) == Xor(a, Xor(b, c))
    decreases a + b + c
  {
    if a + b + c > 0 {
      XorDigits(a, b);
      XorDigits(b, c);
      XorDigits(Xor(a, b), c);
      XorDigits(a, Xor(b, c));
      XorAssociates(a / 2, b / 2, c / 2);
    }
  }

  lemma XorTwice(a: nat, b: nat)
    ensures Xor(Xor(a, b), b) == a
  {
    XorAssociates(a, b, b);
    XorSelf(b);
    XorZero(a);
  }

  lemma XorExchange(a: nat, b: nat, c: nat, d: nat)
    ensures Xor(Xor(a, b), Xor(c, d)) == Xor(Xor(a, c), Xor(b, d))
  {
    XorAssociates(a, b, Xor(c, d));
    XorAssociates(b, c, d);
    XorCommutes(b, c);
    XorAssociates(c, b, d);
    XorAssociates(a, c, Xor(b, d));
  }

  lemma XorBound(a: nat, b: nat, k: nat)
    requires a < Pow2(k) && b < Pow2(k)
    ensures Xor(a, b) < Pow2(k)
  {
    if k > 0 {
      XorBound(a / 2, b / 2, k - 1);
    }
  }

  /** XOR keeps a leading one that only one of the operands has. */
  lemma XorTop(a: nat, b: nat, k: nat)
    requires a < Pow2(k) <= b < Pow2(k + 1)
    ensures Pow2(k) <= Xor(a, b) < Pow2(k + 1)
  {
    if k > 0 {
      XorTop(a / 2, b / 2, k - 1);
    } else {
      XorZero(b);
    }
  }

  /** XOR of words that have no digit in common is addition. */
  lemma {:induction false} XorDisjoint(lo: nat, hi: nat, k: nat)
    requires lo < Pow2(k) && LowZeros(hi, k)
    ensures Xor(lo, hi) == lo + hi
  {
    if k == 0 {
      XorZero(hi);
    } else {
      XorDisjoint(lo / 2, hi / 2, k - 1);
      XorDigits(lo, hi);
    }
  }

  lemma {:induction false} XorShift(a: nat, b: nat, k: nat)
    ensures Shr(Xor(a, b), k) == Xor(Shr(a, k), Shr(b, k))
  {
    if k > 0 {
      XorDigits(a, b);
      XorShift(a / 2, b / 2, k - 1);
    }
  }

  /** XOR with 2^k flips the k-th binary digit: it adds 2^k when the digit is 0 and subtracts it
      when the digit is 1. */
  lemma {:induction false} XorFlipsOneBit(a: nat, k: nat)
    ensures Shr(a, k) % 2 == 0 ==> Xor(a, Pow2(k)) == a + Pow2(k)
    ensures Shr(a, k) % 2 == 1 ==> a >= Pow2(k) && Xor(a, Pow2(k)) == a - Pow2(k)
  {
    if k == 0 {
      XorZero(a / 2);
      assert Xor(a, 1) == 2 * Xor(a / 2, 0) + (if a % 2 != 1 then 1 else 0);
    } else {
      XorFlipsOneBit(a / 2, k - 1);
      assert Pow2(k) / 2 == Pow2(k - 1) && Pow2(k) % 2 == 0;
    }
  }

  // ----- rounding up to a power of two

  /** The number of times two has to be multiplied to reach x. */
  function CeilLog(x: nat): nat
    requires x >= 1
  {
    if x == 1 then 0 else 1 + CeilLog((x + 1) / 2)
  }

  lemma {:induction false} CeilLogIsLeast(x: nat)
    requires x >= 1
    ensures Pow2(CeilLog(x)) >= x
    ensures forall k: nat {:trigger Pow2(k)} :: Pow2(k) >= x ==> CeilLog(x) <= k
    ensures x > 1 ==> CeilLog(x) >= 1 && Pow2(CeilLog(x) - 1) < x
  {
    if x > 1 {
      var h := (x + 1) / 2;
      CeilLogIsLeast(h);
      forall k: nat | Pow2(k) >= x
        ensures CeilLog(x) <= k
      {
        assert k > 0;
        assert Pow2(k - 1) >= h;
      }
    }
  }

  lemma CeilLogBound(x: nat, k: nat)
    requires 1 <= x <= Pow2(k)
    ensures CeilLog(x) <= k
  {
    CeilLogIsLeast(x);
  }

  lemma OrBound(a: nat, b: nat, k: nat)
    requires a < Pow2(k) && b < Pow2(k)
    ensures Or(a, b) < Pow2(k)
  {
    if k > 0 {
      OrBound(a / 2, b / 2, k - 1);
    }
  }

  lemma {:induction false} OrShift(a: nat, b: nat, k: nat)
    ensures Shr(Or(a, b), k) == Or(Shr(a, k), Shr(b, k))
  {
    if k > 0 {
      OrShift(a / 2, b / 2, k - 1);
      assert Or(a, b) / 2 == Or(a / 2, b / 2);
    }
  }

  lemma OrZero(a: nat)
    ensures Or(a, 0) == a
  {
  }

  lemma {:induction false} ShrShr(n: nat, a: nat, b: nat)
    ensures Shr(Shr(n, a), b) == Shr(n, a + b)
  {
    if a > 0 {
      ShrShr(n / 2, a - 1, b);
    }
  }

  lemma ShrLe(n: nat, k: nat)
    ensures Shr(n, k) <= n
  {
  }

  /** Shifting m ones right by k leaves m - k ones. */
  lemma {:induction false} ShrOnes(m: nat, k: nat)
    requires k <= m
    ensures Shr(Pow2(m) - 1, k) == Pow2(m - k) - 1
  {
    if k > 0 {
      assert (Pow2(m) - 1) / 2 == Pow2(m - 1) - 1;
      ShrOnes(m - 1, k - 1);
    }
  }

  /** Shifting out all digits leaves 0, and shifting out all but the highest leaves 1. */
  lemma {:induction false} ShrOut(n: nat, k: nat)
    ensures n < Pow2(k) ==> Shr(n, k) == 0
    ensures Pow2(k) <= n < Pow2(k + 1) ==> Shr(n, k) == 1
  {
    if k > 0 {
      ShrOut(n / 2, k - 1);
    }
  }

  /** Above k digits of any kind a word is p ones; OR with k low ones makes it p + k ones. */
  lemma {:induction false} OrLowOnes(u: nat, p: nat, k: nat)
    requires Shr(u, k) == Pow2(p) - 1
    ensures Or(u, Pow2(k) - 1) == Pow2(p + k) - 1
  {
    if k == 0 {
      OrZero(u);
    } else {
      OrLowOnes(u / 2, p, k - 1);
      assert (Pow2(k) - 1) / 2 == Pow2(k - 1) - 1 && (Pow2(k) - 1) % 2 == 1;
      assert Or(u, Pow2(k) - 1) == 2 * Or(u / 2, Pow2(k - 1) - 1) + 1;
    }
  }

  /** n has `len` binary digits at most and the `m` highest of them are ones. */
  ghost predicate TopOnes(n: nat, len: nat, m: nat) {
    m <= len && n < Pow2(len) && Shr(n, len - m) == Pow2(m) - 1
  }

  function Min(a: nat, b: nat): nat {
    if a < b then a else b
  }

  /** Seen from digit k upwards, m leading ones followed by j <= m digits become m + j ones. */
  lemma SmearDigits(n: nat, m: nat, j: nat, k: nat)
    requires j <= m && Shr(n, k + j) == Pow2(m) - 1
    ensures Shr(Or(n, Shr(n, m)), k) == Pow2(m + j) - 1
  {
    var u := Shr(n, k);
    OrShift(n, Shr(n, m), k);
    ShrShr(n, m, k);
    ShrShr(n, k, m);
    assert Shr(Or(n, Shr(n, m)), k) == Or(u, Shr(u, m));
    ShrShr(n, k, j);
    ShrShr(u, j, m - j);
    ShrOnes(m, m - j);
    OrLowOnes(u, m, j);
  }

  lemma OrOfShiftedBound(n: nat, len: nat, m: nat)
    requires n < Pow2(len)
    ensures Or(n, Shr(n, m)) < Pow2(len)
  {
    ShrLe(n, m);
    OrBound(n, Shr(n, m), len);
  }

  /** One step `x |= x >> m` doubles the run of leading ones. */
  lemma SmearStep(n: nat, len: nat, m: nat)
    requires TopOnes(n, len, m)
    ensures TopOnes(Or(n, Shr(n, m)), len, Min(2 * m, len))
  {
    var t := Min(2 * m, len);
    var j, k := t - m, len - t;
    assert k + j == len - m && m + j == t;
    SmearDigits(n, m, j, k);
    OrOfShiftedBound(n, len, m);
  }

  /** Every positive n has a binary length, at which its highest digit is a one. */
  lemma TopDigit(n: nat) returns (len: nat)
    requires n >= 1
    ensures len == CeilLog(n + 1) >= 1 && TopOnes(n, len, 1)
  {
    len := CeilLog(n + 1);
    CeilLogIsLeast(n + 1);
    ShrOut(n, len - 1);
    assert Pow2(1) == 2 * Pow2(0);
  }

  lemma Pow2Of32()
    ensures Pow2(21) == 0x20_0000
    ensures Pow2(31) == 0x8000_0000
    ensures Pow2(32) == U32
    ensures Pow2(36) == 0x10_0000_0000
  {
    assert Pow2(10) == 1024;
    Pow2Add(10, 10);
    Pow2Add(20, 10);
    assert Pow2(21) == 2 * Pow2(20);
    assert Pow2(31) == 2 * Pow2(30);
    assert Pow2(36) == 64 * Pow2(30);
  }

  /** Once all `len` digits are ones, a further step changes nothing. */
  lemma SmearCut(n: nat, len: nat, m: nat)
    requires TopOnes(n, len, Min(m, len))
    ensures TopOnes(Or(n, Shr(n, m)), len, Min(2 * m, len))
  {
    if m <= len {
      SmearStep(n, len, m);
    } else {
      Pow2Monotone(len, m);
      ShrOut(n, m);
      OrZero(n);
    }
  }

  /** The five steps of the cascade turn a word of at most 32 digits into ones only. */
  lemma CascadeFillsWord(n0: nat, n1: nat, n2: nat, n3: nat, n4: nat, n5: nat, len: nat)
    requires 1 <= len <= 32 && TopOnes(n0, len, 1)
    requires n1 == Or(n0, Shr(n0, 1)) && n2 == Or(n1, Shr(n1, 2)) && n3 == Or(n2, Shr(n2, 4))
    requires n4 == Or(n3, Shr(n3, 8)) && n5 == Or(n4, Shr(n4, 16))
    ensures n5 == Pow2(len) - 1
  {
    SmearCut(n0, len, 1);
    SmearCut(n1, len, 2);
    SmearCut(n2, len, 4);
    SmearCut(n3, len, 8);
    SmearCut(n4, len, 16);
  }

  lemma CascadeRoundsUp(x0: nat, n0: nat, n1: nat, n2: nat, n3: nat, n4: nat, n5: nat)
    requires 1 <= x0 <= U32 && n0 == x0 - 1
    requires n1 == Or(n0, Shr(n0, 1)) && n2 == Or(n1, Shr(n1, 2)) && n3 == Or(n2, Shr(n2, 4))
    requires n4 == Or(n3, Shr(n3, 8)) && n5 == Or(n4, Shr(n4, 16))
    ensures n5 + 1 == Pow2(CeilLog(x0)) <= U32
  {
    Pow2Of32();
    if x0 == 1 {
      ShrLe(0, 1);
      ShrLe(0, 2);
      ShrLe(0, 4);
      ShrLe(0, 8);
      ShrLe(0, 16);
    } else {
      var len := TopDigit(n0);
      CeilLogBound(x0, 32);
      Pow2Monotone(len, 32);
      CascadeFillsWord(n0, n1, n2, n3, n4, n5, len);
    }
  }

  /** `round_pow2_boundary`: on 1..2^32 the result is the least power of two that is not below
      the argument. */
  method RoundPow2Boundary(x0: nat) returns (x: nat)
    requires x0 < U64
    ensures x < U64
    ensures 1 <= x0 <= U32 ==> x == Pow2(CeilLog(x0))
  {
    if x0 >= 1 {
      NoWrapAround(x0 - 1, U64);
    }
    x := (x0 + U64 - 1) % U64;
    ghost var n0 := x;
    x := Or(x, Shr(x, 1));
    ghost var n1 := x;
    x := Or(x, Shr(x, 2));
    ghost var n2 := x;
    x := Or(x, Shr(x, 4));
    ghost var n3 := x;
    x := Or(x, Shr(x, 8));
    ghost var n4 := x;
    x := Or(x, Shr(x, 16));
    if 1 <= x0 <= U32 {
      CascadeRoundsUp(x0, n0, n1, n2, n3, n4, x);
      NoWrapAround(x + 1, U64);
    }
    x := (x + 1) % U64;
  }

  // ----- logb

  /** The number of leading zeros of x, read as a word of `width` bits. */
  function LeadingZeros(x: nat, width: nat): nat {
    if width == 0 || x >= Pow2(width - 1) then 0 else 1 + LeadingZeros(x, width - 1)
  }

  lemma {:induction false} LeadingZerosPlaceTopDigit(x: nat, width: nat)
    requires 0 < x < Pow2(width)
    ensures LeadingZeros(x, width) < width
    ensures Pow2(width - 1 - LeadingZeros(x, width)) <= x < Pow2(width - LeadingZeros(x, width))
  {
    if x < Pow2(width - 1) {
      LeadingZerosPlaceTopDigit(x, width - 1);
    }
  }

  /** `logb`: `__builtin_clz` takes a 32-bit argument, and its result is undefined on 0. */
  function Logb(x: nat): (k: nat)
    requires x % U32 != 0
    ensures k <= 31
    ensures Pow2(k) <= x % U32 < Pow2(k + 1)
  {
    Pow2Of32();
    LeadingZerosPlaceTopDigit(x % U32, 32);
    31 - LeadingZeros(x % U32, 32)
  }

  lemma FloorLogUnique(x: nat, i: nat, j: nat)
    requires Pow2(i) <= x < Pow2(i + 1) && Pow2(j) <= x < Pow2(j + 1)
    ensures i == j
  {
    if j < i {
      Pow2Monotone(j + 1, i);
    } else if i < j {
      Pow2Monotone(i + 1, j);
    }
  }

  /** On a 32-bit argument `logb` inverts the powers of two. */
  lemma LogbOfPow2(x: nat, k: nat)
    requires k <= 31 && x == Pow2(k)
    ensures 0 < x < U32 && Logb(x) == k
  {
    Pow2Of32();
    Pow2Monotone(k, 31);
    NoWrapAround(x, U32);
    FloorLogUnique(x, k, Logb(x));
  }

  // ----- single bits of a word

  /** a & ~b. */
  function AndNot(a: nat, b: nat): nat
    decreases a + b
  {
    if a == 0 && b == 0 then 0
    else 2 * AndNot(a / 2, b / 2) + (if a % 2 == 1 && b % 2 == 0 then 1 else 0)
  }

  predicate TestBit(w: nat, i: nat) {
    Shr(w, i) % 2 == 1
  }

  function SetBit(w: nat, i: nat): nat {
    Or(w, Pow2(i))
  }

  function ClearBit(w: nat, i: nat): nat {
    AndNot(w, Pow2(i))
  }

  lemma {:induction false} Pow2Digit(i: nat, j: nat)
    ensures TestBit(Pow2(i), j) <==> i == j
  {
    if j > 0 {
      if i > 0 {
        Pow2Digit(i - 1, j - 1);
      } else {
        ShrLe(0, j - 1);
      }
    }
  }

  lemma {:induction false} AndNotShift(a: nat, b: nat, k: nat)
    ensures Shr(AndNot(a, b), k) == AndNot(Shr(a, k), Shr(b, k))
  {
    if k > 0 {
      assert AndNot(a, b) / 2 == AndNot(a / 2, b / 2);
      AndNotShift(a / 2, b / 2, k - 1);
    }
  }

  lemma LowestDigit(h: nat, d: nat)
    requires d <= 1
    ensures (2 * h + d) % 2 == d
  {
    DivModUnique(2 * h + d, 2, h, d);
  }

  lemma LowestDigitOfOr(a: nat, b: nat)
    ensures Or(a, b) % 2 == 1 <==> a % 2 == 1 || b % 2 == 1
  {
    LowestDigit(Or(a / 2, b / 2), if a % 2 == 1 || b % 2 == 1 then 1 else 0);
  }

  lemma LowestDigitOfAndNot(a: nat, b: nat)
    ensures AndNot(a, b) % 2 == 1 <==> a % 2 == 1 && b % 2 == 0
  {
    LowestDigit(AndNot(a / 2, b / 2), if a % 2 == 1 && b % 2 == 0 then 1 else 0);
  }

  lemma BitsAfterSet(w: nat, i: nat, j: nat)
    ensures TestBit(SetBit(w, i), j) <==> TestBit(w, j) || i == j
  {
    OrShift(w, Pow2(i), j);
    LowestDigitOfOr(Shr(w, j), Shr(Pow2(i), j));
    Pow2Digit(i, j);
  }

  lemma BitsAfterClear(w: nat, i: nat, j: nat)
    ensures TestBit(ClearBit(w, i), j) <==> TestBit(w, j) && i != j
  {
    AndNotShift(w, Pow2(i), j);
    LowestDigitOfAndNot(Shr(w, j), Shr(Pow2(i), j));
    Pow2Digit(i, j);
  }

  lemma BitsOfZero(i: nat)
    ensures !TestBit(0, i)
  {
    ShrLe(0, i);
  }
}
