/** The CRC of src/misc/bit_math.c as a remainder of polynomial division.  A polynomial over the
    integers modulo 2 is a number: digit k is the coefficient of x^k, XOR is addition. */
module Polynomials {
  import opened BitMath
  import opened Crc

  /** The exponents of the generator polynomial of CRC-32, as section 8.1.1.6.2 of ITU-T V.42 lists
      them. */
  const EXPONENTS: seq<nat> := [32, 26, 23, 22, 16, 12, 11, 10, 8, 7, 5, 4, 2, 1, 0]

  /** The polynomial with the coefficient 1 at the exponents listed from i on. */
  function Poly(exponents: seq<nat>, i: nat): nat
    requires i <= |exponents|
    decreases |exponents| - i
  {
    if i == |exponents| then 0 else Pow2(exponents[i]) + Poly(exponents, i + 1)
  }

  /** The generator polynomial. */
  function Generator(): nat {
    Poly(EXPONENTS, 0)
  }

  /** The product of polynomials. */
  function Product(a: nat, b: nat): nat {
    if a == 0 then 0 else Xor(2 * Product(a / 2, b), if a % 2 == 1 then b else 0)
  }

  /** r is what is left of d after division by g, which has the degree k. */
  ghost predicate IsRemainder(d: nat, g: nat, k: nat, r: nat) {
    r < Pow2(k) && exists q: nat :: d == Xor(Product(q, g), r)
  }

  /** The lowest n coefficients in the opposite order. */
  function Reversed(w: nat, n: nat): nat {
    if n == 0 then 0 else (if w % 2 == 1 then Pow2(n - 1) else 0) + Reversed(w / 2, n - 1)
  }

  /** A byte string as a polynomial: the first byte has the highest exponents, and in every byte the
      lowest bit has the highest. */
  function Message(data: seq<Byte>): nat {
    if data == [] then 0
    else Reversed(data[0], 8) * Pow2(8 * (|data| - 1)) + Message(data[1..])
  }

  /** What is divided: the message times x^k, with its first k coefficients complemented. */
  function Dividend(data: seq<Byte>, k: nat): nat {
    Xor(Message(data) * Pow2(k), (Pow2(k) - 1) * Pow2(8 * |data|))
  }

  /** The complement of 32 coefficients. */
  function Complement(r: nat): nat {
    if r < U32 then U32 - 1 - r else 0
  }

  // ----- arithmetic of polynomials

  lemma XorDoubles(a: nat, b: nat)
    ensures Xor(2 * a, 2 * b) == 2 * Xor(a, b)
  {
    XorDigits(2 * a, 2 * b);
  }

  lemma {:induction false} XorScaled(a: nat, b: nat, m: nat)
    ensures Xor(a * Pow2(m), b * Pow2(m)) == Xor(a, b) * Pow2(m)
  {
    if m > 0 {
      var p := Pow2(m - 1);
      MulDoubles(a, p);
      MulDoubles(b, p);
      MulDoubles(Xor(a, b), p);
      XorDoubles(a * p, b * p);
      XorScaled(a, b, m - 1);
    }
  }

  lemma {:induction false} ProductOfSum(a: nat, b: nat, g: nat)
    ensures Product(Xor(a, b), g) == Xor(Product(a, g), Product(b, g))
    decreases a + b
  {
    if a == 0 {
      XorZero(b);
      XorZero(Product(b, g));
    } else if b == 0 {
      XorZero(a);
      XorZero(Product(a, g));
    } else {
      ProductOfSum(a / 2, b / 2, g);
      XorDigits(a, b);
      var x, y := Product(a / 2, g), Product(b / 2, g);
      var s, t := if a % 2 == 1 then g else 0, if b % 2 == 1 then g else 0;
      XorDoubles(x, y);
      XorExchange(2 * x, s, 2 * y, t);
      XorZero(g);
      XorSelf(g);
      ProductStep(Xor(a, b), g);
    }
  }

  lemma ProductStep(a: nat, g: nat)
    ensures Product(a, g) == Xor(2 * Product(a / 2, g), if a % 2 == 1 then g else 0)
  {
  }

  lemma {:induction false} ProductOfPower(k: nat, g: nat)
    ensures Product(Pow2(k), g) == g * Pow2(k)
  {
    if k == 0 {
      XorZero(g);
      ProductStep(1, g);
    } else {
      ProductOfPower(k - 1, g);
      ProductStep(Pow2(k), g);
      XorZero(2 * Product(Pow2(k - 1), g));
      MulDoubles(g, Pow2(k - 1));
    }
  }

  lemma KeepsTop(h: nat, c: nat, n: nat)
    requires c < Pow2(n) <= h < Pow2(n + 1)
    ensures Pow2(n) <= Xor(h, c) < Pow2(n + 1)
  {
    XorCommutes(h, c);
    XorTop(c, h, n);
  }

  /** The degree of a product is the sum of the degrees. */
  lemma {:induction false} DegreeOfProduct(a: nat, g: nat, k: nat, m: nat)
    requires Pow2(k) <= a < Pow2(k + 1) && Pow2(m) <= g < Pow2(m + 1)
    ensures Pow2(k + m) <= Product(a, g) < Pow2(k + m + 1)
    decreases k
  {
    ProductStep(a, g);
    if k == 0 {
      assert a == 1;
      XorZero(g);
    } else {
      DegreeOfProduct(a / 2, g, k - 1, m);
      Pow2Monotone(m + 1, k + m);
      KeepsTop(2 * Product(a / 2, g), if a % 2 == 1 then g else 0, k + m);
    }
  }

  /** A polynomial has one remainder only. */
  lemma RemainderIsUnique(d: nat, g: nat, k: nat, r: nat, s: nat)
    requires IsRemainder(d, g, k, r) && IsRemainder(d, g, k, s) && Pow2(k) <= g < Pow2(k + 1)
    ensures r == s
  {
    var p: nat :| d == Xor(Product(p, g), r);
    var q: nat :| d == Xor(Product(q, g), s);
    var u := Xor(p, q);
    MultipleOfGenerator(d, g, p, q, r, s);
    XorBound(r, s, k);
    if u > 0 {
      var m := Degree(u);
      DegreeOfProduct(u, g, m, k);
      Pow2Monotone(k, m + k);
      assert false;
    }
    XorTwice(p, q);
    ProductStep(0, g);
    XorTwice(r, s);
    XorZero(s);
  }

  lemma MultipleOfGenerator(d: nat, g: nat, p: nat, q: nat, r: nat, s: nat)
    requires d == Xor(Product(p, g), r) == Xor(Product(q, g), s)
    ensures Product(Xor(p, q), g) == Xor(r, s)
  {
    var a, b := Product(p, g), Product(q, g);
    ProductOfSum(p, q, g);
    XorExchange(a, r, b, s);
    XorSelf(d);
    XorTwice(Xor(a, b), Xor(r, s));
    XorZero(Xor(r, s));
  }

  lemma Degree(u: nat) returns (k: nat)
    requires u > 0
    ensures Pow2(k) <= u < Pow2(k + 1)
  {
    CeilLogIsLeast(u + 1);
    k := CeilLog(u + 1) - 1;
  }

  // ----- opposite order

  lemma {:induction false} ReversedBound(w: nat, n: nat)
    ensures Reversed(w, n) < Pow2(n)
  {
    if n > 0 {
      ReversedBound(w / 2, n - 1);
    }
  }

  lemma ReversedStep(w: nat, n: nat)
    requires n > 0
    ensures Reversed(w, n) == Xor(if w % 2 == 1 then Pow2(n - 1) else 0, Reversed(w / 2, n - 1))
  {
    var r := Reversed(w / 2, n - 1);
    ReversedBound(w / 2, n - 1);
    DigitsAbove(r, 1, n - 1);
    XorCommutes(r, Pow2(n - 1));
    XorZero(r);
  }

  lemma {:induction false} ReversedXor(a: nat, b: nat, n: nat)
    ensures Reversed(Xor(a, b), n) == Xor(Reversed(a, n), Reversed(b, n))
  {
    XorZero(0);
    if n > 0 {
      XorDigits(a, b);
      ReversedXor(a / 2, b / 2, n - 1);
      ReversedStep(a, n);
      ReversedStep(b, n);
      ReversedStep(Xor(a, b), n);
      var s, t := if a % 2 == 1 then Pow2(n - 1) else 0, if b % 2 == 1 then Pow2(n - 1) else 0;
      XorExchange(s, Reversed(a / 2, n - 1), t, Reversed(b / 2, n - 1));
      XorZero(Pow2(n - 1));
      XorSelf(Pow2(n - 1));
    }
  }

  lemma {:induction false} ReversedZero(n: nat)
    ensures Reversed(0, n) == 0
  {
    if n > 0 {
      ReversedZero(n - 1);
    }
  }

  /** Leading zeros become trailing ones. */
  lemma {:induction false} ReversedWide(w: nat, n: nat, m: nat)
    requires w < Pow2(n)
    ensures Reversed(w, n + m) == Reversed(w, n) * Pow2(m)
    decreases n
  {
    if n == 0 {
      ReversedZero(m);
    } else {
      ReversedWide(w / 2, n - 1, m);
      Pow2Add(n - 1, m);
      MulDistributes(if w % 2 == 1 then Pow2(n - 1) else 0, Reversed(w / 2, n - 1), Pow2(m));
    }
  }

  lemma {:induction false} ReversedShifted(w: nat, k: nat, m: nat)
    ensures Reversed(w * Pow2(k), k + m) == Reversed(w, m)
    decreases k
  {
    if k > 0 {
      MulDoubles(w, Pow2(k - 1));
      ReversedShifted(w, k - 1, m);
    }
  }

  lemma {:induction false} ReversedOnes(n: nat)
    ensures Reversed(Pow2(n) - 1, n) == Pow2(n) - 1
  {
    if n > 0 {
      var p := Pow2(n - 1);
      ReversedOnes(n - 1);
      assert (Pow2(n) - 1) / 2 == p - 1 && (Pow2(n) - 1) % 2 == 1;
    }
  }

  /** XOR with ones is the complement. */
  lemma {:induction false} XorOnes(r: nat, n: nat)
    requires r < Pow2(n)
    ensures Xor(r, Pow2(n) - 1) == Pow2(n) - 1 - r
  {
    if n > 0 {
      XorOnes(r / 2, n - 1);
      XorDigits(r, Pow2(n) - 1);
      assert (Pow2(n) - 1) / 2 == Pow2(n - 1) - 1 && (Pow2(n) - 1) % 2 == 1;
    } else {
      XorZero(0);
    }
  }

  lemma {:induction false} MessageIsReversedWord(data: seq<Byte>)
    ensures Message(data) == Reversed(Word(data), 8 * |data|)
    decreases |data|
  {
    if data != [] {
      var m, w := 8 * (|data| - 1), Word(data[1..]);
      MessageIsReversedWord(data[1..]);
      ByteFirst(data[0], w, 8, m, 256 * w);
    }
  }

  lemma ByteFirst(lo: nat, w: nat, k: nat, m: nat, hi: nat)
    requires lo < Pow2(k) && hi == w * Pow2(k)
    ensures Reversed(lo + hi, k + m) == Reversed(lo, k) * Pow2(m) + Reversed(w, m)
  {
    DigitsAbove(lo, w, k);
    ReversedXor(lo, hi, k + m);
    ReversedWide(lo, k, m);
    ReversedShifted(w, k, m);
    ReversedBound(w, m);
    DigitsAbove(Reversed(w, m), Reversed(lo, k), m);
    XorCommutes(Reversed(w, m), Reversed(lo, k) * Pow2(m));
  }

  // ----- the register divides

  lemma LowTerms(es: seq<nat>)
    requires |es| == 15 && es[10] == 5 && es[11] == 4 && es[12] == 2 && es[13] == 1 && es[14] == 0
    ensures Poly(es, 10) == 0x37
  {
    assert Poly(es, 14) == 1;
    assert Poly(es, 13) == 3;
    assert Poly(es, 12) == 7;
  }

  lemma MiddleTerms(es: seq<nat>)
    requires |es| == 15 && es[5] == 12 && es[6] == 11 && es[7] == 10 && es[8] == 8 && es[9] == 7
    requires Poly(es, 10) == 0x37
    ensures Poly(es, 5) == 0x1DB7
  {
    assert Poly(es, 9) == 0xB7;
    assert Poly(es, 8) == 0x1B7;
    assert Poly(es, 7) == 0x5B7;
    assert Poly(es, 6) == 0xDB7;
  }

  lemma HighPowers()
    ensures Pow2(16) == 0x1_0000 && Pow2(22) == 0x40_0000 && Pow2(23) == 0x80_0000
    ensures Pow2(26) == 0x400_0000 && Pow2(32) == U32
  {
    Pow2Of8();
    Pow2Add(8, 8);
    Pow2Of32();
    Pow2Add(21, 1);
    Pow2Add(21, 2);
    Pow2Add(21, 5);
  }

  lemma HighTerms(es: seq<nat>)
    requires |es| == 15 && es[0] == 32 && es[1] == 26 && es[2] == 23 && es[3] == 22 && es[4] == 16
    requires Poly(es, 5) == 0x1DB7
    ensures Poly(es, 0) == 0x1_04C1_1DB7
  {
    HighPowers();
    assert Poly(es, 4) == 0x1_1DB7;
    assert Poly(es, 3) == 0x41_1DB7;
    assert Poly(es, 2) == 0xC1_1DB7;
    assert Poly(es, 1) == 0x4C1_1DB7;
  }

  lemma Listed(es: seq<nat>)
    requires es == EXPONENTS
    ensures |es| == 15 && es[0] == 32 && es[1] == 26 && es[2] == 23 && es[3] == 22 && es[4] == 16
    ensures es[5] == 12 && es[6] == 11 && es[7] == 10 && es[8] == 8 && es[9] == 7
    ensures es[10] == 5 && es[11] == 4 && es[12] == 2 && es[13] == 1 && es[14] == 0
  {
  }

  lemma AllTerms(es: seq<nat>)
    requires es == EXPONENTS
    ensures Poly(es, 0) == 0x1_04C1_1DB7
  {
    Listed(es);
    LowTerms(es);
    MiddleTerms(es);
    HighTerms(es);
  }

  lemma GeneratorValue()
    ensures Generator() == 0x1_04C1_1DB7
  {
    AllTerms(EXPONENTS);
  }

  lemma FirstDigit(d: nat, w: nat, n: nat)
    requires d <= 1
    ensures Reversed(d + 2 * w, n + 1) == (if d == 1 then Pow2(n) else 0) + Reversed(w, n)
  {
    DivModUnique(d + 2 * w, 2, w, d);
  }

  lemma ReversedPair(a: nat, b: nat, w: nat, n: nat)
    requires a <= 1 && b <= 1 && w == a + 2 * b && n == 1
    ensures Reversed(w, n + n) == 2 * a + b
  {
    ReversedZero(0);
    FirstDigit(b, 0, 0);
    FirstDigit(a, b, n);
  }

  /** The four pairs of digits. */
  lemma ReversedPairs(n: nat)
    requires n == 2
    ensures Reversed(0, n) == 0 && Reversed(1, n) == 2 && Reversed(2, n) == 1 && Reversed(3, n) == 3
  {
    ReversedPair(0, 0, 0, 1);
    ReversedPair(1, 0, 1, 1);
    ReversedPair(0, 1, 2, 1);
    ReversedPair(1, 1, 3, 1);
  }

  lemma ReversedNibble(lo: nat, hi: nat, w: nat, n: nat)
    requires n == 2 && lo < 4 && w == lo + 4 * hi
    ensures Reversed(w, n + n) == Reversed(lo, n) * 4 + Reversed(hi, n)
  {
    assert Pow2(n) == 4;
    ByteFirst(lo, hi, n, n, 4 * hi);
  }

  lemma ReversedByte(lo: nat, hi: nat, w: nat, n: nat)
    requires n == 4 && lo < 16 && w == lo + 16 * hi
    ensures Reversed(w, n + n) == Reversed(lo, n) * 16 + Reversed(hi, n)
  {
    assert Pow2(n) == 16;
    ByteFirst(lo, hi, n, n, 16 * hi);
  }

  /** The digits of the constant, from the last to the first. */
  lemma ReversedDigits(n: nat)
    requires n == 4
    ensures Reversed(0x0, n) == 0x0 && Reversed(0x2, n) == 0x4
    ensures Reversed(0x3, n) == 0xC && Reversed(0x8, n) == 0x1
    ensures Reversed(0xB, n) == 0xD && Reversed(0xD, n) == 0xB && Reversed(0xE, n) == 0x7
  {
    ReversedPairs(2);
    ReversedNibble(0, 0, 0x0, 2);
    ReversedNibble(2, 0, 0x2, 2);
    ReversedNibble(3, 0, 0x3, 2);
    ReversedNibble(0, 2, 0x8, 2);
    ReversedNibble(3, 2, 0xB, 2);
    ReversedNibble(1, 3, 0xD, 2);
    ReversedNibble(2, 3, 0xE, 2);
  }

  lemma ReversedBytes(n: nat)
    requires n == 8
    ensures Reversed(0x20, n) == 0x04 && Reversed(0x83, n) == 0xC1
    ensures Reversed(0xB8, n) == 0x1D && Reversed(0xED, n) == 0xB7
  {
    ReversedDigits(4);
    ReversedByte(0x0, 0x2, 0x20, 4);
    ReversedByte(0x3, 0x8, 0x83, 4);
    ReversedByte(0x8, 0xB, 0xB8, 4);
    ReversedByte(0xD, 0xE, 0xED, 4);
  }

  lemma AddByte(lo: nat, w: nat, n: nat, m: nat, word: nat)
    requires n == 8 && lo < 256 && word == lo + 256 * w
    ensures Reversed(word, n + m) == Reversed(lo, n) * Pow2(m) + Reversed(w, m)
  {
    Pow2Of8();
    ByteFirst(lo, w, n, m, 256 * w);
  }

  lemma ReversedUpperHalf(n: nat)
    requires n == 8 && Pow2(n) == 256
    requires Reversed(0xB8, n) == 0x1D && Reversed(0xED, n) == 0xB7
    ensures Reversed(0xEDB8, n + n) == 0x1DB7
  {
    AddByte(0xB8, 0xED, n, n, 0xEDB8);
  }

  lemma ReversedUpperBytes(n: nat)
    requires n == 8 && Pow2(n + n) == 0x1_0000
    requires Reversed(0x83, n) == 0xC1 && Reversed(0xEDB8, n + n) == 0x1DB7
    ensures Reversed(0xED_B883, n + (n + n)) == 0xC1_1DB7
  {
    AddByte(0x83, 0xEDB8, n, n + n, 0xED_B883);
  }

  lemma ReversedWord(n: nat)
    requires n == 8 && Pow2(n + (n + n)) == 0x100_0000
    requires Reversed(0x20, n) == 0x04 && Reversed(0xED_B883, n + (n + n)) == 0xC1_1DB7
    ensures Reversed(0xEDB8_8320, n + (n + (n + n))) == 0x04C1_1DB7
  {
    AddByte(0x20, 0xED_B883, n, n + (n + n), 0xEDB8_8320);
  }

  lemma PolyReversed()
    ensures Reversed(POLY, 32) == 0x04C1_1DB7
  {
    Pow2Of8();
    Pow2Add(8, 8);
    Pow2Add(8, 16);
    ReversedBytes(8);
    ReversedUpperHalf(8);
    ReversedUpperBytes(8);
    ReversedWord(8);
  }

  lemma TopTerm(c: nat, k: nat)
    requires c < Pow2(k)
    ensures Xor(Pow2(k), c) == Pow2(k) + c
  {
    DigitsAbove(c, 1, k);
    XorCommutes(c, Pow2(k));
  }

  /** The constant of the source is the generator without its leading term, in the opposite order. */
  lemma PolyIsGenerator(k: nat)
    requires Pow2(k) == U32 && Reversed(POLY, k) == 0x04C1_1DB7
    ensures Generator() == Xor(Pow2(k), Reversed(POLY, k))
  {
    GeneratorValue();
    TopTerm(Reversed(POLY, k), k);
  }

  /** The quotient: a term for every shift that takes the generator away. */
  function Quotient(w: nat, n: nat): nat
    decreases n
  {
    if n == 0 then 0 else Xor(if w % 2 == 1 then Pow2(n - 1) else 0, Quotient(Step(w), n - 1))
  }

  lemma ReversedStepSum(h: nat, n: nat, k: nat, poly: nat)
    requires poly < Pow2(k) && h < Pow2(n + k)
    ensures Xor(h, poly) < Pow2(n + k)
    ensures Reversed(Xor(h, poly), n + k) == Xor(Reversed(h, n + k), Reversed(poly, k) * Pow2(n))
  {
    Pow2Monotone(k, n + k);
    XorBound(h, poly, n + k);
    ReversedXor(h, poly, n + k);
    ReversedWide(poly, k, n);
    assert k + n == n + k;
  }

  lemma ProductOfShift(n: nat, k: nat, g: nat, low: nat)
    requires g == Xor(Pow2(k), low)
    ensures Product(Pow2(n), g) == Xor(Pow2(n + k), low * Pow2(n))
  {
    XorScaled(Pow2(k), low, n);
    Pow2Add(k, n);
    ProductOfPower(n, g);
    assert k + n == n + k;
  }

  lemma XorCancels(a: nat, b: nat, c: nat)
    ensures Xor(a, b) == Xor(Xor(a, c), Xor(b, c))
  {
    XorExchange(a, c, b, c);
    XorSelf(c);
    XorZero(Xor(a, b));
  }

  lemma ReversedOdd(h: nat, n: nat)
    ensures Reversed(2 * h + 1, n + 1) == Xor(Pow2(n), Reversed(h, n))
  {
    DivModUnique(2 * h + 1, 2, h, 1);
    ReversedStep(2 * h + 1, n + 1);
  }

  lemma OddSum(h: nat, n: nat, top: nat, low: nat, rest: nat)
    requires top == Xor(Pow2(n), low) && rest == Xor(Reversed(h, n), low)
    ensures Reversed(2 * h + 1, n + 1) == Xor(top, rest)
  {
    ReversedOdd(h, n);
    XorCancels(Pow2(n), Reversed(h, n), low);
  }

  /** One shift: a coefficient 1 in front takes a multiple of the generator g away. */
  lemma OddDivides(h: nat, n: nat, k: nat, g: nat, poly: nat)
    requires poly < Pow2(k) && g == Xor(Pow2(k), Reversed(poly, k)) && h < Pow2(n + k)
    ensures Xor(h, poly) < Pow2(n + k)
    ensures Reversed(2 * h + 1, n + k + 1) == Xor(Product(Pow2(n), g), Reversed(Xor(h, poly), n + k))
  {
    ReversedStepSum(h, n, k, poly);
    ProductOfShift(n, k, g, Reversed(poly, k));
    OddSum(h, n + k, Product(Pow2(n), g), Reversed(poly, k) * Pow2(n), Reversed(Xor(h, poly), n + k));
  }

  lemma StepDivides(w: nat, n: nat, k: nat, g: nat)
    requires POLY < Pow2(k) && g == Xor(Pow2(k), Reversed(POLY, k))
    requires w % 2 == 1 && w < Pow2(n + k + 1)
    ensures Step(w) < Pow2(n + k)
    ensures Reversed(w, n + k + 1) == Xor(Product(Pow2(n), g), Reversed(Step(w), n + k))
  {
    OddDivides(w / 2, n, k, g, POLY);
  }

  /** After n shifts a word has become the remainder of its polynomial. */
  lemma {:induction false} StepsDivide(w: nat, n: nat, k: nat, g: nat)
    requires POLY < Pow2(k) && g == Xor(Pow2(k), Reversed(POLY, k)) && w < Pow2(n + k)
    ensures Steps(w, n) < Pow2(k)
    ensures Reversed(w, n + k) == Xor(Product(Quotient(w, n), g), Reversed(Steps(w, n), k))
    decreases n
  {
    if n == 0 {
      XorZero(Reversed(w, k));
      ProductStep(0, g);
    } else {
      var s, q := Step(w), Quotient(Step(w), n - 1);
      if w % 2 == 1 {
        StepDivides(w, n - 1, k, g);
        StepsDivide(s, n - 1, k, g);
        ProductOfSum(Pow2(n - 1), q, g);
        XorAssociates(Product(Pow2(n - 1), g), Product(q, g), Reversed(Steps(s, n - 1), k));
      } else {
        StepsDivide(s, n - 1, k, g);
        XorZero(q);
        ReversedStep(w, n + k);
        XorZero(Reversed(s, n - 1 + k));
      }
    }
  }

  lemma StartBound(data: seq<Byte>, k: nat, ones: nat)
    requires ones < Pow2(k)
    ensures Xor(ones, Word(data)) < Pow2(8 * |data| + k)
  {
    var n := 8 * |data|;
    WordBound(data);
    Pow2Monotone(k, n + k);
    Pow2Monotone(n, n + k);
    XorBound(ones, Word(data), n + k);
  }

  lemma RegisterDivides(data: seq<Byte>, k: nat, g: nat, ones: nat) returns (q: nat)
    requires POLY < Pow2(k) && ones == Pow2(k) - 1 && g == Xor(Pow2(k), Reversed(POLY, k))
    ensures Update(ones, data) < Pow2(k)
    ensures Dividend(data, k) == Xor(Product(q, g), Reversed(Update(ones, data), k))
  {
    var n, w := 8 * |data|, Xor(ones, Word(data));
    StartBound(data, k, ones);
    DividendIsReversed(data, k, ones);
    StepsDivide(w, n, k, g);
    UpdateByWord(ones, data);
    q := Quotient(w, n);
  }

  /** The register after a byte string is the remainder, in the opposite order. */
  lemma RegisterIsRemainder(data: seq<Byte>, k: nat, g: nat, ones: nat)
    requires POLY < Pow2(k) && ones == Pow2(k) - 1 && g == Xor(Pow2(k), Reversed(POLY, k))
    ensures Update(ones, data) < Pow2(k)
    ensures IsRemainder(Dividend(data, k), g, k, Reversed(Update(ones, data), k))
  {
    var q := RegisterDivides(data, k, g, ones);
    ReversedBound(Update(ones, data), k);
  }

  lemma DividendIsReversed(data: seq<Byte>, k: nat, ones: nat)
    requires ones == Pow2(k) - 1
    ensures Dividend(data, k) == Reversed(Xor(ones, Word(data)), 8 * |data| + k)
  {
    var n, v := 8 * |data|, Word(data);
    WordBound(data);
    MessageIsReversedWord(data);
    ReversedXor(ones, v, n + k);
    ReversedWide(ones, k, n);
    ReversedOnes(k);
    ReversedWide(v, n, k);
    XorCommutes(Message(data) * Pow2(k), ones * Pow2(n));
  }

  /** In the opposite order the CRC is the complement of the register. */
  lemma CrcIsComplement(r: nat, k: nat, ones: nat)
    requires ones == Pow2(k) - 1 && r <= ones
    ensures Xor(r, ones) <= ones
    ensures Reversed(Xor(r, ones), k) == ones - Reversed(r, k)
  {
    XorBound(r, ones, k);
    ReversedXor(r, ones, k);
    ReversedOnes(k);
    ReversedBound(r, k);
    XorOnes(Reversed(r, k), k);
  }

  /** THE CRC IS A REMAINDER.  With its 32 bits in the opposite order it is the complement of what is
      left of the dividend after division by the generator. */
  lemma CrcIsRemainder(data: seq<Byte>)
    ensures Crc32(data) < U32
    ensures IsRemainder(Dividend(data, 32), Generator(), 32, Complement(Reversed(Crc32(data), 32)))
  {
    Pow2Of32();
    PolyReversed();
    PolyIsGenerator(32);
    RegisterIsRemainder(data, 32, Generator(), ONES);
    CrcIsComplement(Update(ONES, data), 32, ONES);
  }

  /** And it is the only number with that property. */
  lemma CrcIsDetermined(data: seq<Byte>, r: nat)
    ensures IsRemainder(Dividend(data, 32), Generator(), 32, r)
            <==> r == Complement(Reversed(Crc32(data), 32))
  {
    Pow2Of32();
    CrcIsRemainder(data);
    GeneratorValue();
    if IsRemainder(Dividend(data, 32), Generator(), 32, r) {
      RemainderIsUnique(Dividend(data, 32), Generator(), 32, r, Complement(Reversed(Crc32(data), 32)));
    }
  }
}
