/** `calculate_ccitt32_ansi_crc32` of src/misc/bit_math.c, against the table-driven CRC of section 8
    of RFC 1952, and what the CRC detects.  A register state is a natural below 2^32. */
module Crc {
  import opened BitMath

  const POLY: nat := 0xEDB8_8320
  const ONES: nat := 0xFFFF_FFFF

  // ----- the shift register

  function Step(c: nat): nat {
    if c % 2 == 1 then Xor(c / 2, POLY) else c / 2
  }

  function Steps(c: nat, n: nat): nat
    decreases n
  {
    if n == 0 then c else Steps(Step(c), n - 1)
  }

  /** The register after a byte string has been shifted in. */
  function Update(c: nat, data: seq<Byte>): nat
    decreases |data|
  {
    if data == [] then c else Update(Steps(Xor(c, data[0]), 8), data[1..])
  }

  /** The CRC of a byte string. */
  function Crc32(data: seq<Byte>): nat {
    Xor(Update(ONES, data), ONES)
  }

  /** The bit-by-bit loops of the source. */
  method Calculate(data: array<Byte>, length: nat) returns (crc: nat)
    requires length <= data.Length
    ensures crc == Crc32(data[..length])
  {
    crc := ONES;
    var k := 0;
    while k < length
      invariant k <= length
      invariant Update(crc, data[k..length]) == Update(ONES, data[..length])
    {
      assert data[k..length][1..] == data[k + 1..length];
      crc := Xor(crc, data[k]);
      ghost var c := crc;
      var i := 0;
      while i < 8
        invariant i <= 8 && Steps(crc, 8 - i) == Steps(c, 8)
      {
        if crc % 2 == 1 {
          crc := Xor(crc / 2, POLY);
        } else {
          crc := crc / 2;
        }
        i := i + 1;
      }
      k := k + 1;
    }
    assert data[k..length] == [];
    crc := Xor(crc, ONES);
  }

  // ----- linearity

  lemma StepLinear(x: nat, y: nat)
    ensures Step(Xor(x, y)) == Xor(Step(x), Step(y))
  {
    var a, b := x / 2, y / 2;
    XorDigits(x, y);
    XorExchange(a, POLY, b, POLY);
    XorSelf(POLY);
    XorZero(Xor(a, b));
    XorAssociates(a, b, POLY);
    XorCommutes(b, POLY);
    XorAssociates(a, POLY, b);
  }

  lemma {:induction false} StepsLinear(x: nat, y: nat, n: nat)
    ensures Steps(Xor(x, y), n) == Xor(Steps(x, n), Steps(y, n))
    decreases n
  {
    if n > 0 {
      StepLinear(x, y);
      StepsLinear(Step(x), Step(y), n - 1);
    }
  }

  lemma {:induction false} StepsAdd(c: nat, m: nat, n: nat)
    ensures Steps(Steps(c, m), n) == Steps(c, m + n)
    decreases m
  {
    if m > 0 {
      StepsAdd(Step(c), m - 1, n);
    }
  }

  /** Shifting over zero digits only shifts. */
  lemma {:induction false} StepsOverZeros(z: nat, n: nat)
    ensures Steps(z * Pow2(n), n) == z
  {
    if n > 0 {
      MulDoubles(z, Pow2(n - 1));
      StepsOverZeros(z, n - 1);
    }
  }

  lemma {:induction false} StepsBound(c: nat, n: nat)
    requires c < U32
    ensures Steps(c, n) < U32
    decreases n
  {
    if n > 0 {
      Pow2Of32();
      if c % 2 == 1 {
        XorBound(c / 2, POLY, 32);
      }
      StepsBound(Step(c), n - 1);
    }
  }

  // ----- the table-driven form

  /** Entry n of the table of section 8 of RFC 1952. */
  function TableEntry(n: nat): nat
    requires n < 256
  {
    Steps(n, 8)
  }

  function TableUpdate(c: nat, data: seq<Byte>): nat
    decreases |data|
  {
    if data == [] then c
    else TableUpdate(Xor(TableEntry(Xor(c, data[0]) % 256), c / 256), data[1..])
  }

  lemma Pow2Of8()
    ensures Pow2(8) == 256
  {
    assert Pow2(4) == 16;
    assert Pow2(8) == 16 * Pow2(4);
  }

  /** XOR of k low digits and a word above them is addition. */
  lemma DigitsAbove(lo: nat, w: nat, k: nat)
    requires lo < Pow2(k)
    ensures Xor(lo, w * Pow2(k)) == lo + w * Pow2(k)
  {
    DivModUnique(w * Pow2(k), Pow2(k), w, 0);
    LowZerosIsMultiple(w * Pow2(k), k);
    XorDisjoint(lo, w * Pow2(k), k);
  }

  /** k shifts of a word are those of its k low digits, and the rest of the word shifted down. */
  lemma StepsByDigits(lo: nat, w: nat, k: nat, hi: nat)
    requires lo < Pow2(k) && hi == w * Pow2(k)
    ensures Steps(lo + hi, k) == Xor(Steps(lo, k), w)
  {
    DigitsAbove(lo, w, k);
    StepsLinear(lo, hi, k);
    StepsOverZeros(w, k);
  }

  /** XOR with a byte leaves the higher digits alone. */
  lemma HighDigits(c: nat, b: Byte)
    ensures Xor(c, b) / 256 == c / 256
  {
    Pow2Of8();
    XorShift(c, b, 8);
    ShrDivides(Xor(c, b), 8);
    ShrDivides(c, 8);
    ShrDivides(b, 8);
    XorZero(c / 256);
  }

  lemma ByteSteps(c: nat, b: Byte, k: nat)
    requires Pow2(k) == 256
    ensures Steps(Xor(c, b), k) == Xor(Steps(Xor(c, b) % 256, k), c / 256)
  {
    var x := Xor(c, b);
    StepsByDigits(x % 256, x / 256, k, x / 256 * 256);
    HighDigits(c, b);
  }

  lemma TableStep(c: nat, b: Byte)
    ensures Steps(Xor(c, b), 8) == Xor(TableEntry(Xor(c, b) % 256), c / 256)
  {
    Pow2Of8();
    ByteSteps(c, b, 8);
  }

  /** The bit-by-bit register and the table-driven one agree on every byte string. */
  lemma {:induction false} TableUpdateAgrees(c: nat, data: seq<Byte>)
    ensures TableUpdate(c, data) == Update(c, data)
    decreases |data|
  {
    if data != [] {
      TableStep(c, data[0]);
      TableUpdateAgrees(Steps(Xor(c, data[0]), 8), data[1..]);
    }
  }

  lemma {:induction false} UpdateResumes(c: nat, a: seq<Byte>, b: seq<Byte>)
    ensures Update(c, a + b) == Update(Update(c, a), b)
    decreases |a|
  {
    if a == [] {
      assert a + b == b;
    } else {
      assert (a + b)[1..] == a[1..] + b;
      UpdateResumes(Steps(Xor(c, a[0]), 8), a[1..], b);
    }
  }

  /** A CRC can be resumed where an earlier part of the data ended. */
  lemma CrcResumes(a: seq<Byte>, b: seq<Byte>)
    ensures Crc32(a + b) == Xor(Update(Xor(Crc32(a), ONES), b), ONES)
  {
    UpdateResumes(ONES, a, b);
    XorTwice(Update(ONES, a), ONES);
  }

  // ----- exclusive or of byte strings

  function XorBytes(a: seq<Byte>, b: seq<Byte>): (r: seq<Byte>)
    requires |a| == |b|
    ensures |r| == |a|
    ensures forall i :: 0 <= i < |a| ==> r[i] == Xor(a[i], b[i])
    decreases |a|
  {
    if a == [] then []
    else
      Pow2Of8();
      XorBound(a[0], b[0], 8);
      [Xor(a[0], b[0])] + XorBytes(a[1..], b[1..])
  }

  lemma {:induction false} UpdateOfXor(c: nat, d: nat, a: seq<Byte>, b: seq<Byte>)
    requires |a| == |b|
    ensures Update(Xor(c, d), XorBytes(a, b)) == Xor(Update(c, a), Update(d, b))
    decreases |a|
  {
    if a != [] {
      var x, y := a[0], b[0];
      assert XorBytes(a, b)[1..] == XorBytes(a[1..], b[1..]);
      XorExchange(c, d, x, y);
      StepsLinear(Xor(c, x), Xor(d, y), 8);
      UpdateOfXor(Steps(Xor(c, x), 8), Steps(Xor(d, y), 8), a[1..], b[1..]);
    }
  }

  /** The CRC is affine: the CRC of the exclusive or of three strings of one length is the exclusive
      or of their CRCs. */
  lemma CrcOfXor(a: seq<Byte>, b: seq<Byte>, c: seq<Byte>)
    requires |a| == |b| == |c|
    ensures Xor(Xor(Crc32(a), Crc32(b)), Crc32(c)) == Crc32(XorBytes(XorBytes(a, b), c))
  {
    var x, y, z := Update(ONES, a), Update(ONES, b), Update(ONES, c);
    UpdateOfXor(ONES, ONES, a, b);
    XorSelf(ONES);
    XorZero(ONES);
    UpdateOfXor(0, ONES, XorBytes(a, b), c);
    XorExchange(x, ONES, y, ONES);
    XorZero(Xor(x, y));
    XorAssociates(Xor(x, y), z, ONES);
  }

  // ----- the register update is a bijection

  function Unstep(c: nat): nat {
    if c >= 0x8000_0000 then 2 * Xor(c, POLY) + 1 else 2 * c
  }

  function Unsteps(c: nat, n: nat): nat
    decreases n
  {
    if n == 0 then c else Unstep(Unsteps(c, n - 1))
  }

  lemma StepThenUnstep(c: nat)
    requires c < U32
    ensures Step(c) < U32 && Unstep(Step(c)) == c
  {
    Pow2Of32();
    var h := c / 2;
    if c % 2 == 1 {
      XorTop(h, POLY, 31);
      XorTwice(h, POLY);
    }
  }

  lemma StepOfEven(h: nat)
    ensures Step(2 * h) == h
  {
  }

  lemma StepOfOdd(h: nat)
    ensures Step(2 * h + 1) == Xor(h, POLY)
  {
  }

  lemma UnstepThenStep(c: nat)
    requires c < U32
    ensures Unstep(c) < U32 && Step(Unstep(c)) == c
  {
    Pow2Of32();
    if c >= 0x8000_0000 {
      var h := Xor(c, POLY);
      XorTops(c, POLY, 31);
      XorTwice(c, POLY);
      StepOfOdd(h);
    } else {
      StepOfEven(c);
    }
  }

  /** XOR cancels a leading one that both operands have. */
  lemma XorTops(a: nat, b: nat, k: nat)
    requires Pow2(k) <= a < Pow2(k + 1) && Pow2(k) <= b < Pow2(k + 1)
    ensures Xor(a, b) < Pow2(k)
  {
    if k > 0 {
      XorTops(a / 2, b / 2, k - 1);
    }
  }

  lemma {:induction false} UnstepsInverts(c: nat, n: nat)
    requires c < U32
    ensures Unsteps(Steps(c, n), n) == c
    decreases n
  {
    if n > 0 {
      StepThenUnstep(c);
      UnstepsInverts(Step(c), n - 1);
    }
  }

  lemma {:induction false} StepsInverts(c: nat, n: nat)
    requires c < U32
    ensures Unsteps(c, n) < U32 && Steps(Unsteps(c, n), n) == c
    decreases n
  {
    if n > 0 {
      StepsInverts(c, n - 1);
      UnstepThenStep(Unsteps(c, n - 1));
    }
  }

  /** The register before a byte string was shifted in. */
  function Undo(c: nat, data: seq<Byte>): nat
    decreases |data|
  {
    if data == [] then c else Xor(Unsteps(Undo(c, data[1..]), 8), data[0])
  }

  /** For every byte string the update is a bijection on register states. */
  lemma {:induction false} UpdateIsBijective(c: nat, data: seq<Byte>)
    requires c < U32
    ensures Update(c, data) < U32 && Undo(Update(c, data), data) == c
    ensures Undo(c, data) < U32 && Update(Undo(c, data), data) == c
    decreases |data|
  {
    if data != [] {
      var x := data[0];
      Pow2Of32();
      XorBound(c, x, 32);
      StepsBound(Xor(c, x), 8);
      UpdateIsBijective(Steps(Xor(c, x), 8), data[1..]);
      UnstepsInverts(Xor(c, x), 8);
      XorTwice(c, x);
      UpdateIsBijective(c, data[1..]);
      var d := Unsteps(Undo(c, data[1..]), 8);
      StepsInverts(Undo(c, data[1..]), 8);
      XorBound(d, x, 32);
      XorTwice(d, x);
    }
  }

  // ----- burst errors

  /** The little-endian number of a byte string. */
  function Word(x: seq<Byte>): nat
    decreases |x|
  {
    if x == [] then 0 else x[0] + 256 * Word(x[1..])
  }

  lemma {:induction false} WordBound(x: seq<Byte>)
    ensures Word(x) < Pow2(8 * |x|)
    decreases |x|
  {
    if x != [] {
      WordBound(x[1..]);
      Pow2Of8();
      Pow2Add(8, 8 * (|x| - 1));
    }
  }

  lemma {:induction false} WordInjective(x: seq<Byte>, y: seq<Byte>)
    requires |x| == |y| && Word(x) == Word(y)
    ensures x == y
    decreases |x|
  {
    if x != [] {
      assert Word(x) % 256 == x[0] && Word(y) % 256 == y[0];
      WordInjective(x[1..], y[1..]);
      assert x == [x[0]] + x[1..] && y == [y[0]] + y[1..];
    }
  }

  /** What is taken in after k digits can be added above them beforehand. */
  lemma LowThenHigh(c: nat, lo: nat, w: nat, k: nat, hi: nat)
    requires lo < Pow2(k) && hi == w * Pow2(k)
    ensures Xor(Steps(Xor(c, lo), k), w) == Steps(Xor(c, lo + hi), k)
  {
    StepsOverZeros(w, k);
    StepsLinear(Xor(c, lo), hi, k);
    XorAssociates(c, lo, hi);
    DigitsAbove(lo, w, k);
  }

  lemma ByteThenWord(c: nat, b: Byte, w: nat)
    ensures Xor(Steps(Xor(c, b), 8), w) == Steps(Xor(c, b + 256 * w), 8)
  {
    Pow2Of8();
    LowThenHigh(c, b, w, 8, 256 * w);
  }

  /** A byte string is shifted in as one little-endian number. */
  lemma {:induction false} UpdateByWord(c: nat, x: seq<Byte>)
    ensures Update(c, x) == Steps(Xor(c, Word(x)), 8 * |x|)
    decreases |x|
  {
    if x == [] {
      XorZero(c);
    } else {
      var c', w, n := Steps(Xor(c, x[0]), 8), Word(x), 8 * |x[1..]|;
      UpdateByWord(c', x[1..]);
      ByteThenWord(c, x[0], Word(x[1..]));
      assert Update(c, x) == Steps(Xor(c', Word(x[1..])), n);
      StepsAdd(Xor(c, w), 8, n);
      assert 8 * |x| == 8 + n;
    }
  }

  // Bit k of a string is bit k % 8 of byte k / 8, in the order in which the register takes them in.

  /** Above n low digits the digits of w follow. */
  lemma {:induction false} BitsOfSum(lo: nat, w: nat, n: nat, hi: nat, k: nat)
    requires lo < Pow2(n) && hi == w * Pow2(n)
    ensures TestBit(lo + hi, k) <==> if k < n then TestBit(lo, k) else TestBit(w, k - n)
    decreases n
  {
    if n > 0 {
      MulDoubles(w, Pow2(n - 1));
      var hi' := w * Pow2(n - 1);
      assert hi == 2 * hi' && (lo + hi) / 2 == lo / 2 + hi' && (lo + hi) % 2 == lo % 2;
      if k > 0 {
        BitsOfSum(lo / 2, w, n - 1, hi', k - 1);
      }
    }
  }

  lemma {:induction false} BitOfWord(x: seq<Byte>, k: nat)
    requires k < 8 * |x|
    ensures TestBit(Word(x), k) <==> TestBit(x[k / 8], k % 8)
    decreases |x|
  {
    Pow2Of8();
    BitsOfSum(x[0], Word(x[1..]), 8, 256 * Word(x[1..]), k);
    if k >= 8 {
      BitOfWord(x[1..], k - 8);
      assert k / 8 - 1 == (k - 8) / 8 && k % 8 == (k - 8) % 8;
    }
  }

  lemma BitOfXor(a: nat, b: nat, k: nat)
    ensures TestBit(Xor(a, b), k) <==> TestBit(a, k) != TestBit(b, k)
  {
    XorShift(a, b, k);
    XorDigits(Shr(a, k), Shr(b, k));
  }

  /** A number without low digits is a shifted one. */
  lemma {:induction false} LowBitsClear(d: nat, i: nat)
    requires forall k: nat {:trigger TestBit(d, k)} :: k < i ==> !TestBit(d, k)
    ensures d == Shr(d, i) * Pow2(i)
  {
    if i > 0 {
      assert !TestBit(d, 0);
      forall k: nat | k < i - 1
        ensures !TestBit(d / 2, k)
      {
        assert !TestBit(d, k + 1);
      }
      LowBitsClear(d / 2, i - 1);
      MulDoubles(Shr(d, i), Pow2(i - 1));
    }
  }

  /** A number without high digits is a small one. */
  lemma {:induction false} HighBitsClear(d: nat, n: nat)
    requires forall k: nat {:trigger TestBit(d, k)} :: k >= n ==> !TestBit(d, k)
    ensures d < Pow2(n)
    decreases d + n
  {
    if d + n > 0 {
      forall k: nat | k >= n - 1
        ensures !TestBit(d / 2, k)
      {
        assert !TestBit(d, k + 1);
      }
      if n == 0 {
        assert !TestBit(d, 0);
        HighBitsClear(d / 2, 0);
      } else {
        HighBitsClear(d / 2, n - 1);
      }
    }
  }

  /** Two different strings of one length that differ at most in the 32 bits from bit i on. */
  ghost predicate BitsDifferWithin(a: seq<Byte>, b: seq<Byte>, i: nat) {
    && |a| == |b| && a != b
    && forall k: nat {:trigger BitAt(a, k)} ::
         k < 8 * |a| && !(i <= k < i + 32) ==> (BitAt(a, k) <==> BitAt(b, k))
  }

  predicate BitAt(x: seq<Byte>, k: nat)
    requires k < 8 * |x|
  {
    TestBit(x[k / 8], k % 8)
  }

  /** A number other than 0 with all its digits in the window from i on is a 32-bit one, shifted. */
  lemma WindowIsShifted(d: nat, i: nat) returns (z: nat)
    requires d > 0
    requires forall k: nat {:trigger TestBit(d, k)} :: !(i <= k < i + 32) ==> !TestBit(d, k)
    ensures 0 < z < U32 && d == z * Pow2(i)
  {
    z := Shr(d, i);
    LowBitsClear(d, i);
    forall k: nat | k >= 32
      ensures !TestBit(z, k)
    {
      ShrShr(d, i, k);
      assert !TestBit(d, i + k);
    }
    HighBitsClear(z, 32);
    Pow2Of32();
  }

  /** The exclusive or of such strings, as numbers, is a 32-bit number other than 0, shifted. */
  lemma DifferenceIsShifted(a: seq<Byte>, b: seq<Byte>, i: nat) returns (z: nat)
    requires BitsDifferWithin(a, b, i)
    ensures 0 < z < U32 && Xor(Word(a), Word(b)) == z * Pow2(i)
    ensures Xor(Word(a), Word(b)) < Pow2(8 * |a|)
  {
    var d := Xor(Word(a), Word(b));
    WordBound(a);
    WordBound(b);
    XorBound(Word(a), Word(b), 8 * |a|);
    forall k: nat | !(i <= k < i + 32)
      ensures !TestBit(d, k)
    {
      OutsideWindow(a, b, i, k);
    }
    WordsDiffer(a, b);
    z := WindowIsShifted(d, i);
  }

  lemma WordsDiffer(a: seq<Byte>, b: seq<Byte>)
    requires |a| == |b| && a != b
    ensures Word(a) != Word(b) && Xor(Word(a), Word(b)) != 0
  {
    if Word(a) == Word(b) {
      WordInjective(a, b);
    }
    XorTwice(Word(a), Word(b));
    XorZero(Word(b));
  }

  lemma OutsideWindow(a: seq<Byte>, b: seq<Byte>, i: nat, k: nat)
    requires BitsDifferWithin(a, b, i) && !(i <= k < i + 32)
    requires Xor(Word(a), Word(b)) < Pow2(8 * |a|)
    ensures !TestBit(Xor(Word(a), Word(b)), k)
  {
    if k < 8 * |a| {
      BitOfXor(Word(a), Word(b), k);
      BitOfWord(a, k);
      BitOfWord(b, k);
      assert BitAt(a, k) <==> BitAt(b, k);
    } else {
      Pow2Monotone(8 * |a|, k);
      ShrOut(Xor(Word(a), Word(b)), k);
    }
  }

  /** A 32-bit number other than 0 is never shifted out. */
  lemma StepsOfNonzero(z: nat, m: nat)
    requires 0 < z < U32
    ensures Steps(z, m) != 0
  {
    UnstepsInverts(z, m);
    UnstepsInverts(0, m);
    StepsOverZeros(0, m);
  }

  /** Such strings take every register to different ones. */
  lemma BurstChangesRegister(c: nat, a: seq<Byte>, b: seq<Byte>, i: nat)
    requires BitsDifferWithin(a, b, i)
    ensures Update(c, a) != Update(c, b)
  {
    var z := DifferenceIsShifted(a, b, i);
    var n, d := 8 * |a|, Xor(Word(a), Word(b));
    MulMonotone(1, z, Pow2(i));
    if i >= n {
      Pow2Monotone(n, i);
      assert false;
    }
    UpdateByWord(c, a);
    UpdateByWord(c, b);
    StepsLinear(Xor(c, Word(a)), Xor(c, Word(b)), n);
    XorExchange(c, Word(a), c, Word(b));
    XorSelf(c);
    XorZero(d);
    StepsAdd(d, i, n - i);
    StepsOverZeros(z, i);
    StepsOfNonzero(z, n - i);
    XorSelf(Update(c, a));
  }

  /** BURST DETECTION.  Strings of one length that differ only inside 32 consecutive bits, at any bit
      offset, have different CRCs. */
  lemma BitBurstDetected(a: seq<Byte>, b: seq<Byte>, i: nat)
    requires BitsDifferWithin(a, b, i)
    ensures Crc32(a) != Crc32(b)
  {
    BurstChangesRegister(ONES, a, b, i);
    XorTwice(Update(ONES, a), ONES);
    XorTwice(Update(ONES, b), ONES);
  }

  /** Up to four bytes are determined by the registers before and after them. */
  lemma WindowInjective(c: nat, x: seq<Byte>, y: seq<Byte>)
    requires |x| == |y| <= 4 && x != y
    ensures Update(c, x) != Update(c, y)
  {
    assert BitsDifferWithin(x, y, 0);
    BurstChangesRegister(c, x, y, 0);
  }

  /** Two strings of one length that differ at most in the bytes from i to i + 3. */
  ghost predicate DifferWithin(a: seq<Byte>, b: seq<Byte>, i: nat) {
    |a| == |b| && a != b && forall j :: 0 <= j < |a| && !(i <= j < i + 4) ==> a[j] == b[j]
  }

  lemma BytesAreBits(a: seq<Byte>, b: seq<Byte>, i: nat)
    requires DifferWithin(a, b, i)
    ensures BitsDifferWithin(a, b, 8 * i)
  {
    forall k: nat | k < 8 * |a| && !(8 * i <= k < 8 * i + 32)
      ensures BitAt(a, k) <==> BitAt(b, k)
    {
      assert !(i <= k / 8 < i + 4);
    }
  }

  /** Strings that differ only inside four consecutive bytes have different CRCs. */
  lemma BurstDetected(a: seq<Byte>, b: seq<Byte>, i: nat)
    requires DifferWithin(a, b, i)
    ensures Crc32(a) != Crc32(b)
  {
    BytesAreBits(a, b, i);
    BitBurstDetected(a, b, 8 * i);
  }

  /** A byte is determined by its eight bits. */
  lemma SameByte(a: seq<Byte>, b: seq<Byte>, j: nat)
    requires j < |a| && j < |b|
    requires forall k: nat {:trigger BitAt(a, k)} :: 8 * j <= k < 8 * j + 8 ==> (BitAt(a, k) <==> BitAt(b, k))
    ensures a[j] == b[j]
  {
    forall k: nat | k < 8
      ensures TestBit(a[j], k) <==> TestBit(b[j], k)
    {
      assert (8 * j + k) / 8 == j && (8 * j + k) % 8 == k;
      assert BitAt(a, 8 * j + k) <==> BitAt(b, 8 * j + k);
    }
    Pow2Of8();
    SameDigits(a[j], b[j], 8);
  }

  lemma {:induction false} SameDigits(x: nat, y: nat, n: nat)
    requires x < Pow2(n) && y < Pow2(n)
    requires forall k: nat {:trigger TestBit(x, k)} :: k < n ==> (TestBit(x, k) <==> TestBit(y, k))
    ensures x == y
  {
    if n > 0 {
      assert TestBit(x, 0) <==> TestBit(y, 0);
      forall k: nat | k < n - 1
        ensures TestBit(x / 2, k) <==> TestBit(y / 2, k)
      {
        assert TestBit(x, k + 1) <==> TestBit(y, k + 1);
      }
      SameDigits(x / 2, y / 2, n - 1);
    }
  }
}
