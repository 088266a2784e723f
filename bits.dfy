/**
 * The integer and floating-point puzzles of the data lab (bits.c).
 *
 * Every C `int` and `unsigned` is a 32-bit word; signed overflow wraps and
 * `>>` on a signed value is an arithmetic shift, as the file's own
 * assumptions on the machine say. Properties about the signed value of a word
 * are stated on its 64-bit sign extension (`Wide`), where sums, differences and
 * doublings of 32-bit values are exact.
 */
module Bits {

  type Word = bv32

  // ---------------------------------------------------------------------------
  // C operators on 32-bit words
  // ---------------------------------------------------------------------------

  /** C's `x >> n` on a signed int: the vacated high bits copy the sign bit. */
  function Sar(x: Word, n: Word): Word
    requires n < 32
  {
    (x >> n) | ((0 - (x >> 31)) << (32 - n))
  }

  /** C's logical negation `!x`. */
  function LNot(x: Word): Word {
    if x == 0 then 1 else 0
  }

  /** The word is negative when read as a two's-complement int. */
  predicate Negative(x: Word) {
    x >> 31 == 1
  }

  /** Sign extension: the exact signed value of x as a 64-bit word. */
  function Wide(x: Word): bv64 {
    (x as bv64) | ((0 - ((x >> 31) as bv64)) << 32)
  }

  /** A 64-bit signed value lies in [-2^31, 2^31), so it fits in a C int. */
  predicate Fits(v: bv64) {
    v + 0x8000_0000 < 0x1_0000_0000
  }

  /** Byte k of x, numbered from 0 (least significant) to 3. */
  function Byte(x: Word, k: Word): Word
    requires k <= 3
  {
    (x >> (8 * k)) & 0xff
  }

  // ---------------------------------------------------------------------------
  // lsbZero, byteNot, byteXor, logicalAnd, logicalOr
  // ---------------------------------------------------------------------------

  function LsbZero(x: Word): Word {
    Sar(x, 1) << 1
  }

  /** Bit 0 is cleared and the 31 bits above it are kept. */
  lemma LsbZeroSpec(x: Word)
    ensures LsbZero(x) & 1 == 0
    ensures LsbZero(x) >> 1 == x >> 1
  {
    // case split for the solver: each case is proved on its own
    if Negative(x) { } else { }
  }

  function ByteNot(x: Word, n: Word): Word
    requires n <= 3
  {
    x ^ (0xff << (n << 3))
  }

  /** Byte n is inverted; every other byte is kept. */
  lemma ByteNotSpec(x: Word, n: Word, k: Word)
    requires n <= 3 && k <= 3
    ensures k == n ==> Byte(ByteNot(x, n), k) == Byte(x, k) ^ 0xff
    ensures k != n ==> Byte(ByteNot(x, n), k) == Byte(x, k)
  {
    ByteNotSplit(x, n, k);
    ByteOfMask(n, k);
  }

  lemma ByteNotSplit(x: Word, n: Word, k: Word)
    requires n <= 3 && k <= 3
    ensures Byte(ByteNot(x, n), k) == Byte(x, k) ^ Byte(0xff << (n << 3), k)
  {
  }

  lemma ByteOfMask(n: Word, k: Word)
    requires n <= 3 && k <= 3
    ensures Byte(0xff << (n << 3), k) == if k == n then 0xff else 0
  {
  }


  function ByteXor(x: Word, y: Word, n: Word): Word
    requires n <= 3
  {
    var xByte := Sar(x, n << 3) & 0xff;
    var yByte := Sar(y, n << 3) & 0xff;
    LNot(LNot(xByte ^ yByte))
  }

  /** 0 when byte n of x and of y agree, 1 otherwise. */
  lemma ByteXorSpec(x: Word, y: Word, n: Word)
    requires n <= 3
    ensures ByteXor(x, y, n) == if Byte(x, n) == Byte(y, n) then 0 else 1
  {
    ByteXorBytes(x, y, n);
  }

  lemma ByteXorBytes(x: Word, y: Word, n: Word)
    requires n <= 3
    ensures ByteXor(x, y, n) == LNot(LNot(Byte(x, n) ^ Byte(y, n)))
  {
    // case split for the solver: each case is proved on its own
    if n == 0 { } else if n == 1 { } else if n == 2 { } else { }
  }

  function LogicalAnd(x: Word, y: Word): Word {
    LNot(LNot(x)) & LNot(LNot(y))
  }

  /** The value of the C expression `x && y`. */
  lemma LogicalAndSpec(x: Word, y: Word)
    ensures LogicalAnd(x, y) == if x != 0 && y != 0 then 1 else 0
  {
  }

  function LogicalOr(x: Word, y: Word): Word {
    LNot(LNot(x) & LNot(y))
  }

  /** The value of the C expression `x || y`. */
  lemma LogicalOrSpec(x: Word, y: Word)
    ensures LogicalOr(x, y) == if x != 0 || y != 0 then 1 else 0
  {
  }

  // ---------------------------------------------------------------------------
  // rotateLeft
  // ---------------------------------------------------------------------------

  /**
   * The shift counts are written as in the source: `n + ~1 + 1` is n - 1,
   * `~n + 1 + 31` is 31 - n and `~n + 1 + 32` is 32 - n. With n == 0 the first
   * count is -1, which C leaves undefined, so n == 0 is excluded.
   */
  function RotateLeft(x: Word, n: Word): Word
    requires 1 <= n <= 31
  {
    var mask1 := Sar(1 << 31, n + !1 + 1);
    var mask2 := !Sar(1 << 31, !n + 1 + 31);
    var left := Sar(x & mask1, !n + 1 + 32) & mask2;
    var right := x << n;
    left | right
  }

  /** The high n bits re-enter at the bottom: a rotation, not a shift. */
  lemma RotateLeftSpec(x: Word, n: Word)
    requires 1 <= n <= 31
    ensures RotateLeft(x, n) == (x << n) | (x >> (32 - n))
  {
    // case split for the solver: each case is proved on its own
    if Negative(x) { } else { }
  }

  // ---------------------------------------------------------------------------
  // parityCheck
  // ---------------------------------------------------------------------------

  /**
   * The exclusive or of all 32 bits of x, as bit 0: 1 exactly when x has an
   * odd number of one bits.
   */
  function XorOfBits(x: Word): Word {
    ((x >> 0) ^ (x >> 1) ^ (x >> 2) ^ (x >> 3) ^ (x >> 4) ^ (x >> 5) ^ (x >> 6) ^ (x >> 7)
     ^ (x >> 8) ^ (x >> 9) ^ (x >> 10) ^ (x >> 11) ^ (x >> 12) ^ (x >> 13) ^ (x >> 14) ^ (x >> 15)
     ^ (x >> 16) ^ (x >> 17) ^ (x >> 18) ^ (x >> 19) ^ (x >> 20) ^ (x >> 21) ^ (x >> 22) ^ (x >> 23)
     ^ (x >> 24) ^ (x >> 25) ^ (x >> 26) ^ (x >> 27) ^ (x >> 28) ^ (x >> 29) ^ (x >> 30) ^ (x >> 31)) & 1
  }

  /** The same for the low 16, 8, 4 and 2 bits. */
  function XorOfLow16(x: Word): Word {
    ((x >> 0) ^ (x >> 1) ^ (x >> 2) ^ (x >> 3) ^ (x >> 4) ^ (x >> 5) ^ (x >> 6) ^ (x >> 7)
     ^ (x >> 8) ^ (x >> 9) ^ (x >> 10) ^ (x >> 11) ^ (x >> 12) ^ (x >> 13) ^ (x >> 14) ^ (x >> 15)) & 1
  }

  function XorOfLow8(x: Word): Word {
    ((x >> 0) ^ (x >> 1) ^ (x >> 2) ^ (x >> 3) ^ (x >> 4) ^ (x >> 5) ^ (x >> 6) ^ (x >> 7)) & 1
  }

  function XorOfLow4(x: Word): Word {
    ((x >> 0) ^ (x >> 1) ^ (x >> 2) ^ (x >> 3)) & 1
  }

  function XorOfLow2(x: Word): Word {
    ((x >> 0) ^ (x >> 1)) & 1
  }

  /** One step `p ^= (p >> n)` of the fold. */
  function FoldHalf(p: Word, n: Word): Word
    requires n < 32
  {
    p ^ Sar(p, n)
  }

  /** The first step: the two halves of x folded into the low 16 bits. */
  function FoldFirst(x: Word): Word {
    ((Sar(x, 16)) ^ x) & !(Sar(1 << 31, 15))
  }

  function ParityCheck(x: Word): Word {
    FoldHalf(FoldHalf(FoldHalf(FoldHalf(FoldFirst(x), 8), 4), 2), 1) & 1
  }

  /** Each folding step halves the field that is left and keeps its parity. */
  lemma FoldFirstParity(x: Word)
    ensures FoldFirst(x) < 0x1_0000
    ensures XorOfLow16(FoldFirst(x)) == XorOfBits(x)
  {
    FoldFirstLogical(x);
    Halve32(x);
    Low16(x ^ (x >> 16));
  }

  lemma FoldFirstLogical(x: Word)
    ensures FoldFirst(x) == (x ^ (x >> 16)) & 0xFFFF
  {
    // case split for the solver: each case is proved on its own
    if Negative(x) { } else { }
  }

  lemma Halve32(x: Word)
    ensures XorOfBits(x) == XorOfLow16(x ^ (x >> 16))
  {
  }

  lemma Low16(y: Word)
    ensures XorOfLow16(y & 0xFFFF) == XorOfLow16(y)
  {
  }

  lemma Fold8Parity(p: Word)
    requires p < 0x1_0000
    ensures FoldHalf(p, 8) < 0x1_0000
    ensures XorOfLow8(FoldHalf(p, 8)) == XorOfLow16(p)
  {
    Fold8Logical(p);
    Halve16(p);
  }

  lemma Fold8Logical(p: Word)
    requires p < 0x1_0000
    ensures FoldHalf(p, 8) == p ^ (p >> 8) < 0x1_0000
  {
  }

  lemma Halve16(p: Word)
    ensures XorOfLow16(p) == XorOfLow8(p ^ (p >> 8))
  {
  }

  lemma Fold4Parity(p: Word)
    requires p < 0x1_0000
    ensures FoldHalf(p, 4) < 0x1_0000
    ensures XorOfLow4(FoldHalf(p, 4)) == XorOfLow8(p)
  {
  }

  lemma Fold2Parity(p: Word)
    requires p < 0x1_0000
    ensures FoldHalf(p, 2) < 0x1_0000
    ensures XorOfLow2(FoldHalf(p, 2)) == XorOfLow4(p)
  {
  }

  lemma Fold1Parity(p: Word)
    requires p < 0x1_0000
    ensures FoldHalf(p, 1) & 1 == XorOfLow2(p)
  {
  }

  /** 1 exactly when x holds an odd number of one bits. */
  lemma ParityCheckSpec(x: Word)
    ensures ParityCheck(x) == XorOfBits(x)
  {
    var p0 := FoldFirst(x);
    FoldFirstParity(x);
    Fold8Parity(p0);
    var p1 := FoldHalf(p0, 8);
    Fold4Parity(p1);
    var p2 := FoldHalf(p1, 4);
    Fold2Parity(p2);
    var p3 := FoldHalf(p2, 2);
    Fold1Parity(p3);
  }

  // ---------------------------------------------------------------------------
  // absVal
  // ---------------------------------------------------------------------------

  function AbsVal(x: Word): Word {
    var flag := Sar(x, 31);
    (x ^ flag) + (1 & flag)
  }

  lemma AbsValNegative(x: Word)
    requires Negative(x)
    ensures AbsVal(x) == -x
  {
  }

  lemma AbsValNonNegative(x: Word)
    requires !Negative(x)
    ensures AbsVal(x) == x
  {
  }

  lemma WideNegate(x: Word)
    requires Negative(x) && x != 0x8000_0000
    ensures Wide(-x) == -Wide(x)
  {
  }

  /** For -TMax <= x <= TMax the result is |x| as a signed value. */
  lemma AbsValSpec(x: Word)
    requires x != 0x8000_0000
    ensures Wide(AbsVal(x)) == if Negative(x) then -Wide(x) else Wide(x)
  {
    if Negative(x) {
      AbsValNegative(x);
      WideNegate(x);
    } else {
      AbsValNonNegative(x);
    }
  }

  // ---------------------------------------------------------------------------
  // mul2OK
  // ---------------------------------------------------------------------------

  /** As written: bit 30 of |x| decides, with |x| computed as in absVal. */
  function Mul2OK(x: Word): Word {
    var flag := Sar(x, 31);
    var magnitude := (x ^ flag) + (1 & flag);
    !(Sar(magnitude << 1, 31) & 1) & 1
  }

  /** 2 * x fits exactly when doubling leaves the sign bit alone. */
  function Mul2OKFixed(x: Word): Word {
    ((x ^ (x << 1)) >> 31) ^ 1
  }

  lemma Mul2OKFixedSpec(x: Word)
    ensures Mul2OKFixed(x) == if Fits(Wide(x) + Wide(x)) then 1 else 0
  {
    // case split for the solver: each case is proved on its own
    if Negative(x) { } else { }
  }

  /** The two versions differ on exactly two inputs. */
  lemma Mul2OKAgrees(x: Word)
    requires x != 0x8000_0000 && x != 0xC000_0000
    ensures Mul2OK(x) == Mul2OKFixed(x)
  {
    // case split for the solver: each case is proved on its own
    if Negative(x) { } else { }
  }

  /** -2^31 doubled overflows but is accepted; -2^30 doubled fits but is refused. */
  lemma Mul2OKCounterexamples()
    ensures Mul2OK(0x8000_0000) == 1 && !Fits(Wide(0x8000_0000) + Wide(0x8000_0000))
    ensures Mul2OK(0xC000_0000) == 0 && Fits(Wide(0xC000_0000) + Wide(0xC000_0000))
  {
  }

  // ---------------------------------------------------------------------------
  // mult3div2
  // ---------------------------------------------------------------------------

  function Mult3Div2(x: Word): Word {
    HalveTowardZero((x << 1) + x)
  }

  /** C's `y / 2` on an int: an arithmetic shift, plus one for a negative odd y. */
  function HalveTowardZero(y: Word): Word {
    var r := (Sar(y, 31) & 1) & y & 1;
    Sar(y, 1) + r
  }

  lemma TripleByShift(x: Word)
    ensures (x << 1) + x == x * 3
  {
  }

  /**
   * Halving rounds toward zero: the remainder y - 2q has the sign of y and is
   * at most 1 in size.
   */
  lemma HalveTowardZeroSpec(y: Word)
    ensures var v := Wide(y); var q := Wide(HalveTowardZero(y));
      if Negative(y) then v - (q + q) == 0 || v - (q + q) == -1
      else v - (q + q) == 0 || v - (q + q) == 1
  {
    if Negative(y) {
      // case split for the solver: each case is proved on its own
      if y & 1 == 0 { } else { }
    } else {
      // case split for the solver: each case is proved on its own
      if y & 1 == 0 { } else { }
    }
  }

  /** The wrapped product x * 3, halved and rounded toward zero. */
  lemma Mult3Div2Spec(x: Word)
    ensures var v := Wide(x * 3); var q := Wide(Mult3Div2(x));
      if Negative(x * 3) then v - (q + q) == 0 || v - (q + q) == -1
      else v - (q + q) == 0 || v - (q + q) == 1
  {
    Mult3Div2Halves(x);
    HalveTowardZeroSpec(x * 3);
  }

  lemma Mult3Div2Halves(x: Word)
    ensures Mult3Div2(x) == HalveTowardZero(x * 3)
  {
    TripleByShift(x);
  }

  /** Without overflow the product is the exact 3 * x. */
  lemma Mult3Exact(x: Word)
    requires Fits(Wide(x) + Wide(x) + Wide(x))
    ensures Wide(x * 3) == Wide(x) + Wide(x) + Wide(x)
  {
    // case split for the solver: each case is proved on its own
    if Negative(x) { } else { }
  }

  // ---------------------------------------------------------------------------
  // subOK
  // ---------------------------------------------------------------------------

  function SubOK(x: Word, y: Word): Word {
    var flag1 := Sar(x, 31);
    var flag2 := Sar(y, 31);
    // C adds `(x + ~y) + 1`; addition mod 2^32 is associative, so this is the same word
    var diff := x + TwosComplement(y);
    var flag3 := Sar(diff, 31);
    LNot(LNot(LNot(flag1 ^ flag2)) & LNot(flag2 ^ flag3)) | LNot(diff)
  }

  /**
   * The exact difference of the signed values of x and y, that is
   * Wide(x) - Wide(y), with both sign extensions written out.
   */
  function WideSub(x: Word, y: Word): bv64 {
    ((x as bv64) | ((0 - ((x >> 31) as bv64)) << 32))
    - ((y as bv64) | ((0 - ((y >> 31) as bv64)) << 32))
  }

  /** 1 exactly when the signed difference x - y lies in the int range. */
  lemma SubOKSpec(x: Word, y: Word)
    ensures SubOK(x, y) == if Fits(WideSub(x, y)) then 1 else 0
  {
    SubOKBySigns(x, y);
    SubFitsBySigns(x, y);
  }

  /** C's `~y + 1`: adding it to x is the idiom for x - y when `-` is not allowed. */
  function TwosComplement(y: Word): Word {
    !y + 1
  }

  /** `~y + 1` is the two's-complement negation of y. */
  lemma TwosComplementNegates(y: Word)
    ensures TwosComplement(y) == -y
  {
  }

  /** The C expression is a test on the sign bits of x, y and the wrapped difference. */
  lemma SubOKBySigns(x: Word, y: Word)
    ensures SubOK(x, y) ==
      if Negative(x) != Negative(y) && Negative(x + TwosComplement(y)) == Negative(y) then 0 else 1
  {
    if Negative(x) == Negative(y) {
      SubOKSameSign(x, y);
    } else if Negative(x) {
      SubOKNegPos(x, y);
    } else {
      SubOKPosNeg(x, y);
    }
  }

  lemma SubOKSameSign(x: Word, y: Word)
    requires Negative(x) == Negative(y)
    ensures SubOK(x, y) == 1
  {
  }

  lemma SubOKNegPos(x: Word, y: Word)
    requires Negative(x) && !Negative(y)
    ensures SubOK(x, y) == if Negative(x + TwosComplement(y)) then 1 else 0
  {
    SumNonZero(x, y);
  }

  lemma SubOKPosNeg(x: Word, y: Word)
    requires !Negative(x) && Negative(y)
    ensures SubOK(x, y) == if Negative(x + TwosComplement(y)) then 0 else 1
  {
    SumNonZero(x, y);
  }

  lemma SumNonZero(x: Word, y: Word)
    requires x != y
    ensures x + TwosComplement(y) != 0
  {
    TwosComplementNegates(y);
  }


  /** Overflow happens exactly when the signs differ and the wrapped result takes y's sign. */
  lemma SubFitsBySigns(x: Word, y: Word)
    ensures Fits(WideSub(x, y)) <==>
      !(Negative(x) != Negative(y) && Negative(x + TwosComplement(y)) == Negative(y))
  {
    if Negative(x) == Negative(y) {
      SubFitsSameSign(x, y);
    } else if Negative(x) {
      SubFitsNegPos(x, y);
    } else {
      SubFitsPosNeg(x, y);
    }
  }

  lemma SubFitsNegPos(x: Word, y: Word)
    requires Negative(x) && !Negative(y)
    ensures Fits(WideSub(x, y)) <==> Negative(x + TwosComplement(y))
  {
    SubNegPosWide(x, y);
    SubNegPosOnly(x, y);
    SubNegPosIf(x, y);
  }

  lemma SubFitsPosNeg(x: Word, y: Word)
    requires !Negative(x) && Negative(y)
    ensures Fits(WideSub(x, y)) <==> !Negative(x + TwosComplement(y))
  {
    SubPosNegWide(x, y);
    SubPosNegOnly(x, y);
    SubPosNegIf(x, y);
  }

  lemma SubFitsSameSign(x: Word, y: Word)
    requires Negative(x) == Negative(y)
    ensures Fits(WideSub(x, y))
  {
    // case split for the solver: each case is proved on its own
    if Negative(x) { } else { }
  }

  lemma SubNegPosWide(x: Word, y: Word)
    requires Negative(x) && !Negative(y)
    ensures WideSub(x, y) == ((x as bv64) + 0xFFFF_FFFF_0000_0000) - (y as bv64)
  {
  }

  lemma SubNegPosOnly(x: Word, y: Word)
    requires Negative(x) && !Negative(y)
    ensures Fits(((x as bv64) + 0xFFFF_FFFF_0000_0000) - (y as bv64)) ==> Negative(x + TwosComplement(y))
  {
    TwosComplementNegates(y);
  }

  lemma SubNegPosIf(x: Word, y: Word)
    requires Negative(x) && !Negative(y)
    ensures Negative(x + TwosComplement(y)) ==> Fits(((x as bv64) + 0xFFFF_FFFF_0000_0000) - (y as bv64))
  {
    TwosComplementNegates(y);
  }

  lemma SubPosNegWide(x: Word, y: Word)
    requires !Negative(x) && Negative(y)
    ensures WideSub(x, y) == (x as bv64) - ((y as bv64) + 0xFFFF_FFFF_0000_0000)
  {
  }

  lemma SubPosNegOnly(x: Word, y: Word)
    requires !Negative(x) && Negative(y)
    ensures Fits((x as bv64) - ((y as bv64) + 0xFFFF_FFFF_0000_0000)) ==> !Negative(x + TwosComplement(y))
  {
    TwosComplementNegates(y);
  }

  lemma SubPosNegIf(x: Word, y: Word)
    requires !Negative(x) && Negative(y)
    ensures !Negative(x + TwosComplement(y)) ==> Fits((x as bv64) - ((y as bv64) + 0xFFFF_FFFF_0000_0000))
  {
    TwosComplementNegates(y);
  }

  // ---------------------------------------------------------------------------
  // Single-precision fields
  // ---------------------------------------------------------------------------

  function SignBit(uf: Word): Word {
    uf >> 31
  }

  function ExpField(uf: Word): Word {
    (uf >> 23) & 0xff
  }

  function FracField(uf: Word): Word {
    uf & 0x7F_FFFF
  }

  predicate IsNaN(uf: Word) {
    ExpField(uf) == 0xff && FracField(uf) != 0
  }

  // ---------------------------------------------------------------------------
  // float_abs
  // ---------------------------------------------------------------------------

  function FloatAbs(uf: Word): Word {
    var e := uf >> 23;
    var m := uf << 9;
    if (e == 0xff || e == 0x1ff) && m != 0 then uf else uf & !(1 << 31)
  }

  /** A NaN comes back unchanged; any other value loses its sign and nothing else. */
  lemma FloatAbsSpec(uf: Word)
    ensures IsNaN(uf) ==> FloatAbs(uf) == uf
    ensures !IsNaN(uf) ==>
      SignBit(FloatAbs(uf)) == 0 && ExpField(FloatAbs(uf)) == ExpField(uf)
      && FracField(FloatAbs(uf)) == FracField(uf)
  {
  }

  /** |(-f)| == |f|, and taking the absolute value twice changes nothing more. */
  lemma FloatAbsNegate(uf: Word)
    requires !IsNaN(uf)
    ensures FloatAbs(uf ^ 0x8000_0000) == FloatAbs(uf)
    ensures FloatAbs(FloatAbs(uf)) == FloatAbs(uf)
  {
  }

  // ---------------------------------------------------------------------------
  // float_f2i
  // ---------------------------------------------------------------------------

  /** C's `a < b` on two ints. */
  predicate SLt(a: Word, b: Word) {
    (a ^ 0x8000_0000) < (b ^ 0x8000_0000)
  }

  /** The significand 1.f shifted to the binary point of 2^E. */
  function Magnitude(m: Word, E: Word): Word
    requires E <= 31
  {
    if E > 23 then m << (E - 23) else Sar(m, 23 - E)
  }

  /** t is the truncation of m * 2^(E - 23): t * 2^23 <= m * 2^E < (t + 1) * 2^23. */
  predicate FloorOf(t: Word, m: Word, E: Word)
    requires E <= 30
  {
    ((t as bv64) << 23) <= ((m as bv64) << E) < (((t as bv64) + 1) << 23)
  }

  lemma MagnitudeIsFloor(m: Word, E: Word)
    requires 0x80_0000 <= m < 0x100_0000 && E <= 30
    ensures FloorOf(Magnitude(m, E), m, E)
  {
  }

  /** `~(1 << 31 >> 23)`: the eight exponent bits once shifted down. */
  const ExpMask: Word := !Sar(1 << 31, 23)

  /** `~(1 << 31 >> 8)`: the 23 fraction bits. */
  const FracMask: Word := !Sar(1 << 31, 8)

  lemma MaskValues()
    ensures ExpMask == 0xff && FracMask == 0x7F_FFFF
  {
  }

  /** As written: an exponent of 31 (e == 158) is still converted. */
  function FloatF2I(uf: Word): Word {
    ConvertFields(uf >> 31, (uf >> 23) & ExpMask, (uf & FracMask) + (1 << 23), 31)
  }

  /** Every value of magnitude 2^31 or more, infinities and NaNs included, is out of range. */
  function FloatF2IFixed(uf: Word): Word {
    ConvertFields(uf >> 31, (uf >> 23) & ExpMask, (uf & FracMask) + (1 << 23), 30)
  }

  /**
   * The body shared by both versions, on the sign s, the biased exponent e
   * and the significand m; an unbiased exponent above `largest` is out of range.
   */
  function ConvertFields(s: Word, e: Word, m: Word, largest: Word): Word
    requires largest <= 31
  {
    if SLt(largest, e - 127) then 1 << 31
    else if SLt(e - 127, 0) then 0
    else if s != 0 then Negate(Magnitude(m, e - 127))
    else Magnitude(m, e - 127)
  }

  /** C's unary minus on an int: the two's-complement negation. */
  function Negate(x: Word): Word {
    -x
  }

  lemma NegateTwice(x: Word)
    ensures Negate(Negate(x)) == x
  {
  }

  /** The significand 1.f of a normalised value, as a 24-bit integer. */
  function Significand(uf: Word): Word {
    FracField(uf) + 0x80_0000
  }

  /** The C expressions for e and m pick out the exponent field and the significand. */
  lemma F2IOperands(uf: Word)
    ensures (uf >> 23) & ExpMask == ExpField(uf)
    ensures (uf & FracMask) + (1 << 23) == Significand(uf)
  {
    MaskValues();
  }

  lemma FloatF2IFixedFields(uf: Word)
    ensures FloatF2IFixed(uf) == ConvertFields(SignBit(uf), ExpField(uf), Significand(uf), 30)
  {
    F2IOperands(uf);
  }

  lemma ConvertOutOfRange(s: Word, e: Word, m: Word)
    requires 127 + 31 <= e <= 0xff
    ensures ConvertFields(s, e, m, 30) == 0x8000_0000
  {
  }

  lemma ConvertBelowOne(s: Word, e: Word, m: Word)
    requires e < 127
    ensures ConvertFields(s, e, m, 30) == 0
  {
  }

  lemma ConvertInRange(s: Word, e: Word, m: Word)
    requires 127 <= e < 127 + 31
    ensures s == 0 ==> ConvertFields(s, e, m, 30) == Magnitude(m, e - 127)
    ensures s != 0 ==> ConvertFields(s, e, m, 30) == Negate(Magnitude(m, e - 127))
  {
  }

  /**
   * In range, the result is the float's value truncated toward zero: its
   * magnitude t is the floor of |f| = 1.f * 2^E, and it carries the sign of f.
   */
  lemma FloatF2IFixedSpec(uf: Word)
    ensures ExpField(uf) >= 127 + 31 ==> FloatF2IFixed(uf) == 0x8000_0000
    ensures ExpField(uf) < 127 ==> FloatF2IFixed(uf) == 0
    ensures 127 <= ExpField(uf) < 127 + 31 && SignBit(uf) == 0 ==>
      FloorOf(FloatF2IFixed(uf), Significand(uf), ExpField(uf) - 127)
    ensures 127 <= ExpField(uf) < 127 + 31 && SignBit(uf) != 0 ==>
      FloorOf(Negate(FloatF2IFixed(uf)), Significand(uf), ExpField(uf) - 127)
  {
    if ExpField(uf) >= 127 + 31 {
      F2IFixedOutOfRange(uf);
    } else if ExpField(uf) < 127 {
      F2IFixedBelowOne(uf);
    } else if SignBit(uf) == 0 {
      F2IFixedPositive(uf);
    } else {
      F2IFixedNegative(uf);
    }
  }

  lemma F2IFixedOutOfRange(uf: Word)
    requires ExpField(uf) >= 127 + 31
    ensures FloatF2IFixed(uf) == 0x8000_0000
  {
    FloatF2IFixedFields(uf);
    ExpFieldRange(uf);
    ConvertOutOfRange(SignBit(uf), ExpField(uf), Significand(uf));
  }

  lemma F2IFixedBelowOne(uf: Word)
    requires ExpField(uf) < 127
    ensures FloatF2IFixed(uf) == 0
  {
    FloatF2IFixedFields(uf);
    ConvertBelowOne(SignBit(uf), ExpField(uf), Significand(uf));
  }

  lemma F2IFixedPositive(uf: Word)
    requires 127 <= ExpField(uf) < 127 + 31 && SignBit(uf) == 0
    ensures FloorOf(FloatF2IFixed(uf), Significand(uf), ExpField(uf) - 127)
  {
    FloatF2IFixedFields(uf);
    ConvertInRange(SignBit(uf), ExpField(uf), Significand(uf));
    SignificandRange(uf);
    MagnitudeIsFloor(Significand(uf), ExpField(uf) - 127);
  }

  lemma F2IFixedNegative(uf: Word)
    requires 127 <= ExpField(uf) < 127 + 31 && SignBit(uf) != 0
    ensures FloorOf(Negate(FloatF2IFixed(uf)), Significand(uf), ExpField(uf) - 127)
  {
    FloatF2IFixedFields(uf);
    ConvertInRange(SignBit(uf), ExpField(uf), Significand(uf));
    NegateTwice(Magnitude(Significand(uf), ExpField(uf) - 127));
    SignificandRange(uf);
    MagnitudeIsFloor(Significand(uf), ExpField(uf) - 127);
  }

  lemma ExpFieldRange(uf: Word)
    ensures ExpField(uf) <= 0xff
  {
  }

  lemma SignificandRange(uf: Word)
    ensures 0x80_0000 <= Significand(uf) < 0x100_0000
  {
  }

  /** The two versions differ only where the exponent is exactly 31. */
  lemma FloatF2IAgrees(uf: Word)
    requires ExpField(uf) != 127 + 31
    ensures FloatF2I(uf) == FloatF2IFixed(uf)
  {
    F2IOperands(uf);
    ExpFieldRange(uf);
    ConvertAgrees(uf >> 31, ExpField(uf), Significand(uf));
  }

  lemma ConvertAgrees(s: Word, e: Word, m: Word)
    requires e <= 0xff && e != 127 + 31
    ensures ConvertFields(s, e, m, 31) == ConvertFields(s, e, m, 30)
  {
  }

  /** ±3 * 2^30 are out of range, but the shifted significand wraps to -2^30 (to 2^30 once negated). */
  lemma FloatF2ICounterexample()
    ensures ExpField(0x4F40_0000) == 127 + 31 && SignBit(0x4F40_0000) == 0
    ensures FloatF2I(0x4F40_0000) == 0xC000_0000
    ensures FloatF2IFixed(0x4F40_0000) == 0x8000_0000
    ensures FloatF2I(0xCF40_0000) == 0x4000_0000
    ensures FloatF2IFixed(0xCF40_0000) == 0x8000_0000
  {
    MaskValues();
  }
}
