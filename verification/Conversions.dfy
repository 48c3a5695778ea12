/** Conversions of 80-bit floating point numbers to and from integers and doubles, and rounding
    to an integer (emu/float80.c:79-307).

    All of them work by moving the binary point: f80_shift_left and f80_shift_right change the
    exponent and shift the significand, and only a right shift rounds.  An integer or a double
    is turned into a significand that is then normalised; the way back shifts the binary point
    to the end of the significand, or the significand to 53 bits.

    The round trips are exact because normalising loses no bit and a significand that was
    shifted left comes back without rounding, whatever the mode.  ToIntCorrectIff and RoundCorrect
    say what becomes of an arbitrary operand; for the way back to a double Doubles does. */
module Conversions {
  import opened Float80

  const P52: nat := 0x10_0000_0000_0000
  const P53: nat := 0x20_0000_0000_0000
  const INT64_MIN: int := -0x8000_0000_0000_0000
  const BIAS64: int := 0x3ff
  const EXP64_MAX: int := 0x7fe
  const EXP64_SPECIAL: int := 0x7ff
  const EXP64_DENORMAL: int := 0

  // ------------------------------------------------------------------ shifting

  /** f80_shift_left.  NormalizeFits shows that its only caller shifts nothing out of the
      fields. */
  function ShiftLeft(f: F80, shift: nat): F80 {
    F80(Shl(f.signif, shift), f.exp - shift, f.sign)
  }

  /** f80_shift_right.  The significand stays within its 64 bits (ShiftRightFits), and every
      caller passes the distance to an exponent in range. */
  function ShiftRight(f: F80, shift: nat, mode: Mode): F80 {
    F80(ShiftRightRound(f.signif, shift, f.sign, mode), f.exp + shift, f.sign)
  }

  lemma ShiftRightFits(i: nat, n: nat, sign: bool, mode: Mode)
    requires i < P64
    ensures ShiftRightRound(i, n, sign, mode) < P64
  {
    if n > 0 {
      ShiftedBound(i, n, sign, mode);
    }
  }

  /** f80_normalize. */
  function Normalize(f: F80): F80
    requires Fits(f) && (f.exp == EXP_DENORMAL || f.exp == EXP_SPECIAL ==> Supported(f))
  {
    if f.exp == EXP_DENORMAL then f
    else
      var shift := LeadingZeros(f.signif);
      if f.exp - shift < EXP_MIN then ShiftLeft(f, f.exp - EXP_MIN).(exp := EXP_DENORMAL)
      else ShiftLeft(f, shift)
  }

  function LeadingZeros(signif: nat): (c: nat)
    requires signif < P64
    ensures c <= 64
  {
    if signif != 0 then
      Power64();
      BitLenFits(signif, 64);
      Clz64(signif)
    else 64
  }

  lemma LeadingZerosNormalise(signif: nat)
    requires 0 < signif < P64
    ensures LeadingZeros(signif) < 64 && P63 <= Shl(signif, LeadingZeros(signif)) < P64
    ensures P63 <= signif ==> LeadingZeros(signif) == 0
  {
    var n := BitLen(signif);
    Power64();
    BitLenBounds(signif);
    BitLenFits(signif, 64);
    ShlIs(signif, 64 - n);
    Pow2Add(n - 1, 64 - n);
    Pow2Add(n, 64 - n);
    MulMono(Pow2(n - 1), signif, Pow2(64 - n));
    MulMonoStrict(signif, Pow2(n), Pow2(64 - n));
    if P63 <= signif && n < 64 {
      Pow2Mono(n, 63);
    }
  }

  /** Where the exponent leaves room for it, normalising moves the leading one to the integer
      bit. */
  lemma NormalizeMoves(f: F80) returns (c: nat)
    requires 0 < f.signif < P64 && 64 <= f.exp < EXP_SPECIAL
    ensures c < 64 && P63 <= Shl(f.signif, c) < P64
    ensures Normalize(f) == F80(Shl(f.signif, c), f.exp - c, f.sign)
  {
    LeadingZerosNormalise(f.signif);
    c := LeadingZeros(f.signif);
  }

  /** Normalising never shifts a one out of the significand. */
  lemma NormalizeFits(f: F80)
    requires Fits(f) && (f.exp == EXP_DENORMAL || f.exp == EXP_SPECIAL ==> Supported(f))
    ensures Fits(Normalize(f)) && (f.signif > 0 ==> Supported(Normalize(f)))
  {
    if f.exp != EXP_DENORMAL && f.signif > 0 {
      LeadingZerosNormalise(f.signif);
      var c, n := LeadingZeros(f.signif), f.exp - EXP_MIN;
      if n < c {
        ShlAdd(f.signif, n, c - n);
        ShlGrows(Shl(f.signif, n), c - n);
      }
    } else if f.exp != EXP_DENORMAL {
      ShlIs(0, f.exp - EXP_MIN);
      ShlIs(0, LeadingZeros(f.signif));
    }
  }

  lemma ShlGrows(i: nat, n: nat)
    requires n > 0
    ensures 2 * i <= Shl(i, n)
  {
    ShlIs(i, n);
    MulLe(i, 2, Pow2(n));
  }

  lemma NormalizeKeeps(f: F80)
    requires Fits(f) && Supported(f)
    ensures Normalize(f) == f
  {
    if f.exp != EXP_DENORMAL {
      LeadingZerosNormalise(f.signif);
    }
  }

  lemma {:induction false} ShlAdd(i: nat, a: nat, b: nat)
    ensures Shl(i, a + b) == Shl(Shl(i, a), b)
  {
    if b > 0 {
      ShlAdd(i, a, b - 1);
      assert a + b - 1 == a + (b - 1);
    }
  }

  /** Shifting left and right again loses nothing. */
  lemma {:induction false} ShlShr(i: nat, n: nat)
    ensures Shr(Shl(i, n), n) == i && Low(Shl(i, n), n) == 0
  {
    if n > 0 {
      assert Shl(i, n) / 2 == Shl(i, n - 1) && Shl(i, n) % 2 == 0;
      ShlShr(i, n - 1);
    }
  }

  lemma LowZero(n: nat)
    ensures Low(0, n) == 0
  {
    LowFits(0, n);
  }

  /** A significand shifted left comes back exactly, whatever the mode. */
  lemma ShiftBack(i: nat, n: nat, sign: bool, mode: Mode)
    requires n <= 127
    ensures ShiftRightRound(Shl(i, n), n, sign, mode) == i
  {
    if n > 0 {
      ShlShr(i, n);
      ShlAdd(i, 1, n - 1);
      ShlShr(Shl(i, 1), n - 1);
      assert Shl(i, 1) == 2 * Shl(i, 0);
      LowZero(64);
    }
  }

  // ------------------------------------------------------------------ integers

  /** A 64-bit pattern read as a signed integer. */
  function Signed64(x: nat): int {
    if x < P63 then x else x - P64
  }

  function Negated64(x: nat): nat {
    if 0 < x < P64 then P64 - x else 0
  }

  /** f80_from_int. */
  function FromInt(i: int): F80
    requires INT64_MIN <= i < P63
  {
    Normalize(F80(if i < 0 then -i else i, if i == 0 then 0 else 63 + BIAS80, i < 0))
  }

  /** f80_to_int. */
  function ToInt(f: F80, mode: Mode): int
    requires Fits(f)
  {
    if !Supported(f) || f.exp > 63 + BIAS80 then INT64_MIN
    else
      var signif := ShiftRight(f, 63 + BIAS80 - f.exp, mode).signif;
      if !f.sign then Signed64(signif) else Signed64(Negated64(signif))
  }

  /** Every 64-bit integer survives the trip through a float80, in every rounding mode. */
  lemma IntRoundTrip(i: int, mode: Mode)
    requires INT64_MIN <= i < P63
    ensures Fits(FromInt(i)) && ToInt(FromInt(i), mode) == i
  {
    if i == 0 {
      ToIntIs(F80(0, 0, false), mode, 0);
    } else {
      var m := if i < 0 then -i else i;
      var c := NormalizeMoves(F80(m, 63 + BIAS80, i < 0));
      ShiftBack(m, c, i < 0, mode);
      ToIntIs(FromInt(i), mode, m);
      assert FromInt(i).sign == (i < 0);
    }
  }

  lemma ToIntIs(f: F80, mode: Mode, r: nat)
    requires Fits(f) && Supported(f) && f.exp <= 63 + BIAS80 && r < P64
    requires r == ShiftRightRound(f.signif, 63 + BIAS80 - f.exp, f.sign, mode)
    ensures ToInt(f, mode) == if !f.sign then Signed64(r) else Signed64(Negated64(r))
  {
  }

  // ------------------------------------------------------------------ rounding to an integer

  /** The integer nearest to f in the given mode, without a sign. */
  ghost predicate RoundsToInteger(f: F80, mode: Mode, r: nat)
    requires f.exp >= 0
  {
    RoundsTo(Magnitude(f), One(), f.sign, mode, r)
  }

  /** There is only one. */
  lemma IntegerUnique(i: nat, d: nat, sign: bool, mode: Mode, r: nat, t: nat)
    requires d > 0 && RoundsTo(i, d, sign, mode, r) && RoundsTo(i, d, sign, mode, t)
    ensures r == t
  {
    NotBelow(i, d, sign, mode, r, t);
    NotBelow(i, d, sign, mode, t, r);
  }

  lemma NotBelow(i: nat, d: nat, sign: bool, mode: Mode, r: nat, t: nat)
    requires d > 0 && RoundsTo(i, d, sign, mode, r) && RoundsTo(i, d, sign, mode, t)
    ensures t <= r
  {
    if r < t {
      var p := r * d;
      NextMultiple(r, d);
      MulMono(r + 1, t, d);
      if t > r + 1 {
        NextMultiple(r + 1, d);
        MulMono(r + 2, t, d);
      }
    }
  }

  lemma RoundsScale(i: nat, d: nat, k: nat, sign: bool, mode: Mode, r: nat)
    requires k > 0 && RoundsTo(i, d, sign, mode, r)
    ensures RoundsTo(i * k, d * k, sign, mode, r)
  {
    var p := r * d;
    Assoc(r, d, k);
    ScaleCompare(p, i, d, k);
    ScaleCompare(i, p, d, k);
  }

  lemma ScaleCompare(a: nat, b: nat, d: nat, k: nat)
    requires k > 0
    ensures 2 * a <= 2 * b + d <==> 2 * (a * k) <= 2 * (b * k) + d * k
    ensures 2 * a == 2 * b + d <==> 2 * (a * k) == 2 * (b * k) + d * k
    ensures a < b + d <==> a * k < b * k + d * k
    ensures a <= b <==> a * k <= b * k
  {
    Distribute(a, 0, k);
    Distribute(b, d, k);
    MulCancel(k, 2 * a, 2 * b + d);
    MulCancel(k, a, b + d);
    MulCancel(k, a, b);
  }

  lemma Distribute(b: nat, d: nat, k: nat)
    ensures k * (2 * b + d) == 2 * (b * k) + d * k && k * (b + d) == b * k + d * k
  {
  }

  lemma UnitPower(t: nat, n: nat, k: nat)
    requires t + n == 63 + k
    ensures Pow2(n) * Pow2(t) == P63 * Pow2(k)
  {
    Pow2Add(n, t);
    UnitIs(63, k);
    SamePower(n + t, 63 + k);
  }

  lemma UnitIs(n: nat, k: nat)
    requires n == 63
    ensures Pow2(n + k) == P63 * Pow2(k)
  {
    Power64();
    Pow2Add(n, k);
  }

  /** Shifting the binary point to the end of the significand rounds to an integer. */
  lemma ShiftToInteger(f: F80, mode: Mode) returns (r: nat)
    requires Finite(f) && f.exp <= 63 + BIAS80
    ensures r == ShiftRightRound(f.signif, 63 + BIAS80 - f.exp, f.sign, mode) && RoundsToInteger(f, mode, r)
  {
    var n, t := 63 + BIAS80 - Scale(f.exp), Scale(f.exp) - 1;
    r := ShiftRightRound(f.signif, n, f.sign, mode);
    ShiftRoundsCorrectly(f.signif, n, f.sign, mode);
    RoundsScale(f.signif, Pow2(n), Pow2(t), f.sign, mode, r);
    UnitPower(t, n, BIAS80 - 1);
  }

  /** The integer that shifting gives is at most 2^63 once anything is shifted out. */
  lemma ShiftedBound(i: nat, n: nat, sign: bool, mode: Mode)
    requires i < P64 && n > 0
    ensures ShiftRightRound(i, n, sign, mode) <= P63
  {
    if n <= 127 {
      ShrLow(i, n - 1);
      ShrStep(i, n);
      assert Shr(i, n - 1) <= i by { MulLe(Shr(i, n - 1), 1, Pow2(n - 1)); }
    }
  }

  /** The operands for which f80_to_int wraps around or gives the indefinite integer: every
      magnitude from 2^63 up except -2^63, and what rounds up to 2^63. */
  predicate TooBigForInt(f: F80, mode: Mode) {
    || f.exp > 63 + BIAS80
    || (f.exp == 63 + BIAS80 && !(f.sign && f.signif == P63))
    || (f.exp == 62 + BIAS80 && !f.sign && f.signif == P64 - 1 && (mode == Nearest || mode == Up))
  }

  lemma AllOnesCarry(i: nat, n: nat, sign: bool, mode: Mode)
    requires P63 <= i < P64 && 0 < n <= 127
    ensures ShiftRightRound(i, n, sign, mode) == P63
            <==> n == 1 && i == P64 - 1 && (AwayFromZero(mode, sign) || mode == Nearest)
  {
    if n == 1 {
      HalfCarry(i, n, sign, mode);
    } else {
      ShiftIs(i, n, sign, mode);
      ShrStep(i, n - 1);
      ShrSmaller(i, n - 2);
      assert Shr(i, n - 1) < P63;
    }
  }

  lemma HalfCarry(i: nat, n: nat, sign: bool, mode: Mode)
    requires P63 <= i < P64 && n == 1
    ensures ShiftRightRound(i, n, sign, mode) == P63 <==> i == P64 - 1 && (AwayFromZero(mode, sign) || mode == Nearest)
  {
    ShiftIs(i, n, sign, mode);
    assert Shr(i, n - 1) == i && Low(i, n - 1) == 0;
  }

  lemma {:induction false} ShrSmaller(i: nat, n: nat)
    ensures Shr(i, n) <= i
    decreases n
  {
    if n > 0 {
      ShrSmaller(i / 2, n - 1);
    }
  }

  /** f80_to_int is the rounded integer, with its sign, exactly for the finite operands outside
      that family. */
  lemma ToIntCorrectIff(f: F80, mode: Mode, r: nat)
    requires Finite(f) && RoundsToInteger(f, mode, r)
    ensures ToInt(f, mode) == (if f.sign then -(r as int) else r) <==> !TooBigForInt(f, mode)
  {
    OneIs();
    if f.exp > 63 + BIAS80 {
      HugeInteger(f, mode, r);
    } else {
      var q := ShiftToInteger(f, mode);
      IntegerUnique(Magnitude(f), One(), f.sign, mode, q, r);
      ShiftedFits(f, mode, r);
      ToIntIs(f, mode, r);
      SignedExact(r, f.sign);
    }
  }

  /** 2^63 becomes -2^63 in every mode. */
  lemma ToIntWraps(mode: Mode) returns (f: F80)
    ensures Finite(f) && !f.sign && Magnitude(f) == P63 * One() && ToInt(f, mode) == INT64_MIN
  {
    f := F80(P63, 63 + BIAS80, false);
    WholeNumber(f, 0);
    assert f.signif * Pow2(0) == P63;
    ToIntIs(f, mode, P63);
  }

  /** From 2^64 on nothing fits. */
  lemma HugeInteger(f: F80, mode: Mode, r: nat)
    requires Finite(f) && f.exp > 63 + BIAS80 && RoundsToInteger(f, mode, r)
    ensures r >= P64
  {
    WholeNumber(f, f.exp - 63 - BIAS80);
    var k := f.signif * Pow2(f.exp - 63 - BIAS80);
    OneIs();
    WholeRounds(k, One(), f.sign, mode);
    IntegerUnique(Magnitude(f), One(), f.sign, mode, k, r);
    MulLe(f.signif, 2, Pow2(f.exp - 63 - BIAS80));
  }

  lemma WholeNumber(f: F80, n: nat)
    requires Finite(f) && f.exp == 63 + BIAS80 + n
    ensures Magnitude(f) == f.signif * Pow2(n) * One()
  {
    Power64();
    Pow2Add(63, BIAS80 - 1);
    Pow2Add(n, 63 + (BIAS80 - 1));
    SamePower(f.exp - 1, n + (63 + (BIAS80 - 1)));
    Assoc(f.signif, Pow2(n), One());
  }

  lemma WholeRounds(k: nat, d: nat, sign: bool, mode: Mode)
    requires d > 0
    ensures RoundsTo(k * d, d, sign, mode, k)
  {
  }

  lemma SignedExact(r: nat, sign: bool)
    requires r < P64
    ensures (if !sign then Signed64(r) else Signed64(Negated64(r))) == (if sign then -(r as int) else r)
            <==> r < P63 || (sign && r == P63)
  {
  }

  lemma ShiftedFits(f: F80, mode: Mode, r: nat)
    requires Finite(f) && f.exp <= 63 + BIAS80
    requires r == ShiftRightRound(f.signif, 63 + BIAS80 - f.exp, f.sign, mode)
    ensures r < P64 && (TooBigForInt(f, mode) <==> !(r < P63 || (f.sign && r == P63)))
  {
    var n := 63 + BIAS80 - f.exp;
    if n > 0 {
      ShiftedBound(f.signif, n, f.sign, mode);
      if n <= 127 {
        AllOnesCarry(f.signif, n, f.sign, mode);
      }
    }
  }

  /** Whatever is too big, infinite, not a number or not supported gives the indefinite integer. */
  lemma ToIntIndefinite(f: F80, mode: Mode)
    requires Fits(f) && (!Supported(f) || f.exp > 63 + BIAS80)
    ensures ToInt(f, mode) == -0x8000_0000_0000_0000
  {
  }

  /** f80_round. */
  function Round(f: F80, mode: Mode): F80
    requires Fits(f)
  {
    if !Supported(f) then F80_NAN
    else if 63 + BIAS80 - f.exp <= 0 then f
    else
      ShiftRightFits(f.signif, 63 + BIAS80 - f.exp, f.sign, mode);
      RoundShifted(ShiftRight(f, 63 + BIAS80 - f.exp, mode))
  }

  /** The end of f80_round, once the fraction is shifted out. */
  function RoundShifted(g: F80): F80
    requires Fits(g) && g.exp == 63 + BIAS80
  {
    if g.signif == 0 then g.(exp := EXP_DENORMAL) else Normalize(g)
  }

  /** f80_round gives the value of the nearest integer, in the canonical form, sign kept. */
  lemma RoundCorrect(f: F80, mode: Mode) returns (r: nat)
    requires Finite(f)
    ensures RoundsToInteger(f, mode, r)
    ensures var g := Round(f, mode); Finite(g) && g.sign == f.sign && Magnitude(g) == r * One()
  {
    if f.exp >= 63 + BIAS80 {
      r := f.signif * Pow2(f.exp - 63 - BIAS80);
      WholeNumber(f, f.exp - 63 - BIAS80);
      OneIs();
      WholeRounds(r, One(), f.sign, mode);
    } else {
      r := RoundFraction(f, mode);
    }
  }

  /** Infinities and NaNs are left alone, and an unsupported number becomes a NaN. */
  lemma RoundSpecial(f: F80, mode: Mode)
    requires Fits(f) && (!Supported(f) || f.exp == EXP_SPECIAL)
    ensures if Supported(f) then Round(f, mode) == f else IsNan(Round(f, mode))
  {
  }

  lemma RoundFraction(f: F80, mode: Mode) returns (r: nat)
    requires Finite(f) && f.exp < 63 + BIAS80
    ensures RoundsToInteger(f, mode, r)
    ensures var g := Round(f, mode); Finite(g) && g.sign == f.sign && Magnitude(g) == r * One()
  {
    r := ShiftToInteger(f, mode);
    ShiftedBound(f.signif, 63 + BIAS80 - f.exp, f.sign, mode);
    RoundIs(f, mode, r);
    if r > 0 {
      IntegerNormalised(r, f.sign);
    }
  }

  lemma RoundIs(f: F80, mode: Mode, r: nat)
    requires Finite(f) && f.exp < 63 + BIAS80 && r <= P63
    requires r == ShiftRightRound(f.signif, 63 + BIAS80 - f.exp, f.sign, mode)
    ensures Round(f, mode) == RoundShifted(F80(r, 63 + BIAS80, f.sign))
  {
  }

  lemma IntegerNormalised(r: nat, sign: bool)
    requires 0 < r < P64
    ensures var g := Normalize(F80(r, 63 + BIAS80, sign)); Finite(g) && g.sign == sign && Magnitude(g) == r * One()
  {
    var c := NormalizeMoves(F80(r, 63 + BIAS80, sign));
    var t := 62 + BIAS80 - c;
    ShlIs(r, c);
    Assoc(r, Pow2(c), Pow2(t));
    UnitPower(t, c, BIAS80 - 1);
  }

  // ------------------------------------------------------------------ doubles

  /** struct double_bits: every 64-bit pattern is one of these. */
  datatype Double = Double(signif: nat, exp: int, sign: bool)

  predicate FitsDouble(d: Double) {
    d.signif < P52 && 0 <= d.exp <= EXP64_SPECIAL
  }

  const DOUBLE_NAN := Double(0x8_0000_0000_0000, EXP64_SPECIAL, false)

  function ExpFromDouble(d: Double): int {
    if d.exp == EXP64_SPECIAL then EXP_SPECIAL
    else if d.exp == EXP64_DENORMAL then (if d.signif == 0 then 0 else 1 - BIAS64 + BIAS80)
    else d.exp - BIAS64 + BIAS80
  }

  /** The significand before normalisation: shifted to the top, with the integer bit unless
      the double is denormal.  The two do not overlap, so "or" is addition. */
  function SignifFromDouble(d: Double): (s: nat)
    requires FitsDouble(d)
    ensures s < P64 && (d.exp != EXP64_DENORMAL <==> P63 <= s)
  {
    d.signif * 2048 + if d.exp != EXP64_DENORMAL then P63 else 0
  }

  /** f80_from_double. */
  function FromDouble(d: Double): F80
    requires FitsDouble(d)
  {
    Normalize(F80(SignifFromDouble(d), ExpFromDouble(d), d.sign))
  }

  /** f80_to_double. */
  function ToDouble(f: F80, mode: Mode): Double
    requires Fits(f)
  {
    var exp := f.exp - BIAS80 + BIAS64;
    if !Supported(f) then DOUBLE_NAN
    else if f.exp == EXP_SPECIAL then PackDouble(f, EXP64_SPECIAL, mode)
    else if exp > EXP64_MAX then Double(0, EXP64_SPECIAL, f.sign)
    else if exp <= 0 then PackSmall(ShiftRight(F80(f.signif / 2, f.exp, f.sign), -exp, mode), mode)
    else PackDouble(f, exp, mode)
  }

  function PackSmall(g: F80, mode: Mode): Double {
    PackDouble(g, g.exp - BIAS80 + BIAS64, mode)
  }

  /** The end of f80_to_double: round to 53 bits, carry, and cut the fields to their width. */
  function PackDouble(f: F80, exp: int, mode: Mode): Double {
    PackFields(ShiftRightRound(f.signif, 11, f.sign, mode), exp, f.sign)
  }

  function PackFields(signif: nat, exp: int, sign: bool): Double {
    if signif / P53 % 2 == 1 then Double(signif / 2 % P52, (exp + 1) % 0x800, sign)
    else Double(signif % P52, exp % 0x800, sign)
  }

  lemma PackFieldsIs(m: nat, exp: int, sign: bool)
    requires m <= P53 && 0 <= exp <= EXP64_SPECIAL && (m == P53 ==> exp < EXP64_SPECIAL)
    ensures PackFields(m, exp, sign)
            == Double(if m < P52 then m else if m < P53 then m - P52 else 0, if m == P53 then exp + 1 else exp, sign)
  {
  }

  lemma ShlEleven(i: nat, n: nat)
    requires n == 11
    ensures Shl(i, n) == i * 2048
  {
    ShlIs(i, n);
    assert Pow2(11) == 2048;
  }

  /** A significand with nothing below its 53 bits is packed exactly. */
  lemma PackExact(f: F80, s: nat, h: nat, exp: int, mode: Mode)
    requires s < P52 && (h == 0 || h == P52) && 0 <= exp <= EXP64_SPECIAL && f.signif == (s + h) * 2048
    ensures PackDouble(f, exp, mode) == Double(s, exp, f.sign)
  {
    ShlEleven(s + h, 11);
    ShiftBack(s + h, 11, f.sign, mode);
    PackFieldsIs(s + h, exp, f.sign);
  }

  lemma ToDoubleDirect(f: F80, mode: Mode)
    requires Fits(f) && Supported(f) && (f.exp == EXP_SPECIAL || 1 <= f.exp - BIAS80 + BIAS64 <= EXP64_MAX)
    ensures ToDouble(f, mode)
            == PackDouble(f, if f.exp == EXP_SPECIAL then EXP64_SPECIAL else f.exp - BIAS80 + BIAS64, mode)
  {
  }

  lemma ToDoubleSmall(f: F80, n: nat, mode: Mode, s: nat)
    requires Fits(f) && Supported(f) && n == BIAS80 - BIAS64 - f.exp
    requires s == ShiftRightRound(f.signif / 2, n, f.sign, mode)
    ensures ToDouble(f, mode) == PackSmall(F80(s, BIAS80 - BIAS64, f.sign), mode)
  {
    HalvedIs(F80(f.signif / 2, f.exp, f.sign), n, mode, s);
  }

  lemma HalvedIs(h: F80, n: nat, mode: Mode, s: nat)
    requires s == ShiftRightRound(h.signif, n, h.sign, mode) && h.exp + n == BIAS80 - BIAS64
    ensures ShiftRight(h, n, mode) == F80(s, BIAS80 - BIAS64, h.sign)
  {
  }

  lemma ZeroToDouble(f: F80, n: nat, mode: Mode)
    requires f.signif == 0 && f.exp == EXP_DENORMAL && n == BIAS80 - BIAS64
    ensures ToDouble(f, mode) == Double(0, 0, f.sign)
  {
    ToDoubleSmall(f, n, mode, ShiftRightRound(f.signif / 2, n, f.sign, mode));
    PackExact(F80(0, n, f.sign), 0, 0, 0, mode);
  }

  /** Every double survives the trip through a float80, bit for bit, in every rounding mode. */
  lemma DoubleRoundTrip(d: Double, mode: Mode)
    requires FitsDouble(d)
    ensures Fits(FromDouble(d)) && ToDouble(FromDouble(d), mode) == d
  {
    if d.exp != EXP64_DENORMAL {
      NormalRoundTrip(d, mode);
    } else if d.signif == 0 {
      ZeroToDouble(F80(0, 0, d.sign), BIAS80 - BIAS64, mode);
    } else {
      DenormalRoundTrip(d, mode);
    }
  }

  lemma NormalRoundTrip(d: Double, mode: Mode)
    requires FitsDouble(d) && d.exp != EXP64_DENORMAL
    ensures Fits(FromDouble(d)) && ToDouble(FromDouble(d), mode) == d
  {
    var f := FromNormal(d);
    NormalBack(d, f, mode);
  }

  lemma NormalBack(d: Double, f: F80, mode: Mode)
    requires FitsDouble(d) && d.exp != EXP64_DENORMAL && Fits(f) && Supported(f)
    requires f.signif == (d.signif + P52) * 2048 && f.exp == ExpFromDouble(d) && f.sign == d.sign
    ensures ToDouble(f, mode) == d
  {
    ToDoubleDirect(f, mode);
    PackExact(f, d.signif, P52, d.exp, mode);
  }

  lemma FromNormal(d: Double) returns (f: F80)
    requires FitsDouble(d) && d.exp != EXP64_DENORMAL
    ensures f == FromDouble(d) == F80((d.signif + P52) * 2048, ExpFromDouble(d), d.sign) && Fits(f) && Supported(f)
  {
    f := F80(SignifFromDouble(d), ExpFromDouble(d), d.sign);
    NormalizeKeeps(f);
  }

  lemma DenormalRoundTrip(d: Double, mode: Mode)
    requires FitsDouble(d) && d.exp == EXP64_DENORMAL && d.signif > 0
    ensures Fits(FromDouble(d)) && ToDouble(FromDouble(d), mode) == d
  {
    var c := FromDenormal(d);
    var s, f := d.signif * 2048, FromDouble(d);
    ShiftBack(s, c - 1, d.sign, mode);
    ToDoubleSmall(f, c - 1, mode, s);
    PackExact(F80(s, BIAS80 - BIAS64, d.sign), d.signif, 0, 0, mode);
  }

  lemma FromDenormal(d: Double) returns (c: nat)
    requires FitsDouble(d) && d.exp == EXP64_DENORMAL && d.signif > 0
    ensures 0 < c < 64
    ensures var f := FromDouble(d);
            Finite(f) && f.sign == d.sign && f.exp == 1 - BIAS64 + BIAS80 - c
              && f.signif / 2 == Shl(d.signif * 2048, c - 1)
  {
    c := NormalizeMoves(F80(d.signif * 2048, 1 - BIAS64 + BIAS80, d.sign));
  }
}
