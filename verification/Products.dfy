/** Multiplication of arbitrary finite numbers (emu/float80.c:420-442), with the products that
    are zero or in the denormal range.

    In the denormal range the source rounds twice: the 128-bit product to the unit that it has
    once its exponent is the smallest, and that to 64 bits.  For a product of zero it takes the
    number of leading zeros, 128, off the exponent.

    A denormal number is a whole multiple of the smallest one, so that being right comes down to
    being the rounded integer (SmallIff); RoundTwice says what two roundings make of it.  The main
    result, MulCorrectIff, says for which operands the product is right; the last lemmas are
    products that are not. */
module Products {
  import opened Float80
  import opened Conversions
  import opened RoundTwice

  // ------------------------------------------------------------------ u128_shift_right_round

  /** The bits that a shift by more than 65 keeps of the rest are all zero, others are not, and
      that changes the result; or a shift by 128 rounds more than a half down. */
  predicate LosesBits(i: nat, shift: nat, sign: bool, mode: Mode) {
    if shift == 0 then false
    else if shift > 127 then mode == Nearest && shift == 128 && i > P127
    else
      var high, low := Shr(i, shift - 1), Low(i, shift - 1);
      && low != 0 && Low(low, 64) == 0
      && if AwayFromZero(mode, sign) then high % 2 == 0 else mode == Nearest && high % 2 == 1 && high / 2 % 2 == 0
  }

  /** A shift of any 128-bit integer rounds correctly exactly if no such bit is lost. */
  lemma ShiftRoundsIff(i: nat, shift: nat, sign: bool, mode: Mode)
    requires i < P128
    ensures RoundsTo(i, Pow2(shift), sign, mode, ShiftRightRound(i, shift, sign, mode))
            <==> !LosesBits(i, shift, sign, mode)
  {
    if shift == 0 {
      RoundWhole(i, sign, mode);
    } else if shift > 127 {
      ShiftOutIff(i, shift, sign, mode);
    } else {
      var high, low, r := Shr(i, shift - 1), Low(i, shift - 1), ShiftRightRound(i, shift, sign, mode);
      var t := if RoundsUp(high / 2, high % 2, low, sign, mode) then high / 2 + 1 else high / 2;
      ShrStep(i, shift);
      ShiftParts(i, shift);
      LowZero(64);
      RoundParts(i, high / 2, high % 2, Pow2(shift - 1), Pow2(shift), low, sign, mode, t);
      if r != t && RoundsTo(i, Pow2(shift), sign, mode, r) {
        IntegerUnique(i, Pow2(shift), sign, mode, r, t);
      }
    }
  }

  lemma ShiftOutIff(i: nat, shift: nat, sign: bool, mode: Mode)
    requires i < P128 && shift > 127
    ensures RoundsTo(i, Pow2(shift), sign, mode, ShiftRightRound(i, shift, sign, mode))
            <==> !LosesBits(i, shift, sign, mode)
  {
    Power128();
    if shift > 128 {
      Pow2Mono(129, shift);
      assert Pow2(129) == 2 * Pow2(128);
      RoundTiny(i, Pow2(shift), sign, mode);
    }
  }

  // ------------------------------------------------------------------ numbers in the denormal range

  /** Among the denormal numbers only the rounded integer is right, and the smallest normal
      number is not one of them. */
  lemma SmallIff(x: nat, u: nat, sign: bool, mode: Mode, m: nat, v: nat)
    requires u > 0 && x < P63 * u && RoundsTo(x, u, sign, mode, m) && v <= P63
    ensures CorrectlyRounded(x, u, sign, mode, F80(v, EXP_DENORMAL, sign)) <==> v == m < P63
  {
    SmallRange(x, u, sign, mode, m);
    if v == P63 {
    } else if v == m {
      SmallCorrect(x, u, sign, mode, m);
    } else {
      SmallWrong(x, u, sign, mode, m, v);
    }
  }

  lemma SmallRange(x: nat, u: nat, sign: bool, mode: Mode, m: nat)
    requires u > 0 && x < P63 * u && RoundsTo(x, u, sign, mode, m)
    ensures m <= P63
    ensures m == P63 <==> if mode == Nearest then 2 * x >= (2 * P63 - 1) * u
                          else AwayFromZero(mode, sign) && x > (P63 - 1) * u
  {
    NotPast(m, P63, u);
    NextMultiple(P63 - 1, u);
    assert (2 * P63 - 1) * u == 2 * ((P63 - 1) * u) + u;
    if m < P63 - 1 {
      MulMono(m + 1, P63 - 1, u);
      NextMultiple(m, u);
    }
    TopIff(x, u, sign, mode, m, m * u, (P63 - 1) * u);
  }

  lemma TopIff(x: nat, u: nat, sign: bool, mode: Mode, m: nat, p: nat, top: nat)
    requires u > 0 && RoundsAt(x, u, sign, mode, m, p) && x < top + u
    requires if m < P63 - 1 then p + u <= top else if m == P63 - 1 then p == top else m == P63 && p == top + u
    ensures m == P63 <==> if mode == Nearest then 2 * x >= 2 * top + u else AwayFromZero(mode, sign) && x > top
  {
  }

  lemma SmallCorrect(x: nat, u: nat, sign: bool, mode: Mode, m: nat)
    requires u > 0 && x < P63 * u && RoundsTo(x, u, sign, mode, m) && m < P63
    ensures CorrectlyRounded(x, u, sign, mode, F80(m, EXP_DENORMAL, sign))
  {
    var r := F80(m, EXP_DENORMAL, sign);
    assert Magnitude(r) == m by { assert Pow2(0) == 1; }
    if mode == Nearest {
      BelowThreshold(x, u);
      forall g | Finite(g) ensures NoCloser(x, u, r, g) {
        SmallNearest(x, u, sign, m, r, g);
      }
    } else {
      forall g | Finite(g)
        ensures AwayFromZero(mode, sign) ==> Below(x, u, g) || m <= Magnitude(g)
        ensures !AwayFromZero(mode, sign) ==> Above(x, u, g) || Magnitude(g) <= m
      {
        BestDirected(x, u, sign, mode, m, Magnitude(g));
      }
    }
  }

  lemma SmallNearest(x: nat, u: nat, sign: bool, m: nat, r: F80, g: F80)
    requires u > 0 && RoundsTo(x, u, sign, Nearest, m) && Finite(g)
    requires r.exp >= 0 && Magnitude(r) == m == r.signif
    ensures NoCloser(x, u, r, g)
  {
    NearestMultiple(x, u, sign, m, Magnitude(g));
    MulCancel(u, m, Magnitude(g));
  }

  lemma BestDirected(x: nat, u: nat, sign: bool, mode: Mode, m: nat, k: nat)
    requires u > 0 && mode != Nearest && RoundsTo(x, u, sign, mode, m)
    ensures AwayFromZero(mode, sign) ==> k * u < x || m <= k
    ensures !AwayFromZero(mode, sign) ==> x < k * u || k <= m
  {
    if AwayFromZero(mode, sign) && x <= k * u {
      NotPast(m, k, u);
    }
    if !AwayFromZero(mode, sign) && k * u <= x {
      NotPast(k, m, u);
    }
  }

  lemma BelowThreshold(x: nat, u: nat)
    requires x < P63 * u
    ensures 2 * x < TwiceThreshold() * u
  {
    assert 2 * P63 <= TwiceThreshold() by { MulLe(P64 - 1, 1, Pow2(EXP_MAX - 1)); }
    MulMono(2 * P63, TwiceThreshold(), u);
    Assoc(2, P63, u);
  }

  lemma SmallWrong(x: nat, u: nat, sign: bool, mode: Mode, m: nat, v: nat)
    requires u > 0 && RoundsTo(x, u, sign, mode, m) && m <= P63 && v < P63 && v != m
    ensures !CorrectlyRounded(x, u, sign, mode, F80(v, EXP_DENORMAL, sign))
  {
    var r := F80(v, EXP_DENORMAL, sign);
    var g := F80(m, if m < P63 then EXP_DENORMAL else EXP_MIN, sign);
    assert Finite(g) && Magnitude(g) == m && Magnitude(r) == v by { assert Pow2(0) == 1; }
    if mode == Nearest {
      assert !NoCloser(x, u, r, g) by { WrongNearest(x, u, sign, m, v); }
    } else {
      WrongDirected(x, u, sign, mode, m, v);
      assert Below(x, u, g) <==> m * u < x;
      assert Above(x, u, g) <==> x < m * u;
    }
  }

  // ------------------------------------------------------------------ f80_mul

  /** The exponent that f80_mul gives the 128-bit product of the significands, biased. */
  function ProductExp(a: F80, b: F80): int
    requires a.exp >= 0 && b.exp >= 0
  {
    Scale(a.exp) + Scale(b.exp) - BIAS80 + 1
  }

  /** Rounding away from zero, every bit of the product is shifted out, and those that are
      looked at are zero. */
  predicate Vanishes(s: nat, n: int) {
    65 < n <= 127 && s % P64 == 0 && s < Pow2(n - 1)
  }

  /** The first of the two roundings in the denormal range, by n bits, does no harm: it makes
      no false tie and does not lose everything. */
  predicate FirstHarmless(s: nat, n: int, sign: bool, mode: Mode) {
    if mode == Nearest then !(n > 0 && FalseTie(s, Pow2(n), P63))
    else !(AwayFromZero(mode, sign) && Vanishes(s, n))
  }

  /** The value x / One() does not round up to the smallest normal number, for which the code
      makes an unsupported one. */
  predicate StaysDenormal(x: nat, sign: bool, mode: Mode) {
    if mode == Nearest then 2 * x < (2 * P63 - 1) * One()
    else AwayFromZero(mode, sign) ==> x <= (P63 - 1) * One()
  }

  /** What a caller can look at to know whether a product is right.  Zero times a large number
      is not, since it gets an exponent. */
  predicate MultipliesCorrectly(a: F80, b: F80, mode: Mode)
    requires a.exp >= 0 && b.exp >= 0
  {
    var s, x, sign := a.signif * b.signif, Magnitude(a) * Magnitude(b), a.sign != b.sign;
    if s == 0 then ProductExp(a, b) <= 128
    else x >= P63 * One() || (StaysDenormal(x, sign, mode) && FirstHarmless(s, 1 - ProductExp(a, b), sign, mode))
  }

  /** f80_mul is correctly rounded exactly there, for all finite operands. */
  lemma MulCorrectIff(a: F80, b: F80, mode: Mode)
    requires Finite(a) && Finite(b)
    ensures CorrectlyRounded(Magnitude(a) * Magnitude(b), One(), a.sign != b.sign, mode, Mul(a, b, mode))
            <==> MultipliesCorrectly(a, b, mode)
  {
    MulIs(a, b, mode);
    if a.signif == 0 || b.signif == 0 {
      ZeroProductIff(a, b, mode);
    } else {
      Positive(a.signif, b.signif);
      if Magnitude(a) * Magnitude(b) >= P63 * One() {
        MulCorrect(a, b, mode);
      } else {
        SmallProductIff(a, b, mode);
      }
    }
  }

  lemma ZeroProductIff(a: F80, b: F80, mode: Mode)
    requires Finite(a) && Finite(b) && (a.signif == 0 || b.signif == 0)
    ensures CorrectlyRounded(Magnitude(a) * Magnitude(b), One(), a.sign != b.sign, mode,
                             MulFinite(a, b, a.sign != b.sign, mode))
            <==> MultipliesCorrectly(a, b, mode)
  {
    assert a.signif * b.signif == 0 && Magnitude(a) * Magnitude(b) == 0;
    ZeroIff(ProductExp(a, b), a.sign != b.sign, mode);
  }

  lemma ZeroIff(e: int, sign: bool, mode: Mode)
    requires e <= EXP_MAX
    ensures CorrectlyRounded(0, One(), sign, mode, NormalizeRound(0, e, sign, mode)) <==> e <= 128
  {
    ZeroShifted(e, sign, mode);
    OneIs();
    SmallIff(0, One(), sign, mode, 0, 0);
  }

  lemma ZeroShifted(e: int, sign: bool, mode: Mode)
    requires e <= EXP_MAX
    ensures NormalizeRound(0, e, sign, mode) == F80(0, if e <= 128 then EXP_DENORMAL else e - 128, sign)
  {
    ShiftZero(64, sign, mode);
    assert Clz128(0) == 128 by { LowFits(0, 64); }
    if e <= 128 {
      NormalizeSmall(0, e, sign, mode);
      assert DenormalSignif(0, e, sign, mode) == 0 by {
        if e > EXP_MIN {
          ShlIs(0, e - EXP_MIN);
        } else {
          ShiftZero(EXP_MIN - e, sign, mode);
        }
      }
    } else {
      ShlIs(0, 128);
      NormalizeRoundIs(0, e, 128, sign, mode);
    }
  }

  lemma NormalizeSmall(s: nat, e: int, sign: bool, mode: Mode)
    requires e - Clz128(s) < EXP_MIN
    ensures NormalizeRound(s, e, sign, mode)
            == Assemble(ShiftRightRound(DenormalSignif(s, e, sign, mode), 64, sign, mode), EXP_DENORMAL, sign)
  {
  }

  lemma ShiftZero(n: nat, sign: bool, mode: Mode)
    ensures ShiftRightRound(0, n, sign, mode) == 0
  {
    if 0 < n <= 127 {
      LowFits(0, n - 1);
      LowFits(0, 64);
      LowFits(0, n);
    }
  }

  /** A product below the normal numbers takes the first branch of u128_normalize_round, and a
      shift to the left shifts nothing out. */
  lemma SmallBranch(s: nat, e: int, t: nat)
    requires 0 < s < P128 && t == e + BIAS80 - 3 && s * Pow2(t) < P63 * One()
    ensures e - Clz128(s) < EXP_MIN
    ensures e >= EXP_MIN ==> Shl(s, e - EXP_MIN) < P127
  {
    ClzNormalises(s);
    var c := Clz128(s);
    if e - c >= EXP_MIN {
      NotBelowNormal(s, c, e - c - 1, BIAS80 - 2, t);
    }
    if e >= EXP_MIN {
      RoomLeft(s, c, e - EXP_MIN);
    }
  }

  lemma RoomLeft(s: nat, c: nat, k: nat)
    requires s * Pow2(c) < P128 && k < c
    ensures Shl(s, k) < P127
  {
    ShlIs(s, c);
    ShlAdd(s, k, c - k);
    ShlGrows(Shl(s, k), c - k);
  }

  lemma NotBelowNormal(s: nat, c: nat, d: nat, k: nat, t: nat)
    requires P127 <= s * Pow2(c) && k == BIAS80 - 2 && t == c + d + k
    ensures s * Pow2(t) >= P63 * One()
  {
    SamePower(t, c + d + k);
    Pow2Add(c + d, k);
    Pow2Add(c, d);
    Assoc(s, Pow2(c), Pow2(d));
    Assoc(s, Pow2(c + d), Pow2(k));
    MulLe(s * Pow2(c), 1, Pow2(d));
    MulMono(P127, s * Pow2(c + d), Pow2(k));
    OneIs();
  }

  lemma SmallProductIff(a: F80, b: F80, mode: Mode)
    requires Finite(a) && Finite(b) && a.signif > 0 && b.signif > 0 && a.signif * b.signif > 0
    requires Magnitude(a) * Magnitude(b) < P63 * One()
    ensures CorrectlyRounded(Magnitude(a) * Magnitude(b), One(), a.sign != b.sign, mode,
                             MulFinite(a, b, a.sign != b.sign, mode))
            <==> MultipliesCorrectly(a, b, mode)
  {
    ProductRange(a.signif, b.signif);
    ProductMagnitude(a, b);
    SmallValueIff(a.signif * b.signif, ProductExp(a, b), Scale(a.exp) + Scale(b.exp) - 2,
                  Magnitude(a) * Magnitude(b), a.sign != b.sign, mode);
  }

  lemma SmallValueIff(s: nat, e: int, t: nat, x: nat, sign: bool, mode: Mode)
    requires 0 < s < P128 && t == e + BIAS80 - 3 && x == s * Pow2(t) < P63 * One()
    ensures CorrectlyRounded(x, One(), sign, mode, NormalizeRound(s, e, sign, mode))
            <==> StaysDenormal(x, sign, mode) && FirstHarmless(s, 1 - e, sign, mode)
  {
    SmallBranch(s, e, t);
    NormalizeSmall(s, e, sign, mode);
    OneIs();
    var v := ShiftRightRound(DenormalSignif(s, e, sign, mode), 64, sign, mode);
    var m := RightValue(x, s, e, t, sign, mode, v);
    SmallRange(x, One(), sign, mode, m);
    SmallIff(x, One(), sign, mode, m, v);
  }

  lemma RightValue(x: nat, s: nat, e: int, t: nat, sign: bool, mode: Mode, v: nat) returns (m: nat)
    requires 0 < s < P128 && t == e + BIAS80 - 3 && x == s * Pow2(t)
    requires e >= EXP_MIN ==> Shl(s, e - EXP_MIN) < P127
    requires v == ShiftRightRound(DenormalSignif(s, e, sign, mode), 64, sign, mode)
    ensures RoundsTo(x, One(), sign, mode, m) && v <= P63
    ensures v == m <==> FirstHarmless(s, 1 - e, sign, mode)
  {
    if e >= 1 {
      m := v;
      SamePower(t, e - 1 + (BIAS80 - 2));
      OneRounding(x, s, e - 1, sign, mode, v);
    } else {
      SamePower(t, BIAS80 - 2 - (1 - e));
      m := TwoRoundings(x, s, 1 - e, sign, mode, v);
    }
  }

  /** No rounding comes before the last. */
  lemma OneRounding(x: nat, s: nat, e: nat, sign: bool, mode: Mode, v: nat)
    requires x == s * Pow2(e + (BIAS80 - 2)) && Shl(s, e) < P127
    requires v == ShiftRightRound(DenormalSignif(s, e + 1, sign, mode), 64, sign, mode)
    ensures RoundsTo(x, One(), sign, mode, v) && v <= P63
  {
    var i := Shl(s, e);
    Power64();
    ShiftRoundsCorrectly(i, 64, sign, mode);
    RoundsScale(i, P64, Pow2(BIAS80 - 2), sign, mode, v);
    ShlIs(s, e);
    Pow2Add(e, BIAS80 - 2);
    Assoc(s, Pow2(e), Pow2(BIAS80 - 2));
    OneIs();
  }

  /** A first rounding by n bits and a second by 64. */
  lemma TwoRoundings(x: nat, s: nat, n: nat, sign: bool, mode: Mode, v: nat) returns (m: nat)
    requires 0 < s < P128 && n > 0 && n <= BIAS80 - 2 && x == s * Pow2(BIAS80 - 2 - n)
    requires v == ShiftRightRound(ShiftRightRound(s, n, sign, mode), 64, sign, mode)
    ensures RoundsTo(x, One(), sign, mode, m) && v <= P63
    ensures v == m <==> FirstHarmless(s, n, sign, mode)
  {
    m := RoundedProduct(s, n, sign, mode);
    var t := BIAS80 - 2 - n;
    RoundsScale(s, P64 * Pow2(n), Pow2(t), sign, mode, m);
    Pow2Add(n, t);
    Assoc(P64, Pow2(n), Pow2(t));
    OneIs();
    assert P64 * Pow2(BIAS80 - 2) == One();
    FirstFits(s, n, sign, mode);
    RoundedTwiceIff(s, n, sign, mode, v, m);
  }

  lemma RoundedProduct(s: nat, n: nat, sign: bool, mode: Mode) returns (m: nat)
    ensures RoundsTo(s, P64 * Pow2(n), sign, mode, m)
  {
    var h := P63 * Pow2(n);
    var q, r := Division(s, 2 * h);
    var g := if r >= h then 1 else 0;
    var rest := if r >= h then r - h else r;
    assert g * h + rest == r;
    m := if RoundsUp(q, g, rest, sign, mode) then q + 1 else q;
    RoundParts(s, q, g, h, 2 * h, rest, sign, mode, m);
  }

  /** The first rounding leaves room for the second. */
  lemma FirstFits(s: nat, n: nat, sign: bool, mode: Mode)
    requires s < P128 && n > 0
    ensures ShiftRightRound(s, n, sign, mode) <= P127
    ensures 66 <= n ==> ShiftRightRound(s, n, sign, mode) < P63
  {
    if n <= 127 {
      ShrStep(s, n);
      ShrSmaller(s, n - 1);
      if 66 <= n {
        ShrBound(s, n);
      }
    }
  }

  lemma ShrBound(s: nat, n: nat)
    requires s < P128 && 66 <= n
    ensures Shr(s, n) < P63 / 2 && Pow2(n) >= 4 * P64
  {
    Power64();
    ShrLow(s, n);
    Pow2Mono(66, n);
    assert Pow2(66) == 4 * P64;
    MulLe(Shr(s, n), 4 * P64, Pow2(n));
  }

  lemma RoundedTwiceIff(s: nat, n: nat, sign: bool, mode: Mode, v: nat, m: nat)
    requires 0 < s < P128 && n > 0 && RoundsTo(s, P64 * Pow2(n), sign, mode, m)
    requires v == ShiftRightRound(ShiftRightRound(s, n, sign, mode), 64, sign, mode)
    ensures v <= P63
    ensures v == m <==> FirstHarmless(s, n, sign, mode)
  {
    var t, p := ShiftRightRound(s, n, sign, mode), Pow2(n);
    FirstFits(s, n, sign, mode);
    SecondRounds(t, sign, mode, v);
    if mode == Nearest {
      NearestIff(s, n, sign, t, v, m);
    } else if AwayFromZero(mode, sign) {
      AwayIff(s, n, sign, mode, t, v, m);
    } else {
      ShiftRoundsIff(s, n, sign, mode);
      TowardZeroTwice(s, p, P64, sign, mode, t, v);
      IntegerUnique(s, P64 * p, sign, mode, v, m);
    }
  }

  lemma SecondRounds(t: nat, sign: bool, mode: Mode, v: nat)
    requires t <= P127 && v == ShiftRightRound(t, 64, sign, mode)
    ensures RoundsTo(t, P64, sign, mode, v) && v <= P63
  {
    Power64();
    ShiftRoundsCorrectly(t, 64, sign, mode);
  }

  lemma NearestIff(s: nat, n: nat, sign: bool, t: nat, v: nat, m: nat)
    requires s < P128 && n > 0 && t == ShiftRightRound(s, n, sign, Nearest)
    requires RoundsTo(t, P64, sign, Nearest, v) && RoundsTo(s, P64 * Pow2(n), sign, Nearest, m)
    ensures v == m <==> !FalseTie(s, Pow2(n), P63)
  {
    if n >= 66 {
      FirstFits(s, n, sign, Nearest);
      FarBelow(s, n, sign, t, v, m);
    } else {
      ShiftRoundsCorrectly(s, n, sign, Nearest);
      assert 2 * (P63 * Pow2(n)) == P64 * Pow2(n);
      NearestTwiceIff(s, Pow2(n), P63, sign, t, v, m);
    }
  }

  lemma FarBelow(s: nat, n: nat, sign: bool, t: nat, v: nat, m: nat)
    requires s < P128 && n >= 66 && t < P63 && RoundsTo(t, P64, sign, Nearest, v)
    requires RoundsTo(s, P64 * Pow2(n), sign, Nearest, m)
    ensures v == m == 0 && !FalseTie(s, Pow2(n), P63)
  {
    var p := Pow2(n);
    ShrBound(s, n);
    RoundTiny(s, P64 * p, sign, Nearest);
    IntegerUnique(s, P64 * p, sign, Nearest, m, 0);
    Remainder(s, 2 * (P63 * p), 0, s);
  }

  lemma AwayIff(s: nat, n: nat, sign: bool, mode: Mode, t: nat, v: nat, m: nat)
    requires 0 < s < P128 && n > 0 && mode != Nearest && AwayFromZero(mode, sign)
    requires t == ShiftRightRound(s, n, sign, mode) && RoundsTo(t, P64, sign, mode, v)
    requires RoundsTo(s, P64 * Pow2(n), sign, mode, m)
    ensures v == m <==> !Vanishes(s, n)
  {
    var p := Pow2(n);
    ShiftRoundsIff(s, n, sign, mode);
    VanishIff(s, n, sign, mode);
    if !LosesBits(s, n, sign, mode) {
      AwayTwice(s, p, P64, sign, mode, t, v);
      IntegerUnique(s, P64 * p, sign, mode, v, m);
    } else {
      AllLost(s, n, sign, mode, t, v, m);
    }
  }

  lemma VanishIff(s: nat, n: nat, sign: bool, mode: Mode)
    requires 0 < s < P128 && n > 0 && AwayFromZero(mode, sign)
    ensures Vanishes(s, n) <==> LosesBits(s, n, sign, mode) && Shr(s, n) == 0
  {
    if n <= 65 {
      RestFits(s, n);
    } else if n <= 127 {
      ShrStep(s, n);
      LowBits(s);
      if s < Pow2(n - 1) {
        LowFits(s, n - 1);
      } else {
        NotShiftedOut(s, n - 1);
      }
    }
  }

  lemma LowBits(s: nat)
    ensures Low(s, 64) == s % P64
  {
    Power64();
    ShrLow(s, 64);
    Remainder(s, P64, Shr(s, 64), Low(s, 64));
  }

  lemma NotShiftedOut(s: nat, n: nat)
    requires s >= Pow2(n)
    ensures Shr(s, n) != 0
  {
    ShrLow(s, n);
  }

  lemma AllLost(s: nat, n: nat, sign: bool, mode: Mode, t: nat, v: nat, m: nat)
    requires 0 < s < P128 && n > 0 && mode != Nearest && AwayFromZero(mode, sign) && LosesBits(s, n, sign, mode)
    requires t == ShiftRightRound(s, n, sign, mode) && RoundsTo(t, P64, sign, mode, v)
    requires RoundsTo(s, P64 * Pow2(n), sign, mode, m)
    ensures v == m <==> Shr(s, n) != 0
  {
    if n <= 65 {
      RestFits(s, n);
    }
    FirstFits(s, n, sign, mode);
    ShrStep(s, n);
    LowZero(64);
    assert t == Shr(s, n);
    ShrBound(s, n);
    RoundTiny(s, P64 * Pow2(n), sign, mode);
    IntegerUnique(s, P64 * Pow2(n), sign, mode, m, 1);
  }

  /** Operands that are not finite: a NaN or an unsupported number gives a NaN, infinity times zero
      too, and infinity times anything else is infinity with the sign of the product. */
  lemma MulSpecial(a: F80, b: F80, mode: Mode)
    requires Fits(a) && Fits(b)
    ensures !Supported(a) || !Supported(b) ==> Mul(a, b, mode) == F80_NAN && IsNan(F80_NAN)
    ensures Supported(a) && Supported(b) && (IsNan(a) || IsNan(b)) ==>
              IsNan(Mul(a, b, mode)) && (Mul(a, b, mode) == a || Mul(a, b, mode) == b)
    ensures Supported(a) && Supported(b) && !IsNan(a) && !IsNan(b) && (a.exp == EXP_SPECIAL || b.exp == EXP_SPECIAL) ==>
              if a.signif == 0 || b.signif == 0 then IsNan(Mul(a, b, mode))
              else IsInf(Mul(a, b, mode)) && Supported(Mul(a, b, mode)) && Mul(a, b, mode).sign == (a.sign != b.sign)
  {
  }

  // ------------------------------------------------------------------ products that go wrong

  ghost predicate MultipliedWrongly(a: F80, b: F80, mode: Mode) {
    && Finite(a) && Finite(b)
    && !CorrectlyRounded(Magnitude(a) * Magnitude(b), One(), a.sign != b.sign, mode, Mul(a, b, mode))
  }

  lemma FarBelowNormal(a: F80, b: F80)
    requires Finite(a) && Finite(b) && a.signif > 0 && b.signif > 0 && ProductExp(a, b) <= 0
    ensures Magnitude(a) * Magnitude(b) < P63 * One()
  {
    var s, t := a.signif * b.signif, Scale(a.exp) + Scale(b.exp) - 2;
    ProductRange(a.signif, b.signif);
    ProductMagnitude(a, b);
    assert s * Pow2(0) == s;
    BelowTop(s, 0, t, BIAS80 - 3);
    TopPower(BIAS80 - 1);
  }

  /** 0 * 2^127 is a zero with an exponent, which is an unsupported number. */
  lemma ZeroGetsExponent() returns (a: F80, b: F80)
    ensures MultipliedWrongly(a, b, Nearest) && IsZero(a) && Mul(a, b, Nearest) == F80(0, 1, false)
  {
    a, b := F80(0, EXP_DENORMAL, false), F80(P63, BIAS80 + 127, false);
    MulIs(a, b, Nearest);
    ZeroShifted(ProductExp(a, b), false, Nearest);
    MulCorrectIff(a, b, Nearest);
  }

  /** Halfway between the largest denormal and the smallest normal number, the result is even
      but an unsupported number. */
  lemma RoundsToUnsupported() returns (a: F80, b: F80)
    ensures MultipliedWrongly(a, b, Nearest)
  {
    a, b := F80(P63, BIAS80 - 1, false), F80(P64 - 1, EXP_MIN, false);
    ProductMagnitude(a, b);
    OneIs();
    HalfTop(Pow2(BIAS80 - 2));
    SamePower(Scale(a.exp) + Scale(b.exp) - 2, BIAS80 - 2);
    MulCorrectIff(a, b, Nearest);
  }

  lemma HalfTop(k: nat)
    requires k > 0
    ensures P63 * (P64 - 1) * k < P63 * (P63 * (2 * k))
    ensures 2 * (P63 * (P64 - 1) * k) == (2 * P63 - 1) * (P63 * (2 * k))
  {
  }

  /** A little more than half of the smallest denormal number becomes zero. */
  lemma ProductTie() returns (a: F80, b: F80)
    ensures MultipliedWrongly(a, b, Nearest)
  {
    a, b := F80(3, EXP_DENORMAL, false), F80(0xaaaa_aaaa_aaaa_aaab, BIAS80 - 3, false);
    FarBelowNormal(a, b);
    var s := 2 * P64 + 1;
    assert a.signif * b.signif == s && Pow2(2) == 4;
    Remainder(s, 2 * (P63 * 4), 0, s);
    MulCorrectIff(a, b, Nearest);
  }

  /** Rounding up, a product of nonzero numbers becomes zero. */
  lemma ProductVanishes() returns (a: F80, b: F80)
    ensures MultipliedWrongly(a, b, Up)
  {
    a, b := F80(2, EXP_DENORMAL, false), F80(P63, BIAS80 - 67, false);
    FarBelowNormal(a, b);
    VanishesAt66();
    assert a.signif * b.signif == P64 && 1 - ProductExp(a, b) == 66;
    MulCorrectIff(a, b, Up);
  }

  lemma VanishesAt66()
    ensures Vanishes(P64, 66)
  {
    Power64();
    assert Pow2(65) == 2 * Pow2(64);
  }
}
