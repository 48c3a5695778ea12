/** What f80_to_double makes of an arbitrary operand (emu/float80.c:258-289), measured against
    all doubles there are.

    In the range of normal doubles one rounding to 53 bits does it.  Above that range the source
    answers infinity whatever the mode.  Below it the source drops the lowest bit, rounds to the
    unit of the shifted significand and rounds again to the unit of the result, and there is no
    exponent field for a carry to go to.

    A double is right if it is the best of all (CorrectlyRoundedDouble).  The main result,
    ToDoubleCorrectIff, says for which operands it is, by looking at their exponent, sign and
    significand, and at the mode; the last lemmas are operands for which it is not. */
module Doubles {
  import opened Float80
  import opened Conversions
  import opened RoundTwice

  predicate FiniteDouble(d: Double) {
    FitsDouble(d) && d.exp <= EXP64_MAX
  }

  function InfiniteDouble(sign: bool): Double { Double(0, EXP64_SPECIAL, sign) }

  /** The magnitude of a finite double in units of 2^-1074, the smallest denormal. */
  function DoubleMagnitude(d: Double): nat
    requires d.exp >= 0
  {
    if d.exp == EXP64_DENORMAL then d.signif else (d.signif + P52) * Pow2(d.exp - 1)
  }

  /** That unit in the units of 2^-16445 that Magnitude counts in. */
  function DoubleUnit(): nat { Pow2(BIAS80 - BIAS64 + 11) }

  function MaxDouble(): nat { (P53 - 1) * Pow2(EXP64_MAX - 1) }
  function TwiceDoubleThreshold(): nat { 2 * MaxDouble() + Pow2(EXP64_MAX - 1) }

  /** `r` is the exact magnitude x / u with this sign, rounded by IEEE 754-2008 sections 4.3
      and 7.4: the best of all finite doubles, or infinity. */
  ghost predicate CorrectlyRoundedDouble(x: nat, u: nat, sign: bool, mode: Mode, r: Double) {
    && r.sign == sign
    && if mode == Nearest then
         if r == InfiniteDouble(sign) then 2 * x >= TwiceDoubleThreshold() * u
         else
           && FiniteDouble(r) && 2 * x < TwiceDoubleThreshold() * u
           && forall g {:trigger DoubleNoCloser(x, u, r, g)} :: FiniteDouble(g) ==> DoubleNoCloser(x, u, r, g)
       else if AwayFromZero(mode, sign) then
         if r == InfiniteDouble(sign) then
           forall g {:trigger DoubleBelow(x, u, g)} :: FiniteDouble(g) ==> DoubleBelow(x, u, g)
         else
           && FiniteDouble(r) && x <= DoubleMagnitude(r) * u
           && forall g {:trigger DoubleBelow(x, u, g)} :: FiniteDouble(g) ==>
                DoubleBelow(x, u, g) || DoubleMagnitude(r) <= DoubleMagnitude(g)
       else
         && FiniteDouble(r) && DoubleMagnitude(r) * u <= x
         && forall g {:trigger DoubleAbove(x, u, g)} :: FiniteDouble(g) ==>
              DoubleAbove(x, u, g) || DoubleMagnitude(g) <= DoubleMagnitude(r)
  }

  predicate DoubleBelow(x: nat, u: nat, g: Double)
    requires g.exp >= 0
  {
    DoubleMagnitude(g) * u < x
  }

  predicate DoubleAbove(x: nat, u: nat, g: Double)
    requires g.exp >= 0
  {
    x < DoubleMagnitude(g) * u
  }

  /** `g` is no closer to x / u than `r`, and as close only if `r` is even. */
  predicate DoubleNoCloser(x: nat, u: nat, r: Double, g: Double)
    requires r.exp >= 0 && g.exp >= 0
  {
    var a, b := DoubleMagnitude(r) * u, DoubleMagnitude(g) * u;
    Dist(a, x) <= Dist(b, x) && (Dist(a, x) == Dist(b, x) && a != b ==> r.signif % 2 == 0)
  }

  // ------------------------------------------------------------------ the grid

  /** A finite double is a multiple of Pow2(e) or smaller than the normal doubles with that
      unit in the last place. */
  lemma DoubleGrid(g: Double, e: nat) returns (k: nat)
    requires FiniteDouble(g)
    ensures DoubleMagnitude(g) == k * Pow2(e) || (e > 0 && DoubleMagnitude(g) < P52 * Pow2(e))
  {
    k := g.signif;
    if g.exp == EXP64_DENORMAL {
      if e > 0 {
        MulLe(P52, 1, Pow2(e));
      }
    } else if g.exp - 1 >= e {
      var t := g.exp - 1;
      k := (g.signif + P52) * Pow2(t - e);
      Pow2Add(t - e, e);
      Assoc(g.signif + P52, Pow2(t - e), Pow2(e));
    } else {
      Pow2Mono(g.exp, e);
      HalfGrid(g.signif + P52, Pow2(g.exp - 1), Pow2(e));
    }
  }

  lemma HalfGrid(s: nat, p: nat, q: nat)
    requires s < P53 && 0 < p && 2 * p <= q
    ensures s * p < P52 * q
  {
    MulMonoStrict(s, P53, p);
    MulLe(P52, 2 * p, q);
    MulTwo(P52, p);
  }

  /** The exact value x / u rounds to m units of Pow2(e), the unit that doubles of its size
      have. */
  ghost predicate RoundsInUnit(x: nat, u: nat, e: nat, sign: bool, mode: Mode, m: nat) {
    var w := Pow2(e) * u;
    && u > 0 && w > 0 && RoundsTo(x, w, sign, mode, m)
    && x < P53 * w && (e > 0 ==> P52 * w <= x)
  }

  lemma UnitBelow(x: nat, u: nat, e: nat, sign: bool, mode: Mode, m: nat, g: Double)
    requires RoundsInUnit(x, u, e, sign, mode, m) && mode != Nearest && !AwayFromZero(mode, sign)
    requires FiniteDouble(g) && DoubleMagnitude(g) * u <= x
    ensures DoubleMagnitude(g) <= m * Pow2(e)
  {
    var l := Pow2(e);
    var k := DoubleGrid(g, e);
    NextMultiple(m, l * u);
    if DoubleMagnitude(g) == k * l {
      Assoc(k, l, u);
      NotPast(k, m, l * u);
      MulMono(k, m, l);
    } else {
      NotPast(P52, m, l * u);
      MulMono(P52, m, l);
    }
  }

  lemma UnitAbove(x: nat, u: nat, e: nat, sign: bool, mode: Mode, m: nat, g: Double)
    requires RoundsInUnit(x, u, e, sign, mode, m) && mode != Nearest && AwayFromZero(mode, sign)
    requires FiniteDouble(g) && x <= DoubleMagnitude(g) * u
    ensures m * Pow2(e) <= DoubleMagnitude(g)
  {
    var l := Pow2(e);
    var k := DoubleGrid(g, e);
    if DoubleMagnitude(g) == k * l {
      Assoc(k, l, u);
      NotPast(m, k, l * u);
      MulMono(m, k, l);
    } else {
      BelowUnit(DoubleMagnitude(g), l, u);
    }
  }

  lemma BelowUnit(mag: nat, l: nat, u: nat)
    requires mag < P52 * l && u > 0
    ensures mag * u < P52 * (l * u)
  {
    MulMonoStrict(mag, P52 * l, u);
    Assoc(P52, l, u);
  }

  lemma UnitNearest(x: nat, u: nat, e: nat, sign: bool, m: nat, r: Double, g: Double)
    requires RoundsInUnit(x, u, e, sign, Nearest, m) && FiniteDouble(g)
    requires FiniteDouble(r) && DoubleMagnitude(r) == m * Pow2(e) && (m % 2 == 0 ==> r.signif % 2 == 0)
    ensures DoubleNoCloser(x, u, r, g)
  {
    var l := Pow2(e);
    var k := DoubleGrid(g, e);
    Assoc(m, l, u);
    if DoubleMagnitude(g) == k * l {
      Assoc(k, l, u);
      NearestMultiple(x, l * u, sign, m, k);
    } else {
      BelowUnit(DoubleMagnitude(g), l, u);
      NearestMultiple(x, l * u, sign, m, P52);
    }
  }

  lemma DoubleMax(g: Double)
    requires FiniteDouble(g)
    ensures DoubleMagnitude(g) <= MaxDouble()
  {
    var top := Pow2(EXP64_MAX - 1);
    if g.exp == EXP64_DENORMAL {
      MulLe(P53 - 1, 1, top);
    } else {
      Pow2Mono(g.exp - 1, EXP64_MAX - 1);
      MulMono(g.signif + P52, P53 - 1, Pow2(g.exp - 1));
      MulLe(P53 - 1, Pow2(g.exp - 1), top);
    }
  }

  /** Where rounding to nearest overflows. */
  lemma DoubleThreshold(x: nat, u: nat, e: nat, sign: bool, m: nat)
    requires RoundsInUnit(x, u, e, sign, Nearest, m) && e < EXP64_MAX && m <= P53
    ensures 2 * x >= TwiceDoubleThreshold() * u <==> m == P53 && e == EXP64_MAX - 1
  {
    var l := Pow2(e);
    var w := l * u;
    if e == EXP64_MAX - 1 {
      assert TwiceDoubleThreshold() == (2 * P53 - 1) * l;
      Assoc(2 * P53 - 1, l, u);
      TopTie(x, w, sign, m);
    } else {
      Pow2Mono(e + 1, EXP64_MAX - 1);
      assert Pow2(e + 1) == 2 * l;
      MulLe(P53, 2 * l, Pow2(EXP64_MAX - 1));
      MulTwo(P53, l);
      assert 2 * (P53 * l) <= TwiceDoubleThreshold();
      MulMono(2 * (P53 * l), TwiceDoubleThreshold(), u);
      Assoc(2, P53 * l, u);
      Assoc(P53, l, u);
    }
  }

  lemma TopTie(x: nat, w: nat, sign: bool, m: nat)
    requires w > 0 && RoundsTo(x, w, sign, Nearest, m) && m <= P53
    ensures 2 * x >= (2 * P53 - 1) * w <==> m == P53
  {
    if m < P53 - 1 {
      MulMono(m + 1, P53 - 1, w);
      NextMultiple(m, w);
    }
  }

  /** The double m * Pow2(e). */
  predicate IsDouble(d: Double, m: nat, e: nat) {
    FiniteDouble(d) && DoubleMagnitude(d) == m * Pow2(e) && (m % 2 == 0 ==> d.signif % 2 == 0)
  }

  lemma DoubleCorrect(x: nat, u: nat, e: nat, sign: bool, mode: Mode, m: nat, d: Double)
    requires RoundsInUnit(x, u, e, sign, mode, m) && e < EXP64_MAX && m <= P53 && d.sign == sign
    requires if m == P53 && e == EXP64_MAX - 1 then d == InfiniteDouble(sign) else IsDouble(d, m, e)
    ensures CorrectlyRoundedDouble(x, u, sign, mode, d)
  {
    Assoc(m, Pow2(e), u);
    if mode == Nearest {
      DoubleThreshold(x, u, e, sign, m);
      if d != InfiniteDouble(sign) {
        forall g | FiniteDouble(g) ensures DoubleNoCloser(x, u, d, g) {
          UnitNearest(x, u, e, sign, m, d, g);
        }
      }
    } else if AwayFromZero(mode, sign) {
      DoubleAway(x, u, e, sign, mode, m, d);
    } else {
      assert m < P53;
      forall g | FiniteDouble(g) ensures DoubleAbove(x, u, g) || DoubleMagnitude(g) <= m * Pow2(e) {
        if !DoubleAbove(x, u, g) {
          UnitBelow(x, u, e, sign, mode, m, g);
        }
      }
    }
  }

  lemma DoubleAway(x: nat, u: nat, e: nat, sign: bool, mode: Mode, m: nat, d: Double)
    requires RoundsInUnit(x, u, e, sign, mode, m) && e < EXP64_MAX && m <= P53 && d.sign == sign
    requires mode != Nearest && AwayFromZero(mode, sign)
    requires if m == P53 && e == EXP64_MAX - 1 then d == InfiniteDouble(sign) else IsDouble(d, m, e)
    ensures CorrectlyRoundedDouble(x, u, sign, mode, d)
  {
    Assoc(m, Pow2(e), u);
    forall g | FiniteDouble(g) ensures DoubleBelow(x, u, g) || m * Pow2(e) <= DoubleMagnitude(g) {
      if !DoubleBelow(x, u, g) {
        UnitAbove(x, u, e, sign, mode, m, g);
      }
    }
    if d == InfiniteDouble(sign) {
      forall g | FiniteDouble(g) ensures DoubleBelow(x, u, g) {
        DoubleMax(g);
        MulMonoStrict(P53 - 1, P53, Pow2(e));
      }
    }
  }

  // ------------------------------------------------------------------ f80_to_double

  /** Just below the smallest normal double, where the rounded significand carries into an
      exponent field that is not there. */
  predicate LosesCarry(f: F80, mode: Mode) {
    f.exp == BIAS80 - BIAS64
    && if mode == Nearest then f.signif >= P64 - 2048 else AwayFromZero(mode, f.sign) && f.signif >= P64 - 4094
  }

  /** The low bit is dropped before the first rounding, and it is the only one that is set
      below the unit of the result. */
  predicate LosesLowBit(f: F80)
    requires f.exp <= BIAS80 - BIAS64
  {
    f.signif % (4096 * Pow2(BIAS80 - BIAS64 - f.exp)) == 1
  }

  /** Rounding first to the significand's own unit makes a tie that rounding to the unit of
      the result, 4096 units further up, breaks the wrong way. */
  predicate MakesFalseTie(f: F80)
    requires f.exp <= BIAS80 - BIAS64
  {
    var p := Pow2(BIAS80 - BIAS64 - f.exp);
    var q, r := f.signif / (4096 * p), f.signif % (4096 * p);
    NearTie(r / 2, p, 1024) && if q % 2 == 0 then r > 2048 * p else r < 2048 * p
  }

  /** What a caller can look at to know whether the conversion is right. */
  predicate ConvertsCorrectly(f: F80, mode: Mode) {
    var exp := f.exp - BIAS80 + BIAS64;
    if exp > EXP64_MAX then mode == Nearest || AwayFromZero(mode, f.sign)
    else if exp > 0 then true
    else if mode == Nearest then !LosesCarry(f, mode) && !MakesFalseTie(f)
    else if AwayFromZero(mode, f.sign) then !LosesCarry(f, mode) && !LosesLowBit(f)
    else true
  }

  /** f80_to_double is correctly rounded exactly there. */
  lemma ToDoubleCorrectIff(f: F80, mode: Mode)
    requires Finite(f)
    ensures CorrectlyRoundedDouble(Magnitude(f), DoubleUnit(), f.sign, mode, ToDouble(f, mode))
            <==> ConvertsCorrectly(f, mode)
  {
    var exp := f.exp - BIAS80 + BIAS64;
    if exp > EXP64_MAX {
      TooBigForDouble(f, mode);
    } else if exp > 0 {
      NormalDoubleCorrect(f, mode);
    } else {
      SmallDoubleIff(f, mode);
    }
  }

  lemma TooBigForDouble(f: F80, mode: Mode)
    requires Finite(f) && f.exp - BIAS80 + BIAS64 > EXP64_MAX
    ensures CorrectlyRoundedDouble(Magnitude(f), DoubleUnit(), f.sign, mode, ToDouble(f, mode))
            <==> mode == Nearest || AwayFromZero(mode, f.sign)
  {
    var x, u, top := Magnitude(f), DoubleUnit(), Pow2(EXP64_MAX - 1);
    BeyondDoubles(f);
    forall g | FiniteDouble(g) ensures DoubleBelow(x, u, g) {
      DoubleMax(g);
      MulMonoStrict(P53 - 1, P53, top);
      MulMonoStrict(DoubleMagnitude(g), P53 * top, u);
    }
    assert TwiceDoubleThreshold() <= 2 * (P53 * top);
    MulMono(TwiceDoubleThreshold(), 2 * (P53 * top), u);
    Assoc(2, P53 * top, u);
  }

  lemma BeyondDoubles(f: F80)
    requires Finite(f) && f.exp - BIAS80 + BIAS64 > EXP64_MAX
    ensures P53 * Pow2(EXP64_MAX - 1) * DoubleUnit() <= Magnitude(f)
  {
    var e, t := EXP64_MAX - 1, f.exp - 1;
    Assoc(P53, Pow2(e), DoubleUnit());
    Pow2Add(e, BIAS80 - BIAS64 + 11);
    Pow2Mono(e + (BIAS80 - BIAS64 + 11), t + 10);
    PowTen(t);
    MulLe(P53, Pow2(e + (BIAS80 - BIAS64 + 11)), Pow2(t + 10));
    MulMono(P63, f.signif, Pow2(t));
    assert P53 * (1024 * Pow2(t)) == P63 * Pow2(t);
  }

  lemma PowTen(t: nat)
    ensures Pow2(t + 10) == 1024 * Pow2(t)
  {
    Pow2Add(t, 10);
    assert Pow2(10) == 1024;
  }

  /** The value of f in the unit of doubles of its size: its significand over d. */
  lemma InUnit(f: F80, d: nat, n: nat, e: nat, mode: Mode, m: nat)
    requires Finite(f) && d == Pow2(n) && n >= 11 && RoundsTo(f.signif, d, f.sign, mode, m)
    requires Scale(f.exp) - 1 + n == BIAS80 - BIAS64 + 11 + e
    requires e > 0 ==> n == 11 && f.exp > 0
    ensures RoundsInUnit(Magnitude(f), DoubleUnit(), e, f.sign, mode, m)
  {
    var t := Scale(f.exp) - 1;
    var k, w := Pow2(t), Pow2(e) * DoubleUnit();
    RoundsScale(f.signif, d, k, f.sign, mode, m);
    Pow2Add(n, t);
    Pow2Add(e, BIAS80 - BIAS64 + 11);
    SamePower(n + t, e + (BIAS80 - BIAS64 + 11));
    assert w == d * k;
    Pow2Mono(11, n);
    assert Pow2(11) == 2048;
    MulLe(P53, 2048, d);
    MulMonoStrict(f.signif, P53 * d, k);
    Assoc(P53, d, k);
    if e > 0 {
      MulMono(P52 * d, f.signif, k);
      Assoc(P52, d, k);
    }
  }

  lemma NormalDoubleCorrect(f: F80, mode: Mode)
    requires Finite(f) && 1 <= f.exp - BIAS80 + BIAS64 <= EXP64_MAX
    ensures CorrectlyRoundedDouble(Magnitude(f), DoubleUnit(), f.sign, mode, ToDouble(f, mode))
  {
    var exp, d := f.exp - BIAS80 + BIAS64, ToDouble(f, mode);
    var m := Significand53(f.signif, f.sign, mode);
    assert Pow2(11) == 2048;
    InUnit(f, 2048, 11, exp - 1, mode, m);
    ToDoubleDirect(f, mode);
    PackFieldsIs(m, exp, f.sign);
    PackedMagnitude(m, exp, d);
    DoubleCorrect(Magnitude(f), DoubleUnit(), exp - 1, f.sign, mode, m, d);
  }

  lemma PackedMagnitude(m: nat, exp: int, d: Double)
    requires P52 <= m <= P53 && 1 <= exp <= EXP64_MAX
    requires d.signif == (if m < P53 then m - P52 else 0) && d.exp == if m == P53 then exp + 1 else exp
    ensures FitsDouble(d) && (d.exp == EXP64_SPECIAL <==> exp == EXP64_MAX && m == P53)
    ensures d.exp < EXP64_SPECIAL ==> IsDouble(d, m, exp - 1)
  {
    assert Pow2(exp) == 2 * Pow2(exp - 1);
    MulTwo(P52, Pow2(exp - 1));
  }

  lemma Significand53(s: nat, sign: bool, mode: Mode) returns (m: nat)
    requires s < P64
    ensures m == ShiftRightRound(s, 11, sign, mode) && RoundsTo(s, 2048, sign, mode, m) && m <= P53
    ensures P63 <= s ==> P52 <= m
  {
    m := ShiftRightRound(s, 11, sign, mode);
    ShiftRoundsCorrectly(s, 11, sign, mode);
    assert Pow2(11) == 2048;
  }

  // ------------------------------------------------------------------ the range of denormal doubles

  /** Any other denormal double than the right one is wrong: `g` is better. */
  lemma WrongDouble(x: nat, u: nat, sign: bool, mode: Mode, m: nat, v: nat)
    requires u > 0 && RoundsTo(x, u, sign, mode, m) && m <= P52 && v < P52 && v != m
    ensures !CorrectlyRoundedDouble(x, u, sign, mode, Double(v, 0, sign))
  {
    var d, g := Double(v, 0, sign), if m < P52 then Double(m, 0, sign) else Double(0, 1, sign);
    assert FiniteDouble(g) && DoubleMagnitude(g) == m by { assert Pow2(0) == 1; }
    if mode == Nearest {
      assert !DoubleNoCloser(x, u, d, g) by { WrongNearest(x, u, sign, m, v); }
    } else {
      WrongDirected(x, u, sign, mode, m, v);
      assert DoubleBelow(x, u, g) <==> m * u < x;
      assert DoubleAbove(x, u, g) <==> x < m * u;
    }
  }

  /** Halving, rounding to the unit p and rounding again, against rounding once. */
  ghost predicate Halved(i: nat, h: nat, p: nat, sign: bool, mode: Mode, s: nat, m: nat, once: nat) {
    && p > 0 && h == i / 2
    && RoundsTo(h, p, sign, mode, s) && RoundsTo(s, 2048, sign, mode, m)
    && RoundsTo(i, 4096 * p, sign, mode, once)
  }

  lemma HalvedTowardZero(i: nat, h: nat, p: nat, sign: bool, mode: Mode, s: nat, m: nat, once: nat)
    requires Halved(i, h, p, sign, mode, s, m, once) && mode != Nearest && !AwayFromZero(mode, sign)
    ensures m == once
  {
    TowardZeroTwice(h, p, 2048, sign, mode, s, m);
    MulTwo(m, 2048 * p);
    assert RoundsTo(i, 4096 * p, sign, mode, m);
    IntegerUnique(i, 4096 * p, sign, mode, m, once);
  }

  lemma HalvedAway(i: nat, h: nat, p: nat, sign: bool, mode: Mode, s: nat, m: nat, once: nat)
    requires Halved(i, h, p, sign, mode, s, m, once) && mode != Nearest && AwayFromZero(mode, sign)
    ensures m == once <==> i % (4096 * p) != 1
  {
    var d := 2048 * p;
    AwayTwice(h, p, 2048, sign, mode, s, m);
    MulTwo(m, d);
    var q, r := Division(i, 2 * d);
    MulTwo(q, d);
    if r == 1 {
      NotPast(m, q, d);
      NotPast(q, m, d);
    } else {
      if i > m * (2 * d) {
        Remainder(i, 2 * d, m, 1);
      }
      IntegerUnique(i, 2 * d, sign, mode, m, once);
    }
  }

  lemma HalvedNearest(f: F80, h: nat, p: nat, s: nat, m: nat, once: nat)
    requires f.exp <= BIAS80 - BIAS64 && p == Pow2(BIAS80 - BIAS64 - f.exp)
    requires Halved(f.signif, h, p, f.sign, Nearest, s, m, once)
    ensures m == once <==> !MakesFalseTie(f)
  {
    var i := f.signif;
    var q, r := Division(h, 2 * (1024 * p));
    NearestTwice(h, p, 1024, f.sign, s, m, q, r);
    var t := 2 * r + i % 2;
    MulTwo(q, 2048 * p);
    Remainder(i, 4096 * p, q, t);
    NearestOnce(i, 2048 * p, f.sign, once, q, t);
  }

  /** The carry out of the significand is the only way to leave the denormal range. */
  lemma CarryIff(f: F80, h: nat, p: nat, mode: Mode, s: nat, m: nat, once: nat)
    requires f.signif < P64 && f.exp <= BIAS80 - BIAS64 && p == Pow2(BIAS80 - BIAS64 - f.exp)
    requires Halved(f.signif, h, p, f.sign, mode, s, m, once)
    ensures m <= P52 && (m == P52 <==> LosesCarry(f, mode)) && once <= P52
  {
    if f.exp == BIAS80 - BIAS64 {
      assert p == 1;
      assert s * 1 == s && s == h;
    } else {
      assert p == 2 * Pow2(BIAS80 - BIAS64 - f.exp - 1);
      MulLe(s, 2, p);
      HalfRange(h, p, f.sign, mode, s);
    }
    MulLe(P52, 4096, 4096 * p);
    NotPast(once, P52, 4096 * p);
  }

  lemma HalfRange(h: nat, p: nat, sign: bool, mode: Mode, s: nat)
    requires p >= 2 && h < P63 && RoundsTo(h, p, sign, mode, s)
    ensures s <= P63 / 2
  {
    NextMultiple(P63 / 2, p);
    MulLe(P63 / 2, 2, p);
    if s > P63 / 2 {
      MulMono(P63 / 2 + 1, s, p);
    }
  }

  /** Both roundings of f80_to_double and the one they should be. */
  lemma SmallRoundings(f: F80, h: nat, n: nat, mode: Mode) returns (s: nat, m: nat, once: nat)
    requires Finite(f) && n == BIAS80 - BIAS64 - f.exp && h == f.signif / 2
    ensures s == ShiftRightRound(h, n, f.sign, mode) && s < P64 && m == ShiftRightRound(s, 11, f.sign, mode)
    ensures Halved(f.signif, h, Pow2(n), f.sign, mode, s, m, once)
    ensures RoundsInUnit(Magnitude(f), DoubleUnit(), 0, f.sign, mode, once)
  {
    s := ShiftRightRound(h, n, f.sign, mode);
    ShiftRoundsCorrectly(h, n, f.sign, mode);
    ShiftRightFits(h, n, f.sign, mode);
    m := Significand53(s, f.sign, mode);
    once := RoundedOnce(f, n, mode);
  }

  lemma RoundedOnce(f: F80, n: nat, mode: Mode) returns (once: nat)
    requires Finite(f) && n == BIAS80 - BIAS64 - f.exp
    ensures RoundsTo(f.signif, 4096 * Pow2(n), f.sign, mode, once)
    ensures RoundsInUnit(Magnitude(f), DoubleUnit(), 0, f.sign, mode, once)
  {
    var d := BIAS80 - BIAS64 + 12 - Scale(f.exp);
    once := ShiftRightRound(f.signif, d, f.sign, mode);
    ShiftRoundsCorrectly(f.signif, d, f.sign, mode);
    InUnit(f, Pow2(d), d, 0, mode, once);
    PowTwelve(n);
    if f.exp > 0 {
      SamePower(d, n + 12);
    } else {
      Power64();
      Pow2Mono(64, d);
      Pow2Mono(64, n + 12);
      RoundTiny(f.signif, Pow2(n + 12), f.sign, mode);
    }
  }

  lemma PowTwelve(n: nat)
    ensures Pow2(n + 12) == 4096 * Pow2(n)
  {
    Pow2Add(n, 12);
    assert Pow2(12) == 4096;
  }

  lemma SmallDoubleIff(f: F80, mode: Mode)
    requires Finite(f) && f.exp <= BIAS80 - BIAS64
    ensures CorrectlyRoundedDouble(Magnitude(f), DoubleUnit(), f.sign, mode, ToDouble(f, mode))
            <==> ConvertsCorrectly(f, mode)
  {
    var n, h := BIAS80 - BIAS64 - f.exp, f.signif / 2;
    var s, m, once := SmallRoundings(f, h, n, mode);
    ToDoubleSmall(f, n, mode, s);
    PackFieldsIs(m, 0, f.sign);
    CarryIff(f, h, Pow2(n), mode, s, m, once);
    SmallDoubleIs(f, mode, if m == P52 then 0 else m, once);
    if mode == Nearest {
      HalvedNearest(f, h, Pow2(n), s, m, once);
      CarryRight(f, Pow2(n), mode, once);
    } else if AwayFromZero(mode, f.sign) {
      HalvedAway(f.signif, h, Pow2(n), f.sign, mode, s, m, once);
      CarryRight(f, Pow2(n), mode, once);
    } else {
      HalvedTowardZero(f.signif, h, Pow2(n), f.sign, mode, s, m, once);
    }
  }

  /** The lost carry would have made the smallest normal double, or its neighbour. */
  lemma CarryRight(f: F80, p: nat, mode: Mode, once: nat)
    requires f.exp == BIAS80 - BIAS64 ==> p == 1
    requires RoundsTo(f.signif, 4096 * p, f.sign, mode, once)
    ensures LosesCarry(f, mode) ==> once > 0
  {
  }

  lemma SmallDoubleIs(f: F80, mode: Mode, v: nat, once: nat)
    requires f.exp >= 0 && v < P52 && once <= P52
    requires RoundsInUnit(Magnitude(f), DoubleUnit(), 0, f.sign, mode, once)
    ensures CorrectlyRoundedDouble(Magnitude(f), DoubleUnit(), f.sign, mode, Double(v, 0, f.sign)) <==> v == once
  {
    var x, u, d := Magnitude(f), DoubleUnit(), Double(v, 0, f.sign);
    assert Pow2(0) * u == u;
    if v == once {
      assert v * Pow2(0) == v;
      DoubleCorrect(x, u, 0, f.sign, mode, once, d);
    } else {
      WrongDouble(x, u, f.sign, mode, once, v);
    }
  }

  // ------------------------------------------------------------------ infinities and NaNs

  predicate IsNanDouble(d: Double) {
    d.exp == EXP64_SPECIAL && d.signif != 0
  }

  /** The payload of a NaN survives rounding to 53 bits: it neither vanishes nor carries. */
  predicate KeepsNan(f: F80, mode: Mode) {
    if mode == Nearest then P63 + 1024 < f.signif < P64 - 1024
    else if AwayFromZero(mode, f.sign) then f.signif <= P64 - 2048
    else P63 + 2048 <= f.signif
  }

  /** An unsupported number becomes a NaN, infinity stays infinity, and a NaN stays a NaN exactly if
      KeepsNan says so; otherwise it becomes infinity or zero. */
  lemma SpecialToDouble(f: F80, mode: Mode)
    requires Fits(f) && (!Supported(f) || f.exp == EXP_SPECIAL)
    ensures var d := ToDouble(f, mode);
            if !Supported(f) then IsNanDouble(d)
            else if IsInf(f) then d == InfiniteDouble(f.sign)
            else
              && d.sign == f.sign && (IsNanDouble(d) <==> KeepsNan(f, mode))
              && (IsNanDouble(d) || d == InfiniteDouble(f.sign) || d == Double(0, 0, f.sign))
  {
    if Supported(f) {
      var m := SpecialIs(f, mode);
      InfIff(f);
      PayloadIff(f, mode, m);
    }
  }

  lemma SpecialIs(f: F80, mode: Mode) returns (m: nat)
    requires Fits(f) && Supported(f) && f.exp == EXP_SPECIAL
    ensures P52 <= m <= P53 && RoundsTo(f.signif, 2048, f.sign, mode, m)
    ensures ToDouble(f, mode) == if m == P53 then Double(0, 0, f.sign) else Double(m - P52, EXP64_SPECIAL, f.sign)
  {
    m := Significand53(f.signif, f.sign, mode);
    ToDoubleDirect(f, mode);
    PackSpecial(m, f.sign);
  }

  lemma InfIff(f: F80)
    requires Fits(f) && Supported(f) && f.exp == EXP_SPECIAL
    ensures IsInf(f) <==> f.signif == P63
  {
  }

  lemma PackSpecial(m: nat, sign: bool)
    requires P52 <= m <= P53
    ensures PackFields(m, EXP64_SPECIAL, sign)
            == if m == P53 then Double(0, 0, sign) else Double(m - P52, EXP64_SPECIAL, sign)
  {
  }

  lemma PayloadIff(f: F80, mode: Mode, m: nat)
    requires P63 <= f.signif < P64 && RoundsTo(f.signif, 2048, f.sign, mode, m)
    ensures f.signif == P63 ==> m == P52
    ensures f.signif > P63 ==> (P52 < m < P53 <==> KeepsNan(f, mode))
  {
  }

  // ------------------------------------------------------------------ inputs that go wrong

  ghost predicate ConvertedWrongly(f: F80, mode: Mode, d: Double) {
    && Finite(f) && ToDouble(f, mode) == d
    && !CorrectlyRoundedDouble(Magnitude(f), DoubleUnit(), f.sign, mode, d)
  }

  lemma WithoutShift(f: F80)
    requires f.exp == BIAS80 - BIAS64 && f.signif >= P63
    ensures LosesLowBit(f) <==> f.signif % 4096 == 1
    ensures MakesFalseTie(f) <==> f.signif % 4096 == 2049 && f.signif / 4096 % 2 == 0
  {
    assert Pow2(BIAS80 - BIAS64 - f.exp) == 1;
  }

  lemma WrongSmall(i: nat, mode: Mode, s: nat, m: nat) returns (f: F80)
    requires P63 <= i < P64 && s == i / 2 && m == ShiftRightRound(s, 11, false, mode) && m <= P52
    ensures f == F80(i, BIAS80 - BIAS64, false) && Finite(f) && ToDouble(f, mode) == Double(m % P52, 0, false)
  {
    f := F80(i, BIAS80 - BIAS64, false);
    ToDoubleSmall(f, 0, mode, s);
    PackFieldsIs(m, 0, false);
  }

  /** A number that rounds up to the smallest normal double becomes zero. */
  lemma CarryLost() returns (f: F80)
    ensures ConvertedWrongly(f, Nearest, Double(0, 0, false))
  {
    var m := Significand53(P63 - 1, false, Nearest);
    f := WrongSmall(P64 - 1, Nearest, P63 - 1, m);
    ToDoubleCorrectIff(f, Nearest);
  }

  /** A number above the middle between two denormal doubles is taken for a tie. */
  lemma TieMade() returns (f: F80)
    ensures ConvertedWrongly(f, Nearest, Double(P52 / 2, 0, false))
  {
    var h := P63 / 2 + 0x400;
    var m := Significand53(h, false, Nearest);
    NearestOnce(h, 1024, false, m, P52 / 2, 1024);
    f := WrongSmall(P63 + 0x801, Nearest, h, m);
    WithoutShift(f);
    ToDoubleCorrectIff(f, Nearest);
  }

  /** Rounding up forgets the lowest bit. */
  lemma LowBitLost() returns (f: F80)
    ensures ConvertedWrongly(f, Up, Double(P52 / 2, 0, false))
  {
    var m := Significand53(P63 / 2, false, Up);
    f := WrongSmall(P63 + 1, Up, P63 / 2, m);
    WithoutShift(f);
    ToDoubleCorrectIff(f, Up);
  }

  /** Whatever is too big becomes infinity, also when rounding toward zero. */
  lemma ChoppedToInfinity() returns (f: F80)
    ensures ConvertedWrongly(f, Chop, InfiniteDouble(false))
  {
    f := F80(P63, BIAS80 + BIAS64 + 1, false);
    ToDoubleCorrectIff(f, Chop);
  }

  /** A NaN with all its bits set becomes zero. */
  lemma NanBecomesZero() returns (f: F80)
    ensures Fits(f) && IsNan(f) && ToDouble(f, Nearest) == Double(0, 0, false)
  {
    f := F80(P64 - 1, EXP_SPECIAL, false);
    var m := Significand53(f.signif, f.sign, Nearest);
    ToDoubleDirect(f, Nearest);
    PackSpecial(m, f.sign);
  }
}
