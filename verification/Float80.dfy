/** 80-bit software floating point (emu/float80.c:1-192, 420-442): rounding, normalisation and
    multiplication.

    Machine integers are naturals here, with shifts as multiplication and division by
    powers of two, and the truncation to 64 or 128 bits written out where the source relies
    on it.  The value of a finite number is an exact natural multiple of 2^-16445, the
    smallest denormal, so that correct rounding (IEEE 754-2008 section 4.3) can be stated
    against all representable numbers.

    The proof has three layers: a shift rounds an integer quotient (ShiftRoundsCorrectly), a
    rounded quotient is the best number of the format (NormalizeRoundCorrect), and the
    128-bit product is such a quotient (MulCorrect). */
module Float80 {

  function Pow2(n: nat): (p: nat)
    ensures p > 0
  {
    if n == 0 then 1 else 2 * Pow2(n - 1)
  }

  lemma {:induction false} Pow2Add(a: nat, b: nat)
    ensures Pow2(a + b) == Pow2(a) * Pow2(b)
  {
    if a > 0 {
      Pow2Add(a - 1, b);
    }
  }

  lemma {:induction false} Pow2Mono(a: nat, b: nat)
    requires a <= b
    ensures Pow2(a) <= Pow2(b)
  {
    if a < b {
      Pow2Mono(a, b - 1);
    }
  }

  /** i >> n. */
  function Shr(i: nat, n: nat): nat
    decreases n, i
  {
    if n == 0 then i else Shr(i / 2, n - 1)
  }

  /** i << n. */
  function Shl(i: nat, n: nat): nat {
    if n == 0 then i else 2 * Shl(i, n - 1)
  }

  lemma {:induction false} ShlIs(i: nat, n: nat)
    ensures Shl(i, n) == i * Pow2(n)
  {
    if n > 0 {
      ShlIs(i, n - 1);
      MulTwo(i, Pow2(n - 1));
    }
  }

  /** The low n bits of i. */
  function Low(i: nat, n: nat): nat
    decreases n, i
  {
    if n == 0 then 0 else i % 2 + 2 * Low(i / 2, n - 1)
  }

  lemma {:induction false} ShrLow(i: nat, n: nat)
    ensures i == Shr(i, n) * Pow2(n) + Low(i, n)
    ensures Low(i, n) < Pow2(n)
    decreases n
  {
    if n > 0 {
      ShrLow(i / 2, n - 1);
      var q := Shr(i, n);
      assert i == 2 * (q * Pow2(n - 1) + Low(i / 2, n - 1)) + i % 2;
      assert q * Pow2(n) == 2 * (q * Pow2(n - 1)) by { MulTwo(q, Pow2(n - 1)); }
    }
  }

  lemma MulTwo(q: nat, p: nat)
    ensures q * (2 * p) == 2 * (q * p)
  {
  }

  lemma {:induction false} ShrStep(i: nat, n: nat)
    requires n > 0
    ensures Shr(i, n) == Shr(i, n - 1) / 2
    decreases n
  {
    if n > 1 {
      ShrStep(i / 2, n - 1);
    }
  }

  /** Taking low bits of what already fits changes nothing. */
  lemma {:induction false} LowFits(i: nat, n: nat)
    requires i < Pow2(n)
    ensures Low(i, n) == i && Shr(i, n) == 0
    decreases n
  {
    if n > 0 {
      LowFits(i / 2, n - 1);
    }
  }

  const P63: nat := 0x8000_0000_0000_0000
  const P64: nat := 0x1_0000_0000_0000_0000
  const P127: nat := 0x8000_0000_0000_0000_0000_0000_0000_0000
  const P128: nat := 0x1_0000_0000_0000_0000_0000_0000_0000_0000

  lemma Power64()
    ensures Pow2(63) == P63 && Pow2(64) == P64
  {
    assert Pow2(4) == 16;
    Pow2Add(4, 4);
    Pow2Add(8, 8);
    assert Pow2(16) == 0x1_0000;
    Pow2Add(16, 16);
    assert Pow2(32) == 0x1_0000_0000;
    Pow2Add(32, 32);
  }

  lemma Power128()
    ensures Pow2(127) == P127 && Pow2(128) == P128
  {
    Power64();
    Pow2Add(64, 63);
    Pow2Add(64, 64);
  }

  // ------------------------------------------------------------------ the format

  const BIAS80: int := 0x3fff
  const EXP_MAX: int := 0x7ffe
  const EXP_MIN: int := 0x0001
  const EXP_SPECIAL: int := 0x7fff
  const EXP_DENORMAL: int := 0

  datatype Mode = Nearest | Down | Up | Chop

  datatype F80 = F80(signif: nat, exp: int, sign: bool)

  predicate Fits(f: F80) {
    f.signif < P64 && 0 <= f.exp <= EXP_SPECIAL
  }

  /** f80_is_supported: the integer bit is 0 exactly for denormals. */
  predicate Supported(f: F80) {
    if f.exp == EXP_DENORMAL then f.signif < P63 else P63 <= f.signif
  }

  predicate Finite(f: F80) {
    Fits(f) && Supported(f) && f.exp <= EXP_MAX
  }

  function Infinity(sign: bool): (r: F80)
    ensures r.sign == sign
  {
    F80(P63, EXP_SPECIAL, sign)
  }

  /** unbias_denormal, before the bias is taken off. */
  function Scale(exp: int): nat
    requires exp >= 0
  {
    if exp == EXP_DENORMAL then EXP_MIN else exp
  }

  /** The magnitude in units of 2^-16445. */
  function Magnitude(f: F80): nat
    requires f.exp >= 0
  {
    f.signif * Pow2(Scale(f.exp) - 1)
  }

  /** The magnitude of 1.0: the exact product of a and b is Magnitude(a) * Magnitude(b) / One(). */
  function One(): nat { P63 * Pow2(BIAS80 - 1) }

  // ------------------------------------------------------------------ rounding to an integer

  predicate AwayFromZero(mode: Mode, sign: bool) {
    (mode == Up && !sign) || (mode == Down && sign)
  }

  /** Whether a quotient is rounded up, given the guard bit and the bits below it. */
  predicate RoundsUp(q: nat, guard: nat, rest: nat, sign: bool, mode: Mode) {
    if guard == 0 && rest == 0 then false
    else if AwayFromZero(mode, sign) then true
    else mode == Nearest && guard == 1 && (rest != 0 || q % 2 == 1)
  }

  /** u128_shift_right_round; the bits below the guard bit are kept in 64 bits only. */
  function ShiftRightRound(i: nat, shift: nat, sign: bool, mode: Mode): nat {
    if shift == 0 then i
    else if shift > 127 then (if AwayFromZero(mode, sign) && i != 0 then 1 else 0)
    else
      var guard := Shr(i, shift - 1) % 2;
      var rest := Low(Low(i, shift - 1), 64);
      var q := Shr(i, shift);
      if RoundsUp(q, guard, rest, sign, mode) then q + 1 else q
  }

  /** `r` is i / d rounded to an integer. */
  predicate RoundsTo(i: nat, d: nat, sign: bool, mode: Mode, r: nat) {
    RoundsAt(i, d, sign, mode, r, r * d)
  }

  predicate RoundsAt(i: nat, d: nat, sign: bool, mode: Mode, r: nat, p: nat) {
    if mode == Nearest then
      && 2 * p <= 2 * i + d && 2 * i <= 2 * p + d
      && (2 * p == 2 * i + d || 2 * i == 2 * p + d ==> r % 2 == 0)
    else if AwayFromZero(mode, sign) then p < i + d && i <= p
    else p <= i < p + d
  }

  lemma RoundParts(i: nat, q: nat, g: nat, h: nat, d: nat, rest: nat, sign: bool, mode: Mode, r: nat)
    requires d == 2 * h && rest < h && g < 2 && i == q * d + g * h + rest
    requires r == if RoundsUp(q, g, rest, sign, mode) then q + 1 else q
    ensures RoundsTo(i, d, sign, mode, r)
  {
    var p, gh := q * d, g * h;
    assert (g == 0 ==> gh == 0) && (g == 1 ==> gh == h);
    RoundLinear(i, q, g, h, rest, sign, mode, p, gh);
    NextMultiple(q, d);
  }

  lemma NextMultiple(q: nat, d: nat)
    ensures (q + 1) * d == q * d + d
  {
  }

  lemma RoundLinear(i: nat, q: nat, g: nat, h: nat, rest: nat, sign: bool, mode: Mode, p: nat, gh: nat)
    requires rest < h && i == p + gh + rest && (g == 0 ==> gh == 0) && (g == 1 ==> gh == h) && g < 2
    ensures RoundsUp(q, g, rest, sign, mode) ==> RoundsAt(i, 2 * h, sign, mode, q + 1, p + 2 * h)
    ensures !RoundsUp(q, g, rest, sign, mode) ==> RoundsAt(i, 2 * h, sign, mode, q, p)
  {
  }

  lemma RoundTiny(i: nat, d: nat, sign: bool, mode: Mode)
    requires 2 * i < d
    ensures RoundsTo(i, d, sign, mode, if AwayFromZero(mode, sign) && i != 0 then 1 else 0)
  {
    assert 0 * d == 0 && 1 * d == d;
  }

  lemma RoundWhole(i: nat, sign: bool, mode: Mode)
    ensures RoundsTo(i, 1, sign, mode, i)
  {
  }

  /** No bit below the guard bit is lost. */
  lemma RestFits(i: nat, shift: nat)
    requires 0 < shift && (shift <= 65 || i < P64)
    ensures Low(Low(i, shift - 1), 64) == Low(i, shift - 1)
  {
    Power64();
    ShrLow(i, shift - 1);
    if shift <= 65 {
      Pow2Mono(shift - 1, 64);
    } else {
      assert Low(i, shift - 1) <= i;
    }
    LowFits(Low(i, shift - 1), 64);
  }

  /** Shifting right rounds correctly in all four modes, as long as no bit is lost from the
      64-bit rest. */
  lemma ShiftRoundsCorrectly(i: nat, shift: nat, sign: bool, mode: Mode)
    requires shift <= 65 || i < P64
    ensures RoundsTo(i, Pow2(shift), sign, mode, ShiftRightRound(i, shift, sign, mode))
  {
    if shift == 0 {
      RoundWhole(i, sign, mode);
    } else if shift > 127 {
      Power64();
      Pow2Mono(65, shift);
      RoundTiny(i, Pow2(shift), sign, mode);
    } else {
      ShiftByBits(i, shift, sign, mode);
    }
  }

  lemma ShiftIs(i: nat, shift: nat, sign: bool, mode: Mode)
    requires 0 < shift <= 127 && (shift <= 65 || i < P64)
    ensures var high, low := Shr(i, shift - 1), Low(i, shift - 1);
            ShiftRightRound(i, shift, sign, mode)
            == if RoundsUp(high / 2, high % 2, low, sign, mode) then high / 2 + 1 else high / 2
  {
    ShrStep(i, shift);
    RestFits(i, shift);
  }

  lemma ShiftParts(i: nat, shift: nat)
    requires 0 < shift
    ensures var h, high, low := Pow2(shift - 1), Shr(i, shift - 1), Low(i, shift - 1);
            low < h && Pow2(shift) == 2 * h && i == high / 2 * Pow2(shift) + high % 2 * h + low
  {
    ShrLow(i, shift - 1);
    HighParts(Shr(i, shift - 1), Pow2(shift - 1));
  }

  lemma ShiftByBits(i: nat, shift: nat, sign: bool, mode: Mode)
    requires 0 < shift <= 127 && (shift <= 65 || i < P64)
    ensures RoundsTo(i, Pow2(shift), sign, mode, ShiftRightRound(i, shift, sign, mode))
  {
    ShiftIs(i, shift, sign, mode);
    ShiftParts(i, shift);
    var high, r := Shr(i, shift - 1), ShiftRightRound(i, shift, sign, mode);
    RoundParts(i, high / 2, high % 2, Pow2(shift - 1), Pow2(shift), Low(i, shift - 1), sign, mode, r);
  }

  lemma HighParts(high: nat, h: nat)
    ensures high * h == high / 2 * (2 * h) + high % 2 * h
  {
    var q, g := high / 2, high % 2;
    assert high == 2 * q + g;
    assert (2 * q + g) * h == q * (2 * h) + g * h;
  }

  // ------------------------------------------------------------------ correct rounding

  function Dist(a: nat, b: nat): nat {
    if a <= b then b - a else a - b
  }

  /** The largest finite magnitude, and twice the first magnitude that rounds to infinity. */
  function MaxMagnitude(): nat { (P64 - 1) * Pow2(EXP_MAX - 1) }
  function TwiceThreshold(): nat { 2 * MaxMagnitude() + Pow2(EXP_MAX - 1) }

  /** `r` is the exact magnitude x / u with this sign, rounded by IEEE 754-2008 sections 4.3
      and 7.4: the best of all finite numbers, or infinity. */
  ghost predicate CorrectlyRounded(x: nat, u: nat, sign: bool, mode: Mode, r: F80) {
    && r.sign == sign
    && if mode == Nearest then
         if r == Infinity(sign) then 2 * x >= TwiceThreshold() * u
         else
           && Finite(r) && 2 * x < TwiceThreshold() * u
           && forall g {:trigger NoCloser(x, u, r, g)} :: Finite(g) ==> NoCloser(x, u, r, g)
       else if AwayFromZero(mode, sign) then
         if r == Infinity(sign) then forall g {:trigger Below(x, u, g)} :: Finite(g) ==> Below(x, u, g)
         else
           && Finite(r) && x <= Magnitude(r) * u
           && forall g {:trigger Below(x, u, g)} :: Finite(g) ==> Below(x, u, g) || Magnitude(r) <= Magnitude(g)
       else
         && Finite(r) && Magnitude(r) * u <= x
         && forall g {:trigger Above(x, u, g)} :: Finite(g) ==> Above(x, u, g) || Magnitude(g) <= Magnitude(r)
  }

  predicate Below(x: nat, u: nat, g: F80)
    requires g.exp >= 0
  {
    Magnitude(g) * u < x
  }

  predicate Above(x: nat, u: nat, g: F80)
    requires g.exp >= 0
  {
    x < Magnitude(g) * u
  }

  /** `g` is no closer to x / u than `r`, and as close only if `r` is even. */
  predicate NoCloser(x: nat, u: nat, r: F80, g: F80)
    requires r.exp >= 0 && g.exp >= 0
  {
    && Dist(Magnitude(r) * u, x) <= Dist(Magnitude(g) * u, x)
    && (Dist(Magnitude(r) * u, x) == Dist(Magnitude(g) * u, x) && Magnitude(g) != Magnitude(r) ==> r.signif % 2 == 0)
  }

  // ------------------------------------------------------------------ the grid

  /** A finite number is a multiple of Pow2(e) or smaller than the normal numbers with that
      unit in the last place. */
  lemma OnGrid(g: F80, e: nat) returns (k: nat)
    requires Finite(g)
    ensures Magnitude(g) == k * Pow2(e) || Magnitude(g) < P63 * Pow2(e)
  {
    var t := Scale(g.exp) - 1;
    if t >= e {
      Pow2Add(t - e, e);
      k := g.signif * Pow2(t - e);
      assert g.signif * (Pow2(t - e) * Pow2(e)) == g.signif * Pow2(t - e) * Pow2(e);
    } else {
      k := 0;
      Pow2Mono(t + 1, e);
      SmallSignif(g.signif, Pow2(t), Pow2(e));
    }
  }

  lemma SmallSignif(s: nat, p: nat, q: nat)
    requires s < P64 && 0 < p && 2 * p <= q
    ensures s * p < P63 * q
  {
    assert s * p < P64 * p;
    assert P64 * p == P63 * (2 * p);
    MulLe(P63, 2 * p, q);
  }

  lemma MulLe(a: nat, x: nat, y: nat)
    requires x <= y
    ensures a * x <= a * y
  {
  }

  lemma MulCancel(a: nat, x: nat, y: nat)
    requires a > 0
    ensures a * x <= a * y <==> x <= y
    ensures a * x < a * y <==> x < y
    ensures a * x == a * y <==> x == y
  {
    if x < y {
      assert a * y == a * x + a * (y - x);
    } else if y < x {
      assert a * x == a * y + a * (x - y);
    }
  }

  /** Everything about the exact value x / u that rounding looks at: with unit w / u in the
      last place it is s / P64. */
  ghost predicate Exact(x: nat, w: nat, s: nat) {
    w > 0 && x * P64 == s * w && P127 <= s < P128
  }

  lemma Compare(x: nat, w: nat, s: nat, k: nat)
    requires Exact(x, w, s)
    ensures k * w <= x <==> k * P64 <= s
    ensures x <= k * w <==> s <= k * P64
    ensures Dist(k * w, x) * P64 == Dist(k * P64, s) * w
  {
    var p := P64;
    assert p * (k * w) == w * (k * p) && p * x == w * s;
    MulCancel(p, k * w, x);
    MulCancel(w, k * p, s);
    MulCancel(p, x, k * w);
    MulCancel(w, s, k * p);
    if k * w <= x {
      assert (x - k * w) * p == p * x - p * (k * w);
      assert (s - k * p) * w == w * s - w * (k * p);
    } else {
      assert (k * w - x) * p == p * (k * w) - p * x;
      assert (k * p - s) * w == w * (k * p) - w * s;
    }
  }

  lemma CompareDist(x: nat, w: nat, s: nat, m: nat, k: nat)
    requires Exact(x, w, s)
    ensures Dist(m * w, x) <= Dist(k * w, x) <==> Dist(m * P64, s) <= Dist(k * P64, s)
    ensures Dist(m * w, x) == Dist(k * w, x) <==> Dist(m * P64, s) == Dist(k * P64, s)
  {
    var p, a, b := P64, Dist(m * w, x), Dist(k * w, x);
    var c, d := Dist(m * p, s), Dist(k * p, s);
    Compare(x, w, s, m);
    Compare(x, w, s, k);
    assert p * a == w * c && p * b == w * d;
    MulCancel(p, a, b);
    MulCancel(w, c, d);
  }

  /** A quotient rounded to nearest beats every other integer. */
  lemma NearestBeats(s: nat, sign: bool, m: nat, k: nat)
    requires RoundsTo(s, P64, sign, Nearest, m)
    ensures Dist(m * P64, s) <= Dist(k * P64, s)
    ensures k != m && Dist(m * P64, s) == Dist(k * P64, s) ==> m % 2 == 0
  {
  }

  /** The quotient stays within the 64-bit significands, or just reaches the next power. */
  lemma QuotientRange(s: nat, sign: bool, mode: Mode, m: nat)
    requires P127 <= s < P128 && RoundsTo(s, P64, sign, mode, m)
    ensures P63 <= m <= P64
  {
  }

  // ------------------------------------------------------------------ rounding a normalised significand

  /** The number m * 2^(e - 16445), for a quotient m and a biased exponent e + 1; the carry out
      of an all-ones significand moves to the exponent. */
  function Assemble(m: nat, exp: int, sign: bool): (r: F80)
    ensures r.sign == sign
  {
    if m >= P64 then F80(m / 2, exp + 1, sign) else F80(m, exp, sign)
  }

  lemma AssembleOk(m: nat, exp: int, sign: bool)
    requires P63 <= m <= P64 && EXP_MIN <= exp <= EXP_MAX
    ensures var r := Assemble(m, exp, sign);
            && (m == P64 && exp == EXP_MAX ==> r == Infinity(sign))
            && (m < P64 || exp < EXP_MAX ==> Finite(r) && Magnitude(r) == m * Pow2(exp - 1) && r != Infinity(sign))
            && (m % 2 == 0 ==> r.signif % 2 == 0)
  {
    assert exp < EXP_MAX ==> Pow2(exp) == 2 * Pow2(exp - 1);
  }

  lemma Assoc(k: nat, l: nat, u: nat)
    ensures k * l * u == k * (l * u)
  {
  }

  lemma MulMono(a: nat, b: nat, u: nat)
    requires a <= b
    ensures a * u <= b * u
  {
  }

  lemma MulMonoStrict(a: nat, b: nat, u: nat)
    requires a < b && u > 0
    ensures a * u < b * u
  {
    MulMono(a + 1, b, u);
    assert (a + 1) * u == a * u + u;
  }

  lemma FiniteMax(g: F80)
    requires Finite(g)
    ensures Magnitude(g) <= MaxMagnitude()
  {
    Pow2Mono(Scale(g.exp) - 1, EXP_MAX - 1);
    MulMono(g.signif, P64 - 1, Pow2(Scale(g.exp) - 1));
    MulLe(P64 - 1, Pow2(Scale(g.exp) - 1), Pow2(EXP_MAX - 1));
  }

  /** Below the grid is below the value. */
  lemma BelowGrid(x: nat, u: nat, l: nat, s: nat, mag: nat)
    requires Exact(x, l * u, s) && u > 0 && mag < P63 * l
    ensures mag * u < P63 * (l * u) <= x
  {
    Compare(x, l * u, s, P63);
    MulMonoStrict(mag, P63 * l, u);
    Assoc(P63, l, u);
  }

  lemma BestBelow(x: nat, u: nat, s: nat, exp: int, m: nat, g: F80)
    requires EXP_MIN <= exp && u > 0 && Exact(x, Pow2(exp - 1) * u, s) && m * P64 <= s < m * P64 + P64 && P63 <= m
    requires Finite(g) && Magnitude(g) * u <= x
    ensures Magnitude(g) <= m * Pow2(exp - 1)
  {
    var l := Pow2(exp - 1);
    var k := OnGrid(g, exp - 1);
    if Magnitude(g) == k * l {
      Assoc(k, l, u);
      Compare(x, l * u, s, k);
      MulMono(k, m, l);
    } else {
      MulMono(P63, m, l);
    }
  }

  lemma BestAbove(x: nat, u: nat, s: nat, exp: int, m: nat, g: F80)
    requires EXP_MIN <= exp && u > 0 && Exact(x, Pow2(exp - 1) * u, s) && m * P64 < s + P64
    requires Finite(g) && x <= Magnitude(g) * u
    ensures m * Pow2(exp - 1) <= Magnitude(g)
  {
    var l := Pow2(exp - 1);
    var k := OnGrid(g, exp - 1);
    if Magnitude(g) == k * l {
      Assoc(k, l, u);
      Compare(x, l * u, s, k);
      MulMono(m, k, l);
    } else {
      BelowGrid(x, u, l, s, Magnitude(g));
    }
  }

  lemma NearestToGrid(x: nat, u: nat, s: nat, exp: int, sign: bool, m: nat, r: F80, g: F80)
    requires EXP_MIN <= exp && u > 0 && Exact(x, Pow2(exp - 1) * u, s) && RoundsTo(s, P64, sign, Nearest, m)
    requires Finite(r) && Magnitude(r) == m * Pow2(exp - 1) && (m % 2 == 0 ==> r.signif % 2 == 0) && Finite(g)
    ensures NoCloser(x, u, r, g)
  {
    var l := Pow2(exp - 1);
    var w := l * u;
    var k := OnGrid(g, exp - 1);
    Assoc(m, l, u);
    if Magnitude(g) == k * l {
      Assoc(k, l, u);
      CompareDist(x, w, s, m, k);
      NearestBeats(s, sign, m, k);
    } else {
      BelowGrid(x, u, l, s, Magnitude(g));
      CompareDist(x, w, s, m, P63);
      NearestBeats(s, sign, m, P63);
    }
  }

  /** What rounding a normalised significand gives, before the number is assembled. */
  lemma Quotient(s: nat, sign: bool, mode: Mode) returns (m: nat)
    requires P127 <= s < P128
    ensures m == ShiftRightRound(s, 64, sign, mode) && RoundsTo(s, P64, sign, mode, m) && P63 <= m <= P64
  {
    m := ShiftRightRound(s, 64, sign, mode);
    Power64();
    ShiftRoundsCorrectly(s, 64, sign, mode);
    QuotientRange(s, sign, mode, m);
  }

  lemma RoundTowardZero(x: nat, u: nat, s: nat, exp: int, sign: bool, mode: Mode)
    requires EXP_MIN <= exp <= EXP_MAX && u > 0 && Exact(x, Pow2(exp - 1) * u, s)
    requires mode != Nearest && !AwayFromZero(mode, sign)
    ensures CorrectlyRounded(x, u, sign, mode, Assemble(ShiftRightRound(s, 64, sign, mode), exp, sign))
  {
    var m := Quotient(s, sign, mode);
    AssembleOk(m, exp, sign);
    Compare(x, Pow2(exp - 1) * u, s, m);
    Assoc(m, Pow2(exp - 1), u);
    forall g | Finite(g) ensures Above(x, u, g) || Magnitude(g) <= m * Pow2(exp - 1) {
      if !Above(x, u, g) {
        BestBelow(x, u, s, exp, m, g);
      }
    }
  }

  lemma RoundAway(x: nat, u: nat, s: nat, exp: int, sign: bool, mode: Mode)
    requires EXP_MIN <= exp <= EXP_MAX && u > 0 && Exact(x, Pow2(exp - 1) * u, s)
    requires mode != Nearest && AwayFromZero(mode, sign)
    ensures CorrectlyRounded(x, u, sign, mode, Assemble(ShiftRightRound(s, 64, sign, mode), exp, sign))
  {
    var m := Quotient(s, sign, mode);
    AssembleOk(m, exp, sign);
    Compare(x, Pow2(exp - 1) * u, s, m);
    Assoc(m, Pow2(exp - 1), u);
    forall g | Finite(g) ensures Below(x, u, g) || m * Pow2(exp - 1) <= Magnitude(g) {
      if !Below(x, u, g) {
        BestAbove(x, u, s, exp, m, g);
      }
    }
    if m == P64 && exp == EXP_MAX {
      forall g | Finite(g) ensures Below(x, u, g) {
        FiniteMax(g);
        MulMonoStrict(P64 - 1, P64, Pow2(exp - 1));
      }
    }
  }

  /** Where rounding to nearest overflows. */
  lemma Threshold(x: nat, u: nat, s: nat, exp: int, sign: bool, m: nat)
    requires EXP_MIN <= exp <= EXP_MAX && u > 0 && Exact(x, Pow2(exp - 1) * u, s)
    requires RoundsTo(s, P64, sign, Nearest, m) && m <= P64
    ensures 2 * x >= TwiceThreshold() * u <==> m == P64 && exp == EXP_MAX
  {
    var l := Pow2(exp - 1);
    var w := l * u;
    if exp == EXP_MAX {
      assert TwiceThreshold() == (2 * P64 - 1) * l;
      Assoc(2 * P64 - 1, l, u);
      Compare2(x, w, s, 2 * P64 - 1);
    } else {
      Compare(x, w, s, P64);
      Assoc(P64, l, u);
      Pow2Mono(exp, EXP_MAX - 1);
      assert Pow2(exp) == 2 * l;
      MulMono(2 * P64 * l, TwiceThreshold(), u);
      assert 2 * P64 * l * u == 2 * (P64 * w);
    }
  }

  lemma Compare2(x: nat, w: nat, s: nat, k: nat)
    requires Exact(x, w, s)
    ensures k * w <= 2 * x <==> k * P64 <= 2 * s
  {
    assert P64 * (k * w) == w * (k * P64) && P64 * (2 * x) == w * (2 * s);
    MulCancel(P64, k * w, 2 * x);
    MulCancel(w, k * P64, 2 * s);
  }

  lemma RoundNearest(x: nat, u: nat, s: nat, exp: int, sign: bool)
    requires EXP_MIN <= exp <= EXP_MAX && u > 0 && Exact(x, Pow2(exp - 1) * u, s)
    ensures CorrectlyRounded(x, u, sign, Nearest, Assemble(ShiftRightRound(s, 64, sign, Nearest), exp, sign))
  {
    var m := Quotient(s, sign, Nearest);
    var r := Assemble(m, exp, sign);
    AssembleOk(m, exp, sign);
    Threshold(x, u, s, exp, sign, m);
    if r != Infinity(sign) {
      forall g | Finite(g) ensures NoCloser(x, u, r, g) {
        NearestToGrid(x, u, s, exp, sign, m, r, g);
      }
    }
  }

  // ------------------------------------------------------------------ overflow

  function Overflowed(sign: bool, mode: Mode): (r: F80)
    ensures r.sign == sign
  {
    if (mode == Up && sign) || (mode == Down && !sign) || mode == Chop then F80(P64 - 1, EXP_MAX, sign)
    else Infinity(sign)
  }

  /** Too big to represent: infinity or the largest finite number, as section 7.4 has it. */
  lemma RoundOverflow(x: nat, u: nat, s: nat, exp: int, sign: bool, mode: Mode)
    requires exp > EXP_MAX && u > 0 && Exact(x, Pow2(exp - 1) * u, s)
    ensures CorrectlyRounded(x, u, sign, mode, Overflowed(sign, mode))
  {
    var top := Pow2(EXP_MAX - 1);
    BeyondTop(x, u, s, exp);
    MulMonoStrict(P64 - 1, P64, top);
    forall g | Finite(g) ensures Magnitude(g) <= MaxMagnitude() && Below(x, u, g) {
      FiniteMax(g);
      MulMonoStrict(Magnitude(g), P64 * top, u);
    }
    assert TwiceThreshold() <= 2 * (P64 * top);
    MulMono(TwiceThreshold(), 2 * (P64 * top), u);
    Assoc(2, P64 * top, u);
  }

  lemma BeyondTop(x: nat, u: nat, s: nat, exp: int)
    requires exp > EXP_MAX && u > 0 && Exact(x, Pow2(exp - 1) * u, s)
    ensures P64 * Pow2(EXP_MAX - 1) * u <= x
  {
    var l, top := Pow2(exp - 1), Pow2(EXP_MAX - 1);
    Compare(x, l * u, s, P63);
    Assoc(P63, l, u);
    Pow2Mono(EXP_MAX, exp - 1);
    assert Pow2(EXP_MAX) == 2 * top;
    MulLe(P63, 2 * top, l);
    assert P63 * (2 * top) == P64 * top;
    MulMono(P64 * top, P63 * l, u);
  }

  // ------------------------------------------------------------------ normalisation

  function BitLen(x: nat): nat {
    if x == 0 then 0 else 1 + BitLen(x / 2)
  }

  lemma {:induction false} BitLenBounds(x: nat)
    requires x > 0
    ensures BitLen(x) > 0 && Pow2(BitLen(x) - 1) <= x < Pow2(BitLen(x))
  {
    if x > 1 {
      BitLenBounds(x / 2);
    }
  }

  lemma {:induction false} BitLenShr(x: nat, n: nat)
    requires Shr(x, n) != 0
    ensures BitLen(x) == n + BitLen(Shr(x, n))
    decreases n
  {
    if n > 0 {
      assert x != 0 by {
        if x == 0 { LowFits(0, n); }
      }
      BitLenShr(x / 2, n - 1);
    }
  }

  lemma BitLenFits(x: nat, n: nat)
    requires x < Pow2(n)
    ensures BitLen(x) <= n
  {
    if x > 0 && BitLen(x) > n {
      BitLenBounds(x);
      Pow2Mono(n, BitLen(x) - 1);
    }
  }

  /** __builtin_clzl. */
  function Clz64(x: nat): int { 64 - BitLen(x) }

  /** u128_clz. */
  function Clz128(x: nat): int {
    if Shr(x, 64) != 0 then Clz64(Shr(x, 64))
    else if x != 0 then 64 + Clz64(x)
    else 128
  }

  lemma ClzNormalises(x: nat)
    requires 0 < x < P128
    ensures 0 <= Clz128(x) < 128 && P127 <= x * Pow2(Clz128(x)) < P128
  {
    var n := BitLen(x);
    Power128();
    BitLenBounds(x);
    BitLenFits(x, 128);
    if Shr(x, 64) != 0 {
      BitLenShr(x, 64);
    }
    assert Clz128(x) == 128 - n;
    Pow2Add(n - 1, 128 - n);
    Pow2Add(n, 128 - n);
    MulMono(Pow2(n - 1), x, Pow2(128 - n));
    MulMonoStrict(x, Pow2(n), Pow2(128 - n));
  }

  /** The first branch of u128_normalize_round: the result is in the denormal range.  The left
      shift is by less than the leading zeros, so nothing is shifted out. */
  function DenormalSignif(signif: nat, exp: int, sign: bool, mode: Mode): nat {
    if exp > EXP_MIN then Shl(signif, exp - EXP_MIN) else ShiftRightRound(signif, EXP_MIN - exp, sign, mode)
  }

  /** u128_normalize_round; `exp` is biased here, the source keeps it unbiased. */
  function NormalizeRound(signif: nat, exp: int, sign: bool, mode: Mode): (r: F80)
    ensures r.sign == sign
  {
    var shift := Clz128(signif);
    if exp - shift < EXP_MIN then
      Assemble(ShiftRightRound(DenormalSignif(signif, exp, sign, mode), 64, sign, mode), EXP_DENORMAL, sign)
    else if exp - shift > EXP_MAX && signif == P127 then Infinity(sign)
    else RoundedAt(if shift >= 0 then Shl(signif, shift) else signif, exp - shift, sign, mode)
  }

  /** The rest of u128_normalize_round, for a normalised significand. */
  function RoundedAt(s: nat, exp: int, sign: bool, mode: Mode): (r: F80)
    ensures r.sign == sign
  {
    if exp > EXP_MAX then Overflowed(sign, mode) else Assemble(ShiftRightRound(s, 64, sign, mode), exp, sign)
  }

  lemma RoundedAtCorrect(x: nat, u: nat, s: nat, exp: int, sign: bool, mode: Mode, r: F80)
    requires EXP_MIN <= exp && u > 0 && Exact(x, Pow2(exp - 1) * u, s) && r == RoundedAt(s, exp, sign, mode)
    ensures CorrectlyRounded(x, u, sign, mode, r)
  {
    if exp > EXP_MAX {
      RoundOverflow(x, u, s, exp, sign, mode);
    } else if mode == Nearest {
      RoundNearest(x, u, s, exp, sign);
    } else if AwayFromZero(mode, sign) {
      RoundAway(x, u, s, exp, sign, mode);
    } else {
      RoundTowardZero(x, u, s, exp, sign, mode);
    }
  }

  /** The value x / u is `signif` at the exponent `exp`, not in the denormal range; `c` is the
      number of leading zeros. */
  ghost predicate NormalValue(x: nat, u: nat, signif: nat, exp: int, c: nat) {
    && u > 0 && 0 < signif < P128 && signif != P127 && c == Clz128(signif) && exp - c >= EXP_MIN
    && Exact(x, Pow2(exp - c - 1) * u, Shl(signif, c))
  }

  lemma NormalizeRoundIs(signif: nat, exp: int, c: nat, sign: bool, mode: Mode)
    requires signif != P127 && c == Clz128(signif) && exp - c >= EXP_MIN
    ensures NormalizeRound(signif, exp, sign, mode) == RoundedAt(Shl(signif, c), exp - c, sign, mode)
  {
  }

  lemma NormalizeRoundCorrect(x: nat, u: nat, signif: nat, exp: int, c: nat, sign: bool, mode: Mode, r: F80)
    requires NormalValue(x, u, signif, exp, c) && r == NormalizeRound(signif, exp, sign, mode)
    ensures CorrectlyRounded(x, u, sign, mode, r)
  {
    NormalizeRoundIs(signif, exp, c, sign, mode);
    RoundedAtCorrect(x, u, Shl(signif, c), exp - c, sign, mode, r);
  }

  // ------------------------------------------------------------------ f80_mul

  const F80_NAN := F80(0xc000_0000_0000_0000, EXP_SPECIAL, false)

  predicate IsNan(f: F80) { f.exp == EXP_SPECIAL && f.signif % P63 != 0 }
  predicate IsInf(f: F80) { f.exp == EXP_SPECIAL && f.signif % P63 == 0 }
  predicate IsZero(f: F80) { f.exp == EXP_DENORMAL && f.signif == 0 }

  function Mul(a: F80, b: F80, mode: Mode): F80
    requires a.exp >= 0 && b.exp >= 0
  {
    var sign := a.sign != b.sign;
    if !Supported(a) || !Supported(b) then F80_NAN
    else if IsNan(a) && IsNan(b) && a.sign && !b.sign then b
    else if IsNan(a) then a
    else if IsNan(b) then b
    else if IsInf(a) || IsInf(b) then
      if IsZero(a) || IsZero(b) then F80_NAN else Infinity(sign)
    else MulFinite(a, b, sign, mode)
  }

  /** The last part of f80_mul; the + 1 keeps the exponent right for 128-bit significands. */
  function MulFinite(a: F80, b: F80, sign: bool, mode: Mode): (r: F80)
    requires a.exp >= 0 && b.exp >= 0
    ensures r.sign == sign
  {
    NormalizeRound(a.signif * b.signif, Scale(a.exp) + Scale(b.exp) - BIAS80 + 1, sign, mode)
  }

  lemma ValueExact(x: nat, s: nat, t: nat) returns (c: nat)
    requires 0 < s < P128 && s != P127 && x == s * Pow2(t) && x >= P63 * One()
    ensures NormalValue(x, One(), s, t + 3 - BIAS80, c)
  {
    ClzNormalises(s);
    c := Clz128(s);
    NotDenormal(s, c, t, BIAS80 - 1);
    ExactAt(x, s, t, c, t + 3 - BIAS80 - c - 1);
  }

  lemma ExactAt(x: nat, s: nat, t: nat, c: nat, d: nat)
    requires x == s * Pow2(t) && t == c + (d + (BIAS80 - 2)) && P127 <= s * Pow2(c) < P128
    ensures Exact(x, Pow2(d) * One(), Shl(s, c))
  {
    ShlIs(s, c);
    SamePower(t, c + (d + (BIAS80 - 2)));
    ScaleIdentity(s, c, d, BIAS80 - 2);
    OneIs();
    Positive(Pow2(d), One());
  }

  lemma SamePower(a: nat, b: nat)
    requires a == b
    ensures Pow2(a) == Pow2(b)
  {
  }

  lemma Positive(a: nat, b: nat)
    requires a > 0 && b > 0
    ensures a * b > 0
  {
  }

  lemma OneIs()
    ensures One() == P63 * (2 * Pow2(BIAS80 - 2)) && One() > 0
  {
  }

  /** The exact product, as rounding sees it. */
  lemma ProductExact(a: F80, b: F80) returns (c: nat)
    requires Finite(a) && Finite(b) && a.signif > 0 && b.signif > 0
    requires Magnitude(a) * Magnitude(b) >= P63 * One()
    ensures NormalValue(Magnitude(a) * Magnitude(b), One(), a.signif * b.signif,
                        Scale(a.exp) + Scale(b.exp) - BIAS80 + 1, c)
  {
    ProductRange(a.signif, b.signif);
    ProductMagnitude(a, b);
    c := ValueExact(Magnitude(a) * Magnitude(b), a.signif * b.signif, Scale(a.exp) + Scale(b.exp) - 2);
  }

  lemma ProductRange(x: nat, y: nat)
    requires 0 < x < P64 && 0 < y < P64
    ensures 0 < x * y < P128 && x * y != P127
  {
    MulMono(x, P64 - 1, y);
    MulLe(P64 - 1, y, P64 - 1);
    MulLe(x, 1, y);
    NotTopPower(x, y);
  }

  lemma ProductMagnitude(a: F80, b: F80)
    requires Finite(a) && Finite(b)
    ensures Magnitude(a) * Magnitude(b) == a.signif * b.signif * Pow2(Scale(a.exp) + Scale(b.exp) - 2)
  {
    var i, j := Scale(a.exp) - 1, Scale(b.exp) - 1;
    Pow2Add(i, j);
    SamePower(i + j, Scale(a.exp) + Scale(b.exp) - 2);
    Interchange(a.signif, Pow2(i), b.signif, Pow2(j));
  }

  lemma Interchange(s: nat, p: nat, t: nat, q: nat)
    ensures s * p * (t * q) == s * t * (p * q)
  {
  }

  /** The factors of a power of two are powers of two. */
  lemma {:induction false} FactorsOfPower(x: nat, y: nat, n: nat) returns (i: nat, j: nat)
    requires x * y == Pow2(n)
    ensures i + j == n && x == Pow2(i) && y == Pow2(j)
    decreases n
  {
    if n == 0 {
      FactorsOfOne(x, y);
      return 0, 0;
    }
    ParityOfProduct(x, y);
    if x % 2 == 0 {
      assert x == 2 * (x / 2);
      assert 2 * (x / 2 * y) == x * y;
      i, j := FactorsOfPower(x / 2, y, n - 1);
      i := i + 1;
    } else {
      assert y == 2 * (y / 2);
      assert 2 * (x * (y / 2)) == x * y;
      i, j := FactorsOfPower(x, y / 2, n - 1);
      j := j + 1;
    }
  }

  lemma FactorsOfOne(x: nat, y: nat)
    requires x * y == 1
    ensures x == 1 && y == 1
  {
    if x >= 2 && y >= 1 {
      MulMono(2, x, y);
    } else if y >= 2 && x >= 1 {
      MulLe(x, 2, y);
    }
  }

  lemma ParityOfProduct(x: nat, y: nat)
    ensures x % 2 == 1 && y % 2 == 1 ==> x * y % 2 == 1
  {
    if x % 2 == 1 && y % 2 == 1 {
      var p, q := x / 2, y / 2;
      assert x * y == (2 * p + 1) * (2 * q + 1) == 2 * (2 * p * q + p + q) + 1;
    }
  }

  lemma NotTopPower(x: nat, y: nat)
    requires x < P64 && y < P64
    ensures x * y != P127
  {
    if x * y == P127 {
      Power64();
      Power128();
      var i, j := FactorsOfPower(x, y, 127);
      Pow2Mono(64, if i >= j then i else j);
    }
  }

  lemma NotDenormal(s: nat, c: nat, t: nat, k: nat)
    requires s * Pow2(c) < P128 && s * Pow2(t) >= P63 * (P63 * Pow2(k)) && k >= 2
    ensures t - c > k - 2
  {
    if t - c <= k - 2 {
      TopPower(k);
      BelowTop(s, c, t, k - 2);
    }
  }

  lemma TopPower(k: nat)
    requires k >= 2
    ensures P63 * (P63 * Pow2(k)) == P128 * Pow2(k - 2)
  {
    assert Pow2(k) == 4 * Pow2(k - 2);
  }

  lemma BelowTop(s: nat, c: nat, t: nat, v: nat)
    requires s * Pow2(c) < P128 && t - c <= v
    ensures s * Pow2(t) < P128 * Pow2(v)
  {
    if t < c {
      Pow2Mono(t, c);
      ShrunkLess(s, Pow2(t), Pow2(c), Pow2(v));
    } else {
      Pow2Mono(t - c, v);
      GrownLess(s, c, t - c, Pow2(v));
      SamePower(t, c + (t - c));
    }
  }

  lemma ShrunkLess(s: nat, p: nat, r: nat, q: nat)
    requires p <= r && s * r < P128 && q > 0
    ensures s * p < P128 * q
  {
    MulLe(s, p, r);
    ScaledLess(s * p, 1, q);
  }

  lemma GrownLess(s: nat, c: nat, d: nat, q: nat)
    requires s * Pow2(c) < P128 && Pow2(d) <= q
    ensures s * Pow2(c + d) < P128 * q
  {
    Pow2Add(c, d);
    Assoc(s, Pow2(c), Pow2(d));
    ScaledLess(s * Pow2(c), Pow2(d), q);
  }

  lemma ScaledLess(a: nat, p: nat, q: nat)
    requires a < P128 && 0 < p <= q
    ensures a * p < P128 * q
  {
    MulMonoStrict(a, P128, p);
    MulLe(P128, p, q);
  }

  lemma ScaleIdentity(s: nat, c: nat, d: nat, k: nat)
    ensures s * Pow2(c + (d + k)) * P64 == s * Pow2(c) * (Pow2(d) * (P63 * (2 * Pow2(k))))
  {
    Pow2Add(c, d + k);
    Pow2Add(d, k);
    Regroup(s, Pow2(c), Pow2(d), Pow2(k), Pow2(d + k), Pow2(c + (d + k)));
  }

  lemma Regroup(s: nat, x: nat, y: nat, z: nat, yz: nat, t: nat)
    requires t == x * yz && yz == y * z
    ensures s * t * P64 == s * x * (y * (P63 * (2 * z)))
  {
    Assoc(s, x, yz);
    Regroup2(s * x, y, z);
  }

  lemma Regroup2(a: nat, y: nat, z: nat)
    ensures a * (y * z) * P64 == a * (y * (P63 * (2 * z)))
  {
    assert y * (P64 * z) == P64 * (y * z);
    assert a * (P64 * (y * z)) == P64 * (a * (y * z));
  }

  /** For all nonzero finite operands whose product is not in the denormal range, f80_mul
      returns the correctly rounded product in all four modes. */
  lemma MulCorrect(a: F80, b: F80, mode: Mode)
    requires Finite(a) && Finite(b) && a.signif > 0 && b.signif > 0
    requires Magnitude(a) * Magnitude(b) >= P63 * One()
    ensures CorrectlyRounded(Magnitude(a) * Magnitude(b), One(), a.sign != b.sign, mode, Mul(a, b, mode))
  {
    var c := ProductExact(a, b);
    var e, r := Scale(a.exp) + Scale(b.exp) - BIAS80 + 1, Mul(a, b, mode);
    MulIs(a, b, mode);
    NormalizeRoundCorrect(Magnitude(a) * Magnitude(b), One(), a.signif * b.signif, e, c, a.sign != b.sign, mode, r);
  }

  lemma MulIs(a: F80, b: F80, mode: Mode)
    requires Finite(a) && Finite(b)
    ensures Mul(a, b, mode) == MulFinite(a, b, a.sign != b.sign, mode)
  {
  }
}
