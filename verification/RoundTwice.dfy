/** Rounding in two steps, against rounding once.

    emu/float80.c rounds twice wherever a result is denormal: first to the unit of the intermediate
    significand, then to that of the result.  Toward zero and away from zero that makes no
    difference.  To nearest, a value within half a unit of the middle between two results is
    taken for the middle by the first rounding, and then rounded to the even result although it
    is nearer to the other one: a false tie.

    The first part says exactly what two roundings to nearest give, and so when they differ from
    one.  The second compares the rounded integer with all others, which is how a result is shown
    to be the right one or not. */
module RoundTwice {
  import opened Float80
  import opened Conversions

  /** Within half a unit p of the middle k * p of an interval, so that the first rounding
      makes a tie of it. */
  predicate NearTie(r: nat, p: nat, k: nat) {
    Dist(r, k * p) <= p / 2
  }

  /** The first rounding makes a tie, and the second breaks it the wrong way. */
  predicate FalseTie(i: nat, p: nat, k: nat)
    requires p > 0 && k > 0
  {
    Positive(k, p);
    var d := 2 * (k * p);
    var q, r := i / d, i % d;
    NearTie(r, p, k) && if q % 2 == 0 then r > k * p else r < k * p
  }

  function RoundedAround(q: nat, above: bool, tie: bool): nat {
    if tie then q + q % 2 else if above then q + 1 else q
  }

  lemma Division(i: nat, d: nat) returns (q: nat, r: nat)
    requires d > 0
    ensures q == i / d && r == i % d && i == q * d + r && r < d
  {
    q, r := i / d, i % d;
  }

  lemma NearestOnce(i: nat, h: nat, sign: bool, m: nat, q: nat, r: nat)
    requires RoundsTo(i, 2 * h, sign, Nearest, m) && i == q * (2 * h) + r && r < 2 * h
    ensures m == RoundedAround(q, r > h, r == h)
  {
    var g := if r >= h then 1 else 0;
    var rest := if r >= h then r - h else r;
    var t := RoundedAround(q, r > h, r == h);
    assert g * h + rest == r;
    RoundParts(i, q, g, h, 2 * h, rest, sign, Nearest, t);
    IntegerUnique(i, 2 * h, sign, Nearest, m, t);
  }

  /** Rounding i / p and then dividing by 2 * k and rounding again. */
  lemma NearestTwice(i: nat, p: nat, k: nat, sign: bool, s: nat, m: nat, q: nat, r: nat)
    requires p > 0 && k > 0 && k % 2 == 0 && i == q * (2 * (k * p)) + r && r < 2 * (k * p)
    requires RoundsTo(i, p, sign, Nearest, s) && RoundsTo(s, 2 * k, sign, Nearest, m)
    ensures m == RoundedAround(q, r > k * p, NearTie(r, p, k))
  {
    var t := RemainderRounds(i, p, k, sign, s, q, r);
    MiddleRounds(r, p, k, sign, t);
    SecondStep(q, t, k, sign, s, m);
  }

  /** The first step rounds the remainder. */
  lemma RemainderRounds(i: nat, p: nat, k: nat, sign: bool, s: nat, q: nat, r: nat) returns (t: nat)
    requires p > 0 && k > 0 && RoundsTo(i, p, sign, Nearest, s)
    requires i == q * (2 * (k * p)) + r && r < 2 * (k * p)
    ensures s == 2 * k * q + t && RoundsTo(r, p, sign, Nearest, t) && t <= 2 * k
  {
    var n := k * q;
    BaseIs(q, k, p);
    t := AboveBase(i, p, sign, s, 2 * n, r);
    NotAboveTop(r, p, sign, t, 2 * k);
  }

  lemma AboveBase(i: nat, p: nat, sign: bool, s: nat, n: nat, r: nat) returns (t: nat)
    requires p > 0 && RoundsTo(i, p, sign, Nearest, s) && i == n * p + r && n % 2 == 0
    ensures s == n + t && RoundsTo(r, p, sign, Nearest, t)
  {
    RoundedBase(i, p, sign, s, n, n * p);
    t := s - n;
    Split(n, t, p);
  }

  lemma BaseIs(q: nat, k: nat, p: nat)
    ensures q * (2 * (k * p)) == 2 * (k * q) * p && 2 * (k * p) == 2 * k * p && 2 * (k * q) == 2 * k * q
  {
  }

  lemma Split(n: nat, t: nat, p: nat)
    ensures (n + t) * p == n * p + t * p
  {
  }

  /** What is at least the even multiple n of p is not rounded below it. */
  lemma RoundedBase(i: nat, p: nat, sign: bool, s: nat, n: nat, b: nat)
    requires p > 0 && RoundsTo(i, p, sign, Nearest, s) && b == n * p && b <= i
    ensures s >= n
  {
    if s < n {
      MulMono(s + 1, n, p);
      NextMultiple(s, p);
    }
  }

  lemma NotAboveTop(r: nat, p: nat, sign: bool, t: nat, n: nat)
    requires p > 0 && RoundsTo(r, p, sign, Nearest, t) && r < n * p
    ensures t <= n
  {
    if t > n {
      MulMono(n + 1, t, p);
      NextMultiple(n, p);
    }
  }

  lemma MiddleRounds(r: nat, p: nat, k: nat, sign: bool, t: nat)
    requires p > 0 && k % 2 == 0 && RoundsTo(r, p, sign, Nearest, t)
    ensures t == k <==> NearTie(r, p, k)
    ensures t > k ==> r > k * p
    ensures t < k ==> r < k * p
  {
    if NearTie(r, p, k) {
      IntegerUnique(r, p, sign, Nearest, k, t);
    }
    if t > k {
      MulMono(k + 1, t, p);
      NextMultiple(k, p);
    }
    if t < k {
      MulMono(t + 1, k, p);
      NextMultiple(t, p);
    }
  }

  lemma SecondStep(q: nat, t: nat, k: nat, sign: bool, s: nat, m: nat)
    requires k > 0 && s == 2 * k * q + t && t <= 2 * k && RoundsTo(s, 2 * k, sign, Nearest, m)
    ensures m == RoundedAround(q, t > k, t == k)
  {
    var n := RoundedAround(q, t > k, t == k);
    assert q * (2 * k) == 2 * k * q;
    NextMultiple(q, 2 * k);
    assert RoundsTo(s, 2 * k, sign, Nearest, n);
    IntegerUnique(s, 2 * k, sign, Nearest, m, n);
  }

  /** Rounding to nearest twice is rounding once, except for a false tie. */
  lemma NearestTwiceIff(i: nat, p: nat, k: nat, sign: bool, s: nat, m: nat, once: nat)
    requires p > 0 && k > 0 && k % 2 == 0
    requires RoundsTo(i, p, sign, Nearest, s) && RoundsTo(s, 2 * k, sign, Nearest, m)
    requires RoundsTo(i, 2 * (k * p), sign, Nearest, once)
    ensures m == once <==> !FalseTie(i, p, k)
  {
    Positive(k, p);
    var q, r := Division(i, 2 * (k * p));
    NearestTwice(i, p, k, sign, s, m, q, r);
    NearestOnce(i, k * p, sign, once, q, r);
  }

  /** Rounding up twice is rounding up once. */
  lemma AwayTwice(i: nat, p: nat, d: nat, sign: bool, mode: Mode, s: nat, m: nat)
    requires p > 0 && d > 0 && mode != Nearest && AwayFromZero(mode, sign)
    requires RoundsTo(i, p, sign, mode, s) && RoundsTo(s, d, sign, mode, m)
    ensures RoundsTo(i, d * p, sign, mode, m)
  {
    Assoc(m, d, p);
    MulMono(s, m * d, p);
    NextMultiple(m, d);
    MulMono(m * d + 1, s + d, p);
    NextMultiple(m * d, p);
    Split(s, d, p);
  }

  /** So is rounding down. */
  lemma TowardZeroTwice(i: nat, p: nat, d: nat, sign: bool, mode: Mode, s: nat, m: nat)
    requires p > 0 && d > 0 && mode != Nearest && !AwayFromZero(mode, sign)
    requires RoundsTo(i, p, sign, mode, s) && RoundsTo(s, d, sign, mode, m)
    ensures RoundsTo(i, d * p, sign, mode, m)
  {
    Assoc(m, d, p);
    MulMono(m * d, s, p);
    MulMono(s + 1, m * d + d, p);
    NextMultiple(s, p);
    Split(m * d, d, p);
  }

  // ------------------------------------------------------------------ the rounded integer against others

  lemma NotPast(k: nat, m: nat, w: nat)
    requires k * w < m * w + w
    ensures k <= m
  {
    if k > m {
      MulMono(m + 1, k, w);
      NextMultiple(m, w);
    }
  }

  /** A multiple rounded to nearest beats every other multiple. */
  lemma NearestMultiple(x: nat, w: nat, sign: bool, m: nat, k: nat)
    requires w > 0 && RoundsTo(x, w, sign, Nearest, m)
    ensures Dist(m * w, x) <= Dist(k * w, x)
    ensures k * w != m * w && Dist(m * w, x) == Dist(k * w, x) ==> m % 2 == 0
  {
    if k > m {
      MulMono(m + 1, k, w);
      NextMultiple(m, w);
    } else if k < m {
      MulMono(k + 1, m, w);
      NextMultiple(k, w);
    }
    NearestOfTwo(x, w, sign, m, m * w, k * w);
  }

  lemma NearestOfTwo(x: nat, w: nat, sign: bool, m: nat, p: nat, b: nat)
    requires RoundsAt(x, w, sign, Nearest, m, p) && (b == p || b + w <= p || p + w <= b)
    ensures Dist(p, x) <= Dist(b, x) && (b != p && Dist(p, x) == Dist(b, x) ==> m % 2 == 0)
  {
  }

  lemma WrongNearest(x: nat, u: nat, sign: bool, m: nat, v: nat)
    requires u > 0 && RoundsTo(x, u, sign, Nearest, m) && v != m
    ensures Dist(v * u, x) > Dist(m * u, x) || (Dist(v * u, x) == Dist(m * u, x) && v * u != m * u && v % 2 == 1)
  {
    NearestMultiple(x, u, sign, m, v);
    MulCancel(u, v, m);
    if m % 2 == 0 && v % 2 == 0 {
      SameParity(x, u, sign, m, v);
    }
  }

  lemma WrongDirected(x: nat, u: nat, sign: bool, mode: Mode, m: nat, v: nat)
    requires u > 0 && mode != Nearest && RoundsTo(x, u, sign, mode, m) && v != m
    ensures AwayFromZero(mode, sign) ==> m * u >= x && (v * u < x || v > m)
    ensures !AwayFromZero(mode, sign) ==> m * u <= x && (v * u > x || v < m)
  {
    if AwayFromZero(mode, sign) && x <= v * u {
      NotPast(m, v, u);
    }
    if !AwayFromZero(mode, sign) && v * u <= x {
      NotPast(v, m, u);
    }
  }

  /** Two neighbours as close as each other are not both even. */
  lemma SameParity(x: nat, u: nat, sign: bool, m: nat, v: nat)
    requires u > 0 && RoundsTo(x, u, sign, Nearest, m) && v != m && m % 2 == 0 && v % 2 == 0
    ensures Dist(v * u, x) > Dist(m * u, x)
  {
    if v > m {
      MulMono(m + 2, v, u);
      NextMultiple(m, u);
      NextMultiple(m + 1, u);
    } else {
      MulMono(v + 2, m, u);
      NextMultiple(v, u);
      NextMultiple(v + 1, u);
    }
  }

  lemma Remainder(i: nat, d: nat, q: nat, r: nat)
    requires i == q * d + r && r < d
    ensures i / d == q && i % d == r
  {
    var a, b := Division(i, d);
    if a < q {
      MulMono(a + 1, q, d);
      NextMultiple(a, d);
    } else if a > q {
      MulMono(q + 1, a, d);
      NextMultiple(q, d);
    }
  }
}
