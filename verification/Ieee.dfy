/** IEEE 754-2008 binary formats (section 3.4) on scaled integers.

    A format with `t` trailing significand bits encodes a non-negative number as a bit pattern
    `m`; `Mag(t, m)` is that number counted in units of the smallest subnormal.  `Round` is
    roundTiesToEven (section 4.3.1) of a number `x` counted in units `d` times finer.  Both
    follow the binades: adding `2^t` to a pattern of a normal number doubles the number. */
module Ieee {
  import opened Bits

  function Mag(t: nat, m: nat): nat {
    if m < Pow2(t + 1) then m else 2 * Mag(t, m - Pow2(t))
  }

  /** The integer nearest to `x / d`, the even one if two are equally near. */
  function RoundHalfEven(x: nat, d: nat): nat
    requires d > 0
  {
    var q := Div(x, d);
    var rest := x - q * d;
    if 2 * rest < d || (2 * rest == d && q % 2 == 0) then q else q + 1
  }

  function Round(t: nat, x: nat, d: nat): nat
    requires d > 0
    decreases if x > d then x - d else 0
  {
    if x < Pow2(t + 1) * d then RoundHalfEven(x, d)
    else
      assert Pow2(t + 1) * d >= 2 * d by { MulMono(2, Pow2(t + 1), d); }
      Pow2(t) + Round(t, x, 2 * d)
  }

  // ----- The encoding -----

  /** `Mag` is the value of the exponent field `e` and the trailing significand `f`. */
  lemma {:induction false} MagDecode(t: nat, e: nat, f: nat)
    requires f < Pow2(t)
    ensures Mag(t, e * Pow2(t) + f) == if e == 0 then f else (Pow2(t) + f) * Pow2(e - 1)
  {
    if e > 1 {
      var m := e * Pow2(t) + f;
      assert m - Pow2(t) == (e - 1) * Pow2(t) + f;
      MulMono(2, e, Pow2(t));
      MagDecode(t, e - 1, f);
      TwiceProduct(Pow2(t) + f, Pow2(e - 2));
    } else {
      assert e * Pow2(t) == if e == 0 then 0 else Pow2(t);
    }
  }

  lemma PowerPattern(t: nat, e: nat)
    requires e > 0
    ensures Mag(t, e * Pow2(t)) == Pow2(t + e - 1)
  {
    MagDecode(t, e, 0);
    Pow2Add(t, e - 1);
  }

  lemma {:induction false} MagLower(t: nat, m: nat)
    requires m >= Pow2(t + 1)
    ensures Mag(t, m) >= Pow2(t + 1)
  {
    if m - Pow2(t) >= Pow2(t + 1) {
      MagLower(t, m - Pow2(t));
    }
  }

  lemma {:induction false} MagStrict(t: nat, a: nat, b: nat)
    requires a < b
    ensures Mag(t, a) < Mag(t, b)
  {
    if b >= Pow2(t + 1) {
      if a >= Pow2(t + 1) {
        MagStrict(t, a - Pow2(t), b - Pow2(t));
      } else {
        MagLower(t, b);
      }
    }
  }

  // ----- Rounding -----

  function Dist(a: int, b: int): nat {
    if a < b then b - a else a - b
  }

  /** `m` is at least as good an approximation of `x` as `k`. */
  ghost predicate Beats(t: nat, x: nat, d: nat, m: nat, k: nat) {
    k != m ==>
      Dist(Mag(t, m) * d, x) <= Dist(Mag(t, k) * d, x) &&
      (Dist(Mag(t, m) * d, x) == Dist(Mag(t, k) * d, x) ==> m % 2 == 0)
  }

  /** Among the patterns up to `cap`, `m` is the nearest to `x`, and even if there is a tie. */
  ghost predicate Nearest(t: nat, cap: nat, x: nat, d: nat, m: nat) {
    m <= cap && forall k: nat | k <= cap :: Beats(t, x, d, m, k)
  }

  /** The same without a largest pattern. */
  ghost predicate NearestUnbounded(t: nat, x: nat, d: nat, m: nat) {
    forall k: nat :: Beats(t, x, d, m, k)
  }

  lemma RoundHalfEvenNearest(x: nat, d: nat, k: nat)
    requires d > 0
    ensures var r := RoundHalfEven(x, d);
      k != r ==> Dist(r * d, x) <= Dist(k * d, x) && (Dist(r * d, x) == Dist(k * d, x) ==> r % 2 == 0)
  {
    hide Div;
    var q := Div(x, d);
    assert (q + 1) * d == q * d + d;
    if k < q {
      MulStep(k, q, d);
    } else if k > q + 1 {
      MulStep(q + 1, k, d);
    }
  }

  lemma RoundHalfEvenBounds(x: nat, d: nat, lo: nat, hi: nat)
    requires d > 0 && lo * d <= x <= hi * d
    ensures lo <= RoundHalfEven(x, d) <= hi
  {
    var q := Div(x, d);
    if q < lo {
      MulStep(q, lo, d);
    } else if q > hi {
      MulStep(hi, q, d);
    }
  }

  lemma {:induction false} RoundLower(t: nat, x: nat, d: nat)
    requires d > 0 && x >= Pow2(t) * d
    ensures Round(t, x, d) >= Pow2(t)
  {
    if x < Pow2(t + 1) * d {
      RoundHalfEvenBounds(x, d, Pow2(t), Pow2(t + 1));
    }
  }

  /** Below the normal numbers rounding is to a multiple of the unit. */
  lemma RoundSubnormal(t: nat, x: nat, d: nat)
    requires d > 0 && x < Pow2(t) * d
    ensures Round(t, x, d) == RoundHalfEven(x, d) <= Pow2(t)
  {
    MulMono(Pow2(t), Pow2(t + 1), d);
    RoundHalfEvenBounds(x, d, 0, Pow2(t));
  }

  /** `Round` is correctly rounded, in every format: its result is nearest among all patterns. */
  lemma {:induction false} RoundNearest(t: nat, x: nat, d: nat)
    requires t > 0 && d > 0
    ensures NearestUnbounded(t, x, d, Round(t, x, d))
    decreases if x > d then x - d else 0
  {
    if x < Pow2(t + 1) * d {
      forall k: nat ensures Beats(t, x, d, Round(t, x, d), k) {
        LowestBinade(t, x, d, k);
      }
    } else {
      MulMono(2, Pow2(t + 1), d);
      RoundNearest(t, x, 2 * d);
      forall k: nat ensures Beats(t, x, d, Round(t, x, d), k) {
        HigherBinade(t, x, d, k);
      }
    }
  }

  lemma LowestBinade(t: nat, x: nat, d: nat, k: nat)
    requires d > 0 && x < Pow2(t + 1) * d
    ensures Beats(t, x, d, RoundHalfEven(x, d), k)
  {
    var m, top := RoundHalfEven(x, d), Pow2(t + 1);
    RoundHalfEvenBounds(x, d, 0, top);
    assert Mag(t, m) == m && Mag(t, top) == top;
    if k <= top {
      RoundHalfEvenNearest(x, d, k);
    } else {
      RoundHalfEvenNearest(x, d, top);
      MagStrict(t, top, k);
      MulStep(top, Mag(t, k), d);
    }
  }

  /** Doubling the unit moves a pattern down one binade. */
  lemma NextBinade(t: nat, m: nat, d: nat)
    requires m >= Pow2(t)
    ensures Mag(t, m) * (2 * d) == Mag(t, m + Pow2(t)) * d
  {
    TwiceProduct(Mag(t, m), d);
    MulAssoc(2, Mag(t, m), d);
  }

  lemma BeatsNextBinade(t: nat, x: nat, d: nat, m: nat, k: nat)
    requires t > 0 && m >= Pow2(t) && k >= Pow2(t) && Beats(t, x, 2 * d, m, k)
    ensures Beats(t, x, d, m + Pow2(t), k + Pow2(t))
  {
    hide Mag;
    NextBinade(t, m, d);
    NextBinade(t, k, d);
    assert Pow2(t) == 2 * Pow2(t - 1);
  }

  /** Below the binade of `x` no pattern is closer than the first one of the binade. */
  lemma BeatsBelow(t: nat, x: nat, d: nat, m: nat, k: nat)
    requires d > 0 && k < Pow2(t + 1) && x >= Pow2(t + 1) * d
    requires Beats(t, x, d, m, Pow2(t + 1))
    ensures Beats(t, x, d, m, k)
  {
    var top := Pow2(t + 1);
    assert Mag(t, top) == top;
    MulStep(k, top, d);
  }

  lemma HigherBinade(t: nat, x: nat, d: nat, k: nat)
    requires t > 0 && d > 0 && x >= Pow2(t + 1) * d
    requires NearestUnbounded(t, x, 2 * d, Round(t, x, 2 * d))
    ensures Beats(t, x, d, Round(t, x, d), k)
  {
    var m, low := Round(t, x, 2 * d), Pow2(t);
    assert Round(t, x, d) == m + low;
    assert m >= low by {
      TwiceProduct(low, d);
      MulAssoc(2, low, d);
      RoundLower(t, x, 2 * d);
    }
    if k < 2 * low {
      BeatsNextBinade(t, x, d, m, low);
      BeatsBelow(t, x, d, m + low, k);
    } else {
      BeatsNextBinade(t, x, d, m, k - low);
    }
  }

  // ----- Computing a rounding -----

  /** Rounding commutes with adding an even multiple of the unit. */
  lemma RoundHalfEvenShift(x: nat, d: nat, k: nat, y: nat)
    requires d > 0 && k % 2 == 0 && y == x + k * d
    ensures RoundHalfEven(y, d) == RoundHalfEven(x, d) + k
  {
    hide Div;
    var q := Div(x, d);
    MulDistributes(q, k, d);
    DivUnique(y, d, q + k);
  }

  /** Rounding depends only on the ratio of the number and the unit. */
  lemma RoundHalfEvenDouble(x: nat, d: nat)
    requires d > 0
    ensures RoundHalfEven(2 * x, 2 * d) == RoundHalfEven(x, d)
  {
    var q := Div(x, d);
    TwiceProduct(q, d);
    DivUnique(2 * x, 2 * d, q);
  }

  lemma {:induction false} RoundBinade(t: nat, x: nat, d: nat, j: nat)
    requires d > 0
    requires j == 0 || Pow2(t + j) * d <= x
    requires x < Pow2(t + 1 + j) * d
    ensures Pow2(j) * d > 0
    ensures Round(t, x, d) == j * Pow2(t) + RoundHalfEven(x, Pow2(j) * d)
    decreases j
  {
    MulMono(1, Pow2(j), d);
    if j > 0 {
      Pow2Mono(t + 1, t + j);
      MulMono(Pow2(t + 1), Pow2(t + j), d);
      TwiceProduct(Pow2(t + j), d);
      MulAssoc(2, Pow2(t + j), d);
      TwiceProduct(Pow2(t + j - 1), d);
      MulAssoc(2, Pow2(t + j - 1), d);
      TwiceProduct(Pow2(j - 1), d);
      MulAssoc(2, Pow2(j - 1), d);
      RoundBinade(t, x, 2 * d, j - 1);
      assert (j - 1) * Pow2(t) + Pow2(t) == j * Pow2(t);
    }
  }

  /** Every number of the format is a significand of `t + 1` bits times a power of two. */
  lemma {:induction false} MagParts(t: nat, m: nat) returns (n: nat, j: nat)
    ensures n < Pow2(t + 1) && Mag(t, m) == Scale(n, j)
  {
    if m < Pow2(t + 1) {
      n, j := m, 0;
    } else {
      n, j := MagParts(t, m - Pow2(t));
      j := j + 1;
    }
  }

  /** Conversely, such a product is not changed by rounding. */
  lemma {:induction false} RoundExact(t: nat, n: nat, j: nat, d: nat)
    requires d > 0 && n < Pow2(t + 1)
    ensures Mag(t, Round(t, Scale(n, j) * d, d)) == Scale(n, j)
    decreases j
  {
    var v := Scale(n, j);
    if v * d < Pow2(t + 1) * d {
      if v >= Pow2(t + 1) {
        MulMono(Pow2(t + 1), v, d);
      }
      RoundHalfEvenBounds(v * d, d, v, v);
    } else {
      assert j > 0 by {
        if j == 0 {
          MulStep(n, Pow2(t + 1), d);
        }
      }
      var v' := Scale(n, j - 1);
      TwiceProduct(v', d);
      MulAssoc(2, v', d);
      RoundExact(t, n, j - 1, 2 * d);
      TwiceProduct(Pow2(t), d);
      MulAssoc(2, Pow2(t), d);
      RoundLower(t, v * d, 2 * d);
    }
  }

  /** Cutting off at an even pattern `cap` keeps the rounding correct below it. */
  lemma NearestCap(t: nat, cap: nat, x: nat, d: nat, m: nat)
    requires d > 0 && cap % 2 == 0 && NearestUnbounded(t, x, d, m)
    ensures Nearest(t, cap, x, d, if m <= cap then m else cap)
  {
    if m > cap {
      assert Beats(t, x, d, m, cap);
      MagStrict(t, cap, m);
      MulStep(Mag(t, cap), Mag(t, m), d);
      forall k: nat | k <= cap ensures Beats(t, x, d, cap, k) {
        if k < cap {
          MagStrict(t, k, cap);
          MulStep(Mag(t, k), Mag(t, cap), d);
        }
      }
    }
  }

  /** Larger patterns are larger numbers. */
  lemma ScaledStrict(t: nat, a: nat, b: nat, d: nat)
    requires a < b
    ensures Mag(t, a) * d + d <= Mag(t, b) * d
  {
    MagStrict(t, a, b);
    MulStep(Mag(t, a), Mag(t, b), d);
  }

  /** Rounding never reverses an order; this holds of every correctly rounded result. */
  lemma NearestMonotone(t: nat, cap: nat, x: nat, y: nat, d: nat, m: nat, n: nat)
    requires d > 0 && x <= y
    requires Nearest(t, cap, x, d, m) && Nearest(t, cap, y, d, n)
    ensures m <= n
  {
    hide Mag, Pow2;
    if n < m {
      assert Beats(t, x, d, m, n) && Beats(t, x, d, m, n + 1) && Beats(t, y, d, n, m);
      ScaledStrict(t, n, m, d);
      if n + 1 < m {
        // crossed roundings would both be ties, with `n + 1` closer than either
        ScaledStrict(t, n, n + 1, d);
        ScaledStrict(t, n + 1, m, d);
      }
    }
  }

  lemma NearestUnique(t: nat, cap: nat, x: nat, d: nat, m: nat, n: nat)
    requires d > 0 && Nearest(t, cap, x, d, m) && Nearest(t, cap, x, d, n)
    ensures m == n
  {
    NearestMonotone(t, cap, x, x, d, m, n);
    NearestMonotone(t, cap, x, x, d, n, m);
  }

  /** A number that the format holds is its own rounding. */
  lemma NearestExact(t: nat, cap: nat, d: nat, m: nat, n: nat)
    requires d > 0 && m <= cap && Nearest(t, cap, Mag(t, m) * d, d, n)
    ensures m == n
  {
    hide Mag, Pow2;
    assert Beats(t, Mag(t, m) * d, d, n, m);
    if m < n {
      ScaledStrict(t, m, n, d);
    } else if n < m {
      ScaledStrict(t, n, m, d);
    }
  }
}
