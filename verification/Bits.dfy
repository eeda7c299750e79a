/** Machine-word operations on natural numbers.

    A word of `width` bits is a natural number below `Pow2(width)`.  `And` and `Or` are the
    bitwise operations (`AndBits` and `OrBits` say so bit by bit); the lemmas after them say
    what the masks used by the library compute in ordinary arithmetic. */
module Bits {

  function Pow2(n: nat): (r: nat)
    ensures r > 0
  {
    if n == 0 then 1 else 2 * Pow2(n - 1)
  }

  /** C's `x >> n` on an unsigned word. */
  function Shr(x: nat, n: nat): nat {
    if n == 0 then x else Shr(x / 2, n - 1)
  }

  /** The low `n` bits of a word. */
  function Low(x: nat, n: nat): (r: nat)
    ensures r < Pow2(n)
  {
    if n == 0 then 0 else 2 * Low(x / 2, n - 1) + x % 2
  }

  /** C's `x << n` on an unsigned word of `width` bits. */
  function Shl(width: nat, x: nat, n: nat): nat {
    Low(x * Pow2(n), width)
  }

  /** C's `~x` on a word of `width` bits. */
  function Not(width: nat, x: nat): nat
    requires x < Pow2(width)
  {
    Pow2(width) - 1 - x
  }

  function And(x: nat, y: nat): nat {
    if x == 0 || y == 0 then 0
    else (if x % 2 == 1 && y % 2 == 1 then 1 else 0) + 2 * And(x / 2, y / 2)
  }

  function Or(x: nat, y: nat): nat {
    if x == 0 then y
    else if y == 0 then x
    else (if x % 2 == 1 || y % 2 == 1 then 1 else 0) + 2 * Or(x / 2, y / 2)
  }

  predicate Bit(x: nat, i: nat) {
    Shr(x, i) % 2 == 1
  }

  // ----- Powers of two, quotients and remainders -----

  lemma {:induction false} Pow2Add(a: nat, b: nat)
    ensures Pow2(a + b) == Pow2(a) * Pow2(b)
  {
    if a != 0 {
      Pow2Add(a - 1, b);
    }
  }

  lemma {:induction false} Pow2Mono(a: nat, b: nat)
    requires a <= b
    ensures Pow2(a) <= Pow2(b)
    ensures a < b ==> 2 * Pow2(a) <= Pow2(b)
  {
    if a < b {
      Pow2Mono(a, b - 1);
    }
  }

  lemma Pow2Next(n: nat)
    ensures Pow2(n + 1) == 2 * Pow2(n) && Pow2(n + 2) == 4 * Pow2(n)
  {
  }

  /** The powers that the sources use. */
  lemma Powers()
    ensures Pow2(0) == 1 && Pow2(1) == 2 && Pow2(2) == 4 && Pow2(3) == 8 && Pow2(4) == 16 && Pow2(5) == 32
    ensures Pow2(8) == 0x100 && Pow2(10) == 0x400 && Pow2(11) == 0x800 && Pow2(12) == 0x1000
    ensures Pow2(13) == 0x2000 && Pow2(14) == 0x4000 && Pow2(15) == 0x8000 && Pow2(16) == 0x1_0000
    ensures Pow2(17) == 0x2_0000 && Pow2(23) == 0x80_0000 && Pow2(24) == 0x100_0000
    ensures Pow2(28) == 0x1000_0000 && Pow2(31) == 0x8000_0000 && Pow2(32) == 0x1_0000_0000
    ensures Pow2(50) == 0x4_0000_0000_0000 && Pow2(64) == 0x1_0000_0000_0000_0000
  {
    assert Pow2(8) == 0x100;
    assert Pow2(16) == 0x1_0000;
    assert Pow2(24) == 0x100_0000;
    assert Pow2(32) == 0x1_0000_0000;
    assert Pow2(40) == 0x100_0000_0000;
    assert Pow2(48) == 0x1_0000_0000_0000;
    assert Pow2(56) == 0x100_0000_0000_0000;
  }

  lemma TwiceProduct(a: int, b: int)
    ensures a * (2 * b) == 2 * (a * b)
  {
  }

  lemma {:induction false} Split(x: nat, n: nat)
    ensures x == Shr(x, n) * Pow2(n) + Low(x, n)
  {
    if n != 0 {
      Split(x / 2, n - 1);
      TwiceProduct(Shr(x, n), Pow2(n - 1));
    }
  }

  /** Quotient and remainder are determined by `x == q * 2^n + r`. */
  lemma {:induction false} Join(q: nat, r: nat, n: nat)
    requires r < Pow2(n)
    ensures Shr(q * Pow2(n) + r, n) == q && Low(q * Pow2(n) + r, n) == r
  {
    if n != 0 {
      var x := q * Pow2(n) + r;
      TwiceProduct(q, Pow2(n - 1));
      assert x / 2 == q * Pow2(n - 1) + r / 2 && x % 2 == r % 2;
      Join(q, r / 2, n - 1);
    }
  }

  lemma LowSmall(x: nat, n: nat)
    requires x < Pow2(n)
    ensures Low(x, n) == x && Shr(x, n) == 0
  {
    Join(0, x, n);
  }

  lemma {:induction false} ShrShr(x: nat, a: nat, b: nat)
    ensures Shr(Shr(x, a), b) == Shr(x, a + b)
  {
    if a != 0 {
      ShrShr(x / 2, a - 1, b);
    }
  }

  /** A word below `2^(a+b)` shifted right by `a` is below `2^b`. */
  lemma ShrBound(x: nat, a: nat, b: nat)
    requires x < Pow2(a + b)
    ensures Shr(x, a) < Pow2(b)
  {
    Split(x, a);
    Pow2Add(a, b);
    if Shr(x, a) >= Pow2(b) {
      MulMono(Pow2(b), Shr(x, a), Pow2(a));
    }
  }

  lemma MulMono(a: int, b: int, c: nat)
    requires a <= b
    ensures a * c <= b * c
  {
  }

  lemma MulDistributes(a: int, b: int, c: int)
    ensures (a + b) * c == a * c + b * c
  {
  }

  lemma MulAssoc(a: int, b: int, c: int)
    ensures a * b * c == a * (b * c)
  {
  }

  lemma MulStep(a: int, b: int, c: nat)
    requires a < b
    ensures a * c + c <= b * c
  {
    MulMono(a + 1, b, c);
    MulDistributes(a, 1, c);
  }

  /** Division of naturals. */
  function Div(x: nat, d: nat): (q: nat)
    requires d > 0
    ensures q * d <= x < q * d + d
  {
    if x < d then 0 else
      var q := Div(x - d, d);
      assert (q + 1) * d == q * d + d;
      q + 1
  }

  lemma DivUnique(x: nat, d: nat, q: nat)
    requires d > 0 && q * d <= x < q * d + d
    ensures Div(x, d) == q
  {
    if Div(x, d) < q {
      MulStep(Div(x, d), q, d);
    } else if Div(x, d) > q {
      MulStep(q, Div(x, d), d);
    }
  }

  /** The two parts of a word as quotient and remainder. */
  lemma Part(x: nat, n: nat)
    ensures Shr(x, n) == x / Pow2(n) && Low(x, n) == x % Pow2(n)
  {
    hide Low, Shr, Pow2;
    Split(x, n);
    QuotientRemainder(x, Shr(x, n), Low(x, n), Pow2(n));
  }

  lemma QuotientRemainder(x: nat, q: nat, r: nat, p: nat)
    requires x == q * p + r && r < p
    ensures x / p == q && x % p == r
  {
    if x / p < q {
      MulStep(x / p, q, p);
    } else if q < x / p {
      MulStep(q, x / p, p);
    }
  }

  /** `n * 2^j`, by doubling. */
  function Scale(n: nat, j: nat): nat {
    if j == 0 then n else 2 * Scale(n, j - 1)
  }

  lemma {:induction false} ScaleIsProduct(n: nat, j: nat)
    ensures Scale(n, j) == n * Pow2(j)
  {
    if j != 0 {
      ScaleIsProduct(n, j - 1);
      TwiceProduct(n, Pow2(j - 1));
    }
  }

  lemma {:induction false} ScaleScale(n: nat, i: nat, j: nat)
    ensures Scale(Scale(n, i), j) == Scale(n, i + j)
  {
    if j != 0 {
      ScaleScale(n, i, j - 1);
    }
  }

  lemma {:induction false} ScaleStrict(a: nat, b: nat, j: nat)
    requires a < b
    ensures Scale(a, j) < Scale(b, j)
  {
    if j != 0 {
      ScaleStrict(a, b, j - 1);
    }
  }

  // ----- What the bitwise operations mean -----

  lemma AndStep(x: nat, y: nat)
    ensures And(x, y) % 2 == (if x % 2 == 1 && y % 2 == 1 then 1 else 0)
    ensures And(x, y) / 2 == And(x / 2, y / 2)
  {
  }

  lemma OrStep(x: nat, y: nat)
    ensures Or(x, y) % 2 == (if x % 2 == 1 || y % 2 == 1 then 1 else 0)
    ensures Or(x, y) / 2 == Or(x / 2, y / 2)
  {
  }

  lemma {:induction false} AndBits(x: nat, y: nat, i: nat)
    ensures Bit(And(x, y), i) <==> Bit(x, i) && Bit(y, i)
  {
    AndStep(x, y);
    if i > 0 {
      AndBits(x / 2, y / 2, i - 1);
    }
  }

  lemma {:induction false} OrBits(x: nat, y: nat, i: nat)
    ensures Bit(Or(x, y), i) <==> Bit(x, i) || Bit(y, i)
  {
    OrStep(x, y);
    if i > 0 {
      OrBits(x / 2, y / 2, i - 1);
    }
  }

  lemma {:induction false} ShrBits(x: nat, n: nat, i: nat)
    ensures Bit(Shr(x, n), i) <==> Bit(x, n + i)
  {
    ShrShr(x, n, i);
  }

  lemma {:induction false} LowBits(x: nat, n: nat, i: nat)
    ensures Bit(Low(x, n), i) <==> i < n && Bit(x, i)
  {
    if n == 0 {
      ZeroBits(i);
    } else if i > 0 {
      LowBits(x / 2, n - 1, i - 1);
    }
  }

  lemma {:induction false} ZeroBits(i: nat)
    ensures !Bit(0, i)
  {
    if i > 0 {
      ZeroBits(i - 1);
    }
  }

  lemma {:induction false} ProductBits(x: nat, n: nat, i: nat)
    ensures Bit(x * Pow2(n), i) <==> i >= n && Bit(x, i - n)
  {
    if n > 0 {
      TwiceProduct(x, Pow2(n - 1));
      if i > 0 {
        ProductBits(x, n - 1, i - 1);
      }
    }
  }

  lemma ShlBits(width: nat, x: nat, n: nat, i: nat)
    ensures Bit(Shl(width, x, n), i) <==> n <= i < width && Bit(x, i - n)
  {
    LowBits(x * Pow2(n), width, i);
    ProductBits(x, n, i);
  }

  lemma {:induction false} NotBits(width: nat, x: nat, i: nat)
    requires x < Pow2(width)
    ensures Bit(Not(width, x), i) <==> i < width && !Bit(x, i)
  {
    if width == 0 {
      ZeroBits(i);
    } else {
      assert Not(width, x) / 2 == Not(width - 1, x / 2) && Not(width, x) % 2 == 1 - x % 2;
      if i > 0 {
        NotBits(width - 1, x / 2, i - 1);
      }
    }
  }

  lemma MaskBits(n: nat, s: nat, i: nat)
    ensures Bit(FieldMask(n, s), i) <==> n <= i < n + s
  {
    ProductBits(Pow2(s) - 1, n, i);
    if i >= n {
      NotBits(s, 0, i - n);
      ZeroBits(i - n);
    }
  }

  /** A word is determined by its bits. */
  lemma {:induction false} SameBits(x: nat, y: nat)
    requires forall i: nat :: Bit(x, i) <==> Bit(y, i)
    ensures x == y
  {
    assert Bit(x, 0) <==> Bit(y, 0);
    if x != 0 || y != 0 {
      forall i: nat ensures Bit(x / 2, i) <==> Bit(y / 2, i) {
        assert Bit(x, i + 1) <==> Bit(y, i + 1);
      }
      SameBits(x / 2, y / 2);
    }
  }

  /** A word is below `2^n` exactly when its bits from `n` on are clear. */
  lemma BoundBits(x: nat, n: nat)
    ensures x < Pow2(n) <==> forall i: nat | i >= n :: !Bit(x, i)
  {
    if x < Pow2(n) {
      LowSmall(x, n);
      forall i: nat | i >= n ensures !Bit(x, i) {
        LowBits(x, n, i);
      }
    } else if forall i: nat | i >= n :: !Bit(x, i) {
      forall i: nat ensures Bit(x, i) <==> Bit(Low(x, n), i) {
        LowBits(x, n, i);
      }
      SameBits(x, Low(x, n));
    }
  }

  // ----- What the masks compute -----

  lemma ShrLowStep(x: nat, n: nat)
    requires n > 0
    ensures Shr(x, n) == Shr(x / 2, n - 1)
    ensures Low(x, n) / 2 == Low(x / 2, n - 1) && Low(x, n) % 2 == x % 2
  {
  }

  /** `And` works on the two parts of its operands separately. */
  lemma {:induction false} AndParts(x: nat, y: nat, n: nat)
    ensures Shr(And(x, y), n) == And(Shr(x, n), Shr(y, n))
    ensures Low(And(x, y), n) == And(Low(x, n), Low(y, n))
  {
    if n > 0 {
      hide And, Shr, Low, Pow2;
      var z := And(x, y);
      ShrLowStep(x, n);
      ShrLowStep(y, n);
      ShrLowStep(z, n);
      AndStep(x, y);
      AndStep(Low(x, n), Low(y, n));
      AndParts(x / 2, y / 2, n - 1);
    }
  }

  lemma {:induction false} AndOnes(x: nat, n: nat)
    ensures And(x, Pow2(n) - 1) == Low(x, n)
  {
    if n != 0 {
      assert (Pow2(n) - 1) / 2 == Pow2(n - 1) - 1 && (Pow2(n) - 1) % 2 == 1;
      AndOnes(x / 2, n - 1);
      AndStep(x, Pow2(n) - 1);
    }
  }

  /** The `s` bits of a word that start at bit `n`. */
  function Slice(x: nat, n: nat, s: nat): nat {
    Low(Shr(x, n), s)
  }

  /** The mask `((1 << s) - 1) << n`. */
  function FieldMask(n: nat, s: nat): nat {
    var ones: nat := Pow2(s) - 1;
    ones * Pow2(n)
  }

  lemma FieldMaskBound(n: nat, s: nat, width: nat)
    requires n + s <= width
    ensures FieldMask(n, s) + Pow2(n) <= Pow2(width)
  {
    var ones: nat, p := Pow2(s) - 1, Pow2(n);
    assert ones * p + p == (ones + 1) * p;
    Pow2Add(s, n);
    Pow2Mono(s + n, width);
  }

  /** Masking with a field mask keeps exactly the field. */
  lemma AndField(x: nat, n: nat, s: nat)
    ensures And(x, FieldMask(n, s)) == Slice(x, n, s) * Pow2(n)
  {
    var mask := FieldMask(n, s);
    Join(Pow2(s) - 1, 0, n);
    AndParts(x, mask, n);
    AndOnes(Shr(x, n), s);
    Split(And(x, mask), n);
  }

  lemma {:induction false} AndPlusOr(x: nat, y: nat)
    ensures And(x, y) + Or(x, y) == x + y
  {
    if x != 0 && y != 0 {
      AndPlusOr(x / 2, y / 2);
    }
  }

  /** `|` of a word whose low `n` bits are clear with a word below `2^n` is addition. */
  lemma OrLow(hi: nat, lo: nat, n: nat)
    requires lo < Pow2(n)
    ensures Or(hi * Pow2(n), lo) == hi * Pow2(n) + lo
  {
    var h := hi * Pow2(n);
    Join(hi, 0, n);
    LowSmall(lo, n);
    AndParts(h, lo, n);
    Split(And(h, lo), n);
    AndPlusOr(h, lo);
  }

  lemma {:induction false} OrComm(x: nat, y: nat)
    ensures Or(x, y) == Or(y, x)
  {
    if x != 0 && y != 0 {
      OrComm(x / 2, y / 2);
    }
  }
}
