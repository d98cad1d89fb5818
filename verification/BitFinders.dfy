/** The divide-and-conquer bit finders and the rounding to powers of two, for a word of `Pow2(n)` bits: the macros
    for 2, 4, 8, 16, 32 and 64 bits are those of `n` from 1 to 6. */
module BitFinders {
  import opened Bytes
  import opened Division

  // --- the macros -----------------------------------------------------------------------

  /** How many values a word has. */
  function Values(n: nat): (w: nat)
    ensures w > 0
  {
    Pow2(Pow2(n))
  }

  /** Goes on in the upper half of the word, if any bit is set there, and else in the lower half. */
  function FindLast(n: nat, a: nat, r: nat): nat {
    if n == 0 then r
    else if Quotient(a, Values(n - 1)) % Values(n - 1) != 0 then
      FindLast(n - 1, Quotient(a, Values(n - 1)), r + Pow2(n - 1))
    else FindLast(n - 1, a, r)
  }

  /** Goes on in the lower half of the word, if any bit is set there, and else in the upper half. */
  function FindFirst(n: nat, a: nat, r: nat): nat {
    if n == 0 then r
    else if a % Values(n - 1) != 0 then FindFirst(n - 1, a, r)
    else FindFirst(n - 1, Quotient(a, Values(n - 1)), r + Pow2(n - 1))
  }

  function FindLastBit(n: nat, a: nat): nat { if a != 0 then FindLast(n, a, 1) else 0 }

  function FindFirstBit(n: nat, a: nat): nat { if a != 0 then FindFirst(n, a, 1) else 0 }

  function RoundUpPowerOfTwo(n: nat, a: nat): nat {
    Remainder(Pow2(FindLastBit(n, Remainder(a - 1, Values(n)))), Values(n))
  }

  function RoundDownPowerOfTwo(n: nat, a: nat): nat
    requires FindLastBit(n, a) > 0
  {
    Remainder(Pow2(FindLastBit(n, a) - 1), Values(n))
  }

  // --- powers of two ----------------------------------------------------------------------

  lemma {:induction false} PowAdd(m: nat, n: nat)
    ensures Pow2(m + n) == Pow2(m) * Pow2(n)
  {
    if m > 0 {
      PowAdd(m - 1, n);
      Regroup(Pow2(m - 1), Pow2(n));
    }
  }

  lemma {:induction false} Regroup(x: nat, y: nat)
    ensures 2 * (x * y) == 2 * x * y
  {
  }

  lemma {:induction false} PowGrows(m: nat, n: nat)
    requires m <= n
    ensures Pow2(m) <= Pow2(n)
  {
    if m < n { PowGrows(m, n - 1); }
  }

  lemma {:induction false} WordSquare(n: nat)
    requires n > 0
    ensures Values(n) == Values(n - 1) * Values(n - 1)
  {
    PowAdd(Pow2(n - 1), Pow2(n - 1));
  }

  lemma {:induction false} SplitAt(a: nat, d: nat)
    requires d > 0
    ensures a == d * (a / d) + a % d && 0 <= a % d < d
  {
  }

  lemma {:induction false} SmallModulo(a: nat, d: nat)
    requires a < d
    ensures Remainder(a, d) == a
  {
  }

  lemma {:induction false} NoRemainder(d: nat)
    requires d > 0
    ensures Remainder(d, d) == 0
  {
  }

  /** What an unsigned variable of `d` values holds below 0. */
  lemma {:induction false} BelowZero(d: nat)
    requires d > 0
    ensures Remainder(-1, d) == d - 1
  {
  }

  /** The upper half of a word that fits: it fits half a word, and is set exactly if the word has more than half. */
  lemma {:induction false} UpperHalf(a: nat, p: nat)
    requires p > 0 && a < p * p
    ensures var u := Quotient(a, p); u < p && u % p == u && (u == 0 <==> a < p)
  {
    SplitAt(a, p);
    var u := Quotient(a, p);
    if u >= p { Products(p, p, u); }
    if u >= 1 { Products(p, 1, u); }
    SmallModulo(u, p);
  }

  lemma {:induction false} Products(p: nat, x: nat, y: nat)
    requires x <= y
    ensures p * x <= p * y
  {
    if x < y { MulLess(p, x, y); }
  }

  // --- the highest set bit --------------------------------------------------------------

  /** A bound on the upper half is a bound on the word. */
  lemma {:induction false} BoundsScale(a: nat, p: nat, low: nat, high: nat)
    requires p > 0 && low <= a / p < high
    ensures low * p <= a < high * p
  {
    SplitAt(a, p);
    Products(p, low, a / p);
    Products(p, a / p + 1, high);
  }

  lemma {:induction false} LastStep(a: nat, h: nat, d: nat)
    requires Pow2(d) <= a / Pow2(h) < Pow2(d + 1)
    ensures Pow2(d + h) <= a < Pow2(d + h + 1)
  {
    BoundsScale(a, Pow2(h), Pow2(d), Pow2(d + 1));
    PowAdd(d, h);
    PowAdd(d + 1, h);
  }

  /** At every width the finder adds the logarithm. */
  lemma {:induction false} LastIsLog(n: nat, a: nat, r: nat)
    requires 1 <= a < Values(n)
    ensures FindLast(n, a, r) >= r
    ensures Pow2(FindLast(n, a, r) - r) <= a < Pow2(FindLast(n, a, r) - r + 1)
  {
    if n > 0 {
      var h := Pow2(n - 1);
      WordSquare(n);
      UpperHalf(a, Values(n - 1));
      if a >= Values(n - 1) {
        var upper := Quotient(a, Values(n - 1));
        LastIsLog(n - 1, upper, r + h);
        LastStep(a, h, FindLast(n - 1, upper, r + h) - (r + h));
      } else {
        LastIsLog(n - 1, a, r);
      }
    }
  }

  /** The finder of the last bit is one more than the logarithm, for every width and every word. */
  lemma {:induction false} FindLastBitIsLog(n: nat, a: nat)
    requires a < Values(n)
    ensures var r := FindLastBit(n, a); if a == 0 then r == 0 else r >= 1 && Pow2(r - 1) <= a < Pow2(r)
  {
    if a > 0 { LastIsLog(n, a, 1); }
  }

  // --- the lowest set bit ---------------------------------------------------------------

  /** Bit `j` is set and none below it is. */
  ghost predicate LowestSet(a: nat, j: nat) {
    BitSet(a, j) && forall i: nat :: i < j ==> !BitSet(a, i)
  }

  lemma {:induction false} DivTwice(a: nat, p: nat)
    requires p > 0
    ensures a / 2 / p == a / (2 * p)
    ensures a % (2 * p) == 2 * (a / 2 % p) + a % 2
  {
    var q, s := a / 2 / p, a / 2 % p;
    SplitAt(a / 2, p);
    assert a == 2 * (p * q) + 2 * s + a % 2;
    assert 2 * (p * q) == 2 * p * q;
    DivIs(a, 2 * p, q);
    SplitAt(a, 2 * p);
  }

  lemma {:induction false} BitShift(a: nat, h: nat, j: nat)
    ensures BitSet(Quotient(a, Pow2(h)), j) == BitSet(a, h + j)
  {
    if h > 0 {
      DivTwice(a, Pow2(h - 1));
      BitShift(a / 2, h - 1, j);
    }
  }

  lemma {:induction false} LowBitsClear(a: nat, h: nat, j: nat)
    requires a % Pow2(h) == 0 && j < h
    ensures !BitSet(a, j)
  {
    DivTwice(a, Pow2(h - 1));
    if j > 0 { LowBitsClear(a / 2, h - 1, j - 1); }
  }

  lemma {:induction false} LowestShift(a: nat, h: nat, j: nat)
    requires a % Pow2(h) == 0 && LowestSet(Quotient(a, Pow2(h)), j)
    ensures LowestSet(a, h + j)
  {
    BitShift(a, h, j);
    forall i: nat | i < h + j
      ensures !BitSet(a, i)
    {
      if i < h { LowBitsClear(a, h, i); } else { BitShift(a, h, i - h); }
    }
  }

  /** If the whole word is not clear but its lower half is, then its upper half is not. */
  lemma {:induction false} UpperHalfSet(a: nat, p: nat)
    requires p > 0 && a % p == 0 && a % (p * p) != 0
    ensures a / p % p != 0
  {
    if a / p % p == 0 {
      var q := a / p / p;
      SplitAt(a, p);
      SplitAt(a / p, p);
      assert a == p * (p * q) == p * p * q;
      DivIs(a, p * p, q);
      SplitAt(a, p * p);
    }
  }

  /** At every width the finder adds the place of the lowest set bit. */
  lemma {:induction false} FirstIsLowest(n: nat, a: nat, r: nat)
    requires a % Values(n) != 0
    ensures FindFirst(n, a, r) >= r && LowestSet(a, FindFirst(n, a, r) - r)
  {
    if n > 0 {
      var h := Pow2(n - 1);
      if a % Values(n - 1) != 0 {
        FirstIsLowest(n - 1, a, r);
      } else {
        WordSquare(n);
        UpperHalfSet(a, Values(n - 1));
        var upper := Quotient(a, Values(n - 1));
        FirstIsLowest(n - 1, upper, r + h);
        LowestShift(a, h, FindFirst(n - 1, upper, r + h) - (r + h));
      }
    }
  }

  /** The finder of the first bit is one more than the place of the lowest set bit, for every width and word. */
  lemma {:induction false} FindFirstBitIsLowest(n: nat, a: nat)
    requires a < Values(n)
    ensures var r := FindFirstBit(n, a);
            if a == 0 then r == 0 else r >= 1 && BitSet(a, r - 1) && forall i: nat :: i < r - 1 ==> !BitSet(a, i)
  {
    if a > 0 {
      SmallModulo(a, Values(n));
      FirstIsLowest(n, a, 1);
    }
  }

  /** Bit `j` of a value is its quotient by the `j`-th power of two, odd or even. */
  lemma {:induction false} BitSetExactly(a: nat, j: nat)
    ensures BitSet(a, j) <==> Quotient(a, Pow2(j)) % 2 == 1
  {
    BitShift(a, j, 0);
  }

  // --- rounding ---------------------------------------------------------------------------

  /** `p` is the least power of two at or above `a`. */
  ghost predicate LeastPowerAbove(p: nat, a: nat) {
    a <= p && (exists r: nat :: p == Pow2(r)) && forall m: nat :: a <= Pow2(m) ==> p <= Pow2(m)
  }

  /** `p` is the greatest power of two at or below `a`. */
  ghost predicate GreatestPowerBelow(p: nat, a: nat) {
    p <= a && (exists r: nat :: p == Pow2(r)) && forall m: nat :: Pow2(m) <= a ==> Pow2(m) <= p
  }

  /** No power of two lies between a power of two and half of it. */
  lemma {:induction false} NoPowerBetween(a: nat, r: nat, m: nat)
    requires a <= Pow2(m) && (r == 0 || Pow2(r - 1) < a)
    ensures r <= m && Pow2(r) <= Pow2(m)
  {
    if m < r { PowGrows(m, r - 1); }
    PowGrows(r, m);
  }

  lemma {:induction false} LeastPower(a: nat, r: nat)
    requires a <= Pow2(r) && (r == 0 || Pow2(r - 1) < a)
    ensures LeastPowerAbove(Pow2(r), a)
  {
    forall m: nat | a <= Pow2(m)
      ensures Pow2(r) <= Pow2(m)
    {
      NoPowerBetween(a, r, m);
    }
  }

  /** The power that rounding up comes to in a word of `w` bits, from the exponent it finds. */
  lemma {:induction false} RoundUpCases(a: nat, r: nat, w: nat)
    requires w > 0 && a <= Pow2(w) && a <= Pow2(r) && (r == 0 || Pow2(r - 1) < a)
    ensures a <= Pow2(w - 1) ==> Pow2(r) < Pow2(w)
    ensures a > Pow2(w - 1) ==> r == w
  {
    NoPowerBetween(a, r, w);
    if a <= Pow2(w - 1) {
      NoPowerBetween(a, r, w - 1);
    } else if r < w {
      PowGrows(r, w - 1);
    }
  }

  /** Rounding up gives the least power of two at or above `a`, if the word can hold it, and else 0. */
  lemma {:induction false} RoundUpExactly(n: nat, a: nat)
    requires a < Values(n)
    ensures var p := RoundUpPowerOfTwo(n, a);
            if 1 <= a <= Values(n) / 2 then
              a <= p && (exists r: nat :: p == Pow2(r)) && forall m: nat :: a <= Pow2(m) ==> p <= Pow2(m)
            else p == 0
  {
    var w := Pow2(n);
    var b := Remainder(a - 1, Pow2(w));
    if a == 0 { BelowZero(Pow2(w)); } else { SmallModulo(a - 1, Pow2(w)); }
    FindLastBitIsLog(n, b);
    RoundUpFrom(b + 1, FindLastBit(n, b), w);
  }

  lemma {:induction false} RoundUpFrom(a: nat, r: nat, w: nat)
    requires w > 0 && a <= Pow2(w) && a <= Pow2(r) && (r == 0 || Pow2(r - 1) < a)
    ensures var p := Remainder(Pow2(r), Pow2(w)); if a <= Pow2(w) / 2 then LeastPowerAbove(p, a) else p == 0
  {
    RoundUpCases(a, r, w);
    LeastPower(a, r);
    if a <= Pow2(w - 1) { SmallModulo(Pow2(r), Pow2(w)); } else { NoRemainder(Pow2(w)); }
  }

  lemma {:induction false} GreatestPower(a: nat, r: nat)
    requires Pow2(r) <= a < Pow2(r + 1)
    ensures GreatestPowerBelow(Pow2(r), a)
  {
    forall m: nat | Pow2(m) <= a
      ensures Pow2(m) <= Pow2(r)
    {
      if m > r { PowGrows(r + 1, m); } else { PowGrows(m, r); }
    }
  }

  /** Rounding down gives the greatest power of two at or below `a`. */
  lemma {:induction false} RoundDownExactly(n: nat, a: nat)
    requires 1 <= a < Values(n)
    ensures FindLastBit(n, a) > 0
    ensures var p := RoundDownPowerOfTwo(n, a);
            p <= a && (exists r: nat :: p == Pow2(r)) && forall m: nat :: Pow2(m) <= a ==> Pow2(m) <= p
  {
    FindLastBitIsLog(n, a);
    var r := FindLastBit(n, a) - 1;
    SmallModulo(Pow2(r), Values(n));
    GreatestPower(a, r);
  }

  // --- the widths the macros come in ------------------------------------------------------

  lemma {:induction false} Widths()
    ensures Values(3) == 0x100 && Values(4) == 0x1_0000 && Values(5) == 4294967296 && Values(6) == 18446744073709551616
  {
    assert Pow2(3) == 8 && Pow2(4) == 0x10;
    PowAdd(4, 4);
    WordSquare(4);
    WordSquare(5);
    WordSquare(6);
  }
}
