/** Doubles, their boundaries, and grisu2 of fpconv.c. */
module Grisu {
  import opened Powers
  import opened DigitGeneration

  const HIDDENBIT := 0x10_0000_0000_0000
  const INFINITY: u64 := 0x7FF0_0000_0000_0000

  // ---------- doubles ----------

  /** The fraction and exponent of the double with these bits (sign bit clear, not infinite). */
  function BuildFp(bits: u64): Fp
    requires bits <= INFINITY
  {
    var frac, exp := bits % HIDDENBIT, bits / HIDDENBIT;
    if exp != 0 then Fp(frac + HIDDENBIT, exp - 1075) else Fp(frac, -1074)
  }

  ghost function Real(fp: Fp): real
  {
    fp.frac as real * Exp2(fp.exp)
  }

  /** The number a double stands for. At INFINITY itself this is 2^1024, where rounding up would go. */
  ghost function Value(bits: u64): real
    requires bits <= INFINITY
  {
    Real(BuildFp(bits))
  }

  lemma NextDouble(bits: u64)
    requires bits < INFINITY
    ensures Value(bits + 1) == Value(bits) + Exp2(BuildFp(bits).exp)
  {
    var a, b := BuildFp(bits), BuildFp(bits + 1);
    assert (b.frac == a.frac + 1 && b.exp == a.exp) || (a.frac == 2 * HIDDENBIT - 1 && b.frac == HIDDENBIT &&
            b.exp == a.exp + 1);
    assert Exp2(a.exp + 1) == 2.0 * Exp2(a.exp) by { TwoStep(a.exp); }
    hide *;
    assert (a.frac + 1) as real * Exp2(a.exp) == a.frac as real * Exp2(a.exp) + Exp2(a.exp);
  }

  lemma TwoStep(e: int)
    ensures Exp2(e + 1) == 2.0 * Exp2(e)
  {
  }

  lemma {:induction false} ValueMonotone(a: u64, b: u64)
    requires a <= b <= INFINITY
    ensures Value(a) <= Value(b)
    ensures a < b ==> Value(a) < Value(b)
    decreases b - a
  {
    hide *;
    if a < b {
      ValueMonotone(a, b - 1);
      NextDouble(b - 1);
    }
  }

  function Abs(x: real): real
  {
    if x < 0.0 then -x else x
  }

  /** bits is the double nearest to x, with no tie: reading x gives bits back. */
  ghost predicate ReadsBack(x: real, bits: u64)
    requires bits <= INFINITY
  {
    forall other: u64 :: other <= INFINITY && other != bits ==> Abs(x - Value(bits)) < Abs(x - Value(other))
  }

  lemma BetweenMidpoints(x: real, bits: u64)
    requires 0 < bits < INFINITY
    requires Value(bits - 1) + Value(bits) < 2.0 * x < Value(bits) + Value(bits + 1)
    ensures ReadsBack(x, bits)
  {
    hide Value;
    forall other: u64 | other <= INFINITY && other != bits
      ensures Abs(x - Value(bits)) < Abs(x - Value(other))
    {
      ValueMonotone(bits - 1, bits);
      ValueMonotone(bits, bits + 1);
      if other < bits {
        ValueMonotone(other, bits - 1);
      } else {
        ValueMonotone(bits + 1, other);
      }
    }
  }

  // ---------- boundaries ----------

  /** t doublings bring the fraction's first bit to the hidden bit's place. */
  predicate Normal(frac: nat, t: nat)
  {
    HIDDENBIT <= Times(frac, Two(t)) < 2 * HIDDENBIT
  }

  lemma Double(x: nat, t: nat)
    ensures Times(x, Two(t + 1)) == 2 * Times(x, Two(t))
  {
    var p := Two(t);
    assert Two(t + 1) == 2 * p;
    hide *;
    TimesCommutes(x, 2 * p);
    TimesCommutes(x, p);
    TimesAdd(p, p, x);
  }

  lemma TwosTimes(a: nat, b: nat)
    ensures Times(Two(a), Two(b)) == Two(a + b)
  {
    TwoAdd(a, b);
    hide Two;
  }

  lemma TimesTwos(x: nat, a: nat, b: nat)
    ensures Times(x, Two(a + b)) == Times(Times(x, Two(a)), Two(b))
  {
    hide *;
    TwosTimes(a, b);
    TimesAssociates(x, Two(a), Two(b));
  }

  lemma NormalUnique(frac: nat, t: nat, u: nat)
    requires Normal(frac, t) && Normal(frac, u)
    ensures t == u
  {
    if t < u { NormalGrows(frac, t, u); } else if u < t { NormalGrows(frac, u, t); }
  }

  lemma {:induction false} NormalGrows(frac: nat, t: nat, u: nat)
    requires t < u && HIDDENBIT <= Times(frac, Two(t))
    ensures 2 * HIDDENBIT <= Times(frac, Two(u))
  {
    hide Times, Two;
    Double(frac, u - 1);
    if t < u - 1 {
      NormalGrows(frac, t, u - 1);
    }
  }

  /** How many doublings that takes. */
  ghost function Shift(frac: nat): (t: nat)
    requires 0 < frac < 2 * HIDDENBIT
    ensures Normal(frac, t)
    decreases 2 * HIDDENBIT - frac
  {
    Start(frac);
    if HIDDENBIT <= frac then 0 else
      var t := Shift(2 * frac);
      DoubledFirst(frac, t);
      t + 1
  }

  lemma DoubledFirst(x: nat, t: nat)
    ensures Times(2 * x, Two(t)) == Times(x, Two(t + 1))
  {
    Double(x, t);
    hide Two;
    TimesLeft(x, Two(t));
  }

  lemma TimesLeft(x: nat, y: nat)
    ensures Times(2 * x, y) == 2 * Times(x, y)
  {
  }

  method Normalize(fp: Fp) returns (r: Fp)
    requires 0 < fp.frac < 2 * HIDDENBIT
    ensures r == Fp(Times(fp.frac, Two(Shift(fp.frac))) * 2048, fp.exp - Shift(fp.frac) - 11)
  {
    hide Times, Two, Shift;
    var frac: u64, exp := fp.frac, fp.exp;
    ghost var t := 0;
    Start(frac);
    // the hidden bit is clear: frac stays below hiddenbit << 1
    while frac < HIDDENBIT
      invariant frac == Times(fp.frac, Two(t)) && 0 < frac < 2 * HIDDENBIT && exp == fp.exp - t
      decreases 2 * HIDDENBIT - frac
    {
      Double(fp.frac, t);
      frac := frac * 2;
      exp := exp - 1;
      t := t + 1;
    }
    NormalUnique(fp.frac, t, Shift(fp.frac));
    var shift := 64 - 52 - 1;
    return Fp(frac * 2048, exp - shift);
  }

  lemma Start(x: nat)
    ensures Times(x, Two(0)) == x
  {
  }

  /** (2f + 1) 2^t has its first bit one place above that of f 2^t. */
  lemma UpperNormal(f: nat, t: nat)
    requires 0 < f && t <= 52
    ensures Times(2 * f + 1, Two(t)) == 2 * Times(f, Two(t)) + Two(t)
    ensures Times(f, Two(t)) < HIDDENBIT <==> Times(2 * f + 1, Two(t)) < 2 * HIDDENBIT
    ensures Times(f, Two(t)) < HIDDENBIT ==> t < 52 && Times(f, Two(t)) + Two(t) <= HIDDENBIT
  {
    hide Two, Times;
    var p, q := Two(t), Two(52 - t);
    TwosTimes(52 - t, t);
    FiftyTwo();
    TwoPositive(t);
    TwoPositive(52 - t);
    TimesAdd(2 * f, 1, p);
    TimesAdd(f, f, p);
    TimesUnit(p);
    if Times(f, p) < HIDDENBIT {
      TimesCancel(f, q, p);
      TimesApart(f, q, p);
    }
  }

  lemma TwoPositive(t: nat)
    ensures Two(t) > 0 && (t == 0 ==> Two(t) == 1)
  {
  }

  lemma FiftyTwo()
    ensures Two(52) == HIDDENBIT && Two(10) == 1024
  {
    hide Two, Ten;
    Literals();
    TwoAdd(26, 26);
    NinthPower();
  }

  /** As IEEE 754, section 3.4, has it for binary64: 2^(e - 1023) times 1.f, or 2^-1022 times 0.f if e is zero. */
  lemma IsBinary64(bits: u64)
    requires bits < INFINITY
    ensures var e, f := bits / HIDDENBIT, bits % HIDDENBIT;
      HIDDENBIT as real * Value(bits) ==
        if e != 0 then (HIDDENBIT + f) as real * Exp2(e - 1023) else f as real * Exp2(-1022)
  {
    hide Exp2, Two;
    FiftyTwo();
    var fp := BuildFp(bits);
    Exp2Add(fp.exp, 52);
    Regrouped(fp.frac as real, HIDDENBIT as real, Exp2(fp.exp));
  }

  lemma Regrouped(f: real, h: real, p: real)
    ensures h * (f * p) == f * (p * h)
  {
  }

  lemma NinthPower()
    ensures Two(9) == 512 && Two(10) == 1024
  {
  }

  /** The loop of get_normalized_boundaries: 2f + 1 moves up until its first bit is just above the
      hidden bit's place. */
  method ShiftUpper(f: u64, exp: int) returns (ufrac: u64, uexp: int)
    requires 0 < f < 2 * HIDDENBIT
    ensures ufrac == 2 * Times(f, Two(Shift(f))) + Two(Shift(f)) < 4 * HIDDENBIT && uexp == exp - 1 - Shift(f)
  {
    hide Times, Two, Shift;
    ghost var t := 0;
    ufrac, uexp := f * 2 + 1, exp - 1;
    Start(ufrac);
    Start(f);
    UpperNormal(f, 0);
    // the bit hiddenbit << 1 is clear: ufrac stays below hiddenbit << 2
    while ufrac < 2 * HIDDENBIT
      invariant t <= 52 && uexp == exp - 1 - t
      invariant ufrac == Times(2 * f + 1, Two(t)) && 0 < Times(f, Two(t)) < 2 * HIDDENBIT
      invariant ufrac < 4 * HIDDENBIT
      decreases 4 * HIDDENBIT - ufrac
    {
      UpperNormal(f, t);
      Double(2 * f + 1, t);
      Double(f, t);
      ufrac := ufrac * 2;
      uexp := uexp - 1;
      t := t + 1;
    }
    UpperNormal(f, t);
    NormalUnique(f, t, Shift(f));
  }

  /** The midpoints to the neighbouring doubles, with the exponent of the normalized upper one. */
  method GetNormalizedBoundaries(fp: Fp) returns (lower: Fp, upper: Fp)
    requires 0 < fp.frac < 2 * HIDDENBIT
    ensures upper.frac == 2048 * Times(fp.frac, Two(Shift(fp.frac))) + 1024 * Two(Shift(fp.frac))
    ensures lower.exp == upper.exp == fp.exp - Shift(fp.frac) - 11
    ensures lower.frac == 2048 * Times(fp.frac, Two(Shift(fp.frac))) -
                          if fp.frac == HIDDENBIT then 512 else 1024 * Two(Shift(fp.frac))
  {
    hide Times, Two, Normal, Shift;
    ghost var t := Shift(fp.frac);
    var ufrac, uexp := ShiftUpper(fp.frac, fp.exp);
    var uShift := 64 - 52 - 2;
    upper := Fp(ufrac * 1024, uexp - uShift);
    LowerNormal(fp.frac, t);
    var lShift := if fp.frac == HIDDENBIT then 2 else 1;
    var lfrac: u64, lexp := fp.frac * (if lShift == 2 then 4 else 2) - 1, fp.exp - lShift;
    lower := Fp(Times(lfrac, Two(lexp - upper.exp)), upper.exp);
  }

  lemma LowerNormal(f: nat, t: nat)
    requires 0 < f && Normal(f, t)
    ensures f != HIDDENBIT ==> Times(2 * f - 1, Two(t + 10)) == 2048 * Times(f, Two(t)) - 1024 * Two(t)
    ensures f == HIDDENBIT ==> t == 0 && Times(4 * f - 1, Two(9)) == 2048 * Times(f, Two(0)) - 512
  {
    hide Two;
    FiftyTwo();
    NinthPower();
    Start(HIDDENBIT);
    if f == HIDDENBIT {
      NormalUnique(f, t, 0);
      TimesIs(4 * f - 1, 512);
    } else {
      TimesTwos(2 * f - 1, t, 10);
      var p := Two(t);
      TimesIs(Times(2 * f - 1, p), 1024);
      hide Times;
      TimesAdd(2 * f - 1, 1, p);
      TimesAdd(f, f, p);
      TimesUnit(p);
    }
  }

  // ---------- multiply ----------

  const WORD := 0x1_0000_0000

  lemma HalfProduct(x: nat, y: nat)
    requires x < WORD && y < WORD
    ensures Times(x, y) <= 0xFFFF_FFFE_0000_0001
  {
    hide Times;
    TimesMonotone(x, 0xFFFF_FFFF, y);
    TimesCommutes(0xFFFF_FFFF, y);
    TimesMonotone(y, 0xFFFF_FFFF, 0xFFFF_FFFF);
    TimesIs(0xFFFF_FFFF, 0xFFFF_FFFF);
  }

  /** Schoolbook multiplication in base 2^32. */
  lemma FourProducts(ah: nat, al: nat, bh: nat, bl: nat)
    ensures Times(ah * WORD + al, bh * WORD + bl) ==
            Times(ah, bh) * 0x1_0000_0000_0000_0000 + (Times(ah, bl) + Times(al, bh)) * WORD + Times(al, bl)
  {
    hide Times;
    TimesAdd(ah * WORD, al, bh * WORD + bl);
    TimesRight(ah, bh, bl);
    TimesRight(al, bh, bl);
    TimesShift(ah, bh * WORD + bl);
  }

  lemma TimesRight(a: nat, bh: nat, bl: nat)
    ensures Times(a, bh * WORD + bl) == Times(a, bh) * WORD + Times(a, bl)
  {
    assert a * (bh * WORD) == a * bh * WORD;
  }

  lemma TimesShift(a: nat, b: nat)
    ensures Times(a * WORD, b) == Times(a, b) * WORD
  {
  }

  /** The upper half of the product, rounded. */
  function Product(a: nat, c: nat): nat
  {
    (Times(a, c) + 0x8000_0000_0000_0000) / 0x1_0000_0000_0000_0000
  }

  /** The rounded upper half of a 128-bit product, without ever leaving 64 bits. */
  method Multiply(a: Fp, b: Fp) returns (fp: Fp)
    ensures fp.frac == Product(a.frac, b.frac)
    ensures fp.exp == a.exp + b.exp + 64
  {
    hide Times;
    var ah: u64, al: u64, bh: u64, bl: u64 := a.frac / WORD, a.frac % WORD, b.frac / WORD, b.frac % WORD;
    HalfProduct(ah, bl);
    HalfProduct(al, bh);
    HalfProduct(al, bl);
    HalfProduct(ah, bh);
    var ahBl: u64, alBh: u64 := Times(ah, bl), Times(al, bh);
    var alBl: u64, ahBh: u64 := Times(al, bl), Times(ah, bh);
    var tmp: u64 := ahBl % WORD + alBh % WORD + alBl / WORD;
    tmp := tmp + 0x8000_0000;
    FourProducts(ah, al, bh, bl);
    RoundedProduct(a.frac, b.frac);
    fp := Fp(ahBh + ahBl / WORD + alBh / WORD + tmp / WORD, a.exp + b.exp + 64);
  }

  lemma RoundedProduct(a: u64, b: u64)
    ensures Product(a, b) < 0x1_0000_0000_0000_0000
  {
    hide Times;
    TimesMonotone(a, 0xFFFF_FFFF_FFFF_FFFF, b);
    TimesCommutes(0xFFFF_FFFF_FFFF_FFFF, b);
    TimesMonotone(b, 0xFFFF_FFFF_FFFF_FFFF, 0xFFFF_FFFF_FFFF_FFFF);
    TimesIs(0xFFFF_FFFF_FFFF_FFFF, 0xFFFF_FFFF_FFFF_FFFF);
  }

  // ---------- the scaled interval ----------

  lemma ProductGap(x: nat, y: nat, c: nat)
    requires x <= y && 0x8000_0000_0000_0000 <= c
    ensures Product(x, c) + (y - x) / 2 <= Product(y, c)
  {
    hide Times;
    TimesAdd(x, y - x, c);
    TimesCommutes(y - x, c);
    TimesMonotone(0x8000_0000_0000_0000, c, y - x);
    TimesIs(0x8000_0000_0000_0000, y - x);
  }

  /** The interval stays wide enough for at most seventeen digits. */
  lemma Wide(low: nat, high: u64, c: nat)
    requires low <= high && 0x8000_0000_0000_0000 <= c
    requires high + 60_000_000_000_000_000 <= 10_000_000_000_000_000 * (high - low)
    requires Product(low, c) + 2 <= Product(high, c)
    ensures Product(high, c) - 1 <= Times(Ten(16), Product(high, c) - Product(low, c) - 2)
  {
    SixteenthPower();
    hide Ten, Times;
    var d := high - low;
    TimesAdd(low, d, c);
    TimesLinear(10_000_000_000_000_000, d, c);
    TimesMonotone(high + 60_000_000_000_000_000, 10_000_000_000_000_000 * d, c);
    TimesAdd(high, 60_000_000_000_000_000, c);
    TimesIs(60_000_000_000_000_000, c);
    TimesIs(Ten(16), Product(high, c) - Product(low, c) - 2);
  }

  lemma TimesLinear(k: nat, d: nat, c: nat)
    ensures Times(k * d, c) == k * Times(d, c)
  {
    assert k * d * c == k * (d * c);
  }

  lemma SixteenthPower()
    ensures Ten(16) == 10_000_000_000_000_000
  {
    TenAdd(8, 8);
    assert Ten(8) == 100_000_000;
  }

  /** The three scaled fractions meet what generate_digits asks of them. */
  lemma ScaledInterval(w: u64, lower: nat, upper: u64, c: nat)
    requires 0x8000_0000_0000_0000 <= w && lower + 512 <= w && w + 1024 <= upper && 0x8000_0000_0000_0000 <= c
    requires 2048 <= upper - lower || (upper - lower == 1536 && upper <= 0x8000_0000_0000_0400)
    ensures Product(lower, c) + 1 <= Product(w, c) <= Product(upper, c) - 1
    ensures 0x1000_0000_0000_0000 <= Product(upper, c) - 1
    ensures Product(upper, c) - 1 <= Times(Ten(16), Product(upper, c) - Product(lower, c) - 2)
  {
    hide Product, Times, Ten;
    ProductGap(lower, w, c);
    ProductGap(w, upper, c);
    ProductGap(0, upper, c);
    Wide(lower, upper, c);
  }

  /** The product of reals, by name. */
  function Mul(a: real, b: real): real
  {
    a * b
  }

  lemma MulIs(a: real, b: real)
    ensures Mul(a, b) == a * b
  {
  }

  // ---------- the error of the scaling ----------

  lemma Scale(a: real, b: real, s: real)
    requires a <= b && 0.0 <= s
    ensures a * s <= b * s
    ensures a < b && 0.0 < s ==> a * s < b * s
  {
  }

  lemma ErrorSplit(x: real, u: real, v: real, c: real, T: real)
    ensures x * u * T == x * c * (u * v) + x * u * (T - c * v)
  {
    assert x * u * (c * v) == x * c * (u * v);
  }

  lemma PowerError(x: real, u: real, v: real, d: real, half: real)
    requires 0.0 <= x < 2.0 * half && 0.0 < u && 0.0 < v && 2.0 * d <= v && -v <= 2.0 * d
    ensures x * u * d < half * (u * v) && -(half * (u * v)) < x * u * d
  {
    var y := x * u;
    Scale(2.0 * d, v, y);
    Scale(-v, 2.0 * d, y);
    assert 0.0 < u * v;
    Scale(x, 2.0 * half, u * v);
    assert v * y == x * (u * v) && -v * y == -(x * (u * v));
  }

  lemma RoundingError(p: real, M: real, half: real, uv: real)
    requires p - half <= M <= p + half && 0.0 < uv
    ensures M * uv - half * uv <= p * uv <= M * uv + half * uv
  {
    Scale(M - half, p, uv);
    Scale(p, M + half, uv);
  }

  /** Half a unit from rounding the product, and less than half from rounding the cached power. */
  lemma ErrorBound(x: real, u: real, v: real, c: real, T: real, M: real, half: real)
    requires 0.0 <= x < 2.0 * half && 0.0 < u && 0.0 < v
    requires x * c - half <= M <= x * c + half
    requires 2.0 * (c * v - T) <= v && 2.0 * (T - c * v) <= v
    ensures Mul(M - 2.0 * half, Mul(u, v)) < Mul(Mul(x, u), T) < Mul(M + 2.0 * half, Mul(u, v))
  {
    ErrorSplit(x, u, v, c, T);
    PowerError(x, u, v, T - c * v, half);
    assert 0.0 < u * v;
    RoundingError(x * c, M, half, u * v);
    Spread(M, half, u * v);
  }

  lemma Spread(M: real, half: real, uv: real)
    ensures (M - 2.0 * half) * uv == M * uv - half * uv - half * uv
    ensures (M + 2.0 * half) * uv == M * uv + half * uv + half * uv
  {
  }

  lemma ProductBounds(x: nat, c: nat)
    ensures x as real * c as real - 0x8000_0000_0000_0000 as real <=
      Product(x, c) as real * 0x1_0000_0000_0000_0000 as real
    ensures Product(x, c) as real * 0x1_0000_0000_0000_0000 as real <=
      x as real * c as real + 0x8000_0000_0000_0000 as real
  {
    TimesReal(x, c);
    MulIs(x as real, c as real);
    var p, M := Times(x, c), Product(x, c);
    assert M * 0x1_0000_0000_0000_0000 <= p + 0x8000_0000_0000_0000 < (M + 1) * 0x1_0000_0000_0000_0000;
    hide Times, Product;
    assert M as real * 0x1_0000_0000_0000_0000 as real == (M * 0x1_0000_0000_0000_0000) as real;
  }

  /** The scaled fraction is less than one unit away from the exact value. */
  lemma MultiplyError(x: u64, ex: int, c: Fp, k: int)
    requires HalfUnit(c, k)
    ensures Mul(Product(x, c.frac) as real - 1.0, Exp2(ex + c.exp + 64)) < Mul(Mul(x as real, Exp2(ex)), Exp10(k))
    ensures Mul(Mul(x as real, Exp2(ex)), Exp10(k)) < Mul(Product(x, c.frac) as real + 1.0, Exp2(ex + c.exp + 64))
  {
    hide Two, Ten, Exp2, Exp10, Times, Product, Mul;
    ProductBounds(x, c.frac);
    var u, v, M, word := Exp2(ex), Exp2(c.exp), Product(x, c.frac) as real, 0x1_0000_0000_0000_0000 as real;
    ErrorBound(x as real, u, v, c.frac as real, Exp10(k), M * word, word / 2.0);
    Exp2Sum(ex, c.exp);
    Exp2Add(ex + c.exp, 64);
    Literals();
    MulIs(u, v);
    Regroup(M - 1.0, Mul(u, v), Exp2(ex + c.exp + 64));
    Regroup(M + 1.0, Mul(u, v), Exp2(ex + c.exp + 64));
  }

  lemma Regroup(m: real, uv: real, unit: real)
    requires unit == uv * 0x1_0000_0000_0000_0000 as real
    ensures Mul(m * 0x1_0000_0000_0000_0000 as real, uv) == Mul(m, unit)
  {
  }

  // ---------- from the digits back to the double ----------

  lemma CancelScale(a: real, b: real, t: real)
    requires t > 0.0 && a * t < b * t
    ensures a < b
  {
    if b <= a {
      Scale(b, a, t);
    }
  }

  lemma UnscaleInteger(low: real, high: real, DT: real, one: real, s: real)
    requires low <= Mul(DT, one) <= high && s > 0.0 && Mul(s, one) == 1.0
    ensures Mul(low, s) <= DT <= Mul(high, s)
  {
    Scale(low, DT * one, s);
    Scale(DT * one, high, s);
    CancelRight(DT, one, s);
  }

  lemma UnscaleFraction(low: real, high: real, D: real, one: real, s: real, T: real, e: real)
    requires Mul(low, T) <= Mul(D, one) <= Mul(high, T) && s > 0.0 && Mul(s, one) == 1.0 && e > 0.0 && Mul(e, T) == 1.0
    ensures Mul(low, s) <= Mul(D, e) <= Mul(high, s)
  {
    Scale(low * T, D * one, s);
    Scale(D * one, high * T, s);
    CancelRight(D, one, s);
    Scale(low * T * s, D, e);
    Scale(D, high * T * s, e);
    Reorder(low, T, s, e);
    Reorder(high, T, s, e);
  }

  lemma Reorder(x: real, T: real, s: real, e: real)
    requires e * T == 1.0
    ensures x * T * s * e == x * s
  {
    assert x * T * s * e == x * s * (e * T);
  }

  /** The range part of Generated. */
  lemma GeneratedRange(low: nat, w: nat, high: nat, one: nat, kappa: int, text: seq<char>)
    requires one > 0 && low <= w && Generated(low, w, high, one, kappa, text)
    ensures IsDigits(text) && -16 <= kappa <= 9
    ensures kappa >= 0 ==> low <= Times(Times(Val(text), Ten(kappa)), one) <= high
    ensures kappa < 0 ==> Times(low, Ten(-kappa)) <= Times(Val(text), one) <= Times(high, Ten(-kappa))
  {
    hide Two, Ten, Times, HasPoint, DropsAt, Val, Distance;
    if kappa >= 0 {
      TimesAssociates(Val(text), Ten(kappa), one);
    }
  }

  /** A best point of the scaled interval, as a real number. */
  lemma BestAsReal(low: nat, w: nat, high: nat, one: nat, kappa: int, text: seq<char>, s: real)
    requires one > 0 && low <= w && Generated(low, w, high, one, kappa, text)
    requires s > 0.0 && Mul(s, one as real) == 1.0
    ensures IsDigits(text)
    ensures Mul(low as real, s) <= Mul(Val(text) as real, Exp10(kappa)) <= Mul(high as real, s)
  {
    hide *;
    GeneratedRange(low, w, high, one, kappa, text);
    var D := Val(text);
    if kappa >= 0 {
      var T := Ten(kappa);
      TenAsExp(kappa);
      TimesReal(D, T);
      TimesReal(Times(D, T), one);
      UnscaleInteger(low as real, high as real, Times(D, T) as real, one as real, s);
    } else {
      var T := Ten(-kappa);
      TenAsExp(-kappa);
      TimesReal(D, one);
      TimesReal(low, T);
      TimesReal(high, T);
      UnscaleFraction(low as real, high as real, D as real, one as real, s, T as real, Exp10(kappa));
    }
  }

  lemma TenAsExp(n: int)
    requires n >= 0
    ensures Exp10(n) == Ten(n) as real
    ensures Mul(Exp10(-n), Ten(n) as real) == 1.0
  {
    hide Ten, Exp10;
    ExpZero();
    Exp10Add(0, n);
    Exp10Add(-n, n);
  }

  lemma TimesReal(a: nat, b: nat)
    ensures Times(a, b) as real == Mul(a as real, b as real)
  {
  }

  lemma RealShift(x: nat, n: nat, e: int)
    ensures Mul(Times(x, Two(n)) as real, Exp2(e - n)) == Mul(x as real, Exp2(e))
  {
    hide Two, Exp2, Times;
    TimesReal(x, Two(n));
    Exp2Add(e - n, n);
    assert x as real * Two(n) as real * Exp2(e - n) == x as real * (Exp2(e - n) * Two(n) as real);
  }

  lemma OddHalves(f: real, e: real, half: real)
    requires e == 2.0 * half
    ensures 2.0 * Mul(2.0 * f + 1.0, half) == 2.0 * Mul(f, e) + e
    ensures 2.0 * Mul(2.0 * f - 1.0, half) == 2.0 * Mul(f, e) - e
    ensures Mul(4.0 * f - 1.0, half) == 2.0 * Mul(f, e) - half
  {
  }

  lemma DoubleFacts(bits: u64)
    requires 0 < bits < INFINITY
    ensures var fp, before := BuildFp(bits), BuildFp(bits - 1);
            && Value(bits) == Mul(fp.frac as real, Exp2(fp.exp)) && 0 < fp.frac < 2 * HIDDENBIT
            && -1074 <= fp.exp <= 971
            && (before.exp == fp.exp || (before.exp == fp.exp - 1 && fp.frac == HIDDENBIT))
  {
    hide Exp2;
  }

  /** The upper boundary is the midpoint to the next double. */
  lemma UpperMidpoint(bits: u64, t: nat)
    requires 0 < bits < INFINITY && Normal(BuildFp(bits).frac, t) && t <= 52
    ensures var fp := BuildFp(bits);
            2.0 * Mul((2048 * Times(fp.frac, Two(t)) + 1024 * Two(t)) as real, Exp2(fp.exp - t - 11)) ==
              Value(bits) + Value(bits + 1)
  {
    hide BuildFp, Value, Two, Exp2, Times, Mul, Normal;
    DoubleFacts(bits);
    var fp := BuildFp(bits);
    UpperNormal(fp.frac, t);
    FiftyTwo();
    TimesTwos(2 * fp.frac + 1, t, 10);
    TimesConst(Times(2 * fp.frac + 1, Two(t)));
    RealShift(2 * fp.frac + 1, t + 10, fp.exp - 1);
    TwoStep(fp.exp - 1);
    OddHalves(fp.frac as real, Exp2(fp.exp), Exp2(fp.exp - 1));
    NextDouble(bits);
  }

  lemma TimesConst(x: nat)
    ensures Times(x, 1024) == 1024 * x
  {
  }

  /** The lower boundary is the midpoint to the double before, or above it. */
  lemma LowerMidpoint(bits: u64, t: nat)
    requires 0 < bits < INFINITY && Normal(BuildFp(bits).frac, t)
    ensures var fp := BuildFp(bits);
            var lower := 2048 * Times(fp.frac, Two(t)) - if fp.frac == HIDDENBIT then 512 else 1024 * Two(t);
            Value(bits - 1) + Value(bits) <= 2.0 * Mul(lower as real, Exp2(fp.exp - t - 11))
  {
    hide BuildFp, Value, Two, Exp2, Times, Mul, Normal;
    DoubleFacts(bits);
    var fp := BuildFp(bits);
    LowerNormal(fp.frac, t);
    TwoStep(fp.exp - 1);
    TwoStep(fp.exp - 2);
    NextDouble(bits - 1);
    OddHalves(fp.frac as real, Exp2(fp.exp), Exp2(fp.exp - 1));
    if fp.frac == HIDDENBIT {
      RealShift(4 * fp.frac - 1, 9, fp.exp - 2);
      HalfAgain(4.0 * fp.frac as real - 1.0, Exp2(fp.exp - 1), Exp2(fp.exp - 2));
    } else {
      RealShift(2 * fp.frac - 1, t + 10, fp.exp - 1);
    }
  }

  lemma HalfAgain(x: real, e: real, half: real)
    requires e == 2.0 * half
    ensures 2.0 * Mul(x, half) == Mul(x, e)
  {
  }

  // ---------- grisu2 ----------

  /** The scaled interval of a double: its lower end (raised by one unit), its middle and its upper end
      (lowered by one unit), for the cached power c. */
  function Middle(frac: nat, t: nat): nat
  {
    2048 * Times(frac, Two(t))
  }

  function Below(frac: nat, t: nat): nat
  {
    if frac == HIDDENBIT then 512 else 1024 * Two(t)
  }

  function Above(t: nat): nat
  {
    1024 * Two(t)
  }

  lemma BoundaryFacts(bits: u64, t: nat)
    requires 0 < bits < INFINITY && Normal(BuildFp(bits).frac, t)
    ensures var frac := BuildFp(bits).frac;
            && t <= 52 && -1074 <= BuildFp(bits).exp <= 971
            && 0x8000_0000_0000_0000 <= Middle(frac, t) && 512 <= Below(frac, t) <= Middle(frac, t) && 1024 <= Above(t)
            && Middle(frac, t) + Above(t) < 0x1_0000_0000_0000_0000
            && (2048 <= Below(frac, t) + Above(t) ||
                (Below(frac, t) + Above(t) == 1536 && Middle(frac, t) + Above(t) <= 0x8000_0000_0000_0400))
  {
    DoubleFacts(bits);
    var frac := BuildFp(bits).frac;
    hide BuildFp, Value, Two, Times;
    TwoPositive(t);
    LowerNormal(frac, t);
    Start(frac);
    NormalSmall(frac, t);
    UpperNormal(frac, t);
  }

  lemma NormalSmall(frac: nat, t: nat)
    requires 0 < frac && Normal(frac, t)
    ensures t <= 52
    ensures Times(frac, Two(t)) + Two(t) <= 2 * HIDDENBIT
  {
    hide Two, Times;
    FiftyTwo();
    if t > 52 {
      TimesUnit(HIDDENBIT);
      TimesMonotone(1, frac, HIDDENBIT);
      NormalGrows(frac, 52, t);
    }
    TwosTimes(53 - t, t);
    TwoAgain(52);
    TimesCancel(frac, Two(53 - t), Two(t));
    TimesApart(frac, Two(53 - t), Two(t));
  }

  lemma TwoAgain(n: nat)
    ensures Two(n + 1) == 2 * Two(n)
  {
  }

  /** [low, high] around w is the interval of the double fp, normalized by t, after scaling: the products
      with its cached power, one unit inside; one is 1 in its units. */
  ghost predicate ScaledBy(fp: Fp, t: nat, low: nat, w: nat, high: nat, one: nat)
  {
    && Normal(fp.frac, t) && -1137 <= fp.exp - t - 11 <= 960 && Below(fp.frac, t) <= Middle(fp.frac, t)
    && ScaledWith(fp, t, CachedPower(CachedIndex(fp.exp - t - 11)), low, w, high, one)
  }

  ghost predicate ScaledWith(fp: Fp, t: nat, c: Fp, low: nat, w: nat, high: nat, one: nat)
    requires Below(fp.frac, t) <= Middle(fp.frac, t)
  {
    && low == Product(Middle(fp.frac, t) - Below(fp.frac, t), c.frac) + 1
    && w == Product(Middle(fp.frac, t), c.frac)
    && high + 1 == Product(Middle(fp.frac, t) + Above(t), c.frac)
    && low <= w && EXPMIN <= fp.exp - t - 11 + c.exp + 64 <= EXPMAX && one == Two(-(fp.exp - t - 11 + c.exp + 64))
  }

  /** The last digit printed for a double is 0 exactly when some level of digit generation drops it. */
  ghost predicate DropsLastDigit(bits: u64)
    requires 0 < bits < INFINITY
  {
    exists t: nat, low: nat, w: nat, high: nat, one: nat, j: nat ::
      ScaledBy(BuildFp(bits), t, low, w, high, one) && low <= w && DropsAt(low, w, high, one, j)
  }

  lemma ScaleAsOne(e: int, one: nat)
    requires e <= 0 && one == Two(-e)
    ensures Mul(Exp2(e), one as real) == 1.0
  {
    hide Two, Exp2;
    ExpZero();
    Exp2Add(e, -e);
  }

  lemma MulLess(a: real, b: real, t: real)
    requires t > 0.0 && Mul(a, t) < Mul(b, t)
    ensures a < b
  {
    CancelScale(a, b, t);
  }

  lemma MulExp10(v: real, a: int, b: int)
    ensures Mul(v, Exp10(a + b)) == Mul(Mul(v, Exp10(a)), Exp10(b))
  {
    hide Exp10;
    Exp10Sum(a, b);
  }

  /** The printed decimal lies strictly between the midpoints, so it reads back. */
  lemma GeneratedReadsBack(bits: u64, t: nat, c: Fp, k: int, low: nat, w: nat, high: nat, one: nat, kappa: int,
          text: seq<char>)
    requires 0 < bits < INFINITY && Normal(BuildFp(bits).frac, t) && HalfUnit(c, k)
    requires Below(BuildFp(bits).frac, t) <= Middle(BuildFp(bits).frac, t)
    requires ScaledWith(BuildFp(bits), t, c, low, w, high, one)
    requires Generated(low, w, high, one, kappa, text)
    ensures IsDigits(text) && ReadsBack(Mul(Val(text) as real, Exp10(kappa - k)), bits)
  {
    hide BuildFp, Value, Two, Ten, Exp2, Exp10, Times, Mul, Normal, Product, Generated, ReadsBack, HalfUnit, Val,
         Middle, Below, Above;
    BoundaryFacts(bits, t);
    var fp := BuildFp(bits);
    var ex, e := fp.exp - t - 11, fp.exp - t - 11 + c.exp + 64;
    var lower, upper := Middle(fp.frac, t) - Below(fp.frac, t), Middle(fp.frac, t) + Above(t);
    ScaleAsOne(e, one);
    BestAsReal(low, w, high, one, kappa, text, Exp2(e));
    MultiplyError(lower, ex, c, k);
    MultiplyError(upper, ex, c, k);
    var x := Mul(Val(text) as real, Exp10(kappa - k));
    MulExp10(Val(text) as real, kappa - k, k);
    MulLess(Mul(lower as real, Exp2(ex)), x, Exp10(k));
    MulLess(x, Mul(upper as real, Exp2(ex)), Exp10(k));
    MiddleIs(fp.frac, t);
    UpperMidpoint(bits, t);
    LowerMidpoint(bits, t);
    BetweenMidpoints(x, bits);
  }

  lemma MiddleIs(frac: nat, t: nat)
    ensures Middle(frac, t) == 2048 * Times(frac, Two(t)) && Above(t) == 1024 * Two(t)
    ensures Below(frac, t) == if frac == HIDDENBIT then 512 else 1024 * Two(t)
  {
  }

  /** Generation ends at the one level where DropsAt can hold. */
  lemma DropLevel(low: nat, w: nat, high: nat, one: nat, kappa: int, j: nat)
    requires low <= w && DropsAt(low, w, high, one, j)
    requires EndsAt(low, high, one, kappa)
    ensures kappa + j == 0 && j >= 2
  {
    hide HasPoint, Times, Ten;
    if kappa >= 0 {
      HasPointMonotone(low, high, one, 0, j - 1);
    } else if -kappa < j {
      HasPointMonotone(low, high, one, -kappa, j - 1);
    } else if j < -kappa {
      HasPointMonotone(low, high, one, j, -kappa - 1);
    }
  }

  lemma LastDigit(low: nat, w: nat, high: nat, one: nat, kappa: int, text: seq<char>)
    requires one > 0 && low <= w && Generated(low, w, high, one, kappa, text)
    ensures IsDigits(text) && 1 <= |text| <= 17 && text[0] != '0' && -16 <= kappa <= 9
    ensures text[|text| - 1] == '0' <==> kappa < 0 && DropsAt(low, w, high, one, -kappa)
    ensures EndsAt(low, high, one, kappa)
  {
    hide Best, Val, HasPoint, DropsAt, EndsAt, Times, Ten;
  }

  lemma ScaledOnce(fp: Fp, t: nat, low: nat, w: nat, high: nat, one: nat, u: nat, low': nat, w': nat, high': nat,
          one': nat)
    requires ScaledBy(fp, t, low, w, high, one) && ScaledBy(fp, u, low', w', high', one')
    ensures low == low' && w == w' && high == high' && one == one'
  {
    hide CachedPower, CachedIndex, Product, Middle, Below, Above, Two, Normal;
    NormalUnique(fp.frac, t, u);
  }

  lemma DropsIff(bits: u64, t: nat, low: nat, w: nat, high: nat, one: nat, kappa: int, text: seq<char>)
    requires 0 < bits < INFINITY && one > 0 && low <= w
    requires ScaledBy(BuildFp(bits), t, low, w, high, one) && Generated(low, w, high, one, kappa, text)
    ensures IsDigits(text) && 1 <= |text| <= 17 && text[0] != '0' && -16 <= kappa <= 9
    ensures text[|text| - 1] == '0' <==> DropsLastDigit(bits)
  {
    hide BuildFp, Generated, DropsAt, EndsAt, ScaledBy;
    LastDigit(low, w, high, one, kappa, text);
    if DropsLastDigit(bits) {
      var j := DropsOnce(bits, t, low, w, high, one);
      DropLevel(low, w, high, one, kappa, j);
    }
  }

  lemma DropsOnce(bits: u64, t: nat, low: nat, w: nat, high: nat, one: nat) returns (j: nat)
    requires 0 < bits < INFINITY && ScaledBy(BuildFp(bits), t, low, w, high, one) && DropsLastDigit(bits)
    ensures low <= w && DropsAt(low, w, high, one, j)
  {
    hide BuildFp, DropsAt, ScaledBy;
    var u: nat, low': nat, w': nat, high': nat, one': nat, i: nat :|
      ScaledBy(BuildFp(bits), u, low', w', high', one') && low' <= w' && DropsAt(low', w', high', one', i);
    ScaledOnce(BuildFp(bits), t, low, w, high, one, u, low', w', high', one');
    j := i;
  }

  /** grisu2: at most seventeen digits, not starting with 0, that read back to the same double. */
  method Grisu2(bits: u64, digits: array<char>) returns (n: nat, K: int)
    requires 0 < bits < INFINITY && digits.Length >= 18
    modifies digits
    ensures 1 <= n <= 17 && -356 <= K <= 357
    ensures IsDigits(digits[..n]) && digits[0] != '0'
    ensures ReadsBack(Mul(Val(digits[..n]) as real, Exp10(K)), bits)
    ensures digits[n - 1] == '0' <==> DropsLastDigit(bits)
  {
    hide BuildFp, Value, Two, Ten, Exp2, Exp10, Times, Mul, Normal, Product, Generated, ReadsBack, HalfUnit, Val,
         Middle, Below, Above, CachedPower, CachedIndex, DropsLastDigit, Frac, Exp, Guard, Shift;
    var w := BuildFp(bits);
    DoubleFacts(bits);
    ghost var frac, t := w.frac, Shift(w.frac);
    var lower, upper := GetNormalizedBoundaries(w);
    w := Normalize(w);
    BoundaryFacts(bits, t);
    MiddleIs(frac, t);
    var cp, k := FindCachedPow10(upper.exp);
    CachedFacts(upper.exp);
    var W := Multiply(w, cp);
    var U := Multiply(upper, cp);
    var L := Multiply(lower, cp);
    ScaledInterval(w.frac, lower.frac, upper.frac, cp.frac);
    L := Fp(L.frac + 1, L.exp);
    U := Fp(U.frac - 1, U.exp);
    OneFits(-U.exp);
    n, K := GenerateDigits(W, U, L, digits, -k);
    GeneratedReadsBack(bits, t, cp, k, L.frac, W.frac, U.frac, Two(-U.exp), K + k, digits[..n]);
    DropsIff(bits, t, L.frac, W.frac, U.frac, Two(-U.exp), K + k, digits[..n]);
  }

  lemma CachedFacts(exp: int)
    requires -1137 <= exp <= 960
    ensures var fp := CachedPower(CachedIndex(exp));
            && EXPMIN <= exp + fp.exp + 64 <= EXPMAX && 0x8000_0000_0000_0000 <= fp.frac
            && HalfUnit(fp, Power(CachedIndex(exp))) && -348 <= Power(CachedIndex(exp)) <= 340
  {
    hide Search, Guess;
    TableIsRounded(CachedIndex(exp));
    TableShape(CachedIndex(exp));
    hide HalfUnit, Exp2, Exp10;
  }

  // ---------- a last digit that is 0 ----------

  /** 4516744945187376 * 2^-970, about 4.5e-277: printed as 4526158654687500e-292. */
  const TRAILING: u64 := 0x0690_0BF4_A1FF_BA30

  lemma TrailingIndex()
    ensures CachedPower(CachedIndex(-981)) == Fp(12405201291620119593, 880)
  {
    assert Exp(77) == 827 && Exp(78) == 853 && Exp(79) == 880 && Frac(79) == 12405201291620119593;
    assert Guess(-981) == 77;
    hide Exp, Frac, Guess, Guard;
    assert Search(-981, 79) == 79;
    assert Search(-981, 78) == 79;
    assert Search(-981, 77) == 79;
  }

  lemma TrailingProducts()
    ensures Product(2048 * 4516744945187376 - 1024, 12405201291620119593) + 1 == 6220705087484854272
    ensures Product(2048 * 4516744945187376, 12405201291620119593) == 6220705087484854959
    ensures Product(2048 * 4516744945187376 + 1024, 12405201291620119593) - 1 == 6220705087484855647
  {
  }

  /** Grisu2 can print a last digit 0: this double is one for which it does. */
  lemma LastDigitCanBeZero()
    ensures 0 < TRAILING < INFINITY && DropsLastDigit(TRAILING)
  {
    var low, w, high, one := 6220705087484854272, 6220705087484854959, 6220705087484855647, 0x20_0000_0000;
    assert ScaledBy(BuildFp(TRAILING), 0, low, w, high, one) by {
      assert BuildFp(TRAILING) == Fp(4516744945187376, -970);
      Start(4516744945187376);
      TwoPositive(0);
      TrailingIndex();
      TrailingProducts();
      ThirtySeven();
      hide CachedPower, CachedIndex, Product, Times, Two, BuildFp;
    }
    assert DropsAt(low, w, high, one, 8) by {
      TrailingDrops(low, w, high, one);
    }
  }

  lemma ThirtySeven()
    ensures Two(37) == 0x20_0000_0000
  {
    hide Two;
    Literals();
    TwoAdd(26, 11);
    SmallLiterals();
  }

  lemma TrailingDrops(low: nat, w: nat, high: nat, one: nat)
    requires low == 6220705087484854272 && w == 6220705087484854959 && high == 6220705087484855647 &&
             one == 0x20_0000_0000
    ensures DropsAt(low, w, high, one, 8)
  {
    assert Ten(0) == 1 && Ten(7) == 10_000_000 && Ten(8) == 100_000_000;
    hide Ten;
    TimesIs(low, 10_000_000);
    TimesIs(high, 10_000_000);
    TimesIs(low, 100_000_000);
    TimesIs(high, 100_000_000);
    TimesIs(w - low, 100_000_000);
    TimesIs(452615865468750, one);
    TimesIs(4526158654687501, one);
    TimesIs(45261586, one);
    TimesUnit(low);
    hide Times;
    assert Times(452615865468750, one) == Times(low, Ten(7));
    assert Times(low, Ten(8)) < Times(4526158654687501, one) <= Times(high, Ten(8));
    NoCoarser(Times(low, Ten(7)), Times(high, Ten(7)), one, 452615865468750, Times(high, Ten(7)) - Times(low, Ten(7)));
    if m: nat :| Times(m, one) == Times(low, Ten(0)) {
      OffGrid(45261586, low - Times(45261586, one), one, m);
    }
  }
}
