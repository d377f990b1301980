/** Digit generation of fpconv.c: the shortest decimal inside an interval of scaled integers. */
module DigitGeneration {
  import opened Powers

  /** The array tens of the source. */
  const TENS: seq<u64> :=
    [10000000000000000000, 1000000000000000000, 100000000000000000,
     10000000000000000, 1000000000000000, 100000000000000,
     10000000000000, 1000000000000, 100000000000,
     10000000000, 1000000000, 100000000,
     10000000, 1000000, 100000,
     10000, 1000, 100,
     10, 1]

  lemma TensAre(i: nat)
    requires i < 20
    ensures |TENS| == 20 && TENS[i] == Ten(19 - i)
    decreases 20 - i
  {
    if i < 19 {
      TensAre(i + 1);
      assert Ten(19 - i) == 10 * Ten(18 - i);
    }
  }

  // ---------- digits as a number ----------

  predicate IsDigit(c: char)
  {
    '0' <= c <= '9'
  }

  predicate IsDigits(s: seq<char>)
  {
    forall i :: 0 <= i < |s| ==> IsDigit(s[i])
  }

  function Digit(c: char): nat
    requires IsDigit(c)
  {
    c as int - '0' as int
  }

  function Val(s: seq<char>): nat
    requires IsDigits(s)
  {
    if s == [] then 0 else 10 * Val(s[..|s| - 1]) + Digit(s[|s| - 1])
  }

  lemma ValSnoc(s: seq<char>, c: char)
    requires IsDigits(s) && IsDigit(c)
    ensures IsDigits(s + [c]) && Val(s + [c]) == 10 * Val(s) + Digit(c)
  {
    assert (s + [c])[..|s|] == s;
  }

  lemma {:induction false} ValBounds(s: seq<char>)
    requires IsDigits(s)
    ensures Val(s) < Ten(|s|)
    ensures s != [] && s[0] != '0' ==> Ten(|s| - 1) <= Val(s)
  {
    if s != [] {
      ValBounds(s[..|s| - 1]);
    }
  }

  // ---------- what the digits are for ----------

  /** The product; read Times(m, unit) as the m-th point of a grid. */
  function Times(m: nat, unit: nat): nat
  {
    m * unit
  }

  function Distance(a: int, b: int): nat
  {
    if a < b then b - a else a - b
  }

  /** D units is inside [low, high], no grid ten times coarser has a point above low in there, and no
      point of the grid in there is nearer to w (of two as near, the higher one is taken). */
  ghost predicate Best(low: nat, w: nat, high: nat, unit: nat, D: nat)
  {
    && low <= Times(D, unit) <= high
    && (forall m: nat :: Times(m, 10 * unit) <= high ==> Times(m, 10 * unit) <= low)
    && (forall m: nat :: low <= Times(m, unit) <= high ==> Distance(Times(D, unit), w) <= Distance(Times(m, unit), w))
    && (forall m: nat :: m > D && low <= Times(m, unit) <= high ==>
      Distance(Times(D, unit), w) < Distance(Times(m, unit), w))
  }

  // ---------- round_digit ----------

  /** The candidates of round_digit, counted from the top. */
  function Candidate(rem: nat, kappa: nat, t: nat): nat
  {
    rem + Times(t, kappa)
  }

  /** t steps down is the candidate nearest to frac among those within delta, and the first such. */
  ghost predicate Rounded(rem: nat, unit: nat, t: nat, delta: nat, frac: nat)
  {
    && Candidate(rem, unit, t) <= delta
    && (forall u: nat :: Candidate(rem, unit, u) <= delta ==>
          Distance(Candidate(rem, unit, t), frac) <= Distance(Candidate(rem, unit, u), frac))
    && (forall u: nat :: u < t ==>
          Distance(Candidate(rem, unit, t), frac) < Distance(Candidate(rem, unit, u), frac))
  }

  /** Lowers the last digit while that brings the number nearer to w and keeps it inside the interval.
      All lengths are distances below the upper end: rem of the number, frac of w, delta of the lower end. */
  method RoundDigit(digits: array<char>, ndigits: nat, delta: u64, rem0: u64, kappa: u64, frac: u64)
    returns (ghost t: nat)
    requires 1 <= ndigits <= digits.Length && IsDigit(digits[ndigits - 1])
    requires rem0 <= delta && frac <= delta && kappa > 0
    requires delta <= Candidate(rem0, kappa, Digit(digits[ndigits - 1]))
    modifies digits
    ensures t <= Digit(old(digits[ndigits - 1]))
    ensures digits[..] == old(digits[..])[ndigits - 1 := (old(digits[ndigits - 1]) as int - t) as char]
    ensures Rounded(rem0, kappa, t, delta, frac)
  {
    var rem: u64 := rem0;
    t := 0;
    var d := Digit(digits[ndigits - 1]);
    while rem < frac && delta - rem >= kappa && (rem + kappa < frac || frac - rem > rem + kappa - frac)
      invariant rem == Candidate(rem0, kappa, t) <= delta
      invariant t <= d
      invariant digits[..] == old(digits[..])[ndigits - 1 := (old(digits[ndigits - 1]) as int - t) as char]
      invariant t > 0 ==> rem - kappa < frac && frac - (rem - kappa) > Distance(rem, frac)
      decreases delta - rem
    {
      StepsApart(rem0, kappa, t, t + 1);
      BeforeLast(rem0, kappa, t, d, delta);
      digits[ndigits - 1] := (digits[ndigits - 1] as int - 1) as char;
      rem := rem + kappa;
      t := t + 1;
    }
    forall u: nat | Candidate(rem0, kappa, u) <= delta
      ensures Distance(rem, frac) <= Distance(Candidate(rem0, kappa, u), frac)
      ensures u < t ==> Distance(rem, frac) < Distance(Candidate(rem0, kappa, u), frac)
    {
      if u < t {
        CandidateMonotone(rem0, kappa, u, t - 1);
        StepsApart(rem0, kappa, t - 1, t);
      } else if u > t {
        CandidateMonotone(rem0, kappa, t + 1, u);
        StepsApart(rem0, kappa, t, t + 1);
      }
    }
    forall u: nat | u < t
      ensures Candidate(rem0, kappa, u) <= delta
    {
      CandidateMonotone(rem0, kappa, u, t);
    }
  }

  lemma CandidateMonotone(rem: nat, kappa: nat, t: nat, u: nat)
    requires t <= u
    ensures Candidate(rem, kappa, t) <= Candidate(rem, kappa, u)
  {
    assert u * kappa == t * kappa + (u - t) * kappa;
  }

  lemma BeforeLast(rem: nat, kappa: nat, t: nat, d: nat, delta: nat)
    requires kappa > 0 && Candidate(rem, kappa, t) + kappa <= delta <= Candidate(rem, kappa, d)
    ensures t < d
  {
    if t >= d {
      CandidateMonotone(rem, kappa, d, t);
    }
  }

  lemma StepsApart(rem: nat, kappa: nat, t: nat, u: nat)
    requires u == t + 1
    ensures Candidate(rem, kappa, u) == Candidate(rem, kappa, t) + kappa
  {
    assert (t + 1) * kappa == t * kappa + kappa;
  }

  // ---------- generate_digits ----------

  /** Some multiple of one / 10^j is above low and not above high. */
  ghost predicate HasPoint(low: nat, high: nat, one: nat, j: nat)
  {
    exists m: nat :: Times(low, Ten(j)) < Times(m, one) <= Times(high, Ten(j))
  }

  /** x is a multiple of one / 10^j. */
  ghost predicate OnGrid(x: nat, one: nat, j: nat)
  {
    exists m: nat :: Times(m, one) == Times(x, Ten(j))
  }

  /** The last printed digit is 0 exactly here: the grid one level coarser has no point above low, but
      low itself is on it; and w is nearer to low than half the spacing of the grid printed on. */
  ghost predicate DropsAt(low: nat, w: nat, high: nat, one: nat, j: nat)
    requires low <= w
  {
    && j >= 2
    && HasPoint(low, high, one, j) && !HasPoint(low, high, one, j - 1)
    && OnGrid(low, one, j - 1) && !OnGrid(low, one, 0)
    && 2 * Times(w - low, Ten(j)) < one
  }

  // ---------- products ----------

  lemma TimesApart(a: nat, b: nat, unit: nat)
    requires a < b
    ensures Times(a, unit) + unit <= Times(b, unit)
  {
    assert b * unit == a * unit + unit + (b - a - 1) * unit;
  }

  lemma TimesMonotone(a: nat, b: nat, unit: nat)
    requires a <= b
    ensures Times(a, unit) <= Times(b, unit)
  {
  }

  lemma TimesCancel(a: nat, b: nat, unit: nat)
    requires Times(a, unit) < Times(b, unit)
    ensures a < b
  {
    if b <= a {
      TimesMonotone(b, a, unit);
    }
  }

  lemma TimesTen(x: nat, t: nat)
    ensures Times(10 * x, t) == 10 * Times(x, t) == Times(x, 10 * t)
  {
  }

  lemma TimesAdd(a: nat, b: nat, t: nat)
    ensures Times(a + b, t) == Times(a, t) + Times(b, t)
  {
  }

  lemma TimesAssociates(a: nat, b: nat, c: nat)
    ensures Times(a, Times(b, c)) == Times(Times(a, b), c)
  {
  }

  lemma TimesCommutes(a: nat, b: nat)
    ensures Times(a, b) == Times(b, a)
  {
  }

  lemma TimesUnit(a: nat)
    ensures Times(a, 1) == a == Times(1, a) && Times(0, a) == 0
  {
  }

  /** A number with a rest is between two grid points. */
  lemma OffGrid(V: nat, rest: nat, one: nat, m: nat)
    requires rest < one && Times(m, one) == Times(V, one) + rest
    ensures m == V && rest == 0
  {
    hide Times;
    if m < V {
      TimesApart(m, V, one);
    } else if m > V {
      TimesApart(V, m, one);
    }
  }

  lemma ZeroOnGrid(one: nat)
    ensures OnGrid(0, one, 0)
  {
    TimesUnit(one);
    TimesUnit(Ten(0));
    assert Times(0, one) == Times(0, Ten(0));
  }

  // ---------- levels ----------

  lemma TenStep(n: nat)
    ensures Ten(n + 1) == 10 * Ten(n) && Ten(n) > 0 && Ten(0) == 1
  {
  }

  lemma LevelUp(x: nat, j: nat)
    ensures Times(x, Ten(j + 1)) == 10 * Times(x, Ten(j))
  {
    hide *;
    TenStep(j);
    TimesTen(x, Ten(j));
  }

  /** A finer grid keeps the points of a coarser one. */
  lemma {:induction false} HasPointMonotone(low: nat, high: nat, one: nat, i: nat, j: nat)
    requires i <= j && HasPoint(low, high, one, i)
    ensures HasPoint(low, high, one, j)
  {
    hide Ten, Times;
    if i < j {
      HasPointMonotone(low, high, one, i, j - 1);
      var m: nat :| Times(low, Ten(j - 1)) < Times(m, one) <= Times(high, Ten(j - 1));
      LevelUp(low, j - 1);
      LevelUp(high, j - 1);
      TimesTen(m, one);
      assert Times(low, Ten(j)) < Times(10 * m, one);
    }
  }

  lemma PointAbove(low: nat, high: nat, one: nat, p: nat)
    requires low <= Times(p, one) <= high
    ensures OnGrid(low, one, 0) || HasPoint(low, high, one, 0)
  {
    hide Ten, Times;
    TenStep(0);
    TimesUnit(low);
    TimesUnit(high);
    assert Times(p, one) <= Times(high, Ten(0));
  }

  // ---------- the best point of a grid ----------

  /** What is left above the number reaches down past the lower end: the grid has no point above low. */
  lemma NoCoarser(low: nat, high: nat, unit: nat, V: nat, rem: nat)
    requires high == Times(V, unit) + rem && rem < unit && high - low <= rem
    ensures forall m: nat :: Times(m, unit) <= high ==> Times(m, unit) <= low
  {
    hide Times;
    forall m: nat | Times(m, unit) <= high
      ensures Times(m, unit) <= low
    {
      if m > V {
        TimesApart(V, m, unit);
      } else if m < V {
        TimesApart(m, V, unit);
      }
    }
  }

  lemma TimesFromTop(D: nat, unit: nat, t: nat, rem: nat)
    requires t <= D
    ensures Times(D, unit) + rem - Times(D - t, unit) == Candidate(rem, unit, t)
  {
  }

  /** Rounding the last digit picks the best point of its grid. */
  lemma RoundedIsBest(low: nat, w: nat, high: nat, unit: nat, D: nat, rem: nat, t: nat)
    requires low <= w <= high && unit > 0 && t <= D
    requires high == Times(D, unit) + rem && rem < unit
    requires forall m: nat :: Times(m, 10 * unit) <= high ==> Times(m, 10 * unit) <= low
    requires Rounded(rem, unit, t, high - low, high - w)
    ensures Best(low, w, high, unit, D - t)
  {
    hide Times, Candidate;
    TimesFromTop(D, unit, t, rem);
    forall m: nat | low <= Times(m, unit) <= high
      ensures Distance(Times(D - t, unit), w) <= Distance(Times(m, unit), w)
      ensures m > D - t ==> Distance(Times(D - t, unit), w) < Distance(Times(m, unit), w)
    {
      if m > D {
        TimesApart(D, m, unit);
        assert false;
      }
      TimesFromTop(D, unit, D - m, rem);
      assert Candidate(rem, unit, D - m) <= high - low;
    }
  }

  /** When rounding takes the last digit all the way to 0. */
  lemma DropsWhen(rem: nat, unit: nat, digit: nat, t: nat, delta: nat, frac: nat)
    requires unit > 0 && frac <= delta <= Candidate(rem, unit, digit) && 0 < digit && t <= digit
    requires Rounded(rem, unit, t, delta, frac)
    ensures t == digit <==> Candidate(rem, unit, digit) == delta && 2 * (delta - frac) < unit
  {
    hide Candidate;
    StepsApart(rem, unit, digit - 1, digit);
    if t < digit {
      CandidateMonotone(rem, unit, t, digit - 1);
    } else {
      assert Distance(Candidate(rem, unit, t), frac) < Distance(Candidate(rem, unit, digit - 1), frac);
    }
  }

  // ---------- the number of digits ----------

  lemma Narrow(i: nat, t: nat, V: nat, one: nat, part2: nat, high: nat, delta: nat, T: nat)
    requires t > 0 && high <= Times(t, delta)
    requires Times(high, T) == Times(V, one) + part2 && i <= V && part2 < one && Times(delta, T) <= part2
    ensures i < t
  {
    hide *;
    TimesMonotone(i, V, one);
    TimesMonotone(high, Times(t, delta), T);
    TimesAssociates(t, delta, T);
    TimesCommutes(t, Times(delta, T));
    TimesMonotone(Times(delta, T), part2, t);
    TimesApart(part2, one, t);
    TimesCommutes(one, t);
    TimesCancel(i, t, one);
  }

  /** The number of digits is bounded by how narrow the interval is. */
  lemma DigitCount(V: nat, idx: nat, one: nat, part2: nat, high: nat, delta: nat, T: nat)
    requires idx > 0 && high <= Times(Ten(16), delta)
    requires Times(high, T) == Times(V, one) + part2 && Ten(idx - 1) <= V && part2 < one && Times(delta, T) <= part2
    ensures idx <= 16
  {
    hide *;
    TenStep(16);
    Narrow(Ten(idx - 1), Ten(16), V, one, part2, high, delta, T);
    if idx > 16 { TenMonotone(16, idx - 1); }
  }

  lemma TenMonotone(a: nat, b: nat)
    requires a <= b
    ensures Ten(a) <= Ten(b)
  {
    if a < b {
      TenMonotone(a, b - 1);
    }
  }

  // ---------- the steps of generate_digits ----------

  /** kappa is the first position at which the interval has a point. */
  ghost predicate EndsAt(low: nat, high: nat, one: nat, kappa: int)
  {
    if kappa >= 0 then OnGrid(low, one, 0) || HasPoint(low, high, one, 0)
    else HasPoint(low, high, one, -kappa) && !HasPoint(low, high, one, -kappa - 1)
  }

  /** What the digits text mean when generation stops at decimal position kappa of the scaled interval
      [low, high] around w, in which one stands for 1. */
  ghost predicate Generated(low: nat, w: nat, high: nat, one: nat, kappa: int, text: seq<char>)
    requires low <= w
  {
    && IsDigits(text) && 1 <= |text| <= 17 && text[0] != '0' && -16 <= kappa <= 9
    && EndsAt(low, high, one, kappa)
    && (if kappa >= 0 then
          && Best(low, w, high, Times(Ten(kappa), one), Val(text))
          && text[|text| - 1] != '0'
        else
          && Best(Times(low, Ten(-kappa)), Times(w, Ten(-kappa)), Times(high, Ten(-kappa)), one, Val(text))
          && (text[|text| - 1] == '0' <==> DropsAt(low, w, high, one, -kappa)))
  }

  ghost predicate Written(text: seq<char>)
  {
    IsDigits(text) && (text != [] ==> text[0] != '0')
  }

  /** The loops write the next digit unless it is a leading zero. */
  function WithDigit(text: seq<char>, digit: nat): (r: seq<char>)
    requires digit <= 9
    ensures |text| <= |r| <= |text| + 1
  {
    if digit != 0 || text != [] then text + [('0' as int + digit) as char] else text
  }

  lemma WithDigitVal(text: seq<char>, digit: nat)
    requires Written(text) && digit <= 9
    ensures Written(WithDigit(text, digit)) && Val(WithDigit(text, digit)) == 10 * Val(text) + digit
  {
    if digit != 0 || text != [] {
      ValSnoc(text, ('0' as int + digit) as char);
    }
  }

  /** The effect of round_digit on the written digits. */
  function LowerLast(text: seq<char>, t: nat): seq<char>
    requires IsDigits(text) && text != [] && t <= Digit(text[|text| - 1])
    ensures |LowerLast(text, t)| == |text|
  {
    text[|text| - 1 := (text[|text| - 1] as int - t) as char]
  }

  lemma LowerLastVal(text: seq<char>, t: nat)
    requires Written(text) && text != [] && t <= Digit(text[|text| - 1]) && t < Val(text)
    ensures Written(LowerLast(text, t)) && Val(LowerLast(text, t)) == Val(text) - t
    ensures LowerLast(text, t)[|text| - 1] == '0' <==> t == Digit(text[|text| - 1])
  {
    assert LowerLast(text, t)[..|text| - 1] == text[..|text| - 1];
    if |text| == 1 {
      assert text[..0] == [];
    }
  }

  /** The state of the first loop: the digits so far, then part1 and part2 still to be written. */
  ghost predicate InInteger(high: nat, one: nat, kappa: nat, text: seq<char>, part1: nat, part2: nat, delta: nat)
  {
    && Written(text) && |text| <= 10 - kappa
    && high == Times(Val(text), Times(Ten(kappa), one)) + Times(part1, one) + part2
    && part1 < Ten(kappa) && part2 < one
    && delta < Times(part1, one) + part2
  }

  lemma PartsBelow(part1: nat, part2: nat, one: nat, T: nat)
    requires part1 < T && part2 < one
    ensures Times(part1, one) + part2 < Times(T, one)
  {
    hide Times;
    TimesApart(part1, T, one);
  }

  /** One digit of the integer part splits off: rest is what remains below it. */
  lemma IntegerStep(high: nat, one: nat, kappa: nat, text: seq<char>, part1: nat, part2: nat, delta: nat,
                    digit: nat, rest: nat)
    requires InInteger(high, one, kappa + 1, text, part1, part2, delta)
    requires part1 == Times(digit, Ten(kappa)) + rest && rest < Ten(kappa)
    ensures digit <= 9 && |text| < 10
    ensures Written(WithDigit(text, digit)) && Val(WithDigit(text, digit)) == 10 * Val(text) + digit
    ensures high == Times(Val(WithDigit(text, digit)), Times(Ten(kappa), one)) + Times(rest, one) + part2
    ensures high == Times(Val(text), 10 * Times(Ten(kappa), one)) + Times(part1, one) + part2
    ensures delta < Times(rest, one) + part2 ==> InInteger(high, one, kappa, WithDigit(text, digit), rest, part2, delta)
    ensures Times(part1, one) == Times(digit, Times(Ten(kappa), one)) + Times(rest, one)
    ensures Times(part1, one) + part2 < 10 * Times(Ten(kappa), one)
    ensures Times(rest, one) + part2 < Times(Ten(kappa), one)
  {
    hide Ten, Times, Val, WithDigit;
    var V, T := Val(text), Ten(kappa);
    TenStep(kappa);
    TimesTen(T, one);
    PartsBelow(rest, part2, one, T);
    PartsBelow(part1, part2, one, Ten(kappa + 1));
    TimesUnit(T);
    TimesTen(1, T);
    TimesCancel(digit, 10, T);
    WithDigitVal(text, digit);
    TimesAdd(Times(digit, T), rest, one);
    TimesAssociates(digit, T, one);
    TimesTen(V, Times(T, one));
    TimesAdd(10 * V, digit, Times(T, one));
  }

  /** When the test of the first loop stops it, the last digit written is not 0 and round_digit may run. */
  lemma IntegerReady(high: nat, one: nat, kappa: nat, text: seq<char>, part1: nat, part2: nat, delta: nat,
                     digit: nat, rest: nat)
    requires InInteger(high, one, kappa + 1, text, part1, part2, delta)
    requires part1 == Times(digit, Ten(kappa)) + rest && rest < Ten(kappa)
    requires Times(rest, one) + part2 <= delta
    ensures 0 < digit <= 9
    ensures var text' := WithDigit(text, digit);
            Written(text') && text' != [] && Digit(text'[|text'| - 1]) == digit
    ensures delta < Candidate(Times(rest, one) + part2, Times(Ten(kappa), one), digit)
    ensures Times(Ten(kappa), one) <= high
  {
    hide Ten, Times, Val;
    IntegerStep(high, one, kappa, text, part1, part2, delta, digit, rest);
    var unit := Times(Ten(kappa), one);
    TimesUnit(unit);
    TimesMonotone(1, digit, unit);
  }

  /** The end of generate_digits in its first loop. */
  lemma IntegerExit(low: nat, w: nat, high: nat, one: nat, kappa: nat, text: seq<char>, part1: nat, part2: nat,
                    digit: nat, rest: nat, t: nat)
    requires one > 0 && kappa <= 9 && 0 < low <= w <= high
    requires InInteger(high, one, kappa + 1, text, part1, part2, high - low)
    requires part1 == Times(digit, Ten(kappa)) + rest && rest < Ten(kappa)
    requires Times(rest, one) + part2 <= high - low
    requires t <= digit <= 9 && Rounded(Times(rest, one) + part2, Times(Ten(kappa), one), t, high - low, high - w)
    requires Written(WithDigit(text, digit)) && WithDigit(text, digit) != []
    requires Digit(WithDigit(text, digit)[|WithDigit(text, digit)| - 1]) == digit
    ensures Generated(low, w, high, one, kappa, LowerLast(WithDigit(text, digit), t))
  {
    hide Ten, Times, Val, Best, Distance, HasPoint;
    IntegerReady(high, one, kappa, text, part1, part2, high - low, digit, rest);
    IntegerStep(high, one, kappa, text, part1, part2, high - low, digit, rest);
    var unit, V, rem := Times(Ten(kappa), one), Val(WithDigit(text, digit)), Times(rest, one) + part2;
    NoCoarser(low, high, 10 * unit, Val(text), Times(part1, one) + part2);
    RoundedIsBest(low, w, high, unit, V, rem, t);
    DropsWhen(rem, unit, digit, t, high - low, high - w);
    BestIsPositive(low, w, high, unit, V - t);
    LowerLastVal(WithDigit(text, digit), t);
    TimesAssociates(V, Ten(kappa), one);
    PointAbove(low, high, one, Times(V, Ten(kappa)));
  }

  lemma BestIsPositive(low: nat, w: nat, high: nat, unit: nat, D: nat)
    requires 0 < low && Best(low, w, high, unit, D)
    ensures D > 0
  {
    TimesUnit(unit);
  }

  /** The state of the second loop at level j: part2 of one is still to be written, and the interval has
      been scaled by ten j times. */
  ghost predicate InFraction(low: nat, high: nat, one: nat, j: nat, text: seq<char>, part2: nat, delta: nat)
    requires one > 0 && low <= high
  {
    && Written(text) && j < |text| <= 16 && !OnGrid(low, one, 0)
    && Times(high, Ten(j)) == Times(Val(text), one) + part2 && part2 < one
    && delta == Times(high - low, Ten(j)) <= part2
    && (j == 0 ==> delta < part2)
  }

  /** A number that is at least one has a digit before its fraction. */
  lemma FractionStart(low: nat, high: nat, one: nat, text: seq<char>, part1: nat, part2: nat)
    requires 0 < one <= high && low <= high
    requires InInteger(high, one, 0, text, part1, part2, high - low)
    ensures InFraction(low, high, one, 0, text, part2, high - low)
  {
    hide Times, Val;
    TenStep(0);
    TimesUnit(one);
    TimesUnit(high);
    TimesUnit(high - low);
    if text == [] {
      Nothing(text);
    }
    TimesUnit(low);
    if m: nat :| Times(m, one) == Times(low, Ten(0)) {
      OffGrid(Val(text), part2 - (high - low), one, m);
    }
  }

  lemma Nothing(text: seq<char>)
    requires text == []
    ensures Val(text) == 0
  {
  }

  /** Scaling an interval by ten. */
  lemma IntervalUp(low: nat, high: nat, j: nat)
    requires low <= high
    ensures Times(high, Ten(j + 1)) == 10 * Times(high, Ten(j))
    ensures Times(low, Ten(j + 1)) == 10 * Times(low, Ten(j))
    ensures Times(high - low, Ten(j)) == Times(high, Ten(j)) - Times(low, Ten(j)) >= 0
    ensures Times(high - low, Ten(j + 1)) == 10 * Times(high - low, Ten(j))
  {
    hide *;
    LevelUp(high, j);
    LevelUp(low, j);
    LevelUp(high - low, j);
    TimesAdd(high - low, low, Ten(j));
  }

  /** One digit of the fraction splits off: rest is what remains below it. */
  lemma FractionStep(low: nat, high: nat, one: nat, j: nat, text: seq<char>, part2: nat, delta: nat,
                     digit: nat, rest: nat)
    requires one > 0 && low <= high <= Times(Ten(16), high - low)
    requires InFraction(low, high, one, j, text, part2, delta)
    requires 10 * part2 == Times(digit, one) + rest && rest < one
    ensures digit <= 9 && 10 * delta <= 10 * part2 && 0 < high - low <= delta
    ensures Written(WithDigit(text, digit)) && Val(WithDigit(text, digit)) == 10 * Val(text) + digit
    ensures Times(high, Ten(j + 1)) == Times(Val(WithDigit(text, digit)), one) + rest
    ensures Times(high, Ten(j + 1)) == Times(Val(text), 10 * one) + 10 * part2
    ensures 10 * delta == Times(high - low, Ten(j + 1))
    ensures 10 * delta <= rest ==> InFraction(low, high, one, j + 1, WithDigit(text, digit), rest, 10 * delta)
  {
    hide Ten, Times, Val;
    var V := Val(text);
    IntervalUp(low, high, j);
    TimesTen(1, one);
    TimesUnit(one);
    TimesCancel(digit, 10, one);
    WithDigitVal(text, digit);
    TimesTen(V, one);
    TimesAdd(10 * V, digit, one);
    Positive(high - low, j);
    TimesCommutes(Ten(16), 0);
    TimesUnit(Ten(16));
    ZeroOnGrid(one);
    if 10 * delta <= rest {
      ValBounds(WithDigit(text, digit));
      DigitCount(Val(WithDigit(text, digit)), |WithDigit(text, digit)|, one, rest, high, high - low, Ten(j + 1));
    }
  }

  lemma Positive(delta: nat, j: nat)
    ensures delta <= Times(delta, Ten(j))
  {
    hide Times;
    TenStep(j);
    TimesUnit(delta);
    TimesCommutes(delta, Ten(j));
    TimesMonotone(1, Ten(j), delta);
  }

  /** The grid of level j has no point above low; that of level j + 1 has one. */
  lemma FinishLevels(low: nat, high: nat, one: nat, j: nat, text: seq<char>, part2: nat, delta: nat,
                     digit: nat, rest: nat)
    requires one > 0 && low <= high <= Times(Ten(16), high - low)
    requires InFraction(low, high, one, j, text, part2, delta)
    requires 10 * part2 == Times(digit, one) + rest && rest < one && rest < 10 * delta
    ensures EndsAt(low, high, one, -(j + 1))
    ensures OnGrid(low, one, j) <==> delta == part2
  {
    hide Ten, Times, Val;
    FractionStep(low, high, one, j, text, part2, delta, digit, rest);
    IntervalUp(low, high, j);
    var V, V' := Val(text), Val(WithDigit(text, digit));
    assert Times(low, Ten(j + 1)) < Times(V', one);
    NoCoarser(Times(low, Ten(j)), Times(high, Ten(j)), one, V, part2);
    if delta == part2 {
      assert Times(V, one) == Times(low, Ten(j));
    } else if m: nat :| Times(m, one) == Times(low, Ten(j)) {
      OffGrid(V, part2 - delta, one, m);
    }
  }

  lemma FractionReady(low: nat, high: nat, one: nat, j: nat, text: seq<char>, part2: nat, delta: nat,
                      digit: nat, rest: nat)
    requires one > 0 && low <= high <= Times(Ten(16), high - low)
    requires InFraction(low, high, one, j, text, part2, delta)
    requires 10 * part2 == Times(digit, one) + rest && rest < one && rest < 10 * delta
    ensures 0 < digit <= 9 && 10 * delta <= Candidate(rest, one, digit) == 10 * part2
    ensures var text' := WithDigit(text, digit);
            Written(text') && j + 2 <= |text'| <= 17 && Digit(text'[|text'| - 1]) == digit
    ensures j >= 1 || delta != part2
    ensures !OnGrid(low, one, 0)
  {
    hide Ten, Val;
    FractionStep(low, high, one, j, text, part2, delta, digit, rest);
  }

  /** Rounding in the second loop, with every length scaled to the level. */
  lemma RoundFraction(low: nat, w: nat, high: nat, one: nat, V0: nat, V: nat, part: nat, digit: nat, rest: nat, t: nat)
    requires one > 0 && low <= w <= high && t <= digit && t <= V && 0 < digit
    requires high == Times(V, one) + rest == Times(V0, 10 * one) + part
    requires rest < one && rest < high - low <= part < 10 * one && Candidate(rest, one, digit) == part
    requires Rounded(rest, one, t, high - low, high - w)
    ensures Best(low, w, high, one, V - t)
    ensures t == digit <==> part == high - low && 2 * (w - low) < one
  {
    hide Times, Candidate, Rounded, Best, Distance;
    NoCoarser(low, high, 10 * one, V0, part);
    RoundedIsBest(low, w, high, one, V, rest, t);
    DropsWhen(rest, one, digit, t, high - low, high - w);
  }

  lemma Scaled(low: nat, w: nat, high: nat, j: nat)
    requires low <= w <= high
    ensures Times(low, Ten(j)) <= Times(w, Ten(j)) <= Times(high, Ten(j))
    ensures Times(high, Ten(j)) - Times(low, Ten(j)) == Times(high - low, Ten(j))
    ensures Times(high, Ten(j)) - Times(w, Ten(j)) == Times(high - w, Ten(j))
    ensures Times(w, Ten(j)) - Times(low, Ten(j)) == Times(w - low, Ten(j))
  {
    hide *;
    IntervalUp(low, high, j);
    IntervalUp(low, w, j);
    IntervalUp(w, high, j);
  }

  /** The end of generate_digits in its second loop. */
  lemma FractionExit(low: nat, w: nat, high: nat, one: nat, j: nat, text: seq<char>, part2: nat, delta: nat,
                     digit: nat, rest: nat, t: nat)
    requires one > 0 && 0 < low <= w <= high <= Times(Ten(16), high - low)
    requires InFraction(low, high, one, j, text, part2, delta)
    requires 10 * part2 == Times(digit, one) + rest && rest < one && rest < 10 * delta
    requires t <= digit <= 9 && Rounded(rest, one, t, 10 * delta, Times(high - w, Ten(j + 1)))
    requires Written(WithDigit(text, digit)) && WithDigit(text, digit) != []
    requires Digit(WithDigit(text, digit)[|WithDigit(text, digit)| - 1]) == digit
    ensures Generated(low, w, high, one, -(j + 1), LowerLast(WithDigit(text, digit), t))
  {
    hide Ten, Times, Candidate, Rounded, Val, Best, Distance, HasPoint, LowerLast;
    FractionReady(low, high, one, j, text, part2, delta, digit, rest);
    FractionStep(low, high, one, j, text, part2, delta, digit, rest);
    FinishLevels(low, high, one, j, text, part2, delta, digit, rest);
    Scaled(low, w, high, j + 1);
    var V, T := Val(WithDigit(text, digit)), Ten(j + 1);
    RoundFraction(Times(low, T), Times(w, T), Times(high, T), one, Val(text), V, 10 * part2, digit, rest, t);
    Positive(low, j + 1);
    BestIsPositive(Times(low, T), Times(w, T), Times(high, T), one, V - t);
    LowerLastVal(WithDigit(text, digit), t);
  }

  // ---------- generate_digits ----------

  lemma OneFits(s: nat)
    requires 32 <= s <= 60
    ensures 0x1_0000_0000 <= Two(s) <= 0x1000_0000_0000_0000
  {
    hide *;
    SixtyBits();
    TwoMonotone(32, s);
    TwoMonotone(s, 60);
  }

  lemma SixtyBits()
    ensures Two(60) == 0x1000_0000_0000_0000 && Two(32) == 0x1_0000_0000
  {
    hide *;
    SmallLiterals();
    TwoAdd(16, 16);
    TwoAdd(32, 28);
    TwoAdd(16, 12);
  }

  /** Splitting the upper end into integer and fraction: the integer part has at most ten digits. */
  lemma IntegerStart(high: u64, one: nat, delta: nat, text: seq<char>, part1: nat, part2: nat)
    requires 0x1_0000_0000 <= one && delta < high && text == []
    requires high == Times(part1, one) + part2 && part2 < one
    ensures InInteger(high, one, 10, text, part1, part2, delta)
  {
    assert Ten(10) == 10_000_000_000;
    Nothing(text);
    TimesIs(0x1_0000_0000, 0x1_0000_0000);
    hide Ten, Times, Val;
    TimesUnit(Times(Ten(10), one));
    TimesCommutes(0x1_0000_0000, one);
    TimesMonotone(0x1_0000_0000, one, 0x1_0000_0000);
    TimesCancel(part1, 0x1_0000_0000, one);
  }

  lemma TimesIs(a: nat, b: nat)
    ensures Times(a, b) == a * b
  {
  }

  /** A word divided: with div a power of two, the shift and the mask of the source. */
  method Divide(part: u64, div: u64) returns (digit: u64, rest: u64)
    requires div > 0
    ensures part == Times(digit, div) + rest && rest < div
  {
    digit := part / div;
    rest := part - digit * div;
  }

  /** The second loop of generate_digits: the digits below one. */
  method FractionDigits(ghost low: u64, ghost w: u64, ghost high: u64, one: u64, digits: array<char>, idx0: nat,
                        part: u64, width: u64, wfrac: u64, k: int) returns (n: nat, K: int)
    requires digits.Length >= 18
    requires 0 < one <= 0x1000_0000_0000_0000 && wfrac == high - w
    requires 0 < low <= w <= high <= Times(Ten(16), high - low)
    requires idx0 <= digits.Length && InFraction(low, high, one, 0, digits[..idx0], part, width)
    modifies digits
    ensures n <= digits.Length
    ensures Generated(low, w, high, one, K - k, digits[..n])
  {
    hide Two, Ten, Times, Candidate, Rounded, Val, Written, Generated, InFraction, LowerLast, WithDigit;
    var idx, part2, delta, kappa := idx0, part, width, 0;
    var unit := 18;
    FractionBounds(low, high, one, 0, digits[..idx], part2, delta);
    while true
      invariant 2 <= unit <= 18 && kappa == unit - 18 && 0 < idx <= 16
      invariant InFraction(low, high, one, 18 - unit, digits[..idx], part2, delta)
      decreases one - delta
    {
      ghost var text, tail, unscaled, j := digits[..idx], part2, delta, 18 - unit;
      FractionBounds(low, high, one, j, text, part2, delta);
      part2 := part2 * 10;
      delta := delta * 10;
      kappa := kappa - 1;
      var digit, rest := Divide(part2, one);
      FractionStep(low, high, one, j, text, tail, unscaled, digit, rest);
      if digit != 0 || idx != 0 {
        digits[idx] := ('0' as int + digit) as char;
        idx := idx + 1;
      }
      Extended(text, digits[..idx], digit);
      part2 := rest;
      if part2 < delta {
        K := k + kappa;
        FractionReady(low, high, one, j, text, tail, unscaled, digit, rest);
        ghost var written := digits[..idx];
        TensAre(unit);
        Scaled(low, w, high, j + 1);
        ghost var t := RoundDigit(digits, idx, delta, part2, one, Times(wfrac, TENS[unit]));
        FractionExit(low, w, high, one, j, text, tail, unscaled, digit, rest, t);
        Lowered(written, digits[..idx], t);
        return idx, K;
      }
      FractionBounds(low, high, one, j + 1, digits[..idx], part2, delta);
      unit := unit - 1;
    }
  }

  /** Writes the digits of a number inside [lower, upper] that is shortest and then nearest to fp. */
  method GenerateDigits(fp: Fp, upper: Fp, lower: Fp, digits: array<char>, k: int) returns (n: nat, K: int)
    requires digits.Length >= 18
    requires EXPMIN <= upper.exp <= EXPMAX
    requires 0 < lower.frac <= fp.frac <= upper.frac
    requires Two(-upper.exp) <= upper.frac <= Times(Ten(16), upper.frac - lower.frac)
    modifies digits
    ensures n <= digits.Length
    ensures Generated(lower.frac, fp.frac, upper.frac, Two(-upper.exp), K - k, digits[..n])
  {
    hide Two, Ten, Times, Candidate, Rounded, Val, Written, Generated, InInteger, InFraction, LowerLast, WithDigit;
    ghost var low, w, high := lower.frac, fp.frac, upper.frac;
    var wfrac: u64 := upper.frac - fp.frac;
    var delta: u64 := upper.frac - lower.frac;
    OneFits(-upper.exp);
    var one: u64 := Two(-upper.exp);
    var part1, part2 := Divide(upper.frac, one);
    var idx, kappa, divp := 0, 10, 10;
    IntegerStart(upper.frac, one, delta, digits[..0], part1, part2);
    while kappa > 0
      invariant 0 <= kappa <= 10 && divp == 20 - kappa && 0 <= idx <= 10 - kappa
      invariant InInteger(high, one, kappa, digits[..idx], part1, part2, delta)
    {
      ghost var text, part := digits[..idx], part1;
      TensAre(divp);
      TenStep(kappa - 1);
      var div: u64 := TENS[divp];
      var digit, rest := Divide(part1, div);
      IntegerStep(high, one, kappa - 1, text, part1, part2, delta, digit, rest);
      if digit != 0 || idx != 0 {
        digits[idx] := ('0' as int + digit) as char;
        idx := idx + 1;
      }
      Extended(text, digits[..idx], digit);
      part1 := rest;
      kappa := kappa - 1;
      var tmp: u64 := Times(part1, one) + part2;
      if tmp <= delta {
        K := k + kappa;
        IntegerReady(high, one, kappa, text, part, part2, delta, digit, rest);
        ghost var written := digits[..idx];
        ghost var t := RoundDigit(digits, idx, delta, tmp, Times(div, one), wfrac);
        IntegerExit(low, w, high, one, kappa, text, part, part2, digit, rest, t);
        Lowered(written, digits[..idx], t);
        return idx, K;
      }
      divp := divp + 1;
    }
    FractionStart(low, high, one, digits[..idx], part1, part2);
    n, K := FractionDigits(low, w, high, one, digits, idx, part2, delta, wfrac, k);
  }

  lemma FractionBounds(low: nat, high: nat, one: nat, j: nat, text: seq<char>, part2: nat, delta: nat)
    requires one > 0 && low <= high && InFraction(low, high, one, j, text, part2, delta)
    ensures delta <= part2 < one && j < |text| <= 16
  {
  }

  lemma Lowered(text: seq<char>, text': seq<char>, t: nat)
    requires Written(text) && text != [] && t <= Digit(text[|text| - 1])
    requires text' == text[|text| - 1 := (text[|text| - 1] as int - t) as char]
    ensures text' == LowerLast(text, t)
  {
  }

  lemma Extended(text: seq<char>, text': seq<char>, digit: nat)
    requires digit <= 9
    requires text' == if digit != 0 || text != [] then text + [('0' as int + digit) as char] else text
    ensures text' == WithDigit(text, digit)
  {
  }
}
