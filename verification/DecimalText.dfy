/** The text layout of fpconv.c, and a reader for it. */
module DecimalText {
  import opened Powers
  import opened DigitGeneration
  import opened Grisu

  // ---------- a reader for decimal text ----------

  /** How far a reader of numbers as RFC 8259, section 6, has them has come (the sign before them is read apart), and
      what it has read: the digits as a number, how many followed the point, and the exponent. */
  datatype Reader =
    | Start | Zero | Whole(mantissa: nat)
    | Point(mantissa: nat) | Fraction(mantissa: nat, scale: nat)
    | Mark(mantissa: nat, scale: nat) | Sign(mantissa: nat, scale: nat, minus: bool)
    | Power(mantissa: nat, scale: nat, minus: bool, exponent: nat)
    | Malformed

  function Step(r: Reader, c: char): Reader
  {
    match r
    case Start => if c == '0' then Zero else if IsDigit(c) then Whole(Digit(c)) else Malformed
    case Zero => if c == '.' then Point(0) else if c == 'e' then Mark(0, 0) else Malformed
    case Whole(m) =>
      if IsDigit(c) then Whole(10 * m + Digit(c)) else if c == '.' then Point(m) else if c == 'e' then Mark(m, 0)
      else Malformed
    case Point(m) => if IsDigit(c) then Fraction(10 * m + Digit(c), 1) else Malformed
    case Fraction(m, s) =>
      if IsDigit(c) then Fraction(10 * m + Digit(c), s + 1) else if c == 'e' then Mark(m, s) else Malformed
    case Mark(m, s) => if c == '-' then Sign(m, s, true) else if c == '+' then Sign(m, s, false) else Malformed
    case Sign(m, s, neg) => if IsDigit(c) then Power(m, s, neg, Digit(c)) else Malformed
    case Power(m, s, neg, e) => if IsDigit(c) then Power(m, s, neg, 10 * e + Digit(c)) else Malformed
    case Malformed => Malformed
  }

  function Read(r: Reader, text: seq<char>): Reader
  {
    if text == [] then r else Step(Read(r, text[..|text| - 1]), text[|text| - 1])
  }

  datatype Reading = NoNumber | Reads(value: real)

  ghost function Denoted(r: Reader): Reading
  {
    match r
    case Zero => Reads(0.0)
    case Whole(m) => Reads(Mul(m as real, Exp10(0)))
    case Fraction(m, s) => Reads(Mul(m as real, Exp10(-(s as int))))
    case Power(m, s, neg, e) => Reads(Mul(m as real, Exp10((if neg then -(e as int) else e) - s)))
    case _ => NoNumber
  }

  /** The number a text denotes, if it is the text of one. */
  ghost function Number(text: seq<char>): Reading
  {
    Denoted(Read(Start, text))
  }

  lemma {:induction false} ReadConcat(r: Reader, a: seq<char>, b: seq<char>)
    ensures Read(r, a + b) == Read(Read(r, a), b)
  {
    hide Step;
    if b == [] {
      assert a + b == a;
    } else {
      ReadConcat(r, a, b[..|b| - 1]);
      assert (a + b)[..|a + b| - 1] == a + b[..|b| - 1];
    }
  }

  lemma ReadOne(r: Reader, c: char)
    ensures Read(r, [c]) == Step(r, c)
  {
    assert [c][..0] == [];
  }

  /** From the second character on it does not matter where the first was read from. */
  lemma SameFrom(r: Reader, r': Reader, d: seq<char>)
    requires d != [] && Step(r, d[0]) == Step(r', d[0])
    ensures Read(r, d) == Read(r', d)
  {
    hide Step, Read;
    assert d == [d[0]] + d[1..];
    ReadConcat(r, [d[0]], d[1..]);
    ReadConcat(r', [d[0]], d[1..]);
    ReadOne(r, d[0]);
    ReadOne(r', d[0]);
  }

  lemma {:induction false} ReadWhole(m: nat, d: seq<char>)
    requires IsDigits(d)
    ensures Read(Whole(m), d) == Whole(Times(m, Ten(|d|)) + Val(d))
  {
    hide Ten, Times;
    TenStep(0);
    TimesUnit(m);
    if d != [] {
      ReadWhole(m, d[..|d| - 1]);
      LevelUp(m, |d| - 1);
    }
  }

  lemma {:induction false} ReadFraction(m: nat, s: nat, d: seq<char>)
    requires IsDigits(d)
    ensures Read(Fraction(m, s), d) == Fraction(Times(m, Ten(|d|)) + Val(d), s + |d|)
  {
    hide Ten, Times;
    TenStep(0);
    TimesUnit(m);
    if d != [] {
      ReadFraction(m, s, d[..|d| - 1]);
      LevelUp(m, |d| - 1);
    }
  }

  lemma {:induction false} ReadPower(m: nat, s: nat, neg: bool, d: seq<char>)
    requires IsDigits(d)
    ensures Read(Power(m, s, neg, 0), d) == Power(m, s, neg, Val(d))
  {
    if d != [] {
      ReadPower(m, s, neg, d[..|d| - 1]);
    }
  }

  /** A number without leading zeros. */
  lemma ReadDigits(d: seq<char>)
    requires IsDigits(d) && d != [] && d[0] != '0'
    ensures Read(Start, d) == Whole(Val(d))
  {
    hide Read, Ten, Times;
    SameFrom(Start, Whole(0), d);
    ReadWhole(0, d);
    TimesUnit(Ten(|d|));
  }

  /** Digits after the point. */
  lemma ReadPlaces(m: nat, d: seq<char>)
    requires IsDigits(d) && d != []
    ensures Read(Point(m), d) == Fraction(Times(m, Ten(|d|)) + Val(d), |d|)
  {
    hide Read, Ten, Times, Val;
    SameFrom(Point(m), Fraction(m, 0), d);
    ReadFraction(m, 0, d);
  }

  lemma ReadPoint(r: Reader, c: char, text: seq<char>)
    ensures Read(r, [c] + text) == Read(Step(r, c), text)
  {
    hide Read, Step;
    ReadConcat(r, [c], text);
    ReadOne(r, c);
  }

  // ---------- the text ----------

  function Zeros(n: nat): (r: seq<char>)
    ensures |r| == n && IsDigits(r)
  {
    seq(n, _ => '0')
  }

  lemma {:induction false} ZerosVal(n: nat)
    ensures Val(Zeros(n)) == 0
  {
    if n > 0 {
      ZerosVal(n - 1);
      assert Zeros(n)[..n - 1] == Zeros(n - 1);
    }
  }

  function Char(digit: nat): char
    requires digit <= 9
  {
    ('0' as int + digit) as char
  }

  /** The exponent, without leading zeros. */
  function ExponentText(exp: nat): seq<char>
    requires exp < 1000
  {
    (if exp > 99 then [Char(exp / 100)] else [])
    + (if exp > 9 then [Char(exp % 100 / 10)] else [])
    + [Char(exp % 10)]
  }

  function AbsInt(x: int): nat
  {
    if x < 0 then -x else x
  }

  /** The three layouts: a plain integer, a plain fraction, scientific. */
  function EmitText(d: seq<char>, K: int): seq<char>
    requires 1 <= |d| <= 17 && AbsInt(K + |d| - 1) < 1000
  {
    var exp := AbsInt(K + |d| - 1);
    if K >= 0 && exp < |d| + 7 then d + Zeros(K)
    else if K < 0 && (K > -7 || exp < 4) then
      if |d| + K <= 0 then "0." + Zeros(-(|d| + K)) + d
      else d[..|d| + K] + "." + d[|d| + K..]
    else
      [d[0]] + (if |d| > 1 then "." + d[1..] else "") + "e" + [if K + |d| - 1 < 0 then '-' else '+'] + ExponentText(exp)
  }

  /** How long the text can get: 24 characters, and that only for a plain integer of seventeen digits and
      seven zeros. */
  lemma EmitLength(d: seq<char>, K: int)
    requires 1 <= |d| <= 17 && AbsInt(K + |d| - 1) < 1000
    ensures 1 <= |EmitText(d, K)| <= 24
    ensures |EmitText(d, K)| == 24 <==> |d| == 17 && K == 7
  {
  }

  lemma ValShort(a: nat, b: nat, c: nat)
    requires a <= 9 && b <= 9 && c <= 9
    ensures Val([Char(c)]) == c
    ensures Val([Char(b), Char(c)]) == 10 * b + c
    ensures Val([Char(a), Char(b), Char(c)]) == 100 * a + 10 * b + c
  {
    ValSnoc([], Char(c));
    ValSnoc([], Char(b));
    ValSnoc([], Char(a));
    assert [] + [Char(c)] == [Char(c)] && [] + [Char(b)] == [Char(b)] && [] + [Char(a)] == [Char(a)];
    ValSnoc([Char(b)], Char(c));
    ValSnoc([Char(a)], Char(b));
    assert [Char(b)] + [Char(c)] == [Char(b), Char(c)] && [Char(a)] + [Char(b)] == [Char(a), Char(b)];
    ValSnoc([Char(a), Char(b)], Char(c));
    assert [Char(a), Char(b)] + [Char(c)] == [Char(a), Char(b), Char(c)];
  }

  lemma ReadExponent(m: nat, s: nat, neg: bool, exp: nat)
    requires exp < 1000
    ensures Read(Sign(m, s, neg), ExponentText(exp)) == Power(m, s, neg, exp)
  {
    hide Read, Val;
    var t := ExponentText(exp);
    var a, b, c := exp / 100, exp % 100 / 10, exp % 10;
    assert t == if exp > 99 then [Char(a), Char(b), Char(c)] else if exp > 9 then [Char(b), Char(c)] else [Char(c)];
    SameFrom(Sign(m, s, neg), Power(m, s, neg, 0), t);
    ReadPower(m, s, neg, t);
    ValShort(a, b, c);
  }

  /** Every layout is the text of a number, and denotes the digits times the power. */
  lemma EmitDenotes(d: seq<char>, K: int)
    requires 1 <= |d| <= 17 && IsDigits(d) && d[0] != '0' && AbsInt(K + |d| - 1) < 1000
    ensures Number(EmitText(d, K)) == Reads(Mul(Val(d) as real, Exp10(K)))
  {
    var exp := AbsInt(K + |d| - 1);
    if K >= 0 && exp < |d| + 7 {
      IntegerDenotes(d, K);
    } else if K < 0 && (K > -7 || exp < 4) {
      if |d| + K <= 0 {
        SmallDenotes(d, -(|d| + K));
      } else {
        MixedDenotes(d, |d| + K);
      }
    } else {
      ScientificDenotes(d, K);
    }
  }

  lemma IntegerDenotes(d: seq<char>, K: nat)
    requires IsDigits(d) && d != [] && d[0] != '0'
    ensures Number(d + Zeros(K)) == Reads(Mul(Val(d) as real, Exp10(K)))
  {
    hide Read, Val, Times, Ten, Exp10, Mul, Zeros;
    ReadConcat(Start, d, Zeros(K));
    ReadDigits(d);
    ReadWhole(Val(d), Zeros(K));
    ZerosVal(K);
    TenAsExp(K);
    ExpZero();
    TimesReal(Val(d), Ten(K));
    MulIs(Times(Val(d), Ten(K)) as real, 1.0);
  }

  lemma SmallDenotes(d: seq<char>, offset: nat)
    requires IsDigits(d) && d != []
    ensures Number("0." + Zeros(offset) + d) == Reads(Mul(Val(d) as real, Exp10(-(offset + |d|))))
  {
    hide Read, Val, Times, Ten, Exp10, Mul, Zeros;
    var places := Zeros(offset) + d;
    assert "0." + Zeros(offset) + d == ['0'] + (['.'] + places);
    ReadPoint(Start, '0', ['.'] + places);
    ReadPoint(Zero, '.', places);
    ReadPlaces(0, places);
    ValConcat(Zeros(offset), d);
    ZerosVal(offset);
    TimesUnit(Ten(|places|));
    TimesUnit(Ten(|d|));
  }

  lemma {:induction false} ValConcat(a: seq<char>, b: seq<char>)
    requires IsDigits(a) && IsDigits(b)
    ensures IsDigits(a + b) && Val(a + b) == Times(Val(a), Ten(|b|)) + Val(b)
  {
    hide Times, Ten;
    TenStep(0);
    TimesUnit(Val(a));
    if b == [] {
      assert a + b == a;
    } else {
      ValConcat(a, b[..|b| - 1]);
      LevelUp(Val(a), |b| - 1);
      assert (a + b)[..|a + b| - 1] == a + b[..|b| - 1];
    }
  }

  lemma MixedDenotes(d: seq<char>, point: nat)
    requires IsDigits(d) && 0 < point < |d| && d[0] != '0'
    ensures Number(d[..point] + "." + d[point..]) == Reads(Mul(Val(d) as real, Exp10(point - |d|)))
  {
    hide Read, Val, Times, Ten, Exp10, Mul, Zeros;
    var a, b := d[..point], d[point..];
    assert a + b == d;
    ValConcat(a, b);
    assert d[..point] + "." + d[point..] == a + (['.'] + b);
    ReadConcat(Start, a, ['.'] + b);
    ReadDigits(a);
    ReadPoint(Whole(Val(a)), '.', b);
    ReadPlaces(Val(a), b);
  }

  lemma ScientificDenotes(d: seq<char>, K: int)
    requires 1 <= |d| <= 17 && IsDigits(d) && d[0] != '0' && AbsInt(K + |d| - 1) < 1000
    ensures Number([d[0]] + (if |d| > 1 then "." + d[1..] else "") + "e" + [if K + |d| - 1 < 0 then '-' else '+'] +
                   ExponentText(AbsInt(K + |d| - 1))) == Reads(Mul(Val(d) as real, Exp10(K)))
  {
    hide Read, Val, Times, Ten, Exp10, Mul, ExponentText;
    var sign := if K + |d| - 1 < 0 then '-' else '+';
    var m, exp := [d[0]] + if |d| > 1 then "." + d[1..] else "", AbsInt(K + |d| - 1);
    var e := ExponentText(exp);
    assert m + "e" + [sign] + e == m + (['e'] + ([sign] + e));
    ReadConcat(Start, m, ['e'] + ([sign] + e));
    ReadMantissa(d);
    ReadPoint(Read(Start, m), 'e', [sign] + e);
    ReadPoint(Mark(Val(d), |d| - 1), sign, e);
    ReadExponent(Val(d), |d| - 1, sign == '-', exp);
  }

  lemma ReadMantissa(d: seq<char>)
    requires 1 <= |d| && IsDigits(d) && d[0] != '0'
    ensures Read(Start, [d[0]] + if |d| > 1 then "." + d[1..] else "")
         == if |d| > 1 then Fraction(Val(d), |d| - 1) else Whole(Val(d))
  {
    hide Read, Val, Times, Ten;
    var a, b := [d[0]], d[1..];
    assert a + b == d;
    ReadDigits(a);
    if |d| > 1 {
      ValConcat(a, b);
      assert a + ("." + b) == a + (['.'] + b);
      ReadConcat(Start, a, ['.'] + b);
      ReadPoint(Whole(Val(a)), '.', b);
      ReadPlaces(Val(a), b);
    } else {
      assert a + "" == a == d;
    }
  }

  // ---------- the layouts ----------

  function DigitCount(n: nat): nat
    requires n < 1000
  {
    if n < 10 then 1 else if n < 100 then 2 else 3
  }

  /** Which layout n digits times 10^K have: digits alone, up to seven zeros after them; a point and no exponent, for at
      most six places or from a thousandth to below ten thousand; otherwise one digit before the point, and an exponent.
      With the number that a text denotes and no leading zeros this fixes every character of it. */
  predicate HasLayout(text: seq<char>, n: nat, K: int)
    requires 0 < n && AbsInt(K + n - 1) < 1000
  {
    var exp := K + n - 1;
    if 0 <= K <= 7 then '.' !in text && 'e' !in text && |text| == n + K
    else if -6 <= K < 0 || (K < 0 && -3 <= exp <= 3) then
      '.' in text && 'e' !in text && |text| == if exp < 0 then 2 - K else n + 1
    else
      && 'e' in text && ('.' in text <==> n > 1) && |text| >= 2 && text[1] == (if n > 1 then '.' else 'e')
      && |text| == (if n > 1 then n + 1 else 1) + 2 + DigitCount(AbsInt(exp))
  }

  lemma NoLetters(d: seq<char>)
    requires IsDigits(d)
    ensures '.' !in d && 'e' !in d
  {
  }

  lemma EmitLayout(d: seq<char>, K: int)
    requires 1 <= |d| <= 17 && IsDigits(d) && AbsInt(K + |d| - 1) < 1000
    ensures HasLayout(EmitText(d, K), |d|, K)
  {
    var exp := AbsInt(K + |d| - 1);
    var text := EmitText(d, K);
    NoLetters(d);
    if K >= 0 && exp < |d| + 7 {
      NoLetters(Zeros(K));
    } else if K < 0 && (K > -7 || exp < 4) {
      if |d| + K <= 0 {
        NoLetters(Zeros(-(|d| + K)));
        assert text[1] == '.';
      } else {
        assert text[|d| + K] == '.';
      }
    } else {
      ExponentLayout(exp);
      var at := if |d| > 1 then |d| + 1 else 1;
      assert text[at] == 'e';
      if |d| > 1 { assert text[1] == '.'; }
    }
  }

  lemma ExponentLayout(exp: nat)
    requires exp < 1000
    ensures IsDigits(ExponentText(exp)) && |ExponentText(exp)| == DigitCount(exp) && '.' !in ExponentText(exp)
  {
  }

  // ---------- emit_digits ----------

  /** The exponent of the scientific layout, digit by digit. */
  method EmitExponent(value: nat) returns (dest: seq<char>)
    requires value < 1000
    ensures dest == ExponentText(value)
  {
    hide Char;
    var exp, cent := value, 0;
    dest := [];
    if exp > 99 {
      cent := exp / 100;
      dest := dest + [Char(cent)];
      exp := exp - cent * 100;
    }
    assert cent == value / 100 && exp == value % 100;
    if exp > 9 {
      var dec := exp / 10;
      dest := dest + [Char(dec)];
      exp := exp - dec * 10;
    } else if cent > 0 {
      ZeroChar();
      dest := dest + ['0'];
    }
    assert exp % 10 == value % 10;
    dest := dest + [Char(exp % 10)];
  }

  lemma ZeroChar()
    ensures Char(0) == '0'
  {
  }

  /** Lays the digits out; dest grows as the source writes it. The clamp to 18 - neg digits never bites. */
  method EmitDigits(digits: seq<char>, K: int, neg: bool) returns (dest: seq<char>)
    requires 1 <= |digits| <= 17 && IsDigits(digits) && AbsInt(K + |digits| - 1) < 1000
    ensures dest == EmitText(digits, K) && HasLayout(dest, |digits|, K)
    ensures digits[0] != '0' ==> Number(dest) == Reads(Mul(Val(digits) as real, Exp10(K)))
  {
    hide ExponentText, HasLayout, Number;
    EmitLayout(digits, K);
    if digits[0] != '0' { EmitDenotes(digits, K); }
    var ndigits := |digits|;
    var exp := AbsInt(K + ndigits - 1);
    if K >= 0 && exp < ndigits + 7 {
      dest := digits;
      dest := dest + Zeros(K);
      return;
    }
    if K < 0 && (K > -7 || exp < 4) {
      var offset := ndigits - AbsInt(K);
      if offset <= 0 {
        offset := -offset;
        dest := "0.";
        dest := dest + Zeros(offset);
        dest := dest + digits;
      } else {
        dest := digits[..offset];
        dest := dest + ".";
        dest := dest + digits[offset..];
      }
      return;
    }
    ndigits := if ndigits < 18 - (if neg then 1 else 0) then ndigits else 18 - (if neg then 1 else 0);
    dest := [digits[0]];
    if ndigits > 1 {
      dest := dest + ".";
      dest := dest + digits[1..ndigits];
    }
    assert dest == [digits[0]] + if |digits| > 1 then "." + digits[1..] else "";
    dest := dest + "e";
    dest := dest + [if K + ndigits - 1 < 0 then '-' else '+'];
    var tail := EmitExponent(exp);
    dest := dest + tail;
  }

  // ---------- fpconv_dtoa ----------

  const SIGNBIT: u64 := 0x8000_0000_0000_0000

  /** A text that denotes a double: its sign, and digits that read back to its magnitude. */
  ghost predicate Denotes(text: seq<char>, neg: bool, magnitude: u64)
    requires magnitude <= INFINITY
  {
    && (neg ==> |text| > 0 && text[0] == '-')
    && var r := Number(if neg then text[1..] else text); r.Reads? && ReadsBack(r.value, magnitude)
  }

  /** Any double to text. A finite one reads back to itself: its text is that of its digits, which have no more than 24
      characters with the sign unless there are 17 of them before seven zeros. */
  method FpconvDtoa(bits: u64) returns (dest: seq<char>, ghost digits: seq<char>, ghost K: int)
    ensures var neg, magnitude := bits >= SIGNBIT, bits % SIGNBIT;
            var sign := if neg then "-" else "";
            && (magnitude == 0 ==> dest == sign + "0")
            && (magnitude == INFINITY ==> dest == sign + "inf")
            && (magnitude > INFINITY ==> dest == sign + "nan")
            && if 0 < magnitude < INFINITY then
                 && 1 <= |digits| <= 17 && IsDigits(digits) && digits[0] != '0' && AbsInt(K + |digits| - 1) < 1000
                 && dest == sign + EmitText(digits, K) && Denotes(dest, neg, magnitude)
                 && Number(dest[|sign|..]) == Reads(Mul(Val(digits) as real, Exp10(K)))
                 && HasLayout(dest[|sign|..], |digits|, K)
               else digits == ""
    ensures 1 <= |dest| <= 25
    ensures |dest| == 25 <==> bits >= SIGNBIT && |digits| == 17 && K == 7
  {
    hide ReadsBack, Number, EmitText, DropsLastDigit, HasLayout;
    digits, K := "", 0;
    var neg, magnitude: u64 := bits >= SIGNBIT, bits % SIGNBIT;
    dest := if neg then "-" else "";
    ghost var sign := dest;
    if magnitude == 0 {
      dest := dest + "0";
      return;
    }
    if magnitude >= INFINITY {
      dest := dest + if magnitude > INFINITY then "nan" else "inf";
      return;
    }
    var buf := new char[18];
    var n, k := Grisu2(magnitude, buf);
    var text := EmitDigits(buf[..n], k, neg);
    digits, K := buf[..n], k;
    EmitLength(digits, K);
    dest := dest + text;
    assert neg ==> dest[1..] == text;
    assert !neg ==> dest == text;
  }

  // ---------- the documented length ----------

  /** 6793552504542864 * 2^26, about 4.6e23. */
  const LONG: u64 := 0x44D8_22B3_33CB_D690

  lemma LongValues()
    ensures Value(LONG) == 455907591104226442346496.0
    ensures Value(LONG - 1) == 455907591104226442346496.0 - 67108864.0
    ensures Value(LONG + 1) == 455907591104226442346496.0 + 67108864.0
  {
    assert BuildFp(LONG) == Fp(6793552504542864, 26);
    assert BuildFp(LONG - 1).exp == 26;
    hide BuildFp, Exp2, Two, Ten;
    Exp2Add(0, 26);
    ExpZero();
    Literals();
    NextDouble(LONG);
    NextDouble(LONG - 1);
  }

  lemma LongInterval(x: real)
    requires ReadsBack(x, LONG)
    ensures 455907591104226408792064.0 < x < 455907591104226475900928.0
  {
    hide Value;
    LongValues();
    assert Abs(x - Value(LONG)) < Abs(x - Value(LONG - 1));
    assert Abs(x - Value(LONG)) < Abs(x - Value(LONG + 1));
  }

  /** Only a seventeen-digit number times 10^7 reads back to this double. */
  lemma NeedsSeventeen(d: seq<char>, K: int)
    requires |d| <= 17 && IsDigits(d) && ReadsBack(Mul(Val(d) as real, Exp10(K)), LONG)
    ensures K == 7 && |d| == 17
  {
    hide Mul, Val, Exp10, Ten, Times, ReadsBack, Value;
    LongInterval(Mul(Val(d) as real, Exp10(K)));
    ValBounds(d);
    SmallTens();
    if K >= 8 {
      WholeMultiple(Val(d), K);
    } else {
      TenMonotone(|d|, if |d| < 17 then 16 else 17);
      AtMost(Val(d), K, if K < 7 then 6 else 7);
      MulIs(Val(d) as real, 1_000_000.0);
      MulIs(Val(d) as real, 10_000_000.0);
    }
  }

  lemma SmallTens()
    ensures Ten(6) == 1_000_000 && Ten(7) == 10_000_000
    ensures Ten(16) == 10_000_000_000_000_000 && Ten(17) == 100_000_000_000_000_000
  {
    SixteenthPower();
  }

  lemma MulRight(a: real, b: real, D: real)
    requires a <= b && 0.0 <= D
    ensures Mul(D, a) <= Mul(D, b)
  {
    Scale(a, b, D);
  }

  lemma AtMost(D: nat, K: int, limit: nat)
    requires K <= limit
    ensures Mul(D as real, Exp10(K)) <= Mul(D as real, Ten(limit) as real)
  {
    hide Ten, Exp10, Mul;
    TenAsExp(limit);
    Exp10Add(K, limit - K);
    TenStep(limit - K);
    MulRight(1.0, Ten(limit - K) as real, Exp10(K));
    MulIs(Exp10(K), Ten(limit - K) as real);
    MulIs(Exp10(K), 1.0);
    MulRight(Exp10(K), Ten(limit) as real, D as real);
  }

  lemma WholeMultiple(D: nat, K: nat)
    requires K >= 8
    ensures exists m: nat :: Mul(D as real, Exp10(K)) == (m * 100_000_000) as real
  {
    hide Ten, Exp10, Times, Mul;
    TenAsExp(K);
    Literals();
    TenAdd(K - 8, 8);
    TimesIs(Ten(K - 8), 100_000_000);
    TimesAssociates(D, Ten(K - 8), 100_000_000);
    TimesIs(Times(D, Ten(K - 8)), 100_000_000);
    TimesReal(D, Ten(K));
    assert Mul(D as real, Exp10(K)) == (Times(D, Ten(K - 8)) * 100_000_000) as real;
  }

  /** fpconv.h promises at most 24 characters. With a minus sign this double takes 25, whatever digits
      that read back are chosen. */
  lemma DocumentedLengthFails(d: seq<char>, K: int)
    requires 1 <= |d| <= 17 && IsDigits(d) && AbsInt(K + |d| - 1) < 1000
    requires ReadsBack(Mul(Val(d) as real, Exp10(K)), LONG)
    ensures |"-" + EmitText(d, K)| == 25
  {
    NeedsSeventeen(d, K);
    EmitLength(d, K);
  }
}
