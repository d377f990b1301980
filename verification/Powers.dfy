/** The cached powers of ten of powers.h, and why each is exact to half a unit. */
module Powers {

  /** A 64-bit word: every assignment to one is a proof that nothing wrapped. */
  type u64 = x: int | 0 <= x < 0x1_0000_0000_0000_0000

  /** The number frac * 2^exp. */
  datatype Fp = Fp(frac: u64, exp: int)

  const NPOWERS := 87
  const STEPPOWERS := 8
  const FIRSTPOWER := -348
  const EXPMAX := -32
  const EXPMIN := -60

  // ---------- powers ----------

  function Two(e: nat): (r: nat)
    ensures r > 0
  {
    if e == 0 then 1 else 2 * Two(e - 1)
  }

  function Ten(e: nat): (r: nat)
    ensures r > 0
  {
    if e == 0 then 1 else 10 * Ten(e - 1)
  }

  ghost function Exp2(e: int): (r: real)
    ensures r > 0.0
    decreases if e < 0 then -e else e
  {
    if e == 0 then 1.0 else if e > 0 then 2.0 * Exp2(e - 1) else Exp2(e + 1) / 2.0
  }

  ghost function Exp10(e: int): (r: real)
    ensures r > 0.0
    decreases if e < 0 then -e else e
  {
    if e == 0 then 1.0 else if e > 0 then 10.0 * Exp10(e - 1) else Exp10(e + 1) / 10.0
  }

  lemma {:induction false} TwoAdd(a: nat, b: nat)
    ensures Two(a + b) == Two(a) * Two(b)
  {
    if b > 0 {
      TwoAdd(a, b - 1);
      assert Two(a + b) == 2 * Two(a + b - 1);
    }
  }

  lemma {:induction false} TenAdd(a: nat, b: nat)
    ensures Ten(a + b) == Ten(a) * Ten(b)
  {
    if b > 0 {
      TenAdd(a, b - 1);
      assert Ten(a + b) == 10 * Ten(a + b - 1);
    }
  }

  lemma {:induction false} Exp2Add(a: int, n: nat)
    ensures Exp2(a + n) == Exp2(a) * Two(n) as real
  {
    if n > 0 {
      Exp2Add(a, n - 1);
      assert Exp2(a + n) == 2.0 * Exp2(a + n - 1);
      calc {
        Exp2(a + n);
        2.0 * (Exp2(a) * Two(n - 1) as real);
        Exp2(a) * (2.0 * Two(n - 1) as real);
        Exp2(a) * Two(n) as real;
      }
    }
  }

  lemma {:induction false} Exp10Add(a: int, n: nat)
    ensures Exp10(a + n) == Exp10(a) * Ten(n) as real
  {
    if n > 0 {
      Exp10Add(a, n - 1);
      assert Exp10(a + n) == 10.0 * Exp10(a + n - 1);
      calc {
        Exp10(a + n);
        10.0 * (Exp10(a) * Ten(n - 1) as real);
        Exp10(a) * (10.0 * Ten(n - 1) as real);
        Exp10(a) * Ten(n) as real;
      }
    }
  }

  lemma ExpZero()
    ensures Exp2(0) == 1.0 && Exp10(0) == 1.0
  {
  }

  /** The literal powers the proofs below need. */
  lemma Literals()
    ensures Two(26) == 0x400_0000 && Two(27) == 0x800_0000 && Two(44) == 0x1000_0000_0000
    ensures Two(64) == 0x1_0000_0000_0000_0000 && Two(114) == 0x4_0000_0000_0000 * Two(64)
    ensures Ten(8) == 100_000_000
  {
    hide *;
    SmallLiterals();
    TwoAdd(13, 13);
    TwoAdd(26, 1);
    TwoAdd(22, 22);
    TwoAdd(32, 32);
    TwoAdd(50, 64);
    TwoAdd(25, 25);
    TwoAdd(16, 16);
    TwoAdd(12, 13);
    TwoAdd(11, 11);
    TenAdd(4, 4);
  }

  lemma SmallLiterals()
    ensures Two(1) == 2 && Two(11) == 2048 && Two(12) == 4096 && Two(13) == 8192 && Two(16) == 65536
    ensures Ten(4) == 10000 && Exp10(4) == 10000.0
  {
  }

  lemma CancelRight(x: real, n: real, y: real)
    requires y * n == 1.0
    ensures (x * n) * y == x
  {
    assert (x * n) * y == x * (y * n);
  }

  lemma Exp2Sum(a: int, b: int)
    ensures Exp2(a + b) == Exp2(a) * Exp2(b)
  {
    hide *;
    ExpZero();
    if b < 0 {
      Exp2Add(a + b, -b);
      Exp2Add(b, -b);
      CancelRight(Exp2(a + b), Two(-b) as real, Exp2(b));
    } else {
      Exp2Add(a, b);
      Exp2Add(0, b);
    }
  }

  lemma Exp10Sum(a: int, b: int)
    ensures Exp10(a + b) == Exp10(a) * Exp10(b)
  {
    hide *;
    ExpZero();
    if b < 0 {
      Exp10Add(a + b, -b);
      Exp10Add(b, -b);
      CancelRight(Exp10(a + b), Ten(-b) as real, Exp10(b));
    } else {
      Exp10Add(a, b);
      Exp10Add(0, b);
    }
  }

  // ---------- the table ----------

  function Pick(i: int, a: int, b: int, c: int, d: int, e: int, f: int, g: int, h: int): int
  {
    if i < 4 then if i < 2 then if i < 1 then a else b else if i < 3 then c else d
    else if i < 6 then if i < 5 then e else f else if i < 7 then g else h
  }

  /** The fractions of powers_ten, eight to a row. */
  function Frac(idx: int): int
  {
    if idx < 40 then
      if idx < 16 then
        if idx < 8 then
          Pick(idx, 18054884314459144840, 13451937075301367670, 10022474136428063862, 14934650266808366570,
               11127181549972568877, 16580792590934885855, 12353653155963782858, 18408377700990114895)
        else
          Pick(idx - 8, 13715310171984221708, 10218702384817765436, 15227053142812498563, 11345038669416679861,
               16905424996341287883, 12595523146049147757, 9384396036005875287, 13983839803942852151)
      else
        if idx < 24 then
          Pick(idx - 16, 10418772551374772303, 15525180923007089351, 11567161174868858868, 17236413322193710309,
               12842128665889583758, 9568131466127621947, 14257626930069360058, 10622759856335341974)
        else
          if idx < 32 then
            Pick(idx - 24, 15829145694278690180, 11793632577567316726, 17573882009934360870, 13093562431584567480,
                 9755464219737475723, 14536774485912137811, 10830740992659433045, 16139061738043178685)
          else
            Pick(idx - 32, 12024538023802026127, 17917957937422433684, 13349918974505688015, 9946464728195732843,
                 14821387422376473014, 11042794154864902060, 16455045573212060422, 12259964326927110867)
    else
      if idx < 64 then
        if idx < 48 then
          Pick(idx - 40, 18268770466636286478, 13611294676837538539, 10141204801825835212, 15111572745182864684,
               11258999068426240000, 16777216000000000000, 12500000000000000000, 9313225746154785156)
        else
          if idx < 56 then
            Pick(idx - 48, 13877787807814456755, 10339757656912845936, 15407439555097886824, 11479437019748901445,
                 17105694144590052135, 12744735289059618216, 9495567745759798747, 14149498560666738074)
          else
            Pick(idx - 56, 10542197943230523224, 15709099088952724970, 11704190886730495818, 17440603504673385349,
                 12994262207056124023, 9681479787123295682, 14426529090290212157, 10748601772107342003)
      else
        if idx < 72 then
          Pick(idx - 64, 16016664761464807395, 11933345169920330789, 17782069995880619868, 13248674568444952270,
               9871031767461413346, 14708983551653345445, 10959046745042015199, 16330252207878254650)
        else
          if idx < 80 then
            Pick(idx - 72, 12166986024289022870, 18130221999122236476, 13508068024458167312, 10064294952495520794,
                 14996968138956309548, 11173611982879273257, 16649979327439178909, 12405201291620119593)
          else
            Pick(idx - 80, 9242595204427927429, 13772540099066387757, 10261342003245940623, 15290591125556738113,
                 11392378155556871081, 16975966327722178521, 12648080533535911531, 12648080533535911531)
  }

  /** The binary exponents of powers_ten. */
  function Exp(idx: int): int
  {
    if idx < 40 then
      if idx < 16 then
        if idx < 8 then
          Pick(idx, -1220, -1193, -1166, -1140, -1113, -1087, -1060, -1034)
        else
          Pick(idx - 8, -1007, -980, -954, -927, -901, -874, -847, -821)
      else
        if idx < 24 then
          Pick(idx - 16, -794, -768, -741, -715, -688, -661, -635, -608)
        else
          if idx < 32 then
            Pick(idx - 24, -582, -555, -529, -502, -475, -449, -422, -396)
          else
            Pick(idx - 32, -369, -343, -316, -289, -263, -236, -210, -183)
    else
      if idx < 64 then
        if idx < 48 then
          Pick(idx - 40, -157, -130, -103, -77, -50, -24, 3, 30)
        else
          if idx < 56 then
            Pick(idx - 48, 56, 83, 109, 136, 162, 189, 216, 242)
          else
            Pick(idx - 56, 269, 295, 322, 348, 375, 402, 428, 455)
      else
        if idx < 72 then
          Pick(idx - 64, 481, 508, 534, 561, 588, 614, 641, 667)
        else
          if idx < 80 then
            Pick(idx - 72, 694, 720, 747, 774, 800, 827, 853, 880)
          else
            Pick(idx - 80, 907, 933, 960, 986, 1013, 1039, 1066, 1066)
  }

  /** Not in the source: the next 64 bits of each exact power, signed. They certify that the fractions
      above are correctly rounded. */
  function Guard(idx: int): int
  {
    if idx < 40 then
      if idx < 16 then
        if idx < 8 then
          Pick(idx, 1671618768450675796, 6735622456908576330, 5493207715531443249, 5910495864778290617,
               5166248661484910191, 8050505971837842366, 7907585416552444935, 2731688931043774331)
        else
          Pick(idx - 8, 2579604275232953684, -5891368184943504668, 962181821410786820, 8031958568804398249,
               5070514048102157020, 6411694268519837209, 8558313775058847832, -7468914334623251739)
      else
        if idx < 24 then
          Pick(idx - 16, 4607414176811284002, 9035120885289943691, -9157889458785081179, -8720225134666286027,
               -1612744301171463613, 3021029092058325107, 4679224488766679550, -3841273781498745803)
        else
          if idx < 32 then
            Pick(idx - 24, -2358206946763686087, -4522070525825979462, 6523987031636299003, 973227847154161339,
                 1244995533423855987, -249470856692830026, 4209185567039092848, 6447041592208152311)
          else
            Pick(idx - 32, -3797434642040374957, 8476984389250486570, -573958201337495958, 1985699082112030976,
                 4004531380238580045, -1925667057416912855, -8306719647944912789, -2457545025797441046)
    else
      if idx < 64 then
        if idx < 48 then
          Pick(idx - 40, -8373707460958465028, -8578025658503072380, -486521013540076076, -3187597375937010519,
               0, 0, 0, 4611686018427387904)
        else
          if idx < 56 then
            Pick(idx - 48, 5449091666327633920, -1981020733047832576, 8260886245095692416, 132682750386005393,
                 5523571108200991709, 4261994450943298508, 8729779031470891258, 4298070930406474644)
          else
            Pick(idx - 56, 6430056314514152534, -1725319251657714538, -2036086408133152610, -4582539761593113446,
                 3006924907348169212, 831516194300602802, 8039631859474607303, -2480258038432112252)
      else
        if idx < 72 then
          Pick(idx - 64, 8055355950647669691, 4898431519131537558, -8454007886460797627, 869737256868047663,
               4908902581746016003, 3597254110643241460, -4363290727450709942, 3333981370896602654)
        else
          if idx < 80 then
            Pick(idx - 72, 9158133232781315341, 1628122660560806833, -7102991539009341454, 1932195658189984910,
                 3254824252494523781, -3855940325606653145, 920161932633717461, 6080780864604458308)
          else
            Pick(idx - 80, 8755227902219092403, -2285846861678029117, 6273243709394548296, 6892203506629956076,
                 7784369436827535057, -2009630378153219953, -1472767802899791692, -1472767802899791692)
  }

  function Power(idx: int): int
  {
    FIRSTPOWER + idx * STEPPOWERS
  }

  /** Entry idx of powers_ten. */
  function CachedPower(idx: int): Fp
    requires 0 <= idx < NPOWERS
  {
    TableShape(idx);
    Fp(Frac(idx), Exp(idx))
  }

  /** The entry's fraction carried to 128 bits. */
  function Extended(idx: int): int
  {
    Frac(idx) * 0x1_0000_0000_0000_0000 + Guard(idx)
  }

  predicate ShapeOk(idx: int)
  {
    && 0x8000_0000_0000_0000 <= Frac(idx) < 0x1_0000_0000_0000_0000
    && -0x7FFF_C000_0000_0000 <= Guard(idx) <= 0x7FFF_C000_0000_0000
  }

  /** Eight decimal places cost 26 or 27 binary ones, and the extended fractions agree with that to
      within two units. */
  predicate StepOk(idx: int)
  {
    var d := Exp(idx + 1) - Exp(idx);
    var p := if d == 26 then 0x400_0000 else 0x800_0000;
    && (d == 26 || d == 27)
    && -2 * p <= Extended(idx + 1) * p - Extended(idx) * 100_000_000 <= 2 * p
  }

  lemma LowerSteps(idx: int)
    requires 0 <= idx < 43
    ensures ShapeOk(idx) && StepOk(idx)
  {
  }

  lemma UpperSteps(idx: int)
    requires 43 <= idx < 86
    ensures ShapeOk(idx) && StepOk(idx)
  {
  }

  lemma TableStep(idx: int)
    requires 0 <= idx < NPOWERS - 1
    ensures StepOk(idx)
  {
    if idx < 43 { LowerSteps(idx); } else { UpperSteps(idx); }
  }

  lemma TableShape(idx: int)
    requires 0 <= idx < NPOWERS
    ensures ShapeOk(idx)
  {
    if idx < 43 { LowerSteps(idx); } else if idx < 86 { UpperSteps(idx); } else { assert ShapeOk(86); }
  }

  // ---------- every entry is correctly rounded ----------

  /** 10^k in units of a 128-bit fraction whose upper word has exponent e. */
  ghost function Exact(k: int, e: int): real
  {
    Exp10(k) * Exp2(64 - e)
  }

  lemma Regroup(a: real, b: real, t: real)
    ensures (a * 100_000_000.0) * b * t == a * (b * t) * 100_000_000.0
  {
  }

  lemma ExactStep(k: int, e: int, d: int)
    requires d == 26 || d == 27
    ensures Exact(k + 8, e + d) * (if d == 26 then 0x400_0000 else 0x800_0000) as real == Exact(k, e) * 100_000_000.0
  {
    hide Two, Ten, Exp2, Exp10;
    Literals();
    Exp10Add(k, 8);
    Exp2Add(64 - (e + d), d);
    Regroup(Exp10(k), Exp2(64 - (e + d)), Two(d) as real);
  }

  /** A table of exponents and extended fractions: what the cached powers are, seen as a sequence. */
  ghost predicate Steps(es: seq<int>, xs: seq<int>)
  {
    && |es| == |xs| == NPOWERS
    && es[44] == -50 && xs[44] == 11258999068426240000 * 0x1_0000_0000_0000_0000
    && forall i :: 0 <= i < NPOWERS - 1 ==> StepAt(es[i], xs[i], es[i + 1], xs[i + 1])
  }

  ghost predicate StepAt(e: int, x: int, e': int, x': int)
  {
    var p := if e' - e == 26 then 0x400_0000 else 0x800_0000;
    && (e' - e == 26 || e' - e == 27)
    && -2 * p <= x' * p - x * 100_000_000 <= 2 * p
  }

  ghost predicate Within(k: int, e: int, x: int, err: int)
  {
    -(err as real) <= x as real - Exact(k, e) <= err as real
  }

  lemma Anchor(es: seq<int>, xs: seq<int>)
    requires Steps(es, xs)
    ensures Within(4, es[44], xs[44], 0)
  {
    hide Two, Ten, Exp2, Exp10;
    Literals();
    SmallLiterals();
    ExpZero();
    Exp2Add(0, 114);
  }

  /** One table step loses at most a factor of two in the error, in either direction. */
  lemma ErrorStep(k: int, e: int, x: int, e': int, x': int, err: nat)
    requires StepAt(e, x, e', x')
    ensures Within(k, e, x, err) ==> Within(k + 8, e', x', 2 * err + 3)
    ensures Within(k + 8, e', x', err) ==> Within(k, e, x, 2 * err + 3)
  {
    ExactStep(k, e, e' - e);
    hide Exact, Two, Ten, Exp2, Exp10;
  }

  lemma {:induction false} WithinUp(es: seq<int>, xs: seq<int>, idx: int)
    requires Steps(es, xs) && 44 <= idx < NPOWERS
    ensures Within(Power(idx), es[idx], xs[idx], 3 * Two(idx - 44) - 3)
  {
    hide Exact, Within, StepAt, Exp2, Exp10;
    if idx == 44 {
      Anchor(es, xs);
    } else {
      WithinUp(es, xs, idx - 1);
      assert StepAt(es[idx - 1], xs[idx - 1], es[idx - 1 + 1], xs[idx - 1 + 1]);
      ErrorStep(Power(idx - 1), es[idx - 1], xs[idx - 1], es[idx], xs[idx], 3 * Two(idx - 45) - 3);
    }
  }

  lemma {:induction false} WithinDown(es: seq<int>, xs: seq<int>, idx: int)
    requires Steps(es, xs) && 0 <= idx <= 44
    ensures Within(Power(idx), es[idx], xs[idx], 3 * Two(44 - idx) - 3)
    decreases 44 - idx
  {
    hide Exact, Within, StepAt, Exp2, Exp10;
    if idx == 44 {
      Anchor(es, xs);
    } else {
      WithinDown(es, xs, idx + 1);
      assert StepAt(es[idx], xs[idx], es[idx + 1], xs[idx + 1]);
      ErrorStep(Power(idx), es[idx], xs[idx], es[idx + 1], xs[idx + 1], 3 * Two(43 - idx) - 3);
    }
  }

  lemma TwoMonotone(a: nat, b: nat)
    requires a <= b
    ensures Two(a) <= Two(b)
  {
    if a < b {
      TwoMonotone(a, b - 1);
    }
  }

  lemma WithinAny(es: seq<int>, xs: seq<int>, idx: int)
    requires Steps(es, xs) && 0 <= idx < NPOWERS
    ensures Within(Power(idx), es[idx], xs[idx], 0x4000_0000_0000)
  {
    hide Two, Exact, Steps;
    if idx < 44 { WithinDown(es, xs, idx); } else { WithinUp(es, xs, idx); }
    TwoMonotone(if idx < 44 then 44 - idx else idx - 44, 44);
    Literals();
  }

  lemma TableSteps(es: seq<int>, xs: seq<int>)
    requires es == seq(NPOWERS, i => Exp(i)) && xs == seq(NPOWERS, i => Extended(i))
    ensures Steps(es, xs)
  {
    assert es[44] == -50 && xs[44] == 11258999068426240000 * 0x1_0000_0000_0000_0000;
    forall i | 0 <= i < NPOWERS - 1
      ensures StepAt(es[i], xs[i], es[i + 1], xs[i + 1])
    {
      TableStep(i);
    }
  }

  /** fp is 10^k to within half a unit of its last place. */
  ghost predicate HalfUnit(fp: Fp, k: int)
  {
    && 2.0 * (fp.frac as real * Exp2(fp.exp) - Exp10(k)) <= Exp2(fp.exp)
    && 2.0 * (Exp10(k) - fp.frac as real * Exp2(fp.exp)) <= Exp2(fp.exp)
  }

  lemma Rescale(f: real, t: real, x: real, s: real)
    requires 2.0 * (f * t - x) <= t && 2.0 * (x - f * t) <= t && s > 0.0
    ensures 2.0 * (f * (t * s) - x * s) <= t * s
    ensures 2.0 * (x * s - f * (t * s)) <= t * s
  {
    assert f * (t * s) - x * s == (f * t - x) * s;
    assert (2.0 * (f * t - x)) * s <= t * s;
    assert (2.0 * (x - f * t)) * s <= t * s;
  }

  /** From the 128-bit bound back to the 64-bit fraction. */
  lemma Rounded(k: int, fp: Fp, guard: int)
    requires Within(k, fp.exp, fp.frac * 0x1_0000_0000_0000_0000 + guard, 0x4000_0000_0000)
    requires -0x7FFF_C000_0000_0000 <= guard <= 0x7FFF_C000_0000_0000
    ensures HalfUnit(fp, k)
  {
    hide Two, Ten, Exp2, Exp10;
    Literals();
    ExpZero();
    var s, t := Exp2(fp.exp - 64), 0x1_0000_0000_0000_0000 as real;
    Exp2Add(fp.exp - 64, 64);
    Exp2Sum(64 - fp.exp, fp.exp - 64);
    CancelRight(Exp10(k), Exp2(64 - fp.exp), s);
    Rescale(fp.frac as real, t, Exact(k, fp.exp), s);
  }

  /** Every cached power of the table is the power it stands for, correctly rounded. */
  lemma TableIsRounded(idx: int)
    requires 0 <= idx < NPOWERS
    ensures HalfUnit(CachedPower(idx), Power(idx))
  {
    var es, xs := seq(NPOWERS, i => Exp(i)), seq(NPOWERS, i => Extended(i));
    TableSteps(es, xs);
    WithinAny(es, xs, idx);
    TableShape(idx);
    Rounded(Power(idx), CachedPower(idx), Guard(idx));
  }

  // ---------- the search ----------

  /** C's conversion to int: towards zero. */
  function Trunc(x: real): int
  {
    if x < 0.0 then -((-x).Floor) else x.Floor
  }

  /** How far a scaled exponent is outside the window. */
  function Miss(current: int): nat
  {
    if current < EXPMIN then EXPMIN - current else if current > EXPMAX then current - EXPMAX else 0
  }

  lemma Ends()
    ensures Exp(0) == -1220 && Exp(86) == 1066
  {
  }

  /** The first guess, from a logarithm, in exact numbers. The source multiplies doubles; the product is zero or farther
      from a whole number than rounding can take it, so that both truncate to the same. Search in any case ends in the
      window from every place in the table. */
  function Guess(exp: int): int
  {
    (Trunc(-((exp + NPOWERS) as real) * 0.30102999566398114) - FIRSTPOWER) / STEPPOWERS
  }

  /** Where the search from idx ends: entries are spread so that one always falls into the window, and
      no step jumps over it. */
  function Search(exp: int, idx: int): (r: int)
    requires -1137 <= exp <= 960 && 0 <= idx < NPOWERS
    ensures 0 <= r < NPOWERS && EXPMIN <= exp + Exp(r) + 64 <= EXPMAX
    decreases Miss(exp + Exp(idx) + 64)
  {
    Ends();
    if exp + Exp(idx) + 64 < EXPMIN then
      TableStep(idx);
      Search(exp, idx + 1)
    else if exp + Exp(idx) + 64 > EXPMAX then
      TableStep(idx - 1);
      Search(exp, idx - 1)
    else idx
  }

  function CachedIndex(exp: int): (r: int)
    requires -1137 <= exp <= 960
    ensures 0 <= r < NPOWERS && EXPMIN <= exp + Exp(r) + 64 <= EXPMAX
  {
    Search(exp, Guess(exp))
  }

  method FindCachedPow10(exp: int) returns (fp: Fp, k: int)
    requires -1137 <= exp <= 960
    ensures fp == CachedPower(CachedIndex(exp)) && k == Power(CachedIndex(exp))
  {
    var approx := Trunc(-((exp + NPOWERS) as real) * 0.30102999566398114);
    var idx := (approx - FIRSTPOWER) / STEPPOWERS;
    Ends();
    while true
      invariant 0 <= idx < NPOWERS && Search(exp, idx) == CachedIndex(exp)
      decreases Miss(exp + Exp(idx) + 64)
    {
      var current := exp + Exp(idx) + 64;
      if current < EXPMIN {
        TableStep(idx);
        idx := idx + 1;
        continue;
      }
      if current > EXPMAX {
        TableStep(idx - 1);
        idx := idx - 1;
        continue;
      }
      return CachedPower(idx), Power(idx);
    }
  }
}
