/** o3e_json_fmt_double (main/o3e_json.c): the shortest "%.*e" text that reads
    back as the double, laid out as CPython does. */
module ShortestText {
  import opened Text
  import opened Wrappers
  import opened Doubles
  import opened DecimalLayout

  // ---- "%.*e" ----

  function Tens(v: real): nat {
    if v >= 10.0 then v.Floor else if 0.0 < v < 1.0 then (1.0 / v).Floor else 0
  }

  lemma FewerTens(v: real)
    ensures v >= 10.0 ==> Tens(v / 10.0) < Tens(v)
    ensures 0.0 < v < 1.0 ==> Tens(10.0 * v) < Tens(v)
  {
    if 0.0 < v < 1.0 {
      var q, h := 1.0 / v, 1.0 / (10.0 * v);
      assert q * v == 1.0 && h * (10.0 * v) == 1.0;
      assert (10.0 * h - q) * v == 0.0;
      assert (q - 1.0) * v > 0.0;
    }
  }

  /** The decimal exponent of a positive number. */
  function Expo(v: real): int
    requires v > 0.0
    decreases Tens(v)
  {
    if v >= 10.0 then FewerTens(v); 1 + Expo(v / 10.0)
    else if v < 1.0 then FewerTens(v); Expo(10.0 * v) - 1
    else 0
  }

  lemma {:induction false} ExpoBounds(v: real)
    requires v > 0.0
    ensures Ten(Expo(v)) <= v < Ten(Expo(v) + 1)
    decreases Tens(v)
  {
    hide Ten;
    FewerTens(v);
    if v >= 10.0 {
      ExpoBounds(v / 10.0);
      TenStep(Expo(v / 10.0));
      TenStep(Expo(v / 10.0) + 1);
    } else if v < 1.0 {
      ExpoBounds(10.0 * v);
      TenStep(Expo(10.0 * v) - 1);
      TenStep(Expo(10.0 * v));
    } else {
      TenSmall();
    }
  }

  lemma TenSmall()
    ensures Ten(0) == 1.0 && Ten(1) == 10.0
  {
    assert Pow10(1) == 10 * Pow10(0);
  }

  lemma TenSum(a: int, b: int)
    ensures Ten(a) * Ten(b) == Ten(a + b)
  {
    hide Ten;
    if a >= 0 {
      Scaled(a, b);
      TenWhole(a);
    } else {
      Scaled(-a, a + b);
      TenInverse(a);
      Cancelled(Ten(a), Pow10(-a) as real, Ten(a + b));
    }
  }

  lemma Cancelled(x: real, p: real, y: real)
    requires x * p == 1.0
    ensures x * (p * y) == y
  {
    Assoc(x, p, y);
  }

  lemma TenWhole(k: nat)
    ensures Ten(k) == Pow10(k) as real
  {
  }

  lemma TenInverse(k: int)
    requires k < 0
    ensures Ten(k) * Pow10(-k) as real == 1.0
  {
  }

  lemma TenPositive(k: int)
    ensures Ten(k) > 0.0
  {
    if k < 0 {
      TenInverse(k);
    }
  }

  /** The digits, as one number: correctly rounded, half to even. */
  function Rounded(v: real, prec: nat): int
    requires v > 0.0
  {
    HalfEven(v * Ten(prec - Expo(v)))
  }

  lemma HalfEvenBetween(x: real, a: int, b: int)
    requires a as real <= x < b as real
    ensures a <= HalfEven(x) <= b
  {
  }

  lemma RoundedBounds(v: real, prec: nat)
    requires v > 0.0
    ensures Pow10(prec) <= Rounded(v, prec) <= Pow10(prec + 1)
  {
    hide Ten, Pow10, HalfEven, Expo;
    var x := v * Ten(prec - Expo(v));
    assert Rounded(v, prec) == HalfEven(x);
    var e := Expo(v);
    var t := Ten(prec - e);
    ExpoBounds(v);
    TenPositive(prec - e);
    TenSum(e, prec - e);
    TenSum(e + 1, prec - e);
    TenWhole(prec);
    TenWhole(prec + 1);
    Squeezed(Ten(e), v, Ten(e + 1), t, x);
    HalfEvenBetween(x, Pow10(prec), Pow10(prec + 1));
  }

  lemma Squeezed(a: real, b: real, c: real, t: real, bt: real)
    requires a <= b < c && t > 0.0 && bt == b * t
    ensures a * t <= bt < c * t
  {
    assert (b - a) * t >= 0.0;
    assert (c - b) * t > 0.0;
  }

  /** The number the digits stand for. */
  function Near(v: real, prec: nat): real
    requires v >= 0.0
  {
    if v == 0.0 then 0.0 else Rounded(v, prec) as real * Ten(Expo(v) - prec)
  }

  lemma NearError(v: real, prec: nat)
    requires v > 0.0
    ensures Abs(Near(v, prec) - v) <= 0.5 * Ten(Expo(v) - prec)
  {
    hide Ten, HalfEven, Expo, Abs;
    var w := v * Ten(prec - Expo(v));
    var e := Expo(v);
    var t, u := Ten(prec - e), Ten(e - prec);
    TenSum(prec - e, e - prec);
    TenSmall();
    TenPositive(e - prec);
    assert Rounded(v, prec) == HalfEven(w);
    HalfEvenNear(w);
    Off(Rounded(v, prec) as real, w, u, Near(v, prec), v, t);
  }

  lemma Off(m: real, x: real, u: real, mu: real, v: real, t: real)
    requires -0.5 <= m - x <= 0.5 && u > 0.0 && mu == m * u && x == v * t && t * u == 1.0
    ensures Abs(mu - v) <= 0.5 * u
  {
    Assoc(v, t, u);
    var d := m - x;
    assert d * u == mu - v;
    Halved(d, u);
  }

  lemma Halved(d: real, u: real)
    requires -0.5 <= d <= 0.5 && u > 0.0
    ensures -0.5 * u <= d * u <= 0.5 * u
  {
    assert (d + 0.5) * u >= 0.0;
    assert (0.5 - d) * u >= 0.0;
  }

  /** Seventeen digits tell every double from every other. */
  lemma SeventeenDigits(v: real)
    requires v >= 0.0 && IsDouble(v)
    ensures AsDouble(Near(v, 16)) == v
  {
    hide AsDouble, Ten, Rounded, Expo;
    if v > 0.0 {
      NearError(v, 16);
      ExpoBounds(v);
      SixteenPlaces(Expo(v));
      assert Abs(Near(v, 16) - v) * 2.0 * TWO53 < v;
      NearestIs(v, Near(v, 16));
    } else {
      WholeExact(0);
    }
  }

  lemma SixteenPlaces(e: int)
    ensures 0.0 < Ten(e - 16) && Ten(e) == 10000000000000000.0 * Ten(e - 16)
  {
    hide Ten;
    TenPositive(e - 16);
    Scaled(16, e - 16);
    assert Pow10(16) == 1_0000_0000_0000_0000 by { PowerSixteen(); }
  }

  lemma PowerSixteen()
    ensures Pow10(16) == 1_0000_0000_0000_0000
  {
    assert Pow10(4) == 10000;
    assert Pow10(8) == 1_0000_0000;
    assert Pow10(12) == 1_0000_0000_0000;
  }

  // ---- digits and exponent ----

  lemma {:induction false} DecLength(m: nat, k: nat)
    requires Pow10(k) <= m < Pow10(k + 1)
    ensures |Dec(m)| == k + 1
  {
    if k > 0 {
      assert Pow10(k) == 10 * Pow10(k - 1);
      DecLength(m / 10, k - 1);
    }
  }

  /** The digits and the exponent of "%.*e"; ten more in the last place may make
      one more digit, which moves into the exponent. */
  function SciParts(v: real, prec: nat): (Digits, int)
    requires v >= 0.0
  {
    if v == 0.0 then (Zeros(prec + 1), 0)
    else if Rounded(v, prec) >= Pow10(prec + 1) then (Dec(Pow10(prec)), Expo(v) + 1)
    else RoundedBounds(v, prec); (Dec(Rounded(v, prec)), Expo(v))
  }

  lemma SciPartsAre(v: real, prec: nat)
    requires v >= 0.0
    ensures var (ds, e) := SciParts(v, prec); |ds| == prec + 1 && Number(false, ds, e - prec) == Near(v, prec)
  {
    hide Ten, Expo, Rounded, Pow10, Number, Num, Dec;
    var (ds, e) := SciParts(v, prec);
    if v == 0.0 {
      AllZeros(prec + 1);
      ZeroNumber(ds, e - prec);
    } else {
      var m, t := Rounded(v, prec), Ten(Expo(v) - prec);
      RoundedBounds(v, prec);
      DigitsAre(m, prec, Expo(v), t);
      NumberIs(ds, e - prec);
    }
  }

  lemma ZeroNumber(ds: string, k: int)
    requires Num(ds) == 0
    ensures Number(false, ds, k) == 0.0
  {
    hide Num, Ten;
    assert 0.0 * Ten(k) == 0.0;
  }

  lemma DigitsAre(m: int, prec: nat, e: int, t: real)
    requires Pow10(prec) <= m <= Pow10(prec + 1) && t == Ten(e - prec)
    ensures m < Pow10(prec + 1) ==> |Dec(m)| == prec + 1 && Num(Dec(m)) == m
    ensures m == Pow10(prec + 1) ==> |Dec(Pow10(prec))| == prec + 1
    ensures m == Pow10(prec + 1) ==> Num(Dec(Pow10(prec))) as real * Ten(e + 1 - prec) == m as real * t
  {
    hide Ten, Pow10, Num, Dec;
    PowStep(prec);
    if m < Pow10(prec + 1) {
      DecLength(m, prec);
      NumOfDec(m);
    } else {
      DecLength(Pow10(prec), prec);
      NumOfDec(Pow10(prec));
      TenStep(e - prec);
      Carried(Pow10(prec), t, Ten(e + 1 - prec));
    }
  }

  lemma NumberIs(ds: string, k: int)
    ensures Number(false, ds, k) == Num(ds) as real * Ten(k)
  {
    hide Num, Ten;
  }

  lemma NumOfDec(n: nat)
    ensures Num(Dec(n)) == n
  {
    DecDenotes(n);
  }

  lemma PowStep(k: nat)
    ensures Pow10(k + 1) == 10 * Pow10(k)
  {
  }

  lemma Carried(p: int, t: real, u: real)
    requires u == 10.0 * t
    ensures p as real * u == (10 * p) as real * t
  {
    assert (10 * p) as real == 10.0 * p as real;
    Associated(p as real, t);
    assert p as real * (10.0 * t) == 10.0 * (p as real * t);
  }

  lemma AllZeros(n: nat)
    ensures Num(Zeros(n)) == 0
  {
    LeadingZeros(n, "");
    assert Zeros(n) + "" == Zeros(n);
  }

  lemma SciDenotes(neg: bool, v: real, prec: nat)
    requires v >= 0.0
    ensures var (ds, e) := SciParts(v, prec);
      Denoted(Sci(neg, ds, e)) == if neg then -Near(v, prec) else Near(v, prec)
  {
    hide Denoted, Near, SciParts, Ten, Num, Written;
    var (ds, e) := SciParts(v, prec);
    SciPartsAre(v, prec);
    DenotedParts(neg, ds[..1], if |ds| > 1 then Some(ds[1..]) else None, Some(e));
    assert ds[..1] + (if |ds| > 1 then ds[1..] else "") == ds;
  }

  // ---- step 1: the shortest one ----

  /** A double; zero has a sign. */
  datatype Double = NotANumber | Infinite(neg: bool) | Finite(neg: bool, mag: real)

  function ValueOf(neg: bool, mag: real): real {
    if neg then -mag else mag
  }

  /** strtod gives the double back. */
  predicate ReadsBack(neg: bool, mag: real, prec: nat)
    requires mag >= 0.0
  {
    var (ds, e) := SciParts(mag, prec);
    AsDouble(Denoted(Sci(neg, ds, e))) == ValueOf(neg, mag)
  }

  lemma LastReadsBack(neg: bool, mag: real)
    requires mag >= 0.0 && IsDouble(mag)
    ensures ReadsBack(neg, mag, 16)
  {
    hide AsDouble, Denoted, SciParts, Near;
    SciDenotes(neg, mag, 16);
    SeventeenDigits(mag);
    Negated(Near(mag, 16));
  }

  /** The first precision whose text reads back, or the last one tried. */
  function Shortest(neg: bool, mag: real, prec: nat): (p: nat)
    requires mag >= 0.0 && prec <= 16
    ensures prec <= p <= 16
    decreases 16 - prec
  {
    if prec == 16 || ReadsBack(neg, mag, prec) then prec else Shortest(neg, mag, prec + 1)
  }

  /** Of a double it always reads back, and none shorter does. */
  lemma {:induction false} ShortestReadsBack(neg: bool, mag: real, prec: nat)
    requires mag >= 0.0 && prec <= 16 && IsDouble(mag)
    ensures ReadsBack(neg, mag, Shortest(neg, mag, prec))
    ensures forall q | prec <= q < Shortest(neg, mag, prec) :: !ReadsBack(neg, mag, q)
    decreases 16 - prec
  {
    hide ReadsBack, AsDouble;
    if prec == 16 {
      LastReadsBack(neg, mag);
    } else if !ReadsBack(neg, mag, prec) {
      ShortestReadsBack(neg, mag, prec + 1);
    }
  }

  // ---- the text ----

  function Shown(x: Double): string
    requires x.Finite? ==> x.mag >= 0.0
  {
    match x
    case NotANumber => "NaN"
    case Infinite(neg) => if neg then "-Infinity" else "Infinity"
    case Finite(neg, mag) =>
      var (ds, e) := SciParts(mag, Shortest(neg, mag, 0));
      Layout(neg, Trimmed(ds), e)
  }

  /** What is shown of a double reads back as it. */
  lemma ShownReadsBack(neg: bool, mag: real)
    requires mag >= 0.0 && IsDouble(mag)
    ensures AsDouble(Denoted(Shown(Finite(neg, mag)))) == ValueOf(neg, mag)
  {
    hide AsDouble, Denoted, SciParts, Layout, Trimmed, Sci, Shortest;
    ShortestReadsBack(neg, mag, 0);
    var (ds, e) := SciParts(mag, Shortest(neg, mag, 0));
    SameValue(neg, ds, e);
  }

  /** Zero is one digit before the point and one behind, and keeps its sign. */
  lemma ZeroShown(neg: bool)
    ensures Shown(Finite(neg, 0.0)) == if neg then "-0.0" else "0.0"
  {
    hide Denoted, Sci;
    SciDenotes(neg, 0.0, 0);
    assert AsDouble(0.0) == 0.0;
    assert ReadsBack(neg, 0.0, 0);
    var zero: Digits := "0";
    assert Zeros(1) == zero && Trimmed(zero) == zero && Shortest(neg, 0.0, 0) == 0;
    assert Zeros(0) == "" && zero + "" == zero;
  }

  /** Digits, signs, points and exponents only. */
  predicate Numeric(c: char) {
    IsDigit(c) || c == '-' || c == '+' || c == '.' || c == 'e' || c == 'E'
  }

  predicate NumberText(s: string) {
    s != "" && forall i | 0 <= i < |s| :: Numeric(s[i])
  }

  lemma Joined(a: string, b: string)
    requires (forall i | 0 <= i < |a| :: Numeric(a[i])) && forall i | 0 <= i < |b| :: Numeric(b[i])
    ensures forall i | 0 <= i < |a + b| :: Numeric((a + b)[i])
  {
  }

  lemma WrittenNumeric(neg: bool, whole: string, frac: Option<string>, exp: Option<int>)
    requires AllDigits(whole) && whole != "" && (frac.Some? ==> AllDigits(frac.value))
    ensures NumberText(Written(neg, whole, frac, exp))
  {
    hide Dec;
    var a, b := if neg then "-" else "", if frac.Some? then "." + frac.value else "";
    var c := if exp.Some? then "e" + ExpText(exp.value) else "";
    Joined(a, whole);
    Joined(a + whole, b);
    Joined(a + whole + b, c);
  }

  lemma LayoutNumeric(neg: bool, ds: Digits, e: int)
    ensures NumberText(Layout(neg, ds, e))
  {
    hide NumberText, Written;
    if e < -4 || e >= 16 {
      WrittenNumeric(neg, ds[..1], if |ds| > 1 then Some(ds[1..]) else None, Some(e));
    } else if e < 0 {
      WrittenNumeric(neg, "0", Some(Zeros(-e - 1) + ds), None);
    } else if e + 1 >= |ds| {
      WrittenNumeric(neg, ds + Zeros(e + 1 - |ds|), Some("0"), None);
    } else {
      WrittenNumeric(neg, ds[..e + 1], Some(ds[e + 1..]), None);
    }
  }

  lemma ShownNumeric(neg: bool, mag: real)
    requires mag >= 0.0
    ensures NumberText(Shown(Finite(neg, mag)))
  {
    hide SciParts, Layout, Trimmed, NumberText, Shortest;
    var (ds, e) := SciParts(mag, Shortest(neg, mag, 0));
    LayoutNumeric(neg, Trimmed(ds), e);
  }

  /** At most 17 digits, and an exponent of three digits for every number that a
      double can be. */
  predicate Ordinary(mag: real) {
    mag == 0.0 || (mag > 0.0 && -999 <= Expo(mag) <= 998)
  }

  lemma ShownFits(neg: bool, mag: real)
    requires mag >= 0.0 && Ordinary(mag)
    ensures |Shown(Finite(neg, mag))| <= 24
  {
    hide Layout, Trimmed, Shortest, Expo, Rounded;
    var (ds, e) := SciParts(mag, Shortest(neg, mag, 0));
    SciPartsAre(mag, Shortest(neg, mag, 0));
    TrimKeeps(neg, ds, e);
    LayoutFits(neg, Trimmed(ds), e);
  }

  /** o3e_json_fmt_double, into a buffer of `size` bytes. */
  method FmtDouble(x: Double, size: nat) returns (out: string)
    requires x.Finite? ==> x.mag >= 0.0
    ensures size > 0 ==> out == Cut(Shown(x), size)
    ensures size == 0 ==> out == ""
    ensures size > 9 ==> (x.NotANumber? ==> out == "NaN") && (x.Infinite? ==> out == if x.neg then "-Infinity" else "Infinity")
    ensures x.Finite? && IsDouble(x.mag) && Ordinary(x.mag) && size > 24 ==>
      out == Shown(x) && NumberText(out) && AsDouble(Denoted(out)) == ValueOf(x.neg, x.mag)
  {
    hide AsDouble, Denoted, SciParts, Sci, Layout, Trimmed, NumberText, Ordinary, ReadsBack, Shortest;
    if size == 0 {
      return "";
    }
    if x.NotANumber? {
      return Cut("NaN", size);
    }
    if x.Infinite? {
      return Cut(if x.neg then "-Infinity" else "Infinity", size);
    }
    var ds, e := Search(x.neg, x.mag);
    var tmp := Arrange(x.neg, ds, e, Sci(x.neg, ds, e));
    ShownNumeric(x.neg, x.mag);
    if IsDouble(x.mag) && Ordinary(x.mag) {
      ShownFits(x.neg, x.mag);
      ShownReadsBack(x.neg, x.mag);
    }
    var copy := if |tmp| < size - 1 then |tmp| else size - 1;
    out := tmp[..copy];
  }

  /** Step 1: one digit more until the text reads back. */
  method Search(neg: bool, mag: real) returns (ds: Digits, e: int)
    requires mag >= 0.0
    ensures (ds, e) == SciParts(mag, Shortest(neg, mag, 0))
  {
    hide AsDouble, Denoted, SciParts, Sci;
    ds, e := SciParts(mag, 0).0, SciParts(mag, 0).1;
    var prec := 0;
    while prec < 17
      invariant 0 <= prec <= 17
      invariant prec <= 16 ==> Shortest(neg, mag, prec) == Shortest(neg, mag, 0)
      invariant prec == 17 ==> (ds, e) == SciParts(mag, 16) && Shortest(neg, mag, 0) == 16
    {
      ds, e := SciParts(mag, prec).0, SciParts(mag, prec).1;
      if AsDouble(Denoted(Sci(neg, ds, e))) == ValueOf(neg, mag) {
        return;
      }
      prec := prec + 1;
    }
  }

  // ---- the formatter of the sinks ----

  /** The text of a finite number. */
  function Print(r: real): string {
    Shown(Finite(r < 0.0, Abs(r)))
  }

  lemma PrintReadsBack(r: real)
    requires IsDouble(r)
    ensures NumberText(Print(r)) && AsDouble(Denoted(Print(r))) == r
  {
    hide AsDouble, Denoted, NumberText, Shown;
    Negated(r);
    ShownNumeric(r < 0.0, Abs(r));
    ShownReadsBack(r < 0.0, Abs(r));
  }
}
