/** The layout half of o3e_json_fmt_double (main/o3e_json.c): from the shortest
    "%.*e" text to the notation CPython prints, without changing the number. */
module DecimalLayout {
  import opened Text
  import opened Wrappers
  import opened Doubles

  type Digits = s: string | s != "" && forall i | 0 <= i < |s| :: IsDigit(s[i]) witness "0"

  predicate AllDigits(s: string) {
    forall i | 0 <= i < |s| :: IsDigit(s[i])
  }

  function Zeros(n: nat): (s: string)
    ensures |s| == n && AllDigits(s)
  {
    seq(n, i => '0')
  }

  // ---- the texts ----

  /** "%+03d" */
  function ExpText(e: int): string {
    var n := if e < 0 then -e else e;
    (if e < 0 then "-" else "+") + (if n < 10 then "0" else "") + Dec(n)
  }

  function Written(neg: bool, whole: string, frac: Option<string>, exp: Option<int>): string {
    (if neg then "-" else "") + whole + (if frac.Some? then "." + frac.value else "")
    + (if exp.Some? then "e" + ExpText(exp.value) else "")
  }

  /** "%.*e" of a number with those digits and that exponent. */
  function Sci(neg: bool, ds: Digits, e: int): string {
    Written(neg, ds[..1], if |ds| > 1 then Some(ds[1..]) else None, Some(e))
  }

  function Layout(neg: bool, ds: Digits, e: int): string {
    if e < -4 || e >= 16 then Written(neg, ds[..1], if |ds| > 1 then Some(ds[1..]) else None, Some(e))
    else if e < 0 then Written(neg, "0", Some(Zeros(-e - 1) + ds), None)
    else if e + 1 >= |ds| then Written(neg, ds + Zeros(e + 1 - |ds|), Some("0"), None)
    else Written(neg, ds[..e + 1], Some(ds[e + 1..]), None)
  }

  function Trimmed(ds: Digits): Digits
    decreases |ds|
  {
    if |ds| > 1 && ds[|ds| - 1] == '0' then Trimmed(ds[..|ds| - 1]) else ds
  }

  // ---- the numbers ----

  function Ten(k: int): real {
    if k >= 0 then Pow10(k) as real else 1.0 / Pow10(-k) as real
  }

  function Number(neg: bool, ds: string, k: int): real {
    (if neg then -1.0 else 1.0) * (Num(ds) as real * Ten(k))
  }

  function Num(s: string): nat {
    if AllDigits(s) then DigitsVal(s) else 0
  }

  function Mantissa(t: string): string {
    t[..IndexOf(t, 'e')]
  }

  function Exponent(t: string): int {
    if IndexOf(t, 'e') < |t| then Strtol(t[IndexOf(t, 'e') + 1..]).0 else 0
  }

  function PointAt(m: string): nat {
    IndexOf(m, '.')
  }

  /** A decimal text without its sign: digits, and the power of ten to apply. */
  function Unsigned(t: string): (string, int) {
    var m := Mantissa(t);
    if PointAt(m) < |m| then (m[..PointAt(m)] + m[PointAt(m) + 1..], Exponent(t) - (|m| - PointAt(m) - 1))
    else (m, Exponent(t))
  }

  /** What a decimal text denotes. */
  function Denoted(s: string): real {
    var neg := s != "" && s[0] == '-';
    var (ds, k) := Unsigned(if neg then s[1..] else s);
    Number(neg, ds, k)
  }

  function PadTwo(n: nat): string {
    (if n < 10 then "0" else "") + Dec(n)
  }

  lemma PadTwoDenotes(n: nat)
    ensures AllDigits(PadTwo(n)) && PadTwo(n) != "" && DigitsVal(PadTwo(n)) == n
  {
    DecDenotes(n);
    if n < 10 {
      assert PadTwo(n)[..1] == "0" && "0"[..0] == "";
    } else {
      assert PadTwo(n) == Dec(n);
    }
  }

  function Signed(neg: bool, v: int): int {
    if neg then -v else v
  }

  lemma StrtolSigned(neg: bool, ds: Digits)
    ensures Strtol((if neg then "-" else "+") + ds).0 == Signed(neg, DigitsVal(ds))
  {
    var s := (if neg then "-" else "+") + ds;
    assert SpaceRun(s) == 0;
    assert s[1..] == ds;
    DigitRunExact(ds, "");
    assert ds + "" == ds;
    assert ds[..|ds|] == ds;
  }

  lemma StrtolExp(e: int)
    ensures Strtol(ExpText(e)).0 == e
  {
    hide Strtol;
    var n := if e < 0 then -e else e;
    PadTwoDenotes(n);
    StrtolSigned(e < 0, PadTwo(n));
    assert ExpText(e) == (if e < 0 then "-" else "+") + PadTwo(n);
  }

  lemma NoSuch(s: string, c: char)
    requires forall k | 0 <= k < |s| :: s[k] != c
    ensures IndexOf(s, c) == |s|
  {
  }

  lemma FirstAt(a: string, c: char, b: string)
    requires forall k | 0 <= k < |a| :: a[k] != c
    ensures IndexOf(a + [c] + b, c) == |a|
  {
    var s := a + [c] + b;
    IndexSkips(s, c, |a|);
    assert s[|a|..] == [c] + b;
  }

  lemma ExponentRead(m: string, exp: Option<int>)
    requires forall k | 0 <= k < |m| :: m[k] != 'e'
    ensures var t := m + (if exp.Some? then "e" + ExpText(exp.value) else "");
      Mantissa(t) == m && Exponent(t) == if exp.Some? then exp.value else 0
  {
    hide IndexOf, Strtol, ExpText;
    var t := m + (if exp.Some? then "e" + ExpText(exp.value) else "");
    if exp.Some? {
      assert t == m + ['e'] + ExpText(exp.value);
      FirstAt(m, 'e', ExpText(exp.value));
      StrtolExp(exp.value);
      assert t[|m| + 1..] == ExpText(exp.value);
    } else {
      assert t == m;
      NoSuch(m, 'e');
    }
  }

  lemma WrittenParts(whole: string, frac: Option<string>, exp: Option<int>)
    ensures Written(false, whole, frac, exp) ==
      (whole + (if frac.Some? then "." + frac.value else "")) + (if exp.Some? then "e" + ExpText(exp.value) else "")
  {
    hide ExpText;
    assert "" + whole == whole;
  }

  /** Reading back the parts of a text. */
  lemma ReadParts(whole: string, frac: Option<string>, exp: Option<int>)
    requires AllDigits(whole) && (frac.Some? ==> AllDigits(frac.value))
    ensures var f := if frac.Some? then frac.value else "";
      Unsigned(Written(false, whole, frac, exp)) == (whole + f, (if exp.Some? then exp.value else 0) - |f|)
  {
    hide PointAt, Mantissa, Exponent, ExpText, Written;
    WrittenParts(whole, frac, exp);
    PointRead(whole, frac);
    var m := whole + (if frac.Some? then "." + frac.value else "");
    ExponentRead(m, exp);
    if frac.None? {
      assert whole + "" == whole;
    }
  }

  /** Where the point is, and what is on either side. */
  lemma PointRead(whole: string, frac: Option<string>)
    requires AllDigits(whole) && (frac.Some? ==> AllDigits(frac.value))
    ensures var m := whole + (if frac.Some? then "." + frac.value else "");
      && (forall k | 0 <= k < |m| :: m[k] != 'e')
      && PointAt(m) == |whole| && (frac.None? ==> |m| == |whole| && m == whole)
      && (frac.Some? ==> |m| == |whole| + 1 + |frac.value| && m[..|whole|] == whole && m[|whole| + 1..] == frac.value)
  {
    hide IndexOf;
    if frac.Some? {
      var m := whole + ("." + frac.value);
      assert m == whole + ['.'] + frac.value;
      FirstAt(whole, '.', frac.value);
      assert forall k | 0 <= k < |frac.value| :: m[|whole| + 1 + k] == frac.value[k];
    } else {
      assert whole + "" == whole;
      NoSuch(whole, '.');
    }
  }

  lemma DenotedParts(neg: bool, whole: string, frac: Option<string>, exp: Option<int>)
    requires AllDigits(whole) && whole != "" && (frac.Some? ==> AllDigits(frac.value))
    ensures var f := if frac.Some? then frac.value else "";
      Denoted(Written(neg, whole, frac, exp)) == Number(neg, whole + f, (if exp.Some? then exp.value else 0) - |f|)
  {
    hide Unsigned, Number;
    ReadParts(whole, frac, exp);
    var s, t := Written(neg, whole, frac, exp), Written(false, whole, frac, exp);
    if neg {
      assert s[1..] == t;
    } else {
      assert s[0] == whole[0];
    }
  }

  // ---- zeros at either end ----

  lemma {:induction false} LeadingZeros(n: nat, ds: string)
    requires AllDigits(ds)
    ensures Num(Zeros(n) + ds) == Num(ds)
    decreases |ds|, n
  {
    var s := Zeros(n) + ds;
    if ds != "" {
      LeadingZeros(n, ds[..|ds| - 1]);
      assert s[..|s| - 1] == Zeros(n) + ds[..|ds| - 1];
    } else if n > 0 {
      LeadingZeros(n - 1, "");
      assert s[..|s| - 1] == Zeros(n - 1) + "";
    } else {
      assert s == ds;
    }
  }

  lemma {:induction false} TrailingZeros(ds: string, n: nat)
    requires AllDigits(ds)
    ensures Num(ds + Zeros(n)) == Num(ds) * Pow10(n)
  {
    var s := ds + Zeros(n);
    if n == 0 {
      assert s == ds;
    } else {
      TrailingZeros(ds, n - 1);
      assert s[..|s| - 1] == ds + Zeros(n - 1);
      TenTimes(Num(ds), Pow10(n - 1));
    }
  }

  lemma TenTimes(a: nat, p: nat)
    ensures 10 * (a * p) == a * (10 * p)
  {
  }

  lemma TenStep(k: int)
    ensures Ten(k + 1) == 10.0 * Ten(k)
  {
    if k < 0 {
      var p := Pow10(-k - 1);
      assert Pow10(-k) == 10 * p;
      Reciprocal(p as real);
    }
  }

  lemma Reciprocal(p: real)
    requires p > 0.0
    ensures 1.0 / p == 10.0 * (1.0 / (10.0 * p))
  {
    var q := 1.0 / (10.0 * p);
    assert q * (10.0 * p) == 1.0;
    assert (10.0 * q) * p == 1.0;
  }

  lemma {:induction false} Scaled(n: nat, k: int)
    ensures Pow10(n) as real * Ten(k) == Ten(k + n)
  {
    hide Ten;
    if n == 0 {
      assert Pow10(0) as real == 1.0;
    } else {
      Scaled(n - 1, k);
      TenStep(k + n - 1);
      Associated(Pow10(n - 1) as real, Ten(k));
      assert Pow10(n) as real == 10.0 * Pow10(n - 1) as real;
    }
  }

  lemma Associated(p: real, t: real)
    ensures (10.0 * p) * t == 10.0 * (p * t)
  {
  }

  /** Zeros moved from the digits into the power of ten. */
  lemma ZerosShift(neg: bool, ds: string, n: nat, k: int)
    requires AllDigits(ds)
    ensures Number(neg, ds + Zeros(n), k) == Number(neg, ds, k + n)
  {
    hide Num, Ten;
    TrailingZeros(ds, n);
    Scaled(n, k);
    Regroup(Num(ds), Pow10(n), Ten(k));
  }

  lemma Regroup(a: nat, p: nat, t: real)
    ensures (a * p) as real * t == a as real * (p as real * t)
  {
    CastTimes(a, p);
    Assoc(a as real, p as real, t);
  }

  lemma {:induction false} CastTimes(a: nat, p: nat)
    ensures (a * p) as real == a as real * p as real
  {
    if a > 0 {
      CastTimes(a - 1, p);
      assert a * p == (a - 1) * p + p;
    }
  }

  lemma Assoc(a: real, p: real, t: real)
    ensures (a * p) * t == a * (p * t)
  {
  }

  // ---- the claims ----

  /** Each of the four layouts denotes the digits times the power of ten. */
  lemma LayoutDenotes(neg: bool, ds: Digits, e: int)
    ensures Denoted(Layout(neg, ds, e)) == Number(neg, ds, e + 1 - |ds|)
  {
    hide Denoted, Number, Written;
    if e < -4 || e >= 16 {
      DenotedParts(neg, ds[..1], if |ds| > 1 then Some(ds[1..]) else None, Some(e));
      assert ds[..1] + (if |ds| > 1 then ds[1..] else "") == ds;
    } else if e < 0 {
      DenotedParts(neg, "0", Some(Zeros(-e - 1) + ds), None);
      assert "0" + (Zeros(-e - 1) + ds) == Zeros(-e) + ds;
      SameNumber(neg, -e, ds, e + 1 - |ds|);
    } else if e + 1 >= |ds| {
      var n := e + 1 - |ds|;
      DenotedParts(neg, ds + Zeros(n), Some("0"), None);
      assert ds + Zeros(n) + "0" == ds + Zeros(n + 1);
      ZerosShift(neg, ds, n + 1, -1);
    } else {
      DenotedParts(neg, ds[..e + 1], Some(ds[e + 1..]), None);
      assert ds[..e + 1] + ds[e + 1..] == ds;
    }
  }

  lemma SameNumber(neg: bool, n: nat, ds: string, k: int)
    requires AllDigits(ds)
    ensures Number(neg, Zeros(n) + ds, k) == Number(neg, ds, k)
  {
    LeadingZeros(n, ds);
  }

  /** Exponential notation is a matter of the exponent alone. */
  lemma NotationByExponent(neg: bool, ds: Digits, e: int)
    ensures IndexOf(Layout(neg, ds, e), 'e') < |Layout(neg, ds, e)| <==> !(-4 <= e < 16)
    ensures -4 <= e < 16 ==> IndexOf(Layout(neg, ds, e), '.') < |Layout(neg, ds, e)|
  {
    if e < -4 || e >= 16 {
      HasExponent(neg, ds[..1], if |ds| > 1 then Some(ds[1..]) else None, e);
    } else if e < 0 {
      PointOnly(neg, "0", Zeros(-e - 1) + ds);
    } else if e + 1 >= |ds| {
      PointOnly(neg, ds + Zeros(e + 1 - |ds|), "0");
    } else {
      PointOnly(neg, ds[..e + 1], ds[e + 1..]);
    }
  }

  lemma HasExponent(neg: bool, whole: string, frac: Option<string>, e: int)
    ensures IndexOf(Written(neg, whole, frac, Some(e)), 'e') < |Written(neg, whole, frac, Some(e))|
  {
    hide IndexOf, ExpText;
    var m := (if neg then "-" else "") + whole + (if frac.Some? then "." + frac.value else "");
    var s := Written(neg, whole, frac, Some(e));
    assert s == m + ("e" + ExpText(e));
    assert s[|m|] == 'e';
  }

  lemma PointOnly(neg: bool, whole: string, frac: string)
    requires AllDigits(whole) && AllDigits(frac)
    ensures var s := Written(neg, whole, Some(frac), None); IndexOf(s, 'e') == |s| && IndexOf(s, '.') < |s|
  {
    hide IndexOf;
    var s, m := Written(neg, whole, Some(frac), None), (if neg then "-" else "") + whole;
    assert s == m + ("." + frac);
    assert s[|m|] == '.';
    assert forall k | 0 <= k < |m| :: s[k] == m[k];
    assert forall k | 0 <= k < |frac| :: s[|m| + 1 + k] == frac[k];
    assert forall k | 0 <= k < |s| :: s[k] != 'e' by {
      forall k | 0 <= k < |s|
        ensures s[k] != 'e'
      {
        if k > |m| {
          assert s[k] == frac[k - |m| - 1];
        }
      }
    }
  }

  lemma {:induction false} TrimKeeps(neg: bool, ds: Digits, e: int)
    ensures |Trimmed(ds)| <= |ds|
    ensures Number(neg, Trimmed(ds), e + 1 - |Trimmed(ds)|) == Number(neg, ds, e + 1 - |ds|)
    decreases |ds|
  {
    hide Number;
    if |ds| > 1 && ds[|ds| - 1] == '0' {
      var rest := ds[..|ds| - 1];
      TrimKeeps(neg, rest, e);
      ZerosShift(neg, rest, 1, e + 1 - |ds|);
      assert rest + Zeros(1) == ds;
    }
  }

  /** Only zeros are taken off, and all there are behind the first digit. */
  lemma {:induction false} TrimmedEnds(ds: Digits)
    ensures var t := Trimmed(ds);
      t <= ds && (forall i | |t| <= i < |ds| :: ds[i] == '0') && (|t| == 1 || t[|t| - 1] != '0')
    decreases |ds|
  {
    if |ds| > 1 && ds[|ds| - 1] == '0' {
      TrimmedEnds(ds[..|ds| - 1]);
    }
  }

  /** From the "%.*e" text to the printed one, the number stays the same. */
  lemma SameValue(neg: bool, ds: Digits, e: int)
    ensures Denoted(Layout(neg, Trimmed(ds), e)) == Denoted(Sci(neg, ds, e))
  {
    hide Denoted, Number, Written, Layout;
    LayoutDenotes(neg, Trimmed(ds), e);
    TrimKeeps(neg, ds, e);
    DenotedParts(neg, ds[..1], if |ds| > 1 then Some(ds[1..]) else None, Some(e));
    assert ds[..1] + (if |ds| > 1 then ds[1..] else "") == ds;
  }

  // ---- the code ----

  /** Step 2: split "-d.dddde+xx" into sign, digits and exponent. */
  method Split(ghost neg: bool, ghost ds: Digits, ghost e: int, sci: string) returns (minus: bool, digits: Digits, exp10: int)
    requires sci == Sci(neg, ds, e)
    ensures minus == neg && digits == ds && exp10 == e
  {
    hide Sci, ExpText, Strtol, SciMantissa;
    SciParts(neg, ds, e);
    minus := sci[0] == '-';
    var p: nat := if minus then 1 else 0;
    ghost var from, m := p, SciMantissa(ds);
    var taken := "";
    assert m[..0] == "";
    while p < |sci| && sci[p] != 'e' && sci[p] != 'E'
      invariant from <= p <= from + |m| && taken == NoPoint(m[..p - from])
    {
      assert m[..p - from + 1] == m[..p - from] + [m[p - from]];
      NoPointNext(m[..p - from], m[p - from]);
      if sci[p] != '.' {
        taken := taken + [sci[p]];
      }
      p := p + 1;
    }
    assert m[..p - from] == m;
    NoPointIs(ds);
    digits := taken;
    exp10 := if p < |sci| then Strtol(sci[p + 1..]).0 else 0;
    StrtolExp(e);
  }

  lemma NoPointNext(s: string, c: char)
    ensures NoPoint(s + [c]) == NoPoint(s) + if c == '.' then "" else [c]
  {
    assert (s + [c])[..|s|] == s;
  }

  /** Drop trailing zeros. */
  method Trim(ds: Digits) returns (digits: Digits)
    ensures digits == Trimmed(ds)
  {
    digits := ds;
    while |digits| > 1 && digits[|digits| - 1] == '0'
      invariant Trimmed(digits) == Trimmed(ds)
      decreases |digits|
    {
      digits := digits[..|digits| - 1];
    }
  }

  /** Steps 2 and 3: split, trim, lay out. */
  method Arrange(ghost neg: bool, ghost ds: Digits, ghost e: int, sci: string) returns (tmp: string)
    requires sci == Sci(neg, ds, e)
    ensures tmp == Layout(neg, Trimmed(ds), e)
    ensures Denoted(tmp) == Denoted(sci)
  {
    hide Denoted, Sci, Layout, Trimmed;
    var minus, digits, exp10 := Split(neg, ds, e, sci);
    digits := Trim(digits);
    tmp := LayOut(minus, digits, exp10);
    SameValue(neg, ds, e);
  }

  function SciMantissa(ds: Digits): string {
    ds[..1] + if |ds| > 1 then "." + ds[1..] else ""
  }

  lemma SciParts(neg: bool, ds: Digits, e: int)
    ensures var s := Sci(neg, ds, e); var n := if neg then 1 else 0; var m := SciMantissa(ds);
      && |s| > n + |m| && (s[0] == '-' <==> neg) && s[n..n + |m|] == m
      && s[n + |m|] == 'e' && s[n + |m| + 1..] == ExpText(e)
      && forall k | n <= k < n + |m| :: s[k] == m[k - n] && s[k] != 'e' && s[k] != 'E'
  {
    var n, m := if neg then 1 else 0, SciMantissa(ds);
    assert Sci(neg, ds, e) == (if neg then "-" else "") + m + "e" + ExpText(e);
  }

  function NoPoint(s: string): string {
    if s == "" then ""
    else NoPoint(s[..|s| - 1]) + if s[|s| - 1] == '.' then "" else [s[|s| - 1]]
  }

  lemma {:induction false} NoPointDigits(a: string, b: string)
    requires AllDigits(b)
    ensures NoPoint(a + b) == NoPoint(a) + b
    decreases |b|
  {
    if b == "" {
      assert a + b == a;
    } else {
      assert (a + b)[..|a + b| - 1] == a + b[..|b| - 1];
      NoPointDigits(a, b[..|b| - 1]);
      assert b == b[..|b| - 1] + [b[|b| - 1]];
    }
  }

  lemma NoPointIs(ds: Digits)
    ensures NoPoint(SciMantissa(ds)) == ds
  {
    var a := ds[..1];
    assert a[..0] == "";
    assert NoPoint(a) == a;
    if |ds| > 1 {
      assert (a + ".")[..1] == a;
      assert NoPoint(a + ".") == a;
      assert SciMantissa(ds) == (a + ".") + ds[1..];
      NoPointDigits(a + ".", ds[1..]);
    } else {
      assert SciMantissa(ds) == a;
    }
  }

  /** Step 3: the notation, chosen from the exponent. */
  method LayOut(neg: bool, digits: Digits, exp10: int) returns (tmp: string)
    ensures tmp == Layout(neg, digits, exp10)
  {
    hide ExpText;
    tmp := if neg then "-" else "";
    var nd := |digits|;
    if exp10 < -4 || exp10 >= 16 {
      tmp := tmp + digits[..1];
      if nd > 1 {
        tmp := tmp + ("." + digits[1..]);
      }
      tmp := tmp + ("e" + ExpText(exp10));
    } else if exp10 < 0 {
      tmp := tmp + "0";
      var zeros := FillZeros(-exp10 - 1);
      tmp := tmp + ("." + (zeros + digits));
    } else if exp10 + 1 >= nd {
      var zeros := FillZeros(exp10 + 1 - nd);
      tmp := tmp + (digits + zeros);
      tmp := tmp + ("." + "0");
    } else {
      tmp := tmp + digits[..exp10 + 1];
      tmp := tmp + ("." + digits[exp10 + 1..]);
    }
  }

  method FillZeros(n: nat) returns (s: string)
    ensures s == Zeros(n)
  {
    s := "";
    for i := 0 to n
      invariant s == Zeros(i)
    {
      s := s + "0";
    }
  }

  /** At most 17 digits and a three-digit exponent: the text fits 32 bytes. */
  lemma LayoutFits(neg: bool, ds: Digits, e: int)
    requires |ds| <= 17 && -999 <= e <= 999
    ensures |Layout(neg, ds, e)| <= 24
  {
    var n := if e < 0 then -e else e;
    assert |Dec(n)| <= 3 by {
      assert n >= 10 ==> Dec(n) == Dec(n / 10) + [DigitChar(n % 10)];
      assert n >= 100 ==> Dec(n / 10) == Dec(n / 10 / 10) + [DigitChar(n / 10 % 10)];
    }
  }
}
