/** The string conversions the firmware uses: %u, %lld, %02u, hexadecimal,
    strtol and the ASCII case folding of strcasecmp. */
module Text {
  import opened Bytes
  import opened Wrappers

  function DigitChar(d: nat): (c: char)
    requires d < 10
    ensures IsDigit(c) && DigitVal(c) == d
  {
    '0' + d as char
  }

  predicate IsDigit(c: char) {
    '0' <= c <= '9'
  }

  function DigitVal(c: char): (d: nat)
    requires IsDigit(c)
    ensures d < 10
  {
    c as int - '0' as int
  }

  /** %u */
  function Dec(n: nat): (s: string)
    ensures |s| >= 1
    ensures forall i :: 0 <= i < |s| ==> IsDigit(s[i])
  {
    if n < 10 then [DigitChar(n)] else Dec(n / 10) + [DigitChar(n % 10)]
  }

  /** %lld */
  function DecInt(v: int): string {
    if v < 0 then "-" + Dec(-v) else Dec(v)
  }

  /** The number a run of digits denotes, most significant first. */
  function DigitsVal(s: string): nat
    requires forall i :: 0 <= i < |s| ==> IsDigit(s[i])
  {
    if s == "" then 0 else 10 * DigitsVal(s[..|s| - 1]) + DigitVal(s[|s| - 1])
  }

  lemma {:induction false} DecDenotes(n: nat)
    ensures DigitsVal(Dec(n)) == n
  {
    if n >= 10 {
      DecDenotes(n / 10);
      assert Dec(n)[..|Dec(n)| - 1] == Dec(n / 10);
    } else {
      assert Dec(n)[..0] == "";
      assert DigitsVal([DigitChar(n)]) == 10 * DigitsVal("") + n;
    }
  }

  lemma {:induction false} NoZeroInFront(n: nat)
    ensures |Dec(n)| > 1 ==> Dec(n)[0] != '0'
  {
    if n >= 10 {
      NoZeroInFront(n / 10);
      if n < 100 {
        assert DigitVal(Dec(n / 10)[0]) == n / 10;
      }
    }
  }

  // ---- the first occurrence ----

  function IndexOf(s: string, c: char): (i: nat)
    ensures i <= |s| && (i < |s| ==> s[i] == c) && forall k | 0 <= k < i :: s[k] != c
  {
    if s == "" || s[0] == c then 0 else 1 + IndexOf(s[1..], c)
  }

  lemma {:induction false} IndexSkips(s: string, c: char, k: nat)
    requires k <= |s| && forall j | 0 <= j < k :: s[j] != c
    ensures IndexOf(s, c) == k + IndexOf(s[k..], c)
  {
    if k > 0 {
      IndexSkips(s[1..], c, k - 1);
      assert s[1..][k - 1..] == s[k..];
    }
  }

  /** snprintf into `size` bytes. */
  function Cut(s: string, size: nat): string
    requires size > 0
  {
    if |s| < size then s else s[..size - 1]
  }

  // ---- case folding ----

  function Lower(c: char): char {
    if 'A' <= c <= 'Z' then c + 32 as char else c
  }

  function Fold(s: string): (r: string)
    ensures |r| == |s|
  {
    seq(|s|, i requires 0 <= i < |s| => Lower(s[i]))
  }

  /** strcasecmp(a, b) == 0 */
  predicate SameNoCase(a: string, b: string) {
    Fold(a) == Fold(b)
  }

  /** Two letters of the alphabet in either case. */
  predicate SameLetter(a: char, b: char) {
    || a == b
    || ('A' <= a <= 'Z' && b as int == a as int + 32)
    || ('A' <= b <= 'Z' && a as int == b as int + 32)
  }

  /** Comparison without regard to case: letter by letter. */
  lemma IgnoresCase(a: string, b: string)
    ensures SameNoCase(a, b) <==> |a| == |b| && forall i | 0 <= i < |a| :: SameLetter(a[i], b[i])
  {
    if |a| == |b| {
      forall i | 0 <= i < |a| ensures Fold(a)[i] == Fold(b)[i] <==> SameLetter(a[i], b[i]) {
        LowerAlike(a[i], b[i]);
      }
      if forall i | 0 <= i < |a| :: SameLetter(a[i], b[i]) {
        assert Fold(a) == Fold(b);
      }
    }
  }

  lemma LowerAlike(a: char, b: char)
    ensures Lower(a) == Lower(b) <==> SameLetter(a, b)
  {
  }

  // ---- hexadecimal ----

  function HexDigit(n: nat): (c: char)
    requires n < 16
    ensures HexVal(c) == n
  {
    if n < 10 then '0' + n as char else 'a' + (n - 10) as char
  }

  /** -1 for a character that is not a hexadecimal digit. */
  function HexVal(c: char): (v: int)
    ensures -1 <= v < 16
  {
    if '0' <= c <= '9' then c as int - '0' as int
    else if 'a' <= c <= 'f' then c as int - 'a' as int + 10
    else if 'A' <= c <= 'F' then c as int - 'A' as int + 10
    else -1
  }

  function HexText(b: bytes): (s: string)
    ensures |s| == 2 * |b|
  {
    if b == [] then "" else [HexDigit(b[0] / 16), HexDigit(b[0] % 16)] + HexText(b[1..])
  }

  function ParseHex(s: string): Option<bytes> {
    if |s| < 2 then (if s == "" then Some([]) else None)
    else if HexVal(s[0]) < 0 || HexVal(s[1]) < 0 then None
    else match ParseHex(s[2..])
      case None => None
      case Some(r) => Some([HexVal(s[0]) * 16 + HexVal(s[1])] + r)
  }

  lemma {:induction false} HexRoundTrip(b: bytes)
    ensures ParseHex(HexText(b)) == Some(b)
  {
    if b != [] {
      HexRoundTrip(b[1..]);
      assert HexText(b)[2..] == HexText(b[1..]);
      assert b == [b[0]] + b[1..];
    }
  }

  lemma HexFront(b: bytes, i: nat)
    requires i < |b|
    ensures HexText(b[i..]) == [HexDigit(b[i] / 16), HexDigit(b[i] % 16)] + HexText(b[i + 1..])
  {
    assert b[i..][1..] == b[i + 1..];
  }

  lemma HexEnd()
    ensures HexText([]) == ""
  {
  }

  lemma {:induction false} ParseHexLength(s: string)
    requires ParseHex(s).Some?
    ensures |s| == 2 * |ParseHex(s).value|
  {
    if |s| >= 2 {
      ParseHexLength(s[2..]);
    }
  }

  // ---- strtol and colon-separated times ----

  predicate IsSpace(c: char) {
    c == ' ' || '\t' <= c <= '\r'
  }

  function SpaceRun(s: string): (n: nat)
    ensures n <= |s|
  {
    if s != "" && IsSpace(s[0]) then 1 + SpaceRun(s[1..]) else 0
  }

  function DigitRun(s: string): (n: nat)
    ensures n <= |s|
    ensures forall i :: 0 <= i < n ==> IsDigit(s[i])
  {
    if s != "" && IsDigit(s[0]) then 1 + DigitRun(s[1..]) else 0
  }

  /** strtol(s, &end, 10): the value and how many characters were consumed, 0
      when there is no number. Saturation is left out: every caller refuses
      values outside 0..255, and a saturated value is outside too. */
  function Strtol(s: string): (r: (int, nat))
    ensures r.1 <= |s|
  {
    var a := SpaceRun(s);
    var neg := a < |s| && s[a] == '-';
    var b := if a < |s| && (s[a] == '-' || s[a] == '+') then a + 1 else a;
    var n := DigitRun(s[b..]);
    if n == 0 then (0, 0)
    else
      var v: int := DigitsVal(s[b..][..n]);
      (if neg then -v else v, b + n)
  }

  /** %02u */
  function Pad2(b: byte): (s: string)
    ensures |s| >= 2
    ensures forall i :: 0 <= i < |s| ==> IsDigit(s[i])
  {
    if b < 10 then "0" + Dec(b) else Dec2(b)
  }

  function Dec2(n: nat): (s: string)
    requires n >= 10
    ensures s == Dec(n) && |s| >= 2
  {
    Dec(n)
  }

  function TimeText(b: bytes): string {
    if b == [] then "" else if |b| == 1 then Pad2(b[0]) else Pad2(b[0]) + ":" + TimeText(b[1..])
  }

  /** The loop of the O3E_K_STIME encoder: `w` numbers, each in a byte, with at
      most one colon skipped after each. */
  function ParseTime(s: string, w: nat): (r: Option<bytes>)
    ensures r.Some? ==> |r.value| == w
    decreases w
  {
    if w == 0 then Some([])
    else
      var (part, used) := Strtol(s);
      if used == 0 || part < 0 || part > 255 then None
      else
        var rest := if used < |s| && s[used] == ':' then s[used + 1..] else s[used..];
        match ParseTime(rest, w - 1)
        case None => None
        case Some(r) => Some([part] + r)
  }

  lemma {:induction false} DigitRunExact(s: string, t: string)
    requires forall i :: 0 <= i < |s| ==> IsDigit(s[i])
    requires t == "" || !IsDigit(t[0])
    ensures DigitRun(s + t) == |s|
  {
    if s == "" {
      assert s + t == t;
    } else {
      assert (s + t)[1..] == s[1..] + t;
      DigitRunExact(s[1..], t);
    }
  }

  lemma Pad2Denotes(b: byte)
    ensures DigitsVal(Pad2(b)) == b
  {
    DecDenotes(b);
    if b < 10 {
      assert Pad2(b)[..1] == "0";
      assert "0"[..0] == "";
      assert DigitsVal("0") == 0;
    }
  }

  lemma StrtolPad2(b: byte, t: string)
    requires t == "" || t[0] == ':'
    ensures Strtol(Pad2(b) + t) == (b, |Pad2(b)|)
  {
    var s := Pad2(b) + t;
    assert s[0] == Pad2(b)[0];
    assert s[0..] == s;
    DigitRunExact(Pad2(b), t);
    assert s[0..][..|Pad2(b)|] == Pad2(b);
    Pad2Denotes(b);
  }

  /** One number read off the front, then the rest behind its colon. */
  lemma ParseTimeFront(b: byte, t: string, n: nat)
    requires t == "" || t[0] == ':'
    ensures var rest := ParseTime(if t == "" then "" else t[1..], n);
      ParseTime(Pad2(b) + t, n + 1) == if rest.None? then None else Some([b] + rest.value)
  {
    hide Strtol, Pad2, ParseTime;
    StrtolPad2(b, t);
    var s, used := Pad2(b) + t, |Pad2(b)|;
    ParseTimeStep(s, b, used, n);
    assert s[used..] == t;
    if t != "" {
      assert s[used] == ':' && s[used + 1..] == t[1..];
    }
  }

  lemma ParseTimeStep(s: string, b: byte, used: nat, n: nat)
    requires 0 < used <= |s| && Strtol(s) == (b, used)
    ensures var rest := ParseTime(if used < |s| && s[used] == ':' then s[used + 1..] else s[used..], n);
      ParseTime(s, n + 1) == if rest.None? then None else Some([b] + rest.value)
  {
    hide Strtol;
  }

  lemma TimeTextFront(b: bytes)
    requires |b| > 1
    ensures TimeText(b) == Pad2(b[0]) + (":" + TimeText(b[1..]))
  {
  }

  lemma {:induction false} TimeRoundTrip(b: bytes)
    ensures ParseTime(TimeText(b), |b|) == Some(b)
  {
    hide ParseTime, Pad2;
    if |b| == 0 {
      NoTime("");
    } else if |b| == 1 {
      ParseTimeFront(b[0], "", 0);
      NoTime("");
      assert TimeText(b) == Pad2(b[0]) + "";
      assert b == [b[0]] + [];
    } else {
      TimeRoundTrip(b[1..]);
      ParseTimeFront(b[0], ":" + TimeText(b[1..]), |b| - 1);
      TimeTextFront(b);
      assert (":" + TimeText(b[1..]))[1..] == TimeText(b[1..]);
      assert b == [b[0]] + b[1..];
    }
  }

  lemma NoTime(s: string)
    ensures ParseTime(s, 0) == Some([])
    ensures forall n | n > 0 :: ParseTime("", n) == None
  {
  }

  /** A time text cut short reads back only when nothing but the second zero of
      a last 00 is missing. */
  lemma {:induction false} CutTime(b: bytes, k: nat)
    requires b != [] && k < |TimeText(b)|
    ensures ParseTime(TimeText(b)[..k], |b|) == Some(b) <==> k == |TimeText(b)| - 1 && b[|b| - 1] == 0
  {
    hide ParseTime, TimeText, Pad2;
    var t, p := TimeText(b), Pad2(b[0]);
    TimeTextOne(b);
    NoTime("");
    if k <= |p| {
      assert t[..k] == p[..k];
      CutNumber(b[0], k, |b| - 1);
      assert |b| == 1 ==> b == [b[0]];
    } else {
      var rest := TimeText(b[1..]);
      TimeTextFront(b);
      assert t[..k] == p + (":" + rest)[..k - |p|];
      assert (":" + rest)[..k - |p|][1..] == rest[..k - |p| - 1];
      ParseTimeFront(b[0], (":" + rest)[..k - |p|], |b| - 1);
      CutTime(b[1..], k - |p| - 1);
      assert b == [b[0]] + b[1..];
    }
  }

  lemma TimeTextOne(b: bytes)
    requires b != []
    ensures Pad2(b[0]) <= TimeText(b) && (|b| == 1 ==> TimeText(b) == Pad2(b[0]))
    ensures |b| > 1 ==> |TimeText(b)| >= |Pad2(b[0])| + 3
  {
    if |b| > 1 {
      TimeTextOne(b[1..]);
    }
  }

  /** The digits of one number, possibly cut, and nothing behind them. */
  lemma CutNumber(b: byte, k: nat, n: nat)
    requires k <= |Pad2(b)|
    ensures n > 0 ==> ParseTime(Pad2(b)[..k], n + 1) == None
    ensures n == 0 && k < |Pad2(b)| ==> (ParseTime(Pad2(b)[..k], 1) == Some([b]) <==> k == |Pad2(b)| - 1 && b == 0)
  {
    hide Strtol, Pad2;
    var s := Pad2(b)[..k];
    NoTime("");
    if k > 0 {
      StrtolDigits(s);
      assert s[|s|..] == "";
      assert k == |Pad2(b)| ==> s == Pad2(b);
      Pad2Denotes(b);
      if k < |Pad2(b)| {
        CutDigits(b, k);
      }
      OneTime(s, DigitsVal(s));
    }
  }

  lemma OneTime(s: string, v: nat)
    requires s != "" && Strtol(s) == (v, |s|)
    ensures ParseTime(s, 1) == if v > 255 then None else Some([v])
  {
    hide Strtol;
    NoTime(s[|s|..]);
    if v <= 255 {
      var b: byte := v;
      assert [b] + [] == [b];
    }
  }

  lemma StrtolDigits(s: string)
    requires s != "" && forall i | 0 <= i < |s| :: IsDigit(s[i])
    ensures Strtol(s) == (DigitsVal(s), |s|)
  {
    DigitRunExact(s, "");
    assert s + "" == s && s[0..] == s && s[..|s|] == s;
  }

  lemma CutDigits(b: byte, k: nat)
    requires 0 < k < |Pad2(b)|
    ensures DigitsVal(Pad2(b)[..k]) < 100
    ensures DigitsVal(Pad2(b)[..k]) == b <==> k == |Pad2(b)| - 1 && b == 0
  {
    var s := Pad2(b);
    Pad2Length(b);
    OneDigit(s[..1]);
    if |s| == 3 {
      assert s[..2][..1] == s[..1];
      assert DigitsVal(s[..2]) == 10 * DigitsVal(s[..1]) + DigitVal(s[1]);
      assert k == 1 || k == 2;
      assert DigitsVal(s[..k]) < 100 <= b;
    } else if b >= 10 {
      assert Dec(b / 10) == [DigitChar(b / 10)];
      assert s[0] == DigitChar(b / 10);
    }
  }

  lemma OneDigit(s: string)
    requires |s| == 1 && IsDigit(s[0])
    ensures DigitsVal(s) == DigitVal(s[0]) < 10
  {
    assert s[..0] == "";
  }

  lemma Pad2Length(b: byte)
    ensures |Pad2(b)| == if b < 100 then 2 else 3
  {
    if b >= 100 {
      assert |Dec(b / 10 / 10)| == 1;
      assert |Dec(b / 10)| == 2;
    } else if b >= 10 {
      assert |Dec(b / 10)| == 1;
    }
  }

  // ---- what strtol reads ----

  predicate Blanks(s: string) {
    forall i | 0 <= i < |s| :: s[i] == ' ' || 9 <= s[i] as int <= 13
  }

  /** White space, perhaps a sign, and the digits up to the first other character. */
  lemma StrtolReads(s: string, a: nat, b: nat, n: nat)
    requires a <= b <= a + 1 && n > 0 && b + n <= |s| && Blanks(s[..a])
    requires (b > a ==> s[a] in {'-', '+'}) && (forall i | b <= i < b + n :: IsDigit(s[i]))
    requires b + n == |s| || !IsDigit(s[b + n])
    ensures Strtol(s) == (if b > a && s[a] == '-' then 0 - DigitsVal(s[b..b + n]) else DigitsVal(s[b..b + n]), b + n)
  {
    hide DigitsVal, Strtol, SpaceRun, DigitRun;
    BlanksSkipped(s[..a], s[a..]);
    assert s == s[..a] + s[a..];
    var ds, rest := s[b..b + n], s[b + n..];
    DigitRunExact(ds, rest);
    assert s[b..] == ds + rest && s[b..][..n] == ds;
    StrtolAt(s, a, b, n);
  }

  lemma StrtolAt(s: string, a: nat, b: nat, n: nat)
    requires a == SpaceRun(s) && a < |s| && b == (if s[a] == '-' || s[a] == '+' then a + 1 else a)
    requires n == DigitRun(s[b..]) && n > 0
    ensures Strtol(s) == (if s[a] == '-' then 0 - DigitsVal(s[b..][..n]) else DigitsVal(s[b..][..n]), b + n)
  {
    hide DigitsVal;
  }

  lemma {:induction false} BlanksSkipped(blanks: string, rest: string)
    requires Blanks(blanks) && rest != "" && !IsSpace(rest[0])
    ensures SpaceRun(blanks + rest) == |blanks|
  {
    if blanks == "" {
      assert blanks + rest == rest;
    } else {
      assert (blanks + rest)[1..] == blanks[1..] + rest;
      BlanksSkipped(blanks[1..], rest);
    }
  }

  /** Without a digit behind white space and sign there is no number. */
  lemma StrtolNone(blanks: string, sign: string, rest: string)
    requires Blanks(blanks) && sign in {"", "-", "+"} && (rest == "" || !IsDigit(rest[0]))
    requires sign == "" ==> rest == "" || (!IsSpace(rest[0]) && rest[0] != '-' && rest[0] != '+')
    ensures Strtol(blanks + sign + rest) == (0, 0)
  {
    var s, a := blanks + sign + rest, |blanks|;
    assert s == blanks + (sign + rest);
    if sign + rest == "" {
      assert s == blanks;
      AllBlanks(blanks);
    } else {
      BlanksSkipped(blanks, sign + rest);
      assert s[a..] == sign + rest && s[a + |sign|..] == rest;
    }
  }

  lemma {:induction false} AllBlanks(blanks: string)
    requires Blanks(blanks)
    ensures SpaceRun(blanks) == |blanks|
  {
    if blanks != "" {
      AllBlanks(blanks[1..]);
    }
  }
}
