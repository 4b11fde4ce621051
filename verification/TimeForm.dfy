/** Which texts decoding shows of a time, told from the characters. */
module TimeForm {
  import opened Bytes
  import opened Text
  import opened Wrappers
  import opened CodecTree
  import opened CodecDecode

  /** Two digits, or three from 100 to 255. */
  predicate Part(p: string) {
    || (|p| == 2 && IsDigit(p[0]) && IsDigit(p[1]))
    || (|p| == 3 && IsDigit(p[0]) && IsDigit(p[1]) && IsDigit(p[2]) && p[0] != '0'
        && 100 * DigitVal(p[0]) + 10 * DigitVal(p[1]) + DigitVal(p[2]) <= 255)
  }

  /** `n` parts with a colon between one and the next. */
  predicate Parts(s: string, n: nat)
    decreases n
  {
    if n == 0 then s == ""
    else
      var w := DigitRun(s);
      Part(s[..w]) && if n == 1 then w == |s| else w < |s| && s[w] == ':' && Parts(s[w + 1..], n - 1)
  }

  /** What is shown of `n` bytes: all parts in the buffer's 95 characters, or all
      but the second zero of a last 00. */
  predicate CanonTime(env: Env, n: nat, s: string) {
    if n == 0 then s == env.unset
    else
      || (|s| <= 95 && Parts(s, n))
      || (|s| == 95 && s[93..] == ":0" && Parts(s + "0", n))
  }

  lemma TwoDigits(n: nat)
    requires 10 <= n < 100
    ensures Dec(n) == [DigitChar(n / 10), DigitChar(n % 10)]
  {
  }

  lemma PartOf(b: byte)
    ensures Part(Pad2(b))
    ensures b < 10 ==> Pad2(b) == ['0', DigitChar(b)]
    ensures 10 <= b < 100 ==> Pad2(b) == [DigitChar(b / 10), DigitChar(b % 10)]
    ensures b >= 100 ==> Pad2(b) == [DigitChar(b / 100), DigitChar(b / 10 % 10), DigitChar(b % 10)]
  {
    if b >= 100 {
      TwoDigits(b / 10);
      assert b / 10 / 10 == b / 100;
    } else if b >= 10 {
      TwoDigits(b);
    }
  }

  lemma PartIs(p: string) returns (b: byte)
    requires Part(p)
    ensures Pad2(b) == p
  {
    hide Pad2;
    if |p| == 2 {
      var x, y := DigitVal(p[0]), DigitVal(p[1]);
      b := 10 * x + y;
      DivModUnique(b, 10, x, y);
    } else {
      var x, y, z := DigitVal(p[0]), DigitVal(p[1]), DigitVal(p[2]);
      b := 100 * x + 10 * y + z;
      DivModUnique(b, 10, 10 * x + y, z);
      DivModUnique(b / 10, 10, x, y);
      DivModUnique(b, 100, x, 10 * y + z);
    }
    PartOf(b);
  }

  lemma {:induction false} PartsOf(b: bytes)
    ensures Parts(TimeText(b), |b|)
  {
    hide Pad2, Part, Parts;
    if b == [] {
      NoParts();
    } else {
      PartOf(b[0]);
      var p := Pad2(b[0]);
      if |b| == 1 {
        assert p + "" == p;
        PartsFront(p, "", 0);
        NoParts();
      } else {
        PartsOf(b[1..]);
        TimeTextFront(b);
        PartsFront(p, ":" + TimeText(b[1..]), |b| - 1);
        assert (":" + TimeText(b[1..]))[1..] == TimeText(b[1..]);
      }
    }
  }

  lemma NoParts()
    ensures TimeText([]) == "" && Parts("", 0)
  {
  }

  lemma PartsFront(p: string, t: string, n: nat)
    requires Part(p) && (if n == 0 then t == "" else t != "" && t[0] == ':' && Parts(t[1..], n))
    ensures Parts(p + t, n + 1)
  {
    DigitRunExact(p, t);
    assert (p + t)[..|p|] == p;
    if n > 0 {
      assert (p + t)[|p|] == ':' && (p + t)[|p| + 1..] == t[1..];
    }
  }

  lemma {:induction false} PartsAre(s: string, n: nat) returns (b: bytes)
    requires Parts(s, n)
    ensures |b| == n && TimeText(b) == s
    decreases n
  {
    hide Pad2, Part;
    if n == 0 {
      b := [];
    } else {
      var w := DigitRun(s);
      var v := PartIs(s[..w]);
      if n == 1 {
        b := [v];
        assert s[..w] == s;
      } else {
        var rest := PartsAre(s[w + 1..], n - 1);
        b := [v] + rest;
        assert b[1..] == rest;
        assert s == s[..w] + ":" + s[w + 1..];
      }
    }
  }

  /** A text of more than one part ends with a colon and the last part. */
  lemma {:induction false} LastPart(b: bytes)
    requires |b| > 1
    ensures |TimeText(b)| > |Pad2(b[|b| - 1])|
    ensures TimeText(b)[|TimeText(b)| - 1 - |Pad2(b[|b| - 1])|..] == ":" + Pad2(b[|b| - 1])
  {
    hide Pad2, TimeText;
    TimeTextFront(b);
    if |b| > 2 {
      LastPart(b[1..]);
    } else {
      TimeTextOne(b[1..]);
    }
  }

  lemma LastIsZero(b: bytes)
    requires |b| > 1 && |TimeText(b)| == 96
    ensures b[|b| - 1] == 0 <==> TimeText(b)[93..] == ":00"
  {
    hide TimeText, Pad2, Part;
    var v, t := b[|b| - 1], TimeText(b);
    LastPart(b);
    PartOf(v);
    var tail := t[95 - |Pad2(v)|..];
    if v < 100 {
      assert t[93..] == tail;
      assert tail[1] == Pad2(v)[0] && tail[2] == Pad2(v)[1];
      DigitZero(v);
    } else {
      assert t[93..] == tail[1..] == Pad2(v);
    }
  }

  lemma DigitZero(v: byte)
    requires v < 100
    ensures v == 0 <==> (DigitChar(v / 10) == '0' && DigitChar(v % 10) == '0')
  {
  }

  lemma OnePart(b: bytes)
    requires |b| == 1
    ensures |TimeText(b)| <= 3
  {
    Pad2Length(b[0]);
  }

  lemma TimeCanonical(env: Env, b: bytes)
    requires TimeFits(b)
    ensures CanonTime(env, |b|, TimeShown(env, b))
  {
    hide TimeText, Parts;
    if b != [] {
      PartsOf(b);
      var s, t := TimeShown(env, b), TimeText(b);
      if |t| == 96 {
        if |b| == 1 {
          OnePart(b);
        }
        LastIsZero(b);
        assert t[93..][2] == t[95];
        assert s + "0" == t;
        assert s[93..] == t[93..][..2];
      }
    }
  }

  lemma CanonicalTime(env: Env, n: nat, s: string) returns (b: bytes)
    requires CanonTime(env, n, s)
    ensures |b| == n && TimeFits(b) && TimeShown(env, b) == s
  {
    hide TimeText, Parts;
    if n == 0 {
      b := [];
      NoParts();
    } else if |s| <= 95 && Parts(s, n) {
      b := PartsAre(s, n);
    } else {
      b := PartsAre(s + "0", n);
      if n == 1 {
        OnePart(b);
      }
      assert (s + "0")[93..] == s[93..] + "0";
      LastIsZero(b);
      assert (s + "0")[..95] == s;
    }
  }
}
