/** C doubles, as the reals they hold, and the conversions between numbers that
    the codec relies on. A double has 53 significant bits; its exponent is not
    limited here. */
module Doubles {
  const TWO52: real := 4503599627370496.0
  const TWO53: real := 9007199254740992.0

  function Abs(x: real): real {
    if x >= 0.0 then x else -x
  }

  predicate IsInteger(x: real) {
    x.Floor as real == x
  }

  /** (int64_t)x: toward zero. */
  function Trunc(x: real): int {
    if x >= 0.0 then x.Floor else -((-x).Floor)
  }

  /** round(x): half away from zero. */
  function RoundAway(x: real): int {
    if x >= 0.0 then (x + 0.5).Floor else -((-x + 0.5).Floor)
  }

  /** The rounding of "%.*f", and of binary arithmetic: half to even. */
  function HalfEven(x: real): int {
    var f := x.Floor;
    var frac := x - f as real;
    if frac < 0.5 then f
    else if frac > 0.5 then f + 1
    else if f % 2 == 0 then f else f + 1
  }

  // ---- rounding to a double ----

  /** How far a positive number is from having 53 bits in front of the point. */
  function Steps(x: real): nat {
    if x >= TWO53 then x.Floor else if 0.0 < x < TWO52 then (TWO53 / x).Floor else 0
  }

  lemma Fewer(x: real)
    ensures x >= TWO53 ==> Steps(x / 2.0) < Steps(x)
    ensures 0.0 < x < TWO52 ==> Steps(2.0 * x) < Steps(x)
  {
    if 0.0 < x < TWO52 {
      var q, h := TWO53 / x, TWO53 / (2.0 * x);
      assert q * x == TWO53 && h * (2.0 * x) == TWO53;
      assert (2.0 * h - q) * x == 0.0;
      assert (q - 2.0) * x > 0.0;
    }
  }

  /** The nearest double, of two equally near the one whose last bit is 0. */
  function AsDouble(x: real): real
    decreases x < 0.0, Steps(x)
  {
    if x < 0.0 then -AsDouble(-x)
    else if x == 0.0 then 0.0
    else if x >= TWO53 then Fewer(x); 2.0 * AsDouble(x / 2.0)
    else if x < TWO52 then Fewer(x); AsDouble(2.0 * x) / 2.0
    else HalfEven(x) as real
  }

  predicate IsDouble(x: real) {
    AsDouble(x) == x
  }

  /** The C operators on doubles: the exact result, rounded. */
  function Product(a: real, b: real): real {
    AsDouble(a * b)
  }

  function Quotient(a: real, b: real): real
    requires b != 0.0
  {
    AsDouble(a / b)
  }

  lemma Negated(x: real)
    ensures AsDouble(-x) == -AsDouble(x)
  {
  }

  lemma Doubled(x: real)
    ensures AsDouble(2.0 * x) == 2.0 * AsDouble(x)
    decreases x < 0.0
  {
    if x < 0.0 {
      Doubled(-x);
      assert -(2.0 * x) == 2.0 * -x;
    }
  }

  lemma HalfEvenNear(x: real)
    ensures -0.5 <= HalfEven(x) as real - x <= 0.5
  {
  }

  /** The relative error is at most 2^-53. */
  lemma {:induction false} DoubleNear(x: real)
    ensures Abs(AsDouble(x) - x) * TWO53 <= Abs(x)
    decreases x < 0.0, Steps(x)
  {
    hide HalfEven;
    Fewer(x);
    if x < 0.0 {
      DoubleNear(-x);
    } else if x >= TWO53 {
      DoubleNear(x / 2.0);
    } else if 0.0 < x < TWO52 {
      DoubleNear(2.0 * x);
    } else if x > 0.0 {
      HalfEvenNear(x);
    }
  }

  /** And of no number but zero is it as much. */
  lemma {:induction false} DoubleCloser(x: real)
    requires x != 0.0
    ensures Abs(AsDouble(x) - x) * TWO53 < Abs(x)
    decreases x < 0.0, Steps(x)
  {
    hide HalfEven;
    Fewer(x);
    if x < 0.0 {
      DoubleCloser(-x);
    } else if x >= TWO53 {
      DoubleCloser(x / 2.0);
    } else if x < TWO52 {
      DoubleCloser(2.0 * x);
    } else {
      HalfEvenNear(x);
      if x == TWO52 {
        HalfEvenIs(x, 0x10_0000_0000_0000);
      }
    }
  }

  lemma Sixteenfold(x: real)
    ensures AsDouble(16.0 * x) == 16.0 * AsDouble(x)
  {
    hide AsDouble;
    Doubled(x);
    Doubled(2.0 * x);
    Doubled(4.0 * x);
    Doubled(8.0 * x);
  }

  function Sixteens(x: real, k: nat): real {
    if k == 0 then x else 16.0 * Sixteens(x, k - 1)
  }

  lemma {:induction false} ManyDoubled(x: real, k: nat)
    ensures AsDouble(Sixteens(x, k)) == Sixteens(AsDouble(x), k)
  {
    hide AsDouble;
    if k > 0 {
      ManyDoubled(x, k - 1);
      Sixteenfold(Sixteens(x, k - 1));
    }
  }

  lemma FourMore(x: real, k: nat)
    ensures Sixteens(x, k + 4) == 65536.0 * Sixteens(x, k)
  {
    assert Sixteens(x, k + 1) == 16.0 * Sixteens(x, k);
    assert Sixteens(x, k + 2) == 16.0 * Sixteens(x, k + 1);
    assert Sixteens(x, k + 3) == 16.0 * Sixteens(x, k + 2);
    assert Sixteens(x, k + 4) == 16.0 * Sixteens(x, k + 3);
  }

  lemma ThirteenTimes(x: real)
    ensures Sixteens(x, 13) == TWO52 * x
  {
    FourMore(x, 0);
    FourMore(x, 4);
    FourMore(x, 8);
    assert Sixteens(x, 13) == 16.0 * Sixteens(x, 12);
  }

  /** Multiplied by 2^52, doubles remain doubles. */
  lemma Enlarged(x: real)
    ensures AsDouble(TWO52 * x) == TWO52 * AsDouble(x)
  {
    hide AsDouble, Sixteens;
    ManyDoubled(x, 13);
    ThirteenTimes(x);
    ThirteenTimes(AsDouble(x));
  }

  /** No other double is that near to 1. */
  lemma OneAlone(s: real)
    requires IsDouble(s) && -1.0 < (s - 1.0) * TWO53 < 1.0
    ensures s == 1.0
  {
    hide AsDouble, HalfEven;
    Enlarged(s);
    var y := TWO52 * s;
    assert AsDouble(y) == y;
    if s >= 1.0 {
      MidRange(y);
      HalfEvenIs(y, 0x10_0000_0000_0000);
    } else {
      Doubled(y);
      MidRange(2.0 * y);
    }
  }

  /** Dividing by any other double than 1 changes every double but zero. */
  lemma QuotientMoves(x: real, s: real)
    requires IsDouble(x) && IsDouble(s) && s != 0.0
    ensures Quotient(x, s) == x <==> x == 0.0 || s == 1.0
  {
    hide AsDouble;
    var q := x / s;
    assert q * s == x;
    SignKept(q);
    if x != 0.0 && AsDouble(q) == x {
      DoubleCloser(q);
      NearFactor(q, s, x);
      OneAlone(s);
    }
  }

  lemma NearFactor(q: real, s: real, x: real)
    requires q != 0.0 && x == q * s && Abs(x - q) * TWO53 < Abs(q)
    ensures -1.0 < (s - 1.0) * TWO53 < 1.0
  {
    var e := (s - 1.0) * TWO53;
    assert (x - q) * TWO53 == q * e by {
      assert x - q == q * (s - 1.0);
    }
    Grows(q, e, q * e);
    Grows(-q, e, -(q * e));
  }

  lemma Grows(q: real, e: real, p: real)
    requires p == q * e
    ensures q > 0.0 && e >= 1.0 ==> p >= q
    ensures q > 0.0 && e <= -1.0 ==> p <= -q
  {
    assert q > 0.0 && e >= 1.0 ==> q * (e - 1.0) >= 0.0;
    assert q > 0.0 && e <= -1.0 ==> q * (e + 1.0) <= 0.0;
  }

  /** From 2^52 on, doubles are integers. */
  lemma {:induction false} WholeDouble(x: real)
    requires x >= TWO52
    ensures IsInteger(AsDouble(x)) && AsDouble(x) >= TWO52
    decreases Steps(x)
  {
    if x >= TWO53 {
      Fewer(x);
      WholeDouble(x / 2.0);
      TwiceInteger(AsDouble(x / 2.0));
    }
  }

  lemma TwiceInteger(x: real)
    requires IsInteger(x)
    ensures IsInteger(2.0 * x)
  {
    WholeReal(2.0 * x, 2 * x.Floor);
  }

  lemma WholeReal(x: real, i: int)
    requires x == i as real
    ensures IsInteger(x)
  {
  }

  /** A double rounds to itself. */
  lemma {:induction false} RoundedIsDouble(x: real)
    ensures IsDouble(AsDouble(x))
    decreases x < 0.0, Steps(x)
  {
    Fewer(x);
    if x < 0.0 {
      RoundedIsDouble(-x);
      Negated(AsDouble(-x));
    } else if x >= TWO53 {
      RoundedIsDouble(x / 2.0);
      Doubled(AsDouble(x / 2.0));
    } else if 0.0 < x < TWO52 {
      RoundedIsDouble(2.0 * x);
      Doubled(AsDouble(2.0 * x) / 2.0);
    } else if x > 0.0 {
      WholeExact(HalfEven(x));
    }
  }

  /** Integers up to 2^53 are doubles. */
  lemma {:induction false} WholeExact(i: int)
    requires -0x20_0000_0000_0000 <= i <= 0x20_0000_0000_0000
    ensures IsDouble(i as real)
    decreases i < 0, if i < 0 then 0 else 0x20_0000_0000_0000 - i
  {
    if i < 0 {
      WholeExact(-i);
      Negated(i as real);
    } else if 0 < i < 0x10_0000_0000_0000 {
      WholeExact(2 * i);
    } else if i == 0x20_0000_0000_0000 {
      assert AsDouble(TWO52) == TWO52;
    }
  }

  /** The double nearest to an integer is an integer. */
  lemma WholeStays(i: int)
    ensures IsInteger(AsDouble(i as real))
  {
    if i >= 0x10_0000_0000_0000 {
      WholeDouble(i as real);
    } else if i <= -0x10_0000_0000_0000 {
      WholeDouble(-i as real);
      Negated(-i as real);
      NegatedInteger(AsDouble(-i as real));
    } else {
      WholeExact(i);
    }
  }

  lemma NegatedInteger(x: real)
    requires IsInteger(x)
    ensures IsInteger(-x)
  {
    WholeReal(-x, -x.Floor);
  }

  /** Rounding to a double keeps the sign. */
  lemma SignKept(x: real)
    ensures AsDouble(x) < 0.0 <==> x < 0.0
    ensures AsDouble(x) == 0.0 <==> x == 0.0
  {
    DoubleNear(x);
  }

  /** The double nearest to anything closer to a double than half its last bit is
      that double. */
  lemma {:induction false} NearestIs(x: real, y: real)
    requires IsDouble(x) && Abs(y - x) * 2.0 * TWO53 < Abs(x)
    ensures AsDouble(y) == x
    decreases x < 0.0, Steps(x)
  {
    hide AsDouble, Steps, HalfEven;
    Fewer(x);
    if x < 0.0 {
      Negated(x);
      Negated(y);
      NearestIs(-x, -y);
    } else if x >= TWO53 {
      Doubled(x / 2.0);
      Doubled(y / 2.0);
      NearestIs(x / 2.0, y / 2.0);
    } else if x < TWO52 {
      Doubled(x);
      Doubled(y);
      NearestIs(2.0 * x, 2.0 * y);
    } else {
      MidRange(x);
      if y < TWO52 {
        Doubled(y);
        MidRange(2.0 * y);
        HalfEvenIs(2.0 * y, 0x20_0000_0000_0000);
      } else {
        MidRange(y);
        HalfEvenIs(y, HalfEven(x));
      }
    }
  }

  lemma MidRange(x: real)
    requires TWO52 <= x < TWO53
    ensures AsDouble(x) == HalfEven(x) as real
  {
  }

  lemma HalfEvenIs(y: real, k: int)
    requires -0.5 < y - k as real < 0.5
    ensures HalfEven(y) == k
  {
  }

  /** No double is nearer. */
  lemma {:induction false} NoneNearer(x: real, d: real)
    requires IsDouble(d)
    ensures Abs(AsDouble(x) - x) <= Abs(d - x)
    decreases x < 0.0, Steps(x)
  {
    hide AsDouble, Steps, HalfEven;
    Fewer(x);
    if x < 0.0 {
      Negated(x);
      Negated(d);
      NoneNearer(-x, -d);
    } else if x >= TWO53 {
      Doubled(x / 2.0);
      Doubled(d / 2.0);
      NoneNearer(x / 2.0, d / 2.0);
    } else if 0.0 < x < TWO52 {
      Doubled(x);
      Doubled(d);
      NoneNearer(2.0 * x, 2.0 * d);
    } else if x > 0.0 {
      MidRange(x);
      HalfEvenNear(x);
      if TWO52 <= d < TWO53 {
        MidRange(d);
      }
      Between(x, d);
    } else {
      SignKept(x);
    }
  }

  /** No integer is nearer to a number than its half-even rounding. */
  lemma Between(x: real, d: real)
    requires TWO52 <= x < TWO53 && (TWO52 <= d < TWO53 ==> IsInteger(d))
    ensures Abs(HalfEven(x) as real - x) <= Abs(d - x)
  {
    var i: int := if d < TWO52 then 0x10_0000_0000_0000 else if d >= TWO53 then 0x20_0000_0000_0000 else d.Floor;
    assert Abs(i as real - x) <= Abs(d - x);
    assert i <= x.Floor || i >= x.Floor + 1;
  }

  /** Halfway between two integers the even one is taken. */
  lemma TiesToEven(k: int)
    ensures HalfEven(k as real + 0.5) == if k % 2 == 0 then k else k + 1
  {
    assert (k as real + 0.5).Floor == k;
  }

  /** And so, of two equally near doubles, the one with an even last bit: between
      2^52 and 2^53 doubles are the integers. */
  lemma DoubleTies(k: int)
    requires 0x10_0000_0000_0000 <= k < 0x20_0000_0000_0000
    ensures AsDouble(k as real + 0.5) == (if k % 2 == 0 then k else k + 1) as real
  {
    TiesToEven(k);
    MidRange(k as real + 0.5);
  }

  // ---- decimals ----

  function Pow10(n: nat): (p: int)
    ensures p >= 1
  {
    if n == 0 then 1 else 10 * Pow10(n - 1)
  }

  function Shift10(v: real, decimals: nat): real {
    v * Pow10(decimals) as real
  }

  /** round_decimals: "%.*f" and back. */
  function RoundDecimals(v: real, decimals: nat): real {
    if decimals == 0 || v <= -TWO53 || v >= TWO53 then v
    else Quotient(HalfEven(Shift10(v, decimals)) as real, Pow10(decimals) as real)
  }

  /** Rounding leaves alone what already has no more decimals than asked for. */
  lemma RoundDecimalsExact(v: real, decimals: nat)
    requires IsDouble(v) && (decimals == 0 || IsInteger(Shift10(v, decimals)))
    ensures RoundDecimals(v, decimals) == v
  {
    hide AsDouble;
    if decimals > 0 {
      HalfEvenInteger(Shift10(v, decimals));
      DivMul(v, Pow10(decimals) as real);
      assert HalfEven(Shift10(v, decimals)) as real / Pow10(decimals) as real == v;
    }
  }

  lemma HalfEvenInteger(x: real)
    requires IsInteger(x)
    ensures HalfEven(x) as real == x
  {
  }

  lemma DivMul(v: real, p: real)
    requires p != 0.0
    ensures v * p / p == v
  {
  }

  lemma DecimalsDouble(v: real, decimals: nat)
    requires IsDouble(v)
    ensures IsDouble(RoundDecimals(v, decimals))
  {
    hide HalfEven;
    RoundedIsDouble(HalfEven(Shift10(v, decimals)) as real / Pow10(decimals) as real);
  }
}
