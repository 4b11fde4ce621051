/** The arithmetic of one INT field: what fits, and what survives scaling. */
module CodecNumbers {
  import opened Bytes
  import opened Doubles
  import opened Json
  import opened CodecTree
  import opened CodecDecode
  import opened CodecEncode

  /** What the width and signedness of a field can hold. */
  predicate InRange(n: Node, k: int) {
    if n.signd then -(Pow256(n.len) / 2) <= k < Pow256(n.len) / 2 else 0 <= k < Pow256(n.len)
  }

  /** The stored number of an INT field. */
  function IntRaw(n: Node, s: bytes): int {
    if n.signd then ReadInt(s, true) else FromLE(s)
  }

  /** What the sink shows of it. */
  function IntShown(n: Node, raw: int): real {
    Unscaled(n, AsDouble(raw as real))
  }

  /** What would be stored for the number shown. */
  function IntBack(n: Node, raw: int): int {
    RoundAway(Scaled(n, VDbl(IntShown(n, raw))))
  }

  const TWO49: real := 562949953421312.0

  /** Small enough, and shown with enough decimals, for the rounding errors of a
      division, a print and a multiplication to stay below one half. */
  predicate Modest(n: Node, raw: int) {
    var a, s, p := Abs(raw as real), Abs(n.scale), Pow10(n.decimals) as real;
    && a <= 2.0 * TWO49
    && (raw == 0 || n.decimals == 0 || s == p || a * p <= TWO49 * (p - s))
  }

  /** The stored number survives being shown: without a scale, when it is a
      double; with one, surely when it is modest. */
  predicate Survives(n: Node, raw: int) {
    if n.scale == 1.0 then IsDouble(raw as real) else Modest(n, raw) || IntBack(n, raw) == raw
  }

  /** An INT field is accepted exactly when the rounded number fits it: the
      64-bit casts of the range check never let a wrapped number through. */
  lemma IntAccepted(n: Node, k: int)
    requires 1 <= n.len <= 8
    ensures StoreInt(n, k).Ok? <==> InRange(n, k)
    ensures StoreInt(n, k).Ok? ==> StoreInt(n, k).value == LE(k, n.len)
  {
    Pow256Eight();
    Pow256Even(n.len);
    if n.len < 8 {
      Pow256Small(n.len);
    }
    if -TWO63 <= k < TWO64 {
      CastBack(k);
    }
  }

  lemma CastBack(k: int)
    requires -TWO63 <= k < TWO64
    ensures AsI64(k % TWO64) == if k >= TWO63 then k - TWO64 else k
  {
    DivModUnique(k, TWO64, if k < 0 then -1 else 0, if k < 0 then k + TWO64 else k);
  }

  lemma IntRawInRange(n: Node, s: bytes)
    requires 1 <= |s| == n.len <= 8
    ensures InRange(n, IntRaw(n, s))
    ensures LE(IntRaw(n, s), n.len) == s
  {
    FromLEBound(s);
    LEofReadInt(s, n.signd);
    LEofFromLE(s);
    Pow256Eight();
    Pow256Even(n.len);
  }

  /** Reading back a number that was in range gives the number. */
  lemma IntRawOfLE(n: Node, k: int)
    requires 1 <= n.len <= 8 && InRange(n, k)
    ensures IntRaw(n, LE(k, n.len)) == k
  {
    var p := Pow256(n.len);
    FromLEofLE(k, n.len);
    Pow256Eight();
    Pow256Even(n.len);
    DivModUnique(k, p, if k < 0 then -1 else 0, if k < 0 then k + p else k);
  }

  lemma RoundAwayNear(y: real, k: int)
    requires -0.5 < y - k as real < 0.5
    ensures RoundAway(y) == k
  {
    if y >= 0.0 {
      FloorUnique(y + 0.5, k);
    } else {
      FloorUnique(-y + 0.5, -k);
    }
  }

  lemma FloorUnique(y: real, k: int)
    requires k as real <= y < k as real + 1.0
    ensures y.Floor == k
  {
  }

  lemma MulNeg(z: real, p: real)
    ensures z * -p == -(z * p) && -p * z == -(z * p)
  {
  }

  lemma AbsTimes(a: real, b: real)
    ensures Abs(a * b) == Abs(a) * Abs(b)
  {
    var p, q := Abs(a), Abs(b);
    assert p * q >= 0.0;
    assert a * b == p * q || a * b == -(p * q) by {
      MulNeg(p, q);
      MulNeg(q, p);
      MulNeg(-p, q);
    }
  }

  lemma OverTimes(a: real, b: real)
    requires b != 0.0
    ensures a / b * b == a
  {
  }

  /** Rounding `q` to a double and multiplying by `s` is off by no more than the
      rounding error of the product. */
  lemma RoundedTimes(q: real, s: real, x: real, qs: real, xs: real)
    requires x == AsDouble(q) && qs == q * s && xs == x * s
    ensures Abs(xs - qs) * TWO53 <= Abs(qs)
  {
    hide AsDouble, Abs;
    DoubleNear(q);
    var e := x - q;
    var es := e * s;
    assert xs - qs == es;
    AbsTimes(e, s);
    AbsTimes(q, s);
    assert Abs(s) >= 0.0 by { NotNegative(s); }
    Stretched(Abs(e), Abs(q), Abs(s));
  }

  lemma NotNegative(x: real)
    ensures Abs(x) >= 0.0
  {
  }

  lemma Stretched(a: real, b: real, c: real)
    requires a * TWO53 <= b && c >= 0.0
    ensures (a * c) * TWO53 <= b * c
  {
    assert (b - a * TWO53) * c >= 0.0;
  }

  lemma ProductIs(a: real, b: real, p: real)
    requires p == a * b
    ensures Product(a, b) == AsDouble(p)
  {
    hide AsDouble;
  }

  /** Rounded, multiplied and rounded again, `q` times `s` near `k` is `k`. */
  lemma TwoRoundings(q: real, s: real, t: real, k: int, x: real)
    requires x == AsDouble(q) && t == q * s && Abs(k as real) <= 2.0 * TWO49
    requires Abs(t - k as real) * TWO53 <= 0.5 * TWO53 - 2.0 * Abs(k as real) - 2.0
    ensures RoundAway(Product(x, s)) == k
  {
    hide AsDouble, RoundAway, Product;
    var w, y := x * s, Product(x, s);
    RoundedTimes(q, s, x, t, w);
    ProductIs(x, s, w);
    DoubleNear(w);
    Closer(Abs(k as real), k as real, t, w, y);
    RoundAwayNear(y, k);
  }

  lemma Closer(a: real, k: real, t: real, w: real, y: real)
    requires a == Abs(k) <= 2.0 * TWO49 && Abs(t - k) * TWO53 <= 0.5 * TWO53 - 2.0 * a - 2.0
    requires Abs(w - t) * TWO53 <= Abs(t) && Abs(y - w) * TWO53 <= Abs(w)
    ensures -0.5 < y - k < 0.5
  {
    assert Abs(t) <= a + 0.5;
    assert Abs(w) <= a + 1.0;
  }

  /** Dividing and multiplying again. */
  lemma Divided(k: int, s: Scale)
    requires Abs(k as real) <= 2.0 * TWO49
    ensures RoundAway(Product(Quotient(k as real, s), s)) == k
  {
    hide AsDouble, RoundAway, Product;
    OverTimes(k as real, s);
    TwoRoundings(k as real / s, s, k as real, k, Quotient(k as real, s));
  }

  /** The half unit lost in print, `g`, times the scale, leaves room. */
  lemma PrintError(g: real, gs: real, s: real, p: real, a: real)
    requires gs == g * s && p > 0.0 && Abs(g * p) <= 0.5 && a * p <= TWO49 * (p - Abs(s))
    ensures Abs(gs) * 2.0 * TWO49 + a <= TWO49
  {
    hide Abs;
    var u, v := Abs(g), Abs(s);
    AbsTimes(g, p);
    AbsTimes(g, s);
    Positive(p);
    NotNegative(s);
    Stretched2(u * p, v);
    assert Abs(gs) * p == (u * p) * v;
    var room := TWO49 - (Abs(gs) * 2.0 * TWO49 + a);
    assert room * p == TWO49 * p - (Abs(gs) * p) * 2.0 * TWO49 - a * p;
    NotBelow(room, p);
  }

  lemma Positive(p: real)
    requires p > 0.0
    ensures Abs(p) == p
  {
  }

  lemma Stretched2(a: real, c: real)
    requires a <= 0.5 && c >= 0.0
    ensures a * c <= 0.5 * c
  {
    assert (0.5 - a) * c >= 0.0;
  }

  lemma NotBelow(a: real, p: real)
    requires p > 0.0 && a * p >= 0.0
    ensures a >= 0.0
  {
  }

  /** Printed to `p` and scaled back. */
  lemma PrintedBack(k: int, s: Scale, p: real, x: real, xp: real, h: int, y: real)
    requires k != 0 && p > 0.0 && Abs(k as real) <= 2.0 * TWO49 && xp == x * p
    requires x == Quotient(k as real, s) && h == HalfEven(xp) && y == Quotient(h as real, p)
    requires Abs(k as real) * p <= TWO49 * (p - Abs(s))
    ensures RoundAway(Product(y, s)) == k
  {
    hide AsDouble, RoundAway, Product, HalfEven;
    var a, q := Abs(k as real), h as real / p;
    var xs, t := x * s, q * s;
    OverTimes(k as real, s);
    RoundedTimes(k as real / s, s, x, k as real, xs);
    HalfEvenNear(xp);
    OverTimes(h as real, p);
    var g := q - x;
    var gs := g * s;
    assert g * p == h as real - xp;
    assert t == gs + xs;
    PrintError(g, gs, s, p, a);
    TwoRoundings(q, s, t, k, y);
  }

  /** As many decimals as the scale has: printing does not change the number. */
  lemma PrintedExactly(k: int, s: real, p: real, x: real, xp: real)
    requires s != 0.0 && p == Abs(s) && Abs(k as real) <= 2.0 * TWO49 && x == Quotient(k as real, s) && xp == x * p
    ensures p > 0.0 && Quotient(HalfEven(xp) as real, p) == x
  {
    hide AsDouble, HalfEven;
    var xs := x * s;
    OverTimes(k as real, s);
    RoundedTimes(k as real / s, s, x, k as real, xs);
    assert -0.5 < xs - k as real < 0.5;
    if s > 0.0 {
      SameFactor(x, p, s);
      HalfEvenIs(xp, k);
    } else {
      MulNeg(x, s);
      SameFactor(x, p, -s);
      HalfEvenIs(xp, -k);
      BothNegated(k as real, s);
    }
  }

  lemma SameFactor(a: real, b: real, c: real)
    requires b == c
    ensures a * b == a * c
  {
  }

  lemma BothNegated(a: real, b: real)
    requires b != 0.0
    ensures -a / -b == a / b
  {
    OverTimes(-a, -b);
    OverTimes(a, b);
    assert (-a / -b - a / b) * b == 0.0;
  }

  lemma ZeroBack(n: Node)
    ensures IntBack(n, 0) == 0
  {
    assert 0.0 / n.scale == 0.0;
    assert 0.0 / Pow10(n.decimals) as real == 0.0;
    assert 0.0 * n.scale == 0.0;
  }

  lemma ShownIs(n: Node, k: int)
    requires Abs(k as real) <= 2.0 * TWO49
    ensures IntShown(n, k) == RoundDecimals(Quotient(k as real, n.scale), n.decimals)
  {
    hide AsDouble;
    WholeExact(k);
  }

  lemma ModestBack(n: Node, k: int)
    requires Modest(n, k)
    ensures IntBack(n, k) == k
  {
    hide AsDouble, RoundAway, Product, Quotient, HalfEven, IntShown;
    var s, p, x := n.scale, Pow10(n.decimals) as real, Quotient(k as real, n.scale);
    var xp := Shift10(x, n.decimals);
    ShownIs(n, k);
    if k == 0 {
      ZeroBack(n);
    } else if n.decimals == 0 || x <= -TWO53 || x >= TWO53 {
      Divided(k, s);
    } else if Abs(s) == p {
      PrintedExactly(k, s, p, x, xp);
      Divided(k, s);
    } else {
      PrintedBack(k, s, p, x, xp, HalfEven(xp), IntShown(n, k));
    }
  }

  /** Without a scale nothing but the conversion to a double happens. */
  lemma PlainBack(n: Node, k: int)
    requires n.scale == 1.0
    ensures IntShown(n, k) == AsDouble(k as real)
    ensures IntBack(n, k) as real == AsDouble(k as real)
  {
    hide AsDouble;
    var x := AsDouble(k as real);
    RoundedIsDouble(k as real);
    WholeStays(k);
    assert x / 1.0 == x && x * 1.0 == x;
    WholeShifted(x.Floor, n.decimals);
    RoundDecimalsExact(x, n.decimals);
    RoundAwayNear(x, x.Floor);
  }

  lemma WholeShifted(i: int, d: nat)
    ensures IsInteger(Shift10(i as real, d))
  {
    assert Shift10(i as real, d) == (i * Pow10(d)) as real;
  }

  /** Shown, scaled back and rounded, the stored number is recovered exactly when
      it survives. */
  lemma IntSurvives(n: Node, k: int)
    ensures IntBack(n, k) == k <==> Survives(n, k)
  {
    hide AsDouble, IntBack;
    if n.scale == 1.0 {
      PlainBack(n, k);
    } else if Modest(n, k) {
      ModestBack(n, k);
    }
  }

  // ---- what is lost ----

  lemma {:induction false} Pow10Mono(a: nat, b: nat)
    requires a < b
    ensures 10 * Pow10(a) <= Pow10(b)
    decreases b
  {
    if a + 1 < b {
      Pow10Mono(a, b - 1);
    }
  }

  /** Below the needed decimals the number 1 already prints as zero. */
  lemma OneIsLost(n: Node, k: nat)
    requires n.scale == Pow10(k) as real && 0 < n.decimals < k
    ensures IntBack(n, 1) == 0
  {
    hide AsDouble, Pow10;
    ShownIs(n, 1);
    Pow10Mono(n.decimals, k);
    TinyPrinted(n.scale, n.decimals);
    ZeroPrinted(n.decimals);
    WholeExact(0);
    assert 0.0 * n.scale == 0.0;
  }

  lemma TinyPrinted(s: Scale, d: nat)
    requires s >= 10.0 * Pow10(d) as real
    ensures var x := Quotient(1.0, s); 0.0 < x < 2.0 && HalfEven(Shift10(x, d)) == 0
  {
    hide AsDouble, Pow10;
    var q, p := 1.0 / s, Pow10(d) as real;
    var x := Quotient(1.0, s);
    OverTimes(1.0, s);
    TenthOf(q, s, p);
    DoubleNear(q);
    SignKept(q);
    StillSmall(q, x, p, Shift10(x, d));
  }

  lemma ZeroPrinted(d: nat)
    ensures Quotient(0.0, Pow10(d) as real) == 0.0
  {
    assert 0.0 / Pow10(d) as real == 0.0;
  }

  lemma TenthOf(q: real, s: real, p: real)
    requires q * s == 1.0 && s >= 10.0 * p && p >= 1.0
    ensures 0.0 < q * p <= 0.1 && 0.0 < q < 1.0
  {
    NotBelow(1.0, s);
    Inverse(q, s);
    assert (s - 10.0 * p) * q >= 0.0;
    assert q * p > 0.0;
  }

  lemma Inverse(q: real, s: real)
    requires q * s == 1.0 && s >= 10.0
    ensures 0.0 < q <= 0.1
  {
    NotAbove(q, s);
    assert (0.1 - q) * s == 0.1 * s - 1.0;
    NotBelow(0.1 - q, s);
  }

  lemma NotAbove(a: real, p: real)
    requires p > 0.0 && a * p > 0.0
    ensures a > 0.0
  {
  }

  lemma StillSmall(q: real, x: real, p: real, xp: real)
    requires 0.0 < q < 1.0 && 0.0 < q * p <= 0.1 && p >= 1.0 && xp == x * p
    requires x > 0.0 && Abs(x - q) * TWO53 <= Abs(q)
    ensures 0.0 < xp < 0.5 && x < 2.0
  {
    assert x <= 2.0 * q;
    AtMostTwice(q, x, p, q * p, xp);
    Above(x, p);
  }

  lemma AtMostTwice(q: real, x: real, p: real, qp: real, xp: real)
    requires x <= 2.0 * q && p >= 0.0 && qp == q * p && xp == x * p
    ensures xp <= 2.0 * qp
  {
    NonNegative(2.0 * q - x, p);
  }

  lemma Above(a: real, b: real)
    requires a > 0.0 && b > 0.0
    ensures a * b > 0.0
  {
  }

  lemma NonNegative(a: real, b: real)
    requires a >= 0.0 && b >= 0.0
    ensures a * b >= 0.0
  {
  }

  /** 2^53 and the next integer are the same double. */
  lemma TwoAlike()
    ensures AsDouble(0x20_0000_0000_0001 as real) == AsDouble(0x20_0000_0000_0000 as real)
  {
    MidRange(4503599627370496.5);
    MidRange(4503599627370496.0);
    Doubled(4503599627370496.5);
    Doubled(4503599627370496.0);
  }

  /** From seven bytes on one of these two is always lost, whatever the scale. */
  lemma OneOfTwoLost(n: Node) returns (raw: int)
    requires 7 <= n.len <= 8
    ensures InRange(n, raw) && IntBack(n, raw) != raw
  {
    hide AsDouble, RoundAway;
    Pow256Eight();
    Pow256Even(n.len);
    assert Pow256(7) == 0x100_0000_0000_0000;
    TwoAlike();
    raw := if IntBack(n, 0x20_0000_0000_0000) == 0x20_0000_0000_0000 then 0x20_0000_0000_0001 else 0x20_0000_0000_0000;
  }

  /** With a power-of-ten scale every stored number survives exactly when the
      field has at most six bytes and prints no decimals at all or at least as
      many as the scale has. */
  lemma PowerScaleExact(n: Node, k: nat)
    requires n.scale == Pow10(k) as real && n.len <= 8
    ensures (forall raw {:trigger IntBack(n, raw)} :: InRange(n, raw) && n.len >= 1 ==> IntBack(n, raw) == raw)
            <==> (n.len == 0 || (n.len <= 6 && (n.decimals == 0 || k <= n.decimals)))
  {
    hide IntBack, Modest, Pow10;
    if n.len > 6 {
      var raw := OneOfTwoLost(n);
    } else if n.decimals == 0 || k <= n.decimals {
      forall raw {:trigger IntBack(n, raw)} | InRange(n, raw) && n.len >= 1 ensures IntBack(n, raw) == raw {
        PowerModest(n, k, raw);
        ModestBack(n, raw);
      }
    } else if n.len > 0 {
      Pow256Even(n.len);
      assert InRange(n, 1);
      OneIsLost(n, k);
    }
  }

  lemma PowerModest(n: Node, k: nat, raw: int)
    requires n.scale == Pow10(k) as real && 1 <= n.len <= 6 && InRange(n, raw)
    requires n.decimals == 0 || k <= n.decimals
    ensures Modest(n, raw)
  {
    hide Pow10, Pow256;
    Pow256Mono(n.len, 6);
    SixBytes();
    var a := Abs(raw as real);
    assert a <= 0.5 * TWO49;
    if k < n.decimals {
      Pow10Mono(k, n.decimals);
      SmallTimes(a, n.scale, Pow10(n.decimals) as real);
    }
  }

  lemma SixBytes()
    ensures Pow256(6) == 0x1_0000_0000_0000
  {
  }

  lemma SmallTimes(a: real, s: real, p: real)
    requires 0.0 <= a <= 0.5 * TWO49 && 0.0 < 10.0 * s <= p
    ensures a * p <= TWO49 * (p - s)
  {
    NonNegative(0.5 * TWO49 - a, p);
    assert (0.5 * TWO49 - a) * p == 0.5 * TWO49 * p - a * p;
  }

  /** The unsigned 64-bit counter with all bits set is shown as 2^64, which no
      field can hold. */
  lemma TopCounter(n: Node)
    requires n.scale == 1.0
    ensures IntBack(n, TWO64 - 1) == TWO64
  {
    hide AsDouble, IntBack;
    var x := TWO64 as real;
    var y := (TWO64 - 1) as real;
    TwoTo64();
    NearestIs(x, y);
    PlainBack(n, TWO64 - 1);
  }

  /** Below 2^53 a scaled number can still be lost: this one comes back as the next. */
  lemma OneMore(n: Node)
    requires n.scale == 10.0 && n.decimals == 1
    ensures IntBack(n, 9007199254740987) == 9007199254740988
  {
    hide AsDouble;
    WholeExact(9007199254740987);
    var x := 900719925474098.75;
    Eighth(900719925474098.7, 7205759403792790);
    assert 9007199254740987.0 / 10.0 == 900719925474098.7;
    assert Pow10(1) == 10 && Shift10(x, 1) == 9007199254740987.5;
    Eighth(900719925474098.8, 7205759403792790);
    assert 9007199254740988.0 / 10.0 == 900719925474098.8;
    assert IntShown(n, 9007199254740987) == x;
    MidRange(9007199254740987.5);
    assert x * 10.0 == 9007199254740987.5;
  }

  lemma Eighth(q: real, k: int)
    requires TWO52 <= 8.0 * q < TWO53 && HalfEven(8.0 * q) == k
    ensures AsDouble(q) == k as real / 8.0
  {
    hide AsDouble, HalfEven;
    Doubled(q);
    Doubled(2.0 * q);
    Doubled(4.0 * q);
    MidRange(8.0 * q);
    assert 2.0 * (2.0 * (2.0 * q)) == 8.0 * q && 2.0 * (2.0 * q) == 4.0 * q && 2.0 * (4.0 * q) == 8.0 * q;
  }

  lemma TwoTo64()
    ensures IsDouble(TWO64 as real)
  {
    hide AsDouble;
    WholeExact(0x20_0000_0000_0000);
    FourTimes(TWO53);
    FourTimes(4.0 * TWO53);
    FourTimes(16.0 * TWO53);
    FourTimes(64.0 * TWO53);
    FourTimes(256.0 * TWO53);
    Doubled(1024.0 * TWO53);
    assert TWO64 as real == 2.0 * (1024.0 * TWO53);
  }

  lemma FourTimes(x: real)
    requires IsDouble(x)
    ensures IsDouble(4.0 * x)
  {
    hide AsDouble;
    Doubled(x);
    Doubled(2.0 * x);
    assert 2.0 * (2.0 * x) == 4.0 * x;
  }
}
