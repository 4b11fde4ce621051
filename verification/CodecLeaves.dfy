/** What each leaf of the codec tree makes of every value and every payload, also
    where a value is one that decoding never shows. */
module CodecLeaves {
  import opened Bytes
  import opened Text
  import opened Wrappers
  import opened Doubles
  import opened Json
  import opened CodecTree
  import opened CodecDecode
  import opened CodecEncode
  import opened CodecNumbers
  import opened CodecCanon

  // ---- numbers shown ----

  /** `y` is `x` over the scale, off by no more than half a unit of the last
      decimal and the rounding errors of the quotient and of the print. */
  predicate ShownFor(n: Node, x: real, y: real) {
    var q := x / n.scale;
    if n.decimals == 0 then Abs(y - q) * 9007199254740992.0 <= Abs(q)
    else (Abs(y - q) - 0.5 / Pow10(n.decimals) as real) * 9007199254740992.0 <= 3.0 * Abs(q) + 1.0
  }

  lemma UnscaledNear(n: Node, x: real)
    ensures ShownFor(n, x, Unscaled(n, x))
  {
    hide AsDouble, HalfEven, Pow10;
    var q, a := x / n.scale, Quotient(x, n.scale);
    DoubleNear(q);
    if !(n.decimals == 0 || a <= -TWO53 || a >= TWO53) {
      var p := Pow10(n.decimals) as real;
      var ap := Shift10(a, n.decimals);
      HalfEvenNear(ap);
      Tenth(a, p, ap, HalfEven(ap) as real, HalfEven(ap) as real / p);
      DoubleNear(HalfEven(ap) as real / p);
      PrintedNear(q, a, HalfEven(ap) as real / p, Unscaled(n, x), 0.5 / p);
    }
    if n.decimals > 0 {
      HalfPositive(Pow10(n.decimals) as real);
    }
  }

  lemma HalfPositive(p: real)
    requires p >= 1.0
    ensures 0.0 < 0.5 / p <= 0.5
  {
    OverTimes(0.5, p);
    NotAbove(0.5 / p, p);
    NotBelow(0.5 - 0.5 / p, p);
  }

  lemma Tenth(a: real, p: real, ap: real, h: real, z: real)
    requires p >= 1.0 && ap == a * p && -0.5 <= h - ap <= 0.5 && z == h / p
    ensures Abs(z - a) <= 0.5 / p
  {
    var u := 0.5 / p;
    OverTimes(0.5, p);
    OverTimes(h, p);
    assert (u - (z - a)) * p == u * p - z * p + a * p;
    NotBelow(u - (z - a), p);
    assert (u + (z - a)) * p == u * p + z * p - a * p;
    NotBelow(u + (z - a), p);
  }

  lemma PrintedNear(q: real, a: real, z: real, y: real, u: real)
    requires 0.0 <= u <= 0.5 && Abs(a - q) * TWO53 <= Abs(q) && Abs(z - a) <= u && Abs(y - z) * TWO53 <= Abs(z)
    ensures (Abs(y - q) - u) * TWO53 <= 3.0 * Abs(q) + 1.0
  {
  }

  /** A FLOAT32 shows the number its four bytes hold over the scale. */
  lemma FloatShown(env: Env, n: Node, d: bytes, x: real)
    requires n.kind == Float32 && x == env.float32(FromLE(Take(d, 4)))
    ensures var v := Decode(env, n, d); v.VDbl? && IsDouble(v.r) && ShownFor(n, x, v.r)
  {
    UnscaledNear(n, x);
    UnscaledDouble(n, x);
  }

  lemma UnscaledDouble(n: Node, x: real)
    ensures IsDouble(Unscaled(n, x))
  {
    hide IsDouble, AsDouble;
    RoundedIsDouble(x / n.scale);
    DecimalsDouble(Quotient(x, n.scale), n.decimals);
  }

  /** A COSPHI shows its second byte over the scale, negated exactly when the first
      is 4. */
  lemma CosPhiShown(env: Env, n: Node, d: bytes, x: real)
    requires n.kind == CosPhi
    requires x == (if |d| < 2 then 0.0 else if d[0] == 4 then -(d[1] as real) else d[1] as real)
    ensures var v := Decode(env, n, d); v.VDbl? && ShownFor(n, x, v.r)
  {
    UnscaledNear(n, x);
  }

  /** An INT shows the stored number, as a double, over the scale. */
  lemma IntShownFor(env: Env, n: Node, d: bytes)
    requires n.kind == Int
    ensures var v := Decode(env, n, d);
      v.VDbl? && ShownFor(n, AsDouble((if n.signd then ReadInt(Take(d, n.len), true) else FromLE(Take(d, n.len))) as real), v.r)
  {
    UnscaledNear(n, AsDouble((if n.signd then ReadInt(Take(d, n.len), true) else FromLE(Take(d, n.len))) as real));
  }

  // ---- C conversions ----

  /** `k` is `x` without its fraction. */
  predicate Whole(x: real, k: int) {
    if x >= 0.0 then k as real <= x < k as real + 1.0 else k as real - 1.0 < x <= k as real
  }

  lemma TruncIs(x: real, k: int)
    requires Whole(x, k)
    ensures Trunc(x) == k
  {
    if x < 0.0 {
      FloorUnique(-x, -k);
    }
  }

  /** `k` is the integer nearest to `y`, of two the one further from zero. */
  predicate Nearest(y: real, k: int) {
    if y >= 0.0 then k as real - 0.5 <= y < k as real + 0.5 else k as real - 0.5 < y <= k as real + 0.5
  }

  lemma RoundAwayIs(y: real, k: int)
    requires Nearest(y, k)
    ensures RoundAway(y) == k
  {
    if y >= 0.0 {
      FloorUnique(y + 0.5, k);
    } else {
      FloorUnique(-y + 0.5, -k);
    }
  }

  // ---- INT, BYTEVAL, FLOAT32 ----

  /** Any number: multiplied by the scale in double arithmetic and rounded half away
      from zero, it is stored if the field can hold it and else refused. */
  lemma IntTakes(env: Env, n: Node, v: Value, product: real, k: int, t: bytes)
    requires Sized(n) && n.kind == Int && IsNumber(v)
    requires product == AsReal(v) * n.scale && Nearest(AsDouble(product), k)
    ensures var r := Encode(env, n, v);
      if InRange(n, k) then r.Ok? && Decode(env, n, r.value + t) == VDbl(IntShown(n, k)) else r == Err(OutOfRange)
  {
    hide AsDouble, RoundAway, LE, FromLE, ReadInt, InRange, IntShown;
    ScaledIs(n, v, product);
    RoundAwayIs(Scaled(n, v), k);
    IntAccepted(n, k);
    if InRange(n, k) {
      IntRawOfLE(n, k);
      ShownAgain(n, LE(k, n.len), t);
    } else {
      OnlyOutOfRange(n, k);
    }
  }

  lemma ScaledIs(n: Node, v: Value, product: real)
    requires IsNumber(v) && product == AsReal(v) * n.scale
    ensures Scaled(n, v) == AsDouble(product)
  {
    hide AsDouble;
    var x := AsReal(v);
    ProductIs(x, n.scale, product);
  }

  lemma ShownAgain(n: Node, s: bytes, t: bytes)
    requires |s| == n.len
    ensures IntValue(n, s + t) == IntShown(n, IntRaw(n, s))
  {
    TakeExact(s, t);
  }

  lemma OnlyOutOfRange(n: Node, k: int)
    requires 1 <= n.len <= 8 && StoreInt(n, k).Err?
    ensures StoreInt(n, k) == Err(OutOfRange)
  {
  }

  /** A number that is not negative is stored without its fraction. */
  lemma ByteValTakes(env: Env, n: Node, v: Value, k: int, t: bytes)
    requires Sized(n) && n.kind == ByteVal && IsNumber(v) && Whole(AsReal(v), k)
    ensures AsReal(v) < 0.0 ==> Encode(env, n, v) == Err(Negative)
    ensures AsReal(v) >= 0.0 && k < Pow256(n.len) && k < TWO63 ==>
      var r := Encode(env, n, v); r.Ok? && Decode(env, n, r.value + t) == VInt(k)
  {
    hide Trunc, LE, AsReal;
    TruncIs(AsReal(v), k);
    if AsReal(v) >= 0.0 && k < Pow256(n.len) && k < TWO63 {
      FromLEofLE(k, n.len);
      DivModUnique(k, Pow256(n.len), 0, k);
      TakeExact(LE(k, n.len), t);
    }
  }

  /** The bits of the number go into four bytes, and what they hold is shown. */
  lemma FloatTakes(env: Env, n: Node, v: Value, t: bytes)
    requires Sized(n) && n.kind == Float32 && IsNumber(v) && env.floatBits(AsReal(v)) < 0x1_0000_0000
    ensures var r := Encode(env, n, v);
      && r.Ok? && |r.value| == 4 && FromLE(r.value) == env.floatBits(AsReal(v))
      && Decode(env, n, r.value + t).VDbl?
      && ShownFor(n, env.float32(env.floatBits(AsReal(v))), Decode(env, n, r.value + t).r)
  {
    var bits := env.floatBits(AsReal(v));
    var s := LE(bits, 4);
    FromLEofLE(bits, 4);
    Pow256Eight();
    TakeExact(s, t);
    assert Take(s + t, 4) == s;
    FloatShown(env, n, s + t, env.float32(bits));
  }

  /** What is shown over the scale is written without it: a number that its float
      holds comes back, printed with all its decimals, exactly if it is zero or
      the scale is 1. */
  lemma FloatBack(env: Env, n: Node, x: real, t: bytes)
    requires Sized(n) && n.kind == Float32 && n.decimals == 0 && IsDouble(n.scale) && IsDouble(x)
    requires env.floatBits(x) < 0x1_0000_0000 && env.float32(env.floatBits(x)) == x
    ensures var r := Encode(env, n, VDbl(x));
      r.Ok? && (Decode(env, n, r.value + t) == VDbl(x) <==> x == 0.0 || n.scale == 1.0)
  {
    hide AsDouble, Quotient;
    var bits := env.floatBits(x);
    var s := LE(bits, 4);
    FromLEofLE(bits, 4);
    Pow256Eight();
    TakeExact(s, t);
    QuotientMoves(x, n.scale);
    assert Unscaled(n, x) == Quotient(x, n.scale);
  }

  // ---- BOOL ----

  predicate SaysOn(v: Value) {
    || (v.VBool? && v.b)
    || (v.VStr? && |v.s| == 2 && v.s[0] in {'o', 'O'} && v.s[1] in {'n', 'N'})
    || (IsNumber(v) && AsReal(v) != 0.0)
  }

  /** true, a number other than zero and "on" in any case are 1 and shown as on,
      every other boolean, number and text is 0 and shown as off. */
  lemma BoolTakes(env: Env, n: Node, v: Value, t: bytes)
    requires Sized(n) && n.kind == Bool
    ensures var r := Encode(env, n, v);
      if v.VBool? || v.VStr? || IsNumber(v) then
        && r.Ok? && r.value[0] == (if SaysOn(v) then 1 else 0) && AllZero(r.value[1..])
        && Decode(env, n, r.value + t) == VStr(if SaysOn(v) then "on" else "off")
      else r == Err(WrongType)
  {
    hide AsDouble;
    if v.VStr? {
      OnInAnyCase(v.s);
    } else if v.VInt? {
      SignKept(v.i as real);
    }
    if v.VBool? || v.VStr? || IsNumber(v) {
      var s := Encode(env, n, v).value;
      assert (s + t)[0] == s[0];
      assert s[1..] == Zeros(n.len - 1);
    }
  }

  lemma OnInAnyCase(s: string)
    ensures SameNoCase(s, "on") <==> |s| == 2 && s[0] in {'o', 'O'} && s[1] in {'n', 'N'}
  {
    if |s| == 2 {
      assert Fold(s) == [Lower(s[0]), Lower(s[1])];
      assert Fold("on") == ['o', 'n'];
      assert Fold(s) == Fold("on") <==> Lower(s[0]) == 'o' && Lower(s[1]) == 'n';
    }
  }

  /** Any byte but zero is on. */
  lemma BoolShown(env: Env, n: Node, d: bytes)
    requires n.kind == Bool
    ensures Decode(env, n, d) == VStr(if |d| > 0 && d[0] > 0 then "on" else "off")
  {
  }

  // ---- ENUM ----

  lemma EnumIs(env: Env, n: Node, v: Value)
    requires Sized(n) && n.kind == Enum
    ensures Encode(env, n, v) == EncodeEnum(env, n, v)
  {
  }

  lemma OneMember(key: string, v: Value)
    ensures GetItem([Member(key, v)], key) == Some(v)
    ensures forall other :: other != key ==> GetItem([Member(key, v)], other) == None
  {
    assert [Member(key, v)][1..] == [];
  }

  /** A number without its fraction is stored in the field's bytes and shown as the
      ID of what they hold; as the ID of an object without a text it is stored the
      same way. */
  lemma EnumNumber(env: Env, n: Node, v: Value, k: int, t: bytes)
    requires Sized(n) && n.kind == Enum && IsNumber(v) && Whole(AsReal(v), k)
    ensures var r := Encode(env, n, v);
      && r.Ok? && FromLE(r.value) == k % Pow256(n.len)
      && var w := Decode(env, n, r.value + t);
         && w.VObj? && GetItem(w.ms, "ID") == Some(VInt(AsI64(FromLE(r.value))))
         && (0 <= k < Pow256(n.len) && k < TWO63 ==> GetItem(w.ms, "ID") == Some(VInt(k)))
    ensures Encode(env, n, VObj([Member("ID", v)])) == Encode(env, n, v)
  {
    hide Trunc, LE, AsReal, FromLE;
    TruncIs(AsReal(v), k);
    EnumIs(env, n, v);
    EnumIs(env, n, VObj([Member("ID", v)]));
    OneMember("ID", v);
    FromLEofLE(k, n.len);
    TakeExact(LE(k, n.len), t);
    PairLookup(EnumPair(env, n.list, AsI64(FromLE(LE(k, n.len)))));
    if 0 <= k < Pow256(n.len) {
      DivModUnique(k, Pow256(n.len), 0, k);
    }
  }

  /** In particular every whole number that fits and is a double. */
  lemma EnumWhole(env: Env, n: Node, i: int, t: bytes)
    requires Sized(n) && n.kind == Enum && 0 <= i < Pow256(n.len) && i < TWO63 && IsDouble(i as real)
    ensures var r := Encode(env, n, VInt(i));
      && r.Ok? && Decode(env, n, r.value + t).VObj?
      && GetItem(Decode(env, n, r.value + t).ms, "ID") == Some(VInt(i))
      && Encode(env, n, VDbl(i as real)) == r && Encode(env, n, VObj([Member("ID", VInt(i))])) == r
  {
    hide Encode, Decode, AsDouble;
    EnumNumber(env, n, VInt(i), i, t);
    EnumIs(env, n, VInt(i));
    EnumIs(env, n, VDbl(i as real));
  }

  /** The only entry of the field's list with this text, whatever its case. */
  predicate Listed(env: Env, n: Node, text: string, j: nat) {
    n.list in env.enums &&
    var es := env.enums[n.list];
    && j < |es| && SameNoCase(es[j].text, text)
    && forall i | 0 <= i < |es| && i != j :: !SameNoCase(es[i].text, text)
  }

  /** A listed text, bare or in an object with whatever ID, is stored as its value
      is. */
  lemma EnumTextTakes(env: Env, n: Node, text: string, j: nat, ms: seq<Member>)
    requires Sized(n) && n.kind == Enum && Listed(env, n, text, j)
    requires GetItem(ms, "Text") == Some(VStr(text))
    requires -0x8000_0000 <= env.enums[n.list][j].value < 0x8000_0000
    ensures var r := Encode(env, n, VInt(env.enums[n.list][j].value));
      r.Ok? && Encode(env, n, VStr(text)) == r && Encode(env, n, VObj(ms)) == r
  {
    hide LE, AsDouble;
    var es := env.enums[n.list];
    EnumValueFound(es, text, j);
    EnumIs(env, n, VStr(text));
    EnumIs(env, n, VObj(ms));
    EnumIs(env, n, VInt(es[j].value));
    WholeNear(es[j].value, Trunc(AsReal(VInt(es[j].value))));
  }

  predicate Unlisted(env: Env, n: Node, text: string) {
    n.list in env.enums ==> forall e | e in env.enums[n.list] :: !SameNoCase(e.text, text)
  }

  /** A text that is not listed is refused, bare or in an object, and so is an
      object with neither a text nor a number as its ID. */
  lemma EnumRefuses(env: Env, n: Node, text: string, ms: seq<Member>)
    requires Sized(n) && n.kind == Enum
    ensures Unlisted(env, n, text) ==> Encode(env, n, VStr(text)) == Err(NotInEnum)
    ensures Unlisted(env, n, text) && GetItem(ms, "Text") == Some(VStr(text)) ==> Encode(env, n, VObj(ms)) == Err(NotInEnum)
    ensures var x, y := GetItem(ms, "Text"), GetItem(ms, "ID");
      (x.None? || !x.value.VStr?) && (y.None? || !IsNumber(y.value)) ==> Encode(env, n, VObj(ms)) == Err(WrongType)
  {
    if Unlisted(env, n, text) {
      EnumValueMissing(EnumList(env, n.list), text);
    }
  }

  /** The first entry of the field's list with this value. */
  predicate Valued(env: Env, n: Node, v: int, j: nat) {
    n.list in env.enums &&
    var es := env.enums[n.list];
    && j < |es| && es[j].value == v && forall i | 0 <= i < j :: es[i].value != v
  }

  predicate Unvalued(env: Env, n: Node, v: int) {
    n.list in env.enums ==> forall e | e in env.enums[n.list] :: e.value != v
  }

  /** What is shown: the stored number as ID, and the text the list has for it as a
      32-bit number, or a message of at most 63 characters that it has none. */
  lemma EnumShows(env: Env, n: Node, d: bytes, v: int, j: nat)
    requires n.kind == Enum && v == AsI64(FromLE(Take(d, n.len)))
    ensures var w := Decode(env, n, d);
      && w.VObj? && |w.ms| == 2 && w.ms[0] == Member("ID", VInt(v)) && w.ms[1].key == "Text" && w.ms[1].val.VStr?
      && var text, miss := w.ms[1].val.s, "not found in " + n.list;
         && (Valued(env, n, AsI32(v), j) ==> text == env.enums[n.list][j].text)
         && (Unvalued(env, n, AsI32(v)) ==> text == if |miss| <= 63 then miss else miss[..63])
  {
    if Valued(env, n, AsI32(v), j) {
      TextFound(env.enums[n.list], AsI32(v), j);
    }
    if Unvalued(env, n, AsI32(v)) {
      TextMissing(EnumList(env, n.list), AsI32(v));
    }
  }

  lemma {:induction false} TextFound(es: seq<EnumEntry>, v: int, j: nat)
    requires j < |es| && es[j].value == v && forall i | 0 <= i < j :: es[i].value != v
    ensures EnumText(es, v) == Some(es[j].text)
  {
    if j > 0 {
      assert forall i | 0 <= i < j - 1 :: es[1..][i] == es[i + 1];
      TextFound(es[1..], v, j - 1);
    }
  }

  lemma {:induction false} TextMissing(es: seq<EnumEntry>, v: int)
    requires forall e | e in es :: e.value != v
    ensures EnumText(es, v) == None
  {
    if es != [] {
      TextMissing(es[1..], v);
    }
  }

  // ---- RAW and the texts ----

  predicate HexDigits(s: string) {
    forall i | 0 <= i < |s| :: '0' <= s[i] <= '9' || 'a' <= s[i] <= 'f' || 'A' <= s[i] <= 'F'
  }

  lemma {:induction false} HexParsed(s: string)
    requires |s| % 2 == 0
    ensures ParseHex(s).Some? <==> HexDigits(s)
    ensures ParseHex(s).Some? ==> HexText(ParseHex(s).value) == Fold(s)
  {
    hide HexDigit, HexVal, Lower;
    if s != "" {
      HexParsed(s[2..]);
      HexPair(s[0], s[1]);
      assert s == [s[0], s[1]] + s[2..];
      if ParseHex(s).Some? {
        var r := ParseHex(s).value;
        assert r[1..] == ParseHex(s[2..]).value;
        assert Fold(s) == [Lower(s[0]), Lower(s[1])] + Fold(s[2..]);
      }
    }
  }

  lemma HexPair(h: char, l: char)
    ensures HexVal(h) >= 0 <==> '0' <= h <= '9' || 'a' <= h <= 'f' || 'A' <= h <= 'F'
    ensures HexVal(l) >= 0 <==> '0' <= l <= '9' || 'a' <= l <= 'f' || 'A' <= l <= 'F'
    ensures HexVal(h) >= 0 && HexVal(l) >= 0 ==>
      var b := HexVal(h) * 16 + HexVal(l); HexDigit(b / 16) == Lower(h) && HexDigit(b % 16) == Lower(l)
  {
    if HexVal(h) >= 0 && HexVal(l) >= 0 {
      DivModUnique(HexVal(h) * 16 + HexVal(l), 16, HexVal(h), HexVal(l));
      OneHex(h);
      OneHex(l);
    }
  }

  lemma OneHex(c: char)
    requires HexVal(c) >= 0
    ensures HexDigit(HexVal(c)) == Lower(c)
  {
  }

  /** Hex digits of either case, two for each byte, are taken, nothing else is, and
      they are shown in lower case. */
  lemma RawTakes(env: Env, n: Node, v: Value, t: bytes)
    requires Sized(n) && n.kind == Raw
    ensures var r := Encode(env, n, v);
      if !v.VStr? then r == Err(WrongType)
      else if |v.s| != 2 * n.len then r == Err(WrongHexLength)
      else if !HexDigits(v.s) then r == Err(NotHex)
      else r.Ok? && Decode(env, n, r.value + t) == VStr(Fold(v.s))
  {
    if v.VStr? && |v.s| == 2 * n.len {
      HexParsed(v.s);
      if HexDigits(v.s) {
        ParseHexLength(v.s);
        TakeExact(ParseHex(v.s).value, t);
      }
    }
  }

  /** Unknown codecs are shown like raw ones: the hex text of the bytes there are. */
  lemma HexShown(env: Env, n: Node, d: bytes)
    requires n.kind == Raw || n.kind == Unknown
    ensures var v := Decode(env, n, d); v.VStr? && ParseHex(v.s) == Some(Take(d, n.len))
  {
    HexRoundTrip(Take(d, n.len));
  }

  /** The bytes each text kind is made of: six of a MAC address, three of a date,
      four of a UTC time, the field's own of the others. */
  lemma TextShown(env: Env, n: Node, d: bytes)
    requires n.kind.TextOnly?
    ensures var k := n.kind.form;
      Decode(env, n, d) == VStr(env.text(k, Take(d,
        if k == MacAddr then 6 else if k == SDate then 3 else if k == Utc then 4 else n.len)))
  {
  }

  /** A date shows its text and its epoch, from six bytes, or from eight if there
      are eight. */
  lemma DateShown(env: Env, n: Node, d: bytes)
    requires n.kind == DateTime
    ensures var b := if n.tsFormat then Take(d, 6) else if |d| < 8 then [] else Take(d, 8);
      Decode(env, n, d) == VObj([Member("DateTime", VStr(env.dateText(n.tsFormat, b))),
                                 Member("Timestamp", VInt(env.epochMs(n.tsFormat, b)))])
  {
  }

  // ---- times ----

  /** Digit texts with a colon between one and the next. */
  function Colons(ts: seq<string>): string {
    if ts == [] then "" else if |ts| == 1 then ts[0] else ts[0] + ":" + Colons(ts[1..])
  }

  predicate Digits(s: string) {
    s != "" && forall i | 0 <= i < |s| :: IsDigit(s[i])
  }

  predicate Part(t: string, b: int) {
    Digits(t) && DigitsVal(t) == b
  }

  /** Numbers written with any number of digits are taken as they are. */
  lemma {:induction false} TimeTakes(ts: seq<string>, b: bytes)
    requires |ts| == |b| && forall i | 0 <= i < |ts| :: Part(ts[i], b[i])
    ensures ParseTime(Colons(ts), |ts|) == Some(b)
    decreases |ts|
  {
    hide Strtol, DigitsVal, ParseTime;
    if ts == [] {
      NoTime("");
    } else {
      TimeTakes(ts[1..], b[1..]);
      TimeFront(ts, b[0]);
      assert b == [b[0]] + b[1..];
    }
  }

  /** A number above 255 is refused, whatever comes behind it. */
  lemma TimeTooLarge(t: string, rest: string, n: nat)
    requires Digits(t) && DigitsVal(t) > 255 && (rest == "" || rest[0] == ':')
    ensures ParseTime(t + rest, n + 1) == None
  {
    hide Strtol, DigitsVal;
    StrtolFront(t, rest);
    ColonStep(t + rest, DigitsVal(t), |t|, n);
  }

  lemma TimeFront(ts: seq<string>, v: int)
    requires ts != [] && Part(ts[0], v)
    ensures var rest := ParseTime(Colons(ts[1..]), |ts| - 1);
      ParseTime(Colons(ts), |ts|) == if v < 0 || v > 255 || rest.None? then None else Some([v] + rest.value)
  {
    hide Strtol, DigitsVal, ParseTime, Colons;
    var rest := Behind(ts);
    StrtolFront(ts[0], rest);
    ColonStep(ts[0] + rest, v, |ts[0]|, |ts| - 1);
    assert (ts[0] + rest)[|ts[0]|..] == rest;
    if rest != "" {
      assert (ts[0] + rest)[|ts[0]| + 1..] == rest[1..];
    }
  }

  lemma Behind(ts: seq<string>) returns (rest: string)
    requires ts != []
    ensures Colons(ts) == ts[0] + rest && (rest == "" || rest[0] == ':')
    ensures Colons(ts[1..]) == if rest == "" then "" else rest[1..]
  {
    rest := if |ts| == 1 then "" else ":" + Colons(ts[1..]);
    assert Colons(ts) == ts[0] + rest;
  }

  lemma ColonStep(s: string, v: int, used: nat, n: nat)
    requires 0 < used <= |s| && Strtol(s) == (v, used)
    ensures var rest := ParseTime(if used < |s| && s[used] == ':' then s[used + 1..] else s[used..], n);
      ParseTime(s, n + 1) == if v < 0 || v > 255 || rest.None? then None else Some([v] + rest.value)
  {
    hide Strtol;
  }

  lemma StrtolFront(s: string, rest: string)
    requires Digits(s) && (rest == "" || rest[0] == ':')
    ensures Strtol(s + rest) == (DigitsVal(s), |s|)
  {
    var t := s + rest;
    assert t[0] == s[0] && SpaceRun(t) == 0;
    DigitRunExact(s, rest);
    assert t[0..] == t && t[..|s|] == s;
  }

  // ---- what no value can be written to ----

  /** A value of another type is refused, and kinds without an encoder refuse
      everything. */
  lemma WrongTypes(env: Env, n: Node, v: Value)
    requires Sized(n)
    ensures n.kind in {Raw, Stime} && !v.VStr? ==> Encode(env, n, v) == Err(WrongType)
    ensures n.kind in {Int, Float32, ByteVal} && !IsNumber(v) ==> Encode(env, n, v) == Err(WrongType)
    ensures n.kind == Enum && !(v.VObj? || v.VStr? || IsNumber(v)) ==> Encode(env, n, v) == Err(WrongType)
    ensures n.kind in {Complex, List, Switch} && !v.VObj? ==> Encode(env, n, v) == Err(WrongType)
    ensures n.kind in {Unknown, Array, CosPhi, DateTime} || n.kind.TextOnly? ==> Encode(env, n, v) == Err(NotEncodable)
  {
  }
}
