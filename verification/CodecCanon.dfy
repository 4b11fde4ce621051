/** Canonical payloads, canonical values, and the two round trips between them. */
module CodecCanon {
  import opened Bytes
  import opened Text
  import opened Wrappers
  import opened Doubles
  import opened Json
  import opened CodecTree
  import opened CodecDecode
  import opened CodecEncode
  import opened CodecNumbers

  // ---- well-formedness of what the database holds ----

  ghost predicate DistinctIds(kids: seq<Node>) {
    forall i, j :: 0 <= i < j < |kids| ==> kids[i].id != kids[j].id
  }

  ghost predicate NoId(kids: seq<Node>, key: string) {
    forall i :: 0 <= i < |kids| ==> kids[i].id != key
  }

  predicate OneDefault(cases: seq<CaseKey>) {
    FirstDefault(cases) == LastDefault(cases)
  }

  ghost predicate BranchNames(b: Node) {
    if b.kind == Complex then NoId(b.kids, "ID") && NoId(b.kids, "Text") else b.id !in {"ID", "Text"}
  }

  /** Trees every kind of which can be written back. */
  ghost predicate WellFormed(n: Node) {
    && Sized(n)
    && n.kind in {Raw, Int, ByteVal, Bool, Stime, Enum, Complex, List, Switch}
    && (n.kind in {Complex, List} ==> DistinctIds(n.kids))
    && (n.kind == List ==> |n.kids| == 2)
    && (n.kind == Switch ==> OneDefault(n.cases) && forall b | b in n.kids :: BranchNames(b))
    && forall k | k in n.kids && !(n.kind == List && IsCount(k)) :: WellFormed(k)
  }

  /** Values and texts of every list are distinct, texts whatever their case;
      no text looks like the message for a missing one. */
  ghost predicate WellFormedEnv(env: Env) {
    forall name :: WellFormedList(EnumList(env, name))
  }

  ghost predicate WellFormedList(es: seq<EnumEntry>) {
    && (forall i, j :: 0 <= i < |es| && 0 <= j < |es| && i != j ==>
          es[i].value != es[j].value && !SameNoCase(es[i].text, es[j].text))
    && (forall i, list :: 0 <= i < |es| ==> !SameNoCase(es[i].text, MissText(list)))
  }

  // ---- canonical payloads ----

  predicate AllZero(s: bytes) {
    forall i :: 0 <= i < |s| ==> s[i] == 0
  }

  /** Payloads that survive decoding and encoding: see BytesRoundTrip. */
  predicate Canon(env: Env, n: Node, s: bytes)
    requires Sized(n) && |s| == n.len
    decreases n, 1
  {
    match n.kind
    case Raw => true
    case Int => Survives(n, IntRaw(n, s))
    case Stime => TimeFits(s)
    case ByteVal => FromLE(s) < TWO63 && IsDouble(FromLE(s) as real)
    case Bool => s[0] <= 1 && AllZero(s[1..])
    case Enum =>
      var v := AsI32(AsI64(FromLE(s)));
      EnumText(EnumList(env, n.list), v).Some? && LE(v, n.len) == s
    case Complex => CanonFields(env, n.kids, s)
    case List => |n.kids| == 2 && CanonList(env, n, s)
    case Switch => CanonSwitch(env, n, s)
    case _ => false
  }

  predicate CanonList(env: Env, n: Node, s: bytes)
    requires Sized(n) && n.kind == List && |n.kids| == 2 && |s| == n.len
    decreases n, 0
  {
    var w := n.kids[0].len;
    var c := ReadInt(s[..w], n.kids[0].signd);
    c >= 0 && IsDouble(c as real) && CanonEntries(env, n.kids[1], s[w..], c)
  }

  /** A branch exists for the discriminator, is canonical, and padding follows. */
  predicate CanonSwitch(env: Env, n: Node, s: bytes)
    requires Sized(n) && n.kind == Switch && |s| == n.len
    decreases n, 0
  {
    s != [] &&
    match PickCase(n.cases, s[0], true)
    case None => false
    case Some(i) =>
      var b := n.kids[i];
      Canon(env, b, s[1..1 + b.len]) && AllZero(s[1 + b.len..])
  }

  predicate CanonFields(env: Env, kids: seq<Node>, s: bytes)
    requires (forall k | k in kids :: Sized(k)) && |s| == SumLen(kids)
    decreases kids, 0
  {
    kids == [] ||
    (Canon(env, kids[0], s[..kids[0].len]) && CanonFields(env, kids[1..], s[kids[0].len..]))
  }

  /** `c` canonical entries, then padding. */
  predicate CanonEntries(env: Env, sub: Node, s: bytes, c: nat)
    requires Sized(sub)
    decreases sub, 2, c
  {
    if c == 0 then AllZero(s)
    else sub.len <= |s| && Canon(env, sub, s[..sub.len]) && CanonEntries(env, sub, s[sub.len..], c - 1)
  }

  // ---- enum lists ----

  lemma {:induction false} EnumTextFound(es: seq<EnumEntry>, v: int) returns (i: nat)
    requires EnumText(es, v).Some?
    ensures i < |es| && es[i].value == v && es[i].text == EnumText(es, v).value
  {
    if es[0].value == v {
      i := 0;
    } else {
      i := EnumTextFound(es[1..], v);
      i := i + 1;
    }
  }

  lemma {:induction false} EnumValueFound(es: seq<EnumEntry>, text: string, i: nat)
    requires i < |es| && SameNoCase(es[i].text, text)
    requires forall j :: 0 <= j < |es| && j != i ==> !SameNoCase(es[j].text, text)
    ensures EnumValue(es, text) == Some(es[i].value)
  {
    if i > 0 {
      EnumValueFound(es[1..], text, i - 1);
    }
  }

  lemma {:induction false} EnumValueMissing(es: seq<EnumEntry>, text: string)
    requires forall j :: 0 <= j < |es| ==> !SameNoCase(es[j].text, text)
    ensures EnumValue(es, text) == None
  {
    if es != [] {
      EnumValueMissing(es[1..], text);
    }
  }

  /** The text shown for a value encodes to that value, and to nothing when the
      value has no text. */
  lemma EnumShownEncodes(env: Env, list: string, v: int)
    requires WellFormedEnv(env)
    ensures EnumValue(EnumList(env, list), EnumShown(env, list, v)) ==
            if EnumText(EnumList(env, list), AsI32(v)).Some? then Some(AsI32(v)) else None
  {
    var es := EnumList(env, list);
    if EnumText(es, AsI32(v)).Some? {
      var i := EnumTextFound(es, AsI32(v));
      EnumValueFound(es, es[i].text, i);
    } else {
      EnumValueMissing(es, MissText(list));
    }
  }

  // ---- looking fields up in the object they were decoded into ----

  /** Every field is found under its own name, whatever comes after it. */
  ghost predicate Finds(env: Env, kids: seq<Node>, d: bytes, ms: seq<Member>)
    decreases kids
  {
    kids == [] ||
    (GetItem(ms, kids[0].id) == Some(Decode(env, kids[0], d)) &&
     Finds(env, kids[1..], Drop(d, kids[0].len), ms))
  }

  lemma {:induction false} FieldsFound(env: Env, kids: seq<Node>, d: bytes, head: seq<Member>)
    requires DistinctIds(kids)
    requires forall i :: 0 <= i < |kids| ==> !HasKey(head, kids[i].id)
    ensures Finds(env, kids, d, head + Fields(env, kids, d))
    decreases kids
  {
    if kids != [] {
      var m := Member(kids[0].id, Decode(env, kids[0], d));
      var rest := Fields(env, kids[1..], Drop(d, kids[0].len));
      assert head + Fields(env, kids, d) == (head + [m]) + rest;
      GetItemConcat(head, [m], kids[0].id);
      GetItemConcat(head + [m], rest, kids[0].id);
      forall i | 0 <= i < |kids[1..]| ensures !HasKey(head + [m], kids[1..][i].id) {
        assert kids[1..][i] == kids[i + 1] && kids[0].id != kids[i + 1].id;
        GetItemConcat(head, [m], kids[i + 1].id);
        assert !HasKey([m], kids[i + 1].id) by { assert [m][1..] == []; }
      }
      FieldsFound(env, kids[1..], Drop(d, kids[0].len), head + [m]);
    }
  }

  // ---- encode after decode, for every payload ----

  /** Encoding what was decoded gives the same bytes back exactly when the
      payload is canonical, whatever follows it. */
  lemma {:induction false} BytesRoundTrip(env: Env, n: Node, s: bytes, t: bytes)
    requires WellFormed(n) && WellFormedEnv(env) && |s| == n.len
    ensures Encode(env, n, Decode(env, n, s + t)) == Ok(s) <==> Canon(env, n, s)
    decreases n, 1, 0
  {
    match n.kind {
      case Raw => RawTrip(env, n, s, t);
      case Int => IntTrip(env, n, s, t);
      case ByteVal => ByteValTrip(env, n, s, t);
      case Bool => BoolTrip(env, n, s, t);
      case Stime => StimeTrip(env, n, s, t);
      case Enum => EnumTrip(env, n, s, t);
      case Complex =>
        FieldsFound(env, n.kids, s + t, []);
        assert [] + Fields(env, n.kids, s + t) == Fields(env, n.kids, s + t);
        FieldsTrip(env, n.kids, Fields(env, n.kids, s + t), s, t);
      case List => ListTrip(env, n, s, t);
      case Switch => SwitchTrip(env, n, s, t);
    }
  }

  lemma TakeExact(s: bytes, t: bytes)
    ensures Take(s + t, |s|) == s && Drop(s + t, |s|) == t
  {
  }

  lemma RawTrip(env: Env, n: Node, s: bytes, t: bytes)
    requires Sized(n) && n.kind == Raw && |s| == n.len
    ensures Encode(env, n, Decode(env, n, s + t)) == Ok(s)
  {
    TakeExact(s, t);
    HexRoundTrip(s);
  }

  lemma IntTrip(env: Env, n: Node, s: bytes, t: bytes)
    requires Sized(n) && n.kind == Int && |s| == n.len
    ensures Encode(env, n, Decode(env, n, s + t)) == Ok(s) <==> Survives(n, IntRaw(n, s))
  {
    hide AsDouble, RoundAway, Survives, StoreInt, LE, FromLE, ReadInt;
    TakeExact(s, t);
    var k := IntRaw(n, s);
    assert Decode(env, n, s + t) == VDbl(IntShown(n, k));
    var back := IntBack(n, k);
    IntRawInRange(n, s);
    IntSurvives(n, k);
    IntAccepted(n, back);
    if InRange(n, back) {
      IntRawOfLE(n, back);
    }
  }

  /** A counter with all bits set is refused when it is written back. */
  lemma TopCounterRefused(env: Env, n: Node, s: bytes)
    requires n.kind == Int && n.len == 8 && !n.signd && n.scale == 1.0 && |s| == 8 && FromLE(s) == TWO64 - 1
    requires Sized(n)
    ensures Encode(env, n, Decode(env, n, s)) == Err(OutOfRange)
  {
    hide AsDouble, RoundAway, FromLE;
    assert Take(s, 8) == s;
    assert Decode(env, n, s) == VDbl(IntShown(n, TWO64 - 1));
    TopCounter(n);
  }

  /** Whole numbers as doubles: how far off, and still whole. */
  lemma WholeNear(i: int, t: int)
    requires t == Trunc(AsReal(VInt(i)))
    ensures AsReal(VInt(i)) == t as real
    ensures t == i <==> IsDouble(i as real)
    ensures -0x10_0000_0000_0000_0000 <= i <= 0x10_0000_0000_0000_0000 ==> -0x8000 <= t - i <= 0x8000
    ensures -0x20_0000_0000_0000 <= i <= 0x20_0000_0000_0000 ==> t == i
    ensures i < 0 <==> AsReal(VInt(i)) < 0.0
  {
    hide AsDouble;
    WholeStays(i);
    DoubleNear(i as real);
    SignKept(i as real);
    NegatedInteger(AsDouble(i as real));
    if -0x20_0000_0000_0000 <= i <= 0x20_0000_0000_0000 {
      WholeExact(i);
    }
  }

  /** Two numbers less than 256^w apart are stored alike only when they are one. */
  lemma StoredAlike(a: int, b: int, w: nat)
    requires a - b < Pow256(w) && b - a < Pow256(w)
    ensures LE(a, w) == LE(b, w) <==> a == b
  {
    FromLEofLE(a, w);
    FromLEofLE(b, w);
    if a % Pow256(w) == b % Pow256(w) {
      SameRemainder(a, b, Pow256(w));
    }
  }

  lemma SameRemainder(a: int, b: int, p: nat)
    requires p > 0 && a % p == b % p && a - b < p && b - a < p
    ensures a == b
  {
    var j := a / p - b / p;
    assert a - b == p * j;
    if j >= 1 {
      Multiple(p, j);
    } else if j <= -1 {
      assert p * -j == -(p * j);
      Multiple(p, -j);
    }
  }

  lemma Multiple(p: nat, j: int)
    requires j >= 1
    ensures p * j >= p
  {
    assert p * (j - 1) >= 0;
  }

  /** Signed or not, it fits `w` bytes. */
  predicate FitsBytes(i: int, w: nat) {
    i < Pow256(w) && i + Pow256(w) >= 0
  }

  /** A whole number goes into its `w` bytes unchanged exactly when it is a double. */
  lemma WholeStored(i: int, w: nat, t: int)
    requires w <= 8 && FitsBytes(i, w) && t == Trunc(AsReal(VInt(i)))
    ensures LE(t, w) == LE(i, w) <==> IsDouble(i as real)
    ensures t == i <==> IsDouble(i as real)
  {
    hide AsReal, Trunc, LE, IsDouble, Pow256;
    Powers();
    Pow256Mono(w, 8);
    WholeNear(i, t);
    if w <= 6 {
      Pow256Mono(w, 6);
    } else {
      Pow256Mono(7, w);
      StoredAlike(t, i, w);
    }
  }

  lemma Powers()
    ensures Pow256(6) == 0x1_0000_0000_0000 && Pow256(7) == 0x100_0000_0000_0000 && Pow256(8) == TWO64
  {
    Pow256Eight();
    SixBytes();
    assert Pow256(7) == 256 * Pow256(6);
  }

  lemma ByteValTrip(env: Env, n: Node, s: bytes, t: bytes)
    requires Sized(n) && n.kind == ByteVal && |s| == n.len
    ensures Encode(env, n, Decode(env, n, s + t)) == Ok(s) <==> Canon(env, n, s)
  {
    hide Trunc, AsReal, IsDouble, LE, FromLE;
    TakeExact(s, t);
    FromLEBound(s);
    LEofFromLE(s);
    Pow256Eight();
    Pow256Mono(n.len, 8);
    var k := FromLE(s);
    var i := AsI64(k);
    var back := Trunc(AsReal(VInt(i)));
    WholeNear(i, back);
    WholeStored(k, n.len, Trunc(AsReal(VInt(k))));
  }

  lemma BoolTrip(env: Env, n: Node, s: bytes, t: bytes)
    requires Sized(n) && n.kind == Bool && |s| == n.len
    ensures Encode(env, n, Decode(env, n, s + t)) == Ok(s) <==> Canon(env, n, s)
  {
    assert (s + t)[0] == s[0];
    assert s == [s[0]] + s[1..];
    assert SameNoCase("on", "on");
    assert |Fold("on")| != |Fold("off")|;
    var b := if s[0] != 0 then 1 else 0;
    var out := [b] + Zeros(n.len - 1);
    assert out[1..] == Zeros(n.len - 1);
    if AllZero(s[1..]) {
      assert s[1..] == Zeros(n.len - 1);
    }
  }

  lemma StimeTrip(env: Env, n: Node, s: bytes, t: bytes)
    requires Sized(n) && n.kind == Stime && |s| == n.len
    ensures Encode(env, n, Decode(env, n, s + t)) == Ok(s) <==> Canon(env, n, s)
  {
    TakeExact(s, t);
    TimeReadBack(env, s);
  }

  /** What is shown of a time reads back exactly when enough of it is. */
  lemma TimeReadBack(env: Env, b: bytes)
    ensures ParseTime(TimeShown(env, b), |b|) == Some(b) <==> TimeFits(b)
  {
    hide ParseTime, TimeText;
    NoTime(TimeShown(env, b));
    TimeRoundTrip(b);
    EmptyTime();
    if b != [] && |TimeText(b)| > 95 {
      CutTime(b, 95);
    }
  }

  lemma EmptyTime()
    ensures TimeText([]) == ""
  {
  }

  lemma EnumTrip(env: Env, n: Node, s: bytes, t: bytes)
    requires WellFormedEnv(env)
    requires Sized(n) && n.kind == Enum && |s| == n.len
    ensures Encode(env, n, Decode(env, n, s + t)) == Ok(s) <==> Canon(env, n, s)
  {
    TakeExact(s, t);
    var v := AsI64(FromLE(s));
    var ms := EnumPair(env, n.list, v);
    PairLookup(ms);
    EnumShownEncodes(env, n.list, v);
  }

  lemma PairLookup(ms: seq<Member>)
    requires |ms| == 2 && ms[0].key == "ID" && ms[1].key == "Text"
    ensures GetItem(ms, "ID") == Some(ms[0].val) && GetItem(ms, "Text") == Some(ms[1].val)
    ensures forall key :: key !in {"ID", "Text"} ==> !HasKey(ms, key)
  {
    assert ms[1..][0] == ms[1];
    assert ms[1..][1..] == [];
    forall key | key !in {"ID", "Text"} ensures !HasKey(ms, key) {
      assert GetItem(ms[1..][1..], key) == None;
      assert GetItem(ms[1..], key) == None;
    }
  }

  lemma SplitAt(s: bytes, t: bytes, k: nat)
    requires k <= |s|
    ensures s + t == s[..k] + (s[k..] + t) && Drop(s + t, k) == s[k..] + t && s == s[..k] + s[k..]
  {
  }

  lemma ConcatInjective(a: bytes, b: bytes, s: bytes)
    requires |a| <= |s|
    ensures a + b == s <==> a == s[..|a|] && b == s[|a|..]
  {
    assert s == s[..|a|] + s[|a|..];
    if a + b == s {
      assert (a + b)[..|a|] == a && (a + b)[|a|..] == b;
    }
  }

  lemma {:induction false} FieldsTrip(env: Env, kids: seq<Node>, ms: seq<Member>, s: bytes, t: bytes)
    requires forall k | k in kids :: WellFormed(k) && Sized(k)
    requires WellFormedEnv(env) && |s| == SumLen(kids) && Finds(env, kids, s + t, ms)
    ensures EncodeFields(env, kids, ms) == Ok(s) <==> CanonFields(env, kids, s)
    decreases kids, 0, 0
  {
    if kids != [] {
      var w := kids[0].len;
      SplitAt(s, t, w);
      BytesRoundTrip(env, kids[0], s[..w], s[w..] + t);
      FieldsTrip(env, kids[1..], ms, s[w..], t);
      var a := Encode(env, kids[0], Decode(env, kids[0], s + t));
      var b := EncodeFields(env, kids[1..], ms);
      if a.Ok? && b.Ok? {
        ConcatInjective(a.value, b.value, s);
      }
    }
  }

  /** Decoding up to `c` entries and encoding them gives count and bytes back. */
  ghost predicate EntriesSame(env: Env, sub: Node, s: bytes, t: bytes, c: int)
    requires Sized(sub)
  {
    var xs := Entries(env, sub, s + t, c).0;
    |xs| == c && EncodeEntries(env, sub, xs, |s|) == Ok(s)
  }

  lemma {:induction false} EntriesTrip(env: Env, sub: Node, s: bytes, t: bytes, c: int)
    requires WellFormed(sub) && WellFormedEnv(env)
    ensures EntriesSame(env, sub, s, t, c) <==> c >= 0 && CanonEntries(env, sub, s, c)
    decreases sub, 2, if c < 0 then 0 else c
  {
    hide Encode, Decode, Canon, EntriesSame, WellFormedEnv;
    var w := sub.len;
    if c <= 0 {
      NoEntries(env, sub, s, t, c);
    } else if w <= |s| {
      SplitAt(s, t, w);
      BytesRoundTrip(env, sub, s[..w], s[w..] + t);
      EntriesTrip(env, sub, s[w..], t, c - 1);
      EntriesSameStep(env, sub, s, t, c);
    } else {
      EntryTooLong(env, sub, s, t, c);
    }
  }

  lemma NoEntries(env: Env, sub: Node, s: bytes, t: bytes, c: int)
    requires Sized(sub) && c <= 0
    ensures EntriesSame(env, sub, s, t, c) <==> c == 0 && AllZero(s)
  {
    assert AllZero(s) <==> s == Zeros(|s|);
  }

  lemma EntriesSameStep(env: Env, sub: Node, s: bytes, t: bytes, c: int)
    requires Sized(sub) && c > 0 && sub.len <= |s|
    ensures EntriesSame(env, sub, s, t, c) <==>
            Encode(env, sub, Decode(env, sub, s + t)) == Ok(s[..sub.len]) &&
            EntriesSame(env, sub, s[sub.len..], t, c - 1)
  {
    hide Encode, Decode, Entries, EncodeEntries;
    EntryStep(env, sub, s, t, c);
    EncodeEntryStep(env, sub, Decode(env, sub, s + t), Entries(env, sub, s[sub.len..] + t, c - 1).0, s);
  }

  lemma EntryTooLong(env: Env, sub: Node, s: bytes, t: bytes, c: int)
    requires Sized(sub) && c > 0 && sub.len > |s|
    ensures !EntriesSame(env, sub, s, t, c)
  {
  }

  lemma EntryStep(env: Env, sub: Node, s: bytes, t: bytes, c: int)
    requires Sized(sub) && c > 0 && sub.len <= |s|
    ensures var w := sub.len;
            Entries(env, sub, s + t, c).0 ==
            [Decode(env, sub, s + t)] + Entries(env, sub, s[w..] + t, c - 1).0
  {
    SplitAt(s, t, sub.len);
  }

  /** One more entry in front: encoded alone, then the rest. */
  lemma EncodeEntryStep(env: Env, sub: Node, x: Value, ys: seq<Value>, s: bytes)
    requires Sized(sub) && sub.len <= |s|
    ensures EncodeEntries(env, sub, [x] + ys, |s|) == Ok(s) <==>
            Encode(env, sub, x) == Ok(s[..sub.len]) &&
            EncodeEntries(env, sub, ys, |s| - sub.len) == Ok(s[sub.len..])
  {
    assert ([x] + ys)[1..] == ys;
    var a := Encode(env, sub, x);
    var b := EncodeEntries(env, sub, ys, |s| - sub.len);
    if a.Ok? && b.Ok? {
      ConcatInjective(a.value, b.value, s);
    }
  }

  lemma ListTrip(env: Env, n: Node, s: bytes, t: bytes)
    requires WellFormed(n) && WellFormedEnv(env) && n.kind == List && |s| == n.len
    ensures Encode(env, n, Decode(env, n, s + t)) == Ok(s) <==> CanonList(env, n, s)
    decreases n, 0, 0
  {
    hide Encode, Decode, Entries, EncodeEntries, CanonEntries, WellFormedEnv, LE, ReadInt;
    var ck, sub := n.kids[0], n.kids[1];
    assert sub in n.kids && ck.id != sub.id && WellFormed(sub);
    var c := ReadInt(s[..ck.len], ck.signd);
    var xs := Entries(env, sub, s[ck.len..] + t, c).0;
    ListShape(env, n, s + t);
    SplitAt(s, t, ck.len);
    assert Decode(env, n, s + t) == ListValue(n, c, xs);
    LEofReadInt(s[..ck.len], ck.signd);
    ReadIntBound(s[..ck.len], ck.signd);
    ListEncoding(env, n, c, xs, s);
    EntriesTrip(env, sub, s[ck.len..], t, c);
  }

  function ListValue(n: Node, c: int, xs: seq<Value>): Value
    requires |n.kids| == 2
  {
    VObj([Member(n.kids[0].id, VInt(c)), Member(n.kids[1].id, VArr(xs))])
  }

  /** What encoding a count and its entries gives. */
  lemma ListEncoding(env: Env, n: Node, c: int, xs: seq<Value>, s: bytes)
    requires Sized(n) && n.kind == List && |n.kids| == 2 && n.kids[0].id != n.kids[1].id && |s| == n.len
    requires LE(c, n.kids[0].len) == s[..n.kids[0].len] && FitsBytes(c, n.kids[0].len)
    ensures var ck, sub := n.kids[0], n.kids[1];
            Encode(env, n, ListValue(n, c, xs)) == Ok(s) <==>
            IsDouble(c as real) && |xs| == c && EncodeEntries(env, sub, xs, n.len - ck.len) == Ok(s[ck.len..])
  {
    hide Trunc, AsReal, IsDouble, LE, EncodeEntries, Pow256, FromLE;
    var ck, sub := n.kids[0], n.kids[1];
    var ms := [Member(ck.id, VInt(c)), Member(sub.id, VArr(xs))];
    assert ms[1..][0] == ms[1];
    assert GetItem(ms, sub.id) == Some(VArr(xs)) by {
      assert GetItem(ms[1..], sub.id) == Some(VArr(xs));
    }
    var count := Trunc(AsReal(VInt(c)));
    WholeStored(c, ck.len, count);
    var e := EncodeEntries(env, sub, xs, n.len - ck.len);
    assert Encode(env, n, ListValue(n, c, xs)) ==
      if |xs| != count then Err(CountMismatch) else if e.Err? then e else Ok(LE(count, ck.len) + e.value);
    if |xs| == count && e.Ok? {
      ConcatInjective(LE(count, ck.len), e.value, s);
    }
  }

  lemma ReadIntBound(s: bytes, signd: bool)
    requires |s| <= 8
    ensures FitsBytes(ReadInt(s, signd), |s|)
  {
    hide ReadInt;
    ReadIntValue(s, signd);
    FromLEBound(s);
  }

  /** A two-field list decodes to its count and its entries. */
  lemma ListShape(env: Env, n: Node, d: bytes)
    requires Sized(n) && n.kind == List && |n.kids| == 2
    ensures var ck, sub := n.kids[0], n.kids[1];
            var c := ReadInt(Take(d, ck.len), ck.signd);
            Decode(env, n, d) == ListValue(n, c, Entries(env, sub, Drop(d, ck.len), c).0)
  {
    var ck, sub := n.kids[0], n.kids[1];
    var c := ReadInt(Take(d, ck.len), ck.signd);
    assert n.kids[1..][0] == sub && n.kids[1..][1..] == [];
    var r := Entries(env, sub, Drop(d, ck.len), c);
    assert ListFields(env, n.kids[1..], Drop(d, ck.len), c) ==
           [Member(sub.id, VArr(r.0))] + ListFields(env, n.kids[1..][1..], r.1, c);
  }

  lemma SwitchTrip(env: Env, n: Node, s: bytes, t: bytes)
    requires WellFormed(n) && WellFormedEnv(env) && n.kind == Switch && |s| == n.len
    ensures Encode(env, n, Decode(env, n, s + t)) == Ok(s) <==> CanonSwitch(env, n, s)
    decreases n, 0, 1
  {
    hide Encode, Decode, Canon, WellFormedEnv, EnumPair, SwitchTail;
    var d := s + t;
    var v := if d == [] then 0 else d[0];
    var head := EnumPair(env, n.list, v);
    PairLookup(head);
    SwitchShape(env, n, d);
    var pick := PickCase(n.cases, v, true);
    assert pick == PickCase(n.cases, v, false);
    if pick.Some? {
      var b := n.kids[pick.value];
      assert b in n.kids && 1 + b.len <= |s| && d[0] == s[0];
      ChosenTrip(env, n, b, head, v, s, t);
    } else {
      var ms := Decode(env, n, d).ms;
      HeadLookup(head, ms);
      NoVariantRefused(env, n, ms, v);
    }
  }

  lemma PastSelector(s: bytes, t: bytes, w: nat)
    requires 1 + w <= |s|
    ensures Drop(s + t, 1) == s[1..1 + w] + (s[1 + w..] + t)
  {
    assert (s + t)[1..] == s[1..] + t;
    assert s[1..] == s[1..1 + w] + s[1 + w..];
  }

  lemma ChosenTrip(env: Env, n: Node, b: Node, head: seq<Member>, v: byte, s: bytes, t: bytes)
    requires WellFormed(n) && Sized(n) && WellFormedEnv(env) && n.kind == Switch && |s| == n.len
    requires head == EnumPair(env, n.list, v) && s != [] && s[0] == v
    requires PickCase(n.cases, v, false).Some? && b == n.kids[PickCase(n.cases, v, false).value]
    requires b in n.kids && 1 + b.len <= |s|
    ensures Encode(env, n, VObj(head + SwitchTail(env, b, Drop(s + t, 1)))) == Ok(s) <==>
            Canon(env, b, s[1..1 + b.len]) && AllZero(s[1 + b.len..])
    decreases n, 0, 0
  {
    hide Encode, Decode, Canon, WellFormed, WellFormedEnv, Fields;
    var s1, t1 := s[1..1 + b.len], s[1 + b.len..] + t;
    PastSelector(s, t, b.len);
    var ms := head + SwitchTail(env, b, s1 + t1);
    PairLookup(head);
    HeadLookup(head, ms);
    BranchTrip(env, n, b, head, s1, t1);
    SwitchEncoding(env, n, ms, v, s);
  }

  lemma NoVariantRefused(env: Env, n: Node, ms: seq<Member>, v: byte)
    requires Sized(n) && n.kind == Switch && GetItem(ms, "ID") == Some(VInt(v))
    requires PickCase(n.cases, v, false).None?
    ensures Encode(env, n, VObj(ms)).Err?
  {
    AsI32Byte(v);
  }

  lemma AsI32Byte(v: byte)
    ensures AsI32(Trunc(AsReal(VInt(v)))) == v
  {
    WholeExact(v);
  }

  /** The branch alone, found where decoding put it. */
  lemma BranchTrip(env: Env, n: Node, b: Node, head: seq<Member>, s: bytes, t: bytes)
    requires WellFormed(n) && WellFormedEnv(env) && n.kind == Switch && b in n.kids && |s| == b.len
    requires forall key :: key !in {"ID", "Text"} ==> !HasKey(head, key)
    ensures b.kind == Complex ==>
              (Encode(env, b, VObj(head + Fields(env, b.kids, s + t))) == Ok(s) <==> Canon(env, b, s))
    ensures b.kind != Complex ==>
              GetItem(head + [Member(b.id, Decode(env, b, s + t))], b.id) == Some(Decode(env, b, s + t)) &&
              (Encode(env, b, Decode(env, b, s + t)) == Ok(s) <==> Canon(env, b, s))
    decreases b, 1, 1
  {
    assert WellFormed(b) && BranchNames(b);
    if b.kind == Complex {
      FieldsFound(env, b.kids, s + t, head);
      FieldsTrip(env, b.kids, head + Fields(env, b.kids, s + t), s, t);
    } else {
      GetItemConcat(head, [Member(b.id, Decode(env, b, s + t))], b.id);
      BytesRoundTrip(env, b, s, t);
    }
  }

  /** Encoding a switch, given its discriminator: the byte, the branch, zeros. */
  lemma SwitchEncoding(env: Env, n: Node, ms: seq<Member>, v: byte, s: bytes)
    requires Sized(n) && n.kind == Switch && |s| == n.len && GetItem(ms, "ID") == Some(VInt(v))
    requires PickCase(n.cases, v, false).Some? && s != [] && s[0] == v
    ensures var b := n.kids[PickCase(n.cases, v, false).value];
            var bv := if b.kind == Complex then Some(VObj(ms)) else GetItem(ms, b.id);
            Encode(env, n, VObj(ms)) == Ok(s) <==>
            bv.Some? && Encode(env, b, bv.value) == Ok(s[1..1 + b.len]) && AllZero(s[1 + b.len..])
  {
    var b := n.kids[PickCase(n.cases, v, false).value];
    var bv := if b.kind == Complex then Some(VObj(ms)) else GetItem(ms, b.id);
    AsI32Byte(v);
    var zeros := Zeros(n.len - 1 - b.len);
    assert AllZero(s[1 + b.len..]) <==> s[1 + b.len..] == zeros;
    if bv.Some? && Encode(env, b, bv.value).Ok? {
      ThreeParts(v, Encode(env, b, bv.value).value, zeros, s);
    }
  }

  lemma HeadLookup(head: seq<Member>, ms: seq<Member>)
    requires head <= ms && HasKey(head, "ID")
    ensures GetItem(ms, "ID") == GetItem(head, "ID")
  {
    assert ms == head + ms[|head|..];
    GetItemConcat(head, ms[|head|..], "ID");
  }

  lemma ThreeParts(v: byte, a: bytes, z: bytes, s: bytes)
    requires |s| == 1 + |a| + |z| && s[0] == v
    ensures [v % 256] + a + z == s <==> a == s[1..1 + |a|] && z == s[1 + |a|..]
  {
    assert [v] + a + z == [v] + (a + z);
    ConcatInjective([v], a + z, s);
    ConcatInjective(a, z, s[1..]);
    assert s[1..][..|a|] == s[1..1 + |a|] && s[1..][|a|..] == s[1 + |a|..];
  }
}
