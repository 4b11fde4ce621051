/** The other direction: which JSON values come back unchanged after encoding
    and decoding. */
module CodecValues {
  import opened Bytes
  import opened Text
  import opened Wrappers
  import opened Doubles
  import opened Json
  import opened CodecTree
  import opened CodecDecode
  import opened CodecEncode
  import opened CodecNumbers
  import opened CodecCanon
  import opened TimeForm

  predicate LowerHex(s: string) {
    forall i :: 0 <= i < |s| ==> '0' <= s[i] <= '9' || 'a' <= s[i] <= 'f'
  }

  /** The value an enum entry shows up as after being stored in `len` bytes. */
  function Stored(value: int, len: nat): int {
    AsI64(FromLE(LE(value, len)))
  }

  /** Values in the exact shape decoding gives them. */
  ghost predicate CanonVal(env: Env, n: Node, v: Value)
    requires Sized(n)
    decreases n, 0
  {
    match n.kind
    case Raw => v.VStr? && |v.s| == 2 * n.len && LowerHex(v.s)
    case Int => v.VDbl? && CanonInt(n, v.r)
    case ByteVal => v.VInt? && 0 <= v.i < Pow256(n.len) && v.i < TWO63 && IsDouble(v.i as real)
    case Bool => v == VStr("on") || v == VStr("off")
    case Stime => v.VStr? && CanonTime(env, n.len, v.s)
    case Enum => exists value :: CanonEnum(env, n, v, value)
    case Complex => v.VObj? && CanonMembers(env, n.kids, v.ms)
    case List => |n.kids| == 2 && exists c, xs ::
      v == ListValue(n, c, xs) && CanonListVal(env, n, c, xs)
    case Switch => v.VObj? && |v.ms| >= 2 && exists sel: byte ::
      v.ms[..2] == EnumPair(env, n.list, sel) && CanonBranch(env, n, sel, v.ms[2..])
    case _ => false
  }

  /** A number an INT field shows: without a scale any whole double in range, with
      one the number shown of the multiple of the step nearest to it. */
  predicate CanonInt(n: Node, r: real) {
    if n.scale == 1.0 then IsDouble(r) && IsInteger(r) && InRange(n, r.Floor)
    else
      var k := RoundAway(Product(r, n.scale));
      InRange(n, k) && IntShown(n, k) == r
  }

  /** A listed value that still reads the same after being stored. */
  predicate CanonEnum(env: Env, n: Node, v: Value, value: int) {
    && EnumText(EnumList(env, n.list), value).Some?
    && AsI32(Stored(value, n.len)) == value
    && v == VObj(EnumPair(env, n.list, Stored(value, n.len)))
  }

  ghost predicate CanonMembers(env: Env, kids: seq<Node>, ms: seq<Member>)
    requires forall k | k in kids :: Sized(k)
    decreases kids
  {
    if kids == [] then ms == []
    else ms != [] && ms[0].key == kids[0].id && CanonVal(env, kids[0], ms[0].val) &&
         CanonMembers(env, kids[1..], ms[1..])
  }

  /** As many entries as counted, the count representable, everything fitting. */
  ghost predicate CanonListVal(env: Env, n: Node, c: int, xs: seq<Value>)
    requires Sized(n) && |n.kids| == 2
    decreases n.kids, 0
  {
    var ck, sub := n.kids[0], n.kids[1];
    && c == |xs| && IsDouble(c as real)
    && ReadInt(LE(c, ck.len), ck.signd) == c
    && ck.len <= n.len
    && CanonItems(env, sub, xs, n.len - ck.len)
  }

  ghost predicate CanonItems(env: Env, sub: Node, xs: seq<Value>, room: nat)
    requires Sized(sub)
    decreases sub, 1, |xs|
  {
    xs == [] ||
    (sub.len <= room && CanonVal(env, sub, xs[0]) && CanonItems(env, sub, xs[1..], room - sub.len))
  }

  ghost predicate CanonBranch(env: Env, n: Node, sel: byte, tail: seq<Member>)
    requires Sized(n) && n.kind == Switch
    decreases n.kids, 0
  {
    var pick := PickCase(n.cases, sel, true);
    pick.Some? &&
    var b := n.kids[pick.value];
    assert b in n.kids && Sized(b);
    if b.kind == Complex then CanonMembers(env, b.kids, tail)
    else |tail| == 1 && tail[0].key == b.id && CanonVal(env, b, tail[0].val)
  }

  /** Encoding then decoding gives the value back exactly when it is canonical,
      whatever bytes follow. */
  lemma ValueRoundTrip(env: Env, n: Node, v: Value, t: bytes)
    requires WellFormed(n) && WellFormedEnv(env)
    ensures (Encode(env, n, v).Ok? && Decode(env, n, Encode(env, n, v).value + t) == v)
            <==> CanonVal(env, n, v)
  {
    hide Encode, Decode, CanonVal;
    if CanonVal(env, n, v) {
      EncodeCanonical(env, n, v, t);
    }
    if Encode(env, n, v).Ok? && Decode(env, n, Encode(env, n, v).value + t) == v {
      BytesRoundTrip(env, n, Encode(env, n, v).value, t);
      DecodeCanonical(env, n, Encode(env, n, v).value, t);
    }
  }

  // ---- canonical payloads decode to canonical values ----

  lemma {:induction false} DecodeCanonical(env: Env, n: Node, s: bytes, t: bytes)
    requires WellFormed(n) && |s| == n.len && Canon(env, n, s)
    ensures CanonVal(env, n, Decode(env, n, s + t))
    decreases n, 1, 0
  {
    TakeExact(s, t);
    match n.kind {
      case Raw => HexTextLower(s);
      case Int => IntCanonical(env, n, s, t);
      case ByteVal => FromLEBound(s);
      case Bool =>
      case Stime => TimeCanonical(env, s);
      case Enum =>
        var value := AsI32(AsI64(FromLE(s)));
        assert CanonEnum(env, n, Decode(env, n, s + t), value);
      case Complex => MembersCanonical(env, n.kids, s, t);
      case List => ListCanonical(env, n, s, t);
      case Switch => SwitchCanonical(env, n, s, t);
    }
  }

  lemma IntCanonical(env: Env, n: Node, s: bytes, t: bytes)
    requires Sized(n) && n.kind == Int && |s| == n.len && Survives(n, IntRaw(n, s))
    ensures Decode(env, n, s + t) == VDbl(IntShown(n, IntRaw(n, s))) && CanonInt(n, IntShown(n, IntRaw(n, s)))
  {
    hide AsDouble, RoundAway, LE, FromLE, ReadInt, InRange, IntShown;
    TakeExact(s, t);
    var k := IntRaw(n, s);
    assert IntValue(n, s + t) == IntShown(n, k) by { ShownOf(n, s, t); }
    IntRawInRange(n, s);
    IntSurvives(n, k);
    if n.scale == 1.0 {
      PlainBack(n, k);
    }
  }

  lemma ShownOf(n: Node, s: bytes, t: bytes)
    requires |s| == n.len
    ensures IntValue(n, s + t) == IntShown(n, IntRaw(n, s))
  {
    TakeExact(s, t);
  }

  lemma {:induction false} HexTextLower(b: bytes)
    ensures LowerHex(HexText(b))
  {
    if b != [] {
      HexTextLower(b[1..]);
    }
  }

  lemma {:induction false} MembersCanonical(env: Env, kids: seq<Node>, s: bytes, t: bytes)
    requires forall k | k in kids :: WellFormed(k) && Sized(k)
    requires |s| == SumLen(kids) && CanonFields(env, kids, s)
    ensures CanonMembers(env, kids, Fields(env, kids, s + t))
    decreases kids, 0, 0
  {
    if kids != [] {
      var w := kids[0].len;
      SplitAt(s, t, w);
      DecodeCanonical(env, kids[0], s[..w], s[w..] + t);
      MembersCanonical(env, kids[1..], s[w..], t);
      assert Fields(env, kids, s + t)[1..] == Fields(env, kids[1..], s[w..] + t);
    }
  }

  lemma {:induction false} ItemsCanonical(env: Env, sub: Node, s: bytes, t: bytes, c: nat)
    requires WellFormed(sub) && CanonEntries(env, sub, s, c)
    ensures |Entries(env, sub, s + t, c).0| == c
    ensures CanonItems(env, sub, Entries(env, sub, s + t, c).0, |s|)
    decreases sub, 2, c
  {
    hide Decode, CanonVal, Canon;
    if c > 0 {
      var w := sub.len;
      SplitAt(s, t, w);
      DecodeCanonical(env, sub, s[..w], s[w..] + t);
      ItemsCanonical(env, sub, s[w..], t, c - 1);
      EntryStep(env, sub, s, t, c);
    }
  }

  lemma ListCanonical(env: Env, n: Node, s: bytes, t: bytes)
    requires WellFormed(n) && n.kind == List && |s| == n.len && CanonList(env, n, s)
    ensures CanonVal(env, n, Decode(env, n, s + t))
    decreases n, 0, 0
  {
    hide Decode, CanonVal, Entries, ReadInt, LE, CanonItems, CanonEntries;
    var ck, sub := n.kids[0], n.kids[1];
    assert sub in n.kids && WellFormed(sub);
    hide WellFormed;
    var c := ReadInt(s[..ck.len], ck.signd);
    SplitAt(s, t, ck.len);
    ListShape(env, n, s + t);
    LEofReadInt(s[..ck.len], ck.signd);
    ItemsCanonical(env, sub, s[ck.len..], t, c);
    ListValueCanonical(env, n, c, Entries(env, sub, s[ck.len..] + t, c).0);
  }

  lemma ListValueCanonical(env: Env, n: Node, c: int, xs: seq<Value>)
    requires Sized(n) && n.kind == List && |n.kids| == 2 && CanonListVal(env, n, c, xs)
    ensures CanonVal(env, n, ListValue(n, c, xs))
  {
  }

  lemma SwitchCanonical(env: Env, n: Node, s: bytes, t: bytes)
    requires WellFormed(n) && n.kind == Switch && |s| == n.len && CanonSwitch(env, n, s)
    ensures CanonVal(env, n, Decode(env, n, s + t))
    decreases n, 0, 0
  {
    hide Decode, CanonVal, Canon;
    var b := n.kids[PickCase(n.cases, s[0], true).value];
    assert b in n.kids && WellFormed(b);
    var s1, t1 := s[1..1 + b.len], s[1 + b.len..] + t;
    assert Drop(s + t, 1) == s1 + t1 && (s + t)[0] == s[0];
    SwitchShape(env, n, s + t);
    TailCanonical(env, b, s1, t1);
    BranchCanonical(env, n, s[0], SwitchTail(env, b, s1 + t1));
  }

  lemma TailCanonical(env: Env, b: Node, s: bytes, t: bytes)
    requires WellFormed(b) && |s| == b.len && Canon(env, b, s)
    ensures b.kind == Complex ==> CanonMembers(env, b.kids, SwitchTail(env, b, s + t))
    ensures b.kind != Complex ==> CanonVal(env, b, Decode(env, b, s + t))
    decreases b, 2, 0
  {
    if b.kind == Complex {
      MembersCanonical(env, b.kids, s, t);
    } else {
      DecodeCanonical(env, b, s, t);
    }
  }

  lemma BranchCanonical(env: Env, n: Node, sel: byte, tail: seq<Member>)
    requires Sized(n) && n.kind == Switch && CanonBranch(env, n, sel, tail)
    ensures CanonVal(env, n, VObj(EnumPair(env, n.list, sel) + tail))
  {
    hide CanonBranch, EnumPair;
    var ms := EnumPair(env, n.list, sel) + tail;
    assert ms[..2] == EnumPair(env, n.list, sel) && ms[2..] == tail;
  }

  // ---- canonical values encode, and decode back ----

  lemma {:induction false} EncodeCanonical(env: Env, n: Node, v: Value, t: bytes)
    requires WellFormed(n) && WellFormedEnv(env) && CanonVal(env, n, v)
    ensures Encode(env, n, v).Ok? && Decode(env, n, Encode(env, n, v).value + t) == v
    decreases n, 1, 0
  {
    hide Encode, Decode, WellFormedEnv, LE, FromLE, EnumPair, TimeText, PickCase, CanonInt, CanonTime, CanonEnum, IsDouble,
         CanonMembers, CanonListVal, CanonBranch, LowerHex;
    match n.kind {
      case Raw => RawBack(env, n, v, t);
      case Int => IntGoesBack(env, n, v.r, t);
      case ByteVal => ByteValBack(env, n, v.i, t);
      case Bool => BoolBack(env, n, v, t);
      case Stime =>
        var parts := CanonicalTime(env, n.len, v.s);
        StimeBack(env, n, parts, t);
      case Enum =>
        var value :| CanonEnum(env, n, v, value);
        EnumBack(env, n, v, value, t);
      case Complex =>
        ComplexBack(env, n, v.ms, t);
      case List =>
        var c, xs :| v == ListValue(n, c, xs) && CanonListVal(env, n, c, xs);
        ListBack(env, n, c, xs, t);
      case Switch =>
        var sel: byte :| v.ms[..2] == EnumPair(env, n.list, sel) && CanonBranch(env, n, sel, v.ms[2..]);
        assert v == VObj(EnumPair(env, n.list, sel) + v.ms[2..]);
        SwitchBack(env, n, sel, v.ms[2..], t);
    }
  }

  lemma {:induction false} LowerHexBack(s: string)
    requires LowerHex(s) && |s| % 2 == 0
    ensures ParseHex(s).Some? && HexText(ParseHex(s).value) == s
  {
    if s != "" {
      LowerHexBack(s[2..]);
      LowerHexPair(s[0], s[1]);
      var b, rest := HexVal(s[0]) * 16 + HexVal(s[1]), ParseHex(s[2..]).value;
      assert ParseHex(s).value == [b] + rest;
      assert ([b] + rest)[1..] == rest;
      assert s == [s[0], s[1]] + s[2..];
    }
  }

  lemma LowerHexPair(h: char, l: char)
    requires LowerHex([h, l])
    ensures 0 <= HexVal(h) < 16 && 0 <= HexVal(l) < 16
    ensures var b := HexVal(h) * 16 + HexVal(l);
            HexDigit(b / 16) == h && HexDigit(b % 16) == l
  {
    assert [h, l][0] == h && [h, l][1] == l;
    LowerHexDigit(h);
    LowerHexDigit(l);
    DivModUnique(HexVal(h) * 16 + HexVal(l), 16, HexVal(h), HexVal(l));
  }

  lemma LowerHexDigit(c: char)
    requires '0' <= c <= '9' || 'a' <= c <= 'f'
    ensures 0 <= HexVal(c) < 16 && HexDigit(HexVal(c)) == c
  {
  }

  lemma RawBack(env: Env, n: Node, v: Value, t: bytes)
    requires Sized(n) && n.kind == Raw && v.VStr? && |v.s| == 2 * n.len && LowerHex(v.s)
    ensures Encode(env, n, v).Ok? && Decode(env, n, Encode(env, n, v).value + t) == v
  {
    LowerHexBack(v.s);
    TakeExact(ParseHex(v.s).value, t);
  }

  lemma IntGoesBack(env: Env, n: Node, r: real, t: bytes)
    requires Sized(n) && n.kind == Int && CanonInt(n, r)
    ensures var v := VDbl(r);
            Encode(env, n, v).Ok? && Decode(env, n, Encode(env, n, v).value + t) == v
  {
    hide AsDouble, RoundAway, LE, FromLE, ReadInt, StoreInt, InRange, IntShown;
    var k := RoundAway(Product(r, n.scale));
    if n.scale == 1.0 {
      assert r * 1.0 == r;
      RoundAwayNear(r, r.Floor);
      PlainBack(n, k);
    }
    IntAccepted(n, k);
    IntRawOfLE(n, k);
    ShownOf(n, LE(k, n.len), t);
  }

  lemma ByteValBack(env: Env, n: Node, i: int, t: bytes)
    requires Sized(n) && n.kind == ByteVal && 0 <= i < Pow256(n.len) && i < TWO63 && IsDouble(i as real)
    ensures Encode(env, n, VInt(i)).Ok? && Decode(env, n, Encode(env, n, VInt(i)).value + t) == VInt(i)
  {
    hide Trunc, AsDouble;
    WholeNear(i, Trunc(AsReal(VInt(i))));
    FromLEofLE(i, n.len);
    DivModUnique(i, Pow256(n.len), 0, i);
    TakeExact(LE(i, n.len), t);
  }

  lemma BoolBack(env: Env, n: Node, v: Value, t: bytes)
    requires Sized(n) && n.kind == Bool && (v == VStr("on") || v == VStr("off"))
    ensures Encode(env, n, v).Ok? && Decode(env, n, Encode(env, n, v).value + t) == v
  {
    assert SameNoCase("on", "on");
    assert |Fold("on")| != |Fold("off")|;
    var s := Encode(env, n, v).value;
    assert (s + t)[0] == s[0];
  }

  lemma EnumBack(env: Env, n: Node, v: Value, value: int, t: bytes)
    requires WellFormedEnv(env) && Sized(n) && n.kind == Enum && CanonEnum(env, n, v, value)
    ensures Encode(env, n, v).Ok? && Decode(env, n, Encode(env, n, v).value + t) == v
  {
    PairLookup(v.ms);
    EnumShownEncodes(env, n.list, Stored(value, n.len));
    TakeExact(LE(value, n.len), t);
  }

  lemma StimeBack(env: Env, n: Node, parts: bytes, t: bytes)
    requires Sized(n) && n.kind == Stime && |parts| == n.len && TimeFits(parts)
    ensures var v := VStr(TimeShown(env, parts));
            Encode(env, n, v).Ok? && Decode(env, n, Encode(env, n, v).value + t) == v
  {
    hide TimeShown, TimeFits;
    TakeExact(parts, t);
    TimeReadBack(env, parts);
  }

  lemma ComplexBack(env: Env, n: Node, ms: seq<Member>, t: bytes)
    requires WellFormed(n) && WellFormedEnv(env) && n.kind == Complex && CanonMembers(env, n.kids, ms)
    ensures Encode(env, n, VObj(ms)).Ok? && Decode(env, n, Encode(env, n, VObj(ms)).value + t) == VObj(ms)
    decreases n, 0, 0
  {
    hide CanonMembers, Fields, EncodeFields;
    MembersFound(env, n.kids, ms, []);
    assert [] + ms == ms;
    MembersBack(env, n.kids, ms, ms, t);
  }

  ghost predicate Named(kids: seq<Node>, ms: seq<Member>)
    decreases kids
  {
    if kids == [] then ms == []
    else ms != [] && ms[0].key == kids[0].id && Named(kids[1..], ms[1..])
  }

  lemma {:induction false} CanonNamed(env: Env, kids: seq<Node>, ms: seq<Member>)
    requires (forall k | k in kids :: Sized(k)) && CanonMembers(env, kids, ms)
    ensures Named(kids, ms)
    decreases kids
  {
    if kids != [] {
      CanonNamed(env, kids[1..], ms[1..]);
    }
  }

  /** Every member is found under its name in the whole object. */
  ghost predicate AllFound(kids: seq<Node>, ms: seq<Member>, all: seq<Member>)
    requires Named(kids, ms)
    decreases kids
  {
    kids == [] || (GetItem(all, kids[0].id) == Some(ms[0].val) && AllFound(kids[1..], ms[1..], all))
  }

  lemma {:induction false} NamedFound(kids: seq<Node>, ms: seq<Member>, head: seq<Member>)
    requires DistinctIds(kids) && Named(kids, ms)
    requires forall i :: 0 <= i < |kids| ==> !HasKey(head, kids[i].id)
    ensures AllFound(kids, ms, head + ms)
    decreases kids
  {
    if kids != [] {
      var m := [ms[0]];
      assert head + ms == (head + m) + ms[1..];
      GetItemConcat(head, m, kids[0].id);
      GetItemConcat(head + m, ms[1..], kids[0].id);
      forall i | 0 <= i < |kids[1..]| ensures !HasKey(head + m, kids[1..][i].id) {
        assert kids[1..][i] == kids[i + 1] && kids[0].id != kids[i + 1].id;
        GetItemConcat(head, m, kids[i + 1].id);
        assert !HasKey(m, kids[i + 1].id) by { assert m[1..] == []; }
      }
      NamedFound(kids[1..], ms[1..], head + m);
    }
  }

  lemma MembersFound(env: Env, kids: seq<Node>, ms: seq<Member>, head: seq<Member>)
    requires (forall k | k in kids :: Sized(k)) && CanonMembers(env, kids, ms) && DistinctIds(kids)
    requires forall i :: 0 <= i < |kids| ==> !HasKey(head, kids[i].id)
    ensures Named(kids, ms) && AllFound(kids, ms, head + ms)
  {
    CanonNamed(env, kids, ms);
    NamedFound(kids, ms, head);
  }

  lemma {:induction false} MembersBack(env: Env, kids: seq<Node>, ms: seq<Member>, all: seq<Member>, t: bytes)
    requires forall k | k in kids :: WellFormed(k) && Sized(k)
    requires WellFormedEnv(env) && CanonMembers(env, kids, ms) && Named(kids, ms) && AllFound(kids, ms, all)
    ensures EncodeFields(env, kids, all).Ok?
    ensures Fields(env, kids, EncodeFields(env, kids, all).value + t) == ms
    decreases kids, 0, 0
  {
    hide Encode, Decode, CanonVal, WellFormedEnv, GetItem;
    if kids != [] {
      MembersBack(env, kids[1..], ms[1..], all, t);
      var b := EncodeFields(env, kids[1..], all).value;
      EncodeCanonical(env, kids[0], ms[0].val, b + t);
      var a := Encode(env, kids[0], ms[0].val).value;
      FieldFront(env, kids, ms, a, b, t);
      assert EncodeFields(env, kids, all) == Ok(a + b);
    }
  }

  lemma FieldFront(env: Env, kids: seq<Node>, ms: seq<Member>, a: bytes, b: bytes, t: bytes)
    requires kids != [] && ms != [] && |a| == kids[0].len && ms[0].key == kids[0].id
    requires Decode(env, kids[0], a + (b + t)) == ms[0].val && Fields(env, kids[1..], b + t) == ms[1..]
    ensures Fields(env, kids, (a + b) + t) == ms
  {
    hide Decode;
    assert (a + b) + t == a + (b + t);
    TakeExact(a, b + t);
    assert ms == [Member(kids[0].id, ms[0].val)] + ms[1..];
  }

  lemma {:induction false} ItemsBack(env: Env, sub: Node, xs: seq<Value>, room: nat, t: bytes)
    requires WellFormed(sub) && WellFormedEnv(env) && CanonItems(env, sub, xs, room)
    ensures EncodeEntries(env, sub, xs, room).Ok?
    ensures Entries(env, sub, EncodeEntries(env, sub, xs, room).value + t, |xs|).0 == xs
    decreases sub, 2, |xs|
  {
    hide Encode, Decode, CanonVal, WellFormedEnv;
    if xs != [] {
      ItemsBack(env, sub, xs[1..], room - sub.len, t);
      var b := EncodeEntries(env, sub, xs[1..], room - sub.len).value;
      EncodeCanonical(env, sub, xs[0], b + t);
      var a := Encode(env, sub, xs[0]).value;
      ItemFront(env, sub, xs, a, b, t);
    }
  }

  lemma ItemFront(env: Env, sub: Node, xs: seq<Value>, a: bytes, b: bytes, t: bytes)
    requires xs != [] && |a| == sub.len
    requires Decode(env, sub, a + (b + t)) == xs[0] && Entries(env, sub, b + t, |xs| - 1).0 == xs[1..]
    ensures Entries(env, sub, (a + b) + t, |xs|).0 == xs
  {
    hide Decode;
    assert (a + b) + t == a + (b + t);
    TakeExact(a, b + t);
  }

  lemma ListBack(env: Env, n: Node, c: int, xs: seq<Value>, t: bytes)
    requires WellFormed(n) && WellFormedEnv(env) && n.kind == List && CanonListVal(env, n, c, xs)
    ensures var v := ListValue(n, c, xs);
            Encode(env, n, v).Ok? && Decode(env, n, Encode(env, n, v).value + t) == v
    decreases n, 0, 0
  {
    hide Encode, Decode, Entries, EncodeEntries, CanonItems, LE, ReadInt, WellFormedEnv, ListValue;
    var ck, sub := n.kids[0], n.kids[1];
    assert sub in n.kids && WellFormed(sub) && ck.id != sub.id;
    ItemsBack(env, sub, xs, n.len - ck.len, t);
    var b := EncodeEntries(env, sub, xs, n.len - ck.len).value;
    var s := LE(c, ck.len) + b;
    assert s[..ck.len] == LE(c, ck.len) && s[ck.len..] == b;
    ReadIntBound(LE(c, ck.len), ck.signd);
    ListEncoding(env, n, c, xs, s);
    SplitAt(s, t, ck.len);
    ListShape(env, n, s + t);
  }

  lemma SwitchBack(env: Env, n: Node, sel: byte, tail: seq<Member>, t: bytes)
    requires WellFormed(n) && WellFormedEnv(env) && n.kind == Switch && CanonBranch(env, n, sel, tail)
    ensures var v := VObj(EnumPair(env, n.list, sel) + tail);
            Encode(env, n, v).Ok? && Decode(env, n, Encode(env, n, v).value + t) == v
    decreases n, 0, 0
  {
    var b := n.kids[PickCase(n.cases, sel, true).value];
    assert b in n.kids && WellFormed(b) && 1 + b.len <= n.len && Sized(b);
    assert PickCase(n.cases, sel, true) == PickCase(n.cases, sel, false);
    PairLookup(EnumPair(env, n.list, sel));
    var zeros := Zeros(n.len - 1 - b.len);
    var a := TailBack(env, n, b, EnumPair(env, n.list, sel), tail, zeros + t);
    ChosenBack(env, n, b, sel, tail, a, t);
  }

  lemma ChosenBack(env: Env, n: Node, b: Node, sel: byte, tail: seq<Member>, a: bytes, t: bytes)
    requires Sized(n) && n.kind == Switch && b in n.kids && 1 + b.len <= n.len && |a| == b.len && Sized(b)
    requires PickCase(n.cases, sel, true) == PickCase(n.cases, sel, false)
    requires PickCase(n.cases, sel, true).Some? && b == n.kids[PickCase(n.cases, sel, true).value]
    requires SwitchTail(env, b, a + (Zeros(n.len - 1 - b.len) + t)) == tail
    requires var ms := EnumPair(env, n.list, sel) + tail;
             var bv := if b.kind == Complex then Some(VObj(ms)) else GetItem(ms, b.id);
             bv.Some? && Encode(env, b, bv.value) == Ok(a)
    ensures var v := VObj(EnumPair(env, n.list, sel) + tail);
            Encode(env, n, v).Ok? && Decode(env, n, Encode(env, n, v).value + t) == v
  {
    hide Encode, Decode, Fields, SwitchTail, PickCase;
    var head := EnumPair(env, n.list, sel);
    PairLookup(head);
    HeadLookup(head, head + tail);
    var zeros := Zeros(n.len - 1 - b.len);
    var s := [sel] + a + zeros;
    assert s[1..1 + b.len] == a && s[1 + b.len..] == zeros;
    SwitchEncoding(env, n, head + tail, sel, s);
    SwitchShape(env, n, s + t);
    assert Drop(s + t, 1) == a + (zeros + t);
  }

  lemma TailBack(env: Env, n: Node, b: Node, head: seq<Member>, tail: seq<Member>, t: bytes) returns (a: bytes)
    requires WellFormed(n) && WellFormedEnv(env) && n.kind == Switch && b in n.kids && WellFormed(b)
    requires if b.kind == Complex then CanonMembers(env, b.kids, tail)
             else |tail| == 1 && tail[0].key == b.id && CanonVal(env, b, tail[0].val)
    requires forall key :: key !in {"ID", "Text"} ==> !HasKey(head, key)
    ensures |a| == b.len && SwitchTail(env, b, a + t) == tail
    ensures var bv := if b.kind == Complex then Some(VObj(head + tail)) else GetItem(head + tail, b.id);
            bv.Some? && Encode(env, b, bv.value) == Ok(a)
    decreases b, 2, 0
  {
    hide Decode, CanonVal, WellFormedEnv;
    assert BranchNames(b);
    if b.kind == Complex {
      MembersFound(env, b.kids, tail, head);
      MembersBack(env, b.kids, tail, head + tail, t);
      a := EncodeFields(env, b.kids, head + tail).value;
    } else {
      GetItemConcat(head, tail, b.id);
      EncodeCanonical(env, b, tail[0].val, t);
      a := Encode(env, b, tail[0].val).value;
    }
  }
}
