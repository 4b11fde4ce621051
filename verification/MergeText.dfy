/** The merge by way of text: main/poller.c prints the current value, parses it
    and merges what it has parsed. The payload is the same. */
module MergeText {
  import opened Bytes
  import opened Text
  import opened Wrappers
  import opened Doubles
  import opened Json
  import opened CodecTree
  import opened CodecDecode
  import opened CodecEncode
  import opened CodecEncoder
  import opened Merge
  import opened CodecLeaves
  import opened JsonReader
  import opened ShortestText
  import JsonSink

  // ---- the encoder does not see whether a number was an integer ----

  lemma {:induction false} GetAsRead(ms: seq<Member>, key: string)
    ensures var v := GetItem(ms, key);
      GetItem(MembersAsRead(ms), key) == if v.None? then None else Some(AsRead(v.value))
  {
    if ms != [] {
      GetAsRead(ms[1..], key);
    }
  }

  lemma NumberAsRead(v: Value)
    ensures IsNumber(AsRead(v)) <==> IsNumber(v)
    ensures IsNumber(v) ==> AsReal(AsRead(v)) == AsReal(v)
  {
  }

  lemma EnumAsRead(env: Env, n: Node, v: Value)
    ensures EncodeEnum(env, n, AsRead(v)) == EncodeEnum(env, n, v)
  {
    hide EncodeEnumText, LE, Trunc;
    if v.VObj? {
      GetAsRead(v.ms, "Text");
      GetAsRead(v.ms, "ID");
      var id := GetItem(v.ms, "ID");
      if id.Some? {
        NumberAsRead(id.value);
      }
    }
  }

  lemma {:induction false} EncodeAsRead(env: Env, n: Node, v: Value)
    requires Sized(n)
    ensures Encode(env, n, AsRead(v)) == Encode(env, n, v)
    decreases n, 1, 0
  {
    hide Encode, EncodeFields, EncodeList;
    if n.kind == Complex {
      ComplexEncodes(env, n, v);
      ComplexEncodes(env, n, AsRead(v));
      if v.VObj? {
        FieldsAsRead(env, n.kids, v.ms);
      }
    } else if n.kind == List {
      ListEncodes(env, n, v);
      ListEncodes(env, n, AsRead(v));
      if v.VObj? && |n.kids| == 2 {
        ListAsRead(env, n, v.ms);
      }
    } else if n.kind == Switch {
      SwitchAsRead(env, n, v);
    } else {
      LeafAsRead(env, n, v);
    }
  }

  lemma LeafAsRead(env: Env, n: Node, v: Value)
    requires Sized(n) && n.kind !in {Complex, List, Switch}
    ensures Encode(env, n, AsRead(v)) == Encode(env, n, v)
  {
    hide EncodeEnum, Trunc, RoundAway, ParseHex, ParseTime, StoreInt, LE, AsDouble;
    NumberAsRead(v);
    if v.VInt? {
      SignKept(v.i as real);
    }
    if n.kind == Enum {
      EnumAsRead(env, n, v);
    } else if n.kind == Int && IsNumber(v) {
      assert Scaled(n, AsRead(v)) == Scaled(n, v);
    }
  }

  lemma {:induction false} FieldsAsRead(env: Env, kids: seq<Node>, ms: seq<Member>)
    requires forall k | k in kids :: Sized(k)
    ensures EncodeFields(env, kids, MembersAsRead(ms)) == EncodeFields(env, kids, ms)
    decreases kids, 0, 0
  {
    hide Encode, Sized;
    if kids != [] {
      GetAsRead(ms, kids[0].id);
      var sv := GetItem(ms, kids[0].id);
      if sv.Some? {
        EncodeAsRead(env, kids[0], sv.value);
      }
      FieldsAsRead(env, kids[1..], ms);
    }
  }

  lemma ListAsRead(env: Env, n: Node, ms: seq<Member>)
    requires Sized(n) && n.kind == List && |n.kids| == 2
    ensures EncodeList(env, n, MembersAsRead(ms)) == EncodeList(env, n, ms)
    decreases n, 0, 0
  {
    hide Encode, EncodeEntries, Trunc, LE;
    var ck, sub := n.kids[0], n.kids[1];
    GetAsRead(ms, ck.id);
    GetAsRead(ms, sub.id);
    var cv, sv := GetItem(ms, ck.id), GetItem(ms, sub.id);
    if cv.Some? {
      NumberAsRead(cv.value);
    }
    assert sub in n.kids && Sized(sub);
    if sv.Some? && sv.value.VArr? {
      EntriesAsRead(env, sub, sv.value.xs, Room(n));
    }
  }

  function Room(n: Node): nat
    requires |n.kids| > 0
  {
    if n.kids[0].len <= n.len then n.len - n.kids[0].len else 0
  }

  lemma {:induction false} EntriesAsRead(env: Env, sub: Node, xs: seq<Value>, room: nat)
    requires Sized(sub)
    ensures EncodeEntries(env, sub, ItemsAsRead(xs), room) == EncodeEntries(env, sub, xs, room)
    decreases sub, 2, |xs|
  {
    hide Encode, Sized;
    if xs != [] {
      EncodeAsRead(env, sub, xs[0]);
      if sub.len <= room {
        EntriesAsRead(env, sub, xs[1..], room - sub.len);
      }
      assert ItemsAsRead(xs)[1..] == ItemsAsRead(xs[1..]);
    }
  }

  lemma SwitchAsRead(env: Env, n: Node, v: Value)
    requires Sized(n) && n.kind == Switch
    ensures Encode(env, n, AsRead(v)) == Encode(env, n, v)
    decreases n, 0, 0
  {
    hide Trunc, AsI32, PickCase, Encode, Sized;
    SwitchEncodes(env, n, v);
    SwitchEncodes(env, n, AsRead(v));
    if !v.VObj? {
      return;
    }
    GetAsRead(v.ms, "ID");
    var id := GetItem(v.ms, "ID");
    if id.Some? && IsNumber(id.value) {
      NumberAsRead(id.value);
      var pick := PickCase(n.cases, AsI32(Trunc(AsReal(id.value))), false);
      if pick.Some? {
        var b := n.kids[pick.value];
        assert b in n.kids && Sized(b);
        GetAsRead(v.ms, b.id);
        var bv := if b.kind == Complex then Some(v) else GetItem(v.ms, b.id);
        if bv.Some? {
          EncodeAsRead(env, b, bv.value);
        }
      }
    } else if id.Some? {
      NumberAsRead(id.value);
    }
  }

  // ---- merging what was read ----

  lemma {:induction false} ReadTwice(v: Value)
    ensures AsRead(AsRead(v)) == AsRead(v)
    decreases v, 1
  {
    match v {
      case VObj(ms) => MembersTwice(ms);
      case VArr(xs) => ItemsTwice(xs);
      case _ =>
    }
  }

  lemma {:induction false} MembersTwice(ms: seq<Member>)
    ensures MembersAsRead(MembersAsRead(ms)) == MembersAsRead(ms)
    decreases ms, 0
  {
    if ms != [] {
      ReadTwice(ms[0].val);
      MembersTwice(ms[1..]);
      assert MembersAsRead(ms)[1..] == MembersAsRead(ms[1..]);
    }
  }

  lemma {:induction false} ItemsTwice(xs: seq<Value>)
    ensures ItemsAsRead(ItemsAsRead(xs)) == ItemsAsRead(xs)
    decreases xs, 0
  {
    if xs != [] {
      ReadTwice(xs[0]);
      ItemsTwice(xs[1..]);
      assert ItemsAsRead(xs)[1..] == ItemsAsRead(xs[1..]);
    }
  }

  lemma {:induction false} MembersOfConcat(a: seq<Member>, b: seq<Member>)
    ensures MembersAsRead(a + b) == MembersAsRead(a) + MembersAsRead(b)
  {
    if a == [] {
      assert a + b == b;
    } else {
      assert (a + b)[1..] == a[1..] + b;
      MembersOfConcat(a[1..], b);
    }
  }

  lemma {:induction false} MergedAsRead(want: seq<Member>, cur: seq<Member>)
    ensures MembersAsRead(Merged(want, cur)) == Merged(MembersAsRead(want), MembersAsRead(cur))
    decreases |cur|
  {
    hide AsRead;
    if cur != [] {
      var next := if HasKey(want, cur[0].key) then want else want + [cur[0]];
      GetAsRead(want, cur[0].key);
      MembersOfConcat(want, [cur[0]]);
      OneAsRead(cur[0]);
      assert MembersAsRead(cur)[1..] == MembersAsRead(cur[1..]);
      MergedAsRead(next, cur[1..]);
    }
  }

  lemma OneAsRead(m: Member)
    ensures MembersAsRead([m]) == [Member(m.key, AsRead(m.val))]
  {
    assert [m][1..] == [];
  }

  // ---- decoding shows doubles ----

  lemma {:induction false} DecodedDoubles(env: Env, n: Node, d: bytes)
    ensures OfDoubles(Decode(env, n, d))
    decreases n, 1, 0
  {
    hide IsDouble, Unscaled;
    match n.kind {
      case Int => UnscaledDouble(n, AsDouble((if n.signd then ReadInt(Take(d, n.len), true) else FromLE(Take(d, n.len))) as real));
      case Float32 => UnscaledDouble(n, env.float32(FromLE(Take(d, 4))));
      case CosPhi =>
        var v := if |d| >= 2 then d[1] as real else 0.0;
        UnscaledDouble(n, if |d| >= 1 && d[0] == 4 then -v else v);
      case Complex => FieldDoubles(env, n.kids, d);
      case List => ListDoubles(env, n.kids, d, 0);
      case Array => ArrayDoubles(env, n.kids, n.arrayLen, d);
      case Switch => SwitchDoubles(env, n, d);
      case DateTime =>
        var b := DateBytes(n, d);
        PairDoubles(Member("DateTime", VStr(env.dateText(n.tsFormat, b))), Member("Timestamp", VInt(env.epochMs(n.tsFormat, b))));
      case Enum => EnumDoubles(env, n.list, AsI64(FromLE(Take(d, n.len))));
      case _ =>
    }
  }

  lemma PairDoubles(a: Member, b: Member)
    requires OfDoubles(a.val) && OfDoubles(b.val)
    ensures MembersOfDoubles([a, b])
  {
    OneDouble(b);
    FrontDoubles(a, [b]);
    assert [a] + [b] == [a, b];
  }

  lemma EnumDoubles(env: Env, list: string, v: int)
    ensures MembersOfDoubles(EnumPair(env, list, v))
  {
    var ms := EnumPair(env, list, v);
    PairDoubles(ms[0], ms[1]);
    assert ms == [ms[0], ms[1]];
  }

  lemma {:induction false} BothDoubles(a: seq<Member>, b: seq<Member>)
    requires MembersOfDoubles(a) && MembersOfDoubles(b)
    ensures MembersOfDoubles(a + b)
  {
    hide OfDoubles;
    if a == [] {
      assert a + b == b;
    } else {
      assert (a + b)[1..] == a[1..] + b;
      BothDoubles(a[1..], b);
    }
  }

  lemma {:induction false} FieldDoubles(env: Env, kids: seq<Node>, d: bytes)
    ensures MembersOfDoubles(Fields(env, kids, d))
    decreases kids, 0, 0
  {
    hide Decode, OfDoubles;
    if kids != [] {
      DecodedDoubles(env, kids[0], d);
      FieldDoubles(env, kids[1..], Drop(d, kids[0].len));
    }
  }

  lemma {:induction false} ListDoubles(env: Env, kids: seq<Node>, d: bytes, count: int)
    ensures MembersOfDoubles(ListFields(env, kids, d, count))
    decreases kids, 0, 0
  {
    hide Decode, Entries, ReadInt, MembersOfDoubles, OfDoubles;
    if kids == [] {
      NoDoubles();
    } else {
      var sub := kids[0];
      if IsCount(sub) {
        var c := ReadInt(Take(d, sub.len), sub.signd);
        ListDoubles(env, kids[1..], Drop(d, sub.len), c);
        CountDouble(c);
        FrontDoubles(Member(sub.id, VInt(c)), ListFields(env, kids[1..], Drop(d, sub.len), c));
      } else if sub.kind == Complex {
        var (xs, rest) := Entries(env, sub, d, count);
        EntryDoubles(env, sub, d, count);
        ListDoubles(env, kids[1..], rest, count);
        ArrayOfDoubles(xs);
        FrontDoubles(Member(sub.id, VArr(xs)), ListFields(env, kids[1..], rest, count));
      } else {
        DecodedDoubles(env, sub, d);
        ListDoubles(env, kids[1..], Drop(d, sub.len), count);
        FrontDoubles(Member(sub.id, Decode(env, sub, d)), ListFields(env, kids[1..], Drop(d, sub.len), count));
      }
    }
  }

  lemma NoDoubles()
    ensures MembersOfDoubles([])
  {
  }

  lemma CountDouble(c: int)
    ensures OfDoubles(VInt(c))
  {
  }

  lemma ArrayOfDoubles(xs: seq<Value>)
    requires ItemsOfDoubles(xs)
    ensures OfDoubles(VArr(xs))
  {
  }

  lemma FrontDoubles(m: Member, rest: seq<Member>)
    requires OfDoubles(m.val) && MembersOfDoubles(rest)
    ensures MembersOfDoubles([m] + rest)
  {
    assert ([m] + rest)[1..] == rest;
  }

  lemma {:induction false} EntryDoubles(env: Env, sub: Node, d: bytes, count: int)
    ensures ItemsOfDoubles(Entries(env, sub, d, count).0)
    decreases sub, 2, if count < 0 then 0 else count
  {
    hide Decode, OfDoubles;
    if !(count <= 0 || (sub.len > 0 && sub.len > |d|)) {
      DecodedDoubles(env, sub, d);
      EntryDoubles(env, sub, Drop(d, sub.len), count - 1);
    }
  }

  lemma {:induction false} ArrayDoubles(env: Env, kids: seq<Node>, reps: nat, d: bytes)
    ensures MembersOfDoubles(ArrayFields(env, kids, reps, d))
    decreases kids, 0, 0
  {
    hide Decode, Repeats;
    if kids != [] {
      RepeatDoubles(env, kids[0], d, reps);
      ArrayDoubles(env, kids[1..], reps, Repeats(env, kids[0], d, reps).1);
    }
  }

  lemma {:induction false} RepeatDoubles(env: Env, sub: Node, d: bytes, reps: nat)
    ensures ItemsOfDoubles(Repeats(env, sub, d, reps).0)
    decreases sub, 2, reps
  {
    hide Decode, OfDoubles;
    if reps > 0 {
      DecodedDoubles(env, sub, d);
      RepeatDoubles(env, sub, Drop(d, sub.len), reps - 1);
    }
  }

  lemma SwitchDoubles(env: Env, n: Node, d: bytes)
    requires n.kind == Switch
    ensures OfDoubles(Decode(env, n, d))
    decreases n, 0, 0
  {
    hide Fields, EnumPair, PickCase, IsDouble;
    var v := if d == [] then 0 else d[0];
    var head := EnumPair(env, n.list, v);
    EnumDoubles(env, n.list, v);
    var pick := PickCase(n.cases, v, true);
    if pick.None? {
      var error := Member("Error", VStr("no matching case for ID " + DecInt(v)));
      OneDouble(error);
      BothDoubles(head, [error]);
    } else if pick.value < |n.kids| {
      var b := n.kids[pick.value];
      if b.kind == Complex {
        FieldDoubles(env, b.kids, Drop(d, 1));
        BothDoubles(head, Fields(env, b.kids, Drop(d, 1)));
      } else {
        DecodedDoubles(env, b, Drop(d, 1));
        var m := Member(b.id, Decode(env, b, Drop(d, 1)));
        OneDouble(m);
        BothDoubles(head, [m]);
      }
    }
  }

  lemma OneDouble(m: Member)
    requires OfDoubles(m.val)
    ensures MembersOfDoubles([m])
  {
    assert [m][1..] == [];
  }

  /** The current value is printed and parsed before it is merged: the write comes
      out as if it had been merged as it is. */
  lemma MergedByText(env: Env, n: Node, raw: bytes, want: Value)
    requires Sized(n) && JsonSink.Thin(Decode(env, n, raw), 0)
    ensures var read := ReadValue(JsonSink.Printed(Print, Decode(env, n, raw), 0));
      && read.Some? && read.value.1 == ""
      && var cur := read.value.0;
         Encode(env, n, if want.VObj? && cur.VObj? then VObj(Merged(want.ms, cur.ms)) else want)
         == Encode(env, n, Completed(env, n, raw, want))
  {
    hide Encode, Decode, JsonSink.Thin, JsonSink.Printed, JsonSink.JsonText, ReadValue, Legible;
    var v := Decode(env, n, raw);
    DecodedDoubles(env, n, raw);
    PrintLegible(v);
    JsonSink.PrintedExactly(Print, v, 0);
    TextReadsBack(Print, v, "");
    assert JsonSink.JsonText(Print, v) + "" == JsonSink.JsonText(Print, v);
    if want.VObj? && v.VObj? {
      var ms := MembersAsRead(v.ms);
      EncodeAsRead(env, n, VObj(Merged(want.ms, ms)));
      EncodeAsRead(env, n, VObj(Merged(want.ms, v.ms)));
      MergedAsRead(want.ms, ms);
      MergedAsRead(want.ms, v.ms);
      MembersTwice(v.ms);
    }
  }
}
