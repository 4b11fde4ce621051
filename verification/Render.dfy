/** One decode, two renderings: o3e_codec_decode_json and o3e_flatten. */
module Render {
  import opened Bytes
  import opened Text
  import opened Json
  import opened CodecTree
  import opened CodecDecode
  import opened CodecDecoder
  import opened Events
  import JsonSink
  import FlatSink

  // ---- nesting is a property of the tree, not of the payload ----

  function KidsNesting(kids: seq<Node>): nat
    decreases kids, 0
  {
    if kids == [] then 0 else JsonSink.Max(Nesting(kids[0]), KidsNesting(kids[1..]))
  }

  /** Containers a node can nest, whatever bytes it is given. */
  function Nesting(n: Node): nat
    decreases n, 0
  {
    match n.kind
    case Enum => 1
    case DateTime => 1
    case Complex => 1 + KidsNesting(n.kids)
    case Switch => 1 + KidsNesting(n.kids)
    case List => 2 + KidsNesting(n.kids)
    case Array => 2 + KidsNesting(n.kids)
    case _ => 0
  }

  lemma {:induction false} NestingBounds(env: Env, n: Node, d: bytes)
    requires Narrow(n)
    ensures JsonSink.Height(Decode(env, n, d)) <= Nesting(n)
    decreases n, 1, 0
  {
    match n.kind {
      case Complex => FieldsNesting(env, n.kids, d);
      case List => ListNesting(env, n.kids, d, 0);
      case Array => ArrayNesting(env, n.kids, n.arrayLen, d);
      case Switch => SwitchNesting(env, n, d);
      case Enum => PairFlat(EnumPair(env, n.list, AsI64(FromLE(Take(d, n.len)))));
      case DateTime =>
        var b := DateBytes(n, d);
        PairFlat([Member("DateTime", VStr(env.dateText(n.tsFormat, b))),
                  Member("Timestamp", VInt(env.epochMs(n.tsFormat, b)))]);
      case _ =>
    }
  }

  lemma PairFlat(ms: seq<Member>)
    requires |ms| == 2 && IsScalar(ms[0].val) && IsScalar(ms[1].val)
    ensures JsonSink.MembersHeight(ms) == 0
  {
    assert ms[1..][0] == ms[1] && ms[1..][1..] == [];
    assert JsonSink.MembersHeight(ms[1..]) == 0;
  }

  lemma {:induction false} FieldsNesting(env: Env, kids: seq<Node>, d: bytes)
    requires forall k | k in kids :: Narrow(k)
    ensures JsonSink.MembersHeight(Fields(env, kids, d)) <= KidsNesting(kids)
    decreases kids, 0, 0
  {
    if kids != [] {
      hide Decode, JsonSink.Height, Nesting;
      NestingBounds(env, kids[0], d);
      FieldsNesting(env, kids[1..], Drop(d, kids[0].len));
      assert Fields(env, kids, d)[1..] == Fields(env, kids[1..], Drop(d, kids[0].len));
    }
  }

  lemma {:induction false} EntriesNesting(env: Env, sub: Node, d: bytes, count: int)
    requires Narrow(sub)
    ensures JsonSink.ItemsHeight(Entries(env, sub, d, count).0) <= Nesting(sub)
    decreases sub, 2, if count < 0 then 0 else count
  {
    hide Decode, JsonSink.Height, Nesting;
    if !(count <= 0 || (sub.len > 0 && sub.len > |d|)) {
      NestingBounds(env, sub, d);
      EntriesNesting(env, sub, Drop(d, sub.len), count - 1);
      var xs := Entries(env, sub, Drop(d, sub.len), count - 1).0;
      assert ([Decode(env, sub, d)] + xs)[1..] == xs;
    }
  }

  lemma {:induction false} ListNesting(env: Env, kids: seq<Node>, d: bytes, count: int)
    requires forall k | k in kids :: Narrow(k)
    ensures JsonSink.MembersHeight(ListFields(env, kids, d, count)) <= 1 + KidsNesting(kids)
    decreases kids, 0, 0
  {
    if kids != [] {
      hide Decode, Nesting, Entries;
      var sub := kids[0];
      var ms := ListFields(env, kids, d, count);
      if IsCount(sub) {
        var c := ReadInt(Take(d, sub.len), sub.signd);
        ListNesting(env, kids[1..], Drop(d, sub.len), c);
        assert ms[1..] == ListFields(env, kids[1..], Drop(d, sub.len), c);
      } else if sub.kind == Complex {
        EntriesNesting(env, sub, d, count);
        var rest := Entries(env, sub, d, count).1;
        ListNesting(env, kids[1..], rest, count);
        assert ms[1..] == ListFields(env, kids[1..], rest, count);
      } else {
        NestingBounds(env, sub, d);
        ListNesting(env, kids[1..], Drop(d, sub.len), count);
        assert ms[1..] == ListFields(env, kids[1..], Drop(d, sub.len), count);
      }
    }
  }

  lemma {:induction false} RepeatsNesting(env: Env, sub: Node, d: bytes, reps: nat)
    requires Narrow(sub)
    ensures JsonSink.ItemsHeight(Repeats(env, sub, d, reps).0) <= Nesting(sub)
    decreases sub, 2, reps
  {
    hide Decode, JsonSink.Height, Nesting;
    if reps > 0 {
      NestingBounds(env, sub, d);
      RepeatsNesting(env, sub, Drop(d, sub.len), reps - 1);
      var xs := Repeats(env, sub, Drop(d, sub.len), reps - 1).0;
      assert ([Decode(env, sub, d)] + xs)[1..] == xs;
    }
  }

  lemma {:induction false} ArrayNesting(env: Env, kids: seq<Node>, reps: nat, d: bytes)
    requires forall k | k in kids :: Narrow(k)
    ensures JsonSink.MembersHeight(ArrayFields(env, kids, reps, d)) <= 1 + KidsNesting(kids)
    decreases kids, 0, 0
  {
    if kids != [] {
      hide Decode, Nesting, Repeats;
      RepeatsNesting(env, kids[0], d, reps);
      var rest := Repeats(env, kids[0], d, reps).1;
      ArrayNesting(env, kids[1..], reps, rest);
      assert ArrayFields(env, kids, reps, d)[1..] == ArrayFields(env, kids[1..], reps, rest);
    }
  }

  lemma SwitchNesting(env: Env, n: Node, d: bytes)
    requires Narrow(n) && n.kind == Switch
    ensures JsonSink.Height(Decode(env, n, d)) <= Nesting(n)
    decreases n, 0, 0
  {
    hide Decode, PickCase, JsonSink.Height, JsonSink.MembersHeight, Fields, EnumPair;
    var v := if d == [] then 0 else d[0];
    var head := EnumPair(env, n.list, v);
    var pick := PickCase(n.cases, v, true);
    SwitchShape(env, n, d);
    HeadFlat(env, n.list, v);
    if pick.Some? {
      var b := n.kids[pick.value];
      KidNesting(n.kids, pick.value);
      TailNesting(env, b, Drop(d, 1));
      HeightOfConcat(head, SwitchTail(env, b, Drop(d, 1)));
      ObjectHeight(head + SwitchTail(env, b, Drop(d, 1)));
    } else {
      var tail := [Member("Error", VStr("no matching case for ID " + DecInt(v)))];
      OneHeight(tail[0]);
      HeightOfConcat(head, tail);
      ObjectHeight(head + tail);
    }
  }

  lemma HeadFlat(env: Env, list: string, v: int)
    ensures JsonSink.MembersHeight(EnumPair(env, list, v)) == 0
  {
    PairFlat(EnumPair(env, list, v));
  }

  lemma ObjectHeight(ms: seq<Member>)
    ensures JsonSink.Height(VObj(ms)) == 1 + JsonSink.MembersHeight(ms)
  {
  }

  lemma OneHeight(m: Member)
    ensures JsonSink.MembersHeight([m]) == JsonSink.Height(m.val)
    ensures IsScalar(m.val) ==> JsonSink.Height(m.val) == 0
  {
    assert [m][1..] == [];
  }

  lemma TailNesting(env: Env, b: Node, d: bytes)
    requires Narrow(b)
    ensures JsonSink.MembersHeight(SwitchTail(env, b, d)) <= Nesting(b)
    decreases b, 3, 0
  {
    hide Decode;
    if b.kind == Complex {
      FieldsNesting(env, b.kids, d);
    } else {
      NestingBounds(env, b, d);
      OneHeight(Member(b.id, Decode(env, b, d)));
    }
  }

  lemma {:induction false} KidNesting(kids: seq<Node>, i: nat)
    requires i < |kids|
    ensures Nesting(kids[i]) <= KidsNesting(kids)
    decreases i
  {
    if i > 0 {
      KidNesting(kids[1..], i - 1);
    }
  }

  lemma {:induction false} HeightOfConcat(a: seq<Member>, b: seq<Member>)
    ensures JsonSink.MembersHeight(a + b) ==
            JsonSink.Max(JsonSink.MembersHeight(a), JsonSink.MembersHeight(b))
    decreases |a|
  {
    if a == [] {
      assert a + b == b;
    } else {
      assert (a + b)[1..] == a[1..] + b;
      HeightOfConcat(a[1..], b);
    }
  }

  // ---- the two entry points ----

  /** o3e_codec_decode_json, with every allocation granted: the JSON text of the
      decoded value, exactly when no container too deep for commas needs one. */
  method DecodeJson(env: Env, n: Node, d: array<byte>, len: nat, fmt: JsonSink.Formatter) returns (text: string)
    requires Narrow(n) && len <= d.Length && Nesting(n) < 256
    ensures text == JsonSink.Printed(fmt, Decode(env, n, d[..len]), 0)
    ensures text == JsonSink.JsonText(fmt, Decode(env, n, d[..len])) <==>
            JsonSink.Thin(Decode(env, n, d[..len]), 0)
    ensures Nesting(n) <= 15 ==> text == JsonSink.JsonText(fmt, Decode(env, n, d[..len]))
  {
    hide Decode, EventsOf, JsonSink.Run, JsonSink.Printed, JsonSink.JsonText, JsonSink.Thin, Nesting, Narrow;
    var sink := new Sink();
    assert d[..len] == d[0..0 + len];
    DecodeNode(env, n, d, 0, len, sink);
    ghost var v := Decode(env, n, d[..len]);
    assert sink.events == [] + EventsOf(v) == EventsOf(v);
    NestingBounds(env, n, d[..len]);
    var printer := new JsonSink.Printer(fmt);
    JsonSink.ValuePrinted(fmt, v, JsonSink.Start());
    printer.Feed(sink.events);
    text := printer.out;
    JsonSink.PrintedExactly(fmt, v, 0);
    if Nesting(n) < JsonSink.MAX_DEPTH {
      JsonSink.ShallowIsThin(v, 0);
    }
  }

  /** o3e_flatten: the pairs mqttdump() would publish, one per leaf, for nesting
      up to 11 and topics that fit their buffers. */
  method Flatten(env: Env, n: Node, d: array<byte>, len: nat, fmt: JsonSink.Formatter, base: string)
    returns (sent: seq<FlatSink.Pair>)
    requires Narrow(n) && len <= d.Length
    ensures var v := Decode(env, n, d[..len]);
            Nesting(n) <= 11 && FlatSink.Fits(base, "", v) ==>
              sent == FlatSink.Pairs(fmt, base, v) && FlatSink.Carries(fmt, sent, FlatSink.Leaves(v))
  {
    hide Decode, EventsOf, FlatSink.Run, FlatSink.Pairs, FlatSink.Fits, Nesting, Narrow, FlatSink.Leaves;
    var sink := new Sink();
    assert d[..len] == d[0..0 + len];
    DecodeNode(env, n, d, 0, len, sink);
    ghost var v := Decode(env, n, d[..len]);
    assert sink.events == [] + EventsOf(v) == EventsOf(v);
    NestingBounds(env, n, d[..len]);
    var f := new FlatSink.Flattener(fmt, base);
    f.Feed(sink.events);
    sent := f.sent;
    if Nesting(n) < FlatSink.FLAT_DEPTH && FlatSink.Fits(base, "", v) {
      ghost var st := FlatSink.Start();
      FlatSink.ValueFlattened(fmt, base, v, st);
      assert base + "" == base && [] + FlatSink.Pairs(fmt, base, v) == FlatSink.Pairs(fmt, base, v);
      FlatSink.PairsCarryLeaves(fmt, base, v);
    }
  }
}
