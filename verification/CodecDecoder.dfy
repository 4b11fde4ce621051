/** decode_node as the C code runs it: an index walks the payload array and
    every value is handed to the sink as it is found. */
module CodecDecoder {
  import opened Bytes
  import opened Text
  import opened Doubles
  import opened Json
  import opened CodecTree
  import opened CodecDecode
  import opened Events

  // ---- text built up in a buffer ----

  method HexOf(d: array<byte>, at: nat, n: nat) returns (s: string)
    requires at + n <= d.Length
    ensures s == HexText(d[at..at + n])
  {
    hide HexText;
    s := "";
    ghost var t := d[at..at + n];
    assert t[0..] == t;
    for i := 0 to n
      invariant s + HexText(t[i..]) == HexText(t)
    {
      HexFront(t, i);
      var two := [HexDigit(d[at + i] / 16), HexDigit(d[at + i] % 16)];
      assert t[i] == d[at + i];
      assert s + (two + HexText(t[i + 1..])) == s + two + HexText(t[i + 1..]);
      s := s + two;
    }
    HexEnd();
    assert t[n..] == [] && s + "" == s;
  }

  /** app_fmt: append to a bounded buffer, keeping what fits. */
  function AppFmt(buf: string, s: string): string {
    Clip95(buf + s)
  }

  /** "%s%02u" per byte: a colon before all but the first. */
  function TimePart(i: nat, b: byte): string {
    (if i == 0 then "" else ":") + Pad2(b)
  }

  lemma {:induction false} TimeTextAppend(s: bytes, b: byte)
    ensures TimeText(s + [b]) == TimeText(s) + TimePart(|s|, b)
  {
    if |s| == 1 {
      assert (s + [b])[1..] == [b];
    } else if |s| > 1 {
      assert (s + [b])[1..] == s[1..] + [b];
      TimeTextAppend(s[1..], b);
    }
  }

  method TimeOf(d: array<byte>, at: nat, n: nat) returns (s: string)
    requires at + n <= d.Length
    ensures s == Clip95(TimeText(d[at..at + n]))
  {
    s := "";
    var i := 0;
    while i < n
      invariant 0 <= i <= n
      invariant s == Clip95(TimeText(d[at..at + i]))
    {
      TimeTextAppend(d[at..at + i], d[at + i]);
      assert d[at..at + i + 1] == d[at..at + i] + [d[at + i]];
      s := AppFmt(s, TimePart(i, d[at + i]));
      i := i + 1;
    }
  }

  /** What is left of the payload at `idx`. */
  function Rest(avail: nat, idx: nat): nat {
    if idx < avail then avail - idx else 0
  }

  lemma RestIsDrop(s: bytes, idx: nat)
    ensures s[Min(idx, |s|)..] == Drop(s, idx)
    ensures |Drop(s, idx)| == Rest(|s|, idx)
  {
  }

  /** The bytes decode_node is handed at offset `idx`. */
  lemma Window(d: array<byte>, at: nat, avail: nat, idx: nat)
    requires at + avail <= d.Length
    ensures at + Min(idx, avail) + Rest(avail, idx) <= d.Length
    ensures var here := at + Min(idx, avail);
            d[here..here + Rest(avail, idx)] == Drop(d[at..at + avail], idx)
  {
  }

  lemma DropDrop(s: bytes, a: nat, b: nat)
    ensures Drop(Drop(s, a), b) == Drop(s, a + b)
  {
  }

  method EmitPair(env: Env, list: string, v: int, sink: Sink)
    modifies sink
    ensures sink.events == old(sink.events) + MemberEvents(EnumPair(env, list, v))
  {
    sink.Emit(Key("ID"));
    sink.Emit(Leaf(VInt(v)));
    sink.Emit(Key("Text"));
    sink.Emit(Leaf(VStr(EnumShown(env, list, v))));
    var ms := EnumPair(env, list, v);
    assert ms[1..][0] == ms[1] && ms[1..][1..] == [];
    assert MemberEvents(ms[1..]) == [Key("Text")] + EventsOf(ms[1].val) + MemberEvents(ms[1..][1..]);
  }

  lemma MemberEventsConcat(a: seq<Member>, b: seq<Member>)
    ensures MemberEvents(a + b) == MemberEvents(a) + MemberEvents(b)
  {
    if a == [] {
      assert a + b == b;
    } else {
      assert (a + b)[1..] == a[1..] + b;
      MemberEventsConcat(a[1..], b);
    }
  }

  /** Kinds that decode to one scalar. */
  predicate ScalarKind(k: Kind) {
    k !in {DateTime, Enum, Complex, List, Array, Switch}
  }

  method DecodeScalar(env: Env, n: Node, d: array<byte>, at: nat, avail: nat) returns (v: Value)
    requires at + avail <= d.Length && ScalarKind(n.kind)
    ensures v == Decode(env, n, d[at..at + avail])
    ensures IsScalar(v)
  {
    var w := Min(n.len, avail);
    assert Take(d[at..at + avail], n.len) == d[at..at + w];
    match n.kind {
      case Unknown =>
        var t := HexOf(d, at, w);
        v := VStr(t);
      case Raw =>
        var t := HexOf(d, at, w);
        v := VStr(t);
      case Int =>
        var u := ReadUint(d, at, avail, n.len);
        var raw := if n.signd then SignExtend(u, w) else u;
        v := VDbl(RoundDecimals(Quotient(AsDouble(raw as real), n.scale), n.decimals));
      case Float32 =>
        var u := ReadUint(d, at, avail, 4);
        v := VDbl(RoundDecimals(Quotient(env.float32(u), n.scale), n.decimals));
      case CosPhi =>
        var x := if avail >= 2 then d[at + 1] as real else 0.0;
        if avail >= 1 && d[at] == 4 {
          x := -x;
        }
        v := VDbl(RoundDecimals(Quotient(x, n.scale), n.decimals));
      case ByteVal =>
        var u := ReadUint(d, at, avail, n.len);
        v := VInt(AsI64(u));
      case Bool =>
        v := VStr(if avail > 0 && d[at] != 0 then "on" else "off");
      case TextOnly(k) =>
        v := VStr(env.text(k, Take(d[at..at + avail], TextWidth(k, n.len))));
      case Stime =>
        var t := TimeOf(d, at, w);
        v := VStr(if w == 0 then env.unset else t);
    }
  }

  /** The whole of decode_node: reads only d[at..at + avail], emits exactly the
      events of the value those bytes denote. */
  method DecodeNode(env: Env, n: Node, d: array<byte>, at: nat, avail: nat, sink: Sink)
    requires Narrow(n) && at + avail <= d.Length
    modifies sink
    ensures sink.events == old(sink.events) + EventsOf(Decode(env, n, d[at..at + avail]))
    decreases n, 2, 0
  {
    hide Decode, EventsOf;
    if ScalarKind(n.kind) {
      var v := DecodeScalar(env, n, d, at, avail);
      LeafEvents(v);
      sink.Emit(Leaf(v));
      return;
    }
    match n.kind {
      case DateTime =>
        var b := DateBytes(n, d[at..at + avail]);
        DateIsObject(env, n, d[at..at + avail]);
        EmitDate(env.dateText(n.tsFormat, b), env.epochMs(n.tsFormat, b), sink);
      case Enum => DecodeEnum(env, n, d, at, avail, sink);
      case Complex => DecodeComplex(env, n, d, at, avail, sink);
      case List => DecodeList(env, n, d, at, avail, sink);
      case Array => DecodeArray(env, n, d, at, avail, sink);
      case Switch => DecodeSwitch(env, n, d, at, avail, sink);
    }
  }

  method DecodeEnum(env: Env, n: Node, d: array<byte>, at: nat, avail: nat, sink: Sink)
    requires Narrow(n) && n.kind == Enum && at + avail <= d.Length
    modifies sink
    ensures sink.events == old(sink.events) + EventsOf(Decode(env, n, d[at..at + avail]))
  {
    hide Decode, EventsOf, MemberEvents, EnumPair;
    ghost var s := d[at..at + avail];
    EnumIsObject(env, n, s);
    ObjectEvents(EnumPair(env, n.list, AsI64(FromLE(Take(s, n.len)))));
    var u := ReadUint(d, at, avail, n.len);
    sink.Emit(ObjBegin);
    EmitPair(env, n.list, AsI64(u), sink);
    sink.Emit(ObjEnd);
  }

  method DecodeComplex(env: Env, n: Node, d: array<byte>, at: nat, avail: nat, sink: Sink)
    requires Narrow(n) && n.kind == Complex && at + avail <= d.Length
    modifies sink
    ensures sink.events == old(sink.events) + EventsOf(Decode(env, n, d[at..at + avail]))
    decreases n, 1, 0
  {
    hide Decode, EventsOf, MemberEvents, Fields;
    ghost var s := d[at..at + avail];
    ComplexIsObject(env, n, s);
    ObjectEvents(Fields(env, n.kids, s));
    sink.Emit(ObjBegin);
    DecodeFields(env, n.kids, d, at, avail, sink);
    sink.Emit(ObjEnd);
  }

  method EmitDate(text: string, ms: int, sink: Sink)
    modifies sink
    ensures sink.events == old(sink.events) + EventsOf(DateValue(text, ms))
  {
    sink.Emit(ObjBegin);
    sink.Emit(Key("DateTime"));
    sink.Emit(Leaf(VStr(text)));
    sink.Emit(Key("Timestamp"));
    sink.Emit(Leaf(VInt(ms)));
    sink.Emit(ObjEnd);
    DateEvents(text, ms);
  }

  function DateValue(text: string, ms: int): Value {
    VObj([Member("DateTime", VStr(text)), Member("Timestamp", VInt(ms))])
  }

  lemma DateIsObject(env: Env, n: Node, d: bytes)
    requires n.kind == DateTime
    ensures var b := DateBytes(n, d);
            Decode(env, n, d) == DateValue(env.dateText(n.tsFormat, b), env.epochMs(n.tsFormat, b))
  {
  }

  lemma EnumIsObject(env: Env, n: Node, d: bytes)
    requires n.kind == Enum
    ensures Decode(env, n, d) == VObj(EnumPair(env, n.list, AsI64(FromLE(Take(d, n.len)))))
  {
  }

  lemma ComplexIsObject(env: Env, n: Node, d: bytes)
    requires n.kind == Complex
    ensures Decode(env, n, d) == VObj(Fields(env, n.kids, d))
  {
  }

  /** read_int's sign extension of `u`, read from `w` bytes. */
  function SignExtend(u: int, w: nat): int {
    if 0 < w < 8 && u >= Pow256(w) / 2 then u - Pow256(w) else AsI64(u)
  }

  lemma DateEvents(text: string, ms: int)
    ensures EventsOf(DateValue(text, ms)) ==
            [ObjBegin, Key("DateTime"), Leaf(VStr(text)), Key("Timestamp"), Leaf(VInt(ms)), ObjEnd]
  {
    var xs := [Member("DateTime", VStr(text)), Member("Timestamp", VInt(ms))];
    SingleMember(xs[1]);
    assert xs[1..] == [xs[1]];
    assert MemberEvents(xs) == [Key("DateTime")] + [Leaf(VStr(text))] + [Key("Timestamp"), Leaf(VInt(ms))];
  }

  /** What was emitted moves from the expected rest to the front. */
  lemma Absorb<T>(done: seq<T>, k: seq<T>, v: seq<T>, rest: seq<T>, expected: seq<T>, all: seq<T>)
    requires done + expected == all && expected == k + v + rest
    ensures (done + k) + v + rest == all
  {
    assert (done + k) + v + rest == done + (k + v + rest);
  }

  /** The member loop of a complex node, also used for a merged switch branch. */
  method DecodeFields(env: Env, kids: seq<Node>, d: array<byte>, at: nat, avail: nat, sink: Sink)
    requires (forall k | k in kids :: Narrow(k)) && at + avail <= d.Length
    modifies sink
    ensures sink.events == old(sink.events) + MemberEvents(Fields(env, kids, d[at..at + avail]))
    decreases kids, 0, 0
  {
    hide Decode, EventsOf, MemberEvents, Fields, Drop, Min, Rest, Narrow;
    ghost var s := d[at..at + avail];
    ghost var all := sink.events + MemberEvents(Fields(env, kids, s));
    DropNone(s);
    assert kids[0..] == kids;
    var i: nat, idx: nat := 0, 0;
    while i < |kids|
      invariant 0 <= i <= |kids|
      invariant sink.events + MemberEvents(Fields(env, kids[i..], Drop(s, idx))) == all
    {
      var sub := kids[i];
      ghost var done, r := sink.events, Drop(s, idx);
      Window(d, at, avail, idx);
      sink.Emit(Key(sub.id));
      DecodeNode(env, sub, d, at + Min(idx, avail), Rest(avail, idx), sink);
      FieldsFront(env, kids[i..], r);
      DropDrop(s, idx, sub.len);
      assert kids[i..][1..] == kids[i + 1..];
      Absorb(done, [Key(sub.id)], EventsOf(Decode(env, sub, r)),
             MemberEvents(Fields(env, kids[i + 1..], Drop(s, idx + sub.len))),
             MemberEvents(Fields(env, kids[i..], r)), all);
      idx := idx + sub.len;
      i := i + 1;
    }
    NoFields(env, Drop(s, idx));
    assert kids[i..] == [] && sink.events == all;
  }

  lemma DropNone(s: bytes)
    ensures Drop(s, 0) == s
  {
  }

  lemma NoFields(env: Env, d: bytes)
    ensures MemberEvents(Fields(env, [], d)) == []
    ensures forall count :: MemberEvents(ListFields(env, [], d, count)) == []
    ensures forall reps :: MemberEvents(ArrayFields(env, [], reps, d)) == []
  {
  }

  lemma FieldsFront(env: Env, kids: seq<Node>, d: bytes)
    requires kids != []
    ensures MemberEvents(Fields(env, kids, d)) ==
            [Key(kids[0].id)] + EventsOf(Decode(env, kids[0], d)) +
            MemberEvents(Fields(env, kids[1..], Drop(d, kids[0].len)))
  {
    hide Decode;
    assert Fields(env, kids, d)[1..] == Fields(env, kids[1..], Drop(d, kids[0].len));
  }

  method DecodeSwitch(env: Env, n: Node, d: array<byte>, at: nat, avail: nat, sink: Sink)
    requires Narrow(n) && n.kind == Switch && at + avail <= d.Length
    modifies sink
    ensures sink.events == old(sink.events) + EventsOf(Decode(env, n, d[at..at + avail]))
    decreases n, 1, 0
  {
    hide Decode, EventsOf, Fields, MemberEvents, EnumPair, PickCase, SwitchTail, Drop, Min, Rest;
    ghost var s := d[at..at + avail];
    var v := if avail > 0 then d[at] else 0;
    ghost var tail: seq<Member>;
    SwitchShape(env, n, s);
    sink.Emit(ObjBegin);
    EmitPair(env, n.list, v, sink);
    match PickCase(n.cases, v, true) {
      case None =>
        var text := "no matching case for ID " + DecInt(v);
        tail := [Member("Error", VStr(text))];
        EmitMember("Error", VStr(text), sink);
      case Some(i) =>
        var b := n.kids[i];
        assert b in n.kids && Narrow(b);
        tail := SwitchTail(env, b, Drop(s, 1));
        Window(d, at, avail, 1);
        DecodeBranch(env, b, d, at + Min(1, avail), Rest(avail, 1), sink);
    }
    sink.Emit(ObjEnd);
    MemberEventsConcat(EnumPair(env, n.list, v), tail);
    ObjectEvents(EnumPair(env, n.list, v) + tail);
  }

  method EmitMember(key: string, v: Value, sink: Sink)
    requires IsScalar(v)
    modifies sink
    ensures sink.events == old(sink.events) + MemberEvents([Member(key, v)])
  {
    SingleMember(Member(key, v));
    sink.Emit(Key(key));
    sink.Emit(Leaf(v));
  }

  /** A complex branch is merged into the parent, any other becomes a member. */
  method DecodeBranch(env: Env, b: Node, d: array<byte>, at: nat, avail: nat, sink: Sink)
    requires Narrow(b) && at + avail <= d.Length
    modifies sink
    ensures sink.events == old(sink.events) + MemberEvents(SwitchTail(env, b, d[at..at + avail]))
    decreases b, 3, 0
  {
    hide Decode, EventsOf, Fields, MemberEvents;
    if b.kind == Complex {
      DecodeFields(env, b.kids, d, at, avail, sink);
    } else {
      SingleMember(Member(b.id, Decode(env, b, d[at..at + avail])));
      sink.Emit(Key(b.id));
      DecodeNode(env, b, d, at, avail, sink);
    }
  }

  lemma ObjectEvents(ms: seq<Member>)
    ensures EventsOf(VObj(ms)) == [ObjBegin] + MemberEvents(ms) + [ObjEnd]
  {
  }

  lemma ArrayEvents(xs: seq<Value>)
    ensures EventsOf(VArr(xs)) == [ArrBegin] + ItemEvents(xs) + [ArrEnd]
  {
  }

  lemma ListIsObject(env: Env, n: Node, d: bytes)
    requires n.kind == List
    ensures Decode(env, n, d) == VObj(ListFields(env, n.kids, d, 0))
  {
  }

  lemma ArrayIsObject(env: Env, n: Node, d: bytes)
    requires n.kind == Array
    ensures Decode(env, n, d) == VObj(ArrayFields(env, n.kids, n.arrayLen, d))
  {
  }

  lemma LeafEvents(v: Value)
    requires IsScalar(v)
    ensures EventsOf(v) == [Leaf(v)]
  {
  }

  lemma SingleMember(m: Member)
    ensures MemberEvents([m]) == [Key(m.key)] + EventsOf(m.val)
  {
    assert [m][1..] == [];
    assert [Key(m.key)] + EventsOf(m.val) + [] == [Key(m.key)] + EventsOf(m.val);
  }

  method DecodeList(env: Env, n: Node, d: array<byte>, at: nat, avail: nat, sink: Sink)
    requires Narrow(n) && n.kind == List && at + avail <= d.Length
    modifies sink
    ensures sink.events == old(sink.events) + EventsOf(Decode(env, n, d[at..at + avail]))
    decreases n, 1, 0
  {
    hide Decode, EventsOf;
    ghost var s := d[at..at + avail];
    ListIsObject(env, n, s);
    ObjectEvents(ListFields(env, n.kids, s, 0));
    sink.Emit(ObjBegin);
    DecodeListFields(env, n.kids, d, at, avail, sink);
    sink.Emit(ObjEnd);
  }

  predicate CountsNarrow(kids: seq<Node>) {
    forall k | k in kids :: IsCount(k) ==> k.len <= 8
  }

  method DecodeListFields(env: Env, kids: seq<Node>, d: array<byte>, at: nat, avail: nat, sink: Sink)
    requires CountsNarrow(kids) && (forall k | k in kids :: Narrow(k)) && at + avail <= d.Length
    modifies sink
    ensures sink.events == old(sink.events) + MemberEvents(ListFields(env, kids, d[at..at + avail], 0))
    decreases kids, 0, 0
  {
    hide Decode, EventsOf, Entries, ReadInt, SignExtend, MemberEvents, ListFields, Drop, Min, Rest, Take, Narrow;
    ghost var s := d[at..at + avail];
    ghost var all := sink.events + MemberEvents(ListFields(env, kids, s, 0));
    DropNone(s);
    assert kids[0..] == kids;
    var i: nat, idx: nat, count := 0, 0, 0;
    while i < |kids|
      invariant 0 <= i <= |kids|
      invariant sink.events + MemberEvents(ListFields(env, kids[i..], Drop(s, idx), count)) == all
    {
      var sub := kids[i];
      ghost var done, r := sink.events, Drop(s, idx);
      ListFront(env, kids[i..], r, count);
      assert kids[i..][1..] == kids[i + 1..];
      ghost var expected := MemberEvents(ListFields(env, kids[i..], r, count));
      ghost var value: seq<Event>;
      sink.Emit(Key(sub.id));
      if IsCount(sub) {
        count := DecodeCount(sub, d, at, avail, idx, sink);
        value := [Leaf(VInt(count))];
        DropDrop(s, idx, sub.len);
        idx := idx + sub.len;
      } else if sub.kind == Complex {
        value := EventsOf(VArr(Entries(env, sub, r, count).0));
        idx := DecodeArrayOf(env, sub, d, at, avail, idx, count, sink);
      } else {
        value := EventsOf(Decode(env, sub, r));
        Window(d, at, avail, idx);
        DecodeNode(env, sub, d, at + Min(idx, avail), Rest(avail, idx), sink);
        DropDrop(s, idx, sub.len);
        idx := idx + sub.len;
      }
      Absorb(done, [Key(sub.id)], value,
             MemberEvents(ListFields(env, kids[i + 1..], Drop(s, idx), count)), expected, all);
      i := i + 1;
    }
    NoFields(env, Drop(s, idx));
    assert kids[i..] == [] && sink.events == all;
  }

  method DecodeCount(sub: Node, d: array<byte>, at: nat, avail: nat, idx: nat, sink: Sink) returns (count: int)
    requires sub.len <= 8 && at + avail <= d.Length
    modifies sink
    ensures count == ReadInt(Take(Drop(d[at..at + avail], idx), sub.len), sub.signd)
    ensures sink.events == old(sink.events) + [Leaf(VInt(count))]
  {
    RestIsDrop(d[at..at + avail], idx);
    var here := at + Min(idx, avail);
    assert d[here..here + Rest(avail, idx)] == Drop(d[at..at + avail], idx);
    var u := ReadUint(d, here, Rest(avail, idx), sub.len);
    count := if sub.signd then SignExtend(u, Min(sub.len, Rest(avail, idx))) else AsI64(u);
    sink.Emit(Leaf(VInt(count)));
  }

  method DecodeArrayOf(env: Env, sub: Node, d: array<byte>, at: nat, avail: nat, idx0: nat, count: int, sink: Sink)
    returns (idx: nat)
    requires Narrow(sub) && at + avail <= d.Length
    modifies sink
    ensures var s := d[at..at + avail];
            var (xs, rest) := Entries(env, sub, Drop(s, idx0), count);
            sink.events == old(sink.events) + EventsOf(VArr(xs)) && Drop(s, idx) == rest
    decreases sub, 4, 0
  {
    hide Decode, EventsOf, Entries, Drop, ItemEvents, Narrow;
    sink.Emit(ArrBegin);
    ArrayEvents(Entries(env, sub, Drop(d[at..at + avail], idx0), count).0);
    idx := DecodeEntries(env, sub, d, at, avail, idx0, count, sink);
    sink.Emit(ArrEnd);
  }

  /** The next member of a list, whichever of its three forms it has. */
  lemma ListFront(env: Env, kids: seq<Node>, d: bytes, count: int)
    requires kids != []
    ensures var sub := kids[0];
            var c := ReadInt(Take(d, sub.len), sub.signd);
            var (xs, rest) := Entries(env, sub, d, count);
            MemberEvents(ListFields(env, kids, d, count)) ==
            [Key(sub.id)] +
            if IsCount(sub) then
              [Leaf(VInt(c))] + MemberEvents(ListFields(env, kids[1..], Drop(d, sub.len), c))
            else if sub.kind == Complex then
              EventsOf(VArr(xs)) + MemberEvents(ListFields(env, kids[1..], rest, count))
            else
              EventsOf(Decode(env, sub, d)) + MemberEvents(ListFields(env, kids[1..], Drop(d, sub.len), count))
  {
    hide Decode, Entries, EventsOf, MemberEvents, ReadInt, Take, Drop;
    LeafEvents(VInt(ReadInt(Take(d, kids[0].len), kids[0].signd)));
    var ms := ListFields(env, kids, d, count);
    assert ms != [];
    MembersFront(ms);
    assert [Key(ms[0].key)] + EventsOf(ms[0].val) + MemberEvents(ms[1..]) == [Key(ms[0].key)] + (EventsOf(ms[0].val) + MemberEvents(ms[1..]));
    if IsCount(kids[0]) {
      assert ms[1..] == ListFields(env, kids[1..], Drop(d, kids[0].len), ReadInt(Take(d, kids[0].len), kids[0].signd));
    } else if kids[0].kind == Complex {
      assert ms[1..] == ListFields(env, kids[1..], Entries(env, kids[0], d, count).1, count);
    } else {
      assert ms[1..] == ListFields(env, kids[1..], Drop(d, kids[0].len), count);
    }
  }

  method DecodeEntries(env: Env, sub: Node, d: array<byte>, at: nat, avail: nat, idx0: nat, count: int, sink: Sink)
    returns (idx: nat)
    requires Narrow(sub) && at + avail <= d.Length
    modifies sink
    ensures var s := d[at..at + avail];
            var (xs, rest) := Entries(env, sub, Drop(s, idx0), count);
            sink.events == old(sink.events) + ItemEvents(xs) && Drop(s, idx) == rest
    decreases sub, 3, 0
  {
    hide Decode, EventsOf, ItemEvents, Entries, Drop, Min, Rest, Narrow;
    ghost var s := d[at..at + avail];
    ghost var all := Entries(env, sub, Drop(s, idx0), count);
    ghost var events := sink.events + ItemEvents(all.0);
    idx := idx0;
    var k := 0;
    while k < count
      invariant sink.events + ItemEvents(Entries(env, sub, Drop(s, idx), count - k).0) == events
      invariant Entries(env, sub, Drop(s, idx), count - k).1 == all.1
      decreases count - k
    {
      DropLength(s, idx);
      if sub.len > 0 && idx + sub.len > avail {
        break;
      }
      ghost var done, r := sink.events, Drop(s, idx);
      Window(d, at, avail, idx);
      DecodeNode(env, sub, d, at + Min(idx, avail), Rest(avail, idx), sink);
      EntriesFront(env, sub, r, count - k);
      DropDrop(s, idx, sub.len);
      Absorb(done, EventsOf(Decode(env, sub, r)), [],
             ItemEvents(Entries(env, sub, Drop(s, idx + sub.len), count - k - 1).0),
             ItemEvents(Entries(env, sub, r, count - k).0), events);
      assert (done + EventsOf(Decode(env, sub, r))) + [] == sink.events;
      idx := idx + sub.len;
      k := k + 1;
    }
    EntriesEnd(env, sub, Drop(s, idx), count - k);
    assert sink.events == events;
  }

  lemma ItemFront(x: Value, xs: seq<Value>)
    ensures ItemEvents([x] + xs) == EventsOf(x) + ItemEvents(xs)
  {
    assert ([x] + xs)[1..] == xs;
  }

  lemma DropLength(s: bytes, idx: nat)
    ensures |Drop(s, idx)| == if idx <= |s| then |s| - idx else 0
  {
  }

  lemma EntriesEnd(env: Env, sub: Node, d: bytes, count: int)
    requires count <= 0 || (sub.len > 0 && sub.len > |d|)
    ensures Entries(env, sub, d, count) == ([], d) && ItemEvents([]) == []
  {
  }

  lemma EntriesFront(env: Env, sub: Node, d: bytes, count: int)
    requires count > 0 && !(sub.len > 0 && sub.len > |d|)
    ensures var (xs, rest) := Entries(env, sub, Drop(d, sub.len), count - 1);
            var (ys, rest') := Entries(env, sub, d, count);
            ItemEvents(ys) == EventsOf(Decode(env, sub, d)) + ItemEvents(xs) && rest' == rest
  {
    hide Decode, EventsOf;
    var (xs, rest) := Entries(env, sub, Drop(d, sub.len), count - 1);
    assert Entries(env, sub, d, count) == ([Decode(env, sub, d)] + xs, rest);
    ItemFront(Decode(env, sub, d), xs);
  }

  method DecodeArray(env: Env, n: Node, d: array<byte>, at: nat, avail: nat, sink: Sink)
    requires Narrow(n) && n.kind == Array && at + avail <= d.Length
    modifies sink
    ensures sink.events == old(sink.events) + EventsOf(Decode(env, n, d[at..at + avail]))
    decreases n, 1, 0
  {
    hide Decode, EventsOf, Repeats, MemberEvents, ArrayFields, Drop;
    ghost var s := d[at..at + avail];
    ArrayIsObject(env, n, s);
    ObjectEvents(ArrayFields(env, n.kids, n.arrayLen, s));
    sink.Emit(ObjBegin);
    ghost var all := sink.events + MemberEvents(ArrayFields(env, n.kids, n.arrayLen, s));
    DropNone(s);
    assert n.kids[0..] == n.kids;
    var i: nat, idx: nat := 0, 0;
    while i < |n.kids|
      invariant 0 <= i <= |n.kids|
      invariant sink.events + MemberEvents(ArrayFields(env, n.kids[i..], n.arrayLen, Drop(s, idx))) == all
    {
      var sub := n.kids[i];
      assert Narrow(sub) && n.kids[i..][1..] == n.kids[i + 1..];
      ghost var done, r := sink.events, Drop(s, idx);
      ArrayFront(env, n.kids[i..], n.arrayLen, r);
      ghost var expected := MemberEvents(ArrayFields(env, n.kids[i..], n.arrayLen, r));
      sink.Emit(Key(sub.id));
      idx := DecodeRepeats(env, sub, d, at, avail, idx, n.arrayLen, sink);
      Absorb(done, [Key(sub.id)], EventsOf(VArr(Repeats(env, sub, r, n.arrayLen).0)),
             MemberEvents(ArrayFields(env, n.kids[i + 1..], n.arrayLen, Drop(s, idx))), expected, all);
      i := i + 1;
    }
    NoFields(env, Drop(s, idx));
    assert n.kids[i..] == [] && sink.events == all;
    sink.Emit(ObjEnd);
  }

  lemma ArrayFront(env: Env, kids: seq<Node>, reps: nat, d: bytes)
    requires kids != []
    ensures var (xs, rest) := Repeats(env, kids[0], d, reps);
            MemberEvents(ArrayFields(env, kids, reps, d)) ==
            [Key(kids[0].id)] + EventsOf(VArr(xs)) + MemberEvents(ArrayFields(env, kids[1..], reps, rest))
  {
    hide Repeats;
    var rest := Repeats(env, kids[0], d, reps).1;
    assert ArrayFields(env, kids, reps, d)[1..] == ArrayFields(env, kids[1..], reps, rest);
  }

  method DecodeRepeats(env: Env, sub: Node, d: array<byte>, at: nat, avail: nat, idx0: nat, reps: nat, sink: Sink)
    returns (idx: nat)
    requires Narrow(sub) && at + avail <= d.Length
    modifies sink
    ensures var s := d[at..at + avail];
            var (xs, rest) := Repeats(env, sub, Drop(s, idx0), reps);
            sink.events == old(sink.events) + EventsOf(VArr(xs)) && Drop(s, idx) == rest
    decreases sub, 3, 0
  {
    hide Decode, EventsOf, ItemEvents, Repeats, Drop, Min, Rest, Narrow;
    ghost var s := d[at..at + avail];
    ghost var all := Repeats(env, sub, Drop(s, idx0), reps);
    ArrayEvents(all.0);
    sink.Emit(ArrBegin);
    ghost var events := sink.events + ItemEvents(all.0);
    idx := idx0;
    var k := 0;
    while k < reps
      invariant 0 <= k <= reps
      invariant sink.events + ItemEvents(Repeats(env, sub, Drop(s, idx), reps - k).0) == events
      invariant Repeats(env, sub, Drop(s, idx), reps - k).1 == all.1
    {
      ghost var done, r := sink.events, Drop(s, idx);
      Window(d, at, avail, idx);
      DecodeNode(env, sub, d, at + Min(idx, avail), Rest(avail, idx), sink);
      RepeatsFront(env, sub, r, reps - k);
      DropDrop(s, idx, sub.len);
      Absorb(done, EventsOf(Decode(env, sub, r)), [],
             ItemEvents(Repeats(env, sub, Drop(s, idx + sub.len), reps - k - 1).0),
             ItemEvents(Repeats(env, sub, r, reps - k).0), events);
      assert (done + EventsOf(Decode(env, sub, r))) + [] == sink.events;
      idx := idx + sub.len;
      k := k + 1;
    }
    RepeatsEnd(env, sub, Drop(s, idx));
    assert sink.events == events;
    sink.Emit(ArrEnd);
  }

  lemma RepeatsEnd(env: Env, sub: Node, d: bytes)
    ensures Repeats(env, sub, d, 0) == ([], d) && ItemEvents([]) == []
  {
  }

  lemma RepeatsFront(env: Env, sub: Node, d: bytes, reps: nat)
    requires reps > 0
    ensures var (xs, rest) := Repeats(env, sub, Drop(d, sub.len), reps - 1);
            var (ys, rest') := Repeats(env, sub, d, reps);
            ItemEvents(ys) == EventsOf(Decode(env, sub, d)) + ItemEvents(xs) && rest' == rest
  {
    hide Decode, EventsOf;
    var (xs, rest) := Repeats(env, sub, Drop(d, sub.len), reps - 1);
    assert Repeats(env, sub, d, reps) == ([Decode(env, sub, d)] + xs, rest);
    ItemFront(Decode(env, sub, d), xs);
  }
}
