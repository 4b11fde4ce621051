/** The flattener: one topic per leaf, with a path buffer, a mark per level and
    a running index per array (main/o3e_flatten.c), against mqttdump(). */
module FlatSink {
  import opened Text
  import opened Json
  import opened Events
  import JsonSink
  import JsonReader
  import DecimalLayout

  const FLAT_DEPTH := 12
  const PATH_MAX := 255
  const TOPIC_MAX := 383

  type Pair = (string, string)

  /** A leaf as it is published, without quotes. */
  function LeafText(fmt: JsonSink.Formatter, v: Value): string {
    match v
    case VInt(i) => DecInt(i)
    case VDbl(r) => fmt(r)
    case VStr(s) => s
    case _ => "None"
  }

  // ---- mqttdump(): what the pairs ought to be ----

  function Pairs(fmt: JsonSink.Formatter, topic: string, v: Value): seq<Pair>
    decreases v, 0
  {
    match v
    case VObj(ms) => MemberPairs(fmt, topic, ms)
    case VArr(xs) => ItemPairs(fmt, topic, xs, 0)
    case _ => [(topic, LeafText(fmt, v))]
  }

  function MemberPairs(fmt: JsonSink.Formatter, topic: string, ms: seq<Member>): seq<Pair>
    decreases ms, 0
  {
    if ms == [] then []
    else Pairs(fmt, topic + "/" + ms[0].key, ms[0].val) + MemberPairs(fmt, topic, ms[1..])
  }

  function ItemPairs(fmt: JsonSink.Formatter, topic: string, xs: seq<Value>, k: nat): seq<Pair>
    decreases xs, 0
  {
    if xs == [] then []
    else Pairs(fmt, topic + "/" + Dec(k), xs[0]) + ItemPairs(fmt, topic, xs[1..], k + 1)
  }

  /** Every path fits its buffer and every topic of a leaf fits its own. */
  predicate Fits(base: string, path: string, v: Value)
    decreases v, 0
  {
    |path| <= 255 &&
    match v
    case VObj(ms) => FitsMembers(base, path, ms)
    case VArr(xs) => FitsItems(base, path, xs, 0)
    case _ => |base| + |path| <= 383
  }

  predicate FitsMembers(base: string, path: string, ms: seq<Member>)
    decreases ms, 0
  {
    ms == [] || (Fits(base, path + "/" + ms[0].key, ms[0].val) && FitsMembers(base, path, ms[1..]))
  }

  predicate FitsItems(base: string, path: string, xs: seq<Value>, k: nat)
    decreases xs, 0
  {
    xs == [] || (Fits(base, path + "/" + Dec(k), xs[0]) && FitsItems(base, path, xs[1..], k + 1))
  }

  // ---- the sink's state, event by event ----

  /** flat_ctx_t. */
  datatype State = State(path: string, depth: nat, mark: seq<nat>, index: seq<nat>,
                         inArr: seq<bool>, sent: seq<Pair>)

  predicate Shaped(st: State) {
    |st.mark| == FLAT_DEPTH && |st.index| == FLAT_DEPTH && |st.inArr| == FLAT_DEPTH
  }

  function Start(): State {
    State("", 0, seq(FLAT_DEPTH, i => 0), seq(FLAT_DEPTH, i => 0), seq(FLAT_DEPTH, i => false), [])
  }

  function Clip(s: string, n: nat): string {
    if |s| <= n then s else s[..n]
  }

  function Append(st: State, seg: string): State {
    st.(path := Clip(st.path + "/" + seg, PATH_MAX))
  }

  /** flat_enter: array elements append their index here, members did so at the key. */
  function Enter(st: State): (r: State)
    requires Shaped(st)
    ensures Shaped(r)
  {
    var d := st.depth;
    if d < FLAT_DEPTH && st.inArr[d] then
      Append(st, Dec(st.index[d])).(index := st.index[d := st.index[d] + 1], mark := st.mark[d := |st.path|])
    else st
  }

  /** flat_leave: back to where this value's segment began. Cutting at a mark
      beyond the end leaves the text as it is. */
  function Leave(st: State): (r: State)
    requires Shaped(st)
    ensures Shaped(r)
  {
    if st.depth < FLAT_DEPTH then st.(path := Clip(st.path, st.mark[st.depth])) else st
  }

  function Open(st: State, isArray: bool): (r: State)
    requires Shaped(st)
    ensures Shaped(r)
  {
    var e := Enter(st);
    var d := e.depth + 1;
    if d < FLAT_DEPTH then
      e.(depth := d, inArr := e.inArr[d := isArray], index := e.index[d := 0], mark := e.mark[d := |e.path|])
    else e.(depth := d)
  }

  function Close(st: State): (r: State)
    requires Shaped(st)
    ensures Shaped(r)
  {
    Leave(if st.depth > 0 then st.(depth := st.depth - 1) else st)
  }

  function Emit(st: State, base: string, text: string): State {
    st.(sent := st.sent + [(Clip(base + st.path, TOPIC_MAX), text)])
  }

  function Step(fmt: JsonSink.Formatter, base: string, st: State, e: Event): (r: State)
    requires Shaped(st)
    ensures Shaped(r)
  {
    match e
    case ObjBegin => Open(st, false)
    case ObjEnd => Close(st)
    case ArrBegin => Open(st, true)
    case ArrEnd => Close(st)
    case Key(k) =>
      Append(if st.depth < FLAT_DEPTH then st.(mark := st.mark[st.depth := |st.path|]) else st, k)
    case Leaf(v) => Leave(Emit(Enter(st), base, LeafText(fmt, v)))
  }

  function Run(fmt: JsonSink.Formatter, base: string, st: State, es: seq<Event>): (r: State)
    requires Shaped(st)
    ensures Shaped(r)
    decreases |es|
  {
    if es == [] then st else Run(fmt, base, Step(fmt, base, st, es[0]), es[1..])
  }

  lemma {:induction false} RunConcat(fmt: JsonSink.Formatter, base: string, st: State, a: seq<Event>, b: seq<Event>)
    requires Shaped(st)
    ensures Run(fmt, base, st, a + b) == Run(fmt, base, Run(fmt, base, st, a), b)
    decreases |a|
  {
    if a == [] {
      assert a + b == b;
    } else {
      assert (a + b)[1..] == a[1..] + b;
      RunConcat(fmt, base, Step(fmt, base, st, a[0]), a[1..], b);
    }
  }

  lemma RunOne(fmt: JsonSink.Formatter, base: string, st: State, e: Event)
    requires Shaped(st)
    ensures Run(fmt, base, st, [e]) == Step(fmt, base, st, e)
  {
    assert [e][1..] == [];
  }

  /** `b` has sent `more` than `a`, stands at `path`, and everything at or above
      its depth is as in `a`. */
  ghost predicate Flattened(a: State, more: seq<Pair>, path: string, b: State) {
    && Shaped(a) && Shaped(b) && b.depth == a.depth && a.depth < FLAT_DEPTH
    && b.sent == a.sent + more && b.path == path
    && (forall i :: 0 <= i < FLAT_DEPTH && i <= a.depth ==> b.inArr[i] == a.inArr[i])
    && (forall i :: 0 <= i < FLAT_DEPTH && i < a.depth ==> b.mark[i] == a.mark[i])
    && (forall i :: 0 <= i < FLAT_DEPTH && i <= a.depth ==> b.index[i] == a.index[i])
  }

  /** The value about to be sent stands at `e.path`, its segment at the mark. */
  ghost predicate Standing(e: State) {
    Shaped(e) && e.depth < FLAT_DEPTH && e.mark[e.depth] <= |e.path|
  }

  /** Flattening a value's events sends exactly its pairs, under the path it
      stands at once entered, and cuts the path back to its mark. */
  lemma {:induction false} ValueFlattened(fmt: JsonSink.Formatter, base: string, v: Value, st: State)
    requires Shaped(st) && Standing(Enter(st)) && st.depth + JsonSink.Height(v) < FLAT_DEPTH
    requires Fits(base, Enter(st).path, v)
    ensures var e := Enter(st);
            Flattened(e, Pairs(fmt, base + e.path, v), e.path[..e.mark[e.depth]],
                      Run(fmt, base, st, EventsOf(v)))
    decreases v, 1
  {
    var e := Enter(st);
    match v {
      case VObj(ms) => ObjectFlattened(fmt, base, ms, st);
      case VArr(xs) => ArrayFlattened(fmt, base, xs, st);
      case _ =>
        RunOne(fmt, base, st, Leaf(v));
    }
  }

  lemma Bracketed(fmt: JsonSink.Formatter, base: string, st: State, open: Event, es: seq<Event>, close: Event)
    requires Shaped(st)
    ensures Run(fmt, base, st, [open] + es + [close]) ==
            Step(fmt, base, Run(fmt, base, Step(fmt, base, st, open), es), close)
  {
    hide Step;
    RunConcat(fmt, base, st, [open] + es, [close]);
    RunConcat(fmt, base, st, [open], es);
    RunOne(fmt, base, st, open);
    RunOne(fmt, base, Run(fmt, base, Step(fmt, base, st, open), es), close);
  }

  /** Contents flattened one level down, then closed. */
  lemma Enclosed(st: State, isArray: bool, more: seq<Pair>, b: State)
    requires Shaped(st) && Standing(Enter(st)) && st.depth + 1 < FLAT_DEPTH
    requires var a := Open(st, isArray);
             && Shaped(b) && b.depth == a.depth && b.sent == a.sent + more && b.path == a.path
             && (forall i :: 0 <= i < a.depth ==>
                  b.inArr[i] == a.inArr[i] && b.mark[i] == a.mark[i] && b.index[i] == a.index[i])
    ensures var e := Enter(st);
            Flattened(e, more, e.path[..e.mark[e.depth]], Close(b))
  {
  }

  lemma ObjectFlattened(fmt: JsonSink.Formatter, base: string, ms: seq<Member>, st: State)
    requires Shaped(st) && Standing(Enter(st)) && st.depth + 1 + JsonSink.MembersHeight(ms) < FLAT_DEPTH
    requires FitsMembers(base, Enter(st).path, ms)
    ensures var e := Enter(st);
            Flattened(e, MemberPairs(fmt, base + e.path, ms), e.path[..e.mark[e.depth]],
                      Run(fmt, base, st, EventsOf(VObj(ms))))
    decreases ms, 2
  {
    var a := Open(st, false);
    assert !a.inArr[a.depth] && a.path == Enter(st).path;
    hide Run, Open, Enter, Close, MemberPairs, FitsMembers, JsonSink.MembersHeight, MemberEvents;
    MembersFlattened(fmt, base, ms, a);
    Bracketed(fmt, base, st, ObjBegin, MemberEvents(ms), ObjEnd);
    Enclosed(st, false, MemberPairs(fmt, base + a.path, ms), Run(fmt, base, a, MemberEvents(ms)));
  }

  lemma ArrayFlattened(fmt: JsonSink.Formatter, base: string, xs: seq<Value>, st: State)
    requires Shaped(st) && Standing(Enter(st)) && st.depth + 1 + JsonSink.ItemsHeight(xs) < FLAT_DEPTH
    requires FitsItems(base, Enter(st).path, xs, 0)
    ensures var e := Enter(st);
            Flattened(e, ItemPairs(fmt, base + e.path, xs, 0), e.path[..e.mark[e.depth]],
                      Run(fmt, base, st, EventsOf(VArr(xs))))
    decreases xs, 2
  {
    var a := Open(st, true);
    assert a.inArr[a.depth] && a.path == Enter(st).path && a.index[a.depth] == 0;
    hide Run, Open, Enter, Close, ItemPairs, FitsItems, JsonSink.ItemsHeight, ItemEvents;
    ItemsFlattened(fmt, base, xs, a, 0);
    Bracketed(fmt, base, st, ArrBegin, ItemEvents(xs), ArrEnd);
    Enclosed(st, true, ItemPairs(fmt, base + a.path, xs, 0), Run(fmt, base, a, ItemEvents(xs)));
  }

  /** Members leave the path and everything above as it was. */
  ghost predicate Contents(a: State, more: seq<Pair>, b: State) {
    && Shaped(a) && Shaped(b) && b.depth == a.depth < FLAT_DEPTH && b.sent == a.sent + more && b.path == a.path
    && (forall i :: 0 <= i <= a.depth ==> b.inArr[i] == a.inArr[i])
    && (forall i :: 0 <= i < a.depth ==> b.mark[i] == a.mark[i] && b.index[i] == a.index[i])
  }

  lemma {:induction false} MembersFlattened(fmt: JsonSink.Formatter, base: string, ms: seq<Member>, st: State)
    requires Shaped(st) && st.depth + JsonSink.MembersHeight(ms) < FLAT_DEPTH && !st.inArr[st.depth]
    requires FitsMembers(base, st.path, ms)
    ensures Contents(st, MemberPairs(fmt, base + st.path, ms), Run(fmt, base, st, MemberEvents(ms)))
    decreases ms, 0
  {
    if ms != [] {
      var key := ms[0].key;
      var a := Step(fmt, base, st, Key(key));
      MemberRun(fmt, base, ms, st);
      JsonSink.MemberHeights(ms);
      FitsFront(base, st.path, ms);
      assert Enter(a) == a && a.path == st.path + "/" + key && a.mark[a.depth] == |st.path|;
      assert base + (st.path + "/" + key) == base + st.path + "/" + key;
      hide Run, Step, Pairs, Fits, FitsMembers, JsonSink.MembersHeight, JsonSink.Height;
      ValueFlattened(fmt, base, ms[0].val, a);
      var b := Run(fmt, base, a, EventsOf(ms[0].val));
      assert a.path[..|st.path|] == st.path;
      assert Contents(st, Pairs(fmt, base + a.path, ms[0].val), b);
      hide Flattened, MemberPairs;
      MembersFlattened(fmt, base, ms[1..], b);
      Joined(st, Pairs(fmt, base + a.path, ms[0].val), b, MemberPairs(fmt, base + st.path, ms[1..]),
             Run(fmt, base, b, MemberEvents(ms[1..])));
      MemberPairsFront(fmt, base + st.path, ms);
    }
  }

  lemma MemberPairsFront(fmt: JsonSink.Formatter, topic: string, ms: seq<Member>)
    requires ms != []
    ensures MemberPairs(fmt, topic, ms) ==
            Pairs(fmt, topic + "/" + ms[0].key, ms[0].val) + MemberPairs(fmt, topic, ms[1..])
  {
  }

  lemma FitsFront(base: string, path: string, ms: seq<Member>)
    requires ms != [] && FitsMembers(base, path, ms)
    ensures Fits(base, path + "/" + ms[0].key, ms[0].val) && FitsMembers(base, path, ms[1..])
    ensures |path + "/" + ms[0].key| <= 255
  {
  }

  lemma MemberRun(fmt: JsonSink.Formatter, base: string, ms: seq<Member>, st: State)
    requires ms != [] && Shaped(st)
    ensures Run(fmt, base, st, MemberEvents(ms)) ==
            Run(fmt, base, Run(fmt, base, Step(fmt, base, st, Key(ms[0].key)), EventsOf(ms[0].val)),
                MemberEvents(ms[1..]))
  {
    hide Step;
    RunConcat(fmt, base, st, [Key(ms[0].key)] + EventsOf(ms[0].val), MemberEvents(ms[1..]));
    RunConcat(fmt, base, st, [Key(ms[0].key)], EventsOf(ms[0].val));
    RunOne(fmt, base, st, Key(ms[0].key));
  }

  lemma {:induction false} ItemsFlattened(fmt: JsonSink.Formatter, base: string, xs: seq<Value>, st: State, k: nat)
    requires Shaped(st) && st.depth + JsonSink.ItemsHeight(xs) < FLAT_DEPTH && st.inArr[st.depth]
    requires st.index[st.depth] == k && FitsItems(base, st.path, xs, k)
    ensures Contents(st, ItemPairs(fmt, base + st.path, xs, k), Run(fmt, base, st, ItemEvents(xs)))
    decreases xs, 0
  {
    if xs != [] {
      hide Run, Pairs, Fits, Dec, JsonSink.Height, Enter, Flattened, ItemPairs;
      var e := Enter(st);
      RunConcat(fmt, base, st, EventsOf(xs[0]), ItemEvents(xs[1..]));
      EnteredAt(base, st, xs[0], k);
      ValueFlattened(fmt, base, xs[0], st);
      var b := Run(fmt, base, st, EventsOf(xs[0]));
      NextItem(fmt, base, xs, st, k, b);
      ItemsFlattened(fmt, base, xs[1..], b, k + 1);
      Joined(st, Pairs(fmt, base + e.path, xs[0]), b, ItemPairs(fmt, base + st.path, xs[1..], k + 1),
             Run(fmt, base, b, ItemEvents(xs[1..])));
      ItemPairsFront(fmt, base + st.path, xs, k);
    }
  }

  /** Where the k-th element of an array stands. */
  lemma EnteredAt(base: string, st: State, v: Value, k: nat)
    requires Shaped(st) && st.depth < FLAT_DEPTH && st.inArr[st.depth] && st.index[st.depth] == k
    requires Fits(base, st.path + "/" + Dec(k), v)
    ensures var e := Enter(st);
      && e.path == st.path + "/" + Dec(k) && e.depth == st.depth && e.mark[e.depth] == |st.path| && Standing(e)
      && e.path[..|st.path|] == st.path && base + e.path == base + st.path + "/" + Dec(k)
  {
    hide Dec;
    FitsHere(base, st.path, v, k);
    assert base + (st.path + "/" + Dec(k)) == base + st.path + "/" + Dec(k);
  }

  lemma ItemPairsFront(fmt: JsonSink.Formatter, topic: string, xs: seq<Value>, k: nat)
    requires xs != []
    ensures ItemPairs(fmt, topic, xs, k) ==
            Pairs(fmt, topic + "/" + Dec(k), xs[0]) + ItemPairs(fmt, topic, xs[1..], k + 1)
  {
  }

  /** After one element: the same place, the next index, the rest still fits. */
  lemma NextItem(fmt: JsonSink.Formatter, base: string, xs: seq<Value>, st: State, k: nat, b: State)
    requires Shaped(st) && st.depth + JsonSink.ItemsHeight(xs) < FLAT_DEPTH && st.inArr[st.depth] && xs != []
    requires st.index[st.depth] == k && FitsItems(base, st.path, xs, k)
    requires Flattened(Enter(st), Pairs(fmt, base + Enter(st).path, xs[0]), st.path, b)
    ensures Contents(st, Pairs(fmt, base + Enter(st).path, xs[0]), b)
    ensures b.depth + JsonSink.ItemsHeight(xs[1..]) < FLAT_DEPTH && b.inArr[b.depth]
    ensures b.index[b.depth] == k + 1 && FitsItems(base, b.path, xs[1..], k + 1)
  {
    hide Pairs, Fits, Dec;
  }

  lemma Joined(a: State, m: seq<Pair>, b: State, m': seq<Pair>, c: State)
    requires Contents(a, m, b) && Contents(b, m', c)
    ensures Contents(a, m + m', c)
  {
  }

  lemma FitsHere(base: string, path: string, v: Value, k: nat)
    requires Fits(base, path + "/" + Dec(k), v)
    ensures |path + "/" + Dec(k)| <= 255
  {
  }

  // ---- the two modes carry the same leaves ----

  /** The scalars of a value, in order. */
  function Leaves(v: Value): seq<Value>
    decreases v, 0
  {
    match v
    case VObj(ms) => MemberLeaves(ms)
    case VArr(xs) => ItemLeaves(xs)
    case _ => [v]
  }

  function MemberLeaves(ms: seq<Member>): seq<Value>
    decreases ms, 0
  {
    if ms == [] then [] else Leaves(ms[0].val) + MemberLeaves(ms[1..])
  }

  function ItemLeaves(xs: seq<Value>): seq<Value>
    decreases xs, 0
  {
    if xs == [] then [] else Leaves(xs[0]) + ItemLeaves(xs[1..])
  }

  /** Digits without a superfluous zero, behind a minus sign if negative. */
  predicate PlainInteger(text: string, negative: bool) {
    var n := if negative then 1 else 0;
    && |text| > n && (negative ==> text[0] == '-')
    && (forall k | n <= k < |text| :: IsDigit(text[k]))
    && (|text| > n + 1 ==> text[n] != '0')
  }

  /** The text is str(leaf): a string as it is, an integer in decimal, a double as
      the formatter has it, null as None. */
  predicate Says(fmt: JsonSink.Formatter, text: string, leaf: Value) {
    match leaf
    case VStr(s) => text == s
    case VInt(i) => PlainInteger(text, i < 0) && DecimalLayout.Denoted(text) == i as real
    case VDbl(r) => text == fmt(r)
    case VNull => text == "None"
    case _ => true
  }

  /** One pair for each leaf, with its text. */
  ghost predicate Carries(fmt: JsonSink.Formatter, ps: seq<Pair>, ls: seq<Value>) {
    |ps| == |ls| && forall i :: 0 <= i < |ls| ==> Says(fmt, ps[i].1, ls[i])
  }

  lemma LeafSaid(fmt: JsonSink.Formatter, v: Value)
    ensures Says(fmt, LeafText(fmt, v), v)
  {
    hide DecimalLayout.Denoted, Dec;
    if v.VInt? {
      JsonReader.IntegerDenotes(v.i);
      NoZeroInFront(if v.i < 0 then -v.i else v.i);
    }
  }


  lemma {:induction false} PairsCarryLeaves(fmt: JsonSink.Formatter, topic: string, v: Value)
    ensures Carries(fmt, Pairs(fmt, topic, v), Leaves(v))
    decreases v, 1
  {
    match v {
      case VObj(ms) => MemberPairsCarry(fmt, topic, ms);
      case VArr(xs) => ItemPairsCarry(fmt, topic, xs, 0);
      case _ => LeafSaid(fmt, v);
    }
  }

  lemma {:induction false} MemberPairsCarry(fmt: JsonSink.Formatter, topic: string, ms: seq<Member>)
    ensures Carries(fmt, MemberPairs(fmt, topic, ms), MemberLeaves(ms))
    decreases ms, 0
  {
    if ms != [] {
      PairsCarryLeaves(fmt, topic + "/" + ms[0].key, ms[0].val);
      MemberPairsCarry(fmt, topic, ms[1..]);
    }
  }

  lemma {:induction false} ItemPairsCarry(fmt: JsonSink.Formatter, topic: string, xs: seq<Value>, k: nat)
    ensures Carries(fmt, ItemPairs(fmt, topic, xs, k), ItemLeaves(xs))
    decreases xs, 0
  {
    if xs != [] {
      PairsCarryLeaves(fmt, topic + "/" + Dec(k), xs[0]);
      ItemPairsCarry(fmt, topic, xs[1..], k + 1);
    }
  }

  /** A member's pairs come behind those of the members before it, below its key. */
  lemma {:induction false} MemberPairsAt(fmt: JsonSink.Formatter, topic: string, ms: seq<Member>, i: nat)
    requires i < |ms|
    ensures MemberPairs(fmt, topic, ms) ==
      MemberPairs(fmt, topic, ms[..i]) + Pairs(fmt, topic + "/" + ms[i].key, ms[i].val) + MemberPairs(fmt, topic, ms[i + 1..])
    decreases |ms|
  {
    hide Pairs;
    var first := Pairs(fmt, topic + "/" + ms[0].key, ms[0].val);
    if i > 0 {
      MemberPairsAt(fmt, topic, ms[1..], i - 1);
      assert ms[1..][..i - 1] == ms[..i][1..] && ms[1..][i..] == ms[i + 1..];
      assert MemberPairs(fmt, topic, ms[..i]) == first + MemberPairs(fmt, topic, ms[..i][1..]);
    } else {
      assert MemberPairs(fmt, topic, ms[..0]) == [];
    }
  }

  /** An item's pairs lie below its index in decimal, counted from 0. */
  lemma {:induction false} ItemPairsAt(fmt: JsonSink.Formatter, topic: string, xs: seq<Value>, k: nat, i: nat)
    requires i < |xs|
    ensures PlainInteger(Dec(k + i), false) && DigitsVal(Dec(k + i)) == k + i
    ensures ItemPairs(fmt, topic, xs, k) ==
      ItemPairs(fmt, topic, xs[..i], k) + Pairs(fmt, topic + "/" + Dec(k + i), xs[i]) + ItemPairs(fmt, topic, xs[i + 1..], k + i + 1)
    decreases |xs|
  {
    hide Pairs, Dec, DigitsVal;
    DecDenotes(k + i);
    NoZeroInFront(k + i);
    var first := Pairs(fmt, topic + "/" + Dec(k), xs[0]);
    if i > 0 {
      ItemPairsAt(fmt, topic, xs[1..], k + 1, i - 1);
      assert xs[1..][..i - 1] == xs[..i][1..] && xs[1..][i..] == xs[i + 1..];
      assert ItemPairs(fmt, topic, xs[..i], k) == first + ItemPairs(fmt, topic, xs[..i][1..], k + 1);
    } else {
      assert ItemPairs(fmt, topic, xs[..0], k) == [];
    }
  }

  // ---- where the buffers end ----

  /** The first n characters, or all of them. */
  predicate CutTo(s: string, whole: string, n: nat) {
    s <= whole && |s| == if |whole| <= n then |whole| else n
  }

  /** A path has room for 255 characters and a topic for 383, and an array's index is
      known down to the twelfth level: what a leaf and a key come to in any state. */
  lemma BuffersEnd(fmt: JsonSink.Formatter, base: string, st: State, v: Value, k: string)
    requires Shaped(st)
    ensures var key := Step(fmt, base, st, Key(k)); CutTo(key.path, st.path + "/" + k, 255) && key.sent == st.sent
    ensures var leaf := Step(fmt, base, st, Leaf(v)); var n := |st.sent|;
      && |leaf.sent| == n + 1 && leaf.sent[..n] == st.sent
      && if st.depth < 12 && st.inArr[st.depth] then
           exists here :: CutTo(here, st.path + "/" + Dec(st.index[st.depth]), 255) && CutTo(leaf.sent[n].0, base + here, 383)
         else CutTo(leaf.sent[n].0, base + st.path, 383)
    ensures var open := Step(fmt, base, st, ArrBegin);
      open.depth == st.depth + 1 && (st.depth + 1 < 12 ==> open.inArr[st.depth + 1] && open.index[st.depth + 1] == 0)
  {
    hide Dec, DecInt;
    var e := Enter(st);
    ClipCuts(base + e.path, 383);
    if st.depth < 12 && st.inArr[st.depth] {
      ClipCuts(st.path + "/" + Dec(st.index[st.depth]), 255);
    }
    ClipCuts(st.path + "/" + k, 255);
  }

  lemma ClipCuts(s: string, n: nat)
    ensures CutTo(Clip(s, n), s, n)
  {
  }

  // ---- the sink as an object ----

  class Flattener {
    const fmt: JsonSink.Formatter
    const base: string
    var path: string
    var depth: nat
    const mark: array<nat>
    const index: array<nat>
    const inArr: array<bool>
    var sent: seq<Pair>

    ghost predicate Valid()
      reads this
    {
      mark.Length == FLAT_DEPTH && index.Length == FLAT_DEPTH && inArr.Length == FLAT_DEPTH && mark != index
    }

    ghost function Abs(): State
      reads this, mark, index, inArr
    {
      State(path, depth, mark[..], index[..], inArr[..], sent)
    }

    constructor (fmt: JsonSink.Formatter, base: string)
      ensures Valid() && Abs() == Start() && fresh(mark) && fresh(index) && fresh(inArr)
      ensures this.fmt == fmt && this.base == base
    {
      this.fmt := fmt;
      this.base := base;
      path, depth, sent := "", 0, [];
      mark := new nat[FLAT_DEPTH](_ => 0);
      index := new nat[FLAT_DEPTH](_ => 0);
      inArr := new bool[FLAT_DEPTH](_ => false);
    }

    method AppendSegment(seg: string)
      modifies this`path
      ensures path == Clip(old(path) + "/" + seg, PATH_MAX)
    {
      path := Clip(path + "/" + seg, PATH_MAX);
    }

    method EnterValue()
      requires Valid()
      modifies this`path, mark, index
      ensures Abs() == Enter(old(Abs()))
    {
      if depth < FLAT_DEPTH && inArr[depth] {
        var idx := Dec(index[depth]);
        index[depth] := index[depth] + 1;
        mark[depth] := |path|;
        AppendSegment(idx);
      }
    }

    method LeaveValue()
      requires Valid()
      modifies this`path
      ensures Abs() == Leave(old(Abs()))
    {
      if depth < FLAT_DEPTH {
        path := Clip(path, mark[depth]);
      }
    }

    method OpenContainer(isArray: bool)
      requires Valid()
      modifies this`path, this`depth, mark, index, inArr
      ensures Abs() == Open(old(Abs()), isArray)
    {
      EnterValue();
      if depth + 1 < FLAT_DEPTH {
        inArr[depth + 1] := isArray;
        index[depth + 1] := 0;
        mark[depth + 1] := |path|;
      }
      depth := depth + 1;
    }

    method CloseContainer()
      requires Valid()
      modifies this`path, this`depth
      ensures Abs() == Close(old(Abs()))
    {
      if depth > 0 {
        depth := depth - 1;
      }
      LeaveValue();
    }

    method On(e: Event)
      requires Valid()
      modifies this, mark, index, inArr
      ensures Valid() && Abs() == Step(fmt, base, old(Abs()), e)
    {
      match e {
        case ObjBegin => OpenContainer(false);
        case ObjEnd => CloseContainer();
        case ArrBegin => OpenContainer(true);
        case ArrEnd => CloseContainer();
        case Key(k) =>
          if depth < FLAT_DEPTH {
            mark[depth] := |path|;
          }
          AppendSegment(k);
        case Leaf(v) =>
          EnterValue();
          var text := if v.VInt? then DecInt(v.i) else if v.VDbl? then fmt(v.r) else if v.VStr? then v.s else "None";
          sent := sent + [(Clip(base + path, TOPIC_MAX), text)];
          LeaveValue();
      }
    }

    method Feed(es: seq<Event>)
      requires Valid()
      modifies this, mark, index, inArr
      ensures Valid() && Abs() == Run(fmt, base, old(Abs()), es)
    {
      var i := 0;
      assert es[0..] == es;
      while i < |es|
        invariant 0 <= i <= |es| && Valid()
        invariant Run(fmt, base, Abs(), es[i..]) == Run(fmt, base, old(Abs()), es)
      {
        assert es[i..][1..] == es[i + 1..];
        On(es[i]);
        i := i + 1;
      }
    }
  }
}
