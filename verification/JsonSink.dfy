/** The JSON printer: a depth counter, two flag arrays and a growing text
    (main/o3e_json.c), against the text json.dumps() would give. */
module JsonSink {
  import opened Text
  import opened Wrappers
  import opened Json
  import opened Events

  const MAX_DEPTH := 16

  /** Doubles are printed by a conversion outside this model. */
  type Formatter = real -> string

  // ---- string literals ----

  function LowHex(n: nat): char
    requires n < 16
  {
    HexDigit(n)
  }

  function EscapeChar(c: char): (s: string)
    ensures s != ""
  {
    if c == '"' then "\\\"" else if c == '\\' then "\\\\"
    else if c == '\n' then "\\n" else if c == '\r' then "\\r" else if c == '\t' then "\\t"
    else if c as int == 8 then "\\b" else if c as int == 12 then "\\f"
    else if c as int < 0x20 then "\\u00" + [LowHex(c as int / 16), LowHex(c as int % 16)]
    else [c]
  }

  function Escape(s: string): string {
    if s == "" then "" else EscapeChar(s[0]) + Escape(s[1..])
  }

  /** Quotes, backslashes and control characters are escaped, by one letter where
      there is one, and nothing else is. */
  lemma EscapeMeans(c: char)
    ensures c as int >= 0x20 && c != '"' && c != '\\' ==> EscapeChar(c) == [c]
    ensures c in {'"', '\\'} ==> EscapeChar(c) == ['\\', c]
    ensures EscapeChar('\n') == "\\n" && EscapeChar('\r') == "\\r" && EscapeChar('\t') == "\\t"
    ensures EscapeChar(8 as char) == "\\b" && EscapeChar(12 as char) == "\\f"
    ensures c as int < 0x20 && c as int !in {8, 9, 10, 12, 13} ==>
      |EscapeChar(c)| == 6 && EscapeChar(c)[..4] == "\\u00" && 16 * HexVal(EscapeChar(c)[4]) + HexVal(EscapeChar(c)[5]) == c as int
  {
  }

  lemma EscapeFront(s: string)
    ensures Escape(s) == if s == "" then "" else EscapeChar(s[0]) + Escape(s[1..])
  {
  }

  function Quoted(s: string): string {
    "\"" + Escape(s) + "\""
  }

  /** One character off the front of an escaped text, as a JSON reader takes it. */
  function UnescapeOne(t: string): Option<(char, string)>
    requires t != ""
  {
    if t[0] != '\\' then Some((t[0], t[1..]))
    else if |t| < 2 then None
    else match t[1]
      case '"' => Some(('"', t[2..]))
      case '\\' => Some(('\\', t[2..]))
      case 'n' => Some(('\n', t[2..]))
      case 'r' => Some(('\r', t[2..]))
      case 't' => Some(('\t', t[2..]))
      case 'b' => Some((8 as char, t[2..]))
      case 'f' => Some((12 as char, t[2..]))
      case 'u' =>
        if |t| < 6 || t[2] != '0' || t[3] != '0' || HexVal(t[4]) < 0 || HexVal(t[5]) < 0 then None
        else Some(((16 * HexVal(t[4]) + HexVal(t[5])) as char, t[6..]))
      case _ => None
  }

  /** A string literal off the front of a text: everything up to the first quote
      that is not escaped. */
  function Unquote(t: string): (r: Option<(string, string)>)
    ensures r.Some? ==> |r.value.1| < |t|
    decreases |t|
  {
    if t == "" then None
    else if t[0] == '"' then Some(("", t[1..]))
    else match UnescapeOne(t)
      case None => None
      case Some(p) =>
        if |p.1| >= |t| then None
        else match Unquote(p.1)
          case None => None
          case Some(q) => Some(([p.0] + q.0, q.1))
  }

  lemma UnescapeEscaped(c: char, t: string)
    ensures (EscapeChar(c) + t)[0] != '"'
    ensures UnescapeOne(EscapeChar(c) + t) == Some((c, t))
  {
    var s := EscapeChar(c) + t;
    if c as int < 0x20 && s[1] == 'u' {
      assert s[6..] == t;
    } else if |EscapeChar(c)| == 2 {
      assert s[2..] == t;
    } else {
      assert s[1..] == t;
    }
  }

  /** A printed string literal reads back as the string, whatever follows it. */
  lemma {:induction false} LiteralReadsBack(s: string, rest: string)
    ensures Unquote(Escape(s) + "\"" + rest) == Some((s, rest))
  {
    hide EscapeChar, UnescapeOne;
    if s == "" {
      assert (Escape(s) + "\"" + rest)[1..] == rest;
    } else {
      var t := Escape(s[1..]) + "\"" + rest;
      LiteralReadsBack(s[1..], rest);
      UnescapeEscaped(s[0], t);
      EscapeFront(s);
      assert Escape(s) + "\"" + rest == EscapeChar(s[0]) + t;
      assert s == [s[0]] + s[1..];
    }
  }

  // ---- the text json.dumps() gives ----

  function ScalarText(fmt: Formatter, v: Value): string {
    match v
    case VInt(i) => DecInt(i)
    case VDbl(r) => fmt(r)
    case VStr(s) => Quoted(s)
    case _ => "null"
  }

  function JsonText(fmt: Formatter, v: Value): string
    decreases v, 0
  {
    match v
    case VObj(ms) => "{" + MembersText(fmt, ms, true) + "}"
    case VArr(xs) => "[" + ItemsText(fmt, xs, true) + "]"
    case _ => ScalarText(fmt, v)
  }

  function MembersText(fmt: Formatter, ms: seq<Member>, first: bool): string
    decreases ms, 0
  {
    if ms == [] then ""
    else (if first then "" else ", ") + Quoted(ms[0].key) + ": " + JsonText(fmt, ms[0].val) +
         MembersText(fmt, ms[1..], false)
  }

  function ItemsText(fmt: Formatter, xs: seq<Value>, first: bool): string
    decreases xs, 0
  {
    if xs == [] then "" else (if first then "" else ", ") + JsonText(fmt, xs[0]) + ItemsText(fmt, xs[1..], false)
  }

  // ---- what the sink prints: commas stop at the depth limit ----

  function Comma(depth: nat, first: bool): string {
    if first || depth >= MAX_DEPTH then "" else ", "
  }

  /** `depth` is the one the value stands at. */
  function Printed(fmt: Formatter, v: Value, depth: nat): string
    decreases v, 0
  {
    match v
    case VObj(ms) => "{" + PrintedMembers(fmt, ms, depth + 1, true) + "}"
    case VArr(xs) => "[" + PrintedItems(fmt, xs, depth + 1, true) + "]"
    case _ => ScalarText(fmt, v)
  }

  function PrintedMembers(fmt: Formatter, ms: seq<Member>, depth: nat, first: bool): string
    decreases ms, 0
  {
    if ms == [] then ""
    else Comma(depth, first) + Quoted(ms[0].key) + ": " + Printed(fmt, ms[0].val, depth) +
         PrintedMembers(fmt, ms[1..], depth, false)
  }

  function PrintedItems(fmt: Formatter, xs: seq<Value>, depth: nat, first: bool): string
    decreases xs, 0
  {
    if xs == [] then ""
    else Comma(depth, first) + Printed(fmt, xs[0], depth) + PrintedItems(fmt, xs[1..], depth, false)
  }

  /** Containers too deep for a comma hold at most one element. */
  predicate Thin(v: Value, depth: nat)
    decreases v, 0
  {
    match v
    case VObj(ms) => (depth + 1 < MAX_DEPTH || |ms| <= 1) && ThinMembers(ms, depth + 1)
    case VArr(xs) => (depth + 1 < MAX_DEPTH || |xs| <= 1) && ThinItems(xs, depth + 1)
    case _ => true
  }

  predicate ThinMembers(ms: seq<Member>, depth: nat)
    decreases ms, 0
  {
    ms == [] || (Thin(ms[0].val, depth) && ThinMembers(ms[1..], depth))
  }

  predicate ThinItems(xs: seq<Value>, depth: nat)
    decreases xs, 0
  {
    xs == [] || (Thin(xs[0], depth) && ThinItems(xs[1..], depth))
  }

  /** The printed text is never longer than json.dumps() would make it, and is
      that text exactly when no container lacks a comma it needs. */
  lemma {:induction false} PrintedExactly(fmt: Formatter, v: Value, depth: nat)
    ensures Thin(v, depth) ==> Printed(fmt, v, depth) == JsonText(fmt, v)
    ensures |Printed(fmt, v, depth)| <= |JsonText(fmt, v)|
    ensures !Thin(v, depth) ==> |Printed(fmt, v, depth)| < |JsonText(fmt, v)|
    decreases v, 1
  {
    match v {
      case VObj(ms) => MembersExactly(fmt, ms, depth + 1, true);
      case VArr(xs) => ItemsExactly(fmt, xs, depth + 1, true);
      case _ =>
    }
  }

  /** No comma is missing among `n` elements of which the first one is at the front or not. */
  predicate CommasKept(n: nat, depth: nat, first: bool) {
    depth < MAX_DEPTH || n == 0 || (first && n == 1)
  }

  lemma {:induction false} MembersExactly(fmt: Formatter, ms: seq<Member>, depth: nat, first: bool)
    ensures var ok := CommasKept(|ms|, depth, first) && ThinMembers(ms, depth);
            var (p, q) := (PrintedMembers(fmt, ms, depth, first), MembersText(fmt, ms, first));
            |p| <= |q| && (ok ==> p == q) && (!ok ==> |p| < |q|)
    decreases ms, 0
  {
    if ms != [] {
      PrintedExactly(fmt, ms[0].val, depth);
      MembersExactly(fmt, ms[1..], depth, false);
    }
  }

  lemma {:induction false} ItemsExactly(fmt: Formatter, xs: seq<Value>, depth: nat, first: bool)
    ensures var ok := CommasKept(|xs|, depth, first) && ThinItems(xs, depth);
            var (p, q) := (PrintedItems(fmt, xs, depth, first), ItemsText(fmt, xs, first));
            |p| <= |q| && (ok ==> p == q) && (!ok ==> |p| < |q|)
    decreases xs, 0
  {
    if xs != [] {
      PrintedExactly(fmt, xs[0], depth);
      ItemsExactly(fmt, xs[1..], depth, false);
    }
  }

  /** Containers nested in a value. */
  function Height(v: Value): nat
    decreases v, 0
  {
    match v
    case VObj(ms) => 1 + MembersHeight(ms)
    case VArr(xs) => 1 + ItemsHeight(xs)
    case _ => 0
  }

  function MembersHeight(ms: seq<Member>): nat
    decreases ms, 0
  {
    if ms == [] then 0 else Max(Height(ms[0].val), MembersHeight(ms[1..]))
  }

  function ItemsHeight(xs: seq<Value>): nat
    decreases xs, 0
  {
    if xs == [] then 0 else Max(Height(xs[0]), ItemsHeight(xs[1..]))
  }

  function Max(a: nat, b: nat): nat {
    if a < b then b else a
  }

  /** Nesting up to 15 is always thin enough. */
  lemma {:induction false} ShallowIsThin(v: Value, depth: nat)
    requires depth + Height(v) <= 15
    ensures Thin(v, depth)
    decreases v, 1
  {
    match v {
      case VObj(ms) => ShallowMembers(ms, depth + 1);
      case VArr(xs) => ShallowItems(xs, depth + 1);
      case _ =>
    }
  }

  lemma {:induction false} ShallowMembers(ms: seq<Member>, depth: nat)
    requires depth + MembersHeight(ms) <= 15
    ensures ThinMembers(ms, depth)
    decreases ms, 0
  {
    if ms != [] {
      ShallowIsThin(ms[0].val, depth);
      ShallowMembers(ms[1..], depth);
    }
  }

  lemma {:induction false} ShallowItems(xs: seq<Value>, depth: nat)
    requires depth + ItemsHeight(xs) <= 15
    ensures ThinItems(xs, depth)
    decreases xs, 0
  {
    if xs != [] {
      ShallowIsThin(xs[0], depth);
      ShallowItems(xs[1..], depth);
    }
  }

  // ---- the sink's state, event by event ----

  /** o3e_json_ctx_t: flags below MAX_DEPTH, an 8-bit depth. */
  datatype State = State(out: string, depth: nat, need: seq<bool>, inArr: seq<bool>)

  predicate Shaped(st: State) {
    |st.need| == MAX_DEPTH && |st.inArr| == MAX_DEPTH && st.depth < 256
  }

  function Start(): State {
    State("", 0, seq(MAX_DEPTH, i => false), seq(MAX_DEPTH, i => false))
  }

  function Say(st: State, s: string): State {
    st.(out := st.out + s)
  }

  /** sep(): the comma owed at this depth, then this depth has an element. */
  function Sep(st: State): (r: State)
    requires Shaped(st)
    ensures Shaped(r)
  {
    if st.depth >= MAX_DEPTH then st
    else Say(st, if st.need[st.depth] then ", " else "").(need := st.need[st.depth := true])
  }

  function PreValue(st: State): (r: State)
    requires Shaped(st)
    ensures Shaped(r)
  {
    if st.depth < MAX_DEPTH && st.inArr[st.depth] then Sep(st) else st
  }

  function Push(st: State, isArray: bool): (r: State)
    requires Shaped(st)
    ensures Shaped(r)
  {
    var d := (st.depth + 1) % 256;
    if d < MAX_DEPTH then st.(depth := d, need := st.need[d := false], inArr := st.inArr[d := isArray])
    else st.(depth := d)
  }

  function Pop(st: State): (r: State)
    requires Shaped(st)
    ensures Shaped(r)
  {
    if st.depth > 0 then st.(depth := st.depth - 1) else st
  }

  function Step(fmt: Formatter, st: State, e: Event): (r: State)
    requires Shaped(st)
    ensures Shaped(r)
  {
    match e
    case ObjBegin => Push(Say(PreValue(st), "{"), false)
    case ObjEnd => Say(Pop(st), "}")
    case ArrBegin => Push(Say(PreValue(st), "["), true)
    case ArrEnd => Say(Pop(st), "]")
    case Key(k) => Say(Sep(st), Quoted(k) + ": ")
    case Leaf(v) => Say(PreValue(st), ScalarText(fmt, v))
  }

  function Run(fmt: Formatter, st: State, es: seq<Event>): (r: State)
    requires Shaped(st)
    ensures Shaped(r)
    decreases |es|
  {
    if es == [] then st else Run(fmt, Step(fmt, st, es[0]), es[1..])
  }

  lemma {:induction false} RunConcat(fmt: Formatter, st: State, a: seq<Event>, b: seq<Event>)
    requires Shaped(st)
    ensures Run(fmt, st, a + b) == Run(fmt, Run(fmt, st, a), b)
    decreases |a|
  {
    if a == [] {
      assert a + b == b;
    } else {
      assert (a + b)[1..] == a[1..] + b;
      RunConcat(fmt, Step(fmt, st, a[0]), a[1..], b);
    }
  }

  lemma RunOne(fmt: Formatter, st: State, e: Event)
    requires Shaped(st)
    ensures Run(fmt, st, [e]) == Step(fmt, st, e)
  {
    assert [e][1..] == [];
  }

  /** `b` has printed `s` more than `a` and owes nothing different at or above
      `depth`, except that an array there now has an element. */
  ghost predicate Printing(a: State, s: string, b: State, depth: nat) {
    && Shaped(a) && Shaped(b)
    && b.out == a.out + s && b.depth == a.depth
    && (forall i :: 0 <= i < MAX_DEPTH && i < depth ==> b.need[i] == a.need[i])
    && (forall i :: 0 <= i < MAX_DEPTH && i <= depth ==> b.inArr[i] == a.inArr[i])
  }

  /** The text a value is preceded by: its comma, when an array owes one. */
  function Owed(st: State): string
    requires Shaped(st)
  {
    if st.depth < MAX_DEPTH && st.inArr[st.depth] then Comma(st.depth, !st.need[st.depth]) else ""
  }

  /** Printing a value's events prints the value, and restores the state. */
  lemma {:induction false} ValuePrinted(fmt: Formatter, v: Value, st: State)
    requires Shaped(st) && st.depth + Height(v) < 256
    ensures var r := Run(fmt, st, EventsOf(v));
            && Printing(st, Owed(st) + Printed(fmt, v, st.depth), r, st.depth)
            && (st.depth < MAX_DEPTH ==>
                 r.need[st.depth] == (st.need[st.depth] || st.inArr[st.depth]))
    decreases v, 1
  {
    match v {
      case VObj(ms) => ObjectPrinted(fmt, ms, st);
      case VArr(xs) => ArrayPrinted(fmt, xs, st);
      case _ => RunOne(fmt, st, Leaf(v));
    }
  }

  /** Opening and closing a container around printed contents. */
  lemma Enclosed(st: State, isArray: bool, open: string, s: string, b: State, close: string)
    requires Shaped(st) && st.depth < 255
    requires Printing(Push(Say(PreValue(st), open), isArray), s, b, st.depth + 1)
    ensures var c := Say(Pop(b), close);
            && Printing(st, Owed(st) + (open + s + close), c, st.depth)
            && (st.depth < MAX_DEPTH ==>
                 c.need[st.depth] == (st.need[st.depth] || st.inArr[st.depth]))
  {
    var a := Push(Say(PreValue(st), open), isArray);
    assert a.out == st.out + Owed(st) + open;
    assert ((st.out + Owed(st) + open) + s) + close == st.out + (Owed(st) + (open + s + close));
  }

  lemma Opened(st: State, isArray: bool, open: string)
    requires Shaped(st) && st.depth < 255
    ensures var a := Push(Say(PreValue(st), open), isArray);
            && a.depth == st.depth + 1
            && (a.depth < MAX_DEPTH ==> a.inArr[a.depth] == isArray && !a.need[a.depth])
  {
  }

  lemma ObjectPrinted(fmt: Formatter, ms: seq<Member>, st: State)
    requires Shaped(st) && st.depth + 1 + MembersHeight(ms) < 256
    ensures var r := Run(fmt, st, EventsOf(VObj(ms)));
            && Printing(st, Owed(st) + Printed(fmt, VObj(ms), st.depth), r, st.depth)
            && (st.depth < MAX_DEPTH ==>
                 r.need[st.depth] == (st.need[st.depth] || st.inArr[st.depth]))
    decreases ms, 2
  {
    hide Run, PrintedMembers, Push, PreValue, Owed, Printing, Pop, MembersHeight, MemberEvents, Step, ScalarText;
    var a := Push(Say(PreValue(st), "{"), false);
    Brackets(fmt, st);
    Opened(st, false, "{");
    MembersPrinted(fmt, ms, a, true);
    Bracketed(fmt, st, ObjBegin, MemberEvents(ms), ObjEnd);
    var b := Run(fmt, a, MemberEvents(ms));
    Brackets(fmt, b);
    Enclosed(st, false, "{", PrintedMembers(fmt, ms, a.depth, true), b, "}");
  }

  /** What opening and closing a container do to the state. */
  lemma Brackets(fmt: Formatter, st: State)
    requires Shaped(st)
    ensures Step(fmt, st, ObjBegin) == Push(Say(PreValue(st), "{"), false) && Step(fmt, st, ObjEnd) == Say(Pop(st), "}")
    ensures Step(fmt, st, ArrBegin) == Push(Say(PreValue(st), "["), true) && Step(fmt, st, ArrEnd) == Say(Pop(st), "]")
  {
    hide Push, PreValue, Pop;
  }

  lemma Bracketed(fmt: Formatter, st: State, open: Event, es: seq<Event>, close: Event)
    requires Shaped(st)
    ensures Run(fmt, st, [open] + es + [close]) == Step(fmt, Run(fmt, Step(fmt, st, open), es), close)
  {
    hide Step;
    RunConcat(fmt, st, [open] + es, [close]);
    RunConcat(fmt, st, [open], es);
    RunOne(fmt, st, open);
    RunOne(fmt, Run(fmt, Step(fmt, st, open), es), close);
  }

  lemma ArrayPrinted(fmt: Formatter, xs: seq<Value>, st: State)
    requires Shaped(st) && st.depth + 1 + ItemsHeight(xs) < 256
    ensures var r := Run(fmt, st, EventsOf(VArr(xs)));
            && Printing(st, Owed(st) + Printed(fmt, VArr(xs), st.depth), r, st.depth)
            && (st.depth < MAX_DEPTH ==>
                 r.need[st.depth] == (st.need[st.depth] || st.inArr[st.depth]))
    decreases xs, 2
  {
    hide Run, PrintedItems, Push, PreValue, Owed, Printing, Pop, ItemsHeight, ItemEvents, Step, ScalarText;
    var a := Push(Say(PreValue(st), "["), true);
    Brackets(fmt, st);
    Opened(st, true, "[");
    ItemsPrinted(fmt, xs, a, true);
    Bracketed(fmt, st, ArrBegin, ItemEvents(xs), ArrEnd);
    var b := Run(fmt, a, ItemEvents(xs));
    Brackets(fmt, b);
    Enclosed(st, true, "[", PrintedItems(fmt, xs, a.depth, true), b, "]");
  }

  lemma {:induction false} MembersPrinted(fmt: Formatter, ms: seq<Member>, st: State, first: bool)
    requires Shaped(st) && st.depth + MembersHeight(ms) < 256
    requires st.depth < MAX_DEPTH ==> !st.inArr[st.depth] && st.need[st.depth] == !first
    ensures Printing(st, PrintedMembers(fmt, ms, st.depth, first), Run(fmt, st, MemberEvents(ms)), st.depth)
    decreases ms, 0
  {
    if ms != [] {
      var a := Step(fmt, st, Key(ms[0].key));
      KeyPrinted(fmt, st, ms[0].key, first);
      MemberHeights(ms);
      MemberRun(fmt, ms, st);
      hide Run, Printed, Escape, MembersHeight, Step;
      ValuePrinted(fmt, ms[0].val, a);
      var b := Run(fmt, a, EventsOf(ms[0].val));
      MembersPrinted(fmt, ms[1..], b, false);
      var c := Run(fmt, b, MemberEvents(ms[1..]));
      assert Owed(a) == "" && Owed(a) + Printed(fmt, ms[0].val, st.depth) == Printed(fmt, ms[0].val, st.depth);
      MemberJoined(fmt, ms, st, first, a, b, c);
    }
  }

  lemma KeyPrinted(fmt: Formatter, st: State, key: string, first: bool)
    requires Shaped(st) && (st.depth < MAX_DEPTH ==> st.need[st.depth] == !first)
    ensures Printing(st, Comma(st.depth, first) + (Quoted(key) + ": "), Step(fmt, st, Key(key)), st.depth)
    ensures st.depth < MAX_DEPTH ==> Step(fmt, st, Key(key)).need[st.depth]
  {
  }

  lemma MemberRun(fmt: Formatter, ms: seq<Member>, st: State)
    requires ms != [] && Shaped(st)
    ensures Run(fmt, st, MemberEvents(ms)) ==
            Run(fmt, Run(fmt, Step(fmt, st, Key(ms[0].key)), EventsOf(ms[0].val)), MemberEvents(ms[1..]))
  {
    hide Step;
    RunConcat(fmt, st, [Key(ms[0].key)] + EventsOf(ms[0].val), MemberEvents(ms[1..]));
    RunConcat(fmt, st, [Key(ms[0].key)], EventsOf(ms[0].val));
    RunOne(fmt, st, Key(ms[0].key));
  }

  lemma MemberHeights(ms: seq<Member>)
    requires ms != []
    ensures Height(ms[0].val) <= MembersHeight(ms) && MembersHeight(ms[1..]) <= MembersHeight(ms)
  {
  }

  lemma MemberJoined(fmt: Formatter, ms: seq<Member>, st: State, first: bool, a: State, b: State, c: State)
    requires ms != [] && a.out == st.out + (Comma(st.depth, first) + (Quoted(ms[0].key) + ": "))
    requires b.out == a.out + Printed(fmt, ms[0].val, st.depth)
    requires c.out == b.out + PrintedMembers(fmt, ms[1..], st.depth, false)
    ensures c.out == st.out + PrintedMembers(fmt, ms, st.depth, first)
  {
    hide Printed, Quoted;
  }

  lemma {:induction false} ItemsPrinted(fmt: Formatter, xs: seq<Value>, st: State, first: bool)
    requires Shaped(st) && st.depth + ItemsHeight(xs) < 256
    requires st.depth < MAX_DEPTH ==> st.inArr[st.depth] && st.need[st.depth] == !first
    ensures Printing(st, PrintedItems(fmt, xs, st.depth, first), Run(fmt, st, ItemEvents(xs)), st.depth)
    decreases xs, 0
  {
    if xs != [] {
      hide Run, Printed, Height;
      ValuePrinted(fmt, xs[0], st);
      var b := Run(fmt, st, EventsOf(xs[0]));
      ItemsPrinted(fmt, xs[1..], b, false);
      RunConcat(fmt, st, EventsOf(xs[0]), ItemEvents(xs[1..]));
      assert Owed(st) == Comma(st.depth, first);
      ItemJoined(fmt, xs, st, first, b, Run(fmt, b, ItemEvents(xs[1..])));
    }
  }

  lemma ItemJoined(fmt: Formatter, xs: seq<Value>, st: State, first: bool, b: State, c: State)
    requires xs != [] && b.out == st.out + (Comma(st.depth, first) + Printed(fmt, xs[0], st.depth))
    requires c.out == b.out + PrintedItems(fmt, xs[1..], st.depth, false)
    ensures c.out == st.out + PrintedItems(fmt, xs, st.depth, first)
  {
    hide Printed, Comma;
  }

  // ---- the sink as an object ----

  /** o3e_json_ctx_t with its callbacks; `State` is what one looks like. */
  class Printer {
    const fmt: Formatter
    var out: string
    var depth: nat
    const need: array<bool>
    const inArr: array<bool>

    ghost predicate Valid()
      reads this
    {
      need.Length == MAX_DEPTH && inArr.Length == MAX_DEPTH && need != inArr && depth < 256
    }

    ghost function Abs(): State
      reads this, need, inArr
    {
      State(out, depth, need[..], inArr[..])
    }

    constructor (fmt: Formatter)
      ensures Valid() && Abs() == Start() && fresh(need) && fresh(inArr) && this.fmt == fmt
    {
      this.fmt := fmt;
      out := "";
      depth := 0;
      need := new bool[MAX_DEPTH](_ => false);
      inArr := new bool[MAX_DEPTH](_ => false);
    }

    /** Appends a string literal, character by character. */
    method AddQuoted(s: string)
      requires Valid()
      modifies this`out
      ensures Abs() == Say(old(Abs()), Quoted(s))
    {
      hide Escape, EscapeChar;
      ghost var before, done := out, "";
      out := out + "\"";
      var i := 0;
      assert s[0..] == s;
      while i < |s|
        invariant 0 <= i <= |s|
        invariant out == before + "\"" + done && done + Escape(s[i..]) == Escape(s)
      {
        EscapeFront(s[i..]);
        assert s[i..][1..] == s[i + 1..];
        assert (done + EscapeChar(s[i])) + Escape(s[i + 1..]) == done + (EscapeChar(s[i]) + Escape(s[i + 1..]));
        out := out + EscapeChar(s[i]);
        done := done + EscapeChar(s[i]);
        i := i + 1;
      }
      EscapeFront(s[i..]);
      assert done == Escape(s);
      out := out + "\"";
      assert out == before + Quoted(s);
    }

    method Separate()
      requires Valid()
      modifies this`out, need
      ensures Abs() == Sep(old(Abs()))
    {
      if depth >= MAX_DEPTH {
        return;
      }
      if need[depth] {
        out := out + ", ";
      }
      need[depth] := true;
    }

    method BeforeValue()
      requires Valid()
      modifies this`out, need
      ensures Abs() == PreValue(old(Abs()))
    {
      if depth < MAX_DEPTH && inArr[depth] {
        Separate();
      }
    }

    method Open(isArray: bool, bracket: string)
      requires Valid()
      modifies this`out, this`depth, need, inArr
      ensures Valid() && Abs() == Push(Say(PreValue(old(Abs())), bracket), isArray)
    {
      BeforeValue();
      out := out + bracket;
      depth := (depth + 1) % 256;
      if depth < MAX_DEPTH {
        need[depth] := false;
        inArr[depth] := isArray;
      }
    }

    method Close(bracket: string)
      requires Valid()
      modifies this`out, this`depth
      ensures Valid() && Abs() == Say(Pop(old(Abs())), bracket)
    {
      if depth > 0 {
        depth := depth - 1;
      }
      out := out + bracket;
    }

    method On(e: Event)
      requires Valid()
      modifies this`out, this`depth, need, inArr
      ensures Valid() && Abs() == Step(fmt, old(Abs()), e)
    {
      match e {
        case ObjBegin => Open(false, "{");
        case ObjEnd => Close("}");
        case ArrBegin => Open(true, "[");
        case ArrEnd => Close("]");
        case Key(k) =>
          Separate();
          ghost var before := Abs();
          AddQuoted(k);
          out := out + ": ";
          assert Abs() == Say(before, Quoted(k) + ": ");
        case Leaf(v) =>
          BeforeValue();
          match v {
            case VStr(s) => AddQuoted(s);
            case _ => out := out + ScalarText(fmt, v);
          }
      }
    }

    method Feed(es: seq<Event>)
      requires Valid()
      modifies this`out, this`depth, need, inArr
      ensures Valid() && Abs() == Run(fmt, old(Abs()), es)
    {
      var i := 0;
      assert es[0..] == es;
      while i < |es|
        invariant 0 <= i <= |es| && Valid()
        invariant Run(fmt, Abs(), es[i..]) == Run(fmt, old(Abs()), es)
      {
        assert es[i..][1..] == es[i + 1..];
        On(es[i]);
        i := i + 1;
      }
    }
  }
}
