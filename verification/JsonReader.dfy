/** A JSON reader for what the sink prints: the text of a value is the value,
    up to whether a number is shown as an integer. main/poller.c prints the
    current value and parses it again before it merges. */
module JsonReader {
  import opened Text
  import opened Wrappers
  import opened Doubles
  import opened Json
  import opened JsonSink
  import DecimalLayout
  import opened ShortestText

  predicate Blank(c: char) {
    c == ' ' || c == '\n' || c == '\t' || c == '\r'
  }

  function Skip(t: string): (r: string)
    ensures |r| <= |t|
    ensures t != "" && !Blank(t[0]) ==> r == t
  {
    if t != "" && Blank(t[0]) then Skip(t[1..]) else t
  }

  function NumberRun(t: string): (n: nat)
    ensures n <= |t|
  {
    if t != "" && Numeric(t[0]) then 1 + NumberRun(t[1..]) else 0
  }

  // ---- the reader ----

  function ReadValue(t: string): (r: Option<(Value, string)>)
    ensures r.Some? ==> |r.value.1| < |t|
    decreases |t|, 1
  {
    var s := Skip(t);
    if s == "" then None
    else if s[0] == '{' then
      var inner := Skip(s[1..]);
      if inner != "" && inner[0] == '}' then Some((VObj([]), inner[1..]))
      else
        var ms := ReadMembers(inner);
        if ms.None? then None else Some((VObj(ms.value.0), ms.value.1))
    else if s[0] == '[' then
      var inner := Skip(s[1..]);
      if inner != "" && inner[0] == ']' then Some((VArr([]), inner[1..]))
      else
        var xs := ReadItems(inner);
        if xs.None? then None else Some((VArr(xs.value.0), xs.value.1))
    else ReadScalar(s)
  }

  function ReadScalar(s: string): (r: Option<(Value, string)>)
    requires s != ""
    ensures r.Some? ==> |r.value.1| < |s|
  {
    if s[0] == '"' then
      var q := Unquote(s[1..]);
      if q.None? then None else Some((VStr(q.value.0), q.value.1))
    else if "null" <= s then Some((VNull, s[4..]))
    else
      var n := NumberRun(s);
      if n == 0 then None else Some((VDbl(AsDouble(DecimalLayout.Denoted(s[..n]))), s[n..]))
  }

  /** Members up to and with the closing brace. */
  function ReadMembers(t: string): (r: Option<(seq<Member>, string)>)
    ensures r.Some? ==> |r.value.1| < |t|
    decreases |t|, 0
  {
    if t == "" || t[0] != '"' then None
    else
      var k := Unquote(t[1..]);
      if k.None? then None
      else
        var c := Skip(k.value.1);
        if c == "" || c[0] != ':' then None
        else
          var v := ReadValue(c[1..]);
          if v.None? then None
          else
            var m, s := Member(k.value.0, v.value.0), Skip(v.value.1);
            if s == "" then None
            else if s[0] == '}' then Some(([m], s[1..]))
            else if s[0] != ',' then None
            else
              var ms := ReadMembers(Skip(s[1..]));
              if ms.None? then None else Some(([m] + ms.value.0, ms.value.1))
  }

  function ReadItems(t: string): (r: Option<(seq<Value>, string)>)
    ensures r.Some? ==> |r.value.1| < |t|
    decreases |t|, 2
  {
    var v := ReadValue(t);
    if v.None? then None
    else
      var s := Skip(v.value.1);
      if s == "" then None
      else if s[0] == ']' then Some(([v.value.0], s[1..]))
      else if s[0] != ',' then None
      else
        var xs := ReadItems(Skip(s[1..]));
        if xs.None? then None else Some(([v.value.0] + xs.value.0, xs.value.1))
  }

  // ---- what a printed value reads as ----

  /** The same value with every number the nearest double. */
  function AsRead(v: Value): Value
    decreases v, 0
  {
    match v
    case VInt(i) => VDbl(AsDouble(i as real))
    case VArr(xs) => VArr(ItemsAsRead(xs))
    case VObj(ms) => VObj(MembersAsRead(ms))
    case _ => v
  }

  function MembersAsRead(ms: seq<Member>): (r: seq<Member>)
    ensures |r| == |ms|
    decreases ms, 0
  {
    if ms == [] then [] else [Member(ms[0].key, AsRead(ms[0].val))] + MembersAsRead(ms[1..])
  }

  function ItemsAsRead(xs: seq<Value>): (r: seq<Value>)
    ensures |r| == |xs|
    decreases xs, 0
  {
    if xs == [] then [] else [AsRead(xs[0])] + ItemsAsRead(xs[1..])
  }

  /** Every double in it is printed as a number that reads back as it; the sink has no
      other kind of value to print. */
  predicate Legible(fmt: Formatter, v: Value)
    decreases v, 0
  {
    match v
    case VBool(_) => false
    case VDbl(r) => NumberText(fmt(r)) && AsDouble(DecimalLayout.Denoted(fmt(r))) == r
    case VArr(xs) => ItemsLegible(fmt, xs)
    case VObj(ms) => MembersLegible(fmt, ms)
    case _ => true
  }

  predicate MembersLegible(fmt: Formatter, ms: seq<Member>)
    decreases ms, 0
  {
    ms == [] || (Legible(fmt, ms[0].val) && MembersLegible(fmt, ms[1..]))
  }

  predicate ItemsLegible(fmt: Formatter, xs: seq<Value>)
    decreases xs, 0
  {
    xs == [] || (Legible(fmt, xs[0]) && ItemsLegible(fmt, xs[1..]))
  }

  /** What the sink is given: no booleans, and numbers that are doubles. */
  predicate OfDoubles(v: Value)
    decreases v, 0
  {
    match v
    case VBool(_) => false
    case VDbl(r) => IsDouble(r)
    case VArr(xs) => ItemsOfDoubles(xs)
    case VObj(ms) => MembersOfDoubles(ms)
    case _ => true
  }

  predicate MembersOfDoubles(ms: seq<Member>)
    decreases ms, 0
  {
    ms == [] || (OfDoubles(ms[0].val) && MembersOfDoubles(ms[1..]))
  }

  predicate ItemsOfDoubles(xs: seq<Value>)
    decreases xs, 0
  {
    xs == [] || (OfDoubles(xs[0]) && ItemsOfDoubles(xs[1..]))
  }

  /** Printed by o3e_json_fmt_double, every such value is legible. */
  lemma {:induction false} PrintLegible(v: Value)
    requires OfDoubles(v)
    ensures Legible(Print, v)
    decreases v, 1
  {
    hide IsDouble, Print;
    match v {
      case VDbl(r) => PrintReadsBack(r);
      case VArr(xs) => PrintItems(xs);
      case VObj(ms) => PrintMembers(ms);
      case _ =>
    }
  }

  lemma {:induction false} PrintMembers(ms: seq<Member>)
    requires MembersOfDoubles(ms)
    ensures MembersLegible(Print, ms)
    decreases ms, 0
  {
    hide OfDoubles, Legible;
    if ms != [] {
      PrintLegible(ms[0].val);
      PrintMembers(ms[1..]);
    }
  }

  lemma {:induction false} PrintItems(xs: seq<Value>)
    requires ItemsOfDoubles(xs)
    ensures ItemsLegible(Print, xs)
    decreases xs, 0
  {
    hide OfDoubles, Legible;
    if xs != [] {
      PrintLegible(xs[0]);
      PrintItems(xs[1..]);
    }
  }

  // ---- numbers ----

  lemma {:induction false} RunOf(s: string, rest: string)
    requires (forall i | 0 <= i < |s| :: Numeric(s[i])) && Stops(rest)
    ensures NumberRun(s + rest) == |s|
  {
    if s == "" {
      assert s + rest == rest;
    } else {
      assert (s + rest)[1..] == s[1..] + rest;
      RunOf(s[1..], rest);
    }
  }

  predicate Stops(rest: string) {
    rest == "" || !Numeric(rest[0])
  }

  lemma IntegerDenotes(i: int)
    ensures NumberText(DecInt(i)) && DecimalLayout.Denoted(DecInt(i)) == i as real
  {
    hide DecimalLayout.Denoted, DecimalLayout.Number, DecimalLayout.Written;
    var n := if i < 0 then -i else i;
    DecDenotes(n);
    DecimalLayout.DenotedParts(i < 0, Dec(n), None, None);
    WholeText(i);
    assert Dec(n) + "" == Dec(n);
    WholeNumber(i < 0, Dec(n));
  }

  lemma WholeText(i: int)
    ensures DecInt(i) == DecimalLayout.Written(i < 0, Dec(if i < 0 then -i else i), None, None)
  {
  }

  lemma WholeNumber(neg: bool, ds: string)
    requires DecimalLayout.AllDigits(ds)
    ensures DecimalLayout.Number(neg, ds, 0) == DecimalLayout.Signed(neg, DigitsVal(ds)) as real
  {
    hide DigitsVal;
    assert Pow10(0) == 1;
  }

  lemma NumberRead(s: string, rest: string)
    requires NumberText(s) && Stops(rest)
    ensures ReadScalar(s + rest) == Some((VDbl(AsDouble(DecimalLayout.Denoted(s))), rest))
  {
    RunOf(s, rest);
    assert (s + rest)[..|s|] == s && (s + rest)[|s|..] == rest;
    assert (s + rest)[0] == s[0];
  }

  lemma ScalarRead(fmt: Formatter, v: Value, rest: string)
    requires Legible(fmt, v) && !v.VObj? && !v.VArr? && Stops(rest)
    ensures var t := JsonText(fmt, v);
      && t != "" && !Blank(t[0]) && t[0] !in {'{', '[', ']', '}'}
      && ReadScalar(t + rest) == Some((AsRead(v), rest))
  {
    hide DecimalLayout.Denoted, DecInt, ReadScalar, Quoted, AsDouble;
    match v {
      case VInt(i) =>
        IntegerDenotes(i);
        NumberRead(DecInt(i), rest);
      case VDbl(r) => NumberRead(fmt(r), rest);
      case VStr(s) => StringRead(s, rest);
      case VNull => NullRead(rest);
    }
  }

  lemma StringRead(s: string, rest: string)
    ensures Quoted(s) != "" && Quoted(s)[0] == '"' && ReadScalar(Quoted(s) + rest) == Some((VStr(s), rest))
  {
    hide Unquote, Escape;
    LiteralReadsBack(s, rest);
    assert (Quoted(s) + rest)[1..] == Escape(s) + "\"" + rest;
  }

  lemma NullRead(rest: string)
    ensures ReadScalar("null" + rest) == Some((VNull, rest))
  {
    assert ("null" + rest)[4..] == rest;
  }

  // ---- the text of a value is the value ----

  lemma TextStarts(fmt: Formatter, v: Value)
    requires Legible(fmt, v)
    ensures JsonText(fmt, v) != "" && !Blank(JsonText(fmt, v)[0]) && JsonText(fmt, v)[0] !in {']', '}'}
  {
    if !v.VObj? && !v.VArr? {
      ScalarRead(fmt, v, "");
    }
  }

  lemma {:induction false} TextReadsBack(fmt: Formatter, v: Value, rest: string)
    requires Legible(fmt, v) && Stops(rest)
    ensures ReadValue(JsonText(fmt, v) + rest) == Some((AsRead(v), rest))
    decreases v, 1
  {
    hide ReadScalar, ReadMembers, ReadItems, MembersText, ItemsText, ScalarText;
    if v.VObj? {
      ObjectRead(fmt, v.ms, rest);
    } else if v.VArr? {
      ArrayRead(fmt, v.xs, rest);
    } else {
      ScalarRead(fmt, v, rest);
      assert (JsonText(fmt, v) + rest)[0] == JsonText(fmt, v)[0];
    }
  }

  lemma ObjectRead(fmt: Formatter, ms: seq<Member>, rest: string)
    requires MembersLegible(fmt, ms) && Stops(rest)
    ensures ReadValue(JsonText(fmt, VObj(ms)) + rest) == Some((VObj(MembersAsRead(ms)), rest))
    decreases ms, 3
  {
    hide ReadValue, ReadMembers, MembersText, MembersAsRead;
    var t := JsonText(fmt, VObj(ms)) + rest;
    var inner := MembersText(fmt, ms, true) + ("}" + rest);
    assert t == "{" + inner;
    if ms == [] {
      NoMembers(fmt);
      assert inner == "}" + rest && inner[1..] == rest;
    } else {
      MembersRead(fmt, ms, rest);
    }
    ObjectStep(t, inner);
  }

  lemma NoMembers(fmt: Formatter)
    ensures MembersText(fmt, [], true) == "" && MembersText(fmt, [], false) == "" && MembersAsRead([]) == []
  {
  }

  /** The text of some members is the first one's and what follows it. */
  lemma MembersFront(fmt: Formatter, ms: seq<Member>)
    requires ms != []
    ensures MembersText(fmt, ms, true) == Quoted(ms[0].key) + ": " + JsonText(fmt, ms[0].val) + MembersText(fmt, ms[1..], false)
    ensures MembersText(fmt, ms, false) == ", " + MembersText(fmt, ms, true)
  {
    hide JsonText, Quoted;
    var tail := Quoted(ms[0].key) + ": " + JsonText(fmt, ms[0].val) + MembersText(fmt, ms[1..], false);
    assert "" + Quoted(ms[0].key) == Quoted(ms[0].key);
    assert MembersText(fmt, ms, false) == ", " + tail;
  }

  lemma {:induction false} MembersRead(fmt: Formatter, ms: seq<Member>, rest: string)
    requires ms != [] && MembersLegible(fmt, ms)  && Stops(rest)
    ensures var t := MembersText(fmt, ms, true) + ("}" + rest);
      t[0] == '"' && ReadMembers(t) == Some((MembersAsRead(ms), rest))
    decreases ms, 2
  {
    hide ReadValue, ReadMembers, MembersText, JsonText, Unquote, Escape, MembersAsRead, Legible;
    var m, more := ms[0], MembersText(fmt, ms[1..], false) + ("}" + rest);
    var t := MembersText(fmt, ms, true) + ("}" + rest);
    MembersFront(fmt, ms);
    MoreStops(fmt, ms[1..], rest);
    TextReadsBack(fmt, m.val, more);
    TextStarts(fmt, m.val);
    LiteralReadsBack(m.key, ": " + (JsonText(fmt, m.val) + more));
    assert t == "\"" + (Escape(m.key) + "\"" + (": " + (JsonText(fmt, m.val) + more)));
    MemberStep(t, m.key, JsonText(fmt, m.val) + more, AsRead(m.val), more);
    FirstAsRead(ms);
    if ms[1..] == [] {
      NoMembers(fmt);
      assert more == "}" + rest && more[1..] == rest;
    } else {
      MembersRead(fmt, ms[1..], rest);
      MoreMembers(fmt, ms[1..], rest);
    }
  }

  lemma FirstAsRead(ms: seq<Member>)
    requires ms != []
    ensures MembersAsRead(ms) == [Member(ms[0].key, AsRead(ms[0].val))] + MembersAsRead(ms[1..])
    ensures ms[1..] == [] ==> MembersAsRead(ms) == [Member(ms[0].key, AsRead(ms[0].val))]
  {
  }

  lemma MoreMembers(fmt: Formatter, ms: seq<Member>, rest: string)
    requires ms != []
    ensures var next := MembersText(fmt, ms, true) + ("}" + rest); var more := MembersText(fmt, ms, false) + ("}" + rest);
      Skip(more[1..]) == next
  {
    hide JsonText, Escape, MembersText;
    MembersFront(fmt, ms);
    var next := MembersText(fmt, ms, true) + ("}" + rest);
    assert MembersText(fmt, ms, false) + ("}" + rest) == ", " + next;
    assert (", " + next)[1..] == " " + next;
    assert next[0] == '"';
    SkipOne(next);
  }

  lemma SkipOne(t: string)
    requires t != "" && !Blank(t[0])
    ensures Skip(" " + t) == t
  {
    assert (" " + t)[1..] == t;
  }

  lemma MoreStops(fmt: Formatter, ms: seq<Member>, rest: string)
    ensures var more := MembersText(fmt, ms, false) + ("}" + rest);
      more != "" && Stops(more) && !Blank(more[0]) && (more[0] == if ms == [] then '}' else ',')
  {
    hide JsonText, Quoted;
    if ms == [] {
      NoMembers(fmt);
    } else {
      MembersFront(fmt, ms);
    }
  }

  /** One member read, and how reading goes on. */
  lemma MemberStep(t: string, key: string, body: string, v: Value, more: string)
    requires t == "\"" + (Escape(key) + "\"" + (": " + body))
    requires Unquote(Escape(key) + "\"" + (": " + body)) == Some((key, ": " + body))
    requires body != "" && !Blank(body[0]) && ReadValue(body) == Some((v, more)) && more != "" && !Blank(more[0])
    ensures t[0] == '"'
    ensures more[0] == '}' ==> ReadMembers(t) == Some(([Member(key, v)], more[1..]))
    ensures more[0] == ',' ==> var ms := ReadMembers(Skip(more[1..]));
      ReadMembers(t) == if ms.None? then None else Some(([Member(key, v)] + ms.value.0, ms.value.1))
  {
    hide Unquote, Escape;
    assert t[1..] == Escape(key) + "\"" + (": " + body);
    var c := ": " + body;
    assert c[1..] == " " + body;
    SpaceBefore(body);
  }

  lemma SpaceBefore(body: string)
    requires body != "" && !Blank(body[0])
    ensures ReadValue(" " + body) == ReadValue(body)
  {
    hide ReadMembers, ReadItems, ReadScalar;
    SkipOne(body);
  }

  lemma ArrayRead(fmt: Formatter, xs: seq<Value>, rest: string)
    requires ItemsLegible(fmt, xs) && Stops(rest)
    ensures ReadValue(JsonText(fmt, VArr(xs)) + rest) == Some((VArr(ItemsAsRead(xs)), rest))
    decreases xs, 3
  {
    hide ReadValue, ReadItems, ItemsText, ItemsAsRead;
    var t := JsonText(fmt, VArr(xs)) + rest;
    var inner := ItemsText(fmt, xs, true) + ("]" + rest);
    assert t == "[" + inner;
    if xs == [] {
      NoItems(fmt);
      assert inner == "]" + rest && inner[1..] == rest;
    } else {
      ItemsRead(fmt, xs, rest);
    }
    ArrayStep(t, inner);
  }

  lemma ArrayStep(t: string, inner: string)
    requires t == "[" + inner && inner != "" && !Blank(inner[0])
    ensures var xs := ReadItems(inner);
      ReadValue(t) == if inner[0] == ']' then Some((VArr([]), inner[1..]))
                      else if xs.None? then None else Some((VArr(xs.value.0), xs.value.1))
  {
    hide ReadItems, ReadMembers, ReadScalar;
    assert t[0] == '[' && t[1..] == inner;
  }

  lemma ObjectStep(t: string, inner: string)
    requires t == "{" + inner && inner != "" && !Blank(inner[0])
    ensures var ms := ReadMembers(inner);
      ReadValue(t) == if inner[0] == '}' then Some((VObj([]), inner[1..]))
                      else if ms.None? then None else Some((VObj(ms.value.0), ms.value.1))
  {
    hide ReadItems, ReadMembers, ReadScalar;
    assert t[0] == '{' && t[1..] == inner;
  }

  lemma NoItems(fmt: Formatter)
    ensures ItemsText(fmt, [], true) == "" && ItemsText(fmt, [], false) == "" && ItemsAsRead([]) == []
  {
  }

  lemma ItemsFront(fmt: Formatter, xs: seq<Value>)
    requires xs != []
    ensures ItemsText(fmt, xs, true) == JsonText(fmt, xs[0]) + ItemsText(fmt, xs[1..], false)
    ensures ItemsText(fmt, xs, false) == ", " + ItemsText(fmt, xs, true)
  {
    hide JsonText;
    assert "" + JsonText(fmt, xs[0]) == JsonText(fmt, xs[0]);
    assert ItemsText(fmt, xs, false) == ", " + (JsonText(fmt, xs[0]) + ItemsText(fmt, xs[1..], false));
  }

  lemma {:induction false} ItemsRead(fmt: Formatter, xs: seq<Value>, rest: string)
    requires xs != [] && ItemsLegible(fmt, xs) && Stops(rest)
    ensures var t := ItemsText(fmt, xs, true) + ("]" + rest);
      t[0] != ']' && !Blank(t[0]) && ReadItems(t) == Some((ItemsAsRead(xs), rest))
    decreases xs, 2
  {
    hide ReadValue, ReadItems, ItemsText, JsonText;
    var more := ItemsText(fmt, xs[1..], false) + ("]" + rest);
    var t := ItemsText(fmt, xs, true) + ("]" + rest);
    ItemsFront(fmt, xs);
    assert t == JsonText(fmt, xs[0]) + more;
    if xs[1..] == [] {
      NoItems(fmt);
      assert more == "]" + rest && more[1..] == rest;
    } else {
      ItemsFront(fmt, xs[1..]);
    }
    TextReadsBack(fmt, xs[0], more);
    TextStarts(fmt, xs[0]);
    ItemStep(t, AsRead(xs[0]), more);
    assert ItemsAsRead(xs) == [AsRead(xs[0])] + ItemsAsRead(xs[1..]);
    if xs[1..] == [] {
      assert ItemsAsRead(xs[1..]) == [] && ItemsAsRead(xs) == [AsRead(xs[0])];
    } else {
      var next := ItemsText(fmt, xs[1..], true) + ("]" + rest);
      assert more == ", " + next && more[1..] == " " + next;
      ItemsRead(fmt, xs[1..], rest);
      SkipOne(next);
    }
  }

  lemma ItemStep(t: string, v: Value, more: string)
    requires ReadValue(t) == Some((v, more)) && more != "" && !Blank(more[0])
    ensures more[0] == ']' ==> ReadItems(t) == Some(([v], more[1..]))
    ensures more[0] == ',' ==> var xs := ReadItems(Skip(more[1..]));
      ReadItems(t) == if xs.None? then None else Some(([v] + xs.value.0, xs.value.1))
  {
  }
}
