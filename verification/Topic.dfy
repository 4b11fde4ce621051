/** Topics from a format, written twice: mqtt_pub_topic in main/mqtt_pub.c and
    expandTopic in web/app.js. */
module Topic {
  import opened Text
  import opened Wrappers

  const SPEC_MAX := 16
  const SUB_MAX := 96

  /** What the placeholders stand for. A missing name or device is empty. */
  datatype Point = Point(ecu: nat, did: nat, didName: string, device: string)

  predicate Has(s: string, c: char) {
    IndexOf(s, c) < |s|
  }

  function NameOf(body: string): string {
    body[..IndexOf(body, ':')]
  }

  function SpecOf(body: string): string {
    if Has(body, ':') then body[IndexOf(body, ':') + 1..] else ""
  }

  function PadLeft(s: string, w: nat): string {
    if |s| >= w then s else seq(w - |s|, i => '0') + s
  }

  function HexNum(n: nat, upper: bool): string {
    (if n < 16 then "" else HexNum(n / 16, upper)) + [if upper then UpperDigit(n % 16) else HexDigit(n % 16)]
  }

  function UpperDigit(n: nat): char
    requires n < 16
  {
    if n < 10 then '0' + n as char else 'A' + (n - 10) as char
  }

  /** The zero-padded width a spec like 04d asks for. */
  function Width(spec: string): nat {
    if spec != "" && spec[0] == '0' then DigitsVal(spec[..DigitRun(spec)]) else 0
  }

  function Substitute(x: Point, name: string, spec: string): Option<string> {
    if name == "didName" then Some(x.didName)
    else if name == "didNumber" then Some(PadLeft(Dec(x.did), Width(spec)))
    else if name == "ecuAddr" then
      Some(if Has(spec, 'X') then PadLeft(HexNum(x.ecu, true), 3)
           else if Has(spec, 'x') then PadLeft(HexNum(x.ecu, false), 3)
           else Dec(x.ecu))
    else if name == "device" then Some(x.device)
    else None
  }

  /** The text for a placeholder at the front of `s`, just after the brace;
      `tight` is the firmware's, with its fixed buffers. */
  function Placeholder(x: Point, s: string, tight: bool): Option<string> {
    var c := IndexOf(s, '}');
    var sub := Substitute(x, NameOf(s[..c]), SpecOf(s[..c]));
    if c == |s| || sub.None? || (tight && |SpecOf(s[..c])| >= SPEC_MAX) then None
    else Some(if tight then Cut(sub.value, SUB_MAX) else sub.value)
  }

  function Expand(x: Point, f: string, tight: bool): string
    decreases |f|
  {
    if f == "" then ""
    else if f[0] != '{' then [f[0]] + Expand(x, f[1..], tight)
    else
      var sub := Placeholder(x, f[1..], tight);
      if sub.None? then "{" + Expand(x, f[1..], tight)
      else sub.value + Expand(x, f[IndexOf(f[1..], '}') + 2..], tight)
  }

  predicate Fits(x: Point, s: string) {
    var sub := Placeholder(x, s, false);
    sub.None? || (|SpecOf(s[..IndexOf(s, '}')])| < 16 && |sub.value| < 96)
  }

  /** Every placeholder that is recognised has a short spec and a short text. */
  predicate Modest(x: Point, f: string)
    decreases |f|
  {
    if f == "" then true
    else if f[0] != '{' then Modest(x, f[1..])
    else
      var c := IndexOf(f[1..], '}');
      var sub := Placeholder(x, f[1..], false);
      if sub.None? then Modest(x, f[1..])
      else Fits(x, f[1..]) && Modest(x, f[c + 2..])
  }

  // ---- what a placeholder gives ----

  predicate HexDigits(s: string, upper: bool) {
    s != "" && forall i | 0 <= i < |s| :: IsDigit(s[i]) || (if upper then 'A' <= s[i] <= 'F' else 'a' <= s[i] <= 'f')
  }

  /** The number that hexadecimal digits denote. */
  function HexDenoted(s: string): nat
    requires HexDigits(s, true) || HexDigits(s, false)
  {
    var last := s[|s| - 1];
    var d: nat := if IsDigit(last) then last as int - '0' as int
                  else if 'A' <= last <= 'F' then last as int - 'A' as int + 10
                  else last as int - 'a' as int + 10;
    if |s| == 1 then d else 16 * HexDenoted(s[..|s| - 1]) + d
  }

  function LastHex(n: nat, upper: bool): char
    requires n < 16
  {
    if upper then UpperDigit(n) else HexDigit(n)
  }

  lemma {:induction false} HexNumDenotes(n: nat, upper: bool)
    ensures HexDigits(HexNum(n, upper), upper) && HexDenoted(HexNum(n, upper)) == n
  {
    hide HexDenoted;
    if n >= 16 {
      HexNumDenotes(n / 16, upper);
      HexMore(HexNum(n / 16, upper), n % 16, upper);
      assert HexNum(n, upper) == HexNum(n / 16, upper) + [LastHex(n % 16, upper)];
    } else {
      HexOne(n, upper);
      assert HexNum(n, upper) == [LastHex(n, upper)];
    }
  }

  lemma HexOne(d: nat, upper: bool)
    requires d < 16
    ensures HexDigits([LastHex(d, upper)], upper) && HexDenoted([LastHex(d, upper)]) == d
  {
  }

  lemma HexMore(s: string, d: nat, upper: bool)
    requires HexDigits(s, upper) && d < 16
    ensures HexDigits(s + [LastHex(d, upper)], upper) && HexDenoted(s + [LastHex(d, upper)]) == 16 * HexDenoted(s) + d
  {
    assert (s + [LastHex(d, upper)])[..|s|] == s;
  }

  /** `s` with zeros in front, up to `w` characters. */
  predicate PaddedTo(t: string, s: string, w: nat) {
    |t| >= |s| && t[|t| - |s|..] == s && |t| == (if |s| < w then w else |s|) && forall i | 0 <= i < |t| - |s| :: t[i] == '0'
  }

  /** Each of the four placeholders: the name; the number in decimal, with zeros to
      the width a spec beginning with 0 asks for; the address in upper or lower case
      hexadecimal of at least three digits, or in decimal; the device. */
  lemma SubstituteMeans(x: Point, spec: string, w: nat)
    requires spec != "" && spec[0] == '0' && DigitsVal(spec[..DigitRun(spec)]) == w
    ensures Substitute(x, "didName", spec) == Some(x.didName) && Substitute(x, "device", spec) == Some(x.device)
    ensures var t := Substitute(x, "didNumber", spec);
      t.Some? && exists s :: PaddedTo(t.value, s, w) && s != "" && (forall i | 0 <= i < |s| :: IsDigit(s[i])) && DigitsVal(s) == x.did
  {
    hide DigitRun, DigitsVal, Dec;
    DecDenotes(x.did);
    var t := PadLeft(Dec(x.did), w);
    assert PaddedTo(t, Dec(x.did), w);
  }

  /** Without a leading 0 in the spec there is no width. */
  lemma PlainNumber(x: Point, spec: string)
    requires spec == "" || spec[0] != '0'
    ensures var t := Substitute(x, "didNumber", spec);
      t.Some? && t.value != "" && (forall i | 0 <= i < |t.value| :: IsDigit(t.value[i])) && DigitsVal(t.value) == x.did
  {
    DecDenotes(x.did);
  }

  lemma AddressMeans(x: Point, spec: string)
    ensures var t := Substitute(x, "ecuAddr", spec);
      && t.Some?
      && (if 'X' in spec || 'x' in spec then
            exists s :: PaddedTo(t.value, s, 3) && HexDigits(s, 'X' in spec) && HexDenoted(s) == x.ecu
          else t.value != "" && (forall i | 0 <= i < |t.value| :: IsDigit(t.value[i])) && DigitsVal(t.value) == x.ecu)
  {
    hide HexNum, HexDenoted, DigitsVal;
    HasIs(spec, 'X');
    HasIs(spec, 'x');
    DecDenotes(x.ecu);
    HexNumDenotes(x.ecu, 'X' in spec);
    var s := HexNum(x.ecu, 'X' in spec);
    assert PaddedTo(PadLeft(s, 3), s, 3);
  }

  lemma HasIs(s: string, c: char)
    ensures Has(s, c) <==> c in s
  {
    hide IndexOf;
  }

  /** Any other name is no placeholder, and neither is one without a closing brace;
      what they stand for is copied. */
  lemma OtherNames(x: Point, name: string, spec: string, s: string, tight: bool)
    ensures name !in {"didName", "didNumber", "ecuAddr", "device"} ==> Substitute(x, name, spec) == None
    ensures '}' !in s ==> Placeholder(x, s, tight) == None
  {
    hide Substitute;
    HasIs(s, '}');
    if name !in {"didName", "didNumber", "ecuAddr", "device"} {
      UnknownName(x, name, spec);
    }
  }

  lemma UnknownName(x: Point, name: string, spec: string)
    requires name !in {"didName", "didNumber", "ecuAddr", "device"}
    ensures Substitute(x, name, spec) == None
  {
  }

  /** Within those sizes the two expanders give the same text, whatever the
      format: unclosed braces and unknown names included. */
  lemma {:induction false} ExpandersAgree(x: Point, f: string)
    requires Modest(x, f)
    ensures Expand(x, f, true) == Expand(x, f, false)
    decreases |f|
  {
    if f != "" {
      if f[0] == '{' && Placeholder(x, f[1..], false).Some? {
        ExpandersAgree(x, f[IndexOf(f[1..], '}') + 2..]);
      } else {
        ExpandersAgree(x, f[1..]);
      }
    }
  }

  lemma ExpandAt(x: Point, f: string, i: nat, tight: bool)
    requires i < |f|
    ensures f[i] != '{' ==> Expand(x, f[i..], tight) == [f[i]] + Expand(x, f[i + 1..], tight)
    ensures f[i] == '{' && Placeholder(x, f[i + 1..], tight).None? ==> Expand(x, f[i..], tight) == [f[i]] + Expand(x, f[i + 1..], tight)
    ensures var c := IndexOf(f[i + 1..], '}'); c <= |f| - i - 1
    ensures var c := IndexOf(f[i + 1..], '}'); var sub := Placeholder(x, f[i + 1..], tight);
      f[i] == '{' && sub.Some? ==> i + c + 2 <= |f| && Expand(x, f[i..], tight) == sub.value + Expand(x, f[i + c + 2..], tight)
  {
    hide Placeholder;
    var c := IndexOf(f[i + 1..], '}');
    assert f[i..][1..] == f[i + 1..];
    if Placeholder(x, f[i + 1..], tight).Some? {
      Closed(x, f[i + 1..], tight);
      assert f[i..][c + 2..] == f[i + c + 2..];
    }
  }

  lemma Closed(x: Point, s: string, tight: bool)
    requires Placeholder(x, s, tight).Some?
    ensures IndexOf(s, '}') < |s|
  {
  }

  function Browser(base: string, format: string, x: Point, override: string): string {
    base + "/" + if override != "" then override else Expand(x, if format == "" then "{didName}" else format, false)
  }

  function Firmware(size: nat, base: string, format: string, x: Point, override: string): string
    requires size > 0
  {
    Cut(base + "/" + if override != "" then override else Expand(x, format, true), size)
  }

  /** Both name the same topic; a buffer too small only cuts it off. */
  lemma TopicsAgree(size: nat, base: string, format: string, x: Point, override: string)
    requires size > 0 && (override != "" || (format != "" && Modest(x, format)))
    ensures Firmware(size, base, format, x, override) == Cut(Browser(base, format, x, override), size)
    ensures |Browser(base, format, x, override)| < size ==>
      Firmware(size, base, format, x, override) == Browser(base, format, x, override)
  {
    if override == "" {
      ExpandersAgree(x, format);
    }
  }

  // ---- the browser's ----

  method ExpandTopic(base: string, format: string, x: Point, override: string) returns (out: string)
    ensures out == Browser(base, format, x, override)
  {
    if override != "" {
      return base + "/" + override;
    }
    var f := if format == "" then "{didName}" else format;
    out := base + "/";
    out := ExpandOnto(out, f, x);
  }

  method ExpandOnto(start: string, f: string, x: Point) returns (out: string)
    ensures out == start + Expand(x, f, false)
  {
    hide Expand, Substitute, NameOf, SpecOf, IndexOf;
    out := start;
    ghost var done := "";
    var i: nat := 0;
    assert f[0..] == f && "" + Expand(x, f, false) == Expand(x, f, false);
    while i < |f|
      invariant i <= |f| && out == start + done && done + Expand(x, f[i..], false) == Expand(x, f, false)
      decreases |f| - i
    {
      ExpandAt(x, f, i, false);
      var close := i + 1 + IndexOf(f[i + 1..], '}');
      var body := if close == |f| then "" else f[i + 1..close];
      assert close < |f| ==> body == f[i + 1..][..close - i - 1];
      var sub := if f[i] != '{' || close == |f| then None else Substitute(x, NameOf(body), SpecOf(body));
      var piece, next := [f[i]], i + 1;
      if sub.Some? {
        piece, next := sub.value, close + 1;
      }
      assert Expand(x, f[i..], false) == piece + Expand(x, f[next..], false);
      assert (done + piece) + Expand(x, f[next..], false) == done + (piece + Expand(x, f[next..], false));
      assert start + (done + piece) == (start + done) + piece;
      done := done + piece;
      out := out + piece;
      i := next;
    }
    ExpandEnd(x, false);
    assert f[|f|..] == "" && done + "" == done;
  }

  lemma ExpandEnd(x: Point, tight: bool)
    ensures Expand(x, "", tight) == ""
  {
  }

  // ---- the firmware's ----

  predicate Plain(name: string) {
    forall k | 0 <= k < |name| :: name[k] != ':' && name[k] != '}'
  }

  /** Whether a placeholder of that name is next, as the grammar has it. */
  predicate Matches(s: string, name: string) {
    var c := IndexOf(s, '}');
    c < |s| && NameOf(s[..c]) == name && |SpecOf(s[..c])| < 16
  }

  lemma NameMatched(s: string, name: string)
    requires Plain(name) && name <= s
    ensures var c := IndexOf(s, '}'); var n := |name|;
      && n <= c
      && (c < |s| && NameOf(s[..c]) == name <==> n < |s| && c < |s| && (s[n] == '}' || s[n] == ':'))
      && (n < c && s[n] == ':' ==> SpecOf(s[..c]) == s[n + 1..c])
      && (n < |s| && s[n] == '}' ==> c == n && SpecOf(s[..c]) == "")
  {
    hide IndexOf;
    var n := |name|;
    assert forall j | 0 <= j < n :: s[j] == name[j];
    IndexSkips(s, '}', n);
    ColonAt(s, n, IndexOf(s, '}'), name);
  }

  lemma ColonAt(s: string, n: nat, c: nat, name: string)
    requires n <= c <= |s| && (forall j | 0 <= j < n :: s[j] != ':') && s[..n] == name
    ensures NameOf(s[..c]) == name <==> n == c || s[n] == ':'
    ensures n < c && s[n] == ':' ==> SpecOf(s[..c]) == s[n + 1..c]
    ensures n == c ==> SpecOf(s[..c]) == ""
  {
    hide IndexOf;
    var body, k := s[..c], IndexOf(s[..c], ':');
    IndexSkips(body, ':', n);
    assert n <= k;
    if n < c && s[n] == ':' {
      assert body[n] == ':';
      assert k == n;
      assert body[..n] == name && body[n + 1..] == s[n + 1..c];
    } else if n == c {
      assert k == n && body[..n] == name;
    } else {
      assert body[n] != ':';
      assert k > n;
      assert |NameOf(body)| == k;
    }
  }

  lemma MatchedStarts(s: string, name: string)
    requires Matches(s, name)
    ensures name <= s
  {
    var c := IndexOf(s, '}');
    assert NameOf(s[..c]) == s[..IndexOf(s[..c], ':')];
  }

  method ReadSpec(s: string, from: nat) returns (q: nat, spec: string)
    requires from <= |s|
    ensures from <= q <= |s| && spec == s[from..q] && |spec| < SPEC_MAX
    ensures forall k | from <= k < q :: s[k] != '}'
    ensures q == |s| || s[q] == '}' || |spec| + 1 == SPEC_MAX
  {
    q, spec := from, "";
    while q < |s| && s[q] != '}' && |spec| + 1 < SPEC_MAX
      invariant from <= q <= |s| && spec == s[from..q] && |spec| < SPEC_MAX
      invariant forall k | from <= k < q :: s[k] != '}'
    {
      spec := spec + [s[q]];
      q := q + 1;
    }
  }

  /** match_placeholder */
  method MatchPlaceholder(s: string, name: string) returns (ok: bool, adv: nat, spec: string)
    requires Plain(name)
    ensures ok <==> Matches(s, name)
    ensures ok ==> adv == IndexOf(s, '}') + 1 && spec == SpecOf(s[..adv - 1])
  {
    hide IndexOf, SpecOf, NameOf;
    ok, adv, spec := false, 0, "";
    if !(name <= s) {
      if Matches(s, name) {
        MatchedStarts(s, name);
      }
      return;
    }
    NameMatched(s, name);
    var q: nat := |name|;
    assert forall k | 0 <= k < q :: s[k] == name[k];
    if q < |s| && s[q] == ':' {
      q, spec := ReadSpec(s, q + 1);
    }
    IndexSkips(s, '}', q);
    if q == |s| || s[q] != '}' {
      return;
    }
    assert s[q..][0] == '}';
    ok, adv := true, q + 1;
  }

  lemma MatchedIs(x: Point, s: string, name: string)
    requires Matches(s, name)
    ensures var c := IndexOf(s, '}'); c < |s|
    ensures var sub := Substitute(x, name, SpecOf(s[..IndexOf(s, '}')]));
      Placeholder(x, s, true) == if sub.None? then None else Some(Cut(sub.value, SUB_MAX))
  {
    hide IndexOf, Substitute, SpecOf, NameOf;
  }

  lemma NoneMatched(x: Point, s: string)
    requires !Matches(s, "didName") && !Matches(s, "didNumber") && !Matches(s, "ecuAddr") && !Matches(s, "device")
    ensures Placeholder(x, s, true) == None
  {
    hide IndexOf, SpecOf, NameOf, PadLeft, HexNum;
  }

  /** One of the four names, and what is put in its place. */
  method Next(x: Point, s: string) returns (sub: Option<string>, adv: nat)
    ensures sub == Placeholder(x, s, true)
    ensures sub.Some? ==> adv == IndexOf(s, '}') + 1 <= |s|
  {
    hide IndexOf, HexNum, PadLeft, DigitsVal, DigitRun, Matches, Placeholder, SpecOf, Cut;
    var ok, spec;
    ok, adv, spec := MatchPlaceholder(s, "didName");
    if ok {
      MatchedIs(x, s, "didName");
      return Some(Cut(x.didName, SUB_MAX)), adv;
    }
    ok, adv, spec := MatchPlaceholder(s, "didNumber");
    if ok {
      MatchedIs(x, s, "didNumber");
      var width := if spec != "" && spec[0] == '0' then DigitsVal(spec[..DigitRun(spec)]) else 0;
      return Some(Cut(PadLeft(Dec(x.did), width), SUB_MAX)), adv;
    }
    ok, adv, spec := MatchPlaceholder(s, "ecuAddr");
    if ok {
      MatchedIs(x, s, "ecuAddr");
      var t := Dec(x.ecu);
      if Has(spec, 'X') {
        t := PadLeft(HexNum(x.ecu, true), 3);
      } else if Has(spec, 'x') {
        t := PadLeft(HexNum(x.ecu, false), 3);
      }
      return Some(Cut(t, SUB_MAX)), adv;
    }
    ok, adv, spec := MatchPlaceholder(s, "device");
    if ok {
      MatchedIs(x, s, "device");
      return Some(Cut(x.device, SUB_MAX)), adv;
    }
    NoneMatched(x, s);
    sub := None;
  }

  /** mqtt_pub_topic: the text as far as the buffer goes. */
  method MqttPubTopic(size: nat, base: string, format: string, x: Point, override: string) returns (out: string)
    requires size > 0
    ensures out == Firmware(size, base, format, x, override)
  {
    if override != "" {
      return Cut(base + "/" + override, size);
    }
    out := Cut(base + "/", size);
    out := FillOnto(out, base + "/", format, x, size);
  }

  /** Character by character until the format or the buffer ends. `start` is
      what was meant to be in the buffer already. */
  method FillOnto(begin: string, ghost start: string, format: string, x: Point, size: nat) returns (out: string)
    requires size > 0 && begin == Cut(start, size)
    ensures out == Cut(start + Expand(x, format, true), size)
  {
    hide Expand, Placeholder, IndexOf, Cut;
    ghost var full := start;
    out := begin;
    var p: nat := 0;
    assert format[0..] == format;
    CutLength(full, size);
    while p < |format| && |out| + 1 < size
      invariant p <= |format| && out == Cut(full, size)
      invariant full + Expand(x, format[p..], true) == start + Expand(x, format, true)
      decreases |format| - p
    {
      ExpandAt(x, format, p, true);
      var sub, adv := None, 0;
      if format[p] == '{' {
        sub, adv := Next(x, format[p + 1..]);
      }
      var piece, next := [format[p]], p + 1;
      if sub.Some? {
        piece, next := sub.value, p + 1 + adv;
      }
      assert (full + piece) + Expand(x, format[next..], true) == full + (piece + Expand(x, format[next..], true));
      out := Append(out, full, piece, size);
      full := full + piece;
      p := next;
      CutLength(full, size);
    }
    ExpandEnd(x, true);
    assert p == |format| ==> format[p..] == "" && full + "" == full;
    Full(full, Expand(x, format[p..], true), size);
  }

  method Append(out: string, ghost full: string, piece: string, size: nat) returns (more: string)
    requires size > 0 && out == Cut(full, size)
    ensures more == Cut(full + piece, size)
  {
    more := out;
    var k: nat := 0;
    assert full + piece[..0] == full;
    while k < |piece| && |more| + 1 < size
      invariant k <= |piece| && more == Cut(full + piece[..k], size)
    {
      assert full + piece[..k + 1] == full + piece[..k] + [piece[k]];
      more := more + [piece[k]];
      k := k + 1;
    }
    assert piece[..k] + piece[k..] == piece;
    Full(full + piece[..k], piece[k..], size);
    assert full + piece[..k] + piece[k..] == full + piece;
  }

  lemma CutLength(s: string, size: nat)
    requires size > 0
    ensures |Cut(s, size)| == if |s| < size then |s| else size - 1
  {
  }

  /** A text that stopped growing is either whole or the buffer is full. */
  lemma Full(s: string, t: string, size: nat)
    requires size > 0
    ensures t == "" || |Cut(s, size)| + 1 >= size ==> Cut(s, size) == Cut(s + t, size)
  {
    if t == "" {
      assert s + t == s;
    } else {
      assert (s + t)[..|s|] == s;
    }
  }

  /** One placeholder comes out the same exactly when it is not recognised at
      all, or its spec is short and its text fits. */
  lemma PlaceholderAgrees(x: Point, s: string)
    ensures Placeholder(x, s, true) == Placeholder(x, s, false) <==> Fits(x, s)
  {
  }

  /** Where the two part: the browser replaces an empty format. They name the
      same topic exactly when there is no name to replace it with and the base
      fits the buffer. */
  lemma EmptyFormat(size: nat, base: string, x: Point)
    requires size > 0
    ensures Firmware(size, base, "", x, "") == Browser(base, "", x, "") <==> x.didName == "" && |base| + 1 < size
  {
    hide Placeholder;
    OnlyName(x);
    assert |Cut(base + "/", size)| <= |base| + 1;
  }

  lemma OnlyName(x: Point)
    ensures Expand(x, "", true) == "" && Expand(x, "{didName}", false) == x.didName
  {
    hide Expand, IndexOf, Has;
    var name, f := "didName", "{didName}";
    ExpandEnd(x, true);
    ExpandEnd(x, false);
    assert f[1..] == name + "}";
    JustName(name);
    ExpandAt(x, f, 0, false);
    assert f[0..] == f && f[9..] == "";
  }

  /** Past those sizes the firmware leaves a placeholder with a long spec as it is,
      and of a long text it keeps 95 characters. */
  lemma FirmwareCuts(x: Point, s: string)
    ensures var c := IndexOf(s, '}'); var sub, t := Substitute(x, NameOf(s[..c]), SpecOf(s[..c])), Placeholder(x, s, true);
      c < |s| && sub.Some? ==>
        && (t.None? <==> |SpecOf(s[..c])| >= 16)
        && (t.Some? ==> t.value <= sub.value && |t.value| == if |sub.value| < 96 then |sub.value| else 95)
  {
    hide Substitute, IndexOf, NameOf, SpecOf;
  }

  /** So the name alone comes out cut where the browser shows all of it. */
  lemma LongName(size: nat, base: string, x: Point)
    requires |base| + 97 <= size
    ensures var n := x.didName;
      && Firmware(size, base, "{didName}", x, "") == base + "/" + (if |n| < 96 then n else n[..95])
      && Browser(base, "{didName}", x, "") == base + "/" + n
  {
    hide Expand, IndexOf, Has;
    var name, f := "didName", "{didName}";
    ExpandEnd(x, true);
    assert f[1..] == name + "}";
    JustName(name);
    ExpandAt(x, f, 0, true);
    OnlyName(x);
    assert f[0..] == f && f[9..] == "";
  }

  lemma JustName(name: string)
    requires Plain(name)
    ensures IndexOf(name + "}", '}') == |name| && (name + "}")[..|name|] == name
    ensures NameOf(name) == name && SpecOf(name) == ""
  {
    var s := name + "}";
    IndexSkips(s, '}', |name|);
    assert s[|name|..] == "}";
    IndexSkips(name, ':', |name|);
    assert name[|name|..] == "";
  }
}
