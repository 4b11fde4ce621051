/** encode_node as the C code runs it: it clears the node's bytes in the
    caller's buffer and fills them in place, field by field. */
module CodecEncoder {
  import opened Bytes
  import opened Text
  import opened Wrappers
  import opened Doubles
  import opened Json
  import opened CodecTree
  import opened CodecEncode

  /** What encode_node reports, besides the bytes it leaves in the buffer. */
  datatype Outcome = Done | Refused(error: EncError)

  /** The report and the written bytes agree with the meaning of encoding. */
  predicate Agrees(o: Outcome, written: bytes, e: Encoded) {
    match e
    case Ok(s) => o == Done && written == s
    case Err(x) => o == Refused(x)
  }

  /** Bytes already written, then whatever the rest encodes to. */
  function After(done: bytes, e: Encoded): Encoded {
    match e
    case Ok(s) => Ok(done + s)
    case Err(x) => Err(x)
  }

  /** `b` with `w` written over it at `at`. */
  function Splice(b: bytes, at: nat, w: bytes): (r: bytes)
    requires at + |w| <= |b|
    ensures |r| == |b|
  {
    b[..at] + w + b[at + |w|..]
  }

  lemma SpliceInner(b: bytes, at: nat, w: bytes, off: nat, s: bytes)
    requires at + |w| <= |b| && off + |s| <= |w|
    ensures Splice(Splice(b, at, w), at + off, s) == Splice(b, at, Splice(w, off, s))
  {
    var left, right := Splice(Splice(b, at, w), at + off, s), Splice(b, at, Splice(w, off, s));
    assert forall i :: 0 <= i < |b| ==> left[i] == right[i];
  }

  lemma SplicePoke(b: bytes, at: nat, w: bytes, i: nat, x: byte)
    requires at + |w| <= |b| && i < |w|
    ensures Splice(b, at, w)[at + i := x] == Splice(b, at, w[i := x])
  {
  }

  lemma SpliceAll(b: bytes, at: nat, w: bytes, s: bytes)
    requires at + |w| <= |b| && |s| == |w|
    ensures Splice(Splice(b, at, w), at, s) == Splice(b, at, s)
  {
  }

  lemma SpliceSame(b: bytes, at: nat, len: nat)
    requires at + len <= |b|
    ensures Splice(b, at, b[at..at + len]) == b
  {
  }

  lemma SpliceRead(b: bytes, at: nat, w: bytes)
    requires at + |w| <= |b|
    ensures Splice(b, at, w)[at..at + |w|] == w
  {
  }

  /** Writing the front of a cleared region, then what comes behind it. */
  lemma SpliceHead(b: bytes, at: nat, len: nat, c: bytes)
    requires at + len <= |b| && |c| <= len && b[at..at + len] == Zeros(len)
    ensures b[..at] + c + b[at + |c|..] == Splice(b, at, c + Zeros(len - |c|))
    ensures Splice(b, at, c + Zeros(len - |c|))[at + |c|..at + len] == Zeros(len - |c|)
  {
    assert b[at + |c|..at + len] == b[at..at + len][|c|..] == Zeros(len - |c|);
    assert b[at + |c|..] == b[at + |c|..at + len] + b[at + len..];
  }

  lemma SpliceBehind(b: bytes, at: nat, c: bytes, rest: bytes, s: bytes)
    requires at + |c| + |rest| <= |b| && |s| <= |rest|
    ensures Splice(Splice(b, at, c + rest), at + |c|, s) == Splice(b, at, c + (s + rest[|s|..]))
  {
    var w := c + rest;
    SpliceInner(b, at, w, |c|, s);
    assert Splice(w, |c|, s) == c + (s + rest[|s|..]);
  }

  method Clear(out: array<byte>, at: nat, n: nat)
    requires at + n <= out.Length
    modifies out
    ensures out[..] == Splice(old(out[..]), at, Zeros(n))
  {
    ghost var b := out[..];
    var i := 0;
    while i < n
      invariant 0 <= i <= n
      invariant out[..] == b[..at] + Zeros(i) + b[at + i..]
    {
      out[at + i] := 0;
      i := i + 1;
    }
  }

  /** Copies `s` into the buffer. */
  method Store(out: array<byte>, at: nat, s: bytes)
    requires at + |s| <= out.Length
    modifies out
    ensures out[..] == Splice(old(out[..]), at, s)
  {
    ghost var b := out[..];
    var i := 0;
    while i < |s|
      invariant 0 <= i <= |s|
      invariant out[..] == b[..at] + s[..i] + b[at + i..]
    {
      out[at + i] := s[i];
      i := i + 1;
    }
  }

  /** The whole of encode_node. `w` is what the node's bytes end up as: the
      encoding on success; nothing outside them changes in any case. */
  method EncodeNode(env: Env, n: Node, v: Value, out: array<byte>, at: nat, room: nat)
    returns (o: Outcome, ghost w: bytes)
    requires Sized(n) && at + room <= out.Length
    modifies out
    ensures n.len <= room ==> |w| == n.len && out[..] == Splice(old(out[..]), at, w)
    ensures n.len <= room ==> Agrees(o, w, Encode(env, n, v))
    ensures n.len > room ==> o == Refused(TooSmall) && out[..] == old(out[..])
    decreases n, 3, 0
  {
    hide Encode, Sized, Splice;
    if room < n.len {
      w := [];
      return Refused(TooSmall), w;
    }
    Clear(out, at, n.len);
    SpliceRead(old(out[..]), at, Zeros(n.len));
    if n.kind == Complex {
      o, w := EncodeComplex(env, n, v, out, at);
    } else if n.kind == List {
      o, w := EncodeListNode(env, n, v, out, at);
    } else if n.kind == Switch {
      o, w := EncodeSwitchNode(env, n, v, out, at);
    } else {
      o, w := EncodeLeaf(env, n, v, out, at);
    }
    SpliceAll(old(out[..]), at, Zeros(n.len), w);
  }

  /** Kinds whose bytes come from one conversion. */
  method EncodeLeaf(env: Env, n: Node, v: Value, out: array<byte>, at: nat)
    returns (o: Outcome, ghost w: bytes)
    requires Sized(n) && n.kind !in {Complex, List, Switch}
    requires at + n.len <= out.Length && out[at..at + n.len] == Zeros(n.len)
    modifies out
    ensures |w| == n.len && out[..] == Splice(old(out[..]), at, w) && Agrees(o, w, Encode(env, n, v))
  {
    hide Splice;
    if n.kind == Raw {
      o, w := EncodeHex(env, n, v, out, at);
    } else if n.kind == Stime {
      o, w := EncodeTime(env, n, v, out, at);
    } else {
      w := Zeros(n.len);
      SpliceSame(out[..], at, n.len);
      var e := EncodeScalar(env, n, v);
      if e.Ok? {
        w := e.value;
        Store(out, at, e.value);
        o := Done;
      } else {
        o := Refused(e.error);
      }
    }
  }

  /** Kinds whose bytes come from one number or one word. */
  method EncodeScalar(env: Env, n: Node, v: Value) returns (e: Encoded)
    requires Sized(n) && n.kind !in {Raw, Stime, Complex, List, Switch}
    ensures e == Encode(env, n, v)
  {
    hide LE, Sized, AsReal, Trunc;
    if n.kind == Int {
      e := EncodeInt(env, n, v);
    } else if n.kind == Enum {
      e := EncodeEnumValue(env, n, v);
    } else if n.kind == Float32 {
      e := if IsNumber(v) then Ok(LE(env.floatBits(AsReal(v)), 4)) else Err(WrongType);
    } else if n.kind == ByteVal {
      if !IsNumber(v) {
        e := Err(WrongType);
      } else if AsReal(v) < 0.0 {
        e := Err(Negative);
      } else {
        e := Ok(LE(Trunc(AsReal(v)), n.len));
      }
    } else if n.kind == Bool {
      e := EncodeBoolean(env, n, v);
    } else {
      e := Err(NotEncodable);
    }
  }

  method EncodeInt(env: Env, n: Node, v: Value) returns (e: Encoded)
    requires Sized(n) && n.kind == Int
    ensures e == Encode(env, n, v)
  {
    hide LE, AsReal, RoundAway;
    if !IsNumber(v) {
      return Err(WrongType);
    }
    var rounded := RoundAway(Product(AsReal(v), n.scale));
    if n.signd {
      if rounded < -TWO63 || rounded >= TWO63 {
        return Err(OutOfRange);
      }
    } else if rounded < 0 || rounded >= TWO64 {
      return Err(OutOfRange);
    }
    if n.len < 8 {
      var sraw := AsI64(rounded % TWO64);
      var lo := if n.signd then -(Pow256(n.len) / 2) else 0;
      var hi := if n.signd then Pow256(n.len) / 2 - 1 else Pow256(n.len) - 1;
      if sraw < lo || sraw > hi {
        return Err(OutOfRange);
      }
    }
    return Ok(LE(rounded, n.len));
  }

  method EncodeBoolean(env: Env, n: Node, v: Value) returns (e: Encoded)
    requires Sized(n) && n.kind == Bool
    ensures e == Encode(env, n, v)
  {
    var on: bool;
    if v.VBool? {
      on := v.b;
    } else if v.VStr? {
      on := SameNoCase(v.s, "on");
    } else if v.VInt? {
      on := v.i != 0;
    } else if v.VDbl? {
      on := v.r != 0.0;
    } else {
      return Err(WrongType);
    }
    return Ok([if on then 1 else 0] + Zeros(n.len - 1));
  }

  /** The text of an object, else its ID; a number; or the text itself, which is
      then searched for. */
  method EncodeEnumValue(env: Env, n: Node, v: Value) returns (e: Encoded)
    requires Sized(n) && n.kind == Enum
    ensures e == Encode(env, n, v)
  {
    hide LE, AsReal, Trunc, EnumValue;
    var text := None;
    if v.VObj? {
      text := GetItem(v.ms, "Text");
      if text.None? || !text.value.VStr? {
        var id := GetItem(v.ms, "ID");
        if id.Some? && IsNumber(id.value) {
          return Ok(LE(Trunc(AsReal(id.value)), n.len));
        }
      }
    } else if IsNumber(v) {
      return Ok(LE(Trunc(AsReal(v)), n.len));
    } else {
      text := Some(v);
    }
    if text.None? || !text.value.VStr? {
      return Err(WrongType);
    }
    var found := FindText(EnumList(env, n.list), text.value.s);
    e := if found.Some? then Ok(LE(found.value, n.len)) else Err(NotInEnum);
  }

  /** Entry after entry, whatever the case of the letters. */
  method FindText(es: seq<EnumEntry>, text: string) returns (r: Option<int>)
    ensures r == EnumValue(es, text)
  {
    hide SameNoCase;
    var i := 0;
    assert es[0..] == es;
    while i < |es|
      invariant 0 <= i <= |es| && EnumValue(es[i..], text) == EnumValue(es, text)
    {
      if SameNoCase(es[i].text, text) {
        return Some(es[i].value);
      }
      assert es[i..][1..] == es[i + 1..];
      i := i + 1;
    }
    return None;
  }

  function Prefixed(done: bytes, r: Option<bytes>): Option<bytes> {
    match r
    case None => None
    case Some(s) => Some(done + s)
  }

  lemma PrefixedStep(done: bytes, x: byte, r: Option<bytes>)
    ensures Prefixed(done, Prefixed([x], r)) == Prefixed(done + [x], r)
    ensures Prefixed([], r) == r
  {
    if r.Some? {
      assert done + ([x] + r.value) == (done + [x]) + r.value;
      assert [] + r.value == r.value;
    }
  }

  /** Two hexadecimal digits per byte, refused at the first that is none. */
  method EncodeHex(env: Env, n: Node, v: Value, out: array<byte>, at: nat) returns (o: Outcome, ghost w: bytes)
    requires Sized(n) && at + n.len <= out.Length && n.kind == Raw
    modifies out
    ensures |w| == n.len && out[..] == Splice(old(out[..]), at, w) && Agrees(o, w, Encode(env, n, v))
  {
    hide Sized, ParseHex, Splice;
    ghost var b := out[..];
    ghost var all := if v.VStr? then ParseHex(v.s) else None;
    w := out[at..at + n.len];
    SpliceSame(b, at, n.len);
    if !v.VStr? {
      o := Refused(WrongType);
      return;
    }
    if |v.s| != 2 * n.len {
      o := Refused(WrongHexLength);
      return;
    }
    var i := 0;
    assert v.s[0..] == v.s;
    PrefixedStep([], 0, all);
    while i < n.len
      invariant 0 <= i <= n.len && |w| == n.len && out[..] == Splice(b, at, w)
      invariant all == Prefixed(w[..i], ParseHex(v.s[2 * i..]))
    {
      var hi, lo := HexVal(v.s[2 * i]), HexVal(v.s[2 * i + 1]);
      HexStep(v.s[2 * i..]);
      assert v.s[2 * i..][2..] == v.s[2 * (i + 1)..];
      if hi < 0 || lo < 0 {
        o := Refused(NotHex);
        return;
      }
      var x: byte := hi * 16 + lo;
      PrefixedStep(w[..i], x, ParseHex(v.s[2 * (i + 1)..]));
      out[at + i] := x;
      SplicePoke(b, at, w, i, x);
      assert w[i := x][..i + 1] == w[..i] + [x];
      w := w[i := x];
      i := i + 1;
    }
    HexStep(v.s[2 * i..]);
    assert w[..i] == w && w + [] == w;
    o := Done;
  }

  function HexFront(hi: int, lo: int, r: Option<bytes>): Option<bytes>
    requires hi <= 15 && lo <= 15
  {
    if hi < 0 || lo < 0 then None else Prefixed([hi * 16 + lo], r)
  }

  lemma HexStep(s: string)
    ensures s == "" ==> ParseHex(s) == Some([])
    ensures |s| >= 2 ==> ParseHex(s) == HexFront(HexVal(s[0]), HexVal(s[1]), ParseHex(s[2..]))
  {
    hide HexVal;
  }

  /** `n.len` numbers, each in its byte, with at most one colon after each. */
  method EncodeTime(env: Env, n: Node, v: Value, out: array<byte>, at: nat) returns (o: Outcome, ghost w: bytes)
    requires Sized(n) && at + n.len <= out.Length && n.kind == Stime
    modifies out
    ensures |w| == n.len && out[..] == Splice(old(out[..]), at, w) && Agrees(o, w, Encode(env, n, v))
  {
    hide Sized, ParseTime, Strtol, Splice;
    ghost var b := out[..];
    ghost var all := if v.VStr? then ParseTime(v.s, n.len) else None;
    w := out[at..at + n.len];
    SpliceSame(b, at, n.len);
    if !v.VStr? {
      o := Refused(WrongType);
      return;
    }
    var i := 0;
    var p := v.s;
    PrefixedStep([], 0, all);
    while i < n.len
      invariant 0 <= i <= n.len && |w| == n.len && out[..] == Splice(b, at, w)
      invariant all == Prefixed(w[..i], ParseTime(p, n.len - i))
    {
      var (part, used) := Strtol(p);
      TimeStep(p, n.len - i);
      if used == 0 || part < 0 || part > 255 {
        o := Refused(NotATime);
        return;
      }
      var x: byte := part;
      p := if used < |p| && p[used] == ':' then p[used + 1..] else p[used..];
      PrefixedStep(w[..i], x, ParseTime(p, n.len - i - 1));
      out[at + i] := x;
      SplicePoke(b, at, w, i, x);
      assert w[i := x][..i + 1] == w[..i] + [x];
      w := w[i := x];
      i := i + 1;
    }
    TimeEnd(p);
    assert w[..i] == w && w + [] == w;
    o := Done;
  }

  lemma TimeStep(s: string, w: nat)
    requires w > 0
    ensures var (part, used) := Strtol(s);
            used <= |s| &&
            ParseTime(s, w) ==
            if used == 0 || part < 0 || part > 255 then None
            else Prefixed([part], ParseTime(if used < |s| && s[used] == ':' then s[used + 1..] else s[used..], w - 1))
  {
  }

  lemma TimeEnd(s: string)
    ensures ParseTime(s, 0) == Some([])
  {
  }

  lemma ComplexEncodes(env: Env, n: Node, v: Value)
    requires Sized(n) && n.kind == Complex
    ensures Encode(env, n, v) == if v.VObj? then EncodeFields(env, n.kids, v.ms) else Err(WrongType)
    ensures SumLen(n.kids) == n.len && forall k | k in n.kids :: Sized(k)
  {
  }

  method EncodeComplex(env: Env, n: Node, v: Value, out: array<byte>, at: nat) returns (o: Outcome, ghost w: bytes)
    requires Sized(n) && at + n.len <= out.Length && n.kind == Complex
    modifies out
    ensures |w| == n.len && out[..] == Splice(old(out[..]), at, w) && Agrees(o, w, Encode(env, n, v))
    decreases n, 2, 0
  {
    hide Encode, EncodeFields, Sized, Splice;
    ComplexEncodes(env, n, v);
    if !v.VObj? {
      SpliceSame(out[..], at, n.len);
      w := out[at..at + n.len];
      o := Refused(WrongType);
      return;
    }
    o, w := EncodeMembers(env, n.kids, v.ms, out, at);
  }

  /** The field loop of a complex node: each field by its own name. */
  method EncodeMembers(env: Env, kids: seq<Node>, ms: seq<Member>, out: array<byte>, at: nat)
    returns (o: Outcome, ghost w: bytes)
    requires (forall k | k in kids :: Sized(k)) && at + SumLen(kids) <= out.Length
    modifies out
    ensures |w| == SumLen(kids) && out[..] == Splice(old(out[..]), at, w)
    ensures Agrees(o, w, EncodeFields(env, kids, ms))
    decreases kids, 0, 0
  {
    hide Encode, EncodeFields, Sized, Splice, SumLen;
    ghost var b, len := out[..], SumLen(kids);
    w := b[at..at + len];
    SpliceSame(b, at, len);
    assert kids[0..] == kids;
    var off: nat, i: nat := 0, 0;
    AfterNothing(EncodeFields(env, kids, ms));
    while i < |kids|
      invariant 0 <= i <= |kids| && off + SumLen(kids[i..]) == len
      invariant |w| == len && out[..] == Splice(b, at, w)
      invariant EncodeFields(env, kids, ms) == After(w[..off], EncodeFields(env, kids[i..], ms))
    {
      var sub := kids[i];
      var sv := GetItem(ms, sub.id);
      FieldStep(env, kids[i..], ms);
      assert kids[i..][1..] == kids[i + 1..];
      if sv.None? {
        o := Refused(MissingField(sub.id));
        return;
      }
      ghost var s: bytes;
      o, s := EncodeNode(env, sub, sv.value, out, at + off, SumLen(kids[i..]));
      SpliceInner(b, at, w, off, s);
      SpliceFront(w, off, s);
      w := Splice(w, off, s);
      if o != Done {
        return;
      }
      AfterAfter(w[..off], s, EncodeFields(env, kids[i + 1..], ms));
      off := off + sub.len;
      i := i + 1;
    }
    NoFieldsLeft(env, kids[i..], ms);
    assert w[..off] == w && w + [] == w;
    o := Done;
  }

  lemma SpliceFront(w: bytes, off: nat, s: bytes)
    requires off + |s| <= |w|
    ensures var w' := Splice(w, off, s);
            w'[..off] == w[..off] && w'[..off + |s|] == w[..off] + s && w'[off + |s|..] == w[off + |s|..]
  {
  }

  lemma FieldStep(env: Env, kids: seq<Node>, ms: seq<Member>)
    requires kids != [] && forall k | k in kids :: Sized(k)
    ensures SumLen(kids) == kids[0].len + SumLen(kids[1..])
    ensures var sv := GetItem(ms, kids[0].id);
            EncodeFields(env, kids, ms) ==
            if sv.None? then Err(MissingField(kids[0].id))
            else match Encode(env, kids[0], sv.value)
              case Err(e) => Err(e)
              case Ok(a) => After(a, EncodeFields(env, kids[1..], ms))
  {
  }

  lemma NoFieldsLeft(env: Env, kids: seq<Node>, ms: seq<Member>)
    requires kids == []
    ensures EncodeFields(env, kids, ms) == Ok([]) && SumLen(kids) == 0
  {
  }

  lemma AfterNothing(e: Encoded)
    ensures After([], e) == e
  {
    if e.Ok? {
      assert [] + e.value == e.value;
    }
  }

  lemma AfterAfter(a: bytes, b: bytes, e: Encoded)
    ensures After(a, After(b, e)) == After(a + b, e)
  {
    if e.Ok? {
      assert a + (b + e.value) == (a + b) + e.value;
    }
  }

  method EncodeListNode(env: Env, n: Node, v: Value, out: array<byte>, at: nat)
    returns (o: Outcome, ghost w: bytes)
    requires Sized(n) && n.kind == List
    requires at + n.len <= out.Length && out[at..at + n.len] == Zeros(n.len)
    modifies out
    ensures |w| == n.len && out[..] == Splice(old(out[..]), at, w) && Agrees(o, w, Encode(env, n, v))
    decreases n, 2, 0
  {
    hide Encode, EncodeEntries, Splice, LE, Sized, Trunc, IsCount, GetItem, AsReal;
    ListEncodes(env, n, v);
    ghost var b := out[..];
    w := Zeros(n.len);
    SpliceSame(b, at, n.len);
    if !v.VObj? {
      o := Refused(WrongType);
      return;
    }
    if |n.kids| != 2 {
      o := Refused(ListArity);
      return;
    }
    var ck, sub := n.kids[0], n.kids[1];
    var cv := GetItem(v.ms, ck.id);
    if cv.None? {
      o := Refused(MissingField(ck.id));
      return;
    }
    if !IsNumber(cv.value) {
      o := Refused(WrongType);
      return;
    }
    o, w := EncodeCounted(env, n, v.ms, Trunc(AsReal(cv.value)), out, at);
  }

  /** The count first, then the entries behind it. */
  method EncodeCounted(env: Env, n: Node, ms: seq<Member>, count: int, out: array<byte>, at: nat)
    returns (o: Outcome, ghost w: bytes)
    requires Sized(n) && n.kind == List && |n.kids| == 2
    requires n.kids[0].len <= n.len && n.kids[1] in n.kids && Sized(n.kids[1])
    requires at + n.len <= out.Length && out[at..at + n.len] == Zeros(n.len)
    modifies out
    ensures |w| == n.len && out[..] == Splice(old(out[..]), at, w)
    ensures var ck, sub := n.kids[0], n.kids[1];
            Agrees(o, w, EntriesBehind(env, sub, GetItem(ms, sub.id), sub.id, count, ck.len, n.len - ck.len))
    decreases n, 1, 0
  {
    hide Encode, EncodeEntries, Splice, LE, Sized, GetItem;
    var ck, sub := n.kids[0], n.kids[1];
    ghost var b, c, rest := out[..], LE(count, ck.len), Zeros(n.len - ck.len);
    PutLE(out, at, count, ck.len);
    SpliceHead(b, at, n.len, c);
    w := c + rest;
    var sv := GetItem(ms, sub.id);
    if sv.None? {
      o := Refused(MissingField(sub.id));
      return;
    }
    if !sv.value.VArr? {
      o := Refused(WrongType);
      return;
    }
    if |sv.value.xs| != count {
      o := Refused(CountMismatch);
      return;
    }
    ghost var s: bytes;
    assert out[at + ck.len..at + n.len] == out[..][at + ck.len..at + n.len];
    o, s := EncodeItems(env, sub, sv.value.xs, out, at + ck.len, n.len - ck.len);
    SpliceBehind(b, at, c, rest, s);
    assert s + rest[|s|..] == s;
    w := c + s;
  }

  function EntriesBehind(env: Env, sub: Node, sv: Option<Value>, key: string, count: int, ckLen: nat, room: nat): Encoded
    requires Sized(sub)
  {
    if sv.None? then Err(MissingField(key))
    else if !sv.value.VArr? then Err(WrongType)
    else if |sv.value.xs| != count then Err(CountMismatch)
    else
      match EncodeEntries(env, sub, sv.value.xs, room)
      case Err(e) => Err(e)
      case Ok(s) => Ok(LE(count, ckLen) + s)
  }

  lemma ListEncodes(env: Env, n: Node, v: Value)
    requires Sized(n) && n.kind == List
    ensures Encode(env, n, v) ==
            if !v.VObj? then Err(WrongType)
            else if |n.kids| != 2 then Err(ListArity)
            else EncodeList(env, n, v.ms)
    ensures |n.kids| == 2 ==> n.kids[0].len <= n.len && n.kids[1] in n.kids && Sized(n.kids[1])
  {
  }

  /** The entry loop: each entry behind the last, refused when it would not fit. */
  method EncodeItems(env: Env, sub: Node, xs: seq<Value>, out: array<byte>, at: nat, room: nat)
    returns (o: Outcome, ghost w: bytes)
    requires Sized(sub) && at + room <= out.Length && out[at..at + room] == Zeros(room)
    modifies out
    ensures |w| == room && out[..] == Splice(old(out[..]), at, w)
    ensures Agrees(o, w, EncodeEntries(env, sub, xs, room))
    decreases sub, 4, 0
  {
    hide Encode, EncodeEntries, Sized, Splice;
    ghost var b := out[..];
    w := Zeros(room);
    SpliceSame(b, at, room);
    var off: nat, i: nat := 0, 0;
    assert xs[0..] == xs;
    AfterNothing(EncodeEntries(env, sub, xs, room));
    while i < |xs|
      invariant 0 <= i <= |xs| && off <= room
      invariant |w| == room && out[..] == Splice(b, at, w) && w[off..] == Zeros(room - off)
      invariant EncodeEntries(env, sub, xs, room) ==
                After(w[..off], EncodeEntries(env, sub, xs[i..], room - off))
    {
      EntriesStep(env, sub, xs[i..], room - off);
      assert xs[i..][1..] == xs[i + 1..];
      if off + sub.len > room {
        o := Refused(TooManyEntries);
        return;
      }
      ghost var s: bytes;
      o, s := EncodeNode(env, sub, xs[i], out, at + off, room - off);
      SpliceInner(b, at, w, off, s);
      SpliceFront(w, off, s);
      assert w[off + sub.len..] == w[off..][sub.len..] == Zeros(room - off - sub.len);
      w := Splice(w, off, s);
      if o != Done {
        return;
      }
      AfterAfter(w[..off], s, EncodeEntries(env, sub, xs[i + 1..], room - off - sub.len));
      off := off + sub.len;
      i := i + 1;
    }
    EntriesStep(env, sub, xs[i..], room - off);
    assert w == w[..off] + w[off..];
    o := Done;
  }

  lemma EntriesStep(env: Env, sub: Node, xs: seq<Value>, room: nat)
    requires Sized(sub)
    ensures EncodeEntries(env, sub, xs, room) ==
            if xs == [] then Ok(Zeros(room))
            else if sub.len > room then Err(TooManyEntries)
            else match Encode(env, sub, xs[0])
              case Err(e) => Err(e)
              case Ok(a) => After(a, EncodeEntries(env, sub, xs[1..], room - sub.len))
  {
  }

  method EncodeSwitchNode(env: Env, n: Node, v: Value, out: array<byte>, at: nat)
    returns (o: Outcome, ghost w: bytes)
    requires Sized(n) && n.kind == Switch
    requires at + n.len <= out.Length && out[at..at + n.len] == Zeros(n.len)
    modifies out
    ensures |w| == n.len && out[..] == Splice(old(out[..]), at, w) && Agrees(o, w, Encode(env, n, v))
    decreases n, 2, 0
  {
    hide Encode, PickCase, Splice, Sized, Trunc, AsI32;
    SwitchEncodes(env, n, v);
    ghost var b := out[..];
    w := Zeros(n.len);
    SpliceSame(b, at, n.len);
    if !v.VObj? {
      o := Refused(WrongType);
      return;
    }
    var id := GetItem(v.ms, "ID");
    if id.None? || !IsNumber(id.value) {
      o := Refused(WrongType);
      return;
    }
    var sel := AsI32(Trunc(AsReal(id.value)));
    var pick := PickCase(n.cases, sel, false);
    if pick.None? {
      o := Refused(NoVariant);
      return;
    }
    var br := n.kids[pick.value];
    assert br in n.kids;
    var bv := if br.kind == Complex then Some(v) else GetItem(v.ms, br.id);
    o, w := EncodeBranch(env, n, br, bv, sel % 256, out, at);
  }

  /** The selector byte, then the branch behind it. */
  method EncodeBranch(env: Env, n: Node, br: Node, bv: Option<Value>, sel: byte, out: array<byte>, at: nat)
    returns (o: Outcome, ghost w: bytes)
    requires br in n.kids && Sized(br) && br.len + 1 <= n.len
    requires at + n.len <= out.Length && out[at..at + n.len] == Zeros(n.len)
    modifies out
    ensures |w| == n.len && out[..] == Splice(old(out[..]), at, w)
    ensures Agrees(o, w, if bv.None? then Err(MissingField(br.id))
                         else match Encode(env, br, bv.value)
                           case Err(e) => Err(e)
                           case Ok(s) => Ok([sel] + s + Zeros(n.len - 1 - br.len)))
    decreases n, 1, 0
  {
    hide Encode, Splice, Sized;
    ghost var b, rest := out[..], Zeros(n.len - 1);
    out[at] := sel;
    assert out[..] == b[..at] + [sel] + b[at + 1..];
    SpliceHead(b, at, n.len, [sel]);
    w := [sel] + rest;
    if bv.None? {
      o := Refused(MissingField(br.id));
      return;
    }
    ghost var s: bytes;
    assert out[at + 1..at + n.len] == out[..][at + 1..at + n.len];
    o, s := EncodeNode(env, br, bv.value, out, at + 1, n.len - 1);
    SpliceBehind(b, at, [sel], rest, s);
    assert rest[br.len..] == Zeros(n.len - 1 - br.len);
    w := [sel] + (s + rest[|s|..]);
    assert [sel] + (s + rest[|s|..]) == [sel] + s + rest[|s|..];
  }

  lemma SwitchEncodes(env: Env, n: Node, v: Value)
    requires Sized(n) && n.kind == Switch
    ensures |n.cases| == |n.kids| && forall k | k in n.kids :: Sized(k) && k.len + 1 <= n.len
    ensures Encode(env, n, v) ==
            if !v.VObj? then Err(WrongType)
            else
              var id := GetItem(v.ms, "ID");
              if id.None? || !IsNumber(id.value) then Err(WrongType)
              else
                var sel := AsI32(Trunc(AsReal(id.value)));
                match PickCase(n.cases, sel, false)
                case None => Err(NoVariant)
                case Some(i) =>
                  var b := n.kids[i];
                  var bv := if b.kind == Complex then Some(v) else GetItem(v.ms, b.id);
                  if bv.None? then Err(MissingField(b.id))
                  else match Encode(env, b, bv.value)
                    case Err(e) => Err(e)
                    case Ok(s) => Ok([sel % 256] + s + Zeros(n.len - 1 - b.len))
  {
    hide AsI32, Trunc, PickCase, GetItem;
  }
}
