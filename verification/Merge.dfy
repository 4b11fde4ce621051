/** Read, merge, encode: how poller_write_now turns a partial value into the
    payload of a write (main/poller.c). */
module Merge {
  import opened Bytes
  import opened Wrappers
  import opened Doubles
  import opened Json
  import opened CodecTree
  import opened CodecDecode
  import opened CodecEncode
  import opened CodecEncoder
  import opened CodecCanon

  /** `want`, then every current member whose key it does not have yet. */
  function Merged(want: seq<Member>, cur: seq<Member>): seq<Member>
    decreases |cur|
  {
    if cur == [] then want
    else Merged(if HasKey(want, cur[0].key) then want else want + [cur[0]], cur[1..])
  }

  /** The caller's object: cJSON adds members to it in place. */
  class JsonObject {
    var items: seq<Member>

    constructor (ms: seq<Member>)
      ensures items == ms
    {
      items := ms;
    }

    method Add(m: Member)
      modifies this
      ensures items == old(items) + [m]
    {
      items := items + [m];
    }
  }

  /** merge_current: only an object value has members to take over. */
  method MergeCurrent(env: Env, n: Node, raw: bytes, want: JsonObject)
    modifies want
    ensures var cur := Decode(env, n, raw);
            want.items == if cur.VObj? then Merged(old(want.items), cur.ms) else old(want.items)
  {
    var cur := Decode(env, n, raw);
    if cur.VObj? {
      var i := 0;
      assert cur.ms[0..] == cur.ms;
      while i < |cur.ms|
        invariant 0 <= i <= |cur.ms|
        invariant Merged(want.items, cur.ms[i..]) == Merged(old(want.items), cur.ms)
      {
        assert cur.ms[i..][1..] == cur.ms[i + 1..];
        if !HasKey(want.items, cur.ms[i].key) {
          want.Add(cur.ms[i]);
        }
        i := i + 1;
      }
    }
  }

  /** The value a write encodes. */
  function Completed(env: Env, n: Node, raw: bytes, want: Value): Value {
    var cur := Decode(env, n, raw);
    if want.VObj? && cur.VObj? then VObj(Merged(want.ms, cur.ms)) else want
  }

  const MAX_WRITE: nat := 512

  datatype Refusal =
    | WritingDisabled | UnknownDatapoint | ReadOnly | NotJson | EncodeRefused(error: EncError)

  /** poller_write_now between the read and the write: `node` is what the
      database has for the length just read, `value` the parsed request. */
  method WriteNow(env: Env, enabled: bool, node: Option<Node>, readWrite: bool, force: bool,
                  raw: bytes, value: Option<Value>) returns (r: Result<bytes, Refusal>)
    requires node.Some? ==> Sized(node.value)
    ensures r.Ok? <==>
            && enabled && node.Some? && (readWrite || force) && value.Some?
            && node.value.len <= 512
            && Encode(env, node.value, Completed(env, node.value, raw, value.value)).Ok?
    ensures r.Ok? ==>
            Encode(env, node.value, Completed(env, node.value, raw, value.value)) == Ok(r.value)
  {
    if !enabled {
      return Err(WritingDisabled);
    }
    if node.None? {
      return Err(UnknownDatapoint);
    }
    var n := node.value;
    if !readWrite && !force {
      return Err(ReadOnly);
    }
    if value.None? {
      return Err(NotJson);
    }
    var v := value.value;
    if v.VObj? {
      var want := new JsonObject(v.ms);
      MergeCurrent(env, n, raw, want);
      v := VObj(want.items);
    }
    var payload := new byte[MAX_WRITE];
    var o, w := EncodeNode(env, n, v, payload, 0, MAX_WRITE);
    if o != Done {
      return Err(EncodeRefused(o.error));
    }
    assert payload[..n.len] == w;
    return Ok(payload[..n.len]);
  }

  // ---- what the merge leaves to be found ----

  lemma {:induction false} MergedLookup(want: seq<Member>, cur: seq<Member>, key: string)
    ensures GetItem(Merged(want, cur), key) ==
            if HasKey(want, key) then GetItem(want, key) else GetItem(cur, key)
    decreases |cur|
  {
    if cur != [] {
      var next := if HasKey(want, cur[0].key) then want else want + [cur[0]];
      GetItemConcat(want, [cur[0]], key);
      assert [cur[0]][1..] == [];
      MergedLookup(next, cur[1..], key);
    }
  }

  /** The payload a write ought to have: named fields from the caller, every
      other field's bytes as they were read. */
  function Written(env: Env, kids: seq<Node>, want: seq<Member>, s: bytes): (r: Encoded)
    requires (forall k | k in kids :: Sized(k)) && |s| == SumLen(kids)
    decreases |kids|
  {
    if kids == [] then Ok([])
    else
      var w := kids[0].len;
      var own := match GetItem(want, kids[0].id)
        case Some(v) => Encode(env, kids[0], v)
        case None => Ok(s[..w]);
      match own
      case Err(e) => Err(e)
      case Ok(a) => After(a, Written(env, kids[1..], want, s[w..]))
  }

  /** Fields the caller left out are canonical as they stand. */
  ghost predicate KeptCanon(env: Env, kids: seq<Node>, want: seq<Member>, s: bytes)
    requires (forall k | k in kids :: Sized(k)) && |s| == SumLen(kids)
    decreases |kids|
  {
    kids == [] ||
    ((HasKey(want, kids[0].id) || Canon(env, kids[0], s[..kids[0].len])) &&
     KeptCanon(env, kids[1..], want, s[kids[0].len..]))
  }

  /** Read-modify-write: with the kept fields canonical the merged value encodes to
      exactly the payload that changes the named fields only, and is refused exactly
      when one of them is; and unless one of them is refused, only then. */
  lemma WriteKeepsTheRest(env: Env, n: Node, raw: bytes, want: seq<Member>)
    requires WellFormed(n) && WellFormedEnv(env) && n.kind == Complex && |raw| == n.len
    ensures var e := Encode(env, n, Completed(env, n, raw, VObj(want))); var w := Written(env, n.kids, want, raw);
            && (KeptCanon(env, n.kids, want, raw) ==> e == w)
            && (w.Ok? && e == w ==> KeptCanon(env, n.kids, want, raw))
  {
    hide Encode, Decode, Written, KeptCanon;
    var cur := Fields(env, n.kids, raw);
    assert raw + [] == raw;
    ComplexParts(env, n, raw, VObj(Merged(want, cur)));
    FieldsFound(env, n.kids, raw, []);
    assert [] + cur == cur;
    FieldsWritten(env, n.kids, raw, [], want, cur);
  }

  lemma ComplexParts(env: Env, n: Node, raw: bytes, v: Value)
    requires Sized(n) && n.kind == Complex && v.VObj?
    ensures Decode(env, n, raw) == VObj(Fields(env, n.kids, raw))
    ensures Encode(env, n, v) == EncodeFields(env, n.kids, v.ms)
  {
  }

  lemma {:induction false} FieldsWritten(env: Env, kids: seq<Node>, s: bytes, t: bytes,
                                         want: seq<Member>, cur: seq<Member>)
    requires forall k | k in kids :: WellFormed(k) && Sized(k)
    requires WellFormedEnv(env) && |s| == SumLen(kids)
    requires Finds(env, kids, s + t, cur)
    ensures var e := EncodeFields(env, kids, Merged(want, cur)); var w := Written(env, kids, want, s);
            && (KeptCanon(env, kids, want, s) ==> e == w)
            && (w.Ok? && e == w ==> KeptCanon(env, kids, want, s))
    decreases |kids|
  {
    hide Encode, Decode, Canon, WellFormed, WellFormedEnv, Sized;
    if kids != [] {
      var w := kids[0].len;
      SplitAt(s, t, w);
      MergedLookup(want, cur, kids[0].id);
      BytesRoundTrip(env, kids[0], s[..w], s[w..] + t);
      FieldsWritten(env, kids[1..], s[w..], t, want, cur);
      FieldStep(env, kids, Merged(want, cur));
      var own := Encode(env, kids[0], GetItem(Merged(want, cur), kids[0].id).value);
      var rest := EncodeFields(env, kids[1..], Merged(want, cur));
      if own.Ok? && rest.Ok? && Written(env, kids, want, s).Ok? {
        ConcatInjective(own.value, rest.value, Written(env, kids, want, s).value);
        WrittenFront(env, kids, want, s);
      }
    }
  }

  /** Byte offset of field `i`. */
  function Offset(kids: seq<Node>, i: nat): nat
    requires i <= |kids|
  {
    if i == 0 then 0 else kids[0].len + Offset(kids[1..], i - 1)
  }

  lemma {:induction false} OffsetInside(kids: seq<Node>, i: nat)
    requires i < |kids|
    ensures Offset(kids, i) + kids[i].len <= SumLen(kids)
  {
    if i > 0 {
      OffsetInside(kids[1..], i - 1);
    }
  }

  lemma WrittenFront(env: Env, kids: seq<Node>, want: seq<Member>, s: bytes)
    requires kids != [] && (forall k | k in kids :: Sized(k)) && |s| == SumLen(kids)
    requires Written(env, kids, want, s).Ok?
    ensures var w := kids[0].len; var r := Written(env, kids[1..], want, s[w..]); var b := Written(env, kids, want, s).value;
            && r.Ok? && w <= |b| && b == b[..w] + r.value
            && match GetItem(want, kids[0].id)
               case None => b[..w] == s[..w]
               case Some(v) => Encode(env, kids[0], v) == Ok(b[..w])
  {
    hide Encode, Sized;
  }

  /** Field by field: a named field holds the caller's value, any other the
      bytes just read. */
  lemma {:induction false} WrittenField(env: Env, kids: seq<Node>, want: seq<Member>, s: bytes, i: nat)
    requires (forall k | k in kids :: Sized(k)) && |s| == SumLen(kids) && i < |kids|
    requires Written(env, kids, want, s).Ok?
    ensures |Written(env, kids, want, s).value| == |s|
    ensures var o, w := Offset(kids, i), kids[i].len;
            var b := Written(env, kids, want, s).value;
            o + w <= |s| &&
            match GetItem(want, kids[i].id)
            case None => b[o..o + w] == s[o..o + w]
            case Some(v) => Encode(env, kids[i], v) == Ok(b[o..o + w])
    decreases |kids|
  {
    hide Encode, Sized, Written;
    var w := kids[0].len;
    WrittenFront(env, kids, want, s);
    var rest := Written(env, kids[1..], want, s[w..]).value;
    WrittenLength(env, kids[1..], want, s[w..]);
    var b := Written(env, kids, want, s).value;
    assert s == s[..w] + s[w..];
    if i > 0 {
      WrittenField(env, kids[1..], want, s[w..], i - 1);
      SliceShift(b[..w], rest, Offset(kids[1..], i - 1), kids[i].len);
      SliceShift(s[..w], s[w..], Offset(kids[1..], i - 1), kids[i].len);
    } else {
      assert b[0..0 + w] == b[..w] && s[0..0 + w] == s[..w];
    }
  }

  lemma SliceShift(a: bytes, b: bytes, o: nat, l: nat)
    requires o + l <= |b|
    ensures (a + b)[|a| + o..|a| + o + l] == b[o..o + l]
  {
  }

  lemma {:induction false} WrittenLength(env: Env, kids: seq<Node>, want: seq<Member>, s: bytes)
    requires (forall k | k in kids :: Sized(k)) && |s| == SumLen(kids)
    requires Written(env, kids, want, s).Ok?
    ensures |Written(env, kids, want, s).value| == |s|
    decreases |kids|
  {
    if kids != [] {
      WrittenLength(env, kids[1..], want, s[kids[0].len..]);
    }
  }

  /** The frame of a write, from the request to the bytes: outside the fields
      the caller named nothing differs from what was just read. A canonical payload
      has canonical fields (CanonKept). */
  lemma WriteFrame(env: Env, n: Node, raw: bytes, want: seq<Member>, payload: bytes, i: nat)
    requires WellFormed(n) && WellFormedEnv(env) && n.kind == Complex && |raw| == n.len
    requires KeptCanon(env, n.kids, want, raw) && i < |n.kids|
    requires Encode(env, n, Completed(env, n, raw, VObj(want))) == Ok(payload)
    ensures |payload| == |raw| && Offset(n.kids, i) + n.kids[i].len <= |raw|
    ensures var o, w := Offset(n.kids, i), n.kids[i].len;
            if HasKey(want, n.kids[i].id)
            then Encode(env, n.kids[i], GetItem(want, n.kids[i].id).value) == Ok(payload[o..o + w])
            else payload[o..o + w] == raw[o..o + w]
  {
    hide Encode, Decode, Written, KeptCanon;
    WriteKeepsTheRest(env, n, raw, want);
    WrittenField(env, n.kids, want, raw, i);
  }

  lemma {:induction false} CanonKept(env: Env, kids: seq<Node>, want: seq<Member>, s: bytes)
    requires (forall k | k in kids :: Sized(k)) && |s| == SumLen(kids) && CanonFields(env, kids, s)
    ensures KeptCanon(env, kids, want, s)
    decreases |kids|
  {
    if kids != [] {
      CanonKept(env, kids[1..], want, s[kids[0].len..]);
    }
  }

  /** Why the frame is about objects only: on an enum root the merge adds the
      current Text, and Text wins, so a caller's ID alone never takes effect. */
  lemma EnumRootIgnoresId(env: Env, n: Node, raw: bytes, id: int)
    requires WellFormed(n) && WellFormedEnv(env) && n.kind == Enum && |raw| == n.len
    requires Canon(env, n, raw)
    ensures Encode(env, n, Completed(env, n, raw, VObj([Member("ID", VInt(id))]))) == Ok(raw)
  {
    assert raw + [] == raw;
    TakeExact(raw, []);
    var want := [Member("ID", VInt(id))];
    var v := AsI64(FromLE(raw));
    var cur := EnumPair(env, n.list, v);
    PairLookup(cur);
    MergedLookup(want, cur, "Text");
    assert want[1..] == [];
    EnumShownEncodes(env, n.list, v);
  }
}
