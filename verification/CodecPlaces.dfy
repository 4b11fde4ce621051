/** Where in the payload the parts of a composite value come from. */
module CodecPlaces {
  import opened Bytes
  import opened Text
  import opened Wrappers
  import opened Doubles
  import opened Json
  import opened CodecTree
  import opened CodecDecode
  import opened CodecEncode

  lemma {:induction false} SumLenFront(kids: seq<Node>, i: nat)
    requires 0 < i <= |kids|
    ensures SumLen(kids[..i]) == kids[0].len + SumLen(kids[1..][..i - 1])
  {
    assert kids[..i][1..] == kids[1..][..i - 1];
  }

  lemma DropMore(d: bytes, a: nat, b: nat)
    ensures Drop(Drop(d, a), b) == Drop(d, a + b)
  {
  }

  /** The fields of an object, each from behind the lengths of those before it. */
  lemma {:induction false} FieldPlaced(env: Env, kids: seq<Node>, d: bytes, i: nat)
    requires i < |kids|
    ensures |Fields(env, kids, d)| == |kids|
    ensures Fields(env, kids, d)[i] == Member(kids[i].id, Decode(env, kids[i], Drop(d, SumLen(kids[..i]))))
    decreases |kids|
  {
    hide Decode, SumLen;
    FieldCount(env, kids, d);
    if i > 0 {
      FieldPlaced(env, kids[1..], Drop(d, kids[0].len), i - 1);
      SumLenFront(kids, i);
      DropMore(d, kids[0].len, SumLen(kids[1..][..i - 1]));
    } else {
      NoLen(kids);
      assert Drop(d, 0) == d;
    }
  }

  lemma NoLen(kids: seq<Node>)
    ensures SumLen(kids[..0]) == 0
  {
  }

  lemma {:induction false} FieldCount(env: Env, kids: seq<Node>, d: bytes)
    ensures |Fields(env, kids, d)| == |kids|
    decreases |kids|
  {
    hide Decode;
    if kids != [] {
      FieldCount(env, kids[1..], Drop(d, kids[0].len));
    }
  }

  lemma OneMoreLen(len: nat, k: nat)
    ensures len + k * len == (k + 1) * len
  {
  }

  /** How many entries are read: as many as counted, if they fit. */
  predicate Fitting(count: int, len: nat, room: nat, n: nat) {
    && (count <= 0 ==> n == 0)
    && (count > 0 ==> n <= count)
    && (len > 0 ==> n * len <= room)
    && (n < count ==> len > 0 && (n + 1) * len > room)
  }

  function Behind(d: bytes, len: nat, k: nat): bytes {
    Drop(d, k * len)
  }

  /** Each value is decoded `len` bytes behind the one before it. */
  predicate Strided(env: Env, sub: Node, d: bytes, xs: seq<Value>) {
    forall k | 0 <= k < |xs| :: xs[k] == Decode(env, sub, Behind(d, sub.len, k))
  }

  lemma StridedFront(env: Env, sub: Node, d: bytes, ys: seq<Value>)
    requires Strided(env, sub, Drop(d, sub.len), ys)
    ensures Strided(env, sub, d, [Decode(env, sub, d)] + ys)
  {
    hide Decode, Drop, Behind;
    forall k | 0 <= k < 1 + |ys| ensures ([Decode(env, sub, d)] + ys)[k] == Decode(env, sub, Behind(d, sub.len, k)) {
      StridedAt(env, sub, d, ys, k);
    }
  }

  lemma StridedAt(env: Env, sub: Node, d: bytes, ys: seq<Value>, k: nat)
    requires Strided(env, sub, Drop(d, sub.len), ys) && k <= |ys|
    ensures ([Decode(env, sub, d)] + ys)[k] == Decode(env, sub, Behind(d, sub.len, k))
  {
    hide Decode, Drop, Behind;
    if k == 0 {
      NoneBefore(d, sub.len);
    } else {
      Further(d, sub.len, k - 1);
    }
  }

  lemma NoneBefore(d: bytes, len: nat)
    ensures Behind(d, len, 0) == d
  {
    assert 0 * len == 0;
  }

  lemma Further(d: bytes, len: nat, k: nat)
    ensures Behind(Drop(d, len), len, k) == Behind(d, len, k + 1)
  {
    hide Drop;
    var a, b := k * len, (k + 1) * len;
    OneMoreLen(len, k);
    DropMore(d, len, a);
    assert len + a == b;
  }

  /** Entry after entry until the count is met or the next one would not fit. */
  lemma {:induction false} EntriesPlaced(env: Env, sub: Node, d: bytes, count: int)
    ensures var (xs, rest) := Entries(env, sub, d, count);
      Fitting(count, sub.len, |d|, |xs|) && rest == Behind(d, sub.len, |xs|) && Strided(env, sub, d, xs)
    decreases if count < 0 then 0 else count
  {
    hide Decode, Fitting, Strided, Entries, Drop, Behind;
    EntriesStep(env, sub, d, count);
    if count <= 0 || (sub.len > 0 && sub.len > |d|) {
      NoneFit(count, sub.len, |d|);
      NothingRead(env, sub, d);
    } else {
      var front := Drop(d, sub.len);
      Shorter(d, sub.len);
      EntriesPlaced(env, sub, front, count - 1);
      var (ys, rest) := Entries(env, sub, front, count - 1);
      OneFits(count, sub.len, |d|, |ys|);
      Further(d, sub.len, |ys|);
      StridedFront(env, sub, d, ys);
    }
  }

  lemma EntriesStep(env: Env, sub: Node, d: bytes, count: int)
    ensures Entries(env, sub, d, count) ==
      if count <= 0 || (sub.len > 0 && sub.len > |d|) then ([], d)
      else
        var (ys, rest) := Entries(env, sub, Drop(d, sub.len), count - 1);
        ([Decode(env, sub, d)] + ys, rest)
  {
    hide Decode, Drop;
  }

  lemma Shorter(d: bytes, n: nat)
    requires n <= |d|
    ensures |Drop(d, n)| == |d| - n
  {
  }

  lemma NothingRead(env: Env, sub: Node, d: bytes)
    ensures Behind(d, sub.len, 0) == d && Strided(env, sub, d, [])
  {
    NoneBefore(d, sub.len);
  }

  lemma NoneFit(count: int, len: nat, room: nat)
    requires count <= 0 || (len > 0 && len > room)
    ensures Fitting(count, len, room, 0)
  {
  }

  lemma OneFits(count: int, len: nat, room: nat, n: nat)
    requires count > 0 && len <= room && Fitting(count - 1, len, room - len, n)
    ensures Fitting(count, len, room, n + 1)
  {
    OneMoreLen(len, n);
    OneMoreLen(len, n + 1);
  }

  /** An array repeats as often as its length says, whether or not bytes are left. */
  lemma {:induction false} RepeatsPlaced(env: Env, sub: Node, d: bytes, reps: nat)
    ensures var (xs, rest) := Repeats(env, sub, d, reps);
      |xs| == reps && rest == Behind(d, sub.len, reps) && Strided(env, sub, d, xs)
    decreases reps
  {
    hide Decode, Strided;
    if reps == 0 {
      NothingRead(env, sub, d);
    } else {
      var (ys, rest) := Repeats(env, sub, Drop(d, sub.len), reps - 1);
      RepeatsPlaced(env, sub, Drop(d, sub.len), reps - 1);
      Further(d, sub.len, |ys|);
      StridedFront(env, sub, d, ys);
      assert Repeats(env, sub, d, reps) == ([Decode(env, sub, d)] + ys, rest);
    }
  }

  /** Element `k` of field `i` of an array lies behind all elements of the fields
      before it and the `k` before it. */
  lemma {:induction false} ElementPlaced(env: Env, kids: seq<Node>, reps: nat, d: bytes, i: nat, k: nat)
    requires i < |kids| && k < reps
    ensures |ArrayFields(env, kids, reps, d)| == |kids|
    ensures var m := ArrayFields(env, kids, reps, d)[i];
      && m.key == kids[i].id && m.val.VArr? && |m.val.xs| == reps
      && m.val.xs[k] == Decode(env, kids[i], Drop(d, reps * SumLen(kids[..i]) + k * kids[i].len))
    decreases |kids|
  {
    hide Decode, SumLen, Repeats, ArrayFields, Drop;
    ArrayCount(env, kids, reps, d);
    FieldElements(env, kids[0], reps, d, k);
    ArrayStep(env, kids, reps, d);
    var first := Repeats(env, kids[0], d, reps);
    var tail := ArrayFields(env, kids[1..], reps, first.1);
    if i > 0 {
      ArrayCount(env, kids[1..], reps, first.1);
      ElementPlaced(env, kids[1..], reps, first.1, i - 1, k);
      SumLenFront(kids, i);
      var before, a := SumLen(kids[1..][..i - 1]), reps * kids[0].len;
      Distributes(reps, kids[0].len, before);
      DropMore(d, a, reps * before + k * kids[i].len);
      assert kids[1..][i - 1] == kids[i] && ArrayFields(env, kids, reps, d)[i] == tail[i - 1];
      assert a + (reps * before + k * kids[i].len) == reps * SumLen(kids[..i]) + k * kids[i].len;
    } else {
      NoLen(kids);
      assert reps * SumLen(kids[..0]) == 0;
    }
  }

  lemma Distributes(n: nat, a: nat, b: nat)
    ensures n * (a + b) == n * a + n * b
  {
  }

  lemma ArrayStep(env: Env, kids: seq<Node>, reps: nat, d: bytes)
    requires kids != []
    ensures var (xs, rest) := Repeats(env, kids[0], d, reps);
      ArrayFields(env, kids, reps, d) == [Member(kids[0].id, VArr(xs))] + ArrayFields(env, kids[1..], reps, rest)
  {
    hide Repeats, Decode;
  }

  lemma FieldElements(env: Env, sub: Node, reps: nat, d: bytes, k: nat)
    requires k < reps
    ensures var (xs, rest) := Repeats(env, sub, d, reps);
      |xs| == reps && rest == Drop(d, reps * sub.len) && xs[k] == Decode(env, sub, Drop(d, k * sub.len))
  {
    hide Repeats, Decode, Drop;
    RepeatsPlaced(env, sub, d, reps);
  }

  lemma {:induction false} ArrayCount(env: Env, kids: seq<Node>, reps: nat, d: bytes)
    ensures |ArrayFields(env, kids, reps, d)| == |kids|
    decreases |kids|
  {
    hide Repeats;
    if kids != [] {
      ArrayCount(env, kids[1..], reps, Repeats(env, kids[0], d, reps).1);
    }
  }

  /** A count, another field and the counted entries, as the fault histories have
      them: the entries start behind both. */
  lemma ListOfThree(env: Env, n: Node, d: bytes)
    requires n.kind == List && |n.kids| == 3
    requires IsCount(n.kids[0]) && !IsCount(n.kids[1]) && n.kids[1].kind != Complex && !IsCount(n.kids[2]) && n.kids[2].kind == Complex
    ensures var a, b, c := n.kids[0], n.kids[1], n.kids[2];
      var count := ReadInt(Take(d, a.len), a.signd);
      Decode(env, n, d) == VObj([Member(a.id, VInt(count)), Member(b.id, Decode(env, b, Drop(d, a.len))),
                                 Member(c.id, VArr(Entries(env, c, Drop(d, a.len + b.len), count).0))])
  {
    hide Entries, ReadInt, Decode, ListFields, Drop, IsCount;
    var a, b, c := n.kids[0], n.kids[1], n.kids[2];
    var count := ReadInt(Take(d, a.len), a.signd);
    var at, at2 := Drop(d, a.len), Drop(d, a.len + b.len);
    DropMore(d, a.len, b.len);
    ListIs(env, n, d);
    var others := n.kids[1..];
    CountFirst(env, n.kids, d, 0);
    OtherFirst(env, others, at, count);
    assert others[0] == b && others[1..] == [c];
    EntriesFirst(env, [c], at2, count);
    var (xs, rest) := Entries(env, c, at2, count);
    LastField(env, rest, count);
    assert [c][1..] == [];
    assert ListFields(env, [c], at2, count) == [Member(c.id, VArr(xs))];
    assert ListFields(env, others, at, count) == [Member(b.id, Decode(env, b, at)), Member(c.id, VArr(xs))];
  }

  lemma ListIs(env: Env, n: Node, d: bytes)
    requires n.kind == List
    ensures Decode(env, n, d) == VObj(ListFields(env, n.kids, d, 0))
  {
    hide ListFields;
  }

  lemma CountFirst(env: Env, kids: seq<Node>, d: bytes, count: int)
    requires kids != [] && IsCount(kids[0])
    ensures var c := ReadInt(Take(d, kids[0].len), kids[0].signd);
      ListFields(env, kids, d, count) == [Member(kids[0].id, VInt(c))] + ListFields(env, kids[1..], Drop(d, kids[0].len), c)
  {
    hide Decode, Entries, ReadInt, Drop, IsCount;
  }

  lemma OtherFirst(env: Env, kids: seq<Node>, d: bytes, count: int)
    requires kids != [] && !IsCount(kids[0]) && kids[0].kind != Complex
    ensures ListFields(env, kids, d, count)
      == [Member(kids[0].id, Decode(env, kids[0], d))] + ListFields(env, kids[1..], Drop(d, kids[0].len), count)
  {
    hide Decode, Entries, ReadInt, Drop, IsCount;
  }

  lemma EntriesFirst(env: Env, kids: seq<Node>, d: bytes, count: int)
    requires kids != [] && !IsCount(kids[0]) && kids[0].kind == Complex
    ensures var (xs, rest) := Entries(env, kids[0], d, count);
      ListFields(env, kids, d, count) == [Member(kids[0].id, VArr(xs))] + ListFields(env, kids[1..], rest, count)
  {
    hide Decode, Entries, ReadInt, Drop;
    var (xs, rest) := Entries(env, kids[0], d, count);
    assert ListFields(env, kids, d, count) == [Member(kids[0].id, VArr(xs))] + ListFields(env, kids[1..], rest, count);
  }

  lemma LastField(env: Env, d: bytes, count: int)
    ensures ListFields(env, [], d, count) == []
  {
  }

  // ---- the branch of a switch ----

  predicate FirstMatch(cases: seq<CaseKey>, v: int, i: nat) {
    && i < |cases| && !cases[i].isDefault && cases[i].val == v
    && forall j | 0 <= j < i :: cases[j].isDefault || cases[j].val != v
  }

  predicate NoMatch(cases: seq<CaseKey>, v: int) {
    forall j | 0 <= j < |cases| :: cases[j].isDefault || cases[j].val != v
  }

  /** The first case with the value; without one, decoding takes the first default
      and encoding the last. */
  lemma CasePicked(cases: seq<CaseKey>, v: int, first: bool, i: nat)
    ensures FirstMatch(cases, v, i) ==> PickCase(cases, v, first) == Some(i)
    ensures NoMatch(cases, v) && i < |cases| && cases[i].isDefault ==> PickCase(cases, v, first).Some?
    ensures NoMatch(cases, v) && PickCase(cases, v, first).Some? && i < |cases| && cases[i].isDefault ==>
      var j := PickCase(cases, v, first).value; cases[j].isDefault && if first then j <= i else i <= j
    ensures NoMatch(cases, v) && (forall j | 0 <= j < |cases| :: !cases[j].isDefault) ==> PickCase(cases, v, first) == None
  {
    if FirstMatch(cases, v, i) {
      MatchFound(cases, v, i);
    }
    if NoMatch(cases, v) {
      NoneFound(cases, v);
      if i < |cases| && cases[i].isDefault {
        DefaultFirst(cases, i);
        DefaultLast(cases, i);
      }
    }
  }

  lemma {:induction false} MatchFound(cases: seq<CaseKey>, v: int, i: nat)
    requires FirstMatch(cases, v, i)
    ensures FirstCase(cases, v) == Some(i)
  {
    if i > 0 {
      assert cases[0].isDefault || cases[0].val != v;
      assert forall j | 0 <= j < i - 1 :: cases[1..][j] == cases[j + 1];
      MatchFound(cases[1..], v, i - 1);
    }
  }

  lemma {:induction false} NoneFound(cases: seq<CaseKey>, v: int)
    requires NoMatch(cases, v)
    ensures FirstCase(cases, v) == None
  {
    if cases != [] {
      NoneFound(cases[1..], v);
    }
  }

  lemma {:induction false} DefaultFirst(cases: seq<CaseKey>, i: nat)
    requires i < |cases| && cases[i].isDefault
    ensures FirstDefault(cases).Some? && FirstDefault(cases).value <= i
  {
    if !cases[0].isDefault {
      DefaultFirst(cases[1..], i - 1);
    }
  }

  lemma {:induction false} DefaultLast(cases: seq<CaseKey>, i: nat)
    requires i < |cases| && cases[i].isDefault
    ensures LastDefault(cases).Some? && i <= LastDefault(cases).value
    decreases |cases|
  {
    if !cases[|cases| - 1].isDefault {
      DefaultLast(cases[..|cases| - 1], i);
    }
  }

  // ---- short payloads ----

  /** A payload shorter than the field is decoded as a field that short. */
  lemma ShortPayload(env: Env, n: Node, d: bytes)
    requires n.kind in {Unknown, Raw, Int, ByteVal, Enum, Stime} && |d| < n.len
    ensures Decode(env, n, d) == Decode(env, n.(len := |d|), d)
  {
    assert Take(d, n.len) == Take(d, |d|);
  }

  /** A count is a field with this name, in any case. */
  lemma CountNamed(n: Node)
    ensures IsCount(n) <==> |n.id| == 5 && SameLetter(n.id[0], 'c') && SameLetter(n.id[1], 'o') && SameLetter(n.id[2], 'u')
                            && SameLetter(n.id[3], 'n') && SameLetter(n.id[4], 't')
  {
    IgnoresCase(n.id, "count");
  }

  // ---- what composite values refuse, and why ----

  /** A field the object lacks is named; one that is refused says why; those behind
      it are not looked at. */
  lemma {:induction false} FieldRefused(env: Env, kids: seq<Node>, ms: seq<Member>, i: nat)
    requires (forall k | k in kids :: Sized(k)) && i < |kids|
    requires forall j | 0 <= j < i :: GetItem(ms, kids[j].id).Some? && Encode(env, kids[j], GetItem(ms, kids[j].id).value).Ok?
    ensures GetItem(ms, kids[i].id) == None ==> EncodeFields(env, kids, ms) == Err(MissingField(kids[i].id))
    ensures var sv := GetItem(ms, kids[i].id);
      sv.Some? && Encode(env, kids[i], sv.value).Err? ==> EncodeFields(env, kids, ms) == Err(Encode(env, kids[i], sv.value).error)
    decreases |kids|
  {
    hide Encode, GetItem, Sized;
    if i > 0 {
      assert forall j | 0 <= j < i - 1 :: kids[1..][j] == kids[j + 1];
      FieldRefused(env, kids[1..], ms, i - 1);
    }
  }

  /** A list wants two fields, a count that is a number and an array of that many
      entries. */
  lemma ListRefused(env: Env, n: Node, ms: seq<Member>)
    requires Sized(n) && n.kind == List
    ensures var r := Encode(env, n, VObj(ms));
      if |n.kids| != 2 then r == Err(ListArity)
      else
        var cv, sv := GetItem(ms, n.kids[0].id), GetItem(ms, n.kids[1].id);
        && (cv.None? ==> r == Err(MissingField(n.kids[0].id)))
        && (cv.Some? && !IsNumber(cv.value) ==> r == Err(WrongType))
        && (cv.Some? && IsNumber(cv.value) && sv.None? ==> r == Err(MissingField(n.kids[1].id)))
        && (cv.Some? && IsNumber(cv.value) && sv.Some? && !sv.value.VArr? ==> r == Err(WrongType))
        && (cv.Some? && IsNumber(cv.value) && sv.Some? && sv.value.VArr? && Trunc(AsReal(cv.value)) != |sv.value.xs| ==> r == Err(CountMismatch))
  {
    hide GetItem, EncodeEntries, AsReal, Trunc;
  }

  /** Entries that no longer fit are refused. */
  lemma EntryRefused(env: Env, sub: Node, xs: seq<Value>, room: nat)
    requires Sized(sub) && xs != [] && sub.len > room
    ensures EncodeEntries(env, sub, xs, room) == Err(TooManyEntries)
  {
  }

  /** A switch wants a number as ID, a branch for it, and the branch's own field
      unless the branch is an object. */
  lemma SwitchRefused(env: Env, n: Node, ms: seq<Member>)
    requires Sized(n) && n.kind == Switch
    ensures var r, id := Encode(env, n, VObj(ms)), GetItem(ms, "ID");
      && (id.None? || !IsNumber(id.value) ==> r == Err(WrongType))
      && (id.Some? && IsNumber(id.value) ==>
            var pick := PickCase(n.cases, AsI32(Trunc(AsReal(id.value))), false);
            && (pick.None? ==> r == Err(NoVariant))
            && (pick.Some? && n.kids[pick.value].kind != Complex && GetItem(ms, n.kids[pick.value].id) == None ==>
                  r == Err(MissingField(n.kids[pick.value].id))))
  {
    hide GetItem, PickCase, AsReal, Trunc, AsI32;
  }

  /** o3e_codec_encodable says no of trees that some value can still be written to:
      an array in the list's entries does no harm while there are none. */
  lemma HintIsNoVerdict(env: Env, n: Node)
    requires Sized(n) && n.kind == List && |n.kids| == 2 && n.kids[0].id != n.kids[1].id
    requires n.kids[1].kids != [] && n.kids[1].kids[0].kind == Array
    ensures !Encodable(n)
    ensures Encode(env, n, VObj([Member(n.kids[0].id, VInt(0)), Member(n.kids[1].id, VArr([]))])).Ok?
  {
    var ck, sub := n.kids[0], n.kids[1];
    assert sub in n.kids && sub.kids[0] in sub.kids;
    assert !Encodable(sub.kids[0]) && !Encodable(sub);
    var ms := [Member(ck.id, VInt(0)), Member(sub.id, VArr([]))];
    assert ms[1..][0] == ms[1] && GetItem(ms[1..], sub.id) == Some(VArr([]));
    WholeExact(0);
    assert Trunc(AsReal(VInt(0))) == 0;
    EmptyList(env, n, ms);
  }

  lemma EmptyList(env: Env, n: Node, ms: seq<Member>)
    requires Sized(n) && n.kind == List && |n.kids| == 2
    requires GetItem(ms, n.kids[0].id) == Some(VInt(0)) && GetItem(ms, n.kids[1].id) == Some(VArr([]))
    requires Trunc(AsReal(VInt(0))) == 0
    ensures Encode(env, n, VObj(ms)).Ok?
  {
    hide GetItem, AsReal, Trunc;
    var sub, room := n.kids[1], n.len - n.kids[0].len;
    assert Encode(env, n, VObj(ms)) == EncodeList(env, n, ms);
    var none: seq<Value> := [];
    assert GetItem(ms, sub.id).value.xs == none;
    assert EncodeEntries(env, sub, none, room) == Ok(Zeros(room));
  }

  /** Of an object's fields, though, one without an encoder makes every write fail. */
  lemma {:induction false} NeverWritable(env: Env, kids: seq<Node>, ms: seq<Member>, i: nat)
    requires (forall k | k in kids :: Sized(k)) && i < |kids| && !KindEncodable(kids[i].kind)
    ensures EncodeFields(env, kids, ms).Err?
    decreases |kids|
  {
    hide Sized, GetItem;
    if i > 0 {
      NeverWritable(env, kids[1..], ms, i - 1);
    } else {
      NoEncoder(env, kids[0]);
    }
  }

  lemma NoEncoder(env: Env, n: Node)
    requires Sized(n) && !KindEncodable(n.kind)
    ensures forall v: Value :: Encode(env, n, v) == Err(NotEncodable)
  {
  }
}
