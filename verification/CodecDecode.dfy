/** What decode_node means: the JSON value its events denote. `d` is the
    available payload, which may be shorter or longer than the node. */
module CodecDecode {
  import opened Bytes
  import opened Text
  import opened Doubles
  import opened Json
  import opened CodecTree

  function TextWidth(k: TextKind, len: nat): nat {
    match k
    case MacAddr => 6
    case SDate => 3
    case Utc => 4
    case _ => len
  }

  /** The 95 characters app_fmt can place in decode_node's 96-byte buffer. */
  function Clip95(s: string): string {
    if |s| <= 95 then s else s[..95]
  }

  /** The text of a time of these bytes. */
  function TimeShown(env: Env, b: bytes): string {
    if b == [] then env.unset else Clip95(TimeText(b))
  }

  /** It fits the buffer, or all it loses is the second zero of a last 00. */
  predicate TimeFits(b: bytes) {
    |TimeText(b)| <= 95 || (|TimeText(b)| == 96 && b[|b| - 1] == 0)
  }

  /** {"ID": v, "Text": ...}, shared by enums and switches. */
  function EnumPair(env: Env, list: string, v: int): (ms: seq<Member>)
    ensures |ms| == 2 && ms[0] == Member("ID", VInt(v)) && ms[1].key == "Text"
  {
    [Member("ID", VInt(v)), Member("Text", VStr(EnumShown(env, list, v)))]
  }

  function EnumShown(env: Env, list: string, v: int): string {
    match EnumText(EnumList(env, list), AsI32(v))
    case Some(t) => t
    case None => MissText(list)
  }

  function IntValue(n: Node, d: bytes): real {
    var raw := if n.signd then ReadInt(Take(d, n.len), true) else FromLE(Take(d, n.len));
    Unscaled(n, AsDouble(raw as real))
  }

  /** Divided by the scale and rounded for the sink, both in doubles. */
  function Unscaled(n: Node, x: real): real {
    RoundDecimals(Quotient(x, n.scale), n.decimals)
  }

  function CosPhiValue(n: Node, d: bytes): real {
    var v := if |d| >= 2 then d[1] as real else 0.0;
    var w := if |d| >= 1 && d[0] == 4 then -v else v;
    Unscaled(n, w)
  }

  /** "VM" layout reads nothing unless eight bytes are there. */
  function DateBytes(n: Node, d: bytes): bytes {
    if n.tsFormat then Take(d, 6) else if |d| >= 8 then d[..8] else []
  }

  function Decode(env: Env, n: Node, d: bytes): Value
    decreases n, 0, 0
  {
    match n.kind
    case Unknown => VStr(HexText(Take(d, n.len)))
    case Raw => VStr(HexText(Take(d, n.len)))
    case Int => VDbl(IntValue(n, d))
    case Float32 => VDbl(Unscaled(n, env.float32(FromLE(Take(d, 4)))))
    case CosPhi => VDbl(CosPhiValue(n, d))
    case ByteVal => VInt(AsI64(FromLE(Take(d, n.len))))
    case Bool => VStr(if d != [] && d[0] != 0 then "on" else "off")
    case TextOnly(k) => VStr(env.text(k, Take(d, TextWidth(k, n.len))))
    case Stime =>
      VStr(TimeShown(env, Take(d, n.len)))
    case DateTime =>
      var b := DateBytes(n, d);
      VObj([Member("DateTime", VStr(env.dateText(n.tsFormat, b))),
            Member("Timestamp", VInt(env.epochMs(n.tsFormat, b)))])
    case Enum => VObj(EnumPair(env, n.list, AsI64(FromLE(Take(d, n.len)))))
    case Complex => VObj(Fields(env, n.kids, d))
    case List => VObj(ListFields(env, n.kids, d, 0))
    case Array => VObj(ArrayFields(env, n.kids, n.arrayLen, d))
    case Switch =>
      var v := if d == [] then 0 else d[0];
      var head := EnumPair(env, n.list, v);
      match PickCase(n.cases, v, true)
      case None => VObj(head + [Member("Error", VStr("no matching case for ID " + DecInt(v)))])
      case Some(i) =>
        if i >= |n.kids| then VObj(head)
        else if n.kids[i].kind == Complex then VObj(head + Fields(env, n.kids[i].kids, Drop(d, 1)))
        else VObj(head + [Member(n.kids[i].id, Decode(env, n.kids[i], Drop(d, 1)))])
  }

  function Fields(env: Env, kids: seq<Node>, d: bytes): seq<Member>
    decreases kids, 0, 0
  {
    if kids == [] then []
    else [Member(kids[0].id, Decode(env, kids[0], d))] + Fields(env, kids[1..], Drop(d, kids[0].len))
  }

  /** decode_list: a count wherever a field is named so, arrays of that many
      entries, other fields in between. */
  function ListFields(env: Env, kids: seq<Node>, d: bytes, count: int): seq<Member>
    decreases kids, 0, 0
  {
    if kids == [] then []
    else
      var sub := kids[0];
      if IsCount(sub) then
        var c := ReadInt(Take(d, sub.len), sub.signd);
        [Member(sub.id, VInt(c))] + ListFields(env, kids[1..], Drop(d, sub.len), c)
      else if sub.kind == Complex then
        var (xs, rest) := Entries(env, sub, d, count);
        [Member(sub.id, VArr(xs))] + ListFields(env, kids[1..], rest, count)
      else
        [Member(sub.id, Decode(env, sub, d))] + ListFields(env, kids[1..], Drop(d, sub.len), count)
  }

  /** Entries until the count is met or the payload cannot hold another one. */
  function Entries(env: Env, sub: Node, d: bytes, count: int): (seq<Value>, bytes)
    decreases sub, 1, if count < 0 then 0 else count
  {
    if count <= 0 || (sub.len > 0 && sub.len > |d|) then ([], d)
    else
      var (xs, rest) := Entries(env, sub, Drop(d, sub.len), count - 1);
      ([Decode(env, sub, d)] + xs, rest)
  }

  function ArrayFields(env: Env, kids: seq<Node>, reps: nat, d: bytes): seq<Member>
    decreases kids, 0, 0
  {
    if kids == [] then []
    else
      var (xs, rest) := Repeats(env, kids[0], d, reps);
      [Member(kids[0].id, VArr(xs))] + ArrayFields(env, kids[1..], reps, rest)
  }

  /** O3EArray repeats whether or not bytes are left. */
  function Repeats(env: Env, sub: Node, d: bytes, reps: nat): (seq<Value>, bytes)
    decreases sub, 1, reps
  {
    if reps == 0 then ([], d)
    else
      var (xs, rest) := Repeats(env, sub, Drop(d, sub.len), reps - 1);
      ([Decode(env, sub, d)] + xs, rest)
  }

  /** The object a switch decodes to: discriminator first, then its branch. */
  lemma SwitchShape(env: Env, n: Node, d: bytes)
    requires n.kind == Switch && |n.kids| == |n.cases|
    ensures var v := if d == [] then 0 else d[0];
            var pick := PickCase(n.cases, v, true);
            Decode(env, n, d) == VObj(EnumPair(env, n.list, v) +
              if pick.None? then [Member("Error", VStr("no matching case for ID " + DecInt(v)))]
              else SwitchTail(env, n.kids[pick.value], Drop(d, 1)))
  {
  }

  function SwitchTail(env: Env, b: Node, d: bytes): seq<Member> {
    if b.kind == Complex then Fields(env, b.kids, d) else [Member(b.id, Decode(env, b, d))]
  }
}
