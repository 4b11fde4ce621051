/** What encode_node means: the bytes it writes for a value, or why it refuses. */
module CodecEncode {
  import opened Bytes
  import opened Text
  import opened Wrappers
  import opened Doubles
  import opened Json
  import opened CodecTree

  datatype EncError =
    | TooSmall | WrongType | WrongHexLength | NotHex | OutOfRange | Negative
    | NotATime | NotInEnum | MissingField(key: string) | ListArity
    | CountMismatch | TooManyEntries | NoVariant | NotEncodable

  type Encoded = Result<bytes, EncError>

  /** The value times the scale, in doubles. */
  function Scaled(n: Node, v: Value): real
    requires IsNumber(v)
  {
    Product(AsReal(v), n.scale)
  }

  /** The INT branch after rounding: check 64 bits, check the field, store. */
  function StoreInt(n: Node, rounded: int): (r: Encoded)
    requires 1 <= n.len <= 8
    ensures r.Ok? ==> |r.value| == n.len
  {
    var low := if n.signd then -TWO63 else 0;
    var top := if n.signd then TWO63 else TWO64;
    if rounded < low || rounded >= top then Err(OutOfRange)
    else
      var sraw := AsI64(rounded % TWO64);
      var half := Pow256(n.len) / 2;
      var lo := if n.signd then -half else 0;
      var hi := if n.signd then half - 1 else Pow256(n.len) - 1;
      if n.len < 8 && (sraw < lo || sraw > hi) then Err(OutOfRange)
      else Ok(LE(rounded, n.len))
  }

  function EncodeEnum(env: Env, n: Node, v: Value): (r: Encoded)
    ensures r.Ok? ==> |r.value| == n.len
  {
    match v
    case VObj(ms) =>
      var text := GetItem(ms, "Text");
      var id := GetItem(ms, "ID");
      if text.Some? && text.value.VStr? then EncodeEnumText(env, n, text.value.s)
      else if id.Some? && IsNumber(id.value) then Ok(LE(Trunc(AsReal(id.value)), n.len))
      else Err(WrongType)
    case VInt(_) => Ok(LE(Trunc(AsReal(v)), n.len))
    case VDbl(_) => Ok(LE(Trunc(AsReal(v)), n.len))
    case VStr(s) => EncodeEnumText(env, n, s)
    case _ => Err(WrongType)
  }

  function EncodeEnumText(env: Env, n: Node, text: string): (r: Encoded)
    ensures r.Ok? ==> |r.value| == n.len
  {
    match EnumValue(EnumList(env, n.list), text)
    case Some(val) => Ok(LE(val, n.len))
    case None => Err(NotInEnum)
  }

  function EncodeBool(n: Node, v: Value): (r: Encoded)
    requires n.len >= 1
    ensures r.Ok? ==> |r.value| == n.len
  {
    match v
    case VBool(b) => Ok([if b then 1 else 0] + Zeros(n.len - 1))
    case VStr(s) => Ok([if SameNoCase(s, "on") then 1 else 0] + Zeros(n.len - 1))
    case VInt(i) => Ok([if i != 0 then 1 else 0] + Zeros(n.len - 1))
    case VDbl(r) => Ok([if r != 0.0 then 1 else 0] + Zeros(n.len - 1))
    case _ => Err(WrongType)
  }

  function Encode(env: Env, n: Node, v: Value): (r: Encoded)
    requires Sized(n)
    ensures r.Ok? ==> |r.value| == n.len
    decreases n, 1, 0
  {
    match n.kind
    case Raw =>
      if !v.VStr? then Err(WrongType)
      else if |v.s| != 2 * n.len then Err(WrongHexLength)
      else (match ParseHex(v.s)
            case None => Err(NotHex)
            case Some(b) => ParseHexLength(v.s); Ok(b))
    case Int => if IsNumber(v) then StoreInt(n, RoundAway(Scaled(n, v))) else Err(WrongType)
    case Float32 => if IsNumber(v) then Ok(LE(env.floatBits(AsReal(v)), 4)) else Err(WrongType)
    case ByteVal =>
      if !IsNumber(v) then Err(WrongType)
      else if AsReal(v) < 0.0 then Err(Negative)
      else Ok(LE(Trunc(AsReal(v)), n.len))
    case Bool => EncodeBool(n, v)
    case Stime =>
      if !v.VStr? then Err(WrongType)
      else (match ParseTime(v.s, n.len) case None => Err(NotATime) case Some(b) => Ok(b))
    case Enum => EncodeEnum(env, n, v)
    case Complex => if v.VObj? then EncodeFields(env, n.kids, v.ms) else Err(WrongType)
    case List =>
      if !v.VObj? then Err(WrongType)
      else if |n.kids| != 2 then Err(ListArity)
      else EncodeList(env, n, v.ms)
    case Switch =>
      if !v.VObj? then Err(WrongType)
      else
        var id := GetItem(v.ms, "ID");
        if id.None? || !IsNumber(id.value) then Err(WrongType)
        else
          var sel := AsI32(Trunc(AsReal(id.value)));
          (match PickCase(n.cases, sel, false)
           case None => Err(NoVariant)
           case Some(i) =>
             var b := n.kids[i];
             var bv := if b.kind == Complex then Some(v) else GetItem(v.ms, b.id);
             if bv.None? then Err(MissingField(b.id))
             else match Encode(env, b, bv.value)
               case Err(e) => Err(e)
               case Ok(s) => Ok([sel % 256] + s + Zeros(n.len - 1 - b.len)))
    case _ => Err(NotEncodable)
  }

  function EncodeFields(env: Env, kids: seq<Node>, ms: seq<Member>): (r: Encoded)
    requires forall k | k in kids :: Sized(k)
    ensures r.Ok? ==> |r.value| == SumLen(kids)
    decreases kids, 0, 0
  {
    if kids == [] then Ok([])
    else match GetItem(ms, kids[0].id)
      case None => Err(MissingField(kids[0].id))
      case Some(sv) =>
        match Encode(env, kids[0], sv)
        case Err(e) => Err(e)
        case Ok(a) =>
          match EncodeFields(env, kids[1..], ms)
          case Err(e) => Err(e)
          case Ok(b) => Ok(a + b)
  }

  /** The two-field list: Count, then exactly that many entries, then zeros. */
  function EncodeList(env: Env, n: Node, ms: seq<Member>): (r: Encoded)
    requires Sized(n) && n.kind == List && |n.kids| == 2
    ensures r.Ok? ==> |r.value| == n.len
    decreases n, 0, 0
  {
    var ck, sub := n.kids[0], n.kids[1];
    match GetItem(ms, ck.id)
    case None => Err(MissingField(ck.id))
    case Some(cv) =>
      if !IsNumber(cv) then Err(WrongType)
      else
        var count := Trunc(AsReal(cv));
        match GetItem(ms, sub.id)
        case None => Err(MissingField(sub.id))
        case Some(sv) =>
          if !sv.VArr? then Err(WrongType)
          else if |sv.xs| != count then Err(CountMismatch)
          else
            match EncodeEntries(env, sub, sv.xs, n.len - ck.len)
            case Err(e) => Err(e)
            case Ok(s) => Ok(LE(count, ck.len) + s)
  }

  /** Entries into `room` bytes; what is left over stays zero. */
  function EncodeEntries(env: Env, sub: Node, xs: seq<Value>, room: nat): (r: Encoded)
    requires Sized(sub)
    ensures r.Ok? ==> |r.value| == room
    decreases sub, 2, |xs|
  {
    if xs == [] then Ok(Zeros(room))
    else if sub.len > room then Err(TooManyEntries)
    else match Encode(env, sub, xs[0])
      case Err(e) => Err(e)
      case Ok(a) =>
        match EncodeEntries(env, sub, xs[1..], room - sub.len)
        case Err(e) => Err(e)
        case Ok(b) => Ok(a + b)
  }
}
