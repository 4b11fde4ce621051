/** The codec tree (o3e_node_t) and what surrounds it. An empty `id` stands for
    a NULL one: the compiler of the tree turns empty strings into NULL. */
module CodecTree {
  import opened Bytes
  import opened Text
  import opened Wrappers

  /** Kinds that decode to one text and have no encoder. */
  datatype TextKind = Utf8 | SoftVers | MacAddr | Ip4Addr | SDate | Utc

  datatype Kind =
    | Unknown | Raw | Int | Float32 | ByteVal | Bool | Stime | Enum
    | List | Array | Complex | Switch | CosPhi | DateTime | TextOnly(form: TextKind)

  /** The database has no zero scale: a division by it has no exact result. */
  type Scale = r: real | r != 0.0 witness 1.0

  /** One entry of case_vals / case_default, parallel to `kids`. */
  datatype CaseKey = CaseKey(isDefault: bool, val: int)

  datatype Node = Node(kind: Kind, len: nat, id: string, list: string,
                       scale: Scale, decimals: nat, signd: bool, tsFormat: bool, arrayLen: nat,
                       kids: seq<Node>, cases: seq<CaseKey>)

  datatype EnumEntry = EnumEntry(value: int, text: string)

  /** The enum lists of the database, and the foreign conversions: leaf text
      (strftime, localtime, snprintf), float bits, epoch milliseconds, and the
      indeterminate buffer a time field of no bytes leaves behind. */
  datatype Env = Env(enums: map<string, seq<EnumEntry>>,
                     text: (TextKind, bytes) -> string,
                     dateText: (bool, bytes) -> string,
                     epochMs: (bool, bytes) -> int,
                     float32: nat -> real,
                     floatBits: real -> nat,
                     unset: string)

  function EnumList(env: Env, name: string): seq<EnumEntry> {
    if name in env.enums then env.enums[name] else []
  }

  /** o3e_db_enum: the text for a value. */
  function EnumText(es: seq<EnumEntry>, value: int): Option<string> {
    if es == [] then None
    else if es[0].value == value then Some(es[0].text)
    else EnumText(es[1..], value)
  }

  /** The search of encode_enum: the first entry with this text, whatever its case. */
  function EnumValue(es: seq<EnumEntry>, text: string): Option<int> {
    if es == [] then None
    else if SameNoCase(es[0].text, text) then Some(es[0].value)
    else EnumValue(es[1..], text)
  }

  /** snprintf into ENUM_MISS_MAX bytes: at most 63 characters. */
  function MissText(list: string): string {
    var s := "not found in " + list;
    if |s| <= 63 then s else s[..63]
  }

  predicate IsCount(n: Node) {
    SameNoCase(n.id, "count")
  }

  /** The branch for a discriminator; `firstDefault` tells decoding (first
      default wins) from encoding (last default wins). */
  function PickCase(cases: seq<CaseKey>, v: int, firstDefault: bool): (r: Option<nat>)
    ensures r.Some? ==> r.value < |cases|
  {
    match FirstCase(cases, v)
    case Some(i) => Some(i)
    case None => if firstDefault then FirstDefault(cases) else LastDefault(cases)
  }

  function FirstCase(cases: seq<CaseKey>, v: int): (r: Option<nat>)
    ensures r.Some? ==> r.value < |cases|
  {
    if cases == [] then None
    else if !cases[0].isDefault && cases[0].val == v then Some(0)
    else match FirstCase(cases[1..], v)
      case None => None
      case Some(i) => Some(i + 1)
  }

  function FirstDefault(cases: seq<CaseKey>): (r: Option<nat>)
    ensures r.Some? ==> r.value < |cases| && cases[r.value].isDefault
    ensures r.None? ==> forall i :: 0 <= i < |cases| ==> !cases[i].isDefault
  {
    if cases == [] then None
    else if cases[0].isDefault then Some(0)
    else match FirstDefault(cases[1..])
      case None => None
      case Some(i) => Some(i + 1)
  }

  function LastDefault(cases: seq<CaseKey>): (r: Option<nat>)
    ensures r.Some? ==> r.value < |cases| && cases[r.value].isDefault
    ensures r.None? ==> forall i :: 0 <= i < |cases| ==> !cases[i].isDefault
  {
    if cases == [] then None
    else if cases[|cases| - 1].isDefault then Some(|cases| - 1)
    else LastDefault(cases[..|cases| - 1])
  }

  function SumLen(kids: seq<Node>): nat {
    if kids == [] then 0 else kids[0].len + SumLen(kids[1..])
  }

  /** Numbers fit the 64-bit accumulator of read_uint and put_le. */
  predicate Narrow(n: Node) {
    && (n.kind in {Int, ByteVal, Enum} ==> n.len <= 8)
    && (n.kind == List ==> forall k | k in n.kids :: IsCount(k) ==> k.len <= 8)
    && (n.kind == Switch ==> |n.cases| == |n.kids|)
    && forall k | k in n.kids :: Narrow(k)
  }

  /** The widths the encoder relies on: it never checks them itself. */
  predicate Sized(n: Node) {
    && (n.kind in {Int, ByteVal, Enum} ==> 1 <= n.len <= 8)
    && (n.kind == Bool ==> n.len >= 1)
    && (n.kind == Float32 ==> n.len == 4)
    && (n.kind == Complex ==> SumLen(n.kids) == n.len)
    && (n.kind == List && |n.kids| == 2 ==>
          IsCount(n.kids[0]) && n.kids[0].len <= 8 && n.kids[0].len <= n.len &&
          !IsCount(n.kids[1]) && n.kids[1].kind == Complex)
    && (n.kind == Switch ==>
          |n.cases| == |n.kids| && forall k | k in n.kids :: k.len + 1 <= n.len)
    && forall k | k in n.kids :: Sized(k)
  }

  /** kind_encodable and o3e_codec_encodable: the hint the web interface uses. */
  predicate KindEncodable(k: Kind) {
    k in {Raw, Int, Float32, ByteVal, Bool, Stime, Enum, Complex, List, Switch}
  }

  predicate Encodable(n: Node) {
    KindEncodable(n.kind) && forall k | k in n.kids :: Encodable(k)
  }
}
