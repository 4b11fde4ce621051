/** The datapoint database as tools/gen_dpdb.py lays it out. */
module DbImage {
  import opened Bytes
  import opened Wrappers
  import opened Container

  // ---- what goes in ----

  datatype Dp = Dp(did: int, len: int, json: bytes, name: bytes, german: bytes)
  datatype Variant = Variant(did: int, len: int, json: bytes)
  datatype Item = Item(value: int, text: bytes)
  datatype EnumList = EnumList(name: bytes, items: seq<Item>)
  datatype Meter = Meter(id: int, len: int, json: bytes)

  /** The source dictionaries, each as its items in the order sorted() gives. */
  datatype Source = Source(version: bytes, dps: seq<Dp>, vars: seq<Variant>, enums: seq<EnumList>, meters: seq<Meter>)

  predicate Before(a: Variant, b: Variant) {
    a.did < b.did || (a.did == b.did && a.len < b.len)
  }

  predicate Ascending(items: seq<Item>) {
    forall i, j | 0 <= i < j < |items| :: items[i].value < items[j].value
  }

  /** Keys are distinct and in order, and no text contains a zero byte. */
  predicate Dictionary(src: Source) {
    && (forall i, j | 0 <= i < j < |src.dps| :: src.dps[i].did < src.dps[j].did)
    && (forall i, j | 0 <= i < j < |src.vars| :: Before(src.vars[i], src.vars[j]))
    && (forall i, j | 0 <= i < j < |src.meters| :: src.meters[i].id < src.meters[j].id)
    && (forall i, j | 0 <= i < j < |src.enums| :: src.enums[i].name != src.enums[j].name)
    && (forall i | 0 <= i < |src.enums| :: NoZero(src.enums[i].name) && Ascending(src.enums[i].items))
    && (forall i, k | 0 <= i < |src.enums| && 0 <= k < |src.enums[i].items| :: NoZero(src.enums[i].items[k].text))
    && (forall i | 0 <= i < |src.dps| :: NoZero(src.dps[i].name) && NoZero(src.dps[i].german))
  }

  // ---- record layouts ----

  const VERSION := 3
  const HEADER_SIZE := 64
  const ENUM_NAME_MAX := 40

  const HEAD: Layout := [C(8), U(4), C(16), U(4)]
  const SECT: Layout := [C(12), U(4), U(4)]
  const DP: Layout := [U(2), U(2), U(4), U(4), U(4)]
  const VAR: Layout := [U(2), U(2), U(4), U(4)]
  const EIDX: Layout := [C(40), U(4), U(4)]
  const EENT: Layout := [S(4), U(4)]
  const DEOFF: Layout := [U(4)]

  function Ascii(s: string): (b: bytes)
    ensures |b| == |s|
  {
    seq(|s|, i requires 0 <= i < |s| => s[i] as int % 256)
  }

  // ---- the tables, before packing ----

  function Jsons(dps: seq<Dp>): seq<bytes> {
    seq(|dps|, i requires 0 <= i < |dps| => dps[i].json)
  }

  function Names(dps: seq<Dp>): seq<bytes> {
    seq(|dps|, i requires 0 <= i < |dps| => dps[i].name + [0])
  }

  function Germans(dps: seq<Dp>): seq<bytes> {
    seq(|dps|, i requires 0 <= i < |dps| => dps[i].german + [0])
  }

  function At(b: Store, x: bytes): nat {
    if x in b.seen then b.seen[x] else 0
  }

  function DpRow(dps: seq<Dp>, i: nat): Row
    requires i < |dps|
  {
    [Num(dps[i].did), Num(dps[i].len), Num(Offset(Jsons(dps), i)), Num(|dps[i].json|), Num(At(AllAdded(Names(dps)), dps[i].name + [0]))]
  }

  function DpRows(dps: seq<Dp>): (rs: seq<Row>)
    ensures |rs| == |dps|
  {
    seq(|dps|, i requires 0 <= i < |dps| => DpRow(dps, i))
  }

  function DeRows(dps: seq<Dp>): (rs: seq<Row>)
    ensures |rs| == |dps|
  {
    seq(|dps|, i requires 0 <= i < |dps| => [Num(At(AllAdded(Germans(dps)), dps[i].german + [0]))])
  }

  function VarJsons(vs: seq<Variant>): seq<bytes> {
    seq(|vs|, i requires 0 <= i < |vs| => vs[i].json)
  }

  function VarRows(vs: seq<Variant>): (rs: seq<Row>)
    ensures |rs| == |vs|
  {
    seq(|vs|, i requires 0 <= i < |vs| => [Num(vs[i].did), Num(vs[i].len), Num(Offset(VarJsons(vs), i)), Num(|vs[i].json|)])
  }

  /** The meters' table has the variants' shape: identifier, length, JSON. */
  function AsVariants(ms: seq<Meter>): (vs: seq<Variant>)
    ensures |vs| == |ms|
  {
    seq(|ms|, i requires 0 <= i < |ms| => Variant(ms[i].id, ms[i].len, ms[i].json))
  }

  /** All entries of all lists, one list after the other. */
  function Flat(ls: seq<EnumList>): seq<Item> {
    if ls == [] then [] else Flat(ls[..|ls| - 1]) + ls[|ls| - 1].items
  }

  lemma {:induction false} FlatSlice(ls: seq<EnumList>, i: nat)
    requires i < |ls|
    ensures var at := |Flat(ls[..i])|;
      at + |ls[i].items| <= |Flat(ls)| && Flat(ls)[at..at + |ls[i].items|] == ls[i].items
  {
    var rest, at := ls[..|ls| - 1], |Flat(ls[..i])|;
    if i < |ls| - 1 {
      FlatSlice(rest, i);
      assert rest[..i] == ls[..i];
      assert Flat(ls)[at..at + |ls[i].items|] == Flat(rest)[at..at + |ls[i].items|];
    } else {
      assert ls[..i] == rest;
    }
  }

  function Texts(items: seq<Item>): seq<bytes> {
    seq(|items|, i requires 0 <= i < |items| => items[i].text + [0])
  }

  function EntRows(items: seq<Item>): (rs: seq<Row>)
    ensures |rs| == |items|
  {
    seq(|items|, i requires 0 <= i < |items| => [Num(items[i].value), Num(At(AllAdded(Texts(items)), items[i].text + [0]))])
  }

  function EnumRows(ls: seq<EnumList>): (rs: seq<Row>)
    ensures |rs| == |ls|
  {
    seq(|ls|, i requires 0 <= i < |ls| => [Txt(ls[i].name), Num(|Flat(ls[..i])|), Num(|ls[i].items|)])
  }

  // ---- sections ----

  datatype Section = Section(name: string, data: bytes)

  /** Sections one after the other, each padded to a multiple of four. */
  function Body(ss: seq<Section>): (b: bytes)
    ensures |b| % 4 == 0
  {
    if ss == [] then [] else Padded(Body(ss[..|ss| - 1]) + ss[|ss| - 1].data)
  }

  function Padded(b: bytes): (p: bytes)
    ensures |p| % 4 == 0 && b <= p && |p| < |b| + 4
  {
    b + Zeros((4 - |b| % 4) % 4)
  }

  function Start(ss: seq<Section>, i: nat): nat
    requires i <= |ss|
  {
    HEADER_SIZE + 20 * |ss| + |Body(ss[..i])|
  }

  function SectionRows(ss: seq<Section>): (rs: seq<Row>)
    ensures |rs| == |ss| && forall i | 0 <= i < |rs| :: |rs[i]| == |SECT|
  {
    seq(|ss|, i requires 0 <= i < |ss| => [Txt(Ascii(ss[i].name)), Num(Start(ss, i)), Num(|ss[i].data|)])
  }

  function HeadRow(version: bytes, n: nat): Row {
    [Txt(Ascii("O3EDB")), Num(VERSION), Txt(version), Num(n)]
  }

  function Packed(version: bytes, ss: seq<Section>): (r: Option<bytes>) {
    if RowFits(HEAD, HeadRow(version, |ss|)) && RowsFit(SECT, SectionRows(ss)) then
      Some(PackRow(HEAD, HeadRow(version, |ss|)) + Zeros(32) + PackRows(SECT, SectionRows(ss)) + Body(ss))
    else None
  }

  predicate Fits(src: Source) {
    && RowsFit(DP, DpRows(src.dps)) && RowsFit(DEOFF, DeRows(src.dps))
    && RowsFit(VAR, VarRows(src.vars)) && RowsFit(VAR, VarRows(AsVariants(src.meters)))
    && (forall i | 0 <= i < |src.enums| :: |src.enums[i].name| < ENUM_NAME_MAX)
    && RowsFit(EENT, EntRows(Flat(src.enums))) && RowsFit(EIDX, EnumRows(src.enums))
  }

  function Sections(src: Source): seq<Section>
    requires Fits(src)
  {
    [Section("dp_idx", PackRows(DP, DpRows(src.dps))),
     Section("dp_name", AllAdded(Names(src.dps)).buf),
     Section("dp_de", AllAdded(Germans(src.dps)).buf),
     Section("dp_de_off", PackRows(DEOFF, DeRows(src.dps))),
     Section("dp_json", Concat(Jsons(src.dps))),
     Section("var_idx", PackRows(VAR, VarRows(src.vars))),
     Section("var_json", Concat(VarJsons(src.vars))),
     Section("enum_idx", PackRows(EIDX, EnumRows(src.enums))),
     Section("enum_ent", PackRows(EENT, EntRows(Flat(src.enums)))),
     Section("enum_str", AllAdded(Texts(Flat(src.enums))).buf),
     Section("em_idx", PackRows(VAR, VarRows(AsVariants(src.meters)))),
     Section("em_json", Concat(VarJsons(AsVariants(src.meters))))]
  }

  /** The whole file, or nothing when a value does not fit its field. */
  function Build(src: Source): Option<bytes> {
    if Fits(src) then Packed(src.version, Sections(src)) else None
  }

  // ---- what the file is asked for ----

  function FindDp(dps: seq<Dp>, did: int): Option<Dp> {
    if dps == [] then None else if dps[0].did == did then Some(dps[0]) else FindDp(dps[1..], did)
  }

  function FindVar(vs: seq<Variant>, did: int, len: int): Option<Variant> {
    if vs == [] then None
    else if vs[0].did == did && vs[0].len == len then Some(vs[0])
    else FindVar(vs[1..], did, len)
  }

  function FindList(ls: seq<EnumList>, name: bytes): Option<EnumList> {
    if ls == [] then None else if ls[0].name == name then Some(ls[0]) else FindList(ls[1..], name)
  }

  function FindItem(items: seq<Item>, value: int): Option<Item> {
    if items == [] then None else if items[0].value == value then Some(items[0]) else FindItem(items[1..], value)
  }

  /** The variant for that length if there is one, else the general record. */
  function JsonFor(src: Source, did: int, len: int): Option<bytes> {
    var v := FindVar(src.vars, did, len);
    var d := FindDp(src.dps, did);
    if len != 0 && v.Some? then Some(v.value.json) else if d.Some? then Some(d.value.json) else None
  }

  function TextFor(src: Source, list: bytes, value: int): Option<bytes> {
    var l := FindList(src.enums, list);
    if l.None? then None
    else
      var x := FindItem(l.value.items, value);
      if x.None? then None else Some(x.value.text)
  }
}
