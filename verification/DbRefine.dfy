/** What the built file answers is what its dictionaries say. */
module DbRefine {
  import opened Bytes
  import opened Wrappers
  import opened Container
  import opened DbImage
  import opened DbReader
  import opened DbLookup
  import DbPacker

  // ---- first matches, in the dictionaries and in the tables ----

  lemma {:induction false} FirstDp(dps: seq<Dp>, did: int, i: nat)
    requires i < |dps| && dps[i].did == did && forall j | 0 <= j < i :: dps[j].did != did
    ensures FindDp(dps, did) == Some(dps[i])
  {
    if i > 0 {
      FirstDp(dps[1..], did, i - 1);
    }
  }

  lemma {:induction false} NoDp(dps: seq<Dp>, did: int)
    requires forall j | 0 <= j < |dps| :: dps[j].did != did
    ensures FindDp(dps, did) == None
  {
    if dps != [] {
      NoDp(dps[1..], did);
    }
  }

  lemma {:induction false} FirstVar(vs: seq<Variant>, did: int, len: int, i: nat)
    requires i < |vs| && vs[i].did == did && vs[i].len == len
    requires forall j | 0 <= j < i :: vs[j].did != did || vs[j].len != len
    ensures FindVar(vs, did, len) == Some(vs[i])
  {
    if i > 0 {
      FirstVar(vs[1..], did, len, i - 1);
    }
  }

  lemma {:induction false} NoVar(vs: seq<Variant>, did: int, len: int)
    requires forall j | 0 <= j < |vs| :: vs[j].did != did || vs[j].len != len
    ensures FindVar(vs, did, len) == None
  {
    if vs != [] {
      NoVar(vs[1..], did, len);
    }
  }

  lemma {:induction false} FirstItem(items: seq<Item>, value: int, i: nat)
    requires i < |items| && items[i].value == value && forall j | 0 <= j < i :: items[j].value != value
    ensures FindItem(items, value) == Some(items[i])
  {
    if i > 0 {
      FirstItem(items[1..], value, i - 1);
    }
  }

  lemma {:induction false} NoItem(items: seq<Item>, value: int)
    requires forall j | 0 <= j < |items| :: items[j].value != value
    ensures FindItem(items, value) == None
  {
    if items != [] {
      NoItem(items[1..], value);
    }
  }

  lemma {:induction false} FirstList(ls: seq<EnumList>, name: bytes, i: nat)
    requires i < |ls| && ls[i].name == name && forall j | 0 <= j < i :: ls[j].name != name
    ensures FindList(ls, name) == Some(ls[i])
  {
    if i > 0 {
      FirstList(ls[1..], name, i - 1);
    }
  }

  lemma {:induction false} NoList(ls: seq<EnumList>, name: bytes)
    requires forall j | 0 <= j < |ls| :: ls[j].name != name
    ensures FindList(ls, name) == None
  {
    if ls != [] {
      NoList(ls[1..], name);
    }
  }

  // ---- records in their section ----

  /** A record of a section of records laid end to end. */
  lemma RecordRead(src: Source, s: nat, xs: seq<bytes>, i: nat)
    requires Build(src).Some? && Fits(src) && s < 12 && i < |xs|
    requires |Sections(src)| == 12 && Sections(src)[s].data == Concat(xs)
    ensures ReadAt(Build(src).value, Start(Sections(src), s) + Offset(xs, i), |xs[i]|) == Some(xs[i])
  {
    hide Fits, Sections, Start, Concat, Packed;
    BuiltIs(src);
    SectionPlaced(src.version, Sections(src), s);
    ConcatSlice(xs, i);
    SubRead(Build(src).value, Start(Sections(src), s), Concat(xs), Offset(xs, i), xs[i]);
  }

  lemma SubRead(image: bytes, at: nat, data: bytes, off: nat, x: bytes)
    requires ReadAt(image, at, |data|) == Some(data) && off + |x| <= |data| && data[off..off + |x|] == x
    ensures ReadAt(image, at + off, |x|) == Some(x)
  {
    if x != [] {
      assert data != [];
      assert data == image[at..at + |data|];
      var y := image[at + off..at + off + |x|];
      forall k | 0 <= k < |x|
        ensures y[k] == x[k]
      {
        assert y[k] == data[off + k] == data[off..off + |x|][k];
      }
      assert y == x;
    }
  }

  lemma JsonAtIs(image: bytes, base: nat, r: Row, k: nat, off: nat, x: bytes)
    requires Val(r, k) == off && Val(r, k + 1) == |x| && ReadAt(image, base + off, |x|) == Some(x)
    ensures JsonAt(image, base, r, k) == Some(x)
  {
  }

  lemma TableFields(src: Source)
    requires Fits(src)
    ensures |Sections(src)| == 12
    ensures var t := TablesOf(src); var ss := Sections(src);
      && t.dp == DpRows(src.dps) && t.vars == VarRows(src.vars) && t.em == VarRows(AsVariants(src.meters))
      && t.dpJson == Start(ss, 4) && t.varJson == Start(ss, 6) && t.emJson == Start(ss, 11)
  {
    hide Fits, Sections, Start, AllAdded, DpRows, VarRows, AsVariants, DeRows, EntRows, EnumRows, StoredRows;
    SectionsAre(src);
  }

  lemma DpCells(dps: seq<Dp>, i: nat)
    requires i < |dps|
    ensures var r := DpRows(dps)[i]; Val(r, 0) == dps[i].did && Val(r, 2) == Offset(Jsons(dps), i) && Val(r, 3) == |dps[i].json|
    ensures |Jsons(dps)| == |dps| && Jsons(dps)[i] == dps[i].json
  {
    hide Offset, AllAdded, At;
  }

  lemma VarCells(vs: seq<Variant>, i: nat)
    requires i < |vs|
    ensures var r := VarRows(vs)[i];
      Val(r, 0) == vs[i].did && Val(r, 1) == vs[i].len && Val(r, 2) == Offset(VarJsons(vs), i) && Val(r, 3) == |vs[i].json|
    ensures |VarJsons(vs)| == |vs| && VarJsons(vs)[i] == vs[i].json
  {
    hide Offset;
  }

  lemma DpJson(src: Source, base: nat, i: nat)
    requires Build(src).Some? && Fits(src) && i < |src.dps| && |Sections(src)| == 12
    requires Sections(src)[4].data == Concat(Jsons(src.dps)) && base == Start(Sections(src), 4)
    ensures JsonAt(Build(src).value, base, DpRows(src.dps)[i], 2) == Some(src.dps[i].json)
  {
    hide Fits, Sections, Start, Concat, ReadAt, Build, Jsons, DpRows, JsonAt, Offset, Val;
    DpCells(src.dps, i);
    RecordRead(src, 4, Jsons(src.dps), i);
    JsonAtIs(Build(src).value, base, DpRows(src.dps)[i], 2, Offset(Jsons(src.dps), i), src.dps[i].json);
  }

  /** The same for the variants' sections and the meters'. */
  lemma VarJson(src: Source, s: nat, base: nat, vs: seq<Variant>, i: nat)
    requires Build(src).Some? && Fits(src) && i < |vs| && |Sections(src)| == 12 && s < 12
    requires Sections(src)[s].data == Concat(VarJsons(vs)) && base == Start(Sections(src), s)
    ensures JsonAt(Build(src).value, base, VarRows(vs)[i], 2) == Some(vs[i].json)
  {
    hide Fits, Sections, Start, Concat, ReadAt, Build, VarJsons, VarRows, JsonAt, Offset, Val;
    VarCells(vs, i);
    RecordRead(src, s, VarJsons(vs), i);
    JsonAtIs(Build(src).value, base, VarRows(vs)[i], 2, Offset(VarJsons(vs), i), vs[i].json);
  }

  lemma VarIndexed(vs: seq<Variant>, did: int, len: int)
    ensures var r := PairIn(VarRows(vs), did, len, 0);
      FindVar(vs, did, len) == if r.Some? then Some(vs[r.value]) else None
  {
    hide VarRows, FindVar, Val;
    forall j | 0 <= j < |vs|
      ensures HasPair(VarRows(vs)[j], did, len) <==> vs[j].did == did && vs[j].len == len
    {
      VarCells(vs, j);
    }
    var r := PairIn(VarRows(vs), did, len, 0);
    if r.Some? {
      FirstVar(vs, did, len, r.value);
    } else {
      NoVar(vs, did, len);
    }
  }

  lemma DpIndexed(dps: seq<Dp>, did: int)
    ensures var r := KeyIn(DpRows(dps), did, 0, |dps|);
      FindDp(dps, did) == if r.Some? then Some(dps[r.value]) else None
  {
    hide DpRows, FindDp;
    forall j | 0 <= j < |dps|
      ensures Val(DpRows(dps)[j], 0) == dps[j].did
    {
      DpCells(dps, j);
    }
    var r := KeyIn(DpRows(dps), did, 0, |dps|);
    if r.Some? {
      FirstDp(dps, did, r.value);
    } else {
      NoDp(dps, did);
    }
  }

  /** The length-specific variant if there is one, else the general record,
      else nothing: for every file that can be built. */
  lemma JsonAgrees(src: Source, did: int, len: int)
    requires Build(src).Some?
    ensures Fits(src) && JsonOf(Build(src).value, TablesOf(src), did, len) == JsonFor(src, did, len)
  {
    hide Fits, Sections, Start, Build, DpRows, VarRows, JsonAt, TablesOf, KeyIn, PairIn, FindVar, FindDp, Concat, Jsons, VarJsons;
    BuiltIs(src);
    TableFields(src);
    SectionsAre(src);
    VarIndexed(src.vars, did, len);
    DpIndexed(src.dps, did);
    var v := PairIn(VarRows(src.vars), did, len, 0);
    if v.Some? {
      VarJson(src, 6, TablesOf(src).varJson, src.vars, v.value);
    }
    var d := KeyIn(DpRows(src.dps), did, 0, |src.dps|);
    if d.Some? {
      DpJson(src, TablesOf(src).dpJson, d.value);
    }
  }

  /** The indices are sorted, so the binary searches are exact. */
  lemma TablesSorted(src: Source)
    requires Dictionary(src) && Fits(src)
    ensures var t := TablesOf(src);
      Rising(t.dp, 0, |t.dp|) && PairsRise(t.vars) && Rising(t.em, 0, |t.em|)
  {
    hide Fits, Sections, Start, AllAdded, Offset, Flat, NoZero, StoredRows;
    var t := TablesOf(src);
    assert forall i | 0 <= i < |t.dp| :: Val(t.dp[i], 0) == src.dps[i].did;
    assert forall i | 0 <= i < |t.vars| :: Val(t.vars[i], 0) == src.vars[i].did && Val(t.vars[i], 1) == src.vars[i].len;
    assert forall i | 0 <= i < |t.em| :: Val(t.em[i], 0) == src.meters[i].id;
    assert forall i, j | 0 <= i < j < |src.vars| :: Before(src.vars[i], src.vars[j]);
  }

  // ---- texts in their blob ----

  /** A string added to a blob is read back from its offset. */
  lemma TextRead(xs: seq<bytes>, i: nat, s: bytes)
    requires i < |xs| && xs[i] == s + [0] && NoZero(s)
    ensures xs[i] in AllAdded(xs).seen
    ensures var b := AllAdded(xs); CText(Drop(b.buf, At(b, s + [0]))) == s
  {
    hide AllAdded, CText;
    var b := AllAdded(xs);
    StoreHolds(xs);
    TextHeld(b.buf, b.seen[xs[i]], s);
  }

  lemma TextHeld(buf: bytes, at: nat, s: bytes)
    requires HoldsAt(buf, at, s + [0]) && NoZero(s)
    ensures CText(Drop(buf, at)) == s
  {
    var rest := buf[at + |s| + 1..];
    assert buf[at..] == buf[at..at + |s| + 1] + rest;
    assert s + [0] + rest == s + ([0] + rest);
    CTextOf(s, [0] + rest);
  }

  /** o3e_db_name and o3e_db_name_de give the texts that went in. */
  lemma NamesAgree(src: Source, i: nat)
    requires Dictionary(src) && Fits(src) && i < |src.dps|
    ensures var t := TablesOf(src);
      && CText(Drop(t.names, Nat(Val(t.dp[i], 4)))) == src.dps[i].name
      && CText(Drop(t.german, Nat(Val(t.deOff[i], 0)))) == src.dps[i].german
  {
    hide Fits, Sections, Start, AllAdded, CText, Drop, At, Concat;
    TextRead(Names(src.dps), i, src.dps[i].name);
    TextRead(Germans(src.dps), i, src.dps[i].german);
  }

  // ---- enum lists ----

  lemma EnumRowIs(ls: seq<EnumList>, i: nat)
    requires i < |ls|
    ensures StoredRows(EIDX, EnumRows(ls))[i] == [Txt(Field(ls[i].name, 40)), Num(|Flat(ls[..i])|), Num(|ls[i].items|)]
  {
  }

  /** Entry k of list i is entry at + k of the table. */
  lemma EntryIs(ls: seq<EnumList>, i: nat, k: nat)
    requires i < |ls| && k < |ls[i].items|
    ensures var at := |Flat(ls[..i])|; at + k < |Flat(ls)| && Flat(ls)[at + k] == ls[i].items[k]
  {
    FlatSlice(ls, i);
    var at := |Flat(ls[..i])|;
    assert Flat(ls)[at..at + |ls[i].items|][k] == Flat(ls)[at + k];
  }

  lemma TablesConsistent(src: Source)
    requires Dictionary(src) && Fits(src)
    ensures var t := TablesOf(src);
      Consistent(t) && forall i | 0 <= i < |t.eidx| :: Rising(t.eent, Nat(Val(t.eidx[i], 1)), Nat(Val(t.eidx[i], 2)))
  {
    hide Fits, Sections, Start, AllAdded, Flat, StoredRows, At;
    var t := TablesOf(src);
    forall i | 0 <= i < |t.eidx|
      ensures Nat(Val(t.eidx[i], 1)) + Nat(Val(t.eidx[i], 2)) <= |t.eent|
      ensures Rising(t.eent, Nat(Val(t.eidx[i], 1)), Nat(Val(t.eidx[i], 2)))
    {
      EnumRowIs(src.enums, i);
      FlatSlice(src.enums, i);
      var at, items := |Flat(src.enums[..i])|, src.enums[i].items;
      forall j, k | at <= j < k < at + |items|
        ensures Val(t.eent[j], 0) < Val(t.eent[k], 0)
      {
        EntryIs(src.enums, i, j - at);
        EntryIs(src.enums, i, k - at);
      }
    }
  }

  lemma ItemFound(src: Source, i: nat, value: int)
    requires Dictionary(src) && Fits(src) && i < |src.enums|
    ensures var t := TablesOf(src); var at := |Flat(src.enums[..i])|; var n := |src.enums[i].items|;
      && at + n <= |t.eent|
      && var x := KeyIn(t.eent, value, at, n); var r := FindItem(src.enums[i].items, value);
         if x.None? then r.None?
         else r.Some? && CText(Drop(t.estr, Nat(Val(t.eent[x.value], 1)))) == r.value.text
  {
    hide Fits, Sections, Start, AllAdded, Flat, StoredRows, At, CText, Drop;
    var t, at, items := TablesOf(src), |Flat(src.enums[..i])|, src.enums[i].items;
    FlatSlice(src.enums, i);
    forall e | at <= e < at + |items|
      ensures Val(t.eent[e], 0) == items[e - at].value
    {
      EntryIs(src.enums, i, e - at);
    }
    var x := KeyIn(t.eent, value, at, |items|);
    if x.Some? {
      var k := x.value - at;
      forall j | 0 <= j < k
        ensures items[j].value != value
      {
        assert Val(t.eent[at + j], 0) != value;
      }
      FirstItem(items, value, k);
      EntryIs(src.enums, i, k);
      TextRead(Texts(Flat(src.enums)), at + k, items[k].text);
    } else {
      forall j | 0 <= j < |items|
        ensures items[j].value != value
      {
        assert Val(t.eent[at + j], 0) != value;
      }
      NoItem(items, value);
    }
  }

  function ListNames(ls: seq<EnumList>): seq<bytes> {
    seq(|ls|, i requires 0 <= i < |ls| => ls[i].name)
  }

  lemma ListFound(src: Source, list: bytes)
    requires Dictionary(src) && Fits(src) && NoZero(list)
    ensures var r := FindNamed(TablesOf(src).eidx, list, ENUM_NAME_MAX, 0);
      FindList(src.enums, list) == if r.Some? then Some(src.enums[r.value]) else None
    ensures var r := FindNamed(TablesOf(src).eidx, list, ENUM_NAME_MAX, 0);
      r.Some? ==> r.value < |src.enums|
  {
    hide Sections, Start, AllAdded, Flat, StoredRows, FindNamed, RowsFit;
    var rows, names := TablesOf(src).eidx, ListNames(src.enums);
    forall i | 0 <= i < |rows|
      ensures |rows[i]| > 0 && rows[i][0] == Txt(Field(names[i], 40)) && NoZero(names[i]) && |names[i]| < 40
    {
      EnumRowIs(src.enums, i);
    }
    FindNamedIs(rows, names, list, 40, 0);
    var r := NameAt(names, list, 0);
    if r.Some? {
      forall j | 0 <= j < r.value
        ensures src.enums[j].name != list
      {
        assert names[j] != list;
      }
      FirstList(src.enums, list, r.value);
    } else {
      forall j | 0 <= j < |names|
        ensures src.enums[j].name != list
      {
        assert names[j] != list;
      }
      NoList(src.enums, list);
    }
  }

  /** o3e_db_enum gives exactly the text the source maps the value to. */
  lemma EnumAgrees(src: Source, list: bytes, value: int)
    requires Dictionary(src) && Fits(src) && NoZero(list)
    ensures Consistent(TablesOf(src)) && EnumOf(TablesOf(src), list, value) == TextFor(src, list, value)
  {
    hide Fits, Sections, Start, AllAdded, Flat, StoredRows, FindNamed, CText, Drop, Dictionary;
    TablesConsistent(src);
    ListFound(src, list);
    var r := FindNamed(TablesOf(src).eidx, list, ENUM_NAME_MAX, 0);
    if r.Some? {
      EnumRowIs(src.enums, r.value);
      ItemFound(src, r.value, value);
    }
  }

  function FindMeter(ms: seq<Meter>, id: int): Option<Meter> {
    if ms == [] then None else if ms[0].id == id then Some(ms[0]) else FindMeter(ms[1..], id)
  }

  lemma {:induction false} FirstMeter(ms: seq<Meter>, id: int, i: nat)
    requires i <= |ms| && (forall j | 0 <= j < i :: ms[j].id != id) && (i < |ms| ==> ms[i].id == id)
    ensures FindMeter(ms, id) == if i < |ms| then Some(ms[i]) else None
  {
    if i > 0 {
      FirstMeter(ms[1..], id, i - 1);
    }
  }

  /** The same for the meters' broadcast frames. */
  lemma MeterAgrees(src: Source, id: int)
    requires Build(src).Some?
    ensures Fits(src)
    ensures var m := FindMeter(src.meters, id);
      MeterJsonOf(Build(src).value, TablesOf(src), id) == if m.Some? then Some(m.value.json) else None
  {
    hide Fits, Sections, Start, Build, VarRows, JsonAt, TablesOf, FindMeter, Concat, VarJsons;
    BuiltIs(src);
    TableFields(src);
    SectionsAre(src);
    var vs := AsVariants(src.meters);
    forall i | 0 <= i < |vs|
      ensures Val(VarRows(vs)[i], 0) == src.meters[i].id
    {
      VarCells(vs, i);
    }
    var m := KeyIn(VarRows(vs), id, 0, |vs|);
    FirstMeter(src.meters, id, if m.Some? then m.value else |vs|);
    if m.Some? {
      VarJson(src, 11, TablesOf(src).emJson, vs, m.value);
    }
  }

  /** The whole way: build, open, look up. */
  method Answer(src: Source, did: nat, len: nat, list: bytes, value: int) returns (json: Option<bytes>, text: Option<bytes>, ok: bool)
    requires Dictionary(src) && NoZero(list)
    ensures ok <==> Build(src).Some?
    ensures ok ==> json == JsonFor(src, did, len) && text == TextFor(src, list, value)
  {
    var image := DbPacker.Generate(src);
    var db := new Database();
    ok := db.OpenFile(image);
    json, text := None, None;
    if ok {
      OpenBuilt(src);
      TablesSorted(src);
      TablesConsistent(src);
      json := db.Json(did, len);
      text := db.EnumText(list, value);
      JsonAgrees(src, did, len);
      EnumAgrees(src, list, value);
    } else {
      if Build(src).Some? {
        OpenBuilt(src);
      }
    }
  }
}
