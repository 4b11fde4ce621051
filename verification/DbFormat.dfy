/** The database file byte for byte, as tools/gen_dpdb.py packs it, and what the
    dictionaries it is made of say. */
module DbFormat {
  import opened Bytes
  import opened Wrappers
  import opened Container
  import opened DbImage
  import opened DbReader
  import opened DbRefine

  // ---- rows ----

  lemma RowFront(l: Layout, r: Row)
    requires RowFits(l, r) && l != []
    ensures CellFits(l[0], r[0]) && RowFits(l[1..], r[1..]) && PackRow(l, r) == PackCell(l[0], r[0]) + PackRow(l[1..], r[1..])
  {
  }

  lemma RowEnd(l: Layout, r: Row)
    requires RowFits(l, r) && l == []
    ensures PackRow(l, r) == []
  {
  }

  lemma TwoCells(l: Layout, r: Row)
    requires |l| == 2 && RowFits(l, r)
    ensures PackRow(l, r) == PackCell(l[0], r[0]) + PackCell(l[1], r[1])
  {
    hide PackRow, PackCell;
    RowFront(l, r);
    RowFront(l[1..], r[1..]);
    RowEnd(l[1..][1..], r[1..][1..]);
  }

  lemma FourCells(l: Layout, r: Row)
    requires |l| == 4 && RowFits(l, r)
    ensures PackRow(l, r) == PackCell(l[0], r[0]) + PackCell(l[1], r[1]) + PackCell(l[2], r[2]) + PackCell(l[3], r[3])
  {
    hide PackRow, PackCell;
    RowFront(l, r);
    RowFront(l[1..], r[1..]);
    assert l[1..][1..] == l[2..] && r[1..][1..] == r[2..];
    TwoCells(l[2..], r[2..]);
  }

  /** "<HHIII": identifier, length, where the record starts and how long it is, and
      where the name starts. */
  lemma DpEntry(dps: seq<Dp>, i: nat)
    requires i < |dps| && RowFits(DP, DpRow(dps, i))
    ensures var name := At(AllAdded(Names(dps)), dps[i].name + [0]);
      PackRow(DP, DpRow(dps, i)) == LE(dps[i].did, 2) + LE(dps[i].len, 2) + LE(|Concat(Jsons(dps)[..i])|, 4) + LE(|dps[i].json|, 4) + LE(name, 4)
  {
    hide PackRow, LE, AllAdded, At;
    var r := DpRow(dps, i);
    RowFront(DP, r);
    FourCells(DP[1..], r[1..]);
  }

  /** "<HHII": identifier, length, start and size of the record. */
  lemma VarEntry(vs: seq<Variant>, i: nat)
    requires i < |vs| && RowFits(VAR, VarRows(vs)[i])
    ensures PackRow(VAR, VarRows(vs)[i]) == LE(vs[i].did, 2) + LE(vs[i].len, 2) + LE(|Concat(VarJsons(vs)[..i])|, 4) + LE(|vs[i].json|, 4)
  {
    hide PackRow, LE;
    FourCells(VAR, VarRows(vs)[i]);
  }

  /** "<40sII": the name in 40 bytes, the first entry and how many there are. */
  lemma EnumEntry(ls: seq<EnumList>, i: nat)
    requires i < |ls| && RowFits(EIDX, EnumRows(ls)[i])
    ensures PackRow(EIDX, EnumRows(ls)[i]) == Field(ls[i].name, 40) + LE(|Flat(ls[..i])|, 4) + LE(|ls[i].items|, 4)
  {
    hide PackRow, LE, Field;
    var r := EnumRows(ls)[i];
    RowFront(EIDX, r);
    TwoCells(EIDX[1..], r[1..]);
  }

  /** "<iI": the value, signed, and where its text starts. */
  lemma ItemEntry(items: seq<Item>, i: nat)
    requires i < |items| && RowFits(EENT, EntRows(items)[i])
    ensures PackRow(EENT, EntRows(items)[i]) == LE(items[i].value, 4) + LE(At(AllAdded(Texts(items)), items[i].text + [0]), 4)
    ensures -0x8000_0000 <= items[i].value < 0x8000_0000
  {
    hide PackRow, LE, AllAdded, At;
    var r := EntRows(items)[i];
    TwoCells(EENT, r);
    assert CellFits(EENT[0], r[0]);
    Pow256Eight();
  }

  // ---- the file ----

  /** "<8sI16sI": O3EDB, version 3, the version of the source and the number of
      sections; the header has 64 bytes. */
  lemma HeaderBytes(version: bytes, n: nat)
    requires RowFits(HEAD, HeadRow(version, n))
    ensures PackRow(HEAD, HeadRow(version, n)) == [0x4F, 0x33, 0x45, 0x44, 0x42, 0, 0, 0] + [3, 0, 0, 0] + Field(version, 16) + LE(n, 4)
    ensures |PackRow(HEAD, HeadRow(version, n))| == 32
  {
    hide PackRow, Field;
    FourCells(HEAD, HeadRow(version, n));
    Magic();
    VersionBytes();
  }

  lemma Magic()
    ensures Field(Ascii("O3EDB"), 8) == [0x4F, 0x33, 0x45, 0x44, 0x42, 0, 0, 0]
  {
    assert Ascii("O3EDB") == [0x4F, 0x33, 0x45, 0x44, 0x42];
  }

  lemma VersionBytes()
    ensures LE(VERSION, 4) == [3, 0, 0, 0]
  {
    assert LE(3, 4) == [3] + LE(0, 3);
    assert LE(0, 3) == [0] + LE(0, 2);
    assert LE(0, 2) == [0] + LE(0, 1);
    assert LE(0, 1) == [0] + LE(0, 0);
  }

  /** "<12sII": name, start and size of a section; the first starts behind the
      header and the table. */
  lemma SectionEntry(ss: seq<Section>, i: nat)
    requires i < |ss| && RowFits(SECT, SectionRows(ss)[i])
    ensures PackRow(SECT, SectionRows(ss)[i])
      == Field(Ascii(ss[i].name), 12) + LE(64 + 20 * |ss| + |Body(ss[..i])|, 4) + LE(|ss[i].data|, 4)
  {
    hide PackRow, LE, Field, Ascii, Body, SectionRows, RowFits;
    var at := 64 + 20 * |ss| + |Body(ss[..i])|;
    SectionRow(ss, i, at);
    SectionCells(ss[i].name, at, |ss[i].data|, SectionRows(ss)[i]);
  }

  lemma SectionRow(ss: seq<Section>, i: nat, at: nat)
    requires i < |ss| && at == 64 + 20 * |ss| + |Body(ss[..i])|
    ensures SectionRows(ss)[i] == [Txt(Ascii(ss[i].name)), Num(at), Num(|ss[i].data|)]
  {
    hide Ascii, Body;
  }

  lemma SectionCells(name: string, at: nat, len: nat, r: Row)
    requires r == [Txt(Ascii(name)), Num(at), Num(len)] && RowFits(SECT, r)
    ensures PackRow(SECT, r) == Field(Ascii(name), 12) + LE(at, 4) + LE(len, 4)
  {
    hide PackRow, LE, Field, Ascii;
    RowFront(SECT, r);
    TwoCells(SECT[1..], r[1..]);
  }

  /** A section's bytes are followed by zeros up to a multiple of four. */
  lemma BodyGrows(ss: seq<Section>, s: Section)
    ensures var b := Body(ss + [s]);
      && |b| % 4 == 0 && Body(ss) + s.data <= b && |b| < |Body(ss)| + |s.data| + 4
      && forall k | |Body(ss)| + |s.data| <= k < |b| :: b[k] == 0
    ensures Body([]) == []
  {
    assert (ss + [s])[..|ss|] == ss;
  }

  /** The twelve sections, by name and in order. */
  lemma SectionOrder(src: Source)
    requires Fits(src)
    ensures var ss := Sections(src);
      && |ss| == 12 && ss[0].name == "dp_idx" && ss[1].name == "dp_name" && ss[2].name == "dp_de" && ss[3].name == "dp_de_off"
      && ss[4].name == "dp_json" && ss[5].name == "var_idx" && ss[6].name == "var_json" && ss[7].name == "enum_idx"
      && ss[8].name == "enum_ent" && ss[9].name == "enum_str" && ss[10].name == "em_idx" && ss[11].name == "em_json"
  {
    hide Sections, Fits;
    SectionNames(src);
  }

  /** The file: header, 32 zeros, table of sections, sections. */
  lemma FileParts(version: bytes, ss: seq<Section>)
    requires Packed(version, ss).Some?
    ensures RowFits(HEAD, HeadRow(version, |ss|)) && RowsFit(SECT, SectionRows(ss))
    ensures Packed(version, ss).value == PackRow(HEAD, HeadRow(version, |ss|)) + Zeros(32) + PackRows(SECT, SectionRows(ss)) + Body(ss)
  {
  }

  // ---- when a database can be built ----

  /** Two bytes for identifier and length, four for every offset and size. */
  predicate DpFits(dps: seq<Dp>, i: nat)
    requires i < |dps|
  {
    && 0 <= dps[i].did < 0x1_0000 && 0 <= dps[i].len < 0x1_0000
    && |Concat(Jsons(dps)[..i])| < 0x1_0000_0000 && |dps[i].json| < 0x1_0000_0000
    && At(AllAdded(Names(dps)), dps[i].name + [0]) < 0x1_0000_0000
    && At(AllAdded(Germans(dps)), dps[i].german + [0]) < 0x1_0000_0000
  }

  predicate VarFits(vs: seq<Variant>, i: nat)
    requires i < |vs|
  {
    && 0 <= vs[i].did < 0x1_0000 && 0 <= vs[i].len < 0x1_0000
    && |Concat(VarJsons(vs)[..i])| < 0x1_0000_0000 && |vs[i].json| < 0x1_0000_0000
  }

  /** An enum's values have 32 bits and a sign. */
  predicate ItemFits(items: seq<Item>, i: nat)
    requires i < |items|
  {
    && -0x8000_0000 <= items[i].value < 0x8000_0000
    && At(AllAdded(Texts(items)), items[i].text + [0]) < 0x1_0000_0000
  }

  /** Its name has at most 39 bytes. */
  predicate ListFits(ls: seq<EnumList>, i: nat)
    requires i < |ls|
  {
    |ls[i].name| < 40 && |Flat(ls[..i])| < 0x1_0000_0000 && |ls[i].items| < 0x1_0000_0000
  }

  predicate AllFit(src: Source) {
    && (forall i | 0 <= i < |src.dps| :: DpFits(src.dps, i))
    && (forall i | 0 <= i < |src.vars| :: VarFits(src.vars, i))
    && (forall i | 0 <= i < |src.meters| :: VarFits(AsVariants(src.meters), i))
    && (forall i | 0 <= i < |Flat(src.enums)| :: ItemFits(Flat(src.enums), i))
    && (forall i | 0 <= i < |src.enums| :: ListFits(src.enums, i))
  }

  lemma DpsFit(dps: seq<Dp>)
    ensures RowsFit(DP, DpRows(dps)) && RowsFit(DEOFF, DeRows(dps)) <==> forall i | 0 <= i < |dps| :: DpFits(dps, i)
  {
    hide At, AllAdded, Concat, Jsons, Names, Germans;
    Pow256Eight();
    forall i | 0 <= i < |dps|
      ensures RowFits(DP, DpRows(dps)[i]) && RowFits(DEOFF, DeRows(dps)[i]) <==> DpFits(dps, i)
    {
      DpFit(dps, i);
    }
    if RowsFit(DP, DpRows(dps)) && RowsFit(DEOFF, DeRows(dps)) {
      forall i | 0 <= i < |dps| ensures DpFits(dps, i) {
        assert RowFits(DP, DpRows(dps)[i]);
      }
    }
  }

  lemma DpFit(dps: seq<Dp>, i: nat)
    requires i < |dps|
    ensures RowFits(DP, DpRows(dps)[i]) && RowFits(DEOFF, DeRows(dps)[i]) <==> DpFits(dps, i)
  {
    hide At, AllAdded, Concat;
    Pow256Eight();
    var r, o := DpRow(dps, i), DeRows(dps)[i];
    assert RowFits(DP, r) <==> CellFits(DP[0], r[0]) && CellFits(DP[1], r[1]) && CellFits(DP[2], r[2]) && CellFits(DP[3], r[3]) && CellFits(DP[4], r[4]);
    assert RowFits(DEOFF, o) <==> CellFits(DEOFF[0], o[0]);
  }

  lemma VarsFit(vs: seq<Variant>)
    ensures RowsFit(VAR, VarRows(vs)) <==> forall i | 0 <= i < |vs| :: VarFits(vs, i)
  {
    hide Concat;
    Pow256Eight();
    forall i | 0 <= i < |vs|
      ensures RowFits(VAR, VarRows(vs)[i]) <==> VarFits(vs, i)
    {
      var r := VarRows(vs)[i];
      assert RowFits(VAR, r) <==> CellFits(VAR[0], r[0]) && CellFits(VAR[1], r[1]) && CellFits(VAR[2], r[2]) && CellFits(VAR[3], r[3]);
    }
    if RowsFit(VAR, VarRows(vs)) {
      forall i | 0 <= i < |vs| ensures VarFits(vs, i) {
        assert RowFits(VAR, VarRows(vs)[i]);
      }
    }
  }

  lemma ItemsFit(items: seq<Item>)
    ensures RowsFit(EENT, EntRows(items)) <==> forall i | 0 <= i < |items| :: ItemFits(items, i)
  {
    hide At, AllAdded;
    Pow256Eight();
    forall i | 0 <= i < |items|
      ensures RowFits(EENT, EntRows(items)[i]) <==> ItemFits(items, i)
    {
      var r := EntRows(items)[i];
      assert RowFits(EENT, r) <==> CellFits(EENT[0], r[0]) && CellFits(EENT[1], r[1]);
    }
    if RowsFit(EENT, EntRows(items)) {
      forall i | 0 <= i < |items| ensures ItemFits(items, i) {
        assert RowFits(EENT, EntRows(items)[i]);
      }
    }
  }

  lemma ListsFit(ls: seq<EnumList>)
    ensures (forall i | 0 <= i < |ls| :: |ls[i].name| < ENUM_NAME_MAX) && RowsFit(EIDX, EnumRows(ls)) <==>
              forall i | 0 <= i < |ls| :: ListFits(ls, i)
  {
    Pow256Eight();
    forall i | 0 <= i < |ls|
      ensures |ls[i].name| < ENUM_NAME_MAX && RowFits(EIDX, EnumRows(ls)[i]) <==> ListFits(ls, i)
    {
      var r := EnumRows(ls)[i];
      assert RowFits(EIDX, r) <==> CellFits(EIDX[0], r[0]) && CellFits(EIDX[1], r[1]) && CellFits(EIDX[2], r[2]);
    }
    if RowsFit(EIDX, EnumRows(ls)) && forall i | 0 <= i < |ls| :: |ls[i].name| < ENUM_NAME_MAX {
      forall i | 0 <= i < |ls| ensures ListFits(ls, i) {
        assert RowFits(EIDX, EnumRows(ls)[i]);
      }
    }
  }

  /** A section's place and size have 32 bits. */
  predicate Placeable(ss: seq<Section>, i: nat)
    requires i < |ss|
  {
    64 + 20 * |ss| + |Body(ss[..i])| < 0x1_0000_0000 && |ss[i].data| < 0x1_0000_0000
  }

  lemma PackedExactly(version: bytes, ss: seq<Section>)
    requires |ss| < 0x1_0000_0000
    ensures Packed(version, ss).Some? <==> forall i | 0 <= i < |ss| :: Placeable(ss, i)
  {
    hide Body, PackRow, PackRows, Ascii;
    Pow256Eight();
    var h := HeadRow(version, |ss|);
    assert CellFits(HEAD[0], h[0]) && CellFits(HEAD[1], h[1]) && CellFits(HEAD[2], h[2]) && CellFits(HEAD[3], h[3]);
    forall i | 0 <= i < |ss|
      ensures RowFits(SECT, SectionRows(ss)[i]) <==> Placeable(ss, i)
    {
      var r := SectionRows(ss)[i];
      assert RowFits(SECT, r) <==> CellFits(SECT[0], r[0]) && CellFits(SECT[1], r[1]) && CellFits(SECT[2], r[2]);
    }
    if RowsFit(SECT, SectionRows(ss)) {
      forall i | 0 <= i < |ss| ensures Placeable(ss, i) {
        assert RowFits(SECT, SectionRows(ss)[i]);
      }
    }
  }

  /** A database is built exactly when every entry fits its record and every section
      its place in the file. */
  lemma BuildsExactly(src: Source)
    ensures AllFit(src) <==> Fits(src)
    ensures Build(src).Some? <==> AllFit(src) && forall i | 0 <= i < 12 :: Placeable(Sections(src), i)
  {
    hide DpFits, VarFits, ItemFits, ListFits, RowsFit, Placeable, Packed, AllAdded, Concat, PackRows;
    DpsFit(src.dps);
    VarsFit(src.vars);
    VarsFit(AsVariants(src.meters));
    ItemsFit(Flat(src.enums));
    ListsFit(src.enums);
    if Fits(src) {
      PackedExactly(src.version, Sections(src));
    }
  }

  // ---- what the reader takes for one ----

  lemma HeaderParsed(h: bytes)
    requires |h| == 32
    ensures ParseRow(HEAD, h) == [Txt(h[..8]), Num(FromLE(h[8..12])), Txt(h[12..28]), Num(FromLE(h[28..32]))]
  {
    hide FromLE;
    var a, b, c := h[8..], h[12..], h[28..];
    assert a[..4] == h[8..12] && a[4..] == b && b[..16] == h[12..28] && b[16..] == c && c[..4] == h[28..32];
    assert ParseRow(HEAD[3..], c) == [Num(FromLE(h[28..32]))];
    assert HEAD[2..][1..] == HEAD[3..] && ParseRow(HEAD[2..], b) == [Txt(h[12..28])] + ParseRow(HEAD[3..], c);
    assert HEAD[1..][1..] == HEAD[2..] && ParseRow(HEAD[1..], a) == [Num(FromLE(h[8..12]))] + ParseRow(HEAD[2..], b);
  }

  /** A file is taken exactly when it has a header beginning with O3EDB, container
      version 3, one to 32 sections, and room for the table of that many. */
  lemma HeaderOpens(image: bytes)
    ensures OpenTable(image).Some? <==>
      && |image| >= 64 && image[..5] == [0x4F, 0x33, 0x45, 0x44, 0x42] && FromLE(image[8..12]) == 3
      && 1 <= FromLE(image[28..32]) <= 32 && 64 + 20 * FromLE(image[28..32]) <= |image|
    ensures OpenTable(image).Some? ==> OpenTable(image).value.0 == CText(image[12..28])
  {
    hide FromLE, ParseRow, ParseRows, CText;
    assert Ascii("O3EDB") == [0x4F, 0x33, 0x45, 0x44, 0x42];
    if |image| >= 64 {
      var h := image[..32];
      HeaderParsed(h);
      assert h[8..12] == image[8..12] && h[28..32] == image[28..32] && h[12..28] == image[12..28];
      assert image[0..64][..32] == h && image[0..64][..5] == image[..5];
    }
  }

  // ---- the dictionaries ----

  /** The variant of that length if there is one and the length is not 0, else the
      general record, else nothing. */
  lemma JsonForMeans(src: Source, did: int, len: int, i: nat)
    requires Dictionary(src)
    ensures i < |src.vars| && src.vars[i].did == did && src.vars[i].len == len && len != 0 ==>
              JsonFor(src, did, len) == Some(src.vars[i].json)
    ensures i < |src.dps| && src.dps[i].did == did && (len == 0 || forall v | v in src.vars :: v.did != did || v.len != len) ==>
              JsonFor(src, did, len) == Some(src.dps[i].json)
    ensures (forall d | d in src.dps :: d.did != did) && (len == 0 || forall v | v in src.vars :: v.did != did || v.len != len) ==>
              JsonFor(src, did, len) == None
  {
    if i < |src.vars| && src.vars[i].did == did && src.vars[i].len == len {
      FirstVar(src.vars, did, len, i);
    }
    if i < |src.dps| && src.dps[i].did == did {
      FirstDp(src.dps, did, i);
    }
    if forall v | v in src.vars :: v.did != did || v.len != len {
      NoVar(src.vars, did, len);
    }
    if forall d | d in src.dps :: d.did != did {
      NoDp(src.dps, did);
    }
  }

  /** The text that the list of that name has for the value. */
  lemma TextForMeans(src: Source, list: bytes, value: int, i: nat, k: nat)
    requires Dictionary(src)
    ensures i < |src.enums| && src.enums[i].name == list && k < |src.enums[i].items| && src.enums[i].items[k].value == value ==>
              TextFor(src, list, value) == Some(src.enums[i].items[k].text)
    ensures i < |src.enums| && src.enums[i].name == list && (forall x | x in src.enums[i].items :: x.value != value) ==>
              TextFor(src, list, value) == None
    ensures (forall l | l in src.enums :: l.name != list) ==> TextFor(src, list, value) == None
  {
    if i < |src.enums| && src.enums[i].name == list {
      FirstList(src.enums, list, i);
      if k < |src.enums[i].items| && src.enums[i].items[k].value == value {
        FirstItem(src.enums[i].items, value, k);
      }
      if forall x | x in src.enums[i].items :: x.value != value {
        NoItem(src.enums[i].items, value);
      }
    }
    if forall l | l in src.enums :: l.name != list {
      NoList(src.enums, list);
    }
  }

  /** The meter's record. */
  lemma MeterMeans(src: Source, id: int, i: nat)
    requires Dictionary(src)
    ensures i < |src.meters| && src.meters[i].id == id ==> FindMeter(src.meters, id) == Some(src.meters[i])
    ensures FindMeter(src.meters, id).Some? ==> FindMeter(src.meters, id).value in src.meters && FindMeter(src.meters, id).value.id == id
  {
    if i < |src.meters| && src.meters[i].id == id {
      FirstMeter(src.meters, id, i);
    }
    MeterThere(src.meters, id);
  }

  lemma {:induction false} MeterThere(ms: seq<Meter>, id: int)
    ensures var m := FindMeter(ms, id); m.Some? ==> m.value in ms && m.value.id == id
  {
    if ms != [] && ms[0].id != id {
      MeterThere(ms[1..], id);
    }
  }
}
