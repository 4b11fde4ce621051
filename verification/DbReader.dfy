/** The database as main/o3e_db.c opens it, and the agreement of its lookups
    with the dictionaries the file was built from. */
module DbReader {
  import opened Bytes
  import opened Wrappers
  import opened Container
  import opened DbImage

  // ---- opening ----

  function ReadAt(image: bytes, off: nat, n: nat): Option<bytes> {
    if n == 0 then Some([]) else if off + n <= |image| then Some(image[off..off + n]) else None
  }

  /** strncmp(field, s, n) == 0 */
  predicate SameText(field: bytes, s: bytes, n: nat) {
    CText(Take(field, n)) == CText(Take(s, n))
  }

  /** The first row whose name field holds that string. */
  function FindNamed(rows: seq<Row>, s: bytes, n: nat, i: nat): (r: Option<nat>)
    requires i <= |rows|
    ensures r.Some? ==> i <= r.value < |rows|
    decreases |rows| - i
  {
    if i == |rows| then None
    else if |rows[i]| > 0 && rows[i][0].Txt? && SameText(rows[i][0].s, s, n) then Some(i)
    else FindNamed(rows, s, n, i + 1)
  }

  /** Offset and length of a section. */
  datatype Span = Span(off: nat, len: nat)

  function Nat(v: int): nat {
    if v < 0 then 0 else v
  }

  function SpanOf(tab: seq<Row>, name: string): Option<Span> {
    var i := FindNamed(tab, Ascii(name), 12, 0);
    if i.None? then None else Some(Span(Nat(Val(tab[i.value], 1)), Nat(Val(tab[i.value], 2))))
  }

  function Load(image: bytes, tab: seq<Row>, name: string): Option<bytes> {
    var s := SpanOf(tab, name);
    if s.None? then None else ReadAt(image, s.value.off, s.value.len)
  }

  datatype Tables = Tables(version: bytes, dp: seq<Row>, names: bytes, german: bytes, deOff: seq<Row>,
                           vars: seq<Row>, em: seq<Row>, eidx: seq<Row>, eent: seq<Row>, estr: bytes,
                           dpJson: nat, varJson: nat, emJson: nat)

  /** The section table, if the header is one this reader understands. */
  function OpenTable(image: bytes): Option<(bytes, seq<Row>)> {
    var hdr := ReadAt(image, 0, HEADER_SIZE);
    if hdr.None? || hdr.value[..5] != Ascii("O3EDB") then None
    else
      var head := ParseRow(HEAD, hdr.value[..32]);
      var n := Val(head, 3);
      if Val(head, 1) != VERSION || n <= 0 || n > 32 || head[2].Num? then None
      else
        var tab := ReadAt(image, HEADER_SIZE, 20 * n);
        if tab.None? then None else Some((CText(head[2].s), ParseRows(SECT, tab.value)))
  }

  function Open(image: bytes): Option<Tables> {
    var t := OpenTable(image);
    if t.None? then None
    else
      var (version, tab) := t.value;
      var dp, names, german, deOff := Load(image, tab, "dp_idx"), Load(image, tab, "dp_name"), Load(image, tab, "dp_de"), Load(image, tab, "dp_de_off");
      var vars, em := Load(image, tab, "var_idx"), Load(image, tab, "em_idx");
      var eidx, eent, estr := Load(image, tab, "enum_idx"), Load(image, tab, "enum_ent"), Load(image, tab, "enum_str");
      var dj, vj, ej := SpanOf(tab, "dp_json"), SpanOf(tab, "var_json"), SpanOf(tab, "em_json");
      if dp.None? || names.None? || german.None? || deOff.None? || vars.None? || em.None? || eidx.None?
        || eent.None? || estr.None? || dj.None? || vj.None? || ej.None? then None
      else
        Some(Tables(version, ParseRows(DP, dp.value), names.value, german.value, ParseRows(DEOFF, deOff.value),
                    ParseRows(VAR, vars.value), ParseRows(VAR, em.value), ParseRows(EIDX, eidx.value),
                    ParseRows(EENT, eent.value), estr.value, dj.value.off, vj.value.off, ej.value.off))
  }

  // ---- the packed file, section by section ----

  lemma {:induction false} BodyHolds(ss: seq<Section>, i: nat)
    requires i < |ss|
    ensures var at := |Body(ss[..i])|;
      at + |ss[i].data| <= |Body(ss)| && Body(ss)[at..at + |ss[i].data|] == ss[i].data
  {
    var rest, at := ss[..|ss| - 1], |Body(ss[..i])|;
    if i < |ss| - 1 {
      BodyHolds(rest, i);
      assert rest[..i] == ss[..i];
      assert Body(rest) <= Body(ss);
      assert Body(ss)[at..at + |ss[i].data|] == Body(rest)[at..at + |ss[i].data|];
    } else {
      assert ss[..i] == rest;
    }
  }

  lemma {:induction false} TableSize(rs: seq<Row>)
    requires RowsFit(SECT, rs)
    ensures |PackRows(SECT, rs)| == 20 * |rs|
  {
    if rs != [] {
      HeadSize();
      TableSize(rs[1..]);
    }
  }

  lemma HeadSize()
    ensures Size(HEAD) == 32 && Size(SECT) == 20
  {
  }

  lemma ImageParts(version: bytes, ss: seq<Section>)
    requires Packed(version, ss).Some?
    ensures var image := Packed(version, ss).value; var n := |ss|;
      && |image| == HEADER_SIZE + 20 * n + |Body(ss)|
      && image[..32] == PackRow(HEAD, HeadRow(version, n))
      && image[HEADER_SIZE..HEADER_SIZE + 20 * n] == PackRows(SECT, SectionRows(ss))
      && image[HEADER_SIZE + 20 * n..] == Body(ss)
  {
    hide RowFits, RowsFit, PackRow, PackRows, Body, HeadRow, SectionRows;
    HeadSize();
    TableSize(SectionRows(ss));
  }

  /** Every section is where the table says, on a multiple of four. */
  lemma SectionPlaced(version: bytes, ss: seq<Section>, i: nat)
    requires Packed(version, ss).Some? && i < |ss|
    ensures Start(ss, i) % 4 == 0
    ensures ReadAt(Packed(version, ss).value, Start(ss, i), |ss[i].data|) == Some(ss[i].data)
  {
    hide Body, Packed, ReadAt;
    BodyAt(version, ss);
    BodyHolds(ss, i);
    var image, at, base := Packed(version, ss).value, |Body(ss[..i])|, HEADER_SIZE + 20 * |ss|;
    SliceOfRest(image, base, at, ss[i].data);
  }

  lemma BodyAt(version: bytes, ss: seq<Section>)
    requires Packed(version, ss).Some?
    ensures var image, base := Packed(version, ss).value, HEADER_SIZE + 20 * |ss|;
      base <= |image| && image[base..] == Body(ss)
  {
    hide Body, Packed;
    ImageParts(version, ss);
  }

  lemma SliceOfRest(image: bytes, base: nat, at: nat, x: bytes)
    requires base <= |image| && at + |x| <= |image[base..]| && image[base..][at..at + |x|] == x
    ensures ReadAt(image, base + at, |x|) == Some(x)
  {
    assert image[base + at..base + at + |x|] == image[base..][at..at + |x|];
  }

  lemma FieldText(s: bytes, w: nat)
    requires NoZero(s) && |s| < w
    ensures CText(Field(s, w)) == s
  {
    CTextOf(s, Zeros(w - |s|));
  }

  lemma TextIs(s: bytes)
    requires NoZero(s)
    ensures CText(s) == s
  {
    CTextOf(s, []);
    assert s + [] == s;
  }

  /** A packed name field matches its own name and no other. */
  lemma SameTextIs(name: bytes, s: bytes, w: nat)
    requires NoZero(name) && NoZero(s) && |name| < w
    ensures SameText(Field(name, w), s, w) <==> name == s
  {
    FieldText(name, w);
    assert Take(Field(name, w), w) == Field(name, w);
    TextIs(Take(s, w));
  }

  lemma OpenTablePacked(version: bytes, ss: seq<Section>)
    requires Packed(version, ss).Some? && 0 < |ss| <= 32
    ensures OpenTable(Packed(version, ss).value)
      == Some((CText(Field(version, 16)), StoredRows(SECT, SectionRows(ss))))
  {
    hide RowsFit, PackRow, PackRows, Body, SectionRows, Packed, ParseRow, ParseRows;
    var image, n, head := Packed(version, ss).value, |ss|, HeadRow(version, |ss|);
    PackedFits(version, ss);
    ImageParts(version, ss);
    HeadSize();
    RowRoundTrip(HEAD, head);
    TableRoundTrip(SECT, SectionRows(ss));
    assert image[..HEADER_SIZE][..32] == image[..32];
    HeadStarts(version, n);
    assert image[..HEADER_SIZE][..5] == image[..32][..5];
    StoredHead(version, n);
  }

  lemma StoredHead(version: bytes, n: nat)
    requires RowFits(HEAD, HeadRow(version, n))
    ensures StoredRow(HEAD, HeadRow(version, n)) == [Txt(Field(Ascii("O3EDB"), 8)), Num(VERSION), Txt(Field(version, 16)), Num(n)]
  {
  }

  lemma PackedFits(version: bytes, ss: seq<Section>)
    requires Packed(version, ss).Some?
    ensures RowFits(HEAD, HeadRow(version, |ss|)) && RowsFit(SECT, SectionRows(ss))
  {
  }

  lemma HeadStarts(version: bytes, n: nat)
    requires RowFits(HEAD, HeadRow(version, n))
    ensures PackRow(HEAD, HeadRow(version, n))[..5] == Ascii("O3EDB")
  {
    var r := HeadRow(version, n);
    assert PackRow(HEAD, r) == PackCell(HEAD[0], r[0]) + PackRow(HEAD[1..], r[1..]);
    assert PackRow(HEAD, r)[..8] == Field(Ascii("O3EDB"), 8);
    assert Field(Ascii("O3EDB"), 8)[..5] == Ascii("O3EDB");
    assert PackRow(HEAD, r)[..8][..5] == PackRow(HEAD, r)[..5];
  }

  function NameAt(names: seq<bytes>, s: bytes, i: nat): (r: Option<nat>)
    requires i <= |names|
    ensures r.Some? ==> i <= r.value < |names| && names[r.value] == s && forall j | i <= j < r.value :: names[j] != s
    ensures r.None? ==> forall j | i <= j < |names| :: names[j] != s
    decreases |names| - i
  {
    if i == |names| then None else if names[i] == s then Some(i) else NameAt(names, s, i + 1)
  }

  /** Rows whose first field is the packed name. */
  predicate NamedRows(rows: seq<Row>, names: seq<bytes>, w: nat) {
    && |rows| == |names|
    && forall i | 0 <= i < |rows| :: |rows[i]| > 0 && rows[i][0] == Txt(Field(names[i], w)) && NoZero(names[i]) && |names[i]| < w
  }

  lemma {:induction false} FindNamedIs(rows: seq<Row>, names: seq<bytes>, s: bytes, w: nat, i: nat)
    requires NamedRows(rows, names, w) && NoZero(s) && i <= |rows|
    ensures FindNamed(rows, s, w, i) == NameAt(names, s, i)
    decreases |rows| - i
  {
    hide SameText;
    if i < |rows| {
      SameTextIs(names[i], s, w);
      FindNamedIs(rows, names, s, w, i + 1);
    }
  }

  function NamesOf(ss: seq<Section>): seq<bytes> {
    seq(|ss|, i requires 0 <= i < |ss| => Ascii(ss[i].name))
  }

  predicate WellNamed(ss: seq<Section>) {
    && (forall i | 0 <= i < |ss| :: NoZero(Ascii(ss[i].name)) && |ss[i].name| < 12)
    && (forall i, j | 0 <= i < j < |ss| :: Ascii(ss[i].name) != Ascii(ss[j].name))
  }

  lemma SectionFound(ss: seq<Section>, i: nat)
    requires WellNamed(ss) && i < |ss|
    ensures SpanOf(StoredRows(SECT, SectionRows(ss)), ss[i].name) == Some(Span(Start(ss, i), |ss[i].data|))
  {
    hide FindNamed, Ascii, Start, Body;
    var tab := StoredRows(SECT, SectionRows(ss));
    FindNamedIs(tab, NamesOf(ss), Ascii(ss[i].name), 12, 0);
    var names := NamesOf(ss);
    var r := NameAt(names, names[i], 0);
    assert r.Some?;
    assert r.value == i;
  }

  lemma SectionLoaded(version: bytes, ss: seq<Section>, i: nat)
    requires WellNamed(ss) && i < |ss| && Packed(version, ss).Some?
    ensures Load(Packed(version, ss).value, StoredRows(SECT, SectionRows(ss)), ss[i].name) == Some(ss[i].data)
  {
    hide ReadAt, SpanOf, SectionRows, Packed, WellNamed;
    SectionFound(ss, i);
    SectionPlaced(version, ss, i);
  }

  const NAMES: seq<string> := ["dp_idx", "dp_name", "dp_de", "dp_de_off", "dp_json", "var_idx", "var_json",
                               "enum_idx", "enum_ent", "enum_str", "em_idx", "em_json"]

  predicate Differ(a: string, b: string) {
    |a| != |b| || (|a| > 5 && (a[0] != b[0] || a[3] != b[3] || a[5] != b[5]))
  }

  predicate Plain(s: string) {
    0 < |s| < 12 && forall k | 0 <= k < |s| :: 0 < s[k] as int < 128
  }

  lemma NamesDiffer()
    ensures |NAMES| == 12
    ensures forall i, j | 0 <= i < j < 12 :: Differ(NAMES[i], NAMES[j])
    ensures forall i | 0 <= i < 12 :: Plain(NAMES[i])
  {
  }

  lemma AsciiDiffer(a: string, b: string)
    requires Plain(a) && Plain(b) && Differ(a, b)
    ensures Ascii(a) != Ascii(b)
  {
    if |a| == |b| {
      assert Ascii(a)[0] != Ascii(b)[0] || Ascii(a)[3] != Ascii(b)[3] || Ascii(a)[5] != Ascii(b)[5];
    }
  }

  lemma SectionNames(src: Source)
    requires Fits(src)
    ensures |Sections(src)| == 12 && forall i | 0 <= i < 12 :: Sections(src)[i].name == NAMES[i]
  {
    hide Fits, PackRows, AllAdded, Concat;
    var ss := Sections(src);
    assert ss[0].name == NAMES[0] && ss[1].name == NAMES[1] && ss[2].name == NAMES[2] && ss[3].name == NAMES[3];
    assert ss[4].name == NAMES[4] && ss[5].name == NAMES[5] && ss[6].name == NAMES[6] && ss[7].name == NAMES[7];
    assert ss[8].name == NAMES[8] && ss[9].name == NAMES[9] && ss[10].name == NAMES[10] && ss[11].name == NAMES[11];
    forall i | 0 <= i < 12
      ensures ss[i].name == NAMES[i]
    {
      assert i == 0 || i == 1 || i == 2 || i == 3 || i == 4 || i == 5 || i == 6 || i == 7 || i == 8 || i == 9 || i == 10 || i == 11;
    }
  }

  lemma SectionsNamed(src: Source)
    requires Fits(src)
    ensures WellNamed(Sections(src))
  {
    hide Fits, Sections, Ascii, Plain, Differ, NAMES, NoZero;
    SectionNames(src);
    NamesDiffer();
    var ss := Sections(src);
    forall i | 0 <= i < |ss|
      ensures NoZero(Ascii(ss[i].name)) && |ss[i].name| < 12
    {
      PlainAscii(NAMES[i]);
    }
    forall i, j | 0 <= i < j < |ss|
      ensures Ascii(ss[i].name) != Ascii(ss[j].name)
    {
      AsciiDiffer(NAMES[i], NAMES[j]);
    }
  }

  lemma PlainAscii(s: string)
    requires Plain(s)
    ensures NoZero(Ascii(s)) && |s| < 12
  {
  }

  // ---- the tables come back ----

  function TablesOf(src: Source): Tables
    requires Fits(src)
  {
    var ss := Sections(src);
    Tables(CText(Field(src.version, 16)),
           DpRows(src.dps), AllAdded(Names(src.dps)).buf, AllAdded(Germans(src.dps)).buf, DeRows(src.dps),
           VarRows(src.vars), VarRows(AsVariants(src.meters)), StoredRows(EIDX, EnumRows(src.enums)),
           EntRows(Flat(src.enums)), AllAdded(Texts(Flat(src.enums))).buf,
           Start(ss, 4), Start(ss, 6), Start(ss, 11))
  }

  /** Layouts without text come back as they were. */
  lemma NumbersBack(l: Layout, rs: seq<Row>)
    requires RowsFit(l, rs) && Size(l) > 0 && forall k | 0 <= k < |l| :: !l[k].C?
    ensures ParseRows(l, PackRows(l, rs)) == rs
  {
    TableRoundTrip(l, rs);
    forall i | 0 <= i < |rs|
      ensures StoredRow(l, rs[i]) == rs[i]
    {
    }
    assert StoredRows(l, rs) == rs;
  }

  lemma LayoutSizes()
    ensures Size(DP) == 16 && Size(VAR) == 12 && Size(DEOFF) == 4 && Size(EENT) == 8 && Size(EIDX) == 48
  {
  }

  /** Opening the packed file gives the tables it was packed from. */
  lemma OpenBuilt(src: Source)
    requires Build(src).Some?
    ensures Fits(src) && Open(Build(src).value) == Some(TablesOf(src))
  {
    hide Fits, Sections, PackRows, ParseRows, Packed, Load, SpanOf, OpenTable, RowsFit, Start, StoredRows, NAMES, SectionRows, AllAdded, Concat;
    BuiltIs(src);
    var image, ss := Build(src).value, Sections(src);
    SectionNames(src);
    OpenTablePacked(src.version, ss);
    SectionsAre(src);
    var tab := StoredRows(SECT, SectionRows(ss));
    SectionsFound(src, image, tab);
    FitsIs(src);
    LayoutSizes();
    NumbersBack(DP, DpRows(src.dps));
    NumbersBack(DEOFF, DeRows(src.dps));
    NumbersBack(VAR, VarRows(src.vars));
    NumbersBack(VAR, VarRows(AsVariants(src.meters)));
    NumbersBack(EENT, EntRows(Flat(src.enums)));
    TableRoundTrip(EIDX, EnumRows(src.enums));
  }

  lemma SectionsFound(src: Source, image: bytes, tab: seq<Row>)
    requires Fits(src) && Packed(src.version, Sections(src)) == Some(image) && tab == StoredRows(SECT, SectionRows(Sections(src)))
    ensures Load(image, tab, "dp_idx") == Some(PackRows(DP, DpRows(src.dps)))
    ensures Load(image, tab, "dp_name") == Some(AllAdded(Names(src.dps)).buf)
    ensures Load(image, tab, "dp_de") == Some(AllAdded(Germans(src.dps)).buf)
    ensures Load(image, tab, "dp_de_off") == Some(PackRows(DEOFF, DeRows(src.dps)))
    ensures Load(image, tab, "var_idx") == Some(PackRows(VAR, VarRows(src.vars)))
    ensures Load(image, tab, "enum_idx") == Some(PackRows(EIDX, EnumRows(src.enums)))
    ensures Load(image, tab, "enum_ent") == Some(PackRows(EENT, EntRows(Flat(src.enums))))
    ensures Load(image, tab, "enum_str") == Some(AllAdded(Texts(Flat(src.enums))).buf)
    ensures Load(image, tab, "em_idx") == Some(PackRows(VAR, VarRows(AsVariants(src.meters))))
    ensures |Sections(src)| == 12
    ensures SpanOf(tab, "dp_json") == Some(Span(Start(Sections(src), 4), |Sections(src)[4].data|))
    ensures SpanOf(tab, "var_json") == Some(Span(Start(Sections(src), 6), |Sections(src)[6].data|))
    ensures SpanOf(tab, "em_json") == Some(Span(Start(Sections(src), 11), |Sections(src)[11].data|))
  {
    hide Fits, Sections, PackRows, Packed, Load, SpanOf, RowsFit, Start, StoredRows, NAMES, SectionRows, AllAdded, Concat,
      WellNamed, DpRows, DeRows, VarRows, EnumRows, EntRows, Flat, Texts, Names, Germans, Jsons, VarJsons, AsVariants;
    SectionsNamed(src);
    SectionsAre(src);
    var ss := Sections(src);
    forall i | 0 <= i < 12
      ensures Load(image, tab, ss[i].name) == Some(ss[i].data)
      ensures SpanOf(tab, ss[i].name) == Some(Span(Start(ss, i), |ss[i].data|))
    {
      SectionLoaded(src.version, ss, i);
      SectionFound(ss, i);
    }
  }

  lemma BuiltIs(src: Source)
    requires Build(src).Some?
    ensures Fits(src) && Build(src) == Packed(src.version, Sections(src))
  {
  }

  lemma FitsIs(src: Source)
    requires Fits(src)
    ensures RowsFit(DP, DpRows(src.dps)) && RowsFit(DEOFF, DeRows(src.dps))
    ensures RowsFit(VAR, VarRows(src.vars)) && RowsFit(VAR, VarRows(AsVariants(src.meters)))
    ensures RowsFit(EENT, EntRows(Flat(src.enums))) && RowsFit(EIDX, EnumRows(src.enums))
  {
  }

  lemma SectionsAre(src: Source)
    requires Fits(src)
    ensures |Sections(src)| == 12
    ensures var ss := Sections(src);
      && ss[0] == Section("dp_idx", PackRows(DP, DpRows(src.dps)))
      && ss[1] == Section("dp_name", AllAdded(Names(src.dps)).buf)
      && ss[2] == Section("dp_de", AllAdded(Germans(src.dps)).buf)
      && ss[3] == Section("dp_de_off", PackRows(DEOFF, DeRows(src.dps)))
      && ss[4] == Section("dp_json", Concat(Jsons(src.dps)))
      && ss[5] == Section("var_idx", PackRows(VAR, VarRows(src.vars)))
    ensures var ss := Sections(src);
      && ss[6] == Section("var_json", Concat(VarJsons(src.vars)))
      && ss[7] == Section("enum_idx", PackRows(EIDX, EnumRows(src.enums)))
      && ss[8] == Section("enum_ent", PackRows(EENT, EntRows(Flat(src.enums))))
      && ss[9] == Section("enum_str", AllAdded(Texts(Flat(src.enums))).buf)
      && ss[10] == Section("em_idx", PackRows(VAR, VarRows(AsVariants(src.meters))))
      && ss[11] == Section("em_json", Concat(VarJsons(AsVariants(src.meters))))
  {
    hide Fits, PackRows, AllAdded, Concat;
  }
}
