/** The generator's loops (tools/gen_dpdb.py): blobs and byte arrays appended to
    record by record, and a struct.error whenever a value does not fit. */
module DbPacker {
  import opened Bytes
  import opened Wrappers
  import opened Container
  import opened DbImage

  /** Append-only, one copy of each entry. */
  class Blob {
    var buf: bytes
    var seen: map<bytes, nat>
    ghost var added: seq<bytes>

    ghost predicate Valid()
      reads this
    {
      Store(buf, seen) == AllAdded(added)
    }

    constructor ()
      ensures Valid() && added == []
    {
      buf, seen, added := [], map[], [];
    }

    method Add(data: bytes) returns (off: nat)
      requires Valid()
      modifies this
      ensures Valid() && added == old(added) + [data]
      ensures off == At(AllAdded(added), data) && data in AllAdded(added).seen
    {
      assert (added + [data])[..|added|] == added;
      added := added + [data];
      if data in seen {
        return seen[data];
      }
      off := |buf|;
      buf := buf + data;
      seen := seen[data := off];
    }

    method AddStr(s: bytes) returns (off: nat)
      requires Valid()
      modifies this
      ensures Valid() && added == old(added) + [s + [0]]
      ensures off == At(AllAdded(added), s + [0])
    {
      off := Add(s + [0]);
    }
  }

  /** Offsets handed out along the way are those of the finished blob. */
  lemma EarlierOffset(xs: seq<bytes>, i: nat)
    requires i < |xs|
    ensures At(AllAdded(xs[..i + 1]), xs[i]) == At(AllAdded(xs), xs[i])
  {
    StoreKeeps(xs, i);
  }

  lemma NextSlice<T>(xs: seq<T>, i: nat)
    requires i < |xs|
    ensures xs[..i + 1] == xs[..i] + [xs[i]] && xs[..i + 1][..i] == xs[..i]
  {
  }

  /** One more record of a table, if it fits. */
  lemma NextRow(l: Layout, rs: seq<Row>, i: nat)
    requires i < |rs| && RowsFit(l, rs[..i]) && RowFits(l, rs[i])
    ensures RowsFit(l, rs[..i + 1])
    ensures PackRows(l, rs[..i + 1]) == PackRows(l, rs[..i]) + PackRow(l, rs[i])
  {
    NextSlice(rs, i);
    PackOneMore(l, rs[..i], rs[i]);
  }

  lemma NextRecord(xs: seq<bytes>, i: nat)
    requires i < |xs|
    ensures Concat(xs[..i + 1]) == Concat(xs[..i]) + xs[i]
  {
    NextSlice(xs, i);
  }

  /** build_variants, and build_energy_meters, which differs in the keys only. */
  method BuildVariants(vs: seq<Variant>) returns (r: Option<(bytes, bytes)>)
    ensures r.Some? <==> RowsFit(VAR, VarRows(vs))
    ensures r.Some? ==> r.value == (PackRows(VAR, VarRows(vs)), Concat(VarJsons(vs)))
  {
    hide RowFits, PackRow, PackRows, Concat;
    ghost var rows, jsons := VarRows(vs), VarJsons(vs);
    var idx: bytes, payload: bytes := [], [];
    NoRows(VAR, rows);
    NoRecords(jsons);
    for i := 0 to |vs|
      invariant RowsFit(VAR, rows[..i]) && idx == PackRows(VAR, rows[..i])
      invariant payload == Concat(jsons[..i])
    {
      var off := |payload|;
      var row := [Num(vs[i].did), Num(vs[i].len), Num(off), Num(|vs[i].json|)];
      assert row == rows[i];
      if !RowFits(VAR, row) {
        return None;
      }
      NextRow(VAR, rows, i);
      NextRecord(jsons, i);
      payload := payload + vs[i].json;
      idx := idx + PackRow(VAR, row);
    }
    assert rows[..|vs|] == rows && jsons[..|vs|] == jsons;
    r := Some((idx, payload));
  }

  lemma NoRows(l: Layout, rs: seq<Row>)
    ensures RowsFit(l, rs[..0]) && PackRows(l, rs[..0]) == []
  {
  }

  lemma NoRecords(xs: seq<bytes>)
    ensures Concat(xs[..0]) == []
  {
  }

  /** build_datapoints: index, names, payload, German labels, their offsets. */
  method BuildDatapoints(dps: seq<Dp>) returns (r: Option<(bytes, bytes, bytes, bytes, bytes)>)
    ensures r.Some? <==> RowsFit(DP, DpRows(dps)) && RowsFit(DEOFF, DeRows(dps))
    ensures r.Some? ==> r.value == (PackRows(DP, DpRows(dps)), AllAdded(Names(dps)).buf, Concat(Jsons(dps)),
                                    AllAdded(Germans(dps)).buf, PackRows(DEOFF, DeRows(dps)))
  {
    hide RowFits, PackRow, PackRows, Concat, AllAdded;
    ghost var rows, de, jsons, ns, gs := DpRows(dps), DeRows(dps), Jsons(dps), Names(dps), Germans(dps);
    var names := new Blob();
    var german := new Blob();
    var idx: bytes, deOff: bytes, payload: bytes := [], [], [];
    NoRows(DP, rows);
    NoRows(DEOFF, de);
    NoRecords(jsons);
    for i := 0 to |dps|
      invariant names.Valid() && german.Valid() && names != german
      invariant fresh(names) && fresh(german)
      invariant names.added == ns[..i] && german.added == gs[..i]
      invariant RowsFit(DP, rows[..i]) && idx == PackRows(DP, rows[..i])
      invariant RowsFit(DEOFF, de[..i]) && deOff == PackRows(DEOFF, de[..i])
      invariant payload == Concat(jsons[..i])
    {
      var off := |payload|;
      var at := names.AddStr(dps[i].name);
      NextSlice(ns, i);
      EarlierOffset(ns, i);
      var row := [Num(dps[i].did), Num(dps[i].len), Num(off), Num(|dps[i].json|), Num(at)];
      assert row == rows[i];
      if !RowFits(DP, row) {
        return None;
      }
      NextRow(DP, rows, i);
      NextRecord(jsons, i);
      payload := payload + dps[i].json;
      idx := idx + PackRow(DP, row);
      at := german.AddStr(dps[i].german);
      NextSlice(gs, i);
      EarlierOffset(gs, i);
      assert [Num(at)] == de[i];
      if !RowFits(DEOFF, [Num(at)]) {
        return None;
      }
      NextRow(DEOFF, de, i);
      deOff := deOff + PackRow(DEOFF, [Num(at)]);
    }
    assert rows[..|dps|] == rows && de[..|dps|] == de && jsons[..|dps|] == jsons && ns[..|dps|] == ns && gs[..|dps|] == gs;
    r := Some((idx, names.buf, payload, german.buf, deOff));
  }

  predicate EnumsFit(ls: seq<EnumList>) {
    && (forall i | 0 <= i < |ls| :: |ls[i].name| < ENUM_NAME_MAX)
    && RowsFit(EENT, EntRows(Flat(ls))) && RowsFit(EIDX, EnumRows(ls))
  }

  /** The entries of one list, which are `all[at..]` of all lists'. */
  method AddItems(items: seq<Item>, strings: Blob, ghost all: seq<Item>, ghost at: nat, ent: bytes) returns (r: Option<bytes>)
    requires at + |items| <= |all| && all[at..at + |items|] == items
    requires strings.Valid() && strings.added == Texts(all)[..at]
    requires RowsFit(EENT, EntRows(all)[..at]) && ent == PackRows(EENT, EntRows(all)[..at])
    modifies strings
    ensures r.Some? <==> RowsFit(EENT, EntRows(all)[..at + |items|])
    ensures r.Some? ==> r.value == PackRows(EENT, EntRows(all)[..at + |items|])
    ensures r.Some? ==> strings.Valid() && strings.added == Texts(all)[..at + |items|]
  {
    hide RowFits, PackRow, PackRows, AllAdded;
    ghost var ents, ts := EntRows(all), Texts(all);
    var out := ent;
    for k := 0 to |items|
      invariant strings.Valid() && strings.added == ts[..at + k]
      invariant RowsFit(EENT, ents[..at + k]) && out == PackRows(EENT, ents[..at + k])
    {
      assert all[at..at + |items|][k] == all[at + k] == items[k];
      var off := strings.AddStr(items[k].text);
      NextSlice(ts, at + k);
      EarlierOffset(ts, at + k);
      var row := [Num(items[k].value), Num(off)];
      assert row == ents[at + k];
      if !RowFits(EENT, row) {
        return None;
      }
      NextRow(EENT, ents, at + k);
      out := out + PackRow(EENT, row);
    }
    r := Some(out);
  }

  /** build_enums: index, entries, texts. */
  method BuildEnums(ls: seq<EnumList>) returns (r: Option<(bytes, bytes, bytes)>)
    ensures r.Some? <==> EnumsFit(ls)
    ensures r.Some? ==> r.value == (PackRows(EIDX, EnumRows(ls)), PackRows(EENT, EntRows(Flat(ls))), AllAdded(Texts(Flat(ls))).buf)
  {
    hide RowFits, PackRow, PackRows, AllAdded;
    ghost var rows, ents, ts := EnumRows(ls), EntRows(Flat(ls)), Texts(Flat(ls));
    var strings := new Blob();
    var idx: bytes, ent: bytes, n: nat := [], [], 0;
    NoRows(EIDX, rows);
    NoRows(EENT, ents);
    for i := 0 to |ls|
      invariant strings.Valid() && fresh(strings)
      invariant n == |Flat(ls[..i])| <= |ents| && strings.added == ts[..n]
      invariant forall j | 0 <= j < i :: |ls[j].name| < ENUM_NAME_MAX
      invariant RowsFit(EENT, ents[..n]) && ent == PackRows(EENT, ents[..n])
      invariant RowsFit(EIDX, rows[..i]) && idx == PackRows(EIDX, rows[..i])
    {
      if |ls[i].name| >= ENUM_NAME_MAX {
        return None;
      }
      var at, items := n, ls[i].items;
      FlatSlice(ls, i);
      NextSlice(ls, i);
      var more := AddItems(items, strings, Flat(ls), at, ent);
      if more.None? {
        return None;
      }
      ent, n := more.value, at + |items|;
      var row := [Txt(ls[i].name), Num(at), Num(|items|)];
      assert row == rows[i];
      if !RowFits(EIDX, row) {
        return None;
      }
      NextRow(EIDX, rows, i);
      idx := idx + PackRow(EIDX, row);
    }
    assert rows[..|ls|] == rows && ls[..|ls|] == ls && ents[..|ents|] == ents && ts[..|ts|] == ts;
    r := Some((idx, ent, strings.buf));
  }

  /** pack: header, section table, padded sections. */
  method Pack(version: bytes, ss: seq<Section>) returns (r: Option<bytes>)
    ensures r == Packed(version, ss)
  {
    hide RowFits, PackRow, PackRows;
    ghost var rows := SectionRows(ss);
    var at := HEADER_SIZE + 20 * |ss|;
    if !RowFits(HEAD, HeadRow(version, |ss|)) {
      return None;
    }
    var header := PackRow(HEAD, HeadRow(version, |ss|)) + Zeros(32);
    var table: bytes, body: bytes := [], [];
    NoRows(SECT, rows);
    for i := 0 to |ss|
      invariant RowsFit(SECT, rows[..i]) && table == PackRows(SECT, rows[..i])
      invariant body == Body(ss[..i])
    {
      var row := [Txt(Ascii(ss[i].name)), Num(at + |body|), Num(|ss[i].data|)];
      assert row == rows[i];
      if !RowFits(SECT, row) {
        return None;
      }
      NextRow(SECT, rows, i);
      NextSlice(ss, i);
      table := table + PackRow(SECT, row);
      body := body + ss[i].data;
      ghost var whole := body;
      while |body| % 4 != 0
        invariant whole <= body <= Padded(whole)
        decreases |Padded(whole)| - |body|
      {
        body := body + [0];
      }
      assert body == Padded(whole);
    }
    assert rows[..|ss|] == rows && ss[..|ss|] == ss;
    r := Some(header + table + body);
  }

  /** main: the twelve sections of a database. */
  method Generate(src: Source) returns (r: Option<bytes>)
    ensures r == Build(src)
  {
    hide RowsFit, PackRows, AllAdded, Concat, Packed, DpRows, DeRows, VarRows, EntRows, EnumRows, Flat;
    var em := BuildVariants(AsVariants(src.meters));
    var dp := BuildDatapoints(src.dps);
    var vs := BuildVariants(src.vars);
    var en := BuildEnums(src.enums);
    if em.None? || dp.None? || vs.None? || en.None? {
      return None;
    }
    var (idx, names, json, german, deOff) := dp.value;
    r := Pack(src.version,
              [Section("dp_idx", idx), Section("dp_name", names), Section("dp_de", german), Section("dp_de_off", deOff),
               Section("dp_json", json), Section("var_idx", vs.value.0), Section("var_json", vs.value.1),
               Section("enum_idx", en.value.0), Section("enum_ent", en.value.1), Section("enum_str", en.value.2),
               Section("em_idx", em.value.0), Section("em_json", em.value.1)]);
  }
}
