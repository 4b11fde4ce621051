/** Lookups in the open database (main/o3e_db.c): binary search over the loaded
    tables, and their agreement with the dictionaries behind the file. */
module DbLookup {
  import opened Bytes
  import opened Wrappers
  import opened Container
  import opened DbImage
  import opened DbReader

  // ---- what a lookup should find ----

  /** The first of `n` rows from `i` on whose key is `a`. */
  function KeyIn(rows: seq<Row>, a: int, i: nat, n: nat): (r: Option<nat>)
    requires i + n <= |rows|
    ensures r.Some? ==> i <= r.value < i + n && Val(rows[r.value], 0) == a && forall j | i <= j < r.value :: Val(rows[j], 0) != a
    ensures r.None? ==> forall j | i <= j < i + n :: Val(rows[j], 0) != a
    decreases n
  {
    if n == 0 then None else if Val(rows[i], 0) == a then Some(i) else KeyIn(rows, a, i + 1, n - 1)
  }

  predicate HasPair(r: Row, a: int, b: int) {
    Val(r, 0) == a && Val(r, 1) == b
  }

  function PairIn(rows: seq<Row>, a: int, b: int, i: nat): (r: Option<nat>)
    requires i <= |rows|
    ensures r.Some? ==> i <= r.value < |rows| && HasPair(rows[r.value], a, b) && forall j | i <= j < r.value :: !HasPair(rows[j], a, b)
    ensures r.None? ==> forall j | i <= j < |rows| :: !HasPair(rows[j], a, b)
    decreases |rows| - i
  {
    if i == |rows| then None else if HasPair(rows[i], a, b) then Some(i) else PairIn(rows, a, b, i + 1)
  }

  function JsonAt(image: bytes, base: nat, r: Row, k: nat): Option<bytes> {
    ReadAt(image, base + Nat(Val(r, k)), Nat(Val(r, k + 1)))
  }

  function JsonOf(image: bytes, t: Tables, did: int, len: int): Option<bytes> {
    var v := PairIn(t.vars, did, len, 0);
    if len != 0 && v.Some? then JsonAt(image, t.varJson, t.vars[v.value], 2)
    else
      var d := KeyIn(t.dp, did, 0, |t.dp|);
      if d.Some? then JsonAt(image, t.dpJson, t.dp[d.value], 2) else None
  }

  function MeterJsonOf(image: bytes, t: Tables, id: int): Option<bytes> {
    var m := KeyIn(t.em, id, 0, |t.em|);
    if m.Some? then JsonAt(image, t.emJson, t.em[m.value], 2) else None
  }

  /** Every list's entries lie inside the table. */
  predicate Consistent(t: Tables) {
    forall i | 0 <= i < |t.eidx| :: Nat(Val(t.eidx[i], 1)) + Nat(Val(t.eidx[i], 2)) <= |t.eent|
  }

  function EnumOf(t: Tables, list: bytes, value: int): Option<bytes>
    requires Consistent(t)
  {
    var l := FindNamed(t.eidx, list, ENUM_NAME_MAX, 0);
    if l.None? then None
    else
      var x := KeyIn(t.eent, value, Nat(Val(t.eidx[l.value], 1)), Nat(Val(t.eidx[l.value], 2)));
      if x.None? then None else Some(CText(Drop(t.estr, Nat(Val(t.eent[x.value], 1)))))
  }

  // ---- the code ----

  predicate Rising(rows: seq<Row>, from: nat, n: nat)
    requires from + n <= |rows|
  {
    forall i, j | from <= i < j < from + n :: Val(rows[i], 0) < Val(rows[j], 0)
  }

  predicate PairsRise(rows: seq<Row>) {
    forall i, j | 0 <= i < j < |rows| :: Val(rows[i], 0) < Val(rows[j], 0)
      || (Val(rows[i], 0) == Val(rows[j], 0) && Val(rows[i], 1) < Val(rows[j], 1))
  }

  /** o3e_db_find, o3e_db_em_find and the search inside o3e_db_enum. */
  method Search(rows: seq<Row>, key: int, from: nat, n: nat) returns (r: Option<nat>)
    requires from + n <= |rows|
    ensures r.Some? ==> from <= r.value < from + n && Val(rows[r.value], 0) == key
    ensures Rising(rows, from, n) ==> r == KeyIn(rows, key, from, n)
  {
    var lo: nat := 0;
    var hi := n;
    while lo < hi
      invariant lo <= hi <= n
      invariant Rising(rows, from, n) ==>
        (forall j | from <= j < from + lo :: Val(rows[j], 0) < key)
      invariant Rising(rows, from, n) ==>
        (forall j | from + hi <= j < from + n :: Val(rows[j], 0) > key)
    {
      var mid := lo + (hi - lo) / 2;
      if Val(rows[from + mid], 0) < key {
        lo := mid + 1;
      } else if Val(rows[from + mid], 0) > key {
        hi := mid;
      } else {
        return Some(from + mid);
      }
    }
    r := None;
  }

  /** find_variant */
  method SearchPair(rows: seq<Row>, a: int, b: int) returns (r: Option<nat>)
    ensures r.Some? ==> r.value < |rows| && HasPair(rows[r.value], a, b)
    ensures PairsRise(rows) ==> r == PairIn(rows, a, b, 0)
  {
    var lo: nat := 0;
    var hi := |rows|;
    while lo < hi
      invariant lo <= hi <= |rows|
      invariant PairsRise(rows) ==>
        (forall j | 0 <= j < lo :: Val(rows[j], 0) < a || (Val(rows[j], 0) == a && Val(rows[j], 1) < b))
      invariant PairsRise(rows) ==>
        (forall j | hi <= j < |rows| :: Val(rows[j], 0) > a || (Val(rows[j], 0) == a && Val(rows[j], 1) > b))
    {
      var mid := lo + (hi - lo) / 2;
      var x, y := Val(rows[mid], 0), Val(rows[mid], 1);
      if x < a || (x == a && y < b) {
        lo := mid + 1;
      } else if x > a || (x == a && y > b) {
        hi := mid;
      } else {
        return Some(mid);
      }
    }
    r := None;
  }

  class Database {
    var file: Option<bytes>
    var t: Tables

    ghost predicate IsOpen()
      reads this
    {
      file.Some? && Open(file.value) == Some(t)
    }

    constructor ()
      ensures file == None
    {
      file := None;
      t := EMPTY;
    }

    method Close()
      modifies this
      ensures file == None && t == EMPTY
    {
      file, t := None, EMPTY;
    }

    /** Open or closed: what a failed attempt has loaded is let go again. */
    method OpenFile(content: Option<bytes>) returns (ok: bool)
      modifies this
      ensures ok <==> content.Some? && Open(content.value).Some?
      ensures if ok then file == content && IsOpen() else file == None && t == EMPTY
    {
      Close();
      ok := OpenInner(content);
      if !ok {
        Close();
      }
    }

    /** Section by section into the tables; on failure they stay as far as it got. */
    method OpenInner(content: Option<bytes>) returns (ok: bool)
      modifies this
      ensures ok <==> content.Some? && Open(content.value).Some?
      ensures ok ==> file == content && Open(file.value) == Some(t)
    {
      hide OpenTable, Load, SpanOf, ParseRows;
      ok := false;
      file := content;
      if content.None? {
        return;
      }
      var image := content.value;
      var head := OpenTable(image);
      if head.None? {
        return;
      }
      var (version, tab) := head.value;
      t := t.(version := version);
      LayoutSizes();
      if exists i | 0 <= i < |NAMES| :: SpanOf(tab, NAMES[i]).None? {
        SomeMissing(image);
        return;
      }
      AllThere(tab);
      var dp := Load(image, tab, "dp_idx");
      if dp.None? {
        return;
      }
      t := t.(dp := ParseRows(DP, dp.value));
      var names, german, deOff := Load(image, tab, "dp_name"), Load(image, tab, "dp_de"), Load(image, tab, "dp_de_off");
      if german.None? || deOff.None? {
        return;
      }
      t := t.(german := german.value, deOff := ParseRows(DEOFF, deOff.value));
      var vars := Load(image, tab, "var_idx");
      if names.None? || vars.None? {
        return;
      }
      t := t.(names := names.value, vars := ParseRows(VAR, vars.value));
      var eidx := Load(image, tab, "enum_idx");
      if eidx.None? {
        return;
      }
      t := t.(eidx := ParseRows(EIDX, eidx.value));
      var eent, estr := Load(image, tab, "enum_ent"), Load(image, tab, "enum_str");
      if eent.None? || estr.None? {
        return;
      }
      t := t.(eent := ParseRows(EENT, eent.value), estr := estr.value);
      var em := Load(image, tab, "em_idx");
      if em.None? {
        return;
      }
      t := t.(em := ParseRows(VAR, em.value));
      t := t.(dpJson := SpanOf(tab, "dp_json").value.off, varJson := SpanOf(tab, "var_json").value.off,
              emJson := SpanOf(tab, "em_json").value.off);
      ok := true;
    }

    method Json(did: nat, len: nat) returns (r: Option<bytes>)
      requires IsOpen()
      ensures Rising(t.dp, 0, |t.dp|) && PairsRise(t.vars) ==> r == JsonOf(file.value, t, did, len)
    {
      if len != 0 {
        var v := SearchPair(t.vars, did, len);
        if v.Some? {
          return JsonAt(file.value, t.varJson, t.vars[v.value], 2);
        }
      }
      var e := Search(t.dp, did, 0, |t.dp|);
      if e.None? {
        return None;
      }
      r := JsonAt(file.value, t.dpJson, t.dp[e.value], 2);
    }

    method MeterJson(id: nat) returns (r: Option<bytes>)
      requires IsOpen()
      ensures Rising(t.em, 0, |t.em|) ==> r == MeterJsonOf(file.value, t, id)
    {
      var e := Search(t.em, id, 0, |t.em|);
      r := if e.None? then None else JsonAt(file.value, t.emJson, t.em[e.value], 2);
    }

    method FindEnum(list: bytes) returns (r: Option<nat>)
      requires IsOpen()
      ensures r == FindNamed(t.eidx, list, ENUM_NAME_MAX, 0)
    {
      var i: nat := 0;
      while i < |t.eidx|
        invariant i <= |t.eidx| && FindNamed(t.eidx, list, ENUM_NAME_MAX, 0) == FindNamed(t.eidx, list, ENUM_NAME_MAX, i)
      {
        if |t.eidx[i]| > 0 && t.eidx[i][0].Txt? && SameText(t.eidx[i][0].s, list, ENUM_NAME_MAX) {
          return Some(i);
        }
        i := i + 1;
      }
      r := None;
    }

    method EnumText(list: bytes, value: int) returns (r: Option<bytes>)
      requires IsOpen() && Consistent(t)
      ensures (forall i | 0 <= i < |t.eidx| :: Rising(t.eent, Nat(Val(t.eidx[i], 1)), Nat(Val(t.eidx[i], 2)))) ==> r == EnumOf(t, list, value)
    {
      var l := FindEnum(list);
      if l.None? {
        return None;
      }
      var x := Search(t.eent, value, Nat(Val(t.eidx[l.value], 1)), Nat(Val(t.eidx[l.value], 2)));
      r := if x.None? then None else Some(CText(Drop(t.estr, Nat(Val(t.eent[x.value], 1)))));
    }
  }

  lemma AllThere(tab: seq<Row>)
    requires forall i | 0 <= i < |NAMES| :: SpanOf(tab, NAMES[i]).Some?
    ensures SpanOf(tab, "dp_json").Some? && SpanOf(tab, "var_json").Some? && SpanOf(tab, "em_json").Some?
  {
    hide SpanOf;
    assert NAMES[4] == "dp_json" && NAMES[6] == "var_json" && NAMES[11] == "em_json";
  }

  /** Every one of the twelve sections is needed. */
  lemma SomeMissing(image: bytes)
    requires OpenTable(image).Some?
    requires exists i | 0 <= i < |NAMES| :: SpanOf(OpenTable(image).value.1, NAMES[i]).None?
    ensures Open(image).None?
  {
    hide OpenTable, SpanOf, ReadAt, ParseRows, NAMES;
    NamesAre();
  }

  lemma NamesAre()
    ensures |NAMES| == 12
    ensures NAMES[0] == "dp_idx" && NAMES[1] == "dp_name" && NAMES[2] == "dp_de" && NAMES[3] == "dp_de_off"
    ensures NAMES[4] == "dp_json" && NAMES[5] == "var_idx" && NAMES[6] == "var_json" && NAMES[7] == "enum_idx"
    ensures NAMES[8] == "enum_ent" && NAMES[9] == "enum_str" && NAMES[10] == "em_idx" && NAMES[11] == "em_json"
  {
  }

  const EMPTY := Tables([], [], [], [], [], [], [], [], [], [], 0, 0, 0)
}
