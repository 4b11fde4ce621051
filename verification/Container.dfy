/** Binary records: Python's struct.pack on one side, packed C structs over the
    same bytes on the other. */
module Container {
  import opened Bytes

  /** One field of a record: unsigned, signed, or characters padded with zeros. */
  datatype Kind = U(w: nat) | S(w: nat) | C(w: nat)

  datatype Cell = Num(v: int) | Txt(s: bytes)

  type Layout = seq<Kind>
  type Row = seq<Cell>

  predicate CellFits(k: Kind, c: Cell) {
    match k
    case U(w) => c.Num? && 0 <= c.v < Pow256(w)
    case S(w) => c.Num? && w > 0 && -(Pow256(w) / 2) <= c.v < Pow256(w) / 2
    case C(w) => c.Txt?
  }

  /** Characters are cut at the width and padded up to it. */
  function PackCell(k: Kind, c: Cell): (b: bytes)
    requires CellFits(k, c)
    ensures |b| == k.w
  {
    match k
    case U(w) => LE(c.v, w)
    case S(w) => LE(c.v, w)
    case C(w) => Field(c.s, w)
  }

  function Field(s: bytes, w: nat): (b: bytes)
    ensures |b| == w
  {
    Take(s, w) + Zeros(w - |Take(s, w)|)
  }

  function ParseCell(k: Kind, b: bytes): Cell {
    match k
    case U(w) => Num(FromLE(b))
    case S(w) => Num(var v := FromLE(b); if v >= Pow256(w) / 2 then v - Pow256(w) else v)
    case C(w) => Txt(b)
  }

  /** What a field reads back as. */
  function Stored(k: Kind, c: Cell): Cell {
    if k.C? && c.Txt? then Txt(Field(c.s, k.w)) else c
  }

  lemma CellRoundTrip(k: Kind, c: Cell)
    requires CellFits(k, c)
    ensures ParseCell(k, PackCell(k, c)) == Stored(k, c)
  {
    if !k.C? {
      var p := Pow256(k.w);
      FromLEofLE(c.v, k.w);
      if c.v >= 0 {
        if k.S? {
          Pow256Even(k.w);
        }
        DivModUnique(c.v, p, 0, c.v);
      } else {
        Pow256Even(k.w);
        DivModUnique(c.v, p, -1, c.v + p);
      }
    }
  }

  function Size(l: Layout): nat {
    if l == [] then 0 else l[0].w + Size(l[1..])
  }

  predicate RowFits(l: Layout, r: Row) {
    |r| == |l| && forall i | 0 <= i < |l| :: CellFits(l[i], r[i])
  }

  function PackRow(l: Layout, r: Row): (b: bytes)
    requires RowFits(l, r)
    ensures |b| == Size(l)
  {
    if l == [] then [] else PackCell(l[0], r[0]) + PackRow(l[1..], r[1..])
  }

  function ParseRow(l: Layout, b: bytes): (r: Row)
    requires |b| == Size(l)
    ensures |r| == |l|
  {
    if l == [] then [] else [ParseCell(l[0], b[..l[0].w])] + ParseRow(l[1..], b[l[0].w..])
  }

  function StoredRow(l: Layout, r: Row): (s: Row)
    requires |r| == |l|
    ensures |s| == |r|
    ensures forall i | 0 <= i < |r| :: s[i] == Stored(l[i], r[i])
  {
    seq(|r|, i requires 0 <= i < |r| => Stored(l[i], r[i]))
  }

  lemma {:induction false} RowRoundTrip(l: Layout, r: Row)
    requires RowFits(l, r)
    ensures ParseRow(l, PackRow(l, r)) == StoredRow(l, r)
  {
    if l != [] {
      CellRoundTrip(l[0], r[0]);
      RowRoundTrip(l[1..], r[1..]);
      var b := PackRow(l, r);
      assert b[..l[0].w] == PackCell(l[0], r[0]) && b[l[0].w..] == PackRow(l[1..], r[1..]);
    }
  }

  // ---- tables ----

  predicate RowsFit(l: Layout, rs: seq<Row>) {
    forall i | 0 <= i < |rs| :: RowFits(l, rs[i])
  }

  function PackRows(l: Layout, rs: seq<Row>): (b: bytes)
    requires RowsFit(l, rs)
  {
    if rs == [] then [] else PackRow(l, rs[0]) + PackRows(l, rs[1..])
  }

  /** Whole records only: a rest too short for one is ignored. */
  function ParseRows(l: Layout, b: bytes): (rs: seq<Row>)
    requires Size(l) > 0
    ensures forall i | 0 <= i < |rs| :: |rs[i]| == |l|
  {
    if |b| < Size(l) then [] else [ParseRow(l, b[..Size(l)])] + ParseRows(l, b[Size(l)..])
  }

  function StoredRows(l: Layout, rs: seq<Row>): (s: seq<Row>)
    requires forall i | 0 <= i < |rs| :: |rs[i]| == |l|
    ensures |s| == |rs|
    ensures forall i | 0 <= i < |rs| :: s[i] == StoredRow(l, rs[i])
  {
    seq(|rs|, i requires 0 <= i < |rs| => StoredRow(l, rs[i]))
  }

  lemma {:induction false} TableRoundTrip(l: Layout, rs: seq<Row>)
    requires RowsFit(l, rs) && Size(l) > 0
    ensures ParseRows(l, PackRows(l, rs)) == StoredRows(l, rs)
  {
    if rs != [] {
      RowRoundTrip(l, rs[0]);
      TableRoundTrip(l, rs[1..]);
      var b := PackRows(l, rs);
      assert b[..Size(l)] == PackRow(l, rs[0]) && b[Size(l)..] == PackRows(l, rs[1..]);
    }
  }

  lemma {:induction false} PackOneMore(l: Layout, rs: seq<Row>, r: Row)
    requires RowsFit(l, rs) && RowFits(l, r)
    ensures RowsFit(l, rs + [r])
    ensures PackRows(l, rs + [r]) == PackRows(l, rs) + PackRow(l, r)
  {
    if rs == [] {
      assert [r] + [] == [r] && [] + [r] == [r] && [r][1..] == [];
      assert PackRow(l, r) + [] == PackRow(l, r);
    } else {
      hide RowFits, PackRow;
      assert (rs + [r])[1..] == rs[1..] + [r];
      PackOneMore(l, rs[1..], r);
    }
  }

  /** A column of numbers. */
  function Val(r: Row, k: nat): int {
    if k < |r| && r[k].Num? then r[k].v else 0
  }

  // ---- byte strings laid end to end ----

  function Concat(xs: seq<bytes>): bytes {
    if xs == [] then [] else Concat(xs[..|xs| - 1]) + xs[|xs| - 1]
  }

  function Offset(xs: seq<bytes>, i: nat): nat
    requires i <= |xs|
  {
    |Concat(xs[..i])|
  }

  lemma {:induction false} ConcatSlice(xs: seq<bytes>, i: nat)
    requires i < |xs|
    ensures Offset(xs, i) + |xs[i]| <= |Concat(xs)|
    ensures Concat(xs)[Offset(xs, i)..Offset(xs, i) + |xs[i]|] == xs[i]
  {
    var ys := xs[..|xs| - 1];
    if i < |xs| - 1 {
      ConcatSlice(ys, i);
      assert ys[..i] == xs[..i];
      var o := Offset(xs, i);
      assert Concat(xs)[o..o + |xs[i]|] == Concat(ys)[o..o + |xs[i]|];
    } else {
      assert xs[..i] == ys;
    }
  }

  // ---- C strings ----

  /** Up to the first zero byte, or to the end. */
  function CText(b: bytes): bytes {
    if b == [] || b[0] == 0 then [] else [b[0]] + CText(b[1..])
  }

  predicate NoZero(b: bytes) {
    forall i | 0 <= i < |b| :: b[i] != 0
  }

  lemma {:induction false} CTextOf(s: bytes, rest: bytes)
    requires NoZero(s) && (rest == [] || rest[0] == 0)
    ensures CText(s + rest) == s
  {
    if s == [] {
      assert s + rest == rest;
    } else {
      assert (s + rest)[1..] == s[1..] + rest;
      CTextOf(s[1..], rest);
    }
  }

  /** A blob that keeps one copy of each entry. */
  datatype Store = Store(buf: bytes, seen: map<bytes, nat>)

  function Added(b: Store, data: bytes): Store {
    if data in b.seen then b else Store(b.buf + data, b.seen[data := |b.buf|])
  }

  function AllAdded(xs: seq<bytes>): Store {
    if xs == [] then Store([], map[]) else Added(AllAdded(xs[..|xs| - 1]), xs[|xs| - 1])
  }

  predicate HoldsAt(buf: bytes, at: nat, x: bytes) {
    at + |x| <= |buf| && buf[at..at + |x|] == x
  }

  predicate Holds(b: Store) {
    forall x | x in b.seen :: HoldsAt(b.buf, b.seen[x], x)
  }

  lemma HoldsMore(buf: bytes, more: bytes, at: nat, x: bytes)
    requires HoldsAt(buf, at, x)
    ensures HoldsAt(buf + more, at, x)
  {
    assert (buf + more)[at..at + |x|] == buf[at..at + |x|];
  }

  lemma AddHolds(b: Store, data: bytes)
    requires Holds(b)
    ensures Holds(Added(b, data))
  {
    assert HoldsAt(b.buf + data, |b.buf|, data);
    hide HoldsAt;
    forall x | x in b.seen
      ensures HoldsAt(b.buf + data, b.seen[x], x)
    {
      HoldsMore(b.buf, data, b.seen[x], x);
    }
  }

  lemma NothingHeld()
    ensures Holds(Store([], map[]))
  {
  }

  lemma {:induction false} StoreHolds(xs: seq<bytes>)
    ensures Holds(AllAdded(xs))
    ensures forall i | 0 <= i < |xs| :: xs[i] in AllAdded(xs).seen
  {
    hide Holds;
    if xs != [] {
      StoreHolds(xs[..|xs| - 1]);
      AddHolds(AllAdded(xs[..|xs| - 1]), xs[|xs| - 1]);
    } else {
      NothingHeld();
    }
  }

  /** An entry keeps the offset it was first given. */
  lemma {:induction false} StoreKeeps(xs: seq<bytes>, i: nat)
    requires i < |xs|
    ensures xs[i] in AllAdded(xs[..i + 1]).seen && xs[i] in AllAdded(xs).seen
    ensures AllAdded(xs).seen[xs[i]] == AllAdded(xs[..i + 1]).seen[xs[i]]
  {
    var ys := xs[..|xs| - 1];
    if i < |xs| - 1 {
      StoreKeeps(ys, i);
      assert ys[..i + 1] == xs[..i + 1];
    } else {
      assert xs[..i + 1] == xs;
    }
  }

  /** No entry is stored twice: the blob is its different entries, once each. */
  lemma {:induction false} StoredOnce(xs: seq<bytes>)
    ensures Disjoint(AllAdded(xs))
  {
    hide Disjoint, Holds;
    if xs != [] {
      StoredOnce(xs[..|xs| - 1]);
      StoreHolds(xs[..|xs| - 1]);
      AddDisjoint(AllAdded(xs[..|xs| - 1]), xs[|xs| - 1]);
    } else {
      NothingStored();
    }
  }

  predicate Apart(b: Store, x: bytes, y: bytes)
    requires x in b.seen && y in b.seen
  {
    b.seen[x] + |x| <= b.seen[y] || b.seen[y] + |y| <= b.seen[x]
  }

  ghost predicate Disjoint(b: Store) {
    forall x, y | x in b.seen && y in b.seen && x != y && x != [] && y != [] :: Apart(b, x, y)
  }

  lemma AddDisjoint(b: Store, data: bytes)
    requires Holds(b) && Disjoint(b)
    ensures Disjoint(Added(b, data))
  {
    var b' := Added(b, data);
    forall x, y | x in b'.seen && y in b'.seen && x != y && x != [] && y != []
      ensures Apart(b', x, y)
    {
      if x in b.seen && y in b.seen {
        assert Apart(b, x, y);
      } else if x in b.seen {
        assert HoldsAt(b.buf, b.seen[x], x);
      } else if y in b.seen {
        assert HoldsAt(b.buf, b.seen[y], y);
      }
    }
  }

  lemma NothingStored()
    ensures Disjoint(Store([], map[]))
  {
  }
}
