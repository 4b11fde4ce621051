/** Bytes, little-endian numbers and two's complement, as the C code reads and
    writes them (read_uint, read_int and put_le in main/o3e_codec.c). */
module Bytes {

  type byte = x: int | 0 <= x < 256

  type bytes = seq<byte>

  const TWO63: int := 0x8000_0000_0000_0000
  const TWO64: int := 0x1_0000_0000_0000_0000
  const TWO32: int := 0x1_0000_0000

  function Pow256(n: nat): (p: nat)
    ensures p >= 1
    ensures n > 0 ==> p >= 256
  {
    if n == 0 then 1 else 256 * Pow256(n - 1)
  }

  function Min(a: nat, b: nat): nat {
    if a < b then a else b
  }

  function Word(lo: int, hi: int): int {
    lo + 256 * hi
  }

  /** The number whose little-endian digits are `s`. */
  function FromLE(s: bytes): nat {
    if s == [] then 0 else s[0] + 256 * FromLE(s[1..])
  }

  /** The low `w` bytes of `v`. Division and remainder are Euclidean, so a
      negative `v` comes out in two's complement, as a C cast gives it. */
  function LE(v: int, w: nat): (s: bytes)
    ensures |s| == w
    decreases w
  {
    if w == 0 then [] else [v % 256] + LE(v / 256, w - 1)
  }

  function Zeros(n: nat): (s: bytes)
    ensures |s| == n
    ensures forall i :: 0 <= i < n ==> s[i] == 0
  {
    seq(n, i => 0)
  }

  /** Python-style slice: what is left after `k` bytes, nothing when short. */
  function Drop(d: bytes, k: nat): bytes {
    if k <= |d| then d[k..] else []
  }

  function Take(d: bytes, k: nat): bytes {
    if k <= |d| then d[..k] else d
  }

  /** (int64_t) of an unsigned 64-bit number. */
  function AsI64(v: int): int {
    if v >= TWO63 then v - TWO64 else v
  }

  /** (int32_t): the low 32 bits, read as two's complement. */
  function AsI32(v: int): int {
    var m := v % TWO32;
    if m >= 0x8000_0000 then m - TWO32 else m
  }

  /** What the casts give: the same low bits, in the range of the type. */
  lemma CastsMean(v: int)
    ensures -0x8000_0000 <= AsI32(v) < 0x8000_0000 && (v - AsI32(v)) % 0x1_0000_0000 == 0
    ensures 0 <= v < TWO64 ==>
      -0x8000_0000_0000_0000 <= AsI64(v) < 0x8000_0000_0000_0000 && (v - AsI64(v)) % 0x1_0000_0000_0000_0000 == 0
  {
  }

  /** read_int: sign extension only for widths 1..7, plain reinterpretation at 8. */
  function ReadInt(s: bytes, signd: bool): int {
    var v := FromLE(s);
    if signd && 0 < |s| < 8 && v >= Pow256(|s|) / 2 then v - Pow256(|s|) else AsI64(v)
  }

  lemma {:induction false} FromLEBound(s: bytes)
    ensures FromLE(s) < Pow256(|s|)
  {
    if s != [] {
      FromLEBound(s[1..]);
    }
  }

  /** Reading back what was written gives the value modulo 256^w. */
  lemma {:induction false} FromLEofLE(v: int, w: nat)
    ensures FromLE(LE(v, w)) == v % Pow256(w)
    decreases w
  {
    if w > 0 {
      var p := Pow256(w - 1);
      FromLEofLE(v / 256, w - 1);
      assert LE(v, w)[1..] == LE(v / 256, w - 1);
      ModDigit(v, p);
    }
  }

  lemma ModDigit(v: int, p: int)
    requires p > 0
    ensures v % (256 * p) == v % 256 + 256 * ((v / 256) % p)
  {
    var q, r := v / 256, v % 256;
    var a, b := q / p, q % p;
    assert v == 256 * (a * p + b) + r == (256 * p) * a + (256 * b + r);
    assert 0 <= 256 * b + r < 256 * p;
    DivModUnique(v, 256 * p, a, 256 * b + r);
  }

  lemma DivModUnique(v: int, d: int, q: int, r: int)
    requires d > 0 && v == d * q + r && 0 <= r < d
    ensures v % d == r && v / d == q
  {
    var q', r' := v / d, v % d;
    var e := q - q';
    assert d * e == d * q - d * q';
    if e > 0 {
      MulAtLeast(d, e);
    } else if e < 0 {
      MulAtLeast(d, -e);
    }
  }

  lemma MulAtLeast(d: int, e: int)
    requires d > 0 && e > 0
    ensures d * e >= d
  {
    assert d * e == d + d * (e - 1);
  }

  /** Writing back what was read gives the same bytes. */
  lemma {:induction false} LEofFromLE(s: bytes)
    ensures LE(FromLE(s), |s|) == s
  {
    if s != [] {
      var v := FromLE(s);
      DivModUnique(v, 256, FromLE(s[1..]), s[0]);
      LEofFromLE(s[1..]);
      assert s == [s[0]] + s[1..];
    }
  }

  /** Only the value modulo 256^w is stored. */
  lemma {:induction false} LEPeriodic(v: int, k: int, w: nat)
    ensures LE(v + k * Pow256(w), w) == LE(v, w)
    decreases w
  {
    if w > 0 {
      var p := Pow256(w - 1);
      var v' := v + k * Pow256(w);
      assert k * Pow256(w) == 256 * (k * p);
      DivModUnique(v', 256, v / 256 + k * p, v % 256);
      LEPeriodic(v / 256, k, w - 1);
    }
  }

  lemma {:induction false} FromLEAppend(s: bytes, b: byte)
    ensures FromLE(s + [b]) == FromLE(s) + b * Pow256(|s|)
  {
    if s == [] {
      assert s + [b] == [b];
      assert FromLE([b]) == b + 256 * FromLE([]);
    } else {
      assert (s + [b])[1..] == s[1..] + [b];
      FromLEAppend(s[1..], b);
      assert 256 * (b * Pow256(|s| - 1)) == b * Pow256(|s|);
    }
  }

  lemma ReadIntValue(s: bytes, signd: bool)
    requires |s| <= 8
    ensures ReadInt(s, signd) == FromLE(s) || ReadInt(s, signd) == FromLE(s) - Pow256(|s|)
  {
    FromLEBound(s);
    if |s| < 8 {
      Pow256Small(|s|);
    } else {
      Pow256Eight();
    }
  }

  /** A signed or unsigned read followed by a write gives the same bytes. */
  lemma LEofReadInt(s: bytes, signd: bool)
    requires |s| <= 8
    ensures LE(ReadInt(s, signd), |s|) == s
  {
    ReadIntValue(s, signd);
    LEofEither(s, ReadInt(s, signd));
  }

  lemma LEofEither(s: bytes, r: int)
    requires r == FromLE(s) || r == FromLE(s) - Pow256(|s|)
    ensures LE(r, |s|) == s
  {
    var v, w := FromLE(s), |s|;
    LEofFromLE(s);
    if r != v {
      LEPeriodic(r, 1, w);
      assert r + 1 * Pow256(w) == v;
    }
  }

  lemma Pow256Eight()
    ensures Pow256(8) == TWO64 && Pow256(4) == TWO32 && Pow256(2) == 65536 && Pow256(1) == 256
  {
    assert Pow256(1) == 256;
    assert Pow256(2) == 65536;
    assert Pow256(3) == 0x100_0000;
    assert Pow256(4) == TWO32;
    assert Pow256(5) == 0x100_0000_0000;
    assert Pow256(6) == 0x1_0000_0000_0000;
    assert Pow256(7) == 0x100_0000_0000_0000;
  }

  lemma Pow256Small(w: nat)
    requires w < 8
    ensures Pow256(w) < TWO63
  {
    Pow256Eight();
    Pow256Mono(w, 7);
    assert 256 * Pow256(7) == Pow256(8);
  }

  lemma {:induction false} Pow256Mono(a: nat, b: nat)
    requires a <= b
    ensures Pow256(a) <= Pow256(b)
    decreases b
  {
    if a < b {
      Pow256Mono(a, b - 1);
    }
  }

  lemma {:induction false} Pow256Even(w: nat)
    requires w > 0
    ensures Pow256(w) / 2 * 2 == Pow256(w) && Pow256(w) / 2 >= 128
  {
    if w > 1 {
      Pow256Even(w - 1);
    }
  }

  lemma LEOfZero(w: nat)
    ensures LE(0, w) == Zeros(w)
  {
    if w > 0 {
      LEOfZero(w - 1);
    }
  }

  /** read_uint: shift-and-or over at most `width` of the `avail` bytes at `at`. */
  method ReadUint(d: array<byte>, at: nat, avail: nat, width: nat) returns (v: nat)
    requires at + avail <= d.Length
    ensures v == FromLE(Take(d[at..at + avail], width))
  {
    v := 0;
    var n := if width < avail then width else avail;
    var i: nat, unit: nat := 0, 1;
    while i < n
      invariant 0 <= i <= n && unit == Pow256(i)
      invariant v == FromLE(d[at..at + i])
    {
      FromLEAppend(d[at..at + i], d[at + i]);
      assert d[at..at + i] + [d[at + i]] == d[at..at + i + 1];
      v := v + d[at + i] * unit;
      unit := 256 * unit;
      i := i + 1;
    }
    assert Take(d[at..at + avail], width) == d[at..at + n];
  }

  /** put_le: the low `width` bytes of `v`, written in place. */
  method PutLE(out: array<byte>, at: nat, v: int, width: nat)
    requires at + width <= out.Length
    modifies out
    ensures out[..] == old(out[..at]) + LE(v, width) + old(out[at + width..])
  {
    var i, rest := 0, v;
    while i < width
      invariant 0 <= i <= width
      invariant out[..at] == old(out[..at])
      invariant out[at + width..] == old(out[at + width..])
      invariant out[at..at + i] + LE(rest, width - i) == LE(v, width)
    {
      ghost var before := out[at..at + i];
      assert LE(rest, width - i) == [rest % 256] + LE(rest / 256, width - i - 1);
      out[at + i] := rest % 256;
      assert out[at..at + i + 1] == before + [rest % 256];
      rest := rest / 256;
      i := i + 1;
    }
    assert out[..] == out[..at] + out[at..at + width] + out[at + width..];
  }
}
