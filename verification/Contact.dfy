/** The debouncer of main/contact.c: fast attack, slow release, on a 32-bit
    millisecond counter. */
module Contact {
  import opened Bytes

  const ATTACK := 2

  datatype Deb = Deb(active: bool, run: nat, last: nat, since: nat, edges: nat)

  datatype Sample = Sample(raw: bool, at: nat)

  // ---- over unbounded time ----

  function Reset(t0: nat): Deb {
    Deb(false, 0, t0, t0, 0)
  }

  function Step(d: Deb, x: Sample, release: nat): Deb {
    var run := if x.raw then (if d.run < ATTACK then d.run + 1 else d.run) else 0;
    var last := if x.raw then x.at else d.last;
    var active := if x.raw then d.active || run >= ATTACK else d.active && x.at - d.last < release;
    if active == d.active then d.(run := run, last := last)
    else Deb(active, run, last, x.at, if active then d.edges + 1 else d.edges)
  }

  function After(t0: nat, xs: seq<Sample>, release: nat): Deb {
    if xs == [] then Reset(t0) else Step(After(t0, xs[..|xs| - 1], release), xs[|xs| - 1], release)
  }

  // ---- on the counter that wraps ----

  function Step32(d: Deb, raw: bool, now: nat, release: nat): Deb {
    var run := if raw then (if d.run < ATTACK then d.run + 1 else d.run) else 0;
    var last := if raw then now else d.last;
    var active := if raw then d.active || run >= ATTACK else d.active && (now - d.last) % TWO32 < release;
    if active == d.active then d.(run := run, last := last)
    else Deb(active, run, last, now, if active then (d.edges + 1) % TWO32 else d.edges)
  }

  function After32(t0: nat, xs: seq<Sample>, release: nat): Deb {
    if xs == [] then Reset(t0 % TWO32)
    else Step32(After32(t0, xs[..|xs| - 1], release), xs[|xs| - 1].raw, xs[|xs| - 1].at % TWO32, release)
  }

  function Wrapped(d: Deb): Deb {
    d.(last := d.last % TWO32, since := d.since % TWO32, edges := d.edges % TWO32)
  }

  /** The clock does not go back. */
  predicate Ordered(t0: nat, xs: seq<Sample>) {
    && (forall i | 0 <= i < |xs| :: t0 <= xs[i].at)
    && (forall i, j | 0 <= i < j < |xs| :: xs[i].at <= xs[j].at)
  }

  function Previous(t0: nat, xs: seq<Sample>, i: nat): nat
    requires i < |xs|
  {
    if i == 0 then t0 else xs[i - 1].at
  }

  /** Samples come often enough for the counter not to lap the release time. */
  predicate Frequent(t0: nat, xs: seq<Sample>, release: nat) {
    forall i | 0 <= i < |xs| :: xs[i].at - Previous(t0, xs, i) + release < TWO32
  }

  lemma Prefix(t0: nat, xs: seq<Sample>, release: nat)
    requires xs != []
    ensures Ordered(t0, xs) ==> Ordered(t0, xs[..|xs| - 1])
    ensures Frequent(t0, xs, release) ==> Frequent(t0, xs[..|xs| - 1], release)
  {
    var ys := xs[..|xs| - 1];
    forall i | 0 <= i < |ys|
      ensures Previous(t0, ys, i) == Previous(t0, xs, i) && ys[i] == xs[i]
    {
    }
  }

  /** Time since the last active sample, seen while still active, stays small. */
  lemma {:induction false} NotYetReleased(t0: nat, xs: seq<Sample>, release: nat)
    requires Ordered(t0, xs)
    ensures var d := After(t0, xs, release); var t := if xs == [] then t0 else xs[|xs| - 1].at;
      d.last <= t && (d.active ==> t == d.last || t - d.last < release)
  {
    if xs != [] {
      Prefix(t0, xs, release);
      NotYetReleased(t0, xs[..|xs| - 1], release);
    }
  }

  lemma WrapStep(d: Deb, x: Sample, release: nat)
    requires d.last <= x.at && (d.active ==> x.at - d.last < TWO32)
    ensures Step32(Wrapped(d), x.raw, x.at % TWO32, release) == Wrapped(Step(d, x, release))
  {
    Elapsed(x.at, d.last);
    assert (d.edges % TWO32 + 1) % TWO32 == (d.edges + 1) % TWO32;
  }

  lemma Elapsed(t: nat, s: nat)
    requires s <= t
    ensures (t % TWO32 - s % TWO32) % TWO32 == (t - s) % TWO32
    ensures t - s < TWO32 ==> (t - s) % TWO32 == t - s
  {
  }

  /** The wrapping counter makes no difference at all. */
  lemma {:induction false} WrapIsHarmless(t0: nat, xs: seq<Sample>, release: nat)
    requires Ordered(t0, xs) && Frequent(t0, xs, release) && release <= 0xFFFF
    ensures After32(t0, xs, release) == Wrapped(After(t0, xs, release))
  {
    if xs != [] {
      var ys := xs[..|xs| - 1];
      Prefix(t0, xs, release);
      WrapIsHarmless(t0, ys, release);
      NotYetReleased(t0, ys, release);
      assert Previous(t0, xs, |xs| - 1) == if ys == [] then t0 else ys[|ys| - 1].at;
      WrapStep(After(t0, ys, release), xs[|xs| - 1], release);
    }
  }

  // ---- what the debounced state says about the samples ----

  predicate Activated(t0: nat, xs: seq<Sample>, release: nat, k: nat)
    requires k < |xs|
  {
    !After(t0, xs[..k], release).active && After(t0, xs[..k + 1], release).active
  }

  predicate Released(t0: nat, xs: seq<Sample>, release: nat, k: nat)
    requires k < |xs|
  {
    After(t0, xs[..k], release).active && !After(t0, xs[..k + 1], release).active
  }

  lemma OneStep(t0: nat, xs: seq<Sample>, release: nat, k: nat)
    requires k < |xs|
    ensures After(t0, xs[..k + 1], release) == Step(After(t0, xs[..k], release), xs[k], release)
  {
    assert xs[..k + 1][..k] == xs[..k];
  }

  /** `run` counts the active samples just before, up to two. */
  lemma {:induction false} RunIs(t0: nat, xs: seq<Sample>, release: nat)
    ensures var n := |xs|; var r := After(t0, xs, release).run;
      && (r == 0 <==> n == 0 || !xs[n - 1].raw)
      && (r >= ATTACK <==> n >= 2 && xs[n - 1].raw && xs[n - 2].raw)
      && r <= ATTACK
  {
    if xs != [] {
      RunIs(t0, xs[..|xs| - 1], release);
    }
  }

  /** Two adjacent active samples activate, and nothing else does. */
  lemma ActivatedExactly(t0: nat, xs: seq<Sample>, release: nat, k: nat)
    requires k < |xs|
    ensures Activated(t0, xs, release, k) <==>
      (!After(t0, xs[..k], release).active && k > 0 && xs[k].raw && xs[k - 1].raw)
  {
    OneStep(t0, xs, release, k);
    RunIs(t0, xs[..k], release);
    RunIs(t0, xs[..k + 1], release);
  }

  predicate LastActive(xs: seq<Sample>, n: nat, p: nat)
    requires n <= |xs|
  {
    p < n && xs[p].raw && forall q | p < q < n :: !xs[q].raw
  }

  /** While active, `last` is the time of the last active sample. */
  lemma {:induction false} LastIs(t0: nat, xs: seq<Sample>, release: nat, n: nat) returns (p: nat)
    requires n <= |xs|
    ensures var d := After(t0, xs[..n], release); d.active || d.run > 0 ==> LastActive(xs, n, p) && d.last == xs[p].at
    decreases n
  {
    p := 0;
    if n > 0 {
      p := LastIs(t0, xs, release, n - 1);
      OneStep(t0, xs, release, n - 1);
      if xs[n - 1].raw {
        p := n - 1;
      }
    }
  }

  /** A release comes on an inactive sample at least `release` after the last
      active one; on every such sample while active, it comes. */
  lemma ReleasedExactly(t0: nat, xs: seq<Sample>, release: nat, k: nat) returns (p: nat)
    requires k < |xs|
    ensures After(t0, xs[..k], release).active ==> LastActive(xs, k, p)
    ensures Released(t0, xs, release, k) <==>
      (After(t0, xs[..k], release).active && !xs[k].raw && xs[k].at - xs[p].at >= release)
  {
    OneStep(t0, xs, release, k);
    p := LastIs(t0, xs, release, k);
    if !(After(t0, xs[..k], release).active) {
      p := 0;
    }
  }

  lemma {:induction false} ReleaseBetween(t0: nat, xs: seq<Sample>, release: nat, i: nat, j: nat) returns (m: nat)
    requires i < j <= |xs| && After(t0, xs[..i + 1], release).active && !After(t0, xs[..j], release).active
    ensures i < m < j && Released(t0, xs, release, m)
    decreases j - i
  {
    if After(t0, xs[..j - 1], release).active {
      m := j - 1;
    } else {
      m := ReleaseBetween(t0, xs, release, i, j - 1);
    }
  }

  /** Between two activations there was a quiet time of `release`. */
  lemma QuietBetween(t0: nat, xs: seq<Sample>, release: nat, i: nat, j: nat) returns (p: nat, m: nat)
    requires i < j < |xs| && Activated(t0, xs, release, i) && Activated(t0, xs, release, j)
    ensures i <= p < m < j - 1 && LastActive(xs, m, p) && !xs[m].raw && xs[m].at - xs[p].at >= release
    ensures xs[j - 1].raw
  {
    m := ReleaseBetween(t0, xs, release, i, j);
    p := ReleasedExactly(t0, xs, release, m);
    ActivatedExactly(t0, xs, release, i);
    ActivatedExactly(t0, xs, release, j);
  }

  /** Activations are at least `release` apart; more, when the clock moves from
      one sample to the next. */
  lemma ActivationsApart(t0: nat, xs: seq<Sample>, release: nat, i: nat, j: nat)
    requires Ordered(t0, xs) && i < j < |xs| && Activated(t0, xs, release, i) && Activated(t0, xs, release, j)
    ensures xs[j].at - xs[i].at >= release
    ensures xs[j - 1].at < xs[j].at ==> xs[j].at - xs[i].at > release
  {
    var p, m := QuietBetween(t0, xs, release, i, j);
    assert xs[i].at <= xs[p].at && xs[m].at <= xs[j - 1].at <= xs[j].at by {
      assert i < p ==> xs[i].at <= xs[p].at;
    }
  }

  // ---- counting rings ----

  /** Active samples with none between them are less than `release` apart. */
  predicate Close(xs: seq<Sample>, release: nat) {
    forall p, q | 0 <= p < q < |xs| && xs[q].raw && LastActive(xs, q, p) :: xs[q].at - xs[p].at < release
  }

  lemma {:induction false} NextActive(xs: seq<Sample>, m: nat, j: nat) returns (q: nat)
    requires m <= j < |xs| && xs[j].raw
    ensures m <= q <= j && xs[q].raw && forall k | m <= k < q :: !xs[k].raw
    decreases j - m
  {
    if xs[m].raw {
      q := m;
    } else {
      q := NextActive(xs, m + 1, j);
    }
  }

  /** A signal that keeps coming back within `release` never activates twice. */
  lemma NoSecondActivation(t0: nat, xs: seq<Sample>, release: nat, i: nat, j: nat)
    requires Ordered(t0, xs) && Close(xs, release) && i < j < |xs|
    requires Activated(t0, xs, release, i)
    ensures !Activated(t0, xs, release, j)
  {
    if Activated(t0, xs, release, j) {
      var p, m := QuietBetween(t0, xs, release, i, j);
      var q := NextActive(xs, m, j - 1);
      assert LastActive(xs, q, p);
    }
  }

  /** Every counted edge is an activation. */
  lemma {:induction false} EdgesCounted(t0: nat, xs: seq<Sample>, release: nat, n: nat) returns (ks: seq<nat>)
    requires n <= |xs|
    ensures |ks| == After(t0, xs[..n], release).edges
    ensures forall a | 0 <= a < |ks| :: ks[a] < n && Activated(t0, xs, release, ks[a])
    ensures forall a, b | 0 <= a < b < |ks| :: ks[a] < ks[b]
    ensures forall k | 0 <= k < n && Activated(t0, xs, release, k) :: k in ks
    decreases n
  {
    ks := [];
    if n > 0 {
      ks := EdgesCounted(t0, xs, release, n - 1);
      OneStep(t0, xs, release, n - 1);
      if Activated(t0, xs, release, n - 1) {
        ks := ks + [n - 1];
      }
    }
  }

  lemma OneRing(t0: nat, xs: seq<Sample>, release: nat)
    requires Ordered(t0, xs) && Close(xs, release)
    ensures After(t0, xs, release).edges <= 1
  {
    var ks := EdgesCounted(t0, xs, release, |xs|);
    assert xs[..|xs|] == xs;
    if |ks| > 1 {
      NoSecondActivation(t0, xs, release, ks[0], ks[1]);
    }
  }

  // ---- the code ----

  class Debouncer {
    var active: bool
    var run: nat
    var lastActiveMs: nat
    var sinceMs: nat
    var edges: nat

    function State(): Deb
      reads this
    {
      Deb(active, run, lastActiveMs, sinceMs, edges)
    }

    constructor (now: nat)
      ensures State() == Reset(now)
    {
      active, run, edges := false, 0, 0;
      sinceMs, lastActiveMs := now, now;
    }

    method Feed(raw: bool, now: nat, release: nat) returns (changed: bool)
      modifies this
      ensures State() == Step32(old(State()), raw, now, release)
      ensures changed == (active != old(active))
    {
      var was := active;
      if raw {
        lastActiveMs := now;
        if run < ATTACK {
          run := run + 1;
        }
        if run >= ATTACK {
          active := true;
        }
      } else {
        run := 0;
        if active && (now - lastActiveMs) % TWO32 >= release {
          active := false;
        }
      }
      if active == was {
        return false;
      }
      sinceMs := now;
      if active {
        edges := (edges + 1) % TWO32;
      }
      changed := true;
    }
  }
}
