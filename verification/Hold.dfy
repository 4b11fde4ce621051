/** Holding control datapoints against the installation's own regulator
    (main/hold.c): two slots, started and stopped from anywhere, rewritten by one
    task whose writes are in flight while the slots change under it. */
module Hold {
  import opened Bytes
  import opened Text
  import opened Wrappers
  import opened Json
  import opened CodecTree
  import opened CodecEncode
  import Merge
  import JsonSink

  const MAX_S := 3600
  const MAX_W := 6000
  const MAX_FAILS := 5
  const GRID_DID := 2188
  const STORAGE_DID := 2226
  const VALIDITY := 120
  const LIMIT_OPEN := 100000
  const N_SLOTS := 2

  // ---- one slot ----

  /** `flying`: the hold task has read this slot and its write has not returned. */
  datatype Slot = Slot(active: bool, ecu: nat, did: nat, bytes: bytes, deadline: int, writes: nat, fails: nat, flying: bool)

  const IDLE := Slot(false, 0, 0, [], 0, 0, 0, false)

  /** What can happen to slot `i`: a start (with whether writing is enabled and
      the hold task exists), a stop, the hold task looking at it, its write
      returning. Any order. */
  datatype Act =
    | Start(i: nat, ecu: nat, did: nat, bytes: bytes, seconds: nat, allowed: bool, at: int)
    | Stop(i: nat)
    | Look(i: nat, at: int)
    | Answer(i: nat, ok: bool)

  datatype Write = Write(ecu: nat, did: nat, bytes: bytes)

  predicate Accepted(a: Act) {
    a.Start? && 1 <= a.seconds <= MAX_S && a.allowed
  }

  function Deadline(a: Act): int
    requires a.Start?
  {
    a.at + a.seconds * 1000000
  }

  function Step(s: Slot, a: Act): Slot {
    match a
    case Start(_, ecu, did, b, _, _, _) => if Accepted(a) then Slot(true, ecu, did, b, Deadline(a), 0, 0, s.flying) else s
    case Stop(_) => s.(active := false)
    case Look(_, at) =>
      if s.flying || !s.active then s
      else if at < s.deadline then s.(flying := true)
      else s.(active := false)
    case Answer(_, ok) =>
      if !s.flying then s
      else if ok then s.(writes := s.writes + 1, flying := false)
      else s.(fails := s.fails + 1, flying := false, active := s.active && s.fails + 1 < MAX_FAILS)
  }

  /** The write a look chooses. */
  function Chosen(s: Slot, a: Act): Option<Write> {
    if a.Look? && !s.flying && s.active && a.at < s.deadline then Some(Write(s.ecu, s.did, s.bytes)) else None
  }

  /** Slot `i` after a run in which all slots take part. */
  function After(acts: seq<Act>, i: nat): Slot {
    if acts == [] then IDLE
    else
      var s := After(acts[..|acts| - 1], i);
      if acts[|acts| - 1].i == i then Step(s, acts[|acts| - 1]) else s
  }

  function Own(acts: seq<Act>, i: nat): seq<Act> {
    if acts == [] then []
    else Own(acts[..|acts| - 1], i) + if acts[|acts| - 1].i == i then [acts[|acts| - 1]] else []
  }

  /** What happens to one slot does not affect the other. */
  lemma {:induction false} SlotsIndependent(acts: seq<Act>, i: nat)
    ensures After(acts, i) == After(Own(acts, i), i)
  {
    if acts != [] {
      var rest, a := acts[..|acts| - 1], acts[|acts| - 1];
      SlotsIndependent(rest, i);
      if a.i == i {
        var own := Own(acts, i);
        assert own[..|own| - 1] == Own(rest, i);
      } else {
        assert Own(acts, i) == Own(rest, i);
      }
    }
  }

  // ---- what a run says about a slot, without its state ----

  /** The last start of slot `i` that was accepted. */
  function LastStart(acts: seq<Act>, i: nat): (r: Option<nat>)
    ensures r.Some? ==> r.value < |acts| && Accepted(acts[r.value]) && acts[r.value].i == i
    ensures r.Some? ==> forall k | r.value < k < |acts| :: !(Accepted(acts[k]) && acts[k].i == i)
    ensures r.None? ==> forall k | 0 <= k < |acts| :: !(Accepted(acts[k]) && acts[k].i == i)
  {
    if acts == [] then None
    else if Accepted(acts[|acts| - 1]) && acts[|acts| - 1].i == i then Some(|acts| - 1)
    else LastStart(acts[..|acts| - 1], i)
  }

  predicate Returned(acts: seq<Act>, i: nat, k: nat, ok: bool)
    requires k < |acts|
  {
    acts[k] == Answer(i, ok) && After(acts[..k], i).flying
  }

  /** Writes that returned that way since act `j`. */
  function Returns(acts: seq<Act>, i: nat, j: nat, ok: bool): nat {
    if |acts| <= j + 1 then 0
    else Returns(acts[..|acts| - 1], i, j, ok) + if Returned(acts, i, |acts| - 1, ok) then 1 else 0
  }

  /** Neither stopped nor found to be over since act `j`. */
  predicate Undisturbed(acts: seq<Act>, i: nat, j: nat)
    requires j < |acts| && acts[j].Start?
  {
    forall k | j < k < |acts| && acts[k].i == i ::
      !acts[k].Stop? && (acts[k].Look? && !After(acts[..k], i).flying ==> acts[k].at < Deadline(acts[j]))
  }

  predicate Live(acts: seq<Act>, i: nat) {
    var j := LastStart(acts, i);
    j.Some? && Undisturbed(acts, i, j.value) && Returns(acts, i, j.value, false) < 5
  }

  predicate Explained(acts: seq<Act>, i: nat) {
    var (s, j) := (After(acts, i), LastStart(acts, i));
    && (s.active <==> Live(acts, i))
    && (if j.None? then !s.flying && s.fails == 0 && s.writes == 0
        else var a := acts[j.value];
             && s.ecu == a.ecu && s.did == a.did && s.bytes == a.bytes && s.deadline == Deadline(a)
             && s.fails == Returns(acts, i, j.value, false) && s.writes == Returns(acts, i, j.value, true))
  }

  lemma LastStartStep(acts: seq<Act>, a: Act, i: nat)
    ensures LastStart(acts + [a], i) == if Accepted(a) && a.i == i then Some(|acts|) else LastStart(acts, i)
  {
    assert (acts + [a])[..|acts|] == acts;
  }

  lemma ReturnsStep(acts: seq<Act>, a: Act, i: nat, j: nat, ok: bool)
    requires j < |acts|
    ensures Returns(acts + [a], i, j, ok) == Returns(acts, i, j, ok) + if a == Answer(i, ok) && After(acts, i).flying then 1 else 0
  {
    assert (acts + [a])[..|acts|] == acts;
  }

  predicate Harmless(acts: seq<Act>, a: Act, i: nat, j: nat)
    requires j < |acts| && acts[j].Start?
  {
    a.i == i ==> !a.Stop? && (a.Look? && !After(acts, i).flying ==> a.at < Deadline(acts[j]))
  }

  lemma UndisturbedStep(acts: seq<Act>, a: Act, i: nat, j: nat)
    requires j < |acts| && acts[j].Start?
    ensures Undisturbed(acts + [a], i, j) <==> Undisturbed(acts, i, j) && Harmless(acts, a, i, j)
  {
    var all := acts + [a];
    assert all[..|acts|] == acts;
    assert forall k | j < k < |acts| :: all[k] == acts[k] && all[..k] == acts[..k];
    assert all[|acts|] == a;
    if Undisturbed(all, i, j) {
      assert forall k | j < k < |acts| && acts[k].i == i :: all[k].i == i;
    }
  }

  lemma StateStep(acts: seq<Act>, a: Act, i: nat)
    ensures After(acts + [a], i) == if a.i == i then Step(After(acts, i), a) else After(acts, i)
  {
    assert (acts + [a])[..|acts|] == acts;
  }

  lemma JustStarted(acts: seq<Act>, a: Act, i: nat)
    requires Accepted(a) && a.i == i
    ensures Undisturbed(acts + [a], i, |acts|)
    ensures forall ok :: Returns(acts + [a], i, |acts|, ok) == 0
  {
  }

  lemma OneMore(acts: seq<Act>, a: Act, i: nat)
    requires Explained(acts, i)
    ensures Explained(acts + [a], i)
  {
    hide After, LastStart, Returns, Undisturbed;
    StateStep(acts, a, i);
    LastStartStep(acts, a, i);
    var j := LastStart(acts, i);
    if Accepted(a) && a.i == i {
      JustStarted(acts, a, i);
    } else if j.Some? {
      ReturnsStep(acts, a, i, j.value, true);
      ReturnsStep(acts, a, i, j.value, false);
      UndisturbedStep(acts, a, i, j.value);
      assert (acts + [a])[j.value] == acts[j.value];
    }
  }

  /** A slot is active exactly when its last accepted start was neither stopped
      nor found to be over and fewer than five writes have failed since; it
      carries what that start said. */
  lemma {:induction false} ActiveExactly(acts: seq<Act>, i: nat)
    ensures Explained(acts, i)
  {
    if acts != [] {
      ActiveExactly(acts[..|acts| - 1], i);
      OneMore(acts[..|acts| - 1], acts[|acts| - 1], i);
      assert acts[..|acts| - 1] + [acts[|acts| - 1]] == acts;
    }
  }

  /** Every write chosen carries the ECU, the datapoint and the bytes of the
      latest start of its slot, and is chosen before a deadline at most an hour
      after it; none follows a stop, an expiry or a fifth failure until the next
      start. */
  lemma WriteIsOfLatestStart(acts: seq<Act>, at: int, i: nat)
    ensures var w := Chosen(After(acts, i), Look(i, at)); var j := LastStart(acts, i);
      && (w.Some? <==> !After(acts, i).flying && Live(acts, i) && at < Deadline(acts[j.value]))
      && (w.Some? ==> w.value == Write(acts[j.value].ecu, acts[j.value].did, acts[j.value].bytes))
      && (w.Some? ==> at < Deadline(acts[j.value]) <= acts[j.value].at + 3600000000)
  {
    hide After, LastStart, Returns, Undisturbed;
    ActiveExactly(acts, i);
  }

  // ---- a write in flight across a restart ----

  /** No write of slot `i` was chosen since act `j`. */
  predicate NoneChosen(acts: seq<Act>, i: nat, j: nat) {
    forall k | j < k < |acts| && acts[k].i == i :: Chosen(After(acts[..k], i), acts[k]).None?
  }

  /** The write that returns with act `k` was already in flight at act `j`. */
  predicate StaleReturn(acts: seq<Act>, i: nat, j: nat, k: nat, ok: bool)
    requires j < k < |acts|
  {
    Returned(acts, i, k, ok) && NoneChosen(acts[..k], i, j)
  }

  /** Failures, or successes, of writes chosen since act `j`. */
  function OwnReturns(acts: seq<Act>, i: nat, j: nat, ok: bool): nat {
    if |acts| <= j + 1 then 0
    else
      var k := |acts| - 1;
      OwnReturns(acts[..k], i, j, ok) + if Returned(acts, i, k, ok) && !NoneChosen(acts[..k], i, j) then 1 else 0
  }

  function StaleReturns(acts: seq<Act>, i: nat, j: nat, ok: bool): nat {
    if |acts| <= j + 1 then 0
    else
      var k := |acts| - 1;
      StaleReturns(acts[..k], i, j, ok) + if StaleReturn(acts, i, j, k, ok) then 1 else 0
  }

  lemma {:induction false} OwnAndStale(acts: seq<Act>, i: nat, j: nat, ok: bool)
    ensures Returns(acts, i, j, ok) == OwnReturns(acts, i, j, ok) + StaleReturns(acts, i, j, ok)
  {
    if |acts| > j + 1 {
      OwnAndStale(acts[..|acts| - 1], i, j, ok);
    }
  }

  lemma NoneChosenStep(acts: seq<Act>, a: Act, i: nat, j: nat)
    requires j < |acts|
    ensures NoneChosen(acts + [a], i, j) <==> NoneChosen(acts, i, j) && (a.i == i ==> Chosen(After(acts, i), a).None?)
  {
    var all := acts + [a];
    assert forall k | j < k < |acts| :: all[k] == acts[k] && all[..k] == acts[..k];
    assert all[..|acts|] == acts && all[|acts|] == a;
    if NoneChosen(all, i, j) {
      assert forall k | j < k < |acts| && acts[k].i == i :: all[k].i == i;
    }
  }

  /** One task: at most one write in flight can be stale. */
  lemma {:induction false} OneStale(acts: seq<Act>, i: nat, j: nat)
    requires j < |acts|
    ensures StaleReturns(acts, i, j, true) + StaleReturns(acts, i, j, false)
      + (if NoneChosen(acts, i, j) && After(acts, i).flying then 1 else 0) <= 1
  {
    hide NoneChosen, After;
    if |acts| > j + 1 {
      var rest, a := acts[..|acts| - 1], acts[|acts| - 1];
      OneStale(rest, i, j);
      assert rest + [a] == acts;
      NoneChosenStep(rest, a, i, j);
      StateStep(rest, a, i);
    }
  }

  lemma {:induction false} StaleSomewhere(acts: seq<Act>, i: nat, j: nat, ok: bool)
    ensures StaleReturns(acts, i, j, ok) > 0 <==> exists k | j < k < |acts| :: StaleReturn(acts, i, j, k, ok)
  {
    if |acts| > j + 1 {
      var rest := acts[..|acts| - 1];
      StaleSomewhere(rest, i, j, ok);
      forall k | j < k < |rest|
        ensures StaleReturn(rest, i, j, k, ok) <==> StaleReturn(acts, i, j, k, ok)
      {
        assert rest[..k] == acts[..k];
      }
      if k :| j < k < |acts| && StaleReturn(acts, i, j, k, ok) && k < |rest| {
        assert StaleReturn(rest, i, j, k, ok);
      }
    }
  }

  /** The failures counted are those of writes chosen since the last start,
      exactly unless a write in flight at that start has since failed: then they
      are one more. */
  lemma FailuresCounted(acts: seq<Act>, i: nat)
    requires LastStart(acts, i).Some?
    ensures var j := LastStart(acts, i).value; var own := OwnReturns(acts, i, j, false);
      && (After(acts, i).fails == own <==> !exists k | j < k < |acts| :: StaleReturn(acts, i, j, k, false))
      && After(acts, i).fails <= own + 1
  {
    hide After, LastStart, Returns, Undisturbed, OwnReturns, StaleReturns, StaleReturn;
    ActiveExactly(acts, i);
    var j := LastStart(acts, i).value;
    OwnAndStale(acts, i, j, false);
    OneStale(acts, i, j);
    StaleSomewhere(acts, i, j, false);
  }

  /** Such a run: the old hold's write fails against the new hold. */
  lemma OldFailureCounted(a: Act, b: Act, c: Act)
    requires Accepted(a) && Accepted(c) && a.i == c.i == b.i && b.Look? && b.at < Deadline(a)
    ensures var s := After([a, b, c, Answer(c.i, false)], c.i);
      s.fails == 1 && s.active && s.bytes == c.bytes
    ensures OwnReturns([a, b, c, Answer(c.i, false)], c.i, 2, false) == 0
  {
    var i := c.i;
    hide After;
    StateStep([], a, i);
    StateStep([a], b, i);
    StateStep([a, b], c, i);
    StateStep([a, b, c], Answer(i, false), i);
    NothingYet(i);
    assert [] + [a] == [a] && [a] + [b] == [a, b] && [a, b] + [c] == [a, b, c];
    var acts := [a, b, c, Answer(i, false)];
    assert [a, b, c] + [Answer(i, false)] == acts && acts[..3] == [a, b, c];
    assert NoneChosen(acts[..3], i, 2);
  }

  lemma NothingYet(i: nat)
    ensures After([], i) == IDLE
  {
  }

  // ---- what is held ----

  datatype StorageMode = Normal | StandStill | ChargeOnly | DischargeOnly

  /** Watts in sixteen bits and the trailing validity. */
  function GridBytes(w: int): (b: bytes)
    ensures |b| == 6
  {
    LE(w, 2) + LE(VALIDITY, 4)
  }

  function StorageBytes(m: StorageMode): (b: bytes)
    ensures |b| == 12
  {
    LE(if m == Normal || m == ChargeOnly then LIMIT_OPEN else 0, 4)
    + LE(if m == Normal || m == DischargeOnly then LIMIT_OPEN else 0, 4) + LE(VALIDITY, 4)
  }

  /** A start is accepted for one second to an hour, if it is allowed, and lasts that
      long. */
  lemma StartMeans(i: nat, ecu: nat, did: nat, b: bytes, seconds: nat, allowed: bool, at: int)
    ensures var a := Start(i, ecu, did, b, seconds, allowed, at);
      && (Accepted(a) <==> 1 <= seconds <= 3600 && allowed) && Deadline(a) == at + 1000000 * seconds
      && (Accepted(a) ==> forall s: Slot :: Step(s, a) == Slot(true, ecu, did, b, at + 1000000 * seconds, 0, 0, s.flying))
      && (!Accepted(a) ==> forall s: Slot :: Step(s, a) == s)
  {
  }

  /** The bytes held are the watts asked for, sign and all. */
  lemma GridBytesMean(w: int)
    requires -6000 <= w <= 6000
    ensures ReadInt(GridBytes(w)[..2], true) == w && ReadInt(GridBytes(w)[2..], true) == 120
  {
    Pow256Eight();
    FromLEofLE(w, 2);
    FromLEofLE(VALIDITY, 4);
    assert GridBytes(w)[..2] == LE(w, 2) && GridBytes(w)[2..] == LE(VALIDITY, 4);
  }

  /** Zero, or what the manager itself writes, in each direction. */
  lemma StorageBytesMean(m: StorageMode)
    ensures var b := StorageBytes(m);
      && ReadInt(b[..4], true) == (if m == StandStill || m == DischargeOnly then 0 else 100000)
      && ReadInt(b[4..8], true) == (if m == StandStill || m == ChargeOnly then 0 else 100000)
      && ReadInt(b[8..], true) == 120
  {
    Pow256Eight();
    FromLEofLE(LIMIT_OPEN, 4);
    FromLEofLE(0, 4);
    FromLEofLE(VALIDITY, 4);
    var b := StorageBytes(m);
    var x, y := LE(if m == Normal || m == ChargeOnly then LIMIT_OPEN else 0, 4), LE(if m == Normal || m == DischargeOnly then LIMIT_OPEN else 0, 4);
    assert b[..4] == x && b[4..8] == y && b[8..] == LE(VALIDITY, 4);
  }

  /** as_json: a hex string in quotes, as far as the buffer goes. */
  method AsJson(b: bytes, size: nat) returns (out: string)
    requires size >= 2
    ensures 2 * |b| + 2 < size ==> out == "\"" + HexText(b) + "\""
  {
    hide HexText;
    out := "\"";
    var i: nat := 0;
    assert b[0..] == b;
    while i < |b| && |out| + 3 < size
      invariant i <= |b| && |out| == 2 * i + 1 && |out| < size
      invariant out + HexText(b[i..]) == "\"" + HexText(b)
    {
      ghost var rest := HexText(b[i + 1..]);
      HexFront(b, i);
      assert out + ([HexDigit(b[i] / 16), HexDigit(b[i] % 16)] + rest) == out + [HexDigit(b[i] / 16), HexDigit(b[i] % 16)] + rest;
      out := out + [HexDigit(b[i] / 16), HexDigit(b[i] % 16)];
      i := i + 1;
    }
    HexEnd();
    assert i == |b| ==> b[i..] == [] && out + "" == out;
    if |out| + 1 < size {
      out := out + "\"";
    }
  }

  lemma {:induction false} HexIsPlain(b: bytes)
    ensures JsonSink.Escape(HexText(b)) == HexText(b)
  {
    if b != [] {
      var (h, l) := (HexDigit(b[0] / 16), HexDigit(b[0] % 16));
      var t := HexText(b);
      assert t[1..] == [l] + HexText(b[1..]) && t[1..][1..] == HexText(b[1..]);
      JsonSink.EscapeFront(t);
      JsonSink.EscapeFront(t[1..]);
      PlainDigit(b[0] / 16);
      PlainDigit(b[0] % 16);
      HexIsPlain(b[1..]);
    }
  }

  lemma PlainDigit(n: nat)
    requires n < 16
    ensures JsonSink.EscapeChar(HexDigit(n)) == [HexDigit(n)]
  {
  }

  /** The held bytes come out of the hex text and the raw encoder unchanged,
      exactly when the datapoint is a raw one of that length. */
  lemma RawPassesBytes(env: Env, n: Node, b: bytes)
    requires Sized(n) && n.kind == Raw
    ensures JsonSink.Unquote(HexText(b) + "\"") == Some((HexText(b), ""))
    ensures Encode(env, n, VStr(HexText(b))) == if n.len == |b| then Ok(b) else Err(WrongHexLength)
  {
    HexIsPlain(b);
    JsonSink.LiteralReadsBack(HexText(b), "");
    assert HexText(b) + "\"" + "" == HexText(b) + "\"";
    HexRoundTrip(b);
  }

  /** What the hold task does with a slot it has chosen, up to the write itself: the
      payload is the held bytes, or nothing is sent. */
  method PayloadOf(env: Env, enabled: bool, node: Option<Node>, readWrite: bool, raw: bytes, held: bytes) returns (r: Option<bytes>)
    requires |held| <= 12 && (node.Some? ==> Sized(node.value) && node.value.kind == Raw)
    ensures r == if enabled && node.Some? && node.value.len == |held| then Some(held) else None
  {
    var json := AsJson(held, 40);
    var value := None;
    if json[0] == '"' {
      assert json[1..] == HexText(held) + "\"";
      if node.Some? {
        RawPassesBytes(env, node.value, held);
      }
      var lit := JsonSink.Unquote(json[1..]);
      value := if lit.Some? then Some(VStr(lit.value.0)) else None;
    }
    var w := Merge.WriteNow(env, enabled, node, readWrite, true, raw, value);
    r := if w.Ok? then Some(w.value) else None;
  }

  // ---- the code ----

  class Holder {
    const slots: array<Slot>
    var gridWatts: int
    var storageMode: StorageMode

    constructor ()
      ensures fresh(slots) && slots.Length == N_SLOTS && slots[0] == slots[1] == IDLE
    {
      slots := new Slot[N_SLOTS](_ => IDLE);
      gridWatts, storageMode := 0, Normal;
    }

    method SlotStart(i: nat, ecu: nat, did: nat, b: bytes, seconds: nat, allowed: bool, at: int) returns (ok: bool)
      requires i < slots.Length
      modifies slots
      ensures var a := Start(i, ecu, did, b, seconds, allowed, at);
        ok == Accepted(a) && slots[..] == old(slots[..])[i := Step(old(slots[i]), a)]
    {
      if seconds == 0 || seconds > MAX_S || !allowed {
        return false;
      }
      var s := slots[i];
      s := s.(ecu := ecu, did := did, bytes := b);
      s := s.(deadline := at + seconds * 1000000);
      s := s.(writes := 0, fails := 0);
      slots[i] := s.(active := true);
      ok := true;
    }

    method SlotStop(i: nat) returns (was: bool)
      requires i < slots.Length
      modifies slots
      ensures was == old(slots[i].active) && slots[..] == old(slots[..])[i := Step(old(slots[i]), Stop(i))]
    {
      was := slots[i].active;
      slots[i] := slots[i].(active := false);
    }

    /** The look at a slot, under the lock; the snapshot is what it writes. */
    method LookAt(i: nat, at: int) returns (w: Option<Write>)
      requires i < slots.Length && !slots[i].flying
      modifies slots
      ensures w == Chosen(old(slots[i]), Look(i, at))
      ensures slots[..] == old(slots[..])[i := Step(old(slots[i]), Look(i, at))]
    {
      var s := slots[i];
      var run := s.active && at < s.deadline;
      var expired := s.active && !run;
      if expired {
        slots[i] := slots[i].(active := false);
      }
      if !run {
        return None;
      }
      slots[i] := slots[i].(flying := true);
      w := Some(Write(s.ecu, s.did, s.bytes));
    }

    /** The write has returned: count it, and give up after five failures. */
    method Report(i: nat, ok: bool) returns (gaveUp: bool)
      requires i < slots.Length && slots[i].flying
      modifies slots
      ensures slots[..] == old(slots[..])[i := Step(old(slots[i]), Answer(i, ok))]
      ensures gaveUp == (!ok && old(slots[i].fails) + 1 >= MAX_FAILS)
    {
      gaveUp := false;
      if ok {
        slots[i] := slots[i].(writes := slots[i].writes + 1, flying := false);
      } else {
        slots[i] := slots[i].(fails := slots[i].fails + 1, flying := false);
        gaveUp := slots[i].fails >= MAX_FAILS;
        if gaveUp {
          slots[i] := slots[i].(active := false);
        }
      }
    }

    method GridStart(ecu: nat, w: int, seconds: nat, allowed: bool, at: int) returns (ok: bool)
      requires slots.Length == N_SLOTS
      modifies this`gridWatts, slots
      ensures gridWatts == if -6000 <= w <= 6000 then w else old(gridWatts)
      ensures var a := Start(0, ecu, 2188, GridBytes(w), seconds, allowed, at); var fits := -6000 <= w <= 6000;
        && ok == (fits && Accepted(a))
        && slots[..] == if fits then old(slots[..])[0 := Step(old(slots[0]), a)] else old(slots[..])
    {
      if w > MAX_W || w < -MAX_W {
        return false;
      }
      gridWatts := w;
      ok := SlotStart(0, ecu, GRID_DID, LE(w, 2) + LE(VALIDITY, 4), seconds, allowed, at);
    }

    method StorageStart(ecu: nat, m: StorageMode, seconds: nat, allowed: bool, at: int) returns (ok: bool)
      requires slots.Length == N_SLOTS
      modifies this`storageMode, slots
      ensures storageMode == m
      ensures var a := if m == Normal then Stop(1) else Start(1, ecu, 2226, StorageBytes(m), seconds, allowed, at);
        && ok == (m == Normal || Accepted(a))
        && slots[..] == old(slots[..])[1 := Step(old(slots[1]), a)]
    {
      storageMode := m;
      if m == Normal {
        var was := SlotStop(1);
        return true;
      }
      var charge := if m == DischargeOnly then 0 else LIMIT_OPEN;
      var discharge := if m == ChargeOnly then 0 else LIMIT_OPEN;
      if m == StandStill {
        charge, discharge := 0, 0;
      }
      ok := SlotStart(1, ecu, STORAGE_DID, LE(charge, 4) + LE(discharge, 4) + LE(VALIDITY, 4), seconds, allowed, at);
    }
  }
}
