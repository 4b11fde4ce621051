/** The statistics per identifier (main/cantrace.h): what they say of the frames
    recorded, in every mode, before and after the trigger. */
module TraceStats {
  import opened Bytes
  import opened Wrappers
  import opened CanTrace

  function Heard(h: seq<Rec>, key: nat): nat {
    if h == [] then 0 else Heard(h[..|h| - 1], key) + if Key(h[|h| - 1].frame) == key then 1 else 0
  }

  predicate FirstFrame(h: seq<Rec>, key: nat, i: nat) {
    i < |h| && Key(h[i].frame) == key && forall j | 0 <= j < i :: Key(h[j].frame) != key
  }

  /** Frame i differs in byte k from the one of this identifier before it. */
  ghost predicate Differs(h: seq<Rec>, key: nat, k: nat, i: nat)
    requires i < |h| && k < 8
  {
    exists p: nat | p < i :: LastFrame(h[..i], key, p) && h[p].frame.data[k] != h[i].frame.data[k]
  }

  /** It does, and it came while learning. */
  ghost predicate Changed(h: seq<Rec>, key: nat, k: nat, i: nat)
    requires k < 8
  {
    i < |h| && Key(h[i].frame) == key && h[i].learning && Differs(h, key, k, i)
  }

  ghost predicate FirstTold(h: seq<Rec>, key: nat, st: Stat) {
    exists i: nat :: FirstFrame(h, key, i) &&
      st.id == h[i].frame.id && st.firstUs == h[i].frame.us && st.first == h[i].frame.data && st.dlc == h[i].frame.dlc
  }

  /** The time of the last frame is told only if it is not the first one too. */
  ghost predicate LastTold(h: seq<Rec>, key: nat, st: Stat) {
    exists i: nat :: LastFrame(h, key, i) &&
      st.last == h[i].frame.data && st.lastUs == if Heard(h, key) == 1 then 0 else h[i].frame.us
  }

  /** Counted are the frames after the first. */
  predicate CountTold(h: seq<Rec>, key: nat, st: Stat) {
    Heard(h, key) >= 1 && st.count == (Heard(h, key) - 1) % 0x1_0000_0000
  }

  ghost predicate ChangesTold(h: seq<Rec>, key: nat, st: Stat) {
    forall k | 0 <= k < 8 :: st.varying[k] <==> exists i: nat :: Changed(h, key, k, i)
  }

  ghost predicate Tells(h: seq<Rec>, key: nat, st: Stat) {
    FirstTold(h, key, st) && LastTold(h, key, st) && CountTold(h, key, st) && ChangesTold(h, key, st)
  }

  ghost predicate AllTell(h: seq<Rec>, t: map<nat, Stat>) {
    t.Keys == Tracked(h) && forall key | key in t :: Tells(h, key, t[key])
  }

  // ---- one more frame ----

  lemma HeardMore(h: seq<Rec>, r: Rec, key: nat)
    ensures Heard(h + [r], key) == Heard(h, key) + if Key(r.frame) == key then 1 else 0
  {
    assert (h + [r])[..|h|] == h;
  }

  lemma {:induction false} NotHeard(h: seq<Rec>, key: nat)
    requires Unheard(h, key)
    ensures Heard(h, key) == 0
  {
    if h != [] {
      assert forall i | 0 <= i < |h| - 1 :: h[..|h| - 1][i] == h[i];
      NotHeard(h[..|h| - 1], key);
    }
  }

  lemma FirstStays(h: seq<Rec>, r: Rec, key: nat, i: nat)
    requires FirstFrame(h, key, i)
    ensures FirstFrame(h + [r], key, i)
  {
  }

  lemma DiffersMore(h: seq<Rec>, r: Rec, key: nat, k: nat, i: nat)
    requires i < |h| && k < 8
    ensures Differs(h + [r], key, k, i) <==> Differs(h, key, k, i)
  {
    var h' := h + [r];
    assert h'[..i] == h[..i];
    assert forall p | 0 <= p <= i :: h'[p] == h[p];
  }

  lemma ChangedMore(h: seq<Rec>, r: Rec, key: nat, k: nat, i: nat)
    requires k < 8 && i != |h|
    ensures Changed(h + [r], key, k, i) <==> Changed(h, key, k, i)
  {
    hide Differs;
    if i < |h| {
      DiffersMore(h, r, key, k, i);
    }
  }

  /** The new frame changes byte k if it differs from the last one. */
  lemma ChangedNow(h: seq<Rec>, r: Rec, key: nat, k: nat, p: nat)
    requires k < 8 && LastFrame(h, key, p)
    ensures Changed(h + [r], key, k, |h|) <==>
              Key(r.frame) == key && r.learning && h[p].frame.data[k] != r.frame.data[k]
  {
    var h' := h + [r];
    assert h'[..|h|] == h && h'[p] == h[p];
    if Differs(h', key, k, |h|) {
      var q: nat :| q < |h| && LastFrame(h'[..|h|], key, q) && h'[q].frame.data[k] != h'[|h|].frame.data[k];
      assert q == p;
    }
  }

  lemma NeverChanged(h: seq<Rec>, r: Rec, key: nat, k: nat, i: nat)
    requires k < 8 && Unheard(h, key)
    ensures !Changed(h + [r], key, k, i)
  {
    var h' := h + [r];
    if i < |h| {
      assert h'[i] == h[i];
    } else if i == |h| {
      assert h'[..i] == h;
    }
  }

  lemma OtherTells(h: seq<Rec>, r: Rec, key: nat, st: Stat)
    requires Tells(h, key, st) && Key(r.frame) != key
    ensures Tells(h + [r], key, st)
  {
    hide Changed, Heard;
    var h' := h + [r];
    HeardMore(h, r, key);
    var i: nat :| FirstFrame(h, key, i) && st.id == h[i].frame.id && st.firstUs == h[i].frame.us && st.first == h[i].frame.data && st.dlc == h[i].frame.dlc;
    FirstStays(h, r, key, i);
    assert h'[i] == h[i];
    var j: nat :| LastFrame(h, key, j) && st.last == h[j].frame.data && st.lastUs == if Heard(h, key) == 1 then 0 else h[j].frame.us;
    assert LastFrame(h', key, j) && h'[j] == h[j];
    OtherChanges(h, r, key, st, j);
  }

  lemma OtherChanges(h: seq<Rec>, r: Rec, key: nat, st: Stat, p: nat)
    requires ChangesTold(h, key, st) && Key(r.frame) != key && LastFrame(h, key, p)
    ensures ChangesTold(h + [r], key, st)
  {
    hide Changed;
    forall k | 0 <= k < 8
      ensures st.varying[k] <==> exists i: nat :: Changed(h + [r], key, k, i)
    {
      ChangedNow(h, r, key, k, p);
      forall i: nat | i != |h|
        ensures Changed(h + [r], key, k, i) <==> Changed(h, key, k, i)
      {
        ChangedMore(h, r, key, k, i);
      }
      assert !Changed(h, key, k, |h|) by { OutOfRange(h, key, k); }
    }
  }

  lemma OutOfRange(h: seq<Rec>, key: nat, k: nat)
    requires k < 8
    ensures !Changed(h, key, k, |h|)
  {
  }

  lemma LearnedTells(h: seq<Rec>, r: Rec, st: Stat)
    requires Tells(h, Key(r.frame), st)
    ensures Tells(h + [r], Key(r.frame), Learned(st, r))
  {
    hide Changed, Heard;
    var h', key, st' := h + [r], Key(r.frame), Learned(st, r);
    HeardMore(h, r, key);
    var i: nat :| FirstFrame(h, key, i) && st.id == h[i].frame.id && st.firstUs == h[i].frame.us && st.first == h[i].frame.data && st.dlc == h[i].frame.dlc;
    FirstStays(h, r, key, i);
    assert h'[i] == h[i];
    var j: nat :| LastFrame(h, key, j) && st.last == h[j].frame.data && st.lastUs == if Heard(h, key) == 1 then 0 else h[j].frame.us;
    assert LastFrame(h', key, |h|) && h'[|h|] == r;
    CountStep(Heard(h, key), st.count);
    LearnedChanges(h, r, st, j);
  }

  lemma CountStep(n: nat, count: nat)
    requires n >= 1 && count == (n - 1) % 0x1_0000_0000
    ensures (count + 1) % 0x1_0000_0000 == n % 0x1_0000_0000
  {
  }

  lemma LearnedChanges(h: seq<Rec>, r: Rec, st: Stat, p: nat)
    requires ChangesTold(h, Key(r.frame), st) && LastFrame(h, Key(r.frame), p) && st.last == h[p].frame.data
    ensures ChangesTold(h + [r], Key(r.frame), Learned(st, r))
  {
    hide Changed;
    var h', key, st' := h + [r], Key(r.frame), Learned(st, r);
    forall k | 0 <= k < 8
      ensures st'.varying[k] <==> exists i: nat :: Changed(h', key, k, i)
    {
      ChangedNow(h, r, key, k, p);
      forall i: nat | i != |h|
        ensures Changed(h', key, k, i) <==> Changed(h, key, k, i)
      {
        ChangedMore(h, r, key, k, i);
      }
      OutOfRange(h, key, k);
    }
  }

  lemma NewTells(h: seq<Rec>, r: Rec)
    requires Unheard(h, Key(r.frame))
    ensures Tells(h + [r], Key(r.frame), NewStat(r.frame))
  {
    hide Changed, Heard;
    var h', key := h + [r], Key(r.frame);
    NotHeard(h, key);
    HeardMore(h, r, key);
    assert h'[|h|] == r;
    assert FirstFrame(h', key, |h|) && LastFrame(h', key, |h|);
    forall k, i: nat | 0 <= k < 8
      ensures !Changed(h', key, k, i)
    {
      NeverChanged(h, r, key, k, i);
    }
  }

  lemma NotedTells(h: seq<Rec>, t: map<nat, Stat>, r: Rec)
    requires AllTell(h, t)
    ensures AllTell(h + [r], Noted(t, r))
  {
    hide Tells, Learned, NewStat, Unheard;
    var key, t', h' := Key(r.frame), Noted(t, r), h + [r];
    assert h'[..|h|] == h;
    assert |t| == |t.Keys|;
    assert t'.Keys == Tracked(h');
    forall o | o in t'
      ensures Tells(h', o, t'[o])
    {
      if o != key {
        OtherTells(h, r, o, t[o]);
      } else if key in t {
        LearnedTells(h, r, t[key]);
      } else {
        RoomIsUnheard(h, key);
        NewTells(h, r);
      }
    }
  }

  // ---- whole captures ----

  /** For every identifier in the table: the first frame's time, length and bytes;
      the last one's bytes, and its time unless it is the only one; how many frames
      came after the first; and the bytes that changed while learning. */
  lemma {:induction false} StatsTell(c: Config, ops: seq<Op>)
    ensures var s := Capture(c, ops); AllTell(s.hist, s.table)
    decreases |ops|
  {
    hide AllTell, Noted, Surprise, IsWrite;
    if ops == [] {
      NothingTold(c);
    } else {
      var n := |ops| - 1;
      StatsTell(c, ops[..n]);
      StepTells(c, Capture(c, ops[..n]), ops[n]);
    }
  }

  lemma NothingTold(c: Config)
    ensures AllTell(Fresh(c).hist, Fresh(c).table)
  {
  }

  lemma StepTells(c: Config, s: State, op: Op)
    requires AllTell(s.hist, s.table)
    ensures AllTell(Step(c, s, op).hist, Step(c, s, op).table)
  {
    hide AllTell, Noted, Surprise, IsWrite;
    if op.Frame_? {
      NotedTells(s.hist, s.table, Recorded(c, op.x));
    }
  }

  lemma OnceTold(h: seq<Rec>, key: nat, st: Stat)
    requires LastTold(h, key, st) && CountTold(h, key, st) && Heard(h, key) == 1
    ensures st.count == 0 && st.lastUs == 0
  {
    hide Heard, LastFrame;
  }

  /** So an identifier heard once is shown with no frames and no last time. */
  lemma HeardOnce(c: Config, ops: seq<Op>, key: nat)
    requires var s := Capture(c, ops); key in s.table && Heard(s.hist, key) == 1
    ensures var st := Capture(c, ops).table[key]; st.count == 0 && st.lastUs == 0
  {
    hide Capture, Heard, LastTold, CountTold, FirstTold, ChangesTold;
    StatsTell(c, ops);
    var s := Capture(c, ops);
    assert Tells(s.hist, key, s.table[key]);
    OnceTold(s.hist, key, s.table[key]);
  }

  /** And without a learning period no byte is ever shown as varying. */
  lemma NoneLearned(c: Config, ops: seq<Op>, key: nat, k: nat)
    requires var s := Capture(c, ops); key in s.table && k < 8 && forall r | r in s.hist :: !r.learning
    ensures !Capture(c, ops).table[key].varying[k]
  {
    hide Capture, Heard, Differs;
    StatsTell(c, ops);
    var s := Capture(c, ops);
    assert Tells(s.hist, key, s.table[key]);
  }
}
