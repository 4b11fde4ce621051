/** The bus trace (main/cantrace.c): what is recorded, what the per-identifier
    table learns, when a trigger fires, and when recording stops. */
module CanTrace {
  import opened Bytes
  import opened Wrappers
  import Modular

  const MAX_IDS := 255
  const DEFAULT_FRAMES := 65536
  const MAX_FRAMES := 262144

  type Eight = d: bytes | |d| == 8 witness Zeros(8)
  type Flags = v: seq<bool> | |v| == 8 witness seq(8, i => false)

  datatype Mode = Quiet | Write | Novel | Control
  datatype Kind = EvWrite | EvNewId | EvByteChange | EvControl

  datatype Frame = Frame(us: nat, id: nat, dlc: nat, tx: bool, data: Eight)

  datatype Event = Event(fired: bool, kind: Kind, us: nat, id: nat, did: nat, index: nat, was: byte, now: byte, dlc: nat, data: Eight)

  const NO_EVENT := Event(false, EvWrite, 0, 0, 0, 0, 0, 0, 0, Zeros(8))

  datatype Stat = Stat(id: nat, count: nat, firstUs: nat, lastUs: nat, first: Eight, last: Eight, varying: Flags, dlc: nat)

  /** What the driver hands over: its eight-byte buffer, the two readings of the
      clock the call makes, and the exchange this gateway is conducting. */
  datatype Input = Input(id: nat, data: Eight, dlc: nat, tx: bool, at: int, learnAt: int, own: nat)

  /** A frame that was accepted, and whether it fell in the learning period. */
  datatype Rec = Rec(frame: Frame, learning: bool, raw: Eight)

  datatype Config = Config(cap: nat, lo: nat, hi: nat, mode: Mode, post: nat, learnUntil: int, started: int, skipOwn: bool)

  datatype State = State(hist: seq<Rec>, table: map<nat, Stat>, running: bool, triggered: bool, post: nat, event: Event, skipped: nat)

  // ---- starting ----

  function Frames(asked: nat): (n: nat)
    ensures 0 < n <= MAX_FRAMES
  {
    if asked == 0 then DEFAULT_FRAMES else if asked > MAX_FRAMES then MAX_FRAMES else asked
  }

  function Configure(asked: nat, lo: nat, hi: nat, mode: Mode, post: nat, learnS: nat, skipOwn: bool, t0: int, t1: int): Config {
    var n := Frames(asked);
    Config(n, lo, if hi >= lo then hi else 0x7FF, mode, if post > 0 then post else n / 2, t0 + learnS * 1000000, t1, skipOwn)
  }

  function Fresh(c: Config): State {
    State([], map[], true, false, c.post, NO_EVENT, 0)
  }

  // ---- one frame ----

  /** The table is indexed by the eleven bits of the identifier. */
  function Key(f: Frame): nat {
    f.id % 2048
  }

  function Clip(dlc: nat): nat {
    if dlc > 8 then 8 else dlc
  }

  function Recorded(c: Config, x: Input): Rec {
    var n := Clip(x.dlc);
    Rec(Frame((x.at - c.started) % TWO32, x.id, n, x.tx, x.data[..n] + Zeros(8 - n)), x.learnAt < c.learnUntil, x.data)
  }

  predicate IsOwn(own: nat, id: nat) {
    own != 0 && (id == own || id == (own + 0x10) % 0x10000)
  }

  predicate IsWriteService(sid: int) {
    sid == 0x2E || sid == 0x77
  }

  predicate IsWrite(r: Rec) {
    var (d, n) := (r.frame.data, r.frame.dlc);
    && n >= 2
    && (if d[0] / 16 == 0 then d[0] % 16 >= 3 && IsWriteService(d[1])
        else d[0] / 16 == 1 && n >= 3 && IsWriteService(d[2]))
  }

  /** The identifier in a write request, high byte first, read from the driver's
      buffer whatever the frame's length. */
  function WriteDid(d: Eight): nat {
    if d[0] / 16 == 0 then Word(d[3], d[2]) else Word(d[4], d[3])
  }

  function Seen(kind: Kind, f: Frame): Event {
    NO_EVENT.(fired := true, kind := kind, us := f.us, id := f.id, dlc := f.dlc, data := f.data)
  }

  function ByteEvent(f: Frame, k: nat, was: byte): Event
    requires k < 8
  {
    Seen(EvByteChange, f).(index := k, was := was, now := f.data[k])
  }

  function NewStat(f: Frame): Stat {
    Stat(f.id, 0, f.us, 0, f.data, f.data, seq(8, i => false), f.dlc)
  }

  function Learned(st: Stat, r: Rec): Stat {
    st.(count := (st.count + 1) % TWO32, lastUs := r.frame.us, last := r.frame.data,
        varying := seq(8, k requires 0 <= k < 8 => st.varying[k] || (r.learning && st.last[k] != r.frame.data[k])))
  }

  function Noted(t: map<nat, Stat>, r: Rec): map<nat, Stat> {
    var key := Key(r.frame);
    if key in t then t[key := Learned(t[key], r)]
    else if |t| < MAX_IDS then t[key := NewStat(r.frame)]
    else t
  }

  /** A byte that differs from the last one and was not seen to vary. */
  predicate Moved(st: Stat, f: Frame, k: nat)
    requires k < 8
  {
    st.last[k] != f.data[k] && !st.varying[k]
  }

  function FirstMoved(st: Stat, f: Frame, k: nat): (r: Option<nat>)
    requires k <= 8
    ensures r.Some? ==> k <= r.value < 8 && Moved(st, f, r.value) && forall j | k <= j < r.value :: !Moved(st, f, j)
    ensures r.None? ==> forall j | k <= j < 8 :: !Moved(st, f, j)
    decreases 8 - k
  {
    if k == 8 then None else if Moved(st, f, k) then Some(k) else FirstMoved(st, f, k + 1)
  }

  function Surprise(t: map<nat, Stat>, r: Rec): Option<Event> {
    var key := Key(r.frame);
    if r.learning then None
    else if key !in t then if |t| < MAX_IDS then Some(Seen(EvNewId, r.frame)) else None
    else
      var k := FirstMoved(t[key], r.frame, 0);
      if k.Some? then Some(ByteEvent(r.frame, k.value, t[key].last[k.value])) else None
  }

  function Countdown(s: State): State {
    if s.post == 0 then s.(running := false) else s.(post := s.post - 1)
  }

  function Fire(s: State, e: Event): State {
    s.(triggered := true, event := e)
  }

  function Record(c: Config, s: State, r: Rec): State {
    var s1 := s.(hist := s.hist + [r], table := Noted(s.table, r));
    match c.mode
    case Quiet => s1
    case Novel =>
      var e := Surprise(s.table, r);
      var s2 := if !s.triggered && e.Some? then Fire(s1, e.value) else s1;
      if s2.triggered then Countdown(s2) else s2
    case Control => if s1.triggered then Countdown(s1) else s1
    case Write =>
      if !s.triggered && IsWrite(r) then Fire(s1, Seen(EvWrite, r.frame).(did := WriteDid(r.raw)))
      else if s.triggered then Countdown(s1)
      else s1
  }

  predicate Wanted(c: Config, x: Input) {
    c.lo <= x.id <= c.hi && !(c.skipOwn && IsOwn(x.own, x.id))
  }

  function Put(c: Config, s: State, x: Input): State {
    if !s.running || x.id < c.lo || x.id > c.hi then s
    else if c.skipOwn && IsOwn(x.own, x.id) then s.(skipped := (s.skipped + 1) % TWO32)
    else Record(c, s, Recorded(c, x))
  }

  function ControlEvent(c: Config, id: nat, did: nat, data: bytes, at: int): Event {
    var n := Clip(|data|);
    NO_EVENT.(fired := true, kind := EvControl, us := (at - c.started) % TWO32, id := id, did := did, dlc := n, data := data[..n] + Zeros(8 - n))
  }

  function NoteControl(c: Config, s: State, id: nat, did: nat, data: bytes, at: int): State {
    if !s.running || s.triggered || c.mode != Control then s else Fire(s, ControlEvent(c, id, did, data, at))
  }

  // ---- whole captures ----

  datatype Op = Frame_(x: Input) | Changed(id: nat, did: nat, data: bytes, at: int) | Stop

  function Step(c: Config, s: State, op: Op): State {
    match op
    case Frame_(x) => Put(c, s, x)
    case Changed(id, did, data, at) => NoteControl(c, s, id, did, data, at)
    case Stop => s.(running := false)
  }

  function Capture(c: Config, ops: seq<Op>): State {
    if ops == [] then Fresh(c) else Step(c, Capture(c, ops[..|ops| - 1]), ops[|ops| - 1])
  }

  // ---- what a history says, without the table ----

  /** The identifiers the table has room for: the first 255 different ones. */
  function Tracked(h: seq<Rec>): set<nat> {
    if h == [] then {}
    else
      var t := Tracked(h[..|h| - 1]);
      if |t| < MAX_IDS then t + {Key(h[|h| - 1].frame)} else t
  }

  /** Byte k of every frame of that identifier was v. */
  ghost predicate AlwaysWas(h: seq<Rec>, key: nat, k: nat, v: byte)
    requires k < 8
  {
    forall i | 0 <= i < |h| && Key(h[i].frame) == key :: h[i].frame.data[k] == v
  }

  /** Byte k had been v in every frame of this identifier, and now is not. */
  ghost predicate Broke(h: seq<Rec>, f: Frame, k: nat, v: byte)
    requires k < 8
  {
    AlwaysWas(h, Key(f), k, v) && f.data[k] != v
  }

  ghost predicate Unheard(h: seq<Rec>, key: nat) {
    forall i | 0 <= i < |h| :: Key(h[i].frame) != key
  }

  ghost predicate Novelty(h: seq<Rec>, r: Rec) {
    && !r.learning
    && var key := Key(r.frame);
       if key in Tracked(h) then exists k, v | 0 <= k < 8 :: Broke(h, r.frame, k, v) else |Tracked(h)| < MAX_IDS
  }

  // ---- the table agrees with the history ----

  ghost predicate LastFrame(h: seq<Rec>, key: nat, i: nat) {
    i < |h| && Key(h[i].frame) == key && forall j | i < j < |h| :: Key(h[j].frame) != key
  }

  ghost predicate LastKept(h: seq<Rec>, key: nat, d: Eight) {
    exists i: nat :: LastFrame(h, key, i) && h[i].frame.data == d
  }

  /** While nothing has tripped (`calm`), a clear bit means the byte was the same
      in every frame; a set bit always means it was not. */
  ghost predicate Knows(h: seq<Rec>, key: nat, st: Stat, calm: bool) {
    && LastKept(h, key, st.last)
    && (forall k, v | 0 <= k < 8 && st.varying[k] :: !AlwaysWas(h, key, k, v))
    && (calm ==> forall k | 0 <= k < 8 && !st.varying[k] :: AlwaysWas(h, key, k, st.last[k]))
  }

  ghost predicate TableOk(h: seq<Rec>, t: map<nat, Stat>, calm: bool) {
    && t.Keys == Tracked(h)
    && forall key | key in t :: Knows(h, key, t[key], calm)
  }

  lemma {:induction false} RoomMeansAll(h: seq<Rec>)
    ensures |Tracked(h)| < MAX_IDS ==> forall i | 0 <= i < |h| :: Key(h[i].frame) in Tracked(h)
  {
    if h != [] {
      var h', key := h[..|h| - 1], Key(h[|h| - 1].frame);
      RoomMeansAll(h');
      assert key in Tracked(h') ==> Tracked(h') + {key} == Tracked(h');
      assert forall i | 0 <= i < |h'| :: h[i] == h'[i];
    }
  }

  lemma OtherKept(h: seq<Rec>, r: Rec, key: nat, st: Stat, calm: bool)
    requires Knows(h, key, st, calm) && Key(r.frame) != key
    ensures Knows(h + [r], key, st, calm)
  {
    var i: nat :| LastFrame(h, key, i) && h[i].frame.data == st.last;
    assert LastFrame(h + [r], key, i);
    forall k, v | 0 <= k < 8
      ensures AlwaysWas(h + [r], key, k, v) <==> AlwaysWas(h, key, k, v)
    {
      AlwaysMore(h, r, key, k, v);
    }
  }

  lemma AlwaysMore(h: seq<Rec>, r: Rec, key: nat, k: nat, v: byte)
    requires k < 8
    ensures AlwaysWas(h + [r], key, k, v) <==> AlwaysWas(h, key, k, v) && (Key(r.frame) == key ==> r.frame.data[k] == v)
  {
    var h' := h + [r];
    if AlwaysWas(h', key, k, v) {
      forall i | 0 <= i < |h| && Key(h[i].frame) == key
        ensures h[i].frame.data[k] == v
      {
        assert h'[i] == h[i];
      }
      assert h'[|h|] == r;
    }
  }

  lemma LearnedKnows(h: seq<Rec>, r: Rec, st: Stat, calm: bool)
    requires Knows(h, Key(r.frame), st, calm)
    ensures Knows(h + [r], Key(r.frame), Learned(st, r), calm && (r.learning || FirstMoved(st, r.frame, 0).None?))
  {
    var key, st', h' := Key(r.frame), Learned(st, r), h + [r];
    var i: nat :| LastFrame(h, key, i) && h[i].frame.data == st.last;
    assert LastFrame(h', key, |h|);
    assert h'[i] == h[i];
    forall k, v | 0 <= k < 8
      ensures st'.varying[k] ==> !AlwaysWas(h', key, k, v)
    {
      AlwaysMore(h, r, key, k, v);
    }
    if calm && (r.learning || FirstMoved(st, r.frame, 0).None?) {
      forall k | 0 <= k < 8 && !st'.varying[k]
        ensures AlwaysWas(h', key, k, st'.last[k])
      {
        assert r.learning || !Moved(st, r.frame, k);
        AlwaysMore(h, r, key, k, st'.last[k]);
      }
    }
  }

  lemma NewKnows(h: seq<Rec>, r: Rec)
    requires Unheard(h, Key(r.frame))
    ensures Knows(h + [r], Key(r.frame), NewStat(r.frame), true)
  {
    assert LastFrame(h + [r], Key(r.frame), |h|);
  }

  lemma TableStep(h: seq<Rec>, t: map<nat, Stat>, r: Rec, calm: bool)
    requires TableOk(h, t, calm)
    ensures TableOk(h + [r], Noted(t, r), calm && Surprise(t, r).None?)
  {
    hide Knows, Learned, AlwaysWas, LastKept, Moved, FirstMoved, NewStat, Unheard;
    var key, t', h' := Key(r.frame), Noted(t, r), h + [r];
    var calm' := calm && Surprise(t, r).None?;
    assert h'[..|h|] == h;
    assert |t| == |t.Keys|;
    assert t'.Keys == Tracked(h');
    forall o | o in t'
      ensures Knows(h', o, t'[o], calm')
    {
      if o != key {
        OtherKept(h, r, o, t[o], calm);
        Weaker(h', o, t'[o], calm, calm');
      } else if key in t {
        LearnedKnows(h, r, t[key], calm);
        Weaker(h', o, t'[o], calm && (r.learning || FirstMoved(t[key], r.frame, 0).None?), calm');
      } else {
        RoomIsUnheard(h, key);
        NewKnows(h, r);
        Weaker(h', o, t'[o], true, calm');
      }
    }
  }

  lemma RoomIsUnheard(h: seq<Rec>, key: nat)
    requires key !in Tracked(h) && |Tracked(h)| < MAX_IDS
    ensures Unheard(h, key)
  {
    RoomMeansAll(h);
  }

  lemma Weaker(h: seq<Rec>, key: nat, st: Stat, calm: bool, less: bool)
    requires Knows(h, key, st, calm) && (less ==> calm)
    ensures Knows(h, key, st, less)
  {
  }

  /** What a firing says about the frame that caused it. */
  ghost predicate Describes(h: seq<Rec>, r: Rec, e: Event) {
    if Key(r.frame) !in Tracked(h) then e == Seen(EvNewId, r.frame)
    else exists k, v | 0 <= k < 8 :: Broke(h, r.frame, k, v) && e == ByteEvent(r.frame, k, v)
           && forall j, w | 0 <= j < k :: !Broke(h, r.frame, j, w)
  }

  lemma MovedIsBroke(h: seq<Rec>, st: Stat, f: Frame, k: nat)
    requires k < 8 && Knows(h, Key(f), st, true)
    ensures Moved(st, f, k) ==> Broke(h, f, k, st.last[k])
    ensures !Moved(st, f, k) ==> forall v :: !Broke(h, f, k, v)
  {
    var i: nat :| LastFrame(h, Key(f), i) && h[i].frame.data == st.last;
    if !Moved(st, f, k) && !st.varying[k] {
      forall v
        ensures !Broke(h, f, k, v)
      {
        assert AlwaysWas(h, Key(f), k, v) ==> h[i].frame.data[k] == v;
      }
    }
  }

  /** The learned table decides novelty exactly as the whole history would. */
  lemma SurpriseExact(h: seq<Rec>, t: map<nat, Stat>, r: Rec)
    requires TableOk(h, t, true)
    ensures Surprise(t, r).Some? <==> Novelty(h, r)
    ensures Surprise(t, r).Some? ==> Describes(h, r, Surprise(t, r).value)
  {
    hide Knows, Moved, Broke;
    var key := Key(r.frame);
    assert |t| == |t.Keys|;
    if key in t {
      var st := t[key];
      forall k | 0 <= k < 8
        ensures Moved(st, r.frame, k) ==> Broke(h, r.frame, k, st.last[k])
        ensures !Moved(st, r.frame, k) ==> forall v :: !Broke(h, r.frame, k, v)
      {
        MovedIsBroke(h, st, r.frame, k);
      }
    }
  }

  // ---- when a capture trips, and what is still there when it has stopped ----

  ghost predicate Hit(c: Config, h: seq<Rec>, r: Rec) {
    if c.mode == Novel then Novelty(h, r) else c.mode == Write && IsWrite(r)
  }

  ghost predicate NoHits(c: Config, h: seq<Rec>, n: nat)
    requires n <= |h|
  {
    forall i | 0 <= i < n :: !Hit(c, h[..i], h[i])
  }

  ghost predicate FirstHit(c: Config, h: seq<Rec>, i: nat) {
    i < |h| && Hit(c, h[..i], h[i]) && NoHits(c, h, i)
  }

  ghost predicate Explained(c: Config, h: seq<Rec>, r: Rec, e: Event) {
    if c.mode == Novel then Describes(h, r, e) else e == Seen(EvWrite, r.frame).(did := WriteDid(r.raw))
  }

  /** Frames recorded after the one that tripped the trigger. A write request
      does not count against the frames to follow; a novelty does. */
  function Limit(c: Config): nat {
    if c.mode == Write then c.post + 1 else c.post
  }

  ghost predicate Budget(c: Config, s: State, since: int, alone: bool) {
    && (s.running ==> since + s.post + 1 == Limit(c))
    && (!s.running ==> since <= Limit(c) && (alone ==> since == Limit(c)))
  }

  ghost predicate Armed(c: Config, s: State, alone: bool) {
    && (c.mode == Novel ==> TableOk(s.hist, s.table, true))
    && NoHits(c, s.hist, |s.hist|) && s.post == c.post && s.event == NO_EVENT
    && (alone ==> s.running)
  }

  ghost predicate Tripped(c: Config, s: State, i: nat, alone: bool) {
    && FirstHit(c, s.hist, i) && Explained(c, s.hist[..i], s.hist[i], s.event)
    && Budget(c, s, |s.hist| - i - 1, alone)
  }

  ghost predicate Sound(c: Config, s: State, i: nat, alone: bool) {
    if s.triggered then Tripped(c, s, i, alone) else Armed(c, s, alone)
  }

  lemma HitMore(c: Config, h: seq<Rec>, r: Rec)
    ensures NoHits(c, h, |h|) && !Hit(c, h, r) ==> NoHits(c, h + [r], |h| + 1)
    ensures NoHits(c, h, |h|) && Hit(c, h, r) ==> FirstHit(c, h + [r], |h|)
    ensures forall i: nat :: FirstHit(c, h, i) ==> FirstHit(c, h + [r], i) && (h + [r])[..i] == h[..i]
  {
    hide Hit;
    var h' := h + [r];
    assert forall i | 0 <= i <= |h| :: h'[..i] == h[..i];
    assert h'[..|h|] == h;
  }

  lemma RecordSound(c: Config, s: State, r: Rec, i: nat, alone: bool) returns (i': nat)
    requires (c.mode == Write || c.mode == Novel) && s.running && Sound(c, s, i, alone)
    ensures Sound(c, Record(c, s, r), i', alone)
  {
    hide TableOk, Hit, Explained, NoHits, Noted, Surprise, IsWrite;
    HitMore(c, s.hist, r);
    var h' := s.hist + [r];
    assert h'[..|s.hist|] == s.hist;
    i' := i;
    if !s.triggered {
      HitDecided(c, s, r);
      i' := |s.hist|;
    }
  }

  lemma HitDecided(c: Config, s: State, r: Rec)
    requires (c.mode == Write || c.mode == Novel) && !s.triggered && Armed(c, s, s.running)
    ensures Hit(c, s.hist, r) <==> (if c.mode == Novel then Surprise(s.table, r).Some? else IsWrite(r))
    ensures c.mode == Novel && Hit(c, s.hist, r) ==> Explained(c, s.hist, r, Surprise(s.table, r).value)
    ensures c.mode == Write ==> Explained(c, s.hist, r, Seen(EvWrite, r.frame).(did := WriteDid(r.raw)))
    ensures c.mode == Novel && !Hit(c, s.hist, r) ==> TableOk(s.hist + [r], Noted(s.table, r), true)
  {
    hide TableOk, Novelty, Surprise, IsWrite, Noted;
    if c.mode == Novel {
      SurpriseExact(s.hist, s.table, r);
      TableStep(s.hist, s.table, r, true);
    }
  }

  predicate Alone(ops: seq<Op>) {
    forall i | 0 <= i < |ops| :: !ops[i].Stop?
  }

  lemma {:induction false} CaptureSound(c: Config, ops: seq<Op>) returns (i: nat)
    requires c.mode == Write || c.mode == Novel
    ensures Sound(c, Capture(c, ops), i, Alone(ops))
    decreases |ops|
  {
    hide TableOk, Hit, Explained, NoHits, Record;
    i := 0;
    if ops == [] {
      FreshSound(c);
    } else {
      var before, op := ops[..|ops| - 1], ops[|ops| - 1];
      var s := Capture(c, before);
      i := CaptureSound(c, before);
      if op.Frame_? && s.running && Wanted(c, op.x) {
        i := RecordSound(c, s, Recorded(c, op.x), i, Alone(before));
      }
    }
  }

  lemma FreshSound(c: Config)
    requires c.mode == Write || c.mode == Novel
    ensures Sound(c, Fresh(c), 0, true)
  {
  }

  /** Before the trigger no accepted frame was a hit; after it the event tells of
      the first one, and that frame stays in the ring as long as there is room
      for it and everything recorded after it. A capture that stops by itself has
      recorded exactly Limit frames after it, and keeps it exactly then. */
  lemma TriggerKept(c: Config, ops: seq<Op>) returns (i: nat)
    requires c.mode == Write || c.mode == Novel
    ensures var s := Capture(c, ops); var h := s.hist;
      && (!s.triggered ==> NoHits(c, h, |h|))
      && (s.triggered ==> FirstHit(c, h, i) && Explained(c, h[..i], h[i], s.event))
      && (s.triggered && Limit(c) + 1 <= c.cap ==> h[i] in Window(h, c.cap) && |h| - i <= c.cap)
      && (Alone(ops) && !s.running ==> s.triggered && |h| - i - 1 == Limit(c))
      && (Alone(ops) && !s.running ==> (|h| - i <= c.cap <==> Limit(c) + 1 <= c.cap))
  {
    hide Hit, Explained, NoHits, TableOk, Capture;
    i := CaptureSound(c, ops);
    var s := Capture(c, ops);
    if s.triggered && Limit(c) + 1 <= c.cap {
      var w := Window(s.hist, c.cap);
      assert w[i - (|s.hist| - |w|)] == s.hist[i];
    }
  }

  /** Before the trigger a bit is clear exactly when that byte was the same in
      every frame of the identifier. */
  lemma ClearBitMeansConstant(c: Config, ops: seq<Op>, key: nat, k: nat)
    requires c.mode == Novel && k < 8
    requires !Capture(c, ops).triggered && key in Capture(c, ops).table
    ensures var s := Capture(c, ops);
      !s.table[key].varying[k] <==> AlwaysWas(s.hist, key, k, s.table[key].last[k])
  {
    hide Capture;
    var i := CaptureSound(c, ops);
  }

  /** With the default of half the ring the write request is kept in every ring
      of three frames or more, a novelty in every ring. */
  lemma KeptByDefault(asked: nat, lo: nat, hi: nat, mode: Mode, learnS: nat, skipOwn: bool, t0: int, t1: int)
    ensures var c := Configure(asked, lo, hi, mode, 0, learnS, skipOwn, t0, t1);
      Limit(c) + 1 <= c.cap <==> mode != Write || c.cap >= 3
  {
  }

  /** What reading the ring should give: the last `cap` frames, oldest first. */
  function Window(h: seq<Rec>, cap: nat): (w: seq<Rec>)
    ensures |w| == (if |h| < cap then |h| else cap) && h[|h| - |w|..] == w
  {
    if |h| <= cap then h else h[|h| - cap..]
  }

  // ---- with no more than 255 identifiers ----

  ghost function Keys(h: seq<Rec>): set<nat> {
    set i | 0 <= i < |h| :: Key(h[i].frame)
  }

  lemma {:induction false} TrackedIsKeys(h: seq<Rec>)
    requires |Keys(h)| <= MAX_IDS
    ensures Tracked(h) == Keys(h)
  {
    if h == [] {
      assert Keys(h) == {};
    } else {
      var h', key := h[..|h| - 1], Key(h[|h| - 1].frame);
      assert h == h' + [h[|h| - 1]];
      KeysMore(h', h[|h| - 1]);
      Subset(Keys(h'), Keys(h));
      TrackedIsKeys(h');
      if |Keys(h')| == MAX_IDS {
        SameSize(Keys(h'), Keys(h));
      }
    }
  }

  lemma {:induction false} Subset<T>(a: set<T>, b: set<T>)
    requires a <= b
    ensures |a| <= |b|
  {
    if a != {} {
      var x :| x in a;
      Subset(a - {x}, b - {x});
    }
  }

  lemma SameSize<T>(a: set<T>, b: set<T>)
    requires a <= b && |a| >= |b|
    ensures a == b
  {
    if x :| x in b && x !in a {
      Subset(a, b - {x});
    }
  }

  ghost predicate NewOrBroken(h: seq<Rec>, r: Rec) {
    && !r.learning
    && (Unheard(h, Key(r.frame)) || exists k, v | 0 <= k < 8 :: Broke(h, r.frame, k, v))
  }

  /** The trigger fires on a frame after learning whose identifier was never
      heard, or one of whose bytes had been the same in every frame of it. */
  lemma NoveltyIs(h: seq<Rec>, r: Rec)
    requires |Keys(h + [r])| <= MAX_IDS
    ensures Novelty(h, r) <==> NewOrBroken(h, r)
  {
    hide Keys, Unheard, Tracked, Broke;
    var key := Key(r.frame);
    KeysMore(h, r);
    HeardIsKey(h, key);
    Subset(Keys(h), Keys(h + [r]));
    TrackedIsKeys(h);
    if key !in Keys(h) {
      assert |Keys(h) + {key}| == |Keys(h)| + 1;
    }
  }

  lemma HeardIsKey(h: seq<Rec>, key: nat)
    ensures Unheard(h, key) <==> key !in Keys(h)
  {
  }

  lemma KeysMore(h: seq<Rec>, r: Rec)
    ensures Keys(h + [r]) == Keys(h) + {Key(r.frame)}
  {
    forall o | o in Keys(h) + {Key(r.frame)}
      ensures o in Keys(h + [r])
    {
      if o == Key(r.frame) {
        assert (h + [r])[|h|] == r;
      } else {
        var i :| 0 <= i < |h| && Key(h[i].frame) == o;
        assert (h + [r])[i] == h[i];
      }
    }
  }

  // ---- what is recorded at all ----

  function Accepted(c: Config, ops: seq<Op>): seq<Rec> {
    if ops == [] then []
    else
      var op := ops[|ops| - 1];
      Accepted(c, ops[..|ops| - 1]) + if op.Frame_? && Wanted(c, op.x) then [Recorded(c, op.x)] else []
  }

  /** The history is the accepted frames, up to where recording stopped. */
  lemma {:induction false} RecordedInOrder(c: Config, ops: seq<Op>)
    ensures var s := Capture(c, ops);
      s.hist <= Accepted(c, ops) && (s.running ==> s.hist == Accepted(c, ops))
  {
    hide Recorded, Noted, Surprise, IsWrite, Wanted;
    if ops != [] {
      RecordedInOrder(c, ops[..|ops| - 1]);
      var op := ops[|ops| - 1];
      if op.Frame_? {
        PutAppends(c, Capture(c, ops[..|ops| - 1]), op.x);
      }
    }
  }

  lemma PutAppends(c: Config, s: State, x: Input)
    ensures Put(c, s, x).hist == s.hist + if s.running && Wanted(c, x) then [Recorded(c, x)] else []
    ensures Put(c, s, x).running ==> s.running
  {
  }

  // ---- tripped from outside ----

  /** A control datapoint changed: the event tells of the first change, and
      exactly post + 1 more frames are recorded before the capture stops. */
  lemma {:induction false} ControlStops(c: Config, ops: seq<Op>) returns (j: nat)
    requires c.mode == Control
    ensures var s := Capture(c, ops);
      if !s.triggered then s.post == c.post && (Alone(ops) ==> s.running)
      else
        && j < |ops| && ops[j].Changed? && !Capture(c, ops[..j]).triggered
        && s.event == ControlEvent(c, ops[j].id, ops[j].did, ops[j].data, ops[j].at)
        && var since := |s.hist| - |Capture(c, ops[..j]).hist|;
           && (s.running ==> since + s.post == c.post)
           && 0 <= since
           && (!s.running ==> since <= c.post + 1 && (Alone(ops) ==> since == c.post + 1))
  {
    hide Recorded, Noted, Surprise, IsWrite, ControlEvent;
    j := 0;
    if ops != [] {
      var before, op := ops[..|ops| - 1], ops[|ops| - 1];
      assert Alone(ops) ==> Alone(before) && !op.Stop?;
      j := ControlStops(c, before);
      if op.Frame_? {
        PutAppends(c, Capture(c, before), op.x);
        assert |Capture(c, ops).hist| <= |Capture(c, before).hist| + 1;
      }
      if Capture(c, before).triggered {
        assert ops[..j] == before[..j];
      } else if op.Changed? {
        j := |ops| - 1;
      }
    }
  }

  // ---- counting in 32 bits ----

  /** How many frames the ring offers when `n` have been recorded. */
  function Visible(n: nat, cap: nat): nat {
    var total := n % TWO32;
    if total < cap then total else cap
  }

  /** The counter wraps: right after it does, most of the ring is out of sight. */
  lemma AllVisible(h: seq<Rec>, cap: nat)
    requires cap <= MAX_FRAMES
    ensures Visible(|h|, cap) == |Window(h, cap)| <==> |h| < TWO32 || |h| % TWO32 >= cap
  {
    Modular.Small(|h|, TWO32);
  }
}
