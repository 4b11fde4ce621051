/** The trace's static state, updated in place frame by frame (main/cantrace.c),
    and proved to follow CanTrace. */
module TraceRing {
  import opened Bytes
  import opened Wrappers
  import opened CanTrace
  import Modular

  predicate IsWriteRequest(d: Eight, dlc: nat) {
    dlc >= 2 &&
    if d[0] / 16 == 0 then d[0] % 16 >= 3 && IsWriteService(d[1])
    else d[0] / 16 == 1 && dlc >= 3 && IsWriteService(d[2])
  }

  /** A frame holds the buffer as far as it counts, zeros after that. */
  predicate Holds(f: Frame, data: Eight, dlc: nat) {
    f.dlc == Clip(dlc) && f.data == data[..Clip(dlc)] + Zeros(8 - Clip(dlc))
  }

  class Trace {
    var ring: array?<Frame>
    var capacity: nat
    var writeIdx: nat
    var total: nat
    var running: bool
    var started: int
    var lo: nat
    var hi: nat
    const index: array<byte>
    const stats: array<Stat>
    var count: nat
    var learnUntil: int
    var skipOwn: bool
    var ownTx: nat
    var skipped: nat
    var mode: Mode
    var triggered: bool
    var postLeft: nat
    var event: Event

    ghost var c: Config
    ghost var s: State

    /** The ring holds the last frames of the history, each at its place. */
    ghost predicate RingOk(h: seq<Rec>)
      reads this`ring, this`capacity, this`total, this`writeIdx, ring
    {
      if ring == null then capacity == 0 && h == [] && total == 0
      else
        && ring.Length == capacity > 0
        && total == |h| % TWO32 && writeIdx == |h| % capacity
        && forall j | 0 <= j < |h| && |h| - capacity <= j :: ring[j % capacity] == h[j].frame
    }

    /** Index and statistics hold the table. */
    ghost predicate TableAt(t: map<nat, Stat>)
      reads this`count, index, stats
    {
      TableIn(index[..], stats[..], count, t)
    }

    ghost predicate FieldsAt()
      reads this
    {
      && c == Config(capacity, lo, hi, mode, c.post, learnUntil, started, skipOwn)
      && s.running == running && s.triggered == triggered && s.post == postLeft
      && s.event == event && s.skipped == skipped
      && (!triggered ==> event == NO_EVENT)
      && index.Length == 2048 && stats.Length == MAX_IDS
    }

    ghost predicate Valid()
      reads this, ring, index, stats
    {
      RingOk(s.hist) && TableAt(s.table) && FieldsAt() && (running ==> ring != null)
    }

    constructor ()
      ensures Valid() && !running && ring == null && fresh(index) && fresh(stats)
    {
      ring, capacity, writeIdx, total, running := null, 0, 0, 0, false;
      started, lo, hi, count, learnUntil, skipOwn, ownTx, skipped := 0, 0, 0, 0, 0, false, 0, 0;
      mode, triggered, postLeft, event := Quiet, false, 0, NO_EVENT;
      index := new byte[2048](_ => 0);
      stats := new Stat[MAX_IDS](_ => NewStat(Frame(0, 0, 0, false, Zeros(8))));
      c := Config(0, 0, 0, Quiet, 0, 0, 0, false);
      s := State([], map[], false, false, 0, NO_EVENT, 0);
    }

    /** Put one frame at the write position. */
    method Store(f: Frame, ghost r: Rec, ghost h: seq<Rec>)
      requires ring != null && RingOk(h) && r.frame == f
      modifies this`writeIdx, this`total, ring
      ensures RingOk(h + [r])
    {
      ring[writeIdx] := f;
      forall j | 0 <= j < |h| && |h| + 1 - capacity <= j
        ensures j % capacity != |h| % capacity
      {
        Modular.Apart(j, |h|, capacity);
      }
      Modular.NextPlace(|h|, capacity);
      Modular.Small(writeIdx + 1, capacity);
      Modular.NextPlace(|h|, TWO32);
      Modular.Small(total + 1, TWO32);
      writeIdx := (writeIdx + 1) % capacity;
      total := (total + 1) % TWO32;
    }

    method NewSlot(f: Frame, ghost r: Rec, ghost t: map<nat, Stat>)
      requires TableAt(t) && r.frame == f && Key(f) !in t && count < MAX_IDS
      modifies this`count, index, stats
      ensures TableAt(Noted(t, r))
    {
      hide NewStat, TableIn;
      NewStep(index[..], stats[..], count, t, r);
      count := count + 1;
      index[f.id % 2048] := count;
      stats[count - 1] := NewStat(f);
    }

    /** Byte by byte against the last frame of this identifier. */
    method Compare(slot: nat, f: Frame, learning: bool, ghost r: Rec)
      requires stats.Length == MAX_IDS && slot < MAX_IDS && r.frame == f && r.learning == learning
      requires !triggered ==> event == NO_EVENT
      modifies this`triggered, this`event, stats
      ensures stats[..] == old(stats[..])[slot := Learned(old(stats[slot]), r)]
      ensures var k := FirstMoved(old(stats[slot]), f, 0);
        if mode == Novel && !learning && !old(triggered) && k.Some?
        then triggered && event == ByteEvent(f, k.value, old(stats[slot]).last[k.value])
        else triggered == old(triggered) && event == old(event)
    {
      hide FirstMoved, Learned, Upto;
      ghost var st0, all := stats[slot], stats[..];
      ghost var armed := mode == Novel && !learning && !triggered;
      ghost var first := FirstMoved(st0, f, 0);
      var st := stats[slot].(count := (stats[slot].count + 1) % TWO32, lastUs := f.us);
      UptoNone(st0, r);
      var k: nat := 0;
      while k < 8
        invariant k <= 8 && stats[..] == all && st == Upto(st0, r, k)
        invariant var found := armed && first.Some? && first.value < k;
          && triggered == (old(triggered) || found)
          && event == if found then ByteEvent(f, first.value, st0.last[first.value]) else old(event)
      {
        UptoNext(st0, r, k);
        FirstIs(st0, f, k);
        if st.last[k] != f.data[k] {
          if learning {
            st := st.(varying := st.varying[k := true]);
          } else if mode == Novel && !triggered && !st.varying[k] {
            triggered := true;
            event := event.(fired := true, kind := EvByteChange, us := f.us, id := f.id, index := k,
                            was := st.last[k], now := f.data[k], dlc := f.dlc, data := f.data);
          }
          st := st.(last := st.last[k := f.data[k]]);
        }
        k := k + 1;
      }
      UptoAll(st0, r);
      stats[slot] := st;
    }

    /** Frames after the trigger. */
    method CountDown()
      modifies this`running, this`postLeft
      ensures running == (old(running) && old(postLeft) > 0)
      ensures postLeft == if old(postLeft) > 0 then old(postLeft) - 1 else 0
    {
      if postLeft == 0 {
        running := false;
      } else {
        postLeft := postLeft - 1;
      }
    }

    /** The table, and in learning mode the trigger. */
    method Note(f: Frame, learning: bool, ghost r: Rec, ghost t: map<nat, Stat>)
      requires TableAt(t) && r.frame == f && r.learning == learning
      requires !triggered ==> event == NO_EVENT
      modifies this`count, this`triggered, this`event, index, stats
      ensures TableAt(Noted(t, r))
      ensures var e := Surprise(t, r);
        if mode == Novel && !old(triggered) && e.Some? then triggered && event == e.value
        else triggered == old(triggered) && event == old(event)
    {
      hide Learned, FirstMoved, NewStat, Upto, TableAt;
      SlotOf(f, t);
      var slot: nat := index[f.id % 2048];
      if slot == 0 {
        if count < MAX_IDS {
          NewSlot(f, r, t);
          if mode == Novel && !learning && !triggered {
            triggered := true;
            event := event.(fired := true, kind := EvNewId, us := f.us, id := f.id, dlc := f.dlc, data := f.data);
          }
        }
      } else {
        Known(slot - 1, f, learning, r, t);
      }
    }

    lemma SlotOf(f: Frame, t: map<nat, Stat>)
      requires TableAt(t)
      ensures index.Length == 2048 && count == |t|
      ensures index[Key(f)] == 0 <==> Key(f) !in t
    {
    }

    method Known(slot: nat, f: Frame, learning: bool, ghost r: Rec, ghost t: map<nat, Stat>)
      requires TableAt(t) && r.frame == f && r.learning == learning
      requires Key(f) in t && index.Length == 2048 && index[Key(f)] == slot + 1
      requires !triggered ==> event == NO_EVENT
      modifies this`triggered, this`event, stats
      ensures TableAt(Noted(t, r))
      ensures var k := FirstMoved(t[Key(f)], f, 0);
        if mode == Novel && !learning && !old(triggered) && k.Some?
        then triggered && event == ByteEvent(f, k.value, t[Key(f)].last[k.value])
        else triggered == old(triggered) && event == old(event)
    {
      hide Learned, FirstMoved, TableIn;
      KnownStep(index[..], stats[..], count, t, r);
      Compare(slot, f, learning, r);
    }

    method Put(id: nat, data: Eight, dlc: nat, tx: bool, at: int, learnAt: int)
      requires Valid()
      modifies this, ring, index, stats
      ensures Valid() && c == old(c)
      ensures s == CanTrace.Put(c, old(s), Input(id, data, dlc, tx, at, learnAt, ownTx))
      ensures ring == old(ring) && ownTx == old(ownTx)
    {
      hide RingOk, TableAt, Record;
      if !running || ring == null || id < lo || id > hi {
        return;
      }
      if skipOwn {
        var mine := ownTx;
        if mine != 0 && (id == mine || id == (mine + 0x10) % 0x10000) {
          skipped := (skipped + 1) % TWO32;
          s := s.(skipped := skipped);
          return;
        }
      }
      var n := Clip(dlc);
      var f := Frame((at - started) % TWO32, id, n, tx, data[..n] + Zeros(8 - n));
      var learning := learnAt < learnUntil;
      Accept(f, data, dlc, learning);
    }

    /** Trip on a write request, count down after it. */
    method OnWrite(f: Frame, data: Eight, dlc: nat, ghost r: Rec)
      requires r.frame == f && r.raw == data && Holds(f, data, dlc)
      requires !triggered ==> event == NO_EVENT
      modifies this`triggered, this`event, this`running, this`postLeft
      ensures triggered == (old(triggered) || IsWrite(r))
      ensures event == if !old(triggered) && IsWrite(r) then Seen(EvWrite, f).(did := WriteDid(data)) else old(event)
      ensures running == (old(running) && !(old(triggered) && old(postLeft) == 0))
      ensures postLeft == if old(triggered) && old(postLeft) > 0 then old(postLeft) - 1 else old(postLeft)
    {
      hide IsWrite, IsWriteRequest, WriteDid;
      SameRequest(r, dlc);
      if !triggered && IsWriteRequest(data, dlc) {
        triggered := true;
        event := event.(fired := true, us := f.us, kind := EvWrite, id := f.id, did := WriteDid(data), dlc := f.dlc, data := f.data);
      } else if triggered {
        CountDown();
      }
    }

    /** What is left to do once the frame is stored and noted. */
    method Advance(f: Frame, data: Eight, dlc: nat, ghost r: Rec)
      requires r.frame == f && r.raw == data && Holds(f, data, dlc)
      requires !triggered ==> event == NO_EVENT
      modifies this`triggered, this`event, this`running, this`postLeft
      ensures triggered == (old(triggered) || (mode == Write && IsWrite(r)))
      ensures event == if mode == Write && !old(triggered) && IsWrite(r) then Seen(EvWrite, f).(did := WriteDid(data)) else old(event)
      ensures var counted := mode != Quiet && old(triggered);
        && running == (old(running) && !(counted && old(postLeft) == 0))
        && postLeft == if counted && old(postLeft) > 0 then old(postLeft) - 1 else old(postLeft)
    {
      hide IsWrite, Seen, WriteDid, Holds;
      if (mode == Novel || mode == Control) && triggered {
        CountDown();
      }
      if mode == Write {
        OnWrite(f, data, dlc, r);
      }
    }

    /** The three together, field by field. */
    method Update(f: Frame, data: Eight, dlc: nat, learning: bool, ghost r: Rec, ghost h: seq<Rec>, ghost t: map<nat, Stat>)
      requires r == Rec(f, learning, data) && Holds(f, data, dlc)
      requires ring != null && RingOk(h) && TableAt(t) && (!triggered ==> event == NO_EVENT)
      modifies this`writeIdx, this`total, this`count, this`triggered, this`event, this`running, this`postLeft, ring, index, stats
      ensures RingOk(h + [r]) && TableAt(Noted(t, r))
      ensures After(mode, old(triggered), old(event), old(running), old(postLeft), Surprise(t, r), r)
        == (triggered, event, running, postLeft)
    {
      hide RingOk, TableAt, Noted, Surprise, IsWrite, Holds, Seen, WriteDid;
      Store(f, r, h);
      Note(f, learning, r, t);
      Advance(f, data, dlc, r);
    }

    method Accept(f: Frame, data: Eight, dlc: nat, learning: bool)
      requires Valid() && running && Holds(f, data, dlc)
      modifies this, ring, index, stats
      ensures Valid() && c == old(c) && ring == old(ring) && ownTx == old(ownTx)
      ensures s == Record(c, old(s), Rec(f, learning, data))
    {
      hide RingOk, TableAt, Noted, Surprise, Holds, Record;
      ghost var r := Rec(f, learning, data);
      RecordIs(c, s, r);
      Update(f, data, dlc, learning, r, s.hist, s.table);
      s := Record(c, s, r);
    }

    method NoteControl(id: nat, did: nat, data: bytes, at: int)
      requires Valid()
      modifies this`triggered, this`event, this`s
      ensures Valid() && s == CanTrace.NoteControl(c, old(s), id, did, data, at)
    {
      hide RingOk, TableAt;
      if !running || triggered || mode != Control {
        return;
      }
      triggered := true;
      var n := Clip(|data|);
      event := event.(fired := true, kind := EvControl, us := (at - started) % TWO32, id := id, did := did,
                      dlc := n, data := data[..n] + Zeros(8 - n));
      s := s.(triggered := true, event := event);
    }

    method OwnBegin(tx: nat)
      modifies this`ownTx
      ensures ownTx == tx
    {
      ownTx := tx;
    }

    method OwnEnd()
      modifies this`ownTx
      ensures ownTx == 0
    {
      ownTx := 0;
    }

    method Stop()
      requires Valid()
      modifies this`running, this`s
      ensures Valid() && s == CanTrace.Step(c, old(s), CanTrace.Stop)
    {
      hide RingOk, TableAt;
      running := false;
      s := s.(running := false);
    }

    method Free()
      requires Valid()
      modifies this`running, this`ring, this`capacity, this`writeIdx, this`total, this`s, this`c
      ensures Valid() && ring == null && !running
    {
      hide TableAt, RingOk;
      Release();
      s := s.(running := false, hist := []);
      c := c.(cap := 0);
    }

    /** Begin a capture; `memory` is whether the allocation, if one is needed,
        succeeds. The clock is read twice. */
    method Start(asked: nat, lo: nat, hi: nat, mode: Mode, post: nat, learnS: nat, skipOwn: bool, t0: int, t1: int, memory: bool) returns (ok: bool)
      requires Valid()
      modifies this`ring, this`capacity, this`writeIdx, this`total, this`running, this`started, this`lo, this`hi, index, stats
      modifies this`count, this`learnUntil, this`skipOwn, this`skipped, this`mode, this`triggered, this`postLeft, this`event, this`c, this`s
      ensures Valid()
      ensures !ok ==> !running && ring == null
      ensures !ok <==> !memory && old(capacity) != Frames(asked)
      ensures ok ==> c == Configure(asked, lo, hi, mode, post, learnS, skipOwn, t0, t1) && s == Fresh(c)
    {
      hide TableAt, RingOk, NewStat, Frames;
      ok := Prepare(Frames(asked), memory);
      if ok {
        Begin(lo, hi, mode, post, skipOwn, t0 + learnS * 1000000, t1);
        c := Configure(asked, lo, hi, mode, post, learnS, skipOwn, t0, t1);
        s := Fresh(c);
      }
    }

    method Begin(lo: nat, hi: nat, mode: Mode, post: nat, skipOwn: bool, until: int, t1: int)
      requires ring != null && ring.Length == capacity > 0 && index.Length == 2048 && stats.Length == MAX_IDS
      modifies this`writeIdx, this`total, this`running, this`started, this`lo, this`hi, index, stats, this`count
      modifies this`learnUntil, this`skipOwn, this`skipped, this`mode, this`triggered, this`postLeft, this`event
      ensures RingOk([]) && TableAt(map[]) && running && !triggered && event == NO_EVENT && skipped == 0
      ensures this.lo == lo && this.hi == (if hi >= lo then hi else 0x7FF) && this.mode == mode && this.skipOwn == skipOwn
      ensures postLeft == (if post > 0 then post else capacity / 2) && learnUntil == until && started == t1
    {
      hide TableAt, RingOk;
      ClearTable();
      Arm(lo, hi, mode, post, skipOwn);
      Open(until, t1);
      EmptyRing();
    }

    method Open(until: int, t1: int)
      modifies this`learnUntil, this`started, this`running
      ensures learnUntil == until && started == t1 && running
    {
      learnUntil, started, running := until, t1, true;
    }

    /** Stop, and have a ring of that size. */
    method Prepare(frames: nat, memory: bool) returns (ok: bool)
      requires Valid() && frames > 0
      modifies this`running, this`ring, this`capacity, this`writeIdx, this`total, this`s, this`c
      ensures !ok <==> !memory && old(capacity) != frames
      ensures !ok ==> Valid() && !running && ring == null
      ensures ok ==> capacity == frames && ring != null && ring.Length == frames
      ensures index.Length == 2048 && stats.Length == MAX_IDS
    {
      hide TableAt, RingOk;
      Stop();
      RingSize();
      if capacity != frames {
        Free();
        if !memory {
          return false;
        }
        Allocate(frames);
      }
      ok := true;
    }

    method Allocate(frames: nat)
      requires frames > 0
      modifies this`ring, this`capacity
      ensures capacity == frames && ring != null && ring.Length == frames && fresh(ring)
    {
      ring := new Frame[frames](_ => Frame(0, 0, 0, false, Zeros(8)));
      capacity := frames;
    }

    method Arm(lo: nat, hi: nat, mode: Mode, post: nat, skipOwn: bool)
      modifies this`skipOwn, this`skipped, this`writeIdx, this`total, this`triggered
      modifies this`mode, this`postLeft, this`event, this`lo, this`hi
      ensures writeIdx == total == 0 && !triggered && event == NO_EVENT && skipped == 0
      ensures this.lo == lo && this.hi == (if hi >= lo then hi else 0x7FF) && this.mode == mode && this.skipOwn == skipOwn
      ensures postLeft == if post > 0 then post else capacity / 2
    {
      this.skipOwn, skipped := skipOwn, 0;
      writeIdx, total, triggered := 0, 0, false;
      this.mode, postLeft, event := mode, if post > 0 then post else capacity / 2, NO_EVENT;
      this.lo, this.hi := lo, if hi >= lo then hi else 0x7FF;
    }

    lemma EmptyRing()
      requires ring != null && ring.Length == capacity > 0 && total == 0 && writeIdx == 0
      ensures RingOk([])
    {
      Modular.Small(0, capacity);
    }

    method Release()
      modifies this`running, this`ring, this`capacity, this`writeIdx, this`total
      ensures !running && ring == null && capacity == 0 && RingOk([])
    {
      running, ring, capacity, writeIdx, total := false, null, 0, 0, 0;
    }

    lemma RingSize()
      requires RingOk(s.hist)
      ensures if ring == null then capacity == 0 else ring.Length == capacity > 0
    {
    }

    method ClearTable()
      requires index.Length == 2048 && stats.Length == MAX_IDS
      modifies this`count, index, stats
      ensures TableAt(map[])
    {
      forall i | 0 <= i < 2048 {
        index[i] := 0;
      }
      forall i | 0 <= i < MAX_IDS {
        stats[i] := NewStat(Frame(0, 0, 0, false, Zeros(8)));
      }
      count := 0;
    }

    /** Reading out: the frames of the window from `from` on, oldest first, as
        many as fit and as the counter lets be seen. */
    method Read(from: nat, out: array<Frame>) returns (n: nat)
      requires Valid() && out != ring && capacity <= MAX_FRAMES
      modifies out
      ensures var v := Visible(|s.hist|, c.cap);
        n == if from >= v then 0 else if v - from > out.Length then out.Length else v - from
      ensures Visible(|s.hist|, c.cap) == |Window(s.hist, c.cap)| ==>
        forall k | 0 <= k < n :: out[k] == Window(s.hist, c.cap)[from + k].frame
      ensures forall k | n <= k < out.Length :: out[k] == old(out[k])
    {
      hide RingOk, TableAt, Window;
      RingSize();
      RingCount();
      if ring == null || capacity == 0 {
        return 0;
      }
      var stored := if total < capacity then total else capacity;
      if from >= stored {
        return 0;
      }
      n := stored - from;
      if n > out.Length {
        n := out.Length;
      }
      Copy(from, n, out);
    }

    /** Where the x-th frame to be read is. */
    function SlotAt(x: nat): (i: nat)
      requires ring != null && capacity == ring.Length > 0
      reads this`total, this`capacity, this`writeIdx, this`ring
      ensures i < ring.Length
    {
      ((if total < capacity then 0 else writeIdx) + x) % capacity
    }

    method Copy(from: nat, n: nat, out: array<Frame>)
      requires ring != null && RingOk(s.hist) && out != ring && capacity <= MAX_FRAMES && n <= out.Length
      requires from + n <= if total < capacity then total else capacity
      modifies out
      ensures |Window(s.hist, capacity)| == (if total < capacity then total else capacity) ==>
        forall k | 0 <= k < n :: out[k] == Window(s.hist, capacity)[from + k].frame
      ensures forall k | n <= k < out.Length :: out[k] == old(out[k])
    {
      hide RingOk, Window, SlotAt;
      RingSize();
      for k := 0 to n
        invariant forall j | 0 <= j < k :: out[j] == ring[SlotAt(from + j)]
        invariant forall j | k <= j < out.Length :: out[j] == old(out[j])
      {
        out[k] := ring[SlotAt(from + k)];
      }
      ghost var w := Window(s.hist, capacity);
      if |w| == if total < capacity then total else capacity {
        forall k | 0 <= k < n
          ensures out[k] == w[from + k].frame
        {
          InWindow(from + k);
        }
      }
    }

    lemma RingCount()
      requires RingOk(s.hist)
      ensures total == if ring == null then 0 else |s.hist| % TWO32
      ensures ring == null ==> s.hist == []
    {
    }

    lemma InWindow(x: nat)
      requires ring != null && RingOk(s.hist) && capacity <= MAX_FRAMES
      requires var w := Window(s.hist, capacity); x < |w| && |w| == if total < capacity then total else capacity
      ensures ring.Length == capacity > 0 && ring[SlotAt(x)] == Window(s.hist, capacity)[x].frame
    {
      var n, cap := |s.hist|, capacity;
      var first := if n < cap then 0 else n - cap;
      Place(n, cap, x);
      assert Window(s.hist, cap)[x] == s.hist[first + x];
    }
  }

  /** Where the x-th frame of the window is. */
  lemma Place(n: nat, cap: nat, x: nat)
    requires 0 < cap <= MAX_FRAMES && x < cap && x < n
    requires Visible(n, cap) == if n < cap then n else cap
    ensures var first := if n < cap then 0 else n - cap;
      ((if n % TWO32 < cap then 0 else n % cap) + x) % cap == (first + x) % cap
  {
    Modular.Small(n, TWO32);
    if n >= cap {
      Wrapped(n, cap, x);
    }
  }

  lemma Wrapped(n: nat, cap: nat, x: nat)
    requires 0 < cap <= n
    ensures (n % cap + x) % cap == (n - cap + x) % cap
  {
    var a := n % cap;
    Modular.Small(a, cap);
    Modular.Add(a, n, cap, x);
    Modular.Shift(n - cap + x, cap);
  }

  /** Trigger, event, running and frames left, after a frame. */
  function After(mode: Mode, triggered: bool, event: Event, running: bool, post: nat, e: Option<Event>, r: Rec): (bool, Event, bool, nat) {
    var novel := mode == Novel && !triggered && e.Some?;
    var write := mode == Write && !triggered && IsWrite(r);
    var counted := mode != Quiet && (triggered || novel);
    (triggered || novel || write,
     if novel then e.value else if write then Seen(EvWrite, r.frame).(did := WriteDid(r.raw)) else event,
     running && !(counted && post == 0),
     if counted && post > 0 then post - 1 else post)
  }

  lemma RecordIs(c: Config, s: State, r: Rec)
    ensures var s' := Record(c, s, r);
      && s'.hist == s.hist + [r] && s'.table == Noted(s.table, r) && s'.skipped == s.skipped
      && (s'.triggered, s'.event, s'.running, s'.post)
         == After(c.mode, s.triggered, s.event, s.running, s.post, Surprise(s.table, r), r)
    ensures var (triggered, event, _, _) := After(c.mode, s.triggered, s.event, s.running, s.post, Surprise(s.table, r), r);
      !triggered ==> event == s.event && !s.triggered
  {
    hide Noted, Surprise, IsWrite, Seen, WriteDid;
  }

  ghost predicate TableIn(index: seq<byte>, stats: seq<Stat>, n: nat, t: map<nat, Stat>) {
    && |index| == 2048 && |stats| == MAX_IDS
    && n == |t| <= MAX_IDS
    && (forall key | key in t :: key < 2048)
    && (forall key | 0 <= key < 2048 :: index[key] == 0 <==> key !in t)
    && (forall key | key in t :: index[key] <= n && stats[index[key] - 1] == t[key])
    && (forall x, y | x in t && y in t && x != y :: index[x] != index[y])
  }

  lemma NewStep(index: seq<byte>, stats: seq<Stat>, n: nat, t: map<nat, Stat>, r: Rec)
    requires TableIn(index, stats, n, t) && Key(r.frame) !in t && n < MAX_IDS
    ensures |index| == 2048 && |stats| == MAX_IDS
    ensures TableIn(index[Key(r.frame) := n + 1], stats[n := NewStat(r.frame)], n + 1, Noted(t, r))
  {
    hide NewStat;
    var key, t' := Key(r.frame), Noted(t, r);
    assert t' == t[key := NewStat(r.frame)] && |t'| == |t| + 1;
  }

  lemma KnownStep(index: seq<byte>, stats: seq<Stat>, n: nat, t: map<nat, Stat>, r: Rec)
    requires TableIn(index, stats, n, t) && Key(r.frame) in t
    ensures |index| == 2048 && |stats| == MAX_IDS && 0 < index[Key(r.frame)] <= MAX_IDS
    ensures stats[index[Key(r.frame)] - 1] == t[Key(r.frame)]
    ensures TableIn(index, stats[index[Key(r.frame)] - 1 := Learned(t[Key(r.frame)], r)], n, Noted(t, r))
  {
    hide Learned;
    var t' := Noted(t, r);
    assert t'.Keys == t.Keys;
    assert |t'| == |t'.Keys| == |t.Keys| == |t|;
  }

  /** The raw buffer and the recorded frame make the same write request. */
  lemma SameRequest(r: Rec, dlc: nat)
    requires Holds(r.frame, r.raw, dlc)
    ensures IsWriteRequest(r.raw, dlc) == IsWrite(r)
  {
  }

  /** The statistics with the first `k` bytes compared. */
  function Upto(st: Stat, r: Rec, k: nat): Stat
    requires k <= 8
  {
    st.(count := (st.count + 1) % TWO32, lastUs := r.frame.us, last := r.frame.data[..k] + st.last[k..],
        varying := seq(8, i requires 0 <= i < 8 => st.varying[i] || (i < k && r.learning && st.last[i] != r.frame.data[i])))
  }

  lemma UptoNone(st: Stat, r: Rec)
    ensures Upto(st, r, 0) == st.(count := (st.count + 1) % TWO32, lastUs := r.frame.us)
  {
    assert Upto(st, r, 0).varying == st.varying;
  }

  lemma UptoAll(st: Stat, r: Rec)
    ensures Upto(st, r, 8) == Learned(st, r)
  {
    assert Upto(st, r, 8).varying == Learned(st, r).varying;
  }

  lemma UptoNext(st: Stat, r: Rec, k: nat)
    requires k < 8
    ensures var (a, b) := (Upto(st, r, k), Upto(st, r, k + 1));
      && a.last[k] == st.last[k] && a.varying[k] == st.varying[k]
      && b == a.(last := a.last[k := r.frame.data[k]],
                 varying := if r.learning && st.last[k] != r.frame.data[k] then a.varying[k := true] else a.varying)
    ensures Upto(st, r, k).last[k] == r.frame.data[k] ==> Upto(st, r, k + 1) == Upto(st, r, k)
  {
    var (a, b) := (Upto(st, r, k), Upto(st, r, k + 1));
    var v := if r.learning && st.last[k] != r.frame.data[k] then a.varying[k := true] else a.varying;
    assert b.varying == v;
    assert b.last == a.last[k := r.frame.data[k]];
  }

  lemma FirstIs(st: Stat, f: Frame, k: nat)
    requires k < 8
    ensures var first := FirstMoved(st, f, 0);
      first == Some(k) <==> Moved(st, f, k) && !(first.Some? && first.value < k)
  {
  }
}
