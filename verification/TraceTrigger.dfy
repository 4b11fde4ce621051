/** Which frames trip a write capture (main/cantrace.c), told from the messages
    they begin, and what the event and the record say. */
module TraceTrigger {
  import opened Bytes
  import opened Wrappers
  import IsoTp
  import opened CanTrace

  predicate Watched(c: Config, s: State, x: Input) {
    && s.running && c.lo <= x.id <= c.hi
    && !(c.skipOwn && x.own != 0 && (x.id == x.own || x.id == (x.own + 0x10) % 0x10000))
  }

  /** A frame is recorded with the time since the start in 32 bits, its identifier
      and direction, at most eight bytes, and zeros behind. */
  lemma RecordedAs(c: Config, s: State, x: Input)
    ensures !Watched(c, s, x) ==> Put(c, s, x).hist == s.hist
    ensures Watched(c, s, x) ==>
      var h := Put(c, s, x).hist; var f := h[|h| - 1].frame;
      && |h| == |s.hist| + 1 && h[..|s.hist|] == s.hist
      && f.us == (x.at - c.started) % 0x1_0000_0000 && f.id == x.id && f.tx == x.tx && f.dlc == Min(8, x.dlc)
      && f.data == x.data[..f.dlc] + Zeros(8 - f.dlc) && h[|h| - 1].raw == x.data
      && (h[|h| - 1].learning <==> x.learnAt < c.learnUntil)
  {
  }

  /** Own traffic is skipped and counted. */
  lemma OwnSkipped(c: Config, s: State, x: Input)
    requires s.running && c.lo <= x.id <= c.hi && !Watched(c, s, x)
    ensures Put(c, s, x) == s.(skipped := (s.skipped + 1) % 0x1_0000_0000)
  {
  }

  // ---- the write trigger ----

  /** The frame is the first of the message `p`, as it is segmented. */
  predicate Begins(x: Input, p: bytes) {
    0 < |p| <= 4095 && x.dlc == 8 && IsoTp.Segments(p)[0] == x.data
  }

  /** The message writes: 2E or 77 with at least two bytes behind. */
  predicate Writes(p: bytes) {
    |p| >= 3 && (p[0] == 0x2E || p[0] == 0x77)
  }

  lemma FirstIs(p: bytes)
    requires 0 < |p| <= 4095
    ensures var d := IsoTp.Segments(p)[0];
      && |d| == 8
      && (|p| <= 7 ==> d == [|p|] + p + Zeros(7 - |p|))
      && (|p| > 7 ==> d == [16 + |p| / 256, |p| % 256] + p[..6])
  {
    hide IsoTp.ConsFrames;
  }

  lemma WriteSeen(x: Input, p: bytes, r: Rec)
    requires Begins(x, p) && r.frame.data == x.data && r.frame.dlc == 8 && r.raw == x.data
    ensures IsWrite(r) <==> Writes(p)
    ensures Writes(p) ==> WriteDid(x.data) == 256 * (p[1] as int) + p[2]
  {
    FirstIs(p);
    var d := x.data;
    if |p| <= 7 {
      assert d[0] == |p| && d[1] == p[0];
      if |p| >= 3 {
        assert d[2] == p[1] && d[3] == p[2];
      }
    } else {
      assert d[0] == 16 + |p| / 256 && d[2] == p[0] && d[3] == p[1] && d[4] == p[2];
    }
  }

  /** The first frame of a message trips an armed write capture exactly if the
      message writes; the event then names the identifier behind the service byte
      and carries the frame. */
  lemma WriteTrips(c: Config, s: State, x: Input, p: bytes)
    requires c.mode == Write && Watched(c, s, x) && !s.triggered && Begins(x, p)
    ensures var s' := Put(c, s, x);
      && (s'.triggered <==> Writes(p))
      && (Writes(p) ==>
            var e := s'.event;
            && e.fired && e.kind == EvWrite && e.did == 256 * (p[1] as int) + p[2]
            && e.us == (x.at - c.started) % 0x1_0000_0000 && e.id == x.id && e.dlc == 8 && e.data == x.data)
  {
    hide IsWrite, WriteDid, Noted;
    var r := Recorded(c, x);
    assert x.data[..8] + Zeros(0) == x.data;
    WriteSeen(x, p, r);
  }

  /** No other frame does: consecutive frames and flow control are no requests. */
  lemma OthersDoNot(c: Config, s: State, x: Input)
    requires c.mode == Write && !s.triggered && x.data[0] >= 0x20 && x.dlc > 0
    ensures !Put(c, s, x).triggered
  {
    hide Noted;
    assert Clip(x.dlc) > 0;
    assert (x.data[..Clip(x.dlc)] + Zeros(8 - Clip(x.dlc)))[0] == x.data[0];
  }

  // ---- what an event says ----

  /** Whatever tripped the capture, the event carries the time, identifier, length
      and bytes of the recorded frame, and its kind. */
  lemma EventTells(c: Config, ops: seq<Op>) returns (i: nat)
    requires c.mode == Write || c.mode == Novel
    ensures var s := Capture(c, ops);
      s.triggered ==>
        i < |s.hist| &&
        var (e, f) := (s.event, s.hist[i].frame);
        && e.fired && e.us == f.us && e.id == f.id && e.dlc == f.dlc && e.data == f.data
        && (c.mode == Write ==> e.kind == EvWrite)
        && (c.mode == Novel ==> e.kind == EvNewId || (e.kind == EvByteChange && e.index < 8 && e.now == f.data[e.index] && e.was != e.now))
  {
    hide Capture, Hit, NoHits, Broke, Tracked, Window, AlwaysWas;
    i := TriggerKept(c, ops);
    var s := Capture(c, ops);
    if s.triggered && c.mode == Novel {
      NovelTells(s.hist[..i], s.hist[i], s.event);
    }
  }

  lemma NovelTells(h: seq<Rec>, r: Rec, e: Event)
    requires Describes(h, r, e)
    ensures e.fired && e.us == r.frame.us && e.id == r.frame.id && e.dlc == r.frame.dlc && e.data == r.frame.data
    ensures e.kind == EvNewId || (e.kind == EvByteChange && e.index < 8 && e.now == r.frame.data[e.index] && e.was != e.now)
  {
    hide Tracked, AlwaysWas;
  }

  /** The control event carries what changed, at most eight bytes of it. */
  lemma ControlTells(c: Config, s: State, id: nat, did: nat, data: bytes, at: int)
    ensures s.running && !s.triggered && c.mode == Control ==>
      var (s', n) := (NoteControl(c, s, id, did, data, at), Min(8, |data|));
      s'.triggered &&
      var e := s'.event;
      && e.fired && e.kind == EvControl && e.id == id && e.did == did && e.dlc == n
      && e.us == (at - c.started) % 0x1_0000_0000 && e.data == data[..n] + Zeros(8 - n)
    ensures !(s.running && !s.triggered && c.mode == Control) ==> NoteControl(c, s, id, did, data, at) == s
  {
  }

  /** 65536 frames unless asked otherwise, at most 262144, half of them after the
      trigger unless asked otherwise; an upside-down range ends at 7FF. */
  lemma Configured(asked: nat, lo: nat, hi: nat, mode: Mode, post: nat, learnS: nat, skipOwn: bool, t0: int, t1: int)
    ensures var c := Configure(asked, lo, hi, mode, post, learnS, skipOwn, t0, t1);
      && c.cap == (if asked == 0 then 65536 else Min(asked, 262144))
      && c.lo == lo && c.hi == (if hi < lo then 0x7FF else hi) && c.mode == mode && c.skipOwn == skipOwn
      && c.post == (if post == 0 then c.cap / 2 else post)
      && c.learnUntil == t0 + 1000000 * learnS && c.started == t1
      && var s := Fresh(c); s.running && !s.triggered && s.hist == [] && s.skipped == 0 && s.post == c.post
  {
  }
}
