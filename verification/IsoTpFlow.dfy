/** Flow control between the two halves of main/isotp.c, and the frames byte for
    byte (sections 9.6 and 9.8 of ISO 15765-2). */
module IsoTpFlow {
  import opened Bytes
  import opened Wrappers
  import opened IsoTp
  import opened IsoTpSender
  import opened IsoTpReceiver

  // ---- the frames ----

  /** Every frame has eight bytes, padded with zeros. */
  lemma SingleFrameBytes(p: bytes)
    requires |p| <= 7
    ensures Segments(p) == [[|p|] + p + Zeros(7 - |p|)]
  {
  }

  lemma FirstFrameBytes(p: bytes)
    requires 8 <= |p| <= 4095
    ensures Segments(p)[0] == [0x10 + |p| / 256, |p| % 256, p[0], p[1], p[2], p[3], p[4], p[5]]
    ensures |Segments(p)| == 1 + |p| / 7
  {
    hide ConsFrames;
    ConsLength(p[6..], 1);
    assert p[..6] == [p[0], p[1], p[2], p[3], p[4], p[5]];
  }

  lemma {:induction false} ConsLength(rest: bytes, sn: nat)
    requires sn < 16
    ensures |ConsFrames(rest, sn)| == CfCount(|rest|)
    decreases |rest|
  {
    if rest != [] {
      ConsLength(Drop(rest, 7), (sn + 1) % 16);
    }
  }

  /** Consecutive frame `k`, counted from 0, is numbered 1, 2, ... 15, 0, 1 and
      carries seven bytes, the last one what is left. */
  lemma {:induction false} ConsFrameBytes(rest: bytes, sn: nat, k: nat)
    requires sn < 16 && 7 * k < |rest|
    ensures k < |ConsFrames(rest, sn)|
    ensures var f, chunk := ConsFrames(rest, sn)[k], Take(Drop(rest, 7 * k), 7);
      |f| == 8 && f[0] == 0x20 + (sn + k) % 16 && f[1..] == chunk + Zeros(7 - |chunk|)
    decreases |rest|
  {
    hide ConsFrame;
    ConsLength(rest, sn);
    var tail := ConsFrames(Drop(rest, 7), (sn + 1) % 16);
    assert ConsFrames(rest, sn) == [ConsFrame(sn, Take(rest, 7))] + tail;
    if k == 0 {
      ConsIs(sn, Take(rest, 7));
      assert Drop(rest, 0) == rest;
    } else {
      ConsFrameBytes(Drop(rest, 7), (sn + 1) % 16, k - 1);
      NextNumber(sn, k);
      assert Drop(Drop(rest, 7), 7 * (k - 1)) == Drop(rest, 7 * k);
    }
  }

  lemma ConsIs(sn: nat, c: bytes)
    requires sn < 16 && |c| <= 7
    ensures ConsFrame(sn, c) == [0x20 + sn] + (c + Zeros(7 - |c|))
  {
  }

  lemma NextNumber(sn: nat, k: nat)
    requires k > 0
    ensures ((sn + 1) % 16 + (k - 1)) % 16 == (sn + k) % 16
  {
  }

  // ---- waiting for flow control ----

  /** Milliseconds up to 7F, F1 to F9 hundreds of microseconds, and the reserved
      values as 127 ms. */
  lemma SeparationMeans(stmin: byte)
    ensures stmin <= 127 ==> StminUs(stmin) == 1000 * stmin
    ensures 0xF1 <= stmin <= 0xF9 ==> StminUs(stmin) == 100 * (stmin - 0xF0)
    ensures 127 < stmin && !(0xF1 <= stmin <= 0xF9) ==> StminUs(stmin) == 127000
  {
  }

  /** The next frame is flow control: it decides if it comes within a second; 0
      grants its block size and separation time, 1 makes the sender wait again, 2
      is overflow and anything else is refused. */
  lemma FlowAnswered(b: Bus, l: Link, d: Data, at: nat, more: seq<Arrival>)
    requires b.incoming == [Arrival(at, Frame(l.rx, d))] + more && |d| >= 3 && d[0] / 16 == 3
    ensures var r := StartAwait(b, l).0;
      if at > b.us + 1000000 then r == Denied(Timeout)
      else if d[0] == 0x30 then r == Granted(d[1], StminUs(d[2]))
      else if d[0] == 0x32 then r == Denied(Overflow)
      else d[0] != 0x31 ==> r == Denied(Protocol)
  {
    hide StminUs;
  }

  /** The peer may ask for more time four times in a row, and not a fifth time. */
  lemma {:induction false} WaitsAllowed(b: Bus, l: Link, deadline: nat, hard: nat, waits: nat, k: nat, more: seq<Arrival>)
    requires waits <= 4 && Now(b) < deadline && Now(b) < hard
    requires b.incoming == seq(k, i => Arrival(b.us, Frame(l.rx, [0x31, 0, 0, 0, 0, 0, 0, 0])))
                           + [Arrival(b.us, Frame(l.rx, [0x30, 0, 0, 0, 0, 0, 0, 0]))] + more
    ensures AwaitFc(b, l, deadline, hard, waits).0 == if waits + k <= 4 then Granted(0, 0) else Denied(Timeout)
    decreases k
  {
    var wait := Arrival(b.us, Frame(l.rx, [0x31, 0, 0, 0, 0, 0, 0, 0]));
    var tail := [Arrival(b.us, Frame(l.rx, [0x30, 0, 0, 0, 0, 0, 0, 0]))] + more;
    if k > 0 {
      assert b.incoming[0] == wait;
      assert b.incoming[1..] == seq(k - 1, i => wait) + tail;
      var (f, b1) := Receive(b, deadline - Now(b));
      assert f == Some(wait.frame) && b1.us == b.us && b1.incoming == b.incoming[1..];
      if waits < 4 {
        WaitsAllowed(b1, l, Now(b1) + N_BS_MS, hard, waits + 1, k - 1, more);
      }
    } else {
      assert b.incoming == tail;
    }
  }

  // ---- what a send reports ----

  /** The driver refused a transmission. */
  predicate Refused(es: seq<Entry>) {
    exists e | e in es :: e.Tx? && !e.ok
  }

  ghost predicate Reported(b: Bus, b': Bus, bad: bool) {
    b.log <= b'.log && (Refused(New(b, b')) <==> bad)
  }

  lemma {:induction false} SilentNotRefused(es: seq<Entry>)
    requires TxOf(es) == []
    ensures !Refused(es)
  {
    if es != [] {
      SilentNotRefused(es[1..]);
      assert forall e | e in es :: e == es[0] || e in es[1..];
    }
  }

  lemma {:induction false} AwaitReported(b: Bus, l: Link, deadline: nat, hard: nat, waits: nat)
    ensures var (g, b') := AwaitFc(b, l, deadline, hard, waits);
      Reported(b, b', false) && (g.Denied? ==> g.error in {Timeout, Overflow, Protocol})
    decreases |b.incoming|
  {
    hide Refused, StminUs, New, TxOf;
    AwaitSilent(b, l, deadline, hard, waits);
    SilentNotRefused(New(b, AwaitFc(b, l, deadline, hard, waits).1));
    if Now(b) < hard && Now(b) < deadline {
      var (f, b1) := Receive(b, deadline - Now(b));
      if f.Some? && !IsFlowControl(l, f.value) {
        AwaitReported(b1, l, deadline, hard, waits);
      } else if f.Some? && waits + 1 <= N_WFT_MAX {
        AwaitReported(b1, l, Now(b1) + N_BS_MS, hard, waits + 1);
      }
    }
  }

  lemma TransmitReported(b: Bus, f: Frame)
    ensures Reported(b, Transmit(b, f).1, !Transmit(b, f).0)
  {
    var (ok, b1) := Transmit(b, f);
    assert New(b, b1) == [Tx(f, ok)];
    assert [Tx(f, ok)][0] in [Tx(f, ok)];
  }

  lemma ReportedThen(b: Bus, b1: Bus, b': Bus, bad: bool)
    requires Reported(b, b1, false) && Reported(b1, b', bad)
    ensures Reported(b, b', bad)
  {
    assert New(b, b') == New(b, b1) + New(b1, b');
    assert forall e :: e in New(b, b') <==> e in New(b, b1) || e in New(b1, b');
  }

  lemma {:induction false} CfsReported(b: Bus, l: Link, rest: bytes, sn: nat, inBlock: nat, bs: nat, st: nat, deadline: nat)
    requires sn < 16
    ensures var (s, b') := SendCfs(b, l, rest, sn, inBlock, bs, st, deadline);
      Reported(b, b', s == Failed(BusError)) && s != Failed(TooLong)
    decreases |rest|
  {
    hide Reported, StartAwait, Transmit, ConsFrame;
    assert Reported(b, b, false) by { StillReported(b, b); }
    if rest != [] && Now(b) < deadline {
      var b1 := if st > 0 then Delay(b, st) else b;
      StillReported(b, b1);
      var f := Frame(l.tx, ConsFrame(sn, Take(rest, 7)));
      TransmitReported(b1, f);
      var (ok, b2) := Transmit(b1, f);
      ReportedThen(b, b1, b2, !ok);
      if ok {
        var rest', sn' := Drop(rest, 7), (sn + 1) % 16;
        if bs > 0 && inBlock + 1 == bs && rest' != [] {
          StartReported(b2, l);
          var (g, b3) := StartAwait(b2, l);
          ReportedThen(b, b2, b3, false);
          if g.Granted? {
            CfsReported(b3, l, rest', sn', 0, g.bs, g.stminUs, deadline);
            var (s, b') := SendCfs(b3, l, rest', sn', 0, g.bs, g.stminUs, deadline);
            ReportedThen(b, b3, b', s == Failed(BusError));
          }
        } else {
          var k := if bs > 0 then inBlock + 1 else inBlock;
          CfsReported(b2, l, rest', sn', k, bs, st, deadline);
          var (s, b') := SendCfs(b2, l, rest', sn', k, bs, st, deadline);
          ReportedThen(b, b2, b', s == Failed(BusError));
        }
      }
    }
  }

  lemma StartReported(b: Bus, l: Link)
    ensures var (g, b') := StartAwait(b, l); Reported(b, b', false) && (g.Denied? ==> g.error in {Timeout, Overflow, Protocol})
  {
    AwaitReported(b, l, Now(b) + N_BS_MS, Now(b) + MSG_MS, 0);
  }

  lemma StillReported(b: Bus, b': Bus)
    requires b'.log == b.log
    ensures Reported(b, b', false)
  {
    assert New(b, b') == [];
  }

  /** Against any peer and any driver: a send reports a bus error exactly when the
      driver refused one of its frames, and that it is too long exactly when it is,
      with nothing sent; so what it reports as delivered went out whole. */
  lemma SendReported(b: Bus, l: Link, p: bytes)
    ensures var (s, b') := Send(b, l, p);
      && Reported(b, b', s == Failed(BusError))
      && (s == Failed(TooLong) <==> |p| > 4095) && (|p| > 4095 ==> b' == b)
  {
    hide Reported, StartAwait, Transmit, SendCfs, SingleFrame, FirstFrame;
    StillReported(b, b);
    if |p| <= 7 {
      TransmitReported(b, Frame(l.tx, SingleFrame(p)));
    } else if |p| <= MAX_PAYLOAD {
      TransmitReported(b, Frame(l.tx, FirstFrame(p)));
      var (ok, b1) := Transmit(b, Frame(l.tx, FirstFrame(p)));
      if ok {
        StartReported(b1, l);
        var (g, b2) := StartAwait(b1, l);
        ReportedThen(b, b1, b2, false);
        if g.Granted? {
          CfsReported(b2, l, p[6..], 1, 0, g.bs, g.stminUs, Now(b2) + MSG_MS);
          var (s, b') := SendCfs(b2, l, p[6..], 1, 0, g.bs, g.stminUs, Now(b2) + MSG_MS);
          ReportedThen(b, b2, b', s == Failed(BusError));
        }
      }
    }
  }

  // ---- the closed loop ----

  /** What a receiver with room answers to a first frame: clear to send, no blocks,
      its own separation time. */
  lemma AnswersFirstFrame(b: Bus, l: Link, p: bytes, room: nat)
    requires 8 <= |p| <= 4095 && |p| <= room
    ensures var b' := RecvBody(b, l, 8, FirstFrame(p), room).1;
      b.log < b'.log && b'.log[|b.log|].Tx? && b'.log[|b.log|].frame == Frame(l.tx, [0x30, 0, l.stmin, 0, 0, 0, 0, 0])
  {
    hide RecvCfs, FlowFrame, Transmit, FirstFrame;
    FirstFrameBody(b, l, p, room);
    var f := Frame(l.tx, FlowFrame(0, BLOCKSIZE, l.stmin));
    ClearToSend(l.stmin);
    var (ok, b1) := Transmit(b, f);
    OneLogged(b, f);
    if ok {
      CfsSound(b1, l, p[..6], |p|, 1, Now(b1) + MSG_MS, FirstFrame(p));
    }
  }

  /** One without room answers overflow and gives up. */
  lemma AnswersTooLong(b: Bus, l: Link, p: bytes, room: nat)
    requires 8 <= |p| <= 4095 && |p| > room
    ensures var (r, b', buf') := RecvBody(b, l, 8, FirstFrame(p), room);
      r == Missed(TooLong) && b'.log[|b.log|..] == [Tx(Frame(l.tx, [0x32, 0, 0, 0, 0, 0, 0, 0]), Transmit(b, Frame(l.tx, FlowFrame(2, 0, 0))).0)]
  {
    FirstFrameShape(p);
    assert FlowFrame(2, 0, 0) == [0x32, 0, 0, 0, 0, 0, 0, 0];
  }

  lemma ClearToSend(stmin: byte)
    ensures FlowFrame(0, BLOCKSIZE, stmin) == [0x30, 0, stmin, 0, 0, 0, 0, 0]
  {
  }

  lemma OneLogged(b: Bus, f: Frame)
    ensures Transmit(b, f).1.log == b.log + [Tx(f, Transmit(b, f).0)]
  {
  }

  /** A sender that hears this answer within a second needs no other: it is granted
      everything and listens to nothing more. */
  lemma GrantedForAll(b: Bus, l: Link, stmin: byte, at: nat, more: seq<Arrival>, rest: bytes)
    requires b.incoming == [Arrival(at, Frame(l.rx, [0x30, 0, stmin, 0, 0, 0, 0, 0]))] + more && at <= b.us + 1000000
    ensures var (g, b1) := StartAwait(b, l);
      && g == Granted(0, StminUs(stmin)) && b1.incoming == more
      && SendCfs(b1, l, rest, 1, 0, 0, StminUs(stmin), Now(b1) + MSG_MS).1.incoming == more
  {
    hide StminUs;
    FlowAnswered(b, l, [0x30, 0, stmin, 0, 0, 0, 0, 0], at, more);
    var b1 := StartAwait(b, l).1;
    HearsNothing(b1, l, rest, 1, StminUs(stmin), Now(b1) + MSG_MS);
  }

  lemma {:induction false} HearsNothing(b: Bus, l: Link, rest: bytes, sn: nat, st: nat, deadline: nat)
    requires sn < 16
    ensures SendCfs(b, l, rest, sn, 0, 0, st, deadline).1.incoming == b.incoming
    decreases |rest|
  {
    if rest != [] && Now(b) < deadline {
      var b1 := if st > 0 then Delay(b, st) else b;
      var (ok, b2) := Transmit(b1, Frame(l.tx, ConsFrame(sn, Take(rest, 7))));
      if ok {
        HearsNothing(b2, l, Drop(rest, 7), (sn + 1) % 16, st, deadline);
      }
    }
  }
}
