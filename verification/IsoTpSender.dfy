/** What isotp_send puts on the wire, whatever the peer answers. */
module IsoTpSender {
  import opened Bytes
  import opened Wrappers
  import opened IsoTp

  /** Everything logged between two states. */
  function New(b: Bus, b': Bus): seq<Entry>
    requires b.log <= b'.log
  {
    b'.log[|b.log|..]
  }

  /** The frames handed to the driver, in order. */
  function TxOf(log: seq<Entry>): seq<Frame> {
    if log == [] then []
    else (if log[0].Tx? then [log[0].frame] else []) + TxOf(log[1..])
  }

  function Addressed(id: nat, ds: seq<Data>): (r: seq<Frame>)
    ensures |r| == |ds|
  {
    seq(|ds|, i requires 0 <= i < |ds| => Frame(id, ds[i]))
  }

  lemma TxOfFront(log: seq<Entry>)
    ensures TxOf(log) == if log == [] then [] else (if log[0].Tx? then [log[0].frame] else []) + TxOf(log[1..])
  {
  }

  lemma {:induction false} TxOfConcat(a: seq<Entry>, b: seq<Entry>)
    ensures TxOf(a + b) == TxOf(a) + TxOf(b)
  {
    hide TxOf;
    if a == [] {
      TxOfFront([]);
      assert a + b == b && [] + TxOf(b) == TxOf(b);
    } else {
      assert (a + b)[1..] == a[1..] + b;
      TxOfFront(a);
      TxOfFront(a + b);
      TxOfConcat(a[1..], b);
    }
  }

  lemma TxOfOne(e: Entry)
    ensures TxOf([e]) == if e.Tx? then [e.frame] else []
  {
    assert [e][1..] == [];
  }

  lemma ReceiveLogs(b: Bus, ms: nat)
    ensures var (f, b1) := Receive(b, ms);
            b.log <= b1.log && New(b, b1) == (if f.Some? then [Rx(f.value)] else []) &&
            b1.plan == b.plan && b1.sends == b.sends && Now(b1) <= Now(b) + ms
  {
  }

  lemma NewConcat(b: Bus, b1: Bus, b': Bus)
    requires b.log <= b1.log <= b'.log
    ensures New(b, b') == New(b, b1) + New(b1, b') && TxOf(New(b, b')) == TxOf(New(b, b1)) + TxOf(New(b1, b'))
  {
    assert New(b, b') == New(b, b1) + New(b1, b');
    TxOfConcat(New(b, b1), New(b1, b'));
  }

  /** Waiting for flow control sends nothing. */
  lemma {:induction false} AwaitSilent(b: Bus, l: Link, deadline: nat, hard: nat, waits: nat)
    ensures var b' := AwaitFc(b, l, deadline, hard, waits).1;
            b.log <= b'.log && TxOf(New(b, b')) == [] && b'.plan == b.plan && b'.sends == b.sends
    decreases |b.incoming|
  {
    hide StminUs, New, TxOf;
    SelfSilent(b);
    if Now(b) < hard && Now(b) < deadline {
      var (f, b1) := Receive(b, deadline - Now(b));
      ReceiveLogs(b, deadline - Now(b));
      if f.Some? {
        TxOfOne(Rx(f.value));
        var b' := AwaitFc(b, l, deadline, hard, waits).1;
        if !IsFlowControl(l, f.value) {
          AwaitSilent(b1, l, deadline, hard, waits);
          NewConcat(b, b1, b');
        } else if f.value.data[0] % 16 == 1 && waits + 1 <= N_WFT_MAX {
          AwaitSilent(b1, l, Now(b1) + N_BS_MS, hard, waits + 1);
          NewConcat(b, b1, b');
        }
      }
    }
  }

  lemma SelfSilent(b: Bus)
    ensures New(b, b) == [] && TxOf([]) == []
  {
  }

  /** Frames sent so far are the first of `all`; on delivery they are all of it. */
  ghost predicate PrefixSent(b: Bus, b': Bus, id: nat, all: seq<Data>, r: Sent) {
    b.log <= b'.log && TxOf(New(b, b')) <= Addressed(id, all) &&
    (r.Delivered? ==> TxOf(New(b, b')) == Addressed(id, all))
  }

  /** One more frame in front of a run that sent a prefix of the rest. */
  lemma PrefixStep(b: Bus, b1: Bus, b': Bus, id: nat, d: Data, rest: seq<Data>, r: Sent)
    requires b.log <= b1.log && TxOf(New(b, b1)) == [Frame(id, d)]
    requires PrefixSent(b1, b', id, rest, r)
    ensures PrefixSent(b, b', id, [d] + rest, r)
  {
    assert New(b, b') == New(b, b1) + New(b1, b');
    TxOfConcat(New(b, b1), New(b1, b'));
    assert Addressed(id, [d] + rest) == [Frame(id, d)] + Addressed(id, rest);
  }

  lemma AfterWait(b: Bus, b1: Bus, b2: Bus, f: Frame)
    requires b.log <= b1.log <= b2.log && TxOf(New(b, b1)) == [f] && TxOf(New(b1, b2)) == []
    ensures TxOf(New(b, b2)) == [f]
  {
    assert New(b, b2) == New(b, b1) + New(b1, b2);
    TxOfConcat(New(b, b1), New(b1, b2));
  }

  lemma TransmitLogs(b: Bus, f: Frame)
    ensures var b1 := Transmit(b, f).1;
            b.log <= b1.log && TxOf(New(b, b1)) == [f]
  {
    TxOfOne(Tx(f, Transmit(b, f).0));
    assert New(b, Transmit(b, f).1) == [Tx(f, Transmit(b, f).0)];
  }

  lemma NothingSent(b: Bus, l: Link, rest: bytes, sn: nat)
    requires sn < 16
    ensures forall r: Sent :: (r.Delivered? ==> rest == []) ==> PrefixSent(b, b, l.tx, ConsFrames(rest, sn), r)
  {
    assert New(b, b) == [];
  }

  lemma SegmentStep(rest: bytes, sn: nat)
    requires sn < 16 && rest != []
    ensures ConsFrames(rest, sn) == [ConsFrame(sn, Take(rest, 7))] + ConsFrames(Drop(rest, 7), (sn + 1) % 16)
  {
  }

  /** One frame sent, and the send given up. */
  lemma OnlyFirst(b: Bus, b': Bus, id: nat, d: Data, rest: seq<Data>, r: Sent)
    requires b.log <= b'.log && TxOf(New(b, b')) == [Frame(id, d)] && r.Failed?
    ensures PrefixSent(b, b', id, [d] + rest, r)
  {
    assert Addressed(id, [d] + rest)[0] == Frame(id, d);
  }

  lemma {:induction false} CfsPrefix(b: Bus, l: Link, rest: bytes, sn: nat, inBlock: nat, bs: nat, st: nat, deadline: nat)
    requires sn < 16
    ensures var (r, b') := SendCfs(b, l, rest, sn, inBlock, bs, st, deadline);
            PrefixSent(b, b', l.tx, ConsFrames(rest, sn), r)
    decreases |rest|
  {
    hide ConsFrame, ConsFrames, AwaitFc, New, TxOf, Addressed;
    if rest == [] || Now(b) >= deadline {
      NothingSent(b, l, rest, sn);
    } else {
      SegmentStep(rest, sn);
      var b1 := if st > 0 then Delay(b, st) else b;
      var f := ConsFrame(sn, Take(rest, 7));
      var (ok, b2) := Transmit(b1, Frame(l.tx, f));
      TransmitLogs(b1, Frame(l.tx, f));
      SameNew(b, b1, b2);
      var rest', sn' := Drop(rest, 7), (sn + 1) % 16;
      var (r, b') := SendCfs(b, l, rest, sn, inBlock, bs, st, deadline);
      if !ok {
        OnlyFirst(b, b2, l.tx, f, ConsFrames(rest', sn'), r);
      } else if bs > 0 && inBlock + 1 == bs && rest' != [] {
        AwaitSilent(b2, l, Now(b2) + N_BS_MS, Now(b2) + MSG_MS, 0);
        var (g, b3) := StartAwait(b2, l);
        AfterWait(b, b2, b3, Frame(l.tx, f));
        if g.Granted? {
          CfsPrefix(b3, l, rest', sn', 0, g.bs, g.stminUs, deadline);
          PrefixStep(b, b3, b', l.tx, f, ConsFrames(rest', sn'), r);
        } else {
          OnlyFirst(b, b3, l.tx, f, ConsFrames(rest', sn'), r);
        }
      } else {
        CfsPrefix(b2, l, rest', sn', if bs > 0 then inBlock + 1 else inBlock, bs, st, deadline);
        PrefixStep(b, b2, b', l.tx, f, ConsFrames(rest', sn'), r);
      }
    }
  }

  /** Whatever arrives, only a prefix of the canonical segmentation goes out,
      addressed to the peer; a delivered message went out whole. */
  lemma OnlyThePrefix(b: Bus, l: Link, p: bytes)
    requires |p| <= MAX_PAYLOAD
    ensures var (r, b') := Send(b, l, p);
            PrefixSent(b, b', l.tx, Segments(p), r)
  {
    var (r, b') := Send(b, l, p);
    if |p| <= 7 {
      TransmitLogs(b, Frame(l.tx, SingleFrame(p)));
      assert Addressed(l.tx, Segments(p)) == [Frame(l.tx, SingleFrame(p))];
    } else {
      var f := FirstFrame(p);
      var (ok, b1) := Transmit(b, Frame(l.tx, f));
      TransmitLogs(b, Frame(l.tx, f));
      assert Addressed(l.tx, Segments(p))[0] == Frame(l.tx, f);
      if ok {
        AwaitSilent(b1, l, Now(b1) + N_BS_MS, Now(b1) + MSG_MS, 0);
        var (g, b2) := StartAwait(b1, l);
        AfterWait(b, b1, b2, Frame(l.tx, f));
        if g.Granted? {
          CfsPrefix(b2, l, p[6..], 1, 0, g.bs, g.stminUs, Now(b2) + MSG_MS);
          PrefixStep(b, b2, b', l.tx, f, ConsFrames(p[6..], 1), r);
        }
      }
    }
  }

  // ---- block gating: a monitor that reads the log alone ----

  /** How many consecutive frames the last clear-to-send still allows. */
  datatype Gate = Unlimited | Left(n: nat)

  function GateStep(l: Link, g: Gate, e: Entry): Option<Gate> {
    match e
    case Tx(f, ok) =>
      if HasPci(f.data, 1) then Some(Left(0))
      else if !HasPci(f.data, 2) || g == Unlimited then Some(g)
      else if g.n == 0 then None
      else Some(Left(g.n - 1))
    case Rx(f) =>
      if IsFlowControl(l, f) && f.data[0] % 16 == 0 then Some(if f.data[1] == 0 then Unlimited else Left(f.data[1]))
      else Some(g)
  }

  /** None once a consecutive frame goes out that no clear-to-send allows. */
  function GateRun(l: Link, g: Gate, log: seq<Entry>): Option<Gate>
    decreases |log|
  {
    if log == [] then Some(g)
    else match GateStep(l, g, log[0])
      case None => None
      case Some(g') => GateRun(l, g', log[1..])
  }

  lemma {:induction false} GateConcat(l: Link, g: Gate, a: seq<Entry>, b: seq<Entry>)
    ensures GateRun(l, g, a + b) ==
            if GateRun(l, g, a).None? then None else GateRun(l, GateRun(l, g, a).value, b)
    decreases |a|
  {
    if a == [] {
      assert a + b == b;
    } else {
      assert (a + b)[1..] == a[1..] + b;
      match GateStep(l, g, a[0])
      case None =>
      case Some(g') => GateConcat(l, g', a[1..], b);
    }
  }

  lemma GateOne(l: Link, g: Gate, e: Entry)
    ensures GateRun(l, g, [e]) == GateStep(l, g, e)
  {
    assert [e][1..] == [];
  }

  function Allowance(bs: nat): Gate {
    if bs == 0 then Unlimited else Left(bs)
  }

  lemma {:induction false} AwaitGate(b: Bus, l: Link, deadline: nat, hard: nat, waits: nat, g: Gate)
    ensures var (r, b') := AwaitFc(b, l, deadline, hard, waits);
            b.log <= b'.log && GateRun(l, g, New(b, b')).Some? &&
            (r.Granted? ==> GateRun(l, g, New(b, b')) == Some(Allowance(r.bs)))
    decreases |b.incoming|
  {
    hide StminUs, New, GateRun;
    SelfGate(b, l, g);
    if Now(b) < hard && Now(b) < deadline {
      var (f, b1) := Receive(b, deadline - Now(b));
      ReceiveLogs(b, deadline - Now(b));
      if f.Some? {
        GateOne(l, g, Rx(f.value));
        var b' := AwaitFc(b, l, deadline, hard, waits).1;
        if !IsFlowControl(l, f.value) {
          AwaitGate(b1, l, deadline, hard, waits, g);
          GateThen(l, g, b, b1, b');
        } else if f.value.data[0] % 16 == 1 && waits + 1 <= N_WFT_MAX {
          AwaitGate(b1, l, Now(b1) + N_BS_MS, hard, waits + 1, g);
          GateThen(l, g, b, b1, b');
        }
      }
    }
  }

  lemma SelfGate(b: Bus, l: Link, g: Gate)
    ensures New(b, b) == [] && GateRun(l, g, []) == Some(g)
  {
  }

  lemma GateThen(l: Link, g: Gate, b: Bus, b1: Bus, b': Bus)
    requires b.log <= b1.log <= b'.log && GateRun(l, g, New(b, b1)).Some?
    ensures GateRun(l, g, New(b, b')) == GateRun(l, GateRun(l, g, New(b, b1)).value, New(b1, b'))
  {
    assert New(b, b') == New(b, b1) + New(b1, b');
    GateConcat(l, g, New(b, b1), New(b1, b'));
  }

  /** The gate a sender inside a block stands before. */
  function Standing(bs: nat, inBlock: nat): Gate
    requires bs > 0 ==> inBlock < bs
  {
    if bs == 0 then Unlimited else Left(bs - inBlock)
  }

  lemma CfPasses(l: Link, b: Bus, sn: nat, chunk: bytes, bs: nat, inBlock: nat)
    requires sn < 16 && |chunk| <= 7 && (bs > 0 ==> inBlock < bs)
    ensures var b1 := Transmit(b, Frame(l.tx, ConsFrame(sn, chunk))).1;
            b.log <= b1.log &&
            GateRun(l, Standing(bs, inBlock), New(b, b1)) ==
            Some(if bs == 0 then Unlimited else Left(bs - inBlock - 1))
  {
    var f := Frame(l.tx, ConsFrame(sn, chunk));
    var (ok, b1) := Transmit(b, f);
    assert New(b, b1) == [Tx(f, ok)];
    assert f.data[0] == 32 + sn;
    GateOne(l, Standing(bs, inBlock), Tx(f, ok));
  }

  lemma SameNew(b: Bus, b1: Bus, b2: Bus)
    requires b.log == b1.log <= b2.log
    ensures New(b, b2) == New(b1, b2)
  {
  }

  lemma {:induction false} CfsGated(b: Bus, l: Link, rest: bytes, sn: nat, inBlock: nat, bs: nat, st: nat, deadline: nat)
    requires sn < 16 && (bs > 0 ==> inBlock < bs)
    ensures var b' := SendCfs(b, l, rest, sn, inBlock, bs, st, deadline).1;
            b.log <= b'.log && GateRun(l, Standing(bs, inBlock), New(b, b')).Some?
    decreases |rest|
  {
    hide New, GateRun, ConsFrame, AwaitFc;
    if rest == [] || Now(b) >= deadline {
      SelfGate(b, l, Standing(bs, inBlock));
    } else {
      var b1 := if st > 0 then Delay(b, st) else b;
      var f := Frame(l.tx, ConsFrame(sn, Take(rest, 7)));
      var (ok, b2) := Transmit(b1, f);
      CfPasses(l, b1, sn, Take(rest, 7), bs, inBlock);
      SameNew(b, b1, b2);
      var g := Standing(bs, inBlock);
      var g2 := GateRun(l, g, New(b, b2)).value;
      if ok {
        var rest', sn' := Drop(rest, 7), (sn + 1) % 16;
        if bs > 0 && inBlock + 1 == bs && rest' != [] {
          AwaitGate(b2, l, Now(b2) + N_BS_MS, Now(b2) + MSG_MS, 0, g2);
          var (r, b3) := StartAwait(b2, l);
          GateThen(l, g, b, b2, b3);
          if r.Granted? {
            CfsGated(b3, l, rest', sn', 0, r.bs, r.stminUs, deadline);
            GateThen(l, g, b, b3, SendCfs(b3, l, rest', sn', 0, r.bs, r.stminUs, deadline).1);
          }
        } else if rest' == [] {
          assert SendCfs(b2, l, rest', sn', if bs > 0 then inBlock + 1 else inBlock, bs, st, deadline).1 == b2;
        } else {
          CfsGated(b2, l, rest', sn', if bs > 0 then inBlock + 1 else inBlock, bs, st, deadline);
          GateThen(l, g, b, b2, SendCfs(b2, l, rest', sn', if bs > 0 then inBlock + 1 else inBlock, bs, st, deadline).1);
        }
      }
    }
  }

  /** Against any peer: no consecutive frame goes out that the last
      clear-to-send does not allow, at most BS of them for each when BS > 0. */
  lemma NeverBeyondTheBlock(b: Bus, l: Link, p: bytes)
    ensures var b' := Send(b, l, p).1;
            b.log <= b'.log && GateRun(l, Left(0), New(b, b')).Some?
  {
    SelfGate(b, l, Left(0));
    if |p| <= 7 {
      OpeningPasses(b, l, SingleFrame(p));
    } else if |p| <= MAX_PAYLOAD {
      OpeningPasses(b, l, FirstFrame(p));
      SegmentedGated(b, l, p);
    }
  }

  lemma OpeningPasses(b: Bus, l: Link, d: Data)
    requires d != [] && d[0] / 16 < 2
    ensures var b1 := Transmit(b, Frame(l.tx, d)).1;
            b.log <= b1.log && GateRun(l, Left(0), New(b, b1)) == Some(Left(0))
  {
    var (ok, b1) := Transmit(b, Frame(l.tx, d));
    assert New(b, b1) == [Tx(Frame(l.tx, d), ok)];
    GateOne(l, Left(0), Tx(Frame(l.tx, d), ok));
  }

  lemma SegmentedGated(b: Bus, l: Link, p: bytes)
    requires 7 < |p| <= MAX_PAYLOAD
    requires var b1 := Transmit(b, Frame(l.tx, FirstFrame(p))).1;
             b.log <= b1.log && GateRun(l, Left(0), New(b, b1)) == Some(Left(0))
    ensures var b' := Send(b, l, p).1;
            b.log <= b'.log && GateRun(l, Left(0), New(b, b')).Some?
  {
    hide New, GateRun, AwaitFc, SendCfs, FirstFrame;
    var (ok, b1) := Transmit(b, Frame(l.tx, FirstFrame(p)));
    if ok {
      AwaitGate(b1, l, Now(b1) + N_BS_MS, Now(b1) + MSG_MS, 0, Left(0));
      var (r, b2) := StartAwait(b1, l);
      GateThen(l, Left(0), b, b1, b2);
      if r.Granted? {
        CfsGated(b2, l, p[6..], 1, 0, r.bs, r.stminUs, Now(b2) + MSG_MS);
        GateThen(l, Left(0), b, b2, SendCfs(b2, l, p[6..], 1, 0, r.bs, r.stminUs, Now(b2) + MSG_MS).1);
      }
    }
  }

  // ---- the three-second ceiling of a send ----

  /** A quiet bus: every transmission succeeds at once. */
  ghost predicate Instant(b: Bus) {
    forall k :: b.plan(k) == Sending(true, 0)
  }

  lemma {:induction false} UngatedTiming(b: Bus, l: Link, rest: bytes, sn: nat, s: nat, deadline: nat)
    requires sn < 16 && Instant(b)
    ensures var r := SendCfs(b, l, rest, sn, 0, 0, 1000 * s, deadline).0;
            r == if rest == [] || Now(b) + (CfCount(|rest|) - 1) * s < deadline then Delivered else Failed(Timeout)
    decreases |rest|
  {
    if rest != [] {
      var k := CfCount(|rest|);
      if Now(b) >= deadline {
        assert (k - 1) * s >= 0;
      } else {
        var b1 := if 1000 * s > 0 then Delay(b, 1000 * s) else b;
        assert Now(b1) == Now(b) + s;
        var b2 := Transmit(b1, Frame(l.tx, ConsFrame(sn, Take(rest, 7)))).1;
        var rest' := Drop(rest, 7);
        UngatedTiming(b2, l, rest', (sn + 1) % 16, s, deadline);
        if rest' != [] {
          assert CfCount(|rest'|) == k - 1;
          assert s + (k - 2) * s == (k - 1) * s;
        } else {
          assert k == 1;
        }
      }
    }
  }

  /** With instant I/O and an immediate clear-to-send for everything at `s` ms
      separation, a segmented message is delivered exactly when its last
      consecutive frame starts within the three seconds. n / 7 is the number of
      consecutive frames, (n - 6) / 7 rounded up. */
  lemma DeliveredExactlyInTime(b: Bus, l: Link, p: bytes, s: byte)
    requires 7 < |p| <= 4095 && Instant(b) && s <= 0x7F
    requires b.incoming != [] && b.incoming[0].at <= b.us
    requires b.incoming[0].frame == Frame(l.rx, [0x30, 0, s, 0, 0, 0, 0, 0])
    ensures Send(b, l, p).0 == if (|p| / 7 - 1) * s < 3000 then Delivered else Failed(Timeout)
  {
    var b1 := Transmit(b, Frame(l.tx, FirstFrame(p))).1;
    var (g, b2) := StartAwait(b1, l);
    assert g == Granted(0, 1000 * s) && Now(b2) == Now(b1);
    UngatedTiming(b2, l, p[6..], 1, s, Now(b2) + MSG_MS);
    assert CfCount(|p| - 6) == |p| / 7;
  }
}
