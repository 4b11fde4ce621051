/** The other half of main/uds.c: a read succeeds exactly when it is answered in
    time. */
module UdsAnswered {
  import opened Bytes
  import opened Wrappers
  import opened IsoTp
  import opened IsoTpSender
  import opened IsoTpReceiver
  import opened Uds

  // ---- frames are taken in the order they arrive, each once ----

  /** What was to come is what has been heard and what is still to come. */
  ghost predicate Taken(b: Bus, b': Bus, id: nat) {
    b.log <= b'.log && OnId(b.incoming, id) == RxOn(New(b, b'), id) + OnId(b'.incoming, id)
  }

  lemma TakenSelf(b: Bus, b': Bus, id: nat)
    requires b'.log == b.log && b'.incoming == b.incoming
    ensures Taken(b, b', id)
  {
    assert New(b, b') == [];
  }

  lemma TakenThen(b: Bus, b1: Bus, b': Bus, id: nat)
    requires Taken(b, b1, id) && Taken(b1, b', id)
    ensures Taken(b, b', id)
  {
    RxThen(b, b1, b', id);
  }

  lemma TransmitTakes(b: Bus, f: Frame, id: nat)
    ensures Taken(b, Transmit(b, f).1, id)
  {
    var (ok, b1) := Transmit(b, f);
    assert New(b, b1) == [Tx(f, ok)];
    RxOnOne(Tx(f, ok), id);
  }

  lemma ReceiveTakes(b: Bus, ms: nat, id: nat)
    ensures Taken(b, Receive(b, ms).1, id)
  {
    var (f, b1) := Receive(b, ms);
    if f.Some? {
      assert New(b, b1) == [Rx(f.value)];
      RxOnOne(Rx(f.value), id);
    } else {
      TakenSelf(b, b1, id);
    }
  }

  lemma {:induction false} OpeningTakes(b: Bus, l: Link, deadline: nat, buf: bytes)
    requires |buf| == 8
    ensures Taken(b, AwaitOpening(b, l, deadline, buf).1, l.rx)
    decreases |b.incoming|
  {
    hide Taken;
    TakenSelf(b, b, l.rx);
    if Now(b) < deadline {
      var (f, b1) := Receive(b, deadline - Now(b));
      ReceiveTakes(b, deadline - Now(b), l.rx);
      if f.Some? && !Opens(l, f.value) {
        OpeningTakes(b1, l, deadline, Over(f.value.data, buf));
        TakenThen(b, b1, AwaitOpening(b1, l, deadline, Over(f.value.data, buf)).1, l.rx);
      }
    }
  }

  lemma {:induction false} CfsTake(b: Bus, l: Link, got: bytes, total: nat, sn: nat, deadline: nat, buf: bytes)
    requires |buf| == 8 && sn < 16
    ensures Taken(b, RecvCfs(b, l, got, total, sn, deadline, buf).1, l.rx)
    decreases |b.incoming|
  {
    hide Taken;
    TakenSelf(b, b, l.rx);
    if |got| < total && Now(b) < deadline {
      var (f, b1) := Receive(b, N_CR_MS);
      ReceiveTakes(b, N_CR_MS, l.rx);
      if f.Some? {
        var buf1 := Over(f.value.data, buf);
        if f.value.id != l.rx {
          CfsTake(b1, l, got, total, sn, deadline, buf1);
          TakenThen(b, b1, RecvCfs(b1, l, got, total, sn, deadline, buf1).1, l.rx);
        } else if buf1[0] / 16 == 2 && buf1[0] % 16 == sn {
          var chunk := Min(7, total - |got|);
          if chunk + 1 <= |f.value.data| {
            var next := got + buf1[1..1 + chunk];
            CfsTake(b1, l, next, total, (sn + 1) % 16, deadline, buf1);
            TakenThen(b, b1, RecvCfs(b1, l, next, total, (sn + 1) % 16, deadline, buf1).1, l.rx);
          }
        }
      }
    }
  }

  lemma BodyTakes(b: Bus, l: Link, len: nat, buf: bytes, room: nat)
    requires |buf| == 8 && len <= 8
    ensures Taken(b, RecvBody(b, l, len, buf, room).1, l.rx)
  {
    hide Taken, RecvCfs, FlowFrame;
    TakenSelf(b, b, l.rx);
    TransmitTakes(b, Frame(l.tx, FlowFrame(2, 0, 0)), l.rx);
    var f := Frame(l.tx, FlowFrame(0, BLOCKSIZE, l.stmin));
    TransmitTakes(b, f, l.rx);
    var b1, total := Transmit(b, f).1, Total(buf[0], buf[1]);
    CfsTake(b1, l, buf[2..8], total, 1, Now(b1) + MSG_MS, buf);
    TakenThen(b, b1, RecvCfs(b1, l, buf[2..8], total, 1, Now(b1) + MSG_MS, buf).1, l.rx);
  }

  lemma RecvTakes(b: Bus, l: Link, room: nat, timeout: nat, buf: bytes)
    requires |buf| == 8
    ensures Taken(b, Recv(b, l, room, timeout, buf).1, l.rx)
  {
    hide Taken, AwaitOpening, RecvBody;
    OpeningTakes(b, l, Now(b) + timeout, buf);
    var (f, b1, buf1) := AwaitOpening(b, l, Now(b) + timeout, buf);
    if f.Some? {
      BodyTakes(b1, l, |f.value.data|, buf1, room);
      TakenThen(b, b1, RecvBody(b1, l, |f.value.data|, buf1, room).1, l.rx);
    }
  }

  // ---- a message takes its own frames and no more ----

  lemma {:induction false} CfsLength(frames: seq<Data>, p: bytes, sn: nat)
    requires CfsCarry(frames, p, sn)
    ensures |frames| == CfCount(|p|)
    decreases |p|
  {
    if p != [] {
      CfsLength(frames[1..], p[Min(7, |p|)..], (sn + 1) % 16);
    }
  }

  lemma SameLength(fs: seq<Data>, gs: seq<Data>, p: bytes)
    requires Carries(fs, p) && Carries(gs, p) && fs[0] == gs[0]
    ensures |fs| == |gs|
  {
    if !HasPci(fs[0], 0) && |p| > 6 {
      CfsLength(fs[1..], p[6..], 1);
      CfsLength(gs[1..], p[6..], 1);
    }
  }

  lemma NotIdle(p: bytes)
    requires |p| <= MAX_PAYLOAD
    ensures Segments(p) != [] && !Idle(Segments(p)[0])
  {
    SegmentsFront(p);
  }

  /** After a message has been received, what follows it is still to come. */
  lemma OwnFramesOnly(b: Bus, l: Link, p: bytes, room: nat, timeout: nat, buf: bytes, more: seq<Data>)
    requires |buf| == 8 && |p| <= MAX_PAYLOAD && OnId(b.incoming, l.rx) == Segments(p) + more
    requires var r := Recv(b, l, room, timeout, buf).0; r.Got? && r.payload == p
    ensures OnId(Recv(b, l, room, timeout, buf).1.incoming, l.rx) == more
  {
    hide Recv, Segments, OnId, RxOn, Carries, Idle;
    OnlyWhatWasHeard(b, l, room, timeout, buf);
    RecvTakes(b, l, room, timeout, buf);
    SegmentsCarry(p);
    NotIdle(p);
    var b' := Recv(b, l, room, timeout, buf).1;
    var fs, rest := RxOn(New(b, b'), l.rx), OnId(b'.incoming, l.rx);
    var k :| 0 <= k <= |fs| && (forall i :: 0 <= i < k ==> Idle(fs[i])) && Carries(fs[k..], p);
    CarriesSome(fs[k..], p);
    assert fs + rest == Segments(p) + more;
    assert fs[0] == (fs + rest)[0] == Segments(p)[0];
    assert k == 0 && fs[0..] == fs;
    SameLength(fs, Segments(p), p);
    assert rest == (fs + rest)[|fs|..] == (Segments(p) + more)[|fs|..] == more;
  }

  lemma CarriesSome(fs: seq<Data>, p: bytes)
    requires Carries(fs, p)
    ensures fs != []
  {
  }

  // ---- the whole conversation ----

  /** The time conditions of one message: no ceiling passes, flow control gets
      out. */
  predicate Timely(b: Bus, l: Link, p: bytes, timeout: nat, buf: bytes)
    requires |buf| == 8
  {
    var b1 := AwaitOpening(b, l, Now(b) + timeout, buf).1;
    var (ok, b2) := Transmit(b1, Frame(l.tx, FlowFrame(0, BLOCKSIZE, l.stmin)));
    && Prompt(b.incoming, l.rx, b.us, Now(b) + timeout)
    && (|p| > 7 ==> ok && Steady(b2.incoming, l.rx, |p| / 7, b2.us, Now(b2) + 3000))
  }

  /** So for each message in turn, from where the one before it left the bus; each
      pending reply grants five times the first wait, at most five seconds. */
  predicate AllTimely(b: Bus, l: Link, room: nat, timeout: nat, p2: nat, msgs: seq<bytes>, buf: bytes)
    requires |buf| == 8
    decreases |msgs|
  {
    msgs == [] ||
    (Timely(b, l, msgs[0], timeout, buf) &&
     var (_, b', buf') := Recv(b, l, room, timeout, buf);
     RecvKeeps(b, l, room, timeout, buf);
     AllTimely(b', l, room, Min(5 * p2, 5000), p2, msgs[1..], buf'))
  }

  lemma AllTimelyStep(b: Bus, l: Link, room: nat, timeout: nat, p2: nat, msgs: seq<bytes>, buf: bytes)
    requires |buf| == 8 && msgs != []
    ensures var (_, b', buf') := Recv(b, l, room, timeout, buf);
      |buf'| == 8 &&
      (AllTimely(b, l, room, timeout, p2, msgs, buf) <==>
       Timely(b, l, msgs[0], timeout, buf) && AllTimely(b', l, room, Min(5 * p2, 5000), p2, msgs[1..], buf'))
  {
    hide Recv, Timely, P2Star;
    RecvKeeps(b, l, room, timeout, buf);
    P2StarIs(p2);
  }

  lemma NoneLate(b: Bus, l: Link, room: nat, timeout: nat, p2: nat, buf: bytes)
    requires |buf| == 8
    ensures AllTimely(b, l, room, timeout, p2, [], buf)
  {
  }

  function AllSegments(msgs: seq<bytes>): seq<Data>
    requires forall m | m in msgs :: |m| <= MAX_PAYLOAD
  {
    if msgs == [] then [] else Segments(msgs[0]) + AllSegments(msgs[1..])
  }

  lemma MessageTaken(b: Bus, l: Link, p: bytes, room: nat, timeout: nat, buf: bytes, more: seq<Data>)
    requires |buf| == 8 && |p| <= MAX_PAYLOAD && |p| <= room
    requires OnId(b.incoming, l.rx) == Segments(p) + more
    ensures var (r, b', buf') := Recv(b, l, room, timeout, buf);
      && (!Timely(b, l, p, timeout, buf) ==> r.Missed?)
      && (Timely(b, l, p, timeout, buf) ==> r == Got(p, |p| > 7) && |buf'| == 8 && OnId(b'.incoming, l.rx) == more)
  {
    hide Recv, Segments, OnId, AwaitOpening, Prompt, Steady, FlowFrame;
    ReceivedExactlyInTime(b, l, p, room, timeout, buf, more);
    if Timely(b, l, p, timeout, buf) {
      OwnFramesOnly(b, l, p, room, timeout, buf, more);
      RecvKeeps(b, l, room, timeout, buf);
    }
  }

  /** What the first message that is not "response pending" means. */
  function Meaning(m: bytes, sid: byte): Result<bytes, UdsError> {
    if |m| >= 3 && m[0] == 0x7F then Err(Rejected(m[2]))
    else if |m| >= 1 && m[0] != 0x7F && m[0] == sid then Ok(m)
    else Err(Malformed)
  }

  predicate SaysPending(m: bytes) {
    |m| >= 3 && m[0] == 0x7F && m[2] == 0x78
  }

  lemma Judged(m: bytes, sid: byte)
    requires sid != 0x7F
    ensures Judge(m, sid) == Pending <==> SaysPending(m)
    ensures !SaysPending(m) ==> Judge(m, sid) == if Meaning(m, sid).Ok? then Final else Wrong(Meaning(m, sid).error)
    ensures Meaning(m, sid).Ok? ==> Meaning(m, sid).value == m
  {
  }

  /** Pending replies and then another one: it decides if all are in time, and
      otherwise the wait fails. */
  lemma {:induction false} ResponseTaken(b: Bus, l: Link, sid: byte, room: nat, timeout: nat, p2: nat, left: nat, buf: bytes,
                                         waits: seq<bytes>, last: bytes, more: seq<Data>)
    requires |buf| == 8 && |waits| <= left && sid != 0x7F && !SaysPending(last) && forall m | m in waits :: SaysPending(m)
    requires forall m | m in waits + [last] :: |m| <= MAX_PAYLOAD && |m| <= room
    requires OnId(b.incoming, l.rx) == AllSegments(waits + [last]) + more
    ensures var r := RecvResponse(b, l, sid, room, timeout, p2, left, buf).0;
      if AllTimely(b, l, room, timeout, p2, waits + [last], buf) then r == Meaning(last, sid) else r.Err?
    decreases |waits|
  {
    hide Recv, Segments, OnId, Timely, P2Star, AllTimely, Judge, Meaning;
    var msgs := waits + [last];
    AllTimelyStep(b, l, room, timeout, p2, msgs, buf);
    var m, tail := msgs[0], AllSegments(msgs[1..]) + more;
    assert AllSegments(msgs) + more == Segments(m) + tail;
    MessageTaken(b, l, m, room, timeout, buf, tail);
    Judged(m, sid);
    P2StarIs(p2);
    var (_, b', buf') := Recv(b, l, room, timeout, buf);
    if waits == [] {
      assert m == last && msgs[1..] == [];
      NoneLate(b', l, room, P2Star(p2), p2, buf');
    } else if Timely(b, l, m, timeout, buf) {
      assert m == waits[0] && msgs[1..] == waits[1..] + [last];
      ResponseTaken(b', l, sid, room, P2Star(p2), p2, left - 1, buf', waits[1..], last, more);
    }
  }

  /** One pending reply too many ends the wait. */
  lemma {:induction false} TooManyPending(b: Bus, l: Link, sid: byte, room: nat, timeout: nat, p2: nat, left: nat, buf: bytes,
                                          waits: seq<bytes>, more: seq<Data>)
    requires |buf| == 8 && |waits| == left + 1 && sid != 0x7F && forall m | m in waits :: SaysPending(m)
    requires forall m | m in waits :: |m| <= MAX_PAYLOAD && |m| <= room
    requires OnId(b.incoming, l.rx) == AllSegments(waits) + more && AllTimely(b, l, room, timeout, p2, waits, buf)
    ensures RecvResponse(b, l, sid, room, timeout, p2, left, buf).0 == Err(NoResponse)
    decreases |waits|
  {
    hide Recv, Segments, OnId, Timely, P2Star, AllTimely, Judge, Meaning;
    AllTimelyStep(b, l, room, timeout, p2, waits, buf);
    var m, tail := waits[0], AllSegments(waits[1..]) + more;
    assert AllSegments(waits) + more == Segments(m) + tail;
    MessageTaken(b, l, m, room, timeout, buf, tail);
    Judged(m, sid);
    P2StarIs(p2);
    if left > 0 {
      var (_, b', buf') := Recv(b, l, room, timeout, buf);
      TooManyPending(b', l, sid, room, P2Star(p2), p2, left - 1, buf', waits[1..], more);
    }
  }

  /** A read to which the ECU replies with up to three pending messages and then
      another one. When its request goes out and every reply is in time, it succeeds
      exactly if that is 62 with the identifier, and then with the bytes behind;
      7F is a rejection with its third byte as the reason. Otherwise it fails. */
  lemma ReadReplied(b: Bus, l: Link, did: nat, room: nat, p2: nat, buf: bytes, waits: seq<bytes>, last: bytes, more: seq<Data>)
    requires |buf| == 8 && did < 65536 && |waits| <= 3 && !SaysPending(last) && forall m | m in waits :: SaysPending(m)
    requires forall m | m in waits + [last] :: |m| <= MAX_PAYLOAD && |m| <= room
    requires OnId(Send(b, l, ReadRequest(did)).1.incoming, l.rx) == AllSegments(waits + [last]) + more
    ensures var (s, b1) := Send(b, l, ReadRequest(did)); var r := ReadDid(b, l, did, room, p2, buf).0;
      if !s.Delivered? || !AllTimely(b1, l, room, p2, p2, waits + [last], buf) then r.Err?
      else if |last| >= 3 && last[0] == 0x62 && last[1] == did / 256 && last[2] == did % 256 then r == Ok(last[3..])
      else if |last| >= 3 && last[0] == 0x7F then r == Err(Rejected(last[2]))
      else r == Err(Malformed)
  {
    hide Recv, OnId, Timely, RecvResponse, AllSegments, AllTimely, Send;
    var b1 := Send(b, l, ReadRequest(did)).1;
    ResponseTaken(b1, l, RESP_READ, room, p2, p2, MAX_PENDING, buf, waits, last, more);
    if |last| >= 3 {
      assert last[1..3] == [last[1], last[2]];
    }
  }

  /** In particular: */
  lemma ReadAnswered(b: Bus, l: Link, did: nat, room: nat, p2: nat, buf: bytes, waits: seq<bytes>, data: bytes, more: seq<Data>)
    requires |buf| == 8 && did < 65536 && |waits| <= 3 && forall m | m in waits :: SaysPending(m)
    requires var last := [0x62, did / 256, did % 256] + data;
      forall m | m in waits + [last] :: |m| <= MAX_PAYLOAD && |m| <= room
    requires var last := [0x62, did / 256, did % 256] + data;
      OnId(Send(b, l, ReadRequest(did)).1.incoming, l.rx) == AllSegments(waits + [last]) + more
    ensures var last := [0x62, did / 256, did % 256] + data; var (s, b1) := Send(b, l, ReadRequest(did));
      var r := ReadDid(b, l, did, room, p2, buf).0;
      if s.Delivered? && AllTimely(b1, l, room, p2, p2, waits + [last], buf) then r == Ok(data) else r.Err?
  {
    hide Recv, OnId, Timely, RecvResponse, AllSegments, AllTimely, Send;
    var last: bytes := [0x62, did / 256, did % 256] + data;
    ReadReplied(b, l, did, room, p2, buf, waits, last, more);
    assert last[3..] == data;
  }

  /** A write likewise succeeds exactly if its request goes out, every reply is in
      time and the last one is 6E with the identifier. */
  lemma WriteReplied(b: Bus, l: Link, did: nat, data: bytes, p2: nat, buf: bytes, waits: seq<bytes>, last: bytes, more: seq<Data>)
    requires |buf| == 8 && did < 65536 && |data| <= 512 && |waits| <= 3 && !SaysPending(last) && forall m | m in waits :: SaysPending(m)
    requires forall m | m in waits + [last] :: |m| <= 16
    requires OnId(Send(b, l, WriteRequest(did, data)).1.incoming, l.rx) == AllSegments(waits + [last]) + more
    ensures var (s, b1) := Send(b, l, WriteRequest(did, data)); var r := WriteDid(b, l, did, data, p2, buf).0;
      if !s.Delivered? || !AllTimely(b1, l, 16, p2, p2, waits + [last], buf) then r.Err?
      else if |last| >= 3 && last[0] == 0x6E && last[1] == did / 256 && last[2] == did % 256 then r == Ok(())
      else if |last| >= 3 && last[0] == 0x7F then r == Err(Rejected(last[2]))
      else r == Err(Malformed)
  {
    hide Recv, OnId, Timely, RecvResponse, AllSegments, AllTimely, Send;
    var b1 := Send(b, l, WriteRequest(did, data)).1;
    ResponseTaken(b1, l, RESP_WRITE, WRITE_ROOM, p2, p2, MAX_PENDING, buf, waits, last, more);
    if |last| >= 3 {
      assert last[1..3] == [last[1], last[2]];
    }
  }
}
