/** What a read or a write puts on the wire (main/uds.c), told from the log. */
module UdsWire {
  import opened Bytes
  import opened Wrappers
  import opened IsoTp
  import opened IsoTpSender
  import opened IsoTpReceiver
  import opened Uds

  // ---- while receiving, only flow control goes out ----

  /** Clear to send everything at the node's own pace, or overflow. */
  predicate FlowControl(l: Link, f: Frame) {
    f.id == l.tx && f.data in {[0x30, 0, l.stmin, 0, 0, 0, 0, 0], [0x32, 0, 0, 0, 0, 0, 0, 0]}
  }

  predicate AllFlow(l: Link, fs: seq<Frame>) {
    forall i | 0 <= i < |fs| :: FlowControl(l, fs[i])
  }

  ghost predicate Listening(b: Bus, b': Bus, l: Link) {
    b.log <= b'.log && AllFlow(l, TxOf(New(b, b')))
  }

  lemma ListeningSelf(b: Bus, b': Bus, l: Link)
    requires b'.log == b.log
    ensures Listening(b, b', l)
  {
    assert New(b, b') == [];
  }

  lemma ListeningThen(b: Bus, b1: Bus, b': Bus, l: Link)
    requires Listening(b, b1, l) && Listening(b1, b', l)
    ensures Listening(b, b', l)
  {
    assert New(b, b') == New(b, b1) + New(b1, b');
    TxOfConcat(New(b, b1), New(b1, b'));
  }

  lemma FlowListening(b: Bus, l: Link, f: Frame)
    requires FlowControl(l, f)
    ensures Listening(b, Transmit(b, f).1, l)
  {
    TransmitLogs(b, f);
  }

  lemma ReceiveListening(b: Bus, ms: nat, l: Link)
    ensures Listening(b, Receive(b, ms).1, l)
  {
    var (f, b1) := Receive(b, ms);
    if f.Some? {
      assert New(b, b1) == [Rx(f.value)];
      TxOfOne(Rx(f.value));
    } else {
      ListeningSelf(b, b1, l);
    }
  }

  lemma {:induction false} OpeningListening(b: Bus, l: Link, deadline: nat, buf: bytes)
    requires |buf| == 8
    ensures Listening(b, AwaitOpening(b, l, deadline, buf).1, l)
    decreases |b.incoming|
  {
    hide Listening;
    ListeningSelf(b, b, l);
    if Now(b) < deadline {
      var (f, b1) := Receive(b, deadline - Now(b));
      ReceiveListening(b, deadline - Now(b), l);
      if f.Some? && !Opens(l, f.value) {
        OpeningListening(b1, l, deadline, Over(f.value.data, buf));
        ListeningThen(b, b1, AwaitOpening(b1, l, deadline, Over(f.value.data, buf)).1, l);
      }
    }
  }

  lemma {:induction false} CfsListening(b: Bus, l: Link, got: bytes, total: nat, sn: nat, deadline: nat, buf: bytes)
    requires |buf| == 8 && sn < 16
    ensures Listening(b, RecvCfs(b, l, got, total, sn, deadline, buf).1, l)
    decreases |b.incoming|
  {
    hide Listening;
    ListeningSelf(b, b, l);
    if |got| < total && Now(b) < deadline {
      var (f, b1) := Receive(b, N_CR_MS);
      ReceiveListening(b, N_CR_MS, l);
      if f.Some? {
        var buf1 := Over(f.value.data, buf);
        if f.value.id != l.rx {
          CfsListening(b1, l, got, total, sn, deadline, buf1);
          ListeningThen(b, b1, RecvCfs(b1, l, got, total, sn, deadline, buf1).1, l);
        } else if buf1[0] / 16 == 2 && buf1[0] % 16 == sn {
          var chunk := Min(7, total - |got|);
          if chunk + 1 <= |f.value.data| {
            var next := got + buf1[1..1 + chunk];
            CfsListening(b1, l, next, total, (sn + 1) % 16, deadline, buf1);
            ListeningThen(b, b1, RecvCfs(b1, l, next, total, (sn + 1) % 16, deadline, buf1).1, l);
          }
        }
      }
    }
  }

  lemma TheFlowFrames(l: Link)
    ensures FlowControl(l, Frame(l.tx, FlowFrame(2, 0, 0)))
    ensures FlowControl(l, Frame(l.tx, FlowFrame(0, BLOCKSIZE, l.stmin)))
  {
    assert FlowFrame(2, 0, 0) == [0x32, 0, 0, 0, 0, 0, 0, 0];
    assert FlowFrame(0, BLOCKSIZE, l.stmin) == [0x30, 0, l.stmin, 0, 0, 0, 0, 0];
  }

  lemma BodyListening(b: Bus, l: Link, len: nat, buf: bytes, room: nat)
    requires |buf| == 8 && len <= 8
    ensures Listening(b, RecvBody(b, l, len, buf, room).1, l)
  {
    hide Listening, RecvCfs, FlowFrame, FlowControl;
    ListeningSelf(b, b, l);
    TheFlowFrames(l);
    FlowListening(b, l, Frame(l.tx, FlowFrame(2, 0, 0)));
    var f := Frame(l.tx, FlowFrame(0, BLOCKSIZE, l.stmin));
    FlowListening(b, l, f);
    var b1, total := Transmit(b, f).1, Total(buf[0], buf[1]);
    CfsListening(b1, l, buf[2..8], total, 1, Now(b1) + MSG_MS, buf);
    ListeningThen(b, b1, RecvCfs(b1, l, buf[2..8], total, 1, Now(b1) + MSG_MS, buf).1, l);
  }

  lemma RecvListening(b: Bus, l: Link, room: nat, timeout: nat, buf: bytes)
    requires |buf| == 8
    ensures Listening(b, Recv(b, l, room, timeout, buf).1, l)
  {
    hide Listening, AwaitOpening, RecvBody;
    OpeningListening(b, l, Now(b) + timeout, buf);
    var (f, b1, buf1) := AwaitOpening(b, l, Now(b) + timeout, buf);
    if f.Some? {
      BodyListening(b1, l, |f.value.data|, buf1, room);
      ListeningThen(b, b1, RecvBody(b1, l, |f.value.data|, buf1, room).1, l);
    }
  }

  lemma {:induction false} ResponseListening(b: Bus, l: Link, sid: byte, room: nat, timeout: nat, p2: nat, left: nat, buf: bytes)
    requires |buf| == 8
    ensures Listening(b, RecvResponse(b, l, sid, room, timeout, p2, left, buf).1, l)
    decreases left
  {
    hide Listening, Recv, Judge, P2Star;
    RecvListening(b, l, room, timeout, buf);
    var (r, b1, buf1) := Recv(b, l, room, timeout, buf);
    if r.Got? && Judge(r.payload, sid) == Pending && left > 0 {
      RecvKeeps(b, l, room, timeout, buf);
      ResponseListening(b1, l, sid, room, P2Star(p2), p2, left - 1, buf1);
      ListeningThen(b, b1, RecvResponse(b1, l, sid, room, P2Star(p2), p2, left - 1, buf1).1, l);
    }
  }

  // ---- one request ----

  /** All that goes out is frames carrying `p`, to the peer, and then flow control:
      all of them if the exchange succeeds, else perhaps only the first ones. */
  ghost predicate Requests(b: Bus, b': Bus, l: Link, p: bytes, ok: bool) {
    b.log <= b'.log &&
    exists frames: seq<Data>, flow: seq<Frame> ::
      && Carries(frames, p) && AllFlow(l, flow)
      && (TxOf(New(b, b')) == Addressed(l.tx, frames) + flow || (!ok && TxOf(New(b, b')) <= Addressed(l.tx, frames)))
  }

  lemma SentRequest(b: Bus, b': Bus, l: Link, p: bytes, ok: bool)
    requires |p| <= MAX_PAYLOAD
    requires var (s, b1) := Send(b, l, p); if s.Delivered? then Listening(b1, b', l) else !ok && b' == b1
    ensures Requests(b, b', l, p, ok)
  {
    hide Send, Segments, Carries, AllFlow, TxOf;
    var (s, b1) := Send(b, l, p);
    OnlyThePrefix(b, l, p);
    SegmentsCarry(p);
    var frames: seq<Data> := Segments(p);
    if s.Delivered? {
      var flow := TxOf(New(b1, b'));
      assert New(b, b') == New(b, b1) + New(b1, b');
      TxOfConcat(New(b, b1), New(b1, b'));
      assert Carries(frames, p) && AllFlow(l, flow) && TxOf(New(b, b')) == Addressed(l.tx, frames) + flow;
    } else {
      NoFlow(l);
      var flow: seq<Frame> := [];
      assert Carries(frames, p) && AllFlow(l, flow);
    }
  }

  lemma NoFlow(l: Link)
    ensures AllFlow(l, [])
  {
  }

  /** A read asks with 22 and the identifier, high byte first. */
  lemma ReadOnTheWire(b: Bus, l: Link, did: nat, room: nat, p2: nat, buf: bytes)
    requires |buf| == 8 && did < 65536
    ensures var (r, b') := ReadDid(b, l, did, room, p2, buf);
      Requests(b, b', l, [0x22, did / 256, did % 256], r.Ok?)
  {
    hide RecvResponse, Send, Listening, Requests;
    var p: bytes := [0x22, did / 256, did % 256];
    assert ReadRequest(did) == p;
    var (s, b1) := Send(b, l, ReadRequest(did));
    ResponseListening(b1, l, RESP_READ, room, p2, p2, MAX_PENDING, buf);
    var (r, b') := ReadDid(b, l, did, room, p2, buf);
    SentRequest(b, b', l, p, r.Ok?);
  }

  /** A write of up to 512 bytes sends 2E, the identifier, high byte first, and the
      caller's data; a longer one sends nothing. */
  lemma WriteOnTheWire(b: Bus, l: Link, did: nat, data: bytes, p2: nat, buf: bytes)
    requires |buf| == 8 && did < 65536
    ensures var (r, b') := WriteDid(b, l, did, data, p2, buf);
      if |data| > 512 then r == Err(TooLarge) && b' == b
      else Requests(b, b', l, [0x2E, did / 256, did % 256] + data, r.Ok?)
  {
    hide RecvResponse, Send, Listening, Requests;
    if |data| <= 512 {
      var p: bytes := [0x2E, did / 256, did % 256] + data;
      assert WriteRequest(did, data) == p;
      var (s, b1) := Send(b, l, WriteRequest(did, data));
      ResponseListening(b1, l, RESP_WRITE, WRITE_ROOM, p2, p2, MAX_PENDING, buf);
      var (r, b') := WriteDid(b, l, did, data, p2, buf);
      SentRequest(b, b', l, p, r.Ok?);
    }
  }

  // ---- why an exchange failed ----

  /** A timeout on the transport is no response, a message too long for the buffer
      is too large, anything else a transport failure. */
  predicate Told(e: Error, u: UdsError) {
    u == if e == Timeout then NoResponse else if e == TooLong then TooLarge else Transport
  }

  lemma SendFailureTold(b: Bus, l: Link, did: nat, data: bytes, room: nat, p2: nat, buf: bytes)
    requires |buf| == 8 && did < 65536
    ensures var (s, b1) := Send(b, l, ReadRequest(did)); var (r, b') := ReadDid(b, l, did, room, p2, buf);
      s.Failed? ==> r.Err? && Told(s.error, r.error) && b' == b1
    ensures var (s, b1) := Send(b, l, WriteRequest(did, data)); var (r, b') := WriteDid(b, l, did, data, p2, buf);
      |data| <= 512 && s.Failed? ==> r.Err? && Told(s.error, r.error) && b' == b1
  {
    hide Send, RecvResponse;
  }

  lemma ReceiveFailureTold(b: Bus, l: Link, sid: byte, room: nat, timeout: nat, p2: nat, left: nat, buf: bytes)
    requires |buf| == 8
    ensures var (m, b1, buf1) := Recv(b, l, room, timeout, buf); var (r, b') := RecvResponse(b, l, sid, room, timeout, p2, left, buf);
      m.Missed? ==> r.Err? && Told(m.error, r.error) && b' == b1
  {
    hide Recv;
  }
}
