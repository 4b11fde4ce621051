/** The UDS client (main/uds.c, sections 10.2 and 10.7 of ISO 14229-1): one
    request, and replies absorbed while the ECU says "response pending". */
module Uds {
  import opened Bytes
  import opened Wrappers
  import opened IsoTp
  import opened IsoTpSender
  import opened IsoTpReceiver

  const SID_READ: byte := 0x22
  const SID_WRITE: byte := 0x2E
  const RESP_READ: byte := 0x62
  const RESP_WRITE: byte := 0x6E
  const NEGATIVE: byte := 0x7F
  const NRC_PENDING: byte := 0x78
  const P2_STAR_MAX := 5000
  const MAX_PENDING := 3
  const MAX_WRITE := 512
  const WRITE_ROOM := 16

  function P2Star(p2: nat): nat {
    if p2 * 5 > P2_STAR_MAX then P2_STAR_MAX else p2 * 5
  }

  datatype UdsError = NoResponse | Transport | Rejected(nrc: byte) | Malformed | TooLarge

  function MapTransport(e: Error): UdsError {
    match e
    case Timeout => NoResponse
    case TooLong => TooLarge
    case _ => Transport
  }

  /** What one complete message means to the waiting client. */
  datatype Verdict = Pending | Final | Wrong(error: UdsError)

  function Judge(m: bytes, sid: byte): Verdict {
    if |m| < 1 then Wrong(Malformed)
    else if m[0] == NEGATIVE then
      if |m| < 3 then Wrong(Malformed)
      else if m[2] == NRC_PENDING then Pending
      else Wrong(Rejected(m[2]))
    else if m[0] != sid then Wrong(Malformed)
    else Final
  }

  function RecvResponse(b: Bus, l: Link, sid: byte, room: nat, timeout: nat, p2: nat, left: nat, buf: bytes)
    : (Result<bytes, UdsError>, Bus)
    requires |buf| == 8
    decreases left
  {
    var (r, b1, buf1) := Recv(b, l, room, timeout, buf);
    match r
    case Missed(e) => (Err(MapTransport(e)), b1)
    case Got(m, _) =>
      match Judge(m, sid)
      case Wrong(e) => (Err(e), b1)
      case Final => (Ok(m), b1)
      case Pending =>
        if left == 0 then (Err(NoResponse), b1)
        else RecvKeeps(b, l, room, timeout, buf); RecvResponse(b1, l, sid, room, P2Star(p2), p2, left - 1, buf1)
  }

  lemma RecvKeeps(b: Bus, l: Link, room: nat, timeout: nat, buf: bytes)
    requires |buf| == 8
    ensures |Recv(b, l, room, timeout, buf).2| == 8
  {
    OnlyWhatWasHeard(b, l, room, timeout, buf);
  }

  function DidBytes(did: nat): bytes
    requires did < 65536
  {
    [did / 256, did % 256]
  }

  function ReadRequest(did: nat): bytes
    requires did < 65536
  {
    [SID_READ] + DidBytes(did)
  }

  function ReadDid(b: Bus, l: Link, did: nat, room: nat, p2: nat, buf: bytes): (Result<bytes, UdsError>, Bus)
    requires |buf| == 8 && did < 65536
  {
    var (s, b1) := Send(b, l, ReadRequest(did));
    if s.Failed? then (Err(MapTransport(s.error)), b1)
    else
      var (r, b2) := RecvResponse(b1, l, RESP_READ, room, p2, p2, MAX_PENDING, buf);
      match r
      case Err(e) => (Err(e), b2)
      case Ok(m) =>
        if |m| < 3 || m[1..3] != DidBytes(did) then (Err(Malformed), b2) else (Ok(m[3..]), b2)
  }

  function WriteDid(b: Bus, l: Link, did: nat, data: bytes, p2: nat, buf: bytes): (Result<(), UdsError>, Bus)
    requires |buf| == 8 && did < 65536
  {
    if |data| > MAX_WRITE then (Err(TooLarge), b)
    else
      var (s, b1) := Send(b, l, WriteRequest(did, data));
      if s.Failed? then (Err(MapTransport(s.error)), b1)
      else
        var (r, b2) := RecvResponse(b1, l, RESP_WRITE, WRITE_ROOM, p2, p2, MAX_PENDING, buf);
        match r
        case Err(e) => (Err(e), b2)
        case Ok(m) => if |m| < 3 || m[1..3] != DidBytes(did) then (Err(Malformed), b2) else (Ok(()), b2)
  }

  // ---- soundness, down to the frames ----

  /** The frames are, in order, the given messages, each preceded only by frames
      that open nothing. */
  ghost predicate HeardAll(frames: seq<Data>, msgs: seq<bytes>)
    decreases |msgs|
  {
    if msgs == [] then frames == []
    else exists k :: 0 <= k <= |frames| && Heard(frames[..k], msgs[0]) && HeardAll(frames[k..], msgs[1..])
  }

  /** Up to `left` pending replies, then the one that was taken. */
  predicate Conversation(msgs: seq<bytes>, left: nat, last: bytes) {
    1 <= |msgs| <= left + 1 && msgs[|msgs| - 1] == last &&
    forall i :: 0 <= i < |msgs| - 1 ==> |msgs[i]| >= 3 && msgs[i][0] == 0x7F && msgs[i][2] == 0x78
  }

  lemma HeardFront(a: seq<Data>, rest: seq<Data>, m: bytes, msgs: seq<bytes>)
    requires Heard(a, m) && HeardAll(rest, msgs)
    ensures HeardAll(a + rest, [m] + msgs)
  {
    assert (a + rest)[..|a|] == a && (a + rest)[|a|..] == rest;
    assert ([m] + msgs)[1..] == msgs;
  }

  lemma {:induction false} ResponseSound(b: Bus, l: Link, sid: byte, room: nat, timeout: nat, p2: nat, left: nat, buf: bytes)
    returns (msgs: seq<bytes>)
    requires |buf| == 8 && sid != NEGATIVE
    ensures var (r, b') := RecvResponse(b, l, sid, room, timeout, p2, left, buf);
            && b.log <= b'.log
            && (r.Ok? ==> r.value != [] && r.value[0] == sid)
            && (r.Ok? ==> Conversation(msgs, left, r.value) && HeardAll(RxOn(New(b, b'), l.rx), msgs))
    decreases left
  {
    hide Recv, New, RxOn, Heard;
    OnlyWhatWasHeard(b, l, room, timeout, buf);
    var (r1, b1, buf1) := Recv(b, l, room, timeout, buf);
    msgs := [];
    if r1.Got? {
      var m := r1.payload;
      var fs := RxOn(New(b, b1), l.rx);
      var v := Judge(m, sid);
      if v == Final {
        msgs := [m];
        assert fs[..|fs|] == fs && fs[|fs|..] == [] && msgs[1..] == [];
      } else if v == Pending && left > 0 {
        var tail := ResponseSound(b1, l, sid, room, P2Star(p2), p2, left - 1, buf1);
        var (r, b') := RecvResponse(b1, l, sid, room, P2Star(p2), p2, left - 1, buf1);
        RxThen(b, b1, b', l.rx);
        if r.Ok? {
          HeardFront(fs, RxOn(New(b1, b'), l.rx), m, tail);
          msgs := [m] + tail;
        }
      }
    }
  }

  /** A read is OK only if, on the wire, at most three pending replies preceded a
      positive response carrying the requested identifier, and then it returns
      exactly the bytes after it. */
  lemma ReadOnlyWhatWasAnswered(b: Bus, l: Link, did: nat, room: nat, p2: nat, buf: bytes) returns (msgs: seq<bytes>)
    requires |buf| == 8 && did < 65536
    ensures var (r, b') := ReadDid(b, l, did, room, p2, buf);
            && b.log <= b'.log
            && (r.Ok? ==> Conversation(msgs, 3, [0x62, did / 256, did % 256] + r.value))
            && (r.Ok? ==> HeardAll(RxOn(New(b, b'), l.rx), msgs))
  {
    hide RecvResponse, New, RxOn, HeardAll, Recv;
    var (s, b1) := Send(b, l, ReadRequest(did));
    RequestSilent(b, l, ReadRequest(did));
    msgs := ResponseSound(b1, l, RESP_READ, room, p2, p2, MAX_PENDING, buf);
    var (r1, b2) := RecvResponse(b1, l, RESP_READ, room, p2, p2, MAX_PENDING, buf);
    RxThen(b, b1, b2, l.rx);
    assert [] + RxOn(New(b1, b2), l.rx) == RxOn(New(b1, b2), l.rx);
    if ReadDid(b, l, did, room, p2, buf).0.Ok? {
      var m := r1.value;
      assert m == [0x62, did / 256, did % 256] + m[3..];
    }
  }

  /** A write is OK only if what was heard while waiting ends in a positive
      response carrying the identifier, after at most three pending replies. */
  lemma WriteOnlyIfAcknowledged(b: Bus, l: Link, did: nat, data: bytes, p2: nat, buf: bytes) returns (msgs: seq<bytes>)
    requires |buf| == 8 && did < 65536
    ensures var (s, b1) := Send(b, l, WriteRequest(did, data));
            var (r, b') := WriteDid(b, l, did, data, p2, buf);
            r.Ok? ==> |data| <= 512 && s.Delivered? && b1.log <= b'.log && HeardAll(RxOn(New(b1, b'), l.rx), msgs)
    ensures WriteDid(b, l, did, data, p2, buf).0.Ok? ==>
            msgs != [] &&
            var last := msgs[|msgs| - 1];
            Conversation(msgs, 3, last) && |last| >= 3 && last[0] == 0x6E && last[1] == did / 256 && last[2] == did % 256
  {
    hide RecvResponse, New, RxOn, HeardAll, Recv, Send;
    var (s, b1) := Send(b, l, WriteRequest(did, data));
    msgs := ResponseSound(b1, l, RESP_WRITE, WRITE_ROOM, p2, p2, MAX_PENDING, buf);
    if WriteDid(b, l, did, data, p2, buf).0.Ok? {
      var m := RecvResponse(b1, l, RESP_WRITE, WRITE_ROOM, p2, p2, MAX_PENDING, buf).0.value;
      assert m[1..3] == DidBytes(did) && m[1..3][0] == m[1] && m[1..3][1] == m[2];
    }
  }

  /** A one-frame request listens to nothing. */
  lemma RequestSilent(b: Bus, l: Link, p: bytes)
    requires |p| <= 7
    ensures var b1 := Send(b, l, p).1;
            b.log <= b1.log && RxOn(New(b, b1), l.rx) == [] && b1.plan == b.plan
  {
    TransmitHears(b, Frame(l.tx, SingleFrame(p)), l.rx);
  }

  // ---- how long an exchange can hold the bus ----

  /** Pending replies that came segmented: each may cost a whole message time. */
  function SlowReplies(b: Bus, l: Link, sid: byte, room: nat, timeout: nat, p2: nat, left: nat, buf: bytes): nat
    requires |buf| == 8
    decreases left
  {
    var (r, b1, buf1) := Recv(b, l, room, timeout, buf);
    if r.Got? && Judge(r.payload, sid) == Pending && left > 0 then
      RecvKeeps(b, l, room, timeout, buf);
      (if r.segmented then 1 else 0) + SlowReplies(b1, l, sid, room, P2Star(p2), p2, left - 1, buf1)
    else 0
  }

  lemma {:induction false} ResponseTime(b: Bus, l: Link, sid: byte, room: nat, timeout: nat, p2: nat, left: nat, buf: bytes, ms: nat)
    requires |buf| == 8 && SendsWithin(b, ms)
    ensures var b' := RecvResponse(b, l, sid, room, timeout, p2, left, buf).1;
            var slow := SlowReplies(b, l, sid, room, timeout, p2, left, buf);
            slow <= left && Now(b') <= Now(b) + timeout + left * P2Star(p2) + (slow + 1) * (ms + 4000)
    decreases left
  {
    hide Recv, P2Star;
    RecvTime(b, l, room, timeout, buf, ms);
    var (r, b1, buf1) := Recv(b, l, room, timeout, buf);
    var s := P2Star(p2);
    if r.Got? && Judge(r.payload, sid) == Pending && left > 0 {
      ResponseTime(b1, l, sid, room, s, p2, left - 1, buf1, ms);
      var slow := SlowReplies(b1, l, sid, room, s, p2, left - 1, buf1);
      assert s + (left - 1) * s == left * s;
      assert (slow + 2) * (ms + 4000) == (slow + 1) * (ms + 4000) + (ms + 4000);
    } else {
      assert left * s >= 0;
    }
  }

  lemma P2StarIs(p2: nat)
    ensures P2Star(p2) == Min(5 * p2, 5000)
  {
  }

  /** A read ends within S + P2 + 3 P2* + 4 (S + 4000) ms under any traffic. */
  lemma ReadTime(b: Bus, l: Link, did: nat, room: nat, p2: nat, buf: bytes, ms: nat)
    requires |buf| == 8 && did < 65536 && SendsWithin(b, ms)
    ensures Now(ReadDid(b, l, did, room, p2, buf).1) <=
            Now(b) + ms + p2 + 3 * Min(5 * p2, 5000) + 4 * (ms + 4000)
    ensures var slow := ReadSlow(b, l, did, room, p2, buf);
            Now(ReadDid(b, l, did, room, p2, buf).1) <=
            Now(b) + ms + p2 + 3 * Min(5 * p2, 5000) + (slow + 1) * (ms + 4000)
  {
    P2StarIs(p2);
    hide RecvResponse, SlowReplies, P2Star;
    SendTime(b, l, ReadRequest(did), ms);
    RequestSilent(b, l, ReadRequest(did));
    var b1 := Send(b, l, ReadRequest(did)).1;
    ResponseTime(b1, l, RESP_READ, room, p2, p2, MAX_PENDING, buf, ms);
    var slow := SlowReplies(b1, l, RESP_READ, room, p2, p2, MAX_PENDING, buf);
    assert (slow + 1) * (ms + 4000) <= 4 * (ms + 4000);
  }

  /** Segmented pending replies of a read, and of a write. */
  function ReadSlow(b: Bus, l: Link, did: nat, room: nat, p2: nat, buf: bytes): nat
    requires |buf| == 8 && did < 65536
  {
    SlowReplies(Send(b, l, ReadRequest(did)).1, l, RESP_READ, room, p2, p2, MAX_PENDING, buf)
  }

  function WriteRequest(did: nat, data: bytes): bytes
    requires did < 65536
  {
    [SID_WRITE] + DidBytes(did) + data
  }

  function WriteSlow(b: Bus, l: Link, did: nat, data: bytes, p2: nat, buf: bytes): nat
    requires |buf| == 8 && did < 65536
  {
    SlowReplies(Send(b, l, WriteRequest(did, data)).1, l, RESP_WRITE, WRITE_ROOM, p2, p2, MAX_PENDING, buf)
  }

  /** A write: its request may be segmented, and then waits for the peer too. */
  lemma WriteTime(b: Bus, l: Link, did: nat, data: bytes, p2: nat, buf: bytes, ms: nat)
    requires |buf| == 8 && did < 65536 && SendsWithin(b, ms)
    ensures var slow := WriteSlow(b, l, did, data, p2, buf);
            Now(WriteDid(b, l, did, data, p2, buf).1) <=
            Now(b) + 2 * ms + 7127 + p2 + 3 * Min(5 * p2, 5000) + (slow + 1) * (ms + 4000)
  {
    P2StarIs(p2);
    hide RecvResponse, SlowReplies, P2Star, Send;
    var p := WriteRequest(did, data);
    var (s, b1) := Send(b, l, p);
    SendTime(b, l, p, ms);
    ResponseTime(b1, l, RESP_WRITE, WRITE_ROOM, p2, p2, MAX_PENDING, buf, ms);
    var slow := WriteSlow(b, l, did, data, p2, buf);
    assert (slow + 1) * (ms + 4000) == slow * (ms + 4000) + (ms + 4000) >= ms + 4000;
  }

  // ---- against the 30 s a waiting task grants ----

  /** hal_send's four attempts of at most 50 + 100 ms each. */
  const HAL_SEND_MS := 600
  const P2 := 1000
  const WAIT_MS := 30000

  /** Reads with at most `k` segmented pending replies end before the wait does. */
  ghost predicate ReadsBelow(k: nat) {
    forall b: Bus, l: Link, did: nat, room: nat, buf: bytes
      | |buf| == 8 && did < 65536 && SendsWithin(b, 600) && ReadSlow(b, l, did, room, 1000, buf) <= k ::
      Now(ReadDid(b, l, did, room, 1000, buf).1) < Now(b) + 30000
  }

  ghost predicate WritesBelow(k: nat) {
    forall b: Bus, l: Link, did: nat, data: bytes, buf: bytes
      | |buf| == 8 && did < 65536 && SendsWithin(b, 600) && WriteSlow(b, l, did, data, 1000, buf) <= k ::
      Now(WriteDid(b, l, did, data, 1000, buf).1) < Now(b) + 30000
  }

  /** The wait outlasts every read exactly if no more than one pending reply is
      segmented, and every write exactly if none is. */
  lemma ShorterThanTheWait(k: nat)
    ensures ReadsBelow(k) <==> k <= 1
    ensures WritesBelow(k) <==> k == 0
  {
    hide ReadDid, WriteDid, ReadSlow, WriteSlow;
    if k <= 1 {
      ReadsInTime(k);
    } else {
      var l, buf := Link(1, 2, 0), Zeros(8);
      var b := SlowRead(l, buf);
    }
    if k == 0 {
      WritesInTime();
    } else {
      var l, buf := Link(1, 2, 0), Zeros(8);
      var b := SlowWrite(l, buf);
    }
  }

  lemma ReadsInTime(k: nat)
    requires k <= 1
    ensures ReadsBelow(k)
  {
    hide ReadDid;
    forall b: Bus, l: Link, did: nat, room: nat, buf: bytes
      | |buf| == 8 && did < 65536 && SendsWithin(b, HAL_SEND_MS) && ReadSlow(b, l, did, room, P2, buf) <= k
      ensures Now(ReadDid(b, l, did, room, P2, buf).1) < Now(b) + WAIT_MS
    {
      ReadTime(b, l, did, room, P2, buf, HAL_SEND_MS);
    }
  }

  lemma WritesInTime()
    ensures WritesBelow(0)
  {
    hide WriteDid;
    forall b: Bus, l: Link, did: nat, data: bytes, buf: bytes
      | |buf| == 8 && did < 65536 && SendsWithin(b, HAL_SEND_MS) && WriteSlow(b, l, did, data, P2, buf) <= 0
      ensures Now(WriteDid(b, l, did, data, P2, buf).1) < Now(b) + WAIT_MS
    {
      WriteTime(b, l, did, data, P2, buf, HAL_SEND_MS);
    }
  }

  // ---- the exchanges that outlast it ----

  /** A reply as late as is still accepted: at the end of the window, and when it
      is segmented into two consecutive frames, with frames of another node
      keeping the wait for them alive. */
  datatype Reply = Quick(m: bytes) | Slow(head: bytes)

  predicate Playable(r: Reply) {
    if r.Quick? then |r.m| <= 7 else |r.head| == 6
  }

  function Told(r: Reply): bytes {
    if r.Quick? then r.m else r.head + Zeros(10)
  }

  function Cf(sn: nat): (d: Data)
    requires sn < 16
    ensures |d| == 8
  {
    [32 + sn] + Zeros(7)
  }

  /** The consecutive frames and what comes in between, once flow control is out. */
  function Fillers(u: nat, id: nat): seq<Arrival> {
    [Arrival(u + 999000, Frame(id + 1, [])), Arrival(u + 1998000, Frame(id + 1, [])),
     Arrival(u + 2997000, Frame(id, Cf(1))), Arrival(u + 3997000, Frame(id, Cf(2)))]
  }

  function Opening(r: Reply): (d: Data)
    requires Playable(r)
    ensures |d| == 8
  {
    if r.Quick? then SingleFrame(r.m) else [16, 16] + r.head
  }

  function ReplyFrames(us: nat, ms: nat, id: nat, r: Reply): seq<Arrival>
    requires Playable(r)
  {
    [Arrival(us + 1000 * ms, Frame(id, Opening(r)))]
    + if r.Quick? then [] else Fillers(us + 1000 * ms + 1000 * HAL_SEND_MS, id)
  }

  function Cost(ms: nat, r: Reply): nat {
    if r.Quick? then ms else ms + HAL_SEND_MS + 3997
  }

  function Seen(b: Bus, us: nat, f: Frame, more: seq<Arrival>): Bus {
    b.(us := us, incoming := more, log := b.log + [Rx(f)])
  }

  /** Every transmission succeeds, after 600 ms. */
  ghost predicate Sluggish(b: Bus) {
    forall k :: b.plan(k) == Sending(true, 1000 * HAL_SEND_MS)
  }

  lemma CfStep(b: Bus, l: Link, got: bytes, sn: nat, deadline: nat, buf: bytes, at: nat, more: seq<Arrival>)
    requires |buf| == 8 && sn < 16 && |got| < 16 && Now(b) < deadline && b.us <= at <= b.us + 1000000
    requires b.incoming == [Arrival(at, Frame(l.rx, Cf(sn)))] + more
    ensures var n := Min(7, 16 - |got|);
      RecvCfs(b, l, got, 16, sn, deadline, buf)
      == RecvCfs(Seen(b, at, Frame(l.rx, Cf(sn)), more), l, got + Zeros(n), 16, (sn + 1) % 16, deadline, Cf(sn))
  {
    var n := Min(7, 16 - |got|);
    assert b.incoming[1..] == more;
    assert Over(Cf(sn), buf) == Cf(sn);
    assert Cf(sn)[1..1 + n] == Zeros(n);
  }

  lemma ForeignStep(b: Bus, l: Link, got: bytes, sn: nat, deadline: nat, buf: bytes, at: nat, more: seq<Arrival>)
    requires |buf| == 8 && sn < 16 && |got| < 16 && Now(b) < deadline && b.us <= at <= b.us + 1000000
    requires b.incoming == [Arrival(at, Frame(l.rx + 1, []))] + more
    ensures RecvCfs(b, l, got, 16, sn, deadline, buf)
      == RecvCfs(Seen(b, at, Frame(l.rx + 1, []), more), l, got, 16, sn, deadline, buf)
  {
    assert b.incoming[1..] == more;
    assert Over([], buf) == buf;
  }

  lemma CfsDone(b: Bus, l: Link, got: bytes, sn: nat, deadline: nat, buf: bytes)
    requires |buf| == 8 && sn < 16 && |got| == 16
    ensures RecvCfs(b, l, got, 16, sn, deadline, buf) == (Got(got, true), b, buf)
  {
    assert got[..16] == got;
  }

  lemma SlowCfs(b: Bus, l: Link, head: bytes, buf: bytes, m: nat, more: seq<Arrival>)
    requires |buf| == 8 && |head| == 6 && b.us == 1000 * m && b.incoming == Fillers(b.us, l.rx) + more
    ensures var (r, b', buf') := RecvCfs(b, l, head, 16, 1, m + MSG_MS, buf);
      && r == Got(head + Zeros(10), true) && b'.us == b.us + 3997000 && b'.incoming == more && b'.plan == b.plan && |buf'| == 8
  {
    hide RecvCfs, Cf, Fillers, Now;
    var u := b.us;
    FillersFront(u, l.rx, more);
    var rest := [Arrival(u + 2997000, Frame(l.rx, Cf(1)))] + ([Arrival(u + 3997000, Frame(l.rx, Cf(2)))] + more);
    TwoForeign(b, l, head, buf, m, rest);
    LastTwo(Alien(Alien(b, l, 999000), l, 999000), l, head, m + MSG_MS, buf, u, m, more);
  }

  /** A frame of another node, so much later. */
  function Alien(b: Bus, l: Link, us: nat): Bus
    requires b.incoming != []
  {
    Seen(b, b.us + us, Frame(l.rx + 1, []), b.incoming[1..])
  }

  lemma TwoForeign(b: Bus, l: Link, head: bytes, buf: bytes, m: nat, rest: seq<Arrival>)
    requires |buf| == 8 && |head| == 6 && b.us == 1000 * m
    requires b.incoming == [Arrival(b.us + 999000, Frame(l.rx + 1, []))] + ([Arrival(b.us + 1998000, Frame(l.rx + 1, []))] + rest)
    ensures var b2 := Alien(Alien(b, l, 999000), l, 999000);
      && b2.us == b.us + 1998000 && b2.incoming == rest && b2.plan == b.plan
      && RecvCfs(b, l, head, 16, 1, m + MSG_MS, buf) == RecvCfs(b2, l, head, 16, 1, m + MSG_MS, buf)
  {
    hide RecvCfs, Now;
    var b1 := Alien(b, l, 999000);
    assert b1.incoming == [Arrival(b.us + 1998000, Frame(l.rx + 1, []))] + rest;
    NowIs(b, m);
    NowIs(b1, m + 999);
    ForeignStep(b, l, head, 1, m + MSG_MS, buf, b.us + 999000, b1.incoming);
    ForeignStep(b1, l, head, 1, m + MSG_MS, buf, b1.us + 999000, rest);
  }

  lemma NowIs(b: Bus, m: nat)
    requires b.us == 1000 * m
    ensures Now(b) == m
  {
  }

  lemma FillersFront(u: nat, id: nat, more: seq<Arrival>)
    ensures Fillers(u, id) + more ==
      [Arrival(u + 999000, Frame(id + 1, []))] + ([Arrival(u + 1998000, Frame(id + 1, []))]
      + ([Arrival(u + 2997000, Frame(id, Cf(1)))] + ([Arrival(u + 3997000, Frame(id, Cf(2)))] + more)))
  {
  }

  lemma SeenIs(b: Bus, us: nat, f: Frame, more: seq<Arrival>)
    ensures var b' := Seen(b, us, f, more); b'.us == us && b'.incoming == more && b'.plan == b.plan
  {
  }

  lemma LastTwo(b: Bus, l: Link, head: bytes, d: nat, buf: bytes, u: nat, m: nat, more: seq<Arrival>)
    requires |buf| == 8 && |head| == 6 && b.us == u + 1998000 && u == 1000 * m && d == m + MSG_MS
    requires b.incoming == [Arrival(u + 2997000, Frame(l.rx, Cf(1)))] + ([Arrival(u + 3997000, Frame(l.rx, Cf(2)))] + more)
    ensures var (r, b', buf') := RecvCfs(b, l, head, 16, 1, d, buf);
      && r == Got(head + Zeros(10), true) && b'.us == u + 3997000 && b'.incoming == more && b'.plan == b.plan && |buf'| == 8
  {
    hide RecvCfs, Cf, Seen, Now;
    var rest := [Arrival(u + 3997000, Frame(l.rx, Cf(2)))] + more;
    NowIs(b, m + 1998);
    CfStep(b, l, head, 1, d, buf, u + 2997000, rest);
    var b1 := Seen(b, u + 2997000, Frame(l.rx, Cf(1)), rest);
    SeenIs(b, u + 2997000, Frame(l.rx, Cf(1)), rest);
    NowIs(b1, m + 2997);
    CfStep(b1, l, head + Zeros(7), 2, d, Cf(1), u + 3997000, more);
    SeenIs(b1, u + 3997000, Frame(l.rx, Cf(2)), more);
    assert head + Zeros(7) + Zeros(3) == head + Zeros(10);
    CfsDone(Seen(b1, u + 3997000, Frame(l.rx, Cf(2)), more), l, head + Zeros(10), 3, d, Cf(2));
  }

  lemma FirstHeard(b: Bus, l: Link, ms: nat, buf: bytes, d: Data)
    requires |buf| == 8 && ms > 0 && b.us % 1000 == 0 && b.incoming != []
    requires b.incoming[0] == Arrival(b.us + 1000 * ms, Frame(l.rx, d)) && |d| == 8 && (HasPci(d, 0) || HasPci(d, 1))
    ensures AwaitOpening(b, l, Now(b) + ms, buf) == (Some(Frame(l.rx, d)), Seen(b, b.us + 1000 * ms, Frame(l.rx, d), b.incoming[1..]), d)
  {
    assert Over(d, buf) == d;
  }

  /** One such reply is received whole, at its cost. */
  lemma OneReply(b: Bus, l: Link, room: nat, ms: nat, buf: bytes, r: Reply, more: seq<Arrival>)
    requires |buf| == 8 && room >= 16 && ms > 0 && Sluggish(b) && b.us % 1000 == 0 && Playable(r)
    requires b.incoming == ReplyFrames(b.us, ms, l.rx, r) + more
    ensures var (x, b', buf') := Recv(b, l, room, ms, buf);
      && x == Got(Told(r), r.Slow?) && b'.us == b.us + 1000 * Cost(ms, r)
      && b'.incoming == more && b'.plan == b.plan && |buf'| == 8
  {
    hide RecvBody, AwaitOpening, Recv, Opening, Fillers;
    var t, d := b.us + 1000 * ms, Opening(r);
    assert b.incoming[0] == Arrival(t, Frame(l.rx, d));
    OpeningShape(r);
    FirstHeard(b, l, ms, buf, d);
    RecvIs(b, l, room, ms, buf);
    var b1 := Seen(b, t, Frame(l.rx, d), b.incoming[1..]);
    if r.Quick? {
      ShortBody(b1, l, r.m, room);
      ShortKeeps(b1, l, d, room);
      assert b.incoming[1..] == more;
    } else {
      assert b.incoming[1..] == Fillers(t + 1000 * HAL_SEND_MS, l.rx) + more;
      SlowBody(b1, l, room, d, r.head, more);
    }
  }

  lemma SentSlowly(b: Bus, f: Frame)
    requires Sluggish(b)
    ensures var (ok, b') := Transmit(b, f);
      ok && b'.us == b.us + 1000 * HAL_SEND_MS && b'.incoming == b.incoming && b'.plan == b.plan
  {
  }

  lemma FirstShape(d: Data, head: bytes)
    requires |head| == 6 && d == [16, 16] + head
    ensures HasPci(d, 1) && Total(d[0], d[1]) == 16 && |d| == 8 && d[2..8] == head
  {
    hide Total, HasPci;
    SixteenBytes(d[0], d[1]);
    SegmentedPci(d);
  }

  lemma SixteenBytes(hi: int, lo: int)
    ensures hi == lo == 16 ==> Total(hi, lo) == 16
  {
  }

  lemma SegmentedPci(d: bytes)
    requires d != [] && d[0] == 16
    ensures HasPci(d, 1)
  {
  }

  lemma SlowBody(b: Bus, l: Link, room: nat, d: Data, head: bytes, more: seq<Arrival>)
    requires |head| == 6 && d == [16, 16] + head && room >= 16 && Sluggish(b) && b.us % 1000 == 0
    requires b.incoming == Fillers(b.us + 1000 * HAL_SEND_MS, l.rx) + more
    ensures var (r, b', buf') := RecvBody(b, l, 8, d, room);
      && r == Got(head + Zeros(10), true) && b'.us == b.us + 1000 * HAL_SEND_MS + 3997000
      && b'.incoming == more && b'.plan == b.plan && |buf'| == 8
  {
    hide RecvCfs, RecvBody, Fillers, FlowFrame, Transmit, Now, HasPci, Total, Cf;
    FirstShape(d, head);
    BodyOfFirst(b, l, d, 16, room);
    SentSlowly(b, Frame(l.tx, FlowFrame(0, BLOCKSIZE, l.stmin)));
    var (ok, b2) := Transmit(b, Frame(l.tx, FlowFrame(0, BLOCKSIZE, l.stmin)));
    var m := b2.us / 1000;
    NowIs(b2, m);
    SlowCfs(b2, l, head, d, m, more);
  }

  lemma OpeningShape(r: Reply)
    requires Playable(r)
    ensures if r.Quick? then HasPci(Opening(r), 0) && Opening(r) == SingleFrame(r.m)
            else HasPci(Opening(r), 1) && Opening(r) == [16, 16] + r.head
  {
  }

  lemma ShortKeeps(b: Bus, l: Link, buf: bytes, room: nat)
    requires |buf| == 8 && HasPci(buf, 0)
    ensures var (_, b', buf') := RecvBody(b, l, 8, buf, room); b' == b && buf' == buf
  {
  }

  // ---- a whole response of such replies ----

  function ScriptFrames(us: nat, ms: nat, id: nat, rs: seq<Reply>): seq<Arrival>
    requires forall r | r in rs :: Playable(r)
    decreases |rs|
  {
    if rs == [] then [] else ReplyFrames(us, ms, id, rs[0]) + ScriptFrames(us + 1000 * Cost(ms, rs[0]), 5000, id, rs[1..])
  }

  function ScriptMs(ms: nat, rs: seq<Reply>): nat
    decreases |rs|
  {
    if rs == [] then 0 else Cost(ms, rs[0]) + ScriptMs(5000, rs[1..])
  }

  function SlowOnes(rs: seq<Reply>): nat {
    if |rs| <= 1 then 0 else (if rs[0].Slow? then 1 else 0) + SlowOnes(rs[1..])
  }

  /** All but the last are pending: the whole script is played. */
  predicate Scripted(rs: seq<Reply>, sid: byte, left: nat) {
    && |rs| == left + 1 && (forall r | r in rs :: Playable(r))
    && forall i | 0 <= i < left :: Judge(Told(rs[i]), sid) == Pending
  }

  lemma {:induction false} ScriptPlayed(b: Bus, l: Link, sid: byte, room: nat, ms: nat, left: nat, buf: bytes, rs: seq<Reply>)
    requires |buf| == 8 && room >= 16 && ms > 0 && Sluggish(b) && b.us % 1000 == 0
    requires Scripted(rs, sid, left) && b.incoming == ScriptFrames(b.us, ms, l.rx, rs)
    ensures RecvResponse(b, l, sid, room, ms, P2, left, buf).1.us == b.us + 1000 * ScriptMs(ms, rs)
    ensures SlowReplies(b, l, sid, room, ms, P2, left, buf) == SlowOnes(rs)
    decreases left
  {
    hide Recv, ReplyFrames, Judge, Told, Playable;
    var rest := ScriptFrames(b.us + 1000 * Cost(ms, rs[0]), 5000, l.rx, rs[1..]);
    OneReply(b, l, room, ms, buf, rs[0], rest);
    if left > 0 {
      var (_, b1, buf1) := Recv(b, l, room, ms, buf);
      assert forall i | 0 <= i < left - 1 :: rs[1..][i] == rs[i + 1];
      ScriptPlayed(b1, l, sid, room, 5000, left - 1, buf1, rs[1..]);
    }
  }

  const PENDING_HEAD: bytes := [NEGATIVE, SID_READ, NRC_PENDING, 0, 0, 0]

  predicate IsHold(r: Reply) {
    r == Slow(PENDING_HEAD) || r == Quick(PENDING_HEAD)
  }

  lemma HoldTold(r: Reply, sid: byte)
    requires IsHold(r)
    ensures Playable(r) && Judge(Told(r), sid) == Pending
  {
  }

  lemma OneMore(ms: nat, r: Reply, rest: seq<Reply>)
    requires rest != []
    ensures ScriptMs(ms, [r] + rest) == Cost(ms, r) + ScriptMs(5000, rest)
    ensures SlowOnes([r] + rest) == (if r.Slow? then 1 else 0) + SlowOnes(rest)
  {
    assert ([r] + rest)[1..] == rest;
  }

  lemma OnlyOne(ms: nat, r: Reply)
    ensures ScriptMs(ms, [r]) == Cost(ms, r) && SlowOnes([r]) == 0
  {
    assert [r][1..] == [];
  }

  lemma ScriptOfFour(r0: Reply, r1: Reply, r2: Reply, last: Reply, sid: byte)
    requires Playable(last) && IsHold(r0) && IsHold(r1) && IsHold(r2)
    ensures var rs := [r0, r1, r2, last];
      && Scripted(rs, sid, 3)
      && ScriptMs(P2, rs) == Cost(P2, r0) + Cost(5000, r1) + Cost(5000, r2) + Cost(5000, last)
      && SlowOnes(rs) == (if r0.Slow? then 1 else 0) + (if r1.Slow? then 1 else 0) + (if r2.Slow? then 1 else 0)
  {
    hide Judge, Told, Playable, Cost, ScriptMs, SlowOnes, IsHold;
    HoldTold(r0, sid);
    HoldTold(r1, sid);
    HoldTold(r2, sid);
    var a, b, c := [last], [r2, last], [r1, r2, last];
    OnlyOne(5000, last);
    OneMore(5000, r2, a);
    OneMore(5000, r1, b);
    OneMore(P2, r0, c);
    assert [r2] + a == b && [r1] + b == c && [r0] + c == [r0, r1, r2, last];
  }

  /** Two of three pending replies and the answer segmented: 30391 ms. */
  lemma SlowRead(l: Link, buf: bytes) returns (b: Bus)
    requires |buf| == 8
    ensures SendsWithin(b, HAL_SEND_MS) && ReadSlow(b, l, 0, 16, P2, buf) == 2
    ensures Now(ReadDid(b, l, 0, 16, P2, buf).1) == Now(b) + 30391
  {
    hide RecvResponse, SlowReplies, ScriptFrames, ScriptMs, SlowOnes, Scripted;
    var s, last := Slow(PENDING_HEAD), Slow([RESP_READ, 0, 0, 0, 0, 0]);
    var rs := [s, s, Quick(PENDING_HEAD), last];
    ScriptOfFour(s, s, Quick(PENDING_HEAD), last, RESP_READ);
    ScriptPlayable(rs, RESP_READ);
    b := Bus(0, ScriptFrames(1000 * HAL_SEND_MS, P2, l.rx, rs), k => Sending(true, 1000 * HAL_SEND_MS), 0, []);
    var (r, b1) := Send(b, l, ReadRequest(0));
    assert r == Delivered && b1.us == 1000 * HAL_SEND_MS && b1.incoming == b.incoming;
    ScriptPlayed(b1, l, RESP_READ, 16, P2, 3, buf, rs);
  }

  lemma ScriptPlayable(rs: seq<Reply>, sid: byte)
    requires Scripted(rs, sid, 3)
    ensures forall r | r in rs :: Playable(r)
  {
  }

  // ---- and a request that had to wait ----

  lemma WaitStep(b: Bus, l: Link, deadline: nat, hard: nat, waits: nat, at: nat, more: seq<Arrival>)
    requires Now(b) < hard && Now(b) < deadline && b.us <= at <= b.us + 1000 * (deadline - Now(b)) && waits < N_WFT_MAX
    requires b.incoming == [Arrival(at, Frame(l.rx, FlowFrame(1, 0, 0)))] + more
    ensures AwaitFc(b, l, deadline, hard, waits)
      == AwaitFc(Seen(b, at, Frame(l.rx, FlowFrame(1, 0, 0)), more), l, at / 1000 + N_BS_MS, hard, waits + 1)
  {
    assert b.incoming[1..] == more;
    assert FlowFrame(1, 0, 0)[0] == 49;
  }

  lemma GrantStep(b: Bus, l: Link, deadline: nat, hard: nat, waits: nat, at: nat, more: seq<Arrival>)
    requires Now(b) < hard && Now(b) < deadline && b.us <= at <= b.us + 1000 * (deadline - Now(b))
    requires b.incoming == [Arrival(at, Frame(l.rx, FlowFrame(0, 0, 0)))] + more
    ensures AwaitFc(b, l, deadline, hard, waits) == (Granted(0, 0), Seen(b, at, Frame(l.rx, FlowFrame(0, 0, 0)), more))
  {
    assert b.incoming[1..] == more;
    var d := FlowFrame(0, 0, 0);
    assert d[0] == 48 && d[1] == 0 && d[2] == 0;
  }

  /** Three times wait, then clear to send, each at the last moment. */
  function Waits(u: nat, id: nat): seq<Arrival> {
    [Arrival(u + 999000, Frame(id, FlowFrame(1, 0, 0))), Arrival(u + 1998000, Frame(id, FlowFrame(1, 0, 0))),
     Arrival(u + 2997000, Frame(id, FlowFrame(1, 0, 0))), Arrival(u + 3997000, Frame(id, FlowFrame(0, 0, 0)))]
  }

  lemma LateGrant(b: Bus, l: Link, more: seq<Arrival>)
    requires b.us % 1000 == 0 && b.incoming == Waits(b.us, l.rx) + more
    ensures var (g, b') := StartAwait(b, l);
      g == Granted(0, 0) && b'.us == b.us + 3997000 && b'.incoming == more && b'.plan == b.plan
  {
    hide AwaitFc, FlowFrame;
    var u, hard := b.us, Now(b) + MSG_MS;
    var w, g := Frame(l.rx, FlowFrame(1, 0, 0)), Frame(l.rx, FlowFrame(0, 0, 0));
    var m3 := [Arrival(u + 3997000, g)] + more;
    var m2 := [Arrival(u + 2997000, w)] + m3;
    var m1 := [Arrival(u + 1998000, w)] + m2;
    assert b.incoming == [Arrival(u + 999000, w)] + m1;
    WaitStep(b, l, Now(b) + N_BS_MS, hard, 0, u + 999000, m1);
    var b1 := Seen(b, u + 999000, w, m1);
    WaitStep(b1, l, (u + 999000) / 1000 + N_BS_MS, hard, 1, u + 1998000, m2);
    var b2 := Seen(b1, u + 1998000, w, m2);
    WaitStep(b2, l, (u + 1998000) / 1000 + N_BS_MS, hard, 2, u + 2997000, m3);
    var b3 := Seen(b2, u + 2997000, w, m3);
    GrantStep(b3, l, (u + 2997000) / 1000 + N_BS_MS, hard, 3, u + 3997000, more);
  }

  /** Eight bytes: a first frame, the waits, one consecutive frame. */
  lemma SlowSend(b: Bus, l: Link, p: bytes, more: seq<Arrival>)
    requires |p| == 8 && b.us % 1000 == 0 && Sluggish(b) && b.incoming == Waits(b.us + 1000 * HAL_SEND_MS, l.rx) + more
    ensures var (r, b') := Send(b, l, p);
      r == Delivered && b'.us == b.us + 3997000 + 2000 * HAL_SEND_MS && b'.incoming == more && b'.plan == b.plan
  {
    hide StartAwait, FirstFrame, ConsFrame, Waits;
    var (ok, b1) := Transmit(b, Frame(l.tx, FirstFrame(p)));
    LateGrant(b1, l, more);
    var (g, b2) := StartAwait(b1, l);
    LastCf(b2, l, p[6..], Now(b2) + MSG_MS);
  }

  lemma LastCf(b: Bus, l: Link, rest: bytes, deadline: nat)
    requires |rest| == 2 && Now(b) < deadline && Sluggish(b)
    ensures var (r, b') := SendCfs(b, l, rest, 1, 0, 0, 0, deadline);
      r == Delivered && b'.us == b.us + 1000 * HAL_SEND_MS && b'.incoming == b.incoming && b'.plan == b.plan
  {
    hide ConsFrame;
    assert Drop(rest, 7) == [];
  }

  /** A late clear-to-send, one pending reply and the answer segmented: 30391 ms. */
  lemma SlowWrite(l: Link, buf: bytes) returns (b: Bus)
    requires |buf| == 8
    ensures SendsWithin(b, HAL_SEND_MS) && WriteSlow(b, l, 0, Zeros(5), P2, buf) == 1
    ensures Now(WriteDid(b, l, 0, Zeros(5), P2, buf).1) == Now(b) + 30391
  {
    hide RecvResponse, SlowReplies, ScriptFrames, ScriptMs, SlowOnes, Scripted, Send;
    var s, q, last := Slow(PENDING_HEAD), Quick(PENDING_HEAD), Slow([RESP_WRITE, 0, 0, 0, 0, 0]);
    var rs := [s, q, q, last];
    ScriptOfFour(s, q, q, last, RESP_WRITE);
    ScriptPlayable(rs, RESP_WRITE);
    var u := 3997000 + 2000 * HAL_SEND_MS;
    var more := ScriptFrames(u, P2, l.rx, rs);
    b := Bus(0, Waits(1000 * HAL_SEND_MS, l.rx) + more, k => Sending(true, 1000 * HAL_SEND_MS), 0, []);
    var p := WriteRequest(0, Zeros(5));
    SlowSend(b, l, p, more);
    var (r, b1) := Send(b, l, p);
    ScriptPlayed(b1, l, RESP_WRITE, WRITE_ROOM, P2, 3, buf, rs);
  }

  /** One attempt: the frame was not queued in time, the bus did not go idle in
      time, or it went out, well or not. */
  datatype Attempt = NotQueued(ms: nat) | NotDone(ms: nat) | WentOut(ms: nat, ok: bool)

  /** hal_send: hand the frame over again while the controller reports that it
      did not make it, four times at most. */
  method HalSend(attempts: nat -> Attempt) returns (ok: bool, tries: nat, ms: nat)
    requires forall k :: match attempts(k)
             case NotQueued(t) => t <= 50
             case NotDone(t) => t <= 150
             case WentOut(t, _) => t <= 150
    ensures 1 <= tries <= 4 && ms <= 600
    ensures forall k :: 0 <= k < tries - 1 ==> attempts(k).WentOut? && !attempts(k).ok
    ensures ok <==> attempts(tries - 1).WentOut? && attempts(tries - 1).ok
    ensures !ok && attempts(tries - 1).WentOut? ==> tries == 4
  {
    ok, tries, ms := false, 0, 0;
    while tries < 4
      invariant 0 <= tries <= 4 && ms <= 150 * tries && !ok
      invariant forall k :: 0 <= k < tries ==> attempts(k).WentOut? && !attempts(k).ok
    {
      var a := attempts(tries);
      tries := tries + 1;
      ms := ms + a.ms;
      if !a.WentOut? {
        return;
      }
      if a.ok {
        ok := true;
        return;
      }
    }
  }
}
