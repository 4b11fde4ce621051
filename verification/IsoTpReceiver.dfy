/** What isotp_recv makes of whatever arrives: soundness against any peer, the
    round trip with the sender, and the time an exchange can take. */
module IsoTpReceiver {
  import opened Bytes
  import opened IsoTp
  import opened IsoTpSender

  // ---- which frames carry which message ----

  /** The frames received on one identifier. */
  function RxOn(log: seq<Entry>, id: nat): seq<Data> {
    if log == [] then []
    else (if log[0].Rx? && log[0].frame.id == id then [log[0].frame.data] else []) + RxOn(log[1..], id)
  }

  /** Consecutive frames numbered from `sn`, without a gap, carrying `p`. */
  predicate CfsCarry(frames: seq<Data>, p: bytes, sn: nat)
    decreases |p|
  {
    if p == [] then frames == []
    else
      frames != [] &&
      var f, chunk := frames[0], Min(7, |p|);
      HasPci(f, 2) && f[0] % 16 == sn && |f| >= chunk + 1 && f[1..1 + chunk] == p[..chunk] &&
      CfsCarry(frames[1..], p[chunk..], (sn + 1) % 16)
  }

  /** One complete message: a single frame, or a first frame and all its
      consecutive frames. */
  predicate Carries(frames: seq<Data>, p: bytes) {
    frames != [] &&
    var f := frames[0];
    if HasPci(f, 0) then |frames| == 1 && f[0] % 16 == |p| && |f| >= |p| + 1 && f[1..1 + |p|] == p
    else HasPci(f, 1) && |f| == 8 && Total(f[0], f[1]) == |p| &&
         if |p| <= 6 then |frames| == 1 && f[2..2 + |p|] == p
         else f[2..8] == p[..6] && CfsCarry(frames[1..], p[6..], 1)
  }

  predicate Idle(d: Data) {
    !HasPci(d, 0) && !HasPci(d, 1)
  }

  /** Frames that open nothing, then one uninterrupted message. */
  ghost predicate Heard(frames: seq<Data>, p: bytes) {
    exists k :: 0 <= k <= |frames| && (forall i :: 0 <= i < k ==> Idle(frames[i])) && Carries(frames[k..], p)
  }

  /** The frames leave no choice about the message. */
  lemma {:induction false} CfsCarryUnique(frames: seq<Data>, p: bytes, q: bytes, sn: nat)
    requires |p| == |q| && CfsCarry(frames, p, sn) && CfsCarry(frames, q, sn)
    ensures p == q
    decreases |p|
  {
    if p != [] {
      var chunk := Min(7, |p|);
      CfsCarryUnique(frames[1..], p[chunk..], q[chunk..], (sn + 1) % 16);
      assert p == p[..chunk] + p[chunk..] && q == q[..chunk] + q[chunk..];
    }
  }

  lemma CarriesUnique(frames: seq<Data>, p: bytes, q: bytes)
    requires Carries(frames, p) && Carries(frames, q)
    ensures p == q
  {
    if HasPci(frames[0], 1) && |p| > 6 {
      CfsCarryUnique(frames[1..], p[6..], q[6..], 1);
      assert p == p[..6] + p[6..] && q == q[..6] + q[6..];
    }
  }

  /** The sender's segmentation carries the message it was made from. */
  lemma SegmentsCarry(p: bytes)
    requires |p| <= MAX_PAYLOAD
    ensures Carries(Segments(p), p)
  {
    if |p| > 7 {
      ConsCarry(p[6..], 1);
      FirstFrameShape(p);
      assert Segments(p)[1..] == ConsFrames(p[6..], 1);
    } else {
      var f := SingleFrame(p);
      assert f[1..1 + |p|] == p;
    }
  }

  lemma FirstFrameShape(p: bytes)
    requires 6 <= |p| <= MAX_PAYLOAD
    ensures var d := FirstFrame(p);
            |d| == 8 && HasPci(d, 1) && Total(d[0], d[1]) == |p| && d[2..8] == p[..6]
  {
    DivModUnique(16 + |p| / 256, 16, 1, |p| / 256);
  }

  lemma {:induction false} ConsCarry(rest: bytes, sn: nat)
    requires sn < 16
    ensures CfsCarry(ConsFrames(rest, sn), rest, sn)
    decreases |rest|
  {
    if rest != [] {
      ConsCarry(Drop(rest, 7), (sn + 1) % 16);
      var chunk := Min(7, |rest|);
      var f := ConsFrame(sn, Take(rest, 7));
      assert f[1..1 + chunk] == rest[..chunk];
      assert Drop(rest, 7) == rest[chunk..];
      assert ConsFrames(rest, sn)[1..] == ConsFrames(Drop(rest, 7), (sn + 1) % 16);
    }
  }

  // ---- soundness: OK means one message was there ----

  lemma RxOnFront(log: seq<Entry>, id: nat)
    ensures RxOn(log, id) ==
            if log == [] then []
            else (if log[0].Rx? && log[0].frame.id == id then [log[0].frame.data] else []) + RxOn(log[1..], id)
  {
  }

  lemma {:induction false} RxOnConcat(a: seq<Entry>, b: seq<Entry>, id: nat)
    ensures RxOn(a + b, id) == RxOn(a, id) + RxOn(b, id)
  {
    hide RxOn;
    if a == [] {
      RxOnFront([], id);
      assert a + b == b && [] + RxOn(b, id) == RxOn(b, id);
    } else {
      assert (a + b)[1..] == a[1..] + b;
      RxOnFront(a, id);
      RxOnFront(a + b, id);
      RxOnConcat(a[1..], b, id);
    }
  }

  lemma RxOnOne(e: Entry, id: nat)
    ensures RxOn([e], id) == if e.Rx? && e.frame.id == id then [e.frame.data] else []
    ensures RxOn([], id) == []
  {
    assert [e][1..] == [];
  }

  lemma RxThen(b: Bus, b1: Bus, b': Bus, id: nat)
    requires b.log <= b1.log <= b'.log
    ensures RxOn(New(b, b'), id) == RxOn(New(b, b1), id) + RxOn(New(b1, b'), id)
  {
    assert New(b, b') == New(b, b1) + New(b1, b');
    RxOnConcat(New(b, b1), New(b1, b'), id);
  }

  lemma SelfHears(b: Bus, id: nat)
    ensures New(b, b) == [] && RxOn(New(b, b), id) == []
  {
  }

  lemma {:induction false} CfsSound(b: Bus, l: Link, got: bytes, total: nat, sn: nat, deadline: nat, buf: bytes)
    requires |buf| == 8 && sn < 16 && |got| <= total
    ensures var (r, b', buf') := RecvCfs(b, l, got, total, sn, deadline, buf);
            && b.log <= b'.log && |buf'| == 8
            && (r.Got? ==> r.segmented && |r.payload| == total && r.payload[..|got|] == got)
            && (r.Got? ==> CfsCarry(RxOn(New(b, b'), l.rx), r.payload[|got|..], sn))
    decreases |b.incoming|
  {
    hide New, RxOn;
    SelfHears(b, l.rx);
    if |got| < total && Now(b) < deadline {
      var (f, b1) := Receive(b, N_CR_MS);
      ReceiveLogs(b, N_CR_MS);
      if f.Some? {
        var (r, b', buf') := RecvCfs(b, l, got, total, sn, deadline, buf);
        RxOnOne(Rx(f.value), l.rx);
        var buf1 := Over(f.value.data, buf);
        if f.value.id != l.rx {
          CfsSound(b1, l, got, total, sn, deadline, buf1);
          RxThen(b, b1, b', l.rx);
          assert RxOn(New(b, b'), l.rx) == [] + RxOn(New(b1, b'), l.rx) == RxOn(New(b1, b'), l.rx);
        } else if buf1[0] / 16 == 2 && buf1[0] % 16 == sn {
          var chunk := Min(7, total - |got|);
          if chunk + 1 <= |f.value.data| {
            CfStored(b, b1, l, got, total, sn, deadline, f.value, buf1);
          }
        }
      }
    }
  }

  lemma Fronts(d: bytes, buf: bytes, chunk: nat)
    requires |d| <= |buf| && buf[..|d|] == d && chunk + 1 <= |d|
    ensures d[0] == buf[0] && d[1..1 + chunk] == buf[1..1 + chunk]
  {
    assert buf[..|d|][1..1 + chunk] == buf[1..1 + chunk];
  }

  lemma Behind(p: bytes, got: bytes, chunk: bytes)
    requires |got| + |chunk| <= |p| && p[..|got| + |chunk|] == got + chunk
    ensures p[..|got|] == got && p[|got|..][..|chunk|] == chunk && p[|got|..][|chunk|..] == p[|got + chunk|..]
  {
    assert p[..|got|] == p[..|got| + |chunk|][..|got|];
    assert p[|got|..][..|chunk|] == p[..|got| + |chunk|][|got|..];
  }

  lemma CfStored(b: Bus, b1: Bus, l: Link, got: bytes, total: nat, sn: nat, deadline: nat, f: Frame, buf1: bytes)
    requires |buf1| == 8 && sn < 16 && |got| < total && f.id == l.rx && buf1[..|f.data|] == f.data
    requires b.log <= b1.log && New(b, b1) == [Rx(f)]
    requires |b1.incoming| < |b.incoming|
    requires var chunk := Min(7, total - |got|);
             buf1[0] / 16 == 2 && buf1[0] % 16 == sn && chunk + 1 <= |f.data|
    ensures var chunk := Min(7, total - |got|);
            var (r, b', buf') := RecvCfs(b1, l, got + buf1[1..1 + chunk], total, (sn + 1) % 16, deadline, buf1);
            && b.log <= b'.log && |buf'| == 8
            && (r.Got? ==> r.segmented && |r.payload| == total && r.payload[..|got|] == got)
            && (r.Got? ==> CfsCarry(RxOn(New(b, b'), l.rx), r.payload[|got|..], sn))
    decreases |b.incoming|, 0
  {
    hide New, RxOn, RecvCfs;
    var chunk := Min(7, total - |got|);
    var next := got + buf1[1..1 + chunk];
    CfsSound(b1, l, next, total, (sn + 1) % 16, deadline, buf1);
    var (r, b', buf') := RecvCfs(b1, l, next, total, (sn + 1) % 16, deadline, buf1);
    RxThen(b, b1, b', l.rx);
    RxOnOne(Rx(f), l.rx);
    if r.Got? {
      var p := r.payload[|got|..];
      Fronts(f.data, buf1, chunk);
      Behind(r.payload, got, buf1[1..1 + chunk]);
      var fs := RxOn(New(b, b'), l.rx);
      assert fs == [f.data] + RxOn(New(b1, b'), l.rx) && fs[1..] == RxOn(New(b1, b'), l.rx);
    }
  }

  /** The frames end with `d`, and none before it opens a message. */
  ghost predicate OpenedBy(fs: seq<Data>, d: Data) {
    fs != [] && fs[|fs| - 1] == d && forall i :: 0 <= i < |fs| - 1 ==> Idle(fs[i])
  }

  lemma {:induction false} OpeningSound(b: Bus, l: Link, deadline: nat, buf: bytes)
    requires |buf| == 8
    ensures var (f, b', buf') := AwaitOpening(b, l, deadline, buf);
            && b.log <= b'.log
            && (f.Some? ==> OpenedBy(RxOn(New(b, b'), l.rx), f.value.data))
    decreases |b.incoming|
  {
    hide New, RxOn;
    SelfHears(b, l.rx);
    if Now(b) < deadline {
      var (fr, b1) := Receive(b, deadline - Now(b));
      ReceiveLogs(b, deadline - Now(b));
      if fr.Some? {
        RxOnOne(Rx(fr.value), l.rx);
        if !Opens(l, fr.value) {
          OpeningSound(b1, l, deadline, Over(fr.value.data, buf));
          var (f, b', buf') := AwaitOpening(b, l, deadline, buf);
          RxThen(b, b1, b', l.rx);
        }
      }
    }
  }

  /** A message is reported only if the frames on rx_id were exactly some that
      open nothing, then one uninterrupted in-sequence message with that content. */
  lemma OnlyWhatWasHeard(b: Bus, l: Link, room: nat, timeout: nat, buf: bytes)
    requires |buf| == 8
    ensures var (r, b', buf') := Recv(b, l, room, timeout, buf);
            && b.log <= b'.log && |buf'| == 8
            && (r.Got? ==> Heard(RxOn(New(b, b'), l.rx), r.payload) && |r.payload| <= room)
  {
    hide New, RxOn, RecvCfs, AwaitOpening;
    var (f, b1, buf1) := AwaitOpening(b, l, Now(b) + timeout, buf);
    OpeningSound(b, l, Now(b) + timeout, buf);
    if f.Some? {
      BodySound(b, b1, l, f.value, buf1, room);
    }
  }

  lemma BodySound(b: Bus, b1: Bus, l: Link, f: Frame, buf: bytes, room: nat)
    requires |buf| == 8 && b.log <= b1.log && Opens(l, f) && buf[..|f.data|] == f.data
    requires OpenedBy(RxOn(New(b, b1), l.rx), f.data)
    ensures var (r, b', buf') := RecvBody(b1, l, |f.data|, buf, room);
            && b.log <= b'.log && |buf'| == 8
            && (r.Got? ==> Heard(RxOn(New(b, b'), l.rx), r.payload) && |r.payload| <= room)
  {
    hide New, RxOn, RecvCfs;
    var fs := RxOn(New(b, b1), l.rx);
    var k := |fs| - 1;
    var (r, b', buf') := RecvBody(b1, l, |f.data|, buf, room);
    assert f.data[0] == buf[0];
    if buf[0] / 16 == 0 {
      if r.Got? {
        assert buf[1..1 + buf[0] % 16] == f.data[1..1 + buf[0] % 16];
        assert fs[k..] == [f.data];
        assert Carries(fs[k..], r.payload);
      }
    } else {
      var total := Total(buf[0], buf[1]);
      var d := if total > room then FlowFrame(2, 0, 0) else FlowFrame(0, BLOCKSIZE, l.stmin);
      var b2 := Transmit(b1, Frame(l.tx, d)).1;
      TransmitHears(b1, Frame(l.tx, d), l.rx);
      RxThen(b, b1, b2, l.rx);
      if total <= room && |f.data| == 8 && Transmit(b1, Frame(l.tx, d)).0 {
        assert f.data == buf;
        SegmentedSound(b, b2, l, fs, buf, total);
      }
    }
  }

  lemma TransmitHears(b: Bus, f: Frame, id: nat)
    ensures var b1 := Transmit(b, f).1;
            b.log <= b1.log && RxOn(New(b, b1), id) == []
  {
    var (ok, b1) := Transmit(b, f);
    assert New(b, b1) == [Tx(f, ok)];
    RxOnOne(Tx(f, ok), id);
  }

  lemma SegmentedSound(b: Bus, b2: Bus, l: Link, fs: seq<Data>, buf: Data, total: nat)
    requires |buf| == 8 && b.log <= b2.log && RxOn(New(b, b2), l.rx) == fs
    requires OpenedBy(fs, buf) && HasPci(buf, 1) && Total(buf[0], buf[1]) == total
    ensures var (r, b', buf') := RecvCfs(b2, l, buf[2..8], total, 1, Now(b2) + MSG_MS, buf);
            && b.log <= b'.log && |buf'| == 8
            && (r.Got? ==> Heard(RxOn(New(b, b'), l.rx), r.payload) && |r.payload| == total)
  {
    hide New, RxOn, Total;
    var (r, b', buf') := RecvCfs(b2, l, buf[2..8], total, 1, Now(b2) + MSG_MS, buf);
    if total >= 6 {
      CfsSound(b2, l, buf[2..8], total, 1, Now(b2) + MSG_MS, buf);
    } else {
      SelfHears(b2, l.rx);
    }
    RxThen(b, b2, b', l.rx);
    if r.Got? {
      var more := RxOn(New(b2, b'), l.rx);
      if total <= 6 {
        assert r.payload == buf[2..8][..total] && more == [];
        assert r.payload == buf[2..2 + total];
      }
      HeardFirst(fs, buf, more, r.payload);
    }
  }

  /** Frames that end with a first frame, then the consecutive ones. */
  lemma HeardFirst(fs: seq<Data>, buf: Data, more: seq<Data>, p: bytes)
    requires |buf| == 8 && OpenedBy(fs, buf) && HasPci(buf, 1) && Total(buf[0], buf[1]) == |p|
    requires if |p| <= 6 then more == [] && p == buf[2..2 + |p|] else p[..6] == buf[2..8] && CfsCarry(more, p[6..], 1)
    ensures Heard(fs + more, p)
  {
    hide Total, CfsCarry;
    var k, all := |fs| - 1, fs + more;
    assert all[k..] == [buf] + more;
    assert all[k..][1..] == more;
    assert Carries(all[k..], p);
    assert forall i :: 0 <= i < k ==> all[i] == fs[i];
  }

  // ---- the round trip, frames of other nodes in between ----

  /** What will arrive on one identifier. */
  function OnId(coming: seq<Arrival>, id: nat): seq<Data> {
    if coming == [] then []
    else (if coming[0].frame.id == id then [coming[0].frame.data] else []) + OnId(coming[1..], id)
  }

  function Later(us: nat, at: nat): nat {
    if at > us then at else us
  }

  /** Up to the first frame on `id`, nothing is later than the deadline and time
      is left before each. */
  predicate Prompt(coming: seq<Arrival>, id: nat, us: nat, deadline: nat)
    decreases |coming|
  {
    us / 1000 < deadline && coming != [] && coming[0].at <= us + 1000 * (deadline - us / 1000) &&
    (coming[0].frame.id == id || Prompt(coming[1..], id, Later(us, coming[0].at), deadline))
  }

  /** Up to the `k`th frame on `id`, no gap exceeds N_Cr and the message
      ceiling has not passed before any. */
  predicate Steady(coming: seq<Arrival>, id: nat, k: nat, us: nat, deadline: nat)
    decreases |coming|
  {
    k == 0 ||
    (us / 1000 < deadline && coming != [] && coming[0].at <= us + 1000000 &&
     Steady(coming[1..], id, if coming[0].frame.id == id then k - 1 else k, Later(us, coming[0].at), deadline))
  }

  lemma ConsFront(rest: bytes, sn: nat)
    requires sn < 16 && rest != []
    ensures var chunk := Min(7, |rest|);
            var f := ConsFrame(sn, Take(rest, 7));
            && ConsFrames(rest, sn) == [f] + ConsFrames(rest[chunk..], (sn + 1) % 16)
            && |f| == 8 && f[0] == 32 + sn && f[1..1 + chunk] == rest[..chunk]
            && CfCount(|rest|) == 1 + CfCount(|rest| - chunk)
  {
    var chunk := Min(7, |rest|);
    assert Drop(rest, 7) == rest[chunk..];
    assert Take(rest, 7) == rest[..chunk];
    assert ConsFrame(sn, Take(rest, 7))[1..1 + chunk] == rest[..chunk];
  }

  /** The stored part grows by what each consecutive frame of `p` carries, and
      the whole is delivered exactly when the frames come in time. */
  lemma {:induction false} CfsDelivered(b: Bus, l: Link, got: bytes, p: bytes, sn: nat, deadline: nat, buf: bytes)
    requires |buf| == 8 && sn < 16 && got <= p
    requires ConsFrames(p[|got|..], sn) <= OnId(b.incoming, l.rx)
    ensures RecvCfs(b, l, got, |p|, sn, deadline, buf).0 == Got(p, true) <==>
            Steady(b.incoming, l.rx, CfCount(|p| - |got|), b.us, deadline)
    ensures RecvCfs(b, l, got, |p|, sn, deadline, buf).0 in {Got(p, true), Missed(Timeout)}
    decreases |b.incoming|
  {
    hide ConsFrames, ConsFrame;
    var rest := p[|got|..];
    if rest == [] {
      assert got[..|p|] == p;
    } else if Now(b) < deadline {
      var (f, b1) := Receive(b, N_CR_MS);
      if f.Some? {
        var buf1 := Over(f.value.data, buf);
        ConsFront(rest, sn);
        assert OnId(b.incoming, l.rx) ==
               (if f.value.id == l.rx then [f.value.data] else []) + OnId(b.incoming[1..], l.rx);
        if f.value.id != l.rx {
          CfsDelivered(b1, l, got, p, sn, deadline, buf1);
        } else {
          CfArrives(b, b1, l, got, p, sn, deadline, f.value, buf1);
        }
      }
    }
  }

  lemma PrefixTail(f: Data, a: seq<Data>, g: Data, b: seq<Data>)
    requires [f] + a <= [g] + b
    ensures f == g && a <= b
  {
    assert ([f] + a)[0] == ([g] + b)[0];
    assert a == ([f] + a)[1..] && b == ([g] + b)[1..];
  }

  lemma CfArrives(b: Bus, b1: Bus, l: Link, got: bytes, p: bytes, sn: nat, deadline: nat, f: Frame, buf1: bytes)
    requires |buf1| == 8 && sn < 16 && got <= p && |got| < |p| && f.id == l.rx && buf1[..|f.data|] == f.data
    requires ConsFrames(p[|got|..], sn) <= [f.data] + OnId(b1.incoming, l.rx)
    requires |b1.incoming| < |b.incoming|
    ensures var chunk := Min(7, |p| - |got|);
            var next := got + buf1[1..1 + chunk];
            var r := RecvCfs(b1, l, next, |p|, (sn + 1) % 16, deadline, buf1).0;
            && |f.data| == 8 && buf1[0] / 16 == 2 && buf1[0] % 16 == sn
            && CfCount(|p| - |got|) == 1 + CfCount(|p| - |next|)
            && r in {Got(p, true), Missed(Timeout)}
            && (r == Got(p, true) <==>
                Steady(b1.incoming, l.rx, CfCount(|p| - |next|), b1.us, deadline))
    decreases |b.incoming|, 0
  {
    var rest, chunk := p[|got|..], Min(7, |p| - |got|);
    ConsFront(rest, sn);
    PrefixTail(ConsFrame(sn, Take(rest, 7)), ConsFrames(rest[chunk..], (sn + 1) % 16), f.data, OnId(b1.incoming, l.rx));
    hide RecvCfs, ConsFrames, Steady, OnId;
    var next := got + buf1[1..1 + chunk];
    assert buf1 == f.data;
    assert next == p[..|got| + chunk] && p[|next|..] == rest[chunk..];
    CfsDelivered(b1, l, next, p, (sn + 1) % 16, deadline, buf1);
  }

  /** The first frame on rx_id opens the message, if it is prompt. */
  lemma {:induction false} OpeningArrives(b: Bus, l: Link, deadline: nat, buf: bytes, d: Data, more: seq<Data>)
    requires |buf| == 8 && OnId(b.incoming, l.rx) == [d] + more && (HasPci(d, 0) || HasPci(d, 1)) && |d| == 8
    ensures var (f, b', buf') := AwaitOpening(b, l, deadline, buf);
            && (f.Some? <==> Prompt(b.incoming, l.rx, b.us, deadline))
            && (f.Some? ==> f.value == Frame(l.rx, d) && buf' == d && OnId(b'.incoming, l.rx) == more)
    decreases |b.incoming|
  {
    if Now(b) < deadline {
      var (f, b1) := Receive(b, deadline - Now(b));
      if f.Some? {
        if f.value.id == l.rx {
          PrefixTail(f.value.data, OnId(b1.incoming, l.rx), d, more);
          assert Over(f.value.data, buf) == d;
          PrefixTail(d, more, f.value.data, OnId(b1.incoming, l.rx));
        } else {
          assert OnId(b1.incoming, l.rx) == OnId(b.incoming, l.rx);
          OpeningArrives(b1, l, deadline, Over(f.value.data, buf), d, more);
        }
      }
    }
  }

  /** When the frames of `p` are what arrives on rx_id, whatever other nodes send
      in between and however the sequence numbers wrap, the message is received
      exactly when the time ceilings hold and flow control gets out. */
  lemma ReceivedExactlyInTime(b: Bus, l: Link, p: bytes, room: nat, timeout: nat, buf: bytes, more: seq<Data>)
    requires |p| <= MAX_PAYLOAD && |p| <= room && |buf| == 8
    requires OnId(b.incoming, l.rx) == Segments(p) + more
    ensures var (f, b1, buf1) := AwaitOpening(b, l, Now(b) + timeout, buf);
            var (ok, b2) := Transmit(b1, Frame(l.tx, FlowFrame(0, BLOCKSIZE, l.stmin)));
            Recv(b, l, room, timeout, buf).0 == Got(p, |p| > 7) <==>
            Prompt(b.incoming, l.rx, b.us, Now(b) + timeout) &&
            (|p| > 7 ==> ok && Steady(b2.incoming, l.rx, |p| / 7, b2.us, Now(b2) + 3000))
    ensures var r := Recv(b, l, room, timeout, buf).0; r == Got(p, |p| > 7) || r.Missed?
  {
    hide AwaitOpening, OnId, RecvCfs, RecvBody, Recv, Steady, Prompt, Segments, SingleFrame, FirstFrame, ConsFrames, FlowFrame, Transmit;
    var d := if |p| <= 7 then SingleFrame(p) else FirstFrame(p);
    var tail := (if |p| <= 7 then [] else ConsFrames(p[6..], 1)) + more;
    SegmentsFront(p);
    assert Segments(p) + more == [d] + tail;
    OpeningArrives(b, l, Now(b) + timeout, buf, d, tail);
    var (f, b1, buf1) := AwaitOpening(b, l, Now(b) + timeout, buf);
    RecvIs(b, l, room, timeout, buf);
    if f.Some? {
      if |p| <= 7 {
        ShortBody(b1, l, p, room);
      } else {
        LongBody(b1, l, p, room);
      }
    }
  }

  lemma SegmentsFront(p: bytes)
    requires |p| <= MAX_PAYLOAD
    ensures |p| <= 7 ==> Segments(p) == [SingleFrame(p)] && HasPci(SingleFrame(p), 0) && |SingleFrame(p)| == 8
    ensures |p| > 7 ==> Segments(p) == [FirstFrame(p)] + ConsFrames(p[6..], 1) && HasPci(FirstFrame(p), 1) && |FirstFrame(p)| == 8
  {
    if |p| > 7 {
      FirstFrameShape(p);
    }
  }

  lemma RecvIs(b: Bus, l: Link, room: nat, timeout: nat, buf: bytes)
    requires |buf| == 8
    ensures var (f, b1, buf1) := AwaitOpening(b, l, Now(b) + timeout, buf);
            Recv(b, l, room, timeout, buf) == if f.None? then (Missed(Timeout), b1, buf1) else RecvBody(b1, l, |f.value.data|, buf1, room)
  {
  }

  lemma ShortBody(b1: Bus, l: Link, p: bytes, room: nat)
    requires |p| <= 7 && |p| <= room
    ensures RecvBody(b1, l, 8, SingleFrame(p), room).0 == Got(p, false)
  {
    assert SingleFrame(p)[1..1 + |p|] == p;
  }

  /** The consecutive frames of a long message come next on rx_id. */
  predicate RestComing(b: Bus, l: Link, p: bytes)
    requires |p| > 6
  {
    ConsFrames(p[6..], 1) <= OnId(b.incoming, l.rx)
  }

  lemma StillComing(b: Bus, b': Bus, l: Link, p: bytes)
    requires |p| > 6 && RestComing(b, l, p) && b'.incoming == b.incoming
    ensures RestComing(b', l, p)
  {
  }

  lemma LongBody(b1: Bus, l: Link, p: bytes, room: nat)
    requires 7 < |p| <= MAX_PAYLOAD && |p| <= room
    requires RestComing(b1, l, p)
    ensures var (ok, b2) := Transmit(b1, Frame(l.tx, FlowFrame(0, BLOCKSIZE, l.stmin)));
            RecvBody(b1, l, 8, FirstFrame(p), room).0 == Got(p, true) <==>
            ok && Steady(b2.incoming, l.rx, |p| / 7, b2.us, Now(b2) + MSG_MS)
    ensures var r := RecvBody(b1, l, 8, FirstFrame(p), room).0; r == Got(p, true) || r.Missed?
  {
    hide RecvBody, RecvCfs, Steady, FirstFrame, FlowFrame, Transmit, Now, RestComing;
    var f := Frame(l.tx, FlowFrame(0, BLOCKSIZE, l.stmin));
    FirstFrameBody(b1, l, p, room);
    TransmitKeeps(b1, f);
    var (ok, b2) := Transmit(b1, f);
    if ok {
      StillComing(b1, b2, l, p);
      AfterFirst(b2, l, p, Now(b2) + MSG_MS, FirstFrame(p));
    }
  }

  lemma FirstFrameBody(b: Bus, l: Link, p: bytes, room: nat)
    requires 7 < |p| <= MAX_PAYLOAD && |p| <= room
    ensures |FirstFrame(p)| == 8
    ensures var (ok, b1) := Transmit(b, Frame(l.tx, FlowFrame(0, BLOCKSIZE, l.stmin)));
            RecvBody(b, l, 8, FirstFrame(p), room) ==
            if !ok then (Missed(BusError), b1, FirstFrame(p))
            else RecvCfs(b1, l, p[..6], |p|, 1, Now(b1) + MSG_MS, FirstFrame(p))
  {
    hide RecvBody, RecvCfs, FirstFrame, FlowFrame, Total, HasPci, Transmit, Now;
    FirstFrameShape(p);
    BodyOfFirst(b, l, FirstFrame(p), |p|, room);
  }

  lemma AfterFirst(b: Bus, l: Link, p: bytes, deadline: nat, buf: bytes)
    requires 7 < |p| && |buf| == 8
    requires RestComing(b, l, p)
    ensures RecvCfs(b, l, p[..6], |p|, 1, deadline, buf).0 == Got(p, true) <==>
            Steady(b.incoming, l.rx, |p| / 7, b.us, deadline)
    ensures var r := RecvCfs(b, l, p[..6], |p|, 1, deadline, buf).0; r == Got(p, true) || r.Missed?
  {
    hide RecvCfs, OnId, Steady, ConsFrames, CfCount;
    var got := p[..6];
    assert |got| == 6 && got <= p;
    CfsDelivered(b, l, got, p, 1, deadline, buf);
    CountAfterFirst(|p|);
  }

  lemma TransmitKeeps(b: Bus, f: Frame)
    ensures Transmit(b, f).1.incoming == b.incoming
  {
  }

  lemma CountAfterFirst(n: nat)
    requires n > 7
    ensures CfCount(n - 6) == n / 7
  {
  }

  lemma BodyOfFirst(b: Bus, l: Link, buf: bytes, total: nat, room: nat)
    requires |buf| == 8 && HasPci(buf, 1) && Total(buf[0], buf[1]) == total && total <= room
    ensures var (ok, b1) := Transmit(b, Frame(l.tx, FlowFrame(0, BLOCKSIZE, l.stmin)));
            RecvBody(b, l, 8, buf, room) ==
            if !ok then (Missed(BusError), b1, buf)
            else RecvCfs(b1, l, buf[2..8], total, 1, Now(b1) + MSG_MS, buf)
  {
    hide RecvCfs;
  }

  /** Sender to receiver: what one node's isotp_send delivered, the other's
      isotp_recv takes in as the same message. `peer` is the receiving node's
      bus, on which the sent frames arrive among those of other nodes. */
  lemma SentIsReceived(b: Bus, l: Link, p: bytes, peer: Bus, back: Link, room: nat, timeout: nat, buf: bytes)
    requires |p| <= MAX_PAYLOAD && |p| <= room && |buf| == 8 && back.rx == l.tx
    requires Send(b, l, p).0 == Delivered && b.log <= Send(b, l, p).1.log
    requires Addressed(l.tx, OnId(peer.incoming, back.rx)) == TxOf(New(b, Send(b, l, p).1))
    ensures var (f, b1, buf1) := AwaitOpening(peer, back, Now(peer) + timeout, buf);
            var (ok, b2) := Transmit(b1, Frame(back.tx, FlowFrame(0, BLOCKSIZE, back.stmin)));
            Recv(peer, back, room, timeout, buf).0 == Got(p, |p| > 7) <==>
            Prompt(peer.incoming, back.rx, peer.us, Now(peer) + timeout) &&
            (|p| > 7 ==> ok && Steady(b2.incoming, back.rx, |p| / 7, b2.us, Now(b2) + 3000))
  {
    hide Send, OnId, TxOf, New, Recv, AwaitOpening, Segments, Prompt, Steady;
    OnlyThePrefix(b, l, p);
    SameFrames(l.tx, OnId(peer.incoming, back.rx), Segments(p));
    assert Segments(p) + [] == Segments(p);
    ReceivedExactlyInTime(peer, back, p, room, timeout, buf, []);
  }

  lemma SameFrames(id: nat, a: seq<Data>, b: seq<Data>)
    requires Addressed(id, a) == Addressed(id, b)
    ensures a == b
  {
    assert |a| == |Addressed(id, a)| == |Addressed(id, b)| == |b|;
    forall i | 0 <= i < |a| ensures a[i] == b[i] {
      assert Addressed(id, a)[i] == Addressed(id, b)[i];
    }
  }

  // ---- how long it can take ----

  /** No transmission takes longer than `ms`. */
  ghost predicate SendsWithin(b: Bus, ms: nat) {
    forall k :: b.plan(k).us <= 1000 * ms
  }

  lemma TransmitTime(b: Bus, f: Frame, ms: nat)
    requires SendsWithin(b, ms)
    ensures var b1 := Transmit(b, f).1;
            Now(b1) <= Now(b) + ms && SendsWithin(b1, ms) && b1.plan == b.plan
  {
  }

  lemma {:induction false} AwaitTime(b: Bus, l: Link, deadline: nat, hard: nat, waits: nat)
    requires Now(b) < hard + N_BS_MS && (Now(b) < hard ==> deadline < hard + N_BS_MS)
    ensures var b' := AwaitFc(b, l, deadline, hard, waits).1;
            Now(b') < hard + N_BS_MS && b'.plan == b.plan
    decreases |b.incoming|
  {
    if Now(b) < hard && Now(b) < deadline {
      var (f, b1) := Receive(b, deadline - Now(b));
      ReceiveLogs(b, deadline - Now(b));
      if f.Some? {
        if !IsFlowControl(l, f.value) {
          AwaitTime(b1, l, deadline, hard, waits);
        } else if f.value.data[0] % 16 == 1 && waits + 1 <= N_WFT_MAX {
          AwaitTime(b1, l, Now(b1) + N_BS_MS, hard, waits + 1);
        }
      }
    }
  }

  /** Waiting for flow control ends in under 4000 ms under any traffic. */
  lemma AwaitWithin4000(b: Bus, l: Link)
    ensures Now(StartAwait(b, l).1) < Now(b) + 4000
    ensures StartAwait(b, l).1.plan == b.plan
  {
    AwaitTime(b, l, Now(b) + N_BS_MS, Now(b) + MSG_MS, 0);
  }

  lemma StminAtMost127(stmin: byte)
    ensures StminUs(stmin) <= 127000
  {
  }

  lemma {:induction false} AwaitGrantStmin(b: Bus, l: Link, deadline: nat, hard: nat, waits: nat)
    ensures var g := AwaitFc(b, l, deadline, hard, waits).0;
            g.Granted? ==> g.stminUs <= 127000
    decreases |b.incoming|
  {
    if Now(b) < hard && Now(b) < deadline {
      var (f, b1) := Receive(b, deadline - Now(b));
      if f.Some? {
        if !IsFlowControl(l, f.value) {
          AwaitGrantStmin(b1, l, deadline, hard, waits);
        } else if f.value.data[0] % 16 == 1 && waits + 1 <= N_WFT_MAX {
          AwaitGrantStmin(b1, l, Now(b1) + N_BS_MS, hard, waits + 1);
        } else {
          StminAtMost127(f.value.data[2]);
        }
      }
    }
  }

  /** Every consecutive frame starts before the deadline; what follows it is one
      separation, one transmission and at most one wait. */
  lemma {:induction false} CfsTime(b: Bus, l: Link, rest: bytes, sn: nat, inBlock: nat, bs: nat, st: nat, deadline: nat, ms: nat)
    requires sn < 16 && st <= 127000 && SendsWithin(b, ms)
    ensures var b' := SendCfs(b, l, rest, sn, inBlock, bs, st, deadline).1;
            Now(b') < Later(Now(b) + 1, deadline + 127 + ms + MSG_MS + N_BS_MS) && b'.plan == b.plan
    ensures var (r, b') := SendCfs(b, l, rest, sn, inBlock, bs, st, deadline);
            rest != [] && r.Delivered? ==> Now(b') < deadline + 127 + ms
    decreases |rest|
  {
    if rest != [] && Now(b) < deadline {
      var b1 := if st > 0 then Delay(b, st) else b;
      var f := Frame(l.tx, ConsFrame(sn, Take(rest, 7)));
      TransmitTime(b1, f, ms);
      var (ok, b2) := Transmit(b1, f);
      assert Now(b1) <= Now(b) + 127;
      if ok {
        var rest', sn' := Drop(rest, 7), (sn + 1) % 16;
        if bs > 0 && inBlock + 1 == bs && rest' != [] {
          AwaitWithin4000(b2, l);
          AwaitGrantStmin(b2, l, Now(b2) + N_BS_MS, Now(b2) + MSG_MS, 0);
          var (g, b3) := StartAwait(b2, l);
          if g.Granted? {
            CfsTime(b3, l, rest', sn', 0, g.bs, g.stminUs, deadline, ms);
          }
        } else {
          CfsTime(b2, l, rest', sn', if bs > 0 then inBlock + 1 else inBlock, bs, st, deadline, ms);
        }
      }
    }
  }

  /** A send ends within a fixed time whatever the peer and the bus do, four
      seconds earlier when it delivers. */
  lemma SendTime(b: Bus, l: Link, p: bytes, ms: nat)
    requires SendsWithin(b, ms)
    ensures Now(Send(b, l, p).1) <= Now(b) + (if |p| <= 7 then ms else 2 * ms + 11127)
    ensures var (r, b') := Send(b, l, p);
            (r.Delivered? ==> Now(b') <= Now(b) + 2 * ms + 7127) && b'.plan == b.plan
  {
    hide SendCfs, AwaitFc;
    if |p| <= 7 {
      TransmitTime(b, Frame(l.tx, SingleFrame(p)), ms);
    } else if |p| <= MAX_PAYLOAD {
      TransmitTime(b, Frame(l.tx, FirstFrame(p)), ms);
      var (ok, b1) := Transmit(b, Frame(l.tx, FirstFrame(p)));
      if ok {
        AwaitWithin4000(b1, l);
        AwaitGrantStmin(b1, l, Now(b1) + N_BS_MS, Now(b1) + MSG_MS, 0);
        var (g, b2) := StartAwait(b1, l);
        if g.Granted? {
          CfsTime(b2, l, p[6..], 1, 0, g.bs, g.stminUs, Now(b2) + MSG_MS, ms);
        }
      }
    }
  }

  lemma {:induction false} OpeningTime(b: Bus, l: Link, deadline: nat, buf: bytes)
    requires |buf| == 8 && Now(b) <= deadline
    ensures var b' := AwaitOpening(b, l, deadline, buf).1;
            Now(b') <= deadline && b'.plan == b.plan
    decreases |b.incoming|
  {
    if Now(b) < deadline {
      var (f, b1) := Receive(b, deadline - Now(b));
      ReceiveLogs(b, deadline - Now(b));
      if f.Some? && !Opens(l, f.value) {
        OpeningTime(b1, l, deadline, Over(f.value.data, buf));
      }
    }
  }

  lemma {:induction false} RecvCfsTime(b: Bus, l: Link, got: bytes, total: nat, sn: nat, deadline: nat, buf: bytes)
    requires |buf| == 8 && sn < 16 && Now(b) < deadline + N_CR_MS
    ensures var b' := RecvCfs(b, l, got, total, sn, deadline, buf).1;
            Now(b') < deadline + N_CR_MS && b'.plan == b.plan
    decreases |b.incoming|
  {
    if |got| < total && Now(b) < deadline {
      var (f, b1) := Receive(b, N_CR_MS);
      ReceiveLogs(b, N_CR_MS);
      if f.Some? {
        var buf1 := Over(f.value.data, buf);
        if f.value.id != l.rx {
          RecvCfsTime(b1, l, got, total, sn, deadline, buf1);
        } else if buf1[0] / 16 == 2 && buf1[0] % 16 == sn {
          var chunk := Min(7, total - |got|);
          if chunk + 1 <= |f.value.data| {
            RecvCfsTime(b1, l, got + buf1[1..1 + chunk], total, (sn + 1) % 16, deadline, buf1);
          }
        }
      }
    }
  }

  /** A receive ends within timeout + S + 4000 ms under any traffic, within the
      timeout alone when the message was a single frame. */
  lemma RecvTime(b: Bus, l: Link, room: nat, timeout: nat, buf: bytes, ms: nat)
    requires |buf| == 8 && SendsWithin(b, ms)
    ensures var (r, b', buf') := Recv(b, l, room, timeout, buf);
            && Now(b') <= Now(b) + timeout + ms + MSG_MS + N_CR_MS
            && (r.Got? && !r.segmented ==> Now(b') <= Now(b) + timeout)
            && b'.plan == b.plan && |buf'| == 8
  {
    hide RecvCfs, AwaitOpening, FlowFrame;
    OpeningTime(b, l, Now(b) + timeout, buf);
    var (f, b1, buf1) := AwaitOpening(b, l, Now(b) + timeout, buf);
    if f.Some? && buf1[0] / 16 != 0 {
      BodyTime(b1, l, |f.value.data|, buf1, room, ms);
    }
  }

  lemma BodyTime(b: Bus, l: Link, len: nat, buf: bytes, room: nat, ms: nat)
    requires |buf| == 8 && len <= 8 && SendsWithin(b, ms) && buf[0] / 16 != 0
    ensures var (r, b', buf') := RecvBody(b, l, len, buf, room);
            && Now(b') <= Now(b) + ms + MSG_MS + N_CR_MS
            && (r.Got? ==> r.segmented)
            && b'.plan == b.plan && |buf'| == 8
  {
    hide FlowFrame;
    var total := Total(buf[0], buf[1]);
    TransmitTime(b, Frame(l.tx, FlowFrame(2, 0, 0)), ms);
    TransmitTime(b, Frame(l.tx, FlowFrame(0, BLOCKSIZE, l.stmin)), ms);
    var (ok, b1) := Transmit(b, Frame(l.tx, FlowFrame(0, BLOCKSIZE, l.stmin)));
    if total <= room && len == 8 && ok {
      RecvCfsTime(b1, l, buf[2..8], total, 1, Now(b1) + MSG_MS, buf);
      if total >= 6 {
        CfsSound(b1, l, buf[2..8], total, 1, Now(b1) + MSG_MS, buf);
      }
    }
  }
}
