/** What hooking 0x21 makes of any segmented message, against what reassembling
    and parsing it would find. */
module CollectSeen {
  import opened Bytes
  import opened Wrappers
  import IsoTp
  import opened Collect

  // ---- what the hook sees ----

  /** The frames carry whole sevens: the last one is padded with zeros. */
  function Pad(b: bytes): (r: bytes)
    ensures |r| % 7 == 0 && b <= r && |r| < |b| + 7
  {
    b + Zeros((7 - |b| % 7) % 7)
  }

  function FirstFrameOf(b: bytes): bytes {
    [0x21] + Take(b, 7)
  }

  /** From the frame 21 on: the sequence is back at 21 after sixteen frames, 112
      bytes, and a message that runs past that takes the next 21 as its own. */
  function Seen(b: bytes): seq<Message>
    decreases |b|
  {
    if b == [] then []
    else match Open(FirstFrameOf(b))
      case Nothing => Seen(Drop(b, 112))
      case Whole(m) => [m] + Seen(Drop(b, 112))
      case Begins(did, need, off) =>
        if off - 1 + need > |b| then []
        else [Message(did, b[off - 1..off - 1 + need])] + Seen(Drop(b, Stride(off - 1 + need)))
  }

  /** The next multiple of 112. */
  function Stride(n: nat): nat {
    112 * ((n + 111) / 112)
  }

  /** What the hook sees of a message: a single frame never opens anything. */
  function HookSeen(p: bytes): seq<Message> {
    if |p| <= 7 then [] else Seen(Pad(p[6..]))
  }

  // ---- the frames of a padded body ----

  lemma {:induction false} PadFrames(b: bytes, sn: nat)
    requires sn < 16
    ensures IsoTp.ConsFrames(Pad(b), sn) == IsoTp.ConsFrames(b, sn)
    decreases |b|
  {
    hide IsoTp.ConsFrame, IsoTp.ConsFrames;
    if b == [] {
      assert Pad(b) == b;
    } else {
      FirstOf(b, sn);
      FirstOf(Pad(b), sn);
      ConsFrameIs(sn, Take(b, 7));
      ConsFrameIs(sn, Take(Pad(b), 7));
      PadFrames(Drop(b, 7), (sn + 1) % 16);
      PadFront(b);
      assert Take(Pad(b), 7) + Zeros(0) == Take(Pad(b), 7);
    }
  }

  lemma PadFront(b: bytes)
    requires b != []
    ensures Drop(Pad(b), 7) == Pad(Drop(b, 7))
    ensures Take(Pad(b), 7) == Take(b, 7) + Zeros(7 - |Take(b, 7)|) && |Take(Pad(b), 7)| == 7
  {
    if |b| >= 7 {
      assert |b| % 7 == (|b| - 7) % 7;
    }
  }

  lemma FrameIs(b: bytes, sn: nat)
    requires |b| >= 7 && sn < 16
    ensures IsoTp.ConsFrame(sn, Take(b, 7)) == [32 + sn] + Take(b, 7)
  {
    ConsFrameIs(sn, Take(b, 7));
    assert Take(b, 7) + Zeros(0) == Take(b, 7);
  }

  // ---- what is delivered ----

  function Got(s: State, b: bytes, sn: nat): seq<Message>
    requires sn < 16
  {
    Delivered(Feeds(s, IsoTp.ConsFrames(b, sn)).outs)
  }

  lemma GotStep(s: State, b: bytes, sn: nat)
    requires b != [] && sn < 16
    ensures var st := Feed(s, IsoTp.ConsFrame(sn, Take(b, 7)));
      Got(s, b, sn) == (if st.out.Some? then [st.out.value] else []) + Got(st.next, Drop(b, 7), (sn + 1) % 16)
  {
    hide Feed, Feeds, Delivered, IsoTp.ConsFrame, IsoTp.ConsFrames;
    var fs := IsoTp.ConsFrames(b, sn);
    FirstOf(b, sn);
    FeedsStep(s, fs);
    assert fs[1..] == IsoTp.ConsFrames(Drop(b, 7), (sn + 1) % 16);
    var st := Feed(s, fs[0]);
    DeliveredFront([st.out] + Feeds(st.next, fs[1..]).outs);
  }

  lemma GotNothing(s: State, sn: nat)
    requires sn < 16
    ensures Got(s, [], sn) == []
  {
  }

  /** Nothing is opened until the sequence is at 21 again. */
  lemma {:induction false} SkipToNext(b: bytes, u: nat)
    requires 2 <= u <= 17
    ensures Got(Idle, b, u % 16) == Got(Idle, Drop(b, 7 * (17 - u)), 1)
    decreases |b|
  {
    hide Got, Feed, IsoTp.ConsFrame;
    if u == 17 {
      assert Drop(b, 0) == b;
    } else if b == [] {
      GotNothing(Idle, u % 16);
      GotNothing(Idle, 1);
    } else {
      NextTurn(u);
      GotStep(Idle, b, u % 16);
      NotAnOpening(u % 16, Take(b, 7));
      SkipToNext(Drop(b, 7), u + 1);
      DroppedTwice(b, 16 - u);
    }
  }

  lemma NextTurn(u: nat)
    requires 2 <= u <= 16
    ensures u % 16 != 1 && (u % 16 + 1) % 16 == (u + 1) % 16
  {
  }

  /** A message that the body cannot complete. */
  lemma {:induction false} NeverComplete(did: nat, need: nat, got: bytes, b: bytes, sn: nat)
    requires |got| + |b| < need <= MAX_LEN && sn < 16 && |b| % 7 == 0
    ensures Got(Busy(0x20 + sn, did, need, got), b, sn) == []
    decreases |b|
  {
    hide Got, IsoTp.ConsFrame;
    var s := Busy(0x20 + sn, did, need, got);
    if b == [] {
      GotNothing(s, sn);
    } else {
      GotStep(s, b, sn);
      FrameIs(b, sn);
      NeverComplete(did, need, got + Take(b, 7), Drop(b, 7), (sn + 1) % 16);
    }
  }

  /** A message that it completes, from the frame after the opening one. */
  lemma Completes(m: Message, k: nat, b: bytes)
    requires k < |m.data| <= MAX_LEN && m.data[k..] <= b
    ensures var n := IsoTp.CfCount(|m.data| - k);
      Got(HavingGot(m, k, 2), b, 2) == [m] + Got(Idle, Drop(b, 7 * n), (2 + n) % 16)
  {
    hide Feeds, Delivered, IsoTp.ConsFrames, DeliveredThen;
    var n := IsoTp.CfCount(|m.data| - k);
    RestDelivered(m, k, b, 2);
    var after := Feeds(Idle, IsoTp.ConsFrames(Drop(b, 7 * n), (2 + n) % 16));
    DeliveredLater(n, m, after);
  }

  lemma DeliveredLater(n: nat, m: Message, after: Run)
    requires n > 0
    ensures Delivered(DeliveredThen(n, m, after).outs) == [m] + Delivered(after.outs)
  {
    hide Delivered;
    DeliveredNone(n - 1);
    DeliveredAppend(seq(n - 1, i => None), [Some(m)]);
    DeliveredAppend(seq(n - 1, i => None) + [Some(m)], after.outs);
    DeliveredFront([Some(m)]);
    NothingDelivered();
    assert [Some(m)][1..] == [];
  }

  /** Where in the sequence the hook is after `n` frames, and how far it is to 21. */
  lemma Rejoined(n: nat) returns (u: nat)
    requires n > 0
    ensures 2 <= u <= 17 && u % 16 == (1 + n) % 16 && 7 * n + 7 * (17 - u) == Stride(7 * n)
  {
    var q := (7 * n + 111) / 112;
    assert 112 * (q - 1) < 7 * n <= 112 * q;
    assert 16 * (q - 1) < n <= 16 * q;
    u := 17 - (16 * q - n);
    SameTurn(1 + n, u, q - 1);
  }

  lemma SameTurn(a: nat, b: nat, k: nat)
    requires a == b + 16 * k
    ensures a % 16 == b % 16
  {
    DivModUnique(a, 16, b / 16 + k, b % 16);
  }

  lemma SameStride(len: nat)
    requires len > 0
    ensures Stride(7 * IsoTp.CfCount(len)) == Stride(len)
  {
    var q, n := IsoTp.CfCount(len), (len + 111) / 112;
    assert len <= 7 * q < len + 7 && 112 * (n - 1) < len <= 112 * n;
    assert q <= 16 * n;
    DivModUnique(7 * q + 111, 112, n, 7 * q + 111 - 112 * n);
  }

  /** After `n` frames of a message the hook is next open a whole number of
      sixteens further on. */
  lemma NextOpening(b: bytes, n: nat)
    requires n > 0
    ensures Got(Idle, Drop(b, 7 * n), (1 + n) % 16) == Got(Idle, Drop(b, Stride(7 * n)), 1)
  {
    hide Got;
    var u := Rejoined(n);
    SkipToNext(Drop(b, 7 * n), u);
    assert Drop(Drop(b, 7 * n), 7 * (17 - u)) == Drop(b, Stride(7 * n));
  }

  lemma SeenStep(b: bytes)
    requires b != []
    ensures var o := Open(FirstFrameOf(b));
      && (o.Nothing? ==> Seen(b) == Seen(Drop(b, 112)))
      && (o.Whole? ==> Seen(b) == [o.m] + Seen(Drop(b, 112)))
      && (o.Begins? && o.off - 1 + o.need > |b| ==> Seen(b) == [])
      && (o.Begins? ==> o.off > 0)
      && (o.Begins? && o.off - 1 + o.need <= |b| ==>
            Seen(b) == [Message(o.did, b[o.off - 1..o.off - 1 + o.need])] + Seen(Drop(b, Stride(o.off - 1 + o.need))))
  {
    hide Open;
    OffPositive(FirstFrameOf(b));
  }

  lemma OffPositive(d: bytes)
    ensures Open(d).Begins? ==> 4 <= Open(d).off <= 6 && 0 < Open(d).need <= MAX_LEN
  {
  }

  /** The frames of a padded body deliver what the hook sees of it. */
  lemma {:induction false} BodySeen(b: bytes)
    requires |b| % 7 == 0
    ensures Got(Idle, b, 1) == Seen(b)
    decreases |b|
  {
    hide Got, Feed, Open, IsoTp.ConsFrame, Seen;
    if b == [] {
      GotNothing(Idle, 1);
      NothingSeen();
    } else {
      FrameIs(b, 1);
      OpeningFed(b);
      GotStep(Idle, b, 1);
      SeenStep(b);
      OffPositive(FirstFrameOf(b));
      var o := Open(FirstFrameOf(b));
      if !o.Begins? {
        NextOpening(b, 1);
        BodySeen(Drop(b, 112));
      } else if o.off - 1 + o.need > |b| {
        NeverComplete(o.did, o.need, b[o.off - 1..7], Drop(b, 7), 2);
      } else {
        MessageSeen(b, o.did, o.need, o.off);
        BodySeen(Drop(b, Stride(o.off - 1 + o.need)));
      }
    }
  }

  lemma NothingSeen()
    ensures Seen([]) == []
  {
  }

  /** What the opening frame does. */
  lemma OpeningFed(b: bytes)
    requires |b| >= 7
    ensures var st := Feed(Idle, FirstFrameOf(b));
      match Open(FirstFrameOf(b))
      case Nothing => st == Step(Idle, None, 0)
      case Whole(m) => st == Step(Idle, Some(m), 0)
      case Begins(did, need, off) =>
        if off - 1 + need <= 7 then st == Step(Idle, Some(Message(did, b[off - 1..off - 1 + need])), 0)
        else st == Step(Busy(0x22, did, need, b[off - 1..7]), None, 0)
  {
    hide Open;
    var f := FirstFrameOf(b);
    OffPositive(f);
    if Open(f).Begins? {
      var off, need := Open(f).off, Open(f).need;
      PastOpening(b, off);
      GatherFirst(0x22, Open(f).did, need, b[off - 1..7]);
      if off - 1 + need <= 7 {
        assert b[off - 1..7][..need] == b[off - 1..off - 1 + need];
      }
    }
  }

  lemma GatherFirst(due: byte, did: nat, need: nat, got: bytes)
    ensures Gather(due, did, need, Take(got, need))
      == if |got| >= need then Step(Idle, Some(Message(did, got[..need])), 0) else Step(Busy(due, did, need, got), None, 0)
  {
    if |got| >= need {
      assert got[..need][..need] == got[..need];
    }
  }

  lemma PastOpening(b: bytes, off: nat)
    requires |b| >= 7 && 4 <= off <= 6
    ensures Drop(FirstFrameOf(b), off) == b[off - 1..7]
  {
  }

  lemma MessageSeen(b: bytes, did: nat, need: nat, off: nat)
    requires |b| >= 7 && |b| % 7 == 0 && 4 <= off <= 6 && 0 < need <= MAX_LEN && off - 1 + need <= |b|
    requires Open(FirstFrameOf(b)) == Begins(did, need, off)
    ensures Got(Idle, b, 1) == [Message(did, b[off - 1..off - 1 + need])] + Got(Idle, Drop(b, Stride(off - 1 + need)), 1)
  {
    hide Got, Feed, Open, IsoTp.ConsFrame, Stride, FirstFrameOf;
    var m := Message(did, b[off - 1..off - 1 + need]);
    FirstIs(b);
    OpeningFed(b);
    GotStep(Idle, b, 1);
    SameStride(off - 1 + need);
    var n := IsoTp.CfCount(off - 1 + need);
    if off - 1 + need > 7 {
      LaterDelivered(b, m, off, n);
    }
    NextOpening(b, n);
  }

  lemma FirstIs(b: bytes)
    requires |b| >= 7
    ensures IsoTp.ConsFrame(1, Take(b, 7)) == FirstFrameOf(b)
  {
    FrameIs(b, 1);
  }

  lemma LaterDelivered(b: bytes, m: Message, off: nat, n: nat)
    requires 4 <= off <= 6 && |m.data| <= MAX_LEN && 7 < off - 1 + |m.data| <= |b|
    requires m.data == b[off - 1..off - 1 + |m.data|] && n == IsoTp.CfCount(off - 1 + |m.data|)
    ensures Got(Busy(0x22, m.did, |m.data|, b[off - 1..7]), Drop(b, 7), 2) == [m] + Got(Idle, Drop(b, 7 * n), (1 + n) % 16)
  {
    hide Got;
    var k := 8 - off;
    InTwo(b, m.data, off - 1);
    Completes(m, k, Drop(b, 7));
    assert IsoTp.CfCount(|m.data| - k) == n - 1;
    DroppedTwice(b, n - 1);
  }

  lemma InTwo(b: bytes, data: bytes, from: nat)
    requires from <= 7 && from + |data| <= |b| && data == b[from..from + |data|] && from + |data| > 7
    ensures data[..7 - from] == b[from..7] && data[7 - from..] <= Drop(b, 7)
  {
    assert Drop(b, 7)[..from + |data| - 7] == data[7 - from..];
  }

  /** Whatever the state, and whatever the message: delivered is what the hook sees. */
  lemma HookSees(s: State, p: bytes)
    requires Valid(s) && |p| <= IsoTp.MAX_PAYLOAD
    ensures Delivered(Feeds(s, IsoTp.Segments(p)).outs) == HookSeen(p)
  {
    hide Feed, Feeds, Delivered, IsoTp.ConsFrames, IsoTp.FirstFrame, IsoTp.SingleFrame, Seen, Pad;
    var fs := IsoTp.Segments(p);
    FeedsStep(s, fs);
    NothingDelivered();
    if |p| <= 7 {
      SingleOpensNothing(s, p);
      assert fs[1..] == [];
      AtRest(Idle);
      DeliveredFront(Feeds(s, fs).outs);
    } else {
      FirstFrameOpensNothing(s, p);
      assert fs[1..] == IsoTp.ConsFrames(p[6..], 1);
      PadFrames(p[6..], 1);
      BodySeen(Pad(p[6..]));
      DeliveredFront(Feeds(s, fs).outs);
    }
  }

  lemma AtRest(s: State)
    ensures Feeds(s, []) == Run(s, [], 0)
  {
  }

  lemma SingleOpensNothing(s: State, p: bytes)
    requires Valid(s) && |p| <= 7
    ensures Feed(s, IsoTp.SingleFrame(p)) == Step(Idle, None, Active(s))
  {
  }

  // ---- against full reassembly and parsing ----

  lemma FirstPadded(b: bytes)
    requires b != []
    ensures FirstFrameOf(Pad(b)) == IsoTp.ConsFrame(1, Take(b, 7))
  {
    hide IsoTp.ConsFrame;
    PadFront(b);
    ConsFrameIs(1, Take(b, 7));
  }

  lemma OpenBlock(form: Form, m: Message, tail: bytes)
    requires Announced(form, m)
    ensures Open(IsoTp.ConsFrame(1, Take(Followed(form, m, tail), 7)))
      == if form == Nibble && |m.data| <= 4 then Whole(m) else Begins(m.did, |m.data|, 8 - Room(form))
  {
    hide IsoTp.ConsFrame, Followed;
    FirstChunk(form, m, tail);
    var f := IsoTp.ConsFrame(1, Take(Followed(form, m, tail), 7));
    var n := |m.data|;
    assert f[3..8 - Room(form)][0] == f[3];
    if form == Marked {
      assert f[3..6][1] == f[4] && f[3..6][2] == f[5];
    } else if form == Counted {
      assert f[3..5][1] == f[4];
    } else if n <= 4 {
      assert f[4..4 + n] == Take(f[4..], n) == m.data;
    }
  }

  /** A block is seen, and then whatever lies at the next multiple of 112. */
  lemma BlockSeen(form: Form, m: Message, tail: bytes)
    requires Announced(form, m)
    ensures var b := Pad(Followed(form, m, tail));
      Seen(b) == [m] + Seen(Drop(b, Stride(|Block(form, m)|)))
  {
    hide Seen, Open, IsoTp.ConsFrame, Code, Pad;
    var b := Pad(Followed(form, m, tail));
    BlockLength(form, m);
    FirstPadded(Followed(form, m, tail));
    OpenBlock(form, m, tail);
    SeenStep(b);
    InFront(Head(form, m), m.data, tail, b);
  }

  lemma InFront(h: bytes, d: bytes, tail: bytes, b: bytes)
    requires h + d + tail <= b
    ensures |h| + |d| <= |b| && b[|h|..|h| + |d|] == d
  {
    assert b[..|h| + |d| + |tail|] == h + d + tail;
  }

  /** Where the first block of a body ends. */
  function FirstEnd(b: bytes): int
    requires |b| >= 3 && HeadLen(b) > 0
  {
    HeadLen(b) + DataLen(b)
  }

  lemma FirstParsed(b: bytes)
    requires ParseBlocks(b) != []
    ensures |b| >= 3 && HeadLen(b) > 0 && 3 <= FirstEnd(b) <= |b|
  {
  }

  /** A first block the hook does not take: its frame opens nothing. */
  lemma OutOfRangeOpensNothing(b: bytes)
    requires ParseBlocks(b) != [] && !InRange(ParseBlocks(b)[0])
    ensures Open(FirstFrameOf(Pad(b))) == Nothing
  {
    var f := FirstFrameOf(Pad(b));
    assert f[1] == b[0] && f[2] == b[1] && f[3] == b[2];
    var head, n := HeadLen(b), DataLen(b);
    assert |ParseBlocks(b)[0].data| == n;
    if head > 3 {
      assert f[4] == b[3];
      assert head > 4 ==> f[5] == b[4];
    }
  }

  /** Of the blocks in a message of any length the first is seen exactly when it is
      in range; then the hook goes on at a multiple of 112. */
  lemma FirstBlockSeen(p: bytes)
    requires BlocksOf(p) != []
    ensures |p| > 7 && |p[6..]| >= 3 && HeadLen(p[6..]) > 0
    ensures var first, b := BlocksOf(p)[0], Pad(p[6..]);
      HookSeen(p) == if InRange(first) then [first] + Seen(Drop(b, Stride(FirstEnd(p[6..])))) else Seen(Drop(b, 112))
  {
    hide Seen, ParseBlocks, HeadLen, DataLen, InRange, Open, Code, Pad, Stride;
    var b := p[6..];
    FirstParsed(b);
    if InRange(BlocksOf(p)[0]) {
      InRangeSeen(b);
    } else {
      OutOfRangeOpensNothing(b);
      SeenStep(Pad(b));
    }
  }

  lemma InRangeSeen(b: bytes)
    requires ParseBlocks(b) != [] && InRange(ParseBlocks(b)[0])
    ensures |b| >= 3 && HeadLen(b) > 0
    ensures Seen(Pad(b)) == [ParseBlocks(b)[0]] + Seen(Drop(Pad(b), Stride(FirstEnd(b))))
  {
    hide Seen, ParseBlocks, HeadLen, DataLen, InRange, Code, Pad, Stride, Drop;
    FirstParsed(b);
    var form := ParsedIsBlock(b);
    var m := ParseBlocks(b)[0];
    BlockSeen(form, m, b[|Block(form, m)|..]);
    HeadInFront(form, m, b[|Block(form, m)|..]);
    HeadSpelled(form, m, b);
    BlockLength(form, m);
  }

  lemma HeadInFront(form: Form, m: Message, tail: bytes)
    requires Announced(form, m)
    ensures Head(form, m) <= Followed(form, m, tail) && |Head(form, m)| == 7 - Room(form)
  {
    hide Code;
    assert Followed(form, m, tail) == Head(form, m) + (m.data + tail);
  }

  /** The opening frame opens something, and the body is long enough for it. */
  predicate OpensWhole(b: bytes) {
    var o := Open(FirstFrameOf(b));
    o.Whole? || (o.Begins? && o.off - 1 + o.need <= |b|)
  }

  /** Up to 118 bytes the sequence does not come back to 21. The hook agrees with
      full reassembly exactly when there is one block, and that in range, or when
      there is none and the opening frame does not look like one that the padded
      frames complete. */
  lemma FirstBlockOnly(s: State, p: bytes)
    requires Valid(s) && |p| <= 118
    ensures var d := Delivered(Feeds(s, IsoTp.Segments(p)).outs); var bs := BlocksOf(p);
      && (bs != [] ==> d == if InRange(bs[0]) then [bs[0]] else [])
      && (d == bs <==> if bs == [] then |p| <= 7 || !OpensWhole(Pad(p[6..])) else |bs| == 1 && InRange(bs[0]))
  {
    hide Seen, BlocksOf, Feeds, Open, IsoTp.Segments, InRange;
    HookSees(s, p);
    NothingSeen();
    if BlocksOf(p) != [] {
      FirstBlockSeen(p);
      FirstParsedOf(p);
      assert Drop(Pad(p[6..]), 112) == [] && Drop(Pad(p[6..]), Stride(FirstEnd(p[6..]))) == [];
    } else if |p| > 7 {
      OneStride(Pad(p[6..]));
    }
  }

  lemma FirstParsedOf(p: bytes)
    requires BlocksOf(p) != []
    ensures |p| > 7 && |p[6..]| >= 3 && HeadLen(p[6..]) > 0 && 3 <= FirstEnd(p[6..])
  {
    FirstParsed(p[6..]);
  }

  lemma OneStride(b: bytes)
    requires 0 < |b| <= 112
    ensures Seen(b) != [] <==> OpensWhole(b)
  {
    hide Seen, Open;
    SeenStep(b);
    NothingSeen();
    assert Drop(b, 112) == [];
  }

  /** A block cut off by the message's own length: reassembly finds none, the hook
      takes the padding of the last frame for its data. */
  lemma CutOffBlock(s: State)
    requires Valid(s)
    ensures var p: bytes := [0x77, 0, 0, 0x43, 0x01, 0x82, 5, 0, 0xB3, 9];
      && BlocksOf(p) == []
      && Delivered(Feeds(s, IsoTp.Segments(p)).outs) == [Message(5, [9, 0, 0])]
  {
    hide Feeds, IsoTp.Segments, Delivered;
    var p: bytes := [0x77, 0, 0, 0x43, 0x01, 0x82, 5, 0, 0xB3, 9];
    HookSees(s, p);
    assert p[6..] == [5, 0, 0xB3, 9];
    var b := Pad(p[6..]);
    assert b == [5, 0, 0xB3, 9, 0, 0, 0];
    var f := FirstFrameOf(b);
    assert f == [0x21, 5, 0, 0xB3, 9, 0, 0, 0];
    assert f[4..7] == [9, 0, 0];
    assert Open(f) == Whole(Message(5, [9, 0, 0]));
    assert Drop(b, 112) == [];
  }

  /** Past sixteen consecutive frames the hook sees more than one: a block that
      ends with the sixteenth lets it see the next one as well. */
  lemma SeventeenthFrameHooked(s: State, h: bytes, form: Form, m: Message, form': Form, m': Message)
    requires Valid(s) && Header(h) && Announced(form, m) && Announced(form', m') && |Block(form, m)| == 112
    ensures Delivered(Feeds(s, IsoTp.Segments(h + Followed(form, m, Block(form', m')))).outs) == [m, m']
  {
    hide Feeds, IsoTp.Segments, Seen, Block, Delivered, Pad, Followed;
    var b := Followed(form, m, Block(form', m'));
    TwoLong(form, m, form', m');
    HookSees(s, h + b);
    assert (h + b)[6..] == b;
    TwoSeen(form, m, form', m');
  }

  lemma TwoLong(form: Form, m: Message, form': Form, m': Message)
    requires Announced(form, m) && Announced(form', m') && |Block(form, m)| == 112
    ensures 112 < |Followed(form, m, Block(form', m'))| <= 112 + 205
  {
    BlockLength(form', m');
  }

  lemma TwoSeen(form: Form, m: Message, form': Form, m': Message)
    requires Announced(form, m) && Announced(form', m') && |Block(form, m)| == 112
    ensures Seen(Pad(Followed(form, m, Block(form', m')))) == [m, m']
  {
    hide Seen, Block, Pad;
    var tail := Block(form', m');
    BlockSeen(form, m, tail);
    PadBehind(Block(form, m), tail);
    assert Followed(form', m', []) == tail;
    BlockSeen(form', m', []);
    PastLast(tail);
    NothingSeen();
  }

  lemma PadBehind(a: bytes, b: bytes)
    requires |a| == 112
    ensures Drop(Pad(a + b), 112) == Pad(b)
  {
    SameTurn7(|b|);
  }

  lemma SameTurn7(n: nat)
    ensures (112 + n) % 7 == n % 7
  {
  }

  lemma PastLast(b: bytes)
    ensures Drop(Pad(b), Stride(|b|)) == []
  {
    var n := (|b| + 111) / 112;
    assert |b| <= 112 * n;
    assert |Pad(b)| <= 112 * n by {
      assert |Pad(b)| / 7 <= 16 * n;
    }
  }
}
