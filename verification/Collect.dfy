/** The "collect" reassembler (main/collect_parse.c): it hooks the frame 0x21
    instead of reassembling the message, and for a message of one block that is
    the same thing. */
module Collect {
  import opened Bytes
  import opened Wrappers
  import IsoTp

  const MAX_LEN := 200

  datatype Message = Message(did: nat, data: bytes)

  datatype State = Idle | Busy(due: byte, did: nat, need: nat, got: bytes)

  /** What a frame says when no message is in progress. */
  datatype Opening = Nothing | Whole(m: Message) | Begins(did: nat, need: nat, off: nat)

  datatype Step = Step(next: State, out: Option<Message>, lost: nat)

  function Open(d: bytes): Opening {
    if |d| <= 4 || d[0] != 0x21 || d[3] < 0xB0 || d[3] >= 0xC0 then Nothing
    else
      var did := Word(d[1], d[2]);
      if did == 0 || did >= 10000 then Nothing
      else if 0xB1 <= d[3] <= 0xB4 then
        var len := d[3] - 0xB0;
        if 4 + len > |d| then Nothing else Whole(Message(did, d[4..4 + len]))
      else if d[3] == 0xB0 then
        if d[4] == 0xC1 && |d| < 6 then Nothing
        else
          var len: nat := if d[4] == 0xC1 then d[5] else d[4];
          if len == 0 || len > MAX_LEN then Nothing
          else Begins(did, len, if d[4] == 0xC1 then 6 else 5)
      else Begins(did, d[3] - 0xB0, 4)
  }

  /** A message of which `got` is there: done, or in progress. */
  function Gather(due: byte, did: nat, need: nat, got: bytes): Step {
    if |got| >= need then Step(Idle, Some(Message(did, got[..need])), 0)
    else Step(Busy(due, did, need, got), None, 0)
  }

  function Following(first: int): byte {
    (first + 1) % 256
  }

  function Hook(d: bytes): Step
    requires d != []
  {
    match Open(d)
    case Nothing => Step(Idle, None, 0)
    case Whole(m) => Step(Idle, Some(m), 0)
    case Begins(did, need, off) => Gather(Following(d[0]), did, need, Take(Drop(d, off), need))
  }

  /** Continuations count 0x22, 0x23, ... wrapping 0x2F to 0x20. */
  function After(due: byte): byte {
    if due >= 0x2F then 0x20 else due + 1
  }

  function Feed(s: State, d: bytes): Step {
    if d == [] then Step(s, None, 0)
    else if s.Idle? then Hook(d)
    else if d[0] == s.due then
      Gather(After(s.due), s.did, s.need, Take(s.got + d[1..], MAX_LEN))
    else Hook(d).(lost := 1)
  }

  /** What active always implies. */
  predicate Valid(s: State) {
    s.Busy? ==> 0x20 <= s.due <= 0x2F && 0 < s.did < 10000 && |s.got| < s.need <= 200
  }

  lemma FeedKeepsValid(s: State, d: bytes)
    requires Valid(s)
    ensures Valid(Feed(s, d).next)
    ensures var o := Feed(s, d).out; o.Some? ==> 0 < o.value.did < 10000 && 0 < |o.value.data| <= 200
  {
  }

  // ---- whole runs ----

  datatype Run = Run(last: State, outs: seq<Option<Message>>, lost: nat)

  function Feeds(s: State, fs: seq<bytes>): (r: Run)
    ensures |r.outs| == |fs|
    decreases |fs|
  {
    if fs == [] then Run(s, [], 0)
    else
      var st := Feed(s, fs[0]);
      var r := Feeds(st.next, fs[1..]);
      Run(r.last, [st.out] + r.outs, st.lost + r.lost)
  }

  lemma {:induction false} FeedsKeepValid(s: State, fs: seq<bytes>)
    requires Valid(s)
    ensures Valid(Feeds(s, fs).last)
    decreases |fs|
  {
    if fs != [] {
      FeedKeepsValid(s, fs[0]);
      FeedsKeepValid(Feed(s, fs[0]).next, fs[1..]);
    }
  }

  lemma {:induction false} FeedsSplit(s: State, xs: seq<bytes>, ys: seq<bytes>)
    ensures var a := Feeds(s, xs); var b := Feeds(a.last, ys);
      Feeds(s, xs + ys) == Run(b.last, a.outs + b.outs, a.lost + b.lost)
    decreases |xs|
  {
    if xs == [] {
      assert xs + ys == ys;
    } else {
      assert (xs + ys)[1..] == xs[1..] + ys;
      FeedsSplit(Feed(s, xs[0]).next, xs[1..], ys);
    }
  }

  function Delivered(outs: seq<Option<Message>>): seq<Message> {
    if outs == [] then []
    else (if outs[0].Some? then [outs[0].value] else []) + Delivered(outs[1..])
  }

  // ---- conservation ----

  predicate TakenAsOpening(s: State, d: bytes) {
    d != [] && (s.Busy? ==> d[0] != s.due)
  }

  /** Messages begun, and messages that arrived whole in one frame. */
  function Begun(s: State, fs: seq<bytes>): nat
    decreases |fs|
  {
    if fs == [] then 0
    else (if TakenAsOpening(s, fs[0]) && Open(fs[0]).Begins? then 1 else 0) + Begun(Feed(s, fs[0]).next, fs[1..])
  }

  function Wholes(s: State, fs: seq<bytes>): nat
    decreases |fs|
  {
    if fs == [] then 0
    else (if TakenAsOpening(s, fs[0]) && Open(fs[0]).Whole? then 1 else 0) + Wholes(Feed(s, fs[0]).next, fs[1..])
  }

  function Active(s: State): nat {
    if s.Busy? then 1 else 0
  }

  /** Every message begun is delivered, counted as abandoned or still active. */
  lemma {:induction false} NoMessageUnaccounted(s: State, fs: seq<bytes>)
    ensures var r := Feeds(s, fs);
      Active(s) + Begun(s, fs) + Wholes(s, fs) == |Delivered(r.outs)| + r.lost + Active(r.last)
    decreases |fs|
  {
    if fs != [] {
      var st := Feed(s, fs[0]);
      NoMessageUnaccounted(st.next, fs[1..]);
      assert ([st.out] + Feeds(st.next, fs[1..]).outs)[1..] == Feeds(st.next, fs[1..]).outs;
    }
  }

  // ---- nothing but one uninterrupted run is ever delivered ----

  /** `fs` continue a message in sequence, without a gap or an interruption. */
  predicate InSequence(due: byte, fs: seq<bytes>)
    decreases |fs|
  {
    fs == [] || (fs[0] != [] && fs[0][0] == due && InSequence(After(due), fs[1..]))
  }

  function Payload(fs: seq<bytes>): bytes {
    if fs == [] then [] else Drop(fs[0], 1) + Payload(fs[1..])
  }

  /** Empty frames are ignored wherever they come. */
  function Frames(fs: seq<bytes>): seq<bytes> {
    if fs == [] then [] else (if fs[0] == [] then [] else [fs[0]]) + Frames(fs[1..])
  }

  predicate Spelled(m: Message, opening: bytes, rest: seq<bytes>) {
    var o := Open(opening);
    || (o.Whole? && rest == [] && m == o.m)
    || (o.Begins? && InSequence(0x22, rest) && m.did == o.did
        && |m.data| == o.need && m.data <= Drop(opening, o.off) + Payload(rest))
  }

  lemma {:induction false} InSequenceMore(due: byte, fs: seq<bytes>, d: bytes)
    requires InSequence(due, fs) && 0x20 <= due <= 0x2F
    ensures d != [] && d[0] == 0x20 + (due - 0x20 + |fs|) % 16 ==> InSequence(due, fs + [d])
    ensures Payload(fs + [d]) == Payload(fs) + Drop(d, 1)
    decreases |fs|
  {
    if fs == [] {
      assert fs + [d] == [d];
      assert [d][1..] == [];
    } else {
      assert (fs + [d])[1..] == fs[1..] + [d];
      InSequenceMore(After(due), fs[1..], d);
      CountsOn(due, |fs|);
    }
  }

  lemma CountsOn(due: byte, n: nat)
    requires 0x20 <= due <= 0x2F && n > 0
    ensures 0x20 <= After(due) <= 0x2F && (After(due) - 0x20 + (n - 1)) % 16 == (due - 0x20 + n) % 16
  {
  }

  /** How a state in progress came about. */
  predicate Explained(s: State, opening: bytes, rest: seq<bytes>) {
    s.Busy? ==>
      var o := Open(opening);
      && o.Begins? && InSequence(0x22, rest)
      && s.due == 0x20 + (2 + |rest|) % 16
      && s.did == o.did && s.need == o.need
      && (s.got == Drop(opening, o.off) + Payload(rest))
  }

  lemma HookExplained(d: bytes)
    requires d != []
    ensures Explained(Hook(d).next, d, [])
    ensures Hook(d).out.Some? ==> Spelled(Hook(d).out.value, d, [])
  {
  }

  lemma GatherExplained(s: State, all: bytes)
    requires Valid(s) && s.Busy?
    ensures var st := Gather(After(s.due), s.did, s.need, Take(all, MAX_LEN));
      if |all| < s.need then st == Step(Busy(After(s.due), s.did, s.need, all), None, 0)
      else st.next == Idle && st.out == Some(Message(s.did, all[..s.need]))
  {
    if |all| >= s.need {
      assert Take(all, MAX_LEN)[..s.need] == all[..s.need];
    }
  }

  lemma SpelledOut(opening: bytes, rest: seq<bytes>)
    requires Open(opening).Begins? && InSequence(0x22, rest)
    ensures forall m: Message ::
      m.did == Open(opening).did && |m.data| == Open(opening).need && m.data <= Drop(opening, Open(opening).off) + Payload(rest)
      ==> Spelled(m, opening, rest)
  {
  }

  lemma StepExplained(s: State, opening: bytes, rest: seq<bytes>, d: bytes)
    requires Valid(s) && s.Busy? && Explained(s, opening, rest) && d != [] && d[0] == s.due
    ensures Explained(Feed(s, d).next, opening, rest + [d])
    ensures Feed(s, d).out.Some? ==> Spelled(Feed(s, d).out.value, opening, rest + [d])
  {
    hide Open, InSequence, Payload, Spelled;
    InSequenceMore(0x22, rest, d);
    SpelledOut(opening, rest + [d]);
    assert s.got + d[1..] == Drop(opening, Open(opening).off) + Payload(rest + [d]);
    var all := s.got + d[1..];
    GatherExplained(s, all);
    var st := Feed(s, d);
    assert st == Gather(After(s.due), s.did, s.need, Take(all, MAX_LEN));
  }

  /** The run up to here, and the opening that explains its state. */
  lemma {:induction false} RunExplained(fs: seq<bytes>) returns (k: nat)
    ensures Valid(Feeds(Idle, fs).last)
    ensures Feeds(Idle, fs).last.Busy? ==> k < |Frames(fs)| && Explained(Feeds(Idle, fs).last, Frames(fs)[k], Frames(fs)[k + 1..])
    decreases |fs|
  {
    k := 0;
    FeedsKeepValid(Idle, fs);
    if fs != [] {
      var xs, d := fs[..|fs| - 1], fs[|fs| - 1];
      assert fs == xs + [d];
      k := RunExplained(xs);
      k := NextExplained(xs, d, k);
    }
  }

  lemma LastStep(fs: seq<bytes>, d: bytes)
    ensures var s := Feeds(Idle, fs).last; var r := Feeds(Idle, fs + [d]);
      r.last == Feed(s, d).next && r.outs[|fs|] == Feed(s, d).out
  {
    FeedsSplit(Idle, fs, [d]);
    assert [d][1..] == [];
  }

  lemma {:induction false} FramesAppend(fs: seq<bytes>, d: bytes)
    ensures Frames(fs + [d]) == Frames(fs) + (if d == [] then [] else [d])
  {
    if fs == [] {
      assert fs + [d] == [d] && [d][1..] == [];
    } else {
      assert (fs + [d])[1..] == fs[1..] + [d];
      FramesAppend(fs[1..], d);
    }
  }

  lemma NextExplained(fs: seq<bytes>, d: bytes, k: nat) returns (k': nat)
    requires Valid(Feeds(Idle, fs).last)
    requires Feeds(Idle, fs).last.Busy? ==> k < |Frames(fs)| && Explained(Feeds(Idle, fs).last, Frames(fs)[k], Frames(fs)[k + 1..])
    ensures var r := Feeds(Idle, fs + [d]); var F := Frames(fs + [d]);
      && (r.last.Busy? ==> k' < |F| && Explained(r.last, F[k'], F[k' + 1..]))
      && (r.outs[|fs|].Some? ==> k' < |F| && Spelled(r.outs[|fs|].value, F[k'], F[k' + 1..]))
  {
    hide Feeds, Explained, Spelled, Feed, Hook, Frames, Valid;
    var s, F := Feeds(Idle, fs).last, Frames(fs);
    LastStep(fs, d);
    FramesAppend(fs, d);
    k' := k;
    if d == [] {
      EmptyIgnored(s);
      assert F + [] == F;
    } else if s.Busy? && d[0] == s.due {
      StepExplained(s, F[k], F[k + 1..], d);
      assert (F + [d])[k + 1..] == F[k + 1..] + [d];
    } else {
      HookedAfresh(s, d);
      HookExplained(d);
      k' := |F|;
      assert (F + [d])[|F| + 1..] == [];
    }
  }

  lemma EmptyIgnored(s: State)
    ensures Feed(s, []) == Step(s, None, 0)
  {
  }

  lemma HookedAfresh(s: State, d: bytes)
    requires TakenAsOpening(s, d)
    ensures Feed(s, d).next == Hook(d).next && Feed(s, d).out == Hook(d).out
  {
  }

  /** Whatever frames arrive, a message delivered on a frame was opened by a 21
      frame and continued in sequence, frame after frame, up to that frame. */
  lemma OnlyOneUninterruptedRun(fs: seq<bytes>, d: bytes) returns (k: nat)
    ensures var out := Feeds(Idle, fs + [d]).outs[|fs|]; var F := Frames(fs + [d]);
      out.Some? ==> k < |F| && Spelled(out.value, F[k], F[k + 1..])
  {
    k := RunExplained(fs);
    k := NextExplained(fs, d, k);
  }

  // ---- the message behind the frames ----

  datatype Form = Nibble | Counted | Marked

  predicate FormFits(form: Form, len: nat) {
    match form
    case Nibble => 1 <= len <= 15
    case Counted => 1 <= len <= 200 && len != 0xC1
    case Marked => 1 <= len <= 200
  }

  function Code(form: Form, len: nat): (c: bytes)
    requires FormFits(form, len)
    ensures |c| == match form case Nibble => 1 case Counted => 2 case Marked => 3
  {
    match form
    case Nibble => [0xB0 + len]
    case Counted => [0xB0, len]
    case Marked => [0xB0, 0xC1, len]
  }

  predicate Announced(form: Form, m: Message) {
    0 < m.did < 10000 && FormFits(form, |m.data|)
  }

  function Head(form: Form, m: Message): (h: bytes)
    requires Announced(form, m)
  {
    [m.did % 256, m.did / 256] + Code(form, |m.data|)
  }

  function Block(form: Form, m: Message): bytes
    requires Announced(form, m)
  {
    Head(form, m) + m.data
  }

  /** A block and whatever comes after it. */
  function Followed(form: Form, m: Message, tail: bytes): bytes
    requires Announced(form, m)
  {
    Block(form, m) + tail
  }

  function Room(form: Form): nat {
    match form case Nibble => 4 case Counted => 3 case Marked => 2
  }

  lemma FirstChunk(form: Form, m: Message, tail: bytes)
    requires Announced(form, m)
    ensures var f := IsoTp.ConsFrame(1, Take(Followed(form, m, tail), 7));
      && |f| == 8 && f[0] == 0x21 && f[1] == m.did % 256 && f[2] == m.did / 256
      && f[3..8 - Room(form)] == Code(form, |m.data|)
      && Take(f[8 - Room(form)..], |m.data|) == Take(m.data, Room(form))
  {
    hide IsoTp.ConsFrame, Code, Take;
    var b, h, k := Followed(form, m, tail), Head(form, m), Room(form);
    assert |h| == 7 - k && h[..2] == [m.did % 256, m.did / 256] && h[2..] == Code(form, |m.data|);
    assert b == h + (m.data + tail);
    FrontTaken(h, m.data + tail, k);
    var c := Take(b, 7);
    assert |c| <= 7;
    ConsFrameIs(1, c);
    var f := IsoTp.ConsFrame(1, c);
    FrameParts(h, Take(m.data + tail, k), k, f);
    DataTaken(m.data, tail, k, f[8 - k..]);
  }

  lemma FrontTaken(h: bytes, d: bytes, k: nat)
    requires |h| + k == 7
    ensures Take(h + d, 7) == h + Take(d, k) && |Take(d, k)| <= k
  {
  }

  lemma FrameParts(h: bytes, d: bytes, k: nat, f: bytes)
    requires 2 <= |h| && |h| + k == 7 && |d| <= k && f == [0x21] + (h + d + Zeros(7 - |h + d|))
    ensures |f| == 8 && f[0] == 0x21 && f[1] == h[0] && f[2] == h[1]
    ensures f[3..8 - k] == h[2..] && f[8 - k..] == d + Zeros(k - |d|)
  {
  }

  lemma DataTaken(data: bytes, tail: bytes, k: nat, f: bytes)
    requires var d := Take(data + tail, k); |d| <= k && f == d + Zeros(k - |d|)
    ensures Take(f, |data|) == Take(data, k)
  {
  }

  lemma HookBlock(form: Form, m: Message, tail: bytes)
    requires Announced(form, m)
    ensures var f := IsoTp.ConsFrame(1, Take(Followed(form, m, tail), 7));
      Hook(f) == Gather(0x22, m.did, |m.data|, Take(m.data, Room(form)))
  {
    hide IsoTp.ConsFrame, Followed;
    FirstChunk(form, m, tail);
    var f := IsoTp.ConsFrame(1, Take(Followed(form, m, tail), 7));
    assert f[3..8 - Room(form)][0] == f[3];
    if form == Marked {
      assert f[3..6][1] == f[4] && f[3..6][2] == f[5];
    } else if form == Counted {
      assert f[3..5][1] == f[4];
    }
    var n := |m.data|;
    assert Take(Drop(f, 8 - Room(form)), n) == Take(m.data, Room(form));
    assert m.did % 256 + 256 * (m.did / 256) == m.did;
    if form == Nibble && n <= 4 {
      assert f[4..4 + n] == Take(f[4..], n) == m.data == m.data[..n];
    }
  }

  lemma ConsFrameIs(sn: nat, c: bytes)
    requires sn < 16 && |c| <= 7
    ensures IsoTp.ConsFrame(sn, c) == [32 + sn] + (c + Zeros(7 - |c|))
  {
  }

  /** Still `data[k..]` to come: one more frame of it. */
  lemma NextChunk(m: Message, k: nat, tail: bytes, sn: nat)
    requires k < |m.data| <= MAX_LEN && sn < 16
    ensures var f := IsoTp.ConsFrame(sn, Take(m.data[k..] + tail, 7));
      Feed(Busy(0x20 + sn, m.did, |m.data|, m.data[..k]), f)
      == Gather(After(0x20 + sn), m.did, |m.data|, if |m.data| - k <= 7 then m.data else m.data[..k + 7])
  {
    hide Gather, IsoTp.ConsFrame;
    ConsFrameIs(sn, Take(m.data[k..] + tail, 7));
    var c := Take(m.data[k..] + tail, 7);
    var f := IsoTp.ConsFrame(sn, c);
    assert f[1..] == c + Zeros(7 - |c|);
    var g := Take(m.data[..k] + f[1..], MAX_LEN);
    if |m.data| - k <= 7 {
      assert c[..|m.data| - k] == m.data[k..];
      assert g[..|m.data|] == m.data;
      GatherDone(After(0x20 + sn), m.did, |m.data|, g);
      GatherDone(After(0x20 + sn), m.did, |m.data|, m.data);
      assert m.data[..|m.data|] == m.data;
    } else {
      assert c == m.data[k..k + 7];
      assert m.data[..k] + c == m.data[..k + 7];
      assert f[1..] == c;
      assert |m.data[..k] + f[1..]| <= MAX_LEN;
      assert g == m.data[..k + 7];
    }
  }

  lemma GatherDone(due: byte, did: nat, need: nat, got: bytes)
    requires |got| >= need
    ensures Gather(due, did, need, got) == Step(Idle, Some(Message(did, got[..need])), 0)
  {
  }

  // ---- hooking 0x21 against reassembling ----

  lemma FeedsStep(s: State, fs: seq<bytes>)
    requires fs != []
    ensures var st := Feed(s, fs[0]); var r := Feeds(st.next, fs[1..]);
      Feeds(s, fs) == Run(r.last, [st.out] + r.outs, st.lost + r.lost)
  {
  }

  lemma FirstOf(rest: bytes, sn: nat)
    requires rest != [] && sn < 16
    ensures IsoTp.ConsFrames(rest, sn)
      == [IsoTp.ConsFrame(sn, Take(rest, 7))] + IsoTp.ConsFrames(Drop(rest, 7), (sn + 1) % 16)
  {
  }

  /** What a run of `n` frames looks like whose last one delivers `m`. */
  function DeliveredThen(n: nat, m: Message, after: Run): Run
    requires n > 0
  {
    Run(after.last, seq(n - 1, i => None) + [Some(m)] + after.outs, after.lost)
  }

  lemma OneLater(n: nat, m: Message, after: Run)
    requires n > 0
    ensures var r := DeliveredThen(n, m, after);
      Run(r.last, [None] + r.outs, r.lost) == DeliveredThen(n + 1, m, after)
  {
  }

  lemma AtOnce(m: Message, after: Run)
    ensures Run(after.last, [Some(m)] + after.outs, after.lost) == DeliveredThen(1, m, after)
  {
  }

  function HavingGot(m: Message, k: nat, sn: nat): State
    requires k < |m.data| && sn < 16
  {
    Busy(0x20 + sn, m.did, |m.data|, m.data[..k])
  }

  /** From `k` bytes of a message on: it is delivered with the frame carrying its
      last byte and nothing before that; whatever follows meets an idle machine. */
  lemma {:induction false} RestDelivered(m: Message, k: nat, rest: bytes, sn: nat)
    requires k < |m.data| <= MAX_LEN && sn < 16 && m.data[k..] <= rest
    ensures IsoTp.CfCount(|m.data| - k) > 0
    ensures var n := IsoTp.CfCount(|m.data| - k);
      Feeds(HavingGot(m, k, sn), IsoTp.ConsFrames(rest, sn))
      == DeliveredThen(n, m, Feeds(Idle, IsoTp.ConsFrames(Drop(rest, 7 * n), (sn + n) % 16)))
    decreases |m.data| - k
  {
    hide Feed, Feeds, IsoTp.ConsFrame, IsoTp.ConsFrames, Gather, DeliveredThen, Drop, Take, After;
    var s, fs, sn' := HavingGot(m, k, sn), IsoTp.ConsFrames(rest, sn), (sn + 1) % 16;
    var tail := rest[|m.data| - k..];
    assert rest == m.data[k..] + tail;
    NextChunk(m, k, tail, sn);
    FirstOf(rest, sn);
    FeedsStep(s, fs);
    assert fs[1..] == IsoTp.ConsFrames(Drop(rest, 7), sn');
    GatherStep(m, k, sn);
    if |m.data| - k <= 7 {
      AtOnce(m, Feeds(Idle, fs[1..]));
      assert IsoTp.CfCount(|m.data| - k) == 1;
    } else {
      var n := IsoTp.CfCount(|m.data| - k - 7);
      LaterPart(m.data, k, rest);
      RestDelivered(m, k + 7, Drop(rest, 7), sn');
      DroppedTwice(rest, n);
      assert (sn' + n) % 16 == (sn + n + 1) % 16;
      OneLater(n, m, Feeds(Idle, IsoTp.ConsFrames(Drop(rest, 7 * (n + 1)), (sn' + n) % 16)));
    }
  }

  lemma LaterPart(data: bytes, k: nat, rest: bytes)
    requires k + 7 < |data| && data[k..] <= rest
    ensures data[k + 7..] <= Drop(rest, 7)
  {
    assert data[k..][7..] == data[k + 7..];
  }

  lemma DroppedTwice(rest: bytes, n: nat)
    ensures Drop(Drop(rest, 7), 7 * n) == Drop(rest, 7 * (n + 1))
  {
  }

  lemma GatherStep(m: Message, k: nat, sn: nat)
    requires k < |m.data| <= MAX_LEN && sn < 16
    ensures After(0x20 + sn) == 0x20 + (sn + 1) % 16
    ensures var done := |m.data| - k <= 7;
      Gather(After(0x20 + sn), m.did, |m.data|, if done then m.data else m.data[..k + 7])
      == if done then Step(Idle, Some(m), 0)
         else Step(Busy(0x20 + (sn + 1) % 16, m.did, |m.data|, m.data[..k + 7]), None, 0)
  {
    assert m.data[..|m.data|] == m.data;
  }

  /** Sequence bytes 22..2F and 20 open nothing. */
  lemma NotAnOpening(sn: nat, c: bytes)
    requires sn < 16 && sn != 1 && |c| <= 7
    ensures Feed(Idle, IsoTp.ConsFrame(sn, c)) == Step(Idle, None, 0)
  {
  }

  /** The first frame of a segmented message opens nothing, and ends whatever
      was in progress. */
  lemma FirstFrameOpensNothing(s: State, p: bytes)
    requires Valid(s) && 6 <= |p| <= IsoTp.MAX_PAYLOAD
    ensures Feed(s, IsoTp.FirstFrame(p)) == Step(Idle, None, Active(s))
  {
  }

  /** The consecutive frames of a message whose first block is `m`. */
  lemma BodyDelivered(form: Form, m: Message, tail: bytes)
    requires Announced(form, m)
    ensures IsoTp.CfCount(|Block(form, m)|) > 0
    ensures var b := Followed(form, m, tail); var n := IsoTp.CfCount(|Block(form, m)|);
      Feeds(Idle, IsoTp.ConsFrames(b, 1))
      == DeliveredThen(n, m, Feeds(Idle, IsoTp.ConsFrames(Drop(b, 7 * n), (1 + n) % 16)))
  {
    hide Feeds, IsoTp.ConsFrame, IsoTp.ConsFrames, IsoTp.CfCount, DeliveredThen, Code, Followed, Block;
    var b, k := Followed(form, m, tail), Room(form);
    var after := IsoTp.ConsFrames(Drop(b, 7), 2);
    FirstFed(form, m, tail);
    FramesOfBlock(form, m);
    if |m.data| <= k {
      AtOnce(m, Feeds(Idle, after));
    } else {
      var n := IsoTp.CfCount(|m.data| - k);
      Behind(form, m, tail);
      RestDelivered(m, k, Drop(b, 7), 2);
      DroppedTwice(b, n);
      OneLater(n, m, Feeds(Idle, IsoTp.ConsFrames(Drop(b, 7 * (n + 1)), (2 + n) % 16)));
    }
  }

  lemma FramesOfBlock(form: Form, m: Message)
    requires Announced(form, m)
    ensures var n, k := IsoTp.CfCount(|Block(form, m)|), Room(form);
      n == if |m.data| <= k then 1 else IsoTp.CfCount(|m.data| - k) + 1
    ensures |m.data| > Room(form) ==> IsoTp.CfCount(|m.data| - Room(form)) > 0
  {
    assert |Block(form, m)| == 7 - Room(form) + |m.data|;
  }

  lemma Behind(form: Form, m: Message, tail: bytes)
    requires Announced(form, m) && |m.data| > Room(form)
    ensures Drop(Followed(form, m, tail), 7) == m.data[Room(form)..] + tail
  {
  }

  /** What the frame with the block's front leaves to be fed. */
  lemma FirstFed(form: Form, m: Message, tail: bytes)
    requires Announced(form, m)
    ensures var b, k := Followed(form, m, tail), Room(form);
      var st := if |m.data| <= k then Step(Idle, Some(m), 0) else Step(HavingGot(m, k, 2), None, 0);
      var r := Feeds(st.next, IsoTp.ConsFrames(Drop(b, 7), 2));
      Feeds(Idle, IsoTp.ConsFrames(b, 1)) == Run(r.last, [st.out] + r.outs, r.lost)
  {
    hide Feeds, IsoTp.ConsFrame, IsoTp.ConsFrames, Gather, Hook, Code;
    var b := Followed(form, m, tail);
    var fs := IsoTp.ConsFrames(b, 1);
    FirstOf(b, 1);
    FeedsStep(Idle, fs);
    HookBlock(form, m, tail);
    ConsFrameIs(1, Take(b, 7));
    assert fs[1..] == IsoTp.ConsFrames(Drop(b, 7), 2);
    FirstGathered(form, m);
  }

  lemma FirstGathered(form: Form, m: Message)
    requires Announced(form, m)
    ensures var k := Room(form);
      Gather(0x22, m.did, |m.data|, Take(m.data, k))
      == if |m.data| <= k then Step(Idle, Some(m), 0) else Step(HavingGot(m, k, 2), None, 0)
  {
    assert m.data[..|m.data|] == m.data;
  }

  /** Service 0x77: six bytes of header, then blocks. */
  predicate Header(h: bytes) {
    |h| == 6 && h[0] == 0x77 && h[4] == 0x01 && h[5] == 0x82
  }

  lemma SegmentsOf(h: bytes, b: bytes)
    requires |h| == 6 && 2 <= |b| && 6 + |b| <= IsoTp.MAX_PAYLOAD
    ensures IsoTp.Segments(h + b) == [IsoTp.FirstFrame(h + b)] + IsoTp.ConsFrames(b, 1)
  {
    assert (h + b)[6..] == b;
  }

  lemma MessageFed(s: State, h: bytes, form: Form, m: Message, tail: bytes)
    requires Valid(s) && |h| == 6 && Announced(form, m)
    requires 6 + |Followed(form, m, tail)| <= IsoTp.MAX_PAYLOAD
    ensures var b := Followed(form, m, tail); var n := IsoTp.CfCount(|Block(form, m)|);
      var after := Feeds(Idle, IsoTp.ConsFrames(Drop(b, 7 * n), (1 + n) % 16));
      Feeds(s, IsoTp.Segments(h + b)) == Run(after.last, [None] + DeliveredThen(n, m, after).outs, Active(s) + after.lost)
  {
    hide Feeds, Feed, IsoTp.ConsFrames, IsoTp.FirstFrame, IsoTp.Segments, Drop;
    var b := Followed(form, m, tail);
    SegmentsOf(h, b);
    FirstFrameOpensNothing(s, h + b);
    FeedsStep(s, IsoTp.Segments(h + b));
    assert IsoTp.Segments(h + b)[1..] == IsoTp.ConsFrames(b, 1);
    BodyDelivered(form, m, tail);
  }

  /** Hooking 0x21 equals full reassembly: the segmentation of a message with
      one block, fed from any reachable state, delivers exactly that block on its
      last frame and nothing earlier. */
  lemma HookIsReassembly(s: State, h: bytes, form: Form, m: Message)
    requires Valid(s) && Header(h) && Announced(form, m)
    ensures var fs := IsoTp.Segments(h + Block(form, m)); var r := Feeds(s, fs);
      && |fs| > 1 && r.outs == seq(|fs| - 1, i => None) + [Some(m)]
      && r.last == Idle && r.lost == Active(s)
  {
    hide Feeds, IsoTp.ConsFrame, IsoTp.FirstFrame, Block, IsoTp.Segments;
    var b := Block(form, m);
    BlockLength(form, m);
    assert Followed(form, m, []) == b;
    MessageFed(s, h, form, m, []);
    var n := IsoTp.CfCount(|b|);
    assert Drop(b, 7 * n) == [];
    NoFrames((1 + n) % 16);
    var r := Feeds(s, IsoTp.Segments(h + b));
    var none := seq<Option<Message>>(n - 1, i => None);
    assert r.outs == [None] + (none + [Some(m)] + []);
    assert [None] + (none + [Some(m)] + []) == seq(n, i => None) + [Some(m)];
  }

  lemma NoFrames(sn: nat)
    requires sn < 16
    ensures Feeds(Idle, IsoTp.ConsFrames([], sn)) == Run(Idle, [], 0)
  {
  }

  lemma BlockLength(form: Form, m: Message)
    requires Announced(form, m)
    ensures |Block(form, m)| == 7 - Room(form) + |m.data|
  {
  }

  // ---- reassembled and parsed, as web/app.js does it ----

  /** Where the data of a block starts, and how long it is; 0 if cut off. */
  function HeadLen(b: bytes): nat
    requires |b| >= 3
  {
    if b[2] % 16 != 0 then 3
    else if |b| <= 3 then 0
    else if b[3] != 0xC1 then 4
    else if |b| <= 4 then 0
    else 5
  }

  function DataLen(b: bytes): int
    requires |b| >= 3 && HeadLen(b) > 0
  {
    if b[2] % 16 != 0 then b[2] % 16 else b[HeadLen(b) - 1]
  }

  function ParseBlocks(b: bytes): seq<Message> {
    if |b| < 3 || b[2] / 16 != 0xB || HeadLen(b) == 0 || HeadLen(b) + DataLen(b) > |b| then []
    else
      var head, n := HeadLen(b), DataLen(b);
      [Message(Word(b[0], b[1]), b[head..head + n])] + ParseBlocks(b[head + n..])
  }

  function BlocksOf(p: bytes): seq<Message> {
    if |p| >= 6 && Header(p[..6]) && |p| != 8 then ParseBlocks(p[6..]) else []
  }

  lemma HeadSpelled(form: Form, m: Message, b: bytes)
    requires Announced(form, m) && Head(form, m) <= b
    ensures Word(b[0], b[1]) == m.did && b[2] / 16 == 0xB
    ensures HeadLen(b) == |Head(form, m)| && DataLen(b) == |m.data|
  {
    var h := Head(form, m);
    assert b[..|h|] == h;
    assert h[2..] == Code(form, |m.data|);
    assert b[2] == h[2..][0];
    assert |h| > 3 ==> b[3] == h[2..][1];
    assert |h| > 4 ==> b[4] == h[2..][2];
  }

  lemma ParseStep(b: bytes)
    requires |b| >= 3 && b[2] / 16 == 0xB && HeadLen(b) > 0 && HeadLen(b) + DataLen(b) <= |b|
    ensures var head, n := HeadLen(b), DataLen(b);
      ParseBlocks(b) == [Message(Word(b[0], b[1]), b[head..head + n])] + ParseBlocks(b[head + n..])
  {
  }

  lemma BlockParsed(form: Form, m: Message, tail: bytes)
    requires Announced(form, m)
    ensures ParseBlocks(Followed(form, m, tail)) == [m] + ParseBlocks(tail)
  {
    hide ParseBlocks;
    var b, h := Followed(form, m, tail), Head(form, m);
    assert b == h + (m.data + tail);
    HeadSpelled(form, m, b);
    ParseStep(b);
    assert HeadLen(b) == |h| && DataLen(b) == |m.data|;
    assert b[|h|..|h| + |m.data|] == m.data;
    assert b[|h| + |m.data|..] == tail;
  }

  /** The block is what full reassembly and parsing finds in that message. */
  lemma OneBlockParsed(h: bytes, form: Form, m: Message)
    requires Header(h) && Announced(form, m)
    ensures BlocksOf(h + Block(form, m)) == [m]
  {
    hide ParseBlocks;
    var b := Block(form, m);
    BlockLength(form, m);
    BlockParsed(form, m, []);
    assert Followed(form, m, []) == b;
    assert (h + b)[..6] == h && (h + b)[6..] == b;
    NothingParsed();
  }

  lemma NothingParsed()
    ensures ParseBlocks([]) == []
  {
  }

  predicate InRange(m: Message) {
    0 < m.did < 10000 && 0 < |m.data| <= 200
  }

  lemma ParsedIsBlock(b: bytes) returns (form: Form)
    requires ParseBlocks(b) != [] && InRange(ParseBlocks(b)[0])
    ensures var m := ParseBlocks(b)[0];
      && Announced(form, m) && |Block(form, m)| <= |b|
      && b == Followed(form, m, b[|Block(form, m)|..])
  {
    var m := ParseBlocks(b)[0];
    var head, n := HeadLen(b), DataLen(b);
    form := if head == 3 then Nibble else if head == 4 then Counted else Marked;
    assert b[2..head] == Code(form, n) && n == |m.data| && m.data == b[head..head + n];
    hide Code, ParseBlocks, HeadLen, DataLen;
    DidSpelled(b, m.did);
    assert b[..head] == b[..2] + b[2..head];
    assert Head(form, m) == b[..2] + b[2..head];
    assert b == b[..head] + m.data + b[head + n..];
  }

  lemma DidSpelled(b: bytes, did: nat)
    requires |b| >= 2 && did == Word(b[0], b[1])
    ensures b[..2] == [did % 256, did / 256]
  {
  }

  lemma {:induction false} DeliveredAppend(xs: seq<Option<Message>>, ys: seq<Option<Message>>)
    ensures Delivered(xs + ys) == Delivered(xs) + Delivered(ys)
  {
    hide Delivered;
    if xs == [] {
      NothingDelivered();
      assert xs + ys == ys;
    } else {
      assert (xs + ys)[1..] == xs[1..] + ys;
      DeliveredFront(xs);
      DeliveredFront(xs + ys);
      DeliveredAppend(xs[1..], ys);
    }
  }

  lemma NothingDelivered()
    ensures Delivered([]) == []
  {
  }

  lemma DeliveredFront(xs: seq<Option<Message>>)
    requires xs != []
    ensures Delivered(xs) == (if xs[0].Some? then [xs[0].value] else []) + Delivered(xs[1..])
  {
  }

  lemma {:induction false} DeliveredNone(n: nat)
    ensures Delivered(seq(n, i => None)) == []
  {
    if n > 0 {
      assert seq<Option<Message>>(n, i => None)[1..] == seq(n - 1, i => None);
      DeliveredNone(n - 1);
    }
  }
}
