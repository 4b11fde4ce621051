/** ISO-TP over classic CAN (main/isotp.c, section 9.6 of ISO 15765-2) against
    an explicit bus: a clock, the frames still to arrive from an arbitrary
    peer, the outcome of every transmission, and a log of what went by. */
module IsoTp {
  import opened Bytes
  import opened Wrappers

  const MAX_PAYLOAD := 4095
  const BLOCKSIZE: byte := 0
  const N_BS_MS := 1000
  const N_CR_MS := 1000
  const MSG_MS := 3000
  const N_WFT_MAX := 4

  type Data = d: bytes | |d| <= 8

  datatype Frame = Frame(id: nat, data: Data)

  /** A frame and the microsecond it can be received from. */
  datatype Arrival = Arrival(at: nat, frame: Frame)

  /** What the driver makes of one transmission, and how long it takes. */
  datatype Sending = Sending(ok: bool, us: nat)

  datatype Entry = Tx(frame: Frame, ok: bool) | Rx(frame: Frame)

  datatype Bus = Bus(us: nat, incoming: seq<Arrival>, plan: nat -> Sending, sends: nat, log: seq<Entry>)

  datatype Link = Link(tx: nat, rx: nat, stmin: byte)

  datatype Error = Timeout | TooLong | BusError | Protocol | Overflow

  // ---- the hardware, as functions on the bus ----

  function Now(b: Bus): nat {
    b.us / 1000
  }

  function Transmit(b: Bus, f: Frame): (bool, Bus) {
    var s := b.plan(b.sends);
    (s.ok, b.(us := b.us + s.us, sends := b.sends + 1, log := b.log + [Tx(f, s.ok)]))
  }

  /** The next frame if it is there before the timeout, else time passes. */
  function Receive(b: Bus, ms: nat): (Option<Frame>, Bus) {
    if b.incoming != [] && b.incoming[0].at <= b.us + 1000 * ms then
      (Some(b.incoming[0].frame),
       b.(us := if b.incoming[0].at > b.us then b.incoming[0].at else b.us,
          incoming := b.incoming[1..], log := b.log + [Rx(b.incoming[0].frame)]))
    else (None, b.(us := b.us + 1000 * ms))
  }

  function Delay(b: Bus, us: nat): Bus {
    b.(us := b.us + us)
  }

  // ---- frames ----

  function Padded(d: Data): (r: Data)
    ensures |r| == 8
  {
    d + Zeros(8 - |d|)
  }

  function SingleFrame(p: bytes): Data
    requires |p| <= 7
  {
    Padded([|p|] + p)
  }

  function FirstFrame(p: bytes): Data
    requires 6 <= |p| <= MAX_PAYLOAD
  {
    [16 + |p| / 256, |p| % 256] + p[..6]
  }

  function ConsFrame(sn: nat, chunk: bytes): Data
    requires sn < 16 && |chunk| <= 7
  {
    Padded([32 + sn] + chunk)
  }

  function ConsFrames(rest: bytes, sn: nat): seq<Data>
    requires sn < 16
    decreases |rest|
  {
    if rest == [] then [] else [ConsFrame(sn, Take(rest, 7))] + ConsFrames(Drop(rest, 7), (sn + 1) % 16)
  }

  /** How many of them `len` bytes take. */
  function CfCount(len: nat): nat {
    (len + 6) / 7
  }

  /** The canonical segmentation of a message. */
  function Segments(p: bytes): seq<Data>
    requires |p| <= MAX_PAYLOAD
  {
    if |p| <= 7 then [SingleFrame(p)] else [FirstFrame(p)] + ConsFrames(p[6..], 1)
  }

  predicate HasPci(d: bytes, pci: nat) {
    d != [] && d[0] / 16 == pci
  }

  /** Reserved values count as the 127 ms maximum. */
  function StminUs(stmin: byte): nat {
    if stmin <= 0x7F then stmin * 1000
    else if 0xF1 <= stmin <= 0xF9 then (stmin - 0xF0) * 100
    else 127000
  }

  // ---- sending ----

  datatype Grant = Granted(bs: byte, stminUs: nat) | Denied(error: Error)

  predicate IsFlowControl(l: Link, f: Frame) {
    f.id == l.rx && |f.data| >= 3 && HasPci(f.data, 3)
  }

  function AwaitFc(b: Bus, l: Link, deadline: nat, hard: nat, waits: nat): (Grant, Bus)
    decreases |b.incoming|
  {
    if Now(b) >= hard || Now(b) >= deadline then (Denied(Timeout), b)
    else
      var (f, b1) := Receive(b, deadline - Now(b));
      match f
      case None => (Denied(Timeout), b1)
      case Some(fr) =>
        if !IsFlowControl(l, fr) then AwaitFc(b1, l, deadline, hard, waits)
        else
          match fr.data[0] % 16
          case 0 => (Granted(fr.data[1], StminUs(fr.data[2])), b1)
          case 1 =>
            if waits + 1 > N_WFT_MAX then (Denied(Timeout), b1)
            else AwaitFc(b1, l, Now(b1) + N_BS_MS, hard, waits + 1)
          case 2 => (Denied(Overflow), b1)
          case _ => (Denied(Protocol), b1)
  }

  function StartAwait(b: Bus, l: Link): (Grant, Bus) {
    AwaitFc(b, l, Now(b) + N_BS_MS, Now(b) + MSG_MS, 0)
  }

  datatype Sent = Delivered | Failed(error: Error)

  function SendCfs(b: Bus, l: Link, rest: bytes, sn: nat, inBlock: nat, bs: nat, stminUs: nat, deadline: nat): (Sent, Bus)
    requires sn < 16
    decreases |rest|
  {
    if rest == [] then (Delivered, b)
    else if Now(b) >= deadline then (Failed(Timeout), b)
    else
      var b1 := if stminUs > 0 then Delay(b, stminUs) else b;
      var (ok, b2) := Transmit(b1, Frame(l.tx, ConsFrame(sn, Take(rest, 7))));
      if !ok then (Failed(BusError), b2)
      else
        var rest' := Drop(rest, 7);
        var sn' := (sn + 1) % 16;
        if bs > 0 && inBlock + 1 == bs && rest' != [] then
          var (g, b3) := StartAwait(b2, l);
          match g
          case Denied(e) => (Failed(e), b3)
          case Granted(bs', st') => SendCfs(b3, l, rest', sn', 0, bs', st', deadline)
        else SendCfs(b2, l, rest', sn', if bs > 0 then inBlock + 1 else inBlock, bs, stminUs, deadline)
  }

  function Send(b: Bus, l: Link, p: bytes): (Sent, Bus) {
    if |p| > MAX_PAYLOAD then (Failed(TooLong), b)
    else if |p| <= 7 then
      var (ok, b1) := Transmit(b, Frame(l.tx, SingleFrame(p)));
      (if ok then Delivered else Failed(BusError), b1)
    else
      var (ok, b1) := Transmit(b, Frame(l.tx, FirstFrame(p)));
      if !ok then (Failed(BusError), b1)
      else
        var (g, b2) := StartAwait(b1, l);
        match g
        case Denied(e) => (Failed(e), b2)
        case Granted(bs, st) => SendCfs(b2, l, p[6..], 1, 0, bs, st, Now(b2) + MSG_MS)
  }

  // ---- receiving ----

  /** isotp_recv never clears its frame buffer: a short frame leaves the tail of
      the one before it. */
  function Over(data: Data, buf: bytes): (r: bytes)
    requires |buf| == 8
    ensures |r| == 8 && r[..|data|] == data
  {
    data + buf[|data|..]
  }

  predicate Opens(l: Link, f: Frame) {
    f.id == l.rx && |f.data| >= 1 && (HasPci(f.data, 0) || HasPci(f.data, 1))
  }

  /** The opening frame, with everything received before it in the buffer. */
  function AwaitOpening(b: Bus, l: Link, deadline: nat, buf: bytes): (r: (Option<Frame>, Bus, bytes))
    requires |buf| == 8
    ensures |r.2| == 8
    ensures r.0.Some? ==> Opens(l, r.0.value) && r.2[..|r.0.value.data|] == r.0.value.data
    decreases |b.incoming|
  {
    if Now(b) >= deadline then (None, b, buf)
    else
      var (f, b1) := Receive(b, deadline - Now(b));
      match f
      case None => (None, b1, buf)
      case Some(fr) =>
        var buf1 := Over(fr.data, buf);
        if Opens(l, fr) then (Some(fr), b1, buf1) else AwaitOpening(b1, l, deadline, buf1)
  }

  datatype Received = Got(payload: bytes, segmented: bool) | Missed(error: Error)

  /** The consecutive frames of a message of which `got` has been stored. */
  function RecvCfs(b: Bus, l: Link, got: bytes, total: nat, sn: nat, deadline: nat, buf: bytes): (Received, Bus, bytes)
    requires |buf| == 8 && sn < 16
    decreases |b.incoming|
  {
    if |got| >= total then (Got(got[..total], true), b, buf)
    else if Now(b) >= deadline then (Missed(Timeout), b, buf)
    else
      var (f, b1) := Receive(b, N_CR_MS);
      match f
      case None => (Missed(Timeout), b1, buf)
      case Some(fr) =>
        var buf1 := Over(fr.data, buf);
        if fr.id != l.rx then RecvCfs(b1, l, got, total, sn, deadline, buf1)
        else if buf1[0] / 16 != 2 then (Missed(Protocol), b1, buf1)
        else if buf1[0] % 16 != sn then (Missed(Protocol), b1, buf1)
        else
          var chunk := Min(7, total - |got|);
          if chunk + 1 > |fr.data| then (Missed(Protocol), b1, buf1)
          else RecvCfs(b1, l, got + buf1[1..1 + chunk], total, (sn + 1) % 16, deadline, buf1)
  }

  function FlowFrame(status: byte, bs: byte, stmin: byte): Data {
    Padded([48 + status % 16, bs, stmin])
  }

  /** The 12-bit length of a first frame. */
  function Total(hi: int, lo: int): int {
    hi % 16 * 256 + lo
  }

  /** After the opening frame: a single frame is the message, a first frame is
      answered with flow control and followed by the rest. */
  function RecvBody(b: Bus, l: Link, len: nat, buf: bytes, room: nat): (Received, Bus, bytes)
    requires |buf| == 8 && len <= 8
  {
    if buf[0] / 16 == 0 then
      var n := buf[0] % 16;
      if n > room || n + 1 > len then (Missed(Protocol), b, buf) else (Got(buf[1..1 + n], false), b, buf)
    else
      var total := Total(buf[0], buf[1]);
      if total > room then
        var (ok, b1) := Transmit(b, Frame(l.tx, FlowFrame(2, 0, 0)));
        (Missed(TooLong), b1, buf)
      else if len < 8 then (Missed(Protocol), b, buf)
      else
        var (ok, b1) := Transmit(b, Frame(l.tx, FlowFrame(0, BLOCKSIZE, l.stmin)));
        if !ok then (Missed(BusError), b1, buf)
        else RecvCfs(b1, l, buf[2..8], total, 1, Now(b1) + MSG_MS, buf)
  }

  function Recv(b: Bus, l: Link, room: nat, timeout: nat, buf: bytes): (Received, Bus, bytes)
    requires |buf| == 8
  {
    var (f, b1, buf1) := AwaitOpening(b, l, Now(b) + timeout, buf);
    if f.None? then (Missed(Timeout), b1, buf1) else RecvBody(b1, l, |f.value.data|, buf1, room)
  }
}
