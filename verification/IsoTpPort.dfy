/** isotp.c and uds.c as loops over the hardware: each follows the function of
    its name in IsoTp and Uds, about which the theorems are. */
module IsoTpPort {
  import opened Bytes
  import opened Wrappers
  import opened IsoTp
  import opened Uds

  /** The CAN port; everything it does is visible in `bus`. */
  class Hal {
    var bus: Bus

    constructor (bus: Bus)
      ensures this.bus == bus
    {
      this.bus := bus;
    }

    method SendFrame(id: nat, data: Data) returns (ok: bool)
      modifies this
      ensures (ok, bus) == Transmit(old(bus), Frame(id, data))
    {
      var (r, b) := Transmit(bus, Frame(id, data));
      bus := b;
      ok := r;
    }

    method RecvFrame(ms: nat) returns (f: Option<Frame>)
      modifies this
      ensures (f, bus) == Receive(old(bus), ms)
    {
      var (r, b) := Receive(bus, ms);
      bus := b;
      f := r;
    }

    method Sleep(us: nat)
      modifies this
      ensures bus == Delay(old(bus), us)
    {
      bus := Delay(bus, us);
    }
  }

  method AwaitFlowControl(hal: Hal, l: Link) returns (g: Grant)
    modifies hal
    ensures (g, hal.bus) == StartAwait(old(hal.bus), l)
  {
    var deadline: nat := Now(hal.bus) + N_BS_MS;
    var hard := Now(hal.bus) + MSG_MS;
    var waits: nat := 0;
    while true
      invariant AwaitFc(hal.bus, l, deadline, hard, waits) == StartAwait(old(hal.bus), l)
      decreases |hal.bus.incoming|
    {
      if Now(hal.bus) >= hard {
        return Denied(Timeout);
      }
      var now := Now(hal.bus);
      if now >= deadline {
        return Denied(Timeout);
      }
      var f := hal.RecvFrame(deadline - now);
      if f.None? {
        return Denied(Timeout);
      }
      if !IsFlowControl(l, f.value) {
        continue;
      }
      var status := f.value.data[0] % 16;
      if status == 0 {
        return Granted(f.value.data[1], StminUs(f.value.data[2]));
      } else if status == 1 {
        waits := waits + 1;
        if waits > N_WFT_MAX {
          return Denied(Timeout);
        }
        deadline := Now(hal.bus) + N_BS_MS;
      } else if status == 2 {
        return Denied(Overflow);
      } else {
        return Denied(Protocol);
      }
    }
  }

  method IsoSend(hal: Hal, l: Link, p: bytes) returns (r: Sent)
    modifies hal
    ensures (r, hal.bus) == Send(old(hal.bus), l, p)
  {
    if |p| > MAX_PAYLOAD {
      return Failed(TooLong);
    }
    if |p| <= 7 {
      var ok := hal.SendFrame(l.tx, SingleFrame(p));
      return if ok then Delivered else Failed(BusError);
    }
    var ok := hal.SendFrame(l.tx, FirstFrame(p));
    if !ok {
      return Failed(BusError);
    }
    var g := AwaitFlowControl(hal, l);
    if g.Denied? {
      return Failed(g.error);
    }
    r := SendConsecutive(hal, l, p, g.bs, g.stminUs);
  }

  method SendConsecutive(hal: Hal, l: Link, p: bytes, bs0: byte, st0: nat) returns (r: Sent)
    requires 7 < |p|
    modifies hal
    ensures (r, hal.bus) == SendCfs(old(hal.bus), l, p[6..], 1, 0, bs0, st0, Now(old(hal.bus)) + MSG_MS)
  {
    hide ConsFrame, AwaitFc;
    var bs, st := bs0, st0;
    var off, sn, inBlock: nat := 6, 1, 0;
    var deadline := Now(hal.bus) + MSG_MS;
    while off < |p|
      invariant 6 <= off <= |p| && 0 <= sn < 16
      invariant SendCfs(hal.bus, l, p[off..], sn, inBlock, bs, st, deadline) ==
                SendCfs(old(hal.bus), l, p[6..], 1, 0, bs0, st0, deadline)
    {
      if Now(hal.bus) >= deadline {
        return Failed(Timeout);
      }
      if st > 0 {
        hal.Sleep(st);
      }
      var chunk := Min(7, |p| - off);
      assert Take(p[off..], 7) == p[off..off + chunk] && Drop(p[off..], 7) == p[off + chunk..];
      var ok := hal.SendFrame(l.tx, ConsFrame(sn, p[off..off + chunk]));
      if !ok {
        return Failed(BusError);
      }
      off := off + chunk;
      sn := (sn + 1) % 16;
      if bs > 0 {
        inBlock := inBlock + 1;
        if inBlock == bs && off < |p| {
          inBlock := 0;
          var g := AwaitFlowControl(hal, l);
          if g.Denied? {
            return Failed(g.error);
          }
          bs, st := g.bs, g.stminUs;
        }
      }
    }
    r := Delivered;
  }

  /** The first frame addressed here that opens a message; `data` is the frame
      buffer every reception writes over. */
  method AwaitOpeningFrame(hal: Hal, l: Link, timeout: nat, data0: bytes) returns (f: Option<Frame>, data: bytes)
    requires |data0| == 8
    modifies hal
    ensures (f, hal.bus, data) == AwaitOpening(old(hal.bus), l, Now(old(hal.bus)) + timeout, data0)
  {
    data := data0;
    var deadline := Now(hal.bus) + timeout;
    while true
      invariant |data| == 8
      invariant AwaitOpening(hal.bus, l, deadline, data) == AwaitOpening(old(hal.bus), l, deadline, data0)
      decreases |hal.bus.incoming|
    {
      var now := Now(hal.bus);
      if now >= deadline {
        return None, data;
      }
      f := hal.RecvFrame(deadline - now);
      if f.None? {
        return;
      }
      data := Over(f.value.data, data);
      if Opens(l, f.value) {
        return;
      }
    }
  }

  /** isotp_recv into the caller's buffer. `data0` is whatever the frame buffer
      held before the first reception. */
  method IsoRecv(hal: Hal, l: Link, buf: array<byte>, timeout: nat, data0: bytes)
    returns (r: Result<nat, Error>, data: bytes, ghost spec: Received)
    requires |data0| == 8 && buf.Length >= 6
    modifies hal, buf
    ensures (spec, hal.bus, data) == Recv(old(hal.bus), l, buf.Length, timeout, data0)
    ensures spec.Got? ==> r == Ok(|spec.payload|) && |spec.payload| <= buf.Length
    ensures spec.Got? ==> buf[..|spec.payload|] == spec.payload
    ensures spec.Missed? ==> r == Err(spec.error)
  {
    var f;
    f, data := AwaitOpeningFrame(hal, l, timeout, data0);
    spec := Recv(old(hal.bus), l, buf.Length, timeout, data0).0;
    if f.None? {
      return Err(Timeout), data, spec;
    }
    var len := |f.value.data|;
    if data[0] / 16 == 0 {
      var n := data[0] % 16;
      if n > buf.Length || n + 1 > len {
        return Err(Protocol), data, spec;
      }
      CopyIn(buf, 0, data[1..1 + n]);
      return Ok(n), data, spec;
    }
    var total: nat := Total(data[0], data[1]);
    if total > buf.Length {
      var sent := hal.SendFrame(l.tx, FlowFrame(2, 0, 0));
      return Err(TooLong), data, spec;
    }
    if len < 8 {
      return Err(Protocol), data, spec;
    }
    var ok := hal.SendFrame(l.tx, FlowFrame(0, BLOCKSIZE, l.stmin));
    if !ok {
      return Err(BusError), data, spec;
    }
    r, data, spec := RecvConsecutive(hal, l, buf, total, data);
  }

  method CopyIn(buf: array<byte>, at: nat, s: bytes)
    requires at + |s| <= buf.Length
    modifies buf
    ensures buf[..at + |s|] == old(buf[..at]) + s
  {
    var i := 0;
    while i < |s|
      invariant 0 <= i <= |s| && buf[..at + i] == old(buf[..at]) + s[..i]
    {
      buf[at + i] := s[i];
      assert buf[..at + i + 1] == buf[..at + i] + [s[i]];
      i := i + 1;
    }
  }

  method RecvConsecutive(hal: Hal, l: Link, buf: array<byte>, total: nat, data0: bytes)
    returns (r: Result<nat, Error>, data: bytes, ghost spec: Received)
    requires |data0| == 8 && buf.Length >= 6 && total <= buf.Length
    modifies hal, buf
    ensures (spec, hal.bus, data) ==
            RecvCfs(old(hal.bus), l, data0[2..8], total, 1, Now(old(hal.bus)) + MSG_MS, data0)
    ensures spec.Got? ==> r == Ok(|spec.payload|) && |spec.payload| <= buf.Length
    ensures spec.Got? ==> buf[..|spec.payload|] == spec.payload
    ensures spec.Missed? ==> r == Err(spec.error)
  {
    data := data0;
    ghost var none := buf[..0];
    CopyIn(buf, 0, data[2..8]);
    assert buf[..6] == none + data[2..8] == data[2..8];
    var off, sn := 6, 1;
    var deadline := Now(hal.bus) + MSG_MS;
    ghost var start := hal.bus;
    spec := RecvCfs(start, l, data0[2..8], total, 1, deadline, data0).0;
    while off < total
      invariant 6 <= off <= buf.Length && (off <= total || off == 6) && |data| == 8 && 0 <= sn < 16
      invariant RecvCfs(hal.bus, l, buf[..off], total, sn, deadline, data) ==
                RecvCfs(start, l, data0[2..8], total, 1, deadline, data0)
      decreases |hal.bus.incoming|
    {
      if Now(hal.bus) >= deadline {
        return Err(Timeout), data, spec;
      }
      var f := hal.RecvFrame(N_CR_MS);
      if f.None? {
        return Err(Timeout), data, spec;
      }
      data := Over(f.value.data, data);
      if f.value.id != l.rx {
        continue;
      }
      if data[0] / 16 != 2 {
        return Err(Protocol), data, spec;
      }
      if data[0] % 16 != sn {
        return Err(Protocol), data, spec;
      }
      var chunk := Min(7, total - off);
      if chunk + 1 > |f.value.data| {
        return Err(Protocol), data, spec;
      }
      CopyIn(buf, off, data[1..1 + chunk]);
      sn := (sn + 1) % 16;
      off := off + chunk;
    }
    assert buf[..off][..total] == buf[..total];
    r := Ok(total);
  }

  /** recv_response: the messages judged one by one, the deadline extended to P2*
      for each pending reply. */
  method AwaitResponse(hal: Hal, l: Link, sid: byte, buf: array<byte>, p2: nat, data0: bytes)
    returns (r: Result<nat, UdsError>, ghost spec: Result<bytes, UdsError>)
    requires |data0| == 8 && buf.Length >= 6
    modifies hal, buf
    ensures (spec, hal.bus) == RecvResponse(old(hal.bus), l, sid, buf.Length, p2, p2, MAX_PENDING, data0)
    ensures spec.Ok? ==> r == Ok(|spec.value|) && |spec.value| <= buf.Length && buf[..|spec.value|] == spec.value
    ensures spec.Err? ==> r == Err(spec.error)
  {
    hide Recv;
    var timeout, pending, data := p2, 0, data0;
    spec := RecvResponse(hal.bus, l, sid, buf.Length, p2, p2, MAX_PENDING, data0).0;
    while pending <= MAX_PENDING
      invariant 0 <= pending <= MAX_PENDING + 1 && |data| == 8
      invariant pending <= MAX_PENDING ==>
                RecvResponse(hal.bus, l, sid, buf.Length, timeout, p2, MAX_PENDING - pending, data) ==
                RecvResponse(old(hal.bus), l, sid, buf.Length, p2, p2, MAX_PENDING, data0)
      invariant pending > MAX_PENDING ==>
                (Err(NoResponse), hal.bus) == RecvResponse(old(hal.bus), l, sid, buf.Length, p2, p2, MAX_PENDING, data0)
    {
      RecvKeeps(hal.bus, l, buf.Length, timeout, data);
      var got;
      ghost var seen;
      got, data, seen := IsoRecv(hal, l, buf, timeout, data);
      if got.Err? {
        return Err(MapTransport(got.error)), spec;
      }
      var n := got.value;
      assert forall i :: 0 <= i < n ==> buf[i] == buf[..n][i];
      if n < 1 {
        return Err(Malformed), spec;
      }
      if buf[0] == NEGATIVE {
        if n < 3 {
          return Err(Malformed), spec;
        }
        if buf[2] == NRC_PENDING {
          timeout := P2Star(p2);
          pending := pending + 1;
          continue;
        }
        return Err(Rejected(buf[2])), spec;
      }
      if buf[0] != sid {
        return Err(Malformed), spec;
      }
      return Ok(n), spec;
    }
    r := Err(NoResponse);
  }

  /** uds_read_did: the length is 0 on every failure; on success the buffer
      starts with exactly the bytes after the identifier. */
  method UdsReadDid(hal: Hal, l: Link, did: nat, buf: array<byte>, p2: nat, data0: bytes)
    returns (e: Option<UdsError>, outLen: nat)
    requires |data0| == 8 && buf.Length >= 6 && did < 65536
    modifies hal, buf
    ensures var (r, b) := ReadDid(old(hal.bus), l, did, buf.Length, p2, data0);
            && hal.bus == b
            && (r.Ok? ==> e == None && outLen == |r.value| <= buf.Length && buf[..outLen] == r.value)
            && (r.Err? ==> e == Some(r.error) && outLen == 0)
  {
    hide RecvResponse, Send;
    outLen := 0;
    var s := IsoSend(hal, l, ReadRequest(did));
    if s.Failed? {
      return Some(MapTransport(s.error)), 0;
    }
    var r;
    ghost var spec;
    r, spec := AwaitResponse(hal, l, RESP_READ, buf, p2, data0);
    if r.Err? {
      return Some(r.error), 0;
    }
    var n := r.value;
    ghost var m := spec.value;
    assert forall i :: 0 <= i < n ==> buf[i] == m[i];
    assert n >= 3 ==> m[1..3] == [m[1], m[2]];
    if n < 3 || buf[1] != did / 256 || buf[2] != did % 256 {
      return Some(Malformed), 0;
    }
    assert m[1..3] == DidBytes(did);
    var i := 0;
    ghost var quiet := hal.bus;
    while i < n - 3
      invariant 0 <= i <= n - 3 && hal.bus == quiet
      invariant buf[..i] == m[3..3 + i]
      invariant forall k :: i <= k < n ==> buf[k] == m[k]
    {
      buf[i] := buf[i + 3];
      assert buf[..i + 1] == buf[..i] + [m[i + 3]];
      i := i + 1;
    }
    assert m[3..3 + (n - 3)] == m[3..];
    e, outLen := None, n - 3;
  }

  /** uds_write_did, with its own 16-byte reply buffer. */
  method UdsWriteDid(hal: Hal, l: Link, did: nat, payload: bytes, p2: nat, data0: bytes) returns (e: Option<UdsError>)
    requires |data0| == 8 && did < 65536
    modifies hal
    ensures var (r, b) := WriteDid(old(hal.bus), l, did, payload, p2, data0);
            hal.bus == b && e == if r.Ok? then None else Some(r.error)
  {
    hide RecvResponse, Send;
    if |payload| > MAX_WRITE {
      return Some(TooLarge);
    }
    var s := IsoSend(hal, l, [SID_WRITE] + DidBytes(did) + payload);
    if s.Failed? {
      return Some(MapTransport(s.error));
    }
    var resp := new byte[16];
    var r;
    ghost var spec;
    r, spec := AwaitResponse(hal, l, RESP_WRITE, resp, p2, data0);
    if r.Err? {
      return Some(r.error);
    }
    ghost var m := spec.value;
    assert forall i :: 0 <= i < r.value ==> resp[i] == m[i];
    assert r.value >= 3 ==> m[1..3] == [m[1], m[2]];
    if r.value < 3 || resp[1] != did / 256 || resp[2] != did % 256 {
      return Some(Malformed);
    }
    e := None;
  }
}
