/** The reassembly buffer of main/collect_parse.c, updated frame by frame, and
    proved to do what Collect.Feed says. */
module CollectAsm {
  import opened Bytes
  import opened Wrappers
  import opened Collect

  class Asm {
    var active: bool
    var due: byte
    var did: nat
    var need: nat
    var have: nat
    const buf: array<byte>

    ghost predicate Sound()
      reads this, buf
    {
      buf.Length == MAX_LEN && (active ==> have <= MAX_LEN && Collect.Valid(Contents()))
    }

    /** What the fields stand for. */
    ghost function Contents(): State
      reads this, buf
    {
      if active && have <= buf.Length then Busy(due, did, need, buf[..have]) else Idle
    }

    constructor ()
      ensures Sound() && fresh(buf) && Contents() == Idle
    {
      active, due, did, need, have := false, 0, 0, 0, 0;
      buf := new byte[MAX_LEN](_ => 0);
    }

    /** Complete the message in progress, if it is complete. */
    method Finish(abandoned: nat) returns (out: Option<Message>, count: nat)
      requires buf.Length == MAX_LEN && have <= MAX_LEN && need <= MAX_LEN
      modifies this`active
      ensures !active
      ensures out == if old(active) && have >= need then Some(Message(did, buf[..need])) else None
      ensures count == abandoned + (if old(active) && have < need then 1 else 0)
    {
      count := abandoned;
      if !active {
        return None, count;
      }
      active := false;
      if have < need {
        return None, count + 1;
      }
      out := Some(Message(did, buf[..need]));
    }

    /** Begin a segmented message whose payload starts at `off` in this frame. */
    method Begin(d: bytes, did': nat, len: nat, off: nat, abandoned: nat) returns (out: Option<Message>, count: nat)
      requires buf.Length == MAX_LEN && d != [] && 0 < len <= MAX_LEN
      modifies this, buf
      ensures buf.Length == MAX_LEN
      ensures count >= abandoned
      ensures Step(Contents(), out, count - abandoned) == Gather(Following(d[0]), did', len, Take(Drop(d, off), len))
      ensures active ==> have <= MAX_LEN
    {
      active := true;
      did := did';
      need := len;
      due := Following(d[0]);
      have := if |d| > off then |d| - off else 0;
      if have > len {
        have := len;
      }
      forall i | 0 <= i < have {
        buf[i] := d[off + i];
      }
      assert buf[..have] == Take(Drop(d, off), len);
      out, count := None, abandoned;
      if have >= need {
        assert buf[..have][..need] == buf[..need];
        out, count := Finish(abandoned);
      }
    }

    /** One frame: the new state, what is delivered and what is counted as lost
        are those of the step function. */
    method Feed(d: bytes, abandoned: nat) returns (out: Option<Message>, count: nat)
      requires Sound()
      modifies this, buf
      ensures Sound()
      ensures count >= abandoned
      ensures Step(Contents(), out, count - abandoned) == Collect.Feed(old(Contents()), d)
    {
      FeedKeepsValid(Contents(), d);
      count := abandoned;
      if |d| < 1 {
        return None, count;
      }
      if active {
        if d[0] == due {
          out, count := Continue(d, abandoned);
          return;
        }
        var lost;
        lost, count := Finish(abandoned);
        assert lost == None;
      }
      out, count := Hook(d, count);
    }

    method Continue(d: bytes, abandoned: nat) returns (out: Option<Message>, count: nat)
      requires Sound() && active && d != [] && d[0] == due
      modifies this, buf
      ensures Sound()
      ensures count >= abandoned
      ensures Step(Contents(), out, count - abandoned) == Collect.Feed(old(Contents()), d)
    {
      ghost var s := Contents();
      FeedKeepsValid(s, d);
      var take := |d| - 1;
      if have + take > MAX_LEN {
        take := MAX_LEN - have;
      }
      ghost var got := buf[..have];
      forall i | 0 <= i < take {
        buf[have + i] := d[1 + i];
      }
      assert buf[..have + take] == Take(got + d[1..], MAX_LEN);
      have := have + take;
      due := if due >= 0x2F then 0x20 else due + 1;
      out, count := None, abandoned;
      if have >= need {
        assert buf[..have][..need] == buf[..need];
        out, count := Finish(abandoned);
      }
    }

    /** Start of a message: 0x21, identifier, then the type byte. */
    method Hook(d: bytes, abandoned: nat) returns (out: Option<Message>, count: nat)
      requires buf.Length == MAX_LEN && !active && d != []
      modifies this, buf
      ensures Sound()
      ensures count >= abandoned
      ensures Step(Contents(), out, count - abandoned) == Collect.Hook(d)
    {
      out, count := None, abandoned;
      if |d| <= 4 || d[0] != 0x21 || d[3] < 0xB0 || d[3] >= 0xC0 {
        return;
      }
      var did' := Word(d[1], d[2]);
      if did' == 0 || did' >= 10000 {
        return;
      }
      var kind: nat := d[3];
      if 0xB1 <= kind <= 0xB4 {
        var len: nat := kind - 0xB0;
        if 4 + len > |d| {
          return;
        }
        return Some(Message(did', d[4..4 + len])), count;
      }
      FeedKeepsValid(Idle, d);
      if kind == 0xB0 {
        var len: nat := d[4];
        var off := 5;
        if d[4] == 0xC1 {
          if |d| < 6 {
            return;
          }
          len, off := d[5], 6;
        }
        if len == 0 || len > MAX_LEN {
          return;
        }
        out, count := Begin(d, did', len, off, abandoned);
        return;
      }
      out, count := Begin(d, did', kind - 0xB0, 4, abandoned);
    }
  }
}
