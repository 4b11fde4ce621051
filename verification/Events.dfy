/** The decode sink's event stream: one walk serves both output modes. */
module Events {
  import opened Wrappers
  import opened Json

  datatype Event = ObjBegin | ObjEnd | ArrBegin | ArrEnd | Key(key: string) | Leaf(val: Value)

  predicate IsScalar(v: Value) {
    !v.VArr? && !v.VObj?
  }

  /** The events that denote a value. */
  function EventsOf(v: Value): (es: seq<Event>)
    ensures es != []
    decreases v, 0
  {
    match v
    case VObj(ms) => [ObjBegin] + MemberEvents(ms) + [ObjEnd]
    case VArr(xs) => [ArrBegin] + ItemEvents(xs) + [ArrEnd]
    case _ => [Leaf(v)]
  }

  function MemberEvents(ms: seq<Member>): seq<Event>
    decreases ms, 0
  {
    if ms == [] then [] else [Key(ms[0].key)] + EventsOf(ms[0].val) + MemberEvents(ms[1..])
  }

  function ItemEvents(xs: seq<Value>): seq<Event>
    decreases xs, 0
  {
    if xs == [] then [] else EventsOf(xs[0]) + ItemEvents(xs[1..])
  }

  // ---- reading a stream back ----

  /** One value off the front of a stream, with what follows it. */
  function Read(es: seq<Event>): (r: Option<(Value, seq<Event>)>)
    ensures r.Some? ==> |r.value.1| < |es|
    decreases |es|, 0
  {
    if es == [] then None
    else match es[0]
      case Leaf(v) => Some((v, es[1..]))
      case ObjBegin =>
        (match ReadMembers(es[1..])
         case None => None
         case Some(p) => Some((VObj(p.0), p.1)))
      case ArrBegin =>
        (match ReadItems(es[1..])
         case None => None
         case Some(p) => Some((VArr(p.0), p.1)))
      case _ => None
  }

  /** Members up to and including the closing brace. */
  function ReadMembers(es: seq<Event>): (r: Option<(seq<Member>, seq<Event>)>)
    ensures r.Some? ==> |r.value.1| < |es|
    decreases |es|, 1
  {
    if es == [] then None
    else if es[0] == ObjEnd then Some(([], es[1..]))
    else if !es[0].Key? then None
    else match Read(es[1..])
      case None => None
      case Some(p) =>
        match ReadMembers(p.1)
        case None => None
        case Some(q) => Some(([Member(es[0].key, p.0)] + q.0, q.1))
  }

  function ReadItems(es: seq<Event>): (r: Option<(seq<Value>, seq<Event>)>)
    ensures r.Some? ==> |r.value.1| < |es|
    decreases |es|, 1
  {
    if es == [] then None
    else if es[0] == ArrEnd then Some(([], es[1..]))
    else match Read(es)
      case None => None
      case Some(p) =>
        match ReadItems(p.1)
        case None => None
        case Some(q) => Some(([p.0] + q.0, q.1))
  }

  /** A stream is balanced and denotes exactly one value. */
  lemma {:induction false} ReadBack(v: Value, rest: seq<Event>)
    ensures Read(EventsOf(v) + rest) == Some((v, rest))
    decreases v, 1
  {
    match v {
      case VObj(ms) =>
        assert (EventsOf(v) + rest)[1..] == MemberEvents(ms) + ([ObjEnd] + rest);
        ReadMembersBack(ms, rest);
      case VArr(xs) =>
        assert (EventsOf(v) + rest)[1..] == ItemEvents(xs) + ([ArrEnd] + rest);
        ReadItemsBack(xs, rest);
      case _ =>
        assert (EventsOf(v) + rest)[1..] == rest;
    }
  }

  lemma ReadMembersStep(es: seq<Event>, key: string, body: seq<Event>, v: Value, tail: seq<Event>)
    requires es == [Key(key)] + body && Read(body) == Some((v, tail))
    ensures var q := ReadMembers(tail);
      ReadMembers(es) == if q.None? then None else Some(([Member(key, v)] + q.value.0, q.value.1))
  {
    hide Read;
    assert es[1..] == body;
  }

  lemma MembersFront(ms: seq<Member>)
    requires ms != []
    ensures MemberEvents(ms) == [Key(ms[0].key)] + EventsOf(ms[0].val) + MemberEvents(ms[1..])
  {
  }

  lemma {:induction false} ReadMembersBack(ms: seq<Member>, rest: seq<Event>)
    ensures ReadMembers(MemberEvents(ms) + ([ObjEnd] + rest)) == Some((ms, rest))
    decreases ms, 0
  {
    if ms == [] {
      assert MemberEvents(ms) + ([ObjEnd] + rest) == [ObjEnd] + rest;
      assert ([ObjEnd] + rest)[1..] == rest;
    } else {
      var tail := MemberEvents(ms[1..]) + ([ObjEnd] + rest);
      var es := MemberEvents(ms) + ([ObjEnd] + rest);
      hide EventsOf, MemberEvents, Read, ReadMembers;
      MembersFront(ms);
      assert es == [Key(ms[0].key)] + (EventsOf(ms[0].val) + tail);
      assert es[1..] == EventsOf(ms[0].val) + tail;
      ReadBack(ms[0].val, tail);
      ReadMembersBack(ms[1..], rest);
      ReadMembersStep(es, ms[0].key, EventsOf(ms[0].val) + tail, ms[0].val, tail);
      assert ms == [Member(ms[0].key, ms[0].val)] + ms[1..];
    }
  }

  lemma {:induction false} ReadItemsBack(xs: seq<Value>, rest: seq<Event>)
    ensures ReadItems(ItemEvents(xs) + ([ArrEnd] + rest)) == Some((xs, rest))
    decreases xs, 0
  {
    if xs == [] {
      assert ItemEvents(xs) + ([ArrEnd] + rest) == [ArrEnd] + rest;
      assert ([ArrEnd] + rest)[1..] == rest;
    } else {
      var tail := ItemEvents(xs[1..]) + ([ArrEnd] + rest);
      var es := ItemEvents(xs) + ([ArrEnd] + rest);
      assert es == EventsOf(xs[0]) + tail;
      ReadBack(xs[0], tail);
      ReadItemsBack(xs[1..], rest);
      FirstEvent(xs[0]);
      assert xs == [xs[0]] + xs[1..];
    }
  }

  lemma FirstEvent(v: Value)
    ensures EventsOf(v)[0] != ArrEnd
  {
  }

  /** Where the events go: the C code calls back, the model records. */
  class Sink {
    var events: seq<Event>

    constructor ()
      ensures events == []
    {
      events := [];
    }

    method Emit(e: Event)
      modifies this
      ensures events == old(events) + [e]
    {
      events := events + [e];
    }
  }
}
