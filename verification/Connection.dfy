/**
 Record reader and ring as one: datagrams arrive, the version is settled, the read cipher
 changes, and calls for messages take records from the reader one at a time, as they need
 them. What a run hands out is what the ring hands out for the records so taken.
 */
module Connection {
  import opened Common
  import opened Wire
  import opened Receiver
  import opened Delivery
  import opened RecordInput
  import opened EndToEnd
  import opened Progress
  import RecordLayer
  import HandshakeReader
  import Flight

  datatype Link = Link(rd: Reading, ring: State)

  const CONNECTED := Link(BEGIN_READING, Receiver.START)

  datatype Event =
    | Arrives(datagram: seq<byte>)
    | VersionSettled(version: nat)
    | ChangesReadCipher
    | Asks(maxLen: nat, reuse: bool)

  /** The ring under the reader's epoch; a read cipher is installed from the first change. */
  function ConfigOf(rd: Reading, maxLen: nat): Config {
    Config(rd.conn.epoch, rd.conn.epoch != 0, maxLen)
  }

  /** Waiting for the front message with records fetched when the ring runs out of them;
      gives the records fetched. */
  ghost function AwaitOn(keys: Flight.Cipher, cfg: Config, st: State, inbox: seq<Rec>, rd: Reading)
    : (r: (State, Reading, seq<Rec>, Return))
    requires st.WellFormed()
    ensures r.0.WellFormed() && r.1.conn.epoch == rd.conn.epoch
    ensures r.3.Done? ==> r.0.hasCurrent && r.0.CurrentComplete()
    decreases |rd.waiting|, |rd.buffer|
  {
    var (next, rest, ret) := Await(cfg, st, inbox);
    if !ret.Blocked? then (next, rd, [], ret)
    else
      match NextRecord(keys, rd)
      case (after, Stopped(_)) => (next, after, [], Blocked)
      case (after, Handed(rec)) =>
        var (s, d, fetched, end) := AwaitOn(keys, cfg, next, [rec], after);
        (s, d, [rec] + fetched, end)
  }

  /** One call for a message. */
  ghost function Ask(keys: Flight.Cipher, l: Link, maxLen: nat, reuse: bool): (r: (Link, seq<Rec>, Return))
    requires l.ring.WellFormed()
    ensures r.0.ring.WellFormed() && r.0.rd.conn.epoch == l.rd.conn.epoch
    ensures r.2.Done? ==> r.0.ring.hasCurrent && r.0.ring.CurrentComplete()
  {
    var front := if !(reuse && l.ring.hasCurrent) && l.ring.hasCurrent then Release(l.ring) else l.ring;
    var (s, d, fetched, ret) := AwaitOn(keys, ConfigOf(l.rd, maxLen), front, [], l.rd);
    (Link(d, s), fetched, ret)
  }

  /** The call as the ring sees it. */
  ghost function CallOf(keys: Flight.Cipher, l: Link, maxLen: nat, reuse: bool): Call
    requires l.ring.WellFormed()
  {
    Call(ConfigOf(l.rd, maxLen), Ask(keys, l, maxLen, reuse).1, reuse)
  }

  // ----- records one at a time -----------------------------------------------

  /** Processing that runs out of records goes on with those that come later. */
  lemma {:induction false} ProcessBlocked(cfg: Config, st: State, inbox: seq<Rec>, more: seq<Rec>)
    requires st.WellFormed() && ProcessRecord(cfg, st, inbox).2.Blocked?
    ensures var (next, rest, ret) := ProcessRecord(cfg, st, inbox);
            && rest == [] && next.record.data == [] && next.slots == st.slots
            && ProcessRecord(cfg, st, inbox + more) == ProcessRecord(cfg, next, more)
    decreases Pending(st, inbox)
  {
    hide Feed;
    if st.record.data == [] && inbox == [] {
      assert inbox + more == more;
    } else {
      var rec := if st.record.data == [] then inbox[0] else st.record;
      var rest := if st.record.data == [] then inbox[1..] else inbox;
      assert st.record.data == [] ==> (inbox + more)[0] == rec && (inbox + more)[1..] == rest + more;
      ProcessBlocked(cfg, st.(record := rec.(data := [])), rest, more);
    }
  }

  /** Processing that does not leaves the records behind as they are. */
  lemma {:induction false} ProcessGoesOn(cfg: Config, st: State, inbox: seq<Rec>, more: seq<Rec>)
    requires st.WellFormed() && !ProcessRecord(cfg, st, inbox).2.Blocked?
    ensures var (next, rest, ret) := ProcessRecord(cfg, st, inbox);
            |rest| <= |inbox| && ProcessRecord(cfg, st, inbox + more) == (next, rest + more, ret)
    decreases Pending(st, inbox)
  {
    hide Feed;
    var rec := if st.record.data == [] then inbox[0] else st.record;
    var rest := if st.record.data == [] then inbox[1..] else inbox;
    assert st.record.data == [] ==> (inbox + more)[0] == rec && (inbox + more)[1..] == rest + more;
    if OutOfOrder(cfg, rec.typ) {
      ProcessGoesOn(cfg, st.(record := rec.(data := [])), rest, more);
    }
  }

  lemma {:induction false} AwaitBlocked(cfg: Config, st: State, inbox: seq<Rec>, more: seq<Rec>)
    requires st.WellFormed() && Await(cfg, st, inbox).2.Blocked?
    ensures var (next, rest, ret) := Await(cfg, st, inbox);
            && rest == [] && next.record.data == [] && !next.CurrentComplete()
            && Await(cfg, st, inbox + more) == Await(cfg, next, more)
    decreases Pending(st, inbox)
  {
    hide ProcessRecord;
    var (next, rest, ret) := ProcessRecord(cfg, st, inbox);
    if ret.Blocked? {
      ProcessBlocked(cfg, st, inbox, more);
    } else {
      ProcessGoesOn(cfg, st, inbox, more);
      AwaitBlocked(cfg, next, rest, more);
    }
  }

  lemma {:induction false} AwaitUses(cfg: Config, st: State, inbox: seq<Rec>)
    requires st.WellFormed()
    ensures |Await(cfg, st, inbox).1| <= |inbox|
    decreases Pending(st, inbox)
  {
    hide ProcessRecord;
    if !st.CurrentComplete() {
      var (next, rest, ret) := ProcessRecord(cfg, st, inbox);
      if ret.Blocked? {
        ProcessBlocked(cfg, st, inbox, []);
      } else {
        ProcessGoesOn(cfg, st, inbox, []);
        if ret.Done? {
          AwaitUses(cfg, next, rest);
        }
      }
    }
  }

  /** A record fetched because the ring ran out of them is used up. */
  lemma OneIsUsed(cfg: Config, st: State, rec: Rec)
    requires st.WellFormed() && st.record.data == [] && !st.CurrentComplete()
    ensures Await(cfg, st, [rec]).1 == []
  {
    hide Feed, State.CurrentComplete;
    assert [rec][0] == rec && [rec][1..] == [];
    var (next, rest, ret) := ProcessRecord(cfg, st, [rec]);
    if OutOfOrder(cfg, rec.typ) {
      var dropped := st.(record := rec.(data := []));
      assert ProcessRecord(cfg, dropped, []) == (dropped, [], Blocked);
    }
    assert rest == [];
    if ret.Done? {
      AwaitUses(cfg, next, rest);
    }
  }

  /** Fetching one at a time comes to the same as having all of them at the start. */
  lemma {:induction false} AwaitOnIsAwait(keys: Flight.Cipher, cfg: Config, st: State, inbox: seq<Rec>, rd: Reading)
    requires st.WellFormed()
    requires inbox == [] || (|inbox| == 1 && st.record.data == [] && !st.CurrentComplete())
    ensures var (s, d, fetched, ret) := AwaitOn(keys, cfg, st, inbox, rd);
            Await(cfg, st, inbox + fetched) == (s, [], ret)
    decreases |rd.waiting|, |rd.buffer|
  {
    hide Await, State.CurrentComplete, NextRecord;
    var (next, rest, ret) := Await(cfg, st, inbox);
    assert inbox + [] == inbox;
    if !ret.Blocked? {
      if inbox == [] {
        AwaitUses(cfg, st, inbox);
      } else {
        OneIsUsed(cfg, st, inbox[0]);
        assert inbox == [inbox[0]];
      }
    } else {
      var (after, got) := NextRecord(keys, rd);
      var fetched := AwaitOn(keys, cfg, st, inbox, rd).2;
      AwaitBlocked(cfg, st, inbox, fetched);
      if got.Handed? {
        AwaitOnIsAwait(keys, cfg, next, [got.rec], after);
      } else {
        AwaitBlocked(cfg, st, inbox, []);
      }
    }
  }

  lemma AskIsAnswer(keys: Flight.Cipher, l: Link, maxLen: nat, reuse: bool)
    requires l.ring.WellFormed()
    ensures var (next, fetched, ret) := Ask(keys, l, maxLen, reuse);
            Answer(l.ring, [], CallOf(keys, l, maxLen, reuse)) == (next.ring, [], ret)
  {
    hide AwaitOn, Await;
    var front := if !(reuse && l.ring.hasCurrent) && l.ring.hasCurrent then Release(l.ring) else l.ring;
    AwaitOnIsAwait(keys, ConfigOf(l.rd, maxLen), front, [], l.rd);
    assert [] + Ask(keys, l, maxLen, reuse).1 == Ask(keys, l, maxLen, reuse).1;
  }

  /** The call on the heap: the ring is asked, and whenever it has run out of records, the
      packet reader is asked for one more. */
  method GetMessage(h: HandshakeReader.Reader, packets: PacketReader, keys: Flight.Cipher, maxLen: nat, reuse: bool)
    returns (ret: Return, typ: byte, body: seq<byte>)
    requires h.Valid() && Ring(h.View()) && h.inbox == [] && (reuse ==> h.hasCurrent)
    requires h.hasCurrent && !reuse ==> h.readSeq + 1 < SEQ_LIMIT
    requires packets !in h.Repr && packets.records !in h.Repr
    modifies h.Repr, packets, packets.records`bits, packets.records`maxSeqNum, packets.records`alerts
    ensures h.Valid() && fresh(h.Repr - old(h.Repr)) && Ring(h.View()) && h.inbox == []
    ensures var (l, fetched, r) := old(Ask(keys, Link(packets.View(), h.View()), maxLen, reuse));
            Link(packets.View(), h.View()) == l && ret == r
    ensures ret.Done? ==> h.View().CurrentComplete() && Message(typ, body) == MessageIn(h.View())
  {
    hide Await, NextRecord, State.CurrentComplete, HandshakeReader.Reader.Valid, MessageIn;
    ghost var rd, st := packets.View(), h.View();
    var cfg := Config(packets.records.readEpoch, packets.records.readEpoch != 0, maxLen);
    ghost var before := if reuse || !st.hasCurrent then st else Release(st);
    ghost var given: seq<Rec> := [];
    ghost var goal := AwaitOn(keys, cfg, before, [], rd);
    ret, typ, body := h.GetMessage(cfg, reuse);
    AwaitUses(cfg, before, given);
    while ret.Blocked?
      invariant h.Valid() && fresh(h.Repr - old(h.Repr)) && Ring(h.View()) && h.inbox == []
      invariant packets !in h.Repr && packets.records !in h.Repr
      invariant before.WellFormed() && (h.View(), h.inbox, ret) == Await(cfg, before, given)
      invariant SameEnd(goal, AwaitOn(keys, cfg, before, given, packets.View()))
      invariant ret.Done? ==> h.View().CurrentComplete() && Message(typ, body) == MessageIn(h.View())
      decreases |packets.waiting|, |packets.buffer|
    {
      var got := packets.GetRecord(keys);
      if got.Stopped? {
        return;
      }
      BlockedIsWaiting(cfg, before, given);
      before, given := h.View(), [got.rec];
      ret, typ, body := GoOn(h, cfg, got.rec);
    }
  }

  /** The ring, having run out of records, with one more. */
  method GoOn(h: HandshakeReader.Reader, cfg: Config, rec: Rec) returns (ret: Return, typ: byte, body: seq<byte>)
    requires h.Valid() && Ring(h.View()) && Waiting(h.View())
    modifies h.Repr
    ensures h.Valid() && fresh(h.Repr - old(h.Repr)) && Ring(h.View()) && h.inbox == []
    ensures (h.View(), h.inbox, ret) == Await(cfg, old(h.View()), [rec])
    ensures ret.Done? ==> h.View().CurrentComplete() && Message(typ, body) == MessageIn(h.View())
  {
    hide Await, Ring, State.CurrentComplete, HandshakeReader.Reader.Valid, MessageIn;
    ghost var before := h.View();
    h.Queue(rec);
    ret, typ, body := h.GetMessage(cfg, false);
    OneIsUsed(cfg, before, rec);
  }

  /** No message is whole or looked at, and no record is pending. */
  ghost predicate Waiting(st: State)
    requires st.WellFormed()
  {
    !st.hasCurrent && st.record.data == [] && !st.CurrentComplete()
  }

  lemma BlockedIsWaiting(cfg: Config, st: State, inbox: seq<Rec>)
    requires st.WellFormed() && Await(cfg, st, inbox).2.Blocked? && Ring(Await(cfg, st, inbox).0)
    ensures Waiting(Await(cfg, st, inbox).0)
  {
    hide Await, State.CurrentComplete;
    AwaitBlocked(cfg, st, inbox, []);
  }

  /** Alike but for the records fetched. */
  ghost predicate SameEnd(a: (State, Reading, seq<Rec>, Return), b: (State, Reading, seq<Rec>, Return)) {
    a.0 == b.0 && a.1 == b.1 && a.3 == b.3
  }

  // ----- runs ----------------------------------------------------------------

  /** One event, and the message handed out, if any; re-reads are not counted. */
  ghost function Step(keys: Flight.Cipher, l: Link, e: Event): (r: (Link, seq<Message>))
    requires l.ring.WellFormed()
    ensures r.0.ring.WellFormed()
  {
    match e
    case Arrives(d) => (l.(rd := l.rd.(waiting := l.rd.waiting + [d])), [])
    case VersionSettled(v) => (l.(rd := l.rd.(haveVersion := true, version := v)), [])
    case ChangesReadCipher =>
      (if Quiet(l.ring) then l.(rd := ChangedEpoch(l.rd)) else l, [])
    case Asks(maxLen, reuse) =>
      var (next, fetched, ret) := Ask(keys, l, maxLen, reuse);
      (next, if ret.Done? && !(reuse && l.ring.hasCurrent) then [MessageIn(next.ring)] else [])
  }

  function ChangedEpoch(rd: Reading): Reading {
    rd.(conn := RecordLayer.Next(rd.conn, RecordLayer.CipherChange(false)))
  }

  ghost function Out(keys: Flight.Cipher, l: Link, events: seq<Event>): seq<Message>
    requires l.ring.WellFormed()
    decreases |events|
  {
    if events == [] then []
    else
      var (next, out) := Step(keys, l, events[0]);
      out + Out(keys, next, events[1..])
  }

  ghost function LinkAfter(keys: Flight.Cipher, l: Link, events: seq<Event>): (r: Link)
    requires l.ring.WellFormed()
    ensures r.ring.WellFormed()
    decreases |events|
  {
    if events == [] then l else LinkAfter(keys, Step(keys, l, events[0]).0, events[1..])
  }

  /** The calls of a run, each with the records it fetches. */
  ghost function CallsOf(keys: Flight.Cipher, l: Link, events: seq<Event>): seq<Call>
    requires l.ring.WellFormed()
    decreases |events|
  {
    if events == [] then []
    else
      (match events[0]
       case Asks(maxLen, reuse) => [CallOf(keys, l, maxLen, reuse)]
       case _ => [])
      + CallsOf(keys, Step(keys, l, events[0]).0, events[1..])
  }

  /** A run goes on where a first part of it ends. */
  lemma {:induction false} RunGoesOn(keys: Flight.Cipher, l: Link, a: seq<Event>, b: seq<Event>)
    requires l.ring.WellFormed()
    ensures var m := LinkAfter(keys, l, a);
            && LinkAfter(keys, l, a + b) == LinkAfter(keys, m, b)
            && Out(keys, l, a + b) == Out(keys, l, a) + Out(keys, m, b)
            && CallsOf(keys, l, a + b) == CallsOf(keys, l, a) + CallsOf(keys, m, b)
    decreases |a|
  {
    hide Step, CallOf;
    if a == [] {
      assert a + b == b;
    } else {
      assert (a + b)[0] == a[0] && (a + b)[1..] == a[1..] + b;
      RunGoesOn(keys, Step(keys, l, a[0]).0, a[1..], b);
    }
  }

  /** A run hands out what the ring hands out for the records that its calls fetch. */
  lemma {:induction false} RunIsCalls(keys: Flight.Cipher, l: Link, events: seq<Event>)
    requires l.ring.WellFormed()
    ensures Out(keys, l, events) == Delivered(l.ring, [], CallsOf(keys, l, events))
    decreases |events|
  {
    hide Ask, Answer, MessageIn, Quiet, CallOf;
    if events != [] {
      var next := Step(keys, l, events[0]).0;
      RunIsCalls(keys, next, events[1..]);
      match events[0]
      case Asks(maxLen, reuse) =>
        AskIsAnswer(keys, l, maxLen, reuse);
        var c := CallOf(keys, l, maxLen, reuse);
        SameReuse(keys, l, maxLen, reuse);
        assert ([c] + CallsOf(keys, next, events[1..]))[1..] == CallsOf(keys, next, events[1..]);
      case _ =>
        assert [] + CallsOf(keys, next, events[1..]) == CallsOf(keys, next, events[1..]);
    }
  }

  lemma SameReuse(keys: Flight.Cipher, l: Link, maxLen: nat, reuse: bool)
    requires l.ring.WellFormed()
    ensures CallOf(keys, l, maxLen, reuse).reuse == reuse
  {}

  // ----- calls that fail -----------------------------------------------------

  ghost predicate NoCallFails(keys: Flight.Cipher, l: Link, events: seq<Event>)
    requires l.ring.WellFormed()
    decreases |events|
  {
    events != [] ==>
      && (events[0].Asks? ==> !Ask(keys, l, events[0].maxLen, events[0].reuse).2.Failed?)
      && NoCallFails(keys, Step(keys, l, events[0]).0, events[1..])
  }

  lemma {:induction false} CallsDoNotFail(keys: Flight.Cipher, l: Link, events: seq<Event>)
    requires l.ring.WellFormed()
    ensures NoCallFails(keys, l, events) <==> NoneFails(l.ring, [], CallsOf(keys, l, events))
    decreases |events|
  {
    hide Ask, Answer, MessageIn, Quiet, CallOf;
    if events != [] {
      var next := Step(keys, l, events[0]).0;
      CallsDoNotFail(keys, next, events[1..]);
      match events[0]
      case Asks(maxLen, reuse) =>
        AskIsAnswer(keys, l, maxLen, reuse);
        var c := CallOf(keys, l, maxLen, reuse);
        assert ([c] + CallsOf(keys, next, events[1..]))[1..] == CallsOf(keys, next, events[1..]);
      case _ =>
        assert [] + CallsOf(keys, next, events[1..]) == CallsOf(keys, next, events[1..]);
    }
  }

  lemma {:induction false} ProcessSettles(cfg: Config, st: State, inbox: seq<Rec>)
    requires st.WellFormed() && !ProcessRecord(cfg, st, inbox).2.Failed?
    ensures ProcessRecord(cfg, st, inbox).0.record.data == []
    decreases Pending(st, inbox)
  {
    hide Feed;
    if st.record.data != [] || inbox != [] {
      var rec := if st.record.data == [] then inbox[0] else st.record;
      var rest := if st.record.data == [] then inbox[1..] else inbox;
      if OutOfOrder(cfg, rec.typ) {
        ProcessSettles(cfg, st.(record := rec.(data := [])), rest);
      }
    }
  }

  lemma {:induction false} AwaitSettles(cfg: Config, st: State, inbox: seq<Rec>)
    requires st.WellFormed() && st.record.data == [] && !Await(cfg, st, inbox).2.Failed?
    ensures Await(cfg, st, inbox).0.record.data == []
    decreases Pending(st, inbox)
  {
    hide ProcessRecord;
    if !st.CurrentComplete() {
      var (next, rest, ret) := ProcessRecord(cfg, st, inbox);
      if !ret.Failed? {
        ProcessSettles(cfg, st, inbox);
      }
      if ret.Done? {
        AwaitSettles(cfg, next, rest);
      }
    }
  }

  /** A call that does not fail leaves no record pending. */
  lemma AskSettles(keys: Flight.Cipher, l: Link, maxLen: nat, reuse: bool)
    requires l.ring.WellFormed() && l.ring.record.data == [] && !Ask(keys, l, maxLen, reuse).2.Failed?
    ensures Ask(keys, l, maxLen, reuse).0.ring.record.data == []
  {
    hide AwaitOn, Await;
    AskIsAnswer(keys, l, maxLen, reuse);
    var c := CallOf(keys, l, maxLen, reuse);
    AwaitSettles(c.cfg, if !Rereads(l.ring, c) && l.ring.hasCurrent then Release(l.ring) else l.ring, [] + c.arrivals);
  }

  // ----- only what was sent --------------------------------------------------

  lemma {:induction false} FetchedIsOffTheWire(sent: seq<Message>, keys: Flight.Cipher, emissions: seq<Emission>,
                                               cfg: Config, st: State, inbox: seq<Rec>, rd: Reading)
    requires st.WellFormed() && FromWire(sent, keys, emissions, rd)
    ensures var (s, d, fetched, ret) := AwaitOn(keys, cfg, st, inbox, rd);
            FromWire(sent, keys, emissions, d) && forall r :: r in fetched ==> OffTheWire(sent, emissions, r)
    decreases |rd.waiting|, |rd.buffer|
  {
    hide Await, NextRecord, OffTheWire, FromWire;
    var (next, rest, ret) := Await(cfg, st, inbox);
    if ret.Blocked? {
      HandedIsOffTheWire(sent, keys, emissions, rd);
      var (after, got) := NextRecord(keys, rd);
      if got.Handed? {
        FetchedIsOffTheWire(sent, keys, emissions, cfg, next, [got.rec], after);
      }
    }
  }

  /** Every datagram of the run was sent by one of the flushes. */
  ghost predicate OnlySent(sent: seq<Message>, keys: Flight.Cipher, emissions: seq<Emission>, events: seq<Event>) {
    forall e :: e in events && e.Arrives? ==> WasSent(sent, keys, emissions, e.datagram)
  }

  lemma {:induction false} CallsAreOffTheWire(sent: seq<Message>, keys: Flight.Cipher, emissions: seq<Emission>,
                                              l: Link, events: seq<Event>)
    requires l.ring.WellFormed() && FromWire(sent, keys, emissions, l.rd) && OnlySent(sent, keys, emissions, events)
    ensures forall c, r :: c in CallsOf(keys, l, events) && r in c.arrivals ==> OffTheWire(sent, emissions, r)
    decreases |events|
  {
    hide AwaitOn, OffTheWire, WasSent, RestOfPacket, Quiet, MessageIn;
    if events != [] {
      var e := events[0];
      assert e in events;
      var next := Step(keys, l, e).0;
      match e {
        case Asks(maxLen, reuse) =>
          var front := if !(reuse && l.ring.hasCurrent) && l.ring.hasCurrent then Release(l.ring) else l.ring;
          FetchedIsOffTheWire(sent, keys, emissions, ConfigOf(l.rd, maxLen), front, [], l.rd);
        case _ =>
      }
      CallsAreOffTheWire(sent, keys, emissions, next, events[1..]);
    }
  }

  /** End to end. Flights of the sent messages are flushed at any MTUs, with failed writes
      and retransmissions; the network drops, repeats and reorders the packets; the peer
      takes record after record out of them, through its version, epoch and replay checks,
      while the version is settled and the read cipher changes at any time, in the middle of
      a datagram too. Whatever it asks for and when, the messages handed out are a prefix of
      the messages sent. */
  lemma NetworkDeliversPrefix(sent: seq<Message>, keys: Flight.Cipher, emissions: seq<Emission>, events: seq<Event>)
    requires |sent| < SEQ_LIMIT && OnlySent(sent, keys, emissions, events)
    ensures Out(keys, CONNECTED, events) <= sent
  {
    hide OffTheWire, OnlySent, Out, CallsOf, Delivered;
    CallsAreOffTheWire(sent, keys, emissions, CONNECTED, events);
    RunIsCalls(keys, CONNECTED, events);
    OpenedRecordsDeliverPrefix(sent, emissions, CallsOf(keys, CONNECTED, events));
  }
}
