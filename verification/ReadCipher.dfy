/**
 Why a change of the read cipher is refused while messages are buffered: without that,
 bytes that arrived under one cipher could be part of a message handed out under the
 next. With it, all of a message came in records that opened under one cipher.
 */
module ReadCipher {
  import opened Common
  import opened Wire
  import opened HandshakeWire
  import opened Reassembly
  import opened Receiver
  import opened Delivery
  import opened RecordInput
  import opened Connection
  import RecordLayer
  import HandshakeReader
  import Flight

  // ----- where a byte came from ----------------------------------------------

  /** The record brings byte b as number j of message q. */
  ghost predicate Brings(r: Rec, q: nat, j: nat, b: byte) {
    && r.typ == RT_HANDSHAKE
    && exists f :: f in Fragments(r.data) && Covers(f, q, j) && f.body[j - f.offset] == b
  }

  ghost predicate CameIn(recs: seq<Rec>, q: nat, j: nat, b: byte) {
    exists r :: r in recs && Brings(r, q, j, b)
  }

  /** Every byte the message has so far came in one of the records. */
  ghost predicate SlotCameIn(recs: seq<Rec>, s: Slot) {
    forall j: nat :: j < |s.body| && j in s.covered ==> CameIn(recs, s.seqNo, j, s.body[j])
  }

  /** So it is for every message of the ring, but for the current one when told so. */
  ghost predicate RingCameIn(recs: seq<Rec>, st: State, butCurrent: bool)
    requires st.WellFormed()
  {
    forall i :: 0 <= i < MAX_FLIGHT && st.slots[i].Some? && !(butCurrent && i == st.readSeq % MAX_FLIGHT) ==>
      SlotCameIn(recs, st.slots[i].value)
  }

  /** The pending record and the queue are among the records. */
  ghost predicate QueueIsAmong(recs: seq<Rec>, st: State, inbox: seq<Rec>) {
    && (st.record.data != [] ==> st.record in recs)
    && (forall r :: r in inbox ==> r in recs)
  }

  lemma AbsorbCameIn(recs: seq<Rec>, s: Slot, f: Fragment, r: Rec)
    requires SlotCameIn(recs, s) && s.seqNo == f.seqNo && f.offset + |f.body| <= |s.body|
    requires r in recs && r.typ == RT_HANDSHAKE && f in Fragments(r.data)
    ensures SlotCameIn(recs, Absorb(s, f))
  {
    hide CameIn, Fragments;
    var after := Absorb(s, f);
    forall j: nat | j < |after.body| && j in after.covered
      ensures CameIn(recs, after.seqNo, j, after.body[j])
    {
      if !s.Complete() && f.offset <= j < f.offset + |f.body| {
        assert after.body[j] == f.body[j - f.offset];
        BroughtBy(recs, r, f, j);
      }
    }
  }

  lemma BroughtBy(recs: seq<Rec>, r: Rec, f: Fragment, j: nat)
    requires r in recs && r.typ == RT_HANDSHAKE && f in Fragments(r.data) && Covers(f, f.seqNo, j)
    ensures CameIn(recs, f.seqNo, j, f.body[j - f.offset])
  {
    assert Brings(r, f.seqNo, j, f.body[j - f.offset]);
  }

  lemma TakeFragmentCameIn(cfg: Config, recs: seq<Rec>, st: State, f: Fragment, r: Rec, butCurrent: bool)
    requires Ring(st) && RingCameIn(recs, st, butCurrent) && TakeFragment(cfg, st, f).Some?
    requires r in recs && r.typ == RT_HANDSHAKE && f in Fragments(r.data)
    ensures RingCameIn(recs, TakeFragment(cfg, st, f).value, butCurrent)
  {
    hide Absorb, SlotCameIn, Fragments;
    if !Ignored(st, f) {
      SlotHasFragmentSeq(st, f);
      var s := SlotFor(st, f).value;
      var i := f.seqNo % MAX_FLIGHT;
      if !(butCurrent && i == st.readSeq % MAX_FLIGHT) {
        if st.slots[i].None? {
          NothingCameYet(recs, f);
        }
        AbsorbCameIn(recs, s, f, r);
      }
    }
  }

  lemma NothingCameYet(recs: seq<Rec>, f: Fragment)
    ensures SlotCameIn(recs, NewSlot(f))
  {}

  lemma {:induction false} FeedCameIn(cfg: Config, recs: seq<Rec>, st: State, payload: seq<byte>, r: Rec,
                                      butCurrent: bool)
    requires Ring(st) && RingCameIn(recs, st, butCurrent)
    requires r in recs && r.typ == RT_HANDSHAKE && forall f :: f in Fragments(payload) ==> f in Fragments(r.data)
    ensures RingCameIn(recs, Feed(cfg, st, payload).0, butCurrent)
    decreases |payload|
  {
    hide Parse, TakeFragment, SlotCameIn;
    if payload != [] && Parse(payload).Some? {
      var (f, rest) := Parse(payload).value;
      if TakeFragment(cfg, st, f).Some? {
        assert f in Fragments(payload);
        TakeFragmentKeepsRing(cfg, st, f);
        TakeFragmentCameIn(cfg, recs, st, f, r, butCurrent);
        FeedCameIn(cfg, recs, TakeFragment(cfg, st, f).value, rest, r, butCurrent);
      }
    }
  }

  lemma {:induction false} ProcessRecordCameIn(cfg: Config, recs: seq<Rec>, st: State, inbox: seq<Rec>,
                                               butCurrent: bool)
    requires Ring(st) && RingCameIn(recs, st, butCurrent) && QueueIsAmong(recs, st, inbox)
    ensures var (next, rest, ret) := ProcessRecord(cfg, st, inbox);
            RingCameIn(recs, next, butCurrent) && QueueIsAmong(recs, next, rest)
    decreases Pending(st, inbox)
  {
    hide Feed, SlotCameIn;
    if st.record.data != [] || inbox != [] {
      var rec := if st.record.data == [] then inbox[0] else st.record;
      var rest := if st.record.data == [] then inbox[1..] else inbox;
      assert rec in recs;
      if OutOfOrder(cfg, rec.typ) {
        ProcessRecordCameIn(cfg, recs, st.(record := rec.(data := [])), rest, butCurrent);
      } else if rec.typ == RT_HANDSHAKE {
        FeedCameIn(cfg, recs, st.(record := rec), rec.data, rec, butCurrent);
      }
    }
  }

  lemma {:induction false} AwaitCameIn(cfg: Config, recs: seq<Rec>, st: State, inbox: seq<Rec>, butCurrent: bool)
    requires Ring(st) && RingCameIn(recs, st, butCurrent) && QueueIsAmong(recs, st, inbox)
    ensures var (next, rest, ret) := Await(cfg, st, inbox);
            RingCameIn(recs, next, butCurrent) && QueueIsAmong(recs, next, rest)
    decreases Pending(st, inbox)
  {
    hide ProcessRecord, SlotCameIn, State.CurrentComplete;
    if !st.CurrentComplete() {
      ProcessRecordKeepsRing(cfg, st, inbox);
      ProcessRecordCameIn(cfg, recs, st, inbox, butCurrent);
      var (next, rest, ret) := ProcessRecord(cfg, st, inbox);
      if ret.Done? {
        AwaitCameIn(cfg, recs, next, rest, butCurrent);
      }
    }
  }

  /** A message handed out by one call, and what the ring holds after it. */
  lemma AnswerCameIn(recs: seq<Rec>, st: State, inbox: seq<Rec>, c: Call)
    requires Ring(st) && HandedOut(st) < SEQ_LIMIT
    requires RingCameIn(recs, st, st.hasCurrent) && QueueIsAmong(recs, st, inbox + c.arrivals)
    ensures var (next, rest, ret) := Answer(st, inbox, c);
            && RingCameIn(recs, next, next.hasCurrent) && QueueIsAmong(recs, next, rest)
            && (ret.Done? && !Rereads(st, c) ==> BytesCameIn(recs, HandedOut(st), MessageIn(next)))
  {
    hide Await, SlotCameIn, State.CurrentComplete;
    var queue := inbox + c.arrivals;
    if Rereads(st, c) {
      RereadIsImmediate(c.cfg, st, queue);
    } else {
      var front := if st.hasCurrent then Release(st) else st;
      if st.hasCurrent {
        ReleaseKeepsRing(st);
      }
      AwaitCameIn(c.cfg, recs, front, queue, false);
      AwaitKeepsRing(c.cfg, front, queue);
      var (next, rest, ret) := Answer(st, inbox, c);
      if ret.Done? {
        CurrentCameIn(recs, next);
      }
    }
  }

  /** Every byte of message q came in one of the records. */
  ghost predicate BytesCameIn(recs: seq<Rec>, q: nat, m: Message) {
    forall j: nat :: j < |m.body| ==> CameIn(recs, q, j, m.body[j])
  }

  lemma CurrentCameIn(recs: seq<Rec>, st: State)
    requires Ring(st) && st.CurrentComplete() && RingCameIn(recs, st, false)
    ensures BytesCameIn(recs, st.readSeq, MessageIn(st))
  {
    hide CameIn;
    CurrentHasReadSeq(st);
    assert SlotCameIn(recs, st.Current().value);
  }

  // ----- whole runs ----------------------------------------------------------

  lemma {:induction false} RunCameIn(recs: seq<Rec>, st: State, inbox: seq<Rec>, calls: seq<Call>)
    requires Ring(st) && HandedOut(st) + |Delivered(st, inbox, calls)| < SEQ_LIMIT
    requires RingCameIn(recs, st, st.hasCurrent) && QueueIsAmong(recs, st, inbox)
    requires forall c, r :: c in calls && r in c.arrivals ==> r in recs
    ensures forall k: nat :: k < |Delivered(st, inbox, calls)| ==>
              BytesCameIn(recs, HandedOut(st) + k, Delivered(st, inbox, calls)[k])
    decreases |calls|
  {
    hide Answer, MessageIn, RingCameIn, BytesCameIn;
    if calls != [] {
      assert calls[0] in calls;
      AnswerCameIn(recs, st, inbox, calls[0]);
      AnswerKeepsRing(st, inbox, calls[0]);
      var (next, rest, ret) := Answer(st, inbox, calls[0]);
      RunCameIn(recs, next, rest, calls[1..]);
    }
  }

  /** From a ring with nothing buffered beyond the current message and no pending record,
      whatever the records hold: every byte handed out later came in a record that arrived
      later, as that byte of that message. */
  lemma LaterBytesCameLater(st: State, calls: seq<Call>)
    requires Ring(st) && Quiet(st) && st.record.data == []
    requires HandedOut(st) + |Delivered(st, [], calls)| < SEQ_LIMIT
    ensures forall k: nat :: k < |Delivered(st, [], calls)| ==>
              BytesCameIn(Arrivals(calls), HandedOut(st) + k, Delivered(st, [], calls)[k])
  {
    hide Delivered, BytesCameIn, SlotCameIn;
    ArrivalsAll(calls);
    RunCameIn(Arrivals(calls), st, [], calls);
  }

  /** With a later message buffered and whole, its bytes are handed out although no record
      arrives any more. */
  lemma BufferedBytesCameBefore(st: State, cfg: Config)
    requires Ring(st) && !st.hasCurrent && st.CurrentComplete()
    ensures !Quiet(st)
    ensures Delivered(st, [], [Call(cfg, [], false)]) == [MessageIn(st)]
  {
    hide State.CurrentComplete;
    var c := Call(cfg, [], false);
    assert st.slots[st.readSeq % MAX_FLIGHT].Some? by { CurrentIsHeld(st); }
    assert [c][1..] == [];
    NoCalls(st.(hasCurrent := true), []);
    assert [] + c.arrivals == [];
    AtOnce(cfg, st);
    SameMessage(st);
  }

  lemma AtOnce(cfg: Config, st: State)
    requires st.WellFormed() && st.CurrentComplete()
    ensures Await(cfg, st, []) == (st.(hasCurrent := true), [], Done)
  {}

  lemma NoCalls(st: State, inbox: seq<Rec>)
    requires st.WellFormed()
    ensures Delivered(st, inbox, []) == []
  {}

  lemma CurrentIsHeld(st: State)
    requires st.WellFormed() && st.CurrentComplete()
    ensures st.slots[st.readSeq % MAX_FLIGHT].Some?
  {}

  lemma SameMessage(st: State)
    requires st.WellFormed() && st.CurrentComplete()
    ensures st.(hasCurrent := true).CurrentComplete() && MessageIn(st.(hasCurrent := true)) == MessageIn(st)
  {}

  // ----- across the record layer ---------------------------------------------

  /** The record opened from one of the datagrams, under the cipher of the epoch. */
  ghost predicate Opened(keys: Flight.Cipher, epoch: nat, datagrams: seq<seq<byte>>, r: Rec) {
    exists d :: d in datagrams && OpenedFrom(keys, epoch, d, r)
  }

  /** Byte b of message q came in a handshake record so opened. */
  ghost predicate Authentic(keys: Flight.Cipher, epoch: nat, datagrams: seq<seq<byte>>, q: nat, j: nat, b: byte) {
    exists r :: Opened(keys, epoch, datagrams, r) && Brings(r, q, j, b)
  }

  lemma {:induction false} FetchedIsOpened(keys: Flight.Cipher, cfg: Config, st: State, inbox: seq<Rec>, rd: Reading,
                                           datagrams: seq<seq<byte>>)
    requires st.WellFormed() && ReadsFrom(rd, datagrams)
    ensures var (s, d, fetched, ret) := AwaitOn(keys, cfg, st, inbox, rd);
            ReadsFrom(d, datagrams) && forall r :: r in fetched ==> Opened(keys, rd.conn.epoch, datagrams, r)
    decreases |rd.waiting|, |rd.buffer|
  {
    hide Await, NextRecord, OpenedFrom, ReadsFrom;
    var (next, rest, ret) := Await(cfg, st, inbox);
    if ret.Blocked? {
      HandedIsOpened(keys, rd, datagrams);
      var (after, got) := NextRecord(keys, rd);
      if got.Handed? {
        FetchedIsOpened(keys, cfg, next, [got.rec], after, datagrams);
      }
    }
  }

  /** Records that opened in the current epoch account for all that is buffered. */
  ghost predicate Sourced(keys: Flight.Cipher, l: Link, datagrams: seq<seq<byte>>, recs: seq<Rec>) {
    && Ring(l.ring) && RingCameIn(recs, l.ring, l.ring.hasCurrent) && QueueIsAmong(recs, l.ring, [])
    && ReadsFrom(l.rd, datagrams)
    && forall r :: r in recs ==> Opened(keys, l.rd.conn.epoch, datagrams, r)
  }

  lemma MoreRecords(a: seq<Rec>, b: seq<Rec>, st: State)
    requires st.WellFormed() && RingCameIn(a, st, st.hasCurrent) && QueueIsAmong(a, st, [])
    ensures RingCameIn(a + b, st, st.hasCurrent) && QueueIsAmong(a + b, st, b)
  {
    hide Brings;
    forall i | 0 <= i < MAX_FLIGHT && st.slots[i].Some? && !(st.hasCurrent && i == st.readSeq % MAX_FLIGHT)
      ensures SlotCameIn(a + b, st.slots[i].value)
    {
      assert SlotCameIn(a, st.slots[i].value);
    }
  }

  /** One call: what it hands out came in records of the current epoch, which go on to
      account for the ring. */
  lemma AskIsSourced(keys: Flight.Cipher, l: Link, maxLen: nat, reuse: bool, datagrams: seq<seq<byte>>, recs: seq<Rec>)
    requires Sourced(keys, l, datagrams, recs) && HandedOut(l.ring) < SEQ_LIMIT
    ensures var (next, fetched, ret) := Ask(keys, l, maxLen, reuse);
            && Sourced(keys, next, datagrams, recs + fetched)
            && (if ret.Done? && !(reuse && l.ring.hasCurrent) then
                  HandedOut(next.ring) == HandedOut(l.ring) + 1
                  && BytesCameIn(recs + fetched, HandedOut(l.ring), MessageIn(next.ring))
                else HandedOut(next.ring) == HandedOut(l.ring))
  {
    hide AwaitOn, Answer, RingCameIn, BytesCameIn, Ring, ReadsFrom, Opened, MessageIn;
    RingIsWellFormed(l.ring);
    var front := if !(reuse && l.ring.hasCurrent) && l.ring.hasCurrent then Release(l.ring) else l.ring;
    FetchedIsOpened(keys, ConfigOf(l.rd, maxLen), front, [], l.rd, datagrams);
    var (next, fetched, ret) := Ask(keys, l, maxLen, reuse);
    var c := CallOf(keys, l, maxLen, reuse);
    AskIsAnswer(keys, l, maxLen, reuse);
    MoreRecords(recs, fetched, l.ring);
    assert [] + c.arrivals == fetched;
    AnswerCameIn(recs + fetched, l.ring, [], c);
    AnswerKeepsRing(l.ring, [], c);
  }

  lemma RingIsWellFormed(st: State)
    requires Ring(st)
    ensures st.WellFormed()
  {}

  // ----- whole runs ----------------------------------------------------------

  /** The cipher changes only when no record is pending. */
  ghost predicate Settled(keys: Flight.Cipher, l: Link, events: seq<Event>)
    requires l.ring.WellFormed()
    decreases |events|
  {
    events != [] ==>
      && (events[0].ChangesReadCipher? ==> l.ring.record.data == [])
      && Settled(keys, Step(keys, l, events[0]).0, events[1..])
  }

  /** The read epoch at which each message of a run is handed out. */
  ghost function EpochsOf(keys: Flight.Cipher, l: Link, events: seq<Event>): seq<nat>
    requires l.ring.WellFormed()
    decreases |events|
  {
    if events == [] then []
    else
      var (next, out) := Step(keys, l, events[0]);
      (if out == [] then [] else [l.rd.conn.epoch]) + EpochsOf(keys, next, events[1..])
  }

  function Datagrams(events: seq<Event>): seq<seq<byte>> {
    if events == [] then []
    else (if events[0].Arrives? then [events[0].datagram] else []) + Datagrams(events[1..])
  }

  lemma BytesAreAuthentic(keys: Flight.Cipher, epoch: nat, datagrams: seq<seq<byte>>, recs: seq<Rec>, q: nat,
                          m: Message)
    requires BytesCameIn(recs, q, m) && forall r :: r in recs ==> Opened(keys, epoch, datagrams, r)
    ensures AllAuthentic(keys, epoch, datagrams, q, m)
  {
    hide Opened, Brings;
    forall j: nat | j < |m.body|
      ensures Authentic(keys, epoch, datagrams, q, j, m.body[j])
    {
      assert CameIn(recs, q, j, m.body[j]);
    }
  }

  ghost predicate AllAuthentic(keys: Flight.Cipher, epoch: nat, datagrams: seq<seq<byte>>, q: nat, m: Message) {
    forall j: nat :: j < |m.body| ==> Authentic(keys, epoch, datagrams, q, j, m.body[j])
  }

  /** Messages from the first-th on, each authentic in the epoch given for it. */
  ghost predicate OutIsAuthentic(keys: Flight.Cipher, datagrams: seq<seq<byte>>, epochs: seq<nat>, first: nat,
                                 out: seq<Message>) {
    && |epochs| == |out|
    && forall k: nat :: k < |out| ==> AllAuthentic(keys, epochs[k], datagrams, first + k, out[k])
  }

  lemma OneMoreIsAuthentic(keys: Flight.Cipher, datagrams: seq<seq<byte>>, epoch: nat, epochs: seq<nat>, first: nat,
                           m: Message, out: seq<Message>)
    requires AllAuthentic(keys, epoch, datagrams, first, m)
    requires OutIsAuthentic(keys, datagrams, epochs, first + 1, out)
    ensures OutIsAuthentic(keys, datagrams, [epoch] + epochs, first, [m] + out)
  {
    hide AllAuthentic;
    forall k: nat | k < |[m] + out|
      ensures AllAuthentic(keys, ([epoch] + epochs)[k], datagrams, first + k, ([m] + out)[k])
    {
      if k > 0 {
        assert AllAuthentic(keys, epochs[k - 1], datagrams, first + 1 + (k - 1), out[k - 1]);
      }
    }
  }

  lemma NoneIsAuthentic(keys: Flight.Cipher, datagrams: seq<seq<byte>>, first: nat)
    ensures OutIsAuthentic(keys, datagrams, [], first, [])
  {}

  lemma {:induction false} RunIsAuthentic(keys: Flight.Cipher, l: Link, events: seq<Event>, datagrams: seq<seq<byte>>,
                                          recs: seq<Rec>)
    requires Sourced(keys, l, datagrams, recs) && Settled(keys, l, events)
    requires HandedOut(l.ring) + |Out(keys, l, events)| < SEQ_LIMIT
    requires forall e :: e in events && e.Arrives? ==> e.datagram in datagrams
    ensures OutIsAuthentic(keys, datagrams, EpochsOf(keys, l, events), HandedOut(l.ring), Out(keys, l, events))
    decreases |events|
  {
    hide Ask, RingCameIn, BytesCameIn, Ring, Opened, MessageIn, OutIsAuthentic, AllAuthentic, Records, Quiet;
    RingIsWellFormed(l.ring);
    if events == [] {
      NoneIsAuthentic(keys, datagrams, HandedOut(l.ring));
    } else {
      var e := events[0];
      assert e in events;
      var (next, out) := Step(keys, l, e);
      assert [] + Out(keys, next, events[1..]) == Out(keys, next, events[1..]);
      assert [] + EpochsOf(keys, next, events[1..]) == EpochsOf(keys, next, events[1..]);
      match e {
        case Asks(maxLen, reuse) =>
          AskIsSourced(keys, l, maxLen, reuse, datagrams, recs);
          var fetched := Ask(keys, l, maxLen, reuse).1;
          if out != [] {
            BytesAreAuthentic(keys, l.rd.conn.epoch, datagrams, recs + fetched, HandedOut(l.ring), out[0]);
          }
          RunIsAuthentic(keys, next, events[1..], datagrams, recs + fetched);
          if out != [] {
            assert out == [out[0]];
            OneMoreIsAuthentic(keys, datagrams, l.rd.conn.epoch, EpochsOf(keys, next, events[1..]),
                               HandedOut(l.ring), out[0], Out(keys, next, events[1..]));
          }
        case ChangesReadCipher =>
          if Quiet(l.ring) {
            QuietCameIn([], l.ring);
            RunIsAuthentic(keys, next, events[1..], datagrams, []);
          } else {
            RunIsAuthentic(keys, next, events[1..], datagrams, recs);
          }
        case _ =>
          RunIsAuthentic(keys, next, events[1..], datagrams, recs);
      }
    }
  }

  lemma QuietCameIn(recs: seq<Rec>, st: State)
    requires st.WellFormed() && Quiet(st)
    ensures RingCameIn(recs, st, st.hasCurrent)
  {}

  lemma {:induction false} DatagramsAll(events: seq<Event>)
    ensures forall e :: e in events && e.Arrives? ==> e.datagram in Datagrams(events)
    decreases |events|
  {
    if events != [] {
      DatagramsAll(events[1..]);
    }
  }

  /** One cipher per message. Datagrams of any content arrive, calls and cipher changes come
      at any time, in the middle of a datagram too, and a change is refused while anything
      is buffered beyond the current message. Then every byte of every message handed out
      came, as that byte of that message, in a handshake record that lay in one of the
      datagrams, was numbered in the epoch in which the message was handed out, and opened
      under the cipher of that epoch. */
  lemma OneCipherPerMessage(keys: Flight.Cipher, events: seq<Event>)
    requires Settled(keys, CONNECTED, events) && |Out(keys, CONNECTED, events)| < SEQ_LIMIT
    ensures |EpochsOf(keys, CONNECTED, events)| == |Out(keys, CONNECTED, events)|
    ensures forall k: nat :: k < |Out(keys, CONNECTED, events)| ==>
              AllAuthentic(keys, EpochsOf(keys, CONNECTED, events)[k], Datagrams(events), k,
                Out(keys, CONNECTED, events)[k])
  {
    hide Out, EpochsOf, Settled, AllAuthentic, Datagrams;
    StartIsRing();
    DatagramsAll(events);
    RunIsAuthentic(keys, CONNECTED, events, Datagrams(events), []);
  }

  // ----- what the conditions are for -----------------------------------------

  /** The cipher changes only when no record is pending, if no call before has failed. */
  lemma {:induction false} NoFailureSettles(keys: Flight.Cipher, l: Link, events: seq<Event>)
    requires l.ring.WellFormed() && l.ring.record.data == [] && NoCallFails(keys, l, events)
    ensures Settled(keys, l, events)
    decreases |events|
  {
    hide Ask, MessageIn, Quiet;
    if events != [] {
      match events[0] {
        case Asks(maxLen, reuse) => AskSettles(keys, l, maxLen, reuse);
        case _ =>
      }
      NoFailureSettles(keys, Step(keys, l, events[0]).0, events[1..]);
    }
  }

  /** After a failed call the record it failed on is still pending; it is outside what the
      refusal looks at. With nothing buffered and such a record, the cipher changes, and
      the next call hands out a message of that record. */
  lemma PendingCrosses(keys: Flight.Cipher, rd: Reading, f: Fragment) returns (l: Link)
    requires f.FitsHeader() && f.seqNo == 0 && f.offset == 0 && f.msgLen == |f.body| > 0
    ensures l.rd == rd && Ring(l.ring) && Quiet(l.ring) && l.ring.record.data != []
    ensures var events := [ChangesReadCipher, Asks(f.msgLen, false)];
            && Out(keys, l, events) == [Message(f.typ, f.body)] && Datagrams(events) == []
            && forall epoch: nat :: !AllAuthentic(keys, epoch, [], 0, Message(f.typ, f.body))
  {
    hide Serialize, Parse, Brings, OpenedFrom;
    var rec := Rec(RT_HANDSHAKE, Serialize(f));
    l := Link(rd, Receiver.START.(record := rec));
    ParseOfSerialize(f, []);
    assert Serialize(f) + [] == Serialize(f);
    var changed := l.(rd := ChangedEpoch(rd));
    var cfg := ConfigOf(changed.rd, f.msgLen);
    PendingIsTaken(cfg, f);
    var s := Await(cfg, changed.ring, []).0;
    assert Ask(keys, changed, f.msgLen, false) == (Link(changed.rd, s), [], Done);
    var events := [ChangesReadCipher, Asks(f.msgLen, false)];
    assert events[1..] == [events[1]] && events[1..][1..] == [];
    assert Datagrams([events[1]]) == [];
    assert Step(keys, l, events[0]) == (changed, []);
    assert Out(keys, Link(changed.rd, s), []) == [];
    NothingIsAuthentic(keys);
    forall epoch: nat
      ensures !AllAuthentic(keys, epoch, [], 0, Message(f.typ, f.body))
    {
      assert !Authentic(keys, epoch, [], 0, 0, f.body[0]);
    }
  }

  /** A message in one fragment, pending at the start, is taken and handed out. */
  lemma PendingIsTaken(cfg: Config, f: Fragment)
    requires f.FitsHeader() && f.seqNo == 0 && f.offset == 0 && f.msgLen == |f.body| > 0 && cfg.maxLen == f.msgLen
    ensures var st := Receiver.START.(record := Rec(RT_HANDSHAKE, Serialize(f)));
            var (s, rest, ret) := Await(cfg, st, []);
            ret.Done? && rest == [] && MessageIn(s) == Message(f.typ, f.body)
  {
    hide Serialize, Parse;
    var st := Receiver.START.(record := Rec(RT_HANDSHAKE, Serialize(f)));
    ParseOfSerialize(f, []);
    assert Serialize(f) + [] == Serialize(f);
    assert Serialize(f) != [] by { SomethingToParse(f); }
    var s := NewSlot(f);
    assert 0 !in s.covered && !s.Complete();
    var full := Absorb(s, f);
    assert full.body == f.body;
    assert full.Complete();
    assert st.slots[0].None? && TakeFragment(cfg, st, f) == Some(st.(slots := st.slots[0 := Some(full)]));
    var next := st.(slots := st.slots[0 := Some(full)]);
    assert Feed(cfg, next, []) == (next, true);
    assert Feed(cfg, st, st.record.data) == (next, true);
    var dropped := next.(record := next.record.(data := []));
    assert ProcessRecord(cfg, st, []) == (dropped, [], Done);
    assert dropped.CurrentComplete();
    AtOnce(cfg, dropped);
  }

  lemma SomethingToParse(f: Fragment)
    requires f.FitsHeader()
    ensures Serialize(f) != []
  {}

  /** Where nothing has arrived, no byte is authentic. */
  lemma NothingIsAuthentic(keys: Flight.Cipher)
    ensures forall epoch: nat, q: nat, j: nat, b: byte :: !Authentic(keys, epoch, [], q, j, b)
  {}

  /** Were the cipher changed while the next message is buffered and whole, its bytes would
      be handed out in the new epoch, though nothing has arrived in it. */
  lemma RefusalIsNeeded(keys: Flight.Cipher, l: Link, maxLen: nat)
    requires Ring(l.ring) && !l.ring.hasCurrent && l.ring.CurrentComplete() && l.ring.Current().value.body != []
    ensures !Quiet(l.ring)
    ensures var changed := l.(rd := ChangedEpoch(l.rd));
            var events := [Asks(maxLen, false)];
            && Out(keys, changed, events) == [MessageIn(l.ring)] && Datagrams(events) == []
            && forall epoch: nat :: !AllAuthentic(keys, epoch, [], l.ring.readSeq, MessageIn(l.ring))
  {
    hide State.CurrentComplete, Brings, OpenedFrom;
    var changed := l.(rd := ChangedEpoch(l.rd));
    var events := [Asks(maxLen, false)];
    CurrentIsHeld(l.ring);
    AtOnce(ConfigOf(changed.rd, maxLen), l.ring);
    SameMessage(l.ring);
    var handed := l.ring.(hasCurrent := true);
    assert Ask(keys, changed, maxLen, false) == (Link(changed.rd, handed), [], Done);
    assert events[1..] == [] && Out(keys, Link(changed.rd, handed), []) == [];
    NothingIsAuthentic(keys);
    forall epoch: nat
      ensures !AllAuthentic(keys, epoch, [], l.ring.readSeq, MessageIn(l.ring))
    {
      assert !Authentic(keys, epoch, [], l.ring.readSeq, 0, MessageIn(l.ring).body[0]);
    }
  }

  // ----- asking the ring -----------------------------------------------------

  /** Changes the read cipher, unless the ring has anything beyond the current message. */
  method ChangeReadCipher(h: HandshakeReader.Reader, packets: PacketReader) returns (ok: bool)
    requires h.Valid() && packets.records !in h.Repr
    modifies packets.records`readEpoch, packets.records`bits, packets.records`maxSeqNum
    ensures h.Valid() && h.View() == old(h.View())
    ensures ok <==> Quiet(h.View())
    ensures Link(packets.View(), h.View())
        == old(Step(Flight.NULL_CIPHER, Link(packets.View(), h.View()), ChangesReadCipher)).0
  {
    hide HandshakeReader.Reader.Valid;
    var buffered := h.HasIncomingMessages();
    ok := packets.records.SetReadState(buffered);
  }
}
