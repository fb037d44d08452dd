/**
 What the receiver guarantees over whole runs: the ring never confuses two
 messages, and what it hands out is a prefix of what the peer sent.
 */
module Delivery {
  import opened Common
  import opened Wire
  import opened HandshakeWire
  import opened Reassembly
  import opened Receiver

  datatype Message = Message(typ: byte, body: seq<byte>)

  // ----- the ring, whatever arrives ------------------------------------------

  predicate InPlace(s: Slot, i: nat, readSeq: nat) {
    s.seqNo % MAX_FLIGHT == i && readSeq <= s.seqNo < readSeq + MAX_FLIGHT
  }

  ghost predicate Ring(st: State) {
    && st.WellFormed()
    && (forall i :: 0 <= i < MAX_FLIGHT && st.slots[i].Some? ==> InPlace(st.slots[i].value, i, st.readSeq))
    && (st.hasCurrent ==> st.CurrentComplete())
  }

  lemma StartIsRing()
    ensures Ring(START)
  {}

  /** The check on the sequence number of an occupied slot cannot fail. */
  lemma SlotHasFragmentSeq(st: State, f: Fragment)
    requires Ring(st) && SlotFor(st, f).Some?
    ensures SlotFor(st, f).value.seqNo == f.seqNo
  {
    var i := f.seqNo % MAX_FLIGHT;
    if st.slots[i].Some? {
      assert InPlace(st.slots[i].value, i, st.readSeq);
    }
  }

  /** Nor can the check on the message handed out. */
  lemma CurrentHasReadSeq(st: State)
    requires Ring(st) && st.CurrentComplete()
    ensures st.Current().value.seqNo == st.readSeq
  {
    var i := st.readSeq % MAX_FLIGHT;
    assert InPlace(st.slots[i].value, i, st.readSeq);
  }

  lemma TakeFragmentKeepsRing(cfg: Config, st: State, f: Fragment)
    requires Ring(st) && TakeFragment(cfg, st, f).Some?
    ensures Ring(TakeFragment(cfg, st, f).value)
  {
    if !Ignored(st, f) {
      SlotHasFragmentSeq(st, f);
    }
  }

  lemma {:induction false} FeedKeepsRing(cfg: Config, st: State, payload: seq<byte>)
    requires Ring(st)
    ensures Ring(Feed(cfg, st, payload).0)
    decreases |payload|
  {
    hide Parse, TakeFragment;
    if payload != [] && Parse(payload).Some? {
      var (f, rest) := Parse(payload).value;
      if TakeFragment(cfg, st, f).Some? {
        TakeFragmentKeepsRing(cfg, st, f);
        FeedKeepsRing(cfg, TakeFragment(cfg, st, f).value, rest);
      }
    }
  }

  lemma {:induction false} ProcessRecordKeepsRing(cfg: Config, st: State, inbox: seq<Rec>)
    requires Ring(st)
    ensures Ring(ProcessRecord(cfg, st, inbox).0)
    decreases Pending(st, inbox)
  {
    hide Feed;
    if st.record.data != [] || inbox != [] {
      var rec := if st.record.data == [] then inbox[0] else st.record;
      var rest := if st.record.data == [] then inbox[1..] else inbox;
      if OutOfOrder(cfg, rec.typ) {
        ProcessRecordKeepsRing(cfg, st.(record := rec.(data := [])), rest);
      } else {
        FeedKeepsRing(cfg, st.(record := rec), rec.data);
      }
    }
  }

  lemma {:induction false} AwaitKeepsRing(cfg: Config, st: State, inbox: seq<Rec>)
    requires Ring(st)
    ensures Ring(Await(cfg, st, inbox).0)
    decreases Pending(st, inbox)
  {
    hide ProcessRecord;
    if !st.CurrentComplete() {
      ProcessRecordKeepsRing(cfg, st, inbox);
      var (next, rest, ret) := ProcessRecord(cfg, st, inbox);
      if ret.Done? {
        AwaitKeepsRing(cfg, next, rest);
      }
    }
  }

  lemma ReleaseKeepsRing(st: State)
    requires Ring(st) && st.readSeq + 1 < SEQ_LIMIT
    ensures Ring(Release(st))
  {
    var after := Release(st);
    forall i | 0 <= i < MAX_FLIGHT && after.slots[i].Some?
      ensures InPlace(after.slots[i].value, i, after.readSeq)
    {
      assert InPlace(st.slots[i].value, i, st.readSeq);
    }
  }

  // ----- runs ----------------------------------------------------------------

  /** A call for a message: the configuration it runs under, the records that have
      become available since the last one, and whether it re-reads. */
  datatype Call = Call(cfg: Config, arrivals: seq<Rec>, reuse: bool)

  predicate Rereads(st: State, c: Call) {
    c.reuse && st.hasCurrent
  }

  ghost function Answer(st: State, inbox: seq<Rec>, c: Call): (r: (State, seq<Rec>, Return))
    requires st.WellFormed()
    ensures r.0.WellFormed()
    ensures r.2.Done? ==> r.0.hasCurrent && r.0.CurrentComplete()
  {
    GetMessage(c.cfg, st, inbox + c.arrivals, Rereads(st, c))
  }

  function Arrivals(calls: seq<Call>): seq<Rec> {
    if calls == [] then [] else calls[0].arrivals + Arrivals(calls[1..])
  }

  lemma {:induction false} ArrivalsAll(calls: seq<Call>)
    ensures forall c, r :: c in calls && r in c.arrivals ==> r in Arrivals(calls)
    decreases |calls|
  {
    if calls != [] {
      ArrivalsAll(calls[1..]);
    }
  }

  ghost function StateAfter(st: State, inbox: seq<Rec>, calls: seq<Call>): (r: State)
    requires st.WellFormed()
    ensures r.WellFormed()
    decreases |calls|
  {
    if calls == [] then st
    else
      var (next, rest, ret) := Answer(st, inbox, calls[0]);
      StateAfter(next, rest, calls[1..])
  }

  /** The messages handed out by a run of calls, re-reads not counted. */
  ghost function Delivered(st: State, inbox: seq<Rec>, calls: seq<Call>): seq<Message>
    requires st.WellFormed()
    decreases |calls|
  {
    if calls == [] then []
    else
      var (next, rest, ret) := Answer(st, inbox, calls[0]);
      (if ret.Done? && !Rereads(st, calls[0]) then [MessageIn(next)] else [])
      + Delivered(next, rest, calls[1..])
  }

  ghost function MessageIn(st: State): Message
    requires st.WellFormed() && st.CurrentComplete()
  {
    Message(st.Current().value.typ, st.Current().value.body)
  }

  /** How many messages have been handed out. */
  function HandedOut(st: State): nat {
    st.readSeq + if st.hasCurrent then 1 else 0
  }

  lemma AnswerKeepsRing(st: State, inbox: seq<Rec>, c: Call)
    requires Ring(st) && HandedOut(st) < SEQ_LIMIT
    ensures var (next, rest, ret) := Answer(st, inbox, c);
            && Ring(next)
            && HandedOut(next) == HandedOut(st) + if ret.Done? && !Rereads(st, c) then 1 else 0
  {
    hide Await;
    if !Rereads(st, c) && st.hasCurrent {
      ReleaseKeepsRing(st);
      AwaitKeepsRing(c.cfg, Release(st), inbox + c.arrivals);
    } else {
      AwaitKeepsRing(c.cfg, st, inbox + c.arrivals);
      if Rereads(st, c) {
        RereadIsImmediate(c.cfg, st, inbox + c.arrivals);
      }
    }
  }

  lemma RereadIsImmediate(cfg: Config, st: State, inbox: seq<Rec>)
    requires Ring(st) && st.hasCurrent
    ensures Await(cfg, st, inbox) == (st, inbox, Done)
  {}

  lemma {:induction false} RunKeepsRing(st: State, inbox: seq<Rec>, calls: seq<Call>)
    requires Ring(st) && HandedOut(st) + |Delivered(st, inbox, calls)| < SEQ_LIMIT
    ensures Ring(StateAfter(st, inbox, calls))
    decreases |calls|
  {
    hide Answer, MessageIn;
    if calls != [] {
      AnswerKeepsRing(st, inbox, calls[0]);
      var (next, rest, ret) := Answer(st, inbox, calls[0]);
      RunKeepsRing(next, rest, calls[1..]);
    }
  }

  /** Whatever the records hold and however often calls block, every occupied slot is
      where it belongs, as long as the message sequence does not wrap. */
  lemma RingHolds(calls: seq<Call>)
    requires |Delivered(START, [], calls)| < SEQ_LIMIT
    ensures Ring(StateAfter(START, [], calls))
  {
    StartIsRing();
    RunKeepsRing(START, [], calls);
  }

  // ----- an honest peer over an unreliable network ---------------------------

  /** A piece of one of the sent messages, cut anywhere. */
  predicate HonestFragment(sent: seq<Message>, f: Fragment) {
    && f.FitsHeader()
    && f.seqNo < |sent|
    && f.typ == sent[f.seqNo].typ
    && f.msgLen == |sent[f.seqNo].body|
    && f.offset + |f.body| <= f.msgLen
    && f.body == sent[f.seqNo].body[f.offset..f.offset + |f.body|]
  }

  predicate AllHonest(sent: seq<Message>, fs: seq<Fragment>) {
    forall f :: f in fs ==> HonestFragment(sent, f)
  }

  ghost predicate HonestRec(sent: seq<Message>, r: Rec) {
    r.typ == RT_HANDSHAKE ==> exists fs :: AllHonest(sent, fs) && r.data == SerializeAll(fs)
  }

  ghost predicate HonestInbox(sent: seq<Message>, inbox: seq<Rec>) {
    forall r :: r in inbox ==> HonestRec(sent, r)
  }

  ghost predicate Faithful(sent: seq<Message>, s: Slot) {
    && s.seqNo < |sent|
    && s.typ == sent[s.seqNo].typ
    && |s.body| == |sent[s.seqNo].body|
    && (forall j :: 0 <= j < |s.body| && j in s.covered ==> s.body[j] == sent[s.seqNo].body[j])
  }

  ghost predicate Good(sent: seq<Message>, st: State) {
    && Ring(st)
    && HonestRec(sent, st.record)
    && (forall i :: 0 <= i < MAX_FLIGHT && st.slots[i].Some? ==> Faithful(sent, st.slots[i].value))
  }

  lemma AbsorbIsFaithful(sent: seq<Message>, s: Slot, f: Fragment)
    requires Faithful(sent, s) && HonestFragment(sent, f) && s.seqNo == f.seqNo
    ensures Faithful(sent, Absorb(s, f))
  {
    var body := sent[f.seqNo].body;
    var after := Absorb(s, f);
    forall j | 0 <= j < |after.body| && j in after.covered
      ensures after.body[j] == body[j]
    {
      if f.offset <= j < f.offset + |f.body| && !s.Complete() {
        assert after.body[j] == f.body[j - f.offset];
      }
    }
  }

  lemma TakeFragmentIsGood(cfg: Config, sent: seq<Message>, st: State, f: Fragment)
    requires Good(sent, st) && HonestFragment(sent, f) && TakeFragment(cfg, st, f).Some?
    ensures Good(sent, TakeFragment(cfg, st, f).value)
  {
    hide Absorb, Faithful, HonestRec;
    TakeFragmentKeepsRing(cfg, st, f);
    if !Ignored(st, f) {
      SlotHasFragmentSeq(st, f);
      var s := SlotFor(st, f).value;
      NewSlotIsFaithful(sent, f);
      AbsorbIsFaithful(sent, s, f);
    }
  }

  lemma NewSlotIsFaithful(sent: seq<Message>, f: Fragment)
    requires HonestFragment(sent, f)
    ensures Faithful(sent, NewSlot(f))
  {}

  lemma {:induction false} FeedIsGood(cfg: Config, sent: seq<Message>, st: State, fs: seq<Fragment>)
    requires Good(sent, st) && AllHonest(sent, fs)
    ensures Good(sent, Feed(cfg, st, SerializeAll(fs)).0)
    decreases |fs|
  {
    hide Parse, TakeFragment, Serialize, Faithful, HonestRec;
    if fs != [] {
      assert AllHonest(sent, fs[1..]);
      assert HonestFragment(sent, fs[0]);
      ParseOfSerialize(fs[0], SerializeAll(fs[1..]));
      if TakeFragment(cfg, st, fs[0]).Some? {
        TakeFragmentIsGood(cfg, sent, st, fs[0]);
        FeedIsGood(cfg, sent, TakeFragment(cfg, st, fs[0]).value, fs[1..]);
      }
    }
  }

  lemma {:induction false} ProcessRecordIsGood(cfg: Config, sent: seq<Message>, st: State, inbox: seq<Rec>)
    requires Good(sent, st) && HonestInbox(sent, inbox)
    ensures Good(sent, ProcessRecord(cfg, st, inbox).0)
    ensures HonestInbox(sent, ProcessRecord(cfg, st, inbox).1)
    decreases Pending(st, inbox)
  {
    hide Feed, Faithful, SerializeAll;
    if st.record.data != [] || inbox != [] {
      var rec := if st.record.data == [] then inbox[0] else st.record;
      var rest := if st.record.data == [] then inbox[1..] else inbox;
      EmptyRecIsHonest(sent, rec.typ);
      if OutOfOrder(cfg, rec.typ) {
        ProcessRecordIsGood(cfg, sent, st.(record := rec.(data := [])), rest);
      } else if rec.typ == RT_HANDSHAKE {
        assert HonestRec(sent, rec);
        var fs :| AllHonest(sent, fs) && rec.data == SerializeAll(fs);
        FeedIsGood(cfg, sent, st.(record := rec), fs);
      }
    }
  }

  lemma EmptyRecIsHonest(sent: seq<Message>, typ: byte)
    ensures HonestRec(sent, Rec(typ, []))
  {
    assert AllHonest(sent, []) && SerializeAll([]) == [];
  }

  lemma {:induction false} AwaitIsGood(cfg: Config, sent: seq<Message>, st: State, inbox: seq<Rec>)
    requires Good(sent, st) && HonestInbox(sent, inbox)
    ensures Good(sent, Await(cfg, st, inbox).0)
    ensures HonestInbox(sent, Await(cfg, st, inbox).1)
    decreases Pending(st, inbox)
  {
    hide ProcessRecord, Faithful, HonestRec;
    AwaitKeepsRing(cfg, st, inbox);
    if !st.CurrentComplete() {
      ProcessRecordIsGood(cfg, sent, st, inbox);
      var (next, rest, ret) := ProcessRecord(cfg, st, inbox);
      if ret.Done? {
        AwaitIsGood(cfg, sent, next, rest);
      }
    }
  }

  lemma CurrentIsSent(sent: seq<Message>, st: State)
    requires Good(sent, st) && st.CurrentComplete()
    ensures st.readSeq < |sent| && MessageIn(st) == sent[st.readSeq]
  {
    CurrentHasReadSeq(st);
    var s := st.Current().value;
    assert Faithful(sent, s);
    assert forall j: nat :: j < |s.body| ==> j in s.covered;
  }

  lemma ReleaseIsGood(sent: seq<Message>, st: State)
    requires Good(sent, st) && st.hasCurrent && |sent| < SEQ_LIMIT
    ensures Good(sent, Release(st)) && Release(st).readSeq == st.readSeq + 1
  {
    hide Faithful, HonestRec;
    CurrentIsSent(sent, st);
    ReleaseKeepsRing(st);
  }

  lemma AnswerIsGood(sent: seq<Message>, st: State, inbox: seq<Rec>, c: Call)
    requires Good(sent, st) && |sent| < SEQ_LIMIT
    requires HonestInbox(sent, inbox) && HonestInbox(sent, c.arrivals)
    ensures var (next, rest, ret) := Answer(st, inbox, c);
            && Good(sent, next) && HonestInbox(sent, rest)
            && (Rereads(st, c) ==> ret.Done? && HandedOut(next) == HandedOut(st) && MessageIn(next) == MessageIn(st))
            && (!Rereads(st, c) && ret.Done? ==>
                  HandedOut(next) == HandedOut(st) + 1 <= |sent| && MessageIn(next) == sent[HandedOut(st)])
            && (!Rereads(st, c) && !ret.Done? ==> HandedOut(next) == HandedOut(st))
  {
    hide Faithful, HonestRec, ProcessRecord;
    var now := inbox + c.arrivals;
    if st.hasCurrent && !Rereads(st, c) {
      ReleaseIsGood(sent, st);
      AwaitIsGood(c.cfg, sent, Release(st), now);
    } else {
      AwaitIsGood(c.cfg, sent, st, now);
    }
    var (next, rest, ret) := Answer(st, inbox, c);
    if ret.Done? {
      CurrentIsSent(sent, next);
    }
  }

  lemma {:induction false} RunDelivers(sent: seq<Message>, st: State, inbox: seq<Rec>, calls: seq<Call>)
    requires Good(sent, st) && |sent| < SEQ_LIMIT && HandedOut(st) <= |sent|
    requires HonestInbox(sent, inbox)
    requires forall c :: c in calls ==> HonestInbox(sent, c.arrivals)
    ensures sent[..HandedOut(st)] + Delivered(st, inbox, calls) <= sent
    decreases |calls|
  {
    hide Answer, Faithful, HonestRec, HonestInbox, MessageIn;
    if calls != [] {
      AnswerIsGood(sent, st, inbox, calls[0]);
      var (next, rest, ret) := Answer(st, inbox, calls[0]);
      RunDelivers(sent, next, rest, calls[1..]);
      if ret.Done? && !Rereads(st, calls[0]) {
        assert sent[..HandedOut(next)] == sent[..HandedOut(st)] + [MessageIn(next)];
        assert sent[..HandedOut(st)] + Delivered(st, inbox, calls)
            == sent[..HandedOut(next)] + Delivered(next, rest, calls[1..]);
      } else {
        assert Delivered(st, inbox, calls) == Delivered(next, rest, calls[1..]);
      }
    }
  }

  /** Drop, duplicate and reorder the pieces at will: what comes out is a prefix of
      what was sent, in order, each message once and byte for byte. */
  lemma DeliveredIsPrefixOfSent(sent: seq<Message>, calls: seq<Call>)
    requires |sent| < SEQ_LIMIT
    requires forall c :: c in calls ==> HonestInbox(sent, c.arrivals)
    ensures Delivered(START, [], calls) <= sent
  {
    StartIsRing();
    EmptyRecIsHonest(sent, START.record.typ);
    RunDelivers(sent, START, [], calls);
    assert sent[..0] + Delivered(START, [], calls) == Delivered(START, [], calls);
  }

  // ----- which fragments fail the call ---------------------------------------

  /** Too long for the state machine, not the current message once encrypted, or exactly
      as far ahead as the ring is long. */
  predicate Refused(cfg: Config, st: State, f: Fragment) {
    f.msgLen > cfg.maxLen || (cfg.epoch == 1 && f.seqNo != st.readSeq) || f.seqNo == st.readSeq + MAX_FLIGHT
  }

  /** When an honest fragment makes the call fail. */
  lemma RefusedExactly(cfg: Config, sent: seq<Message>, st: State, f: Fragment)
    requires Good(sent, st) && HonestFragment(sent, f)
    ensures TakeFragment(cfg, st, f).None? <==> Refused(cfg, st, f)
  {
    hide HonestRec;
    var i := f.seqNo % MAX_FLIGHT;
    if st.slots[i].Some? {
      assert Faithful(sent, st.slots[i].value);
      assert InPlace(st.slots[i].value, i, st.readSeq);
    }
  }

  /** When any fragment at all makes the call fail: its range leaves its message or the
      message is too long; it is not of the current message once encrypted; or it is for
      the ring and exactly seven ahead, or of another type or length than what came before
      it for the same message. */
  lemma AnyFragmentFailsExactly(cfg: Config, st: State, f: Fragment)
    requires Ring(st)
    ensures TakeFragment(cfg, st, f).None? <==>
              || f.offset + |f.body| > f.msgLen || f.msgLen > cfg.maxLen
              || (cfg.epoch == 1 && f.seqNo != st.readSeq)
              || f.seqNo == st.readSeq + MAX_FLIGHT
              || (InRing(st, f.seqNo) && Held(st, f.seqNo)
                  && var s := st.slots[f.seqNo % MAX_FLIGHT].value; s.typ != f.typ || |s.body| != f.msgLen)
  {}

  /** A well-formed fragment from beyond the ring is ignored if and only if it is more
      than the ring's length ahead; at exactly that distance the call fails. */
  lemma TooFarIsIgnoredExactly(cfg: Config, st: State, f: Fragment)
    requires st.WellFormed() && !Malformed(cfg, f) && cfg.epoch != 1
    requires f.seqNo >= st.readSeq + MAX_FLIGHT
    ensures TakeFragment(cfg, st, f) == Some(st) <==> f.seqNo != st.readSeq + MAX_FLIGHT
    ensures f.seqNo == st.readSeq + MAX_FLIGHT ==> TakeFragment(cfg, st, f).None?
  {
    assert f.seqNo == st.readSeq + MAX_FLIGHT ==> !Ignored(st, f);
  }

  /** The first fragment of the eighth message of a flight, arriving first. */
  lemma EighthMessageFails(cfg: Config) returns (sent: seq<Message>, f: Fragment)
    requires cfg.epoch == 0 && cfg.maxLen >= 1
    ensures |sent| == 8 && HonestFragment(sent, f) && f.seqNo == 7
    ensures TakeFragment(cfg, START, f).None?
  {
    sent := seq(8, _ => Message(1, [0]));
    f := Fragment(1, 1, 7, 0, [0]);
    TooFarIsIgnoredExactly(cfg, START, f);
  }

  /** An empty fragment at the end of an eight-byte message passes every check on the
      way to the bitmap, and marking it touches the byte behind a bitmap of one byte. */
  lemma EmptyFragmentLeavesBitmap(cfg: Config) returns (f: Fragment)
    requires cfg.epoch == 0 && cfg.maxLen >= 8
    ensures f.FitsHeader() && EmptyAtFullEnd(f.msgLen, f.offset, f.offset + |f.body|)
    ensures TakeFragment(cfg, START, f).Some? && SlotFor(START, f).Some? && !SlotFor(START, f).value.Complete()
    ensures Touches(f.offset, f.offset + |f.body|, 1) && BitmapLength(f.msgLen) == 1
  {
    f := Fragment(1, 8, 0, 8, []);
    assert 0 !in SlotFor(START, f).value.covered;
  }

  // ----- nothing that arrives is wasted --------------------------------------

  predicate Covers(f: Fragment, q: nat, j: nat) {
    f.seqNo == q && f.offset <= j < f.offset + |f.body|
  }

  ghost predicate Arrived(fs: seq<Fragment>, q: nat, j: nat) {
    exists f :: f in fs && Covers(f, q, j)
  }

  ghost predicate Seen(fs: seq<Fragment>, q: nat) {
    exists f :: f in fs && f.seqNo == q
  }

  /** No fragment makes the call fail; late ones and ones far ahead may be among them. */
  predicate NoneRefused(cfg: Config, st: State, fs: seq<Fragment>) {
    forall f :: f in fs ==> !Refused(cfg, st, f)
  }

  /** q is one of the seven messages the ring has room for. */
  predicate InRing(st: State, q: nat) {
    st.readSeq <= q < st.readSeq + MAX_FLIGHT
  }

  ghost predicate Held(st: State, q: nat)
    requires st.WellFormed()
  {
    st.slots[q % MAX_FLIGHT].Some?
  }

  ghost predicate Covered(st: State, q: nat, j: nat)
    requires st.WellFormed()
  {
    Held(st, q) && j in st.slots[q % MAX_FLIGHT].value.covered
  }

  lemma TakeFragmentCovers(cfg: Config, sent: seq<Message>, st: State, f: Fragment, q: nat, j: nat)
    requires Good(sent, st) && HonestFragment(sent, f) && !Refused(cfg, st, f) && InRing(st, q)
    ensures TakeFragment(cfg, st, f).Some?
    ensures var after := TakeFragment(cfg, st, f).value;
            && (Held(after, q) <==> Held(st, q) || f.seqNo == q)
            && (Covered(after, q, j) <==> Covered(st, q, j) || Covers(f, q, j))
  {
    hide HonestRec;
    RefusedExactly(cfg, sent, st, f);
    var i := f.seqNo % MAX_FLIGHT;
    if st.slots[i].Some? {
      assert Faithful(sent, st.slots[i].value);
      assert InPlace(st.slots[i].value, i, st.readSeq);
    }
  }

  /** Whether a fragment is refused depends on the read position alone. */
  lemma RefusalStays(cfg: Config, st: State, after: State, a: seq<Fragment>, b: seq<Fragment>)
    requires NoneRefused(cfg, st, a + b) && after.readSeq == st.readSeq
    ensures NoneRefused(cfg, st, a) && NoneRefused(cfg, after, a) && NoneRefused(cfg, after, b)
  {
    assert forall f :: f in a || f in b ==> f in a + b;
  }

  lemma {:induction false} FeedCovers(cfg: Config, sent: seq<Message>, st: State, fs: seq<Fragment>, q: nat, j: nat)
    requires Good(sent, st) && AllHonest(sent, fs) && NoneRefused(cfg, st, fs) && InRing(st, q)
    ensures Feed(cfg, st, SerializeAll(fs)).1
    ensures var after := Feed(cfg, st, SerializeAll(fs)).0;
            && (Held(after, q) <==> Held(st, q) || Seen(fs, q))
            && (Covered(after, q, j) <==> Covered(st, q, j) || Arrived(fs, q, j))
    decreases |fs|
  {
    hide Parse, TakeFragment, Serialize, Faithful, HonestRec, Held, Covered;
    if fs != [] {
      var f, rest := fs[0], fs[1..];
      assert HonestFragment(sent, f) && AllHonest(sent, rest);
      ParseOfSerialize(f, SerializeAll(rest));
      TakeFragmentCovers(cfg, sent, st, f, q, j);
      TakeFragmentIsGood(cfg, sent, st, f);
      assert fs == [f] + rest;
      RefusalStays(cfg, st, TakeFragment(cfg, st, f).value, [f], rest);
      FeedCovers(cfg, sent, TakeFragment(cfg, st, f).value, rest, q, j);
      assert Arrived(fs, q, j) <==> Covers(f, q, j) || Arrived(rest, q, j);
      assert Seen(fs, q) <==> f.seqNo == q || Seen(rest, q);
    }
  }

  /** Processes records until none is left or a call fails. */
  ghost function ProcessAll(cfg: Config, st: State, inbox: seq<Rec>): (r: (State, Return))
    requires st.WellFormed()
    ensures r.0.WellFormed()
    decreases Pending(st, inbox)
  {
    var (next, rest, ret) := ProcessRecord(cfg, st, inbox);
    if ret.Done? then ProcessAll(cfg, next, rest) else (next, ret)
  }

  /** The record holds these fragments, or is one that is skipped and holds none. */
  predicate Carries(cfg: Config, r: Rec, fs: seq<Fragment>)
    requires forall f :: f in fs ==> f.FitsHeader()
  {
    if r.typ == RT_HANDSHAKE then r.data == SerializeAll(fs) else OutOfOrder(cfg, r.typ) && fs == []
  }

  ghost predicate AllCarry(cfg: Config, sent: seq<Message>, inbox: seq<Rec>, parts: seq<seq<Fragment>>) {
    && |parts| == |inbox|
    && forall i :: 0 <= i < |inbox| ==> AllHonest(sent, parts[i]) && Carries(cfg, inbox[i], parts[i])
  }

  function Together(parts: seq<seq<Fragment>>): seq<Fragment> {
    if parts == [] then [] else parts[0] + Together(parts[1..])
  }

  lemma SeenInParts(a: seq<Fragment>, b: seq<Fragment>, q: nat, j: nat)
    ensures Seen(a + b, q) <==> Seen(a, q) || Seen(b, q)
    ensures Arrived(a + b, q, j) <==> Arrived(a, q, j) || Arrived(b, q, j)
  {
    assert forall f :: f in a + b <==> f in a || f in b;
  }

  lemma {:induction false} ProcessAllCovers(cfg: Config, sent: seq<Message>, st: State, inbox: seq<Rec>,
                                            parts: seq<seq<Fragment>>, q: nat, j: nat)
    requires Good(sent, st) && st.record.data == [] && AllCarry(cfg, sent, inbox, parts)
    requires NoneRefused(cfg, st, Together(parts)) && InRing(st, q)
    ensures var (after, ret) := ProcessAll(cfg, st, inbox);
            && ret.Blocked? && Good(sent, after)
            && (Held(after, q) <==> Held(st, q) || Seen(Together(parts), q))
            && (Covered(after, q, j) <==> Covered(st, q, j) || Arrived(Together(parts), q, j))
    decreases |inbox|
  {
    hide Feed, Faithful, HonestRec, SerializeAll, Held, Covered, Refused, ProcessRecord, NoneRefused;
    if inbox == [] {
      NothingToProcess(cfg, st);
    } else {
      var rec, fs := inbox[0], parts[0];
      assert AllHonest(sent, fs);
      assert Together(parts) == fs + Together(parts[1..]);
      RefusalStays(cfg, st, st, fs, Together(parts[1..]));
      OneRecord(cfg, sent, st, rec, fs, inbox[1..]);
      GoesOn(cfg, st, rec, inbox[1..]);
      OneRecordCovers(cfg, sent, st, rec, fs, q, j);
      var next := AfterRecord(cfg, st, rec);
      RefusalStays(cfg, st, next, fs, Together(parts[1..]));
      assert inbox == [rec] + inbox[1..];
      CarryRest(cfg, sent, inbox, parts);
      ProcessAllCovers(cfg, sent, next, inbox[1..], parts[1..], q, j);
      SeenInParts(fs, Together(parts[1..]), q, j);
    }
  }

  lemma CarryRest(cfg: Config, sent: seq<Message>, inbox: seq<Rec>, parts: seq<seq<Fragment>>)
    requires AllCarry(cfg, sent, inbox, parts) && inbox != []
    ensures AllHonest(sent, parts[0]) && Carries(cfg, inbox[0], parts[0])
    ensures AllCarry(cfg, sent, inbox[1..], parts[1..])
  {}

  lemma NothingToProcess(cfg: Config, st: State)
    requires st.WellFormed() && st.record.data == []
    ensures ProcessAll(cfg, st, []) == (st, Blocked)
  {}

  /** The state once one record, just fetched, is dealt with. */
  ghost function AfterRecord(cfg: Config, st: State, rec: Rec): (next: State)
    requires st.WellFormed()
    ensures next.WellFormed()
  {
    var fetched := st.(record := rec);
    (if rec.typ == RT_HANDSHAKE then Feed(cfg, fetched, rec.data).0 else fetched).(record := rec.(data := []))
  }

  /** The first record is dealt with; a record that is skipped leaves the turn to the rest. */
  lemma OneRecord(cfg: Config, sent: seq<Message>, st: State, rec: Rec, fs: seq<Fragment>, rest: seq<Rec>)
    requires Good(sent, st) && st.record.data == [] && AllHonest(sent, fs) && Carries(cfg, rec, fs)
    requires NoneRefused(cfg, st, fs)
    ensures var next := AfterRecord(cfg, st, rec);
            && Good(sent, next) && next.record.data == [] && SamePosition(st.(record := next.record), next)
            && ProcessRecord(cfg, st, [rec] + rest)
               == (if rec.typ == RT_HANDSHAKE then (next, rest, Done) else ProcessRecord(cfg, next, rest))
  {
    hide Feed, Faithful, SerializeAll, HonestRec, Refused;
    var fed := st.(record := rec);
    EmptyRecIsHonest(sent, rec.typ);
    assert ([rec] + rest)[0] == rec && ([rec] + rest)[1..] == rest;
    if rec.typ == RT_HANDSHAKE {
      CarriedIsHonest(cfg, sent, rec, fs);
      FeedIsGood(cfg, sent, fed, fs);
      assert fs + [] == fs;
      RefusalStays(cfg, st, fed, fs, []);
      FeedSucceeds(cfg, sent, fed, fs);
      assert !OutOfOrder(cfg, rec.typ);
    }
  }

  /** Processing and waiting go on from there. */
  lemma GoesOn(cfg: Config, st: State, rec: Rec, rest: seq<Rec>)
    requires st.WellFormed()
    requires var next := AfterRecord(cfg, st, rec);
             ProcessRecord(cfg, st, [rec] + rest)
             == (if rec.typ == RT_HANDSHAKE then (next, rest, Done) else ProcessRecord(cfg, next, rest))
    ensures var next := AfterRecord(cfg, st, rec);
            && ProcessAll(cfg, st, [rec] + rest) == ProcessAll(cfg, next, rest)
            && (!st.CurrentComplete() ==> Await(cfg, st, [rec] + rest) == Await(cfg, next, rest))
  {
    hide Feed, ProcessRecord;
  }

  lemma FeedSucceeds(cfg: Config, sent: seq<Message>, st: State, fs: seq<Fragment>)
    requires Good(sent, st) && AllHonest(sent, fs) && NoneRefused(cfg, st, fs)
    ensures Feed(cfg, st, SerializeAll(fs)).1
  {
    hide Feed, SerializeAll, HonestRec;
    FeedCovers(cfg, sent, st, fs, st.readSeq, 0);
  }

  /** One record adds to the ring what it carries and nothing else. */
  lemma OneRecordCovers(cfg: Config, sent: seq<Message>, st: State, rec: Rec, fs: seq<Fragment>, q: nat, j: nat)
    requires Good(sent, st) && st.record.data == [] && AllHonest(sent, fs) && Carries(cfg, rec, fs)
    requires NoneRefused(cfg, st, fs) && InRing(st, q)
    ensures var next := AfterRecord(cfg, st, rec);
            && (Held(next, q) <==> Held(st, q) || Seen(fs, q))
            && (Covered(next, q, j) <==> Covered(st, q, j) || Arrived(fs, q, j))
  {
    hide Feed, Faithful, SerializeAll, HonestRec, Refused;
    var fed := st.(record := rec);
    if rec.typ == RT_HANDSHAKE {
      CarriedIsHonest(cfg, sent, rec, fs);
      assert fs + [] == fs;
      RefusalStays(cfg, st, fed, fs, []);
      FeedCovers(cfg, sent, fed, fs, q, j);
    }
  }

  lemma CarriedIsHonest(cfg: Config, sent: seq<Message>, rec: Rec, fs: seq<Fragment>)
    requires AllHonest(sent, fs) && Carries(cfg, rec, fs)
    ensures HonestRec(sent, rec)
  {}

  /** Over a run of records: a message that had not begun to arrive is in its slot and
      whole exactly when some fragment of it arrived and each of its bytes did. */
  lemma WholeExactlyWhenArrived(cfg: Config, sent: seq<Message>, st: State, inbox: seq<Rec>,
                                parts: seq<seq<Fragment>>, q: nat)
    requires Good(sent, st) && st.record.data == [] && AllCarry(cfg, sent, inbox, parts)
    requires NoneRefused(cfg, st, Together(parts)) && InRing(st, q) && q < |sent| && !Held(st, q)
    ensures var (after, ret) := ProcessAll(cfg, st, inbox);
            && ret.Blocked?
            && (Held(after, q) && after.slots[q % MAX_FLIGHT].value.Complete() <==>
                Seen(Together(parts), q) && forall j: nat :: j < |sent[q].body| ==> Arrived(Together(parts), q, j))
  {
    hide ProcessAll, AllCarry, HonestRec, Refused, Arrived, Seen;
    var after := ProcessAll(cfg, st, inbox).0;
    ProcessAllCovers(cfg, sent, st, inbox, parts, q, 0);
    forall j: nat
      ensures Covered(after, q, j) <==> Arrived(Together(parts), q, j)
    {
      ProcessAllCovers(cfg, sent, st, inbox, parts, q, j);
    }
    if Held(after, q) {
      var s := after.slots[q % MAX_FLIGHT].value;
      SameReadSeq(cfg, st, inbox);
      assert InPlace(s, q % MAX_FLIGHT, after.readSeq) && Faithful(sent, s);
      assert s.seqNo == q;
      assert forall j: nat :: j < |s.body| ==> (j in s.covered <==> Covered(after, q, j));
    }
  }

  lemma {:induction false} SameReadSeq(cfg: Config, st: State, inbox: seq<Rec>)
    requires st.WellFormed()
    ensures ProcessAll(cfg, st, inbox).0.readSeq == st.readSeq
    decreases Pending(st, inbox)
  {
    var (next, rest, ret) := ProcessRecord(cfg, st, inbox);
    if ret.Done? {
      SameReadSeq(cfg, next, rest);
    }
  }
}
