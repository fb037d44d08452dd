/**
 Nothing that arrives is lost: what the receiver hands out, over any schedule of calls,
 is what a reader would hand out who simply kept every fragment.
 */
module Progress {
  import opened Common
  import opened Wire
  import opened HandshakeWire
  import opened Reassembly
  import opened Receiver
  import opened Delivery

  // ----- the simple form -----------------------------------------------------

  /** Message q can be put together from these fragments. */
  ghost predicate AllHere(sent: seq<Message>, fs: seq<Fragment>, q: nat) {
    q < |sent| && Seen(fs, q) && forall j: nat :: j < |sent[q].body| ==> Arrived(fs, q, j)
  }

  function FragmentsOf(r: Rec): seq<Fragment> {
    if r.typ == RT_HANDSHAKE then Fragments(r.data) else []
  }

  /** What these records bring. */
  function Brought(recs: seq<Rec>): seq<Fragment> {
    if recs == [] then [] else FragmentsOf(recs[0]) + Brought(recs[1..])
  }

  /** The next message to hand out, and whether one is being looked at. */
  datatype Place = Place(next: nat, current: bool)

  const BEGIN := Place(0, false)

  /** One call, when these fragments have arrived so far: a re-read gives nothing new, and
      otherwise the next message comes if and only if all of it is here. */
  ghost function Turn(sent: seq<Message>, fs: seq<Fragment>, p: Place, reuse: bool): (Place, seq<Message>) {
    if reuse && p.current then (p, [])
    else if AllHere(sent, fs, p.next) then (Place(p.next + 1, true), [sent[p.next]])
    else (p.(current := false), [])
  }

  /** The calls in turn; before each, the fragments of the records new to it arrive. */
  ghost function InOrder(sent: seq<Message>, fs: seq<Fragment>, p: Place, calls: seq<Call>): seq<Message>
    decreases |calls|
  {
    if calls == [] then []
    else
      var now := fs + Brought(calls[0].arrivals);
      var (next, out) := Turn(sent, now, p, calls[0].reuse);
      out + InOrder(sent, now, next, calls[1..])
  }

  /** No fragment is of a message more than seven ahead of the next to hand out; these the
      receiver ignores. */
  ghost predicate Near(fs: seq<Fragment>, next: nat) {
    forall f :: f in fs ==> f.seqNo <= next + MAX_FLIGHT
  }

  /** So it is of every fragment when it arrives. */
  ghost predicate InReach(sent: seq<Message>, fs: seq<Fragment>, p: Place, calls: seq<Call>)
    decreases |calls|
  {
    calls == [] ||
    var now := fs + Brought(calls[0].arrivals);
    && Near(Brought(calls[0].arrivals), p.next)
    && InReach(sent, now, Turn(sent, now, p, calls[0].reuse).0, calls[1..])
  }

  /** No call of the run fails. */
  ghost predicate NoneFails(st: State, inbox: seq<Rec>, calls: seq<Call>)
    requires st.WellFormed()
    decreases |calls|
  {
    calls == [] ||
    var (next, rest, ret) := Answer(st, inbox, calls[0]);
    !ret.Failed? && NoneFails(next, rest, calls[1..])
  }

  // ----- when a record fails the call ----------------------------------------

  /** Every fragment of an honest payload is taken if and only if none is refused. */
  lemma {:induction false} FeedSucceedsExactly(cfg: Config, sent: seq<Message>, st: State, fs: seq<Fragment>)
    requires Good(sent, st) && AllHonest(sent, fs)
    ensures Feed(cfg, st, SerializeAll(fs)).1 <==> NoneRefused(cfg, st, fs)
    decreases |fs|
  {
    hide Parse, TakeFragment, Serialize, Faithful, HonestRec, Refused;
    if fs != [] {
      var f, rest := fs[0], fs[1..];
      assert HonestFragment(sent, f) && AllHonest(sent, rest);
      ParseOfSerialize(f, SerializeAll(rest));
      RefusedExactly(cfg, sent, st, f);
      var next := TakeFragment(cfg, st, f);
      if next.Some? {
        TakeFragmentIsGood(cfg, sent, st, f);
        FeedSucceedsExactly(cfg, sent, next.value, rest);
        RefusedAlike(cfg, st, next.value);
      }
    }
  }

  /** Whether a fragment is refused depends on the read position alone. */
  lemma RefusedAlike(cfg: Config, st: State, after: State)
    requires after.readSeq == st.readSeq
    ensures forall f :: Refused(cfg, after, f) <==> Refused(cfg, st, f)
  {}

  /** A record that is skipped, or a handshake record with no fragment that is refused. */
  ghost predicate Admitted(cfg: Config, st: State, rec: Rec) {
    if rec.typ == RT_HANDSHAKE then NoneRefused(cfg, st, FragmentsOf(rec)) else OutOfOrder(cfg, rec.typ)
  }

  lemma HonestFragmentsOf(sent: seq<Message>, rec: Rec)
    requires HonestRec(sent, rec)
    ensures AllHonest(sent, FragmentsOf(rec))
    ensures rec.typ == RT_HANDSHAKE ==> rec.data == SerializeAll(FragmentsOf(rec))
  {
    hide Fragments;
    if rec.typ == RT_HANDSHAKE {
      var fs :| AllHonest(sent, fs) && rec.data == SerializeAll(fs);
      FragmentsOfSerialized(fs);
    }
  }

  /** An honest record fails the call that processes it if and only if it is not admitted. */
  lemma RecordFailsExactly(cfg: Config, sent: seq<Message>, st: State, rec: Rec)
    requires Good(sent, st) && st.record.data == [] && HonestRec(sent, rec)
    ensures ProcessRecord(cfg, st, [rec]).2.Failed? <==> !Admitted(cfg, st, rec)
  {
    hide Feed, Faithful, HonestRec, SerializeAll, Refused, FragmentsOf;
    HonestFragmentsOf(sent, rec);
    var fetched := st.(record := rec);
    assert [rec][0] == rec && [rec][1..] == [];
    if rec.typ == RT_HANDSHAKE {
      FeedSucceedsExactly(cfg, sent, fetched, FragmentsOf(rec));
      RefusedAlike(cfg, st, fetched);
    }
  }

  /** A record of another kind is passed over if and only if it is application data under a
      read cipher or a ChangeCipherSpec without one; any other fails the call. */
  lemma OtherRecordFailsExactly(cfg: Config, st: State, rec: Rec, rest: seq<Rec>)
    requires st.WellFormed() && st.record.data == [] && rec.typ != RT_HANDSHAKE
    ensures if (rec.typ == RT_APPLICATION_DATA && cfg.encrypted) || (rec.typ == RT_CHANGE_CIPHER_SPEC && !cfg.encrypted)
            then ProcessRecord(cfg, st, [rec] + rest) == ProcessRecord(cfg, st.(record := rec.(data := [])), rest)
            else ProcessRecord(cfg, st, [rec] + rest).2.Failed?
  {
    hide Feed;
    assert ([rec] + rest)[0] == rec && ([rec] + rest)[1..] == rest;
  }

  // ----- what the ring accounts for ------------------------------------------

  ghost predicate Begun(st: State, q: nat)
    requires st.WellFormed()
  {
    Held(st, q) && st.slots[q % MAX_FLIGHT].value.seqNo == q
  }

  ghost predicate Stored(st: State, q: nat, j: nat)
    requires st.WellFormed()
  {
    Begun(st, q) && j in st.slots[q % MAX_FLIGHT].value.covered
  }

  /** Of the messages still to come, ring and pending fragments hold what has arrived. */
  ghost predicate Accounts(st: State, pending: seq<Fragment>, fs: seq<Fragment>)
    requires st.WellFormed()
  {
    forall q: nat, j: nat :: HandedOut(st) <= q ==> AccountsFor(st, pending, fs, q, j)
  }

  ghost predicate AccountsFor(st: State, pending: seq<Fragment>, fs: seq<Fragment>, q: nat, j: nat)
    requires st.WellFormed()
  {
    && (Seen(fs, q) <==> Begun(st, q) || Seen(pending, q))
    && (Arrived(fs, q, j) <==> Stored(st, q, j) || Arrived(pending, q, j))
  }

  lemma RingBegun(st: State, q: nat)
    requires Ring(st) && q >= st.readSeq
    ensures Begun(st, q) <==> InRing(st, q) && Held(st, q)
  {
    var i := q % MAX_FLIGHT;
    if Held(st, q) {
      assert InPlace(st.slots[i].value, i, st.readSeq);
    }
  }

  lemma OneRecordStores(cfg: Config, sent: seq<Message>, st: State, rec: Rec, fs: seq<Fragment>, q: nat, j: nat)
    requires Good(sent, st) && st.record.data == [] && AllHonest(sent, fs) && Carries(cfg, rec, fs)
    requires NoneRefused(cfg, st, fs) && Near(fs, st.readSeq) && q >= st.readSeq
    requires var next := AfterRecord(cfg, st, rec); Good(sent, next) && next.readSeq == st.readSeq
    ensures var next := AfterRecord(cfg, st, rec);
            && (Begun(next, q) <==> Begun(st, q) || Seen(fs, q))
            && (Stored(next, q, j) <==> Stored(st, q, j) || Arrived(fs, q, j))
  {
    hide AfterRecord, Faithful, HonestRec, Carries, AllHonest;
    var next := AfterRecord(cfg, st, rec);
    RingBegun(st, q);
    RingBegun(next, q);
    if InRing(st, q) {
      OneRecordCovers(cfg, sent, st, rec, fs, q, j);
    } else {
      assert forall f :: f in fs ==> !Refused(cfg, st, f);
    }
  }

  /** A record dealt with moves what it carries from the pending ones to the ring. */
  lemma OneRecordAccounts(cfg: Config, sent: seq<Message>, st: State, rec: Rec, fs: seq<Fragment>,
                          pending: seq<Fragment>, all: seq<Fragment>)
    requires Good(sent, st) && st.record.data == [] && AllHonest(sent, fs) && Carries(cfg, rec, fs)
    requires NoneRefused(cfg, st, fs) && Near(fs, st.readSeq)
    requires var next := AfterRecord(cfg, st, rec); Good(sent, next) && SamePosition(st.(record := next.record), next)
    requires Accounts(st, fs + pending, all)
    ensures Accounts(AfterRecord(cfg, st, rec), pending, all)
  {
    hide AfterRecord, Faithful, HonestRec, Carries, AllHonest, NoneRefused, Near, Begun, Stored, Seen, Arrived;
    var next := AfterRecord(cfg, st, rec);
    forall q: nat, j: nat | HandedOut(st) <= q
      ensures AccountsFor(next, pending, all, q, j)
    {
      assert AccountsFor(st, fs + pending, all, q, j);
      OneRecordStores(cfg, sent, st, rec, fs, q, j);
      SeenInParts(fs, pending, q, j);
    }
  }

  lemma MoreArrives(st: State, pending: seq<Fragment>, all: seq<Fragment>, more: seq<Fragment>)
    requires st.WellFormed() && Accounts(st, pending, all)
    ensures Accounts(st, pending + more, all + more)
  {
    hide Begun, Stored, Seen, Arrived;
    forall q: nat, j: nat | HandedOut(st) <= q
      ensures AccountsFor(st, pending + more, all + more, q, j)
    {
      assert AccountsFor(st, pending, all, q, j);
      SeenInParts(all, more, q, j);
      SeenInParts(pending, more, q, j);
    }
  }

  /** Releasing the current message loses nothing of the later ones. */
  lemma ReleaseAccounts(st: State, pending: seq<Fragment>, all: seq<Fragment>)
    requires Ring(st) && st.hasCurrent && st.readSeq + 1 < SEQ_LIMIT && Accounts(st, pending, all)
    ensures Accounts(Release(st), pending, all)
  {
    hide Seen, Arrived;
    var after := Release(st);
    ReleaseKeepsRing(st);
    forall q: nat, j: nat | HandedOut(after) <= q
      ensures AccountsFor(after, pending, all, q, j)
    {
      assert AccountsFor(st, pending, all, q, j);
      RingBegun(st, q);
      RingBegun(after, q);
    }
  }

  // ----- one call ------------------------------------------------------------

  /** With nothing pending, the front message is whole if and only if all of it is here. */
  lemma FrontIsWhole(sent: seq<Message>, st: State, pending: seq<Fragment>, all: seq<Fragment>)
    requires Good(sent, st) && !st.hasCurrent && Accounts(st, pending, all)
    requires st.CurrentComplete() || pending == []
    ensures st.CurrentComplete() <==> AllHere(sent, all, st.readSeq)
  {
    hide HonestRec, Seen, Arrived;
    var q := st.readSeq;
    RingBegun(st, q);
    NothingArrived(q);
    assert AccountsFor(st, pending, all, q, 0);
    if Begun(st, q) {
      var s := st.Current().value;
      assert Faithful(sent, s);
      forall j: nat | j < |s.body|
        ensures Arrived(all, q, j) <==> j in s.covered || Arrived(pending, q, j)
      {
        assert AccountsFor(st, pending, all, q, j);
        assert Stored(st, q, j) <==> j in s.covered;
      }
    }
  }

  lemma NothingArrived(q: nat)
    ensures !Seen([], q) && forall j: nat :: !Arrived([], q, j)
  {}

  /** A record that does not fail the call carries the fragments it brings, none refused. */
  lemma RecordIsTaken(cfg: Config, sent: seq<Message>, st: State, rec: Rec, rest: seq<Rec>)
    requires Good(sent, st) && st.record.data == [] && HonestRec(sent, rec) && !st.CurrentComplete()
    requires !Await(cfg, st, [rec] + rest).2.Failed?
    ensures var fs := FragmentsOf(rec);
            AllHonest(sent, fs) && Carries(cfg, rec, fs) && NoneRefused(cfg, st, fs)
  {
    hide Feed, Faithful, HonestRec, SerializeAll, Refused, FragmentsOf, State.CurrentComplete, Await;
    HonestFragmentsOf(sent, rec);
    AwaitFails(cfg, st, [rec] + rest);
    var fetched := st.(record := rec);
    assert ([rec] + rest)[0] == rec && ([rec] + rest)[1..] == rest;
    if rec.typ == RT_HANDSHAKE {
      FeedSucceedsExactly(cfg, sent, fetched, FragmentsOf(rec));
      RefusedAlike(cfg, st, fetched);
    } else {
      NothingOf(rec);
    }
  }

  lemma NothingOf(rec: Rec)
    requires rec.typ != RT_HANDSHAKE
    ensures FragmentsOf(rec) == []
  {}

  lemma AwaitFails(cfg: Config, st: State, inbox: seq<Rec>)
    requires st.WellFormed() && !st.CurrentComplete()
    ensures ProcessRecord(cfg, st, inbox).2.Failed? ==> Await(cfg, st, inbox).2.Failed?
  {}

  /** Waiting for the front message, unless the call fails: it comes if and only if all of
      it is here, and what was not needed stays in the ring or in the queue. */
  lemma {:induction false} AwaitAccounts(cfg: Config, sent: seq<Message>, st: State, inbox: seq<Rec>,
                                         all: seq<Fragment>)
    requires Good(sent, st) && !st.hasCurrent && st.record.data == [] && HonestInbox(sent, inbox)
    requires Near(Brought(inbox), st.readSeq) && Accounts(st, Brought(inbox), all)
    requires !Await(cfg, st, inbox).2.Failed?
    ensures var (after, rest, ret) := Await(cfg, st, inbox);
            && Good(sent, after) && after.record.data == []
            && |rest| <= |inbox| && rest == inbox[|inbox| - |rest|..]
            && Accounts(after, Brought(rest), all)
            && (if AllHere(sent, all, st.readSeq) then ret.Done? else ret.Blocked? && rest == [])
    decreases |inbox|
  {
    hide Feed, AfterRecord, Faithful, HonestRec, SerializeAll, AllHere, NoneRefused, Near, ProcessRecord, AccountsFor;
    hide FragmentsOf, Carries;
    if st.CurrentComplete() {
      FrontIsWhole(sent, st, Brought(inbox), all);
      OpenedAccounts(sent, st, Brought(inbox), all);
    } else if inbox == [] {
      FrontIsWhole(sent, st, Brought(inbox), all);
      NothingInside(cfg, st);
    } else {
      var rec, rest := inbox[0], inbox[1..];
      var fs := FragmentsOf(rec);
      assert rec in inbox && inbox == [rec] + rest;
      NearParts(fs, Brought(rest), st.readSeq);
      RecordIsTaken(cfg, sent, st, rec, rest);
      OneRecord(cfg, sent, st, rec, fs, rest);
      GoesOn(cfg, st, rec, rest);
      OneRecordAccounts(cfg, sent, st, rec, fs, Brought(rest), all);
      AwaitAccounts(cfg, sent, AfterRecord(cfg, st, rec), rest, all);
    }
  }

  lemma NothingInside(cfg: Config, st: State)
    requires st.WellFormed() && st.record.data == [] && !st.CurrentComplete()
    ensures Await(cfg, st, []) == (st, [], Blocked)
  {}

  lemma NearParts(a: seq<Fragment>, b: seq<Fragment>, next: nat)
    requires Near(a + b, next)
    ensures Near(a, next) && Near(b, next)
  {
    assert forall f :: f in a || f in b ==> f in a + b;
  }

  lemma NearMore(a: seq<Fragment>, b: seq<Fragment>, next: nat)
    requires Near(a, next) && Near(b, next)
    ensures Near(a + b, next)
  {}

  /** Handing the front message out takes nothing away from the later ones. */
  lemma OpenedAccounts(sent: seq<Message>, st: State, pending: seq<Fragment>, all: seq<Fragment>)
    requires Good(sent, st) && !st.hasCurrent && st.CurrentComplete() && Accounts(st, pending, all)
    ensures var after := st.(hasCurrent := true); Good(sent, after) && Accounts(after, pending, all)
  {
    hide Seen, Arrived, Faithful, HonestRec, Slot.Complete;
    var after := st.(hasCurrent := true);
    forall q: nat, j: nat | HandedOut(after) <= q
      ensures AccountsFor(after, pending, all, q, j)
    {
      assert AccountsFor(st, pending, all, q, j);
    }
  }

  // ----- whole runs ----------------------------------------------------------

  function PlaceOf(st: State): Place {
    Place(HandedOut(st), st.hasCurrent)
  }

  lemma {:induction false} BroughtConcat(a: seq<Rec>, b: seq<Rec>)
    ensures Brought(a + b) == Brought(a) + Brought(b)
    decreases |a|
  {
    hide FragmentsOf;
    if a == [] {
      assert a + b == b;
    } else {
      assert (a + b)[1..] == a[1..] + b;
      BroughtConcat(a[1..], b);
    }
  }

  lemma NearRest(inbox: seq<Rec>, n: nat, next: nat, later: nat)
    requires n <= |inbox| && Near(Brought(inbox), next) && next <= later
    ensures Near(Brought(inbox[n..]), later)
  {
    assert inbox == inbox[..n] + inbox[n..];
    BroughtConcat(inbox[..n], inbox[n..]);
    NearParts(Brought(inbox[..n]), Brought(inbox[n..]), next);
  }

  /** What holds between calls of the ring, the records still queued and what has arrived. */
  ghost predicate Keeping(sent: seq<Message>, st: State, inbox: seq<Rec>, all: seq<Fragment>) {
    && Good(sent, st) && st.record.data == [] && |sent| < SEQ_LIMIT
    && HonestInbox(sent, inbox)
    && Near(Brought(inbox), HandedOut(st))
    && Accounts(st, Brought(inbox), all)
  }

  /** The ring just before a call waits for the next message. */
  lemma Releasing(sent: seq<Message>, st: State, inbox: seq<Rec>, all: seq<Fragment>)
    requires Keeping(sent, st, inbox, all)
    ensures var front := if st.hasCurrent then Release(st) else st;
            Keeping(sent, front, inbox, all) && !front.hasCurrent && front.readSeq == HandedOut(st)
  {
    hide HonestInbox, Near, Accounts, Faithful, HonestRec;
    if st.hasCurrent {
      CurrentIsSent(sent, st);
      ReleaseIsGood(sent, st);
      ReleaseAccounts(st, Brought(inbox), all);
    }
  }

  lemma Arriving(sent: seq<Message>, st: State, inbox: seq<Rec>, all: seq<Fragment>, arrivals: seq<Rec>)
    requires Keeping(sent, st, inbox, all)
    requires HonestInbox(sent, arrivals) && Near(Brought(arrivals), HandedOut(st))
    ensures Keeping(sent, st, inbox + arrivals, all + Brought(arrivals))
  {
    hide HonestRec, Near, Accounts, Good;
    BroughtConcat(inbox, arrivals);
    NearMore(Brought(inbox), Brought(arrivals), HandedOut(st));
    assert st.WellFormed() by { WellFormedIfGood(sent, st); }
    MoreArrives(st, Brought(inbox), all, Brought(arrivals));
  }

  lemma WellFormedIfGood(sent: seq<Message>, st: State)
    requires Good(sent, st)
    ensures st.WellFormed()
  {}

  /** One call that does not fail is one turn of the simple form. */
  lemma AnswerIsTurn(sent: seq<Message>, st: State, inbox: seq<Rec>, all: seq<Fragment>, c: Call)
    requires Keeping(sent, st, inbox, all)
    requires HonestInbox(sent, c.arrivals) && Near(Brought(c.arrivals), HandedOut(st))
    requires !Answer(st, inbox, c).2.Failed?
    ensures var (next, rest, ret) := Answer(st, inbox, c);
            var now := all + Brought(c.arrivals);
            && Keeping(sent, next, rest, now)
            && (PlaceOf(next), if ret.Done? && !Rereads(st, c) then [MessageIn(next)] else [])
               == Turn(sent, now, PlaceOf(st), c.reuse)
            && (ret.Blocked? ==> rest == [])
  {
    hide Near, Accounts, AllHere, Await, Faithful, HonestRec, MessageIn, Brought;
    var queue, now := inbox + c.arrivals, all + Brought(c.arrivals);
    Arriving(sent, st, inbox, all, c.arrivals);
    if Rereads(st, c) {
      RereadIsImmediate(c.cfg, st, queue);
    } else {
      Releasing(sent, st, queue, now);
      var front := if st.hasCurrent then Release(st) else st;
      AwaitAccounts(c.cfg, sent, front, queue, now);
      var (next, rest, ret) := Await(c.cfg, front, queue);
      NearRest(queue, |queue| - |rest|, HandedOut(st), HandedOut(next));
      if ret.Done? {
        CurrentIsSent(sent, next);
      }
    }
  }

  lemma {:induction false} RunIsInOrder(sent: seq<Message>, st: State, inbox: seq<Rec>, all: seq<Fragment>,
                                        calls: seq<Call>)
    requires Keeping(sent, st, inbox, all)
    requires forall c :: c in calls ==> HonestInbox(sent, c.arrivals)
    requires InReach(sent, all, PlaceOf(st), calls) && NoneFails(st, inbox, calls)
    ensures Delivered(st, inbox, calls) == InOrder(sent, all, PlaceOf(st), calls)
    decreases |calls|
  {
    hide Answer, HonestInbox, Near, Accounts, Good, Turn, MessageIn, Brought;
    WellFormedIfGood(sent, st);
    if calls != [] {
      assert calls[0] in calls;
      AnswerIsTurn(sent, st, inbox, all, calls[0]);
      var (next, rest, ret) := Answer(st, inbox, calls[0]);
      RunIsInOrder(sent, next, rest, all + Brought(calls[0].arrivals), calls[1..]);
    }
  }

  /** The receiver loses nothing, in either epoch. Records of honest fragments arrive in any
      order, cut and repeated in any way; calls, re-reads among them, come at any time. As
      long as no call fails and no fragment is more than seven messages ahead, what is
      handed out is exactly what the reader hands out who keeps every fragment: each
      message at the first call at which it is whole. */
  lemma NothingIsLost(sent: seq<Message>, calls: seq<Call>)
    requires |sent| < SEQ_LIMIT && forall c :: c in calls ==> HonestInbox(sent, c.arrivals)
    requires InReach(sent, [], BEGIN, calls) && NoneFails(START, [], calls)
    ensures Delivered(START, [], calls) == InOrder(sent, [], BEGIN, calls)
  {
    hide Delivered, InOrder, InReach, NoneFails;
    StartKeeps(sent);
    RunIsInOrder(sent, START, [], [], calls);
  }

  lemma StartKeeps(sent: seq<Message>)
    requires |sent| < SEQ_LIMIT
    ensures Keeping(sent, START, [], [])
  {
    StartIsRing();
    EmptyRecIsHonest(sent, START.record.typ);
    forall q: nat, j: nat
      ensures AccountsFor(START, [], [], q, j)
    {
      NothingArrived(q);
    }
  }

  // ----- calls in the clear do not fail --------------------------------------

  /** What may come in the clear, for messages no longer than the state machine allows. */
  predicate PlainRec(r: Rec) {
    r.typ == RT_HANDSHAKE || r.typ == RT_CHANGE_CIPHER_SPEC
  }

  ghost predicate Allows(cfg: Config, sent: seq<Message>) {
    cfg.epoch == 0 && !cfg.encrypted && forall m :: m in sent ==> |m.body| <= cfg.maxLen
  }

  lemma PlainIsAdmitted(cfg: Config, sent: seq<Message>, st: State, rec: Rec)
    requires Allows(cfg, sent) && |sent| <= st.readSeq + MAX_FLIGHT && HonestRec(sent, rec) && PlainRec(rec)
    ensures var fs := FragmentsOf(rec);
            AllHonest(sent, fs) && Carries(cfg, rec, fs) && NoneRefused(cfg, st, fs)
  {
    hide HonestRec, FragmentsOf, SerializeAll;
    HonestFragmentsOf(sent, rec);
    if rec.typ != RT_HANDSHAKE {
      NothingOf(rec);
    }
    forall f | f in FragmentsOf(rec)
      ensures !Refused(cfg, st, f)
    {
      assert HonestFragment(sent, f) && sent[f.seqNo] in sent;
    }
  }

  lemma {:induction false} PlainAwaitDoesNotFail(cfg: Config, sent: seq<Message>, st: State, inbox: seq<Rec>)
    requires Good(sent, st) && st.record.data == [] && Allows(cfg, sent) && |sent| <= st.readSeq + MAX_FLIGHT
    requires HonestInbox(sent, inbox) && forall r :: r in inbox ==> PlainRec(r)
    ensures var (after, rest, ret) := Await(cfg, st, inbox);
            !ret.Failed? && after.record.data == [] && forall r :: r in rest ==> PlainRec(r)
    decreases |inbox|
  {
    hide Feed, AfterRecord, Faithful, HonestRec, SerializeAll, NoneRefused, ProcessRecord, FragmentsOf, Carries, Allows;
    if !st.CurrentComplete() {
      if inbox == [] {
        NothingInside(cfg, st);
      } else {
        var rec, rest := inbox[0], inbox[1..];
        assert rec in inbox && inbox == [rec] + rest;
        PlainIsAdmitted(cfg, sent, st, rec);
        OneRecord(cfg, sent, st, rec, FragmentsOf(rec), rest);
        GoesOn(cfg, st, rec, rest);
        PlainAwaitDoesNotFail(cfg, sent, AfterRecord(cfg, st, rec), rest);
      }
    }
  }

  /** In the clear, with room in the ring for all messages, no call fails. */
  lemma {:induction false} PlainCallsDoNotFail(sent: seq<Message>, st: State, inbox: seq<Rec>, calls: seq<Call>)
    requires Good(sent, st) && st.record.data == [] && |sent| < SEQ_LIMIT && |sent| <= HandedOut(st) + MAX_FLIGHT
    requires HonestInbox(sent, inbox) && forall r :: r in inbox ==> PlainRec(r)
    requires forall c :: c in calls ==> Allows(c.cfg, sent) && HonestInbox(sent, c.arrivals)
    requires forall c, r :: c in calls && r in c.arrivals ==> PlainRec(r)
    ensures NoneFails(st, inbox, calls)
    decreases |calls|
  {
    hide Await, Faithful, HonestRec, Allows, PlainRec;
    if calls != [] {
      var c := calls[0];
      assert c in calls;
      AnswerIsGood(sent, st, inbox, c);
      var queue := inbox + c.arrivals;
      if Rereads(st, c) {
        RereadIsImmediate(c.cfg, st, queue);
      } else {
        if st.hasCurrent {
          ReleaseIsGood(sent, st);
        }
        PlainAwaitDoesNotFail(c.cfg, sent, if st.hasCurrent then Release(st) else st, queue);
      }
      var (next, rest, ret) := Answer(st, inbox, c);
      PlainCallsDoNotFail(sent, next, rest, calls[1..]);
    }
  }

  // ----- when everything has arrived -----------------------------------------

  lemma MoreIsHere(sent: seq<Message>, fs: seq<Fragment>, more: seq<Fragment>, q: nat)
    requires AllHere(sent, fs, q)
    ensures AllHere(sent, fs + more, q)
  {
    hide Seen, Arrived;
    SeenInParts(fs, more, q, 0);
    forall j: nat
      ensures Arrived(fs, q, j) ==> Arrived(fs + more, q, j)
    {
      SeenInParts(fs, more, q, j);
    }
  }

  lemma HereIsSent(sent: seq<Message>, fs: seq<Fragment>, q: nat)
    ensures AllHere(sent, fs, q) ==> q < |sent|
  {}

  /** What has arrived by the end of the first k calls. */
  function UpTo(fs: seq<Fragment>, calls: seq<Call>, k: nat): seq<Fragment>
    requires k <= |calls|
    decreases k
  {
    if k == 0 then fs else UpTo(fs + Brought(calls[0].arrivals), calls[1..], k - 1)
  }

  /** When every message is here by the end of k calls, and a call is left for each, all
      are handed out, unless calls are spent on re-reads. */
  lemma {:induction false} CallsEmptyTheRing(sent: seq<Message>, fs: seq<Fragment>, p: Place, calls: seq<Call>, k: nat)
    requires p.next <= |sent| && k <= |calls|
    requires forall q: nat :: p.next <= q < |sent| ==> AllHere(sent, UpTo(fs, calls, k), q)
    requires (forall c :: c in calls ==> !c.reuse) && |calls| >= k + |sent| - p.next
    ensures InOrder(sent, fs, p, calls) == sent[p.next..]
    decreases |calls|
  {
    hide Brought, AllHere;
    if calls != [] {
      var now := fs + Brought(calls[0].arrivals);
      var (next, out) := Turn(sent, now, p, calls[0].reuse);
      assert calls[0] in calls;
      var m := if k == 0 then 0 else k - 1;
      forall q: nat | p.next <= q < |sent|
        ensures AllHere(sent, UpTo(now, calls[1..], m), q)
      {
        assert AllHere(sent, UpTo(fs, calls, k), q);
        if k == 0 {
          MoreIsHere(sent, fs, Brought(calls[0].arrivals), q);
        }
      }
      assert k == 0 ==> UpTo(now, calls[1..], m) == now;
      HereIsSent(sent, now, p.next);
      CallsEmptyTheRing(sent, now, next, calls[1..], m);
    }
  }

  lemma {:induction false} NearBrought(sent: seq<Message>, inbox: seq<Rec>, next: nat)
    requires HonestInbox(sent, inbox) && |sent| <= next + MAX_FLIGHT + 1
    ensures Near(Brought(inbox), next)
    decreases |inbox|
  {
    hide HonestRec, FragmentsOf;
    if inbox != [] {
      assert inbox[0] in inbox;
      HonestFragmentsOf(sent, inbox[0]);
      NearBrought(sent, inbox[1..], next);
      assert forall f :: f in FragmentsOf(inbox[0]) ==> HonestFragment(sent, f);
    }
  }

  /** Of eight messages or fewer, every fragment is in reach. */
  lemma {:induction false} FewAreInReach(sent: seq<Message>, fs: seq<Fragment>, p: Place, calls: seq<Call>)
    requires |sent| <= p.next + MAX_FLIGHT + 1 && forall c :: c in calls ==> HonestInbox(sent, c.arrivals)
    ensures InReach(sent, fs, p, calls)
    decreases |calls|
  {
    hide HonestInbox, Brought;
    if calls != [] {
      assert calls[0] in calls;
      NearBrought(sent, calls[0].arrivals, p.next);
      var now := fs + Brought(calls[0].arrivals);
      FewAreInReach(sent, now, Turn(sent, now, p, calls[0].reuse).0, calls[1..]);
    }
  }

  /** A flight every byte of which has arrived by the k-th call, in any order, pieces and
      repetitions, is handed out whole once each message has had a call, if none fails. */
  lemma FlightIsDelivered(sent: seq<Message>, calls: seq<Call>, k: nat)
    requires |sent| <= MAX_FLIGHT && forall c :: c in calls ==> HonestInbox(sent, c.arrivals)
    requires |calls| >= k + |sent| && forall c :: c in calls ==> !c.reuse
    requires forall q: nat :: q < |sent| ==> AllHere(sent, UpTo([], calls, k), q)
    requires NoneFails(START, [], calls)
    ensures Delivered(START, [], calls) == sent
  {
    hide Delivered, InReach, InOrder, AllHere, HonestInbox, UpTo, NoneFails;
    FewAreInReach(sent, [], BEGIN, calls);
    NothingIsLost(sent, calls);
    CallsEmptyTheRing(sent, [], BEGIN, calls, k);
  }
}
