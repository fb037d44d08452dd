/**
 A flight whose packets arrive in the order in which they were sent: because its record
 numbers increase, a fresh receiver accepts every record, and hands out every message.
 */
module FlightInOrder {
  import opened Common
  import opened Wire
  import opened HandshakeWire
  import opened Receiver
  import opened Delivery
  import opened RecordInput
  import opened EndToEnd
  import opened RecordsPassed
  import opened Progress
  import opened Connection
  import opened FlightNumbers
  import opened FlightDelivery
  import opened FlightSucceeds
  import Flight
  import FlightCoverage
  import FlightWriter
  import RecordLayer
  import ReplayWindow

  // ----- records in a reader -------------------------------------------------

  function Flat(packets: seq<seq<Flight.Sealed>>): seq<Flight.Sealed> {
    if packets == [] then [] else packets[0] + Flat(packets[1..])
  }

  function Wires(packets: seq<seq<Flight.Sealed>>): (r: seq<seq<byte>>)
    ensures |r| == |packets|
  {
    seq(|packets|, i requires 0 <= i < |packets| => FlightWriter.Bytes(packets[i]))
  }

  /** The record passes every check of a reader in epoch 0 but that of its number. */
  ghost predicate Fits0(s: Flight.Sender, x: Flight.Sealed) {
    && Genuine(s, x) && s.version / 0x100 == RecordLayer.VERSION_MAJOR && Epoch(x.number) == 0
    && |x.wire| <= BUFFER_CAPACITY && |RecOf(x.piece).data| <= MAX_PLAIN_LENGTH
  }

  /** No number up to this one has been noted. */
  predicate Below(w: ReplayWindow.Window, n: nat) {
    w == ReplayWindow.FRESH || w.max < n
  }

  /** In epoch 0 the reader has the records of `buffer` and then those of the packets left
      to read, all of which it will accept. */
  ghost predicate HasLeft(s: Flight.Sender, rd: Reading, buffer: seq<Flight.Sealed>, packets: seq<seq<Flight.Sealed>>) {
    && rd.alerts.shutdown.Running? && rd.conn.epoch == 0 && (rd.haveVersion ==> s.version == rd.version)
    && rd.buffer == FlightWriter.Bytes(buffer) && rd.waiting == Wires(packets)
    && (forall p :: p in packets ==> p != [] && Flight.Size(p) <= BUFFER_CAPACITY)
    && WillBeAccepted(s, rd.conn.window, buffer + Flat(packets))
  }

  ghost predicate WillBeAccepted(s: Flight.Sender, w: ReplayWindow.Window, xs: seq<Flight.Sealed>) {
    (forall x :: x in xs ==> Fits0(s, x) && Below(w, x.number)) && Rising(xs)
  }

  ghost predicate Rising(xs: seq<Flight.Sealed>) {
    forall i, j :: 0 <= i < j < |xs| ==> xs[i].number < xs[j].number
  }

  lemma WindowMoves(w: ReplayWindow.Window, n: nat)
    requires Below(w, n)
    ensures !ReplayWindow.ShouldDiscard(w, n) && ReplayWindow.Record(w, n).max == n
  {
    hide ReplayWindow.Shl, ReplayWindow.SetAt, ReplayWindow.Amount;
    if w == ReplayWindow.FRESH {
      ReplayWindow.FreshRepresentsNothing();
      ReplayWindow.DiscardsExactly(w, {}, n);
    }
  }

  function RecIn(x: Flight.Sealed): Rec {
    if x.piece.FragmentPiece? && !x.piece.f.FitsHeader() then Rec(0, []) else RecOf(x.piece)
  }

  /** What the records open to. */
  function Recs(xs: seq<Flight.Sealed>): (r: seq<Rec>)
    ensures |r| == |xs|
  {
    if xs == [] then [] else [RecIn(xs[0])] + Recs(xs[1..])
  }

  /** The buffer is used up and the next packet is fetched. */
  lemma Fetch(keys: Flight.Cipher, s: Flight.Sender, rd: Reading, packets: seq<seq<Flight.Sealed>>)
    requires HasLeft(s, rd, [], packets) && packets != []
    ensures var next := rd.(buffer := Received(rd.waiting[0]), waiting := rd.waiting[1..]);
            PassedOver(keys, rd, next) && HasLeft(s, next, packets[0], packets[1..])
  {
    hide WillBeAccepted, FlightWriter.Bytes, BadHeader;
    var p := packets[0];
    assert p in packets && rd.waiting[0] == FlightWriter.Bytes(p);
    assert [] + Flat(packets) == p + Flat(packets[1..]);
    FirstIsNotEmpty(s, rd.conn.window, p, Flat(packets[1..]));
    WiresStep(packets);
    NoBytes();
    assert Received(rd.waiting[0]) == rd.waiting[0];
  }

  lemma NoBytes()
    ensures FlightWriter.Bytes([]) == []
  {}

  lemma WiresStep(packets: seq<seq<Flight.Sealed>>)
    requires packets != []
    ensures Wires(packets)[1..] == Wires(packets[1..])
  {}

  lemma FirstIsNotEmpty(s: Flight.Sender, w: ReplayWindow.Window, p: seq<Flight.Sealed>, more: seq<Flight.Sealed>)
    requires p != [] && WillBeAccepted(s, w, p + more)
    ensures FlightWriter.Bytes(p) != []
  {
    hide Fits0;
    assert (p + more)[0] in p + more;
    WireIsNotEmpty(s, p[0]);
  }

  lemma WireIsNotEmpty(s: Flight.Sender, x: Flight.Sealed)
    requires Fits0(s, x)
    ensures x.wire != []
  {
    hide Genuine;
    GenuineIsNotEmpty(s, x);
  }

  /** The next call hands on the first record left, and leaves the others. */
  lemma TakesFirst(keys: Flight.Cipher, s: Flight.Sender, rd: Reading, buffer: seq<Flight.Sealed>,
                   packets: seq<seq<Flight.Sealed>>)
    requires HasLeft(s, rd, buffer, packets) && buffer != [] && SharesKeys(keys, s) && s.epoch <= 1
    ensures var (next, got) := NextRecord(keys, rd);
            Fits0(s, buffer[0]) && got == Handed(RecOf(buffer[0].piece)) && HasLeft(s, next, buffer[1..], packets)
  {
    hide NextRecord, Genuine, RecOf, ReplayWindow.Record, ReplayWindow.ShouldDiscard, WillBeAccepted;
    var x, later := buffer[0], FlightWriter.Bytes(buffer[1..]);
    var xs := buffer + Flat(packets);
    FirstIsAccepted(s, rd.conn.window, xs);
    SameEpoch(x.number);
    assert rd.buffer == x.wire + later;
    GenuineIsHandedOn(keys, s, [rd], x, later);
    assert buffer[1..] + Flat(packets) == xs[1..];
  }

  lemma FirstIsAccepted(s: Flight.Sender, w: ReplayWindow.Window, xs: seq<Flight.Sealed>)
    requires WillBeAccepted(s, w, xs) && xs != []
    ensures Fits0(s, xs[0]) && !ReplayWindow.ShouldDiscard(w, xs[0].number)
    ensures WillBeAccepted(s, ReplayWindow.Record(w, xs[0].number), xs[1..])
  {
    hide Fits0, ReplayWindow.Record, ReplayWindow.ShouldDiscard;
    assert xs[0] in xs;
    WindowMoves(w, xs[0].number);
    var left := xs[1..];
    forall y | y in left
      ensures Fits0(s, y) && Below(ReplayWindow.Record(w, xs[0].number), y.number)
    {
      var j :| 0 <= j < |left| && left[j] == y;
      assert xs[j + 1] == y && y in xs;
    }
  }

  lemma SameEpoch(n: nat)
    ensures Epoch(n) == RecordLayer.EpochOf(n)
  {}

  /** The records left, whatever packet they are in. */
  lemma NextInOrder(keys: Flight.Cipher, s: Flight.Sender, rd: Reading, buffer: seq<Flight.Sealed>,
                    packets: seq<seq<Flight.Sealed>>)
    returns (buffer': seq<Flight.Sealed>, packets': seq<seq<Flight.Sealed>>)
    requires HasLeft(s, rd, buffer, packets) && SharesKeys(keys, s) && s.epoch <= 1
    ensures var (next, got) := NextRecord(keys, rd);
            && HasLeft(s, next, buffer', packets')
            && if buffer + Flat(packets) == [] then got.Stopped? && buffer' + Flat(packets') == []
               else
                 var xs := buffer + Flat(packets);
                 xs[0] in xs && Fits0(s, xs[0]) && got == Handed(RecOf(xs[0].piece)) && buffer' + Flat(packets')
                   == xs[1..]
  {
    hide NextRecord, Fits0, RecOf, WillBeAccepted;
    if buffer != [] {
      TakesFirst(keys, s, rd, buffer, packets);
      buffer', packets' := buffer[1..], packets;
    } else if packets != [] {
      Fetch(keys, s, rd, packets);
      var next := rd.(buffer := Received(rd.waiting[0]), waiting := rd.waiting[1..]);
      CallGoesOn(keys, [rd, next]);
      assert packets[0] in packets;
      TakesFirst(keys, s, next, packets[0], packets[1..]);
      buffer', packets' := packets[0][1..], packets[1..];
    } else {
      NothingLeft(keys, rd);
      buffer', packets' := [], [];
    }
  }

  lemma NothingLeft(keys: Flight.Cipher, rd: Reading)
    requires rd.alerts.shutdown.Running? && rd.buffer == [] && rd.waiting == []
    ensures NextRecord(keys, rd) == (rd, Stopped(-1))
  {}

  // ----- calls for messages --------------------------------------------------

  /** A call takes records off the front of those left; when it blocks, none is left. */
  lemma {:induction false} AwaitInOrder(keys: Flight.Cipher, cfg: Config, s: Flight.Sender, st: State, inbox: seq<Rec>,
                                        rd: Reading, buffer: seq<Flight.Sealed>, packets: seq<seq<Flight.Sealed>>)
    returns (buffer': seq<Flight.Sealed>, packets': seq<seq<Flight.Sealed>>)
    requires st.WellFormed() && HasLeft(s, rd, buffer, packets) && SharesKeys(keys, s) && s.epoch <= 1
    ensures var (after, d, fetched, ret) := AwaitOn(keys, cfg, st, inbox, rd);
            && HasLeft(s, d, buffer', packets')
            && Recs(buffer + Flat(packets)) == fetched + Recs(buffer' + Flat(packets'))
            && (ret.Blocked? ==> buffer' + Flat(packets') == [])
    decreases |rd.waiting|, |rd.buffer|
  {
    hide NextRecord, Fits0, RecOf, HasLeft, Await;
    var (next, rest, ret) := Await(cfg, st, inbox);
    if !ret.Blocked? {
      buffer', packets' := buffer, packets;
    } else {
      var xs := buffer + Flat(packets);
      var b, p := NextInOrder(keys, s, rd, buffer, packets);
      var (after, got) := NextRecord(keys, rd);
      if got.Handed? {
        HeaderFits(s, xs[0]);
        buffer', packets' := AwaitInOrder(keys, cfg, s, next, [got.rec], after, b, p);
        assert Recs(xs) == [got.rec] + Recs(xs[1..]);
      } else {
        buffer', packets' := b, p;
      }
    }
  }

  lemma HeaderFits(s: Flight.Sender, x: Flight.Sealed)
    requires Fits0(s, x)
    ensures RecIn(x) == RecOf(x.piece)
  {
    hide Genuine;
    GenuineFits(s, x);
  }

  lemma AskInOrder(keys: Flight.Cipher, s: Flight.Sender, l: Link, maxLen: nat, buffer: seq<Flight.Sealed>,
                   packets: seq<seq<Flight.Sealed>>)
    returns (buffer': seq<Flight.Sealed>, packets': seq<seq<Flight.Sealed>>)
    requires l.ring.WellFormed() && HasLeft(s, l.rd, buffer, packets) && SharesKeys(keys, s) && s.epoch <= 1
    ensures var (next, fetched, ret) := Ask(keys, l, maxLen, false);
            && HasLeft(s, next.rd, buffer', packets')
            && Recs(buffer + Flat(packets)) == fetched + Recs(buffer' + Flat(packets'))
            && (ret.Blocked? ==> buffer' + Flat(packets') == [])
  {
    hide AwaitOn, HasLeft, Recs;
    var front := if l.ring.hasCurrent then Release(l.ring) else l.ring;
    buffer', packets' := AwaitInOrder(keys, ConfigOf(l.rd, maxLen), s, front, [], l.rd, buffer, packets);
  }

  function Times(maxLen: nat, k: nat): (r: seq<Event>)
    ensures |r| == k && forall e :: e in r ==> e == Asks(maxLen, false)
  {
    if k == 0 then [] else Times(maxLen, k - 1) + [Asks(maxLen, false)]
  }

  /** After k calls: what was taken and what is left are the records in order. */
  lemma {:induction false} CallsInOrder(keys: Flight.Cipher, s: Flight.Sender, l: Link, maxLen: nat, k: nat,
                                        buffer: seq<Flight.Sealed>, packets: seq<seq<Flight.Sealed>>)
    returns (buffer': seq<Flight.Sealed>, packets': seq<seq<Flight.Sealed>>)
    requires l.ring.WellFormed() && HasLeft(s, l.rd, buffer, packets) && SharesKeys(keys, s) && s.epoch <= 1
    ensures var events := Times(maxLen, k);
            && HasLeft(s, LinkAfter(keys, l, events).rd, buffer', packets')
            && Recs(buffer + Flat(packets))
               == Arrivals(CallsOf(keys, l, events)) + Recs(buffer' + Flat(packets'))
    decreases k
  {
    hide Ask, HasLeft, Recs, Flat, LinkAfter, CallsOf, Out, CallOf, NoCallFails;
    if k == 0 {
      NoEvents(keys, l);
      assert [] + Recs(buffer + Flat(packets)) == Recs(buffer + Flat(packets));
      buffer', packets' := buffer, packets;
    } else {
      var b, p := CallsInOrder(keys, s, l, maxLen, k - 1, buffer, packets);
      var before := Times(maxLen, k - 1);
      var m := LinkAfter(keys, l, before);
      buffer', packets' := AskInOrder(keys, s, m, maxLen, b, p);
      RunGoesOn(keys, l, before, [Asks(maxLen, false)]);
      OneAsk(keys, m, maxLen);
      ArrivalsGoOn(CallsOf(keys, l, before), CallOf(keys, m, maxLen, false));
      var fetched := Ask(keys, m, maxLen, false).1;
      assert Arrivals(CallsOf(keys, l, before)) + (fetched + Recs(buffer' + Flat(packets')))
          == Arrivals(CallsOf(keys, l, before)) + fetched + Recs(buffer' + Flat(packets'));
    }
  }

  lemma OneAsk(keys: Flight.Cipher, l: Link, maxLen: nat)
    requires l.ring.WellFormed()
    ensures var events := [Asks(maxLen, false)];
            var (next, fetched, ret) := Ask(keys, l, maxLen, false);
            && LinkAfter(keys, l, events) == next
            && CallsOf(keys, l, events) == [CallOf(keys, l, maxLen, false)]
            && CallOf(keys, l, maxLen, false).arrivals == fetched
            && Out(keys, l, events) == (if ret.Done? then [MessageIn(next.ring)] else [])
            && (NoCallFails(keys, l, events) <==> !ret.Failed?)
  {
    hide Ask, MessageIn;
    var events := [Asks(maxLen, false)];
    assert events[1..] == [];
    var next := Ask(keys, l, maxLen, false).0;
    assert CallsOf(keys, next, []) == [] && Out(keys, next, []) == [];
  }

  lemma {:induction false} ArrivalsGoOn(calls: seq<Call>, c: Call)
    ensures Arrivals(calls + [c]) == Arrivals(calls) + c.arrivals
    decreases |calls|
  {
    if calls == [] {
      assert [] + [c] == [c] && [c][1..] == [];
    } else {
      assert (calls + [c])[0] == calls[0] && (calls + [c])[1..] == calls[1..] + [c];
      ArrivalsGoOn(calls[1..], c);
    }
  }

  // ----- in the clear no call fails ------------------------------------------

  /** No change of the read cipher, and room for every message. */
  ghost predicate InClear(sent: seq<Message>, events: seq<Event>) {
    forall e :: e in events ==>
      !e.ChangesReadCipher? && (e.Asks? ==> forall m :: m in sent ==> |m.body| <= e.maxLen)
  }

  lemma {:induction false} CallsInClear(sent: seq<Message>, keys: Flight.Cipher, l: Link, events: seq<Event>)
    requires l.ring.WellFormed() && l.rd.conn.epoch == 0 && InClear(sent, events)
    ensures forall c :: c in CallsOf(keys, l, events) ==> Allows(c.cfg, sent)
    decreases |events|
  {
    hide Ask, MessageIn;
    if events != [] {
      assert events[0] in events;
      CallsInClear(sent, keys, Step(keys, l, events[0]).0, events[1..]);
    }
  }

  lemma OffTheWireIsPlain(sent: seq<Message>, emissions: seq<Emission>, r: Rec)
    requires OffTheWire(sent, emissions, r)
    ensures PlainRec(r)
  {
    hide OpenedAll, Genuine, IsMessageOf, Packets, Flight.Payload;
    var e: Emission, packet: seq<Flight.Sealed> :| e in emissions && FlightOf(sent, e.sender) && packet in Packets(e)
      && r in OpenedAll(e.sender, FlightWriter.Bytes(packet));
    SentIsGenuine(sent, e, packet);
    PacketOpens(e.sender, packet);
    var i :| 0 <= i < |packet| && r == OpenedAll(e.sender, FlightWriter.Bytes(packet))[i];
    GenuineFits(e.sender, packet[i]);
  }

  /** Whatever packets arrive and when, and whatever is asked: as long as the read cipher
      does not change and no message is too long, no call fails. */
  lemma PlainRunDoesNotFail(sent: seq<Message>, keys: Flight.Cipher, emissions: seq<Emission>, events: seq<Event>)
    requires |sent| <= MAX_FLIGHT && OnlySent(sent, keys, emissions, events) && InClear(sent, events)
    ensures NoCallFails(keys, CONNECTED, events)
  {
    hide OffTheWire, OnlySent, CallsOf, NoneFails, NoCallFails, HonestRec, PlainRec, InClear;
    var calls := CallsOf(keys, CONNECTED, events);
    CallsAreOffTheWire(sent, keys, emissions, CONNECTED, events);
    forall c: Call, r: Rec | c in calls && r in c.arrivals
      ensures HonestRec(sent, r) && PlainRec(r)
    {
      OffTheWireIsHonest(sent, emissions, r);
      OffTheWireIsPlain(sent, emissions, r);
    }
    assert forall c :: c in calls ==> HonestInbox(sent, c.arrivals);
    CallsInClear(sent, keys, CONNECTED, events);
    StartKeeps(sent);
    PlainCallsDoNotFail(sent, Receiver.START, [], calls);
    CallsDoNotFail(keys, CONNECTED, events);
  }

  // ----- the packets of a flight ---------------------------------------------

  /** The flushes of one flight, each resumed where the one before failed. */
  ghost function EmissionsOf(s: Flight.Sender, attempts: seq<FlightCoverage.Attempt>): seq<Emission>
    requires s.WellFormed()
    decreases |attempts|
  {
    if attempts == [] then []
    else
      var a := attempts[0];
      [Emission(s, a)] + EmissionsOf(Flight.Flush(s, a.mtu, a.results, a.flushed).0, attempts[1..])
  }

  lemma {:induction false} FlushKeepsKeys(s: Flight.Sender, mtu: nat, results: seq<int>, flushed: int)
    requires s.WellFormed()
    ensures SameKeys(s, Flight.Flush(s, mtu, results, flushed).0)
    decreases |s.messages| - s.written, Flight.LeftOfMessage(s)
  {
    hide Flight.SealPacket, Genuine;
    if s.written < |s.messages| {
      SealPacketIsGenuine(s, mtu, false);
      var (t, packet) := Flight.SealPacket(s, mtu, false);
      if packet.Some? && results != [] && results[0] > 0 {
        FlushKeepsKeys(t, mtu, results[1..], flushed);
      }
    }
  }

  lemma {:induction false} FlightLeaves(sent: seq<Message>, keys: Flight.Cipher, s: Flight.Sender,
                                        attempts: seq<FlightCoverage.Attempt>, more: seq<Emission>)
    requires FlightOf(sent, s) && SharesKeys(keys, s) && forall e :: e in EmissionsOf(s, attempts) ==> e in more
    ensures forall p :: p in FlightCoverage.FlushAll(s, attempts).1 ==>
              WasSent(sent, keys, more, FlightWriter.Bytes(p)) && AllGenuine(s, p) && p != []
    decreases |attempts|
  {
    hide Flight.Flush, IsMessageOf, Genuine, FlightCoverage.PosOk, FlightCoverage.Readable;
    if attempts != [] {
      var a := attempts[0];
      var (t, packets, last) := Flight.Flush(s, a.mtu, a.results, a.flushed);
      FlightCoverage.FlushWalks(s, a.mtu, a.results, a.flushed);
      FlushIsGenuine(s, a.mtu, a.results, a.flushed);
      FlushKeepsKeys(s, a.mtu, a.results, a.flushed);
      assert Emission(s, a) in more && Packets(Emission(s, a)) == packets;
      forall p | p in packets
        ensures WasSent(sent, keys, more, FlightWriter.Bytes(p))
      {
        assert LeftIn(sent, keys, more, Emission(s, a), p);
      }
      if last.WriteFailed? {
        FlightLeaves(sent, keys, t, attempts[1..], more);
        KeysMakeGenuine(t, s);
      }
    }
  }

  lemma {:induction false} FlightNumbersRise(s: Flight.Sender, attempts: seq<FlightCoverage.Attempt>)
    requires s.WellFormed() && AllInClear(s)
    ensures var (t, packets, last) := FlightCoverage.FlushAll(s, attempts);
            UsedBetween(s, t, Numbers(packets)) && NumberedInClear(Numbers(packets))
    decreases |attempts|
  {
    hide Flight.Flush, UsedBetween, Epoch;
    if attempts == [] {
      NothingUsed(s, s);
    } else {
      var a := attempts[0];
      var (t, packets, last) := Flight.Flush(s, a.mtu, a.results, a.flushed);
      FlushNumbers(s, a.mtu, a.results, a.flushed);
      FlushInClear(s, a.mtu, a.results, a.flushed);
      if last.WriteFailed? {
        FlightNumbersRise(t, attempts[1..]);
        var (u, more, end) := FlightCoverage.FlushAll(t, attempts[1..]);
        UsedInTurn(s, t, u, Numbers(packets), Numbers(more));
        NumbersOfBoth(packets, more);
      }
    }
  }

  lemma {:induction false} NumbersOfBoth(a: seq<seq<Flight.Sealed>>, b: seq<seq<Flight.Sealed>>)
    ensures Numbers(a + b) == Numbers(a) + Numbers(b)
    decreases |a|
  {
    if a == [] {
      assert a + b == b;
    } else {
      assert (a + b)[1..] == a[1..] + b;
      NumbersOfBoth(a[1..], b);
    }
  }

  // ----- a fresh receiver ----------------------------------------------------

  function ArriveAll(packets: seq<seq<Flight.Sealed>>): seq<Event> {
    if packets == [] then [] else [Arrives(FlightWriter.Bytes(packets[0]))] + ArriveAll(packets[1..])
  }

  lemma {:induction false} AllWait(keys: Flight.Cipher, l: Link, packets: seq<seq<Flight.Sealed>>)
    requires l.ring.WellFormed()
    ensures LinkAfter(keys, l, ArriveAll(packets)) == l.(rd := l.rd.(waiting := l.rd.waiting + Wires(packets)))
    ensures Out(keys, l, ArriveAll(packets)) == [] && CallsOf(keys, l, ArriveAll(packets)) == []
    decreases |packets|
  {
    hide Out, CallsOf, LinkAfter, FlightWriter.Bytes;
    if packets == [] {
      NoEvents(keys, l);
      assert l.rd.waiting + Wires(packets) == l.rd.waiting;
    } else {
      var datagram := FlightWriter.Bytes(packets[0]);
      var next := l.(rd := l.rd.(waiting := l.rd.waiting + [datagram]));
      OneArrives(keys, l, datagram, ArriveAll(packets[1..]));
      AllWait(keys, next, packets[1..]);
      WiresStep(packets);
      assert l.rd.waiting + [Wires(packets)[0]] + Wires(packets)[1..] == l.rd.waiting + Wires(packets);
    }
  }

  lemma NoEvents(keys: Flight.Cipher, l: Link)
    requires l.ring.WellFormed()
    ensures LinkAfter(keys, l, []) == l && Out(keys, l, []) == [] && CallsOf(keys, l, []) == []
  {}

  lemma OneArrives(keys: Flight.Cipher, l: Link, datagram: seq<byte>, rest: seq<Event>)
    requires l.ring.WellFormed()
    ensures var next := l.(rd := l.rd.(waiting := l.rd.waiting + [datagram]));
            && LinkAfter(keys, l, [Arrives(datagram)] + rest) == LinkAfter(keys, next, rest)
            && Out(keys, l, [Arrives(datagram)] + rest) == Out(keys, next, rest)
            && CallsOf(keys, l, [Arrives(datagram)] + rest) == CallsOf(keys, next, rest)
  {
    hide Ask, MessageIn;
    var events := [Arrives(datagram)] + rest;
    assert events[0] == Arrives(datagram) && events[1..] == rest;
  }

  lemma {:induction false} NumbersOfFlat(packets: seq<seq<Flight.Sealed>>)
    ensures |Numbers(packets)| == |Flat(packets)|
    ensures forall i :: 0 <= i < |Flat(packets)| ==> Numbers(packets)[i] == Flat(packets)[i].number
    decreases |packets|
  {
    if packets != [] {
      NumbersOfFlat(packets[1..]);
      NumbersOfOne(packets[0]);
    }
  }

  lemma {:induction false} NumbersOfOne(packet: seq<Flight.Sealed>)
    ensures |NumbersIn(packet)| == |packet|
    ensures forall i :: 0 <= i < |packet| ==> NumbersIn(packet)[i] == packet[i].number
    decreases |packet|
  {
    if packet != [] {
      NumbersOfOne(packet[1..]);
    }
  }

  lemma {:induction false} InFlat(packets: seq<seq<Flight.Sealed>>)
    ensures forall x :: x in Flat(packets) <==> exists p :: p in packets && x in p
    decreases |packets|
  {
    if packets != [] {
      InFlat(packets[1..]);
      forall x
        ensures x in Flat(packets) <==> exists p :: p in packets && x in p
      {
        assert (exists p :: p in packets && x in p) <==>
               x in packets[0] || exists p :: p in packets[1..] && x in p;
      }
    }
  }

  lemma {:induction false} FlushAllSizes(s: Flight.Sender, attempts: seq<FlightCoverage.Attempt>, limit: nat)
    requires s.WellFormed() && forall a :: a in attempts ==> a.mtu <= limit
    ensures forall p :: p in FlightCoverage.FlushAll(s, attempts).1 ==> Flight.Size(p) <= limit
    decreases |attempts|
  {
    hide Flight.Flush, Flight.Size;
    if attempts != [] {
      var a := attempts[0];
      assert a in attempts;
      FlushAllSizes(Flight.Flush(s, a.mtu, a.results, a.flushed).0, attempts[1..], limit);
    }
  }

  lemma {:induction false} WireInPacket(packet: seq<Flight.Sealed>, x: Flight.Sealed)
    requires x in packet
    ensures |x.wire| <= Flight.Size(packet)
    decreases |packet|
  {
    if x != packet[0] {
      WireInPacket(packet[1..], x);
    }
  }

  /** In the clear a record is as long as its header and what it carries. */
  lemma ClearRecordFits(keys: Flight.Cipher, s: Flight.Sender, x: Flight.Sealed)
    requires Genuine(s, x) && SharesKeys(keys, s) && s.epoch <= 1 && Epoch(x.number) == 0
    requires s.version / 0x100 == RecordLayer.VERSION_MAJOR && |x.wire| <= RT_HEADER_LENGTH + MAX_PLAIN_LENGTH
    ensures Fits0(s, x)
  {
    hide Flight.Payload, Flight.RecordBytes;
    var body :| IsRecordOf(s, x, body);
    assert OpenerFor(s, x.number) == Flight.NULL_CIPHER;
    assert Flight.Payload(x.piece) == body;
  }

  /** What the packets of a flight are to a reader that has just been connected. */
  lemma FlightWillBeAccepted(sent: seq<Message>, keys: Flight.Cipher, s: Flight.Sender,
                             attempts: seq<FlightCoverage.Attempt>)
    requires FlightOf(sent, s) && SharesKeys(keys, s) && AllInClear(s) && s.version / 0x100 == RecordLayer.VERSION_MAJOR
    requires forall a :: a in attempts ==> a.mtu <= RT_HEADER_LENGTH + MAX_PLAIN_LENGTH
    ensures var packets := FlightCoverage.FlushAll(s, attempts).1;
            && (forall p :: p in packets ==> p != [] && Flight.Size(p) <= BUFFER_CAPACITY)
            && WillBeAccepted(s, ReplayWindow.FRESH, Flat(packets))
  {
    hide FlightCoverage.FlushAll, IsMessageOf, Genuine, Fits0, Epoch, UsedBetween, Flight.Size, WasSent, Flat;
    var packets := FlightCoverage.FlushAll(s, attempts).1;
    var xs := Flat(packets);
    FlightLeaves(sent, keys, s, attempts, EmissionsOf(s, attempts));
    FlushAllSizes(s, attempts, RT_HEADER_LENGTH + MAX_PLAIN_LENGTH);
    FlightNumbersRise(s, attempts);
    NumbersOfFlat(packets);
    InFlat(packets);
    var numbers := Numbers(packets);
    forall i | 0 <= i < |xs|
      ensures numbers[i] in numbers && Epoch(xs[i].number) == 0
    {}
    forall x | x in xs
      ensures Fits0(s, x)
    {
      var i :| 0 <= i < |xs| && xs[i] == x;
      var p :| p in packets && x in p;
      WireInPacket(p, x);
      ClearRecordFits(keys, s, x);
    }
    RisingInClear(s, FlightCoverage.FlushAll(s, attempts).0, numbers);
  }

  lemma RisingInClear(s: Flight.Sender, t: Flight.Sender, numbers: seq<nat>)
    requires UsedBetween(s, t, numbers) && NumberedInClear(numbers)
    ensures forall i, j :: 0 <= i < j < |numbers| ==> numbers[i] < numbers[j]
  {
    hide Epoch;
    forall i, j | 0 <= i < j < |numbers|
      ensures numbers[i] < numbers[j]
    {
      assert numbers[i] in numbers && numbers[j] in numbers;
    }
  }

  lemma {:induction false} RecsHold(xs: seq<Flight.Sealed>, x: Flight.Sealed)
    requires x in xs
    ensures RecIn(x) in Recs(xs)
    decreases |xs|
  {
    hide RecIn;
    if x != xs[0] {
      RecsHold(xs[1..], x);
    }
  }

  lemma {:induction false} PieceInFlat(packets: seq<seq<Flight.Sealed>>, p: Flight.Piece)
    requires p in FlightCoverage.AllPieces(packets)
    ensures exists x :: x in Flat(packets) && x.piece == p
    decreases |packets|
  {
    var first := FlightCoverage.PiecesOf(packets[0]);
    if p in first {
      var i :| 0 <= i < |first| && first[i] == p;
      assert packets[0][i] in Flat(packets);
    } else {
      PieceInFlat(packets[1..], p);
      var x :| x in Flat(packets[1..]) && x.piece == p;
      assert x in Flat(packets);
    }
  }

  /** Every piece of the flight is among the records when none is left. */
  lemma AllAreTaken(s: Flight.Sender, attempts: seq<FlightCoverage.Attempt>, recs: seq<Rec>)
    requires s.WellFormed() && recs == Recs(Flat(FlightCoverage.FlushAll(s, attempts).1))
    ensures forall p :: p in PiecesSent(s, attempts) && p.FragmentPiece? && p.f.FitsHeader() ==> RecOf(p) in recs
  {
    hide FlightCoverage.FlushAll, RecOf;
    var packets := FlightCoverage.FlushAll(s, attempts).1;
    forall p | p in PiecesSent(s, attempts) && p.FragmentPiece? && p.f.FitsHeader()
      ensures RecOf(p) in recs
    {
      PieceInFlat(packets, p);
      var x :| x in Flat(packets) && x.piece == p;
      RecsHold(Flat(packets), x);
    }
  }

  /** The flight and the receiver of the theorem: everything queued in one flight in the
      clear, flushed until it is reported sent, by flushes whose packets the receiver has
      room for. */
  ghost predicate Schedule(sent: seq<Message>, keys: Flight.Cipher, s: Flight.Sender,
                           attempts: seq<FlightCoverage.Attempt>, maxLen: nat) {
    && FlightOf(sent, s) && FlightCoverage.PosOf(s) == FlightCoverage.BEGIN && |sent| <= MAX_FLIGHT
    && (forall q: nat :: q < |sent| ==> Queued(sent, s, q))
    && FlightCoverage.FlushAll(s, attempts).2.AllSent?
    && SharesKeys(keys, s) && AllInClear(s) && s.version / 0x100 == RecordLayer.VERSION_MAJOR
    && (forall a :: a in attempts ==> a.mtu <= RT_HEADER_LENGTH + MAX_PLAIN_LENGTH)
    && (forall m :: m in sent ==> |m.body| <= maxLen)
  }

  /** The packets arrive as they were sent, and then k calls are made. */
  function InOrderRun(s: Flight.Sender, attempts: seq<FlightCoverage.Attempt>, maxLen: nat, k: nat): seq<Event>
    requires s.WellFormed()
  {
    ArriveAll(FlightCoverage.FlushAll(s, attempts).1) + Times(maxLen, k)
  }

  lemma RunIsSent(sent: seq<Message>, keys: Flight.Cipher, s: Flight.Sender, attempts: seq<FlightCoverage.Attempt>,
                  maxLen: nat, k: nat)
    requires Schedule(sent, keys, s, attempts, maxLen)
    ensures var events := InOrderRun(s, attempts, maxLen, k);
            OnlySent(sent, keys, EmissionsOf(s, attempts), events) && InClear(sent, events)
  {
    hide FlightCoverage.FlushAll, WasSent, Genuine, IsMessageOf, Queued;
    var packets := FlightCoverage.FlushAll(s, attempts).1;
    FlightLeaves(sent, keys, s, attempts, EmissionsOf(s, attempts));
    Arriving(packets);
    var events := InOrderRun(s, attempts, maxLen, k);
    forall e | e in events
      ensures e in ArriveAll(packets) || e == Asks(maxLen, false)
    {}
  }

  lemma {:induction false} Arriving(packets: seq<seq<Flight.Sealed>>)
    ensures forall e :: e in ArriveAll(packets) ==>
              e.Arrives? && exists p :: p in packets && e.datagram == FlightWriter.Bytes(p)
    decreases |packets|
  {
    if packets != [] {
      Arriving(packets[1..]);
      assert packets[0] in packets && forall p :: p in packets[1..] ==> p in packets;
    }
  }

  /** A call that hands out nothing has found nothing left. */
  lemma DryIsDone(sent: seq<Message>, keys: Flight.Cipher, s: Flight.Sender, attempts: seq<FlightCoverage.Attempt>,
                  maxLen: nat, k: nat)
    requires Schedule(sent, keys, s, attempts, maxLen)
    requires Out(keys, CONNECTED, InOrderRun(s, attempts, maxLen, k + 1))
             == Out(keys, CONNECTED, InOrderRun(s, attempts, maxLen, k))
    ensures Out(keys, CONNECTED, InOrderRun(s, attempts, maxLen, k)) == sent
  {
    hide Out, CallsOf, LinkAfter, Ask, FlightCoverage.FlushAll, HasLeft, Flat, Recs, NoCallFails, OnlySent, InClear;
    hide Queued, FlightOf, AllInClear, PiecesSent, WillBeAccepted, EmissionsOf;
    ScheduleIsReady(sent, keys, s, attempts, maxLen);
    var packets := FlightCoverage.FlushAll(s, attempts).1;
    var before, run := InOrderRun(s, attempts, maxLen, k), InOrderRun(s, attempts, maxLen, k + 1);
    assert run == before + [Asks(maxLen, false)];
    var start := LinkAfter(keys, CONNECTED, ArriveAll(packets));
    Loaded(sent, keys, s, attempts, maxLen);
    var b, p := CallsInOrder(keys, s, start, maxLen, k, [], packets);
    var m := LinkAfter(keys, start, Times(maxLen, k));
    var b', p' := AskInOrder(keys, s, m, maxLen, b, p);
    OneAsk(keys, m, maxLen);
    RunGoesOn(keys, CONNECTED, ArriveAll(packets), Times(maxLen, k));
    RunGoesOn(keys, CONNECTED, before, [Asks(maxLen, false)]);
    RunIsSent(sent, keys, s, attempts, maxLen, k + 1);
    RunIsSent(sent, keys, s, attempts, maxLen, k);
    PlainRunDoesNotFail(sent, keys, EmissionsOf(s, attempts), run);
    LastDoesNotFail(keys, CONNECTED, before, Asks(maxLen, false));
    var (next, fetched, ret) := Ask(keys, m, maxLen, false);
    assert LinkAfter(keys, CONNECTED, before) == m;
    assert NoCallFails(keys, m, [Asks(maxLen, false)]);
    var taken := CallsOf(keys, start, Times(maxLen, k));
    assert CallsOf(keys, CONNECTED, before) == [] + taken == taken;
    ArrivalsGoOn(taken, CallOf(keys, m, maxLen, false));
    assert ret.Blocked?;
    NothingRecs();
    assert Recs(b + Flat(p)) == fetched + [] == fetched;
    assert [] + Flat(packets) == Flat(packets);
    assert HandedOn(keys, CONNECTED, run) == Recs(Flat(packets));
    AllAreTaken(s, attempts, HandedOn(keys, CONNECTED, run));
    FlightGetsThrough(sent, keys, s, attempts, EmissionsOf(s, attempts), before, maxLen);
  }

  lemma NothingRecs()
    ensures Recs([]) == []
  {}

  lemma {:induction false} LastDoesNotFail(keys: Flight.Cipher, l: Link, events: seq<Event>, e: Event)
    requires l.ring.WellFormed() && NoCallFails(keys, l, events + [e])
    ensures NoCallFails(keys, LinkAfter(keys, l, events), [e])
    decreases |events|
  {
    hide Ask, MessageIn;
    if events == [] {
      assert [] + [e] == [e];
    } else {
      assert (events + [e])[0] == events[0] && (events + [e])[1..] == events[1..] + [e];
      LastDoesNotFail(keys, Step(keys, l, events[0]).0, events[1..], e);
    }
  }

  /** The reader when all packets have arrived and none has been read. */
  lemma Loaded(sent: seq<Message>, keys: Flight.Cipher, s: Flight.Sender, attempts: seq<FlightCoverage.Attempt>,
               maxLen: nat)
    requires Schedule(sent, keys, s, attempts, maxLen)
    ensures var packets := FlightCoverage.FlushAll(s, attempts).1;
            var start := LinkAfter(keys, CONNECTED, ArriveAll(packets));
            && HasLeft(s, start.rd, [], packets)
            && Out(keys, CONNECTED, ArriveAll(packets)) == [] && CallsOf(keys, CONNECTED, ArriveAll(packets)) == []
  {
    hide Out, CallsOf, LinkAfter, FlightCoverage.FlushAll, WillBeAccepted, Queued, FlightOf, AllInClear, Flat;
    ScheduleIsReady(sent, keys, s, attempts, maxLen);
    var packets := FlightCoverage.FlushAll(s, attempts).1;
    AllWait(keys, CONNECTED, packets);
    FlightWillBeAccepted(sent, keys, s, attempts);
    NoBytes();
    assert [] + Wires(packets) == Wires(packets) && [] + Flat(packets) == Flat(packets);
  }

  /** After k calls at least k messages are out, or all of them. */
  lemma {:induction false} CallsHandOut(sent: seq<Message>, keys: Flight.Cipher, s: Flight.Sender,
                                        attempts: seq<FlightCoverage.Attempt>, maxLen: nat, k: nat)
    requires Schedule(sent, keys, s, attempts, maxLen)
    ensures var out := Out(keys, CONNECTED, InOrderRun(s, attempts, maxLen, k));
            out <= sent && (|out| >= k || out == sent)
    decreases k
  {
    hide Out, OnlySent, FlightCoverage.FlushAll, InClear, EmissionsOf, Ask, Schedule;
    ScheduleIsReady(sent, keys, s, attempts, maxLen);
    var run := InOrderRun(s, attempts, maxLen, k);
    ScheduleIsShort(sent, keys, s, attempts, maxLen);
    RunIsSent(sent, keys, s, attempts, maxLen, k);
    NetworkDeliversPrefix(sent, keys, EmissionsOf(s, attempts), run);
    if k > 0 {
      CallsHandOut(sent, keys, s, attempts, maxLen, k - 1);
      var before := InOrderRun(s, attempts, maxLen, k - 1);
      assert run == before + [Asks(maxLen, false)];
      RunGoesOn(keys, CONNECTED, before, [Asks(maxLen, false)]);
      if Out(keys, CONNECTED, run) == Out(keys, CONNECTED, before) {
        DryIsDone(sent, keys, s, attempts, maxLen, k - 1);
      }
    }
  }

  lemma ScheduleIsShort(sent: seq<Message>, keys: Flight.Cipher, s: Flight.Sender,
                        attempts: seq<FlightCoverage.Attempt>, maxLen: nat)
    requires Schedule(sent, keys, s, attempts, maxLen)
    ensures |sent| < SEQ_LIMIT
  {}

  /** A flight in the clear, flushed however often writes fail until it is reported sent,
      whose packets arrive in the order in which they left: one call for each message, and
      all messages are handed out. No record is dropped, and no call fails. */
  lemma FlightInOrderIsHandedOut(sent: seq<Message>, keys: Flight.Cipher, s: Flight.Sender,
                                 attempts: seq<FlightCoverage.Attempt>, maxLen: nat)
    requires Schedule(sent, keys, s, attempts, maxLen)
    ensures Out(keys, CONNECTED, InOrderRun(s, attempts, maxLen, |sent|)) == sent
  {
    hide Out, Schedule;
    ScheduleIsReady(sent, keys, s, attempts, maxLen);
    CallsHandOut(sent, keys, s, attempts, maxLen, |sent|);
  }

  lemma ScheduleIsReady(sent: seq<Message>, keys: Flight.Cipher, s: Flight.Sender,
                        attempts: seq<FlightCoverage.Attempt>, maxLen: nat)
    requires Schedule(sent, keys, s, attempts, maxLen)
    ensures s.WellFormed()
  {}

  /** From one flush to the last message, with nothing assumed of what comes in between:
      the sender can seal, a packet has room for a piece, and the transport takes every
      packet and keeps their order. */
  lemma FlushedFlightArrives(sent: seq<Message>, keys: Flight.Cipher, s: Flight.Sender, mtu: nat, results: seq<int>,
                             maxLen: nat)
    requires FlightOf(sent, s) && FlightCoverage.PosOf(s) == FlightCoverage.BEGIN && |sent| <= MAX_FLIGHT
    requires forall q: nat :: q < |sent| ==> Queued(sent, s, q)
    requires SharesKeys(keys, s) && AllInClear(s) && s.version / 0x100 == RecordLayer.VERSION_MAJOR
    requires forall m :: m in sent ==> |m.body| <= maxLen
    requires Able(s) && HasRoom(s, mtu) && mtu <= RT_HEADER_LENGTH + MAX_PLAIN_LENGTH && Takes(results, Left(s))
    ensures var attempts := [FlightCoverage.Attempt(mtu, results, 1)];
            && FlightCoverage.FlushAll(s, attempts).2.AllSent?
            && Out(keys, CONNECTED, InOrderRun(s, attempts, maxLen, |sent|)) == sent
  {
    hide Out, Flight.Flush, Queued, FlightOf, AllInClear, Able, InOrderRun;
    var attempts := [FlightCoverage.Attempt(mtu, results, 1)];
    FlushSucceeds(s, mtu, results, 1);
    FlightInOrderIsHandedOut(sent, keys, s, attempts, maxLen);
  }
}
