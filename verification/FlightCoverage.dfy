/**
 What a flight sent in packets covers: its fragments partition every message,
 and a flush resumed after a failed write neither loses nor repeats a byte.
 */
module FlightCoverage {
  import opened Common
  import opened Wire
  import opened HandshakeWire
  import opened Flight

  datatype Pos = Pos(written: nat, offset: nat)

  const BEGIN := Pos(0, 0)

  function PosOf(s: Sender): Pos {
    Pos(s.written, s.offset)
  }

  /** Where the flight stands after a piece; None when it is not the next piece. */
  function NextPos(msgs: seq<Outgoing>, pos: Pos, p: Piece): Option<Pos> {
    if pos.written >= |msgs| then None
    else
      var m := msgs[pos.written];
      if m.isCcs then
        if p.CcsPiece? && pos.offset == 0 then Some(Pos(pos.written + 1, 0)) else None
      else
        var w := Whole(m);
        if w.None? || p.CcsPiece? then None
        else
          var end := pos.offset + |p.f.body|;
          if end > |w.value.body| || p.f != Cut(w.value, pos.offset, |p.f.body|)
             || (p.f.body == [] && w.value.body != []) then None
          else if end == |w.value.body| then Some(Pos(pos.written + 1, 0))
          else Some(Pos(pos.written, end))
  }

  function Walk(msgs: seq<Outgoing>, pos: Pos, ps: seq<Piece>): Option<Pos>
    decreases |ps|
  {
    if ps == [] then Some(pos)
    else
      var next := NextPos(msgs, pos, ps[0]);
      if next.None? then None else Walk(msgs, next.value, ps[1..])
  }

  lemma {:induction false} WalkOn(msgs: seq<Outgoing>, pos: Pos, a: seq<Piece>, b: seq<Piece>)
    requires Walk(msgs, pos, a).Some?
    ensures Walk(msgs, pos, a + b) == Walk(msgs, Walk(msgs, pos, a).value, b)
    decreases |a|
  {
    hide NextPos;
    if a == [] {
      assert a + b == b;
    } else {
      assert (a + b)[1..] == a[1..] + b;
      WalkOn(msgs, NextPos(msgs, pos, a[0]).value, a[1..], b);
    }
  }

  // ----- each step of the sender walks the flight ----------------------------

  predicate Readable(msgs: seq<Outgoing>) {
    forall m :: m in msgs ==> m.isCcs || Whole(m).Some?
  }

  /** Mid-message positions lie strictly inside a handshake message. */
  predicate PosOk(msgs: seq<Outgoing>, pos: Pos) {
    pos.offset == 0 ||
    (pos.written < |msgs| && !msgs[pos.written].isCcs &&
     Whole(msgs[pos.written]).Some? && pos.offset < |Whole(msgs[pos.written]).value.body|)
  }

  ghost predicate Ready(s: Sender) {
    s.WellFormed() && Readable(s.messages) && PosOk(s.messages, PosOf(s))
  }

  lemma SealFragmentSteps(s: Sender, m: Outgoing, w: Fragment, maxOut: nat)
    requires Ready(s) && s.written < |s.messages| && m == s.messages[s.written] && m.epoch <= s.epoch
    requires !m.isCcs && Whole(m) == Some(w) && s.offset <= |w.body|
    requires maxOut > HM_HEADER_LENGTH + s.Overhead(m)
    ensures var (t, outcome) := SealFragment(s, m, w, maxOut);
            && (outcome.Partial? ==>
                  NextPos(s.messages, PosOf(s), outcome.sealed.piece) == Some(PosOf(t)) && PosOk(s.messages, PosOf(t)))
            && (outcome.Complete? ==>
                  NextPos(s.messages, PosOf(s), outcome.sealed.piece) == Some(Pos(s.written + 1, 0)) && t.offset == 0)
  {
    hide Whole, Sender.Overhead, Payload, SealRecord, Readable, Sender.WellFormed;
    var left := |w.body| - s.offset;
    var todo := Min(left, maxOut - HM_HEADER_LENGTH - s.Overhead(m));
    assert |Cut(w, s.offset, todo).body| == todo;
  }

  lemma SealMessageSteps(s: Sender, maxOut: nat)
    requires Ready(s) && s.written < |s.messages|
    ensures var (t, outcome) := SealMessage(s, maxOut);
            && (outcome.Partial? ==>
                  NextPos(s.messages, PosOf(s), outcome.sealed.piece) == Some(PosOf(t)) && PosOk(s.messages, PosOf(t)))
            && (outcome.Complete? ==>
                  NextPos(s.messages, PosOf(s), outcome.sealed.piece) == Some(Pos(s.written + 1, 0)) && t.offset == 0)
  {
    hide Whole, Sender.Overhead, Sender.Prefix, Payload, SealRecord, SealFragment, Cut;
    var m := s.messages[s.written];
    assert m in s.messages;
    if !m.isCcs && s.offset <= |Whole(m).value.body| && maxOut > HM_HEADER_LENGTH + s.Overhead(m) {
      SealFragmentSteps(s, m, Whole(m).value, maxOut);
    }
  }

  lemma NextMessageIsReady(s: Sender, t: Sender)
    requires Ready(s) && t.WellFormed() && t.messages == s.messages && t.written < |t.messages| && t.offset == 0
    ensures Ready(t.(written := t.written + 1))
  {
    hide Whole;
  }

  function PiecesOf(packet: seq<Sealed>): seq<Piece> {
    seq(|packet|, i requires 0 <= i < |packet| => packet[i].piece)
  }

  function AllPieces(packets: seq<seq<Sealed>>): seq<Piece> {
    if packets == [] then [] else PiecesOf(packets[0]) + AllPieces(packets[1..])
  }

  lemma PiecesOfCons(x: Sealed, rest: seq<Sealed>)
    ensures PiecesOf([x] + rest) == [x.piece] + PiecesOf(rest)
  {}

  lemma {:induction false} SealPacketWalks(s: Sender, maxOut: nat, madeProgress: bool)
    requires Ready(s)
    ensures var (t, packet) := SealPacket(s, maxOut, madeProgress);
            packet.Some? ==> Walk(s.messages, PosOf(s), PiecesOf(packet.value)) == Some(PosOf(t)) && Ready(t)
    decreases |s.messages| - s.written
  {
    hide SealMessage, NextPos, Readable, PosOk, PiecesOf, Whole, Size, Advances;
    if s.written == |s.messages| {
      NoPieces();
    } else {
      SealMessageSteps(s, maxOut);
      var (t, outcome) := SealMessage(s, maxOut);
      match outcome
      case Error =>
      case NoProgress => NoPieces();
      case Partial(sealed) =>
        NoPieces();
        PiecesOfCons(sealed, []);
        assert [sealed] + [] == [sealed] && [sealed.piece] + [] == [sealed.piece];
      case Complete(sealed) =>
        var next := t.(written := t.written + 1);
        NextMessageIsReady(s, t);
        SealPacketWalks(next, maxOut - |sealed.wire|, true);
        var rest := SealPacket(next, maxOut - |sealed.wire|, true).1;
        if rest.Some? {
          PiecesOfCons(sealed, rest.value);
        }
    }
  }

  lemma NoPieces()
    ensures PiecesOf([]) == []
  {}

  /** Unless sealing itself fails, the sender stands exactly after what went out. */
  lemma {:induction false} FlushWalks(s: Sender, mtu: nat, results: seq<int>, flushed: int)
    requires Ready(s)
    ensures var (t, packets, last) := Flush(s, mtu, results, flushed);
            && Walk(s.messages, PosOf(s), AllPieces(packets)).Some?
            && (!last.SealFailed? ==> Walk(s.messages, PosOf(s), AllPieces(packets)) == Some(PosOf(t)) && Ready(t))
            && (last.AllSent? ==> t.written == |s.messages|)
    decreases |s.messages| - s.written, LeftOfMessage(s)
  {
    hide SealPacket, NextPos, Readable;
    if s.written < |s.messages| {
      SealPacketWalks(s, mtu, false);
      var (t, packet) := SealPacket(s, mtu, false);
      if packet.Some? && results != [] && results[0] > 0 {
        FlushWalks(t, mtu, results[1..], flushed);
        var (u, rest, last) := Flush(t, mtu, results[1..], flushed);
        WalkOn(s.messages, PosOf(s), PiecesOf(packet.value), AllPieces(rest));
      }
    }
  }

  // ----- a finished walk is a partition of every message ---------------------

  function Bodies(ps: seq<Piece>): seq<byte>
    requires forall p :: p in ps ==> p.FragmentPiece?
  {
    if ps == [] then [] else ps[0].f.body + Bodies(ps[1..])
  }

  /** Consecutive, non-overlapping pieces of one message from `offset` to its end. */
  predicate IsCut(w: Fragment, offset: nat, ps: seq<Piece>)
    decreases |ps|
  {
    if ps == [] then false
    else
      && ps[0].FragmentPiece?
      && (ps[0].f.typ, ps[0].f.msgLen, ps[0].f.seqNo) == (w.typ, w.msgLen, w.seqNo)
      && ps[0].f.offset == offset
      && (ps[0].f.body != [] || w.body == [])
      && (if |ps| == 1 then offset + |ps[0].f.body| == |w.body|
          else IsCut(w, offset + |ps[0].f.body|, ps[1..]))
  }

  /** The pieces of message after message, each message sent whole and in order. */
  ghost predicate Partition(msgs: seq<Outgoing>, ps: seq<Piece>)
    decreases |msgs|
  {
    if msgs == [] then ps == []
    else exists k: nat :: k <= |ps| && Sends(msgs[0], ps[..k]) && Partition(msgs[1..], ps[k..])
  }

  ghost predicate Sends(m: Outgoing, ps: seq<Piece>) {
    if m.isCcs then ps == [CcsPiece]
    else
      && Whole(m).Some?
      && IsCut(Whole(m).value, 0, ps)
      && (forall p :: p in ps ==> p.FragmentPiece?)
      && Bodies(ps) == Whole(m).value.body
  }

  /** The rest of one message is cut off the front of the walk. */
  lemma {:induction false} WalkCutsMessage(msgs: seq<Outgoing>, pos: Pos, ps: seq<Piece>, end: Pos) returns (k: nat)
    requires Walk(msgs, pos, ps) == Some(end) && end.written > pos.written && pos.written < |msgs|
    requires !msgs[pos.written].isCcs && Whole(msgs[pos.written]).Some?
    requires pos.offset <= |Whole(msgs[pos.written]).value.body|
    ensures k <= |ps|
    ensures var w := Whole(msgs[pos.written]).value;
            && IsCut(w, pos.offset, ps[..k])
            && (forall p :: p in ps[..k] ==> p.FragmentPiece?)
            && Bodies(ps[..k]) == w.body[pos.offset..]
    ensures Walk(msgs, Pos(pos.written + 1, 0), ps[k..]) == Some(end)
    decreases |ps|
  {
    hide Whole, Fragment.FitsHeader;
    var w := Whole(msgs[pos.written]).value;
    var next := NextPos(msgs, pos, ps[0]).value;
    var head := ps[0].f.body;
    assert w.body[pos.offset..] == head + w.body[pos.offset + |head|..];
    if next.written > pos.written {
      k := 1;
      assert ps[..1] == [ps[0]];
    } else {
      var j := WalkCutsMessage(msgs, next, ps[1..], end);
      k := j + 1;
      assert ps[..k][1..] == ps[1..][..j] && ps[k..] == ps[1..][j..];
      assert ps[..k] == [ps[0]] + ps[1..][..j];
    }
  }

  lemma {:induction false} WalkIsPartition(msgs: seq<Outgoing>, from: nat, ps: seq<Piece>)
    requires Readable(msgs) && from <= |msgs|
    requires Walk(msgs, Pos(from, 0), ps) == Some(Pos(|msgs|, 0))
    ensures Partition(msgs[from..], ps)
    decreases |msgs| - from
  {
    hide Whole, IsCut, Bodies;
    if from == |msgs| {
      assert ps == [];
    } else {
      var rest := msgs[from..];
      assert rest[0] == msgs[from] && rest[0] in msgs && rest[1..] == msgs[from + 1..];
      var k := WalkSendsMessage(msgs, from, ps);
      WalkIsPartition(msgs, from + 1, ps[k..]);
      assert Sends(rest[0], ps[..k]) && Partition(rest[1..], ps[k..]);
    }
  }

  lemma WalkSendsMessage(msgs: seq<Outgoing>, from: nat, ps: seq<Piece>) returns (k: nat)
    requires Readable(msgs) && from < |msgs|
    requires Walk(msgs, Pos(from, 0), ps) == Some(Pos(|msgs|, 0))
    ensures k <= |ps| && Sends(msgs[from], ps[..k])
    ensures Walk(msgs, Pos(from + 1, 0), ps[k..]) == Some(Pos(|msgs|, 0))
  {
    hide Whole, IsCut, Bodies;
    var m := msgs[from];
    assert m in msgs;
    if m.isCcs {
      k := 1;
      assert ps[..1] == [CcsPiece];
    } else {
      k := WalkCutsMessage(msgs, Pos(from, 0), ps, Pos(|msgs|, 0));
      assert Whole(m).value.body[0..] == Whole(m).value.body;
    }
  }

  // ----- resuming and retransmitting -----------------------------------------

  /** One call of flush: the MTU, the transport's answers, the final BIO flush. */
  datatype Attempt = Attempt(mtu: nat, results: seq<int>, flushed: int)

  /** Flushes again after each failed write, until the flight is out. */
  function FlushAll(s: Sender, attempts: seq<Attempt>): (r: (Sender, seq<seq<Sealed>>, Result))
    requires s.WellFormed()
    ensures r.0.WellFormed() && r.0.messages == s.messages
    decreases |attempts|
  {
    if attempts == [] then (s, [], WriteFailed(-1))
    else
      var a := attempts[0];
      var (t, packets, last) := Flush(s, a.mtu, a.results, a.flushed);
      if !last.WriteFailed? then (t, packets, last)
      else
        var (u, more, end) := FlushAll(t, attempts[1..]);
        (u, packets + more, end)
  }

  lemma {:induction false} AllPiecesOfConcat(a: seq<seq<Sealed>>, b: seq<seq<Sealed>>)
    ensures AllPieces(a + b) == AllPieces(a) + AllPieces(b)
    decreases |a|
  {
    if a == [] {
      assert a + b == b;
    } else {
      assert (a + b)[1..] == a[1..] + b;
      AllPiecesOfConcat(a[1..], b);
    }
  }

  lemma {:induction false} FlushAllWalks(s: Sender, attempts: seq<Attempt>)
    requires Ready(s)
    ensures var (t, packets, last) := FlushAll(s, attempts);
            last.AllSent? ==> Walk(s.messages, PosOf(s), AllPieces(packets)) == Some(Pos(|s.messages|, 0))
    decreases |attempts|
  {
    hide Flush, NextPos, Whole, Readable;
    if attempts != [] {
      var a := attempts[0];
      var (t, packets, last) := Flush(s, a.mtu, a.results, a.flushed);
      FlushWalks(s, a.mtu, a.results, a.flushed);
      if last.WriteFailed? {
        FlushAllWalks(t, attempts[1..]);
        var more := FlushAll(t, attempts[1..]).1;
        AllPiecesOfConcat(packets, more);
        WalkOn(s.messages, PosOf(s), AllPieces(packets), AllPieces(more));
      }
    }
  }

  /** However often writes fail, the packets that went out before the flight was
      reported sent partition every message: no byte lost, none sent twice. */
  lemma ResumedFlightIsWhole(s: Sender, attempts: seq<Attempt>)
    requires Ready(s) && PosOf(s) == BEGIN
    requires FlushAll(s, attempts).2.AllSent?
    ensures Partition(s.messages, AllPieces(FlushAll(s, attempts).1))
  {
    hide Walk, Partition, FlushAll;
    FlushAllWalks(s, attempts);
    WalkIsPartition(s.messages, 0, AllPieces(FlushAll(s, attempts).1));
    assert s.messages[0..] == s.messages;
  }

  /** A retransmission starts the same flight afresh. */
  lemma RewoundIsReady(s: Sender)
    requires Ready(s)
    ensures Ready(Rewind(s)) && PosOf(Rewind(s)) == BEGIN && Rewind(s).messages == s.messages
  {}

  // ----- where a sealing error leaves the sender -----------------------------

  /** The piece can be sealed: the cipher accepts it, its number is not the last, and
      its length fits the record header. */
  predicate Seals(s: Sender, m: Outgoing, p: Piece)
    requires s.WellFormed() && m.epoch <= s.epoch && (p.FragmentPiece? ==> p.f.FitsHeader())
  {
    var epoch := if s.UsesPrevious(m) then 0 else s.epoch;
    var seqNum := if s.UsesPrevious(m) then s.lastSeq else s.writeSeq;
    var body := s.CipherFor(m).seal(epoch * SEQUENCE_LIMIT + seqNum, ContentType(p), Payload(p));
    body.Some? && seqNum + 1 != SEQUENCE_LIMIT && |body.value| < 0x1_0000
  }

  /** What is left of the next message fits the room in one piece, and that piece can be
      sealed. */
  predicate SealsWhole(s: Sender, maxOut: nat)
    requires s.WellFormed() && s.written < |s.messages|
  {
    var m := s.messages[s.written];
    assert m in s.messages;
    if m.isCcs then |CCS_BODY| + s.Overhead(m) <= maxOut && Seals(s, m, CcsPiece)
    else
      && Whole(m).Some? && s.offset <= |Whole(m).value.body|
      && HM_HEADER_LENGTH + 1 + s.Overhead(m) <= maxOut && s.Prefix(m) <= maxOut
      && HM_HEADER_LENGTH + s.Overhead(m) + (|Whole(m).value.body| - s.offset) <= maxOut
      && Seals(s, m, FragmentPiece(Cut(Whole(m).value, s.offset, |Whole(m).value.body| - s.offset)))
  }

  lemma SealRecordExactly(s: Sender, m: Outgoing, p: Piece)
    requires s.WellFormed() && m.epoch <= s.epoch && (p.FragmentPiece? ==> p.f.FitsHeader())
    ensures SealRecord(s, m, p).1.Some? <==> Seals(s, m, p)
  {
    hide RecordBytes, Payload, Cipher.Lawful;
  }

  lemma CompleteExactly(s: Sender, maxOut: nat)
    requires s.WellFormed() && s.written < |s.messages|
    ensures SealMessage(s, maxOut).1.Complete? <==> SealsWhole(s, maxOut)
  {
    hide Whole, Payload, SealRecord, Seals, Cut, Cipher.Lawful;
    var m := s.messages[s.written];
    assert m in s.messages;
    if m.isCcs {
      SealRecordExactly(s, m, CcsPiece);
    } else if Whole(m).Some? && s.offset <= |Whole(m).value.body| {
      var w := Whole(m).value;
      SealRecordExactly(s, m, FragmentPiece(Cut(w, s.offset, |w.body| - s.offset)));
    }
  }

  lemma {:induction false} PositionNeverGoesBack(s: Sender, maxOut: nat, madeProgress: bool)
    requires s.WellFormed()
    ensures SealPacket(s, maxOut, madeProgress).0.written >= s.written
    decreases |s.messages| - s.written
  {
    hide SealMessage;
    if s.written < |s.messages| {
      var (t, outcome) := SealMessage(s, maxOut);
      if outcome.Complete? {
        PositionNeverGoesBack(t.(written := t.written + 1), maxOut - |outcome.sealed.wire|, true);
      }
    }
  }

  /** A packet that cannot be made leaves the position alone if and only if its first
      message was not sealed whole. */
  lemma FailedPacketPlace(s: Sender, maxOut: nat)
    requires s.WellFormed() && s.written < |s.messages| && SealPacket(s, maxOut, false).1.None?
    ensures PosOf(SealPacket(s, maxOut, false).0) == PosOf(s) <==> !SealsWhole(s, maxOut)
  {
    hide SealMessage, SealsWhole;
    CompleteExactly(s, maxOut);
    var (t, outcome) := SealMessage(s, maxOut);
    if outcome.Complete? {
      PositionNeverGoesBack(t.(written := t.written + 1), maxOut - |outcome.sealed.wire|, true);
    }
  }

  /** A packet is full: when it ends between two messages of the flight, what is left of its
      room does not take the next record. */
  lemma {:induction false} PacketIsFull(s: Sender, maxOut: nat, madeProgress: bool)
    requires Ready(s) && SealPacket(s, maxOut, madeProgress).1.Some?
    ensures var (t, packet) := SealPacket(s, maxOut, madeProgress);
            var room := maxOut - Size(packet.value);
            t.written < |t.messages| && t.offset == 0 ==>
              NoRoomFor(t, t.messages[t.written], room)
    decreases |s.messages| - s.written
  {
    hide SealMessage, NoRoomFor, Cipher.Lawful, Readable, NextPos, PosOk, Whole;
    if s.written < |s.messages| {
      var (t, outcome) := SealMessage(s, maxOut);
      MessageRoom(s, maxOut);
      SealMessageSteps(s, maxOut);
      match outcome
      case Complete(sealed) => {
        NextMessageIsReady(s, t);
        PacketIsFull(t.(written := t.written + 1), maxOut - |sealed.wire|, true);
      }
      case _ => {}
    }
  }

  /** What a record of the message takes besides its payload: a header, and what the cipher
      adds if the message is of the current epoch. */
  function Around(s: Sender, m: Outgoing): nat {
    RT_HEADER_LENGTH + if m.epoch == s.epoch then s.cipher.maxOverhead else 0
  }

  /** The room does not take a record of the message. */
  predicate NoRoomFor(s: Sender, m: Outgoing, room: nat) {
    room < Around(s, m) + if m.isCcs then 1 else HM_HEADER_LENGTH + 1
  }

  lemma MessageRoom(s: Sender, maxOut: nat)
    requires Ready(s) && s.written < |s.messages|
    ensures var (t, outcome) := SealMessage(s, maxOut);
            && t.epoch == s.epoch && t.cipher == s.cipher
            && (outcome.NoProgress? ==>
                  NoRoomFor(t, t.messages[t.written], maxOut))
            && (outcome.Partial? ==> t.offset > 0)
  {
    hide Whole, Payload, Cipher.Lawful, Readable, RecordBytes, Cut;
    assert s.messages[s.written] in s.messages;
    assert s.cipher.nonceLen <= s.cipher.maxOverhead by {
      assert s.cipher.Lawful();
      LawfulPrefix(s.cipher);
    }
  }

  lemma LawfulPrefix(c: Cipher)
    requires c.Lawful()
    ensures c.nonceLen <= c.maxOverhead
  {}

  /** A piece that does not end its message fills its packet: header, overhead and body
      take all the room there was. */
  lemma PartialFillsRoom(s: Sender, maxOut: nat)
    requires Ready(s) && s.written < |s.messages| && SealMessage(s, maxOut).1.Partial?
    ensures var m, p := s.messages[s.written], SealMessage(s, maxOut).1.sealed.piece;
            p.FragmentPiece? && HM_HEADER_LENGTH + Around(s, m) + |p.f.body| == maxOut
  {
    hide Whole, Payload, Cipher.Lawful, RecordBytes;
    assert s.messages[s.written] in s.messages;
  }

  /** Once everything is written, a flush succeeds if and only if the transport does. */
  lemma FlushEnds(s: Sender, mtu: nat, results: seq<int>, flushed: int)
    requires s.WellFormed() && s.written == |s.messages|
    ensures var (t, packets, last) := Flush(s, mtu, results, flushed);
            t == s && packets == [] && last == if flushed > 0 then AllSent else WriteFailed(-1)
  {}

  /** A write that the transport refuses ends the flush with its answer; none to give is a
      transport that blocks. */
  lemma RefusedWriteEnds(s: Sender, mtu: nat, results: seq<int>, flushed: int)
    requires s.WellFormed() && s.written < |s.messages| && SealPacket(s, mtu, false).1.Some?
    requires results == [] || results[0] <= 0
    ensures var (t, packets, last) := Flush(s, mtu, results, flushed);
            packets == [] && last == WriteFailed(if results == [] then -1 else results[0]) && PosOf(t) == PosOf(s)
  {
    hide SealPacket;
  }

  /** The sender as it stands when the last packet of a flush is begun. */
  function LastStart(s: Sender, mtu: nat, results: seq<int>): (u: Sender)
    requires s.WellFormed()
    ensures u.WellFormed() && u.messages == s.messages
    decreases |s.messages| - s.written, LeftOfMessage(s)
  {
    if s.written == |s.messages| then s
    else
      var (t, packet) := SealPacket(s, mtu, false);
      if packet.None? || results == [] || results[0] <= 0 then s
      else LastStart(t, mtu, results[1..])
  }

  /** A flush that ends in a sealing error keeps its place after what went out if and
      only if the packet it was making did not begin with a message sealed whole. */
  lemma {:induction false} SealErrorKeepsPlaceExactly(s: Sender, mtu: nat, results: seq<int>, flushed: int)
    requires Ready(s) && Flush(s, mtu, results, flushed).2.SealFailed?
    ensures var (t, packets, last) := Flush(s, mtu, results, flushed);
            var u := LastStart(s, mtu, results);
            && Walk(s.messages, PosOf(s), AllPieces(packets)) == Some(PosOf(u))
            && u.written < |u.messages|
            && (PosOf(t) == PosOf(u) <==> !SealsWhole(u, mtu))
    decreases |s.messages| - s.written, LeftOfMessage(s)
  {
    hide SealPacket, NextPos, Readable, SealsWhole;
    SealPacketWalks(s, mtu, false);
    var (t, packet) := SealPacket(s, mtu, false);
    if packet.None? {
      FailedPacketPlace(s, mtu);
    } else {
      SealErrorKeepsPlaceExactly(t, mtu, results[1..], flushed);
      var (u, rest, last) := Flush(t, mtu, results[1..], flushed);
      WalkOn(s.messages, PosOf(s), PiecesOf(packet.value), AllPieces(rest));
    }
  }

  /** A cipher that fails on handshake bodies and on nothing else. */
  const REFUSING := Cipher(0, 0, (_, t, p) => if t == RT_HANDSHAKE then None else Some(p), (_, _, c) => Some(c))

  lemma RefusingIsLawful()
    ensures REFUSING.Lawful() && NULL_CIPHER.Lawful()
  {}

  /** A flight that loses its place so, wherever the counters stand: a ChangeCipherSpec in
      the clear is sealed, and the Finished message behind it is refused by its cipher. */
  lemma SealErrorLosesPlace(mtu: nat, finished: Fragment, lastSeq: nat, writeSeq: nat) returns (s: Sender)
    requires lastSeq + 1 < SEQUENCE_LIMIT && writeSeq < SEQUENCE_LIMIT
    requires finished.FitsHeader() && finished.offset == 0 && finished.msgLen == |finished.body|
    requires mtu >= |CCS_BODY| + 2 * RT_HEADER_LENGTH + HM_HEADER_LENGTH + 1
    ensures s.messages == [Outgoing([], 0, true), Outgoing(Serialize(finished), 1, false)]
    ensures s.epoch == 1 && s.lastSeq == lastSeq && s.writeSeq == writeSeq
    ensures Ready(s) && PosOf(s) == BEGIN && SealsWhole(s, mtu)
    ensures var (t, packets, last) := Flush(s, mtu, [1, 1], 1);
            last.SealFailed? && packets == [] && PosOf(t) == Pos(1, 0)
  {
    hide Parse, Serialize, RecordBytes, Cipher.Lawful;
    RefusingIsLawful();
    s := Sender([Outgoing([], 0, true), Outgoing(Serialize(finished), 1, false)],
                0, 0, 1, REFUSING, writeSeq, lastSeq, 0xfefd);
    ParseOfSerialize(finished, []);
    assert Serialize(finished) + [] == Serialize(finished);
    assert Whole(s.messages[1]) == Some(finished);
    CompleteExactly(s, mtu);
    var (t, outcome) := SealMessage(s, mtu);
    var next := t.(written := 1);
    assert |outcome.sealed.wire| == RT_HEADER_LENGTH + |CCS_BODY|;
    assert SealMessage(next, mtu - |outcome.sealed.wire|) == (next, Error);
    assert SealPacket(next, mtu - |outcome.sealed.wire|, true) == (next, None);
  }

  // ----- what the pieces look like to the receiver's bitmap ------------------

  /** A piece of a message that has a body is not empty, so that marking it stays in the
      receiver's bitmap. */
  lemma {:induction false} PiecesAreNotEmpty(msgs: seq<Outgoing>, pos: Pos, ps: seq<Piece>)
    requires Walk(msgs, pos, ps).Some?
    ensures forall p :: p in ps && p.FragmentPiece? && p.f.msgLen > 0 ==>
              p.f.offset + |p.f.body| <= p.f.msgLen && p.f.body != []
    decreases |ps|
  {
    hide Whole;
    if ps != [] {
      PiecesAreNotEmpty(msgs, NextPos(msgs, pos, ps[0]).value, ps[1..]);
    }
  }

  /** An MTU with room for one header and one byte of body always makes progress. */
  lemma RoomMeansProgress(s: Sender, maxOut: nat)
    requires Ready(s) && s.written < |s.messages|
    requires maxOut > HM_HEADER_LENGTH + RT_HEADER_LENGTH + s.cipher.maxOverhead
    ensures !SealMessage(s, maxOut).1.NoProgress?
  {
    hide Whole, Payload, SealRecord, Cut;
    assert s.messages[s.written] in s.messages;
  }
}
