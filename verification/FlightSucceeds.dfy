/**
 When a flush succeeds: with ciphers that seal, numbers left, room in a packet for one
 piece, and a transport that takes every packet, the whole flight goes out.
 */
module FlightSucceeds {
  import opened Common
  import opened Wire
  import opened HandshakeWire
  import opened Flight
  import opened FlightCoverage

  ghost predicate AlwaysSeals(cipher: Cipher) {
    forall n, t, p :: cipher.seal(n, t, p).Some?
  }

  /** What is queued from the i-th message on, each message counting for its bytes and one
      more. */
  function Work(msgs: seq<Outgoing>, i: nat): nat
    requires i <= |msgs|
    decreases |msgs| - i
  {
    if i == |msgs| then 0 else |msgs[i].data| + 1 + Work(msgs, i + 1)
  }

  /** What is left to send; no flight takes more records than that. */
  function Left(s: Sender): int
    requires s.written <= |s.messages|
  {
    Work(s.messages, s.written) - s.offset
  }

  /** The sender can go on: nothing stands in the way of sealing what is left. */
  ghost predicate Able(s: Sender) {
    && Ready(s) && AlwaysSeals(s.cipher)
    && 0 <= Left(s) && s.writeSeq + Left(s) < SEQUENCE_LIMIT && s.lastSeq + Left(s) < SEQUENCE_LIMIT
  }

  predicate HasRoom(s: Sender, maxOut: nat) {
    HM_HEADER_LENGTH + RT_HEADER_LENGTH + s.cipher.maxOverhead < maxOut < 0x1_0000
  }

  lemma WorkStep(msgs: seq<Outgoing>, i: nat)
    requires i < |msgs|
    ensures Work(msgs, i) == |msgs[i].data| + 1 + Work(msgs, i + 1)
  {}

  lemma RecordIsSealed(s: Sender, m: Outgoing, p: Piece)
    requires Able(s) && s.written < |s.messages| && m == s.messages[s.written] && m.epoch <= s.epoch
    requires p.FragmentPiece? ==> p.f.FitsHeader()
    requires |Payload(p)| + s.Overhead(m) < 0x1_0000 && 0 < Left(s)
    ensures var (t, r) := SealRecord(s, m, p);
            r.Some? && t.writeSeq <= s.writeSeq + 1 && t.lastSeq <= s.lastSeq + 1
  {
    hide Payload, RecordBytes, Readable, PosOk, Whole, Work;
    var epoch := if s.UsesPrevious(m) then 0 else s.epoch;
    var seqNum := if s.UsesPrevious(m) then s.lastSeq else s.writeSeq;
    var body := s.CipherFor(m).seal(epoch * SEQUENCE_LIMIT + seqNum, ContentType(p), Payload(p));
    assert body.Some?;
    assert s.CipherFor(m).Lawful() by {
      RefusingIsLawful();
    }
    assert |body.value| <= |Payload(p)| + s.CipherFor(m).maxOverhead;
  }

  lemma FragmentIsSealed(s: Sender, m: Outgoing, w: Fragment, maxOut: nat)
    requires Able(s) && s.written < |s.messages| && m == s.messages[s.written] && m.epoch <= s.epoch
    requires !m.isCcs && Whole(m) == Some(w) && s.offset <= |w.body| && 0 < Left(s)
    requires HM_HEADER_LENGTH + s.Overhead(m) < maxOut < 0x1_0000
    ensures var (t, outcome) := SealFragment(s, m, w, maxOut);
            !outcome.Error? && t.writeSeq <= s.writeSeq + 1 && t.lastSeq <= s.lastSeq + 1
  {
    hide Able, SealRecord, RecordBytes, Whole, Sender.Overhead;
    var todo := Min(|w.body| - s.offset, maxOut - HM_HEADER_LENGTH - s.Overhead(m));
    RecordIsSealed(s, m, FragmentPiece(Cut(w, s.offset, todo)));
  }

  lemma SomethingLeft(s: Sender)
    requires Ready(s) && s.written < |s.messages|
    ensures 0 < Left(s) && s.offset <= |s.messages[s.written].data|
  {
    hide Whole;
  }

  /** Unless there is no room, a piece of the next message is sealed. */
  lemma MessageIsSealed(s: Sender, maxOut: nat)
    requires Able(s) && s.written < |s.messages| && maxOut < 0x1_0000
    ensures var (t, outcome) := SealMessage(s, maxOut);
            !outcome.Error? && t.cipher == s.cipher && t.epoch == s.epoch
            && t.writeSeq <= s.writeSeq + 1 && t.lastSeq <= s.lastSeq + 1
            && (outcome.NoProgress? ==> t == s)
  {
    hide SealFragment, SealRecord, Whole, Work, AlwaysSeals, Cipher.Lawful;
    var m := s.messages[s.written];
    assert m in s.messages;
    SomethingLeft(s);
    if m.isCcs {
      if maxOut >= |CCS_BODY| + s.Overhead(m) {
        RecordIsSealed(s, m, CcsPiece);
      }
    } else if maxOut > HM_HEADER_LENGTH + s.Overhead(m) {
      OffsetIsInside(s);
      FragmentIsSealed(s, m, Whole(m).value, maxOut);
      FragmentKeepsKeys(s, m, Whole(m).value, maxOut);
    } else {
      OffsetIsInside(s);
    }
  }

  lemma OffsetIsInside(s: Sender)
    requires Ready(s) && s.written < |s.messages| && !s.messages[s.written].isCcs
    ensures Whole(s.messages[s.written]).Some? && s.offset <= |Whole(s.messages[s.written]).value.body|
  {
    hide Whole;
    assert s.messages[s.written] in s.messages;
  }

  lemma FragmentKeepsKeys(s: Sender, m: Outgoing, w: Fragment, maxOut: nat)
    requires s.WellFormed() && m.epoch <= s.epoch
    requires w.FitsHeader() && w.msgLen == |w.body| && s.offset <= |w.body|
    requires maxOut > HM_HEADER_LENGTH + s.Overhead(m)
    ensures var t := SealFragment(s, m, w, maxOut).0; t.cipher == s.cipher && t.epoch == s.epoch
  {
    hide SealRecord;
  }

  /** What is left shrinks with every piece. */
  lemma PieceShrinks(s: Sender, maxOut: nat)
    requires Able(s) && s.written < |s.messages| && maxOut < 0x1_0000
    ensures var (t, outcome) := SealMessage(s, maxOut);
            && (outcome.Partial? ==> Able(t) && Left(t) < Left(s))
            && (outcome.Complete? ==>
              Able(t.(written := t.written + 1)) && Left(t.(written := t.written + 1)) < Left(s))
  {
    hide SealMessage, Whole, Work, AlwaysSeals, NextPos, PosOk, Readable, Cipher.Lawful;
    var (t, outcome) := SealMessage(s, maxOut);
    MessageIsSealed(s, maxOut);
    SealMessageSteps(s, maxOut);
    WorkStep(s.messages, s.written);
    SomethingLeft(s);
    if outcome.Complete? {
      NextMessageIsReady(s, t);
      SomethingOrNothing(t.(written := t.written + 1));
    } else if outcome.Partial? {
      SomethingLeft(t);
    }
  }

  lemma SomethingOrNothing(s: Sender)
    requires Ready(s) && s.offset == 0
    ensures 0 <= Left(s)
  {
    hide Whole, Readable;
  }

  /** A packet is made. */
  lemma {:induction false} PacketIsMade(s: Sender, maxOut: nat, madeProgress: bool)
    requires Able(s) && maxOut < 0x1_0000
    requires madeProgress || (s.written < |s.messages| && HasRoom(s, maxOut))
    ensures var (t, packet) := SealPacket(s, maxOut, madeProgress);
            packet.Some? && Able(t) && Left(t) + |packet.value| <= Left(s) && t.cipher == s.cipher
    decreases |s.messages| - s.written
  {
    hide SealMessage, Able, Left;
    if s.written < |s.messages| {
      AbleIsReady(s);
      MessageIsSealed(s, maxOut);
      PieceShrinks(s, maxOut);
      var (t, outcome) := SealMessage(s, maxOut);
      if !madeProgress {
        RoomMeansProgress(s, maxOut);
      }
      if outcome.Complete? {
        PacketIsMade(t.(written := t.written + 1), maxOut - |outcome.sealed.wire|, true);
      }
    }
  }

  lemma AbleIsReady(s: Sender)
    requires Able(s)
    ensures Ready(s) && 0 <= Left(s)
  {}

  /** A transport that takes the next n packets. */
  predicate Takes(results: seq<int>, n: int) {
    n <= |results| && forall i :: 0 <= i < |results| ==> results[i] > 0
  }

  /** The whole flight goes out. */
  lemma {:induction false} FlushSucceeds(s: Sender, mtu: nat, results: seq<int>, flushed: int)
    requires Able(s) && HasRoom(s, mtu) && Takes(results, Left(s)) && flushed > 0
    ensures var (t, packets, last) := Flush(s, mtu, results, flushed);
            last == AllSent && t.written == |t.messages| && |packets| <= Left(s)
    decreases |s.messages| - s.written, LeftOfMessage(s)
  {
    hide SealPacket, Able, Left;
    AbleIsReady(s);
    if s.written < |s.messages| {
      PacketIsMade(s, mtu, false);
      var (t, packet) := SealPacket(s, mtu, false);
      AbleIsReady(t);
      assert |packet.value| >= 1;
      FlushSucceeds(t, mtu, results[1..], flushed);
    }
  }
}
