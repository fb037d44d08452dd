/**
 The sender as the C code keeps it: a queue of outgoing messages, a write
 position, and per-epoch sequence numbers, all updated in place. Every method
 computes the step of module Flight.
 */
module FlightWriter {
  import opened Common
  import opened Wire
  import opened HandshakeWire
  import opened Flight

  function Bytes(packet: seq<Sealed>): (b: seq<byte>)
    ensures |b| == Size(packet)
  {
    if packet == [] then [] else packet[0].wire + Bytes(packet[1..])
  }

  class Writer {
    var messages: seq<Outgoing>
    var written: nat
    var offset: nat
    var epoch: nat
    var cipher: Cipher
    var writeSeq: nat
    var lastSeq: nat
    var version: nat
    var handshakeWriteSeq: nat

    ghost function View(): Sender
      reads this
    {
      Sender(messages, written, offset, epoch, cipher, writeSeq, lastSeq, version)
    }

    constructor (version: nat)
      requires version < 0x1_0000
      ensures View() == Sender([], 0, 0, 0, NULL_CIPHER, 0, 0, version) && View().WellFormed()
      ensures handshakeWriteSeq == 0
    {
      messages, written, offset, epoch, cipher := [], 0, 0, 0, NULL_CIPHER;
      writeSeq, lastSeq, this.version, handshakeWriteSeq := 0, 0, version, 0;
    }

    /** The bytes of a message under the next sequence number: the length is left zero at
        first and filled in from the fragment length when the body is known. */
    method FinishMessage(typ: byte, body: seq<byte>) returns (data: seq<byte>)
      requires |body| < 0x100_0000 && handshakeWriteSeq < 0x1_0000
      ensures data == Serialize(Fragment(typ, |body|, handshakeWriteSeq, 0, body))
    {
      hide PutU24, PutU16;
      data := [typ] + PutU24(0) + PutU16(handshakeWriteSeq) + PutU24(0) + PutU24(|body|) + body;
      assert data[9..12] == PutU24(|body|);
      data := data[..1] + data[9..12] + data[4..];
    }

    /** Queues a message for the flight; refused when the flight is full or the transcript
        cannot take the message. */
    method AddOutgoing(data: seq<byte>, isCcs: bool, transcriptOk: bool) returns (ok: bool)
      requires View().WellFormed()
      modifies `messages, `handshakeWriteSeq
      ensures View().WellFormed()
      ensures ok <==> |old(messages)| < MAX_FLIGHT && (isCcs || transcriptOk)
      ensures View() == old(View()).(messages := messages)
      ensures messages == old(messages) + if ok then [Outgoing(data, epoch, isCcs)] else []
      ensures handshakeWriteSeq == if ok && !isCcs then (old(handshakeWriteSeq) + 1) % 0x1_0000
                                   else old(handshakeWriteSeq)
    {
      if |messages| >= MAX_FLIGHT {
        return false;
      }
      if !isCcs {
        if !transcriptOk {
          return false;
        }
        handshakeWriteSeq := (handshakeWriteSeq + 1) % 0x1_0000;
      }
      messages := messages + [Outgoing(data, epoch, isCcs)];
      ok := true;
    }

    method ClearOutgoing()
      requires View().WellFormed()
      modifies `messages, `written, `offset
      ensures View() == old(View()).(messages := [], written := 0, offset := 0) && View().WellFormed()
    {
      messages, written, offset := [], 0, 0;
    }

    /** Switches to the next write cipher, keeping the old sequence for resends. */
    method SetWriteState(next: Cipher)
      requires View().WellFormed() && next.Lawful()
      modifies `epoch, `cipher, `lastSeq, `writeSeq
      ensures View() == old(View()).(epoch := old(epoch) + 1, cipher := next, lastSeq := old(writeSeq), writeSeq := 0)
      ensures View().WellFormed() <==> old(epoch) == 0
    {
      epoch := epoch + 1;
      lastSeq := writeSeq;
      writeSeq := 0;
      cipher := next;
    }

    method SealRecord(m: Outgoing, p: Piece) returns (r: Option<Sealed>)
      requires View().WellFormed() && m.epoch <= epoch
      requires p.FragmentPiece? ==> p.f.FitsHeader()
      modifies `writeSeq, `lastSeq
      ensures (View(), r) == Flight.SealRecord(old(View()), m, p)
    {
      hide RecordBytes, Payload, Cipher.Lawful;
      var usePrevious := epoch == 1 && m.epoch == 0;
      var recordEpoch, aead, seqNum := epoch, cipher, writeSeq;
      if usePrevious {
        recordEpoch, aead, seqNum := epoch - 1, NULL_CIPHER, lastSeq;
      }
      var number := recordEpoch * SEQUENCE_LIMIT + seqNum;
      var body := aead.seal(number, ContentType(p), Payload(p));
      if body.None? || seqNum + 1 == SEQUENCE_LIMIT {
        return None;
      }
      if usePrevious {
        lastSeq := lastSeq + 1;
      } else {
        writeSeq := writeSeq + 1;
      }
      if |body.value| >= 0x1_0000 {
        return None;
      }
      r := Some(Sealed(p, number, RecordBytes(ContentType(p), version, recordEpoch, seqNum, body.value)));
    }

    /** Seals the next message, or a piece of it. */
    method SealNextMessage(maxOut: nat) returns (outcome: Outcome)
      requires View().WellFormed() && written < |messages|
      modifies `offset, `writeSeq, `lastSeq
      ensures (View(), outcome) == SealMessage(old(View()), maxOut)
    {
      hide Flight.SealRecord, Whole, Payload;
      var m := messages[written];
      assert m in messages;
      var aead := if epoch == 1 && m.epoch == 0 then NULL_CIPHER else cipher;
      var overhead, prefix := RT_HEADER_LENGTH + aead.maxOverhead, RT_HEADER_LENGTH + aead.nonceLen;
      if m.isCcs {
        if maxOut < |CCS_BODY| + overhead {
          return NoProgress;
        }
        var sealed := SealRecord(m, CcsPiece);
        return if sealed.None? then Error else Complete(sealed.value);
      }
      var whole := Whole(m);
      if whole.None? || offset > |whole.value.body| {
        return Error;
      }
      if maxOut < HM_HEADER_LENGTH + 1 + overhead || maxOut < prefix {
        return NoProgress;
      }
      var left := |whole.value.body| - offset;
      var todo := left;
      if todo > maxOut - HM_HEADER_LENGTH - overhead {
        todo := maxOut - HM_HEADER_LENGTH - overhead;
      }
      var sealed := SealRecord(m, FragmentPiece(Cut(whole.value, offset, todo)));
      if sealed.None? {
        return Error;
      }
      if todo == left {
        offset := 0;
        return Complete(sealed.value);
      }
      offset := offset + todo;
      return Partial(sealed.value);
    }

    /** Fills `out` with as much of the flight as fits. */
    method SealNextPacket(out: array<byte>) returns (ok: bool, total: nat, ghost packet: seq<Sealed>)
      requires View().WellFormed()
      modifies out, `written, `offset, `writeSeq, `lastSeq
      ensures View().WellFormed()
      ensures (View(), if ok then Some(packet) else None) == SealPacket(old(View()), out.Length, false)
      ensures ok ==> total == Size(packet) <= out.Length && out[..total] == Bytes(packet)
    {
      hide SealMessage, SealPacket, Whole, Payload, Bytes, Size, Prepend;
      ghost var goal := SealPacket(View(), out.Length, false);
      packet, total := [], 0;
      BytesOfNothing();
      PrependNothing(goal);
      var madeProgress := false;
      var maxOut: nat := out.Length;
      while written < |messages|
        invariant View().WellFormed() && messages == old(messages) && written <= |messages|
        invariant total + maxOut == out.Length && total == Size(packet)
        invariant madeProgress <==> packet != []
        invariant out[..total] == Bytes(packet)
        invariant goal == Prepend(packet, SealPacket(View(), maxOut, madeProgress))
        decreases |messages| - written
      {
        PacketTakes(goal, packet, View(), maxOut, madeProgress);
        var outcome := SealNextMessage(maxOut);
        if outcome == Error {
          return false, total, packet;
        }
        if outcome == NoProgress {
          return madeProgress, total, packet;
        }
        CopyRecord(out, total, outcome.sealed.wire);
        BytesAppend(packet, outcome.sealed);
        packet := packet + [outcome.sealed];
        maxOut := maxOut - |outcome.sealed.wire|;
        total := total + |outcome.sealed.wire|;
        madeProgress := true;
        if outcome.Partial? {
          return true, total, packet;
        }
        written := written + 1;
      }
      PacketEnds(goal, packet, View(), maxOut, madeProgress);
      ok := madeProgress;
    }

    /** Writes the flight packet by packet; `wire` is what the transport took. */
    method FlushFlight(mtu: nat, results: seq<int>, flushed: int)
      returns (ret: int, wire: seq<seq<byte>>, ghost packets: seq<seq<Sealed>>, ghost last: Result)
      requires View().WellFormed()
      modifies `written, `offset, `writeSeq, `lastSeq
      ensures View().WellFormed()
      ensures (View(), packets, last) == Flush(old(View()), mtu, results, flushed)
      ensures ret == match last { case AllSent => 1 case SealFailed => -1 case WriteFailed(code) => code }
      ensures |wire| == |packets| && forall i :: 0 <= i < |wire| ==> wire[i] == Bytes(packets[i])
    {
      hide SealPacket, Bytes, Resumed;
      wire, packets := [], [];
      ghost var goal := Flush(View(), mtu, results, flushed);
      ResumedAfterNothing(goal);
      var pending := results;
      while written < |messages|
        invariant View().WellFormed() && messages == old(messages)
        invariant goal == Resumed(packets, Flush(View(), mtu, pending, flushed))
        invariant |wire| == |packets| && forall i :: 0 <= i < |wire| ==> wire[i] == Bytes(packets[i])
        decreases |messages| - written, LeftOfMessage(View())
      {
        var oldWritten, oldOffset := written, offset;
        var buffer := new byte[mtu];
        ResumedAtEnd(packets);
        var ok, total, packet := SealNextPacket(buffer);
        if !ok {
          return -1, wire, packets, SealFailed;
        }
        var bioRet := if pending == [] then -1 else pending[0];
        if bioRet <= 0 {
          written, offset := oldWritten, oldOffset;
          return bioRet, wire, packets, WriteFailed(bioRet);
        }
        ResumedAfterOne(packets, packet);
        wire, packets := wire + [buffer[..total]], packets + [packet];
        pending := pending[1..];
      }
      ResumedAtEnd(packets);
      if flushed <= 0 {
        return -1, wire, packets, WriteFailed(-1);
      }
      return 1, wire, packets, AllSent;
    }

    /** Starts the flight over, for a retransmission. */
    method RewindFlight()
      requires View().WellFormed()
      modifies `written, `offset
      ensures View() == Rewind(old(View())) && View().WellFormed()
    {
      written, offset := 0, 0;
    }

    static method CopyRecord(out: array<byte>, start: nat, wire: seq<byte>)
      requires start + |wire| <= out.Length
      modifies out
      ensures out[..start + |wire|] == old(out[..start]) + wire
    {
      forall i | 0 <= i < |wire| {
        out[start + i] := wire[i];
      }
    }
  }

  /** The rest of a flush, with the packets already sent in front. */
  ghost function Resumed(sent: seq<seq<Sealed>>,
                         r: (Sender, seq<seq<Sealed>>, Result)): (Sender, seq<seq<Sealed>>, Result) {
    (r.0, sent + r.1, r.2)
  }

  lemma ResumedAfterNothing(r: (Sender, seq<seq<Sealed>>, Result))
    ensures Resumed([], r) == r
  {
    assert [] + r.1 == r.1;
  }

  lemma ResumedAtEnd(sent: seq<seq<Sealed>>)
    ensures forall t, last :: Resumed(sent, (t, [], last)) == (t, sent, last)
  {
    assert sent + [] == sent;
  }

  lemma ResumedAfterOne(sent: seq<seq<Sealed>>, packet: seq<Sealed>)
    ensures forall t, rest, last ::
      Resumed(sent, (t, [packet] + rest, last)) == Resumed(sent + [packet], (t, rest, last))
  {
    forall rest: seq<seq<Sealed>>
      ensures sent + ([packet] + rest) == (sent + [packet]) + rest
    {}
  }

  lemma BytesOfNothing()
    ensures Bytes([]) == [] && Size([]) == 0
  {}

  ghost function Prepend(packet: seq<Sealed>, r: (Sender, Option<seq<Sealed>>)): (Sender, Option<seq<Sealed>>) {
    (r.0, if r.1.None? then None else Some(packet + r.1.value))
  }

  lemma PrependNothing(r: (Sender, Option<seq<Sealed>>))
    ensures Prepend([], r) == r
  {
    if r.1.Some? {
      assert [] + r.1.value == r.1.value;
    }
  }

  /** One more record of a packet, of which some are there already. */
  lemma PacketTakes(goal: (Sender, Option<seq<Sealed>>), packet: seq<Sealed>, s: Sender, maxOut: nat,
                    madeProgress: bool)
    requires s.WellFormed() && s.written < |s.messages|
    requires goal == Prepend(packet, SealPacket(s, maxOut, madeProgress))
    ensures var (t, outcome) := SealMessage(s, maxOut);
      match outcome
      case Error => goal == (t, None)
      case NoProgress => goal == (t, if madeProgress then Some(packet) else None)
      case Partial(x) => goal == (t, Some(packet + [x]))
      case Complete(x) =>
        && t.(written := t.written + 1).WellFormed()
        && goal == Prepend(packet + [x], SealPacket(t.(written := t.written + 1), maxOut - |x.wire|, true))
  {
    hide SealMessage;
    var (t, outcome) := SealMessage(s, maxOut);
    assert packet + [] == packet;
    if outcome.Complete? {
      var x := outcome.sealed;
      var (u, rest) := SealPacket(t.(written := t.written + 1), maxOut - |x.wire|, true);
      if rest.Some? {
        assert packet + ([x] + rest.value) == packet + [x] + rest.value;
      }
    }
  }

  lemma PacketEnds(goal: (Sender, Option<seq<Sealed>>), packet: seq<Sealed>, s: Sender, maxOut: nat, madeProgress: bool)
    requires s.WellFormed() && s.written == |s.messages|
    requires goal == Prepend(packet, SealPacket(s, maxOut, madeProgress))
    ensures goal == (s, if madeProgress then Some(packet) else None)
  {
    assert packet + [] == packet;
  }

  lemma {:induction false} BytesAppend(packet: seq<Sealed>, x: Sealed)
    ensures Bytes(packet + [x]) == Bytes(packet) + x.wire
    ensures Size(packet + [x]) == Size(packet) + |x.wire|
    decreases |packet|
  {
    if packet == [] {
      assert [] + [x] == [x];
    } else {
      assert (packet + [x])[1..] == packet[1..] + [x];
      BytesAppend(packet[1..], x);
    }
  }
}
