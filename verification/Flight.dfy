/**
 Sending a flight of DTLS handshake messages: cutting it into fragments, packing
 the sealed fragments into packets, and resuming after a failed write. This
 module gives the steps as functions on values.
 */
module Flight {
  import opened Common
  import opened Wire
  import opened HandshakeWire

  const CCS_BODY: seq<byte> := [1]
  const SEQUENCE_LIMIT: nat := 0x1_0000_0000_0000

  // ----- ciphers -------------------------------------------------------------

  /** Record protection, under a record number and a content type. */
  datatype Cipher = Cipher(
    maxOverhead: nat,
    nonceLen: nat,
    seal: (nat, byte, seq<byte>) -> Option<seq<byte>>,
    open: (nat, byte, seq<byte>) -> Option<seq<byte>>)
  {
    /** Sealing grows a body by at most the declared overhead and can be undone. */
    ghost predicate Lawful() {
      && nonceLen <= maxOverhead
      && forall n, t, p :: seal(n, t, p).Some? ==>
           && |seal(n, t, p).value| <= |p| + maxOverhead
           && open(n, t, seal(n, t, p).value) == Some(p)
    }
  }

  const NULL_CIPHER := Cipher(0, 0, (_, _, p) => Some(p), (_, _, c) => Some(c))

  // ----- state ---------------------------------------------------------------

  /** A queued message: its bytes as one whole fragment, or a ChangeCipherSpec. */
  datatype Outgoing = Outgoing(data: seq<byte>, epoch: nat, isCcs: bool)

  /** `lastSeq` continues epoch 0 once `epoch` is 1. */
  datatype Sender = Sender(
    messages: seq<Outgoing>,
    written: nat,
    offset: nat,
    epoch: nat,
    cipher: Cipher,
    writeSeq: nat,
    lastSeq: nat,
    version: nat)
  {
    ghost predicate WellFormed() {
      && written <= |messages|
      && epoch <= 1
      && version < 0x1_0000
      && cipher.Lawful()
      && writeSeq < SEQUENCE_LIMIT && lastSeq < SEQUENCE_LIMIT
      && (forall m :: m in messages ==> m.epoch <= epoch)
    }

    predicate UsesPrevious(m: Outgoing) {
      epoch == 1 && m.epoch == 0
    }

    function CipherFor(m: Outgoing): Cipher {
      if UsesPrevious(m) then NULL_CIPHER else cipher
    }

    function Overhead(m: Outgoing): nat {
      RT_HEADER_LENGTH + CipherFor(m).maxOverhead
    }

    function Prefix(m: Outgoing): nat {
      RT_HEADER_LENGTH + CipherFor(m).nonceLen
    }
  }

  /** What one record carries. */
  datatype Piece = CcsPiece | FragmentPiece(f: Fragment)

  function ContentType(p: Piece): byte {
    if p.CcsPiece? then RT_CHANGE_CIPHER_SPEC else RT_HANDSHAKE
  }

  function Payload(p: Piece): seq<byte>
    requires p.FragmentPiece? ==> p.f.FitsHeader()
  {
    if p.CcsPiece? then CCS_BODY else Serialize(p.f)
  }

  /** A sealed record: what it carries, its number, and its bytes. */
  datatype Sealed = Sealed(piece: Piece, number: nat, wire: seq<byte>)

  // ----- sealing one record --------------------------------------------------

  function PutU48(n: nat): (b: seq<byte>)
    requires n < SEQUENCE_LIMIT
    ensures |b| == 6
  {
    PutU16(n / 0x1_0000_0000) + PutU16(n / 0x1_0000 % 0x1_0000) + PutU16(n % 0x1_0000)
  }

  function RecordBytes(typ: byte, version: nat, epoch: nat, seqNum: nat, body: seq<byte>): (b: seq<byte>)
    requires version < 0x1_0000 && epoch < 0x1_0000 && seqNum < SEQUENCE_LIMIT && |body| < 0x1_0000
    ensures |b| == RT_HEADER_LENGTH + |body|
  {
    [typ] + PutU16(version) + PutU16(epoch) + PutU48(seqNum) + PutU16(|body|) + body
  }

  /** The sender after using up a sequence number; None when it would wrap. */
  function NextSequence(s: Sender, m: Outgoing): Option<Sender> {
    if s.UsesPrevious(m) then
      if s.lastSeq + 1 == SEQUENCE_LIMIT then None else Some(s.(lastSeq := s.lastSeq + 1))
    else
      if s.writeSeq + 1 == SEQUENCE_LIMIT then None else Some(s.(writeSeq := s.writeSeq + 1))
  }

  function SealRecord(s: Sender, m: Outgoing, p: Piece): (r: (Sender, Option<Sealed>))
    requires s.WellFormed() && m.epoch <= s.epoch
    requires p.FragmentPiece? ==> p.f.FitsHeader()
    ensures r.0.WellFormed() && SamePlan(s, r.0)
    ensures r.1.Some? ==> r.1.value.piece == p
    ensures r.1.Some? ==> RT_HEADER_LENGTH <= |r.1.value.wire| <= |Payload(p)| + s.Overhead(m)
  {
    var epoch := if s.UsesPrevious(m) then 0 else s.epoch;
    var seqNum := if s.UsesPrevious(m) then s.lastSeq else s.writeSeq;
    var number := epoch * SEQUENCE_LIMIT + seqNum;
    var body := s.CipherFor(m).seal(number, ContentType(p), Payload(p));
    var next := NextSequence(s, m);
    if body.None? || next.None? then (s, None)
    else if |body.value| >= 0x1_0000 then (next.value, None)
    else (next.value, Some(Sealed(p, number, RecordBytes(ContentType(p), s.version, epoch, seqNum, body.value))))
  }

  /** Same queue, position and keys; only sequence numbers may differ. */
  ghost predicate SamePlan(s: Sender, t: Sender) {
    && t.messages == s.messages && t.written == s.written && t.offset == s.offset
    && t.epoch == s.epoch && t.cipher == s.cipher && t.version == s.version
  }

  // ----- sealing the next message, packet, flight ----------------------------

  datatype Outcome = Error | NoProgress | Partial(sealed: Sealed) | Complete(sealed: Sealed)

  /** The queued bytes read back as one whole fragment. */
  function Whole(m: Outgoing): (r: Option<Fragment>)
    ensures r.Some? ==> r.value.FitsHeader() && r.value.msgLen == |r.value.body| <= |m.data|
  {
    var p := Parse(m.data);
    if p.Some? && p.value.0.offset == 0 && p.value.0.msgLen == |p.value.0.body| && p.value.1 == [] then
      Some(p.value.0)
    else None
  }

  function Cut(w: Fragment, offset: nat, len: nat): (f: Fragment)
    requires w.FitsHeader() && w.msgLen == |w.body| && offset + len <= |w.body|
    ensures f.FitsHeader()
  {
    w.(offset := offset, body := w.body[offset..offset + len])
  }

  /** Seals the next piece of a message with at least one more byte of room. */
  function SealFragment(s: Sender, m: Outgoing, w: Fragment, maxOut: nat): (r: (Sender, Outcome))
    requires s.WellFormed() && m.epoch <= s.epoch
    requires w.FitsHeader() && w.msgLen == |w.body| && s.offset <= |w.body|
    requires maxOut > HM_HEADER_LENGTH + s.Overhead(m)
    ensures r.0.WellFormed() && r.0.written == s.written && r.0.messages == s.messages
    ensures r.1.Error? || r.1.Partial? || r.1.Complete?
    ensures r.1.Partial? || r.1.Complete? ==> RT_HEADER_LENGTH <= |r.1.sealed.wire| <= maxOut
    ensures r.1.Partial? ==> s.offset < r.0.offset < |w.body|
    ensures r.1.Error? ==> r.0.offset == s.offset
  {
    var left := |w.body| - s.offset;
    var todo := Min(left, maxOut - HM_HEADER_LENGTH - s.Overhead(m));
    var (t, sealed) := SealRecord(s, m, FragmentPiece(Cut(w, s.offset, todo)));
    if sealed.None? then (t, Error)
    else if todo == left then (t.(offset := 0), Complete(sealed.value))
    else (t.(offset := s.offset + todo), Partial(sealed.value))
  }

  /** Seals as much of the next message as fits in maxOut bytes. */
  function SealMessage(s: Sender, maxOut: nat): (r: (Sender, Outcome))
    requires s.WellFormed() && s.written < |s.messages|
    ensures r.0.WellFormed() && r.0.written == s.written && r.0.messages == s.messages
    ensures r.1.Partial? || r.1.Complete? ==> RT_HEADER_LENGTH <= |r.1.sealed.wire| <= maxOut
    ensures r.1.Partial? ==> s.offset < r.0.offset <= |s.messages[s.written].data|
    ensures !r.1.Partial? && !r.1.Complete? ==> r.0.offset == s.offset
  {
    var m := s.messages[s.written];
    assert m in s.messages;
    if m.isCcs then
      if maxOut < |CCS_BODY| + s.Overhead(m) then (s, NoProgress)
      else
        var (t, sealed) := SealRecord(s, m, CcsPiece);
        if sealed.None? then (t, Error) else (t, Complete(sealed.value))
    else
      var whole := Whole(m);
      if whole.None? || s.offset > |whole.value.body| then (s, Error)
      else if maxOut < HM_HEADER_LENGTH + 1 + s.Overhead(m) || maxOut < s.Prefix(m) then (s, NoProgress)
      else SealFragment(s, m, whole.value, maxOut)
  }

  function Size(packet: seq<Sealed>): nat {
    if packet == [] then 0 else |packet[0].wire| + Size(packet[1..])
  }

  /** Adds records to a packet until it is full, the flight ends, or sealing fails. */
  function SealPacket(s: Sender, maxOut: nat, madeProgress: bool): (r: (Sender, Option<seq<Sealed>>))
    requires s.WellFormed()
    ensures r.0.WellFormed() && r.0.messages == s.messages
    ensures r.1.Some? ==> Size(r.1.value) <= maxOut && (madeProgress || r.1.value != [])
    ensures r.1.Some? && r.1.value != [] ==> Advances(s, r.0)
    decreases |s.messages| - s.written
  {
    hide SealFragment, Whole;
    if s.written == |s.messages| then
      (s, if madeProgress then Some([]) else None)
    else
      var (t, outcome) := SealMessage(s, maxOut);
      match outcome
      case Error => (t, None)
      case NoProgress => (t, if madeProgress then Some([]) else None)
      case Partial(sealed) => (t, Some([sealed]))
      case Complete(sealed) =>
        var (u, rest) := SealPacket(t.(written := t.written + 1), maxOut - |sealed.wire|, true);
        (u, if rest.None? then None else Some([sealed] + rest.value))
  }

  /** The position moved on: to a later message, or further into the same one. */
  predicate Advances(s: Sender, t: Sender)
    requires s.written <= |s.messages|
  {
    || s.written < t.written
    || (s.written == t.written < |s.messages| && s.offset < t.offset <= |s.messages[s.written].data|)
  }

  function LeftOfMessage(s: Sender): nat {
    if s.written < |s.messages| && s.offset < |s.messages[s.written].data|
    then |s.messages[s.written].data| - s.offset else 0
  }

  /** How a flush ends; the code returns 1, -1 and the transport's answer. */
  datatype Result = AllSent | SealFailed | WriteFailed(code: int)

  /** A flush: the packets that went out, and how it ended. `results` are what
      the transport answers to successive writes; when it runs out it blocks. */
  function Flush(s: Sender, mtu: nat, results: seq<int>, flushed: int): (r: (Sender, seq<seq<Sealed>>, Result))
    requires s.WellFormed()
    ensures r.0.WellFormed() && r.0.messages == s.messages
    ensures forall p :: p in r.1 ==> p != [] && Size(p) <= mtu
    decreases |s.messages| - s.written, LeftOfMessage(s)
  {
    if s.written == |s.messages| then (s, [], if flushed <= 0 then WriteFailed(-1) else AllSent)
    else
      var (t, packet) := SealPacket(s, mtu, false);
      if packet.None? then (t, [], SealFailed)
      else
        var ret := if results == [] then -1 else results[0];
        if ret <= 0 then (t.(written := s.written, offset := s.offset), [], WriteFailed(ret))
        else
          var (u, rest, last) := Flush(t, mtu, results[1..], flushed);
          (u, [packet.value] + rest, last)
  }

  function Rewind(s: Sender): Sender {
    s.(written := 0, offset := 0)
  }
}
