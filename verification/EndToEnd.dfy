/**
 From the bytes of sent packets to the messages handed out: sender, record layer
 and receiver put together.
 */
module EndToEnd {
  import opened Common
  import opened Wire
  import opened HandshakeWire
  import opened Receiver
  import opened Delivery
  import opened RecordInput
  import Reassembly
  import ReplayWindow
  import Flight
  import FlightCoverage
  import FlightWriter
  import RecordLayer

  // ----- record headers round-trip -------------------------------------------

  function SequenceField(epoch: nat, seqNum: nat): (b: seq<byte>)
    requires epoch < 0x1_0000 && seqNum < Flight.SEQUENCE_LIMIT
    ensures |b| == 8
  {
    PutU16(epoch) + Flight.PutU48(seqNum)
  }

  lemma WordsOfSequence(seqNum: nat)
    requires seqNum < Flight.SEQUENCE_LIMIT
    ensures seqNum == (seqNum / 0x1_0000_0000 * 0x1_0000 + seqNum / 0x1_0000 % 0x1_0000) * 0x1_0000 + seqNum % 0x1_0000
  {}

  lemma SequenceFieldRoundTrip(epoch: nat, seqNum: nat)
    requires epoch < 0x1_0000 && seqNum < Flight.SEQUENCE_LIMIT
    ensures RecordLayer.BigEndian(SequenceField(epoch, seqNum)) == epoch * Flight.SEQUENCE_LIMIT + seqNum
  {
    hide U16, PutU16, RecordLayer.BigEndian;
    var b := SequenceField(epoch, seqNum);
    var w1, w2, w3 := seqNum / 0x1_0000_0000, seqNum / 0x1_0000 % 0x1_0000, seqNum % 0x1_0000;
    U16RoundTrip(epoch);
    U16RoundTrip(w1);
    U16RoundTrip(w2);
    U16RoundTrip(w3);
    WordsOfSequence(seqNum);
    assert b[0..2] == PutU16(epoch) && b[2..4] == PutU16(w1) && b[4..6] == PutU16(w2) && b[6..8] == PutU16(w3);
    RecordLayer.BigEndianOfNothing();
    RecordLayer.BigEndianWord(b, 0);
    RecordLayer.BigEndianWord(b, 2);
    RecordLayer.BigEndianWord(b, 4);
    RecordLayer.BigEndianWord(b, 6);
    assert b[..0] == [] && b[..8] == b;
  }

  /** Type, version, epoch, 48-bit sequence number and length stand in this order, most
      significant byte first (RFC 6347, section 4.1). */
  lemma RecordLayout(typ: byte, version: nat, epoch: nat, seqNum: nat, body: seq<byte>)
    requires version < 0x1_0000 && epoch < 0x1_0000 && seqNum < Flight.SEQUENCE_LIMIT && |body| < 0x1_0000
    ensures var b := Flight.RecordBytes(typ, version, epoch, seqNum, body);
            && b[0] == typ && b[13..] == body
            && 0x100 * (b[1] as nat) + b[2] as nat == version
            && 0x100 * (b[3] as nat) + b[4] as nat == epoch
            && 0x1_0000_0000 * (0x100 * (b[5] as nat) + b[6] as nat)
               + 0x1_0000 * (0x100 * (b[7] as nat) + b[8] as nat)
               + 0x100 * (b[9] as nat) + b[10] as nat == seqNum
            && 0x100 * (b[11] as nat) + b[12] as nat == |body|
  {
    WordsOfSequence(seqNum);
  }

  lemma ParseRecordOfBytes(typ: byte, version: nat, epoch: nat, seqNum: nat, body: seq<byte>, rest: seq<byte>)
    requires version < 0x1_0000 && epoch < 0x1_0000 && seqNum < Flight.SEQUENCE_LIMIT && |body| < 0x1_0000
    ensures RecordLayer.ParseRecord(Flight.RecordBytes(typ, version, epoch, seqNum, body) + rest)
         == Some(RecordLayer.Parsed(typ, version, SequenceField(epoch, seqNum), body))
  {
    hide U16, PutU16, Flight.PutU48;
    var b := Flight.RecordBytes(typ, version, epoch, seqNum, body) + rest;
    U16RoundTrip(version);
    U16RoundTrip(|body|);
    assert b[1..3] == PutU16(version);
    assert b[3..11] == SequenceField(epoch, seqNum);
    assert b[11..13] == PutU16(|body|);
    assert b[13..13 + |body|] == body;
  }

  // ----- what an honest sender puts on the wire ------------------------------

  /** The keys a record number is opened with; epoch 0 is in the clear. */
  function OpenerFor(s: Flight.Sender, number: nat): Flight.Cipher {
    if s.epoch == 1 && number < Flight.SEQUENCE_LIMIT then Flight.NULL_CIPHER else s.cipher
  }

  ghost predicate Genuine(s: Flight.Sender, x: Flight.Sealed) {
    && s.version < 0x1_0000
    && x.number < 2 * Flight.SEQUENCE_LIMIT && x.number / Flight.SEQUENCE_LIMIT <= s.epoch
    && (x.piece.FragmentPiece? ==> x.piece.f.FitsHeader())
    && exists body :: IsRecordOf(s, x, body)
  }

  ghost predicate IsRecordOf(s: Flight.Sender, x: Flight.Sealed, body: seq<byte>)
    requires s.version < 0x1_0000 && x.number < 2 * Flight.SEQUENCE_LIMIT
    requires x.piece.FragmentPiece? ==> x.piece.f.FitsHeader()
  {
    && |body| < 0x1_0000
    && x.wire == Flight.RecordBytes(Flight.ContentType(x.piece), s.version, x.number / Flight.SEQUENCE_LIMIT,
                                    x.number % Flight.SEQUENCE_LIMIT, body)
    && OpenerFor(s, x.number).open(x.number, Flight.ContentType(x.piece), body) == Some(Flight.Payload(x.piece))
  }

  lemma SealRecordIsGenuine(s: Flight.Sender, m: Flight.Outgoing, p: Flight.Piece)
    requires s.WellFormed() && m.epoch <= s.epoch && (p.FragmentPiece? ==> p.f.FitsHeader())
    ensures var r := Flight.SealRecord(s, m, p).1; r.Some? ==> Genuine(s, r.value)
  {
    hide Flight.RecordBytes, Flight.Payload;
    var r := Flight.SealRecord(s, m, p).1;
    if r.Some? {
      var x := r.value;
      var body := s.CipherFor(m).seal(x.number, Flight.ContentType(p), Flight.Payload(p)).value;
      assert IsRecordOf(s, x, body);
    }
  }

  ghost predicate SameKeys(s: Flight.Sender, t: Flight.Sender) {
    t.epoch == s.epoch && t.cipher == s.cipher && t.version == s.version
  }

  ghost predicate AllGenuine(s: Flight.Sender, packet: seq<Flight.Sealed>) {
    forall x :: x in packet ==> Genuine(s, x)
  }

  lemma SealMessageIsGenuine(s: Flight.Sender, maxOut: nat)
    requires s.WellFormed() && s.written < |s.messages|
    ensures var (t, outcome) := Flight.SealMessage(s, maxOut);
            SameKeys(s, t) && (outcome.Partial? || outcome.Complete? ==> Genuine(s, outcome.sealed))
  {
    hide Flight.SealRecord, Flight.Whole, Flight.Payload, Genuine, Flight.Cut;
    var m := s.messages[s.written];
    assert m in s.messages;
    if m.isCcs {
      SealRecordIsGenuine(s, m, Flight.CcsPiece);
    } else if Flight.Whole(m).Some? && s.offset <= |Flight.Whole(m).value.body|
              && maxOut > HM_HEADER_LENGTH + s.Overhead(m) {
      var w := Flight.Whole(m).value;
      var todo := Min(|w.body| - s.offset, maxOut - HM_HEADER_LENGTH - s.Overhead(m));
      SealRecordIsGenuine(s, m, Flight.FragmentPiece(Flight.Cut(w, s.offset, todo)));
    }
  }

  lemma {:induction false} SealPacketIsGenuine(s: Flight.Sender, maxOut: nat, madeProgress: bool)
    requires s.WellFormed()
    ensures var (t, packet) := Flight.SealPacket(s, maxOut, madeProgress);
            SameKeys(s, t) && (packet.Some? ==> AllGenuine(s, packet.value))
    decreases |s.messages| - s.written
  {
    hide Flight.SealMessage, Genuine;
    if s.written < |s.messages| {
      SealMessageIsGenuine(s, maxOut);
      var (t, outcome) := Flight.SealMessage(s, maxOut);
      if outcome.Complete? {
        var next := t.(written := t.written + 1);
        SealPacketIsGenuine(next, maxOut - |outcome.sealed.wire|, true);
        KeysMakeGenuine(next, s);
      }
    }
  }

  lemma KeysMakeGenuine(s: Flight.Sender, t: Flight.Sender)
    requires SameKeys(s, t)
    ensures forall x :: Genuine(s, x) ==> Genuine(t, x)
  {
    hide Flight.RecordBytes, Flight.Payload;
    forall x | Genuine(s, x)
      ensures Genuine(t, x)
    {
      var body :| IsRecordOf(s, x, body);
      assert IsRecordOf(t, x, body);
    }
  }

  lemma {:induction false} FlushIsGenuine(s: Flight.Sender, mtu: nat, results: seq<int>, flushed: int)
    requires s.WellFormed()
    ensures forall p :: p in Flight.Flush(s, mtu, results, flushed).1 ==> AllGenuine(s, p)
    decreases |s.messages| - s.written, Flight.LeftOfMessage(s)
  {
    hide Flight.SealPacket, Genuine;
    if s.written < |s.messages| {
      SealPacketIsGenuine(s, mtu, false);
      var (t, packet) := Flight.SealPacket(s, mtu, false);
      if packet.Some? && results != [] && results[0] > 0 {
        FlushIsGenuine(t, mtu, results[1..], flushed);
        KeysMakeGenuine(t, s);
      }
    }
  }

  // ----- opening a datagram --------------------------------------------------

  /** The records of a datagram, opened one after the other with the peer's keys;
      a record that does not parse or open ends it. */
  function OpenedAll(s: Flight.Sender, datagram: seq<byte>): seq<Rec>
    decreases |datagram|
  {
    match RecordLayer.ParseRecord(datagram)
    case None => []
    case Some(p) =>
      var number := RecordLayer.BigEndian(p.sequence);
      var plain := OpenerFor(s, number).open(number, p.typ, p.body);
      if plain.None? then []
      else [Rec(p.typ, plain.value)] + OpenedAll(s, datagram[RT_HEADER_LENGTH + |p.body|..])
  }

  function RecOf(p: Flight.Piece): Rec
    requires p.FragmentPiece? ==> p.f.FitsHeader()
  {
    Rec(Flight.ContentType(p), Flight.Payload(p))
  }

  lemma OpeningGenuine(s: Flight.Sender, x: Flight.Sealed, rest: seq<byte>)
    requires Genuine(s, x)
    ensures OpenedAll(s, x.wire + rest) == [RecOf(x.piece)] + OpenedAll(s, rest)
  {
    hide Flight.Payload, RecordLayer.BigEndian, SequenceField, Flight.RecordBytes, RecordLayer.ParseRecord;
    var body :| IsRecordOf(s, x, body);
    var epoch, seqNum := x.number / Flight.SEQUENCE_LIMIT, x.number % Flight.SEQUENCE_LIMIT;
    ParseRecordOfBytes(Flight.ContentType(x.piece), s.version, epoch, seqNum, body, rest);
    SequenceFieldRoundTrip(epoch, seqNum);
    assert (x.wire + rest)[RT_HEADER_LENGTH + |body|..] == rest;
  }

  /** Every record of a sent packet opens to exactly what was sealed into it. */
  lemma {:induction false} PacketOpens(s: Flight.Sender, packet: seq<Flight.Sealed>)
    requires AllGenuine(s, packet)
    ensures |OpenedAll(s, FlightWriter.Bytes(packet))| == |packet|
    ensures forall i :: 0 <= i < |packet| ==>
              packet[i] in packet && OpenedAll(s, FlightWriter.Bytes(packet))[i] == RecOf(packet[i].piece)
    decreases |packet|
  {
    hide Genuine, OpenedAll, RecOf;
    if packet == [] {
      NothingOpens(s);
    } else {
      OpeningGenuine(s, packet[0], FlightWriter.Bytes(packet[1..]));
      PacketOpens(s, packet[1..]);
    }
  }

  lemma NothingOpens(s: Flight.Sender)
    ensures OpenedAll(s, []) == []
  {}

  // ----- the whole path ------------------------------------------------------

  /** A flight of the sent messages: each queued message is one of them, serialized
      whole under its own sequence number, or a ChangeCipherSpec. */
  ghost predicate FlightOf(sent: seq<Message>, s: Flight.Sender) {
    && FlightCoverage.Ready(s)
    && forall m :: m in s.messages ==> m.isCcs || IsMessageOf(sent, m)
  }

  ghost predicate IsMessageOf(sent: seq<Message>, m: Flight.Outgoing) {
    exists q: nat :: q < |sent| && Fits(sent, q) && m.data == Serialize(WholeMessage(sent, q))
  }

  predicate Fits(sent: seq<Message>, q: nat)
    requires q < |sent|
  {
    q < SEQ_LIMIT && |sent[q].body| < 0x100_0000
  }

  function WholeMessage(sent: seq<Message>, q: nat): (f: Fragment)
    requires q < |sent| && Fits(sent, q)
    ensures f.FitsHeader()
  {
    Fragment(sent[q].typ, |sent[q].body|, q, 0, sent[q].body)
  }

  lemma CutsAreHonest(sent: seq<Message>, m: Flight.Outgoing, offset: nat, len: nat)
    requires IsMessageOf(sent, m) && Flight.Whole(m).Some?
    requires offset + len <= |Flight.Whole(m).value.body|
    ensures HonestFragment(sent, Flight.Cut(Flight.Whole(m).value, offset, len))
  {
    hide Serialize, Parse;
    var q: nat :| q < |sent| && Fits(sent, q) && m.data == Serialize(WholeMessage(sent, q));
    ParseOfSerialize(WholeMessage(sent, q), []);
    assert m.data + [] == m.data;
  }

  lemma {:induction false} WalkedPiecesAreHonest(sent: seq<Message>, msgs: seq<Flight.Outgoing>,
                                                 pos: FlightCoverage.Pos, ps: seq<Flight.Piece>)
    requires forall m :: m in msgs ==> m.isCcs || IsMessageOf(sent, m)
    requires FlightCoverage.Walk(msgs, pos, ps).Some?
    ensures forall p :: p in ps && p.FragmentPiece? ==> HonestFragment(sent, p.f)
    decreases |ps|
  {
    hide Flight.Whole, HonestFragment, IsMessageOf, Flight.Cut;
    if ps != [] {
      var next := FlightCoverage.NextPos(msgs, pos, ps[0]);
      WalkedPiecesAreHonest(sent, msgs, next.value, ps[1..]);
      var m := msgs[pos.written];
      assert m in msgs;
      if !m.isCcs {
        CutsAreHonest(sent, m, pos.offset, |ps[0].f.body|);
      }
    }
  }

  lemma HonestPieceIsHonestRec(sent: seq<Message>, p: Flight.Piece)
    requires p.FragmentPiece? ==> HonestFragment(sent, p.f)
    ensures HonestRec(sent, RecOf(p))
  {
    hide Serialize;
    if p.FragmentPiece? {
      assert AllHonest(sent, [p.f]);
      assert SerializeAll([p.f]) == Serialize(p.f);
    }
  }

  lemma {:induction false} PieceIsAmongAll(packets: seq<seq<Flight.Sealed>>, packet: seq<Flight.Sealed>,
                                           x: Flight.Sealed)
    requires packet in packets && x in packet
    ensures x.piece in FlightCoverage.AllPieces(packets)
    decreases |packets|
  {
    if packet == packets[0] {
      var i :| 0 <= i < |packet| && packet[i] == x;
      assert FlightCoverage.PiecesOf(packet)[i] == x.piece;
    } else {
      assert packet in packets[1..];
      PieceIsAmongAll(packets[1..], packet, x);
    }
  }

  /** One call of flush on a flight. */
  datatype Emission = Emission(sender: Flight.Sender, attempt: FlightCoverage.Attempt)

  function Packets(e: Emission): seq<seq<Flight.Sealed>>
    requires e.sender.WellFormed()
  {
    Flight.Flush(e.sender, e.attempt.mtu, e.attempt.results, e.attempt.flushed).1
  }

  /** The record came out of a packet that one of the flushes put on the wire. */
  ghost predicate OffTheWire(sent: seq<Message>, emissions: seq<Emission>, r: Rec) {
    exists e: Emission, packet: seq<Flight.Sealed> :: e in emissions && FlightOf(sent, e.sender) && packet in Packets(e)
                        && r in OpenedAll(e.sender, FlightWriter.Bytes(packet))
  }

  lemma OffTheWireIsHonest(sent: seq<Message>, emissions: seq<Emission>, r: Rec)
    requires OffTheWire(sent, emissions, r)
    ensures HonestRec(sent, r)
  {
    hide OpenedAll, HonestRec, RecOf, Genuine, FlightCoverage.AllPieces, IsMessageOf;
    var e: Emission, packet: seq<Flight.Sealed> :| e in emissions && FlightOf(sent, e.sender) && packet in Packets(e)
                     && r in OpenedAll(e.sender, FlightWriter.Bytes(packet));
    var s, a := e.sender, e.attempt;
    FlushIsGenuine(s, a.mtu, a.results, a.flushed);
    PacketOpens(s, packet);
    var i :| 0 <= i < |packet| && r == OpenedAll(s, FlightWriter.Bytes(packet))[i];
    FlightCoverage.FlushWalks(s, a.mtu, a.results, a.flushed);
    WalkedPiecesAreHonest(sent, s.messages, FlightCoverage.PosOf(s), FlightCoverage.AllPieces(Packets(e)));
    PieceIsAmongAll(Packets(e), packet, packet[i]);
    HonestPieceIsHonestRec(sent, packet[i].piece);
  }

  /** Records opened from any flights of the sent messages, at any MTUs, with failed
      writes and retransmissions, in any order and number, deliver a prefix. */
  lemma OpenedRecordsDeliverPrefix(sent: seq<Message>, emissions: seq<Emission>, calls: seq<Call>)
    requires |sent| < SEQ_LIMIT
    requires forall c: Call, r: Rec :: c in calls && r in c.arrivals && r.typ == RT_HANDSHAKE ==>
        OffTheWire(sent, emissions, r)
    ensures Delivered(START, [], calls) <= sent
  {
    hide HonestRec, OffTheWire, Delivered;
    forall c: Call, r: Rec | c in calls && r in c.arrivals
      ensures HonestRec(sent, r)
    {
      if r.typ == RT_HANDSHAKE {
        OffTheWireIsHonest(sent, emissions, r);
      } else {
        OtherRecsAreHonest(sent, r);
      }
    }
    DeliveredIsPrefixOfSent(sent, calls);
  }

  lemma OtherRecsAreHonest(sent: seq<Message>, r: Rec)
    requires r.typ != RT_HANDSHAKE
    ensures HonestRec(sent, r)
  {}

  // ----- the peer's record reader in between ---------------------------------

  /** The sender's keys are the reader's: epoch 0 in the clear, epoch 1 under these. */
  ghost predicate SharesKeys(keys: Flight.Cipher, s: Flight.Sender) {
    (s.epoch == 0 ==> s.cipher == Flight.NULL_CIPHER) && (s.epoch == 1 ==> s.cipher == keys)
  }

  /** A datagram that one of the flushes put on the wire. */
  ghost predicate WasSent(sent: seq<Message>, keys: Flight.Cipher, emissions: seq<Emission>, datagram: seq<byte>) {
    exists e: Emission, packet: seq<Flight.Sealed> ::
      LeftIn(sent, keys, emissions, e, packet) && datagram == FlightWriter.Bytes(packet)
  }

  /** A record of the sender's at the front of the buffer: it is handed on if and only if
      its version is right, its epoch is current, its number is neither a repeat nor too
      old, and neither the record nor what is in it is too long. */
  lemma GenuineIsAcceptedExactly(keys: Flight.Cipher, s: Flight.Sender, rd: Reading, x: Flight.Sealed, rest: seq<byte>)
    requires Genuine(s, x) && SharesKeys(keys, s) && s.epoch <= 1 && rd.buffer == x.wire + rest
    ensures var (next, outcome) := OpenOne(keys, rd);
      if !(rd.haveVersion ==> s.version == rd.version) || s.version / 0x100 != RecordLayer.VERSION_MAJOR
         || |x.wire| > BUFFER_CAPACITY then
        (next, outcome) == (rd.(buffer := []), RecordLayer.Discard)
      else if RecordLayer.Drops(rd.conn, x.number) then
        (next, outcome) == (rd.(buffer := rest), RecordLayer.Discard)
      else if |RecOf(x.piece).data| > MAX_PLAIN_LENGTH then
        (next, outcome) == (rd.(buffer := rest), RecordLayer.Error)
      else
        && outcome == RecordLayer.Success(RecOf(x.piece).typ, RecOf(x.piece).data)
        && next == rd.(conn := rd.conn.(window := ReplayWindow.Record(rd.conn.window, x.number)),
                       alerts := rd.alerts.(warnings := 0), buffer := rest)
  {
    hide Flight.Payload, RecordLayer.BigEndian, SequenceField, Flight.RecordBytes, RecordLayer.ParseRecord,
         ReplayWindow.ShouldDiscard, ReplayWindow.Record;
    var body :| IsRecordOf(s, x, body);
    var epoch, seqNum := x.number / Flight.SEQUENCE_LIMIT, x.number % Flight.SEQUENCE_LIMIT;
    var typ := Flight.ContentType(x.piece);
    ParseRecordOfBytes(typ, s.version, epoch, seqNum, body, rest);
    SequenceFieldRoundTrip(epoch, seqNum);
    assert (x.wire + rest)[RT_HEADER_LENGTH + |body|..] == rest;
    assert |x.wire| == RT_HEADER_LENGTH + |body|;
    if !RecordLayer.Drops(rd.conn, x.number) {
      assert rd.conn.epoch == epoch;
      assert KeysOf(keys, rd.conn.epoch) == OpenerFor(s, x.number);
    }
  }

  /** A record of the sender's that is cut short is dropped with what is left of it. */
  lemma CutShortIsDropped(keys: Flight.Cipher, s: Flight.Sender, rd: Reading, x: Flight.Sealed)
    requires Genuine(s, x) && rd.buffer < x.wire
    ensures OpenOne(keys, rd) == (rd.(buffer := []), RecordLayer.Discard)
  {
    hide Flight.Payload, RecordLayer.BigEndian, SequenceField, Flight.RecordBytes, RecordLayer.ParseRecord;
    var body :| IsRecordOf(s, x, body);
    var epoch, seqNum := x.number / Flight.SEQUENCE_LIMIT, x.number % Flight.SEQUENCE_LIMIT;
    ParseRecordOfBytes(Flight.ContentType(x.piece), s.version, epoch, seqNum, body, []);
    assert x.wire + [] == x.wire && rd.buffer == x.wire[..|rd.buffer|];
    if RecordLayer.ParseRecord(rd.buffer).Some? {
      SameHeader(x.wire, |rd.buffer|);
    }
  }

  /** The packet left in one of the flushes. */
  ghost predicate LeftIn(sent: seq<Message>, keys: Flight.Cipher, emissions: seq<Emission>, e: Emission,
                         packet: seq<Flight.Sealed>) {
    e in emissions && FlightOf(sent, e.sender) && SharesKeys(keys, e.sender) && packet in Packets(e)
  }

  /** The bytes are records of a packet sent from the a-th on, the last perhaps cut short. */
  ghost predicate RestOfPacket(sent: seq<Message>, keys: Flight.Cipher, emissions: seq<Emission>, buffer: seq<byte>) {
    exists e: Emission, packet: seq<Flight.Sealed>, a: nat ::
      LeftIn(sent, keys, emissions, e, packet) && a <= |packet| && buffer <= FlightWriter.Bytes(packet[a..])
  }

  /** What the reader has before it came in datagrams that the flushes sent. */
  ghost predicate FromWire(sent: seq<Message>, keys: Flight.Cipher, emissions: seq<Emission>, rd: Reading) {
    && (rd.buffer != [] ==> RestOfPacket(sent, keys, emissions, rd.buffer))
    && forall d :: d in rd.waiting ==> WasSent(sent, keys, emissions, d)
  }

  lemma ReceivedIsPacket(sent: seq<Message>, keys: Flight.Cipher, emissions: seq<Emission>, datagram: seq<byte>)
    requires WasSent(sent, keys, emissions, datagram)
    ensures RestOfPacket(sent, keys, emissions, Received(datagram))
  {
    hide IsMessageOf, Packets, FlightCoverage.Ready;
    var e: Emission, packet: seq<Flight.Sealed> :| LeftIn(sent, keys, emissions, e, packet)
      && datagram == FlightWriter.Bytes(packet);
    assert packet[0..] == packet;
  }

  /** The record taken off such a buffer was in the packet, and what is left is its rest. */
  lemma OpenOneFromWire(sent: seq<Message>, keys: Flight.Cipher, emissions: seq<Emission>, rd: Reading)
    requires rd.buffer != [] && RestOfPacket(sent, keys, emissions, rd.buffer)
    ensures var (next, outcome) := OpenOne(keys, rd);
            && (next.buffer != [] ==> RestOfPacket(sent, keys, emissions, next.buffer))
            && (outcome.Success? ==> OffTheWire(sent, emissions, Rec(outcome.typ, outcome.body)))
  {
    hide OpenedAll, IsMessageOf, Packets, Genuine, OpenOne, RecOf, FlightCoverage.Ready;
    var e: Emission, packet: seq<Flight.Sealed>, a: nat :|
      LeftIn(sent, keys, emissions, e, packet) && a <= |packet| && rd.buffer <= FlightWriter.Bytes(packet[a..]);
    SentIsGenuine(sent, e, packet);
    var x, later := packet[a], FlightWriter.Bytes(packet[a + 1..]);
    assert packet[a..][1..] == packet[a + 1..] && x in packet;
    if |rd.buffer| >= |x.wire| {
      var rest := rd.buffer[|x.wire|..];
      assert rd.buffer == x.wire + rest && rest <= later;
      GenuineIsAcceptedExactly(keys, e.sender, rd, x, rest);
      PacketOpens(e.sender, packet);
      GenuineFits(e.sender, x);
      assert RecOf(x.piece) == OpenedAll(e.sender, FlightWriter.Bytes(packet))[a];
    } else {
      CutShortIsDropped(keys, e.sender, rd, x);
    }
  }

  lemma GenuineFits(s: Flight.Sender, x: Flight.Sealed)
    requires Genuine(s, x)
    ensures x.piece.FragmentPiece? ==> x.piece.f.FitsHeader()
  {}

  /** One call for a record: what it hands on was sealed into a packet that was sent. */
  lemma {:induction false} HandedIsOffTheWire(sent: seq<Message>, keys: Flight.Cipher, emissions: seq<Emission>,
                                              rd: Reading)
    requires FromWire(sent, keys, emissions, rd)
    ensures var (next, got) := NextRecord(keys, rd);
            FromWire(sent, keys, emissions, next) && (got.Handed? ==> OffTheWire(sent, emissions, got.rec))
    decreases |rd.waiting|, |rd.buffer|
  {
    hide OpenOne, OffTheWire, WasSent, RestOfPacket;
    if rd.alerts.shutdown.Running? {
      if rd.buffer == [] {
        if rd.waiting != [] && rd.waiting[0] != [] {
          ReceivedIsPacket(sent, keys, emissions, rd.waiting[0]);
          HandedIsOffTheWire(sent, keys, emissions,
                             rd.(buffer := Received(rd.waiting[0]), waiting := rd.waiting[1..]));
        }
      } else {
        OpenOneFromWire(sent, keys, emissions, rd);
        var (next, outcome) := OpenOne(keys, rd);
        if outcome.Discard? {
          HandedIsOffTheWire(sent, keys, emissions, next);
        }
      }
    }
  }

  lemma SentIsGenuine(sent: seq<Message>, e: Emission, packet: seq<Flight.Sealed>)
    requires FlightOf(sent, e.sender) && packet in Packets(e)
    ensures AllGenuine(e.sender, packet) && e.sender.epoch <= 1
  {
    hide Genuine;
    FlushIsGenuine(e.sender, e.attempt.mtu, e.attempt.results, e.attempt.flushed);
  }

  /** A sent fragment of a message with a body never makes the receiver's marking leave
      its bitmap. */
  lemma SentFragmentsStayInBitmap(s: Flight.Sender, mtu: nat, results: seq<int>, flushed: int)
    requires FlightCoverage.Ready(s)
    ensures forall p :: p in FlightCoverage.AllPieces(Flight.Flush(s, mtu, results, flushed).1)
                        && p.FragmentPiece? && p.f.msgLen > 0 ==>
              p.f.offset + |p.f.body| <= p.f.msgLen
              && !Reassembly.EmptyAtFullEnd(p.f.msgLen, p.f.offset, p.f.offset + |p.f.body|)
  {
    hide FlightCoverage.Walk, FlightCoverage.AllPieces, Flight.Flush;
    FlightCoverage.FlushWalks(s, mtu, results, flushed);
    FlightCoverage.PiecesAreNotEmpty(s.messages, FlightCoverage.PosOf(s),
      FlightCoverage.AllPieces(Flight.Flush(s, mtu, results, flushed).1));
  }

  // ----- building a flight ---------------------------------------------------

  lemma MoreWereSent(sent: seq<Message>, x: Message, m: Flight.Outgoing)
    requires IsMessageOf(sent, m)
    ensures IsMessageOf(sent + [x], m)
  {
    hide Serialize;
    var q: nat :| q < |sent| && Fits(sent, q) && m.data == Serialize(WholeMessage(sent, q));
    assert WholeMessage(sent + [x], q) == WholeMessage(sent, q);
  }

  /** Queueing a message through the writer keeps the flight one of the messages sent, and
      the write sequence the number of messages so far. */
  method QueueMessage(w: FlightWriter.Writer, typ: byte, body: seq<byte>, transcriptOk: bool, ghost sent: seq<Message>)
    returns (ok: bool, ghost after: seq<Message>)
    requires FlightOf(sent, w.View()) && w.handshakeWriteSeq == |sent|
    requires |sent| + 1 < SEQ_LIMIT && |body| < 0x100_0000
    modifies w
    ensures FlightOf(after, w.View()) && w.handshakeWriteSeq == |after|
    ensures after == if ok then sent + [Message(typ, body)] else sent
    ensures w.messages == old(w.messages)
        + if ok then [Flight.Outgoing(Serialize(WholeMessage(after, |sent|)), w.epoch, false)] else []
  {
    hide Serialize, Parse, IsMessageOf;
    var data := w.FinishMessage(typ, body);
    ghost var s := w.View();
    ok := w.AddOutgoing(data, false, transcriptOk);
    after := sent;
    if ok {
      after := sent + [Message(typ, body)];
      ghost var m := Flight.Outgoing(data, w.epoch, false);
      LastIsMessage(after, m);
      forall x | x in s.messages && !x.isCcs ensures IsMessageOf(after, x) {
        MoreWereSent(sent, Message(typ, body), x);
      }
      assert forall x :: x in w.messages <==> x in s.messages || x == m;
      ParseOfSerialize(WholeMessage(after, |sent|), []);
      assert data + [] == data;
    }
  }

  lemma LastIsMessage(sent: seq<Message>, m: Flight.Outgoing)
    requires sent != [] && Fits(sent, |sent| - 1) && m.data == Serialize(WholeMessage(sent, |sent| - 1))
    ensures IsMessageOf(sent, m)
  {}
}
