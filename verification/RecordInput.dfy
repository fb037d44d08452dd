/**
 Getting records: a datagram is read into the buffer when that is empty, and each call
 takes records off its front, through the header checks, the epoch, the replay window
 and the cipher of the current epoch, until one is handed on.
 */
module RecordInput {
  import opened Common
  import opened Wire
  import opened Receiver
  import opened RecordLayer
  import ReplayWindow
  import Flight

  const BUFFER_CAPACITY: nat := RT_HEADER_LENGTH + MAX_ENCRYPTED_LENGTH

  /** The record layer, what is left of the datagram read last, and the datagrams that
      the transport has waiting. */
  datatype Reading = Reading(conn: Conn, alerts: Alerts, haveVersion: bool, version: nat,
                             buffer: seq<byte>, waiting: seq<seq<byte>>)

  const BEGIN_READING := Reading(RecordLayer.START, NO_ALERTS, false, 0, [], [])

  /** The cipher that opens records of an epoch; epoch 0 is in the clear. */
  function KeysOf(keys: Flight.Cipher, epoch: nat): Flight.Cipher {
    if epoch == 0 then Flight.NULL_CIPHER else keys
  }

  /** The transport cuts a datagram to the size of the buffer. */
  function Received(datagram: seq<byte>): (b: seq<byte>)
    ensures b <= datagram
  {
    datagram[..Min(|datagram|, BUFFER_CAPACITY)]
  }

  /** Opens the first record of the buffer. A bad header drops the rest of the buffer. */
  function OpenOne(keys: Flight.Cipher, rd: Reading): (r: (Reading, Outcome))
    ensures SameButBuffer(rd, r.0)
    ensures rd.buffer != [] ==> |r.0.buffer| < |rd.buffer|
  {
    var p := ParseRecord(rd.buffer);
    if p.None? || !HeaderOk(rd.haveVersion, rd.version, p.value) then (rd.(buffer := []), Discard)
    else
      var plain := KeysOf(keys, rd.conn.epoch).open(BigEndian(p.value.sequence), p.value.typ, p.value.body);
      var (alerts, outcome) := Outcomes(rd.conn, rd.alerts, p.value, plain);
      (rd.(conn := Next(rd.conn, EventOf(p.value, plain)), alerts := alerts,
           buffer := rd.buffer[RT_HEADER_LENGTH + |p.value.body|..]), outcome)
  }

  /** Opening records changes neither epoch nor version nor what is waiting. */
  predicate SameButBuffer(rd: Reading, after: Reading) {
    && after.conn.epoch == rd.conn.epoch && after.waiting == rd.waiting
    && (after.haveVersion, after.version) == (rd.haveVersion, rd.version)
  }

  /** A record handed on, or the return code of a call that has none. */
  datatype Got = Handed(rec: Rec) | Stopped(code: int)

  /** One call for a record. */
  function NextRecord(keys: Flight.Cipher, rd: Reading): (r: (Reading, Got))
    ensures r.0.conn.epoch == rd.conn.epoch && (r.0.haveVersion, r.0.version) == (rd.haveVersion, rd.version)
    ensures r.1.Handed? ==> Shorter(r.0, rd)
    decreases |rd.waiting|, |rd.buffer|
  {
    if rd.alerts.shutdown.FatalAlert? then (rd, Stopped(-1))
    else if rd.alerts.shutdown.CloseNotify? then (rd, Stopped(0))
    else if rd.buffer == [] then
      if rd.waiting == [] then (rd, Stopped(-1))
      else if rd.waiting[0] == [] then (rd.(waiting := rd.waiting[1..]), Stopped(0))
      else NextRecord(keys, rd.(buffer := Received(rd.waiting[0]), waiting := rd.waiting[1..]))
    else
      var (next, outcome) := OpenOne(keys, rd);
      match outcome
      case Discard => NextRecord(keys, next)
      case Success(typ, body) => (next, Handed(Rec(typ, body)))
      case Closed => (next, Stopped(0))
      case _ => (next, Stopped(-1))
  }

  predicate Shorter(after: Reading, rd: Reading) {
    |after.waiting| < |rd.waiting| || (|after.waiting| == |rd.waiting| && |after.buffer| < |rd.buffer|)
  }

  // ----- the reader's own loop -----------------------------------------------

  class PacketReader {
    const records: RecordReader
    var buffer: seq<byte>
    var waiting: seq<seq<byte>>

    function View(): Reading
      reads this, records
    {
      Reading(records.View(), records.alerts, records.haveVersion, records.version, buffer, waiting)
    }

    constructor ()
      ensures fresh(records) && View() == BEGIN_READING
    {
      records := new RecordReader();
      buffer, waiting := [], [];
    }

    /** Reads the next datagram into the empty buffer: 1, or the transport's answer. */
    method NextPacket() returns (ret: int)
      requires buffer == []
      modifies this
      ensures ret <= 0 || (ret == 1 && buffer != [])
      ensures View() == if old(waiting) == [] then old(View())
                        else old(View()).(buffer := Received(old(waiting)[0]), waiting := old(waiting)[1..])
      ensures ret == if old(waiting) == [] then -1 else if old(waiting)[0] == [] then 0 else 1
    {
      if waiting == [] {
        return -1;
      }
      ret := if waiting[0] == [] then 0 else 1;
      buffer, waiting := Received(waiting[0]), waiting[1..];
    }

    /** Takes the first record off the buffer. */
    method OpenFirst(keys: Flight.Cipher) returns (outcome: Outcome)
      requires buffer != []
      modifies this`buffer, records`bits, records`maxSeqNum, records`alerts
      ensures (View(), outcome) == OpenOne(keys, old(View()))
    {
      hide ParseRecord, BigEndian, HeaderOk, Next, Outcomes;
      var p := ParseRecord(buffer);
      var plain := None;
      if p.Some? {
        plain := KeysOf(keys, records.readEpoch).open(BigEndian(p.value.sequence), p.value.typ, p.value.body);
      }
      var consumed;
      outcome, consumed := records.OpenRecord(buffer, plain);
      assert buffer[|buffer|..] == [];
      buffer := buffer[consumed..];
    }

    method GetRecord(keys: Flight.Cipher) returns (got: Got)
      modifies this, records`bits, records`maxSeqNum, records`alerts
      ensures (View(), got) == NextRecord(keys, old(View()))
    {
      hide OpenOne;
      while true
        invariant NextRecord(keys, View()) == NextRecord(keys, old(View()))
        decreases |waiting|, |buffer|
      {
        match records.alerts.shutdown {
          case Running =>
          case FatalAlert => return Stopped(-1);
          case CloseNotify => return Stopped(0);
        }
        if buffer == [] {
          var ret := NextPacket();
          if ret <= 0 {
            return Stopped(ret);
          }
          continue;
        }
        var outcome := OpenFirst(keys);
        match outcome {
          case Discard =>
          case Success(typ, body) => return Handed(Rec(typ, body));
          case Closed => return Stopped(0);
          case Fatal => return Stopped(-1);
          case Error => return Stopped(-1);
        }
      }
    }
  }

  // ----- where a record came from --------------------------------------------

  /** The records laid end to end in some bytes. */
  function Records(bytes: seq<byte>): seq<Parsed>
    decreases |bytes|
  {
    match ParseRecord(bytes)
    case None => []
    case Some(p) => [p] + Records(bytes[RT_HEADER_LENGTH + |p.body|..])
  }

  /** Cutting bytes short leaves out records and adds none. */
  lemma {:induction false} RecordsOfPrefix(bytes: seq<byte>, n: nat)
    requires n <= |bytes|
    ensures forall p :: p in Records(bytes[..n]) ==> p in Records(bytes)
    decreases n
  {
    hide U16;
    var front := bytes[..n];
    if ParseRecord(front).Some? {
      var p := ParseRecord(front).value;
      var k := RT_HEADER_LENGTH + |p.body|;
      SameHeader(bytes, n);
      assert front[k..] == bytes[k..][..n - k];
      RecordsOfPrefix(bytes[k..], n - k);
    }
  }

  lemma SameHeader(bytes: seq<byte>, n: nat)
    requires n <= |bytes| && ParseRecord(bytes[..n]).Some?
    ensures ParseRecord(bytes) == ParseRecord(bytes[..n])
  {
    hide U16;
    var front := bytes[..n];
    assert front[11..13] == bytes[11..13] && front[1..3] == bytes[1..3] && front[3..11] == bytes[3..11];
    var len := U16(front[11..13]);
    assert front[RT_HEADER_LENGTH..RT_HEADER_LENGTH + len] == bytes[RT_HEADER_LENGTH..RT_HEADER_LENGTH + len];
  }

  /** The record handed on is what the cipher of the epoch makes of a record of this
      datagram that is numbered in the epoch. */
  ghost predicate OpenedFrom(keys: Flight.Cipher, epoch: nat, datagram: seq<byte>, r: Rec) {
    exists p :: p in Records(datagram) && OpensTo(keys, epoch, p, r)
  }

  predicate OpensTo(keys: Flight.Cipher, epoch: nat, p: Parsed, r: Rec) {
    && p.typ == r.typ && EpochOf(BigEndian(p.sequence)) == epoch
    && KeysOf(keys, epoch).open(BigEndian(p.sequence), p.typ, p.body) == Some(r.data)
  }

  /** The buffer holds records of one of these datagrams, and each waiting one is one. */
  ghost predicate ReadsFrom(rd: Reading, datagrams: seq<seq<byte>>) {
    && (rd.buffer != [] ==> exists d :: d in datagrams && forall p :: p in Records(rd.buffer) ==> p in Records(d))
    && (forall d :: d in rd.waiting ==> d in datagrams)
  }

  lemma OpenOneReadsFrom(keys: Flight.Cipher, rd: Reading, datagrams: seq<seq<byte>>)
    requires rd.buffer != [] && ReadsFrom(rd, datagrams)
    ensures var (next, outcome) := OpenOne(keys, rd);
            && ReadsFrom(next, datagrams)
            && (outcome.Success? ==>
                  exists d :: d in datagrams && OpenedFrom(keys, rd.conn.epoch, d, Rec(outcome.typ, outcome.body)))
  {
    hide ParseRecord, BigEndian, EpochOf, HeaderOk, KeysOf, Next, ReplayWindow.ShouldDiscard, ProcessAlert;
    var d :| d in datagrams && forall p :: p in Records(rd.buffer) ==> p in Records(d);
    var p := ParseRecord(rd.buffer);
    var (next, outcome) := OpenOne(keys, rd);
    if p.Some? {
      assert Records(rd.buffer) == [p.value] + Records(rd.buffer[RT_HEADER_LENGTH + |p.value.body|..]);
      assert p.value in Records(rd.buffer);
      if outcome.Success? {
        AlertsHandNothingOn(rd.alerts);
        assert OpensTo(keys, rd.conn.epoch, p.value, Rec(outcome.typ, outcome.body));
        assert OpenedFrom(keys, rd.conn.epoch, d, Rec(outcome.typ, outcome.body));
      }
    }
  }

  lemma AlertsHandNothingOn(a: Alerts)
    ensures forall body :: !ProcessAlert(a, body).1.Success?
  {}

  /** Whatever the datagrams hold: a record handed on opened from one of them, under the
      cipher of the current epoch and with a number of that epoch. */
  lemma {:induction false} HandedIsOpened(keys: Flight.Cipher, rd: Reading, datagrams: seq<seq<byte>>)
    requires ReadsFrom(rd, datagrams)
    ensures var (next, got) := NextRecord(keys, rd);
            && ReadsFrom(next, datagrams)
            && (got.Handed? ==> exists d :: d in datagrams && OpenedFrom(keys, rd.conn.epoch, d, got.rec))
    decreases |rd.waiting|, |rd.buffer|
  {
    hide OpenOne, OpenedFrom, Records;
    if rd.alerts.shutdown.Running? {
      if rd.buffer == [] {
        if rd.waiting != [] && rd.waiting[0] != [] {
          var d := rd.waiting[0];
          assert d in datagrams;
          RecordsOfPrefix(d, Min(|d|, BUFFER_CAPACITY));
          HandedIsOpened(keys, rd.(buffer := Received(d), waiting := rd.waiting[1..]), datagrams);
        }
      } else {
        OpenOneReadsFrom(keys, rd, datagrams);
        var (next, outcome) := OpenOne(keys, rd);
        if outcome.Discard? {
          HandedIsOpened(keys, next, datagrams);
        }
      }
    }
  }
}
