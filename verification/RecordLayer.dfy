/**
 Opening DTLS records: the read epoch and the replay window over a whole
 connection. The AEAD itself is a parameter of every call: what it made of the
 record body, or None when it refused it.
 */
module RecordLayer {
  import opened Common
  import opened Wire
  import opened ReplayWindow

  const MAX_ENCRYPTED_LENGTH: nat := 256 + 64 + 16384
  const VERSION_MAJOR: nat := 0xfe
  const EPOCH_UNIT: nat := 0x1_0000_0000_0000
  const EPOCHS: nat := 0x1_0000

  // ----- the connection as a value -------------------------------------------

  datatype Conn = Conn(epoch: nat, window: Window)

  const START := Conn(0, FRESH)

  function EpochOf(n: nat): nat {
    n / EPOCH_UNIT
  }

  /** Events at the record layer. `number` is the eight-byte header field. */
  datatype Event =
    | Arrival(number: nat, authentic: bool, fits: bool)
    | CipherChange(buffered: bool)

  predicate Drops(c: Conn, number: nat) {
    EpochOf(number) != c.epoch || ShouldDiscard(c.window, number)
  }

  predicate Accepts(c: Conn, e: Event) {
    e.Arrival? && !Drops(c, e.number) && e.authentic && e.fits
  }

  predicate ChangesEpoch(e: Event) {
    e.CipherChange? && !e.buffered
  }

  function Next(c: Conn, e: Event): Conn {
    if Accepts(c, e) then c.(window := Record(c.window, e.number))
    else if ChangesEpoch(e) then Conn((c.epoch + 1) % EPOCHS, FRESH)
    else c
  }

  function Run(c: Conn, es: seq<Event>): Conn
    decreases |es|
  {
    if es == [] then c else Run(Next(c, es[0]), es[1..])
  }

  /** The record numbers accepted over a run, in order. */
  function Accepted(c: Conn, es: seq<Event>): seq<nat>
    decreases |es|
  {
    if es == [] then []
    else (if Accepts(c, es[0]) then [es[0].number] else []) + Accepted(Next(c, es[0]), es[1..])
  }

  function EpochChanges(es: seq<Event>): nat {
    if es == [] then 0
    else (if ChangesEpoch(es[0]) then 1 else 0) + EpochChanges(es[1..])
  }

  // ----- safety over whole runs ----------------------------------------------

  ghost predicate NoRepeats(log: seq<nat>) {
    forall i, j :: 0 <= i < j < |log| ==> log[i] != log[j]
  }

  ghost function OfEpoch(log: seq<nat>, epoch: nat): set<nat> {
    set n | n in log && EpochOf(n) == epoch
  }

  ghost predicate Sound(c: Conn, log: seq<nat>) {
    && NoRepeats(log)
    && (forall n :: n in log ==> EpochOf(n) <= c.epoch)
    && Represents(c.window, OfEpoch(log, c.epoch))
  }

  lemma NextIsSound(c: Conn, log: seq<nat>, e: Event)
    requires Sound(c, log)
    requires ChangesEpoch(e) ==> c.epoch + 1 < EPOCHS
    ensures Sound(Next(c, e), log + if Accepts(c, e) then [e.number] else [])
  {
    hide Represents, Record, ShouldDiscard, EpochOf;
    var seen := OfEpoch(log, c.epoch);
    if Accepts(c, e) {
      DiscardsExactly(c.window, seen, e.number);
      RecordRepresents(c.window, seen, e.number);
      assert OfEpoch(log + [e.number], c.epoch) == seen + {e.number};
    } else {
      assert log + [] == log;
      if ChangesEpoch(e) {
        FreshRepresentsNothing();
        assert OfEpoch(log, c.epoch + 1) == {};
      }
    }
  }

  lemma {:induction false} RunIsSound(c: Conn, log: seq<nat>, es: seq<Event>)
    requires Sound(c, log)
    requires c.epoch + EpochChanges(es) < EPOCHS
    ensures Sound(Run(c, es), log + Accepted(c, es))
    decreases |es|
  {
    hide Sound;
    if es == [] {
      assert log + Accepted(c, es) == log;
    } else {
      var now := if Accepts(c, es[0]) then [es[0].number] else [];
      NextIsSound(c, log, es[0]);
      RunIsSound(Next(c, es[0]), log + now, es[1..]);
      assert log + Accepted(c, es) == log + now + Accepted(Next(c, es[0]), es[1..]);
    }
  }

  lemma StartIsSound()
    ensures Sound(START, [])
  {
    FreshRepresentsNothing();
    assert OfEpoch([], 0) == {};
  }

  /** No record number, hence no (epoch, sequence) pair, is accepted twice. */
  lemma AcceptedAtMostOnce(es: seq<Event>)
    requires EpochChanges(es) < EPOCHS
    ensures NoRepeats(Accepted(START, es))
  {
    StartIsSound();
    RunIsSound(START, [], es);
    assert [] + Accepted(START, es) == Accepted(START, es);
  }

  /** After any run, exactly the repeated and the too old are refused. */
  lemma DropsExactly(es: seq<Event>, n: nat)
    requires EpochChanges(es) < EPOCHS
    ensures var c := Run(START, es);
            var seen := OfEpoch(Accepted(START, es), c.epoch);
            Drops(c, n) <==> EpochOf(n) != c.epoch || n in seen || FallenBehind(seen, n)
  {
    hide Represents, ShouldDiscard, EpochOf;
    StartIsSound();
    RunIsSound(START, [], es);
    assert [] + Accepted(START, es) == Accepted(START, es);
    var c := Run(START, es);
    DiscardsExactly(c.window, OfEpoch(Accepted(START, es), c.epoch), n);
  }

  // ----- record headers ------------------------------------------------------

  function BigEndian(b: seq<byte>): (n: nat) {
    if b == [] then 0 else BigEndian(b[..|b| - 1]) * 0x100 + b[|b| - 1]
  }

  datatype Parsed = Parsed(typ: byte, version: nat, sequence: seq<byte>, body: seq<byte>)

  /** The header fields of the first record of a packet, when it is complete. */
  function ParseRecord(packet: seq<byte>): (r: Option<Parsed>)
    ensures r.Some? ==> RT_HEADER_LENGTH + |r.value.body| <= |packet| && |r.value.sequence| == 8
  {
    if |packet| < RT_HEADER_LENGTH then None
    else
      var len := U16(packet[11..13]);
      if |packet| < RT_HEADER_LENGTH + len then None
      else Some(Parsed(packet[0], U16(packet[1..3]), packet[3..11],
                       packet[RT_HEADER_LENGTH..RT_HEADER_LENGTH + len]))
  }

  lemma BigEndianStep(b: seq<byte>, k: nat)
    requires k < |b|
    ensures BigEndian(b[..k + 1]) == BigEndian(b[..k]) * 0x100 + b[k]
  {
    assert b[..k + 1][..k] == b[..k];
  }

  lemma BigEndianWord(b: seq<byte>, k: nat)
    requires k + 2 <= |b|
    ensures BigEndian(b[..k + 2]) == BigEndian(b[..k]) * 0x1_0000 + U16(b[k..k + 2])
  {
    hide BigEndian;
    BigEndianStep(b, k);
    BigEndianStep(b, k + 1);
  }

  lemma TopWord(w0: nat, w1: nat, w2: nat, w3: nat)
    requires w0 < 0x1_0000 && w1 < 0x1_0000 && w2 < 0x1_0000 && w3 < 0x1_0000
    ensures var n := ((w0 * 0x1_0000 + w1) * 0x1_0000 + w2) * 0x1_0000 + w3;
            n < EPOCHS * EPOCH_UNIT && EpochOf(n) == w0
  {}

  /** The epoch read from the first two bytes is the top of the whole number. */
  lemma EpochIsTopOfNumber(b: seq<byte>)
    requires |b| == 8
    ensures BigEndian(b) < EPOCHS * EPOCH_UNIT
    ensures U16(b[..2]) == EpochOf(BigEndian(b))
  {
    hide BigEndian, U16, EpochOf;
    BigEndianOfNothing();
    BigEndianWord(b, 0);
    BigEndianWord(b, 2);
    BigEndianWord(b, 4);
    BigEndianWord(b, 6);
    TopWord(U16(b[0..2]), U16(b[2..4]), U16(b[4..6]), U16(b[6..8]));
    assert b[..0] == [] && b[..8] == b;
  }

  lemma BigEndianOfNothing()
    ensures BigEndian([]) == 0
  {}

  // ----- alerts --------------------------------------------------------------

  const AL_WARNING: byte := 1
  const AL_FATAL: byte := 2
  const AD_CLOSE_NOTIFY: byte := 0
  const MAX_WARNING_ALERTS: nat := 4

  datatype Shutdown = Running | CloseNotify | FatalAlert

  /** Warnings in a row, an 8-bit count, and whether the peer has ended the connection. */
  datatype Alerts = Alerts(warnings: nat, shutdown: Shutdown)

  const NO_ALERTS := Alerts(0, Running)

  function ProcessAlert(a: Alerts, body: seq<byte>): (Alerts, Outcome) {
    if |body| != 2 then (a, Error)
    else if body[0] == AL_WARNING then
      if body[1] == AD_CLOSE_NOTIFY then (a.(shutdown := CloseNotify), Closed)
      else
        var warnings := (a.warnings + 1) % 0x100;
        (a.(warnings := warnings), if warnings > MAX_WARNING_ALERTS then Error else Discard)
    else if body[0] == AL_FATAL then (a.(shutdown := FatalAlert), Fatal)
    else (a, Error)
  }

  // ----- the reader, updated in place ----------------------------------------

  /** What opening a record comes to. */
  datatype Outcome = Discard | Error | Closed | Fatal | Success(typ: byte, body: seq<byte>)

  /** The event a record amounts to, once the AEAD has been tried on its body. */
  function EventOf(p: Parsed, plain: Option<seq<byte>>): Event
    requires |p.sequence| == 8
  {
    Arrival(BigEndian(p.sequence), plain.Some?,
            plain.Some? && |plain.value| <= MAX_PLAIN_LENGTH)
  }

  /** The header checks: the negotiated version if there is one, DTLS, and the length. */
  predicate HeaderOk(haveVersion: bool, version: nat, p: Parsed) {
    && (haveVersion ==> p.version == version)
    && p.version / 0x100 == VERSION_MAJOR
    && |p.body| <= MAX_ENCRYPTED_LENGTH
  }

  /** What a record with a good header comes to, and what it leaves of the alerts: only an
      accepted one is looked into, and one that opens but is too long is an error. */
  function Outcomes(c: Conn, a: Alerts, p: Parsed, plain: Option<seq<byte>>): (Alerts, Outcome)
    requires |p.sequence| == 8
  {
    var e := EventOf(p, plain);
    if !Accepts(c, e) then (a, if !Drops(c, e.number) && e.authentic then Error else Discard)
    else if p.typ == RT_ALERT then ProcessAlert(a, plain.value)
    else (a.(warnings := 0), Success(p.typ, plain.value))
  }

  class RecordReader {
    var readEpoch: nat
    var bits: bv64
    var maxSeqNum: nat
    var haveVersion: bool
    var version: nat
    var alerts: Alerts

    function View(): Conn
      reads this
    {
      Conn(readEpoch, Window(bits, maxSeqNum))
    }

    constructor ()
      ensures View() == START && !haveVersion && version == 0 && alerts == NO_ALERTS
    {
      readEpoch, bits, maxSeqNum, haveVersion, version, alerts := 0, 0, 0, false, 0, NO_ALERTS;
    }

    predicate WellFormed(p: Parsed)
      reads this
    {
      HeaderOk(haveVersion, version, p)
    }

    static method ToU64Be(b: seq<byte>) returns (n: nat)
      requires |b| == 8
      ensures n == BigEndian(b)
    {
      hide BigEndian;
      n := 0;
      BigEndianOfNothing();
      assert b[..0] == [];
      for i := 0 to 8
        invariant n == BigEndian(b[..i])
      {
        BigEndianStep(b, i);
        n := n * 0x100 + b[i];
      }
      assert b[..8] == b;
    }

    method BitmapShouldDiscard(n: nat) returns (discard: bool)
      ensures discard == ShouldDiscard(View().window, n)
    {
      if n > maxSeqNum {
        return false;
      }
      var idx := maxSeqNum - n;
      discard := idx >= WINDOW_SIZE || Bit(bits, idx);
    }

    method BitmapRecord(n: nat)
      modifies `bits, `maxSeqNum
      ensures View() == old(View()).(window := Record(old(View()).window, n))
    {
      hide Shl, SetAt, Amount;
      if n > maxSeqNum {
        var shift := n - maxSeqNum;
        if shift >= WINDOW_SIZE {
          bits := 0;
        } else {
          bits := Shl(bits, Amount(shift));
        }
        maxSeqNum := n;
      }
      var idx := maxSeqNum - n;
      if idx < WINDOW_SIZE {
        bits := SetAt(bits, Amount(idx));
      }
    }

    /** Opens the first record of a packet; `consumed` bytes of it are done with. */
    method OpenRecord(packet: seq<byte>, plain: Option<seq<byte>>)
      returns (outcome: Outcome, consumed: nat)
      modifies `bits, `maxSeqNum, `alerts
      ensures consumed <= |packet| && (packet != [] ==> consumed > 0)
      ensures var p := ParseRecord(packet);
              if p.Some? && old(WellFormed(p.value)) then
                var e := EventOf(p.value, plain);
                && consumed == RT_HEADER_LENGTH + |p.value.body|
                && View() == Next(old(View()), e)
                && (alerts, outcome) == Outcomes(old(View()), old(alerts), p.value, plain)
              else
                (outcome, consumed) == (Discard, |packet|) && View() == old(View()) && alerts == old(alerts)
    {
      hide ShouldDiscard, Record, BigEndian, EpochOf, U16;
      var parsed := ParseRecord(packet);
      if parsed.None? || !WellFormed(parsed.value) {
        return Discard, |packet|;
      }
      var p := parsed.value;
      consumed := RT_HEADER_LENGTH + |p.body|;
      EpochIsTopOfNumber(p.sequence);
      var epoch := U16(p.sequence[..2]);
      var n := ToU64Be(p.sequence);
      var stale := BitmapShouldDiscard(n);
      if epoch != readEpoch || stale {
        return Discard, consumed;
      }
      if plain.None? {
        return Discard, consumed;
      }
      if |plain.value| > MAX_PLAIN_LENGTH {
        return Error, consumed;
      }
      BitmapRecord(n);
      if p.typ == RT_ALERT {
        var (a, o) := ProcessAlert(alerts, plain.value);
        alerts, outcome := a, o;
        return;
      }
      alerts := alerts.(warnings := 0);
      outcome := Success(p.typ, plain.value);
    }

    /** Installs the next read cipher, unless handshake messages are buffered. */
    method SetReadState(hasIncomingMessages: bool) returns (ok: bool)
      modifies `readEpoch, `bits, `maxSeqNum
      ensures ok == !hasIncomingMessages
      ensures View() == Next(old(View()), CipherChange(hasIncomingMessages))
    {
      if hasIncomingMessages {
        return false;
      }
      readEpoch := (readEpoch + 1) % EPOCHS;
      bits, maxSeqNum := 0, 0;
      ok := true;
    }
  }
}
