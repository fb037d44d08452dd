/**
 What a call for a record passes over, and what it stops at: bad headers, other epochs,
 repeats, records that do not open and a few warnings never end a call.
 */
module RecordsPassed {
  import opened Common
  import opened Wire
  import opened Receiver
  import opened RecordLayer
  import opened RecordInput
  import opened EndToEnd
  import ReplayWindow
  import Flight

  /** The first record of the buffer is incomplete or its header is malformed. */
  predicate BadHeader(rd: Reading) {
    var p := ParseRecord(rd.buffer);
    || p.None?
    || (rd.haveVersion && p.value.version != rd.version)
    || p.value.version / 0x100 != VERSION_MAJOR
    || |p.value.body| > MAX_ENCRYPTED_LENGTH
  }

  function NumberOf(rd: Reading): nat
    requires !BadHeader(rd)
  {
    BigEndian(ParseRecord(rd.buffer).value.sequence)
  }

  /** What the cipher of the current epoch makes of the first record. */
  function Plain(keys: Flight.Cipher, rd: Reading): Option<seq<byte>>
    requires !BadHeader(rd)
  {
    var p := ParseRecord(rd.buffer).value;
    KeysOf(keys, rd.conn.epoch).open(NumberOf(rd), p.typ, p.body)
  }

  function Rest(rd: Reading): seq<byte>
    requires !BadHeader(rd)
  {
    rd.buffer[RT_HEADER_LENGTH + |ParseRecord(rd.buffer).value.body|..]
  }

  /** Of another epoch, repeated, too old, or not authentic. */
  predicate Refused(keys: Flight.Cipher, rd: Reading)
    requires !BadHeader(rd)
  {
    || EpochOf(NumberOf(rd)) != rd.conn.epoch
    || ReplayWindow.ShouldDiscard(rd.conn.window, NumberOf(rd))
    || Plain(keys, rd).None?
  }

  predicate IsAlert(rd: Reading)
    requires !BadHeader(rd)
  {
    ParseRecord(rd.buffer).value.typ == RT_ALERT
  }

  /** A warning that is neither the end of the connection nor one too many in a row. */
  predicate HarmlessAlert(body: seq<byte>, warnings: nat) {
    |body| == 2 && body[0] == AL_WARNING && body[1] != AD_CLOSE_NOTIFY && (warnings + 1) % 0x100 <= 4
  }

  /** The reader with this record's number noted. */
  function Noted(rd: Reading): Reading
    requires !BadHeader(rd)
  {
    rd.(conn := rd.conn.(window := ReplayWindow.Record(rd.conn.window, NumberOf(rd))), buffer := Rest(rd))
  }

  /** One thing a call passes over, and the reader behind it: a datagram is fetched, what
      is left behind a bad header is dropped, a record is refused, a warning is counted. */
  predicate PassedOver(keys: Flight.Cipher, rd: Reading, next: Reading) {
    && rd.alerts.shutdown.Running?
    && if rd.buffer == [] then
         rd.waiting != [] && rd.waiting[0] != []
         && next == rd.(buffer := Received(rd.waiting[0]), waiting := rd.waiting[1..])
       else if BadHeader(rd) then next == rd.(buffer := [])
       else if Refused(keys, rd) then next == rd.(buffer := Rest(rd))
       else
         var body := Plain(keys, rd).value;
         && |body| <= MAX_PLAIN_LENGTH && IsAlert(rd) && HarmlessAlert(body, rd.alerts.warnings)
         && next == Noted(rd).(alerts := rd.alerts.(warnings := (rd.alerts.warnings + 1) % 0x100))
  }

  /** A running reader stops here with this return code: nothing is left to read, an empty
      datagram, a record that opens and is too long, or an alert that ends or fails the
      call. */
  predicate StopsAt(keys: Flight.Cipher, rd: Reading, code: int) {
    && rd.alerts.shutdown.Running?
    && if rd.buffer == [] then
         if rd.waiting == [] then code == -1 else rd.waiting[0] == [] && code == 0
       else if BadHeader(rd) || Refused(keys, rd) then false
       else
         var body := Plain(keys, rd).value;
         if |body| > MAX_PLAIN_LENGTH then code == -1
         else
           && IsAlert(rd) && !HarmlessAlert(body, rd.alerts.warnings)
           && code == if |body| == 2 && body[0] == AL_WARNING && body[1] == AD_CLOSE_NOTIFY then 0 else -1
  }

  /** A record that is none of these: the call hands it on. */
  predicate HandsOn(keys: Flight.Cipher, rd: Reading) {
    && rd.alerts.shutdown.Running? && rd.buffer != [] && !BadHeader(rd) && !Refused(keys, rd)
    && |Plain(keys, rd).value| <= MAX_PLAIN_LENGTH && !IsAlert(rd)
  }

  lemma OneStep(keys: Flight.Cipher, rd: Reading)
    requires rd.alerts.shutdown.Running?
    ensures forall next :: PassedOver(keys, rd, next) ==> NextRecord(keys, rd) == NextRecord(keys, next)
    ensures forall code :: StopsAt(keys, rd, code) ==> NextRecord(keys, rd).1 == Stopped(code)
    ensures HandsOn(keys, rd) ==>
              NextRecord(keys, rd) == (Noted(rd).(alerts := rd.alerts.(warnings := 0)),
                                       Handed(Rec(ParseRecord(rd.buffer).value.typ, Plain(keys, rd).value)))
    ensures (exists next :: PassedOver(keys, rd, next)) || (exists code :: StopsAt(keys, rd, code)) || HandsOn(keys, rd)
  {
    hide ParseRecord, BigEndian, EpochOf, KeysOf, ReplayWindow.ShouldDiscard, ReplayWindow.Record;
    if rd.buffer == [] {
      if rd.waiting == [] {
        assert StopsAt(keys, rd, -1);
      } else if rd.waiting[0] == [] {
        assert StopsAt(keys, rd, 0);
      } else {
        assert PassedOver(keys, rd, rd.(buffer := Received(rd.waiting[0]), waiting := rd.waiting[1..]));
      }
    } else if BadHeader(rd) {
      assert PassedOver(keys, rd, rd.(buffer := []));
    } else if Refused(keys, rd) {
      assert PassedOver(keys, rd, rd.(buffer := Rest(rd)));
    } else if |Plain(keys, rd).value| > MAX_PLAIN_LENGTH {
      assert StopsAt(keys, rd, -1);
    } else if IsAlert(rd) {
      var body := Plain(keys, rd).value;
      if HarmlessAlert(body, rd.alerts.warnings) {
        assert PassedOver(keys, rd,
                          Noted(rd).(alerts := rd.alerts.(warnings := (rd.alerts.warnings + 1) % 0x100)));
      } else {
        assert StopsAt(keys, rd, if |body| == 2 && body[0] == AL_WARNING && body[1] == AD_CLOSE_NOTIFY then 0 else -1);
      }
    }
  }

  // ----- one call ------------------------------------------------------------

  /** From reading to reading, each step passing over one thing. */
  predicate Passes(keys: Flight.Cipher, path: seq<Reading>) {
    path != [] && forall i :: 0 <= i < |path| - 1 ==> PassedOver(keys, path[i], path[i + 1])
  }

  lemma {:induction false} CallGoesOn(keys: Flight.Cipher, path: seq<Reading>)
    requires Passes(keys, path)
    ensures NextRecord(keys, path[0]) == NextRecord(keys, path[|path| - 1])
    decreases |path|
  {
    hide PassedOver, NextRecord;
    if |path| > 1 {
      assert PassedOver(keys, path[0], path[0 + 1]);
      IsRunning(keys, path[0], path[1]);
      OneStep(keys, path[0]);
      var rest := path[1..];
      forall i | 0 <= i < |rest| - 1
        ensures PassedOver(keys, rest[i], rest[i + 1])
      {
        assert PassedOver(keys, path[i + 1], path[i + 1 + 1]);
      }
      CallGoesOn(keys, rest);
    }
  }

  lemma IsRunning(keys: Flight.Cipher, rd: Reading, next: Reading)
    requires PassedOver(keys, rd, next)
    ensures rd.alerts.shutdown.Running? && next.alerts.shutdown.Running?
    ensures |next.waiting| < |rd.waiting| || (|next.waiting| == |rd.waiting| && |next.buffer| < |rd.buffer|)
  {
    hide ParseRecord, BigEndian, EpochOf, KeysOf, ReplayWindow.ShouldDiscard, ReplayWindow.Record;
    if rd.buffer != [] && !BadHeader(rd) {
      assert |Rest(rd)| < |rd.buffer|;
    }
  }

  /** Whatever else stands before it, in whatever datagrams, a record of the sender's that
      is of the current epoch, neither repeated nor too old, of the right version and not
      too long is handed on by the call. */
  lemma GenuineIsHandedOn(keys: Flight.Cipher, s: Flight.Sender, path: seq<Reading>, x: Flight.Sealed, rest: seq<byte>)
    requires Passes(keys, path) && Genuine(s, x) && SharesKeys(keys, s) && s.epoch <= 1
    requires var rd := path[|path| - 1];
             && rd.buffer == x.wire + rest && rd.alerts.shutdown.Running?
             && (rd.haveVersion ==> s.version == rd.version) && s.version / 0x100 == VERSION_MAJOR
             && |x.wire| <= BUFFER_CAPACITY && |RecOf(x.piece).data| <= MAX_PLAIN_LENGTH
             && !Drops(rd.conn, x.number)
    ensures var rd := path[|path| - 1];
            NextRecord(keys, path[0])
            == (rd.(conn := rd.conn.(window := ReplayWindow.Record(rd.conn.window, x.number)),
                    alerts := rd.alerts.(warnings := 0), buffer := rest), Handed(RecOf(x.piece)))
  {
    hide OpenOne, PassedOver, Genuine, ReplayWindow.ShouldDiscard, ReplayWindow.Record;
    CallGoesOn(keys, path);
    var rd := path[|path| - 1];
    GenuineIsAcceptedExactly(keys, s, rd, x, rest);
    GenuineIsNotEmpty(s, x);
  }

  lemma GenuineIsNotEmpty(s: Flight.Sender, x: Flight.Sealed)
    requires Genuine(s, x)
    ensures x.wire != []
  {
    hide Flight.Payload, Flight.RecordBytes;
    var body :| IsRecordOf(s, x, body);
  }

  /** A running reader's call ends at the first thing that is not passed over. */
  lemma {:induction false} CallEnds(keys: Flight.Cipher, rd: Reading) returns (path: seq<Reading>)
    requires rd.alerts.shutdown.Running?
    ensures Passes(keys, path) && path[0] == rd
    ensures var last := path[|path| - 1];
            last.alerts.shutdown.Running? && (HandsOn(keys, last) || exists code :: StopsAt(keys, last, code))
    decreases |rd.waiting|, |rd.buffer|
  {
    hide PassedOver, StopsAt, HandsOn, NextRecord;
    OneStep(keys, rd);
    if next :| PassedOver(keys, rd, next) {
      IsRunning(keys, rd, next);
      var more := CallEnds(keys, next);
      path := [rd] + more;
      forall i | 0 <= i < |path| - 1
        ensures PassedOver(keys, path[i], path[i + 1])
      {
        if i > 0 {
          assert PassedOver(keys, more[i - 1], more[i - 1 + 1]);
        }
      }
      assert path[|path| - 1] == more[|more| - 1];
    } else {
      path := [rd];
    }
  }

  /** The return code of a running reader's call: a call stops without a record if and
      only if, behind what it passes over, nothing is left to read, an empty datagram
      comes, a record opens and is too long, or an alert ends or fails the call. */
  lemma StopsExactly(keys: Flight.Cipher, rd: Reading, code: int)
    requires rd.alerts.shutdown.Running?
    ensures NextRecord(keys, rd).1 == Stopped(code) <==>
              exists path :: Passes(keys, path) && path[0] == rd && StopsAt(keys, path[|path| - 1], code)
  {
    hide PassedOver, StopsAt, HandsOn, NextRecord;
    if NextRecord(keys, rd).1 == Stopped(code) {
      var path := CallEnds(keys, rd);
      CallGoesOn(keys, path);
      OneStep(keys, path[|path| - 1]);
      var c :| StopsAt(keys, path[|path| - 1], c);
      assert StopsAt(keys, path[|path| - 1], code);
    }
    if path :| Passes(keys, path) && path[0] == rd && StopsAt(keys, path[|path| - 1], code) {
      CallGoesOn(keys, path);
      StopIsRunning(keys, path[|path| - 1], code);
      OneStep(keys, path[|path| - 1]);
    }
  }

  lemma StopIsRunning(keys: Flight.Cipher, rd: Reading, code: int)
    requires StopsAt(keys, rd, code)
    ensures rd.alerts.shutdown.Running?
  {}

  // ----- the end of the connection -------------------------------------------

  /** What a record that ends a call makes of the connection: only an alert of two bytes
      ends it, a close_notify warning in peace and a fatal one in failure. */
  predicate EndsAs(keys: Flight.Cipher, rd: Reading, shutdown: Shutdown)
    requires rd.buffer != [] && !BadHeader(rd) && !Refused(keys, rd)
  {
    var body := Plain(keys, rd).value;
    if |body| == 2 && IsAlert(rd) && body[0] == AL_WARNING && body[1] == AD_CLOSE_NOTIFY then shutdown == CloseNotify
    else if |body| == 2 && IsAlert(rd) && body[0] == AL_FATAL then shutdown == FatalAlert
    else shutdown == Running
  }

  lemma ShutdownExactly(keys: Flight.Cipher, path: seq<Reading>, code: int)
    requires Passes(keys, path) && StopsAt(keys, path[|path| - 1], code)
    ensures var last, after := path[|path| - 1], NextRecord(keys, path[0]).0;
            if last.buffer == [] then after.alerts.shutdown.Running?
            else !BadHeader(last) && !Refused(keys, last) && EndsAs(keys, last, after.alerts.shutdown)
  {
    hide PassedOver, ParseRecord, BigEndian, EpochOf, KeysOf, ReplayWindow.ShouldDiscard, ReplayWindow.Record;
    CallGoesOn(keys, path);
  }

  /** Once ended, the connection stays so: whatever datagrams come, every call says again
      how it ended, and reads nothing. */
  lemma EndedForGood(keys: Flight.Cipher, rd: Reading, more: seq<seq<byte>>)
    requires !rd.alerts.shutdown.Running?
    ensures var later := rd.(waiting := rd.waiting + more);
            NextRecord(keys, later) == (later, Stopped(if rd.alerts.shutdown.CloseNotify? then 0 else -1))
  {}
}
