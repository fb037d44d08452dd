/**
 Receiving DTLS handshake messages: a ring of seven partly received messages,
 filled fragment by fragment from records and emptied in sequence order.
 This module gives the steps as functions on values.
 */
module Receiver {
  import opened Common
  import opened Wire
  import opened HandshakeWire
  import opened Reassembly

  const SEQ_LIMIT: nat := 0x1_0000

  /** An opened record. An empty `data` is how the code says "no record pending". */
  datatype Rec = Rec(typ: byte, data: seq<byte>)

  /** Parts of the connection that steer the receiver: read epoch, whether a read
      cipher is installed, and the largest message the state machine allows. */
  datatype Config = Config(epoch: nat, encrypted: bool, maxLen: nat)

  datatype State = State(readSeq: nat, slots: seq<Option<Slot>>, hasCurrent: bool, record: Rec)
  {
    ghost predicate WellFormed() {
      readSeq < SEQ_LIMIT && |slots| == MAX_FLIGHT
    }

    function Current(): Option<Slot>
      requires |slots| == MAX_FLIGHT
    {
      slots[readSeq % MAX_FLIGHT]
    }

    ghost predicate CurrentComplete()
      requires |slots| == MAX_FLIGHT
    {
      Current().Some? && Current().value.Complete()
    }
  }

  const START := State(0, seq(MAX_FLIGHT, _ => None), false, Rec(0, []))

  datatype Return = Done | Blocked | Failed

  // ----- one fragment --------------------------------------------------------

  predicate Malformed(cfg: Config, f: Fragment) {
    f.offset > f.msgLen || f.offset + |f.body| > f.msgLen || f.msgLen > cfg.maxLen
  }

  function NewSlot(f: Fragment): (s: Slot)
    ensures |s.body| == f.msgLen
  {
    Slot(f.typ, f.seqNo, seq(f.msgLen, _ => 0), {})
  }

  /** A complete message ignores further fragments. */
  ghost function Absorb(s: Slot, f: Fragment): Slot
    requires f.offset + |f.body| <= |s.body|
  {
    if s.Complete() then s else Patch(s, f.offset, f.body)
  }

  /** Fragments change neither the read position nor the pending record. */
  predicate SamePosition(st: State, after: State) {
    after.readSeq == st.readSeq && after.hasCurrent == st.hasCurrent && after.record == st.record
  }

  predicate Ignored(st: State, f: Fragment) {
    f.seqNo < st.readSeq || f.seqNo > st.readSeq + MAX_FLIGHT
  }

  /** The slot the fragment belongs to, made on demand; None when it is refused. */
  ghost function SlotFor(st: State, f: Fragment): (r: Option<Slot>)
    requires st.WellFormed()
    ensures r.Some? ==> 0 <= f.seqNo - st.readSeq < MAX_FLIGHT && |r.value.body| == f.msgLen
  {
    if f.seqNo < st.readSeq || f.seqNo - st.readSeq >= MAX_FLIGHT then None
    else
      match st.slots[f.seqNo % MAX_FLIGHT]
      case None => Some(NewSlot(f))
      case Some(s) => if s.typ != f.typ || |s.body| != f.msgLen then None else Some(s)
  }

  /** The state after one fragment; None when the call must fail on it. */
  ghost function TakeFragment(cfg: Config, st: State, f: Fragment): (r: Option<State>)
    requires st.WellFormed()
    ensures r.Some? ==> r.value.WellFormed() && SamePosition(st, r.value)
  {
    if Malformed(cfg, f) then None
    else if cfg.epoch == 1 && f.seqNo != st.readSeq then None
    else if Ignored(st, f) then Some(st)
    else
      match SlotFor(st, f)
      case None => None
      case Some(s) => Some(st.(slots := st.slots[f.seqNo % MAX_FLIGHT := Some(Absorb(s, f))]))
  }

  // ----- one record ----------------------------------------------------------

  /** Takes the fragments of a payload in turn; false when it stops at a bad one. */
  ghost function Feed(cfg: Config, st: State, payload: seq<byte>): (r: (State, bool))
    requires st.WellFormed()
    ensures r.0.WellFormed() && SamePosition(st, r.0)
    decreases |payload|
  {
    if payload == [] then (st, true)
    else
      match Parse(payload)
      case None => (st, false)
      case Some((f, rest)) =>
        var next := TakeFragment(cfg, st, f);
        if next.None? then (st, false) else Feed(cfg, next.value, rest)
  }

  predicate OutOfOrder(cfg: Config, typ: byte) {
    (typ == RT_APPLICATION_DATA && cfg.encrypted) || (typ == RT_CHANGE_CIPHER_SPEC && !cfg.encrypted)
  }

  /** Processes one handshake record, fetching records from `inbox` as needed. */
  ghost function ProcessRecord(cfg: Config, st: State, inbox: seq<Rec>): (r: (State, seq<Rec>, Return))
    requires st.WellFormed()
    ensures r.0.WellFormed() && r.0.readSeq == st.readSeq && r.0.hasCurrent == st.hasCurrent
    ensures r.2.Done? ==> Pending(r.0, r.1) < Pending(st, inbox)
    decreases Pending(st, inbox)
  {
    if st.record.data == [] && inbox == [] then (st, inbox, Blocked)
    else
      var rec := if st.record.data == [] then inbox[0] else st.record;
      var rest := if st.record.data == [] then inbox[1..] else inbox;
      if OutOfOrder(cfg, rec.typ) then
        ProcessRecord(cfg, st.(record := rec.(data := [])), rest)
      else if rec.typ != RT_HANDSHAKE then (st.(record := rec), rest, Failed)
      else
        var (fed, ok) := Feed(cfg, st.(record := rec), rec.data);
        if ok then (fed.(record := fed.record.(data := [])), rest, Done)
        else (fed, rest, Failed)
  }

  /** How many records are still to be processed. */
  function Pending(st: State, inbox: seq<Rec>): nat {
    |inbox| + if st.record.data == [] then 0 else 1
  }

  // ----- one call for a message ----------------------------------------------

  function Release(st: State): (r: State)
    requires st.readSeq < SEQ_LIMIT && |st.slots| == MAX_FLIGHT
  {
    st.(slots := st.slots[st.readSeq % MAX_FLIGHT := None],
        readSeq := (st.readSeq + 1) % SEQ_LIMIT,
        hasCurrent := false)
  }

  /** Nothing is buffered beyond the current message. */
  ghost predicate Quiet(st: State)
    requires st.WellFormed()
  {
    forall i :: 0 <= i < MAX_FLIGHT && st.slots[i].Some? ==> st.hasCurrent && i == st.readSeq % MAX_FLIGHT
  }

  ghost function Await(cfg: Config, st: State, inbox: seq<Rec>): (r: (State, seq<Rec>, Return))
    requires st.WellFormed()
    ensures r.0.WellFormed() && r.0.readSeq == st.readSeq
    ensures r.2.Done? ==> r.0.hasCurrent && r.0.CurrentComplete()
    ensures !r.2.Done? ==> r.0.hasCurrent == st.hasCurrent
    decreases Pending(st, inbox)
  {
    if st.CurrentComplete() then (st.(hasCurrent := true), inbox, Done)
    else
      var (next, rest, ret) := ProcessRecord(cfg, st, inbox);
      if ret.Done? then Await(cfg, next, rest) else (next, rest, ret)
  }

  /** Asks for the next message, or for the current one again when `reuse` is set. */
  ghost function GetMessage(cfg: Config, st: State, inbox: seq<Rec>, reuse: bool): (r: (State, seq<Rec>, Return))
    requires st.WellFormed()
    ensures r.0.WellFormed()
    ensures r.2.Done? ==> r.0.hasCurrent && r.0.CurrentComplete()
  {
    Await(cfg, if !reuse && st.hasCurrent then Release(st) else st, inbox)
  }
}
