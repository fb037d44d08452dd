/**
 The receiver as the C code keeps it: a ring of seven pointers to messages under
 reassembly, updated in place. Every method computes the step of module Receiver.
 */
module HandshakeReader {
  import opened Common
  import opened Wire
  import opened HandshakeWire
  import opened Reassembly
  import opened Receiver
  import opened Delivery

  /** A pointer in the ring holds the message the model has in that slot. */
  ghost predicate Matches(frag: HmFragment?, slot: Option<Slot>)
    reads if frag == null then {} else {frag}, if frag == null then {} else frag.Footprint()
  {
    if frag == null then slot.None? else frag.Valid() && slot == Some(frag.View())
  }

  lemma OccupantHasSeq(st: State, f: Fragment)
    requires Ring(st) && st.readSeq <= f.seqNo < st.readSeq + MAX_FLIGHT
    requires st.slots[f.seqNo % MAX_FLIGHT].Some?
    ensures st.slots[f.seqNo % MAX_FLIGHT].value.seqNo == f.seqNo
  {
    assert InPlace(st.slots[f.seqNo % MAX_FLIGHT].value, f.seqNo % MAX_FLIGHT, st.readSeq);
  }

  class Reader {
    var readSeq: nat
    const incoming: array<HmFragment?>
    var hasCurrent: bool
    var record: Rec
    var inbox: seq<Rec>
    ghost var slots: seq<Option<Slot>>
    ghost var Repr: set<object>

    ghost predicate Valid()
      reads this, Repr
      ensures Valid() ==> this in Repr && incoming in Repr && incoming.Length == MAX_FLIGHT && View().WellFormed()
    {
      && this in Repr && incoming in Repr
      && incoming.Length == MAX_FLIGHT == |slots|
      && readSeq < SEQ_LIMIT
      && (forall i :: 0 <= i < MAX_FLIGHT && incoming[i] != null ==>
            incoming[i] in Repr && incoming[i].Footprint() <= Repr - {this, incoming})
      && (forall i, j :: 0 <= i < j < MAX_FLIGHT && incoming[i] != null && incoming[j] != null ==>
            incoming[i].Footprint() !! incoming[j].Footprint())
      && (forall i :: 0 <= i < MAX_FLIGHT ==> Matches(incoming[i], slots[i]))
    }

    ghost function View(): State
      reads this
    {
      State(readSeq, slots, hasCurrent, record)
    }

    constructor ()
      ensures Valid() && fresh(Repr)
      ensures View() == START && inbox == []
    {
      readSeq, hasCurrent, record, inbox := 0, false, Rec(0, []), [];
      incoming := new HmFragment?[MAX_FLIGHT](_ => null);
      slots := START.slots;
      new;
      Repr := {this, incoming};
    }

    /** Puts a fresh message into an empty slot. */
    method Insert(f: Fragment, idx: nat) returns (frag: HmFragment)
      requires Valid() && f.FitsHeader() && idx < MAX_FLIGHT && incoming[idx] == null
      modifies this, incoming
      ensures Valid() && fresh(Repr - old(Repr))
      ensures frag == incoming[idx] && inbox == old(inbox)
      ensures View() == old(View()).(slots := old(slots)[idx := Some(NewSlot(f))])
    {
      hide HmFragment.View, HmFragment.Valid;
      frag := new HmFragment(f.typ, f.seqNo, f.msgLen);
      incoming[idx] := frag;
      slots := slots[idx := Some(NewSlot(f))];
      Repr := Repr + frag.Footprint();
    }

    /** The slot a fragment belongs to, created on its first fragment. */
    method GetIncomingMessage(f: Fragment) returns (frag: HmFragment?)
      requires Valid() && Ring(View()) && f.FitsHeader()
      modifies this, incoming
      ensures Valid() && fresh(Repr - old(Repr))
      ensures inbox == old(inbox)
      ensures frag == null <==> SlotFor(old(View()), f).None?
      ensures frag == null ==> View() == old(View())
      ensures frag != null ==> frag == incoming[f.seqNo % MAX_FLIGHT]
      ensures frag != null ==> View() == old(View()).(slots :=
                old(slots)[f.seqNo % MAX_FLIGHT := SlotFor(old(View()), f)])
    {
      if f.seqNo < readSeq || f.seqNo - readSeq >= MAX_FLIGHT {
        return null;
      }
      var idx := f.seqNo % MAX_FLIGHT;
      frag := incoming[idx];
      assert Matches(frag, slots[idx]);
      if frag == null {
        frag := Insert(f, idx);
        return;
      }
      OccupantHasSeq(View(), f);
      assert frag.seqNo == f.seqNo;
      SlotLength(frag);
      if frag.typ != f.typ || frag.msgLen != f.msgLen {
        return null;
      }
    }

    method AcceptIntoSlot(idx: nat, offset: nat, bytes: seq<byte>)
      requires Valid() && idx < MAX_FLIGHT && incoming[idx] != null
      requires slots[idx].Some? && offset + |bytes| <= |slots[idx].value.body| == incoming[idx].msgLen
      requires incoming[idx].reassembly != null
      requires !EmptyAtFullEnd(incoming[idx].msgLen, offset, offset + |bytes|)
      modifies `slots, incoming[idx].Footprint()
      ensures Valid()
      ensures View() == old(View()).(slots := old(slots)[idx := Some(Patch(old(slots)[idx].value, offset, bytes))])
    {
      hide HmFragment.View, HmFragment.Valid, Patch;
      var frag := incoming[idx];
      assert Matches(frag, slots[idx]);
      frag.Accept(offset, bytes);
      assert frag.Footprint() <= old(frag.Footprint());
      assert forall i :: 0 <= i < MAX_FLIGHT && i != idx ==> Matches(incoming[i], slots[i]);
      slots := slots[idx := Some(Patch(slots[idx].value, offset, bytes))];
      assert Matches(frag, slots[idx]);
    }

    /** Copies the fragment into the message in slot idx, unless that is complete. The
        code has no test for the empty fragment at the end of a full last bitmap byte and
        touches the byte behind the bitmap; here the bitmap is left alone, and the result
        says whether the code stays within it. */
    method AbsorbFragment(f: Fragment, idx: nat) returns (inBitmap: bool)
      requires Valid() && idx < MAX_FLIGHT && incoming[idx] != null
      requires incoming[idx].msgLen == f.msgLen && f.offset + |f.body| <= f.msgLen
      modifies Repr
      ensures Valid() && Repr == old(Repr) && inbox == old(inbox)
      ensures old(slots)[idx].Some? && f.offset + |f.body| <= |old(slots)[idx].value.body|
      ensures inBitmap <==> old(slots)[idx].value.Complete() || !EmptyAtFullEnd(f.msgLen, f.offset, f.offset + |f.body|)
      ensures View() == old(View()).(slots := old(slots)[idx := Some(Absorb(old(slots)[idx].value, f))])
    {
      hide HmFragment.View, HmFragment.Valid, Patch, Slot.Complete;
      var frag := incoming[idx];
      ghost var s := frag.View();
      assert Matches(frag, slots[idx]);
      SlotLength(frag);
      frag.CompleteMeansNoBitmap();
      if frag.reassembly == null {
        return true;
      }
      inBitmap := f.offset != f.msgLen || f.msgLen % 8 != 0;
      if inBitmap {
        AcceptIntoSlot(idx, f.offset, f.body);
      } else {
        PatchNothing(s, f.offset);
        assert f.body == [] && slots == slots[idx := Some(s)];
      }
    }

    /** One turn of the loop over a record's fragments. */
    method TakeOne(cfg: Config, f: Fragment) returns (ok: bool)
      requires Valid() && Ring(View()) && f.FitsHeader()
      modifies Repr
      ensures Valid() && fresh(Repr - old(Repr)) && inbox == old(inbox)
      ensures ok <==> TakeFragment(cfg, old(View()), f).Some?
      ensures View() == if ok then TakeFragment(cfg, old(View()), f).value else old(View())
    {
      hide Absorb, Ring, HmFragment.View, HmFragment.Valid;
      if Malformed(cfg, f) {
        return false;
      }
      if cfg.epoch == 1 && f.seqNo != readSeq {
        return false;
      }
      if f.seqNo < readSeq || f.seqNo > readSeq + MAX_FLIGHT {
        return true;
      }
      var frag := GetIncomingMessage(f);
      if frag == null {
        return false;
      }
      assert Matches(frag, slots[f.seqNo % MAX_FLIGHT]);
      SlotLength(frag);
      assert frag.msgLen == f.msgLen;
      var _ := AbsorbFragment(f, f.seqNo % MAX_FLIGHT);
      ok := true;
    }

    /** The loop over the fragments of the pending record. */
    method FeedRecord(cfg: Config) returns (ok: bool)
      requires Valid() && Ring(View())
      modifies Repr
      ensures Valid() && fresh(Repr - old(Repr)) && inbox == old(inbox)
      ensures (View(), ok) == Feed(cfg, old(View()), old(record.data))
    {
      hide TakeFragment, Ring, Parse;
      var cbs := record.data;
      while cbs != []
        invariant Valid() && fresh(Repr - old(Repr)) && inbox == old(inbox) && Ring(View())
        invariant Feed(cfg, View(), cbs) == Feed(cfg, old(View()), old(record.data))
        decreases |cbs|
      {
        var parsed := Parse(cbs);
        if parsed.None? {
          return false;
        }
        var (f, rest) := parsed.value;
        ghost var before := View();
        ok := TakeOne(cfg, f);
        if !ok {
          return false;
        }
        TakeFragmentKeepsRing(cfg, before, f);
        cbs := rest;
      }
      ok := true;
    }

    /** Makes sure a record is pending, unless none has arrived. */
    method FetchRecord() returns (ok: bool)
      requires Valid()
      modifies `record, `inbox
      ensures Valid() && (ok <==> old(record).data != [] || old(inbox) != [])
      ensures View() == old(View()).(record := record)
      ensures (record, inbox) == if old(record).data != [] || !ok then (old(record), old(inbox))
                                 else (old(inbox)[0], old(inbox)[1..])
    {
      hide HmFragment.View, HmFragment.Valid;
      if record.data == [] {
        if inbox == [] {
          return false;
        }
        record, inbox := inbox[0], inbox[1..];
      }
      ok := true;
    }

    /** The record layer has one more record. */
    method Queue(rec: Rec)
      requires Valid()
      modifies `inbox
      ensures Valid() && View() == old(View()) && inbox == [rec]
    {
      hide HmFragment.View, HmFragment.Valid;
      inbox := [rec];
    }

    method DropRecord()
      requires Valid()
      modifies `record
      ensures Valid() && View() == old(View()).(record := old(record).(data := []))
    {
      hide HmFragment.View, HmFragment.Valid;
      record := record.(data := []);
    }

    /** Processes one handshake record, skipping out-of-order records of other kinds. */
    method ProcessRecord(cfg: Config) returns (ret: Return)
      requires Valid() && Ring(View())
      modifies Repr
      ensures Valid() && fresh(Repr - old(Repr))
      ensures (View(), inbox, ret) == Receiver.ProcessRecord(cfg, old(View()), old(inbox))
    {
      hide Feed, Ring, Valid;
      while true
        invariant Valid() && fresh(Repr - old(Repr)) && Ring(View())
        invariant Receiver.ProcessRecord(cfg, View(), inbox) == Receiver.ProcessRecord(cfg, old(View()), old(inbox))
        decreases Pending(View(), inbox)
      {
        ghost var before := View();
        var ok := FetchRecord();
        if !ok {
          return Blocked;
        }
        RingIgnoresRecord(before, record);
        if OutOfOrder(cfg, record.typ) {
          RingIgnoresRecord(before, record.(data := []));
          DropRecord();
          continue;
        }
        if record.typ != RT_HANDSHAKE {
          return Failed;
        }
        ok := FeedRecord(cfg);
        if !ok {
          return Failed;
        }
        DropRecord();
        return Done;
      }
    }

    /** Frees the current message and moves on to the next one. */
    method ReleaseCurrent()
      requires Valid()
      modifies this, incoming
      ensures Valid() && Repr == old(Repr) && inbox == old(inbox)
      ensures View() == if old(hasCurrent) then Release(old(View())) else old(View())
    {
      hide HmFragment.View, HmFragment.Valid;
      if !hasCurrent {
        return;
      }
      var index := readSeq % MAX_FLIGHT;
      incoming[index] := null;
      slots := slots[index := None];
      readSeq := (readSeq + 1) % SEQ_LIMIT;
      hasCurrent := false;
    }

    method IsCurrentMessageComplete() returns (complete: bool)
      requires Valid()
      ensures complete <==> View().CurrentComplete()
    {
      hide HmFragment.View, HmFragment.Valid, Slot.Complete;
      var frag := incoming[readSeq % MAX_FLIGHT];
      assert Matches(frag, slots[readSeq % MAX_FLIGHT]);
      if frag == null {
        return false;
      }
      frag.CompleteMeansNoBitmap();
      complete := frag.reassembly == null;
    }

    /** Makes the front message the current one. */
    method OpenCurrent() returns (typ: byte, body: seq<byte>)
      requires Valid() && Ring(View()) && View().CurrentComplete()
      modifies `hasCurrent
      ensures Valid() && View() == old(View()).(hasCurrent := true)
      ensures Message(typ, body) == MessageIn(View())
    {
      hide HmFragment.Valid, Slot.Complete, Ring;
      var frag := incoming[readSeq % MAX_FLIGHT];
      CurrentHasReadSeq(View());
      assert Matches(frag, slots[readSeq % MAX_FLIGHT]);
      assert frag != null && frag.seqNo == readSeq;
      DataHasHeader(frag);
      typ, body := frag.typ, frag.data[HM_HEADER_LENGTH..];
      hasCurrent := true;
    }

    /** Whether anything beyond the current message is buffered; a cipher change is
        refused while it is. */
    method HasIncomingMessages() returns (buffered: bool)
      requires Valid()
      ensures buffered <==>
          exists i :: 0 <= i < MAX_FLIGHT && slots[i].Some? && !(hasCurrent && i == readSeq % MAX_FLIGHT)
    {
      hide HmFragment.View, HmFragment.Valid;
      var current := readSeq % MAX_FLIGHT;
      for i := 0 to MAX_FLIGHT
        invariant forall k :: 0 <= k < i && !(hasCurrent && k == current) ==> slots[k].None?
      {
        assert Matches(incoming[i], slots[i]);
        if hasCurrent && i == current {
          continue;
        }
        if incoming[i] != null {
          return true;
        }
      }
      buffered := false;
    }

    /** Hands out the next message, or the current one again. */
    method GetMessage(cfg: Config, reuse: bool) returns (ret: Return, typ: byte, body: seq<byte>)
      requires Valid() && Ring(View()) && (reuse ==> hasCurrent)
      requires hasCurrent && !reuse ==> readSeq + 1 < SEQ_LIMIT
      modifies Repr
      ensures Valid() && fresh(Repr - old(Repr)) && Ring(View())
      ensures (View(), inbox, ret) == Receiver.GetMessage(cfg, old(View()), old(inbox), reuse)
      ensures ret.Done? ==> View().CurrentComplete() && Message(typ, body) == MessageIn(View())
    {
      hide Receiver.ProcessRecord, Ring, Valid, State.CurrentComplete;
      typ, body := 0, [];
      if !reuse {
        ghost var before := View();
        ReleaseCurrent();
        if before.hasCurrent {
          ReleaseKeepsRing(before);
        }
      }
      ghost var start, queue := View(), inbox;
      var complete := IsCurrentMessageComplete();
      while !complete
        invariant Valid() && fresh(Repr - old(Repr)) && Ring(View())
        invariant complete <==> View().CurrentComplete()
        invariant Await(cfg, View(), inbox) == Await(cfg, start, queue)
        decreases Pending(View(), inbox)
      {
        ProcessRecordKeepsRing(cfg, View(), inbox);
        ret := ProcessRecord(cfg);
        if ret != Done {
          return;
        }
        complete := IsCurrentMessageComplete();
      }
      OpeningKeepsRing(View());
      typ, body := OpenCurrent();
      ret := Done;
    }
  }

  lemma DataHasHeader(frag: HmFragment)
    requires frag.Valid()
    ensures frag.data.Length == HM_HEADER_LENGTH + frag.msgLen
  {}

  lemma OpeningKeepsRing(st: State)
    requires Ring(st) && st.CurrentComplete()
    ensures Ring(st.(hasCurrent := true))
  {}

  lemma RingIgnoresRecord(st: State, record: Rec)
    requires Ring(st)
    ensures Ring(st.(record := record))
  {}

  lemma PatchNothing(s: Slot, offset: nat)
    requires offset <= |s.body|
    ensures Patch(s, offset, []) == s
  {
    assert Overwrite(s.body, offset, []) == s.body;
  }

  lemma SlotLength(frag: HmFragment)
    requires frag.Valid()
    ensures |frag.View().body| == frag.msgLen
  {}
}
