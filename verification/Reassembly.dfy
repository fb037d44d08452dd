/**
 Reassembly of one handshake message: a byte buffer and a bitmap with one bit
 per body byte, dropped when the body is complete.
 */
module Reassembly {
  import opened Common
  import opened Wire
  import opened HandshakeWire

  // ----- bits of a byte ------------------------------------------------------

  predicate BitOfByte(b: bv8, j: nat)
    requires j < 8
  {
    match j
    case 0 => b & 1 != 0
    case 1 => b & 2 != 0
    case 2 => b & 4 != 0
    case 3 => b & 8 != 0
    case 4 => b & 16 != 0
    case 5 => b & 32 != 0
    case 6 => b & 64 != 0
    case 7 => b & 128 != 0
  }

  /** Bits start, inclusive, to end, exclusive, in 32-bit arithmetic as in C. */
  function BitRange(start: nat, end: nat): bv8
    requires start <= 8 && end <= 8
  {
    (!(((1 as bv32) << start) - 1) & (((1 as bv32) << end) - 1) & 0xff) as bv8
  }

  lemma BitOfBitRange(start: nat, end: nat, j: nat)
    requires start <= 8 && end <= 8 && j < 8
    ensures BitOfByte(BitRange(start, end), j) <==> start <= j < end
  {}

  lemma BitOfOr(a: bv8, b: bv8, j: nat)
    requires j < 8
    ensures BitOfByte(a | b, j) <==> BitOfByte(a, j) || BitOfByte(b, j)
  {}

  lemma SameBitsSameByte(a: bv8, b: bv8)
    requires forall j | 0 <= j < 8 :: BitOfByte(a, j) == BitOfByte(b, j)
    ensures a == b
  {
    assert BitOfByte(a, 0) == BitOfByte(b, 0) && BitOfByte(a, 1) == BitOfByte(b, 1);
    assert BitOfByte(a, 2) == BitOfByte(b, 2) && BitOfByte(a, 3) == BitOfByte(b, 3);
    assert BitOfByte(a, 4) == BitOfByte(b, 4) && BitOfByte(a, 5) == BitOfByte(b, 5);
    assert BitOfByte(a, 6) == BitOfByte(b, 6) && BitOfByte(a, 7) == BitOfByte(b, 7);
  }

  lemma BitRangeValues()
    ensures BitRange(0, 8) == 0xff
    ensures BitRange(0, 0) == 0 && BitRange(8, 8) == 0
  {}

  // ----- bits of a bitmap ----------------------------------------------------

  predicate Marked(bitmap: seq<bv8>, i: nat)
    requires i < 8 * |bitmap|
  {
    BitOfByte(bitmap[i / 8], i % 8)
  }

  function Clamp(n: int): nat {
    if n < 0 then 0 else if n > 8 then 8 else n
  }

  /** The part of the range that falls in byte k of the bitmap. */
  function Mask(k: nat, start: nat, end: nat): bv8 {
    BitRange(Clamp(start - 8 * k), Clamp(end - 8 * k))
  }

  function Or(a: bv8, b: bv8): bv8 {
    a | b
  }

  lemma OrWithAllOnes(b: bv8)
    ensures b | 0xff == 0xff && b | 0 == b
  {}

  function MarkRange(bitmap: seq<bv8>, start: nat, end: nat): seq<bv8> {
    seq(|bitmap|, k requires 0 <= k < |bitmap| => Or(bitmap[k], Mask(k, start, end)))
  }

  /** The marked byte as the branches of the marking code compute it. */
  function MarkedByte(b: bv8, k: nat, start: nat, end: nat): bv8 {
    if k < start / 8 || end / 8 < k then b
    else if start / 8 == end / 8 then Or(b, BitRange(start % 8, end % 8))
    else if k == start / 8 then Or(b, BitRange(start % 8, 8))
    else if k < end / 8 then 0xff
    else if end % 8 == 0 then b
    else Or(b, BitRange(0, end % 8))
  }

  lemma MarkedByteIsMasked(b: bv8, k: nat, start: nat, end: nat)
    requires start <= end
    ensures MarkedByte(b, k, start, end) == Or(b, Mask(k, start, end))
  {
    hide BitRange;
    BitRangeValues();
    OrWithAllOnes(b);
  }

  lemma MarkRangeByByte(bitmap: seq<bv8>, start: nat, end: nat)
    requires start <= end
    ensures MarkRange(bitmap, start, end) ==
            seq(|bitmap|, k requires 0 <= k < |bitmap| => MarkedByte(bitmap[k], k, start, end))
  {
    hide Or, Mask, MarkedByte;
    forall k: nat | k < |bitmap|
      ensures MarkedByte(bitmap[k], k, start, end) == MarkRange(bitmap, start, end)[k]
    {
      MarkedByteIsMasked(bitmap[k], k, start, end);
    }
  }

  lemma MarkedAfterMarkRange(bitmap: seq<bv8>, start: nat, end: nat, i: nat)
    requires start <= end && i < 8 * |bitmap|
    ensures Marked(MarkRange(bitmap, start, end), i) <==> Marked(bitmap, i) || start <= i < end
  {
    hide BitOfByte, BitRange;
    var k := i / 8;
    BitOfOr(bitmap[k], Mask(k, start, end), i % 8);
    BitOfBitRange(Clamp(start - 8 * k), Clamp(end - 8 * k), i % 8);
  }

  /** The completeness test: whole bytes first, then the last partial one. */
  predicate IsComplete(bitmap: seq<bv8>, msgLen: nat)
    requires |bitmap| == (msgLen + 7) / 8
  {
    && (forall k :: 0 <= k < msgLen / 8 ==> bitmap[k] == 0xff)
    && (msgLen % 8 != 0 ==> bitmap[msgLen / 8] == BitRange(0, msgLen % 8))
  }

  ghost predicate ClearBeyond(bitmap: seq<bv8>, msgLen: nat) {
    forall i: nat :: msgLen <= i < 8 * |bitmap| ==> !Marked(bitmap, i)
  }

  ghost predicate AllMarked(bitmap: seq<bv8>, msgLen: nat)
    requires |bitmap| == (msgLen + 7) / 8
  {
    forall i: nat :: i < msgLen ==> Marked(bitmap, i)
  }

  lemma CompleteMeansAllMarked(bitmap: seq<bv8>, msgLen: nat)
    requires |bitmap| == (msgLen + 7) / 8 && IsComplete(bitmap, msgLen)
    ensures AllMarked(bitmap, msgLen)
  {
    hide BitOfByte, BitRange;
    forall i: nat | i < msgLen
      ensures Marked(bitmap, i)
    {
      BitRangeValues();
      BitOfBitRange(0, if i / 8 < msgLen / 8 then 8 else msgLen % 8, i % 8);
    }
  }

  lemma AllMarkedMeansComplete(bitmap: seq<bv8>, msgLen: nat)
    requires |bitmap| == (msgLen + 7) / 8
    requires ClearBeyond(bitmap, msgLen) && AllMarked(bitmap, msgLen)
    ensures IsComplete(bitmap, msgLen)
  {
    forall k | 0 <= k < |bitmap|
      ensures bitmap[k] == BitRange(0, if k < msgLen / 8 then 8 else msgLen % 8)
    {
      FullByte(bitmap, msgLen, k);
    }
    BitRangeValues();
  }

  lemma FullByte(bitmap: seq<bv8>, msgLen: nat, k: nat)
    requires |bitmap| == (msgLen + 7) / 8 && k < |bitmap|
    requires ClearBeyond(bitmap, msgLen) && AllMarked(bitmap, msgLen)
    ensures bitmap[k] == BitRange(0, if k < msgLen / 8 then 8 else msgLen % 8)
  {
    hide BitOfByte, BitRange;
    var end := if k < msgLen / 8 then 8 else msgLen % 8;
    forall j | 0 <= j < 8
      ensures BitOfByte(bitmap[k], j) == BitOfByte(BitRange(0, end), j)
    {
      BitOfBitRange(0, end, j);
      var i := 8 * k + j;
      assert i / 8 == k && i % 8 == j;
      assert Marked(bitmap, i) <==> i < msgLen;
    }
    SameBitsSameByte(bitmap[k], BitRange(0, end));
  }

  // ----- the message under reassembly ----------------------------------------

  /** A partly received message: its body so far and which bytes of it count. */
  datatype Slot = Slot(typ: byte, seqNo: nat, body: seq<byte>, covered: set<nat>)
  {
    predicate Complete() {
      forall i: nat :: i < |body| ==> i in covered
    }
  }

  predicate Within(i: nat, start: nat, end: nat) {
    start <= i < end
  }

  ghost function Range(start: nat, end: nat): set<nat> {
    set i: nat | i < end && Within(i, start, end)
  }

  ghost function Patch(s: Slot, offset: nat, bytes: seq<byte>): Slot
    requires offset + |bytes| <= |s.body|
  {
    s.(body := Overwrite(s.body, offset, bytes),
       covered := s.covered + Range(offset, offset + |bytes|))
  }

  ghost function CoveredBy(bitmap: seq<bv8>, msgLen: nat): set<nat>
    requires msgLen <= 8 * |bitmap|
  {
    set i: nat | i < msgLen && Marked(bitmap, i)
  }

  /** What marking a range does, seen through the set of covered bytes. */
  lemma MarkRangeCovers(bitmap: seq<bv8>, msgLen: nat, start: nat, end: nat)
    requires |bitmap| == (msgLen + 7) / 8 && ClearBeyond(bitmap, msgLen)
    requires start <= end <= msgLen
    ensures var after := MarkRange(bitmap, start, end);
            && ClearBeyond(after, msgLen)
            && CoveredBy(after, msgLen) == CoveredBy(bitmap, msgLen) + Range(start, end)
            && (IsComplete(after, msgLen) <==> AllMarked(after, msgLen))
  {
    hide Marked, Mask, IsComplete, MarkRange;
    var after := MarkRange(bitmap, start, end);
    MarkRangeLength(bitmap, start, end);
    forall i: nat | i < 8 * |bitmap|
      ensures Marked(after, i) <==> Marked(bitmap, i) || start <= i < end
    {
      MarkedAfterMarkRange(bitmap, start, end, i);
    }
    if IsComplete(after, msgLen) {
      CompleteMeansAllMarked(after, msgLen);
    }
    if AllMarked(after, msgLen) {
      AllMarkedMeansComplete(after, msgLen);
    }
  }

  lemma MarkRangeLength(bitmap: seq<bv8>, start: nat, end: nat)
    ensures |MarkRange(bitmap, start, end)| == |bitmap|
  {}

  lemma ZeroBitmap(bitmap: seq<bv8>, msgLen: nat)
    requires |bitmap| == (msgLen + 7) / 8 && msgLen > 0
    requires forall k :: 0 <= k < |bitmap| ==> bitmap[k] == 0
    ensures ClearBeyond(bitmap, msgLen) && !AllMarked(bitmap, msgLen)
    ensures CoveredBy(bitmap, msgLen) == {}
  {
    assert forall i: nat :: i < 8 * |bitmap| ==> !Marked(bitmap, i);
    assert !Marked(bitmap, 0);
  }

  // ----- any sequence of marks -----------------------------------------------

  function MarkAll(bitmap: seq<bv8>, ranges: seq<(nat, nat)>): seq<bv8>
    decreases |ranges|
  {
    if ranges == [] then bitmap
    else MarkAll(MarkRange(bitmap, ranges[0].0, ranges[0].1), ranges[1..])
  }

  predicate InRanges(i: nat, ranges: seq<(nat, nat)>) {
    exists r :: r in ranges && Within(i, r.0, r.1)
  }

  lemma {:induction false} MarkAllCovers(bitmap: seq<bv8>, msgLen: nat, ranges: seq<(nat, nat)>)
    requires |bitmap| == (msgLen + 7) / 8 && ClearBeyond(bitmap, msgLen)
    requires forall r :: r in ranges ==> r.0 <= r.1 <= msgLen
    ensures |MarkAll(bitmap, ranges)| == |bitmap| && ClearBeyond(MarkAll(bitmap, ranges), msgLen)
    ensures forall i: nat :: i < msgLen ==>
              (Marked(MarkAll(bitmap, ranges), i) <==> Marked(bitmap, i) || InRanges(i, ranges))
    decreases |ranges|
  {
    hide Marked, MarkRange;
    if ranges != [] {
      var (start, end) := ranges[0];
      var after := MarkRange(bitmap, start, end);
      MarkRangeLength(bitmap, start, end);
      MarkRangeCovers(bitmap, msgLen, start, end);
      MarkAllCovers(after, msgLen, ranges[1..]);
      forall i: nat | i < msgLen
        ensures Marked(MarkAll(bitmap, ranges), i) <==> Marked(bitmap, i) || InRanges(i, ranges)
      {
        MarkedAfterMarkRange(bitmap, start, end, i);
        assert InRanges(i, ranges) <==> Within(i, start, end) || InRanges(i, ranges[1..]);
      }
    }
  }

  /** From a zeroed bitmap, overlaps and repeats included: a bit is set exactly when
      its byte was covered, and the scan succeeds exactly when all bytes were. */
  lemma MarksRefineCoverage(bitmap: seq<bv8>, msgLen: nat, ranges: seq<(nat, nat)>)
    requires |bitmap| == (msgLen + 7) / 8 && msgLen > 0
    requires forall k :: 0 <= k < |bitmap| ==> bitmap[k] == 0
    requires forall r :: r in ranges ==> r.0 <= r.1 <= msgLen
    ensures |MarkAll(bitmap, ranges)| == |bitmap|
    ensures forall i: nat :: i < msgLen ==> (Marked(MarkAll(bitmap, ranges), i) <==> InRanges(i, ranges))
    ensures IsComplete(MarkAll(bitmap, ranges), msgLen) <==> forall i: nat :: i < msgLen ==> InRanges(i, ranges)
  {
    hide Marked, IsComplete;
    ZeroBitmap(bitmap, msgLen);
    assert forall i: nat :: i < msgLen ==> Marked(bitmap, i) ==> i in CoveredBy(bitmap, msgLen);
    MarkAllCovers(bitmap, msgLen, ranges);
    var after := MarkAll(bitmap, ranges);
    if IsComplete(after, msgLen) {
      CompleteMeansAllMarked(after, msgLen);
    }
    if AllMarked(after, msgLen) {
      AllMarkedMeansComplete(after, msgLen);
    }
  }

  // ----- which bitmap bytes the marking touches ------------------------------

  /** Marking start..end reads and writes byte k of the bitmap. */
  predicate Touches(start: nat, end: nat, k: nat) {
    k == start / 8 || start / 8 < k < end / 8 || (start / 8 < k == end / 8 && end % 8 != 0)
  }

  function BitmapLength(msgLen: nat): nat {
    (msgLen + 7) / 8
  }

  /** Empty, at the very end of a message that fills its last bitmap byte. */
  predicate EmptyAtFullEnd(msgLen: nat, start: nat, end: nat) {
    start == end == msgLen && msgLen % 8 == 0
  }

  /** When the marking stays within the bitmap: for every range within the message but
      the empty one at the end of a message that is a multiple of eight bytes long. */
  lemma MarkStaysInBitmap(msgLen: nat, start: nat, end: nat)
    requires start <= end <= msgLen
    ensures (forall k: nat :: Touches(start, end, k) ==> k < BitmapLength(msgLen)) <==>
        !EmptyAtFullEnd(msgLen, start, end)
    ensures start / 8 < BitmapLength(msgLen) <==> !EmptyAtFullEnd(msgLen, start, end)
  {
    assert Touches(start, end, start / 8);
    assert start < msgLen ==> start / 8 < BitmapLength(msgLen);
  }

  /** The header of the whole message, as one unfragmented piece. */
  function WholeHeader(typ: byte, seqNo: nat, msgLen: nat): (h: seq<byte>)
    requires seqNo < 0x1_0000 && msgLen < 0x100_0000
    ensures |h| == HM_HEADER_LENGTH
  {
    [typ] + PutU24(msgLen) + PutU16(seqNo) + PutU24(0) + PutU24(msgLen)
  }

  /** With its header in front, a message reads as one fragment that is all of it. */
  lemma WholeHeaderIsHeader(typ: byte, seqNo: nat, body: seq<byte>)
    requires seqNo < 0x1_0000 && |body| < 0x100_0000
    ensures WholeHeader(typ, seqNo, |body|) + body == Serialize(Fragment(typ, |body|, seqNo, 0, body))
  {}

  class HmFragment {
    const typ: byte
    const seqNo: nat
    const msgLen: nat
    const data: array<byte>
    var reassembly: array?<bv8>

    ghost function Footprint(): set<object>
      reads this
    {
      {this, data} + if reassembly == null then {} else {reassembly}
    }

    ghost predicate Valid()
      reads Footprint()
    {
      && seqNo < 0x1_0000 && msgLen < 0x100_0000
      && data.Length == HM_HEADER_LENGTH + msgLen
      && data[..HM_HEADER_LENGTH] == WholeHeader(typ, seqNo, msgLen)
      && (reassembly != null ==>
            && reassembly.Length == (msgLen + 7) / 8
            && ClearBeyond(reassembly[..], msgLen)
            && !AllMarked(reassembly[..], msgLen))
    }

    ghost function Covered(): set<nat>
      requires Valid()
      reads Footprint()
    {
      if reassembly == null then Range(0, msgLen) else CoveredBy(reassembly[..], msgLen)
    }

    ghost function View(): Slot
      requires Valid()
      reads Footprint()
    {
      Slot(typ, seqNo, data[HM_HEADER_LENGTH..], Covered())
    }

    lemma CompleteMeansNoBitmap()
      requires Valid()
      ensures View().Complete() <==> reassembly == null
    {
      hide Marked;
      if reassembly != null {
        var i: nat :| i < msgLen && !Marked(reassembly[..], i);
        assert i !in View().covered;
      }
    }

    constructor (typ: byte, seqNo: nat, msgLen: nat)
      requires seqNo < 0x1_0000 && msgLen < 0x100_0000
      ensures Valid() && fresh(Footprint())
      ensures View() == Slot(typ, seqNo, seq(msgLen, _ => 0), {})
      ensures this.typ == typ && this.msgLen == msgLen
    {
      hide Marked, WholeHeader;
      this.typ, this.seqNo, this.msgLen := typ, seqNo, msgLen;
      var header := WholeHeader(typ, seqNo, msgLen);
      var buffer := new byte[HM_HEADER_LENGTH + msgLen](i => if 0 <= i < |header| then header[i] else 0);
      data := buffer;
      var bitmap: array?<bv8> := null;
      if msgLen > 0 {
        bitmap := new bv8[(msgLen + 7) / 8](_ => 0);
        ZeroBitmap(bitmap[..], msgLen);
      }
      reassembly := bitmap;
      new;
      assert buffer[HM_HEADER_LENGTH..] == seq(msgLen, _ => 0);
      assert buffer[..HM_HEADER_LENGTH] == header;
    }

    /** Sets the bits of the range in the bitmap, byte by byte. */
    method MarkBits(start: nat, end: nat)
      requires reassembly != null
      requires start <= end <= 8 * reassembly.Length
      requires forall k: nat :: Touches(start, end, k) ==> k < reassembly.Length
      modifies reassembly
      ensures reassembly[..] == MarkRange(old(reassembly[..]), start, end)
    {
      hide BitRange, Or, MarkRange;
      var bitmap := reassembly;
      assert Touches(start, end, start / 8);
      ghost var before := bitmap[..];
      ghost var after := seq(|before|, k requires 0 <= k < |before| => MarkedByte(before[k], k, start, end));
      MarkRangeByByte(before, start, end);
      if start / 8 == end / 8 {
        bitmap[start / 8] := Or(bitmap[start / 8], BitRange(start % 8, end % 8));
      } else {
        bitmap[start / 8] := Or(bitmap[start / 8], BitRange(start % 8, 8));
        var i := start / 8 + 1;
        while i < end / 8
          invariant start / 8 < i <= end / 8
          invariant forall k :: 0 <= k < i ==> bitmap[k] == after[k]
          invariant forall k :: i <= k < bitmap.Length ==> bitmap[k] == before[k]
        {
          bitmap[i] := 0xff;
          i := i + 1;
        }
        if end % 8 != 0 {
          bitmap[end / 8] := Or(bitmap[end / 8], BitRange(0, end % 8));
        }
      }
    }

    /** The completeness scan, with its early exit. */
    method Scan() returns (complete: bool)
      requires reassembly != null && reassembly.Length == (msgLen + 7) / 8
      ensures complete <==> IsComplete(reassembly[..], msgLen)
    {
      hide BitRange;
      var i := 0;
      while i < msgLen / 8
        invariant 0 <= i <= msgLen / 8
        invariant forall k :: 0 <= k < i ==> reassembly[k] == 0xff
      {
        if reassembly[i] != 0xff {
          assert reassembly[..][i] != 0xff;
          return false;
        }
        i := i + 1;
      }
      complete := msgLen % 8 == 0 || reassembly[msgLen / 8] == BitRange(0, msgLen % 8);
    }

    /** Marks bytes start..end as received; a complete message drops its bitmap. The
        excluded range is the one for which the marking leaves the bitmap. */
    method Mark(start: nat, end: nat)
      requires Valid() && reassembly != null
      requires start <= end <= msgLen && !EmptyAtFullEnd(msgLen, start, end)
      modifies `reassembly, reassembly
      ensures Valid() && reassembly in {old(reassembly), null}
      ensures Covered() == old(Covered()) + Range(start, end)
    {
      hide MarkRange, IsComplete, Marked;
      ghost var before := reassembly[..];
      MarkRangeCovers(before, msgLen, start, end);
      MarkStaysInBitmap(msgLen, start, end);
      MarkBits(start, end);
      var complete := Scan();
      if complete {
        reassembly := null;
      }
    }

    /** Copies a fragment body into place and marks it. */
    method Accept(offset: nat, bytes: seq<byte>)
      requires Valid() && reassembly != null
      requires offset + |bytes| <= msgLen && !EmptyAtFullEnd(msgLen, offset, offset + |bytes|)
      modifies `reassembly, reassembly, data
      ensures Valid() && reassembly in {old(reassembly), null}
      ensures View() == Patch(old(View()), offset, bytes)
    {
      hide ClearBeyond, AllMarked, CoveredBy, WholeHeader;
      ghost var before := data[HM_HEADER_LENGTH..];
      ghost var header := data[..HM_HEADER_LENGTH];
      ghost var bits := reassembly[..];
      forall i | 0 <= i < |bytes| {
        data[HM_HEADER_LENGTH + offset + i] := bytes[i];
      }
      assert data[HM_HEADER_LENGTH..] == Overwrite(before, offset, bytes);
      assert data[..HM_HEADER_LENGTH] == header;
      assert reassembly[..] == bits;
      Mark(offset, offset + |bytes|);
    }
  }
}
