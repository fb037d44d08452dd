/**
 DTLS handshake fragments on the wire (RFC 6347, section 4.2.2): a twelve-byte
 header followed by the fragment body.
 */
module HandshakeWire {
  import opened Common
  import opened Wire

  const HM_HEADER_LENGTH: nat := 12

  /** A fragment; its frag_len field is the length of `body`. */
  datatype Fragment = Fragment(typ: byte, msgLen: nat, seqNo: nat, offset: nat, body: seq<byte>)
  {
    predicate FitsHeader() {
      msgLen < 0x100_0000 && seqNo < 0x1_0000 && offset < 0x100_0000 && |body| < 0x100_0000
    }
  }

  function Header(f: Fragment): (h: seq<byte>)
    requires f.FitsHeader()
    ensures |h| == HM_HEADER_LENGTH
  {
    [f.typ] + PutU24(f.msgLen) + PutU16(f.seqNo) + PutU24(f.offset) + PutU24(|f.body|)
  }

  function Serialize(f: Fragment): (s: seq<byte>)
    requires f.FitsHeader()
    ensures |s| == HM_HEADER_LENGTH + |f.body|
  {
    Header(f) + f.body
  }

  /** The first fragment of the input and what follows it, unless it is cut short. */
  function Parse(cbs: seq<byte>): (r: Option<(Fragment, seq<byte>)>)
    ensures r.Some? ==> r.value.0.FitsHeader() && |r.value.1| < |cbs|
  {
    if |cbs| < HM_HEADER_LENGTH then None
    else
      var fragLen := U24(cbs[9..12]);
      if |cbs| - HM_HEADER_LENGTH < fragLen then None
      else Some((Fragment(cbs[0], U24(cbs[1..4]), U16(cbs[4..6]), U24(cbs[6..9]),
                          cbs[12..12 + fragLen]), cbs[12 + fragLen..]))
  }

  /** Type, message length, sequence, fragment offset and fragment length stand in this
      order, most significant byte first (RFC 6347, section 4.2.2). */
  lemma HeaderLayout(f: Fragment)
    requires f.FitsHeader()
    ensures var s := Serialize(f);
            && s[0] == f.typ
            && 0x1_0000 * (s[1] as nat) + 0x100 * (s[2] as nat) + s[3] as nat == f.msgLen
            && 0x100 * (s[4] as nat) + s[5] as nat == f.seqNo
            && 0x1_0000 * (s[6] as nat) + 0x100 * (s[7] as nat) + s[8] as nat == f.offset
            && 0x1_0000 * (s[9] as nat) + 0x100 * (s[10] as nat) + s[11] as nat == |f.body|
            && s[12..] == f.body
  {
    hide PutU24, PutU16;
    var s := Serialize(f);
    U24RoundTrip(f.msgLen);
    U16RoundTrip(f.seqNo);
    U24RoundTrip(f.offset);
    U24RoundTrip(|f.body|);
    assert s[1..4] == PutU24(f.msgLen);
    assert s[4..6] == PutU16(f.seqNo);
    assert s[6..9] == PutU24(f.offset);
    assert s[9..12] == PutU24(|f.body|);
  }

  lemma ParseOfSerialize(f: Fragment, rest: seq<byte>)
    requires f.FitsHeader()
    ensures Parse(Serialize(f) + rest) == Some((f, rest))
  {
    hide U24, U16, PutU24, PutU16;
    U24RoundTrip(f.msgLen);
    U16RoundTrip(f.seqNo);
    U24RoundTrip(f.offset);
    U24RoundTrip(|f.body|);
    var s := Serialize(f) + rest;
    assert s[1..4] == PutU24(f.msgLen);
    assert s[4..6] == PutU16(f.seqNo);
    assert s[6..9] == PutU24(f.offset);
    assert s[9..12] == PutU24(|f.body|);
    assert s[12..12 + |f.body|] == f.body;
    assert s[12 + |f.body|..] == rest;
  }

  /** A record payload made of whole fragments. */
  function SerializeAll(fs: seq<Fragment>): seq<byte>
    requires forall f :: f in fs ==> f.FitsHeader()
  {
    if fs == [] then [] else Serialize(fs[0]) + SerializeAll(fs[1..])
  }

  /** The fragments of a payload, up to the first that is cut short. */
  function Fragments(payload: seq<byte>): (fs: seq<Fragment>)
    ensures forall f :: f in fs ==> f.FitsHeader()
    decreases |payload|
  {
    match Parse(payload)
    case None => []
    case Some((f, rest)) => [f] + Fragments(rest)
  }

  /** Serialized fragments can be cut apart in one way only. */
  lemma {:induction false} FragmentsOfSerialized(fs: seq<Fragment>)
    requires forall f :: f in fs ==> f.FitsHeader()
    ensures Fragments(SerializeAll(fs)) == fs
    decreases |fs|
  {
    hide Serialize;
    if fs == [] {
      assert Parse([]).None?;
    } else {
      ParseOfSerialize(fs[0], SerializeAll(fs[1..]));
      FragmentsOfSerialized(fs[1..]);
    }
  }
}
