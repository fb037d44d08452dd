/**
 The output stream: it writes into a buffer, or only counts when it has no callback.
 */
module OutStream {
  import opened Common
  import opened Varint
  import opened Encoding

  /** A stream's contents: the whole buffer, where the next byte goes, how much may be
      written in all, and how much has been. */
  datatype Snapshot = Snapshot(sizing: bool, content: seq<byte>, state: nat, maxSize: nat, written: nat)
  {
    predicate Valid() {
      sizing || (written <= maxSize && state + (maxSize - written) <= |content|)
    }
  }

  predicate Fits(s: Snapshot, n: nat) {
    s.sizing || s.written + n <= s.maxSize
  }

  /** What writing e does, from s to t. It works exactly if there is an e and it fits;
      then e is at the old position, or only its length counts. Failing or not, nothing
      before the old position changes, and a sizing stream writes nothing at all. */
  predicate Wrote(s: Snapshot, t: Snapshot, e: Option<seq<byte>>, ok: bool)
    requires s.Valid()
  {
    && t.Valid() && t.sizing == s.sizing && t.maxSize == s.maxSize && |t.content| == |s.content|
    && (ok <==> e.Some? && Fits(s, |e.value|))
    && (ok ==> t.written == s.written + |e.value|)
    && (ok && !s.sizing ==> t.state == s.state + |e.value| && t.content == Overwrite(s.content, s.state, e.value))
    && (s.sizing ==> t.content == s.content && t.state == s.state)
    && (!s.sizing ==> s.state <= t.state && t.content[..s.state] == s.content[..s.state])
  }

  function Concat(a: Option<seq<byte>>, b: Option<seq<byte>>): Option<seq<byte>> {
    if a.None? || b.None? then None else Some(a.value + b.value)
  }

  lemma NothingWrote(s: Snapshot)
    requires s.Valid()
    ensures Wrote(s, s, Some([]), true)
  {}

  /** Writing a and then b is writing a + b. */
  lemma WroteTwice(s: Snapshot, t: Snapshot, u: Snapshot, a: Option<seq<byte>>, b: Option<seq<byte>>, ok: bool)
    requires s.Valid() && Wrote(s, t, a, true) && Wrote(t, u, b, ok)
    ensures Wrote(s, u, Concat(a, b), ok)
  {
    if !s.sizing {
      assert t.content[..s.state] == s.content[..s.state];
      assert u.content[..s.state] == u.content[..t.state][..s.state] == t.content[..s.state];
      if ok {
        OverwriteTwice(s.content, s.state, a.value, b.value);
      }
    }
  }

  lemma OverwriteTwice(s: seq<byte>, at: nat, a: seq<byte>, b: seq<byte>)
    requires at + |a| + |b| <= |s|
    ensures Overwrite(Overwrite(s, at, a), at + |a|, b) == Overwrite(s, at, a + b)
  {}

  lemma OverwriteNext(s: seq<byte>, at: nat, e: seq<byte>, x: byte)
    requires at + |e| < |s|
    ensures Overwrite(s, at, e + [x]) == Overwrite(s, at, e)[at + |e| := x]
  {}

  /** Once a write fails, so does whatever was to follow it. */
  lemma WroteFailed(s: Snapshot, t: Snapshot, a: Option<seq<byte>>, b: Option<seq<byte>>)
    requires s.Valid() && Wrote(s, t, a, false)
    ensures Wrote(s, t, Concat(a, b), false)
  {}

  class OStream {
    const sizing: bool
    const buf: array<byte>
    var state: nat
    const maxSize: nat
    var bytesWritten: nat

    ghost function Snap(): Snapshot
      reads this, buf
    {
      Snapshot(sizing, buf[..], state, maxSize, bytesWritten)
    }

    ghost predicate Valid()
      reads this
    {
      sizing || (bytesWritten <= maxSize && state + (maxSize - bytesWritten) <= buf.Length)
    }

    constructor (sizing: bool, buf: array<byte>, state: nat, maxSize: nat)
      requires sizing || state + maxSize <= buf.Length
      ensures Valid() && this.sizing == sizing && this.buf == buf
      ensures this.state == state && this.maxSize == maxSize && bytesWritten == 0
    {
      this.sizing, this.buf, this.state, this.maxSize, bytesWritten := sizing, buf, state, maxSize, 0;
    }

    /** buf_write. */
    method BufWrite(b: seq<byte>)
      requires !sizing && state + |b| <= buf.Length
      modifies this, buf
      ensures state == old(state) + |b| && bytesWritten == old(bytesWritten)
      ensures buf[..] == Overwrite(old(buf[..]), old(state), b)
    {
      var dest := state;
      state := dest + |b|;
      var i := 0;
      while i < |b|
        invariant i <= |b| && state == dest + |b| && bytesWritten == old(bytesWritten)
        invariant buf[..] == Overwrite(old(buf[..]), dest, b[..i])
      {
        hide Overwrite;
        OverwriteNext(old(buf[..]), dest, b[..i], b[i]);
        assert b[..i + 1] == b[..i] + [b[i]];
        ghost var before := buf[..];
        buf[dest + i] := b[i];
        assert buf[..] == before[dest + i := b[i]];
        i := i + 1;
      }
      assert b[..i] == b;
    }

    /** pb_write. */
    method Write(b: seq<byte>) returns (ok: bool)
      requires Valid()
      modifies this, buf
      ensures Valid() && Wrote(old(Snap()), Snap(), Some(b), ok)
    {
      if !sizing {
        if bytesWritten + |b| > maxSize {
          return false;
        }
        BufWrite(b);
      }
      bytesWritten := bytesWritten + |b|;
      return true;
    }

    /** pb_write without data, when only counting; b stands for what is not written. */
    method Count(n: nat, ghost b: seq<byte>) returns (ok: bool)
      requires Valid() && sizing && n == |b|
      modifies this
      ensures Valid() && ok && Wrote(old(Snap()), Snap(), Some(b), ok)
    {
      bytesWritten := bytesWritten + n;
      return true;
    }

    /** pb_encode_varint. */
    method EncodeVarint(v: nat) returns (ok: bool)
      requires Valid() && v < WORD64
      modifies this, buf
      ensures Valid() && Wrote(old(Snap()), Snap(), Some(Encode(v)), ok)
    {
      hide Wrote, Overwrite;
      if v <= 0x7F {
        ok := Write([v]);
        return;
      }
      var bytes := VarintBytes(v);
      ok := Write(bytes);
    }
  }

  /** The lowest seven bits, marked as having more to follow. */
  function Group(v: nat): byte {
    v % 0x80 + 0x80
  }

  lemma GroupsOf(v: nat, n: nat)
    requires FitsIn(v, n)
    ensures n > 0
    ensures v >= 0x80 ==> v / 0x80 > 0 && FitsIn(v / 0x80, n - 1) && Encode(v) == [Group(v)] + Encode(v / 0x80)
    ensures v < 0x80 ==> v / 0x80 == 0 && Group(v) == v + 0x80 && Encode(v) == [v]
  {}

  /** The loop that cuts a number into groups of seven bits. */
  method VarintBytes(v: nat) returns (b: seq<byte>)
    requires 0x7F < v < WORD64
    ensures b == Encode(v)
  {
    hide FitsIn, Encode, Group;
    var buffer := new byte[10](_ => 0);
    var i: nat, value: nat := 0, v;
    WordsFit(v);
    while value > 0
      invariant i <= 10 && (value > 0 ==> FitsIn(value, 10 - i)) && (i == 0 ==> value == v)
      invariant value > 0 ==> Encode(v) == buffer[..i] + Encode(value)
      invariant value == 0 ==> i > 0 && buffer[i - 1] >= 0x80 && Encode(v) == buffer[..i - 1] + [buffer[i - 1] - 0x80]
      decreases value
    {
      GroupsOf(value, 10 - i);
      ghost var done := buffer[..i];
      buffer[i] := Group(value);
      assert buffer[..i] == done && buffer[..i + 1] == done + [Group(value)];
      value := value / 0x80;
      i := i + 1;
    }
    buffer[i - 1] := buffer[i - 1] - 0x80;
    return buffer[..i];
  }
}
