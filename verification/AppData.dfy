/**
 Writing TLS application data to a transport that takes what it likes: the data
 is cut into records (RFC 5246, section 6.2.1), and a write that could not finish
 is resumed by calling again.
 */
module AppData {
  import opened Common
  import opened Wire

  type Seal = (nat, seq<byte>) -> Option<seq<byte>>

  /** Sealing adds at most the declared overhead, and never yields nothing. */
  ghost predicate Lawful(seal: Seal, overhead: nat) {
    forall n, p :: seal(n, p).Some? ==> 0 < |seal(n, p).value| <= |p| + overhead
  }

  /** The records of consecutive chunks of at most `max` bytes, numbered from s,
      and the next number; None when one of them cannot be sealed. */
  function Records(seal: Seal, s: nat, data: seq<byte>, max: nat): Option<(seq<byte>, nat)>
    requires max > 0
    decreases |data|
  {
    if data == [] then Some(([], s))
    else
      var n := Min(|data|, max);
      var first := seal(s, data[..n]);
      if first.None? then None
      else
        var rest := Records(seal, s + 1, data[n..], max);
        if rest.None? then None else Some((first.value + rest.value.0, rest.value.1))
  }

  /** n bytes are a number of full chunks. */
  predicate FullChunks(n: nat, max: nat)
    requires max > 0
  {
    n == 0 || (n >= max && FullChunks(n - max, max))
  }

  lemma {:induction false} RecordsThenOne(seal: Seal, s: nat, data: seq<byte>, chunk: seq<byte>, max: nat)
    requires max > 0 && FullChunks(|data|, max) && 0 < |chunk| <= max
    requires Records(seal, s, data, max).Some?
    ensures var (bytes, next) := Records(seal, s, data, max).value;
            Records(seal, s, data + chunk, max) ==
            if seal(next, chunk).None? then None else Some((bytes + seal(next, chunk).value, next + 1))
    decreases |data|
  {
    if data == [] {
      assert data + chunk == chunk;
      LastRecord(seal, s, chunk, max);
      assert seal(s, chunk).Some? ==> [] + seal(s, chunk).value == seal(s, chunk).value;
    } else {
      assert (data + chunk)[..max] == data[..max];
      assert (data + chunk)[max..] == data[max..] + chunk;
      RecordsThenOne(seal, s + 1, data[max..], chunk, max);
      var first := seal(s, data[..max]).value;
      var (bytes, next) := Records(seal, s + 1, data[max..], max).value;
      if seal(next, chunk).Some? {
        assert first + (bytes + seal(next, chunk).value) == (first + bytes) + seal(next, chunk).value;
      }
    }
  }

  lemma NoRecords(seal: Seal, s: nat, max: nat)
    requires max > 0
    ensures Records(seal, s, [], max) == Some(([], s))
  {}

  lemma LastRecord(seal: Seal, s: nat, chunk: seq<byte>, max: nat)
    requires 0 < |chunk| <= max
    ensures Records(seal, s, chunk, max) ==
            if seal(s, chunk).None? then None else Some((seal(s, chunk).value, s + 1))
  {
    var n := Min(|chunk|, max);
    assert n == |chunk| && chunk[..n] == chunk && chunk[n..] == [];
    NoRecords(seal, s + 1, max);
    if seal(s, chunk).Some? {
      assert seal(s, chunk).value + [] == seal(s, chunk).value;
    }
  }

  lemma {:induction false} OneMoreChunk(n: nat, max: nat)
    requires max > 0 && FullChunks(n, max)
    ensures FullChunks(n + max, max)
    decreases n
  {
    if n > 0 {
      OneMoreChunk(n - max, max);
    }
  }

  // ----- one write, seen from outside ----------------------------------------

  /** All bytes put out, on the wire or pending; whether some are pending; the next
      record number; and the arguments of the pending write. */
  datatype Snapshot = Snapshot(out: seq<byte>, waiting: bool, sequence: nat, wpendTot: nat, wpendAddr: int,
    wpendRet: nat)

  /** What a call for one chunk has achieved when it returns `ret`. */
  ghost predicate Wrote(seal: Seal, before: Snapshot, after: Snapshot, ret: int, addr: int, chunk: seq<byte>) {
    if before.waiting then
      && after.(waiting := true) == before
      && (if ret > 0 then !after.waiting && ret == after.wpendRet else after.waiting)
    else if ret > 0 || after.waiting then
      && chunk != [] && seal(before.sequence, chunk).Some?
      && after.out == before.out + seal(before.sequence, chunk).value && after.sequence == before.sequence + 1
      && after.wpendTot == after.wpendRet == |chunk| && after.wpendAddr == addr
      && (if ret > 0 then !after.waiting && ret == |chunk| else after.waiting)
    else
      after.out == before.out && after.sequence == before.sequence
  }

  /** What has been put out since `start`, when the next record had number s, is
      exactly the records of `data`. */
  ghost predicate HasRecords(seal: Seal, max: nat, v: Snapshot, data: seq<byte>, start: seq<byte>, s: nat)
    requires max > 0
  {
    var r := Records(seal, s, data, max);
    r.Some? && v.out == start + r.value.0 && v.sequence == r.value.1
  }

  /** Part-way through writing `data` from `addr`, with k bytes wholly written:
      exactly the records of what has been taken on are out. */
  ghost predicate Midway(seal: Seal, max: nat, v: Snapshot, k: nat, data: seq<byte>, addr: int, start: seq<byte>,
                         s: nat)
    requires max > 0
  {
    && k <= |data| && FullChunks(k, max)
    && (v.waiting ==> 0 < v.wpendRet == v.wpendTot == Min(|data| - k, max) && v.wpendAddr == addr + k)
    && HasRecords(seal, max, v, data[..if v.waiting then k + Min(|data| - k, max) else k], start, s)
  }

  /** A call for one chunk moves the write from k to k plus its return value. */
  lemma ChunkAdvances(seal: Seal, max: nat, before: Snapshot, after: Snapshot, ret: int, k: nat,
                      data: seq<byte>, addr: int, start: seq<byte>, s: nat)
    requires max > 0 && Midway(seal, max, before, k, data, addr, start, s)
    requires Wrote(seal, before, after, ret, addr + k, data[k..k + Min(|data| - k, max)])
    ensures ret <= 0 ==> Midway(seal, max, after, k, data, addr, start, s)
    ensures ret > 0 ==> ret == Min(|data| - k, max) && !after.waiting
                        && HasRecords(seal, max, after, data[..k + ret], start, s)
    ensures FullChunks(k, max)
  {
    hide FullChunks, Records;
    var n := Min(|data| - k, max);
    if !before.waiting && (ret > 0 || after.waiting) {
      RecordsThenOne(seal, s, data[..k], data[k..k + n], max);
      assert data[..k] + data[k..k + n] == data[..k + n];
      var r := Records(seal, s, data[..k], max).value;
      var record := seal(before.sequence, data[k..k + n]).value;
      assert start + r.0 + record == start + (r.0 + record);
    }
  }

  lemma MidwayWithin(seal: Seal, max: nat, v: Snapshot, k: nat, data: seq<byte>, addr: int, start: seq<byte>, s: nat)
    requires max > 0
    ensures Midway(seal, max, v, k, data, addr, start, s) ==> k <= |data|
  {}

  /** After full chunks, with nothing pending, the write stands between two chunks. */
  lemma BetweenChunks(seal: Seal, max: nat, v: Snapshot, k: nat, data: seq<byte>, addr: int, start: seq<byte>, s: nat)
    requires max > 0 && k <= |data| && FullChunks(k, max) && !v.waiting
    requires HasRecords(seal, max, v, data[..k], start, s)
    ensures Midway(seal, max, v, k, data, addr, start, s)
  {}

  /** Data that can be sealed begins with a chunk that can, and so does the rest. */
  lemma FirstChunk(seal: Seal, s: nat, data: seq<byte>, k: nat, max: nat)
    requires max > 0 && k < |data| && Records(seal, s, data[k..], max).Some?
    ensures var n := Min(|data| - k, max);
            seal(s, data[k..k + n]).Some? && Records(seal, s + 1, data[k + n..], max).Some?
  {
    var n := Min(|data| - k, max);
    assert data[k..][..n] == data[k..k + n] && data[k..][n..] == data[k + n..];
  }

  class Writer {
    const seal: Seal
    const maxFragment: nat
    const overhead: nat
    const capacity: nat
    const align: nat
    var partialWrites: bool
    var movingBuffer: bool
    var hasTransport: bool
    var pendingFlight: bool
    var sequence: nat

    // bytes written so far by a call that did not finish
    var wnum: nat
    // the arguments of the write whose record is pending
    var wpendTot: nat
    var wpendAddr: int
    var wpendRet: nat

    // the record being flushed
    var buf: array?<byte>
    var offset: nat
    var len: nat

    // what the transport has taken
    var wire: seq<byte>

    ghost predicate Valid()
      reads this, buf
    {
      && maxFragment > 0 && align < 8
      && (buf == null ==> len == 0)
      && (buf != null ==> offset + len <= buf.Length)
      && Lawful(seal, overhead)
    }

    ghost function Pending(): seq<byte>
      requires Valid()
      reads this, buf
    {
      if buf == null then [] else buf[offset..offset + len]
    }

    constructor (seal: Seal, overhead: nat, maxFragment: nat, capacity: nat, align: nat)
      requires Lawful(seal, overhead) && maxFragment > 0 && align < 8
      ensures Valid() && Pending() == [] && wire == [] && wnum == 0 && sequence == 0
      ensures this.seal == seal && this.maxFragment == maxFragment && !partialWrites
    {
      this.seal, this.overhead, this.maxFragment, this.capacity, this.align := seal, overhead, maxFragment,
        capacity, align;
      partialWrites, movingBuffer, hasTransport, pendingFlight, sequence := false, false, true, false, 0;
      wnum, wpendTot, wpendAddr, wpendRet := 0, 0, 0, 0;
      buf, offset, len, wire := null, 0, 0, [];
    }

    ghost function View(): Snapshot
      requires Valid()
      reads this, buf
    {
      Snapshot(wire + Pending(), len > 0, sequence, wpendTot, wpendAddr, wpendRet)
    }

    /** Hands the pending bytes to the transport until it blocks or all are gone. */
    method FlushBuffer(answers: seq<int>) returns (ret: int, rest: seq<int>)
      requires Valid() && len > 0
      modifies `wire, `buf, `offset, `len
      ensures Valid() && wire + Pending() == old(wire + Pending())
      ensures ret > 0 ==> buf == null
      ensures ret <= 0 ==> buf == old(buf) && len > 0
      ensures hasTransport && answers != [] && answers[0] >= old(len) ==> ret > 0 && rest == answers[1..]
      ensures !hasTransport || answers == [] ==> ret == -1 && rest == answers && wire == old(wire)
      ensures hasTransport && answers != [] && answers[0] <= 0 ==>
                ret == answers[0] && rest == answers[1..] && wire == old(wire)
    {
      hide Lawful;
      rest := answers;
      if !hasTransport {
        return -1, rest;
      }
      while len > 0
        invariant Valid() && buf != null && buf == old(buf)
        invariant wire + buf[offset..offset + len] == old(wire + Pending())
        invariant answers != [] && answers[0] >= old(len) ==>
                    (len == old(len) && rest == answers) || (len == 0 && rest == answers[1..])
        invariant answers == [] || answers[0] <= 0 ==> len == old(len) && rest == answers && wire == old(wire)
        decreases len
      {
        var answer := if rest == [] then -1 else rest[0];
        rest := if rest == [] then [] else rest[1..];
        if answer <= 0 {
          return answer, rest;
        }
        Consume(Min(answer, len));
      }
      assert wire + [] == wire;
      buf, offset, len := null, 0, 0;
      ret := 1;
    }

    /** The transport takes n of the pending bytes. */
    method Consume(n: nat)
      requires Valid() && buf != null && n <= len
      modifies `wire, `offset, `len
      ensures Valid() && len == old(len) - n
      ensures wire + buf[offset..offset + len] == old(wire) + old(buf[offset..offset + len])
    {
      hide Lawful;
      assert buf[offset..offset + len] == buf[offset..offset + n] + buf[offset + n..offset + len];
      wire := wire + buf[offset..offset + n];
      offset := offset + n;
      len := len - n;
    }

    /** Resumes the pending record, if the retry is for the same write. */
    method WritePending(addr: int, length: nat, answers: seq<int>) returns (ret: int, rest: seq<int>)
      requires Valid() && len > 0 && wpendRet > 0
      modifies `wire, `buf, `offset, `len
      ensures Valid() && wire + Pending() == old(wire + Pending())
      ensures ret > 0 ==> buf == null && ret == wpendRet
      ensures ret <= 0 ==> buf == old(buf) && len > 0
      ensures wpendTot > length || (!movingBuffer && wpendAddr != addr) ==>
                ret == -1 && wire == old(wire) && rest == answers
      ensures wpendTot <= length && wpendAddr == addr && hasTransport && answers != [] && answers[0] >= old(len) ==>
                ret == wpendRet && rest == answers[1..]
      ensures wpendTot <= length && wpendAddr == addr && hasTransport && answers != [] && answers[0] <= 0 ==>
                ret == answers[0] && rest == answers[1..] && wire == old(wire)
    {
      hide Lawful;
      if wpendTot > length || (!movingBuffer && wpendAddr != addr) {
        return -1, answers;
      }
      ret, rest := FlushBuffer(answers);
      if ret > 0 {
        ret := wpendRet;
      }
    }

    /** Seals a chunk into the write buffer; false when that is not possible. */
    method SealChunk(chunk: seq<byte>) returns (ok: bool)
      requires Valid() && len == 0
      modifies `buf, `offset, `len, `sequence
      ensures Valid()
      ensures ok ==> seal(old(sequence), chunk) == Some(Pending()) && sequence == old(sequence) + 1 && len > 0
      ensures !ok ==> sequence == old(sequence) && len == 0
      ensures ok <==> old(buf) == null && |chunk| + overhead <= capacity <= 0xffff && seal(old(sequence), chunk).Some?
      ensures len <= |chunk| + overhead
    {
      if buf != null || |chunk| + overhead > capacity || capacity > 0xffff {
        return false;
      }
      var out := new byte[capacity + 7];
      buf, offset, len := out, align, 0;
      var record := seal(sequence, chunk);
      if record.None? {
        return false;
      }
      sequence := sequence + 1;
      forall i | 0 <= i < |record.value| {
        out[align + i] := record.value[i];
      }
      len := |record.value|;
      assert out[offset..offset + len] == record.value;
      ok := true;
    }

    /** Writes one chunk as a record, or goes on with the pending one. */
    method WriteChunk(addr: int, chunk: seq<byte>, answers: seq<int>) returns (ret: int, rest: seq<int>)
      requires Valid() && (len > 0 ==> 0 < wpendRet == wpendTot)
      modifies `wire, `buf, `offset, `len, `sequence, `wpendTot, `wpendAddr, `wpendRet
      ensures Valid() && (len > 0 ==> 0 < wpendRet == wpendTot)
      ensures ret > 0 ==> len == 0 && ret <= |chunk|
      ensures Wrote(seal, old(View()), View(), ret, addr, chunk)
      ensures old(CanWrite(|chunk|)) && chunk != [] && seal(old(sequence), chunk).Some?
              && answers != [] && answers[0] >= capacity ==>
                ret == |chunk| && rest == answers[1..] && buf == null && sequence == old(sequence) + 1
    {
      hide Lawful;
      if len > 0 {
        ret, rest := WritePending(addr, |chunk|, answers);
        return;
      }
      rest := answers;
      if pendingFlight || |chunk| > MAX_PLAIN_LENGTH {
        return -1, rest;
      }
      if |chunk| == 0 {
        return 0, rest;
      }
      var sealed := SealChunk(chunk);
      if !sealed {
        return -1, rest;
      }
      wpendTot, wpendAddr, wpendRet := |chunk|, addr, |chunk|;
      assert wire + Pending() == old(wire + Pending()) + Pending();
      ret, rest := WritePending(addr, |chunk|, answers);
    }

    /** Nothing is pending, the transport is there, and the buffer takes a chunk of n bytes. */
    ghost predicate CanWrite(n: nat)
      reads this
    {
      && buf == null && len == 0 && hasTransport && !pendingFlight
      && n <= MAX_PLAIN_LENGTH && n + overhead <= capacity <= 0xffff
    }

    /** A pending record remembers the size of its chunk. */
    ghost predicate Resumable()
      reads this, buf
    {
      Valid() && (len > 0 ==> 0 < wpendRet == wpendTot)
    }

    /** From k on, every chunk can be sealed, the buffer takes it, and the transport takes
        all it is offered. */
    ghost predicate Smooth(data: seq<byte>, k: nat, answers: seq<int>)
      reads this
    {
      && maxFragment > 0 && CanWrite(maxFragment) && k < |data| && |answers| >= |data| - k
      && (forall a :: a in answers ==> a >= capacity)
      && Records(seal, sequence, data[k..], maxFragment).Some?
    }

    /** How the write stands with k bytes wholly written. */
    ghost predicate Stands(k: nat, data: seq<byte>, addr: int, start: seq<byte>, s: nat)
      requires Valid()
      reads this, buf
    {
      Midway(seal, maxFragment, View(), k, data, addr, start, s)
    }

    /** Exactly the records of the first k bytes are out. */
    ghost predicate IsOut(k: nat, data: seq<byte>, start: seq<byte>, s: nat)
      requires Valid() && k <= |data|
      reads this, buf
    {
      HasRecords(seal, maxFragment, View(), data[..k], start, s)
    }

    /** Writes the chunk of the data that begins at k. */
    method WriteNext(data: seq<byte>, k: nat, addr: int, answers: seq<int>, ghost start: seq<byte>, ghost s: nat)
      returns (ret: int, rest: seq<int>)
      requires Resumable() && k <= |data|
      modifies `wire, `buf, `offset, `len, `sequence, `wpendTot, `wpendAddr, `wpendRet
      ensures Resumable() && (ret > 0 ==> len == 0 && ret <= Min(|data| - k, maxFragment))
      ensures old(Stands(k, data, addr, start, s)) ==>
                if ret <= 0 then Stands(k, data, addr, start, s)
                else IsOut(k + ret, data, start, s) && (k + ret < |data| ==> Stands(k + ret, data, addr, start, s))
      ensures var n := Min(|data| - k, maxFragment);
              old(Smooth(data, k, answers)) ==> ret == n > 0 && (k + n < |data| ==> Smooth(data, k + n, rest))
    {
      hide Lawful, Records, Wrote, Midway, FullChunks, HasRecords;
      var n := Min(|data| - k, maxFragment);
      ghost var easy, before, stood := Smooth(data, k, answers), View(), Stands(k, data, addr, start, s);
      if easy {
        FirstChunk(seal, sequence, data, k, maxFragment);
        assert answers[0] in answers;
      }
      ret, rest := WriteChunk(addr + k, data[k..k + n], answers);
      if easy && k + n < |data| {
        assert forall a :: a in rest ==> a in answers;
      }
      if stood {
        ChunkAdvances(seal, maxFragment, before, View(), ret, k, data, addr, start, s);
        if ret > 0 && k + ret < |data| {
          OneMoreChunk(k, maxFragment);
          BetweenChunks(seal, maxFragment, View(), k + ret, data, addr, start, s);
        }
      }
    }

    /** Writes application data; a result below |data| asks the caller to come back
        with the same data. The ghost arguments say where the write started. */
    method WriteAppData(data: seq<byte>, addr: int, answers: seq<int>, ghost start: seq<byte>, ghost s: nat)
      returns (ret: int, rest: seq<int>)
      requires Resumable()
      modifies `wire, `buf, `offset, `len, `sequence, `wpendTot, `wpendAddr, `wpendRet, `wnum
      ensures Resumable()
      ensures |data| < old(wnum) ==> ret == -1 && View() == old(View()) && wnum == 0
      ensures ret > 0 ==> ret <= |data| && wnum == 0 && len == 0
      ensures ret > 0 && !partialWrites ==> ret == |data|
      ensures old(Stands(wnum, data, addr, start, s)) ==>
                if ret > 0 then IsOut(ret, data, start, s) else Stands(wnum, data, addr, start, s)
      ensures old(wnum == 0 && !partialWrites && Smooth(data, 0, answers)) ==> ret == |data|
    {
      hide Lawful, Smooth, Midway, HasRecords;
      ghost var retried := Stands(wnum, data, addr, start, s);
      ghost var easy := wnum == 0 && !partialWrites && Smooth(data, 0, answers);
      var tot := wnum;
      wnum := 0;
      rest := answers;
      MidwayWithin(seal, maxFragment, View(), tot, data, addr, start, s);
      if |data| < tot {
        return -1, rest;
      }
      var n := |data| - tot;
      while true
        invariant Resumable() && tot + n == |data| && wnum == 0 && n >= 0
        invariant retried ==> Stands(tot, data, addr, start, s)
        invariant easy ==> Smooth(data, tot, rest)
        decreases n
      {
        ret, rest := WriteNext(data, tot, addr, rest, start, s);
        if ret <= 0 {
          wnum := tot;
          return;
        }
        if ret == n || partialWrites {
          ret := tot + ret;
          return;
        }
        n := n - ret;
        tot := tot + ret;
      }
    }

    /** A caller that retries with the same data until all of it is reported written,
        whatever the transport answers: exactly its records reach the wire, once. Should it
        give up, exactly the records of a front part of the data are on the wire or
        pending behind it, each once. */
    method WriteUntilDone(data: seq<byte>, addr: int, attempts: seq<seq<int>>) returns (done: bool)
      requires Resumable() && len == 0 && wnum == 0 && !partialWrites && data != []
      modifies `wire, `buf, `offset, `len, `sequence, `wpendTot, `wpendAddr, `wpendRet, `wnum
      ensures Resumable()
      ensures done ==> len == 0 && wnum == 0
      ensures done ==> var r := Records(seal, old(sequence), data, maxFragment);
                       r.Some? && wire == old(wire) + r.value.0 && sequence == r.value.1
      ensures !done ==> Midway(seal, maxFragment, View(), wnum, data, addr, old(wire), old(sequence))
    {
      hide Lawful, FullChunks, Records;
      ghost var start, s := wire + Pending(), sequence;
      NothingWrittenYet(seal, maxFragment, View(), data, addr);
      assert start == wire;
      for i := 0 to |attempts|
        invariant Resumable() && Stands(wnum, data, addr, start, s)
      {
        var ret, rest := WriteAppData(data, addr, attempts[i], start, s);
        if ret > 0 {
          assert data[..ret] == data && wire + Pending() == wire;
          return true;
        }
      }
      done := false;
    }
  }

  lemma NothingWrittenYet(seal: Seal, max: nat, v: Snapshot, data: seq<byte>, addr: int)
    requires max > 0 && !v.waiting
    ensures Midway(seal, max, v, 0, data, addr, v.out, v.sequence)
  {
    assert data[..0] == [] && v.out + [] == v.out;
  }
}
