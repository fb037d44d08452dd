/**
 The field iterator: it walks the descriptors of a message cyclically and keeps, step by
 step, where the current field's data and size live in the struct.
 */
module FieldIter {
  datatype Kind = Required | Optional | Repeated | Oneof

  datatype Allocation = Static | Pointer | Callback

  /** A field descriptor; dataOffset is relative to the end of the previous field, and
      sizeOffset to the field's own data. */
  datatype Desc = Desc(
    tag: nat, extension: bool, kind: Kind, atype: Allocation,
    dataOffset: nat, sizeOffset: int, dataSize: nat, arraySize: nat)

  /** The descriptors before the terminator, which is the one with tag zero. */
  predicate WellFormed(fields: seq<Desc>) {
    forall i :: 0 <= i < |fields| ==> fields[i].tag != 0
  }

  /** The build: PB_SIZE_MAX marks a union member after the first, and a pointer has
      this size. */
  datatype Build = Build(sizeMax: nat, pointerSize: nat)

  /** The bytes a field takes up in the struct. */
  function Footprint(c: Build, d: Desc): nat {
    if d.atype.Static? && d.kind.Repeated? then d.dataSize * d.arraySize
    else if d.atype.Pointer? then c.pointerSize
    else d.dataSize
  }

  /** Field i shares the memory of the union member before it. */
  predicate InUnion(c: Build, fields: seq<Desc>, i: nat)
    requires 0 < i < |fields|
  {
    fields[i - 1].kind.Oneof? && fields[i].kind.Oneof? && fields[i].dataOffset == c.sizeMax
  }

  /** The first member of the union that field i belongs to; i itself outside unions. */
  function Base(c: Build, fields: seq<Desc>, i: nat): (b: nat)
    requires i < |fields|
    ensures b <= i && (b > 0 ==> !InUnion(c, fields, b))
  {
    if i > 0 && InUnion(c, fields, i) then Base(c, fields, i - 1) else i
  }

  /** Where a field's data is, relative to the struct. */
  function DataAt(c: Build, fields: seq<Desc>, i: nat): int
    requires i < |fields|
  {
    var b := Base(c, fields, i);
    fields[b].dataOffset + if b == 0 then 0 else DataAt(c, fields, b - 1) + Footprint(c, fields[b - 1])
  }

  /** Where a field's count or flag is. */
  function SizeAt(c: Build, fields: seq<Desc>, i: nat): int
    requires i < |fields|
  {
    DataAt(c, fields, i) + fields[Base(c, fields, i)].sizeOffset
  }

  /** How many required fields come before position i. */
  function RequiredBefore(fields: seq<Desc>, i: nat): (n: nat)
    requires i <= |fields|
    ensures n <= i
  {
    if i == 0 then 0 else RequiredBefore(fields, i - 1) + if fields[i - 1].kind.Required? then 1 else 0
  }

  /** Position k steps further round. */
  function Ahead(n: nat, start: nat, k: nat): (i: nat)
    requires start < n && k <= n
    ensures i < n
  {
    if start + k < n then start + k else start + k - n
  }

  predicate Matches(fields: seq<Desc>, i: nat, tag: nat)
    requires i < |fields|
  {
    fields[i].tag == tag && !fields[i].extension
  }

  lemma NextAt(c: Build, fields: seq<Desc>, i: nat)
    requires i + 1 < |fields|
    ensures RequiredBefore(fields, i + 1) == RequiredBefore(fields, i) + if fields[i].kind.Required? then 1 else 0
    ensures InUnion(c, fields, i + 1) ==>
      DataAt(c, fields, i + 1) == DataAt(c, fields, i) && SizeAt(c, fields, i + 1) == SizeAt(c, fields, i)
    ensures !InUnion(c, fields, i + 1) ==>
      && DataAt(c, fields, i + 1) == DataAt(c, fields, i) + Footprint(c, fields[i]) + fields[i + 1].dataOffset
      && SizeAt(c, fields, i + 1) == DataAt(c, fields, i + 1) + fields[i + 1].sizeOffset
  {
    hide Footprint;
  }

  class Iterator {
    const c: Build
    const fields: seq<Desc>
    const dest: int
    var pos: nat
    var pData: int
    var pSize: int
    var requiredIndex: nat

    /** Everything the iterator holds is determined by its position. */
    ghost predicate Valid()
      reads this
    {
      && WellFormed(fields)
      && if fields == [] then pos == 0 && requiredIndex == 0 else
         && pos < |fields|
         && pData == dest + DataAt(c, fields, pos)
         && pSize == dest + SizeAt(c, fields, pos)
         && requiredIndex == RequiredBefore(fields, pos)
    }

    /** pb_field_iter_begin. */
    constructor (c: Build, fields: seq<Desc>, dest: int)
      requires WellFormed(fields)
      ensures Valid() && pos == 0 && this.c == c && this.fields == fields && this.dest == dest
    {
      this.c, this.fields, this.dest := c, fields, dest;
      pos := 0;
      requiredIndex := 0;
      if fields == [] {
        pData, pSize := dest, dest;
      } else {
        pData := dest + fields[0].dataOffset;
        pSize := dest + fields[0].dataOffset + fields[0].sizeOffset;
      }
    }

    method Restart()
      requires WellFormed(fields)
      modifies this
      ensures Valid() && pos == 0
    {
      pos := 0;
      requiredIndex := 0;
      if fields == [] {
        pData, pSize := dest, dest;
      } else {
        pData := dest + fields[0].dataOffset;
        pSize := pData + fields[0].sizeOffset;
      }
    }

    /** The tag at the current position; the terminator's is zero. */
    function CurrentTag(): nat
      reads this
    {
      if pos < |fields| then fields[pos].tag else 0
    }

    /** pb_field_iter_next. */
    method Next() returns (more: bool)
      requires Valid()
      modifies this
      ensures Valid()
      ensures more == (old(pos) + 1 < |fields|)
      ensures pos == if more then old(pos) + 1 else 0
    {
      hide DataAt, SizeAt, RequiredBefore, Footprint;
      if CurrentTag() == 0 {
        return false;
      }
      if pos + 1 == |fields| {
        Restart();
        return false;
      }
      Advance();
      more := true;
    }

    /** The pointers move on by the size of the field left, except inside a union. */
    method Advance()
      requires Valid() && pos + 1 < |fields|
      modifies `pos, `pData, `pSize, `requiredIndex
      ensures Valid() && pos == old(pos) + 1
    {
      hide DataAt, SizeAt, RequiredBefore, Footprint, WellFormed;
      var prev, next := fields[pos], fields[pos + 1];
      NextAt(c, fields, pos);
      pos := pos + 1;
      if prev.kind.Oneof? && next.kind.Oneof? && next.dataOffset == c.sizeMax {
        return;
      }
      var prevSize := Footprint(c, prev);
      if prev.kind.Required? {
        requiredIndex := requiredIndex + 1;
      }
      pData := pData + prevSize + next.dataOffset;
      pSize := pData + next.sizeOffset;
    }

    /** pb_field_iter_find: at most one lap, to the next matching field from here on; the
        position comes back to where it was when there is none. */
    method Find(tag: nat) returns (found: bool, ghost steps: nat)
      requires Valid()
      modifies this
      ensures Valid()
      ensures tag != 0 ==> (found <==> exists i :: 0 <= i < |fields| && Matches(fields, i, tag))
      ensures tag == 0 ==> (found <==> fields == [])
      ensures !found ==> pos == old(pos)
      ensures found && fields != [] ==>
        && Matches(fields, pos, tag)
        && steps < |fields| && pos == Ahead(|fields|, old(pos), steps)
        && forall k :: 0 <= k < steps ==> !Matches(fields, Ahead(|fields|, old(pos), k), tag)
    {
      hide DataAt, SizeAt, RequiredBefore;
      var start := pos;
      steps := 0;
      if fields == [] {
        return tag == 0, 0;
      }
      while true
        invariant Valid() && steps < |fields| && pos == Ahead(|fields|, start, steps)
        invariant forall k :: 0 <= k < steps ==> !Matches(fields, Ahead(|fields|, start, k), tag)
        decreases |fields| - steps
      {
        if CurrentTag() == tag && !fields[pos].extension {
          assert Matches(fields, pos, tag);
          return true, steps;
        }
        var _ := Next();
        steps := steps + 1;
        if pos == start {
          LapSeesAll(fields, start, tag);
          return false, steps;
        }
      }
    }
  }

  lemma LapSeesAll(fields: seq<Desc>, start: nat, tag: nat)
    requires start < |fields|
    requires forall k :: 0 <= k < |fields| ==> !Matches(fields, Ahead(|fields|, start, k), tag)
    ensures forall i :: 0 <= i < |fields| ==> !Matches(fields, i, tag)
  {
    forall i | 0 <= i < |fields| ensures !Matches(fields, i, tag) {
      var k := if i >= start then i - start else i + |fields| - start;
      assert Ahead(|fields|, start, k) == i;
    }
  }

  // ----- what the positions mean ---------------------------------------------

  /** The members of one union share their data and their tag's location, and the first
      field after it starts behind the last member. */
  lemma {:induction false} UnionSharesMemory(c: Build, fields: seq<Desc>, i: nat, j: nat)
    requires i <= j < |fields|
    requires forall k :: i < k <= j ==> InUnion(c, fields, k)
    ensures DataAt(c, fields, j) == DataAt(c, fields, i) && SizeAt(c, fields, j) == SizeAt(c, fields, i)
    ensures j + 1 < |fields| && !InUnion(c, fields, j + 1) ==>
      DataAt(c, fields, j + 1) == DataAt(c, fields, i) + Footprint(c, fields[j]) + fields[j + 1].dataOffset
    decreases j
  {
    if i < j {
      UnionSharesMemory(c, fields, i, j - 1);
      assert InUnion(c, fields, j);
      assert Base(c, fields, j) == Base(c, fields, j - 1);
    }
  }

  /** Outside unions, a field's memory does not overlap an earlier field's. */
  lemma {:induction false} FieldsDoNotOverlap(c: Build, fields: seq<Desc>, i: nat, j: nat)
    requires i < j < |fields|
    requires forall k :: i < k <= j ==> !InUnion(c, fields, k)
    ensures DataAt(c, fields, i) + Footprint(c, fields[i]) <= DataAt(c, fields, j)
    decreases j
  {
    assert !InUnion(c, fields, j);
    if i + 1 < j {
      FieldsDoNotOverlap(c, fields, i, j - 1);
    }
  }

  /** Element k of a static array lies before the data of every later field outside the
      union; so do a pointer and a single field's data. */
  lemma ElementsDoNotOverlap(c: Build, fields: seq<Desc>, i: nat, j: nat, k: nat)
    requires i < j < |fields|
    requires forall l :: i < l <= j ==> !InUnion(c, fields, l)
    ensures var d := fields[i];
            && (d.atype.Static? && d.kind.Repeated? && k < d.arraySize ==>
                  DataAt(c, fields, i) + k * d.dataSize + d.dataSize <= DataAt(c, fields, j))
            && (d.atype.Pointer? ==> DataAt(c, fields, i) + c.pointerSize <= DataAt(c, fields, j))
            && (!d.atype.Pointer? && !d.kind.Repeated? ==> DataAt(c, fields, i) + d.dataSize <= DataAt(c, fields, j))
  {
    hide DataAt;
    var d := fields[i];
    FieldsDoNotOverlap(c, fields, i, j);
    if d.atype.Static? && d.kind.Repeated? && k < d.arraySize {
      ElementInArray(d.dataSize, k, d.arraySize);
    }
  }

  lemma ElementInArray(size: nat, k: nat, n: nat)
    requires k < n
    ensures k * size + size <= size * n
  {
    assert (k + 1) * size <= n * size;
  }

  /** The next field follows directly, at its own offset from the last element. */
  lemma NextFollowsArray(c: Build, fields: seq<Desc>, i: nat)
    requires i + 1 < |fields| && !InUnion(c, fields, i + 1)
    requires fields[i].atype.Static? && fields[i].kind.Repeated? && fields[i].arraySize > 0
    ensures var d := fields[i];
            DataAt(c, fields, i + 1)
            == DataAt(c, fields, i) + (d.arraySize - 1) * d.dataSize + d.dataSize + fields[i + 1].dataOffset
  {
    hide DataAt, SizeAt, RequiredBefore;
    NextAt(c, fields, i);
    var d := fields[i];
    assert (d.arraySize - 1) * d.dataSize + d.dataSize == d.dataSize * d.arraySize;
  }
}
