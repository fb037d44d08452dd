/**
 The descriptors that the field iterator walks for a message.
 */
module Layout {
  import opened Schema
  import FieldIter

  function DescOf(f: Field): FieldIter.Desc {
    var kind :=
      match f.htype
      case Required => FieldIter.Kind.Required
      case Optional(_) => FieldIter.Kind.Optional
      case Repeated => FieldIter.Kind.Repeated
      case Oneof(_) => FieldIter.Kind.Oneof;
    FieldIter.Desc(f.tag, false, kind, FieldIter.Static, f.dataOffset, f.sizeOffset, f.dataSize, f.arraySize)
  }

  function Descs(m: Message): (r: seq<FieldIter.Desc>)
    ensures |r| == |m.fields|
  {
    seq(|m.fields|, i requires 0 <= i < |m.fields| => DescOf(m.fields[i]))
  }

  /** Static allocation only, so no pointer ever counts. */
  function BuildOf(c: Config): FieldIter.Build {
    FieldIter.Build(c.sizeMax, 0)
  }
}
