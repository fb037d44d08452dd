/** What the other modules share. */
module Common {
  datatype Option<+T> = None | Some(value: T)

  type byte = x: nat | x < 0x100

  /** The longest record body that may be sealed or come out of opening. */
  const MAX_PLAIN_LENGTH: nat := 16384

  function Min(a: nat, b: nat): nat {
    if a < b then a else b
  }

  /** A buffer with e written at a position. */
  function Overwrite(s: seq<byte>, at: nat, e: seq<byte>): (r: seq<byte>)
    requires at + |e| <= |s|
    ensures |r| == |s|
  {
    s[..at] + e + s[at + |e|..]
  }
}
