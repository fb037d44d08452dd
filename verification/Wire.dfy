/** The big-endian integers of the DTLS wire formats, and their constants. */
module Wire {
  import opened Common

  const RT_HEADER_LENGTH: nat := 13
  const RT_CHANGE_CIPHER_SPEC: byte := 20
  const RT_ALERT: byte := 21
  const RT_HANDSHAKE: byte := 22
  const RT_APPLICATION_DATA: byte := 23

  /** SSL_MAX_HANDSHAKE_FLIGHT: messages in a flight, and slots in the receiver's ring. */
  const MAX_FLIGHT: nat := 7

  function U16(b: seq<byte>): (n: nat)
    requires |b| == 2
    ensures n < 0x1_0000
  {
    0x100 * (b[0] as nat) + b[1]
  }

  function PutU16(n: nat): (b: seq<byte>)
    requires n < 0x1_0000
    ensures |b| == 2
  {
    [n / 0x100, n % 0x100]
  }

  lemma U16RoundTrip(n: nat)
    requires n < 0x1_0000
    ensures U16(PutU16(n)) == n
  {}

  function U24(b: seq<byte>): (n: nat)
    requires |b| == 3
    ensures n < 0x100_0000
  {
    0x1_0000 * (b[0] as nat) + 0x100 * (b[1] as nat) + b[2]
  }

  function PutU24(n: nat): (b: seq<byte>)
    requires n < 0x100_0000
    ensures |b| == 3
  {
    [n / 0x1_0000, n / 0x100 % 0x100, n % 0x100]
  }

  lemma U24RoundTrip(n: nat)
    requires n < 0x100_0000
    ensures U24(PutU24(n)) == n
  {}
}
