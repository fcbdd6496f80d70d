/** Byte-level vocabulary shared by the wire codecs, and the usual result types. */
module Common {

  /** One octet on the wire; arithmetic on it wraps as in the source. */
  type byte = bv8

  datatype Option<+T> = None | Some(value: T)

  datatype Result<+T, +E> = Ok(value: T) | Err(error: E)

  /** A non-negative `int` cut down to its low eight bits. */
  function LowByte(n: nat): byte {
    (n % 256) as bv8
  }

  /** `binary.BigEndian.Uint16`, widened to `int`. */
  function Be16(hi: byte, lo: byte): nat {
    (hi as int) * 256 + lo as int
  }

  /** `binary.BigEndian.PutUint16` of a value already cut down to sixteen bits. */
  function PutBe16(n: nat): (s: seq<byte>)
    ensures |s| == 2
  {
    [LowByte(n / 256), LowByte(n)]
  }

  lemma Be16RoundTrip(n: nat)
    requires n < 65536
    ensures Be16(PutBe16(n)[0], PutBe16(n)[1]) == n
  {
    ByteOfInt(n / 256);
    ByteOfInt(n % 256);
  }

  lemma Be16Zero()
    ensures Be16(0, 0) == 0
  {
  }

  lemma ByteOfInt(n: nat)
    requires n < 256
    ensures (n as bv8) as int == n
    ensures LowByte(n) as int == n
  {
    assert n % 256 == n;
  }

  /** The bytes of all frames, one after the other. */
  function Joined(frames: seq<seq<byte>>): seq<byte> {
    if frames == [] then [] else frames[0] + Joined(frames[1..])
  }
}
