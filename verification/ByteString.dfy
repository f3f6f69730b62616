/** Bytes, and overwriting part of a string of them. */
module ByteString {
  type Byte = b: int | 0 <= b < 256

  function Overwrite(s: seq<Byte>, at: nat, bytes: seq<Byte>): (r: seq<Byte>)
    requires at + |bytes| <= |s|
    ensures |r| == |s|
    ensures forall x | 0 <= x < |s| :: r[x] == if at <= x < at + |bytes| then bytes[x - at] else s[x]
  {
    s[..at] + bytes + s[at + |bytes|..]
  }
}
