/**
 Hash functions, as far as the storage format depends on them: a function from byte strings to
 32-byte digests. Where security is the point, it is assumed only that the byte strings at hand
 do not collide.
 */
module Hashing {
  import opened Bytes

  type Digest = d: seq<byte> | |d| == 32 witness seq(32, _ => 0)

  type Hash = seq<byte> -> Digest

  ghost predicate NoCollision(h: Hash, inputs: set<seq<byte>>)
  {
    forall x, y :: x in inputs && y in inputs && h(x) == h(y) ==> x == y
  }

  /** The bytes of a domain tag. */
  function Ascii(s: string): (r: seq<byte>)
    ensures |r| == |s|
  {
    seq(|s|, i requires 0 <= i < |s| => s[i] as int % 256)
  }
}
