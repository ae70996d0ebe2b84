/** Octets and the big-endian ("network order") integer reads that the
    dissectors use: `pntohs`, `tvb_get_ntohs` and `tvb_get_ntohl`. */
module Bytes {

  type byte = b: int | 0 <= b < 256

  const U16_LIMIT: int := 0x1_0000
  const U32_LIMIT: int := 0x1_0000_0000

  /** The unsigned 16-bit value stored big-endian at `s[i]`, `s[i+1]`. */
  function U16(s: seq<byte>, i: int): (v: int)
    requires 0 <= i && i + 2 <= |s|
    ensures 0 <= v < U16_LIMIT
    ensures v / 256 == s[i] && v % 256 == s[i + 1]
  {
    (s[i] as int) * 256 + (s[i + 1] as int)
  }

  /** The unsigned 32-bit value stored big-endian at `s[i]` .. `s[i+3]`. */
  function U32(s: seq<byte>, i: int): (v: int)
    requires 0 <= i && i + 4 <= |s|
    ensures 0 <= v < U32_LIMIT
    ensures v / U16_LIMIT == U16(s, i) && v % U16_LIMIT == U16(s, i + 2)
  {
    U16(s, i) * U16_LIMIT + U16(s, i + 2)
  }

  /** The two octets that encode `v` big-endian. */
  function BE16(v: int): (s: seq<byte>)
    requires 0 <= v < U16_LIMIT
    ensures |s| == 2
  {
    [v / 256, v % 256]
  }

  /** The four octets that encode `v` big-endian. */
  function BE32(v: int): (s: seq<byte>)
    requires 0 <= v < U32_LIMIT
    ensures |s| == 4
  {
    BE16(v / U16_LIMIT) + BE16(v % U16_LIMIT)
  }

  /** Reading back an encoded 16-bit value, wherever it sits in a buffer,
      yields the value. */
  lemma U16OfBE16(pre: seq<byte>, v: int, post: seq<byte>)
    requires 0 <= v < U16_LIMIT
    ensures U16(pre + BE16(v) + post, |pre|) == v
  {
    var s := pre + BE16(v) + post;
    assert s[|pre|] == v / 256 && s[|pre| + 1] == v % 256;
  }

  /** Reading back an encoded 32-bit value, wherever it sits in a buffer,
      yields the value. */
  lemma U32OfBE32(pre: seq<byte>, v: int, post: seq<byte>)
    requires 0 <= v < U32_LIMIT
    ensures U32(pre + BE32(v) + post, |pre|) == v
  {
    var s := pre + BE32(v) + post;
    assert s == pre + BE16(v / U16_LIMIT) + (BE16(v % U16_LIMIT) + post);
    U16OfBE16(pre, v / U16_LIMIT, BE16(v % U16_LIMIT) + post);
    assert s == (pre + BE16(v / U16_LIMIT)) + BE16(v % U16_LIMIT) + post;
    U16OfBE16(pre + BE16(v / U16_LIMIT), v % U16_LIMIT, post);
  }
}
