module Bytes {

  type byte = x: int | 0 <= x < 256

  /** `before` with the bytes of `data` from `at` on. */
  function Overwrite(before: seq<byte>, at: nat, data: seq<byte>): (after: seq<byte>)
    requires at + |data| <= |before|
    ensures |after| == |before|
  {
    before[..at] + data + before[at + |data|..]
  }
}
