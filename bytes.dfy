/** Bytes as the flasher handles them: C# `byte` values, and the truncating
    one-byte sum used as the block packet checksum. */
module Bytes {

  /** An unsigned 8-bit value (C# `byte`). */
  type byte = b: int | 0 <= b < 256

  /** Arithmetic sum of a byte sequence, accumulated from the front. */
  function Sum(s: seq<byte>): nat
  {
    if s == [] then 0 else Sum(s[..|s| - 1]) + s[|s| - 1]
  }

  /** The packet checksum: the sum of the payload truncated to a byte, as
      produced by repeated `byte += byte` with wrap-around. No two's
      complement is taken. */
  function Checksum(payload: seq<byte>): byte
  {
    Sum(payload) % 256
  }

  /** Extending a sequence by one byte adds that byte to the sum. */
  lemma SumSnoc(s: seq<byte>, x: byte)
    ensures Sum(s + [x]) == Sum(s) + x
  {
    assert (s + [x])[..|s|] == s;
  }

  /** A byte-wrapping accumulator that has seen a prefix holds the checksum of
      that prefix. */
  lemma ChecksumStep(s: seq<byte>, k: nat)
    requires k < |s|
    ensures Checksum(s[..k + 1]) == (Checksum(s[..k]) + s[k]) % 256
  {
    assert s[..k + 1] == s[..k] + [s[k]];
    SumSnoc(s[..k], s[k]);
  }

  /** An all-zero payload has checksum 0. */
  lemma {:induction false} ChecksumOfZeros(s: seq<byte>)
    requires forall k :: 0 <= k < |s| ==> s[k] == 0
    ensures Sum(s) == 0 && Checksum(s) == 0
  {
    if s != [] {
      ChecksumOfZeros(s[..|s| - 1]);
    }
  }
}
