/** Image preparation: the raw firmware file is zero-padded up to the next
    whole 32-byte block, and an image outside the size window is refused
    before the serial port is touched. */
module Image {
  import opened Bytes

  /** Transfer granularity: one block of payload per packet. */
  const BlockSize: nat := 32

  /** Smallest and largest padded image the flasher accepts. */
  const MinImage: nat := 40000
  const MaxImage: nat := 65536

  /** `Math.Ceiling(n / 32.0) * 32`, computed exactly: the smallest multiple
      of the block size that is at least n. */
  function PaddedLength(n: nat): (r: nat)
    ensures r % BlockSize == 0
    ensures n <= r < n + BlockSize
  {
    (n + BlockSize - 1) / BlockSize * BlockSize
  }

  /** PaddedLength(n) is the least such multiple: no multiple of the block
      size that is at least n is smaller. */
  lemma PaddedLengthLeast(n: nat, m: nat)
    requires m % BlockSize == 0 && n <= m
    ensures PaddedLength(n) <= m
  {
  }

  /** The firmware buffer: the raw bytes followed by zeros. */
  function Pad(bin: seq<byte>): (fw: seq<byte>)
    ensures |fw| == PaddedLength(|bin|)
    ensures fw[..|bin|] == bin
    ensures forall k :: |bin| <= k < |fw| ==> fw[k] == 0
  {
    bin + seq(PaddedLength(|bin|) - |bin|, _ => 0)
  }

  /** The size gate applied to the padded length. */
  predicate SizeOk(len: nat)
  {
    MinImage <= len <= MaxImage
  }

  /** An accepted image holds at most 2048 blocks, so every block index fits
      in the 16 bits a packet reserves for it. */
  lemma AcceptedImageBlocks(len: nat)
    requires SizeOk(len)
    ensures 1250 <= len / BlockSize <= 2048
  {
  }

  /** Allocates the zero-initialised firmware buffer and copies the raw bytes
      to its front. */
  method PadImage(bin: array<byte>) returns (firmware: array<byte>)
    ensures firmware[..] == Pad(bin[..])
  {
    var len := (bin.Length + BlockSize - 1) / BlockSize * BlockSize;
    firmware := new byte[len](_ => 0);
    var k := 0;
    while k < bin.Length
      invariant k <= bin.Length <= len
      invariant firmware[..k] == bin[..k]
      invariant forall m :: k <= m < len ==> firmware[m] == 0
    {
      firmware[k] := bin[k];
      k := k + 1;
    }
    assert firmware[..] == firmware[..bin.Length] + firmware[bin.Length..];
  }
}
