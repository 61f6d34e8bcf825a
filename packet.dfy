/** The 36-byte frames written to the radio: the fixed initialisation packet
    sent once during the handshake, and the block packets
    `[opcode, index high, index low, checksum, payload(32)]`. */
module Packet {
  import opened Bytes
  import opened Image

  datatype Option<T> = None | Some(value: T)

  /** Length of every frame on the wire. */
  const PacketSize: nat := 36

  /** The initialisation packet: opcode 0xA0, five handshake bytes, then thirty
      bytes of 0x55 filler. */
  const InitPacket: seq<byte> :=
    [0xA0, 0xEE, 0x74, 0x71, 0x07, 0x74, 0x55, 0x55,
     0x55, 0x55, 0x55, 0x55, 0x55, 0x55, 0x55, 0x55,
     0x55, 0x55, 0x55, 0x55, 0x55, 0x55, 0x55, 0x55,
     0x55, 0x55, 0x55, 0x55, 0x55, 0x55, 0x55, 0x55,
     0x55, 0x55, 0x55, 0x55]

  /** Whether a block is the last one of the image. On the wire the last block
      is flagged by bumping the opcode from 0xA1 to 0xA2. */
  datatype BlockKind = DataBlock | FinalBlock

  function Opcode(kind: BlockKind): (op: byte)
    ensures op == 0xA1 || op == 0xA2
    ensures op == 0xA2 <==> kind == FinalBlock
  {
    match kind
    case DataBlock => 0xA1
    case FinalBlock => 0xA1 + 1
  }

  /** One block as the protocol means it, before serialisation. */
  datatype Frame = Frame(kind: BlockKind, index: nat, payload: seq<byte>)

  /** A frame the wire format can carry without loss: a full block and an
      index that fits in 16 bits. */
  predicate Representable(f: Frame)
  {
    |f.payload| == BlockSize && f.index < 0x1_0000
  }

  /** Serialisation of a block frame. The index is written as
      `(blk >> 8) & 0xff` and `blk & 0xff`, so it is truncated to 16 bits. */
  function Encode(f: Frame): (p: seq<byte>)
    requires |f.payload| == BlockSize
    ensures |p| == PacketSize
    ensures p[4..] == f.payload
  {
    [Opcode(f.kind), f.index / 256 % 256, f.index % 256, Checksum(f.payload)] + f.payload
  }

  /** How a receiver reads a block packet back; None for anything that is not
      a well-formed block packet. */
  function Decode(p: seq<byte>): (r: Option<Frame>)
  {
    if |p| != PacketSize then None
    else if p[0] != Opcode(DataBlock) && p[0] != Opcode(FinalBlock) then None
    else if p[3] != Checksum(p[4..]) then None
    else Some(Frame(if p[0] == Opcode(FinalBlock) then FinalBlock else DataBlock,
                    p[1] as int * 256 + p[2], p[4..]))
  }

  /** The index bytes hold the block index exactly when it fits in 16 bits. */
  lemma IndexBytes(index: nat)
    requires index < 0x1_0000
    ensures index / 256 % 256 * 256 + index % 256 == index
  {
    assert index / 256 < 256;
  }

  /** Decoding undoes encoding for every representable frame. */
  lemma DecodeEncode(f: Frame)
    requires Representable(f)
    ensures Decode(Encode(f)) == Some(f)
  {
    IndexBytes(f.index);
    var p := Encode(f);
    assert p[1] as int * 256 + p[2] == f.index;
  }

  /** Every packet that decodes is the encoding of the frame it decodes to. */
  lemma EncodeDecode(p: seq<byte>)
    requires Decode(p).Some?
    ensures Representable(Decode(p).value)
    ensures Encode(Decode(p).value) == p
  {
    var f := Decode(p).value;
    assert f.index == p[1] as int * 256 + p[2];
    assert f.index / 256 == p[1];
    assert f.index % 256 == p[2];
    assert Encode(f) == p;
  }

  /** The init packet is a full frame of opcode 0xA0, five handshake bytes and
      thirty bytes of 0x55, and is not mistaken for a block packet. */
  lemma InitIsNotBlock()
    ensures |InitPacket| == PacketSize
    ensures InitPacket[0] == 0xA0
    ensures forall k :: 6 <= k < PacketSize ==> InitPacket[k] == 0x55
    ensures Decode(InitPacket) == None
  {
  }

  /** Block `blk` of the firmware: payload `fw[32*blk..32*blk+32]`, marked final
      when its end offset reaches the image length (`i + 32 >= len`). */
  function BlockFrame(fw: seq<byte>, blk: nat): (f: Frame)
    requires BlockSize * blk + BlockSize <= |fw|
    ensures |f.payload| == BlockSize && f.index == blk
  {
    var i := BlockSize * blk;
    Frame(if i + BlockSize >= |fw| then FinalBlock else DataBlock, blk, fw[i..i + BlockSize])
  }

  /** The wire bytes of block `blk`. */
  function BlockPacket(fw: seq<byte>, blk: nat): seq<byte>
    requires BlockSize * blk + BlockSize <= |fw|
  {
    Encode(BlockFrame(fw, blk))
  }

  /** Number of blocks of a padded image. */
  function NumBlocks(fw: seq<byte>): nat
  {
    |fw| / BlockSize
  }

  /** The packets of blocks `from` up to (excluding) `to`, in order. */
  function Packets(fw: seq<byte>, from: nat, to: nat): (ps: seq<seq<byte>>)
    requires from <= to <= NumBlocks(fw)
    ensures |ps| == to - from
    decreases (to as int) - from
  {
    if from == to then [] else [BlockPacket(fw, from)] + Packets(fw, from + 1, to)
  }

  /** Element k of `Packets(fw, from, to)` is the packet of block `from + k`. */
  lemma {:induction false} PacketsAt(fw: seq<byte>, from: nat, to: nat, k: nat)
    requires from <= to <= NumBlocks(fw) && k < to - from
    ensures Packets(fw, from, to)[k] == BlockPacket(fw, from + k)
    decreases (to as int) - from
  {
    if k > 0 {
      PacketsAt(fw, from + 1, to, k - 1);
    }
  }

  /** The packets of all blocks of a padded image, in block order. */
  function ImagePackets(fw: seq<byte>): (ps: seq<seq<byte>>)
    ensures |ps| == NumBlocks(fw)
  {
    Packets(fw, 0, NumBlocks(fw))
  }

  /** Because the image is a whole number of blocks, the `i + 32 >= len` test
      flags exactly the last block; the block's packet carries its own slice
      of the firmware, its sum as checksum and its index. */
  lemma BlockPacketLayout(fw: seq<byte>, blk: nat)
    requires |fw| % BlockSize == 0 && blk < NumBlocks(fw)
    ensures BlockSize * blk + BlockSize <= |fw|
    ensures var p := BlockPacket(fw, blk);
      && |p| == PacketSize
      && (p[0] == 0xA2 <==> blk == NumBlocks(fw) - 1)
      && (p[0] == 0xA1 <==> blk < NumBlocks(fw) - 1)
      && p[3] == Sum(fw[BlockSize * blk..BlockSize * blk + BlockSize]) % 256
      && p[4..] == fw[BlockSize * blk..BlockSize * blk + BlockSize]
      && (blk < 0x1_0000 ==> p[1] as int * 256 + p[2] == blk)
  {
    if blk < 0x1_0000 {
      IndexBytes(blk);
    }
  }

  /** A receiver decodes packet j of an image of at most 65536 blocks back to
      block j, flagged final exactly when it is the last block. */
  lemma ImagePacketDecodes(fw: seq<byte>, j: nat)
    requires |fw| % BlockSize == 0 && j < NumBlocks(fw) <= 0x1_0000
    ensures BlockSize * j + BlockSize <= |fw|
    ensures Decode(ImagePackets(fw)[j]) == Some(BlockFrame(fw, j))
    ensures BlockFrame(fw, j).kind == FinalBlock <==> j + 1 == NumBlocks(fw)
  {
    PacketsAt(fw, 0, NumBlocks(fw), j);
    DecodeEncode(BlockFrame(fw, j));
  }

  /** `Array.Copy(firmware, i, pkt, 4, 32)`: the block's payload goes to bytes
      4..35 of the packet, the header bytes are untouched. */
  method CopyPayload(firmware: array<byte>, i: nat, pkt: array<byte>)
    requires pkt.Length == PacketSize && i + BlockSize <= firmware.Length && pkt != firmware
    modifies pkt
    ensures pkt[..4] == old(pkt[..4])
    ensures pkt[4..] == firmware[i..i + BlockSize]
  {
    var k := 0;
    while k < BlockSize
      invariant k <= BlockSize
      invariant pkt[..4] == old(pkt[..4])
      invariant pkt[4..4 + k] == firmware[i..i + k]
    {
      pkt[4 + k] := firmware[i + k];
      k := k + 1;
    }
    assert pkt[4..] == pkt[4..4 + BlockSize];
  }

  /** The loop `pkt[3] += pkt[j]` for j = 4..35 on a zero byte 3: byte 3
      ends up holding the checksum of the payload, nothing else changes. */
  method AddChecksum(pkt: array<byte>)
    requires pkt.Length == PacketSize && pkt[3] == 0
    modifies pkt
    ensures pkt[..3] == old(pkt[..3]) && pkt[4..] == old(pkt[4..])
    ensures pkt[3] == Checksum(pkt[4..])
  {
    ghost var payload := pkt[4..];
    var j := 4;
    while j < PacketSize
      invariant 4 <= j <= PacketSize
      invariant pkt[..3] == old(pkt[..3]) && pkt[4..] == payload
      invariant pkt[3] == Checksum(payload[..j - 4])
    {
      ChecksumStep(payload, j - 4);
      pkt[3] := (pkt[3] as int + pkt[j]) % 256;
      j := j + 1;
    }
    assert payload[..BlockSize] == payload;
  }

  /** Builds the packet for the block at offset `i` in place: copy the payload,
      accumulate the byte-wrapping checksum, set the opcode and bump it for the
      last block, then store the index big-endian. */
  method BuildPacket(firmware: array<byte>, i: nat, blk: nat) returns (pkt: array<byte>)
    requires i == BlockSize * blk && i + BlockSize <= firmware.Length
    ensures pkt[..] == BlockPacket(firmware[..], blk)
  {
    pkt := new byte[PacketSize](_ => 0);
    CopyPayload(firmware, i, pkt);
    AddChecksum(pkt);
    pkt[0] := 0xA1;
    if i + BlockSize >= firmware.Length {
      pkt[0] := pkt[0] + 1;
    }
    pkt[1] := blk / 256 % 256;
    pkt[2] := blk % 256;
    assert pkt[..] == [pkt[0], pkt[1], pkt[2], pkt[3]] + pkt[4..];
  }
}
