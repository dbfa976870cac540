/** The bytes of an image file and how block headers and the decompressor turn them into blocks. */
module Disk {
  import opened Prelude
  import opened LittleEndian
  import opened Image

  /** `inflate(input, limit)` stands for the decompressor writing at most `limit` bytes; `offset` is
      where the file system starts inside the file. */
  datatype Disk = Disk(bytes: seq<Byte>, offset: nat, inflate: (seq<Byte>, nat) -> Option<seq<Byte>>)

  /** A read of exactly `n` bytes; every caller treats a short read as a failure. */
  function Pread(d: Disk, pos: nat, n: nat): Option<seq<Byte>> {
    if d.offset + pos + n <= |d.bytes|
    then Some(d.bytes[d.offset + pos..d.offset + pos + n])
    else None
  }

  /** Bit 15 of a metadata header set means stored uncompressed; a zero size stands for 0x8000. */
  function MdHeader(hdr: nat): (bool, nat) {
    (hdr / 0x8000 % 2 == 0, if hdr % 0x8000 == 0 then 0x8000 else hdr % 0x8000)
  }

  /** Bit 24 of a data header set means stored uncompressed; the other bits are the stored size. */
  function DataHeader(hdr: nat): (bool, nat) {
    if hdr / 0x100_0000 % 2 == 0 then (true, hdr) else (false, hdr - 0x100_0000)
  }

  /** `size` stored bytes at `pos`, decompressed into at most `limit` bytes if compressed. */
  function BlockAt(d: Disk, pos: nat, compressed: bool, size: nat, limit: nat): Option<seq<Byte>> {
    match Pread(d, pos, size)
    case None => None
    case Some(raw) => if compressed then d.inflate(raw, limit) else Some(raw)
  }

  function MdBlockAt(d: Disk, pos: nat): Option<MdBlock> {
    match Pread(d, pos, 2)
    case None => None
    case Some(raw) =>
      var (compressed, size) := MdHeader(U16(raw, 0));
      match BlockAt(d, pos + 2, compressed, size, METADATA_SIZE)
      case None => None
      case Some(data) => Some(MdBlock(data, 2 + size))
  }

  function DataBlockAt(d: Disk, blockSize: nat, pos: nat, hdr: nat): Option<seq<Byte>> {
    var (compressed, size) := DataHeader(hdr);
    BlockAt(d, pos, compressed, size, blockSize)
  }

  /** The image a disk holds. */
  function Decode(d: Disk, blockSize: nat): Image {
    Image(|d.bytes|, (pos: nat) => MdBlockAt(d, pos), (pos: nat, hdr: nat) => DataBlockAt(d, blockSize, pos, hdr))
  }

  /** Every metadata block the disk can deliver lies inside it, so nothing is lost by MdAt. */
  lemma DecodedMd(d: Disk, blockSize: nat, pos: nat)
    ensures MdAt(Decode(d, blockSize), pos) == MdBlockAt(d, pos)
  {
  }

  // ---- Blocks as they are written ----

  /** The header of a metadata block of which `size` bytes are stored. */
  function MdHeaderFor(compressed: bool, size: nat): nat {
    (if compressed then 0 else 0x8000) + size % 0x8000
  }

  /** That of a data block. */
  function DataHeaderFor(compressed: bool, size: nat): nat {
    (if compressed then 0 else 0x100_0000) + size
  }

  lemma HeadersComeBack(compressed: bool, size: nat)
    ensures 0 < size <= 0x8000 ==> MdHeader(MdHeaderFor(compressed, size)) == (compressed, size)
    ensures size < 0x100_0000 ==> DataHeader(DataHeaderFor(compressed, size)) == (compressed, size)
  {
  }

  /** What is stored for some data: the data, or what the decompressor makes it of. */
  predicate IsStored(d: Disk, compressed: bool, stored: seq<Byte>, limit: nat, data: seq<Byte>) {
    if compressed then d.inflate(stored, limit) == Some(data) else stored == data
  }

  /** A metadata block is read where it was written, and the next one is behind it. */
  lemma WrittenMdIsRead(d: Disk, pos: nat, compressed: bool, stored: seq<Byte>, data: seq<Byte>)
    requires 0 < |stored| <= 0x8000 && IsStored(d, compressed, stored, 8192, data)
    requires d.offset + pos + 2 + |stored| <= |d.bytes|
    requires d.bytes[d.offset + pos..d.offset + pos + 2 + |stored|] ==
             Little(MdHeaderFor(compressed, |stored|), 2) + stored
    ensures MdBlockAt(d, pos) == Some(MdBlock(data, 2 + |stored|))
  {
    var hdr := Little(MdHeaderFor(compressed, |stored|), 2);
    HeadersComeBack(compressed, |stored|);
    Alone16(MdHeaderFor(compressed, |stored|), hdr);
    MdBehind(d, pos, hdr, compressed, stored, data);
  }

  lemma MdBehind(d: Disk, pos: nat, hdr: seq<Byte>, compressed: bool, stored: seq<Byte>, data: seq<Byte>)
    requires |hdr| == 2 && MdHeader(U16(hdr, 0)) == (compressed, |stored|)
    requires IsStored(d, compressed, stored, METADATA_SIZE, data) && d.offset + pos + 2 + |stored| <= |d.bytes|
    requires d.bytes[d.offset + pos..d.offset + pos + 2 + |stored|] == hdr + stored
    ensures MdBlockAt(d, pos) == Some(MdBlock(data, 2 + |stored|))
  {
    TwoParts(d.bytes, d.offset + pos, hdr, stored);
  }

  lemma TwoParts(b: seq<Byte>, at: nat, x: seq<Byte>, y: seq<Byte>)
    requires at + |x| + |y| <= |b| && b[at..at + |x| + |y|] == x + y
    ensures b[at..at + |x|] == x && b[at + |x|..at + |x| + |y|] == y
  {
    var n := |x| + |y|;
    assert b[at..at + n] == x + y;
    SubSlice(b, at, n, 0, |x|);
    SubSlice(b, at, n, |x|, n);
    assert (x + y)[0..|x|] == x && (x + y)[|x|..n] == y;
  }

  /** So is a data block, if its header is known from elsewhere. */
  lemma WrittenDataIsRead(d: Disk, blockSize: nat, pos: nat, compressed: bool, stored: seq<Byte>, data: seq<Byte>)
    requires |stored| < 0x100_0000 && IsStored(d, compressed, stored, blockSize, data)
    requires d.offset + pos + |stored| <= |d.bytes|
    requires d.bytes[d.offset + pos..d.offset + pos + |stored|] == stored
    ensures DataBlockAt(d, blockSize, pos, DataHeaderFor(compressed, |stored|)) == Some(data)
  {
    HeadersComeBack(compressed, |stored|);
  }
}
