// Compressed grains on disk: a 12-byte header (LBA, compressed size), the deflated
// data, and zero padding to a whole sector.

module Grain {
  import opened Bytes
  import opened Bits
  import opened Header

  /** zlib, as the pair of pure functions the code relies on. */
  datatype Codec = Codec(deflate: seq<byte> -> seq<byte>, inflate: seq<byte> -> Option<seq<byte>>)

  /** What is assumed of zlib on inputs of up to one grain: lossless, and the output
      within the size that the reader and the reorderer accept. */
  ghost predicate Lossless(c: Codec, grainSize: nat) {
    forall x :: 0 < |x| <= grainSize * SECTOR ==>
      c.inflate(c.deflate(x)) == Some(x) && |c.deflate(x)| + 12 <= (grainSize + 1) * SECTOR
  }

  /** The assumption can be met: storing a grain as it is satisfies it. */
  function StoredCodec(): Codec {
    Codec(x => x, x => Some(x))
  }

  lemma StoredIsLossless(grainSize: nat)
    ensures Lossless(StoredCodec(), grainSize)
  {
  }

  function Padding(n: nat): nat {
    if n % SECTOR == 0 then 0 else SECTOR - n % SECTOR
  }

  /** The padding completes the last sector. */
  lemma PaddedSectors(n: nat)
    ensures n + Padding(n) == CeilDiv(n, SECTOR) * SECTOR
  {
    var q, r := n / SECTOR, n % SECTOR;
    assert n == q * SECTOR + r;
    if r == 0 {
      assert CeilDiv(n, SECTOR) == q by { ModUnique(n + SECTOR - 1, SECTOR, q, SECTOR - 1); }
    } else {
      assert CeilDiv(n, SECTOR) == q + 1 by { ModUnique(n + SECTOR - 1, SECTOR, q + 1, r - 1); }
    }
  }

  /** The bytes of one written grain. */
  function Record(c: Codec, lba: nat, data: seq<byte>): (r: seq<byte>)
    ensures |r| == Sectors(c, data) * SECTOR
  {
    var z := c.deflate(data);
    PaddedSectors(12 + |z|);
    LE(lba, 8) + LE(|z|, 4) + z + Zeros(Padding(12 + |z|))
  }

  function Sectors(c: Codec, data: seq<byte>): (n: nat)
    ensures n > 0
  {
    CeilDiv(12 + |c.deflate(data)|, SECTOR)
  }

  lemma SectorsBound(c: Codec, grainSize: nat, data: seq<byte>)
    requires Lossless(c, grainSize) && 0 < |data| <= grainSize * SECTOR
    ensures Sectors(c, data) <= grainSize + 1
  {
    assert c.inflate(c.deflate(data)) == Some(data);
  }

  // ----- reading -----

  function HeaderLength(h: Header): nat {
    if HasEmbeddedLBA(h.flags) then 12 else 4
  }

  function CompressedSize(h: Header, first: seq<byte>): nat
    requires |first| == SECTOR
  {
    if HasEmbeddedLBA(h.flags) then FromLE(first[8..12]) else FromLE(first[0..4])
  }

  /** Size of the stored grain in whole sectors, as its first sector tells it; None when it
      is more than the read buffer takes. */
  function RecordSize(h: Header, first: seq<byte>): (n: Option<nat>)
    requires |first| == SECTOR
    ensures n.Some? ==> n.value >= SECTOR && n.value % SECTOR == 0
    ensures n.Some? ==> HeaderLength(h) + CompressedSize(h, first) <= n.value
  {
    var size := CompressedSize(h, first) + HeaderLength(h);
    if size > (h.grainSize + 1) * SECTOR then None
    else if size > SECTOR then Some(SECTOR + RoundUp(size - SECTOR))
    else Some(SECTOR)
  }

  /** The sectors that the stored grain at sector `sect` occupies: the first is read, it
      tells how many follow, and those are read from the next sector number, which is
      computed in 32 bits.  None when a read or the size check fails. */
  function RecordBytes(f: seq<byte>, h: Header, sect: nat): (b: Option<seq<byte>>)
    ensures b.Some? ==> |b.value| >= SECTOR && |b.value| % SECTOR == 0
    ensures b.Some? ==> RecordSize(h, b.value[..SECTOR]) == Some(|b.value|)
  {
    match Pread(f, sect * SECTOR, SECTOR)
    case None => None
    case Some(first) =>
      match RecordSize(h, first)
      case None => None
      case Some(n) =>
        if n == SECTOR then assert first[..SECTOR] == first; Some(first)
        else
          match Pread(f, Add32(sect, 1) * SECTOR, n - SECTOR)
          case None => None
          case Some(rest) => assert (first + rest)[..SECTOR] == first; Some(first + rest)
  }

  /** The inflated grain in a record read for address `lba`: every check of the reader's
      compressed branch except the final length comparison. */
  function Unpack(c: Codec, h: Header, b: seq<byte>, lba: nat): (g: Option<seq<byte>>)
    requires |b| >= SECTOR && RecordSize(h, b[..SECTOR]) == Some(|b|)
    ensures g.Some? ==> |g.value| <= h.grainSize * SECTOR
  {
    var first, from := b[..SECTOR], HeaderLength(h);
    if HasEmbeddedLBA(h.flags) && FromLE(first[0..8]) != lba then None
    else
      match c.inflate(b[from..from + CompressedSize(h, first)])
      case None => None
      case Some(g) => if |g| <= h.grainSize * SECTOR then Some(g) else None
  }

  function FetchGrain(c: Codec, f: seq<byte>, h: Header, sect: nat, lba: nat): (g: Option<seq<byte>>)
    ensures g.Some? ==> |g.value| <= h.grainSize * SECTOR
  {
    match RecordBytes(f, h, sect)
    case None => None
    case Some(b) => Unpack(c, h, b, lba)
  }

  /** Sectors lying one behind the other in a file are what reading a record there gives. */
  lemma RecordAt(f: seq<byte>, h: Header, sect: nat, b: seq<byte>)
    requires |b| >= SECTOR && RecordSize(h, b[..SECTOR]) == Some(|b|)
    requires HasAt(f, sect * SECTOR, b) && sect + 1 < U32
    ensures RecordBytes(f, h, sect) == Some(b)
  {
    hide RecordSize, HasAt;
    var s, n := sect * SECTOR, |b|;
    HasAtPart(f, s, b, 0, SECTOR);
    HasAtPart(f, s, b, SECTOR, n);
    HasAtFits(f, s, b);
    assert Add32(sect, 1) * SECTOR == s + SECTOR;
    assert b[0..SECTOR] == b[..SECTOR];
    assert b[..SECTOR] + b[SECTOR..n] == b;
    if n == SECTOR { assert b[..SECTOR] == b; }
  }

  /** A stored grain means the same wherever its bytes are. */
  lemma Relocate(c: Codec, h: Header, f: seq<byte>, sect: nat, f': seq<byte>, sect': nat, lba: nat)
    requires RecordBytes(f, h, sect).Some? && sect' + 1 < U32
    requires HasAt(f', sect' * SECTOR, RecordBytes(f, h, sect).value)
    ensures RecordBytes(f', h, sect') == RecordBytes(f, h, sect)
    ensures FetchGrain(c, f', h, sect', lba) == FetchGrain(c, f, h, sect, lba)
  {
    hide RecordBytes, HasAt, RecordSize, Unpack;
    RecordAt(f', h, sect', RecordBytes(f, h, sect).value);
  }

  lemma RecordParts(c: Codec, lba: nat, data: seq<byte>)
    requires lba < U64 && |c.deflate(data)| < U32
    ensures var r, z := Record(c, lba, data), c.deflate(data);
            && SECTOR <= |r| && 12 + |z| <= |r|
            && FromLE(r[0..8]) == lba && FromLE(r[8..12]) == |z| && r[12..12 + |z|] == z
  {
    hide FromLE, LE, Sectors;
    var r, z := Record(c, lba, data), c.deflate(data);
    assert r[0..8] == LE(lba, 8);
    assert r[8..12] == LE(|z|, 4);
    assert r[12..12 + |z|] == z;
    assert |r| == Sectors(c, data) * SECTOR;
    LE64(lba);
    LE32(|z|);
  }

  /** The first sector of a written grain tells the reader how large it is. */
  lemma WrittenSize(c: Codec, h: Header, lba: nat, data: seq<byte>)
    requires HasEmbeddedLBA(h.flags) && lba < U64 && h.grainSize <= 128
    requires |c.deflate(data)| + 12 <= (h.grainSize + 1) * SECTOR
    ensures var r := Record(c, lba, data);
            |r| >= SECTOR && RecordSize(h, r[..SECTOR]) == Some(|r|)
  {
    hide FromLE, Record, Sectors;
    var r := Record(c, lba, data);
    RecordParts(c, lba, data);
    assert r[..SECTOR][8..12] == r[8..12];
    SectorsAre(c, data);
  }

  lemma SectorsAre(c: Codec, data: seq<byte>)
    ensures var n := |c.deflate(data)| + 12;
            Sectors(c, data) * SECTOR == if n > SECTOR then SECTOR + RoundUp(n - SECTOR) else SECTOR
  {
  }

  lemma Unpacked(c: Codec, h: Header, lba: nat, data: seq<byte>)
    requires Lossless(c, h.grainSize) && 0 < |data| <= h.grainSize * SECTOR
    requires HasEmbeddedLBA(h.flags) && lba < U64 && h.grainSize <= 128
    ensures var r := Record(c, lba, data);
            |r| >= SECTOR && RecordSize(h, r[..SECTOR]) == Some(|r|) && Unpack(c, h, r, lba) == Some(data)
  {
    hide FromLE, Record, Sectors, RecordSize;
    var r, z := Record(c, lba, data), c.deflate(data);
    assert c.inflate(z) == Some(data);
    WrittenSize(c, h, lba, data);
    RecordParts(c, lba, data);
    assert r[..SECTOR][0..8] == r[0..8] && r[..SECTOR][8..12] == r[8..12];
  }

  /** Reading a grain back from the bytes that were written for it. */
  lemma FetchRecord(c: Codec, h: Header, f: seq<byte>, sect: nat, lba: nat, data: seq<byte>)
    requires Lossless(c, h.grainSize) && 0 < |data| <= h.grainSize * SECTOR
    requires HasEmbeddedLBA(h.flags) && lba < U64 && h.grainSize <= 128 && sect + 1 < U32
    requires HasAt(f, sect * SECTOR, Record(c, lba, data))
    ensures RecordBytes(f, h, sect) == Some(Record(c, lba, data))
    ensures FetchGrain(c, f, h, sect, lba) == Some(data)
  {
    hide Lossless, Record, RecordBytes, RecordSize, Unpack, HasAt;
    Unpacked(c, h, lba, data);
    RecordAt(f, h, sect, Record(c, lba, data));
  }
}
