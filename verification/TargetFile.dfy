// A finished target, byte by byte: what any other program finds in the file.

module TargetFile {
  import opened Bytes
  import opened Header
  import opened Grain
  import opened Layout
  import opened Journal
  import opened Target
  import opened Reader
  import opened Reopen
  import F = Format

  // A disk of `size` bytes in sectors, grains of 128 sectors, tables of 512 entries, and
  // directory sectors of 128 entries.

  function DiskSectors(size: nat): nat {
    (size + 511) / 512
  }

  function DiskGrains(size: nat): nat {
    (DiskSectors(size) + 127) / 128
  }

  function DiskTables(size: nat): nat {
    (DiskGrains(size) + 511) / 512
  }

  function DirectorySize(size: nat): nat {
    (4 * DiskTables(size) + 511) / 512
  }

  /** Version 3, newline detector, compressed grains with addresses, deflate, cleanly shut down;
      the descriptor in sectors 1 to 20, the directory from sector 21 on, and no redundant one. */
  function FinalHeader(size: nat): Header {
    Header(3, 0x3_0001, 512, 1, 0, DiskSectors(size), 128, 1, 20, 0, 21,
           21 + DirectorySize(size) + 4 * DiskTables(size))
  }

  lemma GrainsInSectors(size: nat)
    ensures DiskGrains(size) == CeilDiv(size, GRAIN_BYTES)
  {
    var q, r := size / GRAIN_BYTES, size % GRAIN_BYTES;
    var k := (r + 511) / 512;
    assert size == q * GRAIN_BYTES + r;
    assert DiskSectors(size) == 128 * q + k && k <= 128;
  }

  lemma Ceilings(size: nat)
    ensures DiskSectors(size) == CeilDiv(size, SECTOR) && DiskTables(size) == CeilDiv(DiskGrains(size), GTES_PER_GT)
    ensures DirectorySize(size) == CeilDiv(DiskTables(size) * 4, SECTOR)
  {
    hide DiskGrains;
  }

  lemma HeaderIs(size: nat)
    requires GrainsFit(size)
    ensures TargetHeader(size) == FinalHeader(size) && FinalHeader(size).gdOffset == 21
    ensures var g := TargetGeometry(size);
            && g.GTEs == DiskGrains(size) && g.GTs == DiskTables(size) && g.GTsectors == 4
            && g.GDsectors == DirectorySize(size) && TableWords(g) == 512 * DiskTables(size)
  {
    hide TargetGeometry, TableWords, CeilDiv, DiskSectors, DiskGrains, DiskTables, DirectorySize;
    GrainsInSectors(size);
    Ceilings(size);
    Numbers(size);
    FourSectors(TargetGeometry(size));
  }

  /** The magic, the header's fields and the detector bytes, with zeros to the end of the
      sector. */
  predicate HeaderPart(f: seq<byte>, size: nat) {
    && |f| >= 512
    && f[0] == 0x4b && f[1] == 0x44 && f[2] == 0x4d && f[3] == 0x56
    && F.HeaderAt(f[..512]) == FinalHeader(size)
    && f[73] == 10 && f[74] == 32 && f[75] == 13 && f[76] == 10 && f[77] == 1 && f[78] == 0
    && forall i :: 79 <= i < 512 ==> f[i] == 0
  }

  /** Word `i` of the words that start at byte `at`, if it is in the file. */
  function WordOf(f: seq<byte>, at: nat, i: nat): Option<nat> {
    if at + 4 * i + 4 <= |f| then Some(F.Word32(f, at + 4 * i)) else None
  }

  /** The directory names the tables one behind the other, and the tables hold `gt`. */
  predicate TablePart(f: seq<byte>, size: nat, gt: seq<nat>) {
    var at := 21 + DirectorySize(size);
    && |gt| == 512 * DiskTables(size)
    && (forall t :: 0 <= t < DiskTables(size) ==> WordOf(f, 21 * 512, t) == Some(at + 4 * t))
    && (forall i :: 0 <= i < |gt| ==> WordOf(f, at * 512, i) == Some(gt[i]))
  }

  /** The descriptor in sectors 1 to 20, filled up with zeros. */
  predicate DescriptorPart(f: seq<byte>, descriptor: seq<byte>) {
    && |descriptor| <= 20 * 512 && 21 * 512 <= |f|
    && (forall i :: 0 <= i < |descriptor| ==> f[512 + i] == descriptor[i])
    && (forall i :: 512 + |descriptor| <= i < 21 * 512 ==> f[i] == 0)
  }

  /** A stored grain: its first sector on the disk, the size of its deflated data, the data, and
      zeros to the end of the sector. */
  predicate GrainPart(c: Codec, f: seq<byte>, sect: nat, nr: nat, data: seq<byte>) {
    var at, z := sect * 512, c.deflate(data);
    && at + (12 + |z| + 511) / 512 * 512 <= |f| && 12 + |z| <= (12 + |z| + 511) / 512 * 512
    && F.Word64(f, at) == 128 * nr && F.Word32(f, at + 8) == |z|
    && f[at + 12..at + 12 + |z|] == z
    && (forall i :: at + 12 + |z| <= i < at + (12 + |z| + 511) / 512 * 512 ==> f[i] == 0)
  }

  /** A target of `size` bytes with table `gt` that stores the grains of `store`, and an end
      marker of zeros in its last sector. */
  ghost predicate IsTarget(c: Codec, f: seq<byte>, size: nat, gt: seq<nat>, store: map<nat, seq<byte>>,
                           descriptor: seq<byte>) {
    && HeaderPart(f, size) && TablePart(f, size, gt) && DescriptorPart(f, descriptor)
    && (forall nr :: 0 <= nr < |gt| ==>
          if nr in store then gt[nr] > 1 && GrainPart(c, f, gt[nr], nr, store[nr]) else gt[nr] == 0)
    && (forall nr :: nr in store ==> nr < |gt|)
    && |f| % 512 == 0 && (forall i :: |f| - 512 <= i < |f| ==> 0 <= i && f[i] == 0)
  }

  lemma HeaderWritten(f: seq<byte>, size: nat)
    requires GrainsFit(size) && HasAt(f, 0, EncodeHeader(TargetHeader(size), false))
    ensures HeaderPart(f, size)
  {
    hide EncodeHeader, TargetHeader, FinalHeader, F.HeaderAt, GrainsFit, TargetGeometry;
    var b := EncodeHeader(TargetHeader(size), false);
    TargetFits(size);
    HeaderIs(size);
    F.HeaderBytes(TargetHeader(size), false);
    assert f[..512] == f[0..0 + 512] == b;
    forall i | 0 <= i < 512 ensures f[i] == b[i] { HasAtByte(f, 0, b, i); }
    assert b[0] == b[0..4][0] && b[1] == b[0..4][1] && b[2] == b[0..4][2] && b[3] == b[0..4][3];
    assert b[73] == b[73..77][0] && b[74] == b[73..77][1] && b[75] == b[73..77][2] && b[76] == b[73..77][3];
    DeflateBytes(b, size);
  }

  lemma TargetFits(size: nat)
    requires GrainsFit(size)
    ensures Fits(TargetHeader(size))
  {
    hide TargetHeader, TargetGeometry, GrainsFit, GetGDGT, FlagsSupported;
    CreateOk(size);
  }

  /** Deflate is 1 in two bytes. */
  lemma DeflateBytes(b: seq<byte>, size: nat)
    requires |b| == 512 && F.HeaderAt(b) == FinalHeader(size)
    ensures b[77] == 1 && b[78] == 0
  {
    hide DiskSectors, DirectorySize, DiskTables, F.Word32, F.Word64;
    assert F.Word16(b, 77) == 1;
  }

  lemma TablesWritten(f: seq<byte>, size: nat, gt: seq<nat>)
    requires GrainsFit(size) && |gt| == TableWords(TargetGeometry(size))
    requires forall i :: 0 <= i < |gt| ==> gt[i] < U32
    requires HasAt(f, TargetHeader(size).gdOffset * SECTOR, TableBytes(TargetHeader(size), TargetGeometry(size), gt))
    ensures TablePart(f, size, gt)
  {
    hide TargetHeader, TargetGeometry, GrainsFit, TableBytes, DiskTables, DirectorySize, WordOf, TableWords, TargetOk,
      FinalHeader, CeilDiv, HasAt, DiskGrains, DiskSectors;
    HeaderIs(size);
    CreateOk(size);
    WordsWritten(f, TargetHeader(size), TargetGeometry(size), gt);
  }

  lemma WordsWritten(f: seq<byte>, h: Header, g: Geometry, gt: seq<nat>)
    requires TargetOk(h, g) && |gt| == TableWords(g) && HasAt(f, h.gdOffset * SECTOR, TableBytes(h, g, gt))
    requires forall i :: 0 <= i < |gt| ==> gt[i] < U32
    ensures forall t :: 0 <= t < g.GTs ==>
              WordOf(f, h.gdOffset * 512, t) == Some(h.gdOffset + g.GDsectors + 4 * t)
    ensures forall i :: 0 <= i < |gt| ==> WordOf(f, (h.gdOffset + g.GDsectors) * 512, i) == Some(gt[i])
  {
    hide TableBytes, EncodeWords, Directory, WordOf, TableWords, TargetOk, HasAt;
    TableParts(f, h, g, gt);
    forall t | 0 <= t < g.GTs
      ensures WordOf(f, h.gdOffset * 512, t) == Some(h.gdOffset + g.GDsectors + 4 * t)
    {
      DirectoryWritten(f, h, g, t);
    }
    forall i | 0 <= i < |gt| ensures WordOf(f, (h.gdOffset + g.GDsectors) * 512, i) == Some(gt[i]) {
      WordWritten(f, (h.gdOffset + g.GDsectors) * 512, gt, i);
    }
  }

  lemma DirectoryWritten(f: seq<byte>, h: Header, g: Geometry, t: nat)
    requires TargetOk(h, g) && t < g.GTs && 4 * g.GTs <= g.GDsectors * SECTOR
    requires Pread(f, h.gdOffset * SECTOR, g.GDsectors * SECTOR)
             == Some(EncodeWords(Directory(h.gdOffset + g.GDsectors, g.GTsectors, g.GTs))
                     + Zeros(g.GDsectors * SECTOR - 4 * g.GTs))
    ensures WordOf(f, h.gdOffset * 512, t) == Some(h.gdOffset + g.GDsectors + 4 * t)
  {
    hide TargetOk, EncodeWords, Directory, F.Word32, DecodeWords;
    DirectoryFound(h, g, DecodeWords(Pread(f, h.gdOffset * SECTOR, g.GDsectors * SECTOR).value));
    F.DirectoryWords(f, h.gdOffset * SECTOR, g.GDsectors * SECTOR, t);
  }

  lemma WordWritten(f: seq<byte>, at: nat, ws: seq<nat>, i: nat)
    requires HasAt(f, at, EncodeWords(ws)) && i < |ws| && ws[i] < U32
    ensures WordOf(f, at, i) == Some(ws[i])
  {
    hide EncodeWords, F.Word32, HasAt, LE, FromLE;
    var p, k := at + 4 * i, 4 * i;
    HasAtFits(f, at, EncodeWords(ws));
    EncodeWordsAt(ws, i);
    HasAtPart(f, at, EncodeWords(ws), k, k + 4);
    assert f[p..p + 4] == LE(ws[i], 4);
    LE32(ws[i]);
    F.FourBytes(f, p);
  }

  lemma DescriptorWritten(f: seq<byte>, descriptor: seq<byte>)
    requires |descriptor| <= DESCRIPTOR_SECTORS * SECTOR && HasAt(f, 512, Region(descriptor))
    ensures DescriptorPart(f, descriptor)
  {
    var r := Region(descriptor);
    HasAtFits(f, 512, r);
    forall i | 0 <= i < |r| ensures f[512 + i] == r[i] { HasAtByte(f, 512, r, i); }
    assert forall i :: 512 + |descriptor| <= i < 21 * 512 ==> f[i] == r[i - 512];
  }

  lemma GrainWritten(c: Codec, f: seq<byte>, sect: nat, nr: nat, data: seq<byte>)
    requires nr * GRAIN_SECTORS < U64 && |c.deflate(data)| < U32
    requires HasAt(f, sect * SECTOR, Record(c, nr * GRAIN_SECTORS, data))
    ensures GrainPart(c, f, sect, nr, data)
  {
    hide Record, F.Word32, F.Word64;
    var r, z, at := Record(c, nr * GRAIN_SECTORS, data), c.deflate(data), sect * 512;
    F.RecordBytesAre(c, nr * GRAIN_SECTORS, data);
    HasAtFits(f, at, r);
    F.WordsInside(f, at, r, 0);
    F.WordsInside(f, at, r, 8);
    HasAtPart(f, at, r, 12, 12 + |z|);
    forall i | at + 12 + |z| <= i < at + |r| ensures f[i] == 0 { HasAtByte(f, at, r, i - at); }
  }

  /** A finished file is a target, byte for byte. */
  lemma FinishedIsTarget(c: Codec, size: nat, img: Image, exts: seq<Extent>, store: map<nat, seq<byte>>,
                         descriptor: seq<byte>)
    requires Finished(c, TargetHeader(size), TargetGeometry(size), img, exts, store, descriptor)
    requires GrainsFit(size) && |descriptor| <= DESCRIPTOR_SECTORS * SECTOR
    ensures IsTarget(c, Content(img.log), size, img.gt, store, descriptor)
  {
    hide Finished, TargetHeader, TargetGeometry, GrainsFit, HeaderPart, TablePart, DescriptorPart, GrainPart, Content,
      EncodeHeader, TableBytes, Region, HasAt, Stored, Record, TableWords, DiskTables;
    var h, g, f := TargetHeader(size), TargetGeometry(size), Content(img.log);
    HeaderIs(size);
    FinishedParts(c, h, g, img, exts, store, descriptor);
    HeaderWritten(f, size);
    DescriptorWritten(f, descriptor);
    forall i | 0 <= i < |img.gt|
      ensures img.gt[i] < U32
      ensures if i in store then img.gt[i] > 1 && GrainPart(c, f, img.gt[i], i, store[i]) else img.gt[i] == 0
    {
      EntriesFit(c, h, g, img, exts, store, descriptor, i);
      if i in store { StoredPart(c, size, img, exts, store, descriptor, i); }
    }
    TablesWritten(f, size, img.gt);
    FileEnd(c, h, g, img, exts, store, descriptor);
  }

  lemma StoredPart(c: Codec, size: nat, img: Image, exts: seq<Extent>, store: map<nat, seq<byte>>,
                   descriptor: seq<byte>, i: nat)
    requires Finished(c, TargetHeader(size), TargetGeometry(size), img, exts, store, descriptor)
    requires GrainsFit(size) && i in store && i < |img.gt|
    ensures GrainPart(c, Content(img.log), img.gt[i], i, store[i])
  {
    hide Finished, TargetHeader, TargetGeometry, GrainPart, Content, Record, GrainsFit;
    var h, g := TargetHeader(size), TargetGeometry(size);
    EntriesFit(c, h, g, img, exts, store, descriptor, i);
    FinishedParts(c, h, g, img, exts, store, descriptor);
    GrainNumbers(size);
    assert c.inflate(c.deflate(store[i])) == Some(store[i]);
    StoredHas(c, Content(img.log), Extent(i, img.gt[i], store[i]));
    GrainWritten(c, Content(img.log), img.gt[i], i, store[i]);
  }

  lemma GrainNumbers(size: nat)
    requires GrainsFit(size)
    ensures TargetGeometry(size).GTEs < U32
  {
    hide TargetGeometry;
    Numbers(size);
  }

  lemma FileEnd(c: Codec, h: Header, g: Geometry, img: Image, exts: seq<Extent>, store: map<nat, seq<byte>>,
                descriptor: seq<byte>)
    requires Finished(c, h, g, img, exts, store, descriptor)
    ensures var f := Content(img.log);
            && |f| % 512 == 0 && (forall i :: |f| - 512 <= i < |f| ==> 0 <= i && f[i] == 0)
            && |img.gt| == TableWords(g) && forall nr :: nr in store ==> nr < |img.gt|
  {
    hide TargetOk, Lossless, EncodeHeader, TableBytes, Tiled, Content, Stored, TableWords, Region, HasAt, Distinct, Top;
    var f := Content(img.log);
    forall i | |f| - 512 <= i < |f| ensures 0 <= i && f[i] == 0 {
      HasAtByte(f, img.curSP * SECTOR, Zeros(SECTOR), i - img.curSP * SECTOR);
    }
  }
}
