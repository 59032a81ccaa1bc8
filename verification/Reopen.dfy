// Opening what close has finished: the reader gets back the header, the geometry and the
// table, and every grain that was stored.

module Reopen {
  import opened Bytes
  import opened Header
  import opened Grain
  import opened Layout
  import opened Journal
  import opened Target
  import opened Coalesce
  import opened Reader

  /** Bytes of one table of a target. */
  const TABLE_BYTES: nat := 2048

  /** The disk that opening the finished file must give. */
  function Opened(h: Header, img: Image, g: Geometry): SparseDisk {
    SparseDisk(Content(img.log), false, h, g, img.gt, ReadDescriptor(Content(img.log), h))
  }

  // ----- header -----

  lemma HeaderFound(h: Header, g: Geometry, f: seq<byte>)
    requires TargetOk(h, g) && HasAt(f, 0, EncodeHeader(h, false)) && ReadFooter(f).None?
    ensures EffectiveHeader(f) == Some(h)
  {
    hide EncodeHeader, DecodeHeader, ReadFooter, GetGDGT;
    HeaderRoundTrip(h, false);
    EncodedMagic(h, false);
    assert f[..SECTOR] == f[0..0 + SECTOR] == EncodeHeader(h, false);
  }

  lemma GeometryFound(h: Header, g: Geometry)
    requires TargetOk(h, g)
    ensures OpenGeometry(h) == Some(g) && g.GTsectors == 4 && TableWords(g) == g.GTs * GTES_PER_GT
    ensures g.GTs * 4 <= g.GDsectors * SECTOR
  {
    hide GetGDGT, FlagsSupported, IsCompressed, HasEmbeddedLBA, Fits;
    TargetCounts(h, g);
    GeometryFacts(h, g);
  }

  lemma TargetCounts(h: Header, g: Geometry)
    requires TargetOk(h, g)
    ensures g.GTEs < U32 && h.numGTEsPerGT == GTES_PER_GT && GetGDGT(h) == Some(g)
    ensures h.overHead == h.gdOffset + g.GDsectors + g.GTs * g.GTsectors && h.overHead < U32
  {
    hide GetGDGT, FlagsSupported, IsCompressed, HasEmbeddedLBA, Fits;
  }

  // ----- tables -----

  lemma {:induction false} DirectoryAt(base: nat, n: nat, i: nat)
    requires i < n && base + n * 4 < U32
    ensures Directory(base, 4, n)[i] == base + i * 4
  {
    if i < n - 1 {
      DirectoryAt(base, n - 1, i);
    }
  }

  /** The directory as it is read back: its words, then zeros. */
  lemma DirectoryRead(dir: seq<nat>, pad: nat)
    requires forall i :: 0 <= i < |dir| ==> dir[i] < U32
    ensures |dir| <= |DecodeWords(EncodeWords(dir) + Zeros(pad))|
    ensures forall i :: 0 <= i < |dir| ==> DecodeWords(EncodeWords(dir) + Zeros(pad))[i] == dir[i]
  {
    hide EncodeWords, FromLE;
    var s := EncodeWords(dir) + Zeros(pad);
    forall i | 0 <= i < |dir| ensures DecodeWords(s)[i] == dir[i] {
      assert s[4 * i..4 * i + 4] == EncodeWords(dir)[4 * i..4 * i + 4];
      EncodeWordsAt(dir, i);
      LE32(dir[i]);
    }
  }

  /** After `n` tables the memory holds the front of the tables in the file. */
  function Loaded(tables: seq<byte>, n: nat): seq<byte>
    requires Slot(n, TABLE_BYTES) <= |tables|
  {
    tables[..Slot(n, TABLE_BYTES)] + Zeros(|tables| - Slot(n, TABLE_BYTES))
  }

  lemma LoadOne(f: seq<byte>, tables: seq<byte>, base: nat, n: nat)
    requires HasAt(f, base * SECTOR, tables) && Slot(n + 1, TABLE_BYTES) <= |tables|
    ensures Slot(n, TABLE_BYTES) <= |tables|
    ensures ReadNow(Loaded(tables, n), f, Request(Slot(n, TABLE_BYTES), TABLE_BYTES, (base + n * 4) * SECTOR))
            == Some(Loaded(tables, n + 1))
  {
    var at := n * TABLE_BYTES;
    HasAtPart(f, base * SECTOR, tables, at, at + TABLE_BYTES);
    assert (base + n * 4) * SECTOR == base * SECTOR + at;
    assert Fill(Loaded(tables, n), at, tables[at..at + TABLE_BYTES]) == Loaded(tables, n + 1);
  }

  lemma RequestsStep(gd: seq<nat>, n: nat)
    requires n < |gd| && gd[n] != 0
    ensures TableRequests(gd, TABLE_BYTES, n + 1)
            == TableRequests(gd, TABLE_BYTES, n) + [Request(Slot(n, TABLE_BYTES), TABLE_BYTES, gd[n] * SECTOR)]
  {
  }

  /** Reading the tables that the prefilled directory names puts the single table write
      back together. */
  lemma {:induction false} LoadAll(f: seq<byte>, gd: seq<nat>, tables: seq<byte>, base: nat, n: nat)
    requires n <= |gd| && Slot(n, TABLE_BYTES) <= |tables| && base > 0
    requires forall i :: 0 <= i < n ==> gd[i] == base + i * 4
    requires HasAt(f, base * SECTOR, tables)
    requires AllInMemory(|tables|, TableRequests(gd, TABLE_BYTES, n))
    ensures ReadEach(Zeros(|tables|), f, TableRequests(gd, TABLE_BYTES, n)) == Some(Loaded(tables, n))
  {
    hide HasAt, ReadNow;
    if n == 0 {
      assert Loaded(tables, 0) == Zeros(|tables|);
    } else {
      var rs := TableRequests(gd, TABLE_BYTES, n - 1);
      var r := Request(Slot(n - 1, TABLE_BYTES), TABLE_BYTES, gd[n - 1] * SECTOR);
      RequestsStep(gd, n - 1);
      assert TableRequests(gd, TABLE_BYTES, n)[..|rs|] == rs;
      RequestsInMemory(gd, TABLE_BYTES, n - 1, |tables|);
      LoadAll(f, gd, tables, base, n - 1);
      LoadOne(f, tables, base, n - 1);
    }
  }

  lemma LoadedAll(tables: seq<byte>, n: nat)
    requires |tables| == Slot(n, TABLE_BYTES)
    ensures Loaded(tables, n) == tables
  {
  }

  lemma TablesLoaded(f: seq<byte>, h: Header, g: Geometry, gt: seq<nat>, gd: seq<nat>)
    requires TargetOk(h, g) && |gt| == TableWords(g) && forall i :: 0 <= i < |gt| ==> gt[i] < U32
    requires HasAt(f, (h.gdOffset + g.GDsectors) * SECTOR, EncodeWords(gt))
    requires g.GTs <= |gd| && forall i :: 0 <= i < g.GTs ==> gd[i] == h.gdOffset + g.GDsectors + i * 4
    ensures LoadTables(f, gd, g.GTsectors * SECTOR, g.GTs) == Some(EncodeWords(gt))
  {
    hide TargetOk, EncodeWords, TableRequests, ReadEach, HasAt, TableWords;
    GeometryFound(h, g);
    var tables := EncodeWords(gt);
    assert |tables| == Slot(g.GTs, TABLE_BYTES);
    RequestsInMemory(gd, TABLE_BYTES, g.GTs, |tables|);
    BaseNotZero(h, g);
    LoadAll(f, gd, tables, h.gdOffset + g.GDsectors, g.GTs);
    LoadedAll(tables, g.GTs);
  }

  lemma BaseNotZero(h: Header, g: Geometry)
    requires TargetOk(h, g)
    ensures h.gdOffset > 0
  {
    hide GetGDGT, FlagsSupported, IsCompressed, HasEmbeddedLBA, Fits;
  }

  /** The table write, as the two reads of the opener find it. */
  lemma TableParts(f: seq<byte>, h: Header, g: Geometry, gt: seq<nat>)
    requires TargetOk(h, g) && |gt| == TableWords(g) && HasAt(f, h.gdOffset * SECTOR, TableBytes(h, g, gt))
    ensures var dir := Directory(h.gdOffset + g.GDsectors, g.GTsectors, g.GTs);
            && g.GDsectors * SECTOR >= 4 * g.GTs
            && Pread(f, h.gdOffset * SECTOR, g.GDsectors * SECTOR)
               == Some(EncodeWords(dir) + Zeros(g.GDsectors * SECTOR - 4 * g.GTs))
            && HasAt(f, (h.gdOffset + g.GDsectors) * SECTOR, EncodeWords(gt))
  {
    hide TargetOk, EncodeWords, Directory, TableWords;
    GeometryFound(h, g);
    var dir := Directory(h.gdOffset + g.GDsectors, g.GTsectors, g.GTs);
    var front := EncodeWords(dir) + Zeros(g.GDsectors * SECTOR - 4 * g.GTs);
    var all := TableBytes(h, g, gt);
    var n := g.GDsectors * SECTOR;
    assert all == front + EncodeWords(gt) && |front| == n;
    HasAtPart(f, h.gdOffset * SECTOR, all, 0, n);
    HasAtPart(f, h.gdOffset * SECTOR, all, n, |all|);
    assert all[0..n] == front && all[n..|all|] == EncodeWords(gt);
  }

  lemma DirectoryFound(h: Header, g: Geometry, gd: seq<nat>)
    requires TargetOk(h, g) && g.GDsectors * SECTOR >= 4 * g.GTs
    requires var dir := Directory(h.gdOffset + g.GDsectors, g.GTsectors, g.GTs);
             gd == DecodeWords(EncodeWords(dir) + Zeros(g.GDsectors * SECTOR - 4 * g.GTs))
    ensures g.GTs <= |gd| && forall i :: 0 <= i < g.GTs ==> gd[i] == h.gdOffset + g.GDsectors + i * 4
  {
    hide TargetOk, EncodeWords, Directory, DecodeWords;
    TargetCounts(h, g);
    GeometryFound(h, g);
    var base := h.gdOffset + g.GDsectors;
    var dir := Directory(base, g.GTsectors, g.GTs);
    forall i | 0 <= i < g.GTs ensures dir[i] == base + i * 4 < U32 {
      DirectoryAt(base, g.GTs, i);
    }
    DirectoryRead(dir, g.GDsectors * SECTOR - 4 * g.GTs);
  }

  lemma EntriesFit(c: Codec, h: Header, g: Geometry, img: Image, exts: seq<Extent>,
                   store: map<nat, seq<byte>>, descriptor: seq<byte>, i: nat)
    requires Finished(c, h, g, img, exts, store, descriptor) && i < |img.gt|
    ensures img.gt[i] + 1 < U32
    ensures i !in store ==> img.gt[i] == 0
    ensures i in store ==> img.gt[i] > 1 && i < g.GTEs && 0 < |store[i]| <= GRAIN_BYTES
                           && Stored(c, Content(img.log), Extent(i, img.gt[i], store[i]))
  {
    hide TargetOk, Lossless, EncodeHeader, TableBytes, HasAt, Tiled, Content, Stored, TableWords, Region;
    if i in store {
      var e := Extent(i, img.gt[i], store[i]);
      assert e in exts;
      ExtentInside(c, h.overHead, exts, e);
    }
  }

  /** A finished file opens: the header, the geometry and the table written at close are what
      the reader works with. */
  lemma OpenFinished(c: Codec, h: Header, g: Geometry, img: Image, exts: seq<Extent>,
                     store: map<nat, seq<byte>>, descriptor: seq<byte>)
    requires Finished(c, h, g, img, exts, store, descriptor) && ReadFooter(Content(img.log)).None?
    ensures Open(Content(img.log)) == Some(Opened(h, img, g))
  {
    hide Finished, EffectiveHeader, OpenGeometry, TargetOk, EncodeWords, DecodeWords, HasAt, LoadTables, ReadFooter,
      ReadDescriptor, Directory, DiskOk, TableWords, TableBytes, EncodeHeader, Content;
    var f := Content(img.log);
    FinishedParts(c, h, g, img, exts, store, descriptor);
    HeaderFound(h, g, f);
    GeometryFound(h, g);
    TableParts(f, h, g, img.gt);
    var gd := DecodeWords(Pread(f, h.gdOffset * SECTOR, g.GDsectors * SECTOR).value);
    DirectoryFound(h, g, gd);
    forall i | 0 <= i < |img.gt| ensures img.gt[i] < U32 {
      EntriesFit(c, h, g, img, exts, store, descriptor, i);
    }
    TablesLoaded(f, h, g, img.gt, gd);
    WordsRoundTrip(img.gt);
  }

  lemma FinishedParts(c: Codec, h: Header, g: Geometry, img: Image, exts: seq<Extent>,
                      store: map<nat, seq<byte>>, descriptor: seq<byte>)
    requires Finished(c, h, g, img, exts, store, descriptor)
    ensures Lossless(c, GRAIN_SECTORS) && TargetOk(h, g) && |img.gt| == TableWords(g)
    ensures var f := Content(img.log);
            && HasAt(f, 0, EncodeHeader(h, false))
            && HasAt(f, h.descriptorOffset * SECTOR, Region(descriptor))
            && HasAt(f, h.gdOffset * SECTOR, TableBytes(h, g, img.gt))
            && HasAt(f, img.curSP * SECTOR, Zeros(SECTOR))
  {
  }

  // ----- grains -----

  /** Every byte of the reopened disk is the stored grain's, or zero; a grain stored short
      of its in-capacity length cannot be read at all. */
  lemma LookupFinished(c: Codec, h: Header, g: Geometry, img: Image, exts: seq<Extent>,
                       store: map<nat, seq<byte>>, descriptor: seq<byte>, p: nat)
    requires Finished(c, h, g, img, exts, store, descriptor)
    requires var d := Opened(h, img, g); DiskOk(d) && p < Capacity(d)
    ensures var d, nr, o := Opened(h, img, g), p / GRAIN_BYTES, p % GRAIN_BYTES;
            Lookup(c, d, p) == if nr !in store then Some(0)
                               else if |store[nr]| < GrainLength(d, nr) then None
                               else if o < |store[nr]| then Some(store[nr][o]) else None
  {
    hide Finished, DiskOk, FetchGrain, ReadDescriptor, Content, GrainLength, Stored;
    var d := Opened(h, img, g);
    PositionInGrain(d, p);
    TargetFlags(c, h, g, img, exts, store, descriptor);
    EntriesFit(c, h, g, img, exts, store, descriptor, p / GRAIN_BYTES);
    if p / GRAIN_BYTES in store {
      GrainFetched(c, h, g, img, exts, store, descriptor, p / GRAIN_BYTES);
    }
  }

  lemma TargetFlags(c: Codec, h: Header, g: Geometry, img: Image, exts: seq<Extent>,
                    store: map<nat, seq<byte>>, descriptor: seq<byte>)
    requires Finished(c, h, g, img, exts, store, descriptor)
    ensures h.grainSize == GRAIN_SECTORS && IsCompressed(h.flags) && HasEmbeddedLBA(h.flags) && g.GTEs <= |img.gt|
    ensures g.GTEs < U32
  {
    hide GetGDGT, FlagsSupported, Fits, Lossless, EncodeHeader, TableBytes, HasAt, Complete, TableWords, Content;
    GeometryFacts(h, g);
  }

  lemma GrainFetched(c: Codec, h: Header, g: Geometry, img: Image, exts: seq<Extent>,
                     store: map<nat, seq<byte>>, descriptor: seq<byte>, nr: nat)
    requires Finished(c, h, g, img, exts, store, descriptor) && nr in store && nr < |img.gt|
    ensures FetchGrain(c, Content(img.log), h, img.gt[nr], nr * GRAIN_SECTORS) == Some(store[nr])
  {
    hide Finished, FetchGrain, Content, Record, RecordBytes;
    FinishedParts(c, h, g, img, exts, store, descriptor);
    TargetFlags(c, h, g, img, exts, store, descriptor);
    EntriesFit(c, h, g, img, exts, store, descriptor, nr);
    FetchRecord(c, h, Content(img.log), img.gt[nr], nr * GRAIN_SECTORS, store[nr]);
  }

  // ----- the end of the file -----

  /** Where the opener looks for a footer: the two sectors in front of the end marker. */
  lemma FooterPlace(f: seq<byte>, curSP: nat)
    requires |f| == (curSP + 1) * SECTOR && curSP >= 2 && ReadFooter(f).Some?
    ensures f[(curSP - 1) * SECTOR] == 0x4b
    ensures FromLE(f[(curSP - 2) * SECTOR + 8..(curSP - 2) * SECTOR + 12]) == 0
  {
    hide FromLE;
    assert (|f| - 3 * SECTOR) / SECTOR * SECTOR == (curSP - 2) * SECTOR;
    assert (|f| - 2 * SECTOR) / SECTOR * SECTOR == (curSP - 1) * SECTOR;
    var b := f[(curSP - 1) * SECTOR..(curSP - 1) * SECTOR + SECTOR];
    MagicBytes(b);
    assert b[0] == f[(curSP - 1) * SECTOR];
  }

  /** A record of one sector has its address where the magic would be ... */
  lemma AddressIsNotMagic(c: Codec, nr: nat, data: seq<byte>)
    ensures |Record(c, nr * GRAIN_SECTORS, data)| > 0 && Record(c, nr * GRAIN_SECTORS, data)[0] != 0x4b
  {
    var lba := nr * GRAIN_SECTORS;
    assert LE(lba, 8)[0] as nat == lba % 256;
    assert lba % 256 == 0 || lba % 256 == 128;
    assert Record(c, lba, data)[0] == LE(lba, 8)[0];
  }

  /** ... and one of two has its size where a footer marker has zero. */
  lemma SizeIsNotZero(c: Codec, nr: nat, data: seq<byte>)
    requires nr * GRAIN_SECTORS < U64 && Sectors(c, data) == 2 && |c.deflate(data)| < U32
    ensures var r := Record(c, nr * GRAIN_SECTORS, data);
            |r| >= SECTOR && FromLE(r[8..12]) > 0
  {
    RecordParts(c, nr * GRAIN_SECTORS, data);
    hide Record, FromLE;
  }

  /** So a finished file can only look as if it had a footer when the grain placed last takes
      three sectors or more. */
  lemma FooterNeedsThree(c: Codec, h: Header, g: Geometry, img: Image, exts: seq<Extent>,
                         store: map<nat, seq<byte>>, descriptor: seq<byte>)
    requires Finished(c, h, g, img, exts, store, descriptor) && exts != []
    requires ReadFooter(Content(img.log)).Some?
    ensures Sectors(c, exts[|exts| - 1].data) >= 3
  {
    hide Finished, Stored, ReadFooter, Record, FromLE, Sectors, Content;
    var f, e := Content(img.log), exts[|exts| - 1];
    LastExtent(c, h, g, img, exts, store, descriptor);
    FooterPlace(f, img.curSP);
    var r, s := Record(c, e.nr * GRAIN_SECTORS, e.data), e.sp * SECTOR;
    assert HasAt(f, s, r) by { StoredHas(c, f, e); }
    AddressIsNotMagic(c, e.nr, e.data);
    HasAtByte(f, s, r, 0);
    if Sectors(c, e.data) == 2 {
      SizeIsNotZero(c, e.nr, e.data);
      HasAtPart(f, s, r, 8, 12);
    }
  }

  lemma StoredHas(c: Codec, f: seq<byte>, e: Extent)
    requires Stored(c, f, e)
    ensures HasAt(f, e.sp * SECTOR, Record(c, e.nr * GRAIN_SECTORS, e.data))
  {
  }

  lemma LastExtent(c: Codec, h: Header, g: Geometry, img: Image, exts: seq<Extent>,
                   store: map<nat, seq<byte>>, descriptor: seq<byte>)
    requires Finished(c, h, g, img, exts, store, descriptor) && exts != []
    ensures var e := exts[|exts| - 1];
            && e.sp + Sectors(c, e.data) == img.curSP >= 2 && Stored(c, Content(img.log), e)
            && e.nr * GRAIN_SECTORS < U64 && |c.deflate(e.data)| < U32
    ensures |Content(img.log)| == (img.curSP + 1) * SECTOR
  {
    hide Stored, EncodeHeader, TableBytes, HasAt, Content, TableWords, Region, GetGDGT, FlagsSupported, Fits, Sectors;
    var e := exts[|exts| - 1];
    assert e in exts;
    assert e.nr in store && 0 < |e.data| <= GRAIN_BYTES && e.nr < g.GTEs < U32;
    assert c.inflate(c.deflate(e.data)) == Some(e.data);
    assert exts[..|exts| - 1] == exts[..|exts| - 1];
  }

  /** A target in which nothing is stored has no footer either, if its descriptor leaves the
      last of its sectors free. */
  lemma EmptyHasNoFooter(c: Codec, h: Header, g: Geometry, img: Image, exts: seq<Extent>,
                         store: map<nat, seq<byte>>, descriptor: seq<byte>)
    requires Finished(c, h, g, img, exts, store, descriptor) && exts == []
    requires |descriptor| <= (DESCRIPTOR_SECTORS - 1) * SECTOR
    ensures ReadFooter(Content(img.log)).None?
  {
    hide Finished, ReadFooter, FromLE, Content, TableBytes, Region, HasAt, TargetOk, TableWords, EncodeHeader, Lossless;
    var f := Content(img.log);
    FinishedParts(c, h, g, img, exts, store, descriptor);
    NothingPlaced(c, h, g, img, exts, store, descriptor);
    if g.GTs > 0 { TablesEnd(f, h, g, img.gt); } else { RegionEnds(f, descriptor); }
    if ReadFooter(f).Some? { FooterPlace(f, img.curSP); }
  }

  lemma TablesEnd(f: seq<byte>, h: Header, g: Geometry, gt: seq<nat>)
    requires TargetOk(h, g) && |gt| == TableWords(g) == g.GTs * GTES_PER_GT && g.GTs > 0
    requires HasAt(f, h.gdOffset * SECTOR, TableBytes(h, g, gt)) && forall i :: 0 <= i < |gt| ==> gt[i] == 0
    ensures var at := (h.gdOffset + g.GDsectors + g.GTs * 4 - 1) * SECTOR;
            at < |f| && f[at] == 0
  {
    hide TargetOk, TableWords, TableBytes, EncodeWords, HasAt;
    TableParts(f, h, g, gt);
    EncodeZeros(gt);
    HasAtByte(f, (h.gdOffset + g.GDsectors) * SECTOR, EncodeWords(gt), (g.GTs * 4 - 1) * SECTOR);
  }

  lemma RegionEnds(f: seq<byte>, descriptor: seq<byte>)
    requires |descriptor| <= (DESCRIPTOR_SECTORS - 1) * SECTOR && HasAt(f, SECTOR, Region(descriptor))
    ensures 20 * SECTOR < |f| && f[20 * SECTOR] == 0
  {
    HasAtByte(f, SECTOR, Region(descriptor), (DESCRIPTOR_SECTORS - 1) * SECTOR);
  }

  lemma NothingPlaced(c: Codec, h: Header, g: Geometry, img: Image, exts: seq<Extent>,
                      store: map<nat, seq<byte>>, descriptor: seq<byte>)
    requires Finished(c, h, g, img, exts, store, descriptor) && exts == []
    ensures img.curSP == h.gdOffset + g.GDsectors + g.GTs * 4 >= 21 && h.descriptorOffset == 1 && h.gdOffset == 21
    ensures g.GTs == 0 ==> g.GDsectors == 0
    ensures |Content(img.log)| == (img.curSP + 1) * SECTOR && |img.gt| == g.GTs * GTES_PER_GT
    ensures forall i :: 0 <= i < |img.gt| ==> img.gt[i] == 0
  {
    hide Stored, EncodeHeader, TableBytes, HasAt, Content, TableWords, Region, FlagsSupported, Fits, Lossless;
    GeometryFound(h, g);
  }

  /** The reader gets the descriptor back, followed by zeros. */
  lemma DescriptorFound(c: Codec, h: Header, g: Geometry, img: Image, exts: seq<Extent>,
                        store: map<nat, seq<byte>>, descriptor: seq<byte>)
    requires Finished(c, h, g, img, exts, store, descriptor) && |descriptor| <= DESCRIPTOR_SECTORS * SECTOR
    ensures Opened(h, img, g).descriptor == Some(Region(descriptor))
  {
    hide GetGDGT, FlagsSupported, Fits, Lossless, EncodeHeader, TableBytes, Complete, TableWords, Content, Top;
  }

  lemma FinishedTop(c: Codec, h: Header, g: Geometry, img: Image, exts: seq<Extent>,
                    store: map<nat, seq<byte>>, descriptor: seq<byte>)
    requires Finished(c, h, g, img, exts, store, descriptor)
    ensures h.overHead <= img.curSP && img.curSP * SECTOR + SECTOR <= |Content(img.log)|
    ensures h.overHead >= 21
  {
    hide GetGDGT, FlagsSupported, Fits, Lossless, EncodeHeader, TableBytes, Complete, TableWords, Content;
  }
}
