// A stream-optimized target: what StreamOptimized_Create fixes, and what
// StreamOptimizedClose makes of the grains that have been written.

module Target {
  import opened Bytes
  import opened Header
  import opened Grain
  import opened Layout
  import opened Journal
  import opened Reorder

  const GTES_PER_GT: nat := 512
  const DESCRIPTOR_SECTORS: nat := 20

  /** The header as StreamOptimized_Create first fills it in. */
  function DraftHeader(bytes: nat): Header {
    Header(VERSION, 0x3_0001, GTES_PER_GT, 1, 0, CeilDiv(bytes, SECTOR), GRAIN_SECTORS, 0, 0, 0, 0, 1)
  }

  function TargetGeometry(bytes: nat): Geometry {
    var n := CeilDiv(bytes, SECTOR);
    MakeGeometry(n / GRAIN_SECTORS, n % GRAIN_SECTORS * SECTOR, GTES_PER_GT)
  }

  /** ... and as it leaves it: header, descriptor, directory and tables, grains. */
  function TargetHeader(bytes: nat): Header {
    var g := TargetGeometry(bytes);
    DraftHeader(bytes).(
      descriptorOffset := 1, descriptorSize := DESCRIPTOR_SECTORS, gdOffset := 1 + DESCRIPTOR_SECTORS,
      overHead := 1 + DESCRIPTOR_SECTORS + g.GDsectors + g.GTs * g.GTsectors)
  }

  /** The grains of a target can be counted in 32 bits. */
  predicate GrainsFit(bytes: nat) {
    CeilDiv(bytes, GRAIN_BYTES) < U32
  }

  /** The largest sector number that a target of this size can need, with every grain stored
      and none compressed, fits 32 bits. */
  predicate SectorsFit(bytes: nat) {
    var GTEs := CeilDiv(bytes, GRAIN_BYTES);
    var GTs := CeilDiv(GTEs, GTES_PER_GT);
    1 + DESCRIPTOR_SECTORS + CeilDiv(GTs * 4, SECTOR) + GTs * 4 + GTEs * (GRAIN_SECTORS + 1) < U32
  }

  predicate TargetOk(h: Header, g: Geometry) {
    && GetGDGT(h) == Some(g) && Fits(h)
    && h.grainSize == GRAIN_SECTORS && h.numGTEsPerGT == GTES_PER_GT
    && h.version <= VERSION && FlagsSupported(h.flags) && IsCompressed(h.flags) && HasEmbeddedLBA(h.flags)
    && h.descriptorOffset == 1 && h.descriptorSize == DESCRIPTOR_SECTORS && h.gdOffset == 1 + DESCRIPTOR_SECTORS
    && h.overHead == h.gdOffset + g.GDsectors + g.GTs * g.GTsectors
    && h.overHead < U32 && g.GTEs < U32
  }

  lemma GrainSizeIsPow2()
    ensures Bits.IsPow2(GRAIN_SECTORS) && Bits.IsPow2(GTES_PER_GT)
  {
    Bits.Pow2Values();
    Bits.Pow2IsPow2(7);
    Bits.Pow2IsPow2(9);
  }

  lemma GeometryOf(h: Header, bytes: nat)
    requires h.grainSize == GRAIN_SECTORS && h.numGTEsPerGT == GTES_PER_GT && h.capacity == CeilDiv(bytes, SECTOR)
    ensures GetGDGT(h) == Some(TargetGeometry(bytes))
    ensures TargetGeometry(bytes).GTEs == CeilDiv(bytes, GRAIN_BYTES)
  {
    GrainSizeIsPow2();
    Bits.MaskIsRemainder(h.capacity, h.grainSize);
  }

  lemma GrainCount(bytes: nat)
    ensures TargetGeometry(bytes).GTEs == CeilDiv(bytes, GRAIN_BYTES)
    ensures TargetGeometry(bytes).GTs == TableCount(CeilDiv(bytes, GRAIN_BYTES), GTES_PER_GT)
    ensures TargetGeometry(bytes).GTsectors == WordSectors(GTES_PER_GT) == 4
    ensures TargetGeometry(bytes).GDsectors == WordSectors(TargetGeometry(bytes).GTs)
  {
  }

  lemma FourSectors(g: Geometry)
    requires g.GTsectors == 4
    ensures TableWords(g) == g.GTs * GTES_PER_GT
  {
  }

  lemma Numbers(bytes: nat)
    requires GrainsFit(bytes)
    ensures var g := TargetGeometry(bytes);
            && g.GTEs == CeilDiv(bytes, GRAIN_BYTES) < U32 && g.GTs == CeilDiv(g.GTEs, GTES_PER_GT)
            && g.GTsectors == 4 && g.GDsectors == CeilDiv(g.GTs * 4, SECTOR)
            && g.GTEs <= TableWords(g)
  {
    hide TargetGeometry, TableCount, TableWords, CeilDiv;
    var GTEs := CeilDiv(bytes, GRAIN_BYTES);
    GrainCount(bytes);
    TableCountIsCeil(GTEs, GTES_PER_GT);
    CeilBounds(GTEs, GTES_PER_GT);
    DirectorySectors(CeilDiv(GTEs, GTES_PER_GT), GTEs);
    FourSectors(TargetGeometry(bytes));
  }

  /** With the grains counted in 32 bits, directory and tables take far fewer sectors. */
  lemma DirectorySectors(GTs: nat, GTEs: nat)
    requires GTEs < U32 && GTs * GTES_PER_GT < GTEs + GTES_PER_GT
    ensures WordSectors(GTs) == CeilDiv(GTs * 4, SECTOR)
    ensures 1 + DESCRIPTOR_SECTORS + CeilDiv(GTs * 4, SECTOR) + GTs * 4 < U32
  {
    assert GTs <= 0x80_0000;
  }

  /** A target of any size whose grains can be counted is created with a sound layout. */
  lemma CreateOk(bytes: nat)
    requires GrainsFit(bytes)
    ensures TargetOk(TargetHeader(bytes), TargetGeometry(bytes))
    ensures TargetGeometry(bytes).GTEs == CeilDiv(bytes, GRAIN_BYTES) <= TableWords(TargetGeometry(bytes))
    ensures TargetHeader(bytes).overHead > 1
  {
    hide TargetGeometry, GetGDGT, TableWords, CeilDiv;
    var h, g := TargetHeader(bytes), TargetGeometry(bytes);
    GeometryOf(h, bytes);
    Numbers(bytes);
    CeilBounds(g.GTEs, GTES_PER_GT);
    DirectorySectors(g.GTs, g.GTEs);
    CapacityBound(bytes);
  }

  lemma CapacityBound(bytes: nat)
    requires GrainsFit(bytes)
    ensures CeilDiv(bytes, SECTOR) < U64
  {
    CeilBounds(bytes, GRAIN_BYTES);
    CeilBounds(bytes, SECTOR);
    hide CeilDiv;
  }

  /** Targets whose grains are all stored uncompressed fit up to two terabytes. */
  lemma TwoTerabytesFit(bytes: nat)
    requires bytes <= 2_000_000_000_000
    ensures SectorsFit(bytes)
  {
    var GTEs := CeilDiv(bytes, GRAIN_BYTES);
    assert GTEs <= bytes / GRAIN_BYTES + 1;
    assert CeilDiv(GTEs, GTES_PER_GT) <= GTEs / GTES_PER_GT + 1;
  }

  /** Where even that fits, whatever is stored does. */
  lemma AnyContentFits(c: Codec, bytes: nat, store: map<nat, seq<byte>>)
    requires Lossless(c, GRAIN_SECTORS) && SectorsFit(bytes)
    requires forall i :: i in store ==> 0 < |store[i]| <= GRAIN_BYTES
    ensures GrainsFit(bytes)
    ensures CanonSP(c, TargetHeader(bytes).overHead, store, TargetGeometry(bytes).GTEs) < U32
  {
    hide Lossless, CanonSP, TargetGeometry;
    var g := TargetGeometry(bytes);
    Numbers(bytes);
    CanonBound(c, TargetHeader(bytes).overHead, store, g.GTEs);
  }

  lemma {:induction false} CanonBound(c: Codec, base: nat, store: map<nat, seq<byte>>, n: nat)
    requires Lossless(c, GRAIN_SECTORS) && forall i :: i in store ==> 0 < |store[i]| <= GRAIN_BYTES
    ensures CanonSP(c, base, store, n) <= base + n * (GRAIN_SECTORS + 1)
  {
    hide Lossless, Sectors;
    if n > 0 {
      CanonBound(c, base, store, n - 1);
      if n - 1 in store { SectorsBound(c, GRAIN_SECTORS, store[n - 1]); }
    }
  }

  // ----- close -----

  /** The part of the writer that close works on: grain table, cursor and file. */
  datatype Image = Image(gt: seq<nat>, curSP: nat, log: seq<Op>)

  /** prefillGD: the tables follow each other from `base`. */
  function Directory(base: nat, step: nat, n: nat): (gd: seq<nat>)
    ensures |gd| == n
  {
    if n == 0 then [] else Directory(base, step, n - 1) + [(base + (n - 1) * step) % U32]
  }

  method PrefillGD(gd: array<nat>, n: nat, base: nat, step: nat) returns (gtBase: nat)
    requires n <= gd.Length
    modifies gd
    ensures gd[..n] == Directory(base, step, n) && gd[n..] == old(gd[n..])
    ensures gtBase == base + n * step
  {
    gtBase := base;
    var i := 0;
    while i < n
      invariant i <= n && gtBase == base + i * step
      invariant gd[..i] == Directory(base, step, i) && gd[n..] == old(gd[n..])
    {
      gd[i] := gtBase % U32;
      assert gd[..i + 1] == gd[..i] + [gd[i]];
      gtBase := gtBase + step;
      i := i + 1;
    }
  }

  /** The single table write: directory, padded to its sectors, and all tables. */
  function TableBytes(h: Header, g: Geometry, gt: seq<nat>): seq<byte> {
    EncodeWords(Directory(h.gdOffset + g.GDsectors, g.GTsectors, g.GTs))
    + Zeros(if g.GDsectors * SECTOR >= 4 * g.GTs then g.GDsectors * SECTOR - 4 * g.GTs else 0)
    + EncodeWords(gt)
  }

  /** reorderGrains: the grains move to a new file, the table entries follow. */
  function Reordered(h: Header, g: Geometry, img: Image): Option<Image>
    requires g.GTEs <= |img.gt|
  {
    match Rewrite(Content(img.log), h, img.gt, g.GTEs)
    case None => None
    case Some(r) => Some(Image(r.gt + img.gt[g.GTEs..], r.next, r.log))
  }

  function Placed(h: Header, g: Geometry, img: Image, reorder: bool): Option<Image>
    requires g.GTEs <= |img.gt|
  {
    if reorder && !Ordered(img.gt[..g.GTEs]) then Reordered(h, g, img) else Some(img)
  }

  /** StreamOptimizedClose after the last flush, when no write fails. */
  function Finish(h: Header, g: Geometry, img: Image, reorder: bool, descriptor: seq<byte>): Option<Image>
    requires g.GTEs <= |img.gt|
  {
    match Placed(h, g, img, reorder)
    case None => None
    case Some(p) => Some(p.(log := p.log + CloseOps(h, p.curSP, TableBytes(h, g, p.gt), descriptor)))
  }

  /** A written, not yet closed target that holds exactly `store`, in sectors that can be
      counted in 32 bits. */
  ghost predicate Written(c: Codec, h: Header, g: Geometry, img: Image, exts: seq<Extent>,
                          store: map<nat, seq<byte>>) {
    && Lossless(c, GRAIN_SECTORS) && TargetOk(h, g)
    && |img.gt| == TableWords(g) && g.GTEs <= TableWords(g)
    && (forall i :: i in store ==> i < g.GTEs)
    && Complete(c, h.overHead, img.gt, exts, Content(img.log), store)
    && img.curSP == Top(c, h.overHead, exts) && img.curSP < U32
    && WritesIn(h.overHead, img.curSP, img.log)
  }

  /** What the rewrite loop has built after `n` grains of a complete image: the canonical
      placement of the first `n` grains. */
  ghost predicate RewrittenTo(c: Codec, base: nat, store: map<nat, seq<byte>>, n: nat, r: Rewritten) {
    && r.gt == CanonGT(c, base, store, n) && r.next == CanonSP(c, base, store, n)
    && (forall e :: e in CanonExts(c, base, store, n) ==> Stored(c, Content(r.log), e))
    && WritesIn(base, r.next, r.log)
  }

  /** Writing grain `n`'s record at its canonical place completes the first n + 1. */
  lemma CanonWrite(c: Codec, base: nat, store: map<nat, seq<byte>>, n: nat, log: seq<Op>)
    requires n in store
    requires forall e :: e in CanonExts(c, base, store, n) ==> Stored(c, Content(log), e)
    ensures var w := Write(CanonSP(c, base, store, n) * SECTOR, Record(c, n * GRAIN_SECTORS, store[n]));
            forall e :: e in CanonExts(c, base, store, n + 1) ==> Stored(c, Content(log + [w]), e)
  {
    var sp, record := CanonSP(c, base, store, n), Record(c, n * GRAIN_SECTORS, store[n]);
    var w := Write(sp * SECTOR, record);
    ContentAppend(log, w);
    PwriteHas(Content(log), sp * SECTOR, record);
    CanonTiled(c, base, store, n);
    forall e | e in CanonExts(c, base, store, n + 1) ensures Stored(c, Content(log + [w]), e) {
      if e in CanonExts(c, base, store, n) {
        ExtentInside(c, base, CanonExts(c, base, store, n), e);
        PwriteKeeps(Content(log), sp * SECTOR, record, e.sp * SECTOR, Record(c, e.nr * GRAIN_SECTORS, e.data));
      }
    }
  }

  lemma RewriteStored(c: Codec, h: Header, f: seq<byte>, e: Extent, store: map<nat, seq<byte>>, r: Rewritten)
    requires Lossless(c, GRAIN_SECTORS) && h.grainSize == GRAIN_SECTORS && HasEmbeddedLBA(h.flags)
    requires e.nr < U32 && 1 < e.sp && e.sp + 1 < U32
    requires e.nr in store && store[e.nr] == e.data && 0 < |e.data| <= GRAIN_BYTES && Stored(c, f, e)
    requires RewrittenTo(c, h.overHead, store, e.nr, r)
    requires CanonSP(c, h.overHead, store, e.nr + 1) < U32
    ensures var r' := RewriteOne(f, h, e.sp, r);
            r'.Some? && RewrittenTo(c, h.overHead, store, e.nr + 1, r'.value)
  {
    hide Lossless, RewrittenTo, RewriteOne, Record, FetchGrain, RecordBytes, CanonSP;
    FetchRecord(c, h, f, e.sp, e.nr * GRAIN_SECTORS, e.data);
    RewriteRecord(c, h, f, e, store, r);
  }

  lemma RewriteRecord(c: Codec, h: Header, f: seq<byte>, e: Extent, store: map<nat, seq<byte>>, r: Rewritten)
    requires e.sp > 1 && e.nr in store && store[e.nr] == e.data
    requires RecordBytes(f, h, e.sp) == Some(Record(c, e.nr * GRAIN_SECTORS, e.data))
    requires RewrittenTo(c, h.overHead, store, e.nr, r)
    requires CanonSP(c, h.overHead, store, e.nr + 1) < U32
    ensures var r' := RewriteOne(f, h, e.sp, r);
            r'.Some? && RewrittenTo(c, h.overHead, store, e.nr + 1, r'.value)
  {
    hide Stored, Content, CanonExts, RecordBytes, Record, CanonGT, Sectors;
    CanonWrite(c, h.overHead, store, e.nr, r.log);
    CanonGTStep(c, h.overHead, store, e.nr);
  }

  lemma CanonGTStep(c: Codec, base: nat, store: map<nat, seq<byte>>, n: nat)
    ensures CanonGT(c, base, store, n + 1)
            == CanonGT(c, base, store, n) + [if n in store then CanonSP(c, base, store, n) else 0]
  {
  }

  lemma RewriteSkipped(c: Codec, h: Header, f: seq<byte>, store: map<nat, seq<byte>>, n: nat, r: Rewritten)
    requires n !in store && RewrittenTo(c, h.overHead, store, n, r)
    ensures var r' := RewriteOne(f, h, 0, r);
            r'.Some? && RewrittenTo(c, h.overHead, store, n + 1, r'.value)
  {
    CanonGTStep(c, h.overHead, store, n);
  }

  lemma EntryStored(c: Codec, h: Header, g: Geometry, img: Image, exts: seq<Extent>,
                    store: map<nat, seq<byte>>, i: nat)
    requires Written(c, h, g, img, exts, store) && i < g.GTEs
    ensures i !in store ==> img.gt[i] == 0
    ensures i in store ==> 1 < img.gt[i] && img.gt[i] + 1 < U32 && 0 < |store[i]| <= GRAIN_BYTES
                           && Stored(c, Content(img.log), Extent(i, img.gt[i], store[i]))
  {
    hide TargetOk, Lossless, Tiled, Distinct, Stored, Content, Top;
    if i in store {
      var e := Extent(i, img.gt[i], store[i]);
      assert e in exts;
      ExtentInside(c, h.overHead, exts, e);
    }
  }

  lemma WrittenHeader(c: Codec, h: Header, g: Geometry, img: Image, exts: seq<Extent>, store: map<nat, seq<byte>>)
    requires Written(c, h, g, img, exts, store)
    ensures Lossless(c, GRAIN_SECTORS) && h.grainSize == GRAIN_SECTORS && HasEmbeddedLBA(h.flags) && g.GTEs < U32
  {
    hide Lossless, GetGDGT, Complete;
  }

  lemma RewriteCanonicalStep(c: Codec, h: Header, g: Geometry, img: Image, exts: seq<Extent>,
                             store: map<nat, seq<byte>>, n: nat, r: Rewritten)
    requires Written(c, h, g, img, exts, store) && n < g.GTEs && RewrittenTo(c, h.overHead, store, n, r)
    ensures var r' := RewriteOne(Content(img.log), h, img.gt[n], r);
            r'.Some? && RewrittenTo(c, h.overHead, store, n + 1, r'.value)
  {
    hide RewrittenTo, Stored, Complete, Content, RewriteOne, TargetOk, Lossless;
    CanonFits(c, h, g, img, exts, store, n + 1);
    EntryStored(c, h, g, img, exts, store, n);
    WrittenHeader(c, h, g, img, exts, store);
    if n in store {
      RewriteStored(c, h, Content(img.log), Extent(n, img.gt[n], store[n]), store, r);
    } else {
      RewriteSkipped(c, h, Content(img.log), store, n, r);
    }
  }

  lemma {:induction false} RewriteCanonical(c: Codec, h: Header, g: Geometry, img: Image, exts: seq<Extent>,
                                            store: map<nat, seq<byte>>, n: nat)
    requires Written(c, h, g, img, exts, store) && n <= g.GTEs
    ensures n <= |img.gt|
    ensures var r := Rewrite(Content(img.log), h, img.gt, n);
            r.Some? && RewrittenTo(c, h.overHead, store, n, r.value)
  {
    hide Written, Content, RewrittenTo, RewriteOne;
    WrittenSize(c, h, g, img, exts, store);
    if n == 0 {
      RewrittenNone(c, h, store);
    } else {
      RewriteCanonical(c, h, g, img, exts, store, n - 1);
      RewriteCanonicalStep(c, h, g, img, exts, store, n - 1, Rewrite(Content(img.log), h, img.gt, n - 1).value);
    }
  }

  lemma RewrittenNone(c: Codec, h: Header, store: map<nat, seq<byte>>)
    ensures RewrittenTo(c, h.overHead, store, 0, Rewritten([], [], h.overHead))
  {
  }

  lemma WrittenSize(c: Codec, h: Header, g: Geometry, img: Image, exts: seq<Extent>, store: map<nat, seq<byte>>)
    requires Written(c, h, g, img, exts, store)
    ensures g.GTEs <= |img.gt|
  {
  }

  /** One extent for each grain of `store` below `n`. */
  ghost predicate Covers(exts: seq<Extent>, store: map<nat, seq<byte>>, n: nat) {
    && Within(exts, store, n)
    && (forall j :: j in store && j < n ==> exists a :: 0 <= a < |exts| && exts[a].nr == j)
  }

  lemma CoversWithout(exts: seq<Extent>, store: map<nat, seq<byte>>, n: nat, a: nat)
    requires Covers(exts, store, n) && n > 0 && a < |exts| && exts[a].nr == n - 1
    ensures Covers(exts[..a] + exts[a + 1..], store, n - 1)
  {
    hide Within;
    var rest := exts[..a] + exts[a + 1..];
    WithinWithout(exts, store, n, a);
    forall j | j in store && j < n - 1 ensures exists b :: 0 <= b < |rest| && rest[b].nr == j {
      var b :| 0 <= b < |exts| && exts[b].nr == j;
      assert rest[if b < a then b else b - 1].nr == j;
    }
  }

  lemma {:induction false} TopIsCanon(c: Codec, base: nat, exts: seq<Extent>, store: map<nat, seq<byte>>, n: nat)
    requires Covers(exts, store, n)
    ensures Top(c, base, exts) == CanonSP(c, base, store, n)
  {
    hide Covers, Sectors, Top;
    if n == 0 {
      NoExtents(c, base, exts, store);
    } else {
      var a := CoversStep(exts, store, n);
      if n - 1 in store {
        var rest := exts[..a] + exts[a + 1..];
        TopWithout(c, base, exts, a);
        TopIsCanon(c, base, rest, store, n - 1);
      } else {
        TopIsCanon(c, base, exts, store, n - 1);
      }
    }
  }

  lemma NoExtents(c: Codec, base: nat, exts: seq<Extent>, store: map<nat, seq<byte>>)
    requires Covers(exts, store, 0)
    ensures Top(c, base, exts) == base
  {
    NoneWithin(c, base, exts, store);
  }

  lemma CoversStep(exts: seq<Extent>, store: map<nat, seq<byte>>, n: nat) returns (a: nat)
    requires Covers(exts, store, n) && n > 0
    ensures n - 1 in store ==>
              a < |exts| && exts[a].data == store[n - 1] && Covers(exts[..a] + exts[a + 1..], store, n - 1)
    ensures n - 1 !in store ==> Covers(exts, store, n - 1)
  {
    a := 0;
    hide Distinct;
    if n - 1 in store {
      a :| 0 <= a < |exts| && exts[a].nr == n - 1;
      CoversWithout(exts, store, n, a);
      DataWithin(exts, store, n, a);
    }
  }

  lemma CursorIsCanon(c: Codec, h: Header, g: Geometry, img: Image, exts: seq<Extent>, store: map<nat, seq<byte>>)
    requires Written(c, h, g, img, exts, store)
    ensures img.curSP == CanonSP(c, h.overHead, store, g.GTEs)
  {
    hide TargetOk, Lossless, Stored, Tiled, Top, CanonSP;
    WrittenCovers(c, h.overHead, img.gt, exts, Content(img.log), store, g.GTEs);
    TopIsCanon(c, h.overHead, exts, store, g.GTEs);
  }

  lemma CanonFits(c: Codec, h: Header, g: Geometry, img: Image, exts: seq<Extent>,
                  store: map<nat, seq<byte>>, n: nat)
    requires Written(c, h, g, img, exts, store) && n <= g.GTEs
    ensures CanonSP(c, h.overHead, store, n) <= img.curSP < U32
  {
    hide TargetOk, Complete, Lossless, Top;
    CursorIsCanon(c, h, g, img, exts, store);
    CanonMono(c, h.overHead, store, n, g.GTEs);
  }

  lemma WrittenCovers(c: Codec, base: nat, gt: seq<nat>, exts: seq<Extent>, f: seq<byte>,
                      store: map<nat, seq<byte>>, n: nat)
    requires Complete(c, base, gt, exts, f, store) && forall i :: i in store ==> i < n
    ensures Covers(exts, store, n)
  {
    hide Tiled, Stored;
    forall a | 0 <= a < |exts|
      ensures exts[a].nr < n && exts[a].nr in store && exts[a].data == store[exts[a].nr]
    {
      assert exts[a] in exts;
    }
    forall j | j in store && j < n ensures exists a :: 0 <= a < |exts| && exts[a].nr == j {
      assert Extent(j, gt[j], store[j]) in exts;
    }
  }

  lemma WrittenStore(c: Codec, h: Header, g: Geometry, img: Image, exts: seq<Extent>, store: map<nat, seq<byte>>)
    requires Written(c, h, g, img, exts, store)
    ensures g.GTEs <= |img.gt| == TableWords(g) && h.overHead > 1
    ensures forall i :: i in store ==> i < g.GTEs && 0 < |store[i]| <= GRAIN_BYTES
    ensures forall i :: g.GTEs <= i < |img.gt| ==> img.gt[i] == 0
  {
  }

  lemma WrittenAgain(c: Codec, h: Header, g: Geometry, img: Image, exts: seq<Extent>, store: map<nat, seq<byte>>,
                     img': Image, exts': seq<Extent>)
    requires Written(c, h, g, img, exts, store) && |img'.gt| == |img.gt|
    requires Complete(c, h.overHead, img'.gt, exts', Content(img'.log), store)
    requires img'.curSP == Top(c, h.overHead, exts') < U32
    requires WritesIn(h.overHead, img'.curSP, img'.log)
    ensures Written(c, h, g, img', exts', store)
  {
    hide Complete, TargetOk, Lossless, WritesIn;
  }

  lemma ReorderedWritten(c: Codec, h: Header, g: Geometry, img: Image, exts: seq<Extent>,
                         store: map<nat, seq<byte>>)
    requires Written(c, h, g, img, exts, store)
    ensures g.GTEs <= |img.gt|
    ensures var p := Reordered(h, g, img);
            && p.Some? && Written(c, h, g, p.value, CanonExts(c, h.overHead, store, g.GTEs), store)
            && p.value.gt == CanonGT(c, h.overHead, store, TableWords(g))
            && p.value.curSP == CanonSP(c, h.overHead, store, g.GTEs)
  {
    hide Written, Content, Stored, CanonGT, CanonSP, CanonExts, Complete, Top, TableWords, Rewrite, RewrittenTo;
    WrittenStore(c, h, g, img, exts, store);
    var n, base := g.GTEs, h.overHead;
    RewriteCanonical(c, h, g, img, exts, store, n);
    var r := Rewrite(Content(img.log), h, img.gt, n).value;
    var p := Image(r.gt + img.gt[n..], r.next, r.log);
    RewrittenParts(c, base, store, n, r);
    CanonPadded(c, base, store, n, img.gt);
    CanonComplete(c, base, p.gt, Content(p.log), store, n);
    CanonFits(c, h, g, img, exts, store, n);
    WrittenAgain(c, h, g, img, exts, store, p, CanonExts(c, base, store, n));
  }

  lemma RewrittenParts(c: Codec, base: nat, store: map<nat, seq<byte>>, n: nat, r: Rewritten)
    requires RewrittenTo(c, base, store, n, r)
    ensures r.gt == CanonGT(c, base, store, n) && r.next == CanonSP(c, base, store, n)
    ensures forall e :: e in CanonExts(c, base, store, n) ==> Stored(c, Content(r.log), e)
    ensures WritesIn(base, r.next, r.log)
  {
  }

  lemma CanonPadded(c: Codec, base: nat, store: map<nat, seq<byte>>, n: nat, gt: seq<nat>)
    requires n <= |gt| && forall i :: i in store ==> i < n
    requires forall i :: n <= i < |gt| ==> gt[i] == 0
    ensures CanonGT(c, base, store, n) + gt[n..] == CanonGT(c, base, store, |gt|)
  {
  }

  lemma CanonComplete(c: Codec, base: nat, gt: seq<nat>, f: seq<byte>, store: map<nat, seq<byte>>, n: nat)
    requires base > 1 && n <= |gt| && gt == CanonGT(c, base, store, |gt|)
    requires forall i :: i in store ==> i < n && 0 < |store[i]| <= GRAIN_BYTES
    requires forall e :: e in CanonExts(c, base, store, n) ==> Stored(c, f, e)
    ensures Complete(c, base, gt, CanonExts(c, base, store, n), f, store)
    ensures Top(c, base, CanonExts(c, base, store, n)) == CanonSP(c, base, store, n)
  {
    hide Tiled, Distinct, Stored, Top, CanonSP, CanonExts, CanonGT;
    CanonTiled(c, base, store, n);
    forall i | 0 <= i < |gt| ensures gt[i] == if i in store then CanonSP(c, base, store, i) else 0 {
      CanonEntry(c, base, store, |gt|, i);
    }
    forall i | i in store ensures Extent(i, gt[i], store[i]) in CanonExts(c, base, store, n) {
      CanonIn(c, base, store, n, i);
    }
  }

  lemma CanonEntry(c: Codec, base: nat, store: map<nat, seq<byte>>, n: nat, i: nat)
    requires i < n
    ensures CanonGT(c, base, store, n)[i] == if i in store then CanonSP(c, base, store, i) else 0
  {
  }

  lemma OrderedPrefix(gt: seq<nat>, n: nat)
    requires n <= |gt| && Ordered(gt[..n]) && forall i :: n <= i < |gt| ==> gt[i] == 0
    ensures Ordered(gt)
  {
    forall i, j | 0 <= i < j < |gt| && gt[i] > 1 && gt[j] > 1 ensures gt[i] <= gt[j] {
      assert gt[..n][i] <= gt[..n][j];
    }
  }

  /** Close's placement step: with reordering on, an image that was already ordered is left
      alone and any other is rewritten, and both ways end in the canonical table; the
      cursor does not change either way. */
  lemma PlacedCanonical(c: Codec, h: Header, g: Geometry, img: Image, exts: seq<Extent>,
                        store: map<nat, seq<byte>>, reorder: bool) returns (exts': seq<Extent>)
    requires Written(c, h, g, img, exts, store)
    ensures var p := Placed(h, g, img, reorder);
            && p.Some? && Written(c, h, g, p.value, exts', store)
            && p.value.curSP == img.curSP
            && (reorder ==> p.value.gt == CanonGT(c, h.overHead, store, TableWords(g)))
  {
    CursorIsCanon(c, h, g, img, exts, store);
    if reorder && !Ordered(img.gt[..g.GTEs]) {
      exts' := CanonExts(c, h.overHead, store, g.GTEs);
      hide Written, Reordered;
      assert g.GTEs <= |img.gt| by { WrittenSize(c, h, g, img, exts, store); }
      ReorderedWritten(c, h, g, img, exts, store);
    } else {
      exts' := exts;
      if reorder {
        OrderedPrefix(img.gt, g.GTEs);
        OrderedIsCanonical(c, h.overHead, img.gt, exts, Content(img.log), store);
      }
    }
  }

  // ----- the closed file -----

  /** The descriptor's sectors: its text, then zeros. */
  function Region(descriptor: seq<byte>): seq<byte> {
    if |descriptor| <= DESCRIPTOR_SECTORS * SECTOR then
      descriptor + Zeros(DESCRIPTOR_SECTORS * SECTOR - |descriptor|)
    else descriptor
  }

  /** Every part of a closed target is where the header says, untouched by the others. */
  ghost predicate Finished(c: Codec, h: Header, g: Geometry, img: Image, exts: seq<Extent>,
                           store: map<nat, seq<byte>>, descriptor: seq<byte>) {
    var f := Content(img.log);
    && Lossless(c, GRAIN_SECTORS) && TargetOk(h, g) && |img.gt| == TableWords(g)
    && (forall i :: i in store ==> i < g.GTEs)
    && Complete(c, h.overHead, img.gt, exts, f, store)
    && img.curSP == Top(c, h.overHead, exts) && img.curSP < U32
    && |f| == (img.curSP + 1) * SECTOR
    && HasAt(f, 0, EncodeHeader(h, false))
    && HasAt(f, h.descriptorOffset * SECTOR, Region(descriptor))
    && HasAt(f, h.gdOffset * SECTOR, TableBytes(h, g, img.gt))
    && HasAt(f, img.curSP * SECTOR, Zeros(SECTOR))
  }

  lemma TableBytesSize(h: Header, g: Geometry, gt: seq<nat>)
    requires TargetOk(h, g) && |gt| == TableWords(g)
    ensures |TableBytes(h, g, gt)| == (g.GDsectors + g.GTs * g.GTsectors) * SECTOR
    ensures g.GDsectors * SECTOR >= 4 * g.GTs
  {
    GeometryFacts(h, g);
  }

  /** The five writes of close, as file contents. */
  function ClosedFile(f: seq<byte>, h: Header, curSP: nat, tables: seq<byte>, descriptor: seq<byte>): seq<byte> {
    var f1 := Pwrite(f, curSP * SECTOR, Zeros(SECTOR));
    var f2 := Pwrite(f1, h.gdOffset * SECTOR, tables);
    var f3 := Pwrite(f2, h.descriptorOffset * SECTOR, descriptor);
    Pwrite(Pwrite(f3, 0, EncodeHeader(h, true)), 0, EncodeHeader(h, false))
  }

  lemma CloseContent(before: seq<Op>, h: Header, curSP: nat, tables: seq<byte>, descriptor: seq<byte>)
    ensures Content(before + CloseOps(h, curSP, tables, descriptor))
            == ClosedFile(Content(before), h, curSP, tables, descriptor)
  {
    hide EncodeHeader, Content, Pwrite;
    var ops := CloseOps(h, curSP, tables, descriptor);
    PrefixContents(before, ops);
    FirstThree(before, ops);
  }

  lemma FirstThree(before: seq<Op>, ops: seq<Op>)
    requires |ops| >= 3
    ensures Content(before + ops[..3]) == Apply(Apply(Apply(Content(before), ops[0]), ops[1]), ops[2])
  {
    hide Content, Apply;
    ContentStep(before, ops, 0);
    ContentStep(before, ops, 1);
    ContentStep(before, ops, 2);
    assert before + ops[..0] == before;
  }

  /** A region that none of close's writes overlaps keeps its bytes. */
  lemma ClosedKeeps(f: seq<byte>, h: Header, curSP: nat, tables: seq<byte>, descriptor: seq<byte>, p: nat, d: seq<byte>)
    requires HasAt(f, p, d) && SECTOR <= p && p + |d| <= curSP * SECTOR
    requires p + |d| <= h.gdOffset * SECTOR || h.gdOffset * SECTOR + |tables| <= p
    requires p + |d| <= h.descriptorOffset * SECTOR || h.descriptorOffset * SECTOR + |descriptor| <= p
    ensures HasAt(ClosedFile(f, h, curSP, tables, descriptor), p, d)
  {
    hide Pwrite, HasAt;
    var f1 := Pwrite(f, curSP * SECTOR, Zeros(SECTOR));
    PwriteKeeps(f, curSP * SECTOR, Zeros(SECTOR), p, d);
    var f2 := Pwrite(f1, h.gdOffset * SECTOR, tables);
    PwriteKeeps(f1, h.gdOffset * SECTOR, tables, p, d);
    var f3 := Pwrite(f2, h.descriptorOffset * SECTOR, descriptor);
    PwriteKeeps(f2, h.descriptorOffset * SECTOR, descriptor, p, d);
    PwriteKeeps(f3, 0, EncodeHeader(h, true), p, d);
    PwriteKeeps(Pwrite(f3, 0, EncodeHeader(h, true)), 0, EncodeHeader(h, false), p, d);
  }

  /** Each of close's own writes survives the later ones. */
  lemma ClosedHas(f: seq<byte>, h: Header, curSP: nat, tables: seq<byte>, descriptor: seq<byte>)
    requires |descriptor| > 0 && SECTOR <= h.descriptorOffset * SECTOR
    requires h.descriptorOffset * SECTOR + |descriptor| <= h.gdOffset * SECTOR
    requires h.gdOffset * SECTOR + |tables| <= curSP * SECTOR
    ensures var r := ClosedFile(f, h, curSP, tables, descriptor);
            && HasAt(r, 0, EncodeHeader(h, false)) && HasAt(r, h.descriptorOffset * SECTOR, descriptor)
            && HasAt(r, h.gdOffset * SECTOR, tables) && HasAt(r, curSP * SECTOR, Zeros(SECTOR))
  {
    hide Pwrite, HasAt;
    var t, e := EncodeHeader(h, true), EncodeHeader(h, false);
    var ps, pt, pd := curSP * SECTOR, h.gdOffset * SECTOR, h.descriptorOffset * SECTOR;
    var zeros := Zeros(SECTOR);
    var f1 := Pwrite(f, ps, zeros);
    var f2 := Pwrite(f1, pt, tables);
    var f3 := Pwrite(f2, pd, descriptor);
    var f4 := Pwrite(f3, 0, t);
    PwriteHas(f, ps, zeros);
    PwriteKeeps(f1, pt, tables, ps, zeros);
    PwriteKeeps(f2, pd, descriptor, ps, zeros);
    PwriteKeeps(f3, 0, t, ps, zeros);
    PwriteKeeps(f4, 0, e, ps, zeros);
    PwriteHas(f1, pt, tables);
    PwriteKeeps(f2, pd, descriptor, pt, tables);
    PwriteKeeps(f3, 0, t, pt, tables);
    PwriteKeeps(f4, 0, e, pt, tables);
    PwriteHas(f2, pd, descriptor);
    PwriteKeeps(f3, 0, t, pd, descriptor);
    PwriteKeeps(f4, 0, e, pd, descriptor);
    PwriteHas(f4, 0, e);
  }

  /** The sectors between header and directory hold the descriptor and nothing else. */
  lemma ClosedRegion(f: seq<byte>, h: Header, curSP: nat, tables: seq<byte>, descriptor: seq<byte>)
    requires 0 < |descriptor| <= DESCRIPTOR_SECTORS * SECTOR
    requires h.descriptorOffset == 1 && h.gdOffset == 1 + DESCRIPTOR_SECTORS && h.gdOffset <= curSP
    requires forall i :: 0 <= i < |f| && i < h.gdOffset * SECTOR ==> f[i] == 0
    ensures HasAt(ClosedFile(f, h, curSP, tables, descriptor), h.descriptorOffset * SECTOR, Region(descriptor))
  {
    hide Pwrite, HasAt, Region, EncodeHeader;
    var zeros, region := Zeros(DESCRIPTOR_SECTORS * SECTOR), Region(descriptor);
    var f1 := Pwrite(f, curSP * SECTOR, Zeros(SECTOR));
    ZeroGap(f, curSP * SECTOR, SECTOR, h.gdOffset * SECTOR);
    var f2 := Pwrite(f1, h.gdOffset * SECTOR, tables);
    PwriteKeeps(f1, h.gdOffset * SECTOR, tables, SECTOR, zeros);
    var f3 := Pwrite(f2, SECTOR, descriptor);
    RegionWritten(f2, descriptor);
    PwriteKeeps(f3, 0, EncodeHeader(h, true), SECTOR, region);
    PwriteKeeps(Pwrite(f3, 0, EncodeHeader(h, true)), 0, EncodeHeader(h, false), SECTOR, region);
  }

  /** The end marker is the end of the file. */
  lemma ClosedLength(f: seq<byte>, h: Header, curSP: nat, tables: seq<byte>, descriptor: seq<byte>)
    requires |f| <= curSP * SECTOR && curSP > 0
    requires h.gdOffset * SECTOR + |tables| <= curSP * SECTOR
    requires h.descriptorOffset * SECTOR + |descriptor| <= curSP * SECTOR
    ensures |ClosedFile(f, h, curSP, tables, descriptor)| == (curSP + 1) * SECTOR
  {
    hide EncodeHeader;
  }

  lemma ZeroGap(f: seq<byte>, pos: nat, lo: nat, hi: nat)
    requires lo <= hi <= pos && forall i :: 0 <= i < |f| && i < hi ==> f[i] == 0
    ensures HasAt(Pwrite(f, pos, Zeros(SECTOR)), lo, Zeros(hi - lo))
  {
  }

  lemma RegionWritten(f: seq<byte>, descriptor: seq<byte>)
    requires 0 < |descriptor| <= DESCRIPTOR_SECTORS * SECTOR
    requires HasAt(f, SECTOR, Zeros(DESCRIPTOR_SECTORS * SECTOR))
    ensures HasAt(Pwrite(f, SECTOR, descriptor), SECTOR, Region(descriptor))
    ensures |Region(descriptor)| == DESCRIPTOR_SECTORS * SECTOR
  {
    var g, n := Pwrite(f, SECTOR, descriptor), DESCRIPTOR_SECTORS * SECTOR;
    forall i | 0 <= i < n ensures g[SECTOR + i] == Region(descriptor)[i] {
      assert f[SECTOR..SECTOR + n][i] == 0;
    }
    assert g[SECTOR..SECTOR + n] == Region(descriptor);
  }

  lemma ClosedComplete(c: Codec, h: Header, g: Geometry, gt: seq<nat>, exts: seq<Extent>, f: seq<byte>,
                       store: map<nat, seq<byte>>, tables: seq<byte>, descriptor: seq<byte>)
    requires Complete(c, h.overHead, gt, exts, f, store)
    requires h.gdOffset * SECTOR + |tables| <= h.overHead * SECTOR
    requires h.descriptorOffset * SECTOR + |descriptor| <= h.overHead * SECTOR
    ensures Complete(c, h.overHead, gt, exts,
                     ClosedFile(f, h, Top(c, h.overHead, exts), tables, descriptor), store)
  {
    var f' := ClosedFile(f, h, Top(c, h.overHead, exts), tables, descriptor);
    forall e | e in exts ensures Stored(c, f', e) {
      ExtentInside(c, h.overHead, exts, e);
      hide ClosedFile, Complete;
      ClosedKeeps(f, h, Top(c, h.overHead, exts), tables, descriptor,
                  e.sp * SECTOR, Record(c, e.nr * GRAIN_SECTORS, e.data));
    }
  }

  /** Close, when no write fails: it succeeds, the cursor is unchanged, nothing written
      before it touched the header, the closed file is finished, and with reordering on
      the table is the canonical one. */
  lemma FinishWritten(c: Codec, h: Header, g: Geometry, img: Image, exts: seq<Extent>,
                      store: map<nat, seq<byte>>, reorder: bool, descriptor: seq<byte>)
    returns (exts': seq<Extent>, before: seq<Op>)
    requires Written(c, h, g, img, exts, store)
    requires 0 < |descriptor| <= DESCRIPTOR_SECTORS * SECTOR
    ensures g.GTEs <= |img.gt|
    ensures var r := Finish(h, g, img, reorder, descriptor);
            && r.Some? && Finished(c, h, g, r.value, exts', store, descriptor)
            && r.value.curSP == img.curSP
            && r.value.log == before + CloseOps(h, img.curSP, TableBytes(h, g, r.value.gt), descriptor)
            && HeaderUntouched(before)
            && (reorder ==> r.value.gt == CanonGT(c, h.overHead, store, TableWords(g)))
  {
    hide Written, Placed, Finished, CanonGT, TableWords, TableBytes, CloseOps, HeaderUntouched, Region;
    WrittenStore(c, h, g, img, exts, store);
    exts' := PlacedCanonical(c, h, g, img, exts, store, reorder);
    var p := Placed(h, g, img, reorder).value;
    before := p.log;
    ClosePlaced(c, h, g, p, exts', store, descriptor);
  }

  lemma ClosePlaced(c: Codec, h: Header, g: Geometry, p: Image, exts: seq<Extent>,
                    store: map<nat, seq<byte>>, descriptor: seq<byte>)
    requires Written(c, h, g, p, exts, store)
    requires 0 < |descriptor| <= DESCRIPTOR_SECTORS * SECTOR
    ensures var log := p.log + CloseOps(h, p.curSP, TableBytes(h, g, p.gt), descriptor);
            Finished(c, h, g, p.(log := log), exts, store, descriptor) && HeaderUntouched(p.log)
  {
    var tables := TableBytes(h, g, p.gt);
    TableBytesSize(h, g, p.gt);
    hide TableBytes, TableWords, Complete, Lossless, EncodeHeader;
    CloseContent(p.log, h, p.curSP, tables, descriptor);
    ClosedHas(Content(p.log), h, p.curSP, tables, descriptor);
    BehindHeader(h.overHead, p.curSP, p.log);
    WrittenPart(h.overHead, p.curSP, p.log);
    ClosedLength(Content(p.log), h, p.curSP, tables, descriptor);
    ClosedRegion(Content(p.log), h, p.curSP, tables, descriptor);
    ClosedComplete(c, h, g, p.gt, exts, Content(p.log), store, tables, descriptor);
  }
}
