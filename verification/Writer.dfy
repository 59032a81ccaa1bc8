// The buffered sequential writer: one grain of write buffer with a valid range, zero fill,
// zero elision, and no rewriting of a stored grain.

module Writer {
  import opened Bytes
  import opened Bits
  import opened Header
  import opened Grain
  import opened Layout
  import opened Journal
  import opened Reorder
  import opened Target
  import Pool

  const NO_GRAIN: int := -1 // ~0ULL

  /** In-capacity bytes of grain `nr`. */
  function GrainLen(g: Geometry, nr: nat): nat {
    if nr < g.lastGrainNr then GRAIN_BYTES
    else if nr == g.lastGrainNr then g.lastGrainSize
    else 0
  }

  /** `data` written at `pos` over `m`; what lies behind the end of `m` is dropped. */
  function Overlay(m: seq<byte>, data: seq<byte>, pos: nat): (r: seq<byte>)
    ensures |r| == |m|
  {
    seq(|m|, i requires 0 <= i < |m| => if pos <= i < pos + |data| then data[i - pos] else m[i])
  }

  lemma OverlayJoin(m: seq<byte>, a: seq<byte>, b: seq<byte>, pos: nat)
    ensures Overlay(Overlay(m, a, pos), b, pos + |a|) == Overlay(m, a + b, pos)
  {
  }

  /** The byte that the stored grains give at offset `o` of grain `nr`. */
  function StoredByte(store: map<nat, seq<byte>>, nr: nat, o: nat): byte {
    if nr in store && o < |store[nr]| then store[nr][o] else 0
  }

  /** The stored grains hold the disk `model`. */
  ghost predicate Stores(model: seq<byte>, store: map<nat, seq<byte>>) {
    forall p :: 0 <= p < |model| ==> model[p] == StoredByte(store, p / GRAIN_BYTES, p % GRAIN_BYTES)
  }

  /** No grain is stored short of its in-capacity length. */
  ghost predicate Whole(g: Geometry, store: map<nat, seq<byte>>) {
    forall nr :: nr in store ==> GrainLen(g, nr) <= |store[nr]|
  }

  /** The valid range of the buffer over the stored grains holds the disk `model`. */
  ghost predicate Agrees(model: seq<byte>, store: map<nat, seq<byte>>, nr: int, lo: nat, hi: nat, buf: seq<byte>)
    requires hi <= |buf|
  {
    forall p :: 0 <= p < |model| ==>
      var o := p % GRAIN_BYTES;
      model[p] == if p / GRAIN_BYTES == nr && lo <= o < hi then buf[o] else StoredByte(store, p / GRAIN_BYTES, o)
  }

  /** Stored grains are whole and not all zeros. */
  ghost predicate Grains(g: Geometry, store: map<nat, seq<byte>>) {
    && Whole(g, store)
    && forall nr :: nr in store ==>
         nr < g.GTEs && 0 < |store[nr]| <= GRAIN_BYTES && !Pool.IsZeroed(store[nr])
  }

  /** They hold what the disk `model` has for them, except perhaps grain `except`. */
  ghost predicate Held(g: Geometry, store: map<nat, seq<byte>>, model: seq<byte>, except: int) {
    && Grains(g, store)
    && forall p :: 0 <= p < |model| && p / GRAIN_BYTES in store && p / GRAIN_BYTES != except ==>
         model[p] == StoredByte(store, p / GRAIN_BYTES, p % GRAIN_BYTES)
  }

  /** The table has an entry for every stored grain. */
  ghost predicate Named(gt: seq<nat>, store: map<nat, seq<byte>>) {
    forall nr :: nr in store ==> nr < |gt| && gt[nr] != 0
  }

  lemma HeldExcept(g: Geometry, store: map<nat, seq<byte>>, model: seq<byte>, except: int)
    requires Held(g, store, model, NO_GRAIN)
    ensures Held(g, store, model, except)
  {
    hide Whole, StoredByte;
  }

  lemma HeldGrains(g: Geometry, store: map<nat, seq<byte>>, model: seq<byte>, except: int)
    requires Held(g, store, model, except)
    ensures Grains(g, store)
  {
  }

  /** The entry of a grain that is not stored does not matter. */
  lemma NamedEntry(gt: seq<nat>, store: map<nat, seq<byte>>, nr: nat, sp: nat)
    requires Named(gt, store) && nr < |gt| && gt[nr] == 0
    ensures Named(gt[nr := sp], store) && nr !in store
  {
  }

  /** A newly stored grain that holds the disk. */
  lemma HeldStored(g: Geometry, gt: seq<nat>, store: map<nat, seq<byte>>, model: seq<byte>, nr: nat, sp: nat,
                   data: seq<byte>)
    requires Held(g, store, model, NO_GRAIN) && Named(gt, store)
    requires nr < g.GTEs && nr < |gt| && gt[nr] == 0 && sp != 0
    requires 0 < |data| <= GRAIN_BYTES && GrainLen(g, nr) <= |data| && !Pool.IsZeroed(data)
    requires Stores(model, store[nr := data])
    ensures Held(g, store[nr := data], model, NO_GRAIN) && Named(gt[nr := sp], store[nr := data]) && nr !in store
  {
    hide GrainLen, StoredByte, Pool.IsZeroed;
  }

  /** Writing to one grain leaves the others as they are. */
  lemma HeldOverlay(g: Geometry, store: map<nat, seq<byte>>, model: seq<byte>, except: int,
                    nr: nat, us: nat, part: seq<byte>)
    requires Held(g, store, model, except) && (except == NO_GRAIN || except == nr)
    requires us + |part| <= GRAIN_BYTES
    ensures var model' := Overlay(model, part, nr * GRAIN_BYTES + us);
            && Held(g, store, model', nr)
            && (nr !in store ==> Held(g, store, model', NO_GRAIN))
  {
    hide Whole, StoredByte, Pool.IsZeroed;
    var model' := Overlay(model, part, nr * GRAIN_BYTES + us);
    forall p | 0 <= p < |model| && p / GRAIN_BYTES != nr ensures model'[p] == model[p] {
      InPart(p, nr, us, |part|);
    }
  }

  /** Grains written in place of nothing add their sectors, wherever they are. */
  lemma {:induction false} CanonInsert(c: Codec, base: nat, store: map<nat, seq<byte>>, nr: nat, data: seq<byte>,
                                       n: nat)
    requires nr !in store
    ensures CanonSP(c, base, store[nr := data], n)
            == CanonSP(c, base, store, n) + (if nr < n then Sectors(c, data) else 0)
  {
    hide Sectors;
    if n > 0 {
      CanonInsert(c, base, store, nr, data, n - 1);
    }
  }

  lemma InCapacity(h: Header, g: Geometry, p: nat)
    requires TargetOk(h, g) && p < h.capacity * SECTOR
    ensures p / GRAIN_BYTES < g.GTEs && p % GRAIN_BYTES < GrainLen(g, p / GRAIN_BYTES)
  {
    hide GetGDGT, IsCompressed, HasEmbeddedLBA, FlagsSupported, Fits;
    CapacityFacts(h, g);
  }

  lemma GrainLenFacts(h: Header, g: Geometry, nr: nat)
    requires TargetOk(h, g)
    ensures GrainLen(g, nr) <= GRAIN_BYTES && GrainLen(g, nr) % SECTOR == 0
    ensures nr < g.GTEs ==> GrainLen(g, nr) > 0
  {
    hide GetGDGT, IsCompressed, HasEmbeddedLBA, FlagsSupported, Fits;
    CapacityFacts(h, g);
  }

  lemma EmptyBuffer(model: seq<byte>, store: map<nat, seq<byte>>, nr: int, lo: nat, hi: nat, buf: seq<byte>)
    requires hi <= |buf| && (nr < 0 || hi == 0)
    ensures Agrees(model, store, nr, lo, hi, buf) <==> Stores(model, store)
  {
  }

  /** What fillGrain makes of the buffer: zeros in front of the valid range and, up to the
      grain's length, behind it. */
  predicate Filled(b: seq<byte>, b': seq<byte>, lo: nat, hi: nat, len: nat) {
    && |b'| == |b| && hi <= |b| && len <= |b|
    && (forall o :: lo <= o < hi ==> b'[o] == b[o])
    && (forall o :: 0 <= o < Max(hi, len) && !(lo <= o < hi) ==> b'[o] == 0)
  }

  lemma FillAgrees(model: seq<byte>, store: map<nat, seq<byte>>, nr: nat, lo: nat, hi: nat, len: nat,
                   b: seq<byte>, b': seq<byte>)
    requires hi <= |b| && Agrees(model, store, nr, lo, hi, b) && nr !in store && Filled(b, b', lo, hi, len)
    ensures Agrees(model, store, nr, 0, Max(hi, len), b')
  {
  }

  /** A filled buffer that is stored as it is ... */
  lemma FlushAgrees(h: Header, g: Geometry, model: seq<byte>, store: map<nat, seq<byte>>,
                    nr: nat, hi: nat, b: seq<byte>)
    requires TargetOk(h, g) && |model| == h.capacity * SECTOR
    requires GrainLen(g, nr) <= hi <= |b| && Agrees(model, store, nr, 0, hi, b)
    ensures Stores(model, store[nr := b[..hi]])
  {
    hide TargetOk, GrainLen;
    var store' := store[nr := b[..hi]];
    forall p | 0 <= p < |model|
      ensures model[p] == StoredByte(store', p / GRAIN_BYTES, p % GRAIN_BYTES)
    {
      InCapacity(h, g, p);
    }
  }

  /** ... or dropped because isZeroed found only zeros: the tail that isZeroed does not look
      at is behind the capacity. */
  lemma DropAgrees(h: Header, g: Geometry, model: seq<byte>, store: map<nat, seq<byte>>, nr: nat, hi: nat, b: seq<byte>)
    requires TargetOk(h, g) && |model| == h.capacity * SECTOR && nr !in store
    requires GrainLen(g, nr) <= hi <= |b| && Agrees(model, store, nr, 0, hi, b)
    requires Pool.IsZeroed(b[..hi])
    ensures Stores(model, store)
  {
    hide TargetOk, GrainLen;
    GrainLenFacts(h, g, nr);
    forall p | 0 <= p < |model|
      ensures model[p] == StoredByte(store, p / GRAIN_BYTES, p % GRAIN_BYTES)
    {
      InCapacity(h, g, p);
      if p / GRAIN_BYTES == nr {
        assert b[..hi][p % GRAIN_BYTES] == 0;
      }
    }
  }

  /** memcpy of `part` to [us, ue): no gap inside the capacity may open in the valid range. */
  lemma CopyAgrees(h: Header, g: Geometry, model: seq<byte>, store: map<nat, seq<byte>>, nr: nat, lo: nat, hi: nat,
                   us: nat, part: seq<byte>, b: seq<byte>, b': seq<byte>)
    requires TargetOk(h, g) && |model| == h.capacity * SECTOR
    requires lo <= hi <= |b| == |b'| && us + |part| <= |b| == GRAIN_BYTES && Agrees(model, store, nr, lo, hi, b)
    requires hi == 0 || (lo <= us + |part| && (us <= hi || GrainLen(g, nr) <= hi))
    requires forall o :: 0 <= o < |b| ==> b'[o] == if us <= o < us + |part| then part[o - us] else b[o]
    ensures var ue := us + |part|;
            Agrees(Overlay(model, part, nr * GRAIN_BYTES + us), store, nr,
                   if hi == 0 then us else Min(lo, us), Max(hi, ue), b')
  {
    hide TargetOk, GrainLen;
    var model' := Overlay(model, part, nr * GRAIN_BYTES + us);
    forall p | 0 <= p < |model|
      ensures var o := p % GRAIN_BYTES;
              && (p / GRAIN_BYTES == nr && us <= o < us + |part| ==> model'[p] == part[o - us])
              && (!(p / GRAIN_BYTES == nr && us <= o < us + |part|) ==> model'[p] == model[p])
              && p / GRAIN_BYTES < g.GTEs && o < GrainLen(g, p / GRAIN_BYTES)
    {
      InCapacity(h, g, p);
      InPart(p, nr, us, |part|);
    }
  }

  /** A part that ends inside the disk ends inside its grain. */
  lemma PartInside(h: Header, g: Geometry, nr: nat, us: nat, n: nat)
    requires TargetOk(h, g) && 0 < n && us + n <= GRAIN_BYTES && nr * GRAIN_BYTES + us + n <= h.capacity * SECTOR
    ensures nr < g.GTEs && us + n <= GrainLen(g, nr)
  {
    hide TargetOk, GrainLen;
    var p := nr * GRAIN_BYTES + us + n - 1;
    InPart(p, nr, us, n);
    InCapacity(h, g, p);
  }

  lemma InPart(p: nat, nr: nat, us: nat, n: nat)
    requires us + n <= GRAIN_BYTES
    ensures nr * GRAIN_BYTES + us <= p < nr * GRAIN_BYTES + us + n <==>
            p / GRAIN_BYTES == nr && us <= p % GRAIN_BYTES < us + n
    ensures p / GRAIN_BYTES == nr ==> p - (nr * GRAIN_BYTES + us) == p % GRAIN_BYTES - us
  {
  }

  /** Storing one more grain. */
  lemma WrittenExtend(c: Codec, h: Header, g: Geometry, img: Image, exts: seq<Extent>, store: map<nat, seq<byte>>,
                      nr: nat, data: seq<byte>)
    requires Written(c, h, g, img, exts, store) && nr < g.GTEs && nr < |img.gt| && img.gt[nr] == 0
    requires 0 < |data| <= GRAIN_BYTES && img.curSP + Sectors(c, data) < U32
    ensures var e, record := Extent(nr, img.curSP, data), Record(c, nr * GRAIN_SECTORS, data);
            Written(c, h, g,
                    Image(img.gt[nr := img.curSP], Add32(img.curSP, Sectors(c, data)),
                          img.log + [Write(img.curSP * SECTOR, record)]),
                    exts + [e], store[nr := data])
  {
    hide Complete, Sectors, Content, TableWords, TargetOk, Lossless, Top;
    var sp, record := img.curSP, Record(c, nr * GRAIN_SECTORS, data);
    hide Record;
    WrittenExtents(c, h, g, img, exts, store);
    CompleteExtend(c, h.overHead, img.gt, exts, Content(img.log), store, nr, data);
    ContentAppend(img.log, Write(sp * SECTOR, record));
    TiledAppend(c, h.overHead, exts, Extent(nr, sp, data));
  }

  /** Storing the filled buffer: the grains then hold the disk, and take the sectors that
      were taken before and those of this one.  While that is less than 2^32 the image stays
      sound. */
  lemma StoreAgrees(c: Codec, h: Header, g: Geometry, img: Image, exts: seq<Extent>, store: map<nat, seq<byte>>,
                    nr: nat, hi: nat, model: seq<byte>, b: seq<byte>)
    requires Written(c, h, g, img, exts, store) && nr < g.GTEs && nr < |img.gt| && img.gt[nr] == 0
    requires Held(g, store, model, NO_GRAIN) && Named(img.gt, store) && |model| == h.capacity * SECTOR
    requires 0 < hi <= |b| && hi <= GRAIN_BYTES && GrainLen(g, nr) <= hi && !Pool.IsZeroed(b[..hi])
    requires Agrees(model, store, nr, 0, hi, b)
    ensures var data := b[..hi];
            && img.curSP > 0 && Stores(model, store[nr := data])
            && Held(g, store[nr := data], model, NO_GRAIN) && Named(img.gt[nr := img.curSP], store[nr := data])
            && CanonSP(c, h.overHead, store[nr := data], g.GTEs) == img.curSP + Sectors(c, data)
            && (img.curSP + Sectors(c, data) < U32 ==>
                  && Add32(img.curSP, Sectors(c, data)) == img.curSP + Sectors(c, data)
                  && Written(c, h, g,
                             Image(img.gt[nr := img.curSP], Add32(img.curSP, Sectors(c, data)),
                                   img.log + [Write(img.curSP * SECTOR, Record(c, nr * GRAIN_SECTORS, data))]),
                             exts + [Extent(nr, img.curSP, data)], store[nr := data]))
  {
    hide Written, Agrees, Stores, GrainLen, Record, Sectors, TargetOk, Lossless, Held, Named, CanonSP, Pool.IsZeroed;
    var data := b[..hi];
    WrittenTarget(c, h, g, img, exts, store);
    WrittenExtents(c, h, g, img, exts, store);
    FlushAgrees(h, g, model, store, nr, hi, b);
    HeldStored(g, img.gt, store, model, nr, img.curSP, data);
    CursorIsCanon(c, h, g, img, exts, store);
    CanonInsert(c, h.overHead, store, nr, data, g.GTEs);
    if img.curSP + Sectors(c, data) < U32 { WrittenExtend(c, h, g, img, exts, store, nr, data); }
  }

  lemma WrittenTarget(c: Codec, h: Header, g: Geometry, img: Image, exts: seq<Extent>, store: map<nat, seq<byte>>)
    requires Written(c, h, g, img, exts, store)
    ensures TargetOk(h, g)
  {
    hide Complete, TargetOk, Lossless;
  }

  /** What the writer knows about the extents so far. */
  lemma WrittenExtents(c: Codec, h: Header, g: Geometry, img: Image, exts: seq<Extent>, store: map<nat, seq<byte>>)
    requires Written(c, h, g, img, exts, store)
    ensures Lossless(c, GRAIN_SECTORS) && Tiled(c, h.overHead, exts) && Distinct(exts)
    ensures img.curSP == Top(c, h.overHead, exts) && img.curSP > 0 && h.overHead <= img.curSP
    ensures forall e :: e in exts ==> e.nr in store && 0 < |e.data| <= GRAIN_BYTES && e.nr < g.GTEs
  {
    hide Stored, Tiled, Distinct, Lossless, TargetOk;
  }

  /** There is one extent for each stored grain: at most as many as grains, and fewer while
      one has none. */
  lemma ExtentCount(c: Codec, h: Header, g: Geometry, img: Image, exts: seq<Extent>, store: map<nat, seq<byte>>)
    requires Written(c, h, g, img, exts, store)
    ensures |exts| <= g.GTEs
  {
    hide Written, Lossless, Tiled, Distinct, Top;
    WrittenExtents(c, h, g, img, exts, store);
    forall a | 0 <= a < |exts| ensures exts[a].nr < g.GTEs { assert exts[a] in exts; }
    DistinctCount(exts, g.GTEs);
  }

  lemma RoomForOne(c: Codec, h: Header, g: Geometry, img: Image, exts: seq<Extent>, store: map<nat, seq<byte>>,
                   nr: nat, data: seq<byte>)
    requires Written(c, h, g, img, exts, store) && nr < g.GTEs && nr < |img.gt| && img.gt[nr] == 0
    ensures |exts| < g.GTEs
  {
    hide Written, TargetOk, Lossless, Tiled, Distinct, Top;
    var all := exts + [Extent(nr, img.curSP, data)];
    WrittenExtents(c, h, g, img, exts, store);
    NrNotStored(c, h, g, img, exts, store, nr);
    forall x | x in exts ensures x.nr != nr { assert x.nr in store; }
    DistinctAppend(exts, Extent(nr, img.curSP, data));
    forall a | 0 <= a < |all| ensures all[a].nr < g.GTEs { assert all[a] in all; }
    DistinctCount(all, g.GTEs);
  }

  lemma NrNotStored(c: Codec, h: Header, g: Geometry, img: Image, exts: seq<Extent>,
                    store: map<nat, seq<byte>>, nr: nat)
    requires Written(c, h, g, img, exts, store) && nr < |img.gt| && img.gt[nr] == 0
    ensures nr !in store
  {
    hide TargetOk, Complete;
    NotStored(c, h.overHead, img.gt, exts, Content(img.log), store, nr);
  }

  /** isZeroed, word by word. */
  method IsZeroed(data: array<byte>, len: nat) returns (zeroed: bool)
    requires len <= data.Length
    ensures zeroed <==> Pool.IsZeroed(data[..len])
    ensures zeroed <==> forall k :: 0 <= k < len / 8 * 8 ==> data[k] == 0
  {
    var words := len / 8;
    var i := 0;
    while i < words
      invariant i <= words
      invariant forall k :: 0 <= k < 8 * i ==> data[k] == 0
    {
      var word := data[8 * i..8 * i + 8];
      if word != [0, 0, 0, 0, 0, 0, 0, 0] {
        assert exists k :: 0 <= k < 8 && word[k] != 0;
        var k :| 0 <= k < 8 && word[k] != 0;
        assert data[..len][8 * i + k] != 0;
        return false;
      }
      assert forall k :: 8 * i <= k < 8 * i + 8 ==> data[k] == word[k - 8 * i];
      i := i + 1;
    }
    zeroed := true;
  }

  /** The table write of close is the memory that starts with the directory: directory
      words, zeros up to the sector boundary, table words. */
  lemma TableWrite(h: Header, g: Geometry, gd: seq<nat>, gt: seq<nat>)
    requires g.GTs <= |gd| && |gd| == g.GDsectors * 128
    requires gd[..g.GTs] == Directory(h.gdOffset + g.GDsectors, g.GTsectors, g.GTs)
    requires forall i :: g.GTs <= i < |gd| ==> gd[i] == 0
    ensures EncodeWords(gd) + EncodeWords(gt) == TableBytes(h, g, gt)
  {
    hide Directory, EncodeWords;
    assert gd == gd[..g.GTs] + gd[g.GTs..];
    EncodeAppend(gd[..g.GTs], gd[g.GTs..]);
    EncodeZeros(gd[g.GTs..]);
  }

  lemma {:induction false} EncodeAppend(a: seq<nat>, b: seq<nat>)
    ensures EncodeWords(a + b) == EncodeWords(a) + EncodeWords(b)
  {
    if b == [] {
      assert a + b == a;
    } else {
      EncodeAppend(a, b[..|b| - 1]);
      assert (a + b)[..|a + b| - 1] == a + b[..|b| - 1];
    }
  }

  class SequentialWriter {
    const c: Codec
    const h: Header
    const g: Geometry
    const gd: array<nat>
    const gt: array<nat>
    const buffer: array<byte>
    var bufferNr: int
    var validStart: nat
    var validEnd: nat
    var curSP: nat
    var log: seq<Op>
    // the file system: how many more operations it carries out, and whether one has failed
    const firstQuota: nat
    var quota: nat
    var faulted: bool
    // the extents and grains written so far, up to the one with which the cursor wraps, the
    // sector behind them counted without wrapping, the disk that the calls so far describe,
    // and whether one of them has failed
    ghost var exts: seq<Extent>
    ghost var store: map<nat, seq<byte>>
    ghost var top: nat
    ghost var model: seq<byte>
    ghost var broken: bool

    /** No call has failed and the 32-bit cursor has not wrapped. */
    ghost predicate Sound()
      reads this
    {
      !broken && top < U32
    }

    ghost function Img(): Image
      reads this, gt
    {
      Image(gt[..], curSP, log)
    }

    /** The buffered grain can no longer be stored: the next flush fails. */
    ghost predicate Doomed()
      requires g.GTEs <= gt.Length
      reads this, gt
    {
      bufferNr >= 0 && validEnd > 0 && (bufferNr >= g.GTEs || gt[bufferNr] != 0)
    }

    /** What has been written for that grain since it was stored. */
    ghost function Stale(): int
      requires g.GTEs <= gt.Length
      reads this, gt
    {
      if Doomed() then bufferNr else NO_GRAIN
    }

    /** The sectors and contents of the grains stored before the cursor wrapped, whatever has
        failed since. */
    ghost predicate Keeps(except: int)
      reads this, gt
    {
      && top == CanonSP(c, h.overHead, store, g.GTEs)
      && Held(g, store, model, except) && Named(gt[..], store)
    }

    lemma SameShape()
      ensures Filling() ==> Shape() && Valid()
    {
      hide TargetOk, Lossless, TableWords, Directory, Written, Keeps, Agrees, GrainLen;
    }

    /** Nothing behind the capacity is in the buffer or stored: what writes inside the disk
        keep. */
    ghost predicate Trim()
      reads this
    {
      && (bufferNr >= 0 ==> validEnd <= GrainLen(g, bufferNr))
      && forall nr :: nr in store ==> |store[nr]| <= GrainLen(g, nr)
    }

    /** Nothing is stored from the buffered grain on, and no more than one operation has been
        used for each grain before it: what sequential writes keep. */
    ghost predicate Forward()
      requires g.GTEs <= gt.Length
      reads this, gt
    {
      && bufferNr < g.GTEs && (forall i :: 0 <= i < g.GTEs && bufferNr <= i ==> gt[i] == 0)
      && firstQuota <= quota + if bufferNr < 0 then 0 else bufferNr
    }

    ghost predicate Shape()
      reads this, gt, gd
    {
      && Lossless(c, GRAIN_SECTORS) && TargetOk(h, g)
      && gt != gd && gt.Length == TableWords(g) && g.GTEs <= gt.Length
      && g.GTs <= gd.Length == g.GDsectors * 128
      && gd[..g.GTs] == Directory(h.gdOffset + g.GDsectors, g.GTsectors, g.GTs)
      && (forall i :: g.GTs <= i < gd.Length ==> gd[i] == 0)
      && buffer.Length == GRAIN_BYTES
      && NO_GRAIN <= bufferNr && validStart <= validEnd <= GRAIN_BYTES
      && |model| == h.capacity * SECTOR
    }

    /** As long as no call has failed and the sectors fit, the file is a sound target of the
        stored grains and, unless the next flush is bound to fail, the buffer over them is
        what was written. */
    ghost predicate Valid()
      reads this, gt, gd, buffer
    {
      && Shape() && Keeps(Stale())
      && (Sound() ==>
            && Written(c, h, g, Img(), exts, store) && top == curSP
            && quota + |exts| == firstQuota
            && (!Doomed() ==> Agrees(model, store, bufferNr, validStart, validEnd, buffer[..])))
    }

    /** StreamOptimized_Create for a disk of `bytes` bytes. */
    constructor (c: Codec, bytes: nat, quota: nat)
      requires Lossless(c, GRAIN_SECTORS) && GrainsFit(bytes)
      ensures Valid() && Sound() && Forward() && Trim() && bufferNr == NO_GRAIN
      ensures firstQuota == quota && !faulted
      ensures fresh(gd) && fresh(gt) && fresh(buffer)
      ensures h == TargetHeader(bytes) && g == TargetGeometry(bytes) && this.c == c
      ensures model == Zeros(CeilDiv(bytes, SECTOR) * SECTOR)
    {
      hide TargetHeader, TargetGeometry, TargetOk, GrainsFit, TableWords, Directory, Written, Whole, Lossless,
        CeilDiv, Valid;
      var geometry := TargetGeometry(bytes);
      this.c, h, g := c, TargetHeader(bytes), geometry;
      gd := new nat[geometry.GDsectors * 128](_ => 0);
      gt := new nat[TableWords(geometry)](_ => 0);
      buffer := new byte[GRAIN_BYTES](_ => 0);
      bufferNr, validStart, validEnd := NO_GRAIN, 0, 0;
      curSP, log := 0, [];
      firstQuota, this.quota, faulted := quota, quota, false;
      exts, store, top := [], map[], TargetHeader(bytes).overHead;
      model, broken := Zeros(CeilDiv(bytes, SECTOR) * SECTOR), false;
      new;
      TargetCreated(bytes);
      var overHead := PrefillGD(gd, g.GTs, h.gdOffset + g.GDsectors, g.GTsectors);
      curSP := overHead;
      FreshTarget(c, bytes, gt[..]);
      Started();
    }

    lemma Started()
      requires Lossless(c, GRAIN_SECTORS) && TargetOk(h, g)
      requires gt != gd && gt.Length == TableWords(g) && g.GTEs <= gt.Length
      requires g.GTs <= gd.Length == g.GDsectors * 128
      requires gd[..g.GTs] == Directory(h.gdOffset + g.GDsectors, g.GTsectors, g.GTs)
      requires forall i :: g.GTs <= i < gd.Length ==> gd[i] == 0
      requires buffer.Length == GRAIN_BYTES && bufferNr == NO_GRAIN && validStart == validEnd == 0
      requires model == Zeros(h.capacity * SECTOR) && store == map[]
      requires Written(c, h, g, Img(), exts, store) && top == curSP == h.overHead < U32
      requires exts == [] && quota == firstQuota
      ensures Valid()
    {
      hide Lossless, TargetOk, TableWords, Directory, Written, Agrees, Stores;
      NothingStored(model);
      EmptyBuffer(model, store, bufferNr, validStart, validEnd, buffer[..]);
      CanonGap(c, h.overHead, map[], 0, g.GTEs);
    }

    /** fillGrain: fails for a grain behind the table and for a stored one, unless the valid
        range already covers the grain. */
    method FillGrain() returns (ok: bool)
      requires Shape()
      modifies this`validStart, this`validEnd, buffer
      ensures Shape()
      ensures ok <==> && 0 <= bufferNr < g.GTEs
                      && (gt[bufferNr] == 0
                          || (old(validStart) == 0 && old(validEnd) >= GrainLen(g, bufferNr)))
      ensures !ok ==> validStart == old(validStart) && validEnd == old(validEnd) && buffer[..] == old(buffer[..])
      ensures ok ==> validStart == 0 && validEnd == Max(old(validEnd), GrainLen(g, bufferNr))
                     && Filled(old(buffer[..]), buffer[..], old(validStart), old(validEnd), GrainLen(g, bufferNr))
    {
      hide TargetOk, Lossless, TableWords, Directory, GrainLen;
      if bufferNr < 0 || bufferNr >= g.GTEs {
        return false;
      }
      var lenBytes := GrainLen(g, bufferNr);
      GrainLenFacts(h, g, bufferNr);
      if validStart == 0 && validEnd >= lenBytes {
        return true;
      }
      if gt[bufferNr] != 0 {
        return false;
      }
      if validStart != 0 {
        forall i | 0 <= i < validStart {
          buffer[i] := 0;
        }
        validStart := 0;
      }
      if validEnd < lenBytes {
        forall i | validEnd <= i < lenBytes {
          buffer[i] := 0;
        }
        validEnd := lenBytes;
      }
      ok := true;
    }

    /** One operation of the file system. */
    method Operate() returns (ok: bool)
      modifies this`quota, this`faulted
      ensures ok <==> old(quota) > 0
      ensures quota == if ok then old(quota) - 1 else 0
      ensures faulted == (old(faulted) || !ok)
    {
      ok := quota > 0;
      if ok { quota := quota - 1; } else { faulted := true; }
    }

    /** safePwrite: a failing write may leave a part of its data. */
    method SafePwrite(data: seq<byte>, pos: nat) returns (ok: bool)
      modifies this`log, this`quota, this`faulted
      ensures ok <==> old(quota) > 0
      ensures quota == if ok then old(quota) - 1 else 0
      ensures faulted == (old(faulted) || !ok)
      ensures ok ==> log == old(log) + [Write(pos, data)]
    {
      ok := Operate();
      var n := |data|;
      if !ok {
        n :| 0 <= n <= |data|;
      }
      assert ok ==> data[..n] == data;
      log := log + [Write(pos, data[..n])];
    }

    /** writeGrain: bytes written, or -1. */
    method WriteGrain(sp: nat) returns (dataLen: int)
      requires Shape()
      modifies this`log, this`quota, this`faulted, gt
      ensures Shape()
      ensures !(0 <= bufferNr < g.GTEs) ==>
                && dataLen == -1 && gt[..] == old(gt[..]) && log == old(log)
                && quota == old(quota) && faulted == old(faulted)
      ensures 0 <= bufferNr < g.GTEs ==>
                && gt[..] == old(gt[..])[bufferNr := sp]
                && (dataLen != -1 <==> old(quota) > 0) && faulted == (old(faulted) || dataLen == -1)
                && quota == if dataLen != -1 then old(quota) - 1 else 0
      ensures dataLen != -1 ==>
                var record := Record(c, bufferNr * GRAIN_SECTORS, buffer[..validEnd]);
                dataLen == |record| && log == old(log) + [Write(sp * SECTOR, record)]
    {
      hide TargetOk, Lossless, TableWords, Directory, Record;
      if bufferNr < 0 || bufferNr >= g.GTEs {
        return -1;
      }
      gt[bufferNr] := sp;
      var record := Record(c, bufferNr * GRAIN_SECTORS, buffer[..validEnd]);
      var ok := SafePwrite(record, sp * SECTOR);
      dataLen := if ok then |record| else -1;
    }

    /** The buffered grain, filled, is about to be stored or dropped. */
    ghost predicate Filling()
      reads this, gt, gd, buffer
    {
      && Shape() && 0 <= bufferNr < g.GTEs && gt[bufferNr] == 0
      && validStart == 0 && validEnd >= GrainLen(g, bufferNr) && validEnd > 0
      && Keeps(NO_GRAIN)
      && (Sound() ==> Written(c, h, g, Img(), exts, store)
                      && top == curSP && quota + |exts| == firstQuota
                      && Agrees(model, store, bufferNr, 0, validEnd, buffer[..]))
    }

    /** The checks and the fill at the start of flushGrain. */
    method FillForFlush() returns (ok: bool)
      requires Valid() && bufferNr != NO_GRAIN && validEnd > 0
      modifies this`validStart, this`validEnd, buffer
      ensures ok ==> Filling() && (old(Trim()) ==> Trim())
      ensures !ok ==> Shape() && Keeps(bufferNr) && Doomed() && old(Doomed())
    {
      hide TargetOk, Lossless, TableWords, Directory, GrainLen, Written, Held, Named, CanonSP, Agrees, Filled;
      ghost var before := buffer[..];
      ghost var lo, hi, len := validStart, validEnd, GrainLen(g, bufferNr);
      if bufferNr >= g.GTEs {
        return false;
      }
      ok := FillGrain();
      if !ok {
        return;
      }
      if gt[bufferNr] != 0 {
        return false;
      }
      if Sound() {
        NrNotStored(c, h, g, Img(), exts, store, bufferNr);
        FillAgrees(model, store, bufferNr, lo, hi, len, before, buffer[..]);
      }
    }

    /** Deflating and writing the filled grain. */
    method StoreGrain() returns (ok: bool)
      requires Filling() && !Pool.IsZeroed(buffer[..][..validEnd])
      modifies this`log, this`quota, this`faulted, this`curSP, this`exts, this`store, this`top, gt
      ensures Shape() && Keeps(NO_GRAIN) && top >= old(top) && (old(Trim()) ==> Trim())
      ensures forall i :: 0 <= i < g.GTEs && i != bufferNr ==> gt[i] == old(gt[i])
      ensures faulted == (old(faulted) || !ok)
      ensures ok <==> old(quota) > 0
      ensures quota == if ok then old(quota) - 1 else 0
      ensures !ok ==> top == old(top) && (Sound() ==> firstQuota < g.GTEs)
      ensures ok && Sound() ==>
                && Written(c, h, g, Img(), exts, store) && Stores(model, store)
                && top == curSP && quota + |exts| == firstQuota && gt[bufferNr] != 0
    {
      hide TargetOk, Lossless, TableWords, Directory, GrainLen, Record, Written, Agrees, Stores, Sectors, Held, Named,
        CanonSP, Pool.IsZeroed;
      ghost var data := buffer[..][..validEnd];
      ghost var img := Img();
      if Sound() { RoomForOne(c, h, g, img, exts, store, bufferNr, data); }
      NamedEntry(img.gt, store, bufferNr, curSP);
      var dataLen := WriteGrain(curSP);
      if dataLen < 0 {
        return false;
      }
      RecordSectors(c, bufferNr * GRAIN_SECTORS, data);
      assert buffer[..validEnd] == data;
      curSP := Add32(curSP, dataLen / SECTOR);
      Account(img, data);
      ok := true;
    }

    /** While the cursor has not wrapped, the written grain joins the extents and the stored
        grains. */
    ghost method Account(img: Image, data: seq<byte>)
      requires TargetOk(h, g) && 0 <= bufferNr < g.GTEs && bufferNr < |img.gt| && img.gt[bufferNr] == 0
      requires validEnd <= buffer.Length == GRAIN_BYTES && |model| == h.capacity * SECTOR
      requires GrainLen(g, bufferNr) <= validEnd && validEnd > 0 && data == buffer[..][..validEnd]
      requires !Pool.IsZeroed(data) && top == CanonSP(c, h.overHead, store, g.GTEs)
      requires Held(g, store, model, NO_GRAIN) && Named(img.gt, store)
      requires Sound() ==> Written(c, h, g, img, exts, store) && top == img.curSP
                           && Agrees(model, store, bufferNr, 0, validEnd, buffer[..])
      requires Img() == Image(img.gt[bufferNr := img.curSP], Add32(img.curSP, Sectors(c, data)),
                              img.log + [Write(img.curSP * SECTOR, Record(c, bufferNr * GRAIN_SECTORS, data))])
      modifies this`exts, this`store, this`top
      ensures Keeps(NO_GRAIN) && top >= old(top) && (old(Trim()) ==> Trim())
      ensures Sound() ==> && Written(c, h, g, Img(), exts, store) && Stores(model, store)
                          && top == curSP && |exts| == old(|exts|) + 1 && img.curSP != 0
    {
      hide TargetOk, GrainLen, Record, Written, Agrees, Stores, Sectors, Held, Named, CanonSP, Pool.IsZeroed;
      if Sound() {
        StoreAgrees(c, h, g, img, exts, store, bufferNr, validEnd, model, buffer[..]);
        exts := exts + [Extent(bufferNr, top, data)];
        store := store[bufferNr := data];
        top := top + Sectors(c, data);
      } else {
        NamedEntry(img.gt, store, bufferNr, img.curSP);
      }
    }

    /** flushGrain: on success everything written so far is in the stored grains. */
    method FlushGrain() returns (ok: bool)
      requires Valid()
      modifies this, gt, buffer
      ensures Valid() && model == old(model) && bufferNr == old(bufferNr) && top >= old(top)
      ensures broken == (old(broken) || !ok)
      ensures ok ==> Keeps(NO_GRAIN) && (old(Trim()) ==> Trim())
      ensures ok && Sound() ==> Stores(model, store)
      ensures !ok ==> (faulted && old(quota) == 0) || (Doomed() && old(Doomed()))
      ensures Fault(old(faulted), old(broken))
      ensures ok ==> faulted == old(faulted)
      ensures ok ==> quota == old(quota) || (bufferNr >= 0 && quota == old(quota) - 1)
      ensures forall i :: 0 <= i < g.GTEs && i != bufferNr ==> gt[i] == old(gt[i])
    {
      hide TargetOk, Lossless, TableWords, Directory, Written, Held, Named, CanonSP, Agrees, Stores,
        Pool.IsZeroed, GrainLen;
      if bufferNr == NO_GRAIN || validEnd == 0 {
        EmptyBuffer(model, store, bufferNr, validStart, validEnd, buffer[..]);
        return true;
      }
      ok := FillForFlush();
      if !ok {
        broken := true;
        return;
      }
      SameShape();
      assert buffer[..validEnd] == buffer[..][..validEnd];
      var zeroed := IsZeroed(buffer, validEnd);
      if zeroed {
        NamedEntry(gt[..], store, bufferNr, 0);
        if Sound() { DropAgrees(h, g, model, store, bufferNr, validEnd, buffer[..]); }
        return;
      }
      ok := StoreGrain();
      HeldExcept(g, store, model, Stale());
      if !ok {
        broken := true;
      }
    }

    /** A file system that carries out an operation for each grain has not failed a call of
        a sound writer. */
    ghost predicate Fault(before: bool, wasBroken: bool)
      reads this
    {
      faulted && !before && !wasBroken && top < U32 ==> firstQuota < g.GTEs
    }

    /** prepareGrain and resetGrain. */
    method PrepareGrain(grainNr: nat) returns (ok: bool)
      requires Valid()
      modifies this, gt, buffer
      ensures Valid() && model == old(model) && broken == (old(broken) || !ok) && top >= old(top)
      ensures ok ==> bufferNr == grainNr && faulted == old(faulted) && (old(Trim()) ==> Trim())
      ensures !ok ==> faulted || (Doomed() && old(Doomed()))
      ensures Fault(old(faulted), old(broken))
      ensures old(Forward()) && old(bufferNr) <= grainNr < g.GTEs ==>
                if ok then Forward() else faulted && firstQuota < g.GTEs
    {
      hide TargetOk, Lossless, TableWords, Directory, Written, Held, Named, CanonSP, Agrees, Stores, GrainLen;
      if grainNr != bufferNr {
        ok := FlushGrain();
        if !ok {
          return;
        }
        bufferNr, validStart, validEnd := grainNr, 0, 0;
        EmptyBuffer(model, store, bufferNr, validStart, validEnd, buffer[..]);
      }
      ok := true;
    }

    /** Before a write that does not touch the valid range the gap is filled. */
    method CloseGap(updateStart: nat, updateEnd: nat) returns (ok: bool)
      requires Valid() && bufferNr >= 0
      modifies this`validStart, this`validEnd, this`broken, buffer
      ensures Valid() && broken == (old(broken) || !ok)
      ensures ok ==> NoGap(updateStart, updateEnd) && (old(Trim()) ==> Trim())
      ensures !ok ==> Doomed()
    {
      hide TargetOk, Lossless, TableWords, Directory, Written, Held, Named, CanonSP, Agrees, GrainLen, Filled;
      ghost var before := buffer[..];
      ghost var lo, hi, len := validStart, validEnd, GrainLen(g, bufferNr);
      ok := true;
      if validEnd != 0 && (updateEnd < validStart || updateStart > validEnd) {
        ok := FillGrain();
        if !ok {
          broken := true;
          return;
        }
        if Sound() && !Doomed() {
          assert gt[bufferNr] == 0;
          NrNotStored(c, h, g, Img(), exts, store, bufferNr);
          FillAgrees(model, store, bufferNr, lo, hi, len, before, buffer[..]);
        }
      }
    }

    ghost predicate NoGap(updateStart: nat, updateEnd: nat)
      requires bufferNr >= 0
      reads this
    {
      validEnd == 0 || (validStart <= updateEnd && (updateStart <= validEnd || GrainLen(g, bufferNr) <= validEnd))
    }

    /** The memcpy. */
    method CopyBytes(at: nat, part: seq<byte>)
      requires at + |part| <= buffer.Length
      modifies buffer
      ensures forall o :: 0 <= o < buffer.Length ==>
                buffer[o] == if at <= o < at + |part| then part[o - at] else old(buffer[o])
    {
      forall i | 0 <= i < |part| {
        buffer[at + i] := part[i];
      }
    }

    /** The new bytes, and the new valid range. */
    method CopyIn(updateStart: nat, part: seq<byte>)
      requires Valid() && bufferNr >= 0 && 0 < |part| && updateStart + |part| <= GRAIN_BYTES
      requires NoGap(updateStart, updateStart + |part|)
      modifies this`validStart, this`validEnd, this`model, buffer
      ensures Valid()
      ensures model == Overlay(old(model), part, bufferNr * GRAIN_BYTES + updateStart)
      ensures old(Trim()) && updateStart + |part| <= GrainLen(g, bufferNr) ==> Trim()
    {
      hide TargetOk, Lossless, TableWords, Directory, Written, Held, Named, CanonSP, Agrees, GrainLen, Overlay;
      var updateEnd := updateStart + |part|;
      ghost var before := buffer[..];
      CopyBytes(updateStart, part);
      Cover(updateStart, part, before);
      model := Overlay(model, part, bufferNr * GRAIN_BYTES + updateStart);
      if updateStart < validStart || validEnd == 0 {
        validStart := updateStart;
      }
      if updateEnd > validEnd {
        validEnd := updateEnd;
      }
    }

    /** With the new bytes in the buffer, the wider range over the stored grains holds the new
        disk. */
    lemma Cover(us: nat, part: seq<byte>, before: seq<byte>)
      requires Shape() && bufferNr >= 0 && 0 < |part| && us + |part| <= GRAIN_BYTES && NoGap(us, us + |part|)
      requires |before| == GRAIN_BYTES && Keeps(Stale())
      requires Sound() && !Doomed() ==> Agrees(model, store, bufferNr, validStart, validEnd, before)
      requires forall o :: 0 <= o < GRAIN_BYTES ==>
                 buffer[o] == if us <= o < us + |part| then part[o - us] else before[o]
      ensures var model' := Overlay(model, part, bufferNr * GRAIN_BYTES + us);
              && Held(g, store, model', if bufferNr >= g.GTEs || gt[bufferNr] != 0 then bufferNr else NO_GRAIN)
              && (Sound() && bufferNr < g.GTEs && gt[bufferNr] == 0 ==>
                    Agrees(model', store, bufferNr, if validEnd == 0 then us else Min(validStart, us),
                           Max(validEnd, us + |part|), buffer[..]))
    {
      hide TargetOk, Lossless, TableWords, Directory, Held, Named, CanonSP, Agrees, GrainLen, Overlay;
      HeldOverlay(g, store, model, Stale(), bufferNr, us, part);
      if bufferNr < g.GTEs && gt[bufferNr] == 0 {
        NamedEntry(gt[..], store, bufferNr, 0);
        if Sound() {
          CopyAgrees(h, g, model, store, bufferNr, validStart, validEnd, us, part, before, buffer[..]);
        }
      }
    }

    /** One iteration of the write loop: the part of a write that falls into one grain. */
    method WritePart(grainNr: nat, updateStart: nat, part: seq<byte>) returns (ok: bool)
      requires Valid() && 0 < |part| && updateStart + |part| <= GRAIN_BYTES
      modifies this, gt, buffer
      ensures Valid() && broken == (old(broken) || !ok) && top >= old(top)
      ensures ok ==> model == Overlay(old(model), part, grainNr * GRAIN_BYTES + updateStart)
                     && bufferNr == grainNr && faulted == old(faulted)
                     && (old(Trim()) && updateStart + |part| <= GrainLen(g, grainNr) ==> Trim())
      ensures !ok ==> faulted || Doomed()
      ensures Fault(old(faulted), old(broken))
      ensures old(Forward()) && old(bufferNr) <= grainNr < g.GTEs ==>
                if ok then Forward() else faulted && firstQuota < g.GTEs
    {
      hide Overlay, Written, Agrees, Held, Named, CanonSP, TargetOk, Lossless, TableWords, Directory, GrainLen;
      ok := PrepareGrain(grainNr);
      if !ok {
        return;
      }
      ok := CloseGap(updateStart, updateStart + |part|);
      if !ok {
        return;
      }
      CopyIn(updateStart, part);
    }

    /** StreamOptimizedPwrite: the data's length, or -1. */
    method Pwrite(data: seq<byte>, pos: nat) returns (ret: int)
      requires Valid()
      modifies this, gt, buffer
      ensures Valid() && broken == (old(broken) || ret == -1) && top >= old(top)
      ensures ret == -1 || ret == |data|
      ensures ret != -1 ==> model == Overlay(old(model), data, pos) && faulted == old(faulted)
      ensures ret != -1 && old(Trim()) && pos + |data| <= h.capacity * SECTOR ==> Trim()
      ensures ret == -1 ==> faulted || Doomed()
      ensures Fault(old(faulted), old(broken))
      ensures old(Forward()) && old(bufferNr) <= pos / GRAIN_BYTES && pos + |data| <= h.capacity * SECTOR ==>
                if ret == -1 then faulted && firstQuota < g.GTEs
                else Forward() && bufferNr <= Max(old(bufferNr), (pos + |data|) / GRAIN_BYTES)
    {
      hide Overlay, And, Written, Agrees, Held, Named, CanonSP, TargetOk, Lossless, TableWords, Directory, GrainLen;
      ghost var inside := pos + |data| <= h.capacity * SECTOR;
      ghost var forward := Forward() && bufferNr <= pos / GRAIN_BYTES && inside;
      var grainNr := pos / GRAIN_BYTES;
      var updateStart := And(pos, GRAIN_BYTES - 1);
      PositionInBuffer(pos);
      var done := 0;
      OverlayNothing(model, pos);
      assert data[..0] == [];
      while done < |data|
        invariant Valid() && broken == old(broken) && faulted == old(faulted) && top >= old(top)
        invariant done <= |data| && 0 <= updateStart < GRAIN_BYTES
        invariant done < |data| ==> grainNr * GRAIN_BYTES + updateStart == pos + done
        invariant model == Overlay(old(model), data[..done], pos)
        invariant inside && old(Trim()) ==> Trim()
        invariant forward ==> Forward() && (done < |data| ==> bufferNr <= grainNr)
                              && bufferNr <= Max(old(bufferNr), (pos + done) / GRAIN_BYTES)
      {
        var updateLen := Min(GRAIN_BYTES - updateStart, |data| - done);
        if inside { PartInside(h, g, grainNr, updateStart, updateLen); }
        var part := data[done..done + updateLen];
        var ok := WritePart(grainNr, updateStart, part);
        if !ok {
          return -1;
        }
        OverlayJoin(old(model), data[..done], part, pos);
        assert data[..done] + part == data[..done + updateLen];
        done := done + updateLen;
        grainNr, updateStart := grainNr + 1, 0;
      }
      assert data[..done] == data;
      ret := done;
    }

    /** reorderGrains: a new file takes the place of the old one, and the table entries
        below GTEs those of the new placement.  Besides the writes of the grains it takes
        five operations: create, close the new file, close the old one, rename, reopen. */
    method ReorderGrains() returns (ok: bool)
      requires Shape()
      modifies this`curSP, this`log, this`quota, this`faulted, gt
      ensures Shape()
      ensures ok ==> Reordered(h, g, old(Img())) == Some(Img()) && faulted == old(faulted)
      ensures ok ==> old(quota) <= quota + g.GTEs + 5
      ensures !ok ==> faulted || Reordered(h, g, old(Img())).None?
      ensures faulted && !old(faulted) ==> old(quota) < g.GTEs + 5
    {
      hide TargetOk, Lossless, TableWords, Directory, Rewrite;
      ok := Operate();
      if !ok {
        return;
      }
      var dst := new nat[gt.Length](_ => 0);
      var f := Content(log);
      ghost var img := Img();
      var rewritten, fault, newLog, nextSector, left := RewriteGrains(f, h, gt, g.GTEs, dst, quota);
      assert gt[..] == img.gt;
      ghost var entries := dst[..g.GTEs];
      if !rewritten {
        if fault { faulted, quota := true, left; }
        return false;
      }
      quota := left;
      ok := ReplaceFile(dst, nextSector, newLog);
      assert ok ==> Reordered(h, g, img) == Some(Img());
    }

    /** Close the new file and the old one, rename, reopen. */
    method ReplaceFile(dst: array<nat>, nextSector: nat, newLog: seq<Op>) returns (ok: bool)
      requires g.GTEs <= dst.Length && g.GTEs <= gt.Length && dst != gt
      modifies this`curSP, this`log, this`quota, this`faulted, gt
      ensures ok <==> old(quota) >= 4
      ensures ok ==> && gt[..] == dst[..g.GTEs] + old(gt[..])[g.GTEs..]
                     && curSP == nextSector && log == newLog && quota == old(quota) - 4
      ensures !ok ==> gt[..] == old(gt[..])
      ensures faulted == (old(faulted) || !ok)
    {
      ok := Operate();
      if ok { ok := Operate(); }
      if ok { ok := Operate(); }
      if ok { ok := Operate(); }
      if !ok {
        return;
      }
      forall i | 0 <= i < g.GTEs {
        gt[i] := dst[i];
      }
      log, curSP := newLog, nextSector;
    }

    /** The order check of close, and the reordering if it is on and needed. */
    method PlaceGrains(doReorder: bool) returns (ok: bool)
      requires Shape()
      modifies this`curSP, this`log, this`quota, this`faulted, gt
      ensures Shape()
      ensures ok ==> Placed(h, g, old(Img()), doReorder) == Some(Img()) && faulted == old(faulted)
      ensures ok ==> old(quota) <= quota + g.GTEs + 5
      ensures !ok ==> faulted || Reordered(h, g, old(Img())).None?
      ensures faulted && !old(faulted) ==> old(quota) < g.GTEs + 5
    {
      hide TargetOk, Lossless, TableWords, Directory, Reordered, Ordered;
      var ordered := AreGrainsOrdered(gt, g.GTEs);
      assert gt[..g.GTEs] == gt[..][..g.GTEs];
      ok := true;
      if doReorder && !ordered {
        ok := ReorderGrains();
      }
    }

    /** StreamOptimizedClose.  When it succeeds, no write before it has failed and the sectors
        fit, the file is finished: it holds the grains whose contents are everything that
        was written, canonically placed if reordering is on, and close's own operations
        come last.  Whether the sectors fit is decided by the stored grains, which hold what
        was written even if they do not.  No more than two operations for each grain and
        fourteen are needed. */
    method Close(doReorder: bool, descriptor: seq<byte>) returns (ok: bool)
      requires Valid() && 0 < |descriptor| <= DESCRIPTOR_SECTORS * SECTOR
      modifies this, gt, buffer
      ensures model == old(model) && top >= old(top)
      ensures top == CanonSP(c, h.overHead, store, g.GTEs) && Grains(g, store)
      ensures ok || !(faulted || old(Doomed())) ==>
                Held(g, store, model, NO_GRAIN) && (old(Trim()) ==> Trim())
      ensures ok && !old(broken) && top < U32 ==>
                && top == curSP
                && Finished(c, h, g, Img(), exts, store, descriptor) && Stores(model, store)
                && (doReorder ==> gt[..] == CanonGT(c, h.overHead, store, TableWords(g)))
                && exists before :: HeaderUntouched(before)
                     && log == before + CloseOps(h, curSP, TableBytes(h, g, gt[..]), descriptor)
      ensures !ok && !old(broken) && top < U32 ==> faulted || old(Doomed())
      ensures faulted && !old(faulted) && (old(Forward()) || (!old(broken) && top < U32)) ==>
                firstQuota < 2 * g.GTEs + 14
    {
      hide TargetOk, Lossless, TableWords, Directory, Written, Held, Named, CanonSP, Agrees, Stores, Finished, CanonGT,
        EncodeHeader, EncodeWords, TableBytes, Reordered, Ordered, HeaderUntouched;
      ok := FlushGrain();
      HeldGrains(g, store, model, Stale());
      if !ok {
        return;
      }
      if Sound() { ExtentCount(c, h, g, Img(), exts, store); }
      ok := EndFile(doReorder, descriptor);
    }

    /** Close after the last flush, and StreamOptimizedFinalize. */
    method EndFile(doReorder: bool, descriptor: seq<byte>) returns (ok: bool)
      requires Shape() && 0 < |descriptor| <= DESCRIPTOR_SECTORS * SECTOR
      requires Sound() ==> Written(c, h, g, Img(), exts, store)
      modifies this`curSP, this`log, this`quota, this`faulted, this`exts, gt
      ensures ok && Sound() ==>
                && curSP == CanonSP(c, h.overHead, store, g.GTEs)
                && Finished(c, h, g, Img(), exts, store, descriptor)
                && (doReorder ==> gt[..] == CanonGT(c, h.overHead, store, TableWords(g)))
                && exists before :: HeaderUntouched(before)
                     && log == before + CloseOps(h, curSP, TableBytes(h, g, gt[..]), descriptor)
      ensures !ok && Sound() ==> faulted
      ensures faulted && !old(faulted) ==> old(quota) < g.GTEs + 14
    {
      hide TargetOk, Lossless, TableWords, Directory, Written, CanonSP, Finished, CanonGT, EncodeHeader, EncodeWords,
        TableBytes, Reordered, Ordered, HeaderUntouched;
      ghost var img := Img();
      if Sound() && Reordered(h, g, img).None? { ReorderedWritten(c, h, g, img, exts, store); }
      ok := PlaceGrains(doReorder);
      if !ok {
        return;
      }
      ok := WriteEnd(descriptor);
      if !ok {
        return;
      }
      ok := Operate();
      if Sound() { Conclude(img, doReorder, descriptor); }
    }

    /** What close has made of the flushed image `img`. */
    ghost method Conclude(img: Image, doReorder: bool, descriptor: seq<byte>)
      requires Written(c, h, g, img, exts, store) && 0 < |descriptor| <= DESCRIPTOR_SECTORS * SECTOR
      requires g.GTEs <= |img.gt| && Finish(h, g, img, doReorder, descriptor) == Some(Img())
      modifies this`exts
      ensures curSP == CanonSP(c, h.overHead, store, g.GTEs)
      ensures Finished(c, h, g, Img(), exts, store, descriptor)
      ensures doReorder ==> gt[..] == CanonGT(c, h.overHead, store, TableWords(g))
      ensures exists before :: HeaderUntouched(before)
                && log == before + CloseOps(h, curSP, TableBytes(h, g, gt[..]), descriptor)
    {
      hide TargetOk, Lossless, TableWords, Written, CanonSP, Finished, Finish, CanonGT, TableBytes, HeaderUntouched;
      ghost var before;
      CursorIsCanon(c, h, g, img, exts, store);
      exts, before := FinishWritten(c, h, g, img, exts, store, doReorder, descriptor);
    }

    /** The writes that end close: EOS, tables, descriptor and both headers, with the syncs. */
    method WriteEnd(descriptor: seq<byte>) returns (ok: bool)
      requires Shape()
      modifies this`log, this`quota, this`faulted
      ensures Shape() && (ok <==> old(quota) >= 8) && (ok ==> quota == old(quota) - 8)
      ensures faulted == (old(faulted) || !ok)
      ensures ok ==> log == old(log) + CloseOps(h, curSP, TableBytes(h, g, gt[..]), descriptor)
    {
      hide TargetOk, Lossless, TableWords, Directory, EncodeHeader, EncodeWords, TableBytes;
      ok := SafePwrite(Zeros(SECTOR), curSP * SECTOR);
      if !ok {
        return;
      }
      TableWrite(h, g, gd[..], gt[..]);
      ok := SafePwrite(EncodeWords(gd[..]) + EncodeWords(gt[..]), h.gdOffset * SECTOR);
      if !ok {
        return;
      }
      ok := SafePwrite(descriptor, h.descriptorOffset * SECTOR);
      if !ok {
        return;
      }
      ok := WriteHeader();
    }

    /** Both forms of the header, with the syncs. */
    method WriteHeader() returns (ok: bool)
      modifies this`log, this`quota, this`faulted
      ensures (ok <==> old(quota) >= 5) && (ok ==> quota == old(quota) - 5)
      ensures faulted == (old(faulted) || !ok)
      ensures ok ==> log == old(log) + [Write(0, EncodeHeader(h, true)), Sync,
                                        Write(0, EncodeHeader(h, false)), Sync, Sync]
    {
      hide EncodeHeader;
      ok := SafePwrite(EncodeHeader(h, true), 0);
      if !ok {
        return;
      }
      ok := Fsync();
      if !ok {
        return;
      }
      ok := SafePwrite(EncodeHeader(h, false), 0);
      if !ok {
        return;
      }
      ok := Fsync();
      if !ok {
        return;
      }
      ok := Fsync();
    }

    method Fsync() returns (ok: bool)
      modifies this`log, this`quota, this`faulted
      ensures ok <==> old(quota) > 0
      ensures quota == if ok then old(quota) - 1 else 0
      ensures faulted == (old(faulted) || !ok)
      ensures ok ==> log == old(log) + [Sync]
    {
      ok := Operate();
      if ok {
        log := log + [Sync];
      }
    }
  }

  lemma TargetCreated(bytes: nat)
    requires GrainsFit(bytes)
    ensures var h, g := TargetHeader(bytes), TargetGeometry(bytes);
            && TargetOk(h, g) && g.GTEs <= TableWords(g) && g.GTs <= g.GDsectors * 128
            && h.overHead == h.gdOffset + g.GDsectors + g.GTs * g.GTsectors && 1 < h.overHead < U32
            && h.capacity == CeilDiv(bytes, SECTOR)
  {
    hide GrainsFit, TargetGeometry, TableWords;
    CreateOk(bytes);
    DirectoryFits(TargetHeader(bytes), TargetGeometry(bytes));
  }

  lemma DirectoryFits(h: Header, g: Geometry)
    requires TargetOk(h, g)
    ensures g.GTs <= g.GDsectors * 128
  {
    GeometryFacts(h, g);
  }

  lemma FreshTarget(c: Codec, bytes: nat, gt: seq<nat>)
    requires Lossless(c, GRAIN_SECTORS) && GrainsFit(bytes)
    requires |gt| == TableWords(TargetGeometry(bytes)) && forall i :: 0 <= i < |gt| ==> gt[i] == 0
    ensures var h, g := TargetHeader(bytes), TargetGeometry(bytes);
            Written(c, h, g, Image(gt, h.overHead, []), [], map[])
  {
    hide Lossless, GrainsFit, TargetHeader, TargetGeometry, TableWords, TargetOk;
    TargetCreated(bytes);
    assert Content([]) == [];
  }

  lemma NothingStored(model: seq<byte>)
    requires model == Zeros(|model|)
    ensures Stores(model, map[])
  {
  }

  lemma RecordSectors(c: Codec, lba: nat, data: seq<byte>)
    ensures |Record(c, lba, data)| / SECTOR == Sectors(c, data)
  {
  }

  lemma PositionInBuffer(pos: nat)
    ensures And(pos, GRAIN_BYTES - 1) == pos % GRAIN_BYTES
  {
    Pow2Values();
    Pow2IsPow2(16);
    MaskIsRemainder(pos, GRAIN_BYTES);
  }

  lemma OverlayNothing(m: seq<byte>, pos: nat)
    ensures Overlay(m, [], pos) == m
  {
  }
}
