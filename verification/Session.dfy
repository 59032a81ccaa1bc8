// Whole sessions with the buffered writer: create, any writes, close, reopen.

module Session {
  import opened Bytes
  import opened Header
  import opened Grain
  import opened Layout
  import opened Journal
  import opened Target
  import opened Reader
  import opened Reopen
  import opened Writer
  import Pool
  import T = TargetFile

  datatype Piece = Piece(data: seq<byte>, pos: nat)

  /** The writes laid over `m` in order. */
  function OverlayAll(m: seq<byte>, ws: seq<Piece>): (r: seq<byte>)
    ensures |r| == |m|
  {
    if ws == [] then m
    else Overlay(OverlayAll(m, ws[..|ws| - 1]), ws[|ws| - 1].data, ws[|ws| - 1].pos)
  }

  /** Later writes win: a byte of the overlay is that of the last write that covers it. */
  lemma {:induction false} LastWriteWins(m: seq<byte>, ws: seq<Piece>, i: nat, p: nat)
    requires i < |ws| && p < |m| && ws[i].pos <= p < ws[i].pos + |ws[i].data|
    requires forall j :: i < j < |ws| ==> !(ws[j].pos <= p < ws[j].pos + |ws[j].data|)
    ensures OverlayAll(m, ws)[p] == ws[i].data[p - ws[i].pos]
  {
    var n := |ws| - 1;
    if i < n {
      LastWriteWins(m, ws[..n], i, p);
    }
  }

  predicate Inside(size: nat, ws: seq<Piece>) {
    forall i :: 0 <= i < |ws| ==> ws[i].pos + |ws[i].data| <= size
  }

  /** Each write inside the disk and behind the ones before it. */
  predicate Sequential(size: nat, ws: seq<Piece>) {
    && Inside(size, ws)
    && (forall i, j :: 0 <= i < j < |ws| ==> ws[i].pos + |ws[i].data| <= ws[j].pos)
  }

  ghost predicate Holds(c: Codec, d: SparseDisk, model: seq<byte>)
    requires DiskOk(d)
  {
    && Capacity(d) == |model|
    && forall p :: 0 <= p < |model| ==> Lookup(c, d, p) == Some(model[p])
  }

  /** What the stored grains hold is what the reopened disk holds. */
  lemma StoredIsRead(c: Codec, h: Header, g: Geometry, img: Image, exts: seq<Extent>, store: map<nat, seq<byte>>,
                     descriptor: seq<byte>, model: seq<byte>)
    requires Finished(c, h, g, img, exts, store, descriptor) && ReadFooter(Content(img.log)).None?
    requires Stores(model, store) && Held(g, store, model, NO_GRAIN) && |model| == h.capacity * SECTOR
    ensures Open(Content(img.log)).Some? && Holds(c, Open(Content(img.log)).value, model)
  {
    hide Finished, Open, DiskOk, ReadFooter, Content, Lookup, ReadDescriptor;
    OpenFinished(c, h, g, img, exts, store, descriptor);
    var d := Opened(h, img, g);
    TargetFlags(c, h, g, img, exts, store, descriptor);
    forall p | 0 <= p < |model| ensures Lookup(c, d, p) == Some(model[p]) {
      PositionInGrain(d, p);
      LookupFinished(c, h, g, img, exts, store, descriptor, p);
    }
  }

  /** The sectors of a disk's non-zero grains can be numbered in 32 bits. */
  predicate RoomFor(c: Codec, bytes: nat, disk: seq<byte>) {
    CanonSP(c, TargetHeader(bytes).overHead, Pool.StoreOf(disk), TargetGeometry(bytes).GTEs) < U32
  }

  lemma {:induction false} CanonSub(c: Codec, base: nat, a: map<nat, seq<byte>>, b: map<nat, seq<byte>>, n: nat)
    requires forall nr :: nr in a ==> nr in b && a[nr] == b[nr]
    ensures CanonSP(c, base, a, n) <= CanonSP(c, base, b, n)
  {
    hide Sectors;
    if n > 0 { CanonSub(c, base, a, b, n - 1); }
  }

  lemma GrainOfDisk(h: Header, g: Geometry, disk: seq<byte>, nr: nat)
    requires TargetOk(h, g) && |disk| == h.capacity * SECTOR
    ensures |Pool.Chunk(disk, nr)| == GrainLen(g, nr)
    ensures nr < CeilDiv(|disk|, GRAIN_BYTES) <==> nr < g.GTEs
    ensures forall o :: 0 <= o < |Pool.Chunk(disk, nr)| ==>
              var p := nr * GRAIN_BYTES + o;
              p < |disk| && Pool.Chunk(disk, nr)[o] == disk[p] && p / GRAIN_BYTES == nr && p % GRAIN_BYTES == o
  {
    hide GetGDGT, IsCompressed, HasEmbeddedLBA, FlagsSupported, Fits;
    CapacityFacts(h, g);
  }

  /** Grains of writes inside the disk are grains of the disk ... */
  lemma HeldIsSource(h: Header, g: Geometry, store: map<nat, seq<byte>>, disk: seq<byte>, nr: nat)
    requires TargetOk(h, g) && |disk| == h.capacity * SECTOR && Held(g, store, disk, NO_GRAIN)
    requires nr in store && |store[nr]| <= GrainLen(g, nr)
    ensures nr in Pool.StoreOf(disk) && Pool.StoreOf(disk)[nr] == store[nr]
  {
    hide TargetOk, GrainLen, Pool.Chunk, Pool.IsZeroed, CeilDiv;
    GrainOfDisk(h, g, disk, nr);
    assert Pool.Chunk(disk, nr) == store[nr];
  }

  /** ... and when they are all of it they are those that the parallel copy stores. */
  lemma StoresIsSource(h: Header, g: Geometry, store: map<nat, seq<byte>>, disk: seq<byte>, nr: nat)
    requires TargetOk(h, g) && |disk| == h.capacity * SECTOR && Stores(disk, store)
    requires nr in Pool.StoreOf(disk)
    ensures nr in store
  {
    hide TargetOk, GrainLen, Pool.Chunk, CeilDiv;
    GrainOfDisk(h, g, disk, nr);
  }

  /** The sectors that a session took are those of the disk's own grains. */
  lemma TrimmedStore(c: Codec, h: Header, g: Geometry, store: map<nat, seq<byte>>, disk: seq<byte>)
    requires TargetOk(h, g) && |disk| == h.capacity * SECTOR && Held(g, store, disk, NO_GRAIN)
    requires forall nr :: nr in store ==> |store[nr]| <= GrainLen(g, nr)
    ensures CanonSP(c, h.overHead, store, g.GTEs) <= CanonSP(c, h.overHead, Pool.StoreOf(disk), g.GTEs)
    ensures Stores(disk, store) ==> store == Pool.StoreOf(disk)
  {
    hide TargetOk, Held, Stores, GrainLen, Pool.StoreOf, CanonSP;
    var source := Pool.StoreOf(disk);
    forall nr | nr in store ensures nr in source && source[nr] == store[nr] { HeldIsSource(h, g, store, disk, nr); }
    CanonSub(c, h.overHead, store, source, g.GTEs);
    if Stores(disk, store) {
      forall nr | nr in source ensures nr in store { StoresIsSource(h, g, store, disk, nr); }
    }
  }

  lemma GrainsFitSectors(c: Codec, bytes: nat, store: map<nat, seq<byte>>)
    requires Lossless(c, GRAIN_SECTORS) && SectorsFit(bytes) && Grains(TargetGeometry(bytes), store)
    ensures CanonSP(c, TargetHeader(bytes).overHead, store, TargetGeometry(bytes).GTEs) < U32
  {
    hide Lossless, SectorsFit, TargetGeometry, TargetHeader, CanonSP, Pool.IsZeroed, Whole;
    AnyContentFits(c, bytes, store);
  }

  /** Operations of the file system that are always enough: two for each grain, eight to end
      the file, and six more to create, close, rename and reopen. */
  function EnoughOperations(bytes: nat): nat {
    2 * CeilDiv(bytes, GRAIN_BYTES) + 14
  }

  /** Buffered writes refine a plain byte array: for any sequence of writes, in any order,
      overlapping or not, if all calls and the close succeed then the disk reads back as
      the writes laid over zeros in order, provided that the sectors of the grains that
      were stored can be numbered in 32 bits.  For writes inside the disk that is so when
      there is room for what has been written, and the grains stored are then those that the
      parallel copy of it stores.  Sequential writes of a disk that there is room for fail
      only when an operation of the file system has failed, and with enough operations none
      does. */
  method WriteDisk(c: Codec, bytes: nat, ws: seq<Piece>, reorder: bool, descriptor: seq<byte>, quota: nat)
    returns (ok: bool, f: seq<byte>, ioFailed: bool, ghost store: map<nat, seq<byte>>, ghost sectors: nat)
    requires Lossless(c, GRAIN_SECTORS) && GrainsFit(bytes)
    requires 0 < |descriptor| <= DESCRIPTOR_SECTORS * SECTOR
    ensures sectors == CanonSP(c, TargetHeader(bytes).overHead, store, TargetGeometry(bytes).GTEs)
    ensures ok ==> Held(TargetGeometry(bytes), store, OverlayAll(Zeros(RoundUp(bytes)), ws), NO_GRAIN)
    ensures SectorsFit(bytes) ==> sectors < U32
    ensures ok && Inside(RoundUp(bytes), ws) && RoomFor(c, bytes, OverlayAll(Zeros(RoundUp(bytes)), ws)) ==>
              sectors < U32
    ensures ok && sectors < U32 ==> Stores(OverlayAll(Zeros(RoundUp(bytes)), ws), store)
    ensures ok && sectors < U32 && Inside(RoundUp(bytes), ws) ==>
              store == Pool.StoreOf(OverlayAll(Zeros(RoundUp(bytes)), ws))
    ensures ok && sectors < U32 && ReadFooter(f).None? ==>
              && Open(f).Some? && Holds(c, Open(f).value, OverlayAll(Zeros(RoundUp(bytes)), ws))
              && Open(f).value.h == T.FinalHeader(bytes)
              && T.IsTarget(c, f, bytes, Open(f).value.gt, store, descriptor)
    ensures Sequential(RoundUp(bytes), ws) && RoomFor(c, bytes, OverlayAll(Zeros(RoundUp(bytes)), ws)) ==>
              ok || ioFailed
    ensures ioFailed && (Sequential(RoundUp(bytes), ws) || sectors < U32) ==> quota < EnoughOperations(bytes)
  {
    hide Lossless, GrainsFit, SectorsFit, TargetHeader, TargetGeometry, Overlay, Finished, Stores, Grains, Named, Open,
      Holds, ReadFooter, Content, DiskOk, TargetOk, Written, Agrees, TableWords, TableBytes, CloseOps,
      HeaderUntouched, CanonGT, CanonSP, CeilDiv, Directory, GrainLen, Pool.StoreOf, T.IsTarget, T.FinalHeader;
    var w := new SequentialWriter(c, bytes, quota);
    TargetCreated(bytes);
    GrainNumber(bytes);
    ghost var zeros, size := Zeros(RoundUp(bytes)), RoundUp(bytes);
    ghost var end := 0;
    assert ws[..0] == [];
    var i := 0;
    while i < |ws|
      invariant i <= |ws| && w.Valid() && !w.broken && !w.faulted
      invariant fresh(w) && fresh(w.gt) && fresh(w.gd) && fresh(w.buffer)
      invariant w.c == c && w.h == TargetHeader(bytes) && w.g == TargetGeometry(bytes) && w.firstQuota == quota
      invariant w.model == OverlayAll(zeros, ws[..i])
      invariant Inside(size, ws) ==> w.Trim()
      invariant Sequential(size, ws) ==>
                  w.Forward() && w.bufferNr <= end / GRAIN_BYTES && (i < |ws| ==> end <= ws[i].pos)
    {
      var ret := w.Pwrite(ws[i].data, ws[i].pos);
      if ret == -1 {
        if SectorsFit(bytes) { GrainsFitSectors(c, bytes, w.store); }
        return false, [], w.faulted, w.store, w.top;
      }
      assert ws[..i + 1][..i] == ws[..i];
      end := ws[i].pos + |ws[i].data|;
      i := i + 1;
    }
    assert ws[..i] == ws;
    ok := w.Close(reorder, descriptor);
    f, ioFailed, store, sectors := Content(w.log), w.faulted, w.store, w.top;
    if SectorsFit(bytes) { GrainsFitSectors(c, bytes, store); }
    if Held(w.g, store, w.model, NO_GRAIN) && w.Trim() { TrimmedStore(c, w.h, w.g, store, w.model); }
    if ok && sectors < U32 && ReadFooter(f).None? {
      StoredIsRead(c, w.h, w.g, w.Img(), w.exts, w.store, descriptor, w.model);
      FinalFile(c, bytes, w.Img(), w.exts, w.store, descriptor);
    }
  }

  lemma FinalFile(c: Codec, bytes: nat, img: Image, exts: seq<Extent>, store: map<nat, seq<byte>>,
                  descriptor: seq<byte>)
    requires Finished(c, TargetHeader(bytes), TargetGeometry(bytes), img, exts, store, descriptor)
    requires GrainsFit(bytes) && |descriptor| <= DESCRIPTOR_SECTORS * SECTOR && ReadFooter(Content(img.log)).None?
    ensures var f := Content(img.log);
            && Open(f).Some? && Open(f).value.h == T.FinalHeader(bytes)
            && T.IsTarget(c, f, bytes, Open(f).value.gt, store, descriptor)
  {
    hide Finished, TargetHeader, TargetGeometry, GrainsFit, ReadFooter, Content, T.IsTarget, T.FinalHeader, Open,
      DiskOk, ReadDescriptor, TableWords;
    OpenFinished(c, TargetHeader(bytes), TargetGeometry(bytes), img, exts, store, descriptor);
    T.HeaderIs(bytes);
    T.FinishedIsTarget(c, bytes, img, exts, store, descriptor);
  }

  lemma GrainNumber(bytes: nat)
    requires GrainsFit(bytes)
    ensures TargetGeometry(bytes).GTEs == CeilDiv(bytes, GRAIN_BYTES)
  {
    GrainCount(bytes);
  }
}
