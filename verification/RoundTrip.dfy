// From source bytes to a reopened disk: the parallel copy, close and the reader together.

module RoundTrip {
  import opened Bytes
  import opened Header
  import opened Grain
  import opened Layout
  import opened Journal
  import opened Reorder
  import opened Target
  import opened Reader
  import opened Reopen
  import opened Pool
  import opened PoolRuns
  import D = Descriptor
  import T = TargetFile
  import Bits
  import Copy

  /** The conversion of `src` that StreamOptimized_Create and the copy set up. */
  function JobFor(c: Codec, src: seq<byte>, numThreads: nat): Job {
    var g := TargetGeometry(|src|);
    Job(c, src, g.GTEs, TableWords(g), TargetHeader(|src|).overHead, numThreads)
  }

  /** What the code takes for granted of a source: its grains can be counted in 32 bits, and
      the sectors of those that have to be stored can be numbered in 32 bits. */
  predicate ContentFits(c: Codec, src: seq<byte>) {
    && GrainsFit(|src|)
    && CanonSP(c, TargetHeader(|src|).overHead, StoreOf(src), TargetGeometry(|src|).GTEs) < U32
  }

  /** It holds whatever the content when there is room for every grain uncompressed ... */
  lemma SmallSourceFits(c: Codec, src: seq<byte>)
    requires Lossless(c, GRAIN_SECTORS) && SectorsFit(|src|)
    ensures ContentFits(c, src)
  {
    hide Lossless, SectorsFit, TargetHeader, TargetGeometry, CanonSP, Chunk, IsZeroed, CeilDiv;
    forall nr | nr in StoreOf(src) ensures 0 < |StoreOf(src)[nr]| <= GRAIN_BYTES { ChunkSize(src, nr); }
    AnyContentFits(c, |src|, StoreOf(src));
  }

  /** ... and whatever the size when there is nothing to store. */
  lemma ZeroSourceFits(c: Codec, src: seq<byte>)
    requires GrainsFit(|src|) && AllZero(src)
    ensures ContentFits(c, src)
  {
    hide TargetGeometry, GetGDGT, TableWords, CeilDiv;
    CreateOk(|src|);
    CanonGap(c, TargetHeader(|src|).overHead, StoreOf(src), 0, TargetGeometry(|src|).GTEs);
  }

  lemma JobForOk(c: Codec, src: seq<byte>, numThreads: nat)
    requires ContentFits(c, src)
    ensures JobOk(JobFor(c, src, numThreads))
    ensures TargetOk(TargetHeader(|src|), TargetGeometry(|src|))
  {
    hide GrainsFit, TargetHeader, TargetGeometry, TableWords, CanonSP, TargetOk, StoreOf;
    CreateOk(|src|);
  }

  /** A failure-free run of the parallel copy, from the first thread to the last join. */
  predicate CleanRun(c: Codec, src: seq<byte>, numThreads: nat, ss: seq<State>, es: seq<Event>) {
    && numThreads > 0 && IsRun(JobFor(c, src, numThreads), false, ss, es)
    && Faultless(es) && Terminal(ss[|es|])
  }

  /** What the run leaves for close. */
  function Copied(ss: seq<State>): Image
    requires |ss| > 0
  {
    var s := ss[|ss| - 1];
    Image(s.gt, s.curSP, s.log)
  }

  lemma CopyWrites(c: Codec, src: seq<byte>, numThreads: nat, ss: seq<State>, es: seq<Event>)
    requires Lossless(c, GRAIN_SECTORS) && ContentFits(c, src) && CleanRun(c, src, numThreads, ss, es)
    ensures Written(c, TargetHeader(|src|), TargetGeometry(|src|), Copied(ss), ss[|es|].exts, StoreOf(src))
    ensures Result(JobFor(c, src, numThreads), ss[|es|]) == |src|
    ensures TargetGeometry(|src|).GTEs <= |Copied(ss).gt|
  {
    hide ContentFits, TargetGeometry, TableWords, Lossless, IsRun, Faultless, Terminal, JobOk, TargetOk,
      Complete;
    JobForOk(c, src, numThreads);
    Created(c, src);
    RunEnds(c, src, numThreads, ss, es);
    CleanRunCompletes(JobFor(c, src, numThreads), ss, es);
  }

  lemma Created(c: Codec, src: seq<byte>)
    requires ContentFits(c, src)
    ensures TargetGeometry(|src|).GTEs == CeilDiv(|src|, GRAIN_BYTES) <= TableWords(TargetGeometry(|src|))
    ensures CeilDiv(|src|, SECTOR) < U64
  {
    hide TargetGeometry, TableWords, CanonSP, StoreOf, TargetOk, CeilDiv;
    CreateOk(|src|);
    CapacityBound(|src|);
  }

  lemma RunEnds(c: Codec, src: seq<byte>, numThreads: nat, ss: seq<State>, es: seq<Event>)
    requires CleanRun(c, src, numThreads, ss, es)
    ensures |ss| == |es| + 1
  {
  }

  // ----- reading back -----

  predicate AllZero(data: seq<byte>) {
    forall i :: 0 <= i < |data| ==> data[i] == 0
  }

  /** The last, possibly partial, grain of the source. */
  function Tail(src: seq<byte>): seq<byte> {
    src[|src| / GRAIN_BYTES * GRAIN_BYTES..]
  }

  lemma ChunkAt(src: seq<byte>, p: nat)
    requires p < |src|
    ensures var nr, o := p / GRAIN_BYTES, p % GRAIN_BYTES;
            && nr < CeilDiv(|src|, GRAIN_BYTES) && o < |Chunk(src, nr)| && Chunk(src, nr)[o] == src[p]
  {
  }

  lemma ChunkLength(src: seq<byte>, nr: nat)
    requires nr < CeilDiv(|src|, GRAIN_BYTES)
    ensures |Chunk(src, nr)| == if nr < |src| / GRAIN_BYTES then GRAIN_BYTES else |src| % GRAIN_BYTES
    ensures nr >= |src| / GRAIN_BYTES ==> Chunk(src, nr) == Tail(src) && |src| % GRAIN_BYTES > 0
                                           && nr == |src| / GRAIN_BYTES
  {
  }

  /** The reader's length of grain `nr` is the source's, rounded up to sectors. */
  lemma ReaderLength(c: Codec, src: seq<byte>, nr: nat, d: SparseDisk)
    requires d.h == TargetHeader(|src|) && d.g == TargetGeometry(|src|) && nr < CeilDiv(|src|, GRAIN_BYTES)
    ensures GrainLength(d, nr) == RoundUp(|Chunk(src, nr)|)
    ensures Capacity(d) == RoundUp(|src|)
  {
    ChunkLength(src, nr);
    GrainCount(|src|);
  }

  /** When the disk comes back whole: the source is whole sectors, or its last grain is all
      zeros. */
  predicate Restorable(src: seq<byte>) {
    |src| % SECTOR == 0 || AllZero(Tail(src))
  }

  /** The disk holds the source, followed by zeros up to its last sector. */
  ghost predicate Restores(c: Codec, d: SparseDisk, src: seq<byte>)
    requires DiskOk(d)
  {
    && Capacity(d) == RoundUp(|src|)
    && forall p :: 0 <= p < Capacity(d) ==> Lookup(c, d, p) == Some(SourceByte(src, p))
  }

  /** Everything in front of the source's last, partial grain. */
  ghost predicate RestoresFront(c: Codec, d: SparseDisk, src: seq<byte>)
    requires DiskOk(d)
  {
    forall p :: 0 <= p < |src| / GRAIN_BYTES * GRAIN_BYTES ==>
      p < Capacity(d) && Lookup(c, d, p) == Some(src[p])
  }

  function SourceByte(src: seq<byte>, p: nat): byte {
    if p < |src| then src[p] else 0
  }

  /** What the reader makes of the stored source, byte by byte. */
  function ReadBack(src: seq<byte>, p: nat): Option<byte> {
    var nr, o := p / GRAIN_BYTES, p % GRAIN_BYTES;
    var chunk := Chunk(src, nr);
    if IsZeroed(chunk) then Some(0)
    else if |chunk| < RoundUp(|chunk|) then None
    else if o < |chunk| then Some(chunk[o]) else None
  }

  lemma InSource(src: seq<byte>, p: nat)
    requires p < RoundUp(|src|)
    ensures p / GRAIN_BYTES < CeilDiv(|src|, GRAIN_BYTES)
  {
  }

  lemma LookupIsReadBack(c: Codec, src: seq<byte>, img: Image, exts: seq<Extent>, descriptor: seq<byte>, p: nat)
    requires Finished(c, TargetHeader(|src|), TargetGeometry(|src|), img, exts, StoreOf(src), descriptor)
    requires var d := Opened(TargetHeader(|src|), img, TargetGeometry(|src|)); DiskOk(d) && p < Capacity(d)
    ensures p < RoundUp(|src|)
    ensures Lookup(c, Opened(TargetHeader(|src|), img, TargetGeometry(|src|)), p) == ReadBack(src, p)
  {
    hide Finished, DiskOk, Lookup, TargetHeader, TargetGeometry, RoundUp, Chunk, IsZeroed, GrainLength,
      ReadDescriptor, Capacity, CeilDiv;
    var h, g := TargetHeader(|src|), TargetGeometry(|src|);
    DiskBytes(src, Opened(h, img, g));
    InSource(src, p);
    LookupFinished(c, h, g, img, exts, StoreOf(src), descriptor, p);
    ReaderLength(c, src, p / GRAIN_BYTES, Opened(h, img, g));
  }

  lemma DiskBytes(src: seq<byte>, d: SparseDisk)
    requires d.h == TargetHeader(|src|)
    ensures Capacity(d) == RoundUp(|src|)
  {
  }

  /** Whole sectors, or an all-zero tail: every byte reads back. */
  lemma ReadBackWhole(src: seq<byte>, p: nat)
    requires Restorable(src) && p < RoundUp(|src|)
    ensures ReadBack(src, p) == Some(SourceByte(src, p))
  {
    hide Chunk, RoundUp, CeilDiv, Tail, ReadBack, AllZero;
    var nr := p / GRAIN_BYTES;
    InSource(src, p);
    ChunkLength(src, nr);
    TailSectors(|src|);
    if |Chunk(src, nr)| % SECTOR == 0 {
      WholeChunk(src, p);
    } else {
      ZeroChunk(src, p);
    }
  }

  lemma WholeChunk(src: seq<byte>, p: nat)
    requires p < RoundUp(|src|) && p / GRAIN_BYTES < CeilDiv(|src|, GRAIN_BYTES)
    requires |Chunk(src, p / GRAIN_BYTES)| % SECTOR == 0
    ensures ReadBack(src, p) == Some(SourceByte(src, p))
  {
    hide Chunk, CeilDiv, Tail, RoundUp, IsZeroed;
    ChunkLength(src, p / GRAIN_BYTES);
    InFront(|src|, p);
    ChunkAt(src, p);
    WholeSectors(|Chunk(src, p / GRAIN_BYTES)|);
    ZeroedSectors(Chunk(src, p / GRAIN_BYTES));
  }

  lemma ZeroedSectors(b: seq<byte>)
    requires |b| % SECTOR == 0
    ensures IsZeroed(b) ==> AllZero(b)
  {
    WordsOf(|b|);
  }

  lemma WordsOf(n: nat)
    requires n % SECTOR == 0
    ensures n / 8 * 8 == n
  {
    var k := n / SECTOR;
    assert n == k * SECTOR;
    Bits.ModUnique(n, 8, 64 * k, 0);
  }

  lemma WholeSectors(n: nat)
    requires n % SECTOR == 0
    ensures RoundUp(n) == n
  {
  }

  lemma InFront(size: nat, p: nat)
    requires p < RoundUp(size) && (p / GRAIN_BYTES < size / GRAIN_BYTES || size % GRAIN_BYTES % SECTOR == 0)
    ensures p < size
  {
    hide RoundUp;
    if p / GRAIN_BYTES >= size / GRAIN_BYTES {
      TailSectors(size);
      WholeSectors(size);
    }
  }

  lemma TailSectors(size: nat)
    ensures size % GRAIN_BYTES % SECTOR == size % SECTOR
  {
  }

  lemma ZeroChunk(src: seq<byte>, p: nat)
    requires p < RoundUp(|src|) && p / GRAIN_BYTES < CeilDiv(|src|, GRAIN_BYTES)
    requires Chunk(src, p / GRAIN_BYTES) == Tail(src) && AllZero(Tail(src))
    ensures ReadBack(src, p) == Some(SourceByte(src, p))
  {
    if p < |src| { ChunkAt(src, p); }
  }

  /** Everything in front of the last, partial grain always reads back. */
  lemma ReadBackFront(src: seq<byte>, p: nat)
    requires p < |src| / GRAIN_BYTES * GRAIN_BYTES
    ensures ReadBack(src, p) == Some(src[p])
  {
    ChunkLength(src, p / GRAIN_BYTES);
    ChunkAt(src, p);
  }

  /** A tail that is not whole sectors and holds a non-zero byte does not. */
  lemma ReadBackTail(src: seq<byte>, i: nat)
    requires |src| % SECTOR != 0 && i < |Tail(src)| && Tail(src)[i] != 0
    ensures var p := |src| / GRAIN_BYTES * GRAIN_BYTES + i;
            p < |src| && ReadBack(src, p) != Some(src[p])
  {
    hide Chunk, RoundUp, Tail, CeilDiv;
    var p := |src| / GRAIN_BYTES * GRAIN_BYTES + i;
    TailAt(src, i);
    ChunkAt(src, p);
    ChunkLength(src, p / GRAIN_BYTES);
    PartialSector(|src|);
  }

  lemma TailAt(src: seq<byte>, i: nat)
    requires i < |Tail(src)|
    ensures var p := |src| / GRAIN_BYTES * GRAIN_BYTES + i;
            p < |src| && Tail(src)[i] == src[p] && p / GRAIN_BYTES == |src| / GRAIN_BYTES
  {
  }

  lemma PartialSector(size: nat)
    requires size % SECTOR != 0
    ensures size % GRAIN_BYTES < RoundUp(size % GRAIN_BYTES)
  {
  }

  /** The round trip, exactly: for every source whose sectors fit, every number of threads,
      every failure-free interleaving and either reorder setting, close succeeds; and unless
      the file's end happens to look like a footer, the file opens, everything in front of
      the last partial grain reads back, and all of the source does if and only if its size
      is a whole number of sectors or its last grain is all zeros. */
  lemma CopyRoundTrip(c: Codec, src: seq<byte>, numThreads: nat, ss: seq<State>, es: seq<Event>,
                      reorder: bool, descriptor: seq<byte>)
    requires Lossless(c, GRAIN_SECTORS) && ContentFits(c, src) && CleanRun(c, src, numThreads, ss, es)
    requires 0 < |descriptor| <= DESCRIPTOR_SECTORS * SECTOR
    ensures TargetGeometry(|src|).GTEs <= |Copied(ss).gt|
    ensures var r := Finish(TargetHeader(|src|), TargetGeometry(|src|), Copied(ss), reorder, descriptor);
            r.Some? &&
            var f := Content(r.value.log);
            (ReadFooter(f).None? ==>
               Open(f).Some? &&
               var d := Open(f).value;
               && RestoresFront(c, d, src)
               && (Restores(c, d, src) <==> Restorable(src)))
  {
    hide Written, Finished, Finish, TargetHeader, TargetGeometry, CleanRun, ContentFits, Lossless, Content,
      ReadFooter, Open, CanonGT, Restores, RestoresFront, Restorable, DiskOk, Lookup, Capacity, CloseOps,
      TableWords, StoreOf, HeaderUntouched, TableBytes, Opened;
    RunEnds(c, src, numThreads, ss, es);
    var h, g := TargetHeader(|src|), TargetGeometry(|src|);
    CopyWrites(c, src, numThreads, ss, es);
    var exts, _ := FinishWritten(c, h, g, Copied(ss), ss[|es|].exts, StoreOf(src), reorder, descriptor);
    var img := Finish(h, g, Copied(ss), reorder, descriptor).value;
    if ReadFooter(Content(img.log)).None? {
      OpenFinished(c, h, g, img, exts, StoreOf(src), descriptor);
      ReopenedSource(c, src, img, exts, descriptor);
      assert Open(Content(img.log)).value == Opened(h, img, g);
    }
  }

  lemma ReopenedSource(c: Codec, src: seq<byte>, img: Image, exts: seq<Extent>, descriptor: seq<byte>)
    requires Finished(c, TargetHeader(|src|), TargetGeometry(|src|), img, exts, StoreOf(src), descriptor)
    requires DiskOk(Opened(TargetHeader(|src|), img, TargetGeometry(|src|)))
    ensures var d := Opened(TargetHeader(|src|), img, TargetGeometry(|src|));
            && RestoresFront(c, d, src)
            && (Restores(c, d, src) <==> Restorable(src))
  {
    hide Finished, TargetHeader, TargetGeometry, DiskOk, Lookup, ReadBack, Opened, StoreOf, Capacity;
    var d := Opened(TargetHeader(|src|), img, TargetGeometry(|src|));
    OpenedBytes(src, img);
    forall p | 0 <= p < Capacity(d) ensures Lookup(c, d, p) == ReadBack(src, p) {
      LookupIsReadBack(c, src, img, exts, descriptor, p);
    }
    forall p | 0 <= p < |src| / GRAIN_BYTES * GRAIN_BYTES
      ensures p < Capacity(d) && Lookup(c, d, p) == Some(src[p])
    {
      ReadBackFront(src, p);
    }
    if Restorable(src) {
      forall p | 0 <= p < Capacity(d) ensures Lookup(c, d, p) == Some(SourceByte(src, p)) {
        ReadBackWhole(src, p);
      }
    } else {
      var i :| 0 <= i < |Tail(src)| && Tail(src)[i] != 0;
      ReadBackTail(src, i);
    }
  }

  lemma OpenedBytes(src: seq<byte>, img: Image)
    ensures Capacity(Opened(TargetHeader(|src|), img, TargetGeometry(|src|))) == RoundUp(|src|) >= |src|
  {
  }

  /** Any read of a restored disk returns source bytes, from the position that the 32-bit
      grain number leaves and clipped at the capacity; and it returns those of the range that
      was asked for exactly when the cut does not matter. */
  lemma RestoredRead(c: Codec, d: SparseDisk, src: seq<byte>, pos: nat, len: nat)
    requires DiskOk(d) && Restores(c, d, src)
    ensures var r := ReadResult(c, d, pos, len);
            && r.Some? && |r.value| == Clipped(d, WrappedPos(d, pos), len)
            && (forall i :: 0 <= i < |r.value| ==> r.value[i] == SourceByte(src, WrappedPos(d, pos) + i))
    ensures |src| % SECTOR == 0 ==>
              (ReadResult(c, d, pos, len) == Some(src[Min(pos, |src|)..Min(pos + len, |src|)]) <==>
               len == 0 || NrOf(d, pos) < U32 || WrappedPos(d, pos) >= Capacity(d))
  {
    hide DiskOk, Restores, Capacity, WrappedPos, NrOf, ReadRange, Clipped, GrainBytes;
    FarIsBehind(d, pos);
    RestoredRange(c, d, src, WrappedPos(d, pos), len);
    RestoredRange(c, d, src, pos, len);
    ReadsAskedRangeIff(c, d, pos, len);
  }

  lemma RestoredRange(c: Codec, d: SparseDisk, src: seq<byte>, pos: nat, len: nat)
    requires DiskOk(d) && Restores(c, d, src)
    ensures ReadRange(c, d, pos, len).Some? && |ReadRange(c, d, pos, len).value| == Clipped(d, pos, len)
    ensures forall i :: 0 <= i < Clipped(d, pos, len) ==>
              ReadRange(c, d, pos, len).value[i] == SourceByte(src, pos + i)
    ensures |src| % SECTOR == 0 ==>
              ReadRange(c, d, pos, len) == Some(src[Min(pos, |src|)..Min(pos + len, |src|)])
  {
    hide DiskOk, Lookup, Capacity;
    var n := Clipped(d, pos, len);
    forall p | pos <= p < pos + n ensures Lookup(c, d, p) == Some(SourceByte(src, p)) {
    }
    if |src| % SECTOR == 0 {
      assert Capacity(d) == |src|;
      assert ReadRange(c, d, pos, len).value == src[Min(pos, |src|)..Min(pos + len, |src|)];
    }
  }

  // ----- the file -----

  /** What every failure-free conversion leaves, byte for byte, and what the opener makes of its
      header and table. */
  lemma CopiedFile(c: Codec, src: seq<byte>, numThreads: nat, ss: seq<State>, es: seq<Event>,
                   reorder: bool, descriptor: seq<byte>)
    requires Lossless(c, GRAIN_SECTORS) && ContentFits(c, src) && CleanRun(c, src, numThreads, ss, es)
    requires 0 < |descriptor| <= DESCRIPTOR_SECTORS * SECTOR
    ensures TargetGeometry(|src|).GTEs <= |Copied(ss).gt|
    ensures var r := Finish(TargetHeader(|src|), TargetGeometry(|src|), Copied(ss), reorder, descriptor);
            r.Some? &&
            var f := Content(r.value.log);
            && T.IsTarget(c, f, |src|, r.value.gt, StoreOf(src), descriptor)
            && (ReadFooter(f).None? ==>
                  && Open(f).Some? && Open(f).value.h == T.FinalHeader(|src|) && Open(f).value.gt == r.value.gt
                  && SameReads(c, src, Open(f).value))
  {
    hide Written, Finished, Finish, TargetHeader, TargetGeometry, CleanRun, Lossless, Content, ReadFooter, Open,
      CanonGT, DiskOk, CloseOps, TableWords, StoreOf, HeaderUntouched, TableBytes, T.IsTarget, T.FinalHeader,
      CanonSP, GrainsFit, SameReads;
    RunEnds(c, src, numThreads, ss, es);
    var h, g := TargetHeader(|src|), TargetGeometry(|src|);
    CopyWrites(c, src, numThreads, ss, es);
    var exts, _ := FinishWritten(c, h, g, Copied(ss), ss[|es|].exts, StoreOf(src), reorder, descriptor);
    var img := Finish(h, g, Copied(ss), reorder, descriptor).value;
    T.FinishedIsTarget(c, |src|, img, exts, StoreOf(src), descriptor);
    if ReadFooter(Content(img.log)).None? {
      OpenFinished(c, h, g, img, exts, StoreOf(src), descriptor);
      T.HeaderIs(|src|);
      AllReads(c, src, img, exts, descriptor);
    }
  }

  /** The disk gives, byte by byte, what the reader makes of the stored source. */
  ghost predicate SameReads(c: Codec, src: seq<byte>, d: SparseDisk) {
    && DiskOk(d) && Capacity(d) == RoundUp(|src|)
    && forall p :: 0 <= p < Capacity(d) ==> Lookup(c, d, p) == ReadBack(src, p)
  }

  lemma AllReads(c: Codec, src: seq<byte>, img: Image, exts: seq<Extent>, descriptor: seq<byte>)
    requires Finished(c, TargetHeader(|src|), TargetGeometry(|src|), img, exts, StoreOf(src), descriptor)
    requires DiskOk(Opened(TargetHeader(|src|), img, TargetGeometry(|src|)))
    ensures SameReads(c, src, Opened(TargetHeader(|src|), img, TargetGeometry(|src|)))
  {
    hide Finished, TargetHeader, TargetGeometry, DiskOk, Lookup, ReadBack, Opened, StoreOf, Capacity;
    var d := Opened(TargetHeader(|src|), img, TargetGeometry(|src|));
    OpenedBytes(src, img);
    forall p | 0 <= p < Capacity(d) ensures Lookup(c, d, p) == ReadBack(src, p) {
      LookupIsReadBack(c, src, img, exts, descriptor, p);
    }
  }

  /** Source bytes of grain `nr`. */
  function SourceLength(src: seq<byte>, nr: nat): nat {
    Min(65536, Max(0, |src| - nr * 65536))
  }

  /** One of the whole 64-bit words of source grain `nr` is not zero. */
  predicate SomeWord(src: seq<byte>, nr: nat) {
    exists p :: nr * 65536 <= p < nr * 65536 + SourceLength(src, nr) / 8 * 8 && p < |src| && src[p] != 0
  }

  /** Which grains are stored, told from the table in the file and the source alone: those in
      which a whole 64-bit word is not zero.  The others read as zeros, also where up to seven
      last bytes of the source are not; and a stored grain that is not whole sectors cannot
      be read at all. */
  lemma StoredIff(c: Codec, src: seq<byte>, numThreads: nat, ss: seq<State>, es: seq<Event>,
                  reorder: bool, descriptor: seq<byte>, nr: nat)
    requires Lossless(c, GRAIN_SECTORS) && ContentFits(c, src) && CleanRun(c, src, numThreads, ss, es)
    requires 0 < |descriptor| <= DESCRIPTOR_SECTORS * SECTOR && nr * 65536 < |src|
    ensures TargetGeometry(|src|).GTEs <= |Copied(ss).gt|
    ensures var r := Finish(TargetHeader(|src|), TargetGeometry(|src|), Copied(ss), reorder, descriptor);
            r.Some? &&
            var f := Content(r.value.log);
            (ReadFooter(f).None? ==> Open(f).Some? && StoredRightly(c, src, Open(f).value, nr))
  {
    hide Finish, TargetHeader, TargetGeometry, CleanRun, ContentFits, Lossless, Content, ReadFooter, Open, DiskOk,
      T.FinalHeader, StoreOf, T.HeaderPart, T.TablePart, T.DescriptorPart, T.GrainPart, SomeWord, Lookup;
    RunEnds(c, src, numThreads, ss, es);
    CopiedFile(c, src, numThreads, ss, es, reorder, descriptor);
    var img := Finish(TargetHeader(|src|), TargetGeometry(|src|), Copied(ss), reorder, descriptor).value;
    if ReadFooter(Content(img.log)).None? {
      InStoreIff(src, nr);
      EntryExists(c, src, Content(img.log), img.gt, descriptor, nr);
      ReadsOfGrain(c, src, Open(Content(img.log)).value, nr);
    }
  }

  ghost predicate StoredRightly(c: Codec, src: seq<byte>, d: SparseDisk, nr: nat) {
    && DiskOk(d) && Capacity(d) == RoundUp(|src|)
    && nr < |d.gt| && (d.gt[nr] != 0 <==> SomeWord(src, nr))
    && forall p :: 0 <= p < Capacity(d) && p / 65536 == nr ==>
         && (!SomeWord(src, nr) ==> Lookup(c, d, p) == Some(0))
         && (SomeWord(src, nr) && SourceLength(src, nr) % 512 != 0 ==> Lookup(c, d, p) == None)
  }

  lemma InStoreIff(src: seq<byte>, nr: nat)
    requires nr * 65536 < |src|
    ensures nr in StoreOf(src) <==> SomeWord(src, nr)
    ensures IsZeroed(Chunk(src, nr)) <==> !SomeWord(src, nr)
    ensures |Chunk(src, nr)| == SourceLength(src, nr)
  {
    var chunk, at := Chunk(src, nr), nr * 65536;
    assert |chunk| == SourceLength(src, nr);
    assert nr < CeilDiv(|src|, GRAIN_BYTES);
    forall i | 0 <= i < |chunk| ensures chunk[i] == src[at + i] {
    }
    if !IsZeroed(chunk) {
      var i :| 0 <= i < |chunk| / 8 * 8 && chunk[i] != 0;
      assert src[at + i] != 0;
    }
    if p :| at <= p < at + SourceLength(src, nr) / 8 * 8 && p < |src| && src[p] != 0 {
      assert chunk[p - at] != 0;
    }
  }

  lemma EntryExists(c: Codec, src: seq<byte>, f: seq<byte>, gt: seq<nat>, descriptor: seq<byte>, nr: nat)
    requires T.IsTarget(c, f, |src|, gt, StoreOf(src), descriptor) && nr * 65536 < |src|
    ensures nr < |gt| && (gt[nr] != 0 <==> nr in StoreOf(src))
  {
    hide T.HeaderPart, T.DescriptorPart, T.GrainPart, StoreOf;
    TablesReach(|src|, nr);
  }

  lemma TablesReach(size: nat, nr: nat)
    requires nr * 65536 < size
    ensures nr < 512 * T.DiskTables(size)
  {
    T.GrainsInSectors(size);
    assert nr < T.DiskGrains(size);
  }

  lemma ReadsOfGrain(c: Codec, src: seq<byte>, d: SparseDisk, nr: nat)
    requires SameReads(c, src, d) && nr * 65536 < |src|
    ensures forall p :: 0 <= p < Capacity(d) && p / 65536 == nr ==>
              && (!SomeWord(src, nr) ==> Lookup(c, d, p) == Some(0))
              && (SomeWord(src, nr) && SourceLength(src, nr) % 512 != 0 ==> Lookup(c, d, p) == None)
  {
    hide DiskOk, Lookup, Capacity, RoundUp, Chunk, IsZeroed, SomeWord, SourceLength;
    InStoreIff(src, nr);
    if |Chunk(src, nr)| % 512 != 0 { ShortOfSectors(|Chunk(src, nr)|); }
  }

  lemma ShortOfSectors(n: nat)
    requires n % 512 != 0
    ensures n < RoundUp(n)
  {
  }

  /** The last, partial grain: stored exactly when one of its whole words is not zero, so a
      tail of one to seven bytes never is, and then it reads as zeros. */
  lemma TailStoredIff(c: Codec, src: seq<byte>, numThreads: nat, ss: seq<State>, es: seq<Event>,
                      reorder: bool, descriptor: seq<byte>)
    requires Lossless(c, GRAIN_SECTORS) && ContentFits(c, src) && CleanRun(c, src, numThreads, ss, es)
    requires 0 < |descriptor| <= DESCRIPTOR_SECTORS * SECTOR && |src| % 65536 != 0
    ensures TargetGeometry(|src|).GTEs <= |Copied(ss).gt|
    ensures var r := Finish(TargetHeader(|src|), TargetGeometry(|src|), Copied(ss), reorder, descriptor);
            r.Some? &&
            var f := Content(r.value.log);
            (ReadFooter(f).None? ==> Open(f).Some? && TailRightly(c, src, Open(f).value))
  {
    hide Finish, TargetHeader, TargetGeometry, CleanRun, ContentFits, Lossless, Content, ReadFooter, Open, DiskOk,
      StoredRightly, TailRightly;
    var nr := |src| / 65536;
    RunEnds(c, src, numThreads, ss, es);
    StoredIff(c, src, numThreads, ss, es, reorder, descriptor, nr);
    var f := Content(Finish(TargetHeader(|src|), TargetGeometry(|src|), Copied(ss), reorder, descriptor).value.log);
    if ReadFooter(f).None? { TailIs(c, src, Open(f).value); }
  }

  /** `tail` has a byte that is not zero and belongs to a whole word. */
  predicate TailWord(tail: seq<byte>) {
    exists i :: 0 <= i < |tail| / 8 * 8 && tail[i] != 0
  }

  ghost predicate TailRightly(c: Codec, src: seq<byte>, d: SparseDisk) {
    var nr, tail := |src| / 65536, src[|src| / 65536 * 65536..];
    && DiskOk(d) && nr < |d.gt|
    && (d.gt[nr] != 0 <==> TailWord(tail))
    && (1 <= |tail| <= 7 ==> d.gt[nr] == 0)
    && (d.gt[nr] == 0 ==> forall p :: nr * 65536 <= p < Capacity(d) ==> Lookup(c, d, p) == Some(0))
  }

  lemma TailIs(c: Codec, src: seq<byte>, d: SparseDisk)
    requires |src| % 65536 != 0 && StoredRightly(c, src, d, |src| / 65536)
    ensures TailRightly(c, src, d)
  {
    hide DiskOk, Lookup, Capacity, SomeWord, TailWord, RoundUp;
    var nr := |src| / 65536;
    TailPlace(src, nr);
    forall p | nr * 65536 <= p < Capacity(d) ensures p / 65536 == nr {
      InTail(|src|, nr, p);
    }
  }

  lemma TailPlace(src: seq<byte>, nr: nat)
    requires nr == |src| / 65536 && |src| % 65536 != 0
    ensures nr * 65536 <= |src| && |src[nr * 65536..]| == SourceLength(src, nr)
    ensures TailWord(src[nr * 65536..]) <==> SomeWord(src, nr)
    ensures |src[nr * 65536..]| <= 7 ==> !TailWord(src[nr * 65536..])
  {
    hide SourceLength;
    var at := nr * 65536;
    assert |src| == at + |src| % 65536;
    var tail := src[at..];
    TailLength(src, nr);
    if TailWord(tail) {
      var i :| 0 <= i < |tail| / 8 * 8 && tail[i] != 0;
      assert src[at + i] != 0;
    }
    if SomeWord(src, nr) {
      var p :| at <= p < at + |tail| / 8 * 8 && p < |src| && src[p] != 0;
      assert tail[p - at] != 0;
    }
  }

  lemma TailLength(src: seq<byte>, nr: nat)
    requires nr == |src| / 65536
    ensures SourceLength(src, nr) == |src| % 65536
  {
  }

  lemma InTail(size: nat, nr: nat, p: nat)
    requires nr == size / 65536 && nr * 65536 <= p < RoundUp(size)
    ensures p / 65536 == nr
  {
    var r := size % 65536;
    assert size == nr * 65536 + r;
    RoundUpTail(nr, r);
    Bits.ModUnique(p, 65536, nr, p - nr * 65536);
  }

  lemma RoundUpTail(q: nat, r: nat)
    requires r < 65536
    ensures RoundUp(q * 65536 + r) <= q * 65536 + 65536
  {
  }

  // ----- footers -----

  /** The finished file can only look as if it had a footer when some grain of the source takes
      three sectors or more; and when nothing is stored it cannot, if the descriptor leaves
      the last of its sectors free. */
  lemma SmallGrainsNoFooter(c: Codec, src: seq<byte>, numThreads: nat, ss: seq<State>, es: seq<Event>,
                            reorder: bool, descriptor: seq<byte>)
    requires Lossless(c, GRAIN_SECTORS) && ContentFits(c, src) && CleanRun(c, src, numThreads, ss, es)
    requires 0 < |descriptor| <= DESCRIPTOR_SECTORS * SECTOR
    requires forall nr :: nr in StoreOf(src) ==> Sectors(c, StoreOf(src)[nr]) < 3
    requires |descriptor| <= (DESCRIPTOR_SECTORS - 1) * SECTOR || StoreOf(src) != map[]
    ensures TargetGeometry(|src|).GTEs <= |Copied(ss).gt|
    ensures var r := Finish(TargetHeader(|src|), TargetGeometry(|src|), Copied(ss), reorder, descriptor);
            r.Some? && ReadFooter(Content(r.value.log)).None?
  {
    hide Written, Finished, Finish, TargetHeader, TargetGeometry, CleanRun, ContentFits, Lossless, Content,
      ReadFooter, CanonGT, CloseOps, TableWords, HeaderUntouched, TableBytes, StoreOf, Sectors;
    RunEnds(c, src, numThreads, ss, es);
    var h, g := TargetHeader(|src|), TargetGeometry(|src|);
    CopyWrites(c, src, numThreads, ss, es);
    var exts, _ := FinishWritten(c, h, g, Copied(ss), ss[|es|].exts, StoreOf(src), reorder, descriptor);
    var img := Finish(h, g, Copied(ss), reorder, descriptor).value;
    PlacedGrains(c, h, g, img, exts, StoreOf(src), descriptor);
    if exts == [] {
      EmptyHasNoFooter(c, h, g, img, exts, StoreOf(src), descriptor);
    } else if ReadFooter(Content(img.log)).Some? {
      FooterNeedsThree(c, h, g, img, exts, StoreOf(src), descriptor);
    }
  }

  lemma PlacedGrains(c: Codec, h: Header, g: Geometry, img: Image, exts: seq<Extent>,
                     store: map<nat, seq<byte>>, descriptor: seq<byte>)
    requires Finished(c, h, g, img, exts, store, descriptor)
    ensures exts == [] ==> store == map[]
    ensures exts != [] ==> exts[|exts| - 1].nr in store && exts[|exts| - 1].data == store[exts[|exts| - 1].nr]
  {
    hide Stored, EncodeHeader, TableBytes, HasAt, Content, TableWords, Region, TargetOk, Lossless, Tiled, Top;
    if exts != [] {
      assert exts[|exts| - 1] in exts;
    } else {
      assert forall i :: i !in store;
    }
  }

  /** A source that is not whole sectors and does not come back: eight bytes, none zero. */
  function EightBytes(): (src: seq<byte>)
    ensures |src| == 8 && src[0] == 1
  {
    [1, 2, 3, 4, 5, 6, 7, 8]
  }

  lemma EightBytesStored()
    ensures !Restorable(EightBytes())
    ensures StoreOf(EightBytes()) != map[]
    ensures forall nr :: nr in StoreOf(EightBytes()) ==> StoreOf(EightBytes())[nr] == EightBytes()
  {
    hide EightBytes;
    var src := EightBytes();
    assert CeilDiv(|src|, GRAIN_BYTES) == 1 && Chunk(src, 0) == src && Tail(src) == src;
    hide Chunk, Tail, CeilDiv;
    assert !IsZeroed(src);
    assert 0 in StoreOf(src);
  }

  lemma EightBytesSmall()
    ensures SectorsFit(8) && Sectors(StoredCodec(), EightBytes()) == 1
  {
    hide EightBytes;
    TwoTerabytesFit(8);
    assert StoredCodec().deflate(EightBytes()) == EightBytes();
  }

  /** It shows that everything assumed above can be met at once, the absence of a footer
      included, and that the round trip then fails: with grains stored as they are, any
      number of threads and either reorder setting, there is a failure-free run, close
      succeeds, the file opens, and the disk is not the source. */
  lemma EightBytesLost(numThreads: nat, reorder: bool, descriptor: seq<byte>)
    returns (ss: seq<State>, es: seq<Event>, d: SparseDisk)
    requires numThreads > 0 && 0 < |descriptor| <= DESCRIPTOR_SECTORS * SECTOR
    ensures var c, src := StoredCodec(), EightBytes();
            && Lossless(c, GRAIN_SECTORS) && ContentFits(c, src) && CleanRun(c, src, numThreads, ss, es)
            && TargetGeometry(|src|).GTEs <= |Copied(ss).gt| &&
            var r := Finish(TargetHeader(|src|), TargetGeometry(|src|), Copied(ss), reorder, descriptor);
            && r.Some? && ReadFooter(Content(r.value.log)).None?
            && Open(Content(r.value.log)) == Some(d) && !Restores(c, d, src)
  {
    hide Finish, TargetHeader, TargetGeometry, ContentFits, Lossless, Content, ReadFooter, TableWords, StoreOf, Open,
      Restores, Restorable, RestoresFront, StoredCodec, EightBytes, Sectors, IsRun, Terminal, Faultless, SectorsFit;
    var c, src := StoredCodec(), EightBytes();
    EightBytesStored();
    EightBytesSmall();
    StoredIsLossless(GRAIN_SECTORS);
    SmallSourceFits(c, src);
    ss, es := RunFor(c, src, numThreads);
    RunEnds(c, src, numThreads, ss, es);
    SmallGrainsNoFooter(c, src, numThreads, ss, es, reorder, descriptor);
    CopyRoundTrip(c, src, numThreads, ss, es, reorder, descriptor);
    var r := Finish(TargetHeader(|src|), TargetGeometry(|src|), Copied(ss), reorder, descriptor);
    d := Open(Content(r.value.log)).value;
  }

  lemma RunFor(c: Codec, src: seq<byte>, numThreads: nat) returns (ss: seq<State>, es: seq<Event>)
    requires ContentFits(c, src) && numThreads > 0
    ensures CleanRun(c, src, numThreads, ss, es)
  {
    hide ContentFits, IsRun, Terminal, Faultless, TargetHeader, TargetGeometry, TableWords, CeilDiv;
    Created(c, src);
    ss, es := CleanRunExists(JobFor(c, src, numThreads));
  }

  // ----- converting back -----

  /** The last grain of the target is whole, or the source has only zeros for it. */
  predicate EndsWell(src: seq<byte>) {
    RoundUp(|src|) % GRAIN_BYTES == 0 || IsZeroed(Tail(src))
  }

  lemma LastGrain(src: seq<byte>)
    ensures var g := TargetGeometry(|src|);
            && (g.lastGrainSize == 0 <==> RoundUp(|src|) % GRAIN_BYTES == 0)
            && (g.lastGrainSize != 0 ==>
                  g.lastGrainNr < CeilDiv(|src|, GRAIN_BYTES) && Chunk(src, g.lastGrainNr) == Tail(src))
  {
    LastNumber(|src|);
    hide TargetGeometry;
    if TargetGeometry(|src|).lastGrainSize != 0 { ChunkLength(src, |src| / GRAIN_BYTES); }
  }

  lemma LastNumber(size: nat)
    ensures var g := TargetGeometry(size);
            && (g.lastGrainSize == 0 <==> RoundUp(size) % GRAIN_BYTES == 0)
            && (g.lastGrainSize != 0 ==> g.lastGrainNr == size / GRAIN_BYTES < CeilDiv(size, GRAIN_BYTES))
  {
    LastSectors(size);
    hide TargetGeometry;
    var q, r := size / GRAIN_BYTES, size % GRAIN_BYTES;
    var k := CeilDiv(r, SECTOR);
    assert size == q * GRAIN_BYTES + r;
    assert CeilDiv(size, SECTOR) == q * GRAIN_SECTORS + k && k <= GRAIN_SECTORS;
    assert RoundUp(size) == q * GRAIN_BYTES + k * SECTOR;
  }

  lemma LastSectors(size: nat)
    ensures var g, n := TargetGeometry(size), CeilDiv(size, SECTOR);
            g.lastGrainNr == n / GRAIN_SECTORS && g.lastGrainSize == n % GRAIN_SECTORS * SECTOR
  {
    hide CeilDiv;
  }

  /** Converting the target back to a flat file comes to an end exactly when its last grain is
      whole or not stored; otherwise the enumeration of its data never does. */
  lemma ConvertBackEnds(c: Codec, src: seq<byte>, numThreads: nat, ss: seq<State>, es: seq<Event>,
                        reorder: bool, descriptor: seq<byte>)
    requires Lossless(c, GRAIN_SECTORS) && ContentFits(c, src) && CleanRun(c, src, numThreads, ss, es)
    requires 0 < |descriptor| <= DESCRIPTOR_SECTORS * SECTOR
    ensures TargetGeometry(|src|).GTEs <= |Copied(ss).gt|
    ensures var r := Finish(TargetHeader(|src|), TargetGeometry(|src|), Copied(ss), reorder, descriptor);
            r.Some? &&
            var f := Content(r.value.log);
            (ReadFooter(f).None? ==> Open(f).Some? && (Copy.Enumerable(Open(f).value) <==> EndsWell(src)))
  {
    hide Written, Finished, Finish, TargetHeader, TargetGeometry, CleanRun, ContentFits, Lossless, Content,
      ReadFooter, Open, CanonGT, DiskOk, CloseOps, TableWords, HeaderUntouched, TableBytes, EndsWell, StoreOf,
      ReadDescriptor;
    RunEnds(c, src, numThreads, ss, es);
    var h, g := TargetHeader(|src|), TargetGeometry(|src|);
    CopyWrites(c, src, numThreads, ss, es);
    var exts, _ := FinishWritten(c, h, g, Copied(ss), ss[|es|].exts, StoreOf(src), reorder, descriptor);
    var img := Finish(h, g, Copied(ss), reorder, descriptor).value;
    if ReadFooter(Content(img.log)).None? {
      OpenFinished(c, h, g, img, exts, StoreOf(src), descriptor);
      LastEntry(c, src, img, exts, descriptor);
    }
  }

  lemma LastEntry(c: Codec, src: seq<byte>, img: Image, exts: seq<Extent>, descriptor: seq<byte>)
    requires Finished(c, TargetHeader(|src|), TargetGeometry(|src|), img, exts, StoreOf(src), descriptor)
    requires DiskOk(Opened(TargetHeader(|src|), img, TargetGeometry(|src|)))
    ensures Copy.Enumerable(Opened(TargetHeader(|src|), img, TargetGeometry(|src|))) <==> EndsWell(src)
  {
    hide Finished, TargetHeader, TargetGeometry, Chunk, Tail, CeilDiv, IsZeroed, RoundUp, ReadDescriptor;
    var h, g := TargetHeader(|src|), TargetGeometry(|src|);
    Copy.DiskShape(Opened(h, img, g));
    LastGrain(src);
    if g.lastGrainSize != 0 {
      EntriesFit(c, h, g, img, exts, StoreOf(src), descriptor, g.lastGrainNr);
    }
  }

  // ----- the descriptor -----

  /** The characters of `s` stand in the file from byte `at` on. */
  predicate TextAt(f: seq<byte>, at: nat, s: string) {
    forall i :: 0 <= i < |s| ==> at + i < |f| && f[at + i] as int == s[i] as int
  }

  lemma FinishedText(c: Codec, h: Header, g: Geometry, img: Image, exts: seq<Extent>,
                     store: map<nat, seq<byte>>, s: string)
    requires Finished(c, h, g, img, exts, store, D.ToBytes(s)) && D.Ascii(s) && |s| <= DESCRIPTOR_SECTORS * SECTOR
    ensures TextAt(Content(img.log), 512, s)
  {
    hide Content, TargetOk, TableBytes, EncodeHeader, Complete, Lossless;
    var f := Content(img.log);
    assert h.descriptorOffset == 1 by { TargetPlaces(h, g); }
    T.DescriptorWritten(f, D.ToBytes(s));
  }

  lemma TargetPlaces(h: Header, g: Geometry)
    requires TargetOk(h, g)
    ensures h.descriptorOffset == 1
  {
    hide GetGDGT, FlagsSupported, Fits;
  }

  /** The descriptor printed at close comes back from the reopened disk as the same text, and
      parses to the pairs it was printed from. */
  lemma DescriptorRoundTrip(c: Codec, src: seq<byte>, numThreads: nat, ss: seq<State>, es: seq<Event>,
                            reorder: bool, x: D.Inputs)
    requires Lossless(c, GRAIN_SECTORS) && ContentFits(c, src) && CleanRun(c, src, numThreads, ss, es)
    requires x.capacity == CeilDiv(|src|, SECTOR) && D.OneLine(x.toolsVersion)
    requires |D.Print(x)| <= DESCRIPTOR_SECTORS * SECTOR
    ensures TargetGeometry(|src|).GTEs <= |Copied(ss).gt|
    ensures var r := Finish(TargetHeader(|src|), TargetGeometry(|src|), Copied(ss), reorder, D.ToBytes(D.Print(x)));
            r.Some? &&
            var f := Content(r.value.log);
            && TextAt(f, 512, D.Print(x))
            && (ReadFooter(f).None? ==>
               && Open(f).Some? && Open(f).value.descriptor.Some?
               && D.CString(Open(f).value.descriptor.value) == D.Print(x)
               && D.Pairs(D.CString(Open(f).value.descriptor.value)) == D.Expected(x))
  {
    hide Written, Finished, Finish, TargetHeader, TargetGeometry, CleanRun, ContentFits, Lossless, Content,
      ReadFooter, Open, CanonGT, CloseOps, TableWords, StoreOf, HeaderUntouched, TableBytes, D.Print,
      D.Expected, D.Ascii, D.OneLine, D.Pairs, D.CString, CeilDiv, D.ToBytes, DiskOk, ReadDescriptor, TextAt;
    var h, g, store := TargetHeader(|src|), TargetGeometry(|src|), StoreOf(src);
    var descriptor := D.ToBytes(D.Print(x));
    D.PrintedIsAscii(x);
    D.PrintedParses(x);
    RunEnds(c, src, numThreads, ss, es);
    CopyWrites(c, src, numThreads, ss, es);
    var exts, _ := FinishWritten(c, h, g, Copied(ss), ss[|es|].exts, store, reorder, descriptor);
    var img := Finish(h, g, Copied(ss), reorder, descriptor).value;
    FinishedText(c, h, g, img, exts, store, D.Print(x));
    if ReadFooter(Content(img.log)).None? {
      OpenFinished(c, h, g, img, exts, store, descriptor);
      DescriptorFound(c, h, g, img, exts, store, descriptor);
      D.CStringOf(D.Print(x), DESCRIPTOR_SECTORS * SECTOR - |descriptor|);
    }
  }

  // ----- canonical output -----

  /** Every byte of a tiled area lies in the record of one of its extents. */
  lemma {:induction false} Covered(c: Codec, base: nat, exts: seq<Extent>, q: nat) returns (a: nat)
    requires Tiled(c, base, exts) && base * SECTOR <= q < Top(c, base, exts) * SECTOR
    ensures a < |exts| && exts[a].sp * SECTOR <= q < (exts[a].sp + Sectors(c, exts[a].data)) * SECTOR
  {
    hide Sectors;
    var n := |exts| - 1;
    assert n >= 0;
    if q < Top(c, base, exts[..n]) * SECTOR {
      TiledFront(c, base, exts, n);
      a := Covered(c, base, exts[..n], q);
    } else {
      a := n;
    }
  }

  lemma TiledFront(c: Codec, base: nat, exts: seq<Extent>, n: nat)
    requires Tiled(c, base, exts) && n <= |exts|
    ensures Tiled(c, base, exts[..n])
  {
    forall a | 0 <= a < n ensures exts[..n][a].sp == Top(c, base, exts[..n][..a]) {
      assert exts[..n][..a] == exts[..a];
    }
  }

  /** Two complete images with the same table and grains hold the same bytes in the area. */
  lemma SameArea(c: Codec, base: nat, gt: seq<nat>, store: map<nat, seq<byte>>, exts: seq<Extent>, f: seq<byte>,
                 exts': seq<Extent>, f': seq<byte>, q: nat)
    requires Complete(c, base, gt, exts, f, store) && Complete(c, base, gt, exts', f', store)
    requires base * SECTOR <= q < Top(c, base, exts) * SECTOR
    ensures q < |f| && q < |f'| && f[q] == f'[q]
  {
    hide Tiled, Sectors, Record;
    var a := Covered(c, base, exts, q);
    var e := exts[a];
    assert e in exts;
    EntryOf(c, base, gt, exts, f, store, a);
    assert Extent(e.nr, gt[e.nr], store[e.nr]) in exts';
    var r, s := Record(c, e.nr * GRAIN_SECTORS, e.data), e.sp * SECTOR;
    HasAtByte(f, s, r, q - s);
    HasAtByte(f', s, r, q - s);
  }

  lemma SameClosed(c: Codec, h: Header, g: Geometry, store: map<nat, seq<byte>>, img: Image, exts: seq<Extent>,
                   descriptor: seq<byte>, img': Image, exts': seq<Extent>, descriptor': seq<byte>, q: nat)
    requires Finished(c, h, g, img, exts, store, descriptor) && Finished(c, h, g, img', exts', store, descriptor')
    requires img.gt == img'.gt && img.curSP == img'.curSP
    requires h.gdOffset * SECTOR <= q < (img.curSP + 1) * SECTOR
    ensures q < |Content(img.log)| && q < |Content(img'.log)| && Content(img.log)[q] == Content(img'.log)[q]
  {
    hide TableBytes, Complete, Lossless, EncodeHeader, HasAt, TargetOk, Content, Top, TableWords;
    var f, f', tables := Content(img.log), Content(img'.log), TableBytes(h, g, img.gt);
    TableBytesSize(h, g, img.gt);
    OverHeadAt(h, g);
    if q < h.overHead * SECTOR {
      HasAtByte(f, h.gdOffset * SECTOR, tables, q - h.gdOffset * SECTOR);
      HasAtByte(f', h.gdOffset * SECTOR, tables, q - h.gdOffset * SECTOR);
    } else if q < img.curSP * SECTOR {
      SameArea(c, h.overHead, img.gt, store, exts, f, exts', f', q);
    } else {
      HasAtByte(f, img.curSP * SECTOR, Zeros(SECTOR), q - img.curSP * SECTOR);
      HasAtByte(f', img.curSP * SECTOR, Zeros(SECTOR), q - img.curSP * SECTOR);
    }
  }

  lemma OverHeadAt(h: Header, g: Geometry)
    requires TargetOk(h, g)
    ensures h.overHead * SECTOR == h.gdOffset * SECTOR + (g.GDsectors + g.GTs * g.GTsectors) * SECTOR
  {
    hide GetGDGT, FlagsSupported, Fits;
  }

  /** With reordering on, close leaves the same table, the same cursor and the same bytes
      from the directory through the EOS marker, whatever the number of threads and however
      they were scheduled: grain i is at overHead plus the sizes of the stored grains before
      it.  Only the descriptor, whose content id is random, may differ. */
  lemma CanonicalOutput(c: Codec, src: seq<byte>,
                        n: nat, ss: seq<State>, es: seq<Event>, descriptor: seq<byte>,
                        n': nat, ss': seq<State>, es': seq<Event>, descriptor': seq<byte>)
    requires Lossless(c, GRAIN_SECTORS) && ContentFits(c, src)
    requires CleanRun(c, src, n, ss, es) && CleanRun(c, src, n', ss', es')
    requires 0 < |descriptor| <= DESCRIPTOR_SECTORS * SECTOR && 0 < |descriptor'| <= DESCRIPTOR_SECTORS * SECTOR
    ensures var h, g := TargetHeader(|src|), TargetGeometry(|src|);
            && g.GTEs <= |Copied(ss).gt| && g.GTEs <= |Copied(ss').gt| &&
            var r, r' := Finish(h, g, Copied(ss), true, descriptor), Finish(h, g, Copied(ss'), true, descriptor');
            && r.Some? && r'.Some?
            && r.value.gt == r'.value.gt == CanonGT(c, h.overHead, StoreOf(src), TableWords(g))
            && r.value.curSP == r'.value.curSP == CanonSP(c, h.overHead, StoreOf(src), g.GTEs)
            && var f, f', from, to := Content(r.value.log), Content(r'.value.log), h.gdOffset * SECTOR,
                                      (r.value.curSP + 1) * SECTOR;
            from <= to <= |f| && to <= |f'| && f[from..to] == f'[from..to]
  {
    hide Written, Finished, Finish, TargetHeader, TargetGeometry, CleanRun, ContentFits, Lossless, Content,
      CanonGT, CanonSP, CloseOps, TableWords, StoreOf, HeaderUntouched, TableBytes;
    var h, g, store := TargetHeader(|src|), TargetGeometry(|src|), StoreOf(src);
    RunEnds(c, src, n, ss, es);
    RunEnds(c, src, n', ss', es');
    CopyWrites(c, src, n, ss, es);
    CopyWrites(c, src, n', ss', es');
    var exts, _ := FinishWritten(c, h, g, Copied(ss), ss[|es|].exts, store, true, descriptor);
    var exts', _ := FinishWritten(c, h, g, Copied(ss'), ss'[|es'|].exts, store, true, descriptor');
    CursorIsCanon(c, h, g, Copied(ss), ss[|es|].exts, store);
    CursorIsCanon(c, h, g, Copied(ss'), ss'[|es'|].exts, store);
    var img := Finish(h, g, Copied(ss), true, descriptor).value;
    var img' := Finish(h, g, Copied(ss'), true, descriptor').value;
    FinishedTop(c, h, g, img, exts, store, descriptor);
    FinishedTop(c, h, g, img', exts', store, descriptor');
    GdBelow(h, g, img, c, exts, store, descriptor);
    var f, f', from, to := Content(img.log), Content(img'.log), h.gdOffset * SECTOR, (img.curSP + 1) * SECTOR;
    forall i | 0 <= i < to - from ensures f[from..to][i] == f'[from..to][i] {
      SameClosed(c, h, g, store, img, exts, descriptor, img', exts', descriptor', from + i);
    }
  }

  lemma GdBelow(h: Header, g: Geometry, img: Image, c: Codec, exts: seq<Extent>, store: map<nat, seq<byte>>,
                descriptor: seq<byte>)
    requires Finished(c, h, g, img, exts, store, descriptor)
    ensures h.gdOffset <= h.overHead <= img.curSP
  {
    hide GetGDGT, FlagsSupported, Fits, Lossless, EncodeHeader, TableBytes, Complete, TableWords, Content,
      HasAt;
  }

  // ----- crashes -----

  lemma OpenNeedsMagic(f: seq<byte>)
    requires Open(f).Some?
    ensures MagicOk(f)
  {
    hide OpenGeometry, ReadFooter, DecodeHeader, LoadTables, DiskOk;
    assert f[..SECTOR][0..4] == f[0..4];
  }

  /** While the copy runs, failing or not, no crash leaves a file that opens. */
  lemma CopyCrash(c: Codec, src: seq<byte>, numThreads: nat, ss: seq<State>, es: seq<Event>, i: nat, f: seq<byte>)
    requires ContentFits(c, src)
    requires IsRun(JobFor(c, src, numThreads), false, ss, es) && i < |ss| && CrashImage(ss[i].log, f)
    ensures Open(f).None?
  {
    hide ContentFits, Lossless, IsRun, Open, Inv, JobOk, CrashImage, MagicOk, HeaderUntouched, JobFor,
      WritesIn;
    var job := JobFor(c, src, numThreads);
    JobForOk(c, src, numThreads);
    InvReachable(job, false, ss, es, i);
    InvWrites(job, ss[i]);
    BehindHeader(job.overHead, ss[i].curSP, ss[i].log);
    NoHeaderRejected(ss[i].log, f);
    if Open(f).Some? { OpenNeedsMagic(f); }
  }

  lemma InvWrites(job: Job, s: State)
    requires Inv(job, s)
    ensures WritesIn(job.overHead, s.curSP, s.log) && job.overHead > 0
  {
    hide LockInv, ClaimInv;
  }

  /** Close commits at one point: however far it got and whatever part of the unsynced
      writes reached the disk, a file that opens is the finished file, byte for byte, and
      close had got as far as writing the final header. */
  lemma CloseCrash(c: Codec, src: seq<byte>, numThreads: nat, ss: seq<State>, es: seq<Event>,
                   reorder: bool, descriptor: seq<byte>) returns (before: seq<Op>)
    requires Lossless(c, GRAIN_SECTORS) && ContentFits(c, src) && CleanRun(c, src, numThreads, ss, es)
    requires 0 < |descriptor| <= DESCRIPTOR_SECTORS * SECTOR
    ensures TargetGeometry(|src|).GTEs <= |Copied(ss).gt|
    ensures var h, g := TargetHeader(|src|), TargetGeometry(|src|);
            var r := Finish(h, g, Copied(ss), reorder, descriptor);
            r.Some? &&
            var ops := CloseOps(h, r.value.curSP, TableBytes(h, g, r.value.gt), descriptor);
            && r.value.log == before + ops
            && forall k: nat, f :: k <= |ops| && CrashImage(before + ops[..k], f) && Open(f).Some? ==>
                 k >= 6 && f == Content(r.value.log)
  {
    hide Written, Finished, Finish, TargetHeader, TargetGeometry, CleanRun, ContentFits, Lossless, Content,
      CanonGT, CloseOps, TableWords, StoreOf, HeaderUntouched, TableBytes, Open, CrashImage, MagicOk;
    var h, g, store := TargetHeader(|src|), TargetGeometry(|src|), StoreOf(src);
    var exts;
    RunEnds(c, src, numThreads, ss, es);
    CopyWrites(c, src, numThreads, ss, es);
    exts, before := FinishWritten(c, h, g, Copied(ss), ss[|es|].exts, store, reorder, descriptor);
    var img := Finish(h, g, Copied(ss), reorder, descriptor).value;
    var tables := TableBytes(h, g, img.gt);
    var ops := CloseOps(h, img.curSP, tables, descriptor);
    Offsets(h, g, img, c, exts, store, descriptor);
    forall k: nat, f | k <= |ops| && CrashImage(before + ops[..k], f) && Open(f).Some?
      ensures k >= 6 && f == Content(img.log)
    {
      OpenNeedsMagic(f);
      CommitPoint(before, h, img.curSP, tables, descriptor, k, f);
    }
  }

  /** The same for a close that a write error stopped, whatever part of its data the failing
      write left: only the last header can be that write, and then the file is finished. */
  lemma CloseErrorCrash(c: Codec, src: seq<byte>, numThreads: nat, ss: seq<State>, es: seq<Event>,
                        reorder: bool, descriptor: seq<byte>) returns (before: seq<Op>)
    requires Lossless(c, GRAIN_SECTORS) && ContentFits(c, src) && CleanRun(c, src, numThreads, ss, es)
    requires 0 < |descriptor| <= DESCRIPTOR_SECTORS * SECTOR
    ensures TargetGeometry(|src|).GTEs <= |Copied(ss).gt|
    ensures var h, g := TargetHeader(|src|), TargetGeometry(|src|);
            var r := Finish(h, g, Copied(ss), reorder, descriptor);
            r.Some? &&
            var ops := CloseOps(h, r.value.curSP, TableBytes(h, g, r.value.gt), descriptor);
            && r.value.log == before + ops
            && forall k: nat, n: nat, f ::
                 k < |ops| && ops[k].Write? && n <= |ops[k].data|
                 && CrashImage(before + ops[..k] + [Write(ops[k].pos, ops[k].data[..n])], f) && Open(f).Some? ==>
                   k == 5 && f == Content(r.value.log)
  {
    hide Written, Finished, Finish, TargetHeader, TargetGeometry, CleanRun, ContentFits, Lossless, Content,
      CanonGT, CloseOps, TableWords, StoreOf, HeaderUntouched, TableBytes, Open, CrashImage, MagicOk;
    var h, g, store := TargetHeader(|src|), TargetGeometry(|src|), StoreOf(src);
    var exts;
    RunEnds(c, src, numThreads, ss, es);
    CopyWrites(c, src, numThreads, ss, es);
    exts, before := FinishWritten(c, h, g, Copied(ss), ss[|es|].exts, store, reorder, descriptor);
    var img := Finish(h, g, Copied(ss), reorder, descriptor).value;
    var tables := TableBytes(h, g, img.gt);
    var ops := CloseOps(h, img.curSP, tables, descriptor);
    Offsets(h, g, img, c, exts, store, descriptor);
    forall k: nat, n: nat, f |
      k < |ops| && ops[k].Write? && n <= |ops[k].data|
      && CrashImage(before + ops[..k] + [Write(ops[k].pos, ops[k].data[..n])], f) && Open(f).Some?
      ensures k == 5 && f == Content(img.log)
    {
      OpenNeedsMagic(f);
      TornCommit(before, h, img.curSP, tables, descriptor, k, n, f);
    }
  }

  /** While the grains are being reordered there are two files, and a crash may leave the
      target's name on either: the old one, which is that of the copy, or the new one with
      any number of grains in it, the last of them perhaps in part.  Neither opens. */
  lemma ReorderCrash(c: Codec, src: seq<byte>, numThreads: nat, ss: seq<State>, es: seq<Event>,
                     k: nat, n: nat, f: seq<byte>)
    requires Lossless(c, GRAIN_SECTORS) && ContentFits(c, src) && CleanRun(c, src, numThreads, ss, es)
    ensures var h, g, img := TargetHeader(|src|), TargetGeometry(|src|), Copied(ss);
            && g.GTEs <= |img.gt| &&
            var r := Rewrite(Content(img.log), h, img.gt, g.GTEs);
            r.Some? && (StoppedImage(img.log, k, n, f) || StoppedImage(r.value.log, k, n, f) ==> Open(f).None?)
  {
    hide Written, TargetHeader, TargetGeometry, CleanRun, ContentFits, Lossless, Content, Rewrite, TableWords,
      StoreOf, Open, StoppedImage, MagicOk, HeaderUntouched, RewrittenTo;
    RunEnds(c, src, numThreads, ss, es);
    var h, g, img := TargetHeader(|src|), TargetGeometry(|src|), Copied(ss);
    CopyWrites(c, src, numThreads, ss, es);
    RewriteCanonical(c, h, g, img, ss[|es|].exts, StoreOf(src), g.GTEs);
    var log := Rewrite(Content(img.log), h, img.gt, g.GTEs).value.log;
    LogsBehindHeader(c, h, g, img, ss[|es|].exts, StoreOf(src), log);
    if Open(f).Some? {
      OpenNeedsMagic(f);
      if StoppedImage(img.log, k, n, f) { StoppedRejected(img.log, k, n, f); }
      if StoppedImage(log, k, n, f) { StoppedRejected(log, k, n, f); }
    }
  }

  lemma LogsBehindHeader(c: Codec, h: Header, g: Geometry, img: Image, exts: seq<Extent>,
                         store: map<nat, seq<byte>>, log: seq<Op>)
    requires Written(c, h, g, img, exts, store) && g.GTEs <= |img.gt|
    requires var r := Rewrite(Content(img.log), h, img.gt, g.GTEs);
             r.Some? && RewrittenTo(c, h.overHead, store, g.GTEs, r.value) && r.value.log == log
    ensures HeaderUntouched(img.log) && HeaderUntouched(log)
  {
    hide Rewrite, Content, CanonGT, CanonSP, CanonExts, Stored, Tiled, Top, Lossless, TargetOk;
    var r := Rewrite(Content(img.log), h, img.gt, g.GTEs).value;
    BehindHeader(h.overHead, img.curSP, img.log);
    BehindHeader(h.overHead, r.next, log);
  }

  lemma Offsets(h: Header, g: Geometry, img: Image, c: Codec, exts: seq<Extent>, store: map<nat, seq<byte>>,
                descriptor: seq<byte>)
    requires Finished(c, h, g, img, exts, store, descriptor)
    ensures img.curSP > 0 && h.gdOffset > 0 && h.descriptorOffset > 0
  {
    hide GetGDGT, FlagsSupported, Fits, Lossless, EncodeHeader, TableBytes, Complete, TableWords, Content,
      HasAt;
  }
}
