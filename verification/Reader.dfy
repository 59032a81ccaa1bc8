// Opening a sparse image, random-access reads, and data-run enumeration.

module Reader {
  import opened Bytes
  import opened Bits
  import opened Header
  import opened Grain
  import opened Coalesce

  datatype SparseDisk = SparseDisk(f: seq<byte>, hasFooter: bool, h: Header, g: Geometry, gt: seq<nat>,
                                   descriptor: Option<seq<byte>>)

  // ----- open -----

  const FOOTER_MARKER: nat := 3

  /** readSparseFooter: a footer marker in the third last sector, and a header with the
      right magic in the one behind it. */
  function ReadFooter(f: seq<byte>): (r: Option<seq<byte>>)
    ensures r.Some? ==> |r.value| == SECTOR
  {
    if |f| < 3 * SECTOR then None
    else
      var m := (|f| - 3 * SECTOR) / SECTOR * SECTOR;
      var at := (|f| - 2 * SECTOR) / SECTOR * SECTOR;
      if FromLE(f[m + 8..m + 12]) != 0 || FromLE(f[m + 12..m + 16]) != FOOTER_MARKER then None
      else if !MagicOk(f[at..at + SECTOR]) then None
      else Some(f[at..at + SECTOR])
  }

  /** Where table `i` starts in memory. */
  function Slot(i: nat, size: nat): nat {
    i * size
  }

  /** The read for each table whose directory entry is not empty, in order. */
  function TableRequests(gd: seq<nat>, size: nat, n: nat): (rs: seq<Request>)
    requires n <= |gd|
    ensures forall i :: 0 <= i < |rs| ==> rs[i].len == size
  {
    if n == 0 then []
    else if gd[n - 1] == 0 then TableRequests(gd, size, n - 1)
    else TableRequests(gd, size, n - 1) + [Request(Slot(n - 1, size), size, gd[n - 1] * SECTOR)]
  }

  lemma {:induction false} RequestsInMemory(gd: seq<nat>, size: nat, n: nat, total: nat)
    requires n <= |gd| && Slot(n, size) <= total
    ensures AllInMemory(total, TableRequests(gd, size, n))
  {
    if n > 0 {
      NextSlot(n - 1, size, n);
      RequestsInMemory(gd, size, n - 1, total);
    }
  }

  /** All tables, as one block of memory that starts zeroed. */
  function LoadTables(f: seq<byte>, gd: seq<nat>, size: nat, n: nat): (m: Option<seq<byte>>)
    requires n <= |gd|
    ensures m.Some? ==> |m.value| == Slot(n, size)
  {
    RequestsInMemory(gd, size, n, Slot(n, size));
    ReadEach(Zeros(Slot(n, size)), f, TableRequests(gd, size, n))
  }

  /** Table `i` in memory is what its directory entry names in the file, or zeros. */
  predicate TableAt(m: seq<byte>, f: seq<byte>, gd: seq<nat>, size: nat, i: nat)
    requires i < |gd|
  {
    var at, pos := Slot(i, size), gd[i] * SECTOR;
    at + size <= |m| && if gd[i] == 0 then m[at..at + size] == Zeros(size) else HasAt(f, pos, m[at..at + size])
  }

  predicate TablesTo(m: seq<byte>, f: seq<byte>, gd: seq<nat>, size: nat, k: nat)
    requires k <= |gd|
  {
    && (forall i :: 0 <= i < k ==> TableAt(m, f, gd, size, i))
    && (forall b :: Slot(k, size) <= b < |m| ==> m[b] == 0)
  }

  /** Every entry that is not empty names a table inside the file. */
  predicate TablesInFile(f: seq<byte>, gd: seq<nat>, size: nat, n: nat)
    requires n <= |gd|
  {
    forall i :: 0 <= i < n && gd[i] != 0 ==> gd[i] * SECTOR + size <= |f|
  }

  lemma {:induction false} TablesReadTo(f: seq<byte>, gd: seq<nat>, size: nat, n: nat, k: nat)
    requires k <= n <= |gd| && size > 0 && AllInMemory(Slot(n, size), TableRequests(gd, size, k))
    ensures var m := ReadEach(Zeros(Slot(n, size)), f, TableRequests(gd, size, k));
            if TablesInFile(f, gd, size, k) then m.Some? && TablesTo(m.value, f, gd, size, k) else m.None?
  {
    hide TableAt, TablesTo, ReadNow, TablesInFile, Slot;
    if k == 0 {
      NoTables(f, gd, size, n);
    } else {
      NextSlot(k - 1, size, n);
      RequestsInMemory(gd, size, k - 1, Slot(n, size));
      TablesReadTo(f, gd, size, n, k - 1);
      RequestsNext(gd, size, k - 1);
      InFileNext(f, gd, size, k - 1);
      var m := ReadEach(Zeros(Slot(n, size)), f, TableRequests(gd, size, k - 1));
      if m.Some? && TablesInFile(f, gd, size, k - 1) {
        TableRead(f, gd, size, n, k - 1, m.value);
      }
    }
  }

  lemma NoTables(f: seq<byte>, gd: seq<nat>, size: nat, n: nat)
    ensures TablesTo(Zeros(Slot(n, size)), f, gd, size, 0) && TablesInFile(f, gd, size, 0)
  {
  }

  lemma RequestsNext(gd: seq<nat>, size: nat, k: nat)
    requires k < |gd|
    ensures var before := TableRequests(gd, size, k);
            var all := TableRequests(gd, size, k + 1);
            if gd[k] == 0 then all == before
            else all == before + [Request(Slot(k, size), size, gd[k] * SECTOR)] && all[..|all| - 1] == before
  {
  }

  lemma InFileNext(f: seq<byte>, gd: seq<nat>, size: nat, k: nat)
    requires k < |gd|
    ensures TablesInFile(f, gd, size, k + 1) <==>
            TablesInFile(f, gd, size, k) && (gd[k] != 0 ==> gd[k] * SECTOR + size <= |f|)
  {
  }

  lemma TableRead(f: seq<byte>, gd: seq<nat>, size: nat, n: nat, k: nat, m: seq<byte>)
    requires k < n <= |gd| && size > 0 && |m| == Slot(n, size) && TablesTo(m, f, gd, size, k)
    requires InMemory(|m|, Request(Slot(k, size), size, gd[k] * SECTOR))
    ensures gd[k] == 0 ==> TablesTo(m, f, gd, size, k + 1)
    ensures var m' := ReadNow(m, f, Request(Slot(k, size), size, gd[k] * SECTOR));
            && (m'.Some? <==> gd[k] * SECTOR + size <= |f|)
            && (m'.Some? && gd[k] != 0 ==> TablesTo(m'.value, f, gd, size, k + 1))
  {
    hide Slot;
    NextSlot(k, size, n);
    var at := Slot(k, size);
    forall i | 0 <= i < k ensures Slot(i, size) + size <= at && TableAt(m, f, gd, size, i) {
      NextSlot(i, size, k);
    }
    if gd[k] == 0 {
      assert m[at..at + size] == Zeros(size);
    } else if gd[k] * SECTOR + size <= |f| {
      var data := f[gd[k] * SECTOR..gd[k] * SECTOR + size];
      var m' := Fill(m, at, data);
      assert m'[at..at + size] == data;
      forall i | 0 <= i < k ensures TableAt(m', f, gd, size, i) {
        assert m'[Slot(i, size)..Slot(i, size) + size] == m[Slot(i, size)..Slot(i, size) + size];
      }
    }
  }

  /** Opening loads every table whose directory entry is not empty from where the entry says
      and leaves the others zero; it fails exactly when one of them is not in the file. */
  lemma TablesLoad(f: seq<byte>, gd: seq<nat>, size: nat, n: nat)
    requires n <= |gd| && size > 0
    ensures var m := LoadTables(f, gd, size, n);
            && (m.Some? <==> TablesInFile(f, gd, size, n))
            && (m.Some? ==> forall i :: 0 <= i < n ==> TableAt(m.value, f, gd, size, i))
  {
    hide ReadEach, TableRequests, TableAt;
    RequestsInMemory(gd, size, n, Slot(n, size));
    TablesReadTo(f, gd, size, n, n);
  }

  function ReadDescriptor(f: seq<byte>, h: Header): Option<seq<byte>> {
    if h.descriptorOffset == 0 || h.descriptorSize == 0 then None
    else Pread(f, h.descriptorOffset * SECTOR, h.descriptorSize * SECTOR)
  }

  /** The header that counts: the footer's when there is one. */
  function EffectiveHeader(f: seq<byte>): Option<Header> {
    if |f| < SECTOR || !MagicOk(f[..SECTOR]) then None
    else
      match ReadFooter(f)
      case Some(b) => DecodeHeader(b)
      case None => DecodeHeader(f[..SECTOR])
  }

  /** getGDGT on opening; tables whose 32-bit counts would wrap are not modelled. */
  function OpenGeometry(h: Header): (r: Option<Geometry>) {
    match GetGDGT(h)
    case None => None
    case Some(g) => if g.GTEs < U32 && h.numGTEsPerGT < U32 then Some(g) else None
  }

  lemma DirectoryHolds(h: Header, g: Geometry)
    requires OpenGeometry(h) == Some(g)
    ensures g.GTs <= g.GDsectors * SECTOR / 4 && g.GTs * (g.GTsectors * SECTOR) == 4 * TableWords(g)
    ensures g.GTEs <= TableWords(g)
  {
    GeometryFacts(h, g);
    hide GetGDGT;
    BlockSize(g.GTs, g.GTsectors);
  }

  lemma BlockSize(GTs: nat, GTsectors: nat)
    ensures GTs * (GTsectors * SECTOR) == 4 * (GTsectors * GTs * 128)
  {
    assert GTs * (GTsectors * SECTOR) == (GTsectors * GTs) * SECTOR;
  }

  /** Sparse_Open. */
  function Open(f: seq<byte>): (r: Option<SparseDisk>)
    ensures r.Some? ==> DiskOk(r.value)
  {
    match EffectiveHeader(f)
    case None => None
    case Some(h) =>
      match OpenGeometry(h)
      case None => None
      case Some(g) =>
        DirectoryHolds(h, g);
        match Pread(f, h.gdOffset * SECTOR, g.GDsectors * SECTOR)
        case None => None
        case Some(gd) =>
          match LoadTables(f, DecodeWords(gd), g.GTsectors * SECTOR, g.GTs)
          case None => None
          case Some(mem) =>
            var d := SparseDisk(f, ReadFooter(f).Some?, h, g, DecodeWords(mem), ReadDescriptor(f, h));
            OpenIsOk(d);
            Some(d)
  }

  /** What opening establishes about the geometry: grains of a power-of-two size tile the
      capacity, and each has an entry. */
  predicate DiskOk(d: SparseDisk) {
    && 0 < d.h.grainSize <= 128 && IsPow2(d.h.grainSize)
    && d.g.lastGrainNr * GrainBytes(d) + d.g.lastGrainSize == Capacity(d)
    && d.g.lastGrainSize < GrainBytes(d)
    && d.g.GTEs == d.g.lastGrainNr + (if d.g.lastGrainSize != 0 then 1 else 0)
    && d.g.GTEs < U32 && d.g.GTEs <= |d.gt|
  }

  lemma OpenIsOk(d: SparseDisk)
    requires OpenGeometry(d.h) == Some(d.g) && d.g.GTEs <= |d.gt|
    ensures DiskOk(d)
  {
    CapacityFacts(d.h, d.g);
  }

  /** The directory walk of Sparse_Open through the coalescing reader. */
  method ReadTables(f: seq<byte>, gd: seq<nat>, size: nat, n: nat) returns (r: Option<seq<byte>>)
    requires n <= |gd| && size > 0
    ensures r == LoadTables(f, gd, size, n)
  {
    hide EnqueueAll, Enqueue, TableRequests, ReadEach, Flush, Slot, AllInMemory;
    var total := Slot(n, size);
    RequestsInMemory(gd, size, n, total);
    var gt := new byte[total](_ => 0);
    assert gt[..] == Zeros(total);
    var cp := new CoalescedPreader(f, gt);
    ghost var zeros := Zeros(total);
    NothingQueued(zeros, f, gd, size);
    var i, at := 0, Slot(0, size);
    while i < n
      invariant i <= n && at == Slot(i, size) && gt.Length == total
      invariant cp.f == f && cp.mem == gt && fresh(cp) && fresh(gt)
      invariant AllInMemory(total, TableRequests(gd, size, i))
      invariant EnqueueAll(zeros, f, TableRequests(gd, size, i)) == Some(cp.State())
    {
      NextSlot(i, size, n);
      RequestsInMemory(gd, size, i + 1, total);
      EnqueueNext(zeros, f, gd, size, i);
      if gd[i] != 0 {
        var ok := cp.Pread(Request(at, size, gd[i] * SECTOR));
        if !ok {
          StaysFailed(zeros, f, gd, size, i + 1, n);
          CoalescedIsEager(zeros, f, TableRequests(gd, size, n));
          return None;
        }
      }
      at := at + size;
      i := i + 1;
    }
    var ok := cp.Exec();
    CoalescedIsEager(zeros, f, TableRequests(gd, size, n));
    r := if ok then Some(gt[..]) else None;
  }

  lemma NothingQueued(mem: seq<byte>, f: seq<byte>, gd: seq<nat>, size: nat)
    ensures AllInMemory(|mem|, TableRequests(gd, size, 0))
    ensures EnqueueAll(mem, f, TableRequests(gd, size, 0)) == Some(Empty(mem))
  {
  }

  lemma NextSlot(i: nat, size: nat, n: nat)
    requires i < n
    ensures Slot(i + 1, size) == Slot(i, size) + size <= Slot(n, size)
  {
    MulMono(size, i + 1, n);
  }

  lemma EnqueueNext(mem: seq<byte>, f: seq<byte>, gd: seq<nat>, size: nat, i: nat)
    requires i < |gd|
    requires AllInMemory(|mem|, TableRequests(gd, size, i)) && AllInMemory(|mem|, TableRequests(gd, size, i + 1))
    ensures var q := EnqueueAll(mem, f, TableRequests(gd, size, i));
            var q' := EnqueueAll(mem, f, TableRequests(gd, size, i + 1));
            if gd[i] == 0 then q' == q
            else q.Some? ==> InMemory(|mem|, Request(Slot(i, size), size, gd[i] * SECTOR))
                             && q' == Enqueue(q.value, f, Request(Slot(i, size), size, gd[i] * SECTOR))
  {
    if gd[i] != 0 {
      var before, req := TableRequests(gd, size, i), Request(Slot(i, size), size, gd[i] * SECTOR);
      var all := before + [req];
      assert TableRequests(gd, size, i + 1) == all;
      assert all[..|before|] == before && all[|before|] == req;
    }
  }

  lemma {:induction false} StaysFailed(mem: seq<byte>, f: seq<byte>, gd: seq<nat>, size: nat, i: nat, n: nat)
    requires i <= n <= |gd| && Slot(n, size) <= |mem|
    requires AllInMemory(|mem|, TableRequests(gd, size, i)) && EnqueueAll(mem, f, TableRequests(gd, size, i)).None?
    ensures AllInMemory(|mem|, TableRequests(gd, size, n)) && EnqueueAll(mem, f, TableRequests(gd, size, n)).None?
  {
    RequestsInMemory(gd, size, n, |mem|);
    if i < n {
      NextSlot(n - 1, size, n);
      StaysFailed(mem, f, gd, size, i, n - 1);
      var rs := TableRequests(gd, size, n - 1);
      if gd[n - 1] != 0 {
        assert TableRequests(gd, size, n)[..|rs|] == rs;
      }
    }
  }

  /** Sparse_Open, with the tables read through the coalescing reader. */
  method SparseOpen(f: seq<byte>) returns (r: Option<SparseDisk>)
    ensures r == Open(f)
  {
    var h := EffectiveHeader(f);
    if h.None? {
      return None;
    }
    var g := OpenGeometry(h.value);
    if g.None? {
      return None;
    }
    DirectoryHolds(h.value, g.value);
    var gd := Pread(f, h.value.gdOffset * SECTOR, g.value.GDsectors * SECTOR);
    if gd.None? {
      return None;
    }
    TablesNotEmpty(h.value, g.value);
    var mem := ReadTables(f, DecodeWords(gd.value), g.value.GTsectors * SECTOR, g.value.GTs);
    if mem.None? {
      return None;
    }
    r := Some(SparseDisk(f, ReadFooter(f).Some?, h.value, g.value, DecodeWords(mem.value),
                         ReadDescriptor(f, h.value)));
  }

  lemma TablesNotEmpty(h: Header, g: Geometry)
    requires OpenGeometry(h) == Some(g)
    ensures g.GTsectors > 0
  {
    GeometryFacts(h, g);
  }

  // ----- random-access reads -----

  function GrainBytes(d: SparseDisk): nat {
    d.h.grainSize * SECTOR
  }

  function Capacity(d: SparseDisk): nat {
    d.h.capacity * SECTOR
  }

  /** In-capacity bytes of grain `nr`. */
  function GrainLength(d: SparseDisk, nr: nat): nat {
    if nr < d.g.lastGrainNr then GrainBytes(d)
    else if nr == d.g.lastGrainNr then d.g.lastGrainSize
    else 0
  }

  /** The byte at offset `o` of grain `nr`; None when it cannot be read. */
  function GrainByte(c: Codec, d: SparseDisk, nr: nat, o: nat): Option<byte>
    requires nr < |d.gt|
  {
    var sect := d.gt[nr];
    if sect <= 1 then Some(0)
    else if IsCompressed(d.h.flags) then
      match FetchGrain(c, d.f, d.h, sect, nr * d.h.grainSize)
      case None => None
      case Some(data) => if |data| < GrainLength(d, nr) || o >= |data| then None else Some(data[o])
    else if sect * SECTOR + o < |d.f| then Some(d.f[sect * SECTOR + o])
    else None
  }

  /** The byte of the disk at `p`. */
  function Lookup(c: Codec, d: SparseDisk, p: nat): Option<byte>
    requires DiskOk(d) && p < Capacity(d)
  {
    PositionInGrain(d, p);
    GrainByte(c, d, NrOf(d, p), OffsetOf(d, p))
  }

  function NrOf(d: SparseDisk, p: nat): nat
    requires GrainBytes(d) > 0
  {
    p / GrainBytes(d)
  }

  function OffsetOf(d: SparseDisk, p: nat): nat
    requires GrainBytes(d) > 0
  {
    p % GrainBytes(d)
  }

  /** Every byte below the capacity is in a grain below GTEs, within its length. */
  lemma PositionInGrain(d: SparseDisk, p: nat)
    requires DiskOk(d) && p < Capacity(d)
    ensures NrOf(d, p) < d.g.GTEs && OffsetOf(d, p) < GrainLength(d, NrOf(d, p))
  {
    hide IsPow2, Capacity;
    InGrain(p, GrainBytes(d), d.g.lastGrainNr, d.g.lastGrainSize);
  }

  lemma InGrain(p: nat, G: nat, last: nat, lastSize: nat)
    requires G > 0 && lastSize < G && p < last * G + lastSize
    ensures p / G <= last && p % G < (if p / G < last then G else lastSize)
  {
    var q, r := p / G, p % G;
    assert p == q * G + r;
    if q > last {
      MulMono(G, last + 1, q);
      assert false;
    }
  }

  /** The position SparsePread really reads from: the grain number is kept in 32 bits. */
  function WrappedPos(d: SparseDisk, pos: nat): nat
    requires GrainBytes(d) > 0
  {
    NrOf(d, pos) % U32 * GrainBytes(d) + OffsetOf(d, pos)
  }

  /** What a read returns: the bytes of the range clipped at capacity, or None when one of
      them cannot be read. */
  ghost function ReadRange(c: Codec, d: SparseDisk, pos: nat, len: nat): (r: Option<seq<byte>>)
    requires DiskOk(d)
    ensures r.Some? ==> |r.value| == Clipped(d, pos, len)
  {
    var n := Clipped(d, pos, len);
    if forall p :: pos <= p < pos + n ==> Lookup(c, d, p).Some? then
      Some(seq(n, i requires 0 <= i < n => Lookup(c, d, pos + i).value))
    else None
  }

  /** What SparsePread returns for a request at `pos`. */
  ghost function ReadResult(c: Codec, d: SparseDisk, pos: nat, len: nat): (r: Option<seq<byte>>)
    requires DiskOk(d)
  {
    ReadRange(c, d, WrappedPos(d, pos), len)
  }

  function Clipped(d: SparseDisk, pos: nat, len: nat): nat {
    Min(len, Max(0, Capacity(d) - pos))
  }

  /** The bytes `skip..skip + len` of grain `nr`, by the branches of SparsePread. */
  function ReadPart(c: Codec, d: SparseDisk, nr: nat, skip: nat, len: nat): (r: Option<seq<byte>>)
    requires nr < |d.gt| && skip + len <= GrainLength(d, nr)
    ensures r.Some? ==> |r.value| == len
  {
    var sect := d.gt[nr];
    if sect <= 1 then Some(Zeros(len))
    else if IsCompressed(d.h.flags) then
      match FetchGrain(c, d.f, d.h, sect, nr * d.h.grainSize)
      case None => None
      case Some(data) => if |data| < GrainLength(d, nr) then None else Some(data[skip..skip + len])
    else Pread(d.f, sect * SECTOR + skip, len)
  }

  lemma PartIsBytes(c: Codec, d: SparseDisk, nr: nat, skip: nat, len: nat)
    requires nr < |d.gt| && skip + len <= GrainLength(d, nr) && len > 0
    ensures ReadPart(c, d, nr, skip, len).Some? <==>
            forall o :: skip <= o < skip + len ==> GrainByte(c, d, nr, o).Some?
    ensures ReadPart(c, d, nr, skip, len).Some? ==>
            forall i :: 0 <= i < len ==> Some(ReadPart(c, d, nr, skip, len).value[i]) == GrainByte(c, d, nr, skip + i)
  {
    var last := skip + len - 1;
    assert GrainByte(c, d, nr, last).Some? ==> ReadPart(c, d, nr, skip, len).Some?;
  }

  /** The disk position of offset `o` of grain `nr`. */
  function At(d: SparseDisk, nr: nat, o: nat): nat {
    nr * GrainBytes(d) + o
  }

  lemma AtInside(d: SparseDisk, nr: nat, o: nat)
    requires DiskOk(d) && o < GrainLength(d, nr)
    ensures nr < |d.gt| && At(d, nr, o) < Capacity(d)
    ensures NrOf(d, At(d, nr, o)) == nr && OffsetOf(d, At(d, nr, o)) == o
  {
    hide IsPow2, Capacity, GrainBytes;
    var G := GrainBytes(d);
    if nr < d.g.lastGrainNr { MulMono(G, nr + 1, d.g.lastGrainNr); }
    assert At(d, nr, o) < Capacity(d);
    hide DiskOk, GrainLength;
    ModUnique(At(d, nr, o), G, nr, o);
  }

  lemma LookupInGrain(c: Codec, d: SparseDisk, nr: nat, o: nat)
    requires DiskOk(d) && o < GrainLength(d, nr)
    ensures nr < |d.gt| && At(d, nr, o) < Capacity(d)
    ensures Lookup(c, d, At(d, nr, o)) == GrainByte(c, d, nr, o)
  {
    AtInside(d, nr, o);
    hide At, NrOf, OffsetOf, GrainLength, DiskOk;
  }

  /** One iteration of the read loop refines the per-byte lookup. */
  lemma PartIsLookup(c: Codec, d: SparseDisk, nr: nat, skip: nat, len: nat)
    requires DiskOk(d) && skip + len <= GrainLength(d, nr) && len > 0
    ensures nr < |d.gt| && At(d, nr, skip) + len <= Capacity(d)
    ensures var at := At(d, nr, skip);
            var r := ReadPart(c, d, nr, skip, len);
            && (r.Some? <==> forall p :: at <= p < at + len ==> Lookup(c, d, p).Some?)
            && (r.Some? ==> forall p :: at <= p < at + len ==> Some(r.value[p - at]) == Lookup(c, d, p))
  {
    var at := At(d, nr, skip);
    AtInside(d, nr, skip + len - 1);
    assert at + len - 1 == At(d, nr, skip + len - 1);
    PartIsBytes(c, d, nr, skip, len);
    forall p | at <= p < at + len ensures p < Capacity(d) && Lookup(c, d, p) == GrainByte(c, d, nr, p - at + skip) {
      assert p == At(d, nr, p - at + skip);
      LookupInGrain(c, d, nr, p - at + skip);
    }
    hide Lookup, GrainByte, ReadPart, DiskOk, At;
    PartBytes(c, d, nr, skip, len, at);
  }

  // The same bytes, counted from the grain's start and from the disk's.
  lemma PartBytes(c: Codec, d: SparseDisk, nr: nat, skip: nat, len: nat, at: nat)
    requires DiskOk(d) && nr < |d.gt| && skip + len <= GrainLength(d, nr) && at + len <= Capacity(d)
    requires forall p :: at <= p < at + len ==> Lookup(c, d, p) == GrainByte(c, d, nr, p - at + skip)
    requires ReadPart(c, d, nr, skip, len).Some? <==>
             forall o :: skip <= o < skip + len ==> GrainByte(c, d, nr, o).Some?
    requires ReadPart(c, d, nr, skip, len).Some? ==>
             forall i :: 0 <= i < len ==> Some(ReadPart(c, d, nr, skip, len).value[i]) == GrainByte(c, d, nr, skip + i)
    ensures var r := ReadPart(c, d, nr, skip, len);
            && (r.Some? <==> forall p :: at <= p < at + len ==> Lookup(c, d, p).Some?)
            && (r.Some? ==> forall p :: at <= p < at + len ==> Some(r.value[p - at]) == Lookup(c, d, p))
  {
    hide Lookup, GrainByte, ReadPart, DiskOk;
    var r := ReadPart(c, d, nr, skip, len);
    if forall p :: at <= p < at + len ==> Lookup(c, d, p).Some? {
      forall o | skip <= o < skip + len ensures GrainByte(c, d, nr, o).Some? {
        assert Lookup(c, d, at + o - skip).Some?;
      }
    }
    if r.Some? {
      forall p | at <= p < at + len ensures Some(r.value[p - at]) == Lookup(c, d, p) {
        assert Some(r.value[p - at]) == GrainByte(c, d, nr, skip + (p - at));
      }
    }
  }

  /** `b` is what the disk holds from `start` on. */
  ghost predicate Prefix(c: Codec, d: SparseDisk, start: nat, b: seq<byte>)
    requires DiskOk(d)
  {
    && (|b| > 0 ==> start + |b| <= Capacity(d))
    && forall i :: 0 <= i < |b| ==> Lookup(c, d, start + i) == Some(b[i])
  }

  lemma PrefixExtend(c: Codec, d: SparseDisk, start: nat, b: seq<byte>, nr: nat, skip: nat, len: nat)
    requires DiskOk(d) && Prefix(c, d, start, b)
    requires skip + len <= GrainLength(d, nr) && len > 0 && start + |b| == At(d, nr, skip)
    ensures nr < |d.gt| && start + |b| + len <= Capacity(d)
    ensures var part := ReadPart(c, d, nr, skip, len);
            if part.Some? then Prefix(c, d, start, b + part.value)
            else exists p :: start <= p < start + |b| + len && Lookup(c, d, p).None?
  {
    PartIsLookup(c, d, nr, skip, len);
    hide Lookup, ReadPart, DiskOk, At;
    var part := ReadPart(c, d, nr, skip, len);
    if part.Some? {
      var all := b + part.value;
      forall i | 0 <= i < |all| ensures Lookup(c, d, start + i) == Some(all[i]) {
        if i >= |b| { assert Some(part.value[start + i - (start + |b|)]) == Lookup(c, d, start + i); }
      }
    }
  }

  /** The whole clipped range has been read. */
  lemma PrefixDone(c: Codec, d: SparseDisk, start: nat, len: nat, b: seq<byte>)
    requires DiskOk(d) && Prefix(c, d, start, b) && |b| == Clipped(d, start, len)
    ensures ReadRange(c, d, start, len) == Some(b)
  {
    hide Lookup, DiskOk;
    forall p | start <= p < start + |b| ensures Lookup(c, d, p) == Some(b[p - start]) {
      assert Lookup(c, d, start + (p - start)) == Some(b[p - start]);
    }
    var r := ReadRange(c, d, start, len);
    assert r.value == b;
  }

  /** memcpy, or memset for the zeros of an empty grain. */
  method CopyInto(buf: array<byte>, n: nat, data: seq<byte>)
    requires n + |data| <= buf.Length
    modifies buf
    ensures buf[..n + |data|] == old(buf[..n]) + data
    ensures buf[n + |data|..] == old(buf[n..])[|data|..]
  {
    forall i | 0 <= i < |data| {
      buf[n + i] := data[i];
    }
  }

  /** SparsePread, into `buf[..len]`. */
  method SparsePread(c: Codec, d: SparseDisk, buf: array<byte>, len: nat, pos: nat) returns (ret: int)
    requires DiskOk(d) && len <= buf.Length
    modifies buf
    ensures ret == -1 <==> ReadResult(c, d, pos, len).None?
    ensures ret != -1 ==> var r := ReadResult(c, d, pos, len).value;
              ret == |r| && buf[..ret] == r && buf[ret..] == old(buf[ret..])
  {
    hide DiskOk, WrappedPos, GrainLength, Lookup, ReadPart, ReadRange, NrOf, And, GrainBytes, At, Prefix, OffsetOf,
      Cursor, Capacity, Clipped;
    FarIsBehind(d, pos);
    PositionMask(d, pos);
    ghost var start := WrappedPos(d, pos);
    var grainNr: nat := NrOf(d, pos) % U32;
    var readSkip: nat := And(pos, GrainBytes(d) - 1);
    CursorStart(d, pos);
    PrefixEmpty(c, d, start);
    var left: nat, n: nat := len, 0;
    while left > 0
      invariant n + left == len && readSkip < GrainBytes(d)
      invariant Prefix(c, d, start, buf[..n])
      invariant n > 0 ==> start + n <= Capacity(d)
      invariant left > 0 ==> Cursor(d, grainNr, readSkip, start + n)
      invariant buf[n..] == old(buf[n..])
    {
      var grainSize := GrainLength(d, grainNr);
      if readSkip >= grainSize {
        PastTheEnd(d, grainNr, readSkip, start + n);
        break;
      }
      CursorInside(d, grainNr, readSkip, start + n);
      var readLen := Min(grainSize - readSkip, left);
      ghost var before := buf[..n];
      PrefixExtend(c, d, start, before, grainNr, readSkip, readLen);
      var part := ReadPart(c, d, grainNr, readSkip, readLen);
      if part.None? {
        RangeFails(c, d, start, len, n + readLen);
        return -1;
      }
      CopyInto(buf, n, part.value);
      if readSkip + readLen == grainSize { NextGrain(d, grainNr, readSkip, readLen); }
      n, left := n + readLen, left - readLen;
      grainNr, readSkip := grainNr + 1, 0;
    }
    AllRead(d, start, len, n);
    PrefixDone(c, d, start, len, buf[..n]);
    ret := n;
  }

  lemma CursorStart(d: SparseDisk, pos: nat)
    requires DiskOk(d)
    ensures GrainBytes(d) > 0 && Cursor(d, NrOf(d, pos) % U32, OffsetOf(d, pos), WrappedPos(d, pos))
  {
    hide DiskOk, NrOf, OffsetOf, Capacity;
    PositionMask(d, pos);
  }

  /** The loop has read what the capacity leaves of the request. */
  lemma AllRead(d: SparseDisk, start: nat, len: nat, n: nat)
    requires n <= len && (n > 0 ==> start + n <= Capacity(d)) && (n < len ==> start + n >= Capacity(d))
    ensures n == Clipped(d, start, len)
  {
    hide Capacity;
  }

  lemma PrefixEmpty(c: Codec, d: SparseDisk, start: nat)
    requires DiskOk(d)
    ensures Prefix(c, d, start, [])
  {
  }

  lemma RangeFails(c: Codec, d: SparseDisk, start: nat, len: nat, n: nat)
    requires DiskOk(d) && n <= len && start + n <= Capacity(d)
    requires exists p :: start <= p < start + n && Lookup(c, d, p).None?
    ensures ReadRange(c, d, start, len).None?
  {
  }

  /** `pos & (grainBytes - 1)` is the offset in the grain. */
  lemma PositionMask(d: SparseDisk, pos: nat)
    requires DiskOk(d)
    ensures And(pos, GrainBytes(d) - 1) == OffsetOf(d, pos) < GrainBytes(d)
    ensures WrappedPos(d, pos) == At(d, NrOf(d, pos) % U32, OffsetOf(d, pos))
  {
    GrainBytesPow2(d.h.grainSize);
    hide IsPow2, DiskOk;
    MaskIsRemainder(pos, GrainBytes(d));
  }

  lemma GrainBytesPow2(gs: nat)
    requires gs > 0 && IsPow2(gs)
    ensures IsPow2(gs * SECTOR)
  {
    var k := IsPow2Exponent(gs);
    hide IsPow2;
    Pow2Values();
    Pow2Add(k, 9);
    Pow2IsPow2(k + 9);
  }

  /** Where the read loop stands: at its grain and offset, or behind the last grain. */
  predicate Cursor(d: SparseDisk, nr: nat, skip: nat, p: nat) {
    p == At(d, nr, skip) || (p >= Capacity(d) && nr > d.g.lastGrainNr)
  }

  lemma PastTheEnd(d: SparseDisk, nr: nat, skip: nat, p: nat)
    requires DiskOk(d) && skip < GrainBytes(d) && skip >= GrainLength(d, nr) && Cursor(d, nr, skip, p)
    ensures p >= Capacity(d)
  {
    hide IsPow2, Capacity, GrainBytes;
    if nr > d.g.lastGrainNr { MulMono(GrainBytes(d), d.g.lastGrainNr + 1, nr); }
  }

  lemma CursorInside(d: SparseDisk, nr: nat, skip: nat, p: nat)
    requires skip < GrainLength(d, nr) && Cursor(d, nr, skip, p)
    ensures p == At(d, nr, skip) && nr <= d.g.lastGrainNr
  {
    hide GrainBytes, At;
  }

  /** A grain read to its end is followed by the next one, or by the capacity. */
  lemma NextGrain(d: SparseDisk, nr: nat, skip: nat, len: nat)
    requires DiskOk(d) && skip + len == GrainLength(d, nr) && nr <= d.g.lastGrainNr
    ensures Cursor(d, nr + 1, 0, At(d, nr, skip) + len)
  {
    hide IsPow2, Capacity, GrainBytes;
  }

  /** a + b bytes of the disk are a bytes and then the b bytes behind them. */
  lemma RangeSplit(c: Codec, d: SparseDisk, pos: nat, a: nat, b: nat)
    requires DiskOk(d)
    ensures var x, y := ReadRange(c, d, pos, a), ReadRange(c, d, pos + a, b);
            ReadRange(c, d, pos, a + b) == if x.Some? && y.Some? then Some(x.value + y.value) else None
  {
    hide Lookup, DiskOk, Capacity;
    var x, y, z := ReadRange(c, d, pos, a), ReadRange(c, d, pos + a, b), ReadRange(c, d, pos, a + b);
    var n, m := Clipped(d, pos, a), Clipped(d, pos + a, b);
    assert Clipped(d, pos, a + b) == n + m && (m > 0 ==> n == a);
    if x.Some? && y.Some? {
      forall p | pos <= p < pos + n + m ensures Lookup(c, d, p).Some? {
      }
      assert z.value == x.value + y.value;
    }
  }

  /** Bytes after which a read position is the same to SparsePread. */
  function Window(d: SparseDisk): nat {
    U32 * GrainBytes(d)
  }

  lemma WindowFacts(d: SparseDisk, pos: nat)
    requires DiskOk(d)
    ensures GrainBytes(d) > 0 && Window(d) > Capacity(d)
    ensures pos == NrOf(d, pos) / U32 * Window(d) + WrappedPos(d, pos) && WrappedPos(d, pos) < Window(d)
  {
    hide IsPow2, Capacity;
    var G := GrainBytes(d);
    MulMono(G, d.g.lastGrainNr + 1, U32);
    WindowArith(pos, G);
  }

  lemma WindowArith(pos: nat, G: nat)
    requires G > 0
    ensures pos == pos / G / U32 * (U32 * G) + (pos / G % U32 * G + pos % G)
    ensures pos / G % U32 * G + pos % G < U32 * G
  {
    var q, r := pos / G, pos % G;
    var k, w := q / U32, q % U32;
    assert pos == q * G + r && q == k * U32 + w;
    assert q * G == (k * U32) * G + w * G;
    assert (k * U32) * G == k * (U32 * G);
    MulMono(G, w + 1, U32);
  }

  lemma BehindTheDisk(c: Codec, d: SparseDisk, pos: nat, len: nat)
    requires DiskOk(d) && pos >= Capacity(d)
    ensures ReadRange(c, d, pos, len) == Some([])
  {
    hide DiskOk, Capacity;
  }

  lemma NothingAsked(c: Codec, d: SparseDisk, pos: nat)
    requires DiskOk(d)
    ensures ReadRange(c, d, pos, 0) == Some([])
  {
    hide DiskOk, Capacity;
  }

  lemma SomethingThere(c: Codec, d: SparseDisk, pos: nat, len: nat)
    requires DiskOk(d) && pos < Capacity(d) && len > 0
    ensures ReadRange(c, d, pos, len) != Some([])
  {
    hide DiskOk, Capacity;
  }

  lemma FarIsBehind(d: SparseDisk, pos: nat)
    requires DiskOk(d)
    ensures GrainBytes(d) > 0 && (NrOf(d, pos) >= U32 ==> pos >= Capacity(d))
  {
    hide DiskOk, Capacity, NrOf, WrappedPos, Window, GrainBytes;
    WindowFacts(d, pos);
    if NrOf(d, pos) >= U32 {
      MulMono(Window(d), 1, NrOf(d, pos) / U32);
    }
  }

  /** Two positions of the same window keep their distance; otherwise the first window ends
      in between, behind the capacity. */
  lemma WindowsOf(d: SparseDisk, pos: nat, a: nat)
    requires DiskOk(d)
    ensures GrainBytes(d) > 0
    ensures if NrOf(d, pos) / U32 == NrOf(d, pos + a) / U32 then WrappedPos(d, pos + a) == WrappedPos(d, pos) + a
            else WrappedPos(d, pos) + a >= Capacity(d)
  {
    hide DiskOk, Capacity, NrOf, WrappedPos, Window, GrainBytes;
    WindowFacts(d, pos);
    WindowFacts(d, pos + a);
    var k, k' := NrOf(d, pos) / U32, NrOf(d, pos + a) / U32;
    if k != k' {
      WindowsApart(Window(d), k, WrappedPos(d, pos), k', WrappedPos(d, pos + a), a);
    }
  }

  /** When the 32-bit grain number matters: a read returns the bytes of the range it was asked
      for exactly when it asks for none, the grain number fits, or what is left of the
      position when the number is cut is behind the capacity as well. */
  lemma ReadsAskedRangeIff(c: Codec, d: SparseDisk, pos: nat, len: nat)
    requires DiskOk(d)
    ensures ReadResult(c, d, pos, len) == ReadRange(c, d, pos, len) <==>
            len == 0 || NrOf(d, pos) < U32 || WrappedPos(d, pos) >= Capacity(d)
  {
    hide DiskOk, Capacity, ReadRange, NrOf, WrappedPos, GrainBytes;
    FarIsBehind(d, pos);
    WrapIff(d, pos);
    if len == 0 {
      NothingAsked(c, d, pos);
      NothingAsked(c, d, WrappedPos(d, pos));
    } else if NrOf(d, pos) >= U32 {
      BehindTheDisk(c, d, pos, len);
      if WrappedPos(d, pos) >= Capacity(d) {
        BehindTheDisk(c, d, WrappedPos(d, pos), len);
      } else {
        SomethingThere(c, d, WrappedPos(d, pos), len);
      }
    }
  }

  /** Reading a + b bytes is reading a bytes and then b bytes behind them, exactly unless the
      second read starts behind a multiple of 2^32 grains that the first did not reach and
      finds bytes there. */
  lemma ReadSplit(c: Codec, d: SparseDisk, pos: nat, a: nat, b: nat)
    requires DiskOk(d)
    ensures var x, y, z := ReadResult(c, d, pos, a), ReadResult(c, d, pos + a, b), ReadResult(c, d, pos, a + b);
            && (x.None? ==> z.None?)
            && (x.Some? ==>
                  (z == (if y.Some? then Some(x.value + y.value) else None) <==>
                   b == 0 || NrOf(d, pos) / U32 == NrOf(d, pos + a) / U32 || WrappedPos(d, pos + a) >= Capacity(d)))
  {
    hide DiskOk, Capacity, ReadRange, NrOf, WrappedPos, GrainBytes;
    WindowsOf(d, pos, a);
    var w, w' := WrappedPos(d, pos), WrappedPos(d, pos + a);
    RangeSplit(c, d, w, a, b);
    if NrOf(d, pos) / U32 != NrOf(d, pos + a) / U32 {
      BehindTheDisk(c, d, w + a, b);
      if ReadRange(c, d, w, a).Some? { Appended(ReadRange(c, d, w, a), ReadRange(c, d, w', b)); }
      if b == 0 {
        NothingAsked(c, d, w');
      } else if w' >= Capacity(d) {
        BehindTheDisk(c, d, w', b);
      } else {
        SomethingThere(c, d, w', b);
      }
    }
  }

  lemma Appended(x: Option<seq<byte>>, y: Option<seq<byte>>)
    requires x.Some?
    ensures x.value + [] == x.value && (y.Some? && y.value != [] ==> x.value + y.value != x.value)
  {
    if y.Some? { assert |x.value + y.value| == |x.value| + |y.value|; }
  }

  lemma WindowsApart(m: nat, k: nat, w: nat, k': nat, w': nat, a: nat)
    requires m > 0 && w < m && w' < m && k != k' && k * m + w + a == k' * m + w'
    ensures w + a >= m
  {
    if k' < k {
      MulMono(m, k' + 1, k);
      assert false;
    } else {
      MulMono(m, k + 1, k');
    }
  }

  /** The position a read really starts from is the requested one exactly while the grain
      number fits 32 bits. */
  lemma WrapIff(d: SparseDisk, pos: nat)
    requires DiskOk(d)
    ensures WrappedPos(d, pos) == pos <==> NrOf(d, pos) < U32
  {
    hide IsPow2, Capacity;
    WrapArith(pos, GrainBytes(d));
  }

  lemma WrapArith(pos: nat, G: nat)
    requires G > 0
    ensures pos / G % U32 * G + pos % G == pos <==> pos / G < U32
    ensures pos / G < U32 ==> (U32 * G + pos) / G % U32 * G + (U32 * G + pos) % G == pos
  {
    var q, r := pos / G, pos % G;
    assert pos == q * G + r;
    WrapQuotient(q, G);
    if q < U32 {
      assert U32 * G + pos == G * (U32 + q) + r;
      ModUnique(U32 * G + pos, G, U32 + q, r);
      ModUnique(U32 + q, U32, 1, q);
    }
  }

  lemma WrapQuotient(q: nat, G: nat)
    requires G > 0
    ensures q % U32 * G == q * G <==> q < U32
  {
    if q >= U32 {
      MulMono(G, q % U32 + 1, q);
      assert G * (q % U32 + 1) == q % U32 * G + G;
    }
  }

  /** In particular every position up to the capacity is read where it is ... */
  lemma InsideIsExact(d: SparseDisk, pos: nat)
    requires DiskOk(d) && pos < Capacity(d)
    ensures WrappedPos(d, pos) == pos
  {
    PositionInGrain(d, pos);
    WrapIff(d, pos);
  }

  /** ... but 2^32 grains further, beyond any capacity, it is read again instead of being
      past the end. */
  lemma FarReadWraps(d: SparseDisk, pos: nat)
    requires DiskOk(d) && pos < Capacity(d)
    ensures WrappedPos(d, At(d, U32, pos)) == pos && At(d, U32, pos) >= Capacity(d)
  {
    PositionInGrain(d, pos);
    InsideIsExact(d, pos);
    MulMono(GrainBytes(d), d.g.lastGrainNr + 1, U32);
    hide DiskOk;
    WrapArith(pos, GrainBytes(d));
  }
}
