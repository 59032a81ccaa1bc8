// The sparse extent header on disk, and the grain-table geometry it implies.

module Header {
  import opened Bytes
  import opened Bits

  datatype Header = Header(
    version: nat, flags: nat, numGTEsPerGT: nat, compressAlgorithm: nat, uncleanShutdown: nat,
    capacity: nat, grainSize: nat, descriptorOffset: nat, descriptorSize: nat,
    rgdOffset: nat, gdOffset: nat, overHead: nat)

  const MAGIC: nat := 0x564d444b
  const TEMPORARY_MAGIC: nat := 0x766d646b // MAGIC ^ 0x20202020
  const VERSION: nat := 3
  const COMPRESSED: nat := 0x1_0000
  const EMBEDDED_LBA: nat := 0x2_0000

  /** Each field fits its width on disk. */
  predicate Fits(h: Header) {
    && h.version < U32 && h.flags < U32 && h.numGTEsPerGT < U32
    && h.compressAlgorithm < 0x1_0000 && h.uncleanShutdown < 256
    && h.capacity < U64 && h.grainSize < U64 && h.descriptorOffset < U64 && h.descriptorSize < U64
    && h.rgdOffset < U64 && h.gdOffset < U64 && h.overHead < U64
  }

  predicate IsCompressed(flags: nat) {
    flags / COMPRESSED % 2 == 1
  }

  predicate HasEmbeddedLBA(flags: nat) {
    flags / EMBEDDED_LBA % 2 == 1
  }

  /** The flag checks of getSparseExtentHeader other than the newline detector. */
  predicate FlagsSupported(flags: nat) {
    && flags < 0x4_0000
    && (HasEmbeddedLBA(flags) ==> IsCompressed(flags))
  }

  /** The flag tests above are the C code's masks. */
  lemma FlagMasks(flags: nat)
    requires flags < U32
    ensures And(flags, COMPRESSED) != 0 <==> IsCompressed(flags)
    ensures And(flags, EMBEDDED_LBA) != 0 <==> HasEmbeddedLBA(flags)
    ensures And(flags, 0xFFFC_0000) == 0 <==> flags < 0x4_0000
    ensures And(flags, 1) != 0 <==> flags % 2 == 1
  {
    Pow2Values();
    AndBit(flags, 0);
    AndBit(flags, 16);
    AndBit(flags, 17);
    ShrIsDiv(flags, 16);
    ShrIsDiv(flags, 17);
    HighMask(flags);
  }

  lemma HighMask(flags: nat)
    requires flags < U32
    ensures And(flags, 0xFFFC_0000) == 0 <==> flags < 0x4_0000
  {
    hide And, Shr, Pow2;
    var y := flags / 0x4_0000;
    ShrIsDiv(flags, 18);
    AndMask(y, 14);
    Pow2Values();
    AndHigh(flags, 0x3FFF, 18, 0xFFFC_0000);
  }

  lemma AndBit(x: nat, k: nat)
    ensures And(x, Pow2(k)) == Shr(x, k) % 2 * Pow2(k)
  {
    AndHigh(x, 1, k, Pow2(k));
    AndMask(Shr(x, k), 1);
  }

  const NEWLINES: seq<byte> := [10, 32, 13, 10]

  /** setSparseExtentHeader. */
  function EncodeHeader(h: Header, temporary: bool): (b: seq<byte>)
    ensures |b| == SECTOR
  {
    LE(if temporary then TEMPORARY_MAGIC else MAGIC, 4) + EncodeBody(h)
  }

  function EncodeBody(h: Header): (b: seq<byte>)
    ensures |b| == SECTOR - 4
  {
    EncodeFront(h) + EncodeMiddle(h) + EncodeEnd(h)
  }

  // bytes 4..44
  function EncodeFront(h: Header): (b: seq<byte>)
    ensures |b| == 40
  {
    LE(h.version, 4) + LE(h.flags, 4) + LE(h.capacity, 8) + LE(h.grainSize, 8)
    + LE(h.descriptorOffset, 8) + LE(h.descriptorSize, 8)
  }

  // bytes 44..72
  function EncodeMiddle(h: Header): (b: seq<byte>)
    ensures |b| == 28
  {
    LE(h.numGTEsPerGT, 4) + LE(h.rgdOffset, 8) + LE(h.gdOffset, 8) + LE(h.overHead, 8)
  }

  // bytes 72..512
  function EncodeEnd(h: Header): (b: seq<byte>)
    ensures |b| == 440
  {
    LE(h.uncleanShutdown, 1) + NEWLINES + LE(h.compressAlgorithm, 2) + Zeros(433)
  }

  /** checkSparseExtentHeader. */
  predicate MagicOk(b: seq<byte>) {
    |b| >= 4 && FromLE(b[0..4]) == MAGIC
  }

  /** getSparseExtentHeader. */
  function DecodeHeader(b: seq<byte>): Option<Header>
    requires |b| == SECTOR
  {
    var version := FromLE(b[4..8]);
    var flags := FromLE(b[8..12]);
    if !MagicOk(b) || version > VERSION || flags >= 0x4_0000 then None
    else if flags % 2 == 1 && b[73..77] != NEWLINES then None
    else if HasEmbeddedLBA(flags) && !IsCompressed(flags) then None
    else Some(Header(version, flags, FromLE(b[44..48]), FromLE(b[77..79]), FromLE(b[72..73]),
                     FromLE(b[12..20]), FromLE(b[20..28]), FromLE(b[28..36]), FromLE(b[36..44]),
                     FromLE(b[48..56]), FromLE(b[56..64]), FromLE(b[64..72])))
  }

  lemma FrontFields(h: Header, b: seq<byte>)
    requires Fits(h) && |b| == SECTOR && b[4..44] == EncodeFront(h)
    ensures FromLE(b[4..8]) == h.version && FromLE(b[8..12]) == h.flags
    ensures FromLE(b[12..20]) == h.capacity && FromLE(b[20..28]) == h.grainSize
    ensures FromLE(b[28..36]) == h.descriptorOffset && FromLE(b[36..44]) == h.descriptorSize
  {
    hide LE, FromLE;
    var f := EncodeFront(h);
    HasAtPart(b, 4, f, 0, 4); assert f[0..4] == LE(h.version, 4);
    HasAtPart(b, 4, f, 4, 8); assert f[4..8] == LE(h.flags, 4);
    HasAtPart(b, 4, f, 8, 16); assert f[8..16] == LE(h.capacity, 8);
    HasAtPart(b, 4, f, 16, 24); assert f[16..24] == LE(h.grainSize, 8);
    HasAtPart(b, 4, f, 24, 32); assert f[24..32] == LE(h.descriptorOffset, 8);
    HasAtPart(b, 4, f, 32, 40); assert f[32..40] == LE(h.descriptorSize, 8);
    LE32(h.version); LE32(h.flags); LE64(h.capacity); LE64(h.grainSize);
    LE64(h.descriptorOffset); LE64(h.descriptorSize);
  }

  lemma RearFields(h: Header, b: seq<byte>)
    requires Fits(h) && |b| == SECTOR && b[44..72] == EncodeMiddle(h) && b[72..] == EncodeEnd(h)
    ensures FromLE(b[44..48]) == h.numGTEsPerGT && FromLE(b[48..56]) == h.rgdOffset
    ensures FromLE(b[56..64]) == h.gdOffset && FromLE(b[64..72]) == h.overHead
    ensures FromLE(b[72..73]) == h.uncleanShutdown && b[73..77] == NEWLINES
    ensures FromLE(b[77..79]) == h.compressAlgorithm
  {
    var f, e := EncodeMiddle(h), EncodeEnd(h);
    HasAtPart(b, 44, f, 0, 4); assert f[0..4] == LE(h.numGTEsPerGT, 4);
    HasAtPart(b, 44, f, 4, 12); assert f[4..12] == LE(h.rgdOffset, 8);
    HasAtPart(b, 44, f, 12, 20); assert f[12..20] == LE(h.gdOffset, 8);
    HasAtPart(b, 44, f, 20, 28); assert f[20..28] == LE(h.overHead, 8);
    HasAtPart(b, 72, e, 0, 1); assert e[0..1] == LE(h.uncleanShutdown, 1);
    HasAtPart(b, 72, e, 1, 5); assert e[1..5] == NEWLINES;
    HasAtPart(b, 72, e, 5, 7); assert e[5..7] == LE(h.compressAlgorithm, 2);
    LE32(h.numGTEsPerGT); LE64(h.rgdOffset); LE64(h.gdOffset); LE64(h.overHead);
    LE16(h.compressAlgorithm);
    Widths();
    LERoundTrip(h.uncleanShutdown, 1);
  }

  lemma EncodedMagic(h: Header, temporary: bool)
    ensures MagicOk(EncodeHeader(h, temporary)) <==> !temporary
  {
    var m := if temporary then TEMPORARY_MAGIC else MAGIC;
    assert EncodeHeader(h, temporary)[0..4] == LE(m, 4);
    LE32(m);
  }

  /** What the opener accepts of what the writer encodes, and that it then gets every
      field back: the final form exactly when version and flags are supported, the
      temporary lowercase form never. */
  lemma HeaderRoundTrip(h: Header, temporary: bool)
    requires Fits(h)
    ensures DecodeHeader(EncodeHeader(h, temporary)) ==
            if !temporary && h.version <= VERSION && FlagsSupported(h.flags) then Some(h) else None
  {
    var b := EncodeHeader(h, temporary);
    var body := EncodeBody(h);
    EncodedMagic(h, temporary);
    assert b[4..44] == body[0..40] == EncodeFront(h);
    assert b[44..72] == body[40..68] == EncodeMiddle(h);
    assert b[72..] == body[68..] == EncodeEnd(h);
    FrontFields(h, b);
    RearFields(h, b);
  }

  // ----- geometry -----

  /** SparseGTInfo without the tables themselves. */
  datatype Geometry = Geometry(GTEs: nat, GTs: nat, GDsectors: nat, GTsectors: nat,
                               lastGrainNr: nat, lastGrainSize: nat)

  /** getGDGT, with the widths of its C variables. */
  function GetGDGT(h: Header): Option<Geometry> {
    if h.grainSize < 1 || h.grainSize > 128 || !IsPow2(h.grainSize) then None
    else if h.numGTEsPerGT < SECTOR / 4 || !IsPow2(h.numGTEsPerGT) then None
    else
      Some(MakeGeometry(Quotient(h.capacity, h.grainSize), LowBits(h.capacity, h.grainSize) * SECTOR,
                        h.numGTEsPerGT))
  }

  function Quotient(x: nat, g: nat): nat
    requires g > 0
  {
    x / g
  }

  function LowBits(x: nat, g: nat): nat
    requires g > 0
  {
    And(x, g - 1)
  }

  function MakeGeometry(lastGrainNr: nat, lastGrainSize: nat, n: nat): Geometry
    requires n > 0
  {
    var GTEs := lastGrainNr + if lastGrainSize != 0 then 1 else 0;
    var GTs := TableCount(GTEs, n);
    Geometry(GTEs, GTs, WordSectors(GTs), WordSectors(n), lastGrainNr, lastGrainSize)
  }

  // A 64-bit ceiling stored in 32 bits.
  function TableCount(GTEs: nat, n: nat): nat
    requires n > 0
  {
    (GTEs + n - 1) % U64 / n % U32
  }

  // Sectors of `n` 32-bit words, stored in 32 bits.
  function WordSectors(n: nat): nat {
    CeilDiv(n * 4, SECTOR) % U32
  }

  /** 32-bit words in all tables of the directory. */
  function TableWords(g: Geometry): nat {
    g.GTsectors * g.GTs * 128
  }

  lemma {:induction false} Pow2Multiple(k: nat, j: nat) returns (q: nat)
    requires Pow2(k) >= Pow2(j)
    ensures Pow2(k) == q * Pow2(j)
    decreases j
  {
    if j == 0 {
      q := Pow2(k);
    } else {
      assert k > 0;
      q := Pow2Multiple(k - 1, j - 1);
    }
  }

  lemma TableSectors(n: nat)
    requires 128 <= n < U32 && IsPow2(n)
    ensures WordSectors(n) * 128 == n
  {
    var k := IsPow2Exponent(n);
    assert Pow2(7) == 128 by { Pow2Values(); }
    var q := Pow2Multiple(k, 7);
    hide IsPow2, Pow2;
    assert CeilDiv(q * 128 * 4, SECTOR) == q;
  }

  lemma CeilBounds(x: nat, d: nat)
    requires d > 0
    ensures x <= CeilDiv(x, d) * d < x + d
  {
    var y := x + d - 1;
    assert y == (y / d) * d + y % d;
  }

  lemma TableCountIsCeil(GTEs: nat, n: nat)
    requires 0 < n < U32 && GTEs < U32
    ensures TableCount(GTEs, n) == CeilDiv(GTEs, n) <= GTEs
  {
    var c := CeilDiv(GTEs, n);
    CeilBounds(GTEs, n);
    NotMoreTables(GTEs, n, c);
    assert (GTEs + n - 1) % U64 == GTEs + n - 1;
    assert c == (GTEs + n - 1) / n;
  }

  lemma NotMoreTables(GTEs: nat, n: nat, c: nat)
    requires n > 0 && c * n < GTEs + n
    ensures c <= GTEs
  {
    if c > GTEs {
      MulMono(n, GTEs + 1, c);
      MulMono(GTEs, 1, n);
      assert false;
    }
  }

  lemma CapacitySplit(capacity: nat, gs: nat)
    requires gs > 0
    ensures capacity / gs * (gs * SECTOR) + capacity % gs * SECTOR == capacity * SECTOR
    ensures capacity % gs * SECTOR < gs * SECTOR
  {
    var q, r := capacity / gs, capacity % gs;
    assert capacity == q * gs + r;
    assert q * (gs * SECTOR) == (q * gs) * SECTOR;
  }

  /** Grains tile the capacity: the mask in getGDGT is a remainder. */
  lemma CapacityFacts(h: Header, g: Geometry)
    requires GetGDGT(h) == Some(g)
    ensures h.grainSize > 0
    ensures g.lastGrainNr * (h.grainSize * SECTOR) + g.lastGrainSize == h.capacity * SECTOR
    ensures g.lastGrainSize == h.capacity % h.grainSize * SECTOR < h.grainSize * SECTOR
    ensures g.lastGrainNr == h.capacity / h.grainSize
    ensures g.GTEs == g.lastGrainNr + if h.capacity % h.grainSize != 0 then 1 else 0
  {
    MaskIsRemainder(h.capacity, h.grainSize);
    CapacitySplit(h.capacity, h.grainSize);
  }

  /** Every grain below GTEs has an entry inside the tables, every table an entry inside
      the directory, a table fills its sectors, and no 32-bit count wraps. */
  lemma GeometryFacts(h: Header, g: Geometry)
    requires h.numGTEsPerGT < U32 && GetGDGT(h) == Some(g) && g.GTEs < U32
    ensures g.GTsectors * 128 == h.numGTEsPerGT
    ensures g.GTs == CeilDiv(g.GTEs, h.numGTEsPerGT)
    ensures g.GTEs <= g.GTs * h.numGTEsPerGT == TableWords(g)
    ensures g.GTs * 4 <= g.GDsectors * SECTOR
    ensures g.GDsectors + g.GTsectors * g.GTs < U32
  {
    TableSectors(h.numGTEsPerGT);
    TableFacts(g.lastGrainNr, g.lastGrainSize, h.numGTEsPerGT);
  }

  lemma TableFacts(lastGrainNr: nat, lastGrainSize: nat, n: nat)
    requires 128 <= n < U32 && WordSectors(n) * 128 == n && MakeGeometry(lastGrainNr, lastGrainSize, n).GTEs < U32
    ensures var g := MakeGeometry(lastGrainNr, lastGrainSize, n);
            && g.GTsectors * 128 == n
            && g.GTs == CeilDiv(g.GTEs, n)
            && g.GTEs <= g.GTs * n == TableWords(g)
            && g.GTs * 4 <= g.GDsectors * SECTOR
            && g.GDsectors + g.GTsectors * g.GTs < U32
  {
    var g := MakeGeometry(lastGrainNr, lastGrainSize, n);
    CeilBounds(g.GTEs, n);
    TableCountIsCeil(g.GTEs, n);
    TablesFit(g.GTs, g.GTsectors, n, g.GTEs);
  }

  lemma TablesFit(GTs: nat, GTsectors: nat, n: nat, GTEs: nat)
    requires GTsectors * 128 == n < U32 && GTs <= GTEs < U32 && GTs * n < GTEs + n
    ensures (GTsectors * GTs) * 128 == GTs * n
    ensures WordSectors(GTs) == CeilDiv(GTs * 4, SECTOR) && WordSectors(GTs) + GTsectors * GTs < U32
  {
    assert (GTsectors * GTs) * 128 == GTs * (GTsectors * 128);
  }
}
