// The on-disk format by byte positions and literal values, independent of the functions that
// encode and decode it.

module Format {
  import opened Bytes
  import opened Bits
  import opened Header
  import opened Grain
  import opened Coalesce
  import opened Reader
  import C = Copy

  // ----- words in a file -----

  function Word16(f: seq<byte>, i: nat): (w: nat)
    requires i + 2 <= |f|
    ensures w < 0x1_0000
  {
    f[i] as nat + 0x100 * f[i + 1] as nat
  }

  function Word32(f: seq<byte>, i: nat): (w: nat)
    requires i + 4 <= |f|
    ensures w < U32
  {
    Word16(f, i) + 0x1_0000 * Word16(f, i + 2)
  }

  function Word64(f: seq<byte>, i: nat): (w: nat)
    requires i + 8 <= |f|
    ensures w < U64
  {
    Word32(f, i) + 0x1_0000_0000 * Word32(f, i + 4)
  }

  lemma FirstByte(f: seq<byte>, i: nat, j: nat)
    requires i < j <= |f|
    ensures FromLE(f[i..j]) == f[i] as nat + 0x100 * FromLE(f[i + 1..j])
  {
    assert f[i..j][1..] == f[i + 1..j];
  }

  lemma OneByte(f: seq<byte>, i: nat)
    requires i < |f|
    ensures FromLE(f[i..i + 1]) == f[i] as nat
  {
    FirstByte(f, i, i + 1);
    assert f[i + 1..i + 1] == [];
  }

  lemma TwoBytes(f: seq<byte>, i: nat)
    requires i + 2 <= |f|
    ensures FromLE(f[i..i + 2]) == Word16(f, i)
  {
    FirstByte(f, i, i + 2);
    OneByte(f, i + 1);
  }

  /** Two bytes more in front. */
  lemma LowWord(f: seq<byte>, i: nat, j: nat)
    requires i + 2 <= j <= |f|
    ensures FromLE(f[i..j]) == Word16(f, i) + 0x1_0000 * FromLE(f[i + 2..j])
  {
    hide FromLE;
    FirstByte(f, i, j);
    FirstByte(f, i + 1, j);
  }

  lemma FourBytes(f: seq<byte>, i: nat)
    requires i + 4 <= |f|
    ensures FromLE(f[i..i + 4]) == Word32(f, i)
  {
    hide FromLE, Word16;
    LowWord(f, i, i + 4);
    TwoBytes(f, i + 2);
  }

  lemma EightBytes(f: seq<byte>, i: nat)
    requires i + 8 <= |f|
    ensures FromLE(f[i..i + 8]) == Word64(f, i)
  {
    hide FromLE, Word16;
    LowWord(f, i, i + 8);
    LowWord(f, i + 2, i + 8);
    FourBytes(f, i + 4);
  }

  /** A word lies where the bytes it is part of lie. */
  lemma WordsInside(f: seq<byte>, pos: nat, data: seq<byte>, i: nat)
    requires HasAt(f, pos, data)
    ensures i + 2 <= |data| ==> pos + i + 2 <= |f| && Word16(f, pos + i) == Word16(data, i)
    ensures i + 4 <= |data| ==> pos + i + 4 <= |f| && Word32(f, pos + i) == Word32(data, i)
    ensures i + 8 <= |data| ==> pos + i + 8 <= |f| && Word64(f, pos + i) == Word64(data, i)
  {
    hide HasAt;
    HasAtFits(f, pos, data);
    forall k | 0 <= k < |data| ensures f[pos + k] == data[k] {
      HasAtByte(f, pos, data, k);
    }
  }

  // ----- the header -----

  /** The header of a sector, each field at its place. */
  function HeaderAt(b: seq<byte>): Header
    requires |b| == 512
  {
    Header(Word32(b, 4), Word32(b, 8), Word32(b, 44), Word16(b, 77), b[72] as nat, Word64(b, 12), Word64(b, 20),
           Word64(b, 28), Word64(b, 36), Word64(b, 48), Word64(b, 56), Word64(b, 64))
  }

  /** "KDMV", a version up to 3, compression with or without addresses or neither but no other
      incompatible flag, and the newline detector if the flags ask for it. */
  predicate Acceptable(b: seq<byte>)
    requires |b| == 512
  {
    && b[0] == 0x4b && b[1] == 0x44 && b[2] == 0x4d && b[3] == 0x56
    && Word32(b, 4) <= 3
    && (Word32(b, 8) / 0x1_0000 == 0 || Word32(b, 8) / 0x1_0000 == 1 || Word32(b, 8) / 0x1_0000 == 3)
    && (Word32(b, 8) % 2 == 1 ==> b[73] == 10 && b[74] == 32 && b[75] == 13 && b[76] == 10)
  }

  lemma MagicAt(b: seq<byte>)
    requires |b| >= 4
    ensures MagicOk(b) <==> b[0] == 0x4b && b[1] == 0x44 && b[2] == 0x4d && b[3] == 0x56
  {
    FourBytes(b, 0);
  }

  lemma FieldsAt(b: seq<byte>)
    requires |b| == 512
    ensures HeaderAt(b) == Header(
              FromLE(b[4..8]), FromLE(b[8..12]), FromLE(b[44..48]), FromLE(b[77..79]), FromLE(b[72..73]),
              FromLE(b[12..20]), FromLE(b[20..28]), FromLE(b[28..36]), FromLE(b[36..44]),
              FromLE(b[48..56]), FromLE(b[56..64]), FromLE(b[64..72]))
  {
    hide FromLE, Word16, Word32, Word64;
    FourBytes(b, 4); FourBytes(b, 8); FourBytes(b, 44);
    TwoBytes(b, 77); OneByte(b, 72);
    EightBytes(b, 12); EightBytes(b, 20); EightBytes(b, 28); EightBytes(b, 36);
    EightBytes(b, 48); EightBytes(b, 56); EightBytes(b, 64);
  }

  lemma DetectorAt(b: seq<byte>)
    requires |b| == 512
    ensures b[73..77] == NEWLINES <==> b[73] == 10 && b[74] == 32 && b[75] == 13 && b[76] == 10
  {
    var d := b[73..77];
    assert d == [b[73], b[74], b[75], b[76]];
  }

  /** The flags below 2^18 that are supported. */
  lemma FlagValues(flags: nat)
    ensures flags < 0x4_0000 && (HasEmbeddedLBA(flags) ==> IsCompressed(flags)) <==>
            flags / 0x1_0000 == 0 || flags / 0x1_0000 == 1 || flags / 0x1_0000 == 3
  {
    var q := flags / 0x1_0000;
    assert flags / 0x2_0000 == q / 2;
  }

  /** What the opener accepts of any sector, byte for byte, and what it makes of it. */
  lemma DecodeIff(b: seq<byte>)
    requires |b| == 512
    ensures DecodeHeader(b) == if Acceptable(b) then Some(HeaderAt(b)) else None
  {
    hide FromLE, Word16, Word32, Word64, MagicOk, IsCompressed, HasEmbeddedLBA;
    MagicAt(b);
    FieldsAt(b);
    DetectorAt(b);
    FlagValues(FromLE(b[8..12]));
  }

  /** Every byte of a header that is written. */
  lemma HeaderBytes(h: Header, temporary: bool)
    requires Fits(h)
    ensures var b := EncodeHeader(h, temporary);
            && b[0..4] == (if temporary then [0x6b, 0x64, 0x6d, 0x76] else [0x4b, 0x44, 0x4d, 0x56])
            && HeaderAt(b) == h
            && b[73..77] == [10, 32, 13, 10]
            && forall i :: 79 <= i < 512 ==> b[i] == 0
  {
    hide FromLE, EncodeFront, EncodeMiddle, EncodeEnd, EncodeHeader, LE;
    var b := EncodeHeader(h, temporary);
    HeaderParts(h, temporary);
    FieldsAt(b);
    FrontFields(h, b);
    RearFields(h, b);
    MagicLetters();
    EndZeros(h, b);
  }

  lemma HeaderParts(h: Header, temporary: bool)
    ensures var b := EncodeHeader(h, temporary);
            && b[0..4] == LE(if temporary then TEMPORARY_MAGIC else MAGIC, 4)
            && b[4..44] == EncodeFront(h) && b[44..72] == EncodeMiddle(h) && b[72..] == EncodeEnd(h)
  {
    hide EncodeFront, EncodeMiddle, EncodeEnd, LE;
    var b, body := EncodeHeader(h, temporary), EncodeBody(h);
    assert b[4..44] == body[0..40];
    assert b[44..72] == body[40..68];
    assert b[72..] == body[68..];
  }

  lemma EndZeros(h: Header, b: seq<byte>)
    requires |b| == 512 && b[72..] == EncodeEnd(h)
    ensures forall i :: 79 <= i < 512 ==> b[i] == 0
  {
    hide LE;
    var e := EncodeEnd(h);
    forall i | 79 <= i < 512 ensures b[i] == 0 {
      assert b[i] == b[72..][i - 72] && e[i - 72] == Zeros(433)[i - 79];
    }
  }

  lemma MagicLetters()
    ensures LE(MAGIC, 4) == [0x4b, 0x44, 0x4d, 0x56] && LE(TEMPORARY_MAGIC, 4) == [0x6b, 0x64, 0x6d, 0x76]
  {
    assert LE(0x56, 1) == [0x56] && LE(0x76, 1) == [0x76];
    assert LE(0x564d, 2) == [0x4d, 0x56] && LE(0x766d, 2) == [0x6d, 0x76];
    assert LE(0x564d44, 3) == [0x44, 0x4d, 0x56] && LE(0x766d64, 3) == [0x64, 0x6d, 0x76];
  }

  // ----- opening -----

  /** A footer: a marker of type 3 and size 0 in the third last sector, and behind it a sector
      that starts with the magic. */
  predicate FooterAt(f: seq<byte>) {
    |f| >= 1536 &&
    var m := (|f| / 512 - 3) * 512;
    && Word32(f, m + 8) == 0 && Word32(f, m + 12) == 3
    && f[m + 512] == 0x4b && f[m + 513] == 0x44 && f[m + 514] == 0x4d && f[m + 515] == 0x56
  }

  /** The sector of the header that counts. */
  function HeaderSector(f: seq<byte>): (b: seq<byte>)
    requires |f| >= 512
    ensures |b| == 512
  {
    if FooterAt(f) then f[(|f| / 512 - 2) * 512..(|f| / 512 - 1) * 512] else f[..512]
  }

  lemma FooterIff(f: seq<byte>)
    requires |f| >= 512
    ensures ReadFooter(f) == if FooterAt(f) then Some(HeaderSector(f)) else None
  {
    hide FromLE, Word16, Word32, MagicOk;
    if |f| >= 1536 {
      var m := (|f| / 512 - 3) * 512;
      assert (|f| - 3 * SECTOR) / SECTOR * SECTOR == m;
      assert (|f| - 2 * SECTOR) / SECTOR * SECTOR == m + 512;
      FourBytes(f, m + 8);
      FourBytes(f, m + 12);
      MagicAt(f[m + 512..m + 1024]);
    }
  }

  /** When a footer is there its header is the one that counts, whatever the first sector says
      behind its magic; otherwise the first sector's is. */
  lemma OpenedHeader(f: seq<byte>)
    ensures EffectiveHeader(f) ==
            if |f| >= 512 && f[0] == 0x4b && f[1] == 0x44 && f[2] == 0x4d && f[3] == 0x56
               && Acceptable(HeaderSector(f))
            then Some(HeaderAt(HeaderSector(f))) else None
    ensures Open(f).Some? ==>
              |f| >= 512 && Open(f).value.h == HeaderAt(HeaderSector(f)) && Open(f).value.hasFooter == FooterAt(f)
  {
    hide ReadFooter, FooterAt, DecodeHeader, HeaderAt, Acceptable, OpenGeometry, LoadTables, DiskOk, MagicOk;
    if |f| >= 512 {
      FooterIff(f);
      MagicAt(f[..512]);
      DecodeIff(HeaderSector(f));
    }
  }

  /** The descriptor that is kept: none without a place or a size, or when it is not in the
      file; that never keeps the file from opening. */
  lemma OpenedDescriptor(f: seq<byte>)
    requires Open(f).Some?
    ensures var d := Open(f).value;
            var at, n := d.h.descriptorOffset * 512, d.h.descriptorSize * 512;
            d.descriptor ==
              if d.h.descriptorOffset == 0 || d.h.descriptorSize == 0 || at + n > |f| then None
              else Some(f[at..at + n])
  {
    hide EffectiveHeader, OpenGeometry, LoadTables, DecodeWords, DiskOk, ReadFooter;
  }

  /** A grain is a power of two of up to 128 sectors. */
  predicate GrainSizeOk(n: nat) {
    n in [1, 2, 4, 8, 16, 32, 64, 128]
  }

  /** A table has a power of two of entries, at least 128. */
  ghost predicate TableSizeOk(n: nat) {
    exists k: nat :: k >= 7 && n == Pow2(k)
  }

  lemma {:induction false} Pow2Grows(j: nat, k: nat)
    requires j <= k
    ensures Pow2(j) <= Pow2(k)
  {
    if j < k { Pow2Grows(j, k - 1); }
  }

  lemma SmallPowers(k: nat)
    ensures Pow2(k) <= 128 <==> k <= 7
    ensures k <= 7 ==> Pow2(k) in [1, 2, 4, 8, 16, 32, 64, 128]
    ensures Pow2(0) == 1 && Pow2(1) == 2 && Pow2(2) == 4 && Pow2(3) == 8 && Pow2(4) == 16 && Pow2(5) == 32
    ensures Pow2(6) == 64 && Pow2(7) == 128
  {
    assert Pow2(3) == 8;
    assert Pow2(5) == 32;
    assert Pow2(7) == 128;
    if k > 7 {
      Pow2Grows(7, k - 1);
    } else {
      var n: nat := k;
      assert n == 0 || n == 1 || n == 2 || n == 3 || n == 4 || n == 5 || n == 6 || n == 7;
    }
  }

  lemma GrainSizes(n: nat)
    ensures 1 <= n <= 128 && IsPow2(n) <==> GrainSizeOk(n)
  {
    hide IsPow2;
    if 1 <= n <= 128 && IsPow2(n) {
      var k := IsPow2Exponent(n);
      SmallPowers(k);
    }
    if n in [1, 2, 4, 8, 16, 32, 64, 128] {
      SmallPowers(0);
      var k := if n == 1 then 0 else if n == 2 then 1 else if n == 4 then 2 else if n == 8 then 3
               else if n == 16 then 4 else if n == 32 then 5 else if n == 64 then 6 else 7;
      Pow2IsPow2(k);
    }
  }

  lemma TableSizes(n: nat)
    ensures n >= 128 && IsPow2(n) <==> TableSizeOk(n)
  {
    hide IsPow2;
    if n >= 128 && IsPow2(n) {
      var k := IsPow2Exponent(n);
      SmallPowers(6);
      if k <= 6 { Pow2Grows(k, 6); }
      assert k >= 7 && n == Pow2(k);
    }
    if k: nat :| k >= 7 && n == Pow2(k) {
      Pow2Grows(7, k);
      SmallPowers(7);
      Pow2IsPow2(k);
    }
  }

  lemma SizesIff(h: Header)
    ensures GetGDGT(h).Some? <==> GrainSizeOk(h.grainSize) && TableSizeOk(h.numGTEsPerGT)
  {
    hide IsPow2, GrainSizeOk, TableSizeOk;
    GrainSizes(h.grainSize);
    TableSizes(h.numGTEsPerGT);
  }

  /** Tables that cover the capacity. */
  function Tables(h: Header): nat
    requires h.grainSize > 0 && h.numGTEsPerGT > 0
  {
    CeilDiv(CeilDiv(h.capacity, h.grainSize), h.numGTEsPerGT)
  }

  lemma GrainsAreCeil(capacity: nat, gs: nat)
    requires gs > 0
    ensures CeilDiv(capacity, gs) == capacity / gs + if capacity % gs != 0 then 1 else 0
  {
    var q, r := capacity / gs, capacity % gs;
    assert capacity == gs * q + r;
    if r == 0 {
      ModUnique(capacity + gs - 1, gs, q, gs - 1);
    } else {
      assert gs * (q + 1) == gs * q + gs;
      ModUnique(capacity + gs - 1, gs, q + 1, r - 1);
    }
  }

  lemma GeometryAt(h: Header, g: Geometry)
    requires OpenGeometry(h) == Some(g)
    ensures h.grainSize > 0 && h.numGTEsPerGT > 0
    ensures g.GTEs == CeilDiv(h.capacity, h.grainSize) < U32 && g.GTs == Tables(h)
    ensures g.GTsectors * SECTOR == 4 * h.numGTEsPerGT && TableWords(g) == g.GTs * h.numGTEsPerGT
    ensures g.GDsectors == CeilDiv(4 * g.GTs, 512)
  {
    CapacityFacts(h, g);
    GeometryFacts(h, g);
    DirectorySectors(h, g);
    DirectoryIsCeil(g.GTs);
    hide GetGDGT, CeilDiv;
    GrainsAreCeil(h.capacity, h.grainSize);
  }

  lemma DirectorySectors(h: Header, g: Geometry)
    requires GetGDGT(h) == Some(g)
    ensures g.GDsectors == WordSectors(g.GTs) && g.GTs < U32
  {
    hide WordSectors, IsPow2, LowBits, Quotient;
  }

  lemma DirectoryIsCeil(GTs: nat)
    requires GTs < U32
    ensures WordSectors(GTs) == CeilDiv(4 * GTs, 512)
  {
  }

  /** The directory entry of table `t`. */
  function DirectoryEntry(f: seq<byte>, h: Header, t: nat): nat
    requires h.gdOffset * 512 + 4 * t + 4 <= |f|
  {
    Word32(f, h.gdOffset * 512 + 4 * t)
  }

  /** What has to be in the file: the directory, in whole sectors, and each table it names. */
  predicate TablesThere(f: seq<byte>, h: Header)
    requires h.grainSize > 0 && h.numGTEsPerGT > 0
  {
    && h.gdOffset * 512 + CeilDiv(4 * Tables(h), 512) * 512 <= |f|
    && 4 * Tables(h) <= CeilDiv(4 * Tables(h), 512) * 512
    && forall t :: 0 <= t < Tables(h) ==>
         DirectoryEntry(f, h, t) != 0 ==> DirectoryEntry(f, h, t) * 512 + 4 * h.numGTEsPerGT <= |f|
  }

  lemma DirectoryWords(f: seq<byte>, pos: nat, len: nat, t: nat)
    requires pos + len <= |f| && 4 * t + 4 <= len
    ensures t < |DecodeWords(f[pos..pos + len])|
    ensures DecodeWords(f[pos..pos + len])[t] == Word32(f, pos + 4 * t)
  {
    hide FromLE, Word32;
    HasAtPart(f, pos, f[pos..pos + len], 4 * t, 4 * t + 4);
    FourBytes(f, pos + 4 * t);
  }

  /** The directory of the file, as the opener reads it. */
  function Dir(f: seq<byte>, h: Header, g: Geometry): seq<nat>
    requires h.gdOffset * SECTOR + g.GDsectors * SECTOR <= |f|
  {
    DecodeWords(f[h.gdOffset * SECTOR..h.gdOffset * SECTOR + g.GDsectors * SECTOR])
  }

  lemma DirIs(f: seq<byte>, h: Header, g: Geometry)
    requires OpenGeometry(h) == Some(g) && h.gdOffset * SECTOR + g.GDsectors * SECTOR <= |f|
    ensures h.grainSize > 0 && h.numGTEsPerGT > 0 && g.GTs == Tables(h) <= |Dir(f, h, g)|
    ensures 4 * g.GTs <= g.GDsectors * SECTOR
    ensures forall t :: 0 <= t < g.GTs ==>
              h.gdOffset * 512 + 4 * t + 4 <= |f| && Dir(f, h, g)[t] == DirectoryEntry(f, h, t)
  {
    hide OpenGeometry, DecodeWords, Word32, CeilDiv, DirectoryEntry;
    GeometryAt(h, g);
    DirectoryHolds(h, g);
    forall t | 0 <= t < g.GTs
      ensures h.gdOffset * 512 + 4 * t + 4 <= |f| && t < |Dir(f, h, g)|
      ensures Dir(f, h, g)[t] == DirectoryEntry(f, h, t)
    {
      DirectoryWords(f, h.gdOffset * SECTOR, g.GDsectors * SECTOR, t);
      EntryWord(f, h, t);
    }
  }

  lemma EntryWord(f: seq<byte>, h: Header, t: nat)
    requires h.gdOffset * 512 + 4 * t + 4 <= |f|
    ensures DirectoryEntry(f, h, t) == Word32(f, h.gdOffset * 512 + 4 * t)
  {
  }

  /** Which files open: a magic in the first sector, an acceptable header in the one that
      counts, sizes that getGDGT takes, and directory and tables in the file. */
  ghost predicate Openable(f: seq<byte>) {
    && |f| >= 512 && f[0] == 0x4b && f[1] == 0x44 && f[2] == 0x4d && f[3] == 0x56
    && Acceptable(HeaderSector(f)) && Loadable(f, HeaderAt(HeaderSector(f)))
  }

  ghost predicate Loadable(f: seq<byte>, h: Header) {
    && GrainSizeOk(h.grainSize) && TableSizeOk(h.numGTEsPerGT) && h.numGTEsPerGT > 0
    && CeilDiv(h.capacity, h.grainSize) < U32 && TablesThere(f, h)
  }

  lemma OpenIff(f: seq<byte>)
    ensures Open(f).Some? <==> Openable(f)
  {
    hide EffectiveHeader, OpenGeometry, LoadTables, DecodeWords, Acceptable, HeaderAt, HeaderSector, Loadable,
      ReadFooter, DiskOk;
    OpenedHeader(f);
    if |f| >= 512 { HeaderFits(HeaderSector(f)); }
    if EffectiveHeader(f).Some? {
      var h := EffectiveHeader(f).value;
      LoadableIff(f, h);
      if OpenGeometry(h).Some? {
        var g := OpenGeometry(h).value;
        DirectoryHolds(h, g);
        if h.gdOffset * SECTOR + g.GDsectors * SECTOR <= |f| {
          var gd := Pread(f, h.gdOffset * SECTOR, g.GDsectors * SECTOR).value;
          assert Dir(f, h, g) == DecodeWords(gd);
        } else {
          assert Open(f).None?;
        }
      }
    }
  }

  lemma HeaderFits(b: seq<byte>)
    requires |b| == 512
    ensures Fits(HeaderAt(b))
  {
    hide Word16, Word32, Word64;
  }

  lemma LoadableIff(f: seq<byte>, h: Header)
    requires h.numGTEsPerGT < U32
    ensures Loadable(f, h) <==>
            OpenGeometry(h).Some? &&
            var g := OpenGeometry(h).value;
            && h.gdOffset * SECTOR + g.GDsectors * SECTOR <= |f| && g.GTs <= |Dir(f, h, g)|
            && LoadTables(f, Dir(f, h, g), g.GTsectors * SECTOR, g.GTs).Some?
  {
    hide OpenGeometry, LoadTables, Dir, TablesThere, CeilDiv, GrainSizeOk, TableSizeOk;
    GeometryIff(h);
    if OpenGeometry(h).Some? { TablesIff(f, h, OpenGeometry(h).value); }
  }

  lemma GeometryIff(h: Header)
    requires h.numGTEsPerGT < U32
    ensures OpenGeometry(h).Some? <==>
            && GrainSizeOk(h.grainSize) && TableSizeOk(h.numGTEsPerGT) && h.numGTEsPerGT > 0
            && CeilDiv(h.capacity, h.grainSize) < U32
  {
    hide GrainSizeOk, TableSizeOk, CeilDiv, IsPow2;
    SizesIff(h);
    GrainSizes(h.grainSize);
    TableSizes(h.numGTEsPerGT);
    if GetGDGT(h).Some? {
      CapacityFacts(h, GetGDGT(h).value);
      GrainsAreCeil(h.capacity, h.grainSize);
    }
  }

  lemma TablesIff(f: seq<byte>, h: Header, g: Geometry)
    requires OpenGeometry(h) == Some(g)
    ensures h.grainSize > 0 && h.numGTEsPerGT > 0
    ensures TablesThere(f, h) <==>
            && h.gdOffset * SECTOR + g.GDsectors * SECTOR <= |f|
            && g.GTs <= |Dir(f, h, g)|
            && LoadTables(f, Dir(f, h, g), g.GTsectors * SECTOR, g.GTs).Some?
  {
    hide OpenGeometry, LoadTables, Dir, CeilDiv, DirectoryEntry;
    GeometryAt(h, g);
    if h.gdOffset * SECTOR + g.GDsectors * SECTOR <= |f| {
      DirIs(f, h, g);
      TablesLoad(f, Dir(f, h, g), g.GTsectors * SECTOR, g.GTs);
    }
  }

  /** `w` is the entry of grain `i`: in the table that directory entry i / n names, at place
      i % n, or zero when that table is missing. */
  predicate EntryAt(f: seq<byte>, h: Header, i: nat, w: nat) {
    var n := h.numGTEsPerGT;
    && n > 0 && h.gdOffset * 512 + 4 * (i / n) + 4 <= |f| &&
    var e := DirectoryEntry(f, h, i / n);
    if e == 0 then w == 0
    else e * 512 + 4 * (i % n) + 4 <= |f| && w == Word32(f, e * 512 + 4 * (i % n))
  }

  /** The table in memory, entry by entry, from the bytes of the file. */
  lemma OpenedTable(f: seq<byte>, i: nat)
    requires Open(f).Some?
    ensures var d := Open(f).value;
            && d.f == f && d.h.numGTEsPerGT > 0 && d.h.grainSize > 0
            && |d.gt| == Tables(d.h) * d.h.numGTEsPerGT
            && (i < |d.gt| ==> EntryAt(f, d.h, i, d.gt[i]))
  {
    hide EffectiveHeader, OpenGeometry, LoadTables, DecodeWords, DiskOk, CeilDiv, DirectoryEntry, Tables, Word32,
      TableWords, TableAt, Slot, EntryAt;
    var d := Open(f).value;
    var h, g, n := d.h, d.g, d.h.numGTEsPerGT;
    GeometryAt(h, g);
    DirectoryHolds(h, g);
    DirIs(f, h, g);
    var size := g.GTsectors * SECTOR;
    TablesLoad(f, Dir(f, h, g), size, g.GTs);
    var mem := LoadTables(f, Dir(f, h, g), size, g.GTs).value;
    assert d.gt == DecodeWords(mem);
    MemWords(mem, n, g.GTs);
    if i < |d.gt| { EntryFound(f, h, g, mem, i); }
  }

  lemma EntryFound(f: seq<byte>, h: Header, g: Geometry, mem: seq<byte>, i: nat)
    requires OpenGeometry(h) == Some(g) && h.gdOffset * SECTOR + g.GDsectors * SECTOR <= |f|
    requires h.numGTEsPerGT > 0 && |mem| == Slot(g.GTs, 4 * h.numGTEsPerGT) && i < g.GTs * h.numGTEsPerGT
    requires i < |DecodeWords(mem)| && g.GTs <= |Dir(f, h, g)|
    requires forall t :: 0 <= t < g.GTs ==> TableAt(mem, f, Dir(f, h, g), 4 * h.numGTEsPerGT, t)
    ensures EntryAt(f, h, i, DecodeWords(mem)[i])
  {
    hide OpenGeometry, DecodeWords, CeilDiv, DirectoryEntry, Tables, Word32, TableAt, Slot, Dir;
    var t, k := i / h.numGTEsPerGT, i % h.numGTEsPerGT;
    DirIs(f, h, g);
    TableOf(i, h.numGTEsPerGT, g.GTs);
    EntryInMemory(f, Dir(f, h, g), mem, h.numGTEsPerGT, i, t, k);
    assert Dir(f, h, g)[t] == DirectoryEntry(f, h, t);
  }

  lemma MemWords(mem: seq<byte>, n: nat, GTs: nat)
    requires |mem| == Slot(GTs, 4 * n)
    ensures |DecodeWords(mem)| == GTs * n
  {
    assert GTs * (4 * n) == 4 * (GTs * n);
  }

  lemma TableOf(i: nat, n: nat, GTs: nat)
    requires n > 0 && i < GTs * n
    ensures i / n < GTs && i == (i / n) * n + i % n
    ensures Slot(i / n, 4 * n) + 4 * (i % n) == 4 * i
    ensures Slot(i / n, 4 * n) + 4 * n <= Slot(GTs, 4 * n)
  {
    var q, r := i / n, i % n;
    assert i == n * q + r;
    if q >= GTs { MulMono(n, GTs, q); }
    MulMono(4 * n, q + 1, GTs);
    assert q * (4 * n) == 4 * (n * q);
  }

  /** Entry `k` of table `t`. */
  lemma EntryInMemory(f: seq<byte>, gd: seq<nat>, mem: seq<byte>, n: nat, i: nat, t: nat, k: nat)
    requires t < |gd| && k < n && TableAt(mem, f, gd, 4 * n, t)
    requires i < |DecodeWords(mem)| && Slot(t, 4 * n) + 4 * k == 4 * i
    ensures var e, w := gd[t], DecodeWords(mem)[i];
            if e == 0 then w == 0
            else e * SECTOR + 4 * k + 4 <= |f| && w == Word32(f, e * SECTOR + 4 * k)
  {
    hide Slot, FromLE, Word32;
    var at := Slot(t, 4 * n);
    var table := mem[at..at + 4 * n];
    assert HasAt(mem, at, table);
    HasAtPart(mem, at, table, 4 * k, 4 * k + 4);
    if gd[t] == 0 {
      assert table[4 * k..4 * k + 4] == Zeros(4);
      ZeroWord();
    } else {
      HasAtFits(f, gd[t] * SECTOR, table);
      HasAtPart(f, gd[t] * SECTOR, table, 4 * k, 4 * k + 4);
      FourBytes(f, gd[t] * SECTOR + 4 * k);
    }
  }

  lemma ZeroWord()
    ensures FromLE(Zeros(4)) == 0
  {
    FourBytes(Zeros(4), 0);
  }

  // ----- grains -----

  /** Where grain `nr` starts on the disk. */
  function Start(h: Header, nr: nat): nat {
    nr * (h.grainSize * 512)
  }

  /** Byte `o` of grain `nr`: its entry, and where the disk has it. */
  lemma ByteOfGrain(c: Codec, d: SparseDisk, nr: nat, o: nat)
    requires DiskOk(d) && o < d.h.grainSize * 512 && Start(d.h, nr) + o < d.h.capacity * 512
    ensures nr < |d.gt|
    ensures Lookup(c, d, Start(d.h, nr) + o) == GrainByte(c, d, nr, o)
    ensures o < GrainLength(d, nr)
  {
    hide DiskOk, GrainByte, GrainLength;
    var p, G := Start(d.h, nr) + o, d.h.grainSize * 512;
    ModUnique(p, G, nr, o);
    hide Start;
    PositionInGrain(d, p);
    EntriesCover(d);
  }

  lemma EntriesCover(d: SparseDisk)
    requires DiskOk(d)
    ensures d.g.GTEs <= |d.gt| && d.h.grainSize > 0
  {
  }

  /** Data is what has an entry, also one for a grain of zeros. */
  lemma DataByte(d: SparseDisk, nr: nat, o: nat)
    requires DiskOk(d) && o < d.h.grainSize * 512 && Start(d.h, nr) + o < d.h.capacity * 512
    ensures nr < |d.gt|
    ensures C.HasData(d, Start(d.h, nr) + o) <==> d.gt[nr] != 0
  {
    hide DiskOk;
    var p, G := Start(d.h, nr) + o, d.h.grainSize * 512;
    ModUnique(p, G, nr, o);
    hide Start;
    PositionInGrain(d, p);
    EntriesCover(d);
  }

  /** A grain whose entry is 0 or 1 is all zeros, in any kind of file. */
  lemma EmptyGrain(c: Codec, d: SparseDisk, nr: nat, o: nat)
    requires DiskOk(d) && o < d.h.grainSize * 512 && Start(d.h, nr) + o < d.h.capacity * 512
    ensures nr < |d.gt|
    ensures d.gt[nr] == 0 || d.gt[nr] == 1 ==> Lookup(c, d, Start(d.h, nr) + o) == Some(0)
  {
    hide DiskOk, Lookup;
    ByteOfGrain(c, d, nr, o);
  }

  /** A byte of a plain grain is the file's, at its own distance from the start of the sector
      that the entry names; it cannot be read exactly when that is behind the end. */
  lemma PlainByte(c: Codec, d: SparseDisk, nr: nat, o: nat)
    requires DiskOk(d) && o < d.h.grainSize * 512 && Start(d.h, nr) + o < d.h.capacity * 512
    requires d.h.flags / 0x1_0000 % 2 == 0
    ensures nr < |d.gt|
    ensures d.gt[nr] > 1 ==>
              Lookup(c, d, Start(d.h, nr) + o) ==
                var at := d.gt[nr] * 512 + o;
                if at < |d.f| then Some(d.f[at]) else None
  {
    hide DiskOk, Lookup;
    ByteOfGrain(c, d, nr, o);
  }

  /** In-capacity bytes of a grain. */
  function GrainSpan(h: Header, nr: nat): nat {
    Min(h.grainSize * 512, Max(0, h.capacity * 512 - Start(h, nr)))
  }

  /** So reading a plain grain gives the bytes that lie there. */
  lemma PlainGrain(c: Codec, d: SparseDisk, nr: nat, data: seq<byte>)
    requires DiskOk(d) && d.h.flags / 0x1_0000 % 2 == 0 && nr < |d.gt| && d.gt[nr] > 1
    requires |data| == GrainSpan(d.h, nr) && HasAt(d.f, d.gt[nr] * 512, data)
    ensures ReadRange(c, d, Start(d.h, nr), |data|) == Some(data)
  {
    hide DiskOk, Lookup, HasAt;
    var at := Start(d.h, nr);
    forall i | 0 <= i < |data| ensures Lookup(c, d, at + i) == Some(data[i]) {
      HasAtByte(d.f, d.gt[nr] * 512, data, i);
      PlainByte(c, d, nr, i);
    }
    PrefixDone(c, d, at, |data|, data);
  }

  /** The header of a stored grain: an address of eight bytes if the flags say so, and a size
      of four. */
  function GrainHeader(h: Header): (n: nat)
    ensures n == 4 || n == 12
  {
    if h.flags / 0x2_0000 % 2 == 1 then 12 else 4
  }

  /** Header and deflated data of the grain stored at byte `s`. */
  function StoredSize(f: seq<byte>, h: Header, s: nat): nat
    requires s + 512 <= |f|
  {
    GrainHeader(h) + Word32(f, s + GrainHeader(h) - 4)
  }

  /** The sectors of a stored grain are in the file and not too many. */
  predicate StoredThere(f: seq<byte>, h: Header, s: nat) {
    s + 512 <= |f| && StoredSize(f, h, s) <= (h.grainSize + 1) * 512
    && s + RoundUp(StoredSize(f, h, s)) <= |f| && StoredSize(f, h, s) <= RoundUp(StoredSize(f, h, s))
  }

  /** A compressed grain in the file: its own address, if it has one, and behind the header
      what inflates to `data`. */
  predicate CompressedAt(c: Codec, f: seq<byte>, h: Header, sect: nat, lba: nat, data: seq<byte>) {
    var s := sect * 512;
    && StoredThere(f, h, s)
    && (GrainHeader(h) == 12 ==> Word64(f, s) == lba)
    && c.inflate(f[s + GrainHeader(h)..s + StoredSize(f, h, s)]) == Some(data)
    && |data| <= h.grainSize * 512
  }

  /** Every byte of a record that is written. */
  lemma RecordBytesAre(c: Codec, lba: nat, data: seq<byte>)
    requires lba < U64 && |c.deflate(data)| < U32
    ensures var r, z := Record(c, lba, data), c.deflate(data);
            && |r| == (12 + |z| + 511) / 512 * 512 >= 12 + |z|
            && Word64(r, 0) == lba && Word32(r, 8) == |z| && r[12..12 + |z|] == z
            && forall i :: 12 + |z| <= i < |r| ==> r[i] == 0
  {
    hide FromLE, Word64, Word32, LE;
    var r, z := Record(c, lba, data), c.deflate(data);
    RecordParts(c, lba, data);
    RoundUpParts(12 + |z|);
    EightBytes(r, 0);
    FourBytes(r, 8);
    forall i | 12 + |z| <= i < |r| ensures r[i] == 0 {
      assert r[i] == Zeros(Padding(12 + |z|))[i - 12 - |z|];
    }
  }

  lemma FirstSector(f: seq<byte>, h: Header, s: nat)
    requires s + 512 <= |f|
    ensures HeaderLength(h) == GrainHeader(h)
    ensures CompressedSize(h, f[s..s + 512]) + HeaderLength(h) == StoredSize(f, h, s)
    ensures FromLE(f[s..s + 512][0..8]) == Word64(f, s)
  {
    hide FromLE, Word32, Word64;
    HasAtPart(f, s, f[s..s + 512], 0, 4);
    HasAtPart(f, s, f[s..s + 512], 8, 12);
    HasAtPart(f, s, f[s..s + 512], 0, 8);
    FourBytes(f, s);
    FourBytes(f, s + 8);
    EightBytes(f, s);
  }

  lemma RoundUpParts(n: nat)
    requires n > 0
    ensures RoundUp(n) == (if n > SECTOR then SECTOR + RoundUp(n - SECTOR) else SECTOR) >= n
  {
  }

  lemma RecordIff(f: seq<byte>, h: Header, sect: nat)
    requires sect + 1 < U32
    ensures var s := sect * 512;
            RecordBytes(f, h, sect) ==
              if StoredThere(f, h, s) then Some(f[s..s + RoundUp(StoredSize(f, h, s))]) else None
  {
    hide FromLE, Word32, CompressedSize, HeaderLength, StoredSize, RoundUp;
    var s := sect * 512;
    if s + 512 <= |f| {
      var first, size := f[s..s + 512], StoredSize(f, h, s);
      FirstSector(f, h, s);
      SizePositive(f, h, s);
      RoundUpParts(size);
      var n := RoundUp(size);
      assert Add32(sect, 1) * SECTOR == s + SECTOR;
      if n > SECTOR && s + n <= |f| {
        assert first + f[s + SECTOR..s + n] == f[s..s + n];
      }
    }
  }

  /** Behind the last sector number comes sector 0: the rest of a grain at sector 2^32 - 1 is read
      from the start of the file. */
  lemma LastSectorWraps(f: seq<byte>, h: Header)
    requires h.grainSize <= 128
    ensures var s := 0xFFFF_FFFF * 512;
            s + 512 <= |f| && 512 < StoredSize(f, h, s) <= (h.grainSize + 1) * 512 ==>
              RecordBytes(f, h, 0xFFFF_FFFF) ==
                Some(f[s..s + 512] + f[..RoundUp(StoredSize(f, h, s)) - 512])
  {
    hide FromLE, Word32, CompressedSize, HeaderLength, StoredSize, RoundUp;
    var s := 0xFFFF_FFFF * 512;
    if s + 512 <= |f| && 512 < StoredSize(f, h, s) <= (h.grainSize + 1) * 512 {
      FirstSector(f, h, s);
      var size := StoredSize(f, h, s);
      RoundUpParts(size);
      RoundUpBelow(size);
      assert Add32(0xFFFF_FFFF, 1) == 0;
      var n := RoundUp(size);
      assert RecordSize(h, f[s..s + 512]) == Some(n);
      assert Pread(f, 0, n - 512) == Some(f[0..n - 512]);
      assert f[0..n - 512] == f[..n - 512];
    }
  }

  lemma RoundUpBelow(n: nat)
    ensures RoundUp(n) < n + 512
  {
  }

  lemma SizePositive(f: seq<byte>, h: Header, s: nat)
    requires s + 512 <= |f|
    ensures StoredSize(f, h, s) > 0
  {
  }

  /** What fetching a grain gives, exactly, for files of any origin. */
  lemma FetchIff(c: Codec, f: seq<byte>, h: Header, sect: nat, lba: nat, data: seq<byte>)
    requires sect + 1 < U32
    ensures FetchGrain(c, f, h, sect, lba) == Some(data) <==> CompressedAt(c, f, h, sect, lba, data)
  {
    hide FromLE, Word32, Word64, RecordBytes, RoundUp, CompressedSize, HeaderLength, StoredSize, GrainHeader,
      RecordSize;
    var s := sect * 512;
    RecordIff(f, h, sect);
    if StoredThere(f, h, s) {
      var size := StoredSize(f, h, s);
      var b, from := f[s..s + RoundUp(size)], GrainHeader(h);
      assert b[..SECTOR] == f[s..s + 512];
      FirstSector(f, h, s);
      AddressFlag(h);
      HasAtPart(f, s, b, from, size);
    }
  }

  lemma AddressFlag(h: Header)
    ensures HasEmbeddedLBA(h.flags) <==> GrainHeader(h) == 12
  {
  }

  /** Reading a compressed grain of any file gives what its stored bytes inflate to, and fails
      when that is short of the grain or nothing. */
  lemma CompressedGrain(c: Codec, d: SparseDisk, nr: nat, data: seq<byte>)
    requires DiskOk(d) && d.h.flags / 0x1_0000 % 2 == 1 && nr < |d.gt| && 1 < d.gt[nr] < U32 - 1
    requires GrainSpan(d.h, nr) > 0
    ensures var n, at := GrainSpan(d.h, nr), Start(d.h, nr);
            && (CompressedAt(c, d.f, d.h, d.gt[nr], nr * d.h.grainSize, data) ==>
                  ReadRange(c, d, at, n) == if |data| >= n then Some(data[..n]) else None)
            && ((forall x :: !CompressedAt(c, d.f, d.h, d.gt[nr], nr * d.h.grainSize, x)) ==>
                  ReadRange(c, d, at, n) == None)
  {
    hide DiskOk, Lookup, CompressedAt, FetchGrain, GrainLength, Start;
    var n, at, lba := GrainSpan(d.h, nr), Start(d.h, nr), nr * d.h.grainSize;
    var g := FetchGrain(c, d.f, d.h, d.gt[nr], lba);
    SpanIsLength(d, nr);
    assert IsCompressed(d.h.flags);
    if g.Some? { FetchIff(c, d.f, d.h, d.gt[nr], lba, g.value); }
    FetchIff(c, d.f, d.h, d.gt[nr], lba, data);
    if g.Some? && |g.value| >= n {
      forall i | 0 <= i < n ensures at + i < Capacity(d) && Lookup(c, d, at + i) == Some(g.value[..n][i]) {
        ByteOfGrain(c, d, nr, i);
      }
      assert at + (n - 1) < Capacity(d);
      PrefixDone(c, d, at, n, g.value[..n]);
    } else {
      ByteOfGrain(c, d, nr, 0);
      assert Lookup(c, d, at).None?;
    }
  }

  lemma SpanIsLength(d: SparseDisk, nr: nat)
    requires DiskOk(d)
    ensures GrainSpan(d.h, nr) == GrainLength(d, nr)
  {
    hide IsPow2, GrainBytes;
    GrainBytesAre(d);
    SpanArith(nr, d.h.grainSize * 512, d.g.lastGrainNr, d.g.lastGrainSize);
  }

  lemma SpanArith(nr: nat, G: nat, last: nat, lastSize: nat)
    requires lastSize < G
    ensures Min(G, Max(0, last * G + lastSize - nr * G)) ==
            if nr < last then G else if nr == last then lastSize else 0
  {
    var a, b := nr * G, last * G;
    if nr < last {
      MulMono(G, nr + 1, last);
      assert G * (nr + 1) == a + G && G * last == b;
    } else if nr > last {
      MulMono(G, last + 1, nr);
      assert G * (last + 1) == b + G && G * nr == a;
    }
  }

  lemma GrainBytesAre(d: SparseDisk)
    ensures GrainBytes(d) == d.h.grainSize * 512
  {
  }
}
