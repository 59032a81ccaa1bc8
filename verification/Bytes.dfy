// Bytes, little-endian words, and files as byte sequences.

module Bytes {
  newtype byte = b: int | 0 <= b < 256

  const SECTOR: nat := 512
  const U32: nat := 0x1_0000_0000
  const U64: nat := 0x1_0000_0000_0000_0000

  datatype Option<+T> = None | Some(value: T)

  function Min(a: int, b: int): int {
    if a <= b then a else b
  }

  function Max(a: int, b: int): int {
    if a <= b then b else a
  }

  function Zeros(n: nat): (s: seq<byte>)
    ensures |s| == n
  {
    seq(n, _ => 0)
  }

  function CeilDiv(x: nat, y: nat): nat
    requires y > 0
  {
    (x + y - 1) / y
  }

  /** 32-bit addition, wrapping. */
  function Add32(a: nat, b: nat): nat {
    (a + b) % U32
  }

  /** Bytes rounded up to whole sectors. */
  function RoundUp(x: nat): nat {
    CeilDiv(x, SECTOR) * SECTOR
  }

  // ----- little-endian words -----

  function Pow256(w: nat): (p: nat)
    ensures p > 0
  {
    if w == 0 then 1 else 256 * Pow256(w - 1)
  }

  function LE(n: nat, w: nat): (s: seq<byte>)
    ensures |s| == w
  {
    if w == 0 then [] else [(n % 256) as byte] + LE(n / 256, w - 1)
  }

  function FromLE(s: seq<byte>): nat {
    if s == [] then 0 else s[0] as nat + 256 * FromLE(s[1..])
  }

  /** Reading back a stored word gives it back when it fits the width. */
  lemma {:induction false} LERoundTrip(n: nat, w: nat)
    requires n < Pow256(w)
    ensures FromLE(LE(n, w)) == n
  {
    if w > 0 {
      assert LE(n, w)[1..] == LE(n / 256, w - 1);
      LERoundTrip(n / 256, w - 1);
    }
  }

  lemma Widths()
    ensures Pow256(1) == 256 && Pow256(2) == 0x1_0000 && Pow256(4) == U32 && Pow256(8) == U64
  {
    assert Pow256(3) == 0x100_0000;
    assert Pow256(4) == 0x1_0000_0000;
    assert Pow256(5) == 0x100_0000_0000;
    assert Pow256(6) == 0x1_0000_0000_0000;
    assert Pow256(7) == 0x100_0000_0000_0000;
  }

  lemma LE16(n: nat)
    requires n < 0x1_0000
    ensures FromLE(LE(n, 2)) == n
  {
    Widths();
    LERoundTrip(n, 2);
  }

  lemma LE32(n: nat)
    requires n < U32
    ensures FromLE(LE(n, 4)) == n
  {
    Widths();
    LERoundTrip(n, 4);
  }

  lemma LE64(n: nat)
    requires n < U64
    ensures FromLE(LE(n, 8)) == n
  {
    Widths();
    LERoundTrip(n, 8);
  }

  /** An array of 32-bit little-endian words. */
  function EncodeWords(ws: seq<nat>): (s: seq<byte>)
    ensures |s| == 4 * |ws|
  {
    if ws == [] then [] else EncodeWords(ws[..|ws| - 1]) + LE(ws[|ws| - 1], 4)
  }

  function DecodeWords(s: seq<byte>): (ws: seq<nat>)
    ensures |ws| == |s| / 4
  {
    seq(|s| / 4, i requires 0 <= i < |s| / 4 => FromLE(s[4 * i..4 * i + 4]))
  }

  lemma {:induction false} EncodeWordsAt(ws: seq<nat>, i: nat)
    requires i < |ws|
    ensures EncodeWords(ws)[4 * i..4 * i + 4] == LE(ws[i], 4)
  {
    var n := |ws| - 1;
    var front := EncodeWords(ws[..n]);
    if i < n {
      EncodeWordsAt(ws[..n], i);
      assert EncodeWords(ws)[4 * i..4 * i + 4] == front[4 * i..4 * i + 4];
    }
  }

  lemma WordsRoundTrip(ws: seq<nat>)
    requires forall i :: 0 <= i < |ws| ==> ws[i] < U32
    ensures DecodeWords(EncodeWords(ws)) == ws
  {
    var d := DecodeWords(EncodeWords(ws));
    forall i | 0 <= i < |ws| ensures d[i] == ws[i] {
      EncodeWordsAt(ws, i);
      LE32(ws[i]);
    }
  }

  lemma {:induction false} EncodeZeros(ws: seq<nat>)
    requires forall i :: 0 <= i < |ws| ==> ws[i] == 0
    ensures EncodeWords(ws) == Zeros(4 * |ws|)
  {
    if ws != [] {
      EncodeZeros(ws[..|ws| - 1]);
      assert LE(0, 3) == [0, 0, 0];
      assert LE(0, 4) == [0, 0, 0, 0];
    }
  }

  // ----- files -----

  /** pwrite: bytes between the old end of file and `pos` read as zero. */
  function Pwrite(f: seq<byte>, pos: nat, data: seq<byte>): (g: seq<byte>)
    ensures |data| > 0 ==> |g| == Max(|f|, pos + |data|)
  {
    if data == [] then f
    else seq(Max(|f|, pos + |data|),
             i requires 0 <= i < Max(|f|, pos + |data|) =>
               if pos <= i < pos + |data| then data[i - pos]
               else if i < |f| then f[i] else 0)
  }

  /** safePread: all `len` bytes or nothing. */
  function Pread(f: seq<byte>, pos: nat, len: nat): Option<seq<byte>> {
    if pos + len <= |f| then Some(f[pos..pos + len]) else None
  }

  predicate HasAt(f: seq<byte>, pos: nat, data: seq<byte>) {
    pos + |data| <= |f| && f[pos..pos + |data|] == data
  }

  lemma PwriteHas(f: seq<byte>, pos: nat, data: seq<byte>)
    requires data != [] || pos <= |f|
    ensures HasAt(Pwrite(f, pos, data), pos, data)
    ensures |f| <= |Pwrite(f, pos, data)|
  {
  }

  lemma PwriteKeeps(f: seq<byte>, pos: nat, data: seq<byte>, p: nat, d: seq<byte>)
    requires HasAt(f, p, d)
    requires p + |d| <= pos || pos + |data| <= p
    ensures HasAt(Pwrite(f, pos, data), p, d)
  {
    var g := Pwrite(f, pos, data);
    if data != [] {
      forall i | 0 <= i < |d| ensures g[p..p + |d|][i] == d[i] {
        assert g[p + i] == f[p + i] == f[p..p + |d|][i];
      }
    }
  }

  lemma HasAtByte(f: seq<byte>, pos: nat, data: seq<byte>, i: nat)
    requires HasAt(f, pos, data) && i < |data|
    ensures pos + i < |f| && f[pos + i] == data[i]
  {
    assert f[pos..pos + |data|][i] == data[i];
  }

  lemma HasAtFits(f: seq<byte>, pos: nat, data: seq<byte>)
    requires HasAt(f, pos, data)
    ensures pos + |data| <= |f|
  {
  }

  lemma HasAtPart(f: seq<byte>, pos: nat, data: seq<byte>, lo: nat, hi: nat)
    requires HasAt(f, pos, data) && lo <= hi <= |data|
    ensures f[pos + lo..pos + hi] == data[lo..hi]
  {
    forall i | 0 <= i < hi - lo ensures f[pos + lo..pos + hi][i] == data[lo..hi][i] {
      assert data[lo + i] == f[pos..pos + |data|][lo + i];
    }
  }
}
