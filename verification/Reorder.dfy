// rewriteGrains: copy every stored grain into a new file in grain order.

module Reorder {
  import opened Bytes
  import opened Header
  import opened Grain
  import opened Layout
  import opened Journal

  /** The scan of areGrainsOrdered compares each stored entry with the stored one before it. */
  method AreGrainsOrdered(gt: array<nat>, n: nat) returns (ordered: bool)
    requires n <= gt.Length
    ensures ordered <==> Ordered(gt[..n])
    ensures ordered <==> forall i, j :: 0 <= i < j < n && gt[i] > 1 && gt[j] > 1 ==> gt[i] <= gt[j]
  {
    var lastValidSector := 0;
    var foundValid := false;
    ghost var last := 0;
    var i := 0;
    while i < n
      invariant i <= n
      invariant foundValid ==> last < i && gt[last] == lastValidSector > 1
      invariant forall j :: 0 <= j < i && gt[j] > 1 ==> foundValid && j <= last && gt[j] <= lastValidSector
      invariant Ordered(gt[..i])
    {
      var sector := gt[i];
      if sector > 1 {
        if foundValid && sector < lastValidSector {
          assert gt[..n][last] > gt[..n][i] > 1;
          return false;
        }
        lastValidSector, foundValid, last := sector, true, i;
      }
      i := i + 1;
    }
    ordered := true;
  }

  /** The new file's writes, the new entries so far, and the next free sector. */
  datatype Rewritten = Rewritten(log: seq<Op>, gt: seq<nat>, next: nat)

  /** The first `n` iterations of the rewrite loop; None once a read or size check fails. */
  function Rewrite(f: seq<byte>, h: Header, gt: seq<nat>, n: nat): (r: Option<Rewritten>)
    requires n <= |gt|
    ensures r.Some? ==> |r.value.gt| == n
  {
    if n == 0 then Some(Rewritten([], [], h.overHead))
    else
      match Rewrite(f, h, gt, n - 1)
      case None => None
      case Some(r) => RewriteOne(f, h, gt[n - 1], r)
  }

  function RewriteOne(f: seq<byte>, h: Header, sect: nat, r: Rewritten): (r': Option<Rewritten>)
    ensures r'.Some? ==> |r'.value.gt| == |r.gt| + 1 && |r.log| <= |r'.value.log|
  {
    if sect <= 1 then Some(r.(gt := r.gt + [sect]))
    else
      match RecordBytes(f, h, sect)
      case None => None
      case Some(b) =>
        Some(Rewritten(r.log + [Write(r.next * SECTOR, b)], r.gt + [r.next], Add32(r.next, |b| / SECTOR)))
  }

  /** Rewriting gives up exactly when a stored grain cannot be read, or is too large. */
  lemma {:induction false} RewriteIff(f: seq<byte>, h: Header, gt: seq<nat>, n: nat)
    requires n <= |gt|
    ensures Rewrite(f, h, gt, n).Some? <==> forall i :: 0 <= i < n && gt[i] > 1 ==> RecordBytes(f, h, gt[i]).Some?
  {
    hide RecordBytes;
    if n > 0 { RewriteIff(f, h, gt, n - 1); }
  }

  /** The loop of rewriteGrains; the target table starts zeroed and is filled in place.  The
      file system carries out `quota` more writes and fails the next one (`fault`). */
  method RewriteGrains(f: seq<byte>, h: Header, src: array<nat>, n: nat, dst: array<nat>, quota: nat)
    returns (ok: bool, fault: bool, log: seq<Op>, nextSector: nat, left: nat)
    requires src != dst && n <= src.Length == dst.Length
    modifies dst
    ensures ok <==> Rewrite(f, h, src[..], n).Some? && |Rewrite(f, h, src[..], n).value.log| <= quota
    ensures ok ==> var r := Rewrite(f, h, src[..], n).value;
                   log == r.log && dst[..n] == r.gt && nextSector == r.next && left == quota - |r.log|
    ensures !ok ==> (if fault then left == 0 else Rewrite(f, h, src[..], n).None?)
    ensures if fault then !ok && quota < n else quota <= left + n
    ensures dst[n..] == old(dst[n..])
  {
    hide RewriteOne;
    log, nextSector, left, fault := [], h.overHead, quota, false;
    var grainNr := 0;
    while grainNr < n
      invariant grainNr <= n && left == quota - |log| && |log| <= grainNr
      invariant Rewrite(f, h, src[..], grainNr) == Some(Rewritten(log, dst[..grainNr], nextSector))
      invariant dst[n..] == old(dst[n..])
    {
      var oldSector := src[grainNr];
      assert src[..][grainNr] == oldSector;
      OneRewritten(f, h, oldSector, Rewritten(log, dst[..grainNr], nextSector));
      RewriteOn(f, h, src[..], grainNr + 1, n);
      if oldSector <= 1 {
        dst[grainNr] := oldSector;
      } else {
        var record := RecordBytes(f, h, oldSector);
        if record.None? {
          ok := false;
          return;
        }
        if left == 0 {
          ok, fault := false, true;
          return;
        }
        left := left - 1;
        log := log + [Write(nextSector * SECTOR, record.value)];
        dst[grainNr] := nextSector;
        nextSector := Add32(nextSector, |record.value| / SECTOR);
      }
      assert dst[..grainNr + 1] == dst[..grainNr] + [dst[grainNr]];
      grainNr := grainNr + 1;
    }
    ok := true;
  }

  lemma OneRewritten(f: seq<byte>, h: Header, sect: nat, r: Rewritten)
    ensures RewriteOne(f, h, sect, r) ==
            if sect <= 1 then Some(r.(gt := r.gt + [sect]))
            else
              match RecordBytes(f, h, sect)
              case None => None
              case Some(b) =>
                Some(Rewritten(r.log + [Write(r.next * SECTOR, b)], r.gt + [r.next], Add32(r.next, |b| / SECTOR)))
  {
  }

  /** A failed iteration stays failed, and writes are not taken back. */
  lemma {:induction false} RewriteOn(f: seq<byte>, h: Header, gt: seq<nat>, m: nat, n: nat)
    requires m <= n <= |gt|
    ensures Rewrite(f, h, gt, n).Some? ==>
              Rewrite(f, h, gt, m).Some? && |Rewrite(f, h, gt, m).value.log| <= |Rewrite(f, h, gt, n).value.log|
  {
    hide RewriteOne;
    if m < n {
      RewriteOn(f, h, gt, m, n - 1);
    }
  }

  // ----- any image: what the rewrite keeps -----

  /** Sectors that the stored grains of the first `n` entries take. */
  function Space(f: seq<byte>, h: Header, gt: seq<nat>, n: nat): nat
    requires n <= |gt|
  {
    if n == 0 then 0 else Space(f, h, gt, n - 1) + EntrySpace(f, h, gt[n - 1])
  }

  function EntrySpace(f: seq<byte>, h: Header, sect: nat): nat {
    if sect <= 1 then 0
    else
      match RecordBytes(f, h, sect)
      case None => 0
      case Some(b) => |b| / SECTOR
  }

  /** Entry `i` of the new table: empty and zero entries are kept; a stored grain's bytes
      have been moved behind all earlier ones. */
  predicate Moved(f: seq<byte>, h: Header, sect: nat, r: Rewritten, i: nat)
    requires i < |r.gt|
  {
    if sect <= 1 then r.gt[i] == sect
    else
      && RecordBytes(f, h, sect).Some?
      && h.overHead <= r.gt[i] && r.gt[i] * SECTOR + |RecordBytes(f, h, sect).value| <= r.next * SECTOR
      && HasAt(Content(r.log), r.gt[i] * SECTOR, RecordBytes(f, h, sect).value)
  }

  /** Every stored grain is moved; the new entries increase strictly and the cursor ends
      exactly behind what is stored. */
  lemma {:induction false} RewriteMoves(f: seq<byte>, h: Header, gt: seq<nat>, n: nat)
    requires n <= |gt| && Rewrite(f, h, gt, n).Some? && h.overHead + Space(f, h, gt, n) < U32
    ensures var r := Rewrite(f, h, gt, n).value;
            && r.next == h.overHead + Space(f, h, gt, n)
            && (forall i :: 0 <= i < n ==> Moved(f, h, gt[i], r, i))
            && (forall i, j :: 0 <= i < j < n && gt[i] > 1 && gt[j] > 1 ==> r.gt[i] < r.gt[j])
            && WritesIn(h.overHead, r.next, r.log)
  {
    hide Moved, RewriteOne, RecordBytes, EntrySpace;
    if n > 0 {
      RewriteMoves(f, h, gt, n - 1);
      var r := Rewrite(f, h, gt, n - 1).value;
      MoveOne(f, h, gt, n, r);
      forall j | 0 <= j < n - 1 && gt[j] > 1 ensures r.gt[j] < r.next { MovedBelow(f, h, gt[j], r, j); }
    }
  }

  /** A later iteration writes behind what entry `i` names. */
  lemma MovedKept(f: seq<byte>, h: Header, sect: nat, r: Rewritten, r': Rewritten, i: nat)
    requires i < |r.gt| && Moved(f, h, sect, r, i) && r.gt <= r'.gt && r.next <= r'.next
    requires r'.log == r.log || exists data :: r'.log == r.log + [Write(r.next * SECTOR, data)]
    ensures Moved(f, h, sect, r', i)
  {
    hide RecordBytes, Content;
    if sect > 1 && r'.log != r.log {
      var data :| r'.log == r.log + [Write(r.next * SECTOR, data)];
      ContentAppend(r.log, Write(r.next * SECTOR, data));
      PwriteKeeps(Content(r.log), r.next * SECTOR, data, r.gt[i] * SECTOR, RecordBytes(f, h, sect).value);
    }
  }

  lemma MovedBelow(f: seq<byte>, h: Header, sect: nat, r: Rewritten, i: nat)
    requires i < |r.gt| && sect > 1 && Moved(f, h, sect, r, i)
    ensures r.gt[i] < r.next
  {
    hide RecordBytes, Content, HasAt;
  }

  /** The entry made by an iteration names what it wrote. */
  lemma MovedNew(f: seq<byte>, h: Header, sect: nat, r: Rewritten)
    requires sect > 1 && RewriteOne(f, h, sect, r).Some?
    requires h.overHead <= r.next && r.next + EntrySpace(f, h, sect) < U32 && WritesIn(h.overHead, r.next, r.log)
    ensures var r' := RewriteOne(f, h, sect, r).value;
            && r'.next == r.next + EntrySpace(f, h, sect) > r.next && Moved(f, h, sect, r', |r.gt|)
            && r'.gt == r.gt + [r.next] && WritesIn(h.overHead, r'.next, r'.log)
            && exists data :: r'.log == r.log + [Write(r.next * SECTOR, data)]
  {
    hide RecordBytes, Content;
    var b := RecordBytes(f, h, sect).value;
    ContentAppend(r.log, Write(r.next * SECTOR, b));
    PwriteHas(Content(r.log), r.next * SECTOR, b);
    assert RewriteOne(f, h, sect, r).value.log == r.log + [Write(r.next * SECTOR, b)];
  }

  lemma MoveOne(f: seq<byte>, h: Header, gt: seq<nat>, n: nat, r: Rewritten)
    requires 0 < n <= |gt| && Rewrite(f, h, gt, n).Some? && Rewrite(f, h, gt, n - 1) == Some(r)
    requires h.overHead <= r.next && r.next + EntrySpace(f, h, gt[n - 1]) < U32 && WritesIn(h.overHead, r.next, r.log)
    requires forall i :: 0 <= i < n - 1 ==> Moved(f, h, gt[i], r, i)
    ensures var r' := Rewrite(f, h, gt, n).value;
            && r'.next == r.next + EntrySpace(f, h, gt[n - 1])
            && r'.gt == r.gt + [if gt[n - 1] <= 1 then gt[n - 1] else r.next]
            && WritesIn(h.overHead, r'.next, r'.log)
            && (forall i :: 0 <= i < n ==> Moved(f, h, gt[i], r', i))
  {
    hide Moved, RecordBytes, RewriteOne, EntrySpace, WritesIn;
    var sect, r' := gt[n - 1], Rewrite(f, h, gt, n).value;
    assert RewriteOne(f, h, sect, r) == Some(r');
    if sect > 1 { MovedNew(f, h, sect, r); } else { SkippedEntry(f, h, sect, r); }
    forall i | 0 <= i < n - 1 ensures Moved(f, h, gt[i], r', i) {
      assert Moved(f, h, gt[i], r, i);
      MovedKept(f, h, gt[i], r, r', i);
    }
  }

  lemma SkippedEntry(f: seq<byte>, h: Header, sect: nat, r: Rewritten)
    requires sect <= 1
    ensures EntrySpace(f, h, sect) == 0 && RewriteOne(f, h, sect, r) == Some(r.(gt := r.gt + [sect]))
    ensures Moved(f, h, sect, r.(gt := r.gt + [sect]), |r.gt|)
  {
  }

  /** rewriteGrains preserves meaning, for any image whose stored grains fit: every grain
      read through the new table and file is what the old ones give, empty and zero entries
      are kept, the new entries are strictly increasing from overHead, and the cursor ends
      exactly behind what is stored. */
  lemma RewritePreserves(c: Codec, f: seq<byte>, h: Header, gt: seq<nat>, n: nat, i: nat, lba: nat)
    requires i < n <= |gt| && Rewrite(f, h, gt, n).Some?
    requires h.overHead > 1 && h.overHead + Space(f, h, gt, n) < U32
    ensures var r := Rewrite(f, h, gt, n).value;
            && (gt[i] <= 1 ==> r.gt[i] == gt[i])
            && (gt[i] > 1 ==> r.gt[i] >= h.overHead)
            && (gt[i] > 1 ==> FetchGrain(c, Content(r.log), h, r.gt[i], lba) == FetchGrain(c, f, h, gt[i], lba))
            && (forall j :: i < j < n && gt[i] > 1 && gt[j] > 1 ==> r.gt[i] < r.gt[j])
            && r.next == h.overHead + Space(f, h, gt, n)
  {
    hide Rewrite, FetchGrain, RecordBytes, Content, HasAt, Space;
    RewriteMoves(f, h, gt, n);
    var r := Rewrite(f, h, gt, n).value;
    assert Moved(f, h, gt[i], r, i);
    if gt[i] > 1 {
      Relocate(c, h, f, gt[i], Content(r.log), r.gt[i], lba);
    }
  }
}
