// Enumerating the data of a sparse disk, and copying it to a flat one.

module Copy {
  import opened Bytes
  import opened Bits
  import opened Grain
  import opened Reader

  /** First non-empty entry from `i` on, or `n`. */
  function FirstData(gt: seq<nat>, i: nat, n: nat): (j: nat)
    requires i <= n <= |gt|
    ensures i <= j <= n && (j < n ==> gt[j] != 0) && forall k :: i <= k < j ==> gt[k] == 0
    decreases n - i
  {
    if i == n || gt[i] != 0 then i else FirstData(gt, i + 1, n)
  }

  /** First empty entry from `i` on, or `n`. */
  function FirstHole(gt: seq<nat>, i: nat, n: nat): (j: nat)
    requires i <= n <= |gt|
    ensures i <= j <= n && (j < n ==> gt[j] == 0) && forall k :: i <= k < j ==> gt[k] != 0
    decreases n - i
  {
    if i == n || gt[i] == 0 then i else FirstHole(gt, i + 1, n)
  }

  datatype Run = Run(pos: nat, end: nat)

  /** SparseNextData: the next run of data at or behind `end`; None is ENXIO. */
  function NextRun(d: SparseDisk, end: nat): Option<Run>
    requires DiskOk(d)
  {
    RunFrom(d, NrOf(d, end) % U32, OffsetOf(d, end))
  }

  function RunFrom(d: SparseDisk, nr: nat, skip: nat): Option<Run>
    requires d.g.GTEs <= |d.gt|
  {
    var n := d.g.GTEs;
    var i := FirstData(d.gt, Min(nr, n), n);
    if i >= n then None
    else
      var j := FirstHole(d.gt, i, n);
      Some(Run(At(d, i, if i == nr then skip else 0), if j < n then At(d, j, 0) else Capacity(d)))
  }

  /** The loop of SparseNextData. */
  method SparseNextData(d: SparseDisk, end: nat) returns (r: Option<Run>)
    requires DiskOk(d)
    ensures r == NextRun(d, end)
  {
    var n := d.g.GTEs;
    var nr := NrOf(d, end) % U32;
    var grainNr: nat, skip: nat := nr, And(end, GrainBytes(d) - 1);
    PositionMask(d, end);
    var pos: nat, want := 0, false;
    ghost var i := FirstData(d.gt, Min(nr, n), n);
    assert At(d, d.g.lastGrainNr, d.g.lastGrainSize) == Capacity(d);
    hide DiskOk, GrainBytes, Or, OffsetOf, NrOf, At, And, Capacity;
    while grainNr < n
      invariant nr <= grainNr && (nr <= n ==> grainNr <= n)
      invariant skip == (if grainNr == nr then OffsetOf(d, end) else 0) && skip < GrainBytes(d)
      invariant !want ==> (grainNr <= n ==> FirstData(d.gt, grainNr, n) == i) && (nr > n ==> i == n)
      invariant want ==> nr <= i < grainNr <= n && pos == At(d, i, if i == nr then OffsetOf(d, end) else 0)
      invariant want ==> FirstHole(d.gt, i, n) == FirstHole(d.gt, grainNr, n)
    {
      var empty := d.gt[grainNr] == 0;
      if empty == want {
        if want {
          return Some(Run(pos, At(d, grainNr, 0)));
        }
        OrIsAt(d, grainNr, skip);
        pos := Or(At(d, grainNr, 0), skip);
        want := true;
      }
      skip := 0;
      grainNr := grainNr + 1;
    }
    if want {
      return Some(Run(pos, At(d, d.g.lastGrainNr, d.g.lastGrainSize)));
    }
    r := None;
  }

  lemma OrIsAt(d: SparseDisk, nr: nat, skip: nat)
    requires DiskOk(d) && skip < GrainBytes(d)
    ensures Or(At(d, nr, 0), skip) == At(d, nr, skip)
  {
    GrainBytesPow2(d.h.grainSize);
    OrIsSum(nr, GrainBytes(d), skip);
  }

  /** Byte `p` belongs to a grain with a non-empty entry. */
  predicate HasData(d: SparseDisk, p: nat)
    requires DiskOk(d) && p < Capacity(d)
  {
    PositionInGrain(d, p);
    d.gt[NrOf(d, p)] != 0
  }

  /** The enumeration ends: the capacity is a whole number of grains or the last, partial
      grain is empty. */
  predicate Enumerable(d: SparseDisk)
    requires DiskOk(d)
  {
    d.g.lastGrainSize == 0 || d.gt[d.g.lastGrainNr] == 0
  }

  lemma NrBounds(d: SparseDisk, p: nat)
    requires DiskOk(d)
    ensures At(d, NrOf(d, p), 0) <= p < At(d, NrOf(d, p) + 1, 0)
    ensures p == At(d, NrOf(d, p), OffsetOf(d, p))
  {
    DivMod(p, GrainBytes(d));
  }

  lemma DivMod(p: nat, G: nat)
    requires G > 0
    ensures p / G * G <= p == p / G * G + p % G < (p / G + 1) * G
  {
  }

  lemma AtMono(d: SparseDisk, i: nat, j: nat)
    requires i <= j
    ensures At(d, i, 0) <= At(d, j, 0)
    ensures GrainBytes(d) > 0 && i < j ==> At(d, i, 0) < At(d, j, 0)
  {
    MulMono(GrainBytes(d), i, j);
    if i < j { MulMono(GrainBytes(d), i + 1, j); }
  }

  /** Which grain a position is in, by where the grains start. */
  lemma NrByStarts(d: SparseDisk, p: nat, i: nat)
    requires DiskOk(d)
    ensures NrOf(d, p) < i <==> p < At(d, i, 0)
  {
    var q := NrOf(d, p);
    NrBounds(d, p);
    hide DiskOk, NrOf, At, OffsetOf;
    if q < i { AtMono(d, q + 1, i); } else { AtMono(d, i, q); }
  }

  lemma GrainsCover(d: SparseDisk)
    requires DiskOk(d)
    ensures At(d, d.g.lastGrainNr, 0) + d.g.lastGrainSize == Capacity(d) <= At(d, d.g.GTEs, 0)
    ensures d.g.GTEs > 0 && d.g.lastGrainSize == 0 ==> At(d, d.g.GTEs, 0) == Capacity(d)
    ensures forall i :: 0 <= i < d.g.GTEs ==> At(d, i, 0) < Capacity(d)
  {
    forall i | 0 <= i < d.g.GTEs ensures At(d, i, 0) < Capacity(d) {
      AtMono(d, i, d.g.lastGrainNr);
    }
  }

  /** The position the enumeration reports data at, and where that data ends. */
  ghost predicate RunOk(d: SparseDisk, from: nat, r: Run)
    requires DiskOk(d)
  {
    && from <= r.pos <= r.end <= Capacity(d)
    && (forall p :: from <= p < r.pos ==> !HasData(d, p))
    && (forall p :: r.pos <= p < r.end ==> HasData(d, p))
    && (r.end < Capacity(d) ==> !HasData(d, r.end))
    && (r.pos == r.end ==> r.pos == Capacity(d))
  }

  lemma DiskShape(d: SparseDisk)
    requires DiskOk(d)
    ensures d.g.GTEs < U32 && d.g.GTEs <= |d.gt| && GrainBytes(d) > 0
    ensures d.g.GTEs == d.g.lastGrainNr + (if d.g.lastGrainSize != 0 then 1 else 0)
    ensures Capacity(d) == d.g.lastGrainNr * GrainBytes(d) + d.g.lastGrainSize
    ensures d.g.lastGrainSize < GrainBytes(d)
  {
    hide IsPow2, Capacity;
  }

  lemma NextRunFrom(d: SparseDisk, end: nat)
    requires DiskOk(d) && NrOf(d, end) < U32
    ensures d.g.GTEs <= |d.gt| && NextRun(d, end) == RunFrom(d, NrOf(d, end), OffsetOf(d, end))
  {
    hide DiskOk, NrOf, OffsetOf, RunFrom;
    DiskShape(d);
  }

  /** The call at the capacity: the end of the enumeration, or the same empty run over and
      over when a partial last grain is not empty. */
  lemma NextRunAtCapacity(d: SparseDisk)
    requires DiskOk(d)
    ensures NextRun(d, Capacity(d)) == if Enumerable(d) then None else Some(Run(Capacity(d), Capacity(d)))
  {
    hide DiskOk, NextRun, NrOf, OffsetOf, Capacity, GrainBytes, At;
    var last := d.g.lastGrainNr;
    CapacityPosition(d);
    DiskShape(d);
    NextRunFrom(d, Capacity(d));
    if Enumerable(d) {
      assert FirstData(d.gt, last, d.g.GTEs) == d.g.GTEs;
    } else {
      assert FirstData(d.gt, last, d.g.GTEs) == last && FirstHole(d.gt, last, d.g.GTEs) == d.g.GTEs;
    }
  }

  lemma CapacityPosition(d: SparseDisk)
    requires DiskOk(d)
    ensures NrOf(d, Capacity(d)) == d.g.lastGrainNr && OffsetOf(d, Capacity(d)) == d.g.lastGrainSize
    ensures At(d, d.g.lastGrainNr, d.g.lastGrainSize) == Capacity(d)
  {
    hide IsPow2, Capacity;
    ModUnique(Capacity(d), GrainBytes(d), d.g.lastGrainNr, d.g.lastGrainSize);
  }

  /** One call, from any position below the capacity: the next maximal run of data, or ENXIO
      exactly when there is no more data. */
  lemma NextRunExact(d: SparseDisk, from: nat)
    requires DiskOk(d) && from < Capacity(d)
    ensures match NextRun(d, from)
            case None => forall p :: from <= p < Capacity(d) ==> !HasData(d, p)
            case Some(r) => RunOk(d, from, r) && r.pos < r.end
  {
    hide DiskOk, NextRun, NrOf, OffsetOf, At, RunOk, Capacity, GrainBytes, HasData;
    PositionInGrain(d, from);
    DiskShape(d);
    var n, nr := d.g.GTEs, NrOf(d, from);
    NextRunFrom(d, from);
    var i := FirstData(d.gt, nr, n);
    if i < n {
      RunInside(d, from, i, FirstHole(d.gt, i, n));
    } else {
      NothingLeft(d, from);
    }
  }

  lemma NothingLeft(d: SparseDisk, from: nat)
    requires DiskOk(d) && forall k :: NrOf(d, from) <= k < d.g.GTEs ==> d.gt[k] == 0
    ensures forall p :: from <= p < Capacity(d) ==> !HasData(d, p)
  {
    forall p | from <= p < Capacity(d) ensures !HasData(d, p) {
      PositionInGrain(d, p);
      NrByStarts(d, p, NrOf(d, from));
      NrBounds(d, from);
    }
  }

  lemma RunInside(d: SparseDisk, from: nat, i: nat, j: nat)
    requires DiskOk(d) && from <= Capacity(d) && NrOf(d, from) <= i < j <= d.g.GTEs
    requires j < d.g.GTEs ==> d.gt[j] == 0
    requires forall k :: i <= k < j ==> d.gt[k] != 0
    requires forall k :: NrOf(d, from) <= k < i ==> d.gt[k] == 0
    ensures var r := Run(At(d, i, if i == NrOf(d, from) then OffsetOf(d, from) else 0),
                         if j < d.g.GTEs then At(d, j, 0) else Capacity(d));
            RunOk(d, from, r) && (from < Capacity(d) ==> r.pos < r.end)
  {
    hide DiskOk, Capacity, GrainBytes, NrOf, OffsetOf;
    DiskShape(d);
    var nr, n := NrOf(d, from), d.g.GTEs;
    var pos := At(d, i, if i == nr then OffsetOf(d, from) else 0);
    var end := if j < n then At(d, j, 0) else Capacity(d);
    GrainsCover(d);
    NrBounds(d, from);
    AtMono(d, i, j);
    AtMono(d, i + 1, j);
    if nr < i { AtMono(d, nr + 1, i); }
    NrByStarts(d, end, j);
    NrByStarts(d, end, j + 1);
    AtMono(d, j, j + 1);
    forall p | from <= p < pos ensures p < Capacity(d) && !HasData(d, p) {
      NrByStarts(d, p, i);
      NrByStarts(d, p, nr);
    }
    forall p | pos <= p < end ensures HasData(d, p) {
      NrByStarts(d, p, i);
      NrByStarts(d, p, j);
      PositionInGrain(d, p);
    }
  }

  /** The grain number is kept in 32 bits here too: 2^32 grains further the enumeration finds
      the same runs again. */
  lemma FarDataWraps(d: SparseDisk, end: nat)
    requires DiskOk(d)
    ensures NextRun(d, At(d, U32, end)) == NextRun(d, end)
  {
    hide RunFrom, Capacity, GrainBytes, DiskOk;
    DiskShape(d);
    FarGrain(end, GrainBytes(d));
  }

  lemma FarGrain(end: nat, G: nat)
    requires G > 0
    ensures (U32 * G + end) / G % U32 == end / G % U32 && (U32 * G + end) % G == end % G
  {
    var q, r := end / G, end % G;
    assert end == G * q + r;
    assert U32 * G + end == G * (U32 + q) + r;
    ModUnique(U32 * G + end, G, U32 + q, r);
    ModUnique(U32 + q, U32, q / U32 + 1, q % U32);
  }

  // ----- the whole enumeration -----

  /** `*end` after `k` successful calls from 0; None once a call has reported ENXIO. */
  function EndAfter(d: SparseDisk, k: nat): Option<nat>
    requires DiskOk(d)
  {
    if k == 0 then Some(0)
    else
      match EndAfter(d, k - 1)
      case None => None
      case Some(e) => match NextRun(d, e) case None => None case Some(r) => Some(r.end)
  }

  /** With a non-empty partial last grain no call ever reports ENXIO; otherwise every
      successful call moves on. */
  lemma {:induction false} EndMoves(d: SparseDisk, k: nat)
    requires DiskOk(d)
    ensures match EndAfter(d, k)
            case None => Enumerable(d)
            case Some(e) => Min(k, Capacity(d)) <= e <= Capacity(d) && (Enumerable(d) ==> k <= e)
  {
    if k > 0 {
      EndMoves(d, k - 1);
      var e := EndAfter(d, k - 1);
      hide DiskOk, Enumerable, RunOk, Capacity, NextRun;
      if e.Some? {
        NextEnd(d, e.value);
      }
    }
  }

  lemma NextEnd(d: SparseDisk, from: nat)
    requires DiskOk(d) && from <= Capacity(d)
    ensures match NextRun(d, from)
            case None => Enumerable(d)
            case Some(r) => from <= r.end <= Capacity(d) && (from < Capacity(d) ==> from < r.end)
                            && (from == Capacity(d) ==> !Enumerable(d))
  {
    if from < Capacity(d) {
      NextRunExact(d, from);
      hide NextRun, NrOf, HasData, IsPow2;
      if NextRun(d, from).None? && d.g.lastGrainSize != 0 {
        assert !HasData(d, Capacity(d) - 1);
        LastByte(d);
      }
    } else {
      NextRunAtCapacity(d);
    }
  }

  lemma LastByte(d: SparseDisk)
    requires DiskOk(d) && d.g.lastGrainSize != 0
    ensures Capacity(d) > 0 && HasData(d, Capacity(d) - 1) == (d.gt[d.g.lastGrainNr] != 0)
  {
    hide DiskOk, Capacity, GrainBytes;
    DiskShape(d);
    ModUnique(Capacity(d) - 1, GrainBytes(d), d.g.lastGrainNr, d.g.lastGrainSize - 1);
  }

  /** The enumeration from 0 ends exactly when the capacity is a whole number of grains or
      the partial last grain is empty; otherwise it repeats the empty run at the capacity. */
  lemma EnumerationEndsIff(d: SparseDisk)
    requires DiskOk(d)
    ensures (exists k: nat :: EndAfter(d, k).None?) <==> Enumerable(d)
    ensures !Enumerable(d) ==> forall k: nat :: k >= Capacity(d) ==>
              EndAfter(d, k) == Some(Capacity(d)) && NextRun(d, Capacity(d)) == Some(Run(Capacity(d), Capacity(d)))
  {
    hide DiskOk, Enumerable, NextRun, Capacity;
    forall k: nat ensures EndAfter(d, k).None? ==> Enumerable(d) {
      EndMoves(d, k);
    }
    if Enumerable(d) {
      var k := Capacity(d) + 1;
      EndMoves(d, k);
      assert EndAfter(d, k).None?;
      assert exists k: nat :: EndAfter(d, k).None?;
    } else {
      NextRunAtCapacity(d);
      forall k: nat | k >= Capacity(d) ensures EndAfter(d, k) == Some(Capacity(d)) {
        EndMoves(d, k);
      }
    }
  }

  /** The runs reported from position `from` on. */
  function Runs(d: SparseDisk, from: nat): (rs: seq<Run>)
    requires DiskOk(d) && Enumerable(d) && from <= Capacity(d)
    decreases Capacity(d) - from
  {
    NextEnd(d, from);
    match NextRun(d, from)
    case None => []
    case Some(r) => [r] + Runs(d, r.end)
  }

  /** Non-empty runs, each strictly behind the one before, from `from` to the capacity. */
  predicate Ascending(d: SparseDisk, from: nat, rs: seq<Run>) {
    && (forall i :: 0 <= i < |rs| ==> from <= rs[i].pos < rs[i].end <= Capacity(d))
    && (forall i, j :: 0 <= i < j < |rs| ==> rs[i].end < rs[j].pos)
  }

  predicate InRuns(rs: seq<Run>, p: nat) {
    exists i :: 0 <= i < |rs| && rs[i].pos <= p < rs[i].end
  }

  /** The enumeration reports exactly the data: ascending, disjoint, non-empty, maximal runs
      (a gap lies between any two) whose union is the bytes of the non-empty grains. */
  lemma {:induction false} RunsAreData(d: SparseDisk, from: nat)
    requires DiskOk(d) && Enumerable(d) && from <= Capacity(d)
    ensures Ascending(d, from, Runs(d, from))
    ensures forall p :: from <= p < Capacity(d) ==> (HasData(d, p) <==> InRuns(Runs(d, from), p))
    decreases Capacity(d) - from
  {
    NextEnd(d, from);
    if from < Capacity(d) { NextRunExact(d, from); } else { NextRunAtCapacity(d); }
    hide DiskOk, NextRun, HasData, Enumerable, Capacity, Ascending, InRuns;
    if NextRun(d, from).Some? {
      var r := NextRun(d, from).value;
      RunsAreData(d, r.end);
      JoinRuns(d, from, r, Runs(d, r.end));
    } else {
      NoRuns(d, from);
    }
  }

  lemma NoRuns(d: SparseDisk, from: nat)
    ensures Ascending(d, from, []) && forall p :: !InRuns([], p)
  {
  }

  lemma JoinRuns(d: SparseDisk, from: nat, r: Run, rest: seq<Run>)
    requires DiskOk(d) && RunOk(d, from, r) && r.pos < r.end
    requires Ascending(d, r.end, rest)
    requires forall p :: r.end <= p < Capacity(d) ==> (HasData(d, p) <==> InRuns(rest, p))
    ensures Ascending(d, from, [r] + rest)
    ensures forall p :: from <= p < Capacity(d) ==> (HasData(d, p) <==> InRuns([r] + rest, p))
  {
    hide DiskOk, HasData, Capacity;
    var rs := [r] + rest;
    forall j | 0 <= j < |rest| ensures r.end < rest[j].pos {
      assert InRuns(rest, rest[j].pos);
    }
    forall i, j | 0 <= i < j < |rs| ensures rs[i].end < rs[j].pos {
      if i == 0 { assert rs[j] == rest[j - 1]; } else { assert rs[i] == rest[i - 1] && rs[j] == rest[j - 1]; }
    }
    forall p | from <= p < Capacity(d) ensures HasData(d, p) <==> InRuns(rs, p) {
      InJoined(r, rest, p);
      if p < r.end { NotBefore(d, r.end, rest, p); }
    }
  }

  lemma InJoined(r: Run, rest: seq<Run>, p: nat)
    ensures InRuns([r] + rest, p) <==> (r.pos <= p < r.end || InRuns(rest, p))
  {
    var rs := [r] + rest;
    if InRuns(rs, p) && !(r.pos <= p < r.end) {
      var i :| 0 <= i < |rs| && rs[i].pos <= p < rs[i].end;
      assert rs[i] == rest[i - 1];
    }
    if r.pos <= p < r.end { assert rs[0] == r; }
    if InRuns(rest, p) {
      var i :| 0 <= i < |rest| && rest[i].pos <= p < rest[i].end;
      assert rs[i + 1] == rest[i];
    }
  }

  lemma NotBefore(d: SparseDisk, from: nat, rs: seq<Run>, p: nat)
    requires Ascending(d, from, rs) && p < from
    ensures !InRuns(rs, p)
  {
  }

  // ----- used space -----

  /** Bytes below `n` that belong to non-empty grains. */
  function DataBelow(d: SparseDisk, n: nat): nat
    requires DiskOk(d) && n <= Capacity(d)
  {
    if n == 0 then 0 else DataBelow(d, n - 1) + if HasData(d, n - 1) then 1 else 0
  }

  lemma {:induction false} DataBetween(d: SparseDisk, a: nat, b: nat, data: bool)
    requires DiskOk(d) && a <= b <= Capacity(d)
    requires forall p :: a <= p < b ==> HasData(d, p) == data
    ensures DataBelow(d, b) == DataBelow(d, a) + if data then b - a else 0
  {
    if a < b {
      hide DiskOk, HasData;
      DataBetween(d, a, b - 1, data);
    }
  }

  /** The loop that sums up the used space.  Where the enumeration does not end the code
      calls nextData with the same position for ever; `ends` is false at that point. */
  method UsedSpace(d: SparseDisk) returns (ends: bool, usedSpace: nat)
    requires DiskOk(d)
    ensures ends <==> Enumerable(d)
    ensures usedSpace == DataBelow(d, Capacity(d))
  {
    hide DiskOk, HasData, Enumerable, NextRun, Capacity;
    var end := 0;
    usedSpace := 0;
    while true
      invariant end <= Capacity(d) && usedSpace == DataBelow(d, end)
      decreases Capacity(d) - end
    {
      NextEnd(d, end);
      if end < Capacity(d) { NextRunExact(d, end); } else { NextRunAtCapacity(d); }
      var r := SparseNextData(d, end);
      if r.None? {
        DataBetween(d, end, Capacity(d), false);
        return true, usedSpace;
      }
      if r.value.end == end {
        return false, usedSpace;
      }
      DataBetween(d, end, r.value.pos, false);
      DataBetween(d, r.value.pos, r.value.end, true);
      end := r.value.end;
      usedSpace := usedSpace + (r.value.end - r.value.pos);
    }
  }

  // ----- copying to a flat disk -----

  /** A flat disk: a file, how many more operations on it are carried out, and whether one
      has failed or been cut short. */
  class FlatDisk {
    var content: seq<byte>
    var quota: nat
    var faulted: bool

    /** Flat_Create: the file is truncated to the capacity, so it reads as zeros. */
    constructor (capacity: nat, quota: nat)
      ensures content == Zeros(capacity) && this.quota == quota && !faulted
    {
      content := Zeros(capacity);
      this.quota, faulted := quota, false;
    }

    method Operate() returns (ok: bool)
      modifies this`quota, this`faulted
      ensures ok <==> old(quota) > 0
      ensures quota == if ok then old(quota) - 1 else 0
      ensures faulted == (old(faulted) || !ok)
    {
      ok := quota > 0;
      if ok { quota := quota - 1; } else { faulted := true; }
    }

    method Pwrite(data: seq<byte>, pos: nat) returns (written: int)
      requires |data| > 0
      modifies this
      ensures if old(quota) > 0 then written == |data| && quota == old(quota) - 1
              else -1 <= written < |data| && quota == 0
      ensures faulted == (old(faulted) || written != |data|)
      ensures content == if written == -1 then old(content) else Bytes.Pwrite(old(content), pos, data[..written])
    {
      var ok := Operate();
      written := |data|;
      if !ok {
        written :| -1 <= written < |data|;
      }
      if written != -1 {
        content := Bytes.Pwrite(content, pos, data[..written]);
      }
    }
  }

  const CHUNK: nat := 65536

  lemma PwriteJoin(f: seq<byte>, pos: nat, a: seq<byte>, b: seq<byte>)
    ensures Pwrite(Pwrite(f, pos, a), pos + |a|, b) == Pwrite(f, pos, a + b)
  {
    if a == [] {
      assert a + b == b;
    } else if b == [] {
      assert a + b == a;
    }
  }

  /** What copying the first `n` bytes of a range has made of the target file `f`. */
  ghost predicate CopiedPart(c: Codec, d: SparseDisk, src: nat, n: nat, f: seq<byte>, dst: nat, g: seq<byte>)
    requires DiskOk(d)
  {
    var r := ReadRange(c, d, src, n);
    r.Some? && g == Pwrite(f, dst, r.value)
  }

  lemma NextChunk(c: Codec, d: SparseDisk, src: nat, n: nat, f: seq<byte>, dst: nat, g: seq<byte>, b: seq<byte>)
    requires DiskOk(d) && src + n + |b| <= Capacity(d) && CopiedPart(c, d, src, n, f, dst, g)
    requires |b| > 0 && ReadResult(c, d, src + n, |b|) == Some(b)
    ensures CopiedPart(c, d, src, n + |b|, f, dst, Pwrite(g, dst + n, b))
  {
    hide DiskOk, Pwrite, Capacity, ReadRange, WrappedPos, GrainBytes;
    InsideIsExact(d, src + n);
    RangeSplit(c, d, src, n, |b|);
    PwriteJoin(f, dst, ReadRange(c, d, src, n).value, b);
  }

  /** A read inside the capacity that does not return what was asked for has met a byte that
      cannot be read. */
  lemma ChunkFails(c: Codec, d: SparseDisk, src: nat, n: nat, len: nat, total: nat, ret: int)
    requires DiskOk(d) && src + total <= Capacity(d) && n + len <= total && 0 < len && ret != len
    requires ret == -1 <==> ReadResult(c, d, src + n, len).None?
    requires ret != -1 ==> ret == |ReadResult(c, d, src + n, len).value|
    ensures ReadRange(c, d, src, total).None?
  {
    hide DiskOk, Pwrite, Capacity, ReadRange, WrappedPos, GrainBytes;
    InsideIsExact(d, src + n);
    RangeSplit(c, d, src, n, len);
    RangeSplit(c, d, src, n + len, total - n - len);
  }

  lemma RangeFailsAt(c: Codec, d: SparseDisk, pos: nat, len: nat)
    requires DiskOk(d) && pos + len <= Capacity(d) && ReadRange(c, d, pos, len).None?
    ensures !Readable(c, d)
  {
    hide Lookup, DiskOk, Capacity;
  }

  /** Every byte of the disk can be read. */
  ghost predicate Readable(c: Codec, d: SparseDisk)
    requires DiskOk(d)
  {
    forall p :: 0 <= p < Capacity(d) ==> Lookup(c, d, p).Some?
  }

  lemma NothingCopied(c: Codec, d: SparseDisk, src: nat, f: seq<byte>, dst: nat)
    requires DiskOk(d)
    ensures CopiedPart(c, d, src, 0, f, dst, f)
  {
  }

  /** copyData: the 64 KiB chunks are invisible in what it leaves. */
  method CopyData(c: Codec, dst: FlatDisk, dstStart: nat, d: SparseDisk, srcStart: nat, total: nat)
    returns (ret: int)
    requires DiskOk(d)
    modifies dst
    ensures ret == 0 && srcStart + total <= Capacity(d) ==>
              CopiedPart(c, d, srcStart, total, old(dst.content), dstStart, dst.content)
    ensures ret != 0 && srcStart + total <= Capacity(d) ==> dst.faulted || ReadRange(c, d, srcStart, total).None?
    ensures ret == 0 ==> dst.faulted == old(dst.faulted) && old(dst.quota) <= dst.quota + total
    ensures dst.faulted && !old(dst.faulted) ==> old(dst.quota) < total
  {
    hide DiskOk, Capacity, ReadRange, Bytes.Pwrite, WrappedPos, CopiedPart, GrainBytes, Clipped;
    var buf := new byte[CHUNK](_ => 0);
    var dstOffset, srcOffset, length: nat := dstStart, srcStart, total;
    NothingCopied(c, d, srcStart, dst.content, dstStart);
    while length > 0
      invariant dst.faulted == old(dst.faulted) && old(dst.quota) <= dst.quota + (total - length)
      invariant length <= total && srcOffset == srcStart + (total - length) && dstOffset == dstStart + (total - length)
      invariant srcStart + total <= Capacity(d) ==>
                  CopiedPart(c, d, srcStart, total - length, old(dst.content), dstStart, dst.content)
    {
      ghost var copied := total - length;
      var readLen := CHUNK;
      if length < readLen {
        readLen := length;
        length := 0;
      } else {
        length := length - readLen;
      }
      var n := SparsePread(c, d, buf, readLen, srcOffset);
      if n != readLen {
        if srcStart + total <= Capacity(d) { ChunkFails(c, d, srcStart, copied, readLen, total, n); }
        return -1;
      }
      ghost var before := dst.content;
      var data := buf[..readLen];
      var written := dst.Pwrite(data, dstOffset);
      if written != readLen {
        return -1;
      }
      assert data[..readLen] == data;
      if srcStart + total <= Capacity(d) {
        NextChunk(c, d, srcStart, copied, old(dst.content), dstStart, before, data);
      }
      srcOffset, dstOffset := srcOffset + readLen, dstOffset + readLen;
    }
    ret := 0;
  }

  /** Below `end` the target holds the disk's bytes, above it is still zero. */
  ghost predicate CopiedTo(c: Codec, d: SparseDisk, end: nat, f: seq<byte>)
    requires DiskOk(d)
  {
    && |f| == Capacity(d) && end <= Capacity(d)
    && (forall p :: 0 <= p < end ==> Lookup(c, d, p) == Some(f[p]))
    && (forall p :: end <= p < Capacity(d) ==> f[p] == 0)
  }

  lemma HolesAreZero(c: Codec, d: SparseDisk, p: nat)
    requires DiskOk(d) && p < Capacity(d) && !HasData(d, p)
    ensures Lookup(c, d, p) == Some(0)
  {
  }

  lemma CopiedRun(c: Codec, d: SparseDisk, end: nat, f: seq<byte>, r: Run, g: seq<byte>)
    requires DiskOk(d) && CopiedTo(c, d, end, f) && RunOk(d, end, r)
    requires CopiedPart(c, d, r.pos, r.end - r.pos, f, r.pos, g)
    ensures CopiedTo(c, d, r.end, g)
  {
    hide DiskOk, Lookup, HasData, Capacity;
    forall p | 0 <= p < r.end ensures Lookup(c, d, p) == Some(g[p]) {
      if end <= p < r.pos { HolesAreZero(c, d, p); }
      if r.pos <= p { assert p == r.pos + (p - r.pos); }
    }
  }

  /** How copyDisk to a flat target goes on: it may never come back. */
  datatype Outcome = Success | Failure | Endless

  /** copyDisk to a flat target: when it succeeds, the target is the logical content of the
      sparse source, byte for byte, and when it comes back without a failure the enumeration
      ends.  Otherwise it copies everything too, and then repeats an empty copy for ever.  It
      fails only when an operation on the target has failed, which takes no more than one
      for each byte and one to close it, or when a byte of the source cannot be read. */
  method CopyDisk(c: Codec, d: SparseDisk, dst: FlatDisk) returns (outcome: Outcome)
    requires DiskOk(d)
    requires dst.content == Zeros(Capacity(d))
    modifies dst
    ensures outcome == Success ==> Enumerable(d)
    ensures outcome == Endless ==> !Enumerable(d)
    ensures outcome == Failure ==> dst.faulted || !Readable(c, d)
    ensures dst.faulted && !old(dst.faulted) ==> outcome == Failure && old(dst.quota) <= Capacity(d)
    ensures outcome != Failure ==>
              |dst.content| == Capacity(d)
              && forall p :: 0 <= p < Capacity(d) ==> Lookup(c, d, p) == Some(dst.content[p])
  {
    hide DiskOk, HasData, Enumerable, NextRun, Capacity, Lookup, CopiedTo, CopiedPart, Readable, ReadRange;
    var end := 0;
    NotCopied(c, d, dst.content);
    while true
      invariant end <= Capacity(d) && CopiedTo(c, d, end, dst.content)
      invariant dst.faulted == old(dst.faulted) && old(dst.quota) <= dst.quota + end
      decreases Capacity(d) - end
    {
      NextEnd(d, end);
      if end < Capacity(d) { NextRunExact(d, end); } else { NextRunAtCapacity(d); }
      var r := SparseNextData(d, end);
      if r.None? {
        break;
      }
      if r.value.end == end {
        AllCopied(c, d, end, dst.content);
        return Endless;
      }
      ghost var before := dst.content;
      var ret := CopyData(c, dst, r.value.pos, d, r.value.pos, r.value.end - r.value.pos);
      if ret != 0 {
        if ReadRange(c, d, r.value.pos, r.value.end - r.value.pos).None? {
          RangeFailsAt(c, d, r.value.pos, r.value.end - r.value.pos);
        }
        return Failure;
      }
      CopiedRun(c, d, end, before, r.value, dst.content);
      end := r.value.end;
    }
    AllCopied(c, d, end, dst.content);
    var closed := dst.Operate();
    outcome := if closed then Success else Failure;
  }

  lemma NotCopied(c: Codec, d: SparseDisk, f: seq<byte>)
    requires DiskOk(d) && f == Zeros(Capacity(d))
    ensures CopiedTo(c, d, 0, f)
  {
  }

  lemma AllCopied(c: Codec, d: SparseDisk, end: nat, f: seq<byte>)
    requires DiskOk(d) && CopiedTo(c, d, end, f)
    requires forall p :: end <= p < Capacity(d) ==> !HasData(d, p)
    ensures |f| == Capacity(d) && forall p :: 0 <= p < Capacity(d) ==> Lookup(c, d, p) == Some(f[p])
  {
    hide DiskOk, Lookup, HasData;
    forall p | 0 <= p < Capacity(d) ensures Lookup(c, d, p) == Some(f[p]) {
      if end <= p { HolesAreZero(c, d, p); }
    }
  }
}
