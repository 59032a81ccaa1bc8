// Where a writer has put its grains: extents handed out one after the other from the
// first sector behind the tables, whoever asked for them and in whatever order.

module Layout {
  import opened Bytes
  import opened Grain

  const GRAIN_SECTORS: nat := 128
  const GRAIN_BYTES: nat := 65536

  /** Grain `nr`, holding `data`, placed at sector `sp`. */
  datatype Extent = Extent(nr: nat, sp: nat, data: seq<byte>)

  /** Next free sector once `exts` have been handed out from `base`. */
  function Top(c: Codec, base: nat, exts: seq<Extent>): (top: nat)
    ensures top >= base
  {
    if exts == [] then base
    else Top(c, base, exts[..|exts| - 1]) + Sectors(c, exts[|exts| - 1].data)
  }

  /** The extents tile the sectors from `base`, in the order they were handed out. */
  predicate Tiled(c: Codec, base: nat, exts: seq<Extent>) {
    forall a :: 0 <= a < |exts| ==> exts[a].sp == Top(c, base, exts[..a])
  }

  predicate Distinct(exts: seq<Extent>) {
    forall a, b :: 0 <= a < b < |exts| ==> exts[a].nr != exts[b].nr
  }

  lemma TiledAppend(c: Codec, base: nat, exts: seq<Extent>, e: Extent)
    requires Tiled(c, base, exts) && e.sp == Top(c, base, exts)
    ensures Tiled(c, base, exts + [e])
    ensures Top(c, base, exts + [e]) == Top(c, base, exts) + Sectors(c, e.data)
  {
    var all := exts + [e];
    assert all[..|exts|] == exts;
    forall a | 0 <= a < |all| ensures all[a].sp == Top(c, base, all[..a]) {
      if a < |exts| { assert all[..a] == exts[..a]; }
    }
  }

  lemma DistinctAppend(exts: seq<Extent>, e: Extent)
    requires Distinct(exts) && forall x :: x in exts ==> x.nr != e.nr
    ensures Distinct(exts + [e])
  {
    forall a | 0 <= a < |exts| ensures exts[a].nr != e.nr { assert exts[a] in exts; }
  }

  lemma {:induction false} TopMono(c: Codec, base: nat, exts: seq<Extent>, a: nat)
    requires a < |exts|
    ensures Top(c, base, exts[..a]) + Sectors(c, exts[a].data) <= Top(c, base, exts)
  {
    var n := |exts| - 1;
    if a < n {
      TopMono(c, base, exts[..n], a);
      assert exts[..n][..a] == exts[..a];
    }
  }

  /** Extents are pairwise disjoint, in order, and inside [base, top). */
  lemma ExtentsDisjoint(c: Codec, base: nat, exts: seq<Extent>, a: nat, b: nat)
    requires Tiled(c, base, exts) && a < b < |exts|
    ensures base <= exts[a].sp && exts[a].sp + Sectors(c, exts[a].data) <= exts[b].sp
    ensures exts[b].sp + Sectors(c, exts[b].data) <= Top(c, base, exts)
  {
    TopMono(c, base, exts[..b], a);
    assert exts[..b][..a] == exts[..a];
    TopMono(c, base, exts, b);
  }

  lemma ExtentInside(c: Codec, base: nat, exts: seq<Extent>, e: Extent)
    requires Tiled(c, base, exts) && e in exts
    ensures base <= e.sp && e.sp + Sectors(c, e.data) <= Top(c, base, exts)
  {
    var a :| 0 <= a < |exts| && exts[a] == e;
    TopMono(c, base, exts, a);
  }

  /** Two different grains' extents do not overlap. */
  lemma Apart(c: Codec, base: nat, exts: seq<Extent>, e: Extent, e': Extent)
    requires Tiled(c, base, exts) && e in exts && e' in exts && e.nr != e'.nr
    ensures e.sp + Sectors(c, e.data) <= e'.sp || e'.sp + Sectors(c, e'.data) <= e.sp
  {
    var a :| 0 <= a < |exts| && exts[a] == e;
    var b :| 0 <= b < |exts| && exts[b] == e';
    if a < b { ExtentsDisjoint(c, base, exts, a, b); } else { ExtentsDisjoint(c, base, exts, b, a); }
  }

  /** Distinct grain numbers below `n` are at most `n` many. */
  lemma {:induction false} DistinctCount(exts: seq<Extent>, n: nat)
    requires Distinct(exts) && forall a :: 0 <= a < |exts| ==> exts[a].nr < n
    ensures |exts| <= n
  {
    if n == 0 {
      assert |exts| > 0 ==> exts[0].nr < 0;
    } else if a :| 0 <= a < |exts| && exts[a].nr == n - 1 {
      DistinctCount(exts[..a] + exts[a + 1..], n - 1);
    } else {
      DistinctCount(exts, n - 1);
    }
  }

  // ----- the finished image -----

  predicate Stored(c: Codec, f: seq<byte>, e: Extent) {
    HasAt(f, e.sp * SECTOR, Record(c, e.nr * GRAIN_SECTORS, e.data))
  }

  /** A finished grain area: exactly the grains in `store` are in the table, each entry
      names the extent holding that grain, and the extents tile the area. */
  ghost predicate Complete(c: Codec, base: nat, gt: seq<nat>, exts: seq<Extent>, f: seq<byte>,
                           store: map<nat, seq<byte>>) {
    && base > 1
    && Tiled(c, base, exts) && Distinct(exts)
    && (forall i :: i in store ==> i < |gt| && 0 < |store[i]| <= GRAIN_BYTES && Extent(i, gt[i], store[i]) in exts)
    && (forall i :: 0 <= i < |gt| && i !in store ==> gt[i] == 0)
    && (forall e :: e in exts ==> e.nr in store && e.data == store[e.nr] && Stored(c, f, e))
  }

  /** Writing behind the grain area, or before it, keeps the image. */
  lemma CompleteFrame(c: Codec, base: nat, gt: seq<nat>, exts: seq<Extent>, f: seq<byte>,
                      store: map<nat, seq<byte>>, pos: nat, data: seq<byte>)
    requires Complete(c, base, gt, exts, f, store)
    requires pos >= Top(c, base, exts) * SECTOR || pos + |data| <= base * SECTOR
    ensures Complete(c, base, gt, exts, Pwrite(f, pos, data), store)
  {
    forall e | e in exts ensures Stored(c, Pwrite(f, pos, data), e) {
      ExtentInside(c, base, exts, e);
      PwriteKeeps(f, pos, data, e.sp * SECTOR, Record(c, e.nr * GRAIN_SECTORS, e.data));
    }
  }

  lemma NotStored(c: Codec, base: nat, gt: seq<nat>, exts: seq<Extent>, f: seq<byte>,
                  store: map<nat, seq<byte>>, nr: nat)
    requires Complete(c, base, gt, exts, f, store) && nr < |gt| && gt[nr] == 0
    ensures nr !in store && forall e :: e in exts ==> e.nr != nr
  {
    if nr in store { ExtentInside(c, base, exts, Extent(nr, gt[nr], store[nr])); }
  }

  /** One more grain, at the top, entered in the table and written there. */
  lemma CompleteExtend(c: Codec, base: nat, gt: seq<nat>, exts: seq<Extent>, f: seq<byte>,
                       store: map<nat, seq<byte>>, nr: nat, data: seq<byte>)
    requires Complete(c, base, gt, exts, f, store) && nr < |gt| && gt[nr] == 0
    requires 0 < |data| <= GRAIN_BYTES
    ensures var sp := Top(c, base, exts);
            Complete(c, base, gt[nr := sp], exts + [Extent(nr, sp, data)],
                     Pwrite(f, sp * SECTOR, Record(c, nr * GRAIN_SECTORS, data)), store[nr := data])
  {
    var sp := Top(c, base, exts);
    var e, record := Extent(nr, sp, data), Record(c, nr * GRAIN_SECTORS, data);
    NotStored(c, base, gt, exts, f, store, nr);
    TiledAppend(c, base, exts, e);
    DistinctAppend(exts, e);
    CompleteFrame(c, base, gt, exts, f, store, sp * SECTOR, record);
    PwriteHas(f, sp * SECTOR, record);
    ExtendEntries(c, base, gt, exts, Pwrite(f, sp * SECTOR, record), store, e);
  }

  lemma ExtendEntries(c: Codec, base: nat, gt: seq<nat>, exts: seq<Extent>, f: seq<byte>,
                      store: map<nat, seq<byte>>, e: Extent)
    requires Complete(c, base, gt, exts, f, store) && e.nr < |gt| && e.nr !in store
    requires 0 < |e.data| <= GRAIN_BYTES && Stored(c, f, e)
    requires Tiled(c, base, exts + [e]) && Distinct(exts + [e])
    ensures Complete(c, base, gt[e.nr := e.sp], exts + [e], f, store[e.nr := e.data])
  {
    hide Tiled, Distinct, Stored;
    var gt', store' := gt[e.nr := e.sp], store[e.nr := e.data];
    forall i | i in store'
      ensures i < |gt'| && 0 < |store'[i]| <= GRAIN_BYTES && Extent(i, gt'[i], store'[i]) in exts + [e]
    {
      if i != e.nr { assert Extent(i, gt[i], store[i]) in exts; }
    }
  }

  // ----- the canonical placement -----

  /** Grain `i` directly behind the stored grains before it. */
  function CanonSP(c: Codec, base: nat, store: map<nat, seq<byte>>, i: nat): (sp: nat)
    ensures sp >= base
  {
    if i == 0 then base
    else CanonSP(c, base, store, i - 1) + if i - 1 in store then Sectors(c, store[i - 1]) else 0
  }

  function CanonGT(c: Codec, base: nat, store: map<nat, seq<byte>>, n: nat): (gt: seq<nat>)
    ensures |gt| == n
  {
    seq(n, i requires 0 <= i < n => if i in store then CanonSP(c, base, store, i) else 0)
  }

  function CanonExts(c: Codec, base: nat, store: map<nat, seq<byte>>, n: nat): (exts: seq<Extent>)
    ensures forall e :: e in exts ==> e.nr < n && e.nr in store && e.data == store[e.nr]
  {
    if n == 0 then []
    else if n - 1 in store then
      CanonExts(c, base, store, n - 1) + [Extent(n - 1, CanonSP(c, base, store, n - 1), store[n - 1])]
    else CanonExts(c, base, store, n - 1)
  }

  lemma {:induction false} CanonTiled(c: Codec, base: nat, store: map<nat, seq<byte>>, n: nat)
    ensures Tiled(c, base, CanonExts(c, base, store, n)) && Distinct(CanonExts(c, base, store, n))
    ensures Top(c, base, CanonExts(c, base, store, n)) == CanonSP(c, base, store, n)
  {
    if n > 0 {
      var exts := CanonExts(c, base, store, n - 1);
      CanonTiled(c, base, store, n - 1);
      if n - 1 in store {
        var e := Extent(n - 1, CanonSP(c, base, store, n - 1), store[n - 1]);
        assert CanonExts(c, base, store, n) == exts + [e];
        TiledAppend(c, base, exts, e);
        DistinctAppend(exts, e);
      }
    }
  }

  lemma {:induction false} CanonIn(c: Codec, base: nat, store: map<nat, seq<byte>>, n: nat, i: nat)
    requires i < n && i in store
    ensures Extent(i, CanonSP(c, base, store, i), store[i]) in CanonExts(c, base, store, n)
  {
    if i < n - 1 {
      CanonIn(c, base, store, n - 1, i);
    }
  }

  lemma {:induction false} CanonMono(c: Codec, base: nat, store: map<nat, seq<byte>>, i: nat, j: nat)
    requires i <= j
    ensures CanonSP(c, base, store, i) <= CanonSP(c, base, store, j)
  {
    if i < j {
      CanonMono(c, base, store, i, j - 1);
    }
  }

  // The sizes add up to the same cursor whatever the order of the extents.

  lemma {:induction false} TopWithout(c: Codec, base: nat, exts: seq<Extent>, a: nat)
    requires a < |exts|
    ensures Top(c, base, exts) == Top(c, base, exts[..a] + exts[a + 1..]) + Sectors(c, exts[a].data)
  {
    var n := |exts| - 1;
    var rest := exts[..a] + exts[a + 1..];
    if a == n {
      assert rest == exts[..n];
    } else {
      TopWithout(c, base, exts[..n], a);
      assert rest[..n - 1] == exts[..n][..a] + exts[..n][a + 1..];
      assert rest[n - 1] == exts[n];
    }
  }

  lemma DistinctWithout(exts: seq<Extent>, a: nat)
    requires Distinct(exts) && a < |exts|
    ensures Distinct(exts[..a] + exts[a + 1..])
  {
  }

  /** Extents of different grains below `n`, each holding the data of `store`. */
  predicate Within(exts: seq<Extent>, store: map<nat, seq<byte>>, n: nat) {
    && Distinct(exts)
    && forall a :: 0 <= a < |exts| ==>
         exts[a].nr < n && exts[a].nr in store && exts[a].data == store[exts[a].nr]
  }

  lemma WithinWithout(exts: seq<Extent>, store: map<nat, seq<byte>>, n: nat, a: nat)
    requires Within(exts, store, n) && n > 0 && a < |exts| && exts[a].nr == n - 1
    ensures Within(exts[..a] + exts[a + 1..], store, n - 1)
  {
    var rest := exts[..a] + exts[a + 1..];
    DistinctWithout(exts, a);
    hide Distinct;
    forall b | 0 <= b < |rest|
      ensures rest[b].nr < n - 1 && rest[b].nr in store && rest[b].data == store[rest[b].nr]
    {
      assert rest[b] == exts[if b < a then b else b + 1];
      assert rest[b].nr != n - 1 by { OtherNumber(exts, a, if b < a then b else b + 1); }
    }
  }

  lemma OtherNumber(exts: seq<Extent>, a: nat, b: nat)
    requires Distinct(exts) && a < |exts| && b < |exts| && a != b
    ensures exts[a].nr != exts[b].nr
  {
  }

  /** Whatever has been handed out so far for grains of `store` takes no more sectors than
      all of `store` does. */
  lemma {:induction false} TopAtMostCanon(c: Codec, base: nat, exts: seq<Extent>, store: map<nat, seq<byte>>, n: nat)
    requires Within(exts, store, n)
    ensures Top(c, base, exts) <= CanonSP(c, base, store, n)
  {
    hide Within, Sectors, Top;
    if n == 0 {
      NoneWithin(c, base, exts, store);
    } else if a :| 0 <= a < |exts| && exts[a].nr == n - 1 {
      WithinWithout(exts, store, n, a);
      TopWithout(c, base, exts, a);
      TopAtMostCanon(c, base, exts[..a] + exts[a + 1..], store, n - 1);
      DataWithin(exts, store, n, a);
    } else {
      WithinBelow(exts, store, n);
      TopAtMostCanon(c, base, exts, store, n - 1);
    }
  }

  lemma NoneWithin(c: Codec, base: nat, exts: seq<Extent>, store: map<nat, seq<byte>>)
    requires Within(exts, store, 0)
    ensures Top(c, base, exts) == base
  {
    DistinctCount(exts, 0);
  }

  lemma DataWithin(exts: seq<Extent>, store: map<nat, seq<byte>>, n: nat, a: nat)
    requires Within(exts, store, n) && a < |exts|
    ensures exts[a].nr in store && exts[a].data == store[exts[a].nr]
  {
  }

  lemma WithinBelow(exts: seq<Extent>, store: map<nat, seq<byte>>, n: nat)
    requires Within(exts, store, n) && n > 0
    requires forall a :: 0 <= a < |exts| ==> exts[a].nr != n - 1
    ensures Within(exts, store, n - 1)
  {
  }

  /** areGrainsOrdered: entries of stored grains do not decrease. */
  predicate Ordered(gt: seq<nat>) {
    forall i, j :: 0 <= i < j < |gt| && gt[i] > 1 && gt[j] > 1 ==> gt[i] <= gt[j]
  }

  /** An image whose table is already ordered is the canonical one: tiling leaves no room
      for any other order or any gap. */
  lemma OrderedIsCanonical(c: Codec, base: nat, gt: seq<nat>, exts: seq<Extent>, f: seq<byte>,
                           store: map<nat, seq<byte>>)
    requires Complete(c, base, gt, exts, f, store) && Ordered(gt)
    ensures gt == CanonGT(c, base, store, |gt|)
    ensures Top(c, base, exts) == CanonSP(c, base, store, |gt|)
  {
    hide Tiled, Distinct, Stored, Top, CanonSP, Sorted;
    SortedByGrain(c, base, gt, exts, f, store);
    assert exts[..|exts|] == exts;
    SortedBelow(c, base, gt, exts, f, store);
    SortedCanon(c, base, exts, store, |gt|, |exts|);
    forall i | 0 <= i < |gt| ensures gt[i] == CanonGT(c, base, store, |gt|)[i] {
      if i in store {
        assert Extent(i, gt[i], store[i]) in exts;
        EntryCanon(c, base, exts, store, Extent(i, gt[i], store[i]));
      }
    }
  }

  lemma SortedBelow(c: Codec, base: nat, gt: seq<nat>, exts: seq<Extent>, f: seq<byte>, store: map<nat, seq<byte>>)
    requires Complete(c, base, gt, exts, f, store)
    ensures forall a :: 0 <= a < |exts| ==> exts[a].nr < |gt|
  {
    hide Tiled, Distinct, Stored;
    forall a | 0 <= a < |exts| ensures exts[a].nr < |gt| { assert exts[a] in exts; }
  }

  lemma EntryCanon(c: Codec, base: nat, exts: seq<Extent>, store: map<nat, seq<byte>>, e: Extent)
    requires Sorted(exts, store) && Tiled(c, base, exts) && e in exts
    ensures e.sp == CanonSP(c, base, store, e.nr)
  {
    var a :| 0 <= a < |exts| && exts[a] == e;
    assert a > 0 ==> exts[a - 1].nr < e.nr;
    SortedCanon(c, base, exts, store, e.nr, a);
  }

  /** Extents in grain order, one for each stored grain. */
  ghost predicate Sorted(exts: seq<Extent>, store: map<nat, seq<byte>>) {
    && (forall a, b :: 0 <= a < b < |exts| ==> exts[a].nr < exts[b].nr)
    && (forall a :: 0 <= a < |exts| ==> exts[a].nr in store && exts[a].data == store[exts[a].nr])
    && (forall j :: j in store ==> exists a :: 0 <= a < |exts| && exts[a].nr == j)
  }

  lemma SortedByGrain(c: Codec, base: nat, gt: seq<nat>, exts: seq<Extent>, f: seq<byte>,
                      store: map<nat, seq<byte>>)
    requires Complete(c, base, gt, exts, f, store) && Ordered(gt)
    ensures Sorted(exts, store)
    ensures forall a :: 0 <= a < |exts| ==> exts[a].nr < |gt|
  {
    forall a | 0 <= a < |exts|
      ensures exts[a].nr < |gt| && exts[a].nr in store && exts[a].data == store[exts[a].nr]
    {
      EntryOf(c, base, gt, exts, f, store, a);
      assert exts[a] in exts;
    }
    forall a, b | 0 <= a < b < |exts| ensures exts[a].nr < exts[b].nr {
      EntryOf(c, base, gt, exts, f, store, a);
      EntryOf(c, base, gt, exts, f, store, b);
      ExtentsDisjoint(c, base, exts, a, b);
    }
    forall j | j in store ensures exists a :: 0 <= a < |exts| && exts[a].nr == j {
      var a :| 0 <= a < |exts| && exts[a] == Extent(j, gt[j], store[j]);
    }
  }

  lemma EntryOf(c: Codec, base: nat, gt: seq<nat>, exts: seq<Extent>, f: seq<byte>,
                store: map<nat, seq<byte>>, a: nat)
    requires Complete(c, base, gt, exts, f, store) && a < |exts|
    ensures exts[a].nr < |gt| && gt[exts[a].nr] == exts[a].sp > 1
  {
    var e := exts[a];
    assert e in exts;
    assert e.nr in store;
    var b :| 0 <= b < |exts| && exts[b] == Extent(e.nr, gt[e.nr], store[e.nr]);
    assert a == b;
    ExtentInside(c, base, exts, e);
  }

  /** With `m` of the sorted extents below grain `i`, grain `i` belongs behind those `m`. */
  lemma {:induction false} SortedCanon(c: Codec, base: nat, exts: seq<Extent>, store: map<nat, seq<byte>>,
                                       i: nat, m: nat)
    requires Sorted(exts, store) && m <= |exts|
    requires m > 0 ==> exts[m - 1].nr < i
    requires m < |exts| ==> i <= exts[m].nr
    ensures CanonSP(c, base, store, i) == Top(c, base, exts[..m])
    decreases m
  {
    hide Sorted, Sectors;
    var from := if m == 0 then 0 else exts[m - 1].nr + 1;
    NoneBetween(exts, store, i, m);
    CanonGap(c, base, store, from, i);
    if m > 0 {
      var nr := exts[m - 1].nr;
      SortedAt(exts, store, m - 1);
      SortedCanon(c, base, exts, store, nr, m - 1);
      assert exts[..m][..m - 1] == exts[..m - 1];
      assert CanonSP(c, base, store, nr + 1) == CanonSP(c, base, store, nr) + Sectors(c, store[nr]);
    }
  }

  lemma SortedAt(exts: seq<Extent>, store: map<nat, seq<byte>>, a: nat)
    requires Sorted(exts, store) && a < |exts|
    ensures exts[a].nr in store && exts[a].data == store[exts[a].nr]
    ensures a > 0 ==> exts[a - 1].nr < exts[a].nr
  {
  }

  lemma NoneBetween(exts: seq<Extent>, store: map<nat, seq<byte>>, i: nat, m: nat)
    requires Sorted(exts, store) && m <= |exts|
    requires m < |exts| ==> i <= exts[m].nr
    ensures forall j :: (if m == 0 then 0 else exts[m - 1].nr + 1) <= j < i ==> j !in store
  {
    forall j | (if m == 0 then 0 else exts[m - 1].nr + 1) <= j < i ensures j !in store {
      if j in store {
        var a :| 0 <= a < |exts| && exts[a].nr == j;
        OrderOf(exts, store, a, m);
        assert false;
      }
    }
  }

  lemma OrderOf(exts: seq<Extent>, store: map<nat, seq<byte>>, a: nat, m: nat)
    requires Sorted(exts, store) && a < |exts| && m <= |exts|
    ensures a < m ==> exts[a].nr <= exts[m - 1].nr
    ensures a >= m ==> exts[m].nr <= exts[a].nr
  {
  }

  lemma {:induction false} CanonGap(c: Codec, base: nat, store: map<nat, seq<byte>>, i: nat, j: nat)
    requires i <= j && forall k :: i <= k < j ==> k !in store
    ensures CanonSP(c, base, store, i) == CanonSP(c, base, store, j)
  {
    if i < j {
      CanonGap(c, base, store, i, j - 1);
    }
  }
}
