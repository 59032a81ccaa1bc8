// A file as the log of the writes and syncs issued on it, and what a crash can leave.

module Journal {
  import opened Bytes
  import opened Header

  datatype Op = Write(pos: nat, data: seq<byte>) | Sync

  function Apply(f: seq<byte>, op: Op): seq<byte> {
    match op
    case Write(pos, data) => Pwrite(f, pos, data)
    case Sync => f
  }

  /** The file's bytes once every operation has taken effect. */
  function Content(log: seq<Op>): seq<byte> {
    if log == [] then [] else Apply(Content(log[..|log| - 1]), log[|log| - 1])
  }

  lemma ContentAppend(log: seq<Op>, op: Op)
    ensures Content(log + [op]) == Apply(Content(log), op)
  {
    assert (log + [op])[..|log|] == log;
  }

  /** Length of the prefix made durable by the last sync. */
  function Synced(log: seq<Op>): (n: nat)
    ensures n <= |log|
  {
    if log == [] then 0
    else if log[|log| - 1].Sync? then |log|
    else Synced(log[..|log| - 1])
  }

  predicate Puts(op: Op, i: nat, b: byte) {
    op.Write? && op.pos <= i < op.pos + |op.data| && op.data[i - op.pos] == b
  }

  /** `f` may be what a crash leaves after `log`: any mixture, byte by byte, of what was
      durable and what the writes since the last sync put there. */
  ghost predicate CrashImage(log: seq<Op>, f: seq<byte>) {
    var d := Synced(log);
    var base := Content(log[..d]);
    && |base| <= |f| <= |Content(log)|
    && forall i :: 0 <= i < |f| ==>
         || f[i] == (if i < |base| then base[i] else 0)
         || exists k :: d <= k < |log| && Puts(log[k], i, f[i])
  }

  /** What a crash may make of an unsynced operation: all of it, the front of its data, or
      nothing. */
  predicate Torn(op: Op, kept: Op) {
    kept == op || kept == Sync || (op.Write? && kept.Write? && kept.pos == op.pos && kept.data <= op.data)
  }

  /** Each byte of `f` is that of `base`, zero behind its end, or put there by one of `ops`. */
  ghost predicate Mixed(f: seq<byte>, base: seq<byte>, ops: seq<Op>, from: nat) {
    && |base| <= |f|
    && forall i :: 0 <= i < |f| ==>
         f[i] == (if i < |base| then base[i] else 0) || exists k :: from <= k < |ops| && Puts(ops[k], i, f[i])
  }

  lemma MixedSelf(f: seq<byte>, ops: seq<Op>, from: nat)
    ensures Mixed(f, f, ops, from)
  {
  }

  lemma MixedWrite(f: seq<byte>, base: seq<byte>, ops: seq<Op>, from: nat, op: Op, kept: Op)
    requires Mixed(f, base, ops, from) && Torn(op, kept) && from <= |ops|
    ensures Mixed(Apply(f, kept), base, ops + [op], from)
  {
    var g, all := Apply(f, kept), ops + [op];
    forall i | 0 <= i < |g|
      ensures g[i] == (if i < |base| then base[i] else 0) || exists k :: from <= k < |all| && Puts(all[k], i, g[i])
    {
      if kept.Write? && kept.pos <= i < kept.pos + |kept.data| {
        assert Puts(all[|ops|], i, g[i]);
      } else if i < |f| && f[i] != (if i < |base| then base[i] else 0) {
        var k :| from <= k < |ops| && Puts(ops[k], i, f[i]);
        assert Puts(all[k], i, g[i]);
      }
    }
  }

  lemma TornSize(f: seq<byte>, g: seq<byte>, op: Op, kept: Op)
    requires |f| <= |g| && Torn(op, kept)
    ensures |f| <= |Apply(f, kept)| <= |Apply(g, op)|
  {
  }

  lemma {:induction false} MixedAll(log: seq<Op>, kept: seq<Op>, d: nat, n: nat)
    requires |kept| == |log| && d <= n <= |log| && kept[..d] == log[..d]
    requires forall k :: d <= k < n ==> Torn(log[k], kept[k])
    ensures Mixed(Content(kept[..n]), Content(log[..d]), log[..n], d)
    ensures |Content(kept[..n])| <= |Content(log[..n])|
  {
    hide Apply, Mixed, Torn;
    if n == d {
      MixedSelf(Content(log[..d]), log[..d], d);
    } else {
      MixedAll(log, kept, d, n - 1);
      assert kept[..n] == kept[..n - 1] + [kept[n - 1]] && log[..n] == log[..n - 1] + [log[n - 1]];
      ContentAppend(kept[..n - 1], kept[n - 1]);
      ContentAppend(log[..n - 1], log[n - 1]);
      MixedWrite(Content(kept[..n - 1]), Content(log[..d]), log[..n - 1], d, log[n - 1], kept[n - 1]);
      TornSize(Content(kept[..n - 1]), Content(log[..n - 1]), log[n - 1], kept[n - 1]);
    }
  }

  /** Whichever writes since the last sync are lost or torn, what the others leave is among the
      images considered: in particular the file with all of them, and that with none. */
  lemma LostWrites(log: seq<Op>, kept: seq<Op>)
    requires |kept| == |log|
    requires forall k :: 0 <= k < |log| ==> if k < Synced(log) then kept[k] == log[k] else Torn(log[k], kept[k])
    ensures CrashImage(log, Content(kept))
  {
    hide Content, Synced;
    var d := Synced(log);
    MixedAll(log, kept, d, |log|);
    assert kept[..|log|] == kept && log[..|log|] == log;
  }

  /** Only writes, none of them in the header's sector. */
  predicate HeaderUntouched(log: seq<Op>) {
    forall op :: op in log ==> op.Write? && op.pos >= SECTOR
  }

  /** Only writes, all of them to the sectors from `base` up to `top`. */
  predicate WritesIn(base: nat, top: nat, log: seq<Op>) {
    forall op :: op in log ==> op.Write? && base * SECTOR <= op.pos && op.pos + |op.data| <= top * SECTOR
  }

  lemma BehindHeader(base: nat, top: nat, log: seq<Op>)
    requires WritesIn(base, top, log) && base > 0
    ensures HeaderUntouched(log)
  {
  }

  /** What nobody has written reads as zero, and the file ends where the writes do. */
  lemma {:induction false} WrittenPart(base: nat, top: nat, log: seq<Op>)
    requires WritesIn(base, top, log)
    ensures forall i :: 0 <= i < |Content(log)| && i < base * SECTOR ==> Content(log)[i] == 0
    ensures |Content(log)| <= top * SECTOR
  {
    if log != [] {
      var n := |log| - 1;
      assert log[n] in log;
      WrittenPart(base, top, log[..n]);
    }
  }

  /** `f` may be what a crash leaves after the first `k` operations of `log`, or after those and
      the first `n` bytes of the next write. */
  ghost predicate StoppedImage(log: seq<Op>, k: nat, n: nat, f: seq<byte>) {
    && k <= |log|
    && (|| CrashImage(log[..k], f)
        || (k < |log| && log[k].Write? && n <= |log[k].data|
            && CrashImage(log[..k] + [Write(log[k].pos, log[k].data[..n])], f)))
  }

  /** Until close writes a header, no crash leaves anything that the opener accepts. */
  lemma NoHeaderRejected(log: seq<Op>, f: seq<byte>)
    requires HeaderUntouched(log) && CrashImage(log, f)
    ensures !MagicOk(f)
  {
    NeverSynced(log);
    if MagicOk(f) {
      MagicBytes(f);
      assert false;
    }
  }

  /** ... at whatever point of the log, and in the middle of a write. */
  lemma StoppedRejected(log: seq<Op>, k: nat, n: nat, f: seq<byte>)
    requires HeaderUntouched(log) && StoppedImage(log, k, n, f)
    ensures !MagicOk(f)
  {
    hide CrashImage, MagicOk;
    if CrashImage(log[..k], f) {
      NoHeaderRejected(log[..k], f);
    } else {
      assert log[k] in log;
      NoHeaderRejected(log[..k] + [Write(log[k].pos, log[k].data[..n])], f);
    }
  }

  lemma {:induction false} NeverSynced(log: seq<Op>)
    requires forall op :: op in log ==> op.Write?
    ensures Synced(log) == 0
  {
    if log != [] {
      assert log[|log| - 1] in log;
      NeverSynced(log[..|log| - 1]);
    }
  }

  lemma MagicBytes(f: seq<byte>)
    requires MagicOk(f)
    ensures f[0] == 0x4b && f[1] == 0x44 && f[2] == 0x4d && f[3] == 0x56
  {
    var m := f[0..4];
    var m1, m2, m3 := m[1..], m[1..][1..], m[1..][1..][1..];
    assert FromLE(m) == m[0] as nat + 256 * FromLE(m1);
    assert FromLE(m1) == m[1] as nat + 256 * FromLE(m2);
    assert FromLE(m2) == m[2] as nat + 256 * FromLE(m3);
    assert FromLE(m3) == m[3] as nat + 256 * FromLE(m3[1..]);
    assert m3[1..] == [];
  }

  // ----- the writes of close -----

  /** writeEOS, writeGrainTables, writeDescriptor and writeHeaders, and close's own fsync. */
  function CloseOps(h: Header, curSP: nat, tables: seq<byte>, descriptor: seq<byte>): seq<Op> {
    [ Write(curSP * SECTOR, Zeros(SECTOR)),
      Write(h.gdOffset * SECTOR, tables),
      Write(h.descriptorOffset * SECTOR, descriptor),
      Write(0, EncodeHeader(h, true)),
      Sync,
      Write(0, EncodeHeader(h, false)),
      Sync,
      Sync ]
  }

  /** The commit point: whatever had been issued of close when the machine stopped, and
      whatever part of the unsynced writes had reached the disk, a file that passes the
      opener's magic check is the complete image, byte for byte. */
  lemma CommitPoint(before: seq<Op>, h: Header, curSP: nat, tables: seq<byte>, descriptor: seq<byte>,
                    k: nat, f: seq<byte>)
    requires HeaderUntouched(before)
    requires curSP > 0 && h.gdOffset > 0 && h.descriptorOffset > 0
    requires k <= |CloseOps(h, curSP, tables, descriptor)|
    requires CrashImage(before + CloseOps(h, curSP, tables, descriptor)[..k], f)
    requires MagicOk(f)
    ensures k >= 6
    ensures f == Content(before + CloseOps(h, curSP, tables, descriptor))
  {
    HeaderForms(h);
    var ops := CloseOps(h, curSP, tables, descriptor);
    CommitShape(before, ops, EncodeHeader(h, true), EncodeHeader(h, false), k, f);
  }

  lemma CommitShape(before: seq<Op>, ops: seq<Op>, temporary: seq<byte>, final: seq<byte>, k: nat, f: seq<byte>)
    requires HeaderUntouched(before) && SameButMagic(temporary, final) && ClosingOps(ops, temporary, final)
    requires k <= 8 && CrashImage(before + ops[..k], f) && MagicOk(f)
    ensures k >= 6 && f == Content(before + ops)
  {
    if k <= 4 {
      var log := before + ops[..k];
      forall op | op in log ensures op.Write? && OffHeader(op, temporary) {
        assert op in before || op in ops[..k];
      }
      BeforeSync(log, temporary, f);
      assert false;
    } else {
      AfterSync(before, temporary, final, ops, k, f);
    }
  }

  /** The same for a close that was stopped by a write error: the write that failed may have
      left any part of its data, and again a file that passes the magic check is the
      complete image.  That takes the last header to be the write that failed. */
  lemma TornCommit(before: seq<Op>, h: Header, curSP: nat, tables: seq<byte>, descriptor: seq<byte>,
                   k: nat, n: nat, f: seq<byte>)
    requires HeaderUntouched(before)
    requires curSP > 0 && h.gdOffset > 0 && h.descriptorOffset > 0
    requires var ops := CloseOps(h, curSP, tables, descriptor);
             k < |ops| && ops[k].Write? && n <= |ops[k].data|
             && CrashImage(before + ops[..k] + [Write(ops[k].pos, ops[k].data[..n])], f)
    requires MagicOk(f)
    ensures k == 5
    ensures f == Content(before + CloseOps(h, curSP, tables, descriptor))
  {
    HeaderForms(h);
    var ops := CloseOps(h, curSP, tables, descriptor);
    TornShape(before, ops, EncodeHeader(h, true), EncodeHeader(h, false), k, n, f);
  }

  lemma TornShape(before: seq<Op>, ops: seq<Op>, temporary: seq<byte>, final: seq<byte>, k: nat, n: nat, f: seq<byte>)
    requires HeaderUntouched(before) && SameButMagic(temporary, final) && ClosingOps(ops, temporary, final)
    requires k < 8 && ops[k].Write? && n <= |ops[k].data|
    requires CrashImage(before + ops[..k] + [Write(ops[k].pos, ops[k].data[..n])], f) && MagicOk(f)
    ensures k == 5 && f == Content(before + ops)
  {
    var log := before + ops[..k] + [Write(ops[k].pos, ops[k].data[..n])];
    if k <= 3 {
      forall op | op in log ensures op.Write? && OffHeader(op, temporary) {
        assert op in before || op in ops[..k] || op == Write(ops[k].pos, ops[k].data[..n]);
      }
      BeforeSync(log, temporary, f);
      assert false;
    } else {
      var c4 := Apply(Content(before + ops[..3]), ops[3]);
      PrefixContents(before, ops);
      PwriteHas(Content(before + ops[..3]), 0, temporary);
      assert log[..|log| - 1] == before + ops[..5];
      assert log[|log| - 2] == ops[4];
      FinalHeaderPending(log, temporary, final, c4, n, f);
    }
  }

  /** The eight operations of close, by what matters for a crash. */
  predicate ClosingOps(ops: seq<Op>, temporary: seq<byte>, final: seq<byte>) {
    && |ops| == 8 && ops[4] == ops[6] == ops[7] == Sync
    && (forall j :: 0 <= j < 3 ==> ops[j].Write? && ops[j].pos >= SECTOR)
    && ops[3] == Write(0, temporary) && ops[5] == Write(0, final)
  }

  /** A write behind the header, or of the front of the temporary one. */
  predicate OffHeader(op: Op, temporary: seq<byte>)
    requires op.Write?
  {
    op.pos >= SECTOR || (op.pos == 0 && op.data <= temporary)
  }

  /** Up to the first fsync the first byte is absent, zero, or the temporary magic's. */
  lemma BeforeSync(log: seq<Op>, temporary: seq<byte>, f: seq<byte>)
    requires forall op :: op in log ==> op.Write? && OffHeader(op, temporary)
    requires |temporary| > 0 && temporary[0] == 0x6b && CrashImage(log, f)
    ensures !MagicOk(f)
  {
    NeverSynced(log);
    forall j | 0 <= j < |log| ensures !Puts(log[j], 0, 0x4b) {
      assert log[j] in log;
    }
    if MagicOk(f) {
      MagicBytes(f);
      assert false;
    }
  }

  lemma HeaderForms(h: Header)
    ensures SameButMagic(EncodeHeader(h, true), EncodeHeader(h, false))
  {
    EncodedMagic(h, false);
    var b := EncodeHeader(h, false);
    MagicBytes(b);
    assert EncodeHeader(h, true)[4..] == EncodeBody(h) == b[4..];
  }

  /** Two header forms that differ in the magic only. */
  predicate SameButMagic(t: seq<byte>, h: seq<byte>) {
    |t| == |h| == SECTOR && t[4..] == h[4..] && t[0] == 0x6b && h[0..4] == [0x4b, 0x44, 0x4d, 0x56]
  }

  /** From the first fsync on. */
  lemma AfterSync(before: seq<Op>, temporary: seq<byte>, final: seq<byte>, ops: seq<Op>, k: nat, f: seq<byte>)
    requires ClosingOps(ops, temporary, final) && 5 <= k <= 8 && SameButMagic(temporary, final)
    requires CrashImage(before + ops[..k], f) && MagicOk(f)
    ensures k >= 6 && f == Content(before + ops)
  {
    var prefix := Content(before + ops[..3]);
    hide CrashImage, MagicOk, Content, SameButMagic, Pwrite, HasAt;
    if k == 6 {
      HeaderPending(before, temporary, final, ops, f);
    } else {
      var log := before + ops[..k];
      assert log[|log| - 1] == ops[k - 1];
      SyncedImage(log, f);
      PrefixContents(before, ops);
      if k == 5 { TemporaryRejected(prefix, temporary, final, f); }
    }
  }

  /** Between the final header and its fsync. */
  lemma HeaderPending(before: seq<Op>, temporary: seq<byte>, final: seq<byte>, ops: seq<Op>, f: seq<byte>)
    requires ClosingOps(ops, temporary, final) && SameButMagic(temporary, final)
    requires CrashImage(before + ops[..6], f) && MagicOk(f)
    ensures f == Content(before + ops)
  {
    hide CrashImage, MagicOk, Content, SameButMagic, Pwrite, HasAt;
    var log, prefix := before + ops[..6], Content(before + ops[..3]);
    PrefixContents(before, ops);
    PwriteHas(prefix, 0, temporary);
    assert log[..|log| - 1] == before + ops[..5];
    assert log[|log| - 2] == ops[4] && final[..|final|] == final;
    FinalHeaderPending(log, temporary, final, Apply(prefix, ops[3]), |final|, f);
  }

  /** With the temporary header in place the magic check fails. */
  lemma TemporaryRejected(prefix: seq<byte>, temporary: seq<byte>, final: seq<byte>, f: seq<byte>)
    requires SameButMagic(temporary, final) && f == Pwrite(prefix, 0, temporary)
    ensures !MagicOk(f)
  {
    hide MagicOk;
    PwriteHas(prefix, 0, temporary);
    assert f[0..SECTOR][0] == f[0];
    if MagicOk(f) { MagicBytes(f); assert false; }
  }

  /** Right behind a sync nothing can be missing. */
  lemma SyncedImage(log: seq<Op>, f: seq<byte>)
    requires log != [] && log[|log| - 1].Sync? && CrashImage(log, f)
    ensures f == Content(log)
  {
    assert Synced(log) == |log| && log[..|log|] == log;
    hide Content, Synced;
  }

  /** While the final header, or a part of it, is the only unsynced write, the magic is all
      that can be torn. */
  lemma FinalHeaderPending(log: seq<Op>, temporary: seq<byte>, final: seq<byte>, c4: seq<byte>, m: nat, f: seq<byte>)
    requires SameButMagic(temporary, final) && m <= |final|
    requires |log| >= 2 && log[|log| - 1] == Write(0, final[..m]) && log[|log| - 2] == Sync
    requires Content(log[..|log| - 1]) == c4 && HasAt(c4, 0, temporary)
    requires CrashImage(log, f) && MagicOk(f)
    ensures f == Pwrite(c4, 0, final)
  {
    hide MagicOk;
    var n := |log| - 1;
    MagicBytes(f);
    assert log[..n][n - 1] == Sync && Synced(log) == n;
    var full := Pwrite(c4, 0, final);
    PendingBytes(log, final, c4, m, f);
    hide Synced, Content, CrashImage;
    forall i | 0 <= i < |f| ensures f[i] == full[i] {
      OnlyMagicTorn(temporary, final, c4, i);
      if i < 4 {
        assert f[i] == final[0..4][i];
      }
    }
  }

  lemma PendingBytes(log: seq<Op>, final: seq<byte>, c4: seq<byte>, m: nat, f: seq<byte>)
    requires |log| >= 2 && m <= |final| <= |c4| && log[|log| - 1] == Write(0, final[..m])
    requires Synced(log) == |log| - 1 && Content(log[..|log| - 1]) == c4 && CrashImage(log, f)
    ensures |f| == |c4| && forall i :: 0 <= i < |f| ==> f[i] == c4[i] || (i < m && f[i] == final[i])
  {
    hide Synced;
    var n := |log| - 1;
    assert Content(log) == Pwrite(c4, 0, final[..m]);
    hide Content;
    forall i | 0 <= i < |f| ensures f[i] == c4[i] || (i < m && f[i] == final[i]) {
      if f[i] != c4[i] {
        var k :| n <= k < |log| && Puts(log[k], i, f[i]);
        assert k == n;
      }
    }
  }

  lemma OnlyMagicTorn(temporary: seq<byte>, final: seq<byte>, c4: seq<byte>, i: nat)
    requires SameButMagic(temporary, final) && HasAt(c4, 0, temporary) && i < |c4|
    ensures i < SECTOR ==> Pwrite(c4, 0, final)[i] == final[i]
    ensures 4 <= i ==> Pwrite(c4, 0, final)[i] == c4[i]
  {
    if 4 <= i < SECTOR {
      assert temporary[4..][i - 4] == final[4..][i - 4];
      assert c4[0..SECTOR][i] == temporary[i];
    }
  }

  lemma PrefixContents(before: seq<Op>, ops: seq<Op>)
    requires |ops| == 8 && ops[3].Write? && ops[5].Write?
    requires ops[4] == ops[6] == ops[7] == Sync
    ensures var c4 := Apply(Content(before + ops[..3]), ops[3]);
            && Content(before + ops[..4]) == c4 && Content(before + ops[..5]) == c4
            && Content(before + ops[..6]) == Apply(c4, ops[5])
            && Content(before + ops[..7]) == Apply(c4, ops[5])
            && Content(before + ops[..8]) == Apply(c4, ops[5]) && before + ops[..8] == before + ops
  {
    ContentStep(before, ops, 3);
    ContentStep(before, ops, 4);
    ContentStep(before, ops, 5);
    ContentStep(before, ops, 6);
    ContentStep(before, ops, 7);
    assert ops[..8] == ops;
  }

  lemma ContentStep(before: seq<Op>, ops: seq<Op>, k: nat)
    requires k < |ops|
    ensures Content(before + ops[..k + 1]) == Apply(Content(before + ops[..k]), ops[k])
  {
    ContentAppend(before + ops[..k], ops[k]);
    assert before + ops[..k] + [ops[k]] == before + ops[..k + 1];
  }
}
