// The parallel copy: worker threads that claim grains through a shared read position,
// reserve sectors through a shared cursor, and report through a shared status.  A state
// machine whose steps are what one thread does between two lock operations; every
// interleaving of the threads is a sequence of such steps.

module Pool {
  import opened Bytes
  import opened Grain
  import opened Layout
  import opened Journal

  /** One conversion: the source bytes and what StreamOptimized_Create fixed for the target. */
  datatype Job = Job(c: Codec, src: seq<byte>, GTEs: nat, words: nat, overHead: nat, numThreads: nat)

  /** The table has an entry for every grain of the source ... */
  predicate Sized(job: Job) {
    job.GTEs == CeilDiv(|job.src|, GRAIN_BYTES)
  }

  /** ... and what is to be stored fits sectors numbered in 32 bits. */
  predicate JobOk(job: Job) {
    && Sized(job) && job.GTEs <= job.words && job.overHead > 1
    && CanonSP(job.c, job.overHead, StoreOf(job.src), job.GTEs) < U32
  }

  /** isZeroed looks at whole 64-bit words; up to seven trailing bytes are not examined. */
  predicate IsZeroed(data: seq<byte>) {
    forall i :: 0 <= i < |data| / 8 * 8 ==> data[i] == 0
  }

  /** The source bytes of grain `nr`. */
  function Chunk(src: seq<byte>, nr: nat): seq<byte> {
    src[Min(|src|, nr * GRAIN_BYTES)..Min(|src|, (nr + 1) * GRAIN_BYTES)]
  }

  /** The grains a complete copy must store. */
  function StoreOf(src: seq<byte>): map<nat, seq<byte>> {
    map nr: nat | nr < CeilDiv(|src|, GRAIN_BYTES) && !IsZeroed(Chunk(src, nr)) :: Chunk(src, nr)
  }

  datatype Owner = Free | Main | Worker(t: nat)

  datatype Status = Running | Done | Failed

  /** Where a worker is; the arguments are its live local variables. `lost` is the grain
      it had claimed when it failed. */
  datatype PC =
    | NotStarted
    | Init
    | WantRead
    | WantCheck(pos: nat)
    | InCheck(pos: nat)
    | Past(pos: nat)
    | WantDone(pos: nat)
    | InDone(pos: nat)
    | Claimed(nr: nat, pos: nat, len: nat)
    | WantAlloc(nr: nat, data: seq<byte>)
    | InAlloc(nr: nat, data: seq<byte>)
    | Placed(nr: nat, data: seq<byte>, sp: nat)
    | Recorded(nr: nat, data: seq<byte>, sp: nat)
    | WantFail(lost: Option<nat>)
    | InFail(lost: Option<nat>)
    | Exited(failed: bool, lost: Option<nat>)

  /** The thread that creates and joins the workers; `n` workers have been created. */
  datatype MainPC = Creating(n: nat) | MainWantFail(n: nat) | MainInFail(n: nat) | Joining(n: nat)

  /** Shared state, with three history variables: which worker claimed each grain, the
      extents in the order they were reserved, and the grains completely processed. */
  datatype State = State(
    pcs: seq<PC>, main: MainPC,
    readLock: Owner, stateLock: Owner, writeLock: Owner,
    readPos: nat, status: Status, curSP: nat, gt: seq<nat>, log: seq<Op>,
    claims: seq<nat>, exts: seq<Extent>, done: set<nat>)
  {
    function To(t: nat, pc: PC): State
      requires t < |pcs|
    {
      this.(pcs := pcs[t := pc])
    }
  }

  function Initial(job: Job): State {
    State(seq(job.numThreads, _ => NotStarted), Creating(0), Free, Free, Free,
          0, Running, job.overHead, seq(job.words, _ => 0), [], [], [], {})
  }

  /** `fault` makes the fallible call of the step fail; a failing write may leave the first
      `fault.value` bytes of its record. */
  datatype Event = WorkerStep(t: nat, fault: Option<nat>) | MainStep(fails: bool)

  // The three critical sections of the worker loop and what lies between them.
  // `fused` selects the variant in which the status check and the DONE write are one
  // critical section; the code has `fused == false`.

  function Check(job: Job, fused: bool, s: State, t: nat, pos: nat): State
    requires t < |s.pcs|
  {
    if s.status == Failed then
      s.(stateLock := Free, readLock := Free).To(t, Exited(false, None))
    else if fused && pos >= |job.src| then
      s.(status := Done, stateLock := Free, readLock := Free).To(t, Exited(false, None))
    else
      s.(stateLock := Free).To(t, Past(pos))
  }

  function Claim(job: Job, s: State, t: nat, pos: nat): State
    requires t < |s.pcs|
  {
    if pos >= |job.src| then s.To(t, WantDone(pos))
    else
      var len := Min(GRAIN_BYTES, |job.src| - pos);
      s.(readPos := s.readPos + len, readLock := Free, claims := s.claims + [t])
      .To(t, Claimed(pos / GRAIN_BYTES, pos, len))
  }

  function ReadGrain(job: Job, s: State, t: nat, nr: nat, pos: nat, len: nat, fault: bool): State
    requires t < |s.pcs|
  {
    if fault || pos + len > |job.src| then s.To(t, WantFail(Some(nr)))
    else
      var data := job.src[pos..pos + len];
      if IsZeroed(data) then s.(done := s.done + {nr}).To(t, WantRead)
      else s.To(t, WantAlloc(nr, data))
  }

  function Allocate(job: Job, s: State, t: nat, nr: nat, data: seq<byte>): State
    requires t < |s.pcs|
  {
    s.(curSP := Add32(s.curSP, Sectors(job.c, data)), writeLock := Free,
       exts := s.exts + [Extent(nr, s.curSP, data)])
    .To(t, Placed(nr, data, s.curSP))
  }

  function SetEntry(job: Job, s: State, t: nat, nr: nat, data: seq<byte>, sp: nat): State
    requires t < |s.pcs|
  {
    if nr >= job.GTEs || nr >= |s.gt| then s.To(t, WantFail(Some(nr)))
    else s.(gt := s.gt[nr := sp]).To(t, Recorded(nr, data, sp))
  }

  function WriteRecord(job: Job, s: State, t: nat, nr: nat, data: seq<byte>, sp: nat, fault: Option<nat>): State
    requires t < |s.pcs|
  {
    var record := Record(job.c, nr * GRAIN_SECTORS, data);
    match fault
    case Some(k) =>
      s.(log := s.log + [Write(sp * SECTOR, record[..Min(k, |record|)])]).To(t, WantFail(Some(nr)))
    case None =>
      s.(log := s.log + [Write(sp * SECTOR, record)], done := s.done + {nr}).To(t, WantRead)
  }

  /** The worker has a claimed grain in hand and no failure yet. */
  predicate OnGrain(pc: PC) {
    pc.Claimed? || pc.WantAlloc? || pc.InAlloc? || pc.Placed? || pc.Recorded?
  }

  /** One step of worker `t`; None when it is blocked on a lock or has ended. */
  function StepWorker(job: Job, fused: bool, s: State, t: nat, fault: Option<nat>): Option<State>
    requires t < |s.pcs|
  {
    if OnGrain(s.pcs[t]) then StepGrain(job, s, t, fault) else StepControl(job, fused, s, t, fault)
  }

  /** Claiming grains, and ending. */
  function StepControl(job: Job, fused: bool, s: State, t: nat, fault: Option<nat>): Option<State>
    requires t < |s.pcs|
  {
    match s.pcs[t]
    case Init => Some(s.To(t, if fault.Some? then WantFail(None) else WantRead))
    case WantRead =>
      if s.readLock == Free then Some(s.(readLock := Worker(t)).To(t, WantCheck(s.readPos))) else None
    case WantCheck(pos) =>
      if s.stateLock == Free then Some(s.(stateLock := Worker(t)).To(t, InCheck(pos))) else None
    case InCheck(pos) => Some(Check(job, fused, s, t, pos))
    case Past(pos) => Some(Claim(job, s, t, pos))
    case WantDone(pos) =>
      if s.stateLock == Free then Some(s.(stateLock := Worker(t)).To(t, InDone(pos))) else None
    case InDone(_) =>
      Some(s.(status := Done, stateLock := Free, readLock := Free).To(t, Exited(false, None)))
    case WantFail(lost) =>
      if s.stateLock == Free then Some(s.(stateLock := Worker(t)).To(t, InFail(lost))) else None
    case InFail(lost) => Some(s.(status := Failed, stateLock := Free).To(t, Exited(true, lost)))
    case _ => None
  }

  /** Reading, compressing, placing and writing a claimed grain. */
  function StepGrain(job: Job, s: State, t: nat, fault: Option<nat>): Option<State>
    requires t < |s.pcs|
  {
    match s.pcs[t]
    case Claimed(nr, pos, len) => Some(ReadGrain(job, s, t, nr, pos, len, fault.Some?))
    case WantAlloc(nr, data) =>
      if s.writeLock == Free then Some(s.(writeLock := Worker(t)).To(t, InAlloc(nr, data))) else None
    case InAlloc(nr, data) => Some(Allocate(job, s, t, nr, data))
    case Placed(nr, data, sp) => Some(SetEntry(job, s, t, nr, data, sp))
    case Recorded(nr, data, sp) => Some(WriteRecord(job, s, t, nr, data, sp, fault))
    case _ => None
  }

  /** One step of the creating thread: pthread_create may fail, which marks the pool FAILED. */
  function StepMain(job: Job, s: State, fails: bool): Option<State> {
    match s.main
    case Creating(n) =>
      if n >= job.numThreads || n >= |s.pcs| then Some(s.(main := Joining(n)))
      else if fails then Some(s.(main := MainWantFail(n)))
      else Some(s.(main := Creating(n + 1)).To(n, Init))
    case MainWantFail(n) =>
      if s.stateLock == Free then Some(s.(stateLock := Main, main := MainInFail(n))) else None
    case MainInFail(n) => Some(s.(status := Failed, stateLock := Free, main := Joining(n)))
    case Joining(_) => None
  }

  function Step(job: Job, fused: bool, s: State, e: Event): Option<State> {
    match e
    case WorkerStep(t, fault) => if t < |s.pcs| then StepWorker(job, fused, s, t, fault) else None
    case MainStep(fails) => StepMain(job, s, fails)
  }

  /** A run: every state, and the event that led to the next one. */
  predicate IsRun(job: Job, fused: bool, ss: seq<State>, es: seq<Event>) {
    && |ss| == |es| + 1 && ss[0] == Initial(job)
    && forall i :: 0 <= i < |es| ==> Step(job, fused, ss[i], es[i]) == Some(ss[i + 1])
  }

  /** All created workers have been joined. */
  predicate Terminal(s: State) {
    s.main.Joining? && forall t :: 0 <= t < |s.pcs| ==> s.pcs[t].NotStarted? || s.pcs[t].Exited?
  }

  /** What StreamOptimizedCopyDisk returns. */
  function Result(job: Job, s: State): int {
    if s.main.n == job.numThreads && s.status == Done then s.readPos else -1
  }

  predicate WorkerFailed(s: State) {
    exists t :: 0 <= t < |s.pcs| && s.pcs[t].Exited? && s.pcs[t].failed
  }

  // ----- locks -----

  predicate HoldsRead(pc: PC) {
    pc.WantCheck? || pc.InCheck? || pc.Past? || pc.WantDone? || pc.InDone?
  }

  predicate HoldsState(pc: PC) {
    pc.InCheck? || pc.InDone? || pc.InFail?
  }

  /** Each lock is held by exactly the thread that is in its critical section. */
  predicate LockInv(job: Job, s: State) {
    && |s.pcs| == job.numThreads && s.main.n <= job.numThreads
    && (forall t :: 0 <= t < |s.pcs| ==> (s.pcs[t].NotStarted? <==> t >= s.main.n))
    && (forall t :: 0 <= t < |s.pcs| ==> (HoldsRead(s.pcs[t]) <==> s.readLock == Worker(t)))
    && (forall t :: 0 <= t < |s.pcs| ==> (HoldsState(s.pcs[t]) <==> s.stateLock == Worker(t)))
    && (forall t :: 0 <= t < |s.pcs| ==> (s.pcs[t].InAlloc? <==> s.writeLock == Worker(t)))
    && (s.main.MainInFail? <==> s.stateLock == Main)
    && s.readLock != Main && s.writeLock != Main
    && (s.readLock.Worker? ==> s.readLock.t < |s.pcs|)
    && (s.stateLock.Worker? ==> s.stateLock.t < |s.pcs|)
    && (s.writeLock.Worker? ==> s.writeLock.t < |s.pcs|)
  }

  /** Worker `t` left a lock alone, took it when it was free, or released its own. */
  predicate LockMove(lock: Owner, lock': Owner, t: nat, held: bool, held': bool) {
    || (lock' == lock && held' == held)
    || (lock == Free && lock' == Worker(t) && held')
    || (lock == Worker(t) && lock' == Free && !held')
  }

  predicate LockMoves(s: State, s': State, t: nat)
    requires t < |s.pcs| == |s'.pcs|
  {
    var pc, pc' := s.pcs[t], s'.pcs[t];
    && LockMove(s.readLock, s'.readLock, t, HoldsRead(pc), HoldsRead(pc'))
    && LockMove(s.stateLock, s'.stateLock, t, HoldsState(pc), HoldsState(pc'))
    && LockMove(s.writeLock, s'.writeLock, t, pc.InAlloc?, pc'.InAlloc?)
  }

  lemma LockFrame(job: Job, s: State, s': State, t: nat)
    requires LockInv(job, s) && t < |s.pcs| == |s'.pcs| && s'.pcs == s.pcs[t := s'.pcs[t]] && s'.main == s.main
    requires !s.pcs[t].NotStarted? && !s'.pcs[t].NotStarted? && LockMoves(s, s', t)
    ensures LockInv(job, s')
  {
  }

  predicate HoldsRightly(s: State, t: nat)
    requires t < |s.pcs|
  {
    && (HoldsRead(s.pcs[t]) <==> s.readLock == Worker(t))
    && (HoldsState(s.pcs[t]) <==> s.stateLock == Worker(t))
    && (s.pcs[t].InAlloc? <==> s.writeLock == Worker(t))
  }

  predicate MovesOnly(s: State, s': State, t: nat)
    requires t < |s.pcs|
  {
    && |s'.pcs| == |s.pcs| && s'.pcs == s.pcs[t := s'.pcs[t]] && s'.main == s.main
    && !s.pcs[t].NotStarted? && !s'.pcs[t].NotStarted? && LockMoves(s, s', t)
  }

  lemma ControlMoves(job: Job, fused: bool, s: State, t: nat, fault: Option<nat>)
    requires t < |s.pcs| && StepControl(job, fused, s, t, fault).Some? && HoldsRightly(s, t)
    ensures MovesOnly(s, StepControl(job, fused, s, t, fault).value, t)
  {
    if HoldsRead(s.pcs[t]) { ReadPhaseMoves(job, fused, s, t, fault); } else { IdleMoves(job, fused, s, t, fault); }
  }

  lemma ReadPhaseMoves(job: Job, fused: bool, s: State, t: nat, fault: Option<nat>)
    requires t < |s.pcs| && StepControl(job, fused, s, t, fault).Some? && HoldsRightly(s, t) && HoldsRead(s.pcs[t])
    ensures MovesOnly(s, StepControl(job, fused, s, t, fault).value, t)
  {
  }

  lemma IdleMoves(job: Job, fused: bool, s: State, t: nat, fault: Option<nat>)
    requires t < |s.pcs| && StepControl(job, fused, s, t, fault).Some? && HoldsRightly(s, t) && !HoldsRead(s.pcs[t])
    ensures MovesOnly(s, StepControl(job, fused, s, t, fault).value, t)
  {
  }

  lemma ReadMoves(job: Job, s: State, t: nat, nr: nat, pos: nat, len: nat, fault: bool)
    requires t < |s.pcs| && s.pcs[t].Claimed? && HoldsRightly(s, t)
    ensures MovesOnly(s, ReadGrain(job, s, t, nr, pos, len, fault), t)
  {
    hide IsZeroed;
  }

  lemma PlacingMoves(job: Job, s: State, t: nat, fault: Option<nat>)
    requires t < |s.pcs| && HoldsRightly(s, t)
    ensures s.pcs[t].InAlloc? ==> MovesOnly(s, Allocate(job, s, t, s.pcs[t].nr, s.pcs[t].data), t)
    ensures s.pcs[t].Placed? ==> MovesOnly(s, SetEntry(job, s, t, s.pcs[t].nr, s.pcs[t].data, s.pcs[t].sp), t)
  {
    hide Sectors;
  }

  lemma RecordMoves(job: Job, s: State, t: nat, fault: Option<nat>)
    requires t < |s.pcs| && HoldsRightly(s, t) && s.pcs[t].Recorded?
    ensures MovesOnly(s, WriteRecord(job, s, t, s.pcs[t].nr, s.pcs[t].data, s.pcs[t].sp, fault), t)
  {
    hide Record;
  }

  lemma GrainMoves(job: Job, s: State, t: nat, fault: Option<nat>)
    requires t < |s.pcs| && StepGrain(job, s, t, fault).Some? && HoldsRightly(s, t)
    ensures MovesOnly(s, StepGrain(job, s, t, fault).value, t)
  {
    hide ReadGrain, Allocate, SetEntry, WriteRecord;
    match s.pcs[t]
    case Claimed(nr, pos, len) => ReadMoves(job, s, t, nr, pos, len, fault.Some?);
    case WantAlloc(_, _) =>
    case Recorded(_, _, _) => RecordMoves(job, s, t, fault);
    case _ => PlacingMoves(job, s, t, fault);
  }

  lemma LockInvCreate(job: Job, s: State)
    requires LockInv(job, s) && s.main.Creating? && s.main.n < job.numThreads
    ensures LockInv(job, s.(main := Creating(s.main.n + 1)).To(s.main.n, Init))
  {
    var s' := s.(main := Creating(s.main.n + 1)).To(s.main.n, Init);
    assert s.pcs[s.main.n].NotStarted?;
    assert forall t :: 0 <= t < |s.pcs| && t != s.main.n ==> s'.pcs[t] == s.pcs[t];
  }

  lemma LockInvMain(job: Job, s: State, fails: bool)
    requires LockInv(job, s) && StepMain(job, s, fails).Some?
    ensures LockInv(job, StepMain(job, s, fails).value)
  {
    hide HoldsRead, HoldsState;
    if s.main.Creating? && s.main.n < job.numThreads && !fails {
      LockInvCreate(job, s);
    }
  }

  lemma LockInvStep(job: Job, fused: bool, s: State, e: Event)
    requires LockInv(job, s) && Step(job, fused, s, e).Some?
    ensures LockInv(job, Step(job, fused, s, e).value)
  {
    match e
    case MainStep(fails) => LockInvMain(job, s, fails);
    case WorkerStep(t, fault) =>
      if OnGrain(s.pcs[t]) { GrainMoves(job, s, t, fault); } else { ControlMoves(job, fused, s, t, fault); }
      LockFrame(job, s, StepWorker(job, fused, s, t, fault).value, t);
  }

  // ----- claims -----

  /** The claimed grain that a worker is responsible for. */
  function GrainOf(pc: PC): Option<nat> {
    match pc
    case Claimed(nr, _, _) => Some(nr)
    case WantAlloc(nr, _) => Some(nr)
    case InAlloc(nr, _) => Some(nr)
    case Placed(nr, _, _) => Some(nr)
    case Recorded(nr, _, _) => Some(nr)
    case WantFail(lost) => lost
    case InFail(lost) => lost
    case Exited(_, lost) => lost
    case _ => None
  }

  /** The grain data that a worker between reading and writing holds. */
  function DataOf(pc: PC): Option<seq<byte>> {
    match pc
    case WantAlloc(_, data) => Some(data)
    case InAlloc(_, data) => Some(data)
    case Placed(_, data, _) => Some(data)
    case Recorded(_, data, _) => Some(data)
    case _ => None
  }

  /** A worker's local variables are what the shared state said when it read them. */
  predicate LocalsOk(job: Job, s: State, t: nat)
    requires t < |s.pcs|
  {
    var pc := s.pcs[t];
    && (pc.WantCheck? || pc.InCheck? || pc.Past? || pc.WantDone? || pc.InDone? ==> pc.pos == s.readPos)
    && (pc.WantDone? || pc.InDone? ==> pc.pos >= |job.src|)
    && (GrainOf(pc).Some? ==> GrainOf(pc).value < |s.claims| && s.claims[GrainOf(pc).value] == t)
    && (pc.Claimed? ==> pc.pos == pc.nr * GRAIN_BYTES && pc.nr < job.GTEs
                        && pc.len == Min(GRAIN_BYTES, |job.src| - pc.pos))
    && (DataOf(pc).Some? ==> pc.nr < job.GTEs && DataOf(pc).value == Chunk(job.src, pc.nr)
                             && !IsZeroed(DataOf(pc).value))
  }

  /** readPos is the first unclaimed byte; grain `i` was claimed exactly once, by worker
      `claims[i]`, and is either processed or still that worker's (or lost with it). */
  ghost predicate ClaimInv(job: Job, s: State) {
    && Sized(job)
    && |s.claims| <= job.GTEs
    && s.readPos == Min(|s.claims| * GRAIN_BYTES, |job.src|)
    && (forall i :: 0 <= i < |s.claims| ==> s.claims[i] < |s.pcs|)
    && (forall t :: 0 <= t < |s.pcs| ==> LocalsOk(job, s, t))
    && (forall i :: i in s.done ==> i < |s.claims| && GrainOf(s.pcs[s.claims[i]]) != Some(i))
    && (forall i :: 0 <= i < |s.claims| ==> i in s.done || GrainOf(s.pcs[s.claims[i]]) == Some(i))
    && (s.status == Done ==> s.readPos >= |job.src|)
  }

  lemma ClaimFrame(job: Job, s: State, s': State, t: nat)
    requires ClaimInv(job, s) && t < |s.pcs| && |s'.pcs| == |s.pcs| && s'.pcs == s.pcs[t := s'.pcs[t]]
    requires s'.claims == s.claims && s'.readPos == s.readPos && s'.done == s.done
    requires GrainOf(s'.pcs[t]) == GrainOf(s.pcs[t]) && LocalsOk(job, s', t)
    requires s'.status == Done ==> s.readPos >= |job.src|
    ensures ClaimInv(job, s')
  {
    forall u | 0 <= u < |s'.pcs| ensures LocalsOk(job, s', u) {
      assert LocalsOk(job, s, u);
    }
  }

  lemma ClaimNew(job: Job, s: State, t: nat)
    requires LockInv(job, s) && ClaimInv(job, s) && t < |s.pcs| && s.pcs[t].Past? && s.pcs[t].pos < |job.src|
    ensures ClaimInv(job, Claim(job, s, t, s.pcs[t].pos))
  {
    var s' := Claim(job, s, t, s.pcs[t].pos);
    var k := |s.claims|;
    assert LocalsOk(job, s, t);
    forall u | 0 <= u < |s'.pcs| ensures LocalsOk(job, s', u) {
      assert LocalsOk(job, s, u);
    }
    assert GrainOf(s'.pcs[s'.claims[k]]) == Some(k);
    assert k !in s.done;
  }

  lemma ClaimFinish(job: Job, s: State, s': State, t: nat)
    requires ClaimInv(job, s) && t < |s.pcs| && s'.pcs == s.pcs[t := WantRead] && GrainOf(s.pcs[t]).Some?
    requires s'.claims == s.claims && s'.readPos == s.readPos && s'.status == s.status
    requires s'.done == s.done + {GrainOf(s.pcs[t]).value}
    ensures ClaimInv(job, s')
  {
    assert LocalsOk(job, s, t);
    forall u | 0 <= u < |s'.pcs| ensures LocalsOk(job, s', u) {
      assert LocalsOk(job, s, u);
    }
  }

  lemma ChunkIsRead(job: Job, s: State, t: nat)
    requires ClaimInv(job, s) && t < |s.pcs| && s.pcs[t].Claimed?
    ensures var pc := s.pcs[t];
            pc.pos + pc.len <= |job.src| && job.src[pc.pos..pc.pos + pc.len] == Chunk(job.src, pc.nr)
  {
    assert LocalsOk(job, s, t);
  }

  /** Which steps claim a grain, and which finish one. */
  predicate Claims(job: Job, pc: PC) {
    pc.Past? && pc.pos < |job.src|
  }

  predicate Finishes(job: Job, pc: PC, fault: Option<nat>) {
    fault.None? && (pc.Recorded? || (pc.Claimed? && IsZeroed(Chunk(job.src, pc.nr))))
  }

  /** What a step that claims nothing does to the claims. */
  predicate ClaimsKept(job: Job, s: State, s': State, t: nat, fault: Option<nat>)
    requires t < |s.pcs|
  {
    && |s'.pcs| == |s.pcs| && s'.pcs == s.pcs[t := s'.pcs[t]]
    && s'.claims == s.claims && s'.readPos == s.readPos
    && (s'.status == Done && s.status != Done ==> s.readPos >= |job.src|)
    && if Finishes(job, s.pcs[t], fault) then
         GrainOf(s.pcs[t]).Some? && s'.done == s.done + {GrainOf(s.pcs[t]).value}
         && s'.pcs[t] == WantRead && s'.status == s.status
       else
         s'.done == s.done && GrainOf(s'.pcs[t]) == GrainOf(s.pcs[t]) && LocalsOk(job, s', t)
  }

  lemma ControlClaims(job: Job, fused: bool, s: State, t: nat, fault: Option<nat>)
    requires t < |s.pcs| && StepControl(job, fused, s, t, fault).Some? && LocalsOk(job, s, t)
    requires !Claims(job, s.pcs[t])
    ensures ClaimsKept(job, s, StepControl(job, fused, s, t, fault).value, t, fault)
  {
    if HoldsRead(s.pcs[t]) { ReadPhaseClaims(job, fused, s, t, fault); } else { IdleClaims(job, fused, s, t, fault); }
  }

  lemma ReadPhaseClaims(job: Job, fused: bool, s: State, t: nat, fault: Option<nat>)
    requires t < |s.pcs| && StepControl(job, fused, s, t, fault).Some? && LocalsOk(job, s, t)
    requires !Claims(job, s.pcs[t]) && HoldsRead(s.pcs[t])
    ensures ClaimsKept(job, s, StepControl(job, fused, s, t, fault).value, t, fault)
  {
    hide IsZeroed, Chunk;
  }

  lemma IdleClaims(job: Job, fused: bool, s: State, t: nat, fault: Option<nat>)
    requires t < |s.pcs| && StepControl(job, fused, s, t, fault).Some? && LocalsOk(job, s, t)
    requires !HoldsRead(s.pcs[t])
    ensures ClaimsKept(job, s, StepControl(job, fused, s, t, fault).value, t, fault)
  {
    hide IsZeroed, Chunk;
  }

  lemma ReadClaims(job: Job, s: State, t: nat, fault: Option<nat>)
    requires t < |s.pcs| && s.pcs[t].Claimed? && LocalsOk(job, s, t)
    requires var pc := s.pcs[t];
             pc.pos + pc.len <= |job.src| && job.src[pc.pos..pc.pos + pc.len] == Chunk(job.src, pc.nr)
    ensures ClaimsKept(job, s, StepGrain(job, s, t, fault).value, t, fault)
  {
  }

  lemma GrainClaims(job: Job, s: State, t: nat, fault: Option<nat>)
    requires t < |s.pcs| && StepGrain(job, s, t, fault).Some? && LocalsOk(job, s, t) && !s.pcs[t].Claimed?
    ensures ClaimsKept(job, s, StepGrain(job, s, t, fault).value, t, fault)
  {
  }

  lemma ClaimInvMain(job: Job, s: State, fails: bool)
    requires LockInv(job, s) && ClaimInv(job, s) && StepMain(job, s, fails).Some?
    ensures ClaimInv(job, StepMain(job, s, fails).value)
  {
    hide LockInv;
    MainKeeps(job, s, fails);
    var s' := StepMain(job, s, fails).value;
    if s'.pcs != s.pcs {
      ClaimFrame(job, s, s', s.main.n);
    } else {
      forall u | 0 <= u < |s'.pcs| ensures LocalsOk(job, s', u) {
        assert LocalsOk(job, s, u);
      }
    }
  }

  lemma ClaimInvStep(job: Job, fused: bool, s: State, e: Event)
    requires LockInv(job, s) && ClaimInv(job, s) && Step(job, fused, s, e).Some?
    ensures ClaimInv(job, Step(job, fused, s, e).value)
  {
    match e
    case MainStep(fails) => ClaimInvMain(job, s, fails);
    case WorkerStep(t, fault) =>
      var s' := StepWorker(job, fused, s, t, fault).value;
      assert LocalsOk(job, s, t);
      if Claims(job, s.pcs[t]) {
        ClaimNew(job, s, t);
      } else {
        if s.pcs[t].Claimed? {
          ChunkIsRead(job, s, t);
          ReadClaims(job, s, t, fault);
        } else if OnGrain(s.pcs[t]) {
          GrainClaims(job, s, t, fault);
        } else {
          ControlClaims(job, fused, s, t, fault);
        }
        if Finishes(job, s.pcs[t], fault) {
          ClaimFinish(job, s, s', t);
        } else {
          ClaimFrame(job, s, s', t);
        }
      }
  }

  // ----- placement -----

  predicate NoExtent(exts: seq<Extent>, nr: nat) {
    forall e :: e in exts ==> e.nr != nr
  }

  /** How far the grain in a worker's hands has got into the extents and the table. */
  predicate PlaceOk(s: State, t: nat)
    requires t < |s.pcs|
  {
    var pc := s.pcs[t];
    && (OnGrain(pc) ==> pc.nr < |s.gt|)
    && (pc.Claimed? || pc.WantAlloc? || pc.InAlloc? ==> s.gt[pc.nr] == 0 && NoExtent(s.exts, pc.nr))
    && (pc.Placed? ==> s.gt[pc.nr] == 0 && Extent(pc.nr, pc.sp, pc.data) in s.exts)
    && (pc.Recorded? ==> s.gt[pc.nr] == pc.sp && Extent(pc.nr, pc.sp, pc.data) in s.exts)
  }

  /** A processed grain: its record is in the file at its own extent, which the table
      names; a zeroed grain has nothing. */
  predicate Processed(job: Job, s: State, i: nat) {
    i < |s.gt| &&
    (!IsZeroed(Chunk(job.src, i)) ==>
       var e := Extent(i, s.gt[i], Chunk(job.src, i));
       e in s.exts && Stored(job.c, Content(s.log), e))
  }

  /** An extent holds the non-zero source data of one of the first `claimed` grains. */
  predicate FromSource(job: Job, claimed: nat, e: Extent) {
    e.nr < claimed && e.data == Chunk(job.src, e.nr) && !IsZeroed(e.data)
  }

  /** The reserved extents tile [overHead, curSP) and belong to distinct claimed grains;
      every table entry names its own grain's extent; processed grains are in the file. */
  ghost predicate PlaceInv(job: Job, s: State) {
    && JobOk(job) && |s.gt| == job.words
    && Tiled(job.c, job.overHead, s.exts) && Distinct(s.exts)
    && s.curSP == Top(job.c, job.overHead, s.exts)
    && (forall e :: e in s.exts ==> FromSource(job, |s.claims|, e))
    && (forall t :: 0 <= t < |s.pcs| ==> PlaceOk(s, t))
    && (forall i :: 0 <= i < |s.gt| && s.gt[i] != 0 ==>
          i < |s.claims| && Extent(i, s.gt[i], Chunk(job.src, i)) in s.exts)
    && (forall i :: i in s.done ==> Processed(job, s, i))
    && WritesIn(job.overHead, s.curSP, s.log)
  }

  /** Steps that touch neither extents nor table nor file. */
  lemma PlaceFrame(job: Job, s: State, s': State, t: nat)
    requires PlaceInv(job, s) && t < |s.pcs| && |s'.pcs| == |s.pcs| && s'.pcs == s.pcs[t := s'.pcs[t]]
    requires s'.exts == s.exts && s'.gt == s.gt && s'.log == s.log && s'.curSP == s.curSP
    requires s.claims <= s'.claims && PlaceOk(s', t)
    requires forall i :: i in s'.done && i !in s.done ==> i < |s.gt| && IsZeroed(Chunk(job.src, i))
    ensures PlaceInv(job, s')
  {
    forall u | 0 <= u < |s'.pcs| ensures PlaceOk(s', u) {
      assert PlaceOk(s, u);
    }
    forall i | i in s'.done ensures Processed(job, s', i) {
      if i in s.done { assert Processed(job, s, i); }
    }
  }

  /** A grain in a worker's hands is nobody else's and not processed. */
  ghost predicate Mine(job: Job, s: State, t: nat)
    requires t < |s.pcs|
  {
    var pc := s.pcs[t];
    && OnGrain(pc) && pc.nr < |s.claims| <= job.GTEs && pc.nr !in s.done
    && (DataOf(pc).Some? ==> pc.data == Chunk(job.src, pc.nr) && !IsZeroed(pc.data))
    && forall u :: 0 <= u < |s.pcs| && u != t && OnGrain(s.pcs[u]) ==> s.pcs[u].nr != pc.nr
  }

  lemma OwnGrain(job: Job, s: State, t: nat)
    requires ClaimInv(job, s) && t < |s.pcs| && OnGrain(s.pcs[t])
    ensures Mine(job, s, t)
  {
    assert LocalsOk(job, s, t);
    forall u | 0 <= u < |s.pcs| && u != t && OnGrain(s.pcs[u]) ensures s.pcs[u].nr != s.pcs[t].nr {
      assert LocalsOk(job, s, u);
    }
  }

  lemma ChunkSize(src: seq<byte>, nr: nat)
    requires nr < CeilDiv(|src|, GRAIN_BYTES)
    ensures 0 < |Chunk(src, nr)| <= GRAIN_BYTES
  {
  }

  /** The 32-bit cursor does not wrap, whichever of the grains to be stored have been given
      sectors so far. */
  lemma CursorFits(job: Job, exts: seq<Extent>)
    requires JobOk(job) && Distinct(exts)
    requires forall e :: e in exts ==> FromSource(job, job.GTEs, e)
    ensures Top(job.c, job.overHead, exts) < U32
  {
    hide Distinct, Top, CanonSP, Chunk, IsZeroed;
    forall a | 0 <= a < |exts| ensures FromSource(job, job.GTEs, exts[a]) { assert exts[a] in exts; }
    TopAtMostCanon(job.c, job.overHead, exts, StoreOf(job.src), job.GTEs);
  }

  /** Reserving the next sectors for a grain that has none extends the tiling. */
  lemma ExtendTiling(job: Job, exts: seq<Extent>, claimed: nat, nr: nat)
    requires JobOk(job) && Tiled(job.c, job.overHead, exts) && Distinct(exts) && claimed <= job.GTEs
    requires forall e :: e in exts ==> FromSource(job, claimed, e)
    requires nr < claimed && NoExtent(exts, nr) && !IsZeroed(Chunk(job.src, nr))
    ensures var top := Top(job.c, job.overHead, exts);
            var exts' := exts + [Extent(nr, top, Chunk(job.src, nr))];
            && Tiled(job.c, job.overHead, exts') && Distinct(exts')
            && top <= Top(job.c, job.overHead, exts') == Add32(top, Sectors(job.c, Chunk(job.src, nr)))
            && forall e :: e in exts' ==> FromSource(job, claimed, e)
  {
    hide Tiled, Distinct, Top, Chunk, IsZeroed, Sectors, JobOk, FromSource;
    var e := Extent(nr, Top(job.c, job.overHead, exts), Chunk(job.src, nr));
    TiledAppend(job.c, job.overHead, exts, e);
    DistinctAppend(exts, e);
    NewFromSource(job, claimed, e);
    forall x | x in exts + [e] ensures FromSource(job, claimed, x) && FromSource(job, job.GTEs, x) {
      MoreClaims(job, claimed, job.GTEs, x);
    }
    CursorFits(job, exts + [e]);
  }

  lemma NewFromSource(job: Job, claimed: nat, e: Extent)
    requires e.nr < claimed && e.data == Chunk(job.src, e.nr) && !IsZeroed(e.data)
    ensures FromSource(job, claimed, e)
  {
  }

  lemma MoreClaims(job: Job, claimed: nat, claimed': nat, e: Extent)
    requires claimed <= claimed'
    ensures FromSource(job, claimed, e) ==> FromSource(job, claimed', e)
  {
  }

  lemma ProcessedKept(job: Job, s: State, s': State)
    requires forall i :: i in s.done ==> Processed(job, s, i)
    requires s'.done == s.done && s'.log == s.log && |s'.gt| == |s.gt|
    requires forall i :: i in s.done && i < |s.gt| ==> s'.gt[i] == s.gt[i]
    requires forall e :: e in s.exts ==> e in s'.exts
    ensures forall i :: i in s'.done ==> Processed(job, s', i)
  {
    forall i | i in s'.done ensures Processed(job, s', i) {
      assert Processed(job, s, i);
    }
  }

  lemma PlaceAllocate(job: Job, s: State, t: nat)
    requires PlaceInv(job, s) && t < |s.pcs| && Mine(job, s, t) && s.pcs[t].InAlloc?
    ensures PlaceInv(job, Allocate(job, s, t, s.pcs[t].nr, s.pcs[t].data))
  {
    hide Tiled, Distinct, JobOk, FromSource, Top, Sectors, Processed;
    var pc := s.pcs[t];
    var s' := Allocate(job, s, t, pc.nr, pc.data);
    var e' := Extent(pc.nr, s.curSP, pc.data);
    assert PlaceOk(s, t);
    ExtendTiling(job, s.exts, |s.claims|, pc.nr);
    assert s'.exts == s.exts + [e'] && s'.curSP == Add32(s.curSP, Sectors(job.c, pc.data));
    OthersPlaced(s, s', t);
    ProcessedKept(job, s, s');
  }

  /** Changing the extent or entry of one worker's grain does not disturb the others. */
  lemma OthersPlaced(s: State, s': State, t: nat)
    requires t < |s.pcs| == |s'.pcs| && OnGrain(s.pcs[t]) && s'.pcs == s.pcs[t := s'.pcs[t]]
    requires forall u :: 0 <= u < |s.pcs| ==> PlaceOk(s, u)
    requires forall u :: 0 <= u < |s.pcs| && u != t && OnGrain(s.pcs[u]) ==> s.pcs[u].nr != s.pcs[t].nr
    requires |s'.gt| == |s.gt| && forall i :: 0 <= i < |s.gt| && i != s.pcs[t].nr ==> s'.gt[i] == s.gt[i]
    requires forall e :: e in s.exts ==> e in s'.exts
    requires forall e :: e in s'.exts && e !in s.exts ==> e.nr == s.pcs[t].nr
    requires PlaceOk(s', t)
    ensures forall u :: 0 <= u < |s'.pcs| ==> PlaceOk(s', u)
  {
    forall u | 0 <= u < |s'.pcs| ensures PlaceOk(s', u) {
      assert PlaceOk(s, u);
    }
  }

  lemma PlaceEntry(job: Job, s: State, t: nat)
    requires PlaceInv(job, s) && t < |s.pcs| && Mine(job, s, t) && s.pcs[t].Placed?
    ensures PlaceInv(job, SetEntry(job, s, t, s.pcs[t].nr, s.pcs[t].data, s.pcs[t].sp))
    ensures SetEntry(job, s, t, s.pcs[t].nr, s.pcs[t].data, s.pcs[t].sp).pcs[t].Recorded?
  {
    var pc := s.pcs[t];
    var s' := SetEntry(job, s, t, pc.nr, pc.data, pc.sp);
    assert PlaceOk(s, t);
    OthersPlaced(s, s', t);
    ProcessedKept(job, s, s');
  }

  /** A write inside one grain's extent leaves the other grains' records alone. */
  lemma RecordsApart(job: Job, exts: seq<Extent>, f: seq<byte>, e: Extent, d: Extent, n: nat)
    requires Tiled(job.c, job.overHead, exts) && e in exts && d in exts && e.nr != d.nr
    requires Stored(job.c, f, d) && n <= Sectors(job.c, e.data) * SECTOR
    ensures var r := Record(job.c, e.nr * GRAIN_SECTORS, e.data);
            Stored(job.c, Pwrite(f, e.sp * SECTOR, r[..n]), d)
  {
    var r := Record(job.c, e.nr * GRAIN_SECTORS, e.data);
    Apart(job.c, job.overHead, exts, e, d);
    PwriteKeeps(f, e.sp * SECTOR, r[..n], d.sp * SECTOR, Record(job.c, d.nr * GRAIN_SECTORS, d.data));
  }

  /** Writing a prefix of a grain's record into its extent keeps the processed grains,
      and the whole record makes that grain a processed one. */
  lemma WriteKeepsProcessed(job: Job, s: State, s': State, e: Extent, n: nat)
    requires PlaceInv(job, s) && e in s.exts && e.nr !in s.done && e.nr < |s.gt| && s.gt[e.nr] == e.sp
    requires s'.gt == s.gt && s'.exts == s.exts
    requires s'.done == s.done || (s'.done == s.done + {e.nr} && n == Sectors(job.c, e.data) * SECTOR)
    requires n <= Sectors(job.c, e.data) * SECTOR
    requires var r := Record(job.c, e.nr * GRAIN_SECTORS, e.data);
             s'.log == s.log + [Write(e.sp * SECTOR, r[..n])]
    ensures forall i :: i in s'.done ==> Processed(job, s', i)
    ensures WritesIn(job.overHead, s.curSP, s'.log)
  {
    var r := Record(job.c, e.nr * GRAIN_SECTORS, e.data);
    ContentAppend(s.log, Write(e.sp * SECTOR, r[..n]));
    ExtentInside(job.c, job.overHead, s.exts, e);
    assert r[..|r|] == r;
    forall i | i in s'.done ensures Processed(job, s', i) {
      if i in s.done {
        assert Processed(job, s, i);
        if !IsZeroed(Chunk(job.src, i)) {
          RecordsApart(job, s.exts, Content(s.log), e, Extent(i, s.gt[i], Chunk(job.src, i)), n);
        }
      } else {
        PwriteHas(Content(s.log), e.sp * SECTOR, r);
      }
    }
  }

  lemma PlaceWrite(job: Job, s: State, t: nat, fault: Option<nat>)
    requires PlaceInv(job, s) && t < |s.pcs| && Mine(job, s, t) && s.pcs[t].Recorded?
    ensures PlaceInv(job, WriteRecord(job, s, t, s.pcs[t].nr, s.pcs[t].data, s.pcs[t].sp, fault))
  {
    hide Tiled, Distinct, JobOk, FromSource, NoExtent, Stored, Top;
    var pc := s.pcs[t];
    var s' := WriteRecord(job, s, t, pc.nr, pc.data, pc.sp, fault);
    assert PlaceOk(s, t);
    var r := Record(job.c, pc.nr * GRAIN_SECTORS, pc.data);
    var n := if fault.Some? then Min(fault.value, |r|) else |r|;
    assert r[..|r|] == r;
    WriteKeepsProcessed(job, s, s', Extent(pc.nr, pc.sp, pc.data), n);
    OthersPlaced(s, s', t);
  }

  lemma ControlPlaces(job: Job, fused: bool, s: State, t: nat, fault: Option<nat>)
    requires t < |s.pcs| && StepControl(job, fused, s, t, fault).Some?
    ensures var s' := StepControl(job, fused, s, t, fault).value;
            && |s'.pcs| == |s.pcs| && s'.pcs == s.pcs[t := s'.pcs[t]] && s.claims <= s'.claims
            && s'.exts == s.exts && s'.gt == s.gt && s'.log == s.log && s'.curSP == s.curSP && s'.done == s.done
            && (!Claims(job, s.pcs[t]) ==> !OnGrain(s'.pcs[t]))
  {
    hide Chunk, CeilDiv;
    if HoldsRead(s.pcs[t]) { assert !s.pcs[t].InFail?; }
  }

  /** A newly claimed grain has no extent and no entry yet. */
  lemma ClaimedIsFresh(job: Job, s: State, t: nat)
    requires ClaimInv(job, s) && PlaceInv(job, s) && t < |s.pcs| && Claims(job, s.pcs[t])
    ensures PlaceOk(Claim(job, s, t, s.pcs[t].pos), t)
  {
    var k := |s.claims|;
    assert LocalsOk(job, s, t);
    forall e | e in s.exts ensures e.nr != k {
      assert FromSource(job, k, e);
    }
  }

  lemma PlaceControl(job: Job, fused: bool, s: State, t: nat, fault: Option<nat>)
    requires ClaimInv(job, s) && PlaceInv(job, s)
    requires t < |s.pcs| && StepControl(job, fused, s, t, fault).Some?
    ensures PlaceInv(job, StepControl(job, fused, s, t, fault).value)
  {
    hide ClaimInv, PlaceInv;
    ControlPlaces(job, fused, s, t, fault);
    if Claims(job, s.pcs[t]) {
      ClaimedIsFresh(job, s, t);
    }
    PlaceFrame(job, s, StepControl(job, fused, s, t, fault).value, t);
  }

  lemma ReadPlaces(job: Job, s: State, t: nat, fault: Option<nat>)
    requires t < |s.pcs| && s.pcs[t].Claimed?
    requires var pc := s.pcs[t];
             pc.pos + pc.len <= |job.src| && job.src[pc.pos..pc.pos + pc.len] == Chunk(job.src, pc.nr)
    ensures var s' := StepGrain(job, s, t, fault).value;
            var nr := s.pcs[t].nr;
            && |s'.pcs| == |s.pcs| && s'.pcs == s.pcs[t := s'.pcs[t]] && s'.claims == s.claims
            && s'.exts == s.exts && s'.gt == s.gt && s'.log == s.log && s'.curSP == s.curSP
            && (s'.done == s.done || (s'.done == s.done + {nr} && IsZeroed(Chunk(job.src, nr))))
            && (s'.pcs[t] == WantAlloc(nr, Chunk(job.src, nr)) || !OnGrain(s'.pcs[t]))
  {
  }

  lemma PlaceRead(job: Job, s: State, t: nat, fault: Option<nat>)
    requires ClaimInv(job, s) && PlaceInv(job, s) && t < |s.pcs| && s.pcs[t].Claimed?
    ensures PlaceInv(job, StepGrain(job, s, t, fault).value)
  {
    assert PlaceOk(s, t);
    hide ClaimInv, PlaceInv, StepGrain;
    ChunkIsRead(job, s, t);
    ReadPlaces(job, s, t, fault);
    PlaceFrame(job, s, StepGrain(job, s, t, fault).value, t);
  }

  lemma PlaceWait(job: Job, s: State, t: nat, fault: Option<nat>)
    requires PlaceInv(job, s) && t < |s.pcs| && s.pcs[t].WantAlloc? && StepGrain(job, s, t, fault).Some?
    ensures PlaceInv(job, StepGrain(job, s, t, fault).value)
  {
    assert PlaceOk(s, t);
    PlaceFrame(job, s, StepGrain(job, s, t, fault).value, t);
  }

  lemma PlaceGrain(job: Job, s: State, t: nat, fault: Option<nat>)
    requires ClaimInv(job, s) && PlaceInv(job, s) && t < |s.pcs| && StepGrain(job, s, t, fault).Some?
    ensures PlaceInv(job, StepGrain(job, s, t, fault).value)
  {
    hide ClaimInv, PlaceInv, Mine;
    OwnGrain(job, s, t);
    match s.pcs[t]
    case Claimed(_, _, _) => PlaceRead(job, s, t, fault);
    case WantAlloc(_, _) => PlaceWait(job, s, t, fault);
    case InAlloc(_, _) => PlaceAllocate(job, s, t);
    case Placed(_, _, _) => PlaceEntry(job, s, t);
    case Recorded(_, _, _) => PlaceWrite(job, s, t, fault);
  }

  lemma MainKeeps(job: Job, s: State, fails: bool)
    requires LockInv(job, s) && StepMain(job, s, fails).Some?
    ensures var s' := StepMain(job, s, fails).value;
            || s'.pcs == s.pcs
            || (s.main.n < |s.pcs| && s'.pcs == s.pcs[s.main.n := Init] && s.pcs[s.main.n] == NotStarted)
  {
  }

  lemma PlaceMain(job: Job, s: State, fails: bool)
    requires LockInv(job, s) && PlaceInv(job, s) && StepMain(job, s, fails).Some?
    ensures PlaceInv(job, StepMain(job, s, fails).value)
  {
    hide Tiled, Distinct, JobOk, FromSource, NoExtent, Stored, Top, LockInv;
    MainKeeps(job, s, fails);
    var s' := StepMain(job, s, fails).value;
    if s'.pcs != s.pcs {
      PlaceFrame(job, s, s', s.main.n);
    } else {
      forall u | 0 <= u < |s'.pcs| ensures PlaceOk(s', u) {
        assert PlaceOk(s, u);
      }
      forall i | i in s'.done ensures Processed(job, s', i) {
        assert Processed(job, s, i);
      }
    }
  }

  // ----- every run -----

  ghost predicate Inv(job: Job, s: State) {
    LockInv(job, s) && ClaimInv(job, s) && PlaceInv(job, s)
  }

  /** Every step of every thread, failing or not, keeps the invariant. */
  lemma InvStep(job: Job, fused: bool, s: State, e: Event)
    requires Inv(job, s) && Step(job, fused, s, e).Some?
    ensures Inv(job, Step(job, fused, s, e).value)
  {
    LockInvStep(job, fused, s, e);
    ClaimInvStep(job, fused, s, e);
    match e
    case MainStep(fails) => PlaceMain(job, s, fails);
    case WorkerStep(t, fault) =>
      if OnGrain(s.pcs[t]) {
        PlaceGrain(job, s, t, fault);
      } else {
        PlaceControl(job, fused, s, t, fault);
      }
  }

  lemma RunStep(job: Job, fused: bool, ss: seq<State>, es: seq<Event>, i: nat)
    requires IsRun(job, fused, ss, es) && i < |es|
    ensures Step(job, fused, ss[i], es[i]) == Some(ss[i + 1])
  {
  }

  lemma LockInvInitial(job: Job)
    ensures LockInv(job, Initial(job))
  {
  }

  lemma ClaimInvInitial(job: Job)
    requires Sized(job)
    ensures ClaimInv(job, Initial(job))
  {
  }

  lemma InvInitial(job: Job)
    requires JobOk(job)
    ensures Inv(job, Initial(job))
  {
    hide LockInv, ClaimInv, CanonSP, StoreOf;
    LockInvInitial(job);
    ClaimInvInitial(job);
  }

  /** The lock discipline holds in every state of every run, whatever the job. */
  lemma {:induction false} LocksReachable(job: Job, fused: bool, ss: seq<State>, es: seq<Event>, i: nat)
    requires IsRun(job, fused, ss, es) && i < |ss|
    ensures LockInv(job, ss[i])
  {
    hide LockInv, Step;
    if i == 0 {
      LockInvInitial(job);
    } else {
      LocksReachable(job, fused, ss, es, i - 1);
      RunStep(job, fused, ss, es, i - 1);
      LockInvStep(job, fused, ss[i - 1], es[i - 1]);
    }
  }

  /** So do the claims, for every source: they do not turn on sector numbers. */
  lemma {:induction false} ClaimsReachable(job: Job, fused: bool, ss: seq<State>, es: seq<Event>, i: nat)
    requires Sized(job) && IsRun(job, fused, ss, es) && i < |ss|
    ensures ClaimInv(job, ss[i])
  {
    hide LockInv, ClaimInv, Step, Sized;
    if i == 0 {
      ClaimInvInitial(job);
    } else {
      ClaimsReachable(job, fused, ss, es, i - 1);
      LocksReachable(job, fused, ss, es, i - 1);
      RunStep(job, fused, ss, es, i - 1);
      ClaimInvStep(job, fused, ss[i - 1], es[i - 1]);
    }
  }

  /** The invariant holds in every state of every run. */
  lemma {:induction false} InvReachable(job: Job, fused: bool, ss: seq<State>, es: seq<Event>, i: nat)
    requires JobOk(job) && IsRun(job, fused, ss, es) && i < |ss|
    ensures Inv(job, ss[i])
  {
    hide Inv, Step, JobOk;
    if i == 0 {
      InvInitial(job);
    } else {
      InvReachable(job, fused, ss, es, i - 1);
      RunStep(job, fused, ss, es, i - 1);
      InvStep(job, fused, ss[i - 1], es[i - 1]);
    }
  }

  /** A finished pool whose workers all ended without failure and whose read position
      reached the end has stored exactly the source's non-zero grains. */
  lemma FinishedIsComplete(job: Job, s: State)
    requires Inv(job, s) && Terminal(s) && !WorkerFailed(s) && s.status == Done
    requires NothingLost(s)
    ensures Complete(job.c, job.overHead, s.gt, s.exts, Content(s.log), StoreOf(job.src))
    ensures s.readPos == |job.src|
  {
    var store := StoreOf(job.src);
    var f := Content(s.log);
    assert |s.claims| == job.GTEs;
    forall i | 0 <= i < job.GTEs ensures i in s.done {
      assert s.claims[i] < |s.pcs|;
      assert LocalsOk(job, s, s.claims[i]);
    }
    forall i | i in store ensures 0 < |store[i]| <= GRAIN_BYTES && Extent(i, s.gt[i], store[i]) in s.exts {
      ChunkSize(job.src, i);
      assert Processed(job, s, i);
    }
    forall i | 0 <= i < |s.gt| && i !in store ensures s.gt[i] == 0 {
      if s.gt[i] != 0 { TableSound(job, s, i); }
    }
    forall e | e in s.exts ensures e.nr in store && e.data == store[e.nr] && Stored(job.c, f, e) {
      assert FromSource(job, |s.claims|, e);
      assert Processed(job, s, e.nr);
      SameExtent(s.exts, e, Extent(e.nr, s.gt[e.nr], Chunk(job.src, e.nr)));
    }
  }

  lemma TableSound(job: Job, s: State, i: nat)
    requires PlaceInv(job, s) && i < |s.gt| && s.gt[i] != 0
    ensures i < |s.claims| && !IsZeroed(Chunk(job.src, i))
  {
    assert FromSource(job, |s.claims|, Extent(i, s.gt[i], Chunk(job.src, i)));
  }

  lemma SameExtent(exts: seq<Extent>, e: Extent, e': Extent)
    requires Distinct(exts) && e in exts && e' in exts && e.nr == e'.nr
    ensures e == e'
  {
  }

  /** Workers that ended without failing carry no grain away. */
  predicate NothingLost(s: State) {
    forall t :: 0 <= t < |s.pcs| && s.pcs[t].Exited? && !s.pcs[t].failed ==> s.pcs[t].lost == None
  }

  lemma {:induction false} NothingLostReachable(job: Job, fused: bool, ss: seq<State>, es: seq<Event>, i: nat)
    requires IsRun(job, fused, ss, es) && i < |ss|
    ensures NothingLost(ss[i])
  {
    if i > 0 {
      NothingLostReachable(job, fused, ss, es, i - 1);
      RunStep(job, fused, ss, es, i - 1);
      NothingLostStep(job, fused, ss[i - 1], es[i - 1]);
    }
  }

  lemma NothingLostStep(job: Job, fused: bool, s: State, e: Event)
    requires NothingLost(s) && Step(job, fused, s, e).Some?
    ensures NothingLost(Step(job, fused, s, e).value)
  {
    match e
    case MainStep(_) =>
    case WorkerStep(t, fault) =>
      if OnGrain(s.pcs[t]) { NothingLostGrain(job, s, t, fault); } else { NothingLostControl(job, fused, s, t, fault); }
  }

  lemma NothingLostGrain(job: Job, s: State, t: nat, fault: Option<nat>)
    requires NothingLost(s) && t < |s.pcs| && StepGrain(job, s, t, fault).Some?
    ensures NothingLost(StepGrain(job, s, t, fault).value)
  {
  }

  lemma NothingLostControl(job: Job, fused: bool, s: State, t: nat, fault: Option<nat>)
    requires NothingLost(s) && t < |s.pcs| && StepControl(job, fused, s, t, fault).Some?
    ensures NothingLost(StepControl(job, fused, s, t, fault).value)
  {
  }
}
