// What whole runs of the parallel copy guarantee: success when nothing fails, what a
// reported success means, the one way a failure can be overwritten, and termination.

module PoolRuns {
  import opened Bytes
  import opened Layout
  import opened Journal
  import opened Pool

  // ----- runs without failures -----

  predicate NoFault(e: Event) {
    e != MainStep(true) && (e.WorkerStep? ==> e.fault.None?)
  }

  predicate Faultless(es: seq<Event>) {
    forall i :: 0 <= i < |es| ==> NoFault(es[i])
  }

  predicate Unfailed(pc: PC) {
    !pc.WantFail? && !pc.InFail? && (pc.Exited? ==> !pc.failed)
  }

  predicate CleanInv(job: Job, s: State) {
    && s.status != Failed
    && (s.main.Creating? || s.main == Joining(job.numThreads))
    && (forall t :: 0 <= t < |s.pcs| ==> Unfailed(s.pcs[t]) && (s.pcs[t].Exited? ==> s.status == Done))
  }

  lemma CleanControl(job: Job, s: State, t: nat)
    requires CleanInv(job, s) && t < |s.pcs| && StepControl(job, false, s, t, None).Some?
    ensures CleanInv(job, StepControl(job, false, s, t, None).value)
  {
    assert Unfailed(s.pcs[t]);
  }

  lemma InvOf(job: Job, s: State, t: nat)
    requires Inv(job, s) && t < |s.pcs|
    ensures LockInv(job, s) && ClaimInv(job, s) && PlaceInv(job, s) && PlaceOk(s, t)
    ensures OnGrain(s.pcs[t]) ==> s.pcs[t].nr < job.GTEs <= |s.gt|
  {
    hide LockInv, Tiled, Distinct;
    assert LocalsOk(job, s, t);
  }

  /** Without a fault, neither the read nor the table bounds check can fail. */
  lemma CleanGrain(job: Job, s: State, t: nat)
    requires Inv(job, s) && t < |s.pcs| && StepGrain(job, s, t, None).Some?
    ensures var s' := StepGrain(job, s, t, None).value;
            && s'.status == s.status && s'.main == s.main && |s'.pcs| == |s.pcs|
            && s'.pcs == s.pcs[t := s'.pcs[t]] && Unfailed(s'.pcs[t]) && !s'.pcs[t].Exited?
  {
    hide Inv, ClaimInv, PlaceInv, LockInv, JobOk;
    InvOf(job, s, t);
    OwnGrain(job, s, t);
    if s.pcs[t].Claimed? {
      ChunkIsRead(job, s, t);
      ReadPlaces(job, s, t, None);
    }
  }

  lemma CleanMain(job: Job, s: State)
    requires Inv(job, s) && CleanInv(job, s) && StepMain(job, s, false).Some?
    ensures CleanInv(job, StepMain(job, s, false).value)
  {
    hide ClaimInv, PlaceInv;
  }

  lemma CleanStep(job: Job, s: State, e: Event)
    requires Inv(job, s) && CleanInv(job, s) && Step(job, false, s, e).Some?
    requires e != MainStep(true) && (e.WorkerStep? ==> e.fault.None?)
    ensures CleanInv(job, Step(job, false, s, e).value)
  {
    hide Inv;
    match e
    case MainStep(_) => CleanMain(job, s);
    case WorkerStep(t, _) =>
      if OnGrain(s.pcs[t]) { CleanGrain(job, s, t); } else { CleanControl(job, s, t); }
  }

  lemma CleanInitial(job: Job)
    ensures CleanInv(job, Initial(job))
  {
  }

  lemma {:induction false} CleanReachable(job: Job, ss: seq<State>, es: seq<Event>, i: nat)
    requires JobOk(job) && IsRun(job, false, ss, es) && Faultless(es) && i < |ss|
    ensures CleanInv(job, ss[i])
  {
    hide Inv, CleanInv, Step, JobOk;
    if i == 0 {
      CleanInitial(job);
    } else {
      CleanReachable(job, ss, es, i - 1);
      RunStep(job, false, ss, es, i - 1);
      InvReachable(job, false, ss, es, i - 1);
      CleanStep(job, ss[i - 1], es[i - 1]);
    }
  }

  lemma CursorInside(job: Job, s: State)
    requires Inv(job, s)
    ensures s.curSP == Top(job.c, job.overHead, s.exts) && s.curSP < U32
    ensures |s.gt| == job.words && WritesIn(job.overHead, s.curSP, s.log)
  {
    hide LockInv, CanonSP, StoreOf, Top, Stored, Tiled;
    forall e | e in s.exts ensures FromSource(job, job.GTEs, e) { assert FromSource(job, |s.claims|, e); }
    CursorFits(job, s.exts);
  }

  /** Every failure-free interleaving, with any number of threads, reports the source's
      size and leaves exactly the source's non-zero grains, properly tiled. */
  lemma CleanRunCompletes(job: Job, ss: seq<State>, es: seq<Event>)
    requires JobOk(job) && job.numThreads > 0
    requires IsRun(job, false, ss, es) && Faultless(es) && Terminal(ss[|es|])
    ensures var s := ss[|es|];
            && Result(job, s) == |job.src| && WritesIn(job.overHead, s.curSP, s.log)
            && Complete(job.c, job.overHead, s.gt, s.exts, Content(s.log), StoreOf(job.src))
            && s.curSP == Top(job.c, job.overHead, s.exts) && s.curSP < U32 && |s.gt| == job.words
  {
    var s := ss[|es|];
    CleanReachable(job, ss, es, |es|);
    InvReachable(job, false, ss, es, |es|);
    NothingLostReachable(job, false, ss, es, |es|);
    assert s.main.n == job.numThreads;
    assert s.pcs[0].Exited?;
    FinishedIsComplete(job, s);
    CursorInside(job, s);
  }

  // ----- what a reported success means -----

  /** The DONE write of step `i` lands on FAILED. */
  predicate Overwrites(ss: seq<State>, i: nat)
    requires i + 1 < |ss|
  {
    ss[i].status == Failed && ss[i + 1].status == Done
  }

  lemma RunAt(job: Job, fused: bool, ss: seq<State>, es: seq<Event>, i: nat)
    requires IsRun(job, fused, ss, es) && i < |es|
    ensures |ss| == |es| + 1 && LockInv(job, ss[i]) && Step(job, fused, ss[i], es[i]) == Some(ss[i + 1])
  {
    LocksReachable(job, fused, ss, es, i);
    RunStep(job, fused, ss, es, i);
  }

  /** FAILED is recorded, and stays recorded unless it is overwritten. */
  lemma {:induction false} FailureKept(job: Job, fused: bool, ss: seq<State>, es: seq<Event>, n: nat)
    requires IsRun(job, fused, ss, es) && n < |ss|
    requires forall i :: 0 <= i < n ==> !Overwrites(ss, i)
    ensures WorkerFailed(ss[n]) ==> ss[n].status == Failed
  {
    if n == 0 {
      assert !WorkerFailed(Initial(job));
    } else {
      hide LockInv, Step, WorkerFailed;
      FailureKept(job, fused, ss, es, n - 1);
      RunAt(job, fused, ss, es, n - 1);
      assert !Overwrites(ss, n - 1);
      FailureStep(job, fused, ss[n - 1], es[n - 1]);
    }
  }

  /** The status after a step: a worker that ends as failed has just written FAILED, and
      nothing but a DONE write replaces it. */
  predicate StatusMoves(s: State, s': State, t: nat)
    requires t < |s.pcs|
  {
    && |s'.pcs| == |s.pcs| && s'.pcs == s.pcs[t := s'.pcs[t]] && !s.pcs[t].Exited?
    && (s'.pcs[t].Exited? && s'.pcs[t].failed ==> s'.status == Failed)
    && (s.status != Running ==> s'.status != Running)
  }

  lemma ControlStatus(job: Job, fused: bool, s: State, t: nat, fault: Option<nat>)
    requires t < |s.pcs| && StepControl(job, fused, s, t, fault).Some?
    ensures StatusMoves(s, StepControl(job, fused, s, t, fault).value, t)
  {
  }

  lemma GrainStatus(job: Job, s: State, t: nat, fault: Option<nat>)
    requires t < |s.pcs| && StepGrain(job, s, t, fault).Some?
    ensures StatusMoves(s, StepGrain(job, s, t, fault).value, t)
    ensures StepGrain(job, s, t, fault).value.status == s.status
  {
  }

  lemma StatusStep(job: Job, fused: bool, s: State, e: Event) returns (t: nat)
    requires LockInv(job, s) && Step(job, fused, s, e).Some?
    ensures var s' := Step(job, fused, s, e).value;
            (t < |s.pcs| && StatusMoves(s, s', t))
            || (s'.pcs == s.pcs && (s.status != Running ==> s'.status != Running))
  {
    t := 0;
    match e
    case MainStep(fails) => t := s.main.n;
    case WorkerStep(u, fault) =>
      t := u;
      if OnGrain(s.pcs[t]) { GrainStatus(job, s, t, fault); } else { ControlStatus(job, fused, s, t, fault); }
  }

  lemma FailureStep(job: Job, fused: bool, s: State, e: Event)
    requires LockInv(job, s) && Step(job, fused, s, e).Some?
    ensures var s' := Step(job, fused, s, e).value;
            && (WorkerFailed(s') ==> WorkerFailed(s) || s'.status == Failed)
            && (s.status != Running ==> s'.status != Running)
            && (WorkerFailed(s) ==> WorkerFailed(s'))
  {
    var s' := Step(job, fused, s, e).value;
    var t := StatusStep(job, fused, s, e);
    if WorkerFailed(s) {
      var u :| 0 <= u < |s.pcs| && s.pcs[u].Exited? && s.pcs[u].failed;
      assert s'.pcs[u] == s.pcs[u];
    }
    if WorkerFailed(s') && s'.pcs != s.pcs {
      var u :| 0 <= u < |s'.pcs| && s'.pcs[u].Exited? && s'.pcs[u].failed;
      assert u == t || s.pcs[u] == s'.pcs[u];
    }
  }

  /** If no DONE write lands on FAILED, a non-negative result means that no worker failed,
      that every grain was processed, and that the image is the source's. */
  lemma ReportedSuccess(job: Job, fused: bool, ss: seq<State>, es: seq<Event>)
    requires JobOk(job) && IsRun(job, fused, ss, es) && Terminal(ss[|es|])
    requires forall i :: 0 <= i < |es| ==> !Overwrites(ss, i)
    requires Result(job, ss[|es|]) >= 0
    ensures var s := ss[|es|];
            && !WorkerFailed(s) && Result(job, s) == |job.src|
            && Complete(job.c, job.overHead, s.gt, s.exts, Content(s.log), StoreOf(job.src))
  {
    FailureKept(job, fused, ss, es, |es|);
    InvReachable(job, fused, ss, es, |es|);
    NothingLostReachable(job, fused, ss, es, |es|);
    FinishedIsComplete(job, ss[|es|]);
  }

  // With the check and the DONE write in one critical section.

  predicate FusedOk(job: Job, s: State) {
    forall t :: 0 <= t < |s.pcs| ==>
      !s.pcs[t].WantDone? && !s.pcs[t].InDone? && (s.pcs[t].Past? ==> s.pcs[t].pos < |job.src|)
  }

  lemma FusedControl(job: Job, s: State, t: nat, fault: Option<nat>)
    requires FusedOk(job, s) && t < |s.pcs| && StepControl(job, true, s, t, fault).Some?
    ensures var s' := StepControl(job, true, s, t, fault).value;
            FusedOk(job, s') && !(s.status == Failed && s'.status == Done)
  {
    assert !s.pcs[t].InDone?;
  }

  lemma FusedGrain(job: Job, s: State, t: nat, fault: Option<nat>)
    requires FusedOk(job, s) && t < |s.pcs| && StepGrain(job, s, t, fault).Some?
    ensures var s' := StepGrain(job, s, t, fault).value;
            FusedOk(job, s') && !(s.status == Failed && s'.status == Done)
  {
  }

  lemma FusedStep(job: Job, s: State, e: Event)
    requires FusedOk(job, s) && Step(job, true, s, e).Some?
    ensures var s' := Step(job, true, s, e).value;
            FusedOk(job, s') && !(s.status == Failed && s'.status == Done)
  {
    match e
    case MainStep(_) =>
    case WorkerStep(t, fault) =>
      hide FusedOk;
      if OnGrain(s.pcs[t]) { FusedGrain(job, s, t, fault); } else { FusedControl(job, s, t, fault); }
  }

  lemma {:induction false} FusedReachable(job: Job, ss: seq<State>, es: seq<Event>, n: nat)
    requires IsRun(job, true, ss, es) && n < |ss|
    ensures FusedOk(job, ss[n]) && forall i :: 0 <= i < n ==> !Overwrites(ss, i)
  {
    if n > 0 {
      hide FusedOk, Step;
      FusedReachable(job, ss, es, n - 1);
      RunStep(job, true, ss, es, n - 1);
      FusedStep(job, ss[n - 1], es[n - 1]);
    }
  }

  /** Were the FAILED check and the DONE write one critical section, a non-negative result
      would always mean a complete copy. */
  lemma FusedSuccess(job: Job, ss: seq<State>, es: seq<Event>)
    requires JobOk(job) && IsRun(job, true, ss, es) && Terminal(ss[|es|]) && Result(job, ss[|es|]) >= 0
    ensures var s := ss[|es|];
            && !WorkerFailed(s) && Result(job, s) == |job.src|
            && Complete(job.c, job.overHead, s.gt, s.exts, Content(s.log), StoreOf(job.src))
  {
    FusedReachable(job, ss, es, |es|);
    ReportedSuccess(job, true, ss, es);
  }

  // ----- what FAILED does -----

  /** From a FAILED status on nothing but an overwriting DONE changes it. */
  lemma {:induction false} StaysFailed(job: Job, fused: bool, ss: seq<State>, es: seq<Event>, i: nat, n: nat)
    requires IsRun(job, fused, ss, es) && i <= n < |ss| && ss[i].status == Failed
    requires forall m :: i <= m < n ==> !Overwrites(ss, m)
    ensures ss[n].status == Failed
  {
    if i < n {
      hide LockInv, Step, WorkerFailed;
      StaysFailed(job, fused, ss, es, i, n - 1);
      RunAt(job, fused, ss, es, n - 1);
      assert !Overwrites(ss, n - 1);
      FailureStep(job, fused, ss[n - 1], es[n - 1]);
    }
  }

  /** Once the creating thread joins although it could not create every worker, the status is
      FAILED, unless a DONE write has landed on it. */
  lemma {:induction false} CreationFailed(job: Job, fused: bool, ss: seq<State>, es: seq<Event>, n: nat)
    requires IsRun(job, fused, ss, es) && n < |ss|
    requires forall i :: 0 <= i < n ==> !Overwrites(ss, i)
    ensures ss[n].main.Joining? && ss[n].main.n < job.numThreads ==> ss[n].status == Failed
  {
    if n > 0 {
      CreationFailed(job, fused, ss, es, n - 1);
      if ss[n - 1].status == Failed {
        StaysFailed(job, fused, ss, es, n - 1, n);
      } else {
        RunAt(job, fused, ss, es, n - 1);
        CreationStep(job, fused, ss[n - 1], es[n - 1]);
      }
    }
  }

  /** Without all its workers a copy is never reported as done, overwritten status or not. */
  lemma FewerWorkers(job: Job, fused: bool, ss: seq<State>, es: seq<Event>)
    requires IsRun(job, fused, ss, es) && Terminal(ss[|es|]) && ss[|es|].main.n < job.numThreads
    ensures Result(job, ss[|es|]) == -1
  {
  }

  lemma CreationStep(job: Job, fused: bool, s: State, e: Event)
    requires LockInv(job, s) && Step(job, fused, s, e).Some?
    ensures var s' := Step(job, fused, s, e).value;
            s'.main.Joining? && s'.main.n < job.numThreads ==> s.main == s'.main || s'.status == Failed
  {
    match e
    case MainStep(_) =>
    case WorkerStep(t, fault) =>
      if OnGrain(s.pcs[t]) { GrainKeepsMain(job, s, t, fault); } else { ControlKeepsMain(job, fused, s, t, fault); }
  }

  lemma ControlKeepsMain(job: Job, fused: bool, s: State, t: nat, fault: Option<nat>)
    requires t < |s.pcs| && StepControl(job, fused, s, t, fault).Some?
    ensures StepControl(job, fused, s, t, fault).value.main == s.main
  {
  }

  /** The one worker that may be between its status check and its claim. */
  function PastCheck(s: State): nat {
    if s.readLock.Worker? && s.readLock.t < |s.pcs| && s.pcs[s.readLock.t].Past? then 1 else 0
  }

  lemma ClaimsControl(job: Job, fused: bool, s: State, t: nat, fault: Option<nat>)
    requires LockInv(job, s) && s.status == Failed && t < |s.pcs| && StepControl(job, fused, s, t, fault).Some?
    ensures var s' := StepControl(job, fused, s, t, fault).value;
            |s'.claims| + PastCheck(s') <= |s.claims| + PastCheck(s)
  {
  }

  lemma ClaimsGrain(job: Job, s: State, t: nat, fault: Option<nat>)
    requires LockInv(job, s) && t < |s.pcs| && StepGrain(job, s, t, fault).Some?
    ensures var s' := StepGrain(job, s, t, fault).value;
            |s'.claims| + PastCheck(s') <= |s.claims| + PastCheck(s)
  {
    hide StepGrain, LockInv;
    GrainKeepsLock(job, s, t, fault);
  }

  lemma GrainKeepsLock(job: Job, s: State, t: nat, fault: Option<nat>)
    requires t < |s.pcs| && StepGrain(job, s, t, fault).Some?
    ensures var s' := StepGrain(job, s, t, fault).value;
            && s'.readLock == s.readLock && s'.claims == s.claims && |s'.pcs| == |s.pcs|
            && s'.pcs == s.pcs[t := s'.pcs[t]] && !s'.pcs[t].Past?
  {
    hide IsZeroed;
  }

  lemma ClaimsStep(job: Job, fused: bool, s: State, e: Event)
    requires LockInv(job, s) && s.status == Failed && Step(job, fused, s, e).Some?
    ensures var s' := Step(job, fused, s, e).value;
            |s'.claims| + PastCheck(s') <= |s.claims| + PastCheck(s)
  {
    match e
    case MainStep(_) =>
    case WorkerStep(t, fault) =>
      if OnGrain(s.pcs[t]) { ClaimsGrain(job, s, t, fault); } else { ClaimsControl(job, fused, s, t, fault); }
  }

  lemma {:induction false} ClaimsAfter(job: Job, fused: bool, ss: seq<State>, es: seq<Event>, i: nat, n: nat)
    requires IsRun(job, fused, ss, es) && i <= n < |ss| && ss[i].status == Failed
    requires forall m :: i <= m < n ==> !Overwrites(ss, m)
    ensures |ss[n].claims| + PastCheck(ss[n]) <= |ss[i].claims| + PastCheck(ss[i])
  {
    if i < n {
      hide LockInv, Step, PastCheck;
      ClaimsAfter(job, fused, ss, es, i, n - 1);
      StaysFailed(job, fused, ss, es, i, n - 1);
      RunAt(job, fused, ss, es, n - 1);
      ClaimsStep(job, fused, ss[n - 1], es[n - 1]);
    }
  }

  /** A failure stops the copy early: from a FAILED status on that is not overwritten, at most
      one more grain is claimed, however many threads there are. */
  lemma StopsEarly(job: Job, fused: bool, ss: seq<State>, es: seq<Event>, i: nat, n: nat)
    requires IsRun(job, fused, ss, es) && i <= n < |ss| && ss[i].status == Failed
    requires forall m :: i <= m < n ==> !Overwrites(ss, m)
    ensures |ss[n].claims| <= |ss[i].claims| + 1
  {
    ClaimsAfter(job, fused, ss, es, i, n);
  }

  // ----- the lost failure, exactly -----

  /** FAILED was written by a worker that then ended, or because a thread could not be created. */
  predicate FailCause(job: Job, s: State) {
    && (s.status == Failed ==> WorkerFailed(s) || (s.main.Joining? && s.main.n < job.numThreads))
    && (s.main.MainWantFail? || s.main.MainInFail? ==> s.main.n < job.numThreads)
  }

  lemma FailCauseControl(job: Job, fused: bool, s: State, t: nat, fault: Option<nat>)
    requires FailCause(job, s) && t < |s.pcs| && StepControl(job, fused, s, t, fault).Some?
    requires WorkerFailed(s) ==> WorkerFailed(StepControl(job, fused, s, t, fault).value)
    ensures FailCause(job, StepControl(job, fused, s, t, fault).value)
  {
    if s.pcs[t].InFail? {
      assert StepControl(job, fused, s, t, fault).value.pcs[t].failed;
    }
  }

  lemma FailCauseStep(job: Job, fused: bool, s: State, e: Event)
    requires LockInv(job, s) && FailCause(job, s) && Step(job, fused, s, e).Some?
    ensures FailCause(job, Step(job, fused, s, e).value)
  {
    FailureStep(job, fused, s, e);
    hide WorkerFailed;
    match e
    case MainStep(_) =>
    case WorkerStep(t, fault) =>
      if OnGrain(s.pcs[t]) {
        GrainStatus(job, s, t, fault);
        GrainKeepsMain(job, s, t, fault);
      } else {
        FailCauseControl(job, fused, s, t, fault);
      }
  }

  lemma GrainKeepsMain(job: Job, s: State, t: nat, fault: Option<nat>)
    requires t < |s.pcs| && StepGrain(job, s, t, fault).Some?
    ensures StepGrain(job, s, t, fault).value.main == s.main
  {
  }

  lemma FailCauseInitial(job: Job)
    ensures FailCause(job, Initial(job))
  {
  }

  lemma {:induction false} FailCauseReachable(job: Job, fused: bool, ss: seq<State>, es: seq<Event>, n: nat)
    requires IsRun(job, fused, ss, es) && n < |ss|
    ensures FailCause(job, ss[n])
  {
    hide LockInv, Step, FailCause;
    if n == 0 {
      FailCauseInitial(job);
    } else {
      FailCauseReachable(job, fused, ss, es, n - 1);
      RunAt(job, fused, ss, es, n - 1);
      FailCauseStep(job, fused, ss[n - 1], es[n - 1]);
    }
  }

  /** From step `i` on: failures stay, a status once set stays set, and the joined count too. */
  lemma {:induction false} Later(job: Job, fused: bool, ss: seq<State>, es: seq<Event>, i: nat, n: nat)
    requires IsRun(job, fused, ss, es) && i <= n < |ss|
    ensures WorkerFailed(ss[i]) ==> WorkerFailed(ss[n])
    ensures ss[i].status != Running ==> ss[n].status != Running
    ensures ss[i].main.Joining? ==> ss[n].main == ss[i].main
  {
    hide LockInv, Step, WorkerFailed;
    if i < n {
      RunLength(job, fused, ss, es);
      hide IsRun;
      Later(job, fused, ss, es, i, n - 1);
      RunAt(job, fused, ss, es, n - 1);
      FailureStep(job, fused, ss[n - 1], es[n - 1]);
      if ss[n - 1].main.Joining? { JoiningStays(job, fused, ss[n - 1], es[n - 1]); }
    }
  }

  lemma JoiningStays(job: Job, fused: bool, s: State, e: Event)
    requires s.main.Joining? && Step(job, fused, s, e).Some?
    ensures Step(job, fused, s, e).value.main == s.main
  {
  }

  lemma {:induction false} LastFailed(ss: seq<State>, i: nat) returns (m: nat)
    requires i < |ss| && ss[i].status == Failed
    ensures i <= m < |ss| && ss[m].status == Failed
    ensures forall j :: m < j < |ss| ==> ss[j].status != Failed
    decreases |ss| - i
  {
    if j :| i < j < |ss| && ss[j].status == Failed {
      m := LastFailed(ss, j);
    } else {
      m := i;
    }
  }

  /** With all threads created, success is reported although a worker failed exactly when
      a DONE write landed on FAILED and no worker failed after it. */
  lemma EscapesIff(job: Job, ss: seq<State>, es: seq<Event>)
    requires IsRun(job, false, ss, es) && Terminal(ss[|es|])
    requires ss[|es|].main.n == job.numThreads
    ensures (Result(job, ss[|es|]) >= 0 && WorkerFailed(ss[|es|])) <==>
            exists i :: 0 <= i < |es| && Overwrites(ss, i) && forall j :: i < j <= |es| ==> ss[j].status != Failed
  {
    var last := ss[|es|];
    hide IsRun, WorkerFailed;
    if Result(job, last) >= 0 && WorkerFailed(last) {
      RunLength(job, false, ss, es);
      EscapeOverwrites(job, ss, es);
      var i :| 0 <= i < |es| && Overwrites(ss, i);
      var m := LastFailed(ss, i);
      RunStatus(job, ss, es, m);
      assert Overwrites(ss, m);
    }
    if i :| 0 <= i < |es| && Overwrites(ss, i) && forall j :: i < j <= |es| ==> ss[j].status != Failed {
      FailCauseReachable(job, false, ss, es, i);
      Later(job, false, ss, es, i, |es|);
    }
  }

  lemma RunLength(job: Job, fused: bool, ss: seq<State>, es: seq<Event>)
    requires IsRun(job, fused, ss, es)
    ensures |ss| == |es| + 1
  {
  }

  lemma EscapeOverwrites(job: Job, ss: seq<State>, es: seq<Event>)
    requires IsRun(job, false, ss, es)
    requires Result(job, ss[|es|]) >= 0 && WorkerFailed(ss[|es|])
    ensures exists i :: 0 <= i < |es| && Overwrites(ss, i)
  {
    if forall i :: 0 <= i < |es| ==> !Overwrites(ss, i) {
      FailureKept(job, false, ss, es, |es|);
      assert false;
    }
  }

  lemma RunStatus(job: Job, ss: seq<State>, es: seq<Event>, m: nat)
    requires IsRun(job, false, ss, es) && m < |es|
    ensures ss[m].status != Running ==> ss[m + 1].status != Running
  {
    Later(job, false, ss, es, m, m + 1);
  }

  /** Between the FAILED check and the DONE write. */
  predicate InWindow(pc: PC) {
    pc.Past? || pc.WantDone? || pc.InDone?
  }

  /** A worker enters the window only by a check that did not see FAILED, and no other
      thread's step moves it. */
  lemma EntersWindow(job: Job, s: State, e: Event, s': State, t: nat)
    requires LockInv(job, s) && Step(job, false, s, e) == Some(s')
    requires t < |s.pcs| && t < |s'.pcs| && InWindow(s'.pcs[t])
    ensures InWindow(s.pcs[t]) ||
            (e.WorkerStep? && e.t == t && s.pcs[t].InCheck? && s.status != Failed && s'.status == s.status)
  {
    match e
    case MainStep(_) =>
    case WorkerStep(u, fault) =>
      if u == t {
        if OnGrain(s.pcs[t]) { GrainLeavesWindow(job, s, t, fault); } else { CheckEntersWindow(job, s, t, fault); }
      } else {
        OthersStay(job, s, u, fault, t);
      }
  }

  lemma CheckEntersWindow(job: Job, s: State, t: nat, fault: Option<nat>)
    requires t < |s.pcs| && StepControl(job, false, s, t, fault).Some?
    ensures var s' := StepControl(job, false, s, t, fault).value;
            InWindow(s'.pcs[t]) && !InWindow(s.pcs[t]) ==>
              s.pcs[t].InCheck? && s.status != Failed && s'.status == s.status
  {
  }

  lemma GrainLeavesWindow(job: Job, s: State, t: nat, fault: Option<nat>)
    requires t < |s.pcs| && StepGrain(job, s, t, fault).Some?
    ensures !InWindow(StepGrain(job, s, t, fault).value.pcs[t])
  {
  }

  lemma OthersStay(job: Job, s: State, u: nat, fault: Option<nat>, t: nat)
    requires u < |s.pcs| && t < |s.pcs| && t != u && StepWorker(job, false, s, u, fault).Some?
    ensures |StepWorker(job, false, s, u, fault).value.pcs| == |s.pcs|
    ensures StepWorker(job, false, s, u, fault).value.pcs[t] == s.pcs[t]
  {
    if OnGrain(s.pcs[u]) { GrainStatus(job, s, u, fault); } else { ControlStatus(job, false, s, u, fault); }
  }

  lemma {:induction false} WindowStart(job: Job, ss: seq<State>, es: seq<Event>, n: nat, t: nat) returns (j: nat)
    requires IsRun(job, false, ss, es) && n < |ss| && t < |ss[n].pcs| && InWindow(ss[n].pcs[t])
    ensures j < n && es[j].WorkerStep? && es[j].t == t
    ensures ss[j].status != Failed && ss[j + 1].status != Failed
    ensures forall m :: j < m <= n ==> t < |ss[m].pcs| && InWindow(ss[m].pcs[t])
  {
    hide LockInv, Step;
    SamePool(job, ss, es, n);
    assert ss[n].pcs != Initial(job).pcs;
    RunAt(job, false, ss, es, n - 1);
    SamePool(job, ss, es, n - 1);
    EntersWindow(job, ss[n - 1], es[n - 1], ss[n], t);
    if InWindow(ss[n - 1].pcs[t]) {
      j := WindowStart(job, ss, es, n - 1, t);
    } else {
      j := n - 1;
    }
  }

  lemma SamePool(job: Job, ss: seq<State>, es: seq<Event>, n: nat)
    requires IsRun(job, false, ss, es) && n < |ss|
    ensures |ss[n].pcs| == job.numThreads
  {
    LocksReachable(job, false, ss, es, n);
  }

  /** A DONE write that lands on FAILED comes from a worker that checked the status before
      FAILED was written and has held the read position ever since; FAILED was written
      in between.  No other order of events loses a failure. */
  lemma LostWindow(job: Job, ss: seq<State>, es: seq<Event>, i: nat) returns (t: nat, j: nat, k: nat)
    requires IsRun(job, false, ss, es) && i < |es| && Overwrites(ss, i)
    ensures es[i].WorkerStep? && es[i].t == t < |ss[i].pcs| && ss[i].pcs[t].InDone?
    ensures j < k < i && es[j].WorkerStep? && es[j].t == t
    ensures ss[j].status != Failed && ss[k].status != Failed && ss[k + 1].status == Failed
    ensures forall m :: j < m <= i ==> ss[m].readLock == Worker(t)
  {
    RunAt(job, false, ss, es, i);
    DoneWriter(job, ss[i], es[i]);
    t := es[i].t;
    j := WindowStart(job, ss, es, i, t);
    k := j + 1;
    while ss[k + 1].status != Failed
      invariant j < k < i && ss[k].status != Failed
      decreases i - k
    {
      k := k + 1;
    }
    forall m | j < m <= i ensures ss[m].readLock == Worker(t) {
      LocksReachable(job, false, ss, es, m);
      assert HoldsRead(ss[m].pcs[t]);
    }
  }

  /** Only the DONE critical section writes DONE. */
  lemma DoneWriter(job: Job, s: State, e: Event)
    requires LockInv(job, s) && Step(job, false, s, e).Some?
    requires s.status != Done && Step(job, false, s, e).value.status == Done
    ensures e.WorkerStep? && e.t < |s.pcs| && s.pcs[e.t].InDone?
  {
    match e
    case MainStep(_) =>
    case WorkerStep(t, fault) =>
      if OnGrain(s.pcs[t]) { GrainStatus(job, s, t, fault); }
  }

  // ----- progress and termination -----

  /** No deadlock: until the pool has ended, some thread can take a step, because the
      read position is locked before the status and the other locks are taken alone. */
  lemma Progress(job: Job, fused: bool, s: State) returns (e: Event)
    requires LockInv(job, s) && !Terminal(s)
    ensures Step(job, fused, s, e).Some? && NoFault(e)
  {
    if s.stateLock == Main {
      e := MainStep(false);
    } else if s.stateLock.Worker? {
      e := WorkerStep(s.stateLock.t, None);
      assert HoldsState(s.pcs[s.stateLock.t]);
    } else if s.writeLock.Worker? {
      e := WorkerStep(s.writeLock.t, None);
    } else if s.readLock.Worker? {
      e := WorkerStep(s.readLock.t, None);
      assert HoldsRead(s.pcs[s.readLock.t]);
    } else if !s.main.Joining? {
      e := MainStep(false);
    } else {
      var t :| 0 <= t < |s.pcs| && !s.pcs[t].NotStarted? && !s.pcs[t].Exited?;
      e := WorkerStep(t, None);
    }
  }

  function Rank(pc: PC): nat {
    match pc
    case Exited(_, _) => 0
    case InFail(_) => 1
    case WantFail(_) => 2
    case InDone(_) => 1
    case WantDone(_) => 2
    case Past(_) => 3
    case InCheck(_) => 4
    case WantCheck(_) => 5
    case WantRead => 6
    case Init => 7
    case NotStarted => 8
    case Recorded(_, _, _) => 8
    case Placed(_, _, _) => 9
    case InAlloc(_, _) => 10
    case WantAlloc(_, _) => 11
    case Claimed(_, _, _) => 12
  }

  function MainRank(m: MainPC): nat {
    match m
    case Joining(_) => 0
    case MainInFail(_) => 1
    case MainWantFail(_) => 2
    case Creating(_) => 3
  }

  function RankSum(pcs: seq<PC>): nat {
    if pcs == [] then 0 else RankSum(pcs[..|pcs| - 1]) + Rank(pcs[|pcs| - 1])
  }

  lemma {:induction false} RankSumUpdate(pcs: seq<PC>, t: nat, pc: PC)
    requires t < |pcs|
    ensures RankSum(pcs[t := pc]) == RankSum(pcs) - Rank(pcs[t]) + Rank(pc)
  {
    var n := |pcs| - 1;
    if t == n {
      assert pcs[t := pc][..n] == pcs[..n];
    } else {
      RankSumUpdate(pcs[..n], t, pc);
      assert pcs[t := pc][..n] == pcs[..n][t := pc];
    }
  }

  lemma {:induction false} RankSumInitial(pcs: seq<PC>)
    requires forall t :: 0 <= t < |pcs| ==> pcs[t] == NotStarted
    ensures RankSum(pcs) == 8 * |pcs|
  {
    if pcs != [] {
      RankSumInitial(pcs[..|pcs| - 1]);
    }
  }

  /** Unclaimed source bytes first, then how far every thread still has to go. */
  function Remaining(job: Job, s: State): int {
    (|job.src| - s.readPos) * 10 + RankSum(s.pcs) + MainRank(s.main)
  }

  lemma ControlDescends(job: Job, fused: bool, s: State, t: nat, fault: Option<nat>)
    requires t < |s.pcs| && LocalsOk(job, s, t) && StepControl(job, fused, s, t, fault).Some?
    ensures var s' := StepControl(job, fused, s, t, fault).value;
            && |s'.pcs| == |s.pcs| && s'.pcs == s.pcs[t := s'.pcs[t]] && s'.main == s.main
            && (|job.src| - s'.readPos) * 10 + Rank(s'.pcs[t]) < (|job.src| - s.readPos) * 10 + Rank(s.pcs[t])
  {
    if HoldsRead(s.pcs[t]) {
      ReadPhaseDescends(job, fused, s, t, fault);
    } else {
      IdleDescends(job, fused, s, t, fault);
    }
  }

  lemma ReadPhaseDescends(job: Job, fused: bool, s: State, t: nat, fault: Option<nat>)
    requires t < |s.pcs| && LocalsOk(job, s, t) && StepControl(job, fused, s, t, fault).Some? && HoldsRead(s.pcs[t])
    ensures var s' := StepControl(job, fused, s, t, fault).value;
            && |s'.pcs| == |s.pcs| && s'.pcs == s.pcs[t := s'.pcs[t]] && s'.main == s.main
            && (|job.src| - s'.readPos) * 10 + Rank(s'.pcs[t]) < (|job.src| - s.readPos) * 10 + Rank(s.pcs[t])
  {
  }

  lemma IdleDescends(job: Job, fused: bool, s: State, t: nat, fault: Option<nat>)
    requires t < |s.pcs| && StepControl(job, fused, s, t, fault).Some? && !HoldsRead(s.pcs[t])
    ensures var s' := StepControl(job, fused, s, t, fault).value;
            && |s'.pcs| == |s.pcs| && s'.pcs == s.pcs[t := s'.pcs[t]] && s'.main == s.main
            && s'.readPos == s.readPos && Rank(s'.pcs[t]) < Rank(s.pcs[t])
  {
  }

  lemma GrainDescends(job: Job, s: State, t: nat, fault: Option<nat>)
    requires t < |s.pcs| && StepGrain(job, s, t, fault).Some?
    ensures var s' := StepGrain(job, s, t, fault).value;
            && |s'.pcs| == |s.pcs| && s'.pcs == s.pcs[t := s'.pcs[t]] && s'.main == s.main
            && s'.readPos == s.readPos && Rank(s'.pcs[t]) < Rank(s.pcs[t])
  {
  }

  lemma MainDescends(job: Job, s: State, fails: bool)
    requires LockInv(job, s) && StepMain(job, s, fails).Some?
    ensures Remaining(job, StepMain(job, s, fails).value) < Remaining(job, s)
  {
    if s.main.Creating? && s.main.n < |s.pcs| {
      assert s.pcs[s.main.n].NotStarted?;
      RankSumUpdate(s.pcs, s.main.n, Init);
    }
  }

  /** Every step of every thread brings the end nearer. */
  lemma Descends(job: Job, fused: bool, s: State, e: Event)
    requires LockInv(job, s) && ClaimInv(job, s) && Step(job, fused, s, e).Some?
    ensures 0 <= Remaining(job, Step(job, fused, s, e).value) < Remaining(job, s)
  {
    var s' := Step(job, fused, s, e).value;
    ClaimInvStep(job, fused, s, e);
    match e
    case MainStep(fails) => MainDescends(job, s, fails);
    case WorkerStep(t, fault) =>
      assert LocalsOk(job, s, t);
      hide LockInv, ClaimInv, LocalsOk;
      if OnGrain(s.pcs[t]) { GrainDescends(job, s, t, fault); } else { ControlDescends(job, fused, s, t, fault); }
      RankSumUpdate(s.pcs, t, s'.pcs[t]);
  }

  lemma RemainingInitial(job: Job)
    ensures 0 <= Remaining(job, Initial(job)) <= 10 * |job.src| + 8 * job.numThreads + 3
  {
    RankSumInitial(Initial(job).pcs);
  }

  /** Every run of the pool ends: whatever the schedule and the failures, it has at most
      ten steps per source byte, eight per thread and three more. */
  lemma {:induction false} RunsEnd(job: Job, fused: bool, ss: seq<State>, es: seq<Event>, n: nat)
    requires Sized(job) && IsRun(job, fused, ss, es) && n < |ss|
    ensures Remaining(job, ss[n]) >= 0
    ensures n + Remaining(job, ss[n]) <= 10 * |job.src| + 8 * job.numThreads + 3
    ensures n <= 10 * |job.src| + 8 * job.numThreads + 3
  {
    hide Sized, LockInv, ClaimInv, Step, Remaining;
    if n == 0 {
      RemainingInitial(job);
    } else {
      RunsEnd(job, fused, ss, es, n - 1);
      RunStep(job, fused, ss, es, n - 1);
      LocksReachable(job, fused, ss, es, n - 1);
      ClaimsReachable(job, fused, ss, es, n - 1);
      Descends(job, fused, ss[n - 1], es[n - 1]);
    }
  }

  /** Every run can be carried on, without further failures, until all threads have ended:
      no schedule paints the pool into a corner. */
  lemma {:induction false} RunToEnd(job: Job, ss: seq<State>, es: seq<Event>) returns (ss': seq<State>, es': seq<Event>)
    requires Sized(job) && IsRun(job, false, ss, es)
    ensures IsRun(job, false, ss', es') && Terminal(ss'[|es'|])
    ensures es <= es' && Faultless(es'[|es|..])
    decreases Remaining(job, ss[|es|])
  {
    hide Sized, LockInv, ClaimInv, Step, Remaining, IsRun, Terminal;
    RunLength(job, false, ss, es);
    ss', es' := ss, es;
    if !Terminal(ss[|es|]) {
      LocksReachable(job, false, ss, es, |es|);
      ClaimsReachable(job, false, ss, es, |es|);
      var e := Progress(job, false, ss[|es|]);
      Descends(job, false, ss[|es|], e);
      var s1, e1 := Extend(job, ss, es, e);
      RunLength(job, false, s1, e1);
      ss', es' := RunToEnd(job, s1, e1);
      assert es'[|es|..] == [e] + es'[|e1|..];
    }
  }

  /** In particular there are failure-free runs of every job. */
  lemma CleanRunExists(job: Job) returns (ss: seq<State>, es: seq<Event>)
    requires Sized(job)
    ensures IsRun(job, false, ss, es) && Faultless(es) && Terminal(ss[|es|])
  {
    hide Sized, Step, Terminal;
    ss, es := RunToEnd(job, [Initial(job)], []);
    assert es[0..] == es;
  }

  // ----- a run that loses a failure -----

  lemma Extend(job: Job, ss: seq<State>, es: seq<Event>, e: Event) returns (ss': seq<State>, es': seq<Event>)
    requires IsRun(job, false, ss, es) && Step(job, false, ss[|es|], e).Some?
    ensures IsRun(job, false, ss', es') && es' == es + [e]
    ensures ss'[|es'|] == Step(job, false, ss[|es|], e).value
  {
    ss', es' := ss + [Step(job, false, ss[|es|], e).value], es + [e];
  }

  /** A state of a two-thread pool in which no step has touched table or file. */
  predicate Untouched(job: Job, s: State, a: PC, b: PC) {
    s.pcs == [a, b] && s.gt == Initial(job).gt && s.log == [] && s.writeLock == Free
  }

  predicate Shared(s: State, readLock: Owner, stateLock: Owner, readPos: nat, status: Status) {
    s.readLock == readLock && s.stateLock == stateLock && s.readPos == readPos && s.status == status
  }

  predicate OneGrain(job: Job) {
    job.numThreads == 2 && 0 < |job.src| <= GRAIN_BYTES
  }

  lemma EscapeStart(job: Job) returns (ss: seq<State>, es: seq<Event>)
    requires OneGrain(job)
    ensures IsRun(job, false, ss, es) && ss[|es|].main == Joining(2)
    ensures Untouched(job, ss[|es|], WantRead, WantRead) && Shared(ss[|es|], Free, Free, 0, Running)
  {
    ss, es := [Initial(job)], [];
    ss, es := Extend(job, ss, es, MainStep(false));
    ss, es := Extend(job, ss, es, MainStep(false));
    ss, es := Extend(job, ss, es, MainStep(false));
    ss, es := Extend(job, ss, es, WorkerStep(0, None));
    ss, es := Extend(job, ss, es, WorkerStep(1, None));
  }

  /** Worker 0 claims the only grain. */
  lemma EscapeClaim(job: Job, ss: seq<State>, es: seq<Event>) returns (ss': seq<State>, es': seq<Event>)
    requires OneGrain(job) && IsRun(job, false, ss, es) && ss[|es|].main == Joining(2)
    requires Untouched(job, ss[|es|], WantRead, WantRead) && Shared(ss[|es|], Free, Free, 0, Running)
    ensures IsRun(job, false, ss', es') && ss'[|es'|].main == Joining(2)
    ensures Untouched(job, ss'[|es'|], Claimed(0, 0, |job.src|), WantRead)
    ensures Shared(ss'[|es'|], Free, Free, |job.src|, Running)
  {
    ss', es' := Extend(job, ss, es, WorkerStep(0, None));
    ss', es' := Extend(job, ss', es', WorkerStep(0, None));
    ss', es' := Extend(job, ss', es', WorkerStep(0, None));
    ss', es' := Extend(job, ss', es', WorkerStep(0, None));
  }

  /** Worker 1 finds nothing left and passes the status check; then worker 0 fails. */
  lemma EscapeFail(job: Job, ss: seq<State>, es: seq<Event>) returns (ss': seq<State>, es': seq<Event>)
    requires OneGrain(job) && IsRun(job, false, ss, es) && ss[|es|].main == Joining(2)
    requires Untouched(job, ss[|es|], Claimed(0, 0, |job.src|), WantRead)
    requires Shared(ss[|es|], Free, Free, |job.src|, Running)
    ensures IsRun(job, false, ss', es') && ss'[|es'|].main == Joining(2)
    ensures Untouched(job, ss'[|es'|], Exited(true, Some(0)), Past(|job.src|))
    ensures Shared(ss'[|es'|], Worker(1), Free, |job.src|, Failed)
  {
    ss', es' := Extend(job, ss, es, WorkerStep(1, None));
    ss', es' := Extend(job, ss', es', WorkerStep(1, None));
    ss', es' := Extend(job, ss', es', WorkerStep(1, None));
    ss', es' := Extend(job, ss', es', WorkerStep(0, Some(0)));
    ss', es' := Extend(job, ss', es', WorkerStep(0, None));
    ss', es' := Extend(job, ss', es', WorkerStep(0, None));
  }

  /** For every one-grain source and two threads there is a run that reports the whole
      size although its only grain failed and nothing was written. */
  lemma EscapingRun(job: Job) returns (ss: seq<State>, es: seq<Event>)
    requires OneGrain(job)
    ensures IsRun(job, false, ss, es) && Terminal(ss[|es|])
    ensures Result(job, ss[|es|]) == |job.src| && WorkerFailed(ss[|es|])
    ensures ss[|es|].log == [] && forall i :: 0 <= i < |ss[|es|].gt| ==> ss[|es|].gt[i] == 0
  {
    ss, es := EscapeStart(job);
    ss, es := EscapeClaim(job, ss, es);
    ss, es := EscapeFail(job, ss, es);
    ss, es := Extend(job, ss, es, WorkerStep(1, None));
    ss, es := Extend(job, ss, es, WorkerStep(1, None));
    ss, es := Extend(job, ss, es, WorkerStep(1, None));
    assert ss[|es|].pcs[0] == Exited(true, Some(0));
  }
}
