/** What the barrier analysis promises, in terms of runs, bytes and barriers, and that its own notions come to the
    same. */
module MembarPromise {
  import opened ControlFlow
  import opened MembarFixedPoint
  import opened MembarRuns
  import opened MembarSoundness
  import opened PendingAccesses
  import opened RaceFreedom

  ghost predicate WaitsGuarded(ops: seq<Op>) {
    forall k :: 0 <= k < |ops| && ops[k].AsyncWait? ==> k + 1 < |ops| && ops[k + 1].Barrier?
  }

  /** The run has no races, and a barrier after every async wait it passes. */
  ghost predicate Clean(filter: Filter, code: Code, path: seq<VirtualBlock>)
    requires forall v :: v in path ==> v in code
  {
    RaceFree(filter, Trace(code, path)) && forall v :: v in path ==> WaitsGuarded(code[v])
  }

  ghost predicate AllClean(filter: Filter, skeleton: Skeleton, code: Code)
    requires code.Keys == skeleton.exits.Keys
  {
    forall path :: Runs(skeleton, path) ==> Clean(filter, code, path)
  }

  ghost predicate OpsNonEmpty(ops: seq<Op>) {
    forall op :: op in ops ==> NonEmpty(op)
  }

  ghost predicate AllNonEmpty(code: Code) {
    forall v, op :: v in code && op in code[v] ==> NonEmpty(op)
  }

  /** Operation `n` may race with an earlier one, and nobody has waited in between. */
  ghost predicate RacesInto(filter: Filter, trace: seq<Op>, n: nat) {
    exists i, x :: 0 <= i < n < |trace| && RaceOn(filter, trace[i], trace[n], x) && !Separated(trace, i, n)
  }

  /** Operation `k` of the last virtual block of the run is an async wait without barrier, or races with an operation
      before it. */
  ghost predicate WrongAt(filter: Filter, code: Code, path: seq<VirtualBlock>, k: nat)
    requires path != [] && forall v :: v in path ==> v in code
  {
    var ops, trace, n := code[path[|path| - 1]], Trace(code, path), |Trace(code, path[..|path| - 1])| + k;
    && k < |ops|
    && ((ops[k].AsyncWait? && !(k + 1 < |ops| && ops[k + 1].Barrier?)) || RacesInto(filter, trace, n))
  }

  /** Some run goes wrong in `v` itself. */
  ghost predicate GoesWrong(filter: Filter, skeleton: Skeleton, code: Code, v: VirtualBlock)
    requires code.Keys == skeleton.exits.Keys
  {
    exists path, k: nat :: Runs(skeleton, path) && path[|path| - 1] == v && WrongAt(filter, code, path, k)
  }

  lemma {:induction false} TraceOps(code: Code, path: seq<VirtualBlock>)
    requires forall v :: v in path ==> v in code
    ensures forall op :: op in Trace(code, path) ==> exists v :: v in path && op in code[v]
  {
    if path != [] {
      TraceOps(code, path[..|path| - 1]);
    }
  }

  lemma TraceNonEmpty(code: Code, path: seq<VirtualBlock>)
    requires AllNonEmpty(code) && forall v :: v in path ==> v in code
    ensures OpsNonEmpty(Trace(code, path))
  {
    TraceOps(code, path);
  }

  lemma {:induction false} PrefixRuns(skeleton: Skeleton, path: seq<VirtualBlock>, n: nat)
    requires Runs(skeleton, path) && 0 < n <= |path|
    ensures Runs(skeleton, path[..n])
  {
  }

  /** If all runs are in order, they are clean. */
  lemma InOrderIsClean(filter: Filter, skeleton: Skeleton, code: Code)
    requires code.Keys == skeleton.exits.Keys && AllInOrder(filter, skeleton.ToGraph(), code)
    ensures AllClean(filter, skeleton, code)
  {
    forall path | Runs(skeleton, path) ensures Clean(filter, code, path) {
      RunsArePaths(skeleton, path);
      assert InOrder(filter, skeleton.ToGraph(), code, path);
      SafeIsRaceFree(filter, Trace(code, path));
      forall v | v in path ensures WaitsGuarded(code[v]) {
        var n :| 0 <= n < |path| && path[n] == v;
        PassedIsGuarded(filter, skeleton, code, path, n);
      }
    }
  }

  lemma PassedIsGuarded(filter: Filter, skeleton: Skeleton, code: Code, path: seq<VirtualBlock>, n: nat)
    requires code.Keys == skeleton.exits.Keys && AllInOrder(filter, skeleton.ToGraph(), code)
    requires Runs(skeleton, path) && n < |path|
    ensures WaitsGuarded(code[path[n]])
  {
    PrefixRuns(skeleton, path, n + 1);
    RunsArePaths(skeleton, path[..n + 1]);
    assert InOrder(filter, skeleton.ToGraph(), code, path[..n + 1]);
    assert path[n] in path;
    GuardedIs(code[path[n]]);
  }

  lemma GuardedIs(ops: seq<Op>)
    ensures Guarded(ops) <==> WaitsGuarded(ops)
  {
    if WaitsGuarded(ops) {
      forall k | 0 <= k < |ops| ensures !Unguarded(ops, k) {
      }
    }
    if Guarded(ops) {
      forall k | 0 <= k < |ops| && ops[k].AsyncWait? ensures k + 1 < |ops| && ops[k + 1].Barrier? {
        assert !Unguarded(ops, k);
      }
    }
  }

  lemma CleanIsInOrder(filter: Filter, skeleton: Skeleton, code: Code)
    requires code.Keys == skeleton.exits.Keys && AllNonEmpty(code) && AllClean(filter, skeleton, code)
    ensures AllInOrder(filter, skeleton.ToGraph(), code)
  {
    forall path | skeleton.ToGraph().IsPath(path) ensures InOrder(filter, skeleton.ToGraph(), code, path) {
      RunsArePaths(skeleton, path);
      assert Clean(filter, code, path);
      TraceNonEmpty(code, path);
      SafeIsRaceFree(filter, Trace(code, path));
      assert path[|path| - 1] in path;
      GuardedIs(code[path[|path| - 1]]);
    }
  }

  lemma ConflictRacesInto(filter: Filter, trace: seq<Op>, i: nat, n: nat)
    requires i < n < |trace| && Conflict(filter, trace[i], trace[n]) && !SyncBetween(trace, i, n)
    requires NonEmpty(trace[i]) && NonEmpty(trace[n])
    ensures RacesInto(filter, trace, n)
  {
    var x := ConflictIsRace(filter, trace[i], trace[n]);
    SeparatedIsSync(trace, i, n);
  }

  /** A pending conflict is a race with an earlier operation. */
  lemma PendingRaces(filter: Filter, trace: seq<Op>, n: nat, pending: Info, own: Info)
    requires n < |trace| && pending == After(NOTHING, trace[..n]) && own == Touches(trace[n])
    requires Hazard(filter, pending, own) && OpsNonEmpty(trace)
    ensures RacesInto(filter, trace, n)
  {
    var init := trace[..n];
    PendingConflicts(filter, init, trace[n]);
    var i :| 0 <= i < n && Conflict(filter, init[i], trace[n]) && !SyncBetween(init, i, n);
    forall m | i < m < n ensures !trace[m].Syncs() {
      assert init[m] == trace[m];
    }
    ConflictRacesInto(filter, trace, i, n);
  }

  lemma HazardRaces(filter: Filter, before: seq<Op>, ops: seq<Op>, k: nat)
    requires k < |ops| && Hazard(filter, After(After(NOTHING, before), ops[..k]), Touches(ops[k]))
    requires OpsNonEmpty(before + ops)
    ensures RacesInto(filter, before + ops, |before| + k)
  {
    AfterInside(before, ops, k);
    PendingRaces(filter, before + ops, |before| + k, After(After(NOTHING, before), ops[..k]), Touches(ops[k]));
  }

  lemma FaultGoesWrong(filter: Filter, skeleton: Skeleton, code: Code, v: VirtualBlock)
    requires code.Keys == skeleton.exits.Keys && AllNonEmpty(code)
    requires v in code && Faulty(filter, skeleton.ToGraph(), code, v)
    ensures GoesWrong(filter, skeleton, code, v)
  {
    var path, k: nat :| FaultAt(filter, skeleton.ToGraph(), code, v, path, k);
    RunsArePaths(skeleton, path);
    NeedIsWrong(filter, code, path, k);
  }

  lemma NeedIsWrong(filter: Filter, code: Code, path: seq<VirtualBlock>, k: nat)
    requires AllNonEmpty(code) && path != [] && forall v :: v in path ==> v in code
    requires k < |code[path[|path| - 1]]|
    requires Needs(filter, code[path[|path| - 1]], After(NOTHING, Trace(code, path[..|path| - 1])), k)
    ensures WrongAt(filter, code, path, k)
  {
    var init, ops := path[..|path| - 1], code[path[|path| - 1]];
    if !Unguarded(ops, k) {
      TraceNonEmpty(code, path);
      assert Trace(code, path) == Trace(code, init) + ops;
      HazardRaces(filter, Trace(code, init), ops, k);
    }
  }

  /** Bytes that operation `i` touches are recorded as its accesses. */
  ghost predicate IsRecorded(op: Op, pending: Info) {
    && (forall x: nat :: ReadsByte(op, x) ==>
          exists t :: t in pending.syncReads && t.op == op && t.interval.start <= x < t.interval.end)
    && (forall x: nat :: WritesByte(op, x) ==>
          exists t :: t in pending.syncWrites && t.op == op && t.interval.start <= x < t.interval.end)
  }

  /** Whatever nobody has waited for when the run stops is in the output of the virtual block it stops in. */
  ghost predicate LeavesRecord(code: Code, outputs: Infos, path: seq<VirtualBlock>)
    requires path != [] && forall v :: v in path ==> v in code
  {
    var trace, last := Trace(code, path), path[|path| - 1];
    && last in outputs
    && forall i :: 0 <= i < |trace| && (forall k :: i < k < |trace| ==> !WaitsForAll(trace[k])) ==>
         IsRecorded(trace[i], outputs[last])
  }

  lemma OwnIsRecorded(op: Op, pending: Info)
    requires Touches(op).Within(pending)
    ensures IsRecorded(op, pending)
  {
    TouchesOwn(op);
    forall x: nat | ReadsByte(op, x)
      ensures exists t :: t in pending.syncReads && t.op == op && t.interval.start <= x < t.interval.end {
      TouchedRead(op, x);
      var t :| t in Touches(op).syncReads && t.interval.Contains(x);
      assert t in pending.syncReads;
    }
    forall x: nat | WritesByte(op, x)
      ensures exists t :: t in pending.syncWrites && t.op == op && t.interval.start <= x < t.interval.end {
      TouchedWrite(op, x);
      var t :| t in Touches(op).syncWrites && t.interval.Contains(x);
      assert t in pending.syncWrites;
    }
  }

  lemma CoveredIsRecorded(skeleton: Skeleton, code: Code, outputs: Infos, path: seq<VirtualBlock>)
    requires code.Keys == skeleton.exits.Keys && Runs(skeleton, path)
    requires forall p :: skeleton.ToGraph().IsPath(p) ==> PendingCovered(skeleton.ToGraph(), code, outputs, p)
    ensures LeavesRecord(code, outputs, path)
  {
    RunsArePaths(skeleton, path);
    assert PendingCovered(skeleton.ToGraph(), code, outputs, path);
    var trace := Trace(code, path);
    forall i | 0 <= i < |trace| && (forall k :: i < k < |trace| ==> !WaitsForAll(trace[k]))
      ensures IsRecorded(trace[i], outputs[path[|path| - 1]]) {
      assert forall k :: i < k < |trace| ==> !trace[k].Syncs();
      StillPending(trace, i);
      OwnIsRecorded(trace[i], outputs[path[|path| - 1]]);
    }
  }

  /** All of it for the code before and after the pass. */
  lemma Promise(filter: Filter, skeleton: Skeleton, original: Code, code: Code, outputs: Infos)
    requires original.Keys == code.Keys == skeleton.exits.Keys
    requires forall p :: skeleton.ToGraph().IsPath(p) ==> PendingCovered(skeleton.ToGraph(), code, outputs, p)
    requires AllInOrder(filter, skeleton.ToGraph(), code)
    requires code == original <==> AllInOrder(filter, skeleton.ToGraph(), original)
    requires forall v :: v in code && code[v] != original[v] ==> Faulty(filter, skeleton.ToGraph(), original, v)
    ensures AllClean(filter, skeleton, code)
    ensures forall path :: Runs(skeleton, path) ==> LeavesRecord(code, outputs, path)
    ensures AllNonEmpty(original) ==> (code == original <==> AllClean(filter, skeleton, original))
    ensures AllNonEmpty(original) ==>
      forall v :: v in code && code[v] != original[v] ==> GoesWrong(filter, skeleton, original, v)
  {
    InOrderIsClean(filter, skeleton, code);
    forall path | Runs(skeleton, path) ensures LeavesRecord(code, outputs, path) {
      CoveredIsRecorded(skeleton, code, outputs, path);
    }
    if AllNonEmpty(original) {
      if AllClean(filter, skeleton, original) {
        CleanIsInOrder(filter, skeleton, original);
      }
      forall v | v in code && code[v] != original[v] ensures GoesWrong(filter, skeleton, original, v) {
        FaultGoesWrong(filter, skeleton, original, v);
      }
    }
  }
}
