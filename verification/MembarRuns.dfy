/** Runs of a function whose code is cut into virtual blocks, and what it means for a run to be safe. */
module MembarRuns {
  import opened PendingAccesses

  /** A stretch of straight-line code: `index` counts the operations with regions that precede it in its
      block, so index 0 starts at the block's beginning (the null iterator of the code). */
  datatype VirtualBlock = VirtualBlock(block: nat, index: nat)

  /** The virtual blocks with their successors, and those the analysis starts from. */
  datatype Graph = Graph(starts: set<VirtualBlock>, next: map<VirtualBlock, seq<VirtualBlock>>) {
    ghost predicate WellFormed() {
      && starts <= next.Keys
      && (forall v, s :: v in next && s in next[v] ==> s in next)
    }

    /** Some run enters these virtual blocks in this order. */
    ghost predicate IsPath(path: seq<VirtualBlock>) {
      && path != []
      && (forall v :: v in path ==> v in next)
      && if |path| == 1 then path[0] in starts else
           IsPath(path[..|path| - 1]) && path[|path| - 1] in next[path[|path| - 2]]
    }
  }

  type Code = map<VirtualBlock, seq<Op>>

  /** The operations executed along a path. */
  ghost function Trace(code: Code, path: seq<VirtualBlock>): seq<Op>
    requires forall v :: v in path ==> v in code
  {
    if path == [] then [] else Trace(code, path[..|path| - 1]) + code[path[|path| - 1]]
  }

  /** Two operations with overlapping accesses, one of them a write, that the filter does not waive. */
  ghost predicate Conflict(filter: Filter, a: Op, b: Op) {
    Hazard(filter, Touches(a), Touches(b))
  }

  ghost predicate SyncBetween(trace: seq<Op>, i: int, j: int)
    requires 0 <= i <= j <= |trace|
  {
    exists k :: i < k < j && trace[k].Syncs()
  }

  /** Something synchronises between operation `j` and every earlier one it conflicts with. */
  ghost predicate SafeAt(filter: Filter, trace: seq<Op>, j: int)
    requires 0 <= j < |trace|
  {
    forall i :: 0 <= i < j && Conflict(filter, trace[i], trace[j]) ==> SyncBetween(trace, i, j)
  }

  /** The safety the analysis is for. */
  ghost predicate Safe(filter: Filter, trace: seq<Op>) {
    forall j :: 0 <= j < |trace| ==> SafeAt(filter, trace, j)
  }

  /** What is pending after `ops` when `pending` is before them: the accesses with nothing synchronising
      behind them. */
  ghost function After(pending: Info, ops: seq<Op>): Info {
    if ops == [] then pending else Behind(ops[|ops| - 1], After(pending, ops[..|ops| - 1]))
  }

  lemma {:induction false} AfterConcat(pending: Info, a: seq<Op>, b: seq<Op>)
    ensures After(pending, a + b) == After(After(pending, a), b)
  {
    if b == [] {
      assert a + b == a;
    } else {
      AfterConcat(pending, a, b[..|b| - 1]);
      assert (a + b)[..|a + b| - 1] == a + b[..|b| - 1];
    }
  }

  /** What is pending in front of operation `k` of `ops` when they follow `before`. */
  lemma AfterInside(before: seq<Op>, ops: seq<Op>, k: nat)
    requires k < |ops|
    ensures var trace, n := before + ops, |before| + k;
            trace[n] == ops[k] && After(NOTHING, trace[..n]) == After(After(NOTHING, before), ops[..k])
  {
    assert (before + ops)[..|before| + k] == before + ops[..k];
    AfterConcat(NOTHING, before, ops[..k]);
  }

  ghost function Side(info: Info, isWrite: bool): set<Touch> {
    if isWrite then info.syncWrites else info.syncReads
  }

  /** An access is pending exactly when it was made and nothing synchronised since. */
  lemma {:induction false} PendingCharacterised(trace: seq<Op>, touch: Touch, isWrite: bool)
    ensures touch in Side(After(NOTHING, trace), isWrite) <==>
            exists i :: 0 <= i < |trace| && touch in Side(Touches(trace[i]), isWrite) && !SyncBetween(trace, i, |trace|)
  {
    if trace != [] {
      var n := |trace| - 1;
      var init := trace[..n];
      PendingCharacterised(init, touch, isWrite);
      if i :| 0 <= i < n && touch in Side(Touches(init[i]), isWrite) && !SyncBetween(init, i, n) {
        assert touch in Side(Touches(trace[i]), isWrite);
        if trace[n].Syncs() {
          assert SyncBetween(trace, i, n + 1);
        } else {
          assert forall k :: i < k < n ==> trace[k] == init[k];
          assert !SyncBetween(trace, i, n + 1);
        }
      }
      if i :| 0 <= i < n + 1 && touch in Side(Touches(trace[i]), isWrite) && !SyncBetween(trace, i, n + 1) {
        if i < n {
          assert forall k :: i < k < n ==> trace[k] == init[k];
          assert !SyncBetween(init, i, n) && touch in Side(Touches(init[i]), isWrite);
        }
      }
      if touch in Side(Touches(trace[n]), isWrite) {
        assert !SyncBetween(trace, n, n + 1);
      }
    }
  }

  /** No operation of the trace meets a pending access it conflicts with. */
  ghost predicate HazardFree(filter: Filter, trace: seq<Op>) {
    trace == [] ||
    var init := trace[..|trace| - 1];
    HazardFree(filter, init) && !Hazard(filter, After(NOTHING, init), Touches(trace[|trace| - 1]))
  }

  lemma PendingMadeBy(filter: Filter, trace: seq<Op>, isWrite: bool, after: set<Touch>) returns (i: nat)
    requires AnyOverlap(filter, Side(After(NOTHING, trace), isWrite), after)
    ensures i < |trace| && AnyOverlap(filter, Side(Touches(trace[i]), isWrite), after)
    ensures !SyncBetween(trace, i, |trace|)
  {
    var a, b :| a in Side(After(NOTHING, trace), isWrite) && b in after && Clash(filter, a, b);
    PendingCharacterised(trace, a, isWrite);
    i :| 0 <= i < |trace| && a in Side(Touches(trace[i]), isWrite) && !SyncBetween(trace, i, |trace|);
  }

  lemma StillPending(trace: seq<Op>, i: nat)
    requires i < |trace| && !SyncBetween(trace, i, |trace|)
    ensures Touches(trace[i]).Within(After(NOTHING, trace))
  {
    forall touch | touch in Side(Touches(trace[i]), false) ensures touch in Side(After(NOTHING, trace), false) {
      PendingCharacterised(trace, touch, false);
    }
    forall touch | touch in Side(Touches(trace[i]), true) ensures touch in Side(After(NOTHING, trace), true) {
      PendingCharacterised(trace, touch, true);
    }
  }

  lemma PendingConflicts(filter: Filter, trace: seq<Op>, op: Op)
    ensures Hazard(filter, After(NOTHING, trace), Touches(op)) <==>
            exists i :: 0 <= i < |trace| && Conflict(filter, trace[i], op) && !SyncBetween(trace, i, |trace|)
  {
    var live, own := After(NOTHING, trace), Touches(op);
    if AnyOverlap(filter, Side(live, true), own.syncReads) {
      var i := PendingMadeBy(filter, trace, true, own.syncReads);
      assert Conflict(filter, trace[i], op);
    } else if AnyOverlap(filter, Side(live, false), own.syncWrites) {
      var i := PendingMadeBy(filter, trace, false, own.syncWrites);
      assert Conflict(filter, trace[i], op);
    } else if AnyOverlap(filter, Side(live, true), own.syncWrites) {
      var i := PendingMadeBy(filter, trace, true, own.syncWrites);
      assert Conflict(filter, trace[i], op);
    } else {
      forall i | 0 <= i < |trace| && Conflict(filter, trace[i], op) ensures SyncBetween(trace, i, |trace|) {
        if !SyncBetween(trace, i, |trace|) {
          StillPending(trace, i);
          HazardMonotone(filter, Touches(trace[i]), live, own);
        }
      }
    }
  }

  /** The step-by-step reading of safety that the analysis works with. */
  lemma {:induction false} SafeIsHazardFree(filter: Filter, trace: seq<Op>)
    ensures Safe(filter, trace) <==> HazardFree(filter, trace)
  {
    if trace != [] {
      var n := |trace| - 1;
      var init := trace[..n];
      SafeIsHazardFree(filter, init);
      PendingConflicts(filter, init, trace[n]);
      forall i, j | 0 <= i <= j <= n ensures SyncBetween(init, i, j) <==> SyncBetween(trace, i, j) {
        assert forall k :: i < k < j ==> init[k] == trace[k];
      }
      assert HazardFree(filter, trace) <==> Safe(filter, init) && SafeAt(filter, trace, n);
      assert forall j :: 0 <= j < n ==> (SafeAt(filter, init, j) <==> SafeAt(filter, trace, j));
    }
  }
}
