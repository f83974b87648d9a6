/** Why the barriers a fixed point leaves behind are enough, and why none of them is put in without cause. */
module MembarSoundness {
  import opened PendingAccesses
  import opened MembarRuns

  /** Nothing in this code makes the pass insert a barrier when `pending` is at the start. */
  ghost predicate Quiet(filter: Filter, ops: seq<Op>, pending: Info) {
    ops == [] ||
    (!Unguarded(ops, 0) && !Hazard(filter, pending, Touches(ops[0]))
     && Quiet(filter, ops[1..], Behind(ops[0], pending)))
  }

  /** The pass leaves exactly the quiet code alone, and there it ends with what is really pending. */
  lemma {:induction false} QuietIsStable(filter: Filter, ops: seq<Op>, pending: Info)
    ensures Quiet(filter, ops, pending) <==> Scan(filter, ops, pending).0 == ops
    ensures Quiet(filter, ops, pending) ==> Scan(filter, ops, pending).1 == After(pending, ops)
  {
    if ops != [] {
      var op, rest := ops[0], ops[1..];
      assert ops == [op] + rest;
      ComparedIsEnough(filter, pending, op);
      QuietIsStable(filter, rest, Behind(op, pending));
      AfterConcat(pending, [op], rest);
      assert After(pending, [op]) == Behind(op, pending);
      var tail := Scan(filter, rest, Behind(op, pending)).0;
      if !Unguarded(ops, 0) && !Hazard(filter, pending, Compared(op)) {
        assert ([op] + tail)[1..] == tail;
      }
    }
  }

  lemma {:induction false} AfterMonotone(small: Info, big: Info, ops: seq<Op>)
    requires small.Within(big)
    ensures After(small, ops).Within(After(big, ops))
  {
    if ops != [] {
      AfterMonotone(small, big, ops[..|ops| - 1]);
    }
  }

  lemma SafeStep(filter: Filter, trace: seq<Op>, op: Op, pending: Info)
    requires HazardFree(filter, trace) && After(NOTHING, trace).Within(pending)
    requires !Hazard(filter, pending, Touches(op))
    ensures HazardFree(filter, trace + [op]) && After(NOTHING, trace + [op]).Within(Behind(op, pending))
  {
    HazardMonotone(filter, After(NOTHING, trace), pending, Touches(op));
    BehindMonotone(op, After(NOTHING, trace), pending);
    assert (trace + [op])[..|trace|] == trace;
  }

  /** Quiet code keeps every run safe whose pending accesses the pass knows about. */
  lemma {:induction false} QuietIsSafe(filter: Filter, trace: seq<Op>, ops: seq<Op>, pending: Info)
    requires HazardFree(filter, trace) && After(NOTHING, trace).Within(pending)
    requires Quiet(filter, ops, pending)
    ensures HazardFree(filter, trace + ops)
    decreases |ops|
  {
    if ops == [] {
      assert trace + ops == trace;
    } else {
      SafeStep(filter, trace, ops[0], pending);
      QuietIsSafe(filter, trace + [ops[0]], ops[1..], Behind(ops[0], pending));
      assert trace + [ops[0]] + ops[1..] == trace + ops;
    }
  }

  lemma {:induction false} QuietIsGuarded(filter: Filter, ops: seq<Op>, pending: Info, k: nat)
    requires Quiet(filter, ops, pending) && k < |ops|
    ensures !Unguarded(ops, k)
    decreases k
  {
    if k > 0 {
      QuietIsGuarded(filter, ops[1..], Behind(ops[0], pending), k - 1);
    }
  }

  /** What a fixed point looks like: `inputs` and `outputs` of the virtual blocks that were reached. */
  ghost predicate FixedPoint(filter: Filter, graph: Graph, code: Code, inputs: map<VirtualBlock, Info>,
                             outputs: map<VirtualBlock, Info>)
  {
    && graph.WellFormed()
    && inputs.Keys == outputs.Keys <= graph.next.Keys == code.Keys
    && graph.starts <= inputs.Keys
    && (forall v :: v in inputs ==> Scan(filter, code[v], inputs[v]) == (code[v], outputs[v]))
    && (forall v, s :: v in inputs && s in graph.next[v] ==> s in inputs && outputs[v].Within(inputs[s]))
  }

  /** Every run of a fixed point is safe, every async wait on it is followed by a barrier, and what is
      still pending at its end is in the output of its last virtual block. */
  lemma {:induction false} FixedPointIsSafe(filter: Filter, graph: Graph, code: Code, inputs: map<VirtualBlock, Info>,
                                            outputs: map<VirtualBlock, Info>, path: seq<VirtualBlock>)
    requires FixedPoint(filter, graph, code, inputs, outputs)
    requires graph.IsPath(path)
    ensures var last := path[|path| - 1];
            && last in outputs
            && HazardFree(filter, Trace(code, path))
            && (forall k :: 0 <= k < |code[last]| ==> !Unguarded(code[last], k))
            && After(NOTHING, Trace(code, path)).Within(outputs[last])
    decreases |path|
  {
    var init, last := path[..|path| - 1], path[|path| - 1];
    if |path| == 1 {
      assert Trace(code, init) == [];
    } else {
      FixedPointIsSafe(filter, graph, code, inputs, outputs, init);
      assert init[|init| - 1] == path[|path| - 2];
    }
    assert last in inputs;
    QuietIsStable(filter, code[last], inputs[last]);
    forall k | 0 <= k < |code[last]| ensures !Unguarded(code[last], k) {
      QuietIsGuarded(filter, code[last], inputs[last], k);
    }
    QuietIsSafe(filter, Trace(code, init), code[last], inputs[last]);
    AfterConcat(NOTHING, Trace(code, init), code[last]);
    AfterMonotone(After(NOTHING, Trace(code, init)), inputs[last], code[last]);
  }

  // ----- No barrier without cause

  /** `code` is `original` with barriers put in. */
  ghost predicate Extends(code: seq<Op>, original: seq<Op>) {
    if code == [] then original == []
    else
      || (original != [] && code[0] == original[0] && Extends(code[1..], original[1..]))
      || (code[0].Barrier? && Extends(code[1..], original))
  }

  lemma {:induction false} ExtendsItself(ops: seq<Op>)
    ensures Extends(ops, ops)
  {
    if ops != [] {
      ExtendsItself(ops[1..]);
    }
  }

  lemma {:induction false} ScanExtends(filter: Filter, code: seq<Op>, pending: Info, original: seq<Op>)
    requires Extends(code, original)
    ensures Extends(Scan(filter, code, pending).0, original)
    decreases |code|
  {
    if code == [] {
    } else if original != [] && code[0] == original[0] && Extends(code[1..], original[1..]) {
      var scanned := Scan(filter, code, pending).0;
      if Unguarded(code, 0) {
        ScanExtends(filter, code[1..], NOTHING, original[1..]);
        assert scanned[1..][1..] == Scan(filter, code[1..], NOTHING).0;
      } else if Hazard(filter, pending, Compared(code[0])) {
        ScanExtends(filter, code[1..], Behind(code[0], NOTHING), original[1..]);
        assert scanned[1..][1..] == Scan(filter, code[1..], Behind(code[0], NOTHING)).0;
      } else {
        ScanExtends(filter, code[1..], Behind(code[0], pending), original[1..]);
        assert scanned[1..] == Scan(filter, code[1..], Behind(code[0], pending)).0;
      }
    } else {
      NothingIsSafe(filter, pending);
      ScanExtends(filter, code[1..], NOTHING, original);
      assert Scan(filter, code, pending).0[1..] == Scan(filter, code[1..], NOTHING).0;
    }
  }

  /** What is pending after `original`, one access at a time. */
  lemma {:induction false} AfterByAccess(touch: Touch, isWrite: bool, p: Info, q: Info, ops: seq<Op>)
    requires touch in Side(p, isWrite) ==> touch in Side(q, isWrite)
    requires touch in Side(After(p, ops), isWrite)
    ensures touch in Side(After(q, ops), isWrite)
  {
    if ops != [] {
      if touch in Side(After(p, ops[..|ops| - 1]), isWrite) {
        AfterByAccess(touch, isWrite, p, q, ops[..|ops| - 1]);
      }
    }
  }

  lemma AfterFirst(pending: Info, ops: seq<Op>)
    requires ops != []
    ensures After(pending, ops) == After(Behind(ops[0], pending), ops[1..])
  {
    assert [ops[0]] + ops[1..] == ops;
    AfterConcat(pending, [ops[0]], ops[1..]);
    assert After(pending, [ops[0]]) == Behind(ops[0], After(pending, []));
  }

  /** The pass never ends with more than the original code would leave pending. */
  lemma {:induction false} ScanWithinOriginal(filter: Filter, code: seq<Op>, original: seq<Op>, small: Info, big: Info)
    requires Extends(code, original) && small.Within(big)
    ensures Scan(filter, code, small).1.Within(After(big, original))
    decreases |code|
  {
    if code == [] {
    } else if original != [] && code[0] == original[0] && Extends(code[1..], original[1..]) {
      var op := code[0];
      AfterFirst(big, original);
      if Unguarded(code, 0) {
        ScanWithinOriginal(filter, code[1..], original[1..], NOTHING, Behind(op, big));
      } else if Hazard(filter, small, Compared(op)) {
        ScanWithinOriginal(filter, code[1..], original[1..], Behind(op, NOTHING), Behind(op, big));
      } else {
        BehindMonotone(op, small, big);
        ScanWithinOriginal(filter, code[1..], original[1..], Behind(op, small), Behind(op, big));
      }
    } else {
      NothingIsSafe(filter, small);
      ScanWithinOriginal(filter, code[1..], original, NOTHING, big);
    }
  }

  /** Position `k` of the original code needs a barrier: it meets a pending access it conflicts with, or it
      is an async wait without one. */
  ghost predicate Needs(filter: Filter, original: seq<Op>, pending: Info, k: nat)
    requires k < |original|
  {
    Unguarded(original, k) || Hazard(filter, After(pending, original[..k]), Touches(original[k]))
  }

  lemma NeedsLater(filter: Filter, original: seq<Op>, pending: Info, k: nat)
    requires original != [] && k < |original| - 1
    requires Needs(filter, original[1..], Behind(original[0], pending), k)
    ensures Needs(filter, original, pending, k + 1)
  {
    AfterFirst(pending, original[..k + 1]);
    assert original[..k + 1][1..] == original[1..][..k];
    assert original[..k + 1][0] == original[0];
  }

  /** The pass inserts a barrier only where the original code needs one. */
  lemma {:induction false} InsertionIsNeeded(filter: Filter, code: seq<Op>, original: seq<Op>, small: Info, big: Info)
      returns (k: nat)
    requires Extends(code, original) && small.Within(big)
    requires Scan(filter, code, small).0 != code
    ensures k < |original| && Needs(filter, original, big, k)
    decreases |code|
  {
    var op, rest := code[0], code[1..];
    if original != [] && op == original[0] && Extends(rest, original[1..]) {
      ComparedIsEnough(filter, small, op);
      HazardMonotone(filter, small, big, Touches(op));
      BehindMonotone(op, small, big);
      if Unguarded(code, 0) {
        k := 0;
      } else if Hazard(filter, small, Compared(op)) {
        assert original[..0] == [];
        k := 0;
      } else {
        assert code == [op] + rest;
        k := InsertionIsNeeded(filter, rest, original[1..], Behind(op, small), Behind(op, big));
        NeedsLater(filter, original, big, k);
        k := k + 1;
      }
    } else {
      NothingIsSafe(filter, small);
      assert code == [op] + rest;
      k := InsertionIsNeeded(filter, rest, original, NOTHING, big);
    }
  }
}
