/** The invariants of the barrier fixed point: what the worklist still owes, where pending accesses come
    from, and why the iteration ends. */
module MembarFixedPoint {
  import opened PendingAccesses
  import opened MembarRuns
  import opened MembarSoundness

  type Infos = map<VirtualBlock, Info>

  /** Reading a missing entry of the source's map creates an empty one. */
  function Lookup(infos: Infos, v: VirtualBlock): Info {
    if v in infos then infos[v] else NOTHING
  }

  // ----- The worklist

  /** The code of a processed virtual block is stable under the input it was processed with, and the block
      waits in the queue if its input has grown since. */
  ghost predicate Processed(filter: Filter, code: Code, inputs: Infos, outputs: Infos, seen: Infos,
                            queue: seq<VirtualBlock>, v: VirtualBlock)
    requires v in code && v in seen && v in outputs
  {
    && Scan(filter, code[v], seen[v]) == (code[v], outputs[v])
    && seen[v].Within(Lookup(inputs, v))
    && (v in queue || Lookup(inputs, v) == seen[v])
  }

  /** The successor `s` of `v` has taken in the output of `v`, and was or will be processed. */
  ghost predicate Informed(inputs: Infos, outputs: Infos, seen: Infos, queue: seq<VirtualBlock>, v: VirtualBlock,
                           s: VirtualBlock)
    requires v in outputs
  {
    (s in seen || s in queue) && outputs[v].Within(Lookup(inputs, s))
  }

  /** `seen` holds the input each virtual block had when it was last processed. */
  ghost predicate Progress(filter: Filter, graph: Graph, code: Code, inputs: Infos, outputs: Infos, seen: Infos,
                           queue: seq<VirtualBlock>)
  {
    && graph.WellFormed()
    && seen.Keys == outputs.Keys <= graph.next.Keys == code.Keys
    && (forall v :: v in queue ==> v in graph.next)
    && (forall v :: v in graph.starts ==> v in seen || v in queue)
    && (forall v :: v in seen ==> Processed(filter, code, inputs, outputs, seen, queue, v))
    && (forall v, s :: v in seen && s in graph.next[v] ==> Informed(inputs, outputs, seen, queue, v, s))
  }

  lemma EmptyQueueIsFixedPoint(filter: Filter, graph: Graph, code: Code, inputs: Infos, outputs: Infos, seen: Infos)
    requires Progress(filter, graph, code, inputs, outputs, seen, [])
    ensures FixedPoint(filter, graph, code, seen, outputs)
  {
    forall v | v in seen ensures Scan(filter, code[v], seen[v]) == (code[v], outputs[v]) {
      assert Processed(filter, code, inputs, outputs, seen, [], v);
    }
    forall v, s | v in seen && s in graph.next[v] ensures s in seen && outputs[v].Within(seen[s]) {
      assert Informed(inputs, outputs, seen, [], v, s);
      assert Processed(filter, code, inputs, outputs, seen, [], s);
    }
  }

  /** What happens to the inputs and the queue after `v` ended with `out`: nothing if that is its old output,
      else every successor's input takes `out` in and the successor is queued. */
  ghost predicate Propagated(graph: Graph, v: VirtualBlock, out: Info, outputs: Infos, inputs: Infos,
                             queue: seq<VirtualBlock>, newInputs: Infos, newQueue: seq<VirtualBlock>)
    requires v in graph.next
  {
    if v in outputs && out == outputs[v] then newInputs == inputs && newQueue == queue
    else
      && newQueue == queue + graph.next[v]
      && forall w :: Lookup(newInputs, w) ==
                     if w in graph.next[v] then Union(Lookup(inputs, w), out) else Lookup(inputs, w)
  }

  lemma PropagatedGrows(graph: Graph, v: VirtualBlock, out: Info, outputs: Infos, inputs: Infos,
                        queue: seq<VirtualBlock>, newInputs: Infos, newQueue: seq<VirtualBlock>, w: VirtualBlock)
    requires v in graph.next && Propagated(graph, v, out, outputs, inputs, queue, newInputs, newQueue)
    ensures Lookup(inputs, w).Within(Lookup(newInputs, w))
    ensures w in queue ==> w in newQueue
    ensures w in newQueue || Lookup(newInputs, w) == Lookup(inputs, w)
  {
  }

  lemma StepKeepsInformed(filter: Filter, graph: Graph, code: Code, inputs: Infos, outputs: Infos, seen: Infos,
                          queue: seq<VirtualBlock>, out: Info, newInputs: Infos, newQueue: seq<VirtualBlock>,
                          w: VirtualBlock, s: VirtualBlock)
    requires queue != [] && Progress(filter, graph, code, inputs, outputs, seen, queue)
    requires Propagated(graph, queue[0], out, outputs, inputs, queue[1..], newInputs, newQueue)
    requires w in graph.next && s in graph.next[w] && (w == queue[0] || w in seen)
    ensures Informed(newInputs, outputs[queue[0] := out], seen[queue[0] := Lookup(inputs, queue[0])], newQueue, w, s)
  {
    var v := queue[0];
    PropagatedGrows(graph, v, out, outputs, inputs, queue[1..], newInputs, newQueue, s);
    assert s in queue ==> s == v || s in queue[1..];
    if w in seen && (w != v || out == outputs[v]) {
      assert Informed(inputs, outputs, seen, queue, w, s);
    }
  }

  lemma StepKeepsProcessed(filter: Filter, graph: Graph, code: Code, inputs: Infos, outputs: Infos, seen: Infos,
                           queue: seq<VirtualBlock>, scanned: seq<Op>, out: Info, newInputs: Infos,
                           newQueue: seq<VirtualBlock>, w: VirtualBlock)
    requires queue != [] && Progress(filter, graph, code, inputs, outputs, seen, queue)
    requires Scan(filter, code[queue[0]], Lookup(inputs, queue[0])) == (scanned, out)
    requires Propagated(graph, queue[0], out, outputs, inputs, queue[1..], newInputs, newQueue)
    requires w == queue[0] || w in seen
    ensures Processed(filter, code[queue[0] := scanned], newInputs, outputs[queue[0] := out],
                      seen[queue[0] := Lookup(inputs, queue[0])], newQueue, w)
  {
    var v := queue[0];
    PropagatedGrows(graph, v, out, outputs, inputs, queue[1..], newInputs, newQueue, w);
    if w == v {
      RescanIsStable(filter, code[v], Lookup(inputs, v));
    } else {
      assert Processed(filter, code, inputs, outputs, seen, queue, w);
      assert w in queue ==> w in queue[1..];
    }
  }

  /** Processing the head of the queue keeps the worklist's invariant. */
  lemma StepKeepsProgress(filter: Filter, graph: Graph, code: Code, inputs: Infos, outputs: Infos, seen: Infos,
                          queue: seq<VirtualBlock>, scanned: seq<Op>, out: Info, newInputs: Infos,
                          newQueue: seq<VirtualBlock>)
    requires queue != [] && Progress(filter, graph, code, inputs, outputs, seen, queue)
    requires Scan(filter, code[queue[0]], Lookup(inputs, queue[0])) == (scanned, out)
    requires Propagated(graph, queue[0], out, outputs, inputs, queue[1..], newInputs, newQueue)
    ensures Progress(filter, graph, code[queue[0] := scanned], newInputs, outputs[queue[0] := out],
                     seen[queue[0] := Lookup(inputs, queue[0])], newQueue)
  {
    var v, newSeen, newOutputs := queue[0], seen[queue[0] := Lookup(inputs, queue[0])], outputs[queue[0] := out];
    forall w ensures w in queue ==> w == v || w in newQueue {
      PropagatedGrows(graph, v, out, outputs, inputs, queue[1..], newInputs, newQueue, w);
      assert w in queue ==> w == v || w in queue[1..];
    }
    forall w | w in newSeen
      ensures Processed(filter, code[v := scanned], newInputs, newOutputs, newSeen, newQueue, w)
    {
      StepKeepsProcessed(filter, graph, code, inputs, outputs, seen, queue, scanned, out, newInputs, newQueue, w);
    }
    forall w, s | w in newSeen && s in graph.next[w]
      ensures Informed(newInputs, newOutputs, newSeen, newQueue, w, s)
    {
      StepKeepsInformed(filter, graph, code, inputs, outputs, seen, queue, out, newInputs, newQueue, w, s);
    }
  }

  // ----- Termination

  /** `Visited` stands for the virtual block itself, the others for an access its input may hold. */
  datatype Token = Visited | Read(touch: Touch) | Write(touch: Touch)

  ghost function Tokens(info: Info): set<Token> {
    {Visited} + (set t | t in info.syncReads :: Read(t)) + (set t | t in info.syncWrites :: Write(t))
  }

  /** What the last processed inputs can still gain. */
  ghost function Remaining(graph: Graph, all: Info, seen: Infos): set<(VirtualBlock, Token)> {
    set v, token | v in graph.next && token in Tokens(all) && !(v in seen && token in Tokens(seen[v])) :: (v, token)
  }

  /** Reprocessing a virtual block with a larger input uses up capacity. */
  lemma RemainingFalls(graph: Graph, all: Info, seen: Infos, v: VirtualBlock, input: Info)
    requires v in graph.next && input.Within(all)
    requires v in seen ==> seen[v].Within(input)
    ensures Remaining(graph, all, seen[v := input]) <= Remaining(graph, all, seen)
    ensures v !in seen || seen[v] != input ==> Remaining(graph, all, seen[v := input]) != Remaining(graph, all, seen)
  {
    var before, later := Remaining(graph, all, seen), Remaining(graph, all, seen[v := input]);
    if v in seen {
      assert Tokens(seen[v]) <= Tokens(input);
    }
    if v !in seen {
      assert (v, Visited) in before && (v, Visited) !in later;
    } else if touch :| touch in input.syncReads && touch !in seen[v].syncReads {
      assert Read(touch) in Tokens(input) && Read(touch) in Tokens(all) && Read(touch) !in Tokens(seen[v]);
      assert (v, Read(touch)) in before && (v, Read(touch)) !in later;
    } else if touch :| touch in input.syncWrites && touch !in seen[v].syncWrites {
      assert Write(touch) in Tokens(input) && Write(touch) in Tokens(all) && Write(touch) !in Tokens(seen[v]);
      assert (v, Write(touch)) in before && (v, Write(touch)) !in later;
    } else {
      assert seen[v] == input;
    }
  }

  /** Every access of the function. */
  ghost function AllTouches(code: Code): Info {
    Info(set v, k, t | v in code && 0 <= k < |code[v]| && t in Touches(code[v][k]).syncReads :: t,
         set v, k, t | v in code && 0 <= k < |code[v]| && t in Touches(code[v][k]).syncWrites :: t)
  }

  lemma {:induction false} AfterIsBounded(all: Info, pending: Info, ops: seq<Op>)
    requires pending.Within(all)
    requires forall op :: op in ops ==> Touches(op).Within(all)
    ensures After(pending, ops).Within(all)
  {
    if ops != [] {
      AfterIsBounded(all, pending, ops[..|ops| - 1]);
      assert ops[|ops| - 1] in ops;
    }
  }

  lemma ScanIsBounded(filter: Filter, original: Code, v: VirtualBlock, ops: seq<Op>, pending: Info)
    requires v in original && Extends(ops, original[v])
    requires pending.Within(AllTouches(original))
    ensures Scan(filter, ops, pending).1.Within(AllTouches(original))
  {
    forall op | op in original[v] ensures Touches(op).Within(AllTouches(original)) {
      var k :| 0 <= k < |original[v]| && original[v][k] == op;
    }
    ScanWithinOriginal(filter, ops, original[v], pending, pending);
    AfterIsBounded(AllTouches(original), pending, original[v]);
  }

  // ----- No barrier without cause

  ghost predicate IsReached(graph: Graph, v: VirtualBlock) {
    exists path :: graph.IsPath(path) && path[|path| - 1] == v
  }

  /** Some run of the original code enters `v` with this access pending. */
  ghost predicate Arrives(graph: Graph, original: Code, v: VirtualBlock, touch: Touch, isWrite: bool)
    requires original.Keys == graph.next.Keys
  {
    exists path :: graph.IsPath(path) && v in graph.next[path[|path| - 1]]
                   && touch in Side(After(NOTHING, Trace(original, path)), isWrite)
  }

  ghost predicate AllArrive(graph: Graph, original: Code, v: VirtualBlock, input: Info)
    requires original.Keys == graph.next.Keys
  {
    forall touch, isWrite :: touch in Side(input, isWrite) ==> Arrives(graph, original, v, touch, isWrite)
  }

  ghost predicate Guarded(ops: seq<Op>) {
    forall k :: 0 <= k < |ops| ==> !Unguarded(ops, k)
  }

  /** A run is in order when it is safe and every async wait of its last virtual block has its barrier. */
  ghost predicate InOrder(filter: Filter, graph: Graph, code: Code, path: seq<VirtualBlock>)
    requires code.Keys == graph.next.Keys && graph.IsPath(path)
  {
    && Safe(filter, Trace(code, path))
    && Guarded(code[path[|path| - 1]])
  }

  ghost predicate AllInOrder(filter: Filter, graph: Graph, code: Code)
    requires code.Keys == graph.next.Keys
  {
    forall path :: graph.IsPath(path) ==> InOrder(filter, graph, code, path)
  }

  /** What a run leaves pending is in the output of the virtual block it stops in. */
  ghost predicate PendingCovered(graph: Graph, code: Code, outputs: Infos, path: seq<VirtualBlock>)
    requires code.Keys == graph.next.Keys && graph.IsPath(path)
  {
    var last := path[|path| - 1];
    last in outputs && After(NOTHING, Trace(code, path)).Within(outputs[last])
  }

  /** Every pending access the analysis believes in is pending in a run of the original code. */
  ghost predicate Sourced(graph: Graph, original: Code, inputs: Infos, queue: seq<VirtualBlock>)
    requires original.Keys == graph.next.Keys
  {
    && (forall v :: v in queue ==> v in graph.next && IsReached(graph, v))
    && (forall v :: AllArrive(graph, original, v, Lookup(inputs, v)))
  }

  /** A run of the code comes to operation `k` of `v` with a pending conflict, or `k` is an async wait without
      barrier. */
  ghost predicate FaultAt(filter: Filter, graph: Graph, code: Code, v: VirtualBlock, path: seq<VirtualBlock>, k: nat)
    requires code.Keys == graph.next.Keys && v in code
  {
    && graph.IsPath(path) && path[|path| - 1] == v
    && k < |code[v]| && Needs(filter, code[v], After(NOTHING, Trace(code, path[..|path| - 1])), k)
  }

  lemma HazardInside(filter: Filter, before: seq<Op>, ops: seq<Op>, k: nat)
    requires k < |ops| && Hazard(filter, After(After(NOTHING, before), ops[..k]), Touches(ops[k]))
    ensures !Safe(filter, before + ops)
  {
    AfterInside(before, ops, k);
    HazardIsUnsafe(filter, before + ops, |before| + k);
  }

  /** Some run of the code goes wrong in `v` itself. */
  ghost predicate Faulty(filter: Filter, graph: Graph, code: Code, v: VirtualBlock)
    requires code.Keys == graph.next.Keys && v in code
  {
    exists path, k: nat :: FaultAt(filter, graph, code, v, path, k)
  }

  lemma FaultIsOutOfOrder(filter: Filter, graph: Graph, code: Code, v: VirtualBlock)
    requires code.Keys == graph.next.Keys && v in code && Faulty(filter, graph, code, v)
    ensures exists path :: graph.IsPath(path) && path[|path| - 1] == v && !InOrder(filter, graph, code, path)
  {
    var path, k: nat :| FaultAt(filter, graph, code, v, path, k);
    if !Unguarded(code[v], k) {
      HazardInside(filter, Trace(code, path[..|path| - 1]), code[v], k);
      assert Trace(code, path) == Trace(code, path[..|path| - 1]) + code[v];
    }
    assert !InOrder(filter, graph, code, path);
  }

  /** The code is the original with barriers put in, and each virtual block got some only if a run goes wrong in it. */
  ghost predicate Edited(filter: Filter, graph: Graph, original: Code, code: Code)
    requires code.Keys == original.Keys == graph.next.Keys
  {
    && (forall v :: v in code ==> Extends(code[v], original[v]))
    && (forall v :: v in code && code[v] != original[v] ==> Faulty(filter, graph, original, v))
  }

  ghost predicate Backed(filter: Filter, graph: Graph, original: Code, code: Code, inputs: Infos,
                         queue: seq<VirtualBlock>)
  {
    && graph.WellFormed()
    && code.Keys == original.Keys == graph.next.Keys
    && Sourced(graph, original, inputs, queue)
    && Edited(filter, graph, original, code)
  }

  /** If `touch` reaches some point of `v` in the analysis, it does so in a run of the original code. */
  lemma RunWith(graph: Graph, original: Code, v: VirtualBlock, input: Info, k: nat, touch: Touch, isWrite: bool)
      returns (path: seq<VirtualBlock>)
    requires graph.WellFormed() && original.Keys == graph.next.Keys
    requires v in graph.next && IsReached(graph, v) && k <= |original[v]|
    requires AllArrive(graph, original, v, input)
    requires touch in Side(After(input, original[v][..k]), isWrite)
    ensures graph.IsPath(path) && path[|path| - 1] == v
    ensures touch in Side(After(After(NOTHING, Trace(original, path[..|path| - 1])), original[v][..k]), isWrite)
  {
    path := RunInto(graph, original, v, input, touch, isWrite);
    AfterByAccess(touch, isWrite, input, After(NOTHING, Trace(original, path[..|path| - 1])), original[v][..k]);
  }

  /** A run that ends in `v` and enters it with `touch` pending if the analysis believes so. */
  lemma RunInto(graph: Graph, original: Code, v: VirtualBlock, input: Info, touch: Touch, isWrite: bool)
    returns (path: seq<VirtualBlock>)
    requires graph.WellFormed() && original.Keys == graph.next.Keys
    requires v in graph.next && IsReached(graph, v) && AllArrive(graph, original, v, input)
    ensures graph.IsPath(path) && path[|path| - 1] == v
    ensures touch in Side(input, isWrite) ==>
      touch in Side(After(NOTHING, Trace(original, path[..|path| - 1])), isWrite)
  {
    if touch in Side(input, isWrite) {
      var init :| graph.IsPath(init) && v in graph.next[init[|init| - 1]]
                  && touch in Side(After(NOTHING, Trace(original, init)), isWrite);
      path := init + [v];
      assert path[..|path| - 1] == init && path[|path| - 2] == init[|init| - 1];
    } else {
      path :| graph.IsPath(path) && path[|path| - 1] == v;
    }
  }

  lemma {:induction false} HazardFreePrefix(filter: Filter, trace: seq<Op>, n: nat)
    requires n <= |trace| && HazardFree(filter, trace)
    ensures HazardFree(filter, trace[..n])
    decreases |trace|
  {
    if n < |trace| {
      HazardFreePrefix(filter, trace[..|trace| - 1], n);
      assert trace[..|trace| - 1][..n] == trace[..n];
    } else {
      assert trace[..n] == trace;
    }
  }

  lemma HazardIsUnsafe(filter: Filter, trace: seq<Op>, n: nat)
    requires n < |trace| && Hazard(filter, After(NOTHING, trace[..n]), Touches(trace[n]))
    ensures !Safe(filter, trace)
  {
    SafeIsHazardFree(filter, trace);
    assert trace[..n + 1][..n] == trace[..n];
    if HazardFree(filter, trace) {
      HazardFreePrefix(filter, trace, n + 1);
    }
  }

  /** A barrier the pass inserts into `v` is the fault of a run of the original code in `v`. */
  lemma InsertionHasRun(filter: Filter, graph: Graph, original: Code, v: VirtualBlock, input: Info, ops: seq<Op>)
    requires graph.WellFormed() && original.Keys == graph.next.Keys
    requires v in graph.next && IsReached(graph, v) && Extends(ops, original[v])
    requires AllArrive(graph, original, v, input)
    requires Scan(filter, ops, input).0 != ops
    ensures Faulty(filter, graph, original, v)
  {
    var k := InsertionIsNeeded(filter, ops, original[v], input, input);
    if Unguarded(original[v], k) {
      var path :| graph.IsPath(path) && path[|path| - 1] == v;
      assert FaultAt(filter, graph, original, v, path, k);
    } else {
      HazardHasRun(filter, graph, original, v, input, k);
    }
  }

  lemma HazardHasRun(filter: Filter, graph: Graph, original: Code, v: VirtualBlock, input: Info, k: nat)
    requires graph.WellFormed() && original.Keys == graph.next.Keys
    requires v in graph.next && IsReached(graph, v) && k < |original[v]|
    requires AllArrive(graph, original, v, input)
    requires Hazard(filter, After(input, original[v][..k]), Touches(original[v][k]))
    ensures Faulty(filter, graph, original, v)
  {
    var there, own := After(input, original[v][..k]), Touches(original[v][k]);
    var touch, isWrite := HazardWitness(filter, there, own);
    var path := RunWith(graph, original, v, input, k, touch, isWrite);
    assert FaultAt(filter, graph, original, v, path, k);
  }

  /** The single pending access that causes a hazard. */
  lemma HazardWitness(filter: Filter, before: Info, after: Info) returns (touch: Touch, isWrite: bool)
    requires Hazard(filter, before, after)
    ensures touch in Side(before, isWrite)
    ensures forall info: Info :: touch in Side(info, isWrite) ==> Hazard(filter, info, after)
  {
    if AnyOverlap(filter, before.syncWrites, after.syncReads) {
      var a, b :| a in before.syncWrites && b in after.syncReads && Clash(filter, a, b);
      touch, isWrite := a, true;
    } else if AnyOverlap(filter, before.syncReads, after.syncWrites) {
      var a, b :| a in before.syncReads && b in after.syncWrites && Clash(filter, a, b);
      touch, isWrite := a, false;
    } else {
      var a, b :| a in before.syncWrites && b in after.syncWrites && Clash(filter, a, b);
      touch, isWrite := a, true;
    }
  }

  lemma NewInputsArrive(graph: Graph, original: Code, v: VirtualBlock, out: Info, outputs: Infos, inputs: Infos,
                        queue: seq<VirtualBlock>, newInputs: Infos, newQueue: seq<VirtualBlock>, w: VirtualBlock)
    requires graph.WellFormed() && original.Keys == graph.next.Keys
    requires v in graph.next && IsReached(graph, v)
    requires AllArrive(graph, original, v, Lookup(inputs, v)) && AllArrive(graph, original, w, Lookup(inputs, w))
    requires out.Within(After(Lookup(inputs, v), original[v]))
    requires Propagated(graph, v, out, outputs, inputs, queue, newInputs, newQueue)
    ensures AllArrive(graph, original, w, Lookup(newInputs, w))
  {
    forall touch, isWrite | touch in Side(Lookup(newInputs, w), isWrite)
      ensures Arrives(graph, original, w, touch, isWrite)
    {
      if touch !in Side(Lookup(inputs, w), isWrite) {
        assert original[v][..|original[v]|] == original[v];
        var path := RunWith(graph, original, v, Lookup(inputs, v), |original[v]|, touch, isWrite);
        AfterConcat(NOTHING, Trace(original, path[..|path| - 1]), original[v]);
        assert touch in Side(After(NOTHING, Trace(original, path)), isWrite);
      }
    }
  }

  lemma StartIsBacked(filter: Filter, graph: Graph, code: Code, queue: seq<VirtualBlock>)
    requires graph.WellFormed() && code.Keys == graph.next.Keys
    requires forall v :: v in queue <==> v in graph.starts
    ensures Progress(filter, graph, code, map[], map[], map[], queue)
    ensures Backed(filter, graph, code, code, map[], queue)
  {
    forall v | v in queue ensures IsReached(graph, v) {
      assert graph.IsPath([v]);
    }
    forall v | v in code ensures Extends(code[v], code[v]) {
      ExtendsItself(code[v]);
    }
  }

  lemma NextIsReached(graph: Graph, v: VirtualBlock, w: VirtualBlock)
    requires graph.WellFormed() && v in graph.next && w in graph.next[v] && IsReached(graph, v)
    ensures IsReached(graph, w)
  {
    var path :| graph.IsPath(path) && path[|path| - 1] == v;
    var longer := path + [w];
    assert longer[..|longer| - 1] == path && longer[|longer| - 2] == v && graph.IsPath(longer);
  }

  lemma StepKeepsSourced(graph: Graph, original: Code, inputs: Infos, outputs: Infos, queue: seq<VirtualBlock>,
                         out: Info, newInputs: Infos, newQueue: seq<VirtualBlock>)
    requires graph.WellFormed() && original.Keys == graph.next.Keys
    requires queue != [] && Sourced(graph, original, inputs, queue)
    requires out.Within(After(Lookup(inputs, queue[0]), original[queue[0]]))
    requires Propagated(graph, queue[0], out, outputs, inputs, queue[1..], newInputs, newQueue)
    ensures Sourced(graph, original, newInputs, newQueue)
  {
    var v := queue[0];
    assert v in graph.next && IsReached(graph, v);
    forall w | w in newQueue ensures w in graph.next && IsReached(graph, w) {
      if w !in queue[1..] {
        NextIsReached(graph, v, w);
      }
    }
    forall w ensures AllArrive(graph, original, w, Lookup(newInputs, w)) {
      NewInputsArrive(graph, original, v, out, outputs, inputs, queue[1..], newInputs, newQueue, w);
    }
  }

  lemma StepKeepsEdited(filter: Filter, graph: Graph, original: Code, code: Code, input: Info, v: VirtualBlock,
                        scanned: seq<Op>)
    requires graph.WellFormed() && code.Keys == original.Keys == graph.next.Keys
    requires v in graph.next && IsReached(graph, v) && AllArrive(graph, original, v, input)
    requires Edited(filter, graph, original, code)
    requires Scan(filter, code[v], input).0 == scanned
    ensures Edited(filter, graph, original, code[v := scanned])
  {
    ScanExtends(filter, code[v], input, original[v]);
    if scanned != code[v] {
      InsertionHasRun(filter, graph, original, v, input, code[v]);
    } else {
      assert code[v := scanned] == code;
    }
  }

  /** Processing the head of the queue adds no belief that no run of the original code backs. */
  lemma StepKeepsBacked(filter: Filter, graph: Graph, original: Code, code: Code, inputs: Infos, outputs: Infos,
                        queue: seq<VirtualBlock>, scanned: seq<Op>, out: Info, newInputs: Infos,
                        newQueue: seq<VirtualBlock>)
    requires queue != [] && Backed(filter, graph, original, code, inputs, queue)
    requires Scan(filter, code[queue[0]], Lookup(inputs, queue[0])) == (scanned, out)
    requires Propagated(graph, queue[0], out, outputs, inputs, queue[1..], newInputs, newQueue)
    ensures Backed(filter, graph, original, code[queue[0] := scanned], newInputs, newQueue)
  {
    var v := queue[0];
    var input := Lookup(inputs, v);
    ScanWithinOriginal(filter, code[v], original[v], input, input);
    StepKeepsEdited(filter, graph, original, code, input, v, scanned);
    StepKeepsSourced(graph, original, inputs, outputs, queue, out, newInputs, newQueue);
  }

  /** When the queue is empty the code is safe, and it was edited only where the original needed it. */
  lemma Conclusion(filter: Filter, graph: Graph, original: Code, code: Code, inputs: Infos, outputs: Infos, seen: Infos)
    requires Progress(filter, graph, code, inputs, outputs, seen, [])
    requires Backed(filter, graph, original, code, inputs, [])
    ensures AllInOrder(filter, graph, code)
    ensures forall path :: graph.IsPath(path) ==> PendingCovered(graph, code, outputs, path)
    ensures forall v :: v in code && code[v] != original[v] ==> Faulty(filter, graph, original, v)
    ensures code == original <==> AllInOrder(filter, graph, original)
  {
    EmptyQueueIsFixedPoint(filter, graph, code, inputs, outputs, seen);
    forall path | graph.IsPath(path)
      ensures InOrder(filter, graph, code, path) && PendingCovered(graph, code, outputs, path)
    {
      FixedPointIsSafe(filter, graph, code, seen, outputs, path);
      SafeIsHazardFree(filter, Trace(code, path));
    }
    forall v | v in code && code[v] != original[v] ensures !AllInOrder(filter, graph, original) {
      FaultIsOutOfOrder(filter, graph, original, v);
    }
    assert (forall v :: v in code ==> code[v] == original[v]) ==> code == original;
  }

  /** The invariant of the whole iteration. */
  ghost predicate Invariant(filter: Filter, graph: Graph, original: Code, code: Code, inputs: Infos, outputs: Infos,
                            seen: Infos, queue: seq<VirtualBlock>)
  {
    && Progress(filter, graph, code, inputs, outputs, seen, queue)
    && Backed(filter, graph, original, code, inputs, queue)
    && (forall v :: Lookup(inputs, v).Within(AllTouches(original)))
  }

  /** One iteration keeps the invariant and makes (remaining capacity, queue length) fall. */
  lemma StepKeepsInvariant(filter: Filter, graph: Graph, original: Code, code: Code, inputs: Infos, outputs: Infos,
                           seen: Infos, queue: seq<VirtualBlock>, scanned: seq<Op>, out: Info, newInputs: Infos,
                           newQueue: seq<VirtualBlock>)
    requires queue != [] && Invariant(filter, graph, original, code, inputs, outputs, seen, queue)
    requires Scan(filter, code[queue[0]], Lookup(inputs, queue[0])) == (scanned, out)
    requires Propagated(graph, queue[0], out, outputs, inputs, queue[1..], newInputs, newQueue)
    ensures Invariant(filter, graph, original, code[queue[0] := scanned], newInputs, outputs[queue[0] := out],
                      seen[queue[0] := Lookup(inputs, queue[0])], newQueue)
    ensures var all, newSeen := AllTouches(original), seen[queue[0] := Lookup(inputs, queue[0])];
            || Remaining(graph, all, newSeen) < Remaining(graph, all, seen)
            || (Remaining(graph, all, newSeen) == Remaining(graph, all, seen) && |newQueue| < |queue|)
  {
    var v := queue[0];
    assert v in graph.next;
    StepKeepsProgress(filter, graph, code, inputs, outputs, seen, queue, scanned, out, newInputs, newQueue);
    StepKeepsBacked(filter, graph, original, code, inputs, outputs, queue, scanned, out, newInputs, newQueue);
    ScanIsBounded(filter, original, v, code[v], Lookup(inputs, v));
    StepFalls(filter, graph, AllTouches(original), code, inputs, outputs, seen, queue, out, newInputs, newQueue);
    forall w ensures Lookup(newInputs, w).Within(AllTouches(original)) {
      assert Lookup(inputs, w).Within(AllTouches(original));
    }
  }

  lemma StepFalls(filter: Filter, graph: Graph, all: Info, code: Code, inputs: Infos, outputs: Infos, seen: Infos,
                  queue: seq<VirtualBlock>, out: Info, newInputs: Infos, newQueue: seq<VirtualBlock>)
    requires queue != [] && Progress(filter, graph, code, inputs, outputs, seen, queue)
    requires Scan(filter, code[queue[0]], Lookup(inputs, queue[0])).1 == out
    requires Propagated(graph, queue[0], out, outputs, inputs, queue[1..], newInputs, newQueue)
    requires Lookup(inputs, queue[0]).Within(all)
    ensures var newSeen := seen[queue[0] := Lookup(inputs, queue[0])];
            || Remaining(graph, all, newSeen) < Remaining(graph, all, seen)
            || (Remaining(graph, all, newSeen) == Remaining(graph, all, seen) && |newQueue| < |queue|)
  {
    var v := queue[0];
    assert v in graph.next;
    RemainingFalls(graph, all, seen, v, Lookup(inputs, v));
    if v in seen && seen[v] == Lookup(inputs, v) {
      assert Processed(filter, code, inputs, outputs, seen, queue, v);
      assert seen[v := Lookup(inputs, v)] == seen;
    }
  }
}
