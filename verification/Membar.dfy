/** Shared-memory barrier insertion: the worklist analysis that edits the program while it runs. */
module Membar {
  import opened PendingAccesses
  import opened MembarRuns
  import opened MembarSoundness
  import opened ControlFlow
  import opened MembarFixedPoint
  import opened MembarPromise

  /** The accesses no barrier has separated yet; updated in place while a virtual block is scanned. */
  class BlockInfo {
    var syncReadIntervals: set<Touch>
    var syncWriteIntervals: set<Touch>

    constructor (info: Info)
      ensures Contents() == info
    {
      syncReadIntervals, syncWriteIntervals := info.syncReads, info.syncWrites;
    }

    function Contents(): Info
      reads this
    {
      Info(syncReadIntervals, syncWriteIntervals)
    }

    predicate IsIntersected(other: BlockInfo, filter: Filter)
      reads this, other
    {
      Hazard(filter, Contents(), other.Contents())
    }

    method Join(other: Info)
      modifies this
      ensures Contents() == Union(old(Contents()), other)
    {
      syncReadIntervals := syncReadIntervals + other.syncReads;
      syncWriteIntervals := syncWriteIntervals + other.syncWrites;
    }

    method Sync()
      modifies this
      ensures Contents() == NOTHING
    {
      syncReadIntervals, syncWriteIntervals := {}, {};
    }
  }

  lemma Slices<T>(whole: seq<T>, a: seq<T>, b: seq<T>, c: seq<T>)
    requires whole == a + b + c
    ensures whole[..|a|] == a && whole[|a|..|a| + |b|] == b && whole[|a| + |b|..] == c
  {
  }

  class MembarAnalysis {
    const filter: Filter
    const skeleton: Skeleton
    var code: Code

    constructor (filter: Filter, skeleton: Skeleton, code: Code)
      ensures this.filter == filter && this.skeleton == skeleton && this.code == code
    {
      this.filter, this.skeleton, this.code := filter, skeleton, code;
    }

    method InsertBarrier(v: VirtualBlock, at: nat)
      requires v in code && at <= |code[v]|
      modifies this
      ensures code == old(code)[v := old(code[v])[..at] + [Barrier] + old(code[v])[at..]]
    {
      code := code[v := code[v][..at] + [Barrier] + code[v][at..]];
    }

    /** Compares the accesses of `op` with the pending ones and makes them pending in their place (behind a
        barrier or an internal synchronisation) or in addition. */
    method Settle(op: Op, blockInfo: BlockInfo) returns (insertCTABarrier: bool)
      requires !op.Barrier?
      modifies blockInfo
      ensures insertCTABarrier <==> Hazard(filter, old(blockInfo.Contents()), Compared(op))
      ensures blockInfo.Contents() == Behind(op, if insertCTABarrier then NOTHING else old(blockInfo.Contents()))
    {
      ghost var pending := blockInfo.Contents();
      var curBlockInfo := new BlockInfo(Compared(op));
      insertCTABarrier := blockInfo.IsIntersected(curBlockInfo, filter);
      if op.Scratch? {
        if insertCTABarrier || !op.warpSync {
          blockInfo.Sync();
        }
        curBlockInfo.Join(Info({Touch(op.scratch, op)}, {}));
      } else if insertCTABarrier {
        blockInfo.Sync();
      }
      assert curBlockInfo.Contents() == Touches(op);
      blockInfo.Join(curBlockInfo.Contents());
      assert blockInfo.Contents() == Behind(op, if insertCTABarrier then NOTHING else pending);
    }

    /** Visits operation `at` of `v`, inserting a barrier before it (or after it, for an async wait) where one is
        needed. `next` is the position of the operation visited next: what the pass makes of the code from
        `at` on is what lies between `at` and `next` and what it makes of the rest. */
    method Update(v: VirtualBlock, at: nat, blockInfo: BlockInfo) returns (next: nat)
      requires v in code && at < |code[v]|
      modifies this, blockInfo
      ensures v in code && at < next <= |code[v]|
      ensures code == old(code)[v := code[v]] && code[v][..at] == old(code[v])[..at]
      ensures ScannedTo(filter, old(code[v])[at..], old(blockInfo.Contents()),
                        code[v][at..next], code[v][next..], blockInfo.Contents())
      ensures var rest := old(code[v])[at + 1..];
              code[v][next..] == rest || (old(code[v])[at].AsyncWait? && code[v][next..] == [Barrier] + rest)
    {
      ghost var ops, pending := code[v], blockInfo.Contents();
      var op := code[v][at];
      ghost var rest := ops[at + 1..];
      next := at + 1;
      assert ops[at..] == [op] + rest;
      ScannedOne(filter, op, rest, pending);
      if op.Barrier? {
        blockInfo.Sync();
        Slices(code[v], ops[..at], [op], rest);
      } else if op.AsyncWait? && !(at + 1 < |code[v]| && code[v][at + 1].Barrier?) {
        InsertBarrier(v, at + 1);
        blockInfo.Sync();
        Slices(code[v], ops[..at], [op], [Barrier] + rest);
      } else {
        var insertCTABarrier := Settle(op, blockInfo);
        if insertCTABarrier {
          InsertBarrier(v, at);
          next := at + 2;
          Slices(code[v], ops[..at], [Barrier, op], rest);
        } else {
          Slices(code[v], ops[..at], [op], rest);
        }
      }
    }

    /** Visits the straight-line code of `v` from its beginning to its end. */
    method ScanBlock(v: VirtualBlock, blockInfo: BlockInfo)
      requires v in code
      modifies this, blockInfo
      ensures v in code
      ensures (code[v], blockInfo.Contents()) == Scan(filter, old(code[v]), old(blockInfo.Contents()))
      ensures code == old(code)[v := code[v]]
    {
      var at := 0;
      ghost var whole := Scan(filter, code[v], blockInfo.Contents());
      assert code[v][at..] == code[v] && [] + whole.0 == whole.0;
      while at < |code[v]|
        invariant v in code && at <= |code[v]| && code == old(code)[v := code[v]]
        invariant ScannedTo(filter, old(code[v]), old(blockInfo.Contents()),
                            code[v][..at], code[v][at..], blockInfo.Contents())
        decreases Proper(code[v][at..]), |code[v]| - at
      {
        ghost var before, pending := code[v], blockInfo.Contents();
        assert before[at..] == [before[at]] + before[at + 1..];
        var next := Update(v, at, blockInfo);
        ScannedFurther(filter, old(code[v]), old(blockInfo.Contents()), before[..at], before[at..], pending,
                       code[v][at..next], code[v][next..], blockInfo.Contents());
        assert code[v][..next] == before[..at] + code[v][at..next];
        at := next;
      }
      assert code[v][..at] + [] == code[v];
    }

    /** Collects the successors of the operation that ends `v`. */
    method VisitTerminator(v: VirtualBlock) returns (successors: seq<VirtualBlock>)
      requires v in skeleton.exits
      ensures successors == Successors(v, skeleton.exits[v])
    {
      successors := [];
      match skeleton.exits[v]
      case Branch(targets) =>
        for i := 0 to |targets|
          invariant successors == Successors(v, skeleton.exits[v])[..i]
        {
          successors := successors + [VirtualBlock(targets[i], 0)];
        }
      case RegionBranch(regions) =>
        for i := 0 to |regions|
          invariant successors == Successors(v, skeleton.exits[v])[..i]
        {
          successors := successors + [Target(regions[i], v)];
        }
      case RegionTerminator(parent, regions) =>
        for i := 0 to |regions|
          invariant successors == Successors(v, skeleton.exits[v])[..i]
        {
          successors := successors + [Target(regions[i], parent)];
        }
      case Return =>
    }

    method Entries() returns (blockList: seq<VirtualBlock>)
      ensures forall v :: v in blockList <==> v in skeleton.ToGraph().starts
    {
      blockList := [];
      for i := 0 to |skeleton.walk|
        invariant forall v :: v in blockList <==>
                    exists k :: 0 <= k < i && skeleton.walk[k].Starts() && v == VirtualBlock(skeleton.walk[k].block, 0)
      {
        if skeleton.walk[i].isEntry && !skeleton.walk[i].inRegionBranch {
          blockList := blockList + [VirtualBlock(skeleton.walk[i].block, 0)];
        }
      }
    }

    /** Joins the output of `v` into the inputs of its successors and queues them. */
    method Propagate(successors: seq<VirtualBlock>, out: Info, inputs: Infos, queue: seq<VirtualBlock>)
      returns (newInputs: Infos, newQueue: seq<VirtualBlock>)
      ensures newQueue == queue + successors
      ensures forall w :: Lookup(newInputs, w) ==
                          if w in successors then Union(Lookup(inputs, w), out) else Lookup(inputs, w)
    {
      newInputs, newQueue := inputs, queue;
      for i := 0 to |successors|
        invariant newQueue == queue + successors[..i]
        invariant forall w :: Lookup(newInputs, w) ==
                              if w in successors[..i] then Union(Lookup(inputs, w), out) else Lookup(inputs, w)
      {
        newInputs := newInputs[successors[i] := Union(Lookup(newInputs, successors[i]), out)];
        newQueue := newQueue + [successors[i]];
      }
    }

    /** One iteration of the fixed point: scans `block` and propagates its output unless it is the old one. */
    method Visit(block: VirtualBlock, inputs: Infos, outputs: Infos, queue: seq<VirtualBlock>)
      returns (out: Info, newInputs: Infos, newQueue: seq<VirtualBlock>)
      requires block in skeleton.exits && block in code
      modifies this
      ensures block in code && code == old(code)[block := code[block]]
      ensures Scan(filter, old(code[block]), Lookup(inputs, block)) == (code[block], out)
      ensures Propagated(skeleton.ToGraph(), block, out, outputs, inputs, queue, newInputs, newQueue)
    {
      var inputBlockInfo := new BlockInfo(Lookup(inputs, block));
      ScanBlock(block, inputBlockInfo);
      var successors := VisitTerminator(block);
      out, newInputs, newQueue := inputBlockInfo.Contents(), inputs, queue;
      if !(block in outputs && out == outputs[block]) {
        newInputs, newQueue := Propagate(successors, out, inputs, queue);
      }
    }

    /** The fixed point. On return every run of the edited program is safe, every async wait a run passes is followed by
        a barrier, and the outputs cover what is pending wherever a run may stop. Only barriers were added, to a virtual
        block only if a run of the original program goes wrong in it, and none at all exactly if all runs of the
        original program were already in order. */
    method Resolve() returns (outputBlockInfoMap: Infos)
      requires skeleton.ToGraph().WellFormed() && code.Keys == skeleton.exits.Keys
      modifies this
      ensures code.Keys == old(code).Keys && outputBlockInfoMap.Keys <= code.Keys
      ensures AllInOrder(filter, skeleton.ToGraph(), code)
      ensures forall path :: skeleton.ToGraph().IsPath(path) ==>
                PendingCovered(skeleton.ToGraph(), code, outputBlockInfoMap, path)
      ensures forall v :: v in code ==> Extends(code[v], old(code)[v])
      ensures forall v :: v in code && code[v] != old(code)[v] ==> Faulty(filter, skeleton.ToGraph(), old(code), v)
      ensures AllClean(filter, skeleton, code)
      ensures forall path :: Runs(skeleton, path) ==> LeavesRecord(code, outputBlockInfoMap, path)
      ensures AllNonEmpty(old(code)) ==> (code == old(code) <==> AllClean(filter, skeleton, old(code)))
      ensures AllNonEmpty(old(code)) ==>
        forall v :: v in code && code[v] != old(code)[v] ==> GoesWrong(filter, skeleton, old(code), v)
      ensures code == old(code) <==> AllInOrder(filter, skeleton.ToGraph(), old(code))
    {
      ghost var graph, original, seen := skeleton.ToGraph(), code, map[];
      var inputBlockInfoMap: Infos := map[];
      outputBlockInfoMap := map[];
      var blockList := Entries();
      StartIsBacked(filter, graph, code, blockList);
      while blockList != []
        invariant Invariant(filter, graph, original, code, inputBlockInfoMap, outputBlockInfoMap, seen, blockList)
        decreases Remaining(graph, AllTouches(original), seen), |blockList|
      {
        var block := blockList[0];
        assert block in graph.next;
        ghost var before := code;
        var out, newInputs, newList := Visit(block, inputBlockInfoMap, outputBlockInfoMap, blockList[1..]);
        StepKeepsInvariant(filter, graph, original, before, inputBlockInfoMap, outputBlockInfoMap, seen, blockList,
                           code[block], out, newInputs, newList);
        seen := seen[block := Lookup(inputBlockInfoMap, block)];
        outputBlockInfoMap := outputBlockInfoMap[block := out];
        inputBlockInfoMap, blockList := newInputs, newList;
      }
      Conclusion(filter, graph, original, code, inputBlockInfoMap, outputBlockInfoMap, seen);
      Promise(filter, skeleton, original, code, outputBlockInfoMap);
    }

    /** The last virtual block of `block` that was reached. */
    ghost predicate IsLastReached(outputs: Infos, v: VirtualBlock) {
      v in outputs && forall w :: w in outputs && w.block == v.block ==> w.index <= v.index
    }

    /** What is pending at the last virtual block reached in each of the blocks lies within `bound`. */
    ghost predicate ReturnsWithin(outputs: Infos, exitBlocks: seq<nat>, bound: Info) {
      forall v :: IsLastReached(outputs, v) && v.block in exitBlocks ==> outputs[v].Within(bound)
    }

    /** The last virtual block that was reached in `block`. */
    method LastReached(outputBlockInfoMap: Infos, block: nat) returns (maxIt: VirtualBlock)
      requires exists v :: v in outputBlockInfoMap && v.block == block
      ensures IsLastReached(outputBlockInfoMap, maxIt) && maxIt.block == block
    {
      var virtualBlocks := set v | v in outputBlockInfoMap && v.block == block;
      ghost var w :| w in outputBlockInfoMap && w.block == block;
      assert w in virtualBlocks;
      maxIt :| maxIt in virtualBlocks;
      while virtualBlocks != {}
        invariant maxIt in outputBlockInfoMap && maxIt.block == block
        invariant virtualBlocks <= outputBlockInfoMap.Keys
        invariant forall v :: v in outputBlockInfoMap && v.block == block ==>
          v in virtualBlocks || v.index <= maxIt.index
      {
        var v :| v in virtualBlocks;
        if v.block == block && maxIt.index < v.index {
          maxIt := v;
        }
        virtualBlocks := virtualBlocks - {v};
      }
    }

    /** `summary` has all that is pending at those last virtual blocks, and no more. */
    ghost predicate IsSummary(outputs: Infos, exitBlocks: seq<nat>, summary: Info) {
      forall bound :: ReturnsWithin(outputs, exitBlocks, bound) <==> summary.Within(bound)
    }

    lemma UnionWithin(a: Info, b: Info, bound: Info)
      ensures Union(a, b).Within(bound) <==> a.Within(bound) && b.Within(bound)
    {
    }

    lemma SummarySnoc(outputs: Infos, exitBlocks: seq<nat>, i: nat, last: VirtualBlock, summary: Info)
      requires i < |exitBlocks| && IsLastReached(outputs, last) && last.block == exitBlocks[i]
      requires IsSummary(outputs, exitBlocks[..i], summary)
      ensures IsSummary(outputs, exitBlocks[..i + 1], Union(summary, outputs[last]))
    {
      assert exitBlocks[..i + 1] == exitBlocks[..i] + [exitBlocks[i]];
      forall v | IsLastReached(outputs, v) && v.block == exitBlocks[i] ensures v == last {
        assert v.index == last.index;
      }
      forall bound ensures ReturnsWithin(outputs, exitBlocks[..i + 1], bound) <==>
                           Union(summary, outputs[last]).Within(bound) {
        UnionWithin(summary, outputs[last], bound);
        assert ReturnsWithin(outputs, exitBlocks[..i], bound) <==> summary.Within(bound);
      }
    }

    /** Joins what is pending at the returns of the function: the least summary that has all of it. The source looks up
        the last virtual block that was reached in each block with a return, and relies on there being one. */
    method JoinReturns(exitBlocks: seq<nat>, outputBlockInfoMap: Infos) returns (funcBlockInfo: BlockInfo)
      requires forall b :: b in exitBlocks ==> exists v :: v in outputBlockInfoMap && v.block == b
      ensures IsSummary(outputBlockInfoMap, exitBlocks, funcBlockInfo.Contents())
    {
      funcBlockInfo := new BlockInfo(NOTHING);
      for i := 0 to |exitBlocks|
        invariant fresh(funcBlockInfo)
        invariant IsSummary(outputBlockInfoMap, exitBlocks[..i], funcBlockInfo.Contents())
      {
        assert exitBlocks[i] in exitBlocks;
        var maxIt := LastReached(outputBlockInfoMap, exitBlocks[i]);
        SummarySnoc(outputBlockInfoMap, exitBlocks, i, maxIt, funcBlockInfo.Contents());
        funcBlockInfo.Join(outputBlockInfoMap[maxIt]);
      }
      assert exitBlocks[..|exitBlocks|] == exitBlocks;
    }

    /** The summary of the function covers everything a run leaves pending when it returns. */
    lemma ReturnsAreCovered(outputs: Infos, exitBlocks: seq<nat>, summary: Info, path: seq<VirtualBlock>)
      requires code.Keys == skeleton.exits.Keys && outputs.Keys <= code.Keys
      requires skeleton.ToGraph().IsPath(path) && PendingCovered(skeleton.ToGraph(), code, outputs, path)
      requires IsSummary(outputs, exitBlocks, summary)
      requires var last := path[|path| - 1];
               && last.block in exitBlocks
               && forall v :: v in skeleton.exits && v.block == last.block ==> v.index <= last.index
      ensures After(NOTHING, Trace(code, path)).Within(summary)
    {
      assert ReturnsWithin(outputs, exitBlocks, summary) <==> summary.Within(summary);
      assert IsLastReached(outputs, path[|path| - 1]);
    }
  }
}
