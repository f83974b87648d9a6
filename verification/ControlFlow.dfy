/** The blocks of a function, how control goes from one stretch of straight-line code to the next, and the graph of
    virtual blocks the barrier analysis works on. */
module ControlFlow {
  import opened MembarRuns

  /** A region successor: the entry block of a region, or the code after the operation with the regions. */
  datatype RegionSuccessor = Parent | Region(entry: nat)

  /** The operation that ends a virtual block. The regions of a `RegionTerminator` belong to the operation
      that ends the virtual block `parent`. */
  datatype Exit =
    | Branch(targets: seq<nat>)
    | RegionBranch(regions: seq<RegionSuccessor>)
    | RegionTerminator(parent: VirtualBlock, regions: seq<RegionSuccessor>)
    | Return

  /** After the parent operation, or the beginning of another region of it. */
  function Target(region: RegionSuccessor, parent: VirtualBlock): VirtualBlock {
    match region
    case Parent => VirtualBlock(parent.block, parent.index + 1)
    case Region(entry) => VirtualBlock(entry, 0)
  }

  function Successors(v: VirtualBlock, exit: Exit): seq<VirtualBlock> {
    match exit
    case Branch(targets) => seq(|targets|, i requires 0 <= i < |targets| => VirtualBlock(targets[i], 0))
    case RegionBranch(regions) => seq(|regions|, i requires 0 <= i < |regions| => Target(regions[i], v))
    case RegionTerminator(parent, regions) =>
      seq(|regions|, i requires 0 <= i < |regions| => Target(regions[i], parent))
    case Return => []
  }

  /** A block as the walk over the function meets it. */
  datatype WalkedBlock = WalkedBlock(block: nat, isEntry: bool, inRegionBranch: bool) {
    predicate Starts() {
      isEntry && !inRegionBranch
    }
  }

  /** The function without its straight-line code: its blocks in walk order and the ends of its virtual blocks. */
  datatype Skeleton = Skeleton(walk: seq<WalkedBlock>, exits: map<VirtualBlock, Exit>) {
    ghost function ToGraph(): Graph {
      Graph(set i | 0 <= i < |walk| && walk[i].Starts() :: VirtualBlock(walk[i].block, 0),
            map v | v in exits :: Successors(v, exits[v]))
    }
  }

  // ----- Runs

  /** Control may go from the end of `v` to `w`: along a branch, into a region, or out of the regions to the code behind
      the operation that has them. */
  ghost predicate Goes(skeleton: Skeleton, v: VirtualBlock, w: VirtualBlock) {
    && v in skeleton.exits
    && match skeleton.exits[v]
       case Branch(targets) => w.index == 0 && w.block in targets
       case RegionBranch(regions) =>
         || (w.index == 0 && Region(w.block) in regions)
         || (w.index == v.index + 1 && w.block == v.block && Parent in regions)
       case RegionTerminator(parent, regions) =>
         || (w.index == 0 && Region(w.block) in regions)
         || (w.index == parent.index + 1 && w.block == parent.block && Parent in regions)
       case Return => false
  }

  /** The virtual blocks that an execution passes, from the beginning of an entry block on. */
  ghost predicate Runs(skeleton: Skeleton, path: seq<VirtualBlock>) {
    && path != [] && (forall v :: v in path ==> v in skeleton.exits)
    && path[0].index == 0
    && (exists i :: 0 <= i < |skeleton.walk| && skeleton.walk[i].block == path[0].block
                    && skeleton.walk[i].isEntry && !skeleton.walk[i].inRegionBranch)
    && forall i :: 0 <= i < |path| - 1 ==> Goes(skeleton, path[i], path[i + 1])
  }

  lemma SuccessorsAre(v: VirtualBlock, exit: Exit, w: VirtualBlock, skeleton: Skeleton)
    requires v in skeleton.exits && skeleton.exits[v] == exit
    ensures w in Successors(v, exit) <==> Goes(skeleton, v, w)
  {
    match exit
    case Branch(targets) =>
      if Goes(skeleton, v, w) {
        var i :| 0 <= i < |targets| && targets[i] == w.block;
        assert Successors(v, exit)[i] == w;
      }
    case RegionBranch(regions) =>
      RegionTargets(regions, v, w);
    case RegionTerminator(parent, regions) =>
      RegionTargets(regions, parent, w);
    case Return =>
  }

  lemma RegionTargets(regions: seq<RegionSuccessor>, parent: VirtualBlock, w: VirtualBlock)
    ensures w in seq(|regions|, i requires 0 <= i < |regions| => Target(regions[i], parent)) <==>
            || (w.index == 0 && Region(w.block) in regions)
            || (w.index == parent.index + 1 && w.block == parent.block && Parent in regions)
  {
    var targets := seq(|regions|, i requires 0 <= i < |regions| => Target(regions[i], parent));
    if w.index == 0 && Region(w.block) in regions {
      var i :| 0 <= i < |regions| && regions[i] == Region(w.block);
      assert targets[i] == w;
    }
    if w.index == parent.index + 1 && w.block == parent.block && Parent in regions {
      var i :| 0 <= i < |regions| && regions[i] == Parent;
      assert targets[i] == w;
    }
    if w in targets {
      var i :| 0 <= i < |regions| && targets[i] == w;
      assert regions[i] in regions;
    }
  }

  lemma RunSnoc(skeleton: Skeleton, init: seq<VirtualBlock>, last: VirtualBlock)
    requires init != []
    ensures Runs(skeleton, init + [last]) <==>
            Runs(skeleton, init) && last in skeleton.exits && Goes(skeleton, init[|init| - 1], last)
  {
    var path := init + [last];
    if Runs(skeleton, path) {
      forall v | v in init ensures v in skeleton.exits {
        assert v in path;
      }
      forall i | 0 <= i < |init| - 1 ensures Goes(skeleton, init[i], init[i + 1]) {
        assert Goes(skeleton, path[i], path[i + 1]);
      }
      assert last in path && Goes(skeleton, path[|init| - 1], path[|init| - 1 + 1]);
    }
    if Runs(skeleton, init) && last in skeleton.exits && Goes(skeleton, init[|init| - 1], last) {
      forall i | 0 <= i < |path| - 1 ensures Goes(skeleton, path[i], path[i + 1]) {
        if i < |init| - 1 {
          assert Goes(skeleton, init[i], init[i + 1]);
        }
      }
    }
  }

  lemma PathSnoc(graph: Graph, init: seq<VirtualBlock>, last: VirtualBlock)
    requires init != []
    ensures graph.IsPath(init + [last]) <==>
            graph.IsPath(init) && last in graph.next && last in graph.next[init[|init| - 1]]
  {
    var path := init + [last];
    assert path[..|path| - 1] == init;
    if graph.IsPath(path) {
      assert last in path;
    }
  }

  /** The paths of the graph are the runs. */
  lemma {:induction false} RunsArePaths(skeleton: Skeleton, path: seq<VirtualBlock>)
    ensures skeleton.ToGraph().IsPath(path) <==> Runs(skeleton, path)
    decreases |path|
  {
    if |path| > 1 {
      var init, last := path[..|path| - 1], path[|path| - 1];
      assert path == init + [last];
      RunsArePaths(skeleton, init);
      RunSnoc(skeleton, init, last);
      PathSnoc(skeleton.ToGraph(), init, last);
      if init[|init| - 1] in skeleton.exits {
        SuccessorsAre(init[|init| - 1], skeleton.exits[init[|init| - 1]], last, skeleton);
      }
    } else if |path| == 1 {
      StartsAre(skeleton, path[0]);
    }
  }

  lemma StartsAre(skeleton: Skeleton, v: VirtualBlock)
    ensures v in skeleton.ToGraph().starts <==>
            v.index == 0 && exists i :: 0 <= i < |skeleton.walk| && skeleton.walk[i].block == v.block
                                        && skeleton.walk[i].isEntry && !skeleton.walk[i].inRegionBranch
  {
    if i :| 0 <= i < |skeleton.walk| && skeleton.walk[i].block == v.block && skeleton.walk[i].isEntry
            && !skeleton.walk[i].inRegionBranch {
      assert skeleton.walk[i].Starts();
    }
    if i :| 0 <= i < |skeleton.walk| && skeleton.walk[i].Starts() && v == VirtualBlock(skeleton.walk[i].block, 0) {
      assert skeleton.walk[i].block == v.block;
    }
  }
}
