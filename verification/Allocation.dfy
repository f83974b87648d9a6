/** The shared-memory allocator: greedy starting offsets, then rounds of colouring and bumping. */
module Allocation {
  import opened Intervals
  import opened Placement

  class Buffer {
    const id: nat
    const info: BufferInfo
    var offset: nat

    constructor (id: nat, info: BufferInfo)
      ensures this.id == id && this.info == info && offset == 0
    {
      this.id, this.info, this.offset := id, info, 0;
    }

    ghost predicate IsAligned()
      reads this
    {
      info.alignment > 0 && IsMultiple(offset, info.alignment)
    }

    method SetOffsetAligned(newOffset: nat) returns (aligned: nat)
      requires info.alignment > 0
      modifies this
      ensures IsAligned()
      ensures offset == aligned == AlignTo(newOffset, info.alignment)
    {
      AlignToIsQuotient(newOffset, info.alignment);
      AlignToIsAligned(newOffset, info.alignment);
      offset := (newOffset + info.alignment - 1) / info.alignment * info.alignment;
      aligned := offset;
    }
  }

  ghost predicate Distinct(buffers: seq<Buffer>) {
    && (forall i, j :: 0 <= i < j < |buffers| ==> buffers[i] != buffers[j])
    && (forall i :: 0 <= i < |buffers| ==> buffers[i].info.Valid())
  }

  ghost function Infos(buffers: seq<Buffer>): seq<BufferInfo> {
    seq(|buffers|, i requires 0 <= i < |buffers| => buffers[i].info)
  }

  ghost function Offsets(buffers: seq<Buffer>): seq<nat>
    reads buffers
  {
    seq(|buffers|, i requires 0 <= i < |buffers| reads buffers => buffers[i].offset)
  }

  /** Only buffers that interfere with something have an entry. */
  type Graph = map<Buffer, set<Buffer>>

  function Neighbours(interference: Graph, x: Buffer): set<Buffer> {
    if x in interference then interference[x] else {}
  }

  ghost predicate Edge(interference: Graph, buffers: seq<Buffer>, i: int, j: int)
    requires 0 <= i < |buffers| && 0 <= j < |buffers|
  {
    buffers[j] in Neighbours(interference, buffers[i])
  }

  ghost predicate InGraph(interference: Graph, buffers: seq<Buffer>) {
    forall x :: x in interference ==> x in buffers && interference[x] != {} &&
                                      forall y :: y in interference[x] ==> y in buffers
  }

  /** The graph shows exactly the interference of the placement `offsets`. */
  ghost predicate Depicts(interference: Graph, buffers: seq<Buffer>, offsets: seq<nat>) {
    && |offsets| == |buffers|
    && InGraph(interference, buffers)
    && forall i, j :: 0 <= i < |buffers| && 0 <= j < |buffers| ==>
         (Edge(interference, buffers, i, j) <==> Interfere(Infos(buffers), offsets, i, j))
  }

  lemma EmptyGraph(interference: Graph, buffers: seq<Buffer>, offsets: seq<nat>)
    requires Depicts(interference, buffers, offsets)
    ensures interference == map[] <==> !AnyInterference(Infos(buffers), offsets)
  {
    if x :| x in interference {
      var y :| y in interference[x];
      var i :| 0 <= i < |buffers| && buffers[i] == x;
      var j :| 0 <= j < |buffers| && buffers[j] == y;
      assert Edge(interference, buffers, i, j);
    } else {
      assert forall i, j :: 0 <= i < |buffers| && 0 <= j < |buffers| ==> !Edge(interference, buffers, i, j);
    }
  }

  /** The first `k` buffers have their final colours; each colour is at most the position of its buffer. */
  ghost predicate Colored(buffers: seq<Buffer>, colors: map<Buffer, int>, k: nat)
    requires k <= |buffers|
  {
    forall i :: 0 <= i < k ==> buffers[i] in colors && 0 <= colors[buffers[i]] <= i
  }

  ghost function ColorsOf(buffers: seq<Buffer>, colors: map<Buffer, int>): seq<nat>
    requires Colored(buffers, colors, |buffers|)
  {
    seq(|buffers|, i requires 0 <= i < |buffers| => colors[buffers[i]])
  }

  ghost predicate Used(interference: Graph, colors: map<Buffer, int>, x: Buffer, c: int) {
    exists y :: y in Neighbours(interference, x) && y in colors && colors[y] == c
  }

  /** The buffers from `i` on have their initial colours. */
  ghost predicate Uncolored(buffers: seq<Buffer>, colors: map<Buffer, int>, i: nat) {
    forall j :: i <= j < |buffers| ==> buffers[j] in colors && colors[buffers[j]] == if j == 0 then 0 else -1
  }

  /** `done` lists the colours of the first buffers. */
  ghost predicate Recorded(buffers: seq<Buffer>, colors: map<Buffer, int>, done: seq<nat>) {
    && |done| <= |buffers|
    && forall j :: 0 <= j < |done| ==> buffers[j] in colors && done[j] == colors[buffers[j]] && done[j] <= j
  }

  /** When it is the turn of a buffer, the colours its neighbours have are those of earlier neighbours. */
  lemma UsedIsTaken(buffers: seq<Buffer>, interference: Graph, offsets: seq<nat>, colors: map<Buffer, int>,
                    done: seq<nat>)
    requires Distinct(buffers) && Depicts(interference, buffers, offsets)
    requires |done| < |buffers| && Recorded(buffers, colors, done) && Uncolored(buffers, colors, |done|)
    ensures forall y :: y in Neighbours(interference, buffers[|done|]) ==> y in colors && colors[y] < |buffers|
    ensures forall c: nat :: Used(interference, colors, buffers[|done|], c) <==>
                             Taken(Infos(buffers), offsets, done, |done|, c)
    ensures !Used(interference, colors, buffers[|done|], |done|)
  {
    var i := |done|;
    forall y | y in Neighbours(interference, buffers[i]) ensures y in colors && colors[y] < |buffers| {
      var j :| 0 <= j < |buffers| && buffers[j] == y;
    }
    forall c: nat ensures Used(interference, colors, buffers[i], c) <==> Taken(Infos(buffers), offsets, done, i, c) {
      if Used(interference, colors, buffers[i], c) {
        var y :| y in Neighbours(interference, buffers[i]) && y in colors && colors[y] == c;
        var j :| 0 <= j < |buffers| && buffers[j] == y;
        assert Edge(interference, buffers, i, j);
        assert EarlierNeighbour(Infos(buffers), offsets, done, i, c, j);
      }
      if j :| EarlierNeighbour(Infos(buffers), offsets, done, i, c, j) {
        assert Edge(interference, buffers, i, j);
        assert buffers[j] in Neighbours(interference, buffers[i]) && colors[buffers[j]] == c;
      }
    }
  }

  function Without(xs: seq<Buffer>, k: nat): (r: seq<Buffer>)
    requires k < |xs|
    ensures |r| == |xs| - 1
    ensures forall x :: x in xs ==> x in r || x == xs[k]
    ensures Distinct(xs) ==> xs[k] !in r
    ensures forall x :: x in r ==> x in xs
    ensures Distinct(xs) ==> Distinct(r)
  {
    xs[..k] + xs[k + 1..]
  }

  /** Puts `x` in front of the buffers that are not larger. */
  function InsertBySize(x: Buffer, sorted: seq<Buffer>): (r: seq<Buffer>)
    ensures multiset(r) == multiset{x} + multiset(sorted)
    ensures r[0] == x || (sorted != [] && r[0] == sorted[0])
    ensures DescendingSizes(sorted) ==> DescendingSizes(r)
  {
    if sorted == [] || x.info.size >= sorted[0].info.size then [x] + sorted
    else
      assert sorted == [sorted[0]] + sorted[1..];
      [sorted[0]] + InsertBySize(x, sorted[1..])
  }

  ghost predicate DescendingSizes(buffers: seq<Buffer>) {
    |buffers| <= 1 || (buffers[0].info.size >= buffers[1].info.size && DescendingSizes(buffers[1..]))
  }

  /** The stable sort by descending size. */
  function SortBySize(buffers: seq<Buffer>): (r: seq<Buffer>)
    ensures multiset(r) == multiset(buffers)
    ensures DescendingSizes(r)
  {
    if buffers == [] then []
    else
      assert buffers == [buffers[0]] + buffers[1..];
      InsertBySize(buffers[0], SortBySize(buffers[1..]))
  }

  /** The buffers of one size, in order. */
  ghost function OfSize(buffers: seq<Buffer>, size: nat): seq<Buffer> {
    if buffers == [] then [] else
      (if buffers[0].info.size == size then [buffers[0]] else []) + OfSize(buffers[1..], size)
  }

  lemma {:induction false} InsertIsStable(x: Buffer, sorted: seq<Buffer>, size: nat)
    ensures OfSize(InsertBySize(x, sorted), size) == OfSize([x] + sorted, size)
  {
    assert ([x] + sorted)[1..] == sorted;
    if sorted != [] && x.info.size < sorted[0].info.size {
      InsertIsStable(x, sorted[1..], size);
      assert ([x] + sorted[1..])[1..] == sorted[1..];
    }
  }

  /** Buffers of equal size keep their order. */
  lemma {:induction false} SortIsStable(buffers: seq<Buffer>, size: nat)
    ensures OfSize(SortBySize(buffers), size) == OfSize(buffers, size)
  {
    if buffers != [] {
      SortIsStable(buffers[1..], size);
      InsertIsStable(buffers[0], SortBySize(buffers[1..]), size);
      assert ([buffers[0]] + SortBySize(buffers[1..]))[1..] == SortBySize(buffers[1..]);
    }
  }

  lemma {:induction false} CountOfDistinct(buffers: seq<Buffer>, x: Buffer)
    requires forall i, j :: 0 <= i < j < |buffers| ==> buffers[i] != buffers[j]
    ensures multiset(buffers)[x] <= 1
  {
    if buffers != [] {
      CountOfDistinct(buffers[1..], x);
      assert buffers == [buffers[0]] + buffers[1..];
      if x == buffers[0] {
        assert x !in buffers[1..];
      }
    }
  }

  /** Sorting keeps the buffers distinct and loses none. */
  lemma PermutationIsDistinct(buffers: seq<Buffer>, permuted: seq<Buffer>)
    requires Distinct(buffers) && multiset(permuted) == multiset(buffers)
    ensures Distinct(permuted)
    ensures forall i :: 0 <= i < |permuted| ==> permuted[i] in buffers
    ensures forall i :: 0 <= i < |buffers| ==> buffers[i] in permuted
  {
    forall i | 0 <= i < |permuted| ensures permuted[i] in buffers {
      assert permuted[i] in multiset(permuted);
    }
    forall i | 0 <= i < |buffers| ensures buffers[i] in permuted {
      assert buffers[i] in multiset(buffers);
    }
    forall i, j | 0 <= i < j < |permuted| ensures permuted[i] != permuted[j] {
      CountOfDistinct(buffers, permuted[i]);
      assert permuted == permuted[..j] + permuted[j..];
      assert permuted[i] in multiset(permuted[..j]) && permuted[j] in multiset(permuted[j..]);
    }
  }

  lemma PlacedApart(buffers: seq<Buffer>, x: Buffer, y: Buffer)
    requires !AnyInterference(Infos(buffers), Offsets(buffers)) && x in buffers && y in buffers && x != y
    ensures !Clash(x.info, x.offset, y.info, y.offset)
  {
    var i :| 0 <= i < |buffers| && buffers[i] == x;
    var j :| 0 <= j < |buffers| && buffers[j] == y;
    assert !Interfere(Infos(buffers), Offsets(buffers), i, j);
  }

  lemma PlacedInside(buffers: seq<Buffer>, size: nat, x: Buffer)
    requires Aligned(Infos(buffers), Offsets(buffers)) && x in buffers
    requires size == Extent(Infos(buffers), Offsets(buffers), |buffers|)
    ensures x.IsAligned() && x.offset + x.info.size <= size
  {
    var infos, offsets := Infos(buffers), Offsets(buffers);
    ExtentIsLargest(infos, offsets, |buffers|);
    var i :| 0 <= i < |buffers| && buffers[i] == x;
    assert IsMultiple(offsets[i], infos[i].alignment);
  }

  lemma PlacedTight(buffers: seq<Buffer>, size: nat)
    requires size == Extent(Infos(buffers), Offsets(buffers), |buffers|)
    ensures if buffers == [] then size == 0 else exists x :: x in buffers && x.offset + x.info.size == size
  {
    var infos, offsets := Infos(buffers), Offsets(buffers);
    ExtentIsLargest(infos, offsets, |buffers|);
    if buffers != [] {
      var i :| 0 <= i < |buffers| && offsets[i] + infos[i].size == size;
      assert buffers[i] in buffers;
    }
  }

  /** The end of the iteration in terms of the buffers themselves. */
  lemma PlacedWell(buffers: seq<Buffer>, size: nat)
    requires Aligned(Infos(buffers), Offsets(buffers)) && !AnyInterference(Infos(buffers), Offsets(buffers))
    requires size == Extent(Infos(buffers), Offsets(buffers), |buffers|)
    ensures forall x, y :: x in buffers && y in buffers && x != y ==> !Clash(x.info, x.offset, y.info, y.offset)
    ensures forall x :: x in buffers ==> x.IsAligned() && x.offset + x.info.size <= size
    ensures if buffers == [] then size == 0 else exists x :: x in buffers && x.offset + x.info.size == size
  {
    forall x, y | x in buffers && y in buffers && x != y ensures !Clash(x.info, x.offset, y.info, y.offset) {
      PlacedApart(buffers, x, y);
    }
    forall x | x in buffers ensures x.IsAligned() && x.offset + x.info.size <= size {
      PlacedInside(buffers, size, x);
    }
    PlacedTight(buffers, size);
  }

  /** The neighbours of a buffer are those it shares a byte with while both are in use. */
  lemma NeighboursShare(interference: Graph, buffers: seq<Buffer>, x: Buffer, y: Buffer)
    requires Distinct(buffers) && Depicts(interference, buffers, Offsets(buffers))
    requires x in buffers && y in buffers && x.info.size > 0 && y.info.size > 0
    ensures y in Neighbours(interference, x) <==>
            x != y && ShareByte(x.info, x.offset, y.info, y.offset) && InUseTogether(x.info, y.info)
  {
    var i :| 0 <= i < |buffers| && buffers[i] == x;
    var j :| 0 <= j < |buffers| && buffers[j] == y;
    ClashExactly(x.info, x.offset, y.info, y.offset);
    assert Edge(interference, buffers, i, j) <==> Interfere(Infos(buffers), Offsets(buffers), i, j);
  }

  class AllocationAnalysis {
    var sharedMemorySize: nat

    method BuildInterferenceGraph(buffers: seq<Buffer>) returns (interference: Graph)
      requires Distinct(buffers)
      ensures Depicts(interference, buffers, Offsets(buffers))
      ensures forall x, y :: x in buffers && y in buffers && x.info.size > 0 && y.info.size > 0 ==>
        (y in Neighbours(interference, x) <==>
         x != y && ShareByte(x.info, x.offset, y.info, y.offset) && InUseTogether(x.info, y.info))
    {
      interference := map[];
      for i := 0 to |buffers|
        invariant InGraph(interference, buffers)
        invariant forall a, b :: 0 <= a < |buffers| && 0 <= b < |buffers| ==>
                    (Edge(interference, buffers, a, b) <==>
                     a < i && Interfere(Infos(buffers), Offsets(buffers), a, b))
      {
        var x := buffers[i];
        for j := 0 to |buffers|
          invariant InGraph(interference, buffers)
          invariant forall a, b :: 0 <= a < |buffers| && 0 <= b < |buffers| ==>
                      (Edge(interference, buffers, a, b) <==>
                       (a < i || (a == i && b < j)) && Interfere(Infos(buffers), Offsets(buffers), a, b))
        {
          var y := buffers[j];
          ghost var before := interference;
          if x != y {
            var xSizeRange := Interval(x.offset, x.offset + x.info.size);
            var ySizeRange := Interval(y.offset, y.offset + y.info.size);
            if x.info.LiveTogether(y.info) && xSizeRange.Intersects(ySizeRange) {
              interference := interference[x := Neighbours(interference, x) + {y}];
            }
            if x.info.RunsBeside(y.info) && xSizeRange.Intersects(ySizeRange) {
              interference := interference[x := Neighbours(interference, x) + {y}];
            }
          }
          assert (x == y <==> i == j) && (forall a :: 0 <= a < |buffers| ==> (buffers[a] == x <==> a == i));
          forall a, b | 0 <= a < |buffers| && 0 <= b < |buffers|
            ensures Edge(interference, buffers, a, b) <==>
                    Edge(before, buffers, a, b) ||
                    (a == i && b == j && Interfere(Infos(buffers), Offsets(buffers), i, j))
          {
            assert buffers[b] == y <==> b == j;
          }
        }
      }
      forall x, y | x in buffers && y in buffers && x.info.size > 0 && y.info.size > 0
        ensures y in Neighbours(interference, x) <==>
                x != y && ShareByte(x.info, x.offset, y.info, y.offset) && InUseTogether(x.info, y.info)
      {
        NeighboursShare(interference, buffers, x, y);
      }
    }

    /** The first colour that no coloured neighbour of `x` has; `bound` is one. */
    method FirstAvailable(x: Buffer, interference: Graph, colors: map<Buffer, int>, available: array<bool>,
                          ghost bound: nat) returns (it: nat)
      requires bound < available.Length && !Used(interference, colors, x, bound)
      requires forall y :: y in Neighbours(interference, x) ==> y in colors && colors[y] < available.Length
      modifies available
      ensures it <= bound && !Used(interference, colors, x, it)
      ensures forall c :: 0 <= c < it ==> Used(interference, colors, x, c)
    {
      for c := 0 to available.Length
        invariant forall d :: 0 <= d < c ==> available[d]
      {
        available[c] := true;
      }
      var ys := Neighbours(interference, x);
      while ys != {}
        invariant ys <= Neighbours(interference, x)
        invariant forall c :: 0 <= c < available.Length && !available[c] ==> Used(interference, colors, x, c)
        invariant forall y :: y in Neighbours(interference, x) - ys && colors[y] >= 0 ==> !available[colors[y]]
      {
        var y :| y in ys;
        var color := colors[y];
        if color >= 0 {
          available[color] := false;
        }
        ys := ys - {y};
      }
      it := 0;
      while !available[it]
        invariant it <= bound
        decreases bound - it
        invariant forall c :: 0 <= c < it ==> !available[c]
      {
        it := it + 1;
      }
    }

    /** First-fit colouring in buffer order. */
    method Color(buffers: seq<Buffer>, interference: Graph, ghost offsets: seq<nat>) returns (colors: map<Buffer, int>)
      requires Distinct(buffers) && Depicts(interference, buffers, offsets)
      ensures Colored(buffers, colors, |buffers|)
      ensures Coloring(Infos(buffers), offsets, ColorsOf(buffers, colors))
    {
      colors := map[];
      for i := 0 to |buffers|
        invariant Uncolored(buffers[..i], colors, 0)
      {
        colors := colors[buffers[i] := if buffers[i] == buffers[0] then 0 else -1];
      }
      assert buffers[..|buffers|] == buffers;
      var available := new bool[|buffers|];
      ghost var done: seq<nat> := [];
      for i := 0 to |buffers|
        invariant Uncolored(buffers, colors, i) && Recorded(buffers, colors, done) && |done| == i
        invariant forall j :: 0 <= j < i ==> FirstFit(Infos(buffers), offsets, done, j)
      {
        var x := buffers[i];
        UsedIsTaken(buffers, interference, offsets, colors, done);
        var it := FirstAvailable(x, interference, colors, available, i);
        FirstFitOfPrefix(Infos(buffers), offsets, done, it);
        colors := colors[x := it];
        done := done + [it];
      }
      assert done == ColorsOf(buffers, colors);
    }

    /** The largest end of the buffers that interfere with `buffers[i]`. */
    method LargestEnd(buffers: seq<Buffer>, interference: Graph, ghost before: seq<nat>, i: nat)
      returns (newOffset: nat)
      requires Distinct(buffers) && Depicts(interference, buffers, before) && i < |buffers|
      ensures newOffset == MaxEnd(Infos(buffers), before, Offsets(buffers), i, |buffers|)
    {
      newOffset := 0;
      var x := buffers[i];
      var ys := Neighbours(interference, x);
      while ys != {}
        invariant ys <= Neighbours(interference, x)
        invariant forall y :: y in Neighbours(interference, x) - ys ==> y.offset + y.info.size <= newOffset
        invariant newOffset == 0 || exists y :: y in Neighbours(interference, x) && y.offset + y.info.size == newOffset
      {
        var y :| y in ys;
        newOffset := if newOffset < y.offset + y.info.size then y.offset + y.info.size else newOffset;
        ys := ys - {y};
      }
      forall j | 0 <= j < |buffers| && Interfere(Infos(buffers), before, i, j)
        ensures buffers[j].offset + buffers[j].info.size <= newOffset
      {
        assert Edge(interference, buffers, i, j);
      }
      if newOffset != 0 {
        var y :| y in Neighbours(interference, x) && y.offset + y.info.size == newOffset;
        var j :| 0 <= j < |buffers| && buffers[j] == y;
        assert Edge(interference, buffers, i, j);
      }
      MaxEndIsMaxEnd(Infos(buffers), before, Offsets(buffers), i, |buffers|);
      assert IsMaxEnd(Infos(buffers), before, Offsets(buffers), i, |buffers|, newOffset);
    }

    /** Settles the offset of one buffer; no other buffer moves. */
    method Finalize(buffers: seq<Buffer>, interference: Graph, ghost before: seq<nat>, i: nat, color: nat)
      requires Distinct(buffers) && Depicts(interference, buffers, before) && i < |buffers|
      modifies this, buffers[i]
      ensures Offsets(buffers) == BumpOne(Infos(buffers), before, old(Offsets(buffers)), color, i)
      ensures var end := buffers[i].offset + buffers[i].info.size;
              sharedMemorySize == if old(sharedMemorySize) < end then end else old(sharedMemorySize)
    {
      var x := buffers[i];
      var newOffset := LargestEnd(buffers, interference, before, i);
      if color != 0 {
        ghost var now := Offsets(buffers);
        var aligned := x.SetOffsetAligned(newOffset);
        assert Offsets(buffers) == now[i := aligned];
      }
      var end := x.offset + x.info.size;
      sharedMemorySize := if sharedMemorySize < end then end else sharedMemorySize;
    }

    /** Moves every buffer whose colour is not 0 behind all buffers it interferes with. */
    method FinalizeAll(buffers: seq<Buffer>, interference: Graph, colors: map<Buffer, int>)
      requires Distinct(buffers) && Depicts(interference, buffers, Offsets(buffers))
      requires Colored(buffers, colors, |buffers|)
      modifies this, buffers
      ensures Offsets(buffers) == Bumped(Infos(buffers), old(Offsets(buffers)), ColorsOf(buffers, colors), |buffers|)
      ensures sharedMemorySize == Extent(Infos(buffers), Offsets(buffers), |buffers|)
    {
      sharedMemorySize := 0;
      ghost var before, infos, cs := Offsets(buffers), Infos(buffers), ColorsOf(buffers, colors);
      for i := 0 to |buffers|
        invariant Offsets(buffers) == Bumped(infos, before, cs, i)
        invariant sharedMemorySize == Extent(infos, Offsets(buffers), i)
      {
        ghost var now := Offsets(buffers);
        Finalize(buffers, interference, before, i, colors[buffers[i]]);
        BumpStep(infos, before, cs, now, Offsets(buffers), i);
      }
    }

    /** One round: colours the buffers and moves those whose colour is not 0. */
    method Allocate(buffers: seq<Buffer>, interference: Graph) returns (ghost colors: seq<nat>)
      requires Distinct(buffers) && Depicts(interference, buffers, Offsets(buffers))
      modifies this, buffers
      ensures Coloring(Infos(buffers), old(Offsets(buffers)), colors)
      ensures Offsets(buffers) == Bumped(Infos(buffers), old(Offsets(buffers)), colors, |buffers|)
      ensures sharedMemorySize == Extent(Infos(buffers), Offsets(buffers), |buffers|)
    {
      var colorOf := Color(buffers, interference, Offsets(buffers));
      colors := ColorsOf(buffers, colorOf);
      FinalizeAll(buffers, interference, colorOf);
    }

    /** The first buffer that overlaps the range of the chosen triple and of no other. */
    method FindBuffer(xBuffers: seq<Buffer>, range: Interval, rest: seq<Triple>) returns (k: nat)
      ensures k <= |xBuffers|
      ensures forall j :: 0 <= j < k ==> !Fits(xBuffers[j].info, range, rest)
      ensures k < |xBuffers| ==> Fits(xBuffers[k].info, range, rest)
    {
      k := 0;
      while k < |xBuffers| && !Fits(xBuffers[k].info, range, rest)
        invariant k <= |xBuffers|
        invariant forall j :: 0 <= j < k ==> !Fits(xBuffers[j].info, range, rest)
      {
        k := k + 1;
      }
    }

    /** Replaces the triple `(offset, range)` by what a buffer live during `live` leaves of it. */
    method InsertPieces(rest: seq<Triple>, offset: nat, range: Interval, live: Interval, end: nat)
      returns (tripleMap: seq<Triple>)
      requires BySize(rest)
      requires NonEmpty(rest) && range.start < range.end && live.start < live.end && live.Intersects(range)
      ensures BySize(tripleMap) && NonEmpty(tripleMap)
      ensures forall t :: t in tripleMap <==> t in rest || t in Split(offset, range, live, end)
    {
      tripleMap := Insert(rest, Triple(end, Interval(if range.start < live.start then live.start else range.start,
                                                     if live.end < range.end then live.end else range.end)));
      if range.start < live.start {
        tripleMap := Insert(tripleMap, Triple(offset, Interval(range.start, live.end)));
      }
      if live.end < range.end {
        tripleMap := Insert(tripleMap, Triple(offset, Interval(live.start, range.end)));
      }
    }

    /** Puts `buffer` on `triple` and splits the triple. */
    method PlaceOnTriple(buffer: Buffer, triple: Triple, rest: seq<Triple>, ghost placed: seq<Buffer>)
      returns (tripleMap: seq<Triple>, ghost stack: seq<Buffer>)
      requires buffer !in placed && buffer.info.Valid() && buffer.info.live.Intersects(triple.range)
      requires BySize([triple] + rest) && NonEmpty([triple] + rest)
      requires Stacked(Infos(placed), Offsets(placed)) && AllOnTop([triple] + rest, Infos(placed), Offsets(placed))
      modifies buffer
      ensures buffer.IsAligned() && BySize(tripleMap) && NonEmpty(tripleMap)
      ensures stack == placed + [buffer]
      ensures Stacked(Infos(stack), Offsets(stack)) && AllOnTop(tripleMap, Infos(stack), Offsets(stack))
      ensures KeepsCovered([triple] + rest, tripleMap)
    {
      ghost var infos, offsets := Infos(placed), Offsets(placed);
      TopAndRest(triple, rest);
      var alignOffset := buffer.SetOffsetAligned(triple.size);
      stack := placed + [buffer];
      assert Infos(stack) == infos + [buffer.info] && Offsets(stack) == offsets + [alignOffset];
      tripleMap := InsertPieces(rest, triple.size, triple.range, buffer.info.live, alignOffset + buffer.info.size);
      PlacedOnTriple(triple, rest, infos, offsets, buffer.info, tripleMap);
    }

    /** Gives every buffer a starting offset, at the bottom or on top of one placed before. The triple map is never
        empty while a buffer is left: the loop keeps each of them overlapping the range of some triple. */
    method CalculateStarts(buffers: seq<Buffer>) returns (ghost placed: seq<Buffer>)
      requires Distinct(buffers)
      modifies buffers
      ensures Aligned(Infos(buffers), Offsets(buffers))
      ensures forall x :: x in placed <==> x in buffers
      ensures Stacked(Infos(placed), Offsets(placed))
    {
      placed := [];
      var tripleMap := [Triple(0, Interval(0, SIZE_MAX))];
      var xBuffers := buffers;
      while xBuffers != []
        invariant Distinct(xBuffers) && (forall x :: x in xBuffers ==> x in buffers)
        invariant forall x :: x in buffers ==> x in xBuffers || x.IsAligned()
        invariant BySize(tripleMap) && NonEmpty(tripleMap)
        invariant forall x :: x in xBuffers ==> Covered(tripleMap, x.info)
        invariant forall x :: x in buffers <==> x in xBuffers || x in placed
        invariant forall x :: x in placed ==> x !in xBuffers
        invariant Stacked(Infos(placed), Offsets(placed)) && AllOnTop(tripleMap, Infos(placed), Offsets(placed))
        decreases |xBuffers|, |tripleMap|
      {
        assert Covered(tripleMap, xBuffers[0].info);
        var triple, rest := tripleMap[0], tripleMap[1..];
        assert tripleMap == [triple] + rest;
        var k := FindBuffer(xBuffers, triple.range, rest);
        if k < |xBuffers| {
          var buffer := xBuffers[k];
          assert buffer in xBuffers;
          tripleMap, placed := PlaceOnTriple(buffer, triple, rest, placed);
          xBuffers := Without(xBuffers, k);
        } else {
          forall x | x in xBuffers ensures Covered(rest, x.info) {
            DropKeepsCovered(triple, rest, x.info);
          }
          tripleMap := rest;
        }
      }
    }

    /** Colours and bumps until nothing interferes. */
    method ResolveInterference(buffers: seq<Buffer>)
      requires Distinct(buffers) && Aligned(Infos(buffers), Offsets(buffers))
      modifies this, buffers
      ensures Aligned(Infos(buffers), Offsets(buffers)) && !AnyInterference(Infos(buffers), Offsets(buffers))
      ensures sharedMemorySize == Extent(Infos(buffers), Offsets(buffers), |buffers|)
    {
      ghost var infos, starts := Infos(buffers), Offsets(buffers);
      var interference := BuildInterferenceGraph(buffers);
      ghost var colors := Allocate(buffers, interference);
      BumpedIsAligned(infos, starts, colors, |buffers|);
      interference := BuildInterferenceGraph(buffers);
      while interference != map[]
        invariant Depicts(interference, buffers, Offsets(buffers))
        invariant Aligned(infos, Offsets(buffers))
        invariant sharedMemorySize == Extent(infos, Offsets(buffers), |buffers|)
        decreases Rank(infos, Offsets(buffers), |buffers|)
      {
        ghost var before := Offsets(buffers);
        EmptyGraph(interference, buffers, before);
        colors := Allocate(buffers, interference);
        BumpingFalls(infos, before, colors);
        BumpedIsAligned(infos, before, colors, |buffers|);
        interference := BuildInterferenceGraph(buffers);
      }
      EmptyGraph(interference, buffers, Offsets(buffers));
    }

    /** Places the buffers. Buffers in use at the same time end up on disjoint bytes, every offset is aligned,
        and `sharedMemorySize` is the largest end. */
    method ComputeOffsets(bufferRange: seq<Buffer>)
      requires Distinct(bufferRange)
      modifies this, bufferRange
      ensures forall x, y :: x in bufferRange && y in bufferRange && x != y ==>
                !Clash(x.info, x.offset, y.info, y.offset)
      ensures forall x, y :: x in bufferRange && y in bufferRange && x != y && InUseTogether(x.info, y.info) ==>
                !ShareByte(x.info, x.offset, y.info, y.offset)
      ensures forall x :: x in bufferRange ==> x.IsAligned() && x.offset + x.info.size <= sharedMemorySize
      ensures forall x :: x in bufferRange ==> x.info.alignment > 0 && x.offset % x.info.alignment == 0
      ensures if bufferRange == [] then sharedMemorySize == 0
              else exists x :: x in bufferRange && x.offset + x.info.size == sharedMemorySize
    {
      var buffers := SortBySize(bufferRange);
      PermutationIsDistinct(bufferRange, buffers);
      ghost var placed := CalculateStarts(buffers);
      ResolveInterference(buffers);
      PlacedWell(buffers, sharedMemorySize);
      forall x, y | x in bufferRange && y in bufferRange && x != y ensures !Clash(x.info, x.offset, y.info, y.offset) {
        assert x in buffers && y in buffers;
      }
      forall x, y | x in bufferRange && y in bufferRange && x != y && InUseTogether(x.info, y.info)
        ensures !ShareByte(x.info, x.offset, y.info, y.offset)
      {
        assert x in buffers && y in buffers;
        ClashExactly(x.info, x.offset, y.info, y.offset);
      }
      forall x | x in bufferRange ensures x.info.alignment > 0 && x.offset % x.info.alignment == 0 {
        assert x in buffers;
        MultipleIsRemainderFree(x.offset, x.info.alignment);
      }
      if bufferRange == [] {
        assert |buffers| == |multiset(buffers)| == 0;
      } else {
        assert bufferRange[0] in buffers;
      }
    }
  }
}
