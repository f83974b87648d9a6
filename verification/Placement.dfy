/** Placements of shared-memory buffers as plain values: interference, first-fit colours, and the measure
    that makes the allocator's bumping loop end. */
module Placement {
  import opened Intervals
  import opened Options

  /** What never changes about a buffer. `asyncOp` is the enclosing operation whose regions run concurrently,
      if there is one, and `region` the region of it that owns the buffer. */
  datatype BufferInfo = BufferInfo(size: nat, alignment: nat, live: Interval, asyncOp: Option<nat>, region: nat) {
    ghost predicate Valid() {
      alignment > 0 && live.start < live.end <= SIZE_MAX
    }

    predicate LiveTogether(other: BufferInfo) {
      live.Intersects(other.live)
    }

    predicate RunsBeside(other: BufferInfo) {
      asyncOp.Some? && asyncOp == other.asyncOp && region != other.region
    }
  }

  const SIZE_MAX: nat := 0xFFFF_FFFF_FFFF_FFFF

  /** `value` rounded up to a multiple of `alignment`. */
  ghost function AlignTo(value: nat, alignment: nat): nat
    requires alignment > 0
  {
    if value == 0 then 0
    else if value <= alignment then alignment
    else alignment + AlignTo(value - alignment, alignment)
  }

  /** The least multiple of `alignment` that is not below `value`. */
  lemma {:induction false} AlignToIsAligned(value: nat, alignment: nat)
    requires alignment > 0
    ensures value <= AlignTo(value, alignment) < value + alignment
    ensures IsMultiple(AlignTo(value, alignment), alignment)
    decreases value
  {
    if value > alignment {
      AlignToIsAligned(value - alignment, alignment);
    }
  }

  ghost predicate IsMultiple(x: nat, m: nat)
    requires m > 0
  {
    x == 0 || (x >= m && IsMultiple(x - m, m))
  }

  /** Rounding up as the code computes it. */
  lemma {:induction false} AlignToIsQuotient(value: nat, alignment: nat)
    requires alignment > 0
    ensures AlignTo(value, alignment) == (value + alignment - 1) / alignment * alignment
    decreases value
  {
    var q := (value + alignment - 1) / alignment;
    if value == 0 {
      assert q == 0;
    } else if value <= alignment {
      QuotientIsOne(value - 1, alignment);
    } else {
      AlignToIsQuotient(value - alignment, alignment);
      QuotientStep(value + alignment - 1, alignment);
      MultipleStep(q, alignment);
    }
  }

  lemma MultipleStep(q: int, m: int)
    ensures q * m == (q - 1) * m + m
  {
  }

  lemma QuotientIsOne(x: nat, m: nat)
    requires 0 <= x < m
    ensures (x + m) / m == 1
  {
    assert x / m == 0;
    QuotientStep(x + m, m);
  }

  lemma QuotientStep(x: nat, m: nat)
    requires m > 0 && m <= x
    ensures x / m == (x - m) / m + 1
  {
    var a, b := x / m, (x - m) / m;
    assert x == m * a + x % m && x - m == m * b + (x - m) % m;
    assert (a - b - 1) * m == (x - m) % m - x % m;
    SignOfMultiple(a - b - 1, m);
  }

  lemma SignOfMultiple(a: int, m: int)
    requires m > 0
    ensures a >= 1 ==> a * m >= m
    ensures a <= -1 ==> a * m <= -m
  {
  }

  lemma {:induction false} MultipleIsRemainderFree(x: nat, m: nat)
    requires m > 0
    ensures IsMultiple(x, m) <==> x % m == 0
    decreases x
  {
    if x >= m {
      MultipleIsRemainderFree(x - m, m);
      QuotientStep(x, m);
      assert x == m * (x / m) + x % m && x - m == m * ((x - m) / m) + (x - m) % m;
    } else if x > 0 {
      assert x % m == x;
    }
  }

  /** Two buffers that may be in use at the same time and whose bytes overlap. */
  predicate Clash(x: BufferInfo, xOffset: nat, y: BufferInfo, yOffset: nat) {
    && Interval(xOffset, xOffset + x.size).Intersects(Interval(yOffset, yOffset + y.size))
    && (x.LiveTogether(y) || x.RunsBeside(y))
  }

  /** Buffers that do not clash although both may be in use share no byte. */
  lemma NoSharedByte(x: BufferInfo, xOffset: nat, y: BufferInfo, yOffset: nat)
    requires x.size > 0 && y.size > 0 && (x.LiveTogether(y) || x.RunsBeside(y))
    ensures var xs, ys := Interval(xOffset, xOffset + x.size), Interval(yOffset, yOffset + y.size);
            Clash(x, xOffset, y, yOffset) <==> exists b :: xs.Contains(b) && ys.Contains(b)
  {
    IntersectsIsCommonPoint(Interval(xOffset, xOffset + x.size), Interval(yOffset, yOffset + y.size));
  }

  /** Operation `t` is in the live range. */
  ghost predicate IsLive(x: BufferInfo, t: nat) {
    x.live.start <= t < x.live.end
  }

  ghost predicate Occupies(x: BufferInfo, offset: nat, b: nat) {
    offset <= b < offset + x.size
  }

  /** Some operation is in both live ranges, or the buffers belong to different regions that run concurrently. */
  ghost predicate InUseTogether(x: BufferInfo, y: BufferInfo) {
    || (exists t: nat :: IsLive(x, t) && IsLive(y, t))
    || (x.asyncOp.Some? && y.asyncOp.Some? && x.asyncOp.value == y.asyncOp.value && x.region != y.region)
  }

  ghost predicate ShareByte(x: BufferInfo, xOffset: nat, y: BufferInfo, yOffset: nat) {
    exists b: nat :: Occupies(x, xOffset, b) && Occupies(y, yOffset, b)
  }

  /** What the code tests is that the buffers share a byte while both are in use, up to buffers without bytes. */
  lemma ClashExactly(x: BufferInfo, xOffset: nat, y: BufferInfo, yOffset: nat)
    requires x.Valid() && y.Valid()
    ensures ShareByte(x, xOffset, y, yOffset) && InUseTogether(x, y) ==> Clash(x, xOffset, y, yOffset)
    ensures x.size > 0 && y.size > 0 ==>
      (Clash(x, xOffset, y, yOffset) <==> ShareByte(x, xOffset, y, yOffset) && InUseTogether(x, y))
  {
    var xs, ys := Interval(xOffset, xOffset + x.size), Interval(yOffset, yOffset + y.size);
    if ShareByte(x, xOffset, y, yOffset) {
      var b: nat :| Occupies(x, xOffset, b) && Occupies(y, yOffset, b);
      assert xs.Contains(b) && ys.Contains(b);
    }
    IntersectsIsCommonPoint(x.live, y.live);
    if t: nat :| x.live.Contains(t) && y.live.Contains(t) {
      assert IsLive(x, t) && IsLive(y, t);
    }
    if t: nat :| IsLive(x, t) && IsLive(y, t) {
      assert x.live.Contains(t) && y.live.Contains(t);
    }
    if x.size > 0 && y.size > 0 && Clash(x, xOffset, y, yOffset) {
      IntersectsIsCommonPoint(xs, ys);
      var b: nat :| xs.Contains(b) && ys.Contains(b);
      assert Occupies(x, xOffset, b) && Occupies(y, yOffset, b);
    }
  }

  ghost predicate Interfere(infos: seq<BufferInfo>, offsets: seq<nat>, i: int, j: int)
    requires |offsets| == |infos| && 0 <= i < |infos| && 0 <= j < |infos|
  {
    i != j && Clash(infos[i], offsets[i], infos[j], offsets[j])
  }

  ghost predicate AnyInterference(infos: seq<BufferInfo>, offsets: seq<nat>)
    requires |offsets| == |infos|
  {
    exists i, j :: 0 <= i < |infos| && 0 <= j < |infos| && Interfere(infos, offsets, i, j)
  }

  // ----- Colours

  ghost predicate EarlierNeighbour(infos: seq<BufferInfo>, offsets: seq<nat>, colors: seq<nat>, i: int, c: nat, j: int)
    requires |offsets| == |infos| && 0 <= i < |infos| && i <= |colors|
  {
    0 <= j < i && Interfere(infos, offsets, i, j) && colors[j] == c
  }

  ghost predicate Taken(infos: seq<BufferInfo>, offsets: seq<nat>, colors: seq<nat>, i: int, c: nat)
    requires |offsets| == |infos| && 0 <= i < |infos| && i <= |colors|
  {
    exists j :: EarlierNeighbour(infos, offsets, colors, i, c, j)
  }

  /** Buffer `i` has the least colour that no interfering buffer before it has. */
  ghost predicate FirstFit(infos: seq<BufferInfo>, offsets: seq<nat>, colors: seq<nat>, i: int)
    requires |offsets| == |infos| && 0 <= i < |infos| && i < |colors|
  {
    && !Taken(infos, offsets, colors, i, colors[i])
    && (forall c :: 0 <= c < colors[i] ==> Taken(infos, offsets, colors, i, c))
  }

  ghost predicate Coloring(infos: seq<BufferInfo>, offsets: seq<nat>, colors: seq<nat>) {
    && |offsets| == |infos| == |colors|
    && forall i :: 0 <= i < |infos| ==> FirstFit(infos, offsets, colors, i)
  }

  lemma TakenByPrefix(infos: seq<BufferInfo>, offsets: seq<nat>, colors: seq<nat>, longer: seq<nat>, i: int, c: nat)
    requires |offsets| == |infos| && 0 <= i < |infos| && i <= |colors| && colors <= longer
    ensures Taken(infos, offsets, colors, i, c) <==> Taken(infos, offsets, longer, i, c)
  {
    if Taken(infos, offsets, colors, i, c) {
      var j :| EarlierNeighbour(infos, offsets, colors, i, c, j);
      assert EarlierNeighbour(infos, offsets, longer, i, c, j);
    }
    if Taken(infos, offsets, longer, i, c) {
      var j :| EarlierNeighbour(infos, offsets, longer, i, c, j);
      assert EarlierNeighbour(infos, offsets, colors, i, c, j);
    }
  }

  /** Colouring one more buffer leaves the earlier ones first-fit. */
  lemma FirstFitOfPrefix(infos: seq<BufferInfo>, offsets: seq<nat>, colors: seq<nat>, color: nat)
    requires |offsets| == |infos| && |colors| < |infos|
    requires forall i :: 0 <= i < |colors| ==> FirstFit(infos, offsets, colors, i)
    requires !Taken(infos, offsets, colors, |colors|, color)
    requires forall c :: 0 <= c < color ==> Taken(infos, offsets, colors, |colors|, c)
    ensures forall i :: 0 <= i <= |colors| ==> FirstFit(infos, offsets, colors + [color], i)
  {
    var longer := colors + [color];
    forall i | 0 <= i <= |colors| ensures FirstFit(infos, offsets, longer, i) {
      assert i < |colors| ==> FirstFit(infos, offsets, colors, i) && longer[i] == colors[i];
      TakenByPrefix(infos, offsets, colors, longer, i, longer[i]);
      forall c | 0 <= c < longer[i] ensures Taken(infos, offsets, longer, i, c) {
        TakenByPrefix(infos, offsets, colors, longer, i, c);
      }
    }
  }

  /** Buffers with the same colour do not interfere. */
  lemma ColoringIsProper(infos: seq<BufferInfo>, offsets: seq<nat>, colors: seq<nat>, i: int, j: int)
    requires Coloring(infos, offsets, colors) && 0 <= i < |infos| && 0 <= j < |infos|
    requires Interfere(infos, offsets, i, j)
    ensures colors[i] != colors[j]
  {
    var late, early := if i < j then j else i, if i < j then i else j;
    assert FirstFit(infos, offsets, colors, late);
    assert Interfere(infos, offsets, late, early);
    assert colors[early] == colors[late] ==> EarlierNeighbour(infos, offsets, colors, late, colors[late], early);
  }

  // ----- Bumping

  ghost predicate Alignable(infos: seq<BufferInfo>) {
    forall i :: 0 <= i < |infos| ==> infos[i].alignment > 0
  }

  /** `m` is the largest end of the buffers that interfere with `i` under the placement `before`, with the
      buffers where they are `now`; 0 if there are none. */
  ghost predicate IsMaxEnd(infos: seq<BufferInfo>, before: seq<nat>, now: seq<nat>, i: int, n: nat, m: nat)
    requires |before| == |now| == |infos| && 0 <= i < |infos| && n <= |infos|
  {
    && (forall j :: 0 <= j < n && Interfere(infos, before, i, j) ==> now[j] + infos[j].size <= m)
    && (m == 0 || exists j :: 0 <= j < n && Interfere(infos, before, i, j) && now[j] + infos[j].size == m)
  }

  ghost function MaxEnd(infos: seq<BufferInfo>, before: seq<nat>, now: seq<nat>, i: int, n: nat): nat
    requires |before| == |now| == |infos| && 0 <= i < |infos| && n <= |infos|
  {
    if n == 0 then 0
    else
      var m := MaxEnd(infos, before, now, i, n - 1);
      if Interfere(infos, before, i, n - 1) && m < now[n - 1] + infos[n - 1].size
      then now[n - 1] + infos[n - 1].size else m
  }

  lemma {:induction false} MaxEndIsMaxEnd(infos: seq<BufferInfo>, before: seq<nat>, now: seq<nat>, i: int, n: nat)
    requires |before| == |now| == |infos| && 0 <= i < |infos| && n <= |infos|
    ensures IsMaxEnd(infos, before, now, i, n, MaxEnd(infos, before, now, i, n))
  {
    if n > 0 {
      MaxEndIsMaxEnd(infos, before, now, i, n - 1);
    }
  }

  /** The largest end of the first `n` buffers. */
  ghost function Extent(infos: seq<BufferInfo>, offsets: seq<nat>, n: nat): nat
    requires |offsets| == |infos| && n <= |infos|
  {
    if n == 0 then 0
    else
      var m, end := Extent(infos, offsets, n - 1), offsets[n - 1] + infos[n - 1].size;
      if m < end then end else m
  }

  lemma {:induction false} ExtentIsLargest(infos: seq<BufferInfo>, offsets: seq<nat>, n: nat)
    requires |offsets| == |infos| && n <= |infos|
    ensures forall j :: 0 <= j < n ==> offsets[j] + infos[j].size <= Extent(infos, offsets, n)
    ensures n > 0 ==> exists j :: 0 <= j < n && offsets[j] + infos[j].size == Extent(infos, offsets, n)
  {
    if n > 0 {
      ExtentIsLargest(infos, offsets, n - 1);
      if offsets[n - 1] + infos[n - 1].size != Extent(infos, offsets, n) && n > 1 {
        var j :| 0 <= j < n - 1 && offsets[j] + infos[j].size == Extent(infos, offsets, n - 1);
      }
    }
  }

  lemma {:induction false} ExtentOfPrefix(infos: seq<BufferInfo>, a: seq<nat>, b: seq<nat>, n: nat)
    requires |a| == |b| == |infos| && n <= |infos|
    requires forall j :: 0 <= j < n ==> a[j] == b[j]
    ensures Extent(infos, a, n) == Extent(infos, b, n)
  {
    if n > 0 {
      ExtentOfPrefix(infos, a, b, n - 1);
    }
  }

  /** Buffer `i` goes behind all the buffers it interferes with, unless its colour is 0. */
  ghost function BumpOne(infos: seq<BufferInfo>, before: seq<nat>, now: seq<nat>, color: nat, i: nat): (r: seq<nat>)
    requires |before| == |now| == |infos| && i < |infos| && infos[i].alignment > 0
    ensures |r| == |infos|
  {
    if color == 0 then now
    else now[i := AlignTo(MaxEnd(infos, before, now, i, |infos|), infos[i].alignment)]
  }

  /** The placement after the first `k` buffers were finalised. */
  ghost function Bumped(infos: seq<BufferInfo>, offsets: seq<nat>, colors: seq<nat>, k: nat): (r: seq<nat>)
    requires |offsets| == |infos| == |colors| && k <= |infos|
    requires Alignable(infos)
    ensures |r| == |infos|
  {
    if k == 0 then offsets
    else
      BumpOne(infos, offsets, Bumped(infos, offsets, colors, k - 1), colors[k - 1], k - 1)
  }

  lemma BumpStep(infos: seq<BufferInfo>, before: seq<nat>, colors: seq<nat>, now: seq<nat>, next: seq<nat>, i: nat)
    requires |before| == |infos| == |colors| && i < |infos|
    requires Alignable(infos)
    requires now == Bumped(infos, before, colors, i)
    requires next == BumpOne(infos, before, now, colors[i], i)
    ensures next == Bumped(infos, before, colors, i + 1)
    ensures var end := next[i] + infos[i].size;
            Extent(infos, next, i + 1) == if Extent(infos, now, i) < end then end else Extent(infos, now, i)
  {
    assert forall j :: 0 <= j < i ==> next[j] == now[j];
    ExtentOfPrefix(infos, now, next, i);
  }

  /** A buffer moves only in its own turn, and not at all if its colour is 0. */
  lemma {:induction false} BumpedOnce(infos: seq<BufferInfo>, offsets: seq<nat>, colors: seq<nat>, i: nat, k: nat)
    requires |offsets| == |infos| == |colors| && k <= |infos| && i < |infos|
    requires Alignable(infos)
    ensures i < k ==> Bumped(infos, offsets, colors, k)[i] == Bumped(infos, offsets, colors, i + 1)[i]
    ensures k <= i || colors[i] == 0 ==> Bumped(infos, offsets, colors, k)[i] == offsets[i]
    decreases k
  {
    if k > 0 {
      BumpedOnce(infos, offsets, colors, i, k - 1);
    }
  }

  ghost predicate Aligned(infos: seq<BufferInfo>, offsets: seq<nat>) {
    && |offsets| == |infos| && Alignable(infos)
    && forall i :: 0 <= i < |infos| ==> IsMultiple(offsets[i], infos[i].alignment)
  }

  lemma {:induction false} BumpedIsAligned(infos: seq<BufferInfo>, offsets: seq<nat>, colors: seq<nat>, k: nat)
    requires Aligned(infos, offsets) && |colors| == |infos| && k <= |infos|
    ensures Aligned(infos, Bumped(infos, offsets, colors, k))
  {
    if k > 0 {
      BumpedIsAligned(infos, offsets, colors, k - 1);
      var now := Bumped(infos, offsets, colors, k - 1);
      AlignToIsAligned(MaxEnd(infos, offsets, now, k - 1, |infos|), infos[k - 1].alignment);
    }
  }

  // ----- Why bumping ends

  /** The buffers before `i` whose end lies beyond the start of `i`. */
  ghost function Ahead(infos: seq<BufferInfo>, offsets: seq<nat>, i: nat): set<int>
    requires |offsets| == |infos| && i < |infos|
  {
    set j | 0 <= j < i && offsets[i] < offsets[j] + infos[j].size
  }

  lemma {:induction false} CardinalityBelow(s: set<int>, n: nat)
    requires forall j :: j in s ==> 0 <= j < n
    ensures |s| <= n
  {
    if n > 0 {
      CardinalityBelow(s - {n - 1}, n - 1);
    } else {
      assert forall j :: j !in s;
    }
  }

  /** The counts of `Ahead`, read as the digits of a number. */
  ghost function Rank(infos: seq<BufferInfo>, offsets: seq<nat>, n: nat): nat
    requires |offsets| == |infos| && n <= |infos|
  {
    if n == 0 then 0 else Rank(infos, offsets, n - 1) * (|infos| + 1) + |Ahead(infos, offsets, n - 1)|
  }

  lemma {:induction false} RankOfPrefix(infos: seq<BufferInfo>, a: seq<nat>, b: seq<nat>, n: nat)
    requires |a| == |b| == |infos| && n <= |infos|
    requires a[..n] == b[..n]
    ensures Rank(infos, a, n) == Rank(infos, b, n)
  {
    if n > 0 {
      assert a[..n - 1] == a[..n][..n - 1] == b[..n][..n - 1] == b[..n - 1];
      RankOfPrefix(infos, a, b, n - 1);
      assert forall j :: 0 <= j < n ==> a[j] == a[..n][j] == b[..n][j] == b[j];
      assert Ahead(infos, a, n - 1) == Ahead(infos, b, n - 1);
    }
  }

  lemma LowDigitsLose(low: nat, high: nat, base: nat, digit: nat)
    requires low < high && digit < base
    ensures low * base + digit < high * base
  {
    assert (low + 1) * base <= high * base;
  }

  /** The first digit that differs decides. */
  lemma {:induction false} RankFalls(infos: seq<BufferInfo>, a: seq<nat>, b: seq<nat>, k: nat, n: nat)
    requires |a| == |b| == |infos| && k < n <= |infos|
    requires b[..k] == a[..k] && |Ahead(infos, b, k)| < |Ahead(infos, a, k)|
    ensures Rank(infos, b, n) < Rank(infos, a, n)
    decreases n
  {
    if n == k + 1 {
      RankOfPrefix(infos, a, b, k);
    } else {
      RankFalls(infos, a, b, k, n - 1);
      CardinalityBelow(Ahead(infos, b, n - 1), |infos|);
      LowDigitsLose(Rank(infos, b, n - 1), Rank(infos, a, n - 1), |infos| + 1, |Ahead(infos, b, n - 1)|);
    }
  }

  /** If anything interferes, the first buffer that moves rises past one before it, and nothing before it moves. */
  lemma FirstMover(infos: seq<BufferInfo>, offsets: seq<nat>, colors: seq<nat>) returns (k: nat, j: nat)
    requires Coloring(infos, offsets, colors) && AnyInterference(infos, offsets)
    requires Alignable(infos)
    ensures j < k < |infos|
    ensures var bumped := Bumped(infos, offsets, colors, |infos|);
            bumped[..k] == offsets[..k] && offsets[k] < offsets[j] + infos[j].size <= bumped[k]
  {
    var x, y :| 0 <= x < |infos| && 0 <= y < |infos| && Interfere(infos, offsets, x, y);
    ColoringIsProper(infos, offsets, colors, x, y);
    var colored := if colors[x] != 0 then x else y;
    k := 0;
    while colors[k] == 0
      invariant k <= colored && forall i :: 0 <= i < k ==> colors[i] == 0
      decreases colored - k
    {
      k := k + 1;
    }
    assert FirstFit(infos, offsets, colors, k);
    assert Taken(infos, offsets, colors, k, 0);
    j :| EarlierNeighbour(infos, offsets, colors, k, 0, j);
    MoverRises(infos, offsets, colors, k, j);
  }

  lemma MoverRises(infos: seq<BufferInfo>, offsets: seq<nat>, colors: seq<nat>, k: nat, j: nat)
    requires |offsets| == |infos| == |colors| && j < k < |infos|
    requires Alignable(infos)
    requires colors[k] != 0 && forall i :: 0 <= i < k ==> colors[i] == 0
    requires Interfere(infos, offsets, k, j)
    ensures var bumped := Bumped(infos, offsets, colors, |infos|);
            bumped[..k] == offsets[..k] && offsets[k] < offsets[j] + infos[j].size <= bumped[k]
  {
    var now := Bumped(infos, offsets, colors, k);
    UncoloredStay(infos, offsets, colors, k, k);
    UncoloredStay(infos, offsets, colors, k, |infos|);
    BumpedOnce(infos, offsets, colors, k, k);
    BumpedOnce(infos, offsets, colors, k, |infos|);
    assert now[j] == offsets[j];
    MaxEndIsMaxEnd(infos, offsets, now, k, |infos|);
    AlignToIsAligned(MaxEnd(infos, offsets, now, k, |infos|), infos[k].alignment);
    assert Bumped(infos, offsets, colors, k + 1) == BumpOne(infos, offsets, now, colors[k], k);
  }

  /** Buffers of colour 0 in front stay where they are, in every later placement `m`. */
  lemma UncoloredStay(infos: seq<BufferInfo>, offsets: seq<nat>, colors: seq<nat>, k: nat, m: nat)
    requires |offsets| == |infos| == |colors| && k <= m <= |infos| && Alignable(infos)
    requires forall i :: 0 <= i < k ==> colors[i] == 0
    ensures Bumped(infos, offsets, colors, m)[..k] == offsets[..k]
  {
    forall i | 0 <= i < k ensures Bumped(infos, offsets, colors, m)[i] == offsets[i] {
      BumpedOnce(infos, offsets, colors, i, m);
    }
  }

  /** Each round with interference makes the rank fall. */
  lemma BumpingFalls(infos: seq<BufferInfo>, offsets: seq<nat>, colors: seq<nat>)
    requires Coloring(infos, offsets, colors) && AnyInterference(infos, offsets)
    requires Alignable(infos)
    ensures Rank(infos, Bumped(infos, offsets, colors, |infos|), |infos|) < Rank(infos, offsets, |infos|)
  {
    var bumped := Bumped(infos, offsets, colors, |infos|);
    var k, j := FirstMover(infos, offsets, colors);
    assert forall i :: 0 <= i < k ==> bumped[i] == bumped[..k][i] == offsets[..k][i] == offsets[i];
    var before, later := Ahead(infos, offsets, k), Ahead(infos, bumped, k);
    assert later <= before - {j} && j in before;
    SubsetCardinality(later, before - {j});
    RankFalls(infos, offsets, bumped, k, |infos|);
  }

  lemma {:induction false} SubsetCardinality(a: set<int>, b: set<int>)
    requires a <= b
    ensures |a| <= |b|
  {
    assert b == a + (b - a);
  }

  // ----- Greedy starts

  /** An entry of the triple map: from `size` bytes on, memory is free during `range`. */
  datatype Triple = Triple(size: nat, range: Interval)

  /** Adds an entry to the ordered multimap, behind those with the same key. */
  function Insert(tripleMap: seq<Triple>, t: Triple): (r: seq<Triple>)
    ensures forall u :: u in r <==> u == t || u in tripleMap
    ensures BySize(tripleMap) ==> BySize(r)
    ensures r != [] && (r[0] == t || (tripleMap != [] && r[0] == tripleMap[0]))
  {
    if tripleMap == [] || t.size < tripleMap[0].size then [t] + tripleMap
    else [tripleMap[0]] + Insert(tripleMap[1..], t)
  }

  /** The entries come in ascending order of their keys. */
  ghost predicate BySize(tripleMap: seq<Triple>) {
    tripleMap == [] || ((|tripleMap| > 1 ==> tripleMap[0].size <= tripleMap[1].size) && BySize(tripleMap[1..]))
  }

  ghost predicate Covered(triples: seq<Triple>, x: BufferInfo) {
    exists t :: t in triples && t.range.Intersects(x.live)
  }

  /** The buffer overlaps the range of the chosen triple and of no other. */
  predicate Fits(x: BufferInfo, range: Interval, rest: seq<Triple>) {
    x.live.Intersects(range) && forall t :: t in rest ==> !t.range.Intersects(x.live)
  }

  /** In operations: the buffer is live at some operation of the range, and at none of any other triple. */
  lemma FitsMeans(x: BufferInfo, range: Interval, rest: seq<Triple>)
    requires x.Valid() && range.start < range.end && NonEmpty(rest)
    ensures Fits(x, range, rest) <==>
            && (exists t: nat :: IsLive(x, t) && range.Contains(t))
            && forall other, t: nat :: other in rest && IsLive(x, t) ==> !other.range.Contains(t)
  {
    forall r: Interval | r.start < r.end
      ensures x.live.Intersects(r) <==> exists t: nat :: IsLive(x, t) && r.Contains(t) {
      IntersectsIsCommonPoint(x.live, r);
      if t: nat :| x.live.Contains(t) && r.Contains(t) {
        assert IsLive(x, t);
      }
      if t: nat :| IsLive(x, t) && r.Contains(t) {
        assert x.live.Contains(t);
      }
    }
    forall other | other in rest
      ensures other.range.Intersects(x.live) <==> exists t: nat :: IsLive(x, t) && other.range.Contains(t) {
      assert x.live.Intersects(other.range) <==> other.range.Intersects(x.live);
    }
  }

  /** When no buffer fits the triple, dropping it uncovers none. */
  lemma DropKeepsCovered(triple: Triple, rest: seq<Triple>, y: BufferInfo)
    requires Covered([triple] + rest, y) && !Fits(y, triple.range, rest)
    ensures Covered(rest, y)
  {
    if forall t :: t in rest ==> !t.range.Intersects(y.live) {
      assert y.live.Intersects(triple.range);
    }
  }

  /** The entries that replace a triple when a buffer that is live during `live` is put at its bottom. */
  function Split(offset: nat, range: Interval, live: Interval, end: nat): seq<Triple> {
    [Triple(end, Interval(if range.start < live.start then live.start else range.start,
                          if live.end < range.end then live.end else range.end))]
    + (if range.start < live.start then [Triple(offset, Interval(range.start, live.end))] else [])
    + (if live.end < range.end then [Triple(offset, Interval(live.start, range.end))] else [])
  }

  /** The new entries cover every buffer the old one covered, and none of them is empty. */
  lemma SplitKeepsCovered(offset: nat, range: Interval, live: Interval, end: nat, y: BufferInfo)
    requires range.start < range.end && live.start < live.end && live.Intersects(range)
    requires y.live.start < y.live.end && y.live.Intersects(range)
    ensures Covered(Split(offset, range, live, end), y)
    ensures forall t :: t in Split(offset, range, live, end) ==> t.range.start < t.range.end
  {
    var pieces := Split(offset, range, live, end);
    if range.start < live.start && y.live.start < live.end {
      assert pieces[1].range.Intersects(y.live);
    } else if live.end < range.end {
      assert pieces[|pieces| - 1].range.Intersects(y.live);
    } else {
      assert pieces[0].range.Intersects(y.live);
    }
  }

  /** Putting a buffer that overlaps only this triple at its bottom uncovers no other buffer. */
  lemma PlaceKeepsCovered(triple: Triple, rest: seq<Triple>, live: Interval, end: nat, pieces: seq<Triple>,
                          y: BufferInfo)
    requires triple.range.start < triple.range.end && live.start < live.end && live.Intersects(triple.range)
    requires y.live.start < y.live.end && Covered([triple] + rest, y)
    requires forall t :: t in pieces <==> t in rest || t in Split(triple.size, triple.range, live, end)
    ensures Covered(pieces, y)
  {
    if !Covered(rest, y) {
      SplitKeepsCovered(triple.size, triple.range, live, end, y);
      var t :| t in Split(triple.size, triple.range, live, end) && t.range.Intersects(y.live);
      assert t in pieces;
    }
  }

  ghost predicate KeepsCovered(before: seq<Triple>, after: seq<Triple>) {
    forall y: BufferInfo :: y.Valid() && Covered(before, y) ==> Covered(after, y)
  }

  lemma PlaceKeepsAllCovered(triple: Triple, rest: seq<Triple>, live: Interval, end: nat, pieces: seq<Triple>)
    requires triple.range.start < triple.range.end && live.start < live.end && live.Intersects(triple.range)
    requires forall t :: t in pieces <==> t in rest || t in Split(triple.size, triple.range, live, end)
    ensures KeepsCovered([triple] + rest, pieces)
  {
    forall y: BufferInfo | y.Valid() && Covered([triple] + rest, y) ensures Covered(pieces, y) {
      PlaceKeepsCovered(triple, rest, live, end, pieces, y);
    }
  }

  ghost predicate NonEmpty(triples: seq<Triple>) {
    forall t :: t in triples ==> t.range.start < t.range.end
  }

  /** The bottom, or the end of a placed buffer. */
  ghost predicate OnTop(size: nat, infos: seq<BufferInfo>, offsets: seq<nat>, n: nat)
    requires n <= |infos| == |offsets|
  {
    size == 0 || exists j :: 0 <= j < n && size == offsets[j] + infos[j].size
  }

  /** Every buffer starts at the bottom or at the end of one placed before, rounded up to its alignment. */
  ghost predicate Stacked(infos: seq<BufferInfo>, offsets: seq<nat>) {
    && |infos| == |offsets|
    && forall i :: 0 <= i < |infos| ==> StackedAt(infos, offsets, i)
  }

  ghost predicate StackedAt(infos: seq<BufferInfo>, offsets: seq<nat>, i: nat)
    requires i < |infos| == |offsets|
  {
    && infos[i].alignment > 0
    && exists size :: OnTop(size, infos, offsets, i) && offsets[i] == AlignTo(size, infos[i].alignment)
  }

  ghost predicate AllOnTop(tripleMap: seq<Triple>, infos: seq<BufferInfo>, offsets: seq<nat>)
    requires |infos| == |offsets|
  {
    forall t :: t in tripleMap ==> OnTop(t.size, infos, offsets, |infos|)
  }

  lemma OnTopGrows(size: nat, infos: seq<BufferInfo>, offsets: seq<nat>, n: nat, info: BufferInfo, offset: nat)
    requires n <= |infos| == |offsets| && OnTop(size, infos, offsets, n)
    ensures OnTop(size, infos + [info], offsets + [offset], n)
  {
    if size != 0 {
      var j :| 0 <= j < n && size == offsets[j] + infos[j].size;
      assert (offsets + [offset])[j] + (infos + [info])[j].size == size;
    }
  }

  lemma StackedSnoc(triple: Triple, rest: seq<Triple>, infos: seq<BufferInfo>, offsets: seq<nat>, info: BufferInfo,
                    pieces: seq<Triple>)
    requires Stacked(infos, offsets) && AllOnTop([triple] + rest, infos, offsets) && info.alignment > 0
    requires var offset := AlignTo(triple.size, info.alignment);
             forall t :: t in pieces ==> t in rest || t.size == triple.size || t.size == offset + info.size
    ensures var offset := AlignTo(triple.size, info.alignment);
            && Stacked(infos + [info], offsets + [offset])
            && AllOnTop(pieces, infos + [info], offsets + [offset])
  {
    var n, offset := |infos|, AlignTo(triple.size, info.alignment);
    var infos', offsets' := infos + [info], offsets + [offset];
    assert triple in [triple] + rest;
    OnTopGrows(triple.size, infos, offsets, n, info, offset);
    forall i | 0 <= i < n + 1 ensures StackedAt(infos', offsets', i) {
      if i < n {
        assert StackedAt(infos, offsets, i);
        var size :| OnTop(size, infos, offsets, i) && offsets[i] == AlignTo(size, infos[i].alignment);
        OnTopGrows(size, infos, offsets, i, info, offset);
      } else {
        assert OnTop(triple.size, infos', offsets', n);
      }
    }
    forall t | t in pieces ensures OnTop(t.size, infos', offsets', n + 1) {
      if t.size == offset + info.size {
        assert offsets'[n] + infos'[n].size == t.size;
      } else {
        assert t in [triple] + rest || t.size == triple.size;
        OnTopGrows(t.size, infos, offsets, n, info, offset);
      }
    }
  }

  lemma TopAndRest(triple: Triple, rest: seq<Triple>)
    requires BySize([triple] + rest) && NonEmpty([triple] + rest)
    ensures BySize(rest) && NonEmpty(rest) && triple.range.start < triple.range.end
  {
    assert ([triple] + rest)[1..] == rest;
    assert triple in [triple] + rest;
  }

  /** All that placing `info` on the triple keeps. */
  lemma PlacedOnTriple(triple: Triple, rest: seq<Triple>, infos: seq<BufferInfo>, offsets: seq<nat>, info: BufferInfo,
                       pieces: seq<Triple>)
    requires Stacked(infos, offsets) && AllOnTop([triple] + rest, infos, offsets) && info.Valid()
    requires triple.range.start < triple.range.end && info.live.Intersects(triple.range)
    requires var end := AlignTo(triple.size, info.alignment) + info.size;
             forall t :: t in pieces <==> t in rest || t in Split(triple.size, triple.range, info.live, end)
    ensures var offset := AlignTo(triple.size, info.alignment);
            Stacked(infos + [info], offsets + [offset]) && AllOnTop(pieces, infos + [info], offsets + [offset])
    ensures KeepsCovered([triple] + rest, pieces)
  {
    var end := AlignTo(triple.size, info.alignment) + info.size;
    StackedSnoc(triple, rest, infos, offsets, info, pieces);
    PlaceKeepsAllCovered(triple, rest, info.live, end, pieces);
  }
}
