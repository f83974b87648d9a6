/** Splitting a reshape into independent groups of source and destination dimensions. */
module ReshapeDecomposition {
  import opened Arithmetic
  import opened Options

  /** Source dimensions that together become the destination dimensions. */
  datatype Group = Group(src: seq<nat>, dst: seq<nat>)

  ghost predicate IsShape(shape: seq<int>) {
    forall d :: 0 <= d < |shape| ==> 0 < shape[d]
  }

  /** The number of elements in the first `n` dimensions. */
  ghost function Prefix(shape: seq<int>, n: nat): int
    requires n <= |shape|
  {
    if n == 0 then 1 else Prefix(shape, n - 1) * shape[n - 1]
  }

  /** The number of elements in the listed dimensions. */
  ghost function Over(shape: seq<int>, dims: seq<nat>): int
    requires forall k :: 0 <= k < |dims| ==> dims[k] < |shape|
  {
    if dims == [] then 1 else Over(shape, dims[..|dims| - 1]) * shape[dims[|dims| - 1]]
  }

  function UpTo(n: nat): seq<nat> {
    seq(n, i requires 0 <= i < n => i)
  }

  ghost function Sources(groups: seq<Group>): seq<nat> {
    if groups == [] then [] else Sources(groups[..|groups| - 1]) + groups[|groups| - 1].src
  }

  ghost function Destinations(groups: seq<Group>): seq<nat> {
    if groups == [] then [] else Destinations(groups[..|groups| - 1]) + groups[|groups| - 1].dst
  }

  // ----- Prefix products

  lemma Grows(p: int, s: int)
    requires 0 < p && 0 < s
    ensures p <= p * s
    ensures 1 < s ==> p < p * s
  {
    assert p * s == p + p * (s - 1);
    assert p * (s - 1) >= 0;
    if 1 < s {
      assert p * (s - 1) == (s - 1) + (p - 1) * (s - 1);
    }
  }

  lemma {:induction false} PrefixGrows(shape: seq<int>, n: nat, m: nat)
    requires IsShape(shape) && n <= m <= |shape|
    ensures 0 < Prefix(shape, n) <= Prefix(shape, m)
    decreases m
  {
    if n < m {
      PrefixGrows(shape, n, m - 1);
      Grows(Prefix(shape, m - 1), shape[m - 1]);
    } else if 0 < n {
      PrefixGrows(shape, n - 1, n - 1);
      Grows(Prefix(shape, n - 1), shape[n - 1]);
    }
  }

  /** A larger prefix product needs a further dimension. */
  lemma PrefixNext(shape: seq<int>, n: nat, a: nat)
    requires IsShape(shape) && n < |shape| && a <= |shape| && Prefix(shape, n) < Prefix(shape, a)
    ensures Prefix(shape, n + 1) <= Prefix(shape, a)
  {
    if a <= n {
      PrefixGrows(shape, a, n);
    } else {
      PrefixGrows(shape, n + 1, a);
    }
  }

  lemma Compare(g: int, m: int, n: int)
    requires 0 < g
    ensures m < n <==> g * m < g * n
    ensures m == n <==> g * m == g * n
  {
    if m < n {
      Grows(g, n - m);
      assert g * n == g * m + g * (n - m);
    } else if n < m {
      Grows(g, m - n);
      assert g * m == g * n + g * (m - n);
    }
  }

  // ----- The two cursors

  /** The number of elements in front of the cut after `k` groups. */
  ghost function Cut(src: seq<int>, groups: seq<Group>, k: nat): int
    requires k <= |groups| && |Sources(groups[..k])| <= |src|
  {
    Prefix(src, |Sources(groups[..k])|)
  }

  ghost predicate IsCut(src: seq<int>, groups: seq<Group>, c: int) {
    exists k :: 0 <= k <= |groups| && |Sources(groups[..k])| <= |src| && Cut(src, groups, k) == c
  }

  /** Some prefix of the source has as many elements, `c`, as some prefix of the destination. */
  ghost predicate IsCommon(src: seq<int>, dst: seq<int>, c: int) {
    exists a, b :: 0 <= a <= |src| && 0 <= b <= |dst| && Prefix(src, a) == c == Prefix(dst, b)
  }

  ghost predicate InRange(shape: seq<int>, dims: seq<nat>) {
    forall k :: 0 <= k < |dims| ==> dims[k] < |shape|
  }

  ghost predicate Balanced(src: seq<int>, dst: seq<int>, group: Group) {
    InRange(src, group.src) && InRange(dst, group.dst) && Over(src, group.src) == Over(dst, group.dst)
  }

  /** The closed groups, the open group and the cursors. */
  ghost predicate Side(shape: seq<int>, closed: seq<nat>, open: seq<nat>, idx: nat, n: int, g: int) {
    && idx <= |shape| && closed + open == UpTo(idx) && InRange(shape, open)
    && n == Over(shape, open) && g == Prefix(shape, |closed|) && Prefix(shape, idx) == g * n
  }

  lemma SideTakes(shape: seq<int>, closed: seq<nat>, open: seq<nat>, idx: nat, n: int, g: int)
    requires Side(shape, closed, open, idx, n, g) && idx < |shape|
    ensures Side(shape, closed, open + [idx], idx + 1, n * shape[idx], g)
  {
    assert (open + [idx])[..|open|] == open;
    assert closed + (open + [idx]) == closed + open + [idx] == UpTo(idx + 1);
    Scale(g, n, shape[idx]);
  }

  lemma SideCloses(shape: seq<int>, closed: seq<nat>, open: seq<nat>, idx: nat, n: int, g: int)
    requires Side(shape, closed, open, idx, n, g)
    ensures Side(shape, closed + open, [], idx, 1, g * n)
  {
    assert |closed + open| == |UpTo(idx)|;
    assert closed + open + [] == closed + open;
  }

  /** No common prefix product lies inside the open group. */
  ghost predicate Fine(src: seq<int>, dst: seq<int>, closed: seq<Group>, reached: int) {
    forall c :: IsCommon(src, dst, c) ==> IsCut(src, closed, c) || c >= reached
  }

  ghost predicate Walked(src: seq<int>, dst: seq<int>, closed: seq<Group>, open: Group, srcIdx: nat, dstIdx: nat,
                         srcN: int, dstN: int, g: int) {
    && Side(src, Sources(closed), open.src, srcIdx, srcN, g)
    && Side(dst, Destinations(closed), open.dst, dstIdx, dstN, g)
    && (forall k :: 0 <= k < |closed| ==> Balanced(src, dst, closed[k]))
    && 0 < g && 0 < srcN && 0 < dstN
    && Fine(src, dst, closed, g * srcN) && Fine(src, dst, closed, g * dstN)
    && IsCut(src, closed, g)
  }

  /** A cursor that is not past the other one, or that passes a dimension of size one, passes no common product. */
  lemma FineTakes(src: seq<int>, dst: seq<int>, closed: seq<Group>, shape: seq<int>, idx: nat, now: int, next: int)
    requires IsShape(shape) && (shape == src || shape == dst) && idx < |shape|
    requires now == Prefix(shape, idx) && next == Prefix(shape, idx + 1)
    requires IsCut(src, closed, now) || (exists other :: now < other && Fine(src, dst, closed, other)) || now == next
    requires Fine(src, dst, closed, now)
    ensures Fine(src, dst, closed, next)
  {
    forall c | IsCommon(src, dst, c) && !IsCut(src, closed, c) ensures c >= next {
      var a :| 0 <= a <= |shape| && Prefix(shape, a) == c;
      if c > now {
        PrefixNext(shape, idx, a);
      }
    }
  }

  lemma TakesSrc(src: seq<int>, dst: seq<int>, closed: seq<Group>, open: Group, srcIdx: nat, dstIdx: nat,
                 srcN: int, dstN: int, g: int)
    requires IsShape(src) && Walked(src, dst, closed, open, srcIdx, dstIdx, srcN, dstN, g) && srcIdx < |src|
    requires srcN < dstN || srcN == 1 || src[srcIdx] == 1
    ensures Walked(src, dst, closed, open.(src := open.src + [srcIdx]), srcIdx + 1, dstIdx, srcN * src[srcIdx], dstN, g)
  {
    SideTakes(src, Sources(closed), open.src, srcIdx, srcN, g);
    Compare(g, srcN, dstN);
    Grows(srcN, src[srcIdx]);
    FineTakes(src, dst, closed, src, srcIdx, g * srcN, Prefix(src, srcIdx + 1));
  }

  lemma TakesDst(src: seq<int>, dst: seq<int>, closed: seq<Group>, open: Group, srcIdx: nat, dstIdx: nat,
                 srcN: int, dstN: int, g: int)
    requires IsShape(dst) && Walked(src, dst, closed, open, srcIdx, dstIdx, srcN, dstN, g) && dstIdx < |dst|
    requires dstN < srcN || dst[dstIdx] == 1
    ensures Walked(src, dst, closed, open.(dst := open.dst + [dstIdx]), srcIdx, dstIdx + 1, srcN, dstN * dst[dstIdx], g)
  {
    SideTakes(dst, Destinations(closed), open.dst, dstIdx, dstN, g);
    Compare(g, dstN, srcN);
    Grows(dstN, dst[dstIdx]);
    FineTakes(src, dst, closed, dst, dstIdx, g * dstN, Prefix(dst, dstIdx + 1));
  }

  lemma CutsStay(src: seq<int>, closed: seq<Group>, open: Group, c: int)
    requires IsCut(src, closed, c)
    ensures IsCut(src, closed + [open], c)
  {
    var k :| 0 <= k <= |closed| && |Sources(closed[..k])| <= |src| && Cut(src, closed, k) == c;
    assert (closed + [open])[..k] == closed[..k];
    assert Cut(src, closed + [open], k) == c;
  }

  lemma Closes(src: seq<int>, dst: seq<int>, closed: seq<Group>, open: Group, srcIdx: nat, dstIdx: nat, n: int, g: int)
    requires Walked(src, dst, closed, open, srcIdx, dstIdx, n, n, g)
    ensures Walked(src, dst, closed + [open], Group([], []), srcIdx, dstIdx, 1, 1, g * n)
  {
    var more := closed + [open];
    assert more[..|closed|] == closed;
    SideCloses(src, Sources(closed), open.src, srcIdx, n, g);
    SideCloses(dst, Destinations(closed), open.dst, dstIdx, n, g);
    Grows(g, n);
    forall c | IsCommon(src, dst, c) ensures IsCut(src, more, c) || c >= g * n {
      if IsCut(src, closed, c) {
        CutsStay(src, closed, open, c);
      }
    }
    assert more[..|more|] == more && Cut(src, more, |more|) == g * n;
  }

  /** A cursor that is behind, or level with one that will still grow, is not at the end. */
  lemma NotAtEnd(shape: seq<int>, other: seq<int>, idx: nat, otherIdx: nat, n: int, m: int, g: int)
    requires IsShape(shape) && IsShape(other) && Prefix(shape, |shape|) == Prefix(other, |other|)
    requires idx <= |shape| && otherIdx <= |other| && 0 < g && Prefix(shape, idx) == g * n
    requires Prefix(other, otherIdx) == g * m
    requires n < m || (n == m && otherIdx < |other| && other[otherIdx] != 1)
    ensures idx < |shape|
  {
    Compare(g, n, m);
    PrefixGrows(other, otherIdx, |other|);
    if n == m {
      Grows(Prefix(other, otherIdx), other[otherIdx]);
      PrefixGrows(other, otherIdx + 1, |other|);
    }
  }

  /** The assertions of the loop hold. */
  lemma CursorsMove(src: seq<int>, dst: seq<int>, closed: seq<Group>, open: Group, srcIdx: nat, dstIdx: nat,
                     srcN: int, dstN: int, g: int)
    requires IsShape(src) && IsShape(dst) && Prefix(src, |src|) == Prefix(dst, |dst|)
    requires Walked(src, dst, closed, open, srcIdx, dstIdx, srcN, dstN, g)
    ensures srcN < dstN ==> srcIdx < |src|
    ensures dstN < srcN ==> dstIdx < |dst|
    ensures srcN == dstN && dstIdx < |dst| && dst[dstIdx] != 1 ==> srcIdx < |src|
  {
    if dstN < srcN {
      NotAtEnd(dst, src, dstIdx, srcIdx, dstN, srcN, g);
    } else if srcN < dstN || (dstIdx < |dst| && dst[dstIdx] != 1) {
      NotAtEnd(src, dst, srcIdx, dstIdx, srcN, dstN, g);
    }
  }

  /** The source cursor is to move on. */
  predicate MovesSrc(src: seq<int>, srcIdx: nat, srcN: int, dstN: int) {
    srcN < dstN || (srcIdx < |src| && (srcN == 1 || src[srcIdx] == 1))
  }

  predicate MovesDst(dst: seq<int>, dstIdx: nat, srcN: int, dstN: int) {
    dstN < srcN || (dstIdx < |dst| && dst[dstIdx] == 1)
  }

  /** One turn of the loop, whichever way it goes. */
  lemma WalksOn(src: seq<int>, dst: seq<int>, closed: seq<Group>, open: Group, srcIdx: nat, dstIdx: nat, srcN: int,
                dstN: int, g: int)
    requires IsShape(src) && IsShape(dst) && Prefix(src, |src|) == Prefix(dst, |dst|)
    requires Walked(src, dst, closed, open, srcIdx, dstIdx, srcN, dstN, g) && (srcIdx < |src| || dstIdx < |dst|)
    ensures srcIdx <= |src| && dstIdx <= |dst|
    ensures MovesSrc(src, srcIdx, srcN, dstN) ==>
      && srcIdx < |src|
      && Walked(src, dst, closed, open.(src := open.src + [srcIdx]), srcIdx + 1, dstIdx, srcN * src[srcIdx], dstN, g)
    ensures !MovesSrc(src, srcIdx, srcN, dstN) && MovesDst(dst, dstIdx, srcN, dstN) ==>
      && dstIdx < |dst|
      && Walked(src, dst, closed, open.(dst := open.dst + [dstIdx]), srcIdx, dstIdx + 1, srcN, dstN * dst[dstIdx], g)
    ensures !MovesSrc(src, srcIdx, srcN, dstN) && !MovesDst(dst, dstIdx, srcN, dstN) ==>
      && srcN == dstN != 1
      && Walked(src, dst, closed + [open], Group([], []), srcIdx, dstIdx, 1, 1, g * srcN)
  {
    CursorsMove(src, dst, closed, open, srcIdx, dstIdx, srcN, dstN, g);
    if MovesSrc(src, srcIdx, srcN, dstN) {
      TakesSrc(src, dst, closed, open, srcIdx, dstIdx, srcN, dstN, g);
    } else if MovesDst(dst, dstIdx, srcN, dstN) {
      TakesDst(src, dst, closed, open, srcIdx, dstIdx, srcN, dstN, g);
    } else {
      Closes(src, dst, closed, open, srcIdx, dstIdx, srcN, g);
    }
  }

  /** The groups cover the dimensions of both sides in order and are balanced, and no finer split would be. */
  ghost predicate IsFinest(src: seq<int>, dst: seq<int>, groups: seq<Group>) {
    && IsSplit(src, dst, groups)
    && forall c :: IsCommon(src, dst, c) ==> IsCut(src, groups, c)
  }

  ghost predicate IsSplit(src: seq<int>, dst: seq<int>, groups: seq<Group>) {
    && Sources(groups) == UpTo(|src|) && Destinations(groups) == UpTo(|dst|)
    && forall k :: 0 <= k < |groups| ==> Balanced(src, dst, groups[k])
  }

  lemma WalkedToEnd(src: seq<int>, dst: seq<int>, closed: seq<Group>, open: Group, srcN: int, dstN: int, g: int)
    requires IsShape(src) && Prefix(src, |src|) == Prefix(dst, |dst|)
    requires Walked(src, dst, closed, open, |src|, |dst|, srcN, dstN, g)
    ensures IsFinest(src, dst, closed + [open])
  {
    Compare(g, srcN, dstN);
    Closes(src, dst, closed, open, |src|, |dst|, srcN, g);
    forall c | IsCommon(src, dst, c) ensures IsCut(src, closed + [open], c) {
      var a :| 0 <= a <= |src| && Prefix(src, a) == c;
      PrefixGrows(src, a, |src|);
    }
    assert forall groups ::
      Sources(groups) + [] == Sources(groups) && Destinations(groups) + [] == Destinations(groups);
  }

  lemma WalkStarts(src: seq<int>, dst: seq<int>)
    requires IsShape(src) && IsShape(dst)
    ensures Walked(src, dst, [], Group([], []), 0, 0, 1, 1, 1)
    ensures src == [] == dst ==> IsFinest(src, dst, [])
  {
    var none: seq<Group> := [];
    assert none[..0] == none && Cut(src, none, 0) == 1;
    forall c | IsCommon(src, dst, c) ensures c >= 1 && (src == [] ==> c == 1) {
      var a :| 0 <= a <= |src| && Prefix(src, a) == c;
      PrefixGrows(src, 0, a);
    }
  }

  // ----- Where dimensions of size one go

  /** The group has dimensions on both sides, and they do not start with one of size one. */
  ghost predicate IsHeaded(src: seq<int>, dst: seq<int>, group: Group) {
    && group.src != [] && group.src[0] < |src| && src[group.src[0]] != 1
    && group.dst != [] && group.dst[0] < |dst| && dst[group.dst[0]] != 1
  }

  /** No group is empty. Dimensions of size one belong to the group before them, and those in front to the first group,
      which has more than one element if there is another. */
  ghost predicate IsTidy(src: seq<int>, dst: seq<int>, groups: seq<Group>) {
    && groups != [] && groups[0].src != []
    && (|groups| > 1 ==> HasMany(src, groups[0]))
    && forall k :: 1 <= k < |groups| ==> IsHeaded(src, dst, groups[k])
  }

  ghost predicate HasMany(src: seq<int>, group: Group) {
    InRange(src, group.src) && Over(src, group.src) != 1
  }

  /** One side of the open group: it is headed already, or will be by the next dimension. */
  ghost predicate WillBeHeaded(shape: seq<int>, open: seq<nat>, idx: nat) {
    if open == [] then idx < |shape| && shape[idx] != 1 else open[0] < |shape| && shape[open[0]] != 1
  }

  /** The closed groups, and the open one unless it is the first. */
  ghost predicate Tidying(src: seq<int>, dst: seq<int>, closed: seq<Group>, open: Group, srcIdx: nat, dstIdx: nat) {
    || closed == []
    || (IsTidy(src, dst, closed) && HasMany(src, closed[0])
        && WillBeHeaded(src, open.src, srcIdx) && WillBeHeaded(dst, open.dst, dstIdx))
  }

  lemma HeadStays(shape: seq<int>, open: seq<nat>, idx: nat)
    requires WillBeHeaded(shape, open, idx) && idx < |shape|
    ensures WillBeHeaded(shape, open + [idx], idx + 1)
  {
  }

  /** A group that is closed has elements on both sides, and the next one starts with dimensions that are not of size
      one. */
  lemma TidyCloses(src: seq<int>, dst: seq<int>, closed: seq<Group>, open: Group, srcIdx: nat, dstIdx: nat, n: int,
                   g: int)
    requires IsShape(src) && IsShape(dst) && Prefix(src, |src|) == Prefix(dst, |dst|)
    requires Walked(src, dst, closed, open, srcIdx, dstIdx, n, n, g) && (srcIdx < |src| || dstIdx < |dst|) && n != 1
    requires Tidying(src, dst, closed, open, srcIdx, dstIdx)
    requires !MovesSrc(src, srcIdx, n, n) && !MovesDst(dst, dstIdx, n, n)
    ensures Tidying(src, dst, closed + [open], Group([], []), srcIdx, dstIdx)
  {
    if dstIdx < |dst| {
      NotAtEnd(src, dst, srcIdx, dstIdx, n, n, g);
    }
    NotAtEnd(dst, src, dstIdx, srcIdx, n, n, g);
    assert open.src != [] && open.dst != [];
  }

  /** One turn of the loop keeps the groups tidy. */
  lemma TidyOn(src: seq<int>, dst: seq<int>, closed: seq<Group>, open: Group, srcIdx: nat, dstIdx: nat, srcN: int,
               dstN: int, g: int)
    requires IsShape(src) && IsShape(dst) && Prefix(src, |src|) == Prefix(dst, |dst|)
    requires Walked(src, dst, closed, open, srcIdx, dstIdx, srcN, dstN, g) && (srcIdx < |src| || dstIdx < |dst|)
    requires Tidying(src, dst, closed, open, srcIdx, dstIdx)
    ensures MovesSrc(src, srcIdx, srcN, dstN) ==>
      Tidying(src, dst, closed, open.(src := open.src + [srcIdx]), srcIdx + 1, dstIdx)
    ensures !MovesSrc(src, srcIdx, srcN, dstN) && MovesDst(dst, dstIdx, srcN, dstN) ==>
      Tidying(src, dst, closed, open.(dst := open.dst + [dstIdx]), srcIdx, dstIdx + 1)
    ensures !MovesSrc(src, srcIdx, srcN, dstN) && !MovesDst(dst, dstIdx, srcN, dstN) ==>
      Tidying(src, dst, closed + [open], Group([], []), srcIdx, dstIdx)
  {
    WalksOn(src, dst, closed, open, srcIdx, dstIdx, srcN, dstN, g);
    if closed != [] && MovesSrc(src, srcIdx, srcN, dstN) {
      HeadStays(src, open.src, srcIdx);
    } else if closed != [] && MovesDst(dst, dstIdx, srcN, dstN) {
      HeadStays(dst, open.dst, dstIdx);
    } else if !MovesSrc(src, srcIdx, srcN, dstN) && !MovesDst(dst, dstIdx, srcN, dstN) {
      TidyCloses(src, dst, closed, open, srcIdx, dstIdx, srcN, g);
    }
  }

  lemma TidyToEnd(src: seq<int>, dst: seq<int>, closed: seq<Group>, open: Group, srcN: int, dstN: int, g: int)
    requires src != [] && Walked(src, dst, closed, open, |src|, |dst|, srcN, dstN, g)
    requires Tidying(src, dst, closed, open, |src|, |dst|)
    ensures IsTidy(src, dst, closed + [open])
  {
    if closed == [] {
      assert [] + open.src == UpTo(|src|);
    }
  }

  ghost predicate Walking(src: seq<int>, dst: seq<int>, closed: seq<Group>, open: Group, srcIdx: nat, dstIdx: nat,
                          srcN: int, dstN: int, g: int) {
    && Walked(src, dst, closed, open, srcIdx, dstIdx, srcN, dstN, g)
    && Tidying(src, dst, closed, open, srcIdx, dstIdx)
  }

  /** One turn of the loop: the source cursor moves, or the destination cursor, or the group is closed. */
  method Turn(src: seq<int>, dst: seq<int>, ret0: seq<Group>, open0: Group, srcIdx0: nat, dstIdx0: nat, srcNElems0: int,
              dstNElems0: int, ghost g0: int)
    returns (ret: seq<Group>, open: Group, srcIdx: nat, dstIdx: nat, srcNElems: int, dstNElems: int, ghost g: int)
    requires IsShape(src) && IsShape(dst) && Prefix(src, |src|) == Prefix(dst, |dst|)
    requires Walking(src, dst, ret0, open0, srcIdx0, dstIdx0, srcNElems0, dstNElems0, g0)
    requires srcIdx0 < |src| || dstIdx0 < |dst|
    ensures Walking(src, dst, ret, open, srcIdx, dstIdx, srcNElems, dstNElems, g)
    ensures srcIdx0 <= srcIdx <= |src| && dstIdx0 <= dstIdx <= |dst|
    ensures srcIdx + dstIdx == srcIdx0 + dstIdx0 ==> srcNElems0 != 1 && srcNElems == 1
  {
    WalksOn(src, dst, ret0, open0, srcIdx0, dstIdx0, srcNElems0, dstNElems0, g0);
    TidyOn(src, dst, ret0, open0, srcIdx0, dstIdx0, srcNElems0, dstNElems0, g0);
    ret, open, srcIdx, dstIdx, srcNElems, dstNElems, g := ret0, open0, srcIdx0, dstIdx0, srcNElems0, dstNElems0, g0;
    if MovesSrc(src, srcIdx, srcNElems, dstNElems) {
      srcNElems := srcNElems * src[srcIdx];
      open := open.(src := open.src + [srcIdx]);
      srcIdx := srcIdx + 1;
      assert Walked(src, dst, ret, open, srcIdx, dstIdx, srcNElems, dstNElems, g);
    } else if MovesDst(dst, dstIdx, srcNElems, dstNElems) {
      dstNElems := dstNElems * dst[dstIdx];
      open := open.(dst := open.dst + [dstIdx]);
      dstIdx := dstIdx + 1;
      assert Walked(src, dst, ret, open, srcIdx, dstIdx, srcNElems, dstNElems, g);
    } else {
      g := g * srcNElems;
      ret, open := ret + [open], Group([], []);
      srcNElems, dstNElems := 1, 1;
      assert Walked(src, dst, ret, open, srcIdx, dstIdx, srcNElems, dstNElems, g);
    }
  }

  /** Walks both shapes with two cursors. Nothing is returned where the code asserts; that is only for a source without
      dimensions and a destination with some. */
  method GetReshapeDecomposition(srcShape: seq<int>, dstShape: seq<int>) returns (r: Option<seq<Group>>)
    requires IsShape(srcShape) && IsShape(dstShape) && Prefix(srcShape, |srcShape|) == Prefix(dstShape, |dstShape|)
    ensures r.None? <==> srcShape == [] && dstShape != []
    ensures r.Some? ==> IsFinest(srcShape, dstShape, r.value)
    ensures srcShape == [] == dstShape ==> r == Some([])
    ensures r.Some? && srcShape != [] ==> IsTidy(srcShape, dstShape, r.value)
  {
    WalkStarts(srcShape, dstShape);
    if srcShape == [] {
      return if dstShape == [] then Some([]) else None;
    }
    var ret, open := [], Group([], []);
    var srcIdx, dstIdx, srcNElems, dstNElems := 0, 0, 1, 1;
    ghost var g := 1;
    while srcIdx < |srcShape| || dstIdx < |dstShape|
      invariant srcIdx <= |srcShape| && dstIdx <= |dstShape|
      invariant Walking(srcShape, dstShape, ret, open, srcIdx, dstIdx, srcNElems, dstNElems, g)
      decreases |srcShape| - srcIdx + |dstShape| - dstIdx, if srcNElems == 1 then 0 else 1
    {
      ret, open, srcIdx, dstIdx, srcNElems, dstNElems, g :=
        Turn(srcShape, dstShape, ret, open, srcIdx, dstIdx, srcNElems, dstNElems, g);
    }
    TidyToEnd(srcShape, dstShape, ret, open, srcNElems, dstNElems, g);
    WalkedToEnd(srcShape, dstShape, ret, open, srcNElems, dstNElems, g);
    r := Some(ret + [open]);
  }

  // ----- Why that is the finest split

  lemma {:induction false} OverRun(shape: seq<int>, open: seq<nat>, n: nat)
    requires n + |open| <= |shape| && forall k :: 0 <= k < |open| ==> open[k] == n + k
    ensures Prefix(shape, n) * Over(shape, open) == Prefix(shape, n + |open|)
  {
    if open != [] {
      OverRun(shape, open[..|open| - 1], n);
      Scale(Prefix(shape, n), Over(shape, open[..|open| - 1]), shape[n + |open| - 1]);
    }
  }

  lemma RunAfter(shape: seq<int>, before: seq<nat>, open: seq<nat>)
    requires before + open <= UpTo(|shape|)
    ensures InRange(shape, open) && Prefix(shape, |before|) * Over(shape, open) == Prefix(shape, |before + open|)
  {
    forall k | 0 <= k < |open| ensures open[k] == |before| + k {
      assert (before + open)[|before| + k] == UpTo(|shape|)[|before| + k];
    }
    OverRun(shape, open, |before|);
  }

  lemma {:induction false} CutIsCommon(src: seq<int>, dst: seq<int>, other: seq<Group>)
    requires Sources(other) <= UpTo(|src|) && Destinations(other) <= UpTo(|dst|)
    requires forall k :: 0 <= k < |other| ==> Balanced(src, dst, other[k])
    ensures Prefix(src, |Sources(other)|) == Prefix(dst, |Destinations(other)|)
  {
    if other != [] {
      var init, last := other[..|other| - 1], other[|other| - 1];
      CutIsCommon(src, dst, init);
      RunAfter(src, Sources(init), last.src);
      RunAfter(dst, Destinations(init), last.dst);
    }
  }

  lemma {:induction false} SourcesPrefix(other: seq<Group>, k: nat)
    requires k <= |other|
    ensures Sources(other[..k]) <= Sources(other) && Destinations(other[..k]) <= Destinations(other)
    decreases |other| - k
  {
    if k < |other| {
      SourcesPrefix(other, k + 1);
      assert other[..k + 1][..k] == other[..k];
    } else {
      assert other[..k] == other;
    }
  }

  /** Wherever any balanced split of the reshape cuts, this one cuts too. */
  lemma FinestCutsEverywhere(src: seq<int>, dst: seq<int>, groups: seq<Group>, other: seq<Group>, k: nat)
    requires IsFinest(src, dst, groups) && IsSplit(src, dst, other) && k <= |other|
    ensures |Sources(other[..k])| <= |src| && IsCut(src, groups, Cut(src, other, k))
  {
    SourcesPrefix(other, k);
    CutIsCommon(src, dst, other[..k]);
    assert IsCommon(src, dst, Prefix(src, |Sources(other[..k])|));
  }
}
