/** The decomposition of a reshape is the only one that is finest and tidy. */
module ReshapeUniqueness {
  import opened ReshapeDecomposition

  /** Where the groups from `k` on start among the source dimensions. */
  ghost function SrcAt(groups: seq<Group>, k: nat): nat
    requires k <= |groups|
  {
    |Sources(groups[..k])|
  }

  ghost function DstAt(groups: seq<Group>, k: nat): nat
    requires k <= |groups|
  {
    |Destinations(groups[..k])|
  }

  lemma Whole(src: seq<int>, dst: seq<int>, groups: seq<Group>)
    requires IsSplit(src, dst, groups)
    ensures SrcAt(groups, 0) == 0 == DstAt(groups, 0)
    ensures SrcAt(groups, |groups|) == |src| && DstAt(groups, |groups|) == |dst|
  {
    assert groups[..|groups|] == groups;
    assert |UpTo(|src|)| == |src| && |UpTo(|dst|)| == |dst|;
  }

  /** Each group is a stretch of the dimensions. */
  lemma Stretch(src: seq<int>, dst: seq<int>, groups: seq<Group>, k: nat)
    requires IsSplit(src, dst, groups) && k < |groups|
    ensures SrcAt(groups, k) <= SrcAt(groups, k + 1) <= |src| && DstAt(groups, k) <= DstAt(groups, k + 1) <= |dst|
    ensures groups[k].src == UpTo(|src|)[SrcAt(groups, k)..SrcAt(groups, k + 1)]
    ensures groups[k].dst == UpTo(|dst|)[DstAt(groups, k)..DstAt(groups, k + 1)]
  {
    SourcesPrefix(groups, k + 1);
    assert groups[..k + 1][..k] == groups[..k];
    assert Sources(groups[..k + 1]) == Sources(groups[..k]) + groups[k].src;
    assert Destinations(groups[..k + 1]) == Destinations(groups[..k]) + groups[k].dst;
  }

  /** Both sides have the same number of elements in front of a cut. */
  lemma SidesAgree(src: seq<int>, dst: seq<int>, groups: seq<Group>, k: nat)
    requires IsSplit(src, dst, groups) && k <= |groups|
    ensures SrcAt(groups, k) <= |src| && DstAt(groups, k) <= |dst|
    ensures Prefix(src, SrcAt(groups, k)) == Prefix(dst, DstAt(groups, k))
  {
    SourcesPrefix(groups, k);
    CutIsCommon(src, dst, groups[..k]);
  }

  lemma {:induction false} CutsAscend(src: seq<int>, dst: seq<int>, groups: seq<Group>, k: nat, m: nat)
    requires IsShape(src) && IsSplit(src, dst, groups) && k <= m <= |groups|
    ensures SrcAt(groups, k) <= SrcAt(groups, m) <= |src|
    ensures Prefix(src, SrcAt(groups, k)) <= Prefix(src, SrcAt(groups, m))
    decreases m
  {
    SidesAgree(src, dst, groups, m);
    if k < m {
      CutsAscend(src, dst, groups, k, m - 1);
      Stretch(src, dst, groups, m - 1);
      PrefixGrows(src, SrcAt(groups, m - 1), SrcAt(groups, m));
    }
  }

  /** Of several groups each has more than one element. */
  lemma GroupsHaveMany(src: seq<int>, dst: seq<int>, groups: seq<Group>, k: nat)
    requires IsShape(src) && IsSplit(src, dst, groups) && IsTidy(src, dst, groups) && k < |groups| && |groups| > 1
    ensures SrcAt(groups, k) <= SrcAt(groups, k + 1) <= |src|
    ensures Prefix(src, SrcAt(groups, k)) < Prefix(src, SrcAt(groups, k + 1))
  {
    Stretch(src, dst, groups, k);
    CutsAscend(src, dst, groups, k, k + 1);
    if k == 0 {
      assert Sources(groups[..1]) == [] + groups[0].src;
      RunAfter(src, [], groups[0].src);
      assert [] + groups[0].src == groups[0].src;
    } else {
      assert IsHeaded(src, dst, groups[k]);
      HeadGrows(src, SrcAt(groups, k), SrcAt(groups, k + 1));
    }
  }

  lemma HeadGrows(shape: seq<int>, n: nat, m: nat)
    requires IsShape(shape) && n < m <= |shape| && shape[n] != 1
    ensures Prefix(shape, n) < Prefix(shape, m)
  {
    PrefixGrows(shape, 0, n);
    Grows(Prefix(shape, n), shape[n]);
    PrefixGrows(shape, n + 1, m);
  }

  /** Behind a cut stands a dimension that is not of size one, or nothing. */
  ghost predicate Stops(shape: seq<int>, n: nat) {
    n == |shape| || (n < |shape| && shape[n] != 1)
  }

  lemma CutStops(src: seq<int>, dst: seq<int>, groups: seq<Group>, k: nat)
    requires IsSplit(src, dst, groups) && IsTidy(src, dst, groups) && 0 < k <= |groups|
    ensures Stops(src, SrcAt(groups, k)) && Stops(dst, DstAt(groups, k))
  {
    Whole(src, dst, groups);
    if k < |groups| {
      Stretch(src, dst, groups, k);
      assert IsHeaded(src, dst, groups[k]);
    }
  }

  lemma SameStop(shape: seq<int>, n: nat, m: nat)
    requires IsShape(shape) && n <= |shape| && m <= |shape| && Stops(shape, n) && Stops(shape, m)
    requires Prefix(shape, n) == Prefix(shape, m)
    ensures n == m
  {
    if n < m {
      HeadGrows(shape, n, m);
    } else if m < n {
      HeadGrows(shape, m, n);
    }
  }

  ghost predicate IsResult(src: seq<int>, dst: seq<int>, groups: seq<Group>) {
    IsFinest(src, dst, groups) && IsTidy(src, dst, groups)
  }

  /** If the cuts agree so far, the next one of `g` is not in front of the next one of `h`. */
  lemma NotBefore(src: seq<int>, dst: seq<int>, g: seq<Group>, h: seq<Group>, k: nat)
    requires IsShape(src) && IsResult(src, dst, g) && IsResult(src, dst, h) && k < |g| && k < |h|
    requires SrcAt(g, k) == SrcAt(h, k)
    ensures SrcAt(g, k + 1) <= |src| && SrcAt(h, k + 1) <= |src|
    ensures Prefix(src, SrcAt(h, k + 1)) <= Prefix(src, SrcAt(g, k + 1))
  {
    CutsAscend(src, dst, g, k, k + 1);
    CutsAscend(src, dst, h, k, k + 1);
    var c := Prefix(src, SrcAt(g, k + 1));
    if c < Prefix(src, SrcAt(h, k + 1)) {
      SidesAgree(src, dst, g, k + 1);
      assert IsCommon(src, dst, c);
      assert IsCut(src, h, c);
      var m :| 0 <= m <= |h| && |Sources(h[..m])| <= |src| && Cut(src, h, m) == c;
      if k < m {
        CutsAscend(src, dst, h, k + 1, m);
      } else {
        CutsAscend(src, dst, h, m, k);
        OnlyGroup(src, dst, g, h, k);
      }
    }
  }

  /** A group of one element is the only one, and then there is only one element. */
  lemma OnlyGroup(src: seq<int>, dst: seq<int>, g: seq<Group>, h: seq<Group>, k: nat)
    requires IsShape(src) && IsResult(src, dst, g) && IsResult(src, dst, h) && k < |g| && k < |h|
    requires SrcAt(g, k) <= |src| && SrcAt(g, k + 1) <= |src| && SrcAt(h, k + 1) <= |src|
    requires Prefix(src, SrcAt(g, k + 1)) <= Prefix(src, SrcAt(g, k))
    ensures Prefix(src, SrcAt(h, k + 1)) <= Prefix(src, SrcAt(g, k + 1))
  {
    if |g| > 1 {
      GroupsHaveMany(src, dst, g, k);
    } else {
      Whole(src, dst, g);
      PrefixGrows(src, SrcAt(h, k + 1), |src|);
    }
  }

  /** The cuts agree, one by one. */
  lemma {:induction false} CutsAgree(src: seq<int>, dst: seq<int>, g: seq<Group>, h: seq<Group>, k: nat)
    requires IsShape(src) && IsShape(dst) && IsResult(src, dst, g) && IsResult(src, dst, h) && k <= |g|
    ensures k <= |h| && SrcAt(g, k) == SrcAt(h, k) && DstAt(g, k) == DstAt(h, k)
  {
    Whole(src, dst, g);
    Whole(src, dst, h);
    if k > 0 {
      CutsAgree(src, dst, g, h, k - 1);
      NotYetEnded(src, dst, g, h, k - 1);
      NotBefore(src, dst, g, h, k - 1);
      NotBefore(src, dst, h, g, k - 1);
      SidesAgree(src, dst, g, k);
      SidesAgree(src, dst, h, k);
      CutStops(src, dst, g, k);
      CutStops(src, dst, h, k);
      SameStop(src, SrcAt(g, k), SrcAt(h, k));
      SameStop(dst, DstAt(g, k), DstAt(h, k));
    }
  }

  lemma NotYetEnded(src: seq<int>, dst: seq<int>, g: seq<Group>, h: seq<Group>, k: nat)
    requires IsShape(src) && IsResult(src, dst, g) && IsResult(src, dst, h) && k < |g| && k <= |h|
    requires SrcAt(g, k) == SrcAt(h, k)
    ensures k < |h|
  {
    if k == |h| {
      Whole(src, dst, h);
      Stretch(src, dst, g, k);
      if |g| > 1 {
        GroupsHaveMany(src, dst, g, k);
      }
    }
  }

  /** Whatever computes a finest and tidy split computes this one. */
  lemma ResultIsUnique(src: seq<int>, dst: seq<int>, g: seq<Group>, h: seq<Group>)
    requires IsShape(src) && IsShape(dst) && IsResult(src, dst, g) && IsResult(src, dst, h)
    ensures g == h
  {
    CutsAgree(src, dst, g, h, |g|);
    CutsAgree(src, dst, h, g, |h|);
    forall k | 0 <= k < |g| ensures g[k] == h[k] {
      Stretch(src, dst, g, k);
      Stretch(src, dst, h, k);
      CutsAgree(src, dst, g, h, k);
      CutsAgree(src, dst, g, h, k + 1);
    }
  }
}
