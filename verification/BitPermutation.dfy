/** The permutation of bits that turns one list of bases into another, from a skeleton without the zero columns. */
module BitPermutation {
  import opened F2
  import opened LeastSquares
  import opened CycleWalk

  /** A permutation matrix with zero columns inserted. */
  ghost predicate Subpermutation<K(!new)>(s: seq<set<K>>) {
    && (forall i :: 0 <= i < |s| ==> s[i] == {} || exists k :: s[i] == {k})
    && (forall i, j :: 0 <= i < j < |s| && s[i] != {} ==> s[i] != s[j])
  }

  /** The layouts cover the same elements: their nonzero bases are the same. */
  ghost predicate SameImage<K(!new)>(s: seq<set<K>>, t: seq<set<K>>) {
    forall v :: v != {} ==> (v in s <==> v in t)
  }

  // ----- The skeleton: least squares with unit columns

  lemma {:induction false} UnitApply<K(!new)>(t: seq<set<K>>, x: set<nat>, k: K)
    requires Subpermutation(t)
    ensures k in F2.Apply(t, x) <==> exists e :: e in x && e < |t| && t[e] == {k}
  {
    if t != [] {
      var n := |t| - 1;
      UnitApply(t[..n], x, k);
      assert forall e :: 0 <= e < n ==> t[..n][e] == t[e];
      if n in x && k in t[n] {
        assert t[n] == {k};
        assert forall e :: 0 <= e < n ==> t[e] != {k};
      }
    }
  }

  lemma UnitSolution<K(!new)>(t: seq<set<K>>, x: set<nat>, v: set<K>)
    requires Subpermutation(t) && F2.Apply(t, x) == v && forall e :: e in x ==> e < |t| && t[e] != {}
    ensures v == {} ==> x == {}
    ensures forall j :: 0 <= j < |t| && t[j] == v != {} ==> x == {j}
  {
    forall e | e in x ensures t[e] != {} && t[e] <= v {
      var k :| t[e] == {k};
      UnitApply(t, x, k);
    }
    forall j | 0 <= j < |t| && t[j] == v != {} ensures x == {j} {
      var k :| t[j] == {k};
      UnitApply(t, x, k);
      forall e | e in x ensures e == j {
        assert t[e] != {} && t[e] <= {k};
      }
    }
  }

  /** Where column `i` of the skeleton points; a column that is zero on both sides may already be a fixed point. */
  ghost predicate SkeletonAt<K>(s: seq<set<K>>, t: seq<set<K>>, x: seq<set<nat>>, i: nat)
    requires |s| == |t| == |x| && i < |s|
  {
    if s[i] == {} then x[i] == {} || (t[i] == {} && x[i] == {i})
    else exists j :: 0 <= j < |t| && t[j] == s[i] && x[i] == {j}
  }

  /** Least squares gives one bit for a column with a basis and none for a zero column. */
  lemma SolutionIsSkeleton<K(!new)>(s: seq<set<K>>, t: seq<set<K>>, x: seq<set<nat>>, i: nat)
    requires Subpermutation(t) && Solves(t, s, x) && i < |s|
    ensures s[i] == {} ==> x[i] == {}
    ensures forall j :: 0 <= j < |t| && t[j] == s[i] != {} ==> x[i] == {j}
  {
    forall e | e in x[i] ensures e < |t| && t[e] != {} {
      SpanOfZero(t[..e]);
    }
    UnitSolution(t, x[i], s[i]);
  }

  // ----- As many zero columns on one side as on the other

  function Zeros<K>(s: seq<set<K>>): nat {
    if s == [] then 0 else Zeros(s[..|s| - 1]) + if s[|s| - 1] == {} then 1 else 0
  }

  ghost function Nonzero<K(!new)>(s: seq<set<K>>): set<set<K>> {
    set v | v in s && v != {}
  }

  lemma {:induction false} NonzeroCount<K(!new)>(s: seq<set<K>>)
    requires Subpermutation(s)
    ensures |Nonzero(s)| + Zeros(s) == |s|
  {
    if s != [] {
      var n := |s| - 1;
      NonzeroCount(s[..n]);
      assert s == s[..n] + [s[n]];
      if s[n] == {} {
        assert Nonzero(s) == Nonzero(s[..n]);
      } else {
        assert Nonzero(s) == Nonzero(s[..n]) + {s[n]};
        assert s[n] !in s[..n];
      }
    }
  }

  lemma SameZeros<K(!new)>(s: seq<set<K>>, t: seq<set<K>>)
    requires Subpermutation(s) && Subpermutation(t) && SameImage(s, t) && |s| == |t|
    ensures Zeros(s) == Zeros(t)
  {
    NonzeroCount(s);
    NonzeroCount(t);
    assert Nonzero(s) == Nonzero(t);
  }

  // ----- Filling the zero columns

  /** The columns below `n` that are zero in `s` but not in `t`, in order. */
  ghost function Uncommon<K>(s: seq<set<K>>, t: seq<set<K>>, n: nat): seq<nat>
    requires n <= |s| == |t|
  {
    if n == 0 then [] else Uncommon(s, t, n - 1) + if s[n - 1] == {} != t[n - 1] then [n - 1] else []
  }

  ghost predicate Lists<K>(free: seq<nat>, s: seq<set<K>>, t: seq<set<K>>, n: nat)
    requires n <= |s| == |t|
  {
    && (forall k :: 0 <= k < |free| ==> free[k] < n && s[free[k]] == {} != t[free[k]])
    && (forall k, l :: 0 <= k < l < |free| ==> free[k] != free[l])
    && (forall i :: 0 <= i < n && s[i] == {} != t[i] ==> i in free)
  }

  lemma {:induction false} UncommonLists<K>(s: seq<set<K>>, t: seq<set<K>>, n: nat)
    requires n <= |s| == |t|
    ensures Lists(Uncommon(s, t, n), s, t, n)
  {
    if n > 0 {
      UncommonLists(s, t, n - 1);
      ListsSnoc(Uncommon(s, t, n - 1), s, t, n - 1);
    }
  }

  lemma ListsSnoc<K>(free: seq<nat>, s: seq<set<K>>, t: seq<set<K>>, n: nat)
    requires n < |s| == |t| && Lists(free, s, t, n)
    ensures Lists(free + if s[n] == {} != t[n] then [n] else [], s, t, n + 1)
  {
    var more := free + if s[n] == {} != t[n] then [n] else [];
    if s[n] == {} != t[n] {
      assert more[|free|] == n;
      forall k | 0 <= k < |free| ensures more[k] == free[k] < n {
      }
    }
    forall i | 0 <= i < n + 1 && s[i] == {} != t[i] ensures i in more {
      assert i < n ==> i in free;
    }
  }

  /** Column `i` goes to `j`: a column with a basis to the one with the same basis, a common zero to itself, and the
      k-th of the other zeros to the k-th of those on the other side. */
  ghost predicate FilledAt<K>(s: seq<set<K>>, t: seq<set<K>>, srcFree: seq<nat>, dstFree: seq<nat>, i: nat, j: nat)
    requires i < |s| == |t|
  {
    && j < |t|
    && (s[i] != {} ==> t[j] == s[i])
    && (s[i] == {} == t[i] ==> j == i)
    && (s[i] == {} != t[i] ==> exists k :: 0 <= k < |srcFree| && k < |dstFree| && srcFree[k] == i && dstFree[k] == j)
  }

  ghost predicate Fills<K>(s: seq<set<K>>, t: seq<set<K>>, p: seq<nat>) {
    && |p| == |s| == |t|
    && forall i :: 0 <= i < |s| ==> FilledAt(s, t, Uncommon(s, t, |s|), Uncommon(t, s, |s|), i, p[i])
  }

  /** No choice is left, whatever solution the skeleton comes from. */
  lemma FillsIsUnique<K(!new)>(s: seq<set<K>>, t: seq<set<K>>, p: seq<nat>, q: seq<nat>)
    requires Subpermutation(t) && Fills(s, t, p) && Fills(s, t, q)
    ensures p == q
  {
    UncommonLists(s, t, |s|);
    forall i | 0 <= i < |p| ensures p[i] == q[i] {
      FilledUnique(s, t, Uncommon(s, t, |s|), Uncommon(t, s, |s|), i, p[i], q[i]);
    }
  }

  lemma FilledUnique<K(!new)>(s: seq<set<K>>, t: seq<set<K>>, srcFree: seq<nat>, dstFree: seq<nat>, i: nat, j: nat,
                              j': nat)
    requires i < |s| == |t| && Lists(srcFree, s, t, |s|) && Subpermutation(t)
    requires FilledAt(s, t, srcFree, dstFree, i, j) && FilledAt(s, t, srcFree, dstFree, i, j')
    ensures j == j'
  {
  }

  lemma FilledInjective<K(!new)>(s: seq<set<K>>, t: seq<set<K>>, srcFree: seq<nat>, dstFree: seq<nat>, i: nat, i': nat,
                                 j: nat)
    requires |s| == |t| && Lists(dstFree, t, s, |s|) && Subpermutation(s)
    requires i < |s| && i' < |s|
    requires FilledAt(s, t, srcFree, dstFree, i, j) && FilledAt(s, t, srcFree, dstFree, i', j)
    ensures i == i'
  {
    assert s[i] != {} || t[j] == {};
    assert s[i'] != {} || t[j] == {};
  }

  ghost predicate OneBit(x: set<nat>) {
    exists b :: x == {b}
  }

  /** The value of a one-bit vector. */
  method BitOf(x: set<nat>) returns (b: nat)
    requires OneBit(x)
    ensures x == {b}
  {
    b :| b in x;
  }

  /** Sets the coordinate of the basis `x` in the dimension of `bit`, registers below `nReg` or lanes. */
  function SetCoordinate(x: set<nat>, nReg: nat, bit: nat): set<nat> {
    (set e | e in x && (e < nReg) != (bit < nReg)) + {bit}
  }

  ghost predicate Scanned<K>(s: seq<set<K>>, t: seq<set<K>>, x: seq<set<nat>>, bases: seq<set<nat>>,
                             srcFree: seq<nat>, dstFree: seq<nat>, n: nat)
    requires n <= |s| == |t| == |x|
  {
    && |bases| == |x|
    && (forall i :: 0 <= i < |x| ==> bases[i] == if i < n && s[i] == {} == t[i] then {i} else x[i])
    && srcFree == Uncommon(s, t, n) && dstFree == Uncommon(t, s, n)
    && |srcFree| + Zeros(t[..n]) == |dstFree| + Zeros(s[..n])
  }

  lemma ZerosSnoc<K>(s: seq<set<K>>, n: nat)
    requires n < |s|
    ensures Zeros(s[..n + 1]) == Zeros(s[..n]) + if s[n] == {} then 1 else 0
  {
    assert s[..n + 1][..n] == s[..n];
  }

  ghost predicate Skeleton<K>(s: seq<set<K>>, t: seq<set<K>>, x: seq<set<nat>>) {
    |s| == |t| == |x| && forall i :: 0 <= i < |s| ==> SkeletonAt(s, t, x, i)
  }

  lemma ScannedSnoc<K>(s: seq<set<K>>, t: seq<set<K>>, x: seq<set<nat>>, bases: seq<set<nat>>, srcFree: seq<nat>,
                       dstFree: seq<nat>, n: nat)
    requires Skeleton(s, t, x) && n < |s| && Scanned(s, t, x, bases, srcFree, dstFree, n)
    ensures s[n] == {} == t[n] ==> Scanned(s, t, x, bases[n := {n}], srcFree, dstFree, n + 1)
    ensures s[n] == {} != t[n] ==> Scanned(s, t, x, bases, srcFree + [n], dstFree, n + 1)
    ensures t[n] == {} != s[n] ==> Scanned(s, t, x, bases, srcFree, dstFree + [n], n + 1)
    ensures s[n] != {} && t[n] != {} ==> Scanned(s, t, x, bases, srcFree, dstFree, n + 1)
  {
    ZerosSnoc(s, n);
    ZerosSnoc(t, n);
  }

  lemma SetsFixedPoint<K>(s: seq<set<K>>, t: seq<set<K>>, x: seq<set<nat>>, nReg: nat, i: nat)
    requires Skeleton(s, t, x) && i < |s| && s[i] == {} == t[i]
    ensures SetCoordinate(x[i], nReg, i) == {i}
  {
    assert SkeletonAt(s, t, x, i);
  }

  /** Plain least squares on all columns would give a skeleton as well, and then by `FillsIsUnique` the same
      permutation. */
  lemma PlainSkeleton<K(!new)>(s: seq<set<K>>, t: seq<set<K>>, x: seq<set<nat>>)
    requires Subpermutation(t) && SameImage(s, t) && |s| == |t| && Solves(t, s, x)
    ensures Skeleton(s, t, x)
  {
    forall i | 0 <= i < |s| ensures SkeletonAt(s, t, x, i) {
      SolutionIsSkeleton(s, t, x, i);
      if s[i] != {} {
        assert s[i] in s && s[i] in t;
      }
    }
  }

  /** Finds the common and the uncommon zero columns, and makes the common ones fixed points. */
  method ScanZeros<K(==)>(s: seq<set<K>>, t: seq<set<K>>, x: seq<set<nat>>, nReg: nat)
    returns (bases: seq<set<nat>>, srcFree: seq<nat>, dstFree: seq<nat>)
    requires Skeleton(s, t, x)
    ensures Scanned(s, t, x, bases, srcFree, dstFree, |s|)
  {
    bases, srcFree, dstFree := x, [], [];
    for i := 0 to |s|
      invariant Scanned(s, t, x, bases, srcFree, dstFree, i)
    {
      ScannedSnoc(s, t, x, bases, srcFree, dstFree, i);
      if s[i] == {} && t[i] == {} {
        SetsFixedPoint(s, t, x, nReg, i);
        bases := bases[i := SetCoordinate(bases[i], nReg, i)];
      } else if s[i] == {} {
        srcFree := srcFree + [i];
      } else if t[i] == {} {
        dstFree := dstFree + [i];
      }
    }
  }

  /** Pairs off the uncommon zero columns. */
  method PairZeros(bases0: seq<set<nat>>, srcFree: seq<nat>, dstFree: seq<nat>, nReg: nat)
    returns (bases: seq<set<nat>>)
    requires |srcFree| == |dstFree|
    requires forall k :: 0 <= k < |srcFree| ==> srcFree[k] < |bases0| && bases0[srcFree[k]] == {}
    requires forall k, l :: 0 <= k < l < |srcFree| ==> srcFree[k] != srcFree[l]
    ensures |bases| == |bases0|
    ensures forall i :: 0 <= i < |bases| && i !in srcFree ==> bases[i] == bases0[i]
    ensures forall k :: 0 <= k < |srcFree| ==> bases[srcFree[k]] == {dstFree[k]}
  {
    bases := bases0;
    for k := 0 to |srcFree|
      invariant |bases| == |bases0|
      invariant forall i :: 0 <= i < |bases| && i !in srcFree ==> bases[i] == bases0[i]
      invariant forall l :: 0 <= l < k ==> bases[srcFree[l]] == {dstFree[l]}
      invariant forall l :: k <= l < |srcFree| ==> bases[srcFree[l]] == {}
    {
      assert SetCoordinate({}, nReg, dstFree[k]) == {dstFree[k]};
      bases := bases[srcFree[k] := SetCoordinate(bases[srcFree[k]], nReg, dstFree[k])];
    }
  }

  lemma PairedAt<K>(s: seq<set<K>>, t: seq<set<K>>, x: seq<set<nat>>, scanned: seq<set<nat>>, bases: seq<set<nat>>,
                    srcFree: seq<nat>, dstFree: seq<nat>, i: nat) returns (j: nat)
    requires |s| == |t| == |x| && i < |s| && SkeletonAt(s, t, x, i)
    requires Scanned(s, t, x, scanned, srcFree, dstFree, |s|) && |srcFree| == |dstFree| && |bases| == |x|
    requires Lists(srcFree, s, t, |s|) && Lists(dstFree, t, s, |s|)
    requires i !in srcFree ==> bases[i] == scanned[i]
    requires forall k :: 0 <= k < |srcFree| ==> bases[srcFree[k]] == {dstFree[k]}
    ensures bases[i] == {j} && FilledAt(s, t, srcFree, dstFree, i, j)
  {
    if s[i] != {} {
      assert i !in srcFree;
      j :| 0 <= j < |t| && t[j] == s[i] && x[i] == {j};
    } else if t[i] == {} {
      assert i !in srcFree;
      j := i;
    } else {
      var k :| 0 <= k < |srcFree| && srcFree[k] == i;
      j := dstFree[k];
      assert bases[srcFree[k]] == {dstFree[k]};
    }
  }

  /** The permutation `p` takes every bit of the source to a bit of the destination with the same basis. */
  ghost predicate Carries<K>(s: seq<set<K>>, t: seq<set<K>>, p: seq<nat>) {
    && |p| == |s| == |t| && IsPermutation(p)
    && (forall i :: 0 <= i < |s| ==> t[p[i]] == s[i])
    && (forall i :: 0 <= i < |s| && s[i] == {} == t[i] ==> p[i] == i)
  }

  lemma FillsCarries<K(!new)>(s: seq<set<K>>, t: seq<set<K>>, p: seq<nat>)
    requires Fills(s, t, p) && Subpermutation(s)
    ensures Carries(s, t, p)
  {
    var srcFree, dstFree := Uncommon(s, t, |s|), Uncommon(t, s, |s|);
    UncommonLists(t, s, |s|);
    forall i, j | 0 <= i < j < |s| ensures p[i] != p[j] {
      assert FilledAt(s, t, srcFree, dstFree, i, p[i]) && FilledAt(s, t, srcFree, dstFree, j, p[j]);
      if p[i] == p[j] {
        FilledInjective(s, t, srcFree, dstFree, i, j, p[i]);
      }
    }
    forall i | 0 <= i < |s| ensures p[i] < |s| && t[p[i]] == s[i] && (s[i] == {} == t[i] ==> p[i] == i) {
      assert FilledAt(s, t, srcFree, dstFree, i, p[i]);
    }
  }

  /** Reads the one-bit columns as numbers. */
  method ReadColumns(bases: seq<set<nat>>) returns (p: seq<nat>)
    requires forall i :: 0 <= i < |bases| ==> OneBit(bases[i])
    ensures |p| == |bases| && forall i :: 0 <= i < |bases| ==> bases[i] == {p[i]}
  {
    p := [];
    for i := 0 to |bases|
      invariant |p| == i && forall k :: 0 <= k < i ==> bases[k] == {p[k]}
    {
      var b := BitOf(bases[i]);
      p := p + [b];
    }
  }

  lemma ScannedBalance<K(!new)>(s: seq<set<K>>, t: seq<set<K>>, x: seq<set<nat>>, scanned: seq<set<nat>>,
                                srcFree: seq<nat>, dstFree: seq<nat>)
    requires Subpermutation(s) && Subpermutation(t) && SameImage(s, t) && |s| == |t| == |x|
    requires Scanned(s, t, x, scanned, srcFree, dstFree, |s|)
    ensures |srcFree| == |dstFree|
  {
    SameZeros(s, t);
    assert s[..|s|] == s && t[..|t|] == t;
  }

  /** Completes the skeleton: fixed points where both columns are zero, and the remaining zero columns in order. */
  method FillZeros<K(==,!new)>(s: seq<set<K>>, t: seq<set<K>>, x: seq<set<nat>>, nReg: nat) returns (p: seq<nat>)
    requires Subpermutation(s) && Subpermutation(t) && SameImage(s, t) && Skeleton(s, t, x)
    ensures Fills(s, t, p) && Carries(s, t, p)
  {
    var scanned, srcFree, dstFree := ScanZeros(s, t, x, nReg);
    UncommonLists(s, t, |s|);
    UncommonLists(t, s, |s|);
    ScannedBalance(s, t, x, scanned, srcFree, dstFree);
    forall k | 0 <= k < |srcFree| ensures scanned[srcFree[k]] == {} {
      assert SkeletonAt(s, t, x, srcFree[k]);
    }
    var bases := PairZeros(scanned, srcFree, dstFree, nReg);
    forall i | 0 <= i < |s| ensures exists j :: bases[i] == {j} && FilledAt(s, t, srcFree, dstFree, i, j) {
      var j := PairedAt(s, t, x, scanned, bases, srcFree, dstFree, i);
    }
    p := ReadColumns(bases);
    FillsCarries(s, t, p);
  }

  // ----- What the permutation does to a vector

  /** The vector with bit `i` moved to `p[i]`. */
  ghost function Permuted(p: seq<nat>, x: set<nat>): set<nat> {
    set i: nat | i in x && i < |p| :: p[i]
  }

  lemma PermutedTakes(p: seq<nat>, x: set<nat>, i: nat)
    requires IsPermutation(p) && i in x && i < |p|
    ensures Permuted(p, x) == Xor(Permuted(p, x - {i}), {p[i]})
  {
    forall j: nat | j in x && j < |p| && j != i ensures p[j] != p[i] {
    }
  }

  lemma ApplyAdds<K>(columns: seq<set<K>>, x: set<nat>, i: nat)
    requires i < |columns|
    ensures F2.Apply(columns, Xor(x, {i})) == Xor(F2.Apply(columns, x), columns[i])
  {
    ApplyXor(columns, x, {i});
    ApplyUnit(columns, i);
  }

  /** Moving the bits of any vector along the permutation leaves its image as it was. */
  lemma {:induction false} PermutedApply<K>(s: seq<set<K>>, t: seq<set<K>>, p: seq<nat>, x: set<nat>)
    requires Carries(s, t, p) && Fits(x, |s|)
    ensures F2.Apply(t, Permuted(p, x)) == F2.Apply(s, x)
    decreases |x|
  {
    if x == {} {
      ApplyZero(s);
      ApplyZero(t);
      assert Permuted(p, x) == {};
    } else {
      var i :| i in x;
      PermutedApply(s, t, p, x - {i});
      PermutedTakes(p, x, i);
      ApplyAdds(t, Permuted(p, x - {i}), p[i]);
      ApplyAdds(s, x - {i}, i);
      TakeXor(x, i);
    }
  }
}
