/** Bases of kernels, complements and intersections, and the shared-memory swizzle built from them. */
module Swizzling {
  import opened Arithmetic
  import opened F2
  import opened GaussJordan
  import opened Powers
  import opened ReducedForm
  import opened Tiles

  /** The columns below `n` without a pivot, in ascending order. */
  ghost function FreeColumns(pivots: seq<nat>, n: nat): (r: seq<nat>)
    ensures forall f: nat :: f in r <==> f < n && f !in pivots
    ensures forall i, j :: 0 <= i < j < |r| ==> r[i] != r[j]
  {
    if n == 0 then [] else FreeColumns(pivots, n - 1) + if n - 1 in pivots then [] else [n - 1]
  }

  ghost function FreeVectors(m: Matrix, pivots: seq<nat>, free: seq<nat>): seq<set<nat>>
    requires |pivots| <= |m|
  {
    seq(|free|, j requires 0 <= j < |free| => FreeVector(m, pivots, free[j]))
  }

  lemma FreeVectorsStep(m: Matrix, pivots: seq<nat>, k: nat)
    requires |pivots| <= |m|
    ensures FreeVectors(m, pivots, FreeColumns(pivots, k + 1)) ==
            FreeVectors(m, pivots, FreeColumns(pivots, k)) + if k in pivots then [] else [FreeVector(m, pivots, k)]
  {
  }

  lemma FreeVectorsSolve(m: Matrix, pivots: seq<nat>, dim: nat, sel: set<nat>)
    requires IsReduced(m, pivots)
    ensures InKernel(m, Apply(FreeVectors(m, pivots, FreeColumns(pivots, dim)), sel))
  {
    var free := FreeColumns(pivots, dim);
    var basis := FreeVectors(m, pivots, free);
    forall j | 0 <= j < |basis| ensures InKernel(m, basis[j]) {
      assert free[j] in free;
      FreeVectorInKernel(m, pivots, free[j]);
    }
    KernelContainsSpan(m, basis, sel);
  }

  /** a solution is the sum of the free solutions of its free columns. */
  lemma SolutionIsCombination(m: Matrix, pivots: seq<nat>, dim: nat, x: set<nat>)
    requires IsReduced(m, pivots) && RowsFit(m, dim) && Fits(x, dim) && InKernel(m, x)
    ensures InSpan(FreeVectors(m, pivots, FreeColumns(pivots, dim)), x)
  {
    var free := FreeColumns(pivots, dim);
    var basis := FreeVectors(m, pivots, free);
    var sel := set j: nat | j < |free| && free[j] in x;
    var rest := Xor(x, Apply(basis, sel));
    FreeVectorsSolve(m, pivots, dim, sel);
    KernelXor(m, x, Apply(basis, sel));
    forall e | e in rest ensures e in pivots {
      RestIsPivots(m, pivots, dim, x, sel, e);
    }
    KernelWithoutFree(m, pivots, rest);
    assert x == Apply(basis, sel);
  }

  /** The free solutions are a basis of the kernel. */
  lemma FreeVectorsSpanKernel(m: Matrix, pivots: seq<nat>, dim: nat, x: set<nat>)
    requires IsReduced(m, pivots) && RowsFit(m, dim) && Fits(x, dim)
    ensures InSpan(FreeVectors(m, pivots, FreeColumns(pivots, dim)), x) <==> InKernel(m, x)
  {
    if InKernel(m, x) {
      SolutionIsCombination(m, pivots, dim, x);
    }
    if sel :| Apply(FreeVectors(m, pivots, FreeColumns(pivots, dim)), sel) == x {
      FreeVectorsSolve(m, pivots, dim, sel);
    }
  }

  lemma FreeVectorsFit(m: Matrix, pivots: seq<nat>, dim: nat)
    requires IsReduced(m, pivots) && RowsFit(m, dim)
    ensures RowsFit(FreeVectors(m, pivots, FreeColumns(pivots, dim)), dim)
  {
    var free := FreeColumns(pivots, dim);
    forall j | 0 <= j < |free| ensures Fits(FreeVector(m, pivots, free[j]), dim) {
      assert free[j] in free;
      assert forall i :: 0 <= i < |pivots| ==> IsPivot(m, i, pivots[i]);
    }
  }

  lemma FreeColumnOnce(m: Matrix, pivots: seq<nat>, dim: nat, j: nat, sel: set<nat>)
    requires IsReduced(m, pivots) && j < |FreeColumns(pivots, dim)|
    ensures var free := FreeColumns(pivots, dim);
            free[j] in Apply(FreeVectors(m, pivots, free), sel) <==> j in sel
  {
    var free := FreeColumns(pivots, dim);
    assert free[j] in free;
    OwnCoordinate(FreeVectors(m, pivots, free), j, free[j], sel);
  }

  lemma RestIsPivots(m: Matrix, pivots: seq<nat>, dim: nat, x: set<nat>, sel: set<nat>, e: nat)
    requires IsReduced(m, pivots) && RowsFit(m, dim) && Fits(x, dim)
    requires var free := FreeColumns(pivots, dim);
             && sel == (set j: nat | j < |free| && free[j] in x)
             && e in Xor(x, Apply(FreeVectors(m, pivots, free), sel))
    ensures e in pivots
  {
    var free := FreeColumns(pivots, dim);
    FreeVectorsFit(m, pivots, dim);
    ApplyFits(FreeVectors(m, pivots, free), sel, dim);
    if e !in pivots {
      assert e in free;
      var j :| 0 <= j < |free| && free[j] == e;
      FreeColumnOnce(m, pivots, dim, j, sel);
    }
  }

  lemma FreeVectorsIndependent(m: Matrix, pivots: seq<nat>, dim: nat)
    requires IsReduced(m, pivots)
    ensures Independent(FreeVectors(m, pivots, FreeColumns(pivots, dim)))
  {
    var basis := FreeVectors(m, pivots, FreeColumns(pivots, dim));
    forall x | Fits(x, |basis|) && Apply(basis, x) == {} ensures x == {} {
      forall j: nat ensures j !in x {
        if j < |basis| {
          FreeColumnOnce(m, pivots, dim, j, x);
        }
      }
    }
  }

  /** Orthogonal to the whole kernel is in the span. */
  lemma DoubleAnnihilator(m: Matrix, pivots: seq<nat>, vectors: seq<set<nat>>, kernel: seq<set<nat>>, dim: nat,
                          v: set<nat>)
    requires IsReduced(m, pivots) && RowsFit(m, dim) && SameSpan(vectors, m) && Fits(v, dim)
    requires forall x :: Fits(x, dim) ==> (InSpan(kernel, x) <==> InKernel(vectors, x))
    requires RowsFit(kernel, dim)
    ensures InKernel(kernel, v) <==> InSpan(vectors, v)
  {
    if InSpan(vectors, v) {
      forall r | 0 <= r < |kernel| ensures !Dot(kernel[r], v) {
        SpanOfMember(kernel, r);
        KernelOfSpan(vectors, kernel[r], v);
        DotSymmetric(v, kernel[r]);
      }
    }
    if InKernel(kernel, v) {
      forall f: nat | f !in pivots ensures !Dot(FreeVector(m, pivots, f), v) {
        if f < dim {
          var x := FreeVector(m, pivots, f);
          FreeVectorInKernel(m, pivots, f);
          SameSpanSameKernel(vectors, m, x);
          assert forall i :: 0 <= i < |pivots| ==> IsPivot(m, i, pivots[i]);
          KernelOfSpan(kernel, v, x);
        } else {
          FreeBeyond(m, pivots, dim, f, v);
        }
      }
      OrthogonalToKernel(m, pivots, v);
      GeneratesSpan(vectors, m, v);
    }
  }

  lemma FreeBeyond(m: Matrix, pivots: seq<nat>, dim: nat, f: nat, v: set<nat>)
    requires IsReduced(m, pivots) && RowsFit(m, dim) && dim <= f && Fits(v, dim)
    ensures !Dot(FreeVector(m, pivots, f), v)
  {
    assert forall i :: 0 <= i < |m| ==> Fits(m[i], dim);
    assert FreeVector(m, pivots, f) == {f};
    assert {f} * v == {};
  }

  /** The free solution of column `f`, read off the reduced matrix. */
  method ReadFreeVector(mat: array<set<nat>>, ghost pivots: seq<nat>, freeCol: nat) returns (vec: set<nat>)
    requires IsReduced(mat[..], pivots) && freeCol !in pivots
    ensures vec == FreeVector(mat[..], pivots, freeCol)
  {
    vec := {freeCol};
    for r := 0 to mat.Length
      invariant vec == {freeCol} + set i | 0 <= i < r && i < |pivots| && freeCol in mat[i] :: pivots[i]
    {
      PivotIsCtz(mat[..], pivots, r);
      if freeCol in mat[r] {
        var pivot := Ctz(mat[r]);
        assert pivot !in vec;
        vec := Xor(vec, {pivot});
      }
    }
  }

  /** a basis of the vectors orthogonal to all of `vectors`; what is orthogonal to it in turn is their span. */
  method NullspaceBasis(vectors: seq<set<nat>>, dim: nat) returns (basis: seq<set<nat>>)
    requires RowsFit(vectors, dim)
    ensures RowsFit(basis, dim) && Independent(basis)
    ensures forall x :: Fits(x, dim) ==> (InSpan(basis, x) <==> InKernel(vectors, x))
    ensures forall x :: Fits(x, dim) ==> (InKernel(basis, x) <==> InSpan(vectors, x))
  {
    var mat := new set<nat>[|vectors|](i requires 0 <= i < |vectors| => vectors[i]);
    assert mat[..] == vectors;
    ghost var pivots := InplaceRref(mat, dim);
    ghost var m := mat[..];
    var pivotCols := PivotColumns(mat, pivots);
    basis := [];
    for freeCol := 0 to dim
      invariant basis == FreeVectors(m, pivots, FreeColumns(pivots, freeCol))
      invariant mat[..] == m
    {
      if freeCol !in pivotCols {
        var vec := ReadFreeVector(mat, pivots, freeCol);
        basis := basis + [vec];
      }
      FreeVectorsStep(m, pivots, freeCol);
    }
    FreeVectorsAreNullspace(vectors, m, pivots, dim);
  }

  lemma FreeVectorsAreNullspace(vectors: seq<set<nat>>, m: Matrix, pivots: seq<nat>, dim: nat)
    requires IsReduced(m, pivots) && RowsFit(m, dim) && SameSpan(vectors, m)
    ensures var basis := FreeVectors(m, pivots, FreeColumns(pivots, dim));
            && RowsFit(basis, dim) && Independent(basis)
            && (forall x :: Fits(x, dim) ==> (InSpan(basis, x) <==> InKernel(vectors, x)))
            && (forall x :: Fits(x, dim) ==> (InKernel(basis, x) <==> InSpan(vectors, x)))
  {
    var basis := FreeVectors(m, pivots, FreeColumns(pivots, dim));
    FreeVectorsFit(m, pivots, dim);
    FreeVectorsIndependent(m, pivots, dim);
    forall x | Fits(x, dim) ensures InSpan(basis, x) <==> InKernel(vectors, x) {
      FreeVectorsSpanKernel(m, pivots, dim, x);
      SameSpanSameKernel(vectors, m, x);
    }
    forall x | Fits(x, dim) ensures InKernel(basis, x) <==> InSpan(vectors, x) {
      DoubleAnnihilator(m, pivots, vectors, basis, dim, x);
    }
  }

  // ----- Complements

  /** Every vector of the space is a sum of one of either span in exactly one way. */
  ghost predicate IsComplement(basis: seq<set<nat>>, comp: seq<set<nat>>, dim: nat) {
    && (forall v :: Fits(v, dim) ==> Decomposes(basis, comp, v))
    && (forall v :: InSpan(basis, v) && InSpan(comp, v) ==> v == {})
  }

  ghost predicate Decomposes(basis: seq<set<nat>>, comp: seq<set<nat>>, v: set<nat>) {
    exists a :: InSpan(basis, a) && InSpan(comp, Xor(v, a))
  }

  /** The highest column below `n` is the last of the pivots below `n`, or none. */
  lemma LastPivotBelow(pivots: seq<nat>, n: nat, k: nat)
    requires Ascending(pivots) && k <= |pivots| && n > 0
    requires forall i :: 0 <= i < |pivots| ==> (pivots[i] < n <==> i < k)
    ensures n - 1 in pivots <==> k > 0 && pivots[k - 1] == n - 1
    ensures n - 1 in pivots ==> forall i :: 0 <= i < |pivots| ==> (pivots[i] < n - 1 <==> i < k - 1)
    ensures n - 1 !in pivots ==> forall i :: 0 <= i < |pivots| ==> (pivots[i] < n - 1 <==> i < k)
  {
    if n - 1 in pivots {
      var i :| 0 <= i < |pivots| && pivots[i] == n - 1;
      assert pivots[i] <= pivots[k - 1] < n;
    }
  }

  lemma {:induction false} FreeColumnCount(pivots: seq<nat>, n: nat, k: nat)
    requires Ascending(pivots) && k <= |pivots|
    requires forall i :: 0 <= i < |pivots| ==> (pivots[i] < n <==> i < k)
    ensures |FreeColumns(pivots, n)| + k == n
  {
    if n > 0 {
      LastPivotBelow(pivots, n, k);
      FreeColumnCount(pivots, n - 1, if n - 1 in pivots then k - 1 else k);
    }
  }

  lemma UnitsOfFreeColumns(m: Matrix, pivots: seq<nat>, basis: seq<set<nat>>, dim: nat)
    requires IsReduced(m, pivots) && RowsFit(m, dim) && SameSpan(basis, m)
    ensures IsComplement(basis, Units(FreeColumns(pivots, dim)), dim)
  {
    var free := FreeColumns(pivots, dim);
    var comp := Units(free);
    forall v | Fits(v, dim) ensures Decomposes(basis, comp, v) {
      var a := Apply(m, Selection(pivots, v));
      SpanWithin(basis, m, Selection(pivots, v));
      ResidueHasNoPivots(m, pivots, v);
      ApplyFits(m, Selection(pivots, v), dim);
      SpanOfUnits(free, Residue(m, pivots, v));
      assert InSpan(comp, Xor(v, a));
    }
    forall v | InSpan(basis, v) && InSpan(comp, v) ensures v == {} {
      SpanOfUnits(free, v);
      GeneratesSpan(m, basis, v);
      SpanWithoutPivots(m, pivots, v);
    }
  }

  /** The unit vectors of the columns without a pivot. */
  method FreeUnits(pivotCols: set<nat>, ghost pivots: seq<nat>, dim: nat) returns (comp: seq<set<nat>>)
    requires forall c :: c in pivotCols <==> c in pivots
    ensures comp == Units(FreeColumns(pivots, dim))
  {
    comp := [];
    for i := 0 to dim
      invariant comp == Units(FreeColumns(pivots, i))
    {
      if i !in pivotCols {
        comp := comp + [{i}];
      }
    }
  }

  /** Unit vectors that complete `basis` to the whole space. */
  method ComplementBasis(basis: seq<set<nat>>, dim: nat) returns (comp: seq<set<nat>>, ghost coords: seq<nat>)
    requires RowsFit(basis, dim)
    ensures comp == Units(coords) && (forall c :: c in coords ==> c < dim)
    ensures AreBeside(coords, basis, dim)
    ensures IsComplement(basis, comp, dim)
    ensures Independent(comp) && (Independent(basis) ==> |basis| + |comp| == dim)
  {
    var mat := new set<nat>[|basis|](i requires 0 <= i < |basis| => basis[i]);
    assert mat[..] == basis;
    ghost var pivots := InplaceRref(mat, dim);
    var pivotCols := PivotColumns(mat, pivots);
    comp := FreeUnits(pivotCols, pivots, dim);
    coords := FreeColumns(pivots, dim);
    UnitsOfFreeColumns(mat[..], pivots, basis, dim);
    UnitsAreIndependent(coords);
    AllColumnsCount(mat[..], pivots, dim);
    FreeColumnsAreBeside(mat[..], pivots, basis, dim);
  }

  /** The bits, in ascending order, that are not the lowest one of any vector of the span. */
  ghost predicate AreBeside(coords: seq<nat>, basis: seq<set<nat>>, dim: nat) {
    && Ascending(coords)
    && forall c: nat :: c in coords <==> c < dim && forall v :: InSpan(basis, v) ==> !IsLeast(v, c)
  }

  lemma {:induction false} FreeColumnsAscend(pivots: seq<nat>, n: nat)
    ensures Ascending(FreeColumns(pivots, n))
  {
    if n > 0 {
      FreeColumnsAscend(pivots, n - 1);
      var before := FreeColumns(pivots, n - 1);
      assert forall i :: 0 <= i < |before| ==> before[i] in before;
    }
  }

  lemma FreeColumnsAreBeside(m: Matrix, pivots: seq<nat>, basis: seq<set<nat>>, dim: nat)
    requires IsReduced(m, pivots) && SameSpan(basis, m)
    ensures AreBeside(FreeColumns(pivots, dim), basis, dim)
  {
    FreeColumnsAscend(pivots, dim);
    forall v ensures InSpan(basis, v) <==> InSpan(m, v) {
      if InSpan(basis, v) {
        GeneratesSpan(m, basis, v);
      }
      if InSpan(m, v) {
        GeneratesSpan(basis, m, v);
      }
    }
    forall c: nat
      ensures c in FreeColumns(pivots, dim) <==> c < dim && forall v :: InSpan(basis, v) ==> !IsLeast(v, c) {
      PivotsAreLowest(m, pivots, c);
    }
  }

  lemma AllColumnsCount(m: Matrix, pivots: seq<nat>, dim: nat)
    requires IsReduced(m, pivots) && RowsFit(m, dim)
    ensures |FreeColumns(pivots, dim)| + |pivots| == dim
  {
    forall i | 0 <= i < |pivots| ensures pivots[i] < dim {
      assert IsPivot(m, i, pivots[i]);
    }
    FreeColumnCount(pivots, dim, |pivots|);
  }

  // ----- Intersections

  lemma KernelOfConcat(a: seq<set<nat>>, b: seq<set<nat>>, x: set<nat>)
    ensures InKernel(a + b, x) <==> InKernel(a, x) && InKernel(b, x)
  {
    if InKernel(a + b, x) {
      assert forall r :: 0 <= r < |a| ==> a[r] == (a + b)[r];
      assert forall r :: 0 <= r < |b| ==> b[r] == (a + b)[|a| + r];
    }
  }

  /** The vectors of `b1` that are in `b2`, in their order. */
  ghost function Among(b1: seq<set<nat>>, b2: seq<set<nat>>): seq<set<nat>> {
    if b1 == [] then [] else
      Among(b1[..|b1| - 1], b2) + if b1[|b1| - 1] in b2 then [b1[|b1| - 1]] else []
  }

  lemma {:induction false} AmongMembers(b1: seq<set<nat>>, b2: seq<set<nat>>)
    ensures forall v :: v in Among(b1, b2) <==> v in b1 && v in b2
  {
    if b1 != [] {
      AmongMembers(b1[..|b1| - 1], b2);
      assert b1 == b1[..|b1| - 1] + [b1[|b1| - 1]];
    }
  }

  lemma {:induction false} AmongDisjoint(b1: seq<set<nat>>, b2: seq<set<nat>>)
    requires PairwiseDisjoint(b1)
    ensures PairwiseDisjoint(Among(b1, b2))
  {
    if b1 != [] {
      var init, last := b1[..|b1| - 1], b1[|b1| - 1];
      AmongDisjoint(init, b2);
      AmongMembers(init, b2);
      var before := Among(init, b2);
      forall i | 0 <= i < |before| ensures before[i] !! last {
        assert before[i] in before;
      }
    }
  }

  lemma IndependentDiffer<K>(vectors: seq<set<K>>, i: nat, j: nat)
    requires Independent(vectors) && i < j < |vectors|
    ensures vectors[i] != vectors[j]
  {
    ApplyXor(vectors, {i}, {j});
    ApplyUnit(vectors, i);
    ApplyUnit(vectors, j);
    assert Fits(Xor({i}, {j}), |vectors|) && i in Xor({i}, {j});
  }

  /** Independent powers of two stay independent when some are left out. */
  lemma AmongIndependent(b1: seq<set<nat>>, b2: seq<set<nat>>)
    requires AllPowersOf2(b1) && Independent(b1)
    ensures Independent(Among(b1, b2))
  {
    forall i, j | 0 <= i < j < |b1| ensures b1[i] !! b1[j] {
      IndependentDiffer(b1, i, j);
      forall e | e in b1[i] && e in b1[j] ensures false {
        AtMostOneBit(b1[i], e);
        AtMostOneBit(b1[j], e);
      }
    }
    AmongDisjoint(b1, b2);
    DisjointIndependent(Among(b1, b2));
  }

  /** A basis of the intersection of the two spans: on the path for powers of two the common ones in the order of `b1`,
      so that it is one if `b1` is independent, and on the general path in any case. */
  method IntersectionBasis(b1: seq<set<nat>>, b2: seq<set<nat>>, dim: nat) returns (result: seq<set<nat>>)
    requires RowsFit(b1, dim) && RowsFit(b2, dim)
    ensures forall v :: Fits(v, dim) ==> (InSpan(result, v) <==> InSpan(b1, v) && InSpan(b2, v))
    ensures if AllPowersOf2(b1) && AllPowersOf2(b2) then result == Among(b1, b2) else Independent(result)
    ensures Independent(b1) ==> Independent(result)
  {
    if (forall i :: 0 <= i < |b1| ==> IsPowerOf2(b1[i])) && (forall i :: 0 <= i < |b2| ==> IsPowerOf2(b2[i])) {
      result := [];
      for i := 0 to |b1|
        invariant result == Among(b1[..i], b2)
      {
        assert b1[..i + 1][..i] == b1[..i];
        if b1[i] != {} && b1[i] in b2 {
          result := result + [b1[i]];
        }
      }
      assert b1[..|b1|] == b1;
      AmongMembers(b1, b2);
      if Independent(b1) {
        AmongIndependent(b1, b2);
      }
      forall i | 0 <= i < |result| ensures |result[i]| <= 1 {
        assert result[i] in b1;
      }
      forall v | Fits(v, dim) ensures InSpan(result, v) <==> InSpan(b1, v) && InSpan(b2, v) {
        SpanOfTile(b1, v);
        SpanOfTile(b2, v);
        SpanOfTile(result, v);
      }
    } else {
      var ns1 := NullspaceBasis(b1, dim);
      var ns2 := NullspaceBasis(b2, dim);
      result := NullspaceBasis(ns1 + ns2, dim);
      forall v | Fits(v, dim) ensures InSpan(result, v) <==> InSpan(b1, v) && InSpan(b2, v) {
        KernelOfConcat(ns1, ns2, v);
      }
    }
  }

  // ----- The swizzle

  /** `own[i]` is a coordinate that vector `i` has and no other vector of the list. */
  ghost predicate OwnCoordinates(vectors: seq<set<nat>>, own: seq<nat>) {
    && |own| == |vectors|
    && forall i, j :: 0 <= i < |own| && 0 <= j < |vectors| ==> (own[i] in vectors[j] <==> i == j)
  }

  lemma OwnCoordinatesIndependent(vectors: seq<set<nat>>, own: seq<nat>)
    requires OwnCoordinates(vectors, own)
    ensures Independent(vectors)
  {
    forall x | Fits(x, |vectors|) && Apply(vectors, x) == {} ensures x == {} {
      forall j: nat ensures j !in x {
        if j < |vectors| {
          OwnCoordinate(vectors, j, own[j], x);
        }
      }
    }
  }

  /** The coordinates below `dim` in `coords`, in ascending order. */
  method Sorted(coords: set<nat>, dim: nat) returns (r: seq<nat>)
    requires Fits(coords, dim)
    ensures Lists(r, coords) && Ascending(r)
  {
    r := [];
    for b := 0 to dim
      invariant forall c :: c in r <==> c in coords && c < b
      invariant Ascending(r) && forall i :: 0 <= i < |r| ==> r[i] < b
    {
      if b in coords {
        r := r + [b];
      }
    }
  }

  lemma OwnConcat(x: seq<set<nat>>, ox: seq<nat>, y: seq<set<nat>>, oy: seq<nat>)
    requires OwnCoordinates(x, ox) && OwnCoordinates(y, oy)
    requires forall i, j :: 0 <= i < |ox| && 0 <= j < |y| ==> ox[i] !in y[j]
    requires forall i, j :: 0 <= i < |oy| && 0 <= j < |x| ==> oy[i] !in x[j]
    ensures OwnCoordinates(x + y, ox + oy)
  {
  }

  lemma OwnPrefix(x: seq<set<nat>>, own: seq<nat>, k: nat)
    requires OwnCoordinates(x, own) && k <= |x|
    ensures OwnCoordinates(x[..k], own[..k])
  {
  }

  /** Vectors that each have a coordinate of their own outside the tile meet its span trivially. */
  lemma OwnOutsideTile(vectors: seq<set<nat>>, own: seq<nat>, bank: seq<set<nat>>)
    requires OwnCoordinates(vectors, own) && IsTile(bank)
    requires forall j :: 0 <= j < |own| ==> {own[j]} !in bank
    ensures MeetTrivially(vectors, bank)
  {
    forall v | InSpan(vectors, v) && InSpan(bank, v) ensures v == {} {
      var x :| Apply(vectors, x) == v;
      SpanOfTile(bank, v);
      forall j | 0 <= j < |vectors| ensures j !in x {
        OwnCoordinate(vectors, j, own[j], x);
      }
      NoneSelected(vectors, x);
    }
  }

  ghost function Pairs(a: seq<nat>, b: seq<nat>, from: nat): seq<set<nat>>
    requires from <= |a| <= |b|
  {
    seq(|a| - from, i requires 0 <= i < |a| - from => {a[from + i], b[from + i]})
  }

  /** The full candidate: bits in neither bank, sums of a bit of either, then bits of one bank only. */
  ghost function Candidate(outside: seq<nat>, a: seq<nat>, b: seq<nat>, conflicts: nat): seq<set<nat>>
    requires conflicts <= |a| <= |b|
  {
    Units(outside) + Pairs(a, b, conflicts) + Units(a[..conflicts]) + Units(b[..conflicts])
  }

  ghost predicate AllDistinct(coords: seq<nat>) {
    forall i, j :: 0 <= i < j < |coords| ==> coords[i] != coords[j]
  }

  ghost predicate NoCommon(a: seq<nat>, b: seq<nat>) {
    forall i, j :: 0 <= i < |a| && 0 <= j < |b| ==> a[i] != b[j]
  }

  lemma UnitsOwn(coords: seq<nat>)
    requires AllDistinct(coords)
    ensures OwnCoordinates(Units(coords), coords)
  {
  }

  lemma PairsOwn(a: seq<nat>, b: seq<nat>, from: nat)
    requires from <= |a| <= |b| && AllDistinct(a) && AllDistinct(b) && NoCommon(a, b)
    ensures OwnCoordinates(Pairs(a, b, from), a[from..]) && OwnCoordinates(Pairs(a, b, from), b[from..|a|])
  {
  }

  /** Every vector of the candidate has a coordinate of its own; without conflicts there are two such choices. */
  lemma CandidateOwn(outside: seq<nat>, a: seq<nat>, b: seq<nat>, conflicts: nat)
    requires conflicts <= |a| <= |b| && AllDistinct(outside) && AllDistinct(a) && AllDistinct(b)
    requires NoCommon(outside, a) && NoCommon(outside, b) && NoCommon(a, b)
    ensures OwnCoordinates(Candidate(outside, a, b, conflicts),
                           outside + a[conflicts..] + a[..conflicts] + b[..conflicts])
    ensures OwnCoordinates(Units(outside) + Pairs(a, b, conflicts), outside + a[conflicts..])
    ensures OwnCoordinates(Units(outside) + Pairs(a, b, conflicts), outside + b[conflicts..|a|])
  {
    var us, ps := Units(outside), Pairs(a, b, conflicts);
    UnitsOwn(outside);
    PairsOwn(a, b, conflicts);
    OwnConcat(us, outside, ps, a[conflicts..]);
    OwnConcat(us, outside, ps, b[conflicts..|a|]);
    UnitsOwn(a[..conflicts]);
    OwnConcat(us + ps, outside + a[conflicts..], Units(a[..conflicts]), a[..conflicts]);
    UnitsOwn(b[..conflicts]);
    OwnConcat(us + ps + Units(a[..conflicts]), outside + a[conflicts..] + a[..conflicts],
              Units(b[..conflicts]), b[..conflicts]);
  }

  /** What the code's three lists of bits are: outside both banks, in the smaller and in the larger difference. */
  ghost predicate SplitsBits(src: set<nat>, dst: set<nat>, dim: nat, outside: seq<nat>, a: seq<nat>, b: seq<nat>) {
    && Ascending(outside) && Ascending(a) && Ascending(b)
    && |a| <= |b|
    && (forall c: nat :: c in outside <==> c < dim && c !in src && c !in dst)
    && ((Lists(a, src - dst) && Lists(b, dst - src)) || (Lists(a, dst - src) && Lists(b, src - dst)))
  }

  /** The number of bits outside both banks plus those of the smaller difference is what the larger bank leaves free. */
  lemma FreeBits(src: set<nat>, dst: set<nat>, dim: nat, outside: seq<nat>, a: seq<nat>, b: seq<nat>)
    requires Fits(src, dim) && Fits(dst, dim) && SplitsBits(src, dst, dim, outside, a, b)
    ensures |outside| + |a| + |src| <= dim && |outside| + |a| + |dst| <= dim
    ensures |outside| + |a| + |src| == dim || |outside| + |a| + |dst| == dim
  {
    BitListLengths(src, dst, dim, outside, a, b);
    assert src + dst == src + (dst - src) && |src + dst| == |src| + |dst - src|;
    assert src + dst == dst + (src - dst) && |src + dst| == |dst| + |src - dst|;
  }

  lemma BitListsDisjoint(src: set<nat>, dst: set<nat>, dim: nat, outside: seq<nat>, a: seq<nat>, b: seq<nat>)
    requires SplitsBits(src, dst, dim, outside, a, b)
    ensures NoCommon(outside, a) && NoCommon(outside, b) && NoCommon(a, b)
  {
    assert forall i :: 0 <= i < |outside| ==> outside[i] in outside;
    assert forall i :: 0 <= i < |a| ==> a[i] in a;
    assert forall i :: 0 <= i < |b| ==> b[i] in b;
  }

  /** a prefix of the candidate without conflicts meets both banks trivially. */
  lemma NoConflicts(bankSrc: seq<set<nat>>, bankDst: seq<set<nat>>, src: set<nat>, dst: set<nat>, dim: nat,
                    outside: seq<nat>, a: seq<nat>, b: seq<nat>, n: nat)
    requires IsTile(bankSrc) && IsTile(bankDst) && BitsOf(bankSrc, src) && BitsOf(bankDst, dst)
    requires SplitsBits(src, dst, dim, outside, a, b) && n <= |outside| + |a|
    ensures var segment := (Units(outside) + Pairs(a, b, 0))[..n];
            MeetTrivially(segment, bankSrc) && MeetTrivially(segment, bankDst)
  {
    var all := Units(outside) + Pairs(a, b, 0);
    BitListsDisjoint(src, dst, dim, outside, a, b);
    CandidateOwn(outside, a, b, 0);
    assert a[0..] == a && b[0..|a|] == b[..|a|];
    var byA, byB := outside + a, outside + b[..|a|];
    OwnPrefix(all, byA, n);
    OwnPrefix(all, byB, n);
    assert forall j :: 0 <= j < |byA| ==> byA[j] in outside || byA[j] in a;
    assert forall j :: 0 <= j < |byB| ==> byB[j] in outside || byB[j] in b;
    if Lists(a, src - dst) {
      OwnOutsideTile(all[..n], byB[..n], bankSrc);
      OwnOutsideTile(all[..n], byA[..n], bankDst);
    } else {
      OwnOutsideTile(all[..n], byA[..n], bankSrc);
      OwnOutsideTile(all[..n], byB[..n], bankDst);
    }
  }

  ghost predicate ConflictFree(segment: seq<set<nat>>, bankSrc: seq<set<nat>>, bankDst: seq<set<nat>>, dim: nat,
                               n: nat) {
    && |segment| == n && RowsFit(segment, dim) && Independent(segment)
    && MeetTrivially(segment, bankSrc) && MeetTrivially(segment, bankDst)
  }

  /** Some `n` independent vectors cause no conflict. */
  ghost predicate Avoidable(bankSrc: seq<set<nat>>, bankDst: seq<set<nat>>, dim: nat, n: nat) {
    exists other :: ConflictFree(other, bankSrc, bankDst, dim, n)
  }

  // ----- In how many dimensions the candidate meets the banks

  lemma UnitsDisjoint(coords: seq<nat>)
    requires AllDistinct(coords)
    ensures PairwiseDisjoint(Units(coords))
  {
  }

  lemma PairsDisjoint(a: seq<nat>, b: seq<nat>, from: nat)
    requires from <= |a| <= |b| && AllDistinct(a) && AllDistinct(b) && NoCommon(a, b)
    ensures PairwiseDisjoint(Pairs(a, b, from))
  {
  }

  lemma CandidateDisjoint(outside: seq<nat>, a: seq<nat>, b: seq<nat>, conflicts: nat)
    requires conflicts <= |a| <= |b| && AllDistinct(outside) && AllDistinct(a) && AllDistinct(b)
    requires NoCommon(outside, a) && NoCommon(outside, b) && NoCommon(a, b)
    ensures PairwiseDisjoint(Candidate(outside, a, b, conflicts))
  {
    var us, ps := Units(outside), Pairs(a, b, conflicts);
    UnitsDisjoint(outside);
    PairsDisjoint(a, b, conflicts);
    DisjointConcat(us, ps);
    UnitsDisjoint(a[..conflicts]);
    DisjointConcat(us + ps, Units(a[..conflicts]));
    UnitsDisjoint(b[..conflicts]);
    DisjointConcat(us + ps + Units(a[..conflicts]), Units(b[..conflicts]));
  }

  lemma UnitsInside(coords: seq<nat>, bits: set<nat>)
    ensures (forall c :: c in coords ==> c in bits) ==> Inside(Units(coords), bits) == Units(coords)
    ensures (forall c :: c in coords ==> c !in bits) ==> Inside(Units(coords), bits) == []
  {
    if forall c :: c in coords ==> c in bits {
      AllInside(Units(coords), bits);
    }
    if forall c :: c in coords ==> c !in bits {
      forall i | 0 <= i < |coords| ensures !(Units(coords)[i] <= bits) {
        assert coords[i] in Units(coords)[i] && coords[i] in coords;
      }
      NoneInside(Units(coords), bits);
    }
  }

  lemma PairsInside(a: seq<nat>, b: seq<nat>, from: nat, bits: set<nat>)
    requires from <= |a| <= |b| && ((forall c :: c in a ==> c !in bits) || (forall c :: c in b ==> c !in bits))
    ensures Inside(Pairs(a, b, from), bits) == []
  {
    forall i | 0 <= i < |a| - from ensures !(Pairs(a, b, from)[i] <= bits) {
      assert a[from + i] in Pairs(a, b, from)[i] && b[from + i] in Pairs(a, b, from)[i];
      assert a[from + i] in a && b[from + i] in b;
    }
    NoneInside(Pairs(a, b, from), bits);
  }

  /** A bank has the bits of one of the lists and none of the other. */
  ghost predicate HasOne(bits: set<nat>, a: seq<nat>, b: seq<nat>) {
    (forall c :: c in a ==> c in bits) && (forall c :: c in b ==> c !in bits)
  }

  /** Just the unit vectors of one list lie inside either bank. */
  lemma CandidateInside(outside: seq<nat>, a: seq<nat>, b: seq<nat>, conflicts: nat, bits: set<nat>)
    requires conflicts <= |a| <= |b| && (HasOne(bits, a, b) || HasOne(bits, b, a))
    requires forall c :: c in outside ==> c !in bits
    ensures |Inside(Candidate(outside, a, b, conflicts), bits)| == conflicts
  {
    var us, ps, ua, ub := Units(outside), Pairs(a, b, conflicts), Units(a[..conflicts]), Units(b[..conflicts]);
    InsideConcat(us + ps + ua, ub, bits);
    InsideConcat(us + ps, ua, bits);
    InsideConcat(us, ps, bits);
    UnitsInside(outside, bits);
    PairsInside(a, b, conflicts, bits);
    assert forall c :: c in a[..conflicts] ==> c in a;
    assert forall c :: c in b[..conflicts] ==> c in b;
    UnitsInside(a[..conflicts], bits);
    UnitsInside(b[..conflicts], bits);
  }

  lemma BitsOfBanks(src: set<nat>, dst: set<nat>, dim: nat, outside: seq<nat>, a: seq<nat>, b: seq<nat>)
    requires SplitsBits(src, dst, dim, outside, a, b)
    ensures forall c :: c in outside ==> c !in src && c !in dst
    ensures (HasOne(src, a, b) && HasOne(dst, b, a)) || (HasOne(src, b, a) && HasOne(dst, a, b))
  {
    if Lists(a, src - dst) {
      assert HasOne(src, a, b) && HasOne(dst, b, a);
    } else {
      assert HasOne(src, b, a) && HasOne(dst, a, b);
    }
  }

  /** The whole candidate meets both banks in as many dimensions as it has conflicts. */
  lemma CandidateMeets(bankSrc: seq<set<nat>>, bankDst: seq<set<nat>>, src: set<nat>, dst: set<nat>, dim: nat,
                       outside: seq<nat>, a: seq<nat>, b: seq<nat>, conflicts: nat)
    requires IsTile(bankSrc) && IsTile(bankDst) && BitsOf(bankSrc, src) && BitsOf(bankDst, dst)
    requires SplitsBits(src, dst, dim, outside, a, b) && conflicts <= |a|
    ensures MeetsIn(Candidate(outside, a, b, conflicts), bankSrc, conflicts)
    ensures MeetsIn(Candidate(outside, a, b, conflicts), bankDst, conflicts)
  {
    BitListsDisjoint(src, dst, dim, outside, a, b);
    CandidateDisjoint(outside, a, b, conflicts);
    BitsOfBanks(src, dst, dim, outside, a, b);
    CandidateInside(outside, a, b, conflicts, src);
    CandidateInside(outside, a, b, conflicts, dst);
    MeetOfDisjoint(Candidate(outside, a, b, conflicts), bankSrc, src);
    MeetOfDisjoint(Candidate(outside, a, b, conflicts), bankDst, dst);
  }

  /** The dimensions in which `n` independent vectors cannot but meet the larger bank. */
  ghost function Unavoidable(n: nat, bankSrc: seq<set<nat>>, bankDst: seq<set<nat>>, dim: nat): nat {
    var src, dst := |BankBits(bankSrc, dim)|, |BankBits(bankDst, dim)|;
    var larger := if src < dst then dst else src;
    if n + larger < dim then 0 else n + larger - dim
  }

  /** As many segment bases as asked for, up to the bits outside the banks and twice those of the smaller difference. */
  ghost function SegmentLength(n: nat, bankSrc: seq<set<nat>>, bankDst: seq<set<nat>>, dim: nat): int {
    var src, dst := BankBits(bankSrc, dim), BankBits(bankDst, dim);
    var smaller := if |src - dst| < |dst - src| then |src - dst| else |dst - src|;
    var most := dim - |src + dst| + 2 * smaller;
    if n < most then n else most
  }

  /** As many vectors as a segment can have of the `n` asked for, meeting both banks in as many dimensions as they must
      meet the larger one. */
  ghost predicate MeetsLittle(vectors: seq<set<nat>>, bankSrc: seq<set<nat>>, bankDst: seq<set<nat>>, dim: nat,
                              n: nat) {
    && |vectors| == SegmentLength(n, bankSrc, bankDst, dim)
    && MeetsIn(vectors, bankSrc, Unavoidable(|vectors|, bankSrc, bankDst, dim))
    && MeetsIn(vectors, bankDst, Unavoidable(|vectors|, bankSrc, bankDst, dim))
  }

  /** The bits outside both banks first, in ascending order, then the sums of bits that only one of the banks has, and
      last such bits on their own, as many of either bank as conflicts cannot be avoided. */
  ghost predicate FollowsLists(segment: seq<set<nat>>, bankSrc: seq<set<nat>>, bankDst: seq<set<nat>>, dim: nat) {
    exists outside: seq<nat>, a: seq<nat>, b: seq<nat>, k: nat ::
      IsPrefixOf(segment, bankSrc, bankDst, dim, outside, a, b, k)
  }

  ghost predicate IsPrefixOf(segment: seq<set<nat>>, bankSrc: seq<set<nat>>, bankDst: seq<set<nat>>, dim: nat,
                             outside: seq<nat>, a: seq<nat>, b: seq<nat>, k: nat) {
    && SplitsBits(BankBits(bankSrc, dim), BankBits(bankDst, dim), dim, outside, a, b)
    && k == Unavoidable(|segment|, bankSrc, bankDst, dim) <= |a|
    && segment <= Candidate(outside, a, b, k)
  }

  lemma BitListLengths(src: set<nat>, dst: set<nat>, dim: nat, outside: seq<nat>, a: seq<nat>, b: seq<nat>)
    requires Fits(src, dim) && Fits(dst, dim) && SplitsBits(src, dst, dim, outside, a, b)
    ensures |outside| == dim - |src + dst|
    ensures (|a| == |src - dst| && |b| == |dst - src|) || (|a| == |dst - src| && |b| == |src - dst|)
  {
    RangeCardinality(dim);
    var rest := Range(dim) - (src + dst);
    AscendingCardinality(outside, rest);
    assert Range(dim) == rest + (src + dst);
    if Lists(a, src - dst) {
      AscendingCardinality(a, src - dst);
      AscendingCardinality(b, dst - src);
    } else {
      AscendingCardinality(a, dst - src);
      AscendingCardinality(b, src - dst);
    }
  }

  /** How long the segment is, and how often its vectors outnumber the bits outside the larger bank. */
  lemma SegmentCounts(bankSrc: seq<set<nat>>, bankDst: seq<set<nat>>, dim: nat, outside: seq<nat>, a: seq<nat>,
                      b: seq<nat>, conflicts: nat, n: nat, lenSegment: nat)
    requires RowsFit(bankSrc, dim) && RowsFit(bankDst, dim)
    requires SplitsBits(BankBits(bankSrc, dim), BankBits(bankDst, dim), dim, outside, a, b)
    requires AreCounts(outside, a, conflicts, n, lenSegment)
    ensures n == SegmentLength(lenSegment, bankSrc, bankDst, dim)
    ensures conflicts == Unavoidable(n, bankSrc, bankDst, dim)
  {
    var src, dst := BankBits(bankSrc, dim), BankBits(bankDst, dim);
    BitsOfBank(bankSrc, src, dim);
    BitsOfBank(bankDst, dst, dim);
    FreeBits(src, dst, dim, outside, a, b);
    BitListLengths(src, dst, dim, outside, a, b);
  }

  /** The lengths the code computes. */
  ghost predicate AreCounts(outside: seq<nat>, a: seq<nat>, conflicts: nat, n: nat, lenSegment: nat) {
    && conflicts <= |a|
    && if lenSegment <= |outside| + |a| then conflicts == 0 && n == lenSegment
       else n == |outside| + |a| + conflicts && conflicts == ConflictCount(outside, a, lenSegment)
  }

  /** How the segment meets the banks. */
  lemma SegmentMeets(bankSrc: seq<set<nat>>, bankDst: seq<set<nat>>, dim: nat, outside: seq<nat>, a: seq<nat>,
                     b: seq<nat>, conflicts: nat, n: nat, lenSegment: nat)
    requires IsTile(bankSrc) && IsTile(bankDst) && RowsFit(bankSrc, dim) && RowsFit(bankDst, dim)
    requires SplitsBits(BankBits(bankSrc, dim), BankBits(bankDst, dim), dim, outside, a, b)
    requires AreCounts(outside, a, conflicts, n, lenSegment) && n <= |Candidate(outside, a, b, conflicts)|
    ensures MeetsIn(Candidate(outside, a, b, conflicts)[..n], bankSrc, conflicts)
    ensures MeetsIn(Candidate(outside, a, b, conflicts)[..n], bankDst, conflicts)
  {
    var src, dst := BankBits(bankSrc, dim), BankBits(bankDst, dim);
    BitsOfBank(bankSrc, src, dim);
    BitsOfBank(bankDst, dst, dim);
    if conflicts == 0 {
      CandidateWithoutConflicts(outside, a, b);
      NoConflicts(bankSrc, bankDst, src, dst, dim, outside, a, b, n);
      MeetTriviallyIsZero(Candidate(outside, a, b, 0)[..n], bankSrc);
      MeetTriviallyIsZero(Candidate(outside, a, b, 0)[..n], bankDst);
    } else {
      CandidateMeets(bankSrc, bankDst, src, dst, dim, outside, a, b, conflicts);
      assert Candidate(outside, a, b, conflicts)[..n] == Candidate(outside, a, b, conflicts);
    }
  }

  /** The number of bits of either bank that stand alone in the segment. */
  ghost function ConflictCount(outside: seq<nat>, a: seq<nat>, lenSegment: nat): int {
    var spare := lenSegment - |a| - |outside|;
    var atLeastZero := if spare < 0 then 0 else spare;
    if atLeastZero < |a| then atLeastZero else |a|
  }

  /** The properties `ComputeSegment` promises, for a prefix of a candidate. */
  lemma PrefixOfCandidate(bankSrc: seq<set<nat>>, bankDst: seq<set<nat>>, src: set<nat>, dst: set<nat>, dim: nat,
                          outside: seq<nat>, a: seq<nat>, b: seq<nat>, conflicts: nat, n: nat)
      returns (own: seq<nat>)
    requires BitsOf(bankSrc, src) && BitsOf(bankDst, dst) && Fits(src, dim) && Fits(dst, dim)
    requires SplitsBits(src, dst, dim, outside, a, b) && conflicts <= |a|
    requires n <= |Candidate(outside, a, b, conflicts)|
    ensures var segment := Candidate(outside, a, b, conflicts)[..n];
            && OwnCoordinates(segment, own) && RowsFit(segment, dim)
            && forall i, e :: 0 <= i < n && e in segment[i] ==> !({e} in bankSrc && {e} in bankDst)
  {
    BitListsDisjoint(src, dst, dim, outside, a, b);
    CandidateOwn(outside, a, b, conflicts);
    var all := outside + a[conflicts..] + a[..conflicts] + b[..conflicts];
    OwnPrefix(Candidate(outside, a, b, conflicts), all, n);
    own := all[..n];
    assert forall i :: 0 <= i < n ==>
      Candidate(outside, a, b, conflicts)[..n][i] == Candidate(outside, a, b, conflicts)[i];
    forall i, e: nat | 0 <= i < n && e in Candidate(outside, a, b, conflicts)[i]
      ensures e < dim && !({e} in bankSrc && {e} in bankDst)
    {
      CandidateBits(outside, a, b, conflicts, i, e);
    }
    forall i | 0 <= i < n ensures Fits(Candidate(outside, a, b, conflicts)[..n][i], dim) {
      forall e | e in Candidate(outside, a, b, conflicts)[i] ensures e < dim {
        CandidateBits(outside, a, b, conflicts, i, e);
      }
    }
  }

  lemma CandidateBits(outside: seq<nat>, a: seq<nat>, b: seq<nat>, conflicts: nat, i: nat, e: nat)
    requires conflicts <= |a| <= |b|
    requires i < |Candidate(outside, a, b, conflicts)| && e in Candidate(outside, a, b, conflicts)[i]
    ensures e in outside || e in a || e in b
  {
  }

  /** If any choice is free of conflicts there are enough bits for a candidate without conflicts. */
  lemma ConflictFreeHasRoom(other: seq<set<nat>>, bankSrc: seq<set<nat>>, bankDst: seq<set<nat>>, src: set<nat>,
                            dst: set<nat>, dim: nat, outside: seq<nat>, a: seq<nat>, b: seq<nat>, n: nat)
    requires IsTile(bankSrc) && IsTile(bankDst) && BitsOf(bankSrc, src) && BitsOf(bankDst, dst)
    requires Fits(src, dim) && Fits(dst, dim) && SplitsBits(src, dst, dim, outside, a, b)
    requires ConflictFree(other, bankSrc, bankDst, dim, n)
    ensures n <= |outside| + |a|
    ensures ConflictFree((Units(outside) + Pairs(a, b, 0))[..n], bankSrc, bankDst, dim, n)
  {
    RoomBesideTile(other, bankSrc, src, dim);
    RoomBesideTile(other, bankDst, dst, dim);
    FreeBits(src, dst, dim, outside, a, b);
    NoConflicts(bankSrc, bankDst, src, dst, dim, outside, a, b, n);
    assert a[..0] == [] && b[..0] == [];
    assert Candidate(outside, a, b, 0) == Units(outside) + Pairs(a, b, 0);
    var own := PrefixOfCandidate(bankSrc, bankDst, src, dst, dim, outside, a, b, 0, n);
    OwnCoordinatesIndependent((Units(outside) + Pairs(a, b, 0))[..n], own);
  }

  /** The bits of the vectors of `bank` that are not in `other`, in ascending order. */
  method Difference(bank: set<set<nat>>, other: set<set<nat>>, dim: nat, ghost bankBits: set<nat>,
                    ghost otherBits: set<nat>)
    returns (r: seq<nat>)
    requires forall v :: v in bank ==> |v| == 1 && Fits(v, dim)
    requires forall b: nat :: {b} in bank <==> b in bankBits
    requires forall b: nat :: {b} in other <==> b in otherBits
    ensures Ascending(r) && Lists(r, bankBits - otherBits)
  {
    var bits := set v | v in bank && v !in other :: Ctz(v);
    forall c ensures c in bits <==> c in bankBits - otherBits {
      if c in bits {
        var v :| v in bank && v !in other && Ctz(v) == c;
        AtMostOneBit(v, c);
      }
      if c in bankBits - otherBits {
        assert {c} in bank && Ctz({c}) == c;
      }
    }
    r := Sorted(bits, dim);
  }

  /** The bits in neither bank. */
  method OutsideBits(setSrc: set<set<nat>>, setDst: set<set<nat>>, dim: nat, ghost src: set<nat>, ghost dst: set<nat>)
    returns (segment: seq<set<nat>>, ghost outside: seq<nat>)
    requires forall b: nat :: {b} in setSrc <==> b in src
    requires forall b: nat :: {b} in setDst <==> b in dst
    ensures segment == Units(outside) && Ascending(outside)
    ensures forall c: nat :: c in outside <==> c < dim && c !in src && c !in dst
  {
    segment, outside := [], [];
    for b := 0 to dim
      invariant segment == Units(outside) && Ascending(outside)
      invariant forall c: nat :: c in outside <==> c < b && c !in src && c !in dst
      invariant forall i :: 0 <= i < |outside| ==> outside[i] < b
    {
      if {b} !in setSrc && {b} !in setDst {
        segment := segment + [{b}];
        outside := outside + [b];
      }
    }
  }

  method AppendSums(segment: seq<set<nat>>, a: seq<nat>, b: seq<nat>, from: nat) returns (r: seq<set<nat>>)
    requires from <= |a| <= |b| && NoCommon(a, b)
    ensures r == segment + Pairs(a, b, from)
  {
    r := segment;
    for i := from to |a|
      invariant r == segment + Pairs(a, b, from)[..i - from]
    {
      assert Xor({a[i]}, {b[i]}) == {a[i], b[i]};
      r := r + [Xor({a[i]}, {b[i]})];
    }
  }

  /** The candidate for the given lists of bits, as the code assembles it. */
  method Assemble(units: seq<set<nat>>, ghost outside: seq<nat>, a: seq<nat>, b: seq<nat>, lenSegment: nat)
    returns (segment: seq<set<nat>>, ghost conflicts: nat)
    requires units == Units(outside) && |a| <= |b| && NoCommon(a, b) && |outside| < lenSegment
    ensures conflicts == ConflictCount(outside, a, lenSegment) <= |a| && |segment| <= lenSegment
    ensures |segment| <= |Candidate(outside, a, b, conflicts)|
    ensures segment == Candidate(outside, a, b, conflicts)[..|segment|]
    ensures lenSegment <= |outside| + |a| ==> conflicts == 0 && |segment| == lenSegment
    ensures |outside| + |a| < lenSegment ==> |segment| == |outside| + |a| + conflicts
  {
    var spare := lenSegment - |a| - |units|;
    var atLeastZero := if spare < 0 then 0 else spare;
    var logBankConflicts := if atLeastZero < |a| then atLeastZero else |a|;
    segment := AppendSums(units, a, b, logBankConflicts);
    segment := segment + Units(a[..logBankConflicts]);
    segment := segment + Units(b[..logBankConflicts]);
    conflicts := logBankConflicts;
    if |segment| > lenSegment {
      segment := segment[..lenSegment];
    }
  }

  lemma CandidateWithoutConflicts(outside: seq<nat>, a: seq<nat>, b: seq<nat>)
    requires |a| <= |b|
    ensures Candidate(outside, a, b, 0) == Units(outside) + Pairs(a, b, 0)
  {
    assert a[..0] == [] && b[..0] == [];
  }

  lemma NonZeroIsUnit(bank: seq<set<nat>>, dim: nat, v: set<nat>)
    requires IsTile(bank) && RowsFit(bank, dim) && v in bank && v != {}
    ensures |v| == 1 && Fits(v, dim)
  {
  }

  /** The bits in neither bank, as vectors, and the bits of one bank only, the shorter list first. */
  method SplitBanks(bankSrc: seq<set<nat>>, bankDst: seq<set<nat>>, dim: nat)
    returns (units: seq<set<nat>>, a: seq<nat>, b: seq<nat>, ghost src: set<nat>, ghost dst: set<nat>,
             ghost outside: seq<nat>)
    requires IsTile(bankSrc) && IsTile(bankDst) && RowsFit(bankSrc, dim) && RowsFit(bankDst, dim)
    ensures src == BankBits(bankSrc, dim) && dst == BankBits(bankDst, dim)
    ensures BitsOf(bankSrc, src) && BitsOf(bankDst, dst) && Fits(src, dim) && Fits(dst, dim)
    ensures units == Units(outside) && SplitsBits(src, dst, dim, outside, a, b)
  {
    var setSrc := set v | v in bankSrc && v != {};
    var setDst := set v | v in bankDst && v != {};
    forall v | v in setSrc ensures |v| == 1 && Fits(v, dim) {
      NonZeroIsUnit(bankSrc, dim, v);
    }
    forall v | v in setDst ensures |v| == 1 && Fits(v, dim) {
      NonZeroIsUnit(bankDst, dim, v);
    }
    src, dst := BankBits(bankSrc, dim), BankBits(bankDst, dim);
    BitsOfBank(bankSrc, src, dim);
    BitsOfBank(bankDst, dst, dim);
    NonZeroBits(bankSrc, setSrc, src);
    NonZeroBits(bankDst, setDst, dst);
    units, outside := OutsideBits(setSrc, setDst, dim, src, dst);
    a := Difference(setSrc, setDst, dim, src, dst);
    b := Difference(setDst, setSrc, dim, dst, src);
    if |a| > |b| {
      a, b := b, a;
    }
  }

  lemma NonZeroBits(bank: seq<set<nat>>, nonZero: set<set<nat>>, bits: set<nat>)
    requires BitsOf(bank, bits) && forall v :: v in nonZero <==> v in bank && v != {}
    ensures forall b: nat :: {b} in nonZero <==> b in bits
  {
  }

  /** The bases of the shared-memory segments: independent of each other and of what both banks share. They meet both
      banks in no more dimensions than that many independent vectors must meet the larger one. They cause no bank
      conflict whenever some choice of as many as asked for would cause none. */
  method ComputeSegment(bankSrc: seq<set<nat>>, bankDst: seq<set<nat>>, dim: nat, lenSegment: nat)
    returns (segment: seq<set<nat>>, ghost own: seq<nat>)
    requires IsTile(bankSrc) && IsTile(bankDst) && RowsFit(bankSrc, dim) && RowsFit(bankDst, dim)
    ensures |segment| <= lenSegment && RowsFit(segment, dim) && OwnCoordinates(segment, own)
    ensures forall i, e :: 0 <= i < |segment| && e in segment[i] ==> !({e} in bankSrc && {e} in bankDst)
    ensures Avoidable(bankSrc, bankDst, dim, lenSegment) ==> ConflictFree(segment, bankSrc, bankDst, dim, lenSegment)
    ensures MeetsLittle(segment, bankSrc, bankDst, dim, lenSegment)
    ensures FollowsLists(segment, bankSrc, bankDst, dim)
  {
    ghost var src, dst, outside;
    var a, b;
    segment, a, b, src, dst, outside := SplitBanks(bankSrc, bankDst, dim);
    BitListsDisjoint(src, dst, dim, outside, a, b);
    ghost var conflicts := 0;
    CandidateWithoutConflicts(outside, a, b);
    if |segment| >= lenSegment {
      segment := segment[..lenSegment];
      assert segment == Candidate(outside, a, b, 0)[..lenSegment];
    } else {
      segment, conflicts := Assemble(segment, outside, a, b, lenSegment);
    }
    SegmentCounts(bankSrc, bankDst, dim, outside, a, b, conflicts, |segment|, lenSegment);
    SegmentMeets(bankSrc, bankDst, dim, outside, a, b, conflicts, |segment|, lenSegment);
    assert IsPrefixOf(segment, bankSrc, bankDst, dim, outside, a, b, conflicts);
    own := PrefixOfCandidate(bankSrc, bankDst, src, dst, dim, outside, a, b, conflicts, |segment|);
    if Avoidable(bankSrc, bankDst, dim, lenSegment) {
      ghost var other :| ConflictFree(other, bankSrc, bankDst, dim, lenSegment);
      ConflictFreeHasRoom(other, bankSrc, bankDst, src, dst, dim, outside, a, b, lenSegment);
    }
  }

  /** How many of the vectors are registers of both layouts. */
  ghost function CountShared(vectors: seq<set<nat>>, srcRegs: seq<set<nat>>, dstRegs: seq<set<nat>>): nat {
    if vectors == [] then 0 else
      CountShared(vectors[..|vectors| - 1], srcRegs, dstRegs)
      + if vectors[|vectors| - 1] in srcRegs && vectors[|vectors| - 1] in dstRegs then 1 else 0
  }

  lemma CountSharedSnoc(vectors: seq<set<nat>>, s: set<nat>, srcRegs: seq<set<nat>>, dstRegs: seq<set<nat>>)
    ensures CountShared(vectors + [s], srcRegs, dstRegs) ==
            CountShared(vectors, srcRegs, dstRegs) + if s in srcRegs && s in dstRegs then 1 else 0
  {
    assert (vectors + [s])[..|vectors|] == vectors;
  }

  /** `a` and `b` are what is left of `whole` when the other is taken out. */
  ghost predicate Splits<T>(whole: seq<T>, a: seq<T>, b: seq<T>) {
    if whole == [] then a == [] && b == []
    else
      var init, last := whole[..|whole| - 1], whole[|whole| - 1];
      || (a != [] && a[|a| - 1] == last && Splits(init, a[..|a| - 1], b))
      || (b != [] && b[|b| - 1] == last && Splits(init, a, b[..|b| - 1]))
  }

  lemma SplitsSnoc<T>(whole: seq<T>, a: seq<T>, b: seq<T>, x: T)
    requires Splits(whole, a, b)
    ensures Splits(whole + [x], a + [x], b) && Splits(whole + [x], a, b + [x])
  {
    assert (whole + [x])[..|whole|] == whole && (a + [x])[..|a|] == a && (b + [x])[..|b|] == b;
  }

  lemma LastOfMultiset<T>(s: seq<T>)
    requires s != []
    ensures multiset(s) == multiset(s[..|s| - 1]) + multiset{s[|s| - 1]}
  {
    assert s == s[..|s| - 1] + [s[|s| - 1]];
  }

  lemma {:induction false} SplitsMultiset<T>(whole: seq<T>, a: seq<T>, b: seq<T>)
    requires Splits(whole, a, b)
    ensures multiset(a) + multiset(b) == multiset(whole)
  {
    if whole != [] {
      var init := whole[..|whole| - 1];
      LastOfMultiset(whole);
      if a != [] && a[|a| - 1] == whole[|whole| - 1] && Splits(init, a[..|a| - 1], b) {
        SplitsMultiset(init, a[..|a| - 1], b);
        LastOfMultiset(a);
      } else {
        SplitsMultiset(init, a, b[..|b| - 1]);
        LastOfMultiset(b);
      }
    }
  }

  /** The last of these bases becomes a repetition: it is a register of both layouts, and `leaveReps` earlier ones
      are. */
  ghost predicate LastIsRep(bases: seq<set<nat>>, srcRegs: seq<set<nat>>, dstRegs: seq<set<nat>>, leaveReps: nat)
    requires bases != []
  {
    var last := |bases| - 1;
    && bases[last] in srcRegs && bases[last] in dstRegs
    && leaveReps <= CountShared(bases[..last], srcRegs, dstRegs)
  }

  /** The bases that become repetitions, or those that do not, in order. */
  ghost function Chosen(bases: seq<set<nat>>, srcRegs: seq<set<nat>>, dstRegs: seq<set<nat>>, leaveReps: nat,
                        asReps: bool): seq<set<nat>> {
    if bases == [] then [] else
      Chosen(bases[..|bases| - 1], srcRegs, dstRegs, leaveReps, asReps)
      + if LastIsRep(bases, srcRegs, dstRegs, leaveReps) == asReps then [bases[|bases| - 1]] else []
  }

  lemma ChosenSnoc(bases: seq<set<nat>>, s: set<nat>, srcRegs: seq<set<nat>>, dstRegs: seq<set<nat>>, leaveReps: nat)
    ensures var isRep := s in srcRegs && s in dstRegs && leaveReps <= CountShared(bases, srcRegs, dstRegs);
            forall asReps :: Chosen(bases + [s], srcRegs, dstRegs, leaveReps, asReps) ==
              Chosen(bases, srcRegs, dstRegs, leaveReps, asReps) + if isRep == asReps then [s] else []
  {
    assert (bases + [s])[..|bases|] == bases;
  }

  /** The two lists of bases before and after one more, the first of those that stay. */
  lemma ChosenLast(bases: seq<set<nat>>, srcRegs: seq<set<nat>>, dstRegs: seq<set<nat>>, leaveReps: nat)
      returns (segment: seq<set<nat>>, reps: seq<set<nat>>, isRep: bool)
    requires bases != []
    ensures var init, s := bases[..|bases| - 1], bases[|bases| - 1];
            && segment == Chosen(init, srcRegs, dstRegs, leaveReps, false)
            && reps == Chosen(init, srcRegs, dstRegs, leaveReps, true)
            && Chosen(bases, srcRegs, dstRegs, leaveReps, false) == segment + (if isRep then [] else [s])
            && Chosen(bases, srcRegs, dstRegs, leaveReps, true) == reps + (if isRep then [s] else [])
            && isRep == (s in srcRegs && s in dstRegs && leaveReps <= CountShared(init, srcRegs, dstRegs))
  {
    var init, s := bases[..|bases| - 1], bases[|bases| - 1];
    assert bases == init + [s];
    ChosenSnoc(init, s, srcRegs, dstRegs, leaveReps);
    segment := Chosen(init, srcRegs, dstRegs, leaveReps, false);
    reps := Chosen(init, srcRegs, dstRegs, leaveReps, true);
    isRep := s in srcRegs && s in dstRegs && leaveReps <= CountShared(init, srcRegs, dstRegs);
  }

  lemma {:induction false} ChosenSplits(bases: seq<set<nat>>, srcRegs: seq<set<nat>>, dstRegs: seq<set<nat>>,
                                        leaveReps: nat)
    ensures Splits(bases, Chosen(bases, srcRegs, dstRegs, leaveReps, false),
                   Chosen(bases, srcRegs, dstRegs, leaveReps, true))
    ensures forall s :: s in Chosen(bases, srcRegs, dstRegs, leaveReps, true) ==> s in srcRegs && s in dstRegs
  {
    if bases != [] {
      var init, s := bases[..|bases| - 1], bases[|bases| - 1];
      assert bases == init + [s];
      ChosenSplits(init, srcRegs, dstRegs, leaveReps);
      var segment, reps, isRep := ChosenLast(bases, srcRegs, dstRegs, leaveReps);
      SplitsSnoc(init, segment, reps, s);
      assert segment + [] == segment && reps + [] == reps;
    }
  }

  /** Of the registers of both layouts, the first `leaveReps` stay. */
  lemma {:induction false} ChosenKeeps(bases: seq<set<nat>>, srcRegs: seq<set<nat>>, dstRegs: seq<set<nat>>,
                                       leaveReps: nat)
    ensures LeftToKeep(Chosen(bases, srcRegs, dstRegs, leaveReps, false), srcRegs, dstRegs, leaveReps) ==
            LeftToKeep(bases, srcRegs, dstRegs, leaveReps)
    ensures CountShared(Chosen(bases, srcRegs, dstRegs, leaveReps, false), srcRegs, dstRegs) <= leaveReps
    ensures Chosen(bases, srcRegs, dstRegs, leaveReps, true) != [] ==> leaveReps <= CountShared(bases, srcRegs, dstRegs)
  {
    if bases != [] {
      var init, s := bases[..|bases| - 1], bases[|bases| - 1];
      assert bases == init + [s];
      ChosenKeeps(init, srcRegs, dstRegs, leaveReps);
      var segment, reps, isRep := ChosenLast(bases, srcRegs, dstRegs, leaveReps);
      CountSharedSnoc(init, s, srcRegs, dstRegs);
      CountSharedSnoc(segment, s, srcRegs, dstRegs);
      assert segment + [] == segment && reps + [] == reps;
    }
  }

  ghost function LeftToKeep(bases: seq<set<nat>>, srcRegs: seq<set<nat>>, dstRegs: seq<set<nat>>, leaveReps: nat): nat {
    var shared := CountShared(bases, srcRegs, dstRegs);
    if leaveReps <= shared then 0 else leaveReps - shared
  }

  /** Moves the segment bases that are registers of both layouts into their own dimension, except for the first
      `leaveReps` of them. */
  method BuildReps(srcRegs: seq<set<nat>>, dstRegs: seq<set<nat>>, smemSegment: seq<set<nat>>, leaveReps: nat)
    returns (segment: seq<set<nat>>, reps: seq<set<nat>>)
    ensures segment == Chosen(smemSegment, srcRegs, dstRegs, leaveReps, false)
    ensures reps == Chosen(smemSegment, srcRegs, dstRegs, leaveReps, true)
    ensures Splits(smemSegment, segment, reps)
    ensures forall s :: s in reps ==> s in srcRegs && s in dstRegs
    ensures CountShared(segment, srcRegs, dstRegs) <= leaveReps
    ensures reps != [] ==> CountShared(segment, srcRegs, dstRegs) == leaveReps
  {
    segment, reps := [], [];
    var left := leaveReps;
    for i := 0 to |smemSegment|
      invariant segment == Chosen(smemSegment[..i], srcRegs, dstRegs, leaveReps, false)
      invariant reps == Chosen(smemSegment[..i], srcRegs, dstRegs, leaveReps, true)
      invariant left == LeftToKeep(smemSegment[..i], srcRegs, dstRegs, leaveReps)
    {
      var s := smemSegment[i];
      assert smemSegment[..i + 1] == smemSegment[..i] + [s];
      CountSharedSnoc(smemSegment[..i], s, srcRegs, dstRegs);
      ChosenSnoc(smemSegment[..i], s, srcRegs, dstRegs, leaveReps);
      if s in srcRegs && s in dstRegs {
        if left > 0 {
          left := left - 1;
          segment := segment + [s];
        } else {
          reps := reps + [s];
        }
      } else {
        segment := segment + [s];
      }
    }
    assert smemSegment[..|smemSegment|] == smemSegment;
    ChosenSplits(smemSegment, srcRegs, dstRegs, leaveReps);
    ChosenKeeps(smemSegment, srcRegs, dstRegs, leaveReps);
  }

  /** 32 banks of 32 bits. */
  const BANK_BITS: nat := 1024

  /** The bank bases the code plans for: enough for one row of banks, or for all the elements. */
  function LenBank(vectorBases: nat, bitwidth: nat, dim: nat): nat
    requires 0 < Pow2(vectorBases) * bitwidth <= BANK_BITS && vectorBases <= dim
  {
    var n := FloorLog2(BANK_BITS / (Pow2(vectorBases) * bitwidth));
    if n < dim - vectorBases then n else dim - vectorBases
  }

  /** The bases fill one row of 32 banks of 32 bits, or the rest of the space. */
  ghost predicate FillsBanks(lenBbasis: nat, vectorBases: nat, bitwidth: nat, dim: nat) {
    && lenBbasis + vectorBases <= dim
    && Pow2(lenBbasis) * (Pow2(vectorBases) * bitwidth) <= 32 * 32
    && (lenBbasis + vectorBases == dim || 32 * 32 < Pow2(lenBbasis + 1) * (Pow2(vectorBases) * bitwidth))
  }

  lemma LenBankFills(vectorBases: nat, bitwidth: nat, dim: nat)
    requires 0 < Pow2(vectorBases) * bitwidth <= BANK_BITS && vectorBases <= dim
    ensures FillsBanks(LenBank(vectorBases, bitwidth, dim), vectorBases, bitwidth, dim)
  {
    var size := Pow2(vectorBases) * bitwidth;
    var quotient, n := BANK_BITS / size, LenBank(vectorBases, bitwidth, dim);
    DivisionSum(BANK_BITS, size);
    AtLeastOnce(BANK_BITS, size);
    PowersGrow(n, FloorLog2(quotient));
    Monotone(Pow2(n), quotient, size);
    if n + vectorBases != dim {
      Monotone(quotient + 1, Pow2(n + 1), size);
      Distribute(quotient, 1, size);
    }
  }

  lemma AtLeastOnce(x: int, size: int)
    requires 0 < size <= x
    ensures 1 <= x / size
  {
    if x / size < 1 {
      DivisionSum(x, size);
      Monotone(x / size, 0, size);
    }
  }

  lemma {:induction false} PowersGrow(n: nat, m: nat)
    requires n <= m
    ensures Pow2(n) <= Pow2(m)
    decreases m
  {
    if n < m {
      PowersGrow(n, m - 1);
    }
  }

  /** The segment bases it asks for. */
  function LenSegment(vectorBases: nat, bitwidth: nat, dim: nat): nat
    requires 0 < Pow2(vectorBases) * bitwidth <= BANK_BITS && vectorBases <= dim
  {
    dim - LenBank(vectorBases, bitwidth, dim) - vectorBases
  }

  /** The segment bases are independent of the vector bases, whose bits both banks share. */
  lemma UnionIndependent(vbasis: seq<set<nat>>, tileSrc: seq<set<nat>>, tileDst: seq<set<nat>>, sbasis: seq<set<nat>>,
                         own: seq<nat>)
    requires IsTile(vbasis + tileSrc) && Independent(vbasis) && OwnCoordinates(sbasis, own)
    requires forall i, e :: 0 <= i < |sbasis| && e in sbasis[i] ==>
               !({e} in vbasis + tileSrc && {e} in vbasis + tileDst)
    ensures Independent(vbasis + sbasis)
  {
    assert forall i :: 0 <= i < |vbasis| ==> vbasis[i] == (vbasis + tileSrc)[i];
    OwnCoordinatesIndependent(sbasis, own);
    forall v | InSpan(vbasis, v) && InSpan(sbasis, v) ensures v == {} {
      SpanOfTile(vbasis, v);
      var x :| Apply(sbasis, x) == v;
      forall e ensures e !in v {
        if {e} in vbasis {
          NoCoordinate(sbasis, e, x);
        }
      }
    }
    ConcatIndependent(vbasis, sbasis);
  }

  lemma PermutationFits(a: seq<set<nat>>, b: seq<set<nat>>, dim: nat)
    requires multiset(a) == multiset(b) && RowsFit(a, dim)
    ensures RowsFit(b, dim) && |a| == |b|
  {
    forall i | 0 <= i < |b| ensures Fits(b[i], dim) {
      assert b[i] in multiset(a);
    }
    assert |a| == |multiset(a)| && |b| == |multiset(b)|;
  }

  lemma SwizzleIsBasis(vbasis: seq<set<nat>>, sbasis: seq<set<nat>>, bbasis: seq<set<nat>>, coords: seq<nat>,
                       segment: seq<set<nat>>, reps: seq<set<nat>>, dim: nat)
    requires RowsFit(vbasis + sbasis, dim) && Independent(vbasis + sbasis)
    requires bbasis == Units(coords) && forall c :: c in coords ==> c < dim
    requires IsComplement(vbasis + sbasis, bbasis, dim) && Independent(bbasis)
    requires |vbasis + sbasis| + |bbasis| == dim
    requires multiset(segment + reps) == multiset(sbasis)
    ensures IsBasis(vbasis + bbasis + segment + reps, dim)
  {
    var before, swizzled := vbasis + sbasis + bbasis, vbasis + bbasis + segment + reps;
    ConcatIndependent(vbasis + sbasis, bbasis);
    forall i | 0 <= i < |before| ensures Fits(before[i], dim) {
      if i < |vbasis + sbasis| {
        assert before[i] == (vbasis + sbasis)[i];
      } else {
        assert coords[i - |vbasis + sbasis|] in coords;
      }
    }
    assert multiset(swizzled) == multiset(vbasis) + multiset(bbasis) + multiset(segment + reps);
    assert [] + before == before && [] + swizzled == swizzled;
    PermutationFits(before, swizzled, dim);
    PermutationIndependent([], before, swizzled);
  }

  lemma PermutationSpans(a: seq<set<nat>>, b: seq<set<nat>>)
    requires multiset(a) == multiset(b)
    ensures SameSpan(a, b)
  {
    forall v ensures v in a <==> v in b {
      assert v in multiset(a) <==> v in multiset(b);
    }
    SpanOfMembers(a, b);
    SpanOfMembers(b, a);
  }

  /** Reordering vectors does not change what their span meets. */
  lemma PermutationMeets(a: seq<set<nat>>, b: seq<set<nat>>, bank: seq<set<nat>>)
    requires multiset(a) == multiset(b) && MeetTrivially(a, bank)
    ensures MeetTrivially(b, bank)
  {
    PermutationSpans(a, b);
    forall v | InSpan(b, v) && InSpan(bank, v) ensures v == {} {
      GeneratesSpan(a, b, v);
    }
  }

  lemma PermutationMeetsLittle(a: seq<set<nat>>, b: seq<set<nat>>, bankSrc: seq<set<nat>>, bankDst: seq<set<nat>>,
                               dim: nat, n: nat)
    requires multiset(a) == multiset(b) && MeetsLittle(a, bankSrc, bankDst, dim, n)
    ensures MeetsLittle(b, bankSrc, bankDst, dim, n)
  {
    assert |a| == |multiset(a)| && |b| == |multiset(b)|;
    PermutationSpans(a, b);
    var k := Unavoidable(|a|, bankSrc, bankDst, dim);
    SameSpanMeets(a, b, bankSrc, k);
    SameSpanMeets(a, b, bankDst, k);
  }

  /** No conflict where it can be avoided, after the segment was split up. */
  ghost predicate AvoidsIfPossible(vectors: seq<set<nat>>, bankSrc: seq<set<nat>>, bankDst: seq<set<nat>>, dim: nat,
                                   n: nat) {
    Avoidable(bankSrc, bankDst, dim, n) ==>
      |vectors| == n && MeetTrivially(vectors, bankSrc) && MeetTrivially(vectors, bankDst)
  }

  lemma PermutationAvoids(a: seq<set<nat>>, b: seq<set<nat>>, bankSrc: seq<set<nat>>, bankDst: seq<set<nat>>, dim: nat,
                          n: nat)
    requires multiset(a) == multiset(b)
    requires Avoidable(bankSrc, bankDst, dim, n) ==> ConflictFree(a, bankSrc, bankDst, dim, n)
    ensures AvoidsIfPossible(b, bankSrc, bankDst, dim, n)
  {
    assert |a| == |multiset(a)| && |b| == |multiset(b)|;
    if Avoidable(bankSrc, bankDst, dim, n) {
      PermutationMeets(a, b, bankSrc);
      PermutationMeets(a, b, bankDst);
    }
  }

  /** The parts put together, from what is known of each. */
  lemma PartsTogether(vbasis: seq<set<nat>>, tileSrc: seq<set<nat>>, tileDst: seq<set<nat>>, sbasis: seq<set<nat>>,
                      own: seq<nat>, bbasis: seq<set<nat>>, coords: seq<nat>, segment: seq<set<nat>>,
                      reps: seq<set<nat>>, dim: nat)
    requires IsTile(vbasis + tileSrc) && Independent(vbasis) && RowsFit(vbasis + sbasis, dim)
    requires OwnCoordinates(sbasis, own)
    requires forall i, e :: 0 <= i < |sbasis| && e in sbasis[i] ==>
      !({e} in vbasis + tileSrc && {e} in vbasis + tileDst)
    requires bbasis == Units(coords) && (forall c :: c in coords ==> c < dim)
    requires IsComplement(vbasis + sbasis, bbasis, dim) && Independent(bbasis)
    requires Independent(vbasis + sbasis) ==> |vbasis + sbasis| + |bbasis| == dim
    requires Splits(sbasis, segment, reps)
    ensures |vbasis| + |bbasis| + |segment| + |reps| == dim && |segment| + |reps| == |sbasis|
    ensures IsBasis(vbasis + bbasis + segment + reps, dim) && multiset(segment + reps) == multiset(sbasis)
  {
    UnionIndependent(vbasis, tileSrc, tileDst, sbasis, own);
    SplitsMultiset(sbasis, segment, reps);
    SwizzleIsBasis(vbasis, sbasis, bbasis, coords, segment, reps, dim);
    assert |segment + reps| == |multiset(segment + reps)| == |multiset(sbasis)| == |sbasis|;
  }

  /** The swizzled layout: bases of the vector, bank, segment and repetition dimensions. Together they are a basis of
      the whole space, so that every element has exactly one place; the segments and repetitions meet the banks in few
      dimensions, and the bank gets the bases planned for it and those the segment could not use. */
  method OptimalSwizzling(srcRegs: seq<set<nat>>, dstRegs: seq<set<nat>>, bitwidth: nat, vbasis: seq<set<nat>>,
                          tileSrc: seq<set<nat>>, tileDst: seq<set<nat>>, dim: nat, leaveReps: nat)
    returns (bbasis: seq<set<nat>>, segment: seq<set<nat>>, reps: seq<set<nat>>, ghost sbasis: seq<set<nat>>)
    requires IsTile(vbasis + tileSrc) && IsTile(vbasis + tileDst)
    requires RowsFit(vbasis + tileSrc, dim) && RowsFit(vbasis + tileDst, dim)
    requires Independent(vbasis) && |vbasis| <= dim
    requires 0 < Pow2(|vbasis|) * bitwidth <= BANK_BITS
    ensures IsBasis(vbasis + bbasis + segment + reps, dim)
    ensures FollowsLists(sbasis, vbasis + tileSrc, vbasis + tileDst, dim) && Splits(sbasis, segment, reps)
    ensures segment == Chosen(sbasis, srcRegs, dstRegs, leaveReps, false)
    ensures reps == Chosen(sbasis, srcRegs, dstRegs, leaveReps, true)
    ensures exists coords: seq<nat> :: bbasis == Units(coords) && AreBeside(coords, vbasis + sbasis, dim)
    ensures FillsBanks(LenBank(|vbasis|, bitwidth, dim), |vbasis|, bitwidth, dim)
    ensures var lenBbasis := LenBank(|vbasis|, bitwidth, dim);
            var lenSbasis := LenSegment(|vbasis|, bitwidth, dim);
            && |segment| + |reps| <= lenSbasis
            && |bbasis| == lenBbasis + (lenSbasis - (|segment| + |reps|))
            && MeetsLittle(segment + reps, vbasis + tileSrc, vbasis + tileDst, dim, lenSbasis)
            && AvoidsIfPossible(segment + reps, vbasis + tileSrc, vbasis + tileDst, dim, lenSbasis)
  {
    var lenBbasis := LenBank(|vbasis|, bitwidth, dim);
    var lenSbasis := LenSegment(|vbasis|, bitwidth, dim);
    ghost var own, coords;
    var segmentBases;
    segmentBases, own := ComputeSegment(vbasis + tileSrc, vbasis + tileDst, dim, lenSbasis);
    sbasis := segmentBases;
    LenBankFills(|vbasis|, bitwidth, dim);
    assert forall i :: 0 <= i < |vbasis| ==> vbasis[i] == (vbasis + tileSrc)[i];
    bbasis, coords := ComplementBasis(vbasis + segmentBases, dim);
    segment, reps := BuildReps(srcRegs, dstRegs, segmentBases, leaveReps);
    PartsTogether(vbasis, tileSrc, tileDst, sbasis, own, bbasis, coords, segment, reps, dim);
    PermutationMeetsLittle(sbasis, segment + reps, vbasis + tileSrc, vbasis + tileDst, dim, lenSbasis);
    PermutationAvoids(sbasis, segment + reps, vbasis + tileSrc, vbasis + tileDst, dim, lenSbasis);
  }
}
