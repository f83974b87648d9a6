/** Converting between two layouts inside a warp: the permutation of register and lane bits, built with
    `invertAndCompose`, and its factors. */
module WarpConversion {
  import opened Arithmetic
  import opened F2
  import opened LeastSquares
  import opened LinearLayouts
  import opened LayoutInverse
  import opened BitPermutation
  import opened CycleWalk

  const REG := "register"
  const LANE := "lane"

  /** A layout of registers and lanes that is a permutation matrix with zero columns inserted. */
  ghost predicate WarpLayout(layout: LinearLayout) {
    && layout.WellFormed() && layout.ins == [REG, LANE]
    && (forall b :: layout.Basis(b) == {} || exists k :: layout.Basis(b) == {k})
    && (forall b, c :: b != c && layout.Basis(b) != {} ==> layout.Basis(b) != layout.Basis(c))
  }

  ghost predicate HasBasis(layout: LinearLayout, v: set<Bit>) {
    exists b :: layout.Basis(b) == v
  }

  /** The layouts hold the same elements of the same tensor. */
  ghost predicate SameElements(src: LinearLayout, dst: LinearLayout) {
    && src.outs == dst.outs && src.outLog2 == dst.outLog2
    && forall v :: v != {} ==> (HasBasis(src, v) <==> HasBasis(dst, v))
  }

  ghost predicate Convertible(src: LinearLayout, dst: LinearLayout) {
    WarpLayout(src) && WarpLayout(dst) && SameElements(src, dst)
  }

  /** The register bits and then the lane bits of the larger of the layouts. */
  function WarpBits(src: LinearLayout, dst: LinearLayout): seq<Bit> {
    DimBits(REG, Max(src.InLog2(REG), dst.InLog2(REG))) + DimBits(LANE, Max(src.InLog2(LANE), dst.InLog2(LANE)))
  }

  // ----- Padding

  /** Pads one dimension with zero vectors. */
  method PadDim(dimBases: seq<set<Bit>>, dimSize: nat) returns (padded: seq<set<Bit>>)
    requires |dimBases| <= dimSize
    ensures |padded| == dimSize
    ensures forall i :: 0 <= i < dimSize ==> padded[i] == if i < |dimBases| then dimBases[i] else {}
  {
    padded := dimBases;
    for k := |dimBases| to dimSize
      invariant |padded| == k
      invariant forall i :: 0 <= i < k ==> padded[i] == if i < |dimBases| then dimBases[i] else {}
    {
      padded := padded + [{}];
    }
  }

  /** The same map on more registers and lanes. */
  ghost predicate IsPadded(layout: LinearLayout, r: LinearLayout, nReg: nat, nLane: nat) {
    && r.WellFormed() && r.ins == [REG, LANE] && r.outs == layout.outs && r.outLog2 == layout.outLog2
    && r.InLog2(REG) == nReg && r.InLog2(LANE) == nLane
    && forall b :: r.Basis(b) == layout.Basis(b)
  }

  method PadWithZeros(layout: LinearLayout, nReg: nat, nLane: nat) returns (r: LinearLayout)
    requires WarpLayout(layout) && layout.InLog2(REG) <= nReg && layout.InLog2(LANE) <= nLane
    ensures IsPadded(layout, r, nReg, nLane)
  {
    var reg := PadDim(layout.bases[REG], nReg);
    var lane := PadDim(layout.bases[LANE], nLane);
    r := layout.(bases := map[REG := reg, LANE := lane]);
    forall b ensures r.Basis(b) == layout.Basis(b) {
    }
    forall d, i | d in r.bases && 0 <= i < |r.bases[d]| ensures r.IsOutput(r.bases[d][i]) {
      assert r.Basis(Bit(d, i)) == r.bases[d][i];
      BasisIsOutput(layout, Bit(d, i));
    }
  }

  lemma PaddedConvertible(src: LinearLayout, dst: LinearLayout, s: LinearLayout, t: LinearLayout, nReg: nat, nLane: nat)
    requires Convertible(src, dst) && IsPadded(src, s, nReg, nLane) && IsPadded(dst, t, nReg, nLane)
    ensures Convertible(s, t)
  {
    forall v ensures HasBasis(s, v) <==> HasBasis(src, v) {
      if HasBasis(src, v) {
        var b :| src.Basis(b) == v;
        assert s.Basis(b) == v;
      }
    }
    forall v ensures HasBasis(t, v) <==> HasBasis(dst, v) {
      if HasBasis(dst, v) {
        var b :| dst.Basis(b) == v;
        assert t.Basis(b) == v;
      }
    }
  }

  lemma PaddedBits(src: LinearLayout, dst: LinearLayout, s: LinearLayout, nReg: nat, nLane: nat)
    requires nReg == Max(src.InLog2(REG), dst.InLog2(REG)) && nLane == Max(src.InLog2(LANE), dst.InLog2(LANE))
    requires s.ins == [REG, LANE] && s.InLog2(REG) == nReg && s.InLog2(LANE) == nLane
    ensures InBits(s, s.ins) == WarpBits(src, dst)
  {
    assert s.ins[..1] == [REG] && [REG][..0] == [];
    assert InBits(s, [REG]) == DimBits(REG, nReg);
  }

  // ----- The skeleton

  /** Layouts with the same numbers of registers and lanes. */
  ghost predicate SameShape(s: LinearLayout, t: LinearLayout) {
    forall d :: s.InLog2(d) == t.InLog2(d)
  }

  lemma FreeBitsAgree(s: LinearLayout, t: LinearLayout)
    requires Convertible(s, t) && SameShape(s, t)
    ensures FreeBits(s, t, s) == FreeBits(s, t, t) && NoDuplicates(FreeBits(s, t, s))
    ensures forall b :: b in FreeBits(s, t, s) <==>
      b.dim in s.ins && b.pos < s.InLog2(b.dim) && !IsIdentityDim(s, t, b.dim)
  {
    SameInBits(s, t, NonIdentity(s, t, s.ins));
    NonIdentityIs(s, t, s.ins);
    InBitsAre(s, NonIdentity(s, t, s.ins));
  }

  lemma SharedBasis(s: LinearLayout, t: LinearLayout, b: Bit)
    ensures IsIdentityDim(s, t, b.dim) ==> s.Basis(b) == t.Basis(b)
  {
  }

  /** What stands in a dimension left to solve for has its counterpart in one of those dimensions. */
  lemma Counterpart(s: LinearLayout, t: LinearLayout, b: Bit) returns (j: nat)
    requires Convertible(s, t) && SameShape(s, t) && b in FreeBits(s, t, s) && s.Basis(b) != {}
    ensures j < |FreeBits(s, t, t)| && t.Basis(FreeBits(s, t, t)[j]) == s.Basis(b)
  {
    FreeBitsAgree(s, t);
    assert HasBasis(s, s.Basis(b));
    assert HasBasis(t, s.Basis(b));
    var e :| t.Basis(e) == s.Basis(b);
    assert t.HasIn(e);
    SharedBasis(s, t, e);
    assert e in FreeBits(s, t, t);
    j :| 0 <= j < |FreeBits(s, t, t)| && FreeBits(s, t, t)[j] == e;
  }

  /** Without output dimensions all bases are zero, so that the layouts share every dimension. */
  lemma {:induction false} NothingToSolve(s: LinearLayout, t: LinearLayout, dims: seq<string>)
    requires Convertible(s, t) && SameShape(s, t) && s.outs == [] && forall d :: d in dims ==> d in s.ins
    ensures NonIdentity(s, t, dims) == []
  {
    if dims != [] {
      var d := dims[|dims| - 1];
      NothingToSolve(s, t, dims[..|dims| - 1]);
      assert d in dims && s.InLog2(d) == t.InLog2(d);
      forall i | 0 <= i < |s.bases[d]| ensures s.bases[d][i] == t.bases[d][i] {
        NoOutputs(s, s.bases[d][i]);
        NoOutputs(t, t.bases[d][i]);
      }
      assert s.bases[d] == t.bases[d];
    }
  }

  lemma NoOutputs(layout: LinearLayout, y: set<Bit>)
    requires layout.WellFormed() && layout.outs == [] && layout.IsOutput(y)
    ensures y == {}
  {
  }

  /** Two such layouts can always be inverted and composed, whatever dimensions are taken out first. */
  lemma ConvertibleSolvable(s: LinearLayout, t: LinearLayout)
    requires Convertible(s, t) && SameShape(s, t)
    ensures Compatible(s, t) && Solvable(s, t)
  {
    FreeBitsAgree(s, t);
    if s.outs == [] {
      NothingToSolve(s, t, s.ins);
    }
    var tf, sf := Columns(t, FreeBits(s, t, t)), Columns(s, FreeBits(s, t, s));
    forall k | 0 <= k < |sf| ensures InSpan(tf, sf[k]) {
      var b := FreeBits(s, t, s)[k];
      if s.Basis(b) == {} {
        SpanOfZero(tf);
      } else {
        var j := Counterpart(s, t, b);
        SpanOfMember(tf, j);
      }
    }
  }

  lemma ColumnsSubpermutation(layout: LinearLayout, bits: seq<Bit>)
    requires WarpLayout(layout) && NoDuplicates(bits)
    ensures Subpermutation(Columns(layout, bits))
  {
  }

  /** The solution column of a bit that was solved for. */
  lemma SolvedColumn(s: LinearLayout, t: LinearLayout, xs: seq<set<nat>>, bits: seq<Bit>, k: nat)
    requires Convertible(s, t) && SameShape(s, t) && bits == FreeBits(s, t, t) == FreeBits(s, t, s)
    requires NoDuplicates(bits)
    requires Solves(Columns(t, bits), Columns(s, bits), xs) && k < |bits|
    ensures s.Basis(bits[k]) == {} ==> xs[k] == {}
    ensures s.Basis(bits[k]) != {} ==>
      exists j :: 0 <= j < |bits| && t.Basis(bits[j]) == s.Basis(bits[k]) && xs[k] == {j}
  {
    ColumnsSubpermutation(t, bits);
    SolutionIsSkeleton(Columns(s, bits), Columns(t, bits), xs, k);
    if s.Basis(bits[k]) != {} {
      var j := Counterpart(s, t, bits[k]);
      assert Columns(t, bits)[j] == Columns(s, bits)[k];
    }
  }

  /** Where bit `b` of the source goes before the zero columns are filled. */
  ghost predicate Points(s: LinearLayout, t: LinearLayout, r: LinearLayout, b: Bit) {
    if s.Basis(b) == {} then r.Basis(b) == {} || (t.Basis(b) == {} && r.Basis(b) == {b})
    else exists e :: t.HasIn(e) && t.Basis(e) == s.Basis(b) && r.Basis(b) == {e}
  }

  lemma PointsTo(s: LinearLayout, t: LinearLayout, r: LinearLayout, b: Bit, bits: seq<Bit>, x: set<nat>)
    requires r.Basis(b) == Unflatten(bits, x) && forall e :: e in bits ==> t.HasIn(e)
    requires s.Basis(b) == {} ==> x == {}
    requires s.Basis(b) != {} ==> exists j :: 0 <= j < |bits| && t.Basis(bits[j]) == s.Basis(b) && x == {j}
    ensures Points(s, t, r, b)
  {
    if s.Basis(b) != {} {
      var j :| 0 <= j < |bits| && t.Basis(bits[j]) == s.Basis(b) && x == {j};
      assert Unflatten(bits, {j}) == {bits[j]};
      assert bits[j] in bits;
    }
  }

  lemma SolvedPoints(s: LinearLayout, t: LinearLayout, xs: seq<set<nat>>, r: LinearLayout, b: Bit)
    requires Convertible(s, t) && SameShape(s, t) && Built(s, t, xs, r) && s.HasIn(b) && !IsIdentityDim(s, t, b.dim)
    requires Solves(Columns(t, FreeBits(s, t, t)), Columns(s, FreeBits(s, t, s)), xs)
    ensures Points(s, t, r, b)
  {
    ConvertibleSolvable(s, t);
    FreeBitsAgree(s, t);
    var k := SolvedBasis(s, t, xs, r, b.dim, b.pos);
    SolvedColumn(s, t, xs, FreeBits(s, t, t), k);
    assert r.Basis(b) == Unflatten(FreeBits(s, t, t), xs[k]);
    PointsTo(s, t, r, b, FreeBits(s, t, t), xs[k]);
  }

  lemma SkeletonPoints(s: LinearLayout, t: LinearLayout, xs: seq<set<nat>>, r: LinearLayout, b: Bit)
    requires Convertible(s, t) && SameShape(s, t) && Built(s, t, xs, r) && s.HasIn(b)
    requires Solves(Columns(t, FreeBits(s, t, t)), Columns(s, FreeBits(s, t, s)), xs)
    ensures Points(s, t, r, b)
  {
    if IsIdentityDim(s, t, b.dim) {
      assert r.Basis(b) == {b} && t.Basis(b) == s.Basis(b) && t.HasIn(b);
    } else {
      SolvedPoints(s, t, xs, r, b);
    }
  }

  /** The columns of the skeleton in flattened order. */
  function SkeletonColumns(bits: seq<Bit>, r: LinearLayout): seq<set<nat>> {
    seq(|bits|, k requires 0 <= k < |bits| => Flatten(bits, r.Basis(bits[k])))
  }

  lemma FlattenBit(bits: seq<Bit>, j: nat)
    requires NoDuplicates(bits) && j < |bits|
    ensures Flatten(bits, {bits[j]}) == {j} && Flatten(bits, {}) == {}
  {
  }

  lemma SkeletonColumn(s: LinearLayout, t: LinearLayout, xs: seq<set<nat>>, r: LinearLayout, bits: seq<Bit>, i: nat)
    requires Convertible(s, t) && SameShape(s, t) && Built(s, t, xs, r) && bits == InBits(s, s.ins) && i < |bits|
    requires Solves(Columns(t, FreeBits(s, t, t)), Columns(s, FreeBits(s, t, s)), xs)
    ensures SkeletonAt(Columns(s, bits), Columns(t, bits), SkeletonColumns(bits, r), i)
  {
    InBitsAre(s, s.ins);
    assert bits[i] in bits;
    FlattenBit(bits, i);
    SkeletonPoints(s, t, xs, r, bits[i]);
    if s.Basis(bits[i]) != {} {
      var e :| t.HasIn(e) && t.Basis(e) == s.Basis(bits[i]) && r.Basis(bits[i]) == {e};
      assert e.pos < s.InLog2(e.dim) == t.InLog2(e.dim);
      assert e in bits;
      var j :| 0 <= j < |bits| && bits[j] == e;
      FlattenBit(bits, j);
      assert Columns(t, bits)[j] == Columns(s, bits)[i];
    }
  }

  lemma ColumnOf(layout: LinearLayout, bits: seq<Bit>, v: set<Bit>)
    requires layout.WellFormed() && bits == InBits(layout, layout.ins) && v != {}
    ensures v in Columns(layout, bits) <==> HasBasis(layout, v)
  {
    InBitsAre(layout, layout.ins);
    if HasBasis(layout, v) {
      var b :| layout.Basis(b) == v;
      assert layout.HasIn(b);
      assert b in bits;
      var k :| 0 <= k < |bits| && bits[k] == b;
      assert Columns(layout, bits)[k] == v;
    }
  }

  lemma ColumnsSameImage(s: LinearLayout, t: LinearLayout, bits: seq<Bit>)
    requires Convertible(s, t) && bits == InBits(s, s.ins) == InBits(t, t.ins)
    ensures SameImage(Columns(s, bits), Columns(t, bits))
  {
    forall v: set<Bit> | v != {} ensures v in Columns(s, bits) <==> v in Columns(t, bits) {
      ColumnOf(s, bits, v);
      ColumnOf(t, bits, v);
    }
  }

  // ----- The permutation and its factors

  /** From padded layouts. */
  method FillSkeleton(s: LinearLayout, t: LinearLayout) returns (p: seq<nat>)
    requires Convertible(s, t) && SameShape(s, t)
    ensures Fills(Columns(s, InBits(s, s.ins)), Columns(t, InBits(s, s.ins)), p)
    ensures Carries(Columns(s, InBits(s, s.ins)), Columns(t, InBits(s, s.ins)), p)
  {
    ConvertibleSolvable(s, t);
    var pBases, xs := InvertAndCompose(s, t);
    var bits := InBits(s, s.ins);
    var x := SkeletonColumns(bits, pBases.value);
    forall i | 0 <= i < |bits| ensures SkeletonAt(Columns(s, bits), Columns(t, bits), x, i) {
      SkeletonColumn(s, t, xs, pBases.value, bits, i);
    }
    SameInBits(s, t, s.ins);
    InBitsAre(s, s.ins);
    ColumnsSubpermutation(s, bits);
    ColumnsSubpermutation(t, bits);
    ColumnsSameImage(s, t, bits);
    p := FillZeros(Columns(s, bits), Columns(t, bits), x, s.InLog2(REG));
  }

  /** The permutation of the bits of the padded layouts: a bit with a basis goes where the destination has that basis, a
      bit without one on both sides stays, and the others are paired off in order. Inverting always succeeds, and which
      dimensions it took out leaves no trace. */
  method BuildPermutation(src: LinearLayout, dst: LinearLayout) returns (p: seq<nat>)
    requires Convertible(src, dst)
    ensures Fills(Columns(src, WarpBits(src, dst)), Columns(dst, WarpBits(src, dst)), p)
    ensures Carries(Columns(src, WarpBits(src, dst)), Columns(dst, WarpBits(src, dst)), p)
  {
    var nReg, nLane := Max(src.InLog2(REG), dst.InLog2(REG)), Max(src.InLog2(LANE), dst.InLog2(LANE));
    var s, t := src, dst;
    if src.InLog2(REG) != dst.InLog2(REG) || src.InLog2(LANE) != dst.InLog2(LANE) {
      s := PadWithZeros(src, nReg, nLane);
      t := PadWithZeros(dst, nReg, nLane);
    }
    PaddedConvertible(src, dst, s, t, nReg, nLane);
    PaddedBits(src, dst, s, nReg, nLane);
    assert SameShape(s, t);
    p := FillSkeleton(s, t);
    var bits := WarpBits(src, dst);
    assert Columns(s, bits) == Columns(src, bits) && Columns(t, bits) == Columns(dst, bits);
  }

  /** Where a bit ends after the register permutation, the lane permutation and the swaps. */
  function Through(nReg: nat, reg: seq<nat>, lane: seq<nat>, mixed: seq<(nat, nat)>, f: nat): nat {
    ThroughMixed(nReg, mixed, ThroughLane(nReg, lane, ThroughReg(nReg, reg, f)))
  }

  /** The decomposition: after the register permutation, the lane permutation and the swaps, every bit of the source
      stands where the destination has the same basis. */
  method Decompose(src: LinearLayout, dst: LinearLayout) returns (reg: seq<nat>, lane: seq<nat>, mixed: seq<(nat, nat)>)
    requires Convertible(src, dst)
    ensures |reg| == Max(src.InLog2(REG), dst.InLog2(REG)) && |reg| + |lane| == |WarpBits(src, dst)|
    ensures IsPermutation(reg) && IsPermutation(lane) && Disjoint(|reg|, |lane|, mixed)
    ensures forall f :: 0 <= f < |WarpBits(src, dst)| ==>
      var g := Through(|reg|, reg, lane, mixed, f);
      g < |WarpBits(src, dst)| && dst.Basis(WarpBits(src, dst)[g]) == src.Basis(WarpBits(src, dst)[f])
    ensures forall x :: Fits(x, |WarpBits(src, dst)|) ==> Converts(src, dst, reg, lane, mixed, x)
  {
    var bits := WarpBits(src, dst);
    var p := BuildPermutation(src, dst);
    var visited;
    reg, lane, mixed, visited := FactorPermutation(p, Max(src.InLog2(REG), dst.InLog2(REG)));
    forall f | 0 <= f < |bits|
      ensures p[f] == Through(|reg|, reg, lane, mixed, f) && dst.Basis(bits[p[f]]) == src.Basis(bits[f]) {
      assert Columns(dst, bits)[p[f]] == Columns(src, bits)[f];
    }
    forall x | Fits(x, |bits|) ensures Converts(src, dst, reg, lane, mixed, x) {
      PermutationConverts(src, dst, p, reg, lane, mixed, x);
    }
  }

  /** The point of the padded layouts whose flat form is `x`, and the one the factors take it to, are the same element
      of the tensor. */
  ghost predicate Converts(src: LinearLayout, dst: LinearLayout, reg: seq<nat>, lane: seq<nat>, mixed: seq<(nat, nat)>,
                           x: set<nat>) {
    var bits := WarpBits(src, dst);
    dst.Apply(Unflatten(bits, set f | f in x :: Through(|reg|, reg, lane, mixed, f))) == src.Apply(Unflatten(bits, x))
  }

  lemma PermutationConverts(src: LinearLayout, dst: LinearLayout, p: seq<nat>, reg: seq<nat>, lane: seq<nat>,
                            mixed: seq<(nat, nat)>, x: set<nat>)
    requires Carries(Columns(src, WarpBits(src, dst)), Columns(dst, WarpBits(src, dst)), p)
    requires forall f :: 0 <= f < |p| ==> p[f] == Through(|reg|, reg, lane, mixed, f)
    requires Fits(x, |WarpBits(src, dst)|)
    ensures Converts(src, dst, reg, lane, mixed, x)
  {
    var bits := WarpBits(src, dst);
    PermutedApply(Columns(src, bits), Columns(dst, bits), p, x);
    WarpBitsDiffer(src, dst);
    FlatApply(src, bits, x);
    assert (set f | f in x :: Through(|reg|, reg, lane, mixed, f)) == Permuted(p, x);
    FlatApply(dst, bits, Permuted(p, x));
  }

  lemma WarpBitsDiffer(src: LinearLayout, dst: LinearLayout)
    ensures NoDuplicates(WarpBits(src, dst))
  {
  }
}
