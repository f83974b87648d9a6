/** Reshaping the output dimensions of a layout: the same bits in the same order under other names. */
module OutputReshape {
  import opened F2
  import opened FlatNumbers
  import opened LinearLayouts

  // ----- One basis of a layout

  /** The coordinates of a vector in one dimension. */
  function Coordinates(y: set<Bit>, d: string): set<nat> {
    set b | b in y && b.dim == d :: b.pos
  }

  ghost function AllCoordinates(y: set<Bit>, dims: seq<string>): seq<set<nat>> {
    seq(|dims|, k requires 0 <= k < |dims| => Coordinates(y, dims[k]))
  }

  lemma {:induction false} BitsLength(layout: LinearLayout, dims: seq<string>, k: nat)
    requires k <= |dims|
    ensures |OutBits(layout, dims[..k])| == Offset(Widths(dims, layout.outLog2), k)
  {
    if k > 0 {
      BitsLength(layout, dims, k - 1);
      assert dims[..k][..k - 1] == dims[..k - 1];
    }
  }

  lemma FlattenSnoc(bits: seq<Bit>, more: seq<Bit>, y: set<Bit>)
    ensures Flatten(bits + more, y) == Flatten(bits, y) + Shift(Flatten(more, y), |bits|)
  {
    forall k: nat ensures k in Flatten(bits + more, y) <==> k in Flatten(bits, y) + Shift(Flatten(more, y), |bits|) {
      if k in Flatten(bits + more, y) && k >= |bits| {
        assert k - |bits| in Flatten(more, y);
      }
    }
  }

  lemma FlattenDim(d: string, n: nat, y: set<Bit>)
    requires forall b :: b in y && b.dim == d ==> b.pos < n
    ensures Flatten(DimBits(d, n), y) == Coordinates(y, d)
  {
    forall k: nat ensures k in Flatten(DimBits(d, n), y) <==> k in Coordinates(y, d) {
      if k in Flatten(DimBits(d, n), y) {
        assert Bit(d, k) in y;
      }
    }
  }

  /** The flat vector of a basis is made of its coordinates side by side. */
  lemma {:induction false} FlattenJoins(layout: LinearLayout, dims: seq<string>, y: set<Bit>, k: nat)
    requires k <= |dims| && layout.IsOutput(y)
    ensures Flatten(OutBits(layout, dims[..k]), y) ==
            Joined(AllCoordinates(y, dims), Widths(dims, layout.outLog2), k)
  {
    if k > 0 {
      var init, d := dims[..k - 1], dims[k - 1];
      assert dims[..k][..k - 1] == init;
      FlattenJoins(layout, dims, y, k - 1);
      BitsLength(layout, dims, k - 1);
      FlattenSnoc(OutBits(layout, init), DimBits(d, layout.OutLog2(d)), y);
      FlattenDim(d, layout.OutLog2(d), y);
    }
  }

  lemma CoordinatesOfUnflattened(bits: seq<Bit>, v: set<nat>, d: string, lo: nat, n: nat, p: nat)
    requires NoDuplicates(bits) && lo + n <= |bits| && forall p: nat :: p < n ==> bits[lo + p] == Bit(d, p)
    requires forall b :: b in bits && b.dim == d ==> b.pos < n
    ensures p in Coordinates(Unflatten(bits, v), d) <==> p < n && lo + p in v
  {
    if p < n && lo + p in v {
      assert bits[lo + p] == Bit(d, p);
      assert Bit(d, p) in Unflatten(bits, v);
    }
    if p in Coordinates(Unflatten(bits, v), d) {
      var j :| j in v && j < |bits| && bits[j] == Bit(d, p);
      assert Bit(d, p) in bits && bits[lo + p] == Bit(d, p);
    }
  }

  lemma LowHighHas(x: set<nat>, lo: nat, n: nat, p: nat)
    ensures p in Low(High(x, lo), n) <==> p < n && lo + p in x
  {
    assert lo + p in x ==> lo + p - lo in High(x, lo);
  }

  /** The coordinates of an unflattened vector are slices of the flat one. */
  lemma SliceIsCoordinates(layout: LinearLayout, dims: seq<string>, v: set<nat>, k: nat)
    requires NoDuplicates(dims) && k < |dims|
    ensures Coordinates(Unflatten(OutBits(layout, dims), v), dims[k]) == Slice(v, Widths(dims, layout.outLog2), k)
  {
    OutBitsAre(layout, dims);
    BitsAt(layout, dims, k);
    var widths := Widths(dims, layout.outLog2);
    var coordinates, slice := Coordinates(Unflatten(OutBits(layout, dims), v), dims[k]), Slice(v, widths, k);
    forall p: nat ensures p in coordinates <==> p in slice {
      CoordinatesOfUnflattened(OutBits(layout, dims), v, dims[k], Offset(widths, k), widths[k], p);
      LowHighHas(v, Offset(widths, k), widths[k], p);
    }
  }

  /** Where the bits of a dimension stand in the flattened order. */
  lemma {:induction false} BitsAt(layout: LinearLayout, dims: seq<string>, k: nat)
    requires k < |dims|
    ensures var lo, n := Offset(Widths(dims, layout.outLog2), k), layout.OutLog2(dims[k]);
            && lo + n <= |OutBits(layout, dims)|
            && forall p: nat :: p < n ==> OutBits(layout, dims)[lo + p] == Bit(dims[k], p)
    decreases |dims|
  {
    var m := |dims| - 1;
    BitsLength(layout, dims, m);
    if k < m {
      BitsAt(layout, dims[..m], k);
      OffsetPrefix(dims, layout.outLog2, m, k);
    }
  }

  lemma {:induction false} OffsetPrefix(dims: seq<string>, log2: map<string, nat>, m: nat, k: nat)
    requires k <= m <= |dims|
    ensures Offset(Widths(dims[..m], log2), k) == Offset(Widths(dims, log2), k)
  {
    if k > 0 {
      OffsetPrefix(dims, log2, m, k - 1);
    }
  }

  // ----- Reshaping the outputs

  /** The flattened order of all output bits. */
  ghost function FlatOuts(layout: LinearLayout): seq<Bit> {
    OutBits(layout, layout.outs)
  }

  /** The vector with the same flat form among the outputs of `r`. */
  ghost function Moved(layout: LinearLayout, r: LinearLayout, y: set<Bit>): set<Bit> {
    Unflatten(FlatOuts(r), Flatten(FlatOuts(layout), y))
  }

  ghost predicate SameSize(layout: LinearLayout, r: LinearLayout) {
    && NoDuplicates(layout.outs) && NoDuplicates(r.outs) && |FlatOuts(layout)| == |FlatOuts(r)|
    && (forall d :: d in layout.outLog2 <==> d in layout.outs) && (forall d :: d in r.outLog2 <==> d in r.outs)
  }

  /** `r` has the inputs of `layout` and, up to the naming of the bits, its bases. */
  ghost predicate ReshapesOuts(layout: LinearLayout, r: LinearLayout) {
    && SameSize(layout, r) && r.ins == layout.ins
    && (forall d :: d in r.bases <==> d in layout.bases)
    && (forall d :: d in r.bases ==> |r.bases[d]| == |layout.bases[d]|)
    && (forall b :: r.Basis(b) == Moved(layout, r, layout.Basis(b)))
  }

  ghost predicate AreShifts(layout: LinearLayout, shifts: seq<nat>) {
    && |shifts| == |layout.outs| + 1
    && forall j :: 0 <= j <= |layout.outs| ==> shifts[j] == Offset(Widths(layout.outs, layout.outLog2), j)
  }

  /** The coordinates of a vector as numbers. */
  ghost predicate AreNumbers(layout: LinearLayout, y: set<Bit>, basis: seq<int>) {
    && |basis| == |layout.outs|
    && forall i :: 0 <= i < |basis| ==>
         basis[i] == Value(Coordinates(y, layout.outs[i]), layout.OutLog2(layout.outs[i]))
  }

  function Numbers(layout: LinearLayout, y: set<Bit>): seq<nat> {
    seq(|layout.outs|, k requires 0 <= k < |layout.outs| =>
      Value(Coordinates(y, layout.outs[k]), layout.OutLog2(layout.outs[k])))
  }

  /** The vector whose coordinates in the first `k` dimensions are the given numbers. */
  function Point(layout: LinearLayout, basis: seq<int>, k: nat): set<Bit>
    requires k <= |layout.outs| == |basis|
  {
    if k == 0 then {} else
      var d := layout.outs[k - 1];
      Point(layout, basis, k - 1) + set p | p in BitsOf(basis[k - 1], layout.OutLog2(d)) :: Bit(d, p)
  }

  lemma CoordinateBits(layout: LinearLayout, y: set<Bit>, d: string)
    requires layout.IsOutput(y)
    ensures BitsOf(Value(Coordinates(y, d), layout.OutLog2(d)), layout.OutLog2(d)) == Coordinates(y, d)
    ensures (set p | p in Coordinates(y, d) :: Bit(d, p)) == set b | b in y && b.dim == d
  {
    BitsOfValue(Coordinates(y, d), layout.OutLog2(d));
    forall b | b in y && b.dim == d ensures b in set p | p in Coordinates(y, d) :: Bit(d, p) {
      assert b.pos in Coordinates(y, d) && b == Bit(d, b.pos);
    }
  }

  lemma {:induction false} PointIs(layout: LinearLayout, y: set<Bit>, basis: seq<int>, k: nat)
    requires layout.IsOutput(y) && AreNumbers(layout, y, basis) && k <= |layout.outs|
    ensures Point(layout, basis, k) == set b | b in y && b.dim in layout.outs[..k]
  {
    if k > 0 {
      PointIs(layout, y, basis, k - 1);
      CoordinateBits(layout, y, layout.outs[k - 1]);
      assert layout.outs[..k] == layout.outs[..k - 1] + [layout.outs[k - 1]];
    }
  }

  lemma PointOfNumbers(layout: LinearLayout, y: set<Bit>, basis: seq<int>)
    requires layout.IsOutput(y) && AreNumbers(layout, y, basis) && forall d :: d in layout.outLog2 ==> d in layout.outs
    ensures Point(layout, basis, |layout.outs|) == y
  {
    PointIs(layout, y, basis, |layout.outs|);
    assert layout.outs[..|layout.outs|] == layout.outs;
  }

  /** The lowest bit of every output dimension in the flattened order. */
  method Shifts(layout: LinearLayout) returns (shifts: seq<nat>)
    ensures AreShifts(layout, shifts)
  {
    shifts := [0];
    for i := 0 to |layout.outs|
      invariant |shifts| == i + 1
      invariant forall j :: 0 <= j <= i ==> shifts[j] == Offset(Widths(layout.outs, layout.outLog2), j)
    {
      shifts := shifts + [shifts[i] + layout.OutLog2(layout.outs[i])];
    }
  }

  lemma FlatCoordinates(layout: LinearLayout, y: set<Bit>)
    requires layout.IsOutput(y)
    ensures forall i :: 0 <= i < |layout.outs| ==>
      Fits(AllCoordinates(y, layout.outs)[i], Widths(layout.outs, layout.outLog2)[i])
  {
  }

  /** One basis as the code computes it, coordinate by coordinate as numbers: flattened by shifts and additions and
      split up by remainders and quotients, it is the moved vector. */
  method ReshapeBasis(layout: LinearLayout, r: LinearLayout, basis: seq<nat>, shifts: seq<nat>, ghost y: set<Bit>)
    returns (moved: seq<int>)
    requires SameSize(layout, r) && layout.IsOutput(y) && AreShifts(layout, shifts) && AreNumbers(layout, y, basis)
    ensures AreNumbers(r, Moved(layout, r, y), moved)
  {
    FlatCoordinates(layout, y);
    FlatIsJoined(layout, y);
    FlatIsJoined(r, {});
    var flat := FlattenBasis(basis, shifts, AllCoordinates(y, layout.outs), Widths(layout.outs, layout.outLog2));
    moved := SplitBasis(flat, Widths(r.outs, r.outLog2), Flatten(FlatOuts(layout), y));
    SlicesAreNumbers(r, Flatten(FlatOuts(layout), y));
  }

  lemma SlicesAreNumbers(r: LinearLayout, v: set<nat>)
    requires NoDuplicates(r.outs)
    ensures AreNumbers(r, Unflatten(FlatOuts(r), v), Slices(v, Widths(r.outs, r.outLog2), |r.outs|))
  {
    var widths := Widths(r.outs, r.outLog2);
    SlicesLength(v, widths, |r.outs|);
    forall k | 0 <= k < |r.outs|
      ensures Slices(v, widths, |r.outs|)[k] ==
              Value(Coordinates(Unflatten(FlatOuts(r), v), r.outs[k]), r.OutLog2(r.outs[k])) {
      SlicesAt(v, widths, |r.outs|, k);
      SliceIsCoordinates(r, r.outs, v, k);
    }
  }

  lemma FlatIsJoined(layout: LinearLayout, y: set<Bit>)
    ensures |FlatOuts(layout)| == Offset(Widths(layout.outs, layout.outLog2), |layout.outs|)
    ensures layout.IsOutput(y) ==>
      Flatten(FlatOuts(layout), y) ==
      Joined(AllCoordinates(y, layout.outs), Widths(layout.outs, layout.outLog2), |layout.outs|)
  {
    assert layout.outs[..|layout.outs|] == layout.outs;
    BitsLength(layout, layout.outs, |layout.outs|);
    if layout.IsOutput(y) {
      FlattenJoins(layout, layout.outs, y, |layout.outs|);
    }
  }

  lemma FlattenUnflatten(bits: seq<Bit>, v: set<nat>)
    requires NoDuplicates(bits) && Fits(v, |bits|)
    ensures Flatten(bits, Unflatten(bits, v)) == v
  {
  }

  lemma MovedBack(layout: LinearLayout, r: LinearLayout, y: set<Bit>)
    requires SameSize(layout, r) && layout.IsOutput(y)
    ensures r.IsOutput(Moved(layout, r, y)) && Moved(r, layout, Moved(layout, r, y)) == y
    ensures Flatten(FlatOuts(r), Moved(layout, r, y)) == Flatten(FlatOuts(layout), y)
  {
    OutBitsAre(layout, layout.outs);
    OutBitsAre(r, r.outs);
    UnflattenFlatten(FlatOuts(layout), y);
    FlattenUnflatten(FlatOuts(r), Flatten(FlatOuts(layout), y));
  }

  lemma MovedXor(layout: LinearLayout, r: LinearLayout, y: set<Bit>, z: set<Bit>)
    requires SameSize(layout, r)
    ensures Moved(layout, r, Xor(y, z)) == Xor(Moved(layout, r, y), Moved(layout, r, z))
  {
    OutBitsAre(r, r.outs);
    assert Flatten(FlatOuts(layout), Xor(y, z)) == Xor(Flatten(FlatOuts(layout), y), Flatten(FlatOuts(layout), z));
    UnflattenXor(FlatOuts(r), Flatten(FlatOuts(layout), y), Flatten(FlatOuts(layout), z));
  }

  lemma {:induction false} MovedApply(layout: LinearLayout, r: LinearLayout, x: set<Bit>)
    requires ReshapesOuts(layout, r)
    ensures r.Apply(x) == Moved(layout, r, layout.Apply(x))
    decreases |x|
  {
    if x == {} {
      assert Flatten(FlatOuts(layout), {}) == {};
    } else {
      var b :| b in x;
      MovedApply(layout, r, x - {b});
      ApplyTakes(layout, x, b);
      ApplyTakes(r, x, b);
      MovedXor(layout, r, layout.Apply(x - {b}), layout.Basis(b));
    }
  }

  /** Every input has the same flat output as before. */
  lemma ReshapedOutsApply(layout: LinearLayout, r: LinearLayout, x: set<Bit>)
    requires layout.WellFormed() && ReshapesOuts(layout, r)
    ensures Flatten(FlatOuts(r), r.Apply(x)) == Flatten(FlatOuts(layout), layout.Apply(x))
  {
    MovedApply(layout, r, x);
    ApplyIsOutput(layout, x);
    MovedBack(layout, r, layout.Apply(x));
  }

  /** The original is a reshape of the reshaped layout. */
  lemma ReshapeOutsBack(layout: LinearLayout, r: LinearLayout)
    requires layout.WellFormed() && ReshapesOuts(layout, r)
    ensures ReshapesOuts(r, layout)
  {
    forall b ensures layout.Basis(b) == Moved(r, layout, r.Basis(b)) {
      BasisIsOutput(layout, b);
      MovedBack(layout, r, layout.Basis(b));
    }
  }

  /** Reshaping back gives the original layout. */
  lemma ReshapeOutsRoundTrip(layout: LinearLayout, r: LinearLayout, back: LinearLayout)
    requires layout.WellFormed() && back.WellFormed() && ReshapesOuts(layout, r) && ReshapesOuts(r, back)
    requires back.outs == layout.outs && back.outLog2 == layout.outLog2
    ensures back == layout
  {
    ReshapeOutsBack(layout, r);
    SameOutBits(layout, back, layout.outs);
    forall d, i | d in layout.bases && 0 <= i < |layout.bases[d]| ensures back.bases[d][i] == layout.bases[d][i] {
      assert back.Basis(Bit(d, i)) == layout.Basis(Bit(d, i));
    }
    assert forall d :: d in layout.bases ==> back.bases[d] == layout.bases[d];
  }

  lemma {:induction false} SameOutBits(layout: LinearLayout, other: LinearLayout, dims: seq<string>)
    requires layout.outLog2 == other.outLog2
    ensures OutBits(layout, dims) == OutBits(other, dims)
  {
    if dims != [] {
      SameOutBits(layout, other, dims[..|dims| - 1]);
    }
  }

  lemma ReshapedOutsReach(layout: LinearLayout, r: LinearLayout)
    requires layout.WellFormed() && r.WellFormed() && ReshapesOuts(layout, r) && layout.Surjective()
    ensures r.Surjective()
  {
    ReshapeOutsBack(layout, r);
    forall y | r.IsOutput(y) ensures r.Reaches(y) {
      MovedBack(r, layout, y);
      assert layout.Reaches(Moved(r, layout, y));
      var x :| layout.IsInput(x) && layout.Apply(x) == Moved(r, layout, y);
      MovedApply(layout, r, x);
      assert r.IsInput(x);
    }
  }

  /** Renames the output bits of every basis. */
  method ReshapeOuts(layout: LinearLayout, newOuts: seq<string>, newLog2: map<string, nat>) returns (r: LinearLayout)
    requires layout.WellFormed() && NoDuplicates(newOuts) && forall d :: d in newLog2 <==> d in newOuts
    requires |FlatOuts(layout)| == |FlatOuts(LinearLayout([], map[], newOuts, newLog2))|
    ensures r.WellFormed() && ReshapesOuts(layout, r) && r.outs == newOuts && r.outLog2 == newLog2
    ensures r.Surjective() <==> layout.Surjective()
  {
    var target := LinearLayout([], map[], newOuts, newLog2);
    var shifts := Shifts(layout);
    var bases: map<string, seq<set<Bit>>> := map[];
    for k := 0 to |layout.ins|
      invariant forall d :: d in bases <==> d in layout.ins[..k]
      invariant forall d :: d in bases ==> AreMoved(layout, target, layout.bases[d], bases[d])
    {
      var d := layout.ins[k];
      var moved := MoveAll(layout, target, shifts, layout.bases[d]);
      bases := bases[d := moved];
    }
    assert layout.ins[..|layout.ins|] == layout.ins;
    r := LinearLayout(layout.ins, bases, newOuts, newLog2);
    AllMoved(layout, target, r);
    ReshapeOutsBack(layout, r);
    if layout.Surjective() {
      ReshapedOutsReach(layout, r);
    }
    if r.Surjective() {
      ReshapedOutsReach(r, layout);
    }
  }

  ghost predicate AreMoved(layout: LinearLayout, target: LinearLayout, before: seq<set<Bit>>, after: seq<set<Bit>>) {
    |after| == |before| && forall i :: 0 <= i < |before| ==> after[i] == Moved(layout, target, before[i])
  }

  /** One basis: the arithmetic of the code on its coordinates, read as bits again. */
  method MoveBasis(layout: LinearLayout, target: LinearLayout, shifts: seq<nat>, basis: set<Bit>)
    returns (moved: set<Bit>)
    requires SameSize(layout, target) && AreShifts(layout, shifts) && layout.IsOutput(basis)
    ensures moved == Moved(layout, target, basis)
  {
    var multiDimBasis := ReshapeBasis(layout, target, Numbers(layout, basis), shifts, basis);
    MovedBack(layout, target, basis);
    PointOfNumbers(target, Moved(layout, target, basis), multiDimBasis);
    moved := Point(target, multiDimBasis, |target.outs|);
  }

  method MoveAll(layout: LinearLayout, target: LinearLayout, shifts: seq<nat>, bases: seq<set<Bit>>)
    returns (moved: seq<set<Bit>>)
    requires SameSize(layout, target) && AreShifts(layout, shifts)
    requires forall i :: 0 <= i < |bases| ==> layout.IsOutput(bases[i])
    ensures AreMoved(layout, target, bases, moved)
  {
    moved := [];
    for i := 0 to |bases|
      invariant |moved| == i && forall j :: 0 <= j < i ==> moved[j] == Moved(layout, target, bases[j])
    {
      var next := MoveBasis(layout, target, shifts, bases[i]);
      moved := moved + [next];
    }
  }

  lemma AllMoved(layout: LinearLayout, target: LinearLayout, r: LinearLayout)
    requires layout.WellFormed() && SameSize(layout, target)
    requires r.ins == layout.ins && r.outs == target.outs && r.outLog2 == target.outLog2
    requires forall d :: d in r.bases <==> d in layout.ins
    requires forall d :: d in r.bases ==> AreMoved(layout, target, layout.bases[d], r.bases[d])
    ensures r.WellFormed() && ReshapesOuts(layout, r)
  {
    SameOutBits(target, r, r.outs);
    forall b ensures r.Basis(b) == Moved(layout, r, layout.Basis(b)) && r.IsOutput(r.Basis(b)) {
      BasisIsOutput(layout, b);
      MovedBack(layout, r, layout.Basis(b));
      if layout.HasIn(b) {
        assert AreMoved(layout, target, layout.bases[b.dim], r.bases[b.dim]);
      } else {
        assert Flatten(FlatOuts(layout), {}) == {};
      }
    }
    forall d, i | d in r.bases && 0 <= i < |r.bases[d]| ensures r.IsOutput(r.bases[d][i]) {
      assert r.bases[d][i] == r.Basis(Bit(d, i));
    }
  }
}
