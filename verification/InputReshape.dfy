/** Reshaping the input dimensions of a layout: the same bases in the same order under other names. */
module InputReshape {
  import opened LinearLayouts

  /** The bits of the first `k` of the dimensions. */
  ghost function Total(dims: seq<string>, log2: map<string, nat>, k: nat): nat
    requires k <= |dims|
  {
    if k == 0 then 0 else Total(dims, log2, k - 1) + if dims[k - 1] in log2 then log2[dims[k - 1]] else 0
  }

  lemma {:induction false} TotalGrows(dims: seq<string>, log2: map<string, nat>, k: nat, m: nat)
    requires k <= m <= |dims|
    ensures Total(dims, log2, k) <= Total(dims, log2, m)
    decreases m
  {
    if k < m {
      TotalGrows(dims, log2, k, m - 1);
    }
  }

  /** `r` has the outputs of `layout` and the same bases in flattened order. */
  ghost predicate ReshapesIns(layout: LinearLayout, r: LinearLayout) {
    r.outs == layout.outs && r.outLog2 == layout.outLog2 && FlatBases(r) == FlatBases(layout)
  }

  /** Inputs with the same flat form have the same output. */
  lemma ReshapedInsApply(layout: LinearLayout, r: LinearLayout, v: set<nat>)
    requires layout.WellFormed() && r.WellFormed() && ReshapesIns(layout, r)
    ensures r.Apply(Unflatten(InBits(r, r.ins), v)) == layout.Apply(Unflatten(InBits(layout, layout.ins), v))
  {
    InBitsAre(layout, layout.ins);
    InBitsAre(r, r.ins);
    FlatApply(layout, InBits(layout, layout.ins), v);
    FlatApply(r, InBits(r, r.ins), v);
  }

  lemma UnflattenIsInput(layout: LinearLayout, v: set<nat>)
    requires layout.WellFormed()
    ensures layout.IsInput(Unflatten(InBits(layout, layout.ins), v))
  {
    InBitsAre(layout, layout.ins);
  }

  lemma ReshapedInsReach(layout: LinearLayout, r: LinearLayout)
    requires layout.WellFormed() && r.WellFormed() && ReshapesIns(layout, r) && layout.Surjective()
    ensures r.Surjective()
  {
    InBitsAre(layout, layout.ins);
    forall y | r.IsOutput(y) ensures r.Reaches(y) {
      assert layout.IsOutput(y) && layout.Reaches(y);
      var x :| layout.IsInput(x) && layout.Apply(x) == y;
      var v := Flatten(InBits(layout, layout.ins), x);
      UnflattenFlatten(InBits(layout, layout.ins), x);
      ReshapedInsApply(layout, r, v);
      UnflattenIsInput(r, v);
    }
  }

  /** Reshaping back gives the original layout. */
  lemma ReshapeInsRoundTrip(layout: LinearLayout, r: LinearLayout, back: LinearLayout)
    requires layout.WellFormed() && back.WellFormed() && ReshapesIns(layout, r) && ReshapesIns(r, back)
    requires back.ins == layout.ins && forall d :: d in layout.ins ==> back.InLog2(d) == layout.InLog2(d)
    ensures back == layout
  {
    var bits := InBits(layout, layout.ins);
    SameInBits(layout, back, layout.ins);
    InBitsAre(layout, layout.ins);
    forall d, i | d in layout.bases && 0 <= i < |layout.bases[d]| ensures back.bases[d][i] == layout.bases[d][i] {
      assert Bit(d, i) in bits;
      var k :| 0 <= k < |bits| && bits[k] == Bit(d, i);
      assert Columns(layout, bits)[k] == Columns(back, bits)[k];
    }
    assert forall d :: d in layout.bases ==> back.bases[d] == layout.bases[d];
  }

  lemma {:induction false} ColumnsOfDims(layout: LinearLayout, dims: seq<string>, d: string)
    requires d in layout.bases
    ensures Columns(layout, InBits(layout, dims + [d])) == Columns(layout, InBits(layout, dims)) + layout.bases[d]
  {
    assert (dims + [d])[..|dims|] == dims;
  }

  lemma NothingCut(flatBases: seq<set<Bit>>, log2: map<string, nat>, outs: seq<string>, outLog2: map<string, nat>)
    ensures CutTo(LinearLayout([], map[], outs, outLog2), flatBases, log2, 0)
  {
    assert FlatBases(LinearLayout([], map[], outs, outLog2)) == [] == flatBases[..0];
  }

  lemma NextShare(newIns: seq<string>, newLog2: map<string, nat>, k: nat)
    requires k < |newIns| && NoDuplicates(newIns) && newIns[k] in newLog2
    ensures Total(newIns, newLog2, k + 1) == Total(newIns, newLog2, k) + newLog2[newIns[k]]
    ensures Total(newIns, newLog2, k + 1) <= Total(newIns, newLog2, |newIns|)
    ensures newIns[k] !in newIns[..k] && newIns[..k + 1] == newIns[..k] + [newIns[k]]
  {
    TotalGrows(newIns, newLog2, k + 1, |newIns|);
  }

  /** The first `k` of the new dimensions have their share. */
  ghost predicate CutDimsTo(r: LinearLayout, flatBases: seq<set<Bit>>, newIns: seq<string>, newLog2: map<string, nat>,
                            k: nat)
    requires k <= |newIns|
  {
    r.ins == newIns[..k] && CutTo(r, flatBases, newLog2, Total(newIns, newLog2, k))
  }

  /** Gives dimension `k` its share of the bases. */
  method CutDim(r: LinearLayout, flatBases: seq<set<Bit>>, newIns: seq<string>, newLog2: map<string, nat>, k: nat,
                i: nat)
    returns (next: LinearLayout)
    requires NoDuplicates(newIns) && k < |newIns| && newIns[k] in newLog2
    requires CutDimsTo(r, flatBases, newIns, newLog2, k) && i == Total(newIns, newLog2, k)
    requires |flatBases| == Total(newIns, newLog2, |newIns|)
    ensures next.outs == r.outs && next.outLog2 == r.outLog2 && CutDimsTo(next, flatBases, newIns, newLog2, k + 1)
  {
    NextShare(newIns, newLog2, k);
    var d := newIns[k];
    CutOne(r, flatBases, newLog2, i, d);
    next := LinearLayout(r.ins + [d], r.bases[d := flatBases[i..i + newLog2[d]]], r.outs, r.outLog2);
  }

  /** Cuts the bases up along the new dimensions. */
  method CutDims(flatBases: seq<set<Bit>>, newIns: seq<string>, newLog2: map<string, nat>, outs: seq<string>,
                 outLog2: map<string, nat>) returns (r: LinearLayout)
    requires NoDuplicates(newIns) && forall d :: d in newIns ==> d in newLog2
    requires |flatBases| == Total(newIns, newLog2, |newIns|)
    ensures r.outs == outs && r.outLog2 == outLog2 && CutDimsTo(r, flatBases, newIns, newLog2, |newIns|)
  {
    r := LinearLayout([], map[], outs, outLog2);
    NothingCut(flatBases, newLog2, outs, outLog2);
    var i: nat := 0;
    for k := 0 to |newIns|
      invariant r.outs == outs && r.outLog2 == outLog2 && CutDimsTo(r, flatBases, newIns, newLog2, k)
      invariant i == Total(newIns, newLog2, k)
    {
      NextShare(newIns, newLog2, k);
      r := CutDim(r, flatBases, newIns, newLog2, k, i);
      i := i + newLog2[newIns[k]];
    }
  }

  /** Flattens the bases into one dimension and cuts them up along the new ones, whose sizes add up to as much. */
  method ReshapeIns(layout: LinearLayout, newIns: seq<string>, newLog2: map<string, nat>) returns (r: LinearLayout)
    requires layout.WellFormed() && NoDuplicates(newIns) && forall d :: d in newIns ==> d in newLog2
    requires |InBits(layout, layout.ins)| == Total(newIns, newLog2, |newIns|)
    ensures r.WellFormed() && ReshapesIns(layout, r) && r.ins == newIns
    ensures forall d :: d in newIns ==> r.InLog2(d) == newLog2[d]
    ensures r.Surjective() <==> layout.Surjective()
  {
    var flatBases := FlattenIns(layout);
    r := CutDims(flatBases, newIns, newLog2, layout.outs, layout.outLog2);
    CutAll(layout, r, flatBases, newLog2, newIns);
    if layout.Surjective() {
      ReshapedInsReach(layout, r);
    }
    if r.Surjective() {
      ReshapedInsReach(r, layout);
    }
  }

  /** The dimensions of `r` hold the first `i` bases. */
  ghost predicate CutTo(r: LinearLayout, flatBases: seq<set<Bit>>, log2: map<string, nat>, i: nat) {
    && i <= |flatBases| && FlatBases(r) == flatBases[..i] && NoDuplicates(r.ins)
    && (forall d :: d in r.bases <==> d in r.ins)
    && (forall d :: d in r.bases ==> d in log2 && |r.bases[d]| == log2[d])
  }

  lemma CutOne(r: LinearLayout, flatBases: seq<set<Bit>>, log2: map<string, nat>, i: nat, d: string)
    requires CutTo(r, flatBases, log2, i) && d in log2 && d !in r.ins && i + log2[d] <= |flatBases|
    ensures CutTo(LinearLayout(r.ins + [d], r.bases[d := flatBases[i..i + log2[d]]], r.outs, r.outLog2), flatBases,
                  log2, i + log2[d])
  {
    var next := LinearLayout(r.ins + [d], r.bases[d := flatBases[i..i + log2[d]]], r.outs, r.outLog2);
    ColumnsOfDims(next, r.ins, d);
    SameColumns(r, next, r.ins);
    assert flatBases[..i + log2[d]] == flatBases[..i] + flatBases[i..i + log2[d]];
  }

  lemma {:induction false} SameColumns(layout: LinearLayout, other: LinearLayout, dims: seq<string>)
    requires forall d :: d in dims ==> d in layout.bases && d in other.bases && layout.bases[d] == other.bases[d]
    ensures Columns(layout, InBits(layout, dims)) == Columns(other, InBits(other, dims))
  {
    if dims != [] {
      var init, d := dims[..|dims| - 1], dims[|dims| - 1];
      SameColumns(layout, other, init);
      assert dims == init + [d];
      ColumnsOfDims(layout, init, d);
      ColumnsOfDims(other, init, d);
    }
  }

  lemma CutAll(layout: LinearLayout, r: LinearLayout, flatBases: seq<set<Bit>>, log2: map<string, nat>,
               newIns: seq<string>)
    requires forall d :: d in newIns ==> d in log2
    requires layout.WellFormed() && flatBases == FlatBases(layout) && r.outs == layout.outs
    requires r.outLog2 == layout.outLog2
    requires |flatBases| == Total(newIns, log2, |newIns|) && CutDimsTo(r, flatBases, newIns, log2, |newIns|)
    ensures r.WellFormed() && ReshapesIns(layout, r) && r.ins == newIns
    ensures forall d :: d in r.ins ==> r.InLog2(d) == log2[d]
  {
    assert newIns[..|newIns|] == newIns;
    assert flatBases[..|flatBases|] == flatBases;
    InBitsAre(r, r.ins);
    forall d, j | d in r.bases && 0 <= j < |r.bases[d]| ensures r.IsOutput(r.bases[d][j]) {
      assert Bit(d, j) in InBits(r, r.ins);
      var k :| 0 <= k < |InBits(r, r.ins)| && InBits(r, r.ins)[k] == Bit(d, j);
      assert FlatBases(r)[k] == FlatBases(layout)[k];
      BasisIsOutput(layout, InBits(layout, layout.ins)[k]);
    }
  }

  /** All bases, one dimension after the other. */
  method FlattenIns(layout: LinearLayout) returns (flatBases: seq<set<Bit>>)
    requires layout.WellFormed()
    ensures flatBases == FlatBases(layout)
  {
    flatBases := [];
    for k := 0 to |layout.ins|
      invariant flatBases == Columns(layout, InBits(layout, layout.ins[..k]))
    {
      ColumnsOfDims(layout, layout.ins[..k], layout.ins[k]);
      assert layout.ins[..k + 1] == layout.ins[..k] + [layout.ins[k]];
      flatBases := flatBases + layout.bases[layout.ins[k]];
    }
    assert layout.ins[..|layout.ins|] == layout.ins;
  }
}
