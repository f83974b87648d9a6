/** Products of layouts: one layout on the low bits of every dimension, another on the high bits. */
module LayoutProduct {
  import opened F2
  import opened LinearLayouts
  import opened DimensionMerge

  /** The input bits of `outer` sit above those of `inner` in every dimension. */
  function AboveIn(inner: LinearLayout, b: Bit): Bit {
    Bit(b.dim, b.pos + inner.InLog2(b.dim))
  }

  function AboveOut(inner: LinearLayout, b: Bit): Bit {
    Bit(b.dim, b.pos + inner.OutLog2(b.dim))
  }

  function RaiseIn(inner: LinearLayout, x: set<Bit>): set<Bit> {
    set b | b in x :: AboveIn(inner, b)
  }

  function RaiseOut(inner: LinearLayout, y: set<Bit>): set<Bit> {
    set b | b in y :: AboveOut(inner, b)
  }

  ghost predicate SumsSizes(r: LinearLayout, inner: LinearLayout, outer: LinearLayout) {
    && (forall d :: d in r.bases <==> d in inner.bases || d in outer.bases)
    && (forall d :: d in r.outLog2 <==> d in inner.outLog2 || d in outer.outLog2)
    && (forall d :: d in r.bases ==> r.InLog2(d) == inner.InLog2(d) + outer.InLog2(d))
    && (forall d :: d in r.outLog2 ==> r.OutLog2(d) == inner.OutLog2(d) + outer.OutLog2(d))
  }

  ghost predicate SumsBases(r: LinearLayout, inner: LinearLayout, outer: LinearLayout) {
    && (forall b :: inner.HasIn(b) ==> r.Basis(b) == inner.Basis(b))
    && (forall b :: outer.HasIn(b) ==> r.Basis(AboveIn(inner, b)) == RaiseOut(inner, outer.Basis(b)))
  }

  /** `r` is block diagonal, with `inner` on the low bits of every dimension and `outer` on the high ones. */
  ghost predicate IsProduct(r: LinearLayout, inner: LinearLayout, outer: LinearLayout) {
    SumsSizes(r, inner, outer) && SumsBases(r, inner, outer)
  }

  /** The same bit by bit: the low bits of an input dimension have the bases of `inner`, the others those of `outer`
      with every coordinate moved up behind the coordinates of `inner`. */
  ghost predicate IsBlockDiagonal(r: LinearLayout, inner: LinearLayout, outer: LinearLayout) {
    && (forall d :: d in r.bases <==> d in inner.bases || d in outer.bases)
    && (forall d :: d in r.outLog2 <==> d in inner.outLog2 || d in outer.outLog2)
    && (forall d :: d in r.bases ==> |r.bases[d]| == inner.InLog2(d) + outer.InLog2(d))
    && (forall d :: d in r.outLog2 ==> r.outLog2[d] == inner.OutLog2(d) + outer.OutLog2(d))
    && (forall d, i :: d in r.bases && 0 <= i < |r.bases[d]| ==> HasBlockBasis(r.bases[d][i], inner, outer, d, i))
  }

  ghost predicate HasBlockBasis(basis: set<Bit>, inner: LinearLayout, outer: LinearLayout, d: string, i: nat) {
    if d in inner.bases && i < |inner.bases[d]| then basis == inner.bases[d][i]
    else
      && d in outer.bases && 0 <= i - inner.InLog2(d) < |outer.bases[d]|
      && IsMovedUp(basis, inner, outer.bases[d][i - inner.InLog2(d)])
  }

  /** Below `e`, as far down as `inner` has output bits, is a bit of `x`. */
  ghost predicate StandsAbove(e: Bit, inner: LinearLayout, x: set<Bit>) {
    e.pos >= inner.OutLog2(e.dim) && Bit(e.dim, e.pos - inner.OutLog2(e.dim)) in x
  }

  /** `y` has the bits of `x`, each above the output bits of `inner` in its dimension. */
  ghost predicate IsMovedUp(y: set<Bit>, inner: LinearLayout, x: set<Bit>) {
    forall e: Bit :: e in y <==> StandsAbove(e, inner, x)
  }

  lemma RaisedStandsAbove(inner: LinearLayout, x: set<Bit>)
    ensures IsMovedUp(RaiseOut(inner, x), inner, x)
  {
    forall e: Bit ensures e in RaiseOut(inner, x) <==> StandsAbove(e, inner, x) {
      RaisedBit(inner, x, e);
    }
  }

  lemma MovedUpOnce(y: set<Bit>, z: set<Bit>, inner: LinearLayout, x: set<Bit>)
    requires IsMovedUp(y, inner, x) && IsMovedUp(z, inner, x)
    ensures y == z
  {
    forall e: Bit ensures e in y <==> e in z {
      assert StandsAbove(e, inner, x) <==> e in y;
    }
  }

  lemma MovedUpIsRaised(y: set<Bit>, inner: LinearLayout, x: set<Bit>)
    ensures IsMovedUp(y, inner, x) <==> y == RaiseOut(inner, x)
  {
    RaisedStandsAbove(inner, x);
    if IsMovedUp(y, inner, x) {
      MovedUpOnce(y, RaiseOut(inner, x), inner, x);
    }
  }

  lemma ProductMeans(r: LinearLayout, inner: LinearLayout, outer: LinearLayout)
    ensures IsProduct(r, inner, outer) <==> IsBlockDiagonal(r, inner, outer)
  {
    if IsProduct(r, inner, outer) {
      forall d, i | d in r.bases && 0 <= i < |r.bases[d]| ensures HasBlockBasis(r.bases[d][i], inner, outer, d, i) {
        ProductHasBlocks(r, inner, outer, d, i);
      }
    }
    if IsBlockDiagonal(r, inner, outer) {
      forall b | inner.HasIn(b) ensures r.Basis(b) == inner.Basis(b) {
        assert HasBlockBasis(r.bases[b.dim][b.pos], inner, outer, b.dim, b.pos);
      }
      forall b | outer.HasIn(b) ensures r.Basis(AboveIn(inner, b)) == RaiseOut(inner, outer.Basis(b)) {
        BlocksAreRaised(r, inner, outer, b);
      }
    }
  }

  lemma ProductHasBlocks(r: LinearLayout, inner: LinearLayout, outer: LinearLayout, d: string, i: nat)
    requires IsProduct(r, inner, outer) && d in r.bases && i < |r.bases[d]|
    ensures HasBlockBasis(r.bases[d][i], inner, outer, d, i)
  {
    var b := Bit(d, i);
    assert r.Basis(b) == r.bases[d][i] && r.InLog2(d) == inner.InLog2(d) + outer.InLog2(d);
    if d in inner.bases && i < |inner.bases[d]| {
      assert inner.HasIn(b);
    } else {
      var below := Bit(d, i - inner.InLog2(d));
      assert outer.HasIn(below) && AboveIn(inner, below) == b;
      MovedUpIsRaised(r.bases[d][i], inner, outer.Basis(below));
    }
  }

  lemma BlocksAreRaised(r: LinearLayout, inner: LinearLayout, outer: LinearLayout, b: Bit)
    requires IsBlockDiagonal(r, inner, outer) && outer.HasIn(b)
    ensures r.Basis(AboveIn(inner, b)) == RaiseOut(inner, outer.Basis(b))
  {
    var i: nat := b.pos + inner.InLog2(b.dim);
    assert HasBlockBasis(r.bases[b.dim][i], inner, outer, b.dim, i);
    MovedUpIsRaised(r.bases[b.dim][i], inner, outer.Basis(b));
  }

  lemma RaiseXor(inner: LinearLayout, y: set<Bit>, z: set<Bit>)
    ensures RaiseOut(inner, Xor(y, z)) == Xor(RaiseOut(inner, y), RaiseOut(inner, z))
  {
    forall b ensures b in RaiseOut(inner, Xor(y, z)) <==> b in Xor(RaiseOut(inner, y), RaiseOut(inner, z)) {
      RaisedBit(inner, y, b);
      RaisedBit(inner, z, b);
      RaisedBit(inner, Xor(y, z), b);
    }
  }

  lemma RaisedBit(inner: LinearLayout, y: set<Bit>, b: Bit)
    ensures b in RaiseOut(inner, y) <==> b.pos >= inner.OutLog2(b.dim) && Bit(b.dim, b.pos - inner.OutLog2(b.dim)) in y
  {
    if b.pos >= inner.OutLog2(b.dim) {
      assert AboveOut(inner, Bit(b.dim, b.pos - inner.OutLog2(b.dim))) == b;
    }
  }

  lemma RaisedInput(inner: LinearLayout, x: set<Bit>, b: Bit)
    ensures b in RaiseIn(inner, x) <==> b.pos >= inner.InLog2(b.dim) && Bit(b.dim, b.pos - inner.InLog2(b.dim)) in x
  {
    if b.pos >= inner.InLog2(b.dim) {
      assert AboveIn(inner, Bit(b.dim, b.pos - inner.InLog2(b.dim))) == b;
    }
  }

  lemma {:induction false} LowBits(r: LinearLayout, inner: LinearLayout, x: set<Bit>)
    requires forall b :: inner.HasIn(b) ==> r.Basis(b) == inner.Basis(b)
    requires inner.IsInput(x)
    ensures r.Apply(x) == inner.Apply(x)
    decreases |x|
  {
    if x != {} {
      var b :| b in x;
      LowBits(r, inner, x - {b});
      ApplyTakes(r, x, b);
      ApplyTakes(inner, x, b);
    }
  }

  lemma {:induction false} HighBits(r: LinearLayout, inner: LinearLayout, outer: LinearLayout, z: set<Bit>)
    requires IsProduct(r, inner, outer) && outer.IsInput(z)
    ensures r.Apply(RaiseIn(inner, z)) == RaiseOut(inner, outer.Apply(z))
    decreases |z|
  {
    if z == {} {
      assert RaiseIn(inner, z) == {};
    } else {
      var b :| b in z;
      HighBits(r, inner, outer, z - {b});
      ApplyTakes(outer, z, b);
      RaiseXor(inner, outer.Apply(z - {b}), outer.Basis(b));
      RaiseTakes(inner, z, b);
      ApplyTakes(r, RaiseIn(inner, z), AboveIn(inner, b));
    }
  }

  lemma RaiseTakes(inner: LinearLayout, z: set<Bit>, b: Bit)
    requires b in z
    ensures AboveIn(inner, b) in RaiseIn(inner, z)
    ensures RaiseIn(inner, z) - {AboveIn(inner, b)} == RaiseIn(inner, z - {b})
  {
    forall c ensures c in RaiseIn(inner, z) - {AboveIn(inner, b)} <==> c in RaiseIn(inner, z - {b}) {
      RaisedInput(inner, z, c);
      RaisedInput(inner, z - {b}, c);
    }
  }

  /** A product runs `inner` on the low bits and `outer` on the high bits of a point. */
  lemma ProductApplies(r: LinearLayout, inner: LinearLayout, outer: LinearLayout, x: set<Bit>, z: set<Bit>)
    requires IsProduct(r, inner, outer) && inner.WellFormed() && inner.IsInput(x) && outer.IsInput(z)
    ensures x !! RaiseIn(inner, z) && inner.Apply(x) !! RaiseOut(inner, outer.Apply(z))
    ensures r.Apply(x + RaiseIn(inner, z)) == inner.Apply(x) + RaiseOut(inner, outer.Apply(z))
  {
    LowBits(r, inner, x);
    HighBits(r, inner, outer, z);
    ApplyLinear(r, x, RaiseIn(inner, z));
    ApplyIsOutput(inner, x);
    XorOfDisjoint(x, RaiseIn(inner, z));
    XorOfDisjoint(inner.Apply(x), RaiseOut(inner, outer.Apply(z)));
  }

  lemma XorOfDisjoint(x: set<Bit>, y: set<Bit>)
    ensures x !! y ==> Xor(x, y) == x + y
  {
  }

  /** The parts of an input: every input of a product is one input below and one above. */
  lemma SplitInput(r: LinearLayout, inner: LinearLayout, outer: LinearLayout, w: set<Bit>)
    returns (x: set<Bit>, z: set<Bit>)
    requires IsProduct(r, inner, outer) && r.IsInput(w)
    ensures inner.IsInput(x) && outer.IsInput(z) && w == x + RaiseIn(inner, z)
  {
    x := set b | b in w && inner.HasIn(b);
    z := set b | b in w && !inner.HasIn(b) ::
      Bit(b.dim, if b.pos >= inner.InLog2(b.dim) then b.pos - inner.InLog2(b.dim) else 0);
    forall b ensures b in RaiseIn(inner, z) <==> b in w && !inner.HasIn(b) {
      RaisedInput(inner, z, b);
    }
  }

  lemma SplitOutput(r: LinearLayout, inner: LinearLayout, outer: LinearLayout, w: set<Bit>)
    returns (x: set<Bit>, z: set<Bit>)
    requires IsProduct(r, inner, outer) && r.IsOutput(w)
    ensures inner.IsOutput(x) && outer.IsOutput(z) && w == x + RaiseOut(inner, z)
  {
    x := set b | b in w && inner.HasOut(b);
    z := set b | b in w && !inner.HasOut(b) ::
      Bit(b.dim, if b.pos >= inner.OutLog2(b.dim) then b.pos - inner.OutLog2(b.dim) else 0);
    forall b ensures b in RaiseOut(inner, z) <==> b in w && !inner.HasOut(b) {
      RaisedBit(inner, z, b);
    }
  }

  /** Points of a product with the same image have parts with the same image. */
  lemma PartsOfOutput(inner: LinearLayout, y: set<Bit>, z: set<Bit>, y': set<Bit>, z': set<Bit>)
    requires inner.IsOutput(y) && inner.IsOutput(y')
    requires y + RaiseOut(inner, z) == y' + RaiseOut(inner, z')
    ensures y == y' && z == z'
  {
    forall b ensures b in y <==> b in y' {
      RaisedBit(inner, z, b);
      RaisedBit(inner, z', b);
    }
    forall b ensures b in z <==> b in z' {
      var c := AboveOut(inner, b);
      RaisedBit(inner, z, c);
      RaisedBit(inner, z', c);
      assert c in y + RaiseOut(inner, z) <==> c in y' + RaiseOut(inner, z');
    }
  }

  lemma RaisedIsInput(r: LinearLayout, inner: LinearLayout, outer: LinearLayout, x: set<Bit>, z: set<Bit>)
    requires SumsSizes(r, inner, outer) && inner.IsInput(x) && outer.IsInput(z)
    ensures r.IsInput(x + RaiseIn(inner, z))
  {
  }

  lemma RaisedIsOutput(r: LinearLayout, inner: LinearLayout, outer: LinearLayout, y: set<Bit>, z: set<Bit>)
    requires SumsSizes(r, inner, outer) && inner.IsOutput(y) && outer.IsOutput(z)
    ensures r.IsOutput(y + RaiseOut(inner, z))
  {
  }

  /** The flag handed to the constructor is right: a product is surjective exactly when both factors are. */
  lemma ProductSurjective(r: LinearLayout, inner: LinearLayout, outer: LinearLayout)
    requires IsProduct(r, inner, outer) && inner.WellFormed() && outer.WellFormed()
    ensures r.Surjective() <==> inner.Surjective() && outer.Surjective()
  {
    if inner.Surjective() && outer.Surjective() {
      forall w | r.IsOutput(w) ensures r.Reaches(w) {
        var y, y' := SplitOutput(r, inner, outer, w);
        assert inner.Reaches(y) && outer.Reaches(y');
        var x :| inner.IsInput(x) && inner.Apply(x) == y;
        var z :| outer.IsInput(z) && outer.Apply(z) == y';
        ProductApplies(r, inner, outer, x, z);
        RaisedIsInput(r, inner, outer, x, z);
      }
    }
    if r.Surjective() {
      forall y, y' | inner.IsOutput(y) && outer.IsOutput(y') ensures inner.Reaches(y) && outer.Reaches(y') {
        FactorsReach(r, inner, outer, y, y');
      }
      assert inner.IsOutput({}) && outer.IsOutput({});
    }
  }

  lemma FactorsReach(r: LinearLayout, inner: LinearLayout, outer: LinearLayout, y: set<Bit>, y': set<Bit>)
    requires IsProduct(r, inner, outer) && inner.WellFormed() && r.Surjective()
    requires inner.IsOutput(y) && outer.IsOutput(y')
    ensures inner.Reaches(y) && outer.Reaches(y')
  {
    var w := y + RaiseOut(inner, y');
    RaisedIsOutput(r, inner, outer, y, y');
    assert r.Reaches(w);
    var v :| r.IsInput(v) && r.Apply(v) == w;
    var x, z := SplitInput(r, inner, outer, v);
    ProductApplies(r, inner, outer, x, z);
    ApplyIsOutput(inner, x);
    PartsOfOutput(inner, y, y', inner.Apply(x), outer.Apply(z));
  }

  /** Moves a vector above the outputs of `inner`. */
  lemma RaisedBasisFits(r: LinearLayout, inner: LinearLayout, outer: LinearLayout, y: set<Bit>)
    requires SumsSizes(r, inner, outer) && outer.IsOutput(y)
    ensures r.IsOutput(RaiseOut(inner, y))
  {
  }

  /** The bases of one dimension of the product. */
  method ProductBases(inner: LinearLayout, outer: LinearLayout, d: string) returns (v: seq<set<Bit>>)
    ensures |v| == inner.InLog2(d) + outer.InLog2(d)
    ensures forall i :: 0 <= i < inner.InLog2(d) ==> v[i] == inner.Basis(Bit(d, i))
    ensures forall i :: 0 <= i < outer.InLog2(d) ==> v[inner.InLog2(d) + i] == RaiseOut(inner, outer.Basis(Bit(d, i)))
  {
    v := if d in inner.bases then inner.bases[d] else [];
    for i := 0 to outer.InLog2(d)
      invariant |v| == inner.InLog2(d) + i
      invariant forall j :: 0 <= j < inner.InLog2(d) ==> v[j] == inner.Basis(Bit(d, j))
      invariant forall j :: 0 <= j < i ==> v[inner.InLog2(d) + j] == RaiseOut(inner, outer.Basis(Bit(d, j)))
    {
      v := v + [RaiseOut(inner, outer.bases[d][i])];
    }
  }

  ghost predicate HoldsBases(bases: map<string, seq<set<Bit>>>, dims: seq<string>, inner: LinearLayout,
                             outer: LinearLayout) {
    && (forall d :: d in bases <==> d in dims)
    && (forall d :: d in bases ==> |bases[d]| == inner.InLog2(d) + outer.InLog2(d))
    && (forall d, i :: d in bases && 0 <= i < inner.InLog2(d) ==> bases[d][i] == inner.Basis(Bit(d, i)))
    && (forall d, i :: d in bases && 0 <= i < outer.InLog2(d) ==>
        bases[d][inner.InLog2(d) + i] == RaiseOut(inner, outer.Basis(Bit(d, i))))
  }

  lemma HeldIsProduct(r: LinearLayout, inner: LinearLayout, outer: LinearLayout)
    requires inner.WellFormed() && outer.WellFormed() && SumsSizes(r, inner, outer)
    requires HoldsBases(r.bases, r.ins, inner, outer)
    ensures IsProduct(r, inner, outer)
  {
    forall b | outer.HasIn(b) ensures r.Basis(AboveIn(inner, b)) == RaiseOut(inner, outer.Basis(b)) {
      assert r.bases[b.dim][inner.InLog2(b.dim) + b.pos] == RaiseOut(inner, outer.Basis(Bit(b.dim, b.pos)));
    }
  }

  lemma ProductWellFormed(r: LinearLayout, inner: LinearLayout, outer: LinearLayout)
    requires inner.WellFormed() && outer.WellFormed() && IsProduct(r, inner, outer)
    requires UnionOf(r.ins, inner.ins, outer.ins) && UnionOf(r.outs, inner.outs, outer.outs)
    ensures r.WellFormed()
  {
    forall d, i | d in r.bases && 0 <= i < |r.bases[d]| ensures r.IsOutput(r.bases[d][i]) {
      if i < inner.InLog2(d) {
        assert r.Basis(Bit(d, i)) == inner.Basis(Bit(d, i));
        BasisIsOutput(inner, Bit(d, i));
      } else {
        var b := Bit(d, i - inner.InLog2(d));
        assert r.Basis(AboveIn(inner, b)) == RaiseOut(inner, outer.Basis(b));
        BasisIsOutput(outer, b);
        RaisedBasisFits(r, inner, outer, outer.Basis(b));
      }
    }
  }

  method AddSizes(inner: LinearLayout, outer: LinearLayout, outs: seq<string>) returns (outLog2: map<string, nat>)
    ensures forall d :: d in outLog2 <==> d in outs
    ensures forall d :: d in outLog2 ==> outLog2[d] == inner.OutLog2(d) + outer.OutLog2(d)
  {
    outLog2 := map[];
    for k := 0 to |outs|
      invariant forall d :: d in outLog2 <==> d in outs[..k]
      invariant forall d :: d in outLog2 ==> outLog2[d] == inner.OutLog2(d) + outer.OutLog2(d)
    {
      outLog2 := outLog2[outs[k] := inner.OutLog2(outs[k]) + outer.OutLog2(outs[k])];
    }
  }

  lemma HoldsBasesExtend(bases: map<string, seq<set<Bit>>>, dims: seq<string>, k: nat, inner: LinearLayout,
                         outer: LinearLayout, v: seq<set<Bit>>)
    requires k < |dims| && HoldsBases(bases, dims[..k], inner, outer)
    requires |v| == inner.InLog2(dims[k]) + outer.InLog2(dims[k])
    requires forall i :: 0 <= i < inner.InLog2(dims[k]) ==> v[i] == inner.Basis(Bit(dims[k], i))
    requires forall i :: 0 <= i < outer.InLog2(dims[k]) ==>
      v[inner.InLog2(dims[k]) + i] == RaiseOut(inner, outer.Basis(Bit(dims[k], i)))
    ensures HoldsBases(bases[dims[k] := v], dims[..k + 1], inner, outer)
  {
    assert dims[..k + 1] == dims[..k] + [dims[k]];
  }

  method AddBases(inner: LinearLayout, outer: LinearLayout, ins: seq<string>)
    returns (bases: map<string, seq<set<Bit>>>)
    ensures HoldsBases(bases, ins, inner, outer)
  {
    bases := map[];
    for k := 0 to |ins|
      invariant HoldsBases(bases, ins[..k], inner, outer)
    {
      var v := ProductBases(inner, outer, ins[k]);
      HoldsBasesExtend(bases, ins, k, inner, outer, v);
      bases := bases[ins[k] := v];
    }
    assert ins[..|ins|] == ins;
  }

  lemma AddedSizes(r: LinearLayout, inner: LinearLayout, outer: LinearLayout)
    requires inner.WellFormed() && outer.WellFormed() && HoldsBases(r.bases, r.ins, inner, outer)
    requires UnionOf(r.ins, inner.ins, outer.ins) && UnionOf(r.outs, inner.outs, outer.outs)
    requires forall d :: d in r.outLog2 <==> d in r.outs
    requires forall d :: d in r.outLog2 ==> r.outLog2[d] == inner.OutLog2(d) + outer.OutLog2(d)
    ensures SumsSizes(r, inner, outer)
  {
  }

  /** The product of two layouts. */
  method Multiply(inner: LinearLayout, outer: LinearLayout) returns (r: LinearLayout)
    requires inner.WellFormed() && outer.WellFormed()
    ensures r.WellFormed() && IsProduct(r, inner, outer) && IsBlockDiagonal(r, inner, outer)
    ensures UnionOf(r.ins, inner.ins, outer.ins) && UnionOf(r.outs, inner.outs, outer.outs)
    ensures Consistent(inner.ins, outer.ins) <==> IsSubsequence(inner.ins, r.ins) && IsSubsequence(outer.ins, r.ins)
    ensures Consistent(inner.outs, outer.outs) <==>
      IsSubsequence(inner.outs, r.outs) && IsSubsequence(outer.outs, r.outs)
    ensures r.ins == outer.ins <==>
      (forall d :: d in inner.ins ==> d in outer.ins) && FollowsSecond(inner.ins, outer.ins)
    ensures r.outs == outer.outs <==>
      (forall d :: d in inner.outs ==> d in outer.outs) && FollowsSecond(inner.outs, outer.outs)
    ensures r.Surjective() <==> inner.Surjective() && outer.Surjective()
  {
    var ins, noIns := Supremum(inner.ins, outer.ins);
    var outs, noOuts := Supremum(inner.outs, outer.outs);
    var outLog2 := AddSizes(inner, outer, outs);
    var bases := AddBases(inner, outer, ins);
    r := LinearLayout(ins, bases, outs, outLog2);
    AddedSizes(r, inner, outer);
    HeldIsProduct(r, inner, outer);
    ProductMeans(r, inner, outer);
    ProductWellFormed(r, inner, outer);
    ProductSurjective(r, inner, outer);
  }
}
