/** Division of layouts from the left: finding the second factor of a product. */
module LayoutDivision {
  import opened LinearLayouts
  import opened Options
  import opened DimensionMerge
  import opened LayoutProduct

  // ----- What a dividend looks like

  /** The lower output bits, those of `b`, are all zero. */
  predicate LowBitsClear(b: LinearLayout, y: set<Bit>) {
    forall e | e in y :: e.pos >= b.OutLog2(e.dim)
  }

  function Lower(b: LinearLayout, y: set<Bit>): set<Bit> {
    set e | e in y && e.pos >= b.OutLog2(e.dim) :: Bit(e.dim, e.pos - b.OutLog2(e.dim))
  }

  lemma LowerRaises(b: LinearLayout, y: set<Bit>)
    ensures LowBitsClear(b, y) ==> RaiseOut(b, Lower(b, y)) == y
    ensures LowBitsClear(b, RaiseOut(b, y))
  {
    forall e ensures e in RaiseOut(b, Lower(b, y)) <==> e in y && e.pos >= b.OutLog2(e.dim) {
      RaisedBit(b, Lower(b, y), e);
    }
    forall e ensures e in RaiseOut(b, y) ==> e.pos >= b.OutLog2(e.dim) {
      RaisedBit(b, y, e);
    }
  }

  lemma RaiseInjective(b: LinearLayout, y: set<Bit>, z: set<Bit>)
    requires RaiseOut(b, y) == RaiseOut(b, z)
    ensures y == z
  {
    assert b.IsOutput({});
    PartsOfOutput(b, {}, y, {}, z);
  }

  ghost predicate OutDivides(a: LinearLayout, b: LinearLayout, d: string) {
    b.OutLog2(d) <= a.OutLog2(d)
  }

  ghost predicate InDivides(a: LinearLayout, b: LinearLayout, d: string) {
    && b.InLog2(d) <= a.InLog2(d)
    && (forall i :: 0 <= i < b.InLog2(d) ==> a.Basis(Bit(d, i)) == b.Basis(Bit(d, i)))
    && (forall i :: b.InLog2(d) <= i < a.InLog2(d) ==> LowBitsClear(b, a.Basis(Bit(d, i))))
  }

  ghost predicate Divisible(a: LinearLayout, b: LinearLayout) {
    && (forall d :: d in b.ins ==> d in a.ins)
    && (forall d :: d in b.outs ==> d in a.outs)
    && (forall d :: d in a.outs ==> OutDivides(a, b, d))
    && (forall d :: d in a.ins ==> InDivides(a, b, d))
  }

  /** Some layout on the high bits makes up `a`. */
  ghost predicate HasQuotient(a: LinearLayout, b: LinearLayout) {
    exists c: LinearLayout :: c.WellFormed() && IsProduct(a, b, c)
  }

  lemma QuotientMeans(a: LinearLayout, b: LinearLayout)
    ensures HasQuotient(a, b) <==> exists c: LinearLayout :: c.WellFormed() && IsBlockDiagonal(a, b, c)
  {
    forall c: LinearLayout ensures IsProduct(a, b, c) <==> IsBlockDiagonal(a, b, c) {
      ProductMeans(a, b, c);
    }
  }

  lemma ProductIsDivisible(a: LinearLayout, b: LinearLayout, c: LinearLayout)
    requires a.WellFormed() && b.WellFormed() && c.WellFormed() && IsProduct(a, b, c)
    ensures Divisible(a, b)
  {
    forall d | d in a.ins ensures InDivides(a, b, d) {
      forall i | b.InLog2(d) <= i < a.InLog2(d) ensures LowBitsClear(b, a.Basis(Bit(d, i))) {
        var e := Bit(d, i - b.InLog2(d));
        assert AboveIn(b, e) == Bit(d, i);
        LowerRaises(b, c.Basis(e));
      }
    }
  }

  /** Two quotients differ at most in dimensions of size one. */
  lemma QuotientIsUnique(a: LinearLayout, b: LinearLayout, c: LinearLayout, c': LinearLayout)
    requires a.WellFormed() && c.WellFormed() && c'.WellFormed() && IsProduct(a, b, c) && IsProduct(a, b, c')
    ensures forall d :: c.InLog2(d) == c'.InLog2(d) && c.OutLog2(d) == c'.OutLog2(d)
    ensures forall x :: c.Apply(x) == c'.Apply(x)
  {
    forall e ensures c.Basis(e) == c'.Basis(e) {
      assert c.InLog2(e.dim) == c'.InLog2(e.dim);
      if c.HasIn(e) {
        RaiseInjective(b, c.Basis(e), c'.Basis(e));
      }
    }
    forall x ensures c.Apply(x) == c'.Apply(x) {
      SameBases(c, c', x);
    }
  }

  // ----- Dividing

  method Contains(dims: seq<string>, all: seq<string>) returns (r: bool)
    ensures r <==> forall d :: d in dims ==> d in all
  {
    for k := 0 to |dims|
      invariant forall i :: 0 <= i < k ==> dims[i] in all
    {
      if dims[k] !in all {
        return false;
      }
    }
    return true;
  }

  method QuotientSizes(a: LinearLayout, b: LinearLayout) returns (r: Option<map<string, nat>>)
    requires a.WellFormed()
    ensures r.Some? <==> forall d :: d in a.outs ==> OutDivides(a, b, d)
    ensures r.Some? ==> forall d :: d in r.value <==> d in a.outs
    ensures r.Some? ==> forall d :: d in r.value ==> b.OutLog2(d) + r.value[d] == a.OutLog2(d)
  {
    var sizes: map<string, nat> := map[];
    for k := 0 to |a.outs|
      invariant forall d :: d in sizes <==> d in a.outs[..k]
      invariant forall d :: d in sizes ==> b.OutLog2(d) + sizes[d] == a.OutLog2(d)
    {
      var d := a.outs[k];
      if a.OutLog2(d) < b.OutLog2(d) {
        assert !OutDivides(a, b, d);
        return None;
      }
      sizes := sizes[d := a.OutLog2(d) - b.OutLog2(d)];
    }
    return Some(sizes);
  }

  ghost predicate IsQuotientOf(a: LinearLayout, b: LinearLayout, d: string, v: seq<set<Bit>>) {
    && b.InLog2(d) + |v| == a.InLog2(d)
    && forall i :: 0 <= i < |v| ==> v[i] == Lower(b, a.Basis(Bit(d, b.InLog2(d) + i)))
  }

  method QuotientBases(a: LinearLayout, b: LinearLayout, d: string) returns (r: Option<seq<set<Bit>>>)
    requires d in a.bases
    ensures r.Some? <==> InDivides(a, b, d)
    ensures r.Some? ==> IsQuotientOf(a, b, d, r.value)
  {
    var inA, inB := a.InLog2(d), b.InLog2(d);
    if inA < inB {
      return None;
    }
    for i := 0 to inB
      invariant forall j :: 0 <= j < i ==> a.Basis(Bit(d, j)) == b.Basis(Bit(d, j))
    {
      if a.Basis(Bit(d, i)) != b.Basis(Bit(d, i)) {
        return None;
      }
    }
    var v := [];
    for i := inB to inA
      invariant |v| == i - inB
      invariant forall j :: inB <= j < i ==> LowBitsClear(b, a.Basis(Bit(d, j)))
      invariant forall j :: 0 <= j < |v| ==> v[j] == Lower(b, a.Basis(Bit(d, inB + j)))
    {
      if !LowBitsClear(b, a.Basis(Bit(d, i))) {
        return None;
      }
      v := v + [Lower(b, a.Basis(Bit(d, i)))];
    }
    return Some(v);
  }

  method AllQuotientBases(a: LinearLayout, b: LinearLayout) returns (r: Option<map<string, seq<set<Bit>>>>)
    requires a.WellFormed()
    ensures r.Some? <==> forall d :: d in a.ins ==> InDivides(a, b, d)
    ensures r.Some? ==> forall d :: d in r.value <==> d in a.ins
    ensures r.Some? ==> forall d :: d in r.value ==> IsQuotientOf(a, b, d, r.value[d])
  {
    var bases: map<string, seq<set<Bit>>> := map[];
    for k := 0 to |a.ins|
      invariant forall d :: d in bases <==> d in a.ins[..k]
      invariant forall d :: d in bases ==> InDivides(a, b, d) && IsQuotientOf(a, b, d, bases[d])
    {
      var d := a.ins[k];
      var v := QuotientBases(a, b, d);
      if v.None? {
        assert d in a.ins && !InDivides(a, b, d);
        return None;
      }
      bases := bases[d := v.value];
    }
    return Some(bases);
  }

  ghost predicate IsQuotient(a: LinearLayout, b: LinearLayout, c: LinearLayout) {
    && c.ins == a.ins && c.outs == a.outs
    && (forall d :: d in c.bases <==> d in a.ins)
    && (forall d :: d in c.outLog2 <==> d in a.outs)
    && (forall d :: d in c.outLog2 ==> b.OutLog2(d) + c.outLog2[d] == a.OutLog2(d))
    && (forall d :: d in c.bases ==> IsQuotientOf(a, b, d, c.bases[d]))
  }

  lemma QuotientWellFormed(a: LinearLayout, b: LinearLayout, c: LinearLayout)
    requires a.WellFormed() && Divisible(a, b) && IsQuotient(a, b, c)
    ensures c.WellFormed()
  {
    forall d, i | d in c.bases && 0 <= i < |c.bases[d]| ensures c.IsOutput(c.bases[d][i]) {
      var e := Bit(d, b.InLog2(d) + i);
      BasisIsOutput(a, e);
      LoweredFits(a, b, c, a.Basis(e));
    }
  }

  lemma QuotientSumsSizes(a: LinearLayout, b: LinearLayout, c: LinearLayout)
    requires a.WellFormed() && b.WellFormed() && Divisible(a, b) && IsQuotient(a, b, c)
    ensures SumsSizes(a, b, c)
  {
  }

  lemma HighIsClear(a: LinearLayout, b: LinearLayout, d: string, i: nat)
    requires InDivides(a, b, d) && b.InLog2(d) <= i < a.InLog2(d)
    ensures RaiseOut(b, Lower(b, a.Basis(Bit(d, i)))) == a.Basis(Bit(d, i))
  {
    LowerRaises(b, a.Basis(Bit(d, i)));
  }

  lemma QuotientBasis(a: LinearLayout, b: LinearLayout, c: LinearLayout, d: string, i: nat)
    requires InDivides(a, b, d) && d in c.bases && IsQuotientOf(a, b, d, c.bases[d]) && i < |c.bases[d]|
    ensures a.Basis(Bit(d, i + b.InLog2(d))) == RaiseOut(b, c.bases[d][i])
  {
    HighIsClear(a, b, d, b.InLog2(d) + i);
  }

  lemma QuotientHighBasis(a: LinearLayout, b: LinearLayout, c: LinearLayout, e: Bit)
    requires InDivides(a, b, e.dim) && c.HasIn(e) && IsQuotientOf(a, b, e.dim, c.bases[e.dim])
    ensures a.Basis(AboveIn(b, e)) == RaiseOut(b, c.Basis(e))
  {
    QuotientBasis(a, b, c, e.dim, e.pos);
  }

  lemma QuotientLowBasis(a: LinearLayout, b: LinearLayout, e: Bit)
    requires InDivides(a, b, e.dim) && b.HasIn(e)
    ensures a.Basis(e) == b.Basis(e)
  {
    assert e == Bit(e.dim, e.pos);
  }

  lemma QuotientSumsBases(a: LinearLayout, b: LinearLayout, c: LinearLayout)
    requires b.WellFormed() && Divisible(a, b) && IsQuotient(a, b, c)
    ensures SumsBases(a, b, c)
  {
    forall e | c.HasIn(e) ensures a.Basis(AboveIn(b, e)) == RaiseOut(b, c.Basis(e)) {
      QuotientHighBasis(a, b, c, e);
    }
    forall e | b.HasIn(e) ensures a.Basis(e) == b.Basis(e) {
      QuotientLowBasis(a, b, e);
    }
  }

  lemma QuotientMultiplies(a: LinearLayout, b: LinearLayout, c: LinearLayout)
    requires a.WellFormed() && b.WellFormed() && Divisible(a, b) && IsQuotient(a, b, c)
    ensures c.WellFormed() && IsProduct(a, b, c)
  {
    QuotientWellFormed(a, b, c);
    QuotientSumsSizes(a, b, c);
    QuotientSumsBases(a, b, c);
  }

  lemma LoweredFits(a: LinearLayout, b: LinearLayout, c: LinearLayout, y: set<Bit>)
    requires a.WellFormed() && IsQuotient(a, b, c) && a.IsOutput(y)
    ensures c.IsOutput(Lower(b, y))
  {
  }

  /** The dimension lists of `b` can be merged into those of `a` without changing them. */
  ghost predicate OrderFits(a: LinearLayout, b: LinearLayout) {
    FollowsSecond(b.ins, a.ins) && FollowsSecond(b.outs, a.outs)
  }

  /** Multiplying back gives the same map; it is the same layout when the dimension lists come out the same. */
  lemma MultipliedBack(a: LinearLayout, b: LinearLayout, c: LinearLayout, p: LinearLayout)
    requires a.WellFormed() && b.WellFormed() && p.WellFormed() && IsProduct(a, b, c) && IsProduct(p, b, c)
    ensures p.bases == a.bases && p.outLog2 == a.outLog2
  {
    assert forall d :: d in p.bases <==> d in a.bases;
    forall d | d in a.bases ensures p.bases[d] == a.bases[d] {
      assert p.InLog2(d) == a.InLog2(d);
      forall i | 0 <= i < |a.bases[d]| ensures p.bases[d][i] == a.bases[d][i] {
        SameProductBasis(a, b, c, p, Bit(d, i));
      }
    }
    assert forall d :: d in p.outLog2 ==> p.OutLog2(d) == a.OutLog2(d);
  }

  lemma SameProductBasis(a: LinearLayout, b: LinearLayout, c: LinearLayout, p: LinearLayout, e: Bit)
    requires IsProduct(a, b, c) && IsProduct(p, b, c) && a.HasIn(e)
    ensures p.Basis(e) == a.Basis(e)
  {
    if !b.HasIn(e) {
      var below := Bit(e.dim, e.pos - b.InLog2(e.dim));
      assert AboveIn(b, below) == e && c.HasIn(below);
    }
  }

  /** Finds the layout `c` with `a` the product of `b` and `c`. It exists exactly when one is returned. `asserted` is
      the outcome of the assertion at the end, that the product is `a`, order of the dimensions included. */
  method DivideLeft(a: LinearLayout, b: LinearLayout) returns (r: Option<LinearLayout>, asserted: bool)
    requires a.WellFormed() && b.WellFormed()
    ensures r.Some? <==> HasQuotient(a, b)
    ensures r.Some? <==> exists c: LinearLayout :: c.WellFormed() && IsBlockDiagonal(a, b, c)
    ensures r.Some? ==> IsBlockDiagonal(a, b, r.value)
    ensures r.Some? ==>
      r.value.WellFormed() && IsProduct(a, b, r.value) && r.value.ins == a.ins && r.value.outs == a.outs
    ensures r.Some? ==> (a.Surjective() <==> b.Surjective() && r.value.Surjective())
    ensures r.Some? ==> (asserted <==> OrderFits(a, b))
  {
    r, asserted := None, true;
    QuotientMeans(a, b);
    if HasQuotient(a, b) {
      var c: LinearLayout :| c.WellFormed() && IsProduct(a, b, c);
      ProductIsDivisible(a, b, c);
    }
    var insThere := Contains(b.ins, a.ins);
    var outsThere := Contains(b.outs, a.outs);
    if !insThere || !outsThere {
      return;
    }
    var sizes := QuotientSizes(a, b);
    if sizes.None? {
      return;
    }
    var bases := AllQuotientBases(a, b);
    if bases.None? {
      return;
    }
    var c := LinearLayout(a.ins, bases.value, a.outs, sizes.value);
    QuotientMultiplies(a, b, c);
    ProductMeans(a, b, c);
    ProductSurjective(a, b, c);
    var p := Multiply(b, c);
    MultipliedBack(a, b, c, p);
    return Some(c), p == a;
  }

  /** The assertion holds whenever the dimensions of `b` come in the order they have in `a`. */
  lemma OrderFitsSubsequences(a: LinearLayout, b: LinearLayout)
    requires a.WellFormed() && IsSubsequence(b.ins, a.ins) && IsSubsequence(b.outs, a.outs)
    ensures OrderFits(a, b)
  {
    SubsequenceFollows(b.ins, a.ins);
    SubsequenceFollows(b.outs, a.outs);
  }

  /** A layout with dimensions of size one only. */
  function Trivial(ins: seq<string>): LinearLayout {
    LinearLayout(ins, map d | d in ins :: [], [], map[])
  }

  lemma TrivialDivides(x: seq<string>, y: seq<string>)
    requires forall d :: d in x <==> d in y
    ensures IsProduct(Trivial(x), Trivial(y), Trivial(x))
  {
  }

  /** It fails when they do not: dividing a layout by itself with two dimensions listed the other way round. */
  lemma AssertionCanFail(d: string, e: string)
    requires d != e
    ensures Trivial([d, e]).WellFormed() && Trivial([e, d]).WellFormed()
    ensures HasQuotient(Trivial([d, e]), Trivial([e, d]))
    ensures !OrderFits(Trivial([d, e]), Trivial([e, d]))
  {
    TrivialDivides([d, e], [e, d]);
    OppositeOrder(d, e);
  }

  lemma OppositeOrder(d: string, e: string)
    requires d != e
    ensures !FollowsSecond([e, d], [d, e])
  {
    IndexOfIs(d, [e, d], 1);
    IndexOfIs(e, [d, e], 1);
    assert !StepFollows([e, d], [d, e], 0);
  }
}
