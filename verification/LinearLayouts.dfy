/** Linear layouts: maps between named dimensions of power-of-two size, linear over the two-element field and
    given by the images of the input bits. */
module LinearLayouts {
  import opened F2

  /** Bit `pos` of the coordinate in dimension `dim`. A point of a layout is the set of its one bits. */
  datatype Bit = Bit(dim: string, pos: nat)

  /** `bases[d][i]` is the image of bit `i` of input dimension `d`; `outLog2[d]` is the number of bits of output
      dimension `d`. The order of the dimensions matters for flattening. */
  datatype LinearLayout = LinearLayout(ins: seq<string>, bases: map<string, seq<set<Bit>>>,
                                       outs: seq<string>, outLog2: map<string, nat>)
  {
    ghost predicate WellFormed() {
      && NoDuplicates(ins) && NoDuplicates(outs)
      && (forall d :: d in bases <==> d in ins)
      && (forall d :: d in outLog2 <==> d in outs)
      && (forall d, i :: d in bases && 0 <= i < |bases[d]| ==> IsOutput(bases[d][i]))
    }

    predicate HasIn(b: Bit) {
      b.dim in bases && b.pos < |bases[b.dim]|
    }

    predicate HasOut(b: Bit) {
      b.dim in outLog2 && b.pos < outLog2[b.dim]
    }

    ghost predicate IsInput(x: set<Bit>) {
      forall b :: b in x ==> HasIn(b)
    }

    ghost predicate IsOutput(y: set<Bit>) {
      forall b :: b in y ==> HasOut(b)
    }

    function Basis(b: Bit): set<Bit> {
      if HasIn(b) then bases[b.dim][b.pos] else {}
    }

    function InLog2(d: string): nat {
      if d in bases then |bases[d]| else 0
    }

    function OutLog2(d: string): nat {
      if d in outLog2 then outLog2[d] else 0
    }

    /** The image of a point: the images of its bits, added up. */
    ghost function Apply(x: set<Bit>): set<Bit> {
      if x == {} then {} else
        var b :| b in x;
        Xor(Apply(x - {b}), Basis(b))
    }

    ghost predicate Reaches(y: set<Bit>) {
      exists x :: IsInput(x) && Apply(x) == y
    }

    ghost predicate Surjective() {
      forall y :: IsOutput(y) ==> Reaches(y)
    }
  }

  ghost predicate NoDuplicates<T>(s: seq<T>) {
    forall i, j :: 0 <= i < j < |s| ==> s[i] != s[j]
  }

  // ----- Linearity

  /** Any bit can be taken out first. */
  lemma {:induction false} ApplyTakes(layout: LinearLayout, x: set<Bit>, b: Bit)
    requires b in x
    ensures layout.Apply(x) == Xor(layout.Apply(x - {b}), layout.Basis(b))
    decreases |x|
  {
    var c :| c in x && layout.Apply(x) == Xor(layout.Apply(x - {c}), layout.Basis(c));
    if c != b {
      ApplyTakes(layout, x - {c}, b);
      ApplyTakes(layout, x - {b}, c);
      assert x - {c} - {b} == x - {b} - {c};
      var rest := layout.Apply(x - {b} - {c});
      XorFacts(rest, layout.Basis(b), layout.Basis(c));
      XorFacts(rest, layout.Basis(c), layout.Basis(b));
      XorFacts(layout.Basis(b), layout.Basis(c), {});
    }
  }

  lemma ApplyPuts(layout: LinearLayout, x: set<Bit>, b: Bit)
    requires b !in x
    ensures layout.Apply(x + {b}) == Xor(layout.Apply(x), layout.Basis(b))
  {
    ApplyTakes(layout, x + {b}, b);
    assert x + {b} - {b} == x;
  }

  lemma ApplyBit(layout: LinearLayout, b: Bit)
    ensures layout.Apply({b}) == layout.Basis(b)
  {
    ApplyPuts(layout, {}, b);
    assert {} + {b} == {b};
  }

  lemma ApplyToggles(layout: LinearLayout, x: set<Bit>, b: Bit)
    ensures layout.Apply(Xor(x, {b})) == Xor(layout.Apply(x), layout.Basis(b))
  {
    if b in x {
      ApplyTakes(layout, x, b);
      assert Xor(x, {b}) == x - {b};
      XorFacts(layout.Apply(x - {b}), layout.Basis(b), layout.Basis(b));
    } else {
      ApplyPuts(layout, x, b);
      assert Xor(x, {b}) == x + {b};
    }
  }

  /** A layout is linear. */
  lemma {:induction false} ApplyLinear(layout: LinearLayout, x: set<Bit>, y: set<Bit>)
    ensures layout.Apply(Xor(x, y)) == Xor(layout.Apply(x), layout.Apply(y))
    decreases |y|
  {
    if y == {} {
      assert Xor(x, y) == x;
    } else {
      var b :| b in y;
      var rest := y - {b};
      ApplyLinear(layout, x, rest);
      ApplyToggles(layout, Xor(x, rest), b);
      ApplyTakes(layout, y, b);
      XorTake(x, y, b);
      XorFacts(layout.Apply(x), layout.Apply(rest), layout.Basis(b));
    }
  }

  lemma {:induction false} SameBases(p: LinearLayout, q: LinearLayout, x: set<Bit>)
    requires forall b :: b in x ==> p.Basis(b) == q.Basis(b)
    ensures p.Apply(x) == q.Apply(x)
    decreases |x|
  {
    if x != {} {
      var b :| b in x;
      SameBases(p, q, x - {b});
      ApplyTakes(p, x, b);
      ApplyTakes(q, x, b);
    }
  }

  lemma BasisIsOutput(layout: LinearLayout, b: Bit)
    requires layout.WellFormed()
    ensures layout.IsOutput(layout.Basis(b))
  {
  }

  lemma {:induction false} ApplyIsOutput(layout: LinearLayout, x: set<Bit>)
    requires layout.WellFormed()
    ensures layout.IsOutput(layout.Apply(x))
    decreases |x|
  {
    if x != {} {
      var b :| b in x;
      ApplyTakes(layout, x, b);
      ApplyIsOutput(layout, x - {b});
      BasisIsOutput(layout, b);
      XorIsOutput(layout, layout.Apply(x - {b}), layout.Basis(b));
    }
  }

  lemma XorIsOutput(layout: LinearLayout, y: set<Bit>, z: set<Bit>)
    requires layout.IsOutput(y) && layout.IsOutput(z)
    ensures layout.IsOutput(Xor(y, z))
  {
  }

  /** Two maps that agree on every bit agree everywhere: `first` then `second` against `direct`. */
  lemma {:induction false} ComposesBitwise(first: LinearLayout, second: LinearLayout, direct: LinearLayout, x: set<Bit>)
    requires forall b :: b in x ==> second.Apply(first.Basis(b)) == direct.Basis(b)
    ensures second.Apply(first.Apply(x)) == direct.Apply(x)
    decreases |x|
  {
    if x != {} {
      var b :| b in x;
      ComposesBitwise(first, second, direct, x - {b});
      ApplyTakes(first, x, b);
      ApplyTakes(direct, x, b);
      ApplyLinear(second, first.Apply(x - {b}), first.Basis(b));
    }
  }

  // ----- Flattening

  function DimBits(d: string, n: nat): seq<Bit> {
    seq(n, i requires 0 <= i < n => Bit(d, i))
  }

  /** The input bits of the given dimensions in flattened order. */
  function InBits(layout: LinearLayout, dims: seq<string>): seq<Bit> {
    if dims == [] then [] else
      InBits(layout, dims[..|dims| - 1]) + DimBits(dims[|dims| - 1], layout.InLog2(dims[|dims| - 1]))
  }

  function OutBits(layout: LinearLayout, dims: seq<string>): seq<Bit> {
    if dims == [] then [] else
      OutBits(layout, dims[..|dims| - 1]) + DimBits(dims[|dims| - 1], layout.OutLog2(dims[|dims| - 1]))
  }

  /** Appending the bits of a further dimension. */
  lemma BitsSnoc(bits: seq<Bit>, dims: seq<string>, d: string, n: nat)
    requires forall b :: b in bits ==> b.dim in dims
    ensures forall b :: b in bits + DimBits(d, n) <==> b in bits || (b.dim == d && b.pos < n)
    ensures NoDuplicates(dims + [d]) && NoDuplicates(bits) ==> NoDuplicates(bits + DimBits(d, n))
  {
    forall b ensures b in DimBits(d, n) <==> b.dim == d && b.pos < n {
      if b.dim == d && b.pos < n {
        assert DimBits(d, n)[b.pos] == b;
      }
    }
    if NoDuplicates(dims + [d]) {
      forall i | 0 <= i < |dims| ensures dims[i] != d {
        assert (dims + [d])[i] != (dims + [d])[|dims|];
      }
      assert forall i :: 0 <= i < |bits| ==> bits[i] in bits;
    }
  }

  lemma {:induction false} InBitsAre(layout: LinearLayout, dims: seq<string>)
    ensures forall b :: b in InBits(layout, dims) <==> b.dim in dims && b.pos < layout.InLog2(b.dim)
    ensures NoDuplicates(dims) ==> NoDuplicates(InBits(layout, dims))
  {
    if dims != [] {
      var init, last := dims[..|dims| - 1], dims[|dims| - 1];
      assert dims == init + [last];
      InBitsAre(layout, init);
      BitsSnoc(InBits(layout, init), init, last, layout.InLog2(last));
    }
  }

  lemma {:induction false} InBitsDims(layout: LinearLayout, dims: seq<string>)
    ensures forall j :: 0 <= j < |InBits(layout, dims)| ==> InBits(layout, dims)[j].dim in dims
  {
    if dims != [] {
      InBitsDims(layout, dims[..|dims| - 1]);
    }
  }

  lemma {:induction false} OutBitsAre(layout: LinearLayout, dims: seq<string>)
    ensures forall b :: b in OutBits(layout, dims) <==> b.dim in dims && b.pos < layout.OutLog2(b.dim)
    ensures NoDuplicates(dims) ==> NoDuplicates(OutBits(layout, dims))
  {
    if dims != [] {
      var init, last := dims[..|dims| - 1], dims[|dims| - 1];
      assert dims == init + [last];
      OutBitsAre(layout, init);
      BitsSnoc(OutBits(layout, init), init, last, layout.OutLog2(last));
    }
  }

  /** The bases of the given bits, side by side. */
  function Columns(layout: LinearLayout, bits: seq<Bit>): seq<set<Bit>> {
    seq(|bits|, k requires 0 <= k < |bits| => layout.Basis(bits[k]))
  }

  lemma {:induction false} SameInBits(layout: LinearLayout, other: LinearLayout, dims: seq<string>)
    requires forall d :: d in dims ==> layout.InLog2(d) == other.InLog2(d)
    ensures InBits(layout, dims) == InBits(other, dims)
  {
    if dims != [] {
      SameInBits(layout, other, dims[..|dims| - 1]);
    }
  }

  /** All bases in flattened order. */
  function FlatBases(layout: LinearLayout): seq<set<Bit>> {
    Columns(layout, InBits(layout, layout.ins))
  }

  /** The point whose flattened form is `v`. */
  function Unflatten(bits: seq<Bit>, v: set<nat>): set<Bit> {
    set k | k in v && k < |bits| :: bits[k]
  }

  /** The flattened layout is the same map. */
  lemma {:induction false} FlatApply(layout: LinearLayout, bits: seq<Bit>, v: set<nat>)
    requires NoDuplicates(bits)
    ensures layout.Apply(Unflatten(bits, v)) == F2.Apply(Columns(layout, bits), v)
  {
    if bits == [] {
      assert Unflatten(bits, v) == {};
    } else {
      var n := |bits| - 1;
      FlatApply(layout, bits[..n], v);
      assert Columns(layout, bits)[..n] == Columns(layout, bits[..n]);
      UnflattenLast(bits, v);
      if n in v {
        ApplyPuts(layout, Unflatten(bits[..n], v), bits[n]);
      } else {
        XorFacts(F2.Apply(Columns(layout, bits[..n]), v), {}, {});
        assert Unflatten(bits, v) == Unflatten(bits[..n], v);
      }
    }
  }

  lemma UnflattenEmpty(bits: seq<Bit>, v: set<nat>)
    requires Fits(v, |bits|) && Unflatten(bits, v) == {}
    ensures v == {}
  {
    forall k | 0 <= k < |bits| ensures k !in v {
      assert bits[k] !in Unflatten(bits, v);
    }
  }

  lemma UnflattenLast(bits: seq<Bit>, v: set<nat>)
    requires bits != [] && NoDuplicates(bits)
    ensures var n := |bits| - 1;
            && bits[n] !in Unflatten(bits[..n], v)
            && Unflatten(bits, v) == Unflatten(bits[..n], v) + if n in v then {bits[n]} else {}
  {
    var n := |bits| - 1;
    forall b ensures b in Unflatten(bits, v) <==> b in Unflatten(bits[..n], v) || (n in v && b == bits[n]) {
      if b in Unflatten(bits[..n], v) {
        var k :| k in v && k < n && bits[..n][k] == b;
        assert bits[k] == b;
      }
      if b in Unflatten(bits, v) {
        var k :| k in v && k < |bits| && bits[k] == b;
        assert k < n ==> bits[..n][k] == b;
      }
    }
  }

  /** The flattened form of a point. */
  function Flatten(bits: seq<Bit>, x: set<Bit>): set<nat> {
    set k: nat | k < |bits| && bits[k] in x
  }

  lemma UnflattenFlatten(bits: seq<Bit>, x: set<Bit>)
    requires forall b :: b in x ==> b in bits
    ensures Unflatten(bits, Flatten(bits, x)) == x
    ensures Fits(Flatten(bits, x), |bits|)
  {
    forall b | b in x ensures b in Unflatten(bits, Flatten(bits, x)) {
      var k :| 0 <= k < |bits| && bits[k] == b;
      assert k in Flatten(bits, x);
    }
  }

  lemma UnflattenXor(bits: seq<Bit>, p: set<nat>, q: set<nat>)
    requires NoDuplicates(bits)
    ensures Unflatten(bits, Xor(p, q)) == Xor(Unflatten(bits, p), Unflatten(bits, q))
  {
  }

  // ----- Application and composition

  /** The points of `x` among the first `n` bits of dimension `d`. */
  ghost function Part(x: set<Bit>, d: string, n: nat): set<Bit> {
    set b | b in x && b.dim == d && b.pos < n
  }

  ghost function Parts(x: set<Bit>, dims: seq<string>): set<Bit> {
    set b | b in x && b.dim in dims
  }

  lemma PartSnoc(x: set<Bit>, before: set<Bit>, d: string, i: nat)
    requires forall b :: b in before ==> b.dim != d
    ensures var part := before + Part(x, d, i);
            && Bit(d, i) !in part
            && before + Part(x, d, i + 1) == if Bit(d, i) in x then part + {Bit(d, i)} else part
  {
  }

  /** Adds the bases of the one bits of dimension `d`. */
  method EvaluateDim(layout: LinearLayout, x: set<Bit>, d: string, ghost before: set<Bit>, y: set<Bit>)
    returns (z: set<Bit>)
    requires d in layout.bases && y == layout.Apply(before) && forall b :: b in before ==> b.dim != d
    ensures z == layout.Apply(before + Part(x, d, |layout.bases[d]|))
  {
    z := y;
    assert before + Part(x, d, 0) == before;
    for i := 0 to |layout.bases[d]|
      invariant z == layout.Apply(before + Part(x, d, i))
    {
      PartSnoc(x, before, d, i);
      if Bit(d, i) in x {
        ApplyPuts(layout, before + Part(x, d, i), Bit(d, i));
        z := Xor(z, layout.bases[d][i]);
      }
    }
  }

  /** Evaluates the layout: adds the basis of every one bit, dimension by dimension. */
  method Evaluate(layout: LinearLayout, x: set<Bit>) returns (y: set<Bit>)
    requires layout.WellFormed() && layout.IsInput(x)
    ensures y == layout.Apply(x)
  {
    y := {};
    for k := 0 to |layout.ins|
      invariant y == layout.Apply(Parts(x, layout.ins[..k]))
    {
      var d := layout.ins[k];
      assert d !in layout.ins[..k];
      ghost var before := Parts(x, layout.ins[..k]);
      y := EvaluateDim(layout, x, d, before, y);
      assert Parts(x, layout.ins[..k + 1]) == before + Part(x, d, |layout.bases[d]|);
    }
    assert Parts(x, layout.ins[..|layout.ins|]) == x;
  }

  /** The output of `inner` fits the input of `outer`. */
  ghost predicate Feeds(inner: LinearLayout, outer: LinearLayout) {
    && inner.WellFormed() && outer.WellFormed()
    && (forall d :: d in inner.outs <==> d in outer.ins)
    && (forall d :: d in inner.outs ==> inner.outLog2[d] <= |outer.bases[d]|)
  }

  ghost predicate Matches(inner: LinearLayout, outer: LinearLayout)
    requires Feeds(inner, outer)
  {
    forall d :: d in inner.outs ==> inner.outLog2[d] == |outer.bases[d]|
  }

  lemma ComposeSurjective(inner: LinearLayout, outer: LinearLayout, r: LinearLayout)
    requires Feeds(inner, outer) && Matches(inner, outer) && inner.Surjective() && outer.Surjective()
    requires r.outLog2 == outer.outLog2
    requires forall x :: inner.IsInput(x) ==> r.IsInput(x) && r.Apply(x) == outer.Apply(inner.Apply(x))
    ensures r.Surjective()
  {
    forall y | r.IsOutput(y) ensures r.Reaches(y) {
      assert outer.IsOutput(y) && outer.Reaches(y);
      var z :| outer.IsInput(z) && outer.Apply(z) == y;
      assert inner.IsOutput(z) && inner.Reaches(z);
      var x :| inner.IsInput(x) && inner.Apply(x) == z;
    }
  }

  lemma FeedsOutput(inner: LinearLayout, outer: LinearLayout, y: set<Bit>)
    requires Feeds(inner, outer) && inner.IsOutput(y)
    ensures outer.IsInput(y)
  {
  }

  /** Maps the bases of one dimension through `outer`. */
  method MapBases(bases: seq<set<Bit>>, outer: LinearLayout) returns (mapped: seq<set<Bit>>)
    requires outer.WellFormed() && forall i :: 0 <= i < |bases| ==> outer.IsInput(bases[i])
    ensures |mapped| == |bases| && forall i :: 0 <= i < |bases| ==> mapped[i] == outer.Apply(bases[i])
  {
    mapped := [];
    for i := 0 to |bases|
      invariant |mapped| == i && forall j :: 0 <= j < i ==> mapped[j] == outer.Apply(bases[j])
    {
      var y := Evaluate(outer, bases[i]);
      mapped := mapped + [y];
    }
  }

  lemma MappedIsComposition(inner: LinearLayout, outer: LinearLayout, r: LinearLayout)
    requires Feeds(inner, outer)
    requires r.ins == inner.ins && r.outs == outer.outs && r.outLog2 == outer.outLog2
    requires r.bases.Keys == inner.bases.Keys
    requires forall d :: d in r.bases ==> |r.bases[d]| == |inner.bases[d]|
    requires forall d, i :: d in r.bases && 0 <= i < |r.bases[d]| ==> r.bases[d][i] == outer.Apply(inner.bases[d][i])
    ensures r.WellFormed() && forall x :: r.IsInput(x) <==> inner.IsInput(x)
    ensures forall x :: inner.IsInput(x) ==> r.Apply(x) == outer.Apply(inner.Apply(x))
    ensures inner.Surjective() && outer.Surjective() && Matches(inner, outer) ==> r.Surjective()
  {
    forall d, i | d in r.bases && 0 <= i < |r.bases[d]| ensures r.IsOutput(r.bases[d][i]) {
      ApplyIsOutput(outer, inner.bases[d][i]);
    }
    forall x | inner.IsInput(x) ensures r.Apply(x) == outer.Apply(inner.Apply(x)) {
      forall b | b in x ensures outer.Apply(inner.Basis(b)) == r.Basis(b) {
        assert inner.HasIn(b);
      }
      ComposesBitwise(inner, outer, r, x);
    }
    if inner.Surjective() && outer.Surjective() && Matches(inner, outer) {
      ComposeSurjective(inner, outer, r);
    }
  }

  /** First `inner`, then `outer`. */
  method Compose(inner: LinearLayout, outer: LinearLayout) returns (r: LinearLayout)
    requires Feeds(inner, outer)
    ensures r.WellFormed() && r.ins == inner.ins && r.outs == outer.outs && r.outLog2 == outer.outLog2
    ensures forall x :: r.IsInput(x) <==> inner.IsInput(x)
    ensures forall x :: inner.IsInput(x) ==> r.Apply(x) == outer.Apply(inner.Apply(x))
    ensures inner.Surjective() && outer.Surjective() && Matches(inner, outer) ==> r.Surjective()
  {
    var newBases: map<string, seq<set<Bit>>> := map[];
    for k := 0 to |inner.ins|
      invariant newBases.Keys == set d | d in inner.ins[..k]
      invariant forall d :: d in newBases ==> |newBases[d]| == |inner.bases[d]|
      invariant forall d, i :: d in newBases && 0 <= i < |newBases[d]| ==>
        newBases[d][i] == outer.Apply(inner.bases[d][i])
    {
      var d := inner.ins[k];
      forall i | 0 <= i < |inner.bases[d]| ensures outer.IsInput(inner.bases[d][i]) {
        FeedsOutput(inner, outer, inner.bases[d][i]);
      }
      var mapped := MapBases(inner.bases[d], outer);
      newBases := newBases[d := mapped];
    }
    assert inner.ins[..|inner.ins|] == inner.ins;
    r := LinearLayout(inner.ins, newBases, outer.outs, outer.outLog2);
    MappedIsComposition(inner, outer, r);
  }
}
