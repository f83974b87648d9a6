/** Inverting one layout along another: `invertAndCompose` and the pseudo-inverse built from it. */
module LayoutInverse {
  import opened F2
  import opened LinearLayouts
  import opened LeastSquares
  import opened Options

  /** Both layouts map this input dimension in the same way, so it is converted to itself. */
  predicate IsIdentityDim(b: LinearLayout, a: LinearLayout, d: string) {
    d in a.bases && d in b.bases && a.bases[d] == b.bases[d] && a.outLog2 == b.outLog2
  }

  /** The dimensions that are left to solve for, in order. */
  function NonIdentity(b: LinearLayout, a: LinearLayout, dims: seq<string>): seq<string> {
    if dims == [] then [] else
      NonIdentity(b, a, dims[..|dims| - 1])
      + if IsIdentityDim(b, a, dims[|dims| - 1]) then [] else [dims[|dims| - 1]]
  }

  lemma {:induction false} NonIdentityIs(b: LinearLayout, a: LinearLayout, dims: seq<string>)
    ensures forall d :: d in NonIdentity(b, a, dims) <==> d in dims && !IsIdentityDim(b, a, d)
    ensures NoDuplicates(dims) ==> NoDuplicates(NonIdentity(b, a, dims))
  {
    if dims != [] {
      var init, last := dims[..|dims| - 1], dims[|dims| - 1];
      NonIdentityIs(b, a, init);
      if NoDuplicates(dims) {
        var rest := NonIdentity(b, a, init);
        assert last !in init;
        assert forall i :: 0 <= i < |rest| ==> rest[i] in rest;
      }
    }
  }

  /** Every output of `b` is a point of the output space of `a`. */
  ghost predicate Compatible(b: LinearLayout, a: LinearLayout) {
    && b.WellFormed() && a.WellFormed()
    && (forall d :: d in b.outs <==> d in a.outs)
    && (forall d :: d in b.outs ==> b.outLog2[d] <= a.outLog2[d])
  }

  ghost function FreeBits(b: LinearLayout, a: LinearLayout, layout: LinearLayout): seq<Bit> {
    InBits(layout, NonIdentity(b, a, layout.ins))
  }

  /** The condition under which the code gets through: the image of what is left of `b` lies in the image of what is
      left of `a`, and if anything is left there is an output dimension, whose name the code borrows. */
  ghost predicate Solvable(b: LinearLayout, a: LinearLayout) {
    && (NonIdentity(b, a, a.ins) == [] <==> NonIdentity(b, a, b.ins) == [])
    && (a.outs == [] ==> NonIdentity(b, a, a.ins) == [])
    && Generates(Columns(a, FreeBits(b, a, a)), Columns(b, FreeBits(b, a, b)))
  }

  lemma OutputsAreCovered(layout: LinearLayout, a: LinearLayout, bits: seq<Bit>)
    requires Compatible(layout, a)
    ensures Covers(OutBits(a, a.outs), Columns(layout, bits))
  {
    OutBitsAre(a, a.outs);
    forall c, k | 0 <= c < |bits| && k in Columns(layout, bits)[c] ensures k in OutBits(a, a.outs) {
      BasisIsOutput(layout, bits[c]);
    }
  }

  /** `bases` holds the solution columns `xs`, cut up into the dimensions of `bits` and read as bits of A. */
  ghost predicate CutUp(bases: map<string, seq<set<Bit>>>, bits: seq<Bit>, aBits: seq<Bit>, xs: seq<set<nat>>, n: nat)
    requires n <= |bits| == |xs|
  {
    forall k :: 0 <= k < n ==>
      && bits[k].dim in bases && bits[k].pos < |bases[bits[k].dim]|
      && bases[bits[k].dim][bits[k].pos] == Unflatten(aBits, xs[k])
  }

  lemma {:induction false} InBitsPrefix(layout: LinearLayout, dims: seq<string>, k: nat)
    requires k <= |dims|
    ensures InBits(layout, dims[..k]) <= InBits(layout, dims)
    decreases |dims|
  {
    if k < |dims| {
      InBitsPrefix(layout, dims[..|dims| - 1], k);
      assert dims[..|dims| - 1][..k] == dims[..k];
    } else {
      assert dims[..k] == dims;
    }
  }

  /** Where the bits of dimension `k` sit in the flattened order. */
  lemma BitsOfDim(layout: LinearLayout, dims: seq<string>, k: nat)
    requires k < |dims| && NoDuplicates(dims)
    ensures var offset, n, bits := |InBits(layout, dims[..k])|, layout.InLog2(dims[k]), InBits(layout, dims);
            && offset + n == |InBits(layout, dims[..k + 1])|
            && SitsAt(bits, offset, dims[k], n)
  {
    var before, upTo, bits := InBits(layout, dims[..k]), InBits(layout, dims[..k + 1]), InBits(layout, dims);
    InBitsPrefix(layout, dims, k);
    InBitsPrefix(layout, dims, k + 1);
    assert dims[..k + 1][..k] == dims[..k];
    assert upTo == before + DimBits(dims[k], layout.InLog2(dims[k]));
    InBitsDims(layout, dims[..k]);
    forall j | 0 <= j < |before| ensures bits[j].dim != dims[k] {
      assert bits[j] == before[j] && before[j].dim in dims[..k];
    }
    forall i | 0 <= i < layout.InLog2(dims[k]) ensures bits[|before| + i] == Bit(dims[k], i) {
      assert bits[|before| + i] == upTo[|before| + i];
    }
  }

  /** The images of `n` consecutive bits, from `offset` on. */
  function Piece(aBits: seq<Bit>, xs: seq<set<nat>>, offset: nat, n: nat): (r: seq<set<Bit>>)
    requires offset + n <= |xs|
    ensures |r| == n
  {
    seq(n, i requires 0 <= i < n => Unflatten(aBits, xs[offset + i]))
  }

  /** Bits `offset` to `offset + n` are those of dimension `d`, and no earlier bit is. */
  ghost predicate SitsAt(bits: seq<Bit>, offset: nat, d: string, n: nat) {
    && offset + n <= |bits|
    && (forall j :: 0 <= j < offset ==> bits[j].dim != d)
    && (forall i :: 0 <= i < n ==> bits[offset + i] == Bit(d, i))
  }

  lemma CutUpExtend(bases: map<string, seq<set<Bit>>>, bits: seq<Bit>, aBits: seq<Bit>, xs: seq<set<nat>>, offset: nat,
                    d: string, n: nat)
    requires offset + n <= |bits| == |xs| && CutUp(bases, bits, aBits, xs, offset) && SitsAt(bits, offset, d, n)
    ensures CutUp(bases[d := Piece(aBits, xs, offset, n)], bits, aBits, xs, offset + n)
  {
    var more := bases[d := Piece(aBits, xs, offset, n)];
    forall k | 0 <= k < offset + n
      ensures bits[k].dim in more && bits[k].pos < |more[bits[k].dim]|
      ensures more[bits[k].dim][bits[k].pos] == Unflatten(aBits, xs[k])
    {
      if k >= offset {
        assert bits[offset + (k - offset)] == Bit(d, k - offset);
      }
    }
  }

  ghost predicate Shaped(b: LinearLayout, bases: map<string, seq<set<Bit>>>, dims: seq<string>) {
    && (forall d :: d in bases <==> d in dims)
    && (forall d :: d in bases ==> |bases[d]| == b.InLog2(d))
  }

  lemma ShapedExtend(b: LinearLayout, bases: map<string, seq<set<Bit>>>, dims: seq<string>, k: nat, more: seq<set<Bit>>)
    requires k < |dims| && Shaped(b, bases, dims[..k]) && |more| == b.InLog2(dims[k])
    ensures Shaped(b, bases[dims[k] := more], dims[..k + 1])
  {
    assert dims[..k + 1] == dims[..k] + [dims[k]];
  }

  /** The first `k` dimensions have their columns. */
  ghost predicate CutDims(b: LinearLayout, dims: seq<string>, bases: map<string, seq<set<Bit>>>, aBits: seq<Bit>,
                          xs: seq<set<nat>>, k: nat)
    requires |xs| == |InBits(b, dims)| && k <= |dims|
  {
    && |InBits(b, dims[..k])| <= |xs|
    && Shaped(b, bases, dims[..k]) && CutUp(bases, InBits(b, dims), aBits, xs, |InBits(b, dims[..k])|)
  }

  lemma CutDimsExtend(b: LinearLayout, dims: seq<string>, bases: map<string, seq<set<Bit>>>, aBits: seq<Bit>,
                      xs: seq<set<nat>>, k: nat)
    requires NoDuplicates(dims) && |xs| == |InBits(b, dims)| && k < |dims| && CutDims(b, dims, bases, aBits, xs, k)
    ensures var offset, n := |InBits(b, dims[..k])|, b.InLog2(dims[k]);
            && offset + n == |InBits(b, dims[..k + 1])| && offset + n <= |xs|
            && CutDims(b, dims, bases[dims[k] := Piece(aBits, xs, offset, n)], aBits, xs, k + 1)
  {
    var offset, n := |InBits(b, dims[..k])|, b.InLog2(dims[k]);
    BitsOfDim(b, dims, k);
    CutUpExtend(bases, InBits(b, dims), aBits, xs, offset, dims[k], n);
    ShapedExtend(b, bases, dims, k, Piece(aBits, xs, offset, n));
  }

  /** Distributes the solution columns over the input dimensions they stand for. */
  method CutColumns(b: LinearLayout, dims: seq<string>, aBits: seq<Bit>, xs: seq<set<nat>>)
    returns (bases: map<string, seq<set<Bit>>>)
    requires NoDuplicates(dims) && |xs| == |InBits(b, dims)|
    ensures Shaped(b, bases, dims)
    ensures CutUp(bases, InBits(b, dims), aBits, xs, |xs|)
  {
    bases := map[];
    var offset := 0;
    for k := 0 to |dims|
      invariant offset == |InBits(b, dims[..k])| && CutDims(b, dims, bases, aBits, xs, k)
    {
      var n := b.InLog2(dims[k]);
      CutDimsExtend(b, dims, bases, aBits, xs, k);
      bases := bases[dims[k] := Piece(aBits, xs, offset, n)];
      offset := offset + n;
    }
    assert dims[..|dims|] == dims;
  }

  /** What `invertAndCompose` builds: solution columns on the dimensions that were solved for, identities on the
      rest. */
  ghost predicate Built(b: LinearLayout, a: LinearLayout, xs: seq<set<nat>>, r: LinearLayout) {
    && r.ins == b.ins && r.outs == a.ins
    && Shaped(b, r.bases, b.ins)
    && (forall d :: d in r.outLog2 <==> d in a.ins) && (forall d :: d in r.outLog2 ==> r.outLog2[d] == a.InLog2(d))
    && (forall d, i :: d in r.bases && IsIdentityDim(b, a, d) && 0 <= i < |r.bases[d]| ==> r.bases[d][i] == {Bit(d, i)})
    && |xs| == |FreeBits(b, a, b)| && CutUp(r.bases, FreeBits(b, a, b), FreeBits(b, a, a), xs, |xs|)
  }

  /** The basis of a bit that was solved for. */
  lemma SolvedBasis(b: LinearLayout, a: LinearLayout, xs: seq<set<nat>>, r: LinearLayout, d: string, i: nat)
    returns (k: nat)
    requires Compatible(b, a) && Built(b, a, xs, r)
    requires d in b.bases && i < |b.bases[d]| && !IsIdentityDim(b, a, d)
    ensures k < |xs| && FreeBits(b, a, b)[k] == Bit(d, i)
    ensures r.bases[d][i] == Unflatten(FreeBits(b, a, a), xs[k])
  {
    NonIdentityIs(b, a, b.ins);
    InBitsAre(b, NonIdentity(b, a, b.ins));
    assert Bit(d, i) in FreeBits(b, a, b);
    k :| 0 <= k < |FreeBits(b, a, b)| && FreeBits(b, a, b)[k] == Bit(d, i);
  }

  /** On every bit of `b`, the result followed by `a` is `b`. */
  lemma BuiltSolvesBit(b: LinearLayout, a: LinearLayout, xs: seq<set<nat>>, r: LinearLayout, c: Bit)
    requires Compatible(b, a) && Built(b, a, xs, r) && b.HasIn(c)
    requires Solves(Columns(a, FreeBits(b, a, a)), Columns(b, FreeBits(b, a, b)), xs)
    ensures a.Apply(r.Basis(c)) == b.Basis(c)
    ensures a.IsInput(r.Basis(c))
  {
    if IsIdentityDim(b, a, c.dim) {
      assert r.Basis(c) == {c};
      ApplyBit(a, c);
    } else {
      var k := SolvedBasis(b, a, xs, r, c.dim, c.pos);
      NonIdentityIs(b, a, a.ins);
      InBitsAre(a, NonIdentity(b, a, a.ins));
      FlatApply(a, FreeBits(b, a, a), xs[k]);
      forall e | e in Unflatten(FreeBits(b, a, a), xs[k]) ensures a.HasIn(e) {
        assert e in FreeBits(b, a, a);
      }
    }
  }

  lemma BuiltIsInverse(b: LinearLayout, a: LinearLayout, xs: seq<set<nat>>, r: LinearLayout)
    requires Compatible(b, a) && Built(b, a, xs, r)
    requires Solves(Columns(a, FreeBits(b, a, a)), Columns(b, FreeBits(b, a, b)), xs)
    ensures r.WellFormed()
    ensures forall x :: b.IsInput(x) ==> a.Apply(r.Apply(x)) == b.Apply(x)
  {
    forall d, i | d in r.bases && 0 <= i < |r.bases[d]| ensures r.IsOutput(r.bases[d][i]) {
      BuiltSolvesBit(b, a, xs, r, Bit(d, i));
      assert r.Basis(Bit(d, i)) == r.bases[d][i];
    }
    forall x | b.IsInput(x) ensures a.Apply(r.Apply(x)) == b.Apply(x) {
      forall c | c in x ensures a.Apply(r.Basis(c)) == b.Basis(c) {
        BuiltSolvesBit(b, a, xs, r, c);
      }
      ComposesBitwise(r, a, b, x);
    }
  }

  /** Adds the identity maps of the dimensions both layouts share. */
  method AddIdentities(b: LinearLayout, a: LinearLayout, solved: map<string, seq<set<Bit>>>, ghost bDims: seq<string>,
                       ghost aBits: seq<Bit>, ghost xs: seq<set<nat>>)
    returns (bases: map<string, seq<set<Bit>>>)
    requires Shaped(b, solved, bDims)
    requires forall d :: d in bDims <==> d in b.ins && !IsIdentityDim(b, a, d)
    requires |xs| == |InBits(b, bDims)| && CutUp(solved, InBits(b, bDims), aBits, xs, |xs|)
    ensures Shaped(b, bases, b.ins)
    ensures forall d, i :: d in bases && IsIdentityDim(b, a, d) && 0 <= i < |bases[d]| ==> bases[d][i] == {Bit(d, i)}
    ensures CutUp(bases, InBits(b, bDims), aBits, xs, |xs|)
  {
    bases := solved;
    InBitsDims(b, bDims);
    for k := 0 to |b.ins|
      invariant forall d :: d in bases <==> d in bDims || (d in b.ins[..k] && IsIdentityDim(b, a, d))
      invariant forall d :: d in bases ==> |bases[d]| == b.InLog2(d)
      invariant forall d :: d in bDims ==> bases[d] == solved[d]
      invariant forall d, i :: d in bases && IsIdentityDim(b, a, d) && 0 <= i < |bases[d]| ==>
        bases[d][i] == {Bit(d, i)}
    {
      var d := b.ins[k];
      if IsIdentityDim(b, a, d) {
        bases := bases[d := seq(b.InLog2(d), i requires 0 <= i < b.InLog2(d) => {Bit(d, i)})];
      }
    }
    assert b.ins[..|b.ins|] == b.ins;
    assert forall j :: 0 <= j < |xs| ==> InBits(b, bDims)[j].dim in bDims;
  }

  function Assembled(b: LinearLayout, a: LinearLayout, bases: map<string, seq<set<Bit>>>): LinearLayout {
    LinearLayout(b.ins, bases, a.ins, map d | d in a.bases :: a.InLog2(d))
  }

  lemma AssembledIsBuilt(b: LinearLayout, a: LinearLayout, bases: map<string, seq<set<Bit>>>, xs: seq<set<nat>>)
    requires Compatible(b, a)
    requires Shaped(b, bases, b.ins)
    requires forall d, i :: d in bases && IsIdentityDim(b, a, d) && 0 <= i < |bases[d]| ==> bases[d][i] == {Bit(d, i)}
    requires |xs| == |FreeBits(b, a, b)| && CutUp(bases, FreeBits(b, a, b), FreeBits(b, a, a), xs, |xs|)
    ensures Built(b, a, xs, Assembled(b, a, bases))
  {
  }

  // ----- What the result does to the dimensions of either kind

  /** The two layouts have this dimension in common: the same bases into the same output space. */
  ghost predicate Shares(b: LinearLayout, a: LinearLayout, d: string) {
    d in b.bases && d in a.bases && b.bases[d] == a.bases[d] && b.outLog2 == a.outLog2
  }

  /** The point has no coordinate in a shared dimension. */
  ghost predicate Beside(b: LinearLayout, a: LinearLayout, x: set<Bit>) {
    forall e :: e in x ==> !Shares(b, a, e.dim)
  }

  /** Shared dimensions are mapped to themselves, bit by bit, and the others stay among themselves. */
  ghost predicate KeepsShared(b: LinearLayout, a: LinearLayout, r: LinearLayout) {
    && (forall e :: b.HasIn(e) && Shares(b, a, e.dim) ==> r.Basis(e) == {e})
    && (forall e :: b.HasIn(e) && !Shares(b, a, e.dim) ==> Beside(b, a, r.Basis(e)))
  }

  ghost predicate IsAnswered(b: LinearLayout, a: LinearLayout, x: set<Bit>) {
    exists y :: a.IsInput(y) && Beside(b, a, y) && a.Apply(y) == b.Apply(x)
  }

  /** Without their shared dimensions, everything that `b` reaches `a` reaches, and both or neither have dimensions
      left. If any are left there is an output dimension. */
  ghost predicate CanSolve(b: LinearLayout, a: LinearLayout) {
    && ((exists d :: d in a.ins && !Shares(b, a, d)) <==> (exists d :: d in b.ins && !Shares(b, a, d)))
    && (a.outs == [] ==> forall d :: d in a.ins ==> Shares(b, a, d))
    && forall x :: b.IsInput(x) && Beside(b, a, x) ==> IsAnswered(b, a, x)
  }

  lemma DimensionsLeft(b: LinearLayout, a: LinearLayout, dims: seq<string>)
    ensures forall d :: d in NonIdentity(b, a, dims) <==> d in dims && !Shares(b, a, d)
    ensures NonIdentity(b, a, dims) == [] <==> forall d :: d in dims ==> Shares(b, a, d)
  {
    NonIdentityIs(b, a, dims);
    var left := NonIdentity(b, a, dims);
    if left != [] {
      assert left[0] in left;
    }
  }

  lemma FreeBitsAre(b: LinearLayout, a: LinearLayout, layout: LinearLayout)
    requires layout.WellFormed()
    ensures NoDuplicates(FreeBits(b, a, layout))
    ensures forall e :: e in FreeBits(b, a, layout) <==> layout.HasIn(e) && !Shares(b, a, e.dim)
  {
    DimensionsLeft(b, a, layout.ins);
    NonIdentityIs(b, a, layout.ins);
    InBitsAre(layout, NonIdentity(b, a, layout.ins));
  }

  lemma FreePoint(b: LinearLayout, a: LinearLayout, layout: LinearLayout, v: set<nat>)
    requires Compatible(b, a) && (layout == a || layout == b)
    ensures var x := Unflatten(FreeBits(b, a, layout), v);
            && layout.IsInput(x) && Beside(b, a, x)
            && layout.Apply(x) == F2.Apply(Columns(layout, FreeBits(b, a, layout)), v)
  {
    FreeBitsAre(b, a, layout);
    FlatApply(layout, FreeBits(b, a, layout), v);
    forall e | e in Unflatten(FreeBits(b, a, layout), v) ensures e in FreeBits(b, a, layout) {
    }
  }

  lemma FlatPoint(b: LinearLayout, a: LinearLayout, layout: LinearLayout, x: set<Bit>)
    requires Compatible(b, a) && (layout == a || layout == b) && layout.IsInput(x) && Beside(b, a, x)
    ensures layout.Apply(x) == F2.Apply(Columns(layout, FreeBits(b, a, layout)), Flatten(FreeBits(b, a, layout), x))
  {
    FreeBitsAre(b, a, layout);
    UnflattenFlatten(FreeBits(b, a, layout), x);
    FlatApply(layout, FreeBits(b, a, layout), Flatten(FreeBits(b, a, layout), x));
  }

  lemma GeneratesAnswers(b: LinearLayout, a: LinearLayout)
    requires Compatible(b, a) && Generates(Columns(a, FreeBits(b, a, a)), Columns(b, FreeBits(b, a, b)))
    ensures forall x :: b.IsInput(x) && Beside(b, a, x) ==> IsAnswered(b, a, x)
  {
    forall x | b.IsInput(x) && Beside(b, a, x) ensures IsAnswered(b, a, x) {
      FlatPoint(b, a, b, x);
      SpanWithin(Columns(a, FreeBits(b, a, a)), Columns(b, FreeBits(b, a, b)), Flatten(FreeBits(b, a, b), x));
      var v :| F2.Apply(Columns(a, FreeBits(b, a, a)), v) == b.Apply(x);
      FreePoint(b, a, a, v);
    }
  }

  lemma AnswersGenerate(b: LinearLayout, a: LinearLayout)
    requires Compatible(b, a) && forall x :: b.IsInput(x) && Beside(b, a, x) ==> IsAnswered(b, a, x)
    ensures Generates(Columns(a, FreeBits(b, a, a)), Columns(b, FreeBits(b, a, b)))
  {
    var bits := FreeBits(b, a, b);
    FreeBitsAre(b, a, b);
    forall k | 0 <= k < |bits| ensures InSpan(Columns(a, FreeBits(b, a, a)), Columns(b, bits)[k]) {
      assert bits[k] in bits;
      ApplyBit(b, bits[k]);
      assert b.IsInput({bits[k]}) && Beside(b, a, {bits[k]});
      assert IsAnswered(b, a, {bits[k]});
      var y :| a.IsInput(y) && Beside(b, a, y) && a.Apply(y) == b.Apply({bits[k]});
      FlatPoint(b, a, a, y);
    }
  }

  /** What `Solvable` says about dimensions, without the lists of those that are left. */
  lemma NoneLeft(b: LinearLayout, a: LinearLayout, layout: LinearLayout)
    ensures NonIdentity(b, a, layout.ins) == [] <==> !exists d :: d in layout.ins && !Shares(b, a, d)
  {
    DimensionsLeft(b, a, layout.ins);
  }

  lemma SolvableMeans(b: LinearLayout, a: LinearLayout)
    requires Compatible(b, a)
    ensures Solvable(b, a) <==> CanSolve(b, a)
  {
    NoneLeft(b, a, a);
    NoneLeft(b, a, b);
    if Generates(Columns(a, FreeBits(b, a, a)), Columns(b, FreeBits(b, a, b))) {
      GeneratesAnswers(b, a);
    } else if forall x :: b.IsInput(x) && Beside(b, a, x) ==> IsAnswered(b, a, x) {
      AnswersGenerate(b, a);
    }
  }

  lemma BuiltKeepsShared(b: LinearLayout, a: LinearLayout, xs: seq<set<nat>>, r: LinearLayout)
    requires Compatible(b, a) && Built(b, a, xs, r)
    ensures KeepsShared(b, a, r)
  {
    forall e | b.HasIn(e)
      ensures if Shares(b, a, e.dim) then r.Basis(e) == {e} else Beside(b, a, r.Basis(e)) {
      assert r.Basis(e) == r.bases[e.dim][e.pos];
      if !Shares(b, a, e.dim) {
        var k := SolvedBasis(b, a, xs, r, e.dim, e.pos);
        FreePoint(b, a, a, xs[k]);
      }
    }
  }

  /** X with outer(X(x)) == b(x) for every x. It fails, where the code asserts or looks for the first of no output
      dimensions, exactly when what is left after the dimensions both layouts share cannot be solved. */
  method InvertAndCompose(b: LinearLayout, outer: LinearLayout)
    returns (r: Option<LinearLayout>, ghost xs: seq<set<nat>>)
    requires Compatible(b, outer)
    ensures r.Some? <==> Solvable(b, outer)
    ensures r.Some? ==> r.value.WellFormed() && Built(b, outer, xs, r.value)
    ensures r.Some? ==> Solves(Columns(outer, FreeBits(b, outer, outer)), Columns(b, FreeBits(b, outer, b)), xs)
    ensures r.Some? ==> forall x :: b.IsInput(x) ==> outer.Apply(r.value.Apply(x)) == b.Apply(x)
    ensures r.Some? <==> CanSolve(b, outer)
    ensures r.Some? ==> KeepsShared(b, outer, r.value)
  {
    SolvableMeans(b, outer);
    var aDims := NonIdentity(b, outer, outer.ins);
    var bDims := NonIdentity(b, outer, b.ins);
    NonIdentityIs(b, outer, b.ins);
    xs := [];
    if (aDims == []) != (bDims == []) || (aDims != [] && outer.outs == []) {
      return None, [];
    }
    var aBits, bBits := InBits(outer, aDims), InBits(b, bDims);
    OutputsAreCovered(outer, outer, aBits);
    OutputsAreCovered(b, outer, bBits);
    var solution := Lstsq(Columns(outer, aBits), Columns(b, bBits), OutBits(outer, outer.outs));
    if solution.None? {
      return None, [];
    }
    xs := solution.value;
    var bases := CutColumns(b, bDims, aBits, solution.value);
    bases := AddIdentities(b, outer, bases, bDims, aBits, xs);
    AssembledIsBuilt(b, outer, bases, xs);
    BuiltIsInverse(b, outer, xs, Assembled(b, outer, bases));
    BuiltKeepsShared(b, outer, xs, Assembled(b, outer, bases));
    r := Some(Assembled(b, outer, bases));
  }

  // ----- The pseudo-inverse

  /** The identity on the output space of `layout`. */
  function IdentityOn(layout: LinearLayout): LinearLayout {
    LinearLayout(layout.outs,
                 map d | d in layout.outLog2 ::
                   seq(layout.outLog2[d], i requires 0 <= i < layout.outLog2[d] => {Bit(d, i)}),
                 layout.outs, layout.outLog2)
  }

  lemma IdentityBasis(layout: LinearLayout, b: Bit)
    requires layout.HasOut(b)
    ensures IdentityOn(layout).Basis(b) == {b}
  {
  }

  lemma {:induction false} IdentityApply(layout: LinearLayout, y: set<Bit>)
    requires layout.IsOutput(y)
    ensures IdentityOn(layout).Apply(y) == y
    decreases |y|
  {
    if y != {} {
      var b :| b in y;
      IdentityApply(layout, y - {b});
      ApplyTakes(IdentityOn(layout), y, b);
      IdentityBasis(layout, b);
      TakeXor(y, b);
    }
  }

  ghost predicate NoSharedNames(layout: LinearLayout) {
    forall d :: d in layout.ins ==> d !in layout.outs
  }

  /** No dimension of the layout is mapped to itself. */
  ghost predicate NoIdentityDims(layout: LinearLayout) {
    forall d :: !IsIdentityDim(IdentityOn(layout), layout, d)
  }

  lemma {:induction false} NothingShared(layout: LinearLayout, dims: seq<string>)
    requires NoIdentityDims(layout)
    ensures NonIdentity(IdentityOn(layout), layout, dims) == dims
  {
    if dims != [] {
      NothingShared(layout, dims[..|dims| - 1]);
    }
  }

  lemma SurjectiveGenerates(layout: LinearLayout)
    requires layout.WellFormed() && layout.Surjective()
    ensures Generates(Columns(layout, InBits(layout, layout.ins)),
                      Columns(IdentityOn(layout), InBits(IdentityOn(layout), layout.outs)))
  {
    var id := IdentityOn(layout);
    var a, bBits := Columns(layout, InBits(layout, layout.ins)), InBits(id, layout.outs);
    InBitsAre(id, layout.outs);
    forall k | 0 <= k < |bBits| ensures InSpan(a, Columns(id, bBits)[k]) {
      assert bBits[k] in bBits && id.Basis(bBits[k]) == {bBits[k]};
      SurjectiveSpans(layout, id.Basis(bBits[k]));
    }
  }

  lemma GeneratesSurjective(layout: LinearLayout)
    requires layout.WellFormed()
    requires Generates(Columns(layout, InBits(layout, layout.ins)),
                       Columns(IdentityOn(layout), InBits(IdentityOn(layout), layout.outs)))
    ensures layout.Surjective()
  {
    forall y | layout.IsOutput(y) ensures layout.Reaches(y) {
      UnitsReach(layout, y);
    }
  }

  /** With all dimensions to solve for, solvability is surjectivity. */
  lemma SolvableIffGenerating(layout: LinearLayout)
    requires layout.WellFormed() && NoIdentityDims(layout)
    ensures Solvable(IdentityOn(layout), layout) <==> layout.Surjective() && (layout.ins == [] <==> layout.outs == [])
  {
    NothingShared(layout, layout.ins);
    NothingShared(layout, layout.outs);
    if layout.Surjective() {
      SurjectiveGenerates(layout);
    }
    if Solvable(IdentityOn(layout), layout) {
      GeneratesSurjective(layout);
    }
  }

  lemma SolvableIffSurjective(layout: LinearLayout)
    requires layout.WellFormed() && NoSharedNames(layout)
    ensures Solvable(IdentityOn(layout), layout) <==> layout.Surjective() && (layout.ins == [] <==> layout.outs == [])
  {
    SolvableIffGenerating(layout);
  }

  /** So it is with one dimension that has the same name on both sides, such as the permutation of the lanes of a
      warp. */
  lemma SolvableIffSurjectiveInOneDim(layout: LinearLayout, d: string)
    requires layout.WellFormed() && layout.ins == layout.outs == [d]
    ensures Solvable(IdentityOn(layout), layout) <==> layout.Surjective()
  {
    var id := IdentityOn(layout);
    if IsIdentityDim(id, layout, d) {
      assert layout.outs[..0] == [];
      assert NonIdentity(id, layout, layout.outs) == [];
      forall y | layout.IsOutput(y) ensures layout.Reaches(y) {
        IdentityApply(layout, y);
        SameBases(layout, id, y);
        assert layout.IsInput(y);
      }
    } else {
      SolvableIffGenerating(layout);
    }
  }

  lemma SurjectiveSpans(layout: LinearLayout, y: set<Bit>)
    requires layout.WellFormed() && layout.Surjective() && layout.IsOutput(y)
    ensures InSpan(Columns(layout, InBits(layout, layout.ins)), y)
  {
    var bits := InBits(layout, layout.ins);
    InBitsAre(layout, layout.ins);
    assert layout.Reaches(y);
    var x :| layout.IsInput(x) && layout.Apply(x) == y;
    var v := Flatten(bits, x);
    UnflattenFlatten(bits, x);
    FlatApply(layout, bits, v);
  }

  lemma ReachesXor(layout: LinearLayout, y: set<Bit>, z: set<Bit>)
    requires layout.Reaches(y) && layout.Reaches(z)
    ensures layout.Reaches(Xor(y, z))
  {
    var p :| layout.IsInput(p) && layout.Apply(p) == y;
    var q :| layout.IsInput(q) && layout.Apply(q) == z;
    ApplyLinear(layout, p, q);
    assert layout.IsInput(Xor(p, q));
  }

  lemma {:induction false} UnitsReach(layout: LinearLayout, y: set<Bit>)
    requires layout.WellFormed() && layout.IsOutput(y)
    requires Generates(Columns(layout, InBits(layout, layout.ins)),
                       Columns(IdentityOn(layout), InBits(IdentityOn(layout), layout.outs)))
    ensures layout.Reaches(y)
    decreases |y|
  {
    if y == {} {
      assert layout.IsInput({}) && layout.Apply({}) == y;
    } else {
      var b :| b in y;
      UnitsReach(layout, y - {b});
      UnitReached(layout, b);
      ReachesXor(layout, y - {b}, {b});
      TakeXor(y, b);
    }
  }

  lemma UnitReached(layout: LinearLayout, b: Bit)
    requires layout.WellFormed() && layout.HasOut(b)
    requires Generates(Columns(layout, InBits(layout, layout.ins)),
                       Columns(IdentityOn(layout), InBits(IdentityOn(layout), layout.outs)))
    ensures layout.Reaches({b})
  {
    var id := IdentityOn(layout);
    var aBits, bBits := InBits(layout, layout.ins), InBits(id, layout.outs);
    InBitsAre(id, layout.outs);
    InBitsAre(layout, layout.ins);
    assert b in bBits;
    var k :| 0 <= k < |bBits| && bBits[k] == b;
    assert Columns(id, bBits)[k] == {b};
    var v :| F2.Apply(Columns(layout, aBits), v) == {b};
    FlatApply(layout, aBits, v);
    assert layout.IsInput(Unflatten(aBits, v));
  }

  lemma IdentityIsCompatible(layout: LinearLayout)
    requires layout.WellFormed()
    ensures Compatible(IdentityOn(layout), layout)
  {
  }

  lemma {:induction false} UnflattenApply(bits: seq<Bit>, cols: seq<set<nat>>, images: seq<set<Bit>>, v: set<nat>)
    requires NoDuplicates(bits) && |images| == |cols|
    requires forall k :: 0 <= k < |cols| ==> images[k] == Unflatten(bits, cols[k])
    ensures F2.Apply(images, v) == Unflatten(bits, F2.Apply(cols, v))
  {
    if cols == [] {
      assert Unflatten(bits, {}) == {};
    } else {
      var n := |cols| - 1;
      UnflattenApply(bits, cols[..n], images[..n], v);
      UnflattenXor(bits, F2.Apply(cols[..n], v), if n in v then cols[n] else {});
      assert Unflatten(bits, {}) == {};
    }
  }

  /** The flattened columns of an inverse. */
  ghost function FlatColumns(r: LinearLayout, aBits: seq<Bit>, bBits: seq<Bit>): seq<set<nat>> {
    seq(|bBits|, k requires 0 <= k < |bBits| => Flatten(aBits, r.Basis(bBits[k])))
  }

  ghost predicate InverseShape(layout: LinearLayout, r: LinearLayout) {
    && layout.WellFormed() && r.WellFormed()
    && (forall b :: r.HasIn(b) <==> layout.HasOut(b)) && (forall b :: r.HasOut(b) <==> layout.HasIn(b))
  }

  lemma FlatColumnsApply(layout: LinearLayout, r: LinearLayout, v: set<nat>)
    requires InverseShape(layout, r)
    ensures var aBits, bBits := InBits(layout, layout.ins), OutBits(layout, layout.outs);
            r.Apply(Unflatten(bBits, v)) == Unflatten(aBits, F2.Apply(FlatColumns(r, aBits, bBits), v))
  {
    var aBits, bBits := InBits(layout, layout.ins), OutBits(layout, layout.outs);
    InBitsAre(layout, layout.ins);
    OutBitsAre(layout, layout.outs);
    FlatApply(r, bBits, v);
    forall k | 0 <= k < |bBits| ensures Columns(r, bBits)[k] == Unflatten(aBits, FlatColumns(r, aBits, bBits)[k]) {
      BasisIsOutput(r, bBits[k]);
      forall b | b in r.Basis(bBits[k]) ensures b in aBits {
        assert layout.HasIn(b);
      }
      UnflattenFlatten(aBits, r.Basis(bBits[k]));
    }
    UnflattenApply(aBits, FlatColumns(r, aBits, bBits), Columns(r, bBits), v);
  }

  lemma UnflattenIsOutput(layout: LinearLayout, v: set<nat>)
    requires layout.WellFormed()
    ensures layout.IsOutput(Unflatten(OutBits(layout, layout.outs), v))
  {
    var bits := OutBits(layout, layout.outs);
    OutBitsAre(layout, layout.outs);
    forall b | b in Unflatten(bits, v) ensures layout.HasOut(b) {
      assert b in bits;
    }
  }

  lemma InverseIsBasis(layout: LinearLayout, r: LinearLayout)
    requires InverseShape(layout, r) && Square(layout)
    requires forall y :: layout.IsOutput(y) ==> layout.Apply(r.Apply(y)) == y
    ensures IsBasis(FlatColumns(r, InBits(layout, layout.ins), OutBits(layout, layout.outs)),
                    |InBits(layout, layout.ins)|)
  {
    var aBits, bBits := InBits(layout, layout.ins), OutBits(layout, layout.outs);
    var cols := FlatColumns(r, aBits, bBits);
    forall v | Fits(v, |cols|) && F2.Apply(cols, v) == {} ensures v == {} {
      FlatColumnsApply(layout, r, v);
      assert Unflatten(aBits, {}) == {};
      UnflattenIsOutput(layout, v);
      UnflattenEmpty(bBits, v);
    }
  }

  /** A right inverse of a square layout is a left inverse too. */
  lemma SquareInverse(layout: LinearLayout, r: LinearLayout)
    requires InverseShape(layout, r) && Square(layout)
    requires forall y :: layout.IsOutput(y) ==> layout.Apply(r.Apply(y)) == y
    ensures forall x :: layout.IsInput(x) ==> r.Apply(layout.Apply(x)) == x
  {
    var aBits, bBits := InBits(layout, layout.ins), OutBits(layout, layout.outs);
    InverseIsBasis(layout, r);
    InBitsAre(layout, layout.ins);
    forall x | layout.IsInput(x) ensures r.Apply(layout.Apply(x)) == x {
      forall b | b in x ensures b in aBits {
        assert layout.HasIn(b);
      }
      UnflattenFlatten(aBits, x);
      var v := BasisIsBijection(FlatColumns(r, aBits, bBits), |aBits|, Flatten(aBits, x));
      FlatColumnsApply(layout, r, v);
      UnflattenIsOutput(layout, v);
    }
  }

  lemma BuiltIsInverseShape(layout: LinearLayout, xs: seq<set<nat>>, r: LinearLayout)
    requires layout.WellFormed() && r.WellFormed() && Built(IdentityOn(layout), layout, xs, r)
    ensures InverseShape(layout, r)
  {
  }

  /** A right inverse, so that the layout is surjective. It exists exactly when what is left after the dimensions the
      layout maps to themselves can be solved. */
  method Pseudoinvert(layout: LinearLayout) returns (r: Option<LinearLayout>)
    requires layout.WellFormed()
    ensures r.Some? <==> Solvable(IdentityOn(layout), layout)
    ensures r.Some? ==> layout.Surjective()
    ensures r.Some? ==> r.value.WellFormed() && r.value.ins == layout.outs && r.value.outs == layout.ins
    ensures r.Some? ==> forall y :: layout.IsOutput(y) ==> layout.Apply(r.value.Apply(y)) == y
    ensures r.Some? && Square(layout) ==> forall x :: layout.IsInput(x) ==> r.value.Apply(layout.Apply(x)) == x
  {
    ghost var xs;
    IdentityIsCompatible(layout);
    r, xs := InvertAndCompose(IdentityOn(layout), layout);
    if r.Some? {
      RightInverse(layout, r.value);
      BuiltIsInverseShape(layout, xs, r.value);
      InverseReaches(layout, r.value);
      if Square(layout) {
        SquareInverse(layout, r.value);
      }
    }
  }

  lemma InverseReaches(layout: LinearLayout, r: LinearLayout)
    requires InverseShape(layout, r)
    requires forall y :: layout.IsOutput(y) ==> layout.Apply(r.Apply(y)) == y
    ensures layout.Surjective()
  {
    forall y | layout.IsOutput(y) ensures layout.Reaches(y) {
      ApplyIsOutput(r, y);
      assert layout.IsInput(r.Apply(y));
    }
  }

  lemma RightInverse(layout: LinearLayout, r: LinearLayout)
    requires forall x :: IdentityOn(layout).IsInput(x) ==> layout.Apply(r.Apply(x)) == IdentityOn(layout).Apply(x)
    ensures forall y :: layout.IsOutput(y) ==> layout.Apply(r.Apply(y)) == y
  {
    forall y | layout.IsOutput(y) ensures layout.Apply(r.Apply(y)) == y {
      IdentityApply(layout, y);
      assert IdentityOn(layout).IsInput(y);
    }
  }

  /** As many input bits as output bits. */
  ghost predicate Square(layout: LinearLayout) {
    |InBits(layout, layout.ins)| == |OutBits(layout, layout.outs)|
  }

  // ----- The gap the code leaves

  const O0 := Bit("o", 0)
  const O1 := Bit("o", 1)

  /** Dimension "w" goes to the low output bit, dimension "l" to `image`. */
  function TwoDims(image: set<Bit>): LinearLayout {
    LinearLayout(["w", "l"], map["w" := [{O0}], "l" := [image]], ["o"], map["o" := 2])
  }

  lemma TwoDimsRest()
    ensures var b, a := TwoDims({O0, O1}), TwoDims({O1});
            && Columns(a, FreeBits(b, a, a)) == [{O1}]
            && Columns(b, FreeBits(b, a, b)) == [{O0, O1}]
  {
    var b, a := TwoDims({O0, O1}), TwoDims({O1});
    assert b.bases["l"][0] != a.bases["l"][0];
    assert a.ins[..1] == ["w"] && ["w"][..0] == [];
    assert NonIdentity(b, a, ["w"]) == [];
    assert NonIdentity(b, a, a.ins) == ["l"];
    assert InBits(a, ["l"]) == [Bit("l", 0)] && InBits(b, ["l"]) == [Bit("l", 0)];
    assert Columns(a, [Bit("l", 0)]) == [{O1}] && Columns(b, [Bit("l", 0)]) == [{O0, O1}];
  }

  lemma TwoDimsContained(b: LinearLayout, a: LinearLayout, x: set<Bit>)
    requires b == TwoDims({O0, O1}) && a == TwoDims({O1}) && Compatible(b, a)
    ensures a.Reaches(b.Apply(x))
  {
    ApplyIsOutput(b, x);
    AllReached(b.Apply(x));
  }

  lemma NoSolution(b: LinearLayout, a: LinearLayout)
    requires Columns(a, FreeBits(b, a, a)) == [{O1}] && Columns(b, FreeBits(b, a, b)) == [{O0, O1}]
    ensures !Solvable(b, a)
  {
    forall x ensures F2.Apply([{O1}], x) != {O0, O1} {
      assert F2.Apply([{O1}][..0], x) == {};
    }
    assert !InSpan([{O1}], [{O0, O1}][0]);
  }

  /** All of the image of `b` lies in the image of `a`, and still the dimensions left to solve for cannot be solved:
      containment of the whole images is not enough, because a shared dimension keeps its part of the image. */
  lemma ContainmentIsNotEnough(b: LinearLayout, a: LinearLayout)
    requires b == TwoDims({O0, O1}) && a == TwoDims({O1})
    ensures Compatible(b, a)
    ensures forall x :: b.IsInput(x) ==> a.Reaches(b.Apply(x))
    ensures !Solvable(b, a)
  {
    TwoDimsRest();
    NoSolution(b, a);
    forall x ensures a.Reaches(b.Apply(x)) {
      TwoDimsContained(b, a, x);
    }
  }

  lemma AllReached(y: set<Bit>)
    requires forall b :: b in y ==> b == O0 || b == O1
    ensures TwoDims({O1}).Reaches(y)
  {
    var a := TwoDims({O1});
    var w: set<Bit> := if O0 in y then {Bit("w", 0)} else {};
    var l: set<Bit> := if O1 in y then {Bit("l", 0)} else {};
    ApplyBit(a, Bit("w", 0));
    ApplyBit(a, Bit("l", 0));
    ApplyLinear(a, w, l);
    assert y == Xor(if O0 in y then {O0} else {}, if O1 in y then {O1} else {});
    assert a.IsInput(Xor(w, l));
  }

  // ----- Surjectivity is not enough where names are shared

  const A0 := Bit("a", 0)
  const B0 := Bit("b", 0)

  /** Dimension "a" is mapped to itself, and "c" to both output bits. */
  const OVERLAPPING := LinearLayout(["a", "c"], map["a" := [{A0}], "c" := [{A0, B0}]],
                                    ["a", "b"], map["a" := 1, "b" := 1])

  lemma OverlappingReaches(layout: LinearLayout, y: set<Bit>)
    requires layout == OVERLAPPING && layout.IsOutput(y)
    ensures layout.Reaches(y)
  {
    var c: set<Bit> := if B0 in y then {Bit("c", 0)} else {};
    var a: set<Bit> := if (A0 in y) != (B0 in y) then {A0} else {};
    ApplyBit(layout, A0);
    ApplyBit(layout, Bit("c", 0));
    ApplyLinear(layout, a, c);
    assert forall b :: b in y ==> b == A0 || b == B0;
    assert y == Xor(if (A0 in y) != (B0 in y) then {A0} else {}, if B0 in y then {A0, B0} else {});
    assert layout.IsInput(Xor(a, c));
  }

  lemma OverlappingRest(layout: LinearLayout, id: LinearLayout)
    requires layout == OVERLAPPING && id == IdentityOn(layout)
    ensures Columns(layout, FreeBits(id, layout, layout)) == [{A0, B0}]
    ensures Columns(id, FreeBits(id, layout, id)) == [{B0}]
  {
    assert id.bases["a"] == [{A0}] && id.bases["b"] == [{B0}];
    assert layout.ins[..1] == ["a"] == layout.outs[..1] && ["a"][..0] == [];
    assert NonIdentity(id, layout, ["a"]) == [];
    assert NonIdentity(id, layout, layout.ins) == ["c"] && NonIdentity(id, layout, layout.outs) == ["b"];
    assert InBits(layout, ["c"]) == [Bit("c", 0)] && InBits(id, ["b"]) == [Bit("b", 0)];
  }

  lemma OverlappingUnsolvable(layout: LinearLayout, id: LinearLayout)
    requires Columns(layout, FreeBits(id, layout, layout)) == [{A0, B0}]
    requires Columns(id, FreeBits(id, layout, id)) == [{B0}]
    ensures !Solvable(id, layout)
  {
    forall x ensures F2.Apply([{A0, B0}], x) != {B0} {
      assert F2.Apply([{A0, B0}][..0], x) == {};
    }
    assert !InSpan([{A0, B0}], [{B0}][0]);
  }

  lemma OverlappingSurjective(layout: LinearLayout)
    requires layout == OVERLAPPING
    ensures layout.Surjective()
  {
    forall y | layout.IsOutput(y) ensures layout.Reaches(y) {
      OverlappingReaches(layout, y);
    }
  }

  lemma OverlappingWellFormed(layout: LinearLayout)
    requires layout == OVERLAPPING
    ensures layout.WellFormed()
  {
    forall d, i | d in layout.bases && 0 <= i < |layout.bases[d]| ensures layout.IsOutput(layout.bases[d][i]) {
      assert d == "a" || d == "c";
    }
  }

  /** A surjective layout, with a dimension mapped to itself, for which no pseudo-inverse is found. */
  lemma SurjectiveIsNotEnough(layout: LinearLayout, id: LinearLayout)
    requires layout == OVERLAPPING && id == IdentityOn(layout)
    ensures layout.WellFormed() && layout.Surjective()
    ensures !Solvable(id, layout)
  {
    OverlappingWellFormed(layout);
    OverlappingSurjective(layout);
    OverlappingRest(layout, id);
    OverlappingUnsolvable(layout, id);
  }
}
