/** The rank of a layout, by which the code decides whether it is surjective or injective. */
module Rank {
  import opened Dimension
  import opened F2
  import opened GaussJordan
  import opened ReducedForm
  import opened LeastSquares
  import opened LinearLayouts
  import opened LayoutInverse

  /** The number of linearly independent columns. */
  ghost predicate IsRank<K(!new)>(columns: seq<set<K>>, rank: nat) {
    exists picked: seq<set<K>> :: IsIndependentPart(columns, picked) && |picked| == rank
  }

  // ----- Counting

  lemma {:induction false} UnitsSpan<K>(keys: seq<K>, y: set<K>)
    requires forall k :: k in y ==> k in keys
    ensures InSpan(Units(keys), y)
    decreases |y|
  {
    if y == {} {
      SpanOfZero(Units(keys));
    } else {
      var k :| k in y;
      UnitsSpan(keys, y - {k});
      var i :| 0 <= i < |keys| && keys[i] == k;
      SpanOfMember(Units(keys), i);
      SpanXor(Units(keys), y - {k}, {k});
      TakeXor(y, k);
    }
  }

  /** The columns reach everything. */
  ghost predicate Onto<K(!new)>(columns: seq<set<K>>, keys: seq<K>) {
    forall y: set<K> :: (forall k :: k in y ==> k in keys) ==> InSpan(columns, y)
  }

  lemma RankOnto<K(!new)>(columns: seq<set<K>>, keys: seq<K>, picked: seq<set<K>>)
    requires NoDuplicates(keys) && Covers(keys, columns) && IsIndependentPart(columns, picked)
    ensures |picked| <= |keys|
    ensures |picked| == |keys| <==> Onto(columns, keys)
  {
    PartWithin(columns, keys, picked);
    if Onto(columns, keys) {
      UnitsAreIndependent(keys);
      forall k | 0 <= k < |keys| ensures InSpan(picked, Units(keys)[k]) {
        GeneratesSpan(picked, columns, {keys[k]});
      }
      IndependentAreFew(Units(keys), picked);
    }
    if |picked| == |keys| {
      forall y: set<K> | forall k :: k in y ==> k in keys ensures InSpan(columns, y) {
        FullPartSpans(keys, picked, y);
        GeneratesSpan(columns, picked, y);
      }
    }
  }

  lemma PartWithin<K>(columns: seq<set<K>>, keys: seq<K>, picked: seq<set<K>>)
    requires Covers(keys, columns) && IsIndependentPart(columns, picked)
    ensures Generates(Units(keys), picked) && |picked| <= |keys|
  {
    forall i | 0 <= i < |picked| ensures InSpan(Units(keys), picked[i]) {
      var x :| Apply(columns, x) == picked[i];
      ApplyCovered(keys, columns, x);
      UnitsSpan(keys, picked[i]);
    }
    IndependentAreFew(picked, Units(keys));
  }

  lemma FullPartSpans<K>(keys: seq<K>, picked: seq<set<K>>, y: set<K>)
    requires Independent(picked) && Generates(Units(keys), picked) && |picked| == |keys|
    requires forall k :: k in y ==> k in keys
    ensures InSpan(picked, y)
  {
    if !InSpan(picked, y) {
      ExtendIndependent(picked, y);
      UnitsSpan(keys, y);
      IndependentAreFew(picked + [y], Units(keys));
    }
  }

  /** Columns with a relation have one that is a sum of earlier ones. */
  lemma {:induction false} RelatedColumn<K>(columns: seq<set<K>>, x: set<nat>) returns (c: nat)
    requires Fits(x, |columns|) && Apply(columns, x) == {} && x != {}
    ensures c < |columns| && InSpan(columns[..c], columns[c])
  {
    var n := |columns| - 1;
    if n in x {
      c := n;
      XorCancel(Apply(columns[..n], x), columns[n]);
    } else {
      c := RelatedColumn(columns[..n], x);
      assert columns[..n][..c] == columns[..c];
    }
  }

  lemma WithoutColumn<K>(columns: seq<set<K>>, c: nat)
    requires c < |columns| && InSpan(columns[..c], columns[c])
    ensures Generates(columns[..c] + columns[c + 1..], columns)
  {
    var rest := columns[..c] + columns[c + 1..];
    forall i | 0 <= i < |columns| ensures InSpan(rest, columns[i]) {
      if i == c {
        var x :| Apply(columns[..c], x) == columns[c];
        ApplyAgree(columns[..c], x, Low(x, c));
        ApplyOfPrefix(rest, c, Low(x, c));
        assert rest[..c] == columns[..c];
      } else {
        SpanOfMember(rest, if i < c then i else i - 1);
      }
    }
  }

  lemma RankOneToOne<K>(columns: seq<set<K>>, picked: seq<set<K>>)
    requires IsIndependentPart(columns, picked)
    ensures |picked| <= |columns|
    ensures |picked| == |columns| <==> Independent(columns)
  {
    IndependentAreFew(picked, columns);
    if Independent(columns) {
      IndependentAreFew(columns, picked);
    } else {
      var x :| Fits(x, |columns|) && Apply(columns, x) == {} && x != {};
      var c := RelatedColumn(columns, x);
      WithoutColumn(columns, c);
      GeneratesTransitive(columns[..c] + columns[c + 1..], columns, picked);
      IndependentAreFew(picked, columns[..c] + columns[c + 1..]);
    }
  }

  // ----- The pivots

  /** The columns that have a pivot. */
  ghost function Picked<K>(columns: seq<set<K>>, pivots: seq<nat>): seq<set<K>> {
    seq(|pivots|, k requires 0 <= k < |pivots| => if pivots[k] < |columns| then columns[pivots[k]] else {})
  }

  ghost function Positions(pivots: seq<nat>, y: set<nat>): set<nat> {
    set k: nat | k in y && k < |pivots| :: pivots[k]
  }

  lemma {:induction false} PickedApply<K>(columns: seq<set<K>>, pivots: seq<nat>, y: set<nat>)
    requires Ascending(pivots)
    ensures Apply(Picked(columns, pivots), y) == Apply(columns, Positions(pivots, y))
  {
    if pivots == [] {
      ApplyZero(columns);
      assert Positions(pivots, y) == {};
    } else {
      var n := |pivots| - 1;
      PickedApply(columns, pivots[..n], y);
      assert Picked(columns, pivots)[..n] == Picked(columns, pivots[..n]);
      PositionsSnoc(pivots, y);
      ApplyXor(columns, Positions(pivots[..n], y), if n in y then {pivots[n]} else {});
      ApplyUnit(columns, pivots[n]);
      ApplyZero(columns);
    }
  }

  lemma PositionsSnoc(pivots: seq<nat>, y: set<nat>)
    requires pivots != [] && Ascending(pivots)
    ensures var n := |pivots| - 1;
            Positions(pivots, y) == Xor(Positions(pivots[..n], y), if n in y then {pivots[n]} else {})
  {
    var n := |pivots| - 1;
    forall e ensures e in Positions(pivots, y) <==> e in Positions(pivots[..n], y) || (n in y && e == pivots[n]) {
      if e in Positions(pivots, y) {
        var k: nat :| k in y && k < |pivots| && pivots[k] == e;
        assert k < n ==> pivots[..n][k] == e;
      }
      if e in Positions(pivots[..n], y) {
        var k: nat :| k in y && k < n && pivots[..n][k] == e;
        assert pivots[k] == e;
      }
    }
    assert pivots[n] !in Positions(pivots[..n], y);
  }

  lemma PositionsOf(pivots: seq<nat>, x: set<nat>)
    requires forall e :: e in x ==> e in pivots
    ensures Positions(pivots, set k: nat | k < |pivots| && pivots[k] in x) == x
  {
    forall e | e in x ensures e in Positions(pivots, set k: nat | k < |pivots| && pivots[k] in x) {
      var k :| 0 <= k < |pivots| && pivots[k] == e;
    }
  }

  lemma PickedIndependent<K>(m: Matrix, pivots: seq<nat>, columns: seq<set<K>>, keys: seq<K>)
    requires Reduces(m, pivots, columns, keys)
    ensures Independent(Picked(columns, pivots))
  {
    forall y | Fits(y, |pivots|) && Apply(Picked(columns, pivots), y) == {} ensures y == {} {
      PickedApply(columns, pivots, y);
      assert forall k :: k in y ==> pivots[k] in Positions(pivots, y);
      ReducedKernel(m, pivots, columns, keys, Positions(pivots, y));
      KernelWithoutFree(m, pivots, Positions(pivots, y));
    }
  }

  lemma PickedGenerates<K>(m: Matrix, pivots: seq<nat>, columns: seq<set<K>>, keys: seq<K>)
    requires Reduces(m, pivots, columns, keys)
    ensures Generates(columns, Picked(columns, pivots)) && Generates(Picked(columns, pivots), columns)
  {
    var picked := Picked(columns, pivots);
    forall k | 0 <= k < |pivots| ensures InSpan(columns, picked[k]) {
      SpanOfZero(columns);
      if pivots[k] < |columns| {
        SpanOfMember(columns, pivots[k]);
      }
    }
    forall c | 0 <= c < |columns| ensures InSpan(picked, columns[c]) {
      if c in pivots {
        var k :| 0 <= k < |pivots| && pivots[k] == c;
        SpanOfMember(picked, k);
      } else {
        var x := Minus(FreeVector(m, pivots, c), c);
        FreeColumnSum(m, pivots, columns, keys, c);
        FreeVectorIsEarlier(m, pivots, c);
        PositionsOf(pivots, x);
        PickedApply(columns, pivots, set k: nat | k < |pivots| && pivots[k] in x);
      }
    }
  }

  /** Reduces the matrix and counts the rows that are not zero. */
  method GetMatrixRank(m: array<set<nat>>, numCols: nat) returns (rank: nat, ghost pivots: seq<nat>)
    requires RowsFit(m[..], numCols)
    modifies m
    ensures IsReduced(m[..], pivots) && RowsFit(m[..], numCols) && SameSpan(old(m[..]), m[..])
    ensures rank == |pivots|
  {
    pivots := InplaceRref(m, numCols);
    ghost var reduced := m[..];
    rank := 0;
    for i := 0 to m.Length
      invariant m[..] == reduced
      invariant rank == if i < |pivots| then i else |pivots|
    {
      PivotIsCtz(m[..], pivots, i);
      if m[i] != {} {
        rank := rank + 1;
      }
    }
  }

  // ----- Layouts

  ghost predicate Injective(layout: LinearLayout) {
    forall x, y :: layout.IsInput(x) && layout.IsInput(y) && layout.Apply(x) == layout.Apply(y) ==> x == y
  }

  lemma OntoIsSurjective(layout: LinearLayout)
    requires layout.WellFormed()
    ensures Onto(FlatBases(layout), OutBits(layout, layout.outs)) <==> layout.Surjective()
  {
    var bits, keys := InBits(layout, layout.ins), OutBits(layout, layout.outs);
    InBitsAre(layout, layout.ins);
    OutBitsAre(layout, layout.outs);
    forall y ensures layout.IsOutput(y) <==> forall k :: k in y ==> k in keys {
    }
    if layout.Surjective() {
      forall y: set<Bit> | layout.IsOutput(y) ensures InSpan(FlatBases(layout), y) {
        SurjectiveSpans(layout, y);
      }
    }
    if Onto(FlatBases(layout), keys) {
      forall y | layout.IsOutput(y) ensures layout.Reaches(y) {
        assert InSpan(FlatBases(layout), y);
        var v :| Apply(FlatBases(layout), v) == y;
        FlatApply(layout, bits, v);
        assert layout.IsInput(Unflatten(bits, v));
      }
    }
  }

  lemma IndependentIsInjective(layout: LinearLayout)
    requires layout.WellFormed()
    ensures Independent(FlatBases(layout)) <==> Injective(layout)
  {
    var bits := InBits(layout, layout.ins);
    InBitsAre(layout, layout.ins);
    if Injective(layout) {
      forall v | Fits(v, |bits|) && Apply(FlatBases(layout), v) == {} ensures v == {} {
        FlatApply(layout, bits, v);
        assert layout.IsInput(Unflatten(bits, v)) && layout.IsInput({});
        UnflattenEmpty(bits, v);
      }
    }
    if Independent(FlatBases(layout)) {
      forall x, y | layout.IsInput(x) && layout.IsInput(y) && layout.Apply(x) == layout.Apply(y) ensures x == y {
        var z := Xor(x, y);
        ApplyLinear(layout, x, y);
        UnflattenFlatten(bits, z);
        FlatApply(layout, bits, Flatten(bits, z));
        XorCancel(x, y);
      }
    }
  }

  /** The rank the constructor computes: the layout is surjective exactly when it is the number of output bits, and
      injective exactly when it is the number of input bits. */
  method LayoutRank(layout: LinearLayout) returns (rank: nat)
    requires layout.WellFormed()
    ensures IsRank(FlatBases(layout), rank)
    ensures rank == |OutBits(layout, layout.outs)| <==> layout.Surjective()
    ensures rank == |InBits(layout, layout.ins)| <==> Injective(layout)
  {
    var columns, keys := Columns(layout, InBits(layout, layout.ins)), OutBits(layout, layout.outs);
    OutputsAreCovered(layout, layout, InBits(layout, layout.ins));
    OutBitsAre(layout, layout.outs);
    var mat := GetMatrix(columns, keys);
    assert RowsFit(mat[..], |columns|);
    ghost var pivots;
    rank, pivots := GetMatrixRank(mat, |columns|);
    assert Reduces(mat[..], pivots, columns, keys);
    PickedIndependent(mat[..], pivots, columns, keys);
    PickedGenerates(mat[..], pivots, columns, keys);
    assert IsIndependentPart(columns, Picked(columns, pivots));
    RankOnto(columns, keys, Picked(columns, pivots));
    RankOneToOne(columns, Picked(columns, pivots));
    OntoIsSurjective(layout);
    IndependentIsInjective(layout);
  }
}
