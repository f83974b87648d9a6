/** What a matrix in reduced row echelon form says about its span and its kernel. */
module ReducedForm {
  import opened F2
  import opened GaussJordan

  /** The position of the lowest one bit. */
  function Ctz(v: set<nat>): (c: nat)
    requires v != {}
    ensures c in v && forall e :: e in v ==> c <= e
  {
    LeastExists(v);
    assert exists c :: IsLeast(v, c);
    var c :| c in v && forall e :: e in v ==> c <= e;
    c
  }

  ghost predicate IsLeast(v: set<nat>, c: nat) {
    c in v && forall e :: e in v ==> c <= e
  }

  lemma {:induction false} LeastExists(v: set<nat>)
    requires v != {}
    ensures exists c :: IsLeast(v, c)
  {
    var x :| x in v;
    var rest := v - {x};
    assert forall e :: e in v ==> e == x || e in rest;
    if rest == {} {
      assert IsLeast(v, x);
    } else {
      LeastExists(rest);
      var c :| IsLeast(rest, c);
      assert IsLeast(v, if c < x then c else x);
    }
  }

  /** The rows that are not zero are those with a pivot, and their lowest bit is the pivot. */
  lemma PivotIsCtz(m: Matrix, pivots: seq<nat>, r: nat)
    requires IsReduced(m, pivots) && r < |m|
    ensures m[r] != {} <==> r < |pivots|
    ensures r < |pivots| ==> Ctz(m[r]) == pivots[r]
  {
    if r < |pivots| {
      assert IsPivot(m, r, pivots[r]);
    }
  }

  /** A coordinate picked out by exactly one of the vectors. */
  lemma {:induction false} OwnCoordinate<K>(vectors: seq<set<K>>, i: nat, k: K, x: set<nat>)
    requires i < |vectors|
    requires forall j :: 0 <= j < |vectors| ==> (k in vectors[j] <==> j == i)
    ensures k in Apply(vectors, x) <==> i in x
  {
    var n := |vectors| - 1;
    if i == n {
      NoCoordinate(vectors[..n], k, x);
    } else {
      OwnCoordinate(vectors[..n], i, k, x);
    }
  }

  lemma {:induction false} NoCoordinate<K>(vectors: seq<set<K>>, k: K, x: set<nat>)
    requires forall j :: 0 <= j < |vectors| ==> k !in vectors[j]
    ensures k !in Apply(vectors, x)
  {
    if vectors != [] {
      NoCoordinate(vectors[..|vectors| - 1], k, x);
    }
  }

  function Units<K>(keys: seq<K>): seq<set<K>> {
    seq(|keys|, k requires 0 <= k < |keys| => {keys[k]})
  }

  lemma UnitsAreIndependent<K>(keys: seq<K>)
    requires forall i, j :: 0 <= i < j < |keys| ==> keys[i] != keys[j]
    ensures Independent(Units(keys))
  {
    forall x | Fits(x, |keys|) && Apply(Units(keys), x) == {} ensures x == {} {
      forall i | 0 <= i < |keys| ensures i !in x {
        OwnCoordinate(Units(keys), i, keys[i], x);
      }
    }
  }

  lemma {:induction false} ApplyFits(vectors: seq<set<nat>>, x: set<nat>, n: nat)
    requires RowsFit(vectors, n)
    ensures Fits(Apply(vectors, x), n)
  {
    if vectors != [] {
      ApplyFits(vectors[..|vectors| - 1], x, n);
    }
  }

  /** A combination of the rows contains exactly the pivots of the rows it uses. */
  lemma PivotsOfCombination(m: Matrix, pivots: seq<nat>, sel: set<nat>, i: nat)
    requires IsReduced(m, pivots) && i < |pivots|
    ensures pivots[i] in Apply(m, sel) <==> i in sel
  {
    assert IsPivot(m, i, pivots[i]);
    OwnCoordinate(m, i, pivots[i], sel);
  }

  /** The rows whose pivots occur in `v`. */
  ghost function Selection(pivots: seq<nat>, v: set<nat>): set<nat> {
    set i: nat | i < |pivots| && pivots[i] in v
  }

  /** `v` without its pivot columns: what is left after taking away the rows that have them. */
  ghost function Residue(m: Matrix, pivots: seq<nat>, v: set<nat>): set<nat> {
    Xor(v, Apply(m, Selection(pivots, v)))
  }

  lemma ResidueHasNoPivots(m: Matrix, pivots: seq<nat>, v: set<nat>)
    requires IsReduced(m, pivots)
    ensures forall i :: 0 <= i < |pivots| ==> pivots[i] !in Residue(m, pivots, v)
    ensures v == Xor(Residue(m, pivots, v), Apply(m, Selection(pivots, v)))
  {
    forall i | 0 <= i < |pivots| ensures pivots[i] !in Residue(m, pivots, v) {
      PivotsOfCombination(m, pivots, Selection(pivots, v), i);
    }
  }

  /** A vector of the span that avoids the pivot columns is zero. */
  lemma SpanWithoutPivots(m: Matrix, pivots: seq<nat>, v: set<nat>)
    requires IsReduced(m, pivots) && InSpan(m, v)
    requires forall i :: 0 <= i < |pivots| ==> pivots[i] !in v
    ensures v == {}
  {
    var sel :| Apply(m, sel) == v;
    forall i | 0 <= i < |m| ensures i in sel ==> m[i] == {} {
      if i < |pivots| {
        PivotsOfCombination(m, pivots, sel, i);
      }
    }
    NoneSelected(m, sel);
  }

  lemma {:induction false} NoneSelected<K>(vectors: seq<set<K>>, sel: set<nat>)
    requires forall i :: 0 <= i < |vectors| && i in sel ==> vectors[i] == {}
    ensures Apply(vectors, sel) == {}
  {
    if vectors != [] {
      NoneSelected(vectors[..|vectors| - 1], sel);
    }
  }

  /** The pivots are the lowest bits that the vectors of the span have. */
  lemma PivotsAreLowest(m: Matrix, pivots: seq<nat>, c: nat)
    requires IsReduced(m, pivots)
    ensures c in pivots <==> exists v :: InSpan(m, v) && IsLeast(v, c)
  {
    if c in pivots {
      var i :| 0 <= i < |pivots| && pivots[i] == c;
      assert IsPivot(m, i, c);
      SpanOfMember(m, i);
      assert IsLeast(m[i], c);
    }
    if v :| InSpan(m, v) && IsLeast(v, c) {
      var sel :| Apply(m, sel) == v;
      if forall j :: 0 <= j < |m| && j in sel ==> c !in m[j] {
        OutsideCoordinate(m, c, sel);
      }
      var j :| 0 <= j < |m| && j in sel && c in m[j];
      assert IsPivot(m, j, pivots[j]);
      PivotsOfCombination(m, pivots, sel, j);
    }
  }

  lemma {:induction false} OutsideCoordinate<K>(vectors: seq<set<K>>, k: K, x: set<nat>)
    requires forall j :: 0 <= j < |vectors| && j in x ==> k !in vectors[j]
    ensures k !in Apply(vectors, x)
  {
    if vectors != [] {
      OutsideCoordinate(vectors[..|vectors| - 1], k, x);
    }
  }

  // ----- The kernel

  /** The solution in which column `f` is one and all other free columns are zero. */
  ghost function FreeVector(m: Matrix, pivots: seq<nat>, f: nat): set<nat>
    requires |pivots| <= |m|
  {
    {f} + set i | 0 <= i < |pivots| && f in m[i] :: pivots[i]
  }

  /** A row with a pivot and an entry in column `f` meets the solution in these two, and any other row not at all. */
  lemma FreeVectorInRow(m: Matrix, pivots: seq<nat>, f: nat, r: nat)
    requires IsReduced(m, pivots) && f !in pivots && r < |m|
    ensures m[r] * FreeVector(m, pivots, f) == if f in m[r] then {f, pivots[r]} else {}
  {
    var x := FreeVector(m, pivots, f);
    forall e | e in m[r] * x ensures e == f || (r < |pivots| && f in m[r] && e == pivots[r]) {
      if e != f {
        var i :| 0 <= i < |pivots| && f in m[i] && pivots[i] == e;
        assert IsPivot(m, i, pivots[i]);
      }
    }
    if f in m[r] {
      assert IsPivot(m, r, pivots[r]);
    }
  }

  lemma FreeVectorInKernel(m: Matrix, pivots: seq<nat>, f: nat)
    requires IsReduced(m, pivots) && f !in pivots
    ensures InKernel(m, FreeVector(m, pivots, f))
  {
    forall r | 0 <= r < |m| ensures !Dot(m[r], FreeVector(m, pivots, f)) {
      FreeVectorInRow(m, pivots, f, r);
      if f in m[r] {
        assert f != pivots[r] && |{f, pivots[r]}| == 2;
      }
    }
  }

  lemma PivotAloneInRow(m: Matrix, pivots: seq<nat>, x: set<nat>, r: nat)
    requires IsReduced(m, pivots) && r < |pivots|
    requires forall e :: e in x ==> e in pivots
    ensures Dot(m[r], x) <==> pivots[r] in x
  {
    assert IsPivot(m, r, pivots[r]);
    forall d | d in m[r] * x ensures d == pivots[r] {
      var i :| 0 <= i < |pivots| && pivots[i] == d;
      assert IsPivot(m, i, pivots[i]);
    }
    assert m[r] * x == if pivots[r] in x then {pivots[r]} else {};
  }

  /** A solution is zero as soon as its free columns are. */
  lemma KernelWithoutFree(m: Matrix, pivots: seq<nat>, x: set<nat>)
    requires IsReduced(m, pivots) && InKernel(m, x)
    requires forall e :: e in x ==> e in pivots
    ensures x == {}
  {
    forall r | 0 <= r < |pivots| ensures pivots[r] !in x {
      PivotAloneInRow(m, pivots, x, r);
    }
    assert forall e :: e in pivots ==> e !in x;
  }

  lemma FreeVectorMeets(m: Matrix, pivots: seq<nat>, f: nat, rest: set<nat>)
    requires |pivots| <= |m| && forall i :: 0 <= i < |pivots| ==> pivots[i] !in rest
    ensures Dot(rest, FreeVector(m, pivots, f)) <==> f in rest
  {
    assert rest * FreeVector(m, pivots, f) == if f in rest then {f} else {};
  }

  /** The free solution of column `f` reads off column `f` of the residue. */
  lemma FreeVectorReadsResidue(m: Matrix, pivots: seq<nat>, v: set<nat>, f: nat)
    requires IsReduced(m, pivots) && f !in pivots
    ensures Dot(FreeVector(m, pivots, f), v) <==> f in Residue(m, pivots, v)
  {
    var sel, rest := Selection(pivots, v), Residue(m, pivots, v);
    ResidueHasNoPivots(m, pivots, v);
    FreeVectorInKernel(m, pivots, f);
    KernelOfCombination(m, FreeVector(m, pivots, f), sel);
    DotXor(rest, Apply(m, sel), FreeVector(m, pivots, f));
    DotSymmetric(v, FreeVector(m, pivots, f));
    FreeVectorMeets(m, pivots, f, rest);
  }

  /** The double annihilator: what is orthogonal to every solution is a combination of the rows. */
  lemma OrthogonalToKernel(m: Matrix, pivots: seq<nat>, v: set<nat>)
    requires IsReduced(m, pivots)
    requires forall f: nat :: f !in pivots ==> !Dot(FreeVector(m, pivots, f), v)
    ensures InSpan(m, v)
  {
    var rest := Residue(m, pivots, v);
    ResidueHasNoPivots(m, pivots, v);
    forall f ensures f !in rest {
      if f !in pivots {
        FreeVectorReadsResidue(m, pivots, v, f);
      }
    }
    assert rest == {};
    assert v == Apply(m, Selection(pivots, v));
  }

  /** The columns of the pivots, as the code collects them. */
  method PivotColumns(mat: array<set<nat>>, ghost pivots: seq<nat>) returns (pivotCols: set<nat>)
    requires IsReduced(mat[..], pivots)
    ensures forall c :: c in pivotCols <==> c in pivots
  {
    pivotCols := {};
    for r := 0 to mat.Length
      invariant forall c :: c in pivotCols <==> exists i :: 0 <= i < r && i < |pivots| && pivots[i] == c
    {
      PivotIsCtz(mat[..], pivots, r);
      if mat[r] != {} {
        pivotCols := pivotCols + {Ctz(mat[r])};
      }
    }
  }
}
