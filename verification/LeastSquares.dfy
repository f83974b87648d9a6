/** Solving A X = B over the two-element field by reducing the matrix [A | B], and the free variables of a layout.
    The columns of A and B are the bases of the two layouts, flattened in the order of their input dimensions. */
module LeastSquares {
  import opened F2
  import opened GaussJordan
  import opened ReducedForm
  import opened Options

  /** `keys` lists every output coordinate the columns use. */
  ghost predicate Covers<K>(keys: seq<K>, columns: seq<set<K>>) {
    forall c, k :: 0 <= c < |columns| && k in columns[c] ==> k in keys
  }

  ghost function Rows<K>(columns: seq<set<K>>, keys: seq<K>): Matrix {
    seq(|keys|, r requires 0 <= r < |keys| => Row(columns, keys[r]))
  }

  lemma {:induction false} ApplyCovered<K>(keys: seq<K>, columns: seq<set<K>>, x: set<nat>)
    requires Covers(keys, columns)
    ensures forall k :: k in Apply(columns, x) ==> k in keys
  {
    if columns != [] {
      var n := |columns| - 1;
      assert forall c :: 0 <= c < n ==> columns[..n][c] == columns[c];
      ApplyCovered(keys, columns[..n], x);
    }
  }

  /** The kernel of the rows is the kernel of the map. */
  lemma KernelOfRows<K>(columns: seq<set<K>>, keys: seq<K>, x: set<nat>)
    requires Covers(keys, columns)
    ensures InKernel(Rows(columns, keys), x) <==> Apply(columns, x) == {}
  {
    ApplyCovered(keys, columns, x);
    forall r | 0 <= r < |keys| ensures Dot(Rows(columns, keys)[r], x) <==> keys[r] in Apply(columns, x) {
      ApplyByRows(columns, keys[r], x);
    }
    if InKernel(Rows(columns, keys), x) {
      forall k ensures k !in Apply(columns, x) {
        if k in keys {
          var r :| 0 <= r < |keys| && keys[r] == k;
          assert !Dot(Rows(columns, keys)[r], x);
        }
      }
    }
  }

  /** One row per output bit and one column per basis. */
  method GetMatrix<K(==)>(columns: seq<set<K>>, keys: seq<K>) returns (m: array<set<nat>>)
    ensures fresh(m) && m[..] == Rows(columns, keys)
  {
    m := new set<nat>[|keys|](_ => {});
    for c := 0 to |columns|
      invariant m.Length == |keys|
      invariant forall r :: 0 <= r < |keys| ==> m[r] == Row(columns[..c], keys[r])
    {
      for j := 0 to |keys|
        invariant forall r :: 0 <= r < j ==> m[r] == Row(columns[..c + 1], keys[r])
        invariant forall r :: j <= r < |keys| ==> m[r] == Row(columns[..c], keys[r])
      {
        RowSnoc(columns, keys[j], c);
        if keys[j] in columns[c] {
          m[j] := m[j] + {c};
        }
      }
    }
    assert columns[..|columns|] == columns;
  }

  lemma RowSnoc<K>(columns: seq<set<K>>, k: K, c: nat)
    requires c < |columns|
    ensures Row(columns[..c + 1], k) == Row(columns[..c], k) + if k in columns[c] then {c} else {}
  {
  }

  lemma RowsOfConcat<K>(a: seq<set<K>>, b: seq<set<K>>, keys: seq<K>, r: nat)
    requires r < |keys|
    ensures Rows(a + b, keys)[r] == Rows(a, keys)[r] + Shift(Rows(b, keys)[r], |a|)
  {
    var both, left, right := Rows(a + b, keys)[r], Rows(a, keys)[r], Shift(Rows(b, keys)[r], |a|);
    forall c ensures c in both <==> c in left + right {
      if c in both && c >= |a| {
        assert c - |a| in Rows(b, keys)[r];
      }
    }
  }

  /** The matrix [A | B]. */
  method ConcatMatrices<K(==)>(a: seq<set<K>>, b: seq<set<K>>, keys: seq<K>) returns (m: array<set<nat>>)
    ensures fresh(m) && m[..] == Rows(a + b, keys)
  {
    m := GetMatrix(a, keys);
    var bMat := GetMatrix(b, keys);
    for r := 0 to |keys|
      invariant m.Length == bMat.Length == |keys| && m != bMat
      invariant bMat[..] == Rows(b, keys)
      invariant forall s :: 0 <= s < r ==> m[s] == Rows(a + b, keys)[s]
      invariant forall s :: r <= s < |keys| ==> m[s] == Rows(a, keys)[s]
    {
      RowsOfConcat(a, b, keys, r);
      m[r] := m[r] + Shift(bMat[r], |a|);
    }
  }

  /** `m` is a reduced form of the matrix with these columns. */
  ghost predicate Reduces<K>(m: Matrix, pivots: seq<nat>, columns: seq<set<K>>, keys: seq<K>) {
    && Covers(keys, columns)
    && IsReduced(m, pivots) && RowsFit(m, |columns|) && SameSpan(Rows(columns, keys), m)
  }

  lemma ReducedKernel<K>(m: Matrix, pivots: seq<nat>, columns: seq<set<K>>, keys: seq<K>, x: set<nat>)
    requires Reduces(m, pivots, columns, keys)
    ensures InKernel(m, x) <==> Apply(columns, x) == {}
  {
    KernelOfRows(columns, keys, x);
    SameSpanSameKernel(Rows(columns, keys), m, x);
  }

  /** A vector of the kernel that uses column `c` writes that column as the sum of the others it uses. */
  lemma KernelSolvesColumn<K>(columns: seq<set<K>>, z: set<nat>, c: nat)
    requires c < |columns| && c in z
    ensures Apply(columns, z) == {} <==> Apply(columns, Minus(z, c)) == columns[c]
  {
    TakeXor(z, c);
    ApplyXor(columns, Minus(z, c), {c});
    ApplyUnit(columns, c);
    XorCancel(Apply(columns, Minus(z, c)), columns[c]);
  }

  /** A column without a pivot is the sum of the pivot columns of the rows that have an entry in it. */
  lemma FreeColumnSum<K>(m: Matrix, pivots: seq<nat>, columns: seq<set<K>>, keys: seq<K>, c: nat)
    requires Reduces(m, pivots, columns, keys) && c < |columns| && c !in pivots
    ensures Apply(columns, Minus(FreeVector(m, pivots, c), c)) == columns[c]
  {
    FreeVectorInKernel(m, pivots, c);
    ReducedKernel(m, pivots, columns, keys, FreeVector(m, pivots, c));
    KernelSolvesColumn(columns, FreeVector(m, pivots, c), c);
  }

  lemma FreeVectorIsEarlier(m: Matrix, pivots: seq<nat>, c: nat)
    requires IsReduced(m, pivots) && c !in pivots
    ensures forall e :: e in Minus(FreeVector(m, pivots, c), c) ==> e < c && e in pivots
  {
    assert forall i :: 0 <= i < |pivots| ==> IsPivot(m, i, pivots[i]);
  }

  /** A column with a pivot is no sum of columns that its row does not meet. */
  lemma PivotColumnIsNew<K>(m: Matrix, pivots: seq<nat>, columns: seq<set<K>>, keys: seq<K>, i: nat, x: set<nat>)
    requires Reduces(m, pivots, columns, keys) && i < |pivots| && pivots[i] < |columns|
    requires Fits(x, pivots[i])
    ensures Apply(columns, x) != columns[pivots[i]]
  {
    var p := pivots[i];
    var z := x + {p};
    PivotMeets(m, pivots, i, x);
    ReducedKernel(m, pivots, columns, keys, z);
    assert Minus(z, p) == x;
    KernelSolvesColumn(columns, z, p);
  }

  lemma PivotMeets(m: Matrix, pivots: seq<nat>, i: nat, x: set<nat>)
    requires IsReduced(m, pivots) && i < |pivots| && Fits(x, pivots[i])
    ensures !InKernel(m, x + {pivots[i]})
  {
    assert IsPivot(m, i, pivots[i]);
    assert m[i] * (x + {pivots[i]}) == {pivots[i]};
    assert Dot(m[i], x + {pivots[i]});
  }

  /** A column is free exactly when it is a sum of earlier columns. */
  lemma FreeIffSpanned<K>(m: Matrix, pivots: seq<nat>, columns: seq<set<K>>, keys: seq<K>, c: nat)
    requires Reduces(m, pivots, columns, keys) && c < |columns|
    ensures c !in pivots <==> InSpan(columns[..c], columns[c])
  {
    assert columns == columns[..c] + columns[c..];
    if c !in pivots {
      var x := Minus(FreeVector(m, pivots, c), c);
      FreeColumnSum(m, pivots, columns, keys, c);
      FreeVectorIsEarlier(m, pivots, c);
      ApplyOfPrefix(columns, c, x);
    } else if x :| Apply(columns[..c], x) == columns[c] {
      var i :| 0 <= i < |pivots| && pivots[i] == c;
      var low := Low(x, c);
      ApplyAgree(columns[..c], x, low);
      ApplyOfPrefix(columns, c, low);
      PivotColumnIsNew(m, pivots, columns, keys, i, low);
    }
  }

  lemma ApplyOfPrefix<K>(columns: seq<set<K>>, c: nat, x: set<nat>)
    requires c <= |columns| && Fits(x, c)
    ensures Apply(columns, x) == Apply(columns[..c], x)
  {
    assert columns == columns[..c] + columns[c..];
    assert x == x + Shift({}, c);
    ApplyConcat(columns[..c], columns[c..], x, {});
    ApplyZero(columns[c..]);
  }

  /** A solution of A X = B that uses no free variable of A. */
  ghost predicate Solves<K>(a: seq<set<K>>, b: seq<set<K>>, x: seq<set<nat>>) {
    && |x| == |b| && RowsFit(x, |a|)
    && (forall c :: 0 <= c < |b| ==> Apply(a, x[c]) == b[c])
    && (forall c, e :: 0 <= c < |b| && e in x[c] ==> !InSpan(a[..e], a[e]))
  }

  /** A solution on the columns is a solution on all vectors. */
  lemma {:induction false} SolvesEverywhere<K>(a: seq<set<K>>, b: seq<set<K>>, x: seq<set<nat>>, y: set<nat>)
    requires |x| == |b| && forall c :: 0 <= c < |b| ==> Apply(a, x[c]) == b[c]
    ensures Apply(a, Apply(x, y)) == Apply(b, y)
  {
    if b == [] {
      ApplyZero(a);
    } else {
      var n := |b| - 1;
      SolvesEverywhere(a, b[..n], x[..n], y);
      ApplyXor(a, Apply(x[..n], y), if n in y then x[n] else {});
      ApplyZero(a);
    }
  }

  /** The solution read off the reduced matrix. */
  ghost function Solution(m: Matrix, pivots: seq<nat>, n: nat, cols: nat): seq<set<nat>>
    requires |pivots| <= |m|
  {
    seq(cols, c requires 0 <= c < cols => Minus(FreeVector(m, pivots, n + c), n + c))
  }

  lemma SolutionSolves<K>(m: Matrix, pivots: seq<nat>, a: seq<set<K>>, b: seq<set<K>>, keys: seq<K>)
    requires Reduces(m, pivots, a + b, keys) && forall i :: 0 <= i < |pivots| ==> pivots[i] < |a|
    ensures Solves(a, b, Solution(m, pivots, |a|, |b|))
  {
    var x := Solution(m, pivots, |a|, |b|);
    forall c | 0 <= c < |b|
      ensures Apply(a, x[c]) == b[c] && Fits(x[c], |a|)
      ensures forall e :: e in x[c] ==> e < |a| && !InSpan(a[..e], a[e])
    {
      FreeColumnSum(m, pivots, a + b, keys, |a| + c);
      FreeVectorIsEarlier(m, pivots, |a| + c);
      assert (a + b)[..|a|] == a;
      ApplyOfPrefix(a + b, |a|, x[c]);
      forall e | e in x[c] ensures e < |a| && !InSpan(a[..e], a[e]) {
        FreeIffSpanned(m, pivots, a + b, keys, e);
        assert (a + b)[..e] == a[..e];
      }
    }
  }

  lemma LatePivotRefutes<K>(m: Matrix, pivots: seq<nat>, a: seq<set<K>>, b: seq<set<K>>, keys: seq<K>, i: nat)
    requires Reduces(m, pivots, a + b, keys) && i < |pivots| && |a| <= pivots[i]
    ensures !Generates(a, b)
  {
    var p := pivots[i];
    assert IsPivot(m, i, p) && p < |a + b|;
    if InSpan(a, b[p - |a|]) {
      var x :| Apply(a, x) == b[p - |a|];
      var low := Low(x, |a|);
      ApplyAgree(a, x, low);
      assert (a + b)[..|a|] == a;
      ApplyOfPrefix(a + b, |a|, low);
      PivotColumnIsNew(m, pivots, a + b, keys, i, low);
    }
  }

  /** The row whose pivot is column `c`, or -1. */
  ghost predicate PivotRows(pivots: seq<nat>, k: nat, rowOf: seq<int>) {
    && (forall i :: 0 <= i < |pivots| && i < k ==> pivots[i] < |rowOf| && rowOf[pivots[i]] == i)
    && (forall c :: 0 <= c < |rowOf| ==> rowOf[c] == -1 || (0 <= rowOf[c] < |pivots| && pivots[rowOf[c]] == c))
  }

  /** Finds the pivot row of every column of A; fails when a row has its pivot further right. */
  method PivotRowOfColumn(mat: array<set<nat>>, ghost pivots: seq<nat>, numColsA: nat)
    returns (ok: bool, pivotRowOfCol: seq<int>)
    requires IsReduced(mat[..], pivots)
    ensures ok <==> forall i :: 0 <= i < |pivots| ==> pivots[i] < numColsA
    ensures ok ==> |pivotRowOfCol| == numColsA && PivotRows(pivots, mat.Length, pivotRowOfCol)
  {
    pivotRowOfCol := seq(numColsA, _ => -1);
    for r := 0 to mat.Length
      invariant |pivotRowOfCol| == numColsA && PivotRows(pivots, r, pivotRowOfCol)
      invariant forall c :: 0 <= c < numColsA ==> pivotRowOfCol[c] < r
    {
      PivotIsCtz(mat[..], pivots, r);
      if mat[r] != {} {
        var c := Ctz(mat[r]);
        if c >= numColsA {
          return false, [];
        }
        assert pivotRowOfCol[c] == -1;
        pivotRowOfCol := pivotRowOfCol[c := r];
      }
    }
    ok := true;
  }

  /** The entries of one right-hand column, moved to the pivot columns of their rows. */
  method ReadSolution(mat: array<set<nat>>, ghost pivots: seq<nat>, pivotRowOfCol: seq<int>, numColsA: nat, col: nat)
    returns (basis: set<nat>)
    requires IsReduced(mat[..], pivots) && |pivotRowOfCol| == numColsA <= col
    requires PivotRows(pivots, mat.Length, pivotRowOfCol) && forall i :: 0 <= i < |pivots| ==> pivots[i] < numColsA
    ensures basis == Minus(FreeVector(mat[..], pivots, col), col)
  {
    basis := {};
    for q := 0 to numColsA
      invariant basis == set i | 0 <= i < |pivots| && pivots[i] < q && col in mat[i] :: pivots[i]
    {
      var row := pivotRowOfCol[q];
      if row != -1 && col in mat[row] {
        basis := basis + {q};
      }
    }
  }

  /** Least squares: X with A X = B and no free variable of A in use. It fails, where the code asserts, exactly when
      some column of B is outside the image of A. */
  method Lstsq<K(==)>(a: seq<set<K>>, b: seq<set<K>>, keys: seq<K>) returns (r: Option<seq<set<nat>>>)
    requires Covers(keys, a) && Covers(keys, b)
    ensures r.Some? <==> Generates(a, b)
    ensures r.Some? ==> Solves(a, b, r.value)
  {
    var numColsA, numColsB := |a|, |b|;
    var combinedMat := ConcatMatrices(a, b, keys);
    assert RowsFit(combinedMat[..], numColsA + numColsB);
    ghost var pivots := InplaceRref(combinedMat, numColsA + numColsB);
    ghost var m := combinedMat[..];
    assert Reduces(m, pivots, a + b, keys);
    var ok, pivotRowOfCol := PivotRowOfColumn(combinedMat, pivots, numColsA);
    if !ok {
      ghost var i: nat :| i < |pivots| && numColsA <= pivots[i];
      LatePivotRefutes(m, pivots, a, b, keys, i);
      return None;
    }
    var bases := [];
    for c := 0 to numColsB
      invariant combinedMat[..] == m && bases == Solution(m, pivots, numColsA, c)
    {
      var basis := ReadSolution(combinedMat, pivots, pivotRowOfCol, numColsA, numColsA + c);
      bases := bases + [basis];
    }
    SolutionSolves(m, pivots, a, b, keys);
    SolvableGenerates(a, b, bases);
    r := Some(bases);
  }

  lemma SolvableGenerates<K>(a: seq<set<K>>, b: seq<set<K>>, x: seq<set<nat>>)
    requires Solves(a, b, x)
    ensures Generates(a, b)
  {
  }

  // ----- Free variables

  /** The columns that are sums of earlier ones. */
  method GetFreeVariables<K(==)>(columns: seq<set<K>>, keys: seq<K>) returns (free: set<nat>)
    requires Covers(keys, columns)
    ensures forall c: nat :: c in free <==> c < |columns| && InSpan(columns[..c], columns[c])
    ensures forall x :: Fits(x, |columns|) ==> HasNormalForm(columns, free, x)
  {
    var mat := GetMatrix(columns, keys);
    assert RowsFit(mat[..], |columns|);
    ghost var pivots := InplaceRref(mat, |columns|);
    ghost var m := mat[..];
    var basicVars := PivotColumns(mat, pivots);
    free := {};
    for c := 0 to |columns|
      invariant forall d: nat :: d in free <==> d < c && d !in pivots
    {
      if c !in basicVars {
        free := free + {c};
      }
    }
    forall c | 0 <= c < |columns| ensures c in free <==> InSpan(columns[..c], columns[c]) {
      FreeIffSpanned(m, pivots, columns, keys, c);
    }
    forall x | Fits(x, |columns|) ensures HasNormalForm(columns, free, x) {
      NormalForm(m, pivots, columns, keys, free, x);
    }
  }

  /** `y` gives the same output as `x` and sets no free variable. */
  ghost predicate IsNormalForm<K>(columns: seq<set<K>>, free: set<nat>, x: set<nat>, y: set<nat>) {
    Fits(y, |columns|) && y !! free && Apply(columns, y) == Apply(columns, x)
  }

  /** Exactly one input without free variables gives the output of `x`. */
  ghost predicate HasNormalForm<K>(columns: seq<set<K>>, free: set<nat>, x: set<nat>) {
    && (exists y :: IsNormalForm(columns, free, x, y))
    && (forall y, z :: IsNormalForm(columns, free, x, y) && IsNormalForm(columns, free, x, z) ==> y == z)
  }

  lemma NormalForm<K>(m: Matrix, pivots: seq<nat>, columns: seq<set<K>>, keys: seq<K>, free: set<nat>, x: set<nat>)
    requires Reduces(m, pivots, columns, keys) && Fits(x, |columns|)
    requires forall c: nat :: c in free <==> c < |columns| && c !in pivots
    ensures HasNormalForm(columns, free, x)
  {
    var y := ClearFree(m, pivots, columns, keys, x, |columns|);
    assert IsNormalForm(columns, free, x, y);
    forall y: set<nat>, z: set<nat> | IsNormalForm(columns, free, x, y) && IsNormalForm(columns, free, x, z)
      ensures y == z {
      ApplyXor(columns, y, z);
      XorCancel(Apply(columns, y), Apply(columns, z));
      ReducedKernel(m, pivots, columns, keys, Xor(y, z));
      KernelWithoutFree(m, pivots, Xor(y, z));
      XorCancel(y, z);
    }
  }

  /** Replaces the free variables below `n`, from the highest down, by earlier variables. */
  lemma {:induction false} ClearFree<K>(m: Matrix, pivots: seq<nat>, columns: seq<set<K>>, keys: seq<K>, x: set<nat>,
                                        n: nat) returns (y: set<nat>)
    requires Reduces(m, pivots, columns, keys) && Fits(x, |columns|) && n <= |columns|
    requires forall e :: e in x && n <= e ==> e in pivots
    ensures Fits(y, |columns|) && Apply(columns, y) == Apply(columns, x)
    ensures forall e :: e in y ==> e in pivots
    decreases n
  {
    if n == 0 {
      y := x;
    } else if n - 1 in x && n - 1 !in pivots {
      var c: nat := n - 1;
      ClearOne(m, pivots, columns, keys, x, c);
      y := ClearFree(m, pivots, columns, keys, Xor(x, FreeVector(m, pivots, c)), c);
    } else {
      y := ClearFree(m, pivots, columns, keys, x, n - 1);
    }
  }

  /** Adding a vector that has `c` and otherwise earlier pivots clears the free variable `c`. */
  lemma ClearBits(x: set<nat>, step: set<nat>, c: nat, pivots: seq<nat>)
    requires c in x && c in step && forall e :: e in x && c < e ==> e in pivots
    requires forall e :: e in Minus(step, c) ==> e < c && e in pivots
    ensures forall e :: e in Xor(x, step) && c <= e ==> e in pivots
    ensures forall e :: e in Xor(x, step) ==> e in x || e < c
  {
    forall e | e in Xor(x, step) ensures (c <= e ==> e in pivots) && (e in x || e < c) {
      assert e in step && e != c ==> e in Minus(step, c);
    }
  }

  lemma ClearOne<K>(m: Matrix, pivots: seq<nat>, columns: seq<set<K>>, keys: seq<K>, x: set<nat>, c: nat)
    requires Reduces(m, pivots, columns, keys) && Fits(x, |columns|) && c in x && c !in pivots
    requires forall e :: e in x && c < e ==> e in pivots
    ensures var next := Xor(x, FreeVector(m, pivots, c));
            && Fits(next, |columns|) && Apply(columns, next) == Apply(columns, x)
            && forall e :: e in next && c <= e ==> e in pivots
  {
    FreeVectorInKernel(m, pivots, c);
    ReducedKernel(m, pivots, columns, keys, FreeVector(m, pivots, c));
    ApplyXor(columns, x, FreeVector(m, pivots, c));
    FreeVectorIsEarlier(m, pivots, c);
    ClearBits(x, FreeVector(m, pivots, c), c, pivots);
  }
}
