/** Reduction of a matrix to reduced row echelon form, and what the form is good for. The library that the
    repository calls for this is replaced by Gauss-Jordan elimination. */
module GaussJordan {
  import opened F2

  type Matrix = seq<set<nat>>

  /** `c` is the first column of row `r`, and no other row has an entry there. */
  ghost predicate IsPivot(m: Matrix, r: int, c: nat)
    requires 0 <= r < |m|
  {
    && c in m[r]
    && (forall e :: e in m[r] ==> c <= e)
    && (forall s :: 0 <= s < |m| && s != r ==> c !in m[s])
  }

  ghost predicate Ascending(pivots: seq<nat>) {
    forall i, j :: 0 <= i < j < |pivots| ==> pivots[i] < pivots[j]
  }

  /** Reduced row echelon form: the pivot columns ascend, and the rows without one are zero. */
  ghost predicate IsReduced(m: Matrix, pivots: seq<nat>) {
    && |pivots| <= |m| && Ascending(pivots)
    && (forall i :: 0 <= i < |pivots| ==> IsPivot(m, i, pivots[i]))
    && (forall i :: |pivots| <= i < |m| ==> m[i] == {})
  }

  ghost predicate RowsFit(m: Matrix, cols: nat) {
    forall i :: 0 <= i < |m| ==> Fits(m[i], cols)
  }

  /** The first `col` columns are reduced. */
  ghost predicate IsReducedUpTo(m: Matrix, pivots: seq<nat>, col: nat) {
    && |pivots| <= |m| && Ascending(pivots)
    && (forall i :: 0 <= i < |pivots| ==> IsPivot(m, i, pivots[i]) && pivots[i] < col)
    && (forall i, e :: |pivots| <= i < |m| && e in m[i] ==> col <= e)
  }

  /** Row `|pivots|` is about to become the pivot row of `col`: the rows before `s` have no entry there any more. */
  ghost predicate IsClearing(m: Matrix, pivots: seq<nat>, col: nat, s: nat) {
    && IsReducedUpTo(m, pivots, col)
    && |pivots| < |m| && col in m[|pivots|]
    && (forall t :: 0 <= t < s && t < |m| && t != |pivots| ==> col !in m[t])
  }

  lemma SwapIsDerived(m: Matrix, i: nat, j: nat)
    requires i < |m| && j < |m|
    ensures Derived(m, m[i := m[j]][j := m[i]])
  {
    if Independent(m) {
      SwapKeepsIndependent(m, i, j);
    }
    var n := m[i := m[j]][j := m[i]];
    forall r | 0 <= r < |m| ensures InSpan(m, n[r]) && InSpan(n, m[r]) {
      SpanOfMember(m, if r == j then i else if r == i then j else r);
      SpanOfMember(n, if r == j then i else if r == i then j else r);
    }
  }

  lemma AddIsDerived(m: Matrix, i: nat, j: nat)
    requires i < |m| && j < |m| && i != j
    ensures Derived(m, m[j := Xor(m[j], m[i])])
  {
    if Independent(m) {
      AddKeepsIndependent(m, i, j);
    }
    var n := m[j := Xor(m[j], m[i])];
    forall r | 0 <= r < |m| ensures InSpan(m, n[r]) && InSpan(n, m[r]) {
      SpanOfMember(m, r);
      SpanOfMember(m, i);
      SpanXor(m, m[r], m[i]);
      SpanOfMember(n, r);
      SpanOfMember(n, i);
      SpanXor(n, n[r], n[i]);
      XorFacts(m[j], m[i], m[i]);
    }
  }

  lemma SwapKeepsReduced(m: Matrix, pivots: seq<nat>, col: nat, i: nat)
    requires IsReducedUpTo(m, pivots, col) && |pivots| <= i < |m| && col in m[i]
    ensures IsClearing(m[i := m[|pivots|]][|pivots| := m[i]], pivots, col, 0)
  {
    var p := |pivots|;
    var n := m[i := m[p]][p := m[i]];
    forall r | 0 <= r < p ensures IsPivot(n, r, pivots[r]) {
      assert IsPivot(m, r, pivots[r]);
    }
  }

  /** Adding the pivot row to another row clears that row's entry and spoils nothing. */
  lemma ClearingStep(m: Matrix, pivots: seq<nat>, col: nat, s: nat)
    requires IsClearing(m, pivots, col, s) && s < |m| && s != |pivots| && col in m[s]
    ensures IsClearing(m[s := Xor(m[s], m[|pivots|])], pivots, col, s + 1)
  {
    var p := |pivots|;
    var n := m[s := Xor(m[s], m[p])];
    forall r | 0 <= r < p ensures IsPivot(n, r, pivots[r]) {
      assert IsPivot(m, r, pivots[r]);
      assert pivots[r] !in m[p];
    }
  }

  lemma ClearedIsReduced(m: Matrix, pivots: seq<nat>, col: nat)
    requires IsClearing(m, pivots, col, |m|)
    ensures IsReducedUpTo(m, pivots + [col], col + 1)
  {
    var p := |pivots|;
    assert IsPivot(m, p, col);
    forall i, e | p + 1 <= i < |m| && e in m[i] ensures col + 1 <= e {
      assert e != col;
    }
  }

  /** `m` came out of `original` by row operations. */
  ghost predicate Derived(original: Matrix, m: Matrix) {
    SameSpan(original, m) && |m| == |original| && (Independent(original) ==> Independent(m))
  }

  lemma DerivedStep(original: Matrix, before: Matrix, next: Matrix)
    requires Derived(original, before) && Derived(before, next)
    ensures Derived(original, next)
  {
    GeneratesTransitive(original, before, next);
    GeneratesTransitive(next, before, original);
  }

  /** Adds the pivot row to every other row that has an entry in column `col`. */
  method Clear(m: array<set<nat>>, ghost cols: nat, col: nat, rank: nat, ghost pivots: seq<nat>, ghost original: Matrix)
    requires rank == |pivots| && IsClearing(m[..], pivots, col, 0)
    requires RowsFit(m[..], cols) && Derived(original, m[..])
    modifies m
    ensures IsClearing(m[..], pivots, col, |m[..]|)
    ensures RowsFit(m[..], cols) && Derived(original, m[..])
  {
    for s := 0 to m.Length
      invariant IsClearing(m[..], pivots, col, s)
      invariant RowsFit(m[..], cols) && Derived(original, m[..])
    {
      if s != rank && col in m[s] {
        ghost var before := m[..];
        ClearingStep(before, pivots, col, s);
        AddIsDerived(before, rank, s);
        m[s] := Xor(m[s], m[rank]);
        assert m[..] == before[s := Xor(before[s], before[rank])];
        DerivedStep(original, before, m[..]);
      }
    }
  }

  lemma IndependentHasFullRank(m: Matrix, pivots: seq<nat>)
    requires IsReduced(m, pivots) && Independent(m)
    ensures |pivots| == |m|
  {
    if |pivots| < |m| {
      IndependentHasNoZero(m, |pivots|);
    }
  }

  /** Reduces the matrix in place. The span of its rows stays the same, and independent rows all get a pivot. */
  method InplaceRref(m: array<set<nat>>, cols: nat) returns (ghost pivots: seq<nat>)
    requires RowsFit(m[..], cols)
    modifies m
    ensures IsReduced(m[..], pivots)
    ensures RowsFit(m[..], cols) && SameSpan(old(m[..]), m[..])
    ensures Independent(old(m[..])) ==> |pivots| == m.Length
  {
    pivots := [];
    var rank := 0;
    ghost var original := m[..];
    assert Generates(original, original) by {
      forall i | 0 <= i < |original| ensures InSpan(original, original[i]) {
        SpanOfMember(original, i);
      }
    }
    for col := 0 to cols
      invariant rank == |pivots| && IsReducedUpTo(m[..], pivots, col)
      invariant RowsFit(m[..], cols) && Derived(original, m[..])
    {
      var r := rank;
      while r < m.Length && col !in m[r]
        invariant rank <= r <= m.Length
        invariant forall t :: rank <= t < r ==> col !in m[t]
      {
        r := r + 1;
      }
      if r < m.Length {
        SwapKeepsReduced(m[..], pivots, col, r);
        SwapIsDerived(m[..], r, rank);
        ghost var before := m[..];
        m[r], m[rank] := m[rank], m[r];
        assert m[..] == before[r := before[rank]][rank := before[r]];
        DerivedStep(original, before, m[..]);
        Clear(m, cols, col, rank, pivots, original);
        ClearedIsReduced(m[..], pivots, col);
        pivots := pivots + [col];
        rank := rank + 1;
      }
    }
    if Independent(original) {
      IndependentHasFullRank(m[..], pivots);
    }
  }
}
