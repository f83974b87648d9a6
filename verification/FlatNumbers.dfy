/** Vectors as binary numbers: several coordinates packed into one number, and a number split into coordinates. */
module FlatNumbers {
  import opened Arithmetic
  import opened F2
  import opened Powers

  /** The number whose bits below `n` are those of the vector. */
  function Value(x: set<nat>, n: nat): nat {
    if n == 0 then 0 else Value(x, n - 1) + if n - 1 in x then Pow2(n - 1) else 0
  }

  lemma {:induction false} ValueBound(x: set<nat>, n: nat)
    ensures Value(x, n) < Pow2(n)
  {
    if n > 0 {
      ValueBound(x, n - 1);
    }
  }

  /** The bits of a number below `2^n`. */
  function BitsOf(value: int, n: nat): set<nat> {
    if n == 0 then {}
    else if value >= Pow2(n - 1) then BitsOf(value - Pow2(n - 1), n - 1) + {n - 1}
    else BitsOf(value, n - 1)
  }

  lemma {:induction false} BitsOfValue(x: set<nat>, n: nat)
    requires Fits(x, n)
    ensures BitsOf(Value(x, n), n) == x
  {
    if n > 0 {
      ValueBound(x, n - 1);
      ValueAgrees(x, x - {n - 1}, n - 1);
      BitsOfValue(x - {n - 1}, n - 1);
    }
  }

  lemma {:induction false} PowerSum(n: nat, m: nat)
    ensures Pow2(n + m) == Pow2(n) * Pow2(m)
  {
    if m > 0 {
      PowerSum(n, m - 1);
      Commute(Pow2(n), Pow2(m));
      Scale(2, Pow2(m - 1), Pow2(n));
      Commute(Pow2(m - 1), Pow2(n));
    }
  }

  lemma {:induction false} ValueAgrees(x: set<nat>, y: set<nat>, n: nat)
    requires forall i :: 0 <= i < n ==> (i in x <==> i in y)
    ensures Value(x, n) == Value(y, n)
  {
    if n > 0 {
      ValueAgrees(x, y, n - 1);
    }
  }

  /** The bits from `n` on weigh `2^n` times as much. */
  lemma {:induction false} ValueSplits(x: set<nat>, n: nat, m: nat)
    ensures Value(x, n + m) == Value(High(x, n), m) * Pow2(n) + Value(x, n)
  {
    if m > 0 {
      ValueSplits(x, n, m - 1);
      PowerSum(n, m - 1);
      Commute(Pow2(n), Pow2(m - 1));
      Distribute(Value(High(x, n), m - 1), if m - 1 in High(x, n) then Pow2(m - 1) else 0, Pow2(n));
      assert n + (m - 1) in x ==> n + (m - 1) - n in High(x, n);
    }
  }

  /** Remainder and quotient by `2^n` take the low and the high bits. */
  lemma ValueDivMod(x: set<nat>, n: nat, m: nat)
    ensures Value(x, n + m) % Pow2(n) == Value(x, n) && Value(x, n + m) / Pow2(n) == Value(High(x, n), m)
  {
    ValueSplits(x, n, m);
    ValueBound(x, n);
    DivMod(Value(High(x, n), m), Pow2(n), Value(x, n));
  }

  // ----- One basis

  /** The bits of each dimension. */
  function Widths(dims: seq<string>, log2: map<string, nat>): seq<nat> {
    seq(|dims|, k requires 0 <= k < |dims| => if dims[k] in log2 then log2[dims[k]] else 0)
  }

  ghost function Offset(widths: seq<nat>, k: nat): nat
    requires k <= |widths|
  {
    if k == 0 then 0 else Offset(widths, k - 1) + widths[k - 1]
  }

  /** The coordinates of the first `k` dimensions side by side. */
  ghost function Joined(parts: seq<set<nat>>, widths: seq<nat>, k: nat): set<nat>
    requires k <= |parts| == |widths|
  {
    if k == 0 then {} else Joined(parts, widths, k - 1) + Shift(parts[k - 1], Offset(widths, k - 1))
  }

  lemma {:induction false} JoinedFits(parts: seq<set<nat>>, widths: seq<nat>, k: nat)
    requires k <= |parts| == |widths| && forall i :: 0 <= i < |parts| ==> Fits(parts[i], widths[i])
    ensures Fits(Joined(parts, widths, k), Offset(widths, k))
  {
    if k > 0 {
      JoinedFits(parts, widths, k - 1);
    }
  }

  /** Adding the shifted coordinates sets their bits side by side: nothing carries. */
  lemma JoinedValue(parts: seq<set<nat>>, widths: seq<nat>, k: nat)
    requires k < |parts| == |widths| && forall i :: 0 <= i < |parts| ==> Fits(parts[i], widths[i])
    ensures Value(Joined(parts, widths, k + 1), Offset(widths, k + 1)) ==
            Value(Joined(parts, widths, k), Offset(widths, k)) + Value(parts[k], widths[k]) * Pow2(Offset(widths, k))
  {
    var x, n := Joined(parts, widths, k + 1), Offset(widths, k);
    JoinedFits(parts, widths, k);
    ValueSplits(x, n, widths[k]);
    ValueAgrees(x, Joined(parts, widths, k), n);
    forall i | 0 <= i < widths[k] ensures i in High(x, n) <==> i in parts[k] {
      assert i in parts[k] ==> i + n in Shift(parts[k], n);
      assert i + n in x ==> i + n - n in High(x, n);
    }
    ValueAgrees(High(x, n), parts[k], widths[k]);
  }

  /** Flattens a basis into one number. */
  method FlattenBasis(basis: seq<nat>, shifts: seq<nat>, ghost parts: seq<set<nat>>, ghost widths: seq<nat>)
    returns (b: nat)
    requires |basis| == |parts| == |widths| <= |shifts|
    requires forall i :: 0 <= i < |basis| ==>
      Fits(parts[i], widths[i]) && basis[i] == Value(parts[i], widths[i]) && shifts[i] == Offset(widths, i)
    ensures b == Value(Joined(parts, widths, |parts|), Offset(widths, |widths|))
  {
    b := 0;
    for i := 0 to |basis|
      invariant b == Value(Joined(parts, widths, i), Offset(widths, i))
    {
      JoinedValue(parts, widths, i);
      b := b + basis[i] * Pow2(shifts[i]);
    }
  }

  /** The coordinates of dimension `k` in a flat vector. */
  ghost function Slice(x: set<nat>, widths: seq<nat>, k: nat): set<nat>
    requires k < |widths|
  {
    Low(High(x, Offset(widths, k)), widths[k])
  }

  lemma {:induction false} OffsetGrows(widths: seq<nat>, k: nat, m: nat)
    requires k <= m <= |widths|
    ensures Offset(widths, k) <= Offset(widths, m)
    decreases m
  {
    if k < m {
      OffsetGrows(widths, k, m - 1);
    }
  }

  lemma HighHigh(x: set<nat>, n: nat, m: nat)
    ensures High(High(x, n), m) == High(x, n + m)
  {
    forall i: nat ensures i in High(High(x, n), m) <==> i in High(x, n + m) {
      if i in High(x, n + m) {
        assert i + m in High(x, n);
      }
    }
  }

  lemma HighZero(x: set<nat>)
    ensures High(x, 0) == x
  {
    forall i: nat ensures i in High(x, 0) <==> i in x {
      assert i in x ==> i - 0 in High(x, 0);
    }
  }

  /** `b` is what is left of the flat vector from dimension `k` on. */
  ghost predicate IsRest(b: int, x: set<nat>, widths: seq<nat>, k: nat)
    requires k <= |widths|
  {
    && Offset(widths, k) <= Offset(widths, |widths|)
    && b == Value(High(x, Offset(widths, k)), Offset(widths, |widths|) - Offset(widths, k))
  }

  lemma RestStarts(flat: nat, x: set<nat>, widths: seq<nat>)
    requires flat == Value(x, Offset(widths, |widths|))
    ensures IsRest(flat, x, widths, 0)
  {
    HighZero(x);
  }

  lemma RestSplits(b: int, x: set<nat>, widths: seq<nat>, k: nat)
    requires k < |widths| && IsRest(b, x, widths, k)
    ensures b % Pow2(widths[k]) == Value(Slice(x, widths, k), widths[k])
    ensures IsRest(b / Pow2(widths[k]), x, widths, k + 1)
  {
    OffsetGrows(widths, k + 1, |widths|);
    var rest := Offset(widths, |widths|) - Offset(widths, k + 1);
    var high := High(x, Offset(widths, k));
    ValueDivMod(high, widths[k], rest);
    HighHigh(x, Offset(widths, k), widths[k]);
    ValueAgrees(high, Low(high, widths[k]), widths[k]);
  }

  /** Takes the lowest coordinate off. */
  method TakeCoordinate(b: int, newWidths: seq<nat>, k: nat, ghost x: set<nat>) returns (coordinate: int, rest: int)
    requires k < |newWidths| && IsRest(b, x, newWidths, k)
    ensures coordinate == Value(Slice(x, newWidths, k), newWidths[k]) && IsRest(rest, x, newWidths, k + 1)
  {
    RestSplits(b, x, newWidths, k);
    var newSize := Pow2(newWidths[k]);
    return b % newSize, b / newSize;
  }

  /** The coordinates of the first `k` dimensions as numbers. */
  ghost function Slices(x: set<nat>, widths: seq<nat>, k: nat): seq<int>
    requires k <= |widths|
  {
    if k == 0 then [] else Slices(x, widths, k - 1) + [Value(Slice(x, widths, k - 1), widths[k - 1])]
  }

  lemma {:induction false} SlicesAt(x: set<nat>, widths: seq<nat>, k: nat, j: nat)
    requires j < k <= |widths|
    ensures |Slices(x, widths, k)| == k && Slices(x, widths, k)[j] == Value(Slice(x, widths, j), widths[j])
  {
    if k > 1 {
      SlicesAt(x, widths, k - 1, if j < k - 1 then j else 0);
    }
  }

  lemma SlicesLength(x: set<nat>, widths: seq<nat>, k: nat)
    requires k <= |widths|
    ensures |Slices(x, widths, k)| == k
  {
    if k > 0 {
      SlicesAt(x, widths, k, 0);
    }
  }

  /** Splits a number into coordinates, the first dimension from the lowest bits. */
  method SplitBasis(flat: nat, newWidths: seq<nat>, ghost x: set<nat>) returns (multiDimBasis: seq<int>)
    requires flat == Value(x, Offset(newWidths, |newWidths|))
    ensures multiDimBasis == Slices(x, newWidths, |newWidths|)
  {
    var b: int := flat;
    multiDimBasis := [];
    RestStarts(flat, x, newWidths);
    for k := 0 to |newWidths|
      invariant IsRest(b, x, newWidths, k)
      invariant multiDimBasis == Slices(x, newWidths, k)
    {
      var coordinate;
      coordinate, b := TakeCoordinate(b, newWidths, k, x);
      multiDimBasis := multiDimBasis + [coordinate];
    }
  }
}
