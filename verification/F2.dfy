/** Linear algebra over the field with two elements. A vector is the set of its nonzero coordinates, so that
    addition is the symmetric difference; an integer used as a bit mask is the set of its one bits. */
module F2 {

  function Xor<K>(a: set<K>, b: set<K>): set<K> {
    (a - b) + (b - a)
  }

  lemma XorFacts<K>(a: set<K>, b: set<K>, c: set<K>)
    ensures Xor(a, b) == Xor(b, a)
    ensures Xor(Xor(a, b), c) == Xor(a, Xor(b, c))
    ensures Xor(a, {}) == a && Xor(a, a) == {}
  {
  }

  lemma XorCancel<K>(a: set<K>, b: set<K>)
    ensures Xor(a, b) == {} <==> a == b
  {
  }

  lemma XorTake<K>(x: set<K>, y: set<K>, b: K)
    requires b in y
    ensures Xor(Xor(x, y - {b}), {b}) == Xor(x, y)
  {
  }

  lemma TakeXor<K>(y: set<K>, b: K)
    requires b in y
    ensures Xor(y - {b}, {b}) == y
  {
  }

  function Minus(x: set<nat>, c: nat): set<nat> {
    x - {c}
  }

  /** The columns `x` selects, added up: the linear map that takes unit vector `i` to `columns[i]`. */
  function Apply<K>(columns: seq<set<K>>, x: set<nat>): set<K> {
    if columns == [] then {} else
      var n := |columns| - 1;
      Xor(Apply(columns[..n], x), if n in x then columns[n] else {})
  }

  lemma {:induction false} ApplyXor<K>(columns: seq<set<K>>, x: set<nat>, y: set<nat>)
    ensures Apply(columns, Xor(x, y)) == Xor(Apply(columns, x), Apply(columns, y))
  {
    if columns != [] {
      ApplyXor(columns[..|columns| - 1], x, y);
    }
  }

  lemma {:induction false} ApplyZero<K>(columns: seq<set<K>>)
    ensures Apply(columns, {}) == {}
  {
    if columns != [] {
      ApplyZero(columns[..|columns| - 1]);
    }
  }

  lemma {:induction false} ApplyUnit<K>(columns: seq<set<K>>, i: nat)
    ensures Apply(columns, {i}) == if i < |columns| then columns[i] else {}
  {
    if columns != [] {
      ApplyUnit(columns[..|columns| - 1], i);
    }
  }

  /** Only the coordinates that have a column matter. */
  lemma {:induction false} ApplyAgree<K>(columns: seq<set<K>>, x: set<nat>, y: set<nat>)
    requires forall i :: 0 <= i < |columns| ==> (i in x <==> i in y)
    ensures Apply(columns, x) == Apply(columns, y)
  {
    if columns != [] {
      ApplyAgree(columns[..|columns| - 1], x, y);
    }
  }

  function Shift(x: set<nat>, amount: nat): set<nat> {
    set i | i in x :: i + amount
  }

  /** A vector with `n` coordinates. */
  ghost predicate Fits(x: set<nat>, n: nat) {
    forall i :: i in x ==> i < n
  }

  /** Columns side by side act on the parts of a vector separately. */
  lemma {:induction false} ApplyConcat<K>(a: seq<set<K>>, b: seq<set<K>>, x: set<nat>, y: set<nat>)
    requires Fits(x, |a|)
    ensures Apply(a + b, x + Shift(y, |a|)) == Xor(Apply(a, x), Apply(b, y))
  {
    var z := x + Shift(y, |a|);
    if b == [] {
      assert a + b == a;
      ApplyAgree(a, x, z);
    } else {
      var n := |b| - 1;
      ApplyConcat(a, b[..n], x, y);
      assert (a + b)[..|a + b| - 1] == a + b[..n];
      assert (|a| + n in z) <==> (n in y);
      XorFacts(Apply(a, x), Apply(b[..n], y), if n in y then b[n] else {});
    }
  }

  // ----- Parity

  /** The inner product of two vectors. */
  ghost predicate Dot(a: set<nat>, x: set<nat>) {
    |a * x| % 2 == 1
  }

  lemma XorCardinality(p: set<nat>, q: set<nat>)
    ensures |Xor(p, q)| + 2 * |p * q| == |p| + |q|
  {
    assert p == (p - q) + (p * q) && q == (q - p) + (p * q);
  }

  lemma XorMeet(a: set<nat>, b: set<nat>, x: set<nat>)
    ensures Xor(a, b) * x == Xor(a * x, b * x)
  {
  }

  lemma Parity(sum: nat, common: nat, p: nat, q: nat)
    requires sum + 2 * common == p + q
    ensures sum % 2 == 1 <==> (p % 2 == 1) != (q % 2 == 1)
  {
  }

  lemma DotXor(a: set<nat>, b: set<nat>, x: set<nat>)
    ensures Dot(Xor(a, b), x) <==> (Dot(a, x) != Dot(b, x))
  {
    XorMeet(a, b, x);
    XorCardinality(a * x, b * x);
    Parity(|Xor(a * x, b * x)|, |(a * x) * (b * x)|, |a * x|, |b * x|);
  }

  lemma DotSymmetric(a: set<nat>, x: set<nat>)
    ensures Dot(a, x) <==> Dot(x, a)
  {
    assert a * x == x * a;
  }

  /** Coordinate `k` of every column: a row of the matrix. */
  function Row<K>(columns: seq<set<K>>, k: K): set<nat> {
    set c: nat | c < |columns| && k in columns[c]
  }

  lemma RowOfLast<K>(columns: seq<set<K>>, k: K)
    requires columns != []
    ensures var n := |columns| - 1;
            Row(columns, k) == Xor(Row(columns[..n], k), if k in columns[n] then {n} else {})
  {
    var n := |columns| - 1;
    assert n !in Row(columns[..n], k);
    assert forall c :: c in Row(columns[..n], k) ==> columns[..n][c] == columns[c];
  }

  lemma DotUnit(n: nat, x: set<nat>)
    ensures Dot({n}, x) <==> n in x
    ensures !Dot({}, x)
  {
    assert {n} * x == if n in x then {n} else {};
    assert {} * x == {};
  }

  /** A coordinate of the image is the inner product with a row of the matrix. */
  lemma {:induction false} ApplyByRows<K>(columns: seq<set<K>>, k: K, x: set<nat>)
    ensures k in Apply(columns, x) <==> Dot(Row(columns, k), x)
  {
    if columns == [] {
      DotUnit(0, x);
      assert Row(columns, k) == {};
    } else {
      var n := |columns| - 1;
      ApplyByRows(columns[..n], k, x);
      RowOfLast(columns, k);
      DotXor(Row(columns[..n], k), if k in columns[n] then {n} else {}, x);
      DotUnit(n, x);
    }
  }

  // ----- Spans and kernels

  ghost predicate InSpan<K>(vectors: seq<set<K>>, v: set<K>) {
    exists x :: Apply(vectors, x) == v
  }

  lemma SpanXor<K>(vectors: seq<set<K>>, v: set<K>, w: set<K>)
    requires InSpan(vectors, v) && InSpan(vectors, w)
    ensures InSpan(vectors, Xor(v, w))
  {
    var x :| Apply(vectors, x) == v;
    var y :| Apply(vectors, y) == w;
    ApplyXor(vectors, x, y);
  }

  lemma SpanOfMember<K>(vectors: seq<set<K>>, i: nat)
    requires i < |vectors|
    ensures InSpan(vectors, vectors[i])
  {
    ApplyUnit(vectors, i);
  }

  lemma SpanOfZero<K>(vectors: seq<set<K>>)
    ensures InSpan(vectors, {})
  {
    ApplyZero(vectors);
  }

  ghost predicate Generates<K>(big: seq<set<K>>, small: seq<set<K>>) {
    forall i :: 0 <= i < |small| ==> InSpan(big, small[i])
  }

  lemma {:induction false} SpanWithin<K>(big: seq<set<K>>, small: seq<set<K>>, x: set<nat>)
    requires Generates(big, small)
    ensures InSpan(big, Apply(small, x))
  {
    if small == [] {
      SpanOfZero(big);
    } else {
      var n := |small| - 1;
      SpanWithin(big, small[..n], x);
      SpanOfZero(big);
      SpanXor(big, Apply(small[..n], x), if n in x then small[n] else {});
    }
  }

  lemma GeneratesSpan<K>(big: seq<set<K>>, small: seq<set<K>>, v: set<K>)
    requires Generates(big, small) && InSpan(small, v)
    ensures InSpan(big, v)
  {
    var x :| Apply(small, x) == v;
    SpanWithin(big, small, x);
  }

  lemma GeneratesTransitive<K>(a: seq<set<K>>, b: seq<set<K>>, c: seq<set<K>>)
    requires Generates(a, b) && Generates(b, c)
    ensures Generates(a, c)
  {
    forall i | 0 <= i < |c| ensures InSpan(a, c[i]) {
      GeneratesSpan(a, b, c[i]);
    }
  }

  ghost predicate SameSpan<K>(a: seq<set<K>>, b: seq<set<K>>) {
    Generates(a, b) && Generates(b, a)
  }

  /** `x` is orthogonal to every row. */
  ghost predicate InKernel(rows: seq<set<nat>>, x: set<nat>) {
    forall r :: 0 <= r < |rows| ==> !Dot(rows[r], x)
  }

  lemma {:induction false} KernelOfCombination(rows: seq<set<nat>>, x: set<nat>, sel: set<nat>)
    requires InKernel(rows, x)
    ensures !Dot(Apply(rows, sel), x)
  {
    if rows == [] {
      assert {} * x == {};
    } else {
      var n := |rows| - 1;
      KernelOfCombination(rows[..n], x, sel);
      DotXor(Apply(rows[..n], sel), if n in sel then rows[n] else {}, x);
      assert {} * x == {};
    }
  }

  lemma KernelOfSpan(rows: seq<set<nat>>, x: set<nat>, v: set<nat>)
    requires InKernel(rows, x) && InSpan(rows, v)
    ensures !Dot(v, x)
  {
    var sel :| Apply(rows, sel) == v;
    KernelOfCombination(rows, x, sel);
  }

  lemma SameSpanSameKernel(a: seq<set<nat>>, b: seq<set<nat>>, x: set<nat>)
    requires SameSpan(a, b)
    ensures InKernel(a, x) <==> InKernel(b, x)
  {
    if InKernel(a, x) {
      forall r | 0 <= r < |b| ensures !Dot(b[r], x) {
        KernelOfSpan(a, x, b[r]);
      }
    }
    if InKernel(b, x) {
      forall r | 0 <= r < |a| ensures !Dot(a[r], x) {
        KernelOfSpan(b, x, a[r]);
      }
    }
  }

  lemma DotXorRight(a: set<nat>, x: set<nat>, y: set<nat>)
    ensures Dot(a, Xor(x, y)) <==> (Dot(a, x) != Dot(a, y))
  {
    DotXor(x, y, a);
    DotSymmetric(a, x);
    DotSymmetric(a, y);
    DotSymmetric(a, Xor(x, y));
  }

  lemma KernelOfZero(rows: seq<set<nat>>)
    ensures InKernel(rows, {})
  {
    forall r | 0 <= r < |rows| ensures !Dot(rows[r], {}) {
      assert rows[r] * {} == {};
    }
  }

  /** Combinations of solutions are solutions. */
  lemma {:induction false} KernelContainsSpan(rows: seq<set<nat>>, solutions: seq<set<nat>>, sel: set<nat>)
    requires forall j :: 0 <= j < |solutions| ==> InKernel(rows, solutions[j])
    ensures InKernel(rows, Apply(solutions, sel))
  {
    KernelOfZero(rows);
    if solutions != [] {
      var n := |solutions| - 1;
      KernelContainsSpan(rows, solutions[..n], sel);
      KernelXor(rows, Apply(solutions[..n], sel), if n in sel then solutions[n] else {});
    }
  }

  lemma KernelXor(rows: seq<set<nat>>, x: set<nat>, y: set<nat>)
    requires InKernel(rows, x) && InKernel(rows, y)
    ensures InKernel(rows, Xor(x, y))
  {
    forall r | 0 <= r < |rows| ensures !Dot(rows[r], Xor(x, y)) {
      DotXorRight(rows[r], x, y);
    }
  }

  // ----- Independence

  ghost predicate Independent<K>(vectors: seq<set<K>>) {
    forall x :: Fits(x, |vectors|) && Apply(vectors, x) == {} ==> x == {}
  }

  /** Changing one vector changes the combinations that use it. */
  lemma {:induction false} ApplyUpdate<K>(vectors: seq<set<K>>, j: nat, d: set<K>, x: set<nat>)
    requires j < |vectors|
    ensures Apply(vectors[j := Xor(vectors[j], d)], x) == Xor(Apply(vectors, x), if j in x then d else {})
  {
    var n := |vectors| - 1;
    var changed := vectors[j := Xor(vectors[j], d)];
    if j == n {
      assert changed[..n] == vectors[..n];
    } else {
      ApplyUpdate(vectors[..n], j, d, x);
      assert changed[..n] == vectors[..n][j := Xor(vectors[j], d)];
    }
  }

  /** Adding one vector to another keeps them independent. */
  lemma AddKeepsIndependent<K>(vectors: seq<set<K>>, i: nat, j: nat)
    requires i < |vectors| && j < |vectors| && i != j && Independent(vectors)
    ensures Independent(vectors[j := Xor(vectors[j], vectors[i])])
  {
    var changed := vectors[j := Xor(vectors[j], vectors[i])];
    forall x | Fits(x, |vectors|) && Apply(changed, x) == {} ensures x == {} {
      ApplyUpdate(vectors, j, vectors[i], x);
      if j in x {
        ApplyUnit(vectors, i);
        ApplyXor(vectors, x, {i});
        assert j in Xor(x, {i});
        assert Fits(Xor(x, {i}), |vectors|);
      }
    }
  }

  lemma IndependentHasNoZero<K>(vectors: seq<set<K>>, i: nat)
    requires i < |vectors| && Independent(vectors)
    ensures vectors[i] != {}
  {
    ApplyUnit(vectors, i);
    assert Fits({i}, |vectors|);
  }

  /** Swapping two vectors is adding three times. */
  lemma SwapKeepsIndependent<K>(vectors: seq<set<K>>, i: nat, j: nat)
    requires i < |vectors| && j < |vectors| && Independent(vectors)
    ensures Independent(vectors[i := vectors[j]][j := vectors[i]])
  {
    if i == j {
      assert vectors[i := vectors[j]][j := vectors[i]] == vectors;
    } else {
      var a := vectors[j := Xor(vectors[j], vectors[i])];
      AddKeepsIndependent(vectors, i, j);
      var b := a[i := Xor(a[i], a[j])];
      AddKeepsIndependent(a, j, i);
      XorFacts(vectors[i], vectors[j], vectors[i]);
      XorFacts(vectors[i], vectors[i], vectors[j]);
      assert b[i] == vectors[j];
      var c := b[j := Xor(b[j], b[i])];
      AddKeepsIndependent(b, i, j);
      XorFacts(vectors[j], vectors[i], vectors[j]);
      XorFacts(vectors[i], vectors[j], vectors[j]);
      assert c[j] == vectors[i];
      assert c == vectors[i := vectors[j]][j := vectors[i]];
    }
  }

  /** The spans have only the zero vector in common. */
  ghost predicate MeetTrivially<K(!new)>(a: seq<set<K>>, b: seq<set<K>>) {
    forall v :: InSpan(a, v) && InSpan(b, v) ==> v == {}
  }

  ghost function Low(x: set<nat>, n: nat): set<nat> {
    set i | i in x && i < n
  }

  ghost function High(x: set<nat>, n: nat): set<nat> {
    set i | i in x && i >= n :: i - n
  }

  lemma SplitVector(x: set<nat>, n: nat)
    ensures Fits(Low(x, n), n) && x == Low(x, n) + Shift(High(x, n), n)
  {
    forall i | i in x && i >= n ensures i in Shift(High(x, n), n) {
      assert i - n in High(x, n);
    }
  }

  /** Independent lists whose spans meet trivially are independent together. */
  lemma ConcatIndependent<K(!new)>(a: seq<set<K>>, b: seq<set<K>>)
    requires Independent(a) && Independent(b) && MeetTrivially(a, b)
    ensures Independent(a + b)
  {
    forall x | Fits(x, |a + b|) && Apply(a + b, x) == {} ensures x == {} {
      SplitVector(x, |a|);
      ApplyConcat(a, b, Low(x, |a|), High(x, |a|));
      assert Apply(a, Low(x, |a|)) == Apply(b, High(x, |a|));
      assert InSpan(a, Apply(a, Low(x, |a|))) && InSpan(b, Apply(a, Low(x, |a|)));
    }
  }

  /** The vectors without the last one, each freed of coordinate `k` with its help. */
  ghost function Eliminate<K>(vectors: seq<set<K>>, k: K): seq<set<K>>
    requires vectors != []
  {
    var n := |vectors| - 1;
    seq(n, i requires 0 <= i < n => if k in vectors[i] then Xor(vectors[i], vectors[n]) else vectors[i])
  }

  lemma {:induction false} EliminateApply<K>(vectors: seq<set<K>>, last: set<K>, k: K, x: set<nat>)
    returns (extra: bool)
    ensures Apply(Eliminate(vectors + [last], k), x) == Xor(Apply(vectors, x), if extra then last else {})
  {
    var reduced := Eliminate(vectors + [last], k);
    if vectors == [] {
      extra := false;
    } else {
      var n := |vectors| - 1;
      var before := EliminateApply(vectors[..n], last, k, x);
      assert reduced[..n] == Eliminate(vectors[..n] + [last], k);
      extra := if n in x && k in vectors[n] then !before else before;
    }
  }

  /** There are at most `n` independent vectors with `n` coordinates. */
  lemma {:induction false} DimensionBound(vectors: seq<set<nat>>, n: nat)
    requires Independent(vectors) && forall i :: 0 <= i < |vectors| ==> Fits(vectors[i], n)
    ensures |vectors| <= n
    decreases n
  {
    if p :| 0 <= p < |vectors| && n - 1 in vectors[p] {
      var last := |vectors| - 1;
      var swapped := vectors[p := vectors[last]][last := vectors[p]];
      SwapKeepsIndependent(vectors, p, last);
      var k: nat := n - 1;
      EliminateIndependent<nat>(swapped, k);
      DimensionBound(Eliminate<nat>(swapped, k), k);
    } else if vectors != [] {
      IndependentHasNoZero(vectors, 0);
      DimensionBound(vectors, n - 1);
    }
  }

  lemma EliminateIndependent<K>(vectors: seq<set<K>>, k: K)
    requires vectors != [] && Independent(vectors)
    ensures Independent(Eliminate(vectors, k))
  {
    var n := |vectors| - 1;
    var init, last := vectors[..n], vectors[n];
    assert vectors == init + [last];
    forall x | Fits(x, n) && Apply(Eliminate(vectors, k), x) == {} ensures x == {} {
      var extra := EliminateApply(init, last, k, x);
      var y := if extra then x + {n} else x;
      ApplyAgree(init, x, y);
      assert Apply(vectors, y) == Xor(Apply(init, y), if n in y then last else {});
      assert Fits(y, n + 1);
      assert y == {};
    }
  }

  lemma TailsOfPermutation<T>(c: seq<T>, b: seq<T>)
    requires c != [] && b != [] && c[0] == b[0] && multiset(c) == multiset(b)
    ensures multiset(c[1..]) == multiset(b[1..])
  {
    assert c == [c[0]] + c[1..] && b == [b[0]] + b[1..];
    assert multiset(c[1..]) == multiset(c) - multiset{c[0]};
  }

  /** `a` with its first vector and vector `p` exchanged. */
  function Exchange<T>(a: seq<T>, p: nat): (r: seq<T>)
    requires p < |a|
    ensures |r| == |a| && r[0] == a[p] && multiset(r) == multiset(a)
  {
    a[0 := a[p]][p := a[0]]
  }

  lemma ExchangeIndependent<K>(prefix: seq<set<K>>, a: seq<set<K>>, p: nat)
    requires p < |a| && Independent(prefix + a)
    ensures Independent(prefix + [a[p]] + Exchange(a, p)[1..])
  {
    var n := |prefix|;
    SwapKeepsIndependent(prefix + a, n, n + p);
    assert (prefix + a)[n := (prefix + a)[n + p]][n + p := (prefix + a)[n]] == prefix + [a[p]] + Exchange(a, p)[1..];
  }

  /** The order of the vectors does not matter for their independence. */
  lemma {:induction false} PermutationIndependent<K>(prefix: seq<set<K>>, a: seq<set<K>>, b: seq<set<K>>)
    requires multiset(a) == multiset(b) && Independent(prefix + a)
    ensures Independent(prefix + b)
    decreases |a|
  {
    if b == [] {
      assert |a| == |multiset(a)| == 0;
    } else {
      assert b[0] in multiset(a);
      var p :| 0 <= p < |a| && a[p] == b[0];
      ExchangeIndependent(prefix, a, p);
      TailsOfPermutation(Exchange(a, p), b);
      PermutationIndependent(prefix + [b[0]], Exchange(a, p)[1..], b[1..]);
      assert prefix + [b[0]] + b[1..] == prefix + b;
    }
  }

  /** As many independent vectors as there are coordinates. */
  ghost predicate IsBasis(vectors: seq<set<nat>>, dim: nat) {
    Independent(vectors) && |vectors| == dim && forall i :: 0 <= i < |vectors| ==> Fits(vectors[i], dim)
  }

  /** The map given by a basis is a bijection: it hits every vector exactly once. */
  lemma BasisIsBijection(vectors: seq<set<nat>>, dim: nat, w: set<nat>) returns (x: set<nat>)
    requires IsBasis(vectors, dim) && Fits(w, dim)
    ensures Fits(x, dim) && Apply(vectors, x) == w
    ensures forall y :: Fits(y, dim) && Apply(vectors, y) == w ==> y == x
  {
    if !InSpan(vectors, w) {
      ExtendIndependent(vectors, w);
      DimensionBound(vectors + [w], dim);
    }
    var z :| Apply(vectors, z) == w;
    x := Low(z, dim);
    ApplyAgree(vectors, z, x);
    forall y | Fits(y, dim) && Apply(vectors, y) == w ensures y == x {
      ApplyXor(vectors, x, y);
      assert Fits(Xor(x, y), dim);
    }
  }

  lemma ExtendIndependent<K>(vectors: seq<set<K>>, w: set<K>)
    requires Independent(vectors) && !InSpan(vectors, w)
    ensures Independent(vectors + [w])
  {
    var n := |vectors|;
    var longer := vectors + [w];
    assert longer[..n] == vectors;
    forall x | Fits(x, n + 1) && Apply(longer, x) == {} ensures x == {} {
      assert InSpan(vectors, Apply(vectors, x));
      assert n in x ==> Xor(Apply(vectors, x), w) == {};
      assert Fits(x, n);
    }
  }
}
