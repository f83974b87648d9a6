/** The shared-memory bytes of a box of elements, as one interval for each row along the fastest dimension. */
module StaticAccess {
  import opened Arithmetic
  import opened Intervals
  import opened Options

  /** A box of elements of a buffer: `sizes[d]` coordinates from `offsets[d]` on in every dimension. */
  datatype View = View(offsets: seq<int>, sizes: seq<int>) {
    predicate InBounds(shape: seq<int>) {
      && |shape| == |offsets| == |sizes|
      && forall d | 0 <= d < |shape| ::
           0 < shape[d] && 0 <= offsets[d] && 0 < sizes[d] && offsets[d] + sizes[d] <= shape[d]
    }

    ghost predicate Has(x: seq<int>) {
      && |x| == |offsets| == |sizes|
      && forall d :: 0 <= d < |x| ==> offsets[d] <= x[d] < offsets[d] + sizes[d]
    }
  }

  /** Every dimension occurs once. */
  ghost predicate IsOrder(order: seq<nat>, rank: nat) {
    && |order| == rank
    && (forall k :: 0 <= k < rank ==> order[k] < rank)
    && (forall k, l :: 0 <= k < l < rank ==> order[k] != order[l])
    && (forall d: nat :: d < rank ==> d in order)
  }

  // ----- Row-major position along an order, fastest dimension first

  ghost function Linear(order: seq<nat>, coord: seq<int>, shape: seq<int>): int
    requires |coord| == |shape| && forall k :: 0 <= k < |order| ==> order[k] < |shape|
  {
    if order == [] then 0 else Linear(order[1..], coord, shape) * shape[order[0]] + coord[order[0]]
  }

  method LinearizeStatic(coord: seq<int>, shape: seq<int>, order: seq<nat>) returns (linear: int)
    requires |coord| == |shape| && forall k :: 0 <= k < |order| ==> order[k] < |shape|
    ensures linear == Linear(order, coord, shape)
  {
    linear := 0;
    var k := |order|;
    while k > 0
      invariant 0 <= k <= |order| && linear == Linear(order[k..], coord, shape)
    {
      k := k - 1;
      assert order[k..][1..] == order[k + 1..];
      linear := linear * shape[order[k]] + coord[order[k]];
    }
    assert order[0..] == order;
  }

  lemma {:induction false} LinearAgrees(order: seq<nat>, x: seq<int>, y: seq<int>, shape: seq<int>)
    requires |x| == |y| == |shape| && forall k :: 0 <= k < |order| ==> order[k] < |shape| && x[order[k]] == y[order[k]]
    ensures Linear(order, x, shape) == Linear(order, y, shape)
  {
    if order != [] {
      LinearAgrees(order[1..], x, y, shape);
    }
  }

  /** Different elements of the buffer have different positions. */
  lemma {:induction false} LinearInjective(order: seq<nat>, x: seq<int>, y: seq<int>, shape: seq<int>)
    requires |x| == |y| == |shape| && forall k :: 0 <= k < |order| ==> order[k] < |shape|
    requires forall k :: 0 <= k < |order| ==> 0 <= x[order[k]] < shape[order[k]] && 0 <= y[order[k]] < shape[order[k]]
    requires Linear(order, x, shape) == Linear(order, y, shape)
    ensures forall k :: 0 <= k < |order| ==> x[order[k]] == y[order[k]]
  {
    if order != [] {
      var d := order[0];
      QuotientAndRest(Linear(order[1..], x, shape), Linear(order[1..], y, shape), shape[d], x[d], y[d]);
      LinearInjective(order[1..], x, y, shape);
    }
  }

  lemma {:induction false} LinearIsNatural(order: seq<nat>, x: seq<int>, shape: seq<int>)
    requires |x| == |shape|
    requires forall k :: 0 <= k < |order| ==> order[k] < |shape| && 0 <= x[order[k]] && 0 < shape[order[k]]
    ensures 0 <= Linear(order, x, shape)
  {
    if order != [] {
      LinearIsNatural(order[1..], x, shape);
    }
  }

  // ----- The mixed-radix counter

  ghost function Product(dims: seq<nat>, sizes: seq<int>): int
    requires forall k :: 0 <= k < |dims| ==> dims[k] < |sizes|
  {
    if dims == [] then 1 else Product(dims[..|dims| - 1], sizes) * sizes[dims[|dims| - 1]]
  }

  lemma {:induction false} ProductPositive(dims: seq<nat>, sizes: seq<int>)
    requires forall k :: 0 <= k < |dims| ==> dims[k] < |sizes| && 0 < sizes[dims[k]]
    ensures 0 < Product(dims, sizes)
  {
    if dims != [] {
      ProductPositive(dims[..|dims| - 1], sizes);
    }
  }

  /** Division by repeated subtraction. */
  ghost function Quotient(n: nat, size: int): nat
    requires 0 < size
  {
    if n < size then 0 else 1 + Quotient(n - size, size)
  }

  ghost function Rest(n: nat, size: int): (r: nat)
    requires 0 < size
    ensures r < size
  {
    if n < size then n else Rest(n - size, size)
  }

  lemma {:induction false} QuotientSum(n: nat, size: int)
    requires 0 < size
    ensures n == Quotient(n, size) * size + Rest(n, size)
  {
    if n >= size {
      QuotientSum(n - size, size);
      Distribute(Quotient(n - size, size), 1, size);
    } else {
      assert 0 * size == 0;
    }
  }

  lemma QuotientIs(n: nat, size: int)
    requires 0 < size
    ensures Quotient(n, size) == n / size && Rest(n, size) == n % size
  {
    QuotientSum(n, size);
    DivisionSum(n, size);
    QuotientAndRest(Quotient(n, size), n / size, size, Rest(n, size), n % size);
  }

  lemma {:induction false} QuotientOf(q: nat, size: int, i: int)
    requires 0 <= i < size
    ensures 0 <= q * size + i && Quotient(q * size + i, size) == q && Rest(q * size + i, size) == i
  {
    if q > 0 {
      QuotientOf(q - 1, size, i);
      Distribute(q - 1, 1, size);
    } else {
      assert q * size == 0;
    }
  }

  /** The corner reached from `start` by counting to `n`, the last of the dimensions running fastest. */
  ghost function Counted(start: seq<int>, dims: seq<nat>, sizes: seq<int>, n: nat): (r: seq<int>)
    requires |start| == |sizes| && forall k :: 0 <= k < |dims| ==> dims[k] < |sizes| && 0 < sizes[dims[k]]
    ensures |r| == |start|
    decreases |dims|
  {
    if dims == [] then start else
      var d := dims[|dims| - 1];
      Counted(start[d := start[d] + Rest(n, sizes[d])], dims[..|dims| - 1], sizes, Quotient(n, sizes[d]))
  }

  lemma CountedStep(start: seq<int>, dims: seq<nat>, sizes: seq<int>, q: nat, i: int)
    requires |start| == |sizes| && forall k :: 0 <= k < |dims| ==> dims[k] < |sizes| && 0 < sizes[dims[k]]
    requires dims != [] && 0 <= i < sizes[dims[|dims| - 1]]
    ensures 0 <= q * sizes[dims[|dims| - 1]] + i
    ensures var d := dims[|dims| - 1];
            Counted(start, dims, sizes, q * sizes[d] + i) ==
            Counted(start[d := start[d] + i], dims[..|dims| - 1], sizes, q)
  {
    QuotientOf(q, sizes[dims[|dims| - 1]], i);
  }

  /** `x` is ahead of `start` by less than the size in the given dimensions, and level in the others. */
  ghost predicate Ahead(start: seq<int>, dims: seq<nat>, sizes: seq<int>, x: seq<int>)
    requires |start| == |sizes|
  {
    && |x| == |start|
    && (forall d :: 0 <= d < |x| && d in dims ==> start[d] <= x[d] < start[d] + sizes[d])
    && (forall d :: 0 <= d < |x| && d !in dims ==> x[d] == start[d])
  }

  lemma AheadLess(start: seq<int>, dims: seq<nat>, sizes: seq<int>, x: seq<int>)
    requires |start| == |sizes| && dims != [] && Ahead(start, dims, sizes, x) && dims[|dims| - 1] < |x|
    requires forall k, l :: 0 <= k < l < |dims| ==> dims[k] != dims[l]
    ensures var d := dims[|dims| - 1];
            Ahead(start[d := x[d]], dims[..|dims| - 1], sizes, x) && 0 <= x[d] - start[d] < sizes[d]
  {
    var init, d := dims[..|dims| - 1], dims[|dims| - 1];
    assert dims == init + [d] && d !in init;
  }

  lemma AheadMore(start: seq<int>, dims: seq<nat>, sizes: seq<int>, i: int, x: seq<int>)
    requires |start| == |sizes| && dims != [] && dims[|dims| - 1] < |start|
    requires forall k, l :: 0 <= k < l < |dims| ==> dims[k] != dims[l]
    requires var d := dims[|dims| - 1];
             0 <= i < sizes[d] && Ahead(start[d := start[d] + i], dims[..|dims| - 1], sizes, x)
    ensures Ahead(start, dims, sizes, x)
  {
    var init, d := dims[..|dims| - 1], dims[|dims| - 1];
    assert dims == init + [d] && d !in init;
  }

  /** Counting stays inside the box and moves only along the given dimensions. */
  lemma {:induction false} CountedInside(start: seq<int>, dims: seq<nat>, sizes: seq<int>, n: nat)
    requires |start| == |sizes| && forall k :: 0 <= k < |dims| ==> dims[k] < |sizes| && 0 < sizes[dims[k]]
    requires forall k, l :: 0 <= k < l < |dims| ==> dims[k] != dims[l]
    ensures Ahead(start, dims, sizes, Counted(start, dims, sizes, n))
    decreases |dims|
  {
    if dims != [] {
      var init, d := dims[..|dims| - 1], dims[|dims| - 1];
      CountedInside(start[d := start[d] + Rest(n, sizes[d])], init, sizes, Quotient(n, sizes[d]));
      AheadMore(start, dims, sizes, Rest(n, sizes[d]), Counted(start, dims, sizes, n));
    }
  }

  /** Every corner of the box is reached. */
  lemma {:induction false} CountedReaches(start: seq<int>, dims: seq<nat>, sizes: seq<int>, x: seq<int>)
    returns (n: nat)
    requires |start| == |sizes| && forall k :: 0 <= k < |dims| ==> dims[k] < |sizes| && 0 < sizes[dims[k]]
    requires forall k, l :: 0 <= k < l < |dims| ==> dims[k] != dims[l]
    requires Ahead(start, dims, sizes, x)
    ensures n < Product(dims, sizes) && Counted(start, dims, sizes, n) == x
    decreases |dims|
  {
    if dims == [] {
      n := 0;
      assert start == x;
    } else {
      AheadLess(start, dims, sizes, x);
      var init, d := dims[..|dims| - 1], dims[|dims| - 1];
      var q := CountedReaches(start[d := x[d]], init, sizes, x);
      CountedStep(start, dims, sizes, q, x[d] - start[d]);
      n := q * sizes[d] + (x[d] - start[d]);
      ProductStep(q, Product(init, sizes), sizes[d], x[d] - start[d]);
    }
  }

  lemma ProductStep(q: nat, p: int, size: int, i: int)
    requires q < p && 0 <= i < size
    ensures q * size + i < p * size
  {
    Times(q, p, size);
  }

  // ----- What the position is

  ghost predicate IsInside(x: seq<int>, shape: seq<int>) {
    |x| == |shape| && forall d :: 0 <= d < |x| ==> 0 <= x[d] < shape[d]
  }

  /** `x` comes before `y` when the dimensions are compared from the slowest to the fastest. */
  ghost predicate Precedes(order: seq<nat>, x: seq<int>, y: seq<int>)
    requires |x| == |y| && forall k :: 0 <= k < |order| ==> order[k] < |x|
  {
    exists k :: 0 <= k < |order| && x[order[k]] < y[order[k]]
                && forall l :: k < l < |order| ==> x[order[l]] == y[order[l]]
  }

  /** Elements follow each other in memory in that order. */
  lemma {:induction false} LinearOrdered(order: seq<nat>, x: seq<int>, y: seq<int>, shape: seq<int>)
    requires IsInside(x, shape) && IsInside(y, shape) && forall k :: 0 <= k < |order| ==> order[k] < |shape|
    ensures Linear(order, x, shape) < Linear(order, y, shape) <==> Precedes(order, x, y)
  {
    if order != [] {
      var rest, d := order[1..], order[0];
      LinearOrdered(rest, x, y, shape);
      LinearOrdered(rest, y, x, shape);
      var p, q := Linear(rest, x, shape), Linear(rest, y, shape);
      PrecedesFirst(order, x, y);
      if p < q {
        Times(p, q, shape[d]);
      } else if q < p {
        Times(q, p, shape[d]);
        if forall l :: 0 <= l < |rest| ==> x[rest[l]] == y[rest[l]] {
          LinearAgrees(rest, x, y, shape);
        }
      } else {
        LinearInjective(rest, x, y, shape);
      }
    }
  }

  /** Either a slower dimension decides or all are level and the fastest does. */
  lemma PrecedesFirst(order: seq<nat>, x: seq<int>, y: seq<int>)
    requires order != [] && |x| == |y| && forall k :: 0 <= k < |order| ==> order[k] < |x|
    ensures Precedes(order, x, y) <==>
            || Precedes(order[1..], x, y)
            || (x[order[0]] < y[order[0]] && forall l :: 0 <= l < |order| - 1 ==> x[order[1..][l]] == y[order[1..][l]])
  {
    var rest := order[1..];
    if k :| 0 <= k < |rest| && x[rest[k]] < y[rest[k]] && forall l :: k < l < |rest| ==> x[rest[l]] == y[rest[l]] {
      assert x[order[k + 1]] < y[order[k + 1]];
      forall l | k + 1 < l < |order| ensures x[order[l]] == y[order[l]] {
        assert x[rest[l - 1]] == y[rest[l - 1]];
      }
    }
    if k :| 0 <= k < |order| && x[order[k]] < y[order[k]] &&
            forall l :: k < l < |order| ==> x[order[l]] == y[order[l]] {
      forall l | k - 1 < l < |rest| ensures x[rest[l]] == y[rest[l]] {
        assert x[order[l + 1]] == y[order[l + 1]];
      }
      if k > 0 {
        assert x[rest[k - 1]] < y[rest[k - 1]];
      }
    }
    if x[order[0]] < y[order[0]] && forall l :: 0 <= l < |rest| ==> x[rest[l]] == y[rest[l]] {
      forall l | 0 < l < |order| ensures x[order[l]] == y[order[l]] {
        assert x[rest[l - 1]] == y[rest[l - 1]];
      }
    }
  }

  /** The number of elements in the first `n` dimensions. */
  ghost function Volume(shape: seq<int>, n: nat): int
    requires n <= |shape|
  {
    if n == 0 then 1 else Volume(shape, n - 1) * shape[n - 1]
  }

  lemma {:induction false} LinearBound(order: seq<nat>, x: seq<int>, shape: seq<int>)
    requires IsInside(x, shape) && forall k :: 0 <= k < |order| ==> order[k] < |shape|
    ensures 0 <= Linear(order, x, shape) < ProductOf(order, shape)
  {
    if order != [] {
      LinearBound(order[1..], x, shape);
      ProductStep(Linear(order[1..], x, shape), ProductOf(order[1..], shape), shape[order[0]], x[order[0]]);
    }
  }

  ghost function ProductOf(order: seq<nat>, shape: seq<int>): int
    requires forall k :: 0 <= k < |order| ==> order[k] < |shape|
  {
    if order == [] then 1 else ProductOf(order[1..], shape) * shape[order[0]]
  }

  lemma {:induction false} ProductWithout(order: seq<nat>, shape: seq<int>, k: nat)
    requires k < |order| && forall l :: 0 <= l < |order| ==> order[l] < |shape|
    ensures ProductOf(order, shape) == ProductOf(order[..k] + order[k + 1..], shape) * shape[order[k]]
  {
    if k == 0 {
      assert order[..0] + order[1..] == order[1..];
    } else {
      ProductWithout(order[1..], shape, k - 1);
      var others := order[..k] + order[k + 1..];
      assert others[1..] == order[1..][..k - 1] + order[1..][k..];
      var p, a, b := ProductOf(others[1..], shape), shape[order[k]], shape[order[0]];
      Scale(p, a, b);
      Scale(p, b, a);
      Commute(a, b);
    }
  }

  /** The order of the dimensions does not matter for the number of elements. */
  lemma {:induction false} ProductIsVolume(order: seq<nat>, shape: seq<int>, rank: nat)
    requires IsOrder(order, rank) && rank <= |shape|
    ensures ProductOf(order, shape) == Volume(shape, rank)
  {
    if rank > 0 {
      var d: nat := rank - 1;
      assert d in order;
      var k :| 0 <= k < rank && order[k] == d;
      ProductWithout(order, shape, k);
      WithoutLast(order, rank, k);
      ProductIsVolume(order[..k] + order[k + 1..], shape, d);
    }
  }

  lemma WithoutLast(order: seq<nat>, rank: nat, k: nat)
    requires IsOrder(order, rank) && k < rank && order[k] == rank - 1
    ensures IsOrder(order[..k] + order[k + 1..], rank - 1)
  {
    var others := order[..k] + order[k + 1..];
    forall i | 0 <= i < |others| ensures others[i] < rank - 1 {
      assert others[i] == order[if i < k then i else i + 1];
    }
    forall d: nat | d < rank - 1 ensures d in others {
      assert d in order;
      var i :| 0 <= i < rank && order[i] == d;
      assert others[if i < k then i else i - 1] == d;
    }
  }

  /** Every element of the buffer has its place among as many places as there are elements. */
  lemma PositionInside(order: seq<nat>, x: seq<int>, shape: seq<int>)
    requires IsOrder(order, |shape|) && IsInside(x, shape)
    ensures 0 <= Linear(order, x, shape) < Volume(shape, |shape|)
  {
    LinearBound(order, x, shape);
    ProductIsVolume(order, shape, |shape|);
  }

  // ----- Bytes

  /** Byte `b` belongs to element `x`. */
  ghost predicate ByteOf(order: seq<nat>, shape: seq<int>, base: nat, elemBytes: nat, x: seq<int>, b: nat)
    requires |x| == |shape| && forall k :: 0 <= k < |order| ==> order[k] < |shape|
  {
    base + Linear(order, x, shape) * elemBytes <= b < base + (Linear(order, x, shape) + 1) * elemBytes
  }

  ghost predicate HasByte(view: View, order: seq<nat>, shape: seq<int>, base: nat, elemBytes: nat, b: nat)
    requires |view.offsets| == |shape| && forall k :: 0 <= k < |order| ==> order[k] < |shape|
  {
    exists x :: view.Has(x) && ByteOf(order, shape, base, elemBytes, x, b)
  }

  ghost predicate Covered(intervals: seq<Interval>, b: nat) {
    exists i :: 0 <= i < |intervals| && intervals[i].Contains(b)
  }

  /** `x` differs from `start` at most along dimension `f`, and by less than `size` there. */
  ghost predicate InRow(start: seq<int>, f: nat, size: int, x: seq<int>)
    requires f < |start|
  {
    |x| == |start| && start[f] <= x[f] < start[f] + size && forall d :: 0 <= d < |start| && d != f ==> x[d] == start[d]
  }

  lemma RowPosition(start: seq<int>, order: seq<nat>, shape: seq<int>, size: int, x: seq<int>)
    requires |start| == |shape| && IsOrder(order, |shape|) && order != [] && InRow(start, order[0], size, x)
    ensures Linear(order, x, shape) == Linear(order, start, shape) + x[order[0]] - start[order[0]]
  {
    LinearAgrees(order[1..], x, start, shape);
  }

  /** The bytes of a row are those of its elements. */
  ghost predicate IsRow(interval: Interval, start: seq<int>, order: seq<nat>, shape: seq<int>, size: int, base: nat,
                        elemBytes: nat)
    requires |start| == |shape| && forall k :: 0 <= k < |order| ==> order[k] < |shape|
  {
    && interval.start == base + Linear(order, start, shape) * elemBytes
    && interval.end == base + (Linear(order, start, shape) + size) * elemBytes
  }

  lemma RowElement(interval: Interval, start: seq<int>, order: seq<nat>, shape: seq<int>, size: int, base: nat,
                   elemBytes: nat, b: nat) returns (x: seq<int>)
    requires |start| == |shape| && IsOrder(order, |shape|) && order != [] && 0 < elemBytes
    requires IsRow(interval, start, order, shape, size, base, elemBytes) && interval.Contains(b)
    ensures InRow(start, order[0], size, x) && ByteOf(order, shape, base, elemBytes, x, b)
  {
    var f, first := order[0], Linear(order, start, shape);
    var rest := b - base - first * elemBytes;
    var i := rest / elemBytes;
    DivisionSum(rest, elemBytes);
    if size <= i {
      Monotone(first + size, first + i, elemBytes);
      Distribute(first, i, elemBytes);
    }
    x := start[f := start[f] + i];
    RowPosition(start, order, shape, size, x);
    Distribute(first, i, elemBytes);
    Distribute(first + i, 1, elemBytes);
  }

  lemma ElementInRow(interval: Interval, start: seq<int>, order: seq<nat>, shape: seq<int>, size: int, base: nat,
                     elemBytes: nat, x: seq<int>, b: nat)
    requires |start| == |shape| && IsOrder(order, |shape|) && order != []
    requires IsRow(interval, start, order, shape, size, base, elemBytes)
    requires InRow(start, order[0], size, x) && ByteOf(order, shape, base, elemBytes, x, b)
    ensures interval.Contains(b)
  {
    RowPosition(start, order, shape, size, x);
    Monotone(Linear(order, start, shape), Linear(order, x, shape), elemBytes);
    Monotone(Linear(order, x, shape) + 1, Linear(order, start, shape) + size, elemBytes);
  }

  // ----- All rows

  /** The dimensions other than the fastest. */
  ghost predicate AreOuter(outer: seq<nat>, rank: nat, f: nat) {
    && (forall k :: 0 <= k < |outer| ==> outer[k] < rank && outer[k] != f)
    && (forall k, l :: 0 <= k < l < |outer| ==> outer[k] != outer[l])
    && (forall d: nat :: d < rank && d != f ==> d in outer)
  }

  /** One interval for every row of the box. */
  ghost predicate AreRows(intervals: seq<Interval>, view: View, order: seq<nat>, shape: seq<int>, outer: seq<nat>,
                          base: nat, elemBytes: nat)
    requires view.InBounds(shape) && IsOrder(order, |shape|) && order != [] && AreOuter(outer, |shape|, order[0])
  {
    forall n :: 0 <= n < |intervals| ==>
      IsRow(intervals[n], Counted(view.offsets, outer, view.sizes, n), order, shape, view.sizes[order[0]], base,
            elemBytes)
  }

  lemma RowsInBox(view: View, order: seq<nat>, shape: seq<int>, outer: seq<nat>, n: nat, x: seq<int>)
    requires view.InBounds(shape) && IsOrder(order, |shape|) && order != [] && AreOuter(outer, |shape|, order[0])
    requires InRow(Counted(view.offsets, outer, view.sizes, n), order[0], view.sizes[order[0]], x)
    ensures view.Has(x)
  {
    CountedInside(view.offsets, outer, view.sizes, n);
    forall d | 0 <= d < |x| ensures view.offsets[d] <= x[d] < view.offsets[d] + view.sizes[d] {
      assert d != order[0] ==> d in outer;
    }
  }

  lemma BoxInRows(view: View, order: seq<nat>, shape: seq<int>, outer: seq<nat>, x: seq<int>) returns (n: nat)
    requires view.InBounds(shape) && IsOrder(order, |shape|) && order != [] && AreOuter(outer, |shape|, order[0])
    requires view.Has(x)
    ensures n < Product(outer, view.sizes)
    ensures InRow(Counted(view.offsets, outer, view.sizes, n), order[0], view.sizes[order[0]], x)
  {
    var f := order[0];
    n := CountedReaches(view.offsets, outer, view.sizes, x[f := view.offsets[f]]);
  }

  /** The intervals hold exactly the bytes of the box. */
  lemma RowsAreExact(intervals: seq<Interval>, view: View, order: seq<nat>, shape: seq<int>, outer: seq<nat>, base: nat,
                     elemBytes: nat, b: nat)
    requires view.InBounds(shape) && IsOrder(order, |shape|) && order != [] && AreOuter(outer, |shape|, order[0])
    requires AreRows(intervals, view, order, shape, outer, base, elemBytes) && 0 < elemBytes
    requires |intervals| == Product(outer, view.sizes)
    ensures Covered(intervals, b) <==> HasByte(view, order, shape, base, elemBytes, b)
  {
    var size := view.sizes[order[0]];
    if Covered(intervals, b) {
      var n: nat :| n < |intervals| && intervals[n].Contains(b);
      var start := Counted(view.offsets, outer, view.sizes, n);
      var x := RowElement(intervals[n], start, order, shape, size, base, elemBytes, b);
      RowsInBox(view, order, shape, outer, n, x);
    }
    if HasByte(view, order, shape, base, elemBytes, b) {
      var x :| view.Has(x) && ByteOf(order, shape, base, elemBytes, x, b);
      var n := BoxInRows(view, order, shape, outer, x);
      var start := Counted(view.offsets, outer, view.sizes, n);
      ElementInRow(intervals[n], start, order, shape, size, base, elemBytes, x, b);
    }
  }

  /** The number of rows among the first `n` dimensions. */
  ghost function RowCount(sizes: seq<int>, f: nat, n: nat): int
    requires n <= |sizes|
  {
    if n == 0 then 1 else RowCount(sizes, f, n - 1) * if n - 1 == f then 1 else sizes[n - 1]
  }

  lemma {:induction false} RowCountGrows(sizes: seq<int>, f: nat, n: nat, m: nat)
    requires n <= m <= |sizes| && forall d :: 0 <= d < |sizes| ==> 0 < sizes[d]
    ensures 0 < RowCount(sizes, f, n) <= RowCount(sizes, f, m)
    decreases m
  {
    if n < m {
      RowCountGrows(sizes, f, n, m - 1);
      Monotone(1, if m - 1 == f then 1 else sizes[m - 1], RowCount(sizes, f, m - 1));
    } else if 0 < n {
      RowCountGrows(sizes, f, n - 1, n - 1);
      Monotone(1, if n - 1 == f then 1 else sizes[n - 1], RowCount(sizes, f, n - 1));
    }
  }

  lemma OuterGrows(outer: seq<nat>, d: nat, f: nat, sizes: seq<int>)
    requires AreOuter(outer, d, f) && d < |sizes|
    ensures d == f ==> AreOuter(outer, d + 1, f)
    ensures d != f ==>
      AreOuter(outer + [d], d + 1, f) && Product(outer + [d], sizes) == Product(outer, sizes) * sizes[d]
  {
    assert (outer + [d])[..|outer|] == outer;
    assert forall e :: e in outer ==> e in outer + [d];
    assert (outer + [d])[|outer|] == d;
  }

  /** Counts the rows, one for each position in the slower dimensions; gives up when there are too many. */
  method CountRows(sizes: seq<int>, f: nat) returns (outer: seq<nat>, count: Option<nat>)
    requires f < |sizes| && forall d :: 0 <= d < |sizes| ==> 0 < sizes[d]
    ensures count.Some? <==> RowCount(sizes, f, |sizes|) <= 4096
    ensures count.Some? ==> AreOuter(outer, |sizes|, f) && count.value == Product(outer, sizes)
  {
    outer := [];
    var outerCount := 1;
    for d := 0 to |sizes|
      invariant AreOuter(outer, d, f)
      invariant outerCount == Product(outer, sizes) == RowCount(sizes, f, d) <= 4096
    {
      OuterGrows(outer, d, f, sizes);
      if d != f {
        outerCount := outerCount * sizes[d];
        outer := outer + [d];
        if outerCount > 4096 {
          RowCountGrows(sizes, f, d + 1, |sizes|);
          return outer, None;
        }
      }
    }
    ProductPositive(outer, sizes);
    count := Some(outerCount);
  }

  /** The corner of row `n`. */
  method Corner(view: View, outer: seq<nat>, n: nat) returns (start: seq<int>)
    requires |view.offsets| == |view.sizes|
    requires forall k :: 0 <= k < |outer| ==> outer[k] < |view.sizes| && 0 < view.sizes[outer[k]]
    ensures start == Counted(view.offsets, outer, view.sizes, n)
  {
    start := view.offsets;
    var residue: nat, k: nat := n, |outer|;
    assert outer[..k] == outer;
    while k > 0
      invariant k <= |outer| && |start| == |view.offsets|
      invariant Counted(start, outer[..k], view.sizes, residue) == Counted(view.offsets, outer, view.sizes, n)
    {
      k := k - 1;
      var dim := outer[k];
      assert outer[..k + 1][..k] == outer[..k];
      QuotientIs(residue, view.sizes[dim]);
      start := start[dim := start[dim] + residue % view.sizes[dim]];
      residue := residue / view.sizes[dim];
    }
  }

  lemma CornerIsNatural(view: View, order: seq<nat>, shape: seq<int>, outer: seq<nat>, n: nat)
    requires view.InBounds(shape) && IsOrder(order, |shape|) && order != [] && AreOuter(outer, |shape|, order[0])
    ensures 0 <= Linear(order, Counted(view.offsets, outer, view.sizes, n), shape)
  {
    var start := Counted(view.offsets, outer, view.sizes, n);
    CountedInside(view.offsets, outer, view.sizes, n);
    forall k | 0 <= k < |order| ensures 0 <= start[order[k]] {
      assert order[k] in outer || order[k] !in outer;
    }
    LinearIsNatural(order, start, shape);
  }

  /** The interval of row `n`. */
  method RowInterval(view: View, order: seq<nat>, shape: seq<int>, outer: seq<nat>, n: nat, base: nat, elemBytes: nat)
    returns (interval: Interval)
    requires view.InBounds(shape) && IsOrder(order, |shape|) && order != [] && AreOuter(outer, |shape|, order[0])
    ensures IsRow(interval, Counted(view.offsets, outer, view.sizes, n), order, shape, view.sizes[order[0]], base,
                  elemBytes)
    ensures 0 < elemBytes ==> interval.start < interval.end
  {
    var f := order[0];
    var start := Corner(view, outer, n);
    CornerIsNatural(view, order, shape, outer, n);
    var end := start[f := start[f] + view.sizes[f] - 1];
    var startElem := LinearizeStatic(start, shape, order);
    var endElem := LinearizeStatic(end, shape, order);
    RowPosition(start, order, shape, view.sizes[f], end);
    Monotone(startElem + 1, endElem + 1, elemBytes);
    Distribute(startElem, 1, elemBytes);
    interval := Interval(base + startElem * elemBytes, base + (endElem + 1) * elemBytes);
  }

  /** The order of a tiled buffer: that of the tile on the trailing dimensions, then the leading ones from the innermost
      out. */
  ghost function Extended(order: seq<nat>, rank: nat, tiled: bool): seq<nat> {
    if tiled && |order| < rank then
      var lead := rank - |order|;
      seq(|order|, k requires 0 <= k < |order| => order[k] + lead) + seq(lead, k requires 0 <= k < lead => lead - 1 - k)
    else order
  }

  lemma ExtendedIsOrder(order: seq<nat>, rank: nat, tiled: bool)
    requires IsOrder(order, |order|)
    ensures |Extended(order, rank, tiled)| == rank ==> IsOrder(Extended(order, rank, tiled), rank)
    ensures |Extended(order, rank, tiled)| == rank <==> |order| == rank || (tiled && |order| < rank)
  {
    if tiled && |order| < rank {
      var r, lead := Extended(order, rank, tiled), rank - |order|;
      forall d: nat | d < rank ensures d in r {
        if d < lead {
          assert r[|order| + (lead - 1 - d)] == d;
        } else {
          assert d - lead in order;
          var k :| 0 <= k < |order| && order[k] == d - lead;
          assert r[k] == d;
        }
      }
    }
  }

  method ExtendOrder(order: seq<nat>, rank: nat, tiled: bool) returns (r: seq<nat>)
    ensures r == Extended(order, rank, tiled)
  {
    r := order;
    if tiled && |order| < rank {
      var lead := rank - |order|;
      for k := 0 to |order|
        invariant |r| == |order|
        invariant forall i :: 0 <= i < |order| ==> r[i] == order[i] + if i < k then lead else 0
      {
        r := r[k := r[k] + lead];
      }
      for k := 0 to lead
        invariant r == seq(|order|, i requires 0 <= i < |order| => order[i] + lead) +
                       seq(k, i requires 0 <= i < k => lead - 1 - i)
      {
        r := r + [lead - 1 - k];
      }
    }
  }

  /** The intervals are not empty and hold the bytes of the view's elements and no others. */
  ghost predicate Exact(intervals: seq<Interval>, view: View, order: seq<nat>, shape: seq<int>, base: nat,
                        elemBytes: nat)
  {
    && |view.offsets| == |shape| && IsOrder(order, |shape|)
    && (forall i :: 0 <= i < |intervals| ==> intervals[i].start < intervals[i].end)
    && (forall b: nat :: Covered(intervals, b) <==> HasByte(view, order, shape, base, elemBytes, b))
  }

  method AllRows(view: View, order: seq<nat>, shape: seq<int>, outer: seq<nat>, outerCount: nat, base: nat,
                 elemBytes: nat)
    returns (intervals: seq<Interval>)
    requires view.InBounds(shape) && IsOrder(order, |shape|) && order != [] && AreOuter(outer, |shape|, order[0])
    requires outerCount == Product(outer, view.sizes) && 0 < elemBytes
    ensures Exact(intervals, view, order, shape, base, elemBytes)
  {
    intervals := [];
    for n := 0 to outerCount
      invariant |intervals| == n && AreRows(intervals, view, order, shape, outer, base, elemBytes)
      invariant forall i :: 0 <= i < n ==> intervals[i].start < intervals[i].end
    {
      var interval := RowInterval(view, order, shape, outer, n, base, elemBytes);
      intervals := intervals + [interval];
    }
    forall b: nat ensures Covered(intervals, b) <==> HasByte(view, order, shape, base, elemBytes, b) {
      RowsAreExact(intervals, view, order, shape, outer, base, elemBytes, b);
    }
  }

  /** Every dimension of the view has elements, and all of them are elements of the buffer. */
  ghost predicate LiesInside(view: View, shape: seq<int>) {
    && |view.offsets| == |shape| && |view.sizes| == |shape|
    && forall d :: 0 <= d < |shape| ==>
         view.sizes[d] > 0 && view.offsets[d] >= 0 && view.offsets[d] + view.sizes[d] <= shape[d]
  }

  lemma InBoundsMeans(view: View, shape: seq<int>)
    ensures view.InBounds(shape) <==> LiesInside(view, shape)
  {
  }

  /** The order of an untiled buffer is the given one. Of a tiled one, the leading dimensions that the given order lacks
      come last, the outermost at the very end, and the given order speaks of the others. */
  ghost predicate StoredOrder(full: seq<nat>, order: seq<nat>, rank: nat, tiled: bool) {
    && |full| == rank && |order| <= rank && (|order| < rank ==> tiled)
    && (forall k :: 0 <= k < |order| ==> full[k] == order[k] + (rank - |order|))
    && (forall k :: |order| <= k < rank ==> full[k] == rank - 1 - k)
  }

  lemma ExtendedMeans(order: seq<nat>, rank: nat, tiled: bool)
    ensures |Extended(order, rank, tiled)| == rank <==> |order| == rank || (tiled && |order| < rank)
    ensures |Extended(order, rank, tiled)| == rank ==> StoredOrder(Extended(order, rank, tiled), order, rank, tiled)
  {
  }

  /** No interval leaves the buffer. */
  lemma IntervalInBuffer(intervals: seq<Interval>, i: nat, view: View, order: seq<nat>, shape: seq<int>, base: nat,
                         elemBytes: nat)
    requires Exact(intervals, view, order, shape, base, elemBytes) && i < |intervals| && LiesInside(view, shape)
    ensures base <= intervals[i].start < intervals[i].end <= base + Volume(shape, |shape|) * elemBytes
  {
    assert intervals[i].Contains(intervals[i].start) && intervals[i].Contains(intervals[i].end - 1);
    assert Covered(intervals, intervals[i].start) && Covered(intervals, intervals[i].end - 1);
    ByteInBuffer(view, order, shape, base, elemBytes, intervals[i].start);
    ByteInBuffer(view, order, shape, base, elemBytes, intervals[i].end - 1);
  }

  lemma ByteInBuffer(view: View, order: seq<nat>, shape: seq<int>, base: nat, elemBytes: nat, b: nat)
    requires IsOrder(order, |shape|) && LiesInside(view, shape) && HasByte(view, order, shape, base, elemBytes, b)
    ensures base <= b < base + Volume(shape, |shape|) * elemBytes
  {
    var x := ElementAt(view, order, shape, base, elemBytes, b);
    PositionInside(order, x, shape);
    PlaceInBuffer(Linear(order, x, shape), Volume(shape, |shape|), base, elemBytes, b);
  }

  lemma ElementAt(view: View, order: seq<nat>, shape: seq<int>, base: nat, elemBytes: nat, b: nat)
      returns (x: seq<int>)
    requires IsOrder(order, |shape|) && LiesInside(view, shape) && HasByte(view, order, shape, base, elemBytes, b)
    ensures IsInside(x, shape)
    ensures var place := Linear(order, x, shape); base + place * elemBytes <= b < base + (place + 1) * elemBytes
  {
    x :| view.Has(x) && ByteOf(order, shape, base, elemBytes, x, b);
  }

  lemma PlaceInBuffer(place: int, places: int, base: nat, elemBytes: nat, b: int)
    requires 0 <= place < places && base + place * elemBytes <= b < base + (place + 1) * elemBytes
    ensures base <= b < base + places * elemBytes
  {
    Monotone(0, place, elemBytes);
    Monotone(place + 1, places, elemBytes);
  }

  /** The bytes of a view of a buffer that lies at `base`. No intervals are given for a view that leaves the buffer, an
      order of the wrong rank, or more than 4096 rows. */
  method GetStaticAccessIntervals(view: View, shape: seq<int>, order: seq<nat>, tiled: bool, base: nat, elemBytes: nat)
    returns (r: Option<seq<Interval>>)
    requires IsOrder(order, |order|) && shape != [] && 0 < elemBytes
    ensures r.Some? <==>
      var full := Extended(order, |shape|, tiled);
      view.InBounds(shape) && |full| == |shape| && RowCount(view.sizes, full[0], |shape|) <= 4096
    ensures r.Some? ==> Exact(r.value, view, Extended(order, |shape|, tiled), shape, base, elemBytes)
    ensures r.Some? ==> StoredOrder(Extended(order, |shape|, tiled), order, |shape|, tiled)
    ensures r.Some? ==> LiesInside(view, shape)
    ensures LiesInside(view, shape) && (|order| == |shape| || (tiled && |order| < |shape|)) ==>
      (r.Some? <==> RowCount(view.sizes, Extended(order, |shape|, tiled)[0], |shape|) <= 4096)
    ensures r.Some? ==> forall i :: 0 <= i < |r.value| ==>
      base <= r.value[i].start < r.value[i].end <= base + Volume(shape, |shape|) * elemBytes
  {
    InBoundsMeans(view, shape);
    ExtendedMeans(order, |shape|, tiled);
    if !view.InBounds(shape) {
      return None;
    }
    ExtendedIsOrder(order, |shape|, tiled);
    var full := ExtendOrder(order, |shape|, tiled);
    if |full| != |shape| {
      return None;
    }
    var outer, outerCount := CountRows(view.sizes, full[0]);
    if outerCount.None? {
      return None;
    }
    var intervals := AllRows(view, full, shape, outer, outerCount.value, base, elemBytes);
    forall i | 0 <= i < |intervals|
      ensures base <= intervals[i].start < intervals[i].end <= base + Volume(shape, |shape|) * elemBytes {
      IntervalInBuffer(intervals, i, view, full, shape, base, elemBytes);
    }
    return Some(intervals);
  }

  // ----- Overlap of views

  ghost predicate ShareElement(v: View, w: View) {
    exists x :: v.Has(x) && w.Has(x)
  }

  ghost predicate ShareByte(a: seq<Interval>, b: seq<Interval>) {
    exists i, j :: 0 <= i < |a| && 0 <= j < |b| && a[i].Intersects(b[j])
  }

  /** A byte belongs to one element only. */
  lemma ByteOfOne(order: seq<nat>, shape: seq<int>, base: nat, elemBytes: nat, x: seq<int>, y: seq<int>, b: nat)
    requires IsOrder(order, |shape|) && |x| == |y| == |shape|
    requires forall d :: 0 <= d < |shape| ==> 0 <= x[d] < shape[d] && 0 <= y[d] < shape[d]
    requires ByteOf(order, shape, base, elemBytes, x, b) && ByteOf(order, shape, base, elemBytes, y, b)
    ensures x == y
  {
    var p, q := Linear(order, x, shape), Linear(order, y, shape);
    if p < q {
      Monotone(p + 1, q, elemBytes);
    } else if q < p {
      Monotone(q + 1, p, elemBytes);
    }
    LinearInjective(order, x, y, shape);
    forall d: nat | d < |x| ensures x[d] == y[d] {
      assert d in order;
      var k :| 0 <= k < |order| && order[k] == d;
    }
  }

  lemma FirstByte(order: seq<nat>, shape: seq<int>, base: nat, elemBytes: nat, x: seq<int>) returns (b: nat)
    requires IsOrder(order, |shape|) && |x| == |shape| && 0 < elemBytes
    requires forall d :: 0 <= d < |shape| ==> 0 <= x[d] < shape[d]
    ensures ByteOf(order, shape, base, elemBytes, x, b)
  {
    LinearIsNatural(order, x, shape);
    b := base + Linear(order, x, shape) * elemBytes;
    Distribute(Linear(order, x, shape), 1, elemBytes);
  }

  /** The intervals of two views of one buffer overlap exactly when the views have an element in common. */
  lemma OverlapIsExact(v: View, w: View, a: seq<Interval>, b: seq<Interval>, shape: seq<int>, order: seq<nat>,
                       base: nat, elemBytes: nat)
    requires v.InBounds(shape) && w.InBounds(shape) && 0 < elemBytes
    requires Exact(a, v, order, shape, base, elemBytes) && Exact(b, w, order, shape, base, elemBytes)
    ensures ShareByte(a, b) <==> ShareElement(v, w)
  {
    if ShareByte(a, b) {
      var i, j :| 0 <= i < |a| && 0 <= j < |b| && a[i].Intersects(b[j]);
      IntersectsIsCommonPoint(a[i], b[j]);
      var n :| a[i].Contains(n) && b[j].Contains(n);
      assert Covered(a, n) && Covered(b, n);
      var x :| v.Has(x) && ByteOf(order, shape, base, elemBytes, x, n);
      var y :| w.Has(y) && ByteOf(order, shape, base, elemBytes, y, n);
      ByteOfOne(order, shape, base, elemBytes, x, y, n);
    }
    if ShareElement(v, w) {
      var x :| v.Has(x) && w.Has(x);
      var n := FirstByte(order, shape, base, elemBytes, x);
      assert Covered(a, n) && Covered(b, n);
      var i :| 0 <= i < |a| && a[i].Contains(n);
      var j :| 0 <= j < |b| && b[j].Contains(n);
      assert a[i].Intersects(b[j]);
    }
  }
}
