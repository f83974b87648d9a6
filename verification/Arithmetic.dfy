/** Maximum, products, quotients and remainders of integers. */
module Arithmetic {
  function Max(a: nat, b: nat): nat {
    if a < b then b else a
  }

  lemma Distribute(a: int, b: int, size: int)
    ensures (a + b) * size == a * size + b * size
  {
  }

  lemma Commute(a: int, b: int)
    ensures a * b == b * a
  {
  }

  lemma Scale(a: int, b: int, c: int)
    ensures a * b * c == a * (b * c)
  {
  }

  lemma Times(a: int, b: int, size: int)
    requires a < b && 0 < size
    ensures a * size + size <= b * size
  {
    var more := b - a - 1;
    assert b * size == (a + 1 + more) * size == a * size + size + more * size;
  }

  lemma Monotone(a: int, b: int, size: int)
    requires a <= b && 0 <= size
    ensures a * size <= b * size
  {
    if a < b && 0 < size {
      Times(a, b, size);
    }
  }

  lemma QuotientAndRest(q: int, q': int, size: int, i: int, i': int)
    requires 0 <= i < size && 0 <= i' < size && q * size + i == q' * size + i'
    ensures q == q' && i == i'
  {
    if q < q' {
      Times(q, q', size);
    } else if q' < q {
      Times(q', q, size);
    }
  }

  lemma DivisionSum(n: int, size: int)
    requires 0 < size
    ensures n == n / size * size + n % size && 0 <= n % size < size
  {
  }

  lemma DivMod(q: int, size: int, r: int)
    requires 0 <= r < size
    ensures (q * size + r) / size == q && (q * size + r) % size == r
  {
    DivisionSum(q * size + r, size);
    QuotientAndRest(q, (q * size + r) / size, size, r, (q * size + r) % size);
  }
}
