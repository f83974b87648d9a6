/** Half-open ranges, shared by the allocator and the barrier analysis. */
module Intervals {

  /** `[start, end)`: bytes of shared memory, or operation ids of a live range. */
  datatype Interval = Interval(start: nat, end: nat) {
    predicate Intersects(other: Interval) {
      start < other.end && other.start < end
    }

    predicate Contains(x: nat) {
      start <= x < end
    }
  }

  /** For non-empty ranges the overlap test of the code is exactly "some point lies in both". */
  lemma IntersectsIsCommonPoint(a: Interval, b: Interval)
    requires a.start < a.end && b.start < b.end
    ensures a.Intersects(b) <==> exists x :: a.Contains(x) && b.Contains(x)
  {
    if a.Intersects(b) {
      var x := if a.start < b.start then b.start else a.start;
      assert a.Contains(x) && b.Contains(x);
    }
  }
}
