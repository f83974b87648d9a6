/** The supremum of two lists of dimension names. */
module DimensionMerge {
  import opened LinearLayouts

  /** `s` is left of `r` when elements are struck out. */
  ghost predicate IsSubsequence<T>(s: seq<T>, r: seq<T>) {
    s == [] ||
    (r != [] &&
     if s[|s| - 1] == r[|r| - 1] then IsSubsequence(s[..|s| - 1], r[..|r| - 1]) else IsSubsequence(s, r[..|r| - 1]))
  }

  lemma SubsequenceKeep<T>(s: seq<T>, r: seq<T>, e: T)
    requires IsSubsequence(s, r)
    ensures IsSubsequence(s + [e], r + [e])
  {
    assert (s + [e])[..|s|] == s && (r + [e])[..|r|] == r;
  }

  lemma SubsequenceSkip<T>(s: seq<T>, r: seq<T>, e: T)
    requires IsSubsequence(s, r) && e !in s
    ensures IsSubsequence(s, r + [e])
  {
    assert (r + [e])[..|r|] == r;
    assert s != [] ==> s[|s| - 1] in s;
  }

  /** No two elements come in opposite orders. */
  ghost predicate Consistent<T>(x: seq<T>, y: seq<T>) {
    forall a, b, c, d :: 0 <= a < b < |x| && 0 <= c < d < |y| && x[a] == y[d] ==> x[b] != y[c]
  }

  lemma {:induction false} SubsequenceOrder<T>(s: seq<T>, r: seq<T>, a: nat, b: nat) returns (p: nat, q: nat)
    requires IsSubsequence(s, r) && a < b < |s|
    ensures p < q < |r| && r[p] == s[a] && r[q] == s[b]
    decreases r
  {
    var m, n := |s| - 1, |r| - 1;
    if s[m] == r[n] && b == m {
      p := SubsequenceMember(s[..m], r[..n], a);
      q := n;
    } else {
      p, q := SubsequenceOrder(if s[m] == r[n] then s[..m] else s, r[..n], a, b);
    }
  }

  lemma {:induction false} SubsequenceMember<T>(s: seq<T>, r: seq<T>, a: nat) returns (p: nat)
    requires IsSubsequence(s, r) && a < |s|
    ensures p < |r| && r[p] == s[a]
    decreases r
  {
    var m, n := |s| - 1, |r| - 1;
    if s[m] == r[n] && a == m {
      p := n;
    } else {
      p := SubsequenceMember(if s[m] == r[n] then s[..m] else s, r[..n], a);
    }
  }

  /** Lists with a common duplicate-free superlist do not order any pair oppositely. */
  lemma SubsequencesAreConsistent<T>(x: seq<T>, y: seq<T>, r: seq<T>)
    requires NoDuplicates(r) && IsSubsequence(x, r) && IsSubsequence(y, r)
    ensures Consistent(x, y)
  {
    forall a: nat, b: nat, c: nat, d: nat | a < b < |x| && c < d < |y| && x[a] == y[d] ensures x[b] != y[c] {
      var p, q := SubsequenceOrder(x, r, a, b);
      var p', q' := SubsequenceOrder(y, r, c, d);
    }
  }

  ghost predicate UnionOf<T(!new)>(r: seq<T>, x: seq<T>, y: seq<T>) {
    && NoDuplicates(r)
    && forall e :: e in r <==> e in x || e in y
  }

  /** The position of `e` in the list, or the length of the list. */
  ghost function IndexOf(e: string, s: seq<string>): nat {
    if s == [] || s[0] == e then 0 else 1 + IndexOf(e, s[1..])
  }

  lemma {:induction false} IndexOfIs(e: string, s: seq<string>, k: nat)
    requires k <= |s| && (k < |s| ==> s[k] == e) && forall i :: 0 <= i < k ==> s[i] != e
    ensures IndexOf(e, s) == k
  {
    if k > 0 {
      IndexOfIs(e, s[1..], k - 1);
    }
  }

  method Position(e: string, s: seq<string>) returns (k: nat)
    ensures k == IndexOf(e, s) <= |s| && (k < |s| <==> e in s) && (k < |s| ==> s[k] == e)
  {
    k := 0;
    while k < |s| && s[k] != e
      invariant k <= |s| && forall i :: 0 <= i < k ==> s[i] != e
    {
      k := k + 1;
    }
    IndexOfIs(e, s, k);
  }

  /** What the merge has done when it stands at `i` and `j`. */
  ghost predicate Merged(x: seq<string>, y: seq<string>, i: nat, j: nat, r: seq<string>) {
    && i <= |x| && j <= |y|
    && UnionOf(r, x[..i], y[..j])
    && (Consistent(x, y) ==> MergedInOrder(x, y, i, j, r))
  }

  ghost predicate MergedInOrder(x: seq<string>, y: seq<string>, i: nat, j: nat, r: seq<string>)
    requires i <= |x| && j <= |y|
  {
    && IsSubsequence(x[..i], r) && IsSubsequence(y[..j], r)
    && (forall k :: i <= k < |x| ==> x[k] !in r)
    && (forall k :: j <= k < |y| ==> y[k] !in r)
  }

  lemma UnionSnoc(x: seq<string>, y: seq<string>, i: nat, j: nat, r: seq<string>, ni: nat, nj: nat, e: string)
    requires i <= ni <= |x| && j <= nj <= |y| && UnionOf(r, x[..i], y[..j]) && e !in r
    requires forall d :: d in x[..ni] <==> d in x[..i] || (ni == i + 1 && d == e)
    requires forall d :: d in y[..nj] <==> d in y[..j] || (nj == j + 1 && d == e)
    requires ni == i + 1 || nj == j + 1
    ensures UnionOf(r + [e], x[..ni], y[..nj])
  {
  }

  lemma MergeBoth(x: seq<string>, y: seq<string>, i: nat, j: nat, r: seq<string>)
    requires NoDuplicates(x) && NoDuplicates(y) && Merged(x, y, i, j, r)
    requires i < |x| && j < |y| && x[i] == y[j] && x[i] !in r
    ensures Merged(x, y, i + 1, j + 1, r + [x[i]])
  {
    assert x[..i + 1] == x[..i] + [x[i]] && y[..j + 1] == y[..j] + [y[j]];
    UnionSnoc(x, y, i, j, r, i + 1, j + 1, x[i]);
    if Consistent(x, y) {
      SubsequenceKeep(x[..i], r, x[i]);
      SubsequenceKeep(y[..j], r, x[i]);
    }
  }

  lemma MergeLeft(x: seq<string>, y: seq<string>, i: nat, j: nat, r: seq<string>)
    requires NoDuplicates(x) && NoDuplicates(y) && Merged(x, y, i, j, r)
    requires i < |x| && x[i] !in r
    requires Consistent(x, y) ==> x[i] !in y
    ensures Merged(x, y, i + 1, j, r + [x[i]])
  {
    assert x[..i + 1] == x[..i] + [x[i]];
    UnionSnoc(x, y, i, j, r, i + 1, j, x[i]);
    if Consistent(x, y) {
      SubsequenceKeep(x[..i], r, x[i]);
      assert forall k :: 0 <= k < j ==> y[..j][k] in r;
      SubsequenceSkip(y[..j], r, x[i]);
      assert forall k :: j <= k < |y| ==> y[k] in y;
    }
  }

  lemma MergeRight(x: seq<string>, y: seq<string>, i: nat, j: nat, r: seq<string>)
    requires NoDuplicates(x) && NoDuplicates(y) && Merged(x, y, i, j, r)
    requires j < |y| && y[j] !in r
    requires Consistent(x, y) ==> y[j] !in x
    ensures Merged(x, y, i, j + 1, r + [y[j]])
  {
    assert y[..j + 1] == y[..j] + [y[j]];
    UnionSnoc(x, y, i, j, r, i, j + 1, y[j]);
    if Consistent(x, y) {
      SubsequenceKeep(y[..j], r, y[j]);
      assert forall k :: 0 <= k < i ==> x[..i][k] in r;
      SubsequenceSkip(x[..i], r, y[j]);
      assert forall k :: i <= k < |x| ==> x[k] in x;
    }
  }

  /** Passing an element that is already there; this never happens for consistent lists. */
  lemma MergeSkip(x: seq<string>, y: seq<string>, i: nat, j: nat, r: seq<string>)
    requires Merged(x, y, i, j, r)
    ensures i < |x| && x[i] in r ==> Merged(x, y, i + 1, j, r)
    ensures j < |y| && y[j] in r ==> Merged(x, y, i, j + 1, r)
  {
    if i < |x| && x[i] in r {
      assert x[..i + 1] == x[..i] + [x[i]];
    }
    if j < |y| && y[j] in r {
      assert y[..j + 1] == y[..j] + [y[j]];
    }
  }

  // ----- When the supremum is the second list

  /** Before `y[j]` is due, the merge would not rather take the first element of `x` that is still missing. */
  ghost predicate StepFollows(x: seq<string>, y: seq<string>, j: nat)
    requires j < |y|
  {
    forall i :: 0 <= i < |x| && x[i] !in y[..j] && (forall k :: 0 <= k < i ==> x[k] in y[..j]) ==>
      x[i] == y[j] || y[j] !in x || IndexOf(y[j], x) < IndexOf(x[i], y)
  }

  ghost predicate FollowsSecond(x: seq<string>, y: seq<string>) {
    forall j: nat :: j < |y| ==> StepFollows(x, y, j)
  }

  /** A list inside `y` that keeps the order of `y` always follows it. */
  lemma SubsequenceFollows(x: seq<string>, y: seq<string>)
    requires NoDuplicates(y) && IsSubsequence(x, y)
    ensures (forall e :: e in x ==> e in y) && FollowsSecond(x, y)
  {
    forall a: nat | a < |x| ensures x[a] in y {
      var p := SubsequenceMember(x, y, a);
    }
    forall j: nat, i: nat, m: nat | j < |y| && i < m < |x| && x[i] !in y[..j] ensures x[m] != y[j] {
      var p, q := SubsequenceOrder(x, y, i, m);
      assert forall k :: 0 <= k < j ==> y[k] in y[..j];
    }
    forall j: nat | j < |y| ensures StepFollows(x, y, j) {
      forall i | 0 <= i < |x| && x[i] !in y[..j] && (forall k :: 0 <= k < i ==> x[k] in y[..j]) && y[j] in x
        ensures x[i] == y[j] {
        var m :| 0 <= m < |x| && x[m] == y[j];
        assert forall k :: 0 <= k < i ==> x[k] != y[j];
      }
    }
  }

  ghost predicate Tracks(x: seq<string>, y: seq<string>, r: seq<string>) {
    if r <= y then forall j: nat :: j < |r| ==> StepFollows(x, y, j) else !FollowsSecond(x, y)
  }

  lemma PrefixMembers(y: seq<string>, r: seq<string>, j: nat)
    requires NoDuplicates(y) && r <= y && j <= |y|
    ensures j < |y| && y[j] !in r ==> |r| <= j
    ensures (forall e :: e in y[..j] ==> e in r) ==> j <= |r|
  {
    assert forall k :: 0 <= k < |r| ==> r[k] == y[k] && r[k] in r;
    if |r| < j {
      assert y[..j][|r|] in y[..j] && y[|r|] !in r;
    }
  }

  lemma TrackedPosition(x: seq<string>, y: seq<string>, i: nat, j: nat, r: seq<string>)
    requires NoDuplicates(y) && Merged(x, y, i, j, r) && r <= y && j < |y| && y[j] !in r
    ensures |r| == j && forall k :: 0 <= k < i ==> x[k] in y[..j]
  {
    PrefixMembers(y, r, j);
    assert forall k :: 0 <= k < i ==> x[..i][k] in r;
  }

  lemma TrackedStep(x: seq<string>, y: seq<string>, i: nat, j: nat)
    requires NoDuplicates(x) && j < |y| && forall k :: 0 <= k < i && k < |x| ==> x[k] in y[..j]
    requires i < |x| ==> x[i] !in y[..j] && (x[i] == y[j] || y[j] !in x || IndexOf(y[j], x) < IndexOf(x[i], y))
    ensures StepFollows(x, y, j)
  {
    forall m | 0 <= m < |x| && x[m] !in y[..j] && (forall k :: 0 <= k < m ==> x[k] in y[..j])
      ensures x[m] == y[j] || y[j] !in x || IndexOf(y[j], x) < IndexOf(x[m], y) {
      assert m == i;
    }
  }

  lemma TrackSecond(x: seq<string>, y: seq<string>, i: nat, j: nat, r: seq<string>)
    requires NoDuplicates(x) && NoDuplicates(y) && Merged(x, y, i, j, r) && Tracks(x, y, r) && j < |y| && y[j] !in r
    requires i < |x| ==> x[i] !in r && (x[i] == y[j] || y[j] !in x || IndexOf(y[j], x) < IndexOf(x[i], y))
    ensures Tracks(x, y, r + [y[j]])
  {
    if r <= y {
      TrackedPosition(x, y, i, j, r);
      assert forall k :: 0 <= k < i && k < |x| ==> x[k] in y[..j];
      TrackedStep(x, y, i, j);
      TracksOn(x, y, r);
    }
  }

  lemma TracksOn(x: seq<string>, y: seq<string>, r: seq<string>)
    requires r <= y && |r| < |y| && Tracks(x, y, r) && StepFollows(x, y, |r|)
    ensures Tracks(x, y, r + [y[|r|]])
  {
    assert r + [y[|r|]] <= y;
  }

  lemma TrackFirst(x: seq<string>, y: seq<string>, i: nat, j: nat, r: seq<string>)
    requires NoDuplicates(y) && Merged(x, y, i, j, r) && Tracks(x, y, r) && j < |y| && y[j] !in r
    requires i < |x| && x[i] !in r && x[i] != y[j] && y[j] in x && IndexOf(x[i], y) <= IndexOf(y[j], x)
    ensures Tracks(x, y, r + [x[i]])
  {
    if r <= y {
      TrackedPosition(x, y, i, j, r);
      assert !StepFollows(x, y, j);
      assert (r + [x[i]])[j] != y[j];
    }
  }

  lemma TrackedToEnd(x: seq<string>, y: seq<string>, r: seq<string>)
    requires NoDuplicates(y) && UnionOf(r, x, y)
    requires (forall e :: e in x ==> e in y) ==> Tracks(x, y, r)
    ensures r == y <==> (forall e :: e in x ==> e in y) && FollowsSecond(x, y)
  {
    if r <= y {
      PrefixMembers(y, r, |y|);
      assert y[..|y|] == y;
    }
  }

  // ----- Where the lists leave a choice

  /** The first list first: an element of the first list only comes after one of the second list only when an element
      of both stands between them. */
  ghost predicate FirstFirst(x: seq<string>, y: seq<string>, r: seq<string>) {
    forall p, q :: 0 <= p < q < |r| && r[p] !in x && r[q] !in y ==> exists m :: p < m < q && r[m] in x && r[m] in y
  }

  /** No element of both lists has come since one of the second list only. */
  ghost predicate Awaits(x: seq<string>, y: seq<string>, r: seq<string>) {
    exists p :: 0 <= p < |r| && r[p] !in x && forall m :: p < m < |r| ==> r[m] !in x || r[m] !in y
  }

  /** The merge then stands in the first list before an element of both. */
  ghost predicate Favours(x: seq<string>, y: seq<string>, i: nat, r: seq<string>) {
    FirstFirst(x, y, r) && (Awaits(x, y, r) && i < |x| ==> x[i] in y && x[i] !in r)
  }

  lemma FavoursCommon(x: seq<string>, y: seq<string>, i: nat, r: seq<string>, e: string, next: nat)
    requires Favours(x, y, i, r) && e in x && e in y
    ensures Favours(x, y, next, r + [e])
  {
    var more := r + [e];
    assert more[|r|] == e;
    forall p, q | 0 <= p < q < |more| && more[p] !in x && more[q] !in y
      ensures exists m :: p < m < q && more[m] in x && more[m] in y {
      assert r[p] == more[p] && r[q] == more[q];
      var m :| p < m < q && r[m] in x && r[m] in y;
      assert more[m] == r[m];
    }
  }

  lemma FavoursFirst(x: seq<string>, y: seq<string>, i: nat, r: seq<string>)
    requires Favours(x, y, i, r) && i < |x| && x[i] !in y
    ensures Favours(x, y, i + 1, r + [x[i]])
  {
    var more := r + [x[i]];
    assert !Awaits(x, y, r);
    forall p | 0 <= p < |more| && more[p] !in x
      ensures exists m :: p < m < |r| && more[m] in x && more[m] in y {
      assert r[p] == more[p];
      var m :| p < m < |r| && r[m] in x && r[m] in y;
      assert more[m] == r[m];
    }
    forall p, q | 0 <= p < q < |r| && more[p] !in x && more[q] !in y
      ensures exists m :: p < m < q && more[m] in x && more[m] in y {
      assert r[p] == more[p] && r[q] == more[q];
      var m :| p < m < q && r[m] in x && r[m] in y;
      assert more[m] == r[m];
    }
  }

  lemma FavoursSecond(x: seq<string>, y: seq<string>, i: nat, r: seq<string>, e: string)
    requires Favours(x, y, i, r) && e in y && e !in x && (i < |x| ==> x[i] in y && x[i] !in r)
    ensures Favours(x, y, i, r + [e])
  {
    var more := r + [e];
    forall p, q | 0 <= p < q < |more| && more[p] !in x && more[q] !in y
      ensures exists m :: p < m < q && more[m] in x && more[m] in y {
      assert r[p] == more[p] && r[q] == more[q];
      var m :| p < m < q && r[m] in x && r[m] in y;
      assert more[m] == r[m];
    }
  }

  // ----- The merge

  ghost predicate State(x: seq<string>, y: seq<string>, i: nat, j: nat, r: seq<string>) {
    Merged(x, y, i, j, r) && ((forall e :: e in x ==> e in y) ==> Tracks(x, y, r)) && Favours(x, y, i, r)
  }

  /** Taking `x[i]` as well as, or for want of, `y[j]`. */
  lemma TakeFirst(x: seq<string>, y: seq<string>, i: nat, j: nat, r: seq<string>)
    requires NoDuplicates(x) && NoDuplicates(y) && State(x, y, i, j, r) && i < |x| && x[i] !in r
    requires x[i] !in y ||
      (j < |y| && y[j] !in r && x[i] != y[j] && !Consistent(x, y) && y[j] in x && IndexOf(x[i], y) <= IndexOf(y[j], x))
    ensures State(x, y, i + 1, j, r + [x[i]])
  {
    MergeLeft(x, y, i, j, r);
    if forall e :: e in x ==> e in y {
      assert x[i] in x;
      TrackFirst(x, y, i, j, r);
    }
    if x[i] in y {
      FavoursCommon(x, y, i, r, x[i], i + 1);
    } else {
      FavoursFirst(x, y, i, r);
    }
  }

  lemma TakeSecond(x: seq<string>, y: seq<string>, i: nat, j: nat, r: seq<string>)
    requires NoDuplicates(x) && NoDuplicates(y) && State(x, y, i, j, r) && j < |y| && y[j] !in r
    requires y[j] !in x || (!Consistent(x, y) && i < |x| && IndexOf(y[j], x) < IndexOf(x[i], y))
    requires i < |x| ==> x[i] !in r && x[i] in y
    ensures State(x, y, i, j + 1, r + [y[j]])
  {
    MergeRight(x, y, i, j, r);
    if forall e :: e in x ==> e in y {
      TrackSecond(x, y, i, j, r);
    }
    if y[j] in x {
      FavoursCommon(x, y, i, r, y[j], i);
    } else {
      FavoursSecond(x, y, i, r, y[j]);
    }
  }

  lemma TakeBoth(x: seq<string>, y: seq<string>, i: nat, j: nat, r: seq<string>)
    requires NoDuplicates(x) && NoDuplicates(y) && State(x, y, i, j, r)
    requires i < |x| && j < |y| && x[i] == y[j] && x[i] !in r
    ensures State(x, y, i + 1, j + 1, r + [x[i]])
  {
    MergeBoth(x, y, i, j, r);
    if forall e :: e in x ==> e in y {
      TrackSecond(x, y, i, j, r);
    }
    FavoursCommon(x, y, i, r, x[i], i + 1);
  }

  lemma Opposed(x: seq<string>, y: seq<string>, i: nat, j: nat, r: seq<string>)
    requires Merged(x, y, i, j, r) && i < |x| && j < |y| && x[i] != y[j] && x[i] !in r && y[j] !in r
    requires x[i] in y && y[j] in x
    ensures !Consistent(x, y)
  {
    var c :| 0 <= c < |y| && y[c] == x[i];
    var d :| 0 <= d < |x| && x[d] == y[j];
    assert forall k :: 0 <= k < i ==> x[..i][k] in r;
    assert forall k :: 0 <= k < j ==> y[..j][k] in r;
  }

  /** The position of `e` in `s` from `start` on, or `inf`. */
  method Candidate(e: string, s: seq<string>, start: nat, inf: nat) returns (c: nat)
    requires start <= |s| <= inf && e !in s[..start]
    ensures c == inf <==> e !in s
    ensures c != inf ==> c == IndexOf(e, s)
    ensures start <= c
  {
    c := Position(e, s);
    assert forall k :: 0 <= k < start ==> s[k] in s[..start];
    if c == |s| || c < start {
      c := inf;
    }
  }

  lemma StateAtEnd(x: seq<string>, y: seq<string>, r: seq<string>)
    requires NoDuplicates(y) && State(x, y, |x|, |y|, r)
    ensures UnionOf(r, x, y)
    ensures Consistent(x, y) <==> IsSubsequence(x, r) && IsSubsequence(y, r)
    ensures r == y <==> (forall e :: e in x ==> e in y) && FollowsSecond(x, y)
    ensures FirstFirst(x, y, r)
  {
    assert x[..|x|] == x && y[..|y|] == y;
    TrackedToEnd(x, y, r);
    if IsSubsequence(x, r) && IsSubsequence(y, r) {
      SubsequencesAreConsistent(x, y, r);
    }
  }

  lemma StateSkips(x: seq<string>, y: seq<string>, i: nat, j: nat, r: seq<string>)
    requires State(x, y, i, j, r)
    ensures i < |x| && x[i] in r ==> State(x, y, i + 1, j, r)
    ensures j < |y| && y[j] in r ==> State(x, y, i, j + 1, r)
  {
    MergeSkip(x, y, i, j, r);
  }

  /** The least list that has both as subsequences, when there is one. The source reports a missing supremum where it
      finds the element to be taken at a position that is already passed. It never does, so inconsistent lists are
      merged as well; then only the set of elements is as promised. */
  method Supremum(x: seq<string>, y: seq<string>) returns (result: seq<string>, missing: bool)
    requires NoDuplicates(x) && NoDuplicates(y)
    ensures !missing
    ensures UnionOf(result, x, y)
    ensures Consistent(x, y) <==> IsSubsequence(x, result) && IsSubsequence(y, result)
    ensures result == y <==> (forall e :: e in x ==> e in y) && FollowsSecond(x, y)
    ensures FirstFirst(x, y, result)
  {
    result, missing := [], false;
    var i, j := 0, 0;
    while i < |x| || j < |y|
      invariant State(x, y, i, j, result) && !missing
      decreases |x| - i + |y| - j
    {
      while i < |x| && x[i] in result
        invariant State(x, y, i, j, result)
      {
        StateSkips(x, y, i, j, result);
        i := i + 1;
      }
      while j < |y| && y[j] in result
        invariant State(x, y, i, j, result)
      {
        StateSkips(x, y, i, j, result);
        j := j + 1;
      }
      if i >= |x| && j >= |y| {
        break;
      }
      i, j, result, missing := MergeStep(x, y, i, j, result);
      if missing {
        return;
      }
    }
    StateAtEnd(x, y, result);
  }

  /** What is taken next, unless the next elements of both lists are common elements that differ. */
  ghost predicate TakesInOrder(x: seq<string>, y: seq<string>, i: nat, j: nat, r: seq<string>, ni: nat, nj: nat,
                               result: seq<string>)
    requires i <= |x| && j <= |y|
  {
    if i < |x| && j < |y| && x[i] == y[j] then ni == i + 1 && nj == j + 1 && result == r + [x[i]]
    else if i < |x| && x[i] !in y then ni == i + 1 && nj == j && result == r + [x[i]]
    else j < |y| && y[j] !in x && ni == i && nj == j + 1 && result == r + [y[j]]
  }

  /** Takes the next element of one list or of both; `missing` is the outcome of the checks. */
  method MergeStep(x: seq<string>, y: seq<string>, i: nat, j: nat, r: seq<string>)
    returns (ni: nat, nj: nat, result: seq<string>, missing: bool)
    requires NoDuplicates(x) && NoDuplicates(y) && State(x, y, i, j, r)
    requires i < |x| || j < |y|
    requires (i < |x| ==> x[i] !in r) && (j < |y| ==> y[j] !in r)
    ensures !missing
    ensures State(x, y, ni, nj, result) && i <= ni && j <= nj && i + j < ni + nj
    ensures Consistent(x, y) ==> TakesInOrder(x, y, i, j, r, ni, nj, result)
  {
    if i < |x| && j < |y| && x[i] == y[j] {
      var posY := Position(x[i], y);
      TakeBoth(x, y, i, j, r);
      return i + 1, j + 1, r + [x[i]], posY < j;
    }
    var inf := |x| + |y| + 1;
    var candX, candY := inf, inf;
    if i < |x| {
      candX := Candidate(x[i], y, j, inf);
    }
    if j < |y| {
      candY := Candidate(y[j], x, i, inf);
    }
    if i < |x| && candX == inf {
      TakeFirst(x, y, i, j, r);
      return i + 1, j, r + [x[i]], false;
    }
    if j < |y| && candY == inf {
      TakeSecond(x, y, i, j, r);
      return i, j + 1, r + [y[j]], false;
    }
    Opposed(x, y, i, j, r);
    if candX <= candY {
      var posY := Position(x[i], y);
      TakeFirst(x, y, i, j, r);
      return i + 1, j, r + [x[i]], posY < j;
    } else {
      var posX := Position(y[j], x);
      TakeSecond(x, y, i, j, r);
      return i, j + 1, r + [y[j]], posX < i;
    }
  }

  /** Two elements in opposite orders, for which the source's comment promises an error: there is no supremum, and the
      first list comes out. */
  lemma OppositePair(a: string, b: string, x: seq<string>, y: seq<string>, result: seq<string>)
    requires a != b && x == [a, b] && y == [b, a] && UnionOf(result, x, y)
    requires result == y <==> (forall e :: e in x ==> e in y) && FollowsSecond(x, y)
    ensures result == x && !Consistent(x, y)
    ensures !exists r :: UnionOf(r, x, y) && IsSubsequence(x, r) && IsSubsequence(y, r)
  {
    IndexOfIs(b, x, 1);
    IndexOfIs(a, y, 1);
    assert x[0] == y[1] && x[1] == y[0];
    assert !StepFollows(x, y, 0);
    TwoElements(a, b, result);
    forall r | UnionOf(r, x, y) && IsSubsequence(x, r) && IsSubsequence(y, r) ensures false {
      SubsequencesAreConsistent(x, y, r);
    }
  }

  lemma {:induction false} Cardinality<T>(r: seq<T>)
    requires NoDuplicates(r)
    ensures |set e | e in r| == |r|
  {
    if r != [] {
      var init, last := r[..|r| - 1], r[|r| - 1];
      Cardinality(init);
      assert last !in init;
      assert (set e | e in r) == (set e | e in init) + {last};
    }
  }

  lemma TwoElements(a: string, b: string, r: seq<string>)
    requires a != b && NoDuplicates(r) && forall e :: e in r <==> e == a || e == b
    ensures r == [a, b] || r == [b, a]
  {
    Cardinality(r);
    assert (set e | e in r) == {a, b};
    assert r[0] in r && r[1] in r;
  }
}
