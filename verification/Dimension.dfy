/** How many independent vectors a span has room for. */
module Dimension {
  import opened F2
  import opened LeastSquares

  ghost predicate IsIndependentPart<K>(columns: seq<set<K>>, picked: seq<set<K>>) {
    Independent(picked) && Generates(columns, picked) && Generates(picked, columns)
  }

  /** Independent vectors are no more than the vectors they are made of. */
  lemma IndependentAreFew<K>(vectors: seq<set<K>>, generators: seq<set<K>>)
    requires Independent(vectors) && Generates(generators, vectors)
    ensures |vectors| <= |generators|
  {
    var xs := Coefficients(generators, vectors);
    forall y | Fits(y, |xs|) && Apply(xs, y) == {} ensures y == {} {
      SolvesEverywhere(generators, vectors, xs, y);
      ApplyZero(generators);
    }
    DimensionBound(xs, |generators|);
  }

  lemma {:induction false} Coefficients<K>(generators: seq<set<K>>, vectors: seq<set<K>>) returns (xs: seq<set<nat>>)
    requires Generates(generators, vectors)
    ensures |xs| == |vectors|
    ensures forall i :: 0 <= i < |xs| ==> Fits(xs[i], |generators|) && Apply(generators, xs[i]) == vectors[i]
  {
    xs := [];
    if vectors != [] {
      var n := |vectors| - 1;
      assert forall i :: 0 <= i < n ==> vectors[..n][i] == vectors[i];
      xs := Coefficients(generators, vectors[..n]);
      assert InSpan(generators, vectors[n]);
      var x :| Apply(generators, x) == vectors[n];
      ApplyAgree(generators, x, Low(x, |generators|));
      xs := xs + [Low(x, |generators|)];
    }
  }

  /** Independent vectors of a span can be completed to a basis of it. */
  lemma {:induction false} ExtendPart<K>(part: seq<set<K>>, vectors: seq<set<K>>) returns (more: seq<set<K>>)
    requires Independent(part)
    ensures Independent(part + more) && Generates(part + more, vectors) && Generates(vectors, more)
  {
    more := [];
    assert part + more == part;
    if vectors != [] {
      var n := |vectors| - 1;
      more := ExtendPart(part, vectors[..n]);
      var before := part + more;
      PrefixGenerates(vectors, n, more);
      if !InSpan(before, vectors[n]) {
        ExtendIndependent(before, vectors[n]);
        SpanOfMember(vectors, n);
        more := more + [vectors[n]];
        assert part + more == before + [vectors[n]];
        SpanOfMember(part + more, |before|);
      }
      ExtendedGenerates(before, part + more, vectors, n);
    }
  }

  lemma PrefixGenerates<K>(vectors: seq<set<K>>, n: nat, spanned: seq<set<K>>)
    requires n <= |vectors| && Generates(vectors[..n], spanned)
    ensures Generates(vectors, spanned)
  {
    forall i | 0 <= i < n ensures InSpan(vectors, vectors[..n][i]) {
      SpanOfMember(vectors, i);
    }
    GeneratesTransitive(vectors, vectors[..n], spanned);
  }

  lemma ExtendedGenerates<K>(before: seq<set<K>>, after: seq<set<K>>, vectors: seq<set<K>>, n: nat)
    requires before <= after && n < |vectors| && Generates(before, vectors[..n]) && InSpan(after, vectors[n])
    ensures Generates(after, vectors[..n + 1])
  {
    forall i | 0 <= i < |before| ensures InSpan(after, before[i]) {
      SpanOfMember(after, i);
    }
    GeneratesTransitive(after, before, vectors[..n]);
    var upTo := vectors[..n + 1];
    forall i | 0 <= i < |upTo| ensures InSpan(after, upTo[i]) {
      assert i < n ==> upTo[i] == vectors[..n][i];
    }
  }

  lemma PartMeetsRest<K(!new)>(part: seq<set<K>>, more: seq<set<K>>)
    requires Independent(part + more)
    ensures MeetTrivially(part, more)
  {
    forall v | InSpan(part, v) && InSpan(more, v) ensures v == {} {
      var x :| Apply(part, x) == v;
      var y :| Apply(more, y) == v;
      var low, high := Low(x, |part|), Low(y, |more|);
      ApplyAgree(part, x, low);
      ApplyAgree(more, y, high);
      ApplyConcat(part, more, low, high);
      XorCancel(v, v);
      assert Fits(low + Shift(high, |part|), |part + more|);
      assert low == {};
      ApplyZero(part);
    }
  }

  lemma RestIndependent<K>(part: seq<set<K>>, more: seq<set<K>>)
    requires Independent(part + more)
    ensures Independent(more)
  {
    forall y | Fits(y, |more|) && Apply(more, y) == {} ensures y == {} {
      ApplyConcat(part, more, {}, y);
      ApplyZero(part);
      assert Fits({} + Shift(y, |part|), |part + more|);
      assert forall e :: e in y ==> e + |part| in Shift(y, |part|);
    }
  }
}
