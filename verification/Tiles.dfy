/** Tiles: lists of vectors of at most one bit, such as the bases of a bank, and in how many dimensions the span of
    other vectors meets theirs. */
module Tiles {
  import opened Dimension
  import opened F2
  import opened GaussJordan
  import opened ReducedForm

  predicate IsPowerOf2(v: set<nat>) {
    |v| == 1
  }

  ghost predicate AllPowersOf2(vectors: seq<set<nat>>) {
    forall i :: 0 <= i < |vectors| ==> IsPowerOf2(vectors[i])
  }

  /** Each vector is zero or a power of two. */
  ghost predicate IsTile(vectors: seq<set<nat>>) {
    forall i :: 0 <= i < |vectors| ==> |vectors[i]| <= 1
  }

  lemma AtMostOneBit(v: set<nat>, e: nat)
    requires |v| <= 1 && e in v
    ensures v == {e}
  {
    assert v == {e} + (v - {e});
    assert |v| == 1 + |v - {e}|;
  }

  lemma {:induction false} BitsOfTile(vectors: seq<set<nat>>, x: set<nat>)
    requires IsTile(vectors)
    ensures forall e :: e in Apply(vectors, x) ==> {e} in vectors
  {
    if vectors != [] {
      var n := |vectors| - 1;
      BitsOfTile(vectors[..n], x);
      forall e | e in Apply(vectors, x) ensures {e} in vectors {
        if e in Apply(vectors[..n], x) {
          assert {e} in vectors[..n];
        } else {
          AtMostOneBit(vectors[n], e);
        }
      }
    }
  }

  lemma MemberSpan(vectors: seq<set<nat>>, v: set<nat>)
    requires v in vectors
    ensures InSpan(vectors, v)
  {
    var i :| 0 <= i < |vectors| && vectors[i] == v;
    SpanOfMember(vectors, i);
  }

  lemma {:induction false} TileSpansBits(vectors: seq<set<nat>>, v: set<nat>)
    requires forall e :: e in v ==> {e} in vectors
    ensures InSpan(vectors, v)
    decreases |v|
  {
    if v == {} {
      SpanOfZero(vectors);
    } else {
      var e :| e in v;
      var rest := v - {e};
      TileSpansBits(vectors, rest);
      TakeXor(v, e);
      MemberSpan(vectors, {e});
      SpanXor(vectors, rest, {e});
    }
  }

  /** Such vectors span the vectors whose bits are all among them. */
  lemma SpanOfTile(vectors: seq<set<nat>>, v: set<nat>)
    requires IsTile(vectors)
    ensures InSpan(vectors, v) <==> forall e :: e in v ==> {e} in vectors
  {
    if x :| Apply(vectors, x) == v {
      BitsOfTile(vectors, x);
    }
    if forall e :: e in v ==> {e} in vectors {
      TileSpansBits(vectors, v);
    }
  }

  /** Unit vectors span the vectors on their coordinates. */
  lemma SpanOfUnits(coords: seq<nat>, v: set<nat>)
    ensures InSpan(Units(coords), v) <==> forall e :: e in v ==> e in coords
  {
    SpanOfTile(Units(coords), v);
    forall e: nat ensures {e} in Units(coords) <==> e in coords {
      if e in coords {
        var i :| 0 <= i < |coords| && coords[i] == e;
        assert Units(coords)[i] == {e};
      }
      if {e} in Units(coords) {
        var i :| 0 <= i < |coords| && Units(coords)[i] == {e};
        assert coords[i] in Units(coords)[i];
      }
    }
  }

  /** The bits of a tile. */
  ghost predicate BitsOf(bank: seq<set<nat>>, coords: set<nat>) {
    forall e :: e in coords <==> {e} in bank
  }

  ghost predicate Lists(r: seq<nat>, coords: set<nat>) {
    forall c :: c in r <==> c in coords
  }

  ghost function Range(n: nat): (r: set<nat>)
    ensures forall i: nat :: i in r <==> i < n
  {
    if n == 0 then {} else Range(n - 1) + {n - 1}
  }

  lemma {:induction false} RangeCardinality(n: nat)
    ensures |Range(n)| == n
  {
    if n > 0 {
      RangeCardinality(n - 1);
    }
  }

  lemma AscendingCardinality(r: seq<nat>, coords: set<nat>)
    requires Ascending(r) && Lists(r, coords)
    ensures |r| == |coords|
    decreases |r|
  {
    if r == [] {
      assert forall c :: c !in coords;
    } else {
      var last := r[|r| - 1];
      var init := r[..|r| - 1];
      assert forall c :: c in r <==> c in init || c == last;
      assert last !in init;
      AscendingCardinality(init, coords - {last});
    }
  }

  lemma SortedBits(bits: set<nat>, dim: nat) returns (r: seq<nat>)
    requires Fits(bits, dim)
    ensures Ascending(r) && Lists(r, bits)
    decreases dim
  {
    if dim == 0 {
      r := [];
      assert forall c :: c !in bits;
    } else {
      var k: nat := dim - 1;
      r := SortedBits(bits - {k}, k);
      if k in bits {
        assert forall i :: 0 <= i < |r| ==> r[i] in r;
        r := r + [k];
      }
    }
  }

  ghost function BankBits(bank: seq<set<nat>>, dim: nat): set<nat> {
    set e | e in Range(dim) && {e} in bank
  }

  lemma BitsOfBank(bank: seq<set<nat>>, bits: set<nat>, dim: nat)
    requires RowsFit(bank, dim) && bits == BankBits(bank, dim)
    ensures BitsOf(bank, bits) && Fits(bits, dim)
  {
    forall e: nat | {e} in bank ensures e < dim {
      var i :| 0 <= i < |bank| && bank[i] == {e};
      assert e in bank[i];
    }
  }

  /** A list of independent vectors that meets a tile trivially has room beside the bits of the tile. */
  lemma RoomBesideTile(vectors: seq<set<nat>>, bank: seq<set<nat>>, bits: set<nat>, dim: nat)
    requires RowsFit(vectors, dim) && Independent(vectors) && MeetTrivially(vectors, bank)
    requires IsTile(bank) && BitsOf(bank, bits) && Fits(bits, dim)
    ensures |vectors| + |bits| <= dim
  {
    var coords := SortedBits(bits, dim);
    UnitsAreIndependent(coords);
    forall v | InSpan(vectors, v) && InSpan(Units(coords), v) ensures v == {} {
      SpanOfUnits(coords, v);
      SpanOfTile(bank, v);
    }
    ConcatIndependent(vectors, Units(coords));
    var both := vectors + Units(coords);
    forall i | 0 <= i < |both| ensures Fits(both[i], dim) {
      if i >= |vectors| {
        assert both[i] == {coords[i - |vectors|]} && coords[i - |vectors|] in coords;
      }
    }
    DimensionBound(both, dim);
    AscendingCardinality(coords, bits);
  }

  // ----- Meeting a tile

  /** `meet` is a basis of what the two spans have in common. */
  ghost predicate IsMeet(vectors: seq<set<nat>>, bank: seq<set<nat>>, meet: seq<set<nat>>) {
    Independent(meet) && forall v :: InSpan(meet, v) <==> InSpan(vectors, v) && InSpan(bank, v)
  }

  /** The two spans meet in a space of dimension `k`: of `2^k` vectors. */
  ghost predicate MeetsIn(vectors: seq<set<nat>>, bank: seq<set<nat>>, k: nat) {
    exists meet :: IsMeet(vectors, bank, meet) && |meet| == k
  }

  lemma MeetWithin(vectors: seq<set<nat>>, bank: seq<set<nat>>, meet: seq<set<nat>>, other: seq<set<nat>>)
    requires IsMeet(vectors, bank, meet) && IsMeet(vectors, bank, other)
    ensures Generates(meet, other)
  {
    forall i | 0 <= i < |other| ensures InSpan(meet, other[i]) {
      SpanOfMember(other, i);
    }
  }

  lemma MeetIsUnique(vectors: seq<set<nat>>, bank: seq<set<nat>>, k: nat, l: nat)
    requires MeetsIn(vectors, bank, k) && MeetsIn(vectors, bank, l)
    ensures k == l
  {
    var meet :| IsMeet(vectors, bank, meet) && |meet| == k;
    var other :| IsMeet(vectors, bank, other) && |other| == l;
    MeetWithin(vectors, bank, meet, other);
    MeetWithin(vectors, bank, other, meet);
    IndependentAreFew(meet, other);
    IndependentAreFew(other, meet);
  }

  lemma MeetTriviallyIsZero(vectors: seq<set<nat>>, bank: seq<set<nat>>)
    requires MeetTrivially(vectors, bank)
    ensures MeetsIn(vectors, bank, 0)
  {
    var none: seq<set<nat>> := [];
    SpanOfZero(vectors);
    SpanOfZero(bank);
    SpanOfZero(none);
    assert IsMeet(vectors, bank, none);
  }

  /** Lists with the same span meet a bank alike. */
  lemma SameSpanMeets(vectors: seq<set<nat>>, other: seq<set<nat>>, bank: seq<set<nat>>, k: nat)
    requires SameSpan(vectors, other) && MeetsIn(vectors, bank, k)
    ensures MeetsIn(other, bank, k)
  {
    var meet :| IsMeet(vectors, bank, meet) && |meet| == k;
    forall v ensures InSpan(vectors, v) <==> InSpan(other, v) {
      if InSpan(vectors, v) {
        GeneratesSpan(other, vectors, v);
      }
      if InSpan(other, v) {
        GeneratesSpan(vectors, other, v);
      }
    }
    assert IsMeet(other, bank, meet);
  }

  /** Independent vectors meet a bank in no fewer dimensions than they exceed the bits outside it. */
  lemma MeetAtLeast(vectors: seq<set<nat>>, bank: seq<set<nat>>, bits: set<nat>, dim: nat, k: nat)
    requires RowsFit(vectors, dim) && Independent(vectors) && MeetsIn(vectors, bank, k)
    requires IsTile(bank) && BitsOf(bank, bits) && Fits(bits, dim)
    ensures |vectors| + |bits| <= dim + k
  {
    var meet :| IsMeet(vectors, bank, meet) && |meet| == k;
    forall i | 0 <= i < |meet| ensures InSpan(vectors, meet[i]) {
      SpanOfMember(meet, i);
    }
    var rest := ExtendPart(meet, vectors);
    IndependentAreFew(vectors, meet + rest);
    PartMeetsRest(meet, rest);
    RestIndependent(meet, rest);
    forall v | InSpan(rest, v) && InSpan(bank, v) ensures v == {} {
      GeneratesSpan(vectors, rest, v);
    }
    SpanFits(vectors, rest, dim);
    RoomBesideTile(rest, bank, bits, dim);
  }

  lemma SpanFits(vectors: seq<set<nat>>, spanned: seq<set<nat>>, dim: nat)
    requires RowsFit(vectors, dim) && Generates(vectors, spanned)
    ensures RowsFit(spanned, dim)
  {
    forall i | 0 <= i < |spanned| ensures Fits(spanned[i], dim) {
      var x :| Apply(vectors, x) == spanned[i];
      ApplyFits(vectors, x, dim);
    }
  }

  // ----- Vectors without common bits

  ghost predicate PairwiseDisjoint(vectors: seq<set<nat>>) {
    && (forall i :: 0 <= i < |vectors| ==> vectors[i] != {})
    && (forall i, j :: 0 <= i < j < |vectors| ==> vectors[i] !! vectors[j])
  }

  /** The vectors all of whose bits are among `bits`. */
  ghost function Inside(vectors: seq<set<nat>>, bits: set<nat>): seq<set<nat>> {
    if vectors == [] then [] else
      Inside(vectors[..|vectors| - 1], bits)
      + if vectors[|vectors| - 1] <= bits then [vectors[|vectors| - 1]] else []
  }

  lemma {:induction false} InsideMembers(vectors: seq<set<nat>>, bits: set<nat>)
    ensures forall v :: v in Inside(vectors, bits) <==> v in vectors && v <= bits
  {
    if vectors != [] {
      var init, last := vectors[..|vectors| - 1], vectors[|vectors| - 1];
      InsideMembers(init, bits);
      assert vectors == init + [last];
    }
  }

  lemma {:induction false} InsideDisjoint(vectors: seq<set<nat>>, bits: set<nat>)
    requires PairwiseDisjoint(vectors)
    ensures PairwiseDisjoint(Inside(vectors, bits))
  {
    if vectors != [] {
      var init, last := vectors[..|vectors| - 1], vectors[|vectors| - 1];
      InsideDisjoint(init, bits);
      InsideMembers(init, bits);
      var inner := Inside(init, bits);
      forall i | 0 <= i < |inner| ensures inner[i] !! last {
        assert inner[i] in inner;
      }
    }
  }

  /** A sum of such vectors has all bits of each of them. */
  lemma {:induction false} SumHolds(vectors: seq<set<nat>>, x: set<nat>, i: nat)
    requires PairwiseDisjoint(vectors) && i < |vectors| && i in x
    ensures vectors[i] <= Apply(vectors, x)
  {
    var n := |vectors| - 1;
    if i == n {
      forall e | e in vectors[n] ensures e !in Apply(vectors[..n], x) {
        NoCoordinate(vectors[..n], e, x);
      }
    } else {
      SumHolds(vectors[..n], x, i);
    }
  }

  lemma DisjointIndependent(vectors: seq<set<nat>>)
    requires PairwiseDisjoint(vectors)
    ensures Independent(vectors)
  {
    forall x | Fits(x, |vectors|) && Apply(vectors, x) == {} ensures x == {} {
      forall i | 0 <= i < |vectors| ensures i !in x {
        if i in x {
          SumHolds(vectors, x, i);
        }
      }
    }
  }

  /** A sum whose bits are all among `bits` is a sum of the vectors inside. */
  lemma {:induction false} SumInside(vectors: seq<set<nat>>, x: set<nat>, bits: set<nat>)
    requires PairwiseDisjoint(vectors) && Apply(vectors, x) <= bits
    ensures InSpan(Inside(vectors, bits), Apply(vectors, x))
  {
    var inner := Inside(vectors, bits);
    if vectors == [] {
      SpanOfZero(inner);
    } else {
      var n := |vectors| - 1;
      if n in x {
        SumHolds(vectors, x, n);
      }
      SumInside(vectors[..n], x, bits);
      InsideMembers(vectors, bits);
      InsideMembers(vectors[..n], bits);
      SpanOfMembers(inner, Inside(vectors[..n], bits));
      GeneratesSpan(inner, Inside(vectors[..n], bits), Apply(vectors[..n], x));
      if n in x {
        assert vectors[n] in vectors;
        MemberSpan(inner, vectors[n]);
        SpanXor(inner, Apply(vectors[..n], x), vectors[n]);
      }
    }
  }

  lemma SpanOfMembers(big: seq<set<nat>>, small: seq<set<nat>>)
    requires forall v :: v in small ==> v in big
    ensures Generates(big, small)
  {
    forall i | 0 <= i < |small| ensures InSpan(big, small[i]) {
      assert small[i] in small;
      MemberSpan(big, small[i]);
    }
  }

  /** Vectors without common bits meet a bank exactly in the span of those that lie inside it. */
  lemma MeetOfDisjoint(vectors: seq<set<nat>>, bank: seq<set<nat>>, bits: set<nat>)
    requires PairwiseDisjoint(vectors) && IsTile(bank) && BitsOf(bank, bits)
    ensures MeetsIn(vectors, bank, |Inside(vectors, bits)|)
  {
    var inner := Inside(vectors, bits);
    InsideDisjoint(vectors, bits);
    DisjointIndependent(inner);
    InsideMembers(vectors, bits);
    SpanOfMembers(vectors, inner);
    forall v ensures InSpan(inner, v) <==> InSpan(vectors, v) && InSpan(bank, v) {
      SpanOfTile(bank, v);
      if InSpan(inner, v) {
        GeneratesSpan(vectors, inner, v);
        SumStaysInside(inner, bits, v);
      }
      if InSpan(vectors, v) && InSpan(bank, v) {
        var x :| Apply(vectors, x) == v;
        SumInside(vectors, x, bits);
      }
    }
    assert IsMeet(vectors, bank, inner);
  }

  lemma SumStaysInside(vectors: seq<set<nat>>, bits: set<nat>, v: set<nat>)
    requires InSpan(vectors, v) && forall u :: u in vectors ==> u <= bits
    ensures v <= bits
  {
    var x :| Apply(vectors, x) == v;
    forall e | e !in bits ensures e !in v {
      assert forall i :: 0 <= i < |vectors| ==> vectors[i] in vectors;
      NoCoordinate(vectors, e, x);
    }
  }

  lemma {:induction false} InsideConcat(x: seq<set<nat>>, y: seq<set<nat>>, bits: set<nat>)
    ensures Inside(x + y, bits) == Inside(x, bits) + Inside(y, bits)
  {
    if y == [] {
      assert x + y == x;
    } else {
      var n := |y| - 1;
      InsideConcat(x, y[..n], bits);
      assert (x + y)[..|x + y| - 1] == x + y[..n];
    }
  }

  lemma {:induction false} AllInside(vectors: seq<set<nat>>, bits: set<nat>)
    requires forall i :: 0 <= i < |vectors| ==> vectors[i] <= bits
    ensures Inside(vectors, bits) == vectors
  {
    if vectors != [] {
      AllInside(vectors[..|vectors| - 1], bits);
    }
  }

  lemma {:induction false} NoneInside(vectors: seq<set<nat>>, bits: set<nat>)
    requires forall i :: 0 <= i < |vectors| ==> !(vectors[i] <= bits)
    ensures Inside(vectors, bits) == []
  {
    if vectors != [] {
      NoneInside(vectors[..|vectors| - 1], bits);
    }
  }

  lemma DisjointConcat(x: seq<set<nat>>, y: seq<set<nat>>)
    requires PairwiseDisjoint(x) && PairwiseDisjoint(y)
    requires forall i, j :: 0 <= i < |x| && 0 <= j < |y| ==> x[i] !! y[j]
    ensures PairwiseDisjoint(x + y)
  {
  }
}
