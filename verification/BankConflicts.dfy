/** How good the choice of the segment is when conflicts cannot be avoided: the dimensions in which it meets the banks
    against those of every other choice of as many independent vectors. */
module BankConflicts {
  import opened F2
  import opened GaussJordan
  import opened ReducedForm
  import opened Swizzling
  import opened Tiles

  ghost predicate IsChoice(vectors: seq<set<nat>>, dim: nat, n: nat) {
    |vectors| == n && RowsFit(vectors, dim) && Independent(vectors)
  }

  /** No choice of `n` vectors meets the bank in fewer than `k` dimensions. */
  ghost predicate NoneMeetsLess(bank: seq<set<nat>>, dim: nat, n: nat, k: nat) {
    forall other, j :: IsChoice(other, dim, n) && MeetsIn(other, bank, j) ==> k <= j
  }

  lemma MeetsOutnumbered(bank: seq<set<nat>>, dim: nat, n: nat, k: nat)
    requires IsTile(bank) && RowsFit(bank, dim) && n + |BankBits(bank, dim)| >= dim + k
    ensures NoneMeetsLess(bank, dim, n, k)
  {
    BitsOfBank(bank, BankBits(bank, dim), dim);
    forall other, j | IsChoice(other, dim, n) && MeetsIn(other, bank, j) ensures k <= j {
      MeetAtLeast(other, bank, BankBits(bank, dim), dim, j);
    }
  }

  /** What the code does is the best for the larger bank. */
  lemma LargerBankIsLeast(bankSrc: seq<set<nat>>, bankDst: seq<set<nat>>, dim: nat, n: nat)
    requires IsTile(bankSrc) && IsTile(bankDst) && RowsFit(bankSrc, dim) && RowsFit(bankDst, dim)
    ensures var k := Unavoidable(n, bankSrc, bankDst, dim);
            var src, dst := |BankBits(bankSrc, dim)|, |BankBits(bankDst, dim)|;
            && (src >= dst || k == 0 ==> NoneMeetsLess(bankSrc, dim, n, k))
            && (dst >= src || k == 0 ==> NoneMeetsLess(bankDst, dim, n, k))
  {
    var k, src, dst := Unavoidable(n, bankSrc, bankDst, dim), |BankBits(bankSrc, dim)|, |BankBits(bankDst, dim)|;
    if k > 0 && src >= dst {
      MeetsOutnumbered(bankSrc, dim, n, k);
    }
    if k > 0 && dst >= src {
      MeetsOutnumbered(bankDst, dim, n, k);
    }
  }

  // ----- The cheapest choice

  function Min(a: nat, b: nat): nat {
    if a < b then a else b
  }

  /** Bits of the larger bank alone that have no partner in the smaller one first, and only then pairs taken apart. */
  ghost function Cheapest(outside: seq<nat>, a: seq<nat>, b: seq<nat>, k: nat): seq<set<nat>>
    requires |a| <= |b| && k <= |a|
  {
    var spare := Min(k, |b| - |a|);
    Candidate(outside, a, b, k - spare) + Units(b[|a|..|a| + spare])
  }

  lemma CheapestDisjoint(outside: seq<nat>, a: seq<nat>, b: seq<nat>, k: nat)
    requires |a| <= |b| && k <= |a| && AllDistinct(outside) && AllDistinct(a) && AllDistinct(b)
    requires NoCommon(outside, a) && NoCommon(outside, b) && NoCommon(a, b)
    ensures PairwiseDisjoint(Cheapest(outside, a, b, k))
  {
    var spare := Min(k, |b| - |a|);
    var most := Candidate(outside, a, b, k - spare);
    CandidateDisjoint(outside, a, b, k - spare);
    forall i, j | 0 <= i < |most| && |a| <= j < |b| ensures b[j] !in most[i] {
      PartnersOnly(outside, a, b, k - spare, i, j);
    }
    SliceBeside(most, b, |a|, |a| + spare);
  }

  lemma SliceBeside(most: seq<set<nat>>, b: seq<nat>, lo: nat, hi: nat)
    requires PairwiseDisjoint(most) && AllDistinct(b) && lo <= hi <= |b|
    requires forall i, j :: 0 <= i < |most| && lo <= j < |b| ==> b[j] !in most[i]
    ensures PairwiseDisjoint(most + Units(b[lo..hi]))
  {
    UnitsDisjoint(b[lo..hi]);
    DisjointConcat(most, Units(b[lo..hi]));
  }

  lemma SliceInside(most: seq<set<nat>>, b: seq<nat>, lo: nat, hi: nat, bits: set<nat>)
    requires lo <= hi <= |b|
    ensures (forall c :: c in b ==> c in bits) ==>
      |Inside(most + Units(b[lo..hi]), bits)| == |Inside(most, bits)| + (hi - lo)
    ensures (forall c :: c in b ==> c !in bits) ==> |Inside(most + Units(b[lo..hi]), bits)| == |Inside(most, bits)|
  {
    InsideConcat(most, Units(b[lo..hi]), bits);
    assert forall c :: c in b[lo..hi] ==> c in b;
    UnitsInside(b[lo..hi], bits);
  }

  /** The candidate uses the first bits of the longer list only. */
  lemma PartnersOnly(outside: seq<nat>, a: seq<nat>, b: seq<nat>, conflicts: nat, i: nat, j: nat)
    requires conflicts <= |a| <= j < |b| && AllDistinct(b) && NoCommon(outside, b) && NoCommon(a, b)
    requires i < |Candidate(outside, a, b, conflicts)|
    ensures b[j] !in Candidate(outside, a, b, conflicts)[i]
  {
  }

  lemma CheapestInside(outside: seq<nat>, a: seq<nat>, b: seq<nat>, k: nat, bits: set<nat>)
    requires |a| <= |b| && k <= |a| && (HasOne(bits, a, b) || HasOne(bits, b, a))
    requires forall c :: c in outside ==> c !in bits
    ensures HasOne(bits, b, a) ==> |Inside(Cheapest(outside, a, b, k), bits)| == k
    ensures HasOne(bits, a, b) ==> |Inside(Cheapest(outside, a, b, k), bits)| == k - Min(k, |b| - |a|)
  {
    var spare := Min(k, |b| - |a|);
    CandidateInside(outside, a, b, k - spare, bits);
    SliceInside(Candidate(outside, a, b, k - spare), b, |a|, |a| + spare, bits);
  }

  lemma SplitLists(small: set<nat>, large: set<nat>, dim: nat) returns (outside: seq<nat>, a: seq<nat>, b: seq<nat>)
    requires Fits(small, dim) && Fits(large, dim) && |small| <= |large|
    ensures SplitsBits(small, large, dim, outside, a, b) && Lists(a, small - large) && Lists(b, large - small)
    ensures |b| - |a| == |large| - |small|
  {
    outside := SortedBits(Range(dim) - (small + large), dim);
    a := SortedBits(small - large, dim);
    b := SortedBits(large - small, dim);
    AscendingCardinality(a, small - large);
    AscendingCardinality(b, large - small);
    assert small == (small - large) + (small * large) && large == (large - small) + (small * large);
  }

  /** A choice that meets the larger bank as rarely as any, and the smaller one as often less as it has fewer bits. */
  lemma CheapestChoice(small: seq<set<nat>>, large: seq<set<nat>>, dim: nat, n: nat) returns (other: seq<set<nat>>)
    requires IsTile(small) && IsTile(large) && RowsFit(small, dim) && RowsFit(large, dim)
    requires |BankBits(small, dim)| <= |BankBits(large, dim)|
    requires SegmentLength(n, small, large, dim) == n && 0 < Unavoidable(n, small, large, dim)
    ensures IsChoice(other, dim, n)
    ensures var k := Unavoidable(n, small, large, dim);
            && MeetsIn(other, large, k)
            && MeetsIn(other, small, k - Min(k, |BankBits(large, dim)| - |BankBits(small, dim)|))
  {
    var s, l, k := BankBits(small, dim), BankBits(large, dim), Unavoidable(n, small, large, dim);
    BitsOfBank(small, s, dim);
    BitsOfBank(large, l, dim);
    var outside, a, b := SplitLists(s, l, dim);
    FreeBits(s, l, dim, outside, a, b);
    BitListLengths(s, l, dim, outside, a, b);
    BitListsDisjoint(s, l, dim, outside, a, b);
    other := Cheapest(outside, a, b, k);
    CheapestFits(outside, a, b, k, dim);
    CheapestDisjoint(outside, a, b, k);
    DisjointIndependent(other);
    assert HasOne(s, a, b) && HasOne(l, b, a);
    CheapestInside(outside, a, b, k, s);
    CheapestInside(outside, a, b, k, l);
    MeetOfDisjoint(other, small, s);
    MeetOfDisjoint(other, large, l);
  }

  lemma CheapestFits(outside: seq<nat>, a: seq<nat>, b: seq<nat>, k: nat, dim: nat)
    requires |a| <= |b| && k <= |a|
    requires forall c :: c in outside || c in a || c in b ==> c < dim
    ensures RowsFit(Cheapest(outside, a, b, k), dim) && |Cheapest(outside, a, b, k)| == |outside| + |a| + k
  {
    var spare := Min(k, |b| - |a|);
    var most, more := Candidate(outside, a, b, k - spare), b[|a|..|a| + spare];
    forall i | 0 <= i < |most| ensures Fits(most[i], dim) {
      forall e | e in most[i] ensures e < dim {
        CandidateBits(outside, a, b, k - spare, i, e);
      }
    }
    assert forall c :: c in more ==> c in b;
    forall i | 0 <= i < |more| ensures Fits(Units(more)[i], dim) {
      assert more[i] in more;
    }
  }

  lemma Symmetric(bankSrc: seq<set<nat>>, bankDst: seq<set<nat>>, dim: nat, n: nat)
    ensures SegmentLength(n, bankSrc, bankDst, dim) == SegmentLength(n, bankDst, bankSrc, dim)
    ensures Unavoidable(n, bankSrc, bankDst, dim) == Unavoidable(n, bankDst, bankSrc, dim)
  {
    var src, dst := BankBits(bankSrc, dim), BankBits(bankDst, dim);
    assert src + dst == dst + src;
  }

  /** Another choice does better for the smaller bank. */
  lemma SmallerBankCanDoBetter(small: seq<set<nat>>, large: seq<set<nat>>, dim: nat, n: nat)
    requires IsTile(small) && IsTile(large) && RowsFit(small, dim) && RowsFit(large, dim)
    requires |BankBits(small, dim)| < |BankBits(large, dim)|
    requires SegmentLength(n, small, large, dim) == n && 0 < Unavoidable(n, small, large, dim)
    ensures !NoneMeetsLess(small, dim, n, Unavoidable(n, small, large, dim))
  {
    var other := CheapestChoice(small, large, dim, n);
  }

  /** The segment meets the larger bank as rarely as any choice of as many vectors. It meets both banks as rarely as any
      if and only if it causes no conflict or the banks have equally many bits. */
  lemma SegmentIsLeast(segment: seq<set<nat>>, bankSrc: seq<set<nat>>, bankDst: seq<set<nat>>, dim: nat,
                       lenSegment: nat)
    requires IsTile(bankSrc) && IsTile(bankDst) && RowsFit(bankSrc, dim) && RowsFit(bankDst, dim)
    requires MeetsLittle(segment, bankSrc, bankDst, dim, lenSegment)
    ensures var n, src, dst := |segment|, |BankBits(bankSrc, dim)|, |BankBits(bankDst, dim)|;
            var k := Unavoidable(n, bankSrc, bankDst, dim);
            && (src >= dst ==> NoneMeetsLess(bankSrc, dim, n, k)) && (dst >= src ==> NoneMeetsLess(bankDst, dim, n, k))
            && (NoneMeetsLess(bankSrc, dim, n, k) && NoneMeetsLess(bankDst, dim, n, k) <==> k == 0 || src == dst)
  {
    var n, src, dst := |segment|, |BankBits(bankSrc, dim)|, |BankBits(bankDst, dim)|;
    LargerBankIsLeast(bankSrc, bankDst, dim, n);
    if Unavoidable(n, bankSrc, bankDst, dim) > 0 {
      Symmetric(bankSrc, bankDst, dim, n);
      if src < dst {
        SmallerBankCanDoBetter(bankSrc, bankDst, dim, n);
      }
      if dst < src {
        SmallerBankCanDoBetter(bankDst, bankSrc, dim, n);
      }
    }
  }
}
