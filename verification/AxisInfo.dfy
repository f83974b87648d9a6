/** What the axis analysis knows of a tensor along each of its dimensions, and why its rules are sound. A tensor is seen
    through its lines along a dimension: a property of a dimension is a property of every such line. */
module AxisInfo {
  import opened Arithmetic
  import opened Divisors
  import opened Options

  // ----- Aligned groups

  /** The first index of the group of length `c` that `i` is in. */
  ghost function Lead(i: nat, c: int): (s: nat)
    requires 0 < c
    ensures s <= i
  {
    i - i % c
  }

  lemma LeadIs(i: nat, c: int)
    requires 0 < c
    ensures Divides(c, Lead(i, c)) && i < Lead(i, c) + c
  {
    Multiple(c, i / c);
    assert i == c * (i / c) + i % c;
  }

  lemma LeadUnique(i: nat, c: int, s: nat)
    requires 0 < c && Divides(c, s) && s <= i < s + c
    ensures Lead(i, c) == s
  {
    LeadIs(i, c);
    if s < Lead(i, c) {
      MultiplesApart(c, s, Lead(i, c));
    } else if Lead(i, c) < s {
      MultiplesApart(c, Lead(i, c), s);
    }
  }

  /** Groups of a divisor's length lie inside the larger groups, at multiples of that length. */
  lemma LeadNested(i: nat, g: int, c: int)
    requires 0 < g && 0 < c && Divides(g, c)
    ensures Lead(i, c) <= Lead(i, g) && Lead(Lead(i, g), c) == Lead(i, c)
    ensures Divides(g, Lead(i, g) - Lead(i, c))
  {
    LeadIs(i, g);
    LeadIs(i, c);
    DividesTransitive(g, c, Lead(i, c));
    if Lead(i, g) < Lead(i, c) {
      MultiplesApart(g, Lead(i, g), Lead(i, c));
    }
    LeadUnique(Lead(i, g), c, Lead(i, c));
    DividesSum(g, Lead(i, g), Lead(i, c));
  }

  // ----- What the analysis claims of a line

  ghost predicate Contiguous(line: seq<int>, c: int)
    requires 0 < c
  {
    forall i: nat :: i < |line| ==> line[i] == line[Lead(i, c)] + (i - Lead(i, c))
  }

  /** The first elements of the groups of length `c` are multiples of `d`. */
  ghost predicate Aligned(line: seq<int>, c: int, d: int)
    requires 0 < c && 0 < d
  {
    forall i: nat :: i < |line| ==> Divides(d, line[Lead(i, c)])
  }

  ghost predicate Constant(line: seq<int>, k: int)
    requires 0 < k
  {
    forall i: nat :: i < |line| ==> line[i] == line[Lead(i, k)]
  }

  /** What is known along one dimension. */
  datatype DimInfo = DimInfo(contiguity: nat, divisibility: nat, constancy: nat) {
    predicate Valid() {
      0 < contiguity && 0 < divisibility && 0 < constancy
    }

    ghost predicate Describes(line: seq<int>)
      requires Valid()
    {
      Contiguous(line, contiguity) && Aligned(line, contiguity, divisibility) && Constant(line, constancy)
    }
  }

  lemma ContiguousInside(line: seq<int>, c: int, g: int)
    requires 0 < c && 0 < g && Divides(g, c) && Contiguous(line, c)
    ensures Contiguous(line, g)
  {
    forall i: nat | i < |line| ensures line[i] == line[Lead(i, g)] + (i - Lead(i, g)) {
      LeadNested(i, g, c);
    }
  }

  lemma ConstantInside(line: seq<int>, k: int, g: int)
    requires 0 < k && 0 < g && Divides(g, k) && Constant(line, k)
    ensures Constant(line, g)
  {
    forall i: nat | i < |line| ensures line[i] == line[Lead(i, g)] {
      LeadNested(i, g, k);
    }
  }

  /** Smaller groups start at multiples of a common divisor of the old alignment and the new length. */
  lemma AlignedInside(line: seq<int>, c: int, d: int, g: int, e: int)
    requires 0 < c && 0 < d && 0 < g && 0 < e && Contiguous(line, c) && Aligned(line, c, d)
    requires Divides(g, c) && Divides(e, d) && (Divides(e, g) || g == c)
    ensures Aligned(line, g, e)
  {
    forall i: nat | i < |line| ensures Divides(e, line[Lead(i, g)]) {
      LeadNested(i, g, c);
      DividesTransitive(e, d, line[Lead(i, c)]);
      if g != c {
        DividesTransitive(e, g, Lead(i, g) - Lead(i, c));
        DividesSum(e, line[Lead(i, c)], Lead(i, g) - Lead(i, c));
      }
    }
  }

  // ----- Joining what is known on two paths

  /** The marker of a value that is not resolved yet, the largest power of two in a signed 64-bit word. */
  const MAX_DIVISOR: nat := 0x4000_0000_0000_0000

  function DivisibilityFromContiguity(lhs: DimInfo, rhs: DimInfo): nat {
    if lhs.contiguity == rhs.contiguity || lhs.contiguity == MAX_DIVISOR || rhs.contiguity == MAX_DIVISOR then
      Gcd(lhs.divisibility, rhs.divisibility)
    else
      Gcd(Gcd(Gcd(lhs.divisibility, rhs.divisibility), lhs.contiguity), rhs.contiguity)
  }

  function JoinDim(lhs: DimInfo, rhs: DimInfo): DimInfo {
    DimInfo(Gcd(lhs.contiguity, rhs.contiguity), DivisibilityFromContiguity(lhs, rhs),
            Gcd(lhs.constancy, rhs.constancy))
  }

  /** The state the code gives to values it has not visited yet. */
  const UNRESOLVED := DimInfo(MAX_DIVISOR, MAX_DIVISOR, MAX_DIVISOR)

  /** A side the join does not claim too much of: the groups stay as long as they were, or the joined divisibility
      survives cutting them up, or no line of two elements is both contiguous and constant. */
  ghost predicate Kept(info: DimInfo, join: DimInfo)
    requires info.Valid() && join.Valid()
  {
    || info.contiguity == join.contiguity
    || Divides(join.divisibility, join.contiguity)
    || (info.contiguity > 1 && info.constancy > 1)
  }

  ghost predicate BothKept(lhs: DimInfo, rhs: DimInfo)
    requires lhs.Valid() && rhs.Valid()
  {
    JoinDivides(lhs, rhs);
    Kept(lhs, JoinDim(lhs, rhs)) && Kept(rhs, JoinDim(lhs, rhs))
  }

  /** Every line that `info` describes, `weaker` describes. */
  ghost predicate Covers(weaker: DimInfo, info: DimInfo)
    requires weaker.Valid() && info.Valid()
  {
    forall line :: info.Describes(line) ==> weaker.Describes(line)
  }

  lemma JoinDivides(lhs: DimInfo, rhs: DimInfo)
    requires lhs.Valid() && rhs.Valid()
    ensures JoinDim(lhs, rhs).Valid()
    ensures Divides(JoinDim(lhs, rhs).contiguity, lhs.contiguity) && Divides(JoinDim(lhs, rhs).constancy, lhs.constancy)
    ensures Divides(JoinDim(lhs, rhs).divisibility, lhs.divisibility)
    ensures Divides(JoinDim(lhs, rhs).contiguity, rhs.contiguity) && Divides(JoinDim(lhs, rhs).constancy, rhs.constancy)
    ensures Divides(JoinDim(lhs, rhs).divisibility, rhs.divisibility)
  {
    GcdDivides(lhs.contiguity, rhs.contiguity);
    GcdDivides(lhs.constancy, rhs.constancy);
    GcdDivides(lhs.divisibility, rhs.divisibility);
    var d := Gcd(lhs.divisibility, rhs.divisibility);
    Gcd3Divides(d, lhs.contiguity, rhs.contiguity);
    var e := Gcd(Gcd(d, lhs.contiguity), rhs.contiguity);
    DividesTransitive(e, d, lhs.divisibility);
    DividesTransitive(e, d, rhs.divisibility);
  }

  /** Contiguous in pairs and constant in pairs leaves at most one element. */
  lemma OneElement(info: DimInfo, line: seq<int>)
    requires info.Valid() && info.Describes(line) && info.contiguity > 1 && info.constancy > 1
    ensures |line| <= 1
  {
    if |line| > 1 {
      LeadUnique(1, info.contiguity, 0);
      LeadUnique(1, info.constancy, 0);
    }
  }

  lemma JoinKeeps(info: DimInfo, join: DimInfo, line: seq<int>)
    requires info.Valid() && join.Valid() && info.Describes(line) && Kept(info, join)
    requires Divides(join.contiguity, info.contiguity) && Divides(join.divisibility, info.divisibility)
    requires Divides(join.constancy, info.constancy)
    ensures join.Describes(line)
  {
    ContiguousInside(line, info.contiguity, join.contiguity);
    ConstantInside(line, info.constancy, join.constancy);
    if info.contiguity == join.contiguity || Divides(join.divisibility, join.contiguity) {
      AlignedInside(line, info.contiguity, info.divisibility, join.contiguity, join.divisibility);
    } else {
      OneElement(info, line);
      forall i: nat | i < |line| ensures Divides(join.divisibility, line[Lead(i, join.contiguity)]) {
        assert Lead(i, info.contiguity) == 0 && Lead(i, join.contiguity) == 0;
        DividesTransitive(join.divisibility, info.divisibility, line[0]);
      }
    }
  }

  /** The line 0, 1, ..., n - 1. */
  ghost function Counting(n: nat): seq<int> {
    seq(n, i requires 0 <= i < n => i)
  }

  /** A side that is not kept describes a line that the join does not. */
  lemma NotKept(info: DimInfo, join: DimInfo)
    requires info.Valid() && join.Valid() && Divides(join.contiguity, info.contiguity) && !Kept(info, join)
    ensures info.Describes(Counting(join.contiguity + 1)) && !join.Describes(Counting(join.contiguity + 1))
  {
    var line, c := Counting(join.contiguity + 1), join.contiguity;
    Multiple(c, 0);
    MultiplesApart(c, 0, info.contiguity);
    if info.contiguity < c + 1 {
      MultiplesApart(c, info.contiguity, c);
    }
    Multiple(info.divisibility, 0);
    OneRun(line, info.contiguity, info.divisibility);
    DividesSame(c);
    LeadUnique(c, c, c);
    assert line[Lead(c, c)] == c;
  }

  lemma KeptExactly(info: DimInfo, join: DimInfo)
    requires info.Valid() && join.Valid()
    requires Divides(join.contiguity, info.contiguity) && Divides(join.divisibility, info.divisibility)
    requires Divides(join.constancy, info.constancy)
    ensures Covers(join, info) <==> Kept(info, join)
  {
    if Kept(info, join) {
      forall line | info.Describes(line) ensures join.Describes(line) {
        JoinKeeps(info, join, line);
      }
    } else {
      NotKept(info, join);
    }
  }

  /** The join describes every line that either side describes if and only if it keeps both sides. */
  lemma JoinExactly(lhs: DimInfo, rhs: DimInfo)
    requires lhs.Valid() && rhs.Valid()
    ensures JoinDim(lhs, rhs).Valid()
    ensures Covers(JoinDim(lhs, rhs), lhs) && Covers(JoinDim(lhs, rhs), rhs) <==> BothKept(lhs, rhs)
  {
    JoinDivides(lhs, rhs);
    KeptExactly(lhs, JoinDim(lhs, rhs));
    KeptExactly(rhs, JoinDim(lhs, rhs));
  }

  /** What holds on either path holds after the join of values that are resolved, or that are equally long groups. */
  lemma JoinIsSound(lhs: DimInfo, rhs: DimInfo)
    requires lhs.Valid() && rhs.Valid()
    requires lhs.contiguity == rhs.contiguity || (lhs.contiguity != MAX_DIVISOR && rhs.contiguity != MAX_DIVISOR)
    ensures BothKept(lhs, rhs)
    ensures JoinDim(lhs, rhs).Valid() && Covers(JoinDim(lhs, rhs), lhs) && Covers(JoinDim(lhs, rhs), rhs)
  {
    JoinDivides(lhs, rhs);
    if lhs.contiguity == rhs.contiguity {
      GcdSame(lhs.contiguity);
    } else {
      GcdDivides(lhs.divisibility, rhs.divisibility);
      Gcd3Divides(Gcd(lhs.divisibility, rhs.divisibility), lhs.contiguity, rhs.contiguity);
      GcdIsGreatest(JoinDim(lhs, rhs).divisibility, lhs.contiguity, rhs.contiguity);
    }
    JoinExactly(lhs, rhs);
  }

  /** The unresolved state joins soundly with everything whose contiguity divides its own, as every power of two that
      fits does. */
  lemma UnresolvedJoinIsSound(state: DimInfo, info: DimInfo)
    requires state == UNRESOLVED && info.Valid() && Divides(info.contiguity, state.contiguity)
    ensures state.Valid() && BothKept(state, info) && BothKept(info, state)
    ensures JoinDim(state, info).Valid() && Covers(JoinDim(state, info), info)
    ensures JoinDim(info, state).Valid() && Covers(JoinDim(info, state), info)
  {
    GcdOfDivisor(state.contiguity, info.contiguity);
    JoinExactly(state, info);
    JoinExactly(info, state);
  }

  /** The marker of one side alone does not make the join sound: with a contiguity of one on the other side every
      element of the line 0, 1 would be a multiple of `d`. */
  lemma MarkerAloneFails(lhs: DimInfo, rhs: DimInfo, d: nat)
    requires lhs == DimInfo(MAX_DIVISOR, d, 1) && rhs == DimInfo(1, d, 1) && 1 < d
    ensures lhs.Valid() && rhs.Valid() && !BothKept(lhs, rhs) && lhs.Describes(Counting(2))
    ensures JoinDim(lhs, rhs).Valid() && !JoinDim(lhs, rhs).Describes(Counting(2))
  {
    JoinDivides(lhs, rhs);
    GcdOne(lhs.contiguity);
    GcdSame(d);
    Multiple(d, 0);
    if Divides(d, 1) {
      MultiplesApart(d, 0, 1);
    }
    NotKept(lhs, JoinDim(lhs, rhs));
  }

  lemma OneRun(line: seq<int>, c: nat, d: nat)
    requires 0 < c && 0 < d && |line| <= c
    requires forall i :: 0 <= i < |line| ==> line[i] == line[0] + i
    requires line != [] ==> Divides(d, line[0])
    ensures DimInfo(c, d, 1).Describes(line)
  {
    forall i: nat | i < |line| ensures Lead(i, c) == 0 && Lead(i, 1) == i {
      LeadUnique(i, c, 0);
      LeadUnique(i, 1, i);
    }
  }

  lemma OneValue(line: seq<int>, k: nat, d: nat)
    requires 0 < k && 0 < d && |line| <= k
    requires forall i :: 0 <= i < |line| ==> line[i] == line[0] && Divides(d, line[i])
    ensures DimInfo(1, d, k).Describes(line)
  {
    forall i: nat | i < |line| ensures Lead(i, k) == 0 && Lead(i, 1) == i {
      LeadUnique(i, k, 0);
      LeadUnique(i, 1, i);
    }
  }

  // ----- The join is the strongest

  /** The numbers of the join, by their divisors: what divides both sides, and for the alignment of groups that get
      shorter their lengths too. */
  lemma JoinNumbers(lhs: DimInfo, rhs: DimInfo, e: int)
    requires lhs.Valid() && rhs.Valid() && 0 < e
    ensures Divides(e, JoinDim(lhs, rhs).contiguity) <==> Divides(e, lhs.contiguity) && Divides(e, rhs.contiguity)
    ensures Divides(e, JoinDim(lhs, rhs).constancy) <==> Divides(e, lhs.constancy) && Divides(e, rhs.constancy)
    ensures Divides(e, JoinDim(lhs, rhs).divisibility) <==>
            && Divides(e, lhs.divisibility) && Divides(e, rhs.divisibility)
            && (lhs.contiguity == rhs.contiguity || lhs.contiguity == MAX_DIVISOR || rhs.contiguity == MAX_DIVISOR
                || (Divides(e, lhs.contiguity) && Divides(e, rhs.contiguity)))
  {
    GcdDivisors(e, lhs.contiguity, rhs.contiguity);
    GcdDivisors(e, lhs.constancy, rhs.constancy);
    var d := Gcd(lhs.divisibility, rhs.divisibility);
    GcdDivisors(e, lhs.divisibility, rhs.divisibility);
    GcdDivisors(e, d, lhs.contiguity);
    GcdDivisors(e, Gcd(d, lhs.contiguity), rhs.contiguity);
  }

  /** A run of length `c` that starts at 0 and then a jump, by a multiple of `d`. */
  ghost function RunAndJump(c: nat, d: nat): seq<int> {
    Counting(c) + [d * (c + 1)]
  }

  lemma RunAndJumpIs(c: nat, d: nat)
    requires 0 < c && 0 < d
    ensures DimInfo(c, d, 1).Describes(RunAndJump(c, d)) && d * (c + 1) != c
  {
    var line := RunAndJump(c, d);
    Multiple(c, 0);
    Multiple(d, 0);
    Multiple(d, c + 1);
    DividesSame(c);
    Monotone(1, d, c + 1);
    forall i: nat | i < |line| ensures Lead(i, c) == (if i < c then 0 else c) && Lead(i, 1) == i {
      LeadUnique(i, c, if i < c then 0 else c);
      LeadUnique(i, 1, i);
    }
  }

  lemma RunIsWhole(c: nat, d: nat, g: nat)
    requires 0 < c && 0 < d && 0 < g && Contiguous(RunAndJump(c, d), g)
    ensures Divides(g, c)
  {
    RunAndJumpIs(c, d);
    LeadIs(c, g);
    assert RunAndJump(c, d)[c] == d * (c + 1);
    assert forall i: nat :: i < c ==> RunAndJump(c, d)[i] == i;
  }

  /** `k` zeros and then a multiple of `d`. */
  ghost function ZerosAndStep(k: nat, d: nat): seq<int> {
    seq(k, _ => 0) + [d]
  }

  lemma ZerosAndStepIs(k: nat, d: nat)
    requires 0 < k && 0 < d
    ensures DimInfo(1, d, k).Describes(ZerosAndStep(k, d))
  {
    var line := ZerosAndStep(k, d);
    Multiple(k, 0);
    Multiple(d, 0);
    DividesSame(d);
    DividesSame(k);
    forall i: nat | i < |line| ensures Lead(i, k) == (if i < k then 0 else k) && Lead(i, 1) == i {
      LeadUnique(i, k, if i < k then 0 else k);
      LeadUnique(i, 1, i);
    }
  }

  lemma ZerosAreWhole(k: nat, d: nat, g: nat)
    requires 0 < k && 0 < d && 0 < g && Constant(ZerosAndStep(k, d), g)
    ensures Divides(g, k)
  {
    LeadIs(k, g);
    assert ZerosAndStep(k, d)[k] == d;
    assert forall i: nat :: i < k ==> ZerosAndStep(k, d)[i] == 0;
  }

  /** Groups of more than one element are not both constant and contiguous. */
  lemma PairIs(info: DimInfo, weaker: DimInfo)
    requires info.Valid() && weaker.Valid() && Covers(weaker, info)
    ensures info.contiguity > 1 && info.constancy == 1 ==> weaker.constancy == 1
    ensures info.constancy > 1 && info.contiguity == 1 ==> weaker.contiguity == 1
  {
    Multiple(info.divisibility, 0);
    if info.contiguity > 1 && info.constancy == 1 {
      OneRun([0, 1], info.contiguity, info.divisibility);
      assert weaker.Describes([0, 1]);
      if weaker.constancy > 1 {
        LeadUnique(1, weaker.constancy, 0);
      }
    }
    if info.constancy > 1 && info.contiguity == 1 {
      OneValue([0, 0], info.constancy, info.divisibility);
      assert weaker.Describes([0, 0]);
      if weaker.contiguity > 1 {
        LeadUnique(1, weaker.contiguity, 0);
      }
    }
  }

  lemma SingleElement(info: DimInfo, x: int)
    requires info.Valid()
    ensures info.Describes([x]) <==> Divides(info.divisibility, x)
  {
    LeadUnique(0, info.contiguity, 0);
    LeadUnique(0, info.constancy, 0);
  }

  /** What covers a side has divisors of its numbers. */
  lemma CoversDivides(weaker: DimInfo, info: DimInfo)
    requires info.Valid() && weaker.Valid() && Covers(weaker, info)
    requires info.contiguity == 1 || info.constancy == 1
    ensures Divides(weaker.contiguity, info.contiguity) && Divides(weaker.constancy, info.constancy)
    ensures Divides(weaker.divisibility, info.divisibility)
  {
    DividesSame(info.divisibility);
    SingleElement(info, info.divisibility);
    SingleElement(weaker, info.divisibility);
    PairIs(info, weaker);
    if info.constancy == 1 {
      RunAndJumpIs(info.contiguity, info.divisibility);
      RunIsWhole(info.contiguity, info.divisibility, weaker.contiguity);
    }
    if info.contiguity == 1 {
      ZerosAndStepIs(info.constancy, info.divisibility);
      ZerosAreWhole(info.constancy, info.divisibility, weaker.constancy);
    }
  }

  /** One information covers another, of which lines of several elements exist, if and only if its numbers divide the
      other's and the alignment survives the smaller groups. */
  lemma CoversExactly(weaker: DimInfo, info: DimInfo)
    requires info.Valid() && weaker.Valid() && (info.contiguity == 1 || info.constancy == 1)
    ensures Covers(weaker, info) <==>
            && Divides(weaker.contiguity, info.contiguity) && Divides(weaker.constancy, info.constancy)
            && Divides(weaker.divisibility, info.divisibility)
            && (weaker.contiguity == info.contiguity || Divides(weaker.divisibility, weaker.contiguity))
  {
    if Covers(weaker, info) {
      CoversDivides(weaker, info);
      KeptExactly(info, weaker);
    } else if Divides(weaker.contiguity, info.contiguity) && Divides(weaker.constancy, info.constancy)
              && Divides(weaker.divisibility, info.divisibility) {
      KeptExactly(info, weaker);
    }
  }

  /** No information that covers both sides says more than the join: its numbers divide those of the join. */
  lemma JoinIsStrongest(lhs: DimInfo, rhs: DimInfo, weaker: DimInfo)
    requires lhs.Valid() && rhs.Valid() && weaker.Valid() && Covers(weaker, lhs) && Covers(weaker, rhs)
    requires (lhs.contiguity == 1 || lhs.constancy == 1) && (rhs.contiguity == 1 || rhs.constancy == 1)
    ensures Divides(weaker.contiguity, JoinDim(lhs, rhs).contiguity)
    ensures Divides(weaker.divisibility, JoinDim(lhs, rhs).divisibility)
    ensures Divides(weaker.constancy, JoinDim(lhs, rhs).constancy)
  {
    CoversExactly(weaker, lhs);
    CoversExactly(weaker, rhs);
    GcdIsGreatest(weaker.contiguity, lhs.contiguity, rhs.contiguity);
    GcdIsGreatest(weaker.constancy, lhs.constancy, rhs.constancy);
    GcdIsGreatest(weaker.divisibility, lhs.divisibility, rhs.divisibility);
    GcdDivides(lhs.divisibility, rhs.divisibility);
    GcdDivides(Gcd(lhs.divisibility, rhs.divisibility), lhs.contiguity);
    if lhs.contiguity != rhs.contiguity {
      DividesTransitive(weaker.divisibility, weaker.contiguity, lhs.contiguity);
      DividesTransitive(weaker.divisibility, weaker.contiguity, rhs.contiguity);
      GcdIsGreatest(weaker.divisibility, Gcd(lhs.divisibility, rhs.divisibility), lhs.contiguity);
      GcdIsGreatest(weaker.divisibility, Gcd(Gcd(lhs.divisibility, rhs.divisibility), lhs.contiguity), rhs.contiguity);
    }
  }

  /** What is known of a tensor: nothing yet when there are no dimensions. */
  datatype Info = Info(dims: seq<DimInfo>, constantValue: Option<int>) {
    ghost predicate Valid() {
      forall d :: 0 <= d < |dims| ==> dims[d].Valid()
    }
  }

  /** Everything that `info` allows, `weaker` allows. */
  ghost predicate Allows(weaker: Info, info: Info)
    requires weaker.Valid() && info.Valid()
  {
    && (forall d :: 0 <= d < |info.dims| && d < |weaker.dims| ==> Covers(weaker.dims[d], info.dims[d]))
    && (info.dims != [] ==> |info.dims| <= |weaker.dims|)
    && (info.dims != [] && weaker.constantValue.Some? ==> weaker.constantValue == info.constantValue)
  }

  ghost predicate AllKept(lhs: Info, rhs: Info)
    requires lhs.Valid() && rhs.Valid()
  {
    |lhs.dims| == |rhs.dims| ==> forall d :: 0 <= d < |lhs.dims| ==> BothKept(lhs.dims[d], rhs.dims[d])
  }

  lemma NothingKnown(line: seq<int>)
    ensures DimInfo(1, 1, 1).Describes(line)
  {
    forall i: nat | i < |line| ensures Lead(i, 1) == i {
      LeadUnique(i, 1, i);
    }
  }

  /** The join of what is known on two paths. It allows what either side allows exactly when every dimension is kept.
      Ranks that disagree give up everything. */
  method Join(lhs: Info, rhs: Info) returns (r: Info)
    requires lhs.Valid() && rhs.Valid()
    ensures r.Valid() && (Allows(r, lhs) && Allows(r, rhs) <==> AllKept(lhs, rhs))
    ensures lhs.dims == [] ==> r == rhs
    ensures lhs.dims != [] == rhs.dims ==> r == lhs
    ensures |lhs.dims| != |rhs.dims| && lhs.dims != [] && rhs.dims != [] ==>
      r == Info(seq(Max(|lhs.dims|, |rhs.dims|), _ => DimInfo(1, 1, 1)), None)
    ensures lhs.dims != [] && |lhs.dims| == |rhs.dims| ==>
      r.constantValue == if lhs.constantValue == rhs.constantValue then lhs.constantValue else None
    ensures |lhs.dims| == |rhs.dims| ==> |r.dims| == |lhs.dims|
    ensures forall d :: 0 <= d < |r.dims| && |lhs.dims| == |rhs.dims| ==> r.dims[d] == JoinDim(lhs.dims[d], rhs.dims[d])
  {
    if |lhs.dims| == 0 {
      return rhs;
    }
    if |rhs.dims| == 0 {
      return lhs;
    }
    if |lhs.dims| != |rhs.dims| {
      var rank := Max(|lhs.dims|, |rhs.dims|);
      r := Info(seq(rank, _ => DimInfo(1, 1, 1)), None);
      forall line {
        NothingKnown(line);
      }
      return;
    }
    var dims: seq<DimInfo> := [];
    for d := 0 to |lhs.dims|
      invariant |dims| == d && forall e :: 0 <= e < d ==> dims[e] == JoinDim(lhs.dims[e], rhs.dims[e])
    {
      dims := dims + [JoinDim(lhs.dims[d], rhs.dims[d])];
    }
    var constantValue :=
      if lhs.constantValue.Some? && lhs.constantValue == rhs.constantValue then lhs.constantValue else None;
    r := Info(dims, constantValue);
    forall d | 0 <= d < |dims| ensures dims[d].Valid() {
      JoinDivides(lhs.dims[d], rhs.dims[d]);
    }
    forall d | 0 <= d < |dims|
      ensures Covers(dims[d], lhs.dims[d]) && Covers(dims[d], rhs.dims[d]) <==> BothKept(lhs.dims[d], rhs.dims[d]) {
      JoinExactly(lhs.dims[d], rhs.dims[d]);
    }
  }

  // ----- What a whole line gives

  lemma WholeLine(line: seq<int>, i: nat)
    requires i < |line| && line != []
    ensures Lead(i, |line|) == 0
  {
    LeadUnique(i, |line|, 0);
  }

  /** A contiguous line that starts at a multiple of `d`, seen in groups of a common divisor of `d` and its length. */
  lemma GroupStart(line: seq<int>, info: DimInfo, g: int, i: nat)
    requires info.Valid() && info.Describes(line) && i < |line| && 0 < g
    requires Divides(g, info.contiguity) && Divides(g, info.divisibility)
    ensures Divides(g, line[Lead(i, g)]) && line[i] == line[Lead(i, g)] + (i - Lead(i, g)) && i - Lead(i, g) < g
  {
    ContiguousInside(line, info.contiguity, g);
    DividesSame(g);
    AlignedInside(line, info.contiguity, info.divisibility, g, g);
    LeadIs(i, g);
  }

  /** A constant line is everywhere a multiple of its divisibility. */
  lemma ConstantLine(line: seq<int>, info: DimInfo, i: nat)
    requires info.Valid() && info.Describes(line) && i < |line| && info.constancy == |line|
    ensures line[i] == line[0] && Divides(info.divisibility, line[0])
  {
    WholeLine(line, i);
    assert Lead(0, info.contiguity) == 0;
  }

  // ----- Quotients, remainders and comparisons inside an aligned group

  /** Inside a group that starts at `a`, dividing by a multiple of the group's length always gives the same, and the
      remainders follow one another. */
  lemma GroupDivides(a: int, w: int, g: int, r: int)
    requires 0 < g && 0 < w && Divides(g, a) && Divides(g, w) && 0 <= r < g
    ensures (a + r) / w == a / w && (a + r) % w == a % w + r
  {
    var q, rest := a / w, a % w;
    assert a == w * q + rest;
    Multiple(w, q);
    DividesTransitive(g, w, w * q);
    DividesSum(g, a, w * q);
    MultiplesApart(g, rest, w);
    Commute(w, q);
    DivMod(q, w, rest + r);
  }

  /** Compared with a multiple of the group's length, all of the group is on the same side. */
  lemma GroupCompares(a: int, b: int, g: int, r: int)
    requires 0 < g && Divides(g, a) && Divides(g, b) && 0 <= r < g
    ensures a < b <==> a + r < b
  {
    if a < b {
      MultiplesApart(g, a, b);
    }
  }

  // ----- Division

  /** The group length that the rules use when one side is contiguous and the other constant along the dimension. */
  function GroupLength(contiguous: DimInfo, constant: DimInfo): nat {
    Gcd(Gcd(contiguous.contiguity, contiguous.divisibility), constant.divisibility)
  }

  lemma GroupLengthIs(contiguous: DimInfo, constant: DimInfo, e: int)
    requires contiguous.Valid() && constant.Valid() && 0 < e
    ensures Divides(e, GroupLength(contiguous, constant)) <==>
            Divides(e, contiguous.contiguity) && Divides(e, contiguous.divisibility) &&
            Divides(e, constant.divisibility)
  {
    GcdDivisors(e, contiguous.contiguity, contiguous.divisibility);
    GcdDivisors(e, Gcd(contiguous.contiguity, contiguous.divisibility), constant.divisibility);
  }

  function DivConstancy(lhs: DimInfo, rhs: DimInfo, size: nat): nat {
    var constancy := Gcd(lhs.constancy, rhs.constancy);
    if lhs.contiguity == size && rhs.constancy == size then Max(constancy, GroupLength(lhs, rhs)) else constancy
  }

  function Abs(b: int): int {
    if b < 0 then -b else b
  }

  /** Division and remainder of the source language, towards zero. */
  function TruncDiv(a: int, b: int): int
    requires b != 0
  {
    var q := Abs(a) / Abs(b);
    if (a < 0) == (b < 0) then q else -q
  }

  function TruncRem(a: int, b: int): int
    requires b != 0
  {
    a - b * TruncDiv(a, b)
  }

  ghost predicate NonZero(w: seq<int>) {
    forall i :: 0 <= i < |w| ==> w[i] != 0
  }

  ghost function Quotients(lhs: seq<int>, rhs: seq<int>): (r: seq<int>)
    requires |lhs| == |rhs| && NonZero(rhs)
  {
    seq(|lhs|, i requires 0 <= i < |lhs| => TruncDiv(lhs[i], rhs[i]))
  }

  lemma PointwiseConstant(lhs: DimInfo, rhs: DimInfo, v: seq<int>, w: seq<int>)
    requires lhs.Valid() && rhs.Valid() && lhs.Describes(v) && rhs.Describes(w)
    ensures 0 < Gcd(lhs.constancy, rhs.constancy)
    ensures Constant(v, Gcd(lhs.constancy, rhs.constancy)) && Constant(w, Gcd(lhs.constancy, rhs.constancy))
  {
    GcdDivides(lhs.constancy, rhs.constancy);
    ConstantInside(v, lhs.constancy, Gcd(lhs.constancy, rhs.constancy));
    ConstantInside(w, rhs.constancy, Gcd(lhs.constancy, rhs.constancy));
  }

  /** A contiguous line against a constant one, at `i` and at the start of the group of `i`. */
  lemma AgainstConstant(lhs: DimInfo, rhs: DimInfo, v: seq<int>, w: seq<int>, i: nat)
    requires lhs.Valid() && rhs.Valid() && lhs.Describes(v) && rhs.Describes(w) && i < |v| == |w|
    requires rhs.constancy == |w|
    ensures var g := GroupLength(lhs, rhs);
            && 0 < g && Divides(g, v[Lead(i, g)]) && Divides(g, w[i]) && w[i] == w[Lead(i, g)]
            && v[i] == v[Lead(i, g)] + (i - Lead(i, g)) && i - Lead(i, g) < g
  {
    var g := GroupLength(lhs, rhs);
    Gcd3Divides(lhs.contiguity, lhs.divisibility, rhs.divisibility);
    GroupStart(v, lhs, g, i);
    ConstantLine(w, rhs, i);
    ConstantLine(w, rhs, Lead(i, g));
    DividesTransitive(g, rhs.divisibility, w[0]);
  }

  /** Truncated quotients inside a group that starts at `a`: they change exactly after a negative multiple of the
      divisor. */
  lemma GroupTruncates(a: int, w: int, g: int, r: int)
    requires 0 < g && w != 0 && Divides(g, a) && Divides(g, w) && 0 <= r < g
    ensures TruncDiv(a + r, w) == TruncDiv(a, w) <==> r == 0 || !(a < 0 && Divides(Abs(w), a))
  {
    Negated(g, w);
    if 0 <= a {
      GroupDivides(a, Abs(w), g, r);
    } else {
      Multiple(g, 0);
      MultiplesApart(g, a, 0);
      Negated(g, a);
      Negated(Abs(w), a);
      BelowMultiple(-a, Abs(w), g, r);
    }
  }

  lemma BelowMultiple(b: int, w: int, g: int, r: int)
    requires 0 < g && 0 < w && Divides(g, b) && Divides(g, w) && 0 <= r < g <= b
    ensures (b - r) / w == b / w <==> r == 0 || !Divides(w, b)
  {
    var q, rest := b / w, b % w;
    assert b == w * q + rest;
    if rest == 0 {
      if 0 < r {
        Multiple(g, 0);
        MultiplesApart(g, 0, w);
        assert w * (q - 1) == w * q - w;
        Commute(w, q - 1);
        DivMod(q - 1, w, w - r);
      }
    } else {
      Multiple(w, q);
      DividesTransitive(g, w, w * q);
      DividesSum(g, b, w * q);
      Multiple(g, 0);
      MultiplesApart(g, 0, rest);
      Commute(w, q);
      DivMod(q, w, rest - r);
    }
  }

  /** No group of more than one element starts at a negative multiple of the divisor. */
  ghost predicate NoNegativeMultiple(v: seq<int>, w: seq<int>, g: int)
    requires |v| == |w| && 0 < g && NonZero(w)
  {
    g == 1 || forall i: nat :: i < |v| ==> !(v[Lead(i, g)] < 0 && Divides(Abs(w[i]), v[Lead(i, g)]))
  }

  lemma SecondOfGroup(v: seq<int>, c: int, g: int, i: nat)
    requires 0 < c == |v| && 1 < g && Divides(g, c) && i < |v|
    ensures Lead(i, g) + 1 < |v| && Lead(Lead(i, g) + 1, g) == Lead(i, g)
  {
    LeadIs(i, g);
    MultiplesApart(g, Lead(i, g), c);
    LeadUnique(Lead(i, g) + 1, g, Lead(i, g));
  }

  /** The group rule is exact: the quotients are constant on its groups if and only if no group starts at a negative
      multiple of the divisor. */
  lemma QuotientsExactly(lhs: DimInfo, rhs: DimInfo, v: seq<int>, w: seq<int>)
    requires lhs.Valid() && rhs.Valid() && lhs.Describes(v) && rhs.Describes(w)
    requires |v| == |w| == lhs.contiguity == rhs.constancy && NonZero(w)
    ensures 0 < GroupLength(lhs, rhs)
    ensures Constant(Quotients(v, w), GroupLength(lhs, rhs)) <==> NoNegativeMultiple(v, w, GroupLength(lhs, rhs))
  {
    var g, q := GroupLength(lhs, rhs), Quotients(v, w);
    Gcd3Divides(lhs.contiguity, lhs.divisibility, rhs.divisibility);
    forall i: nat | i < |v|
      ensures q[i] == q[Lead(i, g)] <==> i == Lead(i, g) || !(v[Lead(i, g)] < 0 && Divides(Abs(w[i]), v[Lead(i, g)])) {
      AgainstConstant(lhs, rhs, v, w, i);
      GroupTruncates(v[Lead(i, g)], w[i], g, i - Lead(i, g));
    }
    if Constant(q, g) && g != 1 {
      forall i: nat | i < |v| ensures !(v[Lead(i, g)] < 0 && Divides(Abs(w[i]), v[Lead(i, g)])) {
        SecondOfGroup(v, lhs.contiguity, g, i);
        AgainstConstant(lhs, rhs, v, w, i);
        AgainstConstant(lhs, rhs, v, w, Lead(i, g) + 1);
      }
    }
    if NoNegativeMultiple(v, w, g) && g == 1 {
      forall i: nat | i < |v| ensures Lead(i, g) == i {
        LeadUnique(i, 1, i);
      }
    }
  }

  /** The group rule applies and is sound for these lines, or it does not apply. */
  ghost predicate GroupsDivide(lhs: DimInfo, rhs: DimInfo, v: seq<int>, w: seq<int>)
    requires lhs.Valid() && rhs.Valid() && |v| == |w| && NonZero(w)
  {
    Gcd3Divides(lhs.contiguity, lhs.divisibility, rhs.divisibility);
    lhs.contiguity == |v| && rhs.constancy == |w| ==> NoNegativeMultiple(v, w, GroupLength(lhs, rhs))
  }

  /** Quotients repeat as often as the rule says if and only if the group rule is sound for the lines, or does not
      apply. */
  lemma DivConstancyExactly(lhs: DimInfo, rhs: DimInfo, v: seq<int>, w: seq<int>)
    requires lhs.Valid() && rhs.Valid() && lhs.Describes(v) && rhs.Describes(w) && |v| == |w| && NonZero(w)
    ensures 0 < DivConstancy(lhs, rhs, |v|)
    ensures Constant(Quotients(v, w), DivConstancy(lhs, rhs, |v|)) <==> GroupsDivide(lhs, rhs, v, w)
  {
    PointwiseConstant(lhs, rhs, v, w);
    if lhs.contiguity == |v| && rhs.constancy == |w| {
      QuotientsExactly(lhs, rhs, v, w);
      WholeRunVaries(lhs, rhs, v);
    }
  }

  /** A line that is one run has no constancy that could exceed the group length. */
  lemma WholeRunVaries(lhs: DimInfo, rhs: DimInfo, line: seq<int>)
    requires lhs.Valid() && rhs.Valid() && lhs.Describes(line) && lhs.contiguity == |line| == rhs.constancy
    ensures 0 < GroupLength(lhs, rhs)
    ensures Gcd(lhs.constancy, rhs.constancy) == 1
  {
    Gcd3Divides(lhs.contiguity, lhs.divisibility, rhs.divisibility);
    GcdDivides(lhs.constancy, rhs.constancy);
    assert lhs.constancy == 1 || rhs.constancy == 1 by {
      if lhs.contiguity > 1 && lhs.constancy > 1 {
        OneElement(lhs, line);
      }
    }
    Antisymmetric(Gcd(lhs.constancy, rhs.constancy), 1);
  }

  /** In particular they do for dividends that are not negative. */
  lemma DivConstancyOfNaturals(lhs: DimInfo, rhs: DimInfo, v: seq<int>, w: seq<int>)
    requires lhs.Valid() && rhs.Valid() && lhs.Describes(v) && rhs.Describes(w) && |v| == |w| && NonZero(w)
    requires forall i :: 0 <= i < |v| ==> 0 <= v[i]
    ensures 0 < DivConstancy(lhs, rhs, |v|) && Constant(Quotients(v, w), DivConstancy(lhs, rhs, |v|))
  {
    DivConstancyExactly(lhs, rhs, v, w);
  }

  lemma NotConstant(line: seq<int>, k: nat)
    requires 1 < k && 1 < |line| && line[0] != line[1]
    ensures !Constant(line, k)
  {
    LeadUnique(1, k, 0);
  }

  /** With a negative dividend they need not: -8, -7, -6, -5 divided by 4 truncates to -2, -1, -1, -1. */
  lemma DivConstancyFailsBelowZero(v: seq<int>, w: seq<int>)
    requires v == [-8, -7, -6, -5] && w == [4, 4, 4, 4]
    ensures DimInfo(4, 4, 1).Describes(v) && DimInfo(1, 4, 4).Describes(w)
    ensures DivConstancy(DimInfo(4, 4, 1), DimInfo(1, 4, 4), 4) == 4
    ensures !Constant(Quotients(v, w), 4)
  {
    OneRun(v, 4, 4);
    OneValue(w, 4, 4);
    GcdSame(4);
    assert Gcd(1, 4) == 1;
    NotConstant(Quotients(v, w), 4);
  }

  // ----- Remainder

  function RemContiguity(lhs: DimInfo, rhs: DimInfo, size: nat): nat {
    if lhs.contiguity == size && rhs.constancy == size then GroupLength(lhs, rhs) else 1
  }

  ghost function Remainders(lhs: seq<int>, rhs: seq<int>): (r: seq<int>)
    requires |lhs| == |rhs| && NonZero(rhs)
  {
    seq(|lhs|, i requires 0 <= i < |lhs| => TruncRem(lhs[i], rhs[i]))
  }

  /** Remainders run on as long as the rule says, under the condition under which quotients are constant. */
  lemma RemainderFollows(lhs: DimInfo, rhs: DimInfo, v: seq<int>, w: seq<int>)
    requires lhs.Valid() && rhs.Valid() && lhs.Describes(v) && rhs.Describes(w)
    requires |v| == |w| == lhs.contiguity == rhs.constancy && NonZero(w)
    ensures 0 < GroupLength(lhs, rhs)
    ensures Contiguous(Remainders(v, w), GroupLength(lhs, rhs)) <==> Constant(Quotients(v, w), GroupLength(lhs, rhs))
  {
    var g := GroupLength(lhs, rhs);
    Gcd3Divides(lhs.contiguity, lhs.divisibility, rhs.divisibility);
    var q, m := Quotients(v, w), Remainders(v, w);
    forall i: nat | i < |v| ensures m[i] == m[Lead(i, g)] + (i - Lead(i, g)) <==> q[i] == q[Lead(i, g)] {
      AgainstConstant(lhs, rhs, v, w, i);
      SameQuotient(w[i], q[i], q[Lead(i, g)]);
    }
  }

  /** The same for remainders. */
  lemma RemContiguityExactly(lhs: DimInfo, rhs: DimInfo, v: seq<int>, w: seq<int>)
    requires lhs.Valid() && rhs.Valid() && lhs.Describes(v) && rhs.Describes(w) && |v| == |w| && NonZero(w)
    ensures 0 < RemContiguity(lhs, rhs, |v|)
    ensures Contiguous(Remainders(v, w), RemContiguity(lhs, rhs, |v|)) <==> GroupsDivide(lhs, rhs, v, w)
  {
    if lhs.contiguity == |v| && rhs.constancy == |w| {
      QuotientsExactly(lhs, rhs, v, w);
      RemainderFollows(lhs, rhs, v, w);
    } else {
      forall i: nat | i < |v| ensures Lead(i, 1) == i {
        LeadUnique(i, 1, i);
      }
    }
  }

  lemma RemContiguityOfNaturals(lhs: DimInfo, rhs: DimInfo, v: seq<int>, w: seq<int>)
    requires lhs.Valid() && rhs.Valid() && lhs.Describes(v) && rhs.Describes(w) && |v| == |w| && NonZero(w)
    requires forall i :: 0 <= i < |v| ==> 0 <= v[i]
    ensures 0 < RemContiguity(lhs, rhs, |v|) && Contiguous(Remainders(v, w), RemContiguity(lhs, rhs, |v|))
  {
    RemContiguityExactly(lhs, rhs, v, w);
  }

  /** The remainders at the same input are 0, -3, -2, -1. */
  lemma RemContiguityFailsBelowZero(v: seq<int>, w: seq<int>)
    requires v == [-8, -7, -6, -5] && w == [4, 4, 4, 4]
    ensures DimInfo(4, 4, 1).Describes(v) && DimInfo(1, 4, 4).Describes(w)
    ensures RemContiguity(DimInfo(4, 4, 1), DimInfo(1, 4, 4), 4) == 4
    ensures !Contiguous(Remainders(v, w), 4)
  {
    DivConstancyFailsBelowZero(v, w);
    GcdSame(4);
    RemainderFollows(DimInfo(4, 4, 1), DimInfo(1, 4, 4), v, w);
  }

  // ----- Comparison

  datatype Predicate = Eq | Ne | Lt | Le | Gt | Ge {
    predicate Holds(a: int, b: int) {
      match this
      case Eq => a == b
      case Ne => a != b
      case Lt => a < b
      case Le => a <= b
      case Gt => a > b
      case Ge => a >= b
    }
  }

  /** All elements have the constant value, if one is known. */
  ghost predicate HasValue(line: seq<int>, constantValue: Option<int>) {
    constantValue.Some? ==> forall i :: 0 <= i < |line| ==> line[i] == constantValue.value
  }

  /** The constancy of the result when no constant values are known. */
  function PartialConstancy(p: Predicate, lhs: DimInfo, rhs: DimInfo, size: nat): nat {
    var constHint := Gcd(lhs.constancy, rhs.constancy);
    if (p.Gt? || p.Le?) && lhs.constancy == size then
      Max(constHint, Gcd(Gcd(rhs.contiguity, lhs.divisibility), rhs.divisibility))
    else if (p.Lt? || p.Ge?) && rhs.constancy == size then
      Max(constHint, Gcd(Gcd(lhs.contiguity, lhs.divisibility), rhs.divisibility))
    else constHint
  }

  function CmpConstancy(p: Predicate, lhs: DimInfo, lhsValue: Option<int>, rhs: DimInfo, rhsValue: Option<int>,
                        size: nat): nat {
    if lhsValue.Some? && rhsValue.Some? then size else PartialConstancy(p, lhs, rhs, size)
  }

  function CmpValue(p: Predicate, lhsValue: Option<int>, rhsValue: Option<int>): Option<int> {
    if lhsValue.Some? && rhsValue.Some? then Some(if p.Holds(lhsValue.value, rhsValue.value) then 1 else 0) else None
  }

  ghost function Compared(p: Predicate, lhs: seq<int>, rhs: seq<int>): seq<int>
    requires |lhs| == |rhs|
  {
    seq(|lhs|, i requires 0 <= i < |lhs| => if p.Holds(lhs[i], rhs[i]) then 1 else 0)
  }

  /** What the rule claims: the whole line for constant values, otherwise what repeats on both sides, and where one side
      is constant and the other may cross it only in one direction, whole groups. */
  lemma CmpConstancyClaims(p: Predicate, lhs: DimInfo, lhsValue: Option<int>, rhs: DimInfo, rhsValue: Option<int>,
                           size: nat, e: int)
    requires lhs.Valid() && rhs.Valid() && 0 < e
    ensures lhsValue.Some? && rhsValue.Some? ==> CmpConstancy(p, lhs, lhsValue, rhs, rhsValue, size) == size
    ensures !(lhsValue.Some? && rhsValue.Some?) &&
            ((Divides(e, lhs.constancy) && Divides(e, rhs.constancy))
             || ((p == Gt || p == Le) && lhs.constancy == size && Divides(e, rhs.contiguity)
                 && Divides(e, lhs.divisibility) && Divides(e, rhs.divisibility))
             || ((p == Lt || p == Ge) && rhs.constancy == size && Divides(e, lhs.contiguity)
                 && Divides(e, lhs.divisibility) && Divides(e, rhs.divisibility))) ==>
            e <= CmpConstancy(p, lhs, lhsValue, rhs, rhsValue, size)
  {
    DivisorsAreSmall(e, lhs.constancy, rhs.constancy);
    GcdDivisors(e, rhs.contiguity, lhs.divisibility);
    GcdDivisors(e, lhs.contiguity, lhs.divisibility);
    DivisorsAreSmall(e, Gcd(rhs.contiguity, lhs.divisibility), rhs.divisibility);
    DivisorsAreSmall(e, Gcd(lhs.contiguity, lhs.divisibility), rhs.divisibility);
  }

  lemma DivisorsAreSmall(e: int, a: nat, b: nat)
    requires 0 < e && 0 < a && 0 < b
    ensures Divides(e, a) && Divides(e, b) ==> e <= Gcd(a, b)
  {
    GcdDivisors(e, a, b);
    if Divides(e, Gcd(a, b)) {
      Multiple(e, 0);
      MultiplesApart(e, 0, Gcd(a, b));
    }
  }

  /** Comparison results repeat as often as the rule says, and have the value it says. */
  lemma CmpConstancyIsSound(p: Predicate, lhs: DimInfo, lhsValue: Option<int>, rhs: DimInfo, rhsValue: Option<int>,
                            v: seq<int>, w: seq<int>)
    requires lhs.Valid() && rhs.Valid() && lhs.Describes(v) && rhs.Describes(w) && |v| == |w| && v != []
    requires HasValue(v, lhsValue) && HasValue(w, rhsValue)
    ensures 0 < CmpConstancy(p, lhs, lhsValue, rhs, rhsValue, |v|)
    ensures Constant(Compared(p, v, w), CmpConstancy(p, lhs, lhsValue, rhs, rhsValue, |v|))
    ensures HasValue(Compared(p, v, w), CmpValue(p, lhsValue, rhsValue))
  {
    if lhsValue.None? || rhsValue.None? {
      PartialConstancyIsSound(p, lhs, rhs, v, w);
    }
  }

  lemma PartialConstancyIsSound(p: Predicate, lhs: DimInfo, rhs: DimInfo, v: seq<int>, w: seq<int>)
    requires lhs.Valid() && rhs.Valid() && lhs.Describes(v) && rhs.Describes(w) && |v| == |w|
    ensures 0 < PartialConstancy(p, lhs, rhs, |v|) && Constant(Compared(p, v, w), PartialConstancy(p, lhs, rhs, |v|))
  {
    PointwiseConstant(lhs, rhs, v, w);
    Gcd3Divides(lhs.contiguity, lhs.divisibility, rhs.divisibility);
    Gcd3Divides(rhs.contiguity, lhs.divisibility, rhs.divisibility);
    if (p.Gt? || p.Le?) && lhs.constancy == |v| {
      var g := Gcd(Gcd(rhs.contiguity, lhs.divisibility), rhs.divisibility);
      forall i: nat | i < |v| ensures Compared(p, v, w)[i] == Compared(p, v, w)[Lead(i, g)] {
        GroupStart(w, rhs, g, i);
        ConstantLine(v, lhs, i);
        ConstantLine(v, lhs, Lead(i, g));
        DividesTransitive(g, lhs.divisibility, v[0]);
        GroupCompares(w[Lead(i, g)], v[0], g, i - Lead(i, g));
      }
    } else if (p.Lt? || p.Ge?) && rhs.constancy == |w| {
      var g := GroupLength(lhs, rhs);
      forall i: nat | i < |v| ensures Compared(p, v, w)[i] == Compared(p, v, w)[Lead(i, g)] {
        AgainstConstant(lhs, rhs, v, w, i);
        GroupCompares(v[Lead(i, g)], w[i], g, i - Lead(i, g));
      }
    }
  }
}
