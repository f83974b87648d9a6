/** Factoring a permutation of register and lane bits into a register permutation, a lane permutation and disjoint
    swaps of a register bit with a lane bit. Bits are numbered flat: the registers first, then the lanes. */
module CycleWalk {
  /** One to one, hence onto. */
  ghost predicate IsPermutation(p: seq<nat>) {
    && (forall i :: 0 <= i < |p| ==> p[i] < |p|)
    && (forall i, j :: 0 <= i < j < |p| ==> p[i] != p[j])
  }

  // ----- What the factors mean

  /** The bit after the register permutation. */
  function ThroughReg(nReg: nat, reg: seq<nat>, f: nat): nat {
    if f < nReg && f < |reg| then reg[f] else f
  }

  function ThroughLane(nReg: nat, lane: seq<nat>, f: nat): nat {
    if nReg <= f < nReg + |lane| then nReg + lane[f - nReg] else f
  }

  /** The bit after one swap of register `t.0` with lane `t.1`. */
  function ThroughSwap(nReg: nat, t: (nat, nat), f: nat): nat {
    if f == t.0 then nReg + t.1 else if f == nReg + t.1 then t.0 else f
  }

  function ThroughMixed(nReg: nat, mixed: seq<(nat, nat)>, f: nat): nat {
    if mixed == [] then f else ThroughSwap(nReg, mixed[0], ThroughMixed(nReg, mixed[1..], f))
  }

  /** The swaps are between a register and a lane, and no two share either. */
  ghost predicate Disjoint(nReg: nat, nLane: nat, mixed: seq<(nat, nat)>) {
    && (forall t :: 0 <= t < |mixed| ==> mixed[t].0 < nReg && mixed[t].1 < nLane)
    && (forall t, u :: 0 <= t < u < |mixed| ==> mixed[t].0 != mixed[u].0 && mixed[t].1 != mixed[u].1)
  }

  lemma {:induction false} MixedFixes(nReg: nat, mixed: seq<(nat, nat)>, f: nat)
    requires forall t :: 0 <= t < |mixed| ==> mixed[t].0 != f && nReg + mixed[t].1 != f
    ensures ThroughMixed(nReg, mixed, f) == f
  {
    if mixed != [] {
      MixedFixes(nReg, mixed[1..], f);
    }
  }

  lemma {:induction false} MixedSwaps(nReg: nat, nLane: nat, mixed: seq<(nat, nat)>, t: nat)
    requires Disjoint(nReg, nLane, mixed) && t < |mixed|
    ensures ThroughMixed(nReg, mixed, mixed[t].0) == nReg + mixed[t].1
    ensures ThroughMixed(nReg, mixed, nReg + mixed[t].1) == mixed[t].0
  {
    if t == 0 {
      MixedFixes(nReg, mixed[1..], mixed[0].0);
      MixedFixes(nReg, mixed[1..], nReg + mixed[0].1);
    } else {
      MixedSwaps(nReg, nLane, mixed[1..], t - 1);
    }
  }

  // ----- What the walk has recorded

  /** The records so far. `done` holds the bits already walked. Swap `t` stands for a run of lanes that was cut out of
      its cycle: entered from register `starts[t]` and left from lane `ends[t]`. `open` is the register from which a run
      not yet left was entered, if any. */
  ghost predicate Recorded(p: seq<nat>, nReg: nat, reg: seq<int>, lane: seq<int>, mixed: seq<(nat, nat)>,
                           starts: seq<nat>, ends: seq<nat>, done: set<nat>, open: int) {
    && |reg| == nReg && nReg + |lane| == |p|
    && |mixed| == |starts| == |ends|
    && (forall t :: 0 <= t < |mixed| ==> RunCut(p, nReg, reg, lane, mixed[t], starts[t], ends[t], done))
    && (forall t, u :: 0 <= t < u < |mixed| ==> starts[t] != starts[u] && ends[t] != ends[u])
    && (forall f :: f in done ==> f < |p| && EdgeRecorded(p, nReg, reg, lane, starts, ends, open, f))
  }

  ghost predicate RunCut(p: seq<nat>, nReg: nat, reg: seq<int>, lane: seq<int>, swap: (nat, nat),
                         start: nat, end: nat, done: set<nat>)
    requires |reg| == nReg && nReg + |lane| == |p|
  {
    && start in done && start < nReg <= p[start] == nReg + swap.1
    && end in done && nReg <= end < |p| && p[end] == swap.0 < nReg
    && reg[start] == swap.0 && lane[end - nReg] == swap.1
  }

  ghost predicate EdgeRecorded(p: seq<nat>, nReg: nat, reg: seq<int>, lane: seq<int>, starts: seq<nat>, ends: seq<nat>,
                               open: int, f: nat)
    requires |reg| == nReg && nReg + |lane| == |p| && f < |p|
  {
    if f < nReg then
      if p[f] < nReg then reg[f] == p[f] else f == open || f in starts
    else
      if p[f] < nReg then f in ends else lane[f - nReg] == p[f] - nReg
  }

  lemma RecordReg(p: seq<nat>, nReg: nat, reg: seq<int>, lane: seq<int>, mixed: seq<(nat, nat)>, starts: seq<nat>,
                  ends: seq<nat>, done: set<nat>, f: nat)
    requires Recorded(p, nReg, reg, lane, mixed, starts, ends, done, -1)
    requires f < nReg && f !in done && p[f] < nReg
    ensures Recorded(p, nReg, reg[f := p[f]], lane, mixed, starts, ends, done + {f}, -1)
  {
  }

  lemma RecordLane(p: seq<nat>, nReg: nat, reg: seq<int>, lane: seq<int>, mixed: seq<(nat, nat)>, starts: seq<nat>,
                   ends: seq<nat>, done: set<nat>, open: int, f: nat)
    requires Recorded(p, nReg, reg, lane, mixed, starts, ends, done, open)
    requires nReg <= f < |p| && f !in done && nReg <= p[f]
    ensures Recorded(p, nReg, reg, lane[f - nReg := p[f] - nReg], mixed, starts, ends, done + {f}, open)
  {
  }

  lemma RecordEntry(p: seq<nat>, nReg: nat, reg: seq<int>, lane: seq<int>, mixed: seq<(nat, nat)>, starts: seq<nat>,
                    ends: seq<nat>, done: set<nat>, f: nat)
    requires Recorded(p, nReg, reg, lane, mixed, starts, ends, done, -1)
    requires f < nReg && f !in done && nReg <= p[f]
    ensures Recorded(p, nReg, reg, lane, mixed, starts, ends, done + {f}, f)
  {
  }

  /** Leaving a run of lanes from `f` for a register: the run closes on itself and the swap makes up for it. */
  lemma RecordExit(p: seq<nat>, nReg: nat, reg: seq<int>, lane: seq<int>, mixed: seq<(nat, nat)>, starts: seq<nat>,
                   ends: seq<nat>, done: set<nat>, open: nat, f: nat)
    requires Recorded(p, nReg, reg, lane, mixed, starts, ends, done, open)
    requires nReg <= f < |p| && f !in done && p[f] < nReg
    requires open in done && open < nReg <= p[open] < |p| && open !in starts
    ensures Recorded(p, nReg, reg[open := p[f]], lane[f - nReg := p[open] - nReg], mixed + [(p[f], p[open] - nReg)],
                     starts + [open], ends + [f], done + {f}, -1)
  {
    var r, l := reg[open := p[f]], lane[f - nReg := p[open] - nReg];
    assert (starts + [open])[|starts|] == open && (ends + [f])[|ends|] == f;
    forall t | 0 <= t < |mixed| ensures RunCut(p, nReg, r, l, mixed[t], starts[t], ends[t], done + {f}) {
      assert RunCut(p, nReg, reg, lane, mixed[t], starts[t], ends[t], done);
    }
    forall g | g in done + {f} ensures EdgeRecorded(p, nReg, r, l, starts + [open], ends + [f], -1, g) {
      if g in done {
        assert EdgeRecorded(p, nReg, reg, lane, starts, ends, open, g);
        assert g in starts ==> g in starts + [open];
        assert g in ends ==> g in ends + [f];
      }
    }
  }

  // ----- The finished records factor the permutation

  ghost function Below(n: nat): set<nat> {
    if n == 0 then {} else Below(n - 1) + {n - 1}
  }

  lemma {:induction false} BelowIs(n: nat)
    ensures forall f: nat :: f in Below(n) <==> f < n
  {
    if n > 0 {
      BelowIs(n - 1);
    }
  }

  ghost predicate Complete(p: seq<nat>, nReg: nat, reg: seq<int>, lane: seq<int>, mixed: seq<(nat, nat)>,
                           starts: seq<nat>, ends: seq<nat>) {
    Recorded(p, nReg, reg, lane, mixed, starts, ends, Below(|p|), -1)
  }

  lemma CompleteAt(p: seq<nat>, nReg: nat, reg: seq<int>, lane: seq<int>, mixed: seq<(nat, nat)>, starts: seq<nat>,
                   ends: seq<nat>, f: nat)
    requires Complete(p, nReg, reg, lane, mixed, starts, ends) && f < |p|
    ensures EdgeRecorded(p, nReg, reg, lane, starts, ends, -1, f)
  {
    BelowIs(|p|);
  }

  lemma RegIsPermutation(p: seq<nat>, nReg: nat, reg: seq<int>, lane: seq<int>, mixed: seq<(nat, nat)>,
                         starts: seq<nat>, ends: seq<nat>)
    requires IsPermutation(p) && Complete(p, nReg, reg, lane, mixed, starts, ends)
    ensures forall i :: 0 <= i < nReg ==> 0 <= reg[i] < nReg
    ensures forall i, j :: 0 <= i < j < nReg ==> reg[i] != reg[j]
  {
    forall i | 0 <= i < nReg ensures 0 <= reg[i] < nReg {
      var g := RegPredecessor(p, nReg, reg, lane, mixed, starts, ends, i);
    }
    forall i, j | 0 <= i < j < nReg ensures reg[i] != reg[j] {
      var g := RegPredecessor(p, nReg, reg, lane, mixed, starts, ends, i);
      var h := RegPredecessor(p, nReg, reg, lane, mixed, starts, ends, j);
    }
  }

  /** The bit that really precedes register `reg[i]` in its cycle: `i` itself or the last lane of the run after it. */
  ghost predicate RegSource(p: seq<nat>, nReg: nat, reg: seq<int>, starts: seq<nat>, ends: seq<nat>, i: nat, g: nat) {
    && i < |reg| && g < |p| && p[g] == reg[i] && reg[i] < nReg
    && (g == i < nReg || (nReg <= g && exists t :: 0 <= t < |starts| && t < |ends| && starts[t] == i && ends[t] == g))
  }

  lemma RegPredecessor(p: seq<nat>, nReg: nat, reg: seq<int>, lane: seq<int>, mixed: seq<(nat, nat)>, starts: seq<nat>,
                       ends: seq<nat>, i: nat) returns (g: nat)
    requires Complete(p, nReg, reg, lane, mixed, starts, ends) && i < nReg
    ensures RegSource(p, nReg, reg, starts, ends, i, g)
  {
    CompleteAt(p, nReg, reg, lane, mixed, starts, ends, i);
    if p[i] < nReg {
      g := i;
    } else {
      var t :| 0 <= t < |starts| && starts[t] == i;
      g := ends[t];
    }
  }

  /** The bit that really precedes lane `lane[i]`: lane `i` or the register from which the run was entered. */
  ghost predicate LaneSource(p: seq<nat>, nReg: nat, lane: seq<int>, starts: seq<nat>, ends: seq<nat>, i: nat, g: nat) {
    && i < |lane| && g < |p| && p[g] - nReg == lane[i] && nReg <= p[g]
    && (g == nReg + i
        || (g < nReg && exists t :: 0 <= t < |starts| && t < |ends| && starts[t] == g && ends[t] == nReg + i))
  }

  lemma LanePredecessor(p: seq<nat>, nReg: nat, reg: seq<int>, lane: seq<int>, mixed: seq<(nat, nat)>, starts: seq<nat>,
                        ends: seq<nat>, i: nat) returns (g: nat)
    requires Complete(p, nReg, reg, lane, mixed, starts, ends) && i < |lane|
    ensures LaneSource(p, nReg, lane, starts, ends, i, g)
  {
    CompleteAt(p, nReg, reg, lane, mixed, starts, ends, nReg + i);
    if nReg <= p[nReg + i] {
      g := nReg + i;
    } else {
      var t :| 0 <= t < |ends| && ends[t] == nReg + i;
      g := starts[t];
    }
  }

  lemma LaneIsPermutation(p: seq<nat>, nReg: nat, reg: seq<int>, lane: seq<int>, mixed: seq<(nat, nat)>,
                          starts: seq<nat>, ends: seq<nat>)
    requires IsPermutation(p) && Complete(p, nReg, reg, lane, mixed, starts, ends)
    ensures forall i :: 0 <= i < |lane| ==> 0 <= lane[i] < |lane|
    ensures forall i, j :: 0 <= i < j < |lane| ==> lane[i] != lane[j]
  {
    forall i | 0 <= i < |lane| ensures 0 <= lane[i] < |lane| {
      var g := LanePredecessor(p, nReg, reg, lane, mixed, starts, ends, i);
    }
    forall i, j | 0 <= i < j < |lane| ensures lane[i] != lane[j] {
      var g := LanePredecessor(p, nReg, reg, lane, mixed, starts, ends, i);
      var h := LanePredecessor(p, nReg, reg, lane, mixed, starts, ends, j);
    }
  }

  lemma SwapsAreDisjoint(p: seq<nat>, nReg: nat, reg: seq<int>, lane: seq<int>, mixed: seq<(nat, nat)>,
                         starts: seq<nat>, ends: seq<nat>)
    requires IsPermutation(p) && Complete(p, nReg, reg, lane, mixed, starts, ends)
    ensures Disjoint(nReg, |lane|, mixed)
  {
    forall t | 0 <= t < |mixed| ensures mixed[t].0 < nReg && mixed[t].1 < |lane| {
      assert starts[t] < |p| && p[starts[t]] < |p|;
    }
    forall t, u | 0 <= t < u < |mixed| ensures mixed[t].0 != mixed[u].0 && mixed[t].1 != mixed[u].1 {
      assert p[starts[t]] != p[starts[u]] && p[ends[t]] != p[ends[u]];
    }
  }

  /** The three factors. */
  ghost predicate Factors(p: seq<nat>, nReg: nat, reg: seq<nat>, lane: seq<nat>, mixed: seq<(nat, nat)>) {
    && |reg| == nReg && nReg + |lane| == |p|
    && IsPermutation(reg) && IsPermutation(lane) && Disjoint(nReg, |lane|, mixed)
    && forall f :: 0 <= f < |p| ==> p[f] == ThroughMixed(nReg, mixed, ThroughLane(nReg, lane, ThroughReg(nReg, reg, f)))
  }

  /** Bits that stay among the registers or among the lanes. */
  lemma FactorsWithin(p: seq<nat>, nReg: nat, reg: seq<nat>, lane: seq<nat>, mixed: seq<(nat, nat)>,
                      starts: seq<nat>, ends: seq<nat>, f: nat)
    requires IsPermutation(p) && Complete(p, nReg, reg, lane, mixed, starts, ends) && f < |p|
    requires f < nReg <==> p[f] < nReg
    ensures p[f] == ThroughMixed(nReg, mixed, ThroughLane(nReg, lane, ThroughReg(nReg, reg, f)))
  {
    CompleteAt(p, nReg, reg, lane, mixed, starts, ends, f);
    NotSwapped(p, nReg, reg, lane, mixed, starts, ends, f);
    MixedFixes(nReg, mixed, p[f]);
  }

  /** Bits that cross over. */
  lemma FactorsEntry(p: seq<nat>, nReg: nat, reg: seq<nat>, lane: seq<nat>, mixed: seq<(nat, nat)>, start: nat,
                     end: nat, t: nat, done: set<nat>)
    requires |reg| == nReg && nReg + |lane| == |p| && t < |mixed| && Disjoint(nReg, |lane|, mixed)
    requires RunCut(p, nReg, reg, lane, mixed[t], start, end, done)
    ensures p[start] == ThroughMixed(nReg, mixed, ThroughLane(nReg, lane, ThroughReg(nReg, reg, start)))
  {
    MixedSwaps(nReg, |lane|, mixed, t);
  }

  lemma FactorsExit(p: seq<nat>, nReg: nat, reg: seq<nat>, lane: seq<nat>, mixed: seq<(nat, nat)>, start: nat,
                    end: nat, t: nat, done: set<nat>)
    requires |reg| == nReg && nReg + |lane| == |p| && t < |mixed| && Disjoint(nReg, |lane|, mixed)
    requires RunCut(p, nReg, reg, lane, mixed[t], start, end, done)
    ensures p[end] == ThroughMixed(nReg, mixed, ThroughLane(nReg, lane, ThroughReg(nReg, reg, end)))
  {
    MixedSwaps(nReg, |lane|, mixed, t);
  }

  lemma NotSwapped(p: seq<nat>, nReg: nat, reg: seq<nat>, lane: seq<nat>, mixed: seq<(nat, nat)>,
                   starts: seq<nat>, ends: seq<nat>, f: nat)
    requires IsPermutation(p) && Complete(p, nReg, reg, lane, mixed, starts, ends) && f < |p|
    requires f < nReg <==> p[f] < nReg
    ensures forall t :: 0 <= t < |mixed| ==> mixed[t].0 != p[f] && nReg + mixed[t].1 != p[f]
  {
    forall t | 0 <= t < |mixed| ensures mixed[t].0 != p[f] && nReg + mixed[t].1 != p[f] {
      assert RunCut(p, nReg, reg, lane, mixed[t], starts[t], ends[t], Below(|p|));
      assert p[starts[t]] != p[f] && p[ends[t]] != p[f];
    }
  }

  lemma CompleteFactors(p: seq<nat>, nReg: nat, reg: seq<nat>, lane: seq<nat>, mixed: seq<(nat, nat)>,
                        starts: seq<nat>, ends: seq<nat>)
    requires IsPermutation(p) && Complete(p, nReg, reg, lane, mixed, starts, ends)
    ensures Factors(p, nReg, reg, lane, mixed)
  {
    RegIsPermutation(p, nReg, reg, lane, mixed, starts, ends);
    LaneIsPermutation(p, nReg, reg, lane, mixed, starts, ends);
    SwapsAreDisjoint(p, nReg, reg, lane, mixed, starts, ends);
    forall f | 0 <= f < |p|
      ensures p[f] == ThroughMixed(nReg, mixed, ThroughLane(nReg, lane, ThroughReg(nReg, reg, f))) {
      CompleteAt(p, nReg, reg, lane, mixed, starts, ends, f);
      if f < nReg <==> p[f] < nReg {
        FactorsWithin(p, nReg, reg, lane, mixed, starts, ends, f);
      } else {
        var t :| 0 <= t < |mixed| && f == if f < nReg then starts[t] else ends[t];
        FactorsEntry(p, nReg, reg, lane, mixed, starts[t], ends[t], t, Below(|p|));
        FactorsExit(p, nReg, reg, lane, mixed, starts[t], ends[t], t, Below(|p|));
      }
    }
  }

  // ----- Walking one cycle

  /** Bits of whole cycles. */
  ghost predicate WholeCycles(p: seq<nat>, v: set<nat>) {
    && (forall f :: f in v ==> f < |p|)
    && (forall f :: 0 <= f < |p| ==> (p[f] in v <==> f in v))
  }

  /** `f` lies on the cycle of `entry`: in whatever whole cycles `entry` is in. */
  ghost predicate InCycle(p: seq<nat>, entry: nat, f: nat) {
    forall v: set<nat> :: WholeCycles(p, v) && entry in v ==> f in v
  }

  lemma InCycleNext(p: seq<nat>, entry: nat, f: nat)
    requires InCycle(p, entry, f) && f < |p|
    ensures InCycle(p, entry, p[f])
  {
  }

  /** The walk entered a new cycle at `entry`, has covered `trail` and stands at `curr`. */
  ghost predicate OnTrail(p: seq<nat>, before: set<nat>, trail: set<nat>, entry: nat, curr: nat) {
    && WholeCycles(p, before) && before !! trail
    && entry < |p| && curr < |p| && entry !in before && curr !in before
    && (if trail == {} then curr == entry else entry in trail && exists f :: f in trail && f < |p| && p[f] == curr)
    && (forall f :: f in trail ==> f < |p| && (p[f] in trail || p[f] == curr))
    && (forall f :: 0 <= f < |p| && p[f] in trail && p[f] != entry ==> f in trail)
  }

  /** The next bit is new unless the cycle is complete. */
  lemma NextOnTrail(p: seq<nat>, before: set<nat>, trail: set<nat>, entry: nat, curr: nat)
    requires IsPermutation(p) && OnTrail(p, before, trail, entry, curr) && curr !in trail
    ensures OnTrail(p, before, trail + {curr}, entry, p[curr])
    ensures p[curr] in trail + {curr} ==> p[curr] == entry
    ensures p[curr] == entry ==> WholeCycles(p, before + (trail + {curr}))
  {
    var next := p[curr];
    assert next in trail ==> next == entry;
    forall f | 0 <= f < |p| && p[f] in trail + {curr} && p[f] != entry ensures f in trail + {curr} {
      if p[f] == curr {
        var g :| g in trail && g < |p| && p[g] == curr;
        assert f == g;
      }
    }
    if next == entry {
      forall f | 0 <= f < |p| && p[f] == entry ensures f == curr {
      }
    }
  }

  /** The run of lanes the walk is in, if any. In a cycle with a register, the walk is among lanes exactly when it has
      left a register for them and not come back. */
  ghost predicate InRun(p: seq<nat>, nReg: nat, starts: seq<nat>, visited: set<nat>, entry: nat, curr: nat,
                        regStart: int, laneStart: int) {
    if curr < nReg || nReg <= entry then regStart == -1 else
      && 0 <= regStart < nReg && regStart < |p| && regStart in visited && regStart !in starts
      && 0 <= laneStart && p[regStart] == nReg + laneStart < |p|
  }

  /** Cuts the run of lanes that ends at `curr` out of its cycle. */
  method CutRun(p: seq<nat>, nReg: nat, curr: nat, ghost visited: set<nat>, regStart: nat, laneStart: nat,
                reg0: seq<int>, lane0: seq<int>, mixed0: seq<(nat, nat)>, ghost starts0: seq<nat>,
                ghost ends0: seq<nat>)
    returns (reg: seq<int>, lane: seq<int>, mixed: seq<(nat, nat)>, ghost starts: seq<nat>, ghost ends: seq<nat>)
    requires Recorded(p, nReg, reg0, lane0, mixed0, starts0, ends0, visited, regStart)
    requires nReg <= curr < |p| && curr !in visited && p[curr] < nReg
    requires regStart in visited && regStart < nReg <= p[regStart] == nReg + laneStart < |p| && regStart !in starts0
    ensures Recorded(p, nReg, reg, lane, mixed, starts, ends, visited + {curr}, -1)
    ensures reg == reg0[regStart := p[curr]] && lane == lane0[curr - nReg := laneStart]
    ensures mixed == mixed0 + [(p[curr], laneStart)]
  {
    RecordExit(p, nReg, reg0, lane0, mixed0, starts0, ends0, visited, regStart, curr);
    reg := reg0[regStart := p[curr]];
    lane := lane0[curr - nReg := laneStart];
    mixed := mixed0 + [(p[curr], laneStart)];
    starts, ends := starts0 + [regStart], ends0 + [curr];
  }

  /** Records the edge from `curr` to the bit after it. */
  method WalkEdge(p: seq<nat>, nReg: nat, ghost entry: nat, curr: nat, ghost visited: set<nat>,
                  regStart0: int, laneStart0: int, reg0: seq<int>, lane0: seq<int>, mixed0: seq<(nat, nat)>,
                  ghost starts0: seq<nat>, ghost ends0: seq<nat>)
    returns (regStart: int, laneStart: int, reg: seq<int>, lane: seq<int>, mixed: seq<(nat, nat)>,
             ghost starts: seq<nat>, ghost ends: seq<nat>)
    requires curr < |p| && p[curr] < |p| && curr !in visited
    requires nReg <= entry ==> nReg <= curr && nReg <= p[curr]
    requires Recorded(p, nReg, reg0, lane0, mixed0, starts0, ends0, visited, regStart0)
    requires InRun(p, nReg, starts0, visited, entry, curr, regStart0, laneStart0)
    ensures Recorded(p, nReg, reg, lane, mixed, starts, ends, visited + {curr}, regStart)
    ensures InRun(p, nReg, starts, visited + {curr}, entry, p[curr], regStart, laneStart)
  {
    var next := p[curr];
    regStart, laneStart, reg, lane, mixed, starts, ends := regStart0, laneStart0, reg0, lane0, mixed0, starts0, ends0;
    if curr < nReg && next < nReg {
      RecordReg(p, nReg, reg, lane, mixed, starts, ends, visited, curr);
      reg := reg[curr := next];
    } else if nReg <= curr && nReg <= next {
      RecordLane(p, nReg, reg, lane, mixed, starts, ends, visited, regStart, curr);
      lane := lane[curr - nReg := next - nReg];
    } else if curr < nReg {
      RecordEntry(p, nReg, reg, lane, mixed, starts, ends, visited, curr);
      regStart, laneStart := curr, next - nReg;
    } else {
      reg, lane, mixed, starts, ends :=
        CutRun(p, nReg, curr, visited, regStart, laneStart, reg, lane, mixed, starts, ends);
      regStart, laneStart := -1, -1;
    }
  }

  lemma TrailGrows(p: seq<nat>, before: set<nat>, trail: set<nat>, entry: nat, curr: nat)
    requires OnTrail(p, before, trail, entry, curr) && curr !in trail
    ensures before + trail <= Below(|p|)
    ensures Below(|p|) - (before + trail + {curr}) < Below(|p|) - (before + trail)
    ensures before + (trail + {curr}) == before + trail + {curr}
  {
    BelowIs(|p|);
    assert curr in Below(|p|) - (before + trail);
  }

  /** Walks the cycle of `entry`, all of it and nothing else. */
  method WalkCycle(p: seq<nat>, nReg: nat, entry: nat, visited0: set<nat>, reg0: seq<int>, lane0: seq<int>,
                   mixed0: seq<(nat, nat)>, ghost starts0: seq<nat>, ghost ends0: seq<nat>)
    returns (visited: set<nat>, reg: seq<int>, lane: seq<int>, mixed: seq<(nat, nat)>,
             ghost starts: seq<nat>, ghost ends: seq<nat>)
    requires IsPermutation(p) && nReg <= |p| && entry < |p| && entry !in visited0 && WholeCycles(p, visited0)
    requires Recorded(p, nReg, reg0, lane0, mixed0, starts0, ends0, visited0, -1)
    requires nReg <= entry ==> forall f: nat :: f < nReg ==> f in visited0
    ensures entry in visited && WholeCycles(p, visited)
    ensures forall f: nat :: f in visited <==> f in visited0 || InCycle(p, entry, f)
    ensures Recorded(p, nReg, reg, lane, mixed, starts, ends, visited, -1)
  {
    visited, reg, lane, mixed, starts, ends := visited0, reg0, lane0, mixed0, starts0, ends0;
    var curr: nat := entry;
    var regStart, laneStart := -1, -1;
    ghost var trail: set<nat> := {};
    while true
      invariant visited == visited0 + trail && OnTrail(p, visited0, trail, entry, curr) && curr !in trail
      invariant InCycle(p, entry, curr) && forall f :: f in trail ==> InCycle(p, entry, f)
      invariant Recorded(p, nReg, reg, lane, mixed, starts, ends, visited, regStart)
      invariant InRun(p, nReg, starts, visited, entry, curr, regStart, laneStart)
      decreases Below(|p|) - visited
    {
      NextOnTrail(p, visited0, trail, entry, curr);
      TrailGrows(p, visited0, trail, entry, curr);
      InCycleNext(p, entry, curr);
      regStart, laneStart, reg, lane, mixed, starts, ends :=
        WalkEdge(p, nReg, entry, curr, visited, regStart, laneStart, reg, lane, mixed, starts, ends);
      visited := visited + {curr};
      trail := trail + {curr};
      curr := p[curr];
      if curr == entry {
        break;
      }
    }
  }

  /** Walks every cycle. No bit is left out, no run of lanes is left before it was entered, and the records factor the
      permutation. */
  method FactorPermutation(p: seq<nat>, nReg: nat)
    returns (reg: seq<nat>, lane: seq<nat>, mixed: seq<(nat, nat)>, visited: set<nat>)
    requires IsPermutation(p) && nReg <= |p|
    ensures forall f: nat :: f in visited <==> f < |p|
    ensures Factors(p, nReg, reg, lane, mixed)
  {
    var regBases: seq<int> := seq(nReg, _ => -1);
    var laneBases: seq<int> := seq(|p| - nReg, _ => -1);
    visited, mixed := {}, [];
    ghost var starts: seq<nat>, ends: seq<nat> := [], [];
    for i := 0 to |p|
      invariant WholeCycles(p, visited) && forall f: nat :: f < i ==> f in visited
      invariant Recorded(p, nReg, regBases, laneBases, mixed, starts, ends, visited, -1)
    {
      if i !in visited {
        visited, regBases, laneBases, mixed, starts, ends :=
          WalkCycle(p, nReg, i, visited, regBases, laneBases, mixed, starts, ends);
      }
    }
    BelowIs(|p|);
    assert visited == Below(|p|);
    RegIsPermutation(p, nReg, regBases, laneBases, mixed, starts, ends);
    LaneIsPermutation(p, nReg, regBases, laneBases, mixed, starts, ends);
    reg, lane := regBases, laneBases;
    CompleteFactors(p, nReg, reg, lane, mixed, starts, ends);
  }
}
