/** Races on bytes of shared memory: what the pass promises, in terms of the operations and the bytes they touch, and
    that this is what its comparison of interval maps decides. */
module RaceFreedom {
  import opened Intervals
  import opened MembarRuns
  import opened PendingAccesses

  ghost predicate Holds(intervals: set<Interval>, x: nat) {
    exists i :: i in intervals && i.start <= x < i.end
  }

  /** The operation reads byte `x`, with an access of its own or inside its scratch buffer. */
  ghost predicate ReadsByte(op: Op, x: nat) {
    match op
    case Barrier => false
    case AsyncWait(_) => false
    case Access(_, _, readSet, _) => Holds(readSet, x)
    case Scratch(_, _, readSet, _, scratch, _) => Holds(readSet, x) || scratch.start <= x < scratch.end
  }

  ghost predicate WritesByte(op: Op, x: nat) {
    match op
    case Barrier => false
    case AsyncWait(_) => false
    case Access(_, _, _, writeSet) => Holds(writeSet, x)
    case Scratch(_, _, _, writeSet, scratch, _) => Holds(writeSet, x) || scratch.start <= x < scratch.end
  }

  /** Both touch the byte and one of them writes it. */
  ghost predicate BothTouch(a: Op, b: Op, x: nat) {
    (WritesByte(a, x) && (ReadsByte(b, x) || WritesByte(b, x))) || (ReadsByte(a, x) && WritesByte(b, x))
  }

  /** Two atomic operations never race, and the filter may waive others. */
  ghost predicate MayRace(filter: Filter, a: Op, b: Op) {
    !((a.Access? || a.Scratch?) && (b.Access? || b.Scratch?) && a.atomic && b.atomic) && !filter(a, b)
  }

  ghost predicate RaceOn(filter: Filter, a: Op, b: Op, x: nat) {
    MayRace(filter, a, b) && BothTouch(a, b, x)
  }

  /** All threads wait here for the accesses before it: a barrier, or an operation with a barrier of its own between its
      internal write and read. */
  ghost predicate WaitsForAll(op: Op) {
    match op
    case Barrier => true
    case AsyncWait(_) => false
    case Access(_, _, _, _) => false
    case Scratch(_, _, _, _, _, warpSync) => !warpSync
  }

  ghost predicate Separated(trace: seq<Op>, i: nat, j: nat) {
    exists k :: i < k < j < |trace| && WaitsForAll(trace[k])
  }

  /** Operations that may race on a byte have all threads wait between them. */
  ghost predicate RaceFree(filter: Filter, trace: seq<Op>) {
    forall i, j, x :: 0 <= i < j < |trace| && RaceOn(filter, trace[i], trace[j], x) ==> Separated(trace, i, j)
  }

  // ----- What the pass compares

  ghost predicate NonEmpty(op: Op) {
    match op
    case Barrier => true
    case AsyncWait(_) => true
    case Access(_, _, readSet, writeSet) => forall i :: i in readSet + writeSet ==> i.start < i.end
    case Scratch(_, _, readSet, writeSet, scratch, _) =>
      forall i :: i in readSet + writeSet + {scratch} ==> i.start < i.end
  }

  lemma TouchedRead(op: Op, x: nat)
    ensures ReadsByte(op, x) <==> exists t :: t in Touches(op).syncReads && t.interval.Contains(x)
  {
    if ReadsByte(op, x) {
      var i :| (i in op.readSet || (op.Scratch? && i == op.scratch)) && i.start <= x < i.end;
      assert Touch(i, op) in Touches(op).syncReads && Touch(i, op).interval.Contains(x);
    }
  }

  lemma TouchedWrite(op: Op, x: nat)
    ensures WritesByte(op, x) <==> exists t :: t in Touches(op).syncWrites && t.interval.Contains(x)
  {
    if WritesByte(op, x) {
      var i :| (i in op.writeSet || (op.Scratch? && i == op.scratch)) && i.start <= x < i.end;
      assert Touch(i, op) in Touches(op).syncWrites && Touch(i, op).interval.Contains(x);
    }
  }

  lemma TouchesOwn(op: Op)
    ensures forall t :: t in Touches(op).syncReads || t in Touches(op).syncWrites ==> t.op == op
    ensures NonEmpty(op) ==> forall t :: t in Touches(op).syncReads || t in Touches(op).syncWrites ==>
      t.interval.start < t.interval.end
  {
  }

  lemma OverlapHas(filter: Filter, before: set<Touch>, after: set<Touch>, a: Op, b: Op, x: nat)
    requires !Waived(filter, a, b)
    requires forall t :: t in before ==> t.op == a
    requires forall t :: t in after ==> t.op == b
    requires (exists t :: t in before && t.interval.Contains(x)) && exists t :: t in after && t.interval.Contains(x)
    ensures AnyOverlap(filter, before, after)
  {
    var s :| s in before && s.interval.Contains(x);
    var t :| t in after && t.interval.Contains(x);
    assert Clash(filter, s, t);
  }

  /** A race on a byte is a conflict of the interval maps. */
  lemma RaceIsConflict(filter: Filter, a: Op, b: Op, x: nat)
    requires RaceOn(filter, a, b, x)
    ensures Conflict(filter, a, b)
  {
    TouchesOwn(a);
    TouchesOwn(b);
    TouchedRead(a, x);
    TouchedRead(b, x);
    TouchedWrite(a, x);
    TouchedWrite(b, x);
    if WritesByte(a, x) && ReadsByte(b, x) {
      OverlapHas(filter, Touches(a).syncWrites, Touches(b).syncReads, a, b, x);
    } else if WritesByte(a, x) {
      OverlapHas(filter, Touches(a).syncWrites, Touches(b).syncWrites, a, b, x);
    } else {
      OverlapHas(filter, Touches(a).syncReads, Touches(b).syncWrites, a, b, x);
    }
  }

  lemma OverlapIsByte(filter: Filter, before: set<Touch>, after: set<Touch>) returns (s: Touch, t: Touch, x: nat)
    requires AnyOverlap(filter, before, after)
    requires forall u :: u in before || u in after ==> u.interval.start < u.interval.end
    ensures s in before && t in after && s.interval.Contains(x) && t.interval.Contains(x) && !Waived(filter, s.op, t.op)
  {
    s, t :| s in before && t in after && Clash(filter, s, t);
    IntersectsIsCommonPoint(s.interval, t.interval);
    x :| s.interval.Contains(x) && t.interval.Contains(x);
  }

  /** And of intervals that are not empty, the other way round. */
  lemma ConflictIsRace(filter: Filter, a: Op, b: Op) returns (x: nat)
    requires Conflict(filter, a, b) && NonEmpty(a) && NonEmpty(b)
    ensures RaceOn(filter, a, b, x)
  {
    TouchesOwn(a);
    TouchesOwn(b);
    var before, after := Touches(a), Touches(b);
    var s, t;
    if AnyOverlap(filter, before.syncWrites, after.syncReads) {
      s, t, x := OverlapIsByte(filter, before.syncWrites, after.syncReads);
    } else if AnyOverlap(filter, before.syncReads, after.syncWrites) {
      s, t, x := OverlapIsByte(filter, before.syncReads, after.syncWrites);
    } else {
      s, t, x := OverlapIsByte(filter, before.syncWrites, after.syncWrites);
    }
    TouchedRead(a, x);
    TouchedRead(b, x);
    TouchedWrite(a, x);
    TouchedWrite(b, x);
  }

  lemma ConflictExactly(filter: Filter, a: Op, b: Op)
    requires NonEmpty(a) && NonEmpty(b)
    ensures Conflict(filter, a, b) <==> exists x :: RaceOn(filter, a, b, x)
  {
    if Conflict(filter, a, b) {
      var x := ConflictIsRace(filter, a, b);
    }
    if x :| RaceOn(filter, a, b, x) {
      RaceIsConflict(filter, a, b, x);
    }
  }

  lemma SeparatedIsSync(trace: seq<Op>, i: nat, j: nat)
    requires i <= j < |trace|
    ensures Separated(trace, i, j) <==> SyncBetween(trace, i, j)
  {
    assert forall k :: 0 <= k < |trace| ==> (WaitsForAll(trace[k]) <==> trace[k].Syncs());
  }

  /** Safety as the analysis sees it is freedom from races, and the same if no interval is empty. */
  lemma SafeIsRaceFree(filter: Filter, trace: seq<Op>)
    ensures Safe(filter, trace) ==> RaceFree(filter, trace)
    ensures (forall op :: op in trace ==> NonEmpty(op)) ==> (Safe(filter, trace) <==> RaceFree(filter, trace))
  {
    if Safe(filter, trace) {
      forall i, j, x | 0 <= i < j < |trace| && RaceOn(filter, trace[i], trace[j], x) ensures Separated(trace, i, j) {
        RaceIsConflict(filter, trace[i], trace[j], x);
        assert SafeAt(filter, trace, j);
        SeparatedIsSync(trace, i, j);
      }
    }
    if RaceFree(filter, trace) && forall op :: op in trace ==> NonEmpty(op) {
      forall j | 0 <= j < |trace| ensures SafeAt(filter, trace, j) {
        forall i | 0 <= i < j && Conflict(filter, trace[i], trace[j]) ensures SyncBetween(trace, i, j) {
          var x := ConflictIsRace(filter, trace[i], trace[j]);
          SeparatedIsSync(trace, i, j);
        }
      }
    }
  }
}
