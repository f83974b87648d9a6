/** The operations the barrier analysis looks at, and the state it carries through straight-line code. */
module PendingAccesses {
  import opened Intervals

  /** What `MembarAnalysis::update` distinguishes. `id` is the identity of the operation; `atomic` marks
      the atomic read-modify-write and compare-and-swap operations, `scratch` the shared memory that the
      lowering of the operation uses internally, and `warpSync` a layout conversion that orders its
      internal write and read with a warp barrier only. */
  datatype Op =
    | Barrier
    | AsyncWait(id: nat)
    | Access(id: nat, atomic: bool, readSet: set<Interval>, writeSet: set<Interval>)
    | Scratch(id: nat, atomic: bool, readSet: set<Interval>, writeSet: set<Interval>, scratch: Interval, warpSync: bool)
  {
    predicate IsAtomic() {
      (Access? || Scratch?) && atomic
    }

    /** Executing the operation makes the whole CTA wait for all its earlier accesses. */
    predicate Syncs() {
      Barrier? || (Scratch? && !warpSync)
    }
  }

  /** One entry of an interval map: `op` touches the bytes of `interval`. */
  datatype Touch = Touch(interval: Interval, op: Op)

  /** The contents of a `BlockInfo`: the reads and the writes no barrier has separated yet. */
  datatype Info = Info(syncReads: set<Touch>, syncWrites: set<Touch>) {
    predicate Within(other: Info) {
      syncReads <= other.syncReads && syncWrites <= other.syncWrites
    }
  }

  const NOTHING := Info({}, {})

  function Union(a: Info, b: Info): Info {
    Info(a.syncReads + b.syncReads, a.syncWrites + b.syncWrites)
  }

  /** The backend's callback: no barrier is needed between these two operations. */
  type Filter = (Op, Op) -> bool

  predicate Waived(filter: Filter, a: Op, b: Op) {
    (a.IsAtomic() && b.IsAtomic()) || filter(a, b)
  }

  predicate Clash(filter: Filter, a: Touch, b: Touch) {
    a.interval.Intersects(b.interval) && !Waived(filter, a.op, b.op)
  }

  predicate AnyOverlap(filter: Filter, before: set<Touch>, after: set<Touch>) {
    exists a, b :: a in before && b in after && Clash(filter, a, b)
  }

  /** Read after write, write after read or write after write on overlapping bytes. */
  predicate Hazard(filter: Filter, before: Info, after: Info) {
    || AnyOverlap(filter, before.syncWrites, after.syncReads)
    || AnyOverlap(filter, before.syncReads, after.syncWrites)
    || AnyOverlap(filter, before.syncWrites, after.syncWrites)
  }

  function Entries(op: Op, intervals: set<Interval>): set<Touch> {
    set interval | interval in intervals :: Touch(interval, op)
  }

  /** Every access the operation performs. */
  function Touches(op: Op): Info {
    match op
    case Barrier => NOTHING
    case AsyncWait(_) => NOTHING
    case Access(_, _, readSet, writeSet) => Info(Entries(op, readSet), Entries(op, writeSet))
    case Scratch(_, _, readSet, writeSet, scratch, _) =>
      Info(Entries(op, readSet + {scratch}), Entries(op, writeSet + {scratch}))
  }

  /** The accesses compared with the pending ones: the internal read of the scratch buffer comes last,
      so the code enters it only afterwards. */
  function Compared(op: Op): Info {
    match op
    case Scratch(_, _, readSet, writeSet, scratch, _) => Info(Entries(op, readSet), Entries(op, writeSet + {scratch}))
    case _ => Touches(op)
  }

  /** Leaving the internal read out of the comparison misses nothing. */
  lemma ComparedIsEnough(filter: Filter, before: Info, op: Op)
    ensures Hazard(filter, before, Compared(op)) <==> Hazard(filter, before, Touches(op))
  {
    if op.Scratch? && AnyOverlap(filter, before.syncWrites, Touches(op).syncReads) {
      var a, b :| a in before.syncWrites && b in Touches(op).syncReads && Clash(filter, a, b);
      if b.interval == op.scratch {
        assert b in Compared(op).syncWrites;
        assert AnyOverlap(filter, before.syncWrites, Compared(op).syncWrites);
      } else {
        assert b in Compared(op).syncReads;
        assert AnyOverlap(filter, before.syncWrites, Compared(op).syncReads);
      }
    }
    if op.Scratch? && AnyOverlap(filter, before.syncWrites, Compared(op).syncReads) {
      assert Compared(op).syncReads <= Touches(op).syncReads;
      assert AnyOverlap(filter, before.syncWrites, Touches(op).syncReads);
    }
  }

  lemma HazardMonotone(filter: Filter, small: Info, big: Info, after: Info)
    requires small.Within(big)
    ensures Hazard(filter, small, after) ==> Hazard(filter, big, after)
  {
  }

  /** What is pending behind `op` when no barrier was put in front of it. */
  function Behind(op: Op, pending: Info): Info {
    if op.Syncs() then Touches(op) else Union(pending, Touches(op))
  }

  lemma BehindMonotone(op: Op, small: Info, big: Info)
    requires small.Within(big)
    ensures Behind(op, small).Within(Behind(op, big))
  {
  }

  /** An async wait without a barrier right behind it. */
  predicate Unguarded(ops: seq<Op>, k: nat)
    requires k < |ops|
  {
    ops[k].AsyncWait? && !(k + 1 < |ops| && ops[k + 1].Barrier?)
  }

  /** One pass over straight-line code: the code with the barriers the pass inserts, and what is pending
      at its end. */
  function Scan(filter: Filter, ops: seq<Op>, pending: Info): (r: (seq<Op>, Info))
    ensures |r.0| >= |ops|
  {
    if ops == [] then ([], pending)
    else
      var op := ops[0];
      if Unguarded(ops, 0) then
        var (code, end) := Scan(filter, ops[1..], NOTHING);
        ([op, Barrier] + code, end)
      else if Hazard(filter, pending, Compared(op)) then
        var (code, end) := Scan(filter, ops[1..], Behind(op, NOTHING));
        ([Barrier, op] + code, end)
      else
        var (code, end) := Scan(filter, ops[1..], Behind(op, pending));
        ([op] + code, end)
  }

  lemma NothingIsSafe(filter: Filter, info: Info)
    ensures !Hazard(filter, NOTHING, info) && !Hazard(filter, info, NOTHING)
  {
  }

  /** A step of the pass that inserts nothing. */
  lemma QuietStep(filter: Filter, op: Op, rest: seq<Op>, pending: Info)
    requires op.AsyncWait? ==> rest != [] && rest[0].Barrier?
    requires !Hazard(filter, pending, Compared(op))
    ensures var tail := Scan(filter, rest, Behind(op, pending));
            Scan(filter, [op] + rest, pending) == ([op] + tail.0, tail.1)
  {
    assert ([op] + rest)[1..] == rest;
  }

  /** The steps that insert a barrier: behind an async wait, or in front of a hazard. */
  lemma InsertingStep(filter: Filter, op: Op, rest: seq<Op>, pending: Info)
    ensures Unguarded([op] + rest, 0) ==>
              var tail := Scan(filter, [Barrier] + rest, NOTHING);
              Scan(filter, [op] + rest, pending) == ([op] + tail.0, tail.1)
    ensures !Unguarded([op] + rest, 0) && Hazard(filter, pending, Compared(op)) ==>
              var tail := Scan(filter, rest, Behind(op, NOTHING));
              Scan(filter, [op] + rest, pending) == ([Barrier, op] + tail.0, tail.1)
  {
    assert ([op] + rest)[1..] == rest;
    NothingIsSafe(filter, NOTHING);
    QuietStep(filter, Barrier, rest, NOTHING);
    var end := Scan(filter, rest, NOTHING).0;
    assert [op] + ([Barrier] + end) == [op, Barrier] + end;
  }

  /** The pass over `ops` has come as far as `rest`, where `now` is pending; `done` is the code behind it. */
  ghost predicate ScannedTo(filter: Filter, ops: seq<Op>, pending: Info, done: seq<Op>, rest: seq<Op>, now: Info) {
    var tail := Scan(filter, rest, now);
    Scan(filter, ops, pending) == (done + tail.0, tail.1)
  }

  /** What one visit of an operation contributes to the pass. */
  lemma ScannedOne(filter: Filter, op: Op, rest: seq<Op>, pending: Info)
    ensures op.Barrier? ==> ScannedTo(filter, [op] + rest, pending, [op], rest, NOTHING)
    ensures Unguarded([op] + rest, 0) ==> ScannedTo(filter, [op] + rest, pending, [op], [Barrier] + rest, NOTHING)
    ensures !Unguarded([op] + rest, 0) ==>
              if Hazard(filter, pending, Compared(op))
              then ScannedTo(filter, [op] + rest, pending, [Barrier, op], rest, Behind(op, NOTHING))
              else ScannedTo(filter, [op] + rest, pending, [op], rest, Behind(op, pending))
  {
    NothingIsSafe(filter, pending);
    InsertingStep(filter, op, rest, pending);
    if !Unguarded([op] + rest, 0) && !Hazard(filter, pending, Compared(op)) {
      QuietStep(filter, op, rest, pending);
    }
  }

  lemma ScannedFurther(filter: Filter, ops: seq<Op>, pending: Info, done: seq<Op>, rest: seq<Op>, now: Info,
                       more: seq<Op>, last: seq<Op>, later: Info)
    requires ScannedTo(filter, ops, pending, done, rest, now)
    requires ScannedTo(filter, rest, now, more, last, later)
    ensures ScannedTo(filter, ops, pending, done + more, last, later)
  {
    var tail := Scan(filter, last, later).0;
    assert done + (more + tail) == done + more + tail;
  }

  /** A second pass with the same input inserts nothing and ends in the same state, although the first
      one edited the code. */
  lemma {:induction false} RescanIsStable(filter: Filter, ops: seq<Op>, pending: Info)
    ensures Scan(filter, Scan(filter, ops, pending).0, pending) == Scan(filter, ops, pending)
    decreases |ops|, 1
  {
    if ops == [] {
    } else if Unguarded(ops, 0) {
      RescanAfterWait(filter, ops, pending);
    } else if Hazard(filter, pending, Compared(ops[0])) {
      RescanAfterHazard(filter, ops, pending);
    } else {
      var tail := Scan(filter, ops[1..], Behind(ops[0], pending)).0;
      RescanIsStable(filter, ops[1..], Behind(ops[0], pending));
      QuietStep(filter, ops[0], tail, pending);
    }
  }

  lemma RescanAfterWait(filter: Filter, ops: seq<Op>, pending: Info)
    requires ops != [] && Unguarded(ops, 0)
    ensures Scan(filter, Scan(filter, ops, pending).0, pending) == Scan(filter, ops, pending)
    decreases |ops|, 0
  {
    var tail := Scan(filter, ops[1..], NOTHING).0;
    RescanIsStable(filter, ops[1..], NOTHING);
    NothingIsSafe(filter, pending);
    QuietStep(filter, Barrier, tail, pending);
    QuietStep(filter, ops[0], [Barrier] + tail, pending);
    assert [ops[0]] + ([Barrier] + tail) == [ops[0], Barrier] + tail;
    assert Behind(ops[0], pending) == pending;
  }

  lemma RescanAfterHazard(filter: Filter, ops: seq<Op>, pending: Info)
    requires ops != [] && !Unguarded(ops, 0) && Hazard(filter, pending, Compared(ops[0]))
    ensures Scan(filter, Scan(filter, ops, pending).0, pending) == Scan(filter, ops, pending)
    decreases |ops|, 0
  {
    var tail := Scan(filter, ops[1..], Behind(ops[0], NOTHING)).0;
    RescanIsStable(filter, ops[1..], Behind(ops[0], NOTHING));
    NothingIsSafe(filter, pending);
    NothingIsSafe(filter, Compared(ops[0]));
    QuietStep(filter, ops[0], tail, NOTHING);
    QuietStep(filter, Barrier, [ops[0]] + tail, pending);
    assert [Barrier] + ([ops[0]] + tail) == [Barrier, ops[0]] + tail;
  }

  /** Operations that are not barriers. */
  ghost function Proper(ops: seq<Op>): nat {
    if ops == [] then 0 else (if ops[0].Barrier? then 0 else 1) + Proper(ops[1..])
  }
}
