/** The interpreter's atomic updates by retry loops, as interleaved steps of any number of threads on one cell. The
    values are the bit patterns that a compare-exchange compares, of any type, so that arithmetic may round and orders
    may leave values incomparable. */
module AtomicRetry {
  /** What a thread is asked to do to the cell: whether the loop still wants to write over a value, and what. */
  datatype Op<!V> = Op(wants: V -> bool, next: V -> V) {
    function Update(seen: V): V { if wants(seen) then next(seen) else seen }
  }

  function AtomicCmp<V>(cmp: (V, V) -> bool, value: V): Op<V> { Op(seen => cmp(seen, value), _ => value) }

  function AtomicFadd<V>(plus: (V, V) -> V, value: V): Op<V> { Op(_ => true, seen => plus(seen, value)) }

  /** A thread before its first load, between a read and the compare-exchange, or returning what it read. */
  datatype Thread<!V> = Ready(op: Op<V>) | Trying(op: Op<V>, seen: V) | Done(op: Op<V>, returned: V)

  /** An operation that took effect: the cell held `before` just before it. */
  datatype Entry<!V> = Entry(thread: nat, op: Op<V>, before: V)

  /** `log` is a history that no thread looks at: the operations in the order in which they took effect. */
  datatype State<!V> = State(cell: V, threads: seq<Thread<V>>, log: seq<Entry<V>>)

  ghost predicate Init<V>(s: State<V>, init: V) {
    s.cell == init && s.log == [] && forall t :: 0 <= t < |s.threads| ==> s.threads[t].Ready?
  }

  // ----- Steps

  /** Reads the cell, by the first load or by a failed compare-exchange, and leaves the loop if nothing is to be
      written. */
  function Read<V>(s: State<V>, t: nat, op: Op<V>): State<V>
    requires t < |s.threads|
  {
    if op.wants(s.cell) then s.(threads := s.threads[t := Trying(op, s.cell)])
    else s.(threads := s.threads[t := Done(op, s.cell)], log := s.log + [Entry(t, op, s.cell)])
  }

  /** The compare-exchange succeeds: it writes what was computed from the value seen, and that value is returned. */
  function Exchange<V>(s: State<V>, t: nat, op: Op<V>, seen: V): State<V>
    requires t < |s.threads|
  {
    State(op.next(seen), s.threads[t := Done(op, seen)], s.log + [Entry(t, op, seen)])
  }

  /** One step of thread `t`. A weak compare-exchange may fail even when the cell holds what was seen. */
  ghost predicate Step<V>(s: State<V>, s': State<V>, t: nat) {
    && t < |s.threads|
    && match s.threads[t]
       case Ready(op) => s' == Read(s, t, op)
       case Trying(op, seen) => (s.cell == seen && s' == Exchange(s, t, op, seen)) || s' == Read(s, t, op)
       case Done(_, _) => false
  }

  ghost predicate IsRun<V>(run: seq<State<V>>, schedule: seq<nat>, init: V) {
    && |run| == |schedule| + 1 && Init(run[0], init)
    && forall i :: 0 <= i < |schedule| ==> Step(run[i], run[i + 1], schedule[i])
  }

  // ----- The sequential meaning

  /** The cell after the logged operations, one after the other. */
  ghost function Replay<V>(init: V, log: seq<Entry<V>>): V {
    if log == [] then init else log[|log| - 1].op.Update(Replay(init, log[..|log| - 1]))
  }

  ghost predicate Sequential<V>(init: V, log: seq<Entry<V>>) {
    forall i :: 0 <= i < |log| ==> log[i].before == Replay(init, log[..i])
  }

  /** The operation of thread `t` is in the log once if it is done, with the value it returns, and not at all if not. */
  ghost predicate Accounted<V>(s: State<V>, t: nat)
    requires t < |s.threads|
  {
    && (s.threads[t].Done? ==> Entry(t, s.threads[t].op, s.threads[t].returned) in s.log)
    && (!s.threads[t].Done? ==> forall i :: 0 <= i < |s.log| ==> s.log[i].thread != t)
  }

  /** Linearised: the cell and all returned values are those of a sequential execution of the finished operations. */
  ghost predicate Linearised<V>(s: State<V>, init: V) {
    && (forall t :: 0 <= t < |s.threads| && s.threads[t].Trying? ==> s.threads[t].op.wants(s.threads[t].seen))
    && Sequential(init, s.log) && s.cell == Replay(init, s.log)
    && (forall t :: 0 <= t < |s.threads| ==> Accounted(s, t))
    && (forall i :: 0 <= i < |s.log| ==> s.log[i].thread < |s.threads|)
    && (forall i, j :: 0 <= i < j < |s.log| ==> s.log[i].thread != s.log[j].thread)
  }

  lemma SequentialSnoc<V>(init: V, log: seq<Entry<V>>, e: Entry<V>)
    requires Sequential(init, log) && e.before == Replay(init, log)
    ensures Sequential(init, log + [e]) && Replay(init, log + [e]) == e.op.Update(Replay(init, log))
  {
    var more := log + [e];
    assert more[..|log|] == log;
    forall i | 0 <= i < |log| ensures more[i].before == Replay(init, more[..i]) {
      assert more[..i] == log[..i];
    }
  }

  lemma AccountedSnoc<V>(s: State<V>, s': State<V>, t: nat, op: Op<V>, u: nat)
    requires t < |s.threads| && u < |s.threads| && Accounted(s, u)
    requires s'.threads == s.threads[t := Done(op, s.cell)] && s'.log == s.log + [Entry(t, op, s.cell)]
    ensures Accounted(s', u)
  {
    assert s'.log[|s.log|] == Entry(t, op, s.cell);
    assert forall e :: e in s.log ==> e in s'.log;
  }

  lemma LogOne<V>(s: State<V>, s': State<V>, t: nat, op: Op<V>, init: V)
    requires Linearised(s, init) && t < |s.threads| && !s.threads[t].Done?
    requires s'.cell == op.Update(s.cell) && s'.threads == s.threads[t := Done(op, s.cell)]
    requires s'.log == s.log + [Entry(t, op, s.cell)]
    ensures Linearised(s', init)
  {
    SequentialSnoc(init, s.log, Entry(t, op, s.cell));
    assert Accounted(s, t);
    forall u | 0 <= u < |s'.threads| ensures Accounted(s', u) {
      AccountedSnoc(s, s', t, op, u);
    }
  }

  lemma StepLinearises<V>(s: State<V>, s': State<V>, t: nat, init: V)
    requires Linearised(s, init) && Step(s, s', t)
    ensures Linearised(s', init)
  {
    var op := s.threads[t].op;
    if s' == Read(s, t, op) && op.wants(s.cell) {
      forall u | 0 <= u < |s'.threads| ensures Accounted(s', u) {
        assert Accounted(s, u);
      }
    } else {
      LogOne(s, s', t, op, init);
    }
  }

  /** Whatever the schedule and whatever compare-exchanges fail, every state of every run is linearised. */
  lemma {:induction false} RunLinearises<V>(run: seq<State<V>>, schedule: seq<nat>, init: V, n: nat)
    requires IsRun(run, schedule, init) && n < |run|
    ensures Linearised(run[n], init) && |run[n].threads| == |run[0].threads|
  {
    if n > 0 {
      RunLinearises(run, schedule, init, n - 1);
      StepLinearises(run[n - 1], run[n], schedule[n - 1], init);
    }
  }

  // ----- Real-time order

  lemma {:induction false} LogGrows<V>(run: seq<State<V>>, schedule: seq<nat>, init: V, m: nat, n: nat)
    requires IsRun(run, schedule, init) && m <= n < |run|
    ensures run[m].log <= run[n].log
  {
    if m < n {
      LogGrows(run, schedule, init, m, n - 1);
      assert Step(run[n - 1], run[n], schedule[n - 1]);
    }
  }

  /** A thread that has returned is in the log. */
  lemma Logged<V>(s: State<V>, init: V, t: nat) returns (i: nat)
    requires Linearised(s, init) && t < |s.threads| && s.threads[t].Done?
    ensures i < |s.log| && s.log[i].thread == t
  {
    assert Accounted(s, t);
    i :| 0 <= i < |s.log| && s.log[i].thread == t;
  }

  /** An operation that has returned before another one starts takes effect before it. */
  lemma RealTimeOrder<V>(run: seq<State<V>>, schedule: seq<nat>, init: V, m: nat, n: nat, a: nat, b: nat)
    returns (i: nat, j: nat)
    requires IsRun(run, schedule, init) && m <= n < |run| && a < |run[0].threads| && b < |run[0].threads|
    requires |run[m].threads| == |run[n].threads| == |run[0].threads|
    requires run[m].threads[a].Done? && run[m].threads[b].Ready? && run[n].threads[b].Done?
    ensures i < j < |run[n].log| && run[n].log[i].thread == a && run[n].log[j].thread == b
  {
    RunLinearises(run, schedule, init, m);
    RunLinearises(run, schedule, init, n);
    LogGrows(run, schedule, init, m, n);
    i := Logged(run[m], init, a);
    j := Logged(run[n], init, b);
    assert Accounted(run[m], b);
    assert forall k :: 0 <= k < |run[m].log| ==> run[n].log[k] == run[m].log[k];
  }

  // ----- No update is lost

  /** `e` is what thread `t` was asked to do, with the value it returned. */
  ghost predicate IsEntryOf<V>(e: Entry<V>, before: Thread<V>, after: Thread<V>, t: nat) {
    after.Done? && e == Entry(t, before.op, after.returned)
  }

  lemma {:induction false} OpsStay<V>(run: seq<State<V>>, schedule: seq<nat>, init: V, n: nat, t: nat)
    requires IsRun(run, schedule, init) && n < |run| && t < |run[0].threads|
    ensures t < |run[n].threads| && run[n].threads[t].op == run[0].threads[t].op
  {
    if n > 0 {
      OpsStay(run, schedule, init, n - 1, t);
      assert Step(run[n - 1], run[n], schedule[n - 1]);
    }
  }

  /** The cell is what the finished operations make of the initial value, one after the other, each of them exactly
      once. */
  lemma EachOnce<V>(run: seq<State<V>>, schedule: seq<nat>, init: V, n: nat, t: nat)
    requires IsRun(run, schedule, init) && n < |run| && t < |run[0].threads|
    ensures run[n].cell == Replay(init, run[n].log) && t < |run[n].threads|
    ensures run[n].threads[t].Done? <==> exists i :: 0 <= i < |run[n].log| && run[n].log[i].thread == t
    ensures forall i :: 0 <= i < |run[n].log| && run[n].log[i].thread == t ==>
      && IsEntryOf(run[n].log[i], run[0].threads[t], run[n].threads[t], t)
      && forall j :: 0 <= j < |run[n].log| && run[n].log[j].thread == t ==> i == j
  {
    RunLinearises(run, schedule, init, n);
    OpsStay(run, schedule, init, n, t);
    assert Accounted(run[n], t);
  }

  /** What the finished operations were to add. */
  ghost function Added<V>(threads: seq<Thread<V>>, amounts: seq<real>): real
    requires |threads| == |amounts|
  {
    if threads == [] then 0.0 else
      var last := |threads| - 1;
      Added(threads[..last], amounts[..last]) + if threads[last].Done? then amounts[last] else 0.0
  }

  lemma {:induction false} AddedUpdate<V>(threads: seq<Thread<V>>, amounts: seq<real>, t: nat, next: Thread<V>)
    requires t < |threads| == |amounts| && !threads[t].Done?
    ensures Added(threads[t := next], amounts) == Added(threads, amounts) + if next.Done? then amounts[t] else 0.0
  {
    var n := |threads| - 1;
    if t < n {
      AddedUpdate(threads[..n], amounts[..n], t, next);
      assert threads[t := next][..n] == threads[..n][t := next];
    } else {
      assert threads[t := next][..n] == threads[..n];
    }
  }

  lemma {:induction false} NothingAdded<V>(threads: seq<Thread<V>>, amounts: seq<real>)
    requires |threads| == |amounts| && forall t :: 0 <= t < |threads| ==> threads[t].Ready?
    ensures Added(threads, amounts) == 0.0
  {
    if threads != [] {
      NothingAdded(threads[..|threads| - 1], amounts[..|threads| - 1]);
    }
  }

  /** The logged operation added the amount of its thread without rounding, where it took effect. */
  ghost predicate Exact<V>(e: Entry<V>, measure: V -> real, amounts: seq<real>) {
    e.thread < |amounts| && measure(e.op.Update(e.before)) == measure(e.before) + amounts[e.thread]
  }

  lemma StepAdds<V>(s: State<V>, s': State<V>, t: nat, measure: V -> real, amounts: seq<real>)
    requires Step(s, s', t) && |s.threads| == |amounts| && forall e :: e in s'.log ==> Exact(e, measure, amounts)
    requires s.threads[t].Trying? ==> s.threads[t].op.wants(s.threads[t].seen)
    ensures |s'.threads| == |amounts| && forall e :: e in s.log ==> e in s'.log
    ensures measure(s'.cell) - Added(s'.threads, amounts) == measure(s.cell) - Added(s.threads, amounts)
  {
    AddedUpdate(s.threads, amounts, t, s'.threads[t]);
    if s'.threads[t].Done? {
      var e := Entry(t, s.threads[t].op, s.cell);
      assert s'.log == s.log + [e] && s'.cell == e.op.Update(e.before);
      assert e in s'.log;
    }
  }

  /** As long as no addition has rounded, the cell is the initial value plus what the finished operations were to
      add. */
  lemma {:induction false} NoLostUpdate<V>(run: seq<State<V>>, schedule: seq<nat>, init: V, measure: V -> real,
                                           amounts: seq<real>, n: nat)
    requires IsRun(run, schedule, init) && n < |run| && |amounts| == |run[0].threads|
    requires forall e :: e in run[n].log ==> Exact(e, measure, amounts)
    ensures |run[n].threads| == |amounts| && measure(run[n].cell) == measure(init) + Added(run[n].threads, amounts)
  {
    if n == 0 {
      NothingAdded(run[0].threads, amounts);
    } else {
      LogGrows(run, schedule, init, n - 1, n);
      assert forall e :: e in run[n - 1].log ==> e in run[n].log;
      NoLostUpdate(run, schedule, init, measure, amounts, n - 1);
      RunLinearises(run, schedule, init, n - 1);
      StepAdds(run[n - 1], run[n], schedule[n - 1], measure, amounts);
    }
  }

  /** Every thread runs the same kind of operation with its own value. */
  ghost predicate AllRun<V>(threads: seq<Thread<V>>, values: seq<V>, make: V -> Op<V>) {
    |threads| == |values| && forall t :: 0 <= t < |threads| ==> threads[t].op == make(values[t])
  }

  /** The operations in the log are those of the finished threads. */
  lemma LogRuns<V>(run: seq<State<V>>, schedule: seq<nat>, init: V, n: nat, values: seq<V>, make: V -> Op<V>)
    requires IsRun(run, schedule, init) && n < |run| && AllRun(run[0].threads, values, make)
    ensures |run[n].threads| == |values|
    ensures forall e :: e in run[n].log ==>
      e.thread < |values| && run[n].threads[e.thread].Done? && e.op == make(values[e.thread])
  {
    RunLinearises(run, schedule, init, n);
    forall i | 0 <= i < |run[n].log|
      ensures var e := run[n].log[i];
              e.thread < |values| && run[n].threads[e.thread].Done? && e.op == make(values[e.thread]) {
      EachOnce(run, schedule, init, n, run[n].log[i].thread);
    }
  }

  /** Instances of `atomic_fadd` on numbers, `measure` being the number that a bit pattern stands for: if none of the
      finished additions has rounded, the cell is the initial value plus all their values. */
  lemma FaddsAddUp<V>(run: seq<State<V>>, schedule: seq<nat>, init: V, n: nat, plus: (V, V) -> V, values: seq<V>,
                      measure: V -> real, amounts: seq<real>)
    requires IsRun(run, schedule, init) && n < |run| && AllRun(run[0].threads, values, v => AtomicFadd(plus, v))
    requires |amounts| == |values| && forall t :: 0 <= t < |values| ==> amounts[t] == measure(values[t])
    requires forall e :: e in run[n].log && e.thread < |values| ==>
      measure(plus(e.before, values[e.thread])) == measure(e.before) + measure(values[e.thread])
    ensures |run[n].threads| == |amounts| && measure(run[n].cell) == measure(init) + Added(run[n].threads, amounts)
  {
    LogRuns(run, schedule, init, n, values, v => AtomicFadd(plus, v));
    NoLostUpdate(run, schedule, init, measure, amounts, n);
  }

  // ----- No minimum or maximum is missed

  /** As `<` and `>` are on floating-point numbers, with those that are not numbers. */
  ghost predicate StrictOrder<V(!new)>(cmp: (V, V) -> bool) {
    (forall x :: !cmp(x, x)) && forall x, y, z :: cmp(x, y) && cmp(y, z) ==> cmp(x, z)
  }

  ghost predicate OnlyCompares<V>(log: seq<Entry<V>>, cmp: (V, V) -> bool, values: seq<V>) {
    forall e :: e in log ==> e.thread < |values| && e.op == AtomicCmp(cmp, values[e.thread])
  }

  lemma {:induction false} ReplayKeepsBest<V(!new)>(init: V, log: seq<Entry<V>>, cmp: (V, V) -> bool, values: seq<V>)
    requires StrictOrder(cmp) && OnlyCompares(log, cmp, values)
    ensures forall e :: e in log ==> e.thread < |values| && !cmp(Replay(init, log), values[e.thread])
    ensures Replay(init, log) == init ||
      exists e :: e in log && e.thread < |values| && Replay(init, log) == values[e.thread]
  {
    if log != [] {
      var n := |log| - 1;
      ReplayKeepsBest(init, log[..n], cmp, values);
      assert log[n] in log;
    }
  }

  /** At any time of any run of `atomic_cmp` loops, no finished operation would still write over the cell, which holds
      the initial value or that of a finished operation. */
  lemma NoneBeatsCell<V(!new)>(run: seq<State<V>>, schedule: seq<nat>, init: V, n: nat, cmp: (V, V) -> bool,
                               values: seq<V>)
    requires IsRun(run, schedule, init) && n < |run| && StrictOrder(cmp)
    requires AllRun(run[0].threads, values, v => AtomicCmp(cmp, v))
    ensures |run[n].threads| == |values|
    ensures forall t :: 0 <= t < |values| && run[n].threads[t].Done? ==> !cmp(run[n].cell, values[t])
    ensures run[n].cell == init ||
      exists t :: 0 <= t < |values| && run[n].threads[t].Done? && run[n].cell == values[t]
  {
    LogRuns(run, schedule, init, n, values, v => AtomicCmp(cmp, v));
    ReplayKeepsBest(init, run[n].log, cmp, values);
    RunLinearises(run, schedule, init, n);
    forall t | 0 <= t < |values| && run[n].threads[t].Done? ensures !cmp(run[n].cell, values[t]) {
      assert Accounted(run[n], t);
    }
  }
}
