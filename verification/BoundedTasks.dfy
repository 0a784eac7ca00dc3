/** A bounded pool of workers over one queue, as a machine whose steps are the locked sections and the
    runs of an item, interleaved in any order. */
module BoundedTasks {
  import opened Wrappers

  const CONCURRENCY: nat := 8

  /** Where a worker is in its loop. */
  datatype Phase = Checking | Popping | Running(item: nat) | Recording(error: string) | Done

  /** `started` and `results` are what has happened so far: the items popped, in order, and what the
      worker function returned for those that finished. `late` counts pops after an error was recorded. */
  datatype Pool = Pool(queue: seq<nat>, firstError: Option<string>, workers: seq<Phase>,
                       started: seq<nat>, results: map<nat, Option<string>>, late: nat)

  datatype Step = Check(w: nat) | Pop(w: nat) | Finish(w: nat, outcome: Option<string>) | Record(w: nat)

  function WorkerCount(n: nat): nat {
    if n < CONCURRENCY then n else CONCURRENCY
  }

  function Items(n: nat): (s: seq<nat>)
    ensures |s| == n && forall i | 0 <= i < n :: s[i] == i
  {
    seq(n, i => i)
  }

  function Initial(n: nat): Pool {
    Pool(Items(n), None, seq(WorkerCount(n), _ => Checking), [], map[], 0)
  }

  predicate Enabled(p: Pool, step: Step) {
    && step.w < |p.workers|
    && match step
       case Check(w) => p.workers[w].Checking?
       case Pop(w) => p.workers[w].Popping?
       case Finish(w, _) => p.workers[w].Running?
       case Record(w) => p.workers[w].Recording?
  }

  function Move(p: Pool, w: nat, phase: Phase): Pool
    requires w < |p.workers|
  {
    p.(workers := p.workers[w := phase])
  }

  function After(p: Pool, step: Step): Pool
    requires Enabled(p, step)
  {
    match step
    case Check(w) => Move(p, w, if p.firstError.Some? then Done else Popping)
    case Pop(w) =>
      if p.queue == [] then Move(p, w, Done)
      else
        Move(p.(queue := p.queue[1..], started := p.started + [p.queue[0]],
                late := p.late + if p.firstError.Some? then 1 else 0), w, Running(p.queue[0]))
    case Finish(w, outcome) =>
      Move(p.(results := p.results[p.workers[w].item := outcome]), w,
           if outcome.None? then Checking else Recording(outcome.value))
    case Record(w) =>
      Move(p.(firstError := if p.firstError.None? then Some(p.workers[w].error) else p.firstError), w, Done)
  }

  predicate Finished(p: Pool) {
    forall w | 0 <= w < |p.workers| :: p.workers[w].Done?
  }

  function Outcome(p: Pool): Result<(), string> {
    if p.firstError.Some? then Failure(p.firstError.value) else Success(())
  }

  /* ---------- what every step keeps ---------- */

  function Count(workers: seq<Phase>, p: Phase -> bool): nat {
    if workers == [] then 0 else Count(workers[1..], p) + if p(workers[0]) then 1 else 0
  }

  /** No item is lost, started twice, or started out of order, and each started one either has a result
      or is with exactly one worker. */
  ghost predicate ItemsKept(n: nat, p: Pool) {
    && p.started + p.queue == Items(n)
    && (forall i :: i in p.results ==> i in p.started)
    && (forall i | i in p.started && i !in p.results :: exists w | 0 <= w < |p.workers| :: p.workers[w] == Running(i))
    && (forall w | 0 <= w < |p.workers| && p.workers[w].Running? ::
          p.workers[w].item in p.started && p.workers[w].item !in p.results)
    && (forall v, w | 0 <= v < w < |p.workers| && p.workers[v].Running? && p.workers[w].Running? ::
          p.workers[v].item != p.workers[w].item)
  }

  ghost predicate Returned(p: Pool, error: string) {
    exists i :: i in p.results && p.results[i] == Some(error)
  }

  /** Every error recorded, or about to be, was returned, and every one returned is one of these. */
  ghost predicate ErrorsKept(p: Pool) {
    && (p.firstError.Some? ==> Returned(p, p.firstError.value))
    && (forall w | 0 <= w < |p.workers| && p.workers[w].Recording? :: Returned(p, p.workers[w].error))
    && (forall i | i in p.results && p.results[i].Some? ::
          p.firstError.Some? || exists w | 0 <= w < |p.workers| :: p.workers[w].Recording?)
    && (forall w | 0 <= w < |p.workers| && p.workers[w].Done? :: p.firstError.Some? || p.queue == [])
  }

  /** Once an error is recorded only the workers then about to pop still can. */
  ghost predicate LateKept(p: Pool) {
    if p.firstError.None? then p.late == 0
    else p.late + Count(p.workers, (x: Phase) => x.Popping?) + 1 <= |p.workers|
  }

  ghost predicate Inv(n: nat, p: Pool) {
    |p.workers| == WorkerCount(n) && ItemsKept(n, p) && ErrorsKept(p) && LateKept(p)
  }

  lemma {:induction false} CountUpdate(workers: seq<Phase>, w: nat, phase: Phase, p: Phase -> bool)
    requires w < |workers|
    ensures Count(workers[w := phase], p) + (if p(workers[w]) then 1 else 0)
            == Count(workers, p) + if p(phase) then 1 else 0
  {
    if w == 0 {
      assert workers[w := phase][1..] == workers[1..];
    } else {
      assert workers[w := phase][1..] == workers[1..][w - 1 := phase];
      CountUpdate(workers[1..], w - 1, phase, p);
    }
  }

  lemma {:induction false} CountLess(workers: seq<Phase>, w: nat, p: Phase -> bool)
    requires w < |workers| && !p(workers[w])
    ensures Count(workers, p) < |workers|
  {
    if w == 0 {
      CountAtMost(workers[1..], p);
    } else {
      CountLess(workers[1..], w - 1, p);
    }
  }

  lemma {:induction false} CountAtMost(workers: seq<Phase>, p: Phase -> bool)
    ensures Count(workers, p) <= |workers|
  {
    if workers != [] {
      CountAtMost(workers[1..], p);
    }
  }

  lemma InitialKept(n: nat)
    ensures Inv(n, Initial(n))
  {
  }

  /** The items started are the first ones, and the next is the one after them. */
  lemma NextItem(n: nat, p: Pool)
    requires p.started + p.queue == Items(n)
    ensures forall j | 0 <= j < |p.started| :: p.started[j] == j
    ensures p.queue != [] ==> p.queue[0] == |p.started|
  {
    assert forall j | 0 <= j < |p.started| :: p.started[j] == (p.started + p.queue)[j];
    if p.queue != [] {
      assert p.queue[0] == (p.started + p.queue)[|p.started|];
    }
  }

  lemma ItemsStay(n: nat, p: Pool, step: Step)
    requires Enabled(p, step) && ItemsKept(n, p)
    ensures ItemsKept(n, After(p, step))
  {
    var q, w := After(p, step), step.w;
    match step {
      case Check(_) =>
      case Record(_) =>
      case Pop(_) =>
        if p.queue != [] {
          var item := p.queue[0];
          assert q.started + q.queue == p.started + p.queue;
          NextItem(n, p);
          assert item !in p.started;
        }
      case Finish(_, _) =>
    }
    forall i | i in q.started && i !in q.results ensures exists v | 0 <= v < |q.workers| :: q.workers[v] == Running(i) {
      if i in p.started {
        var v :| 0 <= v < |p.workers| && p.workers[v] == Running(i);
        assert v != w && q.workers[v] == Running(i);
      } else {
        assert q.workers[w] == Running(i);
      }
    }
  }

  lemma ErrorsStay(p: Pool, step: Step)
    requires Enabled(p, step) && ErrorsKept(p)
    requires step.Finish? ==> p.workers[step.w].item !in p.results
    ensures ErrorsKept(After(p, step))
  {
    var q, w := After(p, step), step.w;
    forall e | Returned(p, e) ensures Returned(q, e) {
      var i :| i in p.results && p.results[i] == Some(e);
      assert i in q.results && q.results[i] == Some(e);
    }
    if step.Finish? && step.outcome.Some? {
      var i := p.workers[w].item;
      assert i in q.results && q.results[i] == step.outcome;
      assert q.workers[w].Recording?;
    }
    forall i | i in q.results && q.results[i].Some?
      ensures q.firstError.Some? || exists v | 0 <= v < |q.workers| :: q.workers[v].Recording?
    {
      if i in p.results && p.results[i].Some? && p.firstError.None? {
        var v :| 0 <= v < |p.workers| && p.workers[v].Recording?;
        assert v == w ==> q.firstError.Some?;
        assert v != w ==> q.workers[v].Recording?;
      }
    }
  }

  lemma LateStays(p: Pool, step: Step)
    requires Enabled(p, step) && LateKept(p)
    ensures LateKept(After(p, step))
  {
    var q, w := After(p, step), step.w;
    var popping := (x: Phase) => x.Popping?;
    CountUpdate(p.workers, w, q.workers[w], popping);
    if q.firstError.Some? && p.firstError.None? {
      CountLess(q.workers, w, popping);
    }
  }

  lemma StepKeeps(n: nat, p: Pool, step: Step)
    requires Enabled(p, step) && Inv(n, p)
    ensures Inv(n, After(p, step))
  {
    ItemsStay(n, p, step);
    ErrorsStay(p, step);
    LateStays(p, step);
  }

  /* ---------- whole runs ---------- */

  /** The pool after the steps, if each is possible in turn. */
  ghost predicate Runs(p: Pool, steps: seq<Step>, q: Pool)
    decreases |steps|
  {
    if steps == [] then p == q
    else Enabled(p, steps[0]) && Runs(After(p, steps[0]), steps[1..], q)
  }

  lemma {:induction false} RunKeeps(n: nat, p: Pool, steps: seq<Step>, q: Pool)
    requires Inv(n, p) && Runs(p, steps, q)
    ensures Inv(n, q)
    decreases |steps|
  {
    if steps != [] {
      StepKeeps(n, p, steps[0]);
      RunKeeps(n, After(p, steps[0]), steps[1..], q);
    }
  }

  /** In every interleaving: at most eight items are in flight; items are started in order, none twice;
      and after an error is recorded at most one item is still started by each other worker. */
  lemma EveryInterleaving(n: nat, steps: seq<Step>, p: Pool)
    requires Runs(Initial(n), steps, p)
    ensures Count(p.workers, (x: Phase) => x.Running?) <= CONCURRENCY
    ensures p.started <= Items(n)
    ensures forall v, w | 0 <= v < w < |p.workers| && p.workers[v].Running? && p.workers[w].Running? ::
              p.workers[v].item != p.workers[w].item
    ensures p.late > 0 ==> p.late <= WorkerCount(n) - 1
  {
    InitialKept(n);
    RunKeeps(n, Initial(n), steps, p);
    CountAtMost(p.workers, (x: Phase) => x.Running?);
  }

  /** What the call returns once every worker is done: Ok exactly when every item was run, once, and
      succeeded; otherwise an error that some worker returned. */
  lemma ReturnsExactly(n: nat, steps: seq<Step>, p: Pool)
    requires Runs(Initial(n), steps, p) && Finished(p)
    ensures Outcome(p) == Success(()) <==>
            p.started == Items(n) && forall i: nat | i < n :: i in p.results && p.results[i] == None
    ensures Outcome(p).Failure? ==> Returned(p, Outcome(p).error)
    ensures forall i :: i in p.started <==> i in p.results
  {
    InitialKept(n);
    RunKeeps(n, Initial(n), steps, p);
    forall i | i in p.started ensures i in p.results {
      NothingRunning(n, p, i);
    }
    if p.firstError.None? {
      AllStarted(n, p);
      forall i: nat | i < n ensures i in p.started {
        assert p.started[i] == i;
      }
    } else {
      SomeFailed(n, p);
    }
  }

  lemma NothingRunning(n: nat, p: Pool, i: nat)
    requires ItemsKept(n, p) && Finished(p) && i in p.started
    ensures i in p.results
  {
  }

  lemma AllStarted(n: nat, p: Pool)
    requires Inv(n, p) && Finished(p) && p.firstError.None?
    ensures p.started == Items(n)
    ensures forall i | i in p.results :: p.results[i] == None
  {
    if n > 0 {
      assert p.workers[0].Done?;
    } else {
      assert |p.started| + |p.queue| == 0;
    }
    assert p.queue == [];
  }

  lemma SomeFailed(n: nat, p: Pool)
    requires Inv(n, p) && p.firstError.Some?
    ensures exists i: nat :: i < n && i in p.results && p.results[i] != None
  {
    var i :| i in p.results && p.results[i] == Some(p.firstError.value);
    assert i in p.started && i in p.started + p.queue;
  }

  /** The first error recorded stays. */
  lemma {:induction false} FirstErrorStays(p: Pool, steps: seq<Step>, q: Pool)
    requires Runs(p, steps, q) && p.firstError.Some?
    ensures q.firstError == p.firstError
    decreases |steps|
  {
    if steps != [] {
      FirstErrorStays(After(p, steps[0]), steps[1..], q);
    }
  }

  lemma {:induction false} NothingRecorded(p: Pool, steps: seq<Step>, q: Pool)
    requires Runs(p, steps, q) && p.firstError.None? && forall k | 0 <= k < |steps| :: !steps[k].Record?
    ensures q.firstError.None?
    decreases |steps|
  {
    if steps != [] {
      NothingRecorded(After(p, steps[0]), steps[1..], q);
    }
  }

  /** The call returns the error of the first worker that records one, whatever happens after. */
  lemma ReturnsFirstRecorded(n: nat, before: seq<Step>, m: Pool, w: nat, after: seq<Step>, p: Pool)
    requires Runs(Initial(n), before, m) && forall k | 0 <= k < |before| :: !before[k].Record?
    requires Enabled(m, Record(w)) && Runs(After(m, Record(w)), after, p)
    ensures Outcome(p) == Failure(m.workers[w].error)
  {
    NothingRecorded(Initial(n), before, m);
    FirstErrorStays(After(m, Record(w)), after, p);
  }

  /** Once an error is recorded, what starts is what counts as late. */
  lemma {:induction false} LateStarts(p: Pool, steps: seq<Step>, q: Pool)
    requires Runs(p, steps, q) && p.firstError.Some?
    ensures |q.started| - |p.started| == q.late - p.late
    decreases |steps|
  {
    if steps != [] {
      LateStarts(After(p, steps[0]), steps[1..], q);
    }
  }

  /** However the run goes on once an error is recorded, at most seven more items are started. */
  lemma FewStartLate(n: nat, before: seq<Step>, m: Pool, w: nat, after: seq<Step>, p: Pool)
    requires Runs(Initial(n), before, m) && forall k | 0 <= k < |before| :: !before[k].Record?
    requires Enabled(m, Record(w)) && Runs(After(m, Record(w)), after, p)
    ensures |p.started| <= |m.started| + 7
  {
    NothingRecorded(Initial(n), before, m);
    LateStarts(After(m, Record(w)), after, p);
    InitialKept(n);
    RunKeeps(n, Initial(n), before, m);
    StepKeeps(n, m, Record(w));
    RunKeeps(n, After(m, Record(w)), after, p);
    FirstErrorStays(After(m, Record(w)), after, p);
  }

  /** All workers that there are items for can be at work at once. */
  lemma {:induction false} WorkersStart(n: nat, k: nat) returns (steps: seq<Step>, p: Pool)
    requires k <= n && k <= 8
    ensures Runs(Initial(n), steps, p) && |p.workers| >= k && |p.queue| == n - k && p.firstError.None?
    ensures forall w | 0 <= w < |p.workers| :: if w < k then p.workers[w].Running? else p.workers[w].Checking?
  {
    if k == 0 {
      steps, p := [], Initial(n);
    } else {
      var some, q := WorkersStart(n, k - 1);
      SameWorkers(Initial(n), some, q);
      var checked := After(q, Check(k - 1));
      p := After(checked, Pop(k - 1));
      RunOneMore(Initial(n), some, q, Check(k - 1));
      RunOneMore(Initial(n), some + [Check(k - 1)], checked, Pop(k - 1));
      steps := some + [Check(k - 1)] + [Pop(k - 1)];
    }
  }

  lemma {:induction false} SameWorkers(p: Pool, steps: seq<Step>, q: Pool)
    requires Runs(p, steps, q)
    ensures |q.workers| == |p.workers|
    decreases |steps|
  {
    if steps != [] {
      SameWorkers(After(p, steps[0]), steps[1..], q);
    }
  }

  /* ---------- termination ---------- */

  function Weight(phase: Phase): nat {
    match phase
    case Done => 0
    case Popping | Recording(_) => 1
    case Checking => 2
    case Running(_) => 3
  }

  function Weights(workers: seq<Phase>): nat {
    if workers == [] then 0 else Weight(workers[0]) + Weights(workers[1..])
  }

  /** How many steps are left at most. */
  function Left(p: Pool): nat {
    3 * |p.queue| + Weights(p.workers)
  }

  lemma {:induction false} WeightsUpdate(workers: seq<Phase>, w: nat, phase: Phase)
    requires w < |workers|
    ensures Weights(workers[w := phase]) + Weight(workers[w]) == Weights(workers) + Weight(phase)
  {
    if w == 0 {
      assert workers[w := phase][1..] == workers[1..];
    } else {
      assert workers[w := phase][1..] == workers[1..][w - 1 := phase];
      WeightsUpdate(workers[1..], w - 1, phase);
    }
  }

  lemma StepsDecrease(p: Pool, step: Step)
    requires Enabled(p, step)
    ensures Left(After(p, step)) < Left(p)
  {
    WeightsUpdate(p.workers, step.w, After(p, step).workers[step.w]);
  }

  lemma {:induction false} RunIsShort(p: Pool, steps: seq<Step>, q: Pool)
    requires Runs(p, steps, q)
    ensures |steps| + Left(q) <= Left(p)
    decreases |steps|
  {
    if steps != [] {
      StepsDecrease(p, steps[0]);
      RunIsShort(After(p, steps[0]), steps[1..], q);
    }
  }

  lemma {:induction false} AllChecking(workers: seq<Phase>)
    requires forall w | 0 <= w < |workers| :: workers[w].Checking?
    ensures Weights(workers) == 2 * |workers|
  {
    if workers != [] {
      AllChecking(workers[1..]);
    }
  }

  ghost predicate CanStep(p: Pool) {
    exists step :: Enabled(p, step)
  }

  /** Every run ends: it has a bounded number of steps, and it can always go on until every worker is
      done. */
  lemma EveryRunEnds(n: nat, steps: seq<Step>, p: Pool)
    requires Runs(Initial(n), steps, p)
    ensures |steps| <= 3 * n + 2 * WorkerCount(n)
    ensures CanStep(p) <==> !Finished(p)
  {
    RunIsShort(Initial(n), steps, p);
    AllChecking(Initial(n).workers);
    if w :| 0 <= w < |p.workers| && !p.workers[w].Done? {
      assert Enabled(p, Check(w)) || Enabled(p, Pop(w)) || Enabled(p, Finish(w, None)) || Enabled(p, Record(w));
    }
  }

  /* ---------- the call ---------- */

  /** Some run of the machine ends with this result. */
  ghost predicate Returns(n: nat, result: Result<(), string>) {
    exists steps, final :: Runs(Initial(n), steps, final) && Finished(final) && result == Outcome(final)
  }

  /** Run a pool over n items, under any scheduler and any worker function. */
  method RunBounded(n: nat) returns (result: Result<(), string>)
    ensures Returns(n, result)
  {
    var p := Initial(n);
    ghost var steps: seq<Step> := [];
    while !Finished(p)
      invariant Runs(Initial(n), steps, p)
      decreases Left(p)
    {
      var w: nat :| w < |p.workers| && !p.workers[w].Done?;
      var outcome: Option<string> := *;
      var step := match p.workers[w]
        case Checking => Check(w)
        case Popping => Pop(w)
        case Running(_) => Finish(w, outcome)
        case _ => Record(w);
      StepsDecrease(p, step);
      RunOneMore(Initial(n), steps, p, step);
      steps := steps + [step];
      p := After(p, step);
    }
    return Outcome(p);
  }

  lemma {:induction false} RunOneMore(p: Pool, steps: seq<Step>, q: Pool, step: Step)
    requires Runs(p, steps, q) && Enabled(q, step)
    ensures Runs(p, steps + [step], After(q, step))
    decreases |steps|
  {
    if steps == [] {
      assert ([step])[1..] == [] && [] + [step] == [step];
      assert Runs(After(p, step), [], After(q, step));
    } else {
      assert (steps + [step])[1..] == steps[1..] + [step];
      RunOneMore(After(p, steps[0]), steps[1..], q, step);
    }
  }
}
