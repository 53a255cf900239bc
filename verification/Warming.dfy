/** The warming service under concurrency: W workers running tasks, with deduplication, retries and the latching
    emergency stop, in any interleaving. What limits, the origin and the latency test decide is left open. */
module EmergencyStop {
  import opened Collections

  datatype Worker =
    | Idle
    | Starting(key: string, attempt: nat)               // about to test the emergency flag
    | Cleared(key: string, attempt: nat)                // passed the test, not yet in the deduplicated call
    | Following(key: string, attempt: nat, call: nat)   // waiting for another worker's call
    | Leading(key: string, attempt: nat, call: nat)     // in its own call, before the origin fetch
    | Judging(key: string, attempt: nat, call: nat)     // fetched; about to test the latency
    | Writing(key: string, attempt: nat, call: nat)     // about to write to the cache

  datatype State = State(
    workers: map<nat, Worker>,
    queue: seq<string>,
    stopped: bool,
    inflight: map<string, nat>,
    results: map<nat, bool>,
    next: nat,
    lateFetches: nat)   // origin fetches issued while the flag is set

  datatype Action =
    | Enqueue(key: string)
    | Dequeue(w: nat)
    | TestFlag(w: nat)
    | Join(w: nat)
    | Refuse(w: nat)                 // rate limiter or missing fetcher
    | Fetch(w: nat, ok: bool)
    | Judge(w: nat, slow: bool)
    | Write(w: nat, ok: bool)
    | Wake(w: nat)

  /** The outcome of one ExecuteWarmTask: done, retried, or given up. */
  function Conclude(retries: nat, key: string, attempt: nat, ok: bool): Worker {
    if ok || attempt >= retries then Idle else Starting(key, attempt + 1)
  }

  /** The leader leaves the call: its result is recorded and the key is free again. */
  function EndCall(retries: nat, s: State, w: nat, key: string, attempt: nat, call: nat, ok: bool): State {
    s.(workers := s.workers[w := Conclude(retries, key, attempt, ok)],
       inflight := s.inflight - {key},
       results := s.results[call := ok])
  }

  /** One step; an action whose worker is not at that point changes nothing. */
  function Next(retries: nat, s: State, a: Action): State {
    if a.Enqueue? then s.(queue := s.queue + [a.key])
    else if a.w !in s.workers then s
    else
      var me := s.workers[a.w];
      match a
      case Enqueue(_) => s
      case Dequeue(w) =>
        if me.Idle? && s.queue != []
        then s.(workers := s.workers[w := Starting(s.queue[0], 0)], queue := s.queue[1..])
        else s
      case TestFlag(w) =>
        if !me.Starting? then s
        else if s.stopped then s.(workers := s.workers[w := Conclude(retries, me.key, me.attempt, false)])
        else s.(workers := s.workers[w := Cleared(me.key, me.attempt)])
      case Join(w) =>
        if !me.Cleared? then s
        else if me.key in s.inflight
        then s.(workers := s.workers[w := Following(me.key, me.attempt, s.inflight[me.key])])
        else s.(workers := s.workers[w := Leading(me.key, me.attempt, s.next)],
                inflight := s.inflight[me.key := s.next], next := s.next + 1)
      case Refuse(w) =>
        if me.Leading? then EndCall(retries, s, w, me.key, me.attempt, me.call, false) else s
      case Fetch(w, ok) =>
        if !me.Leading? then s else
          var counted := if s.stopped then s.(lateFetches := s.lateFetches + 1) else s;
          if ok then counted.(workers := s.workers[w := Judging(me.key, me.attempt, me.call)])
          else EndCall(retries, counted, w, me.key, me.attempt, me.call, false)
      case Judge(w, slow) =>
        if !me.Judging? then s
        else if slow then EndCall(retries, s.(stopped := true), w, me.key, me.attempt, me.call, false)
        else s.(workers := s.workers[w := Writing(me.key, me.attempt, me.call)])
      case Write(w, ok) =>
        if me.Writing? then EndCall(retries, s, w, me.key, me.attempt, me.call, ok) else s
      case Wake(w) =>
        if me.Following? && me.call in s.results
        then s.(workers := s.workers[w := Conclude(retries, me.key, me.attempt, s.results[me.call])])
        else s
  }

  /** May still fetch without testing the flag again. */
  predicate Armed(w: Worker) {
    w.Cleared? || w.Leading?
  }

  function ArmedWorkers(workers: map<nat, Worker>): set<nat> {
    set w | w in workers && Armed(workers[w])
  }

  /** Each late fetch has used up an armed worker, and the worker that set the flag is not among them. */
  ghost predicate Inv(s: State, size: nat) {
    && |s.workers| == size
    && (if s.stopped then s.lateFetches + |ArmedWorkers(s.workers)| <= size - 1 else s.lateFetches == 0)
  }

  lemma SameWorkers(workers: map<nat, Worker>, w: nat, now: Worker)
    requires w in workers
    ensures |workers[w := now]| == |workers|
    ensures ArmedWorkers(workers[w := now]) ==
            if Armed(now) then ArmedWorkers(workers) + {w} else ArmedWorkers(workers) - {w}
  {
    assert workers[w := now].Keys == workers.Keys;
  }

  /** When an unarmed worker exists, the armed ones are fewer than all. */
  lemma SomeUnarmed(workers: map<nat, Worker>, w: nat)
    requires w in workers && !Armed(workers[w])
    ensures |ArmedWorkers(workers)| <= |workers| - 1
  {
    SubsetSize(ArmedWorkers(workers), workers.Keys - {w});
    assert |workers.Keys - {w}| == |workers.Keys| - 1;
  }

  lemma DisarmOne(workers: map<nat, Worker>, w: nat, now: Worker)
    requires w in workers && !Armed(now)
    ensures |ArmedWorkers(workers[w := now])| == |ArmedWorkers(workers)| - if Armed(workers[w]) then 1 else 0
    ensures |workers[w := now]| == |workers|
  {
    SameWorkers(workers, w, now);
    var before := ArmedWorkers(workers);
    if Armed(workers[w]) {
      assert |before - {w}| == |before| - 1;
    } else {
      assert before - {w} == before;
    }
  }

  /** A worker moves on without fetching: it may become armed only while the flag is clear. */
  lemma MoveKeepsInv(s: State, r: State, w: nat, now: Worker, size: nat)
    requires Inv(s, size) && w in s.workers && r.workers == s.workers[w := now]
    requires r.stopped == s.stopped && r.lateFetches == s.lateFetches
    requires Armed(now) ==> Armed(s.workers[w]) || !s.stopped
    ensures Inv(r, size)
  {
    SameWorkers(s.workers, w, now);
    if Armed(now) {
      if s.stopped {
        assert ArmedWorkers(s.workers) + {w} == ArmedWorkers(s.workers);
      }
    } else {
      DisarmOne(s.workers, w, now);
    }
  }

  lemma FetchKeepsInv(s: State, r: State, w: nat, now: Worker, size: nat)
    requires Inv(s, size) && w in s.workers && r.workers == s.workers[w := now]
    requires Armed(s.workers[w]) && !Armed(now)
    requires r.stopped == s.stopped && r.lateFetches == s.lateFetches + if s.stopped then 1 else 0
    ensures Inv(r, size)
  {
    DisarmOne(s.workers, w, now);
  }

  lemma StopKeepsInv(s: State, r: State, w: nat, now: Worker, size: nat)
    requires Inv(s, size) && w in s.workers && r.workers == s.workers[w := now]
    requires !Armed(s.workers[w]) && !Armed(now)
    requires r.stopped && r.lateFetches == s.lateFetches
    ensures Inv(r, size)
  {
    DisarmOne(s.workers, w, now);
    SomeUnarmed(r.workers, w);
  }

  lemma NextKeepsInv(retries: nat, s: State, a: Action, size: nat)
    requires Inv(s, size)
    ensures Inv(Next(retries, s, a), size)
    ensures s.stopped ==> Next(retries, s, a).stopped
  {
    var r := Next(retries, s, a);
    if !a.Enqueue? && a.w in s.workers && r != s {
      var now := r.workers[a.w];
      if a.Fetch? {
        FetchKeepsInv(s, r, a.w, now, size);
      } else if a.Judge? && a.slow {
        StopKeepsInv(s, r, a.w, now, size);
      } else {
        MoveKeepsInv(s, r, a.w, now, size);
      }
    }
  }

  ghost function Run(retries: nat, s: State, acts: seq<Action>): State
    decreases acts
  {
    if acts == [] then s else Run(retries, Next(retries, s, acts[0]), acts[1..])
  }

  lemma {:induction false} RunKeepsInv(retries: nat, s: State, acts: seq<Action>, size: nat)
    requires Inv(s, size)
    ensures Inv(Run(retries, s, acts), size)
    ensures s.stopped ==> Run(retries, s, acts).stopped
    decreases acts
  {
    if acts != [] {
      NextKeepsInv(retries, s, acts[0], size);
      RunKeepsInv(retries, Next(retries, s, acts[0]), acts[1..], size);
    }
  }

  // The queue.

  function Puts(a: Action): seq<string> {
    if a.Enqueue? then [a.key] else []
  }

  function Takes(retries: nat, s: State, a: Action): seq<string> {
    var r := Next(retries, s, a);
    if a.Dequeue? && r != s then [r.workers[a.w].key] else []
  }

  /** The keys put into the queue, and those taken out of it, during a run. */
  function Queued(acts: seq<Action>): seq<string> {
    if acts == [] then [] else Puts(acts[0]) + Queued(acts[1..])
  }

  function Taken(retries: nat, s: State, acts: seq<Action>): seq<string>
    decreases acts
  {
    if acts == [] then [] else Takes(retries, s, acts[0]) + Taken(retries, Next(retries, s, acts[0]), acts[1..])
  }

  lemma StepKeepsOrder(retries: nat, s: State, a: Action)
    ensures s.queue + Puts(a) == Takes(retries, s, a) + Next(retries, s, a).queue
  {
  }

  /** Tasks are taken in the order in which they were queued, none twice and none lost. */
  lemma {:induction false} TasksAreTakenInOrder(retries: nat, s: State, acts: seq<Action>)
    ensures s.queue + Queued(acts) == Taken(retries, s, acts) + Run(retries, s, acts).queue
    decreases acts
  {
    if acts != [] {
      var r := Next(retries, s, acts[0]);
      StepKeepsOrder(retries, s, acts[0]);
      TasksAreTakenInOrder(retries, r, acts[1..]);
      Reassociate(s.queue, Puts(acts[0]), Takes(retries, s, acts[0]), r.queue, Queued(acts[1..]));
      Prepend(Takes(retries, s, acts[0]), Taken(retries, r, acts[1..]), Run(retries, r, acts[1..]).queue);
    }
  }

  lemma Reassociate(a: seq<string>, b: seq<string>, c: seq<string>, d: seq<string>, e: seq<string>)
    requires a + b == c + d
    ensures a + (b + e) == c + (d + e)
  {
    assert a + (b + e) == (a + b) + e;
    assert c + (d + e) == (c + d) + e;
  }

  lemma Prepend(a: seq<string>, b: seq<string>, c: seq<string>)
    ensures a + (b + c) == (a + b) + c
  {
  }

  function IdleWorkers(size: nat): map<nat, Worker> {
    if size == 0 then map[] else IdleWorkers(size - 1)[size - 1 := Idle]
  }

  function Initial(size: nat): State {
    State(IdleWorkers(size), [], false, map[], map[], 0, 0)
  }

  lemma {:induction false} InitialSize(size: nat)
    ensures |IdleWorkers(size)| == size
    ensures forall w | w in IdleWorkers(size) :: w < size
  {
    if size > 0 {
      InitialSize(size - 1);
      assert IdleWorkers(size).Keys == IdleWorkers(size - 1).Keys + {size - 1};
    }
  }

  /** In any interleaving of W >= 1 workers, retries and deduplicated followers included, at most W - 1 origin fetches
      are issued after the emergency flag is first set. */
  lemma LateFetchesAreBounded(retries: nat, size: nat, acts: seq<Action>)
    requires size >= 1
    ensures Run(retries, Initial(size), acts).lateFetches <= size - 1
  {
    InitialSize(size);
    RunKeepsInv(retries, Initial(size), acts, size);
  }

  // The bound is attained.

  lemma {:induction false} RunConcat(retries: nat, s: State, a: seq<Action>, b: seq<Action>)
    ensures Run(retries, s, a + b) == Run(retries, Run(retries, s, a), b)
    decreases a
  {
    if a == [] {
      assert a + b == b;
    } else {
      assert (a + b)[1..] == a[1..] + b;
      RunConcat(retries, Next(retries, s, a[0]), a[1..], b);
    }
  }

  /** The first m workers are about to fetch, each a key of its own; the others are idle. */
  ghost predicate Poised(s: State, m: nat, size: nat) {
    && s.queue == [] && !s.stopped && s.lateFetches == 0
    && (forall w: nat | w < m :: w in s.workers && s.workers[w].Leading?)
    && (forall w: nat | m <= w < size :: w in s.workers && s.workers[w].Idle?)
    && (forall k | k in s.inflight :: |k| <= m)
  }

  lemma PoiseOne(retries: nat, s: State, m: nat, size: nat)
    requires Poised(s, m, size) && m < size
    ensures Poised(Run(retries, s, [Enqueue(Name(m)), Dequeue(m), TestFlag(m), Join(m)]), m + 1, size)
  {
    NameLength(m);
    var acts := [Enqueue(Name(m)), Dequeue(m), TestFlag(m), Join(m)];
    var s1 := Next(retries, s, acts[0]);
    var s2 := Next(retries, s1, acts[1]);
    var s3 := Next(retries, s2, acts[2]);
    var s4 := Next(retries, s3, acts[3]);
    assert s4.workers == s.workers[m := Leading(Name(m), 0, s.next)] && s4.queue == [];
    assert Run(retries, s3, [Join(m)]) == s4;
    assert Run(retries, s2, [TestFlag(m), Join(m)]) == s4;
    assert Run(retries, s1, [Dequeue(m), TestFlag(m), Join(m)]) == s4;
  }

  lemma {:induction false} PoiseAll(retries: nat, s: State, m: nat, size: nat) returns (acts: seq<Action>)
    requires Poised(s, m, size) && m <= size
    ensures Poised(Run(retries, s, acts), size, size)
    decreases size - m
  {
    acts := [];
    if m < size {
      var one := [Enqueue(Name(m)), Dequeue(m), TestFlag(m), Join(m)];
      PoiseOne(retries, s, m, size);
      var rest := PoiseAll(retries, Run(retries, s, one), m + 1, size);
      RunConcat(retries, s, one, rest);
      acts := one + rest;
    }
  }

  /** The flag is set, workers 1 to k - 1 have fetched since, and the rest are still about to. */
  ghost predicate Fetching(s: State, k: nat, size: nat) {
    s.stopped && s.lateFetches == k - 1 && forall w: nat | k <= w < size :: w in s.workers && s.workers[w].Leading?
  }

  lemma {:induction false} FetchAll(retries: nat, s: State, k: nat, size: nat) returns (acts: seq<Action>)
    requires 1 <= k <= size && Fetching(s, k, size)
    ensures Run(retries, s, acts).lateFetches == size - 1
    decreases size - k
  {
    acts := [];
    if k < size {
      var rest := FetchAll(retries, Next(retries, s, Fetch(k, false)), k + 1, size);
      acts := [Fetch(k, false)] + rest;
      assert acts[1..] == rest;
    }
  }

  lemma StopWhilePoised(retries: nat, s: State, size: nat)
    requires size >= 1 && Poised(s, size, size)
    ensures Fetching(Run(retries, s, [Fetch(0, true), Judge(0, true)]), 1, size)
  {
    var s1 := Next(retries, s, Fetch(0, true));
    var s2 := Next(retries, s1, Judge(0, true));
    assert Run(retries, s1, [Judge(0, true)]) == s2;
  }

  /** W - 1 is the best possible bound: some interleaving of W workers issues that many fetches after the stop. */
  lemma LateFetchesAttainBound(retries: nat, size: nat) returns (acts: seq<Action>)
    requires size >= 1
    ensures Run(retries, Initial(size), acts).lateFetches == size - 1
  {
    AllIdle(size);
    var poise := PoiseAll(retries, Initial(size), 0, size);
    var poised := Run(retries, Initial(size), poise);
    var stop := [Fetch(0, true), Judge(0, true)];
    StopWhilePoised(retries, poised, size);
    var late := FetchAll(retries, Run(retries, poised, stop), 1, size);
    RunConcat(retries, poised, stop, late);
    RunConcat(retries, Initial(size), poise, stop + late);
    acts := poise + (stop + late);
  }

  lemma {:induction false} AllIdle(size: nat)
    ensures forall w: nat | w < size :: w in IdleWorkers(size) && IdleWorkers(size)[w].Idle?
  {
    if size > 0 {
      AllIdle(size - 1);
    }
  }

  /** The flag latches. */
  lemma StopIsPermanent(retries: nat, size: nat, before: seq<Action>, after: seq<Action>)
    requires Run(retries, Initial(size), before).stopped
    ensures Run(retries, Run(retries, Initial(size), before), after).stopped
  {
    InitialSize(size);
    RunKeepsInv(retries, Initial(size), before, size);
    RunKeepsInv(retries, Run(retries, Initial(size), before), after, size);
  }
}

/** One worker's handling of tasks: the queue, the retries with exponential backoff and the failure event. */
module WorkerPool {
  import opened Numbers

  const QUEUE_CAPACITY := 1000

  function Pow2(n: nat): nat {
    if n == 0 then 1 else 2 * Pow2(n - 1)
  }

  /** The sleep time before retry k + 1, without jitter. */
  function Backoff(base: int, k: nat): int {
    if k == 0 then base else 2 * Backoff(base, k - 1)
  }

  datatype Report = Report(runs: nat, succeeded: bool, slept: int, panicked: bool)

  datatype WorkerState = Idle | Busy(key: string)

  class Worker {
    var state: WorkerState

    constructor ()
      ensures state == Idle
    {
      state := Idle;
    }
  }

  class WorkerPool {
    const maxRetries: int
    const backoff: int
    var taskQueue: seq<string>
    var activeCount: int
    var failureEvents: seq<string>

    constructor (maxRetries: int, backoff: int)
      ensures this.maxRetries == maxRetries && this.backoff == backoff
      ensures taskQueue == [] && activeCount == 0 && failureEvents == []
    {
      this.maxRetries, this.backoff := maxRetries, backoff;
      taskQueue, activeCount, failureEvents := [], 0, [];
    }

    /** Tasks are taken in order while the queue has room; the rest are skipped. */
    method QueueTasks(tasks: seq<string>) returns (queued: nat)
      requires |taskQueue| <= 1000
      modifies this`taskQueue
      ensures queued <= |tasks| && taskQueue == old(taskQueue) + tasks[..queued]
      ensures |taskQueue| <= 1000
      ensures queued < |tasks| ==> |taskQueue| == 1000
    {
      queued := 0;
      var i := 0;
      while i < |tasks|
        invariant 0 <= i <= |tasks|
        invariant queued <= i && (queued < i ==> |taskQueue| == QUEUE_CAPACITY)
        invariant taskQueue == old(taskQueue) + tasks[..queued]
        invariant |taskQueue| <= QUEUE_CAPACITY
      {
        if |taskQueue| < QUEUE_CAPACITY {
          taskQueue := taskQueue + [tasks[i]];
          queued := queued + 1;
        }
        i := i + 1;
      }
    }

    /** Takes one task off the queue and runs it to the end. `outcomes(i)` is whether its i-th run succeeds and
        `clock(i)` the time from which the i-th jitter is drawn. */
    method RunNextTask(worker: Worker, outcomes: nat -> bool, clock: nat -> nat) returns (r: Report)
      requires taskQueue != [] && worker.state == Idle
      modifies this`taskQueue, this`activeCount, this`failureEvents, worker
      ensures taskQueue == old(taskQueue)[1..]
      ensures Accounted(maxRetries, backoff, outcomes, r)
      ensures failureEvents == if maxRetries >= 1 && !r.succeeded && !r.panicked
                               then old(failureEvents) + [old(taskQueue)[0]] else old(failureEvents)
      ensures !r.panicked ==> worker.state == Idle && activeCount == old(activeCount)
    {
      var task := taskQueue[0];
      taskQueue := taskQueue[1..];
      worker.state := Busy(task);
      activeCount := activeCount + 1;
      if outcomes(0) {
        r := Report(1, true, 0, false);
      } else {
        r := RetryTask(task, outcomes, clock);
      }
      if r.panicked {
        return;
      }
      worker.state := Idle;
      activeCount := activeCount - 1;
    }

    /** Runs after a failed first run. The jitter is a remainder modulo half the sleep time, and panics when that is
        zero; a sleep that is not positive returns at once. */
    method RetryTask(task: string, outcomes: nat -> bool, clock: nat -> nat) returns (r: Report)
      requires !outcomes(0)
      modifies this`failureEvents
      ensures Accounted(maxRetries, backoff, outcomes, r)
      ensures failureEvents == if maxRetries >= 1 && !r.succeeded && !r.panicked
                               then old(failureEvents) + [task] else old(failureEvents)
    {
      var slept, sleepTime := 0, backoff;
      var attempt := 1;
      while attempt <= maxRetries
        invariant 1 <= attempt <= (if maxRetries < 1 then 1 else maxRetries + 1)
        invariant sleepTime == Backoff(backoff, attempt - 1)
        invariant forall i: nat :: i < attempt ==> !outcomes(i)
        invariant SleepBounds(backoff, attempt - 1, slept)
        invariant attempt > 1 ==> !TooShort(backoff)
        invariant failureEvents == if 1 <= maxRetries < attempt then old(failureEvents) + [task] else old(failureEvents)
      {
        BackoffGrows(backoff, attempt - 1);
        if Half(sleepTime) == 0 {
          return Report(attempt, false, slept, true);
        }
        // The clock is not negative, so Go's remainder is Dafny's, whatever the sign of the modulus.
        var jitter := clock(attempt) % Half(sleepTime);
        SleepStep(backoff, attempt - 1, slept, jitter);
        if sleepTime + jitter > 0 {
          slept := slept + sleepTime + jitter;
        }
        if outcomes(attempt) {
          return Report(attempt + 1, true, slept, false);
        }
        if attempt == maxRetries {
          failureEvents := failureEvents + [task];
        }
        sleepTime := sleepTime * 2;
        attempt := attempt + 1;
      }
      return Report(attempt, false, slept, false);
    }
  }

  /** Half of the base is zero after truncation. */
  predicate TooShort(base: int) {
    -2 < base < 2
  }

  /** After k retries the sleeps add up to base + 2 base + ... + 2^(k-1) base, plus less than half of that in jitter; a
      negative base never sleeps. */
  ghost predicate SleepBounds(base: int, k: nat, slept: int) {
    var least := Backoff(base, k) - base;
    if k == 0 || base < 0 then slept == 0 else least <= slept && 2 * slept < 3 * least
  }

  /** What one dequeued task costs and how it ends. */
  ghost predicate Accounted(maxRetries: int, base: int, outcomes: nat -> bool, r: Report) {
    var allowed := if maxRetries < 0 then 0 else maxRetries;
    && 1 <= r.runs <= 1 + allowed
    && (forall i: nat :: i < r.runs - 1 ==> !outcomes(i))
    && (r.succeeded <==> outcomes(r.runs - 1))
    && (!r.succeeded && !r.panicked ==> r.runs == 1 + allowed)
    && (r.panicked <==> allowed >= 1 && !outcomes(0) && TooShort(base))
    && SleepBounds(base, r.runs - 1, r.slept)
  }

  /** Sleep times move away from zero. */
  lemma {:induction false} BackoffGrows(base: int, k: nat)
    ensures if base >= 0 then Backoff(base, k) >= base else Backoff(base, k) <= base
  {
    if k > 0 {
      BackoffGrows(base, k - 1);
    }
  }

  lemma {:induction false} BackoffIsExponential(base: int, k: nat)
    ensures Backoff(base, k) == base * Pow2(k)
  {
    if k > 0 {
      BackoffIsExponential(base, k - 1);
    }
  }

  lemma SleepStep(base: int, k: nat, slept: int, jitter: int)
    requires SleepBounds(base, k, slept) && !TooShort(base)
    requires var half := Half(Backoff(base, k)); 0 <= jitter < (if half < 0 then -half else half)
    ensures var pause := Backoff(base, k) + jitter;
            SleepBounds(base, k + 1, if pause > 0 then slept + pause else slept)
  {
    BackoffGrows(base, k);
  }

  /** When every retry is used, the total sleep is at least base * (2^R - 1) and less than one and a half times that;
      with a negative base there is none. */
  lemma TotalSleepWhenRetriesRunOut(maxRetries: int, base: int, outcomes: nat -> bool, r: Report)
    requires Accounted(maxRetries, base, outcomes, r) && !r.succeeded && !r.panicked && maxRetries >= 1
    ensures if base < 0 then r.slept == 0
            else base * (Pow2(maxRetries) - 1) <= r.slept && 2 * r.slept < 3 * (base * (Pow2(maxRetries) - 1))
  {
    BackoffIsExponential(base, maxRetries);
    assert base * (Pow2(maxRetries) - 1) == base * Pow2(maxRetries) - base;
  }
}
