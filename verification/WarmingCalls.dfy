/** The deduplicated calls of the warming workers: one leader per key, and every follower concludes its attempt with the
    outcome of the call it joined, in any interleaving. */
module WarmingCalls {
  import opened Collections
  import opened EmergencyStop

  /** The worker is executing a call of its own. */
  predicate InCall(w: Worker) {
    w.Leading? || w.Judging? || w.Writing?
  }

  predicate LedBy(s: State, c: nat, w: nat) {
    w in s.workers && InCall(s.workers[w]) && s.workers[w].call == c
  }

  /** What is known of a worker: a leader's call is listed under its key, a follower's is listed or has its result, and
      no attempt exceeds the retries. */
  ghost predicate WorkerOk(retries: nat, s: State, w: nat) {
    w in s.workers && !s.workers[w].Idle? ==>
      var me := s.workers[w];
      && me.attempt <= retries
      && (InCall(me) ==> me.key in s.inflight && s.inflight[me.key] == me.call)
      && (me.Following? ==> me.call < s.next && (me.call in s.results ||
                                                 (me.key in s.inflight && s.inflight[me.key] == me.call)))
  }

  /** A listed call has one leader and no result yet. */
  ghost predicate KeyOk(s: State, k: string) {
    k in s.inflight ==>
      var c := s.inflight[k];
      && c < s.next && c !in s.results
      && exists w :: LedBy(s, c, w) && s.workers[w].key == k
  }

  /** Two workers in calls of their own are at different keys and calls. */
  ghost predicate Separate(s: State, v: nat, w: nat) {
    v != w && v in s.workers && w in s.workers && InCall(s.workers[v]) && InCall(s.workers[w]) ==>
      s.workers[v].key != s.workers[w].key && s.workers[v].call != s.workers[w].call
  }

  ghost predicate CallsOk(retries: nat, s: State) {
    && (forall w :: WorkerOk(retries, s, w))
    && (forall k :: KeyOk(s, k))
    && (forall c :: c in s.results ==> c < s.next)
    && (forall v, w :: Separate(s, v, w))
  }

  /** The outcome with which the action ends the attempt of its worker, if it does. */
  function Ending(s: State, a: Action): Option<bool> {
    if a.Enqueue? || a.w !in s.workers then None
    else
      var me := s.workers[a.w];
      match a
      case TestFlag(_) => if me.Starting? && s.stopped then Some(false) else None
      case Refuse(_) => if me.Leading? then Some(false) else None
      case Fetch(_, ok) => if me.Leading? && !ok then Some(false) else None
      case Judge(_, slow) => if me.Judging? && slow then Some(false) else None
      case Write(_, ok) => if me.Writing? then Some(ok) else None
      case Wake(_) => if me.Following? && me.call in s.results then Some(s.results[me.call]) else None
      case _ => None
  }

  /** An attempt goes on until it ends; then the task is done if it succeeded or was the last one allowed, and is tried
      again otherwise. No other worker is touched. */
  lemma AttemptEnds(retries: nat, s: State, a: Action)
    requires !a.Enqueue? && a.w in s.workers && !s.workers[a.w].Idle?
    ensures var me, r := s.workers[a.w], Next(retries, s, a);
            && r.workers == s.workers[a.w := r.workers[a.w]]
            && var now := r.workers[a.w];
               match Ending(s, a)
               case None => !now.Idle? && now.key == me.key && now.attempt == me.attempt
               case Some(ok) =>
                 if ok || me.attempt >= retries then now == Idle else now == Starting(me.key, me.attempt + 1)
  {
    assert s.workers == s.workers[a.w := s.workers[a.w]];
  }

  /** A leader's attempt ends together with its call: the outcome is recorded and the key is free. */
  lemma CallEnds(retries: nat, s: State, a: Action)
    requires !a.Enqueue? && a.w in s.workers && InCall(s.workers[a.w]) && Ending(s, a).Some?
    ensures var me, r := s.workers[a.w], Next(retries, s, a);
            r.results == s.results[me.call := Ending(s, a).value] && r.inflight == s.inflight - {me.key}
  {
  }

  // The invariant.

  lemma NextKeepsWorkers(retries: nat, s: State, a: Action, w: nat)
    requires CallsOk(retries, s)
    ensures WorkerOk(retries, Next(retries, s, a), w)
  {
    assert WorkerOk(retries, s, w);
    if !a.Enqueue? && a.w in s.workers {
      assert WorkerOk(retries, s, a.w);
      if w == a.w {
        MoverStaysOk(retries, s, a);
      } else {
        BystanderStaysOk(retries, s, a, w);
      }
    }
  }

  lemma MoverStaysOk(retries: nat, s: State, a: Action)
    requires CallsOk(retries, s) && !a.Enqueue? && a.w in s.workers
    ensures WorkerOk(retries, Next(retries, s, a), a.w)
  {
    assert WorkerOk(retries, s, a.w);
    if s.workers[a.w].Cleared? {
      assert KeyOk(s, s.workers[a.w].key);
    }
  }

  lemma BystanderStaysOk(retries: nat, s: State, a: Action, w: nat)
    requires CallsOk(retries, s) && !a.Enqueue? && a.w in s.workers && w != a.w
    ensures WorkerOk(retries, Next(retries, s, a), w)
  {
    assert WorkerOk(retries, s, w) && WorkerOk(retries, s, a.w) && Separate(s, w, a.w);
  }

  /** A listed key was listed before, with the same call, or its worker has just started one. */
  lemma ListedBefore(retries: nat, s: State, a: Action, k: string)
    requires k in Next(retries, s, a).inflight
    ensures var r := Next(retries, s, a);
            if k in s.inflight then r.inflight[k] == s.inflight[k]
            else a.Join? && r.inflight[k] == s.next && LedBy(r, s.next, a.w) && r.workers[a.w].key == k &&
                 r.next == s.next + 1
  {
  }

  lemma LeaderStays(retries: nat, s: State, a: Action, k: string, w: nat)
    requires k in s.inflight && LedBy(s, s.inflight[k], w) && s.workers[w].key == k
    requires k in Next(retries, s, a).inflight
    ensures LedBy(Next(retries, s, a), s.inflight[k], w) && Next(retries, s, a).workers[w].key == k
  {
  }

  lemma NextKeepsKeys(retries: nat, s: State, a: Action, k: string)
    requires CallsOk(retries, s)
    ensures KeyOk(Next(retries, s, a), k)
  {
    var r := Next(retries, s, a);
    assert KeyOk(s, k);
    if k in r.inflight {
      ListedBefore(retries, s, a, k);
      if k in s.inflight {
        var w :| LedBy(s, s.inflight[k], w) && s.workers[w].key == k;
        LeaderStays(retries, s, a, k, w);
        if s.inflight[k] in r.results {
          ResultStep(retries, s, a, s.inflight[k]);
          assert Separate(s, w, a.w);
        }
      } else if s.next in r.results {
        ResultStep(retries, s, a, s.next);
      }
    }
  }

  /** A worker in a call was in it before, or has just started it under a free key. */
  lemma InCallBefore(retries: nat, s: State, a: Action, w: nat)
    requires w in s.workers && InCall(Next(retries, s, a).workers[w])
    ensures var me, now := s.workers[w], Next(retries, s, a).workers[w];
            if InCall(me) then now.key == me.key && now.call == me.call
            else a == Join(w) && now.key !in s.inflight && now.call == s.next
  {
  }

  lemma NextKeepsSeparate(retries: nat, s: State, a: Action, v: nat, w: nat)
    requires CallsOk(retries, s)
    ensures Separate(Next(retries, s, a), v, w)
  {
    var r := Next(retries, s, a);
    if v != w && v in r.workers && w in r.workers && InCall(r.workers[v]) && InCall(r.workers[w]) {
      assert Separate(s, v, w) && WorkerOk(retries, s, v) && WorkerOk(retries, s, w);
      InCallBefore(retries, s, a, v);
      InCallBefore(retries, s, a, w);
      if InCall(s.workers[v]) {
        assert KeyOk(s, s.workers[v].key);
      }
      if InCall(s.workers[w]) {
        assert KeyOk(s, s.workers[w].key);
      }
    }
  }

  lemma NextKeepsCalls(retries: nat, s: State, a: Action)
    requires CallsOk(retries, s)
    ensures CallsOk(retries, Next(retries, s, a))
  {
    forall w ensures WorkerOk(retries, Next(retries, s, a), w) {
      NextKeepsWorkers(retries, s, a, w);
    }
    forall k ensures KeyOk(Next(retries, s, a), k) {
      NextKeepsKeys(retries, s, a, k);
    }
    forall v, w ensures Separate(Next(retries, s, a), v, w) {
      NextKeepsSeparate(retries, s, a, v, w);
    }
    if !a.Enqueue? && a.w in s.workers && InCall(s.workers[a.w]) {
      assert WorkerOk(retries, s, a.w) && KeyOk(s, s.workers[a.w].key);
    }
  }

  lemma {:induction false} RunKeepsCalls(retries: nat, s: State, acts: seq<Action>)
    requires CallsOk(retries, s)
    ensures CallsOk(retries, Run(retries, s, acts))
    decreases acts
  {
    if acts != [] {
      NextKeepsCalls(retries, s, acts[0]);
      RunKeepsCalls(retries, Next(retries, s, acts[0]), acts[1..]);
    }
  }

  lemma InitiallyOk(retries: nat, size: nat)
    ensures CallsOk(retries, Initial(size))
  {
    AllIdle(size);
    InitialSize(size);
  }

  /** In any interleaving at most one worker executes a call for any one key, no task is tried more than once and
      `retries` times again, and a follower can wake or its call is still being executed. */
  lemma WarmingIsDeduplicated(retries: nat, size: nat, acts: seq<Action>, v: nat, w: nat)
    requires var s := Run(retries, Initial(size), acts); v in s.workers && w in s.workers
    ensures var s := Run(retries, Initial(size), acts);
            && (InCall(s.workers[v]) && InCall(s.workers[w]) && s.workers[v].key == s.workers[w].key ==> v == w)
            && (!s.workers[w].Idle? ==> s.workers[w].attempt <= retries)
            && (s.workers[w].Following? ==>
                  s.workers[w].call in s.results || exists u :: LedBy(s, s.workers[w].call, u))
  {
    InitiallyOk(retries, size);
    RunKeepsCalls(retries, Initial(size), acts);
    var s := Run(retries, Initial(size), acts);
    assert WorkerOk(retries, s, w) && Separate(s, v, w);
    if s.workers[w].Following? {
      assert KeyOk(s, s.workers[w].key);
    }
  }

  // Where a follower's outcome comes from.

  /** The i-th action of the run is the one that ended call c, with outcome ok. */
  ghost predicate EndedBy(retries: nat, size: nat, acts: seq<Action>, i: int, c: nat, ok: bool) {
    && 0 <= i < |acts| && !acts[i].Enqueue?
    && var s := Run(retries, Initial(size), acts[..i]);
       LedBy(s, c, acts[i].w) && Ending(s, acts[i]) == Some(ok)
  }

  lemma {:induction false} RunSnoc(retries: nat, s: State, acts: seq<Action>, a: Action)
    ensures Run(retries, s, acts + [a]) == Next(retries, Run(retries, s, acts), a)
    decreases acts
  {
    if acts != [] {
      assert (acts + [a])[1..] == acts[1..] + [a];
      RunSnoc(retries, Next(retries, s, acts[0]), acts[1..], a);
    }
  }

  /** A recorded result never changes, and only the end of its call records one. */
  lemma ResultStep(retries: nat, s: State, a: Action, c: nat)
    requires CallsOk(retries, s) && c in Next(retries, s, a).results
    ensures var r := Next(retries, s, a);
            if c in s.results then r.results[c] == s.results[c]
            else !a.Enqueue? && LedBy(s, c, a.w) && Ending(s, a) == Some(r.results[c])
  {
    if !a.Enqueue? && a.w in s.workers && InCall(s.workers[a.w]) {
      assert WorkerOk(retries, s, a.w) && KeyOk(s, s.workers[a.w].key);
    }
  }

  lemma {:induction false} ResultComesFromEnd(retries: nat, size: nat, acts: seq<Action>, c: nat)
    requires c in Run(retries, Initial(size), acts).results
    ensures exists i :: EndedBy(retries, size, acts, i, c, Run(retries, Initial(size), acts).results[c])
    decreases |acts|
  {
    if acts != [] {
      var front, a := acts[..|acts| - 1], acts[|acts| - 1];
      assert acts == front + [a];
      RunSnoc(retries, Initial(size), front, a);
      InitiallyOk(retries, size);
      RunKeepsCalls(retries, Initial(size), front);
      var s := Run(retries, Initial(size), front);
      ResultStep(retries, s, a, c);
      if c in s.results {
        ResultComesFromEnd(retries, size, front, c);
        var i :| EndedBy(retries, size, front, i, c, s.results[c]);
        assert acts[..i] == front[..i];
        assert EndedBy(retries, size, acts, i, c, s.results[c]);
      } else {
        assert acts[..|front|] == front;
        assert EndedBy(retries, size, acts, |front|, c, Next(retries, s, a).results[c]);
      }
    }
  }

  /** A follower that wakes concludes its attempt with the outcome with which the leader of the call it joined ended that
      call, earlier in the run. */
  lemma FollowerConcludesWithItsCall(retries: nat, size: nat, acts: seq<Action>, w: nat) returns (i: nat, ok: bool)
    requires var s := Run(retries, Initial(size), acts);
             w in s.workers && s.workers[w].Following? && s.workers[w].call in s.results
    ensures var s := Run(retries, Initial(size), acts);
            var me := s.workers[w];
            && EndedBy(retries, size, acts, i, me.call, ok)
            && Next(retries, s, Wake(w)).workers[w] ==
               if ok || me.attempt >= retries then Idle else Starting(me.key, me.attempt + 1)
  {
    var s := Run(retries, Initial(size), acts);
    var c := s.workers[w].call;
    ResultComesFromEnd(retries, size, acts, c);
    ok := s.results[c];
    i :| EndedBy(retries, size, acts, i, c, ok);
    AttemptEnds(retries, s, Wake(w));
  }
}
