/** The request coalescer as a protocol: goroutines calling Do, each critical section one atomic step, in any
    interleaving with Forget and Clear. */
module Coalescing {
  import opened Collections

  /** What fn returned. */
  datatype Outcome = Outcome(val: string, err: string)

  /** A call record; `done` is its wait group having been released. */
  datatype Call = Call(key: string, leader: nat, outcome: Option<Outcome>, done: bool)

  /** Where a goroutine is inside Do. */
  datatype Thread =
    | Leading(key: string, call: nat)     // running fn
    | Stored(key: string, call: nat)      // result stored, map entry not yet deleted
    | Deleted(key: string, call: nat)     // map entry deleted, followers not yet released
    | Waiting(key: string, call: nat)     // blocked on the wait group
    | Returned(key: string, call: nat, outcome: Outcome)

  datatype State = State(calls: map<string, nat>, heap: map<nat, Call>, next: nat, threads: map<nat, Thread>)

  const EMPTY := State(map[], map[], 0, map[])

  datatype Action =
    | Enter(t: nat, key: string)
    | Finish(t: nat, outcome: Outcome)
    | Delete(t: nat)
    | Signal(t: nat)
    | Wake(t: nat)
    | Forget(key: string)
    | Clear

  predicate CanEnter(s: State, t: nat) {
    t in s.threads ==> s.threads[t].Returned?
  }

  /** One atomic step; an action whose goroutine is not at that point changes nothing. */
  function Next(s: State, a: Action): State {
    match a
    case Enter(t, k) =>
      if !CanEnter(s, t) then s
      else if k in s.calls then s.(threads := s.threads[t := Waiting(k, s.calls[k])])
      else s.(calls := s.calls[k := s.next],
              heap := s.heap[s.next := Call(k, t, None, false)],
              next := s.next + 1,
              threads := s.threads[t := Leading(k, s.next)])
    case Finish(t, o) =>
      if t in s.threads && s.threads[t].Leading? && s.threads[t].call in s.heap then
        var c := s.threads[t].call;
        s.(heap := s.heap[c := s.heap[c].(outcome := Some(o))],
           threads := s.threads[t := Stored(s.threads[t].key, c)])
      else s
    case Delete(t) =>
      if t in s.threads && s.threads[t].Stored? then
        s.(calls := s.calls - {s.threads[t].key},
           threads := s.threads[t := Deleted(s.threads[t].key, s.threads[t].call)])
      else s
    case Signal(t) =>
      if CanSignal(s, t) then
        var c := s.threads[t].call;
        s.(heap := s.heap[c := s.heap[c].(done := true)],
           threads := s.threads[t := Returned(s.threads[t].key, c, s.heap[c].outcome.value)])
      else s
    case Wake(t) =>
      if CanWake(s, t) then
        var c := s.threads[t].call;
        s.(threads := s.threads[t := Returned(s.threads[t].key, c, s.heap[c].outcome.value)])
      else s
    case Forget(k) => s.(calls := s.calls - {k})
    case Clear => s.(calls := map[])
  }

  predicate CanSignal(s: State, t: nat) {
    && t in s.threads && s.threads[t].Deleted?
    && s.threads[t].call in s.heap && s.heap[s.threads[t].call].outcome.Some?
  }

  predicate CanWake(s: State, t: nat) {
    && t in s.threads && s.threads[t].Waiting?
    && s.threads[t].call in s.heap
    && s.heap[s.threads[t].call].done && s.heap[s.threads[t].call].outcome.Some?
  }

  predicate InProgress(th: Thread) {
    th.Leading? || th.Stored? || th.Deleted?
  }

  ghost predicate ThreadOk(s: State, t: nat) {
    t in s.threads ==>
      var th := s.threads[t];
      && th.call in s.heap && s.heap[th.call].key == th.key
      && (InProgress(th) ==> s.heap[th.call].leader == t && !s.heap[th.call].done)
      && (th.Leading? ==> s.heap[th.call].outcome.None?)
      && (th.Stored? || th.Deleted? ==> s.heap[th.call].outcome.Some?)
      && (th.Returned? ==> s.heap[th.call].done && s.heap[th.call].outcome == Some(th.outcome))
  }

  ghost predicate CallOk(s: State, c: nat) {
    c in s.heap ==>
      && c < s.next
      && (s.heap[c].done ==> s.heap[c].outcome.Some?)
      && (!s.heap[c].done ==>
            var t := s.heap[c].leader;
            t in s.threads && InProgress(s.threads[t]) && s.threads[t].call == c)
  }

  /** Holds in every interleaving: results go where they belong, and a call that is not done has a leader at work. */
  ghost predicate Inv(s: State) {
    && (forall k | k in s.calls :: s.calls[k] in s.heap && s.heap[s.calls[k]].key == k)
    && (forall t :: ThreadOk(s, t))
    && (forall c :: CallOk(s, c))
  }

  lemma NextKeepsInv(s: State, a: Action)
    requires Inv(s)
    ensures Inv(Next(s, a))
  {
    assert forall k | k in s.calls :: CallOk(s, s.calls[k]);
    assert CallOk(s, s.next);
    forall t ensures ThreadOk(Next(s, a), t) {
      NextKeepsThread(s, a, t);
    }
    forall c ensures CallOk(Next(s, a), c) {
      NextKeepsCall(s, a, c);
    }
  }

  lemma NextKeepsThread(s: State, a: Action, t: nat)
    requires Inv(s)
    ensures ThreadOk(Next(s, a), t)
  {
    assert ThreadOk(s, t) && CallOk(s, s.next);
    if a.Finish? || a.Signal? {
      assert ThreadOk(s, a.t);
    }
    if t in s.threads {
      assert CallOk(s, s.threads[t].call);
    }
    if a.Enter? && a.key in s.calls {
      assert CallOk(s, s.calls[a.key]);
    }
  }

  lemma NextKeepsCall(s: State, a: Action, c: nat)
    requires Inv(s)
    ensures CallOk(Next(s, a), c)
  {
    assert CallOk(s, c) && CallOk(s, s.next);
    if a.Finish? || a.Signal? {
      assert ThreadOk(s, a.t);
    }
    if c in s.heap {
      assert ThreadOk(s, s.heap[c].leader);
    }
  }

  ghost function Run(s: State, acts: seq<Action>): State
    decreases acts
  {
    if acts == [] then s else Run(Next(s, acts[0]), acts[1..])
  }

  lemma {:induction false} RunKeepsInv(s: State, acts: seq<Action>)
    requires Inv(s)
    ensures Inv(Run(s, acts))
    decreases acts
  {
    if acts != [] {
      NextKeepsInv(s, acts[0]);
      RunKeepsInv(Next(s, acts[0]), acts[1..]);
    }
  }

  // Delivery of results.

  /** A goroutine blocked on call c either still is or has returned with exactly what c holds. */
  ghost predicate OnCall(s: State, t: nat, k: string, c: nat) {
    && t in s.threads && c in s.heap
    && (s.threads[t] == Waiting(k, c) ||
        (s.threads[t].Returned? && s.threads[t].call == c && s.threads[t].key == k && s.heap[c].done &&
         s.heap[c].outcome == Some(s.threads[t].outcome)))
  }

  lemma {:induction false} RunStaysOnCall(s: State, acts: seq<Action>, t: nat, k: string, c: nat)
    requires Inv(s) && OnCall(s, t, k, c)
    requires forall i :: 0 <= i < |acts| ==> !(acts[i].Enter? && acts[i].t == t)
    ensures OnCall(Run(s, acts), t, k, c)
    decreases acts
  {
    if acts != [] {
      assert !(acts[0].Enter? && acts[0].t == t);
      NextKeepsInv(s, acts[0]);
      NextStaysOnCall(s, acts[0], t, k, c);
      RunStaysOnCall(Next(s, acts[0]), acts[1..], t, k, c);
    }
  }

  lemma NextStaysOnCall(s: State, a: Action, t: nat, k: string, c: nat)
    requires Inv(s) && OnCall(s, t, k, c) && !(a.Enter? && a.t == t)
    ensures OnCall(Next(s, a), t, k, c)
  {
    assert ThreadOk(s, t) && CallOk(s, c);
    if a.Finish? || a.Signal? {
      assert ThreadOk(s, a.t);
    }
  }

  /** What a leader stores is what its call holds for ever after: results are written once. */
  lemma {:induction false} OutcomeIsWrittenOnce(s: State, acts: seq<Action>, c: nat)
    requires Inv(s) && c in s.heap && s.heap[c].outcome.Some?
    ensures var r := Run(s, acts);
            c in r.heap && r.heap[c].outcome == s.heap[c].outcome && r.heap[c].key == s.heap[c].key
    decreases acts
  {
    if acts != [] {
      NextKeepsInv(s, acts[0]);
      assert CallOk(s, c);
      if acts[0].Finish? {
        assert ThreadOk(s, acts[0].t);
      }
      OutcomeIsWrittenOnce(Next(s, acts[0]), acts[1..], c);
    }
  }

  /** The i-th action of the run is the one in which the leader of call c stores outcome o. */
  ghost predicate FinishedBy(acts: seq<Action>, i: int, c: nat, o: Outcome) {
    && 0 <= i < |acts| && acts[i].Finish? && acts[i].outcome == o
    && var s := Run(EMPTY, acts[..i]);
       acts[i].t in s.threads && s.threads[acts[i].t].Leading? && s.threads[acts[i].t].call == c
  }

  lemma {:induction false} RunSnoc(s: State, acts: seq<Action>, a: Action)
    ensures Run(s, acts + [a]) == Next(Run(s, acts), a)
    decreases acts
  {
    if acts != [] {
      assert (acts + [a])[1..] == acts[1..] + [a];
      RunSnoc(Next(s, acts[0]), acts[1..], a);
    }
  }

  lemma {:induction false} RunConcat(s: State, a: seq<Action>, b: seq<Action>)
    ensures Run(s, a + b) == Run(Run(s, a), b)
    decreases a
  {
    if a == [] {
      assert a + b == b;
    } else {
      assert (a + b)[1..] == a[1..] + b;
      RunConcat(Next(s, a[0]), a[1..], b);
    }
  }

  /** A step leaves a stored result alone, and only its leader's Finish stores one. */
  lemma OutcomeStep(s: State, a: Action, c: nat)
    requires Inv(s) && c in Next(s, a).heap && Next(s, a).heap[c].outcome.Some?
    ensures if c in s.heap && s.heap[c].outcome.Some? then Next(s, a).heap[c].outcome == s.heap[c].outcome
            else a.Finish? && Next(s, a).heap[c].outcome == Some(a.outcome) &&
                 a.t in s.threads && s.threads[a.t].Leading? && s.threads[a.t].call == c
  {
    assert CallOk(s, c);
    if a.Finish? {
      assert ThreadOk(s, a.t);
    }
  }

  /** Every result a call holds was stored by its leader's Finish. */
  lemma {:induction false} OutcomeComesFromFinish(acts: seq<Action>, c: nat)
    requires c in Run(EMPTY, acts).heap && Run(EMPTY, acts).heap[c].outcome.Some?
    ensures exists i :: FinishedBy(acts, i, c, Run(EMPTY, acts).heap[c].outcome.value)
    decreases |acts|
  {
    var front, a := acts[..|acts| - 1], acts[|acts| - 1];
    assert acts == front + [a];
    RunSnoc(EMPTY, front, a);
    var s := Run(EMPTY, front);
    RunKeepsInv(EMPTY, front);
    OutcomeStep(s, a, c);
    if c in s.heap && s.heap[c].outcome.Some? {
      OutcomeComesFromFinish(front, c);
      var i :| FinishedBy(front, i, c, s.heap[c].outcome.value);
      assert acts[..i] == front[..i];
      assert FinishedBy(acts, i, c, s.heap[c].outcome.value);
    } else {
      assert acts[..|front|] == front;
      assert FinishedBy(acts, |front|, c, Next(s, a).heap[c].outcome.value);
    }
  }

  /** A follower that joined call c waits or returns, in whatever interleaving with Forget and Clear; what it returns
      is the outcome of the Finish in which c's leader stored its result, earlier in the run. */
  lemma FollowerGetsItsCallsResult(before: seq<Action>, t: nat, k: string, after: seq<Action>)
    requires CanEnter(Run(EMPTY, before), t) && k in Run(EMPTY, before).calls
    requires forall i :: 0 <= i < |after| ==> !(after[i].Enter? && after[i].t == t)
    ensures var all := before + ([Enter(t, k)] + after);
            var c := Run(EMPTY, before).calls[k];
            var r := Run(EMPTY, all);
            && OnCall(r, t, k, c) && r.heap[c].key == k
            && (r.threads[t].Returned? ==> exists i :: FinishedBy(all, i, c, r.threads[t].outcome))
  {
    assert Inv(EMPTY);
    RunKeepsInv(EMPTY, before);
    var s := Run(EMPTY, before);
    var c := s.calls[k];
    NextKeepsInv(s, Enter(t, k));
    RunStaysOnCall(Next(s, Enter(t, k)), after, t, k, c);
    RunKeepsInv(Next(s, Enter(t, k)), after);
    var all := before + ([Enter(t, k)] + after);
    RunConcat(EMPTY, before, [Enter(t, k)] + after);
    assert ([Enter(t, k)] + after)[1..] == after;
    var r := Run(EMPTY, all);
    assert r == Run(Next(s, Enter(t, k)), after);
    assert ThreadOk(r, t);
    if r.threads[t].Returned? {
      OutcomeComesFromFinish(all, c);
    }
  }

  /** No follower is stranded: while it waits, either it can wake or its call's leader can take a step. */
  lemma WaitingIsNeverStuck(acts: seq<Action>, t: nat)
    requires var s := Run(EMPTY, acts); t in s.threads && s.threads[t].Waiting?
    ensures var s := Run(EMPTY, acts);
            var c := s.threads[t].call;
            CanWake(s, t) ||
            (c in s.heap && s.heap[c].leader in s.threads && s.threads[s.heap[c].leader].call == c &&
             InProgress(s.threads[s.heap[c].leader]))
  {
    RunKeepsInv(EMPTY, acts);
    var s := Run(EMPTY, acts);
    assert ThreadOk(s, t) && CallOk(s, s.threads[t].call);
  }

  // Single flight.

  /** Between inserting its call and deleting it. */
  predicate Flying(th: Thread) {
    th.Leading? || th.Stored?
  }

  function Flyers(s: State): set<nat> {
    set t | t in s.threads && Flying(s.threads[t])
  }

  ghost predicate FlyersListed(s: State) {
    forall t | t in s.threads && Flying(s.threads[t]) ::
      s.threads[t].key in s.calls && s.calls[s.threads[t].key] == s.threads[t].call
  }

  ghost predicate ListedFly(s: State) {
    forall k | k in s.calls ::
      s.calls[k] in s.heap && LedBy(s, s.calls[k], s.heap[s.calls[k]].leader)
  }

  predicate LedBy(s: State, c: nat, t: nat) {
    t in s.threads && Flying(s.threads[t]) && s.threads[t].call == c
  }

  /** The map lists exactly the calls of the leaders in flight. */
  ghost predicate Registered(s: State) {
    FlyersListed(s) && ListedFly(s)
  }

  predicate Ordinary(a: Action) {
    !a.Forget? && !a.Clear?
  }

  /** The goroutines leading the calls of the given keys. */
  function Leaders(s: State, keys: set<string>): set<nat>
    requires keys <= s.calls.Keys && forall k | k in s.calls :: s.calls[k] in s.heap
  {
    set k | k in keys :: s.heap[s.calls[k]].leader
  }

  /** Different keys have different leaders. */
  lemma {:induction false} LeadersCount(s: State, keys: set<string>)
    requires Inv(s) && Registered(s) && keys <= s.calls.Keys
    ensures |Leaders(s, keys)| == |keys|
    decreases |keys|
  {
    if keys != {} {
      var k :| k in keys;
      LeadersCount(s, keys - {k});
      var t := s.heap[s.calls[k]].leader;
      ListedKeyFlies(s, k);
      forall j | j in keys - {k} ensures s.heap[s.calls[j]].leader != t {
        ListedKeyFlies(s, j);
      }
      assert Leaders(s, keys) == Leaders(s, keys - {k}) + {t};
    }
  }

  /** A listed key has a leader in flight with that key. */
  lemma ListedKeyFlies(s: State, k: string)
    requires Inv(s) && ListedFly(s) && k in s.calls
    ensures var t := s.heap[s.calls[k]].leader;
            t in s.threads && Flying(s.threads[t]) && s.threads[t].key == k
  {
    assert ThreadOk(s, s.heap[s.calls[k]].leader);
  }

  /** Then the map has as many entries as there are leaders in flight. */
  lemma RegisteredCounts(s: State)
    requires Inv(s) && Registered(s)
    ensures |s.calls| == |Flyers(s)|
  {
    LeadersCount(s, s.calls.Keys);
    forall t | t in Flyers(s) ensures t in Leaders(s, s.calls.Keys) {
      var k := s.threads[t].key;
      assert ThreadOk(s, t);
      assert s.heap[s.calls[k]].leader == t;
    }
    forall t | t in Leaders(s, s.calls.Keys) ensures t in Flyers(s) {
      var k :| k in s.calls && s.heap[s.calls[k]].leader == t;
      ListedKeyFlies(s, k);
    }
    assert Leaders(s, s.calls.Keys) == Flyers(s);
  }

  lemma EnterKeepsRegistered(s: State, t: nat, k: string)
    requires s.next !in s.heap && Registered(s)
    ensures Registered(Next(s, Enter(t, k)))
  {
    var r := Next(s, Enter(t, k));
    forall j | j in r.calls ensures r.calls[j] in r.heap && LedBy(r, r.calls[j], r.heap[r.calls[j]].leader) {
      if j in s.calls {
        assert LedBy(s, s.calls[j], s.heap[s.calls[j]].leader);
      }
    }
  }

  lemma DeleteKeepsRegistered(s: State, t: nat)
    requires Inv(s) && Registered(s)
    ensures Registered(Next(s, Delete(t)))
  {
    var r := Next(s, Delete(t));
    assert forall u | u in s.threads :: ThreadOk(s, u);
    forall j | j in r.calls ensures r.calls[j] in r.heap && LedBy(r, r.calls[j], r.heap[r.calls[j]].leader) {
      assert LedBy(s, s.calls[j], s.heap[s.calls[j]].leader);
    }
  }

  lemma FinishKeepsRegistered(s: State, t: nat, o: Outcome)
    requires Inv(s) && Registered(s)
    ensures Registered(Next(s, Finish(t, o)))
  {
  }

  lemma ReturnKeepsRegistered(s: State, a: Action)
    requires Inv(s) && Registered(s) && (a.Signal? || a.Wake?)
    ensures Registered(Next(s, a))
  {
    assert ThreadOk(s, a.t);
  }

  lemma NextKeepsRegistered(s: State, a: Action)
    requires Inv(s) && Registered(s) && Ordinary(a)
    ensures Registered(Next(s, a))
  {
    match a
    case Enter(t, k) =>
      assert CallOk(s, s.next);
      EnterKeepsRegistered(s, t, k);
    case Finish(t, o) => FinishKeepsRegistered(s, t, o);
    case Delete(t) => DeleteKeepsRegistered(s, t);
    case _ => ReturnKeepsRegistered(s, a);
  }

  lemma {:induction false} RunKeepsRegistered(s: State, acts: seq<Action>)
    requires Inv(s) && Registered(s)
    requires forall i :: 0 <= i < |acts| ==> Ordinary(acts[i])
    ensures Inv(Run(s, acts)) && Registered(Run(s, acts))
    decreases acts
  {
    if acts != [] {
      assert Ordinary(acts[0]);
      NextKeepsInv(s, acts[0]);
      NextKeepsRegistered(s, acts[0]);
      RunKeepsRegistered(Next(s, acts[0]), acts[1..]);
    }
  }

  /** Without Forget and Clear, in every interleaving, at most one goroutine executes fn for a key, and InFlight is
      the number of leaders between insert and delete. */
  lemma SingleFlight(acts: seq<Action>, t: nat, u: nat)
    requires forall i :: 0 <= i < |acts| ==> Ordinary(acts[i])
    ensures var s := Run(EMPTY, acts);
            && |s.calls| == |Flyers(s)|
            && ((t in s.threads && u in s.threads && Flying(s.threads[t]) && Flying(s.threads[u]) &&
                 s.threads[t].key == s.threads[u].key) ==> t == u)
  {
    RunKeepsRegistered(EMPTY, acts);
    var s := Run(EMPTY, acts);
    RegisteredCounts(s);
    assert ThreadOk(s, t) && ThreadOk(s, u);
  }

  /** Forget keeps the bookkeeping exactly when the key is not in flight. */
  lemma ForgetKeepsRegisteredIff(s: State, k: string)
    requires Inv(s) && Registered(s)
    ensures Registered(Next(s, Forget(k))) <==> k !in s.calls
  {
    if k in s.calls {
      ListedKeyFlies(s, k);
      assert k !in Next(s, Forget(k)).calls;
    } else {
      assert s.calls - {k} == s.calls;
    }
  }

  lemma ClearKeepsRegisteredIff(s: State)
    requires Inv(s) && Registered(s)
    ensures Registered(Next(s, Clear)) <==> s.calls == map[]
  {
    if s.calls != map[] {
      var k :| k in s.calls;
      var t := s.heap[s.calls[k]].leader;
      assert t in Flyers(s);
    }
  }

  /** At most one goroutine executes fn for any one key. */
  ghost predicate OneFlightPerKey(s: State) {
    forall t, u | t in s.threads && u in s.threads ::
      Flying(s.threads[t]) && Flying(s.threads[u]) && s.threads[t].key == s.threads[u].key ==> t == u
  }

  predicate AllOrdinary(acts: seq<Action>) {
    forall i :: 0 <= i < |acts| ==> Ordinary(acts[i])
  }

  /** Single flight holds from here on, in whatever ordinary run. */
  ghost predicate StaysSingleFlight(s: State) {
    forall acts: seq<Action> :: AllOrdinary(acts) ==> OneFlightPerKey(Run(s, acts))
  }

  lemma RegisteredStaysSingleFlight(s: State)
    requires Inv(s) && Registered(s)
    ensures StaysSingleFlight(s)
  {
    forall acts: seq<Action> | AllOrdinary(acts) ensures OneFlightPerKey(Run(s, acts)) {
      RunKeepsRegistered(s, acts);
      var r := Run(s, acts);
      forall t, u | t in r.threads && u in r.threads && Flying(r.threads[t]) && Flying(r.threads[u]) &&
                    r.threads[t].key == r.threads[u].key
        ensures t == u
      {
        assert ThreadOk(r, t) && ThreadOk(r, u);
      }
    }
  }

  lemma {:induction false} FreshThread(used: set<nat>) returns (t: nat)
    ensures forall u | u in used :: u < t
    decreases |used|
  {
    t := 0;
    if used != {} {
      var u :| u in used;
      var rest := FreshThread(used - {u});
      t := if rest > u then rest else u + 1;
      forall v | v in used ensures v < t {
        assert v == u || v in used - {u};
      }
    }
  }

  /** When the call of a leader in flight is no longer listed, a newcomer starts a second one. */
  lemma UnlistedFlightEndsSingleFlight(s: State, t: nat)
    requires t in s.threads && Flying(s.threads[t]) && s.threads[t].key !in s.calls
    ensures !StaysSingleFlight(s)
  {
    var k := s.threads[t].key;
    var u := FreshThread(s.threads.Keys);
    var acts := [Enter(u, k)];
    assert acts[1..] == [];
    assert Run(s, acts) == Next(s, acts[0]);
    var r := Run(s, acts);
    assert r.threads == s.threads[u := Leading(k, s.next)];
    assert u in r.threads && t in r.threads && Flying(r.threads[u]) && Flying(r.threads[t]);
    assert u != t && r.threads[u].key == r.threads[t].key;
    assert AllOrdinary(acts) && !OneFlightPerKey(r);
  }

  /** Forget keeps single flight, in every later ordinary run, exactly when the key is not in flight. */
  lemma ForgetKeepsSingleFlightIff(s: State, k: string)
    requires Inv(s) && Registered(s)
    ensures StaysSingleFlight(Next(s, Forget(k))) <==> k !in s.calls
  {
    NextKeepsInv(s, Forget(k));
    if k in s.calls {
      var t := s.heap[s.calls[k]].leader;
      ListedKeyFlies(s, k);
      UnlistedFlightEndsSingleFlight(Next(s, Forget(k)), t);
    } else {
      ForgetKeepsRegisteredIff(s, k);
      RegisteredStaysSingleFlight(Next(s, Forget(k)));
    }
  }

  /** Clear does exactly when nothing is in flight. */
  lemma ClearKeepsSingleFlightIff(s: State)
    requires Inv(s) && Registered(s)
    ensures StaysSingleFlight(Next(s, Clear)) <==> s.calls == map[]
  {
    NextKeepsInv(s, Clear);
    if s.calls == map[] {
      ClearKeepsRegisteredIff(s);
      RegisteredStaysSingleFlight(Next(s, Clear));
    } else {
      var k :| k in s.calls;
      ListedKeyFlies(s, k);
      UnlistedFlightEndsSingleFlight(Next(s, Clear), s.heap[s.calls[k]].leader);
    }
  }

  /** Forgetting a key in flight lets a second execution start, and the first leader's delete then removes the second
      call from the map although it is still running. */
  lemma ForgetAllowsSecondFlight(o: Outcome)
    ensures var s := Run(EMPTY, [Enter(0, "k"), Forget("k"), Enter(1, "k")]);
            && s.threads == map[0 := Leading("k", 0), 1 := Leading("k", 1)]
            && "k" !in Next(Next(s, Finish(0, o)), Delete(0)).calls
  {
    var s1 := Next(EMPTY, Enter(0, "k"));
    var s2 := Next(s1, Forget("k"));
    var s3 := Next(s2, Enter(1, "k"));
    assert Run(s2, [Enter(1, "k")]) == s3;
    assert Run(s1, [Forget("k"), Enter(1, "k")]) == s3;
    assert s3.threads == map[0 := Leading("k", 0), 1 := Leading("k", 1)];
  }
}

/** The coalescer's shared state, each method one critical section or one private step of a goroutine. */
module RequestCoalescer {
  import opened Collections
  import opened Coalescing

  class RequestCoalescer {
    var calls: map<string, nat>
    var heap: map<nat, Call>
    var next: nat
    ghost var threads: map<nat, Thread>

    ghost function View(): State
      reads this
    {
      State(calls, heap, next, threads)
    }

    constructor ()
      ensures View() == EMPTY
    {
      calls, heap, next, threads := map[], map[], 0, map[];
    }

    /** The first critical section of Do: join the call in flight or start one. */
    method Join(t: nat, key: string) returns (call: nat, leads: bool)
      requires CanEnter(View(), t)
      modifies this
      ensures View() == Next(old(View()), Enter(t, key))
      ensures threads[t] == if leads then Leading(key, call) else Waiting(key, call)
    {
      if key in calls {
        call, leads := calls[key], false;
        threads := threads[t := Waiting(key, call)];
        return;
      }
      call, leads := next, true;
      heap := heap[call := Call(key, t, None, false)];
      next := next + 1;
      calls := calls[key := call];
      threads := threads[t := Leading(key, call)];
    }

    method Store(ghost t: nat, call: nat, outcome: Outcome)
      requires Inv(View()) && t in threads && threads[t].Leading? && threads[t].call == call
      modifies this
      ensures View() == Next(old(View()), Finish(t, outcome))
    {
      assert ThreadOk(View(), t);
      heap := heap[call := heap[call].(outcome := Some(outcome))];
      threads := threads[t := Stored(threads[t].key, call)];
    }

    method DeleteCall(ghost t: nat, key: string)
      requires t in threads && threads[t].Stored? && threads[t].key == key
      modifies this
      ensures View() == Next(old(View()), Delete(t))
    {
      calls := calls - {key};
      threads := threads[t := Deleted(key, threads[t].call)];
    }

    method Done(ghost t: nat, call: nat) returns (outcome: Outcome)
      requires Inv(View()) && t in threads && threads[t].Deleted? && threads[t].call == call
      modifies this
      ensures View() == Next(old(View()), Signal(t))
      ensures call in old(heap) && old(heap)[call].outcome == Some(outcome)
    {
      assert ThreadOk(View(), t);
      heap := heap[call := heap[call].(done := true)];
      outcome := heap[call].outcome.value;
      threads := threads[t := Returned(threads[t].key, call, outcome)];
    }

    /** A follower past the wait group reads the call's result. */
    method Collect(ghost t: nat, call: nat) returns (outcome: Outcome)
      requires CanWake(View(), t) && threads[t].call == call
      modifies this`threads
      ensures View() == Next(old(View()), Wake(t))
      ensures heap[call].outcome == Some(outcome)
    {
      outcome := heap[call].outcome.value;
      threads := threads[t := Returned(threads[t].key, call, outcome)];
    }

    method Forget(key: string)
      modifies this`calls
      ensures View() == Next(old(View()), Action.Forget(key))
    {
      calls := calls - {key};
    }

    method Clear()
      modifies this`calls
      ensures View() == Next(old(View()), Action.Clear)
    {
      calls := map[];
    }

    /** As long as map and leaders are in step, the number of leaders between insert and delete. */
    method InFlight() returns (n: nat)
      ensures Inv(View()) && Registered(View()) ==> n == |Flyers(View())|
      ensures n == 0 <==> calls == map[]
    {
      if Inv(View()) && Registered(View()) {
        RegisteredCounts(View());
      }
      n := |calls|;
    }
  }
}
