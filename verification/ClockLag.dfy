/** The two-level cache when a request's two clock readings differ: the service computes a deadline from the first, and
    L1 sets its own from the second. */
module ClockLag {
  import opened Collections
  import opened TwoLevel
  import P = TwoLevelTheorems

  /** A request at `now` whose L1 write, if it makes one, reads the clock `lag` later. */
  datatype Timed = At(now: int, lag: nat, op: P.Op)

  function Step(c: Config, s: State, t: Timed): State {
    match t.op
    case OpGet(k) =>
      if k == "" then s else
        var (l1, hit) := L.Get(s.l1, k, t.now);
        if hit.None? && c.l2Enabled && LiveIn(s.l2, k, t.now)
        then s.(l1 := L.Set(l1, c.maxEntries, k, s.l2[k].value, t.now + t.lag + (s.l2[k].expiresAt - t.now)))
        else s.(l1 := l1)
    case OpSet(k, v, seconds) =>
      if SetRefused(k, v) then s else
        s.(l1 := L.Set(s.l1, c.maxEntries, k, v, t.now + t.lag + TTL(c, seconds)),
           l2 := if c.l2Enabled then s.l2[k := Item(v, t.now + TTL(c, seconds))] else s.l2)
    case _ => P.Step(c, s, P.At(t.now, t.op))
  }

  /** With one clock reading this is the two-level cache of one reading. */
  lemma WithoutLag(c: Config, s: State, t: Timed)
    requires t.lag == 0
    ensures Step(c, s, t) == P.Step(c, s, P.At(t.now, t.op))
  {
  }

  /** What a Set or a promotion puts into L1 is late by exactly the lag; a Set gives L2 the right deadline. */
  lemma WritesAreLateByLag(c: Config, s: State, t: Timed)
    requires c.l2Enabled && L.Distinct(s.l1)
    ensures t.op.OpSet? && !SetRefused(t.op.key, t.op.value) ==>
              var x, r := t.now + TTL(c, t.op.seconds), Step(c, s, t);
              && r.l1[0] == L.Entry(t.op.key, t.op.value, x + t.lag)
              && r.l2 == s.l2[t.op.key := Item(t.op.value, x)]
    ensures t.op.OpGet? && t.op.key != "" && L.Get(s.l1, t.op.key, t.now).1.None? && LiveIn(s.l2, t.op.key, t.now) ==>
              var item := s.l2[t.op.key];
              Step(c, s, t).l1[0] == L.Entry(t.op.key, item.value, item.expiresAt + t.lag)
  {
  }

  function Answer(c: Config, s: State, t: Timed): Option<Item> {
    P.Answer(c, s, P.At(t.now, t.op))
  }

  function PlainStep(c: Config, p: map<string, Item>, t: Timed): map<string, Item> {
    P.PlainStep(c, p, P.At(t.now, t.op))
  }

  function PlainAnswer(p: map<string, Item>, t: Timed): Option<Item> {
    P.PlainAnswer(p, P.At(t.now, t.op))
  }

  /** An L1 entry is the map's item, its deadline late by at most d. */
  predicate CopyWithin(e: L.Entry, p: map<string, Item>, d: nat) {
    e.key in p && p[e.key].value == e.value && p[e.key].expiresAt <= e.expiresAt <= p[e.key].expiresAt + d
  }

  ghost predicate Coupled(s: State, p: map<string, Item>, now: int, d: nat) {
    P.Stored(s.l2, p, now) && L.Distinct(s.l1) && forall e | e in s.l1 :: CopyWithin(e, p, d)
  }

  /** The answer is the map's, except that its deadline may be late, and the item answered, by at most d. */
  predicate Near(answer: Option<Item>, p: map<string, Item>, t: Timed, d: nat) {
    && (PlainAnswer(p, t).Some? ==> answer.Some?)
    && (answer.Some? ==>
          && t.op.OpGet? && CopyWithin(L.Entry(t.op.key, answer.value.value, answer.value.expiresAt), p, d)
          && t.now <= answer.value.expiresAt)
  }

  /** Every answer of the run is near that of the plain map. */
  predicate AnswersNear(c: Config, s: State, p: map<string, Item>, ts: seq<Timed>, d: nat)
    decreases ts
  {
    ts != [] ==>
      Near(Answer(c, s, ts[0]), p, ts[0], d) && AnswersNear(c, Step(c, s, ts[0]), PlainStep(c, p, ts[0]), ts[1..], d)
  }

  /** The clock never goes back, and no second reading is more than d late. */
  predicate LagsWithin(start: int, ts: seq<Timed>, d: nat)
    decreases ts
  {
    ts != [] ==> start <= ts[0].now && ts[0].lag <= d && LagsWithin(ts[0].now, ts[1..], d)
  }

  lemma SetCopies(c: Config, l1: L.List, p: map<string, Item>, e: L.Entry, d: nat)
    requires L.Distinct(l1) && CopyWithin(e, p, d) && forall x | x in l1 && x.key != e.key :: CopyWithin(x, p, d)
    ensures var r := L.Set(l1, c.maxEntries, e.key, e.value, e.expiresAt);
            L.Distinct(r) && forall x | x in r :: CopyWithin(x, p, d)
  {
    L.SetKeepsShape(l1, c.maxEntries, e.key, e.value, e.expiresAt);
    P.SetElements(l1, c.maxEntries, e.key, e.value, e.expiresAt);
  }

  lemma GetStep(c: Config, s: State, p: map<string, Item>, t: Timed, k: string, d: nat)
    requires c.l2Enabled && t.lag <= d && Coupled(s, p, t.now, d) && t.op == P.OpGet(k)
    ensures Coupled(Step(c, s, t), p, t.now, d) && Near(Answer(c, s, t), p, t, d)
  {
    if k != "" {
      L.GetHitsIff(s.l1, k, t.now);
      L.GetKeepsShape(s.l1, k, t.now);
      P.GetElements(s.l1, k, t.now);
      var (l1, hit) := L.Get(s.l1, k, t.now);
      if hit.None? && LiveIn(s.l2, k, t.now) {
        SetCopies(c, l1, p, L.Entry(k, s.l2[k].value, t.now + t.lag + (s.l2[k].expiresAt - t.now)), d);
      }
    }
  }

  lemma SetStep(c: Config, s: State, p: map<string, Item>, t: Timed, k: string, v: Value, seconds: int, d: nat)
    requires c.l2Enabled && t.lag <= d && Coupled(s, p, t.now, d) && t.op == P.OpSet(k, v, seconds)
    ensures Coupled(Step(c, s, t), PlainStep(c, p, t), t.now, d)
  {
    if !SetRefused(k, v) {
      var item := Item(v, t.now + TTL(c, seconds));
      assert PlainStep(c, p, t) == p[k := item];
      P.StoredAfterSet(s.l2, p, t.now, k, item);
      assert forall x | x in s.l1 && x.key != k :: CopyWithin(x, p[k := item], d);
      SetCopies(c, s.l1, p[k := item], L.Entry(k, v, t.now + t.lag + TTL(c, seconds)), d);
    }
  }

  lemma DropStep(s: State, r: State, p: map<string, Item>, q: map<string, Item>, dead: set<string>, now: int, d: nat)
    requires Coupled(s, p, now, d) && r.l1 == L.Drop(s.l1, dead) && P.Stored(r.l2, q, now)
    requires forall k | k in p && k in L.Keys(s.l1) && k !in dead :: k in q && q[k] == p[k]
    ensures Coupled(r, q, now, d)
  {
    L.DropDistinct(s.l1, dead);
    forall e | e in r.l1 ensures CopyWithin(e, q, d) {
      L.DropElements(s.l1, dead, e);
      var i :| 0 <= i < |s.l1| && s.l1[i] == e;
      assert e.key in L.Keys(s.l1);
    }
  }

  /** L2 and the map change together as they do with one reading. */
  lemma StoreStep(c: Config, s: State, p: map<string, Item>, t: Timed, d: nat)
    requires c.l2Enabled && Coupled(s, p, t.now, d) && (t.op.OpInvalidate? || t.op.OpPurge?)
    ensures P.Stored(Step(c, s, t).l2, PlainStep(c, p, t), t.now)
  {
    P.StepKeepsCoupling(c, s.(l1 := []), p, P.At(t.now, t.op));
  }

  lemma StepKeepsCoupling(c: Config, s: State, p: map<string, Item>, t: Timed, d: nat)
    requires c.l2Enabled && t.lag <= d && Coupled(s, p, t.now, d)
    ensures Coupled(Step(c, s, t), PlainStep(c, p, t), t.now, d) && Near(Answer(c, s, t), p, t, d)
  {
    match t.op
    case OpGet(k) => GetStep(c, s, p, t, k, d);
    case OpSet(k, v, seconds) => SetStep(c, s, p, t, k, v, seconds, d);
    case OpInvalidate(keys, pattern) =>
      StoreStep(c, s, p, t, d);
      DropStep(s, Step(c, s, t), p, PlainStep(c, p, t), Targets(s.l1, keys, pattern), t.now, d);
    case OpCleanup => DropStep(s, Step(c, s, t), p, p, L.ExpiredKeys(s.l1, t.now), t.now, d);
    case OpPurge(keys) => StoreStep(c, s, p, t, d);
  }

  lemma {:induction false} RunIsNear(c: Config, s: State, p: map<string, Item>, ts: seq<Timed>, start: int, d: nat)
    requires c.l2Enabled && Coupled(s, p, start, d) && LagsWithin(start, ts, d)
    ensures AnswersNear(c, s, p, ts, d)
    decreases ts
  {
    if ts != [] {
      assert Coupled(s, p, ts[0].now, d);
      StepKeepsCoupling(c, s, p, ts[0], d);
      RunIsNear(c, Step(c, s, ts[0]), PlainStep(c, p, ts[0]), ts[1..], ts[0].now, d);
    }
  }

  /** When no second clock reading is more than d late, every answer of every run is that of the plain expiring map,
      except that a deadline, and with it the item, may be late by at most d; repeated promotions do not add up. */
  lemma LagExtendsLifetimesByAtMostLag(c: Config, ts: seq<Timed>, start: int, d: nat)
    requires c.l2Enabled && LagsWithin(start, ts, d)
    ensures AnswersNear(c, State([], map[], []), map[], ts, d)
  {
    RunIsNear(c, State([], map[], []), map[], ts, start, d);
  }

  /** Every answer of the run is that of the plain map. */
  predicate AnswersExact(c: Config, s: State, p: map<string, Item>, ts: seq<Timed>)
    decreases ts
  {
    ts != [] ==>
      && Answer(c, s, ts[0]) == PlainAnswer(p, ts[0])
      && AnswersExact(c, Step(c, s, ts[0]), PlainStep(c, p, ts[0]), ts[1..])
  }

  lemma {:induction false} NearWithoutLagIsExact(c: Config, s: State, p: map<string, Item>, ts: seq<Timed>)
    requires AnswersNear(c, s, p, ts, 0)
    ensures AnswersExact(c, s, p, ts)
    decreases ts
  {
    if ts != [] {
      NearWithoutLagIsExact(c, Step(c, s, ts[0]), PlainStep(c, p, ts[0]), ts[1..]);
    }
  }

  /** An item Set with a lag is answered once after its deadline. */
  lemma LagShows(c: Config, d: nat) returns (ts: seq<Timed>)
    requires c.l2Enabled && d > 0
    ensures LagsWithin(0, ts, d) && !AnswersExact(c, State([], map[], []), map[], ts)
  {
    var put, ask := At(0, d, P.OpSet("k", "v", 1)), At(SECOND + d, 0, P.OpGet("k"));
    ts := [put, ask];
    assert ts[1..] == [ask] && [ask][1..] == [];
    var s := Step(c, State([], map[], []), put);
    assert s.l1 == [L.Entry("k", "v", SECOND + d)];
    assert Answer(c, s, ask) == Some(Item("v", SECOND + d));
    assert PlainAnswer(PlainStep(c, map[], put), ask) == None;
  }

  /** Every answer is the plain map's in all runs exactly when there is no lag. */
  lemma ExactIffNoLag(c: Config, d: nat)
    requires c.l2Enabled
    ensures d == 0 <==>
            forall ts :: LagsWithin(0, ts, d) ==> AnswersExact(c, State([], map[], []), map[], ts)
  {
    if d == 0 {
      forall ts | LagsWithin(0, ts, d) ensures AnswersExact(c, State([], map[], []), map[], ts) {
        LagExtendsLifetimesByAtMostLag(c, ts, 0, d);
        NearWithoutLagIsExact(c, State([], map[], []), map[], ts);
      }
    } else {
      var ts := LagShows(c, d);
    }
  }
}
