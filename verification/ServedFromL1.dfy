/** What a request leaves in L1: where an answer comes from, and how long the item that was answered or Set goes on being
    served from L1, over runs of everything that can happen to an instance. */
module ServedFromL1 {
  import opened Collections
  import opened TwoLevel
  import opened StaleReads
  import R = LruRecency

  /** L1's item while it is live, else L2's if L2 can be read, else the origin's with the default lifetime. */
  lemma AnswerComesFrom(c: Config, s: State, k: string, now: int, l2Fails: bool, origin: Origin)
    requires L.Distinct(s.l1)
    ensures var here, there := Alive(L1Item(s, k), now), Alive(L2Item(s, k), now);
            Get(c, s, k, now, l2Fails, origin).1 ==
            if k == "" then EmptyKey
            else if here.Some? then Hit(here.value, FromL1)
            else if c.l2Enabled && !l2Fails && there.Some? then Hit(there.value, FromL2)
            else if origin.Fetched? then Hit(Item(origin.value, now + c.defaultTTL), FromOrigin)
            else Miss
  {
    GetKeepsOrLoses(s.l1, k, now, k);
  }

  /** A Get never writes L2 itself; it starts a background write exactly when the origin answered and L2 is there. */
  lemma OnlyFillsStartWrites(c: Config, s: State, k: string, now: int, l2Fails: bool, origin: Origin)
    ensures var (t, r) := Get(c, s, k, now, l2Fails, origin);
            && t.l2 == s.l2
            && t.pending == s.pending + if r.Hit? && r.source == FromOrigin && c.l2Enabled then [Write(k, r.item)] else []
  {
  }

  /** The key is at the front of L1 with the item. */
  predicate InFront(s: State, k: string, item: Item) {
    s.l1 != [] && s.l1[0] == L.Entry(k, item.value, item.expiresAt)
  }

  /** Whatever level answered, the item answered is then at the front of L1. */
  lemma AnswerIsCached(c: Config, s: State, k: string, now: int, l2Fails: bool, origin: Origin)
    requires Get(c, s, k, now, l2Fails, origin).1.Hit?
    ensures var (t, r) := Get(c, s, k, now, l2Fails, origin); InFront(t, k, r.item)
  {
  }

  lemma SetIsCached(c: Config, s: State, k: string, v: Value, seconds: int, now: int, l2Fails: bool)
    ensures var t := Set(c, s, k, v, seconds, now, l2Fails);
            if k == "" || v == "" then t == s
            else InFront(t, k, Item(v, now + if seconds > 0 then seconds * 1_000_000_000 else c.defaultTTL))
  {
  }

  // How long it stays.

  /** The step neither writes k in L1 nor deletes it there. */
  predicate Leaves(t: Timed, k: string) {
    match t.act
    case DoGet(_, _, _) => true
    case DoSet(j, v, _, _) => j != k || SetRefused(j, v)
    case DoInvalidate(keys, pattern, _) => !Named(k, keys, pattern)
    case DoInvalidateEvent(keys, pattern) => !Named(k, keys, pattern)
    case DoRefreshEvent(j, _, _) => j != k
    case DoCleanup => true
    case DoPurge(_) => true
    case DoFlush(_) => true
  }

  predicate RunLeaves(ts: seq<Timed>, k: string) {
    forall i :: 0 <= i < |ts| ==> Leaves(ts[i], k)
  }

  /** The key other than k that the step brings to the front of L1. */
  function Used(c: Config, s: State, t: Timed, k: string): set<string> {
    match t.act
    case DoGet(j, fails, origin) => if Get(c, s, j, t.now, fails, origin).1.Hit? then {j} - {k} else {}
    case DoSet(j, v, _, _) => if SetRefused(j, v) then {} else {j} - {k}
    case DoRefreshEvent(j, _, _) => {j} - {k}
    case _ => {}
  }

  function OthersUsed(c: Config, s: State, ts: seq<Timed>, k: string): set<string>
    decreases ts
  {
    if ts == [] then {} else Used(c, s, ts[0], k) + OthersUsed(c, Step(c, s, ts[0]), ts[1..], k)
  }

  /** e is cached, and only keys of `ahead` are in front of it. */
  ghost predicate Held(l: L.List, e: L.Entry, ahead: set<string>) {
    L.Distinct(l) && L.Lookup(l, e.key) == Some(e) && R.Ahead(l, e.key) <= ahead
  }

  lemma GetHolds(l: L.List, j: string, now: int, e: L.Entry, ahead: set<string>)
    requires Held(l, e, ahead) && now <= e.expiresAt
    ensures var (r, hit) := L.Get(l, j, now);
            && Held(r, e, ahead + if hit.Some? then {j} - {e.key} else {})
            && (j == e.key ==> hit == Some(e)) && |r| <= |l|
  {
    GetKeepsOrLoses(l, j, now, e.key);
    R.GetRetains(l, j, now, e.key);
    LruGetKeepsBound(l, j, now);
  }

  lemma SetHolds(l: L.List, maxEntries: int, d: L.Entry, e: L.Entry, ahead: set<string>)
    requires Held(l, e, ahead) && d.key != e.key && |l| <= T.Capacity(maxEntries)
    requires |ahead + {d.key}| < T.Capacity(maxEntries)
    ensures Held(L.Set(l, maxEntries, d.key, d.value, d.expiresAt), e, ahead + {d.key})
  {
    var others := R.Ahead(l, e.key) + ({d.key} - {e.key});
    SubsetSize(others, ahead + {d.key});
    R.SetRetains(l, maxEntries, d, e.key);
    SetKeepsOrLoses(l, maxEntries, d, e.key);
  }

  lemma DropHolds(l: L.List, dead: set<string>, e: L.Entry, ahead: set<string>)
    requires Held(l, e, ahead) && e.key !in dead
    ensures Held(L.Drop(l, dead), e, ahead)
  {
    L.DropDistinct(l, dead);
    DropKeepsOrLoses(l, dead, e.key);
    R.AheadDrop(l, dead, e.key);
  }

  lemma FetchHolds(c: Config, s: State, j: string, now: int, fails: bool, origin: Origin, e: L.Entry,
                   ahead: set<string>)
    requires Held(s.l1, e, ahead) && |s.l1| <= T.Capacity(c.maxEntries) && j != e.key
    requires Fetch(c, s, j, now, fails, origin).1.Hit? ==> |ahead + {j}| < T.Capacity(c.maxEntries)
    ensures var (t, r) := Fetch(c, s, j, now, fails, origin); Held(t.l1, e, if r.Hit? then ahead + {j} else ahead)
  {
    if c.l2Enabled && !fails && LiveIn(s.l2, j, now) {
      SetHolds(s.l1, c.maxEntries, L.Entry(j, s.l2[j].value, now + (s.l2[j].expiresAt - now)), e, ahead);
    } else if origin.Fetched? {
      SetHolds(s.l1, c.maxEntries, L.Entry(j, origin.value, now + c.defaultTTL), e, ahead);
    }
  }

  lemma DoGetHolds(c: Config, s: State, j: string, now: int, fails: bool, origin: Origin, e: L.Entry,
                   ahead: set<string>)
    requires Held(s.l1, e, ahead) && |s.l1| <= T.Capacity(c.maxEntries) && now <= e.expiresAt
    requires var (_, r) := Get(c, s, j, now, fails, origin);
             |ahead + if r.Hit? then {j} - {e.key} else {}| < T.Capacity(c.maxEntries)
    ensures var (t, r) := Get(c, s, j, now, fails, origin);
            Held(t.l1, e, ahead + if r.Hit? then {j} - {e.key} else {})
  {
    assert ahead + {} == ahead;
    if j != "" {
      GetHolds(s.l1, j, now, e, ahead);
      var (l1, hit) := L.Get(s.l1, j, now);
      if hit.None? {
        assert {j} - {e.key} == {j};
        FetchHolds(c, s.(l1 := l1), j, now, fails, origin, e, ahead);
      }
    }
  }

  predicate Removes(t: Timed) {
    t.act.DoInvalidate? || t.act.DoInvalidateEvent? || t.act.DoCleanup? || t.act.DoPurge? || t.act.DoFlush?
  }

  lemma RemovalHolds(c: Config, s: State, t: Timed, e: L.Entry, ahead: set<string>)
    requires Held(s.l1, e, ahead) && Removes(t) && Leaves(t, e.key) && t.now <= e.expiresAt
    ensures Held(Step(c, s, t).l1, e, ahead)
  {
    match t.act
    case DoInvalidate(keys, pattern, _) => DropHolds(s.l1, Targets(s.l1, keys, pattern), e, ahead);
    case DoInvalidateEvent(keys, pattern) => DropHolds(s.l1, Targets(s.l1, keys, pattern), e, ahead);
    case DoCleanup =>
      LiveIsNotExpired(s.l1, e, t.now);
      DropHolds(s.l1, L.ExpiredKeys(s.l1, t.now), e, ahead);
    case DoPurge(_) =>
    case DoFlush(_) =>
  }

  lemma SetHoldsStep(c: Config, s: State, t: Timed, e: L.Entry, ahead: set<string>)
    requires Held(s.l1, e, ahead) && |s.l1| <= T.Capacity(c.maxEntries)
    requires t.act.DoSet? && Leaves(t, e.key) && |ahead + Used(c, s, t, e.key)| < T.Capacity(c.maxEntries)
    ensures Held(Step(c, s, t).l1, e, ahead + Used(c, s, t, e.key))
  {
    var j := t.act.key;
    if SetRefused(j, t.act.value) {
      assert ahead + {} == ahead;
    } else {
      assert {j} - {e.key} == {j};
      SetHolds(s.l1, c.maxEntries, L.Entry(j, t.act.value, t.now + TTL(c, t.act.seconds)), e, ahead);
    }
  }

  lemma RefreshHoldsStep(c: Config, s: State, t: Timed, e: L.Entry, ahead: set<string>)
    requires Held(s.l1, e, ahead) && |s.l1| <= T.Capacity(c.maxEntries)
    requires t.act.DoRefreshEvent? && Leaves(t, e.key) && |ahead + Used(c, s, t, e.key)| < T.Capacity(c.maxEntries)
    ensures Held(Step(c, s, t).l1, e, ahead + Used(c, s, t, e.key))
  {
    var j := t.act.key;
    assert {j} - {e.key} == {j};
    SetHolds(s.l1, c.maxEntries, L.Entry(j, t.act.value, t.now + t.act.ttl), e, ahead);
  }

  lemma StepHolds(c: Config, s: State, t: Timed, e: L.Entry, ahead: set<string>)
    requires Held(s.l1, e, ahead) && |s.l1| <= T.Capacity(c.maxEntries)
    requires Leaves(t, e.key) && t.now <= e.expiresAt
    requires |ahead + Used(c, s, t, e.key)| < T.Capacity(c.maxEntries)
    ensures Held(Step(c, s, t).l1, e, ahead + Used(c, s, t, e.key))
  {
    if t.act.DoSet? {
      SetHoldsStep(c, s, t, e, ahead);
    } else if t.act.DoRefreshEvent? {
      RefreshHoldsStep(c, s, t, e, ahead);
    } else if t.act.DoGet? {
      DoGetHolds(c, s, t.act.key, t.now, t.act.l2Fails, t.act.origin, e, ahead);
    } else {
      RemovalHolds(c, s, t, e, ahead);
      assert ahead + {} == ahead;
    }
  }

  lemma LiveIsNotExpired(l: L.List, e: L.Entry, now: int)
    requires L.Distinct(l) && L.Lookup(l, e.key) == Some(e) && now <= e.expiresAt
    ensures e.key !in L.ExpiredKeys(l, now)
  {
    T.ExpiredIff(l, e, now);
  }

  lemma {:induction false} RunHolds(c: Config, s: State, ts: seq<Timed>, e: L.Entry, ahead: set<string>, start: int,
                                    end: int)
    requires Held(s.l1, e, ahead) && |s.l1| <= T.Capacity(c.maxEntries)
    requires RunLeaves(ts, e.key) && OnTime(start, ts, end) && end <= e.expiresAt
    requires |ahead + OthersUsed(c, s, ts, e.key)| < T.Capacity(c.maxEntries)
    ensures Held(Run(c, s, ts).l1, e, ahead + OthersUsed(c, s, ts, e.key))
    decreases ts
  {
    if ts != [] {
      var t, r := ts[0], Step(c, s, ts[0]);
      var here, later := Used(c, s, t, e.key), OthersUsed(c, Step(c, s, ts[0]), ts[1..], e.key);
      assert ahead + OthersUsed(c, s, ts, e.key) == ahead + here + later;
      SubsetSize(ahead + here, ahead + here + later);
      OnTimeEnds(t.now, ts[1..], end);
      StepHolds(c, s, t, e, ahead);
      StepKeepsBound(c, s, t);
      RunHolds(c, r, ts[1..], e, ahead + here, t.now, end);
    }
  }

  /** However long the run, while fewer other keys than the capacity are used and the key is neither written nor
      deleted, the item at the front is served from L1 to its deadline, whether or not L2 and the origin work. */
  lemma FrontIsServed(c: Config, s: State, k: string, item: Item, ts: seq<Timed>, start: int, now: int, l2Fails: bool,
                      origin: Origin)
    requires L.Distinct(s.l1) && |s.l1| <= T.Capacity(c.maxEntries) && k != "" && InFront(s, k, item)
    requires RunLeaves(ts, k) && OnTime(start, ts, now) && now <= item.expiresAt
    requires |OthersUsed(c, s, ts, k)| < T.Capacity(c.maxEntries)
    ensures Get(c, Run(c, s, ts), k, now, l2Fails, origin).1 == Hit(item, FromL1)
  {
    assert R.Ahead(s.l1, k) == {};
    assert {} + OthersUsed(c, s, ts, k) == OthersUsed(c, s, ts, k);
    RunHolds(c, s, ts, s.l1[0], {}, start, now);
    AnswerComesFrom(c, Run(c, s, ts), k, now, l2Fails, origin);
  }

  /** Whichever level answered a Get, L1, L2 by promotion or the origin by a fill, the same item is served from L1 from
      then on. */
  lemma AnsweredItemIsServed(c: Config, s: State, k: string, at: int, fails: bool, source: Origin, ts: seq<Timed>,
                             now: int, l2Fails: bool, origin: Origin)
    requires L.Distinct(s.l1) && |s.l1| <= T.Capacity(c.maxEntries)
    requires var (t, r) := Get(c, s, k, at, fails, source);
             && r.Hit? && now <= r.item.expiresAt && RunLeaves(ts, k) && OnTime(at, ts, now)
             && |OthersUsed(c, t, ts, k)| < T.Capacity(c.maxEntries)
    ensures var (t, r) := Get(c, s, k, at, fails, source);
            Get(c, Run(c, t, ts), k, now, l2Fails, origin).1 == Hit(r.item, FromL1)
  {
    var (t, r) := Get(c, s, k, at, fails, source);
    AnswerIsCached(c, s, k, at, fails, source);
    StepKeepsBound(c, s, At(at, DoGet(k, fails, source)));
    FrontIsServed(c, t, k, r.item, ts, at, now, l2Fails, origin);
  }

  /** So is what the origin was asked for, for the default lifetime, and it is asked no more. */
  lemma FillIsServed(c: Config, s: State, k: string, v: Value, filled: int, fails: bool, ts: seq<Timed>, now: int,
                     l2Fails: bool, origin: Origin)
    requires L.Distinct(s.l1) && |s.l1| <= T.Capacity(c.maxEntries) && now <= filled + c.defaultTTL
    requires var (t, r) := Get(c, s, k, filled, fails, Fetched(v));
             && r.Hit? && r.source == FromOrigin && RunLeaves(ts, k) && OnTime(filled, ts, now)
             && |OthersUsed(c, t, ts, k)| < T.Capacity(c.maxEntries)
    ensures var t := Get(c, s, k, filled, fails, Fetched(v)).0;
            Get(c, Run(c, t, ts), k, now, l2Fails, origin).1 == Hit(Item(v, filled + c.defaultTTL), FromL1)
  {
    AnswerComesFrom(c, s, k, filled, fails, Fetched(v));
    AnsweredItemIsServed(c, s, k, filled, fails, Fetched(v), ts, now, l2Fails, origin);
  }

  /** And what was Set, for the lifetime asked for or, without one, the default. */
  lemma SetIsServed(c: Config, s: State, k: string, v: Value, seconds: int, at: int, fails: bool, ts: seq<Timed>,
                    now: int, l2Fails: bool, origin: Origin)
    requires L.Distinct(s.l1) && |s.l1| <= T.Capacity(c.maxEntries) && k != "" && v != ""
    requires now <= at + if seconds > 0 then seconds * 1_000_000_000 else c.defaultTTL
    requires RunLeaves(ts, k) && OnTime(at, ts, now)
    requires |OthersUsed(c, Set(c, s, k, v, seconds, at, fails), ts, k)| < T.Capacity(c.maxEntries)
    ensures var expiresAt := at + if seconds > 0 then seconds * 1_000_000_000 else c.defaultTTL;
            Get(c, Run(c, Set(c, s, k, v, seconds, at, fails), ts), k, now, l2Fails, origin).1
            == Hit(Item(v, expiresAt), FromL1)
  {
    var t := Set(c, s, k, v, seconds, at, fails);
    var expiresAt := at + if seconds > 0 then seconds * 1_000_000_000 else c.defaultTTL;
    SetIsCached(c, s, k, v, seconds, at, fails);
    StepKeepsBound(c, s, At(at, DoSet(k, v, seconds, fails)));
    FrontIsServed(c, t, k, Item(v, expiresAt), ts, at, now, l2Fails, origin);
  }
}
