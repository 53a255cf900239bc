/** The cache service as functions of its state: an L1 recency list in front of an L2 store.

    L2 is an interface in the program; here it is a map that honours deadlines the way L1 does (an item is served up
    to and including its deadline) and matches patterns the way L1 does. It may fail on any call. */
module TwoLevel {
  import L = LruList

  type Value = L.Value

  const SECOND := 1_000_000_000

  datatype Config = Config(maxEntries: int, defaultTTL: int, l2Enabled: bool)

  datatype Item = Item(value: Value, expiresAt: int)

  /** An L2 write started in the background after an origin fetch. */
  datatype Write = Write(key: string, item: Item)

  datatype State = State(l1: L.List, l2: map<string, Item>, pending: seq<Write>)

  datatype Origin = NoFetcher | Fails | Fetched(value: Value)

  datatype Source = FromL1 | FromL2 | FromOrigin

  datatype Response = EmptyKey | Miss | Hit(item: Item, source: Source)

  predicate LiveIn(m: map<string, Item>, k: string, now: int) {
    k in m && now <= m[k].expiresAt
  }

  function Get(c: Config, s: State, k: string, now: int, l2Fails: bool, origin: Origin): (State, Response) {
    if k == "" then (s, EmptyKey) else
      var (l1, hit) := L.Get(s.l1, k, now);
      match hit
      case Some(e) => (s.(l1 := l1), Hit(Item(e.value, e.expiresAt), FromL1))
      case None => Fetch(c, s.(l1 := l1), k, now, l2Fails, origin)
  }

  /** fetchWithFallback: L2 first, then the origin. */
  function Fetch(c: Config, s: State, k: string, now: int, l2Fails: bool, origin: Origin): (State, Response) {
    if c.l2Enabled && !l2Fails && LiveIn(s.l2, k, now) then
      var item := s.l2[k];
      (s.(l1 := L.Set(s.l1, c.maxEntries, k, item.value, now + (item.expiresAt - now))), Hit(item, FromL2))
    else
      match origin
      case NoFetcher => (s, Miss)
      case Fails => (s, Miss)
      case Fetched(v) =>
        var item := Item(v, now + c.defaultTTL);
        (s.(l1 := L.Set(s.l1, c.maxEntries, k, v, now + c.defaultTTL),
            pending := if c.l2Enabled then s.pending + [Write(k, item)] else s.pending),
         Hit(item, FromOrigin))
  }

  function TTL(c: Config, seconds: int): int {
    if seconds > 0 then seconds * SECOND else c.defaultTTL
  }

  predicate SetRefused(k: string, v: Value) {
    k == "" || v == ""
  }

  function Set(c: Config, s: State, k: string, v: Value, seconds: int, now: int, l2Fails: bool): State {
    if SetRefused(k, v) then s else
      var x := now + TTL(c, seconds);
      s.(l1 := L.Set(s.l1, c.maxEntries, k, v, x),
         l2 := if c.l2Enabled && !l2Fails then s.l2[k := Item(v, x)] else s.l2)
  }

  function KeySet(keys: seq<string>): set<string> {
    set i | 0 <= i < |keys| :: keys[i]
  }

  function MatchingKeys(m: map<string, Item>, pattern: string): set<string> {
    set k | k in m && pattern != "" && L.MatchesPattern(k, pattern)
  }

  /** An invalidation of keys and pattern aims at k. */
  predicate Named(k: string, keys: seq<string>, pattern: string) {
    k in keys || (pattern != "" && L.MatchesPattern(k, pattern))
  }

  /** The L1 keys an invalidation of keys and pattern removes. */
  function Targets(l: L.List, keys: seq<string>, pattern: string): set<string> {
    set k | k in L.Keys(l) && Named(k, keys, pattern)
  }

  function Invalidate(c: Config, s: State, keys: seq<string>, pattern: string, l2Fails: bool): State {
    s.(l1 := L.Drop(s.l1, Targets(s.l1, keys, pattern)),
       l2 := if c.l2Enabled && !l2Fails then s.l2 - KeySet(keys) - MatchingKeys(s.l2, pattern) else s.l2)
  }

  /** The number reported, which also decides whether other instances are told. */
  function Invalidated(s: State, keys: seq<string>, pattern: string): nat {
    |Targets(s.l1, keys, pattern)|
  }

  predicate Published(s: State, keys: seq<string>, pattern: string) {
    Invalidated(s, keys, pattern) > 0
  }

  /** The i-th background write reaches L2. */
  function Flush(s: State, i: nat): State
    requires i < |s.pending|
  {
    var w := s.pending[i];
    s.(l2 := s.l2[w.key := w.item], pending := s.pending[..i] + s.pending[i + 1..])
  }

  /** L2 discards some of its expired items. */
  function Purge(s: State, keys: set<string>, now: int): State {
    s.(l2 := s.l2 - (set k | k in keys && k in s.l2 && now > s.l2[k].expiresAt))
  }
}

/** Over an L2 that does not fail and without origin fills, the two levels are one map with deadlines. */
module TwoLevelTheorems {
  import opened Collections
  import opened TwoLevel
  import T = LruTheorems

  datatype Op =
    | OpGet(key: string)
    | OpSet(key: string, value: Value, seconds: int)
    | OpInvalidate(keys: seq<string>, pattern: string)
    | OpCleanup
    | OpPurge(candidates: set<string>)

  datatype Timed = At(now: int, op: Op)

  function Step(c: Config, s: State, t: Timed): State {
    match t.op
    case OpGet(k) => Get(c, s, k, t.now, false, NoFetcher).0
    case OpSet(k, v, seconds) => Set(c, s, k, v, seconds, t.now, false)
    case OpInvalidate(keys, pattern) => Invalidate(c, s, keys, pattern, false)
    case OpCleanup => s.(l1 := L.CleanupExpired(s.l1, t.now))
    case OpPurge(keys) => Purge(s, keys, t.now)
  }

  /** What a client sees of a Get: the value and its deadline, whichever level served it. */
  function Seen(r: Response): Option<Item> {
    match r
    case Hit(item, _) => Some(item)
    case _ => None
  }

  function Answer(c: Config, s: State, t: Timed): Option<Item> {
    match t.op
    case OpGet(k) => Seen(Get(c, s, k, t.now, false, NoFetcher).1)
    case _ => None
  }

  function Answers(c: Config, s: State, ts: seq<Timed>): seq<Option<Item>>
    decreases ts
  {
    if ts == [] then [] else [Answer(c, s, ts[0])] + Answers(c, Step(c, s, ts[0]), ts[1..])
  }

  // The reference: a plain map, unbounded, that hides an item once its deadline has passed.

  function PlainStep(c: Config, p: map<string, Item>, t: Timed): map<string, Item> {
    match t.op
    case OpSet(k, v, seconds) => if SetRefused(k, v) then p else p[k := Item(v, t.now + TTL(c, seconds))]
    case OpInvalidate(keys, pattern) =>
      map k | k in p && !Named(k, keys, pattern) :: p[k]
    case _ => p
  }

  function PlainAnswer(p: map<string, Item>, t: Timed): Option<Item> {
    match t.op
    case OpGet(k) => if k != "" && LiveIn(p, k, t.now) then Some(p[k]) else None
    case _ => None
  }

  function PlainAnswers(c: Config, p: map<string, Item>, ts: seq<Timed>): seq<Option<Item>>
    decreases ts
  {
    if ts == [] then [] else [PlainAnswer(p, ts[0])] + PlainAnswers(c, PlainStep(c, p, ts[0]), ts[1..])
  }

  predicate ClockFrom(start: int, ts: seq<Timed>)
    decreases ts
  {
    ts != [] ==> start <= ts[0].now && ClockFrom(ts[0].now, ts[1..])
  }

  /** L2 holds every live item of the map and nothing else; L1 holds copies of items of the map. */
  ghost predicate Coupled(s: State, p: map<string, Item>, now: int) {
    Stored(s.l2, p, now) && L.Distinct(s.l1) && Cached(s.l1, p)
  }

  ghost predicate Stored(l2: map<string, Item>, p: map<string, Item>, now: int) {
    && (forall k | k in l2 :: k in p && p[k] == l2[k])
    && (forall k | k in p :: now <= p[k].expiresAt ==> k in l2)
  }

  ghost predicate Cached(l1: L.List, p: map<string, Item>) {
    forall e | e in l1 :: e.key in p && p[e.key] == Item(e.value, e.expiresAt)
  }

  lemma GetStep(c: Config, s: State, p: map<string, Item>, now: int, k: string)
    requires c.l2Enabled && Coupled(s, p, now)
    ensures Coupled(Get(c, s, k, now, false, NoFetcher).0, p, now)
    ensures Seen(Get(c, s, k, now, false, NoFetcher).1) == PlainAnswer(p, At(now, OpGet(k)))
  {
    if k != "" {
      var (l1, hit) := L.Get(s.l1, k, now);
      L.GetHitsIff(s.l1, k, now);
      L.GetKeepsShape(s.l1, k, now);
      GetElements(s.l1, k, now);
      if hit.None? && LiveIn(s.l2, k, now) {
        var item := s.l2[k];
        L.SetKeepsShape(l1, c.maxEntries, k, item.value, item.expiresAt);
        SetElements(l1, c.maxEntries, k, item.value, item.expiresAt);
      }
    }
  }

  lemma GetElements(l: L.List, k: string, now: int)
    ensures forall e | e in L.Get(l, k, now).0 :: e in l
  {
    forall e | e in L.Get(l, k, now).0 ensures e in l {
      L.DropElements(l, {k}, e);
    }
  }

  lemma SetElements(l: L.List, maxEntries: int, k: string, v: Value, x: int)
    requires L.Distinct(l)
    ensures forall e | e in L.Set(l, maxEntries, k, v, x) :: e == L.Entry(k, v, x) || (e in l && e.key != k)
  {
    forall e | e in L.Set(l, maxEntries, k, v, x) ensures e == L.Entry(k, v, x) || (e in l && e.key != k) {
      L.DropElements(l, {k}, e);
      L.DropNothing(l, {});
    }
  }

  lemma StepKeepsCoupling(c: Config, s: State, p: map<string, Item>, t: Timed)
    requires c.l2Enabled && Coupled(s, p, t.now)
    ensures Coupled(Step(c, s, t), PlainStep(c, p, t), t.now)
    ensures Answer(c, s, t) == PlainAnswer(p, t)
  {
    match t.op
    case OpGet(k) => GetStep(c, s, p, t.now, k);
    case OpSet(k, v, seconds) => SetStep(c, s, p, t.now, k, v, seconds);
    case OpInvalidate(keys, pattern) => InvalidateStep(c, s, p, t.now, keys, pattern);
    case OpCleanup => CleanupStep(s, p, t.now);
    case OpPurge(keys) => PurgeStep(s, p, t.now, keys);
  }

  lemma SetStep(c: Config, s: State, p: map<string, Item>, now: int, k: string, v: Value, seconds: int)
    requires c.l2Enabled && Coupled(s, p, now)
    ensures Coupled(Set(c, s, k, v, seconds, now, false), PlainStep(c, p, At(now, OpSet(k, v, seconds))), now)
  {
    if !SetRefused(k, v) {
      var x := now + TTL(c, seconds);
      CachedAfterSet(c, s.l1, p, k, v, x);
      StoredAfterSet(s.l2, p, now, k, Item(v, x));
      assert PlainStep(c, p, At(now, OpSet(k, v, seconds))) == p[k := Item(v, x)];
    }
  }

  lemma StoredAfterSet(l2: map<string, Item>, p: map<string, Item>, now: int, k: string, item: Item)
    requires Stored(l2, p, now)
    ensures Stored(l2[k := item], p[k := item], now)
  {
  }

  lemma CachedAfterSet(c: Config, l1: L.List, p: map<string, Item>, k: string, v: Value, x: int)
    requires L.Distinct(l1) && Cached(l1, p)
    ensures L.Distinct(L.Set(l1, c.maxEntries, k, v, x)) && Cached(L.Set(l1, c.maxEntries, k, v, x), p[k := Item(v, x)])
  {
    L.SetKeepsShape(l1, c.maxEntries, k, v, x);
    SetElements(l1, c.maxEntries, k, v, x);
  }

  lemma CleanupStep(s: State, p: map<string, Item>, now: int)
    requires Coupled(s, p, now)
    ensures Coupled(s.(l1 := L.CleanupExpired(s.l1, now)), p, now)
  {
    L.DropDistinct(s.l1, L.ExpiredKeys(s.l1, now));
    forall e | e in L.CleanupExpired(s.l1, now) ensures e in s.l1 {
      L.DropElements(s.l1, L.ExpiredKeys(s.l1, now), e);
    }
  }

  lemma PurgeStep(s: State, p: map<string, Item>, now: int, keys: set<string>)
    requires Coupled(s, p, now)
    ensures Coupled(Purge(s, keys, now), p, now)
  {
  }

  lemma InvalidateStep(c: Config, s: State, p: map<string, Item>, now: int, keys: seq<string>, pattern: string)
    requires c.l2Enabled && Coupled(s, p, now)
    ensures Coupled(Invalidate(c, s, keys, pattern, false), PlainStep(c, p, At(now, OpInvalidate(keys, pattern))), now)
  {
    var dead := Targets(s.l1, keys, pattern);
    L.DropDistinct(s.l1, dead);
    assert forall k :: k in KeySet(keys) <==> k in keys;
    forall e | e in L.Drop(s.l1, dead) ensures e in s.l1 && e.key in L.Keys(s.l1) && e.key !in dead {
      L.DropElements(s.l1, dead, e);
      var i :| 0 <= i < |s.l1| && s.l1[i] == e;
    }
  }

  lemma {:induction false} RunIsPlainMap(c: Config, s: State, p: map<string, Item>, ts: seq<Timed>, start: int)
    requires c.l2Enabled && Coupled(s, p, start) && ClockFrom(start, ts)
    ensures Answers(c, s, ts) == PlainAnswers(c, p, ts)
    decreases ts
  {
    if ts != [] {
      assert Coupled(s, p, ts[0].now);
      StepKeepsCoupling(c, s, p, ts[0]);
      RunIsPlainMap(c, Step(c, s, ts[0]), PlainStep(c, p, ts[0]), ts[1..], ts[0].now);
    }
  }

  /** Every run answers as a plain map with deadlines would: the same values, deadlines and times. */
  lemma TwoLevelsAreAPlainMap(c: Config, ts: seq<Timed>, start: int)
    requires c.l2Enabled && ClockFrom(start, ts)
    ensures Answers(c, State([], map[], []), ts) == PlainAnswers(c, map[], ts)
  {
    RunIsPlainMap(c, State([], map[], []), map[], ts, start);
  }

  /** L1 capacity, and so eviction, cannot be observed in the answers. */
  lemma EvictionIsUnobservable(c: Config, maxEntries: int, ts: seq<Timed>, start: int)
    requires c.l2Enabled && ClockFrom(start, ts)
    ensures Answers(c, State([], map[], []), ts) == Answers(c.(maxEntries := maxEntries), State([], map[], []), ts)
  {
    TwoLevelsAreAPlainMap(c, ts, start);
    TwoLevelsAreAPlainMap(c.(maxEntries := maxEntries), ts, start);
    SamePlainAnswers(c, maxEntries, map[], ts);
  }

  lemma {:induction false} SamePlainAnswers(c: Config, maxEntries: int, p: map<string, Item>, ts: seq<Timed>)
    ensures PlainAnswers(c, p, ts) == PlainAnswers(c.(maxEntries := maxEntries), p, ts)
    decreases ts
  {
    if ts != [] {
      SamePlainAnswers(c, maxEntries, PlainStep(c, p, ts[0]), ts[1..]);
    }
  }

  // Each hypothesis is needed.

  /** The clock never goes back during the run. */
  predicate OnClock(ts: seq<Timed>) {
    ts != [] ==> ClockFrom(ts[0].now, ts)
  }

  ghost predicate Transparent(c: Config, ts: seq<Timed>) {
    Answers(c, State([], map[], []), ts) == PlainAnswers(c, map[], ts)
  }

  /** The cache is one map with deadlines in every run exactly when L2 is configured, whatever the L1 capacity; by
      default it is not. */
  lemma TransparentIffL2Enabled(c: Config)
    ensures c.l2Enabled <==> forall ts: seq<Timed> :: OnClock(ts) ==> Transparent(c, ts)
  {
    if c.l2Enabled {
      forall ts: seq<Timed> | OnClock(ts) ensures Transparent(c, ts) {
        TwoLevelsAreAPlainMap(c, ts, if ts == [] then 0 else ts[0].now);
      }
    } else {
      var first := At(0, OpSet(Name(0), "v", 1));
      var item := Item("v", SECOND);
      var rest := EvictionShows(c, State([L.Entry(Name(0), "v", SECOND)], map[], []), map[Name(0) := item], 1);
      var ts := [first] + rest;
      assert ts[1..] == rest;
      assert Step(c, State([], map[], []), first).l1 == [L.Entry(Name(0), "v", SECOND)];
      assert PlainStep(c, map[], first) == map[Name(0) := item];
      assert Step(c, State([], map[], []), first) == State([L.Entry(Name(0), "v", SECOND)], map[], []);
      LaterDifferenceShows(c, State([], map[], []), map[], first, rest);
      assert OnClock(ts) && !Transparent(c, ts);
    }
  }

  /** Sets of new keys push the oldest entry out of L1; the plain map still has it. */
  lemma {:induction false} EvictionShows(c: Config, s: State, p: map<string, Item>, i: nat) returns (ts: seq<Timed>)
    requires !c.l2Enabled && 1 <= i == |s.l1| <= T.Capacity(c.maxEntries)
    requires s.l1[i - 1].key == Name(0) && (forall e | e in s.l1 :: |e.key| <= i) && L.Distinct(s.l1)
    requires LiveIn(p, Name(0), 0)
    ensures ClockFrom(0, ts) && Answers(c, s, ts) != PlainAnswers(c, p, ts)
    decreases T.Capacity(c.maxEntries) - i
  {
    var push := At(0, OpSet(Name(i), "v", 1));
    NameLength(0);
    NameLength(i);
    NewKey(s.l1, Name(i), i);
    var s', p' := Step(c, s, push), PlainStep(c, p, push);
    var rest: seq<Timed>;
    if i == T.Capacity(c.maxEntries) {
      rest := [At(0, OpGet(Name(0)))];
      FirstIsGone(s.l1, c.maxEntries, L.Entry(Name(i), "v", SECOND), Name(0));
      MissShows(c, s', p', Name(0));
    } else {
      assert s'.l1 == [L.Entry(Name(i), "v", SECOND)] + s.l1;
      L.DistinctCons(L.Entry(Name(i), "v", SECOND), s.l1);
      rest := EvictionShows(c, s', p', i + 1);
    }
    ts := [push] + rest;
    LaterDifferenceShows(c, s, p, push, rest);
  }

  lemma LaterDifferenceShows(c: Config, s: State, p: map<string, Item>, t: Timed, rest: seq<Timed>)
    requires Answers(c, Step(c, s, t), rest) != PlainAnswers(c, PlainStep(c, p, t), rest)
    ensures Answers(c, s, [t] + rest) != PlainAnswers(c, p, [t] + rest)
  {
    assert ([t] + rest)[1..] == rest;
    assert Answers(c, s, [t] + rest)[1..] == Answers(c, Step(c, s, t), rest);
    assert PlainAnswers(c, p, [t] + rest)[1..] == PlainAnswers(c, PlainStep(c, p, t), rest);
  }

  lemma MissShows(c: Config, s: State, p: map<string, Item>, k: string)
    requires !c.l2Enabled && k != "" && k !in L.Keys(s.l1) && LiveIn(p, k, 0)
    ensures Answers(c, s, [At(0, OpGet(k))]) != PlainAnswers(c, p, [At(0, OpGet(k))])
  {
    assert Answers(c, s, [At(0, OpGet(k))])[0] == None;
    assert PlainAnswers(c, p, [At(0, OpGet(k))])[0] == Some(p[k]);
  }

  lemma NewKey(l: L.List, k: string, n: nat)
    requires |k| > n && forall e | e in l :: |e.key| <= n
    ensures k !in L.Keys(l)
  {
    forall i | 0 <= i < |l| ensures l[i].key != k {
      assert l[i] in l;
    }
  }

  lemma FirstIsGone(l: L.List, maxEntries: int, e: L.Entry, k: string)
    requires L.Distinct(l) && l != [] && |l| >= maxEntries && l[|l| - 1].key == k
    requires e.key !in L.Keys(l) && e.key != k
    ensures k !in L.Keys(L.Set(l, maxEntries, e.key, e.value, e.expiresAt))
  {
    L.EvictIsDrop(l);
    L.KeysCons(e, l[..|l| - 1]);
  }

  /** When an L2 write fails, an eviction can bring back the value that was overwritten. */
  lemma FailedWriteCanBringBackOldValue()
    ensures var c := Config(1, SECOND, true);
            var s1 := Set(c, State([], map[], []), "a", "old", 9, 0, false);
            var s2 := Set(c, s1, "a", "new", 9, 0, true);
            var s3 := Set(c, s2, "b", "x", 9, 0, false);
            Seen(Get(c, s2, "a", 0, false, NoFetcher).1) == Some(Item("new", 9 * SECOND)) &&
            Seen(Get(c, s3, "a", 0, false, NoFetcher).1) == Some(Item("old", 9 * SECOND))
  {
    var c := Config(1, SECOND, true);
    var s1 := Set(c, State([], map[], []), "a", "old", 9, 0, false);
    assert s1.l1 == [L.Entry("a", "old", 9 * SECOND)];
    assert s1.l1[0].key in L.Keys(s1.l1);
    var s2 := Set(c, s1, "a", "new", 9, 0, true);
    assert s2.l1 == [L.Entry("a", "new", 9 * SECOND)];
    var s3 := Set(c, s2, "b", "x", 9, 0, false);
    assert s3.l1 == [L.Entry("b", "x", 9 * SECOND)];
    assert "a" !in L.Keys(s3.l1);
  }

  /** Other instances are told of an invalidation exactly when a target is in this instance's L1. */
  lemma PublishedIffCachedHere(s: State, keys: seq<string>, pattern: string)
    ensures Published(s, keys, pattern) <==> exists e :: e in s.l1 && Named(e.key, keys, pattern)
  {
    var dead := Targets(s.l1, keys, pattern);
    if Published(s, keys, pattern) {
      assert dead != {};
      var k :| k in dead;
      var i :| 0 <= i < |s.l1| && s.l1[i].key == k;
      assert s.l1[i] in s.l1;
    }
    forall e | e in s.l1 && Named(e.key, keys, pattern) ensures dead != {} {
      var i :| 0 <= i < |s.l1| && s.l1[i] == e;
      assert e.key in dead;
    }
  }

  /** So an item that this instance has evicted, but another one still holds, survives invalidation there. */
  lemma InvalidationCanMissOtherInstances()
    ensures var c := Config(1, SECOND, true);
            var item := Item("1", 9);
            var here, there := State([], map["a" := item], []), State([L.Entry("a", "1", 9)], map["a" := item], []);
            !Published(here, ["a"], "") &&
            var later := there.(l2 := Invalidate(c, here, ["a"], "", false).l2);
            Seen(Get(c, later, "a", 0, false, NoFetcher).1) == Some(item)
  {
    var there := State([L.Entry("a", "1", 9)], map["a" := Item("1", 9)], []);
    assert Targets([], ["a"], "") == {};
  }
}
