/** Invalidation events between instances: delivered at least once, in any order. */
module InvalidationEvents {
  import opened TwoLevel
  import TwoLevelTheorems

  datatype Event = Event(matchedKeys: seq<string>, pattern: string)

  predicate Aims(e: Event, k: string) {
    Named(k, e.matchedKeys, e.pattern)
  }

  /** HandleInvalidateEvent on the L1 contents. */
  function Handle(l: L.List, e: Event): L.List {
    L.Drop(l, Targets(l, e.matchedKeys, e.pattern))
  }

  function Deliver(l: L.List, events: seq<Event>): L.List
    decreases events
  {
    if events == [] then l else Deliver(Handle(l, events[0]), events[1..])
  }

  /** The keys of l that some event aims at. */
  function Doomed(l: L.List, events: seq<Event>): set<string> {
    set k | k in L.Keys(l) && exists e :: e in events && Aims(e, k)
  }

  lemma {:induction false} DeliverDropsTargets(l: L.List, events: seq<Event>)
    ensures Deliver(l, events) == L.Drop(l, Doomed(l, events))
    decreases events
  {
    if events == [] {
      L.DropNothing(l, Doomed(l, events));
    } else {
      var e, rest := events[0], events[1..];
      var now := Targets(l, e.matchedKeys, e.pattern);
      DeliverDropsTargets(Handle(l, e), rest);
      L.DropKeys(l, now);
      L.DropDrop(l, now, Doomed(Handle(l, e), rest));
      assert events == [e] + rest;
      forall k | k in L.Keys(l) ensures k in now + Doomed(Handle(l, e), rest) <==> k in Doomed(l, events) {
        assert k in now <==> Aims(e, k);
      }
      L.DropSame(l, now + Doomed(Handle(l, e), rest), Doomed(l, events));
    }
  }

  /** Whatever the order and however often each is delivered, the same events leave the same L1: what was there,
      less every key some event aims at, with the survivors in their old recency order. */
  lemma DeliveryConverges(l: L.List, first: seq<Event>, second: seq<Event>)
    requires forall e :: e in first <==> e in second
    ensures Deliver(l, first) == Deliver(l, second)
    ensures L.Keys(Deliver(l, first)) == set k | k in L.Keys(l) && !exists e :: e in first && Aims(e, k)
    ensures exists dead :: Deliver(l, first) == L.Drop(l, dead)
  {
    DeliverDropsTargets(l, first);
    DeliverDropsTargets(l, second);
    assert Doomed(l, first) == Doomed(l, second);
    L.DropKeys(l, Doomed(l, first));
  }

  /** Some cached entry is aimed at. */
  ghost predicate HoldsTarget(l: L.List, e: Event) {
    exists d :: d in l && Aims(e, d.key)
  }

  /** An invalidation made here cleans another instance, to which the event is delivered if it is published at all,
      exactly when this instance itself holds a target or the other one never did. */
  lemma OtherInstanceIsCleanIff(here: State, there: L.List, e: Event)
    ensures var after := if Published(here, e.matchedKeys, e.pattern) then Handle(there, e) else there;
            !HoldsTarget(after, e) <==> HoldsTarget(here.l1, e) || !HoldsTarget(there, e)
  {
    TwoLevelTheorems.PublishedIffCachedHere(here, e.matchedKeys, e.pattern);
    assert Published(here, e.matchedKeys, e.pattern) <==> HoldsTarget(here.l1, e);
    HandleCleans(there, e);
  }

  lemma HandleCleans(l: L.List, e: Event)
    ensures !HoldsTarget(Handle(l, e), e)
  {
    forall d | d in Handle(l, e) ensures !Aims(e, d.key) {
      L.DropElements(l, Targets(l, e.matchedKeys, e.pattern), d);
      var i :| 0 <= i < |l| && l[i] == d;
      assert d.key in L.Keys(l);
    }
  }
}

/** The service as the program keeps it: an L1 object, an L2 store and counters, updated in place. Requests run one
    at a time here, so the coalescer passes every fetch straight through. */
module CacheService {
  import opened Collections
  import opened TwoLevel
  import opened InvalidationEvents
  import C = L1Cache
  import S = StaleReads

  datatype Counters = Counters(hits: int, misses: int, sets: int, deletes: int, evictions: int,
                               l2Hits: int, l2Misses: int, l2Errors: int)

  const ZERO := Counters(0, 0, 0, 0, 0, 0, 0, 0)

  /** What a call into L2 comes to: it works, it fails, or the entry cannot be encoded or decoded. */
  datatype L2Reply = Works | Fails | Garbled

  /** How a Get moves the counters: one of hits, l2Hits and misses, unless the origin served it. */
  function CountGet(m: Counters, c: Config, reply: L2Reply, found: bool, r: Response): Counters {
    match r
    case EmptyKey => m
    case Hit(_, FromL1) => m.(hits := m.hits + 1)
    case Hit(_, FromL2) => m.(l2Hits := m.l2Hits + 1)
    case Hit(_, FromOrigin) => CountFallback(m, c, reply, found)
    case Miss => CountFallback(m, c, reply, found).(misses := m.misses + 1)
  }

  /** Every key asked for counts as a delete, present or not; a pattern counts what it removed from what was left. */
  function CountDeletes(m: Counters, l: L.List, keys: seq<string>, pattern: string): Counters {
    var left := L.Drop(l, KeySet(keys));
    m.(deletes := m.deletes + |keys| + if pattern == "" then 0 else |L.Matching(left, pattern)|)
  }

  /** L2 was asked in vain: an error, an undecodable entry (not counted) or no live entry. */
  function CountFallback(m: Counters, c: Config, reply: L2Reply, found: bool): Counters {
    if !c.l2Enabled then m
    else if reply == L2Reply.Fails then m.(l2Errors := m.l2Errors + 1)
    else if found then m
    else m.(l2Misses := m.l2Misses + 1)
  }

  /** Each counter by what it counts: a hit of either level, a miss, an error or a miss of an L2 that was asked because L1
      had nothing live. */
  lemma CountersTellSource(m: Counters, c: Config, s: State, k: string, now: int, reply: L2Reply, origin: Origin)
    requires L.Distinct(s.l1)
    ensures var r := Get(c, s, k, now, reply != Works, origin).1;
            var after := CountGet(m, c, reply, LiveIn(s.l2, k, now), r);
            var asked := c.l2Enabled && k != "" && S.Alive(S.L1Item(s, k), now).None?;
            && after.hits == m.hits + One(r.Hit? && r.source == FromL1)
            && after.l2Hits == m.l2Hits + One(r.Hit? && r.source == FromL2)
            && after.misses == m.misses + One(r.Miss?)
            && after.l2Errors == m.l2Errors + One(asked && reply == L2Reply.Fails)
            && after.l2Misses == m.l2Misses +
                 One(asked && reply != L2Reply.Fails && S.Alive(S.L2Item(s, k), now).None?)
            && after.sets == m.sets && after.deletes == m.deletes && after.evictions == m.evictions
  {
    S.GetKeepsOrLoses(s.l1, k, now, k);
  }

  function One(b: bool): int {
    if b then 1 else 0
  }

  /** Deletes count the keys asked for and the other cached keys that the pattern matches. */
  lemma DeletesCounted(m: Counters, l: L.List, keys: seq<string>, pattern: string)
    ensures CountDeletes(m, l, keys, pattern) ==
            m.(deletes := m.deletes + |keys|
                          + |set k | k in L.Keys(l) && k !in keys && pattern != "" && L.MatchesPattern(k, pattern)|)
  {
    L.DropKeys(l, KeySet(keys));
    var left := L.Matching(L.Drop(l, KeySet(keys)), pattern);
    if pattern == "" {
      assert (set k | k in L.Keys(l) && k !in keys && pattern != "" && L.MatchesPattern(k, pattern)) == {};
    } else {
      assert left == set k | k in L.Keys(l) && k !in keys && pattern != "" && L.MatchesPattern(k, pattern);
    }
  }

  class Service {
    const config: Config
    const l1Cache: C.L1Cache
    var l2: map<string, Item>
    var pending: seq<Write>
    var metrics: Counters

    ghost predicate Valid()
      reads this, l1Cache
    {
      l1Cache.Valid() && l1Cache.maxEntries == config.maxEntries
    }

    ghost function View(): State
      reads this, l1Cache, l1Cache.Entries()
    {
      State(l1Cache.Contents(), l2, pending)
    }

    constructor (config: Config)
      ensures Valid() && View() == State([], map[], []) && metrics == ZERO && this.config == config
      ensures fresh(l1Cache)
    {
      this.config := config;
      l1Cache := new C.L1Cache(config.maxEntries);
      l2, pending, metrics := map[], [], ZERO;
    }

    method Get(key: string, now: int, reply: L2Reply, origin: Origin) returns (r: Response)
      requires Valid()
      modifies this, l1Cache, l1Cache.Entries()
      ensures Valid()
      ensures (View(), r) == TwoLevel.Get(config, old(View()), key, now, reply != Works, origin)
      ensures metrics == CountGet(old(metrics), config, reply, LiveIn(old(l2), key, now), r)
    {
      if key == "" {
        return EmptyKey;
      }
      var hit := l1Cache.Get(key, now);
      assert View() == old(View()).(l1 := L.Get(old(View()).l1, key, now).0);
      if hit.Some? {
        metrics := metrics.(hits := metrics.hits + 1);
        return Hit(Item(hit.value.value, hit.value.expiresAt), FromL1);
      }
      r := FetchWithFallback(key, now, reply, origin);
      if r.Miss? {
        metrics := metrics.(misses := metrics.misses + 1);
      }
    }

    /** `origin` covers both the fetch and the encoding of what it returns. */
    method FetchWithFallback(key: string, now: int, reply: L2Reply, origin: Origin) returns (r: Response)
      requires Valid()
      modifies this, l1Cache, l1Cache.Entries()
      ensures Valid() && !r.EmptyKey? && (r.Hit? ==> r.source != FromL1)
      ensures (View(), r) == Fetch(config, old(View()), key, now, reply != Works, origin)
      ensures metrics == if r.Hit? && r.source == FromL2 then old(metrics).(l2Hits := old(metrics).l2Hits + 1)
                         else CountFallback(old(metrics), config, reply, LiveIn(old(l2), key, now))
    {
      if config.l2Enabled {
        if reply != L2Reply.Fails && LiveIn(l2, key, now) {
          if reply == Works {
            var item := l2[key];
            l1Cache.Set(key, item.value, item.expiresAt - now, now);
            metrics := metrics.(l2Hits := metrics.l2Hits + 1);
            assert l1Cache.Contents() == L.Set(old(View()).l1, config.maxEntries, key, item.value,
                                               now + (item.expiresAt - now));
            return Hit(item, FromL2);
          }
        } else if reply == L2Reply.Fails {
          metrics := metrics.(l2Errors := metrics.l2Errors + 1);
        } else {
          metrics := metrics.(l2Misses := metrics.l2Misses + 1);
        }
      }
      r := FetchFromOrigin(key, now, origin);
    }

    method FetchFromOrigin(key: string, now: int, origin: Origin) returns (r: Response)
      requires Valid()
      modifies this`pending, l1Cache, l1Cache.Entries()
      ensures Valid() && !r.EmptyKey? && (r.Hit? ==> r.source == FromOrigin)
      ensures (View(), r) == Fetch(config, old(View()), key, now, true, origin)
    {
      match origin
      case NoFetcher => return Miss;
      case Fails => return Miss;
      case Fetched(value) =>
        var ttl := config.defaultTTL;
        l1Cache.Set(key, value, ttl, now);
        if config.l2Enabled {
          pending := pending + [Write(key, Item(value, now + ttl))];
        }
        return Hit(Item(value, now + ttl), FromOrigin);
    }

    /** Answers the deadline, or None for an error. A failing L2 write is only counted; an entry that cannot be encoded
        is an error, but L1 keeps the value. */
    method Set(key: string, value: Value, seconds: int, now: int, reply: L2Reply) returns (expiresAt: Option<int>)
      requires Valid()
      modifies this, l1Cache, l1Cache.Entries()
      ensures Valid()
      ensures expiresAt == if SetRefused(key, value) || (config.l2Enabled && reply == Garbled) then None
                           else Some(now + TTL(config, seconds))
      ensures View() == TwoLevel.Set(config, old(View()), key, value, seconds, now, reply != Works)
      ensures metrics == if SetRefused(key, value) then old(metrics)
                         else if config.l2Enabled && reply == L2Reply.Fails
                         then old(metrics).(sets := old(metrics).sets + 1, l2Errors := old(metrics).l2Errors + 1)
                         else old(metrics).(sets := old(metrics).sets + 1)
    {
      if key == "" || |value| == 0 {
        return None;
      }
      var ttl := config.defaultTTL;
      if seconds > 0 {
        ttl := seconds * SECOND;
      }
      l1Cache.Set(key, value, ttl, now);
      metrics := metrics.(sets := metrics.sets + 1);
      if config.l2Enabled {
        if reply == Garbled {
          return None;
        }
        if reply == L2Reply.Fails {
          metrics := metrics.(l2Errors := metrics.l2Errors + 1);
        } else {
          l2 := l2[key := Item(value, now + ttl)];
        }
      }
      return Some(now + ttl);
    }

    ghost function TallyWith(count: int): Tally
      reads this, l1Cache, l1Cache.Entries()
    {
      Tally(l1Cache.Contents(), l2, count)
    }

    /** Deletes one key, here and, unless it fails, in L2; adds it to the count if it was here. */
    method DeleteKey(key: string, l2Fails: bool, count: nat) returns (newCount: nat)
      requires Valid()
      modifies this`l2, this`metrics, l1Cache
      ensures Valid()
      ensures TallyWith(newCount) == DeleteOne(old(TallyWith(count)), key, config.l2Enabled && !l2Fails)
      ensures metrics == old(metrics).(deletes := old(metrics).deletes + 1)
    {
      newCount := count;
      var existed := l1Cache.Delete(key);
      assert l1Cache.Contents() == L.Drop(old(l1Cache.Contents()), {key});
      assert existed <==> key in L.Keys(old(l1Cache.Contents()));
      if existed {
        newCount := newCount + 1;
      }
      if config.l2Enabled && !l2Fails {
        l2 := l2 - {key};
      }
      metrics := metrics.(deletes := metrics.deletes + 1);
    }

    /** Deletes the keys one by one. */
    method DeleteEach(keys: seq<string>, l2Fails: bool) returns (count: nat)
      requires Valid()
      modifies this`l2, this`metrics, l1Cache
      ensures Valid()
      ensures TallyWith(count) == DeleteFirst(old(TallyWith(0)), keys, |keys|, config.l2Enabled && !l2Fails)
      ensures metrics == old(metrics).(deletes := old(metrics).deletes + |keys|)
    {
      count := 0;
      var i := 0;
      while i < |keys|
        invariant 0 <= i <= |keys| && Valid()
        invariant TallyWith(count) == DeleteFirst(old(TallyWith(0)), keys, i, config.l2Enabled && !l2Fails)
        invariant metrics == old(metrics).(deletes := old(metrics).deletes + i)
      {
        count := DeleteKey(keys[i], l2Fails, count);
        i := i + 1;
      }
    }

    /** Deletes the set of the keys; each is counted once if it was here. */
    method DeleteKeys(keys: seq<string>, l2Fails: bool) returns (count: nat)
      requires Valid()
      modifies this`l2, this`metrics, l1Cache
      ensures Valid()
      ensures l1Cache.Contents() == L.Drop(old(l1Cache.Contents()), KeySet(keys))
      ensures l2 == if config.l2Enabled && !l2Fails then old(l2) - KeySet(keys) else old(l2)
      ensures count == |KeySet(keys) * L.Keys(old(l1Cache.Contents()))|
      ensures metrics == old(metrics).(deletes := old(metrics).deletes + |keys|)
    {
      DeletingOneByOne(TallyWith(0), keys, |keys|, config.l2Enabled && !l2Fails);
      assert keys[..|keys|] == keys;
      count := DeleteEach(keys, l2Fails);
    }

    /** Deletes what the pattern matches, here and, unless it fails, in L2. */
    method DeleteMatching(pattern: string, l2Fails: bool) returns (deleted: nat)
      requires Valid() && pattern != ""
      modifies this`l2, this`metrics, l1Cache
      ensures Valid()
      ensures l1Cache.Contents() == L.DeletePattern(old(l1Cache.Contents()), pattern)
      ensures deleted == |L.Matching(old(l1Cache.Contents()), pattern)|
      ensures l2 == if config.l2Enabled && !l2Fails then old(l2) - MatchingKeys(old(l2), pattern) else old(l2)
      ensures metrics == old(metrics).(deletes := old(metrics).deletes + deleted)
    {
      deleted := l1Cache.DeletePattern(pattern);
      if config.l2Enabled && !l2Fails {
        l2 := l2 - MatchingKeys(l2, pattern);
      }
      metrics := metrics.(deletes := metrics.deletes + deleted);
    }

    method Invalidate(keys: seq<string>, pattern: string, l2Fails: bool) returns (count: nat, event: Option<Event>)
      requires Valid()
      modifies this`l2, this`metrics, l1Cache
      ensures Valid()
      ensures View() == TwoLevel.Invalidate(config, old(View()), keys, pattern, l2Fails)
      ensures count == Invalidated(old(View()), keys, pattern)
      ensures event == if Published(old(View()), keys, pattern) then Some(Event(keys, pattern)) else None
      ensures metrics == CountDeletes(old(metrics), old(View()).l1, keys, pattern)
    {
      InvalidateInTwo(config, old(View()), keys, pattern, l2Fails);
      count := DeleteKeys(keys, l2Fails);
      if pattern != "" {
        var deleted := DeleteMatching(pattern, l2Fails);
        count := count + deleted;
      }
      event := if count > 0 then Some(Event(keys, pattern)) else None;
    }

    /** The event's targets leave L1; L2 is not written, so the helpers run with L2 out of reach. */
    method HandleInvalidateEvent(event: Event)
      requires Valid()
      modifies this`l2, this`metrics, l1Cache
      ensures Valid()
      ensures View() == old(View()).(l1 := Handle(old(View()).l1, event))
      ensures metrics == CountDeletes(old(metrics), old(View()).l1, event.matchedKeys, event.pattern)
    {
      ghost var before := l1Cache.Contents();
      var _ := DeleteKeys(event.matchedKeys, true);
      SplitTargets(before, event.matchedKeys, event.pattern);
      if event.pattern != "" {
        var _ := DeleteMatching(event.pattern, true);
      }
    }

    /** A refresh fills L1 only; a TTL of zero means the default. */
    method HandleRefreshEvent(key: string, value: Value, seconds: int, now: int)
      requires Valid()
      modifies l1Cache, l1Cache.Entries()
      ensures Valid()
      ensures View() == old(View()).(l1 := L.Set(old(View()).l1, config.maxEntries, key, value,
                                                 now + if seconds == 0 then config.defaultTTL else seconds * SECOND))
    {
      var ttl := seconds * SECOND;
      if ttl == 0 {
        ttl := config.defaultTTL;
      }
      l1Cache.Set(key, value, ttl, now);
    }

    method RunCleanup(now: int)
      requires Valid()
      modifies this`metrics, l1Cache
      ensures Valid()
      ensures View() == old(View()).(l1 := L.CleanupExpired(old(View()).l1, now))
      ensures metrics == old(metrics).(evictions := old(metrics).evictions + |L.ExpiredKeys(old(View()).l1, now)|)
    {
      var evicted := l1Cache.CleanupExpired(now);
      metrics := metrics.(evictions := metrics.evictions + evicted);
    }
  }

  lemma KeySetStep(keys: seq<string>, i: nat)
    requires i < |keys|
    ensures KeySet(keys[..i + 1]) == KeySet(keys[..i]) + {keys[i]}
  {
    assert keys[..i + 1] == keys[..i] + [keys[i]];
    forall k | k in KeySet(keys[..i]) + {keys[i]} ensures k in KeySet(keys[..i + 1]) {
      if k == keys[i] {
        assert keys[..i + 1][i] == k;
      } else {
        var j :| 0 <= j < i && keys[..i][j] == k;
        assert keys[..i + 1][j] == k;
      }
    }
  }

  datatype Tally = Tally(l1: L.List, l2: map<string, Item>, count: int)

  /** One key deleted: here, in L2 if it is written, and counted if it was here. */
  ghost function DeleteOne(t: Tally, k: string, writes: bool): Tally {
    Tally(L.Drop(t.l1, {k}), if writes then t.l2 - {k} else t.l2, t.count + if k in L.Keys(t.l1) then 1 else 0)
  }

  ghost function DeleteFirst(t: Tally, keys: seq<string>, i: nat, writes: bool): Tally
    requires i <= |keys|
  {
    if i == 0 then t else DeleteOne(DeleteFirst(t, keys, i - 1, writes), keys[i - 1], writes)
  }

  /** A set of keys deleted at once. */
  ghost function DeleteSet(t: Tally, dead: set<string>, writes: bool): Tally {
    Tally(L.Drop(t.l1, dead), if writes then t.l2 - dead else t.l2, t.count + |dead * L.Keys(t.l1)|)
  }

  /** Deleting keys one by one deletes their set, and counts each key that was here once however often it is named. */
  lemma {:induction false} DeletingOneByOne(t: Tally, keys: seq<string>, i: nat, writes: bool)
    requires i <= |keys|
    ensures DeleteFirst(t, keys, i, writes) == DeleteSet(t, KeySet(keys[..i]), writes)
    decreases i
  {
    if i == 0 {
      assert KeySet(keys[..0]) == {};
      DeleteNone(t, writes);
    } else {
      DeletingOneByOne(t, keys, i - 1, writes);
      KeySetStep(keys, i - 1);
      DeleteOneMore(t, KeySet(keys[..i - 1]), keys[i - 1], writes);
    }
  }

  lemma DeleteNone(t: Tally, writes: bool)
    ensures DeleteSet(t, {}, writes) == t
  {
    L.DropNothing(t.l1, {});
    assert {} * L.Keys(t.l1) == {};
    assert t.l2 - {} == t.l2;
  }

  lemma DeleteOneMore(t: Tally, done: set<string>, k: string, writes: bool)
    ensures DeleteOne(DeleteSet(t, done, writes), k, writes) == DeleteSet(t, done + {k}, writes)
  {
    DeleteStep(t.l1, done, k);
    DropTwice(t.l2, done, k);
  }

  lemma DropTwice(m: map<string, Item>, done: set<string>, k: string)
    ensures m - done - {k} == m - (done + {k})
  {
  }

  /** Deleting the keys and then, if there is one, what the pattern matches is the invalidation. */
  lemma InvalidateInTwo(c: Config, s: State, keys: seq<string>, pattern: string, l2Fails: bool)
    ensures var l1 := L.Drop(s.l1, KeySet(keys));
            var l2 := if c.l2Enabled && !l2Fails then s.l2 - KeySet(keys) else s.l2;
            var count := |KeySet(keys) * L.Keys(s.l1)|;
            if pattern == "" then
              TwoLevel.Invalidate(c, s, keys, pattern, l2Fails) == s.(l1 := l1, l2 := l2) &&
              Invalidated(s, keys, pattern) == count
            else
              TwoLevel.Invalidate(c, s, keys, pattern, l2Fails)
              == s.(l1 := L.DeletePattern(l1, pattern),
                    l2 := if c.l2Enabled && !l2Fails then l2 - MatchingKeys(l2, pattern) else l2) &&
              Invalidated(s, keys, pattern) == count + |L.Matching(l1, pattern)|
  {
    SplitTargets(s.l1, keys, pattern);
    SplitL2(s.l2, KeySet(keys), pattern);
  }

  lemma SplitL2(m: map<string, Item>, named: set<string>, pattern: string)
    ensures pattern == "" ==> m - named - MatchingKeys(m, pattern) == m - named
    ensures (m - named) - MatchingKeys(m - named, pattern) == m - named - MatchingKeys(m, pattern)
  {
  }

  lemma DeleteStep(l: L.List, done: set<string>, k: string)
    ensures L.Drop(L.Drop(l, done), {k}) == L.Drop(l, done + {k})
    ensures |(done + {k}) * L.Keys(l)| == |done * L.Keys(l)| + if k in L.Keys(L.Drop(l, done)) then 1 else 0
  {
    L.DropDrop(l, done, {k});
    L.DropKeys(l, done);
    if k in L.Keys(L.Drop(l, done)) {
      assert (done + {k}) * L.Keys(l) == done * L.Keys(l) + {k};
    } else {
      assert (done + {k}) * L.Keys(l) == done * L.Keys(l);
    }
  }

  /** Deleting the keys and then the pattern removes the targets, each counted once. */
  lemma SplitTargets(l: L.List, keys: seq<string>, pattern: string)
    ensures var rest := L.Drop(l, KeySet(keys));
            if pattern == "" then rest == L.Drop(l, Targets(l, keys, pattern)) &&
                                  |KeySet(keys) * L.Keys(l)| == |Targets(l, keys, pattern)|
            else L.DeletePattern(rest, pattern) == L.Drop(l, Targets(l, keys, pattern)) &&
                 |KeySet(keys) * L.Keys(l)| + |L.Matching(rest, pattern)| == |Targets(l, keys, pattern)|
  {
    var named := KeySet(keys);
    var rest := L.Drop(l, named);
    var all := Targets(l, keys, pattern);
    NamedKeys(l, keys, pattern);
    if pattern == "" {
      L.DropSame(l, named, all);
    } else {
      var more := L.Matching(rest, pattern);
      L.DropDrop(l, named, more);
      L.DropSame(l, named + more, all);
      DisjointSize(named * L.Keys(l), more);
    }
  }

  /** The targets are the cached keys among the named ones and, apart from them, those that match. */
  lemma NamedKeys(l: L.List, keys: seq<string>, pattern: string)
    ensures var named, all := KeySet(keys) * L.Keys(l), Targets(l, keys, pattern);
            var more := L.Matching(L.Drop(l, KeySet(keys)), pattern);
            if pattern == "" then all == named else all == named + more && named !! more
  {
    L.DropKeys(l, KeySet(keys));
  }

  lemma DisjointSize(a: set<string>, b: set<string>)
    requires a !! b
    ensures |a + b| == |a| + |b|
  {
  }
}
