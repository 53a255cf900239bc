/** Whole runs of the L1 cache: inclusion between capacities, recency order and retention. */
module LruTheorems {
  import opened Collections
  import opened LruList

  datatype Op =
    | OpGet(key: string)
    | OpSet(key: string, value: Value, ttl: int)
    | OpDelete(key: string)
    | OpDeletePattern(pattern: string)
    | OpCleanup
    | OpClear

  /** An operation and the one clock reading it makes. */
  datatype Timed = At(now: int, op: Op)

  function Step(maxEntries: int, l: List, t: Timed): List {
    match t.op
    case OpGet(k) => Get(l, k, t.now).0
    case OpSet(k, v, ttl) => Set(l, maxEntries, k, v, t.now + ttl)
    case OpDelete(k) => Delete(l, k)
    case OpDeletePattern(p) => DeletePattern(l, p)
    case OpCleanup => CleanupExpired(l, t.now)
    case OpClear => []
  }

  /** What a caller sees of a step: the entry a Get returns. */
  function Answer(l: List, t: Timed): Option<Entry> {
    match t.op
    case OpGet(k) => Get(l, k, t.now).1
    case _ => None
  }

  function Run(maxEntries: int, l: List, ts: seq<Timed>): List
    decreases ts
  {
    if ts == [] then l else Run(maxEntries, Step(maxEntries, l, ts[0]), ts[1..])
  }

  function Answers(maxEntries: int, l: List, ts: seq<Timed>): seq<Option<Entry>>
    decreases ts
  {
    if ts == [] then [] else [Answer(l, ts[0])] + Answers(maxEntries, Step(maxEntries, l, ts[0]), ts[1..])
  }

  /** A capacity below one behaves as one: the newest entry is always kept. */
  function Capacity(maxEntries: int): int {
    if maxEntries < 1 then 1 else maxEntries
  }

  // Inclusion.

  /** `small` is `large` with some entries missing. */
  ghost predicate SubList(small: List, large: List) {
    Distinct(large) && small == Drop(large, Keys(large) - Keys(small))
  }

  lemma SubListFrom(small: List, large: List, missing: set<string>)
    requires Distinct(large) && small == Drop(large, missing)
    ensures SubList(small, large)
  {
    DropKeys(large, missing);
    DropSame(large, missing, Keys(large) - Keys(small));
  }

  lemma SubListFacts(small: List, large: List)
    requires SubList(small, large)
    ensures Distinct(small) && Keys(small) <= Keys(large)
    ensures |Keys(large) - Keys(small)| == |large| - |small|
    ensures forall e :: e in small ==> e in large
  {
    var missing := Keys(large) - Keys(small);
    DropKeys(large, missing);
    DropDistinct(large, missing);
    SizeIsKeys(large);
    SizeIsKeys(small);
    assert Keys(large) == Keys(small) + missing;
    assert |Keys(large)| == |Keys(small)| + |missing|;
    forall e | e in small ensures e in large {
      DropElements(large, missing, e);
    }
  }

  /** Dropping the same keys from both keeps inclusion and does not widen the gap. */
  lemma DropBoth(small: List, large: List, deadSmall: set<string>, deadLarge: set<string>)
    requires SubList(small, large)
    requires forall k | k in Keys(small) :: k in deadSmall <==> k in deadLarge
    ensures SubList(Drop(small, deadSmall), Drop(large, deadLarge))
    ensures |Drop(large, deadLarge)| - |Drop(small, deadSmall)| <= |large| - |small|
  {
    var missing := Keys(large) - Keys(small);
    var small', large' := Drop(small, deadSmall), Drop(large, deadLarge);
    DropSame(small, deadSmall, deadLarge);
    DropDrop(large, missing, deadLarge);
    DropDrop(large, deadLarge, missing);
    assert missing + deadLarge == deadLarge + missing;
    DropDistinct(large, deadLarge);
    SubListFrom(small', large', missing);
    SubListFacts(small, large);
    SubListFacts(small', large');
    DropKeys(small, deadSmall);
    DropKeys(large, deadLarge);
    SubsetSize(Keys(large') - Keys(small'), missing);
  }

  /** The same entry put in front of both. */
  lemma ConsBoth(small: List, large: List, e: Entry)
    requires SubList(small, large) && e.key !in Keys(large)
    ensures SubList([e] + small, [e] + large)
  {
    var missing := Keys(large) - Keys(small);
    DistinctCons(e, large);
    assert ([e] + large)[1..] == large;
    SubListFrom([e] + small, [e] + large, missing);
  }

  /** Eviction from both: the last entry of the large list is either missing from the small one or last there too. */
  lemma EvictBoth(small: List, large: List)
    requires SubList(small, large) && small != [] && large != []
    ensures SubList(small[..|small| - 1], large[..|large| - 1])
  {
    SubListFacts(small, large);
    var missing := Keys(large) - Keys(small);
    var front, last := large[..|large| - 1], large[|large| - 1];
    assert large == front + [last] && Distinct(front);
    DropSnoc(front, last, missing);
    if last.key in missing {
      SubListFrom(small, front, missing);
      EvictSmall(small, front);
    } else {
      assert small[..|small| - 1] == Drop(front, missing);
      SubListFrom(small[..|small| - 1], front, missing);
    }
  }

  lemma DropSnoc(l: List, e: Entry, dead: set<string>)
    ensures Drop(l + [e], dead) == if e.key in dead then Drop(l, dead) else Drop(l, dead) + [e]
  {
    DropConcat(l, [e], dead);
    assert [e][1..] == [];
  }

  lemma EvictSmall(small: List, large: List)
    requires SubList(small, large) && small != []
    ensures SubList(small[..|small| - 1], large)
  {
    SubListFacts(small, large);
    EvictIsDrop(small);
    var missing, gone := Keys(large) - Keys(small), small[|small| - 1].key;
    DropDrop(large, missing, {gone});
    SubListFrom(small[..|small| - 1], large, missing + {gone});
  }

  /** The invariant of two caches of capacities c <= d driven alike. */
  ghost predicate Included(small: List, large: List, c: int, d: int) {
    && SubList(small, large)
    && |small| <= Capacity(c) && |large| <= Capacity(d)
    && |large| - |small| <= Capacity(d) - Capacity(c)
  }

  lemma GetKeepsInclusion(small: List, large: List, c: int, d: int, k: string, now: int)
    requires Included(small, large, c, d)
    ensures Included(Get(small, k, now).0, Get(large, k, now).0, c, d)
    ensures Get(small, k, now).1.Some? ==> Get(large, k, now).1 == Get(small, k, now).1
  {
    SubListFacts(small, large);
    var missing := Keys(large) - Keys(small);
    DropBoth(small, large, {k}, {k});
    SizeAfterDrop(small, k);
    SizeAfterDrop(large, k);
    if k in Keys(small) {
      LookupDrop(large, missing, k);
      var e := Lookup(large, k).value;
      DropKeys(large, {k});
      ConsBoth(Drop(small, {k}), Drop(large, {k}), e);
    } else {
      DropNothing(small, {k});
      if k in Keys(large) {
        var e := Lookup(large, k).value;
        ToFront(large, e);
        var large' := [e] + Drop(large, {k});
        assert Drop(large', {k} + missing) == Drop(Drop(large, {k}), missing) by { DropDrop(large', {k}, missing); }
        assert small == Drop(Drop(large, {k}), missing) by {
          DropDrop(large, missing, {k});
          DropDrop(large, {k}, missing);
          assert missing + {k} == {k} + missing;
        }
        SubListFrom(small, large', {k} + missing);
      }
    }
  }

  lemma SizeAfterDrop(l: List, k: string)
    requires Distinct(l)
    ensures |Drop(l, {k})| == if k in Keys(l) then |l| - 1 else |l|
  {
    DropKeys(l, {k});
    DropDistinct(l, {k});
    SizeIsKeys(l);
    SizeIsKeys(Drop(l, {k}));
    if k in Keys(l) {
      assert Keys(l) == Keys(Drop(l, {k})) + {k};
    } else {
      DropNothing(l, {k});
    }
  }

  lemma SetKeepsInclusion(small: List, large: List, c: int, d: int, k: string, v: Value, expiresAt: int)
    requires c <= d && Included(small, large, c, d)
    ensures Included(Set(small, c, k, v, expiresAt), Set(large, d, k, v, expiresAt), c, d)
  {
    SubListFacts(small, large);
    var e := Entry(k, v, expiresAt);
    SizeAfterDrop(small, k);
    SizeAfterDrop(large, k);
    DropBoth(small, large, {k}, {k});
    DropKeys(large, {k});
    if k in Keys(small) {
      ConsBoth(Drop(small, {k}), Drop(large, {k}), e);
    } else {
      DropNothing(small, {k});
      var small' := EvictIfFull(small, c);
      if k in Keys(large) {
        if small' != small {
          EvictSmall(small, Drop(large, {k}));
        }
        ConsBoth(small', Drop(large, {k}), e);
      } else {
        DropNothing(large, {k});
        var large' := EvictIfFull(large, d);
        if small' != small && large' != large {
          EvictBoth(small, large);
        } else if small' != small {
          EvictSmall(small, large);
        }
        if large' != large {
          EvictIsDrop(large);
        }
        assert k !in Keys(large');
        ConsBoth(small', large', e);
      }
    }
  }

  lemma StepKeepsInclusion(small: List, large: List, c: int, d: int, t: Timed)
    requires c <= d && Included(small, large, c, d)
    ensures Included(Step(c, small, t), Step(d, large, t), c, d)
    ensures Answer(small, t).Some? ==> Answer(large, t) == Answer(small, t)
  {
    match t.op
    case OpGet(k) => GetKeepsInclusion(small, large, c, d, k, t.now);
    case OpSet(k, v, ttl) => SetKeepsInclusion(small, large, c, d, k, v, t.now + ttl);
    case OpDelete(k) => DropKeepsInclusion(small, large, c, d, {k}, {k});
    case OpDeletePattern(p) =>
      SubListFacts(small, large);
      DropKeepsInclusion(small, large, c, d, Matching(small, p), Matching(large, p));
    case OpCleanup =>
      ExpiredTogether(small, large, t.now);
      DropKeepsInclusion(small, large, c, d, ExpiredKeys(small, t.now), ExpiredKeys(large, t.now));
    case OpClear =>
  }

  lemma DropKeepsInclusion(small: List, large: List, c: int, d: int, deadSmall: set<string>, deadLarge: set<string>)
    requires Included(small, large, c, d)
    requires forall k | k in Keys(small) :: k in deadSmall <==> k in deadLarge
    ensures Included(Drop(small, deadSmall), Drop(large, deadLarge), c, d)
  {
    DropBoth(small, large, deadSmall, deadLarge);
    DropShrinks(small, deadSmall);
    DropShrinks(large, deadLarge);
  }

  lemma {:induction false} DropShrinks(l: List, dead: set<string>)
    ensures |Drop(l, dead)| <= |l|
  {
    if l != [] {
      DropShrinks(l[1..], dead);
    }
  }

  lemma ExpiredTogether(small: List, large: List, now: int)
    requires SubList(small, large)
    ensures forall k | k in Keys(small) :: k in ExpiredKeys(small, now) <==> k in ExpiredKeys(large, now)
  {
    SubListFacts(small, large);
    forall k | k in Keys(small) ensures k in ExpiredKeys(small, now) <==> k in ExpiredKeys(large, now) {
      var i :| 0 <= i < |small| && small[i].key == k;
      assert small[i] in large;
      ExpiredIff(small, small[i], now);
      ExpiredIff(large, small[i], now);
    }
  }

  lemma ExpiredIff(l: List, e: Entry, now: int)
    requires Distinct(l) && e in l
    ensures e.key in ExpiredKeys(l, now) <==> Expired(e, now)
  {
    var i :| 0 <= i < |l| && l[i] == e;
  }

  lemma StepKeepsBound(maxEntries: int, l: List, t: Timed)
    requires Distinct(l) && |l| <= Capacity(maxEntries)
    ensures Distinct(Step(maxEntries, l, t)) && |Step(maxEntries, l, t)| <= Capacity(maxEntries)
  {
    DropNothing(l, {});
    SubListFrom(l, l, {});
    StepKeepsInclusion(l, l, maxEntries, maxEntries, t);
  }

  lemma {:induction false} RunKeepsInclusion(c: int, d: int, small: List, large: List, ts: seq<Timed>)
    requires c <= d && Included(small, large, c, d)
    ensures Included(Run(c, small, ts), Run(d, large, ts), c, d)
    ensures |Answers(c, small, ts)| == |Answers(d, large, ts)| == |ts|
    ensures forall i | 0 <= i < |ts| && Answers(c, small, ts)[i].Some? ::
              Answers(d, large, ts)[i] == Answers(c, small, ts)[i]
    decreases ts
  {
    if ts != [] {
      StepKeepsInclusion(small, large, c, d, ts[0]);
      RunKeepsInclusion(c, d, Step(c, small, ts[0]), Step(d, large, ts[0]), ts[1..]);
    }
  }

  /** No Belady anomaly: a larger cache fed the same operations at the same times always holds what the smaller
      one holds, in the same order with the same values and deadlines; it is ahead by at most the difference in
      capacity; and every hit of the smaller is a hit of the larger with the same entry. */
  lemma LargerCacheIncludesSmaller(c: int, d: int, ts: seq<Timed>)
    requires c <= d
    ensures SubList(Run(c, [], ts), Run(d, [], ts))
    ensures |Run(d, [], ts)| - |Run(c, [], ts)| <= Capacity(d) - Capacity(c)
    ensures |Answers(c, [], ts)| == |Answers(d, [], ts)| == |ts|
    ensures forall i | 0 <= i < |ts| && Answers(c, [], ts)[i].Some? ::
              Answers(d, [], ts)[i] == Answers(c, [], ts)[i]
  {
    assert Included([], [], c, d);
    RunKeepsInclusion(c, d, [], [], ts);
  }

  /** In every reachable state keys are distinct and the capacity is respected. */
  lemma ReachableIsBounded(maxEntries: int, ts: seq<Timed>)
    ensures Distinct(Run(maxEntries, [], ts)) && |Run(maxEntries, [], ts)| <= Capacity(maxEntries)
  {
    assert Included([], [], maxEntries, maxEntries);
    RunKeepsInclusion(maxEntries, maxEntries, [], [], ts);
  }
}
