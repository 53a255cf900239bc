/** What the position in the L1 list means: recency of use, and hence how long an entry is kept. */
module LruRecency {
  import opened Collections
  import opened LruList
  import opened LruTheorems

  /** A key is used when it is Set or when a Get hits it. */
  function UsedKey(l: List, t: Timed): Option<string> {
    match t.op
    case OpSet(k, _, _) => Some(k)
    case OpGet(k) => if Get(l, k, t.now).1.Some? then Some(k) else None
    case _ => None
  }

  function UsesAfter(l: List, t: Timed, uses: seq<string>): seq<string> {
    match UsedKey(l, t)
    case Some(k) => [k] + uses
    case None => uses
  }

  /** The keys used during a run, latest first, in front of those used before it. */
  function Uses(maxEntries: int, l: List, ts: seq<Timed>, before: seq<string>): seq<string>
    decreases ts
  {
    if ts == [] then before else
      Uses(maxEntries, Step(maxEntries, l, ts[0]), ts[1..], UsesAfter(l, ts[0], before))
  }

  /** How many uses ago k was last used. */
  function LastUse(uses: seq<string>, k: string): nat {
    if uses == [] || uses[0] == k then 0 else 1 + LastUse(uses[1..], k)
  }

  /** The list runs from the latest used key to the earliest. */
  ghost predicate OrderedBy(l: List, uses: seq<string>) {
    l != [] ==>
      && l[0].key in uses
      && (forall e | e in l[1..] :: LastUse(uses, l[0].key) < LastUse(uses, e.key))
      && OrderedBy(l[1..], uses)
  }

  lemma {:induction false} DropKeepsOrder(l: List, dead: set<string>, uses: seq<string>)
    requires OrderedBy(l, uses)
    ensures OrderedBy(Drop(l, dead), uses)
  {
    if l != [] {
      DropKeepsOrder(l[1..], dead, uses);
      if l[0].key !in dead {
        var rest := Drop(l[1..], dead);
        forall e | e in rest ensures LastUse(uses, l[0].key) < LastUse(uses, e.key) {
          DropElements(l[1..], dead, e);
        }
        assert ([l[0]] + rest)[1..] == rest;
      }
    }
  }

  lemma OneUseMore(uses: seq<string>, k: string, j: string)
    requires j != k
    ensures LastUse([k] + uses, j) == 1 + LastUse(uses, j)
  {
    assert ([k] + uses)[1..] == uses;
  }

  lemma {:induction false} OlderUses(l: List, k: string, uses: seq<string>)
    requires OrderedBy(l, uses) && k !in Keys(l)
    ensures OrderedBy(l, [k] + uses)
    decreases l
  {
    if l != [] {
      Uncons(l);
      OlderUses(l[1..], k, uses);
      OneUseMore(uses, k, l[0].key);
      forall e | e in l[1..] ensures LastUse([k] + uses, l[0].key) < LastUse([k] + uses, e.key) {
        assert e.key in Keys(l[1..]);
        OneUseMore(uses, k, e.key);
      }
    }
  }

  lemma UseComesFirst(l: List, e: Entry, uses: seq<string>)
    requires OrderedBy(l, uses) && e.key !in Keys(l)
    ensures OrderedBy([e] + l, [e.key] + uses)
  {
    OlderUses(l, e.key, uses);
    assert ([e] + l)[1..] == l;
    assert ([e.key] + uses)[1..] == uses;
    forall d | d in l ensures LastUse([e.key] + uses, d.key) > 0 {
      assert d.key in Keys(l);
    }
  }

  lemma StepKeepsOrder(maxEntries: int, l: List, t: Timed, uses: seq<string>)
    requires Distinct(l) && OrderedBy(l, uses)
    ensures Distinct(Step(maxEntries, l, t)) && OrderedBy(Step(maxEntries, l, t), UsesAfter(l, t, uses))
  {
    match t.op
    case OpGet(k) => GetKeepsOrder(l, k, t.now, uses);
    case OpSet(k, v, ttl) =>
      SetKeepsOrder(l, maxEntries, Entry(k, v, t.now + ttl), uses);
    case OpDelete(k) => DropRest(l, {k}, uses);
    case OpDeletePattern(p) => DropRest(l, Matching(l, p), uses);
    case OpCleanup => DropRest(l, ExpiredKeys(l, t.now), uses);
    case OpClear =>
  }

  lemma DropRest(l: List, dead: set<string>, uses: seq<string>)
    requires Distinct(l) && OrderedBy(l, uses)
    ensures Distinct(Drop(l, dead)) && OrderedBy(Drop(l, dead), uses)
  {
    DropDistinct(l, dead);
    DropKeepsOrder(l, dead, uses);
  }

  lemma GetKeepsOrder(l: List, k: string, now: int, uses: seq<string>)
    requires Distinct(l) && OrderedBy(l, uses)
    ensures var (after, hit) := Get(l, k, now);
            Distinct(after) && OrderedBy(after, if hit.Some? then [k] + uses else uses)
  {
    GetKeepsShape(l, k, now);
    if Lookup(l, k).Some? {
      DropKeys(l, {k});
      DropKeepsOrder(l, {k}, uses);
      UseComesFirst(Drop(l, {k}), Lookup(l, k).value, uses);
    }
  }

  lemma SetKeepsOrder(l: List, maxEntries: int, e: Entry, uses: seq<string>)
    requires Distinct(l) && OrderedBy(l, uses)
    ensures Distinct(Set(l, maxEntries, e.key, e.value, e.expiresAt))
    ensures OrderedBy(Set(l, maxEntries, e.key, e.value, e.expiresAt), [e.key] + uses)
  {
    SetKeepsShape(l, maxEntries, e.key, e.value, e.expiresAt);
    if e.key in Keys(l) {
      DropKeys(l, {e.key});
      DropKeepsOrder(l, {e.key}, uses);
      UseComesFirst(Drop(l, {e.key}), e, uses);
    } else {
      if l != [] {
        EvictIsDrop(l);
        DropKeepsOrder(l, {l[|l| - 1].key}, uses);
      }
      UseComesFirst(EvictIfFull(l, maxEntries), e, uses);
    }
  }

  lemma {:induction false} RunKeepsOrder(maxEntries: int, l: List, ts: seq<Timed>, uses: seq<string>)
    requires Distinct(l) && OrderedBy(l, uses)
    ensures OrderedBy(Run(maxEntries, l, ts), Uses(maxEntries, l, ts, uses))
    decreases ts
  {
    if ts != [] {
      StepKeepsOrder(maxEntries, l, ts[0], uses);
      RunKeepsOrder(maxEntries, Step(maxEntries, l, ts[0]), ts[1..], UsesAfter(l, ts[0], uses));
    }
  }

  /** In every reachable state the list is ordered by the last Set or Get hit of each key. */
  lemma ReachableIsOrderedByLastUse(maxEntries: int, ts: seq<Timed>)
    ensures OrderedBy(Run(maxEntries, [], ts), Uses(maxEntries, [], ts, []))
  {
    RunKeepsOrder(maxEntries, [], ts, []);
  }

  // Retention.

  /** The keys ahead of k in the list. */
  function Ahead(l: List, k: string): set<string> {
    if l == [] || l[0].key == k then {} else {l[0].key} + Ahead(l[1..], k)
  }

  /** Keys other than k used during a run. */
  function OthersUsed(maxEntries: int, l: List, ts: seq<Timed>, k: string): set<string>
    decreases ts
  {
    if ts == [] then {} else
      var here := match UsedKey(l, ts[0]) case Some(j) => {j} - {k} case None => {};
      here + OthersUsed(maxEntries, Step(maxEntries, l, ts[0]), ts[1..], k)
  }

  /** The step neither deletes nor expires k. */
  predicate Spares(l: List, t: Timed, k: string) {
    match t.op
    case OpGet(j) => j == k ==> Get(l, j, t.now).1.Some?
    case OpSet(_, _, _) => true
    case OpDelete(j) => j != k
    case OpDeletePattern(p) => !MatchesPattern(k, p)
    case OpCleanup => k !in ExpiredKeys(l, t.now)
    case OpClear => false
  }

  predicate RunSpares(maxEntries: int, l: List, ts: seq<Timed>, k: string)
    decreases ts
  {
    ts != [] ==> Spares(l, ts[0], k) && RunSpares(maxEntries, Step(maxEntries, l, ts[0]), ts[1..], k)
  }

  lemma {:induction false} AheadDrop(l: List, dead: set<string>, k: string)
    requires k in Keys(l) && k !in dead
    ensures k in Keys(Drop(l, dead)) && Ahead(Drop(l, dead), k) <= Ahead(l, k)
  {
    DropKeys(l, dead);
    Uncons(l);
    if l[0].key != k {
      AheadDrop(l[1..], dead, k);
      if l[0].key !in dead {
        assert ([l[0]] + Drop(l[1..], dead))[1..] == Drop(l[1..], dead);
      }
    }
  }

  lemma AheadCons(e: Entry, l: List, k: string)
    ensures Ahead([e] + l, k) == if e.key == k then {} else {e.key} + Ahead(l, k)
  {
    assert ([e] + l)[1..] == l;
  }

  /** When k is last, every other key is ahead of it. */
  lemma {:induction false} LastHasAllAhead(l: List, k: string)
    requires Distinct(l) && l != [] && l[|l| - 1].key == k
    ensures Ahead(l, k) == Keys(l) - {k}
  {
    Uncons(l);
    if |l| > 1 {
      LastHasAllAhead(l[1..], k);
      assert l[0].key != k;
    } else {
      assert Keys(l) == {k};
    }
  }

  /** The last of a full list has as many other keys ahead of it and coming in as the list is long. */
  lemma LastOfFullList(l: List, incoming: string, k: string)
    requires Distinct(l) && l != [] && l[|l| - 1].key == k && incoming !in Keys(l)
    ensures |Ahead(l, k) + ({incoming} - {k})| == |l|
  {
    LastHasAllAhead(l, k);
    SizeIsKeys(l);
    assert k in Keys(l);
    Exchange(Keys(l), k, incoming);
  }

  /** One member for a newcomer. */
  lemma Exchange(s: set<string>, k: string, incoming: string)
    requires k in s && incoming !in s
    ensures |s - {k} + ({incoming} - {k})| == |s|
  {
    OneMore(s - {k}, k);
    OneMore(s - {k}, incoming);
    assert s == s - {k} + {k} && {incoming} - {k} == {incoming};
  }

  lemma OneMore(s: set<string>, k: string)
    requires k !in s
    ensures |s + {k}| == |s| + 1
  {
  }

  lemma SetRetains(l: List, maxEntries: int, e: Entry, k: string)
    requires Distinct(l) && |l| <= Capacity(maxEntries) && k in Keys(l)
    requires |Ahead(l, k) + ({e.key} - {k})| < Capacity(maxEntries)
    ensures var l' := Set(l, maxEntries, e.key, e.value, e.expiresAt);
            k in Keys(l') && Ahead(l', k) <= Ahead(l, k) + ({e.key} - {k})
  {
    if e.key in Keys(l) {
      if e.key != k {
        AheadDrop(l, {e.key}, k);
      }
      KeysCons(e, Drop(l, {e.key}));
      AheadCons(e, Drop(l, {e.key}), k);
    } else {
      var kept := EvictIfFull(l, maxEntries);
      if kept != l {
        var last := l[|l| - 1].key;
        EvictIsDrop(l);
        if last == k {
          LastOfFullList(l, e.key, k);
        }
        AheadDrop(l, {last}, k);
      }
      KeysCons(e, kept);
      AheadCons(e, kept, k);
    }
  }

  lemma GetRetains(l: List, j: string, now: int, k: string)
    requires Distinct(l) && k in Keys(l) && (j == k ==> Get(l, j, now).1.Some?)
    ensures var (after, hit) := Get(l, j, now);
            k in Keys(after) && Ahead(after, k) <= Ahead(l, k) + if hit.Some? then {j} - {k} else {}
  {
    GetKeepsShape(l, j, now);
    if j != k {
      AheadDrop(l, {j}, k);
    }
    if Lookup(l, j).Some? {
      AheadCons(Lookup(l, j).value, Drop(l, {j}), k);
    }
  }

  lemma StepRetains(maxEntries: int, l: List, t: Timed, k: string)
    requires Distinct(l) && |l| <= Capacity(maxEntries) && k in Keys(l) && Spares(l, t, k)
    requires var here := match UsedKey(l, t) case Some(j) => {j} - {k} case None => {};
             |Ahead(l, k) + here| < Capacity(maxEntries)
    ensures var here := match UsedKey(l, t) case Some(j) => {j} - {k} case None => {};
            var l' := Step(maxEntries, l, t);
            k in Keys(l') && Ahead(l', k) <= Ahead(l, k) + here
  {
    match t.op
    case OpGet(j) => GetRetains(l, j, t.now, k);
    case OpSet(j, v, ttl) => SetRetains(l, maxEntries, Entry(j, v, t.now + ttl), k);
    case OpDelete(j) => AheadDrop(l, {j}, k);
    case OpDeletePattern(p) => AheadDrop(l, Matching(l, p), k);
    case OpCleanup => AheadDrop(l, ExpiredKeys(l, t.now), k);
    case OpClear =>
  }

  lemma {:induction false} RunRetains(maxEntries: int, l: List, ts: seq<Timed>, k: string)
    requires Distinct(l) && |l| <= Capacity(maxEntries) && k in Keys(l) && RunSpares(maxEntries, l, ts, k)
    requires |Ahead(l, k) + OthersUsed(maxEntries, l, ts, k)| < Capacity(maxEntries)
    ensures k in Keys(Run(maxEntries, l, ts))
    decreases ts
  {
    if ts != [] {
      var here := match UsedKey(l, ts[0]) case Some(j) => {j} - {k} case None => {};
      var l' := Step(maxEntries, l, ts[0]);
      var all := Ahead(l, k) + OthersUsed(maxEntries, l, ts, k);
      var later := OthersUsed(maxEntries, l', ts[1..], k);
      SubsetSize(Ahead(l, k) + here, all);
      StepRetains(maxEntries, l, ts[0], k);
      SubsetSize(Ahead(l', k) + later, all);
      StepKeepsBound(maxEntries, l, ts[0]);
      RunRetains(maxEntries, l', ts[1..], k);
    }
  }

  /** An entry that has just been used stays cached while fewer than maxEntries other keys are used, unless it is
      deleted or expires. */
  lemma UsedEntryIsRetained(maxEntries: int, l: List, ts: seq<Timed>, k: string)
    requires Distinct(l) && |l| <= Capacity(maxEntries)
    requires l != [] && l[0].key == k
    requires RunSpares(maxEntries, l, ts, k)
    requires |OthersUsed(maxEntries, l, ts, k)| < Capacity(maxEntries)
    ensures k in Keys(Run(maxEntries, l, ts))
  {
    assert Ahead(l, k) == {};
    assert {} + OthersUsed(maxEntries, l, ts, k) == OthersUsed(maxEntries, l, ts, k);
    RunRetains(maxEntries, l, ts, k);
  }
}
