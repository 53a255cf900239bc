/** When the two levels disagree about a key: a Set whose L2 write failed, or a background write that lands late. What
    a Get answers afterwards, over every run, and when the disagreement can never show. */
module StaleReads {
  import opened Collections
  import opened TwoLevel
  import P = TwoLevelTheorems
  import T = LruTheorems

  /** Everything that happens to one instance: requests with failing or working L2 calls and any origin, events from
      elsewhere, L1 cleanup, L2 expiry and background writes. */
  datatype Act =
    | DoGet(key: string, l2Fails: bool, origin: Origin)
    | DoSet(key: string, value: Value, seconds: int, l2Fails: bool)
    | DoInvalidate(keys: seq<string>, pattern: string, l2Fails: bool)
    | DoInvalidateEvent(keys: seq<string>, pattern: string)
    | DoRefreshEvent(key: string, value: Value, ttl: int)
    | DoCleanup
    | DoPurge(candidates: set<string>)
    | DoFlush(i: nat)

  datatype Timed = At(now: int, act: Act)

  function Step(c: Config, s: State, t: Timed): State {
    match t.act
    case DoGet(k, fails, origin) => Get(c, s, k, t.now, fails, origin).0
    case DoSet(k, v, seconds, fails) => Set(c, s, k, v, seconds, t.now, fails)
    case DoInvalidate(keys, pattern, fails) => Invalidate(c, s, keys, pattern, fails)
    case DoInvalidateEvent(keys, pattern) => s.(l1 := L.Drop(s.l1, Targets(s.l1, keys, pattern)))
    case DoRefreshEvent(k, v, ttl) => s.(l1 := L.Set(s.l1, c.maxEntries, k, v, t.now + ttl))
    case DoCleanup => s.(l1 := L.CleanupExpired(s.l1, t.now))
    case DoPurge(keys) => Purge(s, keys, t.now)
    case DoFlush(i) => if i < |s.pending| then Flush(s, i) else s
  }

  function Run(c: Config, s: State, ts: seq<Timed>): State
    decreases ts
  {
    if ts == [] then s else Run(c, Step(c, s, ts[0]), ts[1..])
  }

  /** The step writes nothing for k: no Set, refresh or origin fill of k, and no invalidation or background write of k
      that reaches L2. It may still drop k from L1, promote it, or discard it from L2 once it has expired. */
  predicate Spares(s: State, t: Timed, k: string) {
    match t.act
    case DoGet(j, _, origin) => j == k ==> !origin.Fetched?
    case DoSet(j, _, _, _) => j != k
    case DoInvalidate(keys, pattern, fails) => fails || !Named(k, keys, pattern)
    case DoInvalidateEvent(_, _) => true
    case DoRefreshEvent(j, _, _) => j != k
    case DoCleanup => true
    case DoPurge(_) => true
    case DoFlush(i) => i < |s.pending| ==> s.pending[i].key != k
  }

  predicate RunSpares(c: Config, s: State, ts: seq<Timed>, k: string)
    decreases ts
  {
    ts != [] ==> Spares(s, ts[0], k) && RunSpares(c, Step(c, s, ts[0]), ts[1..], k)
  }

  /** The clock never goes back during the run, which lies between start and end. */
  predicate OnTime(start: int, ts: seq<Timed>, end: int)
    decreases ts
  {
    if ts == [] then start <= end else start <= ts[0].now && OnTime(ts[0].now, ts[1..], end)
  }

  function L1Item(s: State, k: string): Option<Item> {
    match L.Lookup(s.l1, k)
    case Some(e) => Some(Item(e.value, e.expiresAt))
    case None => None
  }

  function L2Item(s: State, k: string): Option<Item> {
    if k in s.l2 then Some(s.l2[k]) else None
  }

  /** The item as long as it has not expired. */
  function Alive(o: Option<Item>, now: int): Option<Item> {
    match o
    case Some(item) => if now <= item.expiresAt then o else None
    case None => None
  }

  /** What a Get that L2 does not fail, and no origin helps, answers. */
  function Answer(c: Config, s: State, k: string, now: int): Option<Item> {
    P.Seen(Get(c, s, k, now, false, NoFetcher).1)
  }

  // How L1 may change for k.

  lemma DropKeepsOrLoses(l: L.List, dead: set<string>, k: string)
    ensures L.Lookup(L.Drop(l, dead), k) == if k in dead then Option<L.Entry>.None else L.Lookup(l, k)
  {
    if k in dead {
      L.DropKeys(l, dead);
    } else {
      L.LookupDrop(l, dead, k);
    }
  }

  lemma LookupCons(e: L.Entry, l: L.List, k: string)
    ensures L.Lookup([e] + l, k) == if e.key == k then Some(e) else L.Lookup(l, k)
  {
    assert ([e] + l)[1..] == l;
  }

  lemma SetKeepsOrLoses(l: L.List, maxEntries: int, e: L.Entry, k: string)
    requires L.Distinct(l)
    ensures var r := L.Set(l, maxEntries, e.key, e.value, e.expiresAt);
            && L.Distinct(r)
            && if e.key == k then L.Lookup(r, k) == Some(e) else L.Lookup(r, k) in {None, L.Lookup(l, k)}
  {
    L.SetKeepsShape(l, maxEntries, e.key, e.value, e.expiresAt);
    var rest := if e.key in L.Keys(l) then L.Drop(l, {e.key}) else L.EvictIfFull(l, maxEntries);
    LookupCons(e, rest, k);
    DropKeepsOrLoses(l, {e.key}, k);
    if l != [] {
      L.EvictIsDrop(l);
      DropKeepsOrLoses(l, {l[|l| - 1].key}, k);
    }
  }

  lemma GetKeepsOrLoses(l: L.List, j: string, now: int, k: string)
    requires L.Distinct(l)
    ensures var (r, hit) := L.Get(l, j, now);
            && L.Distinct(r)
            && L.Lookup(r, k) == (if j == k && hit.None? then Option<L.Entry>.None else L.Lookup(l, k))
            && (j == k ==> hit == match L.Lookup(l, k)
                                  case Some(e) => if now <= e.expiresAt then Some(e) else None
                                  case None => None)
  {
    L.GetKeepsShape(l, j, now);
    DropKeepsOrLoses(l, {j}, k);
    if L.Lookup(l, j).Some? {
      LookupCons(L.Lookup(l, j).value, L.Drop(l, {j}), k);
    }
  }

  /** L1 has k as it was at first, or as L2 had it, or not at all; L2 has k as it had it, unless it has expired. */
  ghost predicate Traceable(s: State, k: string, first: Option<Item>, second: Option<Item>, now: int) {
    && L.Distinct(s.l1) && L1Item(s, k) in {None, first, second}
    && (L2Item(s, k) == second || (L2Item(s, k).None? && Alive(second, now).None?))
  }

  /** L1 takes in an entry of another key, or L2's own item of k. */
  lemma FillKeeps(s: State, r: State, maxEntries: int, e: L.Entry, k: string, first: Option<Item>,
                  second: Option<Item>, now: int)
    requires Traceable(s, k, first, second, now)
    requires e.key == k ==> L2Item(s, k) == Some(Item(e.value, e.expiresAt))
    requires r.l1 == L.Set(s.l1, maxEntries, e.key, e.value, e.expiresAt) && L2Item(r, k) == L2Item(s, k)
    ensures Traceable(r, k, first, second, now)
  {
    SetKeepsOrLoses(s.l1, maxEntries, e, k);
  }

  lemma FetchKeeps(c: Config, s: State, j: string, now: int, fails: bool, origin: Origin, k: string,
                   first: Option<Item>, second: Option<Item>)
    requires Traceable(s, k, first, second, now) && (j == k ==> !origin.Fetched?)
    ensures Traceable(Fetch(c, s, j, now, fails, origin).0, k, first, second, now)
  {
    var r := Fetch(c, s, j, now, fails, origin).0;
    if c.l2Enabled && !fails && LiveIn(s.l2, j, now) {
      var e := L.Entry(j, s.l2[j].value, now + (s.l2[j].expiresAt - now));
      FillKeeps(s, r, c.maxEntries, e, k, first, second, now);
    } else if origin.Fetched? {
      FillKeeps(s, r, c.maxEntries, L.Entry(j, origin.value, now + c.defaultTTL), k, first, second, now);
    }
  }

  lemma GetKeeps(c: Config, s: State, j: string, now: int, fails: bool, origin: Origin, k: string,
                 first: Option<Item>, second: Option<Item>)
    requires Traceable(s, k, first, second, now) && (j == k ==> !origin.Fetched?)
    ensures Traceable(Get(c, s, j, now, fails, origin).0, k, first, second, now)
  {
    if j != "" {
      GetKeepsOrLoses(s.l1, j, now, k);
      var (l1, hit) := L.Get(s.l1, j, now);
      var t := s.(l1 := l1);
      assert L1Item(t, k) in {None, L1Item(s, k)};
      if hit.None? {
        FetchKeeps(c, t, j, now, fails, origin, k, first, second);
      }
    }
  }

  lemma DropKeeps(s: State, r: State, dead: set<string>, k: string, first: Option<Item>, second: Option<Item>, now: int)
    requires Traceable(s, k, first, second, now)
    requires r.l1 == L.Drop(s.l1, dead) && L2Item(r, k) == L2Item(s, k)
    ensures Traceable(r, k, first, second, now)
  {
    L.DropDistinct(s.l1, dead);
    DropKeepsOrLoses(s.l1, dead, k);
  }

  lemma InvalidateKeepsL2(c: Config, s: State, keys: seq<string>, pattern: string, fails: bool, k: string)
    requires fails || !Named(k, keys, pattern)
    ensures L2Item(Invalidate(c, s, keys, pattern, fails), k) == L2Item(s, k)
  {
  }

  lemma StepKeeps(c: Config, s: State, t: Timed, k: string, first: Option<Item>, second: Option<Item>)
    requires Traceable(s, k, first, second, t.now) && Spares(s, t, k)
    ensures Traceable(Step(c, s, t), k, first, second, t.now)
  {
    var r := Step(c, s, t);
    match t.act
    case DoGet(j, fails, origin) => GetKeeps(c, s, j, t.now, fails, origin, k, first, second);
    case DoSet(j, v, seconds, fails) => SetOtherKeeps(c, s, j, v, seconds, t.now, fails, k, first, second);
    case DoInvalidate(keys, pattern, fails) =>
      InvalidateKeepsL2(c, s, keys, pattern, fails, k);
      DropKeeps(s, r, Targets(s.l1, keys, pattern), k, first, second, t.now);
    case DoInvalidateEvent(keys, pattern) =>
      DropKeeps(s, r, Targets(s.l1, keys, pattern), k, first, second, t.now);
    case DoRefreshEvent(j, v, ttl) =>
      FillKeeps(s, r, c.maxEntries, L.Entry(j, v, t.now + ttl), k, first, second, t.now);
    case DoCleanup => DropKeeps(s, r, L.ExpiredKeys(s.l1, t.now), k, first, second, t.now);
    case DoPurge(keys) =>
    case DoFlush(i) =>
  }

  lemma SetOtherKeeps(c: Config, s: State, j: string, v: Value, seconds: int, now: int, fails: bool, k: string,
                      first: Option<Item>, second: Option<Item>)
    requires Traceable(s, k, first, second, now) && j != k
    ensures Traceable(Set(c, s, j, v, seconds, now, fails), k, first, second, now)
  {
    if !SetRefused(j, v) {
      var r := Set(c, s, j, v, seconds, now, fails);
      FillKeeps(s, r, c.maxEntries, L.Entry(j, v, now + TTL(c, seconds)), k, first, second, now);
    }
  }

  lemma {:induction false} RunKeeps(c: Config, s: State, ts: seq<Timed>, k: string, first: Option<Item>,
                                    second: Option<Item>, start: int, end: int)
    requires Traceable(s, k, first, second, start) && RunSpares(c, s, ts, k) && OnTime(start, ts, end)
    ensures Traceable(Run(c, s, ts), k, first, second, end)
    decreases ts
  {
    if ts != [] {
      StepKeeps(c, s, ts[0], k, first, second);
      RunKeeps(c, Step(c, s, ts[0]), ts[1..], k, first, second, ts[0].now, end);
    }
  }

  /** The answer is L1's item while that is live, else L2's. */
  lemma AnswerFromLevels(c: Config, s: State, k: string, now: int)
    requires c.l2Enabled && k != "" && L.Distinct(s.l1)
    ensures Answer(c, s, k, now) == if Alive(L1Item(s, k), now).Some? then L1Item(s, k) else Alive(L2Item(s, k), now)
  {
    GetKeepsOrLoses(s.l1, k, now, k);
  }

  /** However the levels came to disagree about k: through every run that writes nothing for k, L2 keeps its item while
      that is live, and a Get answers what L1 had at first as long as L1 still has it and it is live, and otherwise
      L2's item while that is live. */
  lemma LevelsDecideAnswer(c: Config, s: State, ts: seq<Timed>, k: string, start: int, now: int)
    requires c.l2Enabled && k != "" && L.Distinct(s.l1) && RunSpares(c, s, ts, k) && OnTime(start, ts, now)
    ensures var r, first := Run(c, s, ts), L1Item(s, k);
            && L.Distinct(r.l1)
            && Alive(L2Item(r, k), now) == Alive(L2Item(s, k), now)
            && Answer(c, r, k, now) == if L1Item(r, k) == first && Alive(first, now).Some? then first
                                       else Alive(L2Item(s, k), now)
  {
    RunKeeps(c, s, ts, k, L1Item(s, k), L2Item(s, k), start, now);
    AnswerFromLevels(c, Run(c, s, ts), k, now);
  }

  // When the disagreement shows.

  lemma {:induction false} LengthBound(l: L.List, k: string) returns (n: nat)
    ensures |k| <= n && forall p: nat | p < |l| :: |l[p].key| <= n
    decreases l
  {
    n := |k|;
    if l != [] {
      var m := LengthBound(l[1..], k);
      n := if |l[0].key| > m then |l[0].key| else m;
      assert forall p: nat | 1 <= p < |l| :: l[p] == l[1..][p - 1];
    }
  }

  /** The first i entries have keys longer than n, and none has a key longer than n + i. */
  ghost predicate Pushed(l: L.List, n: nat, i: nat) {
    && L.Distinct(l) && i <= |l|
    && (forall p: nat | p < i :: |l[p].key| > n)
    && (forall p: nat | p < |l| :: |l[p].key| <= n + i)
  }

  lemma PushOne(l: L.List, maxEntries: int, n: nat, i: nat, v: Value, x: int)
    requires Pushed(l, n, i) && i < T.Capacity(maxEntries) && |l| <= T.Capacity(maxEntries)
    ensures var r := L.Set(l, maxEntries, Name(n + i), v, x);
            Pushed(r, n, i + 1) && |r| <= T.Capacity(maxEntries)
  {
    NameLength(n + i);
    L.SetKeepsShape(l, maxEntries, Name(n + i), v, x);
    assert Name(n + i) !in L.Keys(l);
  }

  lemma AllPushed(l: L.List, n: nat, k: string)
    requires Pushed(l, n, |l|) && |k| <= n
    ensures L.Lookup(l, k).None?
  {
  }

  /** As many Sets of new keys as L1 has room for push k out; they write nothing for k. */
  lemma {:induction false} PushOut(c: Config, s: State, k: string, at: int, n: nat, i: nat) returns (ts: seq<Timed>)
    requires Pushed(s.l1, n, i) && i <= T.Capacity(c.maxEntries) && |s.l1| <= T.Capacity(c.maxEntries) && |k| <= n
    ensures RunSpares(c, s, ts, k) && OnTime(at, ts, at) && L1Item(Run(c, s, ts), k).None?
    decreases T.Capacity(c.maxEntries) - i
  {
    ts := [];
    if i == T.Capacity(c.maxEntries) {
      AllPushed(s.l1, n, k);
    } else {
      NameLength(n + i);
      var push := At(at, DoSet(Name(n + i), "v", 1, false));
      PushOne(s.l1, c.maxEntries, n, i, "v", at + TTL(c, 1));
      var rest := PushOut(c, Step(c, s, push), k, at, n, i + 1);
      ts := [push] + rest;
      assert ts[1..] == rest;
    }
  }

  /** Every Get of k, after whatever run that writes nothing for k, answers `latest`, the item most recently written
      for k, or nothing. */
  ghost predicate NeverStale(c: Config, s: State, k: string, at: int, latest: Option<Item>) {
    forall ts: seq<Timed>, now ::
      OnTime(at, ts, now) && RunSpares(c, s, ts, k) ==> Answer(c, Run(c, s, ts), k, now) in {None, latest}
  }

  lemma {:induction false} OnTimeEnds(start: int, ts: seq<Timed>, end: int)
    requires OnTime(start, ts, end)
    ensures start <= end
    decreases ts
  {
    if ts != [] {
      OnTimeEnds(ts[0].now, ts[1..], end);
    }
  }

  /** No stale item ever shows exactly when what each level holds now has expired or is the latest item: for every
      capacity some run shows it otherwise. */
  lemma StaleItemIsHiddenIff(c: Config, s: State, k: string, at: int, latest: Option<Item>)
    requires c.l2Enabled && k != "" && L.Distinct(s.l1) && |s.l1| <= T.Capacity(c.maxEntries)
    ensures NeverStale(c, s, k, at, latest) <==>
              Alive(L1Item(s, k), at) in {None, latest} && Alive(L2Item(s, k), at) in {None, latest}
  {
    if Alive(L1Item(s, k), at) !in {None, latest} {
      var ts: seq<Timed> := [];
      AnswerFromLevels(c, s, k, at);
      assert OnTime(at, ts, at) && RunSpares(c, s, ts, k) && Run(c, s, ts) == s;
    } else if Alive(L2Item(s, k), at) !in {None, latest} {
      var n := LengthBound(s.l1, k);
      var ts := PushOut(c, s, k, at, n, 0);
      LevelsDecideAnswer(c, s, ts, k, at, at);
      assert Answer(c, Run(c, s, ts), k, at) == L2Item(s, k);
    } else {
      forall ts: seq<Timed>, now | OnTime(at, ts, now) && RunSpares(c, s, ts, k)
        ensures Answer(c, Run(c, s, ts), k, now) in {None, latest}
      {
        OnTimeEnds(at, ts, now);
        LevelsDecideAnswer(c, s, ts, k, at, now);
      }
    }
  }

  // Failed writes.

  lemma SetLevels(c: Config, s: State, k: string, v: Value, seconds: int, at: int, fails: bool)
    requires c.l2Enabled && !SetRefused(k, v) && L.Distinct(s.l1)
    ensures var t := Set(c, s, k, v, seconds, at, fails);
            var latest := Item(v, at + TTL(c, seconds));
            && L.Distinct(t.l1) && L1Item(t, k) == Some(latest)
            && L2Item(t, k) == (if fails then L2Item(s, k) else Some(latest))
            && t.pending == s.pending
            && (|s.l1| <= T.Capacity(c.maxEntries) ==> |t.l1| <= T.Capacity(c.maxEntries))
  {
    SetKeepsOrLoses(s.l1, c.maxEntries, L.Entry(k, v, at + TTL(c, seconds)), k);
    L.SetKeepsShape(s.l1, c.maxEntries, k, v, at + TTL(c, seconds));
  }

  /** After a Set whose L2 write failed, through every run that writes nothing more for k, L2 keeps the item it had
      before while that is live; a Get answers the new item as long as L1 still has it and it is live, and otherwise
      the old one while that is live. */
  lemma FailedWriteLastsWithL1Copy(c: Config, s: State, k: string, v: Value, seconds: int, at: int, ts: seq<Timed>,
                                   now: int)
    requires c.l2Enabled && !SetRefused(k, v) && L.Distinct(s.l1) && OnTime(at, ts, now)
    requires RunSpares(c, Set(c, s, k, v, seconds, at, true), ts, k)
    ensures var r := Run(c, Set(c, s, k, v, seconds, at, true), ts);
            var latest := Some(Item(v, at + TTL(c, seconds)));
            && Alive(L2Item(r, k), now) == Alive(L2Item(s, k), now)
            && Answer(c, r, k, now) == if L1Item(r, k) == latest && Alive(latest, now).Some? then latest
                                       else Alive(L2Item(s, k), now)
  {
    SetLevels(c, s, k, v, seconds, at, true);
    LevelsDecideAnswer(c, Set(c, s, k, v, seconds, at, true), ts, k, at, now);
  }

  /** A failed L2 write does no harm, whatever happens next, exactly when L2 held no live item of the key, or the same
      one; this can be read off L2 before the Set. */
  lemma FailedWriteIsHarmlessIff(c: Config, s: State, k: string, v: Value, seconds: int, at: int)
    requires c.l2Enabled && !SetRefused(k, v) && L.Distinct(s.l1) && |s.l1| <= T.Capacity(c.maxEntries)
    ensures var latest := Some(Item(v, at + TTL(c, seconds)));
            NeverStale(c, Set(c, s, k, v, seconds, at, true), k, at, latest) <==>
              Alive(L2Item(s, k), at) in {None, latest}
  {
    SetLevels(c, s, k, v, seconds, at, true);
    StaleItemIsHiddenIff(c, Set(c, s, k, v, seconds, at, true), k, at, Some(Item(v, at + TTL(c, seconds))));
  }

  // Late background writes.

  lemma FlushLevels(s: State, i: nat)
    requires i < |s.pending|
    ensures var w := s.pending[i];
            && Flush(s, i).l1 == s.l1 && L2Item(Flush(s, i), w.key) == Some(w.item)
            && multiset(Flush(s, i).pending) == multiset(s.pending) - multiset{w}
  {
    assert s.pending == s.pending[..i] + ([s.pending[i]] + s.pending[i + 1..]);
  }

  /** A background write stays pending through every run that does not carry it out. */
  lemma {:induction false} WriteStaysPending(c: Config, s: State, ts: seq<Timed>, w: Write)
    requires w in s.pending && RunSpares(c, s, ts, w.key)
    ensures w in Run(c, s, ts).pending
    decreases ts
  {
    if ts != [] {
      StepKeepsPending(c, s, ts[0], w);
      WriteStaysPending(c, Step(c, s, ts[0]), ts[1..], w);
    }
  }

  lemma StepKeepsPending(c: Config, s: State, t: Timed, w: Write)
    requires w in s.pending && Spares(s, t, w.key)
    ensures w in Step(c, s, t).pending
  {
    if t.act.DoFlush? && t.act.i < |s.pending| {
      var i := t.act.i;
      var j :| 0 <= j < |s.pending| && s.pending[j] == w;
      var rest := s.pending[..i] + s.pending[i + 1..];
      assert rest[if j < i then j else j - 1] == w;
    }
  }

  /** A write w is pending when its key is Set; nothing more is written for the key until w lands, and nothing after.
      From then on L2 has w's item while that is live, and a Get answers the value Set as long as L1 still has it and
      it is live, and otherwise w's. */
  lemma LateFlushUndoesSet(c: Config, s: State, w: Write, v: Value, seconds: int, at: int, before: seq<Timed>, i: nat,
                           landed: int, after: seq<Timed>, now: int)
    requires c.l2Enabled && w in s.pending && !SetRefused(w.key, v) && L.Distinct(s.l1)
    requires RunSpares(c, Set(c, s, w.key, v, seconds, at, false), before, w.key) && OnTime(at, before, landed)
    requires var u := Run(c, Set(c, s, w.key, v, seconds, at, false), before);
             && i < |u.pending| && u.pending[i] == w
             && RunSpares(c, Flush(u, i), after, w.key) && OnTime(landed, after, now)
    ensures var u := Run(c, Set(c, s, w.key, v, seconds, at, false), before);
            var r := Run(c, Flush(u, i), after);
            var latest := Some(Item(v, at + TTL(c, seconds)));
            && Alive(L2Item(r, w.key), now) == Alive(Some(w.item), now)
            && Answer(c, r, w.key, now) == if L1Item(r, w.key) == latest && Alive(latest, now).Some? then latest
                                           else Alive(Some(w.item), now)
  {
    var t := Set(c, s, w.key, v, seconds, at, false);
    SetLevels(c, s, w.key, v, seconds, at, false);
    RunKeeps(c, t, before, w.key, L1Item(t, w.key), L2Item(t, w.key), at, landed);
    var u := Run(c, t, before);
    FlushLevels(u, i);
    RunKeeps(c, Flush(u, i), after, w.key, L1Item(u, w.key), Some(w.item), landed, now);
    LevelsDecideAnswer(c, Flush(u, i), after, w.key, landed, now);
  }

  /** A background write landing in any state leaves no stale answer possible exactly when L1 has nothing stale, and the
      write has expired by then or carries the latest item. So where nothing stale could show before, the landing is
      harmless exactly when the write has expired or is still the latest. */
  lemma LateFlushIsHarmlessIff(c: Config, s: State, i: nat, at: int, latest: Option<Item>)
    requires c.l2Enabled && L.Distinct(s.l1) && |s.l1| <= T.Capacity(c.maxEntries)
    requires i < |s.pending| && s.pending[i].key != ""
    ensures var w := s.pending[i];
            && (NeverStale(c, Flush(s, i), w.key, at, latest) <==>
                  Alive(L1Item(s, w.key), at) in {None, latest} && (at > w.item.expiresAt || latest == Some(w.item)))
            && (NeverStale(c, s, w.key, at, latest) ==>
                  (NeverStale(c, Flush(s, i), w.key, at, latest) <==>
                     at > w.item.expiresAt || latest == Some(w.item)))
  {
    FlushLevels(s, i);
    StaleItemIsHiddenIff(c, s, s.pending[i].key, at, latest);
    StaleItemIsHiddenIff(c, Flush(s, i), s.pending[i].key, at, latest);
  }

  lemma InvalidateLevels(c: Config, s: State, keys: seq<string>, pattern: string, fails: bool, k: string)
    requires c.l2Enabled && Named(k, keys, pattern) && L.Distinct(s.l1)
    ensures var t := Invalidate(c, s, keys, pattern, fails);
            && L.Distinct(t.l1) && L1Item(t, k).None? && t.pending == s.pending && |t.l1| <= |s.l1|
            && L2Item(t, k) == if fails then L2Item(s, k) else None
  {
    var dead := Targets(s.l1, keys, pattern);
    L.DropDistinct(s.l1, dead);
    T.DropShrinks(s.l1, dead);
    DropKeepsOrLoses(s.l1, dead, k);
  }

  /** An invalidation whose L2 deletes failed, which the program ignores, is final exactly when L2 held no live item of
      the key; otherwise the deleted item can be answered again. */
  lemma FailedInvalidateIsFinalIff(c: Config, s: State, keys: seq<string>, pattern: string, k: string, at: int)
    requires c.l2Enabled && k != "" && Named(k, keys, pattern)
    requires L.Distinct(s.l1) && |s.l1| <= T.Capacity(c.maxEntries)
    ensures NeverStale(c, Invalidate(c, s, keys, pattern, true), k, at, None) <==> Alive(L2Item(s, k), at).None?
  {
    InvalidateLevels(c, s, keys, pattern, true, k);
    StaleItemIsHiddenIff(c, Invalidate(c, s, keys, pattern, true), k, at, None);
  }

  /** A write pending when its key is invalidated brings the key back: until it lands, every Get answers nothing, and
      once it has landed every Get answers its item while that is live. */
  lemma LateFlushRevivesDeletedKey(c: Config, s: State, w: Write, keys: seq<string>, pattern: string, at: int,
                                   before: seq<Timed>, i: nat, landed: int, after: seq<Timed>, now: int)
    requires c.l2Enabled && w in s.pending && w.key != "" && Named(w.key, keys, pattern) && L.Distinct(s.l1)
    requires RunSpares(c, Invalidate(c, s, keys, pattern, false), before, w.key) && OnTime(at, before, landed)
    requires var u := Run(c, Invalidate(c, s, keys, pattern, false), before);
             && i < |u.pending| && u.pending[i] == w
             && RunSpares(c, Flush(u, i), after, w.key) && OnTime(landed, after, now)
    ensures var u := Run(c, Invalidate(c, s, keys, pattern, false), before);
            && Answer(c, u, w.key, landed) == None
            && Answer(c, Run(c, Flush(u, i), after), w.key, now) == Alive(Some(w.item), now)
  {
    var t := Invalidate(c, s, keys, pattern, false);
    InvalidateLevels(c, s, keys, pattern, false, w.key);
    RunKeeps(c, t, before, w.key, None, None, at, landed);
    LevelsDecideAnswer(c, t, before, w.key, at, landed);
    var u := Run(c, t, before);
    FlushLevels(u, i);
    LevelsDecideAnswer(c, Flush(u, i), after, w.key, landed, now);
  }

  // From an origin fill to the landing of its background write, over runs that may write the key again.

  /** The item most recently written for k: a Set, refresh or origin fill writes one, an invalidation leaves none. */
  function LatestAfter(c: Config, s: State, t: Timed, k: string, latest: Option<Item>): Option<Item> {
    match t.act
    case DoGet(j, fails, origin) =>
      var r := Get(c, s, j, t.now, fails, origin).1;
      if j == k && r.Hit? && r.source == FromOrigin then Some(r.item) else latest
    case DoSet(j, v, seconds, _) =>
      if j == k && !SetRefused(j, v) then Some(Item(v, t.now + TTL(c, seconds))) else latest
    case DoInvalidate(keys, pattern, _) => if Named(k, keys, pattern) then None else latest
    case DoInvalidateEvent(_, _) => latest
    case DoRefreshEvent(j, v, ttl) => if j == k then Some(Item(v, t.now + ttl)) else latest
    case DoCleanup => latest
    case DoPurge(_) => latest
    case DoFlush(_) => latest
  }

  function Latest(c: Config, s: State, ts: seq<Timed>, k: string, latest: Option<Item>): Option<Item>
    decreases ts
  {
    if ts == [] then latest else Latest(c, Step(c, s, ts[0]), ts[1..], k, LatestAfter(c, s, ts[0], k, latest))
  }

  /** Whatever the step writes for k reaches both levels, apart from background writes, which it does not carry out. */
  predicate Through(s: State, t: Timed, k: string) {
    match t.act
    case DoGet(j, fails, origin) => j == k && origin.Fetched? ==> !fails
    case DoSet(j, _, _, fails) => j == k ==> !fails
    case DoInvalidate(keys, pattern, fails) => Named(k, keys, pattern) ==> !fails
    case DoInvalidateEvent(_, _) => true
    case DoRefreshEvent(j, _, _) => j != k
    case DoCleanup => true
    case DoPurge(_) => true
    case DoFlush(i) => i < |s.pending| ==> s.pending[i].key != k
  }

  predicate RunThrough(c: Config, s: State, ts: seq<Timed>, k: string)
    decreases ts
  {
    ts != [] ==> Through(s, ts[0], k) && RunThrough(c, Step(c, s, ts[0]), ts[1..], k)
  }

  /** Neither level has anything live for k but the latest item. */
  ghost predicate UpToDate(s: State, k: string, latest: Option<Item>, now: int) {
    && L.Distinct(s.l1)
    && Alive(L1Item(s, k), now) in {None, latest} && Alive(L2Item(s, k), now) in {None, latest}
  }

  /** A step that writes nothing for k. */
  lemma SparingStepStaysUpToDate(c: Config, s: State, t: Timed, k: string, latest: Option<Item>)
    requires UpToDate(s, k, latest, t.now) && Spares(s, t, k)
    ensures UpToDate(Step(c, s, t), k, latest, t.now)
  {
    StepKeeps(c, s, t, k, L1Item(s, k), L2Item(s, k));
  }

  /** A Get of k with an origin at hand: a hit changes nothing, a fill replaces what has expired in both levels. */
  lemma GetStaysUpToDate(c: Config, s: State, k: string, now: int, origin: Origin, latest: Option<Item>)
    requires c.l2Enabled && k != "" && UpToDate(s, k, latest, now)
    ensures var t := At(now, DoGet(k, false, origin));
            UpToDate(Step(c, s, t), k, LatestAfter(c, s, t, k, latest), now)
  {
    var (l1, hit) := L.Get(s.l1, k, now);
    GetKeepsOrLoses(s.l1, k, now, k);
    if hit.None? {
      if LiveIn(s.l2, k, now) {
        L1ItemAfterSet(l1, c.maxEntries, k, s.l2[k].value, now + (s.l2[k].expiresAt - now));
      } else if origin.Fetched? {
        L1ItemAfterSet(l1, c.maxEntries, k, origin.value, now + c.defaultTTL);
      }
    }
  }

  lemma L1ItemAfterSet(l: L.List, maxEntries: int, k: string, v: Value, x: int)
    requires L.Distinct(l)
    ensures var r := L.Set(l, maxEntries, k, v, x);
            L.Distinct(r) && L.Lookup(r, k) == Some(L.Entry(k, v, x))
  {
    SetKeepsOrLoses(l, maxEntries, L.Entry(k, v, x), k);
  }

  lemma StepStaysUpToDate(c: Config, s: State, t: Timed, k: string, latest: Option<Item>)
    requires c.l2Enabled && k != "" && UpToDate(s, k, latest, t.now) && Through(s, t, k)
    ensures UpToDate(Step(c, s, t), k, LatestAfter(c, s, t, k, latest), t.now)
  {
    if t.act.DoGet? && t.act.key == k && !t.act.l2Fails {
      GetStaysUpToDate(c, s, k, t.now, t.act.origin, latest);
    } else if t.act.DoSet? && t.act.key == k {
      if !SetRefused(k, t.act.value) {
        SetLevels(c, s, k, t.act.value, t.act.seconds, t.now, false);
      }
    } else if t.act.DoInvalidate? && Named(k, t.act.keys, t.act.pattern) {
      InvalidateLevels(c, s, t.act.keys, t.act.pattern, false, k);
    } else {
      assert Spares(s, t, k);
      SparingStepStaysUpToDate(c, s, t, k, latest);
    }
  }

  lemma UpToDateLater(s: State, k: string, latest: Option<Item>, now: int, later: int)
    requires UpToDate(s, k, latest, now) && now <= later
    ensures UpToDate(s, k, latest, later)
  {
  }

  /** Through every run whose writes for k reach both levels, neither level has anything live but the latest item. */
  lemma {:induction false} RunStaysUpToDate(c: Config, s: State, ts: seq<Timed>, k: string, latest: Option<Item>,
                                            start: int, end: int)
    requires c.l2Enabled && k != "" && UpToDate(s, k, latest, start)
    requires RunThrough(c, s, ts, k) && OnTime(start, ts, end)
    ensures UpToDate(Run(c, s, ts), k, Latest(c, s, ts, k, latest), end)
    decreases ts
  {
    if ts == [] {
      UpToDateLater(s, k, latest, start, end);
    } else {
      UpToDateLater(s, k, latest, start, ts[0].now);
      StepStaysUpToDate(c, s, ts[0], k, latest);
      RunStaysUpToDate(c, Step(c, s, ts[0]), ts[1..], k, LatestAfter(c, s, ts[0], k, latest), ts[0].now, end);
    }
  }

  lemma {:induction false} RunKeepsBound(c: Config, s: State, ts: seq<Timed>)
    requires L.Distinct(s.l1) && |s.l1| <= T.Capacity(c.maxEntries)
    ensures L.Distinct(Run(c, s, ts).l1) && |Run(c, s, ts).l1| <= T.Capacity(c.maxEntries)
    decreases ts
  {
    if ts != [] {
      StepKeepsBound(c, s, ts[0]);
      RunKeepsBound(c, Step(c, s, ts[0]), ts[1..]);
    }
  }

  lemma StepKeepsBound(c: Config, s: State, t: Timed)
    requires L.Distinct(s.l1) && |s.l1| <= T.Capacity(c.maxEntries)
    ensures L.Distinct(Step(c, s, t).l1) && |Step(c, s, t).l1| <= T.Capacity(c.maxEntries)
  {
    match t.act
    case DoGet(j, fails, origin) => GetKeepsBound(c, s, j, t.now, fails, origin);
    case DoSet(j, v, seconds, _) => SetKeepsBound(c, s.l1, j, v, t.now + TTL(c, seconds));
    case DoInvalidate(keys, pattern, _) => DropKeepsBound(s.l1, Targets(s.l1, keys, pattern));
    case DoInvalidateEvent(keys, pattern) => DropKeepsBound(s.l1, Targets(s.l1, keys, pattern));
    case DoRefreshEvent(j, v, ttl) => SetKeepsBound(c, s.l1, j, v, t.now + ttl);
    case DoCleanup => DropKeepsBound(s.l1, L.ExpiredKeys(s.l1, t.now));
    case DoPurge(keys) =>
    case DoFlush(i) =>
  }

  predicate Bounded(c: Config, l: L.List) {
    |l| <= T.Capacity(c.maxEntries)
  }

  lemma LruGetKeepsBound(l: L.List, j: string, now: int)
    requires L.Distinct(l)
    ensures L.Distinct(L.Get(l, j, now).0) && |L.Get(l, j, now).0| <= |l|
  {
    L.GetKeepsShape(l, j, now);
    T.SizeAfterDrop(l, j);
  }

  lemma SetKeepsBound(c: Config, l: L.List, j: string, v: Value, x: int)
    requires L.Distinct(l) && Bounded(c, l)
    ensures L.Distinct(L.Set(l, c.maxEntries, j, v, x)) && Bounded(c, L.Set(l, c.maxEntries, j, v, x))
  {
    L.SetKeepsShape(l, c.maxEntries, j, v, x);
  }

  lemma GetKeepsBound(c: Config, s: State, j: string, now: int, fails: bool, origin: Origin)
    requires L.Distinct(s.l1) && Bounded(c, s.l1)
    ensures var r := Get(c, s, j, now, fails, origin).0;
            L.Distinct(r.l1) && Bounded(c, r.l1)
  {
    if j != "" {
      LruGetKeepsBound(s.l1, j, now);
      FetchKeepsBound(c, s.(l1 := L.Get(s.l1, j, now).0), j, now, fails, origin);
    }
  }

  lemma FetchKeepsBound(c: Config, s: State, j: string, now: int, fails: bool, origin: Origin)
    requires L.Distinct(s.l1) && Bounded(c, s.l1)
    ensures var r := Fetch(c, s, j, now, fails, origin).0;
            L.Distinct(r.l1) && Bounded(c, r.l1)
  {
    if c.l2Enabled && !fails && LiveIn(s.l2, j, now) {
      SetKeepsBound(c, s.l1, j, s.l2[j].value, now + (s.l2[j].expiresAt - now));
    } else if origin.Fetched? {
      SetKeepsBound(c, s.l1, j, origin.value, now + c.defaultTTL);
    }
  }

  lemma DropKeepsBound(l: L.List, dead: set<string>)
    requires L.Distinct(l)
    ensures L.Distinct(L.Drop(l, dead)) && |L.Drop(l, dead)| <= |l|
  {
    L.DropDistinct(l, dead);
    T.DropShrinks(l, dead);
  }

  /** A Get fetches k from the origin and starts a background write. However long that write takes, through every run
      whose own writes for k reach both levels, its landing is harmless if and only if it has expired by then or no
      later write has replaced the fetched item. */
  lemma FillLandingIsHarmlessIff(c: Config, s: State, k: string, v: Value, filled: int, ts: seq<Timed>, i: nat, at: int)
    requires c.l2Enabled && k != "" && L.Distinct(s.l1) && |s.l1| <= T.Capacity(c.maxEntries)
    requires var r := Get(c, s, k, filled, false, Fetched(v)).1; r.Hit? && r.source == FromOrigin
    requires var t := Get(c, s, k, filled, false, Fetched(v)).0;
             && RunThrough(c, t, ts, k) && OnTime(filled, ts, at)
             && i < |Run(c, t, ts).pending|
             && Run(c, t, ts).pending[i] == Write(k, Item(v, filled + c.defaultTTL))
    ensures var t := Get(c, s, k, filled, false, Fetched(v)).0;
            var r, item := Run(c, t, ts), Item(v, filled + c.defaultTTL);
            var latest := Latest(c, t, ts, k, Some(item));
            NeverStale(c, Flush(r, i), k, at, latest) <==> at > item.expiresAt || latest == Some(item)
  {
    var get := At(filled, DoGet(k, false, Fetched(v)));
    var t := Step(c, s, get);
    FillIsUpToDate(c, s, k, v, filled);
    StepKeepsBound(c, s, get);
    RunKeepsBound(c, t, ts);
    var latest := Latest(c, t, ts, k, Some(Item(v, filled + c.defaultTTL)));
    RunStaysUpToDate(c, t, ts, k, Some(Item(v, filled + c.defaultTTL)), filled, at);
    LateFlushIsHarmlessIff(c, Run(c, t, ts), i, at, latest);
  }

  lemma FillIsUpToDate(c: Config, s: State, k: string, v: Value, now: int)
    requires c.l2Enabled && k != "" && L.Distinct(s.l1)
    requires var r := Get(c, s, k, now, false, Fetched(v)).1; r.Hit? && r.source == FromOrigin
    ensures var (t, r) := Get(c, s, k, now, false, Fetched(v));
            && r.item == Item(v, now + c.defaultTTL)
            && UpToDate(t, k, Some(r.item), now)
            && Write(k, r.item) in t.pending
  {
    GetKeepsOrLoses(s.l1, k, now, k);
    assert UpToDate(s, k, None, now);
    GetStaysUpToDate(c, s, k, now, Fetched(v), None);
  }
}
