/** The L1 cache under concurrency. Get takes three separate steps (look up, test the deadline, then act under
    the write lock) and any other operation may fall between them; the other operations are atomic.
    Entries are numbered; the numbers stand for object references. */
module L1Interleaving {
  import opened Collections
  import L = LruList
  import T = LruTheorems

  /** How far a Get has come; `at` is the time of its deadline test. */
  datatype Phase = Found(key: string, id: nat) | Doomed(key: string, id: nat, at: int) | Live(key: string, id: nat)

  datatype State = State(
    cache: map<string, nat>,
    list: seq<nat>,
    store: map<nat, L.Entry>,   // every entry ever made, listed or not
    next: nat,
    pending: map<nat, Phase>)   // by goroutine

  datatype Action =
    | Lookup(t: nat, key: string)
    | Check(t: nat, now: int)
    | DeleteExpired(t: nat)
    | Touch(t: nat)
    | Set(key: string, value: L.Value, expiresAt: int)
    | Remove(dead: set<string>)   // Delete, DeletePattern, CleanupExpired
    | Clear

  const EMPTY := State(map[], [], map[], 0, map[])

  function Without(list: seq<nat>, id: nat): seq<nat> {
    if list == [] then [] else if list[0] == id then Without(list[1..], id) else [list[0]] + Without(list[1..], id)
  }

  function DropIds(list: seq<nat>, store: map<nat, L.Entry>, dead: set<string>): seq<nat>
    requires forall id | id in list :: id in store
  {
    if list == [] then []
    else if store[list[0]].key in dead then DropIds(list[1..], store, dead)
    else [list[0]] + DropIds(list[1..], store, dead)
  }

  function RemoveKeys(s: State, dead: set<string>): State
    requires forall id | id in s.list :: id in s.store
  {
    s.(cache := s.cache - dead, list := DropIds(s.list, s.store, dead))
  }

  /** Room is made only for a new key. */
  function MakeRoom(maxEntries: int, s: State): State
    requires forall id | id in s.list :: id in s.store
  {
    if |s.list| >= maxEntries && s.list != []
    then RemoveKeys(s, {s.store[s.list[|s.list| - 1]].key})
    else s
  }

  function Push(s: State, e: L.Entry): State {
    s.(cache := s.cache[e.key := s.next], list := [s.next] + s.list, store := s.store[s.next := e], next := s.next + 1)
  }

  /** One atomic step; a step of a goroutine that is not at that point of a Get changes nothing. */
  function Next(maxEntries: int, s: State, a: Action): State
    requires forall id | id in s.list :: id in s.store
  {
    match a
    case Lookup(t, k) =>
      if t !in s.pending && k in s.cache then s.(pending := s.pending[t := Found(k, s.cache[k])]) else s
    case Check(t, now) =>
      if t in s.pending && s.pending[t].Found? && s.pending[t].id in s.store then
        var p := s.pending[t];
        var tested := if L.Expired(s.store[p.id], now) then Doomed(p.key, p.id, now) else Live(p.key, p.id);
        s.(pending := s.pending[t := tested])
      else s
    case DeleteExpired(t) =>
      if t in s.pending && s.pending[t].Doomed?
      then RemoveKeys(s, {s.pending[t].key}).(pending := s.pending - {t})
      else s
    case Touch(t) =>
      if t in s.pending && s.pending[t].Live? then
        var id := s.pending[t].id;
        s.(list := if id in s.list then [id] + Without(s.list, id) else s.list, pending := s.pending - {t})
      else s
    case Set(k, v, x) =>
      if k in s.cache then
        var id := s.cache[k];
        s.(store := s.store[id := L.Entry(k, v, x)], list := [id] + Without(s.list, id))
      else Push(MakeRoom(maxEntries, s), L.Entry(k, v, x))
    case Remove(dead) => RemoveKeys(s, dead)
    case Clear => s.(cache := map[], list := [])
  }

  ghost predicate NoRepeats(list: seq<nat>) {
    forall i, j :: 0 <= i < j < |list| ==> list[i] != list[j]
  }

  /** List and map hold the same entries, once each; a Get in progress has hold of an entry of its own key. */
  ghost predicate Inv(s: State) {
    && NoRepeats(s.list)
    && (forall id | id in s.list :: id in s.store && s.store[id].key in s.cache && s.cache[s.store[id].key] == id)
    && (forall k | k in s.cache :: s.cache[k] in s.list && s.cache[k] in s.store && s.store[s.cache[k]].key == k)
    && (forall t | t in s.pending :: s.pending[t].id in s.store && s.store[s.pending[t].id].key == s.pending[t].key)
    && (forall id | id in s.store :: id < s.next)
  }

  lemma {:induction false} WithoutElements(list: seq<nat>, id: nat)
    ensures forall x: nat :: x in Without(list, id) <==> x in list && x != id
    ensures NoRepeats(list) ==> NoRepeats(Without(list, id))
  {
    if list != [] {
      assert list == [list[0]] + list[1..];
      WithoutElements(list[1..], id);
      assert forall i :: 0 <= i < |Without(list[1..], id)| ==> Without(list[1..], id)[i] in Without(list[1..], id);
    }
  }

  lemma {:induction false} DropIdsElements(list: seq<nat>, store: map<nat, L.Entry>, dead: set<string>)
    requires forall id | id in list :: id in store
    ensures forall x: nat :: x in DropIds(list, store, dead) <==> x in list && store[x].key !in dead
    ensures NoRepeats(list) ==> NoRepeats(DropIds(list, store, dead))
  {
    if list != [] {
      assert list == [list[0]] + list[1..];
      DropIdsElements(list[1..], store, dead);
      var rest := DropIds(list[1..], store, dead);
      assert forall i :: 0 <= i < |rest| ==> rest[i] in rest;
    }
  }

  lemma RemoveKeysKeepsInv(s: State, dead: set<string>)
    requires Inv(s)
    ensures Inv(RemoveKeys(s, dead))
  {
    DropIdsElements(s.list, s.store, dead);
  }

  lemma PushKeepsInv(s: State, e: L.Entry)
    requires Inv(s) && e.key !in s.cache
    ensures Inv(Push(s, e))
  {
    var t := Push(s, e);
    assert s.next !in s.list;
    forall id | id in t.list ensures id == s.next || id in s.list {
    }
  }

  lemma MakeRoomKeepsInv(maxEntries: int, s: State)
    requires Inv(s)
    ensures Inv(MakeRoom(maxEntries, s)) && MakeRoom(maxEntries, s).cache.Keys <= s.cache.Keys
  {
    if |s.list| >= maxEntries && s.list != [] {
      RemoveKeysKeepsInv(s, {s.store[s.list[|s.list| - 1]].key});
    }
  }

  lemma TouchKeepsInv(maxEntries: int, s: State, t: nat)
    requires Inv(s)
    ensures Inv(Next(maxEntries, s, Touch(t)))
  {
    if t in s.pending {
      WithoutElements(s.list, s.pending[t].id);
    }
  }

  lemma RenewKeepsInv(maxEntries: int, s: State, k: string, v: L.Value, x: int)
    requires Inv(s) && k in s.cache
    ensures Inv(Next(maxEntries, s, Set(k, v, x)))
  {
    WithoutElements(s.list, s.cache[k]);
  }

  /** Every interleaving keeps map and list in agreement. */
  lemma NextKeepsInv(maxEntries: int, s: State, a: Action)
    requires Inv(s)
    ensures Inv(Next(maxEntries, s, a))
  {
    match a
    case Lookup(t, k) =>
    case Check(t, now) =>
    case DeleteExpired(t) =>
      if t in s.pending {
        RemoveKeysKeepsInv(s, {s.pending[t].key});
      }
    case Touch(t) => TouchKeepsInv(maxEntries, s, t);
    case Set(k, v, x) =>
      if k in s.cache {
        RenewKeepsInv(maxEntries, s, k, v, x);
      } else {
        MakeRoomKeepsInv(maxEntries, s);
        PushKeepsInv(MakeRoom(maxEntries, s), L.Entry(k, v, x));
      }
    case Remove(dead) => RemoveKeysKeepsInv(s, dead);
    case Clear =>
  }

  /** The recency list that a state represents. */
  ghost function Abs(list: seq<nat>, store: map<nat, L.Entry>): L.List
    requires forall id | id in list :: id in store
  {
    if list == [] then [] else [store[list[0]]] + Abs(list[1..], store)
  }

  /** The effect each step has on the recency list, as one atomic operation of the sequential cache. The last step of a
      Get hit counts as a sequential Get at some time at which the entry is live, here its deadline: it does not read
      the clock again, so that time may have passed. */
  ghost function Effect(maxEntries: int, s: State, a: Action, l: L.List): L.List
    requires Inv(s)
  {
    match a
    case Lookup(_, _) => l
    case Check(_, _) => l
    case DeleteExpired(t) => if t in s.pending && s.pending[t].Doomed? then L.Delete(l, s.pending[t].key) else l
    case Touch(t) =>
      if t in s.pending && s.pending[t].Live? && s.pending[t].id in s.list
      then L.Get(l, s.pending[t].key, s.store[s.pending[t].id].expiresAt).0
      else l
    case Set(k, v, x) => L.Set(l, maxEntries, k, v, x)
    case Remove(dead) => L.Drop(l, dead)
    case Clear => []
  }

  lemma {:induction false} AbsAt(list: seq<nat>, store: map<nat, L.Entry>)
    requires forall id | id in list :: id in store
    ensures |Abs(list, store)| == |list|
    ensures forall i :: 0 <= i < |list| ==> Abs(list, store)[i] == store[list[i]]
  {
    if list != [] {
      AbsAt(list[1..], store);
    }
  }

  lemma {:induction false} AbsDrop(list: seq<nat>, store: map<nat, L.Entry>, dead: set<string>)
    requires forall id | id in list :: id in store
    ensures forall id | id in DropIds(list, store, dead) :: id in store
    ensures Abs(DropIds(list, store, dead), store) == L.Drop(Abs(list, store), dead)
  {
    DropIdsElements(list, store, dead);
    if list != [] {
      AbsDrop(list[1..], store, dead);
      assert Abs(list, store)[1..] == Abs(list[1..], store);
      if store[list[0]].key !in dead {
        var rest := DropIds(list[1..], store, dead);
        assert ([list[0]] + rest)[1..] == rest;
      }
    }
  }

  /** Unlinking one entry is dropping its key; the stores may differ at that entry. */
  lemma {:induction false} AbsWithout(list: seq<nat>, id: nat, store: map<nat, L.Entry>, store': map<nat, L.Entry>)
    requires forall x | x in list :: x in store && x in store'
    requires forall x | x in list :: x != id ==>
               store'[x] == store[x] && (id in store ==> store[x].key != store[id].key)
    requires id in store
    ensures forall x | x in Without(list, id) :: x in store'
    ensures Abs(Without(list, id), store') == L.Drop(Abs(list, store), {store[id].key})
  {
    WithoutElements(list, id);
    if list != [] {
      AbsWithout(list[1..], id, store, store');
      assert Abs(list, store)[1..] == Abs(list[1..], store);
      if list[0] != id {
        var rest := Without(list[1..], id);
        assert ([list[0]] + rest)[1..] == rest;
      }
    }
  }

  lemma {:induction false} AbsFrame(list: seq<nat>, store: map<nat, L.Entry>, store': map<nat, L.Entry>)
    requires forall x | x in list :: x in store && x in store' && store'[x] == store[x]
    ensures Abs(list, store') == Abs(list, store)
  {
    if list != [] {
      AbsFrame(list[1..], store, store');
    }
  }

  lemma AbsCons(id: nat, list: seq<nat>, store: map<nat, L.Entry>)
    requires id in store && forall x | x in list :: x in store
    ensures Abs([id] + list, store) == [store[id]] + Abs(list, store)
  {
    assert ([id] + list)[1..] == list;
  }

  lemma AbsKeys(s: State)
    requires Inv(s)
    ensures L.Keys(Abs(s.list, s.store)) == s.cache.Keys && L.Distinct(Abs(s.list, s.store))
  {
    AbsAt(s.list, s.store);
    var l := Abs(s.list, s.store);
    forall i | 0 <= i < |l| ensures l[i] == s.store[s.list[i]] && s.list[i] in s.list {
    }
    forall k | k in s.cache ensures k in L.Keys(l) {
      var i :| 0 <= i < |s.list| && s.list[i] == s.cache[k];
      assert l[i].key == k;
    }
  }

  lemma RenewRefines(maxEntries: int, s: State, k: string, v: L.Value, x: int)
    requires Inv(s) && k in s.cache
    ensures var t := Next(maxEntries, s, Set(k, v, x));
            (forall id | id in t.list :: id in t.store) &&
            Abs(t.list, t.store) == [L.Entry(k, v, x)] + L.Drop(Abs(s.list, s.store), {k})
  {
    var t := Next(maxEntries, s, Set(k, v, x));
    var id := s.cache[k];
    NextKeepsInv(maxEntries, s, Set(k, v, x));
    AbsWithout(s.list, id, s.store, t.store);
    AbsCons(id, Without(s.list, id), t.store);
  }

  lemma MakeRoomRefines(maxEntries: int, s: State)
    requires Inv(s)
    ensures var r := MakeRoom(maxEntries, s);
            (forall id | id in r.list :: id in r.store) &&
            Abs(r.list, r.store) == L.EvictIfFull(Abs(s.list, s.store), maxEntries)
  {
    AbsAt(s.list, s.store);
    if |s.list| >= maxEntries && s.list != [] {
      EvictRefines(s);
    }
  }

  lemma EvictRefines(s: State)
    requires Inv(s) && s.list != []
    ensures var l := Abs(s.list, s.store);
            var gone := {s.store[s.list[|s.list| - 1]].key};
            |l| == |s.list| &&
            (forall id | id in DropIds(s.list, s.store, gone) :: id in s.store) &&
            Abs(DropIds(s.list, s.store, gone), s.store) == l[..|l| - 1]
  {
    var l := Abs(s.list, s.store);
    AbsAt(s.list, s.store);
    AbsKeys(s);
    var last := s.list[|s.list| - 1];
    assert l[|l| - 1] == s.store[last];
    AbsDrop(s.list, s.store, {s.store[last].key});
    L.EvictIsDrop(l);
  }

  lemma PushRefines(r: State, e: L.Entry)
    requires Inv(r)
    ensures var t := Push(r, e);
            (forall id | id in t.list :: id in t.store) && Abs(t.list, t.store) == [e] + Abs(r.list, r.store)
  {
    AbsFrame(r.list, r.store, Push(r, e).store);
    AbsCons(r.next, r.list, Push(r, e).store);
  }

  lemma SetRefines(maxEntries: int, s: State, k: string, v: L.Value, x: int)
    requires Inv(s)
    ensures var t := Next(maxEntries, s, Set(k, v, x));
            (forall id | id in t.list :: id in t.store) &&
            Abs(t.list, t.store) == L.Set(Abs(s.list, s.store), maxEntries, k, v, x)
  {
    AbsKeys(s);
    if k in s.cache {
      RenewRefines(maxEntries, s, k, v, x);
    } else {
      MakeRoomKeepsInv(maxEntries, s);
      MakeRoomRefines(maxEntries, s);
      PushRefines(MakeRoom(maxEntries, s), L.Entry(k, v, x));
    }
  }

  /** Moving an entry to the front is a Get hit, whatever the time of that Get up to the entry's deadline. */
  lemma TouchIsGet(s: State, id: nat, now: int)
    requires Inv(s) && id in s.list && now <= s.store[id].expiresAt
    ensures var e := s.store[id];
            L.Get(Abs(s.list, s.store), e.key, now) == ([e] + L.Drop(Abs(s.list, s.store), {e.key}), Option.Some(e))
  {
    var l := Abs(s.list, s.store);
    AbsAt(s.list, s.store);
    AbsKeys(s);
    var i :| 0 <= i < |s.list| && s.list[i] == id;
    assert l[i] == s.store[id];
    L.LookupFinds(l, s.store[id]);
  }

  lemma TouchRefines(maxEntries: int, s: State, t: nat)
    requires Inv(s) && t in s.pending && s.pending[t].Live? && s.pending[t].id in s.list
    ensures var id, r := s.pending[t].id, Next(maxEntries, s, Touch(t));
            (forall x | x in r.list :: x in r.store) &&
            Abs(r.list, r.store) == L.Get(Abs(s.list, s.store), s.pending[t].key, s.store[id].expiresAt).0
  {
    var id := s.pending[t].id;
    AbsWithout(s.list, id, s.store, s.store);
    AbsCons(id, Without(s.list, id), s.store);
    TouchIsGet(s, id, s.store[id].expiresAt);
  }

  /** Refinement: every step of every interleaving is one operation of the sequential cache, or none at all. */
  lemma NextRefines(maxEntries: int, s: State, a: Action)
    requires Inv(s)
    ensures Inv(Next(maxEntries, s, a))
    ensures Abs(Next(maxEntries, s, a).list, Next(maxEntries, s, a).store)
            == Effect(maxEntries, s, a, Abs(s.list, s.store))
  {
    NextKeepsInv(maxEntries, s, a);
    match a
    case Lookup(t, k) =>
    case Check(t, now) =>
    case DeleteExpired(t) =>
      if t in s.pending {
        AbsDrop(s.list, s.store, {s.pending[t].key});
      }
    case Touch(t) =>
      if t in s.pending && s.pending[t].Live? && s.pending[t].id in s.list {
        TouchRefines(maxEntries, s, t);
      }
    case Set(k, v, x) => SetRefines(maxEntries, s, k, v, x);
    case Remove(dead) => AbsDrop(s.list, s.store, dead);
    case Clear =>
  }

  ghost function Run(maxEntries: int, s: State, acts: seq<Action>): (r: State)
    requires Inv(s)
    ensures Inv(r)
    decreases acts
  {
    if acts == [] then s else
      NextKeepsInv(maxEntries, s, acts[0]);
      Run(maxEntries, Next(maxEntries, s, acts[0]), acts[1..])
  }

  /** A map lookup finds the list's entry of the key. */
  lemma LookupOfAbs(s: State, k: string)
    requires Inv(s)
    ensures L.Lookup(Abs(s.list, s.store), k) == if k in s.cache then Some(s.store[s.cache[k]]) else None
  {
    AbsKeys(s);
    if k in s.cache {
      AbsAt(s.list, s.store);
      var i :| 0 <= i < |s.list| && s.list[i] == s.cache[k];
      assert Abs(s.list, s.store)[i] == s.store[s.cache[k]];
      L.LookupFinds(Abs(s.list, s.store), s.store[s.cache[k]]);
    }
  }

  /** The state after the first two steps of a Get that nothing interrupts. */
  ghost function Tested(maxEntries: int, s: State, t: nat, k: string, now: int): (r: State)
    requires Inv(s)
    ensures Inv(r)
  {
    NextKeepsInv(maxEntries, s, Lookup(t, k));
    NextKeepsInv(maxEntries, Next(maxEntries, s, Lookup(t, k)), Check(t, now));
    Next(maxEntries, Next(maxEntries, s, Lookup(t, k)), Check(t, now))
  }

  /** The entry that the Get would return if it went on from here. */
  function Answering(s: State, t: nat): Option<L.Entry> {
    if t in s.pending && s.pending[t].Live? && s.pending[t].id in s.store then Some(s.store[s.pending[t].id]) else None
  }

  /** The three steps of a Get, when nothing comes between them, are the sequential Get: its answer, if the test finds the
      entry live, and its effect, whichever last step applies. */
  lemma UninterruptedGetIsGet(maxEntries: int, s: State, t: nat, k: string, now: int)
    requires Inv(s) && t !in s.pending
    ensures var r, l := Tested(maxEntries, s, t, k, now), Abs(s.list, s.store);
            && r.list == s.list && r.store == s.store && r.cache == s.cache
            && Answering(r, t) == L.Get(l, k, now).1
            && L.Get(l, k, now).0 == (if t !in r.pending then l
                                      else Effect(maxEntries, r, if r.pending[t].Live? then Touch(t) else DeleteExpired(t), l))
  {
    LookupOfAbs(s, k);
    TestedPhase(maxEntries, s, t, k, now);
    if k in s.cache && now <= s.store[s.cache[k]].expiresAt {
      TouchIsGet(s, s.cache[k], now);
      TouchIsGet(s, s.cache[k], s.store[s.cache[k]].expiresAt);
    }
  }

  lemma TestedPhase(maxEntries: int, s: State, t: nat, k: string, now: int)
    requires Inv(s) && t !in s.pending
    ensures Tested(maxEntries, s, t, k, now) ==
            if k !in s.cache then s
            else s.(pending := s.pending[t := if now > s.store[s.cache[k]].expiresAt then Doomed(k, s.cache[k], now)
                                              else Live(k, s.cache[k])])
  {
    if k in s.cache {
      var p := Found(k, s.cache[k]);
      assert Next(maxEntries, s, Lookup(t, k)) == s.(pending := s.pending[t := p]);
    }
  }

  predicate SetsKey(a: Action, k: string) {
    a.Set? && a.key == k
  }

  lemma NextKeepsAbsent(maxEntries: int, s: State, a: Action, k: string)
    requires Inv(s) && k !in s.cache && !SetsKey(a, k)
    ensures k !in Next(maxEntries, s, a).cache
  {
  }

  /** A key that is absent stays absent until it is Set: no Get in progress brings it back. */
  lemma {:induction false} AbsentUntilSet(maxEntries: int, s: State, acts: seq<Action>, k: string)
    requires Inv(s) && k !in s.cache
    requires forall i :: 0 <= i < |acts| ==> !SetsKey(acts[i], k)
    ensures k !in Run(maxEntries, s, acts).cache
    ensures k !in L.Keys(Abs(Run(maxEntries, s, acts).list, Run(maxEntries, s, acts).store))
    decreases acts
  {
    AbsKeys(Run(maxEntries, s, acts));
    if acts != [] {
      NextKeepsInv(maxEntries, s, acts[0]);
      assert !SetsKey(acts[0], k);
      NextKeepsAbsent(maxEntries, s, acts[0], k);
      AbsentUntilSet(maxEntries, Next(maxEntries, s, acts[0]), acts[1..], k);
    }
  }

  /** The capacity holds in every interleaving. */
  lemma {:induction false} RunKeepsBound(maxEntries: int, s: State, acts: seq<Action>)
    requires Inv(s) && |s.list| <= T.Capacity(maxEntries)
    ensures |Run(maxEntries, s, acts).list| <= T.Capacity(maxEntries)
    decreases acts
  {
    if acts != [] {
      var t := Next(maxEntries, s, acts[0]);
      NextKeepsBound(maxEntries, s, acts[0]);
      RunKeepsBound(maxEntries, t, acts[1..]);
    }
  }

  lemma NextKeepsBound(maxEntries: int, s: State, a: Action)
    requires Inv(s) && |s.list| <= T.Capacity(maxEntries)
    ensures Inv(Next(maxEntries, s, a)) && |Next(maxEntries, s, a).list| <= T.Capacity(maxEntries)
  {
    var l := Abs(s.list, s.store);
    var t := Next(maxEntries, s, a);
    NextRefines(maxEntries, s, a);
    AbsAt(s.list, s.store);
    AbsAt(t.list, t.store);
    AbsKeys(s);
    match a
    case DeleteExpired(g) => if g in s.pending { T.DropShrinks(l, {s.pending[g].key}); }
    case Touch(g) =>
      if g in s.pending && s.pending[g].Live? && s.pending[g].id in s.list {
        TouchIsGet(s, s.pending[g].id, s.store[s.pending[g].id].expiresAt);
        T.SizeAfterDrop(l, s.pending[g].key);
      }
    case Set(k, v, x) => L.SetKeepsShape(l, maxEntries, k, v, x);
    case Remove(dead) => T.DropShrinks(l, dead);
    case _ =>
  }

  // What an expired Get may delete.

  /** Goroutine t's Get of k still has hold of the entry listed under k, if any, and found it expired if it says so. */
  ghost predicate HoldsCurrent(s: State, t: nat, k: string) {
    t in s.pending && s.pending[t].key == k ==>
      && (k in s.cache ==> s.cache[k] == s.pending[t].id)
      && (s.pending[t].Doomed? ==> s.pending[t].id in s.store && L.Expired(s.store[s.pending[t].id], s.pending[t].at))
  }

  lemma HoldsCurrentStep(maxEntries: int, s: State, a: Action, t: nat, k: string)
    requires Inv(s) && HoldsCurrent(s, t, k) && !SetsKey(a, k)
    ensures HoldsCurrent(Next(maxEntries, s, a), t, k)
  {
  }

  lemma {:induction false} HoldsCurrentUntilSet(maxEntries: int, s: State, acts: seq<Action>, t: nat, k: string)
    requires Inv(s) && HoldsCurrent(s, t, k)
    requires forall i :: 0 <= i < |acts| ==> !SetsKey(acts[i], k)
    ensures HoldsCurrent(Run(maxEntries, s, acts), t, k)
    decreases acts
  {
    if acts != [] {
      NextKeepsInv(maxEntries, s, acts[0]);
      assert !SetsKey(acts[0], k);
      HoldsCurrentStep(maxEntries, s, acts[0], t, k);
      HoldsCurrentUntilSet(maxEntries, Next(maxEntries, s, acts[0]), acts[1..], t, k);
    }
  }

  lemma RunStep(maxEntries: int, s: State, a: Action, acts: seq<Action>)
    requires Inv(s)
    ensures Inv(Next(maxEntries, s, a))
    ensures Run(maxEntries, s, [a] + acts) == Run(maxEntries, Next(maxEntries, s, a), acts)
  {
    NextKeepsInv(maxEntries, s, a);
    assert ([a] + acts)[1..] == acts;
  }

  // What a Get answers.

  lemma {:induction false} RunSnoc(maxEntries: int, s: State, acts: seq<Action>, a: Action)
    requires Inv(s)
    ensures Run(maxEntries, s, acts + [a]) == Next(maxEntries, Run(maxEntries, s, acts), a)
    decreases acts
  {
    if acts == [] {
      RunStep(maxEntries, s, a, []);
      assert [] + [a] == [a] + [];
    } else {
      assert acts + [a] == [acts[0]] + (acts[1..] + [a]);
      assert acts == [acts[0]] + acts[1..];
      RunStep(maxEntries, s, acts[0], acts[1..] + [a]);
      RunStep(maxEntries, s, acts[0], acts[1..]);
      RunSnoc(maxEntries, Next(maxEntries, s, acts[0]), acts[1..], a);
    }
  }

  /** After some of the actions, e was the entry cached under k, held by the object id. */
  ghost predicate WasCached(maxEntries: int, s: State, acts: seq<Action>, k: string, id: nat, e: L.Entry)
    requires Inv(s)
  {
    exists j | 0 <= j <= |acts| ::
      var r := Run(maxEntries, s, acts[..j]);
      k in r.cache && r.cache[k] == id && r.store[id] == e
  }

  /** A step leaves an entry object alone, or it is the Set that renews the entry cached under its key. */
  lemma StoreStep(maxEntries: int, s: State, a: Action, id: nat)
    requires Inv(s) && Inv(Next(maxEntries, s, a)) && id in s.store
    ensures var r := Next(maxEntries, s, a);
            && id in r.store && r.store[id].key == s.store[id].key
            && (r.store[id] == s.store[id] ||
                (s.store[id].key in r.cache && r.cache[s.store[id].key] == id))
  {
  }

  /** Whatever an entry object holds while a Get has hold of it was cached under its key at some moment since. */
  lemma {:induction false} HeldEntryWasCached(maxEntries: int, s: State, acts: seq<Action>, k: string)
    requires Inv(s) && k in s.cache
    ensures var id, r := s.cache[k], Run(maxEntries, s, acts);
            id in r.store && r.store[id].key == k && WasCached(maxEntries, s, acts, k, id, r.store[id])
    decreases |acts|
  {
    var id := s.cache[k];
    if acts == [] {
      assert Run(maxEntries, s, acts[..0]) == s;
    } else {
      var front, a := acts[..|acts| - 1], acts[|acts| - 1];
      assert acts == front + [a];
      HeldEntryWasCached(maxEntries, s, front, k);
      RunSnoc(maxEntries, s, front, a);
      var q := Run(maxEntries, s, front);
      NextKeepsInv(maxEntries, q, a);
      StoreStep(maxEntries, q, a, id);
      var r := Next(maxEntries, q, a);
      if r.store[id] == q.store[id] {
        EarlierIsEnough(maxEntries, s, front, a, k, id, q.store[id]);
      } else {
        assert acts[..|acts|] == acts;
      }
    }
  }

  lemma EarlierIsEnough(maxEntries: int, s: State, front: seq<Action>, a: Action, k: string, id: nat, e: L.Entry)
    requires Inv(s) && WasCached(maxEntries, s, front, k, id, e)
    ensures WasCached(maxEntries, s, front + [a], k, id, e)
  {
    var j :| 0 <= j <= |front| && var r := Run(maxEntries, s, front[..j]);
                                  k in r.cache && r.cache[k] == id && r.store[id] == e;
    assert (front + [a])[..j] == front[..j];
  }

  predicate LooksUp(a: Action, t: nat) {
    a.Lookup? && a.t == t
  }

  lemma StepHolds(maxEntries: int, s: State, a: Action, t: nat, id: nat)
    requires Inv(s) && (t in s.pending ==> s.pending[t].id == id) && !LooksUp(a, t)
    ensures var r := Next(maxEntries, s, a); t in r.pending ==> r.pending[t].id == id
  {
  }

  /** A Get in progress keeps hold of the entry object it found, until it ends. */
  lemma {:induction false} HoldsWhatItFound(maxEntries: int, s: State, acts: seq<Action>, t: nat, id: nat)
    requires Inv(s) && (t in s.pending ==> s.pending[t].id == id)
    requires forall i :: 0 <= i < |acts| ==> !LooksUp(acts[i], t)
    ensures var r := Run(maxEntries, s, acts); t in r.pending ==> r.pending[t].id == id
    decreases acts
  {
    if acts != [] {
      NextKeepsInv(maxEntries, s, acts[0]);
      assert !LooksUp(acts[0], t);
      StepHolds(maxEntries, s, acts[0], t, id);
      HoldsWhatItFound(maxEntries, Next(maxEntries, s, acts[0]), acts[1..], t, id);
    }
  }

  /** Linearizability of the answer: at every moment of a Get of k, and so at its deadline test and when it returns, the
      entry it tests or returns is one that was cached under k at some moment since its lookup. */
  lemma GetAnswersCachedEntry(maxEntries: int, s: State, acts: seq<Action>, t: nat, k: string)
    requires Inv(s) && t !in s.pending && k in s.cache
    requires forall i :: 0 <= i < |acts| ==> !LooksUp(acts[i], t)
    requires t in Run(maxEntries, s, [Lookup(t, k)] + acts).pending
    ensures var r := Run(maxEntries, s, [Lookup(t, k)] + acts);
            var id := r.pending[t].id;
            && id == s.cache[k] && r.pending[t].key == k && id in r.store
            && WasCached(maxEntries, Run(maxEntries, s, [Lookup(t, k)]), acts, k, id, r.store[id])
  {
    var s1 := Next(maxEntries, s, Lookup(t, k));
    RunStep(maxEntries, s, Lookup(t, k), acts);
    RunStep(maxEntries, s, Lookup(t, k), []);
    assert [Lookup(t, k)] + [] == [Lookup(t, k)];
    HoldsWhatItFound(maxEntries, s1, acts, t, s.cache[k]);
    HeldEntryWasCached(maxEntries, s1, acts, k);
  }

  // What an expired Get may delete, exactly.

  /** The deadline given by the last Set of k. */
  function LastDeadline(acts: seq<Action>, k: string): Option<int>
    decreases acts
  {
    if acts == [] then None
    else match LastDeadline(acts[1..], k)
      case Some(x) => Some(x)
      case None => if SetsKey(acts[0], k) then Some(acts[0].expiresAt) else None
  }

  ghost predicate DeadlineIs(s: State, k: string, x: int)
    requires Inv(s)
  {
    k in s.cache ==> s.store[s.cache[k]].expiresAt == x
  }

  lemma SetGivesDeadline(maxEntries: int, s: State, a: Action, k: string)
    requires Inv(s) && Inv(Next(maxEntries, s, a)) && SetsKey(a, k)
    ensures DeadlineIs(Next(maxEntries, s, a), k, a.expiresAt)
  {
  }

  lemma OthersKeepDeadline(maxEntries: int, s: State, a: Action, k: string, x: int)
    requires Inv(s) && Inv(Next(maxEntries, s, a)) && DeadlineIs(s, k, x) && !SetsKey(a, k)
    ensures DeadlineIs(Next(maxEntries, s, a), k, x)
  {
  }

  /** While it is cached, a key has the deadline its last Set gave it, in every interleaving. */
  lemma {:induction false} DeadlineIsLastSet(maxEntries: int, s: State, acts: seq<Action>, k: string)
    requires Inv(s)
    ensures match LastDeadline(acts, k)
            case Some(x) => DeadlineIs(Run(maxEntries, s, acts), k, x)
            case None => forall x :: DeadlineIs(s, k, x) ==> DeadlineIs(Run(maxEntries, s, acts), k, x)
    decreases acts
  {
    if acts != [] {
      NextKeepsInv(maxEntries, s, acts[0]);
      DeadlineIsLastSet(maxEntries, Next(maxEntries, s, acts[0]), acts[1..], k);
      if SetsKey(acts[0], k) {
        SetGivesDeadline(maxEntries, s, acts[0], k);
      } else {
        forall x | DeadlineIs(s, k, x) ensures DeadlineIs(Next(maxEntries, s, acts[0]), k, x) {
          OthersKeepDeadline(maxEntries, s, acts[0], k, x);
        }
      }
    }
  }

  lemma {:induction false} NoDeadlineMeansNoSet(acts: seq<Action>, k: string)
    requires LastDeadline(acts, k).None?
    ensures forall i :: 0 <= i < |acts| ==> !SetsKey(acts[i], k)
    decreases acts
  {
    if acts != [] {
      NoDeadlineMeansNoSet(acts[1..], k);
      assert forall i :: 1 <= i < |acts| ==> acts[i] == acts[1..][i - 1];
    }
  }

  /** A Get of k that found an entry expired at time `at` deletes whatever is cached under k by then. That has expired
      at `at`, in any interleaving, if and only if k was not Set since the Get began or its last Set gave it a deadline
      before `at`. */
  lemma ExpiredDeleteIsRightIff(maxEntries: int, s: State, acts: seq<Action>, t: nat, k: string)
    requires Inv(s) && t !in s.pending
    requires var r := Run(maxEntries, s, [Lookup(t, k)] + acts);
             t in r.pending && r.pending[t].Doomed? && r.pending[t].key == k && k in r.cache
    ensures var r := Run(maxEntries, s, [Lookup(t, k)] + acts);
            var at := r.pending[t].at;
            && k !in Next(maxEntries, r, DeleteExpired(t)).cache
            && (L.Expired(r.store[r.cache[k]], at) <==>
                  match LastDeadline(acts, k) case Some(x) => x < at case None => true)
  {
    var s1 := Next(maxEntries, s, Lookup(t, k));
    RunStep(maxEntries, s, Lookup(t, k), acts);
    DeadlineIsLastSet(maxEntries, s1, acts, k);
    if LastDeadline(acts, k).None? {
      NoDeadlineMeansNoSet(acts, k);
      HoldsCurrentUntilSet(maxEntries, s1, acts, t, k);
    }
  }

  /** A Set after the test: the Get deletes the renewed entry, live or not. */
  lemma RenewedEntryIsDeleted(maxEntries: int, s: State, t: nat, k: string, now: int, w: L.Value, x: int)
    requires Inv(s) && t !in s.pending && k in s.cache && L.Expired(s.store[s.cache[k]], now)
    ensures var r := Run(maxEntries, s, [Lookup(t, k)] + ([Check(t, now)] + ([Set(k, w, x)] + [])));
            && k in r.cache && r.store[r.cache[k]] == L.Entry(k, w, x)
            && (L.Expired(r.store[r.cache[k]], now) <==> x < now)
            && k !in Next(maxEntries, r, DeleteExpired(t)).cache
  {
    var s1 := Next(maxEntries, s, Lookup(t, k));
    RunStep(maxEntries, s, Lookup(t, k), [Check(t, now)] + ([Set(k, w, x)] + []));
    var s2 := Next(maxEntries, s1, Check(t, now));
    FoundExpired(maxEntries, s, t, k, now);
    RunStep(maxEntries, s1, Check(t, now), [Set(k, w, x)] + []);
    RunStep(maxEntries, s2, Set(k, w, x), []);
  }

  lemma FoundExpired(maxEntries: int, s: State, t: nat, k: string, now: int)
    requires Inv(s) && t !in s.pending && k in s.cache && L.Expired(s.store[s.cache[k]], now)
    requires Inv(Next(maxEntries, s, Lookup(t, k)))
    ensures Next(maxEntries, Next(maxEntries, s, Lookup(t, k)), Check(t, now)) ==
            s.(pending := s.pending[t := Doomed(k, s.cache[k], now)])
  {
    var found, doomed := Found(k, s.cache[k]), Doomed(k, s.cache[k], now);
    assert s.pending[t := found][t := doomed] == s.pending[t := doomed];
  }

  /** A Set before the test suffices when the entry was removed first: the Get tests the removed entry and deletes the
      new one. */
  lemma ReplacedEntryIsDeleted(maxEntries: int, s: State, t: nat, k: string, now: int, w: L.Value, x: int)
    requires Inv(s) && t !in s.pending && k in s.cache && L.Expired(s.store[s.cache[k]], now)
    ensures var r := Run(maxEntries, s, [Lookup(t, k)] + ([Remove({k})] + ([Set(k, w, x)] + ([Check(t, now)] + []))));
            && k in r.cache && r.store[r.cache[k]] == L.Entry(k, w, x)
            && (L.Expired(r.store[r.cache[k]], now) <==> x < now)
            && k !in Next(maxEntries, r, DeleteExpired(t)).cache
  {
    var s1 := Next(maxEntries, s, Lookup(t, k));
    RunStep(maxEntries, s, Lookup(t, k), [Remove({k})] + ([Set(k, w, x)] + ([Check(t, now)] + [])));
    var s2 := Next(maxEntries, s1, Remove({k}));
    RunStep(maxEntries, s1, Remove({k}), [Set(k, w, x)] + ([Check(t, now)] + []));
    FoundThenRemoved(maxEntries, s, t, k);
    TestAfterSet(maxEntries, s2, t, k, s.cache[k], now, w, x);
  }

  lemma FoundThenRemoved(maxEntries: int, s: State, t: nat, k: string)
    requires Inv(s) && t !in s.pending && k in s.cache
    requires Inv(Next(maxEntries, s, Lookup(t, k)))
    ensures var r := Next(maxEntries, Next(maxEntries, s, Lookup(t, k)), Remove({k}));
            k !in r.cache && r.store == s.store && t in r.pending && r.pending[t] == Found(k, s.cache[k])
  {
  }

  /** A Get tests the entry it found, although another one is listed by then. */
  lemma TestAfterSet(maxEntries: int, s: State, t: nat, k: string, id: nat, now: int, w: L.Value, x: int)
    requires Inv(s) && k !in s.cache && t in s.pending && s.pending[t] == Found(k, id)
    requires id in s.store && L.Expired(s.store[id], now)
    ensures var r := Run(maxEntries, s, [Set(k, w, x)] + ([Check(t, now)] + []));
            && k in r.cache && r.store[r.cache[k]] == L.Entry(k, w, x)
            && (L.Expired(r.store[r.cache[k]], now) <==> x < now)
            && k !in Next(maxEntries, r, DeleteExpired(t)).cache
  {
    var s1 := Next(maxEntries, s, Set(k, w, x));
    RunStep(maxEntries, s, Set(k, w, x), [Check(t, now)] + []);
    SetKeepsOthers(maxEntries, s, k, w, x, id);
    RunStep(maxEntries, s1, Check(t, now), []);
  }

  /** Setting an absent key leaves the entries already made, listed or not, and the Gets in progress alone. */
  lemma SetKeepsOthers(maxEntries: int, s: State, k: string, w: L.Value, x: int, id: nat)
    requires Inv(s) && k !in s.cache && id in s.store
    requires Inv(Next(maxEntries, s, Set(k, w, x)))
    ensures var r := Next(maxEntries, s, Set(k, w, x));
            && id in r.store && r.store[id] == s.store[id] && r.pending == s.pending
            && k in r.cache && r.store[r.cache[k]] == L.Entry(k, w, x)
  {
  }
}
