/** Recency lists: the contents of the L1 cache as a value, most recently used entry first.

    Every way in which entries leave a list is `Drop`: it removes the entries of a set of keys and keeps the
    order of the rest. */
module LruList {
  import opened Collections

  type Value = string

  datatype Entry = Entry(key: string, value: Value, expiresAt: int)

  type List = seq<Entry>

  function Keys(l: List): set<string> {
    set i | 0 <= i < |l| :: l[i].key
  }

  ghost predicate Distinct(l: List) {
    forall i, j :: 0 <= i < j < |l| ==> l[i].key != l[j].key
  }

  function Drop(l: List, dead: set<string>): List {
    if l == [] then []
    else if l[0].key in dead then Drop(l[1..], dead)
    else [l[0]] + Drop(l[1..], dead)
  }

  function Lookup(l: List, k: string): (r: Option<Entry>)
    ensures r.None? <==> k !in Keys(l)
    ensures r.Some? ==> r.value in l && r.value.key == k
  {
    if l == [] then None
    else if l[0].key == k then Some(l[0])
    else
      assert forall i | 1 <= i < |l| :: l[i] == l[1..][i - 1];
      Lookup(l[1..], k)
  }

  function Expired(e: Entry, now: int): bool {
    now > e.expiresAt
  }

  /** A trailing '*' makes the rest a prefix; any other pattern names one key. */
  function MatchesPattern(key: string, pattern: string): bool {
    if pattern != "" && pattern[|pattern| - 1] == '*' then pattern[..|pattern| - 1] <= key else key == pattern
  }

  function Matching(l: List, pattern: string): set<string> {
    set k | k in Keys(l) && MatchesPattern(k, pattern)
  }

  function ExpiredKeys(l: List, now: int): set<string> {
    set i | 0 <= i < |l| && Expired(l[i], now) :: l[i].key
  }

  // The operations of the cache on its list.

  function Get(l: List, k: string, now: int): (List, Option<Entry>) {
    match Lookup(l, k)
    case None => (l, None)
    case Some(e) => if Expired(e, now) then (Drop(l, {k}), None) else ([e] + Drop(l, {k}), Some(e))
  }

  function EvictIfFull(l: List, maxEntries: int): List {
    if |l| >= maxEntries && l != [] then l[..|l| - 1] else l
  }

  function Set(l: List, maxEntries: int, k: string, v: Value, expiresAt: int): List {
    [Entry(k, v, expiresAt)] + if k in Keys(l) then Drop(l, {k}) else EvictIfFull(l, maxEntries)
  }

  function Delete(l: List, k: string): List {
    Drop(l, {k})
  }

  function DeletePattern(l: List, pattern: string): List {
    Drop(l, Matching(l, pattern))
  }

  function CleanupExpired(l: List, now: int): List {
    Drop(l, ExpiredKeys(l, now))
  }

  // The algebra of Drop.

  lemma KeysCons(e: Entry, l: List)
    ensures Keys([e] + l) == {e.key} + Keys(l)
  {
    var c := [e] + l;
    forall k | k in Keys(c) ensures k in {e.key} + Keys(l) {
      var i :| 0 <= i < |c| && c[i].key == k;
      assert i > 0 ==> c[i] == l[i - 1];
    }
    forall k | k in {e.key} + Keys(l) ensures k in Keys(c) {
      if k == e.key {
        assert c[0].key == k;
      } else {
        var i :| 0 <= i < |l| && l[i].key == k;
        assert c[i + 1].key == k;
      }
    }
  }

  lemma Uncons(l: List)
    requires l != []
    ensures l == [l[0]] + l[1..]
    ensures Keys(l) == {l[0].key} + Keys(l[1..])
    ensures Distinct(l) ==> Distinct(l[1..]) && l[0].key !in Keys(l[1..])
  {
    KeysCons(l[0], l[1..]);
    assert l == [l[0]] + l[1..];
  }

  lemma {:induction false} DropKeys(l: List, dead: set<string>)
    ensures Keys(Drop(l, dead)) == Keys(l) - dead
  {
    if l != [] {
      Uncons(l);
      DropKeys(l[1..], dead);
      KeysCons(l[0], Drop(l[1..], dead));
    }
  }

  lemma {:induction false} DropElements(l: List, dead: set<string>, e: Entry)
    ensures e in Drop(l, dead) <==> e in l && e.key !in dead
  {
    if l != [] {
      DropElements(l[1..], dead, e);
      assert l == [l[0]] + l[1..];
    }
  }

  lemma {:induction false} DropDistinct(l: List, dead: set<string>)
    requires Distinct(l)
    ensures Distinct(Drop(l, dead))
  {
    if l != [] {
      Uncons(l);
      DropDistinct(l[1..], dead);
      DropKeys(l[1..], dead);
      if l[0].key !in dead {
        DistinctCons(l[0], Drop(l[1..], dead));
      }
    }
  }

  lemma DistinctCons(e: Entry, l: List)
    requires Distinct(l) && e.key !in Keys(l)
    ensures Distinct([e] + l)
  {
  }

  lemma {:induction false} DropDrop(l: List, a: set<string>, b: set<string>)
    ensures Drop(Drop(l, a), b) == Drop(l, a + b)
  {
    if l != [] {
      DropDrop(l[1..], a, b);
      if l[0].key !in a {
        assert ([l[0]] + Drop(l[1..], a))[1..] == Drop(l[1..], a);
      }
    }
  }

  lemma {:induction false} DropConcat(x: List, y: List, dead: set<string>)
    ensures Drop(x + y, dead) == Drop(x, dead) + Drop(y, dead)
  {
    if x == [] {
      assert x + y == y;
    } else {
      assert (x + y)[1..] == x[1..] + y;
      DropConcat(x[1..], y, dead);
    }
  }

  /** Only the keys actually present matter. */
  lemma {:induction false} DropSame(l: List, a: set<string>, b: set<string>)
    requires forall k | k in Keys(l) :: k in a <==> k in b
    ensures Drop(l, a) == Drop(l, b)
  {
    if l != [] {
      Uncons(l);
      DropSame(l[1..], a, b);
    }
  }

  lemma {:induction false} DropNothing(l: List, dead: set<string>)
    requires Keys(l) !! dead
    ensures Drop(l, dead) == l
  {
    if l != [] {
      Uncons(l);
      DropNothing(l[1..], dead);
    }
  }

  lemma {:induction false} SizeIsKeys(l: List)
    requires Distinct(l)
    ensures |l| == |Keys(l)|
  {
    if l != [] {
      Uncons(l);
      SizeIsKeys(l[1..]);
    }
  }

  /** Eviction removes the last entry, that is, it drops its key. */
  lemma {:induction false} EvictIsDrop(l: List)
    requires Distinct(l) && l != []
    ensures l[..|l| - 1] == Drop(l, {l[|l| - 1].key})
    ensures Keys(l[..|l| - 1]) == Keys(l) - {l[|l| - 1].key}
  {
    LastIsNotInFront(l);
    assert l == l[..|l| - 1] + [l[|l| - 1]];
    EvictLast(l[..|l| - 1], l[|l| - 1]);
  }

  lemma LastIsNotInFront(l: List)
    requires Distinct(l) && l != []
    ensures l[|l| - 1].key !in Keys(l[..|l| - 1])
  {
  }

  lemma {:induction false} EvictLast(front: List, last: Entry)
    requires last.key !in Keys(front)
    ensures Drop(front + [last], {last.key}) == front
    ensures Keys(front) == Keys(front + [last]) - {last.key}
  {
    DropKeys(front + [last], {last.key});
    DropConcat(front, [last], {last.key});
    DropNothing(front, {last.key});
    assert Drop([last], {last.key}) == [];
  }

  lemma {:induction false} LookupDrop(l: List, dead: set<string>, k: string)
    requires k !in dead
    ensures Lookup(Drop(l, dead), k) == Lookup(l, k)
  {
    if l != [] {
      LookupDrop(l[1..], dead, k);
      if l[0].key !in dead {
        assert Drop(l, dead)[1..] == Drop(l[1..], dead);
      }
    }
  }

  lemma {:induction false} LookupFinds(l: List, e: Entry)
    requires Distinct(l)
    ensures Lookup(l, e.key) == Some(e) <==> e in l
  {
    if l != [] {
      Uncons(l);
      LookupFinds(l[1..], e);
      assert e in l[1..] ==> e.key in Keys(l[1..]);
    }
  }

  /** Get hits exactly when an unexpired entry of the key is present, and returns that entry. */
  lemma GetHitsIff(l: List, k: string, now: int)
    requires Distinct(l)
    ensures var hit := Get(l, k, now).1;
            && (hit.Some? ==> hit.value in l && hit.value.key == k && now <= hit.value.expiresAt)
            && (hit.None? ==> forall e | e in l && e.key == k :: now > e.expiresAt)
  {
    forall d | d in l && d.key == k ensures Lookup(l, k) == Some(d) {
      LookupFinds(l, d);
    }
  }

  /** A pattern that does not end in a star deletes its own key. */
  lemma PatternWithoutFinalStarDeletesItsKey(l: List, pattern: string)
    requires pattern == "" || pattern[|pattern| - 1] != '*'
    ensures DeletePattern(l, pattern) == Drop(l, {pattern})
    ensures Matching(l, pattern) == {pattern} * Keys(l)
  {
    DropSame(l, Matching(l, pattern), {pattern});
  }

  /** A cleanup leaves exactly the live entries. */
  lemma CleanupLeavesLive(l: List, now: int, e: Entry)
    requires Distinct(l)
    ensures e in CleanupExpired(l, now) <==> e in l && now <= e.expiresAt
  {
    DropElements(l, ExpiredKeys(l, now), e);
    if e in l {
      var i :| 0 <= i < |l| && l[i] == e;
    }
  }

  /** A final star makes the rest a prefix, stars in it included; what is left keeps its order. */
  lemma FinalStarDeletesPrefix(l: List, s: string)
    ensures Matching(l, s + "*") == set k | k in Keys(l) && |s| <= |k| && k[..|s|] == s
    ensures forall e :: e in DeletePattern(l, s + "*") <==> e in l && !(|s| <= |e.key| && e.key[..|s|] == s)
  {
    var p := s + "*";
    assert p[..|p| - 1] == s;
    forall e ensures e in DeletePattern(l, p) <==> e in l && !(|s| <= |e.key| && e.key[..|s|] == s) {
      DropElements(l, Matching(l, p), e);
      assert e in l ==> e.key in Keys(l);
    }
  }

  /** Putting an entry in front of the list less its key. */
  lemma ToFront(l: List, e: Entry)
    requires Distinct(l)
    ensures var r := [e] + Drop(l, {e.key});
            Distinct(r) && Keys(r) == Keys(l) + {e.key} && Drop(r, {e.key}) == Drop(l, {e.key})
  {
    var rest := Drop(l, {e.key});
    DropKeys(l, {e.key});
    DropDistinct(l, {e.key});
    DropNothing(rest, {e.key});
    KeysCons(e, rest);
    DistinctCons(e, rest);
    assert ([e] + rest)[1..] == rest;
  }

  /** Get keeps the keys, except that it discards the expired one it was asked for; a hit comes to the front and
      the others keep their order. */
  lemma GetKeepsShape(l: List, k: string, now: int)
    requires Distinct(l)
    ensures var (after, hit) := Get(l, k, now);
            && Distinct(after)
            && Drop(after, {k}) == Drop(l, {k})
            && Keys(after) == (if hit.None? then Keys(l) - {k} else Keys(l))
            && (hit.Some? ==> after[0] == hit.value)
  {
    match Lookup(l, k)
    case None =>
      DropNothing(l, {k});
    case Some(e) =>
      ToFront(l, e);
      DropKeys(l, {k});
      DropDistinct(l, {k});
      DropDrop(l, {k}, {k});
  }

  /** Set puts the new entry in front; it costs another key only when the key is new and the cache is full, and
      then exactly the least recently used one. */
  lemma SetKeepsShape(l: List, maxEntries: int, k: string, v: Value, expiresAt: int)
    requires Distinct(l)
    ensures var after := Set(l, maxEntries, k, v, expiresAt);
            && Distinct(after) && after[0] == Entry(k, v, expiresAt)
            && Drop(after, {k}) == (if k !in Keys(l) && |l| >= maxEntries && l != [] then l[..|l| - 1]
                                    else Drop(l, {k}))
            && |after| <= (if |l| >= maxEntries && l != [] then |l| else |l| + 1)
            && (k in Keys(l) ==> Keys(after) == Keys(l))
  {
    var rest := if k in Keys(l) then Drop(l, {k}) else EvictIfFull(l, maxEntries);
    RestOfSet(l, maxEntries, k);
    var e := Entry(k, v, expiresAt);
    DistinctCons(e, rest);
    KeysCons(e, rest);
    assert ([e] + rest)[1..] == rest;
    DropNothing(rest, {k});
    if k in Keys(l) {
      assert {k} + (Keys(l) - {k}) == Keys(l);
    }
  }

  /** What a Set keeps of the list besides the entry it makes. */
  lemma RestOfSet(l: List, maxEntries: int, k: string)
    requires Distinct(l)
    ensures var rest := if k in Keys(l) then Drop(l, {k}) else EvictIfFull(l, maxEntries);
            && Distinct(rest) && k !in Keys(rest)
            && rest == (if k !in Keys(l) && |l| >= maxEntries && l != [] then l[..|l| - 1] else Drop(l, {k}))
            && |rest| < (if |l| >= maxEntries && l != [] then |l| else |l| + 1)
            && (k in Keys(l) ==> Keys(rest) == Keys(l) - {k})
  {
    DropDistinct(l, {k});
    DropKeys(l, {k});
    if k in Keys(l) {
      SizeIsKeys(l);
      SizeIsKeys(Drop(l, {k}));
    } else {
      DropNothing(l, {k});
      if l != [] {
        EvictIsDrop(l);
      }
    }
  }
}
