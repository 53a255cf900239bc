/** The L1 cache as the program keeps it: a map from keys to entry objects and a list of the same objects.
    container/list is the standard library's; here it is the sequence of its elements, front first. */
module L1Cache {
  import opened Collections
  import L = LruList

  type Value = L.Value

  class LruEntry {
    const key: string
    var value: Value
    var expiresAt: int

    constructor (key: string, value: Value, expiresAt: int)
      ensures this.key == key && this.value == value && this.expiresAt == expiresAt
    {
      this.key, this.value, this.expiresAt := key, value, expiresAt;
    }

    function View(): L.Entry
      reads this
    {
      L.Entry(key, value, expiresAt)
    }
  }

  function ViewOf(l: seq<LruEntry>): L.List
    reads l
  {
    if l == [] then [] else [l[0].View()] + ViewOf(l[1..])
  }

  /** list.Remove: the element leaves the list, and nothing happens when it is not in it. */
  function RemoveElement(l: seq<LruEntry>, e: LruEntry): (r: seq<LruEntry>)
    ensures forall x | x in r :: x in l && x != e
    ensures forall x | x in l :: x != e ==> x in r
  {
    if l == [] then []
    else
      assert l == [l[0]] + l[1..];
      if l[0] == e then RemoveElement(l[1..], e)
      else [l[0]] + RemoveElement(l[1..], e)
  }

  lemma {:induction false} ViewAt(l: seq<LruEntry>)
    ensures |ViewOf(l)| == |l|
    ensures forall i :: 0 <= i < |l| ==> ViewOf(l)[i] == l[i].View()
  {
    if l != [] {
      ViewAt(l[1..]);
    }
  }

  ghost predicate NoRepeats(l: seq<LruEntry>) {
    forall i, j :: 0 <= i < j < |l| ==> l[i] != l[j]
  }

  /** The map holds exactly the listed entries, each under its own key. */
  ghost predicate Agree(cache: map<string, LruEntry>, l: seq<LruEntry>) {
    && NoRepeats(l)
    && (forall e :: e in l ==> e.key in cache && cache[e.key] == e)
    && (forall k :: k in cache ==> cache[k] in l && cache[k].key == k)
  }

  lemma AgreeView(cache: map<string, LruEntry>, l: seq<LruEntry>)
    requires Agree(cache, l)
    ensures L.Distinct(ViewOf(l)) && L.Keys(ViewOf(l)) == cache.Keys
  {
    ViewAt(l);
    forall i, j | 0 <= i < j < |l| ensures ViewOf(l)[i].key != ViewOf(l)[j].key {
      assert l[i] in l && l[j] in l;
    }
    forall k | k in cache ensures k in L.Keys(ViewOf(l)) {
      var i :| 0 <= i < |l| && l[i] == cache[k];
      assert ViewOf(l)[i].key == k;
    }
    forall i | 0 <= i < |l| ensures ViewOf(l)[i].key in cache {
      assert l[i] in l;
    }
  }

  lemma {:induction false} ViewRemove(l: seq<LruEntry>, e: LruEntry)
    requires forall x | x in l :: x != e ==> x.key != e.key
    ensures ViewOf(RemoveElement(l, e)) == L.Drop(ViewOf(l), {e.key})
    ensures NoRepeats(l) ==> NoRepeats(RemoveElement(l, e))
  {
    if l != [] {
      assert l == [l[0]] + l[1..];
      ViewRemove(l[1..], e);
      assert ViewOf(l)[1..] == ViewOf(l[1..]);
      if l[0] != e {
        var rest := RemoveElement(l[1..], e);
        assert ([l[0]] + rest)[1..] == rest;
        if NoRepeats(l) {
          forall i | 0 <= i < |rest| ensures rest[i] != l[0] {
            assert rest[i] in rest;
          }
        }
      }
    }
  }

  lemma ViewCons(e: LruEntry, l: seq<LruEntry>)
    ensures ViewOf([e] + l) == [e.View()] + ViewOf(l)
  {
    assert ([e] + l)[1..] == l;
  }

  lemma MovingKeepsAgreement(cache: map<string, LruEntry>, l: seq<LruEntry>, e: LruEntry)
    requires Agree(cache, l) && e in l
    ensures Agree(cache, [e] + RemoveElement(l, e))
  {
    ViewRemove(l, e);
    var rest := RemoveElement(l, e);
    assert NoRepeats([e] + rest) by {
      assert forall i :: 0 <= i < |rest| ==> rest[i] in rest;
    }
    forall x | x in l ensures x in [e] + rest {
    }
  }

  /** Looking a key up in the map is looking it up in the list. */
  lemma LookupAgrees(cache: map<string, LruEntry>, l: seq<LruEntry>, k: string)
    requires Agree(cache, l)
    ensures L.Lookup(ViewOf(l), k) == if k in cache then Some(cache[k].View()) else None
  {
    AgreeView(cache, l);
    ViewAt(l);
    if k in cache {
      var i :| 0 <= i < |l| && l[i] == cache[k];
      assert ViewOf(l)[i] == cache[k].View();
      L.LookupFinds(ViewOf(l), cache[k].View());
    }
  }

  class L1Cache {
    var cache: map<string, LruEntry>
    var lruList: seq<LruEntry>
    const maxEntries: int

    ghost predicate Valid()
      reads this
    {
      Agree(cache, lruList)
    }

    ghost function Entries(): set<LruEntry>
      reads this
    {
      set e | e in lruList
    }

    ghost function Contents(): L.List
      reads this, Entries()
    {
      ViewOf(lruList)
    }

    constructor (maxEntries: int)
      ensures Valid() && Contents() == [] && this.maxEntries == maxEntries && lruList == []
    {
      this.maxEntries := maxEntries;
      cache, lruList := map[], [];
    }

    method Get(key: string, now: int) returns (r: Option<L.Entry>)
      requires Valid()
      modifies this
      ensures Valid() && Entries() <= old(Entries())
      ensures (Contents(), r) == L.Get(old(Contents()), key, now)
    {
      LookupAgrees(cache, lruList, key);
      if key !in cache {
        return None;
      }
      var entry := cache[key];
      if now > entry.expiresAt {
        var _ := DeleteUnsafe(key);
        return None;
      }
      ViewRemove(lruList, entry);
      MoveToFront(entry);
      return Some(entry.View());
    }

    method MoveToFront(entry: LruEntry)
      requires Valid() && entry in lruList
      modifies this`lruList
      ensures Valid() && lruList == [entry] + RemoveElement(old(lruList), entry)
      ensures Contents() == [entry.View()] + L.Drop(old(Contents()), {entry.key})
    {
      ViewRemove(lruList, entry);
      ViewCons(entry, RemoveElement(lruList, entry));
      MovingKeepsAgreement(cache, lruList, entry);
      lruList := [entry] + RemoveElement(lruList, entry);
    }

    method Set(key: string, value: Value, ttl: int, now: int)
      requires Valid()
      modifies this, Entries()
      ensures Valid() && fresh(Entries() - old(Entries()))
      ensures Contents() == L.Set(old(Contents()), maxEntries, key, value, now + ttl)
    {
      AgreeView(cache, lruList);
      var expiresAt := now + ttl;
      if key in cache {
        Renew(cache[key], value, expiresAt);
      } else {
        MakeRoom();
        PushNew(key, value, expiresAt);
      }
    }

    method MakeRoom()
      requires Valid()
      modifies this
      ensures Valid() && Entries() <= old(Entries())
      ensures cache.Keys <= old(cache).Keys
      ensures Contents() == L.EvictIfFull(old(Contents()), maxEntries)
    {
      ViewAt(lruList);
      if |lruList| >= maxEntries {
        EvictLru();
      }
    }

    /** Overwrites an entry in place and makes it the most recent. */
    method Renew(entry: LruEntry, value: Value, expiresAt: int)
      requires Valid() && entry in lruList
      modifies this, entry
      ensures Valid() && Entries() <= old(Entries())
      ensures Contents() == [L.Entry(entry.key, value, expiresAt)] + L.Drop(old(Contents()), {entry.key})
    {
      var rest := RemoveElement(lruList, entry);
      ViewRemove(lruList, entry);
      ghost var before := ViewOf(rest);
      entry.value := value;
      entry.expiresAt := expiresAt;
      assert ViewOf(rest) == before;
      ViewRemove(lruList, entry);
      MoveToFront(entry);
    }

    method PushNew(key: string, value: Value, expiresAt: int)
      requires Valid() && key !in cache
      modifies this
      ensures Valid() && fresh(Entries() - old(Entries()))
      ensures Contents() == [L.Entry(key, value, expiresAt)] + old(Contents())
    {
      var entry := new LruEntry(key, value, expiresAt);
      ViewCons(entry, lruList);
      assert entry !in lruList;
      lruList := [entry] + lruList;
      cache := cache[key := entry];
    }

    method EvictLru()
      requires Valid()
      modifies this
      ensures Valid() && Entries() <= old(Entries())
      ensures cache.Keys <= old(cache).Keys
      ensures Contents() == if old(Contents()) == [] then [] else old(Contents())[..|old(Contents())| - 1]
    {
      ViewAt(lruList);
      if |lruList| == 0 {
        return;
      }
      var oldest := lruList[|lruList| - 1];
      AgreeView(cache, lruList);
      L.EvictIsDrop(Contents());
      Remove(oldest);
    }

    /** Takes an entry out of the list and its key out of the map. */
    method Remove(entry: LruEntry)
      requires Valid() && entry in lruList
      modifies this
      ensures Valid() && Entries() <= old(Entries())
      ensures cache == old(cache) - {entry.key}
      ensures Contents() == L.Drop(old(Contents()), {entry.key})
    {
      ViewRemove(lruList, entry);
      lruList := RemoveElement(lruList, entry);
      cache := cache - {entry.key};
    }

    method Delete(key: string) returns (existed: bool)
      requires Valid()
      modifies this
      ensures Valid() && Entries() <= old(Entries())
      ensures existed <==> key in L.Keys(old(Contents()))
      ensures Contents() == L.Delete(old(Contents()), key)
    {
      existed := DeleteUnsafe(key);
    }

    method DeleteUnsafe(key: string) returns (existed: bool)
      requires Valid()
      modifies this
      ensures Valid() && Entries() <= old(Entries())
      ensures existed <==> key in L.Keys(old(Contents()))
      ensures existed <==> key in old(cache)
      ensures cache == old(cache) - {key}
      ensures Contents() == L.Drop(old(Contents()), {key})
    {
      AgreeView(cache, lruList);
      if key !in cache {
        L.DropNothing(Contents(), {key});
        return false;
      }
      Remove(cache[key]);
      return true;
    }

    /** Deletes the collected keys one after another. */
    method DeleteAll(dead: set<string>) returns (count: nat)
      requires Valid() && dead <= cache.Keys
      modifies this
      ensures Valid() && Entries() <= old(Entries())
      ensures count == |dead|
      ensures Contents() == L.Drop(old(Contents()), dead)
    {
      count := 0;
      var rest := dead;
      ghost var before, done := Contents(), {};
      L.DropNothing(before, {});
      while rest != {}
        invariant Valid() && rest <= cache.Keys
        invariant Entries() <= old(Entries())
        invariant count + |rest| == |dead|
        invariant done + rest == dead
        invariant Contents() == L.Drop(before, done)
        decreases |rest|
      {
        var key :| key in rest;
        L.DropDrop(before, done, {key});
        done, rest := done + {key}, rest - {key};
        var existed := DeleteUnsafe(key);
        if existed {
          count := count + 1;
        }
      }
      assert done + {} == done;
    }

    method DeletePattern(pattern: string) returns (count: nat)
      requires Valid()
      modifies this
      ensures Valid() && Entries() <= old(Entries())
      ensures count == |L.Matching(old(Contents()), pattern)|
      ensures Contents() == L.DeletePattern(old(Contents()), pattern)
    {
      AgreeView(cache, lruList);
      var toDelete := set key | key in cache && L.MatchesPattern(key, pattern);
      assert toDelete == L.Matching(Contents(), pattern);
      count := DeleteAll(toDelete);
    }

    method CleanupExpired(now: int) returns (count: nat)
      requires Valid()
      modifies this
      ensures Valid() && Entries() <= old(Entries())
      ensures count == |L.ExpiredKeys(old(Contents()), now)|
      ensures Contents() == L.CleanupExpired(old(Contents()), now)
    {
      AgreeView(cache, lruList);
      var expired := set key | key in cache && now > cache[key].expiresAt;
      ExpiredAgrees(cache, lruList, now);
      count := DeleteAll(expired);
    }

    method Size() returns (n: nat)
      requires Valid()
      ensures n == |Contents()|
    {
      AgreeView(cache, lruList);
      L.SizeIsKeys(Contents());
      n := |cache|;
    }

    method Clear()
      requires Valid()
      modifies this
      ensures Valid() && Contents() == [] && lruList == []
    {
      cache, lruList := map[], [];
    }
  }

  lemma ExpiredAgrees(cache: map<string, LruEntry>, l: seq<LruEntry>, now: int)
    requires Agree(cache, l)
    ensures L.ExpiredKeys(ViewOf(l), now) == set key | key in cache && now > cache[key].expiresAt
  {
    ViewAt(l);
    forall key | key in cache && now > cache[key].expiresAt ensures key in L.ExpiredKeys(ViewOf(l), now) {
      var i :| 0 <= i < |l| && l[i] == cache[key];
      assert ViewOf(l)[i] == cache[key].View();
    }
    forall i | 0 <= i < |l| ensures l[i].key in cache && cache[l[i].key] == l[i] {
      assert l[i] in l;
    }
  }
}
