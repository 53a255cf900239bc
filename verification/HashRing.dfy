/** The clockwise geometry of the ring and the reference definition of routing.

    Routing is defined here from the position -> node map alone: sort order, binary search,
    wrap-around arithmetic and the `seen` set of the code do not appear. */
module RingGeometry {
  import opened Collections

  const RING_SIZE: int := 0x1_0000_0000_0000_0000

  type Position = x: int | 0 <= x < RING_SIZE

  /** Clockwise distance from hash h to position p. */
  function Clockwise(h: Position, p: Position): int {
    if p >= h then p - h else p + RING_SIZE - h
  }

  ghost predicate IsNearest(ring: map<Position, string>, h: Position, p: Position) {
    p in ring && forall q | q in ring :: Clockwise(h, p) <= Clockwise(h, q)
  }

  lemma {:induction false} ClosestExists(positions: set<Position>, h: Position) returns (p: Position)
    requires positions != {}
    ensures p in positions && forall q | q in positions :: Clockwise(h, p) <= Clockwise(h, q)
  {
    p :| p in positions;
    var rest := positions - {p};
    if rest != {} {
      var q := ClosestExists(rest, h);
      assert positions == rest + {p};
      if Clockwise(h, q) < Clockwise(h, p) {
        p := q;
      }
    }
  }

  lemma NearestExists(ring: map<Position, string>, h: Position)
    requires ring != map[]
    ensures exists p :: IsNearest(ring, h, p)
  {
    assert ring.Keys != {};
    var p := ClosestExists(ring.Keys, h);
    assert IsNearest(ring, h, p);
  }

  ghost function Nearest(ring: map<Position, string>, h: Position): (p: Position)
    requires ring != map[]
    ensures IsNearest(ring, h, p)
  {
    NearestExists(ring, h);
    var p :| IsNearest(ring, h, p);
    p
  }

  lemma NearestIsUnique(ring: map<Position, string>, h: Position, p: Position, q: Position)
    requires IsNearest(ring, h, p) && IsNearest(ring, h, q)
    ensures p == q
  {
    assert Clockwise(h, p) == Clockwise(h, q);
  }

  /** The ring with every position of node x taken out. */
  function Without(ring: map<Position, string>, x: string): (r: map<Position, string>)
    ensures r.Keys <= ring.Keys
    ensures forall p | p in r :: r[p] == ring[p]
  {
    map p | p in ring && ring[p] != x :: ring[p]
  }

  lemma WithoutValues(ring: map<Position, string>, x: string)
    ensures Without(ring, x).Values == ring.Values - {x}
  {
    var rest := Without(ring, x);
    forall y | y in ring.Values && y != x ensures y in rest.Values {
      var q :| q in ring && ring[q] == y;
      assert q in rest && rest[q] == y;
    }
  }

  lemma WithoutShrinks(ring: map<Position, string>, p: Position)
    requires p in ring
    ensures |Without(ring, ring[p])| < |ring|
  {
    var r := Without(ring, ring[p]);
    assert r.Keys <= ring.Keys - {p};
    SubsetSize(r.Keys, ring.Keys - {p});
  }

  /** The node that serves hash h: the owner of the nearest position clockwise; "" when the ring is empty. */
  ghost function Route(ring: map<Position, string>, h: Position): string {
    if ring == map[] then "" else ring[Nearest(ring, h)]
  }

  /** All nodes in preference order for hash h: the nearest one, then the nearest of what is left without it. */
  ghost function Rank(ring: map<Position, string>, h: Position): seq<string>
    decreases |ring|
  {
    if ring == map[] then [] else
      var p := Nearest(ring, h);
      WithoutShrinks(ring, p);
      [ring[p]] + Rank(Without(ring, ring[p]), h)
  }

  /** s without the occurrences of x. */
  function Drop(s: seq<string>, x: string): seq<string> {
    if s == [] then [] else (if s[0] == x then [] else [s[0]]) + Drop(s[1..], x)
  }

  ghost function Take(s: seq<string>, n: int): seq<string> {
    if n <= 0 then [] else if n >= |s| then s else s[..n]
  }

  lemma {:induction false} DropAbsent(s: seq<string>, x: string)
    requires x !in s
    ensures Drop(s, x) == s
  {
    if s != [] {
      DropAbsent(s[1..], x);
    }
  }

  lemma {:induction false} DropConcat(a: seq<string>, b: seq<string>, x: string)
    ensures Drop(a + b, x) == Drop(a, x) + Drop(b, x)
  {
    if a == [] {
      assert a + b == b;
    } else {
      assert (a + b)[1..] == a[1..] + b;
      DropConcat(a[1..], b, x);
    }
  }

  /** The ranking lists each node of the ring exactly once. */
  lemma {:induction false} RankListsEachNodeOnce(ring: map<Position, string>, h: Position)
    ensures forall x :: x in Rank(ring, h) <==> x in ring.Values
    ensures forall i, j :: 0 <= i < j < |Rank(ring, h)| ==> Rank(ring, h)[i] != Rank(ring, h)[j]
    ensures |Rank(ring, h)| == |ring.Values|
    decreases |ring|
  {
    if ring != map[] {
      var p := Nearest(ring, h);
      var rest := Without(ring, ring[p]);
      WithoutShrinks(ring, p);
      RankListsEachNodeOnce(rest, h);
      WithoutValues(ring, ring[p]);
      var tail := Rank(rest, h);
      assert Rank(ring, h) == [ring[p]] + tail;
      forall x ensures x in Rank(ring, h) <==> x in ring.Values {
        assert x in [ring[p]] + tail <==> x == ring[p] || x in tail;
      }
      assert forall j :: 0 <= j < |tail| ==> tail[j] in tail;
    }
  }

  /** Taking a node out of the ring takes it out of every ranking and changes nothing else. */
  lemma {:induction false} RankWithout(ring: map<Position, string>, x: string, h: Position)
    ensures Rank(Without(ring, x), h) == Drop(Rank(ring, h), x)
    decreases |ring|
  {
    if ring != map[] {
      var p := Nearest(ring, h);
      var y := ring[p];
      var rest := Without(ring, y);
      WithoutShrinks(ring, p);
      if y == x {
        RankListsEachNodeOnce(rest, h);
        assert x !in rest.Values;
        DropAbsent(Rank(rest, h), x);
      } else {
        RankWithout(rest, x, h);
        var less := Without(ring, x);
        assert p in less;
        NearestIsUnique(less, h, p, Nearest(less, h));
        assert Without(less, y) == Without(rest, x);
      }
    }
  }

  /** The serving node is the first of the ranking, and there is one unless the ring is empty. */
  lemma {:induction false} RouteIsFirst(ring: map<Position, string>, h: Position)
    ensures Route(ring, h) == if Rank(ring, h) == [] then "" else Rank(ring, h)[0]
  {
  }

  lemma {:induction false} DropFirst(s: seq<string>, x: string)
    requires s != [] && forall i, j :: 0 <= i < j < |s| ==> s[i] != s[j]
    ensures if s[0] == x then Drop(s, x) == s[1..] else Drop(s, x) != [] && Drop(s, x)[0] == s[0]
  {
    if s[0] == x {
      assert forall i :: 0 <= i < |s[1..]| ==> s[1..][i] != s[0];
      DropAbsent(s[1..], x);
    }
  }

  /** The n-node answer before and after a node x is taken out: the new answer starts with the old one less x. */
  lemma {:induction false} TakeDrop(s: seq<string>, x: string, n: int)
    ensures Drop(Take(s, n), x) <= Take(Drop(s, x), n)
    ensures (forall i, j :: 0 <= i < j < |s| ==> s[i] != s[j]) ==> |Drop(Take(s, n), x)| >= |Take(Drop(s, x), n)| - 1
    ensures x !in Take(s, n) ==> Drop(Take(s, n), x) == Take(s, n)
  {
    var a := Take(s, n);
    var b := s[|a|..];
    assert s == a + b;
    DropConcat(a, b, x);
    DropLength(a, x);
    if x !in a {
      DropAbsent(a, x);
    }
  }

  /** The n-node answer: different nodes of the ring, n of them or all there are. */
  lemma TakeIsReplicaSet(ring: map<Position, string>, h: Position, n: int)
    ensures var r, all := Take(Rank(ring, h), n), |ring.Values|;
            && r <= Rank(ring, h)
            && |r| == (if n <= 0 then 0 else if n <= all then n else all)
            && (forall i, j :: 0 <= i < j < |r| ==> r[i] != r[j])
            && (forall x :: x in r ==> x in ring.Values)
            && (n >= all ==> forall x :: x in ring.Values ==> x in r)
  {
    RankListsEachNodeOnce(ring, h);
    if n >= |ring.Values| && n <= 0 {
      assert ring.Values == {};
    }
  }

  lemma {:induction false} DropLength(s: seq<string>, x: string)
    ensures |Drop(s, x)| <= |s|
    ensures (forall i, j :: 0 <= i < j < |s| ==> s[i] != s[j]) ==> |Drop(s, x)| >= |s| - 1
  {
    if s != [] {
      DropLength(s[1..], x);
      if s[0] == x && (forall i, j :: 0 <= i < j < |s| ==> s[i] != s[j]) {
        assert forall i :: 0 <= i < |s[1..]| ==> s[1..][i] != s[0];
        DropAbsent(s[1..], x);
      }
    }
  }
}

/** The state of the hash ring and its two membership operations as functions of the state. */
module RingState {
  import opened Sorting
  import opened RingGeometry

  const DEFAULT_REPLICAS := 150

  /** The hash function and the (already defaulted) number of virtual nodes per unit of weight. */
  datatype Config = Config(hash: string -> Position, replicas: int)

  predicate ValidConfig(c: Config) {
    c.replicas >= 1
  }

  function Decimal(i: nat): string {
    var digit := ['0' + (i % 10) as char];
    if i < 10 then digit else Decimal(i / 10) + digit
  }

  /** Position of the i-th virtual node of a node. */
  function PositionOf(c: Config, node: string, i: nat): Position {
    c.hash(node + ":" + Decimal(i))
  }

  function Positions(c: Config, node: string, n: int): set<Position> {
    set i | 0 <= i < n :: PositionOf(c, node, i)
  }

  function PositionSeq(c: Config, node: string, n: int): seq<Position> {
    if n <= 0 then [] else PositionSeq(c, node, n - 1) + [PositionOf(c, node, n - 1)]
  }

  lemma PositionsStep(c: Config, node: string, n: nat)
    ensures Positions(c, node, n + 1) == Positions(c, node, n) + {PositionOf(c, node, n)}
  {
    forall p | p in Positions(c, node, n + 1) ensures p in Positions(c, node, n) + {PositionOf(c, node, n)} {
      var i :| 0 <= i < n + 1 && PositionOf(c, node, i) == p;
    }
  }

  lemma {:induction false} PositionSeqElements(c: Config, node: string, n: int)
    ensures forall p :: p in PositionSeq(c, node, n) <==> p in Positions(c, node, n)
  {
    if n > 0 {
      PositionSeqElements(c, node, n - 1);
      PositionsStep(c, node, n - 1);
    }
  }

  datatype State = State(keys: seq<Position>, ring: map<Position, string>, nodes: map<string, int>)

  const EMPTY := State([], map[], map[])

  /** What every operation keeps: `keys` lists exactly the positions of `ring`, in order. */
  ghost predicate Valid(s: State) {
    && Sorted(s.keys)
    && (forall p :: p in s.keys <==> p in s.ring)
    && (forall x | x in s.nodes :: s.nodes[x] >= 1)
  }

  function EffectiveWeight(weight: int): int {
    if weight <= 0 then 1 else weight
  }

  function Assign(positions: set<Position>, node: string): map<Position, string> {
    map p | p in positions :: node
  }

  /** The program's intermediate state after the first i virtual nodes of an Add. */
  ghost predicate Placed(c: Config, s: State, node: string, i: nat, keys: seq<Position>, ring: map<Position, string>) {
    && keys == s.keys + PositionSeq(c, node, i)
    && ring == s.ring + Assign(Positions(c, node, i), node)
  }

  lemma NothingPlaced(c: Config, s: State, node: string)
    ensures Placed(c, s, node, 0, s.keys, s.ring)
  {
    assert Positions(c, node, 0) == {};
  }

  lemma PlaceOne(c: Config, s: State, node: string, i: nat, keys: seq<Position>, ring: map<Position, string>)
    requires Placed(c, s, node, i, keys, ring)
    ensures var p := PositionOf(c, node, i);
            Placed(c, s, node, i + 1, keys + [p], ring[p := node])
  {
    var p := PositionOf(c, node, i);
    PositionsStep(c, node, i);
    AssignStep(s.ring, Positions(c, node, i), p, node);
    assert s.keys + PositionSeq(c, node, i) + [p] == s.keys + PositionSeq(c, node, i + 1);
  }

  lemma AssignStep(ring: map<Position, string>, positions: set<Position>, p: Position, node: string)
    ensures (ring + Assign(positions, node))[p := node] == ring + Assign(positions + {p}, node)
  {
  }

  function SortPositions(s: seq<Position>): (r: seq<Position>)
    ensures Sorted(r) && multiset(r) == multiset(s)
  {
    var r := Sort(s);
    forall i | 0 <= i < |r| ensures 0 <= r[i] < RING_SIZE {
      assert r[i] in multiset(s);
      assert r[i] in s;
    }
    r
  }

  /** AddNode; the empty name is refused and changes nothing. */
  function Added(c: Config, s: State, node: string, weight: int): State {
    if node == "" then s else
      var w := EffectiveWeight(weight);
      var n := c.replicas * w;
      State(SortPositions(s.keys + PositionSeq(c, node, n)),
            s.ring + Assign(Positions(c, node, n), node),
            s.nodes[node := w])
  }

  ghost function SortedSet(s: set<Position>): (r: seq<Position>)
    ensures Sorted(r) && multiset(r) == multiset(s)
  {
    if s == {} then [] else
      var x :| x in s;
      assert multiset(s) == multiset(s - {x}) + multiset{x};
      SortPositions([x] + SortedSet(s - {x}))
  }

  /** RemoveNode; an unknown name is refused and changes nothing. */
  ghost function Removed(c: Config, s: State, node: string): State {
    if node !in s.nodes then s else
      var ring := s.ring - Positions(c, node, c.replicas * s.nodes[node]);
      State(SortedSet(ring.Keys), ring, s.nodes - {node})
  }

  /** Start of the clockwise walk: the first key at or past the hash, or the first key of all. */
  ghost predicate IsStart(keys: seq<Position>, h: Position, idx: int) {
    && 0 <= idx < |keys|
    && ((forall i :: 0 <= i < |keys| ==> keys[i] < h) ==> idx == 0)
    && ((exists i :: 0 <= i < |keys| && keys[i] >= h) ==>
          keys[idx] >= h && forall i :: 0 <= i < idx ==> keys[i] < h)
  }

  /** The i-th position met on the walk that starts at index idx and wraps around. */
  function Stop(keys: seq<Position>, idx: int, i: int): Position
    requires 0 <= idx < |keys| && 0 <= i < |keys|
  {
    keys[if idx + i < |keys| then idx + i else idx + i - |keys|]
  }

  /** Walking from the start, positions come at non-decreasing clockwise distance. */
  lemma WalkIsClockwise(keys: seq<Position>, h: Position, idx: int, i: int, j: int)
    requires Sorted(keys) && IsStart(keys, h, idx)
    requires forall k :: 0 <= k < |keys| ==> 0 <= keys[k] < RING_SIZE
    requires 0 <= i <= j < |keys|
    ensures Clockwise(h, Stop(keys, idx, i)) <= Clockwise(h, Stop(keys, idx, j))
  {
  }

  lemma Wrap(n: int, idx: int, i: int)
    requires 0 <= idx < n && 0 <= i < n
    ensures (idx + i) % n == if idx + i < n then idx + i else idx + i - n
  {
    if idx + i >= n {
      assert idx + i == n + (idx + i - n);
    }
  }

  lemma StopAt(keys: seq<Position>, idx: int, i: int)
    requires 0 <= idx < |keys| && 0 <= i < |keys|
    ensures 0 <= (idx + i) % |keys| < |keys| && keys[(idx + i) % |keys|] == Stop(keys, idx, i)
  {
    Wrap(|keys|, idx, i);
  }

  /** The part of the ring owned by nodes not yet seen. */
  ghost function Unseen(ring: map<Position, string>, seen: set<string>): map<Position, string> {
    map p | p in ring && ring[p] !in seen :: ring[p]
  }

  lemma EmptyRing(s: State)
    requires Valid(s) && s.keys == []
    ensures s.ring == map[]
  {
    assert forall p :: p !in s.ring;
  }

  /** Every position of the ring is met on a full walk. */
  lemma WalkMeets(s: State, idx: int, q: Position) returns (i: int)
    requires Valid(s) && 0 <= idx < |s.keys| && q in s.ring
    ensures 0 <= i < |s.keys| && Stop(s.keys, idx, i) == q
  {
    assert q in s.keys;
    var k :| 0 <= k < |s.keys| && s.keys[k] == q;
    i := if k >= idx then k - idx else k - idx + |s.keys|;
  }

  lemma KeysInRing(s: State)
    requires Valid(s)
    ensures forall k :: 0 <= k < |s.keys| ==> s.keys[k] in s.ring && 0 <= s.keys[k] < RING_SIZE
  {
    forall k | 0 <= k < |s.keys| ensures s.keys[k] in s.ring && 0 <= s.keys[k] < RING_SIZE {
      assert s.keys[k] in s.keys;
    }
  }

  lemma StartIsNearest(s: State, h: Position, idx: int)
    requires Valid(s) && IsStart(s.keys, h, idx)
    ensures s.keys[idx] in s.ring && s.keys[idx] == Nearest(s.ring, h)
  {
    KeysInRing(s);
    assert Stop(s.keys, idx, 0) == s.keys[idx];
    forall q | q in s.ring ensures Clockwise(h, s.keys[idx]) <= Clockwise(h, q) {
      var i := WalkMeets(s, idx, q);
      WalkIsClockwise(s.keys, h, idx, 0, i);
    }
    NearestIsUnique(s.ring, h, s.keys[idx], Nearest(s.ring, h));
  }

  /** The owners of the first n stops of a walk have all been seen. */
  ghost predicate SeenUpTo(s: State, idx: int, n: int, seen: set<string>)
    requires 0 <= idx < |s.keys| && 0 <= n <= |s.keys|
  {
    forall k :: 0 <= k < n ==> Stop(s.keys, idx, k) in s.ring && s.ring[Stop(s.keys, idx, k)] in seen
  }

  /** The first position on the walk with an unseen owner is the nearest unseen one. */
  lemma NextUnseen(s: State, h: Position, idx: int, i: int, seen: set<string>)
    requires Valid(s) && IsStart(s.keys, h, idx) && 0 <= i < |s.keys|
    requires SeenUpTo(s, idx, i, seen)
    requires Stop(s.keys, idx, i) in s.ring && s.ring[Stop(s.keys, idx, i)] !in seen
    ensures var x := s.ring[Stop(s.keys, idx, i)];
            Rank(Unseen(s.ring, seen), h) == [x] + Rank(Unseen(s.ring, seen + {x}), h)
  {
    KeysInRing(s);
    var p := Stop(s.keys, idx, i);
    var left := Unseen(s.ring, seen);
    forall q | q in left ensures Clockwise(h, p) <= Clockwise(h, q) {
      var j := WalkMeets(s, idx, q);
      assert j >= i;
      WalkIsClockwise(s.keys, h, idx, i, j);
    }
    assert p in left;
    NearestIsUnique(left, h, p, Nearest(left, h));
    assert Without(left, s.ring[p]) == Unseen(s.ring, seen + {s.ring[p]});
  }

  lemma AllSeen(s: State, idx: int, seen: set<string>)
    requires Valid(s) && 0 <= idx < |s.keys| && SeenUpTo(s, idx, |s.keys|, seen)
    ensures Unseen(s.ring, seen) == map[]
  {
    forall q | q in s.ring ensures s.ring[q] in seen {
      var j := WalkMeets(s, idx, q);
    }
  }

  /** After i stops, `result` is the beginning of the ranking and the rest of the ranking is that of the unseen part. */
  ghost predicate Walked(s: State, h: Position, idx: int, i: int, seen: set<string>, result: seq<string>)
    requires 0 <= idx < |s.keys| && 0 <= i <= |s.keys|
  {
    && SeenUpTo(s, idx, i, seen)
    && Rank(s.ring, h) == result + Rank(Unseen(s.ring, seen), h)
  }

  lemma WalkBegins(s: State, h: Position, idx: int)
    requires 0 <= idx < |s.keys|
    ensures Walked(s, h, idx, 0, {}, [])
  {
    assert Unseen(s.ring, {}) == s.ring;
  }

  lemma WalkStep(s: State, h: Position, idx: int, i: int, seen: set<string>, result: seq<string>)
    requires Valid(s) && IsStart(s.keys, h, idx) && 0 <= i < |s.keys|
    requires Walked(s, h, idx, i, seen, result)
    ensures Stop(s.keys, idx, i) in s.ring
    ensures var x := s.ring[Stop(s.keys, idx, i)];
            if x in seen then Walked(s, h, idx, i + 1, seen, result)
            else Walked(s, h, idx, i + 1, seen + {x}, result + [x])
  {
    KeysInRing(s);
    assert Stop(s.keys, idx, i) in s.ring;
    var x := s.ring[Stop(s.keys, idx, i)];
    SeenGrows(s, idx, i, seen);
    if x in seen {
      assert seen + {x} == seen;
    } else {
      NextUnseen(s, h, idx, i, seen);
      Regroup(result, x, Rank(Unseen(s.ring, seen + {x}), h));
    }
  }

  lemma SeenGrows(s: State, idx: int, i: int, seen: set<string>)
    requires 0 <= idx < |s.keys| && 0 <= i < |s.keys| && SeenUpTo(s, idx, i, seen)
    requires Stop(s.keys, idx, i) in s.ring
    ensures SeenUpTo(s, idx, i + 1, seen + {s.ring[Stop(s.keys, idx, i)]})
  {
  }

  lemma Regroup(a: seq<string>, x: string, b: seq<string>)
    ensures a + ([x] + b) == (a + [x]) + b
  {
  }

  lemma WalkEnds(s: State, h: Position, idx: int, i: int, seen: set<string>, result: seq<string>, n: int)
    requires Valid(s) && 0 <= idx < |s.keys| && 0 <= i <= |s.keys|
    requires Walked(s, h, idx, i, seen, result)
    requires 0 < n && |result| <= n && (i == |s.keys| || |result| == n)
    ensures result == Take(Rank(s.ring, h), n)
  {
    if i == |s.keys| {
      AllSeen(s, idx, seen);
    }
  }

  lemma AddKeepsValid(c: Config, s: State, node: string, weight: int)
    requires Valid(s)
    ensures Valid(Added(c, s, node, weight))
  {
    if node != "" {
      var n := c.replicas * EffectiveWeight(weight);
      var all := s.keys + PositionSeq(c, node, n);
      SameElements(SortPositions(all), all);
      PositionSeqElements(c, node, n);
    }
  }

  /** Sorting the keys completes the Add. */
  lemma PlacedIsAdded(c: Config, s: State, node: string, weight: int, keys: seq<Position>, ring: map<Position, string>)
    requires ValidConfig(c) && Valid(s) && node != ""
    requires c.replicas * EffectiveWeight(weight) >= 0
    requires Placed(c, s, node, c.replicas * EffectiveWeight(weight), keys, ring)
    ensures Added(c, s, node, weight) == State(SortPositions(keys), ring, s.nodes[node := EffectiveWeight(weight)])
    ensures Valid(Added(c, s, node, weight))
  {
    AddKeepsValid(c, s, node, weight);
  }

  lemma RemoveKeepsValid(c: Config, s: State, node: string)
    requires Valid(s)
    ensures Valid(Removed(c, s, node))
  {
    if node in s.nodes {
      var t := Removed(c, s, node);
      forall p ensures p in t.keys <==> p in t.ring {
        assert p in t.keys <==> p in multiset(t.keys);
      }
    }
  }
}

/** The ring as the program keeps it: three fields updated in place. */
module HashRing {
  import opened Sorting
  import opened RingGeometry
  import opened RingState

  /** First index whose key is at or past the hash, found by binary search as sort.Search does. */
  method Search(keys: seq<Position>, h: Position) returns (idx: nat)
    requires Sorted(keys)
    ensures idx <= |keys|
    ensures forall i :: 0 <= i < idx ==> keys[i] < h
    ensures forall i :: idx <= i < |keys| ==> keys[i] >= h
  {
    var i, j := 0, |keys|;
    while i < j
      invariant 0 <= i <= j <= |keys|
      invariant forall k :: 0 <= k < i ==> keys[k] < h
      invariant forall k :: j <= k < |keys| ==> keys[k] >= h
    {
      var m := (i + j) / 2;
      if keys[m] >= h {
        j := m;
      } else {
        i := m + 1;
      }
    }
    idx := i;
  }

  /** The keys of a map in whatever order the map yields them. */
  method CollectKeys(ring: map<Position, string>) returns (keys: seq<Position>)
    ensures multiset(keys) == multiset(ring.Keys)
  {
    keys := [];
    var rest := ring.Keys;
    while rest != {}
      invariant rest <= ring.Keys
      invariant multiset(keys) == multiset(ring.Keys - rest)
      decreases |rest|
    {
      var p :| p in rest;
      assert multiset(ring.Keys - (rest - {p})) == multiset(ring.Keys - rest) + multiset{p};
      keys := keys + [p];
      rest := rest - {p};
    }
    assert ring.Keys - rest == ring.Keys;
  }

  class HashRing {
    const config: Config
    var keys: seq<Position>
    var ring: map<Position, string>
    var nodes: map<string, int>

    ghost function View(): State
      reads this
    {
      State(keys, ring, nodes)
    }

    ghost predicate Ok()
      reads this
    {
      ValidConfig(config) && Valid(View())
    }

    constructor (replicas: int, hash: string -> Position)
      ensures Ok() && View() == EMPTY
      ensures config == Config(hash, if replicas <= 0 then 150 else replicas)
    {
      config := Config(hash, if replicas <= 0 then DEFAULT_REPLICAS else replicas);
      keys, ring, nodes := [], map[], map[];
    }

    method AddNode(node: string, weight: int) returns (ok: bool)
      requires Ok()
      modifies this
      ensures Ok()
      ensures ok == (node != "")
      ensures View() == Added(config, old(View()), node, weight)
    {
      if node == "" {
        return false;
      }
      var w := weight;
      if w <= 0 {
        w := 1;
      }
      nodes := nodes[node := w];
      var virtualNodes := config.replicas * w;
      ghost var s := old(View());
      var i := 0;
      NothingPlaced(config, s, node);
      while i < virtualNodes
        invariant 0 <= i <= virtualNodes
        invariant nodes == s.nodes[node := w]
        invariant Placed(config, s, node, i, keys, ring)
      {
        PlaceOne(config, s, node, i, keys, ring);
        var hash := PositionOf(config, node, i);
        ring := ring[hash := node];
        keys := keys + [hash];
        i := i + 1;
      }
      PlacedIsAdded(config, s, node, weight, keys, ring);
      keys := SortPositions(keys);
      return true;
    }

    method RemoveNode(node: string) returns (ok: bool)
      requires Ok()
      modifies this
      ensures Ok()
      ensures ok == (node in old(nodes))
      ensures View() == Removed(config, old(View()), node)
    {
      if node !in nodes {
        return false;
      }
      var virtualNodes := config.replicas * nodes[node];
      var i := 0;
      while i < virtualNodes
        invariant 0 <= i <= virtualNodes
        invariant nodes == old(nodes) && keys == old(keys)
        invariant ring == old(ring) - Positions(config, node, i)
      {
        ring := ring - {PositionOf(config, node, i)};
        PositionsStep(config, node, i);
        i := i + 1;
      }
      var newKeys := CollectKeys(ring);
      newKeys := SortPositions(newKeys);
      SortedIsUnique(newKeys, SortedSet(ring.Keys));
      keys := newKeys;
      nodes := nodes - {node};
      RemoveKeepsValid(config, old(View()), node);
      return true;
    }

    method GetNode(key: string) returns (node: string)
      requires Ok()
      ensures node == Route(ring, config.hash(key))
    {
      if |keys| == 0 {
        EmptyRing(View());
        return "";
      }
      var hash := config.hash(key);
      var idx := Search(keys, hash);
      if idx == |keys| {
        idx := 0;
      }
      StartIsNearest(View(), hash, idx);
      return ring[keys[idx]];
    }

    /** The first n nodes of the preference order: no node twice, all of them when n is at least their number. */
    method GetNNodes(key: string, n: int) returns (result: seq<string>)
      requires Ok()
      ensures result == Take(Rank(ring, config.hash(key)), n)
    {
      if n <= 0 {
        return [];
      }
      if |keys| == 0 {
        EmptyRing(View());
        return [];
      }
      var hash := config.hash(key);
      var idx := Search(keys, hash);
      if idx == |keys| {
        idx := 0;
      }
      var seen: set<string> := {};
      result := [];
      var i := 0;
      ghost var s := View();
      WalkBegins(s, hash, idx);
      while i < |keys| && |result| < n
        invariant 0 <= i <= |s.keys|
        invariant |result| <= n
        invariant Walked(s, hash, idx, i, seen, result)
      {
        WalkStep(s, hash, idx, i, seen, result);
        StopAt(keys, idx, i);
        var pos := (idx + i) % |keys|;
        var nodeID := ring[keys[pos]];
        if nodeID !in seen {
          seen := seen + {nodeID};
          result := result + [nodeID];
        }
        i := i + 1;
      }
      WalkEnds(s, hash, idx, i, seen, result, n);
    }
  }
}
