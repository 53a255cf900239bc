/** Laws of the ring over whole histories: state is a function of membership, and changes of
    membership move as few keys as possible. */
module RingTheorems {
  import opened Sorting
  import opened RingGeometry
  import opened RingState

  datatype Op = Add(node: string, weight: int) | Remove(node: string)

  ghost function Apply(c: Config, s: State, op: Op): State {
    match op
    case Add(x, w) => Added(c, s, x, w)
    case Remove(x) => Removed(c, s, x)
  }

  ghost function Run(c: Config, s: State, ops: seq<Op>): State
    decreases ops
  {
    if ops == [] then s else Run(c, Apply(c, s, ops[0]), ops[1..])
  }

  predicate IsVirtual(c: Config, nodes: map<string, int>, x: string, i: int) {
    x in nodes && 0 <= i < c.replicas * nodes[x]
  }

  /** No two virtual nodes of the given members share a position. */
  ghost predicate CollisionFree(c: Config, nodes: map<string, int>) {
    forall x, i: nat, y, j: nat ::
      IsVirtual(c, nodes, x, i) && IsVirtual(c, nodes, y, j) && PositionOf(c, x, i) == PositionOf(c, y, j) ==>
        x == y && i == j
  }

  /** The position map that a membership calls for. */
  ghost predicate IsLayout(c: Config, ring: map<Position, string>, nodes: map<string, int>) {
    && (forall x, i: nat :: IsVirtual(c, nodes, x, i) ==> PositionOf(c, x, i) in ring && ring[PositionOf(c, x, i)] == x)
    && (forall p :: p in ring ==> ring[p] in nodes && p in Positions(c, ring[p], c.replicas * nodes[ring[p]]))
  }

  /** A state that holds nothing but what its membership calls for, each position once. */
  ghost predicate Canonical(c: Config, s: State) {
    && (forall x :: x in s.nodes ==> s.nodes[x] >= 1)
    && CollisionFree(c, s.nodes)
    && IsLayout(c, s.ring, s.nodes)
    && Sorted(s.keys) && multiset(s.keys) == multiset(s.ring.Keys)
  }

  ghost predicate Permitted(c: Config, s: State, op: Op) {
    op.Add? ==> op.node !in s.nodes && CollisionFree(c, Apply(c, s, op).nodes)
  }

  /** Each Add names an absent node and leaves the members collision-free; Remove is unrestricted. */
  ghost predicate Orderly(c: Config, s: State, ops: seq<Op>)
    decreases ops
  {
    ops != [] ==>
      && Permitted(c, s, ops[0])
      && Orderly(c, Apply(c, s, ops[0]), ops[1..])
  }

  /** The index at which a member was given a position. */
  lemma IndexOf(c: Config, x: string, n: int, p: Position) returns (i: nat)
    requires p in Positions(c, x, n)
    ensures i < n && PositionOf(c, x, i) == p
  {
    i :| i < n && PositionOf(c, x, i) == p;
  }

  lemma NotAmong(c: Config, x: string, n: int, p: Position)
    requires forall i: nat | i < n :: PositionOf(c, x, i) != p
    ensures p !in Positions(c, x, n)
  {
  }

  lemma LayoutIsUnique(c: Config, r: map<Position, string>, t: map<Position, string>, nodes: map<string, int>)
    requires IsLayout(c, r, nodes) && IsLayout(c, t, nodes)
    ensures r == t
  {
    LayoutIncluded(c, r, t, nodes);
    LayoutIncluded(c, t, r, nodes);
  }

  lemma LayoutIncluded(c: Config, r: map<Position, string>, t: map<Position, string>, nodes: map<string, int>)
    requires IsLayout(c, r, nodes) && IsLayout(c, t, nodes)
    ensures forall p :: p in r ==> p in t && t[p] == r[p]
  {
    forall p | p in r ensures p in t && t[p] == r[p] {
      var i := IndexOf(c, r[p], c.replicas * nodes[r[p]], p);
      assert IsVirtual(c, nodes, r[p], i);
    }
  }

  lemma CanonicalIsUnique(c: Config, s: State, t: State)
    requires Canonical(c, s) && Canonical(c, t) && s.nodes == t.nodes
    ensures s == t
  {
    LayoutIsUnique(c, s.ring, t.ring, s.nodes);
    SortedIsUnique(s.keys, t.keys);
  }

  /** Distinct positions: as a multiset the appended slice is the set of positions. */
  lemma {:induction false} PositionSeqDistinct(c: Config, x: string, n: int)
    requires forall i: nat, j: nat :: i < n && j < n && PositionOf(c, x, i) == PositionOf(c, x, j) ==> i == j
    ensures multiset(PositionSeq(c, x, n)) == multiset(Positions(c, x, n))
  {
    if n > 0 {
      PositionSeqDistinct(c, x, n - 1);
      PositionsStep(c, x, n - 1);
      NotAmong(c, x, n - 1, PositionOf(c, x, n - 1));
      DisjointUnion(Positions(c, x, n - 1), {PositionOf(c, x, n - 1)});
    }
  }

  /** A fresh collision-free member takes positions nobody holds. */
  lemma FreshPositionsAreFree(c: Config, s: State, x: string, weight: int)
    requires IsLayout(c, s.ring, s.nodes) && x != ""
    requires x !in s.nodes && CollisionFree(c, Added(c, s, x, weight).nodes)
    ensures Positions(c, x, c.replicas * EffectiveWeight(weight)) !! s.ring.Keys
  {
    var nodes := s.nodes[x := EffectiveWeight(weight)];
    forall p | p in s.ring ensures p !in Positions(c, x, c.replicas * EffectiveWeight(weight)) {
      var y := s.ring[p];
      var j := IndexOf(c, y, c.replicas * s.nodes[y], p);
      assert IsVirtual(c, nodes, y, j);
      OthersPositionIsNotMine(c, nodes, x, y, j);
    }
  }

  /** A member has none of the positions of another. */
  lemma OthersPositionIsNotMine(c: Config, nodes: map<string, int>, x: string, y: string, j: nat)
    requires CollisionFree(c, nodes) && x in nodes && x != y && IsVirtual(c, nodes, y, j)
    ensures PositionOf(c, y, j) !in Positions(c, x, c.replicas * nodes[x])
  {
    forall i: nat | i < c.replicas * nodes[x] ensures PositionOf(c, x, i) != PositionOf(c, y, j) {
      assert IsVirtual(c, nodes, x, i);
    }
    NotAmong(c, x, c.replicas * nodes[x], PositionOf(c, y, j));
  }

  lemma DisjointUnion(a: set<Position>, b: set<Position>)
    requires a !! b
    ensures multiset(a + b) == multiset(a) + multiset(b)
  {
  }

  lemma DistinctWhenFree(c: Config, nodes: map<string, int>, x: string)
    requires x in nodes && CollisionFree(c, nodes)
    ensures multiset(PositionSeq(c, x, c.replicas * nodes[x])) == multiset(Positions(c, x, c.replicas * nodes[x]))
  {
    var n := c.replicas * nodes[x];
    forall i: nat, j: nat | i < n && j < n && PositionOf(c, x, i) == PositionOf(c, x, j) ensures i == j {
      assert IsVirtual(c, nodes, x, i) && IsVirtual(c, nodes, x, j);
    }
    PositionSeqDistinct(c, x, n);
  }

  lemma AddedKeys(c: Config, s: State, x: string, weight: int)
    requires x != ""
    ensures var t, n := Added(c, s, x, weight), c.replicas * EffectiveWeight(weight);
            && multiset(t.keys) == multiset(s.keys) + multiset(PositionSeq(c, x, n))
            && t.ring.Keys == s.ring.Keys + Positions(c, x, n)
            && t.nodes == s.nodes[x := EffectiveWeight(weight)]
  {
    var n := c.replicas * EffectiveWeight(weight);
    assert (s.ring + Assign(Positions(c, x, n), x)).Keys == s.ring.Keys + Positions(c, x, n);
  }

  lemma FreshKeys(c: Config, s: State, x: string, weight: int)
    requires Canonical(c, s) && x != ""
    requires x !in s.nodes && CollisionFree(c, Added(c, s, x, weight).nodes)
    ensures multiset(Added(c, s, x, weight).keys) == multiset(Added(c, s, x, weight).ring.Keys)
  {
    var n := c.replicas * EffectiveWeight(weight);
    AddedKeys(c, s, x, weight);
    FreshPositionsAreFree(c, s, x, weight);
    DistinctWhenFree(c, s.nodes[x := EffectiveWeight(weight)], x);
    DisjointUnion(s.ring.Keys, Positions(c, x, n));
  }

  lemma AddKeepsCanonical(c: Config, s: State, x: string, weight: int)
    requires ValidConfig(c) && Canonical(c, s)
    requires x !in s.nodes && CollisionFree(c, Added(c, s, x, weight).nodes)
    ensures Canonical(c, Added(c, s, x, weight))
  {
    if x != "" {
      AddedLayout(c, s, x, weight);
      FreshKeys(c, s, x, weight);
    }
  }

  /** The layout after an Add that shares no position with another member; the added node may be present. */
  lemma AddedLayout(c: Config, s: State, x: string, weight: int)
    requires ValidConfig(c) && IsLayout(c, s.ring, s.nodes) && x != ""
    requires CollisionFree(c, Added(c, s, x, weight).nodes)
    requires x in s.nodes ==> s.nodes[x] <= EffectiveWeight(weight)
    ensures IsLayout(c, Added(c, s, x, weight).ring, Added(c, s, x, weight).nodes)
  {
    AddedNodesSit(c, s, x, weight);
    AddedPositionsBelong(c, s, x, weight);
  }

  /** Every virtual node sits at its position after the Add. */
  lemma AddedNodesSit(c: Config, s: State, x: string, weight: int)
    requires ValidConfig(c) && IsLayout(c, s.ring, s.nodes) && x != ""
    requires CollisionFree(c, Added(c, s, x, weight).nodes)
    ensures var t := Added(c, s, x, weight);
            forall y, i: nat :: IsVirtual(c, t.nodes, y, i) ==>
              PositionOf(c, y, i) in t.ring && t.ring[PositionOf(c, y, i)] == y
  {
    var t := Added(c, s, x, weight);
    var n := c.replicas * EffectiveWeight(weight);
    forall y, i: nat | IsVirtual(c, t.nodes, y, i)
      ensures PositionOf(c, y, i) in t.ring && t.ring[PositionOf(c, y, i)] == y
    {
      var p := PositionOf(c, y, i);
      if p in Positions(c, x, n) {
        var j := IndexOf(c, x, n, p);
        assert IsVirtual(c, t.nodes, x, j);
      } else {
        assert y != x;
        assert IsVirtual(c, s.nodes, y, i);
      }
    }
  }

  /** Every position after the Add is one that a member calls for. */
  lemma AddedPositionsBelong(c: Config, s: State, x: string, weight: int)
    requires ValidConfig(c) && IsLayout(c, s.ring, s.nodes) && x != ""
    requires x in s.nodes ==> s.nodes[x] <= EffectiveWeight(weight)
    ensures var t := Added(c, s, x, weight);
            forall p :: p in t.ring ==>
              t.ring[p] in t.nodes && p in Positions(c, t.ring[p], c.replicas * t.nodes[t.ring[p]])
  {
    var t := Added(c, s, x, weight);
    var n := c.replicas * EffectiveWeight(weight);
    forall p | p in t.ring
      ensures t.ring[p] in t.nodes && p in Positions(c, t.ring[p], c.replicas * t.nodes[t.ring[p]])
    {
      if p !in Positions(c, x, n) {
        var y := s.ring[p];
        var j := IndexOf(c, y, c.replicas * s.nodes[y], p);
        if x in s.nodes {
          Scale(c.replicas, s.nodes[x], EffectiveWeight(weight));
        }
      }
    }
  }

  lemma Scale(k: int, a: int, b: int)
    requires k >= 0 && a <= b
    ensures k * a <= k * b
  {
  }

  lemma RemoveKeepsCanonical(c: Config, s: State, x: string)
    requires ValidConfig(c) && Canonical(c, s)
    ensures Canonical(c, Removed(c, s, x))
  {
    if x in s.nodes {
      var t := Removed(c, s, x);
      var mine := Positions(c, x, c.replicas * s.nodes[x]);
      forall y, i: nat | IsVirtual(c, t.nodes, y, i)
        ensures PositionOf(c, y, i) in t.ring && t.ring[PositionOf(c, y, i)] == y
      {
        var p := PositionOf(c, y, i);
        assert IsVirtual(c, s.nodes, y, i);
        forall j: nat | j < c.replicas * s.nodes[x] ensures PositionOf(c, x, j) != p {
          assert IsVirtual(c, s.nodes, x, j);
        }
        NotAmong(c, x, c.replicas * s.nodes[x], p);
      }
      forall y, i: nat | IsVirtual(c, t.nodes, y, i) ensures IsVirtual(c, s.nodes, y, i) {
      }
    }
  }

  lemma StepKeepsCanonical(c: Config, s: State, op: Op)
    requires ValidConfig(c) && Canonical(c, s)
    requires Permitted(c, s, op)
    ensures Canonical(c, Apply(c, s, op))
  {
    match op
    case Add(x, w) => AddKeepsCanonical(c, s, x, w);
    case Remove(x) => RemoveKeepsCanonical(c, s, x);
  }

  lemma {:induction false} RunKeepsCanonical(c: Config, s: State, ops: seq<Op>)
    requires ValidConfig(c) && Canonical(c, s) && Orderly(c, s, ops)
    ensures Canonical(c, Run(c, s, ops))
    decreases ops
  {
    if ops != [] {
      StepKeepsCanonical(c, s, ops[0]);
      RunKeepsCanonical(c, Apply(c, s, ops[0]), ops[1..]);
    }
  }

  /** Two histories that end in the same membership end in the same ring, and so answer every lookup alike. */
  lemma MembershipDeterminesRing(c: Config, ops1: seq<Op>, ops2: seq<Op>)
    requires ValidConfig(c) && Orderly(c, EMPTY, ops1) && Orderly(c, EMPTY, ops2)
    requires Run(c, EMPTY, ops1).nodes == Run(c, EMPTY, ops2).nodes
    ensures Run(c, EMPTY, ops1) == Run(c, EMPTY, ops2)
  {
    assert Canonical(c, EMPTY);
    RunKeepsCanonical(c, EMPTY, ops1);
    RunKeepsCanonical(c, EMPTY, ops2);
    CanonicalIsUnique(c, Run(c, EMPTY, ops1), Run(c, EMPTY, ops2));
  }

  lemma UndoRestores<V>(nodes: map<string, V>, x: string, w: V)
    requires x !in nodes
    ensures nodes[x := w] - {x} == nodes
  {
  }

  /** Removing a node that was just added restores the ring exactly. */
  lemma AddThenRemoveIsUndo(c: Config, s: State, x: string, weight: int)
    requires ValidConfig(c) && Canonical(c, s)
    requires x != "" && x !in s.nodes && CollisionFree(c, Added(c, s, x, weight).nodes)
    ensures Removed(c, Added(c, s, x, weight), x) == s
  {
    AddKeepsCanonical(c, s, x, weight);
    RemoveKeepsCanonical(c, Added(c, s, x, weight), x);
    UndoRestores(s.nodes, x, EffectiveWeight(weight));
    CanonicalIsUnique(c, Removed(c, Added(c, s, x, weight), x), s);
  }

  /** Whatever collides and whether or not x is present, a key moves only to the added node. */
  lemma AddMovesKeysOnlyToAddedNode(c: Config, s: State, x: string, weight: int, h: Position)
    requires ValidConfig(c) && Valid(s) && x != ""
    ensures Route(Added(c, s, x, weight).ring, h) in {Route(s.ring, h), x}
  {
    var n := c.replicas * EffectiveWeight(weight);
    assert PositionOf(c, x, 0) in Positions(c, x, n);
    AssignedMovesKeys(s.ring, Positions(c, x, n), x, h);
  }

  lemma AssignedMovesKeys(ring: map<Position, string>, positions: set<Position>, x: string, h: Position)
    requires positions != {}
    ensures Route(ring + Assign(positions, x), h) in {Route(ring, h), x}
  {
    var after := ring + Assign(positions, x);
    var q :| q in positions;
    assert q in after;
    var p := Nearest(after, h);
    if p !in positions {
      assert p in ring;
      NearestIsUnique(ring, h, p, Nearest(ring, h));
    }
  }

  /** The positions x was given are exactly the positions x owns. */
  ghost predicate OwnsExactly(ring: map<Position, string>, x: string, positions: set<Position>) {
    forall p :: p in positions <==> p in ring && ring[p] == x
  }

  /** Removing a node strikes it from every key's preference order and changes nothing else. */
  lemma RemoveStrikesFromRankings(c: Config, s: State, x: string, h: Position)
    requires Valid(s) && x in s.nodes
    requires OwnsExactly(s.ring, x, Positions(c, x, c.replicas * s.nodes[x]))
    ensures Rank(Removed(c, s, x).ring, h) == Drop(Rank(s.ring, h), x)
  {
    assert Removed(c, s, x).ring == Without(s.ring, x);
    RankWithout(s.ring, x, h);
  }

  /** Only the removed node's keys move, each to the next distinct node clockwise. */
  lemma RemoveMovesOnlyItsKeys(c: Config, s: State, x: string, h: Position)
    requires Valid(s) && x in s.nodes
    requires OwnsExactly(s.ring, x, Positions(c, x, c.replicas * s.nodes[x]))
    ensures var before, after := Rank(s.ring, h), Route(Removed(c, s, x).ring, h);
            if Route(s.ring, h) != x then after == Route(s.ring, h)
            else if |before| >= 2 then after == before[1]
            else after == ""
  {
    RemoveStrikesFromRankings(c, s, x, h);
    RankListsEachNodeOnce(s.ring, h);
    RouteIsFirst(s.ring, h);
    RouteIsFirst(Removed(c, s, x).ring, h);
    if Rank(s.ring, h) != [] {
      DropFirst(Rank(s.ring, h), x);
    }
  }

  lemma OwnsItsPositions(c: Config, s: State, x: string)
    requires Canonical(c, s) && x in s.nodes
    ensures OwnsExactly(s.ring, x, Positions(c, x, c.replicas * s.nodes[x]))
  {
    forall p | p in Positions(c, x, c.replicas * s.nodes[x]) ensures p in s.ring && s.ring[p] == x {
      var i := IndexOf(c, x, c.replicas * s.nodes[x], p);
      assert IsVirtual(c, s.nodes, x, i);
    }
  }

  /** After every orderly history, removing a member strikes it from every key's preference order, and only its keys
      move. */
  lemma RemoveAfterHistoryMovesOnlyItsKeys(c: Config, ops: seq<Op>, x: string, h: Position)
    requires ValidConfig(c) && Orderly(c, EMPTY, ops) && x in Run(c, EMPTY, ops).nodes
    ensures var s := Run(c, EMPTY, ops);
            var before, after := Rank(s.ring, h), Removed(c, s, x).ring;
            && Rank(after, h) == Drop(before, x)
            && Route(after, h) == if Route(s.ring, h) != x then Route(s.ring, h)
                                  else if |before| >= 2 then before[1]
                                  else ""
  {
    assert Canonical(c, EMPTY);
    RunKeepsCanonical(c, EMPTY, ops);
    var s := Run(c, EMPTY, ops);
    CanonicalIsValid(c, s);
    OwnsItsPositions(c, s, x);
    RemoveStrikesFromRankings(c, s, x, h);
    RemoveMovesOnlyItsKeys(c, s, x, h);
  }

  /** A replica set changes by at most the added node: strike it out and the old replica set remains, less its
      last member when the added node took a place. Only the added node has to be new and its positions free; the
      other members may collide or have been re-added. */
  lemma AddChangesReplicasMinimally(c: Config, s: State, x: string, weight: int, h: Position, n: int)
    requires Valid(s) && x != "" && x !in s.ring.Values
    requires Positions(c, x, c.replicas * EffectiveWeight(weight)) !! s.ring.Keys
    ensures var before, after := Take(Rank(s.ring, h), n), Take(Rank(Added(c, s, x, weight).ring, h), n);
            && Drop(after, x) <= before
            && |Drop(after, x)| >= |before| - 1
            && (x !in after ==> after == before)
  {
    var ring := Added(c, s, x, weight).ring;
    StrikingAddedRestores(s.ring, Positions(c, x, c.replicas * EffectiveWeight(weight)), x);
    RankWithout(ring, x, h);
    RankListsEachNodeOnce(ring, h);
    TakeDrop(Rank(ring, h), x, n);
    if x !in Take(Rank(ring, h), n) {
      AbsentFromTake(Rank(ring, h), x, n);
    }
  }

  lemma StrikingAddedRestores(ring: map<Position, string>, positions: set<Position>, x: string)
    requires x !in ring.Values && positions !! ring.Keys
    ensures Without(ring + Assign(positions, x), x) == ring
  {
    forall p | p in ring ensures ring[p] != x {
      assert ring[p] in ring.Values;
    }
  }

  /** In particular after any orderly history. */
  lemma AddToMembersChangesReplicasMinimally(c: Config, ops: seq<Op>, x: string, weight: int, h: Position, n: int)
    requires ValidConfig(c) && Orderly(c, EMPTY, ops + [Add(x, weight)]) && x != ""
    ensures var s := Run(c, EMPTY, ops);
            var before, after := Take(Rank(s.ring, h), n), Take(Rank(Added(c, s, x, weight).ring, h), n);
            && Drop(after, x) <= before
            && |Drop(after, x)| >= |before| - 1
            && (x !in after ==> after == before)
  {
    OrderlyFront(c, EMPTY, ops, Add(x, weight));
    assert Canonical(c, EMPTY);
    RunKeepsCanonical(c, EMPTY, ops);
    var s := Run(c, EMPTY, ops);
    FreshPositionsAreFree(c, s, x, weight);
    CanonicalIsValid(c, s);
    forall p | p in s.ring ensures s.ring[p] != x {
      assert s.ring[p] in s.nodes;
    }
    AddChangesReplicasMinimally(c, s, x, weight, h, n);
  }

  lemma CanonicalIsValid(c: Config, s: State)
    requires Canonical(c, s)
    ensures Valid(s)
  {
    forall p ensures p in s.keys <==> p in s.ring {
      assert p in s.keys <==> p in multiset(s.keys);
    }
  }

  lemma {:induction false} OrderlyFront(c: Config, s: State, ops: seq<Op>, last: Op)
    requires Orderly(c, s, ops + [last])
    ensures Orderly(c, s, ops) && Permitted(c, Run(c, s, ops), last)
    decreases ops
  {
    if ops == [] {
      assert [last][0] == last;
    } else {
      assert (ops + [last])[1..] == ops[1..] + [last];
      OrderlyFront(c, Apply(c, s, ops[0]), ops[1..], last);
    }
  }

  lemma AbsentFromTake(s: seq<string>, x: string, n: int)
    requires x !in Take(s, n)
    ensures Take(Drop(s, x), n) == Take(s, n)
  {
    var a := Take(s, n);
    var b := s[|a|..];
    assert s == a + b;
    DropConcat(a, b, x);
    DropAbsent(a, x);
  }

  /** "Update or insert": re-adding a present node yields the layout of the new weight exactly when the weight does
      not go down. */
  lemma ReAddIsExactIffWeightNotLowered(c: Config, s: State, x: string, weight: int)
    requires ValidConfig(c) && Canonical(c, s) && x in s.nodes && x != ""
    requires EffectiveWeight(weight) >= s.nodes[x] ==> CollisionFree(c, s.nodes[x := EffectiveWeight(weight)])
    ensures IsLayout(c, Added(c, s, x, weight).ring, Added(c, s, x, weight).nodes)
            <==> EffectiveWeight(weight) >= s.nodes[x]
  {
    var w := EffectiveWeight(weight);
    if w >= s.nodes[x] {
      AddedLayout(c, s, x, weight);
    } else {
      var p := StalePosition(c, s, x, weight);
    }
  }

  /** A position that a re-add with a lower weight leaves behind. */
  lemma StalePosition(c: Config, s: State, x: string, weight: int) returns (p: Position)
    requires ValidConfig(c) && Canonical(c, s) && x in s.nodes && x != ""
    requires EffectiveWeight(weight) < s.nodes[x]
    ensures p in s.ring && s.ring[p] == x
    ensures p !in Positions(c, x, c.replicas * EffectiveWeight(weight))
  {
    var n := c.replicas * EffectiveWeight(weight);
    MoreVirtualNodes(c.replicas, EffectiveWeight(weight), s.nodes[x]);
    p := PositionOf(c, x, n);
    assert IsVirtual(c, s.nodes, x, n);
    LaterPositionIsNew(c, s.nodes, x, n);
  }

  lemma MoreVirtualNodes(k: int, a: int, b: int)
    requires k >= 1 && 0 <= a < b
    ensures 0 <= k * a < k * b
  {
    Scale(k, a + 1, b);
    Scale(k, 0, a);
  }

  /** No earlier virtual node of a member has the position of its n-th. */
  lemma LaterPositionIsNew(c: Config, nodes: map<string, int>, x: string, n: nat)
    requires CollisionFree(c, nodes) && IsVirtual(c, nodes, x, n)
    ensures PositionOf(c, x, n) !in Positions(c, x, n)
  {
    forall j: nat | j < n ensures PositionOf(c, x, j) != PositionOf(c, x, n) {
      assert IsVirtual(c, nodes, x, j);
    }
    NotAmong(c, x, n, PositionOf(c, x, n));
  }

  /** After a re-add, removing the node takes it off the ring exactly when its weight was not lowered; otherwise
      a removed node keeps serving keys. */
  lemma RemovedNodeIsGoneIffWeightNotLowered(c: Config, s: State, x: string, weight: int)
    requires ValidConfig(c) && Canonical(c, s) && x in s.nodes && x != ""
    ensures x !in Removed(c, Added(c, s, x, weight), x).ring.Values <==> EffectiveWeight(weight) >= s.nodes[x]
  {
    var n := c.replicas * EffectiveWeight(weight);
    var u := Removed(c, Added(c, s, x, weight), x);
    OverwrittenThenDropped(s.ring, Positions(c, x, n), x);
    if EffectiveWeight(weight) < s.nodes[x] {
      var p := StalePosition(c, s, x, weight);
      assert p in u.ring && u.ring[p] == x;
    } else {
      Scale(c.replicas, s.nodes[x], EffectiveWeight(weight));
      PositionsGrow(c, x, c.replicas * s.nodes[x], n);
      forall p | p in u.ring ensures u.ring[p] != x {
        assert p in s.ring && p !in Positions(c, x, c.replicas * s.nodes[x]);
      }
    }
  }

  lemma OverwrittenThenDropped(ring: map<Position, string>, positions: set<Position>, x: string)
    ensures (ring + Assign(positions, x)) - positions == ring - positions
  {
  }

  lemma PositionsGrow(c: Config, x: string, m: int, n: int)
    requires m <= n
    ensures Positions(c, x, m) <= Positions(c, x, n)
  {
  }
}
