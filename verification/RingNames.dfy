/** The names of virtual nodes, and when their positions are distinct: what the laws over collision-free members ask
    of the hash function. */
module RingNames {
  import opened RingGeometry
  import opened RingState
  import opened RingTheorems

  // Numerals.

  /** The number a text of digits stands for. */
  function Number(s: string): int {
    if s == "" then 0 else 10 * Number(s[..|s| - 1]) + (s[|s| - 1] as int - '0' as int)
  }

  /** A numeral has digits only, no leading zero, and reads back as its number. */
  lemma {:induction false} DecimalReadsBack(i: nat)
    ensures Number(Decimal(i)) == i
    ensures forall k :: 0 <= k < |Decimal(i)| ==> '0' <= Decimal(i)[k] <= '9'
    ensures Decimal(i) != "" && (Decimal(i)[0] == '0' <==> i == 0)
  {
    var digit := ['0' + (i % 10) as char];
    assert digit[..0] == "";
    if i >= 10 {
      DecimalReadsBack(i / 10);
      assert Decimal(i)[..|Decimal(i)| - 1] == Decimal(i / 10);
    }
  }

  /** The name hashed for the i-th virtual node of x. */
  function VirtualName(x: string, i: nat): string {
    x + ":" + Decimal(i)
  }

  /** The node may have colons in its name; the last one in a virtual node's name is the separator. */
  lemma NameDetermines(x: string, i: nat, y: string, j: nat)
    requires VirtualName(x, i) == VirtualName(y, j)
    ensures x == y && i == j
  {
    DecimalReadsBack(i);
    DecimalReadsBack(j);
    if |x| < |y| {
      LastColon(x, Decimal(i), y, Decimal(j));
    } else if |y| < |x| {
      LastColon(y, Decimal(j), x, Decimal(i));
    } else {
      var s, n := VirtualName(x, i), |x|;
      assert s[..n] == x && s[n + 1..] == Decimal(i);
      assert s[..n] == y && s[n + 1..] == Decimal(j);
    }
  }

  lemma LastColon(a: string, d: string, b: string, e: string)
    requires a + ":" + d == b + ":" + e && |a| < |b|
    ensures ':' in d
  {
    var s := a + ":" + d;
    assert s[|b|] == ':';
    assert s[|b|] == d[|b| - |a| - 1];
  }

  // Positions.

  function NamesOf(x: string, n: int): set<string> {
    set i | 0 <= i < n :: VirtualName(x, i)
  }

  /** The names of all virtual nodes of a membership. */
  ghost function Names(replicas: int, nodes: map<string, int>): set<string> {
    set x, i | x in nodes && 0 <= i < replicas * nodes[x] :: VirtualName(x, i)
  }

  /** No two of the names have the same hash. */
  ghost predicate Apart(hash: string -> Position, names: set<string>) {
    forall a, b | a in names && b in names :: hash(a) == hash(b) ==> a == b
  }

  lemma PositionIsHashOfName(c: Config, x: string, i: nat)
    ensures PositionOf(c, x, i) == c.hash(VirtualName(x, i))
  {
  }

  lemma NameListed(replicas: int, nodes: map<string, int>, x: string, i: nat)
    requires x in nodes && i < replicas * nodes[x]
    ensures VirtualName(x, i) in Names(replicas, nodes)
  {
  }

  /** Members share no position exactly when the hash tells the names of their virtual nodes apart. */
  lemma CollisionFreeIff(c: Config, nodes: map<string, int>)
    ensures CollisionFree(c, nodes) <==> Apart(c.hash, Names(c.replicas, nodes))
  {
    if CollisionFree(c, nodes) {
      forall a, b | a in Names(c.replicas, nodes) && b in Names(c.replicas, nodes) && c.hash(a) == c.hash(b)
        ensures a == b
      {
        var x, i :| x in nodes && 0 <= i < c.replicas * nodes[x] && VirtualName(x, i) == a;
        var y, j :| y in nodes && 0 <= j < c.replicas * nodes[y] && VirtualName(y, j) == b;
        assert IsVirtual(c, nodes, x, i) && IsVirtual(c, nodes, y, j);
        PositionIsHashOfName(c, x, i);
        PositionIsHashOfName(c, y, j);
      }
    } else {
      var x, i: nat, y, j: nat :| IsVirtual(c, nodes, x, i) && IsVirtual(c, nodes, y, j) &&
                                  PositionOf(c, x, i) == PositionOf(c, y, j) && !(x == y && i == j);
      NameListed(c.replicas, nodes, x, i);
      NameListed(c.replicas, nodes, y, j);
      if VirtualName(x, i) == VirtualName(y, j) {
        NameDetermines(x, i, y, j);
      }
    }
  }

  /** A node takes as many positions as it has virtual nodes when the hash tells their names apart. */
  lemma {:induction false} AsManyPositions(c: Config, x: string, n: nat)
    requires Apart(c.hash, NamesOf(x, n))
    ensures |Positions(c, x, n)| == n
  {
    if n == 0 {
      assert Positions(c, x, n) == {};
    } else {
      assert NamesOf(x, n - 1) <= NamesOf(x, n);
      AsManyPositions(c, x, n - 1);
      PositionsStep(c, x, n - 1);
      forall i: nat | i < n - 1 ensures PositionOf(c, x, i) != PositionOf(c, x, n - 1) {
        assert VirtualName(x, i) in NamesOf(x, n) && VirtualName(x, n - 1) in NamesOf(x, n);
        if PositionOf(c, x, i) == PositionOf(c, x, n - 1) {
          NameDetermines(x, i, x, n - 1);
        }
      }
      NotAmong(c, x, n - 1, PositionOf(c, x, n - 1));
    }
  }

  /** The positions a node owns. */
  ghost function Owned(ring: map<Position, string>, x: string): set<Position> {
    set p | p in ring && ring[p] == x
  }

  /** An added node owns replicas times weight positions, a weight of zero or less counting as one, whoever held them
      before. */
  lemma AddedNodeOwnsItsShare(c: Config, s: State, x: string, weight: int, n: nat)
    requires ValidConfig(c) && x != "" && x !in s.ring.Values
    requires n == c.replicas * (if weight <= 0 then 1 else weight) && Apart(c.hash, NamesOf(x, n))
    ensures |Owned(Added(c, s, x, weight).ring, x)| == n
  {
    AsManyPositions(c, x, n);
    OwnsWhatIsAssigned(s.ring, Positions(c, x, n), x);
  }

  lemma OwnsWhatIsAssigned(ring: map<Position, string>, positions: set<Position>, x: string)
    requires x !in ring.Values
    ensures Owned(ring + Assign(positions, x), x) == positions
  {
    forall p | p in ring ensures ring[p] != x {
      assert ring[p] in ring.Values;
    }
  }

  /** A new member brings in one name for each of its virtual nodes. */
  lemma NewMemberNames(replicas: nat, nodes: map<string, int>, x: string, w: nat)
    requires x !in nodes
    ensures |Names(replicas, nodes[x := w])| == |Names(replicas, nodes)| + replicas * w
  {
    NamesOfCount(x, replicas * w);
    NamesAreMine(replicas, nodes, x, replicas * w);
    NamesWithMember(replicas, nodes, x, w);
  }

  lemma NamesAreMine(replicas: nat, nodes: map<string, int>, x: string, n: nat)
    requires x !in nodes
    ensures NamesOf(x, n) !! Names(replicas, nodes)
  {
    forall i: nat | i < n ensures VirtualName(x, i) !in Names(replicas, nodes) {
      if VirtualName(x, i) in Names(replicas, nodes) {
        var y, j :| y in nodes && 0 <= j < replicas * nodes[y] && VirtualName(y, j) == VirtualName(x, i);
        NameDetermines(x, i, y, j);
      }
    }
  }

  lemma NamesWithMember(replicas: nat, nodes: map<string, int>, x: string, w: nat)
    requires x !in nodes
    ensures Names(replicas, nodes[x := w]) == NamesOf(x, replicas * w) + Names(replicas, nodes)
  {
    var more := nodes[x := w];
    forall a | a in Names(replicas, more) ensures a in NamesOf(x, replicas * w) + Names(replicas, nodes) {
      var y, i :| y in more && 0 <= i < replicas * more[y] && VirtualName(y, i) == a;
      if y != x {
        NameListed(replicas, nodes, y, i);
      }
    }
    forall a | a in NamesOf(x, replicas * w) + Names(replicas, nodes) ensures a in Names(replicas, more) {
      if a in NamesOf(x, replicas * w) {
        var i :| 0 <= i < replicas * w && VirtualName(x, i) == a;
        NameListed(replicas, more, x, i);
      } else {
        var y, i :| y in nodes && 0 <= i < replicas * nodes[y] && VirtualName(y, i) == a;
        NameListed(replicas, more, y, i);
      }
    }
  }

  lemma {:induction false} NamesOfCount(x: string, n: nat)
    ensures |NamesOf(x, n)| == n
  {
    if n == 0 {
      assert NamesOf(x, 0) == {};
    } else {
      NamesOfCount(x, n - 1);
      forall i: nat | i < n - 1 ensures VirtualName(x, i) != VirtualName(x, n - 1) {
        if VirtualName(x, i) == VirtualName(x, n - 1) {
          NameDetermines(x, i, x, n - 1);
        }
      }
      assert NamesOf(x, n) == NamesOf(x, n - 1) + {VirtualName(x, n - 1)};
    }
  }

  // Such hash functions exist.

  lemma {:induction false} InjectionExists(names: set<string>) returns (hash: string -> Position)
    requires |names| <= RING_SIZE
    ensures Apart(hash, names) && forall a | a in names :: hash(a) < |names|
    decreases |names|
  {
    hash := _ => 0;
    if names != {} {
      var a :| a in names;
      var rest := InjectionExists(names - {a});
      var last: Position := |names| - 1;
      hash := b => if b == a then last else rest(b);
    }
  }

  /** Distinct hashes of names are distinct positions. */
  lemma {:induction false} HashesCount(hash: string -> Position, names: set<string>)
    requires Apart(hash, names)
    ensures |set a | a in names :: hash(a)| == |names|
    decreases |names|
  {
    if names != {} {
      var a :| a in names;
      HashesCount(hash, names - {a});
      assert (set b | b in names :: hash(b)) == (set b | b in names - {a} :: hash(b)) + {hash(a)};
    }
  }

  lemma {:induction false} FewPositions(positions: set<Position>, n: nat)
    requires forall p | p in positions :: p < n
    ensures |positions| <= n
  {
    if n == 0 {
      assert positions == {};
    } else if n <= RING_SIZE {
      var last: Position := n - 1;
      FewPositions(positions - {last}, n - 1);
      assert positions <= positions - {last} + {last};
    } else {
      FewPositions(positions, n - 1);
    }
  }

  /** A membership can be collision-free, for some hash function, exactly when it has no more virtual nodes than the
      ring has positions. */
  lemma CollisionFreeIsPossibleIff(replicas: int, nodes: map<string, int>)
    ensures (exists hash :: CollisionFree(Config(hash, replicas), nodes)) <==>
            |Names(replicas, nodes)| <= 0x1_0000_0000_0000_0000
  {
    var names := Names(replicas, nodes);
    if |names| <= RING_SIZE {
      var hash := InjectionExists(names);
      CollisionFreeIff(Config(hash, replicas), nodes);
    }
    forall hash | CollisionFree(Config(hash, replicas), nodes) ensures |names| <= RING_SIZE {
      CollisionFreeIff(Config(hash, replicas), nodes);
      HashesCount(hash, names);
      FewPositions(set a | a in names :: hash(a), RING_SIZE);
    }
  }

  // Histories.

  /** Each Add names an absent node. */
  ghost predicate AddsAbsent(c: Config, s: State, ops: seq<Op>)
    decreases ops
  {
    ops != [] ==> (ops[0].Add? ==> ops[0].node !in s.nodes) && AddsAbsent(c, Apply(c, s, ops[0]), ops[1..])
  }

  /** The names that the Adds of a history bring in. */
  ghost function AddedNames(replicas: int, ops: seq<Op>): set<string>
    decreases ops
  {
    if ops == [] then {} else
      var here := if ops[0].Add? then NamesOf(ops[0].node, replicas * EffectiveWeight(ops[0].weight)) else {};
      here + AddedNames(replicas, ops[1..])
  }

  lemma NamesAfter(c: Config, s: State, op: Op)
    ensures Names(c.replicas, Apply(c, s, op).nodes) <=
            Names(c.replicas, s.nodes)
            + if op.Add? then NamesOf(op.node, c.replicas * EffectiveWeight(op.weight)) else {}
  {
    var t := Apply(c, s, op);
    forall a | a in Names(c.replicas, t.nodes)
      ensures a in Names(c.replicas, s.nodes) ||
              (op.Add? && a in NamesOf(op.node, c.replicas * EffectiveWeight(op.weight)))
    {
      var x, i :| x in t.nodes && 0 <= i < c.replicas * t.nodes[x] && VirtualName(x, i) == a;
      if !(op.Add? && x == op.node && op.node != "") {
        NameListed(c.replicas, s.nodes, x, i);
      }
    }
  }

  /** A history whose Adds name absent nodes is orderly, and the laws over histories apply, whenever the hash tells
      apart the names it brings in. */
  lemma {:induction false} OrderlyWhenApart(c: Config, s: State, ops: seq<Op>, names: set<string>)
    requires AddsAbsent(c, s, ops) && Apart(c.hash, names)
    requires Names(c.replicas, s.nodes) <= names && AddedNames(c.replicas, ops) <= names
    ensures Orderly(c, s, ops)
    decreases ops
  {
    if ops != [] {
      NamesAfter(c, s, ops[0]);
      CollisionFreeIff(c, Apply(c, s, ops[0]).nodes);
      OrderlyWhenApart(c, Apply(c, s, ops[0]), ops[1..], names);
    }
  }
}
