/** The rate bound for a whole limiter: every key, over runs in which stale buckets are evicted. */
module RateBounds {
  import opened Numbers
  import opened TokenBuckets

  /** Tokens granted to key k in the window (s, t] of a run. */
  function GrantedTo(p: Params, staleDuration: int, m: Buckets, ops: seq<Op>, k: string, s: int, t: int): int
    decreases ops
  {
    if ops == [] then 0
    else match ops[0]
      case OpAllow(now, key, n) =>
        var (m', ok) := AllowN(p, m, key, n, now);
        (if ok && key == k && s < now <= t then n else 0) + GrantedTo(p, staleDuration, m', ops[1..], k, s, t)
      case OpEvict(now) => GrantedTo(p, staleDuration, EvictStaleKeys(m, staleDuration, now), ops[1..], k, s, t)
  }

  /** With a long enough stale duration, evictions change what no key is granted. */
  lemma {:induction false} EvictionsKeepGrants(p: Params, staleDuration: int, m1: Buckets, m2: Buckets, ops: seq<Op>,
                                               start: int, k: string, s: int, t: int)
    requires ValidParams(p) && LongEnough(p, staleDuration) && OpsClockFrom(start, ops)
    requires ValidBuckets(p, m1, start) && ValidBuckets(p, m2, start) && Alike(p, m1, m2, start)
    ensures GrantedTo(p, staleDuration, m1, ops, k, s, t)
            == GrantedTo(p, staleDuration, m2, WithoutEvictions(ops), k, s, t)
    decreases ops
  {
    if ops != [] {
      var now := ops[0].now;
      AlikeLater(p, m1, m2, start, now);
      match ops[0]
      case OpAllow(_, key, n) =>
        AllowKeepsAlike(p, m1, m2, key, n, now);
        var r1, r2 := AllowN(p, m1, key, n, now).0, AllowN(p, m2, key, n, now).0;
        EvictionsKeepGrants(p, staleDuration, r1, r2, ops[1..], now, k, s, t);
        assert WithoutEvictions(ops)[1..] == WithoutEvictions(ops[1..]);
      case OpEvict(_) =>
        EvictKeepsAlike(p, staleDuration, m1, m2, now);
        EvictionsKeepGrants(p, staleDuration, EvictStaleKeys(m1, staleDuration, now), m2, ops[1..], now, k, s, t);
    }
  }

  // Without evictions, a key's grants are those of its one bucket.

  predicate NoEvictions(ops: seq<Op>) {
    forall op | op in ops :: op.OpAllow?
  }

  /** The requests that reach the bucket of k. */
  function RequestsOf(ops: seq<Op>, k: string): seq<Request> {
    if ops == [] then []
    else if ops[0].OpAllow? && ops[0].key == k && ops[0].n > 0
    then [Request(ops[0].now, ops[0].n)] + RequestsOf(ops[1..], k)
    else RequestsOf(ops[1..], k)
  }

  lemma {:induction false} WithoutEvictionsHasNone(ops: seq<Op>, start: int)
    requires OpsClockFrom(start, ops)
    ensures NoEvictions(WithoutEvictions(ops)) && OpsClockFrom(start, WithoutEvictions(ops))
    decreases ops
  {
    if ops != [] {
      WithoutEvictionsHasNone(ops[1..], ops[0].now);
      if ops[0].OpAllow? {
        assert WithoutEvictions(ops)[1..] == WithoutEvictions(ops[1..]);
      } else {
        OpsClockWeakens(start, ops[0].now, WithoutEvictions(ops[1..]));
      }
    }
  }

  lemma OpsClockWeakens(start: int, later: int, ops: seq<Op>)
    requires start <= later && OpsClockFrom(later, ops)
    ensures OpsClockFrom(start, ops)
  {
  }

  lemma {:induction false} RequestsOnClock(ops: seq<Op>, k: string, start: int)
    requires OpsClockFrom(start, ops)
    ensures ClockFrom(start, RequestsOf(ops, k))
    decreases ops
  {
    if ops != [] {
      RequestsOnClock(ops[1..], k, ops[0].now);
      if ops[0].OpAllow? && ops[0].key == k && ops[0].n > 0 {
        assert RequestsOf(ops, k)[1..] == RequestsOf(ops[1..], k);
      } else {
        ClockWeakens(start, ops[0].now, RequestsOf(ops[1..], k));
      }
    }
  }

  lemma {:induction false} GrantedToIsGranted(p: Params, staleDuration: int, m: Buckets, ops: seq<Op>, k: string,
                                              s: int, t: int)
    requires NoEvictions(ops) && k != "" && k in m
    ensures GrantedTo(p, staleDuration, m, ops, k, s, t) == Granted(p, m[k], RequestsOf(ops, k), s, t)
    decreases ops
  {
    if ops != [] {
      var op := ops[0];
      assert op in ops && NoEvictions(ops[1..]);
      GrantedToIsGranted(p, staleDuration, AllowN(p, m, op.key, op.n, op.now).0, ops[1..], k, s, t);
      if op.key == k && op.n > 0 {
        assert RequestsOf(ops, k)[1..] == RequestsOf(ops[1..], k);
      }
    }
  }

  /** A missing bucket counts as one created full at the key's first request. */
  lemma {:induction false} BoundWithoutEvictions(p: Params, staleDuration: int, m: Buckets, ops: seq<Op>, start: int,
                                                 k: string, s: int, t: int)
    requires ValidParams(p) && NoEvictions(ops) && OpsClockFrom(start, ops) && k !in m && s <= t
    ensures GrantedTo(p, staleDuration, m, ops, k, s, t) as real <= p.size as real + Accrued(p, t - s)
    decreases ops
  {
    if ops == [] || k == "" {
      AccruedGrows(p, t - s);
      if ops != [] {
        assert ops[0] in ops && NoEvictions(ops[1..]);
        BoundWithoutEvictions(p, staleDuration, AllowN(p, m, ops[0].key, ops[0].n, ops[0].now).0, ops[1..],
                              ops[0].now, k, s, t);
      }
    } else {
      var op := ops[0];
      assert op in ops && NoEvictions(ops[1..]);
      if op.key == k && op.n > 0 {
        var full := m[k := Fresh(p, op.now)];
        SameGrants(p, staleDuration, m, full, ops, k, s, t);
        GrantedToIsGranted(p, staleDuration, full, ops, k, s, t);
        OpsClockRestart(start, ops);
        RequestsOnClock(ops, k, op.now);
        BoundByAccrual(p, Fresh(p, op.now), RequestsOf(ops, k), s, t);
      } else {
        BoundWithoutEvictions(p, staleDuration, AllowN(p, m, op.key, op.n, op.now).0, ops[1..], op.now, k, s, t);
      }
    }
  }

  lemma OpsClockRestart(start: int, ops: seq<Op>)
    requires ops != [] && OpsClockFrom(start, ops)
    ensures OpsClockFrom(ops[0].now, ops)
  {
  }

  /** Creating the bucket beforehand makes no difference. */
  lemma SameGrants(p: Params, staleDuration: int, m: Buckets, full: Buckets, ops: seq<Op>, k: string, s: int, t: int)
    requires ops != [] && ops[0].OpAllow? && ops[0].key == k && k != "" && ops[0].n > 0
    requires k !in m && full == m[k := Fresh(p, ops[0].now)]
    ensures GrantedTo(p, staleDuration, m, ops, k, s, t) == GrantedTo(p, staleDuration, full, ops, k, s, t)
  {
    var b := Consume(p, Fresh(p, ops[0].now), ops[0].now, ops[0].n).0;
    assert m[k := b] == full[k := b];
  }

  // With a short stale duration, spending and evicting in turn exceeds the bound.

  /** Time passing before each eviction: enough for the bucket to be stale. */
  function Gap(staleDuration: int): nat {
    if staleDuration + 1 < 0 then 0 else staleDuration + 1
  }

  /** m times: wait, evict, and spend a whole bucket. */
  function Spree(p: Params, gap: nat, now: int, m: nat): seq<Op>
    decreases m
  {
    if m == 0 then []
    else [OpEvict(now + gap)] + ([OpAllow(now + gap, "k", p.size)] + Spree(p, gap, now + gap, m - 1))
  }

  function Span(gap: nat, m: nat): nat {
    if m == 0 then 0 else gap + Span(gap, m - 1)
  }

  lemma SpreeStep(p: Params, staleDuration: int, now: int, m: nat, s: int, t: int)
    requires ValidParams(p) && m > 0
    ensures var gap := Gap(staleDuration);
            var later := now + gap;
            GrantedTo(p, staleDuration, map["k" := Bucket(0, now)], Spree(p, gap, now, m), "k", s, t)
            == (if s < later <= t then p.size else 0)
               + GrantedTo(p, staleDuration, map["k" := Bucket(0, later)], Spree(p, gap, later, m - 1), "k", s, t)
  {
    var gap := Gap(staleDuration);
    var later := now + gap;
    var rest := Spree(p, gap, later, m - 1);
    var spend := [OpAllow(later, "k", p.size)] + rest;
    var ops := Spree(p, gap, now, m);
    assert ops[0] == OpEvict(later) && ops[1..] == spend && spend[1..] == rest;
    assert EvictStaleKeys(map["k" := Bucket(0, now)], staleDuration, later) == map[];
    SpendFresh(p, later);
    assert GrantedTo(p, staleDuration, map[], spend, "k", s, t)
           == (if s < later <= t then p.size else 0)
              + GrantedTo(p, staleDuration, map["k" := Bucket(0, later)], rest, "k", s, t);
  }

  lemma SpendFresh(p: Params, now: int)
    requires ValidParams(p)
    ensures AllowN(p, map[], "k", p.size, now) == (map["k" := Bucket(0, now)], true)
  {
    assert Accrued(p, now - now) == 0.0;
  }

  lemma {:induction false} SpreeGrants(p: Params, staleDuration: int, now: int, m: nat, s: int, t: int)
    requires ValidParams(p) && s < now && now + Span(Gap(staleDuration), m) <= t
    ensures var gap := Gap(staleDuration);
            var granted := GrantedTo(p, staleDuration, map["k" := Bucket(0, now)], Spree(p, gap, now, m), "k", s, t);
            granted as real == Accrued(p, Span(gap, m)) + Total(m, p.size as real - Accrued(p, gap))
    decreases m
  {
    var gap := Gap(staleDuration);
    if m == 0 {
      assert Accrued(p, 0) == 0.0;
    } else {
      SpreeStep(p, staleDuration, now, m, s, t);
      SpreeGrants(p, staleDuration, now + gap, m - 1, s, t);
      SpreeSum(p, gap, m);
      assert s < now + gap <= t;
    }
  }

  /** Each round adds a bucket's worth. */
  lemma SpreeSum(p: Params, gap: nat, m: nat)
    requires m > 0
    ensures var step := p.size as real - Accrued(p, gap);
            Accrued(p, Span(gap, m)) + Total(m, step)
            == p.size as real + (Accrued(p, Span(gap, m - 1)) + Total(m - 1, step))
  {
    AccruedAdds(p, gap, Span(gap, m - 1));
  }

  lemma {:induction false} SpreeOnClock(p: Params, gap: nat, now: int, m: nat)
    ensures OpsClockFrom(now, Spree(p, gap, now, m))
    decreases m
  {
    if m > 0 {
      SpreeOnClock(p, gap, now + gap, m - 1);
      var ops := Spree(p, gap, now, m);
      assert ops[1..][1..] == Spree(p, gap, now + gap, m - 1);
      assert ops[1..] == [OpAllow(now + gap, "k", p.size)] + Spree(p, gap, now + gap, m - 1);
    }
  }

  /** At most the bucket size and the rate times the length of the window in seconds. */
  predicate AtMostRate(p: Params, granted: int, s: int, t: int) {
    granted as real <= p.size as real + p.rate * ((t - s) as real / 1_000_000_000.0)
  }

  lemma AtMostRateIff(p: Params, granted: int, s: int, t: int)
    ensures AtMostRate(p, granted, s, t) <==> granted as real <= p.size as real + Accrued(p, t - s)
  {
    AccruedIs(p, t - s);
  }

  /** The key keeps the bound in this window of the run, which starts without buckets. */
  predicate WithinBound(p: Params, staleDuration: int, ops: seq<Op>, k: string, s: int, t: int) {
    AtMostRate(p, GrantedTo(p, staleDuration, map[], ops, k, s, t), s, t)
  }

  /** A run that grants a key more than the bound allows. */
  lemma SpreeExceedsBound(p: Params, staleDuration: int) returns (ops: seq<Op>, t: int)
    requires ValidParams(p) && !LongEnough(p, staleDuration)
    ensures OpsClockFrom(0, ops) && t >= 0 && !WithinBound(p, staleDuration, ops, "k", -1, t)
  {
    var gap := Gap(staleDuration);
    GapIsShort(p, staleDuration);
    OneAccrues(p);
    var m := Archimedes(p.size as real - Accrued(p, gap), Accrued(p, 1));
    var spree := Spree(p, gap, 0, m);
    ops := [OpAllow(0, "k", p.size)] + spree;
    t := Span(gap, m);
    assert ops[1..] == spree;
    SpreeOnClock(p, gap, 0, m);
    SpendFresh(p, 0);
    SpreeGrants(p, staleDuration, 0, m, -1, t);
    AccruedAdds(p, t, 1);
    AtMostRateIff(p, GrantedTo(p, staleDuration, map[], ops, "k", -1, t), -1, t);
  }

  lemma GapIsShort(p: Params, staleDuration: int)
    requires ValidParams(p) && !LongEnough(p, staleDuration)
    ensures Accrued(p, Gap(staleDuration)) < p.size as real
  {
    assert Accrued(p, 0) == 0.0;
  }

  lemma OneAccrues(p: Params)
    requires ValidParams(p)
    ensures Accrued(p, 1) > 0.0
  {
  }

  lemma KeepsBound(p: Params, staleDuration: int, ops: seq<Op>, k: string, s: int, t: int)
    requires ValidParams(p) && LongEnough(p, staleDuration) && OpsClockFrom(0, ops) && s <= t
    ensures WithinBound(p, staleDuration, ops, k, s, t)
  {
    EvictionsKeepGrants(p, staleDuration, map[], map[], ops, 0, k, s, t);
    WithoutEvictionsHasNone(ops, 0);
    BoundWithoutEvictions(p, staleDuration, map[], WithoutEvictions(ops), 0, k, s, t);
    AtMostRateIff(p, GrantedTo(p, staleDuration, map[], ops, k, s, t), s, t);
  }

  /** Every key keeps the rate bound in every window of every run, evictions included, exactly when a bucket fills up in
      the stale duration and one nanosecond more. */
  lemma EveryKeyKeepsBoundIff(p: Params, staleDuration: int)
    requires ValidParams(p)
    ensures LongEnough(p, staleDuration) <==>
            forall ops, k, s, t :: OpsClockFrom(0, ops) && s <= t ==> WithinBound(p, staleDuration, ops, k, s, t)
  {
    if LongEnough(p, staleDuration) {
      forall ops, k, s, t | OpsClockFrom(0, ops) && s <= t ensures WithinBound(p, staleDuration, ops, k, s, t) {
        KeepsBound(p, staleDuration, ops, k, s, t);
      }
    } else {
      var ops, t := SpreeExceedsBound(p, staleDuration);
      assert OpsClockFrom(0, ops) && -1 <= t && !WithinBound(p, staleDuration, ops, "k", -1, t);
    }
  }
}
