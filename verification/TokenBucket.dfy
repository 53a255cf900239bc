/** The token bucket: truncating lazy refill with a cap, a rate bound over every window, and when evicting idle
    buckets can be observed. Times are in nanoseconds; the refill rate is in tokens per second. */
module TokenBuckets {
  import opened Numbers

  const SECOND: real := 1_000_000_000.0

  datatype Params = Params(rate: real, size: int)

  predicate ValidParams(p: Params) {
    p.rate > 0.0 && p.size > 0
  }

  datatype Bucket = Bucket(tokens: int, lastRefill: int)

  /** What accrues, before truncation, in a stretch of time. */
  function Accrued(p: Params, elapsed: int): real {
    p.rate * (elapsed as real / SECOND)
  }

  function Available(p: Params, b: Bucket, now: int): int {
    var n := b.tokens + Truncate(Accrued(p, now - b.lastRefill));
    if n > p.size then p.size else n
  }

  /** tryConsume; a refused call writes nothing, so the fraction that has accrued is kept. */
  function Consume(p: Params, b: Bucket, now: int, n: int): (Bucket, bool) {
    var have := Available(p, b, now);
    if have < n then (b, false) else (Bucket(have - n, now), true)
  }

  predicate ValidBucket(p: Params, b: Bucket) {
    0 <= b.tokens <= p.size
  }

  lemma ConsumeKeepsValid(p: Params, b: Bucket, now: int, n: int)
    requires ValidParams(p) && ValidBucket(p, b) && n >= 0
    ensures ValidBucket(p, Consume(p, b, now, n).0)
    ensures Consume(p, b, now, n).1 && b.lastRefill <= now ==> n <= p.size
  {
  }

  // The rate bound.

  datatype Request = Request(now: int, n: nat)

  predicate ClockFrom(start: int, reqs: seq<Request>)
    decreases reqs
  {
    reqs != [] ==> start <= reqs[0].now && ClockFrom(reqs[0].now, reqs[1..])
  }

  /** Tokens granted to requests made after s and no later than t. */
  function Granted(p: Params, b: Bucket, reqs: seq<Request>, s: int, t: int): int
    decreases reqs
  {
    if reqs == [] then 0 else
      var r := reqs[0];
      var (after, ok) := Consume(p, b, r.now, r.n);
      (if ok && s < r.now <= t then r.n else 0) + Granted(p, after, reqs[1..], s, t)
  }

  /** An upper bound for what the bucket can hand out at time u. */
  function Potential(p: Params, b: Bucket, u: int): real {
    var x := b.tokens as real + Accrued(p, u - b.lastRefill);
    if x > p.size as real then p.size as real else x
  }

  lemma AccruedAdds(p: Params, a: int, b: int)
    ensures Accrued(p, a + b) == Accrued(p, a) + Accrued(p, b)
  {
    assert (a + b) as real / SECOND == a as real / SECOND + b as real / SECOND;
  }

  lemma AccruedGrows(p: Params, a: int)
    requires ValidParams(p) && a >= 0
    ensures Accrued(p, a) >= 0.0
  {
  }

  lemma ClockWeakens(start: int, later: int, reqs: seq<Request>)
    requires start <= later && ClockFrom(later, reqs)
    ensures ClockFrom(start, reqs)
  {
  }

  lemma {:induction false} NothingAfterWindow(p: Params, b: Bucket, reqs: seq<Request>, s: int, t: int, start: int)
    requires ClockFrom(start, reqs) && t < start
    ensures Granted(p, b, reqs, s, t) == 0
    decreases reqs
  {
    if reqs != [] {
      NothingAfterWindow(p, Consume(p, b, reqs[0].now, reqs[0].n).0, reqs[1..], s, t, reqs[0].now);
    }
  }

  /** A grant of n at time u lowers the potential at any later time by n, counted from any earlier time m. */
  lemma GrantSpendsPotential(p: Params, b: Bucket, u: int, n: nat, m: int, v: int)
    requires ValidParams(p) && b.lastRefill <= u && Consume(p, b, u, n).1
    requires b.lastRefill <= m && u <= v && m <= v
    ensures m <= u ==> Potential(p, Consume(p, b, u, n).0, v) + n as real <= Potential(p, b, m) + Accrued(p, v - m)
    ensures Potential(p, Consume(p, b, u, n).0, v) <= Potential(p, b, v)
  {
    var w := u - b.lastRefill;
    AccruedGrows(p, w);
    AccruedGrows(p, v - u);
    AccruedGrows(p, v - m);
    AccruedAdds(p, w, v - u);
    AccruedAdds(p, m - b.lastRefill, v - m);
    if m <= u {
      AccruedGrows(p, u - m);
      AccruedAdds(p, u - m, v - u);
    }
  }

  lemma {:induction false} GrantedIsBounded(p: Params, b: Bucket, reqs: seq<Request>, s: int, t: int)
    requires ValidParams(p) && ValidBucket(p, b) && ClockFrom(b.lastRefill, reqs)
    requires s <= t && b.lastRefill <= t
    ensures var m := if s < b.lastRefill then b.lastRefill else s;
            Granted(p, b, reqs, s, t) as real <= Potential(p, b, m) + Accrued(p, t - m)
    decreases reqs
  {
    var m := if s < b.lastRefill then b.lastRefill else s;
    AccruedGrows(p, m - b.lastRefill);
    AccruedGrows(p, t - m);
    if reqs != [] {
      var r := reqs[0];
      var (after, ok) := Consume(p, b, r.now, r.n);
      if t < r.now {
        NothingAfterWindow(p, b, reqs, s, t, r.now);
      } else if !ok {
        ClockWeakens(b.lastRefill, r.now, reqs[1..]);
        GrantedIsBounded(p, b, reqs[1..], s, t);
      } else {
        ConsumeKeepsValid(p, b, r.now, r.n);
        GrantedIsBounded(p, after, reqs[1..], s, t);
        if r.now <= s {
          GrantSpendsPotential(p, b, r.now, r.n, m, s);
        } else {
          GrantSpendsPotential(p, b, r.now, r.n, m, r.now);
          AccruedAdds(p, r.now - m, t - r.now);
        }
      }
    }
  }

  /** What accrues in t nanoseconds: the rate times that many billionths. */
  lemma AccruedIs(p: Params, t: int)
    ensures Accrued(p, t) == p.rate * (t as real / 1_000_000_000.0)
  {
  }

  lemma BoundByAccrual(p: Params, b: Bucket, reqs: seq<Request>, s: int, t: int)
    requires ValidParams(p) && ValidBucket(p, b) && ClockFrom(b.lastRefill, reqs) && s <= t
    ensures Granted(p, b, reqs, s, t) as real <= p.size as real + Accrued(p, t - s)
  {
    AccruedGrows(p, t - s);
    if t < b.lastRefill {
      NothingAfterWindow(p, b, reqs, s, t, b.lastRefill);
    } else {
      GrantedIsBounded(p, b, reqs, s, t);
      if s < b.lastRefill {
        AccruedGrows(p, b.lastRefill - s);
        AccruedAdds(p, b.lastRefill - s, t - b.lastRefill);
      }
    }
  }

  /** Under a clock that never goes back, the tokens granted in any window (s, t] are at most the bucket size plus the
      rate times the length of the window in seconds. */
  lemma RateBound(p: Params, b: Bucket, reqs: seq<Request>, s: int, t: int)
    requires ValidParams(p) && ValidBucket(p, b) && ClockFrom(b.lastRefill, reqs) && s <= t
    ensures Granted(p, b, reqs, s, t) as real <= p.size as real + p.rate * ((t - s) as real / 1_000_000_000.0)
  {
    BoundByAccrual(p, b, reqs, s, t);
    AccruedIs(p, t - s);
  }

  /** The whole decision: n tokens are granted exactly when the bucket is that large and what has to be added to the
      tokens left has accrued since the last grant; only whole tokens are added, and a clock that went back takes whole
      tokens off. */
  lemma GrantedIff(p: Params, b: Bucket, now: int, n: int)
    ensures Consume(p, b, now, n).1 <==>
              && n <= p.size
              && var accrued, missing := p.rate * ((now - b.lastRefill) as real / 1_000_000_000.0), n - b.tokens;
                 if accrued >= 0.0 then missing as real <= accrued else missing as real < accrued + 1.0
  {
    AccruedIs(p, now - b.lastRefill);
    TruncateTowardZero(Accrued(p, now - b.lastRefill));
  }

  /** What a grant leaves: less than one token is lost to truncation, and what exceeds the bucket. */
  lemma GrantLeaves(p: Params, b: Bucket, now: int, n: int)
    requires ValidParams(p) && ValidBucket(p, b) && b.lastRefill <= now && Consume(p, b, now, n).1
    ensures var left := Consume(p, b, now, n).0;
            var accrued := p.rate * ((now - b.lastRefill) as real / 1_000_000_000.0);
            && left.lastRefill == now
            && if b.tokens as real + accrued >= (p.size + 1) as real then left.tokens + n == p.size
               else left.tokens + n <= p.size &&
                    (left.tokens + n) as real <= b.tokens as real + accrued < (left.tokens + n + 1) as real
  {
    AccruedIs(p, now - b.lastRefill);
    AccruedGrows(p, now - b.lastRefill);
    TruncateTowardZero(Accrued(p, now - b.lastRefill));
  }

  /** The other side: a request within the bucket size is granted once its tokens have accrued since the last grant. */
  lemma GrantedAfterWaiting(p: Params, b: Bucket, now: int, n: nat)
    requires ValidParams(p) && ValidBucket(p, b) && n <= p.size
    requires p.rate * ((now - b.lastRefill) as real / 1_000_000_000.0) >= n as real
    ensures Consume(p, b, now, n).1
  {
    GrantedIff(p, b, now, n);
  }

  /** The bucket after a run of requests. */
  function After(p: Params, b: Bucket, reqs: seq<Request>): Bucket
    decreases reqs
  {
    if reqs == [] then b else After(p, Consume(p, b, reqs[0].now, reqs[0].n).0, reqs[1..])
  }

  /** Asking in vain costs nothing: however many requests are refused in between, one is granted as soon as its tokens
      have accrued since the last grant. */
  lemma {:induction false} RefusalsDoNotDelay(p: Params, b: Bucket, reqs: seq<Request>, now: int, n: nat)
    requires ValidParams(p) && ValidBucket(p, b) && n <= p.size
    requires ClockFrom(b.lastRefill, reqs + [Request(now, n)])
    requires forall r :: r in reqs ==> r.n > 0
    requires Granted(p, b, reqs, b.lastRefill - 1, now) == 0
    requires p.rate * ((now - b.lastRefill) as real / 1_000_000_000.0) >= n as real
    ensures Consume(p, After(p, b, reqs), now, n).1
    decreases reqs
  {
    if reqs == [] {
      GrantedAfterWaiting(p, b, now, n);
    } else {
      var r, rest := reqs[0], reqs[1..];
      assert (reqs + [Request(now, n)])[1..] == rest + [Request(now, n)];
      ClockEnds(r.now, rest, Request(now, n));
      GrantedIsNonNegative(p, Consume(p, b, r.now, r.n).0, rest, b.lastRefill - 1, now);
      assert r in reqs;
      ClockWeakens(b.lastRefill, r.now, rest + [Request(now, n)]);
      RefusalsDoNotDelay(p, b, rest, now, n);
    }
  }

  lemma {:induction false} ClockEnds(start: int, reqs: seq<Request>, last: Request)
    requires ClockFrom(start, reqs + [last])
    ensures start <= last.now
    decreases reqs
  {
    if reqs != [] {
      assert (reqs + [last])[1..] == reqs[1..] + [last];
      ClockEnds(reqs[0].now, reqs[1..], last);
    }
  }

  lemma {:induction false} GrantedIsNonNegative(p: Params, b: Bucket, reqs: seq<Request>, s: int, t: int)
    ensures Granted(p, b, reqs, s, t) >= 0
    decreases reqs
  {
    if reqs != [] {
      GrantedIsNonNegative(p, Consume(p, b, reqs[0].now, reqs[0].n).0, reqs[1..], s, t);
    }
  }

  // Eviction of stale buckets.

  type Buckets = map<string, Bucket>

  function Fresh(p: Params, now: int): Bucket {
    Bucket(p.size, now)
  }

  function BucketFor(p: Params, m: Buckets, key: string, now: int): Bucket {
    if key in m then m[key] else Fresh(p, now)
  }

  /** AllowN; Allow is AllowN of one. */
  function AllowN(p: Params, m: Buckets, key: string, n: int, now: int): (Buckets, bool) {
    if key == "" || n <= 0 then (m, false) else
      var (b, ok) := Consume(p, BucketFor(p, m, key, now), now, n);
      (m[key := b], ok)
  }

  function EvictStaleKeys(m: Buckets, staleDuration: int, now: int): Buckets {
    map k | k in m && !(m[k].lastRefill < now - staleDuration) :: m[k]
  }

  datatype Op = OpAllow(now: int, key: string, n: int) | OpEvict(now: int)

  /** The answers of a run in which every eviction uses the given stale duration. */
  function Answers(p: Params, staleDuration: int, m: Buckets, ops: seq<Op>): seq<bool>
    decreases ops
  {
    if ops == [] then []
    else match ops[0]
      case OpAllow(now, key, n) =>
        var (m', ok) := AllowN(p, m, key, n, now);
        [ok] + Answers(p, staleDuration, m', ops[1..])
      case OpEvict(now) => Answers(p, staleDuration, EvictStaleKeys(m, staleDuration, now), ops[1..])
  }

  function WithoutEvictions(ops: seq<Op>): seq<Op> {
    if ops == [] then []
    else if ops[0].OpEvict? then WithoutEvictions(ops[1..])
    else [ops[0]] + WithoutEvictions(ops[1..])
  }

  predicate OpsClockFrom(start: int, ops: seq<Op>)
    decreases ops
  {
    ops != [] ==> start <= ops[0].now && OpsClockFrom(ops[0].now, ops[1..])
  }

  /** Full again, whatever was last left in it: a missing bucket would be created full. */
  predicate FullAt(p: Params, m: Buckets, k: string, now: int) {
    k in m ==> Available(p, m[k], now) == p.size
  }

  ghost predicate ValidBuckets(p: Params, m: Buckets, now: int) {
    forall k | k in m :: ValidBucket(p, m[k]) && m[k].lastRefill <= now
  }

  ghost predicate Alike(p: Params, m1: Buckets, m2: Buckets, now: int) {
    forall k | k in m1.Keys + m2.Keys ::
      (k in m1 && k in m2 && m1[k] == m2[k]) || (FullAt(p, m1, k, now) && FullAt(p, m2, k, now))
  }

  /** Every key has its own bucket, full when it is first seen. */
  lemma AllowedIff(p: Params, m: Buckets, key: string, n: int, now: int)
    requires ValidParams(p) && ValidBuckets(p, m, now)
    ensures AllowN(p, m, key, n, now).1 ==
            (key != "" && 1 <= n <= p.size &&
             (key in m ==> (n - m[key].tokens) as real
                           <= p.rate * ((now - m[key].lastRefill) as real / 1_000_000_000.0)))
  {
    if key in m {
      GrantedOnTime(p, m[key], now, n);
    } else {
      FreshIsFull(p, now);
    }
  }

  lemma GrantedOnTime(p: Params, b: Bucket, now: int, n: int)
    requires ValidParams(p) && b.lastRefill <= now
    ensures Consume(p, b, now, n).1 <==>
              n <= p.size && (n - b.tokens) as real <= p.rate * ((now - b.lastRefill) as real / 1_000_000_000.0)
  {
    GrantedIff(p, b, now, n);
    AccruedIs(p, now - b.lastRefill);
    AccruedGrows(p, now - b.lastRefill);
  }

  /** A request costs no other key anything, and a refused one not even its own. */
  lemma AllowedTouchesItsKey(p: Params, m: Buckets, key: string, n: int, now: int)
    ensures var (after, ok) := AllowN(p, m, key, n, now);
            && after.Keys == (if key == "" || n <= 0 then m.Keys else m.Keys + {key})
            && (forall k | k in m && (k != key || !ok) :: after[k] == m[k])
            && (ok ==> after[key].lastRefill == now)
            && (key !in m && key in after ==> after[key] == Bucket(if ok then p.size - n else p.size, now))
  {
    FreshIsFull(p, now);
  }

  lemma StaysFull(p: Params, m: Buckets, k: string, now: int, later: int)
    requires ValidParams(p) && ValidBuckets(p, m, now) && now <= later && FullAt(p, m, k, now)
    ensures FullAt(p, m, k, later)
  {
    if k in m {
      AccruedAdds(p, now - m[k].lastRefill, later - now);
      AccruedGrows(p, later - now);
      AccruedGrows(p, now - m[k].lastRefill);
    }
  }

  lemma AlikeLater(p: Params, m1: Buckets, m2: Buckets, now: int, later: int)
    requires ValidParams(p) && ValidBuckets(p, m1, now) && ValidBuckets(p, m2, now) && now <= later
    requires Alike(p, m1, m2, now)
    ensures Alike(p, m1, m2, later)
  {
    forall k | k in m1.Keys + m2.Keys && FullAt(p, m1, k, now) && FullAt(p, m2, k, now)
      ensures FullAt(p, m1, k, later) && FullAt(p, m2, k, later)
    {
      StaysFull(p, m1, k, now, later);
      StaysFull(p, m2, k, now, later);
    }
  }

  lemma AllowKeepsAlike(p: Params, m1: Buckets, m2: Buckets, key: string, n: int, now: int)
    requires ValidParams(p) && ValidBuckets(p, m1, now) && ValidBuckets(p, m2, now) && Alike(p, m1, m2, now)
    ensures var (r1, ok1) := AllowN(p, m1, key, n, now);
            var (r2, ok2) := AllowN(p, m2, key, n, now);
            ok1 == ok2 && ValidBuckets(p, r1, now) && ValidBuckets(p, r2, now) && Alike(p, r1, r2, now)
  {
    if key != "" && n > 0 {
      var b1, b2 := BucketFor(p, m1, key, now), BucketFor(p, m2, key, now);
      FreshIsFull(p, now);
      ConsumeKeepsValid(p, b1, now, n);
      ConsumeKeepsValid(p, b2, now, n);
      assert key in m1.Keys + m2.Keys || (key !in m1 && key !in m2);
      BucketsAlike(p, b1, b2, now, n);
    }
  }

  lemma FreshIsFull(p: Params, now: int)
    ensures Available(p, Fresh(p, now), now) == p.size
  {
  }

  /** Equal buckets, and full ones, answer alike; a grant makes them equal. */
  lemma BucketsAlike(p: Params, b1: Bucket, b2: Bucket, now: int, n: int)
    requires b1 == b2 || Available(p, b1, now) == Available(p, b2, now) == p.size
    ensures var (r1, ok1), (r2, ok2) := Consume(p, b1, now, n), Consume(p, b2, now, n);
            ok1 == ok2 && (if ok1 then r1 == r2 else r1 == b1 && r2 == b2)
  {
  }

  /** The condition: whatever is idle for longer than the stale duration has filled up. */
  predicate LongEnough(p: Params, staleDuration: int) {
    p.rate * ((staleDuration + 1) as real / 1_000_000_000.0) >= p.size as real
  }

  lemma IdleFills(p: Params, staleDuration: int, idle: int)
    requires ValidParams(p) && LongEnough(p, staleDuration) && idle > staleDuration
    ensures Truncate(Accrued(p, idle)) >= p.size
  {
    AccruedIs(p, staleDuration + 1);
    AccruedAdds(p, staleDuration + 1, idle - (staleDuration + 1));
    AccruedGrows(p, idle - (staleDuration + 1));
    TruncateTowardZero(Accrued(p, idle));
  }

  lemma EvictKeepsAlike(p: Params, staleDuration: int, m1: Buckets, m2: Buckets, now: int)
    requires ValidParams(p) && LongEnough(p, staleDuration)
    requires ValidBuckets(p, m1, now) && ValidBuckets(p, m2, now) && Alike(p, m1, m2, now)
    ensures ValidBuckets(p, EvictStaleKeys(m1, staleDuration, now), now)
    ensures Alike(p, EvictStaleKeys(m1, staleDuration, now), m2, now)
  {
    forall k | k in m1 && m1[k].lastRefill < now - staleDuration ensures FullAt(p, m1, k, now) {
      IdleFills(p, staleDuration, now - m1[k].lastRefill);
    }
  }

  lemma {:induction false} EvictionsDoNotShow(p: Params, staleDuration: int, m1: Buckets, m2: Buckets, ops: seq<Op>,
                                              start: int)
    requires ValidParams(p) && LongEnough(p, staleDuration) && OpsClockFrom(start, ops)
    requires ValidBuckets(p, m1, start) && ValidBuckets(p, m2, start) && Alike(p, m1, m2, start)
    ensures Answers(p, staleDuration, m1, ops) == Answers(p, staleDuration, m2, WithoutEvictions(ops))
    decreases ops
  {
    if ops != [] {
      var now := ops[0].now;
      AlikeLater(p, m1, m2, start, now);
      match ops[0]
      case OpAllow(_, key, n) =>
        AllowKeepsAlike(p, m1, m2, key, n, now);
        EvictionsDoNotShow(p, staleDuration, AllowN(p, m1, key, n, now).0, AllowN(p, m2, key, n, now).0, ops[1..], now);
        assert WithoutEvictions(ops)[1..] == WithoutEvictions(ops[1..]);
      case OpEvict(_) =>
        EvictKeepsAlike(p, staleDuration, m1, m2, now);
        EvictionsDoNotShow(p, staleDuration, EvictStaleKeys(m1, staleDuration, now), m2, ops[1..], now);
    }
  }

  /** A run in which eviction refills a bucket early, when the stale duration is too short. */
  lemma ShortStaleDurationShows(p: Params, staleDuration: int) returns (ops: seq<Op>)
    requires ValidParams(p) && !LongEnough(p, staleDuration)
    ensures OpsClockFrom(0, ops)
    ensures Answers(p, staleDuration, map[], ops) != Answers(p, staleDuration, map[], WithoutEvictions(ops))
  {
    var later := if staleDuration + 1 < 0 then 0 else staleDuration + 1;
    var spend, evict, ask := OpAllow(0, "k", p.size), OpEvict(later), OpAllow(later, "k", p.size);
    ops := [spend, evict, ask];
    assert ops[1..] == [evict, ask] && ops[1..][1..] == [ask] && [ask][1..] == [];
    var empty := map["k" := Bucket(0, 0)];
    assert AllowN(p, map[], "k", p.size, 0) == (empty, true);
    AccruedGrows(p, later);
    assert Available(p, Bucket(0, 0), later) < p.size;
    assert EvictStaleKeys(empty, staleDuration, later) == map[];
    assert Available(p, Fresh(p, later), later) == p.size;
    assert Answers(p, staleDuration, map[], [ask]) == [true];
    assert Answers(p, staleDuration, empty, [evict, ask]) == [true];
    assert Answers(p, staleDuration, empty, [ask]) == [false];
    assert WithoutEvictions([ask]) == [ask];
    assert WithoutEvictions([evict, ask]) == [ask];
    assert WithoutEvictions(ops) == [spend, ask];
    assert [spend, ask][1..] == [ask];
    assert OpsClockFrom(later, [ask]) && OpsClockFrom(0, [evict, ask]);
    assert Answers(p, staleDuration, map[], ops) == [true] + Answers(p, staleDuration, empty, [evict, ask]);
    assert Answers(p, staleDuration, map[], [spend, ask]) == [true] + Answers(p, staleDuration, empty, [ask]);
    assert ([true] + [true])[1] != ([true] + [false])[1];
  }

  /** From an empty limiter, the run answers as it would without its evictions. */
  predicate EvictionsHidden(p: Params, staleDuration: int, ops: seq<Op>) {
    Answers(p, staleDuration, map[], ops) == Answers(p, staleDuration, map[], WithoutEvictions(ops))
  }

  /** Evicting stale buckets changes no answer of any run exactly when a bucket fills up in the stale duration and one
      nanosecond more. */
  lemma EvictionIsUnobservableIff(p: Params, staleDuration: int)
    requires ValidParams(p)
    ensures LongEnough(p, staleDuration) <==>
            forall ops :: OpsClockFrom(0, ops) ==> EvictionsHidden(p, staleDuration, ops)
  {
    if LongEnough(p, staleDuration) {
      forall ops | OpsClockFrom(0, ops) ensures EvictionsHidden(p, staleDuration, ops) {
        EvictionsDoNotShow(p, staleDuration, map[], map[], ops, 0);
      }
    } else {
      var ops := ShortStaleDurationShows(p, staleDuration);
      assert OpsClockFrom(0, ops) && !EvictionsHidden(p, staleDuration, ops);
    }
  }
}

/** The limiter as the program keeps it: bucket objects updated in place in a map that grows on demand. Calls run one
    at a time, so the compare-and-swap succeeds at its first attempt. */
module RateLimiter {
  import opened Numbers
  import opened TokenBuckets

  class BucketCell {
    var tokens: int
    var lastRefill: int
    const params: Params

    function View(): Bucket
      reads this
    {
      Bucket(tokens, lastRefill)
    }

    constructor (params: Params, now: int)
      ensures View() == Fresh(params, now) && this.params == params
    {
      this.params := params;
      tokens, lastRefill := params.size, now;
    }

    method TryConsume(n: int, now: int) returns (ok: bool)
      modifies this
      ensures (View(), ok) == Consume(params, old(View()), now, n)
    {
      var elapsed := now - lastRefill;
      var tokensToAdd := Truncate(Accrued(params, elapsed));
      var newTokens := tokens + tokensToAdd;
      if newTokens > params.size {
        newTokens := params.size;
      }
      if newTokens < n {
        return false;
      }
      tokens := newTokens - n;
      lastRefill := now;
      return true;
    }
  }

  class TokenBucket {
    const params: Params
    var buckets: map<string, BucketCell>
    const globalBucket: BucketCell

    ghost function Cells(): set<BucketCell>
      reads this
    {
      set k | k in buckets :: buckets[k]
    }

    ghost predicate Valid()
      reads this, Cells()
    {
      && (forall k | k in buckets :: buckets[k].params == params && buckets[k] != globalBucket)
      && (forall j, k | j in buckets && k in buckets && buckets[j] == buckets[k] :: j == k)
      && globalBucket.params == params
    }

    ghost function View(): Buckets
      reads this, Cells()
    {
      map k | k in buckets :: buckets[k].View()
    }

    constructor (rate: real, size: int, now: int)
      requires rate > 0.0 && size > 0
      ensures Valid() && View() == map[] && params == Params(rate, size)
      ensures fresh(globalBucket) && globalBucket.View() == Fresh(params, now)
    {
      params := Params(rate, size);
      buckets := map[];
      globalBucket := new BucketCell(Params(rate, size), now);
    }

    method GetOrCreateBucket(key: string, now: int) returns (b: BucketCell)
      requires Valid()
      modifies this`buckets
      ensures Valid() && key in buckets && buckets[key] == b
      ensures View() == old(View())[key := BucketFor(params, old(View()), key, now)]
      ensures fresh(Cells() - old(Cells()))
      ensures forall k | k in old(buckets) :: k in buckets && buckets[k] == old(buckets[k])
    {
      if key in buckets {
        return buckets[key];
      }
      b := new BucketCell(params, now);
      buckets := buckets[key := b];
    }

    method ConsumeFrom(b: BucketCell, ghost key: string, n: int, now: int) returns (ok: bool)
      requires Valid() && key in buckets && buckets[key] == b
      modifies b
      ensures Valid()
      ensures ok == Consume(params, old(View())[key], now, n).1
      ensures View() == old(View())[key := Consume(params, old(View())[key], now, n).0]
    {
      ok := b.TryConsume(n, now);
    }

    method AllowN(key: string, n: int, now: int) returns (ok: bool)
      requires Valid()
      modifies this`buckets, Cells()
      ensures Valid()
      ensures (View(), ok) == TokenBuckets.AllowN(params, old(View()), key, n, now)
    {
      if key == "" || n <= 0 {
        return false;
      }
      var b := GetOrCreateBucket(key, now);
      ok := ConsumeFrom(b, key, n, now);
      Overwrite(old(View()), key, BucketFor(params, old(View()), key, now), buckets[key].View());
    }

    method Allow(key: string, now: int) returns (ok: bool)
      requires Valid()
      modifies this`buckets, Cells()
      ensures Valid()
      ensures (View(), ok) == TokenBuckets.AllowN(params, old(View()), key, 1, now)
    {
      if key == "" {
        return false;
      }
      var b := GetOrCreateBucket(key, now);
      ok := ConsumeFrom(b, key, 1, now);
      Overwrite(old(View()), key, BucketFor(params, old(View()), key, now), buckets[key].View());
    }

    method AllowGlobal(now: int) returns (ok: bool)
      requires Valid()
      modifies globalBucket
      ensures Valid() && View() == old(View())
      ensures (globalBucket.View(), ok) == Consume(params, old(globalBucket.View()), now, 1)
    {
      ok := globalBucket.TryConsume(1, now);
    }

    method EvictStaleKeys(staleDuration: int, now: int) returns (evicted: nat)
      requires Valid()
      modifies this`buckets
      ensures Valid() && Cells() <= old(Cells())
      ensures View() == TokenBuckets.EvictStaleKeys(old(View()), staleDuration, now)
      ensures evicted == |old(buckets)| - |buckets|
    {
      var staleThreshold := now - staleDuration;
      evicted := 0;
      var rest := buckets.Keys;
      ghost var all, stale := buckets, set k | k in View() && View()[k].lastRefill < staleThreshold;
      while rest != {}
        invariant rest <= all.Keys
        invariant Swept(all, buckets, stale, rest)
        invariant evicted == |all| - |buckets|
        decreases |rest|
      {
        var key :| key in rest;
        SweepKey(all, buckets, stale, rest, key);
        rest := rest - {key};
        assert key in stale <==> buckets[key].lastRefill < staleThreshold;
        if buckets[key].lastRefill < staleThreshold {
          OneFewer(buckets, key);
          buckets := buckets - {key};
          evicted := evicted + 1;
        }
      }
      SweptCells(all, buckets, stale);
      assert forall k | k in buckets :: buckets[k].View() == old(View())[k];
    }
  }

  lemma SweptCells(all: map<string, BucketCell>, left: map<string, BucketCell>, stale: set<string>)
    requires Swept(all, left, stale, {})
    ensures (set k | k in left :: left[k]) <= (set k | k in all :: all[k])
    ensures left.Keys == all.Keys - stale
  {
  }

  lemma SweepKey(all: map<string, BucketCell>, left: map<string, BucketCell>, stale: set<string>, rest: set<string>,
                 k: string)
    requires Swept(all, left, stale, rest) && k in rest && k in all
    ensures k in left
    ensures Swept(all, if k in stale then left - {k} else left, stale, rest - {k})
  {
  }

  /** What is left when the stale keys outside `rest` have been removed. */
  ghost predicate Swept(all: map<string, BucketCell>, left: map<string, BucketCell>, stale: set<string>,
                        rest: set<string>)
  {
    && (forall k | k in left :: k in all && left[k] == all[k])
    && (forall k | k in all :: k in left <==> k in rest || k !in stale)
  }

  lemma OneFewer<V>(m: map<string, V>, key: string)
    requires key in m
    ensures |m - {key}| == |m| - 1
  {
    assert (m - {key}).Keys == m.Keys - {key};
  }

  lemma Overwrite(m: Buckets, key: string, first: Bucket, second: Bucket)
    ensures m[key := first][key := second] == m[key := second]
  {
  }
}
