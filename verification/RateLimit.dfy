/** The two admission algorithms of the rate limiter: a sliding window and fixed minute buckets. */
module RateLimit {

  /** A request of a key at a time in seconds. */
  datatype Request = Request(key: string, at: real)

  datatype Decision = Decision(allowed: bool, remaining: nat)

  ghost predicate NonDecreasing(times: seq<real>) {
    forall i, j | 0 <= i < j < |times| :: times[i] <= times[j]
  }

  ghost predicate Clocked(rs: seq<Request>) {
    forall i, j | 0 <= i < j < |rs| :: rs[i].at <= rs[j].at
  }

  // ------------------------------------------------------------ sliding window

  type Memory = map<string, seq<real>>

  function Hits(memory: Memory, key: string): seq<real> {
    if key in memory then memory[key] else []
  }

  /** The hits less than 60 seconds old. */
  function Recent(hits: seq<real>, now: real): seq<real> {
    if hits == [] then []
    else
      var last := hits[|hits| - 1];
      Recent(hits[..|hits| - 1], now) + if last > now - 60.0 then [last] else []
  }

  function CheckMemory(memory: Memory, limit: nat, r: Request): (Memory, Decision) {
    var hits := Recent(Hits(memory, r.key), r.at);
    if |hits| >= limit then (memory, Decision(false, 0))
    else (memory[r.key := hits + [r.at]], Decision(true, limit - |hits| - 1))
  }

  class SlidingWindow {
    var memory: Memory
    const limit: nat

    constructor (limit: nat)
      ensures memory == map[] && this.limit == limit
    {
      memory := map[];
      this.limit := limit;
    }

    /** Prunes the hits of the key and admits the request if fewer than `limit` are left. */
    method Check(key: string, now: real) returns (allowed: bool, remaining: nat)
      modifies this
      ensures (memory, Decision(allowed, remaining)) == CheckMemory(old(memory), limit, Request(key, now))
    {
      var all := Hits(memory, key);
      var hits: seq<real> := [];
      for i := 0 to |all|
        invariant hits == Recent(all[..i], now)
      {
        assert all[..i + 1][..i] == all[..i];
        if all[i] > now - 60.0 {
          hits := hits + [all[i]];
        }
      }
      assert all[..|all|] == all;
      if |hits| >= limit {
        return false, 0;
      }
      hits := hits + [now];
      memory := memory[key := hits];
      return true, limit - |hits|;
    }
  }

  /** The memory after a run of requests. */
  function RunMemory(limit: nat, rs: seq<Request>): Memory {
    if rs == [] then map[]
    else CheckMemory(RunMemory(limit, rs[..|rs| - 1]), limit, rs[|rs| - 1]).0
  }

  predicate LastAdmitted(limit: nat, rs: seq<Request>)
    requires rs != []
  {
    CheckMemory(RunMemory(limit, rs[..|rs| - 1]), limit, rs[|rs| - 1]).1.allowed
  }

  /** The times at which requests of `key` were admitted in a run, pruned ones included. */
  function Admitted(limit: nat, rs: seq<Request>, key: string): seq<real> {
    if rs == [] then []
    else
      var last := rs[|rs| - 1];
      Admitted(limit, rs[..|rs| - 1], key) + if last.key == key && LastAdmitted(limit, rs) then [last.at] else []
  }

  lemma {:induction false} AdmittedInOrder(limit: nat, rs: seq<Request>, key: string)
    requires Clocked(rs)
    ensures NonDecreasing(Admitted(limit, rs, key))
    ensures rs != [] ==> forall i | 0 <= i < |Admitted(limit, rs, key)| ::
              Admitted(limit, rs, key)[i] <= rs[|rs| - 1].at
  {
    if rs != [] {
      AdmittedInOrder(limit, rs[..|rs| - 1], key);
    }
  }

  lemma RecentAppend(hits: seq<real>, t: real, now: real)
    ensures Recent(hits + [t], now) == Recent(hits, now) + if t > now - 60.0 then [t] else []
  {
  }

  /** Pruning at an earlier time first makes no difference. */
  lemma {:induction false} RecentTwice(hits: seq<real>, before: real, now: real)
    requires before <= now
    ensures Recent(Recent(hits, before), now) == Recent(hits, now)
  {
    if hits != [] {
      var front, last := hits[..|hits| - 1], hits[|hits| - 1];
      RecentTwice(front, before, now);
      if last > before - 60.0 {
        RecentAppend(Recent(front, before), last, now);
      } else {
        assert Recent(front, before) + [] == Recent(front, before);
      }
    }
  }

  /** What the last request of a run does to the hits of a key. */
  lemma LastHits(limit: nat, rs: seq<Request>, key: string)
    requires rs != []
    ensures var front, last := rs[..|rs| - 1], rs[|rs| - 1];
            var hits := Hits(RunMemory(limit, front), key);
            Hits(RunMemory(limit, rs), key) ==
            if last.key == key && LastAdmitted(limit, rs) then Recent(hits, last.at) + [last.at] else hits
  {
    hide Recent;
  }

  /** What the memory has forgotten is out of the window for good. */
  lemma {:induction false} MemoryKeepsWindow(limit: nat, rs: seq<Request>, key: string, now: real)
    requires Clocked(rs) && (rs != [] ==> rs[|rs| - 1].at <= now)
    ensures Recent(Hits(RunMemory(limit, rs), key), now) == Recent(Admitted(limit, rs, key), now)
  {
    if rs != [] {
      hide Recent, RunMemory, LastAdmitted;
      var front, last := rs[..|rs| - 1], rs[|rs| - 1];
      LastHits(limit, rs, key);
      MemoryKeepsWindow(limit, front, key, now);
      if last.key == key && LastAdmitted(limit, rs) {
        var hits := Hits(RunMemory(limit, front), key);
        RecentTwice(hits, last.at, now);
        RecentAppend(Recent(hits, last.at), last.at, now);
        RecentAppend(Admitted(limit, front, key), last.at, now);
      } else {
        assert Admitted(limit, front, key) + [] == Admitted(limit, front, key);
      }
    }
  }

  /** The places of the times within the 60 seconds up to now. */
  function Window(times: seq<real>, now: real): set<nat> {
    set i: nat | i < |times| && now - times[i] < 60.0
  }

  lemma {:induction false} RecentCounts(times: seq<real>, now: real)
    ensures |Recent(times, now)| == |Window(times, now)|
  {
    if times != [] {
      var n := |times| - 1;
      RecentCounts(times[..n], now);
      var before := Window(times[..n], now);
      assert Window(times, now) == before + if now - times[n] < 60.0 then {n} else {};
      assert n !in before;
    }
  }

  /**
   With a clock that never goes back, a request is refused exactly when `limit`
   requests of its key were admitted in the last 60 seconds; an admitted one is
   told how many more would be.
   */
  lemma RefusedIffWindowFull(limit: nat, rs: seq<Request>)
    requires rs != [] && Clocked(rs)
    ensures var front, last := rs[..|rs| - 1], rs[|rs| - 1];
            var decision := CheckMemory(RunMemory(limit, front), limit, last).1;
            var used := |Window(Admitted(limit, front, last.key), last.at)|;
            && (LastAdmitted(limit, rs) <==> decision.allowed)
            && (decision.allowed <==> used < limit)
            && decision.remaining == if used < limit then limit - used - 1 else 0
  {
    MemoryKeepsWindow(limit, rs[..|rs| - 1], rs[|rs| - 1].key, rs[|rs| - 1].at);
    RecentCounts(Admitted(limit, rs[..|rs| - 1], rs[|rs| - 1].key), rs[|rs| - 1].at);
  }

  lemma {:induction false} RecentSuffix(times: seq<real>, j: nat, now: real)
    requires NonDecreasing(times) && j < |times| && times[j] > now - 60.0
    ensures |Recent(times, now)| >= |times| - j
  {
    var n := |times| - 1;
    if j < n {
      RecentSuffix(times[..n], j, now);
    }
  }

  /** Any `limit + 1` consecutive admitted requests of a key span at least 60 seconds. */
  lemma {:induction false} AdmittedAreSpaced(limit: nat, rs: seq<Request>, key: string, i: nat)
    requires Clocked(rs) && i + limit < |Admitted(limit, rs, key)|
    ensures Admitted(limit, rs, key)[i + limit] - Admitted(limit, rs, key)[i] >= 60.0
  {
    var front, last := rs[..|rs| - 1], rs[|rs| - 1];
    var before := Admitted(limit, front, key);
    if i + limit < |before| {
      AdmittedAreSpaced(limit, front, key, i);
    } else {
      RefusedIffWindowFull(limit, rs);
      RecentCounts(before, last.at);
      AdmittedInOrder(limit, front, key);
      if limit > 0 && before[i] > last.at - 60.0 {
        RecentSuffix(before, i, last.at);
      }
    }
  }

  // ------------------------------------------------------------- minute buckets

  /** A counter in the store; it is gone once its expiry time is reached. */
  datatype Counter = Counter(count: nat, expiresAt: real)

  type Buckets = map<(string, int), Counter>

  /** The minute a time falls in. */
  function Minute(t: real): int {
    t.Floor / 60
  }

  function Count(buckets: Buckets, bucket: (string, int), now: real): nat {
    if bucket in buckets && now < buckets[bucket].expiresAt then buckets[bucket].count else 0
  }

  /** The increment, with the expiry set when the counter is new. */
  function Increment(buckets: Buckets, r: Request): Buckets {
    var bucket := (r.key, Minute(r.at));
    var count := Count(buckets, bucket, r.at) + 1;
    buckets[bucket := Counter(count, if count == 1 then r.at + 120.0 else buckets[bucket].expiresAt)]
  }

  class BucketLimiter {
    var buckets: Buckets
    const limit: nat

    constructor (limit: nat)
      ensures buckets == map[] && this.limit == limit
    {
      buckets := map[];
      this.limit := limit;
    }

    method Check(key: string, now: real) returns (allowed: bool, remaining: nat)
      modifies this
      ensures buckets == Increment(old(buckets), Request(key, now))
      ensures var count := Count(old(buckets), (key, Minute(now)), now) + 1;
              allowed == (count <= limit) && remaining == if count <= limit then limit - count else 0
    {
      var bucket := (key, Minute(now));
      var count := Count(buckets, bucket, now) + 1;
      if count == 1 {
        buckets := buckets[bucket := Counter(1, now + 120.0)];
      } else {
        buckets := buckets[bucket := buckets[bucket].(count := count)];
      }
      allowed := count <= limit;
      remaining := if count <= limit then limit - count else 0;
    }
  }

  function RunBuckets(rs: seq<Request>): Buckets {
    if rs == [] then map[] else Increment(RunBuckets(rs[..|rs| - 1]), rs[|rs| - 1])
  }

  /** Whether the last request of a run is admitted. */
  predicate LastPasses(limit: nat, rs: seq<Request>)
    requires rs != []
  {
    var last := rs[|rs| - 1];
    Count(RunBuckets(rs[..|rs| - 1]), (last.key, Minute(last.at)), last.at) + 1 <= limit
  }

  /** How many requests of `key` a run makes in a minute. */
  function RequestsIn(rs: seq<Request>, key: string, minute: int): nat {
    if rs == [] then 0
    else
      var last := rs[|rs| - 1];
      RequestsIn(rs[..|rs| - 1], key, minute) + if last.key == key && Minute(last.at) == minute then 1 else 0
  }

  /** How many of them are admitted. */
  function PassedIn(limit: nat, rs: seq<Request>, key: string, minute: int): nat {
    if rs == [] then 0
    else
      var last := rs[|rs| - 1];
      PassedIn(limit, rs[..|rs| - 1], key, minute)
      + if last.key == key && Minute(last.at) == minute && LastPasses(limit, rs) then 1 else 0
  }

  /** How many requests of `key` are admitted in the 60 seconds from `from` on, both ends included. */
  function PassedBetween(limit: nat, rs: seq<Request>, key: string, from: real): nat {
    if rs == [] then 0
    else
      var last := rs[|rs| - 1];
      PassedBetween(limit, rs[..|rs| - 1], key, from)
      + if last.key == key && from <= last.at <= from + 60.0 && LastPasses(limit, rs) then 1 else 0
  }

  lemma MinuteBounds(t: real)
    ensures (60 * Minute(t)) as real <= t < (60 * Minute(t) + 60) as real
  {
  }

  /**
   The expiry never resets a bucket that is still in use: its count is the number
   of requests in its minute. It is gone three minutes after that minute began.
   */
  lemma {:induction false} BucketCountsItsMinute(rs: seq<Request>, key: string, minute: int)
    ensures (key, minute) in RunBuckets(rs) <==> RequestsIn(rs, key, minute) > 0
    ensures (key, minute) in RunBuckets(rs) ==>
              RunBuckets(rs)[(key, minute)].count == RequestsIn(rs, key, minute)
              && (60 * minute + 120) as real <= RunBuckets(rs)[(key, minute)].expiresAt < (60 * minute + 180) as real
  {
    if rs != [] {
      var front, last := rs[..|rs| - 1], rs[|rs| - 1];
      BucketCountsItsMinute(front, key, minute);
      MinuteBounds(last.at);
      if last.key == key && Minute(last.at) == minute {
        assert last.at < (60 * minute + 120) as real;
      }
    }
  }

  /** Of the requests in a minute exactly the first `limit` are admitted. */
  lemma {:induction false} PassedIsCapped(limit: nat, rs: seq<Request>, key: string, minute: int)
    ensures PassedIn(limit, rs, key, minute) ==
            if RequestsIn(rs, key, minute) <= limit then RequestsIn(rs, key, minute) else limit
  {
    if rs != [] {
      var front, last := rs[..|rs| - 1], rs[|rs| - 1];
      PassedIsCapped(limit, front, key, minute);
      BucketCountsItsMinute(front, key, minute);
      MinuteBounds(last.at);
    }
  }

  lemma MinutesOfSpan(from: real, t: real)
    requires from <= t <= from + 60.0
    ensures Minute(t) == Minute(from) || Minute(t) == Minute(from) + 1
  {
  }

  lemma {:induction false} SpanTouchesTwoMinutes(limit: nat, rs: seq<Request>, key: string, from: real)
    ensures PassedBetween(limit, rs, key, from) <=
            PassedIn(limit, rs, key, Minute(from)) + PassedIn(limit, rs, key, Minute(from) + 1)
  {
    if rs != [] {
      var last := rs[|rs| - 1];
      SpanTouchesTwoMinutes(limit, rs[..|rs| - 1], key, from);
      if from <= last.at <= from + 60.0 {
        MinutesOfSpan(from, last.at);
      }
    }
  }

  /** At most `limit` requests are admitted per minute bucket, hence at most twice that in any 60 seconds. */
  lemma AtMostTwiceTheLimit(limit: nat, rs: seq<Request>, key: string, from: real)
    ensures PassedBetween(limit, rs, key, from) <= 2 * limit
  {
    SpanTouchesTwoMinutes(limit, rs, key, from);
    PassedIsCapped(limit, rs, key, Minute(from));
    PassedIsCapped(limit, rs, key, Minute(from) + 1);
  }

  /** `n` requests of a key in the last second of minute 0, then `m` in the first second of minute 1. */
  function Burst(key: string, n: nat, m: nat): seq<Request> {
    if m > 0 then Burst(key, n, m - 1) + [Request(key, 60.0)]
    else if n > 0 then Burst(key, n - 1, 0) + [Request(key, 59.0)]
    else []
  }

  lemma {:induction false} BurstCounts(limit: nat, key: string, n: nat, m: nat)
    ensures RequestsIn(Burst(key, n, m), key, 0) == n && RequestsIn(Burst(key, n, m), key, 1) == m
    ensures PassedBetween(limit, Burst(key, n, m), key, 59.0) ==
            PassedIn(limit, Burst(key, n, m), key, 0) + PassedIn(limit, Burst(key, n, m), key, 1)
    decreases m, n
  {
    var rs := Burst(key, n, m);
    if m > 0 {
      BurstCounts(limit, key, n, m - 1);
      assert rs[..|rs| - 1] == Burst(key, n, m - 1);
    } else if n > 0 {
      BurstCounts(limit, key, n - 1, 0);
      assert rs[..|rs| - 1] == Burst(key, n - 1, 0);
    }
  }

  /** The bound is reached: a burst across a minute boundary gets twice the limit through within one second. */
  lemma TwiceTheLimitIsReached(limit: nat, key: string)
    ensures PassedBetween(limit, Burst(key, limit, limit), key, 59.0) == 2 * limit
  {
    BurstCounts(limit, key, limit, limit);
    PassedIsCapped(limit, Burst(key, limit, limit), key, 0);
    PassedIsCapped(limit, Burst(key, limit, limit), key, 1);
  }
}
