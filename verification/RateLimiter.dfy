/** The per-client token bucket of the HTTP front end, over real-valued time in seconds. */
module RateLimiter {

  const INTERVAL := 60.0
  const STALE := 600.0

  datatype Bucket = Bucket(tokens: real, lastTime: real)

  type Buckets = map<string, Bucket>

  // ---------------------------------------------------------------- specification

  function Refill(capacity: int, elapsed: real): real {
    elapsed * (capacity as real) / INTERVAL
  }

  function Min(a: real, b: real): real { if a <= b then a else b }

  /** The tokens a client has at time t.  A client without a bucket has a full one. */
  function Level(bs: Buckets, capacity: int, ip: string, t: real): real {
    if ip in bs then Min(capacity as real, bs[ip].tokens + Refill(capacity, t - bs[ip].lastTime))
    else capacity as real
  }

  /** A call takes a token if there is a whole one. */
  function AllowStep(bs: Buckets, capacity: int, ip: string, now: real): (Buckets, bool) {
    if capacity <= 0 then (bs, true)
    else
      var level := Level(bs, capacity, ip, now);
      if level >= 1.0 then (bs[ip := Bucket(level - 1.0, now)], true)
      else (bs[ip := Bucket(level, now)], false)
  }

  function CleanupStep(bs: Buckets, now: real): Buckets {
    map ip | ip in bs && !(bs[ip].lastTime < now - STALE) :: bs[ip]
  }

  // ---------------------------------------------------------------- the limiter

  class Limiter {
    const capacity: int
    var buckets: Buckets

    constructor (reqPerMin: int)
      ensures capacity == reqPerMin && buckets == map[]
    {
      capacity := reqPerMin;
      buckets := map[];
    }

    /** allow. */
    method Allow(clientIP: string, now: real) returns (ok: bool)
      modifies this`buckets
      ensures (buckets, ok) == AllowStep(old(buckets), capacity, clientIP, now)
    {
      if capacity <= 0 { return true; }
      if clientIP !in buckets {
        buckets := buckets[clientIP := Bucket(capacity as real - 1.0, now)];
        return true;
      }
      var b := buckets[clientIP];
      var elapsed := now - b.lastTime;
      b := b.(tokens := b.tokens + elapsed * (capacity as real) / INTERVAL);
      assert b.tokens == old(buckets)[clientIP].tokens + Refill(capacity, now - old(buckets)[clientIP].lastTime);
      if b.tokens > capacity as real { b := b.(tokens := capacity as real); }
      b := b.(lastTime := now);
      ok := false;
      if b.tokens >= 1.0 {
        b := b.(tokens := b.tokens - 1.0);
        ok := true;
      }
      buckets := buckets[clientIP := b];
    }

    /** cleanupStale. */
    method CleanupStale(now: real)
      modifies this`buckets
      ensures buckets == CleanupStep(old(buckets), now)
      ensures forall ip :: ip in buckets <==> ip in old(buckets) && now - old(buckets)[ip].lastTime <= 600.0
    {
      var cutoff := now - STALE;
      var pending := buckets.Keys;
      while pending != {}
        invariant pending <= old(buckets).Keys
        invariant forall k :: k in buckets <==>
                                k in old(buckets) && (k in pending || !(old(buckets)[k].lastTime < cutoff))
        invariant forall k :: k in buckets ==> buckets[k] == old(buckets)[k]
      {
        var k :| k in pending;
        if buckets[k].lastTime < cutoff { buckets := buckets - {k}; }
        pending := pending - {k};
      }
    }
  }

  // ---------------------------------------------------------------- runs

  datatype Event = Call(wait: real, ip: string) | Cleanup(wait: real)

  datatype World = World(clock: real, buckets: Buckets, answers: seq<bool>)

  /** One event; with evict == false the clean-up does nothing. */
  function Step(w: World, capacity: int, e: Event, evict: bool): World {
    var now := w.clock + e.wait;
    match e
    case Call(_, ip) =>
      var (bs, ok) := AllowStep(w.buckets, capacity, ip, now);
      World(now, bs, w.answers + [ok])
    case Cleanup(_) =>
      World(now, if evict then CleanupStep(w.buckets, now) else w.buckets, w.answers)
  }

  function Run(w: World, capacity: int, es: seq<Event>, evict: bool): World {
    if es == [] then w else Step(Run(w, capacity, es[..|es| - 1], evict), capacity, es[|es| - 1], evict)
  }

  /** The clock does not run backwards. */
  predicate Forward(es: seq<Event>) { forall i :: 0 <= i < |es| ==> es[i].wait >= 0.0 }

  predicate BucketOk(b: Bucket, capacity: int, clock: real) {
    0.0 <= b.tokens <= capacity as real && b.lastTime <= clock
  }

  predicate Ok(w: World, capacity: int) {
    forall ip :: ip in w.buckets ==> BucketOk(w.buckets[ip], capacity, w.clock)
  }

  lemma RefillNonNegative(capacity: int, elapsed: real)
    requires elapsed >= 0.0 && capacity >= 0
    ensures Refill(capacity, elapsed) >= 0.0
  {}

  lemma RefillAdds(capacity: int, a: real, b: real)
    ensures Refill(capacity, a) + Refill(capacity, b) == Refill(capacity, a + b)
  {}

  /** Ten minutes without a call fill every bucket. */
  lemma StaleIsFull(capacity: int, b: Bucket, elapsed: real)
    requires capacity >= 1 && b.tokens >= 0.0 && elapsed >= STALE
    ensures b.tokens + Refill(capacity, elapsed) >= capacity as real
  {}

  lemma StepKeepsOk(w: World, capacity: int, e: Event, evict: bool)
    requires Ok(w, capacity) && e.wait >= 0.0 && capacity >= 1
    ensures Ok(Step(w, capacity, e, evict), capacity)
  {
    if e.Call? && e.ip in w.buckets {
      assert BucketOk(w.buckets[e.ip], capacity, w.clock);
      RefillNonNegative(capacity, w.clock + e.wait - w.buckets[e.ip].lastTime);
    }
  }

  // ---------------------------------------------------------------- eviction is invisible

  /** The evicting limiter a lacks only buckets that are full again. */
  predicate Alike(a: World, b: World) {
    a.clock == b.clock && a.answers == b.answers
    && (forall ip :: ip in a.buckets ==> ip in b.buckets && a.buckets[ip] == b.buckets[ip])
    && (forall ip :: ip in b.buckets && ip !in a.buckets ==> b.buckets[ip].lastTime < b.clock - STALE)
  }

  lemma SameLevel(a: World, b: World, capacity: int, ip: string, t: real)
    requires capacity >= 1 && Alike(a, b) && Ok(b, capacity) && t >= b.clock
    ensures Level(a.buckets, capacity, ip, t) == Level(b.buckets, capacity, ip, t)
  {
    if ip in b.buckets && ip !in a.buckets {
      assert BucketOk(b.buckets[ip], capacity, b.clock);
      StaleIsFull(capacity, b.buckets[ip], t - b.buckets[ip].lastTime);
    }
  }

  lemma StepKeepsAlike(a: World, b: World, capacity: int, e: Event)
    requires capacity >= 1 && Alike(a, b) && Ok(b, capacity) && e.wait >= 0.0
    ensures Alike(Step(a, capacity, e, true), Step(b, capacity, e, false))
  {
    if e.Call? { SameLevel(a, b, capacity, e.ip, a.clock + e.wait); }
  }

  lemma {:induction false} RunsStayAlike(w: World, capacity: int, es: seq<Event>)
    requires capacity >= 1 && Ok(w, capacity) && Forward(es)
    ensures Alike(Run(w, capacity, es, true), Run(w, capacity, es, false))
    ensures Ok(Run(w, capacity, es, true), capacity) && Ok(Run(w, capacity, es, false), capacity)
  {
    if es != [] {
      var n := |es| - 1;
      RunsStayAlike(w, capacity, es[..n]);
      StepKeepsAlike(Run(w, capacity, es[..n], true), Run(w, capacity, es[..n], false), capacity, es[n]);
      StepKeepsOk(Run(w, capacity, es[..n], true), capacity, es[n], true);
      StepKeepsOk(Run(w, capacity, es[..n], false), capacity, es[n], false);
    }
  }

  lemma {:induction false} UnlimitedAnswers(w: World, capacity: int, es: seq<Event>)
    requires capacity <= 0
    ensures Run(w, capacity, es, true).answers == Run(w, capacity, es, false).answers
  {
    if es != [] { UnlimitedAnswers(w, capacity, es[..|es| - 1]); }
  }

  /** Cleaning up at arbitrary moments never changes an answer. */
  lemma EvictionIsInvisible(capacity: int, start: real, es: seq<Event>)
    requires Forward(es)
    ensures Run(World(start, map[], []), capacity, es, true).answers
         == Run(World(start, map[], []), capacity, es, false).answers
  {
    if capacity >= 1 {
      RunsStayAlike(World(start, map[], []), capacity, es);
    } else {
      UnlimitedAnswers(World(start, map[], []), capacity, es);
    }
  }

  /** Memory is given back: a clean-up leaves exactly the buckets used in the last ten minutes, and the limiter
      that never evicts keeps all. */
  lemma CleanupLeavesRecent(w: World, capacity: int, es: seq<Event>, wait: real, ip: string)
    ensures var before, after := Run(w, capacity, es, true), Run(w, capacity, es + [Cleanup(wait)], true);
            (ip in after.buckets <==> ip in before.buckets && after.clock - before.buckets[ip].lastTime <= 600.0)
            && (ip in after.buckets ==> after.buckets[ip] == before.buckets[ip])
    ensures Run(w, capacity, es + [Cleanup(wait)], false).buckets == Run(w, capacity, es, false).buckets
  {
    var all := es + [Cleanup(wait)];
    assert all[..|all| - 1] == es;
  }

  // ---------------------------------------------------------------- the bound

  /** How many calls of one client a run allows. */
  function Allowed(w: World, capacity: int, es: seq<Event>, ip: string): nat {
    if es == [] then 0
    else
      var n := |es| - 1;
      var before := Run(w, capacity, es[..n], true);
      Allowed(w, capacity, es[..n], ip)
      + (if es[n].Call? && es[n].ip == ip && AllowStep(before.buckets, capacity, ip, before.clock + es[n].wait).1
         then 1 else 0)
  }

  function LevelNow(w: World, capacity: int, ip: string): real {
    Level(w.buckets, capacity, ip, w.clock)
  }

  /** Waiting raises a level by at most the refill. */
  lemma LevelGrows(bs: Buckets, capacity: int, ip: string, t: real, wait: real)
    requires capacity >= 1 && wait >= 0.0
    ensures Level(bs, capacity, ip, t + wait) <= Level(bs, capacity, ip, t) + Refill(capacity, wait)
  {}

  /** Cleaning up changes no level from then on. */
  lemma CleanupKeepsLevel(bs: Buckets, capacity: int, ip: string, now: real)
    requires capacity >= 1 && (ip in bs ==> BucketOk(bs[ip], capacity, now))
    ensures Level(CleanupStep(bs, now), capacity, ip, now) == Level(bs, capacity, ip, now)
  {}

  /** A call pays for its answer with a token; other clients' calls cost nothing. */
  lemma CallSpends(bs: Buckets, capacity: int, caller: string, ip: string, now: real)
    requires capacity >= 1
    ensures var (bs', ok) := AllowStep(bs, capacity, caller, now);
            Level(bs', capacity, ip, now) + (if caller == ip && ok then 1.0 else 0.0) == Level(bs, capacity, ip, now)
  {}

  lemma StepSpends(w: World, capacity: int, e: Event, ip: string)
    requires capacity >= 1 && Ok(w, capacity) && e.wait >= 0.0
    ensures var w' := Step(w, capacity, e, true);
            var spent := if e.Call? && e.ip == ip && AllowStep(w.buckets, capacity, ip, w'.clock).1 then 1.0 else 0.0;
            LevelNow(w', capacity, ip) + spent <= LevelNow(w, capacity, ip) + Refill(capacity, e.wait)
  {
    hide Refill, Level, AllowStep, CleanupStep;
    var now := w.clock + e.wait;
    LevelGrows(w.buckets, capacity, ip, w.clock, e.wait);
    match e
    case Call(_, caller) => CallSpends(w.buckets, capacity, caller, ip, now);
    case Cleanup(_) => CleanupKeepsLevel(w.buckets, capacity, ip, now);
  }

  lemma {:induction false} RunSpends(w: World, capacity: int, es: seq<Event>, ip: string)
    requires capacity >= 1 && Ok(w, capacity) && Forward(es)
    ensures var w' := Run(w, capacity, es, true);
            LevelNow(w', capacity, ip) + Allowed(w, capacity, es, ip) as real
              <= LevelNow(w, capacity, ip) + Refill(capacity, w'.clock - w.clock)
  {
    if es != [] {
      var n := |es| - 1;
      var mid := Run(w, capacity, es[..n], true);
      RunSpends(w, capacity, es[..n], ip);
      RunsStayAlike(w, capacity, es[..n]);
      StepSpends(mid, capacity, es[n], ip);
      RefillAdds(capacity, mid.clock - w.clock, es[n].wait);
    }
  }

  lemma LevelBounds(w: World, capacity: int, ip: string)
    requires capacity >= 1 && Ok(w, capacity)
    ensures 0.0 <= LevelNow(w, capacity, ip) <= capacity as real
  {}

  lemma RefillUpTo(capacity: int, elapsed: real, T: real)
    requires capacity >= 1 && elapsed <= T
    ensures capacity as real + Refill(capacity, elapsed) <= (capacity as real) * (1.0 + T / 60.0)
  {}

  /** After any history, an interval of T seconds allows one client at most capacity * (1 + T/60)
      calls, whatever other clients and the clean-up do.  The interval starts at any time from the
      end of the history on. */
  lemma AllowedInInterval(capacity: int, start: real, history: seq<Event>, from: real, es: seq<Event>, ip: string,
                          T: real)
    requires capacity >= 1 && Forward(history) && Forward(es)
    requires var h := Run(World(start, map[], []), capacity, history, true);
             h.clock <= from && Run(h.(clock := from), capacity, es, true).clock <= from + T
    ensures var h := Run(World(start, map[], []), capacity, history, true);
            Allowed(h.(clock := from), capacity, es, ip) as real <= (capacity as real) * (1.0 + T / 60.0)
  {
    RunsStayAlike(World(start, map[], []), capacity, history);
    var h := Run(World(start, map[], []), capacity, history, true);
    IntervalFrom(h.(clock := from), capacity, es, ip, T);
  }

  lemma IntervalFrom(w: World, capacity: int, es: seq<Event>, ip: string, T: real)
    requires capacity >= 1 && Ok(w, capacity) && Forward(es)
    requires Run(w, capacity, es, true).clock <= w.clock + T
    ensures Allowed(w, capacity, es, ip) as real <= (capacity as real) * (1.0 + T / 60.0)
  {
    hide Refill, LevelNow, Ok, Allowed, Run;
    var w' := Run(w, capacity, es, true);
    RunSpends(w, capacity, es, ip);
    RunsStayAlike(w, capacity, es);
    LevelBounds(w, capacity, ip);
    LevelBounds(w', capacity, ip);
    RefillUpTo(capacity, w'.clock - w.clock, T);
  }

  // ---------------------------------------------------------------- who is admitted

  lemma LevelWaits(bs: Buckets, capacity: int, ip: string, t: real, wait: real)
    requires capacity >= 1 && wait >= 0.0
    ensures Level(bs, capacity, ip, t + wait)
            == Min(capacity as real, Level(bs, capacity, ip, t) + Refill(capacity, wait))
  {
    RefillNonNegative(capacity, wait);
    if ip in bs { RefillAdds(capacity, t - bs[ip].lastTime, wait); }
  }

  /** What one event takes from a client. */
  function Spent(w: World, capacity: int, e: Event, ip: string): real {
    if e.Call? && e.ip == ip && AllowStep(w.buckets, capacity, ip, w.clock + e.wait).1 then 1.0 else 0.0
  }

  lemma StepLevel(w: World, capacity: int, e: Event, ip: string)
    requires capacity >= 1 && Ok(w, capacity) && e.wait >= 0.0
    ensures LevelNow(Step(w, capacity, e, true), capacity, ip) + Spent(w, capacity, e, ip)
            == Min(capacity as real, LevelNow(w, capacity, ip) + Refill(capacity, e.wait))
  {
    StepKeepsOk(w, capacity, e, false);
    hide Refill, Level, AllowStep, CleanupStep, Min;
    var now := w.clock + e.wait;
    LevelWaits(w.buckets, capacity, ip, w.clock, e.wait);
    match e
    case Call(_, caller) => CallSpends(w.buckets, capacity, caller, ip, now);
    case Cleanup(_) => CleanupKeepsLevel(w.buckets, capacity, ip, now);
  }

  /** What the calls admitted from event k on leave of a bucket that was full at event k. */
  function LeftSince(w: World, capacity: int, es: seq<Event>, ip: string, k: nat): real
    requires k < |es|
  {
    capacity as real
    + Refill(capacity, Run(w, capacity, es, true).clock - Run(w, capacity, es[..k + 1], true).clock)
    - (Allowed(w, capacity, es, ip) - Allowed(w, capacity, es[..k], ip)) as real
  }

  lemma LeftSinceGrows(w: World, capacity: int, es: seq<Event>, ip: string, k: nat)
    requires k < |es|
    ensures var n := |es| - 1;
            var spent := Spent(Run(w, capacity, es[..n], true), capacity, es[n], ip);
            LeftSince(w, capacity, es, ip, k)
            == if k == n then capacity as real - spent
               else LeftSince(w, capacity, es[..n], ip, k) + Refill(capacity, es[n].wait) - spent
  {
    hide AllowStep, Step, Refill;
    var n := |es| - 1;
    var mid := Run(w, capacity, es[..n], true);
    assert es[..n + 1] == es;
    StepClock(mid, capacity, es[n]);
    NoRefill(capacity);
    if k < n {
      assert es[..n][..k + 1] == es[..k + 1] && es[..n][..k] == es[..k];
      RefillAdds(capacity, mid.clock - Run(w, capacity, es[..k + 1], true).clock, es[n].wait);
    }
  }

  lemma StepClock(w: World, capacity: int, e: Event)
    ensures Step(w, capacity, e, true).clock == w.clock + e.wait
  {}

  lemma NoRefill(capacity: int)
    ensures Refill(capacity, 0.0) == 0.0
  {}

  /** A level is the least of what is left since each event. */
  ghost predicate LevelIsLeast(w: World, capacity: int, es: seq<Event>, ip: string) {
    var level := LevelNow(Run(w, capacity, es, true), capacity, ip);
    (forall k :: 0 <= k < |es| ==> level <= LeftSince(w, capacity, es, ip, k))
    && if es == [] then level == capacity as real
       else exists k :: 0 <= k < |es| && level == LeftSince(w, capacity, es, ip, k)
  }

  lemma {:induction false} LevelsAreLeast(capacity: int, start: real, es: seq<Event>, ip: string)
    requires capacity >= 1 && Forward(es)
    ensures LevelIsLeast(World(start, map[], []), capacity, es, ip)
  {
    hide AllowStep, LevelNow, LeftSince, Step, Spent;
    var w := World(start, map[], []);
    if es == [] {
      FullAtFirst(capacity, start, ip);
    } else {
      var n := |es| - 1;
      LevelsAreLeast(capacity, start, es[..n], ip);
      RunsStayAlike(w, capacity, es[..n]);
      StepLevel(Run(w, capacity, es[..n], true), capacity, es[n], ip);
      forall k | 0 <= k < |es|
        ensures LevelNow(Run(w, capacity, es, true), capacity, ip) <= LeftSince(w, capacity, es, ip, k)
      {
        LeftSinceGrows(w, capacity, es, ip, k);
      }
      LeastStays(capacity, start, es, ip);
    }
  }

  lemma FullAtFirst(capacity: int, start: real, ip: string)
    ensures LevelNow(Run(World(start, map[], []), capacity, [], true), capacity, ip) == capacity as real
  {}

  lemma LeastStays(capacity: int, start: real, es: seq<Event>, ip: string)
    requires capacity >= 1 && Forward(es) && es != []
    requires LevelIsLeast(World(start, map[], []), capacity, es[..|es| - 1], ip)
    ensures var w := World(start, map[], []);
            exists k :: 0 <= k < |es|
                        && LevelNow(Run(w, capacity, es, true), capacity, ip) == LeftSince(w, capacity, es, ip, k)
  {
    hide AllowStep, LevelNow, LeftSince, Step, Spent, Refill;
    var w := World(start, map[], []);
    var n := |es| - 1;
    var mid := Run(w, capacity, es[..n], true);
    RunsStayAlike(w, capacity, es[..n]);
    StepLevel(mid, capacity, es[n], ip);
    RefillNonNegative(capacity, es[n].wait);
    if capacity as real <= LevelNow(mid, capacity, ip) + Refill(capacity, es[n].wait) {
      LeftSinceGrows(w, capacity, es, ip, n);
    } else {
      var k :| 0 <= k < n && LevelNow(mid, capacity, ip) == LeftSince(w, capacity, es[..n], ip, k);
      LeftSinceGrows(w, capacity, es, ip, k);
    }
  }

  /** Counting this call, the calls admitted from event k on keep within the capacity and what has flowed in
      since that event. */
  predicate Fits(w: World, capacity: int, es: seq<Event>, ip: string, k: nat, now: real)
    requires k < |es|
  {
    (Allowed(w, capacity, es, ip) - Allowed(w, capacity, es[..k], ip) + 1) as real
    <= (capacity as real) * (1.0 + (now - Run(w, capacity, es[..k + 1], true).clock) / 60.0)
  }

  lemma FitsIs(w: World, capacity: int, es: seq<Event>, ip: string, k: nat, wait: real)
    requires k < |es|
    ensures Fits(w, capacity, es, ip, k, Run(w, capacity, es, true).clock + wait)
            <==> LeftSince(w, capacity, es, ip, k) + Refill(capacity, wait) >= 1.0
  {
    hide Run, Allowed;
    var clock, then' := Run(w, capacity, es, true).clock, Run(w, capacity, es[..k + 1], true).clock;
    RefillAdds(capacity, clock - then', wait);
    RefillIs(capacity, clock - then' + wait);
  }

  lemma RefillIs(capacity: int, elapsed: real)
    ensures capacity as real + Refill(capacity, elapsed) == (capacity as real) * (1.0 + elapsed / 60.0)
  {}

  /** The limiter refuses no more than it must.  After any history, a call is admitted exactly if, together
      with the calls admitted before, it keeps to the bound of every interval that begins at an earlier
      event and ends now.  Without a positive capacity every call is admitted. */
  lemma AdmittedExactly(capacity: int, start: real, es: seq<Event>, ip: string, wait: real)
    requires Forward(es) && wait >= 0.0
    ensures var w := World(start, map[], []);
            var before := Run(w, capacity, es, true);
            var now := before.clock + wait;
            Run(w, capacity, es + [Call(wait, ip)], true).answers == before.answers +
              [capacity <= 0 || forall k :: 0 <= k < |es| ==> Fits(w, capacity, es, ip, k, now)]
  {
    hide LevelNow, LeftSince, Fits, Allowed, Refill;
    var w := World(start, map[], []);
    var before := Run(w, capacity, es, true);
    var now := before.clock + wait;
    var all := es + [Call(wait, ip)];
    assert all[..|all| - 1] == es;
    if capacity >= 1 {
      LevelsAreLeast(capacity, start, es, ip);
      WholeToken(before, capacity, ip, wait);
      forall k | 0 <= k < |es|
        ensures Fits(w, capacity, es, ip, k, now)
                <==> LeftSince(w, capacity, es, ip, k) + Refill(capacity, wait) >= 1.0
      {
        FitsIs(w, capacity, es, ip, k, wait);
      }
    }
  }

  lemma WholeToken(w: World, capacity: int, ip: string, wait: real)
    requires capacity >= 1 && wait >= 0.0
    ensures AllowStep(w.buckets, capacity, ip, w.clock + wait).1
            <==> LevelNow(w, capacity, ip) + Refill(capacity, wait) >= 1.0
    ensures Refill(capacity, wait) >= 0.0
  {
    LevelWaits(w.buckets, capacity, ip, w.clock, wait);
  }
}
