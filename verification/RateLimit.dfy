/** The onboarding token-bucket limiter: one step per locked call, and the class that performs it. */
module RateLimit {
  import opened Contract

  /** Durations and times are in nanoseconds. */
  datatype Settings = Settings(burst: int, refill: int, window: int, limit: int, ttl: int) {
    ghost predicate Valid() {
      burst > 0 && refill > 0 && window > 0 && limit > 0 && ttl > 0
    }

    /** A bucket idle for the whole time-to-live has refilled completely. */
    ghost predicate IdleMeansFull() {
      ttl * refill >= burst * window
    }
  }

  const SECOND := 1_000_000_000
  const DEFAULTS := Settings(20, 20, 60 * SECOND, 10_000, 600 * SECOND)

  function WithDefaults(s: Settings): (r: Settings)
    ensures r.Valid()
    ensures r.burst == if s.burst > 0 then s.burst else 20
    ensures r.refill == if s.refill > 0 then s.refill else 20
    ensures r.window == if s.window > 0 then s.window else 60_000_000_000
    ensures r.limit == if s.limit > 0 then s.limit else 10_000
    ensures r.ttl == if s.ttl > 0 then s.ttl else 600_000_000_000
    ensures s.Valid() <==> r == s
  {
    Settings(if s.burst <= 0 then DEFAULTS.burst else s.burst,
             if s.refill <= 0 then DEFAULTS.refill else s.refill,
             if s.window <= 0 then DEFAULTS.window else s.window,
             if s.limit <= 0 then DEFAULTS.limit else s.limit,
             if s.ttl <= 0 then DEFAULTS.ttl else s.ttl)
  }

  datatype Bucket = Bucket(tokens: real, seenAt: int)
  datatype State = State(buckets: map<string, Bucket>, lastCleanup: Option<int>)

  /** One locked call: whose bucket, when, and which bucket goes if the oldest must, since ties fall to map order. */
  datatype Event = Event(key: string, now: int, victim: string)

  /** The tokens a bucket earns over `elapsed`. */
  function Earned(s: Settings, elapsed: int): real
    requires s.Valid()
  {
    elapsed as real * s.refill as real / s.window as real
  }

  function Min(a: real, b: real): real {
    if a < b then a else b
  }

  /** A bucket's tokens once brought up to date. Time running backwards earns nothing. */
  function Refilled(s: Settings, b: Bucket, now: int): real
    requires s.Valid()
  {
    if now > b.seenAt then Min(s.burst as real, b.tokens + Earned(s, now - b.seenAt)) else b.tokens
  }

  function CleanupDue(s: Settings, st: State, now: int): bool {
    st.lastCleanup.None? || now - st.lastCleanup.value >= s.window
  }

  function WithoutExpired(s: Settings, buckets: map<string, Bucket>, now: int): map<string, Bucket> {
    map k | k in buckets && now - buckets[k].seenAt < s.ttl :: buckets[k]
  }

  function Cleaned(s: Settings, st: State, now: int): State {
    if CleanupDue(s, st, now) then State(WithoutExpired(s, st.buckets, now), Some(now)) else st
  }

  /** This call pushes the oldest bucket out to make room. */
  predicate Evicts(s: Settings, st: State, e: Event) {
    var buckets := Cleaned(s, st, e.now).buckets;
    e.key !in buckets && |buckets| >= s.limit
  }

  /** The victim, if one is needed, is one of the least recently seen. */
  ghost predicate Legal(s: Settings, st: State, e: Event) {
    var buckets := Cleaned(s, st, e.now).buckets;
    Evicts(s, st, e) ==>
      e.victim in buckets && forall k :: k in buckets ==> buckets[e.victim].seenAt <= buckets[k].seenAt
  }

  /** The caller's tokens when the call decides. */
  function Available(s: Settings, st: State, e: Event): real
    requires s.Valid()
  {
    var buckets := Cleaned(s, st, e.now).buckets;
    if e.key in buckets then Refilled(s, buckets[e.key], e.now) else s.burst as real
  }

  function Admits(s: Settings, st: State, e: Event): bool
    requires s.Valid()
  {
    Available(s, st, e) >= 1.0
  }

  function Step(s: Settings, st: State, e: Event): State
    requires s.Valid()
  {
    var cleaned := Cleaned(s, st, e.now);
    var kept := if Evicts(s, st, e) then cleaned.buckets - {e.victim} else cleaned.buckets;
    var tokens := Available(s, st, e);
    State(kept[e.key := Bucket(if tokens >= 1.0 then tokens - 1.0 else tokens, e.now)], cleaned.lastCleanup)
  }

  /** Rounded up to whole seconds, as the refused caller is told. */
  function RetryAfter(s: Settings): int
    requires s.Valid()
  {
    Ceil(s.window as real / SECOND as real / s.refill as real) * SECOND
  }

  function Ceil(x: real): int {
    -((-x).Floor)
  }

  // ---- one call, told in full ----

  ghost predicate Due(s: Settings, st: State, now: int) {
    st.lastCleanup.None? || now - st.lastCleanup.value >= s.window
  }

  /** The cleanup of this call, if one is due, forgets the bucket. */
  ghost predicate Lapsed(s: Settings, st: State, k: string, now: int)
    requires k in st.buckets
  {
    Due(s, st, now) && now - st.buckets[k].seenAt >= s.ttl
  }

  /** `tokens` is what the caller holds when the call decides: a burst if the limiter does not know them; otherwise what
    * was left, and what the time since has earned, up to a burst. */
  ghost predicate HoldsTokens(s: Settings, st: State, key: string, now: int, tokens: real)
    requires s.Valid()
  {
    if key !in st.buckets || Lapsed(s, st, key, now) then tokens == s.burst as real
    else
      var b := st.buckets[key];
      if now <= b.seenAt then tokens == b.tokens
      else
        var refilled := b.tokens + (now - b.seenAt) as real * s.refill as real / s.window as real;
        tokens <= refilled && tokens <= s.burst as real && (tokens == refilled || tokens == s.burst as real)
  }

  /** The call is admitted if and only if the caller holds a whole token, and then spends it. Seen or admitted, the caller
    * is the latest seen. Of the others a cleanup, if due, forgets the idle, and the victim goes if there is no room. */
  ghost predicate Called(s: Settings, st: State, key: string, now: int, victim: string, next: State, allowed: bool)
    requires s.Valid()
  {
    && (exists tokens :: HoldsTokens(s, st, key, now, tokens)
                         && allowed == (tokens >= 1.0)
                         && key in next.buckets && next.buckets[key] == Bucket(if allowed then tokens - 1.0 else tokens, now))
    && next.lastCleanup == (if Due(s, st, now) then Some(now) else st.lastCleanup)
    && (forall k :: k in next.buckets && k != key ==> k in st.buckets && next.buckets[k] == st.buckets[k] && !Lapsed(s, st, k, now))
    && var live := set k | k in st.buckets && !Lapsed(s, st, k, now);
       var full := key !in live && |live| >= s.limit;
       && (forall k :: k in live && k != key ==> (k !in next.buckets <==> full && k == victim))
       && (full ==> victim in live && forall k :: k in live ==> st.buckets[victim].seenAt <= st.buckets[k].seenAt)
  }

  lemma StepIsCall(s: Settings, st: State, e: Event)
    requires s.Valid() && Legal(s, st, e)
    ensures Called(s, st, e.key, e.now, e.victim, Step(s, st, e), Admits(s, st, e))
  {
    assert HoldsTokens(s, st, e.key, e.now, Available(s, st, e));
    var live := set k | k in st.buckets && !Lapsed(s, st, k, e.now);
    assert Cleaned(s, st, e.now).buckets.Keys == live;
    assert |Cleaned(s, st, e.now).buckets| == |live|;
  }

  class Limiter {
    const settings: Settings
    var buckets: map<string, Bucket>
    var lastCleanup: Option<int>

    ghost predicate Valid()
      reads this
    {
      settings.Valid() && "" !in buckets
    }

    ghost function Value(): State
      reads this
    {
      State(buckets, lastCleanup)
    }

    constructor (s: Settings)
      ensures Valid() && settings == WithDefaults(s) && Value() == State(map[], None)
    {
      settings := WithDefaults(s);
      buckets, lastCleanup := map[], None;
    }

    method Allow(key: string, now: int) returns (allowed: bool, retryAfter: int, ghost victim: string)
      requires Valid() && key != ""
      modifies this
      ensures Valid()
      ensures Legal(settings, old(Value()), Event(key, now, victim))
      ensures Value() == Step(settings, old(Value()), Event(key, now, victim))
      ensures allowed == Admits(settings, old(Value()), Event(key, now, victim))
      ensures retryAfter == if allowed then 0 else RetryAfter(settings)
      ensures Called(settings, old(Value()), key, now, victim, Value(), allowed)
    {
      hide Earned, RetryAfter, Called, HoldsTokens, Lapsed, Due;
      victim := "";
      if lastCleanup.None? || now - lastCleanup.value >= settings.window {
        EvictExpired(now);
        lastCleanup := Some(now);
      }
      assert Value() == Cleaned(settings, old(Value()), now);
      var bucket;
      if key in buckets {
        bucket := buckets[key];
      } else {
        if |buckets| >= settings.limit {
          victim := EvictOldest();
        }
        bucket := Bucket(settings.burst as real, now);
      }
      var elapsed := now - bucket.seenAt;
      var tokens := bucket.tokens;
      if elapsed > 0 {
        tokens := Min(settings.burst as real, tokens + Earned(settings, elapsed));
      }
      allowed, retryAfter := tokens >= 1.0, 0;
      if allowed {
        tokens := tokens - 1.0;
      } else {
        retryAfter := RetryAfter(settings);
      }
      buckets := buckets[key := Bucket(tokens, now)];
      StepIsCall(settings, old(Value()), Event(key, now, victim));
    }

    method EvictExpired(now: int)
      requires Valid()
      modifies this`buckets
      ensures Valid() && buckets == WithoutExpired(settings, old(buckets), now)
    {
      var todo := buckets.Keys;
      while todo != {}
        invariant buckets.Keys <= old(buckets).Keys && forall k :: k in buckets ==> buckets[k] == old(buckets)[k]
        invariant todo <= buckets.Keys
        invariant forall k :: k in old(buckets) && k !in todo ==> (k in buckets <==> now - old(buckets)[k].seenAt < settings.ttl)
      {
        var k :| k in todo;
        todo := todo - {k};
        if now - buckets[k].seenAt >= settings.ttl {
          buckets := buckets - {k};
        }
      }
    }

    method EvictOldest() returns (oldestKey: string)
      requires Valid() && buckets != map[]
      modifies this`buckets
      ensures Valid() && oldestKey in old(buckets) && buckets == old(buckets) - {oldestKey}
      ensures forall k :: k in old(buckets) ==> old(buckets)[oldestKey].seenAt <= old(buckets)[k].seenAt
    {
      oldestKey := "";
      var oldest := 0;
      var todo := buckets.Keys;
      while todo != {}
        invariant todo <= buckets.Keys
        invariant oldestKey == "" ==> todo == buckets.Keys
        invariant oldestKey != "" ==> oldestKey in buckets && oldest == buckets[oldestKey].seenAt
        invariant oldestKey != "" ==> forall k :: k in buckets && k !in todo ==> oldest <= buckets[k].seenAt
      {
        var k :| k in todo;
        todo := todo - {k};
        if oldestKey == "" || buckets[k].seenAt < oldest {
          oldestKey, oldest := k, buckets[k].seenAt;
        }
      }
      if oldestKey != "" {
        buckets := buckets - {oldestKey};
      }
    }
  }
}
