/** How many calls the limiter can admit over any run, under every interleaving of keys. */
module AdmissionBound {
  import opened Contract
  import opened Counting
  import opened RateLimit

  function After(s: Settings, st: State, events: seq<Event>): State
    requires s.Valid()
  {
    if events == [] then st
    else Step(s, After(s, st, events[..|events| - 1]), events[|events| - 1])
  }

  /** Every call is a legal step. */
  ghost predicate Run(s: Settings, st: State, events: seq<Event>)
    requires s.Valid()
  {
    events == [] ||
    (Run(s, st, events[..|events| - 1]) && Legal(s, After(s, st, events[..|events| - 1]), events[|events| - 1]))
  }

  /** How many of the calls for `key` are admitted. */
  function Admissions(s: Settings, st: State, events: seq<Event>, key: string): nat
    requires s.Valid()
  {
    if events == [] then 0
    else
      var last := events[|events| - 1];
      Admissions(s, st, events[..|events| - 1], key)
      + (if last.key == key && Admits(s, After(s, st, events[..|events| - 1]), last) then 1 else 0)
  }

  /** The bucket of `key` is never the one pushed out to make room. */
  predicate Spared(s: Settings, st: State, events: seq<Event>, key: string)
    requires s.Valid()
  {
    events == [] ||
    var last := events[|events| - 1];
    (Spared(s, st, events[..|events| - 1], key)
     && (Evicts(s, After(s, st, events[..|events| - 1]), last) ==> last.victim != key))
  }

  /** How far the clock moved forward, summed over the run; for a clock that never runs back, the run's length. */
  function Rise(events: seq<Event>): nat {
    if |events| <= 1 then 0
    else
      var n := |events| - 1;
      Rise(events[..n]) + (if events[n].now > events[n - 1].now then events[n].now - events[n - 1].now else 0)
  }

  ghost predicate Monotone(events: seq<Event>) {
    forall i, j :: 0 <= i < j < |events| ==> events[i].now <= events[j].now
  }

  lemma {:induction false} MonotoneRise(events: seq<Event>)
    requires events != [] && Monotone(events)
    ensures Rise(events) == events[|events| - 1].now - events[0].now
  {
    if |events| > 1 {
      MonotoneRise(events[..|events| - 1]);
    }
  }

  // ---- what every step keeps ----

  /** Buckets hold between nothing and a burst, and there are no more of them than allowed. */
  ghost predicate Bounded(s: Settings, st: State) {
    && (forall k :: k in st.buckets ==> 0.0 <= st.buckets[k].tokens <= s.burst as real)
    && |st.buckets| <= s.limit
  }

  lemma EarnedFacts(s: Settings, a: int, b: int)
    requires s.Valid()
    ensures Earned(s, a + b) == Earned(s, a) + Earned(s, b)
    ensures a <= b ==> Earned(s, a) <= Earned(s, b)
    ensures Earned(s, 0) == 0.0
  {
    var rate := s.refill as real / s.window as real;
    EarnedRate(s, a);
    EarnedRate(s, b);
    EarnedRate(s, a + b);
    assert (a + b) as real * rate == a as real * rate + b as real * rate;
    if a <= b {
      assert (b - a) as real * rate >= 0.0;
    }
  }

  lemma EarnedRate(s: Settings, a: int)
    requires s.Valid()
    ensures Earned(s, a) == a as real * (s.refill as real / s.window as real)
  {
  }

  /** A bucket idle for the time-to-live is full exactly under the settings' condition. */
  lemma IdleEarns(s: Settings)
    requires s.Valid()
    ensures s.IdleMeansFull() <==> Earned(s, s.ttl) >= s.burst as real
  {
    var product := s.ttl as real * s.refill as real;
    var w := s.window as real;
    assert product == (s.ttl * s.refill) as real;
    assert s.burst as real * w == (s.burst * s.window) as real;
    assert (product / w) * w == product;
    if product >= s.burst as real * w {
      DivideThrough(product, s.burst as real, w);
    } else {
      DivideStrictly(product, s.burst as real, w);
    }
  }

  lemma DivideThrough(x: real, y: real, w: real)
    requires w > 0.0 && x >= y * w
    ensures x / w >= y
  {
  }

  lemma DivideStrictly(x: real, y: real, w: real)
    requires w > 0.0 && x < y * w
    ensures x / w < y
  {
  }

  lemma CleanedSmaller(s: Settings, st: State, now: int)
    ensures Cleaned(s, st, now).buckets.Keys <= st.buckets.Keys
    ensures forall k :: k in Cleaned(s, st, now).buckets ==> Cleaned(s, st, now).buckets[k] == st.buckets[k]
    ensures |Cleaned(s, st, now).buckets| <= |st.buckets|
  {
    SubsetSize(Cleaned(s, st, now).buckets.Keys, st.buckets.Keys);
  }

  lemma RefilledBounds(s: Settings, b: Bucket, now: int)
    requires s.Valid() && 0.0 <= b.tokens <= s.burst as real
    ensures b.tokens <= Refilled(s, b, now) <= s.burst as real
  {
    hide Earned;
    EarnedFacts(s, 0, now - b.seenAt);
  }

  lemma StepBounded(s: Settings, st: State, e: Event)
    requires s.Valid() && Bounded(s, st) && Legal(s, st, e)
    ensures Bounded(s, Step(s, st, e))
  {
    hide Earned, Refilled, Cleaned;
    CleanedSmaller(s, st, e.now);
    var buckets := Cleaned(s, st, e.now).buckets;
    if e.key in buckets {
      RefilledBounds(s, buckets[e.key], e.now);
    }
    StepSize(s, st, e);
  }

  lemma KeyAdded<T>(kept: map<string, T>, key: string, value: T)
    ensures |kept[key := value]| == if key in kept then |kept| else |kept| + 1
  {
    assert kept[key := value].Keys == kept.Keys + {key};
    assert |kept.Keys| == |kept| && |kept[key := value].Keys| == |kept[key := value]|;
  }

  lemma KeyRemoved<T>(m: map<string, T>, key: string)
    requires key in m
    ensures |m - {key}| == |m| - 1
  {
    assert (m - {key}).Keys == m.Keys - {key};
    assert |m.Keys| == |m| && |(m - {key}).Keys| == |m - {key}|;
  }

  lemma StepSize(s: Settings, st: State, e: Event)
    requires s.Valid() && |st.buckets| <= s.limit && Legal(s, st, e)
    ensures |Step(s, st, e).buckets| <= s.limit
  {
    hide Earned, Refilled, Cleaned, Available;
    CleanedSmaller(s, st, e.now);
    var buckets := Cleaned(s, st, e.now).buckets;
    var kept := if Evicts(s, st, e) then buckets - {e.victim} else buckets;
    if Evicts(s, st, e) {
      KeyRemoved(buckets, e.victim);
    }
    KeyAdded(kept, e.key, Step(s, st, e).buckets[e.key]);
  }

  /** The invariant of every run. */
  lemma {:induction false} RunBounded(s: Settings, st: State, events: seq<Event>)
    requires s.Valid() && Bounded(s, st) && Run(s, st, events)
    ensures Bounded(s, After(s, st, events))
  {
    if events != [] {
      RunBounded(s, st, events[..|events| - 1]);
      StepBounded(s, After(s, st, events[..|events| - 1]), events[|events| - 1]);
    }
  }

  // ---- the bound ----

  /** The tokens `key` could spend at `now`. */
  function Potential(s: Settings, st: State, key: string, now: int): real
    requires s.Valid()
  {
    if key in st.buckets then Refilled(s, st.buckets[key], now) else s.burst as real
  }

  /** Waiting earns at the refill rate, at most. */
  lemma PotentialLater(s: Settings, st: State, key: string, t: int, u: int)
    requires s.Valid() && Bounded(s, st)
    ensures Potential(s, st, key, u) <= Potential(s, st, key, t) + Earned(s, if u > t then u - t else 0)
  {
    hide Earned;
    EarnedFacts(s, 0, if u > t then u - t else 0);
    if key in st.buckets {
      var b := st.buckets[key];
      RefilledBounds(s, b, t);
      RefilledBounds(s, b, u);
      if u > b.seenAt {
        if t > b.seenAt {
          EarnedFacts(s, t - b.seenAt, u - t);
          EarnedFacts(s, u - b.seenAt, t - b.seenAt);
        } else {
          EarnedFacts(s, u - b.seenAt, u - t);
        }
      }
    }
  }

  /** A step spends one token per admission and creates none: an expired bucket was full already. */
  lemma PotentialStep(s: Settings, st: State, e: Event, key: string)
    requires s.Valid() && s.IdleMeansFull() && Bounded(s, st)
    requires Evicts(s, st, e) ==> e.victim != key
    ensures Potential(s, Step(s, st, e), key, e.now) + (if e.key == key && Admits(s, st, e) then 1.0 else 0.0)
            == Potential(s, st, key, e.now)
  {
    hide Earned;
    IdleEarns(s);
    var buckets := Cleaned(s, st, e.now).buckets;
    if key in st.buckets && key !in buckets {
      EarnedFacts(s, s.ttl, e.now - st.buckets[key].seenAt);
    }
  }

  /** Whatever the clock does, a key spared by eviction spends at most a burst and what the clock's rise earns. */
  lemma {:induction false} AdmissionsBounded(s: Settings, st: State, events: seq<Event>, key: string)
    requires s.Valid() && s.IdleMeansFull() && Bounded(s, st)
    requires Run(s, st, events) && Spared(s, st, events, key)
    ensures Admissions(s, st, events, key) as real <= s.burst as real + Earned(s, Rise(events))
    ensures events != [] ==>
      Admissions(s, st, events, key) as real + Potential(s, After(s, st, events), key, events[|events| - 1].now)
      <= s.burst as real + Earned(s, Rise(events))
  {
    hide Earned, Refilled, Settings.IdleMeansFull, Step, Admits, Legal, Evicts;
    EarnedFacts(s, 0, Rise(events));
    if events != [] {
      var n := |events| - 1;
      var before, last := After(s, st, events[..n]), events[n];
      AdmissionsBounded(s, st, events[..n], key);
      RunBounded(s, st, events[..n]);
      RunBounded(s, st, events);
      PotentialStep(s, before, last, key);
      PotentialBounds(s, After(s, st, events), key, last.now);
      if n == 0 {
        PotentialBounds(s, before, key, last.now);
      } else {
        assert events[..n][n - 1] == events[n - 1];
        PotentialLater(s, before, key, events[n - 1].now, last.now);
        EarnedFacts(s, Rise(events[..n]), if last.now > events[n - 1].now then last.now - events[n - 1].now else 0);
      }
    }
  }

  lemma PotentialBounds(s: Settings, st: State, key: string, now: int)
    requires s.Valid() && Bounded(s, st)
    ensures 0.0 <= Potential(s, st, key, now) <= s.burst as real
  {
    if key in st.buckets {
      RefilledBounds(s, st.buckets[key], now);
    }
  }

  const FRESH := State(map[], None)

  /** `events` is a stretch of a run from the empty limiter, under a clock that never runs back, in which `key` is
    * never pushed out. */
  ghost predicate Stretch(s: Settings, history: seq<Event>, events: seq<Event>, key: string)
    requires s.Valid()
  {
    && Run(s, FRESH, history) && Run(s, After(s, FRESH, history), events)
    && Monotone(history + events) && events != []
    && Spared(s, After(s, FRESH, history), events, key)
  }

  /** A stretch admits a key no more than a burst, and the refill over its length. */
  ghost predicate WithinRate(s: Settings, history: seq<Event>, events: seq<Event>, key: string)
    requires s.Valid() && events != []
  {
    Admissions(s, After(s, FRESH, history), events, key) as real
    <= s.burst as real + Earned(s, events[|events| - 1].now - events[0].now)
  }

  ghost predicate RateLimited(s: Settings)
    requires s.Valid()
  {
    forall history, events, key :: Stretch(s, history, events, key) ==> WithinRate(s, history, events, key)
  }

  /** The settings limit the rate exactly when a bucket idle for the time-to-live is full. */
  lemma RateLimitedIff(s: Settings)
    requires s.Valid()
    ensures RateLimited(s) <==> s.IdleMeansFull()
  {
    if s.IdleMeansFull() {
      forall history, events, key | Stretch(s, history, events, key)
        ensures WithinRate(s, history, events, key)
      {
        RunBounded(s, FRESH, history);
        AdmissionsBounded(s, After(s, FRESH, history), events, key);
        MonotoneSuffix(history, events);
        MonotoneRise(events);
      }
    } else {
      Overrun(s);
    }
  }

  lemma MonotoneSuffix(history: seq<Event>, events: seq<Event>)
    requires Monotone(history + events)
    ensures Monotone(events)
  {
    forall i, j | 0 <= i < j < |events|
      ensures events[i].now <= events[j].now
    {
      var all := history + events;
      assert all[|history| + i] == events[i] && all[|history| + j] == events[j];
    }
  }

  // ---- settings that do not limit the rate ----

  /** `n` calls for `key` at once. */
  function Volley(key: string, now: int, n: nat): seq<Event> {
    if n == 0 then [] else Volley(key, now, n - 1) + [Event(key, now, "o")]
  }

  lemma {:induction false} VolleyTimes(key: string, now: int, n: nat)
    ensures |Volley(key, now, n)| == n && forall i :: 0 <= i < n ==> Volley(key, now, n)[i].now == now
  {
    if n > 0 {
      VolleyTimes(key, now, n - 1);
    }
  }

  lemma {:induction false} AfterConcat(s: Settings, st: State, first: seq<Event>, second: seq<Event>, key: string)
    requires s.Valid()
    ensures After(s, st, first + second) == After(s, After(s, st, first), second)
    ensures Run(s, st, first + second) <==> Run(s, st, first) && Run(s, After(s, st, first), second)
    ensures Spared(s, st, first + second, key) <==> Spared(s, st, first, key) && Spared(s, After(s, st, first), second, key)
    ensures Admissions(s, st, first + second, key) == Admissions(s, st, first, key) + Admissions(s, After(s, st, first), second, key)
  {
    hide Step, Legal, Evicts, Admits;
    var both := first + second;
    if second == [] {
      assert both == first;
    } else {
      var n := |second| - 1;
      assert both[..|both| - 1] == first + second[..n] && both[|both| - 1] == second[n];
      AfterConcat(s, st, first, second[..n], key);
    }
  }

  /** One call that finds a token in an up-to-date bucket. */
  lemma CallAdmitted(s: Settings, st: State, key: string, now: int)
    requires s.Valid() && key in st.buckets && st.buckets[key].seenAt == now && st.buckets[key].tokens >= 1.0
    requires !CleanupDue(s, st, now)
    ensures var e := Event(key, now, "o");
            Legal(s, st, e) && !Evicts(s, st, e) && Admits(s, st, e)
            && Step(s, st, e) == State(st.buckets[key := Bucket(st.buckets[key].tokens - 1.0, now)], st.lastCleanup)
  {
    hide Earned;
  }

  /** With no cleanup due, as many calls are admitted at once as the bucket holds tokens. */
  lemma {:induction false} VolleyAdmitted(s: Settings, st: State, key: string, now: int, n: nat)
    requires s.Valid() && key in st.buckets && st.buckets[key].seenAt == now && st.buckets[key].tokens >= n as real
    requires !CleanupDue(s, st, now)
    ensures Run(s, st, Volley(key, now, n)) && Spared(s, st, Volley(key, now, n), key)
    ensures Admissions(s, st, Volley(key, now, n), key) == n
    ensures After(s, st, Volley(key, now, n)) == State(st.buckets[key := Bucket(st.buckets[key].tokens - n as real, now)], st.lastCleanup)
  {
    hide Step, Admits, Legal, Evicts;
    if n > 0 {
      VolleyAdmitted(s, st, key, now, n - 1);
      var volley := Volley(key, now, n);
      assert volley[..|volley| - 1] == Volley(key, now, n - 1);
      CallAdmitted(s, After(s, st, Volley(key, now, n - 1)), key, now);
      var left := Bucket(st.buckets[key].tokens - n as real, now);
      assert After(s, st, Volley(key, now, n - 1)).buckets[key := left] == st.buckets[key := left];
    } else {
      assert st.buckets[key := st.buckets[key]] == st.buckets;
    }
  }

  /** A volley of a whole burst from a key without a bucket is admitted whole. */
  lemma FirstVolley(s: Settings, st: State, key: string, now: int)
    requires s.Valid() && key !in Cleaned(s, st, now).buckets
    requires forall k :: k in Cleaned(s, st, now).buckets ==> k == "o"
    requires key != "o"
    ensures Run(s, st, Volley(key, now, s.burst)) && Spared(s, st, Volley(key, now, s.burst), key)
    ensures Admissions(s, st, Volley(key, now, s.burst), key) == s.burst
    ensures var after := After(s, st, Volley(key, now, s.burst));
            after.lastCleanup == Cleaned(s, st, now).lastCleanup
            && key in after.buckets && after.buckets[key] == Bucket(0.0, now)
            && forall k :: k in after.buckets ==> k == "o" || k == key
  {
    var e := Event(key, now, "o");
    FirstCall(s, st, key, now);
    One(s, st, e);
    VolleySplit(key, now, s.burst);
    VolleyAdmitted(s, Step(s, st, e), key, now, s.burst - 1);
    hide Step, Admits, Evicts, Legal, Cleaned, Volley, After, Run, Spared, Admissions;
    AfterConcat(s, st, [e], Volley(key, now, s.burst - 1), key);
  }

  lemma One(s: Settings, st: State, e: Event)
    requires s.Valid()
    ensures After(s, st, [e]) == Step(s, st, e)
    ensures Run(s, st, [e]) <==> Legal(s, st, e)
    ensures forall key :: Spared(s, st, [e], key) <==> (Evicts(s, st, e) ==> e.victim != key)
    ensures Admissions(s, st, [e], e.key) == if Admits(s, st, e) then 1 else 0
  {
    hide Step, Admits, Evicts, Legal;
    assert [e][..0] == [];
    assert After(s, st, []) == st;
  }

  lemma FirstCall(s: Settings, st: State, key: string, now: int)
    requires s.Valid() && key !in Cleaned(s, st, now).buckets
    requires forall k :: k in Cleaned(s, st, now).buckets ==> k == "o"
    requires key != "o"
    ensures var e := Event(key, now, "o");
            Legal(s, st, e) && Admits(s, st, e)
            && Step(s, st, e).lastCleanup == Cleaned(s, st, now).lastCleanup
            && !CleanupDue(s, Step(s, st, e), now)
            && key in Step(s, st, e).buckets && Step(s, st, e).buckets[key] == Bucket(s.burst as real - 1.0, now)
            && forall k :: k in Step(s, st, e).buckets ==> k == "o" || k == key
  {
    hide Refilled;
    var e := Event(key, now, "o");
    var buckets := Cleaned(s, st, now).buckets;
    if Evicts(s, st, e) {
      assert buckets != map[];
      var k :| k in buckets;
    }
  }

  lemma {:induction false} VolleySplit(key: string, now: int, n: nat)
    requires n > 0
    ensures Volley(key, now, n) == [Event(key, now, "o")] + Volley(key, now, n - 1)
  {
    if n > 1 {
      VolleySplit(key, now, n - 1);
    }
  }

  lemma Opening(s: Settings)
    requires s.Valid()
    ensures var st := After(s, FRESH, [Event("o", 0, "o")]);
            Run(s, FRESH, [Event("o", 0, "o")]) && st.lastCleanup == Some(0) && forall k :: k in st.buckets ==> k == "o"
  {
    var e := Event("o", 0, "o");
    One(s, FRESH, e);
    assert Cleaned(s, FRESH, 0).buckets == map[];
  }

  /** Two bursts of "k" around its expiry are both admitted whole. */
  lemma TwoVolleys(s: Settings, start: int, stop: int)
    requires s.Valid() && 0 <= start < s.window <= stop && stop - start == s.ttl
    ensures var st := After(s, FRESH, [Event("o", 0, "o")]);
            var events := Volley("k", start, s.burst) + Volley("k", stop, s.burst);
            Run(s, st, events) && Spared(s, st, events, "k") && Admissions(s, st, events, "k") == 2 * s.burst
  {
    hide Step, Admits, Evicts, Legal, Volley, After, Run, Spared, Admissions, Refilled, Earned;
    var st := After(s, FRESH, [Event("o", 0, "o")]);
    Opening(s);
    FirstVolley(s, st, "k", start);
    FirstVolley(s, After(s, st, Volley("k", start, s.burst)), "k", stop);
    AfterConcat(s, st, Volley("k", start, s.burst), Volley("k", stop, s.burst), "k");
  }

  lemma VolleysMonotone(start: int, stop: int, n: nat)
    requires 0 <= start <= stop && n > 0
    ensures var events := Volley("k", start, n) + Volley("k", stop, n);
            |events| == 2 * n && Monotone([Event("o", 0, "o")] + events)
            && events[0].now == start && events[|events| - 1].now == stop
  {
    VolleyTimes("k", start, n);
    VolleyTimes("k", stop, n);
  }

  /** Two bursts, just far enough apart that a cleanup takes the empty bucket away. */
  lemma Overrun(s: Settings)
    requires s.Valid() && !s.IdleMeansFull()
    ensures !RateLimited(s)
  {
    hide Volley, After, Run, Spared, Admissions, Earned, Monotone, Settings.IdleMeansFull;
    var start := if s.window > s.ttl then s.window - s.ttl else 0;
    var stop := start + s.ttl;
    var opening := [Event("o", 0, "o")];
    var events := Volley("k", start, s.burst) + Volley("k", stop, s.burst);
    Opening(s);
    TwoVolleys(s, start, stop);
    VolleysMonotone(start, stop, s.burst);
    IdleEarns(s);
    assert Stretch(s, opening, events, "k") && !WithinRate(s, opening, events, "k");
  }

  lemma Append(s: Settings, st: State, events: seq<Event>, e: Event, key: string)
    requires s.Valid()
    ensures After(s, st, events + [e]) == Step(s, After(s, st, events), e)
    ensures Run(s, st, events + [e]) <==> Run(s, st, events) && Legal(s, After(s, st, events), e)
    ensures Spared(s, st, events + [e], key) <==> Spared(s, st, events, key) && (Evicts(s, After(s, st, events), e) ==> e.victim != key)
    ensures Admissions(s, st, events + [e], key) == Admissions(s, st, events, key) + (if e.key == key && Admits(s, After(s, st, events), e) then 1 else 0)
  {
    hide Step, Admits, Evicts, Legal;
    assert (events + [e])[..|events|] == events;
  }
}
