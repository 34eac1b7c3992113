/** Idle eviction with room for one bucket only, and the exact condition under which no caller can notice it. */
module LoneKey {
  import opened Contract
  import opened Counting
  import opened RateLimit
  import opened AdmissionBound
  import opened Eviction

  // ---- one key that notices ----

  /** A call that finds its bucket before a cleanup is due takes both limiters the same way. */
  lemma InStep(s: Settings, st: State, e: Event)
    requires s.Valid() && e.key in st.buckets && !CleanupDue(s, st, e.now)
    ensures var found := Refilled(s, st.buckets[e.key], e.now);
            var buckets := st.buckets[e.key := Bucket(if found >= 1.0 then found - 1.0 else found, e.now)];
            Step(s, st, e) == State(buckets, st.lastCleanup) && PatientStep(s, st.buckets, e) == buckets
  {
    hide Refilled;
  }

  lemma SameTime(s: Settings, tokens: real, now: int)
    requires s.Valid()
    ensures Refilled(s, Bucket(tokens, now), now) == tokens
  {
  }

  /** `m` calls at once that all find a token. */
  lemma {:induction false} VolleySpends(s: Settings, st: State, now: int, m: nat)
    requires s.Valid() && "k" in st.buckets && !CleanupDue(s, st, now)
    requires Refilled(s, st.buckets["k"], now) >= m as real && (m > 0 || st.buckets["k"].seenAt == now)
    ensures var buckets := st.buckets["k" := Bucket(Refilled(s, st.buckets["k"], now) - m as real, now)];
            After(s, st, Volley("k", now, m)) == State(buckets, st.lastCleanup)
            && PatientAfter(s, st.buckets, Volley("k", now, m)) == buckets
  {
    hide Step, PatientStep, Refilled;
    var found := Refilled(s, st.buckets["k"], now);
    if m == 0 {
      SameTime(s, st.buckets["k"].tokens, now);
      assert st.buckets["k"] == Bucket(found, now);
      assert st.buckets["k" := st.buckets["k"]] == st.buckets;
    } else {
      var volley := Volley("k", now, m);
      assert volley[..|volley| - 1] == Volley("k", now, m - 1) && volley[|volley| - 1] == Event("k", now, "o");
      if m == 1 {
        InStep(s, st, Event("k", now, "o"));
      } else {
        VolleySpends(s, st, now, m - 1);
        var before := After(s, st, Volley("k", now, m - 1));
        SameTime(s, found - (m - 1) as real, now);
        InStep(s, before, Event("k", now, "o"));
        assert before.buckets["k" := Bucket(found - m as real, now)] == st.buckets["k" := Bucket(found - m as real, now)];
      }
    }
  }

  /** The first call of all, at time zero. */
  lemma FirstOfAll(s: Settings)
    requires s.Valid()
    ensures var buckets := map["k" := Bucket(s.burst as real - 1.0, 0)];
            After(s, FRESH, Volley("k", 0, 1)) == State(buckets, Some(0)) && PatientAfter(s, map[], Volley("k", 0, 1)) == buckets
  {
    hide Refilled;
    var e := Event("k", 0, "o");
    assert Volley("k", 0, 0) == [] && Volley("k", 0, 1) == [e];
    assert [e][..0] == [];
    assert Cleaned(s, FRESH, 0) == State(map[], Some(0));
    assert After(s, FRESH, []) == FRESH && PatientAfter(s, map[], []) == map[];
  }

  /** One call at zero, `m` at `start`, before the next cleanup, and a burst at `stop`, when the bucket has expired. */
  function Calls(s: Settings, start: int, stop: int, m: nat): seq<Event>
    requires s.Valid()
  {
    (Volley("k", 0, 1) + Volley("k", start, m)) + Volley("k", stop, s.burst)
  }

  /** Both limiters hold the same bucket before `stop`. */
  lemma BeforeStop(s: Settings, start: int, m: nat, left: real)
    requires s.Valid() && 0 <= start < s.window && left >= 0.0 && (m > 0 || start == 0)
    requires Refilled(s, Bucket(s.burst as real - 1.0, 0), start) == left + m as real
    ensures var prefix := Volley("k", 0, 1) + Volley("k", start, m);
            var buckets := map["k" := Bucket(left, start)];
            After(s, FRESH, prefix) == State(buckets, Some(0)) && PatientAfter(s, map[], prefix) == buckets
  {
    hide Volley, After, PatientAfter, Earned, Step, PatientStep, Run, Spared, Admissions, Refilled;
    var st := State(map["k" := Bucket(s.burst as real - 1.0, 0)], Some(0));
    FirstOfAll(s);
    VolleySpends(s, st, start, m);
    AfterConcat(s, FRESH, Volley("k", 0, 1), Volley("k", start, m), "k");
    PatientConcat(s, map[], Volley("k", 0, 1), Volley("k", start, m));
  }

  lemma Expired(s: Settings, start: int, stop: int, left: real)
    requires s.Valid() && 0 <= start < s.window <= stop && stop - start == s.ttl
    requires left + Earned(s, s.ttl) < s.burst as real
    ensures var buckets := map["k" := Bucket(left, start)];
            Cleaned(s, State(buckets, Some(0)), stop).buckets == map[]
            && PatientAvailable(s, buckets, Event("k", stop, "o")) < s.burst as real
  {
    hide Earned;
  }

  /** A key alone notices if the calls leave it too little for the time-to-live to fill. */
  lemma ExpiredShows(s: Settings, start: int, stop: int, m: nat, left: real)
    requires s.Valid() && 0 <= start < s.window <= stop && stop - start == s.ttl && left >= 0.0 && (m > 0 || start == 0)
    requires Refilled(s, Bucket(s.burst as real - 1.0, 0), start) == left + m as real && left + Earned(s, s.ttl) < s.burst as real
    ensures !SameAnswers(s, Calls(s, start, stop, m))
  {
    hide Volley, After, PatientAfter, Earned, Refilled, Cleaned, PatientAvailable, SameAnswers;
    BeforeStop(s, start, m, left);
    Expired(s, start, stop, left);
    ForgottenShows(s, Volley("k", 0, 1) + Volley("k", start, m), stop);
  }

  lemma CallsInOrder(s: Settings, start: int, stop: int, m: nat)
    requires s.Valid() && 0 <= start <= stop
    ensures Monotone(Calls(s, start, stop, m)) && |Keys(Calls(s, start, stop, m))| <= 1
  {
    hide Volley;
    VolleyTimes("k", 0, 1);
    VolleyTimes("k", start, m);
    VolleyTimes("k", stop, s.burst);
    VolleyKeys("k", 0, 1);
    VolleyKeys("k", start, m);
    VolleyKeys("k", stop, s.burst);
    SubsetSize(Keys(Calls(s, start, stop, m)), {"k"});
  }

  lemma Tick(s: Settings)
    requires s.Valid()
    ensures Earned(s, s.window) == s.refill as real
    ensures s.refill >= 2 && s.window >= 2 ==> Earned(s, s.window - 1) >= 1.0
    ensures s.refill == 1 ==> forall t :: 0 <= t < s.window ==> Earned(s, t) < 1.0
  {
    var w := s.window as real;
    assert w * s.refill as real / w == s.refill as real;
    if s.refill >= 2 && s.window >= 2 {
      assert (s.window - 1) * s.refill >= 2 * (s.window - 1) >= s.window;
      assert ((s.window - 1) * s.refill) as real == (s.window - 1) as real * s.refill as real;
      DivideThrough((s.window - 1) as real * s.refill as real, 1.0, w);
    }
    if s.refill == 1 {
      forall t | 0 <= t < s.window
        ensures Earned(s, t) < 1.0
      {
        DivideStrictly(t as real, 1.0, w);
      }
    }
  }

  /** One key alone notices, unless the bucket holds one token and earns one in a window. */
  lemma OneKeyShows(s: Settings)
    requires s.Valid() && !s.IdleMeansFull() && !(s.burst == 1 && s.refill == 1)
    ensures exists events :: Monotone(events) && |Keys(events)| <= 1 && !SameAnswers(s, events)
  {
    hide Earned, Settings.IdleMeansFull, Monotone, Keys, SameAnswers, Calls;
    Tick(s);
    IdleEarns(s);
    EarnedFacts(s, 0, 0);
    var start, m, left;
    if s.ttl >= s.window {
      start, m, left := 0, s.burst - 1, 0.0;
    } else if s.refill >= 2 {
      start, m, left := s.window - 1, s.burst, 0.0;
    } else {
      start, m, left := s.window - s.ttl, s.burst - 1, Earned(s, s.window - s.ttl);
      EarnedFacts(s, start, s.ttl);
    }
    EarnedFacts(s, 0, start);
    ExpiredShows(s, start, start + s.ttl, m, left);
    CallsInOrder(s, start, start + s.ttl, m);
  }

  // ---- one token, earned in a window ----

  /** The one bucket has spent its token at the last cleanup, and both limiters know what it earned since. */
  ghost predicate Locked(s: Settings, st: State, patient: map<string, Bucket>, key: string, now: int)
    requires s.Valid()
  {
    && st.lastCleanup.Some? && st.buckets == patient && patient.Keys == {key}
    && st.lastCleanup.value <= patient[key].seenAt <= now && patient[key].seenAt - st.lastCleanup.value < s.window
    && patient[key].tokens == Earned(s, patient[key].seenAt - st.lastCleanup.value)
  }

  lemma LockedStart(s: Settings, e: Event)
    requires s.Valid() && s.burst == 1 && s.refill == 1
    ensures Available(s, FRESH, e) == PatientAvailable(s, map[], e)
    ensures Locked(s, Step(s, FRESH, e), PatientStep(s, map[], e), e.key, e.now)
  {
    assert Cleaned(s, FRESH, e.now) == State(map[], Some(e.now));
    EarnedFacts(s, 0, 0);
    hide Earned;
  }

  /** Before the next cleanup the token has not come back. */
  lemma LockedWaits(s: Settings, st: State, patient: map<string, Bucket>, e: Event)
    requires s.Valid() && s.burst == 1 && s.refill == 1 && Locked(s, st, patient, e.key, e.now) && !CleanupDue(s, st, e.now)
    ensures Available(s, st, e) == PatientAvailable(s, patient, e)
    ensures Locked(s, Step(s, st, e), PatientStep(s, patient, e), e.key, e.now)
  {
    Tick(s);
    var c, seen := st.lastCleanup.value, patient[e.key].seenAt;
    EarnedFacts(s, seen - c, e.now - seen);
    hide Earned, Step, PatientStep;
    InStep(s, st, e);
    assert Refilled(s, patient[e.key], e.now) == Earned(s, e.now - c) < 1.0;
  }

  /** When a cleanup is due the token is back, whether or not the bucket is forgotten. */
  lemma LockedTurns(s: Settings, st: State, patient: map<string, Bucket>, e: Event)
    requires s.Valid() && s.burst == 1 && s.refill == 1 && Locked(s, st, patient, e.key, e.now) && CleanupDue(s, st, e.now)
    ensures Available(s, st, e) == PatientAvailable(s, patient, e) == 1.0
    ensures Cleaned(s, st, e.now) == State(map[], Some(e.now)) || Cleaned(s, st, e.now) == State(patient, Some(e.now))
  {
    Tick(s);
    var c, seen := st.lastCleanup.value, patient[e.key].seenAt;
    EarnedFacts(s, seen - c, e.now - seen);
    EarnedFacts(s, s.window, e.now - c);
    hide Earned;
    if e.now - seen >= s.ttl {
      assert WithoutExpired(s, st.buckets, e.now) == map[];
    } else {
      assert WithoutExpired(s, st.buckets, e.now) == st.buckets;
    }
  }

  lemma LockedSpends(s: Settings, st: State, patient: map<string, Bucket>, e: Event)
    requires s.Valid() && patient.Keys == {e.key}
    requires Available(s, st, e) == PatientAvailable(s, patient, e) == 1.0
    requires Cleaned(s, st, e.now) == State(map[], Some(e.now)) || Cleaned(s, st, e.now) == State(patient, Some(e.now))
    ensures Locked(s, Step(s, st, e), PatientStep(s, patient, e), e.key, e.now)
  {
    EarnedFacts(s, 0, 0);
    hide Earned, Available, PatientAvailable, Cleaned;
    var spent := Bucket(0.0, e.now);
    assert patient[e.key := spent] == map[e.key := spent];
  }

  lemma LockedStep(s: Settings, st: State, patient: map<string, Bucket>, e: Event)
    requires s.Valid() && s.burst == 1 && s.refill == 1 && Locked(s, st, patient, e.key, e.now)
    ensures Available(s, st, e) == PatientAvailable(s, patient, e)
    ensures Locked(s, Step(s, st, e), PatientStep(s, patient, e), e.key, e.now)
  {
    hide Available, PatientAvailable, Step, PatientStep, Cleaned, CleanupDue;
    if CleanupDue(s, st, e.now) {
      LockedTurns(s, st, patient, e);
      LockedSpends(s, st, patient, e);
    } else {
      LockedWaits(s, st, patient, e);
    }
  }

  lemma LockedLater(s: Settings, st: State, patient: map<string, Bucket>, key: string, now: int, later: int)
    requires s.Valid() && Locked(s, st, patient, key, now) && now <= later
    ensures Locked(s, st, patient, key, later)
  {
  }

  /** A key alone, with one token earned in a window, has its token back whenever it might be forgotten. */
  lemma {:induction false} OneKeyLocked(s: Settings, events: seq<Event>)
    requires s.Valid() && s.burst == 1 && s.refill == 1 && Monotone(events) && |Keys(events)| <= 1
    ensures SameAnswers(s, events)
    ensures events != [] ==>
              var last := events[|events| - 1];
              Locked(s, After(s, FRESH, events), PatientAfter(s, map[], events), last.key, last.now)
  {
    hide Locked, Available, PatientAvailable, Step, PatientStep, SameAnswers, Monotone, Keys;
    if events == [] {
      StartsAlike(s, 0);
    } else {
      var n := |events| - 1;
      assert events == events[..n] + [events[n]];
      FewerKeys(events);
      MonotonePrefix(events);
      OneKeyLocked(s, events[..n]);
      if n == 0 {
        assert events[..0] == [];
        LockedStart(s, events[0]);
      } else {
        assert events[..n][n - 1] == events[n - 1];
        SameKey(events, n - 1, n);
        var st, patient := After(s, FRESH, events[..n]), PatientAfter(s, map[], events[..n]);
        LockedLater(s, st, patient, events[n].key, events[n - 1].now, events[n].now);
        LockedStep(s, st, patient, events[n]);
      }
      SameAnswersExtend(s, events);
    }
  }

  lemma SameKey(events: seq<Event>, i: nat, j: nat)
    requires |Keys(events)| <= 1 && i < |events| && j < |events|
    ensures events[i].key == events[j].key
  {
    assert events[i] in events && events[j] in events;
    if events[i].key != events[j].key {
      SubsetSize({events[i].key, events[j].key}, Keys(events));
    }
  }

  // ---- the exact condition ----

  /** Below the bucket limit, evicting idle buckets changes no answer exactly when idle means full, or when there is
    * room for a single bucket of one token that earns one in a window. */
  lemma EvictionInvisibleIff(s: Settings)
    requires s.Valid()
    ensures (forall events: seq<Event> :: Monotone(events) && |Keys(events)| <= s.limit ==> SameAnswers(s, events))
            <==> s.IdleMeansFull() || (s.limit == 1 && s.burst == 1 && s.refill == 1)
  {
    hide Settings.IdleMeansFull, Monotone, SameAnswers, Keys;
    if s.IdleMeansFull() {
      forall events: seq<Event> | Monotone(events) && |Keys(events)| <= s.limit
        ensures SameAnswers(s, events)
      {
        RunRemembers(s, events, if events == [] then 0 else events[|events| - 1].now);
      }
    } else if s.limit == 1 && s.burst == 1 && s.refill == 1 {
      forall events: seq<Event> | Monotone(events) && |Keys(events)| <= s.limit
        ensures SameAnswers(s, events)
      {
        OneKeyLocked(s, events);
      }
    } else if s.limit == 1 {
      OneKeyShows(s);
    } else {
      TwoKeysShow(s);
    }
  }
}
