/** What evicting idle buckets costs callers, nothing, and what a refusal promises them. */
module Eviction {
  import opened Counting
  import opened RateLimit
  import opened AdmissionBound

  // ---- a limiter that never forgets ----

  function PatientAvailable(s: Settings, buckets: map<string, Bucket>, e: Event): real
    requires s.Valid()
  {
    if e.key in buckets then Refilled(s, buckets[e.key], e.now) else s.burst as real
  }

  function PatientStep(s: Settings, buckets: map<string, Bucket>, e: Event): map<string, Bucket>
    requires s.Valid()
  {
    var tokens := PatientAvailable(s, buckets, e);
    buckets[e.key := Bucket(if tokens >= 1.0 then tokens - 1.0 else tokens, e.now)]
  }

  function PatientAfter(s: Settings, buckets: map<string, Bucket>, events: seq<Event>): map<string, Bucket>
    requires s.Valid()
  {
    if events == [] then buckets
    else PatientStep(s, PatientAfter(s, buckets, events[..|events| - 1]), events[|events| - 1])
  }

  /** Both limiters answer every call of the run alike. */
  ghost predicate SameAnswers(s: Settings, events: seq<Event>)
    requires s.Valid()
  {
    forall i :: 0 <= i < |events| ==>
      Admits(s, After(s, FRESH, events[..i]), events[i]) == (PatientAvailable(s, PatientAfter(s, map[], events[..i]), events[i]) >= 1.0)
  }

  ghost function Keys(events: seq<Event>): set<string> {
    set e | e in events :: e.key
  }

  /** A bucket that is full at `now` and stays so until used. */
  ghost predicate Full(s: Settings, b: Bucket, now: int)
    requires s.Valid()
  {
    b.seenAt <= now && b.tokens <= s.burst as real && b.tokens + Earned(s, now - b.seenAt) >= s.burst as real
  }

  /** The patient limiter remembers every live bucket as it is, and otherwise only full ones. */
  ghost predicate Remembers(s: Settings, st: State, patient: map<string, Bucket>, now: int)
    requires s.Valid()
  {
    && (forall k :: k in st.buckets ==> k in patient && patient[k] == st.buckets[k])
    && (forall k :: k in patient && k !in st.buckets ==> Full(s, patient[k], now))
    && (forall k :: k in patient ==> patient[k].seenAt <= now && 0.0 <= patient[k].tokens <= s.burst as real)
  }

  lemma RemembersLater(s: Settings, st: State, patient: map<string, Bucket>, now: int, later: int)
    requires s.Valid() && Remembers(s, st, patient, now) && now <= later
    ensures Remembers(s, st, patient, later)
  {
    hide Earned;
    forall k | k in patient && k !in st.buckets
      ensures Full(s, patient[k], later)
    {
      EarnedFacts(s, now - patient[k].seenAt, later - patient[k].seenAt);
    }
  }

  lemma RemembersCleaned(s: Settings, st: State, patient: map<string, Bucket>, now: int)
    requires s.Valid() && s.IdleMeansFull() && Remembers(s, st, patient, now)
    ensures Remembers(s, Cleaned(s, st, now), patient, now)
  {
    hide Earned, Settings.IdleMeansFull;
    IdleEarns(s);
    forall k | k in st.buckets && k !in Cleaned(s, st, now).buckets
      ensures Full(s, patient[k], now)
    {
      EarnedFacts(s, s.ttl, now - patient[k].seenAt);
    }
  }

  /** A full bucket refills to a burst, like one that was forgotten. */
  lemma RemembersAvailable(s: Settings, st: State, patient: map<string, Bucket>, e: Event)
    requires s.Valid() && s.IdleMeansFull() && Remembers(s, st, patient, e.now)
    ensures Available(s, st, e) == PatientAvailable(s, patient, e)
  {
    RemembersCleaned(s, st, patient, e.now);
    hide Earned, Settings.IdleMeansFull, Cleaned;
    EarnedFacts(s, 0, 0);
  }

  lemma RemembersStep(s: Settings, st: State, patient: map<string, Bucket>, e: Event)
    requires s.Valid() && s.IdleMeansFull() && Remembers(s, st, patient, e.now) && !Evicts(s, st, e)
    ensures Remembers(s, Step(s, st, e), PatientStep(s, patient, e), e.now)
  {
    RemembersAvailable(s, st, patient, e);
    RemembersCleaned(s, st, patient, e.now);
    var cleaned := Cleaned(s, st, e.now);
    if e.key in cleaned.buckets {
      RefilledBounds(s, cleaned.buckets[e.key], e.now);
    }
    hide Earned, Settings.IdleMeansFull, Cleaned, Refilled, Full;
  }

  /** Too few keys to fill the limiter: nobody is ever pushed out. */
  lemma {:induction false} FewKeysFit(s: Settings, events: seq<Event>)
    requires s.Valid()
    ensures After(s, FRESH, events).buckets.Keys <= Keys(events)
  {
    if events != [] {
      var n := |events| - 1;
      FewKeysFit(s, events[..n]);
      assert events == events[..n] + [events[n]];
      CleanedSmaller(s, After(s, FRESH, events[..n]), events[n].now);
    }
  }

  lemma NoEviction(s: Settings, events: seq<Event>, e: Event)
    requires s.Valid() && |Keys(events + [e])| <= s.limit
    ensures !Evicts(s, After(s, FRESH, events), e)
  {
    FewKeysFit(s, events);
    var st := After(s, FRESH, events);
    CleanedSmaller(s, st, e.now);
    var buckets := Cleaned(s, st, e.now).buckets;
    assert Keys(events + [e]) == Keys(events) + {e.key};
    if e.key !in buckets {
      SubsetSize(buckets.Keys, Keys(events + [e]) - {e.key});
      assert |buckets| == |buckets.Keys|;
    }
  }

  /** Below the bucket limit, the limiter tracks one that never evicts. */
  lemma {:induction false} RunRemembers(s: Settings, events: seq<Event>, now: int)
    requires s.Valid() && s.IdleMeansFull() && Monotone(events) && |Keys(events)| <= s.limit
    requires events != [] ==> events[|events| - 1].now <= now
    ensures Remembers(s, After(s, FRESH, events), PatientAfter(s, map[], events), now)
    ensures SameAnswers(s, events)
  {
    hide Remembers, Settings.IdleMeansFull, Settings.Valid, Available, PatientAvailable, Keys, Step, PatientStep, SameAnswers,
         Evicts, Monotone, Earned, Refilled, Full;
    if events == [] {
      StartsAlike(s, now);
    } else {
      var n := |events| - 1;
      assert events == events[..n] + [events[n]];
      FewerKeys(events);
      assert Monotone(events[..n]) && (n > 0 ==> events[n - 1].now <= events[n].now) by {
        MonotonePrefix(events);
      }
      RunRemembers(s, events[..n], events[n].now);
      var st, patient := After(s, FRESH, events[..n]), PatientAfter(s, map[], events[..n]);
      NoEviction(s, events[..n], events[n]);
      RemembersAvailable(s, st, patient, events[n]);
      RemembersStep(s, st, patient, events[n]);
      RemembersLater(s, After(s, FRESH, events), PatientAfter(s, map[], events), events[n].now, now);
      SameAnswersExtend(s, events);
    }
  }

  lemma StartsAlike(s: Settings, now: int)
    requires s.Valid()
    ensures Remembers(s, FRESH, map[], now) && SameAnswers(s, [])
  {
  }

  lemma MonotonePrefix(events: seq<Event>)
    requires events != [] && Monotone(events)
    ensures Monotone(events[..|events| - 1])
    ensures |events| > 1 ==> events[|events| - 2].now <= events[|events| - 1].now
  {
  }

  lemma FewerKeys(events: seq<Event>)
    requires events != []
    ensures |Keys(events[..|events| - 1])| <= |Keys(events)|
  {
    SubsetSize(Keys(events[..|events| - 1]), Keys(events));
  }

  lemma SameAnswersExtend(s: Settings, events: seq<Event>)
    requires s.Valid() && events != []
    requires var n := |events| - 1;
             SameAnswers(s, events[..n])
             && Available(s, After(s, FRESH, events[..n]), events[n]) == PatientAvailable(s, PatientAfter(s, map[], events[..n]), events[n])
    ensures SameAnswers(s, events)
  {
    hide Available, PatientAvailable, After, PatientAfter;
    var n := |events| - 1;
    forall i | 0 <= i < |events|
      ensures Admits(s, After(s, FRESH, events[..i]), events[i]) == (PatientAvailable(s, PatientAfter(s, map[], events[..i]), events[i]) >= 1.0)
    {
      if i < n {
        assert events[..n][..i] == events[..i] && events[..n][i] == events[i];
      }
    }
  }

  /** The patient limiter refuses one of `n` calls at once when fewer than `n` tokens are there. */
  lemma {:induction false} PatientRefuses(s: Settings, buckets: map<string, Bucket>, key: string, now: int, n: nat)
    requires s.Valid() && n > 0 && PatientAvailable(s, buckets, Event(key, now, "o")) < n as real
    ensures exists i :: 0 <= i < n && PatientAvailable(s, PatientAfter(s, buckets, Volley(key, now, i)), Event(key, now, "o")) < 1.0
    decreases n
  {
    hide PatientAvailable, PatientStep, PatientAfter, Volley;
    var e := Event(key, now, "o");
    if PatientAvailable(s, buckets, e) < 1.0 {
      PatientStart(s, buckets, e);
      assert PatientAvailable(s, PatientAfter(s, buckets, Volley(key, now, 0)), e) < 1.0;
    } else {
      PatientSpends(s, buckets, e);
      PatientRefuses(s, PatientStep(s, buckets, e), key, now, n - 1);
      var i :| 0 <= i < n - 1 && PatientAvailable(s, PatientAfter(s, PatientStep(s, buckets, e), Volley(key, now, i)), e) < 1.0;
      VolleySplit(key, now, i + 1);
      PatientConcat(s, buckets, [e], Volley(key, now, i));
      PatientStart(s, buckets, e);
      assert PatientAvailable(s, PatientAfter(s, buckets, Volley(key, now, i + 1)), e) < 1.0;
    }
  }

  lemma PatientSpends(s: Settings, buckets: map<string, Bucket>, e: Event)
    requires s.Valid() && PatientAvailable(s, buckets, e) >= 1.0
    ensures PatientAvailable(s, PatientStep(s, buckets, e), e) == PatientAvailable(s, buckets, e) - 1.0
  {
    hide Earned;
  }

  lemma PatientStart(s: Settings, buckets: map<string, Bucket>, e: Event)
    requires s.Valid()
    ensures PatientAfter(s, buckets, Volley(e.key, e.now, 0)) == buckets
    ensures PatientAfter(s, buckets, [e]) == PatientStep(s, buckets, e)
  {
    hide PatientStep;
    assert [e][..0] == [];
    assert PatientAfter(s, buckets, []) == buckets;
  }

  lemma {:induction false} PatientConcat(s: Settings, buckets: map<string, Bucket>, first: seq<Event>, second: seq<Event>)
    requires s.Valid()
    ensures PatientAfter(s, buckets, first + second) == PatientAfter(s, PatientAfter(s, buckets, first), second)
  {
    hide PatientStep;
    if second == [] {
      assert first + second == first;
    } else {
      var n := |second| - 1;
      assert (first + second)[..|first + second| - 1] == first + second[..n];
      PatientConcat(s, buckets, first, second[..n]);
    }
  }

  lemma {:induction false} VolleyPrefix(key: string, now: int, n: nat, i: nat)
    requires i < n
    ensures |Volley(key, now, n)| == n && Volley(key, now, n)[..i] == Volley(key, now, i) && Volley(key, now, n)[i] == Event(key, now, "o")
  {
    VolleyTimes(key, now, n);
    if i < n - 1 {
      VolleyPrefix(key, now, n - 1, i);
    } else {
      VolleyTimes(key, now, i);
      assert Volley(key, now, n)[..i] == Volley(key, now, i);
    }
  }

  lemma PatientCall(s: Settings, buckets: map<string, Bucket>, e: Event, tokens: real)
    requires s.Valid() && tokens >= 1.0
    requires if e.key in buckets then buckets[e.key] == Bucket(tokens, e.now) else tokens == s.burst as real
    ensures PatientStep(s, buckets, e) == buckets[e.key := Bucket(tokens - 1.0, e.now)]
  {
    hide Earned;
  }

  /** The patient limiter remembers what a volley of a new key has spent. */
  lemma {:induction false} PatientSpent(s: Settings, buckets: map<string, Bucket>, key: string, now: int, n: nat)
    requires s.Valid() && key !in buckets && 1 <= n <= s.burst
    ensures PatientAfter(s, buckets, Volley(key, now, n)) == buckets[key := Bucket((s.burst - n) as real, now)]
  {
    hide PatientStep;
    var volley := Volley(key, now, n);
    assert volley[..|volley| - 1] == Volley(key, now, n - 1);
    if n > 1 {
      PatientSpent(s, buckets, key, now, n - 1);
    }
    var before := PatientAfter(s, buckets, Volley(key, now, n - 1));
    PatientCall(s, before, Event(key, now, "o"), (s.burst - n + 1) as real);
  }

  /** If every call of a volley counts as admitted, each one was. */
  lemma {:induction false} AllAdmitted(s: Settings, st: State, key: string, now: int, n: nat, i: nat)
    requires s.Valid() && Admissions(s, st, Volley(key, now, n), key) == n && i < n
    ensures Admits(s, After(s, st, Volley(key, now, i)), Event(key, now, "o"))
  {
    hide Step, Admits;
    var volley := Volley(key, now, n);
    assert volley[..|volley| - 1] == Volley(key, now, n - 1);
    AtMostAll(s, st, key, now, n - 1);
    if i < n - 1 {
      AllAdmitted(s, st, key, now, n - 1, i);
    }
  }

  lemma {:induction false} AtMostAll(s: Settings, st: State, key: string, now: int, n: nat)
    requires s.Valid()
    ensures Admissions(s, st, Volley(key, now, n), key) <= n
  {
    hide Step, Admits, After;
    if n > 0 {
      var volley := Volley(key, now, n);
      assert volley[..|volley| - 1] == Volley(key, now, n - 1);
      AtMostAll(s, st, key, now, n - 1);
    }
  }

  lemma {:induction false} VolleyKeys(key: string, now: int, n: nat)
    ensures forall e :: e in Volley(key, now, n) ==> e.key == key
  {
    if n > 0 {
      VolleyKeys(key, now, n - 1);
    }
  }

  const OPENING := [Event("o", 0, "o")]

  /** If the limiter has forgotten "k" at `stop`, where the patient one has less than a burst for it, a burst at `stop`
    * is admitted whole by the one and not by the other. */
  lemma ForgottenShows(s: Settings, prefix: seq<Event>, stop: int)
    requires s.Valid()
    requires forall k :: k in Cleaned(s, After(s, FRESH, prefix), stop).buckets ==> k == "o"
    requires PatientAvailable(s, PatientAfter(s, map[], prefix), Event("k", stop, "o")) < s.burst as real
    ensures !SameAnswers(s, prefix + Volley("k", stop, s.burst))
  {
    hide Volley, After, PatientAfter, Admissions, Earned, Admits, PatientStep, PatientAvailable, Run, Spared, Step, Evicts, Legal, Cleaned;
    var st, patient := After(s, FRESH, prefix), PatientAfter(s, map[], prefix);
    var events := prefix + Volley("k", stop, s.burst);
    PatientRefuses(s, patient, "k", stop, s.burst);
    var j :| 0 <= j < s.burst && PatientAvailable(s, PatientAfter(s, patient, Volley("k", stop, j)), Event("k", stop, "o")) < 1.0;
    var i := |prefix| + j;
    VolleyPrefix("k", stop, s.burst, j);
    assert i < |events| && events[..i] == prefix + Volley("k", stop, j) && events[i] == Event("k", stop, "o");
    FirstVolley(s, st, "k", stop);
    AllAdmitted(s, st, "k", stop, s.burst, j);
    AfterConcat(s, FRESH, prefix, Volley("k", stop, j), "k");
    PatientConcat(s, map[], prefix, Volley("k", stop, j));
  }

  /** With room for two keys, another key's call can set the time of the cleanup that forgets "k" before it is full. */
  lemma TwoKeysShow(s: Settings)
    requires s.Valid() && !s.IdleMeansFull() && s.limit >= 2
    ensures exists events :: Monotone(events) && |Keys(events)| <= s.limit && !SameAnswers(s, events)
  {
    hide Volley, Monotone, SameAnswers, Settings.IdleMeansFull, Keys;
    var start := if s.window > s.ttl then s.window - s.ttl else 0;
    var stop := start + s.ttl;
    var prefix := OPENING + Volley("k", start, s.burst);
    var events := prefix + Volley("k", stop, s.burst);
    Forgets(s, start, stop);
    ForgottenShows(s, prefix, stop);
    assert events == OPENING + (Volley("k", start, s.burst) + Volley("k", stop, s.burst));
    VolleysMonotone(start, stop, s.burst);
    EventsKeys(s, start, stop);
  }

  lemma EventsKeys(s: Settings, start: int, stop: int)
    requires s.Valid() && s.limit >= 2
    ensures |Keys(OPENING + (Volley("k", start, s.burst) + Volley("k", stop, s.burst)))| <= s.limit
  {
    hide Volley;
    VolleyKeys("k", start, s.burst);
    VolleyKeys("k", stop, s.burst);
    SubsetSize(Keys(OPENING + (Volley("k", start, s.burst) + Volley("k", stop, s.burst))), {"o", "k"});
  }

  /** The cleanup due at `stop` forgets a bucket that has earned too little since `start`. */
  lemma Forgets(s: Settings, start: int, stop: int)
    requires s.Valid() && !s.IdleMeansFull() && 0 <= start < s.window <= stop && stop - start == s.ttl
    ensures var prefix := OPENING + Volley("k", start, s.burst);
            && (forall k :: k in Cleaned(s, After(s, FRESH, prefix), stop).buckets ==> k == "o")
            && PatientAvailable(s, PatientAfter(s, map[], prefix), Event("k", stop, "o")) < s.burst as real
  {
    hide Volley, After, PatientAfter, Admissions, Earned, Settings.IdleMeansFull, PatientStep, Run, Spared, Step, Evicts, Legal;
    Opening(s);
    FirstVolley(s, After(s, FRESH, OPENING), "k", start);
    AfterConcat(s, FRESH, OPENING, Volley("k", start, s.burst), "k");
    PatientConcat(s, map[], OPENING, Volley("k", start, s.burst));
    PatientOpening(s);
    PatientSpent(s, PatientAfter(s, map[], OPENING), "k", start, s.burst);
    IdleEarns(s);
  }

  lemma PatientOpening(s: Settings)
    requires s.Valid()
    ensures "k" !in PatientAfter(s, map[], OPENING)
  {
    assert OPENING[..0] == [];
    assert PatientAfter(s, map[], []) == map[];
  }

  // ---- what a refusal promises ----

  /** No call for `key` in the run is admitted. */
  predicate Refused(s: Settings, st: State, events: seq<Event>, key: string)
    requires s.Valid()
  {
    Admissions(s, st, events, key) == 0
  }

  /** Refused calls cost nothing: what `key` has, or would have, is at least what the time since `t` earns. */
  ghost predicate EarnsFrom(s: Settings, st: State, key: string, t: int)
    requires s.Valid()
  {
    key in st.buckets ==> st.buckets[key].tokens >= Earned(s, st.buckets[key].seenAt - t)
  }

  lemma RefusalCostsNothing(s: Settings, st: State, e: Event, key: string, t: int)
    requires s.Valid() && EarnsFrom(s, st, key, t)
    requires e.key == key ==> !Admits(s, st, e)
    ensures EarnsFrom(s, Step(s, st, e), key, t)
  {
    hide Earned;
    if e.key == key {
      var b := st.buckets[key];
      EarnedFacts(s, b.seenAt - t, e.now - b.seenAt);
      EarnedFacts(s, e.now - t, b.seenAt - t);
    }
  }

  lemma {:induction false} RefusalsCostNothing(s: Settings, st: State, events: seq<Event>, key: string, t: int)
    requires s.Valid() && EarnsFrom(s, st, key, t) && Refused(s, st, events, key)
    ensures EarnsFrom(s, After(s, st, events), key, t)
  {
    if events != [] {
      var n := |events| - 1;
      RefusalsCostNothing(s, st, events[..n], key, t);
      RefusalCostsNothing(s, After(s, st, events[..n]), events[n], key, t);
    }
  }

  lemma RetryEarnsOne(s: Settings)
    requires s.Valid()
    ensures Earned(s, RetryAfter(s)) >= 1.0
  {
    var seconds := s.window as real / SECOND as real / s.refill as real;
    var n := Ceil(seconds);
    assert n as real >= seconds;
    assert (n * SECOND) as real == n as real * SECOND as real;
    assert seconds * SECOND as real * s.refill as real == s.window as real;
    assert n as real * SECOND as real * s.refill as real >= s.window as real;
    DivideThrough((n * SECOND) as real * s.refill as real, 1.0, s.window as real);
  }

  /** Whoever is refused and comes back after the time they were told is admitted, unless another call on their
    * bucket was admitted meanwhile. It takes no assumption about the clock, the other keys or evictions. */
  lemma RetryIsAdmitted(s: Settings, st: State, refused: Event, between: seq<Event>, retry: Event)
    requires s.Valid() && Bounded(s, st) && !Admits(s, st, refused)
    requires Refused(s, Step(s, st, refused), between, refused.key)
    requires retry.key == refused.key && retry.now - refused.now >= RetryAfter(s)
    ensures Admits(s, After(s, Step(s, st, refused), between), retry)
  {
    hide Earned, RetryAfter, Admissions, After;
    var key, t := refused.key, refused.now;
    var after := Step(s, st, refused);
    EarnedFacts(s, 0, 0);
    if key in st.buckets {
      RefilledBounds(s, st.buckets[key], t);
    }
    assert EarnsFrom(s, after, key, t);
    RefusalsCostNothing(s, after, between, key, t);
    RetryEarnsOne(s);
    var last := After(s, after, between);
    if key in last.buckets {
      var b := last.buckets[key];
      EarnedFacts(s, b.seenAt - t, retry.now - b.seenAt);
      EarnedFacts(s, RetryAfter(s), retry.now - t);
      EarnedFacts(s, retry.now - t, b.seenAt - t);
    }
  }
}
