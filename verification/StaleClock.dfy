/** Times are read before the lock, and from a wall clock, so they can arrive out of order. What that does to the rate. */
module StaleClock {
  import opened RateLimit
  import opened AdmissionBound

  /** No time falls more than `d` behind an earlier one. */
  ghost predicate Within(events: seq<Event>, d: nat) {
    forall i, j :: 0 <= i < j < |events| ==> events[i].now <= events[j].now + d
  }

  function Latest(events: seq<Event>): (t: int)
    requires events != []
    ensures (exists i :: 0 <= i < |events| && events[i].now == t) && forall i :: 0 <= i < |events| ==> events[i].now <= t
  {
    var n := |events| - 1;
    if n == 0 then events[0].now
    else
      var before := Latest(events[..n]);
      assert forall i :: 0 <= i < n ==> events[..n][i] == events[i];
      if before >= events[n].now then before else events[n].now
  }

  function Earliest(events: seq<Event>): (t: int)
    requires events != []
    ensures (exists i :: 0 <= i < |events| && events[i].now == t) && forall i :: 0 <= i < |events| ==> t <= events[i].now
  {
    var n := |events| - 1;
    if n == 0 then events[0].now
    else
      var before := Earliest(events[..n]);
      assert forall i :: 0 <= i < n ==> events[..n][i] == events[i];
      if before <= events[n].now then before else events[n].now
  }

  /** A stretch of a run from the empty limiter, under times that fall at most `d` behind, in which `key` is never
    * pushed out. */
  ghost predicate StretchWithin(s: Settings, history: seq<Event>, events: seq<Event>, key: string, d: nat)
    requires s.Valid()
  {
    && Run(s, FRESH, history) && Run(s, After(s, FRESH, history), events)
    && Within(history + events, d) && events != []
    && Spared(s, After(s, FRESH, history), events, key)
  }

  /** Every such stretch admits a key no more than a burst, and the refill over the whole span of its times. */
  ghost predicate RateLimitedWithin(s: Settings, d: nat)
    requires s.Valid()
  {
    forall history, events, key :: StretchWithin(s, history, events, key, d) ==>
      Admissions(s, After(s, FRESH, history), events, key) as real <= s.burst as real + Earned(s, Latest(events) - Earliest(events))
  }

  // ---- two times, taken in turn ----

  const AHEAD := Event("k", 1, "")
  const BEHIND := Event("k", 0, "")

  function Sway(n: nat): seq<Event> {
    if n == 0 then [BEHIND] else Sway(n - 1) + [AHEAD] + [BEHIND]
  }

  lemma {:induction false} SwayTimes(n: nat)
    ensures Sway(n) != [] && forall i :: 0 <= i < |Sway(n)| ==> 0 <= Sway(n)[i].now <= 1
  {
    if n > 0 {
      SwayTimes(n - 1);
    }
  }

  /** Only the bucket of "k", last seen at `t`. */
  ghost predicate Alone(s: Settings, st: State, t: int) {
    && st.buckets.Keys == {"k"} && st.buckets["k"].seenAt == t && 0.0 <= st.buckets["k"].tokens <= s.burst as real
    && st.lastCleanup.Some? && 0 <= st.lastCleanup.value <= 1
  }

  lemma Beginning(s: Settings)
    requires s.Valid()
    ensures Legal(s, FRESH, BEHIND) && !Evicts(s, FRESH, BEHIND) && Alone(s, Step(s, FRESH, BEHIND), 0)
  {
    hide Earned;
    assert Cleaned(s, FRESH, 0).buckets == map[];
  }

  /** The tokens left after a call that found `tokens`. */
  function Left(tokens: real): real {
    if tokens >= 1.0 then tokens - 1.0 else tokens
  }

  /** A call a nanosecond later earns its share again, or finds the bucket full. */
  lemma StepAhead(s: Settings, st: State)
    requires s.Valid() && Alone(s, st, 0)
    ensures Legal(s, st, AHEAD) && !Evicts(s, st, AHEAD) && Alone(s, Step(s, st, AHEAD), 1)
    ensures var found := Available(s, st, AHEAD);
            (found == s.burst as real || found == st.buckets["k"].tokens + Earned(s, 1))
            && Step(s, st, AHEAD).buckets["k"].tokens == Left(found)
  {
    EarnedFacts(s, 0, 1);
    hide Earned;
    var buckets := Cleaned(s, st, 1).buckets;
    assert buckets.Keys <= {"k"};
    if "k" !in buckets {
      assert buckets == map[];
    }
  }

  /** A call with the stale time earns nothing, and moves the bucket's clock back. */
  lemma StepBehind(s: Settings, st: State)
    requires s.Valid() && Alone(s, st, 1)
    ensures Legal(s, st, BEHIND) && !Evicts(s, st, BEHIND) && Alone(s, Step(s, st, BEHIND), 0)
    ensures Available(s, st, BEHIND) == st.buckets["k"].tokens
    ensures Step(s, st, BEHIND).buckets["k"].tokens == Left(st.buckets["k"].tokens)
  {
    hide Earned;
    assert Cleaned(s, st, 0) == st;
  }

  function Smaller(a: real, b: real): real {
    if a < b then a else b
  }

  /** Twice the admissions and the tokens left grow by a fixed amount with every pair of calls. */
  lemma {:induction false} SwayAdmits(s: Settings, n: nat)
    requires s.Valid()
    ensures Run(s, FRESH, Sway(n)) && Spared(s, FRESH, Sway(n), "k")
    ensures Alone(s, After(s, FRESH, Sway(n)), 0)
    ensures 2.0 * Admissions(s, FRESH, Sway(n), "k") as real + After(s, FRESH, Sway(n)).buckets["k"].tokens
            >= n as real * Smaller(Earned(s, 1), 1.0)
  {
    hide Step, Admits, Evicts, Legal, After, Run, Spared, Admissions, Earned, Available;
    if n == 0 {
      Beginning(s);
      One(s, FRESH, BEHIND);
    } else {
      SwayAdmits(s, n - 1);
      var before := After(s, FRESH, Sway(n - 1));
      var middle := Step(s, before, AHEAD);
      StepAhead(s, before);
      StepBehind(s, middle);
      Append(s, FRESH, Sway(n - 1), AHEAD, "k");
      Append(s, FRESH, Sway(n - 1) + [AHEAD], BEHIND, "k");
      PairGains(s, before, middle);
      assert n as real * Smaller(Earned(s, 1), 1.0) == (n - 1) as real * Smaller(Earned(s, 1), 1.0) + Smaller(Earned(s, 1), 1.0);
    }
  }

  function Count(b: bool): nat {
    if b then 1 else 0
  }

  lemma PairGains(s: Settings, before: State, middle: State)
    requires s.Valid() && Alone(s, before, 0) && middle == Step(s, before, AHEAD) && Alone(s, middle, 1)
    ensures var after := Step(s, middle, BEHIND);
            "k" in after.buckets
            && 2.0 * (Count(Admits(s, before, AHEAD)) + Count(Admits(s, middle, BEHIND))) as real + after.buckets["k"].tokens
               >= before.buckets["k"].tokens + Smaller(Earned(s, 1), 1.0)
  {
    StepAhead(s, before);
    StepBehind(s, middle);
    EarnedFacts(s, 0, 1);
    hide Step, Earned, Available, Evicts, Legal;
  }

  lemma Enough(m: real, x: real) returns (n: nat)
    requires m > 0.0
    ensures n as real * m > x
  {
    if x < 0.0 {
      return 0;
    }
    n := (x / m).Floor + 1;
    assert x / m < n as real;
    assert (x / m) * m == x;
    assert (n as real - x / m) * m > 0.0;
  }

  lemma SwayStretch(s: Settings, n: nat, d: nat)
    requires s.Valid() && d >= 1 && Run(s, FRESH, Sway(n)) && Spared(s, FRESH, Sway(n), "k")
    ensures StretchWithin(s, [], Sway(n), "k", d) && Sway(n) != [] && Latest(Sway(n)) - Earliest(Sway(n)) <= 1
  {
    hide After, Run, Spared, Sway, Latest, Earliest;
    SwayTimes(n);
    var events := Sway(n);
    assert [] + events == events;
    NoHistory(s);
  }

  /** Times one nanosecond apart, taken in turn, admit a key as often as one likes, whatever the settings. */
  lemma StaleTimesAdmitAny(s: Settings, d: nat, bound: real) returns (events: seq<Event>)
    requires s.Valid() && d >= 1
    ensures StretchWithin(s, [], events, "k", d) && events != [] && Latest(events) - Earliest(events) <= 1
    ensures Admissions(s, FRESH, events, "k") as real > bound
  {
    hide After, Run, Spared, Admissions, Earned, Sway, StretchWithin, Latest, Earliest;
    OneEarns(s);
    var n := Enough(Smaller(Earned(s, 1), 1.0), 2.0 * bound + s.burst as real);
    SwayAdmits(s, n);
    SwayStretch(s, n, d);
    events := Sway(n);
  }

  lemma OneEarns(s: Settings)
    requires s.Valid()
    ensures Earned(s, 1) > 0.0
  {
  }

  lemma NoHistory(s: Settings)
    requires s.Valid()
    ensures Run(s, FRESH, []) && After(s, FRESH, []) == FRESH
  {
  }

  // ---- the exact condition ----

  lemma InOrderSpan(events: seq<Event>)
    requires events != [] && Monotone(events)
    ensures Latest(events) - Earliest(events) == events[|events| - 1].now - events[0].now
  {
  }

  lemma InOrderLimited(s: Settings)
    requires s.Valid()
    ensures RateLimitedWithin(s, 0) <==> RateLimited(s)
  {
    hide After, Run, Spared, Admissions, Earned, Latest, Earliest;
    forall history: seq<Event>, events: seq<Event>, key: string
      ensures StretchWithin(s, history, events, key, 0) <==> Stretch(s, history, events, key)
      ensures Stretch(s, history, events, key) ==>
                Latest(events) - Earliest(events) == events[|events| - 1].now - events[0].now
    {
      if Stretch(s, history, events, key) {
        MonotoneSuffix(history, events);
        InOrderSpan(events);
      }
    }
  }

  /** The rate holds over the span of the times exactly when none is stale and an idle bucket is full: no settings
    * tolerate a time even one nanosecond late. */
  lemma RateLimitedWithinIff(s: Settings, d: nat)
    requires s.Valid()
    ensures RateLimitedWithin(s, d) <==> d == 0 && s.IdleMeansFull()
  {
    if d == 0 {
      InOrderLimited(s);
      RateLimitedIff(s);
    } else {
      Intolerant(s, d);
    }
  }

  lemma Intolerant(s: Settings, d: nat)
    requires s.Valid() && d >= 1
    ensures !RateLimitedWithin(s, d)
  {
    hide After, Run, Spared, Admissions, Earned, Latest, Earliest, StretchWithin;
    var events := StaleTimesAdmitAny(s, d, s.burst as real + Earned(s, 1));
    NoHistory(s);
    EarnedFacts(s, Latest(events) - Earliest(events), 1);
  }
}
