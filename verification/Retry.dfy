/** The time a refused caller is told: the least whole number of seconds that earns a call. */
module Retry {
  import opened RateLimit
  import opened AdmissionBound
  import opened Eviction

  lemma WholeSeconds(n: int)
    ensures (n * SECOND) % SECOND == 0
  {
  }

  /** A second less earns less than a token. */
  lemma SecondLessEarnsLess(s: Settings)
    requires s.Valid()
    ensures RetryAfter(s) % SECOND == 0 && RetryAfter(s) >= SECOND
    ensures Earned(s, RetryAfter(s) - SECOND) < 1.0
  {
    var seconds := s.window as real / SECOND as real / s.refill as real;
    var n := Ceil(seconds);
    WholeSeconds(n);
    PartOfWindow(s);
    assert (n - 1) as real < seconds && n >= 1;
    var early := (n - 1) * SECOND;
    assert RetryAfter(s) - SECOND == early;
    TooEarly(s, n - 1, seconds);
  }

  /** The window's share for one token, in seconds. */
  lemma PartOfWindow(s: Settings)
    requires s.Valid()
    ensures var seconds := s.window as real / SECOND as real / s.refill as real;
            seconds > 0.0 && seconds * SECOND as real * s.refill as real == s.window as real
  {
    assert s.window as real / SECOND as real > 0.0;
  }

  lemma TooEarly(s: Settings, n: int, seconds: real)
    requires s.Valid() && n as real < seconds && seconds * SECOND as real * s.refill as real == s.window as real
    ensures Earned(s, n * SECOND) < 1.0
  {
    var x, refill := n as real * SECOND as real, s.refill as real;
    assert (n * SECOND) as real == x;
    assert x < seconds * SECOND as real;
    LessTimes(x, seconds * SECOND as real, refill);
    EarnedLess(s, n * SECOND, x);
  }

  lemma EarnedLess(s: Settings, elapsed: int, x: real)
    requires s.Valid() && elapsed as real == x && x * s.refill as real < s.window as real
    ensures Earned(s, elapsed) < 1.0
  {
    var product := elapsed as real * s.refill as real;
    assert product == (elapsed * s.refill) as real;
    EarnsOneIff(s, elapsed);
  }

  lemma LessTimes(x: real, y: real, w: real)
    requires x < y && w > 0.0
    ensures x * w < y * w
  {
  }

  /** A whole number of seconds earns a token exactly if it is at least the time told. */
  lemma RetryIsLeast(s: Settings, wait: int)
    requires s.Valid() && wait % SECOND == 0
    ensures RetryAfter(s) % SECOND == 0
    ensures wait * s.refill >= s.window <==> wait >= RetryAfter(s)
  {
    RetryEarnsOne(s);
    SecondLessEarnsLess(s);
    EarnsOneIff(s, wait);
    if wait >= RetryAfter(s) {
      EarnedFacts(s, RetryAfter(s), wait);
    } else {
      assert wait <= RetryAfter(s) - SECOND by {
        hide RetryAfter;
        var n, m := wait / SECOND, RetryAfter(s) / SECOND;
        assert wait == n * SECOND && RetryAfter(s) == m * SECOND;
      }
      EarnedFacts(s, wait, RetryAfter(s) - SECOND);
    }
  }

  lemma EarnsOneIff(s: Settings, wait: int)
    requires s.Valid()
    ensures Earned(s, wait) >= 1.0 <==> wait * s.refill >= s.window
  {
    var product, w := wait as real * s.refill as real, s.window as real;
    assert product == (wait * s.refill) as real;
    if wait * s.refill >= s.window {
      DivideThrough(product, 1.0, w);
    } else {
      DivideStrictly(product, 1.0, w);
    }
  }

  /** The bucket of `key` was empty at `t` and has only earned since. */
  ghost predicate EmptyAt(s: Settings, st: State, key: string, t: int)
    requires s.Valid()
  {
    && key in st.buckets && t <= st.buckets[key].seenAt
    && st.buckets[key].tokens <= Earned(s, st.buckets[key].seenAt - t)
  }

  lemma StillEmpty(s: Settings, st: State, e: Event, key: string, t: int)
    requires s.Valid() && EmptyAt(s, st, key, t) && st.buckets[key].seenAt <= e.now < t + s.ttl && e.now <= t + RetryAfter(s) - SECOND
    requires Evicts(s, st, e) ==> e.victim != key
    ensures EmptyAt(s, Step(s, st, e), key, t) && Step(s, st, e).buckets[key].seenAt <= e.now
    ensures e.key == key ==> !Admits(s, st, e)
  {
    hide Earned, RetryAfter;
    var b := st.buckets[key];
    SecondLessEarnsLess(s);
    EarnedFacts(s, b.seenAt - t, e.now - b.seenAt);
    EarnedFacts(s, e.now - t, RetryAfter(s) - SECOND);
    EarnedFacts(s, 0, 0);
  }

  lemma {:induction false} StaysEmpty(s: Settings, st: State, events: seq<Event>, key: string, t: int, until: int)
    requires s.Valid() && EmptyAt(s, st, key, t) && Monotone(events) && Spared(s, st, events, key)
    requires until < t + s.ttl && until <= t + RetryAfter(s) - SECOND
    requires st.buckets[key].seenAt <= until && (forall e :: e in events ==> st.buckets[key].seenAt <= e.now <= until)
    ensures EmptyAt(s, After(s, st, events), key, t) && Admissions(s, st, events, key) == 0
    ensures After(s, st, events).buckets[key].seenAt <= if events == [] then st.buckets[key].seenAt else events[|events| - 1].now
  {
    hide Earned, RetryAfter, Step, Admits, Evicts;
    if events != [] {
      var n := |events| - 1;
      assert forall e :: e in events[..n] ==> e in events;
      StaysEmpty(s, st, events[..n], key, t, until);
      StillEmpty(s, After(s, st, events[..n]), events[n], key, t);
    }
  }

  /** Whoever is refused on an empty bucket and comes back a second too early is refused again, and so is every call for
    * the key in between, as long as the limiter keeps the bucket. */
  lemma EarlyRetryIsRefused(s: Settings, st: State, refused: Event, between: seq<Event>, retry: Event)
    requires s.Valid() && Legal(s, st, refused) && Available(s, st, refused) == 0.0
    requires Monotone([refused] + between + [retry]) && Spared(s, Step(s, st, refused), between + [retry], refused.key)
    requires retry.key == refused.key && retry.now - refused.now < s.ttl && retry.now - refused.now <= RetryAfter(s) - SECOND
    ensures Admissions(s, Step(s, st, refused), between, refused.key) == 0
    ensures !Admits(s, After(s, Step(s, st, refused), between), retry)
  {
    hide Earned, RetryAfter;
    var key, t, after, events := refused.key, refused.now, Step(s, st, refused), between + [retry];
    EarnedFacts(s, 0, 0);
    assert EmptyAt(s, after, key, t) && after.buckets[key].seenAt == t;
    var all := [refused] + between + [retry];
    forall e | e in events
      ensures t <= e.now <= retry.now
    {
      var i :| 0 <= i < |events| && events[i] == e;
      assert all[0] == refused && all[i + 1] == e && all[|all| - 1] == retry;
    }
    assert Monotone(events) by {
      assert forall i :: 0 <= i < |events| ==> events[i] == all[i + 1];
    }
    StaysEmpty(s, after, events, key, t, retry.now);
    assert events[..|events| - 1] == between;
  }
}
