/** The per-peer sliding window of sync attempts. */
module RateLimit {
  const MAX_ATTEMPTS := 3
  /** 60 seconds, in milliseconds. */
  const WINDOW := 60 * 1000

  type Key = string

  /** A budget of zero makes the first attempt panic, so it is at least one. */
  datatype Limiter = Limiter(buckets: map<Key, seq<nat>>, maxAttempts: nat, window: nat)

  datatype Verdict = Accepted | RateLimited(retryAfter: nat)

  /** `now - window`, or `now` when that lies before the clock's origin. */
  function Cutoff(now: nat, window: nat): nat {
    if now >= window then now - window else now
  }

  function Prune(bucket: seq<nat>, cutoff: nat): seq<nat> {
    if bucket != [] && bucket[0] < cutoff then Prune(bucket[1..], cutoff) else bucket
  }

  function BucketOf(l: Limiter, k: Key): seq<nat> {
    if k in l.buckets then l.buckets[k] else []
  }

  function Check(l: Limiter, k: Key, now: nat): (Limiter, Verdict)
    requires l.maxAttempts >= 1
  {
    var bucket := Prune(BucketOf(l, k), Cutoff(now, l.window));
    if |bucket| >= l.maxAttempts then
      (l.(buckets := l.buckets[k := bucket]),
       RateLimited(if bucket[0] + l.window >= now then bucket[0] + l.window - now else 0))
    else
      (l.(buckets := l.buckets[k := bucket + [now]]), Accepted)
  }

  class AttemptLog {
    var buckets: map<Key, seq<nat>>
    const maxAttempts: nat
    const window: nat

    ghost function State(): Limiter
      reads this
    {
      Limiter(buckets, maxAttempts, window)
    }

    constructor ()
      ensures State() == Limiter(map[], MAX_ATTEMPTS, WINDOW)
    {
      buckets, maxAttempts, window := map[], MAX_ATTEMPTS, WINDOW;
    }

    constructor WithLimits(maxAttempts: nat, window: nat)
      ensures State() == Limiter(map[], maxAttempts, window)
    {
      this.buckets, this.maxAttempts, this.window := map[], maxAttempts, window;
    }

    method CheckAndRecord(k: Key, now: nat) returns (v: Verdict)
      requires maxAttempts >= 1
      modifies this
      ensures (State(), v) == Check(old(State()), k, now)
    {
      var cutoff := if now >= window then now - window else now;
      var bucket: seq<nat> := if k in buckets then buckets[k] else [];
      while bucket != [] && bucket[0] < cutoff
        invariant Prune(bucket, cutoff) == Prune(BucketOf(old(State()), k), cutoff)
        decreases |bucket|
      {
        bucket := bucket[1..];
      }
      if |bucket| >= maxAttempts {
        buckets := buckets[k := bucket];
        var expiry := bucket[0] + window;
        return RateLimited(if expiry >= now then expiry - now else 0);
      }
      buckets := buckets[k := bucket + [now]];
      v := Accepted;
    }
  }

  // ----- what a bucket remembers ------------------------------------------

  ghost predicate Ordered(times: seq<nat>, now: nat) {
    forall i, j :: 0 <= i <= j < |times| ==> times[i] <= times[j] <= now
  }

  /** Any `max`+1 of the times spread over more than a window. */
  ghost predicate Spaced(times: seq<nat>, max: nat, window: nat) {
    forall i, j :: 0 <= i && i + max == j < |times| ==> times[i] + window < times[j]
  }

  /** The bucket is the end of the history; what is missing has expired. */
  ghost predicate Tail(bucket: seq<nat>, times: seq<nat>, window: nat, now: nat) {
    && |bucket| <= |times|
    && bucket == times[|times| - |bucket|..]
    && forall i :: 0 <= i < |times| - |bucket| ==> times[i] + window < now
  }

  /** `granted` are the times of the accepted attempts of one key up to `now`. */
  ghost predicate Tracks(l: Limiter, k: Key, granted: seq<nat>, now: nat) {
    && Ordered(granted, now)
    && Spaced(granted, l.maxAttempts, l.window)
    && Tail(BucketOf(l, k), granted, l.window, now)
    && |BucketOf(l, k)| <= l.maxAttempts
  }

  lemma {:induction false} PruneTail(bucket: seq<nat>, cutoff: nat)
    ensures |Prune(bucket, cutoff)| <= |bucket|
    ensures Prune(bucket, cutoff) == bucket[|bucket| - |Prune(bucket, cutoff)|..]
    ensures forall i :: 0 <= i < |bucket| - |Prune(bucket, cutoff)| ==> bucket[i] < cutoff
    ensures Prune(bucket, cutoff) != [] ==> Prune(bucket, cutoff)[0] >= cutoff
  {
    if bucket != [] && bucket[0] < cutoff {
      PruneTail(bucket[1..], cutoff);
      forall i | 0 <= i < |bucket| - |Prune(bucket, cutoff)| ensures bucket[i] < cutoff {
        if i > 0 { assert bucket[i] == bucket[1..][i - 1]; }
      }
    }
  }

  /** The pruned bucket is the part of the history inside the window. */
  lemma PrunedTail(l: Limiter, k: Key, granted: seq<nat>, before: nat, now: nat)
    requires Tracks(l, k, granted, before) && before <= now && l.window <= now
    ensures var kept := Prune(BucketOf(l, k), Cutoff(now, l.window));
            && |kept| <= l.maxAttempts && Tail(kept, granted, l.window, now)
            && forall i :: |granted| - |kept| <= i < |granted| ==> now - l.window <= granted[i] <= now
  {
    var bucket := BucketOf(l, k);
    var kept := Prune(bucket, Cutoff(now, l.window));
    var n, m := |granted|, |kept|;
    PruneTail(bucket, Cutoff(now, l.window));
    forall i | 0 <= i < n - m ensures granted[i] + l.window < now {
      if i >= n - |bucket| { assert granted[i] == bucket[i - (n - |bucket|)]; }
    }
    if m > 0 { assert kept[0] == granted[n - m]; }
  }

  lemma AcceptTracks(kept: seq<nat>, granted: seq<nat>, max: nat, window: nat, before: nat, now: nat)
    requires Ordered(granted, before) && before <= now
    requires Spaced(granted, max, window) && Tail(kept, granted, window, now) && |kept| < max
    ensures Ordered(granted + [now], now) && Spaced(granted + [now], max, window)
    ensures Tail(kept + [now], granted + [now], window, now)
  {
    var after := granted + [now];
    forall i, j | 0 <= i && i + max == j < |after| ensures after[i] + window < after[j] {
      if j == |granted| { assert i < |granted| - |kept|; }
    }
  }

  lemma CheckTracks(l: Limiter, k: Key, granted: seq<nat>, before: nat, now: nat)
    requires l.maxAttempts >= 1 && l.window <= now && before <= now
    requires Tracks(l, k, granted, before)
    ensures var (after, v) := Check(l, k, now);
            Tracks(after, k, if v.Accepted? then granted + [now] else granted, now)
  {
    PrunedTail(l, k, granted, before, now);
    var kept := Prune(BucketOf(l, k), Cutoff(now, l.window));
    if |kept| < l.maxAttempts {
      AcceptTracks(kept, granted, l.maxAttempts, l.window, before, now);
    }
  }

  lemma LaterTracks(l: Limiter, k: Key, granted: seq<nat>, before: nat, now: nat)
    requires Tracks(l, k, granted, before) && before <= now
    ensures Tracks(l, k, granted, now)
  {
  }

  lemma OtherKeysUntouched(l: Limiter, k: Key, other: Key, now: nat)
    requires l.maxAttempts >= 1 && other != k
    ensures var after := Check(l, k, now).0;
            BucketOf(after, other) == BucketOf(l, other) && after.maxAttempts == l.maxAttempts && after.window == l.window
  {
  }

  /** What an attempt of `key` adds to the history of `k`. */
  function Gained(l: Limiter, key: Key, k: Key, now: nat): seq<nat>
    requires l.maxAttempts >= 1
  {
    if key == k && Check(l, key, now).1.Accepted? then [now] else []
  }

  /** Checking one attempt extends the history of its key by an acceptance and
      leaves every other key alone. */
  lemma StepTracks(l: Limiter, key: Key, k: Key, granted: seq<nat>, before: nat, now: nat)
    requires l.maxAttempts >= 1 && l.window <= now && before <= now
    requires Tracks(l, k, granted, before)
    ensures Tracks(Check(l, key, now).0, k, granted + Gained(l, key, k, now), now)
  {
    assert granted + [] == granted;
    if key == k {
      CheckTracks(l, k, granted, before, now);
    } else {
      OtherKeysUntouched(l, key, k, now);
      LaterTracks(l, k, granted, before, now);
    }
  }

  /** No expired attempt is kept, whether the new one is accepted or not. */
  lemma NothingExpiredKept(l: Limiter, k: Key, granted: seq<nat>, before: nat, now: nat, i: nat)
    requires l.maxAttempts >= 1 && l.window <= now && before <= now
    requires Tracks(l, k, granted, before) && i < |BucketOf(Check(l, k, now).0, k)|
    ensures now - l.window <= BucketOf(Check(l, k, now).0, k)[i] <= now
  {
    StepTracks(l, k, k, granted, before, now);
    PruneTail(BucketOf(l, k), Cutoff(now, l.window));
  }

  // ----- counting ---------------------------------------------------------

  function Count(times: seq<nat>, lo: int, hi: int): nat {
    if times == [] then 0 else
      Count(times[..|times| - 1], lo, hi) + if lo <= times[|times| - 1] <= hi then 1 else 0
  }

  lemma {:induction false} CountAtMost(times: seq<nat>, lo: int, hi: int, m: nat)
    requires forall i :: 0 <= i < |times| - m ==> times[i] < lo
    ensures Count(times, lo, hi) <= m
  {
    if times != [] {
      CountAtMost(times[..|times| - 1], lo, hi, if m == 0 then 0 else m - 1);
    }
  }

  lemma {:induction false} CountTail(times: seq<nat>, lo: int, hi: int, m: nat)
    requires m <= |times|
    requires forall i :: 0 <= i < |times| - m ==> times[i] < lo
    requires forall i :: |times| - m <= i < |times| ==> lo <= times[i] <= hi
    ensures Count(times, lo, hi) == m
  {
    if times != [] {
      CountTail(times[..|times| - 1], lo, hi, if m == 0 then 0 else m - 1);
    }
  }

  /** No closed interval of the window's length holds more accepted attempts
      than the budget. */
  lemma {:induction false} WindowBound(times: seq<nat>, now: nat, max: nat, window: nat, lo: int)
    requires Ordered(times, now) && Spaced(times, max, window)
    ensures Count(times, lo, lo + window) <= max
  {
    if times != [] {
      var n := |times| - 1;
      if times[n] <= lo + window {
        forall i | 0 <= i < n + 1 - max ensures times[i] < lo {
          assert times[i + max] <= times[n];
        }
        CountAtMost(times, lo, lo + window, max);
      } else {
        WindowBound(times[..n], now, max, window, lo);
      }
    }
  }

  ghost predicate WithinBudget(times: seq<nat>, max: nat, window: nat) {
    forall lo: int, hi: int :: hi == lo + window ==> Count(times, lo, hi) <= max
  }

  lemma TrackedWithinBudget(l: Limiter, k: Key, granted: seq<nat>, now: nat)
    requires Tracks(l, k, granted, now)
    ensures WithinBudget(granted, l.maxAttempts, l.window)
  {
    forall lo: int, hi: int | hi == lo + l.window ensures Count(granted, lo, hi) <= l.maxAttempts {
      WindowBound(granted, now, l.maxAttempts, l.window, lo);
    }
  }

  /** An attempt is refused exactly when the whole budget was accepted within
      the window that ends now. */
  lemma RefusedExactly(l: Limiter, k: Key, granted: seq<nat>, before: nat, now: nat)
    requires l.maxAttempts >= 1 && l.window <= now && before <= now
    requires Tracks(l, k, granted, before)
    ensures Check(l, k, now).1.RateLimited? <==> Count(granted, now - l.window, now) == l.maxAttempts
  {
    PrunedTail(l, k, granted, before, now);
    CountTail(granted, now - l.window, now, |Prune(BucketOf(l, k), Cutoff(now, l.window))|);
  }

  /** After a refusal, the next attempt of that key is refused up to and
      including `now + retryAfter`, with the same deadline, and accepted at any
      later time. */
  lemma RetryAfterExactly(l: Limiter, k: Key, granted: seq<nat>, before: nat, now: nat, later: nat)
    requires l.maxAttempts >= 1 && l.window <= now && before <= now <= later
    requires Tracks(l, k, granted, before) && Check(l, k, now).1.RateLimited?
    ensures var (after, v) := Check(l, k, now);
            var next := Check(after, k, later).1;
            && (next.RateLimited? <==> later <= now + v.retryAfter)
            && (next.RateLimited? ==> later + next.retryAfter == now + v.retryAfter)
  {
    PrunedTail(l, k, granted, before, now);
    var kept := Prune(BucketOf(l, k), Cutoff(now, l.window));
    assert kept[0] == granted[|granted| - |kept|];
    FullBucketExpires(kept, Cutoff(later, l.window));
  }

  /** A bucket loses an attempt exactly when its oldest one has expired. */
  lemma FullBucketExpires(kept: seq<nat>, cutoff: nat)
    requires kept != []
    ensures if kept[0] < cutoff then |Prune(kept, cutoff)| < |kept| else Prune(kept, cutoff) == kept
  {
    if kept[0] < cutoff { PruneTail(kept[1..], cutoff); }
  }

  /** The window must fit before `now`: where the clock cannot represent
      `now - window`, the bucket forgets every attempt before this instant and
      the next one is accepted.  That takes a clock whose instants are
      unsigned and that has run for less than one window.  Where instants are
      signed, as on Unix, the subtraction succeeds; times can then be counted
      from an origin one window before the first, and this input does not
      arise. */
  lemma YoungClockForgets(l: Limiter, k: Key, now: nat)
    requires l.maxAttempts >= 1 && now < l.window
    requires forall t :: t in BucketOf(l, k) ==> t < now
    ensures Check(l, k, now).1 == Accepted
  {
    PruneTail(BucketOf(l, k), now);
    var bucket, kept := BucketOf(l, k), Prune(BucketOf(l, k), now);
    forall i | 0 <= i < |kept| ensures kept[i] < now {
      assert kept[i] == bucket[|bucket| - |kept| + i];
      assert kept[i] in bucket;
    }
  }

  // ----- runs -------------------------------------------------------------

  datatype Attempt = Attempt(key: Key, time: nat)

  function Run(l: Limiter, attempts: seq<Attempt>): (r: Limiter)
    requires l.maxAttempts >= 1
    ensures r.maxAttempts == l.maxAttempts && r.window == l.window
  {
    if attempts == [] then l else
      var last := attempts[|attempts| - 1];
      Check(Run(l, attempts[..|attempts| - 1]), last.key, last.time).0
  }

  /** The accepted times of one key, in order. */
  function Granted(l: Limiter, attempts: seq<Attempt>, k: Key): seq<nat>
    requires l.maxAttempts >= 1
  {
    if attempts == [] then [] else
      var init, last := attempts[..|attempts| - 1], attempts[|attempts| - 1];
      Granted(l, init, k) + Gained(Run(l, init), last.key, k, last.time)
  }

  /** The clock never goes back and starts no earlier than one window. */
  ghost predicate Clocked(attempts: seq<Attempt>, window: nat) {
    && (forall i :: 0 <= i < |attempts| ==> window <= attempts[i].time)
    && forall i, j :: 0 <= i <= j < |attempts| ==> attempts[i].time <= attempts[j].time
  }

  function LastTime(attempts: seq<Attempt>): nat {
    if attempts == [] then 0 else attempts[|attempts| - 1].time
  }

  lemma {:induction false} RunTracks(l: Limiter, attempts: seq<Attempt>, k: Key)
    requires l.maxAttempts >= 1 && l.buckets == map[] && Clocked(attempts, l.window)
    ensures Tracks(Run(l, attempts), k, Granted(l, attempts, k), LastTime(attempts))
  {
    if attempts != [] {
      var init, last := attempts[..|attempts| - 1], attempts[|attempts| - 1];
      RunTracks(l, init, k);
      assert LastTime(init) <= last.time;
      StepTracks(Run(l, init), last.key, k, Granted(l, init, k), LastTime(init), last.time);
    }
  }

  /** Over any run from a fresh log, every closed interval of the window's
      length holds at most the budget of accepted attempts of each key. */
  lemma RunWithinBudget(l: Limiter, attempts: seq<Attempt>, k: Key)
    requires l.maxAttempts >= 1 && l.buckets == map[] && Clocked(attempts, l.window)
    ensures WithinBudget(Granted(l, attempts, k), l.maxAttempts, l.window)
  {
    RunTracks(l, attempts, k);
    TrackedWithinBudget(Run(l, attempts), k, Granted(l, attempts, k), LastTime(attempts));
  }

  /** With the default limits an attempt is refused exactly when three were
      accepted in the last 60 seconds, and no 60 seconds ever hold four. */
  lemma DefaultBudget(attempts: seq<Attempt>, k: Key, now: nat, lo: int)
    requires Clocked(attempts, 60_000) && LastTime(attempts) <= now && 60_000 <= now
    ensures var l := Limiter(map[], MAX_ATTEMPTS, WINDOW);
            var granted := Granted(l, attempts, k);
            && Count(granted, lo, lo + 60_000) <= 3
            && (Check(Run(l, attempts), k, now).1.RateLimited? <==> Count(granted, now - 60_000, now) == 3)
  {
    var l := Limiter(map[], MAX_ATTEMPTS, WINDOW);
    RunWithinBudget(l, attempts, k);
    RunTracks(l, attempts, k);
    RefusedExactly(Run(l, attempts), k, Granted(l, attempts, k), LastTime(attempts), now);
    assert lo + 60_000 == lo + l.window;
  }
}
