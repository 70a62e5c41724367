/** The token bucket of middleware/ratelimit/limiter.go: the arithmetic of one
    bucket, and what a run of calls is promised.

    The specification reads a clock that ticks once per token earned, so instant
    `t` in seconds is tick `rate * t`. Refilling is then addition, and only the
    results stated in seconds multiply. */
module TokenBuckets {

  datatype Bucket = Bucket(tokens: real, lastRefill: real)

  function Fresh(capacity: real, now: real): Bucket {
    Bucket(capacity, now)
  }

  /** Tokens on hand at `now`, after the lazy refill and the cap. */
  function Level(capacity: real, b: Bucket, now: real): real {
    var refilled := b.tokens + (now - b.lastRefill);
    if refilled > capacity then capacity else refilled
  }

  predicate Grants(capacity: real, b: Bucket, now: real) {
    Level(capacity, b, now) >= 1.0
  }

  function Take(capacity: real, b: Bucket, now: real): Bucket {
    Bucket(Level(capacity, b, now) - (if Grants(capacity, b, now) then 1.0 else 0.0), now)
  }

  class TokenBucket {
    const rate: real
    const capacity: real
    var tokens: real
    var lastRefill: real

    function Abs(): Bucket
      reads this
    {
      Bucket(tokens, Tick(rate, lastRefill))
    }

    constructor (rate: real, capacity: real, now: real)
      ensures this.rate == rate && this.capacity == capacity && lastRefill == now
      ensures Abs() == Fresh(capacity, Tick(rate, now))
    {
      this.rate, this.capacity, tokens, lastRefill := rate, capacity, capacity, now;
    }

    method Allow(now: real) returns (ok: bool)
      modifies this
      ensures ok == Grants(capacity, old(Abs()), Tick(rate, now))
      ensures Abs() == Take(capacity, old(Abs()), Tick(rate, now)) && lastRefill == now
      ensures var refilled := old(tokens) + rate * (now - old(lastRefill));
              var level := if refilled > capacity then capacity else refilled;
              ok == (level >= 1.0) && tokens == if ok then level - 1.0 else level
    {
      var elapsed := now - lastRefill;
      var tokensToAdd := elapsed * rate;
      Commutes(elapsed, rate);
      LevelIs(rate, capacity, tokens, lastRefill, now);
      tokens := tokens + tokensToAdd;
      if tokens > capacity {
        tokens := capacity;
      }
      lastRefill := now;
      ok := tokens >= 1.0;
      if ok {
        tokens := tokens - 1.0;
      }
    }
  }

  // ----- Runs of one bucket -----

  /** Instants never go back, and none precedes `start`. */
  ghost predicate Ordered(times: seq<real>, start: real) {
    && (forall i | 0 <= i < |times| :: start <= times[i])
    && (forall i, j | 0 <= i <= j < |times| :: times[i] <= times[j])
  }

  /** The decisions of a run, one per call. */
  function Run(capacity: real, b: Bucket, times: seq<real>): (granted: seq<bool>)
    ensures |granted| == |times|
    decreases |times|
  {
    if times == [] then []
    else [Grants(capacity, b, times[0])] + Run(capacity, Take(capacity, b, times[0]), times[1..])
  }

  /** The bucket a run leaves behind. */
  function After(capacity: real, b: Bucket, times: seq<real>): Bucket
    decreases |times|
  {
    if times == [] then b else After(capacity, Take(capacity, b, times[0]), times[1..])
  }

  /** How many of the decisions from index `from` up to `to` are grants. */
  function Count(granted: seq<bool>, from: nat, to: nat): (n: nat)
    requires from <= to <= |granted|
    ensures n <= to - from
  {
    if from == to then 0 else Count(granted, from, to - 1) + (if granted[to - 1] then 1 else 0)
  }

  /** The most a window opening at call `from` leaves for call `at`: capacity,
      plus what the elapsed time earned, minus what the window has granted. */
  function Allowance(capacity: real, times: seq<real>, granted: seq<bool>, from: nat, at: nat): real
    requires from <= at < |times| == |granted|
  {
    capacity + (times[at] - times[from]) - Count(granted, from, at) as real
  }

  /** Tokens on hand when call `at` is decided. */
  ghost function LevelAt(capacity: real, b: Bucket, times: seq<real>, at: nat): real
    requires at < |times|
  {
    Level(capacity, After(capacity, b, times[..at]), times[at])
  }

  lemma {:induction false} AfterSnoc(capacity: real, b: Bucket, times: seq<real>, t: real)
    ensures After(capacity, b, times + [t]) == Take(capacity, After(capacity, b, times), t)
    decreases |times|
  {
    if times == [] {
    } else {
      assert (times + [t])[1..] == times[1..] + [t];
      AfterSnoc(capacity, Take(capacity, b, times[0]), times[1..], t);
    }
  }

  lemma {:induction false} DecisionAt(capacity: real, b: Bucket, times: seq<real>, n: nat)
    requires n < |times|
    ensures Run(capacity, b, times)[n] == (LevelAt(capacity, b, times, n) >= 1.0)
    decreases |times|
  {
    if n == 0 {
    } else {
      assert times[..n][1..] == times[1..][..n - 1];
      DecisionAt(capacity, Take(capacity, b, times[0]), times[1..], n - 1);
    }
  }

  /** Tokens stay between zero and capacity. */
  lemma {:induction false} TokensInRange(capacity: real, b: Bucket, times: seq<real>)
    requires 0.0 <= b.tokens <= capacity && Ordered(times, b.lastRefill)
    ensures 0.0 <= After(capacity, b, times).tokens <= capacity
    decreases |times|
  {
    if times == [] {
    } else {
      TokensInRange(capacity, Take(capacity, b, times[0]), times[1..]);
    }
  }

  /** The level at call `i` of a bucket that started full is the least allowance
      over every window that ends there. */
  lemma {:induction false} LevelIsLeastAllowance(capacity: real, start: real, times: seq<real>, i: nat)
    requires Ordered(times, start) && i < |times|
    ensures var granted := Run(capacity, Fresh(capacity, start), times);
            && (forall j | 0 <= j <= i ::
                  LevelAt(capacity, Fresh(capacity, start), times, i) <= Allowance(capacity, times, granted, j, i))
            && (exists j | 0 <= j <= i ::
                  LevelAt(capacity, Fresh(capacity, start), times, i) == Allowance(capacity, times, granted, j, i))
  {
    var b := Fresh(capacity, start);
    var granted := Run(capacity, b, times);
    var level := LevelAt(capacity, b, times, i);
    assert Allowance(capacity, times, granted, i, i) == capacity;
    if i == 0 {
    } else {
      LevelIsLeastAllowance(capacity, start, times, i - 1);
      assert times[..i] == times[..i - 1] + [times[i - 1]];
      AfterSnoc(capacity, b, times[..i - 1], times[i - 1]);
      DecisionAt(capacity, b, times, i - 1);
      var spent := if granted[i - 1] then 1.0 else 0.0;
      var earned := times[i] - times[i - 1];
      forall j | 0 <= j < i
        ensures Allowance(capacity, times, granted, j, i)
             == Allowance(capacity, times, granted, j, i - 1) - spent + earned
      {}
      var j :| 0 <= j <= i - 1 && LevelAt(capacity, b, times, i - 1) == Allowance(capacity, times, granted, j, i - 1);
      assert level == capacity || level == Allowance(capacity, times, granted, j, i);
    }
  }

  /** Closed form. Call `i` is granted exactly when no window that ends at it,
      the one since creation included, would exceed capacity plus earnings. */
  lemma ClosedForm(capacity: real, start: real, times: seq<real>, i: nat)
    requires Ordered(times, start) && i < |times|
    ensures var granted := Run(capacity, Fresh(capacity, start), times);
            granted[i] <==>
            && Count(granted, 0, i) as real + 1.0 <= capacity + (times[i] - start)
            && (forall j | 0 <= j <= i :: Count(granted, j, i) as real + 1.0 <= capacity + (times[i] - times[j]))
  {
    var granted := Run(capacity, Fresh(capacity, start), times);
    LevelIsLeastAllowance(capacity, start, times, i);
    DecisionAt(capacity, Fresh(capacity, start), times, i);
    forall j | 0 <= j <= i
      ensures Allowance(capacity, times, granted, j, i) >= 1.0 <==>
              Count(granted, j, i) as real + 1.0 <= capacity + (times[i] - times[j])
    {}
    assert granted[i] ==> Allowance(capacity, times, granted, 0, i) >= 1.0;
  }

  /** Burst bound: the calls from `j` to `k` get at most capacity plus what the
      window's length earns. */
  lemma {:induction false} BurstBound(capacity: real, start: real, times: seq<real>, j: nat, k: nat)
    requires capacity >= 0.0 && Ordered(times, start) && j <= k < |times|
    ensures Count(Run(capacity, Fresh(capacity, start), times), j, k + 1) as real
            <= capacity + (times[k] - times[j])
  {
    if Run(capacity, Fresh(capacity, start), times)[k] {
      ClosedForm(capacity, start, times, k);
    } else if j < k {
      BurstBound(capacity, start, times, j, k - 1);
    }
  }

  /** Calls at least a token apart: a caller that paces itself so. */
  ghost predicate Spaced(times: seq<real>) {
    forall i | 0 < i < |times| :: times[i] - times[i - 1] >= 1.0
  }

  lemma {:induction false} PacedRunPasses(capacity: real, b: Bucket, times: seq<real>)
    requires capacity >= 1.0 && 0.0 <= b.tokens <= capacity && Ordered(times, b.lastRefill) && Spaced(times)
    requires times != [] ==> b.tokens == capacity || times[0] - b.lastRefill >= 1.0
    ensures forall i | 0 <= i < |times| :: Run(capacity, b, times)[i]
    decreases |times|
  {
    if times == [] {
    } else {
      forall i | 0 < i < |times[1..]| ensures times[1..][i] - times[1..][i - 1] >= 1.0 {
        assert times[i + 1] - times[i] >= 1.0;
      }
      if |times| > 1 {
        assert times[1] - times[0] >= 1.0;
      }
      PacedRunPasses(capacity, Take(capacity, b, times[0]), times[1..]);
    }
  }

  /** With less than one token of capacity nobody is ever admitted. */
  lemma {:induction false} SmallCapacityRefusesAll(capacity: real, b: Bucket, times: seq<real>)
    requires capacity < 1.0
    ensures forall i | 0 <= i < |times| :: !Run(capacity, b, times)[i]
    decreases |times|
  {
    if times == [] {
    } else {
      SmallCapacityRefusesAll(capacity, Take(capacity, b, times[0]), times[1..]);
    }
  }

  /** A paced caller is never refused exactly when the capacity holds a token. */
  lemma PacedCallerPasses(capacity: real, start: real)
    requires capacity > 0.0
    ensures (forall times | Ordered(times, start) && Spaced(times) ::
               forall i | 0 <= i < |times| :: Run(capacity, Fresh(capacity, start), times)[i])
            <==> capacity >= 1.0
  {
    if capacity >= 1.0 {
      forall times | Ordered(times, start) && Spaced(times)
        ensures forall i | 0 <= i < |times| :: Run(capacity, Fresh(capacity, start), times)[i]
      {
        PacedRunPasses(capacity, Fresh(capacity, start), times);
      }
    } else {
      var times := [start];
      assert Ordered(times, start) && Spaced(times) && !Run(capacity, Fresh(capacity, start), times)[0];
    }
  }

  // ----- Refused calls can be erased -----

  function Kept<T>(s: seq<T>, keep: seq<bool>): (r: seq<T>)
    requires |s| == |keep|
  {
    if s == [] then [] else (if keep[0] then [s[0]] else []) + Kept(s[1..], keep[1..])
  }

  /** Deleting any set of refused calls leaves every other decision, and the
      tokens on hand at any later time, as they were: cap, refill, cap is one
      refill and one cap. `c` is the bucket that skipped the deleted calls. */
  lemma {:induction false} SkippedCallsDoNotShow(
    capacity: real, b: Bucket, c: Bucket, times: seq<real>, keep: seq<bool>, now: real)
    requires Ordered(times + [now], b.lastRefill) && c.lastRefill <= b.lastRefill
    requires |keep| == |times|
    requires forall i | 0 <= i < |times| :: !keep[i] ==> !Run(capacity, b, times)[i]
    requires Level(capacity, b, b.lastRefill) == Level(capacity, c, b.lastRefill)
    ensures Run(capacity, c, Kept(times, keep)) == Kept(Run(capacity, b, times), keep)
    ensures Level(capacity, After(capacity, c, Kept(times, keep)), now)
         == Level(capacity, After(capacity, b, times), now)
    decreases |times|
  {
    assert (times + [now])[0] >= b.lastRefill;
    if times == [] {
      LevelsStayAlike(capacity, b, c, b.lastRefill, now);
    } else {
      var b' := Take(capacity, b, times[0]);
      OrderedTail(times, now);
      LevelsStayAlike(capacity, b, c, b.lastRefill, times[0]);
      assert Run(capacity, b, times)[1..] == Run(capacity, b', times[1..]);
      forall i | 0 <= i < |times[1..]| && !keep[1..][i] ensures !Run(capacity, b', times[1..])[i] {
        assert !keep[i + 1] && !Run(capacity, b, times)[i + 1];
      }
      if keep[0] {
        SkippedCallsDoNotShow(capacity, b', b', times[1..], keep[1..], now);
        assert Kept(times, keep)[1..] == Kept(times[1..], keep[1..]);
      } else {
        assert !Run(capacity, b, times)[0];
        KeptDrops(times, keep);
        KeptDrops(Run(capacity, b, times), keep);
        SkippedCallsDoNotShow(capacity, b', c, times[1..], keep[1..], now);
      }
    }
  }

  lemma KeptDrops<T>(s: seq<T>, keep: seq<bool>)
    requires s != [] && |s| == |keep| && !keep[0]
    ensures Kept(s, keep) == Kept(s[1..], keep[1..])
  {}

  lemma OrderedTail(times: seq<real>, now: real)
    requires times != [] && Ordered(times + [now], times[0])
    ensures Ordered(times[1..] + [now], times[0])
  {
    assert (times + [now])[1..] == times[1..] + [now];
  }

  /** Buckets that are level at one instant are level from then on. */
  lemma LevelsStayAlike(capacity: real, b: Bucket, c: Bucket, now: real, later: real)
    requires now <= later && Level(capacity, b, now) == Level(capacity, c, now)
    ensures Level(capacity, b, later) == Level(capacity, c, later)
  {}

  lemma RefusedCallsAreErasable(capacity: real, b: Bucket, times: seq<real>, keep: seq<bool>, now: real)
    requires Ordered(times + [now], b.lastRefill)
    requires |keep| == |times|
    requires forall i | 0 <= i < |times| :: !keep[i] ==> !Run(capacity, b, times)[i]
    ensures Run(capacity, b, Kept(times, keep)) == Kept(Run(capacity, b, times), keep)
    ensures Level(capacity, After(capacity, b, Kept(times, keep)), now)
         == Level(capacity, After(capacity, b, times), now)
  {
    SkippedCallsDoNotShow(capacity, b, b, times, keep, now);
  }

  // ----- Instants in seconds -----

  function Ticks(rate: real, seconds: seq<real>): (ticks: seq<real>)
    ensures |ticks| == |seconds|
  {
    seq(|seconds|, i requires 0 <= i < |seconds| => Tick(rate, seconds[i]))
  }

  function Tick(rate: real, second: real): real {
    rate * second
  }

  /** A clock in seconds that never goes back gives ticks that never go back,
      so the results above hold of calls timed in seconds. */
  lemma SecondsGiveOrderedTicks(rate: real, start: real, seconds: seq<real>)
    requires rate > 0.0 && Ordered(seconds, start)
    ensures Ordered(Ticks(rate, seconds), Tick(rate, start))
  {
    var ticks := Ticks(rate, seconds);
    forall i | 0 <= i < |ticks| ensures Tick(rate, start) <= ticks[i] {
      EarningGrows(rate, start, seconds[i]);
    }
    forall i, j | 0 <= i <= j < |ticks| ensures ticks[i] <= ticks[j] {
      EarningGrows(rate, seconds[i], seconds[j]);
    }
  }

  /** Calls at least 1/rate seconds apart are paced. */
  lemma SecondsGiveSpacedTicks(rate: real, seconds: seq<real>)
    requires rate > 0.0
    requires forall i | 0 < i < |seconds| :: seconds[i] - seconds[i - 1] >= 1.0 / rate
    ensures Spaced(Ticks(rate, seconds))
  {
    var ticks := Ticks(rate, seconds);
    forall i | 0 < i < |ticks| ensures ticks[i] - ticks[i - 1] >= 1.0 {
      SpacingEarnsOne(rate, seconds[i - 1], seconds[i]);
    }
  }

  /** The closed form on the wall clock: call `i` is granted exactly when no window
      that ends at it would exceed capacity plus rate times its length. */
  lemma ClosedFormInSeconds(rate: real, capacity: real, start: real, seconds: seq<real>, i: nat)
    requires rate > 0.0 && Ordered(seconds, start) && i < |seconds|
    ensures var granted := Run(capacity, Fresh(capacity, Tick(rate, start)), Ticks(rate, seconds));
            granted[i] <==>
            && Count(granted, 0, i) as real + 1.0 <= capacity + rate * (seconds[i] - start)
            && (forall j | 0 <= j <= i ::
                  Count(granted, j, i) as real + 1.0 <= capacity + rate * (seconds[i] - seconds[j]))
  {
    SecondsGiveOrderedTicks(rate, start, seconds);
    ClosedForm(capacity, Tick(rate, start), Ticks(rate, seconds), i);
    TicksBetween(rate, start, seconds[i]);
    forall j | 0 <= j <= i
      ensures rate * (seconds[i] - seconds[j]) == Ticks(rate, seconds)[i] - Ticks(rate, seconds)[j]
    {
      TicksBetween(rate, seconds[j], seconds[i]);
    }
  }

  /** The burst bound on the wall clock. */
  lemma BurstBoundInSeconds(rate: real, capacity: real, start: real, seconds: seq<real>, j: nat, k: nat)
    requires rate > 0.0 && capacity >= 0.0 && Ordered(seconds, start) && j <= k < |seconds|
    ensures Count(Run(capacity, Fresh(capacity, Tick(rate, start)), Ticks(rate, seconds)), j, k + 1) as real
            <= capacity + rate * (seconds[k] - seconds[j])
  {
    SecondsGiveOrderedTicks(rate, start, seconds);
    BurstBound(capacity, Tick(rate, start), Ticks(rate, seconds), j, k);
    TicksBetween(rate, seconds[j], seconds[k]);
  }

  /** An elapsed time earns rate times its length. */
  lemma TicksBetween(rate: real, x: real, y: real)
    ensures Tick(rate, y) - Tick(rate, x) == rate * (y - x)
  {}

  /** The level of a bucket last refilled at `last` seconds. */
  lemma LevelIs(rate: real, capacity: real, tokens: real, last: real, now: real)
    ensures var refilled := tokens + rate * (now - last);
            Level(capacity, Bucket(tokens, Tick(rate, last)), Tick(rate, now))
            == if refilled > capacity then capacity else refilled
  {
    TicksBetween(rate, last, now);
  }

  lemma Commutes(x: real, y: real)
    ensures x * y == y * x
  {}

  lemma EarningGrows(rate: real, x: real, y: real)
    requires rate > 0.0 && x <= y
    ensures Tick(rate, x) <= Tick(rate, y)
  {
    assert rate * (y - x) >= 0.0;
  }

  lemma SpacingEarnsOne(rate: real, x: real, y: real)
    requires rate > 0.0 && y - x >= 1.0 / rate
    ensures Tick(rate, y) - Tick(rate, x) >= 1.0
  {
    var gap, least := y - x, 1.0 / rate;
    assert rate * least == 1.0;
    assert rate * (gap - least) >= 0.0;
  }
}
