/** The keyed, evicting table of buckets in middleware/ratelimit/limiter.go, and
    how it compares with a table that never evicts. Instants are ticks, as in
    TokenBuckets; `window` is the expiration measured in ticks. */
module Limiters {
  import opened Wrappers
  import opened TokenBuckets

  type Table = map<string, Bucket>

  function BucketFor(capacity: real, table: Table, key: string, now: real): Bucket {
    if key in table then table[key] else Fresh(capacity, now)
  }

  function Called(capacity: real, table: Table, key: string, now: real): Table {
    table[key := Take(capacity, BucketFor(capacity, table, key, now), now)]
  }

  function Swept(table: Table, window: real, now: real): Table {
    map key | key in table && now - table[key].lastRefill <= window :: table[key]
  }

  class Manager {
    const rate: real
    const capacity: real
    const expiration: real
    var buckets: map<string, TokenBucket>

    ghost predicate Valid()
      reads this, buckets.Values
    {
      && rate > 0.0
      && (forall key | key in buckets :: buckets[key].rate == rate && buckets[key].capacity == capacity)
      && (forall j, k | j in buckets && k in buckets && j != k :: buckets[j] != buckets[k])
    }

    function Abs(): Table
      reads this, buckets.Values
    {
      AbsOf(buckets)
    }

    constructor (rate: real, capacity: real, expiration: real)
      requires rate > 0.0
      ensures Valid() && buckets == map[]
      ensures this.rate == rate && this.capacity == capacity && this.expiration == expiration
    {
      this.rate, this.capacity, this.expiration, buckets := rate, capacity, expiration, map[];
    }

    method Allow(key: string, now: real) returns (ok: bool)
      requires Valid()
      modifies this`buckets, buckets.Values
      ensures Valid() && fresh(buckets.Values - old(buckets.Values))
      ensures ok == Grants(capacity, BucketFor(capacity, old(Abs()), key, Tick(rate, now)), Tick(rate, now))
      ensures Abs() == Called(capacity, old(Abs()), key, Tick(rate, now))
      ensures buckets.Keys == old(buckets.Keys) + {key} && forall k | k in old(buckets) :: buckets[k] == old(buckets[k])
      ensures key !in old(buckets) ==> ok == (capacity >= 1.0) && buckets[key].lastRefill == now
      ensures forall k | k in old(buckets) && k != key ::
                buckets[k].tokens == old(buckets[k].tokens) && buckets[k].lastRefill == old(buckets[k].lastRefill)
    {
      if key !in buckets {
        var bucket := new TokenBucket(rate, capacity, now);
        buckets := buckets[key := bucket];
      }
      var bucket := buckets[key];
      assert forall k | k in buckets && k != key :: buckets[k] != bucket;
      ok := bucket.Allow(now);
      assert Abs().Keys == Called(capacity, old(Abs()), key, Tick(rate, now)).Keys;
    }

    method Cleanup(now: real)
      requires Valid()
      modifies this`buckets
      ensures Valid() && buckets.Values <= old(buckets.Values)
      ensures forall key :: key in buckets <==> key in old(buckets) && now - old(buckets[key].lastRefill) <= expiration
      ensures forall key | key in buckets :: buckets[key] == old(buckets[key])
      ensures Abs() == Swept(old(Abs()), Tick(rate, expiration), Tick(rate, now))
    {
      ghost var before := buckets;
      var rest := buckets.Keys;
      while rest != {}
        invariant rest <= buckets.Keys <= before.Keys
        invariant forall key | key in buckets :: buckets[key] == before[key]
        invariant forall key | key in before && key !in rest ::
                    key in buckets <==> now - before[key].lastRefill <= expiration
        decreases rest
      {
        var key :| key in rest;
        rest := rest - {key};
        if now - buckets[key].lastRefill > expiration {
          buckets := map k | k in buckets && k != key :: buckets[k];
        }
      }
      SweptIs(before, buckets, rate, expiration, now);
    }
  }

  function AbsOf(buckets: map<string, TokenBucket>): Table
    reads buckets.Values
  {
    map key | key in buckets :: buckets[key].Abs()
  }

  lemma SweptIs(
    before: map<string, TokenBucket>, after: map<string, TokenBucket>, rate: real, expiration: real, now: real)
    requires rate > 0.0 && after.Keys <= before.Keys
    requires forall key | key in before :: before[key].rate == rate
    requires forall key | key in after :: after[key] == before[key]
    requires forall key | key in before :: key in after <==> now - before[key].lastRefill <= expiration
    ensures AbsOf(after) == Swept(AbsOf(before), Tick(rate, expiration), Tick(rate, now))
  {
    forall key | key in before
      ensures now - before[key].lastRefill <= expiration <==>
              Tick(rate, now) - Tick(rate, before[key].lastRefill) <= Tick(rate, expiration)
    {
      AgeInTicks(rate, before[key].lastRefill, now, expiration);
    }
  }

  lemma AgeInTicks(rate: real, last: real, now: real, expiration: real)
    requires rate > 0.0
    ensures now - last <= expiration <==> Tick(rate, now) - Tick(rate, last) <= Tick(rate, expiration)
  {
    var slack := expiration - (now - last);
    assert Tick(rate, expiration) - (Tick(rate, now) - Tick(rate, last)) == rate * slack;
    if slack >= 0.0 {
      assert rate * slack >= 0.0;
    } else {
      assert rate * slack < 0.0;
    }
  }

  // ----- Runs of a table -----

  datatype Event = Call(key: string, at: real) | Sweep(at: real)

  datatype Decision = Decision(key: string, ok: bool)

  /** The clock never goes back over a run that starts at `now`. */
  ghost predicate InOrder(events: seq<Event>, now: real) {
    events != [] ==> now <= events[0].at && InOrder(events[1..], events[0].at)
  }

  /** One event. Without a window nothing is ever evicted. */
  function Step(capacity: real, window: Option<real>, table: Table, event: Event): Table {
    match event
    case Call(key, at) => Called(capacity, table, key, at)
    case Sweep(at) => if window.Some? then Swept(table, window.value, at) else table
  }

  function TableAfter(capacity: real, window: Option<real>, table: Table, events: seq<Event>): Table
    decreases |events|
  {
    if events == [] then table
    else TableAfter(capacity, window, Step(capacity, window, table, events[0]), events[1..])
  }

  function Decisions(capacity: real, window: Option<real>, table: Table, events: seq<Event>): seq<Decision>
    decreases |events|
  {
    if events == [] then []
    else
      (match events[0]
       case Call(key, at) => [Decision(key, Grants(capacity, BucketFor(capacity, table, key, at), at))]
       case Sweep(_) => [])
      + Decisions(capacity, window, Step(capacity, window, table, events[0]), events[1..])
  }

  function ForKey(decisions: seq<Decision>, key: string): seq<bool> {
    if decisions == [] then []
    else (if decisions[0].key == key then [decisions[0].ok] else []) + ForKey(decisions[1..], key)
  }

  function TimesOf(events: seq<Event>, key: string): seq<real> {
    if events == [] then []
    else (if events[0].Call? && events[0].key == key then [events[0].at] else []) + TimesOf(events[1..], key)
  }

  // ----- Eviction does not show -----

  /** An evicting table against one that never evicts: they agree on the buckets
      both hold, and every evicted bucket has had time to fill up. */
  ghost predicate Covers(capacity: real, full: Table, evicting: Table, now: real) {
    && evicting.Keys <= full.Keys
    && (forall key | key in full :: full[key].lastRefill <= now && full[key].tokens >= 0.0)
    && (forall key | key in full :: if key in evicting then evicting[key] == full[key]
                                    else Level(capacity, full[key], now) == capacity)
  }

  lemma {:induction false} CoveredTablesAgree(
    capacity: real, window: real, full: Table, evicting: Table, now: real, events: seq<Event>)
    requires 0.0 < capacity <= window && InOrder(events, now) && Covers(capacity, full, evicting, now)
    ensures Decisions(capacity, Some(window), evicting, events) == Decisions(capacity, None, full, events)
    decreases |events|
  {
    if events == [] {
    } else {
      var full', evicting' := Step(capacity, None, full, events[0]), Step(capacity, Some(window), evicting, events[0]);
      assert Covers(capacity, full', evicting', events[0].at);
      CoveredTablesAgree(capacity, window, full', evicting', events[0].at, events[1..]);
    }
  }

  lemma {:induction false} SmallTablesRefuse(capacity: real, window: Option<real>, table: Table, events: seq<Event>)
    requires capacity < 1.0
    ensures |Decisions(capacity, window, table, events)| == |Decisions(capacity, None, map[], events)|
    ensures Decisions(capacity, window, table, events) == Decisions(capacity, None, map[], events)
    decreases |events|
  {
    if events == [] {
    } else {
      SmallTablesRefuse(capacity, window, Step(capacity, window, table, events[0]), events[1..]);
      SmallTablesRefuse(capacity, None, Step(capacity, None, map[], events[0]), events[1..]);
    }
  }

  // ----- Keys do not affect each other -----

  /** In a table that never evicts, the decisions for a key are those of one
      bucket called at that key's instants and at no others. */
  lemma {:induction false} KeysAreIndependent(capacity: real, table: Table, events: seq<Event>, key: string)
    ensures var times := TimesOf(events, key);
            ForKey(Decisions(capacity, None, table, events), key)
            == (if times == [] then [] else Run(capacity, BucketFor(capacity, table, key, times[0]), times))
    decreases |events|
  {
    if events == [] {
    } else {
      var table' := Step(capacity, None, table, events[0]);
      var times, later := TimesOf(events, key), TimesOf(events[1..], key);
      var all, rest := Decisions(capacity, None, table, events), Decisions(capacity, None, table', events[1..]);
      KeysAreIndependent(capacity, table', events[1..], key);
      match events[0]
      case Sweep(_) =>
        assert all == rest && times == later;
      case Call(k, at) =>
        var ok := Grants(capacity, BucketFor(capacity, table, k, at), at);
        assert all == [Decision(k, ok)] + rest;
        assert ForKey(all, key) == (if k == key then [ok] else []) + ForKey(rest, key);
        if k == key {
          var b' := Take(capacity, BucketFor(capacity, table, key, at), at);
          assert times == [at] + later;
          assert ForKey(rest, key) == Run(capacity, b', later);
        } else {
          assert times == later;
        }
    }
  }

  // ----- When eviction shows -----

  const CLIENT: string := "client"

  ghost predicate OfClient(events: seq<Event>) {
    forall i | 0 <= i < |events| && events[i].Call? :: events[i].key == CLIENT
  }

  function Repeat(t: real, n: nat): (times: seq<real>)
    ensures |times| == n && forall i | 0 <= i < n :: times[i] == t
  {
    if n == 0 then [] else [t] + Repeat(t, n - 1)
  }

  /** As many calls at `t` as a full bucket has whole tokens, then one more as
      soon as the fraction left over has grown into a token. */
  function Burst(capacity: real, t: real): seq<real>
    requires capacity >= 1.0
  {
    Repeat(t, capacity.Floor) + [t + 1.0 - (capacity - capacity.Floor as real)]
  }

  ghost predicate AllTrue(s: seq<bool>) {
    forall i | 0 <= i < |s| :: s[i]
  }

  ghost predicate AllOk(s: seq<Decision>) {
    forall i | 0 <= i < |s| :: s[i].ok
  }

  lemma {:induction false} RepeatDrains(capacity: real, b: Bucket, t: real, n: nat)
    requires Level(capacity, b, t) >= n as real
    ensures AllTrue(Run(capacity, b, Repeat(t, n)))
    ensures n > 0 ==> After(capacity, b, Repeat(t, n)) == Bucket(Level(capacity, b, t) - n as real, t)
    decreases n
  {
    if n == 0 {
    } else {
      assert Repeat(t, n)[1..] == Repeat(t, n - 1);
      RepeatDrains(capacity, Take(capacity, b, t), t, n - 1);
    }
  }

  lemma {:induction false} RunSnoc(capacity: real, b: Bucket, times: seq<real>, t: real)
    ensures Run(capacity, b, times + [t]) == Run(capacity, b, times) + [Grants(capacity, After(capacity, b, times), t)]
    decreases |times|
  {
    if times == [] {
    } else {
      assert (times + [t])[1..] == times[1..] + [t];
      RunSnoc(capacity, Take(capacity, b, times[0]), times[1..], t);
    }
  }

  /** A bucket that is full at `t` grants the whole burst and is left empty. */
  lemma BurstDrains(capacity: real, b: Bucket, t: real)
    requires capacity >= 1.0 && Level(capacity, b, t) == capacity
    ensures AllTrue(Run(capacity, b, Burst(capacity, t)))
    ensures After(capacity, b, Burst(capacity, t)) == Bucket(0.0, t + 1.0 - (capacity - capacity.Floor as real))
  {
    var n := capacity.Floor;
    var late := t + 1.0 - (capacity - n as real);
    RepeatDrains(capacity, b, t, n);
    RunSnoc(capacity, b, Repeat(t, n), late);
    AfterSnoc(capacity, b, Repeat(t, n), late);
  }

  lemma {:induction false} DecisionsOfConcat(
    capacity: real, window: Option<real>, table: Table, first: seq<Event>, second: seq<Event>)
    ensures Decisions(capacity, window, table, first + second)
         == Decisions(capacity, window, table, first)
          + Decisions(capacity, window, TableAfter(capacity, window, table, first), second)
    decreases |first|
  {
    if first == [] {
      assert first + second == second;
    } else {
      assert (first + second)[1..] == first[1..] + second;
      DecisionsOfConcat(capacity, window, Step(capacity, window, table, first[0]), first[1..], second);
    }
  }

  lemma {:induction false} TimesOfConcat(first: seq<Event>, second: seq<Event>, key: string)
    ensures TimesOf(first + second, key) == TimesOf(first, key) + TimesOf(second, key)
  {
    if first == [] {
      assert first + second == second;
    } else {
      assert (first + second)[1..] == first[1..] + second;
      TimesOfConcat(first[1..], second, key);
    }
  }

  lemma {:induction false} InOrderConcat(first: seq<Event>, second: seq<Event>, now: real, mid: real)
    requires InOrder(first, now) && InOrder(second, mid) && now <= mid
    requires forall i | 0 <= i < |first| :: first[i].at <= mid
    ensures InOrder(first + second, now)
  {
    if first == [] {
      assert first + second == second;
    } else {
      assert (first + second)[1..] == first[1..] + second;
      InOrderConcat(first[1..], second, first[0].at, mid);
    }
  }

  lemma {:induction false} AllOkForKey(decisions: seq<Decision>, key: string)
    requires AllOk(decisions)
    ensures AllTrue(ForKey(decisions, key))
  {
    if decisions == [] {
    } else {
      AllOkForKey(decisions[1..], key);
    }
  }

  lemma {:induction false} CountAll(granted: seq<bool>, n: nat)
    requires n <= |granted| && AllTrue(granted)
    ensures Count(granted, 0, n) == n
  {
    if n == 0 {
    } else {
      CountAll(granted, n - 1);
    }
  }

  /** Calls of a burst at `t` come at `t` or later, and not after `t + 1`. */
  lemma BurstOrdered(capacity: real, t: real)
    requires capacity >= 1.0
    ensures Ordered(Burst(capacity, t), t)
    ensures forall i | 0 <= i < |Burst(capacity, t)| ::
              Burst(capacity, t)[i] <= t + 1.0 - (capacity - capacity.Floor as real)
  {}

  // ----- The ticker -----

  /** When the cleanup loop's ticker fires for the j-th time. */
  function SweepAt(window: real, j: nat): real {
    j as real * window
  }

  lemma SweepAtNext(window: real, j: nat)
    ensures SweepAt(window, j + 1) == SweepAt(window, j) + window
  {}

  lemma SweepAtGrows(window: real, i: nat, j: nat)
    requires window > 0.0
    ensures SweepAt(window, i) < SweepAt(window, j) <==> i < j
  {
    if i < j {
      assert (j - i) as real * window > 0.0;
    } else {
      assert (i - j) as real * window >= 0.0;
    }
  }

  lemma SweepAfter(window: real, x: real) returns (j: nat)
    requires window > 0.0
    ensures SweepAt(window, j) >= x
  {
    var n := (x / window).Floor + 1;
    j := if n >= 0 then n else 0;
    assert j as real >= x / window;
    assert (j as real - x / window) * window >= 0.0;
    assert x / window * window == x;
  }

  /** The sweeps are the ticker's, from the j-th on, none left out before a call;
      `n` is the next one. */
  ghost predicate Ticks(events: seq<Event>, window: real, j: nat, n: nat)
    decreases |events|
  {
    if events == [] then j == n
    else
      match events[0]
      case Sweep(at) => at == SweepAt(window, j) && Ticks(events[1..], window, j + 1, n)
      case Call(_, at) => at <= SweepAt(window, j) && Ticks(events[1..], window, j, n)
  }

  lemma {:induction false} TicksConcat(first: seq<Event>, second: seq<Event>, window: real, j: nat, m: nat, n: nat)
    requires Ticks(first, window, j, m) && Ticks(second, window, m, n)
    ensures Ticks(first + second, window, j, n)
    decreases |first|
  {
    if first == [] {
      assert first + second == second;
    } else {
      assert (first + second)[1..] == first[1..] + second;
      TicksConcat(first[1..], second, window, if first[0].Sweep? then j + 1 else j, m, n);
    }
  }

  /** A stretch of a run: the client's calls, and the ticker's sweeps from the j-th
      to the one before the n-th. */
  ghost predicate Stretch(
    events: seq<Event>, window: real, times: seq<real>, start: real, end: real, j: nat, n: nat)
  {
    && OfClient(events) && TimesOf(events, CLIENT) == times
    && InOrder(events, start) && (forall i | 0 <= i < |events| :: events[i].at <= end)
    && Ticks(events, window, j, n)
  }

  lemma StretchCons(
    event: Event, events: seq<Event>, window: real, times: seq<real>, start: real, end: real, j: nat, n: nat)
    requires event.Call? ==> event.key == CLIENT && event.at <= SweepAt(window, j)
    requires event.Sweep? ==> event.at == SweepAt(window, j)
    requires start <= event.at <= end
    requires Stretch(events, window, times, event.at, end, if event.Sweep? then j + 1 else j, n)
    ensures Stretch([event] + events, window, if event.Call? then [event.at] + times else times, start, end, j, n)
  {
    var all := [event] + events;
    assert all[1..] == events;
    forall i | 0 <= i < |all| ensures all[i].at <= end {
      assert i > 0 ==> all[i] == events[i - 1];
    }
  }

  lemma StretchConcat(
    first: seq<Event>, second: seq<Event>, window: real, times: seq<real>, times': seq<real>,
    start: real, mid: real, end: real, j: nat, m: nat, n: nat)
    requires Stretch(first, window, times, start, mid, j, m) && Stretch(second, window, times', mid, end, m, n)
    requires start <= mid <= end
    ensures Stretch(first + second, window, times + times', start, end, j, n)
  {
    TimesOfConcat(first, second, CLIENT);
    InOrderConcat(first, second, start, mid);
    TicksConcat(first, second, window, j, m, n);
  }

  /** The calls at the given times, with the ticker's sweeps in between; `last` is
      a sweep that is not before any of them. */
  lemma {:induction false} Interleaved(window: real, times: seq<real>, start: real, end: real, j: nat, last: nat)
    returns (events: seq<Event>, n: nat)
    requires window > 0.0 && Ordered(times, start) && start <= SweepAt(window, j)
    requires j <= last && forall i | 0 <= i < |times| :: times[i] <= end <= SweepAt(window, last)
    ensures n <= last && Stretch(events, window, times, start, end, j, n)
    ensures if times == [] then n == j else times[|times| - 1] <= SweepAt(window, n)
    decreases |times| + last - j
  {
    if times == [] {
      events, n := [], j;
    } else if times[0] <= SweepAt(window, j) {
      assert Ordered(times[1..], times[0]);
      events, n := Interleaved(window, times[1..], times[0], end, j, last);
      StretchCons(Call(CLIENT, times[0]), events, window, times[1..], start, end, j, n);
      assert [times[0]] + times[1..] == times;
      events := [Call(CLIENT, times[0])] + events;
    } else {
      var at := SweepAt(window, j);
      SweepAtNext(window, j);
      SweepAtGrows(window, j, last);
      events, n := Interleaved(window, times, at, end, j + 1, last);
      StretchCons(Sweep(at), events, window, times, start, end, j, n);
      events := [Sweep(at)] + events;
    }
  }

  function Sweeps(window: real, j: nat, n: nat): seq<Event>
    decreases n - j
  {
    if j >= n then [] else [Sweep(SweepAt(window, j))] + Sweeps(window, j + 1, n)
  }

  lemma {:induction false} SweepsAreStretch(window: real, start: real, end: real, j: nat, n: nat)
    requires window > 0.0 && j <= n && start <= SweepAt(window, j) && SweepAt(window, n) <= end
    ensures Stretch(Sweeps(window, j, n), window, [], start, end, j, n)
    decreases n - j
  {
    if j == n {
    } else {
      var at := SweepAt(window, j);
      SweepAtNext(window, j);
      SweepAtGrows(window, j, n);
      SweepsAreStretch(window, at, end, j + 1, n);
      StretchCons(Sweep(at), Sweeps(window, j + 1, n), window, [], start, end, j, n);
    }
  }

  // ----- Sweeps only add tokens -----

  lemma LevelsKeepOrder(capacity: real, low: Bucket, high: Bucket, now: real, later: real)
    requires now <= later && Level(capacity, low, now) <= Level(capacity, high, now)
    ensures Level(capacity, low, later) <= Level(capacity, high, later)
  {}

  lemma BucketsKeepOrder(capacity: real, low: Bucket, table: Table, key: string, now: real, later: real)
    requires now <= later && Level(capacity, low, now) <= Level(capacity, BucketFor(capacity, table, key, now), now)
    ensures Level(capacity, low, later) <= Level(capacity, BucketFor(capacity, table, key, later), later)
  {
    if key in table {
      LevelsKeepOrder(capacity, low, table[key], now, later);
    }
  }

  lemma DecisionFirst(capacity: real, window: Option<real>, table: Table, events: seq<Event>)
    requires events != [] && events[0].Call?
    ensures var key, at := events[0].key, events[0].at;
            Decisions(capacity, window, table, events)
            == [Decision(key, Grants(capacity, BucketFor(capacity, table, key, at), at))]
             + Decisions(capacity, window, Called(capacity, table, key, at), events[1..])
  {}

  /** Whatever a bucket grants that is never swept away, a table that sweeps grants,
      if it starts with as many tokens. */
  lemma {:induction false} SweepsOnlyHelp(
    capacity: real, window: real, table: Table, b: Bucket, events: seq<Event>, now: real)
    requires OfClient(events) && InOrder(events, now)
    requires Level(capacity, b, now) <= Level(capacity, BucketFor(capacity, table, CLIENT, now), now)
    requires AllTrue(Run(capacity, b, TimesOf(events, CLIENT)))
    ensures AllOk(Decisions(capacity, Some(window), table, events))
    decreases |events|
  {
    if events == [] {
    } else {
      var at, rest := events[0].at, events[1..];
      BucketsKeepOrder(capacity, b, table, CLIENT, now, at);
      match events[0]
      case Sweep(_) =>
        assert TimesOf(events, CLIENT) == TimesOf(rest, CLIENT);
        SweepsOnlyHelp(capacity, window, Swept(table, window, at), b, rest, at);
      case Call(key, _) =>
        var times := TimesOf(events, CLIENT);
        assert times == [at] + TimesOf(rest, CLIENT) && times[1..] == TimesOf(rest, CLIENT);
        var granted := Run(capacity, b, times);
        assert granted[0] && granted[1..] == Run(capacity, Take(capacity, b, at), times[1..]);
        assert AllTrue(granted[1..]);
        SweepsOnlyHelp(capacity, window, Called(capacity, table, key, at), Take(capacity, b, at), rest, at);
        DecisionFirst(capacity, Some(window), table, events);
    }
  }

  /** No bucket but the client's, and that not used after `end`. */
  ghost predicate UnusedSince(table: Table, end: real) {
    forall key | key in table :: key == CLIENT && table[key].lastRefill <= end
  }

  lemma {:induction false} LastUse(capacity: real, window: real, table: Table, events: seq<Event>, end: real)
    requires OfClient(events) && UnusedSince(table, end)
    requires forall i | 0 <= i < |TimesOf(events, CLIENT)| :: TimesOf(events, CLIENT)[i] <= end
    ensures UnusedSince(TableAfter(capacity, Some(window), table, events), end)
    decreases |events|
  {
    if events == [] {
    } else {
      var times, later := TimesOf(events, CLIENT), TimesOf(events[1..], CLIENT);
      assert times == (if events[0].Call? then [events[0].at] else []) + later;
      assert events[0].Call? ==> times[0] == events[0].at;
      forall i | 0 <= i < |later| ensures later[i] <= end {
        assert later[i] == times[if events[0].Call? then i + 1 else i];
      }
      LastUse(capacity, window, Step(capacity, Some(window), table, events[0]), events[1..], end);
    }
  }

  lemma SweepDecidesNothing(capacity: real, window: Option<real>, table: Table, at: real, events: seq<Event>)
    ensures Decisions(capacity, window, table, [Sweep(at)] + events)
         == Decisions(capacity, window, Step(capacity, window, table, Sweep(at)), events)
  {
    assert ([Sweep(at)] + events)[1..] == events;
  }

  /** A sweep that takes everything lets the second part start afresh. */
  lemma GrantsAround(capacity: real, window: real, first: seq<Event>, end: real, at: real, second: seq<Event>)
    requires AllOk(Decisions(capacity, Some(window), map[], first))
    requires UnusedSince(TableAfter(capacity, Some(window), map[], first), end) && at - end > window
    requires AllOk(Decisions(capacity, Some(window), map[], second))
    ensures AllOk(Decisions(capacity, Some(window), map[], first + ([Sweep(at)] + second)))
  {
    var table := TableAfter(capacity, Some(window), map[], first);
    assert Swept(table, window, at) == map[];
    SweepDecidesNothing(capacity, Some(window), table, at, second);
    DecisionsOfConcat(capacity, Some(window), map[], first, [Sweep(at)] + second);
  }

  // ----- The run that tells the tables apart -----

  // A burst, a sweep of the ticker's once the bucket has been idle for longer
  // than the window but not long enough to refill, and a second burst.
  function Idle(capacity: real, window: real): real {
    (capacity + window) / 2.0
  }

  /** How long a burst takes. */
  function Lasts(capacity: real): real {
    1.0 - (capacity - capacity.Floor as real)
  }

  /** When the first burst begins, if the sweep comes at `at`. */
  function Begins(capacity: real, window: real, at: real): real {
    at - Idle(capacity, window) - Lasts(capacity)
  }

  /** What both bursts are granted by a table that sweeps. */
  lemma BurstPasses(capacity: real, window: real, events: seq<Event>, now: real, t: real)
    requires capacity >= 1.0 && now <= t
    requires OfClient(events) && InOrder(events, now) && TimesOf(events, CLIENT) == Burst(capacity, t)
    ensures AllOk(Decisions(capacity, Some(window), map[], events))
  {
    BurstDrains(capacity, Fresh(capacity, t), t);
    SweepsOnlyHelp(capacity, window, map[], Fresh(capacity, t), events, now);
  }

  lemma FirstPart(capacity: real, window: real, last: nat) returns (events: seq<Event>)
    requires capacity >= 1.0 && 0.0 < window < capacity && last > 0
    requires Begins(capacity, window, SweepAt(window, last)) >= 0.0
    ensures var at := SweepAt(window, last);
            Stretch(events, window, Burst(capacity, Begins(capacity, window, at)), 0.0, at, 1, last)
  {
    var at := SweepAt(window, last);
    var t := Begins(capacity, window, at);
    var end := at - Idle(capacity, window);
    BurstOrdered(capacity, t);
    SweepAtNext(window, last - 1);
    SweepAtNext(window, 0);
    var calls, n := Interleaved(window, Burst(capacity, t), 0.0, end, 1, last - 1);
    SweepAtGrows(window, last, n);
    SweepsAreStretch(window, end, at, n, last);
    StretchConcat(calls, Sweeps(window, n, last), window, Burst(capacity, t), [], 0.0, end, at, 1, n, last);
    assert Burst(capacity, t) + [] == Burst(capacity, t);
    events := calls + Sweeps(window, n, last);
  }

  lemma SecondPart(capacity: real, window: real, last: nat) returns (events: seq<Event>, end: real, n: nat)
    requires capacity >= 1.0 && 0.0 < window < capacity
    ensures var at := SweepAt(window, last);
            Stretch(events, window, Burst(capacity, at), at, end, last + 1, n) && at <= end
  {
    var at := SweepAt(window, last);
    end := at + Lasts(capacity);
    var late := SweepAfter(window, end);
    late := if late > last then late else last + 1;
    SweepAtNext(window, last);
    BurstOrdered(capacity, at);
    events, n := Interleaved(window, Burst(capacity, at), at, end, last + 1, late);
  }

  lemma NotAllGranted(capacity: real, start: real, times: seq<real>)
    requires capacity >= 0.0 && Ordered(times, start)
    requires times != [] && |times| as real > capacity + (times[|times| - 1] - times[0])
    ensures !AllTrue(Run(capacity, Fresh(capacity, start), times))
  {
    var granted := Run(capacity, Fresh(capacity, start), times);
    if AllTrue(granted) {
      CountAll(granted, |times|);
      BurstBound(capacity, start, times, 0, |times| - 1);
      assert false;
    }
  }

  /** More calls than a bucket can grant in the time they take. */
  lemma MoreThanTheBound(capacity: real, window: real, at: real)
    requires capacity >= 1.0 && 0.0 < window < capacity
    ensures var times := Burst(capacity, Begins(capacity, window, at)) + Burst(capacity, at);
            times != [] && |times| as real > capacity + (times[|times| - 1] - times[0])
  {
    var first, second := Burst(capacity, Begins(capacity, window, at)), Burst(capacity, at);
    assert first[0] == Begins(capacity, window, at) && |first| == |second| == capacity.Floor + 1;
    assert (first + second)[|first| + |second| - 1] == second[|second| - 1];
  }

  lemma BurstsOrdered(capacity: real, window: real, at: real)
    requires capacity >= 1.0 && 0.0 < window < capacity
    ensures var t := Begins(capacity, window, at); Ordered(Burst(capacity, t) + Burst(capacity, at), t)
  {
    BurstOrdered(capacity, Begins(capacity, window, at));
    BurstOrdered(capacity, at);
  }

  /** A table that never evicts cannot grant both bursts: its bucket would have to
      grant more than the burst bound allows. */
  lemma FullTableRefusesSome(capacity: real, window: real, events: seq<Event>, at: real)
    requires capacity >= 1.0 && 0.0 < window < capacity
    requires TimesOf(events, CLIENT) == Burst(capacity, Begins(capacity, window, at)) + Burst(capacity, at)
    ensures !AllOk(Decisions(capacity, None, map[], events))
  {
    var times := TimesOf(events, CLIENT);
    BurstsOrdered(capacity, window, at);
    MoreThanTheBound(capacity, window, at);
    NotAllGranted(capacity, Begins(capacity, window, at), times);
    KeysAreIndependent(capacity, map[], events, CLIENT);
    if AllOk(Decisions(capacity, None, map[], events)) {
      AllOkForKey(Decisions(capacity, None, map[], events), CLIENT);
      assert false;
    }
  }

  /** The evicting table grants both. */
  lemma EvictingGrantsAll(
    capacity: real, window: real, first: seq<Event>, second: seq<Event>, last: nat, end: real, n: nat)
    requires capacity >= 1.0 && 0.0 < window < capacity
    requires var at := SweepAt(window, last);
             && Begins(capacity, window, at) >= 0.0
             && Stretch(first, window, Burst(capacity, Begins(capacity, window, at)), 0.0, at, 1, last)
             && Stretch(second, window, Burst(capacity, at), at, end, last + 1, n)
    ensures AllOk(Decisions(capacity, Some(window), map[], first + ([Sweep(SweepAt(window, last))] + second)))
  {
    var at := SweepAt(window, last);
    var t := Begins(capacity, window, at);
    BurstOrdered(capacity, t);
    BurstPasses(capacity, window, first, 0.0, t);
    BurstPasses(capacity, window, second, at, at);
    LastUse(capacity, window, map[], first, at - Idle(capacity, window));
    GrantsAround(capacity, window, first, at - Idle(capacity, window), at, second);
  }

  /** A run of the ticker from the start. */
  ghost predicate Ticking(events: seq<Event>, window: real) {
    InOrder(events, 0.0) && exists n :: Ticks(events, window, 1, n)
  }

  /** Both together. */
  lemma Told(capacity: real, window: real) returns (events: seq<Event>)
    requires capacity >= 1.0 && 0.0 < window < capacity
    ensures Ticking(events, window) && !Invisible(capacity, window, events)
  {
    var last := SweepAfter(window, Idle(capacity, window) + 1.0);
    var at := SweepAt(window, last);
    assert SweepAt(window, 0) == 0.0;
    var first := FirstPart(capacity, window, last);
    var second, end, n := SecondPart(capacity, window, last);
    events := first + ([Sweep(at)] + second);
    StretchCons(Sweep(at), second, window, Burst(capacity, at), at, end, last, n);
    StretchConcat(first, [Sweep(at)] + second, window, Burst(capacity, Begins(capacity, window, at)),
                  Burst(capacity, at), 0.0, at, end, 1, last, n);
    EvictingGrantsAll(capacity, window, first, second, last, end, n);
    FullTableRefusesSome(capacity, window, events, at);
  }

  /** From an empty table, the decisions of a run do not tell an evicting table
      from one that keeps everything. */
  ghost predicate Invisible(capacity: real, window: real, events: seq<Event>) {
    Decisions(capacity, Some(window), map[], events) == Decisions(capacity, None, map[], events)
  }

  ghost predicate NeverShows(capacity: real, window: real) {
    forall events, start | InOrder(events, start) :: Invisible(capacity, window, events)
  }

  ghost predicate NeverShowsTicking(capacity: real, window: real) {
    forall events | Ticking(events, window) :: Invisible(capacity, window, events)
  }

  lemma LongWindowHides(capacity: real, window: real, events: seq<Event>, start: real)
    requires capacity > 0.0 && window > 0.0 && InOrder(events, start)
    requires capacity <= window || capacity < 1.0
    ensures Invisible(capacity, window, events)
  {
    if capacity < 1.0 {
      SmallTablesRefuse(capacity, Some(window), map[], events);
    } else {
      CoveredTablesAgree(capacity, window, map[], map[], start, events);
    }
  }

  /** Eviction is invisible on every run, with cleanups at any time or with those of
      the ticker alone, exactly when a bucket idle for longer than the window has
      filled up (rate * expiration reaches the capacity), or when no call is ever
      granted anyway. */
  lemma EvictionIsInvisible(capacity: real, window: real)
    requires capacity > 0.0 && window > 0.0
    ensures NeverShows(capacity, window) <==> (capacity <= window || capacity < 1.0)
    ensures NeverShowsTicking(capacity, window) <==> (capacity <= window || capacity < 1.0)
  {
    if capacity <= window || capacity < 1.0 {
      forall events, start | InOrder(events, start) ensures Invisible(capacity, window, events) {
        LongWindowHides(capacity, window, events, start);
      }
      forall events | Ticking(events, window) ensures Invisible(capacity, window, events) {
        LongWindowHides(capacity, window, events, 0.0);
      }
    } else {
      var events := Told(capacity, window);
      assert InOrder(events, 0.0) && !Invisible(capacity, window, events);
    }
  }

  /** On the wall clock: eviction is invisible exactly when the rate times the
      expiration reaches the capacity, or when nothing is ever granted. */
  lemma EvictionInSeconds(rate: real, capacity: real, expiration: real)
    requires rate > 0.0 && capacity > 0.0 && expiration > 0.0
    ensures NeverShows(capacity, Tick(rate, expiration)) <==> (capacity <= rate * expiration || capacity < 1.0)
  {
    TicksBetween(rate, 0.0, expiration);
    assert rate * expiration > 0.0;
    assert Tick(rate, expiration) == rate * expiration;
    EvictionIsInvisible(capacity, Tick(rate, expiration));
  }

  /** Hence, with a window that long, the decisions for a key depend on that key's
      calls alone, whatever else is called and swept. */
  lemma EvictingKeysAreIndependent(capacity: real, window: real, events: seq<Event>, start: real, key: string)
    requires 0.0 < capacity <= window && InOrder(events, start)
    ensures var times := TimesOf(events, key);
            ForKey(Decisions(capacity, Some(window), map[], events), key)
            == (if times == [] then [] else Run(capacity, Fresh(capacity, times[0]), times))
  {
    CoveredTablesAgree(capacity, window, map[], map[], start, events);
    KeysAreIndependent(capacity, map[], events, key);
  }
}
