/** The sliding session of middleware/auth/cookie.go. Instants and ages are
    nanoseconds; the client keeps the cookie the server last sent. */
module Sessions {
  import opened Wrappers

  const SECOND := 1_000_000_000
  const TWO_TO_63 := 0x8000_0000_0000_0000
  const DAY_IN_SECONDS := 86400

  /** int64 arithmetic wraps. */
  function Wrap64(x: int): int {
    (x + TWO_TO_63) % (2 * TWO_TO_63) - TWO_TO_63
  }

  /** normalizeCookieConfig: a missing or non-positive MaxAge means a day. */
  function NormalMaxAge(seconds: int): (n: int)
    ensures n > 0
  {
    if seconds <= 0 then DAY_IN_SECONDS else seconds
  }

  /** What NewCookieAuth derives from the options. */
  datatype Ages = Ages(maxAge: int, refreshAge: int)

  function NewAges(seconds: int): Ages {
    var maxAge := Wrap64(NormalMaxAge(seconds) * SECOND);
    // Go's division truncates towards zero
    Ages(maxAge, if maxAge >= 0 then maxAge / 2 else -(-maxAge / 2))
  }

  /** The session lasts as long as configured exactly when the product fits; a
      fitting one halves exactly. */
  lemma AgesAreExact(seconds: int)
    ensures NewAges(seconds).maxAge == NormalMaxAge(seconds) * SECOND <==> NormalMaxAge(seconds) * SECOND < TWO_TO_63
    ensures NormalMaxAge(seconds) * SECOND < TWO_TO_63 ==>
              NewAges(seconds).maxAge == 2 * NewAges(seconds).refreshAge > 0
    ensures 0 < seconds <= 9223372036 ==> NewAges(seconds).maxAge == seconds * 1_000_000_000
    ensures seconds > 9223372036 ==> NewAges(seconds).maxAge != seconds * 1_000_000_000
    ensures seconds <= 0 ==> NewAges(seconds).maxAge == 24 * 60 * 60 * 1_000_000_000
  {}

  /** The session values of a cookie: `authenticated`, and the last access if the
      value is there and is a time. */
  datatype Values = Values(authenticated: bool, lastAccess: Option<int>)

  /** What the middleware makes of a request. */
  datatype Verdict = Reject | Accept | Refresh

  function Judge(ages: Ages, values: Values, now: int): Verdict {
    if !values.authenticated || values.lastAccess.None? then Reject
    else if now - values.lastAccess.value > ages.maxAge then Reject
    else if now - values.lastAccess.value > ages.refreshAge then Refresh
    else Accept
  }

  /** What becomes of a request: handed on with the session's state, handed on
      without it, refused, or failed. */
  datatype Answer = Served | Skipped | Denied | SaveFailed

  function AnswerTo(verdict: Verdict, skips: bool, saves: bool): Answer {
    match verdict
    case Reject => if skips then Skipped else Denied
    case Accept => Served
    case Refresh => if saves then Served else SaveFailed
  }

  const ANONYMOUS := Values(false, None)

  /** Logged in, with an access that is not too long ago. */
  predicate IsFresh(ages: Ages, values: Values, now: int) {
    values.authenticated && values.lastAccess.Some? && now - values.lastAccess.value <= ages.maxAge
  }

  /** A client's session, as the middleware and SetState read and write it. */
  class Session {
    var values: Values

    constructor ()
      ensures values == ANONYMOUS
    {
      values := ANONYMOUS;
    }

    /** `readable` is whether the store makes sense of the cookie, which is
        expired if not; `skips` is what SkipAuth says; `saves` is whether
        session.Save succeeds. A failed save leaves the client's cookie alone. */
    method Middleware(ages: Ages, now: int, readable: bool, skips: bool, saves: bool) returns (answer: Answer)
      modifies this
      ensures answer == Served ==> readable && IsFresh(ages, old(values), now)
      ensures !readable || !IsFresh(ages, old(values), now) ==> answer == if skips then Skipped else Denied
      ensures readable && IsFresh(ages, old(values), now) ==>
                answer == if now - old(values).lastAccess.value > ages.refreshAge && !saves then SaveFailed else Served
      ensures values == if !readable then ANONYMOUS
                        else if IsFresh(ages, old(values), now) && saves
                                && now - old(values).lastAccess.value > ages.refreshAge
                        then old(values).(lastAccess := Some(now)) else old(values)
      ensures answer == AnswerTo(if readable then Judge(ages, old(values), now) else Reject, skips, saves)
      ensures values == if !readable then ANONYMOUS
                        else if saves then Next(ages, old(values), Visit(now)) else old(values)
    {
      if !readable {
        values := ANONYMOUS;
        return if skips then Skipped else Denied;
      }
      if !values.authenticated {
        return if skips then Skipped else Denied;
      }
      if values.lastAccess.None? {
        return if skips then Skipped else Denied;
      }
      var sessionAge := now - values.lastAccess.value;
      if sessionAge > ages.maxAge {
        return if skips then Skipped else Denied;
      }
      if sessionAge > ages.refreshAge {
        if !saves {
          return SaveFailed;
        }
        values := values.(lastAccess := Some(now));
      }
      answer := Served;
    }

    method SetState(ages: Ages, now: int, readable: bool, saves: bool) returns (ok: bool)
      modifies this
      ensures ok == (readable && saves)
      ensures values == if ok then Next(ages, old(values), Login(now)) else old(values)
      ensures ok ==> values == Values(true, Some(now))
    {
      if !readable || !saves {
        return false;
      }
      values := Values(true, Some(now));
      ok := true;
    }

    method Clear()
      modifies this
      ensures values == ANONYMOUS
    {
      values := ANONYMOUS;
    }
  }

  // ----- Runs -----

  datatype Event = Login(at: int) | Logout(at: int) | Visit(at: int)

  /** The session after an event, when the cookie reads, saves succeed and the
      client keeps what it is sent. */
  function Next(ages: Ages, values: Values, event: Event): Values {
    match event
    case Login(at) => Values(true, Some(at))
    case Logout(_) => ANONYMOUS
    case Visit(at) => if Judge(ages, values, at).Refresh? then values.(lastAccess := Some(at)) else values
  }

  function After(ages: Ages, values: Values, events: seq<Event>): Values
    decreases |events|
  {
    if events == [] then values else After(ages, Next(ages, values, events[0]), events[1..])
  }

  /** The verdicts on the visits of a run, with their instants. */
  function Verdicts(ages: Ages, values: Values, events: seq<Event>): (vs: seq<(int, Verdict)>)
    decreases |events|
  {
    if events == [] then []
    else
      (if events[0].Visit? then [(events[0].at, Judge(ages, values, events[0].at))] else [])
      + Verdicts(ages, Next(ages, values, events[0]), events[1..])
  }

  ghost predicate InOrder(events: seq<Event>, now: int) {
    events != [] ==> now <= events[0].at && InOrder(events[1..], events[0].at)
  }

  function Visits(times: seq<int>): (events: seq<Event>)
    ensures |events| == |times|
  {
    seq(|times|, i requires 0 <= i < |times| => Visit(times[i]))
  }

  /** Each instant follows the one before, `now` the first, by at most `gap`. */
  ghost predicate Gaps(times: seq<int>, now: int, gap: int) {
    times != [] ==> 0 <= times[0] - now <= gap && Gaps(times[1..], times[0], gap)
  }

  /** Every visit of the run is served, if its saves succeed. */
  ghost predicate AllServed(ages: Ages, values: Values, events: seq<Event>) {
    forall v, skips | v in Verdicts(ages, values, events) :: AnswerTo(v.1, skips, true) == Served
  }

  /** No visit of the run is served, whatever SkipAuth and the saves do. */
  ghost predicate NoneServed(ages: Ages, values: Values, events: seq<Event>) {
    forall v, skips, saves | v in Verdicts(ages, values, events) :: AnswerTo(v.1, skips, saves) != Served
  }

  /** Always served after a login at `now`. */
  ghost predicate Kept(ages: Ages, now: int, times: seq<int>) {
    AllServed(ages, ANONYMOUS, [Login(now)] + Visits(times))
  }

  lemma AfterLogin(ages: Ages, values: Values, now: int, events: seq<Event>)
    ensures Verdicts(ages, values, [Login(now)] + events) == Verdicts(ages, Values(true, Some(now)), events)
  {
    assert ([Login(now)] + events)[1..] == events;
  }

  lemma {:induction false} SmallGapsFrom(ages: Ages, last: int, now: int, times: seq<int>, gap: int)
    requires 0 <= gap <= ages.maxAge - ages.refreshAge && 0 <= ages.refreshAge <= ages.maxAge
    requires 0 <= now - last <= ages.refreshAge && Gaps(times, now, gap)
    ensures AllServed(ages, Values(true, Some(last)), Visits(times))
    decreases |times|
  {
    if times == [] {
    } else {
      var values := Values(true, Some(last));
      var last' := if Judge(ages, values, times[0]).Refresh? then times[0] else last;
      assert Visits(times)[1..] == Visits(times[1..]);
      SmallGapsFrom(ages, last', times[0], times[1..], gap);
      assert Next(ages, values, Visits(times)[0]) == Values(true, Some(last'));
    }
  }

  /** The guarantee is exactly half the lifetime: a client whose gaps never exceed
      `gap` is always served, whatever its visits, if and only if `gap` is at
      most maxAge minus refreshAge. */
  lemma GapGuarantee(ages: Ages, gap: int)
    requires 0 <= gap && 0 < ages.refreshAge && ages.maxAge == 2 * ages.refreshAge
    ensures (forall times, now | Gaps(times, now, gap) :: Kept(ages, now, times)) <==> gap <= ages.maxAge / 2
  {
    if gap <= ages.maxAge / 2 {
      forall times, now | Gaps(times, now, gap) ensures Kept(ages, now, times) {
        AfterLogin(ages, ANONYMOUS, now, Visits(times));
        SmallGapsFrom(ages, now, now, times, gap);
      }
    } else {
      // one visit just too early to refresh, the next just too late
      var first, second := ages.refreshAge, ages.refreshAge + gap;
      var times, login := [first, second], Values(true, Some(0));
      assert times[1..] == [second] && [second][1..] == [];
      assert Gaps([second], first, gap) && Gaps(times, 0, gap);
      assert Visits(times)[1..] == Visits([second]);
      assert Judge(ages, login, first) == Accept && Judge(ages, login, second) == Reject;
      assert Verdicts(ages, login, Visits([second]))[0] == (second, Reject);
      assert Verdicts(ages, login, Visits(times))[1] == (second, Reject);
      AfterLogin(ages, ANONYMOUS, 0, Visits(times));
      assert AnswerTo(Reject, true, true) != Served;
      assert !Kept(ages, 0, times);
    }
  }

  /** A session that is expired, or not logged in, is rejected on every visit, and no
      visit is served, until the next login. */
  lemma {:induction false} ExpiredUntilLogin(ages: Ages, values: Values, events: seq<Event>, now: int)
    requires values.lastAccess.Some? && values.authenticated ==> now - values.lastAccess.value > ages.maxAge
    requires InOrder(events, now) && forall i | 0 <= i < |events| :: !events[i].Login?
    ensures forall v | v in Verdicts(ages, values, events) :: v.1 == Reject
    ensures NoneServed(ages, values, events)
    decreases |events|
  {
    if events == [] {
    } else {
      ExpiredUntilLogin(ages, Next(ages, values, events[0]), events[1..], events[0].at);
    }
  }

  /** No access is later than the clock, so a long gap between visits is a long
      time since the last access. */
  lemma {:induction false} AccessIsPast(ages: Ages, values: Values, events: seq<Event>, now: int)
    requires InOrder(events, now) && (values.lastAccess.Some? ==> values.lastAccess.value <= now)
    ensures var last := After(ages, values, events).lastAccess;
            last.Some? ==> last.value <= if events == [] then now else events[|events| - 1].at
    decreases |events|
  {
    if events == [] {
    } else {
      AccessIsPast(ages, Next(ages, values, events[0]), events[1..], events[0].at);
    }
  }

  lemma LongGapExpires(ages: Ages, values: Values, before: seq<Event>, now: int, events: seq<Event>, resumed: int)
    requires InOrder(before, now) && (values.lastAccess.Some? ==> values.lastAccess.value <= now)
    requires var quiet := if before == [] then now else before[|before| - 1].at; resumed - quiet > ages.maxAge
    requires InOrder(events, resumed) && forall i | 0 <= i < |events| :: !events[i].Login?
    ensures forall v | v in Verdicts(ages, After(ages, values, before), events) :: v.1 == Reject
    ensures NoneServed(ages, After(ages, values, before), events)
  {
    AccessIsPast(ages, values, before, now);
    ExpiredUntilLogin(ages, After(ages, values, before), events, resumed);
  }

  /** After a logout, whatever came before it, no visit is served until the next
      login. */
  lemma LoggedOutUntilLogin(ages: Ages, values: Values, out: int, events: seq<Event>)
    requires InOrder(events, out) && forall i | 0 <= i < |events| :: !events[i].Login?
    ensures NoneServed(ages, values, [Logout(out)] + events)
  {
    assert ([Logout(out)] + events)[1..] == events;
    ExpiredUntilLogin(ages, Next(ages, values, Logout(out)), events, out);
  }

  /** Instants of the refreshes of a run. */
  function Refreshes(verdicts: seq<(int, Verdict)>): seq<int> {
    if verdicts == [] then []
    else (if verdicts[0].1.Refresh? then [verdicts[0].0] else []) + Refreshes(verdicts[1..])
  }

  /** The earliest access that a next refresh can follow. */
  function LastLogin(values: Values, now: int): int {
    if values.authenticated && values.lastAccess.Some? then values.lastAccess.value else now
  }

  /** Refreshes are more than refreshAge apart, and as far from the last access
      before them. */
  lemma {:induction false} RefreshesAreApart(ages: Ages, values: Values, events: seq<Event>, now: int)
    requires 0 <= ages.refreshAge && InOrder(events, now) && LastLogin(values, now) <= now
    ensures var rs := Refreshes(Verdicts(ages, values, events));
            && (forall i | 0 < i < |rs| :: rs[i] - rs[i - 1] > ages.refreshAge)
            && (rs != [] ==> rs[0] - LastLogin(values, now) > ages.refreshAge)
    decreases |events|
  {
    if events == [] {
    } else {
      var values', at := Next(ages, values, events[0]), events[0].at;
      RefreshesAreApart(ages, values', events[1..], at);
      var later := Verdicts(ages, values', events[1..]);
      if events[0].Visit? {
        var verdict := Judge(ages, values, at);
        assert Verdicts(ages, values, events) == [(at, verdict)] + later;
        assert Refreshes([(at, verdict)] + later) == (if verdict.Refresh? then [at] else []) + Refreshes(later);
      } else {
        assert Verdicts(ages, values, events) == later;
      }
    }
  }

  lemma {:induction false} SpacingAddsUp(least: int, rs: seq<int>, i: nat, j: nat)
    requires forall k | 0 < k < |rs| :: rs[k] - rs[k - 1] > least
    requires i <= j < |rs|
    ensures rs[j] - rs[i] >= (j - i) * (least + 1)
    decreases j
  {
    if i == j {
    } else {
      SpacingAddsUp(least, rs, i, j - 1);
      assert rs[j] - rs[j - 1] > least;
      assert (j - i) * (least + 1) == (j - 1 - i) * (least + 1) + (least + 1);
    }
  }

  /** So a window from one refresh to another, j - i later, is longer than that
      many halves of maxAge, which bounds how many refreshes fit. */
  lemma RefreshBudget(ages: Ages, values: Values, events: seq<Event>, now: int, i: nat, j: nat)
    requires 0 <= ages.refreshAge && InOrder(events, now) && LastLogin(values, now) <= now
    requires i <= j < |Refreshes(Verdicts(ages, values, events))|
    ensures var rs := Refreshes(Verdicts(ages, values, events)); rs[j] - rs[i] >= (j - i) * (ages.refreshAge + 1)
  {
    RefreshesAreApart(ages, values, events, now);
    SpacingAddsUp(ages.refreshAge, Refreshes(Verdicts(ages, values, events)), i, j);
  }
}
