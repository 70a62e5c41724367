/** The worker ring of pool.go: starting and closing a range of workers,
    round-robin selection, and replacement of dead workers by any number of
    goroutines at once. A worker is named by a number. */
module Pools {
  import opened Wrappers

  // ----- newPool and closeRange -----

  /** Closing worker `w` fails with a message, or does not fail. */
  type CloseEnv = nat -> Option<string>

  /** Attempts every worker in the range, in order, whatever fails, and reports
      the first failure. */
  method CloseRange(workers: seq<nat>, start: nat, end: nat, closing: CloseEnv)
    returns (firstErr: Option<string>, attempted: seq<nat>)
    requires start <= end <= |workers|
    ensures attempted == workers[start..end]
    ensures firstErr.None? <==> forall i | start <= i < end :: closing(workers[i]).None?
    ensures firstErr.Some? ==> exists i | start <= i < end ::
              closing(workers[i]) == firstErr && forall j | start <= j < i :: closing(workers[j]).None?
  {
    firstErr, attempted := None, [];
    var i := start;
    while i < end
      invariant start <= i <= end && attempted == workers[start..i]
      invariant firstErr.None? <==> forall j | start <= j < i :: closing(workers[j]).None?
      invariant firstErr.Some? ==> exists k | start <= k < i ::
                  closing(workers[k]) == firstErr && forall j | start <= j < k :: closing(workers[j]).None?
    {
      var err := closing(workers[i]);
      attempted := attempted + [workers[i]];
      if err.Some? && firstErr.None? {
        firstErr := err;
      }
      i := i + 1;
    }
  }

  /** `starting(i)` is the worker the i-th start yields, if it succeeds. On
      failure exactly the workers already started are closed, in order. */
  method NewPool(size: int, starting: nat -> Option<nat>, closing: CloseEnv)
    returns (workers: Result<seq<nat>>, started: seq<nat>, closed: seq<nat>)
    ensures workers.Ok? <==> size > 0 && forall i: nat | i < size :: starting(i).Some?
    ensures workers.Ok? ==> workers.value == started && |started| == size && closed == []
    ensures workers.Err? ==> closed == started
    ensures forall i | 0 <= i < |started| :: starting(i) == Some(started[i])
    ensures workers.Err? && size > 0 ==> |started| < size && starting(|started|).None?
  {
    started, closed := [], [];
    if size <= 0 {
      return Err("size must be > 0"), started, closed;
    }
    for i := 0 to size
      invariant |started| == i
      invariant forall j | 0 <= j < i :: starting(j) == Some(started[j])
    {
      var w := starting(i);
      if w.None? {
        var err;
        err, closed := CloseRange(started, 0, i, closing);
        return Err("starting worker failed"), started, closed;
      }
      started := started + [w.value];
    }
    workers := Ok(started);
  }

  // ----- Round robin -----

  /** How often slot `i` comes up in the `m` selections after `cursor`. */
  function Picks(cursor: nat, m: nat, i: nat, size: nat): nat
    requires size > 0
    decreases m
  {
    if m == 0 then 0
    else
      var next := (cursor + 1) % TWO_TO_64;
      (if next % size == i then 1 else 0) + Picks(next, m - 1, i, size)
  }

  /** The same, following only the slots: `r` is the slot chosen last. */
  function Turns(r: nat, m: nat, i: nat, size: nat): nat
    requires r < size
    decreases m
  {
    if m == 0 then 0
    else
      var next := if r + 1 == size then 0 else r + 1;
      (if next == i then 1 else 0) + Turns(next, m - 1, i, size)
  }

  /** In a turn of the ring or less, a slot comes up once when its turn comes. */
  lemma {:induction false} TurnOnce(r: nat, m: nat, i: nat, size: nat)
    requires r < size && i < size && m <= size
    ensures Turns(r, m, i, size) == if (if i > r then i - r else i - r + size) <= m then 1 else 0
    decreases m
  {
    if m == 0 {
    } else {
      TurnOnce(if r + 1 == size then 0 else r + 1, m - 1, i, size);
    }
  }

  lemma {:induction false} TurnsSplit(r: nat, m: nat, n: nat, i: nat, size: nat)
    requires r < size && m <= size
    ensures var r' := if r + m >= size then r + m - size else r + m;
            r' < size ==> Turns(r, m + n, i, size) == Turns(r, m, i, size) + Turns(r', n, i, size)
    decreases m
  {
    if m == 0 {
    } else {
      var next := if r + 1 == size then 0 else r + 1;
      TurnsSplit(next, m - 1, n, i, size);
    }
  }

  /** `count` is m / size, rounded down or up: less than a whole turn off. */
  predicate Fair(count: nat, m: nat, size: nat) {
    m < count * size + size && count * size < m + size
  }

  lemma {:induction false} TurnsAreFair(r: nat, m: nat, i: nat, size: nat)
    requires r < size && i < size
    ensures Fair(Turns(r, m, i, size), m, size)
    decreases m
  {
    if m >= size {
      TurnOnce(r, size, i, size);
      TurnsSplit(r, size, m - size, i, size);
      TurnsAreFair(r, m - size, i, size);
      MoreTurns(Turns(r, m - size, i, size), size);
    } else {
      TurnOnce(r, m, i, size);
    }
  }

  lemma MoreTurns(count: nat, size: nat)
    ensures (count + 1) * size == count * size + size
  {}

  /** The slot after slot x % size is the next one round the ring. */
  lemma NextSlot(x: nat, size: nat)
    requires size > 0
    ensures (x + 1) % size == if x % size + 1 == size then 0 else x % size + 1
  {
    var q, r := x / size, x % size;
    if r + 1 == size {
      MoreTurns(q, size);
      ModIs(x + 1, q + 1, 0, size);
    } else {
      ModIs(x + 1, q, r + 1, size);
    }
  }

  lemma ModIs(x: nat, q: nat, r: nat, size: nat)
    requires r < size && x == q * size + r
    ensures x % size == r
  {
    var d := x / size - q;
    assert d * size == r - x % size;
    WholeTurns(d, size);
  }

  lemma WholeTurns(d: int, size: nat)
    ensures d >= 1 ==> d * size >= size
    ensures d <= -1 ==> d * size + size <= 0
  {}

  lemma NextPick(cursor: nat, size: nat)
    requires 0 < size && cursor < TWO_TO_64
    requires cursor + 1 < TWO_TO_64 || TWO_TO_64 % size == 0
    ensures (cursor + 1) % TWO_TO_64 % size == if cursor % size + 1 == size then 0 else cursor % size + 1
  {
    NextSlot(cursor, size);
    if cursor + 1 < TWO_TO_64 {
      assert (cursor + 1) % TWO_TO_64 == cursor + 1;
    } else {
      assert (cursor + 1) % TWO_TO_64 == 0 && 0 % size == 0;
    }
  }

  /** Selections follow the ring, except where the cursor wraps; there too, if
      the size divides 2^64. */
  lemma {:induction false} PicksAreTurns(cursor: nat, m: nat, i: nat, size: nat)
    requires 0 < size && cursor < TWO_TO_64
    requires cursor + m < TWO_TO_64 || TWO_TO_64 % size == 0
    ensures Picks(cursor, m, i, size) == Turns(cursor % size, m, i, size)
    decreases m
  {
    if m == 0 {
    } else {
      NextPick(cursor, size);
      PicksAreTurns((cursor + 1) % TWO_TO_64, m - 1, i, size);
    }
  }

  lemma PicksAreFair(cursor: nat, m: nat, i: nat, size: nat)
    requires i < size && cursor < TWO_TO_64
    requires cursor + m < TWO_TO_64 || TWO_TO_64 % size == 0
    ensures Fair(Picks(cursor, m, i, size), m, size)
  {
    PicksAreTurns(cursor, m, i, size);
    TurnsAreFair(cursor % size, m, i, size);
  }

  /** Balance: before the cursor wraps, whatever its value, every window of `m`
      selections gives each slot its fair share. */
  lemma RoundRobinIsFair(cursor: nat, m: nat, i: nat, size: nat)
    requires i < size && cursor + m < TWO_TO_64
    ensures Fair(Picks(cursor, m, i, size), m, size)
  {
    PicksAreFair(cursor, m, i, size);
  }

  /** Across the wrap too, exactly when the size divides 2^64. */
  lemma FairAcrossWrap(size: nat)
    requires 0 < size < TWO_TO_64
    ensures (forall cursor: nat, m: nat, i: nat | cursor < TWO_TO_64 && i < size ::
               Fair(Picks(cursor, m, i, size), m, size))
            <==> TWO_TO_64 % size == 0
  {
    if TWO_TO_64 % size == 0 {
      forall cursor: nat, m: nat, i: nat | cursor < TWO_TO_64 && i < size
        ensures Fair(Picks(cursor, m, i, size), m, size)
      {
        PicksAreFair(cursor, m, i, size);
      }
    } else {
      var c, m := UnfairWindow(size);
      assert !Fair(Picks(c, m, 0, size), m, size);
    }
  }

  /** The window that ends with the wrap's first selection: slot 0 comes up at
      both its ends, fewer than a whole turn apart. */
  lemma UnfairWindow(size: nat) returns (c: nat, m: nat)
    requires 0 < size < TWO_TO_64 && TWO_TO_64 % size != 0
    ensures c < TWO_TO_64 && !Fair(Picks(c, m, 0, size), m, size)
  {
    var r := TWO_TO_64 % size;
    c, m := TWO_TO_64 - 1 - r, r + 1;
    var turns := TWO_TO_64 / size;
    assert turns * size == TWO_TO_64 - r;
    assert turns >= 1;
    MoreTurns(turns - 1, size);
    ModIs(c, turns - 1, size - 1, size);
    PicksAreTurns(c, r, 0, size);
    TurnOnce(size - 1, r, 0, size);
    OneMoreAtWrap(c, r, size);
  }

  lemma {:induction false} OneMoreAtWrap(c: nat, m: nat, size: nat)
    requires size > 0 && c + m + 1 == TWO_TO_64
    ensures Picks(c, m + 1, 0, size) == Picks(c, m, 0, size) + 1
    decreases m
  {
    if m == 0 {
      assert (c + 1) % TWO_TO_64 == 0 && 0 % size == 0;
      assert Picks(0, 0, 0, size) == 0;
    } else {
      assert (c + 1) % TWO_TO_64 == c + 1;
      OneMoreAtWrap(c + 1, m - 1, size);
    }
  }

  // ----- The cursor -----

  function Times(picks: seq<nat>, i: nat): nat {
    if picks == [] then 0 else (if picks[0] == i then 1 else 0) + Times(picks[1..], i)
  }

  /** What a cursor that starts at zero has selected. */
  ghost predicate AreSelections(picks: seq<nat>, size: nat)
    requires size > 0
  {
    forall k | 0 <= k < |picks| :: picks[k] == (k + 1) % TWO_TO_64 % size
  }

  lemma NextModulo(x: nat)
    ensures (x % TWO_TO_64 + 1) % TWO_TO_64 == (x + 1) % TWO_TO_64
  {}

  lemma {:induction false} TimesArePicks(picks: seq<nat>, from: nat, to: nat, i: nat, size: nat)
    requires size > 0 && AreSelections(picks, size) && from <= to <= |picks|
    ensures Times(picks[from..to], i) == Picks(from % TWO_TO_64, to - from, i, size)
    decreases |picks| - from
  {
    if from == to {
    } else {
      NextModulo(from);
      assert picks[from..to][1..] == picks[from + 1..to];
      TimesArePicks(picks, from + 1, to, i, size);
    }
  }

  /** Every stretch of the selections is fair to every slot, as long as the cursor
      has not wrapped, or if the size divides 2^64. */
  lemma SelectionsAreFair(picks: seq<nat>, from: nat, to: nat, i: nat, size: nat)
    requires i < size && AreSelections(picks, size) && from <= to <= |picks|
    requires to < TWO_TO_64 || TWO_TO_64 % size == 0
    ensures Fair(Times(picks[from..to], i), to - from, size)
  {
    TimesArePicks(picks, from, to, i, size);
    assert from < TWO_TO_64 ==> from % TWO_TO_64 == from;
    PicksAreFair(from % TWO_TO_64, to - from, i, size);
  }

  /** The pool's cursor; its additions are atomic, so selections follow one
      another. `picks` are the slots selected so far. */
  class Cursor {
    var cursor: nat
    const size: nat
    ghost var picks: seq<nat>

    ghost predicate Valid()
      reads this
    {
      size > 0 && cursor == |picks| % TWO_TO_64 && AreSelections(picks, size)
    }

    constructor (size: nat)
      requires size > 0
      ensures Valid() && this.size == size && picks == []
    {
      this.size, cursor, picks := size, 0, [];
    }

    /** Whatever stretch of selections ends with this one, each slot has had its
        fair share of it. */
    method Next() returns (idx: nat)
      requires Valid()
      modifies this
      ensures Valid() && idx < size && picks == old(picks) + [idx]
      ensures |picks| < TWO_TO_64 || TWO_TO_64 % size == 0 ==>
                forall from: nat, i: nat | from <= |picks| && i < size ::
                  Fair(Times(picks[from..], i), |picks| - from, size)
    {
      NextModulo(|picks|);
      cursor := (cursor + 1) % TWO_TO_64;
      idx := cursor % size;
      picks := picks + [idx];
      if |picks| < TWO_TO_64 || TWO_TO_64 % size == 0 {
        forall from: nat, i: nat | from <= |picks| && i < size
          ensures Fair(Times(picks[from..], i), |picks| - from, size)
        {
          assert picks[from..] == picks[from..|picks|];
          SelectionsAreFair(picks, from, |picks|, i, size);
        }
      }
    }
  }
}
