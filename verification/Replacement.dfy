/** workerAt of pool.go under any interleaving: double-checked replacement of
    dead workers. Workers are numbered in the order they are spawned. */
module Replacement {
  import opened Wrappers

  /** Where a goroutine stands in workerAt(idx). */
  datatype Pc =
    | Start                 // about to read the slot
    | Read(w: nat)          // holds what the slot held; about to ask whether it is alive
    | WantLock              // found it dead
    | Locked                // holds the write lock; about to check again
    | Spawning              // the slot's worker is dead; newWorker is running
    | Storing(w: nat)       // newWorker returned w
    | Returned(w: nat)
    | Failed

  datatype Caller = Caller(idx: nat, pc: Pc)

  datatype Swap = Swap(out: nat, into: nat)

  datatype State = State(
    slots: seq<nat>, dead: set<nat>, spawned: nat, lock: Option<nat>, callers: seq<Caller>, swaps: seq<Swap>)

  datatype Step =
    | Call(idx: nat)
    | ReadSlot(g: nat)
    | CheckAlive(g: nat)
    | Acquire(g: nat)
    | Recheck(g: nat)
    | Spawn(g: nat)
    | FailSpawn(g: nat)
    | Store(g: nat)
    | Die(w: nat)           // a worker's reader exits

  function Init(size: nat): State {
    State(seq(size, i => i), {}, size, None, [], [])
  }

  predicate At(s: State, g: nat, pc: Pc) {
    g < |s.callers| && s.callers[g].pc == pc
  }

  predicate Enabled(s: State, step: Step) {
    match step
    case Call(idx) => idx < |s.slots|
    case ReadSlot(g) => At(s, g, Start) && s.lock.None? && s.callers[g].idx < |s.slots|
    case CheckAlive(g) => g < |s.callers| && s.callers[g].pc.Read?
    case Acquire(g) => At(s, g, WantLock) && s.lock.None?
    case Recheck(g) => At(s, g, Locked) && s.callers[g].idx < |s.slots|
    case Spawn(g) => At(s, g, Spawning)
    case FailSpawn(g) => At(s, g, Spawning)
    case Store(g) => g < |s.callers| && s.callers[g].pc.Storing? && s.callers[g].idx < |s.slots|
    case Die(w) => w < s.spawned
  }

  function Goto(s: State, g: nat, pc: Pc): State
    requires g < |s.callers|
  {
    s.(callers := s.callers[g := s.callers[g].(pc := pc)])
  }

  function Apply(s: State, step: Step): State
    requires Enabled(s, step)
  {
    match step
    case Call(idx) => s.(callers := s.callers + [Caller(idx, Start)])
    case ReadSlot(g) => Goto(s, g, Read(s.slots[s.callers[g].idx]))
    case CheckAlive(g) =>
      var w := s.callers[g].pc.w;
      Goto(s, g, if w in s.dead then WantLock else Returned(w))
    case Acquire(g) => Goto(s, g, Locked).(lock := Some(g))
    case Recheck(g) =>
      var w := s.slots[s.callers[g].idx];
      if w in s.dead then Goto(s, g, Spawning) else Goto(s, g, Returned(w)).(lock := None)
    case Spawn(g) => Goto(s, g, Storing(s.spawned)).(spawned := s.spawned + 1)
    case FailSpawn(g) => Goto(s, g, Failed).(lock := None)
    case Store(g) =>
      var idx, w := s.callers[g].idx, s.callers[g].pc.w;
      Goto(s, g, Returned(w)).(lock := None, slots := s.slots[idx := w], swaps := s.swaps + [Swap(s.slots[idx], w)])
    case Die(w) => s.(dead := s.dead + {w})
  }

  ghost predicate Reaches(s: State, steps: seq<Step>, t: State)
    decreases |steps|
  {
    if steps == [] then s == t else Enabled(s, steps[0]) && Reaches(Apply(s, steps[0]), steps[1..], t)
  }

  // ----- The invariant -----

  predicate HoldsLock(pc: Pc) {
    pc.Locked? || pc.Spawning? || pc.Storing?
  }

  /** The worker spawned but not stored yet, if any. */
  function InFlight(s: State): Option<nat> {
    if s.lock.Some? && s.lock.value < |s.callers| && s.callers[s.lock.value].pc.Storing?
    then Some(s.callers[s.lock.value].pc.w) else None
  }

  ghost predicate LockInv(s: State) {
    && (s.lock.Some? ==> s.lock.value < |s.callers| && HoldsLock(s.callers[s.lock.value].pc))
    && (forall g | 0 <= g < |s.callers| && HoldsLock(s.callers[g].pc) :: s.lock == Some(g))
    && (forall g | 0 <= g < |s.callers| :: s.callers[g].idx < |s.slots|)
  }

  /** The slot a goroutine is about to overwrite holds a dead worker. */
  ghost predicate TargetDead(s: State) {
    forall g | 0 <= g < |s.callers| && (s.callers[g].pc.Spawning? || s.callers[g].pc.Storing?) ::
      s.callers[g].idx < |s.slots| && s.slots[s.callers[g].idx] in s.dead
  }

  /** A worker in a slot, replaced, or in flight: each spawned worker is exactly
      one of these, and each is one once. */
  ghost predicate Placed(s: State) {
    && (forall i | 0 <= i < |s.slots| :: s.slots[i] < s.spawned)
    && (forall i, j | 0 <= i < j < |s.slots| :: s.slots[i] != s.slots[j])
    && (forall i, k | 0 <= i < |s.slots| && 0 <= k < |s.swaps| :: s.slots[i] != s.swaps[k].out)
    && (forall j, k | 0 <= j < k < |s.swaps| :: s.swaps[j].out != s.swaps[k].out && s.swaps[j].into != s.swaps[k].into)
    && (forall k | 0 <= k < |s.swaps| ::
          s.swaps[k].out in s.dead && s.swaps[k].out < s.spawned && s.swaps[k].into < s.spawned)
    && (InFlight(s).Some? ==>
          var w := InFlight(s).value;
          && w < s.spawned
          && (forall i | 0 <= i < |s.slots| :: s.slots[i] != w)
          && (forall k | 0 <= k < |s.swaps| :: s.swaps[k].out != w && s.swaps[k].into != w))
  }

  ghost predicate Somewhere(s: State, w: nat) {
    w in s.slots || (exists k | 0 <= k < |s.swaps| :: s.swaps[k].out == w) || InFlight(s) == Some(w)
  }

  ghost predicate Accounted(s: State) {
    forall w: nat | w < s.spawned :: Somewhere(s, w)
  }

  ghost predicate Inv(s: State, size: nat) {
    && |s.slots| == size && LockInv(s) && TargetDead(s) && Placed(s) && Accounted(s)
    && s.spawned == size + |s.swaps| + (if InFlight(s).Some? then 1 else 0)
  }

  lemma KeepsLock(s: State, size: nat, step: Step)
    requires Inv(s, size) && Enabled(s, step)
    ensures |Apply(s, step).slots| == size && LockInv(Apply(s, step))
  {}

  lemma KeepsTarget(s: State, size: nat, step: Step)
    requires Inv(s, size) && Enabled(s, step)
    ensures TargetDead(Apply(s, step))
  {}

  lemma StoreKeepsPlaced(s: State, size: nat, step: Step)
    requires Inv(s, size) && Enabled(s, step) && step.Store?
    ensures Placed(Apply(s, step))
  {
    assert InFlight(s) == Some(s.callers[step.g].pc.w);
    assert InFlight(Apply(s, step)) == None;
  }

  lemma KeepsPlaced(s: State, size: nat, step: Step)
    requires Inv(s, size) && Enabled(s, step)
    ensures Placed(Apply(s, step))
  {
    if step.Store? {
      StoreKeepsPlaced(s, size, step);
    } else {
      var s' := Apply(s, step);
      assert s'.slots == s.slots && s'.swaps == s.swaps;
      assert InFlight(s') == InFlight(s) || (step.Spawn? && InFlight(s') == Some(s.spawned));
    }
  }

  lemma KeepsAccounted(s: State, size: nat, step: Step)
    requires Inv(s, size) && Enabled(s, step)
    ensures Accounted(Apply(s, step))
  {
    var s' := Apply(s, step);
    forall w: nat | w < s'.spawned ensures Somewhere(s', w) {
      if w < s.spawned {
        assert Somewhere(s, w);
      }
      if step.Store? {
        var idx := s.callers[step.g].idx;
        if w in s.slots {
          var i :| 0 <= i < |s.slots| && s.slots[i] == w;
          assert i == idx ==> s'.swaps[|s.swaps|].out == w;
          assert i != idx ==> s'.slots[i] == w;
        } else if k :| 0 <= k < |s.swaps| && s.swaps[k].out == w {
          assert s'.swaps[k].out == w;
        } else {
          assert s'.slots[idx] == w;
        }
      }
    }
  }

  lemma KeepsCount(s: State, size: nat, step: Step)
    requires Inv(s, size) && Enabled(s, step)
    ensures var s' := Apply(s, step);
            s'.spawned == size + |s'.swaps| + (if InFlight(s').Some? then 1 else 0)
  {}

  lemma {:induction false} RunKeepsInv(s: State, size: nat, steps: seq<Step>, t: State)
    requires Inv(s, size) && Reaches(s, steps, t)
    ensures Inv(t, size)
    decreases |steps|
  {
    if steps == [] {
    } else {
      KeepsLock(s, size, steps[0]);
      KeepsTarget(s, size, steps[0]);
      KeepsPlaced(s, size, steps[0]);
      KeepsAccounted(s, size, steps[0]);
      KeepsCount(s, size, steps[0]);
      RunKeepsInv(Apply(s, steps[0]), size, steps[1..], t);
    }
  }

  /** Over all interleavings: a live worker is never overwritten, since every swap
      is of a dead one and replaces it where it stood; each dead worker is
      replaced at most once and never stands in a slot again; the workers
      spawned are the first ones, one a swap, and at most one not stored yet, and
      none of them is lost. */
  lemma ReplacementIsSafe(size: nat, steps: seq<Step>, s: State)
    requires Reaches(Init(size), steps, s)
    ensures forall g: nat | Enabled(s, Store(g)) :: s.slots[s.callers[g].idx] in s.dead
    ensures forall k | 0 <= k < |s.swaps| ::
          s.swaps[k].out in s.dead && s.swaps[k].out !in s.slots
    ensures forall j, k | 0 <= j < k < |s.swaps| :: s.swaps[j].out != s.swaps[k].out
    ensures size + |s.swaps| <= s.spawned <= size + |s.swaps| + 1
    ensures s.lock.None? ==> s.spawned == size + |s.swaps|
    ensures forall w: nat | w < s.spawned :: Somewhere(s, w)
  {
    forall w: nat | w < size ensures Somewhere(Init(size), w) {
      assert Init(size).slots[w] == w;
    }
    RunKeepsInv(Init(size), size, steps, s);
  }

  /** Only Store changes a slot, and then only the one it was called for. */
  lemma OnlyStoreOverwrites(s: State, step: Step, i: nat)
    requires Enabled(s, step) && i < |s.slots| && Apply(s, step).slots[i] != s.slots[i]
    ensures step.Store? && i == s.callers[step.g].idx
  {}

  /** A worker handed out stood in the slot asked for and was alive when checked,
      or was spawned by this very call. */
  lemma HandedOut(s: State, size: nat, step: Step, g: nat, w: nat)
    requires Inv(s, size) && Enabled(s, step) && g < |s.callers|
    requires s.callers[g].pc != Returned(w) && Apply(s, step).callers[g].pc == Returned(w)
    ensures || (step == CheckAlive(g) && s.callers[g].pc == Read(w) && w !in s.dead)
            || (step == Recheck(g) && s.slots[s.callers[g].idx] == w && w !in s.dead)
            || (step == Store(g) && s.callers[g].pc == Storing(w) && w !in s.slots
                && Apply(s, step).slots[s.callers[g].idx] == w)
  {}

  /** The dead workers are those that died. */
  lemma {:induction false} DeadAreThoseThatDied(s: State, steps: seq<Step>, t: State, w: nat)
    requires Reaches(s, steps, t)
    ensures w in t.dead <==> w in s.dead || Die(w) in steps
    decreases |steps|
  {
    if steps == [] {
    } else {
      DeadAreThoseThatDied(Apply(s, steps[0]), steps[1..], t, w);
      assert Die(w) in steps <==> steps[0] == Die(w) || Die(w) in steps[1..];
    }
  }

  /** Callers come, workers die and newWorker fails as they like. */
  lemma OthersAreFree(s: State)
    ensures forall idx | 0 <= idx < |s.slots| :: Enabled(s, Call(idx))
    ensures forall w | 0 <= w < s.spawned :: Enabled(s, Die(w))
    ensures forall g | 0 <= g < |s.callers| && s.callers[g].pc.Spawning? ::
              Enabled(s, Spawn(g)) && Enabled(s, FailSpawn(g))
  {}

  /** While one caller holds the write lock, another can do no more than look at a
      worker it has read before. */
  lemma LockExcludes(s: State, h: nat, step: Step)
    requires LockInv(s) && s.lock == Some(h) && Enabled(s, step) && Mover(step).Some? && Mover(step) != Some(h)
    ensures step.CheckAlive? && Apply(s, step).slots == s.slots && Apply(s, step).lock == s.lock
  {}

  // ----- Every caller is served -----

  predicate Ended(pc: Pc) {
    pc.Returned? || pc.Failed?
  }

  /** The goroutine that takes a step inside workerAt. */
  function Mover(step: Step): Option<nat> {
    match step
    case Call(_) => None
    case Die(_) => None
    case ReadSlot(g) => Some(g)
    case CheckAlive(g) => Some(g)
    case Acquire(g) => Some(g)
    case Recheck(g) => Some(g)
    case Spawn(g) => Some(g)
    case FailSpawn(g) => Some(g)
    case Store(g) => Some(g)
  }

  /** A caller fails only if newWorker failed for it. */
  lemma {:induction false} FailsOnlyIfSpawnFails(s: State, steps: seq<Step>, t: State, g: nat)
    requires Reaches(s, steps, t) && At(t, g, Failed) && !At(s, g, Failed)
    ensures FailSpawn(g) in steps
    decreases |steps|
  {
    if steps == [] {
      assert false;
    } else if !At(Apply(s, steps[0]), g, Failed) {
      FailsOnlyIfSpawnFails(Apply(s, steps[0]), steps[1..], t, g);
    }
  }

  /** Unless it has returned, a caller can go on, or waits for one that can, with no
      failure of newWorker. */
  lemma SomeoneCanGo(s: State, g: nat) returns (step: Step)
    requires LockInv(s) && g < |s.callers| && !Ended(s.callers[g].pc)
    ensures Enabled(s, step) && Mover(step).Some? && !step.FailSpawn?
    ensures Mover(step) == Some(g) || s.lock == Mover(step)
  {
    var h := if s.lock.Some? && !s.callers[g].pc.Read? then s.lock.value else g;
    match s.callers[h].pc
    case Start => step := ReadSlot(h);
    case Read(_) => step := CheckAlive(h);
    case WantLock => step := Acquire(h);
    case Locked => step := Recheck(h);
    case Spawning => step := Spawn(h);
    case Storing(_) => step := Store(h);
  }

  function PcWeight(pc: Pc): nat {
    match pc
    case Start => 6
    case Read(_) => 5
    case WantLock => 4
    case Locked => 3
    case Spawning => 2
    case Storing(_) => 1
    case Returned(_) => 0
    case Failed => 0
  }

  function Weight(callers: seq<Caller>): nat {
    if callers == [] then 0 else PcWeight(callers[0].pc) + Weight(callers[1..])
  }

  lemma {:induction false} GotoWeight(callers: seq<Caller>, g: nat, pc: Pc)
    requires g < |callers|
    ensures Weight(callers[g := callers[g].(pc := pc)]) == Weight(callers) - PcWeight(callers[g].pc) + PcWeight(pc)
  {
    var callers' := callers[g := callers[g].(pc := pc)];
    if g == 0 {
      assert callers'[1..] == callers[1..];
    } else {
      assert callers'[1..] == callers[1..][g - 1 := callers[g].(pc := pc)];
      GotoWeight(callers[1..], g - 1, pc);
    }
  }

  lemma MovesLower(s: State, step: Step)
    requires Enabled(s, step) && !step.Call?
    ensures if Mover(step).Some? then Weight(Apply(s, step).callers) < Weight(s.callers)
            else Weight(Apply(s, step).callers) == Weight(s.callers)
  {
    if Mover(step).Some? {
      var g := Mover(step).value;
      var pc := Apply(s, step).callers[g].pc;
      assert Apply(s, step).callers == s.callers[g := s.callers[g].(pc := pc)];
      GotoWeight(s.callers, g, pc);
    }
  }

  function MovesOf(steps: seq<Step>): (n: nat)
    ensures n <= |steps|
  {
    if steps == [] then 0 else (if Mover(steps[0]).Some? then 1 else 0) + MovesOf(steps[1..])
  }

  lemma {:induction false} FewMoves(s: State, steps: seq<Step>, t: State)
    requires Reaches(s, steps, t) && forall i | 0 <= i < |steps| :: !steps[i].Call?
    ensures MovesOf(steps) + Weight(t.callers) <= Weight(s.callers)
    decreases |steps|
  {
    if steps == [] {
    } else {
      assert !steps[0].Call?;
      MovesLower(s, steps[0]);
      FewMoves(Apply(s, steps[0]), steps[1..], t);
    }
  }

  /** Without new calls the callers take a bounded number of steps, however many
      workers die; and when none of them can go on, each has a worker, or was
      failed by newWorker. */
  lemma EveryCallerIsServed(size: nat, before: seq<Step>, s: State, steps: seq<Step>, t: State)
    requires Reaches(Init(size), before, s) && Reaches(s, steps, t)
    requires forall i | 0 <= i < |steps| :: !steps[i].Call?
    ensures MovesOf(steps) <= Weight(s.callers)
    ensures (forall step | Mover(step).Some? && !step.FailSpawn? :: !Enabled(t, step)) ==>
              forall g: nat | g < |t.callers| ::
                t.callers[g].pc.Returned? || (t.callers[g].pc.Failed? && FailSpawn(g) in before + steps)
  {
    FewMoves(s, steps, t);
    Append(Init(size), before, s, steps, t);
    InitIsSound(size);
    RunKeepsInv(Init(size), size, before + steps, t);
    if forall step | Mover(step).Some? && !step.FailSpawn? :: !Enabled(t, step) {
      forall g: nat | g < |t.callers|
        ensures t.callers[g].pc.Returned? || (t.callers[g].pc.Failed? && FailSpawn(g) in before + steps)
      {
        if !Ended(t.callers[g].pc) {
          var step := SomeoneCanGo(t, g);
          assert false;
        } else if t.callers[g].pc.Failed? {
          FailsOnlyIfSpawnFails(Init(size), before + steps, t, g);
        }
      }
    }
  }

  lemma InitIsSound(size: nat)
    ensures Inv(Init(size), size)
  {
    forall w: nat | w < size ensures Somewhere(Init(size), w) {
      assert Init(size).slots[w] == w;
    }
  }

  lemma {:induction false} Append(s: State, first: seq<Step>, mid: State, second: seq<Step>, t: State)
    requires Reaches(s, first, mid) && Reaches(mid, second, t)
    ensures Reaches(s, first + second, t)
    decreases |first|
  {
    if first == [] {
      assert first + second == second;
    } else {
      assert (first + second)[1..] == first[1..] + second;
      Append(Apply(s, first[0]), first[1..], mid, second, t);
    }
  }

  // ----- One caller on its own -----

  lemma ThreeSteps(s: State, a: Step, b: Step, c: Step) returns (t: State)
    requires Enabled(s, a) && Enabled(Apply(s, a), b) && Enabled(Apply(Apply(s, a), b), c)
    ensures Reaches(s, [a, b, c], t) && t == Apply(Apply(Apply(s, a), b), c)
  {
    var s1 := Apply(s, a);
    var s2 := Apply(s1, b);
    t := Apply(s2, c);
    assert [a, b, c][1..] == [b, c] && [b, c][1..] == [c] && [c][1..] == [];
    assert Reaches(t, [], t);
    assert Reaches(s2, [c], t);
    assert Reaches(s1, [b, c], t);
  }

  /** Undisturbed, a caller finds a live worker at once. */
  lemma LiveIsHandedOut(s: State, idx: nat) returns (t: State)
    requires idx < |s.slots| && s.lock.None? && s.slots[idx] !in s.dead
    ensures Reaches(s, [Call(idx), ReadSlot(|s.callers|), CheckAlive(|s.callers|)], t)
    ensures At(t, |s.callers|, Returned(s.slots[idx])) && t.slots == s.slots
  {
    t := ThreeSteps(s, Call(idx), ReadSlot(|s.callers|), CheckAlive(|s.callers|));
  }

  lemma DeadIsFound(s: State, idx: nat) returns (t: State)
    requires idx < |s.slots| && s.lock.None? && s.slots[idx] in s.dead
    ensures Reaches(s, [Call(idx), ReadSlot(|s.callers|), CheckAlive(|s.callers|)], t)
    ensures t == s.(callers := s.callers + [Caller(idx, WantLock)])
  {
    t := ThreeSteps(s, Call(idx), ReadSlot(|s.callers|), CheckAlive(|s.callers|));
  }

  lemma DeadIsSwapped(s: State, g: nat) returns (steps: seq<Step>, t: State)
    requires At(s, g, WantLock) && s.lock.None? && s.callers[g].idx < |s.slots| && s.slots[s.callers[g].idx] in s.dead
    ensures Reaches(s, steps, t) && At(t, g, Returned(s.spawned))
    ensures t.slots == s.slots[s.callers[g].idx := s.spawned] && t.dead == s.dead && t.lock.None?
  {
    var mid := ThreeSteps(s, Acquire(g), Recheck(g), Spawn(g));
    t := Apply(mid, Store(g));
    assert Reaches(t, [Store(g)][1..], t);
    Append(s, [Acquire(g), Recheck(g), Spawn(g)], mid, [Store(g)], t);
    steps := [Acquire(g), Recheck(g), Spawn(g)] + [Store(g)];
  }

  /** Undisturbed, and if newWorker succeeds, a caller that finds a dead worker puts a
      new one in its place and gets it. */
  lemma DeadIsReplaced(s: State, idx: nat) returns (steps: seq<Step>, t: State)
    requires idx < |s.slots| && s.lock.None? && s.slots[idx] in s.dead
    ensures Reaches(s, steps, t) && At(t, |s.callers|, Returned(s.spawned)) && t.slots == s.slots[idx := s.spawned]
  {
    var mid := DeadIsFound(s, idx);
    var rest;
    rest, t := DeadIsSwapped(mid, |s.callers|);
    Append(s, [Call(idx), ReadSlot(|s.callers|), CheckAlive(|s.callers|)], mid, rest, t);
    steps := [Call(idx), ReadSlot(|s.callers|), CheckAlive(|s.callers|)] + rest;
  }
}
