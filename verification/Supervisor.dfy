/** The dev supervisor of cmd/revelt/dev.go: one loop that builds, runs, kills and
    restarts the Go server, a goroutine per child that waits for it, and two
    watchers that ask for restarts over a bounded channel. */
module Supervisor {
  import opened Wrappers

  /** The cmd variable: nil, a command whose Start failed, or a child. */
  datatype Cmd = NoCmd | Unstarted | Started(pid: nat)

  /** Where killProcess was called from. */
  datatype Goal = ToExit | ToRestart

  datatype Pc =
    | Launch                // about to send the initial restart
    | Select
    | KillWait(goal: Goal)  // killed the child; waiting for its exit token
    | Pause                 // the child exited on its own; sleeping
    | Compile               // about to run the build
    | Building
    | Starting              // built; about to start the child
    | Returned

  datatype Watcher = FrontEnd | GoSource

  const RESTART_CAP := 2

  datatype State = State(
    pc: Pc, cmd: Cmd, ctxDone: bool,
    restart: nat,               // tokens in the restart channel
    pending: set<Watcher>,      // watchers with pendingRestart set
    running: set<nat>,          // children that have not exited
    waiting: set<nat>,          // goroutines in c.Wait()
    sending: set<nat>,          // goroutines whose Wait returned, about to send
    tokens: seq<nat>,           // processExited, a channel of capacity one
    nextPid: nat,
    now: nat,                   // counts steps
    detected: set<(Watcher, nat)>, // every change noticed, and when
    compiled: nat,              // when the last build began
    failed: bool)               // the last build or start did not succeed

  const INIT := State(Launch, NoCmd, false, 0, {}, {}, {}, {}, [], 0, 1, {}, 0, false)

  datatype Step =
    | Tick(w: Watcher, changed: bool, elapsed: bool) // elapsed: the debounce time has passed
    | CancelCtx
    | FirstRestart
    | TakeDone              // <-ctx.Done()
    | TakeExit              // <-processExited
    | TakeRestart           // <-restart
    | Reap                  // killProcess receives the token
    | WakeUp
    | BeginBuild
    | EndBuild(ok: bool)
    | Start(ok: bool)
    | Exit(pid: nat)        // a child exits on its own
    | WaitReturns(pid: nat)
    | SendToken(pid: nat)

  predicate Enabled(s: State, step: Step) {
    match step
    case Tick(_, _, _) => true
    case CancelCtx => true
    case FirstRestart => s.pc.Launch?
    case TakeDone => s.pc.Select? && s.ctxDone
    case TakeExit => s.pc.Select? && s.tokens != []
    case TakeRestart => s.pc.Select? && s.restart > 0
    case Reap => s.pc.KillWait? && s.tokens != []
    case WakeUp => s.pc.Pause?
    case BeginBuild => s.pc.Compile?
    case EndBuild(_) => s.pc.Building?
    case Start(_) => s.pc.Starting?
    case Exit(pid) => pid in s.running
    case WaitReturns(pid) => pid in s.waiting && pid !in s.running
    case SendToken(pid) => pid in s.sending && s.tokens == []
  }

  /** A non-blocking send on the restart channel. */
  function Nudge(restart: nat): nat {
    if restart < RESTART_CAP then restart + 1 else restart
  }

  /** killProcess up to its receive; without a started child there is none. */
  function Kill(s: State, goal: Goal): State {
    if s.cmd.Started? then s.(running := s.running - {s.cmd.pid}, pc := KillWait(goal))
    else Killed(s, goal)
  }

  function Killed(s: State, goal: Goal): State {
    s.(pc := if goal.ToExit? then Returned else Compile)
  }

  function Effect(s: State, step: Step): State
    requires Enabled(s, step)
  {
    match step
    case Tick(w, changed, elapsed) =>
      var due := (changed || w in s.pending) && elapsed;
      s.(detected := if changed then s.detected + {(w, s.now)} else s.detected,
         restart := if due then Nudge(s.restart) else s.restart,
         pending := if due then s.pending - {w} else if changed then s.pending + {w} else s.pending)
    case CancelCtx => s.(ctxDone := true)
    case FirstRestart => s.(restart := Nudge(s.restart), pc := Select)
    case TakeDone => Kill(s, ToExit)
    case TakeExit => s.(tokens := s.tokens[1..], cmd := NoCmd, pc := if s.ctxDone then Select else Pause)
    case TakeRestart => Kill(s.(restart := s.restart - 1), ToRestart)
    case Reap => Killed(s.(tokens := s.tokens[1..], cmd := NoCmd), s.pc.goal)
    case WakeUp => s.(restart := Nudge(s.restart), pc := Select)
    case BeginBuild => s.(pc := Building, compiled := s.now)
    case EndBuild(ok) => s.(pc := if ok then Starting else Select, failed := !ok)
    case Start(ok) =>
      if ok then
        s.(cmd := Started(s.nextPid), running := s.running + {s.nextPid}, waiting := s.waiting + {s.nextPid},
           nextPid := s.nextPid + 1, pc := Select, failed := false)
      else s.(cmd := Unstarted, pc := Select, failed := true)
    case Exit(pid) => s.(running := s.running - {pid})
    case WaitReturns(pid) => s.(waiting := s.waiting - {pid}, sending := s.sending + {pid})
    case SendToken(pid) => s.(sending := s.sending - {pid}, tokens := s.tokens + [pid])
  }

  function Apply(s: State, step: Step): State
    requires Enabled(s, step)
  {
    Effect(s, step).(now := s.now + 1)
  }

  ghost predicate Reaches(s: State, steps: seq<Step>, t: State)
    decreases |steps|
  {
    if steps == [] then s == t else Enabled(s, steps[0]) && Reaches(Apply(s, steps[0]), steps[1..], t)
  }

  // ----- The invariant -----

  /** The one child there is, wherever its exit has got to. */
  ghost predicate OneChild(s: State, pid: nat) {
    && s.running <= {pid} && pid < s.nextPid
    && ((s.waiting == {pid} && s.sending == {} && s.tokens == [])
        || (s.waiting == {} && s.sending == {pid} && s.tokens == [] && s.running == {})
        || (s.waiting == {} && s.sending == {} && s.tokens == [pid] && s.running == {}))
  }

  ghost predicate NoChild(s: State) {
    s.running == {} && s.waiting == {} && s.sending == {} && s.tokens == []
  }

  ghost predicate ChildInv(s: State) {
    && (if s.cmd.Started? then OneChild(s, s.cmd.pid) else NoChild(s))
    && (s.pc.KillWait? ==> s.cmd.Started? && s.running == {})
    && (s.pc.Launch? || s.pc.Pause? || s.pc.Compile? || s.pc.Building? || s.pc.Starting? || s.pc.Returned? ==>
          !s.cmd.Started?)
  }

  /** A change noticed at time `t` is still owed a build, or has had one. */
  ghost predicate Covered(s: State, w: Watcher, t: nat) {
    || w in s.pending                                    // its debounce is pending
    || s.restart > 0                                     // a restart is asked for
    || s.pc.Compile? || s.pc == KillWait(ToRestart)      // the loop is on its way to the build
    || s.compiled > t                                    // a build began afterwards
  }

  ghost predicate ChangeInv(s: State) {
    && s.restart <= RESTART_CAP && s.compiled < s.now
    && forall d | d in s.detected :: d.1 < s.now && Covered(s, d.0, d.1)
  }

  /** If the loop idles without a child, it will be told to restart, or it has
      tried and failed, or it is to stop. */
  ghost predicate UpInv(s: State) {
    s.pc.Select? && !s.cmd.Started? ==> s.restart > 0 || s.failed || s.ctxDone
  }

  lemma KeepsChild(s: State, step: Step)
    requires ChildInv(s) && Enabled(s, step)
    ensures ChildInv(Apply(s, step))
  {}

  lemma KeepsChange(s: State, step: Step)
    requires ChangeInv(s) && Enabled(s, step)
    ensures ChangeInv(Apply(s, step))
  {
    var s' := Apply(s, step);
    forall d | d in s'.detected ensures d.1 < s'.now && Covered(s', d.0, d.1) {
      if d in s.detected {
        assert Covered(s, d.0, d.1);
      }
    }
  }

  lemma KeepsUp(s: State, step: Step)
    requires ChildInv(s) && ChangeInv(s) && UpInv(s) && Enabled(s, step)
    ensures UpInv(Apply(s, step))
  {}

  lemma {:induction false} RunKeepsInv(s: State, steps: seq<Step>, t: State)
    requires ChildInv(s) && ChangeInv(s) && UpInv(s) && Reaches(s, steps, t)
    ensures ChildInv(t) && ChangeInv(t) && UpInv(t)
    decreases |steps|
  {
    if steps == [] {
    } else {
      KeepsChild(s, steps[0]);
      KeepsChange(s, steps[0]);
      KeepsUp(s, steps[0]);
      RunKeepsInv(Apply(s, steps[0]), steps[1..], t);
    }
  }

  ghost predicate Reachable(s: State) {
    exists steps :: Reaches(INIT, steps, s)
  }

  lemma ReachableInv(s: State)
    requires Reachable(s)
    ensures ChildInv(s) && ChangeInv(s) && UpInv(s)
  {
    var steps :| Reaches(INIT, steps, s);
    RunKeepsInv(INIT, steps, s);
  }

  // ----- Safety -----

  /** Children started and not yet reaped by the loop. */
  function Unreaped(s: State): set<nat> {
    s.waiting + s.sending + set pid | pid in s.tokens
  }

  /** In every reachable state: at most one child is unreaped and it is the one
      `cmd` names, so an exit token is always its; no child runs that is not
      waited for; sending the token never blocks; and no child is left when the
      loop has returned. */
  lemma SupervisorIsSafe(s: State)
    requires Reachable(s)
    ensures Unreaped(s) == if s.cmd.Started? then {s.cmd.pid} else {}
    ensures |s.tokens| <= 1 && s.running <= s.waiting
    ensures forall pid | pid in s.sending :: Enabled(s, SendToken(pid))
    ensures s.pc.Returned? ==> s.running == {} && Unreaped(s) == {}
  {
    ReachableInv(s);
  }

  /** killProcess always has a token coming: whenever it waits, the waiter's own
      steps, two at most, put it in the channel. */
  lemma KillNeverHangs(s: State) returns (more: seq<Step>, t: State)
    requires Reachable(s) && s.pc.KillWait?
    ensures s.cmd.Started?
    ensures Reaches(s, more, t) && |more| <= 2 && Enabled(t, Reap) && t.tokens == [s.cmd.pid]
    ensures forall i | 0 <= i < |more| :: more[i] in {WaitReturns(s.cmd.pid), SendToken(s.cmd.pid)}
  {
    ReachableInv(s);
    var pid := s.cmd.pid;
    var reaping := if s.waiting == {pid} then [WaitReturns(pid)] else [];
    var mid := if s.waiting == {pid} then Apply(s, WaitReturns(pid)) else s;
    var sends := if mid.sending == {pid} then [SendToken(pid)] else [];
    t := if mid.sending == {pid} then Apply(mid, SendToken(pid)) else mid;
    more := reaping + sends;
    if reaping != [] {
      assert more[1..] == sends;
    } else {
      assert more == sends;
    }
    if sends != [] {
      assert sends[1..] == [];
    }
  }

  /** A server that exits is started again: an idle loop with no child and no
      failed attempt behind it always has a restart to take. */
  lemma NeverLeftDown(s: State)
    requires Reachable(s) && s.pc.Select? && !s.ctxDone && !s.failed
    ensures s.cmd.Started? || Enabled(s, TakeRestart)
  {
    ReachableInv(s);
  }

  // ----- No lost change -----

  /** Every change noticed stays covered, by a pending debounce, a restart asked
      for or being acted on, or a build begun after it, although the send that
      asks for the restart may be dropped. */
  lemma NoLostChange(s: State, w: Watcher, t: nat)
    requires Reachable(s) && (w, t) in s.detected
    ensures Covered(s, w, t)
  {
    ReachableInv(s);
  }

  /** The clock counts steps. */
  lemma {:induction false} ClockCounts(s: State, steps: seq<Step>, t: State)
    requires Reaches(s, steps, t)
    ensures t.now == s.now + |steps|
    decreases |steps|
  {
    if steps == [] {
    } else {
      ClockCounts(Apply(s, steps[0]), steps[1..], t);
    }
  }

  /** What a watcher has noticed is what its ticks found changed, and when. */
  lemma {:induction false} DetectionsAreTicks(s: State, steps: seq<Step>, t: State, w: Watcher, i: nat)
    requires Reaches(s, steps, t) && i < |steps| && (w, s.now + i) !in s.detected
    ensures (w, s.now + i) in t.detected <==> steps[i].Tick? && steps[i].w == w && steps[i].changed
    decreases |steps|
  {
    var s' := Apply(s, steps[0]);
    if i > 0 {
      DetectionsAreTicks(s', steps[1..], t, w, i - 1);
    } else {
      NothingOlder(s', steps[1..], t, w, s.now);
    }
  }

  lemma {:induction false} NothingOlder(s: State, steps: seq<Step>, t: State, w: Watcher, at: nat)
    requires Reaches(s, steps, t) && at < s.now
    ensures (w, at) in t.detected <==> (w, at) in s.detected
    decreases |steps|
  {
    if steps == [] {
    } else {
      NothingOlder(Apply(s, steps[0]), steps[1..], t, w, at);
    }
  }

  /** The last build began when the steps say so. */
  lemma {:induction false} BuildsAreSteps(s: State, steps: seq<Step>, t: State)
    requires Reaches(s, steps, t)
    ensures || t.compiled == s.compiled
            || (s.now <= t.compiled < s.now + |steps| && steps[t.compiled - s.now] == BeginBuild)
    ensures forall i | 0 <= i < |steps| && steps[i] == BeginBuild :: s.now + i <= t.compiled
    decreases |steps|
  {
    if steps == [] {
    } else {
      var s' := Apply(s, steps[0]);
      BuildsAreSteps(s', steps[1..], t);
    }
  }

  /** Noticed changes stay noticed. */
  lemma {:induction false} DetectionsStay(s: State, steps: seq<Step>, t: State)
    requires Reaches(s, steps, t)
    ensures s.detected <= t.detected
    decreases |steps|
  {
    if steps == [] {
    } else {
      DetectionsStay(Apply(s, steps[0]), steps[1..], t);
    }
  }

  /** Once nothing is pending or asked for and the loop is not about to build,
      the last build began after every change noticed. */
  lemma QuietMeansBuilt(s: State)
    requires Reachable(s)
    requires s.pending == {} && s.restart == 0 && !s.pc.Compile? && s.pc != KillWait(ToRestart)
    ensures forall d | d in s.detected :: d.1 < s.compiled
  {
    forall d | d in s.detected ensures d.1 < s.compiled {
      NoLostChange(s, d.0, d.1);
    }
  }

  // ----- Builds and starts, as the steps tell -----

  /** How the last attempt to build or start ended, and the last build. */
  datatype Record = Record(attempt: Option<bool>, build: Option<bool>)

  function Noted(r: Record, step: Step): Record {
    match step
    case EndBuild(ok) => Record(Some(ok), Some(ok))
    case Start(ok) => r.(attempt := Some(ok))
    case _ => r
  }

  function Recorded(r: Record, steps: seq<Step>): Record
    decreases |steps|
  {
    if steps == [] then r else Recorded(Noted(r, steps[0]), steps[1..])
  }

  /** What the record says about where the loop is. */
  ghost predicate Bears(s: State, r: Record) {
    && (s.failed <==> r.attempt == Some(false))
    && (s.pc.Starting? ==> r.build == Some(true))
  }

  lemma KeepsRecord(s: State, step: Step, r: Record)
    requires Bears(s, r) && Enabled(s, step)
    ensures Bears(Apply(s, step), Noted(r, step))
  {}

  lemma {:induction false} RunKeepsRecord(s: State, steps: seq<Step>, t: State, r: Record)
    requires Bears(s, r) && Reaches(s, steps, t)
    ensures Bears(t, Recorded(r, steps))
    decreases |steps|
  {
    if steps == [] {
    } else {
      KeepsRecord(s, steps[0], r);
      RunKeepsRecord(Apply(s, steps[0]), steps[1..], t, Noted(r, steps[0]));
    }
  }

  /** The loop idles without a server or a restart to take only if it is to stop, or
      its last attempt to build or start failed; and it starts the server only
      after a build that succeeded. */
  lemma DownOnlyAfterFailure(steps: seq<Step>, s: State)
    requires Reaches(INIT, steps, s)
    ensures s.pc.Select? && !s.cmd.Started? && s.restart == 0 && !s.ctxDone ==>
              Recorded(Record(None, None), steps).attempt == Some(false)
    ensures s.pc.Starting? ==> Recorded(Record(None, None), steps).build == Some(true)
  {
    RunKeepsRecord(INIT, steps, s, Record(None, None));
    ReachableInv(s);
  }

  // ----- Whole turns of the loop -----

  lemma OneMoreStep(s: State, steps: seq<Step>, t: State, step: Step)
    requires Reaches(s, steps, t) && Enabled(t, step)
    ensures Reaches(s, steps + [step], Apply(t, step))
  {
    assert Reaches(Apply(t, step), [step][1..], Apply(t, step));
    Append(s, steps, t, [step], Apply(t, step));
  }

  lemma {:induction false} Append(s: State, first: seq<Step>, mid: State, second: seq<Step>, t: State)
    requires Reaches(s, first, mid) && Reaches(mid, second, t)
    ensures Reaches(s, first + second, t)
    decreases |first|
  {
    if first == [] {
      assert first + second == second;
    } else {
      assert (first + second)[1..] == first[1..] + second;
      Append(Apply(s, first[0]), first[1..], mid, second, t);
    }
  }

  function Exiting(pid: nat): seq<Step> {
    [Exit(pid), WaitReturns(pid), SendToken(pid)]
  }

  const RESTARTING := [TakeExit, WakeUp, TakeRestart]
  const BUILDING := [BeginBuild, EndBuild(true), Start(true)]

  lemma ThreeSteps(s: State, a: Step, b: Step, c: Step) returns (t: State)
    requires Enabled(s, a) && Enabled(Apply(s, a), b) && Enabled(Apply(Apply(s, a), b), c)
    ensures Reaches(s, [a, b, c], t) && t == Apply(Apply(Apply(s, a), b), c)
  {
    var s1 := Apply(s, a);
    var s2 := Apply(s1, b);
    t := Apply(s2, c);
    OneMoreStep(s, [], s, a);
    OneMoreStep(s, [] + [a], s1, b);
    OneMoreStep(s, [] + [a] + [b], s2, c);
    assert [] + [a] + [b] + [c] == [a, b, c];
  }

  /** From the build on, if all goes well, a new server runs. */
  lemma BuildsAndStarts(s: State) returns (t: State)
    requires s.pc.Compile?
    ensures Reaches(s, BUILDING, t)
    ensures t.pc.Select? && t.cmd == Started(s.nextPid) && s.nextPid in t.running
  {
    t := ThreeSteps(s, BeginBuild, EndBuild(true), Start(true));
  }

  /** A server that has exited leaves its token, if only its waiter goes on. */
  lemma ExitLeavesToken(s: State) returns (t: State)
    requires Reachable(s) && s.pc.Select? && s.cmd.Started? && s.cmd.pid in s.running
    ensures Reaches(s, Exiting(s.cmd.pid), t)
    ensures t.pc.Select? && t.ctxDone == s.ctxDone && t.tokens == [s.cmd.pid]
  {
    ReachableInv(s);
    t := ThreeSteps(s, Exit(s.cmd.pid), WaitReturns(s.cmd.pid), SendToken(s.cmd.pid));
  }

  /** The token leads to a restart: the loop pauses, and asks itself. */
  lemma TokenAsksForRestart(s: State) returns (t: State)
    requires s.pc.Select? && s.tokens != [] && !s.ctxDone
    ensures Reaches(s, RESTARTING, t) && t.pc.Compile?
  {
    t := ThreeSteps(s, TakeExit, WakeUp, TakeRestart);
  }

  /** A running server that exits is rebuilt and started again, under a new pid. */
  lemma ExitedServerReturns(s: State) returns (steps: seq<Step>, t: State)
    requires Reachable(s) && s.pc.Select? && s.cmd.Started? && s.cmd.pid in s.running && !s.ctxDone
    ensures Reaches(s, steps, t) && t.pc.Select? && t.cmd.Started? && t.cmd.pid in t.running
  {
    var exited := ExitLeavesToken(s);
    var mid := TokenAsksForRestart(exited);
    t := BuildsAndStarts(mid);
    Append(s, Exiting(s.cmd.pid), exited, RESTARTING, mid);
    Append(s, Exiting(s.cmd.pid) + RESTARTING, mid, BUILDING, t);
    steps := Exiting(s.cmd.pid) + RESTARTING + BUILDING;
  }

  // ----- Restarts are asked for -----

  /** A watcher's tick whose debounce has passed puts the change into the channel,
      which stays full if it was, and stops being pending. */
  lemma DebounceAsks(s: State, w: Watcher, changed: bool)
    ensures var t := Apply(s, Tick(w, changed, true));
            && w !in t.pending && t.pending == s.pending - {w}
            && (changed || w in s.pending ==> t.restart > 0)
            && (!changed && w !in s.pending ==> t.restart == s.restart)
  {}

  /** A tick that must still wait sends nothing and loses nothing. */
  lemma DebounceWaits(s: State, w: Watcher, changed: bool)
    ensures var t := Apply(s, Tick(w, changed, false));
            t.restart == s.restart && t.pending == if changed then s.pending + {w} else s.pending
  {}

  /** Asks for a restart: the first, one after each exit, one for each change whose
      debounce has passed. */
  function Asks(s: State, step: Step): nat {
    match step
    case FirstRestart => 1
    case WakeUp => 1
    case Tick(w, changed, elapsed) => if (changed || w in s.pending) && elapsed then 1 else 0
    case _ => 0
  }

  function AllAsks(s: State, steps: seq<Step>, t: State): nat
    requires Reaches(s, steps, t)
    decreases |steps|
  {
    if steps == [] then 0 else Asks(s, steps[0]) + AllAsks(Apply(s, steps[0]), steps[1..], t)
  }

  function Takes(steps: seq<Step>): nat {
    if steps == [] then 0 else (if steps[0].TakeRestart? then 1 else 0) + Takes(steps[1..])
  }

  /** No restart comes of nothing: those taken and those still in the channel are at
      most those asked for. */
  lemma {:induction false} RestartsAreAskedFor(s: State, steps: seq<Step>, t: State)
    requires Reaches(s, steps, t)
    ensures Takes(steps) + t.restart <= s.restart + AllAsks(s, steps, t)
    decreases |steps|
  {
    if steps == [] {
    } else {
      RestartsAreAskedFor(Apply(s, steps[0]), steps[1..], t);
    }
  }

  /** Watchers, cancellation and the child itself keep to no schedule, and each ready
      arm of the loop's select can be taken. */
  lemma OthersAreFree(s: State, w: Watcher, changed: bool, elapsed: bool)
    ensures Enabled(s, Tick(w, changed, elapsed)) && Enabled(s, CancelCtx)
    ensures forall pid | pid in s.running :: Enabled(s, Exit(pid))
    ensures forall ok :: (s.pc.Building? ==> Enabled(s, EndBuild(ok))) && (s.pc.Starting? ==> Enabled(s, Start(ok)))
    ensures s.pc.Select? ==>
              && (s.ctxDone ==> Enabled(s, TakeDone)) && (s.tokens != [] ==> Enabled(s, TakeExit))
              && (s.restart > 0 ==> Enabled(s, TakeRestart))
  {}

  // ----- Stopping -----

  /** The loop returns, and kills in order to, only when cancelled. */
  ghost predicate StopInv(s: State) {
    s.pc.Returned? || s.pc == KillWait(ToExit) ==> s.ctxDone
  }

  lemma {:induction false} RunKeepsStop(s: State, steps: seq<Step>, t: State)
    requires StopInv(s) && Reaches(s, steps, t)
    ensures StopInv(t) && (s.ctxDone ==> t.ctxDone)
    decreases |steps|
  {
    if steps == [] {
    } else {
      RunKeepsStop(Apply(s, steps[0]), steps[1..], t);
    }
  }

  lemma {:induction false} CancelledBySteps(s: State, steps: seq<Step>, t: State)
    requires Reaches(s, steps, t)
    ensures t.ctxDone <==> s.ctxDone || CancelCtx in steps
    decreases |steps|
  {
    if steps == [] {
    } else {
      CancelledBySteps(Apply(s, steps[0]), steps[1..], t);
      assert CancelCtx in steps <==> steps[0] == CancelCtx || CancelCtx in steps[1..];
    }
  }

  lemma ReturnsOnlyWhenCancelled(steps: seq<Step>, s: State)
    requires Reaches(INIT, steps, s) && s.pc.Returned?
    ensures CancelCtx in steps
  {
    RunKeepsStop(INIT, steps, s);
    CancelledBySteps(INIT, steps, s);
  }

  /** Once cancelled, an exit is no reason to wait: a loop that does not pause never
      pauses again. */
  lemma {:induction false} CancelledNeverPauses(s: State, steps: seq<Step>, t: State)
    requires Reaches(s, steps, t) && s.ctxDone && !s.pc.Pause?
    ensures t.ctxDone && !t.pc.Pause?
    decreases |steps|
  {
    if steps == [] {
    } else {
      CancelledNeverPauses(Apply(s, steps[0]), steps[1..], t);
    }
  }

  /** Its next step on the way out, once cancelled. */
  function WayOut(s: State): Step {
    match s.pc
    case Launch => FirstRestart
    case Select => TakeDone
    case KillWait(_) => Reap
    case Pause => WakeUp
    case Compile => BeginBuild
    case Building => EndBuild(false)
    case Starting => Start(false)
    case Returned => CancelCtx
  }

  lemma ReapComes(s: State) returns (more: seq<Step>, t: State)
    requires Reachable(s) && s.pc.KillWait?
    ensures Reaches(s, more, t) && t.ctxDone == s.ctxDone
    ensures t.pc == if s.pc.goal.ToExit? then Returned else Compile
  {
    var before, mid := KillNeverHangs(s);
    OnlyWaiting(s, before, mid);
    t := Apply(mid, Reap);
    OneMoreStep(s, before, mid, Reap);
    more := before + [Reap];
  }

  lemma {:induction false} OnlyWaiting(s: State, steps: seq<Step>, t: State)
    requires Reaches(s, steps, t) && forall i | 0 <= i < |steps| :: steps[i].WaitReturns? || steps[i].SendToken?
    ensures t.pc == s.pc && t.ctxDone == s.ctxDone && t.cmd == s.cmd
    decreases |steps|
  {
    if steps == [] {
    } else {
      OnlyWaiting(Apply(s, steps[0]), steps[1..], t);
    }
  }

  lemma ReachableThen(s: State, steps: seq<Step>, t: State)
    requires Reachable(s) && Reaches(s, steps, t)
    ensures Reachable(t)
  {
    var before :| Reaches(INIT, before, s);
    Append(INIT, before, s, steps, t);
  }

  /** How far the loop is from the way out. */
  function Distance(pc: Pc): nat {
    match pc
    case Returned => 0
    case KillWait(ToExit) => 1
    case Select => 2
    case Launch => 3
    case Pause => 3
    case Starting => 3
    case Building => 4
    case Compile => 5
    case KillWait(ToRestart) => 6
  }

  lemma StepOut(s: State) returns (more: seq<Step>, t: State)
    requires Reachable(s) && s.ctxDone && !s.pc.Returned?
    ensures Reaches(s, more, t) && t.ctxDone && Distance(t.pc) < Distance(s.pc)
  {
    if s.pc.KillWait? {
      more, t := ReapComes(s);
    } else {
      t := Apply(s, WayOut(s));
      OneMoreStep(s, [], s, WayOut(s));
      more := [] + [WayOut(s)];
    }
  }

  /** Cancelled, wherever it is, the loop can return, and then no child is left. */
  lemma {:induction false} CancelledLoopReturns(s: State) returns (more: seq<Step>, t: State)
    requires Reachable(s) && s.ctxDone
    ensures Reaches(s, more, t) && t.pc.Returned? && Unreaped(t) == {} && t.running == {}
    decreases Distance(s.pc)
  {
    if s.pc.Returned? {
      more, t := [], s;
      SupervisorIsSafe(s);
    } else {
      var first, mid := StepOut(s);
      ReachableThen(s, first, mid);
      var rest;
      rest, t := CancelledLoopReturns(mid);
      Append(s, first, mid, rest, t);
      more := first + rest;
    }
  }
}
