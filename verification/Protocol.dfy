/** The multiplexing protocol of worker.go as an interleaving of its atomic
    steps: any number of callers, the reader goroutine, and the Node peer. */
module Protocol {
  import opened Wrappers
  import opened Wire
  import Markup
  import Mux

  type Message = Mux.Message

  /** Where a caller stands in worker.render, and with what it leaves. */
  datatype Pc = Numbered | Registered | Waiting | Leaving(out: Outcome<Message>) | Returned(out: Outcome<Message>)

  datatype Call = Call(id: nat, req: Request, pc: Pc)

  /** A request on Node's stdin; `call` says whose it is. */
  datatype Sent = Sent(id: nat, req: Request, call: nat)

  /** A line on Node's stdout: one that decodes, or one that does not. */
  datatype Line = Decodes(m: Message) | Garbage

  datatype Reader = Reading | Found(m: Message) | Sending(m: Message, call: nat) | Draining(m: Message) | Drained | Done

  datatype State = State(
    mux: Mux.State, calls: seq<Call>, stdin: seq<Sent>, stdout: seq<Line>, reader: Reader, broken: bool)

  const INIT := State(Mux.State(0, map[], []), [], [], [], Reading, false)

  datatype Step =
    | Begin(req: Request)                    // nextID.Add, make(chan)
    | Register(call: nat)                    // pending[req.ID] = call
    | Write(call: nat)                       // the line reaches stdin
    | FailEncode(call: nat)                  // json.Marshal fails; nothing is written
    | FailWrite(call: nat, whole: bool)      // stdin.Write fails; if whole, at the newline alone
    | Answer(sent: nat, wireId: nat, known: bool, rendering: Rendering) // Node answers a request, again or late
    | AnswerGarbled(message: string)         // Node answers a line it cannot parse, under id 0
    | Stray(resp: Response)                  // a printed line that decodes, under no ID
    | Noise                                  // a line that does not decode
    | ReadLine                               // ReadBytes and Unmarshal
    | LookUp                                 // dispatch, under the lock
    | Send                                   // dispatch, after the lock is released
    | StopReading(failure: Option<string>)   // ReadBytes fails; drainPending takes the lock
    | DrainOne(id: nat)                      // one turn of the drain loop
    | EndDrain                               // the lock is released
    | CloseDone                              // close(w.done)
    | Receive(call: nat)                     // <-call.resp
    | SeeDone(call: nat)                     // <-w.done
    | Cancel(call: nat)                      // <-ctx.Done()
    | Deregister(call: nat)                  // the deferred delete, and the return

  /** drainPending holds the lock throughout; everyone else only for one step. */
  predicate LockFree(s: State) {
    !s.reader.Draining?
  }

  predicate At(s: State, call: nat, pc: Pc) {
    call < |s.calls| && s.calls[call].pc == pc
  }

  const TWO_TO_53 := 0x20_0000_0000_0000

  /** IDs pass through JavaScript numbers (section 6 of RFC 8259): exact up to
      2^53, then only even ones, ties going to multiples of four. Beyond 2^54 the
      model allows any. */
  predicate Echoes(id: nat, wireId: nat) {
    && (id <= TWO_TO_53 ==> wireId == id)
    && (TWO_TO_53 < id < 2 * TWO_TO_53 ==>
          wireId == if id % 2 == 0 then id else if id % 4 == 1 then id - 1 else id + 1)
  }

  predicate Enabled(s: State, step: Step) {
    match step
    case Begin(_) => true
    case Register(c) => At(s, c, Numbered) && LockFree(s)
    case Write(c) => At(s, c, Registered) && !s.broken
    case FailEncode(c) => At(s, c, Registered)
    case FailWrite(c, whole) => At(s, c, Registered) && (whole ==> !s.broken)
    case Answer(k, wireId, _, _) => k < |s.stdin| && Echoes(s.stdin[k].id, wireId)
    case AnswerGarbled(_) => true
    case Stray(resp) => resp.id == 0
    case Noise => true
    case ReadLine => s.reader.Reading? && s.stdout != []
    case LookUp => s.reader.Found?
    case Send => s.reader.Sending? && s.reader.call < |s.mux.chans|
    case StopReading(_) => s.reader.Reading?
    case DrainOne(id) => s.reader.Draining? && id in s.mux.pending && s.mux.pending[id] < |s.mux.chans|
    case EndDrain => s.reader.Draining? && s.mux.pending == map[]
    case CloseDone => s.reader.Drained?
    case Receive(c) => At(s, c, Waiting) && c < |s.mux.chans| && |s.mux.chans[c]| > 0
    case SeeDone(c) => At(s, c, Waiting) && s.reader.Done?
    case Cancel(c) => At(s, c, Waiting)
    case Deregister(c) => c < |s.calls| && s.calls[c].pc.Leaving? && LockFree(s)
  }

  function Goto(s: State, c: nat, pc: Pc): State
    requires c < |s.calls|
  {
    s.(calls := s.calls[c := s.calls[c].(pc := pc)])
  }

  function Emit(s: State, line: Line): State {
    s.(stdout := s.stdout + [line])
  }

  function Apply(s: State, step: Step): State
    requires Enabled(s, step)
  {
    match step
    case Begin(req) =>
      var mux := Mux.NewCall(s.mux);
      s.(mux := mux, calls := s.calls + [Call(mux.nextID, req, Numbered)])
    case Register(c) => Goto(s, c, Registered).(mux := Mux.Register(s.mux, s.calls[c].id, c))
    case Write(c) => Goto(s, c, Waiting).(stdin := s.stdin + [Sent(s.calls[c].id, s.calls[c].req, c)])
    case FailEncode(c) => Goto(s, c, Leaving(WriteFailed))
    case FailWrite(c, whole) =>
      // Node takes an unended last line for a line when stdin ends
      Goto(s, c, Leaving(WriteFailed)).(
        broken := true, stdin := if whole then s.stdin + [Sent(s.calls[c].id, s.calls[c].req, c)] else s.stdin)
    case Answer(k, wireId, known, rendering) =>
      var resp := HandleRequest(wireId, s.stdin[k].req, known, rendering);
      Emit(s, Decodes(Mux.Message(resp, Mux.AnswerTo(s.stdin[k].call))))
    case AnswerGarbled(message) =>
      Emit(s, Decodes(Mux.Message(Failed(0, "JSON parse error: " + message), Mux.NoCall)))
    case Stray(resp) => Emit(s, Decodes(Mux.Message(resp, Mux.NoCall)))
    case Noise => Emit(s, Garbage)
    case ReadLine =>
      s.(stdout := s.stdout[1..], reader := if s.stdout[0].Decodes? then Found(s.stdout[0].m) else Reading)
    case LookUp =>
      var id := s.reader.m.resp.id;
      s.(reader := if id in s.mux.pending then Sending(s.reader.m, s.mux.pending[id]) else Reading)
    case Send => s.(mux := Mux.Send(s.mux, s.reader.call, s.reader.m), reader := Reading)
    case StopReading(failure) => s.(reader := Draining(Mux.DrainMessage(failure)))
    case DrainOne(id) =>
      s.(mux := Mux.Deregister(Mux.Send(s.mux, s.mux.pending[id], s.reader.m), id))
    case EndDrain => s.(reader := Drained)
    case CloseDone => s.(reader := Done)
    case Receive(c) => Goto(s, c, Leaving(Replied(s.mux.chans[c][0]))).(mux := Mux.Receive(s.mux, c))
    case SeeDone(c) => Goto(s, c, Leaving(Exited))
    case Cancel(c) => Goto(s, c, Leaving(Cancelled))
    case Deregister(c) => Goto(s, c, Returned(s.calls[c].pc.out)).(mux := Mux.Deregister(s.mux, s.calls[c].id))
  }

  ghost predicate Reaches(s: State, steps: seq<Step>, t: State)
    decreases |steps|
  {
    if steps == [] then s == t else Enabled(s, steps[0]) && Reaches(Apply(s, steps[0]), steps[1..], t)
  }

  /** What Renderer.Render gives the caller. */
  function RenderResult(out: Outcome<Message>): Result<string> {
    Finish(match out
           case Replied(m) => Replied(m.resp)
           case WriteFailed => WriteFailed
           case Exited => Exited
           case Cancelled => Cancelled)
  }

  // ----- The invariant -----

  /** Holds while no more than 2^53 requests have been made of the worker. */
  ghost predicate Inv(s: State) {
    && |s.calls| <= TWO_TO_53
    && IdsInv(s) && PendingInv(s) && (!ReaderGone(s) ==> AllPending(s)) && StdinInv(s) && AskedInv(s)
    && StdoutInv(s) && ReaderInv(s) && ChansInv(s) && OutInv(s)
  }

  ghost predicate IdsInv(s: State) {
    && s.mux.nextID == |s.calls| == |s.mux.chans|
    && forall c | 0 <= c < |s.calls| :: s.calls[c].id == c + 1
  }

  /** Has registered and not returned. */
  predicate Inside(pc: Pc) {
    pc.Registered? || pc.Waiting? || pc.Leaving?
  }

  /** Pending IDs are those of callers that have registered and not returned:
      all of them until the drain starts, some of them from then on. */
  ghost predicate PendingInv(s: State) {
    forall id | id in s.mux.pending ::
      1 <= id <= |s.calls| && s.mux.pending[id] == id - 1 && Inside(s.calls[id - 1].pc)
  }

  ghost predicate AllPending(s: State) {
    forall c | 0 <= c < |s.calls| && Inside(s.calls[c].pc) :: s.calls[c].id in s.mux.pending
  }

  predicate ReaderGone(s: State) {
    s.reader.Draining? || s.reader.Drained? || s.reader.Done?
  }

  /** What is on stdin was sent by callers, each at most once. */
  ghost predicate StdinInv(s: State) {
    && (forall k | 0 <= k < |s.stdin| ::
          && s.stdin[k].call < |s.calls|
          && s.stdin[k] == Sent(s.stdin[k].call + 1, s.calls[s.stdin[k].call].req, s.stdin[k].call)
          && !s.calls[s.stdin[k].call].pc.Numbered? && !s.calls[s.stdin[k].call].pc.Registered?)
    && (forall j, k | 0 <= j < k < |s.stdin| :: s.stdin[j].call != s.stdin[k].call)
  }

  /** Whoever waits for an answer has asked. */
  ghost predicate AskedInv(s: State) {
    forall c | 0 <= c < |s.calls| && s.calls[c].pc.Waiting? :: HasAsked(s.stdin, c)
  }

  ghost predicate HasAsked(stdin: seq<Sent>, c: nat) {
    exists k | 0 <= k < |stdin| :: stdin[k].call == c
  }

  /** A message is what its origin says it is. */
  ghost predicate Honest(calls: seq<Call>, m: Message) {
    match m.origin
    case AnswerTo(c) => c < |calls| && m.resp.id == c + 1 && Answers(calls[c].req, m.resp)
    case NoCall => m.resp.id == 0
    case Drained => m.resp.error != ""
  }

  ghost predicate StdoutInv(s: State) {
    forall k | 0 <= k < |s.stdout| && s.stdout[k].Decodes? ::
      Honest(s.calls, s.stdout[k].m) && !s.stdout[k].m.origin.Drained?
  }

  ghost predicate ReaderInv(s: State) {
    match s.reader
    case Found(m) => Honest(s.calls, m) && !m.origin.Drained?
    case Sending(m, c) => c < |s.calls| && Honest(s.calls, m) && m.origin == Mux.AnswerTo(c)
    case Draining(m) => m.resp.error != "" && m.origin.Drained?
    case _ => true
  }

  /** A message for call `c`: the answer to its own request, or the drain's. */
  ghost predicate Own(calls: seq<Call>, c: nat, m: Message) {
    Honest(calls, m) && (m.origin == Mux.AnswerTo(c) || m.origin.Drained?)
  }

  ghost predicate ChansInv(s: State) {
    forall c | 0 <= c < |s.mux.chans| ::
      |s.mux.chans[c]| <= 1 && (s.mux.chans[c] != [] ==> Own(s.calls, c, s.mux.chans[c][0]))
  }

  ghost predicate OutInv(s: State) {
    forall c | 0 <= c < |s.calls| :: OutOwn(s.calls, c)
  }

  ghost predicate OutOwn(calls: seq<Call>, c: nat)
    requires c < |calls|
  {
    (calls[c].pc.Leaving? || calls[c].pc.Returned?) && calls[c].pc.out.Replied? ==>
      Own(calls, c, calls[c].pc.out.message)
  }

  /** Calls are only added, and keep their request. */
  ghost predicate Grows(calls: seq<Call>, calls': seq<Call>) {
    && |calls| <= |calls'|
    && forall c | 0 <= c < |calls| :: calls'[c].req == calls[c].req
  }

  lemma StepGrows(s: State, step: Step)
    requires Enabled(s, step)
    ensures Grows(s.calls, Apply(s, step).calls)
  {}

  /** The caller a step moves, and where to. */
  function Moves(s: State, step: Step): Option<(nat, Pc)>
    requires Enabled(s, step)
  {
    match step
    case Register(c) => Some((c, Registered))
    case Write(c) => Some((c, Waiting))
    case FailEncode(c) => Some((c, Leaving(WriteFailed)))
    case FailWrite(c, _) => Some((c, Leaving(WriteFailed)))
    case Receive(c) => Some((c, Leaving(Replied(s.mux.chans[c][0]))))
    case SeeDone(c) => Some((c, Leaving(Exited)))
    case Cancel(c) => Some((c, Leaving(Cancelled)))
    case Deregister(c) => Some((c, Returned(s.calls[c].pc.out)))
    case _ => None
  }

  lemma CallAfter(s: State, step: Step, c: nat)
    requires Enabled(s, step) && c < |s.calls|
    ensures var call, move := s.calls[c], Moves(s, step);
            Apply(s, step).calls[c] == if move.Some? && move.value.0 == c then call.(pc := move.value.1) else call
  {}

  lemma KeepsIds(s: State, step: Step)
    requires IdsInv(s) && Enabled(s, step) && |Apply(s, step).calls| <= TWO_TO_53
    ensures IdsInv(Apply(s, step))
  {}

  lemma KeepsPending(s: State, step: Step)
    requires IdsInv(s) && PendingInv(s) && Enabled(s, step) && |Apply(s, step).calls| <= TWO_TO_53
    ensures PendingInv(Apply(s, step))
  {}

  lemma KeepsAllPending(s: State, step: Step)
    requires IdsInv(s) && PendingInv(s) && (!ReaderGone(s) ==> AllPending(s))
    requires Enabled(s, step) && |Apply(s, step).calls| <= TWO_TO_53
    ensures !ReaderGone(Apply(s, step)) ==> AllPending(Apply(s, step))
  {
    var s' := Apply(s, step);
    if !ReaderGone(s') {
      forall c | 0 <= c < |s'.calls| && Inside(s'.calls[c].pc) ensures s'.calls[c].id in s'.mux.pending {
        InsideIsPending(s, step, c);
      }
    }
  }

  lemma InsideIsPending(s: State, step: Step, c: nat)
    requires IdsInv(s) && AllPending(s) && Enabled(s, step) && !ReaderGone(s) && !ReaderGone(Apply(s, step))
    requires c < |Apply(s, step).calls| && Inside(Apply(s, step).calls[c].pc)
    ensures Apply(s, step).calls[c].id in Apply(s, step).mux.pending
  {
    assert c < |s.calls|;
    CallAfter(s, step, c);
    StillPending(s, step, c);
  }

  lemma StillPending(s: State, step: Step, c: nat)
    requires IdsInv(s) && Enabled(s, step) && c < |s.calls|
    requires !ReaderGone(s) && !ReaderGone(Apply(s, step))
    requires step == Register(c) || (s.calls[c].id in s.mux.pending && step != Deregister(c))
    ensures s.calls[c].id in Apply(s, step).mux.pending
  {}

  lemma KeepsStdin(s: State, step: Step)
    requires IdsInv(s) && StdinInv(s) && Enabled(s, step) && |Apply(s, step).calls| <= TWO_TO_53
    ensures StdinInv(Apply(s, step))
  {
    StepGrows(s, step);
  }

  lemma KeepsAsked(s: State, step: Step)
    requires AskedInv(s) && Enabled(s, step) && |Apply(s, step).calls| <= TWO_TO_53
    ensures AskedInv(Apply(s, step))
  {
    var s' := Apply(s, step);
    forall c | 0 <= c < |s'.calls| && s'.calls[c].pc.Waiting? ensures HasAsked(s'.stdin, c) {
      if step == Write(c) {
        assert s'.stdin[|s.stdin|].call == c;
      } else {
        assert HasAsked(s.stdin, c);
        var k :| 0 <= k < |s.stdin| && s.stdin[k].call == c;
        assert s'.stdin[k].call == c;
      }
    }
  }

  lemma KeepsStdout(s: State, step: Step)
    requires IdsInv(s) && StdinInv(s) && StdoutInv(s) && Enabled(s, step) && |Apply(s, step).calls| <= TWO_TO_53
    ensures StdoutInv(Apply(s, step))
  {
    StepGrows(s, step);
  }

  lemma KeepsReader(s: State, step: Step)
    requires IdsInv(s) && PendingInv(s) && StdoutInv(s) && ReaderInv(s)
    requires Enabled(s, step) && |Apply(s, step).calls| <= TWO_TO_53
    ensures ReaderInv(Apply(s, step))
  {
    StepGrows(s, step);
  }

  lemma KeepsChans(s: State, step: Step)
    requires IdsInv(s) && ReaderInv(s) && ChansInv(s) && Enabled(s, step) && |Apply(s, step).calls| <= TWO_TO_53
    ensures ChansInv(Apply(s, step))
  {
    StepGrows(s, step);
  }

  lemma KeepsOut(s: State, step: Step)
    requires IdsInv(s) && ChansInv(s) && OutInv(s) && Enabled(s, step) && |Apply(s, step).calls| <= TWO_TO_53
    ensures OutInv(Apply(s, step))
  {
    StepGrows(s, step);
    var s' := Apply(s, step);
    forall c | 0 <= c < |s'.calls| ensures OutOwn(s'.calls, c) {
      if c < |s.calls| {
        assert OutOwn(s.calls, c);
        OutAfter(s, step, c);
        if (s'.calls[c].pc.Leaving? || s'.calls[c].pc.Returned?) && s'.calls[c].pc.out.Replied? {
          OwnGrows(s.calls, s'.calls, c, s'.calls[c].pc.out.message);
        }
      }
    }
  }

  lemma OwnGrows(calls: seq<Call>, calls': seq<Call>, c: nat, m: Message)
    requires Grows(calls, calls') && Own(calls, c, m)
    ensures Own(calls', c, m)
  {}

  /** A caller leaves with a reply only if it was in its channel. */
  lemma OutAfter(s: State, step: Step, c: nat)
    requires Enabled(s, step) && c < |s.calls|
    ensures var pc, pc' := s.calls[c].pc, Apply(s, step).calls[c].pc;
            (pc'.Leaving? || pc'.Returned?) && pc'.out.Replied? ==>
              if step == Receive(c) then pc'.out.message == s.mux.chans[c][0]
              else (pc.Leaving? || pc.Returned?) && pc.out == pc'.out
  {}

  lemma KeepsInv(s: State, step: Step)
    requires Inv(s) && Enabled(s, step) && |Apply(s, step).calls| <= TWO_TO_53
    ensures Inv(Apply(s, step))
  {
    KeepsIds(s, step);
    KeepsPending(s, step);
    KeepsAllPending(s, step);
    KeepsStdin(s, step);
    KeepsAsked(s, step);
    KeepsStdout(s, step);
    KeepsReader(s, step);
    KeepsChans(s, step);
    KeepsOut(s, step);
  }

  lemma {:induction false} RunGrows(s: State, steps: seq<Step>, t: State)
    requires Reaches(s, steps, t)
    ensures Grows(s.calls, t.calls)
    decreases |steps|
  {
    if steps == [] {
    } else {
      StepGrows(s, steps[0]);
      RunGrows(Apply(s, steps[0]), steps[1..], t);
    }
  }

  /** What every step keeps, every run keeps. */
  lemma {:induction false} RunKeepsInv(s: State, steps: seq<Step>, t: State)
    requires Inv(s) && Reaches(s, steps, t) && |t.calls| <= TWO_TO_53
    ensures Inv(t)
    decreases |steps|
  {
    if steps == [] {
    } else {
      RunGrows(Apply(s, steps[0]), steps[1..], t);
      KeepsInv(s, steps[0]);
      RunKeepsInv(Apply(s, steps[0]), steps[1..], t);
    }
  }

  ghost predicate Reachable(s: State) {
    exists steps :: Reaches(INIT, steps, s)
  }

  lemma ReachableInv(s: State)
    requires Reachable(s) && |s.calls| <= TWO_TO_53
    ensures Inv(s)
  {
    var steps :| Reaches(INIT, steps, s);
    RunKeepsInv(INIT, steps, s);
  }

  lemma ReachableOn(s: State, steps: seq<Step>, t: State)
    requires Reachable(s) && Reaches(s, steps, t)
    ensures Reachable(t)
  {
    var before :| Reaches(INIT, before, s);
    RunConcat(INIT, before, s, steps, t);
  }

  // ----- Correlation -----

  /** How call `c` ended, if it is about to return or has. */
  ghost predicate EndsWith(s: State, c: nat, out: Outcome<Message>) {
    c < |s.calls| && (s.calls[c].pc == Leaving(out) || s.calls[c].pc == Returned(out))
  }

  /** Over every interleaving: a success comes of a reply, the reply is Node's
      answer to this very call, and answers this call's request. */
  lemma Correlation(s: State, c: nat, out: Outcome<Message>)
    requires Reachable(s) && |s.calls| <= TWO_TO_53
    requires EndsWith(s, c, out) && RenderResult(out).Ok?
    ensures out.Replied? && out.message.origin == Mux.AnswerTo(c)
    ensures Answers(s.calls[c].req, out.message.resp) && RenderResult(out).value == out.message.resp.html
  {
    ReachableInv(s);
    assert OutOwn(s.calls, c);
  }

  /** At most once, and no leak: a channel never holds two replies, pending IDs
      belong to callers between registering and returning (and, until the drain,
      all of theirs are), and nothing is left once all have returned. */
  lemma NoLeak(s: State)
    requires Reachable(s) && |s.calls| <= TWO_TO_53
    ensures forall c | 0 <= c < |s.mux.chans| :: |s.mux.chans[c]| <= 1
    ensures forall id | id in s.mux.pending :: 1 <= id <= |s.calls| && s.calls[id - 1].id == id &&
                                               !s.calls[id - 1].pc.Numbered? && !s.calls[id - 1].pc.Returned?
    ensures !ReaderGone(s) ==> AllPending(s)
    ensures (forall c | 0 <= c < |s.calls| :: s.calls[c].pc.Returned?) ==> s.mux.pending == map[]
  {
    ReachableInv(s);
    if id :| id in s.mux.pending {
      assert !s.calls[id - 1].pc.Returned?;
    }
  }

  // ----- Delivery -----

  /** A waiting caller's request is on stdin, once, as it was made. */
  lemma RequestIsSent(s: State, c: nat) returns (k: nat)
    requires Reachable(s) && |s.calls| <= TWO_TO_53 && At(s, c, Waiting)
    ensures k < |s.stdin| && s.stdin[k] == Sent(s.calls[c].id, s.calls[c].req, c)
    ensures forall j | 0 <= j < |s.stdin| && s.stdin[j].call == c :: j == k
  {
    ReachableInv(s);
    assert HasAsked(s.stdin, c);
    k :| k < |s.stdin| && s.stdin[k].call == c;
  }

  /** No answer is lost on the way: one at the head of stdout, for a caller that
      waits with an empty channel, reaches that channel in the reader's next three
      steps, and the caller can take it. */
  lemma AnswerIsDelivered(s: State, c: nat, m: Message) returns (t: State)
    requires Reachable(s) && |s.calls| <= TWO_TO_53
    requires At(s, c, Waiting) && c < |s.mux.chans| && s.mux.chans[c] == []
    requires s.reader.Reading? && s.stdout != [] && s.stdout[0] == Decodes(m) && m.origin == Mux.AnswerTo(c)
    ensures Reaches(s, [ReadLine, LookUp, Send], t)
    ensures c < |t.mux.chans| && t.mux.chans[c] == [m] && t.calls == s.calls && Enabled(t, Receive(c))
    ensures Apply(t, Receive(c)).calls[c].pc == Leaving(Replied(m))
  {
    AnswerIsExpected(s, c, m);
    t := Deliver(s, c, m);
  }

  lemma AnswerIsExpected(s: State, c: nat, m: Message)
    requires Reachable(s) && |s.calls| <= TWO_TO_53 && At(s, c, Waiting)
    requires s.reader.Reading? && s.stdout != [] && s.stdout[0] == Decodes(m) && m.origin == Mux.AnswerTo(c)
    ensures m.resp.id in s.mux.pending && s.mux.pending[m.resp.id] == c
  {
    assert m.resp.id == c + 1 by { HeadIsNumbered(s, c, m); }
    assert c + 1 in s.mux.pending && s.mux.pending[c + 1] == c by {
      PendingPart(s);
      WaitingIsPending(s, c);
    }
  }

  lemma PendingPart(s: State)
    requires Reachable(s) && |s.calls| <= TWO_TO_53
    ensures IdsInv(s) && PendingInv(s) && (!ReaderGone(s) ==> AllPending(s))
  {
    ReachableInv(s);
  }

  lemma HeadIsNumbered(s: State, c: nat, m: Message)
    requires Reachable(s) && |s.calls| <= TWO_TO_53
    requires s.stdout != [] && s.stdout[0] == Decodes(m) && m.origin == Mux.AnswerTo(c)
    ensures m.resp.id == c + 1
  {
    ReachableInv(s);
    HeadIsHonest(s, m);
    HonestId(s.calls, m, c);
  }

  lemma HeadIsHonest(s: State, m: Message)
    requires StdoutInv(s) && s.stdout != [] && s.stdout[0] == Decodes(m)
    ensures Honest(s.calls, m)
  {}

  lemma HonestId(calls: seq<Call>, m: Message, c: nat)
    requires Honest(calls, m) && m.origin == Mux.AnswerTo(c)
    ensures m.resp.id == c + 1
  {}

  lemma WaitingIsPending(s: State, c: nat)
    requires IdsInv(s) && PendingInv(s) && AllPending(s) && At(s, c, Waiting)
    ensures c + 1 in s.mux.pending && s.mux.pending[c + 1] == c
  {
    assert s.calls[c].id in s.mux.pending;
  }

  lemma Deliver(s: State, c: nat, m: Message) returns (t: State)
    requires At(s, c, Waiting) && c < |s.mux.chans| && s.mux.chans[c] == []
    requires s.reader.Reading? && s.stdout != [] && s.stdout[0] == Decodes(m)
    requires m.resp.id in s.mux.pending && s.mux.pending[m.resp.id] == c
    ensures Reaches(s, [ReadLine, LookUp, Send], t)
    ensures c < |t.mux.chans| && t.mux.chans[c] == [m] && t.calls == s.calls && Enabled(t, Receive(c))
    ensures Apply(t, Receive(c)).calls[c].pc == Leaving(Replied(m)) && LockFree(t)
  {
    var s1 := Apply(s, ReadLine);
    var s2 := Apply(s1, LookUp);
    t := Apply(s2, Send);
    ThreeSteps(s, ReadLine, s1, LookUp, s2, Send, t);
  }

  lemma ThreeSteps(s: State, a: Step, s1: State, b: Step, s2: State, c: Step, t: State)
    requires Enabled(s, a) && s1 == Apply(s, a) && Enabled(s1, b) && s2 == Apply(s1, b)
    requires Enabled(s2, c) && t == Apply(s2, c)
    ensures Reaches(s, [a, b, c], t)
  {
    assert [a, b, c][1..] == [b, c] && [b, c][1..] == [c] && [c][1..] == [];
    assert Reaches(t, [], t);
    assert Reaches(s2, [c], t);
    assert Reaches(s1, [b, c], t);
  }

  // ----- How calls end -----

  lemma OutcomeStaysStep(s: State, step: Step, c: nat, out: Outcome<Message>)
    requires EndsWith(s, c, out) && Enabled(s, step)
    ensures EndsWith(Apply(s, step), c, out)
  {
    CallAfter(s, step, c);
  }

  /** A caller returns with what it left with: the deferred delete changes nothing. */
  lemma {:induction false} OutcomeStays(s: State, steps: seq<Step>, t: State, c: nat, out: Outcome<Message>)
    requires EndsWith(s, c, out) && Reaches(s, steps, t)
    ensures EndsWith(t, c, out)
    decreases |steps|
  {
    if steps == [] {
    } else {
      OutcomeStaysStep(s, steps[0], c, out);
      OutcomeStays(Apply(s, steps[0]), steps[1..], t, c, out);
    }
  }

  /** The step in which call `c` leaves with `out`. */
  predicate Ends(step: Step, c: nat, out: Outcome<Message>) {
    match out
    case Replied(_) => step == Receive(c)
    case WriteFailed => step == FailEncode(c) || step == FailWrite(c, true) || step == FailWrite(c, false)
    case Exited => step == SeeDone(c)
    case Cancelled => step == Cancel(c)
  }

  ghost predicate HasEnded(s: State, c: nat) {
    c < |s.calls| && (s.calls[c].pc.Leaving? || s.calls[c].pc.Returned?)
  }

  lemma EndsNow(s: State, step: Step, c: nat, out: Outcome<Message>)
    requires Enabled(s, step) && !HasEnded(s, c) && EndsWith(Apply(s, step), c, out)
    ensures Ends(step, c, out)
  {}

  /** A call ends with a reply, a write error, an exit or a cancellation only if that
      is what happened to it. */
  lemma {:induction false} OutcomeHappened(s: State, steps: seq<Step>, t: State, c: nat, out: Outcome<Message>)
    requires Reaches(s, steps, t) && !HasEnded(s, c) && EndsWith(t, c, out)
    ensures exists i :: 0 <= i < |steps| && Ends(steps[i], c, out)
    decreases |steps|
  {
    if steps == [] {
      assert false;
    } else {
      var s' := Apply(s, steps[0]);
      if HasEnded(s', c) {
        var first := s'.calls[c].pc.out;
        OutcomeStays(s', steps[1..], t, c, first);
        EndsNow(s, steps[0], c, out);
      } else {
        OutcomeHappened(s', steps[1..], t, c, out);
        var i :| 0 <= i < |steps[1..]| && Ends(steps[1..][i], c, out);
        assert steps[i + 1] == steps[1..][i];
      }
    }
  }

  /** An answer that a waiting caller takes is what it returns, however the run goes
      on, and what Renderer.Render makes of it; it is taken out of the channel. */
  lemma AnswerIsReturned(s: State, c: nat, steps: seq<Step>, t: State, out: Outcome<Message>)
    requires Enabled(s, Receive(c)) && Reaches(Apply(s, Receive(c)), steps, t)
    requires c < |t.calls| && t.calls[c].pc == Returned(out)
    ensures out == Replied(s.mux.chans[c][0])
    ensures var resp := s.mux.chans[c][0].resp;
            if resp.error == "" then RenderResult(out) == Ok(resp.html) else RenderResult(out) == Err(resp.error)
    ensures Apply(s, Receive(c)).mux.chans[c] == s.mux.chans[c][1..]
  {
    OutcomeStays(Apply(s, Receive(c)), steps, t, c, Replied(s.mux.chans[c][0]));
  }

  function Begun(steps: seq<Step>): seq<Request> {
    if steps == [] then [] else (if steps[0].Begin? then [steps[0].req] else []) + Begun(steps[1..])
  }

  function Requests(calls: seq<Call>): (reqs: seq<Request>)
    ensures |reqs| == |calls|
  {
    seq(|calls|, c requires 0 <= c < |calls| => calls[c].req)
  }

  lemma RequestsStep(s: State, step: Step)
    requires Enabled(s, step)
    ensures Requests(Apply(s, step).calls) == Requests(s.calls) + (if step.Begin? then [step.req] else [])
  {}

  /** The calls' requests are those that callers came with, in order. */
  lemma {:induction false} RequestsAreAsMade(s: State, steps: seq<Step>, t: State)
    requires Reaches(s, steps, t)
    ensures Requests(t.calls) == Requests(s.calls) + Begun(steps)
    decreases |steps|
  {
    if steps == [] {
    } else {
      var one := if steps[0].Begin? then [steps[0].req] else [];
      RequestsStep(s, steps[0]);
      RequestsAreAsMade(Apply(s, steps[0]), steps[1..], t);
      assert Begun(steps) == one + Begun(steps[1..]);
      Regroup(Requests(s.calls), one, Begun(steps[1..]));
    }
  }

  lemma Regroup(first: seq<Request>, second: seq<Request>, third: seq<Request>)
    ensures first + second + third == first + (second + third)
  {}

  /** A waiting caller can always give up, and is gone in two steps of its own. */
  lemma CancelFrees(s: State, c: nat) returns (t: State)
    requires At(s, c, Waiting) && LockFree(s)
    ensures Reaches(s, [Cancel(c), Deregister(c)], t) && At(t, c, Returned(Cancelled))
    ensures s.calls[c].id !in t.mux.pending && t.mux.chans == s.mux.chans
  {
    var mid := Apply(s, Cancel(c));
    t := Apply(mid, Deregister(c));
    assert [Cancel(c), Deregister(c)][1..] == [Deregister(c)] && [Deregister(c)][1..] == [];
    assert Reaches(t, [], t);
    assert Reaches(mid, [Deregister(c)], t);
  }

  /** Node and the callers keep to no schedule: any request on stdin can be answered
      at any time, again and in any order, with any rendering; other lines come as
      they like; callers come and give up, writes fail, and the reader stops. */
  lemma OthersAreFree(s: State)
    ensures forall k, known, rendering | 0 <= k < |s.stdin| && s.stdin[k].id <= TWO_TO_53 ::
              Enabled(s, Answer(k, s.stdin[k].id, known, rendering))
    ensures forall message :: Enabled(s, AnswerGarbled(message))
    ensures forall resp: Response | resp.id == 0 :: Enabled(s, Stray(resp))
    ensures Enabled(s, Noise) && forall req :: Enabled(s, Begin(req))
    ensures forall c | 0 <= c < |s.calls| && s.calls[c].pc.Waiting? :: Enabled(s, Cancel(c))
    ensures forall c | 0 <= c < |s.calls| && s.calls[c].pc.Registered? ::
              Enabled(s, FailEncode(c)) && Enabled(s, FailWrite(c, false))
    ensures s.reader.Reading? ==> forall failure :: Enabled(s, StopReading(failure))
    ensures forall c | 0 <= c < |s.calls| && s.calls[c].pc.Waiting? ::
              && (s.reader.Done? ==> Enabled(s, SeeDone(c)))
              && (c < |s.mux.chans| && s.mux.chans[c] != [] ==> Enabled(s, Receive(c)))
  {}

  /** Once a write has failed, nothing more reaches stdin. */
  lemma {:induction false} NothingAfterFailure(s: State, steps: seq<Step>, t: State)
    requires Reaches(s, steps, t) && s.broken
    ensures t.broken && t.stdin == s.stdin
    decreases |steps|
  {
    if steps == [] {
    } else {
      NothingAfterFailure(Apply(s, steps[0]), steps[1..], t);
    }
  }

  ghost predicate ExitedInv(s: State) {
    forall c | 0 <= c < |s.calls| && EndsWith(s, c, Exited) :: s.reader.Done?
  }

  lemma KeepsExited(s: State, step: Step)
    requires ExitedInv(s) && Enabled(s, step)
    ensures ExitedInv(Apply(s, step))
  {
    var s' := Apply(s, step);
    forall c | 0 <= c < |s'.calls| && EndsWith(s', c, Exited) ensures s'.reader.Done? {
      if c < |s.calls| {
        CallAfter(s, step, c);
        assert EndsWith(s, c, Exited) || step == SeeDone(c);
      }
    }
  }

  lemma {:induction false} RunKeepsExited(s: State, steps: seq<Step>, t: State)
    requires ExitedInv(s) && Reaches(s, steps, t)
    ensures ExitedInv(t)
    decreases |steps|
  {
    if steps == [] {
    } else {
      KeepsExited(s, steps[0]);
      RunKeepsExited(Apply(s, steps[0]), steps[1..], t);
    }
  }

  /** Nobody is told that the process exited while the reader still runs or drains. */
  lemma ExitedMeansDone(s: State, c: nat)
    requires Reachable(s) && EndsWith(s, c, Exited)
    ensures s.reader.Done?
  {
    var steps :| Reaches(INIT, steps, s);
    RunKeepsExited(INIT, steps, s);
  }

  /** The line that a step puts on stdout, if any. */
  function Printed(s: State, step: Step): seq<Line>
    requires Enabled(s, step)
  {
    match step
    case Answer(k, wireId, known, rendering) =>
      var resp := HandleRequest(wireId, s.stdin[k].req, known, rendering);
      [Decodes(Mux.Message(resp, Mux.AnswerTo(s.stdin[k].call)))]
    case AnswerGarbled(message) => [Decodes(Mux.Message(Failed(0, "JSON parse error: " + message), Mux.NoCall))]
    case Stray(resp) => [Decodes(Mux.Message(resp, Mux.NoCall))]
    case Noise => [Garbage]
    case _ => []
  }

  function AllPrinted(s: State, steps: seq<Step>, t: State): seq<Line>
    requires Reaches(s, steps, t)
    decreases |steps|
  {
    if steps == [] then [] else Printed(s, steps[0]) + AllPrinted(Apply(s, steps[0]), steps[1..], t)
  }

  lemma PrintsStep(s: State, step: Step)
    requires Enabled(s, step)
    ensures if step.ReadLine? then |s.stdout| > 0 && Apply(s, step).stdout == s.stdout[1..] && Printed(s, step) == []
            else Apply(s, step).stdout == s.stdout + Printed(s, step)
  {}

  /** Stdout keeps every line, in order, until the reader takes it. */
  lemma {:induction false} StdoutKeepsOrder(s: State, steps: seq<Step>, t: State)
    requires Reaches(s, steps, t)
    ensures Reads(steps) <= |s.stdout| + |AllPrinted(s, steps, t)|
    ensures t.stdout == (s.stdout + AllPrinted(s, steps, t))[Reads(steps)..]
    decreases |steps|
  {
    if steps == [] {
    } else {
      var s' := Apply(s, steps[0]);
      var later := AllPrinted(s', steps[1..], t);
      PrintsStep(s, steps[0]);
      StdoutKeepsOrder(s', steps[1..], t);
      if steps[0].ReadLine? {
        LessOne(s.stdout, later, Reads(steps[1..]));
      } else {
        MoreOne(s.stdout, Printed(s, steps[0]), later);
      }
    }
  }

  lemma LessOne(lines: seq<Line>, later: seq<Line>, n: nat)
    requires lines != [] && n <= |lines| - 1 + |later|
    ensures (lines[1..] + later)[n..] == (lines + ([] + later))[n + 1..]
  {}

  lemma MoreOne(lines: seq<Line>, one: seq<Line>, later: seq<Line>)
    ensures lines + one + later == lines + (one + later)
  {}

  // ----- Delivery over whole runs -----

  predicate IsFor(line: Line, c: nat) {
    line.Decodes? && line.m.origin == Mux.AnswerTo(c)
  }

  /** Line `k` is the first on stdout that answers call `c`. */
  ghost predicate FirstFor(stdout: seq<Line>, k: nat, c: nat, m: Message) {
    && k < |stdout| && stdout[k] == Decodes(m) && m.origin == Mux.AnswerTo(c)
    && forall j | 0 <= j < k :: !IsFor(stdout[j], c)
  }

  /** The reader has an answer to call `c` in hand. */
  predicate HasInHand(reader: Reader, c: nat) {
    (reader.Found? && reader.m.origin == Mux.AnswerTo(c)) || (reader.Sending? && reader.call == c)
  }

  /** Call `c` has sent its request and no reply has reached it. */
  ghost predicate NotYet(s: State, c: nat) {
    && c < |s.calls| && c < |s.mux.chans| && s.mux.chans[c] == []
    && !s.calls[c].pc.Numbered? && !s.calls[c].pc.Registered?
    && (s.calls[c].pc.Leaving? || s.calls[c].pc.Returned? ==> !s.calls[c].pc.out.Replied?)
  }

  ghost predicate Ahead(s: State, k: nat, c: nat, m: Message) {
    NotYet(s, c) && !HasInHand(s.reader, c) && FirstFor(s.stdout, k, c, m)
  }

  ghost predicate InHand(s: State, c: nat, m: Message) {
    NotYet(s, c) && m.origin == Mux.AnswerTo(c) && (s.reader == Found(m) || s.reader == Sending(m, c))
  }

  /** Waiting, it has `m` in its channel; gone with a reply, it took `m`. */
  ghost predicate Got(s: State, c: nat, m: Message) {
    && c < |s.calls| && c < |s.mux.chans|
    && !s.calls[c].pc.Numbered? && !s.calls[c].pc.Registered?
    && (s.calls[c].pc.Waiting? ==> s.mux.chans[c] == [m])
    && (s.calls[c].pc.Leaving? || s.calls[c].pc.Returned? ==>
          s.calls[c].pc.out.Replied? ==> s.calls[c].pc.out == Replied(m))
  }

  /** `k` lines stand before the answer; below zero, it has been read. */
  ghost predicate OnTheWay(s: State, k: int, c: nat, m: Message) {
    if k >= 0 then ReaderGone(s) || Ahead(s, k, c, m) else InHand(s, c, m) || Got(s, c, m)
  }

  lemma FirstStays(stdout: seq<Line>, k: nat, c: nat, m: Message, line: Line)
    requires FirstFor(stdout, k, c, m)
    ensures FirstFor(stdout + [line], k, c, m)
    ensures k > 0 ==> !IsFor(stdout[0], c) && FirstFor(stdout[1..], k - 1, c, m)
  {}

  /** The reader finds another call than `c` for what is not an answer to `c`. */
  lemma OtherIsFound(s: State, c: nat)
    requires IdsInv(s) && PendingInv(s) && ReaderInv(s) && Enabled(s, LookUp) && !HasInHand(s.reader, c)
    ensures !HasInHand(Apply(s, LookUp).reader, c)
  {}

  lemma KeepsNotYet(s: State, step: Step, c: nat)
    requires NotYet(s, c) && Enabled(s, step) && !ReaderGone(s) && !HasInHand(s.reader, c)
    ensures NotYet(Apply(s, step), c)
  {}

  lemma KeepsAhead(s: State, step: Step, k: nat, c: nat, m: Message)
    requires IdsInv(s) && PendingInv(s) && ReaderInv(s) && Enabled(s, step)
    requires !ReaderGone(s) && Ahead(s, k, c, m)
    ensures OnTheWay(Apply(s, step), if step.ReadLine? then k - 1 else k, c, m)
  {
    KeepsNotYet(s, step, c);
    FirstStays(s.stdout, k, c, m, Garbage);
    if step.LookUp? {
      OtherIsFound(s, c);
    } else if |Apply(s, step).stdout| > |s.stdout| {
      FirstStays(s.stdout, k, c, m, Apply(s, step).stdout[|s.stdout|]);
    }
  }

  lemma PendingIsOwn(s: State, c: nat)
    requires IdsInv(s) && PendingInv(s) && AllPending(s)
    ensures c + 1 in s.mux.pending ==> s.mux.pending[c + 1] == c
    ensures At(s, c, Waiting) ==> c + 1 in s.mux.pending
  {
    if At(s, c, Waiting) {
      WaitingIsPending(s, c);
    }
  }

  /** Looked up, the answer goes to its caller, or, if that has left, nowhere. */
  lemma CallerIsFound(s: State, c: nat, m: Message)
    requires InHand(s, c, m) && s.reader == Found(m) && m.resp.id == c + 1
    requires c + 1 in s.mux.pending ==> s.mux.pending[c + 1] == c
    requires At(s, c, Waiting) ==> c + 1 in s.mux.pending
    ensures InHand(Apply(s, LookUp), c, m) || Got(Apply(s, LookUp), c, m)
  {}

  lemma KeepsInHand(s: State, step: Step, c: nat, m: Message)
    requires IdsInv(s) && PendingInv(s) && AllPending(s) && ReaderInv(s) && InHand(s, c, m) && Enabled(s, step)
    ensures InHand(Apply(s, step), c, m) || Got(Apply(s, step), c, m)
  {
    if step.LookUp? {
      HonestId(s.calls, m, c);
      PendingIsOwn(s, c);
      CallerIsFound(s, c, m);
    } else if step.Send? {
      SentIsGot(s, c, m);
    } else {
      OthersLeaveInHand(s, step, c, m);
    }
  }

  lemma SentIsGot(s: State, c: nat, m: Message)
    requires IdsInv(s) && InHand(s, c, m) && Enabled(s, Send)
    ensures Got(Apply(s, Send), c, m)
  {}

  lemma OthersLeaveInHand(s: State, step: Step, c: nat, m: Message)
    requires IdsInv(s) && InHand(s, c, m) && Enabled(s, step) && !step.LookUp? && !step.Send?
    ensures InHand(Apply(s, step), c, m)
  {}

  lemma KeepsGot(s: State, step: Step, c: nat, m: Message)
    requires IdsInv(s) && Got(s, c, m) && Enabled(s, step)
    ensures Got(Apply(s, step), c, m)
  {}

  lemma KeepsOnTheWay(s: State, step: Step, k: int, c: nat, m: Message)
    requires IdsInv(s) && PendingInv(s) && ReaderInv(s) && (!ReaderGone(s) ==> AllPending(s))
    requires OnTheWay(s, k, c, m) && Enabled(s, step)
    ensures OnTheWay(Apply(s, step), if step.ReadLine? then k - 1 else k, c, m)
  {
    if k >= 0 {
      if ReaderGone(s) {
        StaysGone(s, step);
      } else {
        KeepsAhead(s, step, k, c, m);
      }
    } else if InHand(s, c, m) {
      KeepsInHand(s, step, c, m);
    } else {
      KeepsGot(s, step, c, m);
    }
  }

  function Reads(steps: seq<Step>): nat {
    if steps == [] then 0 else (if steps[0].ReadLine? then 1 else 0) + Reads(steps[1..])
  }

  lemma StepOnTheWay(s: State, step: Step, k: int, c: nat, m: Message)
    requires Reachable(s) && |s.calls| <= TWO_TO_53 && OnTheWay(s, k, c, m) && Enabled(s, step)
    ensures OnTheWay(Apply(s, step), if step.ReadLine? then k - 1 else k, c, m)
  {
    ReachableInv(s);
    KeepsOnTheWay(s, step, k, c, m);
  }

  lemma {:induction false} RunKeepsOnTheWay(s: State, steps: seq<Step>, t: State, k: int, c: nat, m: Message)
    requires Reachable(s) && OnTheWay(s, k, c, m) && Reaches(s, steps, t) && |t.calls| <= TWO_TO_53
    ensures OnTheWay(t, k - Reads(steps), c, m)
    decreases |steps|
  {
    if steps == [] {
    } else {
      RunGrows(s, steps, t);
      ReachableNext(s, steps[0]);
      StepOnTheWay(s, steps[0], k, c, m);
      RunKeepsOnTheWay(Apply(s, steps[0]), steps[1..], t, if steps[0].ReadLine? then k - 1 else k, c, m);
    }
  }

  /** Over every interleaving: once the reader has read as far as the first line
      that answers a waiting caller, it has that answer in hand, or the caller has
      it in its channel if it still waits, and no other reply to return with. */
  lemma FirstAnswerArrives(s: State, k: nat, c: nat, m: Message, steps: seq<Step>, t: State)
    requires Reachable(s) && |s.calls| <= TWO_TO_53 && !ReaderGone(s) && !HasInHand(s.reader, c)
    requires At(s, c, Waiting) && c < |s.mux.chans| && s.mux.chans[c] == [] && FirstFor(s.stdout, k, c, m)
    requires Reaches(s, steps, t) && |t.calls| <= TWO_TO_53 && Reads(steps) > k
    ensures t.reader == Found(m) || t.reader == Sending(m, c) || Got(t, c, m)
    ensures At(t, c, Waiting) && !HasInHand(t.reader, c) ==> Enabled(t, Receive(c)) && t.mux.chans[c] == [m]
  {
    RunKeepsOnTheWay(s, steps, t, k, c, m);
  }

  /** The reader never blocks: whatever it is about to do, it can. */
  lemma ReaderNeverBlocks(s: State)
    requires Reachable(s) && |s.calls| <= TWO_TO_53
    ensures s.reader.Found? ==> Enabled(s, LookUp)
    ensures s.reader.Sending? ==> Enabled(s, Send)
    ensures s.reader.Draining? ==> Enabled(s, EndDrain) || exists id :: Enabled(s, DrainOne(id))
    ensures s.reader.Drained? ==> Enabled(s, CloseDone)
  {
    ReachableInv(s);
    if s.reader.Draining? && s.mux.pending != map[] {
      var id :| id in s.mux.pending;
      assert Enabled(s, DrainOne(id));
    }
  }

  // ----- Progress once the reader is gone -----

  /** Steps of the callers already there and of the reader, in which nobody gives
      up of their own accord. */
  predicate Settling(step: Step) {
    match step
    case Begin(_) => false
    case Answer(_, _, _, _) => false
    case AnswerGarbled(_) => false
    case Stray(_) => false
    case Noise => false
    case _ => true
  }

  function PcWeight(pc: Pc): nat {
    match pc
    case Numbered => 4
    case Registered => 3
    case Waiting => 2
    case Leaving(_) => 1
    case Returned(_) => 0
  }

  function CallsWeight(calls: seq<Call>): nat {
    if calls == [] then 0 else PcWeight(calls[0].pc) + CallsWeight(calls[1..])
  }

  /** How many steps are left at most. */
  function Weight(s: State): nat {
    CallsWeight(s.calls)
    + (match s.reader
       case Draining(_) => |s.mux.pending| + 2
       case Drained => 1
       case _ => 0)
  }

  lemma {:induction false} GotoWeight(calls: seq<Call>, c: nat, pc: Pc)
    requires c < |calls|
    ensures CallsWeight(calls[c := calls[c].(pc := pc)]) == CallsWeight(calls) - PcWeight(calls[c].pc) + PcWeight(pc)
  {
    var calls' := calls[c := calls[c].(pc := pc)];
    if c == 0 {
      assert calls'[1..] == calls[1..];
    } else {
      assert calls'[1..] == calls[1..][c - 1 := calls[c].(pc := pc)];
      GotoWeight(calls[1..], c - 1, pc);
    }
  }

  lemma SettlingStepsLower(s: State, step: Step)
    requires Enabled(s, step) && ReaderGone(s) && Settling(step)
    ensures ReaderGone(Apply(s, step)) && Weight(Apply(s, step)) < Weight(s)
  {
    var move := Moves(s, step);
    if move.Some? {
      GotoWeight(s.calls, move.value.0, move.value.1);
    }
  }

  /** Node's steps neither bring the reader back nor add to what is left. */
  lemma OtherStepsKeep(s: State, step: Step)
    requires Enabled(s, step) && ReaderGone(s) && !Settling(step) && !step.Begin?
    ensures ReaderGone(Apply(s, step)) && Weight(Apply(s, step)) == Weight(s)
  {}

  function SettlingSteps(steps: seq<Step>): (n: nat)
    ensures n <= |steps|
  {
    if steps == [] then 0 else (if Settling(steps[0]) then 1 else 0) + SettlingSteps(steps[1..])
  }

  ghost predicate NoNewCalls(steps: seq<Step>) {
    forall i | 0 <= i < |steps| :: !steps[i].Begin?
  }

  /** After the reader is gone, the callers there are and the reader take few
      steps, however much Node still prints. */
  lemma {:induction false} SettlingRunIsShort(s: State, steps: seq<Step>, t: State)
    requires Reaches(s, steps, t) && ReaderGone(s) && NoNewCalls(steps)
    ensures ReaderGone(t) && SettlingSteps(steps) + Weight(t) <= Weight(s)
    decreases |steps|
  {
    if steps == [] {
    } else {
      assert !steps[0].Begin?;
      if Settling(steps[0]) {
        SettlingStepsLower(s, steps[0]);
      } else {
        OtherStepsKeep(s, steps[0]);
      }
      SettlingRunIsShort(Apply(s, steps[0]), steps[1..], t);
    }
  }

  /** Neither giving up nor failing a write that could succeed. */
  predicate Willing(s: State, step: Step) {
    Settling(step) && !step.Cancel? && !step.FailEncode? && (step.FailWrite? ==> s.broken)
  }

  /** Nobody is stuck: unless every caller has returned and `done` is closed,
      some willing step can be taken, and once `done` is, one of each caller's
      own. */
  lemma SomeStepIsEnabled(s: State, c: nat) returns (step: Step)
    requires Inv(s) && ReaderGone(s) && c < |s.calls| && !s.calls[c].pc.Returned?
    ensures Enabled(s, step) && Willing(s, step)
    ensures s.reader.Done? ==> step in {Register(c), Write(c), FailWrite(c, false), SeeDone(c), Deregister(c)}
  {
    match s.reader
    case Draining(_) =>
      if s.mux.pending == map[] {
        step := EndDrain;
      } else {
        var id :| id in s.mux.pending;
        step := DrainOne(id);
      }
    case Drained => step := CloseDone;
    case Done =>
      match s.calls[c].pc
      case Numbered => step := Register(c);
      case Registered => step := if s.broken then FailWrite(c, false) else Write(c);
      case Waiting => step := SeeDone(c);
      case Leaving(_) => step := Deregister(c);
  }

  /** Progress: from any reachable state in which the reader is gone, late
      registrants included, a run without new calls holds at most Weight(s) steps
      of callers and reader, whatever Node prints in between; and when none of
      them can go on, every caller has returned and nothing is pending. */
  lemma EveryCallerReturns(s: State, steps: seq<Step>, t: State)
    requires Reachable(s) && |t.calls| <= TWO_TO_53
    requires ReaderGone(s) && Reaches(s, steps, t) && NoNewCalls(steps)
    ensures SettlingSteps(steps) <= Weight(s)
    ensures (forall step | Willing(t, step) :: !Enabled(t, step)) ==>
              (forall c | 0 <= c < |t.calls| :: t.calls[c].pc.Returned?) && t.mux.pending == map[]
  {
    SettlingRunIsShort(s, steps, t);
    ReachableOn(s, steps, t);
    ReachableInv(t);
    NoLeak(t);
    if c: nat :| c < |t.calls| && !t.calls[c].pc.Returned? {
      var step := SomeStepIsEnabled(t, c);
    }
  }

  lemma {:induction false} RunConcat(s: State, first: seq<Step>, mid: State, second: seq<Step>, t: State)
    requires Reaches(s, first, mid) && Reaches(mid, second, t)
    ensures Reaches(s, first + second, t)
    decreases |first|
  {
    if first == [] {
      assert first + second == second;
    } else {
      assert (first + second)[1..] == first[1..] + second;
      RunConcat(Apply(s, first[0]), first[1..], mid, second, t);
    }
  }

  // ----- What a drained caller is told -----

  /** The error that the drain hands out, if the reader has stopped as `stopped` says. */
  predicate Tells(m: Message, stopped: Option<Option<string>>) {
    m.origin.Drained? ==>
      && stopped.Some?
      && m.resp.error == if stopped.value.Some? then "reading node stdout: " + stopped.value.value else "worker exited"
  }

  predicate LineTells(line: Line, stopped: Option<Option<string>>) {
    line.Decodes? ==> Tells(line.m, stopped)
  }

  predicate PcTells(pc: Pc, stopped: Option<Option<string>>) {
    (pc.Leaving? || pc.Returned?) && pc.out.Replied? ==> Tells(pc.out.message, stopped)
  }

  ghost predicate ReaderTells(s: State, stopped: Option<Option<string>>) {
    && (stopped.Some? <==> ReaderGone(s))
    && (forall k | 0 <= k < |s.stdout| :: LineTells(s.stdout[k], stopped))
    && match s.reader
       case Found(m) => Tells(m, stopped)
       case Sending(m, _) => Tells(m, stopped)
       case Draining(m) => Tells(m, stopped)
       case _ => true
  }

  ghost predicate ChansTell(s: State, stopped: Option<Option<string>>) {
    forall c, i | 0 <= c < |s.mux.chans| && 0 <= i < |s.mux.chans[c]| :: Tells(s.mux.chans[c][i], stopped)
  }

  ghost predicate OutsTell(s: State, stopped: Option<Option<string>>) {
    forall c | 0 <= c < |s.calls| :: PcTells(s.calls[c].pc, stopped)
  }

  ghost predicate AllTell(s: State, stopped: Option<Option<string>>) {
    ReaderTells(s, stopped) && ChansTell(s, stopped) && OutsTell(s, stopped)
  }

  /** How the reader stopped, if it has. */
  function Stopped(stopped: Option<Option<string>>, step: Step): Option<Option<string>> {
    if step.StopReading? then Some(step.failure) else stopped
  }

  function StoppedBy(stopped: Option<Option<string>>, steps: seq<Step>): Option<Option<string>>
    decreases |steps|
  {
    if steps == [] then stopped else StoppedBy(Stopped(stopped, steps[0]), steps[1..])
  }

  lemma KeepsReaderTells(s: State, step: Step, stopped: Option<Option<string>>)
    requires ReaderTells(s, stopped) && Enabled(s, step)
    ensures ReaderTells(Apply(s, step), Stopped(stopped, step))
  {}

  lemma KeepsChansTell(s: State, step: Step, stopped: Option<Option<string>>)
    requires ReaderTells(s, stopped) && ChansTell(s, stopped) && Enabled(s, step)
    requires step.StopReading? ==> stopped.None?
    ensures ChansTell(Apply(s, step), Stopped(stopped, step))
  {}

  lemma KeepsOutsTell(s: State, step: Step, stopped: Option<Option<string>>)
    requires ChansTell(s, stopped) && OutsTell(s, stopped) && Enabled(s, step)
    requires step.StopReading? ==> stopped.None?
    ensures OutsTell(Apply(s, step), Stopped(stopped, step))
  {
    var s' := Apply(s, step);
    forall c | 0 <= c < |s'.calls| ensures PcTells(s'.calls[c].pc, Stopped(stopped, step)) {
      if c < |s.calls| {
        CallAfter(s, step, c);
        assert PcTells(s.calls[c].pc, stopped);
      }
    }
  }

  lemma {:induction false} RunKeepsTelling(s: State, steps: seq<Step>, t: State, stopped: Option<Option<string>>)
    requires AllTell(s, stopped) && Reaches(s, steps, t)
    ensures AllTell(t, StoppedBy(stopped, steps))
    decreases |steps|
  {
    if steps == [] {
    } else {
      KeepsReaderTells(s, steps[0], stopped);
      KeepsChansTell(s, steps[0], stopped);
      KeepsOutsTell(s, steps[0], stopped);
      RunKeepsTelling(Apply(s, steps[0]), steps[1..], t, Stopped(stopped, steps[0]));
    }
  }

  /** A caller that ends with the drain's message is told the reader's error, or that
      the worker exited. */
  lemma DrainedIsTold(steps: seq<Step>, s: State, c: nat, m: Message)
    requires Reaches(INIT, steps, s) && EndsWith(s, c, Replied(m)) && m.origin.Drained?
    ensures StoppedBy(None, steps).Some?
    ensures RenderResult(Replied(m))
         == match StoppedBy(None, steps).value
            case Some(failure) => Err("reading node stdout: " + failure)
            case None => Err("worker exited")
  {
    RunKeepsTelling(INIT, steps, s, None);
    assert PcTells(s.calls[c].pc, StoppedBy(None, steps));
    assert "reading node stdout: " != [] && "worker exited" != [];
  }

  // ----- Drained and late callers -----

  /** If call `c` has registered and waits or is about to, it has a message, or
      the drain goes on and has yet to come to it. */
  ghost predicate Roused(s: State, c: nat) {
    && c < |s.calls| && c < |s.mux.chans| && !s.calls[c].pc.Numbered?
    && (s.calls[c].pc.Registered? || s.calls[c].pc.Waiting? ==>
          s.mux.chans[c] != [] || (s.reader.Draining? && c + 1 in s.mux.pending))
  }

  lemma KeepsRoused(s: State, step: Step, c: nat)
    requires IdsInv(s) && PendingInv(s) && ReaderGone(s) && Roused(s, c) && Enabled(s, step)
    ensures Roused(Apply(s, step), c)
  {}

  lemma {:induction false} RunKeepsRoused(s: State, steps: seq<Step>, t: State, c: nat)
    requires Inv(s) && ReaderGone(s) && Roused(s, c) && Reaches(s, steps, t) && |t.calls| <= TWO_TO_53
    ensures Roused(t, c)
    decreases |steps|
  {
    if steps == [] {
    } else {
      var s' := Apply(s, steps[0]);
      RunGrows(s', steps[1..], t);
      KeepsInv(s, steps[0]);
      StaysGone(s, steps[0]);
      KeepsRoused(s, steps[0], c);
      RunKeepsRoused(s', steps[1..], t, c);
    }
  }

  lemma RousedAtFirst(s: State, failure: Option<string>, c: nat)
    requires IdsInv(s) && AllPending(s) && Enabled(s, StopReading(failure)) && c < |s.calls| && Inside(s.calls[c].pc)
    ensures Roused(Apply(s, StopReading(failure)), c)
  {
    assert s.calls[c].id in s.mux.pending;
  }

  lemma StopRouses(s: State, failure: Option<string>, c: nat)
    requires Reachable(s) && |s.calls| <= TWO_TO_53
    requires Enabled(s, StopReading(failure)) && c < |s.calls| && Inside(s.calls[c].pc)
    ensures Roused(Apply(s, StopReading(failure)), c)
  {
    PendingPart(s);
    RousedAtFirst(s, failure, c);
  }

  lemma StaysRoused(s: State, steps: seq<Step>, t: State, c: nat)
    requires Reachable(s) && |s.calls| <= TWO_TO_53 && ReaderGone(s) && Roused(s, c)
    requires Reaches(s, steps, t) && |t.calls| <= TWO_TO_53
    ensures Roused(t, c)
  {
    ReachableInv(s);
    RunKeepsRoused(s, steps, t, c);
  }

  /** The drain wakes everyone: from the step that stops the reader on, a caller
      that had registered and still waits can take a message, or its ID is in the
      map that the drain is still emptying. */
  lemma DrainWakes(s: State, failure: Option<string>, c: nat, steps: seq<Step>, t: State)
    requires Reachable(s) && Enabled(s, StopReading(failure)) && c < |s.calls| && Inside(s.calls[c].pc)
    requires Reaches(Apply(s, StopReading(failure)), steps, t) && |t.calls| <= TWO_TO_53
    ensures At(t, c, Waiting) ==> Enabled(t, Receive(c)) || (t.reader.Draining? && c + 1 in t.mux.pending)
    ensures At(t, c, Waiting) && !t.reader.Draining? ==> Enabled(t, Receive(c))
  {
    var s' := Apply(s, StopReading(failure));
    RunGrows(s', steps, t);
    StopRouses(s, failure, c);
    ReachableNext(s, StopReading(failure));
    StaysRoused(s', steps, t, c);
  }

  /** Call `c` has no answer, in its channel or in hand. */
  ghost predicate Unanswered(s: State, c: nat) {
    && c < |s.calls| && c < |s.mux.chans|
    && (forall i | 0 <= i < |s.mux.chans[c]| :: s.mux.chans[c][i].resp.error != "")
    && (s.calls[c].pc.Leaving? || s.calls[c].pc.Returned? ==> RenderResult(s.calls[c].pc.out).Err?)
  }

  lemma StaysGone(s: State, step: Step)
    requires ReaderGone(s) && Enabled(s, step)
    ensures ReaderGone(Apply(s, step))
  {}

  lemma KeepsUnanswered(s: State, step: Step, c: nat)
    requires ReaderInv(s) && IdsInv(s) && ReaderGone(s) && Unanswered(s, c) && Enabled(s, step)
    ensures Unanswered(Apply(s, step), c)
  {
    OutAfter(s, step, c);
  }

  lemma {:induction false} RunKeepsUnanswered(s: State, steps: seq<Step>, t: State, c: nat)
    requires Inv(s) && ReaderGone(s) && Unanswered(s, c) && Reaches(s, steps, t) && |t.calls| <= TWO_TO_53
    ensures Unanswered(t, c)
    decreases |steps|
  {
    if steps == [] {
    } else {
      var s' := Apply(s, steps[0]);
      RunGrows(s', steps[1..], t);
      KeepsInv(s, steps[0]);
      StaysGone(s, steps[0]);
      KeepsUnanswered(s, steps[0], c);
      RunKeepsUnanswered(s', steps[1..], t, c);
    }
  }

  /** A caller that has no answer when the reader goes, drained or registering
      only after the drain, never gets a success from Renderer.Render. */
  lemma NoSuccessAfterTheReader(s: State, steps: seq<Step>, t: State, c: nat, out: Outcome<Message>)
    requires Reachable(s) && ReaderGone(s) && Unanswered(s, c)
    requires Reaches(s, steps, t) && |t.calls| <= TWO_TO_53 && EndsWith(t, c, out)
    ensures RenderResult(out).Err?
  {
    RunGrows(s, steps, t);
    ReachableInv(s);
    RunKeepsUnanswered(s, steps, t, c);
  }

  /** From the wire to the page: a nonempty success reads back, in the browser, as
      the component and the properties this caller asked for. */
  lemma OwnPage(s: State, c: nat, out: Outcome<Message>)
    requires Reachable(s) && |s.calls| <= TWO_TO_53
    requires EndsWith(s, c, out) && RenderResult(out).Ok? && RenderResult(out).value != ""
    requires var req := s.calls[c].req;
             Markup.Printable(req.component) && Markup.Printable(req.props)
             && '"' !in req.component && '&' !in req.component
    ensures Markup.ReadIsland(RenderResult(out).value)
         == Some(Markup.Island(s.calls[c].req.component, s.calls[c].req.props))
  {
    Correlation(s, c, out);
    PageIsOwn(s.calls[c].req, out.message.resp);
  }

  // ----- One call from end to end -----

  /** A new call has asked, Node has answered, and nothing else is on stdout. */
  ghost predicate Answered(s: State, c: nat, m: Message) {
    && At(s, c, Waiting) && c < |s.mux.chans| && s.mux.chans[c] == []
    && s.reader.Reading? && s.stdout == [Decodes(m)]
    && m.resp.id in s.mux.pending && s.mux.pending[m.resp.id] == c
  }

  lemma AnswerIsShown(s: State, c: nat, known: bool, rendering: Rendering)
    requires At(s, c, Numbered) && s.calls[c].id == c + 1 <= TWO_TO_53 && c < |s.mux.chans| && s.mux.chans[c] == []
    requires s.reader.Reading? && s.stdout == []
    ensures var mid, answer := Asking(s, c), Answer(|s.stdin|, c + 1, known, rendering);
            && Enabled(mid, answer)
            && Answered(Apply(mid, answer), c,
                        Mux.Message(HandleRequest(c + 1, s.calls[c].req, known, rendering), Mux.AnswerTo(c)))
  {}

  lemma AnswerReaches(s: State, known: bool, rendering: Rendering, req: Request)
    returns (steps: seq<Step>, t: State, m: Message)
    requires IdsInv(s) && |s.calls| < TWO_TO_53 && s.reader.Reading? && s.stdout == [] && !s.broken
    ensures Reaches(s, steps, t) && Answered(t, |s.calls|, m)
    ensures m == Mux.Message(HandleRequest(|s.calls| + 1, req, known, rendering), Mux.AnswerTo(|s.calls|))
  {
    var c := |s.calls|;
    var s1 := Apply(s, Begin(req));
    Asks(s1, c);
    AnswerIsShown(s1, c, known, rendering);
    var s2, s3 := Apply(s1, Register(c)), Asking(s1, c);
    var answer := Answer(|s.stdin|, c + 1, known, rendering);
    t := Apply(s3, answer);
    m := Mux.Message(HandleRequest(c + 1, req, known, rendering), Mux.AnswerTo(c));
    steps := FourSteps(s, Begin(req), s1, Register(c), s2, Write(c), s3, answer, t);
  }

  lemma TakesAndReturns(s: State, c: nat, m: Message) returns (t: State)
    requires At(s, c, Waiting) && c < |s.mux.chans| && s.mux.chans[c] == [m] && LockFree(s)
    ensures Reaches(s, [Receive(c), Deregister(c)], t) && At(t, c, Returned(Replied(m)))
  {
    var mid := Apply(s, Receive(c));
    t := Apply(mid, Deregister(c));
    assert [Receive(c), Deregister(c)][1..] == [Deregister(c)] && [Deregister(c)][1..] == [];
    assert Reaches(t, [], t);
    assert Reaches(mid, [Deregister(c)], t);
  }

  /** From any reachable state whose worker is up and idle, a new call returns what
      Node makes of its request. */
  lemma CallReturnsItsPage(s: State, req: Request, known: bool, rendering: Rendering)
    returns (steps: seq<Step>, t: State, out: Outcome<Message>)
    requires Reachable(s) && |s.calls| < TWO_TO_53 && s.reader.Reading? && s.stdout == [] && !s.broken
    ensures Reaches(s, steps, t) && At(t, |s.calls|, Returned(out))
    ensures RenderResult(out) == Finish(Replied(HandleRequest(|s.calls| + 1, req, known, rendering)))
  {
    PendingPart(s);
    var c := |s.calls|;
    var asking, s1, m := AnswerReaches(s, known, rendering, req);
    var s2 := Deliver(s1, c, m);
    RunConcat(s, asking, s1, [ReadLine, LookUp, Send], s2);
    t := TakesAndReturns(s2, c, m);
    steps := asking + [ReadLine, LookUp, Send] + [Receive(c), Deregister(c)];
    RunConcat(s, asking + [ReadLine, LookUp, Send], s2, [Receive(c), Deregister(c)], t);
    out := Replied(m);
  }

  // ----- One request too many -----

  const ASKED := Request("A", "{}")
  const OTHER := Request("B", "{}")

  /** After `n` calls have been numbered and nothing else has happened. */
  function Many(n: nat): State {
    State(Mux.State(n, map[], seq(n, _ => [])), seq(n, i requires 0 <= i < n => Call(i + 1, ASKED, Numbered)),
          [], [], Reading, false)
  }

  lemma OneStep(s: State, steps: seq<Step>, t: State, step: Step)
    requires Reaches(s, steps, t) && Enabled(t, step)
    ensures Reaches(s, steps + [step], Apply(t, step))
  {
    assert Reaches(Apply(t, step), [step][1..], Apply(t, step));
    RunConcat(s, steps, t, [step], Apply(t, step));
  }

  lemma OneMore(n: nat)
    requires 0 < n <= TWO_TO_53
    ensures Apply(Many(n - 1), Begin(ASKED)) == Many(n)
  {
    var s := Apply(Many(n - 1), Begin(ASKED));
    assert s.calls == Many(n).calls;
    assert s.mux.chans == Many(n).mux.chans;
  }

  lemma ReachableNext(s: State, step: Step)
    requires Reachable(s) && Enabled(s, step)
    ensures Reachable(Apply(s, step))
  {
    OneStep(s, [], s, step);
    ReachableOn(s, [] + [step], Apply(s, step));
  }

  lemma {:induction false} ManyReachable(n: nat)
    requires n <= TWO_TO_53
    ensures Reachable(Many(n))
  {
    if n == 0 {
      assert Many(0) == INIT && Reaches(INIT, [], INIT);
    } else {
      ManyReachable(n - 1);
      ReachableNext(Many(n - 1), Begin(ASKED));
      OneMore(n);
    }
  }

  const LATE := TWO_TO_53
  const VICTIM := TWO_TO_53 - 1
  const STRAY_ANSWER := Mux.Message(HandleRequest(TWO_TO_53, OTHER, true, Html("")), Mux.AnswerTo(LATE))

  /** Both the victim and the late caller have written and wait; nothing is
      answered yet. */
  ghost predicate BothWait(s: State) {
    && |s.calls| == TWO_TO_53 + 1 == |s.mux.chans| && s.calls[VICTIM] == Call(TWO_TO_53, ASKED, Waiting)
    && TWO_TO_53 in s.mux.pending && s.mux.pending[TWO_TO_53] == VICTIM && s.mux.chans[VICTIM] == []
    && |s.stdin| == 2 && s.stdin[1] == Sent(TWO_TO_53 + 1, OTHER, LATE) && s.stdout == [] && s.reader == Reading
  }

  function Asking(s: State, c: nat): State
    requires c < |s.calls|
  {
    var call := s.calls[c];
    s.(mux := Mux.Register(s.mux, call.id, c), calls := s.calls[c := call.(pc := Waiting)],
       stdin := s.stdin + [Sent(call.id, call.req, c)])
  }

  lemma Asks(s: State, c: nat)
    requires At(s, c, Numbered) && LockFree(s) && !s.broken
    ensures Enabled(s, Register(c)) && Enabled(Apply(s, Register(c)), Write(c))
    ensures Apply(Apply(s, Register(c)), Write(c)) == Asking(s, c)
  {}

  ghost predicate NoneAsked(s: State) {
    && |s.calls| == TWO_TO_53 + 1 == |s.mux.chans| && s.mux.pending == map[] && s.mux.chans[VICTIM] == []
    && s.calls[VICTIM] == Call(TWO_TO_53, ASKED, Numbered) && s.calls[LATE] == Call(TWO_TO_53 + 1, OTHER, Numbered)
    && s.stdin == [] && s.stdout == [] && s.reader == Reading && !s.broken
  }

  lemma OneMoreThanMany()
    ensures NoneAsked(Apply(Many(TWO_TO_53), Begin(OTHER)))
  {}

  lemma AskingMeansWaiting(s: State)
    requires NoneAsked(s)
    ensures BothWait(Asking(Asking(s, VICTIM), LATE))
  {}

  /** Two calls ask, one after the other. */
  lemma BothAsk(s: State) returns (t: State, steps: seq<Step>)
    requires NoneAsked(s)
    ensures Reaches(s, steps, t) && BothWait(t)
  {
    var mid := Asking(s, VICTIM);
    t := Asking(mid, LATE);
    Asks(s, VICTIM);
    Asks(mid, LATE);
    AskingMeansWaiting(s);
    var s1, s3 := Apply(s, Register(VICTIM)), Apply(mid, Register(LATE));
    steps := FourSteps(s, Register(VICTIM), s1, Write(VICTIM), mid, Register(LATE), s3, Write(LATE), t);
  }

  lemma FourSteps(s: State, a: Step, s1: State, b: Step, s2: State, c: Step, s3: State, d: Step, t: State)
    returns (steps: seq<Step>)
    requires Enabled(s, a) && s1 == Apply(s, a) && Enabled(s1, b) && s2 == Apply(s1, b)
    requires Enabled(s2, c) && s3 == Apply(s2, c) && Enabled(s3, d) && t == Apply(s3, d)
    ensures Reaches(s, steps, t)
  {
    steps := [a];
    OneStep(s, [], s, a);
    OneStep(s, [a], s1, b);
    OneStep(s, [a] + [b], s2, c);
    OneStep(s, [a] + [b] + [c], s3, d);
    steps := [a] + [b] + [c] + [d];
  }

  const STRAY_STEP := Answer(1, TWO_TO_53, true, Html(""))

  lemma StrayIsWritten(s: State)
    requires BothWait(s)
    ensures Enabled(s, STRAY_STEP) && Apply(s, STRAY_STEP) == s.(stdout := [Decodes(STRAY_ANSWER)])
  {}

  lemma StrayIsRead(s: State)
    requires s.reader == Reading && s.stdout == []
    ensures var s1 := s.(stdout := [Decodes(STRAY_ANSWER)]);
            Enabled(s1, ReadLine) && Apply(s1, ReadLine) == s.(reader := Found(STRAY_ANSWER))
  {}

  lemma StrayIsSent(s: State)
    requires TWO_TO_53 in s.mux.pending && s.mux.pending[TWO_TO_53] == VICTIM < |s.mux.chans|
    requires s.mux.chans[VICTIM] == []
    requires s.reader == Reading
    ensures var s2 := s.(reader := Found(STRAY_ANSWER));
            && Enabled(s2, LookUp) && Enabled(Apply(s2, LookUp), Send)
            && Apply(Apply(s2, LookUp), Send) == s.(mux := Mux.Send(s.mux, VICTIM, STRAY_ANSWER))
  {}

  lemma StrayIsLast(s: State)
    requires VICTIM < |s.mux.chans| && s.mux.chans[VICTIM] == []
    ensures var mux := Mux.Send(s.mux, VICTIM, STRAY_ANSWER);
            |mux.chans| > VICTIM && mux.chans[VICTIM] == [STRAY_ANSWER]
  {}

  /** The reader takes the stray answer in and hands it to the victim. */
  lemma StrayArrives(s: State) returns (t: State, steps: seq<Step>)
    requires BothWait(s)
    ensures Reaches(s, steps, t) && |t.calls| == TWO_TO_53 + 1
    ensures t.calls[VICTIM] == Call(TWO_TO_53, ASKED, Waiting)
    ensures |t.mux.chans| > VICTIM && t.mux.chans[VICTIM] == [STRAY_ANSWER]
  {
    StrayIsWritten(s);
    StrayIsRead(s);
    StrayIsSent(s);
    StrayIsLast(s);
    var s1, s2 := s.(stdout := [Decodes(STRAY_ANSWER)]), s.(reader := Found(STRAY_ANSWER));
    var s3 := Apply(s2, LookUp);
    t := s.(mux := Mux.Send(s.mux, VICTIM, STRAY_ANSWER));
    steps := FourSteps(s, STRAY_STEP, s1, ReadLine, s2, LookUp, s3, Send, t);
  }

  /** The request after the 2^53rd is answered under the ID before it: that
      caller, who asked for something else, gets the page. */
  lemma OneTooMany() returns (s: State, c: nat, out: Outcome<Message>)
    ensures Reachable(s) && |s.calls| == TWO_TO_53 + 1
    ensures EndsWith(s, c, out) && RenderResult(out).Ok? && s.calls[c].req == ASKED
    ensures out.Replied? && out.message.origin != Mux.AnswerTo(c)
    ensures RenderResult(out).value == Wrapped(OTHER.component, OTHER.props, "")
  {
    var start := Many(TWO_TO_53);
    ManyReachable(TWO_TO_53);
    var s0 := Apply(start, Begin(OTHER));
    ReachableNext(start, Begin(OTHER));
    OneMoreThanMany();
    var s1, asking := BothAsk(s0);
    ReachableOn(s0, asking, s1);
    var s2, answering := StrayArrives(s1);
    ReachableOn(s1, answering, s2);
    ReachableNext(s2, Receive(VICTIM));
    s, c, out := Apply(s2, Receive(VICTIM)), VICTIM, Replied(STRAY_ANSWER);
  }
}
