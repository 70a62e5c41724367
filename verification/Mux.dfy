/** The state that worker.go shares between callers and the reader goroutine:
    the ID counter, the pending map and the reply channels. */
module Mux {
  import opened Wrappers
  import opened Wire

  /** Where a response came from: Node's answer to a call, a line that answers
      none, or the drain. The code never looks at it. */
  datatype Origin = AnswerTo(call: nat) | NoCall | Drained

  datatype Message = Message(resp: Response, origin: Origin)

  /** Calls are numbered as they ask for an ID; `pending` maps an ID to the call
      whose channel is registered under it, `chans` holds each call's channel. */
  datatype State = State(nextID: nat, pending: map<nat, nat>, chans: seq<seq<Message>>)

  /** A non-blocking send to a channel of capacity one. */
  function Offer(chan: seq<Message>, m: Message): seq<Message> {
    if |chan| < 1 then chan + [m] else chan
  }

  function NewCall(s: State): State {
    s.(nextID := (s.nextID + 1) % TWO_TO_64, chans := s.chans + [[]])
  }

  function Register(s: State, id: nat, call: nat): State {
    s.(pending := s.pending[id := call])
  }

  function Deregister(s: State, id: nat): State {
    s.(pending := s.pending - {id})
  }

  function Send(s: State, call: nat, m: Message): State
    requires call < |s.chans|
  {
    s.(chans := s.chans[call := Offer(s.chans[call], m)])
  }

  function Receive(s: State, call: nat): State
    requires call < |s.chans| && |s.chans[call]| > 0
  {
    s.(chans := s.chans[call := s.chans[call][1..]])
  }

  ghost predicate InRange(s: State) {
    forall id | id in s.pending :: s.pending[id] < |s.chans|
  }

  function DrainOne(s: State, id: nat, m: Message): State
    requires InRange(s) && id in s.pending
  {
    Deregister(Send(s, s.pending[id], m), id)
  }

  /** The whole drain: every registered channel is offered the message. */
  function DrainAll(s: State, m: Message): State {
    State(s.nextID, map[], seq(|s.chans|, c requires 0 <= c < |s.chans| =>
      if c in s.pending.Values then Offer(s.chans[c], m) else s.chans[c]))
  }

  /** Look-up and send, as the reader does with each line that decodes. */
  function Dispatch(s: State, m: Message): State
    requires InRange(s)
  {
    if m.resp.id in s.pending then Send(s, s.pending[m.resp.id], m) else s
  }

  function DrainMessage(cause: Option<string>): Message {
    Message(Failed(0, if cause.Some? then "reading node stdout: " + cause.value else "worker exited"), Drained)
  }

  /** Draining one by one, in whatever order, is the whole drain. */
  lemma DrainOneThenAll(s: State, id: nat, m: Message)
    requires InRange(s) && id in s.pending
    ensures DrainAll(DrainOne(s, id, m), m) == DrainAll(s, m)
  {
    var s' := DrainOne(s, id, m);
    forall c | 0 <= c < |s.chans| ensures DrainAll(s', m).chans[c] == DrainAll(s, m).chans[c] {
      if c in s.pending.Values && c !in s'.pending.Values {
        var other :| other in s.pending && s.pending[other] == c;
        assert other !in s'.pending;
      }
    }
  }

  lemma NothingToDrain(s: State, m: Message)
    requires s.pending == map[]
    ensures DrainAll(s, m) == s
  {}
}
