/** The stdin of Protocol is what the bytes of Framing carry: writeRequest is the
    protocol's write step, and every line on the pipe names its caller. */
module Pipes {
  import opened Wrappers
  import opened Framing
  import opened Protocol

  function Envelopes(stdin: seq<Sent>): (log: seq<Envelope>)
    ensures |log| == |stdin|
  {
    seq(|stdin|, k requires 0 <= k < |stdin| => Envelope(stdin[k].id, stdin[k].req))
  }

  /** The pipe holds what the protocol says is on stdin. */
  ghost predicate Carries(codec: Codec, pipe: Pipe, ended: seq<Envelope>, tail: Tail, s: State) {
    Holds(codec, pipe, ended, tail) && Asked(ended, tail) == Envelopes(s.stdin) && pipe.broken == s.broken
  }

  function EnvelopeOf(s: State, c: nat): Envelope
    requires c < |s.calls|
  {
    Envelope(s.calls[c].id, s.calls[c].req)
  }

  function StepOf(c: nat, result: WriteResult): Step {
    match result
    case Done => Write(c)
    case AllButEnd => FailWrite(c, true)
    case Failed => FailWrite(c, false)
    case NotEncoded => FailEncode(c)
  }

  /** However a write goes, it is one of the protocol's steps of this caller. */
  lemma WriteIsStep(
    codec: Codec, pipe: Pipe, ended: seq<Envelope>, tail: Tail, s: State, c: nat, accepted: nat)
    returns (ended': seq<Envelope>, tail': Tail)
    requires codec.Sound() && Carries(codec, pipe, ended, tail, s) && At(s, c, Registered)
    ensures var step := StepOf(c, ResultOf(codec, pipe, EnvelopeOf(s, c), accepted));
            && Enabled(s, step)
            && Carries(codec, Written(codec, pipe, EnvelopeOf(s, c), accepted), ended', tail', Apply(s, step))
  {
    var e := EnvelopeOf(s, c);
    var result := ResultOf(codec, pipe, e, accepted);
    WrittenHolds(codec, pipe, ended, tail, e, accepted);
    ended' := if result.Done? then ended + [e] else ended;
    tail' := TailAfter(codec, pipe, tail, e, accepted);
    var stdin := Apply(s, StepOf(c, result)).stdin;
    if result.Done? || result.AllButEnd? {
      assert Envelopes(stdin) == Envelopes(s.stdin) + [e];
    }
  }

  /** So it is for the worker's own pipe. */
  method WriteStep(codec: Codec, pipe: Stdin, ghost s: State, c: nat, e: Envelope, accepted: nat)
    returns (ok: bool, ghost step: Step)
    requires codec.Sound() && Carries(codec, pipe.Abs(), pipe.ended, pipe.tail, s)
    requires At(s, c, Registered) && e == EnvelopeOf(s, c)
    modifies pipe
    ensures step in {Write(c), FailWrite(c, true), FailWrite(c, false), FailEncode(c)} && Enabled(s, step)
    ensures Carries(codec, pipe.Abs(), pipe.ended, pipe.tail, Apply(s, step)) && ok == step.Write?
  {
    step := StepOf(c, ResultOf(codec, pipe.Abs(), e, accepted));
    ghost var ended, tail := WriteIsStep(codec, pipe.Abs(), pipe.ended, pipe.tail, s, c, accepted);
    ok := pipe.WriteRequest(codec, e, accepted);
    assert step.Write? || step == FailWrite(c, true) ==>
        Envelopes(Apply(s, step).stdin) == Envelopes(s.stdin) + [e];
  }

  /** The caller that writes in a step. */
  function Writer(step: Step): Option<nat> {
    match step
    case Write(c) => Some(c)
    case FailWrite(c, _) => Some(c)
    case FailEncode(c) => Some(c)
    case _ => None
  }

  /** A step of the protocol, and how many bytes the pipe takes if it is a write. */
  datatype Move = Move(step: Step, accepted: nat)

  /** The move's step can be taken, and is how the write ends, if it is one. */
  ghost predicate Fits(codec: Codec, pipe: Pipe, s: State, move: Move) {
    && Enabled(s, move.step)
    && (Writer(move.step).Some? ==>
          var c := Writer(move.step).value;
          move.step == StepOf(c, ResultOf(codec, pipe, EnvelopeOf(s, c), move.accepted)))
  }

  function PipeAfter(codec: Codec, pipe: Pipe, s: State, move: Move): Pipe
    requires Enabled(s, move.step)
  {
    match Writer(move.step)
    case None => pipe
    case Some(c) => Written(codec, pipe, EnvelopeOf(s, c), move.accepted)
  }

  /** The moves lead from one state, of bytes and of protocol, to the other. */
  ghost predicate Plays(codec: Codec, pipe: Pipe, s: State, moves: seq<Move>, pipe': Pipe, t: State)
    decreases |moves|
  {
    if moves == [] then pipe == pipe' && s == t
    else
      && Fits(codec, pipe, s, moves[0])
      && Plays(codec, PipeAfter(codec, pipe, s, moves[0]), Apply(s, moves[0].step), moves[1..], pipe', t)
  }

  lemma MoveCarries(codec: Codec, pipe: Pipe, ended: seq<Envelope>, tail: Tail, s: State, move: Move)
    returns (ended': seq<Envelope>, tail': Tail)
    requires codec.Sound() && Carries(codec, pipe, ended, tail, s) && Fits(codec, pipe, s, move)
    ensures Carries(codec, PipeAfter(codec, pipe, s, move), ended', tail', Apply(s, move.step))
  {
    match Writer(move.step)
    case None => ended', tail' := ended, tail;
    case Some(c) => ended', tail' := WriteIsStep(codec, pipe, ended, tail, s, c, move.accepted);
  }

  function Steps(moves: seq<Move>): (steps: seq<Step>)
    ensures |steps| == |moves|
  {
    if moves == [] then [] else [moves[0].step] + Steps(moves[1..])
  }

  lemma {:induction false} PlayCarries(
    codec: Codec, pipe: Pipe, ended: seq<Envelope>, tail: Tail, s: State, moves: seq<Move>, pipe': Pipe, t: State)
    returns (ended': seq<Envelope>, tail': Tail)
    requires codec.Sound() && Carries(codec, pipe, ended, tail, s) && Plays(codec, pipe, s, moves, pipe', t)
    ensures Carries(codec, pipe', ended', tail', t) && Reaches(s, Steps(moves), t)
    decreases |moves|
  {
    if moves == [] {
      ended', tail' := ended, tail;
    } else {
      var mid, s' := PipeAfter(codec, pipe, s, moves[0]), Apply(s, moves[0].step);
      ended', tail' := MoveCarries(codec, pipe, ended, tail, s, moves[0]);
      ended', tail' := PlayCarries(codec, mid, ended', tail', s', moves[1..], pipe', t);
      assert Steps(moves)[1..] == Steps(moves[1..]);
    }
  }

  lemma StdinPart(s: State)
    requires Reachable(s) && |s.calls| <= TWO_TO_53
    ensures StdinInv(s)
  {
    ReachableInv(s);
  }

  /** Line `i`, as Node reads it, carries the ID and the request of call `c`. */
  ghost predicate Names(codec: Codec, lines: seq<seq<Byte>>, s: State, i: nat, c: nat) {
    i < |lines| && c < |s.calls| && codec.decode(lines[i]) == Some(Envelope(c + 1, s.calls[c].req))
  }

  /** Over every interleaving, whatever line Node reads off the pipe, an unended last
      one included, carries the ID and the request of one caller, or is the last
      and does not decode; and no two lines carry the same ID. */
  lemma LinesNameCallers(codec: Codec, moves: seq<Move>, pipe: Pipe, s: State)
    requires codec.Sound() && Plays(codec, EMPTY, INIT, moves, pipe, s) && |s.calls| <= TWO_TO_53
    ensures var lines := NodeLines(pipe.bytes);
            && |s.stdin| <= |lines| <= |s.stdin| + 1
            && (forall k | 0 <= k < |s.stdin| :: Names(codec, lines, s, k, s.stdin[k].call))
            && (|lines| > |s.stdin| ==> codec.decode(lines[|s.stdin|]) == None)
            && (forall j, k | 0 <= j < k < |s.stdin| :: s.stdin[j].call != s.stdin[k].call)
  {
    assert Carries(codec, EMPTY, [], Nothing, INIT);
    var ended, tail := PlayCarries(codec, EMPTY, [], Nothing, INIT, moves, pipe, s);
    assert Reachable(s);
    StdinFrames(codec, pipe, ended, tail);
    StdinPart(s);
    forall k | 0 <= k < |s.stdin| ensures Names(codec, NodeLines(pipe.bytes), s, k, s.stdin[k].call) {
      assert Asked(ended, tail)[k] == Envelope(s.stdin[k].id, s.stdin[k].req);
    }
  }
}
