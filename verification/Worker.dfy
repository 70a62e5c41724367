/** The worker of worker.go in its own form: a pending map that is inserted into
    and deleted from, reply channels shared by reference, loops that dispatch and
    drain. Each method is tied to the function of Mux it carries out. */
module WorkerProcess {
  import opened Wrappers
  import Framing
  import Mux

  class PendingCall {
    ghost const number: nat
    var resp: seq<Mux.Message>

    constructor (ghost number: nat)
      ensures this.number == number && resp == []
    {
      this.number := number;
      resp := [];
    }

    method Offer(m: Mux.Message)
      modifies this
      ensures resp == Mux.Offer(old(resp), m)
    {
      if |resp| < 1 {
        resp := resp + [m];
      }
    }
  }

  ghost function Chans(calls: seq<PendingCall>): (chans: seq<seq<Mux.Message>>)
    reads calls
    ensures |chans| == |calls|
  {
    seq(|calls|, c requires 0 <= c < |calls| reads calls => calls[c].resp)
  }

  class Worker {
    var nextID: nat
    var pending: map<nat, PendingCall>
    var readErr: Option<string>
    var done: bool
    ghost var calls: seq<PendingCall>

    ghost predicate Known(call: PendingCall)
      reads `calls
    {
      call.number < |calls| && calls[call.number] == call
    }

    ghost predicate Valid()
      reads `calls, `pending
    {
      && (forall c | 0 <= c < |calls| :: calls[c].number == c)
      && (forall id | id in pending :: Known(pending[id]))
    }

    ghost function Abs(): (s: Mux.State)
      reads `nextID, `pending, `calls, calls, pending.Values
      requires Valid()
      ensures Mux.InRange(s)
    {
      Mux.State(nextID, map id | id in pending :: pending[id].number, Chans(calls))
    }

    constructor ()
      ensures Valid() && Abs() == Mux.State(0, map[], []) && !done && calls == []
    {
      nextID, pending, readErr, done, calls := 0, map[], None, false, [];
    }

    /** A fresh ID and a fresh reply channel. */
    method NewCall() returns (id: nat, call: PendingCall)
      requires Valid()
      modifies this`nextID, this`calls
      ensures Valid() && fresh(call) && Known(call) && calls == old(calls) + [call] && id == nextID
      ensures Abs() == Mux.NewCall(old(Abs()))
    {
      nextID := (nextID + 1) % TWO_TO_64;
      id := nextID;
      call := new PendingCall(|calls|);
      calls := calls + [call];
    }

    method Register(id: nat, call: PendingCall)
      requires Valid() && Known(call)
      modifies this`pending
      ensures Valid() && Abs() == Mux.Register(old(Abs()), id, call.number)
    {
      pending := pending[id := call];
    }

    method Deregister(id: nat)
      requires Valid()
      modifies this`pending
      ensures Valid() && Abs() == Mux.Deregister(old(Abs()), id)
    {
      pending := pending - {id};
    }

    method Dispatch(m: Mux.Message)
      requires Valid()
      modifies calls
      ensures Valid() && Abs() == Mux.Dispatch(old(Abs()), m)
    {
      if m.resp.id in pending {
        pending[m.resp.id].Offer(m);
      }
    }

    method DrainOne(id: nat, m: Mux.Message)
      requires Valid() && id in pending
      modifies this`pending, pending[id]
      ensures Valid() && pending == old(pending) - {id}
      ensures Abs() == Mux.DrainOne(old(Abs()), id, m)
    {
      pending[id].Offer(m);
      pending := pending - {id};
    }

    /** Ranges over the map in any order, deleting as it goes. */
    method DrainPending(cause: Option<string>)
      requires Valid()
      modifies this`pending, calls
      ensures Valid() && Abs() == Mux.DrainAll(old(Abs()), Mux.DrainMessage(cause))
    {
      var m := Mux.DrainMessage(cause);
      while pending != map[]
        invariant Valid()
        invariant Mux.DrainAll(Abs(), m) == Mux.DrainAll(old(Abs()), m)
        decreases |pending|
      {
        var id :| id in pending;
        Mux.DrainOneThenAll(Abs(), id, m);
        DrainOne(id, m);
      }
      Mux.NothingToDrain(Abs(), m);
    }

    /** The caller's receive, when its channel is ready. */
    method Receive(call: PendingCall) returns (m: Mux.Message)
      requires Valid() && Known(call) && |call.resp| > 0
      modifies call
      ensures Valid() && m == old(call.resp)[0]
      ensures Abs() == Mux.Receive(old(Abs()), call.number)
    {
      m := call.resp[0];
      call.resp := call.resp[1..];
    }

    /** One line off the pipe: dispatched if it decodes, skipped if not. */
    method HandleLine(decode: Decoder, line: seq<Framing.Byte>)
      requires Valid()
      modifies calls
      ensures Valid() && Abs() == Handled(old(Abs()), decode, line)
    {
      var m := decode(line);
      if m.Some? {
        Dispatch(m.value);
      }
    }

    /** One turn of the read loop: the next line is handled, or the stream ends. */
    method HandleNext(r: Framing.LineReader, decode: Decoder) returns (ok: bool, ghost line: seq<Framing.Byte>)
      requires Valid()
      modifies calls, r
      ensures Valid() && Framing.NL !in line
      ensures ok ==> old(r.Stream()) == line + [Framing.NL] + r.Stream() && Abs() == Handled(old(Abs()), decode, line)
      ensures !ok ==> old(r.Stream()) == line && r.Stream() == [] && Abs() == old(Abs())
    {
      var bytes;
      bytes, ok := r.ReadBytes();
      line := bytes;
      if ok {
        HandleLine(decode, bytes);
      }
    }

    /** Every line up to the end of the stream, and no truncated tail. */
    method HandleLines(r: Framing.LineReader, decode: Decoder)
      requires Valid()
      modifies calls, r
      ensures Valid() && r.Stream() == []
      ensures Abs() == HandledAll(old(Abs()), decode, Framing.Split(old(r.Stream())).lines)
    {
      ghost var stream, start := r.Stream(), Abs();
      ghost var seen: seq<seq<Framing.Byte>> := [];
      Framing.AtStart(stream);
      var ok := true;
      while ok
        invariant Valid()
        invariant ok ==> Framing.IsSeen(stream, seen, r.Stream())
        invariant !ok ==> r.Stream() == [] && Framing.Split(stream).lines == seen
        invariant Abs() == HandledAll(start, decode, seen)
        decreases ok, |r.Stream()|
      {
        ghost var line;
        ok, line := HandleNext(r, decode);
        if ok {
          Framing.OneMore(stream, seen, line, r.Stream());
          HandledSnoc(start, decode, seen, line);
          seen := seen + [line];
        } else {
          Framing.AtEnd(stream, seen, line);
        }
      }
    }

    /** The reader goroutine, run on its own: handles the lines, drains, and only
        then closes `done`. `failure` is the read error at the end of the stream,
        absent for a plain end of file. */
    method ReadLoop(r: Framing.LineReader, decode: Decoder, failure: Option<string>)
      requires Valid() && !done
      modifies this`pending, this`readErr, this`done, calls, r
      ensures Valid() && done && readErr == failure && r.Stream() == []
      ensures var lines := Framing.Split(old(r.Stream())).lines;
              Abs() == Mux.DrainAll(HandledAll(old(Abs()), decode, lines), Mux.DrainMessage(failure))
    {
      HandleLines(r, decode);
      readErr := failure;
      DrainPending(failure);
      done := true;
    }

    method Alive() returns (alive: bool)
      ensures alive == !done
    {
      alive := !done;
    }
  }

  /** json.Unmarshal of one line; the tag in a message is the decoder's to give. */
  type Decoder = seq<Framing.Byte> -> Option<Mux.Message>

  function Handled(s: Mux.State, decode: Decoder, line: seq<Framing.Byte>): (s': Mux.State)
    requires Mux.InRange(s)
    ensures Mux.InRange(s')
  {
    var m := decode(line);
    if m.Some? then Mux.Dispatch(s, m.value) else s
  }

  function HandledAll(s: Mux.State, decode: Decoder, lines: seq<seq<Framing.Byte>>): (s': Mux.State)
    requires Mux.InRange(s)
    ensures Mux.InRange(s')
  {
    if lines == [] then s else Handled(HandledAll(s, decode, lines[..|lines| - 1]), decode, lines[|lines| - 1])
  }

  /** A reply under ID `id`. */
  predicate Names(decode: Decoder, line: seq<Framing.Byte>, id: nat) {
    decode(line).Some? && decode(line).value.resp.id == id
  }

  ghost predicate FirstNaming(decode: Decoder, lines: seq<seq<Framing.Byte>>, id: nat, i: nat) {
    i < |lines| && Names(decode, lines[i], id) && forall j | 0 <= j < i :: !Names(decode, lines[j], id)
  }

  /** A waiting call's channel ends up with the first reply under its ID, later
      ones dropped, and stays empty exactly if there is none. */
  lemma {:induction false} FirstReplyWins(s: Mux.State, decode: Decoder, lines: seq<seq<Framing.Byte>>, id: nat)
    requires Mux.InRange(s) && id in s.pending && s.chans[s.pending[id]] == []
    requires forall other | other in s.pending && other != id :: s.pending[other] != s.pending[id]
    ensures var s' := HandledAll(s, decode, lines);
            && s'.pending == s.pending && |s'.chans| == |s.chans|
            && (s'.chans[s.pending[id]] == [] <==> forall i | 0 <= i < |lines| :: !Names(decode, lines[i], id))
            && (s'.chans[s.pending[id]] != [] ==>
                  exists i: nat :: FirstNaming(decode, lines, id, i)
                                    && s'.chans[s.pending[id]] == [decode(lines[i]).value])
  {
    if lines == [] {
    } else {
      var n, c := |lines| - 1, s.pending[id];
      var before, line := lines[..n], lines[n];
      FirstReplyWins(s, decode, before, id);
      var mid, s' := HandledAll(s, decode, before), HandledAll(s, decode, lines);
      assert forall i | 0 <= i < n :: before[i] == lines[i];
      if mid.chans[c] == [] {
        if Names(decode, line, id) {
          assert FirstNaming(decode, lines, id, n);
        }
      } else {
        var i: nat :| FirstNaming(decode, before, id, i) && mid.chans[c] == [decode(before[i]).value];
        assert FirstNaming(decode, lines, id, i) && s'.chans[c] == mid.chans[c];
      }
    }
  }

  lemma HandledSnoc(s: Mux.State, decode: Decoder, lines: seq<seq<Framing.Byte>>, line: seq<Framing.Byte>)
    requires Mux.InRange(s)
    ensures HandledAll(s, decode, lines + [line]) == Handled(HandledAll(s, decode, lines), decode, line)
  {
    assert (lines + [line])[..|lines|] == lines;
  }
}
