/** Newline-delimited framing (protocol/wire.go): what was written to a pipe and
    what is read from it, whatever the chunks. */
module Framing {
  import opened Wrappers
  import opened Wire

  newtype Byte = b: int | 0 <= b < 256

  const NL: Byte := 10

  datatype Pieces = Pieces(lines: seq<seq<Byte>>, tail: seq<Byte>)

  /** The newline-terminated segments, and what follows the last newline. */
  function Split(bytes: seq<Byte>): Pieces {
    if bytes == [] then Pieces([], [])
    else
      var p := Split(bytes[1..]);
      if bytes[0] == NL then Pieces([[]] + p.lines, p.tail)
      else if p.lines == [] then Pieces([], [bytes[0]] + p.tail)
      else Pieces([[bytes[0]] + p.lines[0]] + p.lines[1..], p.tail)
  }

  function Join(lines: seq<seq<Byte>>): seq<Byte> {
    if lines == [] then [] else lines[0] + [NL] + Join(lines[1..])
  }

  ghost predicate Clean(lines: seq<seq<Byte>>) {
    forall i | 0 <= i < |lines| :: NL !in lines[i]
  }

  lemma {:induction false} SplitLine(line: seq<Byte>, rest: seq<Byte>)
    requires NL !in line
    ensures Split(line + [NL] + rest) == Pieces([line] + Split(rest).lines, Split(rest).tail)
  {
    var bytes := line + [NL] + rest;
    if line == [] {
      assert bytes[1..] == rest;
    } else {
      assert bytes[0] == line[0] && line[0] in line;
      assert bytes[1..] == line[1..] + [NL] + rest;
      SplitLine(line[1..], rest);
      assert [line[0]] + line[1..] == line;
    }
  }

  lemma {:induction false} SplitTail(tail: seq<Byte>)
    requires NL !in tail
    ensures Split(tail) == Pieces([], tail)
  {
    if tail == [] {
    } else {
      assert tail[0] in tail;
      SplitTail(tail[1..]);
    }
  }

  /** Splitting undoes joining: the lines come back, in order, and the tail. */
  lemma {:induction false} SplitJoin(lines: seq<seq<Byte>>, tail: seq<Byte>)
    requires Clean(lines) && NL !in tail
    ensures Split(Join(lines) + tail) == Pieces(lines, tail)
  {
    if lines == [] {
      assert Join(lines) + tail == tail;
      SplitTail(tail);
    } else {
      assert Clean(lines[1..]);
      SplitJoin(lines[1..], tail);
      assert Join(lines) + tail == lines[0] + [NL] + (Join(lines[1..]) + tail);
      SplitLine(lines[0], Join(lines[1..]) + tail);
    }
  }

  lemma {:induction false} JoinSnoc(lines: seq<seq<Byte>>, line: seq<Byte>)
    ensures Join(lines + [line]) == Join(lines) + line + [NL]
  {
    if lines == [] {
      assert Join([line][1..]) == [];
    } else {
      assert (lines + [line])[1..] == lines[1..] + [line];
      JoinSnoc(lines[1..], line);
    }
  }

  // ----- Writing -----

  /** The request as it goes over the wire, under its ID. */
  datatype Envelope = Envelope(id: nat, req: Request)

  /** encoding/json, as far as framing goes: what can be encoded reads back,
      newlines are escaped (section 7 of RFC 8259), and an object cut short is not
      JSON. */
  datatype Codec = Codec(encode: Envelope -> Option<seq<Byte>>, decode: seq<Byte> -> Option<Envelope>) {
    ghost predicate Sound() {
      forall e :: encode(e).Some? ==> SoundFor(e, encode(e).value)
    }

    ghost predicate SoundFor(e: Envelope, text: seq<Byte>) {
      && text != [] && NL !in text && decode(text) == Some(e)
      && forall n | 0 <= n < |text| :: decode(text[..n]) == None
    }
  }

  ghost predicate Encodable(codec: Codec, log: seq<Envelope>) {
    forall i | 0 <= i < |log| :: codec.encode(log[i]).Some?
  }

  function Encoded(codec: Codec, log: seq<Envelope>): (lines: seq<seq<Byte>>)
    requires Encodable(codec, log)
    ensures |lines| == |log|
  {
    seq(|log|, i requires 0 <= i < |log| => codec.encode(log[i]).value)
  }

  lemma EncodedSnoc(codec: Codec, log: seq<Envelope>, e: Envelope)
    requires Encodable(codec, log) && codec.encode(e).Some?
    ensures Encodable(codec, log + [e])
    ensures Encoded(codec, log + [e]) == Encoded(codec, log) + [codec.encode(e).value]
    ensures Join(Encoded(codec, log + [e])) == Join(Encoded(codec, log)) + codec.encode(e).value + [NL]
  {
    assert Encoded(codec, log + [e]) == Encoded(codec, log) + [codec.encode(e).value];
    JoinSnoc(Encoded(codec, log), codec.encode(e).value);
  }

  /** What has gone into the pipe, and whether a write has failed. */
  datatype Pipe = Pipe(bytes: seq<Byte>, broken: bool)

  const EMPTY := Pipe([], false)

  /** `accepted` is how many bytes the pipe takes before it fails; once a write has
      failed, every later one fails. What does not encode is not written, and
      breaks nothing. */
  function Written(codec: Codec, pipe: Pipe, e: Envelope, accepted: nat): Pipe {
    match codec.encode(e)
    case None => pipe
    case Some(text) =>
      if pipe.broken then pipe
      else if accepted > |text| then Pipe(pipe.bytes + text + [NL], false)
      else Pipe(pipe.bytes + text[..accepted], true)
  }

  /** How a write ends. `AllButEnd`: it fails at the newline alone. */
  datatype WriteResult = Done | AllButEnd | Failed | NotEncoded

  function ResultOf(codec: Codec, pipe: Pipe, e: Envelope, accepted: nat): WriteResult {
    match codec.encode(e)
    case None => NotEncoded
    case Some(text) =>
      if pipe.broken || accepted < |text| then Failed
      else if accepted == |text| then AllButEnd
      else Done
  }

  /** What follows the last newline: nothing, a request that lacks only its own,
      or one cut short. */
  datatype Tail = Nothing | Unended(e: Envelope) | Cut(bytes: seq<Byte>)

  /** `ended` are the requests whose lines went out whole. */
  ghost predicate Holds(codec: Codec, pipe: Pipe, ended: seq<Envelope>, tail: Tail) {
    && Encodable(codec, ended) && (tail.Nothing? || pipe.broken)
    && match tail
       case Nothing => pipe.bytes == Join(Encoded(codec, ended))
       case Unended(e) => codec.encode(e).Some? && pipe.bytes == Join(Encoded(codec, ended)) + codec.encode(e).value
       case Cut(bytes) =>
         && pipe.bytes == Join(Encoded(codec, ended)) + bytes
         && bytes != [] && NL !in bytes && codec.decode(bytes) == None
  }

  /** Every request that went out but perhaps for its newline. */
  function Asked(ended: seq<Envelope>, tail: Tail): seq<Envelope> {
    if tail.Unended? then ended + [tail.e] else ended
  }

  function TailAfter(codec: Codec, pipe: Pipe, tail: Tail, e: Envelope, accepted: nat): Tail {
    if pipe.broken then tail
    else
      match ResultOf(codec, pipe, e, accepted)
      case AllButEnd => Unended(e)
      case Failed =>
        if codec.encode(e).Some? && 0 < accepted <= |codec.encode(e).value| then Cut(codec.encode(e).value[..accepted])
        else Nothing
      case _ => Nothing
  }

  lemma WrittenHolds(codec: Codec, pipe: Pipe, ended: seq<Envelope>, tail: Tail, e: Envelope, accepted: nat)
    requires codec.Sound() && Holds(codec, pipe, ended, tail)
    ensures var result := ResultOf(codec, pipe, e, accepted);
            && Holds(codec, Written(codec, pipe, e, accepted), if result.Done? then ended + [e] else ended,
                     TailAfter(codec, pipe, tail, e, accepted))
  {
    if codec.encode(e).Some? {
      var text := codec.encode(e).value;
      assert codec.SoundFor(e, text);
      EncodedSnoc(codec, ended, e);
      assert !pipe.broken && accepted == |text| ==> text[..accepted] == text;
      if accepted == 0 {
        assert pipe.bytes + text[..0] == pipe.bytes;
      }
    }
  }

  /** The write end of the worker's pipe. writeRequest holds writeMu, so calls of
      WriteRequest follow one another; `ended` is their order. */
  class Stdin {
    var bytes: seq<Byte>
    var broken: bool
    ghost var ended: seq<Envelope>
    ghost var tail: Tail

    function Abs(): Pipe
      reads this
    {
      Pipe(bytes, broken)
    }

    ghost predicate Valid(codec: Codec)
      reads this
    {
      Holds(codec, Abs(), ended, tail)
    }

    constructor (codec: Codec)
      ensures Valid(codec) && Abs() == EMPTY && ended == [] && tail == Nothing
    {
      bytes, broken, ended, tail := [], false, [], Nothing;
    }

    method WriteRequest(codec: Codec, e: Envelope, accepted: nat) returns (ok: bool)
      requires codec.Sound() && Valid(codec)
      modifies this
      ensures Valid(codec) && Abs() == Written(codec, old(Abs()), e, accepted)
      ensures ok <==> ResultOf(codec, old(Abs()), e, accepted) == Done
      ensures ok <==> codec.encode(e).Some? && !old(broken) && accepted > |codec.encode(e).value|
      ensures broken <==> old(broken) || (codec.encode(e).Some? && !ok)
      ensures ok ==> bytes == old(bytes) + codec.encode(e).value + [NL]
      ensures old(broken) || codec.encode(e).None? ==> bytes == old(bytes)
      ensures ended == if ok then old(ended) + [e] else old(ended)
      ensures Asked(ended, tail)
           == if ResultOf(codec, old(Abs()), e, accepted) in {Done, AllButEnd} then old(Asked(ended, tail)) + [e]
              else old(Asked(ended, tail))
    {
      WrittenHolds(codec, Abs(), ended, tail, e, accepted);
      ghost var result, after := ResultOf(codec, Abs(), e, accepted), TailAfter(codec, Abs(), tail, e, accepted);
      var encoded := codec.encode(e);
      if encoded.None? || broken {
        return false;
      }
      var line := encoded.value + [NL];
      if accepted >= |line| {
        bytes := bytes + line;
        ended := ended + [e];
        ok := true;
      } else {
        assert line[..accepted] == encoded.value[..accepted];
        bytes := bytes + line[..accepted];
        broken := true;
        ok := false;
      }
      tail := after;
    }
  }

  /** What Node's readline gives when stdin ends: the lines, and the rest as one
      more if there is any. */
  function NodeLines(bytes: seq<Byte>): seq<seq<Byte>> {
    var p := Split(bytes);
    if p.tail == [] then p.lines else p.lines + [p.tail]
  }

  /** Whoever reads the pipe to its end finds exactly the requests that went out but
      perhaps for the last one's newline, IDs included, in lock order, and after
      them at most one line, which does not decode. */
  lemma StdinFrames(codec: Codec, pipe: Pipe, ended: seq<Envelope>, tail: Tail)
    requires codec.Sound() && Holds(codec, pipe, ended, tail)
    ensures var lines, asked := NodeLines(pipe.bytes), Asked(ended, tail);
            && |asked| <= |lines| <= |asked| + 1
            && (forall i | 0 <= i < |asked| :: codec.decode(lines[i]) == Some(asked[i]))
            && (|lines| > |asked| ==> codec.decode(lines[|asked|]) == None)
    ensures Split(pipe.bytes).lines == Encoded(codec, ended)
  {
    var lines := Encoded(codec, ended);
    forall i | 0 <= i < |lines| ensures NL !in lines[i] && codec.decode(lines[i]) == Some(ended[i]) {
      assert codec.SoundFor(ended[i], lines[i]);
    }
    match tail
    case Nothing =>
      assert Join(lines) + [] == Join(lines);
      SplitJoin(lines, []);
    case Unended(e) =>
      assert codec.SoundFor(e, codec.encode(e).value);
      SplitJoin(lines, codec.encode(e).value);
    case Cut(bytes) => SplitJoin(lines, bytes);
  }

  // ----- Reading -----

  function Flatten(chunks: seq<seq<Byte>>): seq<Byte> {
    if chunks == [] then [] else chunks[0] + Flatten(chunks[1..])
  }

  /** A buffered reader over a stream that arrives in chunks and then ends. */
  class LineReader {
    var buf: seq<Byte>
    var chunks: seq<seq<Byte>>

    function Stream(): seq<Byte>
      reads this
    {
      buf + Flatten(chunks)
    }

    /** Up to and including the next newline; what is left of the stream, and
        failure, when there is none. */
    method ReadBytes() returns (line: seq<Byte>, ok: bool)
      modifies this
      ensures ok ==> old(Stream()) == line + [NL] + Stream() && NL !in line
      ensures !ok ==> line == old(Stream()) && NL !in line && Stream() == []
    {
      var scanned := 0;
      while true
        invariant 0 <= scanned <= |buf| && NL !in buf[..scanned]
        invariant Stream() == old(Stream())
        decreases |chunks|, |buf| - scanned
      {
        if scanned < |buf| {
          if buf[scanned] == NL {
            line, ok := buf[..scanned], true;
            assert buf == line + [NL] + buf[scanned + 1..];
            assert Stream() == line + [NL] + (buf[scanned + 1..] + Flatten(chunks));
            buf := buf[scanned + 1..];
            return;
          }
          assert buf[..scanned + 1] == buf[..scanned] + [buf[scanned]];
          scanned := scanned + 1;
        } else if chunks == [] {
          assert buf[..scanned] == buf;
          line, ok := buf, false;
          buf := [];
          return;
        } else {
          assert (buf + chunks[0])[..scanned] == buf[..scanned];
          assert buf + Flatten(chunks) == buf + chunks[0] + Flatten(chunks[1..]);
          buf, chunks := buf + chunks[0], chunks[1..];
        }
      }
    }
  }

  // ----- A reader part of the way through -----

  /** `seen` are the lines taken off the stream so far, `rest` is still to come. */
  ghost predicate IsSeen(stream: seq<Byte>, seen: seq<seq<Byte>>, rest: seq<Byte>) {
    Clean(seen) && stream == Join(seen) + rest
  }

  lemma AtStart(stream: seq<Byte>)
    ensures IsSeen(stream, [], stream)
  {
    assert Join([]) + stream == stream;
  }

  lemma OneMore(stream: seq<Byte>, seen: seq<seq<Byte>>, line: seq<Byte>, rest: seq<Byte>)
    requires IsSeen(stream, seen, line + [NL] + rest) && NL !in line
    ensures IsSeen(stream, seen + [line], rest)
  {
    JoinSnoc(seen, line);
    assert Join(seen) + (line + [NL] + rest) == Join(seen) + line + [NL] + rest;
  }

  lemma AtEnd(stream: seq<Byte>, seen: seq<seq<Byte>>, tail: seq<Byte>)
    requires IsSeen(stream, seen, tail) && NL !in tail
    ensures Split(stream).lines == seen
  {
    SplitJoin(seen, tail);
  }
}
