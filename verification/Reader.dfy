/**
 The two ends of a transport: a chunked byte source that can fail, and an append-only sink.

 A source is observed in two ways. Operationally it is a script of steps, each a non-empty
 chunk or a failure, read through `fill_buf` and `consume`. Abstractly it is a `Tape`: the
 same bytes and failures with the chunk boundaries erased. Everything the framing layer
 promises is stated on the tape, so it holds for every chunking.
 */
module Reader {
  import opened Wrappers
  import opened Text

  /** `std::io::ErrorKind`, which is only ever passed along. */
  type IoKind = string

  /** The bytes up to the next failure or the end of the stream, and what stops them. */
  datatype Tape = Tape(run: bytes, stop: Stop)
  datatype Stop = Eof | Fault(kind: IoKind, after: Tape)

  const END: Tape := Tape([], Eof)

  /** `data` followed by `t`. */
  function Then(data: bytes, t: Tape): Tape {
    Tape(data + t.run, t.stop)
  }

  function Drop(t: Tape, n: nat): Tape
    requires n <= |t.run|
  {
    Tape(t.run[n..], t.stop)
  }

  lemma ThenThen(a: bytes, b: bytes, t: Tape)
    ensures Then(a, Then(b, t)) == Then(a + b, t)
  {
    assert a + (b + t.run) == a + b + t.run;
  }

  /** How much there is to read: one for each byte and each failure. */
  function Size(t: Tape): nat {
    |t.run| + match t.stop case Eof => 0 case Fault(_, after) => 1 + Size(after)
  }

  type Chunk = c: bytes | |c| > 0 witness [0]

  datatype Step = Data(chunk: Chunk) | Fail(kind: IoKind)

  function Flatten(steps: seq<Step>): Tape {
    if steps == [] then END
    else
      match steps[0]
      case Data(chunk) => Then(chunk, Flatten(steps[1..]))
      case Fail(kind) => Tape([], Fault(kind, Flatten(steps[1..])))
  }

  /** A source that plays a script and then stays at end of stream. */
  class ScriptedReader {
    var steps: seq<Step>

    constructor (steps: seq<Step>)
      ensures this.steps == steps
    {
      this.steps := steps;
    }

    ghost function Remaining(): Tape
      reads this
    {
      Flatten(steps)
    }

    /** `fill_buf`: the chunk at the front, `[]` at end of stream, or the failure at the front. */
    method FillBuf() returns (r: Result<bytes, IoKind>)
      modifies this
      ensures match r
              case Ok(chunk) =>
                && steps == old(steps)
                && chunk <= Remaining().run
                && (chunk == [] ==> Remaining() == END)
                && (chunk != [] ==> steps != [] && steps[0] == Data(chunk))
              case Err(kind) => old(Remaining()) == Tape([], Fault(kind, Remaining()))
    {
      if steps == [] {
        return Ok([]);
      }
      match steps[0]
      case Data(chunk) =>
        r := Ok(chunk);
      case Fail(kind) =>
        steps := steps[1..];
        r := Err(kind);
    }

    /** `consume(n)`: drop `n` bytes of the chunk at the front. */
    method Consume(n: nat)
      requires n == 0 || (steps != [] && steps[0].Data? && n <= |steps[0].chunk|)
      modifies this
      ensures n <= |old(Remaining()).run|
      ensures Remaining() == Drop(old(Remaining()), n)
    {
      if n > 0 {
        var chunk, rest := steps[0].chunk, steps[1..];
        if n == |chunk| {
          steps := rest;
        } else {
          steps := [Data(chunk[n..])] + rest;
          assert steps[1..] == rest;
        }
      }
    }
  }

  /** An append-only sink whose writes always succeed. */
  class ByteWriter {
    var written: bytes

    constructor ()
      ensures written == []
    {
      written := [];
    }

    method WriteAll(data: bytes)
      modifies this
      ensures written == old(written) + data
    {
      written := written + data;
    }
  }
}
