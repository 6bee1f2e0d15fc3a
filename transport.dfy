/**
 * The SSH byte stream the core talks over, as a script. The remote side's
 * answers to successive reads are written down in advance: each is either a
 * chunk of data or a read error, and running out of script is a read error
 * too. Writes consult their own script of outcomes (an empty script means
 * every write succeeds) and every attempted write is logged in `sent`.
 */
module Transport {

  /** What one `Read` call returns: some data, or an error. */
  datatype ReadResult<T> = Data(bytes: seq<T>) | Fail

  /** The state of both directions of the stream. */
  datatype Wire<T> = Wire(incoming: seq<ReadResult<T>>, writeOutcomes: seq<bool>, sent: seq<seq<T>>)

  /** A read's result together with the stream after it. */
  datatype Received<T> = Received(result: ReadResult<T>, after: Wire<T>)

  /** A write's success together with the stream after it. */
  datatype Written<T> = Written(ok: bool, after: Wire<T>)

  function Weight<T>(r: ReadResult<T>): nat
  {
    match r
    case Data(b) => |b| + 1
    case Fail => 1
  }

  /** The size of a read script; every read into a non-empty buffer makes it smaller. */
  function Size<T>(script: seq<ReadResult<T>>): nat
  {
    if script == [] then 0 else Weight(script[0]) + Size(script[1..])
  }

  /** All the data a script delivers before its first error. */
  function StreamData<T>(script: seq<ReadResult<T>>): seq<T>
  {
    if script == [] then []
    else match script[0]
      case Fail => []
      case Data(b) => b + StreamData(script[1..])
  }

  /**
   * One `Read` into a buffer of `cap` items. A zero-length buffer returns no
   * data and no error without consuming anything (the SSH channel's reader
   * does so); otherwise the next scripted result is returned, and a chunk
   * longer than the buffer is cut, its remainder left for the next read.
   */
  function ReadWire<T>(w: Wire<T>, cap: nat): (r: Received<T>)
    ensures r.result.Data? ==> |r.result.bytes| <= cap
    ensures r.result.Data? ==> StreamData(w.incoming) == r.result.bytes + StreamData(r.after.incoming)
    ensures r.result.Fail? ==> StreamData(w.incoming) == []
    ensures cap > 0 ==> Size(r.after.incoming) < Size(w.incoming) || w.incoming == []
    ensures r.after.writeOutcomes == w.writeOutcomes && r.after.sent == w.sent
  {
    if cap == 0 then Received(Data([]), w)
    else if w.incoming == [] then Received(Fail, w)
    else
      var rest := w.incoming[1..];
      match w.incoming[0]
      case Fail => Received(Fail, w.(incoming := rest))
      case Data(b) =>
        if |b| <= cap then Received(Data(b), w.(incoming := rest))
        else
          var left := [Data(b[cap..])] + rest;
          assert left[1..] == rest;
          assert b == b[..cap] + b[cap..];
          Received(Data(b[..cap]), w.(incoming := left))
  }

  /**
   * One `Write` of `data`: it is logged whatever happens, and it succeeds
   * unless the next scripted outcome says otherwise.
   */
  function WriteWire<T>(w: Wire<T>, data: seq<T>): (r: Written<T>)
    ensures r.after.sent == w.sent + [data]
    ensures r.after.incoming == w.incoming
    ensures r.ok <==> w.writeOutcomes == [] || w.writeOutcomes[0]
    ensures r.after.writeOutcomes == if w.writeOutcomes == [] then [] else w.writeOutcomes[1..]
  {
    if w.writeOutcomes == [] then Written(true, w.(sent := w.sent + [data]))
    else Written(w.writeOutcomes[0], w.(writeOutcomes := w.writeOutcomes[1..], sent := w.sent + [data]))
  }

  /** An empty read script always fails: running out of script is a read error. */
  lemma ExhaustedFails<T>(w: Wire<T>, cap: nat)
    requires w.incoming == [] && cap > 0
    ensures ReadWire(w, cap) == Received(Fail, w)
  {
  }

  /** The two ends of an SSH session's pipes, updated in place by each read and write. */
  class Channel<T> {
    var incoming: seq<ReadResult<T>>
    var writeOutcomes: seq<bool>
    var sent: seq<seq<T>>

    function State(): Wire<T>
      reads this
    {
      Wire(incoming, writeOutcomes, sent)
    }

    constructor (w: Wire<T>)
      ensures State() == w
    {
      incoming := w.incoming;
      writeOutcomes := w.writeOutcomes;
      sent := w.sent;
    }

    /** `io.Reader.Read` into a buffer of `cap` items. */
    method Read(cap: nat) returns (r: ReadResult<T>)
      modifies this
      ensures Received(r, State()) == ReadWire(old(State()), cap)
    {
      var next := ReadWire(State(), cap);
      r := next.result;
      incoming := next.after.incoming;
    }

    /** `io.Writer.Write` of `data`. */
    method Write(data: seq<T>) returns (ok: bool)
      modifies this
      ensures Written(ok, State()) == WriteWire(old(State()), data)
    {
      var next := WriteWire(State(), data);
      ok := next.ok;
      writeOutcomes := next.after.writeOutcomes;
      sent := next.after.sent;
    }
  }
}
