/**
 * util.go: reading the HSM shell's output up to its prompt, and splitting a
 * transcript into its first or last line and the rest.
 */
module PromptReader {
  import opened GoStrings
  import opened Transport

  /** The shell prompt that ends every transcript. */
  const Prompt: string := "lunash:>"

  /** The size of the buffer each read fills. */
  const ChunkSize: nat := 1024

  /** A line taken off a text, and what remains of the text. */
  datatype LineSplit = LineSplit(line: string, rest: string)

  /**
   * `lastLine`: the text after the last newline, without one trailing carriage
   * return, and the text before that newline, untouched. A text without a
   * newline is all last line and leaves nothing.
   */
  function LastLine(s: string): (r: LineSplit)
    ensures var k := LastIndex(s, '\n');
      && (k < |s| ==> r.rest == s[..k] && r.line == TrimSuffix(s[k + 1..], "\r"))
      && (k == |s| ==> r.rest == "" && r.line == TrimSuffix(s, "\r"))
    ensures Free(r.line, '\n')
  {
    var lines := Split(s, '\n');
    LastLineCut(s, lines);
    LineSplit(TrimSuffix(lines[|lines| - 1], "\r"), Join(lines[..|lines| - 1], '\n'))
  }

  lemma LastLineCut(s: string, lines: seq<string>)
    requires lines == Split(s, '\n')
    ensures var k := LastIndex(s, '\n'); var line := TrimSuffix(lines[|lines| - 1], "\r");
      && (k < |s| ==> Join(lines[..|lines| - 1], '\n') == s[..k] && line == TrimSuffix(s[k + 1..], "\r"))
      && (k == |s| ==> Join(lines[..|lines| - 1], '\n') == "" && line == TrimSuffix(s, "\r"))
      && Free(line, '\n')
  {
    var last := lines[|lines| - 1];
    FreePrefix(last, '\n', |TrimSuffix(last, "\r")|);
    if LastIndex(s, '\n') == |s| {
      LastLineWhole(s, lines);
    } else {
      LastLineInner(s, lines);
    }
  }

  lemma LastLineWhole(s: string, lines: seq<string>)
    requires lines == Split(s, '\n') && LastIndex(s, '\n') == |s|
    ensures lines == [s] && Free(lines[|lines| - 1], '\n')
  {
    SplitLast(s, '\n');
  }

  lemma LastLineInner(s: string, lines: seq<string>)
    requires lines == Split(s, '\n') && LastIndex(s, '\n') < |s|
    ensures var k := LastIndex(s, '\n');
      Join(lines[..|lines| - 1], '\n') == s[..k] && lines[|lines| - 1] == s[k + 1..] && Free(lines[|lines| - 1], '\n')
  {
    SplitLast(s, '\n');
  }

  /**
   * `firstLine`: the text before the first newline, without one trailing
   * carriage return, and the text after that newline, untouched. A text
   * without a newline is all first line and leaves nothing.
   */
  function FirstLine(s: string): (r: LineSplit)
    ensures var k := Index(s, '\n');
      && (k < |s| ==> r.rest == s[k + 1..] && r.line == TrimSuffix(s[..k], "\r"))
      && (k == |s| ==> r.rest == "" && r.line == TrimSuffix(s, "\r"))
    ensures Free(r.line, '\n')
  {
    var lines := Split(s, '\n');
    var first := lines[0];
    var rest := Join(lines[1..], '\n');
    SplitFirst(s, '\n');
    var line := TrimSuffix(first, "\r");
    FreePrefix(first, '\n', |line|);
    LineSplit(line, rest)
  }

  /** The first piece of `Split` precedes the first separator, and the others join up to what follows it. */
  lemma SplitFirst<T>(s: seq<T>, d: T)
    ensures var parts := Split(s, d); var k := Index(s, d);
      && Free(parts[0], d)
      && (k < |s| ==> parts[0] == s[..k] && Join(parts[1..], d) == s[k + 1..])
      && (k == |s| ==> parts == [s])
  {
    var k := Index(s, d);
    if k == |s| {
      assert s[..k] == s;
    } else {
      assert Split(s, d)[1..] == Split(s[k + 1..], d);
    }
  }

  /** The last piece of `Split` follows the last separator, and the others join up to it. */
  lemma SplitLast<T>(s: seq<T>, d: T)
    ensures var parts := Split(s, d); var k := LastIndex(s, d);
      && Free(parts[|parts| - 1], d)
      && (k < |s| ==> parts[|parts| - 1] == s[k + 1..] && Join(parts[..|parts| - 1], d) == s[..k])
      && (k == |s| ==> parts == [s])
  {
    var parts := Split(s, d);
    var init := parts[..|parts| - 1];
    var last := parts[|parts| - 1];
    if |parts| == 1 {
      assert s == last;
      assert Free(s, d);
    } else {
      assert parts == init + [last];
      JoinSnoc(init, last, d);
      LastPiece(s, Join(init, d), last, d);
    }
  }

  lemma LastPiece<T>(s: seq<T>, a: seq<T>, last: seq<T>, d: T)
    requires s == a + [d] + last && Free(last, d)
    ensures LastIndex(s, d) == |a| && s[..|a|] == a && s[|a| + 1..] == last
  {
    assert s[|a| + 1..] == last;
    LastIndexUnique(s, d, |a|);
  }

  lemma FirstPiece<T>(s: seq<T>, first: seq<T>, rest: seq<T>, d: T)
    requires s == first + [d] + rest && Free(first, d)
    ensures Index(s, d) == |first| && s[..|first|] == first && s[|first| + 1..] == rest
  {
    assert s[..|first|] == first;
    IndexUnique(s, d, |first|);
  }

  /** All the chunks read so far, in order, as one text. */
  function Concat(chunks: seq<string>): string
  {
    if chunks == [] then "" else Concat(chunks[..|chunks| - 1]) + chunks[|chunks| - 1]
  }

  /**
   * The chunks `readUntilPrompt` reads, whether it reached the prompt or hit a
   * read error, and the stream it leaves.
   */
  datatype Gathered = Gathered(chunks: seq<string>, prompted: bool, wire: Wire<char>)

  /**
   * The loop of `readUntilPrompt`, having read `acc`: read a chunk, give up on a
   * read error, stop as soon as everything read so far ends with the prompt.
   * The prompt may be split across chunks; it is only ever looked for at the
   * end of all that was read, so a prompt in the middle does not stop the loop.
   * Reading never writes.
   */
  function Gather(w: Wire<char>, acc: seq<string>): (g: Gathered)
    ensures acc <= g.chunks
    ensures g.wire.sent == w.sent && g.wire.writeOutcomes == w.writeOutcomes
    decreases Size(w.incoming)
  {
    var next := ReadWire(w, ChunkSize);
    match next.result
    case Fail => Gathered(acc, false, next.after)
    case Data(b) =>
      var acc' := acc + [b];
      if HasSuffix(Concat(acc'), Prompt) then Gathered(acc', true, next.after)
      else Gather(next.after, acc')
  }

  /** Appending a chunk appends its text. */
  lemma ConcatSnoc(acc: seq<string>, b: string)
    ensures Concat(acc + [b]) == Concat(acc) + b
  {
    assert (acc + [b])[..|acc|] == acc;
  }

  /**
   * The loop stops exactly at the first chunk after which all that was read
   * ends with the prompt, and a read error stops it before any such chunk.
   */
  lemma {:induction false} GatherStops(w: Wire<char>, acc: seq<string>)
    ensures StopsAtPrompt(Gather(w, acc), acc)
    decreases Size(w.incoming)
  {
    var next := ReadWire(w, ChunkSize);
    if next.result.Data? {
      var acc' := acc + [next.result.bytes];
      if !HasSuffix(Concat(acc'), Prompt) {
        var g := Gather(next.after, acc');
        assert Gather(w, acc) == g;
        GatherStops(next.after, acc');
        GatherStopsStep(g, acc, acc');
      }
    }
  }

  /** What the loop leaves when started having read `acc`. */
  predicate StopsAtPrompt(g: Gathered, acc: seq<string>)
  {
    && (g.prompted ==> |g.chunks| > |acc| && HasSuffix(Concat(g.chunks), Prompt))
    && (!g.prompted && |g.chunks| > |acc| ==> !HasSuffix(Concat(g.chunks), Prompt))
    && forall j :: |acc| < j < |g.chunks| ==> !HasSuffix(Concat(g.chunks[..j]), Prompt)
  }

  lemma GatherStopsStep(g: Gathered, acc: seq<string>, acc': seq<string>)
    requires |acc'| == |acc| + 1 && acc' <= g.chunks && !HasSuffix(Concat(acc'), Prompt)
    requires StopsAtPrompt(g, acc')
    ensures StopsAtPrompt(g, acc)
  {
    if |g.chunks| == |acc'| {
      assert g.chunks == acc';
    }
    forall j | |acc| < j < |g.chunks|
      ensures !HasSuffix(Concat(g.chunks[..j]), Prompt)
    {
      if j == |acc'| {
        assert g.chunks[..j] == acc';
      }
    }
  }

  /**
   * Nothing is lost or invented: the chunks read are the stream's data, up to
   * where the loop stopped or, on a read error, up to that error.
   */
  lemma {:induction false} GatherConserves(w: Wire<char>, acc: seq<string>)
    ensures var g := Gather(w, acc);
      && (g.prompted ==> Concat(g.chunks) + StreamData(g.wire.incoming) == Concat(acc) + StreamData(w.incoming))
      && (!g.prompted ==> Concat(g.chunks) == Concat(acc) + StreamData(w.incoming))
    decreases Size(w.incoming)
  {
    var next := ReadWire(w, ChunkSize);
    var g := Gather(w, acc);
    if next.result.Data? {
      var b := next.result.bytes;
      var acc' := acc + [b];
      ConcatSnoc(acc, b);
      if HasSuffix(Concat(acc'), Prompt) {
        assert g == Gathered(acc', true, next.after);
        Regroup(Concat(acc), b, StreamData(next.after.incoming));
      } else {
        assert g == Gather(next.after, acc');
        GatherConserves(next.after, acc');
        Regroup(Concat(acc), b, StreamData(next.after.incoming));
      }
    } else {
      assert g == Gathered(acc, false, next.after);
    }
  }

  lemma Regroup<T>(a: seq<T>, b: seq<T>, c: seq<T>)
    ensures (a + b) + c == a + (b + c)
  {
  }

  /** What `readUntilPrompt` returns: the text, or a read error and no text. */
  datatype PromptResult = Prompted(text: string) | ReadFailed

  /** The text `readUntilPrompt` returns: all it read, less the prompt's line. */
  function PromptText(g: Gathered): PromptResult
  {
    if g.prompted then Prompted(LastLine(Concat(g.chunks)).rest) else ReadFailed
  }

  /** `readUntilPrompt` from its start, as a function of the stream. */
  function UntilPrompt(w: Wire<char>): Gathered
  {
    Gather(w, [])
  }

  /**
   * `readUntilPrompt`, reading the stream in place: it returns the text up to
   * the prompt's line, or a read error.
   */
  method ReadUntilPrompt(ch: Channel<char>) returns (r: PromptResult)
    modifies ch
    ensures var g := UntilPrompt(old(ch.State()));
      r == PromptText(g) && ch.State() == g.wire
  {
    ghost var chunks: seq<string> := [];
    var buf: string := "";
    while true
      invariant buf == Concat(chunks)
      invariant Gather(ch.State(), chunks) == UntilPrompt(old(ch.State()))
      decreases Size(ch.incoming)
    {
      var res := ch.Read(ChunkSize);
      if res.Fail? {
        return ReadFailed;
      }
      assert (chunks + [res.bytes])[..|chunks|] == chunks;
      chunks := chunks + [res.bytes];
      buf := buf + res.bytes;
      if HasSuffix(buf, Prompt) {
        break;
      }
    }
    var split := LastLine(buf);
    return Prompted(split.rest);
  }

  /**
   * `readUntilPrompt` returns text only once all it read ends with the prompt,
   * and it stops at the first chunk after which that holds.
   */
  lemma PromptedAtFirstPrompt(w: Wire<char>)
    ensures var g := UntilPrompt(w);
      && (PromptText(g).Prompted? <==> HasSuffix(Concat(g.chunks), Prompt))
      && forall j :: 0 < j < |g.chunks| ==> !HasSuffix(Concat(g.chunks[..j]), Prompt)
  {
    GatherStops(w, []);
    assert Concat([]) == "";
  }

  /**
   * A read error gives no text at all, and everything the stream delivered
   * before the error was read, with no retry.
   */
  lemma ReadErrorConsumesStream(w: Wire<char>)
    requires !UntilPrompt(w).prompted
    ensures PromptText(UntilPrompt(w)) == ReadFailed
    ensures Concat(UntilPrompt(w).chunks) == StreamData(w.incoming)
  {
    UntilPromptConserves(w);
  }

  /**
   * On success the text and the rest of the stream together are all the
   * stream delivered, less the prompt's line.
   */
  lemma PromptedConservesStream(w: Wire<char>)
    requires PromptText(UntilPrompt(w)).Prompted?
    ensures var g := UntilPrompt(w); var s := Concat(g.chunks);
      && s + StreamData(g.wire.incoming) == StreamData(w.incoming)
      && PromptText(g).text <= s
  {
    UntilPromptConserves(w);
    RestIsPrefix(Concat(UntilPrompt(w).chunks));
  }

  lemma UntilPromptConserves(w: Wire<char>)
    ensures var g := UntilPrompt(w);
      && (g.prompted ==> Concat(g.chunks) + StreamData(g.wire.incoming) == StreamData(w.incoming))
      && (!g.prompted ==> Concat(g.chunks) == StreamData(w.incoming))
  {
    GatherConserves(w, []);
    assert Concat([]) == "";
    assert Concat([]) + StreamData(w.incoming) == StreamData(w.incoming);
  }

  /** What `lastLine` leaves is a prefix of its input. */
  lemma RestIsPrefix(s: string)
    ensures LastLine(s).rest <= s
  {
  }

  /**
   * The prompt's line is the last line of a text ending with the prompt: what
   * `lastLine` leaves is everything before the newline preceding that line, and
   * the line itself ends with the prompt (or there is no newline and nothing is
   * left).
   */
  lemma PromptLine(s: string)
    requires HasSuffix(s, Prompt)
    ensures var text := LastLine(s).rest;
      || (|text| < |s| && s == text + "\n" + s[|text| + 1..]
          && HasSuffix(s[|text| + 1..], Prompt) && Free(s[|text| + 1..], '\n'))
      || (text == "" && Free(s, '\n'))
  {
    var k := LastIndex(s, '\n');
    if k < |s| {
      var n := |s| - |Prompt|;
      assert Free(Prompt, '\n');
      assert s[n..] == Prompt;
      assert forall i :: n <= i < |s| ==> s[i] == s[n..][i - n];
      var tail := s[k + 1..];
      assert s == s[..k] + "\n" + tail;
      assert tail[|tail| - |Prompt|..] == s[n..];
    }
  }

  /** The text `readUntilPrompt` returns is what precedes the line holding the prompt. */
  lemma PromptTextBeforePromptLine(w: Wire<char>)
    requires PromptText(UntilPrompt(w)).Prompted?
    ensures var s := Concat(UntilPrompt(w).chunks); var text := PromptText(UntilPrompt(w)).text;
      || (|text| < |s| && s == text + "\n" + s[|text| + 1..]
          && HasSuffix(s[|text| + 1..], Prompt) && Free(s[|text| + 1..], '\n'))
      || (text == "" && Free(s, '\n'))
  {
    GatherStops(w, []);
    PromptLine(Concat(UntilPrompt(w).chunks));
  }
}
