/**
 * client.go: running a batch of commands in the HSM's shell over an SSH
 * session with a pseudo-terminal. Each command is sent on its own line, its
 * transcript is read up to the next prompt, the echoed command line and the
 * status line are cut off, and the status is checked.
 */
module ShellClient {
  import opened Wrappers
  import opened GoStrings
  import opened Transport
  import opened PromptReader
  import opened HsmConfig

  /** The status line the shell prints after a command that succeeded. */
  const SuccessStatus: string := "Command Result : 0 (Success)"

  /** The steps of setting up the pseudo-terminal session, in the order they are taken. */
  datatype PtyStep = RequestPty | StdinPipe | StdoutPipe | StartShell

  datatype Error =
    | DialFailed              // connecting to the HSM failed
    | BannerRead              // reading the shell's banner failed
    | LoginWrite              // sending `hsm login` failed
    | LoginRead               // reading the answer to `hsm login` failed
    | CommandWrite(cmd: string)  // sending a command failed
    | CommandRead(cmd: string)   // reading a command's transcript failed
    | NonSuccess(cmd: string)    // a command's status line was not the success line
    | PtySetup(step: PtyStep)    // a step of setting up the terminal failed
    | SessionOpen             // opening the session failed
    | SessionClose            // closing the session failed

  /**
   * What the SSH library does when asked to open a session, set up its
   * terminal (the first step that fails, if any) and close the session.
   */
  datatype SessionEnv = SessionEnv(sessionOpens: bool, failedStep: Option<PtyStep>, closeOk: bool)

  /** The first error of two, as the source reports one error over another. */
  function FirstError(first: Option<Error>, second: Option<Error>): Option<Error>
  {
    if first.Some? then first else second
  }

  /** A read or write error on a command, which ends the batch. */
  predicate Aborted(e: Option<Error>)
  {
    e.Some? && (e.value.CommandWrite? || e.value.CommandRead?)
  }

  /**
   * A command as it is sent: verbatim when it already ends with a newline,
   * otherwise with exactly one newline appended.
   */
  function WithNewline(cmd: string): (r: string)
    ensures HasSuffix(r, "\n") && cmd <= r
    ensures r == cmd <==> HasSuffix(cmd, "\n")
    ensures |r| <= |cmd| + 1
  {
    if HasSuffix(cmd, "\n") then cmd else cmd + "\n"
  }

  /** Every command of a batch, as it is sent. */
  function WithNewlines(cmds: seq<string>): (r: seq<string>)
    ensures |r| == |cmds|
  {
    if cmds == [] then [] else [WithNewline(cmds[0])] + WithNewlines(cmds[1..])
  }

  /** The line that logs in to the HSM with its password. */
  function LoginLine(password: string): string
  {
    "hsm login -p " + password + "\n"
  }

  /**
   * A command's transcript cut up: the echoed command line goes, then the
   * last line is the status and what is left is the command's output.
   */
  function Reply(transcript: string): LineSplit
  {
    LastLine(FirstLine(transcript).rest)
  }

  /**
   * The output is what lies between the echoed command line and the status
   * line: a transcript with two newlines or more is its echo line, a newline,
   * the output, a newline and the raw status line, where `i` is the first
   * newline and `j` the last one after it.
   */
  lemma ReplyBetweenLines(t: string, i: nat, j: nat)
    requires i == Index(t, '\n') && i < |t|
    requires j == LastIndex(t[i + 1..], '\n') && j < |t[i + 1..]|
    ensures t == t[..i] + "\n" + Reply(t).rest + "\n" + t[i + 1..][j + 1..]
    ensures Reply(t).line == TrimSuffix(t[i + 1..][j + 1..], "\r")
  {
    ReplyCuts(t, i, j);
    TwoCuts(t, i, j);
  }

  lemma ReplyCuts(t: string, i: nat, j: nat)
    requires i == Index(t, '\n') && i < |t|
    requires j == LastIndex(t[i + 1..], '\n') && j < |t[i + 1..]|
    ensures Reply(t).rest == t[i + 1..][..j]
    ensures Reply(t).line == TrimSuffix(t[i + 1..][j + 1..], "\r")
  {
    var rest := t[i + 1..];
    assert FirstLine(t).rest == rest;
    LastLineAt(rest, j);
  }

  lemma LastLineAt(s: string, k: nat)
    requires k == LastIndex(s, '\n') && k < |s|
    ensures LastLine(s) == LineSplit(TrimSuffix(s[k + 1..], "\r"), s[..k])
  {
  }

  /** A transcript without a newline has no output and an empty status line. */
  lemma ReplyNoNewline(t: string)
    requires Index(t, '\n') == |t|
    ensures Reply(t) == LineSplit("", "")
  {
    assert FirstLine(t).rest == "";
    assert LastIndex("", '\n') == 0;
  }

  /** A transcript with a single newline has no output, and what follows the newline is its status line. */
  lemma ReplyOneNewline(t: string, i: nat)
    requires i == Index(t, '\n') && i < |t| && Free(t[i + 1..], '\n')
    ensures Reply(t) == LineSplit(TrimSuffix(t[i + 1..], "\r"), "")
  {
    assert FirstLine(t).rest == t[i + 1..];
  }

  lemma TwoCuts(t: string, i: nat, j: nat)
    requires i < |t| && j < |t[i + 1..]| && t[i] == '\n' && t[i + 1..][j] == '\n'
    ensures t == t[..i] + "\n" + t[i + 1..][..j] + "\n" + t[i + 1..][j + 1..]
  {
  }

  /**
   * The state of a batch: the outputs so far, the transcripts they came from,
   * the error to report, and the stream.
   */
  datatype Exchange = Exchange(outputs: seq<string>, transcripts: seq<string>, runErr: Option<Error>, wire: Wire<char>)

  /**
   * One command of the loop of `Run`: send it, read its transcript up to the
   * prompt, cut off the echo and the status, record a status other than
   * success, and keep the output. A read or write error ends the batch.
   */
  function CommandStep(acc: Exchange, cmd: string): (x: Exchange)
    ensures !Aborted(acc.runErr) && Aborted(x.runErr) ==>
      x.outputs == acc.outputs && x.transcripts == acc.transcripts && x.runErr.value.cmd == cmd
    ensures !Aborted(acc.runErr) && !Aborted(x.runErr) ==> Appended(acc, x, cmd)
    ensures x.wire.sent == acc.wire.sent + [WithNewline(cmd)]
    ensures var written := WriteWire(acc.wire, WithNewline(cmd)); var g := UntilPrompt(written.after);
      && (!written.ok ==> x.runErr == Some(CommandWrite(cmd)) && x.wire == written.after)
      && (written.ok && !g.prompted ==> x.runErr == Some(CommandRead(cmd)) && x.wire == g.wire)
      && (written.ok && g.prompted ==> x.transcripts == acc.transcripts + [PromptText(g).text] && x.wire == g.wire)
  {
    var written := WriteWire(acc.wire, WithNewline(cmd));
    if !written.ok then acc.(runErr := Some(CommandWrite(cmd)), wire := written.after)
    else
      var g := UntilPrompt(written.after);
      AfterRead(acc, cmd, PromptText(g), g.wire)
  }

  /**
   * `x` is `acc` with one more transcript, whose output is kept, and whose
   * status line, unless it is the success line, becomes the error to report.
   */
  predicate Appended(acc: Exchange, x: Exchange, cmd: string)
  {
    && |x.transcripts| == |acc.transcripts| + 1
    && x.transcripts[..|acc.transcripts|] == acc.transcripts
    && var t := x.transcripts[|acc.transcripts|];
      && x.outputs == acc.outputs + [Reply(t).rest]
      && x.runErr == if Reply(t).line == SuccessStatus then acc.runErr else Some(NonSuccess(cmd))
  }

  /** One command of the loop of `Run` once it has been sent and its transcript read (or not). */
  function AfterRead(acc: Exchange, cmd: string, read: PromptResult, w: Wire<char>): (x: Exchange)
    ensures x.wire == w
    ensures !Aborted(acc.runErr) ==> (Aborted(x.runErr) <==> read.ReadFailed?)
    ensures read.ReadFailed? ==> x == acc.(runErr := Some(CommandRead(cmd)), wire := w)
    ensures read.Prompted? ==> Appended(acc, x, cmd)
    ensures read.Prompted? ==> x.transcripts == acc.transcripts + [read.text]
  {
    match read
    case ReadFailed => acc.(runErr := Some(CommandRead(cmd)), wire := w)
    case Prompted(t) =>
      var reply := Reply(t);
      var err := if reply.line != SuccessStatus then Some(NonSuccess(cmd)) else acc.runErr;
      assert (acc.transcripts + [t])[..|acc.transcripts|] == acc.transcripts;
      Exchange(acc.outputs + [reply.rest], acc.transcripts + [t], err, w)
  }

  /** The loop of `Run` over the remaining commands `cmds`. */
  function RunCommands(acc: Exchange, cmds: seq<string>): Exchange
    decreases |cmds|
  {
    if cmds == [] then acc
    else
      var x := CommandStep(acc, cmds[0]);
      if Aborted(x.runErr) then x else RunCommands(x, cmds[1..])
  }

  /** A command's output: its transcript less the echo line and the status line. */
  function Output(transcript: string): string
  {
    Reply(transcript).rest
  }

  /**
   * `x` ends a batch begun at `acc` on the commands `cmds`: the transcripts and
   * outputs of `acc` are kept, and one output is added per transcript read,
   * made from it by `out`, in the order of the commands. A batch that ends on
   * a read or write error stops at the command it names; otherwise every
   * command was run.
   */
  predicate Ran(acc: Exchange, x: Exchange, cmds: seq<string>, out: string -> string)
  {
    var n := |acc.transcripts|; var m := |acc.outputs|; var k := |x.transcripts| - n;
    && n <= |x.transcripts| && x.transcripts[..n] == acc.transcripts
    && |x.outputs| == m + k && x.outputs[..m] == acc.outputs
    && (forall j :: m <= j < |x.outputs| ==> x.outputs[j] == out(x.transcripts[j - m + n]))
    && (Aborted(x.runErr) ==> k < |cmds| && x.runErr.value.cmd == cmds[k])
    && (!Aborted(x.runErr) ==> k == |cmds|)
  }

  /**
   * Every batch `RunCommands` runs ends as `Ran` says, each output being the
   * `Output` of its transcript.
   */
  lemma {:induction false} RunCommandsOutputs(acc: Exchange, cmds: seq<string>)
    requires !Aborted(acc.runErr)
    ensures Ran(acc, RunCommands(acc, cmds), cmds, Output)
    decreases |cmds|
  {
    if cmds == [] {
      assert acc.transcripts[..|acc.transcripts|] == acc.transcripts;
      assert acc.outputs[..|acc.outputs|] == acc.outputs;
    } else {
      var y := CommandStep(acc, cmds[0]);
      if Aborted(y.runErr) {
        assert acc.transcripts[..|acc.transcripts|] == acc.transcripts;
        assert acc.outputs[..|acc.outputs|] == acc.outputs;
      } else {
        RunCommandsOutputs(y, cmds[1..]);
        RanStep(acc, y, RunCommands(y, cmds[1..]), cmds, Output);
      }
    }
  }

  lemma RanStep(acc: Exchange, y: Exchange, x: Exchange, cmds: seq<string>, out: string -> string)
    requires cmds != [] && |y.transcripts| == |acc.transcripts| + 1
    requires y.transcripts[..|acc.transcripts|] == acc.transcripts
    requires y.outputs == acc.outputs + [out(y.transcripts[|acc.transcripts|])]
    requires Ran(y, x, cmds[1..], out)
    ensures Ran(acc, x, cmds, out)
  {
    var n := |acc.transcripts|;
    var m := |acc.outputs|;
    assert x.transcripts[..n] == x.transcripts[..n + 1][..n];
    assert x.outputs[..m] == x.outputs[..m + 1][..m];
    assert x.outputs[m] == x.outputs[..m + 1][m];
    assert x.transcripts[n] == x.transcripts[..n + 1][n];
    var k := |x.transcripts| - (n + 1);
    if Aborted(x.runErr) {
      assert cmds[1..][k] == cmds[k + 1];
    }
  }

  /**
   * What a batch begun at `acc` and ended at `x` wrote: each command in turn,
   * as it is sent, up to and including the one whose write or read failed.
   */
  predicate SentAll(acc: Exchange, x: Exchange, cmds: seq<string>)
  {
    var k := |x.transcripts| - |acc.transcripts| + (if Aborted(x.runErr) then 1 else 0);
    && 0 <= k <= |cmds|
    && x.wire.sent == acc.wire.sent + WithNewlines(cmds[..k])
  }

  /** Every batch `RunCommands` runs writes what `SentAll` says. */
  lemma {:induction false} RunCommandsSent(acc: Exchange, cmds: seq<string>)
    requires !Aborted(acc.runErr)
    ensures SentAll(acc, RunCommands(acc, cmds), cmds)
    decreases |cmds|
  {
    if cmds == [] {
      assert cmds[..0] == [];
    } else {
      var y := CommandStep(acc, cmds[0]);
      if Aborted(y.runErr) {
        SentStep(acc, y, y, cmds);
      } else {
        RunCommandsSent(y, cmds[1..]);
        SentStep(acc, y, RunCommands(y, cmds[1..]), cmds);
      }
    }
  }

  lemma SentStep(acc: Exchange, y: Exchange, x: Exchange, cmds: seq<string>)
    requires cmds != [] && y.wire.sent == acc.wire.sent + [WithNewline(cmds[0])]
    requires Aborted(y.runErr) ==> x == y && y.transcripts == acc.transcripts
    requires !Aborted(y.runErr) ==> |y.transcripts| == |acc.transcripts| + 1 && SentAll(y, x, cmds[1..])
    ensures SentAll(acc, x, cmds)
  {
    if Aborted(y.runErr) {
      assert cmds[1..][..0] == [];
      SentSnoc(acc.wire.sent, y.wire.sent, x.wire.sent, cmds, 1);
    } else {
      var k := |x.transcripts| - |y.transcripts| + (if Aborted(x.runErr) then 1 else 0);
      SentSnoc(acc.wire.sent, y.wire.sent, x.wire.sent, cmds, k + 1);
    }
  }

  lemma SentSnoc(before: seq<string>, mid: seq<string>, after: seq<string>, cmds: seq<string>, k: nat)
    requires 1 <= k <= |cmds|
    requires mid == before + [WithNewline(cmds[0])]
    requires after == mid + WithNewlines(cmds[1..][..k - 1])
    ensures after == before + WithNewlines(cmds[..k])
  {
    var tail := cmds[1..][..k - 1];
    assert cmds[..k] == [cmds[0]] + tail;
    WithNewlinesCons(cmds[0], tail);
  }

  lemma WithNewlinesCons(c: string, cs: seq<string>)
    ensures WithNewlines([c] + cs) == [WithNewline(c)] + WithNewlines(cs)
  {
    assert ([c] + cs)[1..] == cs;
  }

  /** A command's status line: the last line of its transcript, less the echo line. */
  function Status(transcript: string): string
  {
    Reply(transcript).line
  }

  /**
   * The error a batch begun at `acc` and ended at `x` reports, in terms of the
   * statuses `status` reads off the transcripts: there is none exactly when
   * there was none before, every command ran and every status was the success
   * line; a non-success error names the LAST command whose status was not the
   * success line (a later one overwrites an earlier one), or is the one the
   * batch began with when every status succeeded.
   */
  predicate Reported(acc: Exchange, x: Exchange, cmds: seq<string>, status: string -> string)
  {
    var n := |acc.transcripts|;
    && n <= |x.transcripts| && x.transcripts[..n] == acc.transcripts
    && (x.runErr.None? <==>
          acc.runErr.None? && |x.transcripts| - n == |cmds| && Succeeded(x.transcripts, n, status))
    && (x.runErr.Some? && x.runErr.value.NonSuccess? ==>
          || (x.runErr == acc.runErr && Succeeded(x.transcripts, n, status))
          || exists j :: n <= j && j - n < |cmds| && LastFailure(x.transcripts, j, status)
               && x.runErr.value.cmd == cmds[j - n])
  }

  /** Every status read from `ts[from..]` is the success line. */
  predicate Succeeded(ts: seq<string>, from: nat, status: string -> string)
  {
    forall j :: from <= j < |ts| ==> status(ts[j]) == SuccessStatus
  }

  /** `ts[j]` is the last transcript whose status is not the success line. */
  predicate LastFailure(ts: seq<string>, j: int, status: string -> string)
  {
    0 <= j < |ts| && status(ts[j]) != SuccessStatus && Succeeded(ts, j + 1, status)
  }

  /** Every batch `RunCommands` runs reports what `Reported` says, reading each status with `Status`. */
  lemma {:induction false} RunCommandsStatus(acc: Exchange, cmds: seq<string>)
    requires !Aborted(acc.runErr)
    ensures Reported(acc, RunCommands(acc, cmds), cmds, Status)
    decreases |cmds|
  {
    var n := |acc.transcripts|;
    assert acc.transcripts[..n] == acc.transcripts;
    if cmds != [] {
      var y := CommandStep(acc, cmds[0]);
      if !Aborted(y.runErr) {
        RunCommandsStatus(y, cmds[1..]);
        StatusStep(acc, y, RunCommands(y, cmds[1..]), cmds, Status);
      }
    }
  }

  lemma StatusStep(acc: Exchange, y: Exchange, x: Exchange, cmds: seq<string>, status: string -> string)
    requires cmds != [] && !Aborted(acc.runErr)
    requires |y.transcripts| == |acc.transcripts| + 1 && y.transcripts[..|acc.transcripts|] == acc.transcripts
    requires y.runErr == if status(y.transcripts[|acc.transcripts|]) == SuccessStatus then acc.runErr
      else Some(NonSuccess(cmds[0]))
    requires Reported(y, x, cmds[1..], status)
    ensures Reported(acc, x, cmds, status)
  {
    var n := |acc.transcripts|;
    var ts := x.transcripts;
    assert ts[..n] == ts[..n + 1][..n];
    assert ts[n] == ts[..n + 1][n] == y.transcripts[n];
    assert Succeeded(ts, n, status) <==> status(ts[n]) == SuccessStatus && Succeeded(ts, n + 1, status);
    if x.runErr.Some? && x.runErr.value.NonSuccess? {
      if x.runErr == y.runErr && Succeeded(ts, n + 1, status) {
        if status(ts[n]) != SuccessStatus {
          assert LastFailure(ts, n, status) && x.runErr.value.cmd == cmds[n - n];
        }
      } else {
        var j :| n + 1 <= j && j - (n + 1) < |cmds[1..]| && LastFailure(ts, j, status)
          && x.runErr.value.cmd == cmds[1..][j - (n + 1)];
        assert x.runErr.value.cmd == cmds[j - n];
      }
    }
  }

  /** A batch that survives its first command goes on with the others. */
  lemma RunCommandsStep(acc: Exchange, next: Exchange, cmds: seq<string>, x: Exchange)
    requires cmds != [] && next == CommandStep(acc, cmds[0]) && !Aborted(next.runErr)
    requires RunCommands(acc, cmds) == x
    ensures RunCommands(next, cmds[1..]) == x
  {
  }

  /**
   * The callback `Run` hands to `WithPTY`: read the banner, log in if asked
   * to (without checking the answer's status), then run the commands.
   */
  function Conversation(w: Wire<char>, cmds: seq<string>, login: bool, password: string): Exchange
  {
    var banner := UntilPrompt(w);
    if !banner.prompted then Exchange([], [], Some(BannerRead), banner.wire)
    else if !login then RunCommands(Exchange([], [], None, banner.wire), cmds)
    else
      var written := WriteWire(banner.wire, LoginLine(password));
      if !written.ok then Exchange([], [], Some(LoginWrite), written.after)
      else
        var answer := UntilPrompt(written.after);
        if !answer.prompted then Exchange([], [], Some(LoginRead), answer.wire)
        else RunCommands(Exchange([], [], None, answer.wire), cmds)
  }

  /** What `Run` returns, and the stream it leaves. */
  datatype RunResult = RunResult(outputs: seq<string>, err: Option<Error>, wire: Wire<char>)

  /**
   * `Run` as a function of the stream and of the session's fate. `WithSession`
   * opens the session, runs `WithPTY`'s callback and closes it; `WithPTY` sets
   * up the terminal and runs `Run`'s callback. `Run` reports its own error
   * before `WithPTY`'s, and `WithPTY` reports a set-up error before the
   * session's. So there is no error exactly when the session opened, the
   * terminal was set up, the conversation reported none and the session
   * closed cleanly; no output is returned and nothing is sent unless the
   * terminal was set up.
   */
  function RunSpec(w: Wire<char>, cmds: seq<string>, login: bool, password: string, env: SessionEnv): (r: RunResult)
    ensures var x := Conversation(w, cmds, login, password);
      var ready := env.sessionOpens && env.failedStep.None?;
      && (r.err.None? <==> ready && x.runErr.None? && env.closeOk)
      && (ready ==> r.outputs == x.outputs && r.wire == x.wire)
      && (!ready ==> r.outputs == [] && r.wire == w)
      && (!env.sessionOpens ==> r.err == Some(SessionOpen))
      && (env.sessionOpens && env.failedStep.Some? ==> r.err == Some(PtySetup(env.failedStep.value)))
      && (ready && x.runErr.Some? ==> r.err == x.runErr)
      && (ready && x.runErr.None? && !env.closeOk ==> r.err == Some(SessionClose))
  {
    if !env.sessionOpens then RunResult([], FirstError(None, FirstError(None, Some(SessionOpen))), w)
    else
      var sesErr := if env.closeOk then None else Some(SessionClose);
      match env.failedStep
      case Some(step) => RunResult([], FirstError(None, FirstError(Some(PtySetup(step)), sesErr)), w)
      case None =>
        var x := Conversation(w, cmds, login, password);
        RunResult(x.outputs, FirstError(x.runErr, FirstError(None, sesErr)), x.wire)
  }

  /**
   * Before the first command: the banner is read, then, when asked to, the
   * login line is sent and its answer read. Either that fails, with no output
   * and no command sent, or the commands run from a clean state on a stream
   * that has seen only the login line (if any). The answer to the login is
   * read but its status is never checked.
   */
  lemma ConversationStart(w: Wire<char>, cmds: seq<string>, login: bool, password: string)
    ensures var x := Conversation(w, cmds, login, password);
      var sentBefore := w.sent + (if login then [LoginLine(password)] else []);
      || (&& x.outputs == [] && x.transcripts == []
          && x.runErr.Some? && x.runErr.value in {BannerRead, LoginWrite, LoginRead}
          && x.wire.sent == (if x.runErr.value == BannerRead then w.sent else sentBefore))
      || exists w0: Wire<char> :: w0.sent == sentBefore && x == RunCommands(Exchange([], [], None, w0), cmds)
  {
    var banner := UntilPrompt(w);
    if banner.prompted {
      var w0 := banner.wire;
      if login {
        var written := WriteWire(banner.wire, LoginLine(password));
        w0 := UntilPrompt(written.after).wire;
      }
      if Conversation(w, cmds, login, password) == RunCommands(Exchange([], [], None, w0), cmds) {
        assert w0.sent == w.sent + (if login then [LoginLine(password)] else []);
      }
    }
  }

  /**
   * `Run` returns at most one output per command, and one output for every
   * command when it reports no error.
   */
  lemma RunOutputCount(w: Wire<char>, cmds: seq<string>, login: bool, password: string, env: SessionEnv)
    ensures var r := RunSpec(w, cmds, login, password, env);
      && |r.outputs| <= |cmds|
      && (r.err.None? ==> |r.outputs| == |cmds|)
  {
    var x := Conversation(w, cmds, login, password);
    ConversationStart(w, cmds, login, password);
    if x.outputs != [] || x.runErr.None? {
      var w0: Wire<char> :| x == RunCommands(Exchange([], [], None, w0), cmds);
      RunCommandsOutputs(Exchange([], [], None, w0), cmds);
    }
  }

  /**
   * One pass of the loop of `Run`: send `cmd`, read its transcript, cut off
   * the echo and the status line, record a status other than success, and
   * keep the output; a write or read error is recorded instead.
   */
  method SendCommand(ch: Channel<char>, cmd: string, outputs: seq<string>, runErr: Option<Error>,
                     ghost transcripts: seq<string>)
    returns (outputs': seq<string>, runErr': Option<Error>, ghost transcripts': seq<string>)
    modifies ch
    ensures Exchange(outputs', transcripts', runErr', ch.State())
      == CommandStep(Exchange(outputs, transcripts, runErr, old(ch.State())), cmd)
  {
    ghost var before := Exchange(outputs, transcripts, runErr, ch.State());
    outputs', runErr', transcripts' := outputs, runErr, transcripts;
    var ok := ch.Write(WithNewline(cmd));
    ghost var written := ch.State();
    if !ok {
      runErr' := Some(CommandWrite(cmd));
      assert CommandStep(before, cmd) == before.(runErr := runErr', wire := written);
      return;
    }
    var text := ReadUntilPrompt(ch);
    assert CommandStep(before, cmd) == AfterRead(before, cmd, text, ch.State());
    if text.ReadFailed? {
      runErr' := Some(CommandRead(cmd));
      return;
    }
    var echo := FirstLine(text.text);
    var reply := LastLine(echo.rest);
    if reply.line != SuccessStatus {
      runErr' := Some(NonSuccess(cmd));
    }
    outputs' := outputs + [reply.rest];
    transcripts' := transcripts + [text.text];
  }

  /**
   * A transcript made of an echo line and a status line, both free of
   * newlines, around any output: the output comes back whole, even when it
   * spans several lines, and the status line less a trailing carriage return.
   */
  lemma ReplyOfParts(echo: string, output: string, status: string)
    requires Free(echo, '\n') && Free(status, '\n')
    ensures Reply(echo + "\n" + output + "\n" + status) == LineSplit(TrimSuffix(status, "\r"), output)
  {
    var rest := output + "\n" + status;
    EchoCut(echo + "\n" + output + "\n" + status, echo, rest);
    LastPiece(rest, output, status, '\n');
  }

  lemma EchoCut(t: string, echo: string, rest: string)
    requires t == echo + "\n" + rest && Free(echo, '\n')
    ensures FirstLine(t).rest == rest
  {
    FirstPiece(t, echo, rest, '\n');
  }

  /** The last line of a text that ends with a newline and the prompt is the prompt, and the rest is the text. */
  lemma PromptAfterText(text: string)
    ensures HasSuffix(text + "\n" + Prompt, Prompt)
    ensures LastLine(text + "\n" + Prompt).rest == text
  {
    var s := text + "\n" + Prompt;
    assert s[|s| - |Prompt|..] == Prompt;
    assert Free(Prompt, '\n');
    LastPiece(s, text, Prompt, '\n');
  }

  /** A first chunk that fits the buffer and ends with the prompt is all `readUntilPrompt` reads. */
  lemma OneChunkGathered(w: Wire<char>, s: string, later: seq<ReadResult<char>>)
    requires |s| <= ChunkSize && HasSuffix(s, Prompt)
    requires w.incoming == [Data(s)] + later
    ensures UntilPrompt(w) == Gathered([s], true, w.(incoming := later))
    ensures PromptText(UntilPrompt(w)) == Prompted(LastLine(s).rest)
  {
    var one: seq<string> := [s];
    assert one[..0] == [];
    assert Concat(one) == s;
    assert ReadWire(w, ChunkSize) == Received(Data(s), w.(incoming := later));
  }

  /** A stream whose next chunk is a whole transcript followed by the prompt. */
  lemma OneChunkTranscript(w: Wire<char>, text: string, later: seq<ReadResult<char>>)
    requires |text| < ChunkSize - |Prompt|
    requires w.incoming == [Data(text + "\n" + Prompt)] + later
    ensures PromptText(UntilPrompt(w)) == Prompted(text)
    ensures UntilPrompt(w).wire == w.(incoming := later)
  {
    var s := text + "\n" + Prompt;
    assert |s| == |text| + 1 + |Prompt|;
    PromptAfterText(text);
    OneChunkGathered(w, s, later);
  }

  /** The transcript of a `status` command printing `output line`, with status line `status`. */
  function ExampleEcho(status: string): string
  {
    "status\r" + "\n" + "output line\r" + "\n" + status + "\r"
  }

  /** The reply to the example command: its output line, and its status line less the carriage return. */
  lemma ExampleReply(status: string)
    requires Free(status, '\n')
    ensures Reply(ExampleEcho(status)) == LineSplit(status, "output line\r")
  {
    var st := status + "\r";
    assert Free(st, '\n') by {
      assert forall k :: 0 <= k < |status| ==> st[k] == status[k];
    }
    assert Free("status\r", '\n');
    assert ExampleEcho(status) == "status\r" + "\n" + "output line\r" + "\n" + st;
    ReplyOfParts("status\r", "output line\r", st);
    assert TrimSuffix(st, "\r") == status;
  }

  /**
   * The example command, sent on a stream that answers with its transcript and
   * the prompt in one chunk: it is sent with a newline, its output is kept,
   * and only a status line other than the success line is an error.
   */
  lemma ExampleCommand(w: Wire<char>, status: string)
    requires Free(status, '\n') && |status| <= 100
    requires w.incoming == [Data(ExampleEcho(status) + "\n" + Prompt)] && w.writeOutcomes == []
    ensures var x := CommandStep(Exchange([], [], None, w), "status");
      && x.outputs == ["output line\r"]
      && x.wire.sent == w.sent + ["status\n"]
      && x.runErr == (if status == SuccessStatus then None else Some(NonSuccess("status")))
  {
    var t := ExampleEcho(status);
    var w1 := WriteWire(w, WithNewline("status")).after;
    assert WithNewline("status") == "status\n";
    OneChunkTranscript(w1, t, []);
    ExampleReply(status);
  }

  /**
   * A one-command session: with no login, the banner and then the echo of
   * `status`, its output line and its status line, each followed by the
   * prompt, arrive in one chunk each. The output returned is `output line`
   * with its carriage return (only the status line loses its own), the
   * command is sent with a newline, and there is no error exactly when the
   * status line is the success line.
   */
  lemma ExampleRun(status: string, password: string)
    requires Free(status, '\n') && |status| <= 100
    ensures var w := Wire([Data(Prompt), Data(ExampleEcho(status) + "\n" + Prompt)], [], []);
      var r := RunSpec(w, ["status"], false, password, SessionEnv(true, None, true));
      && r.outputs == ["output line\r"]
      && r.wire.sent == ["status\n"]
      && r.err == (if status == SuccessStatus then None else Some(NonSuccess("status")))
  {
    var w := Wire([Data(Prompt), Data(ExampleEcho(status) + "\n" + Prompt)], [], []);
    var w0 := w.(incoming := [Data(ExampleEcho(status) + "\n" + Prompt)]);
    assert HasSuffix(Prompt, Prompt);
    OneChunkGathered(w, Prompt, [Data(ExampleEcho(status) + "\n" + Prompt)]);
    var x0 := Exchange([], [], None, w0);
    ExampleCommand(w0, status);
    var x := CommandStep(x0, "status");
    assert Conversation(w, ["status"], false, password) == RunCommands(x0, ["status"]);
    RunOne(x0, "status");
  }

  /** A batch of one command is that command's step. */
  lemma RunOne(acc: Exchange, cmd: string)
    ensures RunCommands(acc, [cmd]) == CommandStep(acc, cmd)
  {
    assert [cmd][1..] == [];
  }

  /** A client of one HSM. */
  class Client {
    const config: Config
    var connected: bool

    /** `newClient`: a client for `config`, not yet connected. */
    constructor (config: Config)
      ensures this.config == config && !connected
    {
      this.config := config;
      connected := false;
    }

    /** `Connect`: the connection is kept when dialing succeeds, and dropped otherwise. */
    method Connect(dialed: bool) returns (err: Option<Error>)
      modifies this
      ensures connected == dialed
      ensures err.None? <==> dialed
      ensures err.Some? ==> err.value == DialFailed
    {
      connected := dialed;
      err := if dialed then None else Some(DialFailed);
    }

    /** `Run`: runs `commands` in a terminal session, returning their outputs and the error to report. */
    method Run(ch: Channel<char>, commands: seq<string>, login: bool, env: SessionEnv)
      returns (outputs: seq<string>, err: Option<Error>)
      requires connected
      modifies ch
      ensures RunResult(outputs, err, ch.State()) == RunSpec(old(ch.State()), commands, login, config.password, env)
    {
      var runErr: Option<Error> := None;
      var ptyErr: Option<Error> := None;
      var sesErr: Option<Error> := None;
      outputs := [];
      if !env.sessionOpens {
        sesErr := Some(SessionOpen);
      } else {
        if env.failedStep.Some? {
          ptyErr := Some(PtySetup(env.failedStep.value));
        } else {
          outputs, runErr := Interact(ch, commands, login);
        }
        if !env.closeOk {
          sesErr := Some(SessionClose);
        }
      }
      var ptyResult := FirstError(ptyErr, sesErr);
      err := FirstError(runErr, ptyResult);
    }

    /** The callback of `Run`: banner, login, then the commands one by one. */
    method Interact(ch: Channel<char>, commands: seq<string>, login: bool)
      returns (outputs: seq<string>, runErr: Option<Error>)
      modifies ch
      ensures var x := Conversation(old(ch.State()), commands, login, config.password);
        outputs == x.outputs && runErr == x.runErr && ch.State() == x.wire
    {
      outputs := [];
      runErr := None;
      var banner := ReadUntilPrompt(ch);
      if banner.ReadFailed? {
        runErr := Some(BannerRead);
        return;
      }
      if login {
        var ok := ch.Write(LoginLine(config.password));
        if !ok {
          runErr := Some(LoginWrite);
          return;
        }
        var answer := ReadUntilPrompt(ch);
        if answer.ReadFailed? {
          runErr := Some(LoginRead);
          return;
        }
      }
      ghost var transcripts: seq<string> := [];
      ghost var cur := Exchange(outputs, transcripts, runErr, ch.State());
      ghost var x := RunCommands(cur, commands);
      var i := 0;
      while i < |commands|
        invariant 0 <= i <= |commands|
        invariant cur == Exchange(outputs, transcripts, runErr, ch.State())
        invariant !Aborted(cur.runErr)
        invariant RunCommands(cur, commands[i..]) == x
      {
        var cmd := commands[i];
        ghost var before := cur;
        assert commands[i..][0] == cmd && commands[i..][1..] == commands[i + 1..];
        outputs, runErr, transcripts := SendCommand(ch, cmd, outputs, runErr, transcripts);
        cur := Exchange(outputs, transcripts, runErr, ch.State());
        if Aborted(runErr) {
          return;
        }
        RunCommandsStep(before, cur, commands[i..], x);
        i := i + 1;
      }
    }
  }
}
