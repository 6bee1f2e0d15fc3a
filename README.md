# lunash in Dafny

A model of the core of `lunash`, a Go client for the shell of SafeNet Luna
HSMs over SSH. It covers three pieces of logic that sit on the SSH byte
stream, plus one selection filter:

- **The prompt reader and line splitters** (`util.go`, module `PromptReader`).
  `readUntilPrompt` reads the shell's output in chunks of 1024 until all that
  was read ends with the prompt `lunash:>`, then drops the prompt's line.
  `firstLine` and `lastLine` cut a text at its first or last newline and trim
  one carriage return from the line they take.
- **The batch command runner** (`client.go`, module `ShellClient`). `Run`
  reads the banner and optionally logs in with `hsm login -p <password>`. It
  then sends each command on its own line and reads its transcript up to the
  prompt. It cuts off the echoed command line and the status line, records a
  status other than `Command Result : 0 (Success)`, and keeps the output.
  Its error is reported ahead of the terminal set-up error (`WithPTY`), which
  is reported ahead of the session's error (`WithSession`).
- **The SCP sink** (`scp/scp.go`, module `Scp`). `getFile` acknowledges with
  a zero byte, reads the `C<mode> <length> <path>` header in one read and
  parses its length. It acknowledges again, reads the file in one read of
  exactly that length, rejects a short read and acknowledges the file.
- **Configuration selection and host-key check** (`config.go`, module
  `HsmConfig`). `LoadConfigs` keeps each loaded configuration once for every
  requested name equal to its host name or nickname. `verifyPublicKey`
  accepts a host key exactly when its fingerprint is the configured one.

The SSH stream is a script (module `Transport`). Each read is answered in
advance by a chunk of data or an error, and running out of script is a read
error. Writes consult their own script of outcomes, and every attempted
write is logged. The pipes are a `Channel` object whose `Read` and `Write`
update it in place. The functions of Go's `strings` package that the core
uses are in module `GoStrings`, over sequences with a one-element separator.

Each imperative piece of the source is a method proved against a function:
- `ReadUntilPrompt` against `UntilPrompt`/`PromptText`;
- `Client.Interact` and `SendCommand` against `Conversation`/`CommandStep`;
- `Client.Run` against `RunSpec`;
- `GetFile` against `GetFileSpec`;
- `LoadConfigs` against `Selection`.

What the source promises is then proved as lemmas about those functions.

Take a command whose transcript is `status\r\noutput line\r\nCommand Result :
0 (Success)\r\nlunash:>`. The code returns `output line\r` as its output, not
`output line\r\n`: only the line that is cut off loses its carriage return,
and the rest is joined back without the final newline
(`ShellClient.ExampleRun`).

A status error names the LAST command whose status line was not the success
line. Each failing status overwrites the error variable (client.go:81-83), so
a later failure replaces an earlier one.

## Model

| member | source | states |
|---|---|---|
| Transport.ReadWire | util.go:18 | one read delivers at most the buffer's size; what it delivers followed by what stays on the stream is all the stream's data before its first error; an error delivers nothing; writes are untouched |
| Transport.WriteWire | client.go:63 | a write is logged whatever happens, leaves the incoming stream alone, succeeds exactly when the next scripted outcome allows it, and leaves the rest of the outcome script in order |
| Transport.ExhaustedFails | util.go:18-21 | a stream with nothing left answers a read with an error |
| Transport.Channel.Read | util.go:18 | reading the pipe in place changes its state exactly as `ReadWire` says |
| Transport.Channel.Write | client.go:63 | writing the pipe in place changes its state exactly as `WriteWire` says |
| GoStrings.TrimSuffix | util.go:37 | `strings.TrimSuffix` removes the suffix once when present and otherwise returns the text unchanged; the result is always a prefix |
| GoStrings.Index | util.go:43 | the position of the first separator: none before it, the separator at it, or the length when there is none |
| GoStrings.LastIndex | util.go:36 | the position of the last separator: none after it; the length exactly when there is none |
| GoStrings.Split | util.go:36 | `strings.Split` gives at least one piece, no piece holds the separator, and joining the pieces gives the text back |
| GoStrings.SplitN | scp/scp.go:53 | `strings.SplitN` gives between 1 and n pieces; only the last may hold the separator, and only when all n are used; joining gives the text back |
| GoStrings.HasSuffix | util.go:24 | `strings.HasSuffix`: the text is at least as long as the suffix and ends with it |
| GoStrings.Join | util.go:38 | `strings.Join` with a one-element separator: the pieces in order with the separator between consecutive ones; `Split` is its inverse (`SplitJoin`) |
| GoStrings.SplitJoin | util.go:36-38 | splitting a join of separator-free pieces gives back those pieces |
| GoStrings.SplitNSplit | scp/scp.go:53-56 | `SplitN` yields min(pieces of `Split`, n) pieces and agrees with `Split` on all but its last piece |
| PromptReader.LastLine | util.go:35-40 | `lastLine`: with a newline, the rest is the text before the last newline, untouched, and the line is what follows it less one trailing `\r`; without one, the rest is empty and the line is the whole text less `\r`; the line never holds a newline |
| PromptReader.FirstLine | util.go:42-47 | `firstLine`: with a newline, the line is the text before the first newline less one trailing `\r` and the rest is what follows it, untouched; without one, the rest is empty; the line never holds a newline |
| PromptReader.SplitFirst | util.go:43-45 | the first piece of `Split` is the text before the first newline, and the other pieces join up to the text after it |
| PromptReader.SplitLast | util.go:36-38 | the last piece of `Split` is the text after the last newline, and the other pieces join up to the text before it |
| PromptReader.Gather | util.go:17-27 | the read loop keeps the chunks already read and never writes |
| PromptReader.GatherStops | util.go:17-27 | the loop reports the prompt only when all read ends with it, stops at the first chunk after which that holds, and a read error stops it before any such chunk |
| PromptReader.GatherConserves | util.go:17-22 | the chunks read are the stream's data in order, up to where the loop stopped or, on an error, all the data before the error |
| PromptReader.UntilPrompt | util.go:13-33 | the read loop of `readUntilPrompt` from an empty buffer; its properties are `PromptedAtFirstPrompt`, `ReadErrorConsumesStream` and `PromptedConservesStream` |
| PromptReader.PromptText | util.go:29-32 | what `readUntilPrompt` returns: the rest `lastLine` leaves of all that was read when the prompt was reached, and an error otherwise |
| PromptReader.ReadUntilPrompt | util.go:13-33 | the loop returns the text `lastLine` leaves of all it read, or a read error, and leaves the stream as `UntilPrompt` says |
| PromptReader.PromptedAtFirstPrompt | util.go:24-26 | text is returned exactly when all read ends with `lunash:>`, and no earlier prefix of the chunks did |
| PromptReader.ReadErrorConsumesStream | util.go:18-21 | a read error returns no text, after reading all the stream delivered before the error, with no retry |
| PromptReader.PromptedConservesStream | util.go:22-32 | on success, all read plus what remains is all the stream's data, and the returned text is a prefix of all read |
| PromptReader.RestIsPrefix | util.go:38 | what `lastLine` leaves is a prefix of its input |
| PromptReader.PromptLine | util.go:30 | in a text ending with the prompt, `lastLine` leaves everything before the newline that precedes the prompt's line, and that line ends with the prompt; with no newline it leaves nothing |
| PromptReader.PromptTextBeforePromptLine | util.go:29-32 | the text `readUntilPrompt` returns is all it read up to the newline before the line holding the prompt |
| HsmConfig.Matches | config.go:58-61 | the inner loop over the names for one configuration: the configuration once per name equal to its host name or nickname (`MatchesCount`) |
| HsmConfig.Selection | config.go:57-63 | the outer loop over the loaded configurations, concatenating each one's `Matches` in loaded order (`SelectionAppend`, `SelectionMultiplicity`, `SelectionSound`) |
| HsmConfig.LoadConfigs | config.go:49-66 | a load error is passed on with no configurations; otherwise the nested loop returns `Selection` of the loaded list |
| HsmConfig.MatchesCount | config.go:58-61 | one configuration is kept once per requested name designating it, and nothing else is kept for it |
| HsmConfig.MatchCountPositive | config.go:59 | a configuration is kept at least once exactly when some requested name equals its host name or nickname |
| HsmConfig.SelectionAppend | config.go:57-58 | the order of the loaded list is kept: selecting from `a + b` is selecting from `a`, then from `b` |
| HsmConfig.SelectionMultiplicity | config.go:57-63 | each configuration occurs in the result as often as it is loaded times the number of names designating it, so repeated names repeat it and undesignated ones are excluded |
| HsmConfig.SelectionSound | config.go:57-63 | every selected configuration was loaded and is designated by a requested name |
| HsmConfig.SelectionNoNames | config.go:55-65 | no requested names give no configurations |
| HsmConfig.ExampleSelections | config_test.go:38-59 | from the example file, `hsm1` and `2.2.2.2` select both configurations in order, and each name alone selects its own |
| HsmConfig.ExampleMatches | config_test.go:47-58 | `hsm1` designates only the first example configuration (by nickname) and `2.2.2.2` only the second (by host name) |
| HsmConfig.VerifyPublicKey | config.go:93-101 | the key is accepted exactly when its fingerprint equals the configured one; a refusal names the host and the fingerprint presented |
| Scp.ParseInt | scp/scp.go:58 | `strconv.ParseInt(s, 10, 64)` succeeds only on non-empty text and only with a value in the 64-bit range; what it accepts and refuses is `ParseIntDigits` and `ParseIntRefuses` |
| Scp.ParseIntDigits | scp/scp.go:58-61 | no sign, `+` or `-` followed by one or more digits parses as the signed value of the digits when it fits in 64 bits, and is an error when it does not; a sign with no digit is an error |
| Scp.ParseIntRefuses | scp/scp.go:58-61 | text with a byte that is not a digit, other than a leading sign, is an error |
| Scp.Digits | scp/scp.go:58 | the decimal digits of a natural number, with no sign, have that value |
| Scp.ParseDecimal | scp/scp.go:58 | parsing the decimal form of any 64-bit integer gives it back |
| Scp.ParseLength | scp/scp.go:53-61 | fewer than three `SplitN` fields is bad metadata, a second field that does not parse is a bad length, and a parsed length is in the 64-bit range |
| Scp.BadMetadataIff | scp/scp.go:53-56 | a header is bad metadata exactly when it has fewer than two spaces; the path may hold spaces |
| Scp.ParseHeader | scp/scp.go:49-61 | every header `mode length path`, with a space-free mode and any path, gives back its length |
| Scp.LengthField | scp/scp.go:53-61 | for any space-free mode and second field and any path, the header is a bad length exactly when `ParseInt` refuses the second field, and otherwise its length is `ParseInt`'s value of that field |
| Scp.NonCanonicalLengths | scp/scp.go:58 | `+12` and `0012` parse as 12 and `-0` as 0, while a lone sign or a trailing space is refused |
| Scp.ExampleLength | scp/scp.go:50-52 | `C0644 1192 server.pem` announces 1192 bytes |
| Scp.GetFileSpec | scp/scp.go:37-46 | `getFile` up to the header: acknowledge, read at most 1024 bytes, and fail on a read error before any parsing |
| Scp.AfterParse | scp/scp.go:53-67 | a header that does not parse ends the transfer; a parsed one is acknowledged, and a negative length then panics |
| Scp.Payload | scp/scp.go:67-80 | one read of exactly the announced length: an error, a short read as an incomplete file, or the file followed by the last acknowledgement |
| Scp.GetFile | scp/scp.go:37-81 | the in-place transfer returns what `GetFileSpec` says and leaves the stream as it says |
| Scp.AcksOnly | scp/scp.go:39-78 | only zero bytes are written: one before the header, a second after an accepted header, a third after a complete file |
| Scp.GotAnnouncedLength | scp/scp.go:67-80 | a returned file has exactly the length its header announced and is the data the stream delivered after the header |
| Scp.ShortReadIncomplete | scp/scp.go:68-74 | a payload read shorter than announced is an incomplete-file error, never a short file |
| Scp.HeaderAccepted | scp/scp.go:58-68 | a header announcing a non-negative length is acknowledged (exactly two zero bytes written so far), and the payload read comes next on the stream after the header |
| Scp.BadHeaderStops | scp/scp.go:53-61 | a header that does not parse ends the transfer with an error, with one acknowledgement sent and no payload read |
| Scp.NegativeLengthPanics | scp/scp.go:58-67 | a header announcing a negative length makes the transfer panic after the second acknowledgement |
| Scp.EmptyFile | scp/scp.go:67-80 | a zero-length file is returned empty without consuming stream data |
| ShellClient.WithNewline | client.go:57-61 | a command ending in a newline is sent verbatim; any other gets exactly one newline |
| ShellClient.WithNewlines | client.go:54-61 | one line is sent per command |
| ShellClient.ReplyBetweenLines | client.go:75-79 | with two newlines or more, the output is the text between the first and the last newline, and the status is the line after the last less `\r` |
| ShellClient.ReplyCuts | client.go:76-79 | the output is cut from the text after the echo line up to its last newline, and the status follows that newline |
| ShellClient.ReplyNoNewline | client.go:76-79 | a transcript without a newline has empty output and an empty status |
| ShellClient.ReplyOneNewline | client.go:76-79 | a transcript with a single newline has empty output and the text after it, less `\r`, as its status |
| ShellClient.ReplyOfParts | client.go:75-79 | an echo line, any output (even over several lines) and a status line give back that output whole and that status less `\r` |
| ShellClient.LoginLine | client.go:41 | the line `hsm login -p <password>` ended by a newline, written once after the banner when a login is asked for |
| ShellClient.Reply | client.go:76-79 | a transcript cut by `firstLine` then `lastLine`: the output is `lastLine`'s rest and the status its line (`ReplyBetweenLines`, `ReplyOfParts`) |
| ShellClient.CommandStep | client.go:55-85 | the command is always sent with its newline; a failed write names the command and stops; after a good write the transcript is what `readUntilPrompt` returns, a read failure names the command, and otherwise that transcript is appended with its output kept and a status other than success recorded; the stream is left where the read stopped |
| ShellClient.AfterRead | client.go:69-85 | a read failure names the command and adds nothing; text read is appended as the transcript, its output is kept and a non-success status recorded |
| ShellClient.RunCommands | client.go:54-86 | the loop over the commands: each runs as `CommandStep` says, and a read or write error stops the loop (`RunCommandsOutputs`, `RunCommandsSent`, `RunCommandsStatus`) |
| ShellClient.RunCommandsOutputs | client.go:54-86 | outputs keep the order of the commands, one per transcript read, each its transcript less echo and status line; a read or write error stops at the command it names, otherwise every command ran |
| ShellClient.RunCommandsSent | client.go:54-67 | the batch sends each command in turn, with its newline, up to and including the one that failed |
| ShellClient.RunCommandsStatus | client.go:78-90 | there is no error exactly when every command ran and every status was the success line; a status error names the last failing command and later successes do not clear it |
| ShellClient.RunCommandsStep | client.go:54-86 | a batch that survives its first command goes on with the rest |
| ShellClient.Conversation | client.go:34-87 | the callback of `Run`: banner, optional login whose answer's status is not checked, then `RunCommands` from an empty state (`ConversationStart`) |
| ShellClient.ConversationStart | client.go:34-52 | a banner or login failure gives no output and sends no command; otherwise the commands run from a clean state after only the login line was sent; the login answer's status is not checked |
| ShellClient.RunSpec | client.go:89-154 | no error exactly when the session opened, the terminal was set up, the conversation had no error and the session closed; the conversation's error comes first, then the set-up step's, then the session's; no output without a terminal |
| ShellClient.RunOutputCount | client.go:32-92 | at most one output per command, and one for every command when no error is reported |
| ShellClient.OneChunkTranscript | util.go:17-32 | a transcript arriving in one chunk with the prompt is returned whole, and the stream goes on after that chunk |
| ShellClient.ExampleRun | client.go:54-92 | `status` whose transcript holds `output line` returns output `output line\r`, sends `status\n`, and errs with the command's name exactly when its status line is not the success line |
| ShellClient.ExampleCommand | client.go:63-85 | one `status` command on a one-chunk answer keeps `output line\r` and records a non-success status |
| ShellClient.SendCommand | client.go:55-85 | one pass of the loop, in place, does what `CommandStep` says |
| ShellClient.Client.constructor | client.go:19-21 | a new client holds its configuration and is not connected |
| ShellClient.Client.Connect | client.go:24-27 | the connection is kept exactly when dialing succeeded, and a failure is reported |
| ShellClient.Client.Run | client.go:30-93 | `Run` in place, with the session steps' outcomes as input, returns the outputs and the error `RunSpec` gives |
| ShellClient.Client.Interact | client.go:34-87 | the callback reads the banner, logs in if asked, and runs the loop exactly as `Conversation` says |

## Left out

- SSH plumbing is not modelled: dialing and authentication (`sshClient`, config.go:73-90), `NewSession`, `RequestPty`, the pipes, `Shell`, `Start` and `Wait`. Only the success or failure of each step is kept, as `SessionEnv` and the `dialed` flag of `Client.Connect`, feeding the error-priority rules.
- `Client.Close` (client.go:157-165) and the closing of the SSH client are not modelled; closing a session is only an outcome.
- `ssh.FingerprintSHA256` is a parameter of `VerifyPublicKey`: it is a foreign cryptographic hash.
- `LoadAllConfigs` (config.go:27-45) is file I/O and JSON decoding; `LoadConfigs` takes its result, an already-parsed list or a load error.
- The `GetFile` wrapper (scp/scp.go:18-35) and `openPipes` (scp/scp.go:83-97) are SSH plumbing; `Scp.GetFile` models `getFile`.
- Debug logging (scp/scp.go:15, scp/scp.go:99-109) has no effect on results and is left out.
- The programs under `cmd/` are left out: they parse flags and copy standard input and output, and they call functions that are not part of this model.
- Error messages are not modelled as text; each error is a constructor naming its cause and, where the source names it, the command.
- Scp.GetFile: Go's `make` of a huge length may fail to allocate; the model treats any non-negative length as allocatable.
- Scp.NegativeLengthPanics: a negative announced length is modelled as a `Panicked` outcome, as Go's `make` panics; the source does not reject it.
- Bytes and characters are not distinguished on the shell side: transcripts are `string`, since the source converts the buffer with `string(...)` and searches text only.
- ShellClient.WithNewlines states only that one line is sent per command; what each line is comes from `WithNewline`, through `RunCommandsSent`.
