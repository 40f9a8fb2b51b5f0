# go-ssh-shell: the session loop, modelled and verified in Dafny

go-ssh-shell is a Go package for building a line-oriented shell that users reach over SSH.
The embedding program supplies a `HandlerFactory`, which builds one `Handler` per session, and an optional `Config`.
`SshServer.ListenAndServe` applies defaults to these and starts serving.
For every accepted session it runs a loop:
- read a line from the shell;
- hand the line to `HandleLine`, or hand end-of-input (Ctrl-D, `io.EOF`) to `HandleEof`;
- act on the error the handler returns.

The loop ends the session in one of two ways:
- cleanly, when it returns because someone answered `io.EOF`;
- with an error report: a blank line, the error text, then exit status 1.

This project models that core:
- `config.dfy` (module `Configuration`) has the `Config` and `User` records, the shipped defaults (`100` and `":22"`) and the two zero-value defaulting helpers.
- `ssh.dfy` (module `Ssh`) has the rest:
  - the choice of configuration, handler factory and bind address;
  - the default handler and its factory;
  - `endSessionWithError`;
  - the session closure.

  The closure is the imperative method `ServeSession`. It calls `RunLoop`, a `while` loop over the reads, and `RunPass`, one pass of the loop body with Go's early returns. Each method is proved to compute a specification function: `Session`, `Loop` or `Iterate`.
- `session_properties.dfy` (module `SessionProperties`) proves what the loop guarantees about those specification functions, for every read script and every handler.

How the environment of the loop is represented:
- **Errors.** A Go `error` is `Err = Nil | Eof | Other(msg)`. Go compares errors by identity, so an `Other` whose text is "EOF" is not `io.EOF`.
- **Reads.** `shell.Read()` is a finite script of `(line, error)` results. When the script is used up, the session is still waiting in `Read`, and the loop reports `returned == false`.
- **Handlers.** A custom handler is an oracle. It answers the n-th handler call of the session, counting from 0.
- **Observable behaviour.** Everything the closure does is a trace of events: setting the prompt, building the handler, each `Read`, each handler call, each output line, `Exit(1)`, and returning.

Two behaviours of the code are modelled exactly as written:
1. When `HandleEof` returns nil, control falls through to `HandleLine`. It receives the line that came back alongside `io.EOF` (ssh.go:84-99).
2. After `HandleLine` returns an error other than `io.EOF`, the error is reported and `Exit(1)` is sent. There is no `return`, so the loop goes back to `Read` (ssh.go:99-106).

The interface comment at ssh.go:24-25 says that a `HandleLine` error closes the session. After the report, the loop does call the session's `Exit(1)`, but it does not return: it calls `Read` again. What that `Read` yields after `Exit` depends on the SSH library and is not modelled; the model takes it from the read script like any other read. `DiskFullScenario` shows the read that follows the report.

## Model

| member | source | states |
|---|---|---|
| Configuration.UseOrDefaultInt | config.go:19-25 | the default when the value is 0, otherwise the value unchanged |
| Configuration.UseOrDefaultString | config.go:27-33 | the default when the value is "", otherwise the value unchanged |
| Configuration.UseOrDefaultIntIdempotent | config.go:19-25 | applying the integer default twice with the same default gives the same result as applying it once |
| Configuration.UseOrDefaultStringIdempotent | config.go:27-33 | applying the string default twice with the same default gives the same result as applying it once |
| Configuration.DefaultedIsSetUnlessBothUnset | config.go:19-33 | a defaulted value is 0 (or "") if and only if both the value and the default are |
| Configuration.ShippedDefaultsNeverUnset | config.go:14-17 | with the shipped defaults 100 and ":22", the effective history size is never 0 and the bind address is never empty |
| Ssh.Handler.HandleLine | ssh.go:38-41 | the default handler's `HandleLine` returns nil for every line |
| Ssh.Handler.HandleEof | ssh.go:43-46 | the default handler's `HandleEof` returns nil |
| Ssh.DefaultHandlerFactory | ssh.go:48-50 | builds a default handler bound to the given shell; that handler answers nil to every `HandleLine` and `HandleEof` call |
| Ssh.InstanceName | ssh.go:74 | the shell's label is the user, "@", then the remote address; each part can be read back from the label |
| Ssh.EndSessionWithError | ssh.go:114-118 | exactly three events: the blank line, the error text (`err.Error()`, "EOF" for `io.EOF`), then exit status 1; `PassBranches`, `PassFallThrough` and `PassReport` state that every report a pass makes is exactly this report of the error it received |
| Ssh.Setup | ssh.go:55-69 | a nil config becomes the empty `Config{}` and a given one is kept; a nil factory becomes `defaultHandlerFactory` and a given one is kept; the bind address is the config's when non-empty and ":22" otherwise, so it is never empty |
| Ssh.ServeSession | ssh.go:73-108 | its trace and return status are exactly `Session`; it starts with setting the prompt "> " and then building the handler for `user@remoteAddr` |
| Ssh.RunLoop | ssh.go:81-107 | its trace, and whether it returned, are exactly `Loop` on the whole script from the first handler call |
| Ssh.RunPass | ssh.go:82-106 | its events, the new handler-call count and whether the closure returns are exactly `Iterate` for that read |
| SessionProperties.PassShape | ssh.go:82-118 | every pass reads exactly once, first; it writes `Return` at most once, as its last event, and returns exactly then; every `Exit` is `Exit(1)` right after `Output("")` and one more output line (`PassReport` states that line is the error's text); `HandleLine` only receives the line just read; a pass makes at most two handler calls |
| SessionProperties.PassDecomposed | ssh.go:82-106 | every pass is the read, then handler calls (only `HandleEof` and `HandleLine` of the read line), then one of four endings: carry on, report and carry on, report and return, or return |
| SessionProperties.DispatchDecomposed | ssh.go:99-106 | the `HandleLine` step makes one call; it returns cleanly exactly when `HandleLine` answers `io.EOF`, reports that error's text and carries on for any other error, and carries on with nothing written exactly when it answers nil; it never reports and returns |
| SessionProperties.PassBranches | ssh.go:84-106 | a successful read goes to `HandleLine` with that line and never to `HandleEof`; `io.EOF` goes to `HandleEof` first; `HandleEof` answering `io.EOF` returns with no output and no exit status; any other `HandleEof` error is reported (blank line, text, `Exit(1)`) and returns; `HandleEof` answering nil falls through to `HandleLine` with the line read alongside `io.EOF`; a read error other than `io.EOF` is reported and returns without calling a handler; `HandleLine` answering `io.EOF` returns cleanly; any other `HandleLine` error is reported but does not return; `HandleLine` answering nil writes nothing and does not return |
| SessionProperties.PassFallThrough | ssh.go:84-106 | after a read returns `io.EOF` and `HandleEof` answers nil, the fall-through `HandleLine` call on the line read alongside `io.EOF` decides the pass: `io.EOF` returns cleanly, any other error is reported without returning, nil writes nothing and goes on; the pass makes two handler calls |
| SessionProperties.PassReport | ssh.go:84-106 | a pass sends exit status 1 if and only if it receives an error to report (`ReportedError`: a read error other than `io.EOF`, else such an error from `HandleEof`, else from the `HandleLine` call that follows); every `Exit` it sends closes exactly `endSessionWithError` of that error: a blank line, the error's text, `Exit(1)` |
| SessionProperties.LoopReturnAndExits | ssh.go:81-107 | the loop returned if and only if its trace ends with `Return`; `Return` appears nowhere else; every `Exit` in the trace is `Exit(1)` right after `Output("")` and one more output line |
| SessionProperties.LoopReadCount | ssh.go:81-82 | the loop reads at most once per script entry; if it did not return, it read every entry |
| SessionProperties.LoopNoSetup | ssh.go:81-107 | the loop never sets the prompt and never builds another handler |
| SessionProperties.LoopCallsAndLines | ssh.go:82-99 | every line given to `HandleLine` is a line that some read of the script returned |
| SessionProperties.SessionSetUp | ssh.go:74-82 | a session first sets the prompt to "> " and then builds its handler for `user@remoteAddr`, both before the first `Read`; neither happens again, so the factory is called exactly once |
| SessionProperties.DefaultPass | ssh.go:38-46 | under the default handler, a read error other than `io.EOF` is reported and returns; any other read hands its line to `HandleLine` and carries on without an exit status |
| SessionProperties.DefaultHandlerEnds | ssh.go:38-46 | a session served by the default handler returns if and only if some read fails with an error other than `io.EOF`; it then ends with that read, a blank line, the error text, `Exit(1)` and `Return`; otherwise it never sends an exit status |
| SessionProperties.DefaultHandlerLines | ssh.go:81-107 | under the default handler, the lines given to `HandleLine` are, in order, exactly the lines read before the first failed read, including a line read alongside `io.EOF` |
| SessionProperties.DisconnectScenario | ssh.go:93-96 | a client sends "help" and "status", then its read fails with "connection reset": both lines reach `HandleLine`, and the session ends with the error report and returns |
| SessionProperties.DiskFullScenario | ssh.go:99-106 | `HandleLine` answering "disk full" sends a blank line, "disk full" and `Exit(1)`; the loop then reads again, and Ctrl-D answered with `io.EOF` returns |

## Left out

- Transport: `ssh.ListenAndServe`, socket binding, the session's `User`, `RemoteAddr` and `Exit` belong to the gliderlabs/ssh library. The user and remote address are parameters, and `Exit(1)` is a trace event. The model does not capture what the library does after `Exit(1)`, for example whether the next read fails; the next read comes from the read script.
- Authentication: `NewAuth` and `PasswordHandler` are not part of this model. The sessions modelled are already authenticated.
- Host keys: `NewHostKeyResolver` and `ResolveOption` are not part of this model.
- `Shell` internals: the `Shell` type and its methods `NewShell`, `Read`, `SetPrompt`, `OutputLine` and `InstanceName` are not part of this model. The label the closure builds with `fmt.Sprintf` and passes to `NewShell` is modelled, as `Ssh.InstanceName`.
  - `Read` is a finite script of results.
  - The errors of `OutputLine` and `Exit` are discarded by the code, and the model does not record them.
  - The history size only reaches `NewShell`, so only its defaulting is modelled.
- Ssh.ServeSession: a session whose reads never stop is observed only up to the end of the read script; the model does not capture a loop that never ends.
- Custom handlers: a custom handler is a function of the call's index and argument. Its internal state, and any effect it has on the shell, are not modelled.
- Logging: every `log.Printf` call is left out. It has no effect on the session's behaviour.
- Concurrency: each session runs in its own goroutine, which the library starts. The model covers one session at a time.
- Integer width: Go's `int` is 32 or 64 bits wide, depending on the platform. Nothing here does arithmetic on it (`HistorySize`, the helpers' arguments, the exit code), so the model uses unbounded integers.
- `examples_test.go`: a usage example, with no logic of the package.
