/**
 * The SSH server of ssh.go: choosing the configuration, handler factory and bind
 * address, the default handler, and the per-session read/dispatch loop.
 *
 * The transport is abstracted away: `Shell.Read` is a finite script of read
 * results, the handler is an oracle, and everything the loop does to the
 * session (calls, output lines, exit status, returning) is recorded as a trace
 * of events.
 */
module Ssh {
  import opened Configuration

  datatype Option<T> = None | Some(value: T)

  /**
   * A Go `error` as the session loop tells them apart: nil, the `io.EOF`
   * sentinel, or any other error. Go compares errors by identity, so an error
   * whose text happens to be "EOF" is still `Other`.
   */
  datatype Err = Nil | Eof | Other(msg: string)

  /** `err.Error()`; the loop only calls it on a non-nil error. */
  function ErrorText(err: Err): string
    requires err != Nil
  {
    match err
    case Eof => "EOF"
    case Other(msg) => msg
  }

  /** What a handler sees of its shell: the `user@remote` label and the prompt. */
  datatype Shell = Shell(instanceName: string, prompt: string)

  /** A call the loop makes on a handler. */
  datatype HandlerCall = LineCall(line: string) | EofCall

  /**
   * A handler: either the package's `defaultHandler`, or one supplied by the
   * embedder, modelled as an oracle that answers the n-th handler call of the
   * session (counting from 0).
   */
  datatype Handler =
    | DefaultHandler(shell: Shell)
    | Custom(reply: (nat, HandlerCall) -> Err)
  {
    /** `HandleLine(line)` as the n-th handler call of the session. */
    function HandleLine(n: nat, line: string): (e: Err)
      ensures DefaultHandler? ==> e == Nil
    {
      match this
      case DefaultHandler(_) => Nil
      case Custom(reply) => reply(n, LineCall(line))
    }

    /** `HandleEof()` as the n-th handler call of the session. */
    function HandleEof(n: nat): (e: Err)
      ensures DefaultHandler? ==> e == Nil
    {
      match this
      case DefaultHandler(_) => Nil
      case Custom(reply) => reply(n, EofCall)
    }
  }

  /** `defaultHandlerFactory`: a handler bound to the shell that never asks to end the session. */
  function DefaultHandlerFactory(shell: Shell): (h: Handler)
    ensures h.DefaultHandler? && h.shell == shell
    ensures forall n: nat, line :: h.HandleLine(n, line) == Nil
    ensures forall n: nat :: h.HandleEof(n) == Nil
  {
    DefaultHandler(shell)
  }

  /** `SshServer`: either pointer may be nil. */
  datatype SshServer = SshServer(config: Option<Config>, handlerFactory: Option<Shell -> Handler>)

  /** What `ListenAndServe` settles on before it starts listening. */
  datatype Settings = Settings(config: Config, handlerFactory: Shell -> Handler, bind: string)

  /** The selection and defaulting at the top of `ListenAndServe`. */
  function Setup(server: SshServer): (s: Settings)
    ensures server.config.None? ==> s.config == EmptyConfig
    ensures server.config.Some? ==> s.config == server.config.value
    ensures server.handlerFactory.None? ==> forall shell :: s.handlerFactory(shell) == DefaultHandler(shell)
    ensures server.handlerFactory.Some? ==> s.handlerFactory == server.handlerFactory.value
    ensures s.bind != ""
    ensures s.config.bind != "" ==> s.bind == s.config.bind
    ensures s.config.bind == "" ==> s.bind == DefaultBind
  {
    var config := if server.config.None? then EmptyConfig else server.config.value;
    var handlerFactory := if server.handlerFactory.None? then DefaultHandlerFactory else server.handlerFactory.value;
    Settings(config, handlerFactory, UseOrDefaultString(config.bind, DefaultBind))
  }

  /** The label `fmt.Sprintf("%s@%s", user, remoteAddr)` the session closure gives its shell. */
  function InstanceName(user: string, remoteAddr: string): (name: string)
    ensures |name| == |user| + 1 + |remoteAddr|
    // the user, the separator and the remote address can be read back from the name
    ensures name[..|user|] == user && name[|user|] == '@' && name[|user| + 1..] == remoteAddr
  {
    user + "@" + remoteAddr
  }

  /** One result of `shell.Read()`: the line and the error returned alongside it. */
  datatype ReadResult = ReadResult(line: string, err: Err)

  /** What the session loop does that can be observed. */
  datatype Event =
    | SetPrompt(prompt: string)
    | NewHandler(instanceName: string)
    | Read
    | CallHandleLine(line: string)
    | CallHandleEof
    | Output(text: string)
    | Exit(code: int)
    | Return

  /** `endSessionWithError`: a blank line, the error text, then exit status 1. */
  function EndSessionWithError(err: Err): (report: seq<Event>)
    requires err != Nil
    ensures |report| == 3 && report[0] == Output("") && report[2] == Exit(1)
    // the second line is `err.Error()`: "EOF" for io.EOF, the message otherwise
    ensures report[1] == Output(if err == Eof then "EOF" else err.msg)
  {
    [Output(""), Output(ErrorText(err)), Exit(1)]
  }

  /** One pass of the loop: its events, the handler calls made so far, and whether it returned. */
  datatype Pass = Pass(events: seq<Event>, calls: nat, stop: bool)

  /** The body of the session loop for read result `r`, after `calls` handler calls. */
  function Iterate(h: Handler, calls: nat, r: ReadResult): Pass
  {
    if r.err != Nil then
      if r.err == Eof then
        var e := h.HandleEof(calls);
        if e == Eof then Pass([Read, CallHandleEof, Return], calls + 1, true)
        else if e != Nil then Pass([Read, CallHandleEof] + EndSessionWithError(e) + [Return], calls + 1, true)
        else Dispatch(h, calls + 1, r.line, [Read, CallHandleEof])
      else
        Pass([Read] + EndSessionWithError(r.err) + [Return], calls, true)
    else
      Dispatch(h, calls, r.line, [Read])
  }

  /** The `HandleLine` half of a pass, after the events `before`. */
  function Dispatch(h: Handler, calls: nat, line: string, before: seq<Event>): Pass
  {
    var e := h.HandleLine(calls, line);
    if e == Eof then Pass(before + [CallHandleLine(line), Return], calls + 1, true)
    else if e != Nil then Pass(before + [CallHandleLine(line)] + EndSessionWithError(e), calls + 1, false)
    else Pass(before + [CallHandleLine(line)], calls + 1, false)
  }

  /** What a run of the loop produced: its trace, and whether it returned (otherwise it is still waiting in `Read`). */
  datatype Outcome = Outcome(trace: seq<Event>, returned: bool)

  /** The loop from read `i` of the script on, after `calls` handler calls. */
  function Loop(h: Handler, script: seq<ReadResult>, i: nat, calls: nat): Outcome
    requires i <= |script|
    decreases |script| - i
  {
    if i == |script| then Outcome([], false)
    else
      var p := Iterate(h, calls, script[i]);
      if p.stop then Outcome(p.events, true)
      else
        var rest := Loop(h, script, i + 1, p.calls);
        Outcome(p.events + rest.trace, rest.returned)
  }

  /** The whole session closure: set the prompt, build the handler, then loop. */
  function Session(settings: Settings, user: string, remoteAddr: string, script: seq<ReadResult>): Outcome
  {
    var shell := Shell(InstanceName(user, remoteAddr), "> ");
    var rest := Loop(settings.handlerFactory(shell), script, 0, 0);
    Outcome([SetPrompt("> "), NewHandler(shell.instanceName)] + rest.trace, rest.returned)
  }

  /**
   * The session closure passed to `ssh.ListenAndServe`, for the session of
   * `user` from `remoteAddr` whose reads return `script`: set the prompt, build
   * this session's handler, then run the read/dispatch loop.
   */
  method ServeSession(settings: Settings, user: string, remoteAddr: string, script: seq<ReadResult>)
    returns (trace: seq<Event>, returned: bool)
    ensures Outcome(trace, returned) == Session(settings, user, remoteAddr, script)
    ensures |trace| >= 2 && trace[0] == SetPrompt("> ") && trace[1] == NewHandler(InstanceName(user, remoteAddr))
  {
    var shell := Shell(InstanceName(user, remoteAddr), "");
    shell := shell.(prompt := "> ");
    trace := [SetPrompt("> ")];
    var handler := settings.handlerFactory(shell);
    trace := trace + [NewHandler(shell.instanceName)];
    var events;
    events, returned := RunLoop(handler, script);
    trace := trace + events;
  }

  /**
   * The `for {}` loop of the session closure. Where the Go loop would block in
   * `Read` once the script is used up, this method stops with `returned == false`.
   */
  method RunLoop(handler: Handler, script: seq<ReadResult>) returns (trace: seq<Event>, returned: bool)
    ensures Outcome(trace, returned) == Loop(handler, script, 0, 0)
  {
    trace, returned := [], false;
    var i, calls := 0, 0;
    while i < |script|
      invariant i <= |script|
      invariant !returned
      invariant Loop(handler, script, 0, 0) ==
        Outcome(trace + Loop(handler, script, i, calls).trace, Loop(handler, script, i, calls).returned)
    {
      ghost var rest := Loop(handler, script, i, calls);
      ghost var before := trace;
      var events, stop;
      events, calls, stop := RunPass(handler, calls, script[i]);
      trace := trace + events;
      if stop {
        assert rest == Outcome(events, true);
        returned := true;
        return;
      }
      assert rest.trace == events + Loop(handler, script, i + 1, calls).trace;
      assert trace + Loop(handler, script, i + 1, calls).trace == before + rest.trace;
      i := i + 1;
    }
  }

  /**
   * One pass of the loop body on the read result `r`, after `calls` handler
   * calls: its events, the new call count, and whether the closure returns.
   */
  method RunPass(handler: Handler, calls: nat, r: ReadResult) returns (events: seq<Event>, calls': nat, stop: bool)
    ensures Pass(events, calls', stop) == Iterate(handler, calls, r)
  {
    var line, err := r.line, r.err;
    events, calls', stop := [Read], calls, false;
    if err != Nil {
      if err == Eof {
        err := handler.HandleEof(calls');
        calls' := calls' + 1;
        events := events + [CallHandleEof];
        if err == Eof {
          events, stop := events + [Return], true;
          return;
        } else if err != Nil {
          events, stop := events + EndSessionWithError(err) + [Return], true;
          return;
        }
      } else {
        events, stop := events + EndSessionWithError(err) + [Return], true;
        return;
      }
    }
    // HandleEof answering nil falls through to here with the line read alongside io.EOF
    err := handler.HandleLine(calls', line);
    calls' := calls' + 1;
    events := events + [CallHandleLine(line)];
    if err != Nil {
      if err == Eof {
        events, stop := events + [Return], true;
        return;
      } else {
        // no return here: the loop reads again after reporting the error
        events := events + EndSessionWithError(err);
      }
    }
  }
}
