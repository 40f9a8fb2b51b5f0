/**
 * What the session loop of ssh.go guarantees, stated over the specification
 * functions `Iterate`, `Loop` and `Session` that `RunPass`, `RunLoop` and
 * `ServeSession` are proved to compute.
 */
module SessionProperties {
  import opened Ssh

  // ---------------------------------------------------------------------------
  // One pass of the loop
  // ---------------------------------------------------------------------------

  /** No event of `events` belongs to the session set-up (prompt, handler factory). */
  ghost predicate NoSetupEvents(events: seq<Event>)
  {
    forall e :: e in events ==> !e.SetPrompt? && !e.NewHandler?
  }

  /** `Return` appears in `events` at most once, as its last event. */
  ghost predicate ReturnOnlyLast(events: seq<Event>)
  {
    |events| == 0 || Return !in events[..|events| - 1]
  }

  /** Every `Exit` in `events` closes an error report: it is `Exit(1)` right after `Output("")` and one more `Output`. */
  ghost predicate ExitsAreErrorReports(events: seq<Event>)
  {
    forall j :: 0 <= j < |events| && events[j].Exit? ==>
      2 <= j && events[j] == Exit(1) && events[j - 2] == Output("") && events[j - 1].Output?
  }

  /** The shape of one pass: exactly one `Read`, first; `Return` only last; exits only closing error reports. */
  ghost predicate PassShaped(events: seq<Event>, line: string)
  {
    && |events| >= 2 && events[0] == Read
    && multiset(events)[Read] == 1
    && ReturnOnlyLast(events)
    && ExitsAreErrorReports(events)
    && NoSetupEvents(events)
    // HandleLine only ever receives the line that was read
    && (forall e :: e in events && e.CallHandleLine? ==> e.line == line)
  }

  /** How a pass ends: carrying on, or reporting an error, and/or returning. */
  datatype Ending = Continue | Report(msg: string) | ReportAndReturn(msg: string) | CleanReturn

  function EndingEvents(ending: Ending): seq<Event>
  {
    match ending
    case Continue => []
    case Report(msg) => [Output(""), Output(msg), Exit(1)]
    case ReportAndReturn(msg) => [Output(""), Output(msg), Exit(1), Return]
    case CleanReturn => [Return]
  }

  lemma ExitFree(events: seq<Event>)
    requires forall e :: e in events ==> !e.Exit?
    ensures ExitsAreErrorReports(events)
  {
  }

  lemma ExitsAreErrorReportsAppend(a: seq<Event>, b: seq<Event>)
    requires ExitsAreErrorReports(a) && ExitsAreErrorReports(b)
    ensures ExitsAreErrorReports(a + b)
  {
    var ab := a + b;
    forall j | 0 <= j < |ab| && ab[j].Exit?
      ensures 2 <= j && ab[j] == Exit(1) && ab[j - 2] == Output("") && ab[j - 1].Output?
    {
      if j >= |a| {
        assert ab[j] == b[j - |a|];
        assert ab[j - 2] == b[j - |a| - 2] && ab[j - 1] == b[j - |a| - 1];
      } else {
        assert ab[j] == a[j];
      }
    }
  }

  /** A pass made of the read, handler calls on `line`, and an ending has the shape of a pass. */
  lemma ShapeOf(calls: seq<Event>, ending: Ending, line: string)
    requires forall e :: e in calls ==> e == CallHandleEof || e == CallHandleLine(line)
    requires calls != [] || ending != Continue
    ensures var events := [Read] + calls + EndingEvents(ending);
      && PassShaped(events, line)
      && (events[|events| - 1] == Return <==> ending.ReportAndReturn? || ending.CleanReturn?)
  {
    ShapeReads(calls, ending, line);
    ShapeExits(calls, ending);
    ShapeReturn(calls, ending, line);
  }

  lemma ShapeReads(calls: seq<Event>, ending: Ending, line: string)
    requires forall e :: e in calls ==> e == CallHandleEof || e == CallHandleLine(line)
    ensures var events := [Read] + calls + EndingEvents(ending);
      && multiset(events)[Read] == 1
      && NoSetupEvents(events)
      && (forall e :: e in events && e.CallHandleLine? ==> e.line == line)
  {
    var tail := EndingEvents(ending);
    EndingEventsPlain(ending);
    ShapeReadOnce(calls, tail);
    var events := [Read] + calls + tail;
    forall e | e in events
      ensures !e.SetPrompt? && !e.NewHandler? && (e.CallHandleLine? ==> e.line == line)
    {
      assert e == Read || e in calls || e in tail;
    }
  }

  /** The events that end a pass are neither reads, handler calls nor set-up events. */
  lemma EndingEventsPlain(ending: Ending)
    ensures forall e :: e in EndingEvents(ending) ==>
      e != Read && !e.SetPrompt? && !e.NewHandler? && !e.CallHandleLine?
  {
  }

  lemma ShapeReadOnce(calls: seq<Event>, tail: seq<Event>)
    requires Read !in calls && Read !in tail
    ensures multiset([Read] + calls + tail)[Read] == 1
  {
    assert [Read] + calls + tail == [Read] + (calls + tail);
    assert Read !in calls + tail;
    assert multiset([Read] + (calls + tail)) == multiset([Read]) + multiset(calls + tail);
  }

  lemma ShapeExits(calls: seq<Event>, ending: Ending)
    requires forall e :: e in calls ==> !e.Exit?
    ensures ExitsAreErrorReports([Read] + calls + EndingEvents(ending))
  {
    var tail := EndingEvents(ending);
    ExitFree([Read] + calls);
    assert ExitsAreErrorReports(tail);
    ExitsAreErrorReportsAppend([Read] + calls, tail);
  }

  lemma ShapeReturn(calls: seq<Event>, ending: Ending, line: string)
    requires forall e :: e in calls ==> e == CallHandleEof || e == CallHandleLine(line)
    requires calls != [] || ending != Continue
    ensures var events := [Read] + calls + EndingEvents(ending);
      && ReturnOnlyLast(events)
      && (events[|events| - 1] == Return <==> ending.ReportAndReturn? || ending.CleanReturn?)
  {
    var tail := EndingEvents(ending);
    var events := [Read] + calls + tail;
    assert Return !in calls;
    if tail == [] {
      var n := |calls| - 1;
      assert calls == calls[..n] + [calls[n]];
      assert events[..|events| - 1] == [Read] + calls[..n];
      assert events[|events| - 1] == calls[n];
    } else {
      assert events[..|events| - 1] == [Read] + calls + tail[..|tail| - 1];
      assert events[|events| - 1] == tail[|tail| - 1];
    }
  }

  /** Every pass has that shape, whatever the read result and the handler's answers. */
  lemma PassShape(h: Handler, calls: nat, r: ReadResult)
    ensures var p := Iterate(h, calls, r);
      && PassShaped(p.events, r.line)
      && (p.stop <==> p.events[|p.events| - 1] == Return)
      && calls <= p.calls <= calls + 2
  {
    var handled, ending := PassDecomposed(h, calls, r);
    ShapeOf(handled, ending, r.line);
  }

  /** A pass splits into its read, the handler calls it makes, and its ending. */
  lemma PassDecomposed(h: Handler, calls: nat, r: ReadResult) returns (handled: seq<Event>, ending: Ending)
    ensures var p := Iterate(h, calls, r);
      && p.events == [Read] + handled + EndingEvents(ending)
      && (forall e :: e in handled ==> e == CallHandleEof || e == CallHandleLine(r.line))
      && (handled != [] || ending != Continue)
      && (p.stop <==> ending.ReportAndReturn? || ending.CleanReturn?)
      && calls <= p.calls <= calls + 2
  {
    var p := Iterate(h, calls, r);
    if r.err.Other? {
      handled, ending := [], ReportAndReturn(r.err.msg);
    } else if r.err == Eof && h.HandleEof(calls) == Eof {
      handled, ending := [CallHandleEof], CleanReturn;
    } else if r.err == Eof && h.HandleEof(calls).Other? {
      handled, ending := [CallHandleEof], ReportAndReturn(h.HandleEof(calls).msg);
    } else {
      var before := if r.err == Nil then [] else [CallHandleEof];
      var c := if r.err == Nil then calls else calls + 1;
      assert p == Dispatch(h, c, r.line, [Read] + before);
      handled := before + [CallHandleLine(r.line)];
      ending := DispatchDecomposed(h, c, r.line, before);
    }
  }

  /** The `HandleLine` half of a pass ends by returning cleanly, by reporting and going on, or by just going on. */
  lemma DispatchDecomposed(h: Handler, calls: nat, line: string, before: seq<Event>) returns (ending: Ending)
    ensures var p := Dispatch(h, calls, line, [Read] + before);
      && p.events == [Read] + (before + [CallHandleLine(line)]) + EndingEvents(ending)
      && (p.stop <==> ending.CleanReturn?)
      // io.EOF returns cleanly, any other error is reported and the loop carries on, nil just carries on
      && (h.HandleLine(calls, line) == Eof <==> ending == CleanReturn)
      && (h.HandleLine(calls, line).Other? ==> ending == Report(h.HandleLine(calls, line).msg))
      && (h.HandleLine(calls, line) == Nil <==> ending == Continue)
      && !ending.ReportAndReturn?
      && p.calls == calls + 1
  {
    var e := h.HandleLine(calls, line);
    ending := if e == Eof then CleanReturn else if e.Other? then Report(e.msg) else Continue;
    assert [Read] + (before + [CallHandleLine(line)]) == [Read] + before + [CallHandleLine(line)];
  }

  /** How a pass branches on the read error and on the handler's answers (ssh.go, the `for {}` body). */
  lemma PassBranches(h: Handler, calls: nat, r: ReadResult)
    ensures var p := Iterate(h, calls, r);
      // a successful read is dispatched to HandleLine with exactly that line, and never to HandleEof
      && (r.err == Nil ==> p.events[1] == CallHandleLine(r.line) && CallHandleEof !in p.events)
      // end of input goes to HandleEof first
      && (r.err == Eof ==> p.events[1] == CallHandleEof)
      // HandleEof answering io.EOF ends the session cleanly: no output, no exit status
      && (r.err == Eof && h.HandleEof(calls) == Eof ==> p.stop && p.events == [Read, CallHandleEof, Return])
      // HandleEof answering another error is reported and ends the session
      && (r.err == Eof && h.HandleEof(calls).Other? ==>
            p.stop && p.events == [Read, CallHandleEof, Output(""), Output(h.HandleEof(calls).msg), Exit(1), Return])
      // HandleEof answering nil falls through to HandleLine with the line read alongside io.EOF
      && (r.err == Eof && h.HandleEof(calls) == Nil ==> |p.events| >= 3 && p.events[2] == CallHandleLine(r.line))
      // any other read error is reported and ends the session without calling the handler
      && (r.err.Other? ==>
            p.stop && p.calls == calls && p.events == [Read, Output(""), Output(r.err.msg), Exit(1), Return])
      // HandleLine answering io.EOF ends the session cleanly
      && (r.err == Nil && h.HandleLine(calls, r.line) == Eof ==>
            p.stop && p.events == [Read, CallHandleLine(r.line), Return])
      // HandleLine answering another error is reported, but there is no return: the loop goes on
      && (r.err == Nil && h.HandleLine(calls, r.line).Other? ==>
            !p.stop && p.events == [Read, CallHandleLine(r.line), Output(""), Output(h.HandleLine(calls, r.line).msg), Exit(1)])
      // HandleLine answering nil: nothing is written and the loop goes on
      && (r.err == Nil && h.HandleLine(calls, r.line) == Nil ==>
            !p.stop && p.calls == calls + 1 && p.events == [Read, CallHandleLine(r.line)])
  {
  }

  /** After `HandleEof` answers nil, the fall-through `HandleLine` call decides the pass as on a successful read. */
  lemma PassFallThrough(h: Handler, calls: nat, r: ReadResult)
    requires r.err == Eof && h.HandleEof(calls) == Nil
    ensures var p := Iterate(h, calls, r);
      var e := h.HandleLine(calls + 1, r.line);
      && p.calls == calls + 2
      // io.EOF returns cleanly
      && (e == Eof ==> p.stop && p.events == [Read, CallHandleEof, CallHandleLine(r.line), Return])
      // another error is reported, and the loop goes on
      && (e.Other? ==>
            !p.stop && p.events == [Read, CallHandleEof, CallHandleLine(r.line), Output(""), Output(e.msg), Exit(1)])
      // nil: nothing is written and the loop goes on
      && (e == Nil ==> !p.stop && p.events == [Read, CallHandleEof, CallHandleLine(r.line)])
  {
  }

  /**
   * The error a pass reports, if any: a read error other than io.EOF, else an
   * error other than io.EOF from `HandleEof`, else one from the `HandleLine`
   * call that follows; `Nil` when the pass reports nothing.
   */
  function ReportedError(h: Handler, calls: nat, r: ReadResult): Err
  {
    if r.err.Other? then r.err
    else if r.err == Eof && h.HandleEof(calls).Other? then h.HandleEof(calls)
    else if r.err == Eof && h.HandleEof(calls) == Eof then Nil
    else
      var c := if r.err == Eof then calls + 1 else calls;
      if h.HandleLine(c, r.line).Other? then h.HandleLine(c, r.line) else Nil
  }

  /** A pass sends exit status 1 exactly when it has an error to report, and then only as the full report of that error. */
  lemma PassReport(h: Handler, calls: nat, r: ReadResult)
    ensures var p := Iterate(h, calls, r);
      var e := ReportedError(h, calls, r);
      && (Exit(1) in p.events <==> e != Nil)
      && (forall j :: 0 <= j < |p.events| && p.events[j].Exit? ==>
            2 <= j && e != Nil && p.events[j - 2..j + 1] == EndSessionWithError(e))
  {
    PassBranches(h, calls, r);
    if r.err == Eof && h.HandleEof(calls) == Nil {
      PassFallThrough(h, calls, r);
    }
  }

  // ---------------------------------------------------------------------------
  // The whole loop
  // ---------------------------------------------------------------------------

  /** A pass that did not return wrote no `Return` at all. */
  lemma ReturnFree(events: seq<Event>)
    requires ReturnOnlyLast(events)
    requires |events| > 0 && events[|events| - 1] != Return
    ensures Return !in events
  {
    assert events == events[..|events| - 1] + [events[|events| - 1]];
  }

  /** Putting `Return`-free events in front keeps `Return` last and does not move the end. */
  lemma ReturnOnlyLastAppend(a: seq<Event>, b: seq<Event>)
    requires Return !in a && ReturnOnlyLast(b)
    ensures ReturnOnlyLast(a + b)
    ensures (|a + b| > 0 && (a + b)[|a + b| - 1] == Return) <==> (|b| > 0 && b[|b| - 1] == Return)
  {
    if b == [] {
      assert a + b == a;
    } else {
      assert (a + b)[..|a + b| - 1] == a + b[..|b| - 1];
      assert (a + b)[|a + b| - 1] == b[|b| - 1];
    }
  }

  /**
   * The loop returns exactly when its trace ends with `Return`, which it
   * writes nowhere else, and every `Exit` it causes is `Exit(1)` right after
   * `Output("")` and one more output line (`PassReport` ties that line to the
   * error's text, pass by pass).
   */
  lemma {:induction false} LoopReturnAndExits(h: Handler, script: seq<ReadResult>, i: nat, calls: nat)
    requires i <= |script|
    ensures var o := Loop(h, script, i, calls);
      && (o.returned <==> |o.trace| > 0 && o.trace[|o.trace| - 1] == Return)
      && ReturnOnlyLast(o.trace)
      && ExitsAreErrorReports(o.trace)
    decreases |script| - i
  {
    if i < |script| {
      var p := Iterate(h, calls, script[i]);
      PassShape(h, calls, script[i]);
      if !p.stop {
        LoopReturnAndExits(h, script, i + 1, p.calls);
        var rest := Loop(h, script, i + 1, p.calls);
        ExitsAreErrorReportsAppend(p.events, rest.trace);
        ReturnFree(p.events);
        ReturnOnlyLastAppend(p.events, rest.trace);
      }
    }
  }

  /**
   * Every pass reads exactly once: a loop that returned read at most the whole
   * script, one that did not return (it is waiting in `Read`) read all of it.
   */
  lemma {:induction false} LoopReadCount(h: Handler, script: seq<ReadResult>, i: nat, calls: nat)
    requires i <= |script|
    ensures var o := Loop(h, script, i, calls);
      && multiset(o.trace)[Read] <= |script| - i
      && (!o.returned ==> multiset(o.trace)[Read] == |script| - i)
    decreases |script| - i
  {
    if i < |script| {
      var p := Iterate(h, calls, script[i]);
      PassShape(h, calls, script[i]);
      if !p.stop {
        LoopReadCount(h, script, i + 1, p.calls);
        var rest := Loop(h, script, i + 1, p.calls);
        assert multiset(p.events + rest.trace) == multiset(p.events) + multiset(rest.trace);
      }
    }
  }

  /** The loop itself never sets the prompt or builds another handler. */
  lemma {:induction false} LoopNoSetup(h: Handler, script: seq<ReadResult>, i: nat, calls: nat)
    requires i <= |script|
    ensures NoSetupEvents(Loop(h, script, i, calls).trace)
    decreases |script| - i
  {
    if i < |script| {
      var p := Iterate(h, calls, script[i]);
      PassShape(h, calls, script[i]);
      if !p.stop {
        LoopNoSetup(h, script, i + 1, p.calls);
        var rest := Loop(h, script, i + 1, p.calls);
        forall e | e in p.events + rest.trace ensures !e.SetPrompt? && !e.NewHandler? {
          assert e in p.events || e in rest.trace;
        }
      }
    }
  }

  /** The lines returned by reads `i` onwards of the script. */
  ghost function LinesFrom(script: seq<ReadResult>, i: nat): set<string>
    requires i <= |script|
  {
    set m | i <= m < |script| :: script[m].line
  }

  /** `HandleLine` is only ever called with a line that some read of the script returned. */
  lemma {:induction false} LoopCallsAndLines(h: Handler, script: seq<ReadResult>, i: nat, calls: nat)
    requires i <= |script|
    ensures forall e :: e in Loop(h, script, i, calls).trace && e.CallHandleLine? ==> e.line in LinesFrom(script, i)
    decreases |script| - i
  {
    if i < |script| {
      var p := Iterate(h, calls, script[i]);
      PassShape(h, calls, script[i]);
      assert script[i].line in LinesFrom(script, i);
      if !p.stop {
        LoopCallsAndLines(h, script, i + 1, p.calls);
        var rest := Loop(h, script, i + 1, p.calls);
        assert LinesFrom(script, i + 1) <= LinesFrom(script, i);
        forall e | e in p.events + rest.trace && e.CallHandleLine? ensures e.line in LinesFrom(script, i) {
          assert e in p.events || e in rest.trace;
        }
      }
    }
  }

  // ---------------------------------------------------------------------------
  // The session closure
  // ---------------------------------------------------------------------------

  /**
   * The session sets the prompt to "> ", then invokes the handler factory
   * exactly once, before the first `Read`; neither happens again.
   */
  lemma SessionSetUp(settings: Settings, user: string, remoteAddr: string, script: seq<ReadResult>)
    ensures var o := Session(settings, user, remoteAddr, script);
      && |o.trace| >= 2
      && o.trace[0] == SetPrompt("> ")
      && o.trace[1] == NewHandler(InstanceName(user, remoteAddr))
      && (forall j :: 0 <= j < |o.trace| && o.trace[j] == Read ==> j >= 2)
      && (forall j :: 2 <= j < |o.trace| ==> !o.trace[j].SetPrompt? && !o.trace[j].NewHandler?)
      && multiset(o.trace)[NewHandler(InstanceName(user, remoteAddr))] == 1
  {
    var shell := Shell(InstanceName(user, remoteAddr), "> ");
    var h := settings.handlerFactory(shell);
    var rest := Loop(h, script, 0, 0);
    LoopNoSetup(h, script, 0, 0);
    var t := [SetPrompt("> "), NewHandler(shell.instanceName)] + rest.trace;
    forall j | 2 <= j < |t| ensures !t[j].SetPrompt? && !t[j].NewHandler? {
      assert t[j] == rest.trace[j - 2];
    }
    assert NewHandler(shell.instanceName) !in rest.trace;
    assert multiset(t) == multiset([SetPrompt("> "), NewHandler(shell.instanceName)]) + multiset(rest.trace);
  }

  // ---------------------------------------------------------------------------
  // Sessions served by the default handler
  // ---------------------------------------------------------------------------

  /** The index of the first read from `i` on that failed with an error other than io.EOF, or `|script|`. */
  function FirstFailure(script: seq<ReadResult>, i: nat): (n: nat)
    requires i <= |script|
    ensures i <= n <= |script|
    ensures forall m :: i <= m < n ==> !script[m].err.Other?
    ensures n < |script| ==> script[n].err.Other?
    decreases |script| - i
  {
    if i == |script| || script[i].err.Other? then i else FirstFailure(script, i + 1)
  }

  /** The lines the trace hands to `HandleLine`, in order. */
  function HandledLines(trace: seq<Event>): seq<string>
  {
    if trace == [] then []
    else (if trace[0].CallHandleLine? then [trace[0].line] else []) + HandledLines(trace[1..])
  }

  lemma {:induction false} HandledLinesAppend(a: seq<Event>, b: seq<Event>)
    ensures HandledLines(a + b) == HandledLines(a) + HandledLines(b)
  {
    if a == [] {
      assert a + b == b;
    } else {
      assert (a + b)[1..] == a[1..] + b;
      HandledLinesAppend(a[1..], b);
    }
  }

  lemma {:induction false} NoHandledLines(events: seq<Event>)
    requires forall e :: e in events ==> !e.CallHandleLine?
    ensures HandledLines(events) == []
  {
    if events != [] {
      assert events[0] in events;
      NoHandledLines(events[1..]);
    }
  }

  /** The lines of the reads `script[i..n]`. */
  function LinesOf(script: seq<ReadResult>, i: nat, n: nat): (lines: seq<string>)
    requires i <= n <= |script|
    ensures |lines| == n - i
    ensures forall m :: i <= m < n ==> lines[m - i] == script[m].line
    decreases n - i
  {
    if i == n then [] else [script[i].line] + LinesOf(script, i + 1, n)
  }

  /** One pass under the default handler: a failed read is reported and returns; anything else hands its line to `HandleLine` and carries on. */
  lemma DefaultPass(shell: Shell, calls: nat, r: ReadResult)
    ensures var p := Iterate(DefaultHandler(shell), calls, r);
      && (r.err.Other? ==> p.stop && p.events == [Read, Output(""), Output(r.err.msg), Exit(1), Return] && HandledLines(p.events) == [])
      && (!r.err.Other? ==> !p.stop && HandledLines(p.events) == [r.line] && Exit(1) !in p.events)
  {
    var p := Iterate(DefaultHandler(shell), calls, r);
    if r.err.Other? {
      NoHandledLines(p.events);
    } else {
      var before := if r.err == Nil then [Read] else [Read, CallHandleEof];
      assert p.events == before + [CallHandleLine(r.line)];
      NoHandledLines(before);
      HandledLinesAppend(before, [CallHandleLine(r.line)]);
    }
  }

  /**
   * A session served by the default handler never ends on its own initiative:
   * neither Ctrl-D nor any line ends it; it returns only when a read fails with
   * an error other than io.EOF, which it reports with exit status 1.
   */
  lemma {:induction false} DefaultHandlerEnds(shell: Shell, script: seq<ReadResult>, i: nat, calls: nat)
    requires i <= |script|
    ensures var o := Loop(DefaultHandler(shell), script, i, calls);
      var n := FirstFailure(script, i);
      && (o.returned <==> n < |script|)
      && (n < |script| ==> |o.trace| >= 5 && o.trace[|o.trace| - 5..] == [Read, Output(""), Output(script[n].err.msg), Exit(1), Return])
      && (n == |script| ==> Exit(1) !in o.trace)
    decreases |script| - i
  {
    if i < |script| {
      var h := DefaultHandler(shell);
      var p := Iterate(h, calls, script[i]);
      DefaultPass(shell, calls, script[i]);
      if !script[i].err.Other? {
        var rest := Loop(h, script, i + 1, p.calls);
        DefaultHandlerEnds(shell, script, i + 1, p.calls);
        var t := p.events + rest.trace;
        if FirstFailure(script, i) < |script| {
          assert t[|t| - 5..] == rest.trace[|rest.trace| - 5..];
        }
      }
    }
  }

  /**
   * Under the default handler every line read before the first failed read,
   * including a line returned alongside io.EOF, reaches `HandleLine`, in order.
   */
  lemma {:induction false} DefaultHandlerLines(shell: Shell, script: seq<ReadResult>, i: nat, calls: nat)
    requires i <= |script|
    ensures HandledLines(Loop(DefaultHandler(shell), script, i, calls).trace) == LinesOf(script, i, FirstFailure(script, i))
    decreases |script| - i
  {
    if i < |script| {
      var h := DefaultHandler(shell);
      var p := Iterate(h, calls, script[i]);
      DefaultPass(shell, calls, script[i]);
      if !script[i].err.Other? {
        var rest := Loop(h, script, i + 1, p.calls);
        DefaultHandlerLines(shell, script, i + 1, p.calls);
        HandledLinesAppend(p.events, rest.trace);
      }
    }
  }

  // ---------------------------------------------------------------------------
  // Scenarios
  // ---------------------------------------------------------------------------

  /**
   * A client types "help" and "status" and then disconnects mid-read: both
   * lines reach `HandleLine`, and the loop ends through the read-error path,
   * not the clean end-of-input path.
   */
  lemma DisconnectScenario(h: Handler)
    requires h.HandleLine(0, "help") == Nil && h.HandleLine(1, "status") == Nil
    ensures Loop(h, [ReadResult("help", Nil), ReadResult("status", Nil), ReadResult("", Other("connection reset"))], 0, 0)
      == Outcome([Read, CallHandleLine("help"), Read, CallHandleLine("status"),
                  Read, Output(""), Output("connection reset"), Exit(1), Return], true)
  {
    var script := [ReadResult("help", Nil), ReadResult("status", Nil), ReadResult("", Other("connection reset"))];
    PassBranches(h, 0, script[0]);
    PassBranches(h, 1, script[1]);
    PassBranches(h, 2, script[2]);
  }

  /**
   * `HandleLine` answering "disk full": the client sees a blank line and then
   * "disk full", exit status 1 is sent, and the loop goes back to `Read`.
   */
  lemma DiskFullScenario(h: Handler)
    requires h.HandleLine(0, "save") == Other("disk full")
    requires h.HandleEof(1) == Eof
    ensures Loop(h, [ReadResult("save", Nil), ReadResult("", Eof)], 0, 0)
      == Outcome([Read, CallHandleLine("save"), Output(""), Output("disk full"), Exit(1),
                  Read, CallHandleEof, Return], true)
  {
    var script := [ReadResult("save", Nil), ReadResult("", Eof)];
    PassBranches(h, 0, script[0]);
    PassBranches(h, 1, script[1]);
  }
}
