/** The session logger: an in-memory, append-only list of the session's log
    events with a per-session cap, and delivery of each event to the
    logger's destination. It does not use the persistent store. Each
    operation is one atomic step; the concurrent queue is not modelled. */
module InstabugLogger {
  import opened Results
  import V = LoggerValue
  import D = LoggerDestination

  /** `log` throws once more than this many events are held. */
  const LogsLimitPerSession: nat := 5000

  /** The most events a session can hold: the cap is checked before the
      append, against a strict comparison. */
  const MaxSessionLogs: nat := LogsLimitPerSession + 1

  datatype LoggerSessionError = LogsPerSessionExceed

  /** A logger: its identifier, its destination, the session's events in
      append order, and the texts its destination's `emit` returned, in
      delivery order. */
  datatype Logger = Logger(
    identifier: string,
    destination: D.Destination,
    loggers: seq<V.Value>,
    emitted: seq<string>)

  /** `init(identifier:destination:)`: the session starts empty. */
  function NewLogger(identifier: string, destination: D.Destination): (l: Logger)
    ensures l.identifier == identifier && l.destination == destination
    ensures l.loggers == [] && l.emitted == []
  {
    Logger(identifier, destination, [], [])
  }

  /** `init(identifier:)`: a console destination under the same identifier. */
  function NewConsoleLogger(identifier: string): (l: Logger)
    ensures l.identifier == identifier && l.loggers == []
    ensures l.destination.kind == D.Console && !l.destination.asynchronously
  {
    NewLogger(identifier, D.NewConsoleDestination(identifier))
  }

  /** Appends an event and hands it to the destination, as the barrier block does. */
  function Append(l: Logger, v: V.Value, render: D.DateRenderer): Logger
  {
    l.(loggers := l.loggers + [v], emitted := l.emitted + [D.Emit(l.destination, render, v)])
  }

  /** `log(_:level:)`: throws when the session already holds more than
      5000 events; otherwise appends a new event built from the clock
      reading `now`, the level and the validated message. */
  function Log(l: Logger, message: string, level: V.Level, now: int, render: D.DateRenderer)
    : (r: Result<Logger, LoggerSessionError>)
    ensures r.Failure? <==> |l.loggers| > LogsLimitPerSession
    ensures r.Success? ==>
              && |r.value.loggers| == |l.loggers| + 1
              && r.value.loggers[..|l.loggers|] == l.loggers
              && r.value.identifier == l.identifier && r.value.destination == l.destination
    ensures r.Success? ==>
              var v := r.value.loggers[|l.loggers|];
              && v.level == level && v.creationDate == now
              && V.IsValidated(v.message)
              && (|message| <= V.MessageLimit ==> v.message == message)
  {
    if |l.loggers| > LogsLimitPerSession then
      Failure(LogsPerSessionExceed)
    else
      Success(Append(l, V.NewValue(level, message, now), render))
  }

  /** `verbose`: `log` at the verbose level, rethrowing its error. */
  function Verbose(l: Logger, message: string, now: int, render: D.DateRenderer)
    : (r: Result<Logger, LoggerSessionError>)
    ensures r == Log(l, message, V.Verbose, now, render)
  {
    match Log(l, message, V.Verbose, now, render)
    case Failure(LogsPerSessionExceed) => Failure(LogsPerSessionExceed)
    case Success(l') => Success(l')
  }

  /** `error`: `log` at the error level, rethrowing its error. */
  function Error(l: Logger, message: string, now: int, render: D.DateRenderer)
    : (r: Result<Logger, LoggerSessionError>)
    ensures r == Log(l, message, V.Error, now, render)
  {
    match Log(l, message, V.Error, now, render)
    case Failure(LogsPerSessionExceed) => Failure(LogsPerSessionExceed)
    case Success(l') => Success(l')
  }

  /** The test-only `log(logger:)`: the same cap, but the given event is
      appended as it is. */
  function LogValue(l: Logger, v: V.Value, render: D.DateRenderer)
    : (r: Result<Logger, LoggerSessionError>)
    ensures r.Failure? <==> |l.loggers| > LogsLimitPerSession
    ensures r.Success? ==> r.value.loggers == l.loggers + [v]
  {
    if |l.loggers| > LogsLimitPerSession then
      Failure(LogsPerSessionExceed)
    else
      Success(Append(l, v, render))
  }

  /** `fetchLogs`: the session's events, in the order they were appended. */
  function FetchLogs(l: Logger): (r: seq<V.Value>)
    ensures r == l.loggers
  {
    l.loggers
  }

  /** `strs` is the pointwise formatting of `logs`. */
  ghost predicate FormatsAll(render: D.DateRenderer, logs: seq<V.Value>, strs: seq<string>)
  {
    |strs| == |logs| && forall i :: 0 <= i < |logs| ==> strs[i] == D.FormatLog(render, logs[i])
  }

  /** `fetchLogsStrings`: the formatted events, one per event, same order. */
  method FetchLogsStrings(l: Logger, render: D.DateRenderer) returns (allLogs: seq<string>)
    ensures FormatsAll(render, FetchLogs(l), allLogs)
  {
    allLogs := [];
    var logs := FetchLogs(l);
    for i := 0 to |logs|
      invariant |allLogs| == i
      invariant forall k :: 0 <= k < i ==> allLogs[k] == D.FormatLog(render, logs[k])
    {
      allLogs := allLogs + [D.FormatLog(render, logs[i])];
    }
  }

  /** A successful `log` makes `fetchLogs` grow by the new event at the end,
      and a failing one leaves the caller's logger as it was. */
  lemma LogAppendsInOrder(l: Logger, message: string, level: V.Level, now: int, render: D.DateRenderer)
    ensures var r := Log(l, message, level, now, render);
            r.Success? ==> FetchLogs(r.value) == FetchLogs(l) + [V.NewValue(level, message, now)]
  {
  }

  /** One call of the logger's public or test API. */
  datatype Call =
    | LogCall(message: string, level: V.Level, now: int)
    | VerboseCall(message: string, now: int)
    | ErrorCall(message: string, now: int)
    | LogValueCall(value: V.Value)

  function Apply(l: Logger, c: Call, render: D.DateRenderer): Result<Logger, LoggerSessionError>
  {
    match c
    case LogCall(m, level, now) => Log(l, m, level, now, render)
    case VerboseCall(m, now) => Verbose(l, m, now, render)
    case ErrorCall(m, now) => Error(l, m, now, render)
    case LogValueCall(v) => LogValue(l, v, render)
  }

  /** The event a call appends when it does not throw. */
  function CallValue(c: Call): V.Value
  {
    match c
    case LogCall(m, level, now) => V.NewValue(level, m, now)
    case VerboseCall(m, now) => V.NewValue(V.Verbose, m, now)
    case ErrorCall(m, now) => V.NewValue(V.Error, m, now)
    case LogValueCall(v) => v
  }

  /** A call that does not throw is the atomic append of its event. */
  lemma ApplyIsAppend(l: Logger, c: Call, render: D.DateRenderer)
    ensures Apply(l, c, render).Success? ==> Apply(l, c, render).value == Append(l, CallValue(c), render)
  {
  }

  /** Appending keeps the delivered texts in step with the events. */
  lemma {:induction false} AppendDeliversInOrder(l: Logger, v: V.Value, render: D.DateRenderer)
    requires FormatsAll(render, l.loggers, l.emitted)
    ensures FormatsAll(render, Append(l, v, render).loggers, Append(l, v, render).emitted)
  {
    var l' := Append(l, v, render);
    forall i | 0 <= i < |l'.loggers|
      ensures l'.emitted[i] == D.FormatLog(render, l'.loggers[i])
    {
      if i < |l.loggers| {
        assert l'.emitted[i] == l.emitted[i] && l'.loggers[i] == l.loggers[i];
      }
    }
  }

  /** Every call throws exactly when the session holds more than 5000 events,
      and otherwise appends exactly one event and one emitted text. */
  lemma ApplyCap(l: Logger, c: Call, render: D.DateRenderer)
    ensures Apply(l, c, render).Failure? <==> |l.loggers| > LogsLimitPerSession
    ensures Apply(l, c, render).Success? ==>
              && |Apply(l, c, render).value.loggers| == |l.loggers| + 1
              && Apply(l, c, render).value.loggers[..|l.loggers|] == l.loggers
  {
  }

  /** A series of calls; a call that throws leaves the logger unchanged and
      the caller carries on. */
  function Run(l: Logger, calls: seq<Call>, render: D.DateRenderer): Logger
    decreases |calls|
  {
    if calls == [] then l
    else
      match Apply(l, calls[0], render)
      case Failure(_) => Run(l, calls[1..], render)
      case Success(l') => Run(l', calls[1..], render)
  }

  /** From a session of at most 5001 events, any series of calls leaves
      min(count + calls, 5001) events, earlier events untouched: the session
      fills up to 5001 and every later call throws. */
  lemma {:induction false} RunCount(l: Logger, calls: seq<Call>, render: D.DateRenderer)
    requires |l.loggers| <= MaxSessionLogs
    ensures |Run(l, calls, render).loggers| == V.Min(|l.loggers| + |calls|, MaxSessionLogs)
    ensures Run(l, calls, render).loggers[..|l.loggers|] == l.loggers
    decreases |calls|
  {
    if calls != [] {
      var r := Apply(l, calls[0], render);
      ApplyCap(l, calls[0], render);
      if r.Success? {
        RunCount(r.value, calls[1..], render);
        var n := |l.loggers|;
        var out := Run(r.value, calls[1..], render).loggers;
        assert out[..n] == out[..n + 1][..n];
      } else {
        RunCount(l, calls[1..], render);
      }
    }
  }

  /** A new logger that receives 5001 calls holds 5001 events, and any
      further call throws. */
  lemma {:induction false} SessionCapExample(identifier: string, d: D.Destination, calls: seq<Call>, c: Call, render: D.DateRenderer)
    requires |calls| == MaxSessionLogs
    ensures |Run(NewLogger(identifier, d), calls, render).loggers| == MaxSessionLogs
    ensures Apply(Run(NewLogger(identifier, d), calls, render), c, render)
            == Failure(LogsPerSessionExceed)
  {
    RunCount(NewLogger(identifier, d), calls, render);
    ApplyCap(Run(NewLogger(identifier, d), calls, render), c, render);
  }

  /** Whatever a series of calls does, the texts delivered to the destination
      are the formatted events, in the order the events were appended: the
      delivered output agrees with `fetchLogsStrings`. */
  lemma {:induction false} RunDeliversInOrder(l: Logger, calls: seq<Call>, render: D.DateRenderer)
    requires FormatsAll(render, l.loggers, l.emitted)
    ensures FormatsAll(render, Run(l, calls, render).loggers, Run(l, calls, render).emitted)
    decreases |calls|
  {
    if calls != [] {
      var r := Apply(l, calls[0], render);
      if r.Success? {
        ApplyIsAppend(l, calls[0], render);
        AppendDeliversInOrder(l, CallValue(calls[0]), render);
        RunDeliversInOrder(r.value, calls[1..], render);
      } else {
        RunDeliversInOrder(l, calls[1..], render);
      }
    }
  }
}
