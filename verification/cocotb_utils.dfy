/**
 * The test wrapper `with_debug_tool` installs (debugger/cocotb_utils.py): run the test
 * body with an empty violation list, then, whatever the body did, run the analysis when
 * the debugger is enabled and violations were recorded, and fail the test with an
 * aggregate error when there were violations.
 */
module CocotbUtils {
  import opened Wrappers
  import opened Text
  import opened Numerals
  import opened Correlator
  import opened Timeline
  import opened OllamaClient
  import opened AnalysisNote

  /** The settings of debugger/config.py the wrapper and the analysis read. */
  datatype Config = Config(enabled: bool, model: string, window: nat)

  /** The settings as shipped: debugger enabled, model "mistral", a window of ten rows. */
  const Shipped := Config(true, "mistral", 10)

  /** What the test body left behind: the violations it appended to the list it was
      given, what it logged at error level, and the exception it raised, if any. */
  datatype BodyRun = BodyRun(violations: seq<string>, errorLog: string, raised: Option<string>)

  /** The files the analysis reads: the specification and the waveform dump, `None` when
      unreadable. */
  datatype Workspace = Workspace(spec: Option<string>, trace: Option<seq<Signal>>)

  /** The exceptions the wrapper can end with. */
  datatype Failure =
    | BodyFailed(reason: string)
    | AnalysisFailed(error: HardError)
    | ViolationsDetected(message: string)

  /** How the test ends: passing, or raising `error` while `context` was being handled
      (Python's implicit exception chaining). */
  datatype Outcome = Passed | Raised(error: Failure, context: Option<Failure>)

  /** The end of a wrapped test: its outcome, whether the analysis ran, and the error log
      afterwards. */
  datatype Report = Report(outcome: Outcome, analysed: bool, errorLog: string)

  /** The message of the aggregate assertion. It states the violation count first: the
      text before its first blank is the count in decimal, and what follows the blank
      names the test. */
  function AggregateMessage(count: nat, name: string): (m: string)
    ensures IndexOf(m, " ").Some?
    ensures var i := IndexOf(m, " ").value;
      && IsNumeral(m[..i], 10) && ValueOf(m[..i], 10) == count
      && m[i + 1..] == CountedWhat(name)
      && (i == 1 || m[0] != '0')
  {
    var digits := Numeral(count, 10);
    NumeralThenBlank(digits, CountedWhat(name));
    NumeralRoundTrip(count, 10);
    var m := digits + " " + CountedWhat(name);
    assert m[|digits| + 1..] == CountedWhat(name);
    assert m[0] == digits[0];
    m
  }

  /** What the aggregate message says follows the count. */
  function CountedWhat(name: string): string {
    "violations detected in test '" + name + "'."
  }

  /** The exception the body left in flight, if any. */
  function InFlight(body: BodyRun): Option<Failure> {
    match body.raised
    case None => None
    case Some(reason) => Some(BodyFailed(reason))
  }

  /** The wrapped test: the body runs first; the `finally` block then analyses and raises
      the aggregate error. An exception raised in the `finally` block replaces the body's,
      which it keeps as its context. */
  function Wrapper(name: string, cfg: Config, body: BodyRun, ws: Workspace,
                   chat: Request -> Result<Reply, string>): (r: Report)
    ensures r.analysed <==> cfg.enabled && |body.violations| > 0
    ensures r.outcome.Passed? <==> |body.violations| == 0 && body.raised.None?
    ensures |body.violations| == 0 ==> r.errorLog == body.errorLog
    ensures |body.violations| == 0 && body.raised.Some? ==>
      r.outcome == Raised(BodyFailed(body.raised.value), None)
    ensures |body.violations| > 0 ==> r.outcome.Raised? && r.outcome.context == InFlight(body)
    ensures r.outcome.Raised? && r.outcome.error.ViolationsDetected? ==>
      r.outcome.error.message == AggregateMessage(|body.violations|, name)
    ensures |body.errorLog| <= |r.errorLog| && r.errorLog[..|body.errorLog|] == body.errorLog
    ensures cfg.enabled && |body.violations| > 0 && (ws.spec.None? || ws.trace.None?) ==>
      r.errorLog == body.errorLog
  {
    var analysis := if cfg.enabled && |body.violations| > 0
      then Some(RunAnalysis(ws.spec, ws.trace, Some(body.errorLog), cfg.model, cfg.window, chat))
      else None;
    Finish(name, body, analysis)
  }

  /** The `finally` block, given what the analysis returned if it ran: an analysis
      failure replaces the body's exception, otherwise violations raise the aggregate
      error over it, and without violations the body's own exception, if any, ends the
      test. */
  function Finish(name: string, body: BodyRun, analysis: Option<Result<Analysis, HardError>>): (r: Report)
    requires analysis.Some? ==> |body.violations| > 0
    requires analysis.Some? && analysis.value.Ok? ==>
      |body.errorLog| <= |analysis.value.value.log| &&
      analysis.value.value.log[..|body.errorLog|] == body.errorLog
    ensures r.analysed <==> analysis.Some?
    ensures r.outcome.Passed? <==> |body.violations| == 0 && body.raised.None?
    ensures |body.violations| == 0 ==> r.errorLog == body.errorLog
    ensures |body.violations| == 0 && body.raised.Some? ==>
      r.outcome == Raised(BodyFailed(body.raised.value), None)
    ensures |body.violations| > 0 ==> r.outcome.Raised? && r.outcome.context == InFlight(body)
    ensures r.outcome.Raised? && r.outcome.error.ViolationsDetected? ==>
      r.outcome.error.message == AggregateMessage(|body.violations|, name)
    ensures |body.errorLog| <= |r.errorLog| && r.errorLog[..|body.errorLog|] == body.errorLog
    ensures analysis.Some? && analysis.value.Err? ==> r.errorLog == body.errorLog
  {
    var n := |body.violations|;
    var aggregate := Raised(ViolationsDetected(AggregateMessage(n, name)), InFlight(body));
    match analysis
    case Some(Err(e)) => Report(Raised(AnalysisFailed(e), InFlight(body)), true, body.errorLog)
    case Some(Ok(a)) => Report(aggregate, true, a.log)
    case None =>
      if n > 0 then Report(aggregate, false, body.errorLog)
      else
        match body.raised
        case None => Report(Passed, false, body.errorLog)
        case Some(reason) => Report(Raised(BodyFailed(reason), None), false, body.errorLog)
  }

  /** The aggregate error is raised exactly when violations were recorded and the
      analysis, if it ran, did not fail; an analysis failure surfaces instead. */
  lemma AggregateRaisedExactly(name: string, cfg: Config, body: BodyRun, ws: Workspace,
                               chat: Request -> Result<Reply, string>)
    ensures var r := Wrapper(name, cfg, body, ws, chat);
      var failed := cfg.enabled && |body.violations| > 0 && (ws.spec.None? || ws.trace.None?);
      && (r.outcome.Raised? && r.outcome.error.ViolationsDetected? <==> |body.violations| > 0 && !failed)
      && (failed ==>
            r.outcome.Raised? && r.outcome.error.AnalysisFailed? &&
            r.outcome.error.error == (if ws.spec.None? then SpecUnreadable else TraceUnreadable))
  {
  }

  /** The service's answer never changes how the test ends: it only adds to the log. */
  lemma VerdictIndependentOfService(name: string, cfg: Config, body: BodyRun, ws: Workspace,
                                    chat1: Request -> Result<Reply, string>,
                                    chat2: Request -> Result<Reply, string>)
    ensures Wrapper(name, cfg, body, ws, chat1).outcome == Wrapper(name, cfg, body, ws, chat2).outcome
    ensures Wrapper(name, cfg, body, ws, chat1).analysed == Wrapper(name, cfg, body, ws, chat2).analysed
  {
    RequestIndependentOfService(ws.spec, ws.trace, Some(body.errorLog), cfg.model, cfg.window, chat1, chat2);
  }

  /** With the debugger disabled the wrapper is the plain violation check: the workspace
      and the service are never consulted and the log is left alone. */
  lemma DisabledIsPlainCheck(name: string, cfg: Config, body: BodyRun, ws1: Workspace, ws2: Workspace,
                             chat1: Request -> Result<Reply, string>,
                             chat2: Request -> Result<Reply, string>)
    requires !cfg.enabled
    ensures Wrapper(name, cfg, body, ws1, chat1) == Wrapper(name, cfg, body, ws2, chat2)
    ensures Wrapper(name, cfg, body, ws1, chat1).errorLog == body.errorLog
  {
  }

  /** A completed analysis leaves the service's answer, or the note of its failure, at
      the end of the error log, after everything the body logged. */
  lemma AnalysisAppended(name: string, cfg: Config, body: BodyRun, ws: Workspace,
                         chat: Request -> Result<Reply, string>)
    requires cfg.enabled && |body.violations| > 0 && ws.spec.Some? && ws.trace.Some?
    ensures var r := Wrapper(name, cfg, body, ws, chat);
      var q := BuildRequest(ws.spec.value, ws.trace.value, Some(body.errorLog), cfg.model, cfg.window);
      r.errorLog == body.errorLog + Appendix(chat(q))
  {
    var r := RunAnalysis(ws.spec, ws.trace, Some(body.errorLog), cfg.model, cfg.window, chat);
    var log := r.value.log;
    assert log == log[..|body.errorLog|] + log[|body.errorLog|..];
  }
}
