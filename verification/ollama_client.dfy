/**
 * The analysis dispatcher of debugger/ollama_client.py: `create_system_prompt` and
 * `run_analysis`. The chat service is a parameter: a total function from the request to
 * its reply or to the text of the failure it raised.
 */
module OllamaClient {
  import opened Wrappers
  import opened Text
  import opened Timeline
  import opened VcdFormatter
  import opened Prompt
  import opened UserMessage
  import opened AnalysisNote

  datatype Message = Message(role: string, content: string)
  datatype Request = Request(model: string, messages: seq<Message>)

  /** The failures `run_analysis` lets escape: an unreadable specification file or an
      unreadable waveform dump. */
  datatype HardError = SpecUnreadable | TraceUnreadable

  /** A finished analysis: the request sent and the error log afterwards. */
  datatype Analysis = Analysis(request: Request, log: string)

  /** `create_system_prompt`: the system message, whose content announces the three
      markers under which the user message carries its inputs. */
  function SystemMessage(): (m: Message)
    ensures m.role == "system"
    ensures Contains(m.content, Quoted(WaveMarker))
    ensures Contains(m.content, Quoted(SpecMarker))
    ensures Contains(m.content, Quoted(ViolMarker))
  {
    PromptNamesMarkers();
    Message("system", SystemPrompt)
  }

  /** The request `run_analysis` sends for a readable specification and trace. */
  function BuildRequest(spec: string, signals: seq<Signal>, log: Option<string>, model: string, w: nat): (q: Request)
    ensures q.model == model && |q.messages| == 2
    ensures q.messages[0] == Message("system", SystemPrompt)
    ensures q.messages[1].role == "user"
    ensures LaidOut(q.messages[1].content, Strip(spec), ExtractVcdData(signals, log, w), Narrative(log))
  {
    var csv := ExtractVcdData(signals, log, w);
    Request(model, [SystemMessage(),
                    Message("user", UserContent(Strip(spec), csv, Narrative(log)))])
  }

  /** `run_analysis`: read the specification, extract the waveform, describe the
      violations, ask the service, and append its answer (or the failure) to the log. */
  function RunAnalysis(spec: Option<string>, trace: Option<seq<Signal>>, log: Option<string>,
                       model: string, w: nat, chat: Request -> Result<Reply, string>): (r: Result<Analysis, HardError>)
    ensures spec.None? ==> r == Err(SpecUnreadable)
    ensures spec.Some? && trace.None? ==> r == Err(TraceUnreadable)
    ensures spec.Some? && trace.Some? ==> r.Ok?
    ensures r.Ok? ==> r.value.request == BuildRequest(spec.value, trace.value, log, model, w)
    ensures r.Ok? ==> var prior := if log.Some? then log.value else "";
      |prior| < |r.value.log| && r.value.log[..|prior|] == prior &&
      r.value.log[|prior|..] == Appendix(chat(r.value.request))
  {
    match spec
    case None => Err(SpecUnreadable)
    case Some(text) =>
      match trace
      case None => Err(TraceUnreadable)
      case Some(signals) =>
        var request := BuildRequest(text, signals, log, model, w);
        var prior := if log.Some? then log.value else "";
        var appended := prior + Appendix(chat(request));
        assert appended[..|prior|] == prior && appended[|prior|..] == Appendix(chat(request));
        Ok(Analysis(request, appended))
  }

  /** The service is consulted only after both files were read: whether the analysis
      fails, and the request it sends, do not depend on the service. */
  lemma RequestIndependentOfService(spec: Option<string>, trace: Option<seq<Signal>>, log: Option<string>,
                                    model: string, w: nat, chat1: Request -> Result<Reply, string>,
                                    chat2: Request -> Result<Reply, string>)
    ensures var r1 := RunAnalysis(spec, trace, log, model, w, chat1);
      var r2 := RunAnalysis(spec, trace, log, model, w, chat2);
      && r1.Ok? == r2.Ok?
      && (r1.Err? ==> r1 == r2)
      && (r1.Ok? ==> r1.value.request == r2.value.request)
  {
  }
}
