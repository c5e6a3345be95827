/**
 * What `run_analysis` of debugger/ollama_client.py appends to the error log once the
 * chat service has been consulted: the answer between two banners, or a failure note.
 */
module AnalysisNote {
  import opened Wrappers

  /** The banners around an answer appended to the error log. */
  const BeginBanner := "\n=== AI Analysis Output ===\n"
  const EndBanner := "\n=== End AI Analysis ===\n"
  const FailurePrefix := "\nError: Failed to get response from Ollama - "

  /** What the service answered: the message content, or a reply lacking the `key` the
      lookup `response['message']['content']` asked for. */
  datatype Reply = Content(text: string) | MissingKey(key: string)

  /** `t` is `open`, then `mid`, then `close`, read off by position. */
  predicate Between(t: string, open: string, mid: string, close: string) {
    && |t| == |open| + |mid| + |close|
    && t[..|open|] == open
    && t[|open|..|t| - |close|] == mid
    && t[|t| - |close|..] == close
  }

  /** The note appended when the service call fails: the failure prefix, the reason, and
      a newline ending the line. */
  function FailureNote(reason: string): (n: string)
    ensures Between(n, FailurePrefix, reason, "\n")
    ensures n[0] == '\n' && n[1] == 'E' && n[|n| - 1] == '\n'
  {
    Framed(FailurePrefix, reason, "\n");
    var n := FailurePrefix + reason + "\n";
    assert n[0] == FailurePrefix[0] && n[1] == FailurePrefix[1] && FailurePrefix[1] == 'E';
    assert n[|n| - 1] == "\n"[0];
    n
  }

  /** An answer between the two banners. */
  function Answered(answer: string): (text: string)
    ensures Between(text, BeginBanner, answer, EndBanner)
    ensures text[0] == '\n' && text[1] == '=' && text[|text| - 1] == '\n'
  {
    Framed(BeginBanner, answer, EndBanner);
    var text := BeginBanner + answer + EndBanner;
    assert text[1] == BeginBanner[1] && text[|text| - 1] == EndBanner[|EndBanner| - 1];
    text
  }

  /** The opening banner, written before the lookup of `key` fails, then the failure
      note naming the key as Python quotes it. */
  function Unanswered(key: string): (text: string)
    ensures Between(text, BeginBanner, FailureNote("'" + key + "'"), [])
    ensures text[0] == '\n' && text[1] == '=' && text[|text| - 1] == '\n'
  {
    var note := FailureNote("'" + key + "'");
    var text := BeginBanner + note;
    Joined(BeginBanner, note);
    BannerOpens();
    assert text[0] == BeginBanner[0] && text[1] == BeginBanner[1];
    assert text[|text| - 1] == note[|note| - 1];
    text
  }

  /** What `run_analysis` appends to the error log for the service's outcome. An answer
      sits between the two banners. A reply missing a key has its opening banner written
      before the lookup fails, and the failure note follows, naming the key as Python
      quotes it. A failed call appends the failure note alone. */
  function Appendix(outcome: Result<Reply, string>): (text: string)
    ensures |text| >= 2 && text[0] == '\n' && text[|text| - 1] == '\n'
    ensures text[1] == '=' <==> outcome.Ok?
    ensures outcome.Ok? && outcome.value.Content? ==>
      Between(text, BeginBanner, outcome.value.text, EndBanner)
    ensures outcome.Ok? && outcome.value.MissingKey? ==>
      Between(text, BeginBanner, FailureNote("'" + outcome.value.key + "'"), [])
    ensures outcome.Err? ==> text == FailureNote(outcome.error)
  {
    match outcome
    case Ok(Content(c)) => Answered(c)
    case Ok(MissingKey(k)) => Unanswered(k)
    case Err(e) => FailureNote(e)
  }

  /** The two parts of a joined text are where the join put them. */
  lemma Joined(a: string, b: string)
    ensures Between(a + b, a, b, [])
  {
    assert a + b + [] == a + b;
  }

  /** The opening banner starts a new line with the `=` of its rule. */
  lemma BannerOpens()
    ensures |BeginBanner| > 1 && BeginBanner[0] == '\n' && BeginBanner[1] == '='
  {
  }

  /** The three parts of a joined text are where the join put them. */
  lemma Framed(a: string, b: string, c: string)
    ensures Between(a + b + c, a, b, c)
  {
  }
}
