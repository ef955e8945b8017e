/** The interactive agent of `src/agents/geminiAgent.ts`: a stub explainer
    that quotes the start of the log, and a `main` that reads the log,
    explains it and then performs the one action the user picks. The log
    read, the prompts, the Jira call, the file append and the clock are
    parameters. */
module GeminiAgent {
  import opened Wrappers
  import opened JsText

  const Header: string := "Explicação para o erro:\n\n"
  const Trailer: string := "... [texto gerado pela IA]"

  /** How much of the log the stub quotes. */
  const QuoteLength: nat := 300

  function Min(a: nat, b: nat): nat { if a < b then a else b }

  /** `logContent.substring(0, 300)`. */
  function Quoted(log: string): string {
    log[..Min(QuoteLength, |log|)]
  }

  /** `gerarExplicacaoErro`: the fixed header, at most the first 300
      characters of the log, and the fixed trailer. */
  function GerarExplicacaoErro(log: string): (r: string)
    ensures StartsWith(r, Header) && EndsWith(r, Trailer)
    ensures |r| == |Header| + Min(QuoteLength, |log|) + |Trailer|
    ensures |r| <= |Header| + QuoteLength + |Trailer|
  {
    Header + Quoted(log) + Trailer
  }

  /** The quoted part can be read back out of the explanation. */
  function QuoteOf(explanation: string): string
    requires |explanation| >= |Header| + |Trailer|
  {
    explanation[|Header|..|explanation| - |Trailer|]
  }

  lemma QuoteRoundTrip(log: string)
    ensures QuoteOf(GerarExplicacaoErro(log)) == Quoted(log)
  {
    var r := GerarExplicacaoErro(log);
    assert r == Header + Quoted(log) + Trailer;
    assert r[|Header|..|r| - |Trailer|] == Quoted(log);
  }

  /** Two logs get the same explanation exactly when they agree on their
      first 300 characters (or are equal, when shorter). */
  lemma ExplanationDependsOnlyOnQuote(a: string, b: string)
    ensures GerarExplicacaoErro(a) == GerarExplicacaoErro(b) <==> Quoted(a) == Quoted(b)
  {
    if GerarExplicacaoErro(a) == GerarExplicacaoErro(b) {
      QuoteRoundTrip(a);
      QuoteRoundTrip(b);
    }
  }

  /** The stub never returns an empty string, so no caller's emptiness
      check can fire on its result. */
  lemma ExplanationNeverEmpty(log: string)
    ensures GerarExplicacaoErro(log) != ""
  {
    assert |GerarExplicacaoErro(log)| >= |Header|;
  }

  /** The issue-key prompt's `validate`: the trimmed input is not empty. */
  predicate ValidIssueKey(input: string) {
    Trim(input) != ""
  }

  lemma ValidIssueKeyMeansNonBlank(input: string)
    ensures ValidIssueKey(input) <==> exists i :: 0 <= i < |input| && !IsWhitespace(input[i])
  {
  }

  /** The prompt asks again until an answer validates, and returns that
      answer untrimmed: the index of the first valid answer, if any. */
  function FirstValid(answers: seq<string>): (r: Option<nat>)
    ensures r.Some? ==> r.value < |answers| && ValidIssueKey(answers[r.value])
  {
    if answers == [] then None
    else if ValidIssueKey(answers[0]) then Some(0)
    else match FirstValid(answers[1..])
      case None => None
      case Some(i) => Some(i + 1)
  }

  /** No answer before the one `FirstValid` picks validates, and it picks
      none exactly when no answer validates. */
  lemma {:induction false} FirstValidIsFirst(answers: seq<string>)
    ensures var r := FirstValid(answers);
            r.Some? ==> forall i :: 0 <= i < r.value ==> !ValidIssueKey(answers[i])
    ensures FirstValid(answers).None? <==> forall i :: 0 <= i < |answers| ==> !ValidIssueKey(answers[i])
  {
    if answers != [] && !ValidIssueKey(answers[0]) {
      var rest := answers[1..];
      FirstValidIsFirst(rest);
      forall i | 1 <= i < |answers| ensures answers[i] == rest[i - 1] {}
      if FirstValid(rest).Some? {
        forall i | 0 <= i < FirstValid(answers).value ensures !ValidIssueKey(answers[i]) {
          if i > 0 {
            assert !ValidIssueKey(rest[i - 1]);
          }
        }
      } else {
        forall i | 0 <= i < |answers| ensures !ValidIssueKey(answers[i]) {
          if i > 0 {
            assert !ValidIssueKey(rest[i - 1]);
          }
        }
      }
    }
  }

  /** The three choices of the action menu. */
  datatype Action = Fix | Jira | Local

  /** What `main` does that is visible outside the console. */
  datatype Event =
    | Explained(text: string)
    | Commented(issueKey: string, text: string)
    | Appended(entry: string)
    | FixSimulated
    | Finished
    | Caught(message: string)

  /** The entry `main` appends to the local log file. */
  function LocalEntry(timestamp: string, explanation: string): string {
    "\n[" + timestamp + "]\n" + explanation + "\n"
  }

  /** The oracles of one run: the log read, the menu choice, the successive
      answers to the issue-key prompt, the Jira call's failure, the append's
      failure and the clock's ISO rendering. */
  datatype World = World(
    readLog: Result<string>,
    action: Action,
    keyAnswers: seq<string>,
    commentError: Option<string>,
    appendError: Option<string>,
    timestamp: string)

  /** The events of one run of `main`. Every error lands in the catch. */
  function MainTrace(w: World): (events: seq<Event>)
    requires w.action == Jira ==> FirstValid(w.keyAnswers).Some?
    ensures |events| >= 1
    ensures events[|events| - 1].Finished? || events[|events| - 1].Caught?
  {
    match w.readLog
    case Err(m) => [Caught(m)]
    case Ok(log) =>
      var explanation := GerarExplicacaoErro(log);
      var head := [Explained(explanation)];
      match w.action
      case Jira =>
        var key := w.keyAnswers[FirstValid(w.keyAnswers).value];
        var call := head + [Commented(key, explanation)];
        if w.commentError.Some? then call + [Caught(w.commentError.value)] else call + [Finished]
      case Local =>
        if w.appendError.Some? then head + [Caught(w.appendError.value)]
        else head + [Appended(LocalEntry(w.timestamp, explanation)), Finished]
      case Fix => head + [FixSimulated, Finished]
  }

  /** `main`: the three `if (action === ...)` tests run in turn, and at most
      one of them holds. */
  method AgentMain(w: World) returns (events: seq<Event>)
    requires w.action == Jira ==> FirstValid(w.keyAnswers).Some?
    ensures events == MainTrace(w)
  {
    if w.readLog.Err? {
      return [Caught(w.readLog.message)];
    }
    var explanation := GerarExplicacaoErro(w.readLog.value);
    events := [Explained(explanation)];
    if w.action == Jira {
      var key := w.keyAnswers[FirstValid(w.keyAnswers).value];
      events := events + [Commented(key, explanation)];
      if w.commentError.Some? {
        return events + [Caught(w.commentError.value)];
      }
    }
    if w.action == Local {
      if w.appendError.Some? {
        return events + [Caught(w.appendError.value)];
      }
      events := events + [Appended(LocalEntry(w.timestamp, explanation))];
    }
    if w.action == Fix {
      events := events + [FixSimulated];
    }
    events := events + [Finished];
  }

  predicate IsActionEvent(e: Event) {
    e.Commented? || e.Appended? || e.FixSimulated?
  }

  function CountActions(events: seq<Event>): nat {
    if events == [] then 0
    else (if IsActionEvent(events[0]) then 1 else 0) + CountActions(events[1..])
  }

  predicate Matches(a: Action, e: Event) {
    match a
    case Jira => e.Commented?
    case Local => e.Appended?
    case Fix => e.FixSimulated?
  }

  /** Once the log is read, exactly one action runs and it is the chosen
      one: 'jira' comments the explanation under the first valid key,
      'local' appends one timestamped entry, 'fix' only reports. A failing
      append is the one case with no action event. */
  lemma ExactlyOneAction(w: World)
    requires w.action == Jira ==> FirstValid(w.keyAnswers).Some?
    requires w.readLog.Ok? && !(w.action == Local && w.appendError.Some?)
    ensures var events := MainTrace(w);
            CountActions(events) == 1 && Matches(w.action, events[1]) &&
            events[0] == Explained(GerarExplicacaoErro(w.readLog.value))
    ensures w.action == Jira ==>
            MainTrace(w)[1] == Commented(w.keyAnswers[FirstValid(w.keyAnswers).value], GerarExplicacaoErro(w.readLog.value))
    ensures w.action == Local ==>
            MainTrace(w)[1] == Appended(LocalEntry(w.timestamp, GerarExplicacaoErro(w.readLog.value)))
  {
    var e := MainTrace(w);
    assert |e| == 3 && !IsActionEvent(e[0]) && IsActionEvent(e[1]) && !IsActionEvent(e[2]);
    assert e[2..][1..] == [];
    assert CountActions(e[2..]) == 0;
    assert e[1..][1..] == e[2..];
    assert CountActions(e[1..]) == 1;
  }

  /** A failed log read stops everything: no explanation and no action. */
  lemma ReadFailureCaught(w: World)
    requires w.action == Jira ==> FirstValid(w.keyAnswers).Some?
    requires w.readLog.Err?
    ensures MainTrace(w) == [Caught(w.readLog.message)] && CountActions(MainTrace(w)) == 0
  {
  }
}
