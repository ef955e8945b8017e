/** The evidence pipeline of `src/services/evidenceAnalyzer.ts`: check the
    log file and the ticket key, read the log, explain it, save the
    explanation next to the log, then ask whether to comment it on the
    ticket and whether to attach the log. The filesystem is a map from
    resolved paths to nodes; `path.resolve`, the user's answers, the write's
    success and the Jira calls' failures are parameters. */
module Evidence {
  import opened Wrappers
  import opened JsText
  import GeminiAgent

  // ------------------------------------------------------------ answers

  /** `perguntarUsuario`'s rule: the trimmed, lower-cased answer is "s". */
  predicate IsYes(answer: string) {
    ToLower(Trim(answer)) == "s"
  }

  /** Yes exactly when the trimmed answer is "s" or "S". */
  lemma IsYesMeansS(answer: string)
    ensures IsYes(answer) <==> (Trim(answer) == "s" || Trim(answer) == "S")
  {
    var t := Trim(answer);
    if IsYes(answer) {
      assert |t| == 1 && LowerChar(t[0]) == 's';
      assert t == [t[0]];
    }
  }

  lemma PaddedLowerIsYes()
    ensures IsYes(" s ")
  {
    assert LeadingWhitespace(" s ") == 1;
    assert TrailingWhitespace("s ") == 1;
    IsYesMeansS(" s ");
  }

  lemma UpperIsYes()
    ensures IsYes("S")
  {
    assert LeadingWhitespace("S") == 0;
    assert TrailingWhitespace("S") == 0;
    IsYesMeansS("S");
  }

  /** "sim" is no: the rule wants the single letter. */
  lemma SimIsNo()
    ensures !IsYes("sim")
  {
    assert LeadingWhitespace("sim") == 0;
    assert TrailingWhitespace("sim") == 0;
    assert |Trim("sim")| == 3;
  }

  lemma EnglishYesIsNo()
    ensures !IsYes("y")
  {
    assert LeadingWhitespace("y") == 0;
    assert TrailingWhitespace("y") == 0;
    IsYesMeansS("y");
  }

  // ------------------------------------------------------ explanation path

  const ExplanationSuffix: string := ".explicacao.md"

  /** `/\.[^.]+$/` matches at `j`: a dot followed by one or more non-dots
      up to the end of the input. */
  predicate ExtensionAt(p: string, j: int) {
    0 <= j < |p| - 1 && p[j] == '.' && '.' !in p[j + 1..]
  }

  /** `fullLogPath.replace(/\.[^.]+$/, '.explicacao.md')`: the last dot, if
      some character follows it, and everything after it are replaced. */
  function ExplanationPath(p: string): string {
    match LastIndexOfChar(p, '.')
    case None => p
    case Some(j) => if j < |p| - 1 then p[..j] + ExplanationSuffix else p
  }

  /** The rewrite is the regular-expression replacement: it changes the path
      exactly when the pattern matches, and then at the (only) match. */
  lemma ExplanationPathIsReplace(p: string)
    ensures (exists j :: ExtensionAt(p, j)) <==> ExplanationPath(p) != p
    ensures forall j :: ExtensionAt(p, j) ==> ExplanationPath(p) == p[..j] + ExplanationSuffix
    ensures (forall j :: !ExtensionAt(p, j)) ==> ExplanationPath(p) == p
  {
    match LastIndexOfChar(p, '.')
    case None =>
    case Some(j) =>
      if j < |p| - 1 {
        assert ExtensionAt(p, j);
        var r := p[..j] + ExplanationSuffix;
        assert r != p by {
          if |r| == |p| {
            assert j == |p| - |ExplanationSuffix|;
            assert r[|r| - 3] == ExplanationSuffix[|ExplanationSuffix| - 3] == '.';
            assert p[j + 1..][|p| - 3 - j - 1] == p[|p| - 3];
          }
        }
        assert forall k :: ExtensionAt(p, k) ==> k == j;
      } else {
        assert forall k :: !ExtensionAt(p, k) by {
          forall k | 0 <= k < |p| - 1 && p[k] == '.' ensures '.' in p[k + 1..] {
            assert p[k + 1..][|p| - 1 - k - 1] == p[|p| - 1];
          }
        }
      }
  }

  /** A dot with no dot after it is the one `LastIndexOfChar` finds. */
  lemma LastDotAt(p: string, j: nat)
    requires j < |p| && p[j] == '.' && '.' !in p[j + 1..]
    ensures LastIndexOfChar(p, '.') == Some(j)
  {
    assert p[j] in p;
    var i := LastIndexOfChar(p, '.').value;
    forall k | i < k < |p| ensures p[k] != '.' {
      assert p[i + 1..][k - i - 1] == p[k];
    }
    forall k | j < k < |p| ensures p[k] != '.' {
      assert p[j + 1..][k - j - 1] == p[k];
    }
  }

  /** A non-empty extension without dots is replaced, whatever comes
      before it. */
  lemma ExtensionReplaced(base: string, ext: string)
    requires ext != "" && '.' !in ext
    ensures ExplanationPath(base + "." + ext) == base + ExplanationSuffix
  {
    var p := base + "." + ext;
    assert p[|base|] == '.';
    assert p[|base| + 1..] == ext;
    LastDotAt(p, |base|);
    assert p[..|base|] == base;
  }

  /** A path without a dot is left alone. */
  lemma NoDotKept(p: string)
    requires '.' !in p
    ensures ExplanationPath(p) == p
  {
    assert forall k :: 0 <= k < |p| ==> p[k] != '.';
  }

  /** A path ending in a dot is left alone. */
  lemma TrailingDotKept(base: string)
    ensures ExplanationPath(base + ".") == base + "."
  {
    var p := base + ".";
    LastDotAt(p, |base|);
  }

  /** A dot inside a directory name still counts when the file name has
      none: the rewrite then drops the slash and what follows it, as in
      "/logs.v2/run" becoming "/logs.explicacao.md". */
  lemma DirectoryDotCounts(dir: string, sub: string, name: string)
    requires '.' !in sub && '.' !in name
    ensures ExplanationPath(dir + "." + sub + "/" + name) == dir + ExplanationSuffix
  {
    var ext := sub + "/" + name;
    assert '.' !in ext;
    ExtensionReplaced(dir, ext);
    assert dir + "." + sub + "/" + name == dir + "." + ext;
  }

  // --------------------------------------------------------- explanation

  const PromptPrefix: string := "Explique o seguinte erro de forma clara e didática para um analista de QA:\n\n"

  /** `generateExplanationFromLog`: the stub explainer on the prompt, and
      an error when its result is empty. */
  function GenerateExplanationFromLog(log: string): (r: Result<string>)
    ensures r.Ok? <==> GeminiAgent.GerarExplicacaoErro(PromptPrefix + log) != ""
    ensures r.Ok? ==> r.value == GeminiAgent.GerarExplicacaoErro(PromptPrefix + log)
  {
    var explanation := GeminiAgent.GerarExplicacaoErro(PromptPrefix + log);
    if explanation == "" then Err("❌ Não foi possível gerar explicação com a IA.")
    else Ok(explanation)
  }

  /** With the stub explainer the empty-explanation error cannot happen. */
  lemma ExplanationAlwaysGenerated(log: string)
    ensures GenerateExplanationFromLog(log).Ok?
  {
    GeminiAgent.ExplanationNeverEmpty(PromptPrefix + log);
  }

  // -------------------------------------------------------------- runAgent

  datatype Node = File(content: string) | Directory

  type Fs = map<string, Node>

  /** The oracles of one `runAgent` call. */
  datatype Oracle = Oracle(
    writeOk: bool,
    commentAnswer: string,
    commentError: Option<string>,
    attachAnswer: string,
    attachError: Option<string>)

  datatype Question = CommentQuestion | AttachQuestion

  datatype Failure =
    | NotFound(path: string)
    | InvalidTicket
    | ReadFailed(path: string)
    | NoExplanation
    | WriteFailed(path: string)
    | CommentFailed(message: string)
    | AttachFailed(message: string)

  /** The effects of `runAgent` that leave the process, in order; a
    `Failed` is what the catch logs. */
  datatype Effect =
    | ReadLog(path: string)
    | WroteFile(path: string, content: string)
    | Asked(question: Question)
    | Commented(ticket: string, text: string)
    | Attached(ticket: string, path: string)
    | Failed(failure: Failure)

  datatype Run = Run(trace: seq<Effect>, fs: Fs)

  /** The attach question and, on a yes, the attachment. */
  function AttachStep(ticket: string, full: string, o: Oracle): seq<Effect> {
    [Asked(AttachQuestion)] +
    if !IsYes(o.attachAnswer) then []
    else [Attached(ticket, full)] + (if o.attachError.Some? then [Failed(AttachFailed(o.attachError.value))] else [])
  }

  /** The comment question, the comment on a yes, then the attach step
      unless the comment call failed. */
  function QuestionSteps(ticket: string, full: string, explanation: string, o: Oracle): seq<Effect> {
    [Asked(CommentQuestion)] +
    if !IsYes(o.commentAnswer) then AttachStep(ticket, full, o)
    else if o.commentError.Some? then [Commented(ticket, explanation), Failed(CommentFailed(o.commentError.value))]
    else [Commented(ticket, explanation)] + AttachStep(ticket, full, o)
  }

  /** One `runAgent(logPath, ticketKey)` on filesystem `fs`. */
  function AgentRun(logPath: string, ticket: string, resolve: string -> string, fs: Fs, o: Oracle): Run {
    var full := resolve(logPath);
    if full !in fs then Run([Failed(NotFound(full))], fs)
    else if Trim(ticket) == "" then Run([Failed(InvalidTicket)], fs)
    else if fs[full].Directory? then Run([Failed(ReadFailed(full))], fs)
    else
      var read := [ReadLog(full)];
      match GenerateExplanationFromLog(fs[full].content)
      case Err(_) => Run(read + [Failed(NoExplanation)], fs)
      case Ok(explanation) =>
        var target := ExplanationPath(full);
        if !o.writeOk then Run(read + [Failed(WriteFailed(target))], fs)
        else
          var written := read + [WroteFile(target, explanation)];
          Run(written + QuestionSteps(ticket, full, explanation, o), fs[target := File(explanation)])
  }

  /** `runAgent`: each step in turn inside one try; a thrown error ends
      the run and is only logged. */
  method RunAgent(logPath: string, ticket: string, resolve: string -> string, fs: Fs, o: Oracle)
    returns (trace: seq<Effect>, fs': Fs)
    ensures Run(trace, fs') == AgentRun(logPath, ticket, resolve, fs, o)
  {
    fs' := fs;
    var full := resolve(logPath);
    if full !in fs {
      return [Failed(NotFound(full))], fs;
    }
    if Trim(ticket) == "" {
      return [Failed(InvalidTicket)], fs;
    }
    if fs[full].Directory? {
      return [Failed(ReadFailed(full))], fs;
    }
    trace := [ReadLog(full)];
    var generated := GenerateExplanationFromLog(fs[full].content);
    if generated.Err? {
      return trace + [Failed(NoExplanation)], fs;
    }
    var explanation := generated.value;
    var target := ExplanationPath(full);
    if !o.writeOk {
      return trace + [Failed(WriteFailed(target))], fs;
    }
    fs' := fs[target := File(explanation)];
    var asked := AskAndAct(ticket, full, explanation, o);
    trace := trace + [WroteFile(target, explanation)] + asked;
  }

  /** The two questions of `runAgent` and the Jira calls they allow. */
  method AskAndAct(ticket: string, full: string, explanation: string, o: Oracle)
    returns (trace: seq<Effect>)
    ensures trace == QuestionSteps(ticket, full, explanation, o)
  {
    trace := [Asked(CommentQuestion)];
    if IsYes(o.commentAnswer) {
      trace := trace + [Commented(ticket, explanation)];
      if o.commentError.Some? {
        return trace + [Failed(CommentFailed(o.commentError.value))];
      }
    }
    ghost var beforeAttach := trace;
    trace := trace + [Asked(AttachQuestion)];
    if IsYes(o.attachAnswer) {
      trace := trace + [Attached(ticket, full)];
      if o.attachError.Some? {
        trace := trace + [Failed(AttachFailed(o.attachError.value))];
      }
    }
    assert trace == beforeAttach + AttachStep(ticket, full, o);
  }

  // ------------------------------------------------------------ properties

  predicate External(e: Effect) {
    e.ReadLog? || e.WroteFile? || e.Commented? || e.Attached?
  }

  /** A missing log file is reported first, whatever the ticket key; an
      invalid key is reported before anything is read; neither touches
      the filesystem or Jira. */
  lemma ValidationComesFirst(logPath: string, ticket: string, resolve: string -> string, fs: Fs, o: Oracle)
    ensures resolve(logPath) !in fs ==>
            AgentRun(logPath, ticket, resolve, fs, o) == Run([Failed(NotFound(resolve(logPath)))], fs)
    ensures resolve(logPath) in fs && Trim(ticket) == "" ==>
            AgentRun(logPath, ticket, resolve, fs, o) == Run([Failed(InvalidTicket)], fs)
  {
  }

  /** A run that gets past the checks starts by reading the log and writing
      the explanation, before either question. */
  lemma WriteBeforeQuestions(logPath: string, ticket: string, resolve: string -> string, fs: Fs, o: Oracle)
    requires resolve(logPath) in fs && fs[resolve(logPath)].File? && Trim(ticket) != "" && o.writeOk
    ensures var full := resolve(logPath);
            var explanation := GeminiAgent.GerarExplicacaoErro(PromptPrefix + fs[full].content);
            var r := AgentRun(logPath, ticket, resolve, fs, o);
            |r.trace| >= 3 &&
            r.trace[..3] == [ReadLog(full), WroteFile(ExplanationPath(full), explanation), Asked(CommentQuestion)] &&
            r.fs == fs[ExplanationPath(full) := File(explanation)]
  {
    var full := resolve(logPath);
    WrittenRunTrace(logPath, ticket, resolve, fs, o);
    var explanation := GeminiAgent.GerarExplicacaoErro(PromptPrefix + fs[full].content);
    var q := QuestionSteps(ticket, full, explanation, o);
    assert q[0] == Asked(CommentQuestion);
  }

  /** No effect but the last is a logged failure. */
  predicate FailureOnlyLast(t: seq<Effect>) {
    forall i :: 0 <= i < |t| - 1 ==> !t[i].Failed?
  }

  /** Effects that are not failures, put in front, keep a failure last. */
  lemma FailureOnlyLastAfter(p: seq<Effect>, q: seq<Effect>)
    requires forall i :: 0 <= i < |p| ==> !p[i].Failed?
    requires q != [] && FailureOnlyLast(q)
    ensures FailureOnlyLast(p + q)
  {
    forall i | 0 <= i < |p + q| - 1 ensures !(p + q)[i].Failed? {
      if i >= |p| {
        assert (p + q)[i] == q[i - |p|];
      }
    }
  }

  /** The attach step: one question, and the attachment of the original
      log path exactly on a yes; a failure, if any, comes last. */
  lemma AttachStepShape(ticket: string, full: string, o: Oracle)
    ensures var a := AttachStep(ticket, full, o);
            a[0] == Asked(AttachQuestion) &&
            (Attached(ticket, full) in a <==> IsYes(o.attachAnswer)) &&
            (forall e :: e in a ==> !e.Commented? && e != Asked(CommentQuestion)) &&
            (forall e :: e in a && e.Attached? ==> e == Attached(ticket, full)) &&
            FailureOnlyLast(a)
  {
    var a := AttachStep(ticket, full, o);
    if !IsYes(o.attachAnswer) {
      assert a == [Asked(AttachQuestion)];
    } else if o.attachError.Some? {
      assert a == [Asked(AttachQuestion), Attached(ticket, full), Failed(AttachFailed(o.attachError.value))];
    } else {
      assert a == [Asked(AttachQuestion), Attached(ticket, full)];
    }
  }

  /** The comment is posted exactly when the first answer is yes; the
      attach question is asked whatever that answer was, unless the comment
      call failed; the attachment, of the original log path, is made
      exactly when the attach question is asked and answered yes. */
  lemma {:induction false} QuestionsDecideCalls(ticket: string, full: string, explanation: string, o: Oracle)
    ensures var q := QuestionSteps(ticket, full, explanation, o);
            (Commented(ticket, explanation) in q <==> IsYes(o.commentAnswer)) &&
            (Asked(AttachQuestion) in q <==> !(IsYes(o.commentAnswer) && o.commentError.Some?)) &&
            (Attached(ticket, full) in q <==> Asked(AttachQuestion) in q && IsYes(o.attachAnswer)) &&
            (forall e :: e in q && e.Attached? ==> e == Attached(ticket, full))
  {
    var q := QuestionSteps(ticket, full, explanation, o);
    var a := AttachStep(ticket, full, o);
    AttachStepShape(ticket, full, o);
    if !IsYes(o.commentAnswer) {
      assert q == [Asked(CommentQuestion)] + a;
    } else if o.commentError.Some? {
      assert q == [Asked(CommentQuestion), Commented(ticket, explanation), Failed(CommentFailed(o.commentError.value))];
    } else {
      assert q == [Asked(CommentQuestion), Commented(ticket, explanation)] + a;
    }
  }

  /** The questions never end in the middle on a failure. */
  lemma QuestionsFailureOnlyLast(ticket: string, full: string, explanation: string, o: Oracle)
    ensures QuestionSteps(ticket, full, explanation, o) != []
    ensures FailureOnlyLast(QuestionSteps(ticket, full, explanation, o))
  {
    var q := QuestionSteps(ticket, full, explanation, o);
    var a := AttachStep(ticket, full, o);
    AttachStepShape(ticket, full, o);
    if !IsYes(o.commentAnswer) {
      assert q == [Asked(CommentQuestion)] + a;
      FailureOnlyLastAfter([Asked(CommentQuestion)], a);
    } else if o.commentError.Some? {
      assert q == [Asked(CommentQuestion), Commented(ticket, explanation), Failed(CommentFailed(o.commentError.value))];
    } else {
      assert q == [Asked(CommentQuestion), Commented(ticket, explanation)] + a;
      FailureOnlyLastAfter([Asked(CommentQuestion), Commented(ticket, explanation)], a);
    }
  }

  /** The comment question is asked before the attach question. */
  lemma CommentAskedBeforeAttach(ticket: string, full: string, explanation: string, o: Oracle)
    requires Asked(AttachQuestion) in QuestionSteps(ticket, full, explanation, o)
    ensures var q := QuestionSteps(ticket, full, explanation, o);
            q[0] == Asked(CommentQuestion) &&
            forall i :: 0 <= i < |q| && q[i] == Asked(AttachQuestion) ==> i > 0
  {
  }

  /** A failing comment call skips the attach question and ends the run. */
  lemma CommentFailureSkipsAttach(ticket: string, full: string, explanation: string, o: Oracle)
    requires IsYes(o.commentAnswer) && o.commentError.Some?
    ensures QuestionSteps(ticket, full, explanation, o) ==
            [Asked(CommentQuestion), Commented(ticket, explanation), Failed(CommentFailed(o.commentError.value))]
  {
  }

  /** `runAgent` never lets an error out: a failure, if any, is logged once
      and is the last thing that happens. */
  lemma FailureIsLast(logPath: string, ticket: string, resolve: string -> string, fs: Fs, o: Oracle)
    ensures |AgentRun(logPath, ticket, resolve, fs, o).trace| >= 1
    ensures FailureOnlyLast(AgentRun(logPath, ticket, resolve, fs, o).trace)
  {
    var full := resolve(logPath);
    if full !in fs || Trim(ticket) == "" || fs[full].Directory? {
      assert |AgentRun(logPath, ticket, resolve, fs, o).trace| == 1;
    } else {
      ExplainedRunFailureIsLast(logPath, ticket, resolve, fs, o);
    }
  }

  lemma ExplainedRunFailureIsLast(logPath: string, ticket: string, resolve: string -> string, fs: Fs, o: Oracle)
    requires resolve(logPath) in fs && fs[resolve(logPath)].File? && Trim(ticket) != ""
    ensures |AgentRun(logPath, ticket, resolve, fs, o).trace| >= 1
    ensures FailureOnlyLast(AgentRun(logPath, ticket, resolve, fs, o).trace)
  {
    var full := resolve(logPath);
    ExplanationAlwaysGenerated(fs[full].content);
    var explanation := GenerateExplanationFromLog(fs[full].content).value;
    if o.writeOk {
      WrittenRunTrace(logPath, ticket, resolve, fs, o);
      QuestionsFailureOnlyLast(ticket, full, explanation, o);
      FailureOnlyLastAfter([ReadLog(full), WroteFile(ExplanationPath(full), explanation)],
                           QuestionSteps(ticket, full, explanation, o));
    }
  }

  /** A run that writes the explanation goes on with the questions. */
  lemma WrittenRunTrace(logPath: string, ticket: string, resolve: string -> string, fs: Fs, o: Oracle)
    requires resolve(logPath) in fs && fs[resolve(logPath)].File? && Trim(ticket) != "" && o.writeOk
    ensures var full := resolve(logPath);
            var explanation := GeminiAgent.GerarExplicacaoErro(PromptPrefix + fs[full].content);
            var r := AgentRun(logPath, ticket, resolve, fs, o);
            r.trace == [ReadLog(full), WroteFile(ExplanationPath(full), explanation)] + QuestionSteps(ticket, full, explanation, o) &&
            r.fs == fs[ExplanationPath(full) := File(explanation)]
  {
    var full := resolve(logPath);
    var content := fs[full].content;
    ExplanationAlwaysGenerated(content);
    var explanation := GeminiAgent.GerarExplicacaoErro(PromptPrefix + content);
    assert GenerateExplanationFromLog(content) == Ok(explanation);
    var target := ExplanationPath(full);
    var q := QuestionSteps(ticket, full, explanation, o);
    assert AgentRun(logPath, ticket, resolve, fs, o) ==
           Run([ReadLog(full)] + [WroteFile(target, explanation)] + q, fs[target := File(explanation)]);
    assert [ReadLog(full)] + [WroteFile(target, explanation)] == [ReadLog(full), WroteFile(target, explanation)];
  }

  /** Without an extension the explanation is written over the log itself. */
  lemma NoExtensionOverwritesLog(logPath: string, ticket: string, resolve: string -> string, fs: Fs, o: Oracle)
    requires resolve(logPath) in fs && fs[resolve(logPath)].File? && Trim(ticket) != "" && o.writeOk
    requires forall j :: !ExtensionAt(resolve(logPath), j)
    ensures var full := resolve(logPath);
            AgentRun(logPath, ticket, resolve, fs, o).fs ==
            fs[full := File(GeminiAgent.GerarExplicacaoErro(PromptPrefix + fs[full].content))]
  {
    ExplanationAlwaysGenerated(fs[resolve(logPath)].content);
    ExplanationPathIsReplace(resolve(logPath));
  }
}
