/** The Slack webhook client of `src/clients/slackClient.ts`: the
    constructor's check, the (disabled) mrkdwn escaping, the title taken
    from the first line of an analysis, the two payload shapes, and the
    boolean each send returns. The HTTP reply is a parameter. */
module Slack {
  import opened Wrappers
  import opened JsText
  import opened Json
  import opened Http

  const MissingWebhookMessage: string := "❌ URL do Webhook do Slack não encontrada no .env (SLACK_WEBHOOK_URL)"
  const DefaultTitle: string := "Análise de Erro"
  const FallbackPrefix: string := "Análise de erro: "

  /** The two characters backslash and 'n', which the code splits on. */
  const EscapedNewline: string := "\\n"

  /** The constructor: `SLACK_WEBHOOK_URL || ''` must be non-empty. */
  function NewSlackClient(webhookUrl: Option<string>): (r: Result<string>)
    ensures r.Err? <==> webhookUrl.None? || webhookUrl.value == ""
    ensures r.Err? ==> r.message == MissingWebhookMessage
    ensures r.Ok? ==> r.value == webhookUrl.value
  {
    if webhookUrl.None? || webhookUrl.value == "" then Err(MissingWebhookMessage) else Ok(webhookUrl.value)
  }

  /** `escapeMrkdwn`: escaping is switched off; the text goes out as it is. */
  function EscapeMrkdwn(text: string): (r: string)
    ensures r == text
  {
    text
  }

  /** `analysis.split('\\n')[0]`: the text before the first backslash-n pair;
      real line breaks do not end it. */
  function FirstLine(analysis: string): string {
    BeforeFirst(analysis, EscapedNewline)
  }

  predicate NoLineTerminator(s: string) {
    forall i :: 0 <= i < |s| ==> !IsLineTerminator(s[i])
  }

  /** A way for `\s*(.*)$` to match all of `rest`: `\s*` takes the first `k`
      characters, all whitespace, and `.*` the others, none a line terminator. */
  predicate ValidSplit(rest: string, k: int) {
    0 <= k <= |rest| && IsBlank(rest[..k]) && NoLineTerminator(rest[k..])
  }

  /** The capture of `/^##\s*(.*)$/` on `line`: `\s*` takes the whole
      whitespace run after "##", and the rest must hold no line terminator. */
  function TitleCapture(line: string): Option<string> {
    if !StartsWith(line, "##") then None
    else
      var rest := line[2..];
      var cap := rest[LeadingWhitespace(rest)..];
      if NoLineTerminator(cap) then Some(cap) else None
  }

  /** `TitleCapture` is the regular-expression match: it succeeds exactly
      when some split works, and its capture is the one the greedy `\s*`
      picks, the longest whitespace prefix that works. */
  lemma TitleCaptureIsRegexMatch(line: string)
    ensures TitleCapture(line).Some? <==> StartsWith(line, "##") && exists k :: ValidSplit(line[2..], k)
    ensures TitleCapture(line).Some? ==>
            var rest := line[2..];
            exists k :: ValidSplit(rest, k) && TitleCapture(line).value == rest[k..] &&
                        forall k' :: ValidSplit(rest, k') ==> k' <= k
  {
    if StartsWith(line, "##") {
      var rest := line[2..];
      var w := LeadingWhitespace(rest);
      assert IsBlank(rest[..w]);
      forall k | ValidSplit(rest, k) ensures k <= w && NoLineTerminator(rest[w..]) {
        forall i | 0 <= i < |rest| - w ensures !IsLineTerminator(rest[w..][i]) {
          assert rest[w..][i] == rest[k..][i + w - k];
        }
      }
      if NoLineTerminator(rest[w..]) {
        assert ValidSplit(rest, w);
      }
    }
  }

  /** `titleMatch ? titleMatch[1].trim() : 'Análise de Erro'`. */
  function Title(analysis: string): string {
    match TitleCapture(FirstLine(analysis))
    case Some(cap) => Trim(cap)
    case None => DefaultTitle
  }

  /** A heading followed by a real line break does not match, because `.`
      stops at the break and `$` is the end of the input. */
  lemma HeadingWithRealNewlineGetsDefault(heading: string, body: string)
    requires '\\' !in heading && '\\' !in body
    requires |heading| > 0 && !IsWhitespace(heading[0])
    ensures Title("## " + heading + "\n" + body) == DefaultTitle
  {
    var s := "## " + heading + "\n" + body;
    assert forall j :: 0 <= j < |s| ==> s[j] != '\\' by {
      forall j | 0 <= j < |s| ensures s[j] != '\\' {
        if j >= 4 + |heading| { assert s[j] == body[j - 4 - |heading|]; }
        else if j >= 3 && j < 3 + |heading| { assert s[j] == heading[j - 3]; }
      }
    }
    forall j: nat ensures !OccursAt(s, EscapedNewline, j) {
      NoBackslashNoEscape(s, j);
    }
    assert FirstLine(s) == s;
    var rest := s[2..];
    assert rest[0] == ' ' && rest[1] == heading[0];
    assert LeadingWhitespace(rest) == 1;
    assert rest[1..][|heading|] == '\n';
  }

  lemma NoBackslashNoEscape(s: string, j: nat)
    requires j < |s| ==> s[j] != '\\'
    ensures !OccursAt(s, EscapedNewline, j)
  {
    if j + 2 <= |s| {
      assert s[j..j + 2][0] == s[j];
    }
  }

  /** The first line ends at the first backslash-n pair. */
  lemma FirstLineStopsAtEscape(line: string, more: string)
    requires '\\' !in line
    ensures FirstLine(line + EscapedNewline + more) == line
  {
    var s := line + EscapedNewline + more;
    assert OccursAt(s, EscapedNewline, |line|);
    forall j: nat | j < |line| ensures !OccursAt(s, EscapedNewline, j) {
      assert s[j] == line[j];
      NoBackslashNoEscape(s, j);
    }
    assert s[..|line|] == line;
  }

  lemma HeadingCapture(heading: string)
    requires NoLineTerminator(heading) && |heading| > 0 && !IsWhitespace(heading[0])
    ensures TitleCapture("## " + heading) == Some(heading)
  {
    var rest := ("## " + heading)[2..];
    assert rest == " " + heading;
    assert LeadingWhitespace(rest) == 1;
    assert rest[1..] == heading;
  }

  /** A heading followed by the two characters backslash and 'n' gives its
      trimmed text as the title. */
  lemma HeadingWithEscapedNewlineGivesTitle(heading: string, body: string)
    requires '\\' !in heading && NoLineTerminator(heading)
    requires |heading| > 0 && !IsWhitespace(heading[0])
    ensures Title("## " + heading + "\\n" + body) == Trim(heading)
  {
    assert '\\' !in "## " + heading;
    FirstLineStopsAtEscape("## " + heading, body);
    assert "## " + heading + "\\n" + body == "## " + heading + EscapedNewline + body;
    HeadingCapture(heading);
  }

  /** A Slack text object or block, as JSON. */
  function TextObject(kind: string, text: string): Json {
    JObj(map["type" := JStr(kind), "text" := JStr(text)])
  }

  /** The `sendErrorAnalysis` payload: a fallback text with the title and
      one mrkdwn section holding the analysis. */
  function ErrorAnalysisPayload(analysis: string): Json {
    JObj(map[
      "text" := JStr(FallbackPrefix + Title(analysis)),
      "blocks" := JArr([JObj(map["type" := JStr("section"), "text" := TextObject("mrkdwn", analysis)])])])
  }

  /** The `sendMessage` payload: just the text. */
  function MessagePayload(message: string): Json {
    JObj(map["text" := JStr(message)])
  }

  /** A webhook post: the payload sent and the boolean returned. */
  datatype Post = Post(payload: Json, ok: bool)

  /** Both sends return true for a 200 reply and false otherwise; no error
      leaves them. */
  function Delivered(reply: Reply): bool {
    AxiosResolves(reply) && reply.status == 200
  }

  function SendMessage(message: string, reply: Reply): (p: Post)
    ensures p.payload == MessagePayload(message)
    ensures p.ok <==> reply.Reply? && reply.status == 200
  {
    Post(MessagePayload(message), Delivered(reply))
  }

  function SendErrorAnalysis(analysis: string, reply: Reply): (p: Post)
    ensures p.payload == ErrorAnalysisPayload(analysis)
    ensures p.ok <==> reply.Reply? && reply.status == 200
  {
    Post(ErrorAnalysisPayload(analysis), Delivered(reply))
  }

  /** The analysis travels verbatim in exactly one block; the message
      payload has the text and nothing else. */
  lemma PayloadShapes(analysis: string, message: string)
    ensures var blocks := ErrorAnalysisPayload(analysis).fields["blocks"].items;
            |blocks| == 1 && blocks[0].fields["text"] == TextObject("mrkdwn", EscapeMrkdwn(analysis)) &&
            blocks[0].fields["type"] == JStr("section")
    ensures ErrorAnalysisPayload(analysis).fields["text"] == JStr(FallbackPrefix + Title(analysis))
    ensures MessagePayload(message).fields.Keys == {"text"}
  {
  }
}
