/** The Jira REST client of `src/clients/jiraClient.ts`: the constructor's
    credential and URL checks, the base-URL normalisation, the connection
    test and the error mapping of issue creation. The HTTP reply is a
    parameter. */
module JiraClient {
  import opened Wrappers
  import opened JsText
  import opened JsNumber
  import opened Json
  import opened Http

  const CredentialsMessage: string :=
    "Credenciais do Jira não configuradas corretamente. Verifique as variáveis de ambiente JIRA_URL, JIRA_EMAIL e JIRA_API_TOKEN."
  const UrlMessage: string := "URL do Jira inválida. Deve começar com https:// e terminar com .atlassian.net"
  const AuthFailedMessage: string :=
    "Falha na autenticação do Jira. Verifique se o email e o token de API estão corretos."
  const BadRequestMessage: string :=
    "Requisição inválida. Verifique se a chave do projeto e o tipo do chamado estão corretos."

  /** The environment variables the constructor reads. `JIRA_AUTH` is read
      but never used, so it is not here. */
  datatype Env = Env(url: Option<string>, email: Option<string>, token: Option<string>)

  /** The client's fields: the base URL and the basic-auth credentials. */
  datatype Client = Client(baseUrl: string, username: string, password: string)

  predicate Present(v: Option<string>) {
    v.Some? && v.value != ""
  }

  /** `url.endsWith('/') ? url.slice(0, -1) : url`: one slash at most. */
  function StripTrailingSlash(url: string): (r: string)
    ensures EndsWith(url, "/") ==> r + "/" == url
    ensures !EndsWith(url, "/") ==> r == url
  {
    if EndsWith(url, "/") then url[..|url| - 1] else url
  }

  /** The constructor's URL check: an "https://" prefix and ".atlassian.net"
      anywhere in the URL. */
  predicate AcceptedBaseUrl(baseUrl: string) {
    StartsWith(baseUrl, "https://") && Includes(baseUrl, ".atlassian.net")
  }

  /** The constructor: the three credentials are required, then the
      normalised URL is checked. */
  function NewJiraClient(env: Env): (r: Result<Client>)
    ensures !(Present(env.url) && Present(env.email) && Present(env.token)) ==> r == Err(CredentialsMessage)
    ensures Present(env.url) && Present(env.email) && Present(env.token) ==>
            (r.Ok? <==> AcceptedBaseUrl(StripTrailingSlash(env.url.value)))
    ensures r.Err? ==> r.message == CredentialsMessage || r.message == UrlMessage
    ensures r.Ok? ==> r.value == Client(StripTrailingSlash(env.url.value), env.email.value, env.token.value)
  {
    if !(Present(env.url) && Present(env.email) && Present(env.token)) then Err(CredentialsMessage)
    else
      var baseUrl := StripTrailingSlash(env.url.value);
      if !AcceptedBaseUrl(baseUrl) then Err(UrlMessage)
      else Ok(Client(baseUrl, env.email.value, env.token.value))
  }

  /** Only one trailing slash goes: a URL ending in two keeps one. */
  lemma OneSlashStripped(site: string)
    ensures StripTrailingSlash(site + "//") == site + "/"
  {
  }

  /** The host check is a substring test, so a host that merely contains
      ".atlassian.net" is accepted. */
  lemma LookalikeHostAccepted()
    ensures AcceptedBaseUrl("https://team.atlassian.net.example.com")
  {
    var host := ".atlassian.net";
    var url := "https://team" + host + ".example.com";
    assert url == "https://team.atlassian.net.example.com";
    assert url[12..12 + |host|] == host;
    assert OccursAt(url, host, 12);
  }

  /** `testConnection`: true exactly for a 200 reply; every other status
      and every network failure is false. */
  function TestConnection(reply: Reply): (ok: bool)
    ensures ok <==> reply.Reply? && reply.status == 200
  {
    AxiosResolves(reply) && reply.status == 200
  }

  /** The issue fields the caller passes. */
  datatype IssueData = IssueData(summary: string, description: string, projectKey: string)

  /** The body of the issue-creation request. */
  function IssueBody(issue: IssueData): Json {
    JObj(map["fields" := JObj(map[
      "project" := JObj(map["key" := JStr(issue.projectKey)]),
      "summary" := JStr(issue.summary),
      "description" := JStr(issue.description),
      "issuetype" := JObj(map["name" := JStr("Task")])])])
  }

  /** The issue type is always "Task", and the other fields are the
      caller's, unchanged. */
  lemma IssueBodyFields(issue: IssueData)
    ensures var f := IssueBody(issue).fields["fields"].fields;
            f["issuetype"] == JObj(map["name" := JStr("Task")]) &&
            f["project"] == JObj(map["key" := JStr(issue.projectKey)]) &&
            f["summary"] == JStr(issue.summary) && f["description"] == JStr(issue.description)
  {
  }

  /** The message axios gives a rejection for a status outside 2xx. */
  function StatusMessage(status: int): string {
    "Request failed with status code " + DecimalString(status)
  }

  /** The request `createTestIssue` posts and what it returns or throws. */
  datatype IssueCall = IssueCall(body: Json, result: Result<Json>)

  /** `createTestIssue`: the reply's data on success; 401 and 400 are mapped
      to their own messages; any other failure is rethrown as it came. */
  function CreateTestIssue(issue: IssueData, reply: Reply): (r: IssueCall)
    ensures r.body == IssueBody(issue)
    ensures r.result.Ok? <==> AxiosResolves(reply)
    ensures r.result.Ok? ==> r.result.value == reply.data
    ensures reply.Reply? && reply.status == 401 ==> r.result == Err(AuthFailedMessage)
    ensures reply.Reply? && reply.status == 400 ==> r.result == Err(BadRequestMessage)
    ensures reply.NetworkError? ==> r.result == Err(reply.message)
    ensures reply.Reply? && !AxiosResolves(reply) && reply.status != 401 && reply.status != 400 ==>
            r.result == Err(StatusMessage(reply.status))
  {
    var result :=
      if AxiosResolves(reply) then Ok(reply.data)
      else if reply.Reply? && reply.status == 401 then Err(AuthFailedMessage)
      else if reply.Reply? && reply.status == 400 then Err(BadRequestMessage)
      else if reply.NetworkError? then Err(reply.message)
      else Err(StatusMessage(reply.status));
    IssueCall(IssueBody(issue), result)
  }

  /** A rethrown status error carries its status, which reads back. */
  lemma RethrownStatusReadable(status: int)
    ensures ParseInt(StatusMessage(status)[|"Request failed with status code "|..]) == Some(status)
  {
    DecimalRoundTrip(status);
    assert StatusMessage(status)[|"Request failed with status code "|..] == DecimalString(status);
  }
}
