# qa-ai-agent core, modelled in Dafny

qa-ai-agent is a TypeScript command-line tool for QA analysts. It reads test
logs and has them explained by a language model (a stub here). It then writes
the explanation beside the log and, if the analyst answers yes, comments on
and attaches the log to a Jira ticket. Around that flow sit:

- a two-tier time-to-live cache;
- a memoised gateway to the model;
- a Redis-backed rate limiter;
- request validators;
- Jira and Slack clients;
- a Cypress summary parser;
- a log sanitiser;
- a log-line splitter.

The rate limiter fails open: when its Redis client is not connected it lets
every request through. The module builds its own client and nothing connects
it, so the limiter as shipped never limits
(`RateLimiter.FreshClientNeverLimits`). The lemmas about limiting assume a
connected client.

The project models each of these source files as one Dafny module. Time, the
filesystem, prompts, HTTP replies, the model's reply and `JSON.parse` are all
parameters or oracles. Each operation is then deterministic.

| module | source | form |
|---|---|---|
| `Wrappers`, `JsText`, `JsNumber`, `Json`, `Http` | the JavaScript built-ins the code relies on | functions: `trim`, `split`/`join`, `indexOf`, `parseInt`, `toString(radix)`, ToInt32, truthiness, axios' resolve rule |
| `CacheManager` | `src/utils/cacheManager.ts` | class `Cache` over two map fields, each method proved against a spec function |
| `AiAnalysis` | `src/services/aiAnalysisService.ts` | the hash loop as a method; the cache-first flow as methods on the shared `Cache` |
| `Evidence` | `src/services/evidenceAnalyzer.ts` | pure answer rule and path rewrite; `runAgent` as a method producing an effect trace |
| `GeminiAgent` | `src/agents/geminiAgent.ts` | pure stub explainer and key validator; `main` as a method producing events |
| `Cli` | `src/index.ts` | `main` as a method with a loop over the log files |
| `RateLimiter` | `src/middleware/rateLimiter.ts` | pure config merge; the handler as a method on the Redis client |
| `Redis` | `src/services/RedisService.ts` | class `RedisService` with the connection flag and the server's contents |
| `Security` | `src/config/security.ts` | pure decisions |
| `JiraClient` | `src/clients/jiraClient.ts` | pure validation and error mapping |
| `CypressRunner` | `src/scripts/runCypressTests.ts` | pure summary parser; the screenshot walk as nested loops |
| `Slack` | `src/clients/slackClient.ts` | pure title and payload |
| `Logger` | `src/utils/logger.ts` | the three regular expressions as deterministic matchers, and `replace`/`reduce` |
| `LogPreprocessor` | `src/utils/logPreprocessor.ts` | `split` then `filter` |

The regular expressions are written out as greedy matchers. A doc comment
beside each matcher explains why backtracking finds no other match. For the
Cypress field regex (`FieldAtIsRegexMatch`) and the Slack title regex
(`TitleCaptureIsRegexMatch`), that equivalence is also proved as a lemma.

## Model

| member | source | states |
|---|---|---|
| CacheManager.FileNameInjective | src/utils/cacheManager.ts:107-109 | a key's file is the raw key plus ".json", so distinct keys never share a file |
| CacheManager.GetSpec | src/utils/cacheManager.ts:23-51 | a memory entry is returned only while its expiry is strictly after `now`; an expired one is removed before the disk is consulted; an unexpired file is served, promoted to memory with the same value and expiry, and kept on disk; an expired file is unlinked (when the unlink succeeds) and misses; a corrupt file misses and stays; no other key or file changes |
| CacheManager.SetSpec | src/utils/cacheManager.ts:56-69 | memory holds `{value, now + ttl*1000}`; the file is written when the write succeeds; a failed write leaves the disk as it was and keeps the memory write; nothing else changes |
| CacheManager.DeleteSpec | src/utils/cacheManager.ts:74-87 | the key leaves memory, and its file goes when the unlink succeeds; every other key and file is unchanged |
| CacheManager.ClearSpec | src/utils/cacheManager.ts:92-105 | memory is emptied; every listed file before the first failing unlink is gone, whatever its extension; the remaining files are untouched |
| CacheManager.Cache.constructor | src/utils/cacheManager.ts:8-18 | a new cache has an empty memory tier over the existing directory |
| CacheManager.Cache.Get | src/utils/cacheManager.ts:23-51 | the result and the new tiers are `GetSpec` of the old tiers |
| CacheManager.Cache.Set | src/utils/cacheManager.ts:56-69 | the new tiers are `SetSpec` of the old tiers |
| CacheManager.Cache.Delete | src/utils/cacheManager.ts:74-87 | the new tiers are `DeleteSpec` of the old tiers |
| CacheManager.Cache.Clear | src/utils/cacheManager.ts:92-105 | the loop over the listing leaves the tiers `ClearSpec` describes |
| CacheManager.SetThenGet | src/utils/cacheManager.ts:56-60 | after `set`, a `get` at any time before the expiry returns the value |
| CacheManager.SetThenGetAfterRestart | src/utils/cacheManager.ts:35-41 | with the memory tier lost, a written file is still served and is promoted back into memory |
| CacheManager.SetThenGetExpired | src/utils/cacheManager.ts:25-31 | at or after the expiry, `get` misses and removes the entry from memory and, on a successful unlink, from disk |
| CacheManager.StaleFileResurfaces | src/utils/cacheManager.ts:60-68 | because a failed write is swallowed, an older file outlives a newer memory entry and is served once that entry has expired |
| CacheManager.CorruptFileKept | src/utils/cacheManager.ts:43-50 | a corrupt file yields a miss and is not deleted |
| CacheManager.DeleteAbsentIsNoOp | src/utils/cacheManager.ts:74-87 | deleting an absent key changes nothing |
| CacheManager.DeleteThenGet | src/utils/cacheManager.ts:74-87 | after a successful delete, `get` misses at any time |
| CacheManager.ClearEmptiesBoth | src/utils/cacheManager.ts:92-105 | with every file listed and no unlink failing, both tiers end empty |
| CacheManager.ClearStopsAtFailure | src/utils/cacheManager.ts:97-104 | an unlink that throws stops the loop, so files listed at or after it stay |
| JsNumber.RadixRoundTrip | src/services/aiAnalysisService.ts:287 | a `toString(radix)` rendering reads back to the integer, so distinct hashes get distinct strings |
| JsNumber.NatDigitsShape | src/services/aiAnalysisService.ts:287 | a non-negative rendering is lower-case `0-9a-z` digits whose first is '0' only for zero |
| JsNumber.RadixStringShape | src/services/aiAnalysisService.ts:287 | `toString(radix)` is an optional '-' (exactly for negatives) then at least one lower-case digit, with no leading zero; zero is "0" |
| JsNumber.DecimalRoundTrip | src/middleware/rateLimiter.ts:31-41 | `parseInt` reads back the counter that `toString()` wrote |
| AiAnalysis.HashFold | src/services/aiAnalysisService.ts:279-287 | the hash always lies in the signed 32-bit range |
| AiAnalysis.HashStepIsTimes31 | src/services/aiAnalysisService.ts:281-284 | each step `(h << 5) - h + c` then `h & h` is `31*h + c` wrapped to signed 32 bits |
| AiAnalysis.HashIsWrappedPolynomial | src/services/aiAnalysisService.ts:279-287 | the hash of a string is its base-31 polynomial of code units, wrapped to signed 32 bits |
| AiAnalysis.HashContent | src/services/aiAnalysisService.ts:279-287 | the loop computes the fold and renders it in base 36, which reads back to the hash |
| AiAnalysis.EmptyHash | src/services/aiAnalysisService.ts:279-287 | "" hashes to 0, rendered "0" |
| AiAnalysis.KindsNeverShareKeys | src/services/aiAnalysisService.ts:34 | keys of different analyses never collide, whatever the inputs |
| AiAnalysis.KeyDeterminesHash | src/services/aiAnalysisService.ts:34 | within one analysis, equal keys mean equal hashes |
| AiAnalysis.JoinMovesBoundary | src/services/aiAnalysisService.ts:108 | `logs.join('')` is unchanged when the boundary between two neighbouring logs moves, anywhere in the list |
| AiAnalysis.PriorityKeyIgnoresBoundaries | src/services/aiAnalysisService.ts:108 | any log list and the same text cut at another boundary share one cache entry |
| AiAnalysis.JsonSpan | src/services/aiAnalysisService.ts:78-81 | the span exists iff some opening delimiter precedes a closing one; it runs from the first opening delimiter to the last closing one |
| AiAnalysis.ZeroConfidenceRejected | src/services/aiAnalysisService.ts:87-89 | a confidence of 0 fails the truthiness check |
| AiAnalysis.Interpret | src/services/aiAnalysisService.ts:78-101 | a success needs a reply, a span and a parse (and, for `suggestErrorFix`, all four fields); every failure carries the fixed prefix |
| AiAnalysis.Analyze | src/services/aiAnalysisService.ts:33-102 | the result, whether the model was called, and the new tiers are `AnalyzeSpec` |
| AiAnalysis.SuggestErrorFix | src/services/aiAnalysisService.ts:33-102 | `Analyze` with the error-fix key |
| AiAnalysis.PrioritizeErrors | src/services/aiAnalysisService.ts:107-159 | `Analyze` on the joined logs with the priority key and array delimiters |
| AiAnalysis.AnalyzeProductionImpact | src/services/aiAnalysisService.ts:164-215 | `Analyze` with the production-impact key |
| AiAnalysis.PredictSimilarIssues | src/services/aiAnalysisService.ts:220-274 | `Analyze` with the similar-issues key |
| AiAnalysis.HitSkipsModel | src/services/aiAnalysisService.ts:36-39 | a truthy hit is returned without calling the model and without writing the cache |
| AiAnalysis.MissCallsModelAndStoresOnlySuccess | src/services/aiAnalysisService.ts:93-101 | on a miss the model is called; the cache is written with ttl 3600 only on success; failures leave it as the lookup left it |
| AiAnalysis.RepeatWithinTtlServedFromCache | src/config/agentConfig.ts:72-73 | a successful analysis repeated within the hour is served from the cache |
| AiAnalysis.ErrorFixResultIsTruthy | src/services/aiAnalysisService.ts:87-92 | a successful `suggestErrorFix` result is truthy, so its cache entry counts as a hit |
| Evidence.IsYesMeansS | src/services/evidenceAnalyzer.ts:16 | yes exactly when the trimmed answer is "s" or "S" |
| Evidence.PaddedLowerIsYes | src/services/evidenceAnalyzer.ts:16 | " s " is yes |
| Evidence.UpperIsYes | src/services/evidenceAnalyzer.ts:16 | "S" is yes |
| Evidence.SimIsNo | src/services/evidenceAnalyzer.ts:16 | "sim" is no |
| Evidence.EnglishYesIsNo | src/services/evidenceAnalyzer.ts:16 | "y" is no |
| Evidence.ExplanationPathIsReplace | src/services/evidenceAnalyzer.ts:53 | the path changes iff a last dot is followed by at least one non-dot up to the end; it then becomes the text before that dot plus ".explicacao.md"; otherwise it is unchanged |
| Evidence.LastDotAt | src/services/evidenceAnalyzer.ts:53 | a dot with no dot after it is the last dot of the path |
| Evidence.ExtensionReplaced | src/services/evidenceAnalyzer.ts:53 | a non-empty extension without dots is replaced by ".explicacao.md", whatever precedes it |
| Evidence.NoDotKept | src/services/evidenceAnalyzer.ts:53 | a path without a dot is left alone |
| Evidence.TrailingDotKept | src/services/evidenceAnalyzer.ts:53 | a path ending in a dot is left alone |
| Evidence.DirectoryDotCounts | src/services/evidenceAnalyzer.ts:53 | when the file name has no dot, a dot in a directory name is taken, and the rest of the path after it is dropped |
| Evidence.GenerateExplanationFromLog | src/services/evidenceAnalyzer.ts:21-31 | the explainer receives the fixed prefix plus the log; an empty explanation is an error |
| Evidence.ExplanationAlwaysGenerated | src/services/evidenceAnalyzer.ts:21-31 | with the stub explainer the empty-explanation error never fires |
| Evidence.RunAgent | src/services/evidenceAnalyzer.ts:33-76 | the effect trace and the final filesystem are `AgentRun` |
| Evidence.AskAndAct | src/services/evidenceAnalyzer.ts:57-71 | the questions and Jira calls are `QuestionSteps` |
| Evidence.ValidationComesFirst | src/services/evidenceAnalyzer.ts:37-45 | a missing log is reported before the ticket key is checked; both checks come before any read or external call |
| Evidence.WriteBeforeQuestions | src/services/evidenceAnalyzer.ts:53-57 | past the checks, the explanation file is written before either question |
| Evidence.AttachStepShape | src/services/evidenceAnalyzer.ts:64-70 | one attach question; on yes, the original uncompressed log path is attached |
| Evidence.QuestionsDecideCalls | src/services/evidenceAnalyzer.ts:57-71 | the comment is posted iff its answer is yes; the attach question is asked whatever that answer was, when the comment call did not fail |
| Evidence.CommentAskedBeforeAttach | src/services/evidenceAnalyzer.ts:57-71 | the comment question precedes the attach question |
| Evidence.CommentFailureSkipsAttach | src/services/evidenceAnalyzer.ts:60-75 | a failing comment call ends the run before the attach question |
| Evidence.QuestionsFailureOnlyLast | src/services/evidenceAnalyzer.ts:57-75 | the questions always produce an effect, and a failure among them is the last one |
| Evidence.WrittenRunTrace | src/services/evidenceAnalyzer.ts:35-57 | once the log is read and the write succeeds, the run is the read, the write of the explanation file, then the questions; the file system gains exactly that file |
| Evidence.FailureIsLast | src/services/evidenceAnalyzer.ts:73-75 | no error escapes: every run has at least one effect, and a failure is logged once, as the last effect |
| Evidence.NoExtensionOverwritesLog | src/services/evidenceAnalyzer.ts:53-54 | with no extension the explanation is written over the log file itself |
| GeminiAgent.GerarExplicacaoErro | src/agents/geminiAgent.ts:17-24 | the header, the first min(300, length) characters, the trailer; length bounded |
| GeminiAgent.QuoteRoundTrip | src/agents/geminiAgent.ts:23 | the quoted prefix reads back out of the explanation |
| GeminiAgent.ExplanationDependsOnlyOnQuote | src/agents/geminiAgent.ts:23 | two logs get the same explanation iff their first 300 characters agree |
| GeminiAgent.ExplanationNeverEmpty | src/agents/geminiAgent.ts:23 | the stub never returns "" |
| GeminiAgent.ValidIssueKeyMeansNonBlank | src/agents/geminiAgent.ts:59 | a key is accepted iff it holds a non-whitespace character |
| GeminiAgent.FirstValid | src/agents/geminiAgent.ts:55-60 | the answer the prompt returns is one of the answers, and it validates |
| GeminiAgent.FirstValidIsFirst | src/agents/geminiAgent.ts:55-60 | no answer before the returned one validates, and nothing is returned exactly when no answer validates |
| GeminiAgent.MainTrace | src/agents/geminiAgent.ts:26-83 | every run ends with the final message or the caught error |
| GeminiAgent.AgentMain | src/agents/geminiAgent.ts:26-83 | the events are `MainTrace` |
| GeminiAgent.ExactlyOneAction | src/agents/geminiAgent.ts:53-77 | once the log is read, exactly one action runs and it is the chosen one: one comment for 'jira', one timestamped entry for 'local' |
| GeminiAgent.ReadFailureCaught | src/agents/geminiAgent.ts:80-82 | a failed read is caught and no action runs |
| Cli.BatchProcessesEveryFile | src/index.ts:13-16 | each file is announced and processed once, in order, with the same ticket key |
| Cli.RunCli | src/index.ts:3-19 | fewer than two arguments means exit code 1 and nothing else; otherwise the last argument is the ticket, the others are the files in order, and the final message follows the loop |
| Cli.FinishesAfterEveryFile | src/index.ts:13-18 | the final message is printed once, after every file, whatever the runs did |
| Cli.BatchNeverFinishes | src/index.ts:13-16 | the loop itself never prints the final or usage message |
| RateLimiter.Merge | src/middleware/rateLimiter.ts:14-22 | each field is the caller's when given, else the default |
| RateLimiter.MergeExtremes | src/middleware/rateLimiter.ts:21-22 | an empty override gives the defaults; a full one gives itself |
| RateLimiter.PresetValues | src/middleware/rateLimiter.ts:58-68 | the auth and API limiters' configurations, with status 429 |
| RateLimiter.ClientIp | src/middleware/rateLimiter.ts:26 | `req.ip`, else the socket address, else "unknown"; never empty |
| RateLimiter.CountOf | src/middleware/rateLimiter.ts:31 | a missing or empty counter counts as 0 |
| RateLimiter.NextValue | src/middleware/rateLimiter.ts:41 | the written counter is never empty |
| RateLimiter.TtlSeconds | src/middleware/rateLimiter.ts:41 | the least whole number of seconds covering the window |
| RateLimiter.Handle | src/middleware/rateLimiter.ts:24-54 | the response and the new store are `HandleSpec`; the connection flag is unchanged |
| RateLimiter.FailOpen | src/middleware/rateLimiter.ts:49-53 | on a disconnected client the request passes with no headers and nothing is written |
| RateLimiter.FreshClientNeverLimits | src/middleware/rateLimiter.ts:5-54 | with the module's own client, which is never connected, every request passes with no headers and the store is untouched |
| RateLimiter.CounterAfterWrite | src/middleware/rateLimiter.ts:31-41 | after writing `count + 1`, the counter reads back as count + 1 |
| RateLimiter.AdmitRaisesCounter | src/middleware/rateLimiter.ts:33-48 | at count ≥ max the configured status and message are sent and nothing is written; otherwise the counter becomes count+1 with the window's TTL, the headers show max and max(0, max−count−1), and the request passes |
| RateLimiter.CounterStaysWithinMax | src/middleware/rateLimiter.ts:33-41 | from a counter ≤ max, the stored counter stays ≤ max |
| RateLimiter.BurstAdmitsUpToMax | src/middleware/rateLimiter.ts:33-41 | from counter c, n requests in a row admit exactly min(n, max − c) |
| RateLimiter.NotANumberNeverRefused | src/middleware/rateLimiter.ts:31-41 | a counter that does not parse is never refused, and is rewritten as "NaN" |
| RateLimiter.ZeroWindowNeverExpires | src/middleware/rateLimiter.ts:41 | a zero window writes the counter with no expiry |
| Redis.ClientOptionsFor | src/services/RedisService.ts:9-18 | the constructor fails iff REDIS_URL is unset or empty; TLS is on iff the URL starts with "rediss://" |
| Redis.PlainSchemeHasNoTls | src/services/RedisService.ts:18 | "redis://" has no TLS; "rediss://" has it |
| Redis.FindSimilarDocuments | src/services/RedisService.ts:96-100 | always the empty list |
| Redis.RedisService.constructor | src/services/RedisService.ts:9-42 | a new client starts disconnected |
| Redis.RedisService.OnConnect | src/services/RedisService.ts:29-32 | the 'connect' event sets the flag |
| Redis.RedisService.OnError | src/services/RedisService.ts:24-27 | the 'error' event clears the flag |
| Redis.RedisService.OnEnd | src/services/RedisService.ts:38-41 | the 'end' event clears the flag |
| Redis.RedisService.Connect | src/services/RedisService.ts:44-48 | dials only when disconnected; the flag ends true iff already connected or the dial succeeds |
| Redis.RedisService.Disconnect | src/services/RedisService.ts:50-54 | closes only when connected; the flag ends false |
| Redis.RedisService.Get | src/services/RedisService.ts:56-61 | throws while disconnected; otherwise the stored string or null |
| Redis.RedisService.Set | src/services/RedisService.ts:63-81 | checks the connection, then the key, then the value, before any write; a truthy ttl writes with expiry, an absent or 0 ttl without; a refused set changes nothing |
| Redis.RedisService.Delete | src/services/RedisService.ts:83-88 | throws while disconnected and changes nothing; otherwise removes the key, present or not |
| Redis.SetThenGet | src/services/RedisService.ts:56-81 | on a connected client a valid set is read back by get |
| Redis.DisconnectedChangesNothing | src/services/RedisService.ts:57-59 | while disconnected, get, set and delete all fail and the store is unchanged |
| Security.ValidateRequest | src/config/security.ts:69-89 | 415 iff a POST or PUT lacks a JSON content type; otherwise 413 iff the declared length exceeds 1048576; otherwise next |
| Security.TypeCheckedBeforeSize | src/config/security.ts:71-86 | an oversized POST with a bad type gets 415 |
| Security.OversizedRefused | src/config/security.ts:81-86 | any declared length above one megabyte gets 413 once the type check passes |
| Security.WithinLimitPasses | src/config/security.ts:81-88 | a missing length, or one of at most one megabyte, reaches next |
| Security.ReadsSkipTypeCheck | src/config/security.ts:71-78 | GET skips the content-type check |
| Security.ErrorHandler | src/config/security.ts:51-66 | an Error that has a `statusCode` property keeps its value, whatever it is (even `undefined` or a string); otherwise 500; the message is hidden exactly when the status is the number 500 |
| Security.InternalErrorsHidden | src/config/security.ts:60-65 | a non-Error, an error without a `statusCode` property, or one whose status is the number 500, reveals nothing |
| Security.StrictStatusComparison | src/config/security.ts:60-63 | the comparison with 500 is strict: a status of "500" or `undefined` passes through and reveals the message |
| JiraClient.StripTrailingSlash | src/clients/jiraClient.ts:18 | exactly one trailing '/' is removed |
| JiraClient.NewJiraClient | src/clients/jiraClient.ts:7-29 | the three credentials are required first; then the normalised URL must start with "https://" and contain ".atlassian.net"; the client's username is the email and its password the token |
| JiraClient.OneSlashStripped | src/clients/jiraClient.ts:18 | a URL ending in "//" keeps one slash |
| JiraClient.LookalikeHostAccepted | src/clients/jiraClient.ts:21-23 | the host check is a substring test, so "https://team.atlassian.net.example.com" is accepted |
| JiraClient.TestConnection | src/clients/jiraClient.ts:31-50 | true iff the reply is a 200 |
| JiraClient.IssueBodyFields | src/clients/jiraClient.ts:58-71 | the issue type is always "Task"; the caller's fields go out unchanged |
| JiraClient.CreateTestIssue | src/clients/jiraClient.ts:52-89 | the reply's data on 2xx; 401 and 400 map to their messages; any other failure is rethrown unchanged |
| JiraClient.RethrownStatusReadable | src/clients/jiraClient.ts:81-88 | the rethrown message carries the status, which reads back |
| CypressRunner.Section | src/scripts/runCypressTests.ts:30 | a section exists iff "(Results)" occurs before some "(Run Finished)"; it runs from the first of the one to the last of the other |
| CypressRunner.FieldAtIsRegexMatch | src/scripts/runCypressTests.ts:39-41 | the greedy matcher succeeds iff some split of label, whitespace, digits (and unit) matches, and it reads the longest digit run |
| CypressRunner.FirstField | src/scripts/runCypressTests.ts:39-41 | the leftmost position where the field matches, with none before it |
| CypressRunner.NoSectionGivesZeros | src/scripts/runCypressTests.ts:31-35 | without a section all three results are 0 |
| CypressRunner.SummaryReadsBack | src/scripts/runCypressTests.ts:37-48 | a summary written as Cypress writes it reads back with the duration times 1000 |
| CypressRunner.PassingReadsBack | src/scripts/runCypressTests.ts:39-43 | the passing count is the integer after "Passing:" and whitespace |
| CypressRunner.FailingReadsBack | src/scripts/runCypressTests.ts:40-44 | the failing count is the integer after "Failing:" and whitespace |
| CypressRunner.DurationReadsBack | src/scripts/runCypressTests.ts:41-46 | the duration is the integer followed by "seconds" |
| CypressRunner.FirstLabelReadsBack | src/scripts/runCypressTests.ts:39-46 | the first occurrence of a label decides the value |
| CypressRunner.CapturedOutput | src/scripts/runCypressTests.ts:18-27 | a failed exec with stdout is parsed; one without is rethrown |
| CypressRunner.SendScreenshots | src/scripts/runCypressTests.ts:59-90 | the nested loops send exactly `Screenshots` |
| CypressRunner.DirectoryShotsAreTheNestedPngs | src/scripts/runCypressTests.ts:66-84 | a path is sent iff it is a `.png` file directly inside a subdirectory of the screenshots folder |
| CypressRunner.FolderShotsAreThePngs | src/scripts/runCypressTests.ts:75-82 | inside one subdirectory, exactly the `.png` files, in order |
| CypressRunner.TopLevelFilesIgnored | src/scripts/runCypressTests.ts:66-84 | top-level files are never sent |
| CypressRunner.RunTests | src/scripts/runCypressTests.ts:9-93 | results and notices are `RunSpec`, which fails with the notifier's message when SLACK_WEBHOOK_URL is unset or empty |
| CypressRunner.RunShape | src/scripts/runCypressTests.ts:53-57 | the run fails iff the output is lost or SLACK_WEBHOOK_URL is unset or empty (then with the notifier's message); on success the results are reported first and screenshots are sent only when failedTests > 0 |
| Slack.NewSlackClient | src/clients/slackClient.ts:22-29 | fails iff SLACK_WEBHOOK_URL is unset or empty |
| Slack.EscapeMrkdwn | src/clients/slackClient.ts:34-40 | the identity |
| Slack.TitleCaptureIsRegexMatch | src/clients/slackClient.ts:78 | the capture exists iff some split of `\s*` and `.*` matches the line; it is the one after the longest whitespace run |
| Slack.HeadingWithRealNewlineGetsDefault | src/clients/slackClient.ts:77-79 | "## X" followed by a real line break gets the default title |
| Slack.FirstLineStopsAtEscape | src/clients/slackClient.ts:77 | the first line ends at the first backslash-n pair |
| Slack.HeadingWithEscapedNewlineGivesTitle | src/clients/slackClient.ts:77-79 | "## X" followed by backslash-n gives the trimmed X |
| Slack.SendMessage | src/clients/slackClient.ts:45-64 | posts `{text}`; true iff the reply is a 200 |
| Slack.SendErrorAnalysis | src/clients/slackClient.ts:69-114 | posts the analysis payload; true iff the reply is a 200 |
| Slack.PayloadShapes | src/clients/slackClient.ts:83-97 | one mrkdwn section holding the analysis verbatim; fallback text is the prefix plus the title; the message payload has only `text` |
| Logger.Sanitize | src/utils/logger.ts:12-23 | the three replacements applied in order, each on the previous result |
| Logger.FirstMatch | src/utils/logger.ts:15 | a position found is at or after the start and the pattern matches there |
| Logger.FirstMatchLeftmost | src/utils/logger.ts:15 | the pattern matches nowhere between the start and the position found, and nowhere at all when none is found |
| Logger.NoMatchUnchanged | src/utils/logger.ts:15-21 | a pattern that never matches leaves the text unchanged |
| Logger.UnmatchedTextUnchanged | src/utils/logger.ts:14-22 | text matching none of the patterns comes out unchanged |
| Logger.UrlMatchMasked | src/utils/logger.ts:16-18 | "http(s)://user:pass@" becomes "http(s)://user:***@" |
| Logger.CredentialMatchMasked | src/utils/logger.ts:6-20 | a keyword assignment without '@' is replaced whole by "***" |
| Logger.CredentialWithAtKept | src/utils/logger.ts:16-18 | a match with '@' but no URL is left as it is |
| Logger.PasswordWithAtMatched | src/utils/logger.ts:6 | "password=" followed by value characters, '@' included, is one match up to the end of the value |
| Logger.PasswordWithAtKept | src/utils/logger.ts:16-18 | such a match holding '@' and no 'h' is given back unchanged, so the password stays in clear |
| Logger.TokenMatchMasked | src/utils/logger.ts:8-20 | a bearer or jwt match is masked whole iff it holds '=' before its last character, otherwise kept |
| Logger.UrlEnd | src/utils/logger.ts:7 | a URL match has a user of at least one character after the scheme, a password of at least one, and ends inside the text |
| Logger.UrlEndChars | src/utils/logger.ts:7 | the user ends at a ':' and the match ends just past an '@' |
| Logger.TokenEnd | src/utils/logger.ts:8 | a token match has a non-empty keyword part and a non-empty token, inside the text |
| Logger.TokenEndChars | src/utils/logger.ts:8 | the keyword part is letters and whitespace; the token is token characters and dots |
| Logger.LineParts | src/utils/logger.ts:29-33 | only the message is sanitised; the head and the metadata are kept |
| Logger.StreamLineParts | src/utils/logger.ts:66-70 | the stream trims, sanitises, and the format sanitises again |
| LogPreprocessor.KeepIsSelection | src/utils/logPreprocessor.ts:12 | the k-th kept line is the line at the k-th non-blank position |
| LogPreprocessor.PositionsExact | src/utils/logPreprocessor.ts:12 | the positions increase, and a position is listed iff its line's trim is non-empty |
| LogPreprocessor.PiecesOfTheInput | src/utils/logPreprocessor.ts:12 | the result selects the '\n'-pieces of the input, which join back to the input |
| LogPreprocessor.CleanLines | src/utils/logPreprocessor.ts:12 | no line holds '\n' and none is blank |
| LogPreprocessor.BlankInputGivesNothing | src/utils/logPreprocessor.ts:12 | empty or all-blank input gives [] |
| LogPreprocessor.NonBlankLinesKept | src/utils/logPreprocessor.ts:12 | non-blank lines come back untrimmed |
| LogPreprocessor.TerminatedLinesKept | src/utils/logPreprocessor.ts:12 | a log whose every line ends in '\n' (CRLF included) gives its lines back, '\r' kept |
| LogPreprocessor.CarriageReturnKept | src/utils/logPreprocessor.ts:12 | a one-character line ended by "\r\n" comes back with its '\r' |
| LogPreprocessor.Idempotent | src/utils/logPreprocessor.ts:12 | preprocessing the '\n'-join of a result gives that result back |

## Left out

- `src/utils/logCompressor.ts` is not part of this model. It is a gzip wrapper that the modelled code never calls.
- The model takes characters as UTF-16 code units, one `char` each. A character outside the Basic Multilingual Plane is two code units in JavaScript and one `char` here. This affects `hashContent`, `substring(0, 300)` and lengths.
- Floating-point numbers are not modelled:
  - Counts, durations and statuses are unbounded integers.
  - `parseInt` yields `None` for NaN.
  - The `hashContent` arithmetic is exact because every intermediate value stays below 2^53.
  - `Json` numbers are `real`.
- The prompt wording sent to the model, and the model itself, are out. Its reply and `JSON.parse` are parameters.
- The winston transports and the console and file formats around the printf format are out. So are logger levels other than `info`.
- `String(message)` for non-string messages is out. The sanitiser takes a string.
- `path.join` normalisation is out. Paths are joined with "/".
- `path.resolve` is a parameter.
- `Date.now()` and timestamps are parameters.
- Slack: the Basic-auth header and the message templates of the notifier modules are out.
- Jira: the Basic-auth header the Jira client builds is not modelled; only its username and password are.
- Redis: the server's own TTL expiry is not modelled. Stored entries keep the TTL they were written with.
- The `inquirer` prompt's re-asking is modelled as a finite list of answers (`GeminiAgent.FirstValid`).
- Cache: a key containing '/' names a file in a subdirectory. The model treats the file name as an opaque string.
- Cache: `mkdir` at construction is taken to succeed.
- RateLimiter.Handle: a connected client whose `get` or `setEx` rejects, caught at `src/middleware/rateLimiter.ts:49-53`, is not modelled. The only store error in the model is a disconnected client.
- Cache: the default TTL of 3600 seconds in `set` is not modelled, because every caller passes one.
- Security.ErrorHandler: what Express's `res.status` does with a status that is not a valid HTTP code is not modelled. The model returns the status value unchanged.
- RateLimiter.Merge: a field given explicitly as `undefined` in the spread is treated like an absent field.
- Concurrency is out. Awaited calls run one after another, and Redis events are explicit transition methods.
- Logger: the three patterns are matched by hand-written matchers. `TokenMatchMasked`, `UrlMatchMasked` and `CredentialMatchMasked` describe whole matches, not every interleaving of matches in a message.
