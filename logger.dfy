/** The credential sanitiser of `src/utils/logger.ts`. Three global
    regular-expression replacements run in order over the message; each
    match is passed to one callback, which rewrites a match holding '@' as
    a URL with credentials and masks any other match from its first `=` or
    `:` assignment on. Each pattern is modelled by a function giving the end
    of its match at a position. The comment on each function says why
    backtracking cannot give another match. */
module Logger {
  import opened Wrappers
  import opened JsText

  // ------------------------------------------------------------ character runs

  predicate IsQuote(c: char) { c == '\'' || c == '"' }

  /** `[=:]`. */
  predicate IsSeparator(c: char) { c == '=' || c == ':' }

  /** `[_-]`. */
  predicate IsDash(c: char) { c == '_' || c == '-' }

  /** `[a-zA-Z0-9\-_=]`. */
  predicate IsTokenChar(c: char) {
    ('a' <= c <= 'z') || ('A' <= c <= 'Z') || ('0' <= c <= '9') || c == '-' || c == '_' || c == '='
  }

  /** The classes the patterns repeat: `\s`, `[^'"\s]`, the token class,
      `[^=:]`, `[^:]` and `[^@]`. */
  datatype CharClass = Space | Body | Token | NotSeparator | NotColon | NotAt

  predicate InClass(c: char, k: CharClass) {
    match k
    case Space => IsWhitespace(c)
    case Body => !IsQuote(c) && !IsWhitespace(c)
    case Token => IsTokenChar(c)
    case NotSeparator => !IsSeparator(c)
    case NotColon => c != ':'
    case NotAt => c != '@'
  }

  /** The length of the longest run of `k` characters starting at `x`: what a
      greedy repetition of the class takes. */
  function Run(s: string, x: nat, k: CharClass): (n: nat)
    decreases |s| - x
    ensures n == 0 || x + n <= |s|
  {
    if x >= |s| || !InClass(s[x], k) then 0 else 1 + Run(s, x + 1, k)
  }

  /** The run is made of `k` characters and stops at one that is not. */
  lemma {:induction false} RunChars(s: string, x: nat, k: CharClass)
    decreases |s| - x
    ensures forall i :: x <= i < x + Run(s, x, k) ==> InClass(s[i], k)
    ensures x + Run(s, x, k) < |s| ==> !InClass(s[x + Run(s, x, k)], k)
  {
    if x < |s| && InClass(s[x], k) {
      RunChars(s, x + 1, k);
    }
  }

  /** A run of exactly `n` characters of `k` that ends at a character outside
      `k`, or at the end, is the greedy run. */
  lemma RunIs(s: string, x: nat, n: nat, k: CharClass)
    requires x + n <= |s|
    requires forall i :: x <= i < x + n ==> InClass(s[i], k)
    requires x + n < |s| ==> !InClass(s[x + n], k)
    ensures Run(s, x, k) == n
  {
    RunChars(s, x, k);
  }

  /** Cutting the text at `n` cuts every run at `n` and changes nothing else. */
  lemma {:induction false} RunOnSlice(s: string, p: nat, n: nat, x: nat, k: CharClass)
    requires p <= x <= n <= |s|
    ensures Run(s[p..n], x - p, k) == if Run(s, x, k) < n - x then Run(s, x, k) else n - x
    decreases n - x
  {
    if x < n {
      assert s[p..n][x - p] == s[x];
      RunOnSlice(s, p, n, x + 1, k);
    }
  }

  /** An occurrence that ends inside `s[p..n]` reads the same there. */
  lemma OccursOnSlice(s: string, sub: string, p: nat, n: nat, i: nat)
    requires p <= i && i + |sub| <= n <= |s|
    ensures OccursAt(s[p..n], sub, i - p) <==> OccursAt(s, sub, i)
  {
    var a := s[p..n][i - p..i - p + |sub|];
    var b := s[i..i + |sub|];
    assert |a| == |b|;
    forall j | 0 <= j < |a| ensures a[j] == b[j] {
      assert a[j] == s[p..n][i - p + j] == s[i + j];
    }
    assert a == b;
  }

  /** `s` holds `word` at `p`, ignoring ASCII case (`word` is lower-case). */
  predicate MatchesIgnoringCase(s: string, p: nat, word: string) {
    p + |word| <= |s| && forall i :: 0 <= i < |word| ==> LowerChar(s[p + i]) == word[i]
  }

  predicate IsLetter(c: char) { ('a' <= c <= 'z') || ('A' <= c <= 'Z') }

  /** The characters of a keyword: letters, and the dash of "api_key". */
  predicate IsWordChar(c: char) { IsLetter(c) || IsDash(c) }

  /** What matches a lower-case word ignoring case is letters. */
  lemma MatchedWordIsLetters(s: string, p: nat, word: string)
    requires MatchesIgnoringCase(s, p, word)
    requires forall i :: 0 <= i < |word| ==> 'a' <= word[i] <= 'z'
    ensures forall i :: p <= i < p + |word| ==> IsLetter(s[i])
  {
    forall i | p <= i < p + |word| ensures IsLetter(s[i]) {
      assert LowerChar(s[p + (i - p)]) == word[i - p];
    }
  }

  // ------------------------------------------------------------ the assignment tail

  /** `\s*['"]?[^'"\s]+['"]?` from `x`, shared by the first pattern and by
      the callback's masking pattern. `\s*` must take the whole whitespace
      run, because a shorter take leaves a whitespace character that neither
      a quote nor `[^'"\s]` matches. A quote after the run is taken when
      there is one, because leaving it out leaves a quote for
      `[^'"\s]+`. That run must then be non-empty, and the closing quote is
      optional. */
  function Tail(s: string, x: nat): (r: Option<nat>)
    ensures r.Some? ==> x < r.value <= |s|
  {
    var q := BodyStart(s, x);
    var b := Run(s, q, Body);
    if b == 0 then None
    else
      var z := q + b;
      Some(if z < |s| && IsQuote(s[z]) then z + 1 else z)
  }

  /** Where the value's body starts: after the spaces and the opening
      quote, if there is one. */
  function BodyStart(s: string, x: nat): (q: nat)
    ensures x <= q
  {
    var y := x + Run(s, x, Space);
    if y < |s| && IsQuote(s[y]) then y + 1 else y
  }

  /** The body starts at the same place in a slice that keeps it. */
  lemma BodyStartOnSlice(s: string, p: nat, x: nat, e: nat)
    requires p <= x && BodyStart(s, x) < e <= |s|
    ensures BodyStart(s[p..e], x - p) == BodyStart(s, x) - p
  {
    var y := x + Run(s, x, Space);
    RunOnSlice(s, p, e, x, Space);
    assert s[p..e][y - p] == s[y];
  }

  /** The tail reads the same in the text cut to its own end. */
  lemma TailOnSlice(s: string, p: nat, x: nat, e: nat)
    requires p <= x && Tail(s, x) == Some(e)
    ensures Tail(s[p..e], x - p) == Some(e - p)
  {
    var t := s[p..e];
    var q := BodyStart(s, x);
    var b := Run(s, q, Body);
    var z := q + b;
    assert q < z <= e;
    BodyStartOnSlice(s, p, x, e);
    RunOnSlice(s, p, e, q, Body);
    assert Run(t, q - p, Body) == b;
    if z < e {
      assert e == z + 1 && IsQuote(s[z]);
      assert t[z - p] == s[z];
    }
  }

  // ------------------------------------------------------------ pattern 1: keyword assignments

  /** `(api[_-]?key|token|password|secret|auth)`, ignoring case. The
      alternatives start with different letters (or, for "api" and "auth",
      differ in the second), so at most one can match at `p`. Inside the
      first, the greedy `[_-]?` takes a dash when there is one; leaving it
      out would put the dash where "key" must start. */
  function KeywordEnd(s: string, p: nat): (r: Option<nat>)
    ensures r.Some? ==> p < r.value <= |s|
    ensures r.Some? ==> forall i :: p <= i < r.value ==> IsWordChar(s[i])
  {
    if MatchesIgnoringCase(s, p, "api") then
      MatchedWordIsLetters(s, p, "api");
      var x := p + 3;
      if x < |s| && IsDash(s[x]) && MatchesIgnoringCase(s, x + 1, "key") then
        MatchedWordIsLetters(s, x + 1, "key");
        Some(x + 4)
      else if MatchesIgnoringCase(s, x, "key") then
        MatchedWordIsLetters(s, x, "key");
        Some(x + 3)
      else None
    else if MatchesIgnoringCase(s, p, "token") then MatchedWordIsLetters(s, p, "token"); Some(p + 5)
    else if MatchesIgnoringCase(s, p, "password") then MatchedWordIsLetters(s, p, "password"); Some(p + 8)
    else if MatchesIgnoringCase(s, p, "secret") then MatchedWordIsLetters(s, p, "secret"); Some(p + 6)
    else if MatchesIgnoringCase(s, p, "auth") then MatchedWordIsLetters(s, p, "auth"); Some(p + 4)
    else None
  }

  /** `[_-]?[=:]` at `x`: the index of the separator. */
  function SeparatorAt(s: string, x: nat): (r: Option<nat>)
    ensures r.Some? ==> x <= r.value < |s| && IsSeparator(s[r.value])
    ensures r.Some? ==> forall i :: x <= i < r.value ==> IsDash(s[i])
  {
    if x + 1 < |s| && IsDash(s[x]) && IsSeparator(s[x + 1]) then Some(x + 1)
    else if x < |s| && IsSeparator(s[x]) then Some(x)
    else None
  }

  /** The end of a match of the first pattern at `p`. */
  function CredentialEnd(s: string, p: nat): (r: Option<nat>)
    ensures r.Some? ==> p < r.value <= |s|
  {
    match KeywordEnd(s, p)
    case None => None
    case Some(x) =>
      match SeparatorAt(s, x)
      case None => None
      case Some(k) => Tail(s, k + 1)
  }

  // ------------------------------------------------------------ pattern 2: URL credentials

  /** Where a URL match puts its parts: the colon after the user and the
      end of the match, just past the '@'. */
  datatype UrlMatch = UrlMatch(colon: nat, end: nat)

  /** `(https?:\/\/[^:]+):([^@]+)@`, case-sensitive. The greedy `s?` takes
      an 's' only if "://" follows. `[^:]+` runs to the first ':' after
      "://", and `[^@]+` runs to the first '@' after that colon. Taking
      less would leave a character that is not ':' (or not '@') where one
      is needed. */
  function UrlEnd(s: string, p: nat): (r: Option<UrlMatch>)
    ensures r.Some? ==> p + 7 < r.value.colon && r.value.colon + 2 < r.value.end <= |s|
  {
    if !OccursAt(s, "http", p) then None
    else
      var x := if p + 4 < |s| && s[p + 4] == 's' then p + 5 else p + 4;
      if !OccursAt(s, "://", x) then None
      else
        var u := x + 3;
        var colon := u + Run(s, u, NotColon);
        if colon == u || colon >= |s| then None
        else
          var at := colon + 1 + Run(s, colon + 1, NotAt);
          if at == colon + 1 || at >= |s| then None
          else Some(UrlMatch(colon, at + 1))
  }

  /** The user part ends at a ':' and the match at an '@'. */
  lemma UrlEndChars(s: string, p: nat)
    requires UrlEnd(s, p).Some?
    ensures s[UrlEnd(s, p).value.colon] == ':' && s[UrlEnd(s, p).value.end - 1] == '@'
  {
    var x := if p + 4 < |s| && s[p + 4] == 's' then p + 5 else p + 4;
    RunChars(s, x + 3, NotColon);
    var colon := x + 3 + Run(s, x + 3, NotColon);
    RunChars(s, colon + 1, NotAt);
  }

  /** A URL match reads the same in the text cut to the match. */
  lemma UrlOnSlice(s: string, p: nat)
    requires UrlEnd(s, p).Some?
    ensures var m := UrlEnd(s, p).value;
            UrlEnd(s[p..m.end], 0) == Some(UrlMatch(m.colon - p, m.end - p))
  {
    var m := UrlEnd(s, p).value;
    var t := s[p..m.end];
    OccursOnSlice(s, "http", p, m.end, p);
    assert t[4] == s[p + 4];
    var x := if s[p + 4] == 's' then p + 5 else p + 4;
    OccursOnSlice(s, "://", p, m.end, x);
    RunOnSlice(s, p, m.end, x + 3, NotColon);
    RunOnSlice(s, p, m.end, m.colon + 1, NotAt);
    UrlEndChars(s, p);
    assert t[m.colon - p] == ':';
    assert t[m.end - 1 - p] == '@';
  }

  // ------------------------------------------------------------ pattern 3: bearer tokens

  /** Where a token match puts its parts: the start of the token after the
      whitespace, and the end of the match. */
  datatype TokenMatch = TokenMatch(tokenStart: nat, end: nat)

  /** `(jwt|bearer)\s+T+\.?T+\.?T*` with T the token class, ignoring case.
      `\s+` takes the whole whitespace run, since T matches no whitespace.
      When the first token run is followed by '.' and another run, the
      greedy path succeeds as it stands. Otherwise the engine gives back the
      last character of the first run to the second `T+`. That needs a
      first run of at least two, and the match then takes a following '.'. */
  function TokenEnd(s: string, p: nat): (r: Option<TokenMatch>)
    ensures r.Some? ==> p < r.value.tokenStart < r.value.end <= |s|
  {
    if MatchesIgnoringCase(s, p, "jwt") then TokenAfter(s, p + 3)
    else if MatchesIgnoringCase(s, p, "bearer") then TokenAfter(s, p + 6)
    else None
  }

  /** A token match is the keyword's letters, whitespace, then token
      characters and dots. */
  lemma TokenEndChars(s: string, p: nat)
    requires TokenEnd(s, p).Some?
    ensures forall i :: p <= i < TokenEnd(s, p).value.tokenStart ==> IsLetter(s[i]) || IsWhitespace(s[i])
    ensures forall i :: TokenEnd(s, p).value.tokenStart <= i < TokenEnd(s, p).value.end ==>
                          IsTokenChar(s[i]) || s[i] == '.'
  {
    if MatchesIgnoringCase(s, p, "jwt") {
      MatchedWordIsLetters(s, p, "jwt");
      TokenAfterChars(s, p, p + 3);
    } else {
      MatchedWordIsLetters(s, p, "bearer");
      TokenAfterChars(s, p, p + 6);
    }
  }

  lemma TokenAfterChars(s: string, p: nat, x: nat)
    requires p < x <= |s| && forall i :: p <= i < x ==> IsLetter(s[i])
    requires TokenAfter(s, x).Some?
    ensures forall i :: p <= i < TokenAfter(s, x).value.tokenStart ==> IsLetter(s[i]) || IsWhitespace(s[i])
    ensures forall i :: TokenAfter(s, x).value.tokenStart <= i < TokenAfter(s, x).value.end ==>
                          IsTokenChar(s[i]) || s[i] == '.'
  {
    var tm := TokenAfter(s, x).value;
    RunChars(s, x, Space);
    assert tm.tokenStart == x + Run(s, x, Space);
    TokenRunsChars(s, tm.tokenStart);
  }

  /** What `T+\.?T+\.?T*` takes from `q` is token characters and dots. */
  lemma TokenRunsChars(s: string, q: nat)
    requires q <= |s|
    ensures var l1 := Run(s, q, Token);
            var d1 := q + l1;
            forall i :: q <= i < d1 ==> IsTokenChar(s[i])
    ensures var d1 := q + Run(s, q, Token);
            d1 < |s| ==> forall i :: d1 + 1 <= i < d1 + 1 + Run(s, d1 + 1, Token) ==> IsTokenChar(s[i])
    ensures var d1 := q + Run(s, q, Token);
            var d2 := d1 + 1 + Run(s, d1 + 1, Token);
            d1 < |s| && d2 < |s| ==> forall i :: d2 + 1 <= i < d2 + 1 + Run(s, d2 + 1, Token) ==> IsTokenChar(s[i])
  {
    RunChars(s, q, Token);
    var d1 := q + Run(s, q, Token);
    if d1 < |s| {
      RunChars(s, d1 + 1, Token);
      var d2 := d1 + 1 + Run(s, d1 + 1, Token);
      if d2 < |s| {
        RunChars(s, d2 + 1, Token);
      }
    }
  }

  /** `\s+T+\.?T+\.?T*` after the keyword, which ends at `x`. */
  function TokenAfter(s: string, x: nat): (r: Option<TokenMatch>)
    requires x <= |s|
    ensures r.Some? ==> x < r.value.tokenStart < r.value.end <= |s|
  {
    var w := Run(s, x, Space);
    var q := x + w;
    var l1 := Run(s, q, Token);
    if w == 0 || l1 == 0 then None
    else
      var d1 := q + l1;
      if d1 < |s| && s[d1] == '.' && Run(s, d1 + 1, Token) > 0 then
        var d2 := d1 + 1 + Run(s, d1 + 1, Token);
        Some(TokenMatch(q, if d2 < |s| && s[d2] == '.' then d2 + 1 + Run(s, d2 + 1, Token) else d2))
      else if l1 >= 2 then
        Some(TokenMatch(q, if d1 < |s| && s[d1] == '.' then d1 + 1 else d1))
      else None
  }

  // ------------------------------------------------------------ the three patterns

  datatype Pattern = Credential | UrlCredential | BearerToken

  /** The three patterns, in the order the sanitiser applies them. */
  const SensitivePatterns: seq<Pattern> := [Credential, UrlCredential, BearerToken]

  /** The end of a match of `pat` starting at `p`. */
  function MatchEnd(pat: Pattern, s: string, p: nat): (r: Option<nat>)
    ensures r.Some? ==> p < r.value <= |s|
  {
    match pat
    case Credential => CredentialEnd(s, p)
    case UrlCredential => if UrlEnd(s, p).Some? then Some(UrlEnd(s, p).value.end) else None
    case BearerToken => if TokenEnd(s, p).Some? then Some(TokenEnd(s, p).value.end) else None
  }

  /** The leftmost position at or after `from` where `pat` matches. */
  function FirstMatch(pat: Pattern, s: string, from: nat): (r: Option<nat>)
    decreases |s| + 1 - from
    ensures r.Some? ==> from <= r.value && MatchEnd(pat, s, r.value).Some?
  {
    if from > |s| then None
    else if MatchEnd(pat, s, from).Some? then Some(from)
    else FirstMatch(pat, s, from + 1)
  }

  /** No match starts between `from` and the one `FirstMatch` finds, and
      none at all when it finds nothing. */
  lemma {:induction false} FirstMatchLeftmost(pat: Pattern, s: string, from: nat)
    decreases |s| + 1 - from
    ensures FirstMatch(pat, s, from).Some? ==>
            forall q: nat :: from <= q < FirstMatch(pat, s, from).value ==> MatchEnd(pat, s, q).None?
    ensures FirstMatch(pat, s, from).None? ==> forall q: nat :: from <= q ==> MatchEnd(pat, s, q).None?
  {
    var r := FirstMatch(pat, s, from);
    if from > |s| {
      NoMatchPastEnd(pat, s, from);
    } else if MatchEnd(pat, s, from).None? {
      var next := FirstMatch(pat, s, from + 1);
      FirstMatchLeftmost(pat, s, from + 1);
      assert r == next;
      if next.Some? {
        forall q: nat | from <= q < next.value ensures MatchEnd(pat, s, q).None? {
          if q > from {
            assert from + 1 <= q < next.value;
          }
        }
      } else {
        forall q: nat | from <= q ensures MatchEnd(pat, s, q).None? {
          if q > from {
            assert from + 1 <= q;
          }
        }
      }
    }
  }

  /** No match starts past the end of the text. */
  lemma NoMatchPastEnd(pat: Pattern, s: string, from: nat)
    requires from > |s|
    ensures forall q: nat :: from <= q ==> MatchEnd(pat, s, q).None?
  {
    forall q: nat | from <= q ensures MatchEnd(pat, s, q).None? {
      assert MatchEnd(pat, s, q).Some? ==> q < |s|;
    }
  }

  // ------------------------------------------------------------ the callback

  /** The leftmost match of `[^=:]*[=:]\s*['"]?[^'"\s]+['"]?` at or after
      `p`, as its start and end. From any start, `[^=:]*` runs to the next
      separator, which must carry the tail. If it does not, every start up
      to that separator fails the same way, and the search resumes after it. */
  function FirstAssignment(m: string, p: nat): (r: Option<(nat, nat)>)
    decreases |m| - p
    ensures r.Some? ==> p <= r.value.0 < r.value.1 <= |m|
  {
    if p >= |m| then None
    else
      var k := p + Run(m, p, NotSeparator);
      if k >= |m| then None
      else
        match Tail(m, k + 1)
        case Some(e) => Some((p, e))
        case None => FirstAssignment(m, k + 1)
  }

  const Mask: string := "***"
  const MaskedPassword: string := ":***@"

  /** The replacement callback: a match holding '@' has its first URL
      credentials rewritten to `$1:***@`; any other match has its first
      assignment replaced by "***". Either rewrite leaves the match as it is
      when it finds nothing. */
  function Masked(m: string): string {
    if '@' in m then
      match FirstMatch(UrlCredential, m, 0)
      case None => m
      case Some(p) => var u := UrlEnd(m, p).value; m[..u.colon] + MaskedPassword + m[u.end..]
    else
      match FirstAssignment(m, 0)
      case None => m
      case Some((a, e)) => m[..a] + Mask + m[e..]
  }

  // ------------------------------------------------------------ replace and reduce

  /** `s.replace(pattern, callback)` for a global pattern, from `from` on:
      each leftmost match is replaced by the callback's result, and the
      search resumes where the match ended. */
  function ReplaceAll(pat: Pattern, s: string, from: nat): string
    requires from <= |s|
    decreases |s| - from
  {
    match FirstMatch(pat, s, from)
    case None => s[from..]
    case Some(p) =>
      var e := MatchEnd(pat, s, p).value;
      s[from..p] + Masked(s[p..e]) + ReplaceAll(pat, s, e)
  }

  /** The reduce over the pattern list: each replacement acts on the result
      of the one before. */
  function ApplyPatterns(patterns: seq<Pattern>, message: string): string
    decreases |patterns|
  {
    if patterns == [] then message
    else ApplyPatterns(patterns[1..], ReplaceAll(patterns[0], message, 0))
  }

  /** `sanitizeLogMessage` for a string message. */
  function Sanitize(message: string): (r: string)
    ensures r == ReplaceAll(BearerToken, ReplaceAll(UrlCredential, ReplaceAll(Credential, message, 0), 0), 0)
  {
    ApplyPatterns(SensitivePatterns, message)
  }

  // ------------------------------------------------------------ properties

  /** Text in which a pattern never matches comes out of its replacement
      unchanged. */
  lemma {:induction false} NoMatchUnchanged(pat: Pattern, s: string)
    requires forall q: nat :: MatchEnd(pat, s, q).None?
    ensures ReplaceAll(pat, s, 0) == s
  {
    assert FirstMatch(pat, s, 0).None?;
  }

  /** Text that none of the three patterns matches is returned unchanged. */
  lemma UnmatchedTextUnchanged(s: string)
    requires forall q: nat :: CredentialEnd(s, q).None? && UrlEnd(s, q).None? && TokenEnd(s, q).None?
    ensures Sanitize(s) == s
  {
    assert forall q: nat :: MatchEnd(Credential, s, q).None?;
    NoMatchUnchanged(Credential, s);
    assert forall q: nat :: MatchEnd(UrlCredential, s, q).None?;
    NoMatchUnchanged(UrlCredential, s);
    assert forall q: nat :: MatchEnd(BearerToken, s, q).None?;
    NoMatchUnchanged(BearerToken, s);
  }

  /** A URL match "http(s)://user:pass@" becomes "http(s)://user:***@": the
      scheme and the user are kept and the password is masked. */
  lemma UrlMatchMasked(s: string, p: nat)
    requires UrlEnd(s, p).Some?
    ensures var m := UrlEnd(s, p).value;
            Masked(s[p..m.end]) == s[p..m.colon] + MaskedPassword
  {
    var m := UrlEnd(s, p).value;
    var t := s[p..m.end];
    UrlOnSlice(s, p);
    UrlEndChars(s, p);
    assert t[|t| - 1] == '@';
    assert '@' in t;
    assert MatchEnd(UrlCredential, t, 0).Some?;
    assert FirstMatch(UrlCredential, t, 0) == Some(0);
    var u := UrlEnd(t, 0).value;
    assert u == UrlMatch(m.colon - p, m.end - p);
    assert Masked(t) == t[..u.colon] + MaskedPassword + t[u.end..];
    assert t[..m.colon - p] == s[p..m.colon];
    assert t[m.end - p..] == [];
  }

  /** A keyword assignment whose match holds no '@' is replaced whole by
      "***". */
  lemma CredentialMatchMasked(s: string, p: nat)
    requires CredentialEnd(s, p).Some? && '@' !in s[p..CredentialEnd(s, p).value]
    ensures Masked(s[p..CredentialEnd(s, p).value]) == Mask
  {
    CredentialParts(s, p);
    var x := KeywordEnd(s, p).value;
    var sep := SeparatorAt(s, x).value;
    var e := CredentialEnd(s, p).value;
    forall i | p <= i < sep ensures !IsSeparator(s[i]) {
      if i < x {
        assert IsWordChar(s[i]);
      } else {
        assert IsDash(s[i]);
      }
    }
    AssignmentOnSlice(s, p, sep, e);
    WholeAssignmentMasked(s[p..e], sep - p);
  }

  /** Cut to its own length, an assignment is a run of non-separators, a
      separator, and a tail to the end. */
  lemma AssignmentOnSlice(s: string, p: nat, sep: nat, e: nat)
    requires p <= sep < |s| && IsSeparator(s[sep])
    requires forall i :: p <= i < sep ==> !IsSeparator(s[i])
    requires Tail(s, sep + 1) == Some(e)
    ensures var m := s[p..e];
            sep - p < |m| && Run(m, 0, NotSeparator) == sep - p && Tail(m, sep - p + 1) == Some(|m|)
  {
    var m := s[p..e];
    var k := sep - p;
    forall i | 0 <= i < k ensures InClass(m[i], NotSeparator) {
      assert m[i] == s[p + i];
    }
    assert m[k] == s[sep];
    RunIs(m, 0, k, NotSeparator);
    TailOnSlice(s, p, sep + 1, e);
  }

  /** A keyword match ends where the tail after its separator ends. */
  lemma CredentialParts(s: string, p: nat)
    requires CredentialEnd(s, p).Some?
    ensures KeywordEnd(s, p).Some? && SeparatorAt(s, KeywordEnd(s, p).value).Some?
    ensures CredentialEnd(s, p) == Tail(s, SeparatorAt(s, KeywordEnd(s, p).value).value + 1)
  {
  }

  /** A keyword assignment whose match holds '@' but no "http" is left as
      it is: the URL rewrite finds nothing. */
  lemma CredentialWithAtKept(m: string)
    requires '@' in m && forall q: nat :: !OccursAt(m, "http", q)
    ensures Masked(m) == m
  {
    assert forall q: nat :: MatchEnd(UrlCredential, m, q).None?;
  }

  /** A password assignment such as "password=a@b" is one match of the
      first pattern, up to the end of its value. */
  lemma PasswordWithAtMatched(v: string)
    requires v != "" && forall i :: 0 <= i < |v| ==> InClass(v[i], Body)
    ensures CredentialEnd("password=" + v, 0) == Some(9 + |v|)
  {
    var s := "password=" + v;
    assert s[..9] == "password=";
    assert !MatchesIgnoringCase(s, 0, "api") by { assert LowerChar(s[0 + 0]) != "api"[0]; }
    assert !MatchesIgnoringCase(s, 0, "token") by { assert LowerChar(s[0 + 0]) != "token"[0]; }
    assert MatchesIgnoringCase(s, 0, "password") by {
      forall i | 0 <= i < 8 ensures LowerChar(s[0 + i]) == "password"[i] {
        assert s[i] == s[..9][i];
      }
    }
    assert KeywordEnd(s, 0) == Some(8);
    assert SeparatorAt(s, 8) == Some(8);
    forall i | 9 <= i < |s| ensures InClass(s[i], Body) {
      assert s[i] == v[i - 9];
    }
    assert !InClass(s[9], Space);
    RunIs(s, 9, 0, Space);
    RunIs(s, 9, |v|, Body);
  }

  /** A password assignment whose value holds '@' but no "http" is given
      back unchanged by the callback: the URL rewrite finds nothing, so the
      password stays in clear. */
  lemma PasswordWithAtKept(v: string)
    requires '@' in v && 'h' !in v
    ensures Masked("password=" + v) == "password=" + v
  {
    var s := "password=" + v;
    assert s[..9] == "password=";
    assert '@' in s by {
      var j :| 0 <= j < |v| && v[j] == '@';
      assert s[9 + j] == '@';
    }
    forall q: nat ensures !OccursAt(s, "http", q) {
      if q + 4 <= |s| {
        assert s[q..q + 4][0] == s[q];
        if q >= 9 {
          assert s[q] == v[q - 9];
        } else {
          assert s[q] == s[..9][q];
        }
      }
    }
    CredentialWithAtKept(s);
  }

  /** A bearer or jwt token is masked, whole, exactly when it holds an '='
      before its last character. Otherwise it is left as it is. */
  lemma TokenMatchMasked(s: string, p: nat)
    requires TokenEnd(s, p).Some?
    ensures var m := s[p..TokenEnd(s, p).value.end];
            Masked(m) == if exists i :: 0 <= i < |m| - 1 && m[i] == '=' then Mask else m
  {
    var tm := TokenEnd(s, p).value;
    var m := s[p..tm.end];
    var start := tm.tokenStart - p;
    TokenEndChars(s, p);
    forall i | 0 <= i < start ensures IsLetter(m[i]) || IsWhitespace(m[i]) {
      assert m[i] == s[p + i];
    }
    forall i | start <= i < |m| ensures IsTokenChar(m[i]) || m[i] == '.' {
      assert m[i] == s[p + i];
    }
    TokenShapeMasked(m, start);
  }

  /** The callback on text shaped like a token match: letters and
      whitespace, then token characters and dots. */
  lemma TokenShapeMasked(m: string, start: nat)
    requires 0 < start < |m|
    requires forall i :: 0 <= i < start ==> IsLetter(m[i]) || IsWhitespace(m[i])
    requires forall i :: start <= i < |m| ==> IsTokenChar(m[i]) || m[i] == '.'
    ensures Masked(m) == if exists i :: 0 <= i < |m| - 1 && m[i] == '=' then Mask else m
  {
    assert '@' !in m by {
      forall i | 0 <= i < |m| ensures m[i] != '@' {
        if i >= start {
          assert IsTokenChar(m[i]) || m[i] == '.';
        }
      }
    }
    var k := Run(m, 0, NotSeparator);
    RunChars(m, 0, NotSeparator);
    if k < |m| {
      assert k >= start;
      if k + 1 == |m| {
        SeparatorLastKept(m, k);
      } else {
        TailToEnd(m, k + 1);
        WholeAssignmentMasked(m, k);
      }
    } else {
      assert FirstAssignment(m, 0).None?;
      forall i | 0 <= i < |m| ensures m[i] != '=' {
        assert InClass(m[i], NotSeparator);
      }
    }
  }

  /** A lone separator as the last character carries no tail. */
  lemma SeparatorLastKept(m: string, k: nat)
    requires k + 1 == |m| && '@' !in m
    requires Run(m, 0, NotSeparator) == k
    requires forall i :: 0 <= i < k ==> InClass(m[i], NotSeparator)
    ensures Masked(m) == m
    ensures forall i :: 0 <= i < |m| - 1 ==> m[i] != '='
  {
    assert FirstAssignment(m, 0) == FirstAssignment(m, k + 1);
    forall i | 0 <= i < |m| - 1 ensures m[i] != '=' {
      assert InClass(m[i], NotSeparator);
    }
  }

  /** Token characters and dots up to the end of the text form a tail that
      ends there. */
  lemma TailToEnd(m: string, x: nat)
    requires x < |m|
    requires forall i :: x <= i < |m| ==> IsTokenChar(m[i]) || m[i] == '.'
    ensures Tail(m, x) == Some(|m|)
  {
    forall i | x <= i < |m| ensures InClass(m[i], Body) {
      assert IsTokenChar(m[i]) || m[i] == '.';
    }
    assert !InClass(m[x], Space);
    RunIs(m, x, 0, Space);
    RunIs(m, x, |m| - x, Body);
  }

  /** An assignment from the start to the end of a text without '@' is
      replaced by the mask alone. */
  lemma WholeAssignmentMasked(m: string, k: nat)
    requires k < |m| && '@' !in m
    requires Run(m, 0, NotSeparator) == k && Tail(m, k + 1) == Some(|m|)
    ensures Masked(m) == Mask
  {
    assert FirstAssignment(m, 0) == Some((0, |m|));
    assert m[..0] + Mask + m[|m|..] == Mask;
  }

  // ------------------------------------------------------------ log lines

  /** The service name every line carries in its metadata. */
  const ServiceMeta: string := "{\"service\":\"qa-ai-agent\"}"

  /** The printf format: timestamp, level, the sanitised message, then the
      serialised metadata (empty when there is none). */
  function FormatLine(timestamp: string, level: string, message: string, meta: string): string {
    timestamp + " [" + level + "]: " + Sanitize(message) + " " + meta
  }

  /** Only the message is sanitised: the head and the metadata come out
      as they went in. */
  lemma LineParts(timestamp: string, level: string, message: string, meta: string)
    ensures var line := FormatLine(timestamp, level, message, meta);
            var head := timestamp + " [" + level + "]: ";
            StartsWith(line, head) && EndsWith(line, " " + meta) &&
            line[|head|..|line| - |meta| - 1] == Sanitize(message)
  {
    var line := FormatLine(timestamp, level, message, meta);
    var head := timestamp + " [" + level + "]: ";
    var body := Sanitize(message);
    assert line == head + body + (" " + meta);
    assert line[..|head|] == head;
    assert line[|line| - |meta| - 1..] == " " + meta;
    assert line[|head|..|line| - |meta| - 1] == body;
  }

  /** `stream.write`: the message is trimmed and sanitised, and the format
      sanitises it again. */
  function StreamLine(timestamp: string, message: string): string {
    FormatLine(timestamp, "info", Sanitize(Trim(message)), ServiceMeta)
  }

  /** A line written through the stream carries the trimmed message,
      sanitised twice, between the info head and the service metadata. */
  lemma StreamLineParts(timestamp: string, message: string)
    ensures var line := StreamLine(timestamp, message);
            var head := timestamp + " [info]: ";
            StartsWith(line, head) && EndsWith(line, " " + ServiceMeta) &&
            line[|head|..|line| - |ServiceMeta| - 1] == Sanitize(Sanitize(Trim(message)))
  {
    var once := Sanitize(Trim(message));
    LineParts(timestamp, "info", once, ServiceMeta);
    assert timestamp + " [" + "info" + "]: " == timestamp + " [info]: ";
    assert StreamLine(timestamp, message) == FormatLine(timestamp, "info", once, ServiceMeta);
  }
}
