/** The Cypress runner script of `src/scripts/runCypressTests.ts`: the
    output of the run is read (also when the run exits with an error but
    still printed something), three numbers are taken from its summary
    section, and when some test failed the `.png` files one level below
    the screenshots directory are sent. The child process, the file system
    listing and the notifier are parameters. */
module CypressRunner {
  import opened Wrappers
  import opened JsText
  import opened JsNumber

  const ResultsMarker: string := "(Results)"
  const FinishedMarker: string := "(Run Finished)"
  const PassingLabel: string := "Passing:"
  const FailingLabel: string := "Failing:"
  const DurationLabel: string := "Duration:"
  const DurationUnit: string := "seconds"

  datatype TestResults = TestResults(passedTests: nat, failedTests: nat, duration: nat)

  const NoResults: TestResults := TestResults(0, 0, 0)

  // ------------------------------------------------------------ the summary section

  /** The last occurrence of `sub` that starts before `bound`. */
  function LastBefore(s: string, sub: string, bound: nat): (r: Option<nat>)
    decreases bound
    ensures r.Some? ==> r.value < bound && OccursAt(s, sub, r.value)
    ensures r.Some? ==> forall j: nat :: r.value < j < bound ==> !OccursAt(s, sub, j)
    ensures r.None? ==> forall j: nat :: j < bound ==> !OccursAt(s, sub, j)
  {
    if bound == 0 then None
    else if OccursAt(s, sub, bound - 1) then Some(bound - 1)
    else LastBefore(s, sub, bound - 1)
  }

  /** `s.lastIndexOf(sub)`. */
  function LastIndexOf(s: string, sub: string): (r: Option<nat>)
    ensures r.Some? ==> OccursAt(s, sub, r.value) && forall j: nat :: r.value < j ==> !OccursAt(s, sub, j)
    ensures r.None? ==> forall j: nat :: !OccursAt(s, sub, j)
  {
    LastBefore(s, sub, |s| + 1)
  }

  /** The capture of `/\(Results\)([\s\S]*)\(Run Finished\)/`: the leftmost
      match starts at the first "(Results)", and the greedy `[\s\S]*` runs to
      the last "(Run Finished)", which must not start before that marker ends. */
  function Section(stdout: string): (r: Option<string>)
    ensures r.Some? <==> exists i: nat, j: nat :: OccursAt(stdout, ResultsMarker, i) && OccursAt(stdout, FinishedMarker, j) &&
                                                i + |ResultsMarker| <= j
    ensures r.Some? ==> exists i: nat, j: nat ::
                          OccursAt(stdout, ResultsMarker, i) && (forall k: nat :: k < i ==> !OccursAt(stdout, ResultsMarker, k)) &&
                          OccursAt(stdout, FinishedMarker, j) && (forall k: nat :: j < k ==> !OccursAt(stdout, FinishedMarker, k)) &&
                          i + |ResultsMarker| <= j && r.value == stdout[i + |ResultsMarker|..j]
  {
    match IndexOf(stdout, ResultsMarker, 0)
    case None => None
    case Some(i) =>
      match LastIndexOf(stdout, FinishedMarker)
      case None => None
      case Some(j) => if i + |ResultsMarker| <= j then Some(stdout[i + |ResultsMarker|..j]) else None
  }

  // ------------------------------------------------------------ one labelled number

  /** What may follow the digits: nothing, or a word that starts with
      neither a digit nor whitespace. */
  predicate UnitOk(unit: string) {
    unit == "" || (!IsWhitespace(unit[0]) && DigitValue(unit[0], 10).None?)
  }

  predicate AllDigits(s: string) {
    forall i :: 0 <= i < |s| ==> DigitValue(s[i], 10).Some?
  }

  /** One way for `tag\s+(\d+)\s*unit` to match at `p`: `\s+` ends at `b`,
      `(\d+)` is `s[b..c]`, `\s*` ends at `e`, where `unit` starts. */
  predicate ValidField(s: string, p: nat, tag: string, unit: string, b: nat, c: nat, e: nat) {
    OccursAt(s, tag, p) && p + |tag| < b < c <= e && OccursAt(s, unit, e) &&
    IsBlank(s[p + |tag|..b]) && AllDigits(s[b..c]) && IsBlank(s[c..e])
  }

  /** The positions the greedy match reaches at `p`: the end of the
      whitespace run, the end of the digit run, the end of the next
      whitespace run. */
  datatype Scan = Scan(digitsStart: nat, digitsEnd: nat, unitAt: nat)

  function ScanField(s: string, p: nat, tag: string): (sc: Scan)
    requires OccursAt(s, tag, p)
    ensures p + |tag| <= sc.digitsStart <= sc.digitsEnd <= sc.unitAt <= |s|
  {
    var a := p + |tag|;
    var b := a + LeadingWhitespace(s[a..]);
    var c := b + DigitRun(s[b..], 10);
    Scan(b, c, c + LeadingWhitespace(s[c..]))
  }

  /** The number captured by `tag\s+(\d+)\s*unit` when the match starts
      at `p`, read with `parseInt(_, 10)`. */
  function FieldAt(s: string, p: nat, tag: string, unit: string): Option<nat> {
    if !OccursAt(s, tag, p) then None
    else
      var sc := ScanField(s, p, tag);
      if sc.digitsStart == p + |tag| || sc.digitsEnd == sc.digitsStart || !OccursAt(s, unit, sc.unitAt) then None
      else
        assert AllDigits(s[sc.digitsStart..sc.digitsEnd]);
        Some(DigitsValue(s[sc.digitsStart..sc.digitsEnd], 10))
  }

  /** `FieldAt` is the regular-expression match: it succeeds exactly when
      some split of the text matches, and its capture is the greedy one,
      the longest digit run after the whole whitespace run. */
  lemma FieldAtIsRegexMatch(s: string, p: nat, tag: string, unit: string)
    requires UnitOk(unit)
    ensures FieldAt(s, p, tag, unit).Some? <==> exists b: nat, c: nat, e: nat :: ValidField(s, p, tag, unit, b, c, e)
    ensures FieldAt(s, p, tag, unit).Some? ==>
            var sc := ScanField(s, p, tag);
            ValidField(s, p, tag, unit, sc.digitsStart, sc.digitsEnd, sc.unitAt) &&
            (forall b: nat, c: nat, e: nat :: ValidField(s, p, tag, unit, b, c, e) ==> b == sc.digitsStart && c <= sc.digitsEnd)
  {
    if FieldAt(s, p, tag, unit).Some? {
      ScanIsValid(s, p, tag, unit);
    }
    forall b: nat, c: nat, e: nat | ValidField(s, p, tag, unit, b, c, e)
      ensures FieldAt(s, p, tag, unit).Some? && b == ScanField(s, p, tag).digitsStart && c <= ScanField(s, p, tag).digitsEnd
    {
      FieldAtComplete(s, p, tag, unit, b, c, e);
    }
  }

  lemma ScanIsValid(s: string, p: nat, tag: string, unit: string)
    requires FieldAt(s, p, tag, unit).Some?
    ensures var sc := ScanField(s, p, tag);
            ValidField(s, p, tag, unit, sc.digitsStart, sc.digitsEnd, sc.unitAt)
  {
    var sc := ScanField(s, p, tag);
    var a := p + |tag|;
    assert s[a..sc.digitsStart] == s[a..][..sc.digitsStart - a];
    assert s[sc.digitsStart..sc.digitsEnd] == s[sc.digitsStart..][..sc.digitsEnd - sc.digitsStart];
    assert s[sc.digitsEnd..sc.unitAt] == s[sc.digitsEnd..][..sc.unitAt - sc.digitsEnd];
  }

  lemma FieldAtComplete(s: string, p: nat, tag: string, unit: string, b: nat, c: nat, e: nat)
    requires UnitOk(unit) && ValidField(s, p, tag, unit, b, c, e)
    ensures FieldAt(s, p, tag, unit).Some?
    ensures b == ScanField(s, p, tag).digitsStart && c <= ScanField(s, p, tag).digitsEnd
  {
    GreedySplit(s, p, tag, unit, b, c, e);
    var sc := ScanField(s, p, tag);
    assert sc.digitsStart == b && c <= sc.digitsEnd;
    if unit == "" {
      assert OccursAt(s, unit, sc.unitAt);
    } else {
      assert sc.unitAt == e;
    }
  }

  lemma GreedySplit(s: string, p: nat, tag: string, unit: string, b: nat, c: nat, e: nat)
    requires UnitOk(unit) && ValidField(s, p, tag, unit, b, c, e)
    ensures b == p + |tag| + LeadingWhitespace(s[p + |tag|..])
    ensures c <= b + DigitRun(s[b..], 10)
    ensures unit != "" ==> c == b + DigitRun(s[b..], 10) && e == c + LeadingWhitespace(s[c..])
  {
    var a := p + |tag|;
    var t := s[a..];
    assert t[..b - a] == s[a..b];
    assert t[b - a] == s[b..c][0];
    WhitespaceRunEnd(t, b - a);
    var u := s[b..];
    assert u[..c - b] == s[b..c];
    DigitRunAtLeast(u, c - b);
    if unit != "" {
      UnitAfterDigits(s, b, c, e, unit);
    }
  }

  lemma UnitAfterDigits(s: string, b: nat, c: nat, e: nat, unit: string)
    requires unit != "" && UnitOk(unit) && b < c <= e && OccursAt(s, unit, e)
    requires AllDigits(s[b..c]) && IsBlank(s[c..e])
    ensures DigitRun(s[b..], 10) == c - b
    ensures LeadingWhitespace(s[c..]) == e - c
  {
    var v := s[c..];
    assert v[..e - c] == s[c..e];
    assert s[e..e + |unit|][0] == unit[0];
    assert v[e - c] == unit[0];
    WhitespaceRunEnd(v, e - c);
    var u := s[b..];
    assert u[..c - b] == s[b..c];
    assert u[c - b] == v[0];
    DigitRunEnd(u, c - b);
  }

  /** A blank prefix followed by a non-whitespace character is the whole
      leading whitespace run. */
  lemma WhitespaceRunEnd(t: string, k: nat)
    requires k < |t| && IsBlank(t[..k]) && !IsWhitespace(t[k])
    ensures LeadingWhitespace(t) == k
  {
    forall i | 0 <= i < k ensures IsWhitespace(t[i]) {
      assert t[..k][i] == t[i];
    }
  }

  lemma DigitRunAtLeast(t: string, k: nat)
    requires k <= |t| && AllDigits(t[..k])
    ensures k <= DigitRun(t, 10)
  {
    forall i | 0 <= i < k ensures DigitValue(t[i], 10).Some? {
      assert t[..k][i] == t[i];
    }
  }

  lemma DigitRunEnd(t: string, k: nat)
    requires k < |t| && AllDigits(t[..k]) && DigitValue(t[k], 10).None?
    ensures DigitRun(t, 10) == k
  {
    DigitRunAtLeast(t, k);
  }

  /** The leftmost position at or after `from` where the pattern matches. */
  function FirstField(s: string, tag: string, unit: string, from: nat): (r: Option<nat>)
    decreases |s| + 1 - from
    ensures r.Some? ==> from <= r.value && FieldAt(s, r.value, tag, unit).Some?
    ensures r.Some? ==> forall q: nat :: from <= q < r.value ==> FieldAt(s, q, tag, unit).None?
    ensures r.None? ==> forall q: nat :: from <= q ==> FieldAt(s, q, tag, unit).None?
  {
    if from > |s| then None
    else if FieldAt(s, from, tag, unit).Some? then Some(from)
    else FirstField(s, tag, unit, from + 1)
  }

  /** `m ? parseInt(m[1], 10) : 0` for the first match in `summary`. */
  function Extract(summary: string, tag: string, unit: string): nat {
    match FirstField(summary, tag, unit, 0)
    case None => 0
    case Some(p) => FieldAt(summary, p, tag, unit).value
  }

  /** The results read from the run's output: zeros unless the summary
      section is there and non-empty; the duration is in milliseconds. */
  function ParseResults(stdout: string): TestResults {
    match Section(stdout)
    case None => NoResults
    case Some(summary) =>
      if summary == "" then NoResults
      else TestResults(Extract(summary, PassingLabel, ""), Extract(summary, FailingLabel, ""),
                       Extract(summary, DurationLabel, DurationUnit) * 1000)
  }

  /** Without a section from "(Results)" to a later "(Run Finished)" every
      number is 0, whatever else the output says. */
  lemma NoSectionGivesZeros(stdout: string)
    requires forall i: nat, j: nat :: OccursAt(stdout, ResultsMarker, i) && OccursAt(stdout, FinishedMarker, j) ==> j < i + |ResultsMarker|
    ensures ParseResults(stdout) == NoResults
  {
  }

  /** A label written as Cypress writes it, "label n unit", reads back as
      `n`, wherever it stands. */
  lemma FieldReadsBack(pre: string, tag: string, n: nat, unit: string, rest: string)
    requires UnitOk(unit)
    ensures FieldAt(pre + tag + " " + DecimalString(n) + " " + unit + rest, |pre|, tag, unit) == Some(n)
  {
    assert DecimalString(n) == NatDigits(n, 10);
    DigitsRoundTrip(n, 10);
    DigitsRead(pre, tag, NatDigits(n, 10), unit, rest);
  }

  lemma DigitsRead(pre: string, tag: string, ds: string, unit: string, rest: string)
    requires UnitOk(unit) && ds != "" && AllDigits(ds)
    ensures FieldAt(pre + tag + " " + ds + " " + unit + rest, |pre|, tag, unit) == Some(DigitsValue(ds, 10))
  {
    var s := pre + tag + " " + ds + " " + unit + rest;
    var p := |pre|;
    var b := p + |tag| + 1;
    var c := b + |ds|;
    var e := if unit == "" then c else c + 1;
    assert s[p..p + |tag|] == tag;
    assert s[p + |tag|..b] == " ";
    assert s[b..c] == ds;
    assert s[c..e] == if unit == "" then "" else " ";
    assert s[e..e + |unit|] == unit;
    assert ValidField(s, p, tag, unit, b, c, e);
    FieldAtComplete(s, p, tag, unit, b, c, e);
    var u := s[b..];
    assert u[..|ds|] == ds;
    assert u[|ds|] == ' ';
    DigitRunEnd(u, |ds|);
    var sc := ScanField(s, p, tag);
    assert sc.digitsStart == b && sc.digitsEnd == c;
    assert FieldAt(s, p, tag, unit) == Some(DigitsValue(s[b..c], 10));
  }

  /** Where the label's first character does not occur, nothing matches. */
  lemma NoMatchBefore(s: string, tag: string, unit: string, k: nat)
    requires tag != "" && forall q :: 0 <= q < k && q < |s| ==> s[q] != tag[0]
    ensures forall q: nat :: q < k ==> FieldAt(s, q, tag, unit).None?
  {
    forall q: nat | q < k ensures FieldAt(s, q, tag, unit).None? {
      if OccursAt(s, tag, q) {
        assert s[q..q + |tag|][0] == s[q];
      }
    }
  }

  /** The first match is the one at `k` when nothing matches before it. */
  lemma FirstMatchAt(s: string, tag: string, unit: string, k: nat)
    requires FieldAt(s, k, tag, unit).Some? && forall q: nat :: q < k ==> FieldAt(s, q, tag, unit).None?
    ensures FirstField(s, tag, unit, 0) == Some(k)
  {
  }

  /** The summary lines as Cypress prints them, in the order it prints them. */
  function SummaryText(passed: nat, failed: nat, seconds: nat): string {
    PassingLabel + " " + DecimalString(passed) + " " + FailingLabel + " " + DecimalString(failed) + " " +
    DurationLabel + " " + DecimalString(seconds) + " " + DurationUnit
  }

  /** The results read back from a summary are the numbers printed in it,
      the duration turned into milliseconds. */
  lemma SummaryReadsBack(passed: nat, failed: nat, seconds: nat)
    ensures ParseResults(ResultsMarker + SummaryText(passed, failed, seconds) + FinishedMarker) ==
            TestResults(passed, failed, seconds * 1000)
  {
    SectionOf(SummaryText(passed, failed, seconds));
    PassingReadsBack(passed, failed, seconds);
    FailingReadsBack(passed, failed, seconds);
    DurationReadsBack(passed, failed, seconds);
  }

  lemma PassingReadsBack(passed: nat, failed: nat, seconds: nat)
    ensures Extract(SummaryText(passed, failed, seconds), PassingLabel, "") == passed
  {
    var summary := SummaryText(passed, failed, seconds);
    var rest := FailingLabel + " " + DecimalString(failed) + " " + DurationLabel + " " + DecimalString(seconds) + " " + DurationUnit;
    assert summary == "" + PassingLabel + " " + DecimalString(passed) + " " + "" + rest;
    FieldReadsBack("", PassingLabel, passed, "", rest);
    FirstMatchAt(summary, PassingLabel, "", 0);
  }

  lemma FailingReadsBack(passed: nat, failed: nat, seconds: nat)
    ensures Extract(SummaryText(passed, failed, seconds), FailingLabel, "") == failed
  {
    var pre := PassingLabel + " " + DecimalString(passed) + " ";
    var rest := DurationLabel + " " + DecimalString(seconds) + " " + DurationUnit;
    assert SummaryText(passed, failed, seconds) == pre + FailingLabel + " " + DecimalString(failed) + " " + "" + rest;
    DigitsOnly(passed);
    assert FailingLabel[0] !in pre;
    FirstLabelReadsBack(pre, FailingLabel, failed, "", rest);
  }

  lemma DurationReadsBack(passed: nat, failed: nat, seconds: nat)
    ensures Extract(SummaryText(passed, failed, seconds), DurationLabel, DurationUnit) == seconds
  {
    var pre := PassingLabel + " " + DecimalString(passed) + " " + FailingLabel + " " + DecimalString(failed) + " ";
    assert SummaryText(passed, failed, seconds) == pre + DurationLabel + " " + DecimalString(seconds) + " " + DurationUnit + "";
    DigitsOnly(passed);
    DigitsOnly(failed);
    assert DurationLabel[0] !in pre;
    FirstLabelReadsBack(pre, DurationLabel, seconds, DurationUnit, "");
  }

  /** A label whose first character the text before it lacks is read at
      its own place. */
  lemma FirstLabelReadsBack(pre: string, tag: string, n: nat, unit: string, rest: string)
    requires UnitOk(unit) && tag != "" && tag[0] !in pre
    ensures Extract(pre + tag + " " + DecimalString(n) + " " + unit + rest, tag, unit) == n
  {
    var s := pre + tag + " " + DecimalString(n) + " " + unit + rest;
    FieldReadsBack(pre, tag, n, unit, rest);
    forall q | 0 <= q < |pre| ensures s[q] != tag[0] {
      assert s[q] == pre[q];
    }
    NoMatchBefore(s, tag, unit, |pre|);
    FirstMatchAt(s, tag, unit, |pre|);
  }

  /** The section between the two markers is the text put there. */
  lemma SectionOf(summary: string)
    requires summary != ""
    ensures Section(ResultsMarker + summary + FinishedMarker) == Some(summary)
  {
    var out := ResultsMarker + summary + FinishedMarker;
    assert OccursAt(out, ResultsMarker, 0) by {
      assert out[0..|ResultsMarker|] == ResultsMarker;
    }
    var j := |out| - |FinishedMarker|;
    assert OccursAt(out, FinishedMarker, j) by {
      assert out[j..j + |FinishedMarker|] == FinishedMarker;
    }
    assert out[|ResultsMarker|..j] == summary;
  }

  lemma DigitsOnly(n: nat)
    ensures forall c :: c in DecimalString(n) ==> '0' <= c <= '9'
  {
    assert DecimalString(n) == NatDigits(n, 10);
  }

  // ------------------------------------------------------------ running and reading

  /** How `execAsync` settled: resolved with its output, or rejected with
      an error that may carry the output. */
  datatype Exec = Completed(stdout: string) | Rejected(output: Option<string>, error: string)

  /** The text parsed: the output of a completed run, or that of a failed
      run when it is non-empty; any other failure is rethrown. */
  function CapturedOutput(exec: Exec): (r: Result<string>)
    ensures exec.Completed? ==> r == Ok(exec.stdout)
    ensures exec.Rejected? ==> (r.Ok? <==> exec.output.Some? && exec.output.value != "")
    ensures exec.Rejected? && r.Ok? ==> r.value == exec.output.value
    ensures exec.Rejected? && r.Err? ==> r.message == exec.error
  {
    match exec
    case Completed(stdout) => Ok(stdout)
    case Rejected(output, error) => if output.Some? && output.value != "" then Ok(output.value) else Err(error)
  }

  // ------------------------------------------------------------ screenshots

  /** A directory listing as `statSync` sees it. */
  datatype Entry = FileEntry(name: string) | DirEntry(name: string, children: seq<Entry>)

  /** `path.join` of two segments. */
  function JoinPath(dir: string, name: string): string {
    dir + "/" + name
  }

  predicate IsPng(e: Entry) {
    e.FileEntry? && EndsWith(e.name, ".png")
  }

  /** The screenshots sent from one spec folder, in listing order. */
  function FolderShots(dir: string, children: seq<Entry>): seq<string> {
    if |children| == 0 then []
    else
      var last := children[|children| - 1];
      FolderShots(dir, children[..|children| - 1]) + (if IsPng(last) then [JoinPath(dir, last.name)] else [])
  }

  /** The screenshots sent from the whole directory, in listing order. */
  function DirectoryShots(root: string, items: seq<Entry>): seq<string> {
    if |items| == 0 then []
    else
      var last := items[|items| - 1];
      DirectoryShots(root, items[..|items| - 1]) +
        (if last.DirEntry? then FolderShots(JoinPath(root, last.name), last.children) else [])
  }

  function ScreenshotsDir(cwd: string): string {
    JoinPath(JoinPath(cwd, "cypress"), "screenshots")
  }

  /** What is sent: nothing unless some test failed and the directory
      exists (`listing` is `None` when it does not). */
  function Screenshots(results: TestResults, cwd: string, listing: Option<seq<Entry>>): seq<string> {
    if results.failedTests > 0 && listing.Some? then DirectoryShots(ScreenshotsDir(cwd), listing.value) else []
  }

  /** The walk over the directory: each spec folder, then each file in it. */
  method SendScreenshots(results: TestResults, cwd: string, listing: Option<seq<Entry>>) returns (sent: seq<string>)
    ensures sent == Screenshots(results, cwd, listing)
  {
    sent := [];
    if results.failedTests > 0 {
      var dir := ScreenshotsDir(cwd);
      if listing.Some? {
        var items := listing.value;
        for i := 0 to |items|
          invariant sent == DirectoryShots(dir, items[..i])
        {
          var item := items[i];
          assert items[..i + 1][..i] == items[..i];
          if item.DirEntry? {
            var itemPath := JoinPath(dir, item.name);
            var shots := item.children;
            ghost var before := sent;
            for k := 0 to |shots|
              invariant sent == before + FolderShots(itemPath, shots[..k])
            {
              assert shots[..k + 1][..k] == shots[..k];
              if IsPng(shots[k]) {
                sent := sent + [JoinPath(itemPath, shots[k].name)];
              }
            }
            assert shots[..|shots|] == shots;
          }
        }
        assert items[..|items|] == items;
      }
    }
  }

  /** A path is sent exactly when it names a `.png` file directly inside a
      folder directly inside the screenshots directory. */
  lemma {:induction false} DirectoryShotsAreTheNestedPngs(root: string, items: seq<Entry>, path: string)
    ensures path in DirectoryShots(root, items) <==>
            exists i, k :: 0 <= i < |items| && items[i].DirEntry? && 0 <= k < |items[i].children| &&
                           IsPng(items[i].children[k]) && path == JoinPath(JoinPath(root, items[i].name), items[i].children[k].name)
  {
    if |items| > 0 {
      var n := |items| - 1;
      var init := items[..n];
      DirectoryShotsAreTheNestedPngs(root, init, path);
      if items[n].DirEntry? {
        FolderShotsAreThePngs(JoinPath(root, items[n].name), items[n].children, path);
      }
      if path in DirectoryShots(root, items) {
        if path in DirectoryShots(root, init) {
          var i, k :| 0 <= i < |init| && init[i].DirEntry? && 0 <= k < |init[i].children| &&
                      IsPng(init[i].children[k]) && path == JoinPath(JoinPath(root, init[i].name), init[i].children[k].name);
          assert items[i] == init[i];
        }
      } else {
        forall i, k | 0 <= i < |items| && items[i].DirEntry? && 0 <= k < |items[i].children| && IsPng(items[i].children[k])
          ensures path != JoinPath(JoinPath(root, items[i].name), items[i].children[k].name)
        {
          if i < n {
            assert items[i] == init[i];
          }
        }
      }
    }
  }

  lemma {:induction false} FolderShotsAreThePngs(dir: string, children: seq<Entry>, path: string)
    ensures path in FolderShots(dir, children) <==>
            exists k :: 0 <= k < |children| && IsPng(children[k]) && path == JoinPath(dir, children[k].name)
  {
    if |children| > 0 {
      var n := |children| - 1;
      var init := children[..n];
      FolderShotsAreThePngs(dir, init, path);
      if path in FolderShots(dir, init) {
        var k :| 0 <= k < |init| && IsPng(init[k]) && path == JoinPath(dir, init[k].name);
        assert children[k] == init[k];
      }
      if !(path in FolderShots(dir, children)) {
        forall k | 0 <= k < |children| && IsPng(children[k]) ensures path != JoinPath(dir, children[k].name) {
          if k < n {
            assert children[k] == init[k];
          }
        }
      }
    }
  }

  /** A file directly in the screenshots directory is never sent, whatever
      its name. */
  lemma TopLevelFilesIgnored(root: string, items: seq<Entry>, name: string)
    ensures DirectoryShots(root, items + [FileEntry(name)]) == DirectoryShots(root, items)
  {
    assert (items + [FileEntry(name)])[..|items|] == items;
  }

  // ------------------------------------------------------------ the whole run

  /** What the script does after the tests: the results go out first, then
      each screenshot. */
  datatype Notice = ResultsReported(results: TestResults) | ScreenshotSent(path: string)

  datatype Run = Run(results: TestResults, notices: seq<Notice>)

  /** The error `new SlackNotifier()` throws when SLACK_WEBHOOK_URL is unset or empty. */
  const MissingWebhookMessage: string := "SLACK_WEBHOOK_URL environment variable is not set"

  predicate WebhookSet(webhookUrl: Option<string>) {
    webhookUrl.Some? && webhookUrl.value != ""
  }

  /** The whole script: the captured output is parsed, then the notifier is
      built (which throws without a webhook URL), then the results and the
      screenshots are sent. The sends catch their own errors. */
  function RunSpec(exec: Exec, webhookUrl: Option<string>, cwd: string, listing: Option<seq<Entry>>): Result<Run> {
    match CapturedOutput(exec)
    case Err(e) => Err(e)
    case Ok(stdout) =>
      var results := ParseResults(stdout);
      if !WebhookSet(webhookUrl) then Err(MissingWebhookMessage)
      else
        var shots := Screenshots(results, cwd, listing);
        Ok(Run(results, [ResultsReported(results)] + seq(|shots|, i requires 0 <= i < |shots| => ScreenshotSent(shots[i]))))
  }

  /** `runTests`. */
  method RunTests(exec: Exec, webhookUrl: Option<string>, cwd: string, listing: Option<seq<Entry>>) returns (r: Result<Run>)
    ensures r == RunSpec(exec, webhookUrl, cwd, listing)
  {
    var stdout := CapturedOutput(exec);
    if stdout.Err? {
      return Err(stdout.message);
    }
    var results := ParseResults(stdout.value);
    if webhookUrl.None? || webhookUrl.value == "" {
      return Err(MissingWebhookMessage);
    }
    var shots := SendScreenshots(results, cwd, listing);
    r := Ok(Run(results, [ResultsReported(results)] + seq(|shots|, i requires 0 <= i < |shots| => ScreenshotSent(shots[i]))));
  }

  /** A run whose output is lost is rethrown; a run without a webhook URL
      fails before anything is sent; otherwise the results are reported
      first, and screenshots follow only when some test failed. */
  lemma RunShape(exec: Exec, webhookUrl: Option<string>, cwd: string, listing: Option<seq<Entry>>)
    ensures RunSpec(exec, webhookUrl, cwd, listing).Err? <==>
            (exec.Rejected? && (exec.output.None? || exec.output.value == "")) || !WebhookSet(webhookUrl)
    ensures CapturedOutput(exec).Ok? && !WebhookSet(webhookUrl) ==>
            RunSpec(exec, webhookUrl, cwd, listing) == Err(MissingWebhookMessage)
    ensures var r := RunSpec(exec, webhookUrl, cwd, listing);
            r.Ok? ==> r.value.results == ParseResults(CapturedOutput(exec).value) &&
                      |r.value.notices| >= 1 && r.value.notices[0] == ResultsReported(r.value.results) &&
                      (r.value.results.failedTests == 0 ==> |r.value.notices| == 1)
  {
  }
}
