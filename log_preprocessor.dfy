/** `preprocessLog` of `src/utils/logPreprocessor.ts`: the raw log is split
    on '\n' and the pieces whose trim is empty are dropped. The kept pieces
    are not trimmed. */
module LogPreprocessor {
  import opened JsText

  /** `filter(line => line.trim() !== '')`. */
  function KeepNonBlank(lines: seq<string>): (r: seq<string>)
    ensures |r| <= |lines|
  {
    if lines == [] then []
    else (if Trim(lines[0]) != "" then [lines[0]] else []) + KeepNonBlank(lines[1..])
  }

  function PreprocessLog(raw: string): seq<string> {
    KeepNonBlank(Split(raw, '\n'))
  }

  /** The positions at or after `from` that hold a non-blank line, in
      increasing order. */
  function NonBlankPositions(lines: seq<string>, from: nat): (r: seq<nat>)
    decreases |lines| - from
    ensures forall k :: 0 <= k < |r| ==> from <= r[k] < |lines|
  {
    if from >= |lines| then []
    else (if Trim(lines[from]) != "" then [from] else []) + NonBlankPositions(lines, from + 1)
  }

  /** The positions are increasing, and a position is listed exactly when
      its line is not blank. */
  lemma PositionsExact(lines: seq<string>, from: nat)
    ensures forall i :: i in NonBlankPositions(lines, from) <==> from <= i < |lines| && Trim(lines[i]) != ""
    ensures Increasing(NonBlankPositions(lines, from))
  {
    PositionsMembership(lines, from);
    PositionsIncreasing(lines, from);
  }

  lemma {:induction false} PositionsMembership(lines: seq<string>, from: nat)
    decreases |lines| - from
    ensures forall i :: i in NonBlankPositions(lines, from) <==> from <= i < |lines| && Trim(lines[i]) != ""
  {
    if from < |lines| {
      PositionsMembership(lines, from + 1);
      var rest := NonBlankPositions(lines, from + 1);
      var head: seq<nat> := if Trim(lines[from]) != "" then [from] else [];
      assert NonBlankPositions(lines, from) == head + rest;
      forall i ensures i in head + rest <==> from <= i < |lines| && Trim(lines[i]) != "" {
        assert i in head + rest <==> i in head || i in rest;
      }
    }
  }

  predicate Increasing(r: seq<nat>) {
    forall k, l :: 0 <= k < l < |r| ==> r[k] < r[l]
  }

  lemma {:induction false} PositionsIncreasing(lines: seq<string>, from: nat)
    decreases |lines| - from
    ensures Increasing(NonBlankPositions(lines, from))
  {
    if from < |lines| {
      PositionsIncreasing(lines, from + 1);
      var rest := NonBlankPositions(lines, from + 1);
      if Trim(lines[from]) != "" {
        var r := [from] + rest;
        assert NonBlankPositions(lines, from) == r;
        forall k, l | 0 <= k < l < |r| ensures r[k] < r[l] {
          assert r[l] == rest[l - 1] && from + 1 <= rest[l - 1];
          if k == 0 {
            assert r[k] == from;
          } else {
            assert r[k] == rest[k - 1];
            assert rest[k - 1] < rest[l - 1];
          }
        }
      } else {
        assert NonBlankPositions(lines, from) == rest;
      }
    }
  }

  /** The filter keeps exactly the non-blank lines, in their order: its
      k-th element is the line at the k-th non-blank position. */
  lemma {:induction false} KeepIsSelection(lines: seq<string>, from: nat)
    requires from <= |lines|
    decreases |lines| - from
    ensures var r := KeepNonBlank(lines[from..]);
            var idx := NonBlankPositions(lines, from);
            |r| == |idx| && forall k :: 0 <= k < |r| ==> r[k] == lines[idx[k]]
  {
    if from < |lines| {
      KeepIsSelection(lines, from + 1);
      var rest := KeepNonBlank(lines[from + 1..]);
      var restIdx := NonBlankPositions(lines, from + 1);
      assert lines[from..][1..] == lines[from + 1..];
      if Trim(lines[from]) != "" {
        assert KeepNonBlank(lines[from..]) == [lines[from]] + rest;
        assert NonBlankPositions(lines, from) == [from] + restIdx;
      } else {
        assert KeepNonBlank(lines[from..]) == rest;
        assert NonBlankPositions(lines, from) == restIdx;
      }
    }
  }

  /** No line of the result holds '\n', and none is blank. */
  lemma CleanLines(raw: string)
    ensures var r := PreprocessLog(raw);
            forall k :: 0 <= k < |r| ==> '\n' !in r[k] && Trim(r[k]) != ""
  {
    var pieces := Split(raw, '\n');
    KeepIsSelection(pieces, 0);
    PositionsExact(pieces, 0);
    assert pieces[0..] == pieces;
    var idx := NonBlankPositions(pieces, 0);
    forall k | 0 <= k < |idx| ensures Trim(pieces[idx[k]]) != "" {
      assert idx[k] in idx;
    }
  }

  /** Every line already non-blank passes the filter. */
  lemma {:induction false} KeepAllNonBlank(lines: seq<string>)
    requires forall k :: 0 <= k < |lines| ==> Trim(lines[k]) != ""
    ensures KeepNonBlank(lines) == lines
  {
    if lines != [] {
      KeepAllNonBlank(lines[1..]);
    }
  }

  /** Every line blank: the filter keeps nothing. */
  lemma {:induction false} KeepNoneBlank(lines: seq<string>)
    requires forall k :: 0 <= k < |lines| ==> Trim(lines[k]) == ""
    ensures KeepNonBlank(lines) == []
  {
    if lines != [] {
      KeepNoneBlank(lines[1..]);
    }
  }

  /** The result is the selection of the non-blank pieces of the input,
      where the pieces are what joins back to the input with '\n'. */
  lemma PiecesOfTheInput(raw: string)
    ensures var pieces := Split(raw, '\n');
            Join(pieces, "\n") == raw &&
            |PreprocessLog(raw)| == |NonBlankPositions(pieces, 0)| &&
            forall k :: 0 <= k < |PreprocessLog(raw)| ==> PreprocessLog(raw)[k] == pieces[NonBlankPositions(pieces, 0)[k]]
  {
    var pieces := Split(raw, '\n');
    JoinSplit(raw, '\n');
    KeepIsSelection(pieces, 0);
    assert pieces[0..] == pieces;
  }

  /** Every piece of a blank text is blank. */
  lemma {:induction false} BlankPieces(s: string, sep: char)
    requires IsBlank(s)
    ensures forall k :: 0 <= k < |Split(s, sep)| ==> IsBlank(Split(s, sep)[k])
    decreases |s|
  {
    match IndexOfChar(s, sep)
    case None =>
    case Some(i) =>
      assert IsBlank(s[..i]);
      BlankPieces(s[i + 1..], sep);
      assert Split(s, sep) == [s[..i]] + Split(s[i + 1..], sep);
  }

  /** Empty or all-blank input gives no lines. */
  lemma BlankInputGivesNothing(raw: string)
    requires IsBlank(raw)
    ensures PreprocessLog(raw) == []
  {
    var pieces := Split(raw, '\n');
    BlankPieces(raw, '\n');
    assert forall k :: 0 <= k < |pieces| ==> Trim(pieces[k]) == "";
    KeepNoneBlank(pieces);
  }

  /** Lines without '\n' that are not blank come back exactly as they were
      joined: leading and trailing spaces and a '\r' left by CRLF input
      are kept. */
  lemma NonBlankLinesKept(lines: seq<string>)
    requires |lines| >= 1
    requires forall k :: 0 <= k < |lines| ==> '\n' !in lines[k] && Trim(lines[k]) != ""
    ensures PreprocessLog(Join(lines, "\n")) == lines
  {
    SplitJoin(lines, '\n');
    KeepAllNonBlank(lines);
  }

  /** Joining one more, empty, line adds a trailing separator. */
  lemma {:induction false} JoinEmptyLast(lines: seq<string>)
    requires |lines| >= 1
    ensures Join(lines + [""], "\n") == Join(lines, "\n") + "\n"
  {
    if |lines| == 1 {
      assert (lines + [""])[1..] == [""];
    } else {
      assert (lines + [""])[1..] == lines[1..] + [""];
      JoinEmptyLast(lines[1..]);
    }
  }

  /** A blank last line is dropped by the filter. */
  lemma {:induction false} KeepDropsBlankLast(lines: seq<string>)
    ensures KeepNonBlank(lines + [""]) == KeepNonBlank(lines)
  {
    if lines == [] {
      assert KeepNonBlank([""]) == [] + KeepNonBlank([]);
    } else {
      assert (lines + [""])[1..] == lines[1..] + [""];
      KeepDropsBlankLast(lines[1..]);
    }
  }

  /** A log whose every line ends with '\n', as a CRLF log ends each line
      with "\r\n": the final empty piece is dropped and the lines, their
      '\r' included, come back unchanged. */
  lemma TerminatedLinesKept(lines: seq<string>)
    requires |lines| >= 1
    requires forall k :: 0 <= k < |lines| ==> '\n' !in lines[k] && Trim(lines[k]) != ""
    ensures PreprocessLog(Join(lines, "\n") + "\n") == lines
  {
    SplitTerminated(lines);
    KeepDropsBlankLast(lines);
    KeepAllNonBlank(lines);
  }

  lemma SplitTerminated(lines: seq<string>)
    requires |lines| >= 1
    requires forall k :: 0 <= k < |lines| ==> '\n' !in lines[k]
    ensures Split(Join(lines, "\n") + "\n", '\n') == lines + [""]
  {
    var all := lines + [""];
    JoinEmptyLast(lines);
    assert forall k :: 0 <= k < |all| ==> '\n' !in all[k];
    SplitJoin(all, '\n');
  }

  /** One CRLF line keeps its carriage return. */
  lemma CarriageReturnKept(c: char)
    requires c != '\n' && !IsWhitespace(c)
    ensures PreprocessLog([c, '\r', '\n']) == [[c, '\r']]
  {
    var line := [c, '\r'];
    assert !IsBlank(line) by { assert !IsWhitespace(line[0]); }
    assert '\n' !in line;
    TerminatedLinesKept([line]);
    assert Join([line], "\n") == line;
    assert Join([line], "\n") + "\n" == [c, '\r', '\n'];
  }

  /** Preprocessing the '\n'-join of a result gives that result back. */
  lemma Idempotent(raw: string)
    ensures PreprocessLog(Join(PreprocessLog(raw), "\n")) == PreprocessLog(raw)
  {
    var r := PreprocessLog(raw);
    CleanLines(raw);
    if r == [] {
      assert Join(r, "\n") == "";
      BlankInputGivesNothing("");
    } else {
      NonBlankLinesKept(r);
    }
  }
}
