/** The command-line entry point of `src/index.ts`: every argument but the
    last is a log file, the last is the Jira ticket key, and `runAgent`
    runs once per log file, one after the other. Each run sees the
    filesystem as the previous runs left it. */
module Cli {
  import opened Evidence

  datatype CliEvent =
    | Usage
    | Processing(logFile: string)
    | Agent(trace: seq<Effect>)
    | AllProcessed

  datatype Batch = Batch(events: seq<CliEvent>, fs: Fs)

  /** The events and final filesystem of the loop over `files`; run `k`
      uses the oracle `oracleFor(k)`. */
  function RunBatch(files: seq<string>, ticket: string, resolve: string -> string, fs: Fs,
                    oracleFor: nat -> Oracle): Batch
  {
    if files == [] then Batch([], fs)
    else
      var n := |files| - 1;
      var prev := RunBatch(files[..n], ticket, resolve, fs, oracleFor);
      var run := AgentRun(files[n], ticket, resolve, prev.fs, oracleFor(n));
      Batch(prev.events + [Processing(files[n]), Agent(run.trace)], run.fs)
  }

  /** The filesystem that run `k` starts from. */
  function FsBefore(files: seq<string>, k: nat, ticket: string, resolve: string -> string, fs: Fs,
                    oracleFor: nat -> Oracle): Fs
    requires k <= |files|
  {
    RunBatch(files[..k], ticket, resolve, fs, oracleFor).fs
  }

  /** Every file is announced and then processed, once each, in the given
      order, always with the same ticket key; a failing run does not stop
      the ones after it. */
  lemma {:induction false} BatchProcessesEveryFile(files: seq<string>, ticket: string, resolve: string -> string,
                                                   fs: Fs, oracleFor: nat -> Oracle)
    ensures var b := RunBatch(files, ticket, resolve, fs, oracleFor);
            |b.events| == 2 * |files| &&
            forall k :: 0 <= k < |files| ==>
              b.events[2 * k] == Processing(files[k]) &&
              b.events[2 * k + 1] ==
                Agent(AgentRun(files[k], ticket, resolve, FsBefore(files, k, ticket, resolve, fs, oracleFor), oracleFor(k)).trace)
  {
    BatchLength(files, ticket, resolve, fs, oracleFor);
    forall k | 0 <= k < |files|
      ensures RunBatch(files, ticket, resolve, fs, oracleFor).events[2 * k] == Processing(files[k])
      ensures RunBatch(files, ticket, resolve, fs, oracleFor).events[2 * k + 1] ==
              Agent(AgentRun(files[k], ticket, resolve, FsBefore(files, k, ticket, resolve, fs, oracleFor), oracleFor(k)).trace)
    {
      BatchEventsAt(files, k, ticket, resolve, fs, oracleFor);
    }
  }

  /** Each file adds two events. */
  lemma {:induction false} BatchLength(files: seq<string>, ticket: string, resolve: string -> string,
                                       fs: Fs, oracleFor: nat -> Oracle)
    ensures |RunBatch(files, ticket, resolve, fs, oracleFor).events| == 2 * |files|
    decreases |files|
  {
    if files != [] {
      BatchLength(files[..|files| - 1], ticket, resolve, fs, oracleFor);
    }
  }

  /** The two events of file `k`, which later files leave in place. */
  lemma {:induction false} BatchEventsAt(files: seq<string>, k: nat, ticket: string, resolve: string -> string,
                                         fs: Fs, oracleFor: nat -> Oracle)
    requires k < |files|
    ensures var events := RunBatch(files, ticket, resolve, fs, oracleFor).events;
            2 * k + 1 < |events| &&
            events[2 * k] == Processing(files[k]) &&
            events[2 * k + 1] ==
              Agent(AgentRun(files[k], ticket, resolve, FsBefore(files, k, ticket, resolve, fs, oracleFor), oracleFor(k)).trace)
    decreases |files|
  {
    var n := |files| - 1;
    if k < n {
      BatchEventsAt(files[..n], k, ticket, resolve, fs, oracleFor);
      EarlierEventsKept(files, k, ticket, resolve, fs, oracleFor);
    } else {
      LastEvents(files, ticket, resolve, fs, oracleFor);
    }
  }

  /** The last file's two events close the sequence. */
  lemma LastEvents(files: seq<string>, ticket: string, resolve: string -> string,
                   fs: Fs, oracleFor: nat -> Oracle)
    requires files != []
    ensures var n := |files| - 1;
            var events := RunBatch(files, ticket, resolve, fs, oracleFor).events;
            2 * n + 1 < |events| &&
            events[2 * n] == Processing(files[n]) &&
            events[2 * n + 1] ==
              Agent(AgentRun(files[n], ticket, resolve, FsBefore(files, n, ticket, resolve, fs, oracleFor), oracleFor(n)).trace)
  {
    var n := |files| - 1;
    assert files[..n] == files[..n][..n];
    BatchExtends(files, ticket, resolve, fs, oracleFor);
  }

  /** Adding the last file leaves the events of earlier files, and the
      filesystem they start from, as they were. */
  lemma EarlierEventsKept(files: seq<string>, k: nat, ticket: string, resolve: string -> string,
                          fs: Fs, oracleFor: nat -> Oracle)
    requires k < |files| - 1
    ensures var init := files[..|files| - 1];
            var prev := RunBatch(init, ticket, resolve, fs, oracleFor).events;
            var events := RunBatch(files, ticket, resolve, fs, oracleFor).events;
            2 * k + 1 < |prev| && 2 * k + 1 < |events| &&
            events[2 * k] == prev[2 * k] && events[2 * k + 1] == prev[2 * k + 1] &&
            init[k] == files[k] &&
            FsBefore(init, k, ticket, resolve, fs, oracleFor) == FsBefore(files, k, ticket, resolve, fs, oracleFor)
  {
    var init := files[..|files| - 1];
    BatchExtends(files, ticket, resolve, fs, oracleFor);
    assert init[..k] == files[..k];
  }

  /** One more file appends its two events to those of the files before it. */
  lemma BatchExtends(files: seq<string>, ticket: string, resolve: string -> string,
                     fs: Fs, oracleFor: nat -> Oracle)
    requires files != []
    ensures var n := |files| - 1;
            var prev := RunBatch(files[..n], ticket, resolve, fs, oracleFor);
            var events := RunBatch(files, ticket, resolve, fs, oracleFor).events;
            |prev.events| == 2 * n &&
            events == prev.events + [Processing(files[n]),
                                     Agent(AgentRun(files[n], ticket, resolve, prev.fs, oracleFor(n)).trace)]
  {
    BatchLength(files[..|files| - 1], ticket, resolve, fs, oracleFor);
  }

  /** `main`: the argument check, then the loop, then the final message.
      The exit code is 1 after the usage message and 0 otherwise. */
  method RunCli(args: seq<string>, resolve: string -> string, fs: Fs, oracleFor: nat -> Oracle)
    returns (exitCode: int, events: seq<CliEvent>, fs': Fs)
    ensures |args| < 2 ==> exitCode == 1 && events == [Usage] && fs' == fs
    ensures |args| >= 2 ==>
            var b := RunBatch(args[..|args| - 1], args[|args| - 1], resolve, fs, oracleFor);
            exitCode == 0 && events == b.events + [AllProcessed] && fs' == b.fs
  {
    if |args| < 2 {
      return 1, [Usage], fs;
    }
    var ticket := args[|args| - 1];
    var logFiles := args[..|args| - 1];
    events := [];
    fs' := fs;
    var i := 0;
    while i < |logFiles|
      invariant i <= |logFiles|
      invariant Batch(events, fs') == RunBatch(logFiles[..i], ticket, resolve, fs, oracleFor)
    {
      assert logFiles[..i + 1][..i] == logFiles[..i];
      var trace;
      trace, fs' := RunAgent(logFiles[i], ticket, resolve, fs', oracleFor(i));
      events := events + [Processing(logFiles[i]), Agent(trace)];
      i := i + 1;
    }
    assert logFiles[..i] == logFiles;
    exitCode := 0;
    events := events + [AllProcessed];
  }

  /** With at least two arguments the final message always comes last, after
      exactly one announcement and one run per log file. */
  lemma FinishesAfterEveryFile(args: seq<string>, resolve: string -> string, fs: Fs, oracleFor: nat -> Oracle)
    requires |args| >= 2
    ensures var b := RunBatch(args[..|args| - 1], args[|args| - 1], resolve, fs, oracleFor);
            var events := b.events + [AllProcessed];
            |events| == 2 * (|args| - 1) + 1 &&
            AllProcessed !in b.events &&
            forall k :: 0 <= k < |args| - 1 ==> events[2 * k] == Processing(args[k])
  {
    var files := args[..|args| - 1];
    BatchProcessesEveryFile(files, args[|args| - 1], resolve, fs, oracleFor);
    var b := RunBatch(files, args[|args| - 1], resolve, fs, oracleFor);
    BatchNeverFinishes(files, args[|args| - 1], resolve, fs, oracleFor);
    assert forall k :: 0 <= k < |files| ==> (b.events + [AllProcessed])[2 * k] == b.events[2 * k];
  }

  /** The loop itself never prints the final message. */
  lemma {:induction false} BatchNeverFinishes(files: seq<string>, ticket: string, resolve: string -> string,
                                              fs: Fs, oracleFor: nat -> Oracle)
    ensures AllProcessed !in RunBatch(files, ticket, resolve, fs, oracleFor).events
    ensures Usage !in RunBatch(files, ticket, resolve, fs, oracleFor).events
  {
    if files != [] {
      BatchNeverFinishes(files[..|files| - 1], ticket, resolve, fs, oracleFor);
    }
  }
}
