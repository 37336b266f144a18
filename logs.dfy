/** pi-manager/server.js: the dashboard's in-memory log. `addLog` prefixes a message
    with the local time, pushes it onto the module-level `logs` array and, once the
    array holds more than 50 entries, drops the oldest. The clock reading is a
    parameter. */
module PiManager {
  import opened Text

  /** The most entries `logs` keeps. */
  const MaxLogs := 50

  /** The entry `addLog` builds: the time in square brackets, a space, the message. */
  function LogLine(time: string, msg: string): (line: string)
    ensures |line| == |time| + |msg| + 3
    ensures line[0] == '[' && line[1..|time| + 1] == time
    ensures line[|time| + 1..|time| + 3] == "] "
    ensures line[|time| + 3..] == msg
  {
    "[" + time + "] " + msg
  }

  /** The last `MaxLogs` entries of everything ever logged, oldest first. */
  function Window(history: seq<string>): (w: seq<string>)
    ensures |w| == Min(|history|, MaxLogs)
    ensures w == history[|history| - |w|..]
  {
    history[|history| - Min(|history|, MaxLogs)..]
  }

  /** One `push` followed by the conditional `shift`. */
  function Push(logs: seq<string>, line: string): seq<string> {
    var pushed := logs + [line];
    if |pushed| > MaxLogs then pushed[1..] else pushed
  }

  /** The log after a push never exceeds the cap, ends with the new entry, and loses
      exactly its oldest entry when it was full; otherwise it only grows. */
  lemma PushFacts(logs: seq<string>, line: string)
    requires |logs| <= MaxLogs
    ensures var r := Push(logs, line);
      |r| <= MaxLogs && r[|r| - 1] == line &&
      (|logs| == MaxLogs ==> r == logs[1..] + [line] && |r| == MaxLogs) &&
      (|logs| < MaxLogs ==> r == logs + [line] && |r| == |logs| + 1)
  {
    if |logs| == MaxLogs {
      assert (logs + [line])[1..] == logs[1..] + [line];
    }
  }

  /** Pushing onto the window of a history gives the window of the longer history. */
  lemma WindowStep(history: seq<string>, line: string)
    ensures Push(Window(history), line) == Window(history + [line])
  {
    var h := history + [line];
    if |history| >= MaxLogs {
      assert Window(h) == history[|history| - MaxLogs + 1..] + [line];
      assert (Window(history) + [line])[1..] == history[|history| - MaxLogs + 1..] + [line];
    } else {
      assert Window(h) == h;
      assert Window(history) == history;
    }
  }

  /** The log after calling `addLog` once per line, from the empty array. */
  function Replay(lines: seq<string>): seq<string>
    decreases |lines|
  {
    if lines == [] then [] else Push(Replay(lines[..|lines| - 1]), lines[|lines| - 1])
  }

  /** After k calls the log is exactly the last min(k, 50) entries, in the order they
      were added. */
  lemma {:induction false} ReplayWindow(lines: seq<string>)
    ensures Replay(lines) == Window(lines)
    decreases |lines|
  {
    if lines != [] {
      var init := lines[..|lines| - 1];
      ReplayWindow(init);
      WindowStep(init, lines[|lines| - 1]);
      assert init + [lines[|lines| - 1]] == lines;
    }
  }

  /** The module-level `logs` array. `history` is every entry ever added, which the
      program does not keep; it only serves to state what `logs` holds. */
  class LogBuffer {
    var logs: seq<string>
    ghost var history: seq<string>

    ghost predicate Valid()
      reads this
    {
      logs == Window(history)
    }

    /** `let logs = [];` */
    constructor ()
      ensures Valid() && logs == [] && history == []
    {
      logs := [];
      history := [];
    }

    /** `addLog(msg)`, with `time` standing for `new Date().toLocaleTimeString()`.
        Returns the entry it added (the value the source emits on the socket). */
    method AddLog(time: string, msg: string) returns (line: string)
      requires Valid()
      modifies this
      ensures Valid()
      ensures line == LogLine(time, msg)
      ensures history == old(history) + [line]
      ensures logs == Push(old(logs), line)
      ensures |logs| <= MaxLogs && logs[|logs| - 1] == line
      ensures |old(logs)| == MaxLogs ==> logs == old(logs)[1..] + [line]
      ensures |old(logs)| < MaxLogs ==> logs == old(logs) + [line]
    {
      line := "[" + time + "] " + msg;
      PushFacts(logs, line);
      WindowStep(history, line);
      logs := logs + [line];
      if |logs| > MaxLogs {
        logs := logs[1..];
      }
      history := history + [line];
    }
  }
}
