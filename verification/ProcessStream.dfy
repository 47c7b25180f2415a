/**
 The event stream of a process (crates/command-executor/src/backends/launcher.rs, `poll_next`). What
 polling an output pipe gives is an arbitrary finite schedule; after it the pipe is never ready again.
 */
module ProcessStream {
  import opened Common

  datatype Source = Stdout | Stderr

  /** What one poll of a pipe's lines gives. */
  datatype LinePoll = Line(text: string) | ReadError | Closed | NotReady

  datatype Event = Started(pid: nat) | Output(source: Source, text: string)

  datatype Poll = Ready(event: Event) | Ended | Pending

  /** Keeps, shortens or drops a line. */
  type Filter = (string, Source) -> Option<string>

  // ----- Pipes -----

  /** A pipe is the rest of its schedule, or None once it has been dropped. */
  type Pipe = Option<seq<LinePoll>>

  function PollPipe(schedule: seq<LinePoll>): LinePoll {
    if schedule == [] then NotReady else schedule[0]
  }

  function RestOf(schedule: seq<LinePoll>): seq<LinePoll> {
    if schedule == [] then [] else schedule[1..]
  }

  function Size(pipe: Pipe): nat {
    if pipe.None? then 0 else |pipe.value|
  }

  /** The lines a pipe will still give: up to its end, or to its first error. */
  function LinesLeft(pipe: Pipe): seq<string>
    decreases Size(pipe)
  {
    if pipe.None? || pipe.value == [] then []
    else match pipe.value[0]
         case Line(text) => [text] + LinesLeft(Some(pipe.value[1..]))
         case NotReady => LinesLeft(Some(pipe.value[1..]))
         case _ => []
  }

  /** The lines a pipe gives before it first has nothing to give. */
  function LinesReady(pipe: Pipe): seq<string>
    decreases Size(pipe)
  {
    if pipe.None? || pipe.value == [] || !pipe.value[0].Line? then []
    else [pipe.value[0].text] + LinesReady(Some(pipe.value[1..]))
  }

  /** The lines that the filter keeps. */
  function Filtered(filter: Filter, lines: seq<string>, s: Source): seq<string> {
    if lines == [] then [] else Kept(filter, lines[0], s) + Filtered(filter, lines[1..], s)
  }

  function Kept(filter: Filter, line: string, s: Source): seq<string> {
    match filter(line, s) case None => [] case Some(text) => [text]
  }

  lemma {:induction false} FilteredAppend(filter: Filter, lines: seq<string>, line: string, s: Source)
    ensures Filtered(filter, lines + [line], s) ==
            Filtered(filter, lines, s) + match filter(line, s) { case None => [] case Some(text) => [text] }
  {
    if lines == [] {
      assert [line][1..] == [];
    } else {
      FilteredAppend(filter, lines[1..], line, s);
      assert (lines + [line])[1..] == lines[1..] + [line];
    }
  }

  /** The output of a pipe that is still to come, and the part of it that is ready. */
  function Coming(filter: Filter, pipe: Pipe, s: Source): seq<string> {
    Filtered(filter, LinesLeft(pipe), s)
  }

  function Due(filter: Filter, pipe: Pipe, s: Source): seq<string> {
    Filtered(filter, LinesReady(pipe), s)
  }

  /** Does the schedule end in a closed or failed pipe? */
  predicate Ends(pipe: Pipe)
    decreases Size(pipe)
  {
    pipe.None? || (pipe.value != []
        && (pipe.value[0].Closed? || pipe.value[0].ReadError? || Ends(Some(pipe.value[1..]))))
  }

  predicate IsOpen(schedule: seq<LinePoll>) {
    Closed !in schedule && ReadError !in schedule
  }

  /**
   A pipe ends when its schedule closes or fails it. It gives the line of each reading before that, and
   nothing of what follows.
   */
  lemma {:induction false} LinesUntilEnd(past: seq<LinePoll>, next: LinePoll, rest: seq<LinePoll>)
    requires IsOpen(past)
    ensures Ends(Some(past + [next] + rest)) <==> !IsOpen([next] + rest)
    ensures LinesLeft(Some(past)) + LinesLeft(Some([next] + rest)) == LinesLeft(Some(past + [next] + rest))
    ensures LinesLeft(Some([next] + rest)) ==
            match next {
              case Line(text) => [text] + LinesLeft(Some(rest))
              case NotReady => LinesLeft(Some(rest))
              case _ => []
            }
  {
    EndsExactly(past + [next] + rest);
    assert ([next] + rest)[1..] == rest;
    LinesLeftAppend(past, [next] + rest);
    assert past + ([next] + rest) == past + [next] + rest;
    assert IsOpen(past + [next] + rest) <==> IsOpen([next] + rest);
  }

  lemma {:induction false} EndsExactly(schedule: seq<LinePoll>)
    ensures Ends(Some(schedule)) <==> Closed in schedule || ReadError in schedule
  {
    if schedule != [] {
      EndsExactly(schedule[1..]);
      assert schedule == [schedule[0]] + schedule[1..];
    }
  }

  lemma {:induction false} LinesLeftAppend(past: seq<LinePoll>, next: seq<LinePoll>)
    requires IsOpen(past)
    ensures LinesLeft(Some(past + next)) == LinesLeft(Some(past)) + LinesLeft(Some(next))
  {
    if past == [] {
      assert past + next == next;
    } else {
      assert past[0] in past && IsOpen(past[1..]);
      LinesLeftAppend(past[1..], next);
      assert (past + next)[1..] == past[1..] + next;
    }
  }

  /** The lines ready are the longest run of lines at the front of the schedule. */
  lemma {:induction false} LinesReadyAreFirst(schedule: seq<LinePoll>)
    ensures var ready := LinesReady(Some(schedule));
            && |ready| <= |schedule|
            && (forall i :: 0 <= i < |ready| ==> schedule[i] == Line(ready[i]))
            && (|ready| < |schedule| ==> !schedule[|ready|].Line?)
  {
    if schedule != [] && schedule[0].Line? {
      LinesReadyAreFirst(schedule[1..]);
    }
  }

  /** What reading one line takes from a pipe's future output. */
  lemma LineIsRead(filter: Filter, schedule: seq<LinePoll>, s: Source)
    requires schedule != [] && schedule[0].Line?
    ensures Coming(filter, Some(schedule), s) ==
            Kept(filter, schedule[0].text, s) + Coming(filter, Some(schedule[1..]), s)
    ensures Due(filter, Some(schedule), s) == Kept(filter, schedule[0].text, s) + Due(filter, Some(schedule[1..]), s)
    ensures Ends(Some(schedule)) == Ends(Some(schedule[1..]))
  {
    var left, ready := LinesLeft(Some(schedule)), LinesReady(Some(schedule));
    assert left[1..] == LinesLeft(Some(schedule[1..])) && ready[1..] == LinesReady(Some(schedule[1..]));
  }

  /** The pipe after a poll that gave no line. */
  function Without(pipe: Pipe): Pipe {
    if pipe.None? || PollPipe(pipe.value).NotReady? then Rested(pipe) else None
  }

  function Rested(pipe: Pipe): Pipe {
    if pipe.None? then None else Some(RestOf(pipe.value))
  }

  lemma NoLineIsRead(filter: Filter, pipe: Pipe, s: Source)
    requires pipe.None? || !PollPipe(pipe.value).Line?
    ensures Coming(filter, pipe, s) == Coming(filter, Without(pipe), s) && Due(filter, pipe, s) == []
    ensures Ends(pipe) ==> Ends(Without(pipe))
    ensures Size(Without(pipe)) < Size(pipe) || Size(pipe) == Size(Without(pipe)) == 0
  {
  }

  // ----- What one poll does -----

  datatype State = State(started: bool, stdout: Pipe, stderr: Pipe) {
    function PipeOf(s: Source): Pipe {
      if s.Stdout? then stdout else stderr
    }

    function Left(): nat {
      Size(stdout) + Size(stderr)
    }
  }

  function Reported(r: Poll, s: Source): seq<string> {
    if r.Ready? && r.event.Output? && r.event.source == s then [r.event.text] else []
  }

  /**
   Of the source's future output the poll takes just the line it reports, if any. A dropped pipe stays
   dropped, and one that would be dropped some time still will be.
   */
  predicate Takes(filter: Filter, before: State, after: State, r: Poll, s: Source) {
    && Coming(filter, before.PipeOf(s), s) == Reported(r, s) + Coming(filter, after.PipeOf(s), s)
    && (before.PipeOf(s).None? ==> after.PipeOf(s).None?)
    && (Ends(before.PipeOf(s)) ==> Ends(after.PipeOf(s)))
  }

  /**
   One poll: Started comes first and once; then output, what stdout has ready before anything of stderr,
   and something whenever either has output ready; the stream ends exactly when both pipes are dropped, and
   every poll makes progress.
   */
  predicate IsPoll(filter: Filter, pid: nat, before: State, after: State, r: Poll) {
    && after.started
    && (!before.started ==> r == Ready(Started(pid)) && after == before.(started := true))
    && (before.started ==> !(r.Ready? && r.event.Started?))
    && (before.started && Due(filter, before.stdout, Stdout) != [] ==> Reported(r, Stdout) != [])
    && (before.started && Due(filter, before.stderr, Stderr) != [] ==> r.Ready?)
    && (before.started && before.stdout.None? && before.stderr.None? ==> r.Ended?)
    && (r.Ended? ==> after.stdout.None? && after.stderr.None?)
    && (r.Pending? ==> after.stdout.Some? || after.stderr.Some?)
    && (before.started ==> after.Left() < before.Left() || before.Left() == after.Left() == 0)
    && Takes(filter, before, after, r, Stdout)
    && Takes(filter, before, after, r, Stderr)
  }

  /** From `before` to `mid` only lines that the filter drops were read, from stderr only if stdout had nothing due. */
  predicate Drops(filter: Filter, before: State, mid: State) {
    && before.started && mid.started && mid.Left() < before.Left()
    && Takes(filter, before, mid, Pending, Stdout) && Takes(filter, before, mid, Pending, Stderr)
    && (Due(filter, before.stdout, Stdout) != [] ==>
       Due(filter, mid.stdout, Stdout) == Due(filter, before.stdout, Stdout))
    && Due(filter, mid.stderr, Stderr) == Due(filter, before.stderr, Stderr)
  }

  /** A poll after dropped lines is a poll. */
  lemma DropsThenPoll(filter: Filter, pid: nat, before: State, mid: State, after: State, r: Poll)
    requires Drops(filter, before, mid) && IsPoll(filter, pid, mid, after, r)
    ensures IsPoll(filter, pid, before, after, r)
  {
    hide Coming, Due, Ends;
  }

  lemma StartIsPoll(filter: Filter, pid: nat, before: State)
    requires !before.started
    ensures IsPoll(filter, pid, before, before.(started := true), Ready(Started(pid)))
  {
    hide Coming, Due, Ends;
  }

  /** A line of stdout is reported or dropped. */
  lemma StdoutIsRead(filter: Filter, pid: nat, before: State)
    requires before.started && before.stdout.Some? && PollPipe(before.stdout.value).Line?
    ensures var kept := filter(before.stdout.value[0].text, Stdout);
      var mid := before.(stdout := Rested(before.stdout));
      if kept.Some? then IsPoll(filter, pid, before, mid, Ready(Output(Stdout, kept.value)))
      else Drops(filter, before, mid)
  {
    hide Coming, Due, Ends;
    LineIsRead(filter, before.stdout.value, Stdout);
  }

  /** When stdout gives no line, a line of stderr is reported or dropped. */
  lemma StderrIsRead(filter: Filter, pid: nat, before: State)
    requires before.started && (before.stdout.Some? ==> !PollPipe(before.stdout.value).Line?)
    requires before.stderr.Some? && PollPipe(before.stderr.value).Line?
    ensures var kept := filter(before.stderr.value[0].text, Stderr);
      var mid := State(true, Without(before.stdout), Rested(before.stderr));
      if kept.Some? then IsPoll(filter, pid, before, mid, Ready(Output(Stderr, kept.value)))
      else Drops(filter, before, mid)
  {
    hide Coming, Due, Ends;
    NoLineIsRead(filter, before.stdout, Stdout);
    LineIsRead(filter, before.stderr.value, Stderr);
  }

  lemma NeitherIsRead(filter: Filter, pid: nat, before: State)
    requires before.started && (before.stdout.Some? ==> !PollPipe(before.stdout.value).Line?)
    requires before.stderr.Some? ==> !PollPipe(before.stderr.value).Line?
    ensures var after := State(true, Without(before.stdout), Without(before.stderr));
      IsPoll(filter, pid, before, after, if after.stdout.None? && after.stderr.None? then Ended else Pending)
  {
    hide Coming, Due, Ends;
    NoLineIsRead(filter, before.stdout, Stdout);
    NoLineIsRead(filter, before.stderr, Stderr);
  }

  predicate GivesNoLine(pipe: Pipe) {
    pipe.None? || pipe.value == [] || !pipe.value[0].Line?
  }

  /** What the filter makes of the line that the pipe gives now. */
  function KeptFirst(pipe: Pipe, filter: Filter, s: Source): Option<string> {
    if GivesNoLine(pipe) then None else filter(pipe.value[0].text, s)
  }

  class ProcessEventStream {
    var stdout: Pipe
    var stderr: Pipe
    const filter: Filter
    var startedSent: bool
    const childId: nat

    function View(): State
      reads this
    {
      State(startedSent, stdout, stderr)
    }

    constructor (childId: nat, filter: Filter, stdout: Pipe, stderr: Pipe)
      ensures this.childId == childId && this.filter == filter && View() == State(false, stdout, stderr)
    {
      this.childId, this.filter := childId, filter;
      this.stdout, this.stderr, startedSent := stdout, stderr, false;
    }

    method PollNext() returns (r: Poll)
      modifies this
      ensures IsPoll(filter, childId, old(View()), View(), r)
      ensures startedSent
      ensures !old(startedSent) ==> r == Ready(Started(childId)) && stdout == old(stdout) && stderr == old(stderr)
      ensures old(startedSent) && KeptFirst(old(stdout), filter, Stdout).Some? ==>
                r == Ready(Output(Stdout, KeptFirst(old(stdout), filter, Stdout).value))
                && stdout == Some(old(stdout).value[1..]) && stderr == old(stderr)
      ensures old(startedSent) && GivesNoLine(old(stdout)) && KeptFirst(old(stderr), filter, Stderr).Some? ==>
                r == Ready(Output(Stderr, KeptFirst(old(stderr), filter, Stderr).value))
                && stdout == Without(old(stdout)) && stderr == Some(old(stderr).value[1..])
      ensures old(startedSent) && GivesNoLine(old(stdout)) && GivesNoLine(old(stderr)) ==>
                stdout == Without(old(stdout)) && stderr == Without(old(stderr))
                && r == if stdout.None? && stderr.None? then Ended else Pending
      decreases Size(stdout) + Size(stderr), !startedSent
    {
      hide Drops, IsPoll;
      ghost var before := View();
      if !startedSent {
        startedSent := true;
        StartIsPoll(filter, childId, before);
        return Ready(Started(childId));
      }
      if stdout.Some? {
        var polled := PollPipe(stdout.value);
        if polled.Line? {
          StdoutIsRead(filter, childId, before);
          stdout := Some(RestOf(stdout.value));
          var filtered := filter(polled.text, Stdout);
          if filtered.Some? {
            return Ready(Output(Stdout, filtered.value));
          }
          ghost var mid := View();
          r := PollNext();
          DropsThenPoll(filter, childId, before, mid, View(), r);
          return;
        }
        stdout := if polled.NotReady? then Some(RestOf(stdout.value)) else None;
      }
      if stderr.Some? {
        var polled := PollPipe(stderr.value);
        if polled.Line? {
          StderrIsRead(filter, childId, before);
          stderr := Some(RestOf(stderr.value));
          var filtered := filter(polled.text, Stderr);
          if filtered.Some? {
            return Ready(Output(Stderr, filtered.value));
          }
          ghost var mid := View();
          r := PollNext();
          DropsThenPoll(filter, childId, before, mid, View(), r);
          return;
        }
        stderr := if polled.NotReady? then Some(RestOf(stderr.value)) else None;
      }
      NeitherIsRead(filter, childId, before);
      if stdout.None? && stderr.None? {
        return Ended;
      }
      return Pending;
    }
  }

  // ----- Runs of polls -----

  /** The states before, between and after the polls of a run. */
  predicate IsRun(filter: Filter, pid: nat, states: seq<State>, polls: seq<Poll>) {
    && |states| == |polls| + 1
    && forall i :: 0 <= i < |polls| ==> IsPoll(filter, pid, states[i], states[i + 1], polls[i])
  }

  /** What a run has reported of a source, in order. */
  function Emitted(polls: seq<Poll>, s: Source): seq<string> {
    if polls == [] then [] else Reported(polls[0], s) + Emitted(polls[1..], s)
  }

  /** Output already emitted, followed by output still to come, is the same at every point of a run. */
  lemma {:induction false} RunsConserve(filter: Filter, pid: nat, states: seq<State>, polls: seq<Poll>, s: Source)
    requires IsRun(filter, pid, states, polls)
    ensures Coming(filter, states[0].PipeOf(s), s) == Emitted(polls, s) + Coming(filter, states[|polls|].PipeOf(s), s)
    decreases |polls|
  {
    hide Coming, Due, Ends;
    if polls == [] {
    } else {
      assert IsPoll(filter, pid, states[0], states[1], polls[0]);
      assert Takes(filter, states[0], states[1], polls[0], s);
      RunsConserve(filter, pid, states[1..], polls[1..], s);
    }
  }

  lemma {:induction false} RunsProgress(filter: Filter, pid: nat, states: seq<State>, polls: seq<Poll>)
    requires IsRun(filter, pid, states, polls) && states[0].started
    ensures states[|polls|].started
    ensures states[|polls|].Left() == 0 || states[|polls|].Left() + |polls| <= states[0].Left()
    ensures forall s :: Ends(states[0].PipeOf(s)) ==> Ends(states[|polls|].PipeOf(s))
    ensures forall i :: 0 <= i < |polls| ==> !(polls[i].Ready? && polls[i].event.Started?)
    decreases |polls|
  {
    hide Coming, Due, Ends;
    if polls == [] {
    } else {
      assert IsPoll(filter, pid, states[0], states[1], polls[0]);
      RunsProgress(filter, pid, states[1..], polls[1..]);
      assert forall i :: 1 <= i < |polls| ==> polls[i] == polls[1..][i - 1];
      assert forall s :: Takes(filter, states[0], states[1], polls[0], s) by {
        forall s ensures Takes(filter, states[0], states[1], polls[0], s) {
          assert s == Stdout || s == Stderr;
        }
      }
    }
  }

  /** A new stream reports Started at its first poll and never again. */
  lemma StartedOnceAndFirst(filter: Filter, pid: nat, states: seq<State>, polls: seq<Poll>, i: nat)
    requires IsRun(filter, pid, states, polls) && !states[0].started && i < |polls|
    ensures polls[i].Ready? && polls[i].event.Started? <==> i == 0
    ensures polls[0] == Ready(Started(pid))
  {
    hide Coming, Due, Ends, Takes;
    assert IsPoll(filter, pid, states[0], states[1], polls[0]);
    RunsProgress(filter, pid, states[1..], polls[1..]);
    assert i > 0 ==> polls[i] == polls[1..][i - 1];
  }

  /** Once the stream has ended it stays ended, and everything that was to come has been reported. */
  lemma {:induction false} EndedForGood(filter: Filter, pid: nat, states: seq<State>, polls: seq<Poll>, i: nat, j: nat)
    requires IsRun(filter, pid, states, polls) && i <= j < |polls| && polls[i].Ended?
    ensures polls[j].Ended? && states[j + 1].started && states[j + 1].stdout.None? && states[j + 1].stderr.None?
    ensures forall s :: Emitted(polls[..j + 1], s) == Coming(filter, states[0].PipeOf(s), s)
    decreases j
  {
    if i == j {
      assert IsPoll(filter, pid, states[j], states[j + 1], polls[j]);
    } else {
      EndedForGood(filter, pid, states, polls, i, j - 1);
      assert IsPoll(filter, pid, states[j], states[j + 1], polls[j]);
    }
    forall s ensures Emitted(polls[..j + 1], s) == Coming(filter, states[0].PipeOf(s), s) {
      RunsConserve(filter, pid, states[..j + 2], polls[..j + 1], s);
    }
  }

  /** A pipe with nothing left to give is dropped if it ever is. */
  lemma NothingLeftIsDropped(st: State)
    requires st.Left() == 0 && Ends(st.stdout) && Ends(st.stderr)
    ensures st.stdout.None? && st.stderr.None?
  {
  }

  /**
   If both pipes are closed or fail some time, then after one poll for Started and at most one for each
   entry of the schedules the stream has ended, and has reported of each source exactly the lines that
   the filter keeps, in the order written.
   */
  lemma StreamCompletes(filter: Filter, pid: nat, states: seq<State>, polls: seq<Poll>, stdout: Pipe, stderr: Pipe)
    requires IsRun(filter, pid, states, polls) && states[0] == State(false, stdout, stderr)
    requires Ends(stdout) && Ends(stderr) && |polls| >= Size(stdout) + Size(stderr) + 2
    ensures polls[|polls| - 1].Ended?
    ensures Emitted(polls, Stdout) == Filtered(filter, LinesLeft(stdout), Stdout)
    ensures Emitted(polls, Stderr) == Filtered(filter, LinesLeft(stderr), Stderr)
  {
    hide LinesLeft, Filtered, Due, Ends, Takes, Emitted;
    var n := |polls| - 1;
    assert IsPoll(filter, pid, states[0], states[1], polls[0]);
    assert states[1].PipeOf(Stdout) == stdout && states[1].PipeOf(Stderr) == stderr;
    RunsProgress(filter, pid, states[1..|polls|], polls[1..n]);
    assert states[1..|polls|][n - 1] == states[n];
    assert Ends(states[n].PipeOf(Stdout)) && Ends(states[n].PipeOf(Stderr));
    NothingLeftIsDropped(states[n]);
    assert IsPoll(filter, pid, states[n], states[n + 1], polls[n]);
    EndedForGood(filter, pid, states, polls, n, n);
    assert polls[..n + 1] == polls;
    assert states[0].PipeOf(Stdout) == stdout && states[0].PipeOf(Stderr) == stderr;
  }

  // ----- Lines lost -----

  /** Every line written to a pipe before it is closed, were errors passed over. */
  function LinesWritten(schedule: seq<LinePoll>): seq<string> {
    if schedule == [] || schedule[0].Closed? then []
    else (if schedule[0].Line? then [schedule[0].text] else []) + LinesWritten(schedule[1..])
  }

  /** The lines written after the first error. */
  function LinesPastError(schedule: seq<LinePoll>): seq<string> {
    if schedule == [] || schedule[0].Closed? then []
    else if schedule[0].ReadError? then LinesWritten(schedule[1..])
    else LinesPastError(schedule[1..])
  }

  /** The lines lost are just those after a read error, so without one there are none. */
  lemma {:induction false} OnlyErrorsLoseLines(schedule: seq<LinePoll>)
    ensures LinesWritten(schedule) == LinesLeft(Some(schedule)) + LinesPastError(schedule)
    ensures ReadError !in schedule ==> LinesLeft(Some(schedule)) == LinesWritten(schedule)
  {
    if schedule != [] && !schedule[0].Closed? && !schedule[0].ReadError? {
      OnlyErrorsLoseLines(schedule[1..]);
    }
  }
}
