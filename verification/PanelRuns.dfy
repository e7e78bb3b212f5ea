/** All interleavings of requests and run goroutines over the panel's shared state.  A step
    is one critical section, or one piece of work a goroutine does by itself. */
module PanelRuns {
  import opened Options
  import opened TestEvents
  import opened Summaries
  import opened Reports
  import opened Histories
  import opened Panel

  /** Where one accepted run stands: between the handler's unlock and the goroutine's start,
      starting its child process, or reading the child's lines.  While `behind`, the last
      line has been logged but not yet gathered. */
  datatype Run =
    | Launching(host: string)
    | Starting(host: string, started: int)
    | Scanning(host: string, started: int, lines: seq<Line>, gathered: Gathered, behind: bool)

  /** Runs are named by the order in which they were accepted. */
  datatype World = World(shared: Shared, runs: map<nat, Run>, accepted: nat)

  datatype Step =
    | Request(host: string)
    | Launch(run: nat, now: int)
    | FailStart(run: nat, error: string)
    | BeginScan(run: nat)
    | LogLine(run: nat, line: Line)
    | GatherLine(run: nat)
    | Commit(run: nat, now: int, summary: Summary)

  function Initial(loaded: seq<RunResult>): World {
    World(Shared(false, "", loaded), map[], 0)
  }

  function GatherOne(g: Gathered, line: Line): Gathered {
    if line.event.Some? then Absorb(g, line.event.value) else g
  }

  /** Steps a world can take: a request at any time, and any run's next step. */
  ghost predicate Enabled(w: World, step: Step) {
    match step
    case Request(_) => true
    case Launch(r, _) => r in w.runs && w.runs[r].Launching?
    case FailStart(r, _) => r in w.runs && w.runs[r].Starting?
    case BeginScan(r) => r in w.runs && w.runs[r].Starting?
    case LogLine(r, _) => r in w.runs && w.runs[r].Scanning? && !w.runs[r].behind
    case GatherLine(r) => r in w.runs && w.runs[r].Scanning? && w.runs[r].behind && w.runs[r].lines != []
    case Commit(r, _, s) => r in w.runs && w.runs[r].Scanning? && !w.runs[r].behind
                            && IsSummary(w.runs[r].gathered.results, s)
  }

  /** The entry a run commits; its identifier is set on recording. */
  function EntryOf(run: Run, now: int, s: Summary): RunResult
    requires run.Scanning?
  {
    RunResult(0, run.started, now, run.gathered.duration, run.host, s)
  }

  ghost function After(w: World, step: Step): World
    requires Enabled(w, step)
  {
    match step
    case Request(host) =>
      if w.shared.running then w
      else World(Accepted(w.shared), w.runs[w.accepted := Launching(host)], w.accepted + 1)
    case Launch(r, now) =>
      w.(runs := w.runs[r := Starting(w.runs[r].host, now)])
    case FailStart(r, error) =>
      w.(shared := Abandoned(w.shared, error), runs := w.runs - {r})
    case BeginScan(r) =>
      w.(runs := w.runs[r := Scanning(w.runs[r].host, w.runs[r].started, [], START, false)])
    case LogLine(r, line) =>
      var run := w.runs[r];
      w.(shared := Logged(w.shared, line.text),
         runs := w.runs[r := run.(lines := run.lines + [line], behind := true)])
    case GatherLine(r) =>
      var run := w.runs[r];
      w.(runs := w.runs[r := run.(gathered := GatherOne(run.gathered, run.lines[|run.lines| - 1]), behind := false)])
    case Commit(r, now, s) =>
      w.(shared := Committed(w.shared, EntryOf(w.runs[r], now, s)), runs := w.runs - {r})
  }

  /** A trace is a sequence of steps, each enabled where it is taken. */
  ghost predicate Valid(loaded: seq<RunResult>, trace: seq<Step>)
    decreases |trace|, 0
  {
    trace == [] ||
    (Valid(loaded, trace[..|trace| - 1]) && Enabled(Reached(loaded, trace[..|trace| - 1]), trace[|trace| - 1]))
  }

  ghost function Reached(loaded: seq<RunResult>, trace: seq<Step>): World
    requires Valid(loaded, trace)
    decreases |trace|, 1
  {
    if trace == [] then Initial(loaded)
    else After(Reached(loaded, trace[..|trace| - 1]), trace[|trace| - 1])
  }

  // ----- Exclusive runs -----

  /** At most the run accepted last is alive, and the gate is closed exactly while it is. */
  ghost predicate Exclusive(w: World) {
    && (forall r :: r in w.runs ==> r + 1 == w.accepted)
    && (w.shared.running <==> w.runs != map[])
  }

  lemma ExclusiveStep(w: World, step: Step)
    requires Exclusive(w) && Enabled(w, step)
    ensures Exclusive(After(w, step))
  {
    var w' := After(w, step);
    match step
    case Request(_) =>
      if !w.shared.running {
        assert w.accepted in w'.runs;
      }
    case FailStart(r, _) =>
      assert w'.runs.Keys == {};
    case Commit(r, _, _) =>
      assert w'.runs.Keys == {};
    case Launch(r, _) =>
      assert r in w'.runs;
    case BeginScan(r) =>
      assert r in w'.runs;
    case LogLine(r, _) =>
      assert r in w'.runs;
    case GatherLine(r) =>
      assert r in w'.runs;
  }

  lemma {:induction false} AlwaysExclusive(loaded: seq<RunResult>, trace: seq<Step>)
    requires Valid(loaded, trace)
    ensures Exclusive(Reached(loaded, trace))
    decreases |trace|
  {
    if trace != [] {
      AlwaysExclusive(loaded, trace[..|trace| - 1]);
      ExclusiveStep(Reached(loaded, trace[..|trace| - 1]), trace[|trace| - 1]);
    }
  }

  /** In every reachable world the runs accepted and not yet ended number one while the gate
      is closed, and none while it is open. */
  lemma {:induction false} ExclusiveRuns(loaded: seq<RunResult>, trace: seq<Step>)
    requires Valid(loaded, trace)
    ensures var w := Reached(loaded, trace); |w.runs| == if w.shared.running then 1 else 0
  {
    AlwaysExclusive(loaded, trace);
    var w := Reached(loaded, trace);
    if w.shared.running {
      var r :| r in w.runs;
      assert w.runs.Keys == {r};
      assert |w.runs| == |w.runs.Keys|;
    }
  }

  // ----- Log purity -----

  /** The lines a run logged in the course of a trace. */
  function LinesOf(trace: seq<Step>, run: nat): seq<Line> {
    if trace == [] then []
    else
      var before, last := LinesOf(trace[..|trace| - 1], run), trace[|trace| - 1];
      if last.LogLine? && last.run == run then before + [last.line] else before
  }

  /** The error with which a run failed to start, if it did. */
  function StartError(trace: seq<Step>, run: nat): Option<string> {
    if trace == [] then None
    else
      var last := trace[|trace| - 1];
      if last.FailStart? && last.run == run then Some(last.error)
      else StartError(trace[..|trace| - 1], run)
  }

  /** Each line followed by a line feed. */
  function LogText(lines: seq<Line>): string {
    if lines == [] then "" else LogText(lines[..|lines| - 1]) + lines[|lines| - 1].text + "\n"
  }

  /** What the log must show after a trace: nothing before the first acceptance, the error of
      a run that failed to start, and otherwise exactly the lines of the last accepted run. */
  function ExpectedLog(accepted: nat, trace: seq<Step>): string {
    if accepted == 0 then ""
    else
      match StartError(trace, accepted - 1)
      case Some(error) => "Failed to start: " + error
      case None => LogText(LinesOf(trace, accepted - 1))
  }

  /** A live run holds exactly its own lines, has gathered all of them but one it may be
      behind with, and has not failed to start. */
  ghost predicate RunFaithful(run: Run, lines: seq<Line>, error: Option<string>) {
    && error == None
    && (run.Scanning? ==>
          && run.lines == lines
          && (run.behind ==> lines != [])
          && run.gathered == Gather(Decoded(if run.behind then lines[..|lines| - 1] else lines)))
    && (!run.Scanning? ==> lines == [])
  }

  ghost predicate Faithful(w: World, trace: seq<Step>) {
    && w.shared.log == ExpectedLog(w.accepted, trace)
    && (forall r :: r in w.runs ==> RunFaithful(w.runs[r], LinesOf(trace, r), StartError(trace, r)))
    && (forall r: nat :: r >= w.accepted ==> LinesOf(trace, r) == [] && StartError(trace, r) == None)
  }

  lemma Unfold(trace: seq<Step>, step: Step, r: nat)
    ensures LinesOf(trace + [step], r)
         == if step.LogLine? && step.run == r then LinesOf(trace, r) + [step.line] else LinesOf(trace, r)
    ensures StartError(trace + [step], r)
         == if step.FailStart? && step.run == r then Some(step.error) else StartError(trace, r)
  {
    SnocPrefix(trace, step);
  }

  lemma LogTextSnoc(lines: seq<Line>, line: Line)
    ensures LogText(lines + [line]) == LogText(lines) + line.text + "\n"
  {
    SnocPrefix(lines, line);
  }

  lemma GatherSnoc(lines: seq<Line>)
    requires lines != []
    ensures Gather(Decoded(lines)) == GatherOne(Gather(Decoded(lines[..|lines| - 1])), lines[|lines| - 1])
  {
    var last := lines[|lines| - 1];
    if last.event.Some? {
      SnocPrefix(Decoded(lines[..|lines| - 1]), last.event.value);
    }
  }

  /** The last step left everything that concerns the other runs as it was. */
  lemma OthersUnchanged(trace: seq<Step>, step: Step, run: nat)
    requires (step.LogLine? ==> step.run == run) && (step.FailStart? ==> step.run == run)
    ensures forall r: nat :: r != run ==> LinesOf(trace + [step], r) == LinesOf(trace, r)
    ensures forall r: nat :: r != run ==> StartError(trace + [step], r) == StartError(trace, r)
  {
    forall r: nat | r != run
      ensures LinesOf(trace + [step], r) == LinesOf(trace, r)
      ensures StartError(trace + [step], r) == StartError(trace, r)
    {
      Unfold(trace, step, r);
    }
  }

  lemma RequestFaithful(w: World, trace: seq<Step>, step: Step)
    requires Exclusive(w) && Faithful(w, trace) && step.Request? && Enabled(w, step)
    ensures Faithful(After(w, step), trace + [step])
  {
    OthersUnchanged(trace, step, w.accepted);
    Unfold(trace, step, w.accepted);
  }

  lemma StartFaithful(w: World, trace: seq<Step>, step: Step)
    requires Exclusive(w) && Faithful(w, trace) && Enabled(w, step)
    requires step.Launch? || step.FailStart? || step.BeginScan?
    ensures Faithful(After(w, step), trace + [step])
  {
    OthersUnchanged(trace, step, step.run);
    Unfold(trace, step, step.run);
  }

  /** Enough to show when one step changes only the log and one live run. */
  lemma OneRunFaithful(w: World, w': World, trace: seq<Step>, step: Step, r: nat, run: Run)
    requires Faithful(w, trace) && r < w.accepted
    requires (step.LogLine? ==> step.run == r) && !step.FailStart?
    requires w'.accepted == w.accepted && w'.runs == w.runs[r := run]
    requires w'.shared.log == ExpectedLog(w.accepted, trace + [step])
    requires RunFaithful(run, LinesOf(trace + [step], r), StartError(trace + [step], r))
    ensures Faithful(w', trace + [step])
  {
    OthersUnchanged(trace, step, r);
  }

  lemma LogLineFaithful(w: World, trace: seq<Step>, step: Step)
    requires Exclusive(w) && Faithful(w, trace) && step.LogLine? && Enabled(w, step)
    ensures Faithful(After(w, step), trace + [step])
  {
    var lines := LinesOf(trace, step.run);
    Unfold(trace, step, step.run);
    LogTextSnoc(lines, step.line);
    SnocPrefix(lines, step.line);
    OneRunFaithful(w, After(w, step), trace, step, step.run, After(w, step).runs[step.run]);
  }

  lemma GatherLineFaithful(w: World, trace: seq<Step>, step: Step)
    requires Exclusive(w) && Faithful(w, trace) && step.GatherLine? && Enabled(w, step)
    ensures Faithful(After(w, step), trace + [step])
  {
    Unfold(trace, step, step.run);
    GatherSnoc(LinesOf(trace, step.run));
    OneRunFaithful(w, After(w, step), trace, step, step.run, After(w, step).runs[step.run]);
  }

  lemma CommitFaithful(w: World, trace: seq<Step>, step: Step)
    requires Exclusive(w) && Faithful(w, trace) && step.Commit? && Enabled(w, step)
    ensures Faithful(After(w, step), trace + [step])
  {
    OthersUnchanged(trace, step, step.run);
    Unfold(trace, step, step.run);
  }

  lemma FaithfulStep(w: World, trace: seq<Step>, step: Step)
    requires Exclusive(w) && Faithful(w, trace) && Enabled(w, step)
    ensures Faithful(After(w, step), trace + [step])
  {
    match step
    case Request(_) => RequestFaithful(w, trace, step);
    case Launch(_, _) => StartFaithful(w, trace, step);
    case FailStart(_, _) => StartFaithful(w, trace, step);
    case BeginScan(_) => StartFaithful(w, trace, step);
    case LogLine(_, _) => LogLineFaithful(w, trace, step);
    case GatherLine(_) => GatherLineFaithful(w, trace, step);
    case Commit(_, _, _) => CommitFaithful(w, trace, step);
  }

  lemma {:induction false} AlwaysFaithful(loaded: seq<RunResult>, trace: seq<Step>)
    requires Valid(loaded, trace)
    ensures Faithful(Reached(loaded, trace), trace)
    decreases |trace|
  {
    if trace != [] {
      var before, step := trace[..|trace| - 1], trace[|trace| - 1];
      AlwaysFaithful(loaded, before);
      AlwaysExclusive(loaded, before);
      FaithfulStep(Reached(loaded, before), before, step);
      assert trace == before + [step];
    }
  }

  /** In every reachable world the log is exactly what the last accepted run has logged, or
      its start error, and never holds anything of another run. */
  lemma LogPurity(loaded: seq<RunResult>, trace: seq<Step>)
    requires Valid(loaded, trace)
    ensures var w := Reached(loaded, trace); w.shared.log == ExpectedLog(w.accepted, trace)
  {
    AlwaysFaithful(loaded, trace);
  }

  /** Whenever a run commits, the summary it records is the report of exactly the lines the
      log shows at that moment. */
  lemma CommitReportsTheLog(loaded: seq<RunResult>, trace: seq<Step>, step: Step)
    requires Valid(loaded, trace) && step.Commit? && Enabled(Reached(loaded, trace), step)
    ensures var w := Reached(loaded, trace);
            && w.shared.log == LogText(LinesOf(trace, step.run))
            && IsReport(LinesOf(trace, step.run), EntryOf(w.runs[step.run], step.now, step.summary).duration,
                        step.summary)
  {
    var w := Reached(loaded, trace);
    AlwaysFaithful(loaded, trace);
    AlwaysExclusive(loaded, trace);
    assert RunFaithful(w.runs[step.run], LinesOf(trace, step.run), StartError(trace, step.run));
  }

  // ----- The history of a trace -----

  /** The entries committed in the course of a trace, before numbering. */
  ghost function Entries(loaded: seq<RunResult>, trace: seq<Step>): seq<RunResult>
    requires Valid(loaded, trace)
    decreases |trace|
  {
    if trace == [] then []
    else
      var before, step := trace[..|trace| - 1], trace[|trace| - 1];
      if step.Commit?
      then Entries(loaded, before) + [EntryOf(Reached(loaded, before).runs[step.run], step.now, step.summary)]
      else Entries(loaded, before)
  }

  /** The runs that committed, in order. */
  function CommittedRuns(trace: seq<Step>): seq<nat> {
    if trace == [] then []
    else
      var before, step := CommittedRuns(trace[..|trace| - 1]), trace[|trace| - 1];
      if step.Commit? then before + [step.run] else before
  }

  /** Only commits touch the history, and each records its entry. */
  lemma {:induction false} HistoryOfTrace(loaded: seq<RunResult>, trace: seq<Step>)
    requires Valid(loaded, trace)
    ensures Reached(loaded, trace).shared.history == RecordedAll(loaded, Entries(loaded, trace))
    decreases |trace|
  {
    if trace != [] {
      var before, step := trace[..|trace| - 1], trace[|trace| - 1];
      HistoryOfTrace(loaded, before);
      if step.Commit? {
        SnocPrefix(Entries(loaded, before), EntryOf(Reached(loaded, before).runs[step.run], step.now, step.summary));
      }
    }
  }

  /** Committed runs have ended, were accepted in the order in which they committed, and each
      entry is the report of its own run's lines. */
  ghost predicate EntriesFaithful(w: World, trace: seq<Step>, entries: seq<RunResult>) {
    var ids := CommittedRuns(trace);
    && |entries| == |ids|
    && (forall i :: 0 <= i < |ids| ==> ids[i] < w.accepted && ids[i] !in w.runs)
    && (forall i, j :: 0 <= i < j < |ids| ==> ids[i] < ids[j])
    && (forall i :: 0 <= i < |ids| ==> IsReport(LinesOf(trace, ids[i]), entries[i].duration, entries[i].summary))
  }

  lemma OldEntriesStand(w: World, trace: seq<Step>, step: Step, i: nat)
    requires Enabled(w, step) && i < |CommittedRuns(trace)| && CommittedRuns(trace)[i] !in w.runs
    ensures LinesOf(trace + [step], CommittedRuns(trace)[i]) == LinesOf(trace, CommittedRuns(trace)[i])
  {
    Unfold(trace, step, CommittedRuns(trace)[i]);
  }

  lemma RunsAfter(w: World, step: Step, r: nat)
    requires Enabled(w, step) && r < w.accepted && r !in w.runs
    ensures r < After(w, step).accepted && r !in After(w, step).runs
  {
  }

  lemma OtherEntriesStep(w: World, trace: seq<Step>, step: Step, entries: seq<RunResult>)
    requires Enabled(w, step) && !step.Commit? && EntriesFaithful(w, trace, entries)
    ensures EntriesFaithful(After(w, step), trace + [step], entries)
  {
    var ids := CommittedRuns(trace);
    SnocPrefix(trace, step);
    assert CommittedRuns(trace + [step]) == ids;
    forall i | 0 <= i < |ids|
      ensures LinesOf(trace + [step], ids[i]) == LinesOf(trace, ids[i])
      ensures ids[i] < After(w, step).accepted && ids[i] !in After(w, step).runs
    {
      OldEntriesStand(w, trace, step, i);
      RunsAfter(w, step, ids[i]);
    }
  }

  lemma AppendEntry(w: World, trace: seq<Step>, ids: seq<nat>, r: nat, entries: seq<RunResult>, entry: RunResult)
    requires CommittedRuns(trace) == ids + [r] && |entries| == |ids|
    requires r < w.accepted && r !in w.runs
    requires forall i :: 0 <= i < |ids| ==> ids[i] < r && ids[i] !in w.runs
    requires forall i, j :: 0 <= i < j < |ids| ==> ids[i] < ids[j]
    requires forall i :: 0 <= i < |ids| ==> IsReport(LinesOf(trace, ids[i]), entries[i].duration, entries[i].summary)
    requires IsReport(LinesOf(trace, r), entry.duration, entry.summary)
    ensures EntriesFaithful(w, trace, entries + [entry])
  {
  }

  lemma CommitEntriesStep(w: World, trace: seq<Step>, step: Step, entries: seq<RunResult>)
    requires Exclusive(w) && Faithful(w, trace) && Enabled(w, step) && step.Commit?
    requires EntriesFaithful(w, trace, entries)
    ensures EntriesFaithful(After(w, step), trace + [step],
                            entries + [EntryOf(w.runs[step.run], step.now, step.summary)])
  {
    var ids, w', trace' := CommittedRuns(trace), After(w, step), trace + [step];
    var entry := EntryOf(w.runs[step.run], step.now, step.summary);
    SnocPrefix(trace, step);
    Unfold(trace, step, step.run);
    forall i | 0 <= i < |ids|
      ensures LinesOf(trace', ids[i]) == LinesOf(trace, ids[i])
      ensures ids[i] !in w'.runs && ids[i] < step.run
    {
      OldEntriesStand(w, trace, step, i);
      RunsAfter(w, step, ids[i]);
    }
    AppendEntry(w', trace', ids, step.run, entries, entry);
  }

  lemma EntriesStep(w: World, trace: seq<Step>, step: Step, entries: seq<RunResult>)
    requires Exclusive(w) && Faithful(w, trace) && Enabled(w, step) && EntriesFaithful(w, trace, entries)
    ensures EntriesFaithful(After(w, step), trace + [step],
                            if step.Commit? then entries + [EntryOf(w.runs[step.run], step.now, step.summary)]
                            else entries)
  {
    if step.Commit? {
      CommitEntriesStep(w, trace, step, entries);
    } else {
      OtherEntriesStep(w, trace, step, entries);
    }
  }

  lemma {:induction false} AlwaysEntriesFaithful(loaded: seq<RunResult>, trace: seq<Step>)
    requires Valid(loaded, trace)
    ensures EntriesFaithful(Reached(loaded, trace), trace, Entries(loaded, trace))
    decreases |trace|
  {
    if trace != [] {
      var before, step := trace[..|trace| - 1], trace[|trace| - 1];
      var w, entries := Reached(loaded, before), Entries(loaded, before);
      AlwaysEntriesFaithful(loaded, before);
      AlwaysFaithful(loaded, before);
      AlwaysExclusive(loaded, before);
      EntriesStep(w, before, step, entries);
      assert before + [step] == trace;
      assert Reached(loaded, trace) == After(w, step);
    }
  }

  /** After any trace the history is the last hundred of the loaded entries and the committed
      runs, in the order in which those were accepted, numbered by the history law, each the
      report of its own run's lines alone. */
  lemma {:induction false} HistoryFaithful(loaded: seq<RunResult>, trace: seq<Step>)
    requires Valid(loaded, trace)
    ensures var entries, history := Entries(loaded, trace), Reached(loaded, trace).shared.history;
            && history == (if entries == [] then loaded else LastOf(loaded + Numbered(|loaded|, entries), CAPACITY))
            && EntriesFaithful(Reached(loaded, trace), trace, entries)
  {
    HistoryOfTrace(loaded, trace);
    HistoryLaw(loaded, Entries(loaded, trace));
    AlwaysEntriesFaithful(loaded, trace);
  }

  // ----- The gate can always reopen -----

  lemma SetSequence(rs: set<TestResult>) returns (tests: seq<TestResult>)
    ensures multiset(tests) == multiset(rs)
    decreases rs
  {
    if rs == {} {
      tests := [];
    } else {
      var r :| r in rs;
      tests := SetSequence(rs - {r});
      tests := tests + [r];
      assert multiset(rs) == multiset(rs - {r}) + multiset{r};
    }
  }

  lemma SummaryExists(results: map<string, TestResult>) returns (s: Summary)
    ensures IsSummary(results, s)
  {
    var top := TopResults(results);
    var tests := SetSequence(top);
    var sorted := ListingExists(tests);
    s := Summary(sorted, |top|, |WithStatus(top, Passed)|, |WithStatus(top, Failed)|, |WithStatus(top, Skipped)|);
  }

  lemma Extended(loaded: seq<RunResult>, trace: seq<Step>, step: Step)
    requires Valid(loaded, trace) && Enabled(Reached(loaded, trace), step)
    ensures Valid(loaded, trace + [step])
    ensures Reached(loaded, trace + [step]) == After(Reached(loaded, trace), step)
  {
    SnocPrefix(trace, step);
  }

  /** How many steps the live run is from its end, at the least. */
  function Distance(run: Run): nat {
    match run
    case Launching(_) => 3
    case Starting(_, _) => 2
    case Scanning(_, _, _, _, behind) => if behind then 1 else 0
  }

  lemma {:induction false} FinishRun(loaded: seq<RunResult>, trace: seq<Step>, r: nat) returns (longer: seq<Step>)
    requires Valid(loaded, trace) && r in Reached(loaded, trace).runs
    ensures Valid(loaded, longer) && trace <= longer && !Reached(loaded, longer).shared.running
    decreases Distance(Reached(loaded, trace).runs[r])
  {
    AlwaysFaithful(loaded, trace);
    var run := Reached(loaded, trace).runs[r];
    if run.Scanning? && !run.behind {
      var s := SummaryExists(run.gathered.results);
      Extended(loaded, trace, Commit(r, 0, s));
      longer := trace + [Commit(r, 0, s)];
    } else {
      var step := if run.Launching? then Launch(r, 0) else if run.Starting? then BeginScan(r) else GatherLine(r);
      Extended(loaded, trace, step);
      longer := FinishRun(loaded, trace + [step], r);
    }
  }

  /** From every reachable world some continuation opens the gate again. */
  lemma GateReopens(loaded: seq<RunResult>, trace: seq<Step>) returns (longer: seq<Step>)
    requires Valid(loaded, trace)
    ensures Valid(loaded, longer) && trace <= longer && !Reached(loaded, longer).shared.running
  {
    AlwaysExclusive(loaded, trace);
    var w := Reached(loaded, trace);
    if w.shared.running {
      var r :| r in w.runs;
      longer := FinishRun(loaded, trace, r);
    } else {
      longer := trace;
    }
  }
}
