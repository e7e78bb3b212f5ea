/** The event stream of a test run and its fold into one result per test. */
module TestEvents {
  import opened Options

  datatype Action = Pass | Fail | Skip | Output | OtherAction

  datatype Event = Event(action: Action, test: string, output: string, elapsed: real)

  /** One line of output: its text, and the event it decodes to, if any. */
  datatype Line = Line(text: string, event: Option<Event>)

  datatype Status = Unfinished | Failed | Skipped | Passed

  datatype TestResult = TestResult(name: string, status: Status, elapsed: real, output: string)

  /** What a run has gathered: a result per test name, and the package's duration. */
  datatype Gathered = Gathered(results: map<string, TestResult>, duration: real)

  const START := Gathered(map[], 0.0)

  function Untouched(name: string): TestResult {
    TestResult(name, Unfinished, 0.0, "")
  }

  function Updated(t: TestResult, ev: Event): TestResult {
    match ev.action
    case Pass => TestResult(t.name, Passed, ev.elapsed, t.output)
    case Fail => TestResult(t.name, Failed, ev.elapsed, t.output)
    case Skip => TestResult(t.name, Skipped, ev.elapsed, t.output)
    case Output => TestResult(t.name, t.status, t.elapsed, t.output + ev.output)
    case OtherAction => t
  }

  /** Events without a test name concern the whole package. */
  function Absorb(g: Gathered, ev: Event): Gathered {
    if ev.test == "" then
      if ev.action == Pass || ev.action == Fail then g.(duration := ev.elapsed) else g
    else
      var current := if ev.test in g.results then g.results[ev.test] else Untouched(ev.test);
      g.(results := g.results[ev.test := Updated(current, ev)])
  }

  function Gather(events: seq<Event>): Gathered {
    if events == [] then START
    else Absorb(Gather(events[..|events| - 1]), events[|events| - 1])
  }

  /** The events of the lines that decode. */
  function Decoded(lines: seq<Line>): seq<Event> {
    if lines == [] then []
    else
      var before, last := Decoded(lines[..|lines| - 1]), lines[|lines| - 1];
      if last.event.Some? then before + [last.event.value] else before
  }

  // ----- What the fold makes of one test -----

  /** The events that carry this test name, in order. */
  function Project(events: seq<Event>, test: string): seq<Event> {
    if events == [] then []
    else
      var before, last := Project(events[..|events| - 1], test), events[|events| - 1];
      if last.test == test then before + [last] else before
  }

  function ResultOf(name: string, events: seq<Event>): TestResult {
    if events == [] then Untouched(name)
    else Updated(ResultOf(name, events[..|events| - 1]), events[|events| - 1])
  }

  function DurationOf(events: seq<Event>): real {
    if events == [] then 0.0
    else
      var last := events[|events| - 1];
      if last.action == Pass || last.action == Fail then last.elapsed
      else DurationOf(events[..|events| - 1])
  }

  lemma SnocPrefix<T>(s: seq<T>, x: T)
    ensures (s + [x])[..|s + [x]| - 1] == s && (s + [x])[|s + [x]| - 1] == x
  {
  }

  /** A named test is among the results exactly when it has events, and its result is the
      fold of its own events alone. */
  lemma {:induction false} GatheredResult(events: seq<Event>, t: string)
    requires t != ""
    ensures t in Gather(events).results <==> Project(events, t) != []
    ensures t in Gather(events).results ==> Gather(events).results[t] == ResultOf(t, Project(events, t))
  {
    if events != [] {
      var before, last := events[..|events| - 1], events[|events| - 1];
      GatheredResult(before, t);
      SnocPrefix(Project(before, t), last);
    }
  }

  lemma {:induction false} OnlyNamedTests(events: seq<Event>)
    ensures "" !in Gather(events).results
  {
    if events != [] {
      OnlyNamedTests(events[..|events| - 1]);
    }
  }

  /** The duration is the fold of the package's own events alone. */
  lemma {:induction false} GatheredDuration(events: seq<Event>)
    ensures Gather(events).duration == DurationOf(Project(events, ""))
  {
    if events != [] {
      var before, last := events[..|events| - 1], events[|events| - 1];
      GatheredDuration(before);
      SnocPrefix(Project(before, ""), last);
    }
  }

  /** However parallel tests interleave, each test's events and the package's events
      determine everything that is gathered. */
  lemma {:induction false} InterleavingIrrelevant(a: seq<Event>, b: seq<Event>)
    requires forall t :: Project(a, t) == Project(b, t)
    ensures Gather(a) == Gather(b)
  {
    var x, y := Gather(a), Gather(b);
    OnlyNamedTests(a);
    OnlyNamedTests(b);
    forall t: string
      ensures t in x.results <==> t in y.results
      ensures t in x.results ==> x.results[t] == y.results[t]
    {
      if t != "" {
        GatheredResult(a, t);
        GatheredResult(b, t);
      }
    }
    assert x.results == y.results;
    GatheredDuration(a);
    GatheredDuration(b);
  }

  // ----- What a single result says -----

  function OutputsOf(events: seq<Event>): string {
    if events == [] then ""
    else
      var before, last := OutputsOf(events[..|events| - 1]), events[|events| - 1];
      if last.action == Output then before + last.output else before
  }

  /** The status and time a test ends with. */
  datatype Verdict = Verdict(status: Status, elapsed: real)

  /** What the last final event says, if there is one. */
  function LastVerdict(events: seq<Event>): Verdict {
    if events == [] then Verdict(Unfinished, 0.0)
    else
      var last := events[|events| - 1];
      if IsFinal(last.action) then Verdict(StatusOf(last.action), last.elapsed)
      else LastVerdict(events[..|events| - 1])
  }

  predicate IsFinal(a: Action) {
    a == Pass || a == Fail || a == Skip
  }

  function StatusOf(a: Action): Status {
    match a
    case Pass => Passed
    case Fail => Failed
    case Skip => Skipped
    case _ => Unfinished
  }

  lemma {:induction false} NameAndOutput(name: string, events: seq<Event>)
    ensures ResultOf(name, events).name == name
    ensures ResultOf(name, events).output == OutputsOf(events)
  {
    if events != [] {
      NameAndOutput(name, events[..|events| - 1]);
    }
  }

  /** A result consists of its name, the last verdict and the outputs. */
  lemma {:induction false} ResultParts(name: string, events: seq<Event>)
    ensures var v := LastVerdict(events);
            ResultOf(name, events) == TestResult(name, v.status, v.elapsed, OutputsOf(events))
  {
    if events != [] {
      ResultParts(name, events[..|events| - 1]);
    }
  }

  /** A test's status and time are those of its last final event. */
  lemma {:induction false} LastFinalWins(name: string, events: seq<Event>, i: nat)
    requires i < |events| && IsFinal(events[i].action)
    requires forall j :: i < j < |events| ==> !IsFinal(events[j].action)
    ensures ResultOf(name, events).status == StatusOf(events[i].action)
    ensures ResultOf(name, events).elapsed == events[i].elapsed
  {
    if i < |events| - 1 {
      assert !IsFinal(events[|events| - 1].action);
      LastFinalWins(name, events[..|events| - 1], i);
    }
  }

  /** A test is unfinished exactly when it has no final event. */
  lemma {:induction false} UnfinishedMeaning(name: string, events: seq<Event>)
    ensures ResultOf(name, events).status == Unfinished
            <==> forall i :: 0 <= i < |events| ==> !IsFinal(events[i].action)
  {
    if events != [] {
      var n := |events| - 1;
      UnfinishedMeaning(name, events[..n]);
      assert forall i :: 0 <= i < n ==> events[i] == events[..n][i];
    }
  }

  // ----- The fold as the program runs it, over records updated in place -----

  class TestRecord {
    var name: string
    var status: Status
    var elapsed: real
    var output: string

    constructor (name: string)
      ensures Value() == Untouched(name)
    {
      this.name, this.status, this.elapsed, this.output := name, Unfinished, 0.0, "";
    }

    function Value(): TestResult
      reads this
    {
      TestResult(name, status, elapsed, output)
    }

    method Update(ev: Event)
      modifies this
      ensures Value() == Updated(old(Value()), ev)
    {
      match ev.action {
        case Pass =>
          status := Passed;
          elapsed := ev.elapsed;
        case Fail =>
          status := Failed;
          elapsed := ev.elapsed;
        case Skip =>
          status := Skipped;
          elapsed := ev.elapsed;
        case Output =>
          output := output + ev.output;
        case OtherAction =>
      }
    }
  }

  /** Every key has its own record. */
  ghost predicate Separate(records: map<string, TestRecord>) {
    forall j, k :: j in records && k in records && j != k ==> records[j] != records[k]
  }

  ghost function Contents(records: map<string, TestRecord>): map<string, TestResult>
    reads records.Values
  {
    map k | k in records :: records[k].Value()
  }

  /** Updates the record of the test the event names, which it creates if there is none. */
  method Note(records: map<string, TestRecord>, ev: Event) returns (updated: map<string, TestRecord>)
    requires Separate(records) && ev.test != ""
    modifies records.Values
    ensures Separate(updated)
    ensures forall k :: k in updated ==> (k in records && updated[k] == records[k]) || fresh(updated[k])
    ensures Contents(updated) == Absorb(Gathered(old(Contents(records)), 0.0), ev).results
  {
    updated := records;
    if ev.test !in updated {
      var r := new TestRecord(ev.test);
      updated := updated[ev.test := r];
    }
    var tr := updated[ev.test];
    tr.Update(ev);
  }

  /** The lines up to and including `i` gather what those before it do, and its event. */
  lemma GatherNext(lines: seq<Line>, i: nat)
    requires i < |lines|
    ensures Gather(Decoded(lines[..i + 1])) ==
            match lines[i].event
            case None => Gather(Decoded(lines[..i]))
            case Some(ev) => Absorb(Gather(Decoded(lines[..i])), ev)
  {
    assert lines[..i + 1][..i] == lines[..i];
    if lines[i].event.Some? {
      SnocPrefix(Decoded(lines[..i]), lines[i].event.value);
    }
  }

  lemma AbsorbNamed(g: Gathered, ev: Event)
    requires ev.test != ""
    ensures Absorb(g, ev).results == Absorb(Gathered(g.results, 0.0), ev).results
    ensures Absorb(g, ev).duration == g.duration
  {
  }

  /** Reads the lines one by one; an event without a test name is the package's. */
  method GatherLines(lines: seq<Line>) returns (records: map<string, TestRecord>, duration: real)
    ensures Separate(records) && forall k :: k in records ==> fresh(records[k])
    ensures Contents(records) == Gather(Decoded(lines)).results
    ensures duration == Gather(Decoded(lines)).duration
  {
    records, duration := map[], 0.0;
    ghost var g := START;
    for i := 0 to |lines|
      invariant Separate(records) && forall k :: k in records ==> fresh(records[k])
      invariant Contents(records) == g.results && duration == g.duration
      invariant g == Gather(Decoded(lines[..i]))
    {
      GatherNext(lines, i);
      if lines[i].event.None? {
        continue;
      }
      var ev := lines[i].event.value;
      ghost var before := g;
      g := Absorb(before, ev);
      if ev.test == "" {
        if ev.action == Pass || ev.action == Fail {
          duration := ev.elapsed;
        }
        continue;
      }
      AbsorbNamed(before, ev);
      records := Note(records, ev);
    }
    assert lines[..|lines|] == lines;
  }
}
