/** The batch report generator: the panel's evaluation written a second time, over lines that
    it decodes more strictly, and exactly when the two programs agree. */
module BatchReport {
  import opened Options
  import opened TestEvents
  import opened Summaries
  import opened Reports

  /** A printed line, the event in it, and whether the time and package fields, which only
      the batch generator decodes, are well formed. */
  datatype Printed = Printed(text: string, event: Option<Event>, timeDecodes: bool, packageDecodes: bool)

  function PanelLine(p: Printed): Line {
    Line(p.text, p.event)
  }

  function BatchLine(p: Printed): Line {
    Line(p.text, if p.timeDecodes && p.packageDecodes then p.event else None)
  }

  function PanelLines(ps: seq<Printed>): seq<Line> {
    seq(|ps|, i requires 0 <= i < |ps| => PanelLine(ps[i]))
  }

  function BatchLines(ps: seq<Printed>): seq<Line> {
    seq(|ps|, i requires 0 <= i < |ps| => BatchLine(ps[i]))
  }

  // ----- The generator -----

  datatype Report = Report(duration: real, summary: Summary, passPct: real, failPct: real, skipPct: real)

  lemma FailuresListed(results: map<string, TestResult>, s: Summary)
    requires IsSummary(results, s)
    ensures s.failed > 0 <==> exists t :: t in TopResults(results) && t.status == Failed
  {
    var failed := WithStatus(TopResults(results), Failed);
    if t :| t in TopResults(results) && t.status == Failed {
      assert t in failed;
    }
    if s.failed > 0 {
      var t :| t in failed;
    }
  }

  /** The first loop: decodes the lines and gathers their events. */
  method ReadEvents(ps: seq<Printed>) returns (records: map<string, TestRecord>, pkgElapsed: real)
    ensures Separate(records) && forall k :: k in records ==> fresh(records[k])
    ensures Contents(records) == Gather(Decoded(BatchLines(ps))).results
    ensures pkgElapsed == Gather(Decoded(BatchLines(ps))).duration
  {
    ghost var lines := BatchLines(ps);
    records, pkgElapsed := map[], 0.0;
    ghost var g := START;
    for i := 0 to |ps|
      invariant Separate(records) && forall k :: k in records ==> fresh(records[k])
      invariant Contents(records) == g.results && pkgElapsed == g.duration
      invariant g == Gather(Decoded(lines[..i]))
    {
      GatherNext(lines, i);
      if ps[i].event.None? || !ps[i].timeDecodes || !ps[i].packageDecodes {
        continue;
      }
      var ev := ps[i].event.value;
      ghost var before := g;
      g := Absorb(before, ev);
      if ev.test == "" {
        if ev.action == Pass || ev.action == Fail {
          pkgElapsed := ev.elapsed;
        }
        continue;
      }
      AbsorbNamed(before, ev);
      records := Note(records, ev);
    }
    assert lines[..|lines|] == lines;
  }

  /** The second loop: lists the top-level results and counts them. */
  method CountResults(records: map<string, TestRecord>) returns (report: Summary)
    requires Named(Contents(records))
    ensures Tallies(TopResults(Contents(records)), report)
  {
    ghost var results := Contents(records);
    report := Summary([], 0, 0, 0, 0);
    var remaining := records.Keys;
    NothingVisited(results);
    while remaining != {}
      invariant remaining <= results.Keys && TalliesVisited(results, remaining, report)
      decreases remaining
    {
      var name :| name in remaining;
      VisitNext(results, remaining, name, report);
      remaining := remaining - {name};
      var tr := records[name].Value();
      if '/' in tr.name {
        continue;
      }
      report := report.(tests := report.tests + [tr], total := report.total + 1);
      match tr.status {
        case Passed => report := report.(passed := report.passed + 1);
        case Failed => report := report.(failed := report.failed + 1);
        case Skipped => report := report.(skipped := report.skipped + 1);
        case Unfinished =>
      }
    }
    AllVisited(results, report);
  }

  /** The shares of the counters in the total, which are zero when there are no tests. */
  method Shares(s: Summary) returns (passPct: real, failPct: real, skipPct: real)
    ensures passPct == Percent(s.passed, s.total)
    ensures failPct == Percent(s.failed, s.total)
    ensures skipPct == Percent(s.skipped, s.total)
  {
    passPct, failPct, skipPct := 0.0, 0.0, 0.0;
    if s.total > 0 {
      passPct := s.passed as real * 100.0 / s.total as real;
      failPct := s.failed as real * 100.0 / s.total as real;
      skipPct := s.skipped as real * 100.0 / s.total as real;
    }
  }

  /** Reads, counts, takes the shares, sorts, and exits with 1 when the page cannot be
      written or a listed test failed. */
  method GenerateReport(ps: seq<Printed>, written: bool) returns (r: Report, exitCode: nat)
    ensures IsReport(BatchLines(ps), r.duration, r.summary)
    ensures r.passPct == Percent(r.summary.passed, r.summary.total)
    ensures r.failPct == Percent(r.summary.failed, r.summary.total)
    ensures r.skipPct == Percent(r.summary.skipped, r.summary.total)
    ensures exitCode == 0 || exitCode == 1
    ensures exitCode == 1 <==>
            !written || exists t :: t in TopResults(Gather(Decoded(BatchLines(ps))).results) && t.status == Failed
  {
    ghost var results := Gather(Decoded(BatchLines(ps))).results;
    GatheredNames(Decoded(BatchLines(ps)));
    var records, pkgElapsed := ReadEvents(ps);
    var counted := CountResults(records);
    var passPct, failPct, skipPct := Shares(counted);
    var sorted := Sort(counted.tests);
    SortedTally(results, counted, sorted);
    r := Report(pkgElapsed, counted.(tests := sorted), passPct, failPct, skipPct);
    FailuresListed(results, r.summary);
    exitCode := if !written || counted.failed > 0 then 1 else 0;
  }

  // ----- The two programs side by side -----

  /** On any output, the panel and the batch generator report the same exactly when what the
      batch generator decodes tells the same, of every top-level test and of the package, as
      what the panel decodes. */
  lemma TwinsAgreeExactly(ps: seq<Printed>, x: real, s: Summary, y: real, t: Summary)
    requires IsReport(PanelLines(ps), x, s) && IsReport(BatchLines(ps), y, t)
    ensures x == y && s == t <==> SameReported(Decoded(PanelLines(ps)), Decoded(BatchLines(ps)))
  {
    ReportsEqualExactly(PanelLines(ps), BatchLines(ps), x, s, y, t);
  }

  /** In particular when every event line decodes completely. */
  lemma TwinsAgree(ps: seq<Printed>, x: real, s: Summary, y: real, t: Summary)
    requires forall i :: 0 <= i < |ps| && ps[i].event.Some? ==> ps[i].timeDecodes && ps[i].packageDecodes
    requires IsReport(PanelLines(ps), x, s) && IsReport(BatchLines(ps), y, t)
    ensures x == y && s == t
  {
    assert PanelLines(ps) == BatchLines(ps);
    TwinsAgreeExactly(ps, x, s, y, t);
  }

  /** A malformed time field can make them differ: here only the panel sees the test. */
  lemma TwinsDiffer(x: real, s: Summary, y: real, t: Summary)
    requires var ps := [Printed("", Some(Event(Pass, "T", "", 1.0)), false, true)];
             IsReport(PanelLines(ps), x, s) && IsReport(BatchLines(ps), y, t)
    ensures s.total == 1 && t.total == 0
  {
    var ev := Event(Pass, "T", "", 1.0);
    var ps := [Printed("", Some(ev), false, true)];
    assert PanelLines(ps)[..0] == [] && BatchLines(ps)[..0] == [];
    assert Decoded(PanelLines(ps)) == [] + [ev];
    assert Decoded(BatchLines(ps)) == [];
    assert [ev][..0] == [];
    assert Gather([ev]) == Absorb(START, ev);
    var r := Updated(Untouched("T"), ev);
    assert Gather([ev]).results == map["T" := r];
    assert TopResults(map["T" := r]) == {r};
    assert TopResults(map[]) == {};
  }
}
