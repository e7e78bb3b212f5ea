/** What a run reports of the lines it reads, and exactly when two runs report the same. */
module Reports {
  import opened TestEvents
  import opened Summaries

  ghost predicate IsReport(lines: seq<Line>, duration: real, s: Summary) {
    var g := Gather(Decoded(lines));
    duration == g.duration && IsSummary(g.results, s)
  }

  /** The local part of the panel's run: gather, list, count and sort. */
  method Evaluate(lines: seq<Line>) returns (duration: real, run: Summary)
    ensures IsReport(lines, duration, run)
  {
    var records;
    records, duration := GatherLines(lines);
    GatheredNames(Decoded(lines));
    run := Summarise(records);
  }

  // ----- What a report depends on -----

  /** Two event sequences tell the same of one test: both or neither have events, the last
      final ones have the same status and time, and the outputs join to the same text. */
  predicate SameTold(a: seq<Event>, b: seq<Event>) {
    && (a == [] <==> b == [])
    && LastVerdict(a) == LastVerdict(b)
    && OutputsOf(a) == OutputsOf(b)
  }

  /** Two event streams tell the same of every top-level test, and end with the same package time. */
  ghost predicate SameReported(a: seq<Event>, b: seq<Event>) {
    && DurationOf(Project(a, "")) == DurationOf(Project(b, ""))
    && forall n :: n != "" && TopLevel(n) ==> SameTold(Project(a, n), Project(b, n))
  }

  /** The listed results are those of the top-level tests that have events. */
  lemma TopMember(events: seq<Event>, r: TestResult)
    ensures r in TopResults(Gather(events).results)
            <==> r.name != "" && TopLevel(r.name) && Project(events, r.name) != []
                 && r == ResultOf(r.name, Project(events, r.name))
  {
    var results := Gather(events).results;
    GatheredNames(events);
    OnlyNamedTests(events);
    if r.name != "" {
      GatheredResult(events, r.name);
    }
    assert r.name in results && TopLevel(r.name) ==> results[r.name] in TopResults(results);
  }

  lemma SameToldMember(a: seq<Event>, b: seq<Event>, r: TestResult)
    requires SameReported(a, b) && r in TopResults(Gather(a).results)
    ensures r in TopResults(Gather(b).results)
  {
    TopMember(a, r);
    TopMember(b, r);
    assert SameTold(Project(a, r.name), Project(b, r.name));
    ResultParts(r.name, Project(a, r.name));
    ResultParts(r.name, Project(b, r.name));
  }

  lemma MemberTold(a: seq<Event>, b: seq<Event>, n: string)
    requires n != "" && TopLevel(n) && Project(a, n) != []
    requires TopResults(Gather(a).results) == TopResults(Gather(b).results)
    ensures SameTold(Project(a, n), Project(b, n))
  {
    var r := ResultOf(n, Project(a, n));
    ResultParts(n, Project(a, n));
    ResultParts(n, Project(b, n));
    TopMember(a, r);
    TopMember(b, r);
  }

  lemma TopSame(a: seq<Event>, b: seq<Event>)
    ensures (Gather(a).duration == Gather(b).duration
             && TopResults(Gather(a).results) == TopResults(Gather(b).results))
            <==> SameReported(a, b)
  {
    GatheredDuration(a);
    GatheredDuration(b);
    if SameReported(a, b) {
      forall r ensures r in TopResults(Gather(a).results) <==> r in TopResults(Gather(b).results) {
        if r in TopResults(Gather(a).results) {
          SameToldMember(a, b, r);
        } else if r in TopResults(Gather(b).results) {
          SameToldMember(b, a, r);
        }
      }
    }
    if TopResults(Gather(a).results) == TopResults(Gather(b).results) {
      forall n | n != "" && TopLevel(n) ensures SameTold(Project(a, n), Project(b, n)) {
        if Project(a, n) != [] {
          MemberTold(a, b, n);
        } else if Project(b, n) != [] {
          MemberTold(b, a, n);
        }
      }
    }
  }

  lemma SameTop(a: set<TestResult>, b: set<TestResult>)
    requires multiset(a) == multiset(b)
    ensures a == b
  {
    assert forall r :: r in a <==> r in multiset(a);
    assert forall r :: r in b <==> r in multiset(b);
  }

  /** Any two outputs have the same report exactly when they tell the same of every top-level
      test and of the package, whatever the interleaving, the map order and the sort. */
  lemma {:induction false} ReportsEqualExactly(a: seq<Line>, b: seq<Line>, x: real, s: Summary, y: real, t: Summary)
    requires IsReport(a, x, s) && IsReport(b, y, t)
    ensures x == y && s == t <==> SameReported(Decoded(a), Decoded(b))
  {
    var g, h := Gather(Decoded(a)), Gather(Decoded(b));
    TopSame(Decoded(a), Decoded(b));
    GatheredNames(Decoded(a));
    if TopResults(g.results) == TopResults(h.results) {
      SummaryUnique(g.results, s, t);
    } else if s == t {
      SameTop(TopResults(g.results), TopResults(h.results));
    }
  }

  /** In particular when the lines carry the same events test by test, however interleaved. */
  lemma ReportDeterministic(a: seq<Line>, b: seq<Line>, x: real, s: Summary, y: real, t: Summary)
    requires forall n :: Project(Decoded(a), n) == Project(Decoded(b), n)
    requires IsReport(a, x, s) && IsReport(b, y, t)
    ensures x == y && s == t
  {
    ReportsEqualExactly(a, b, x, s, y, t);
  }
}
