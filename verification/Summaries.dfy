/** The summary of a run: its top-level tests in order, and how many ended in each way. */
module Summaries {
  import opened TestEvents

  /** Subtests carry a slash in their names. */
  predicate TopLevel(name: string) {
    '/' !in name
  }

  ghost predicate Named(results: map<string, TestResult>) {
    forall n :: n in results ==> results[n].name == n
  }

  /** The results, among those under these keys, that a summary lists. */
  ghost function TopAmong(results: map<string, TestResult>, keys: set<string>): set<TestResult> {
    set n | n in keys && n in results && TopLevel(n) :: results[n]
  }

  ghost function TopResults(results: map<string, TestResult>): set<TestResult> {
    TopAmong(results, results.Keys)
  }

  ghost function WithStatus(rs: set<TestResult>, status: Status): set<TestResult> {
    set r | r in rs && r.status == status
  }

  // ----- The order -----

  /** A test without a final status ranks with the failures. */
  function Rank(status: Status): nat {
    match status
    case Failed => 0
    case Skipped => 1
    case Passed => 2
    case Unfinished => 0
  }

  predicate NameBefore(a: string, b: string) {
    if b == "" then false
    else if a == "" then true
    else a[0] < b[0] || (a[0] == b[0] && NameBefore(a[1..], b[1..]))
  }

  predicate Before(a: TestResult, b: TestResult) {
    if Rank(a.status) != Rank(b.status) then Rank(a.status) < Rank(b.status)
    else NameBefore(a.name, b.name)
  }

  lemma {:induction false} NameIrreflexive(a: string)
    ensures !NameBefore(a, a)
  {
    if a != "" {
      NameIrreflexive(a[1..]);
    }
  }

  lemma {:induction false} NameTransitive(a: string, b: string, c: string)
    requires NameBefore(a, b) && NameBefore(b, c)
    ensures NameBefore(a, c)
  {
    if a != "" && a[0] == b[0] && b[0] == c[0] {
      NameTransitive(a[1..], b[1..], c[1..]);
    }
  }

  lemma {:induction false} NameTotal(a: string, b: string)
    ensures NameBefore(a, b) || NameBefore(b, a) || a == b
  {
    if a != "" && b != "" && a[0] == b[0] {
      NameTotal(a[1..], b[1..]);
      assert a == [a[0]] + a[1..] && b == [b[0]] + b[1..];
    }
  }

  /** The order is strict, transitive, and compares any two results of different names. */
  lemma BeforeIsStrictOrder(a: TestResult, b: TestResult, c: TestResult)
    ensures !Before(a, a)
    ensures Before(a, b) && Before(b, c) ==> Before(a, c)
    ensures a.name != b.name ==> Before(a, b) || Before(b, a)
  {
    NameIrreflexive(a.name);
    NameTotal(a.name, b.name);
    if NameBefore(a.name, b.name) && NameBefore(b.name, c.name) {
      NameTransitive(a.name, b.name, c.name);
    }
  }

  // ----- Sorted listings -----

  ghost predicate DistinctNames(rs: set<TestResult>) {
    forall a, b :: a in rs && b in rs && a.name == b.name ==> a == b
  }

  /** What a sort with this order guarantees: no element precedes an earlier one. */
  predicate Sorted(tests: seq<TestResult>) {
    forall i, j :: 0 <= i < j < |tests| ==> !Before(tests[j], tests[i])
  }

  ghost predicate IsListing(rs: set<TestResult>, tests: seq<TestResult>) {
    multiset(tests) == multiset(rs) && Sorted(tests)
  }

  lemma ListedIffMember(rs: set<TestResult>, tests: seq<TestResult>, r: TestResult)
    requires multiset(tests) == multiset(rs)
    ensures r in tests <==> r in rs
  {
    assert r in multiset(tests) <==> r in multiset(rs);
  }

  lemma TailContents(tests: seq<TestResult>)
    requires tests != []
    ensures multiset(tests[1..]) == multiset(tests) - multiset{tests[0]}
  {
    assert tests == [tests[0]] + tests[1..];
  }

  lemma SetWithout(rs: set<TestResult>, r: TestResult)
    requires r in rs
    ensures multiset(rs - {r}) == multiset(rs) - multiset{r}
  {
  }

  lemma SortedTail(tests: seq<TestResult>)
    requires Sorted(tests) && tests != []
    ensures Sorted(tests[1..])
  {
  }

  lemma ListingTail(rs: set<TestResult>, tests: seq<TestResult>)
    requires IsListing(rs, tests) && tests != []
    ensures tests[0] in rs && IsListing(rs - {tests[0]}, tests[1..])
  {
    ListedIffMember(rs, tests, tests[0]);
    TailContents(tests);
    SetWithout(rs, tests[0]);
    SortedTail(tests);
  }

  lemma SameHead(rs: set<TestResult>, s: seq<TestResult>, t: seq<TestResult>)
    requires DistinctNames(rs) && IsListing(rs, s) && IsListing(rs, t) && s != [] && t != []
    ensures s[0] == t[0]
  {
    ListedIffMember(rs, s, s[0]);
    ListedIffMember(rs, t, s[0]);
    ListedIffMember(rs, t, t[0]);
    ListedIffMember(rs, s, t[0]);
    var i :| 0 <= i < |t| && t[i] == s[0];
    var j :| 0 <= j < |s| && s[j] == t[0];
    BeforeIsStrictOrder(s[0], t[0], s[0]);
  }

  /** Whatever order the results were visited in and however the sort breaks ties, there
      is one sorted listing. */
  lemma {:induction false} ListingUnique(rs: set<TestResult>, s: seq<TestResult>, t: seq<TestResult>)
    requires DistinctNames(rs) && IsListing(rs, s) && IsListing(rs, t)
    ensures s == t
    decreases |s|
  {
    assert |s| == |multiset(s)| && |t| == |multiset(t)|;
    if s != [] {
      SameHead(rs, s, t);
      ListingTail(rs, s);
      ListingTail(rs, t);
      ListingUnique(rs - {s[0]}, s[1..], t[1..]);
      assert s == [s[0]] + s[1..] && t == [t[0]] + t[1..];
    }
  }

  /** Puts a result into a sorted listing. */
  ghost function Inserted(r: TestResult, tests: seq<TestResult>): seq<TestResult> {
    if tests == [] || Before(r, tests[0]) then [r] + tests
    else [tests[0]] + Inserted(r, tests[1..])
  }

  lemma {:induction false} InsertedContents(r: TestResult, tests: seq<TestResult>)
    ensures multiset(Inserted(r, tests)) == multiset(tests) + multiset{r}
  {
    if tests != [] && !Before(r, tests[0]) {
      InsertedContents(r, tests[1..]);
      assert tests == [tests[0]] + tests[1..];
    }
  }

  lemma InsertedMember(r: TestResult, tests: seq<TestResult>, x: TestResult)
    requires x in Inserted(r, tests)
    ensures x == r || x in tests
  {
    InsertedContents(r, tests);
    assert x in multiset(Inserted(r, tests));
  }

  lemma SortedCons(h: TestResult, tests: seq<TestResult>)
    requires Sorted(tests) && forall i :: 0 <= i < |tests| ==> !Before(tests[i], h)
    ensures Sorted([h] + tests)
  {
  }

  lemma {:induction false} InsertedSorted(r: TestResult, tests: seq<TestResult>)
    requires Sorted(tests)
    ensures Sorted(Inserted(r, tests))
  {
    if tests == [] {
    } else if Before(r, tests[0]) {
      forall i | 0 <= i < |tests| ensures !Before(tests[i], r) {
        BeforeIsStrictOrder(tests[i], r, tests[0]);
        BeforeIsStrictOrder(tests[0], r, tests[0]);
      }
      SortedCons(r, tests);
    } else {
      var rest := Inserted(r, tests[1..]);
      InsertedSorted(r, tests[1..]);
      forall i | 0 <= i < |rest| ensures !Before(rest[i], tests[0]) {
        InsertedMember(r, tests[1..], rest[i]);
      }
      SortedCons(tests[0], rest);
    }
  }

  /** Any results have a sorted listing. */
  lemma {:induction false} ListingExists(tests: seq<TestResult>) returns (sorted: seq<TestResult>)
    ensures multiset(sorted) == multiset(tests) && Sorted(sorted)
  {
    if tests == [] {
      sorted := [];
    } else {
      var before := ListingExists(tests[1..]);
      sorted := Inserted(tests[0], before);
      InsertedContents(tests[0], before);
      InsertedSorted(tests[0], before);
      assert tests == [tests[0]] + tests[1..];
    }
  }

  // ----- Summaries -----

  datatype Summary = Summary(tests: seq<TestResult>, total: nat, passed: nat, failed: nat, skipped: nat)

  /** The listed tests are these results, and the counters count them. */
  ghost predicate Tallies(top: set<TestResult>, s: Summary) {
    && multiset(s.tests) == multiset(top)
    && s.total == |top|
    && s.passed == |WithStatus(top, Passed)|
    && s.failed == |WithStatus(top, Failed)|
    && s.skipped == |WithStatus(top, Skipped)|
  }

  ghost predicate IsSummary(results: map<string, TestResult>, s: Summary) {
    Tallies(TopResults(results), s) && Sorted(s.tests)
  }

  lemma TopNamesDistinct(results: map<string, TestResult>, keys: set<string>)
    requires Named(results)
    ensures DistinctNames(TopAmong(results, keys))
  {
  }

  /** A run's results have one summary. */
  lemma SummaryUnique(results: map<string, TestResult>, s: Summary, t: Summary)
    requires Named(results) && IsSummary(results, s) && IsSummary(results, t)
    ensures s == t
  {
    TopNamesDistinct(results, results.Keys);
    ListingUnique(TopResults(results), s.tests, t.tests);
  }

  lemma {:induction false} GatheredNames(events: seq<Event>)
    ensures Named(Gather(events).results)
  {
    if events != [] {
      GatheredNames(events[..|events| - 1]);
    }
  }

  lemma SetSizes(rs: set<TestResult>, tests: seq<TestResult>)
    requires multiset(tests) == multiset(rs)
    ensures |tests| == |rs|
  {
    assert |multiset(tests)| == |tests| && |multiset(rs)| == |rs|;
  }

  lemma DisjointSizes(a: set<TestResult>, b: set<TestResult>)
    requires a !! b
    ensures |a + b| == |a| + |b|
  {
  }

  lemma StatusesDisjoint(top: set<TestResult>, a: Status, b: Status)
    requires a != b
    ensures WithStatus(top, a) !! WithStatus(top, b)
  {
  }

  lemma StatusesCover(top: set<TestResult>)
    ensures top == (WithStatus(top, Passed) + WithStatus(top, Failed))
                   + (WithStatus(top, Skipped) + WithStatus(top, Unfinished))
  {
  }

  lemma Partition(top: set<TestResult>)
    ensures |top| == |WithStatus(top, Passed)| + |WithStatus(top, Failed)|
                     + |WithStatus(top, Skipped)| + |WithStatus(top, Unfinished)|
  {
    StatusesCover(top);
    StatusesDisjoint(top, Passed, Failed);
    StatusesDisjoint(top, Skipped, Unfinished);
    DisjointSizes(WithStatus(top, Passed), WithStatus(top, Failed));
    DisjointSizes(WithStatus(top, Skipped), WithStatus(top, Unfinished));
    DisjointSizes(WithStatus(top, Passed) + WithStatus(top, Failed),
                  WithStatus(top, Skipped) + WithStatus(top, Unfinished));
  }

  /** Every listed test is counted once: as passed, failed, skipped or unfinished. */
  lemma Conservation(results: map<string, TestResult>, s: Summary)
    requires IsSummary(results, s)
    ensures s.total == |s.tests|
    ensures s.total == s.passed + s.failed + s.skipped + |WithStatus(TopResults(results), Unfinished)|
  {
    SetSizes(TopResults(results), s.tests);
    Partition(TopResults(results));
  }

  // ----- Percentages -----

  function Percent(part: nat, total: nat): real {
    if total > 0 then part as real * 100.0 / total as real else 0.0
  }

  /** The three shares never exceed 100 percent, and reach it exactly when there are tests
      and every one of them finished. */
  lemma PercentagesBound(results: map<string, TestResult>, s: Summary)
    requires IsSummary(results, s)
    ensures var sum := Percent(s.passed, s.total) + Percent(s.failed, s.total) + Percent(s.skipped, s.total);
            && 0.0 <= sum <= 100.0
            && (sum == 100.0 <==> s.total > 0 && WithStatus(TopResults(results), Unfinished) == {})
  {
    Conservation(results, s);
    if s.total > 0 {
      var t, c := s.total as real, (s.passed + s.failed + s.skipped) as real;
      SharesAdd(s.passed as real, s.failed as real, s.skipped as real, t);
      ShareBound(c, t);
    }
  }

  lemma Cancel(x: real, y: real, t: real)
    requires t > 0.0 && x * t == y * t
    ensures x == y
  {
    assert (x - y) * t == 0.0;
  }

  lemma QuotientTimes(x: real, t: real)
    requires t > 0.0
    ensures (x / t) * t == x
  {
  }

  lemma QuotientsAdd(x: real, y: real, t: real)
    requires t > 0.0
    ensures x / t + y / t == (x + y) / t
  {
    QuotientTimes(x, t);
    QuotientTimes(y, t);
    QuotientTimes(x + y, t);
    Cancel(x / t + y / t, (x + y) / t, t);
  }

  lemma SharesAdd(a: real, b: real, c: real, t: real)
    requires t > 0.0
    ensures a * 100.0 / t + b * 100.0 / t + c * 100.0 / t == (a + b + c) * 100.0 / t
  {
    QuotientsAdd(a * 100.0, b * 100.0, t);
    QuotientsAdd(a * 100.0 + b * 100.0, c * 100.0, t);
  }

  lemma QuotientSign(d: real, t: real)
    requires d >= 0.0 && t > 0.0
    ensures d / t >= 0.0 && (d / t == 0.0 <==> d == 0.0)
  {
    assert (d / t) * t == d;
  }

  lemma ShareBound(c: real, t: real)
    requires 0.0 <= c <= t && t > 0.0
    ensures 0.0 <= c * 100.0 / t <= 100.0 && (c * 100.0 / t == 100.0 <==> c == t)
  {
    QuotientSign(c * 100.0, t);
    QuotientSign((t - c) * 100.0, t);
    Complement(c, t);
  }

  lemma Complement(c: real, t: real)
    requires t > 0.0
    ensures 100.0 - c * 100.0 / t == (t - c) * 100.0 / t
  {
    QuotientsAdd(c * 100.0, (t - c) * 100.0, t);
    QuotientTimes(100.0 * t, t);
    Cancel(100.0 * t / t, 100.0, t);
    assert c * 100.0 + (t - c) * 100.0 == 100.0 * t;
  }

  // ----- Summing up, over the records of a run -----

  lemma AddKey(results: map<string, TestResult>, done: set<string>, n: string)
    requires Named(results) && n in results && n !in done
    ensures TopLevel(n) ==> TopAmong(results, done + {n}) == TopAmong(results, done) + {results[n]}
    ensures TopLevel(n) ==> results[n] !in TopAmong(results, done)
    ensures !TopLevel(n) ==> TopAmong(results, done + {n}) == TopAmong(results, done)
  {
  }

  lemma AddResult(rs: set<TestResult>, r: TestResult, status: Status)
    requires r !in rs
    ensures |WithStatus(rs + {r}, status)| == |WithStatus(rs, status)| + if r.status == status then 1 else 0
  {
    if r.status == status {
      assert WithStatus(rs + {r}, status) == WithStatus(rs, status) + {r};
    } else {
      assert WithStatus(rs + {r}, status) == WithStatus(rs, status);
    }
  }

  /** The tally with one more result. */
  function Counted(s: Summary, r: TestResult): Summary {
    Summary(s.tests + [r], s.total + 1,
            s.passed + (if r.status == Passed then 1 else 0),
            s.failed + (if r.status == Failed then 1 else 0),
            s.skipped + (if r.status == Skipped then 1 else 0))
  }

  lemma CountOne(top: set<TestResult>, s: Summary, r: TestResult)
    requires Tallies(top, s) && r !in top
    ensures Tallies(top + {r}, Counted(s, r))
  {
    AddResult(top, r, Passed);
    AddResult(top, r, Failed);
    AddResult(top, r, Skipped);
    assert multiset(top + {r}) == multiset(top) + multiset{r};
  }

  lemma SortedTally(results: map<string, TestResult>, s: Summary, tests: seq<TestResult>)
    requires Tallies(TopResults(results), s) && multiset(tests) == multiset(s.tests) && Sorted(tests)
    ensures IsSummary(results, s.(tests := tests))
  {
  }

  lemma VisitOne(results: map<string, TestResult>, done: set<string>, n: string, s: Summary)
    requires Named(results) && n in results && n !in done && Tallies(TopAmong(results, done), s)
    ensures results[n].name == n
    ensures Tallies(TopAmong(results, done + {n}), if TopLevel(n) then Counted(s, results[n]) else s)
  {
    AddKey(results, done, n);
    if TopLevel(n) {
      CountOne(TopAmong(results, done), s, results[n]);
    }
  }

  /** The tally, when `remaining` have yet to be visited, is that of all the others. */
  ghost predicate TalliesVisited(results: map<string, TestResult>, remaining: set<string>, s: Summary) {
    Tallies(TopAmong(results, results.Keys - remaining), s)
  }

  lemma VisitNext(results: map<string, TestResult>, remaining: set<string>, n: string, s: Summary)
    requires Named(results) && remaining <= results.Keys && n in remaining && TalliesVisited(results, remaining, s)
    ensures results[n].name == n
    ensures TalliesVisited(results, remaining - {n}, if TopLevel(n) then Counted(s, results[n]) else s)
  {
    VisitOne(results, results.Keys - remaining, n, s);
    assert results.Keys - remaining + {n} == results.Keys - (remaining - {n});
  }

  lemma NothingVisited(results: map<string, TestResult>)
    ensures TalliesVisited(results, results.Keys, Summary([], 0, 0, 0, 0))
  {
    assert TopAmong(results, results.Keys - results.Keys) == {};
    assert WithStatus({}, Passed) == WithStatus({}, Failed) == WithStatus({}, Skipped) == {};
  }

  lemma AllVisited(results: map<string, TestResult>, s: Summary)
    requires TalliesVisited(results, {}, s)
    ensures Tallies(TopResults(results), s)
  {
    assert results.Keys - {} == results.Keys;
  }

  /** Adds one result to the list and to the counter of its status. */
  method Count(s: Summary, tr: TestResult) returns (run: Summary)
    ensures run == Counted(s, tr)
  {
    run := s.(tests := s.tests + [tr]);
    run := run.(total := run.total + 1);
    match tr.status {
      case Passed => run := run.(passed := run.passed + 1);
      case Failed => run := run.(failed := run.failed + 1);
      case Skipped => run := run.(skipped := run.skipped + 1);
      case Unfinished =>
    }
  }

  /** Rearranges the list so that the order is kept.  Any such arrangement may be returned. */
  method Sort(tests: seq<TestResult>) returns (sorted: seq<TestResult>)
    ensures multiset(sorted) == multiset(tests) && Sorted(sorted)
  {
    ghost var arranged := ListingExists(tests);
    sorted :| multiset(sorted) == multiset(tests) && Sorted(sorted);
  }

  /** Visits the records in any order, lists and counts the top-level ones, and sorts the list. */
  method Summarise(records: map<string, TestRecord>) returns (run: Summary)
    requires Named(Contents(records))
    ensures IsSummary(Contents(records), run)
  {
    ghost var results := Contents(records);
    run := Summary([], 0, 0, 0, 0);
    var remaining := records.Keys;
    NothingVisited(results);
    while remaining != {}
      invariant remaining <= results.Keys && TalliesVisited(results, remaining, run)
      decreases remaining
    {
      var name :| name in remaining;
      VisitNext(results, remaining, name, run);
      remaining := remaining - {name};
      var tr := records[name].Value();
      if '/' in tr.name {
        continue;
      }
      run := Count(run, tr);
    }
    AllVisited(results, run);
    var sorted := Sort(run.tests);
    SortedTally(results, run, sorted);
    run := run.(tests := sorted);
  }
}
