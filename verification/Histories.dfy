/** The bounded run history: which runs it retains, which identifiers they carry, and what
    a lookup by identifier finds. */
module Histories {
  import opened Options
  import opened Summaries

  const CAPACITY: nat := 100

  datatype RunResult = RunResult(id: int, started: int, finished: int, duration: real, host: string, summary: Summary)

  /** The last `n` entries, or all of them. */
  function LastOf<T>(s: seq<T>, n: nat): seq<T> {
    if |s| > n then s[|s| - n..] else s
  }

  /** The history after one more run: number it, append it, drop what exceeds the capacity. */
  function Recorded(history: seq<RunResult>, run: RunResult): seq<RunResult> {
    LastOf(history + [run.(id := |history| + 1)], CAPACITY)
  }

  function RecordedAll(history: seq<RunResult>, runs: seq<RunResult>): seq<RunResult> {
    if runs == [] then history
    else Recorded(RecordedAll(history, runs[..|runs| - 1]), runs[|runs| - 1])
  }

  // ----- Closed form -----

  /** The identifier of the `k`-th completed run, counting from zero, after a history of
      `before` entries. */
  function IdAt(before: nat, k: nat): int {
    if k == 0 || before + k < CAPACITY then before + k + 1 else CAPACITY + 1
  }

  function Numbered(before: nat, runs: seq<RunResult>): (r: seq<RunResult>)
    ensures |r| == |runs|
    ensures forall k :: 0 <= k < |r| ==> r[k] == runs[k].(id := IdAt(before, k))
  {
    seq(|runs|, k requires 0 <= k < |runs| => runs[k].(id := IdAt(before, k)))
  }

  lemma LastOfLastOf<T>(s: seq<T>, x: T, n: nat)
    ensures LastOf(LastOf(s, n) + [x], n) == LastOf(s + [x], n)
  {
  }

  /** After any runs, the history is the last hundred of the earlier entries followed by the
      numbered runs; before any run, it is whatever was loaded. */
  lemma {:induction false} HistoryLaw(history: seq<RunResult>, runs: seq<RunResult>)
    ensures RecordedAll(history, runs)
         == if runs == [] then history else LastOf(history + Numbered(|history|, runs), CAPACITY)
  {
    if runs != [] {
      var n := |runs| - 1;
      HistoryLaw(history, runs[..n]);
      LawStep(history, runs, n, RecordedAll(history, runs[..n]));
    }
  }

  lemma LawStep(history: seq<RunResult>, runs: seq<RunResult>, n: nat, before: seq<RunResult>)
    requires |runs| == n + 1
    requires before == if n == 0 then history else LastOf(history + Numbered(|history|, runs[..n]), CAPACITY)
    ensures Recorded(before, runs[n]) == LastOf(history + Numbered(|history|, runs), CAPACITY)
  {
    var numbered, last := Numbered(|history|, runs[..n]), runs[n].(id := IdAt(|history|, n));
    assert Numbered(|history|, runs) == numbered + [last];
    assert history + (numbered + [last]) == (history + numbered) + [last];
    if n == 0 {
      assert history + numbered == history;
    } else {
      LastOfLastOf(history + numbered, last, CAPACITY);
    }
  }

  /** From an empty history, the `k`-th run (from one) has identifier `k` up to 101, and every
      later run has 101; the last hundred are retained in order. */
  lemma {:induction false} HistoryFromEmpty(runs: seq<RunResult>)
    ensures RecordedAll([], runs) == LastOf(Numbered(0, runs), CAPACITY)
    ensures forall k :: 0 <= k < |runs| ==> Numbered(0, runs)[k].id == if k < 101 then k + 1 else 101
  {
    HistoryLaw([], runs);
    assert [] + Numbered(0, runs) == Numbered(0, runs);
  }

  ghost predicate DistinctIds(history: seq<RunResult>) {
    forall i, j :: 0 <= i < j < |history| ==> history[i].id != history[j].id
  }

  lemma RetainedEntry(runs: seq<RunResult>, h: seq<RunResult>, i: nat)
    requires h == RecordedAll([], runs) && i < |h|
    ensures |h| <= |runs| && h[i].id == IdAt(0, |runs| - |h| + i)
  {
    HistoryFromEmpty(runs);
  }

  lemma SameIdAt(k: nat, l: nat)
    requires k < l
    ensures IdAt(0, k) == IdAt(0, l) <==> k >= CAPACITY
  {
  }

  /** Two retained runs share an identifier exactly when the earlier one is past the first hundred. */
  lemma SharedIdentifier(runs: seq<RunResult>, h: seq<RunResult>, i: nat, j: nat)
    requires h == RecordedAll([], runs) && i < j < |h|
    ensures h[i].id == h[j].id <==> |runs| - |h| + i >= CAPACITY
  {
    RetainedEntry(runs, h, i);
    RetainedEntry(runs, h, j);
    SameIdAt(|runs| - |h| + i, |runs| - |h| + j);
  }

  lemma RetainedLength(runs: seq<RunResult>)
    ensures |RecordedAll([], runs)| == if |runs| > CAPACITY then CAPACITY else |runs|
  {
    HistoryFromEmpty(runs);
  }

  /** Retained identifiers are pairwise distinct exactly while at most 101 runs completed. */
  lemma {:induction false} IdsDistinctExactly(runs: seq<RunResult>)
    ensures DistinctIds(RecordedAll([], runs)) <==> |runs| <= CAPACITY + 1
  {
    var h := RecordedAll([], runs);
    RetainedLength(runs);
    if |runs| <= CAPACITY + 1 {
      forall i, j | 0 <= i < j < |h| ensures h[i].id != h[j].id {
        SharedIdentifier(runs, h, i, j);
      }
    } else {
      SharedIdentifier(runs, h, |h| - 2, |h| - 1);
    }
  }

  // ----- Lookup -----

  /** Where the first entry with this identifier is, or the length when there is none. */
  function Position(history: seq<RunResult>, id: int): (i: nat)
    ensures i <= |history|
  {
    if history == [] || history[0].id == id then 0 else 1 + Position(history[1..], id)
  }

  function Lookup(history: seq<RunResult>, id: int): Option<RunResult> {
    var i := Position(history, id);
    if i < |history| then Some(history[i]) else None
  }

  lemma {:induction false} LookupFirst(history: seq<RunResult>, i: nat)
    requires i < |history| && forall j :: 0 <= j < i ==> history[j].id != history[i].id
    ensures Position(history, history[i].id) == i && Lookup(history, history[i].id) == Some(history[i])
  {
    if i > 0 {
      assert history[0].id != history[i].id;
      LookupFirst(history[1..], i - 1);
    }
  }

  lemma {:induction false} LookupAbsent(history: seq<RunResult>, id: int)
    ensures Lookup(history, id) == None <==> forall i :: 0 <= i < |history| ==> history[i].id != id
  {
    if history != [] {
      LookupAbsent(history[1..], id);
      assert forall i :: 0 <= i < |history[1..]| ==> history[1..][i] == history[i + 1];
      assert forall i :: 1 <= i < |history| ==> history[i] == history[1..][i - 1];
    }
  }

  /** The position found has the identifier, and none before it does. */
  lemma {:induction false} PositionIsFirst(history: seq<RunResult>, id: int)
    ensures var i := Position(history, id);
            && (i < |history| ==> history[i].id == id)
            && forall j :: 0 <= j < i ==> history[j].id != id
  {
    if history != [] && history[0].id != id {
      PositionIsFirst(history[1..], id);
      assert forall j :: 1 <= j < |history| ==> history[j] == history[1..][j - 1];
    }
  }

  /** Looking up a retained run's own identifier finds that very entry exactly when it is one
      of the first 101 completed runs, or the oldest run retained.  (Runs count from zero.) */
  lemma {:induction false} RetrievableExactly(runs: seq<RunResult>, h: seq<RunResult>, i: nat)
    requires h == RecordedAll([], runs) && i < |h|
    ensures Position(h, h[i].id) == i <==> |runs| - |h| + i < 101 || i == 0
  {
    RetainedLength(runs);
    if |runs| - |h| + i < 101 {
      forall j | 0 <= j < i ensures h[j].id != h[i].id {
        SharedIdentifier(runs, h, j, i);
      }
      LookupFirst(h, i);
    } else if i > 0 {
      SharedIdentifier(runs, h, i - 1, i);
      PositionIsFirst(h, h[i].id);
    } else {
      LookupFirst(h, i);
    }
  }
}
