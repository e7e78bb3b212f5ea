/** The panel's shared state: the run gate, the live log and the history.  Each method is one
    critical section under the panel's mutex. */
module Panel {
  import opened Options
  import opened Histories
  import opened Decimals

  datatype Shared = Shared(running: bool, log: string, history: seq<RunResult>)

  // ----- What each critical section does -----

  function Accepted(s: Shared): Shared {
    if s.running then s else Shared(true, "", s.history)
  }

  function Abandoned(s: Shared, error: string): Shared {
    Shared(false, "Failed to start: " + error, s.history)
  }

  function Logged(s: Shared, text: string): Shared {
    s.(log := s.log + text + "\n")
  }

  function Committed(s: Shared, run: RunResult): Shared {
    Shared(false, s.log, Recorded(s.history, run))
  }

  // ----- The critical sections -----

  datatype RunReply = MethodNotAllowed | AlreadyRunning | Started(host: string)

  const DEFAULT_HOST := "192.168.1.9"

  datatype Reply = MissingId | NotFound | Detail(run: RunResult)

  const DETAIL_PATH := "/api/history/"

  /** What follows the handler's own path. */
  function AfterPrefix(path: string): string {
    if DETAIL_PATH <= path then path[|DETAIL_PATH|..] else path
  }

  /** The text before the first slash. */
  function FirstSegment(path: string): string {
    if path == "" || path[0] == '/' then "" else [path[0]] + FirstSegment(path[1..])
  }

  /** The identifier a path asks for: none when the segment is empty, and zero, the variable's
      initial value, when the segment does not scan. */
  function RequestedId(path: string): Option<int> {
    var segment := FirstSegment(AfterPrefix(path));
    if segment == "" then None
    else
      match ScanSigned(segment)
      case Some(id) => Some(id)
      case None => Some(0)
  }

  class State {
    var running: bool
    var runLog: string
    var history: seq<RunResult>

    /** The state the program starts in: idle, with the history it loads. */
    constructor (loaded: seq<RunResult>)
      ensures Value() == Shared(false, "", loaded)
    {
      running, runLog, history := false, "", loaded;
    }

    function Value(): Shared
      reads this
    {
      Shared(running, runLog, history)
    }

    /** A POST starts a run only when none is in progress; any other method is refused. */
    method HandleRun(post: bool, host: string) returns (reply: RunReply)
      modifies this
      ensures reply.Started? <==> post && !old(running)
      ensures reply.MethodNotAllowed? <==> !post
      ensures reply.Started? ==> reply.host == if host == "" then DEFAULT_HOST else host
      ensures Value() == if post then Accepted(old(Value())) else old(Value())
    {
      if !post {
        return MethodNotAllowed;
      }
      if running {
        return AlreadyRunning;
      }
      running := true;
      runLog := "";
      return Started(if host == "" then DEFAULT_HOST else host);
    }

    /** Either way of failing to start the child process. */
    method Abandon(error: string)
      modifies this
      ensures Value() == Abandoned(old(Value()), error)
    {
      running := false;
      runLog := "Failed to start: " + error;
    }

    method Log(line: string)
      modifies this`runLog
      ensures Value() == Logged(old(Value()), line)
    {
      runLog := runLog + line + "\n";
    }

    /** Numbers the run, appends it, and keeps the last hundred. */
    method Commit(result: RunResult)
      modifies this
      ensures Value() == Committed(old(Value()), result)
    {
      var run := result.(id := |history| + 1);
      history := history + [run];
      if |history| > CAPACITY {
        history := history[|history| - CAPACITY..];
      }
      running := false;
    }

    /** Finds the oldest retained run with the identifier in the path. */
    method HistoryDetail(path: string) returns (reply: Reply)
      ensures reply == match RequestedId(path)
                       case None => MissingId
                       case Some(id) =>
                         match Lookup(history, id)
                         case None => NotFound
                         case Some(run) => Detail(run)
    {
      var part := FirstSegment(AfterPrefix(path));
      if part == "" {
        return MissingId;
      }
      var id := 0;
      var scanned := ScanSigned(part);
      if scanned.Some? {
        id := scanned.value;
      }
      for i := 0 to |history|
        invariant forall j :: 0 <= j < i ==> history[j].id != id
      {
        var h := history[i];
        if h.id == id {
          LookupFirst(history, i);
          return Detail(h);
        }
      }
      LookupAbsent(history, id);
      return NotFound;
    }
  }

  // ----- Asking for a run -----

  /** A path that ends in nothing or in further segments. */
  predicate EndsSegment(rest: string) {
    rest == "" || rest[0] == '/'
  }

  lemma {:induction false} SegmentOfDigits(digits: string, rest: string)
    requires AllDigits(digits) && EndsSegment(rest)
    ensures FirstSegment(digits + rest) == digits
  {
    if digits == "" {
      assert digits + rest == rest;
    } else {
      SegmentOfDigits(digits[1..], rest);
      assert (digits + rest)[1..] == digits[1..] + rest;
      assert digits == [digits[0]] + digits[1..];
    }
  }

  /** The path with a number's digits asks for that number. */
  lemma {:induction false} RequestOf(n: nat, rest: string)
    requires n < INT64_LIMIT && EndsSegment(rest)
    ensures RequestedId(DETAIL_PATH + (Digits(n) + rest)) == Some(n)
  {
    var digits := Digits(n);
    assert AfterPrefix(DETAIL_PATH + (digits + rest)) == digits + rest;
    SegmentOfDigits(digits, rest);
    DigitsBound(n);
    ScanDigits(digits, "");
    assert digits + "" == digits;
  }

  /** The page of a retained run's own identifier shows that very run exactly when it is one
      of the first 101 completed runs, or the oldest run retained.  (Runs count from zero.) */
  lemma {:induction false} OwnPageExactly(runs: seq<RunResult>, h: seq<RunResult>, i: nat, rest: string)
    requires h == RecordedAll([], runs) && i < |h| && EndsSegment(rest)
    ensures h[i].id >= 0 && RequestedId(DETAIL_PATH + (Digits(h[i].id) + rest)) == Some(h[i].id)
    ensures Position(h, h[i].id) == i <==> |runs| - |h| + i < 101 || i == 0
  {
    RetainedEntry(runs, h, i);
    RequestOf(h[i].id, rest);
    RetrievableExactly(runs, h, i);
  }
}
