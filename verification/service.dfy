/** The processor service's polling loop: the consecutive-error counter,
    the exponential backoff between cycles and the three ways the loop
    ends. Each cycle's outcome is an input; sleeping is not modelled
    beyond the wait it would take. */
module ProcessorService {
  import opened Base

  const MaxConsecutiveErrors := 10
  const BackoffCap := 300
  const DefaultPollInterval := 30

  /** `_calculate_backoff`: the poll interval after a success, else the
      interval doubled per further error, capped at five minutes. */
  function Backoff(errors: nat, poll: int): (r: int)
    ensures errors == 0 ==> r == poll
    ensures errors > 0 ==> r <= BackoffCap
    ensures errors > 0 && poll >= 0 ==> r >= 0
    ensures errors > 0 && poll * Pow2(errors - 1) <= BackoffCap ==> r == poll * Pow2(errors - 1)
  {
    if errors == 0 then poll else Min(poll * Pow2(errors - 1), BackoffCap)
  }

  lemma {:induction false} Pow2Monotone(j: nat, k: nat)
    requires j <= k
    ensures Pow2(j) <= Pow2(k)
    decreases k
  {
    if j < k {
      Pow2Monotone(j, k - 1);
    }
  }

  /** More errors never shorten the wait. */
  lemma BackoffMonotone(j: nat, k: nat, poll: int)
    requires 1 <= j <= k && poll >= 0
    ensures Backoff(j, poll) <= Backoff(k, poll)
  {
    Pow2Monotone(j - 1, k - 1);
    ScaleMonotone(poll, Pow2(j - 1), Pow2(k - 1));
  }

  lemma ScaleMonotone(c: int, x: int, y: int)
    requires c >= 0 && x <= y
    ensures c * x <= c * y
  {
    var d := y - x;
    assert c * y == c * x + c * d;
  }

  /** With the default 30-second poll the waits are 30, 30, 60, 120, 240
      and then 300: four errors give 240 seconds, not the 300 the method's
      doc comment announces. */
  lemma DefaultBackoffSchedule(k: nat)
    requires k >= 5
    ensures Backoff(0, 30) == 30 && Backoff(1, 30) == 30 && Backoff(2, 30) == 60
    ensures Backoff(3, 30) == 120 && Backoff(4, 30) == 240 && Backoff(k, 30) == 300
  {
    assert Pow2(4) == 16;
    Pow2Monotone(4, k - 1);
  }

  /** The schedule the doc comment of `_calculate_backoff` announces:
      the code's waits up to three errors, then five minutes from the
      fourth error on. */
  function DocumentedBackoff(errors: nat, poll: int): (r: int)
    ensures errors >= 4 ==> r == BackoffCap
    ensures errors > 0 ==> r <= BackoffCap
    ensures errors < 4 ==> r == Backoff(errors, poll)
  {
    if errors >= 4 then BackoffCap else Backoff(errors, poll)
  }

  /** With the default poll the documented waits are 30, 30, 60, 120 and
      then 300; the two schedules part at exactly four errors. */
  lemma DocumentedBackoffSchedule(k: nat)
    requires k >= 4
    ensures DocumentedBackoff(0, 30) == 30 && DocumentedBackoff(1, 30) == 30 && DocumentedBackoff(2, 30) == 60
    ensures DocumentedBackoff(3, 30) == 120 && DocumentedBackoff(k, 30) == 300
    ensures DocumentedBackoff(4, 30) != Backoff(4, 30)
    ensures k >= 5 ==> DocumentedBackoff(k, 30) == Backoff(k, 30)
  {
    assert Pow2(2) == 4;
    DefaultBackoffSchedule(k + 1);
    if k >= 5 {
      DefaultBackoffSchedule(k);
    }
  }

  /** What one polling cycle does. */
  datatype CycleResult = Processed(count: nat) | Raised | KeyboardInterrupt

  /** A cycle and whether a shutdown signal cleared `running` during it. */
  datatype Cycle = Cycle(result: CycleResult, stopRequested: bool)

  datatype ExitReason = Signalled | Interrupted | TooManyErrors | OutOfInput

  datatype RunResult = RunResult(cycles: nat, errors: nat, waits: seq<int>, reason: ExitReason)

  /** Consecutive failures at the end of a history: a success resets
      the count, an interrupt leaves it. */
  function ErrorRun(s: seq<Cycle>): nat {
    if |s| == 0 then 0
    else match s[|s| - 1].result
      case Raised => ErrorRun(s[..|s| - 1]) + 1
      case Processed(_) => 0
      case KeyboardInterrupt => ErrorRun(s[..|s| - 1])
  }

  /** A cycle after which the loop goes on to sleep and poll again. */
  predicate Continues(s: seq<Cycle>, i: nat)
    requires i < |s|
  {
    !s[i].result.KeyboardInterrupt? && !s[i].stopRequested && ErrorRun(s[..i + 1]) < MaxConsecutiveErrors
  }

  /** `ProcessorService.run` after start-up. */
  method Run(cycles: seq<Cycle>, poll: int) returns (r: RunResult)
    ensures r.cycles <= |cycles|
    ensures r.errors == ErrorRun(cycles[..r.cycles])
    ensures r.errors <= MaxConsecutiveErrors
    ensures r.reason == TooManyErrors <==> r.errors == MaxConsecutiveErrors
    ensures r.reason == OutOfInput ==> r.cycles == |cycles|
    ensures r.reason != OutOfInput ==> r.cycles >= 1
    ensures r.reason == Interrupted ==> cycles[r.cycles - 1].result.KeyboardInterrupt?
    ensures r.reason == TooManyErrors ==> cycles[r.cycles - 1].result.Raised?
    ensures r.reason == Signalled ==> cycles[r.cycles - 1].stopRequested
    ensures forall i :: 0 <= i < r.cycles && (i < r.cycles - 1 || r.reason == OutOfInput) ==> Continues(cycles, i)
    ensures |r.waits| == if r.reason == OutOfInput then r.cycles else r.cycles - 1
    ensures forall i :: 0 <= i < |r.waits| ==> r.waits[i] == Backoff(ErrorRun(cycles[..i + 1]), poll)
  {
    var errors: nat := 0;
    var waits: seq<int> := [];
    var i := 0;
    while i < |cycles|
      invariant 0 <= i <= |cycles|
      invariant errors == ErrorRun(cycles[..i]) && errors < MaxConsecutiveErrors
      invariant |waits| == i
      invariant forall j :: 0 <= j < i ==> Continues(cycles, j)
      invariant forall j :: 0 <= j < i ==> waits[j] == Backoff(ErrorRun(cycles[..j + 1]), poll)
    {
      var c := cycles[i];
      assert cycles[..i + 1][..i] == cycles[..i];
      match c.result {
        case Processed(_) =>
          errors := 0;
        case KeyboardInterrupt =>
          return RunResult(i + 1, errors, waits, Interrupted);
        case Raised =>
          errors := errors + 1;
          if errors >= MaxConsecutiveErrors {
            return RunResult(i + 1, errors, waits, TooManyErrors);
          }
      }
      if c.stopRequested {
        return RunResult(i + 1, errors, waits, Signalled);
      }
      waits := waits + [Backoff(errors, poll)];
      i := i + 1;
    }
    assert cycles[..i] == cycles;
    r := RunResult(i, errors, waits, OutOfInput);
  }

  lemma {:induction false} AllRaisedErrorRun(s: seq<Cycle>)
    requires forall i :: 0 <= i < |s| ==> s[i].result.Raised?
    ensures ErrorRun(s) == |s|
    decreases |s|
  {
    if |s| > 0 {
      AllRaisedErrorRun(s[..|s| - 1]);
    }
  }

  /** Ten failing cycles in a row from the start stop the service after
      exactly ten cycles, unless a signal stops it first. */
  lemma TenFailuresStop(cycles: seq<Cycle>, n: nat)
    requires n <= |cycles| && n <= MaxConsecutiveErrors
    requires forall i :: 0 <= i < n ==> cycles[i].result.Raised?
    ensures n < MaxConsecutiveErrors ==> ErrorRun(cycles[..n]) == n
    ensures n == MaxConsecutiveErrors ==> !Continues(cycles, n - 1)
  {
    AllRaisedErrorRun(cycles[..n]);
    if n == MaxConsecutiveErrors {
      assert cycles[..n - 1 + 1] == cycles[..n];
    }
  }
}
