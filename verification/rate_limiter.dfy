/** The sliding-window limiter on completion calls: at most `maxCalls`
    calls whose timestamps lie strictly inside the last `window` seconds.
    The clock is an explicit `now` argument and the lock is left out. */
module RateLimiter {
  import opened Base
  import opened Text

  const DefaultRateLimit := 100
  const WindowSeconds := 3600

  datatype Limiter = Limiter(maxCalls: int, window: int, stamps: seq<int>)

  /** The constructor: a missing or zero `maxCalls` falls back to the
      `OPENAI_RATE_LIMIT` setting (`env`, already parsed), else to 100. */
  function NewLimiter(maxCalls: Option<int>, env: Option<int>, window: int): (r: Limiter)
    ensures r.stamps == [] && r.window == window
    ensures maxCalls.Some? && maxCalls.value != 0 ==> r.maxCalls == maxCalls.value
    ensures (maxCalls.None? || maxCalls.value == 0) && env.None? ==> r.maxCalls == DefaultRateLimit
  {
    var m := if maxCalls.Some? && maxCalls.value != 0 then maxCalls.value else env.GetOr(DefaultRateLimit);
    Limiter(m, window, [])
  }

  /** A timestamp still inside a window that opened at `cutoff`. */
  function After(cutoff: int): int -> bool {
    (t: int) => t > cutoff
  }

  /** The timestamps strictly after `cutoff`, in order: the list
      comprehension `[t for t in stamps if t > cutoff]`. */
  function Prune(stamps: seq<int>, cutoff: int): (r: seq<int>)
    ensures |r| <= |stamps|
    ensures forall t :: t in r <==> t in stamps && t > cutoff
    decreases |stamps|
  {
    if |stamps| == 0 then []
    else if stamps[0] > cutoff then [stamps[0]] + Prune(stamps[1..], cutoff)
    else Prune(stamps[1..], cutoff)
  }

  /** Pruning keeps exactly the stamps after the cutoff, in their order. */
  lemma {:induction false} PruneIsFilter(stamps: seq<int>, cutoff: int)
    ensures Prune(stamps, cutoff) == Filter(stamps, After(cutoff))
    decreases |stamps|
  {
    if |stamps| > 0 {
      PruneIsFilter(stamps[1..], cutoff);
    }
  }

  /** `check()`: drops the timestamps that left the window, then allows a
      call iff fewer than `maxCalls` remain. */
  function Check(l: Limiter, now: int): (r: (Limiter, bool))
    ensures r.0 == l.(stamps := Prune(l.stamps, now - l.window))
    ensures r.1 <==> |Prune(l.stamps, now - l.window)| < l.maxCalls
  {
    var kept := Prune(l.stamps, now - l.window);
    (l.(stamps := kept), |kept| < l.maxCalls)
  }

  /** `record()`: appends exactly one timestamp. */
  function Record(l: Limiter, now: int): (r: Limiter)
    ensures r.stamps == l.stamps + [now]
    ensures r.maxCalls == l.maxCalls && r.window == l.window
  {
    l.(stamps := l.stamps + [now])
  }

  datatype Acquired = Granted(limiter: Limiter) | Exceeded(limiter: Limiter, message: string)

  function ExceededMessage(l: Limiter): string {
    "OpenAI rate limit exceeded: " + IntToString(l.maxCalls) + " calls per "
    + IntToString(l.window / 60) + " minutes. Try again later."
  }

  /** `acquire()`: a refused call raises and records nothing; an allowed
      one records exactly one timestamp after the pruning. */
  function Acquire(l: Limiter, now: int): (r: Acquired)
    ensures r.Exceeded? <==> !Check(l, now).1
    ensures r.Exceeded? ==> r.limiter == Check(l, now).0
    ensures r.Granted? ==> r.limiter.stamps == Prune(l.stamps, now - l.window) + [now]
    ensures r.limiter.maxCalls == l.maxCalls && r.limiter.window == l.window
  {
    var (checked, ok) := Check(l, now);
    if !ok then Exceeded(checked, ExceededMessage(l)) else Granted(Record(checked, now))
  }

  /** `calls_made`: the number of recorded timestamps inside the window. */
  function CallsMade(l: Limiter, now: int): (r: nat)
    ensures r == |Check(l, now).0.stamps|
    ensures r == CountIf(l.stamps, After(now - l.window))
  {
    CountIfIsFilterLength(l.stamps, After(now - l.window));
    PruneIsFilter(l.stamps, now - l.window);
    |Prune(l.stamps, now - l.window)|
  }

  /** `calls_remaining`: what is left of the budget, never negative. */
  function CallsRemaining(l: Limiter, now: int): (r: nat)
    ensures r == 0 <==> !Check(l, now).1
    ensures r > 0 ==> r + CountIf(l.stamps, After(now - l.window)) == l.maxCalls
    ensures r == 0 ==> CountIf(l.stamps, After(now - l.window)) >= l.maxCalls
  {
    Max(0, l.maxCalls - CallsMade(l, now))
  }

  /** Pruning twice at the same instant changes nothing more. */
  lemma {:induction false} PruneIdempotent(stamps: seq<int>, cutoff: int)
    ensures Prune(Prune(stamps, cutoff), cutoff) == Prune(stamps, cutoff)
    decreases |stamps|
  {
    if |stamps| > 0 {
      PruneIdempotent(stamps[1..], cutoff);
      if stamps[0] > cutoff {
        assert ([stamps[0]] + Prune(stamps[1..], cutoff))[1..] == Prune(stamps[1..], cutoff);
      }
    }
  }

  /** Stamps all inside the window are all kept. */
  lemma {:induction false} PruneKeepsRecent(stamps: seq<int>, cutoff: int)
    requires forall i :: 0 <= i < |stamps| ==> stamps[i] > cutoff
    ensures Prune(stamps, cutoff) == stamps
    decreases |stamps|
  {
    if |stamps| > 0 {
      PruneKeepsRecent(stamps[1..], cutoff);
    }
  }

  /** Stamps all outside the window are all dropped. */
  lemma {:induction false} PruneDropsOld(stamps: seq<int>, cutoff: int)
    requires forall i :: 0 <= i < |stamps| ==> stamps[i] <= cutoff
    ensures Prune(stamps, cutoff) == []
    decreases |stamps|
  {
    if |stamps| > 0 {
      PruneDropsOld(stamps[1..], cutoff);
    }
  }

  /** Once `maxCalls` calls sit inside the window, the next check refuses. */
  lemma FullWindowRefuses(l: Limiter, now: int)
    requires |l.stamps| >= l.maxCalls
    requires forall i :: 0 <= i < |l.stamps| ==> l.stamps[i] > now - l.window
    ensures !Check(l, now).1
    ensures Acquire(l, now).Exceeded?
  {
    PruneKeepsRecent(l.stamps, now - l.window);
    FullRefuses(l, now);
  }

  lemma FullRefuses(l: Limiter, now: int)
    requires |Prune(l.stamps, now - l.window)| >= l.maxCalls
    ensures !Check(l, now).1 && Acquire(l, now).Exceeded?
  {
  }

  /** When every recorded call has aged out, a positive budget allows again. */
  lemma AgedOutAllows(l: Limiter, now: int)
    requires l.maxCalls > 0
    requires forall i :: 0 <= i < |l.stamps| ==> l.stamps[i] <= now - l.window
    ensures Check(l, now).1
    ensures CallsRemaining(l, now) == l.maxCalls
  {
    PruneDropsOld(l.stamps, now - l.window);
  }

  /** With a constant clock, `maxCalls` acquisitions from an empty limiter
      are granted and the next one is refused. */
  lemma {:induction false} AcquireUpToLimit(l: Limiter, now: int, k: nat)
    requires l.window > 0 && 0 <= k <= l.maxCalls
    requires |l.stamps| == k && forall i :: 0 <= i < k ==> l.stamps[i] == now
    ensures k < l.maxCalls ==> Acquire(l, now).Granted? && |Acquire(l, now).limiter.stamps| == k + 1
    ensures k == l.maxCalls ==> Acquire(l, now).Exceeded?
  {
    PruneKeepsRecent(l.stamps, now - l.window);
  }
}
