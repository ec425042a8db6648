/** The bounded completion-retry loops: `call_with_retry` (rate limited,
    optional validator) and `translate_and_rewrite` (Hebrew validator, no
    limiter). The completion client is the sequence of replies it gives,
    one per call; past its end every call fails. Only the system prompt of
    the request parameters is modelled, since only it changes between
    attempts. */
module Retry {
  import opened Base
  import opened Text
  import opened Hebrew
  import opened RateLimiter

  /** One client call: the completion text (after the `.strip()` every
      caller applies to it), or an exception with its message. */
  datatype Reply = Ok(content: string) | Failed(error: string)

  /** The reply to the `i`-th call (counting from 0). */
  function ReplyAt(replies: seq<Reply>, i: nat): Reply {
    if i < |replies| then replies[i] else Failed("")
  }

  datatype Outcome = Returned(text: string) | Raised(message: string)

  /** What one run of a loop did: its outcome, the number of loop
      iterations, the system prompt sent with each client call, in order,
      and the limiter afterwards (absent for the unlimited loop). */
  datatype Run = Run(outcome: Outcome, attempts: nat, prompts: seq<string>, limiter: Option<Limiter>)

  /** The sentence appended to the system prompt after a rejected output. */
  function FailureNote(reason: string): string {
    "\n\nPREVIOUS ATTEMPT FAILED: " + reason + ". Please ensure output is primarily in Hebrew."
  }

  /** The validator accepts `t` (no validator accepts everything). */
  predicate Accepts(validator: Option<string -> Verdict>, t: string) {
    validator.None? || validator.value(t).valid
  }

  /** A reply the loop returns at once: a completion its validator accepts. */
  predicate Succeeds(reply: Reply, validator: Option<string -> Verdict>) {
    reply.Ok? && Accepts(validator, reply.content)
  }

  /** How the prompt of the next call follows from the reply to this one:
      a rejected completion appends the failure note, an exception leaves
      the prompt as it was. */
  predicate NextPrompt(prompt: string, reply: Reply, validator: Option<string -> Verdict>, next: string) {
    if reply.Ok? then validator.Some? && next == prompt + FailureNote(validator.value(reply.content).reason)
    else next == prompt
  }

  /** The head of the exception raised once the attempts are used up. */
  function ErrorHead(prefix: string, maxRetries: int): string {
    prefix + " error after " + IntToString(maxRetries + 1) + " attempts: "
  }

  function ErrorMessage(prefix: string, maxRetries: int, e: string): (r: string)
    ensures StartsWith(r, ErrorHead(prefix, maxRetries))
  {
    var h := ErrorHead(prefix, maxRetries);
    assert (h + e)[..|h|] == h;
    h + e
  }

  /** The prompts sent with consecutive calls `k`, `k + 1`, … : every
      reply but the last failed to end the loop, and each prompt follows
      from its predecessor's reply. */
  predicate Chain(ps: seq<string>, replies: seq<Reply>, k: nat, validator: Option<string -> Verdict>)
    decreases |ps|
  {
    |ps| <= 1
    || (!Succeeds(ReplyAt(replies, k), validator)
        && NextPrompt(ps[0], ReplyAt(replies, k), validator, ps[1])
        && Chain(ps[1..], replies, k + 1, validator))
  }

  /** The rate-limit gate in front of each call: always open without a
      limiter; with one, `acquire` decides and its refusal message is the
      exception text. */
  function Gate(lim: Option<Limiter>, now: int): (r: (bool, Option<Limiter>, string))
    ensures lim.Some? <==> r.1.Some?
    ensures lim.None? ==> r.0
    ensures lim.Some? ==> r.1.value.maxCalls == lim.value.maxCalls
    ensures lim.Some? && lim.value.maxCalls <= 0 ==> !r.0
    ensures lim.Some? ==> r.1.value.window == lim.value.window
    ensures !r.0 ==> lim.Some? && r.2 == ExceededMessage(lim.value)
  {
    match lim
    case None => (true, None, "")
    case Some(l) =>
      match Acquire(l, now)
      case Granted(l2) => (true, Some(l2), "")
      case Exceeded(l2, m) => (false, Some(l2), m)
  }

  /** The loop from iteration `a`, with `k` client calls made so far; the
      result describes iterations `a` onwards. */
  function Loop(maxRetries: int, a: nat, k: nat, prompt: string, validator: Option<string -> Verdict>,
                replies: seq<Reply>, clock: nat -> int, lim: Option<Limiter>, prefix: string): (r: Run)
    ensures a <= maxRetries ==> 1 <= r.attempts <= maxRetries + 1 - a
    ensures a > maxRetries ==> r == Run(Returned(""), 0, [], lim)
    ensures |r.prompts| <= r.attempts
    ensures lim.None? ==> |r.prompts| == r.attempts
    ensures r.outcome.Raised? ==>
      a + r.attempts == maxRetries + 1 && StartsWith(r.outcome.message, ErrorHead(prefix, maxRetries))
    ensures lim.Some? <==> r.limiter.Some?
    decreases maxRetries + 1 - a
  {
    if a > maxRetries then Run(Returned(""), 0, [], lim)
    else
      var g := Gate(lim, clock(a));
      var reply := ReplyAt(replies, k);
      if !g.0 then
        if a == maxRetries then Run(Raised(ErrorMessage(prefix, maxRetries, g.2)), 1, [], g.1)
        else
          var rest := Loop(maxRetries, a + 1, k, prompt, validator, replies, clock, g.1, prefix);
          Run(rest.outcome, rest.attempts + 1, rest.prompts, rest.limiter)
      else if reply.Failed? then
        if a == maxRetries then Run(Raised(ErrorMessage(prefix, maxRetries, reply.error)), 1, [prompt], g.1)
        else
          var rest := Loop(maxRetries, a + 1, k + 1, prompt, validator, replies, clock, g.1, prefix);
          Run(rest.outcome, rest.attempts + 1, [prompt] + rest.prompts, rest.limiter)
      else if Accepts(validator, reply.content) || a == maxRetries then Run(Returned(reply.content), 1, [prompt], g.1)
      else
        var next := prompt + FailureNote(validator.value(reply.content).reason);
        var rest := Loop(maxRetries, a + 1, k + 1, next, validator, replies, clock, g.1, prefix);
        Run(rest.outcome, rest.attempts + 1, [prompt] + rest.prompts, rest.limiter)
  }

  /** The prompts of a run start with the caller's and each follows from
      the reply to the call before it. */
  lemma {:induction false} LoopChain(maxRetries: int, a: nat, k: nat, prompt: string, validator: Option<string -> Verdict>,
                                     replies: seq<Reply>, clock: nat -> int, lim: Option<Limiter>, prefix: string)
    ensures var r := Loop(maxRetries, a, k, prompt, validator, replies, clock, lim, prefix);
      (|r.prompts| > 0 ==> r.prompts[0] == prompt) && Chain(r.prompts, replies, k, validator)
    decreases maxRetries + 1 - a
  {
    var g := Gate(lim, clock(a));
    var reply := ReplyAt(replies, k);
    if a < maxRetries {
      if !g.0 {
        LoopChain(maxRetries, a + 1, k, prompt, validator, replies, clock, g.1, prefix);
      } else if reply.Failed? {
        LoopChain(maxRetries, a + 1, k + 1, prompt, validator, replies, clock, g.1, prefix);
        ChainCons(prompt, Loop(maxRetries, a + 1, k + 1, prompt, validator, replies, clock, g.1, prefix).prompts, replies, k, validator);
      } else if !Accepts(validator, reply.content) {
        var next := prompt + FailureNote(validator.value(reply.content).reason);
        LoopChain(maxRetries, a + 1, k + 1, next, validator, replies, clock, g.1, prefix);
        ChainCons(prompt, Loop(maxRetries, a + 1, k + 1, next, validator, replies, clock, g.1, prefix).prompts, replies, k, validator);
      }
    }
  }

  /** A prompt put in front of a chain whose first prompt follows from it. */
  lemma ChainCons(p: string, ps: seq<string>, replies: seq<Reply>, k: nat, validator: Option<string -> Verdict>)
    requires Chain(ps, replies, k + 1, validator)
    requires |ps| > 0 ==> !Succeeds(ReplyAt(replies, k), validator) && NextPrompt(p, ReplyAt(replies, k), validator, ps[0])
    ensures Chain([p] + ps, replies, k, validator)
  {
    assert ([p] + ps)[1..] == ps;
  }

  /** A limiter with no budget refuses every attempt, so no call is made. */
  lemma {:induction false} NoBudgetNoCalls(maxRetries: int, a: nat, k: nat, prompt: string, validator: Option<string -> Verdict>,
                                           replies: seq<Reply>, clock: nat -> int, lim: Option<Limiter>, prefix: string)
    requires lim.Some? && lim.value.maxCalls <= 0
    ensures Loop(maxRetries, a, k, prompt, validator, replies, clock, lim, prefix).prompts == []
    decreases maxRetries + 1 - a
  {
    if a < maxRetries {
      NoBudgetNoCalls(maxRetries, a + 1, k, prompt, validator, replies, clock, Gate(lim, clock(a)).1, prefix);
    }
  }

  /** How a run ends. One that returns (rather than raising) returns the
      stripped text of its last call's completion, and that text is
      accepted unless the attempts ran out. One that raises does so on its
      final attempt, with either the exception of its last call or the
      limiter's refusal; so a last call whose completion came back is never
      turned into an exception. */
  predicate EndsLast(r: Run, replies: seq<Reply>, k: nat, validator: Option<string -> Verdict>,
                     lim: Option<Limiter>, prefix: string, a: nat, maxRetries: int) {
    && (r.outcome.Returned? ==>
          |r.prompts| > 0 && ReplyAt(replies, k + |r.prompts| - 1).Ok?
          && r.outcome.text == ReplyAt(replies, k + |r.prompts| - 1).content
          && (Accepts(validator, r.outcome.text) || a + r.attempts == maxRetries + 1))
    && (r.outcome.Raised? ==>
          || (|r.prompts| > 0 && ReplyAt(replies, k + |r.prompts| - 1).Failed?
              && r.outcome.message == ErrorMessage(prefix, maxRetries, ReplyAt(replies, k + |r.prompts| - 1).error))
          || (lim.Some? && r.outcome.message == ErrorMessage(prefix, maxRetries, ExceededMessage(lim.value))))
  }

  /** The refusal text depends on the limiter's budget and window only. */
  lemma SameRefusal(l1: Limiter, l2: Limiter)
    requires l1.maxCalls == l2.maxCalls && l1.window == l2.window
    ensures ExceededMessage(l1) == ExceededMessage(l2)
  {
  }

  /** One iteration refused by the limiter, then the rest of the loop. */
  lemma UnfoldRefused(maxRetries: int, a: nat, k: nat, prompt: string, validator: Option<string -> Verdict>,
                      replies: seq<Reply>, clock: nat -> int, lim: Option<Limiter>, prefix: string)
    requires a < maxRetries && !Gate(lim, clock(a)).0
    requires EndsLast(Loop(maxRetries, a + 1, k, prompt, validator, replies, clock, Gate(lim, clock(a)).1, prefix),
                      replies, k, validator, Gate(lim, clock(a)).1, prefix, a + 1, maxRetries)
    ensures EndsLast(Loop(maxRetries, a, k, prompt, validator, replies, clock, lim, prefix), replies, k, validator, lim, prefix, a, maxRetries)
  {
    var lim1 := Gate(lim, clock(a)).1;
    var rest := Loop(maxRetries, a + 1, k, prompt, validator, replies, clock, lim1, prefix);
    var r := Loop(maxRetries, a, k, prompt, validator, replies, clock, lim, prefix);
    assert r == Run(rest.outcome, rest.attempts + 1, rest.prompts, rest.limiter);
    EndsLastAfterRefusal(r, rest, replies, k, validator, lim, lim1, prefix, a, maxRetries);
  }

  lemma EndsLastAfterRefusal(r: Run, rest: Run, replies: seq<Reply>, k: nat,
                             validator: Option<string -> Verdict>, lim: Option<Limiter>, lim1: Option<Limiter>,
                             prefix: string, a: nat, maxRetries: int)
    requires r == Run(rest.outcome, rest.attempts + 1, rest.prompts, rest.limiter)
    requires lim.Some? <==> lim1.Some?
    requires lim.Some? ==> lim1.value.maxCalls == lim.value.maxCalls && lim1.value.window == lim.value.window
    requires EndsLast(rest, replies, k, validator, lim1, prefix, a + 1, maxRetries)
    ensures EndsLast(r, replies, k, validator, lim, prefix, a, maxRetries)
  {
    if lim.Some? {
      SameRefusal(lim1.value, lim.value);
    }
  }

  /** One iteration whose call failed, then the rest of the loop. */
  lemma UnfoldFailed(maxRetries: int, a: nat, k: nat, prompt: string, validator: Option<string -> Verdict>,
                     replies: seq<Reply>, clock: nat -> int, lim: Option<Limiter>, prefix: string)
    requires a < maxRetries && Gate(lim, clock(a)).0 && ReplyAt(replies, k).Failed?
    requires EndsLast(Loop(maxRetries, a + 1, k + 1, prompt, validator, replies, clock, Gate(lim, clock(a)).1, prefix),
                      replies, k + 1, validator, Gate(lim, clock(a)).1, prefix, a + 1, maxRetries)
    ensures EndsLast(Loop(maxRetries, a, k, prompt, validator, replies, clock, lim, prefix), replies, k, validator, lim, prefix, a, maxRetries)
  {
    var lim1 := Gate(lim, clock(a)).1;
    var rest := Loop(maxRetries, a + 1, k + 1, prompt, validator, replies, clock, lim1, prefix);
    var r := Loop(maxRetries, a, k, prompt, validator, replies, clock, lim, prefix);
    assert r == Run(rest.outcome, rest.attempts + 1, [prompt] + rest.prompts, rest.limiter);
    EndsLastAfterCall(r, rest, prompt, replies, k, validator, lim, lim1, prefix, a, maxRetries);
  }

  /** One iteration whose completion was rejected, then the rest of the loop. */
  lemma UnfoldRejected(maxRetries: int, a: nat, k: nat, prompt: string, validator: Option<string -> Verdict>,
                       replies: seq<Reply>, clock: nat -> int, lim: Option<Limiter>, prefix: string)
    requires a < maxRetries && Gate(lim, clock(a)).0 && ReplyAt(replies, k).Ok?
    requires !Accepts(validator, ReplyAt(replies, k).content)
    requires EndsLast(Loop(maxRetries, a + 1, k + 1, prompt + FailureNote(validator.value(ReplyAt(replies, k).content).reason),
                           validator, replies, clock, Gate(lim, clock(a)).1, prefix),
                      replies, k + 1, validator, Gate(lim, clock(a)).1, prefix, a + 1, maxRetries)
    ensures EndsLast(Loop(maxRetries, a, k, prompt, validator, replies, clock, lim, prefix), replies, k, validator, lim, prefix, a, maxRetries)
  {
    var lim1 := Gate(lim, clock(a)).1;
    var next := prompt + FailureNote(validator.value(ReplyAt(replies, k).content).reason);
    var rest := Loop(maxRetries, a + 1, k + 1, next, validator, replies, clock, lim1, prefix);
    var r := Loop(maxRetries, a, k, prompt, validator, replies, clock, lim, prefix);
    assert r == Run(rest.outcome, rest.attempts + 1, [prompt] + rest.prompts, rest.limiter);
    EndsLastAfterCall(r, rest, prompt, replies, k, validator, lim, lim1, prefix, a, maxRetries);
  }

  /** An iteration that ends the loop. */
  lemma UnfoldFinal(maxRetries: int, a: nat, k: nat, prompt: string, validator: Option<string -> Verdict>,
                    replies: seq<Reply>, clock: nat -> int, lim: Option<Limiter>, prefix: string)
    requires a <= maxRetries
    requires a == maxRetries || (Gate(lim, clock(a)).0 && ReplyAt(replies, k).Ok? && Accepts(validator, ReplyAt(replies, k).content))
    ensures EndsLast(Loop(maxRetries, a, k, prompt, validator, replies, clock, lim, prefix), replies, k, validator, lim, prefix, a, maxRetries)
  {
  }

  lemma {:induction false} LoopEnds(maxRetries: int, a: nat, k: nat, prompt: string, validator: Option<string -> Verdict>,
                                    replies: seq<Reply>, clock: nat -> int, lim: Option<Limiter>, prefix: string)
    requires a <= maxRetries
    ensures EndsLast(Loop(maxRetries, a, k, prompt, validator, replies, clock, lim, prefix), replies, k, validator, lim, prefix, a, maxRetries)
    decreases maxRetries + 1 - a
  {
    var g := Gate(lim, clock(a));
    var reply := ReplyAt(replies, k);
    if a == maxRetries || (g.0 && reply.Ok? && Accepts(validator, reply.content)) {
      UnfoldFinal(maxRetries, a, k, prompt, validator, replies, clock, lim, prefix);
    } else if !g.0 {
      LoopEnds(maxRetries, a + 1, k, prompt, validator, replies, clock, g.1, prefix);
      UnfoldRefused(maxRetries, a, k, prompt, validator, replies, clock, lim, prefix);
    } else if reply.Failed? {
      LoopEnds(maxRetries, a + 1, k + 1, prompt, validator, replies, clock, g.1, prefix);
      UnfoldFailed(maxRetries, a, k, prompt, validator, replies, clock, lim, prefix);
    } else {
      var next := prompt + FailureNote(validator.value(reply.content).reason);
      LoopEnds(maxRetries, a + 1, k + 1, next, validator, replies, clock, g.1, prefix);
      UnfoldRejected(maxRetries, a, k, prompt, validator, replies, clock, lim, prefix);
    }
  }

  lemma EndsLastAfterCall(r: Run, rest: Run, prompt: string, replies: seq<Reply>, k: nat,
                          validator: Option<string -> Verdict>, lim: Option<Limiter>, lim1: Option<Limiter>,
                          prefix: string, a: nat, maxRetries: int)
    requires r == Run(rest.outcome, rest.attempts + 1, [prompt] + rest.prompts, rest.limiter)
    requires lim.Some? <==> lim1.Some?
    requires lim.Some? ==> lim1.value.maxCalls == lim.value.maxCalls && lim1.value.window == lim.value.window
    requires EndsLast(rest, replies, k + 1, validator, lim1, prefix, a + 1, maxRetries)
    ensures EndsLast(r, replies, k, validator, lim, prefix, a, maxRetries)
  {
    assert k + |r.prompts| - 1 == (k + 1) + |rest.prompts| - 1;
    if lim.Some? {
      SameRefusal(lim1.value, lim.value);
    }
  }

  /** Each prompt of a chain extends the first: the note is only ever
      appended, so the caller's prompt is never altered. */
  lemma {:induction false} ChainExtendsFirst(ps: seq<string>, replies: seq<Reply>, k: nat, validator: Option<string -> Verdict>)
    requires |ps| > 0 && Chain(ps, replies, k, validator)
    ensures forall j :: 0 <= j < |ps| ==> StartsWith(ps[j], ps[0])
    decreases |ps|
  {
    if |ps| > 1 {
      ChainExtendsFirst(ps[1..], replies, k + 1, validator);
      forall j | 1 <= j < |ps|
        ensures StartsWith(ps[j], ps[0])
      {
        assert ps[j] == ps[1..][j - 1];
        assert StartsWith(ps[1], ps[0]) by {
          assert ps[1][..|ps[0]|] == ps[0];
        }
        StartsWithTrans(ps[j], ps[1], ps[0]);
      }
    }
  }

  lemma StartsWithTrans(a: string, b: string, c: string)
    requires StartsWith(a, b) && StartsWith(b, c)
    ensures StartsWith(a, c)
  {
    assert a[..|c|] == b[..|b|][..|c|];
  }

  /** Every call of a chain but the last got a reply that did not end the
      loop. */
  lemma {:induction false} ChainNoEarlierSuccess(ps: seq<string>, replies: seq<Reply>, k: nat, validator: Option<string -> Verdict>)
    requires Chain(ps, replies, k, validator)
    ensures forall i :: k <= i < k + |ps| - 1 ==> !Succeeds(ReplyAt(replies, i), validator)
    decreases |ps|
  {
    if |ps| > 1 {
      ChainNoEarlierSuccess(ps[1..], replies, k + 1, validator);
    }
  }

  /** The clock reading is irrelevant without a limiter. */
  function NoClock(i: nat): int { 0 }

  /** `call_with_retry(client, params, max_retries, validator_fn)` under the
      shared limiter `lim`, `clock(i)` being the time of the `i`-th acquire. */
  function CallWithRetry(prompt: string, maxRetries: int, validator: Option<string -> Verdict>,
                         replies: seq<Reply>, clock: nat -> int, lim: Limiter): (r: Run)
    ensures maxRetries < 0 ==> r.outcome == Returned("") && r.prompts == []
    ensures maxRetries >= 0 ==> 1 <= r.attempts <= maxRetries + 1
    ensures |r.prompts| <= r.attempts
    ensures |r.prompts| > 0 ==> r.prompts[0] == prompt
    ensures Chain(r.prompts, replies, 0, validator)
    ensures r.outcome.Raised? ==>
      r.attempts == maxRetries + 1 && StartsWith(r.outcome.message, ErrorHead("OpenAI API", maxRetries))
    ensures r.limiter.Some?
    ensures lim.maxCalls <= 0 ==> r.prompts == []
  {
    LoopChain(maxRetries, 0, 0, prompt, validator, replies, clock, Some(lim), "OpenAI API");
    if lim.maxCalls <= 0 then
      NoBudgetNoCalls(maxRetries, 0, 0, prompt, validator, replies, clock, Some(lim), "OpenAI API");
      Loop(maxRetries, 0, 0, prompt, validator, replies, clock, Some(lim), "OpenAI API")
    else
      Loop(maxRetries, 0, 0, prompt, validator, replies, clock, Some(lim), "OpenAI API")
  }

  /** What `call_with_retry` returns: the first completion its validator
      accepts, or the completion of the last attempt; without a validator,
      the first completion. A refused acquire uses up an attempt without a
      call, so a limiter that refuses everything leads to the exception. */
  lemma CallWithRetryResult(prompt: string, maxRetries: int, validator: Option<string -> Verdict>,
                            replies: seq<Reply>, clock: nat -> int, lim: Limiter)
    requires maxRetries >= 0
    ensures var r := CallWithRetry(prompt, maxRetries, validator, replies, clock, lim);
      && (r.outcome.Returned? ==>
            |r.prompts| > 0
            && ReplyAt(replies, |r.prompts| - 1).Ok?
            && r.outcome.text == ReplyAt(replies, |r.prompts| - 1).content
            && (Accepts(validator, r.outcome.text) || r.attempts == maxRetries + 1))
      && (forall i :: 0 <= i < |r.prompts| - 1 ==> !Succeeds(ReplyAt(replies, i), validator))
      && (validator.None? ==> forall i :: 0 <= i < |r.prompts| - 1 ==> ReplyAt(replies, i).Failed?)
      && (forall j :: 0 <= j < |r.prompts| ==> StartsWith(r.prompts[j], prompt))
      && (lim.maxCalls <= 0 ==> r.outcome.Raised?)
      && (r.outcome.Raised? ==>
            || (|r.prompts| > 0 && ReplyAt(replies, |r.prompts| - 1).Failed?
                && r.outcome.message == ErrorMessage("OpenAI API", maxRetries, ReplyAt(replies, |r.prompts| - 1).error))
            || r.outcome.message == ErrorMessage("OpenAI API", maxRetries, ExceededMessage(lim)))
  {
    var r := CallWithRetry(prompt, maxRetries, validator, replies, clock, lim);
    LoopEnds(maxRetries, 0, 0, prompt, validator, replies, clock, Some(lim), "OpenAI API");
    ChainNoEarlierSuccess(r.prompts, replies, 0, validator);
    if |r.prompts| > 0 {
      ChainExtendsFirst(r.prompts, replies, 0, validator);
    }
  }

  /** A validator that rejects everything. */
  function RejectAll(t: string): Verdict {
    Verdict(false, "rejected")
  }

  /** With room in the limiter and two retries, three completions that all
      fail validation cost three calls and the third comes back unvalidated
      rather than as an exception. */
  lemma CallWithRetryUnvalidated(prompt: string, x: string, y: string, z: string)
    ensures var r := CallWithRetry(prompt, 2, Some(RejectAll), [Ok(x), Ok(y), Ok(z)], NoClock, Limiter(100, WindowSeconds, []));
      r.outcome == Returned(z) && |r.prompts| == 3 && r.attempts == 3
  {
    var v := Some(RejectAll);
    var replies := [Ok(x), Ok(y), Ok(z)];
    var p1 := prompt + FailureNote("rejected");
    var p2 := p1 + FailureNote("rejected");
    var l0 := Limiter(100, WindowSeconds, []);
    var l1 := Limiter(100, WindowSeconds, [0]);
    var l2 := Limiter(100, WindowSeconds, [0, 0]);
    var l3 := Limiter(100, WindowSeconds, [0, 0, 0]);
    GateOpen(l0, l1);
    GateOpen(l1, l2);
    GateOpen(l2, l3);
    var third := Loop(2, 2, 2, p2, v, replies, NoClock, Some(l2), "OpenAI API");
    assert third == Run(Returned(z), 1, [p2], Some(l3));
    var second := Loop(2, 1, 1, p1, v, replies, NoClock, Some(l1), "OpenAI API");
    assert second == Run(Returned(z), 2, [p1, p2], Some(l3));
  }

  /** At time 0 with a one-hour window and fewer than 100 stamps, all at
      time 0, the gate opens and records one more stamp. */
  lemma GateOpen(l: Limiter, l': Limiter)
    requires l.maxCalls == 100 && l.window == WindowSeconds && |l.stamps| < 100
    requires forall i :: 0 <= i < |l.stamps| ==> l.stamps[i] == 0
    requires l' == l.(stamps := l.stamps + [0])
    ensures Gate(Some(l), NoClock(0)) == (true, Some(l'), "")
  {
    PruneKeepsRecent(l.stamps, 0 - WindowSeconds);
  }

  /** The Hebrew output validator of the translator. */
  function HebrewValidator(alpha: char -> bool): string -> Verdict {
    t => ValidateHebrewOutput(t, alpha)
  }

  /** `translate_and_rewrite(text, max_retries)`: text the translator
      already considers Hebrew comes back untouched without a call; else the
      unlimited retry loop with the Hebrew validator runs, and with no
      iteration at all the input is returned. */
  function TranslateAndRewrite(text: string, maxRetries: int, alpha: char -> bool, detectedHebrew: bool,
                               systemPrompt: string, replies: seq<Reply>): (r: Run)
    ensures IsHebrew(text, alpha, detectedHebrew) ==> r == Run(Returned(text), 0, [], None)
    ensures maxRetries < 0 ==> r.outcome == Returned(text) && r.prompts == []
    ensures |r.prompts| <= r.attempts <= Max(0, maxRetries + 1)
    ensures |r.prompts| > 0 ==> r.prompts[0] == systemPrompt
    ensures Chain(r.prompts, replies, 0, Some(HebrewValidator(alpha)))
    ensures r.outcome.Raised? ==>
      r.attempts == maxRetries + 1 && StartsWith(r.outcome.message, ErrorHead("OpenAI translation", maxRetries))
  {
    if IsHebrew(text, alpha, detectedHebrew) then Run(Returned(text), 0, [], None)
    else if maxRetries < 0 then Run(Returned(text), 0, [], None)
    else
      LoopChain(maxRetries, 0, 0, systemPrompt, Some(HebrewValidator(alpha)), replies, NoClock, None, "OpenAI translation");
      Loop(maxRetries, 0, 0, systemPrompt, Some(HebrewValidator(alpha)), replies, NoClock, None, "OpenAI translation")
  }

  /** A translation that is not skipped returns a completion that passes
      the Hebrew validator, or else the last attempt's completion. */
  lemma TranslateResult(text: string, maxRetries: int, alpha: char -> bool, detectedHebrew: bool,
                        systemPrompt: string, replies: seq<Reply>)
    requires maxRetries >= 0 && !IsHebrew(text, alpha, detectedHebrew)
    ensures var r := TranslateAndRewrite(text, maxRetries, alpha, detectedHebrew, systemPrompt, replies);
      r.outcome.Returned? ==>
        |r.prompts| > 0 && ReplyAt(replies, |r.prompts| - 1).Ok?
        && r.outcome.text == ReplyAt(replies, |r.prompts| - 1).content
        && (ValidateHebrewOutput(r.outcome.text, alpha).valid || |r.prompts| == maxRetries + 1)
    ensures var r := TranslateAndRewrite(text, maxRetries, alpha, detectedHebrew, systemPrompt, replies);
      && |r.prompts| > 0
      && (ReplyAt(replies, |r.prompts| - 1).Ok? ==> r.outcome == Returned(ReplyAt(replies, |r.prompts| - 1).content))
      && (ReplyAt(replies, |r.prompts| - 1).Failed? ==>
            r.outcome == Raised(ErrorMessage("OpenAI translation", maxRetries, ReplyAt(replies, |r.prompts| - 1).error)))
  {
    var v := Some(HebrewValidator(alpha));
    LoopEnds(maxRetries, 0, 0, systemPrompt, v, replies, NoClock, None, "OpenAI translation");
    TranslateIsLoop(text, maxRetries, alpha, detectedHebrew, systemPrompt, replies);
    TranslationRun(TranslateAndRewrite(text, maxRetries, alpha, detectedHebrew, systemPrompt, replies),
                   replies, alpha, maxRetries);
  }

  /** A run of the translation loop ends on its last call. */
  lemma TranslationRun(r: Run, replies: seq<Reply>, alpha: char -> bool, maxRetries: int)
    requires maxRetries >= 0 && 1 <= r.attempts && |r.prompts| == r.attempts
    requires EndsLast(r, replies, 0, Some(HebrewValidator(alpha)), None, "OpenAI translation", 0, maxRetries)
    ensures r.outcome.Returned? ==>
        |r.prompts| > 0 && ReplyAt(replies, |r.prompts| - 1).Ok?
        && r.outcome.text == ReplyAt(replies, |r.prompts| - 1).content
        && (ValidateHebrewOutput(r.outcome.text, alpha).valid || |r.prompts| == maxRetries + 1)
    ensures && |r.prompts| > 0
      && (ReplyAt(replies, |r.prompts| - 1).Ok? ==> r.outcome == Returned(ReplyAt(replies, |r.prompts| - 1).content))
      && (ReplyAt(replies, |r.prompts| - 1).Failed? ==>
            r.outcome == Raised(ErrorMessage("OpenAI translation", maxRetries, ReplyAt(replies, |r.prompts| - 1).error)))
  {
    var v := Some(HebrewValidator(alpha));
    UnlimitedEnds(r, replies, v, "OpenAI translation", maxRetries);
    if r.outcome.Returned? {
      HebrewAccepts(alpha, r.outcome.text);
    }
  }

  lemma TranslateIsLoop(text: string, maxRetries: int, alpha: char -> bool, detectedHebrew: bool,
                         systemPrompt: string, replies: seq<Reply>)
    requires maxRetries >= 0 && !IsHebrew(text, alpha, detectedHebrew)
    ensures TranslateAndRewrite(text, maxRetries, alpha, detectedHebrew, systemPrompt, replies)
         == Loop(maxRetries, 0, 0, systemPrompt, Some(HebrewValidator(alpha)), replies, NoClock, None, "OpenAI translation")
  {
  }

  lemma HebrewAccepts(alpha: char -> bool, t: string)
    ensures Accepts(Some(HebrewValidator(alpha)), t) == ValidateHebrewOutput(t, alpha).valid
  {
  }

  /** Without a limiter every attempt makes a call, so the last call
      decides: a completion is returned, an exception is raised. */
  lemma UnlimitedEnds(r: Run, replies: seq<Reply>, validator: Option<string -> Verdict>, prefix: string, maxRetries: int)
    requires maxRetries >= 0 && 1 <= r.attempts && |r.prompts| == r.attempts
    requires EndsLast(r, replies, 0, validator, None, prefix, 0, maxRetries)
    ensures |r.prompts| > 0
    ensures r.outcome.Returned? ==> Accepts(validator, r.outcome.text) || |r.prompts| == maxRetries + 1
    ensures ReplyAt(replies, |r.prompts| - 1).Ok? ==> r.outcome == Returned(ReplyAt(replies, |r.prompts| - 1).content)
    ensures ReplyAt(replies, |r.prompts| - 1).Failed? ==>
      r.outcome == Raised(ErrorMessage(prefix, maxRetries, ReplyAt(replies, |r.prompts| - 1).error))
  {
  }

  /** The loop without a limiter, when from call `k` on every reply is a
      rejected completion: it makes every remaining call and returns the
      last completion. */
  lemma {:induction false} AllRejected(maxRetries: int, a: nat, k: nat, prompt: string, validator: Option<string -> Verdict>,
                                       replies: seq<Reply>, prefix: string)
    requires a <= maxRetries
    requires forall j :: k <= j ==> ReplyAt(replies, j).Ok? && !Accepts(validator, ReplyAt(replies, j).content)
    ensures var r := Loop(maxRetries, a, k, prompt, validator, replies, NoClock, None, prefix);
      |r.prompts| == maxRetries + 1 - a && r.outcome == Returned(ReplyAt(replies, k + maxRetries - a).content)
    decreases maxRetries + 1 - a
  {
    var reply := ReplyAt(replies, k);
    if a < maxRetries {
      var next := prompt + FailureNote(validator.value(reply.content).reason);
      AllRejected(maxRetries, a + 1, k + 1, next, validator, replies, prefix);
      var rest := Loop(maxRetries, a + 1, k + 1, next, validator, replies, NoClock, None, prefix);
      assert Loop(maxRetries, a, k, prompt, validator, replies, NoClock, None, prefix)
          == Run(rest.outcome, rest.attempts + 1, [prompt] + rest.prompts, rest.limiter);
    }
  }

  /** With the default two retries, output that never passes the Hebrew
      validator costs exactly three calls and the third is returned. */
  lemma PersistentEnglish(text: string, alpha: char -> bool, systemPrompt: string, replies: seq<Reply>)
    requires !IsHebrew(text, alpha, false)
    requires forall j :: 0 <= j ==> ReplyAt(replies, j).Ok? && !ValidateHebrewOutput(ReplyAt(replies, j).content, alpha).valid
    ensures var r := TranslateAndRewrite(text, 2, alpha, false, systemPrompt, replies);
      |r.prompts| == 3 && r.outcome == Returned(ReplyAt(replies, 2).content)
  {
    AllRejected(2, 0, 0, systemPrompt, Some(HebrewValidator(alpha)), replies, "OpenAI translation");
  }

  /** The separator `translate_long_text` joins the tweets with. */
  const LongTextSeparator := "\n\n---\n\n"

  /** `translate_long_text`: no call for no tweets, otherwise exactly one
      translation of the tweets joined by the separator. */
  function TranslateLongText(texts: seq<string>, alpha: char -> bool, detectedHebrew: bool,
                             systemPrompt: string, replies: seq<Reply>): (r: Run)
    ensures |texts| == 0 ==> r == Run(Returned(""), 0, [], None)
    ensures |texts| > 0 ==> r == TranslateAndRewrite(Join(LongTextSeparator, texts), 2, alpha, detectedHebrew, systemPrompt, replies)
  {
    if |texts| == 0 then Run(Returned(""), 0, [], None)
    else TranslateAndRewrite(Join(LongTextSeparator, texts), 2, alpha, detectedHebrew, systemPrompt, replies)
  }
}
