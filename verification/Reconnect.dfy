/**
 * internal/api/reconnect.go: the reconnect engine. What the server, the clock, the random source and
 * the context do is given as a script with one entry per iteration of a loop; a script that runs out
 * is an execution still in progress. Durations are integers and the multiplier is 2.
 */
module Reconnect {
  import opened Prelude
  import opened Bytes

  datatype Sentinel = Unauthorized | RateLimit | Forbidden | NotFound | ServerError | OtherStatus

  datatype Error = Network | ApiError(sentinel: Sentinel, retryAfter: int)

  datatype FailureAction = RetryTransient | RetryAuth | RespectServer | PermanentFailure

  function ClassifyError(err: Error): FailureAction
  {
    match err
    case Network => RetryTransient
    case ApiError(Unauthorized, _) => RetryAuth
    case ApiError(RateLimit, _) => RespectServer
    case ApiError(Forbidden, _) => PermanentFailure
    case ApiError(NotFound, _) => PermanentFailure
    case ApiError(ServerError, _) => RetryTransient
    case ApiError(OtherStatus, _) => RetryTransient
  }

  function Min(a: int, b: int): int
  {
    if a < b then a else b
  }

  type Unit = u: real | 0.0 <= u < 1.0

  function Abs(x: int): nat
  {
    if x < 0 then -x else x
  }

  /** The wait has the interval's sign and is within 25% of it; a negative one is over at once. */
  predicate Near(d: int, delay: int)
  {
    (if d < 0 then delay <= 0 else delay >= 0) && 3 * Abs(d) / 4 <= Abs(delay) && 4 * Abs(delay) <= 5 * Abs(d)
  }

  /** Conversion of a float to an integer. */
  function Truncate(x: real): int
  {
    if x >= 0.0 then x.Floor else -(-x).Floor
  }

  /** A spread of at most the given size, either way. */
  predicate Within(delta: real, size: real)
  {
    (-size <= delta <= size) || (size <= delta <= -size)
  }

  /** d +- 25%, from a random number in [0, 1), cut to an integer. */
  function Jitter(d: int, u: Unit): (delay: int)
    ensures Near(d, delay)
  {
    var jit := d as real * 0.25;
    var delta := (u * 2.0 - 1.0) * jit;
    SpreadWithin(u * 2.0 - 1.0, jit);
    CutNear(d, jit, delta);
    Truncate(d as real + delta)
  }

  lemma SpreadWithin(x: real, size: real)
    requires -1.0 <= x <= 1.0
    ensures Within(x * size, size)
    decreases size < 0.0
  {
    if size < 0.0 {
      SpreadWithin(x, -size);
      assert x * size == -(x * -size);
    }
  }

  lemma CutNear(d: int, jit: real, delta: real)
    requires jit == d as real * 0.25 && Within(delta, jit)
    ensures Near(d, Truncate(d as real + delta))
  {
    var y := d as real + delta;
    if d < 0 {
      assert 0.75 * (-d) as real <= -y <= 1.25 * (-d) as real;
    } else {
      assert 0.75 * d as real <= y <= 1.25 * d as real;
    }
  }

  // ----- What happened, for the statements about whole runs -----

  datatype Event =
    | Reset
    | Failure(now: Time)
    | BackedOff(now: Time, delay: int)
    | Throttled(delay: int)
    | FellBack(now: Time)
    | Rebased(base: int)     // SetBaseInterval, by the server's retry field

  /** Completed transient backoffs since the last reset. */
  function Backoffs(trace: seq<Event>): nat
  {
    if trace == [] || trace[|trace| - 1] == Reset then 0
    else Backoffs(trace[..|trace| - 1]) + if trace[|trace| - 1].BackedOff? then 1 else 0
  }

  /** When the first transient failure after the last reset happened. */
  function FirstFailure(trace: seq<Event>): Option<Time>
  {
    if trace == [] || trace[|trace| - 1] == Reset then None
    else
      var before, last := FirstFailure(trace[..|trace| - 1]), trace[|trace| - 1];
      if before == None && last.Failure? then Some(last.now) else before
  }

  /** The interval after k completed backoffs, doubling up to the maximum. */
  function Interval(base: int, max: nat, k: nat): int
  {
    if k == 0 then base else Min(base * Pow2(k), max)
  }

  lemma IntervalStep(base: int, max: nat, k: nat)
    ensures Interval(base, max, k + 1) == Min(2 * Interval(base, max, k), max)
  {
  }

  /** One formula for all k, min(base * 2^k, max), exactly when base <= max. */
  lemma IntervalIsCapped(base: int, max: nat)
    ensures (forall j: nat :: Interval(base, max, j) == Min(base * Pow2(j), max)) <==> base <= max
  {
    assert Interval(base, max, 0) == base && base * Pow2(0) == base;
  }

  /** The base interval set last. */
  function BaseNow(l: Limits, trace: seq<Event>): int
  {
    if trace == [] then l.base
    else if trace[|trace| - 1].Rebased? then trace[|trace| - 1].base
    else BaseNow(l, trace[..|trace| - 1])
  }

  /** The base interval that counts: a new one takes effect with the next reset. */
  function BaseInForce(l: Limits, trace: seq<Event>): int
  {
    if trace == [] then l.base
    else if trace[|trace| - 1] == Reset then BaseNow(l, trace[..|trace| - 1])
    else BaseInForce(l, trace[..|trace| - 1])
  }

  function CurrentInterval(l: Limits, trace: seq<Event>): int
  {
    Interval(BaseInForce(l, trace), l.max, Backoffs(trace))
  }

  /**
   * Each backoff waited within 25% of its interval; polling began exactly at the transient failures by
   * which the fallback time had passed.
   */
  predicate TraceOk(trace: seq<Event>, l: Limits)
  {
    forall n | 0 <= n < |trace| ::
      match trace[n]
      case BackedOff(now, delay) =>
        && Near(CurrentInterval(l, trace[..n]), delay)
        && FirstFailure(trace[..n]).Some? && now - FirstFailure(trace[..n]).value < l.fallback
      case FellBack(now) =>
        FirstFailure(trace[..n]).Some? && now - FirstFailure(trace[..n]).value >= l.fallback
      case _ => true
  }

  lemma {:induction false} TraceSnoc(l: Limits, trace: seq<Event>, e: Event)
    ensures var more := trace + [e];
            && more[..|trace|] == trace
            && Backoffs(more) == (if e == Reset then 0 else Backoffs(trace) + if e.BackedOff? then 1 else 0)
            && FirstFailure(more) == (if e == Reset then None
                                      else if FirstFailure(trace) == None && e.Failure? then Some(e.now)
                                      else FirstFailure(trace))
            && BaseNow(l, more) == (if e.Rebased? then e.base else BaseNow(l, trace))
            && BaseInForce(l, more) == (if e == Reset then BaseNow(l, trace) else BaseInForce(l, trace))
  {
    assert (trace + [e])[..|trace|] == trace;
  }

  lemma TraceOkSnoc(trace: seq<Event>, e: Event, l: Limits)
    requires TraceOk(trace, l)
    requires e.BackedOff? ==>
               && Near(CurrentInterval(l, trace), e.delay)
               && FirstFailure(trace).Some? && e.now - FirstFailure(trace).value < l.fallback
    requires e.FellBack? ==> FirstFailure(trace).Some? && e.now - FirstFailure(trace).value >= l.fallback
    ensures TraceOk(trace + [e], l)
  {
    var more := trace + [e];
    forall n | 0 <= n < |trace|
      ensures more[n] == trace[n] && more[..n] == trace[..n]
    {
    }
    assert more[..|trace|] == trace;
  }

  // ----- The engine -----

  datatype End = Cancelled | Stopped(err: Error)

  /** One round of the polling loop; a connection may bring a new base interval before it ends. */
  datatype PollRound = PollRound(
    cancelledBefore: bool, pollOk: bool, cancelledAfterPoll: bool, cancelledWaiting: bool,
    rebase: Option<int>, connect: Option<Error>, cancelledAfterConnect: bool)

  /** One round of the main loop. */
  datatype Round = Round(
    cancelledBefore: bool, rebase: Option<int>, connect: Option<Error>, cancelledAfter: bool,
    firstNow: Time, secondNow: Time, random: Unit, cancelledWaiting: bool, polls: seq<PollRound>)

  /** Where a loop stands: ready for the next round, still inside (the script ran out), or ended. */
  datatype Status = Continue | Polling | Ended(end: End)

  datatype Limits = Limits(base: int, max: nat, fallback: int)

  /** The round is cancelled before it tries to connect. */
  predicate CutShort(p: PollRound)
  {
    p.cancelledBefore || (!p.pollOk && p.cancelledAfterPoll) || p.cancelledWaiting
  }

  /** How one polling round settles the matter, if it does; the result of polling itself does not count. */
  function PollResult(p: PollRound): Option<Status>
  {
    if CutShort(p) then Some(Ended(Cancelled))
    else if p.connect == None then Some(Continue)
    else if p.cancelledAfterConnect then Some(Ended(Cancelled))
    else if ClassifyError(p.connect.value) in {PermanentFailure, RetryAuth} then Some(Ended(Stopped(p.connect.value)))
    else None
  }

  /** The first polling round that settles the matter does. */
  function PollStatus(polls: seq<PollRound>): Status
  {
    if polls == [] then Polling
    else if PollResult(polls[0]).Some? then PollResult(polls[0]).value
    else PollStatus(polls[1..])
  }

  /** Answers that end the engine: 401, 403 and 404, and no other. */
  predicate Final(err: Error)
  {
    err.ApiError? && (err.sentinel == Unauthorized || err.sentinel == Forbidden || err.sentinel == NotFound)
  }

  /** The connection attempt failed in a way that polling goes on. */
  predicate KeepsPolling(p: PollRound)
  {
    p.connect.Some? && !p.cancelledAfterConnect && !Final(p.connect.value)
  }

  /** The round ends the polling loop. */
  predicate Settles(p: PollRound)
  {
    p.cancelledBefore || (!p.pollOk && p.cancelledAfterPoll) || p.cancelledWaiting || !KeepsPolling(p)
  }

  /** The first polling round that settles the matter was cancelled, or met this permanent or authentication error. */
  predicate PollsEnd(polls: seq<PollRound>, end: End)
  {
    && polls != []
    && var p := polls[0];
       if !Settles(p) then PollsEnd(polls[1..], end)
       else
         match end
         case Cancelled =>
           p.cancelledBefore || p.cancelledAfterPoll || p.cancelledWaiting || p.cancelledAfterConnect
         case Stopped(err) => p.connect == Some(err) && Final(err)
  }

  /** The round was cancelled, or met this permanent or authentication error. */
  predicate RoundEnds(r: Round, end: End)
  {
    match end
    case Cancelled => r.cancelledBefore || r.cancelledAfter || r.cancelledWaiting || PollsEnd(r.polls, end)
    case Stopped(err) => (r.connect == Some(err) && Final(err)) || PollsEnd(r.polls, end)
  }

  /** The base intervals set while polling. */
  function PollEvents(polls: seq<PollRound>): seq<Event>
  {
    if polls == [] then []
    else PollNews(polls[0]) + if PollResult(polls[0]) == None then PollEvents(polls[1..]) else []
  }

  function PollNews(p: PollRound): seq<Event>
  {
    if CutShort(p) then [] else Rebase(p.rebase)
  }

  function Rebase(base: Option<int>): seq<Event>
  {
    if base == None then [] else [Rebased(base.value)]
  }

  function TransientRound(l: Limits, trace: seq<Event>, r: Round): (Status, seq<Event>)
  {
    var noted := trace + [Failure(r.firstNow)];
    TraceSnoc(l, trace, Failure(r.firstNow));
    if r.secondNow - FirstFailure(noted).value >= l.fallback then
      var status := PollStatus(r.polls);
      (status, noted + [FellBack(r.secondNow)] + PollEvents(r.polls) + if status == Continue then [Reset] else [])
    else if r.cancelledWaiting then (Ended(Cancelled), noted)
    else (Continue, noted + [BackedOff(r.secondNow, Jitter(CurrentInterval(l, trace), r.random))])
  }

  /** The server's delay, or the current interval when it names none. */
  function ThrottleDelay(l: Limits, trace: seq<Event>, err: Error): int
  {
    if err.ApiError? && err.retryAfter > 0 then err.retryAfter else CurrentInterval(l, trace)
  }

  function ErrorRound(l: Limits, trace: seq<Event>, err: Error, r: Round): (Status, seq<Event>)
  {
    match ClassifyError(err)
    case PermanentFailure => (Ended(Stopped(err)), trace)
    case RetryAuth => (Ended(Stopped(err)), trace)
    case RespectServer =>
      if r.cancelledWaiting then (Ended(Cancelled), trace)
      else (Continue, trace + [Throttled(ThrottleDelay(l, trace, err))])
    case RetryTransient => TransientRound(l, trace, r)
  }

  /** One round of the main loop, as a function of what happened before. */
  function MainRound(l: Limits, trace: seq<Event>, r: Round): (Status, seq<Event>)
  {
    if r.cancelledBefore then (Ended(Cancelled), trace)
    else
      var connected := trace + Rebase(r.rebase);
      if r.connect == None then (Continue, connected + [Reset])
      else if r.cancelledAfter then (Ended(Cancelled), connected)
      else ErrorRound(l, connected, r.connect.value, r)
  }

  function Play(l: Limits, trace: seq<Event>, script: seq<Round>): (Status, seq<Event>)
    decreases |script|
  {
    if script == [] then (Continue, trace)
    else
      var (status, trace') := MainRound(l, trace, script[0]);
      if status == Continue then Play(l, trace', script[1..]) else (status, trace')
  }

  class ReconnectEngine {
    const limits: Limits
    var baseInterval: int
    var currentInterval: int
    var failingSince: Option<Time>
    ghost var trace: seq<Event>

    constructor (limits: Limits)
      ensures Valid() && trace == [] && this.limits == limits
    {
      this.limits := limits;
      baseInterval, currentInterval, failingSince, trace := limits.base, limits.base, None, [];
    }

    /** The fields are determined by what happened. */
    ghost predicate Valid()
      reads this
    {
      && baseInterval == BaseNow(limits, trace)
      && currentInterval == CurrentInterval(limits, trace)
      && failingSince == FirstFailure(trace)
    }

    method ResetBackoff()
      requires Valid()
      modifies this
      ensures Valid() && trace == old(trace) + [Reset]
    {
      TraceSnoc(limits, trace, Reset);
      currentInterval, failingSince := baseInterval, None;
      trace := trace + [Reset];
    }

    method IncrementInterval(ghost now: Time, ghost delay: int)
      requires Valid()
      modifies this`currentInterval, this`trace
      ensures Valid() && trace == old(trace) + [BackedOff(now, delay)]
    {
      TraceSnoc(limits, trace, BackedOff(now, delay));
      IntervalStep(BaseInForce(limits, trace), limits.max, Backoffs(trace));
      currentInterval := Min(currentInterval * 2, limits.max);
      trace := trace + [BackedOff(now, delay)];
    }

    method NoteFailure(now: Time)
      requires Valid()
      modifies this`failingSince, this`trace
      ensures Valid() && failingSince.Some? && trace == old(trace) + [Failure(now)]
      ensures currentInterval == old(currentInterval)
    {
      TraceSnoc(limits, trace, Failure(now));
      if failingSince == None {
        failingSince := Some(now);
      }
      trace := trace + [Failure(now)];
    }

    method SetBaseInterval(base: int)
      requires Valid()
      modifies this`baseInterval, this`trace
      ensures Valid() && trace == old(trace) + [Rebased(base)]
    {
      TraceSnoc(limits, trace, Rebased(base));
      baseInterval := base;
      trace := trace + [Rebased(base)];
    }

    /** What a connection attempt may do to the engine while it lasts. */
    method DuringConnect(rebase: Option<int>)
      requires Valid()
      modifies this`baseInterval, this`trace
      ensures Valid() && trace == old(trace) + Rebase(rebase)
    {
      assert trace + [] == trace;
      if rebase.Some? {
        SetBaseInterval(rebase.value);
      }
    }

    method Poll(p: PollRound) returns (result: Option<Status>)
      requires Valid()
      modifies this`baseInterval, this`trace
      ensures Valid() && result == PollResult(p) && trace == old(trace) + PollNews(p)
    {
      assert trace + [] == trace;
      if p.cancelledBefore {
        return Some(Ended(Cancelled));
      }
      if !p.pollOk && p.cancelledAfterPoll {
        return Some(Ended(Cancelled));
      }
      if p.cancelledWaiting {
        return Some(Ended(Cancelled));
      }
      DuringConnect(p.rebase);
      if p.connect == None {
        return Some(Continue);
      }
      if p.cancelledAfterConnect {
        return Some(Ended(Cancelled));
      }
      var action := ClassifyError(p.connect.value);
      if action == PermanentFailure || action == RetryAuth {
        return Some(Ended(Stopped(p.connect.value)));
      }
      result := None;
    }

    method RunPollingFallback(polls: seq<PollRound>) returns (status: Status)
      requires Valid()
      modifies this`baseInterval, this`trace
      ensures Valid() && status == PollStatus(polls) && trace == old(trace) + PollEvents(polls)
    {
      ghost var all := trace + PollEvents(polls);
      for i := 0 to |polls|
        invariant Valid() && PollStatus(polls[i..]) == PollStatus(polls) && trace + PollEvents(polls[i..]) == all
      {
        assert polls[i..][0] == polls[i] && polls[i..][1..] == polls[i + 1..];
        Regroup(trace, PollNews(polls[i]), PollEvents(polls[i + 1..]));
        var result := Poll(polls[i]);
        if result.Some? {
          return result.value;
        }
      }
      Regroup(trace, [], []);
      status := Polling;
    }

    method FallBack(now: Time, polls: seq<PollRound>) returns (status: Status)
      requires Valid()
      modifies this
      ensures Valid() && status == PollStatus(polls)
      ensures trace == old(trace) + [FellBack(now)] + PollEvents(polls) + if status == Continue then [Reset] else []
    {
      TraceSnoc(limits, trace, FellBack(now));
      trace := trace + [FellBack(now)];
      status := RunPollingFallback(polls);
      if status == Continue {
        ResetBackoff();
      }
    }

    method HandleTransientError(r: Round) returns (status: Status)
      requires Valid()
      modifies this
      ensures Valid() && (status, trace) == TransientRound(limits, old(trace), r)
    {
      var interval := currentInterval;
      NoteFailure(r.firstNow);
      if r.secondNow - failingSince.value >= limits.fallback {
        status := FallBack(r.secondNow, r.polls);
        return;
      }
      var delay := Jitter(interval, r.random);
      if r.cancelledWaiting {
        return Ended(Cancelled);
      }
      IncrementInterval(r.secondNow, delay);
      status := Continue;
    }

    method HandleRateLimit(err: Error, r: Round) returns (status: Status)
      requires Valid() && ClassifyError(err) == RespectServer
      modifies this`trace
      ensures Valid() && (status, trace) == ErrorRound(limits, old(trace), err, r)
    {
      var delay := currentInterval;
      if err.ApiError? && err.retryAfter > 0 {
        delay := err.retryAfter;
      }
      if r.cancelledWaiting {
        return Ended(Cancelled);
      }
      TraceSnoc(limits, trace, Throttled(delay));
      trace := trace + [Throttled(delay)];
      status := Continue;
    }

    method HandleConnectError(err: Error, r: Round) returns (status: Status)
      requires Valid()
      modifies this
      ensures Valid() && (status, trace) == ErrorRound(limits, old(trace), err, r)
    {
      match ClassifyError(err)
      case PermanentFailure =>
        status := Ended(Stopped(err));
      case RetryAuth =>
        status := Ended(Stopped(err));
      case RespectServer =>
        status := HandleRateLimit(err, r);
      case RetryTransient =>
        status := HandleTransientError(r);
    }

    /** The main loop over any script; the theorems below are about what it plays. */
    method Run(script: seq<Round>) returns (status: Status)
      requires Valid()
      modifies this
      ensures Valid() && (status, trace) == Play(limits, old(trace) + [Reset], script)
    {
      ghost var start := trace + [Reset];
      ResetBackoff();
      for i := 0 to |script|
        invariant Valid() && Play(limits, trace, script[i..]) == Play(limits, start, script)
      {
        var r := script[i];
        assert script[i..][0] == r && script[i..][1..] == script[i + 1..];
        if r.cancelledBefore {
          return Ended(Cancelled);
        }
        DuringConnect(r.rebase);
        if r.connect == None {
          ResetBackoff();
          continue;
        }
        if r.cancelledAfter {
          return Ended(Cancelled);
        }
        status := HandleConnectError(r.connect.value, r);
        if status != Continue {
          return;
        }
      }
      status := Continue;
    }
  }

  // ----- What holds of every run -----

  predicate OnlyRebased(events: seq<Event>)
  {
    forall i | 0 <= i < |events| :: events[i].Rebased?
  }

  lemma {:induction false} TraceOkMore(trace: seq<Event>, events: seq<Event>, l: Limits)
    requires TraceOk(trace, l) && OnlyRebased(events)
    ensures TraceOk(trace + events, l)
  {
    if events == [] {
      assert trace + events == trace;
    } else {
      var front, last := events[..|events| - 1], events[|events| - 1];
      TraceOkMore(trace, front, l);
      TraceOkSnoc(trace + front, last, l);
      assert trace + events == trace + front + [last];
    }
  }

  lemma {:induction false} PollsOnlyRebase(polls: seq<PollRound>)
    ensures OnlyRebased(PollEvents(polls))
  {
    if polls == [] {
    } else {
      PollsOnlyRebase(polls[1..]);
    }
  }

  lemma {:induction false} PollEndOk(polls: seq<PollRound>)
    requires PollStatus(polls).Ended?
    ensures PollsEnd(polls, PollStatus(polls).end)
  {
    if Settles(polls[0]) {
    } else {
      PollEndOk(polls[1..]);
    }
  }

  lemma TransientOk(l: Limits, trace: seq<Event>, r: Round)
    requires TraceOk(trace, l)
    ensures TraceOk(TransientRound(l, trace, r).1, l)
  {
    var noted := trace + [Failure(r.firstNow)];
    TraceSnoc(l, trace, Failure(r.firstNow));
    TraceOkSnoc(trace, Failure(r.firstNow), l);
    if r.secondNow - FirstFailure(noted).value >= l.fallback {
      var polled := noted + [FellBack(r.secondNow)] + PollEvents(r.polls);
      TraceOkSnoc(noted, FellBack(r.secondNow), l);
      PollsOnlyRebase(r.polls);
      TraceOkMore(noted + [FellBack(r.secondNow)], PollEvents(r.polls), l);
      TraceOkSnoc(polled, Reset, l);
      Regroup(polled, [], []);
    } else {
      TraceOkSnoc(noted, BackedOff(r.secondNow, Jitter(CurrentInterval(l, trace), r.random)), l);
    }
  }

  /** One round keeps the trace justified and ends only for a reason. */
  lemma RoundOk(l: Limits, trace: seq<Event>, r: Round)
    requires TraceOk(trace, l)
    ensures TraceOk(MainRound(l, trace, r).1, l)
    ensures MainRound(l, trace, r).0.Ended? ==> RoundEnds(r, MainRound(l, trace, r).0.end)
  {
    var connected := trace + Rebase(r.rebase);
    TraceOkMore(trace, Rebase(r.rebase), l);
    TraceOkSnoc(connected, Reset, l);
    if r.connect.Some? {
      TraceOkSnoc(connected, Throttled(ThrottleDelay(l, connected, r.connect.value)), l);
    }
    TransientOk(l, connected, r);
    if PollStatus(r.polls).Ended? {
      PollEndOk(r.polls);
    }
  }

  /** What a failed connection attempt leads to when nothing is cancelled, by the server's answer. */
  lemma FailedRound(l: Limits, trace: seq<Event>, r: Round)
    requires !r.cancelledBefore && r.connect.Some? && !r.cancelledAfter && !r.cancelledWaiting
    ensures var err, before, (status, after) := r.connect.value, trace + Rebase(r.rebase), MainRound(l, trace, r);
            if Final(err) then status == Ended(Stopped(err)) && after == before
            else if err.ApiError? && err.sentinel == RateLimit then
              && status == Continue && |after| == |before| + 1 && after[..|before|] == before
              && after[|before|] == Throttled(if err.retryAfter > 0 then err.retryAfter else CurrentInterval(l, before))
            else
              && before + [Failure(r.firstNow)] <= after && |after| > |before| + 1
              && var since := if FirstFailure(before).Some? then FirstFailure(before).value else r.firstNow;
                 if r.secondNow - since < l.fallback
                 then status == Continue && |after| == |before| + 2 && after[|before| + 1].BackedOff?
                 else status == PollStatus(r.polls) && after[|before| + 1] == FellBack(r.secondNow)
  {
    TraceSnoc(l, trace + Rebase(r.rebase), Failure(r.firstNow));
  }

  lemma {:induction false} PlayOn(l: Limits, trace: seq<Event>, script: seq<Round>, n: nat)
    requires n < |script| && Play(l, trace, script[..n]).0 == Continue
    requires MainRound(l, Play(l, trace, script[..n]).1, script[n]).0 != Continue
    ensures Play(l, trace, script) == MainRound(l, Play(l, trace, script[..n]).1, script[n])
    decreases n
  {
    if n == 0 {
    } else {
      assert script[..n][0] == script[0] && script[..n][1..] == script[1..][..n - 1];
      PlayOn(l, MainRound(l, trace, script[0]).1, script[1..], n - 1);
    }
  }

  /** A run that meets 401, 403 or 404 in the main loop, uncancelled, is over with that error. */
  lemma FinalErrorStops(l: Limits, trace: seq<Event>, script: seq<Round>, n: nat)
    requires n < |script| && Play(l, trace, script[..n]).0 == Continue
    requires var r := script[n];
             !r.cancelledBefore && r.connect.Some? && !r.cancelledAfter && Final(r.connect.value)
    ensures Play(l, trace, script).0 == Ended(Stopped(script[n].connect.value))
  {
    PlayOn(l, trace, script, n);
  }

  /** While polling, the same answers end the loop, any other failure goes on and a connection resumes. */
  lemma PollAnswer(polls: seq<PollRound>)
    requires polls != [] && var p := polls[0];
             !p.cancelledBefore && !p.cancelledAfterPoll && !p.cancelledWaiting && !p.cancelledAfterConnect
    ensures PollStatus(polls) == match polls[0].connect
                                 case None => Continue
                                 case Some(err) => if Final(err) then Ended(Stopped(err)) else PollStatus(polls[1..])
  {
  }

  /**
   * Every run: each completed backoff waited within 25% of the interval that min(base * 2^k, max) gives
   * for the backoffs since the last reset and the base interval set by then, and was entered before the
   * fallback time had passed since the first transient failure after a reset; polling began only once it
   * had. If the run is over, round `n` ended it: the rounds before went on, no later one is played, and in
   * round `n` itself a cancellation took place or this answer, a 401, 403 or 404, was met.
   */
  lemma {:induction false} PlayOk(l: Limits, trace: seq<Event>, script: seq<Round>) returns (n: nat)
    requires TraceOk(trace, l)
    ensures TraceOk(Play(l, trace, script).1, l)
    ensures n <= |script| && Play(l, trace, script[..n]).0 == Continue
    ensures Play(l, trace, script).0 == Continue ==> n == |script|
    ensures Play(l, trace, script).0 != Continue ==>
              n < |script| && MainRound(l, Play(l, trace, script[..n]).1, script[n]) == Play(l, trace, script)
    ensures Play(l, trace, script).0.Ended? ==> RoundEnds(script[n], Play(l, trace, script).0.end)
    decreases |script|
  {
    if script == [] {
      n := 0;
    } else {
      RoundOk(l, trace, script[0]);
      var (status, trace') := MainRound(l, trace, script[0]);
      if status == Continue {
        var rest := PlayOk(l, trace', script[1..]);
        n := rest + 1;
        assert script[..n][0] == script[0] && script[..n][1..] == script[1..][..rest];
      } else {
        n := 0;
      }
    }
  }
}
