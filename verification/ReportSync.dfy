/**
 * internal/nodeapi/sync.go: notifiers and the debounced flush loop as interleaved steps. Each step
 * is one critical section, one channel operation, or one call of the client.
 */
module ReportSync {
  datatype Entry = Entry(key: string, contentType: string, payload: string, version: int)

  /** Where the goroutine in Run is. */
  datatype Loop =
    | Waiting
    | Debouncing
    | Flushing
    | Sending(entries: seq<Entry>, deleted: seq<string>)
    | Resignalling
    | Stopped

  /** A request whose fate is settled: accepted, or given up because the context was cancelled. */
  datatype Settled = Settled(entries: seq<Entry>, deleted: seq<string>, delivered: bool)

  datatype State = State(
    entries: seq<Entry>,
    deleted: seq<string>,
    pending: bool,
    token: bool,          // the one-slot channel holds a signal
    signalling: nat,      // notifiers between unlock and send
    loop: Loop,
    cancelled: bool,
    notifiedEntries: seq<Entry>,
    notifiedDeleted: seq<string>,
    settled: seq<Settled>)

  const INITIAL := State([], [], false, false, 0, Waiting, false, [], [], [])

  datatype Step =
    | NotifyBuffer(entries: seq<Entry>, deleted: seq<string>)
    | NotifySignal
    | TakeSignal
    | DebounceElapsed
    | SwapBuffer
    | SendSucceeded
    | SendFailed
    | Resignal
    | Cancel
    | Stop

  predicate Enabled(s: State, step: Step)
  {
    match step
    case NotifyBuffer(_, _) => true
    case NotifySignal => s.signalling > 0
    case TakeSignal => s.loop == Waiting && s.token
    case DebounceElapsed => s.loop == Debouncing
    case SwapBuffer => s.loop == Flushing
    case SendSucceeded => s.loop.Sending?
    case SendFailed => s.loop.Sending?
    case Resignal => s.loop == Resignalling
    case Cancel => true
    case Stop => s.cancelled && (s.loop == Waiting || s.loop == Debouncing)
  }

  function Next(s: State, step: Step): State
    requires Enabled(s, step)
  {
    match step
    case NotifyBuffer(es, ds) =>
      s.(entries := s.entries + es, deleted := s.deleted + ds, pending := true, signalling := s.signalling + 1,
         notifiedEntries := s.notifiedEntries + es, notifiedDeleted := s.notifiedDeleted + ds)
    case NotifySignal => s.(token := true, signalling := s.signalling - 1)
    case TakeSignal => s.(token := false, loop := Debouncing)
    case DebounceElapsed => s.(loop := Flushing)
    case SwapBuffer =>
      s.(entries := [], deleted := [], pending := false,
         loop := if s.entries == [] && s.deleted == [] then Waiting else Sending(s.entries, s.deleted))
    case SendSucceeded =>
      s.(loop := Waiting, settled := s.settled + [Settled(s.loop.entries, s.loop.deleted, true)])
    case SendFailed =>
      if s.cancelled then s.(loop := Waiting, settled := s.settled + [Settled(s.loop.entries, s.loop.deleted, false)])
      else s.(entries := s.loop.entries + s.entries, deleted := s.loop.deleted + s.deleted, pending := true,
              loop := Resignalling)
    case Resignal => s.(token := true, loop := Waiting)
    case Cancel => s.(cancelled := true)
    case Stop => s.(loop := Stopped)
  }

  /** The steps can be taken one after the other, each from where the previous one led. */
  predicate Runs(s: State, steps: seq<Step>)
    decreases |steps|
  {
    steps == [] || (Enabled(s, steps[0]) && Runs(Next(s, steps[0]), steps[1..]))
  }

  function After(s: State, steps: seq<Step>): State
    requires Runs(s, steps)
    decreases |steps|
  {
    if steps == [] then s else After(Next(s, steps[0]), steps[1..])
  }

  function SettledEntries(log: seq<Settled>): seq<Entry>
  {
    if log == [] then [] else SettledEntries(log[..|log| - 1]) + log[|log| - 1].entries
  }

  function SettledDeleted(log: seq<Settled>): seq<string>
  {
    if log == [] then [] else SettledDeleted(log[..|log| - 1]) + log[|log| - 1].deleted
  }

  function InFlightEntries(s: State): seq<Entry>
  {
    if s.loop.Sending? then s.loop.entries else []
  }

  function InFlightDeleted(s: State): seq<string>
  {
    if s.loop.Sending? then s.loop.deleted else []
  }

  predicate Buffered(s: State)
  {
    s.entries != [] || s.deleted != []
  }

  /** Every notified item is settled, in flight or buffered, in the order of the lock. */
  predicate Conserved(s: State)
  {
    && SettledEntries(s.settled) + InFlightEntries(s) + s.entries == s.notifiedEntries
    && SettledDeleted(s.settled) + InFlightDeleted(s) + s.deleted == s.notifiedDeleted
  }

  /** A non-empty buffer will be looked at: a signal is queued or about to be, or a flush is under way. */
  predicate Awake(s: State)
  {
    Buffered(s) ==>
      s.token || s.signalling > 0 || s.loop in {Debouncing, Flushing, Resignalling, Stopped}
  }

  /** What the loop and the signals guarantee, apart from conservation. */
  predicate Live(s: State)
  {
    && Awake(s)
    && (Buffered(s) ==> s.pending)
    && (s.loop.Sending? ==> s.loop.entries != [] || s.loop.deleted != [])
    && (!s.cancelled ==> s.loop != Stopped && forall i | 0 <= i < |s.settled| :: s.settled[i].delivered)
  }

  predicate Inv(s: State)
  {
    Conserved(s) && Live(s)
  }

  /** How one of the two lists moves between settled `a`, in flight `b` and buffered `c`. */
  lemma Buffering<T>(a: seq<T>, b: seq<T>, c: seq<T>, more: seq<T>, all: seq<T>)
    requires a + b + c == all
    ensures a + b + (c + more) == all + more
  {
  }

  lemma Swapping<T>(a: seq<T>, c: seq<T>, all: seq<T>)
    requires a + [] + c == all
    ensures a + c + [] == all && (c == [] ==> a + [] + [] == all)
  {
  }

  lemma Settling<T>(a: seq<T>, b: seq<T>, c: seq<T>, all: seq<T>)
    requires a + b + c == all
    ensures (a + b) + [] + c == all
    ensures a + [] + (b + c) == all
  {
  }

  lemma SettledSnoc(log: seq<Settled>, r: Settled)
    ensures SettledEntries(log + [r]) == SettledEntries(log) + r.entries
    ensures SettledDeleted(log + [r]) == SettledDeleted(log) + r.deleted
  {
  }

  /** A push that is answered moves its batch to the log, or back in front of the buffer. */
  lemma AnswerConserves(s: State, step: Step)
    requires Conserved(s) && Enabled(s, step) && (step.SendSucceeded? || step.SendFailed?)
    ensures Conserved(Next(s, step))
  {
    SettledSnoc(s.settled, Settled(s.loop.entries, s.loop.deleted, step.SendSucceeded?));
    Settling(SettledEntries(s.settled), s.loop.entries, s.entries, s.notifiedEntries);
    Settling(SettledDeleted(s.settled), s.loop.deleted, s.deleted, s.notifiedDeleted);
  }

  lemma StepConserves(s: State, step: Step)
    requires Conserved(s) && Enabled(s, step)
    ensures Conserved(Next(s, step))
  {
    var (a, x) := (SettledEntries(s.settled), SettledDeleted(s.settled));
    match step
    case NotifyBuffer(es, ds) =>
      Buffering(a, InFlightEntries(s), s.entries, es, s.notifiedEntries);
      Buffering(x, InFlightDeleted(s), s.deleted, ds, s.notifiedDeleted);
    case SwapBuffer =>
      Swapping(a, s.entries, s.notifiedEntries);
      Swapping(x, s.deleted, s.notifiedDeleted);
    case SendSucceeded => AnswerConserves(s, step);
    case SendFailed => AnswerConserves(s, step);
    case _ =>
  }

  lemma StepKeepsLive(s: State, step: Step)
    requires Live(s) && Enabled(s, step)
    ensures Live(Next(s, step))
  {
  }

  lemma StepKeepsInv(s: State, step: Step)
    requires Inv(s) && Enabled(s, step)
    ensures Inv(Next(s, step))
  {
    StepConserves(s, step);
    StepKeepsLive(s, step);
  }

  lemma {:induction false} RunKeepsInv(s: State, steps: seq<Step>)
    requires Inv(s) && Runs(s, steps)
    ensures Inv(After(s, steps))
    decreases |steps|
  {
    if steps == [] {
    } else {
      StepKeepsInv(s, steps[0]);
      RunKeepsInv(Next(s, steps[0]), steps[1..]);
    }
  }

  /**
   * Every interleaving: nothing notified is lost, duplicated or reordered, no wake-up is lost, and
   * before cancellation everything settled has been delivered.
   */
  lemma EveryInterleavingConserves(steps: seq<Step>)
    requires Runs(INITIAL, steps)
    ensures var s := After(INITIAL, steps);
            && Conserved(s)
            && Awake(s)
            && (!s.cancelled ==> s.loop != Stopped && forall i | 0 <= i < |s.settled| :: s.settled[i].delivered)
  {
    RunKeepsInv(INITIAL, steps);
  }

  // ----- No deadlock: every reachable state can still deliver everything -----

  predicate Quiet(step: Step)
  {
    !step.NotifyBuffer? && !step.Cancel? && !step.SendFailed?
  }

  predicate AllDelivered(s: State)
  {
    !Buffered(s) && !s.loop.Sending? && SettledEntries(s.settled) == s.notifiedEntries
    && SettledDeleted(s.settled) == s.notifiedDeleted && forall i | 0 <= i < |s.settled| :: s.settled[i].delivered
  }

  /** Steps left until everything is delivered, if the client accepts. */
  function Distance(s: State): (r: nat)
    ensures r <= 7
  {
    match s.loop
    case Sending(_, _) => if Buffered(s) then 7 else 1
    case Resignalling => 7
    case Debouncing => 3
    case Flushing => 2
    case _ => if !Buffered(s) then 0 else if s.token then 4 else 5
  }

  /** The next step towards delivery, taken by a notifier only when the loop has nothing to do. */
  function Advance(s: State): Step
  {
    match s.loop
    case Sending(_, _) => SendSucceeded
    case Resignalling => Resignal
    case Debouncing => DebounceElapsed
    case Flushing => SwapBuffer
    case _ => if s.token then TakeSignal else NotifySignal
  }

  lemma AdvanceIsCloser(s: State)
    requires Inv(s) && !s.cancelled && Distance(s) > 0
    ensures Enabled(s, Advance(s)) && Quiet(Advance(s))
    ensures Inv(Next(s, Advance(s))) && !Next(s, Advance(s)).cancelled
    ensures Distance(Next(s, Advance(s))) < Distance(s)
  {
    StepKeepsInv(s, Advance(s));
  }

  lemma DrainedIsDelivered(s: State)
    requires Inv(s) && !s.cancelled && Distance(s) == 0
    ensures AllDelivered(s)
  {
    assert SettledEntries(s.settled) + [] + [] == SettledEntries(s.settled);
    assert SettledDeleted(s.settled) + [] + [] == SettledDeleted(s.settled);
  }

  lemma StepThenRun(s: State, step: Step, rest: seq<Step>)
    requires Enabled(s, step) && Runs(Next(s, step), rest)
    ensures Runs(s, [step] + rest) && After(s, [step] + rest) == After(Next(s, step), rest)
  {
    assert ([step] + rest)[1..] == rest;
  }

  lemma {:induction false} CanDrain(s: State) returns (steps: seq<Step>)
    requires Inv(s) && !s.cancelled
    ensures Runs(s, steps) && |steps| <= Distance(s) && forall i | 0 <= i < |steps| :: Quiet(steps[i])
    ensures AllDelivered(After(s, steps))
    decreases Distance(s)
  {
    if Distance(s) == 0 {
      steps := [];
      DrainedIsDelivered(s);
    } else {
      AdvanceIsCloser(s);
      var rest := CanDrain(Next(s, Advance(s)));
      steps := [Advance(s)] + rest;
      StepThenRun(s, Advance(s), rest);
    }
  }

  /** From every state reachable without cancellation, at most seven steps and no new failure deliver all. */
  lemma EveryRunCanDrain(run: seq<Step>) returns (steps: seq<Step>)
    requires Runs(INITIAL, run) && !After(INITIAL, run).cancelled
    ensures Runs(After(INITIAL, run), steps) && |steps| <= 7
    ensures forall i | 0 <= i < |steps| :: Quiet(steps[i])
    ensures AllDelivered(After(After(INITIAL, run), steps))
  {
    var reached := After(INITIAL, run);
    assert Inv(reached) by {
      RunKeepsInv(INITIAL, run);
    }
    steps := CanDrain(reached);
  }
}
