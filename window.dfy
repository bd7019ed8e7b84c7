/** The window rollover of one limiter. At construction each limiter starts
    a background task that waits for whichever comes first, the next tick of
    a ticker with the window's period or a shutdown signal: a tick clears the
    counter, the shutdown signal stops the ticker and ends the task. Here the
    two events are explicit signals delivered in sequence; the clock, the
    task and the channel are not modelled. */
module Window {
  import opened Errors
  import opened FixedWindow

  /** Whether the rollover task is still running. */
  datatype Phase = Active | Stopped

  /** What the rollover task waits for: the ticker fired, or Shutdown sent
      on the done channel. */
  datatype Signal = Tick | Done

  /** A limiter's counter together with the phase of its rollover task. */
  datatype State = State(phase: Phase, counter: Counter)

  /** One pass of the select loop. Once the task has returned nothing
      receives: the ticker is stopped and no one reads the done channel. */
  function Step(s: State, sig: Signal): (r: State)
    ensures r.counter.allowed == s.counter.allowed
    ensures s.phase == Stopped ==> r == s
    ensures sig == Done ==> r.phase == Stopped && r.counter == s.counter
    ensures s.phase == Active && sig == Tick ==> r.phase == Active && Available(r.counter) == r.counter.allowed
  {
    match s.phase
    case Stopped => s
    case Active =>
      match sig
      case Tick => State(Active, FixedWindow.Clear(s.counter))
      case Done => State(Stopped, s.counter)
  }

  /** The rollover task receiving a sequence of signals in order. */
  function Run(s: State, sigs: seq<Signal>): (r: State)
    ensures r.counter.allowed == s.counter.allowed
    ensures Valid(s.counter) ==> Valid(r.counter)
    ensures s.phase == Stopped ==> r.phase == Stopped
    decreases |sigs|
  {
    if sigs == [] then s else Run(Step(s, sigs[0]), sigs[1..])
  }

  /** A stopped task never touches the counter again, whatever arrives. */
  lemma {:induction false} StoppedIgnoresSignals(c: Counter, sigs: seq<Signal>)
    ensures Run(State(Stopped, c), sigs) == State(Stopped, c)
    decreases |sigs|
  {
    if sigs != [] {
      StoppedIgnoresSignals(c, sigs[1..]);
    }
  }

  lemma {:induction false} RunAppend(s: State, a: seq<Signal>, b: seq<Signal>)
    ensures Run(s, a + b) == Run(Run(s, a), b)
    decreases |a|
  {
    if a != [] {
      assert (a + b)[0] == a[0];
      assert (a + b)[1..] == a[1..] + b;
      RunAppend(Step(s, a[0]), a[1..], b);
    } else {
      assert a + b == b;
    }
  }

  /** The first shutdown ends the rollover for good: the counter is left as
      the signals before it made it, and later ticks change nothing. */
  lemma DoneEndsRollover(s: State, before: seq<Signal>, after: seq<Signal>)
    ensures Run(s, before + [Done] + after) == State(Stopped, Run(s, before).counter)
  {
    RunAppend(s, before + [Done], after);
    RunAppend(s, before, [Done]);
    StoppedIgnoresSignals(Run(s, before).counter, after);
  }

  // ---------------------------------------------------------------------
  // Interleaving callers with the rollover task
  // ---------------------------------------------------------------------

  /** An operation on one limiter: a caller's IncrementRequestsUsed, a
      caller's Clear, or a signal to the rollover task. */
  datatype Call = Request | Reset | Deliver(signal: Signal)

  /** The new state and the error the call returns (Pass for the calls
      that cannot fail). */
  function Apply(s: State, call: Call): (r: (State, Outcome))
    ensures r.0.counter.allowed == s.counter.allowed
    ensures Valid(s.counter) ==> Valid(r.0.counter)
    ensures call != Request ==> r.1 == Pass
    ensures call == Reset ==> r.0.phase == s.phase && Available(r.0.counter) == s.counter.allowed
  {
    match call
    case Request =>
      var inc := Increment(s.counter);
      (State(s.phase, inc.0), inc.1)
    case Reset => (State(s.phase, FixedWindow.Clear(s.counter)), Pass)
    case Deliver(sig) => (Step(s, sig), Pass)
  }

  /** The state after a sequence of calls. */
  function Trace(s: State, calls: seq<Call>): (r: State)
    ensures r.counter.allowed == s.counter.allowed
    decreases |calls|
  {
    if calls == [] then s else Trace(Apply(s, calls[0]).0, calls[1..])
  }

  /** Every state reachable by any interleaving of calls keeps the invariant. */
  lemma {:induction false} TraceKeepsValid(s: State, calls: seq<Call>)
    requires Valid(s.counter)
    ensures Valid(Trace(s, calls).counter)
    decreases |calls|
  {
    if calls != [] {
      TraceKeepsValid(Apply(s, calls[0]).0, calls[1..]);
    }
  }

  /** From a newly constructed limiter with a non-negative quota, whatever
      happens, the available count stays between 0 and the limit. */
  lemma ReachableWithinLimit(allowed: int, calls: seq<Call>)
    requires allowed >= 0
    ensures var r := Trace(State(Active, Fresh(allowed)), calls);
      r.counter.allowed == allowed && 0 <= Available(r.counter) <= allowed
  {
    TraceKeepsValid(State(Active, Fresh(allowed)), calls);
  }

  /** After shutdown nothing but a caller's Clear gives quota back: without
      Reset calls the used count never goes down. */
  lemma {:induction false} NoRolloverAfterShutdown(c: Counter, calls: seq<Call>)
    requires forall i :: 0 <= i < |calls| ==> calls[i] != Reset
    ensures Trace(State(Stopped, c), calls).phase == Stopped
    ensures Trace(State(Stopped, c), calls).counter.used >= c.used
    decreases |calls|
  {
    if calls != [] {
      var next := Apply(State(Stopped, c), calls[0]).0;
      assert next.phase == Stopped && next.counter.used >= c.used;
      NoRolloverAfterShutdown(next.counter, calls[1..]);
    }
  }
}
