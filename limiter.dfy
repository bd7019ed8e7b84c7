/** The fixed-window limiter of one client: a counter of the requests used
    in the current window against a quota fixed at construction, and the
    rollover task that clears the counter once per window until shutdown.
    Each method is proved against the value-level functions of modules
    FixedWindow and Window. */
module Limiters {
  import opened Errors
  import opened FixedWindow
  import Window

  class Limiter {
    /** Requests admitted in the current window; the only field callers change. */
    var usedRequests: int
    /** The quota of one window. */
    const allowedRequests: int
    /** The window length in nanoseconds. */
    const timeframeInterval: int
    /** Whether the rollover task started at construction is still running. */
    var phase: Window.Phase

    /** The counter invariant, and the int64 range of the Go fields. */
    ghost predicate Valid()
      reads this
    {
      && FixedWindow.Valid(Current())
      && allowedRequests <= MaxInt64
      && IsInt64(timeframeInterval)
    }

    /** The counter as a value. */
    function Current(): Counter
      reads this
    {
      Counter(usedRequests, allowedRequests)
    }

    /** The counter and the phase of the rollover task, as a value. */
    function Snapshot(): Window.State
      reads this
    {
      Window.State(phase, Current())
    }

    /** NewLimiter: nothing used yet, the quota as given, the window length
        converted from milliseconds, and the rollover task running. */
    constructor NewLimiter(allowedRequests: int, timeframeMilliseconds: int)
      requires 0 <= allowedRequests <= MaxInt64
      requires 0 <= timeframeMilliseconds <= MaxInt64
      ensures Valid()
      ensures Current() == Fresh(allowedRequests)
      ensures GetRequestsAvailable() == GetRequestLimit() == allowedRequests
      ensures timeframeInterval == MillisToDuration(timeframeMilliseconds)
      ensures timeframeMilliseconds <= MaxInt64 / Millisecond ==>
                GetTimeframeInterval() == timeframeMilliseconds * Millisecond
      ensures phase == Window.Active
    {
      usedRequests := 0;
      this.allowedRequests := allowedRequests;
      timeframeInterval := MillisToDuration(timeframeMilliseconds);
      phase := Window.Active;
    }

    /** The requests still admitted in the current window. */
    function GetRequestsAvailable(): (n: int)
      reads this
      ensures n == Available(Current())
      ensures Valid() ==> 0 <= n <= GetRequestLimit()
      ensures n == 0 <==> usedRequests == allowedRequests
    {
      allowedRequests - usedRequests
    }

    /** The quota of one window. */
    function GetRequestLimit(): (n: int)
      reads this
      ensures n == Current().allowed
      ensures Valid() ==> 0 <= n <= MaxInt64
    {
      allowedRequests
    }

    /** The window length. */
    function GetTimeframeInterval(): (d: int)
      reads this
      ensures d == timeframeInterval
      ensures Valid() ==> IsInt64(d)
    {
      timeframeInterval
    }

    /** IncrementRequestsUsed: refuses with TooManyRequests, changing
        nothing, when the quota is used up; otherwise admits one request. */
    method IncrementRequestsUsed() returns (err: Outcome)
      requires Valid()
      modifies this`usedRequests
      ensures Valid()
      ensures (Current(), err) == Increment(old(Current()))
      ensures err == Fail(TooManyRequests) <==> old(GetRequestsAvailable()) == 0
      ensures err == Fail(TooManyRequests) ==> usedRequests == old(usedRequests)
      ensures err == Pass ==> GetRequestsAvailable() == old(GetRequestsAvailable()) - 1
    {
      if usedRequests == allowedRequests {
        return Fail(TooManyRequests);
      }
      usedRequests := usedRequests + 1;
      return Pass;
    }

    /** Clear: starts a new window whatever was used before. */
    method Clear()
      requires Valid()
      modifies this`usedRequests
      ensures Valid()
      ensures Current() == FixedWindow.Clear(old(Current()))
      ensures GetRequestsAvailable() == GetRequestLimit()
    {
      usedRequests := 0;
    }

    /** One pass of the rollover task's select loop. `received` is false when
        the task has already returned, so nothing takes the signal. */
    method Receive(sig: Window.Signal) returns (received: bool)
      requires Valid()
      modifies this`usedRequests, this`phase
      ensures Valid()
      ensures Snapshot() == Window.Step(old(Snapshot()), sig)
      ensures received <==> old(phase) == Window.Active
    {
      if phase == Window.Stopped {
        return false;
      }
      match sig {
        case Tick => Clear();
        case Done => phase := Window.Stopped;
      }
      return true;
    }

    /** Shutdown: sends on the done channel. The rollover task stops and the
        counter is left as it is. `received` false stands for a second
        Shutdown, whose send nothing takes: in the Go program that call
        blocks for ever. */
    method Shutdown() returns (received: bool)
      requires Valid()
      modifies this`phase
      ensures Valid()
      ensures phase == Window.Stopped
      ensures Snapshot() == Window.Step(old(Snapshot()), Window.Done)
      ensures received <==> old(phase) == Window.Active
    {
      received := phase == Window.Active;
      phase := Window.Stopped;
    }

    /** startWindow: the rollover task handling the signals that reach it,
        in order, until the done signal makes it return. `consumed` is how
        many it took; the rest arrive after it returned. */
    method StartWindow(signals: seq<Window.Signal>) returns (consumed: nat)
      requires Valid()
      modifies this`usedRequests, this`phase
      ensures Valid()
      ensures consumed <= |signals|
      ensures Snapshot() == Window.Run(old(Snapshot()), signals)
      ensures consumed < |signals| ==> phase == Window.Stopped
      ensures forall i :: 0 <= i < consumed - 1 ==> signals[i] == Window.Tick
      ensures old(phase) == Window.Active && phase == Window.Stopped ==>
                0 < consumed && signals[consumed - 1] == Window.Done
    {
      consumed := 0;
      while consumed < |signals| && phase == Window.Active
        invariant consumed <= |signals|
        invariant Valid()
        invariant Window.Run(Snapshot(), signals[consumed..]) == Window.Run(old(Snapshot()), signals)
        invariant forall i :: 0 <= i < consumed - 1 ==> signals[i] == Window.Tick
        invariant phase == Window.Stopped || forall i :: 0 <= i < consumed ==> signals[i] == Window.Tick
        invariant old(phase) == Window.Active && phase == Window.Stopped ==>
                    0 < consumed && signals[consumed - 1] == Window.Done
        invariant old(phase) == Window.Stopped ==> consumed == 0 && phase == Window.Stopped
      {
        assert signals[consumed..][1..] == signals[consumed + 1..];
        var received := Receive(signals[consumed]);
        consumed := consumed + 1;
      }
      if consumed < |signals| {
        Window.StoppedIgnoresSignals(Current(), signals[consumed..]);
      }
    }
  }
}
