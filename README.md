# Fixed-window API rate limiter: a Dafny model of the limiter engine

The service gives each client a quota of requests per fixed time window and
reports how much of it is left. This project models its engine, `limiter.go`:

- the `Limiter` of one client: a used-request counter, a quota and a window
  length fixed at construction. It has three getters, `IncrementRequestsUsed`
  (refused with "Too Many Requests" once the quota is used up) and `Clear`.
- the rollover task `startWindow`, started by `NewLimiter`. It clears the
  counter on every tick of a ticker and returns when `Shutdown` sends on the
  done channel.
- the process-wide client registry. It is a map from client id to limiter
  that may be initialised only once. A second attempt returns
  "Client rate limite map already instantiated".

Modules, one per component:

- `Errors` (errors.dfy): the two constant errors, the `error` result (`Outcome`) and `Option`.
- `FixedWindow` (fixed_window.dfy): the counter as a value, the operations on it, and Go's int64 duration arithmetic. It also holds the lemmas about consecutive requests in one window.
- `Window` (window.dfy): the rollover task as a step function over `Tick` and `Done` signals. It also models any interleaving of caller calls with those signals and proves the invariant over it.
- `Limiters` (limiter.dfy): the `Limiter` class. Its state is updated in place. Every method is proved against the functions of `FixedWindow` and `Window`.
- `Registry` (registry.dfy): the registry as a value (`None` is Go's nil map) and the `ClientRegistry` object that holds it.

The invariant is `0 <= usedRequests <= allowedRequests`, or equivalently
`0 <= GetRequestsAvailable() <= GetRequestLimit()`. `NewLimiter` establishes
it and every operation preserves it. `Window.ReachableWithinLimit` proves that
it holds after any sequence of calls and signals. The check in
`IncrementRequestsUsed` is `usedRequests == allowedRequests`, so it protects
the quota only when the quota is not negative. `NewLimiter` does not check
this, so the model requires a non-negative quota and window length.
`FixedWindow.NegativeQuotaAdmitsUntilOverflow` shows what happens without
that requirement: the limiter admits every request until usedRequests
overflows.

Two things the code does that a reader might not expect:

- A second `Shutdown` does not return. It sends on an unbuffered channel that
  nothing reads any more, so it blocks forever. The model reports this as
  `received == false`.
- The window length is an int64 nanosecond count. It wraps for windows longer
  than 9,223,372,036,854 ms (`FixedWindow.MillisToDurationWraps`).

## Model

| member | source | states |
|---|---|---|
| Errors.Message | limiter.go:8-13 | each error carries a non-empty constant text (`Error()` returns it, lines 24-26) |
| FixedWindow.WrapInt64 | limiter.go:129-130 | int64 two's complement wrap: the result is in int64 range, congruent to the exact value mod 2^64, and equal to it when it fits |
| FixedWindow.MillisToDuration | limiter.go:129-130 | `time.Duration(ms) * time.Millisecond` is an int64 and equals ms × 1,000,000 ns whenever the product fits in int64, negative ms included; for 0 <= ms <= MaxInt64 / 1,000,000 it is that non-negative product |
| FixedWindow.MillisToDurationWraps | limiter.go:129-130 | one millisecond past 9,223,372,036,854 ms the product wraps to a negative duration |
| FixedWindow.MillisToDurationWrapsToZero | limiter.go:129-130 | a window of 2^58 ms wraps to a duration of exactly zero |
| FixedWindow.Fresh | limiter.go:126-128 | a new counter has nothing used, so the available count equals the quota, and it is valid when the quota is not negative |
| FixedWindow.Increment | limiter.go:82-89 | refused with TooManyRequests exactly when used equals the quota, and then nothing changes; otherwise used grows by one and available drops by one; the quota never changes; validity is preserved |
| FixedWindow.Clear | limiter.go:93-97 | used becomes 0 whatever it was, so available equals the quota; the quota is kept; the result is valid for a non-negative quota |
| FixedWindow.ClearIdempotent | limiter.go:93-97 | clearing twice is clearing once |
| FixedWindow.ValidIffAvailableWithinLimit | limiter.go:64-66 | `0 <= used <= allowed` holds exactly when `0 <= available <= limit` |
| FixedWindow.IncrementTimes | limiter.go:82-89 | k consecutive increments give one outcome per call, keep the quota and keep validity |
| FixedWindow.AdmittedWhileQuotaLeft | limiter.go:82-89 | from a valid counter, up to `available` consecutive requests are all admitted and add exactly one each |
| FixedWindow.RefusedOnceExhausted | limiter.go:83-85 | once used equals the quota, every further request is refused and the counter does not move |
| FixedWindow.IncrementTimesAdditive | limiter.go:82-89 | j then k consecutive requests have the same effect and outcomes as j + k requests |
| FixedWindow.ExactlyQuotaAdmitted | limiter.go:82-89 | from a fresh counter with quota n, the first n requests are admitted, all later ones are refused, and available is then 0 |
| FixedWindow.NextAfterQuotaRefused | limiter.go:82-89 | from a fresh counter with quota n, request n+1 is the one refused, with 0 available |
| FixedWindow.NegativeQuotaAdmitsUntilOverflow | limiter.go:83-87 | with a counter already past its quota (a negative quota), the equality check never fires: every request is admitted, each adding one, as long as usedRequests stays within int64 |
| Window.Step | limiter.go:110-117 | a tick while running clears the counter; done stops the task and leaves the counter alone; once stopped, no signal has any effect; the quota never changes |
| Window.Run | limiter.go:108-120 | handling signals in order keeps the quota and the invariant, and a stopped task stays stopped |
| Window.StoppedIgnoresSignals | limiter.go:114-116 | after the task has returned, no sequence of signals changes the counter |
| Window.RunAppend | limiter.go:110-118 | handling a + b is handling a and then b |
| Window.DoneEndsRollover | limiter.go:114-116 | the first done stops the rollover for good: the counter is what the earlier signals made it, and later ticks do not clear it |
| Window.Apply | limiter.go:82-117 | one call on a limiter (request, manual clear, or signal) keeps the quota and the invariant; only a request can fail; a manual clear restores the full quota in either phase |
| Window.Trace | limiter.go:82-117 | no sequence of calls changes the quota |
| Window.TraceKeepsValid | limiter.go:82-117 | any interleaving of requests, clears, ticks and shutdowns preserves `0 <= used <= allowed` |
| Window.ReachableWithinLimit | limiter.go:125-132 | from a new limiter with quota n >= 0, every reachable state has `0 <= available <= n` and limit n |
| Window.NoRolloverAfterShutdown | limiter.go:114-116 | after shutdown, without a manual clear, the used count never goes down, and the task stays stopped |
| Limiters.Limiter.NewLimiter | limiter.go:125-137 | nothing used; the quota as given, so available equals limit; the interval is the milliseconds converted to a Duration; the rollover task is running |
| Limiters.Limiter.GetRequestsAvailable | limiter.go:62-66 | available is the quota minus the used count; it lies in `[0, limit]` for a valid limiter; it is 0 exactly when the quota is used up |
| Limiters.Limiter.GetRequestLimit | limiter.go:68-72 | the quota of the counter, in `[0, MaxInt64]` for a valid limiter |
| Limiters.Limiter.GetTimeframeInterval | limiter.go:74-78 | the window length fixed at construction, an int64 |
| Limiters.Limiter.IncrementRequestsUsed | limiter.go:80-90 | the new counter and the error are those of `Increment`; it fails exactly when nothing was available, and then the count is unchanged; on success available drops by one; the invariant is kept |
| Limiters.Limiter.Clear | limiter.go:92-97 | the counter becomes `Clear` of the old one, so available equals limit; the invariant is kept |
| Limiters.Limiter.Receive | limiter.go:110-117 | the limiter moves as `Window.Step` says; the signal is received exactly when the task was still running |
| Limiters.Limiter.Shutdown | limiter.go:99-102 | the task is stopped and the counter is kept; the send is received only by a running task (a second Shutdown would block) |
| Limiters.Limiter.StartWindow | limiter.go:104-120 | the limiter ends as `Window.Run` of the signals; only ticks come before the done that ends the loop; signals after it are not taken |
| Registry.Initialize | limiter.go:54-60 | succeeds exactly on the nil map and then creates an empty map; otherwise returns ClientMapExists with the map unchanged |
| Registry.Find | server.go:110 | a client is found exactly when the map exists and holds its id, and the result is that entry |
| Registry.Insert | main.go:28 | the id is added to the keys and then maps to the given limiter |
| Registry.InitializeOnce | limiter.go:54-57 | initialising twice: the second call fails with ClientMapExists and leaves the map the first call produced |
| Registry.InitializedEmpty | limiter.go:58 | a newly initialised registry finds no client |
| Registry.FailedInitializeKeepsEntries | limiter.go:55-56 | a refused initialisation keeps every registered client |
| Registry.InsertOnlyAffectsItsId | main.go:28 | registering a client changes the lookup of that id only |
| Registry.ClientRegistry.constructor | limiter.go:15-17 | the registry starts as the nil map |
| Registry.ClientRegistry.InitClientRateLimiterMap | limiter.go:52-60 | the registry and the error are those of `Initialize`: the empty map on the first call, ClientMapExists and nothing changed after that |
| Registry.ClientRegistry.Register | main.go:28 | the map gets the entry; that id now finds the limiter, and every other id finds what it found before |
| Registry.ClientRegistry.Lookup | server.go:110-115 | the registered limiter, or None for an id that was never registered or when the map was never initialised |

## Left out

- Concurrency. The goroutine started by `NewLimiter`, the real ticker, the `select` and the done channel are not modelled. Ticks and shutdowns are explicit signals applied one at a time. Nothing about wall-clock time is modelled. "The counter resets after one window" is modelled as "a tick clears the counter".
- The mutex and the check-then-lock race in `IncrementRequestsUsed`. The model is sequential, so the check and the increment form one atomic step. Over-admission by concurrent callers cannot be expressed here.
- Limiters.Limiter.Shutdown: the Go call blocks forever when the task has already returned. The model returns `received == false` instead.
- Limiters.Limiter.NewLimiter: it requires a quota and a window length of at least 0, which the Go code does not check. `FixedWindow.NegativeQuotaAdmitsUntilOverflow` states what a negative quota does up to the int64 overflow of usedRequests; the wrap past MaxInt64 and the eventual refusal at the negative quota are not modelled. Go's ticker panics inside the task for any duration of 0 or less. That includes a zero window and a window whose millisecond product wraps to a non-positive duration (`FixedWindow.MillisToDurationWraps`, `FixedWindow.MillisToDurationWrapsToZero`). The model does not capture that panic: `NewLimiter` still ensures the task is running.
- Go's `int` is taken to be 64 bits wide. `usedRequests++` cannot overflow under the invariant, so it is not wrapped; only a negative quota, outside the invariant, could reach the wrap.
- The `RateLimiter` interface. It has one implementation, and the class's members are its operations.
- The HTTP transport in server.go is not part of this model: routing, the empty-id 400 check, JSON encoding and status codes. Only its registry lookup (server.go:110) is modelled.
- The process entry point in main.go is not part of this model: printing, signal handling, server shutdown and the loop that creates ten demonstration clients. Only the map assignment at main.go:28 is modelled, as `Register`.
