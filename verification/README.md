# Supervision loop of `visualize_audio`

This project models the supervision part of `visualize_audio` in
`src/main.rs`, a small program that runs a GStreamer pipeline turning an audio
file into a projectM visualisation video. Once the pipeline is built, the
function does three things:

1. It asks the pipeline to enter `Playing`. If that fails, it returns the error.
2. It reads bus messages one at a time, in arrival order, until the bus
   iterator ends (it blocks while the bus is empty, since no timeout is given).
   Each message gets one reaction:
   - end of stream sets `eos_received` and breaks out of the loop;
   - an error message breaks out of the loop;
   - a state change of the pipeline itself to `Paused` requests `Playing`;
   - buffering below 100% requests `Paused`, and at 100% or above requests
     `Playing`;
   - a latency message recalculates the latency, and panics if that fails;
   - a lost clock requests `Playing`, and panics if that fails;
   - every other message is only logged.
   A failed request for a pause or resume (`?`) returns the error at once.
3. After a normal loop exit it warns when no end of stream was seen, requests
   `Null`, and returns `Ok(())` whatever the `Null` request's result.

The files:

- `gst.dfy` (module `Gst`) holds the engine's states and the bus messages.
  An `Engine` value gives the engine's verdict on the n-th `set_state` and on
  the n-th latency recalculation. `Pipeline` is a class whose `SetState` and
  `RecalculateLatency` record each request in place and return that verdict.
- `supervisor.dfy` (module `Supervisor`) has four parts:
  - `React`, the policy for one message;
  - `Drain`, the message loop as a function of the verdicts and the bus
    contents;
  - `Visualize`, a whole run;
  - `VisualizeAudio`, the loop written as the source writes it: a `while` loop
    over the bus with a mutable `eosReceived` flag, `break`s and early returns,
    driving a freshly built `Pipeline`. Its postcondition says it computes
    exactly `Visualize`.
- `properties.dfy` (module `SupervisorProperties`) holds the lemmas that say
  what a run guarantees.

The model follows the code as written, even where a supervisor might be
expected to behave otherwise:

- No `Null` request on `?` exits. A failed in-loop request returns through
  `?` and skips the `Null` shutdown. Only the three normal loop exits reach it:
  end of stream, an error message, and the end of the bus iterator.
- A failed latency recalculation or clock-loss resume is not tolerated. It
  panics through `unwrap`, and `Outcome.Panicked` models that.
- Buffering at any value of 100 or more resumes playback. There is no special
  case for exactly 100.
- A root-level pause is always answered with `Playing`. The loop keeps no
  record of whether it asked for the pause itself. So a buffering pause is
  undone as soon as the pipeline reports it (`BufferingPauseIsUndone`).

## Model

| member | source | states |
|---|---|---|
| `Gst.Pipeline.constructor` | src/main.rs:24 | a freshly built pipeline has been asked for nothing yet |
| `Gst.Pipeline.SetState` | src/main.rs:52 | a state request is appended to the pipeline's log, and its success is the engine's verdict on that request |
| `Gst.Pipeline.RecalculateLatency` | src/main.rs:124 | a recalculation is counted, and its success is the engine's verdict on it |
| `Supervisor.React` | src/main.rs:70-140 | the loop ends exactly on end of stream or an error, with the flag set only for end of stream. It recalculates exactly on latency messages. It requests `Paused` exactly for buffering below 100%. It requests `Playing` exactly for a root-level pause, for buffering at or above 100%, and for a lost clock. Only the lost clock's request panics on failure |
| `Supervisor.Drain` | src/main.rs:67-141 | the loop only appends to the request log and never requests `Null`. It reads at most the whole message sequence, and all of it when it leaves because the iterator ended |
| `Supervisor.Visualize` | src/main.rs:50-156 | the first request is always `Playing`. The end-of-stream flag is only set on `Ok` runs. `Null` is requested exactly when the run returns `Ok` |
| `Supervisor.VisualizeAudio` | src/main.rs:50-156 | the loop's outcome, flag, request log, recalculation count and number of messages read are exactly those of `Visualize` |
| `SupervisorProperties.InitialRefusal` | src/main.rs:52-60 | if the initial `Playing` request fails, the run returns that error before reading any message, and `Null` is never requested |
| `SupervisorProperties.DrainAppend` | src/main.rs:67-141 | messages are handled one by one in arrival order. After a prefix handled without leaving the loop, the rest is handled exactly as if it came alone |
| `SupervisorProperties.TerminalEndsLoop` | src/main.rs:71-84 | an end-of-stream or error message is read, ends the loop, requests nothing, and nothing after it is read |
| `SupervisorProperties.EosEndsRun` | src/main.rs:71-75 | a run reaching end of stream sets the flag, reads nothing after it, requests only `Null` from then on, and returns `Ok` |
| `SupervisorProperties.ErrorEndsRunWithoutEos` | src/main.rs:76-84 | a run reaching an error message stops there with the flag false, still requests `Null`, and returns `Ok` |
| `SupervisorProperties.ExhaustedMeansNoTerminal` | src/main.rs:67-141 | if the loop ends because the bus iterator ended, no end-of-stream or error message was among the messages |
| `SupervisorProperties.StopPoint` | src/main.rs:67-141 | when the loop stops early, everything before the last message read was handled without leaving the loop, and that last message alone decides the exit |
| `SupervisorProperties.RunExit` | src/main.rs:143-145 | the flag is set exactly when the last message read was end of stream. An `Ok` run without it ended on an error message, or read every message until the iterator ended, none of them terminal |
| `SupervisorProperties.RefusalEndsLoop` | src/main.rs:107-135 | after any prefix that stays in the loop, a message whose request the engine refuses ends the loop at once: its state is logged, nothing after it is read, and the loop returns that state (`?`) or panics (the lost clock's `unwrap`) |
| `SupervisorProperties.RecalcRefusalPanics` | src/main.rs:121-126 | after any prefix that stays in the loop, a latency message whose recalculation is refused ends the loop with a panic, and nothing after it is read |
| `SupervisorProperties.RefusalEndsRun` | src/main.rs:107-135 | a run in which a request is refused returns that state as `Err` for the `?` arms (lines 107, 115, 118) or panics for the lost clock (line 135). It reads nothing after that message and never requests `Null` |
| `SupervisorProperties.RecalcRefusalEndsRun` | src/main.rs:121-126 | a run in which a latency recalculation is refused panics right after that message and never requests `Null` |
| `SupervisorProperties.LastMessage` | src/main.rs:107-135 | conversely, when a single message stops the loop by `Returned`, it was a `?` request the engine refused. When it stops by `Panic`, it was a refused latency recalculation or a refused clock-loss request |
| `SupervisorProperties.RunError` | src/main.rs:107-118 | an error names the refused state, which is the last request and one the engine refused. Either it is the initial `Playing` with no message read, or the request of the last message read, failing with `?` |
| `SupervisorProperties.RunPanic` | src/main.rs:121-136 | a panic comes from the last message read: a latency message whose recalculation was refused, or a lost clock whose `Playing` request was refused |
| `SupervisorProperties.SessionLog` | src/main.rs:67-141 | for every engine, the final log is the messages read, taken in arrival order: the state the policy asks for on each (the last possibly refused), and one recalculation per latency message |
| `SupervisorProperties.CompliantSession` | src/main.rs:67-141 | when the engine grants everything, the loop reads exactly the messages up to the first terminal one. It requests, in arrival order, the states the policy asks for on each, and recalculates once per latency message |
| `SupervisorProperties.CompliantExit` | src/main.rs:67-141 | when the engine grants everything, the loop drains the bus if it holds no terminal message, and otherwise breaks on the first one, setting the flag only for end of stream |
| `SupervisorProperties.BufferingExample` | src/main.rs:111-119 | buffering at 42% then at 100% requests `Paused` then `Playing`, between the start and the shutdown |
| `SupervisorProperties.RootPauseAlwaysResumed` | src/main.rs:94-107 | a root-level pause requests `Playing` whatever came before it. The run continues if the engine grants that, and returns an error otherwise |
| `SupervisorProperties.BufferingPauseIsUndone` | src/main.rs:94-115 | after any prefix that stays in the loop, buffering below 100% followed by the pipeline reporting `Paused` requests `Paused` then `Playing`: the buffering pause is undone at once |
| `SupervisorProperties.NullOnlyOnNormalExit` | src/main.rs:147-156 | on an `Ok` run `Null` is requested exactly once, as the last request. An error or a panic never requests it |
| `SupervisorProperties.DrainFrame` | src/main.rs:67-141 | the loop depends on the engine only through the verdicts on the requests and the recalculations it makes |
| `SupervisorProperties.NullVerdictIgnored` | src/main.rs:149-156 | the run is the same whether or not the engine grants the `Null` request |

## Left out

- GStreamer initialisation, the environment lookups of the input and output
  file names with their defaults, and building the pipeline from its textual
  description (src/main.rs:11-32). These are configuration and foreign-library
  construction. Their errors (`gst::init()?`, `parse::launch(...)?`) are not
  modelled. The model starts from an already-built pipeline.
- The appsink `new_sample` callback (src/main.rs:35-45). It runs on the
  engine's streaming threads and only logs buffer sizes.
- All logging, including the per-element state dump when the pipeline pauses
  (src/main.rs:99-106). Its results only reach the log. Its state queries
  have no timeout and can block the loop, which the model does not capture.
- What the engine does with a request. State transitions, asynchronous
  completion, clock election and latency recalculation are opaque: each
  request's success is an input verdict. The bus contents are an input
  sequence too, so the model does not capture the feedback by which a request
  produces later messages.
- Blocking forever. `bus.iter_timed(gst::ClockTime::NONE)` (src/main.rs:67)
  waits without a timeout while the bus is empty. The model's bus is a finite
  sequence, and its end stands for the iterator returning `None`. A bus that
  goes quiet without end of stream or an error leaves the source waiting. The
  model instead ends the loop there and returns `Ok`, for example
  `[StreamStatus]` gives `Ok` with requests `[Playing, Null]`.
- The `pipeline.bus().unwrap()` at src/main.rs:64. A pipeline always has a
  bus, so the model assumes that one exists.
- The error value. The source returns the engine's state-change error through
  `anyhow`. `Outcome.Err` instead carries the state whose request failed. That
  state is a modelling aid for the lemmas, not something the source reports.
- The source of a state-change message is reduced to whether it is the
  pipeline itself. A message without a source counts as not from the pipeline,
  which the source also ignores.
- The `dynamic_cast_ref::<gst::Bin>()` guard around the latency
  recalculation (src/main.rs:123). The pipeline is always a bin, so the model
  always recalculates.
- The tokio runtime and `main` wrapper (src/main.rs:159-172). They only log
  the returned error.
- A panic is modelled as the `Panicked` outcome. Unwinding and the process
  abort are not modelled.
