/** The parts of the media engine that the supervision loop talks to: the
    pipeline states, the bus messages it reacts to, and an abstract pipeline
    whose state-change and latency requests are answered by an oracle. */
module Gst {

  /** The engine's pipeline states. */
  datatype State = VoidPending | Null | Ready | Paused | Playing

  /** A bus message, reduced to what the supervision loop looks at.
      `StateChanged` records whether the message's source is the supervised
      pipeline itself (a message without a source counts as not from the
      pipeline) and the state it reached; `Other` stands for every message
      type the loop does not match on. */
  datatype Msg =
    | Eos
    | Error
    | StateChanged(fromPipelineRoot: bool, current: State)
    | Buffering(percent: int)
    | Latency
    | StreamStatus
    | DurationChanged
    | ClockLost
    | Other

  /** How the engine answers requests: `accepts(n)` is whether the n-th
      `set_state` request made to the pipeline succeeds, and
      `recalculates(n)` whether the n-th latency recalculation succeeds. */
  datatype Engine = Engine(accepts: nat -> bool, recalculates: nat -> bool)

  /** An already-constructed pipeline. It records every state it was asked
      to enter, in order, and how many latency recalculations it was asked
      for; the engine decides whether each request succeeds. */
  class Pipeline {
    const engine: Engine
    var requests: seq<State>
    var recalcs: nat

    constructor (engine: Engine)
      ensures this.engine == engine
      ensures requests == [] && recalcs == 0
    {
      this.engine := engine;
      requests := [];
      recalcs := 0;
    }

    /** Asks the pipeline to enter `target`; `ok` is the engine's verdict. */
    method SetState(target: State) returns (ok: bool)
      modifies this
      ensures requests == old(requests) + [target]
      ensures recalcs == old(recalcs)
      ensures ok == engine.accepts(|old(requests)|)
    {
      ok := engine.accepts(|requests|);
      requests := requests + [target];
    }

    /** Asks the pipeline to recompute its latency; `ok` is the engine's verdict. */
    method RecalculateLatency() returns (ok: bool)
      modifies this
      ensures recalcs == old(recalcs) + 1
      ensures requests == old(requests)
      ensures ok == engine.recalculates(old(recalcs))
    {
      ok := engine.recalculates(recalcs);
      recalcs := recalcs + 1;
    }
  }
}
