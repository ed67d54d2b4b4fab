/** The supervision part of `visualize_audio`: start the pipeline, react to
    bus messages one at a time in arrival order, and shut the pipeline down.

    `React` is the per-message policy (the arms of the message `match`),
    `Drain` and `Visualize` specify a whole run as functions of the engine's
    verdicts and the bus contents, and `VisualizeAudio` is the loop itself,
    proved to agree with `Visualize`. */
module Supervisor {
  import opened Gst

  /** What the loop does when a request it issued fails: return the error
      to the caller (`?`) or panic (`unwrap`). */
  datatype OnFailure = Propagate | Unwrap

  /** The loop's reaction to one message. */
  datatype Reaction =
    | Finish(eos: bool)
    | Request(target: State, onFailure: OnFailure)
    | Recalculate
    | Ignore

  /** The messages that end the loop. */
  predicate Terminal(m: Msg) {
    m.Eos? || m.Error?
  }

  /** The policy for one message. End of stream and errors end the loop;
      a pause of the pipeline itself and a completed buffering ask for
      Playing, an incomplete buffering for Paused, both failing with `?`;
      a lost clock asks for Playing and panics on failure; a latency message
      asks for a recalculation; everything else is only logged. */
  function React(m: Msg): (r: Reaction)
    ensures r.Finish? <==> Terminal(m)
    ensures r.Finish? ==> (r.eos <==> m.Eos?)
    ensures r.Recalculate? <==> m.Latency?
    ensures r.Request? ==> r.target == Paused || r.target == Playing
    ensures r.Request? && r.target == Paused <==> m.Buffering? && m.percent < 100
    ensures r.Request? && r.target == Playing <==>
              (m.StateChanged? && m.fromPipelineRoot && m.current == Paused)
              || (m.Buffering? && m.percent >= 100)
              || m.ClockLost?
    ensures r.Request? ==> (r.onFailure == Unwrap <==> m.ClockLost?)
  {
    match m
    case Eos => Finish(true)
    case Error => Finish(false)
    case StateChanged(fromPipelineRoot, current) =>
      if fromPipelineRoot && current == Paused then Request(Playing, Propagate) else Ignore
    case Buffering(percent) =>
      if percent < 100 then Request(Paused, Propagate) else Request(Playing, Propagate)
    case Latency => Recalculate
    case StreamStatus => Ignore
    case DurationChanged => Ignore
    case ClockLost => Request(Playing, Unwrap)
    case Other => Ignore
  }

  /** What the pipeline has seen so far: the states requested, the number
      of latency recalculations, and the number of bus messages read. */
  datatype Session = Session(requests: seq<State>, recalcs: nat, consumed: nat)

  /** How the message loop ended: the bus ran dry, a `break` (on end of
      stream or on an error message), a failed request returned with `?`,
      or an `unwrap` panicked. */
  datatype Exit = Exhausted | Broke(onEos: bool) | Returned(refused: State) | Panic

  /** The message loop, run over the messages still on the bus, starting
      from session `s`. */
  function Drain(e: Engine, bus: seq<Msg>, s: Session): (r: (Exit, Session))
    ensures s.requests <= r.1.requests
    ensures s.recalcs <= r.1.recalcs
    ensures s.consumed <= r.1.consumed <= s.consumed + |bus|
    ensures r.0 == Exhausted ==> r.1.consumed == s.consumed + |bus|
    ensures r.0 != Exhausted ==> r.1.consumed > s.consumed
    ensures Null !in r.1.requests[|s.requests|..]
    decreases |bus|
  {
    if bus == [] then (Exhausted, s)
    else
      var read := s.(consumed := s.consumed + 1);
      match React(bus[0])
      case Finish(eos) => (Broke(eos), read)
      case Request(target, onFailure) =>
        var sent := read.(requests := s.requests + [target]);
        if e.accepts(|s.requests|) then
          var r := Drain(e, bus[1..], sent);
          assert r.1.requests[|s.requests|..] == [target] + r.1.requests[|sent.requests|..];
          r
        else (if onFailure == Propagate then Returned(target) else Panic, sent)
      case Recalculate =>
        var sent := read.(recalcs := s.recalcs + 1);
        if e.recalculates(s.recalcs) then Drain(e, bus[1..], sent) else (Panic, sent)
      case Ignore => Drain(e, bus[1..], read)
  }

  /** The session right after the pipeline was asked to start playing. */
  const Started: Session := Session([Playing], 0, 0)

  /** How `visualize_audio` ends: `Ok(())`, an error from a refused state
      change, or a panic from an `unwrap`. */
  datatype Outcome = Ok | Err(refused: State) | Panicked

  /** A whole run: its outcome, the final value of the end-of-stream flag,
      and what the pipeline saw. */
  datatype Run = Run(outcome: Outcome, eosReceived: bool, session: Session)

  /** The specification of a run: start the pipeline (returning the error
      if that fails), drain the bus, and on a normal loop exit request Null
      whatever the engine answers, then return `Ok`. */
  function Visualize(e: Engine, bus: seq<Msg>): (r: Run)
    ensures |r.session.requests| >= 1 && r.session.requests[0] == Playing
    ensures r.session.consumed <= |bus|
    ensures r.eosReceived ==> r.outcome == Ok
    ensures r.outcome == Ok <==> Null in r.session.requests
  {
    if !e.accepts(0) then Run(Err(Playing), false, Started)
    else
      var (exit, s) := Drain(e, bus, Started);
      assert s.requests == [Playing] + s.requests[1..];
      match exit
      case Exhausted => Run(Ok, false, s.(requests := s.requests + [Null]))
      case Broke(onEos) => Run(Ok, onEos, s.(requests := s.requests + [Null]))
      case Returned(target) => Run(Err(target), false, s)
      case Panic => Run(Panicked, false, s)
  }

  /** The supervision part of `visualize_audio`, over a freshly built
      pipeline answering as `e` does and a bus that delivers `bus`. Besides
      the outcome it returns the end-of-stream flag and what the pipeline
      saw: the requested states, the latency recalculations and the number
      of messages read. */
  method VisualizeAudio(e: Engine, bus: seq<Msg>)
    returns (outcome: Outcome, eosReceived: bool, requests: seq<State>, recalcs: nat, consumed: nat)
    ensures Visualize(e, bus) == Run(outcome, eosReceived, Session(requests, recalcs, consumed))
  {
    var pipeline := new Pipeline(e);
    var ok := pipeline.SetState(Playing);
    if !ok {
      return Err(Playing), false, pipeline.requests, pipeline.recalcs, 0;
    }

    eosReceived := false;
    consumed := 0;
    ghost var exit := Exhausted;
    assert bus[consumed..] == bus;
    assert Session(pipeline.requests, pipeline.recalcs, consumed) == Started;
    while consumed < |bus|
      invariant consumed <= |bus|
      invariant !eosReceived && exit == Exhausted
      invariant Drain(e, bus, Started)
             == Drain(e, bus[consumed..], Session(pipeline.requests, pipeline.recalcs, consumed))
    {
      assert bus[consumed..][1..] == bus[consumed + 1..];
      var msg := bus[consumed];
      consumed := consumed + 1;
      match msg {
        case Eos =>
          eosReceived := true;
          exit := Broke(true);
          assert Drain(e, bus, Started) == (exit, Session(pipeline.requests, pipeline.recalcs, consumed));
          break;
        case Error =>
          exit := Broke(false);
          assert Drain(e, bus, Started) == (exit, Session(pipeline.requests, pipeline.recalcs, consumed));
          break;
        case StateChanged(fromPipelineRoot, current) =>
          if fromPipelineRoot && current == Paused {
            ok := pipeline.SetState(Playing);
            if !ok {
              return Err(Playing), eosReceived, pipeline.requests, pipeline.recalcs, consumed;
            }
          }
        case Buffering(percent) =>
          if percent < 100 {
            ok := pipeline.SetState(Paused);
            if !ok {
              return Err(Paused), eosReceived, pipeline.requests, pipeline.recalcs, consumed;
            }
          } else {
            ok := pipeline.SetState(Playing);
            if !ok {
              return Err(Playing), eosReceived, pipeline.requests, pipeline.recalcs, consumed;
            }
          }
        case Latency =>
          ok := pipeline.RecalculateLatency();
          if !ok {
            return Panicked, eosReceived, pipeline.requests, pipeline.recalcs, consumed;
          }
        case StreamStatus =>
        case DurationChanged =>
        case ClockLost =>
          ok := pipeline.SetState(Playing);
          if !ok {
            return Panicked, eosReceived, pipeline.requests, pipeline.recalcs, consumed;
          }
        case Other =>
      }
    }
    assert Drain(e, bus, Started) == (exit, Session(pipeline.requests, pipeline.recalcs, consumed));
    assert eosReceived <==> exit == Broke(true);

    // The shutdown request's verdict is only logged.
    ok := pipeline.SetState(Null);
    return Ok, eosReceived, pipeline.requests, pipeline.recalcs, consumed;
  }
}
