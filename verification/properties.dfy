/** What a run of the supervision loop guarantees, stated over the
    specification functions `Drain` and `Visualize` (which `VisualizeAudio`
    is proved to compute). */
module SupervisorProperties {
  import opened Gst
  import opened Supervisor

  /** No end-of-stream or error message among `bus`. */
  predicate NoTerminal(bus: seq<Msg>) {
    forall j :: 0 <= j < |bus| ==> !Terminal(bus[j])
  }

  /** The messages up to and including the first terminal one (all of
      `bus` when there is none). */
  function UpToTerminal(bus: seq<Msg>): (p: seq<Msg>) {
    if bus == [] then []
    else if Terminal(bus[0]) then [bus[0]]
    else [bus[0]] + UpToTerminal(bus[1..])
  }

  /** The states the policy asks for, message by message, in order. */
  function Requested(bus: seq<Msg>): (q: seq<State>) {
    if bus == [] then [] else RequestOf(bus[0]) + Requested(bus[1..])
  }

  /** The state the policy asks for on message `m`, if any. */
  function RequestOf(m: Msg): (q: seq<State>) {
    if React(m).Request? then [React(m).target] else []
  }

  /** An engine that grants every state change and every recalculation. */
  ghost predicate Compliant(e: Engine) {
    forall i :: e.accepts(i) && e.recalculates(i)
  }

  /** If the pipeline refuses to start, the run returns that error before any
      bus message is read, and Null is never requested. */
  lemma InitialRefusal(e: Engine, bus: seq<Msg>)
    requires !e.accepts(0)
    ensures Visualize(e, bus).outcome == Err(Playing)
    ensures Visualize(e, bus).session == Session([Playing], 0, 0)
    ensures Null !in Visualize(e, bus).session.requests
  {
  }

  /** The loop keeps no state beyond the session: once a prefix has been
      drained without leaving the loop, the rest of the bus is processed
      exactly as if it had arrived on its own. */
  lemma {:induction false} DrainAppend(e: Engine, pre: seq<Msg>, post: seq<Msg>, s: Session)
    requires Drain(e, pre, s).0 == Exhausted
    ensures Drain(e, pre + post, s) == Drain(e, post, Drain(e, pre, s).1)
  {
    if pre == [] {
      assert pre + post == post;
    } else {
      assert (pre + post)[0] == pre[0];
      assert (pre + post)[1..] == pre[1..] + post;
      var read := s.(consumed := s.consumed + 1);
      match React(pre[0])
      case Finish(_) =>
      case Request(target, _) =>
        DrainAppend(e, pre[1..], post, read.(requests := s.requests + [target]));
      case Recalculate =>
        DrainAppend(e, pre[1..], post, read.(recalcs := s.recalcs + 1));
      case Ignore =>
        DrainAppend(e, pre[1..], post, read);
    }
  }

  /** An end-of-stream or error message ends the loop: it is read, no state
      change is requested for it, and nothing after it is read. */
  lemma TerminalEndsLoop(e: Engine, pre: seq<Msg>, m: Msg, post: seq<Msg>, s: Session)
    requires Terminal(m)
    requires Drain(e, pre, s).0 == Exhausted
    ensures Drain(e, pre + [m] + post, s)
         == (Broke(m.Eos?), Drain(e, pre, s).1.(consumed := Drain(e, pre, s).1.consumed + 1))
  {
    assert pre + [m] + post == pre + ([m] + post);
    DrainAppend(e, pre, [m] + post, s);
    assert ([m] + post)[0] == m;
  }

  /** A whole run that reaches an end-of-stream message: the flag is set,
      the messages after it are never read, and the only request made for
      it and after it is the Null shutdown; the run returns `Ok`. */
  lemma EosEndsRun(e: Engine, pre: seq<Msg>, post: seq<Msg>)
    requires e.accepts(0)
    requires Drain(e, pre, Started).0 == Exhausted
    ensures Visualize(e, pre + [Eos] + post)
         == Run(Ok, true, Session(Drain(e, pre, Started).1.requests + [Null],
                                  Drain(e, pre, Started).1.recalcs, |pre| + 1))
  {
    TerminalEndsLoop(e, pre, Eos, post, Started);
  }

  /** A whole run that reaches an error message: the loop ends there with
      the end-of-stream flag still false, Null is requested, and the run
      returns `Ok`. */
  lemma ErrorEndsRunWithoutEos(e: Engine, pre: seq<Msg>, post: seq<Msg>)
    requires e.accepts(0)
    requires Drain(e, pre, Started).0 == Exhausted
    ensures Visualize(e, pre + [Error] + post)
         == Run(Ok, false, Session(Drain(e, pre, Started).1.requests + [Null],
                                   Drain(e, pre, Started).1.recalcs, |pre| + 1))
  {
    TerminalEndsLoop(e, pre, Error, post, Started);
  }

  /** The loop reads the whole bus only when there is no terminal message
      on it. */
  lemma {:induction false} ExhaustedMeansNoTerminal(e: Engine, bus: seq<Msg>, s: Session)
    requires Drain(e, bus, s).0 == Exhausted
    ensures NoTerminal(bus)
  {
    if bus != [] {
      var read := s.(consumed := s.consumed + 1);
      NoTerminalCons(bus);
      match React(bus[0])
      case Finish(_) =>
      case Request(target, _) =>
        ExhaustedMeansNoTerminal(e, bus[1..], read.(requests := s.requests + [target]));
      case Recalculate =>
        ExhaustedMeansNoTerminal(e, bus[1..], read.(recalcs := s.recalcs + 1));
      case Ignore =>
        ExhaustedMeansNoTerminal(e, bus[1..], read);
    }
  }

  /** Where the loop stops when it does not read the whole bus: at some
      message `bus[k - 1]`; every message before it was handled without
      leaving the loop, and the run ends as that one message alone would
      end it. */
  lemma {:induction false} StopPoint(e: Engine, bus: seq<Msg>, s: Session)
    requires Drain(e, bus, s).0 != Exhausted
    ensures var k := Drain(e, bus, s).1.consumed - s.consumed;
            && 1 <= k <= |bus|
            && Drain(e, bus[..k - 1], s).0 == Exhausted
            && Drain(e, bus, s) == Drain(e, [bus[k - 1]], Drain(e, bus[..k - 1], s).1)
  {
    var k := Drain(e, bus, s).1.consumed - s.consumed;
    if k == 1 {
      assert bus[..0] == [];
      assert [bus[0]][1..] == [];
    } else {
      var read := s.(consumed := s.consumed + 1);
      var next := match React(bus[0])
        case Request(target, _) => read.(requests := s.requests + [target])
        case Recalculate => read.(recalcs := s.recalcs + 1)
        case _ => read;
      assert Drain(e, bus, s) == Drain(e, bus[1..], next);
      StopPoint(e, bus[1..], next);
      AfterFirst(bus, k - 1);
      assert bus[k - 1] == bus[1..][k - 2];
      assert Drain(e, bus[..k - 1], s) == Drain(e, bus[1..][..k - 2], next);
    }
  }

  /** Helper: the first `k` messages of `bus` are its head followed by the
      first `k - 1` messages of its tail. */
  lemma AfterFirst(bus: seq<Msg>, k: int)
    requires 1 <= k <= |bus|
    ensures bus[..k] == [bus[0]] + bus[1..][..k - 1]
  {
  }

  /** The run as a whole: the end-of-stream flag is set exactly when the
      last message read was the end-of-stream message, and an `Ok` run
      without it ended on an error message or read the whole bus, which
      held no terminal message. */
  lemma RunExit(e: Engine, bus: seq<Msg>)
    ensures var r := Visualize(e, bus);
            r.eosReceived <==> r.outcome == Ok && r.session.consumed >= 1
                               && bus[r.session.consumed - 1] == Eos
    ensures var r := Visualize(e, bus);
            r.outcome == Ok && !r.eosReceived ==>
              (r.session.consumed == |bus| && NoTerminal(bus))
              || (r.session.consumed >= 1 && bus[r.session.consumed - 1] == Error)
  {
    if e.accepts(0) {
      if Drain(e, bus, Started).0 == Exhausted {
        ExhaustedMeansNoTerminal(e, bus, Started);
      } else {
        StopPoint(e, bus, Started);
      }
    }
  }

  /** A refused request ends the loop at once: the message is read, its
      state is logged as requested, nothing after it is read, and the loop
      returns the refused state (`?`) or panics (`unwrap`). */
  lemma RefusalEndsLoop(e: Engine, pre: seq<Msg>, m: Msg, post: seq<Msg>, s: Session)
    requires Drain(e, pre, s).0 == Exhausted
    requires React(m).Request?
    requires !e.accepts(|Drain(e, pre, s).1.requests|)
    ensures var t := Drain(e, pre, s).1;
            (Drain(e, pre + [m] + post, s)
             == (if React(m).onFailure == Propagate then Returned(React(m).target) else Panic,
                 t.(requests := t.requests + [React(m).target], consumed := t.consumed + 1)))
  {
    assert pre + [m] + post == pre + ([m] + post);
    DrainAppend(e, pre, [m] + post, s);
    assert ([m] + post)[0] == m;
  }

  /** A refused latency recalculation ends the loop with a panic: the
      message is read, the recalculation is counted, and nothing after it is
      read. */
  lemma RecalcRefusalPanics(e: Engine, pre: seq<Msg>, post: seq<Msg>, s: Session)
    requires Drain(e, pre, s).0 == Exhausted
    requires !e.recalculates(Drain(e, pre, s).1.recalcs)
    ensures var t := Drain(e, pre, s).1;
            (Drain(e, pre + [Latency] + post, s)
             == (Panic, t.(recalcs := t.recalcs + 1, consumed := t.consumed + 1)))
  {
    assert pre + [Latency] + post == pre + ([Latency] + post);
    DrainAppend(e, pre, [Latency] + post, s);
    assert ([Latency] + post)[0] == Latency;
  }

  /** A whole run in which a request is refused: a pause or resume asked
      for with `?` returns its state as the error, a resume after a lost
      clock panics, and in both cases Null is never requested. */
  lemma RefusalEndsRun(e: Engine, pre: seq<Msg>, m: Msg, post: seq<Msg>)
    requires e.accepts(0)
    requires Drain(e, pre, Started).0 == Exhausted
    requires React(m).Request?
    requires !e.accepts(|Drain(e, pre, Started).1.requests|)
    ensures var r := Visualize(e, pre + [m] + post);
            && r.outcome == (if m.ClockLost? then Panicked else Err(React(m).target))
            && !r.eosReceived
            && r.session.requests == Drain(e, pre, Started).1.requests + [React(m).target]
            && r.session.consumed == |pre| + 1
            && Null !in r.session.requests
  {
    RefusalEndsLoop(e, pre, m, post, Started);
  }

  /** A whole run in which a latency recalculation is refused panics right
      after reading that message, without requesting Null. */
  lemma RecalcRefusalEndsRun(e: Engine, pre: seq<Msg>, post: seq<Msg>)
    requires e.accepts(0)
    requires Drain(e, pre, Started).0 == Exhausted
    requires !e.recalculates(Drain(e, pre, Started).1.recalcs)
    ensures var r := Visualize(e, pre + [Latency] + post);
            && r.outcome == Panicked
            && r.session.requests == Drain(e, pre, Started).1.requests
            && r.session.consumed == |pre| + 1
            && Null !in r.session.requests
  {
    RecalcRefusalPanics(e, pre, post, Started);
  }

  /** How a single message ends the loop when it does: a refused request
      returns that state or panics, and a refused recalculation panics. */
  lemma LastMessage(e: Engine, m: Msg, t: Session)
    ensures var (x, u) := Drain(e, [m], t);
            x.Returned? ==> && React(m) == Request(x.refused, Propagate)
                            && !e.accepts(|t.requests|)
                            && u.requests == t.requests + [x.refused]
    ensures var (x, u) := Drain(e, [m], t);
            x == Panic ==> || (m == Latency && !e.recalculates(t.recalcs)
                               && u.recalcs == t.recalcs + 1)
                           || (m == ClockLost && !e.accepts(|t.requests|)
                               && u.requests == t.requests + [Playing])
  {
  }

  /** Why a run returns an error: the last request was refused, and the
      error names its state. Either it is the initial Playing request and no
      message was read, or it is the request of the last message read,
      which fails with `?`. */
  lemma RunError(e: Engine, bus: seq<Msg>)
    requires Visualize(e, bus).outcome.Err?
    ensures var r := Visualize(e, bus); var q := r.session.requests; var k := r.session.consumed;
            && q[|q| - 1] == r.outcome.refused
            && !e.accepts(|q| - 1)
            && (k == 0 <==> r.outcome == Err(Playing) && q == [Playing])
            && (k > 0 ==> React(bus[k - 1]) == Request(r.outcome.refused, Propagate))
  {
    if e.accepts(0) {
      StopPoint(e, bus, Started);
      var k := Drain(e, bus, Started).1.consumed;
      LastMessage(e, bus[k - 1], Drain(e, bus[..k - 1], Started).1);
    }
  }

  /** Why a run panics: the last message read was a latency message whose
      recalculation was refused, or a lost clock whose request for Playing
      was refused. */
  lemma RunPanic(e: Engine, bus: seq<Msg>)
    requires Visualize(e, bus).outcome == Panicked
    ensures var r := Visualize(e, bus); var q := r.session.requests; var k := r.session.consumed;
            && k >= 1
            && ((bus[k - 1] == Latency && r.session.recalcs >= 1
                 && !e.recalculates(r.session.recalcs - 1))
                || (bus[k - 1] == ClockLost && q[|q| - 1] == Playing && !e.accepts(|q| - 1)))
  {
    StopPoint(e, bus, Started);
    var k := Drain(e, bus, Started).1.consumed;
    LastMessage(e, bus[k - 1], Drain(e, bus[..k - 1], Started).1);
  }

  /** The session after a message that is not terminal, when the engine
      grants its request or recalculation. */
  function Next(m: Msg, s: Session): (t: Session) {
    Session(s.requests + RequestOf(m),
            if m == Latency then s.recalcs + 1 else s.recalcs,
            s.consumed + 1)
  }

  /** Helper: the loop either stops at the first message, having logged
      what `Next` says, or goes on with the next message from there. */
  lemma FirstStep(e: Engine, bus: seq<Msg>, s: Session)
    requires bus != []
    ensures Drain(e, bus, s).1.consumed == s.consumed + 1 ==> Drain(e, bus, s).1 == Next(bus[0], s)
    ensures Drain(e, bus, s).1.consumed > s.consumed + 1
            ==> Drain(e, bus, s) == Drain(e, bus[1..], Next(bus[0], s))
  {
    match React(bus[0])
    case Finish(_) =>
      assert s.requests + RequestOf(bus[0]) == s.requests;
    case Request(target, _) =>
      assert RequestOf(bus[0]) == [target];
    case Recalculate =>
      assert bus[0] == Latency && s.requests + RequestOf(bus[0]) == s.requests;
    case Ignore =>
      assert !bus[0].Latency? && s.requests + RequestOf(bus[0]) == s.requests;
  }

  /** For every engine, the session at the end of the loop is given by the
      messages it read: for each of them, in arrival order, the state the
      policy asks for (the last one possibly refused), and one recalculation
      per latency message. */
  lemma {:induction false} SessionLog(e: Engine, bus: seq<Msg>, s: Session)
    ensures var k := Drain(e, bus, s).1.consumed - s.consumed;
            (Drain(e, bus, s).1
             == Session(s.requests + Requested(bus[..k]),
                        s.recalcs + multiset(bus[..k])[Latency],
                        s.consumed + k))
  {
    var u := Drain(e, bus, s).1;
    var k := u.consumed - s.consumed;
    if bus == [] {
      assert bus[..k] == [];
    } else {
      FirstStep(e, bus, s);
      if k > 1 {
        SessionLog(e, bus[1..], Next(bus[0], s));
        LogStep(bus, k, s, u);
      } else {
        LogStep(bus, 1, s, u);
      }
    }
  }

  /** Helper: the log after the first `k` messages is the first message's
      contribution followed by the log of the next `k - 1`. */
  lemma LogStep(bus: seq<Msg>, k: int, s: Session, u: Session)
    requires 1 <= k <= |bus|
    requires var t := Next(bus[0], s); var rest := bus[1..][..k - 1];
             u == Session(t.requests + Requested(rest), t.recalcs + multiset(rest)[Latency], t.consumed + k - 1)
    ensures u == Session(s.requests + Requested(bus[..k]), s.recalcs + multiset(bus[..k])[Latency], s.consumed + k)
  {
    AfterFirst(bus, k);
    LogCons(bus[0], bus[1..][..k - 1]);
  }

  /** Helper: the log of a message followed by others. */
  lemma LogCons(m: Msg, rest: seq<Msg>)
    ensures Requested([m] + rest) == RequestOf(m) + Requested(rest)
    ensures multiset([m] + rest)[Latency]
         == (if m == Latency then 1 else 0) + multiset(rest)[Latency]
  {
    assert ([m] + rest)[0] == m && ([m] + rest)[1..] == rest;
    assert multiset([m] + rest) == multiset{m} + multiset(rest);
  }

  /** With an engine that grants everything, the loop reads exactly the
      messages up to the first terminal one, requests for each of them, in
      arrival order, the states the policy asks for, and recalculates the
      latency once per latency message. */
  lemma {:induction false} CompliantSession(e: Engine, bus: seq<Msg>, s: Session)
    requires Compliant(e)
    ensures Drain(e, bus, s).1
         == Session(s.requests + Requested(UpToTerminal(bus)),
                    s.recalcs + multiset(UpToTerminal(bus))[Latency],
                    s.consumed + |UpToTerminal(bus)|)
  {
    if bus != [] && !Terminal(bus[0]) {
      var rest := UpToTerminal(bus[1..]);
      CompliantStep(e, bus, s);
      CompliantSession(e, bus[1..], Next(bus[0], s));
      assert UpToTerminal(bus) == [bus[0]] + rest;
      LogCons(bus[0], rest);
    } else if bus != [] {
      assert UpToTerminal(bus) == [bus[0]] + [];
      LogCons(bus[0], []);
    }
  }

  /** Helper: with an engine that grants everything, a message that is not
      terminal is handled and the loop goes on with the next one. */
  lemma CompliantStep(e: Engine, bus: seq<Msg>, s: Session)
    requires Compliant(e)
    requires bus != [] && !Terminal(bus[0])
    ensures Drain(e, bus, s) == Drain(e, bus[1..], Next(bus[0], s))
  {
    assert e.accepts(|s.requests|) && e.recalculates(s.recalcs);
    match React(bus[0])
    case Request(target, _) =>
      assert RequestOf(bus[0]) == [target];
    case Recalculate =>
      assert bus[0] == Latency && s.requests + RequestOf(bus[0]) == s.requests;
    case Ignore =>
      assert !bus[0].Latency? && s.requests + RequestOf(bus[0]) == s.requests;
  }

  /** With an engine that grants everything, the loop leaves only through a
      terminal message, the first one on the bus, and reads the whole bus
      when there is none. */
  lemma {:induction false} CompliantExit(e: Engine, bus: seq<Msg>, s: Session)
    requires Compliant(e)
    ensures NoTerminal(bus) ==> Drain(e, bus, s).0 == Exhausted
    ensures !NoTerminal(bus) ==>
              var p := UpToTerminal(bus);
              |p| >= 1 && Drain(e, bus, s).0 == Broke(p[|p| - 1].Eos?)
  {
    if bus != [] {
      NoTerminalCons(bus);
      if !Terminal(bus[0]) {
        var rest := UpToTerminal(bus[1..]);
        assert UpToTerminal(bus) == [bus[0]] + rest;
        CompliantStep(e, bus, s);
        CompliantExit(e, bus[1..], Next(bus[0], s));
      }
    }
  }

  /** Helper: a non-empty bus has no terminal message iff its head is not
      terminal and its tail has none. */
  lemma NoTerminalCons(bus: seq<Msg>)
    requires bus != []
    ensures NoTerminal(bus) <==> !Terminal(bus[0]) && NoTerminal(bus[1..])
  {
    if !Terminal(bus[0]) && NoTerminal(bus[1..]) {
      forall j | 0 <= j < |bus| ensures !Terminal(bus[j]) {
        if j > 0 { assert bus[j] == bus[1..][j - 1]; }
      }
    }
  }

  /** Buffering at 42% then at 100% requests Paused then Playing, between
      the start and the shutdown. */
  lemma BufferingExample(e: Engine)
    requires Compliant(e)
    ensures Visualize(e, [Buffering(42), Buffering(100)]).session.requests
         == [Playing, Paused, Playing, Null]
  {
    CompliantSession(e, [Buffering(42), Buffering(100)], Started);
    CompliantExit(e, [Buffering(42), Buffering(100)], Started);
    assert UpToTerminal([Buffering(42), Buffering(100)]) == [Buffering(42), Buffering(100)];
  }

  /** A pause of the pipeline itself is always answered with a request for
      Playing, whatever came before it: the loop keeps no record of whether
      the pause was one it asked for. */
  lemma RootPauseAlwaysResumed(e: Engine, pre: seq<Msg>, s: Session)
    requires Drain(e, pre, s).0 == Exhausted
    ensures var t := Drain(e, pre, s).1;
            (Drain(e, pre + [StateChanged(true, Paused)], s)
             == (if e.accepts(|t.requests|) then Exhausted else Returned(Playing),
                 t.(requests := t.requests + [Playing], consumed := t.consumed + 1)))
  {
    DrainAppend(e, pre, [StateChanged(true, Paused)], s);
  }

  /** The consequence: a pause the loop requests because of buffering is
      itself undone as soon as the pipeline reports reaching Paused, whatever
      came before it. */
  lemma BufferingPauseIsUndone(e: Engine, pre: seq<Msg>, p: int, s: Session)
    requires Drain(e, pre, s).0 == Exhausted
    requires p < 100
    requires e.accepts(|Drain(e, pre, s).1.requests|)
    ensures Drain(e, pre + [Buffering(p), StateChanged(true, Paused)], s).1.requests
         == Drain(e, pre, s).1.requests + [Paused, Playing]
  {
    DrainAppend(e, pre, [Buffering(p)], s);
    RootPauseAlwaysResumed(e, pre + [Buffering(p)], s);
    assert pre + [Buffering(p)] + [StateChanged(true, Paused)]
        == pre + [Buffering(p), StateChanged(true, Paused)];
  }

  /** Null is requested exactly once, as the last request, on every run that
      returns `Ok`, and never on a run that returns an error or panics. */
  lemma NullOnlyOnNormalExit(e: Engine, bus: seq<Msg>)
    ensures var r := Visualize(e, bus);
            r.outcome == Ok ==> multiset(r.session.requests)[Null] == 1
                                && r.session.requests[|r.session.requests| - 1] == Null
    ensures var r := Visualize(e, bus);
            r.outcome != Ok ==> Null !in r.session.requests
  {
    var r := Visualize(e, bus);
    if r.outcome == Ok {
      var s := Drain(e, bus, Started).1;
      assert s.requests == [Playing] + s.requests[1..];
      assert r.session.requests == s.requests + [Null];
      assert multiset(s.requests)[Null] == 0;
    }
  }

  /** The loop consults the engine only about the requests and the
      recalculations it makes: two engines that agree on those verdicts
      drain the bus identically. */
  lemma {:induction false} DrainFrame(e1: Engine, e2: Engine, bus: seq<Msg>, s: Session)
    requires forall i: nat :: i < |Drain(e1, bus, s).1.requests| ==> e1.accepts(i) == e2.accepts(i)
    requires forall i: nat :: i < Drain(e1, bus, s).1.recalcs ==> e1.recalculates(i) == e2.recalculates(i)
    ensures Drain(e2, bus, s) == Drain(e1, bus, s)
  {
    if bus != [] {
      var read := s.(consumed := s.consumed + 1);
      match React(bus[0])
      case Finish(_) =>
      case Request(target, _) =>
        assert e1.accepts(|s.requests|) == e2.accepts(|s.requests|);
        if e1.accepts(|s.requests|) {
          DrainFrame(e1, e2, bus[1..], read.(requests := s.requests + [target]));
        }
      case Recalculate =>
        assert e1.recalculates(s.recalcs) == e2.recalculates(s.recalcs);
        if e1.recalculates(s.recalcs) {
          DrainFrame(e1, e2, bus[1..], read.(recalcs := s.recalcs + 1));
        }
      case Ignore =>
        DrainFrame(e1, e2, bus[1..], read);
    }
  }

  /** The run returns `Ok` whether or not the Null shutdown succeeds: two
      engines that differ at most in their verdict on that last request
      give the same run. */
  lemma NullVerdictIgnored(e1: Engine, e2: Engine, bus: seq<Msg>)
    requires Visualize(e1, bus).outcome == Ok
    requires forall i: nat :: i + 1 < |Visualize(e1, bus).session.requests| ==> e1.accepts(i) == e2.accepts(i)
    requires forall i: nat :: i < Visualize(e1, bus).session.recalcs ==> e1.recalculates(i) == e2.recalculates(i)
    ensures Visualize(e2, bus) == Visualize(e1, bus)
  {
    DrainFrame(e1, e2, bus, Started);
  }
}
