/** The reconnect/terminate controller: the connect, register, serve cycle
    of `start`, repeated until a reply fails fatally. */
module Controller {
  import opened Messages
  import opened Registration
  import opened Dispatch

  /** One pass of the outer loop of `start`: the connection it used, its
      registration round, its serve loop if registration succeeded, the
      receive results the serve loop consumed, and whether the sender was
      closed at the end. */
  datatype Cycle = Cycle(
    connect: Output,
    registration: RegRun,
    serve: Option<ServeRun>,
    received: seq<Recv>,
    closed: bool)

  function CycleOutputs(c: Cycle): seq<Output>
  {
    [c.connect] + c.registration.sent
    + (if c.serve.Some? then c.serve.value.sent else [])
    + (if c.closed then [Close] else [])
  }

  /** The outputs of some cycles, one cycle after the other. */
  function Flatten(cs: seq<Cycle>): seq<Output>
  {
    if cs == [] then [] else Flatten(cs[..|cs| - 1]) + CycleOutputs(cs[|cs| - 1])
  }

  /** The receive results consumed by some cycles, in order. */
  function AllReceived(cs: seq<Cycle>): seq<Recv>
  {
    if cs == [] then [] else cs[0].received + AllReceived(cs[1..])
  }

  /** How a run ends: a fatal reply error, a panic, or the end of a script. */
  datatype RunEnd = Terminated | Panicked | Stalled

  /** The serve loop of a cycle handled exactly the receive results the
      cycle consumed, with the first handler, in order: its outputs are
      theirs, every result but the last let serving continue, and the last
      one left the loop as the loop's exit says (at the end of the script,
      every result let serving continue). */
  predicate ServedReceived(c: Cycle, h0: Handler)
    requires c.serve.Some?
  {
    var sv := c.serve.value;
    && sv.sent == Outputs(h0, c.received)
    && (sv.exit == ServeStalled ==> Continues(h0, c.received))
    && (sv.exit != ServeStalled ==>
          c.received != [] && Continues(h0, c.received[..|c.received| - 1])
          && Handle(h0, c.received[|c.received| - 1]).exit == Some(sv.exit))
  }

  /** A cycle as `start` runs it: it connects to the endpoint with the
      given generation, serves only after every request was acknowledged,
      serves exactly the results it receives, and closes the sender exactly
      when the serve loop broke out. A refused registration goes straight
      to the next cycle. */
  predicate CycleShape(c: Cycle, endpoint: string, hs: seq<Handler>, gen: nat)
    requires |hs| > 0
  {
    && c.connect == Connect(endpoint, gen)
    && (c.serve.Some? ==>
          c.registration.outcome == Registered
          && |c.registration.sent| == |Pairs(hs)| && RequestsOf(c.registration.sent) == Pairs(hs)
          && ServedReceived(c, hs[0]))
    && (c.serve.None? ==> c.registration.outcome != Registered && c.received == [])
    && (c.closed <==> c.serve.Some? && (c.serve.value.exit == Reconnect || c.serve.value.exit == Fatal))
  }

  /** A cycle after which `start` connects again. */
  predicate Restarts(c: Cycle)
  {
    c.registration.outcome == Refused || (c.serve.Some? && c.serve.value.exit == Reconnect)
  }

  /** How a run ends after a last cycle that does not restart. */
  function EndOf(c: Cycle): RunEnd
  {
    if c.serve.None? then Stalled
    else match c.serve.value.exit
      case Fatal => Terminated
      case Aborted => Panicked
      case _ => Stalled
  }

  /** One cycle and what it leaves of the scripts and the random draws. */
  datatype CycleRun = CycleRun(cycle: Cycle, restAnswers: seq<RegAnswer>, restInbound: seq<Recv>, draw: nat)

  /** One pass of the outer loop of `start` on connection generation `gen`. */
  function CycleSpec(endpoint: string, hs: seq<Handler>, gen: nat,
                     answers: seq<RegAnswer>, inbound: seq<Recv>, draw: nat): (r: CycleRun)
    requires |hs| > 0
    ensures r.cycle.received + r.restInbound == inbound
    ensures Restarts(r.cycle) ==> |r.restAnswers| + |r.restInbound| < |answers| + |inbound|
  {
    var connect := Connect(endpoint, gen);
    var reg := RegisterSpec(Pairs(hs), answers, draw);
    if reg.outcome != Registered then
      assert reg.outcome == Refused ==> |reg.rest| < |answers|;
      CycleRun(Cycle(connect, reg, None, [], false), reg.rest, inbound, reg.draw)
    else
      var sv := ServeSpec(hs[0], inbound);
      ServeRestIsSuffix(hs[0], inbound);
      assert sv.exit == Reconnect ==> |sv.rest| < |inbound|;
      var received := inbound[..|inbound| - |sv.rest|];
      var closed := sv.exit == Reconnect || sv.exit == Fatal;
      CycleRun(Cycle(connect, reg, Some(sv), received, closed), reg.rest, sv.rest, reg.draw)
  }

  /** Each cycle has the shape `start` gives it. */
  lemma CycleShaped(endpoint: string, hs: seq<Handler>, gen: nat,
                    answers: seq<RegAnswer>, inbound: seq<Recv>, draw: nat)
    requires |hs| > 0
    ensures CycleShape(CycleSpec(endpoint, hs, gen, answers, inbound, draw).cycle, endpoint, hs, gen)
  {
    var reg := RegisterSpec(Pairs(hs), answers, draw);
    if reg.outcome == Registered {
      RegisteredSentAll(Pairs(hs), answers, draw);
      ServeHandlesReceived(hs[0], inbound);
    }
  }

  /** A bounded run of `start`: its cycles, how it ended, the answers and
      receive results left, the generation of the last connection and the
      next random draw. */
  datatype Run = Run(
    cycles: seq<Cycle>,
    end: RunEnd,
    restAnswers: seq<RegAnswer>,
    restInbound: seq<Recv>,
    generation: nat,
    draw: nat)

  /** `start` from the cycle that reuses connection generation `generation`
      when `first`, and makes the next one otherwise. */
  function RunSpec(endpoint: string, hs: seq<Handler>, first: bool, generation: nat,
                   answers: seq<RegAnswer>, inbound: seq<Recv>, draw: nat): (r: Run)
    requires |hs| > 0
    ensures |r.cycles| > 0
    decreases |answers| + |inbound|
  {
    var gen := if first then generation else generation + 1;
    var cr := CycleSpec(endpoint, hs, gen, answers, inbound, draw);
    if Restarts(cr.cycle) then
      var r := RunSpec(endpoint, hs, false, gen, cr.restAnswers, cr.restInbound, cr.draw);
      r.(cycles := [cr.cycle] + r.cycles)
    else
      Run([cr.cycle], EndOf(cr.cycle), cr.restAnswers, cr.restInbound, gen, cr.draw)
  }

  /** `spec` is the run that has done `cycles` so far and goes on from
      the given state. */
  predicate RunResumes(spec: Run, cycles: seq<Cycle>, endpoint: string, hs: seq<Handler>, first: bool,
                       generation: nat, answers: seq<RegAnswer>, inbound: seq<Recv>, draw: nat)
    requires |hs| > 0
  {
    var r := RunSpec(endpoint, hs, first, generation, answers, inbound, draw);
    spec == r.(cycles := cycles + r.cycles)
  }

  /** A cycle that restarts is followed by the rest of the run; resuming
      from `cycles'` and the state the cycle leaves. */
  lemma RunResumesRestart(spec: Run, cycles: seq<Cycle>, endpoint: string, hs: seq<Handler>, first: bool,
                          generation: nat, answers: seq<RegAnswer>, inbound: seq<Recv>, draw: nat,
                          cr: CycleRun, cycles': seq<Cycle>)
    requires |hs| > 0
    requires RunResumes(spec, cycles, endpoint, hs, first, generation, answers, inbound, draw)
    requires cr == CycleSpec(endpoint, hs, if first then generation else generation + 1, answers, inbound, draw)
    requires Restarts(cr.cycle) && cycles' == cycles + [cr.cycle]
    ensures RunResumes(spec, cycles', endpoint, hs, false, if first then generation else generation + 1,
                       cr.restAnswers, cr.restInbound, cr.draw)
  {
    var gen := if first then generation else generation + 1;
    var r := RunSpec(endpoint, hs, false, gen, cr.restAnswers, cr.restInbound, cr.draw);
    var whole := RunSpec(endpoint, hs, first, generation, answers, inbound, draw);
    assert whole == r.(cycles := [cr.cycle] + r.cycles);
    AppendAssoc(cycles, [cr.cycle], r.cycles);
  }

  /** A cycle that does not restart is the last one and decides the end. */
  lemma RunResumesStop(spec: Run, cycles: seq<Cycle>, endpoint: string, hs: seq<Handler>, first: bool,
                       generation: nat, answers: seq<RegAnswer>, inbound: seq<Recv>, draw: nat,
                       cr: CycleRun)
    requires |hs| > 0
    requires RunResumes(spec, cycles, endpoint, hs, first, generation, answers, inbound, draw)
    requires cr == CycleSpec(endpoint, hs, if first then generation else generation + 1, answers, inbound, draw)
    requires !Restarts(cr.cycle)
    ensures spec == Run(cycles + [cr.cycle], EndOf(cr.cycle), cr.restAnswers, cr.restInbound,
                        if first then generation else generation + 1, cr.draw)
  {
  }

  /** Cycles `cs` have the shape `start` gives them, the first on
      connection generation `gen` and each next one on the generation after. */
  predicate ShapedFrom(cs: seq<Cycle>, endpoint: string, hs: seq<Handler>, gen: nat)
    requires |hs| > 0
    decreases |cs|
  {
    cs == [] || (CycleShape(cs[0], endpoint, hs, gen) && ShapedFrom(cs[1..], endpoint, hs, gen + 1))
  }

  lemma {:induction false} ShapedFromAt(cs: seq<Cycle>, endpoint: string, hs: seq<Handler>, gen: nat)
    requires |hs| > 0
    requires ShapedFrom(cs, endpoint, hs, gen)
    ensures forall i :: 0 <= i < |cs| ==> CycleShape(cs[i], endpoint, hs, gen + i)
    decreases |cs|
  {
    if cs != [] {
      ShapedFromAt(cs[1..], endpoint, hs, gen + 1);
      forall i | 0 < i < |cs| ensures CycleShape(cs[i], endpoint, hs, gen + i) {
        assert cs[i] == cs[1..][i - 1];
      }
    }
  }

  lemma {:induction false} RunShapedFrom(endpoint: string, hs: seq<Handler>, first: bool, generation: nat,
                                          answers: seq<RegAnswer>, inbound: seq<Recv>, draw: nat)
    requires |hs| > 0
    ensures var r := RunSpec(endpoint, hs, first, generation, answers, inbound, draw);
      && ShapedFrom(r.cycles, endpoint, hs, if first then generation else generation + 1)
      && r.generation == generation + |r.cycles| - (if first then 1 else 0)
    decreases |answers| + |inbound|
  {
    var gen := if first then generation else generation + 1;
    var cr := CycleSpec(endpoint, hs, gen, answers, inbound, draw);
    CycleShaped(endpoint, hs, gen, answers, inbound, draw);
    if Restarts(cr.cycle) {
      RunShapedFrom(endpoint, hs, false, gen, cr.restAnswers, cr.restInbound, cr.draw);
      var r' := RunSpec(endpoint, hs, false, gen, cr.restAnswers, cr.restInbound, cr.draw);
      assert ([cr.cycle] + r'.cycles)[1..] == r'.cycles;
    }
  }

  /** Every cycle connects to the same endpoint with a connection
      generation one higher than the cycle before (only the first cycle of
      `start` reuses the connection made at construction), and serves only
      after a complete registration. */
  lemma RunShape(endpoint: string, hs: seq<Handler>, first: bool, generation: nat,
                 answers: seq<RegAnswer>, inbound: seq<Recv>, draw: nat)
    requires |hs| > 0
    ensures var r := RunSpec(endpoint, hs, first, generation, answers, inbound, draw);
      && (forall i :: 0 <= i < |r.cycles| ==>
            CycleShape(r.cycles[i], endpoint, hs, generation + i + (if first then 0 else 1)))
      && r.generation == generation + |r.cycles| - (if first then 1 else 0)
  {
    var r := RunSpec(endpoint, hs, first, generation, answers, inbound, draw);
    RunShapedFrom(endpoint, hs, first, generation, answers, inbound, draw);
    ShapedFromAt(r.cycles, endpoint, hs, if first then generation else generation + 1);
  }

  /** Every cycle but the last restarts, and the last one decides how the
      run ends: the run terminates only when the last serve loop broke out
      on the fatal reply error. */
  lemma {:induction false} RunEnds(endpoint: string, hs: seq<Handler>, first: bool, generation: nat,
                                    answers: seq<RegAnswer>, inbound: seq<Recv>, draw: nat)
    requires |hs| > 0
    ensures var r := RunSpec(endpoint, hs, first, generation, answers, inbound, draw);
      && (forall i :: 0 <= i < |r.cycles| - 1 ==> Restarts(r.cycles[i]))
      && !Restarts(r.cycles[|r.cycles| - 1])
      && r.end == EndOf(r.cycles[|r.cycles| - 1])
    decreases |answers| + |inbound|
  {
    var gen := if first then generation else generation + 1;
    var cr := CycleSpec(endpoint, hs, gen, answers, inbound, draw);
    if Restarts(cr.cycle) {
      RunEnds(endpoint, hs, false, gen, cr.restAnswers, cr.restInbound, cr.draw);
      var r' := RunSpec(endpoint, hs, false, gen, cr.restAnswers, cr.restInbound, cr.draw);
      RestartsCons(cr.cycle, r'.cycles);
    }
  }

  lemma RestartsCons(c: Cycle, cs: seq<Cycle>)
    requires Restarts(c) && |cs| > 0
    requires forall i :: 0 <= i < |cs| - 1 ==> Restarts(cs[i])
    ensures forall i :: 0 <= i < |[c] + cs| - 1 ==> Restarts(([c] + cs)[i])
    ensures ([c] + cs)[|[c] + cs| - 1] == cs[|cs| - 1]
  {
    forall i | 0 < i < |[c] + cs| - 1 ensures Restarts(([c] + cs)[i]) {
      assert ([c] + cs)[i] == cs[i - 1];
    }
  }

  lemma ReceivesStep(c: Cycle, cs: seq<Cycle>, inbound: seq<Recv>, mid: seq<Recv>, rest: seq<Recv>)
    requires c.received + mid == inbound && AllReceived(cs) + rest == mid
    ensures AllReceived([c] + cs) + rest == inbound
  {
    assert ([c] + cs)[1..] == cs;
  }

  /** Every receive result is consumed by exactly one cycle, in script
      order, and the results left over were never received. */
  lemma {:induction false} RunReceives(endpoint: string, hs: seq<Handler>, first: bool, generation: nat,
                                        answers: seq<RegAnswer>, inbound: seq<Recv>, draw: nat)
    requires |hs| > 0
    ensures var r := RunSpec(endpoint, hs, first, generation, answers, inbound, draw);
      AllReceived(r.cycles) + r.restInbound == inbound
    decreases |answers| + |inbound|
  {
    var gen := if first then generation else generation + 1;
    var cr := CycleSpec(endpoint, hs, gen, answers, inbound, draw);
    if Restarts(cr.cycle) {
      RunReceives(endpoint, hs, false, gen, cr.restAnswers, cr.restInbound, cr.draw);
      var r' := RunSpec(endpoint, hs, false, gen, cr.restAnswers, cr.restInbound, cr.draw);
      assert RunSpec(endpoint, hs, first, generation, answers, inbound, draw) == r'.(cycles := [cr.cycle] + r'.cycles);
      ReceivesStep(cr.cycle, r'.cycles, inbound, cr.restInbound, r'.restInbound);
    } else {
      assert [cr.cycle][1..] == [];
    }
  }

  /** The last of `items` broke out of the serve loop on the fatal reply
      error. */
  predicate LeftFatally(h0: Handler, items: seq<Recv>)
  {
    items != [] && Handle(h0, items[|items| - 1]).exit == Some(Fatal)
  }

  lemma LeftFatallyAppend(h0: Handler, a: seq<Recv>, b: seq<Recv>)
    requires !LeftFatally(h0, a)
    ensures LeftFatally(h0, a + b) <==> LeftFatally(h0, b)
  {
    if b == [] {
      assert a + b == a;
    } else {
      assert (a + b)[|a + b| - 1] == b[|b| - 1];
    }
  }

  /** A cycle of the shape `start` gives it ends the run as terminated
      exactly when its last receive result broke out on the fatal reply
      error, and a cycle that restarts never received such a result last. */
  lemma ShapedEnd(c: Cycle, endpoint: string, hs: seq<Handler>, gen: nat)
    requires |hs| > 0 && CycleShape(c, endpoint, hs, gen)
    ensures EndOf(c) == Terminated <==> LeftFatally(hs[0], c.received)
    ensures Restarts(c) ==> !LeftFatally(hs[0], c.received)
  {
    if c.serve.Some? && c.serve.value.exit == ServeStalled && c.received != [] {
      assert Handle(hs[0], c.received[|c.received| - 1]).exit == None;
    }
  }

  lemma CycleEnd(endpoint: string, hs: seq<Handler>, gen: nat,
                 answers: seq<RegAnswer>, inbound: seq<Recv>, draw: nat)
    requires |hs| > 0
    ensures var c := CycleSpec(endpoint, hs, gen, answers, inbound, draw).cycle;
      && (EndOf(c) == Terminated <==> LeftFatally(hs[0], c.received))
      && (Restarts(c) ==> !LeftFatally(hs[0], c.received))
  {
    CycleShaped(endpoint, hs, gen, answers, inbound, draw);
    ShapedEnd(CycleSpec(endpoint, hs, gen, answers, inbound, draw).cycle, endpoint, hs, gen);
  }

  lemma {:induction false} RunEndsFatally(endpoint: string, hs: seq<Handler>, first: bool, generation: nat,
                                           answers: seq<RegAnswer>, inbound: seq<Recv>, draw: nat)
    requires |hs| > 0
    ensures var r := RunSpec(endpoint, hs, first, generation, answers, inbound, draw);
      r.end == Terminated <==> LeftFatally(hs[0], AllReceived(r.cycles))
    decreases |answers| + |inbound|
  {
    var gen := if first then generation else generation + 1;
    var cr := CycleSpec(endpoint, hs, gen, answers, inbound, draw);
    CycleEnd(endpoint, hs, gen, answers, inbound, draw);
    if Restarts(cr.cycle) {
      RunEndsFatally(endpoint, hs, false, gen, cr.restAnswers, cr.restInbound, cr.draw);
      var r' := RunSpec(endpoint, hs, false, gen, cr.restAnswers, cr.restInbound, cr.draw);
      assert RunSpec(endpoint, hs, first, generation, answers, inbound, draw) == r'.(cycles := [cr.cycle] + r'.cycles);
      assert ([cr.cycle] + r'.cycles)[1..] == r'.cycles;
      LeftFatallyAppend(hs[0], cr.cycle.received, AllReceived(r'.cycles));
    } else {
      assert [cr.cycle][1..] == [];
      assert cr.cycle.received + [] == cr.cycle.received;
    }
  }

  /** `start` terminates exactly when the last receive result of the whole
      run was an envelope that was answered and whose reply failed with the
      unknown error. */
  lemma RunTerminates(endpoint: string, hs: seq<Handler>, first: bool, generation: nat,
                      answers: seq<RegAnswer>, inbound: seq<Recv>, draw: nat)
    requires |hs| > 0
    ensures var r := RunSpec(endpoint, hs, first, generation, answers, inbound, draw);
      var all := AllReceived(r.cycles);
      r.end == Terminated <==>
        all != [] && Answered(all[|all| - 1]) && all[|all| - 1].fate.reply == ReplyUnknown
  {
    var r := RunSpec(endpoint, hs, first, generation, answers, inbound, draw);
    var all := AllReceived(r.cycles);
    RunEndsFatally(endpoint, hs, first, generation, answers, inbound, draw);
    if all != [] {
      HandleExit(hs[0], all[|all| - 1]);
    }
  }
}
