/** The transaction processor: a handler registry, the connection to the
    validator, and `start`, which connects, registers and serves until a
    reply fails fatally. The transport is replaced by scripts of answers;
    `trace` records what the processor does on it, in order. */
module Processor {
  import opened Messages
  import opened Correlation
  import opened Registration
  import opened Dispatch
  import opened Controller

  /** A message connection to the validator; a reconnect makes a new one,
      with the next generation number. */
  datatype Connection = Connection(endpoint: string, generation: nat)

  class TransactionProcessor {
    const endpoint: string
    var conn: Connection
    var handlers: seq<Handler>
    /** Everything sent, replied, applied, connected and closed so far. */
    var trace: seq<Output>
    /** The number of random draws made so far: the state of the thread
        random generator that correlation ids come from. */
    var draws: nat

    ghost predicate Valid()
      reads this
    {
      conn.endpoint == endpoint
    }

    /** `new`: the connection is made at construction; no handler yet. */
    constructor (endpoint: string)
      ensures Valid()
      ensures this.endpoint == endpoint && conn == Connection(endpoint, 0)
      ensures handlers == [] && trace == [] && draws == 0
    {
      this.endpoint := endpoint;
      conn := Connection(endpoint, 0);
      handlers := [];
      trace := [];
      draws := 0;
    }

    /** `add_handler`: the handler goes last, after the existing ones, and
        its requests will be registered after all of theirs. */
    method AddHandler(h: Handler)
      modifies this`handlers
      ensures handlers == old(handlers) + [h]
      ensures Pairs(handlers) == Pairs(old(handlers)) + VersionRequests(h)
      ensures conn == old(conn) && trace == old(trace) && draws == old(draws)
    {
      handlers := handlers + [h];
      PairsAppend(old(handlers), h);
    }

    /** One exchange of `register`: serialise `request`, send it with a
        fresh correlation id and absorb the acknowledgement; `answer` says
        which of these fails, if any. */
    method Exchange(request: RegisterRequest, answer: RegAnswer) returns (acked: bool)
      modifies this`trace, this`draws
      ensures acked <==> answer == Acked
      ensures answer == SerializeFailed ==> trace == old(trace) && draws == old(draws)
      ensures answer != SerializeFailed ==>
        trace == old(trace) + [RegisterReq(old(draws), request)] && draws == old(draws) + 1
    {
      if answer == SerializeFailed {
        return false;
      }
      // generate_correlation_id: the next random draw
      var draw := draws;
      draws := draws + 1;
      trace := trace + [RegisterReq(draw, request)];
      acked := answer == Acked;
    }

    /** The inner loop of `register`: one exchange per version of
        `handler`, in version order, until one fails. */
    method RegisterFamily(handler: Handler, answers: seq<RegAnswer>) returns (outcome: RegOutcome, rest: seq<RegAnswer>)
      modifies this`trace, this`draws
      ensures var r := RegisterSpec(VersionRequests(handler), answers, old(draws));
        && outcome == r.outcome && rest == r.rest
        && trace == old(trace) + r.sent && draws == r.draw
    {
      rest := answers;
      var versions := handler.familyVersions;
      ghost var reqs := VersionRequests(handler);
      ghost var spec := RegisterSpec(reqs, answers, draws);
      ghost var sent: seq<Output> := [];
      ghost var todo := reqs;
      var j := 0;
      while j < |versions|
        invariant 0 <= j <= |versions| && todo == reqs[j..]
        invariant trace == old(trace) + sent
        invariant Resumes(spec, sent, todo, rest, draws)
      {
        var request := RegisterRequest(handler.familyName, versions[j], handler.namespaces);
        assert todo[0] == request;
        if rest == [] {
          ResumesEnd(spec, sent, todo, rest, draws);
          return RegStalled, rest;
        }
        var answer := rest[0];
        ghost var sent0, todo0, rest0, draws0 := sent, todo, rest, draws;
        ghost var req := RegisterReq(draws0, request);
        AppendAssoc(old(trace), sent0, [req]);
        rest := rest[1..];
        var acked := Exchange(request, answer);
        if !acked {
          ResumesFailed(spec, sent0, todo0, rest0, draws0);
          return Refused, rest;
        }
        sent := sent + [req];
        todo := todo[1..];
        ResumesAcked(spec, sent0, todo0, rest0, draws0, sent, todo, rest, draws);
        j := j + 1;
      }
      ResumesEnd(spec, sent, todo, rest, draws);
      outcome := Registered;
    }

    /** `register`: every handler in registry order, each with all of its
        versions; the first failure refuses the whole round. `answers`
        says how each exchange ends; running out of them stalls. */
    method Register(answers: seq<RegAnswer>) returns (outcome: RegOutcome, rest: seq<RegAnswer>)
      modifies this`trace, this`draws
      ensures var r := RegisterSpec(Pairs(handlers), answers, old(draws));
        && outcome == r.outcome && rest == r.rest
        && trace == old(trace) + r.sent && draws == r.draw
    {
      rest := answers;
      ghost var spec := RegisterSpec(Pairs(handlers), answers, draws);
      ghost var sent: seq<Output> := [];
      var i := 0;
      while i < |handlers|
        invariant 0 <= i <= |handlers|
        invariant trace == old(trace) + sent
        invariant Resumes(spec, sent, Pairs(handlers[i..]), rest, draws)
      {
        ghost var family := RegisterSpec(VersionRequests(handlers[i]), rest, draws);
        PairsFrom(handlers, i);
        ResumesSplit(spec, sent, VersionRequests(handlers[i]), Pairs(handlers[i + 1..]), rest, draws);
        AppendAssoc(old(trace), sent, family.sent);
        outcome, rest := RegisterFamily(handlers[i], rest);
        if outcome != Registered {
          return;
        }
        sent := sent + family.sent;
        i := i + 1;
      }
      ResumesEnd(spec, sent, [], rest, draws);
      outcome := Registered;
    }

    /** One pass of the serve loop: handle one receive result with the
        first handler. `exit` is None when serving goes on. */
    method HandleReceived(item: Recv) returns (exit: Option<ServeExit>)
      requires |handlers| > 0
      modifies this`trace
      ensures var s := Handle(handlers[0], item); exit == s.exit && trace == old(trace) + s.out
    {
      exit := None;
      match item
      case TransportError =>
      case RecvDisconnected =>
        exit := Some(Reconnect);
      case RecvError =>
      case Received(message, fate) =>
        if message.messageType == TpProcessRequest {
          if fate.parsed.None? {
            return;
          }
          var request := fate.parsed.value;
          trace := trace + [Invoke(handlers[0].familyName, request.contextId)];
          var response := ResponseFor(fate.applied);
          if !fate.serialized {
            return;
          }
          trace := trace + [Reply(TpProcessResponse, message.correlationId, response)];
          exit := AfterReply(fate.reply);
        } else {
          var response := ProcessResponse(StatusInternalError, Some(NotImplemented));
          if !fate.serialized {
            exit := Some(Aborted);
            return;
          }
          trace := trace + [Reply(TpProcessResponse, message.correlationId, response)];
          exit := AfterReply(fate.reply);
        }
    }

    /** The serve loop: receive and handle one result after the other
        until one of them breaks out. */
    method Serve(inbound: seq<Recv>) returns (exit: ServeExit, rest: seq<Recv>)
      requires |handlers| > 0
      modifies this`trace
      ensures var r := ServeSpec(handlers[0], inbound);
        exit == r.exit && rest == r.rest && trace == old(trace) + r.sent
    {
      rest := inbound;
      ghost var h0 := handlers[0];
      ghost var spec := ServeSpec(h0, inbound);
      ghost var sent: seq<Output> := [];
      while true
        invariant trace == old(trace) + sent
        invariant ServeResumes(spec, sent, h0, rest)
        decreases |rest|
      {
        if rest == [] {
          ServeResumesEnd(spec, sent, h0, rest);
          return ServeStalled, rest;
        }
        var item := rest[0];
        ghost var sent0, rest0 := sent, rest;
        ghost var step := Handle(h0, item);
        AppendAssoc(old(trace), sent0, step.out);
        rest := rest[1..];
        var next := HandleReceived(item);
        if next.Some? {
          ServeResumesLeave(spec, sent0, h0, rest0);
          return next.value, rest;
        }
        sent := sent + step.out;
        ServeResumesNext(spec, sent0, h0, rest0, sent, rest);
      }
    }

    /** One pass of the outer loop of `start` on the current connection:
        create the sender, register, and serve; leaving the serve loop
        closes the sender. `restarts` says whether `start` connects again;
        otherwise `end` says how the run ends. When `restarts` holds, `end`
        is a placeholder with no meaning: `start` ignores it and connects
        again, and the contract says nothing about it. */
    method RunCycle(answers: seq<RegAnswer>, inbound: seq<Recv>)
      returns (restarts: bool, end: RunEnd, restAnswers: seq<RegAnswer>, restInbound: seq<Recv>)
      requires |handlers| > 0
      modifies this`trace, this`draws
      ensures var cr := CycleSpec(endpoint, handlers, conn.generation, answers, inbound, old(draws));
        && trace == old(trace) + CycleOutputs(cr.cycle) && draws == cr.draw
        && restAnswers == cr.restAnswers && restInbound == cr.restInbound
        && restarts == Restarts(cr.cycle) && (!restarts ==> end == EndOf(cr.cycle))
    {
      ghost var c := CycleSpec(endpoint, handlers, conn.generation, answers, inbound, draws).cycle;
      ghost var start := trace;
      trace := trace + [Connect(endpoint, conn.generation)];
      var outcome;
      outcome, restAnswers := Register(answers);
      restInbound := inbound;
      if outcome != Registered {
        // a refused registration retries without closing the sender
        CycleTrace(start, c, [], []);
        return outcome == Refused, Stalled, restAnswers, restInbound;
      }
      var exit;
      exit, restInbound := Serve(inbound);
      if exit == ServeStalled || exit == Aborted {
        CycleTrace(start, c, c.serve.value.sent, []);
        return false, if exit == Aborted then Panicked else Stalled, restAnswers, restInbound;
      }
      trace := trace + [Close];
      CycleTrace(start, c, c.serve.value.sent, [Close]);
      restarts, end := exit == Reconnect, Terminated;
    }

    /** `start`: connect (reusing the construction-time connection on the
        first pass only), register, and serve, again and again until a
        reply fails with the unknown error. */
    method Start(answers: seq<RegAnswer>, inbound: seq<Recv>)
      returns (end: RunEnd, restAnswers: seq<RegAnswer>, restInbound: seq<Recv>)
      requires Valid() && |handlers| > 0
      modifies this`conn, this`trace, this`draws
      ensures Valid()
      ensures var run := RunSpec(endpoint, handlers, true, old(conn.generation), answers, inbound, old(draws));
        && end == run.end && restAnswers == run.restAnswers && restInbound == run.restInbound
        && trace == old(trace) + Flatten(run.cycles)
        && conn == Connection(endpoint, run.generation) && draws == run.draw
    {
      var firstTime := true;
      restAnswers, restInbound := answers, inbound;
      ghost var cycles: seq<Cycle> := [];
      ghost var spec := RunSpec(endpoint, handlers, true, conn.generation, answers, inbound, draws);
      // the loop of `start` runs while `restart` holds; every cycle decides
      // it anew, and the loop is left by the return once it is cleared
      while true
        invariant Valid()
        invariant trace == old(trace) + Flatten(cycles)
        invariant RunResumes(spec, cycles, endpoint, handlers, firstTime, conn.generation, restAnswers, restInbound, draws)
        decreases |restAnswers| + |restInbound|
      {
        ghost var first, gen0, answers0, inbound0, draws0 :=
          firstTime, conn.generation, restAnswers, restInbound, draws;
        if firstTime {
          firstTime := false;
        } else {
          conn := Connection(endpoint, conn.generation + 1);
        }
        ghost var cr := CycleSpec(endpoint, handlers, conn.generation, answers0, inbound0, draws0);
        var restart, last;
        restart, last, restAnswers, restInbound := RunCycle(restAnswers, restInbound);
        FlattenSnoc(cycles, cr.cycle);
        AppendAssoc(old(trace), Flatten(cycles), CycleOutputs(cr.cycle));
        if !restart {
          // a fatal reply error ends `start`; so do a panic and the end of a script
          RunResumesStop(spec, cycles, endpoint, handlers, first, gen0, answers0, inbound0, draws0, cr);
          return last, restAnswers, restInbound;
        }
        RunResumesRestart(spec, cycles, endpoint, handlers, first, gen0, answers0, inbound0, draws0, cr, cycles + [cr.cycle]);
        cycles := cycles + [cr.cycle];
      }
    }
  }

  /** The outputs of a cycle, as the cycle produces them one after the other. */
  lemma CycleTrace(start: seq<Output>, c: Cycle, served: seq<Output>, closing: seq<Output>)
    requires served == if c.serve.Some? then c.serve.value.sent else []
    requires closing == if c.closed then [Close] else []
    ensures (((start + [c.connect]) + c.registration.sent) + served) + closing == start + CycleOutputs(c)
  {
    var conn, reg := [c.connect], c.registration.sent;
    assert CycleOutputs(c) == ((conn + reg) + served) + closing;
    AppendAssoc(start, conn, reg);
    AppendAssoc(start, conn + reg, served);
    AppendAssoc(start, (conn + reg) + served, closing);
  }

  lemma FlattenSnoc(cs: seq<Cycle>, c: Cycle)
    ensures Flatten(cs + [c]) == Flatten(cs) + CycleOutputs(c)
  {
    assert (cs + [c])[..|cs|] == cs;
  }
}
