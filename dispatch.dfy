/** Dispatch of received envelopes: the response-status mapping, the
    handling of one receive result, and the serve loop over a script of
    receive results. */
module Dispatch {
  import opened Messages

  const NotImplemented: string := "not implemented..."

  /** How a reader of a response recovers the handler outcome it reports. */
  function ResultOf(r: ProcessResponse): Option<ApplyResult>
  {
    match (r.status, r.message)
    case (StatusOk, None) => Some(Applied)
    case (StatusInvalidTransaction, Some(m)) => Some(Failed(InvalidTransaction(m)))
    case (StatusInternalError, Some(d)) => Some(Failed(InternalError(d)))
    case _ => None
  }

  /** The response for a handler outcome: OK without a message on success,
      INVALID_TRANSACTION with the handler's message unchanged, and
      INTERNAL_ERROR with the description of any other error. The mapping
      loses nothing: the outcome can be read back from the response. */
  function ResponseFor(result: ApplyResult): (r: ProcessResponse)
    ensures r.status == StatusOk <==> result.Applied?
    ensures r.status == StatusInvalidTransaction <==> result.Failed? && result.error.InvalidTransaction?
    ensures r.status == StatusInternalError <==> result.Failed? && !result.error.InvalidTransaction?
    ensures ResultOf(r) == Some(result)
  {
    match result
    case Applied => ProcessResponse(StatusOk, None)
    case Failed(InvalidTransaction(m)) => ProcessResponse(StatusInvalidTransaction, Some(m))
    case Failed(InternalError(d)) => ProcessResponse(StatusInternalError, Some(d))
  }

  /** Why the serve loop was left: a disconnect, the fatal reply error, a
      panic on the unwrapped serialisation, or the end of the script. */
  datatype ServeExit = Reconnect | Fatal | Aborted | ServeStalled

  /** Whether the serve loop goes on after a reply, by the transport's answer. */
  function AfterReply(o: ReplyOutcome): Option<ServeExit>
  {
    match o
    case ReplyOk => None
    case ReplyTimeout => None
    case ReplyDisconnected => Some(Reconnect)
    case ReplyUnknown => Some(Fatal)
  }

  /** The replies among some outputs, in order. */
  function Replies(out: seq<Output>): (rs: seq<Output>)
    ensures forall o :: o in rs ==> o in out && o.Reply?
  {
    if out == [] then [] else (if out[0].Reply? then [out[0]] else []) + Replies(out[1..])
  }

  /** A receive result that is answered: a received envelope whose response
      serialises and, for a process request, whose content parses. */
  predicate Answered(item: Recv)
  {
    && item.Received?
    && item.fate.serialized
    && (item.envelope.messageType == TpProcessRequest ==> item.fate.parsed.Some?)
  }

  /** What one pass of the serve loop does: `exit` is None when serving
      continues with the next receive. */
  datatype Step = Step(exit: Option<ServeExit>, out: seq<Output>)

  /** One receive result handled with `h0`, the first registered handler. */
  function Handle(h0: Handler, item: Recv): Step
  {
    match item
    case TransportError => Step(None, [])
    case RecvDisconnected => Step(Some(Reconnect), [])
    case RecvError => Step(None, [])
    case Received(env, fate) =>
      if env.messageType == TpProcessRequest then
        match fate.parsed
        case None => Step(None, [])
        case Some(req) =>
          var invoke := Invoke(h0.familyName, req.contextId);
          if !fate.serialized then Step(None, [invoke])
          else Step(AfterReply(fate.reply), [invoke, Reply(TpProcessResponse, env.correlationId, ResponseFor(fate.applied))])
      else if !fate.serialized then Step(Some(Aborted), [])
      else
        Step(AfterReply(fate.reply),
             [Reply(TpProcessResponse, env.correlationId, ProcessResponse(StatusInternalError, Some(NotImplemented)))])
  }

  /** What one receive result outputs: at most one reply, a
      TP_PROCESS_RESPONSE with the envelope's own correlation id, exactly
      when the envelope is answered; before it, one handler application
      exactly for a process request that parses; nothing else. */
  lemma HandleOutputs(h0: Handler, item: Recv)
    ensures var s := Handle(h0, item);
      && |Replies(s.out)| <= 1
      && (forall o :: o in s.out && o.Reply? ==>
            item.Received? && o.messageType == TpProcessResponse && o.correlationId == item.envelope.correlationId)
      && (|Replies(s.out)| == 1 <==> Answered(item))
    // the reply reports the handler's outcome, or that the type is not implemented
      && (Answered(item) && item.envelope.messageType == TpProcessRequest ==>
            ResultOf(Replies(s.out)[0].response) == Some(item.fate.applied))
      && (Answered(item) && item.envelope.messageType != TpProcessRequest ==>
            Replies(s.out)[0].response == ProcessResponse(StatusInternalError, Some(NotImplemented)))
    // the first handler is applied once, with the request's context
      && s.out == (if item.Received? && item.envelope.messageType == TpProcessRequest && item.fate.parsed.Some?
                   then [Invoke(h0.familyName, item.fate.parsed.value.contextId)] else [])
                  + Replies(s.out)
  {
    var s := Handle(h0, item);
    if item.Received? && item.fate.serialized {
      var env := item.envelope;
      if env.messageType != TpProcessRequest {
        var reply := s.out[0];
        assert s.out == [reply];
        assert Replies([reply]) == [reply] by {
          assert [reply][1..] == [];
        }
      } else if item.fate.parsed.Some? {
        var invoke, reply := s.out[0], s.out[1];
        assert s.out == [invoke, reply];
        assert Replies([invoke, reply]) == [reply] by {
          assert Replies([reply]) == [reply] by {
            assert [reply][1..] == [];
          }
          assert [invoke, reply][1..] == [reply];
        }
      }
    } else if item.Received? && item.envelope.messageType == TpProcessRequest && item.fate.parsed.Some? {
      var invoke := s.out[0];
      assert s.out == [invoke];
      assert Replies([invoke]) == [] by {
        assert [invoke][1..] == [];
      }
    }
  }

  /** Which receive results leave the serve loop: a receive disconnect, a
      reply that fails with a disconnect or the unknown error, and the
      fixed response that fails to serialise; everything else goes on. */
  lemma HandleExit(h0: Handler, item: Recv)
    ensures var s := Handle(h0, item);
      && s.exit != Some(ServeStalled)
      && (s.exit == Some(Fatal) <==> Answered(item) && item.fate.reply == ReplyUnknown)
      && (s.exit == Some(Reconnect) <==>
            item == RecvDisconnected || (Answered(item) && item.fate.reply == ReplyDisconnected))
      && (s.exit == Some(Aborted) <==>
            item.Received? && item.envelope.messageType != TpProcessRequest && !item.fate.serialized)
  {
  }

  /** How the serve loop ended, what it sent and the receive results left. */
  datatype ServeRun = ServeRun(exit: ServeExit, sent: seq<Output>, rest: seq<Recv>)

  /** The serve loop over a script of receive results. */
  function ServeSpec(h0: Handler, inbound: seq<Recv>): (r: ServeRun)
    ensures |r.rest| <= |inbound|
    ensures r.exit != ServeStalled ==> |r.rest| < |inbound|
    decreases |inbound|
  {
    if inbound == [] then ServeRun(ServeStalled, [], [])
    else
      var s := Handle(h0, inbound[0]);
      match s.exit
      case None =>
        var r := ServeSpec(h0, inbound[1..]);
        r.(sent := s.out + r.sent)
      case Some(e) => ServeRun(e, s.out, inbound[1..])
  }

  /** `spec` is the serve loop that has sent `sent` so far and goes on
      with the receive results `items`. */
  predicate ServeResumes(spec: ServeRun, sent: seq<Output>, h0: Handler, items: seq<Recv>)
  {
    var r := ServeSpec(h0, items);
    spec == r.(sent := sent + r.sent)
  }

  /** A result after which serving continues adds its outputs; resuming
      from `sent'` and `items'`. */
  lemma ServeResumesNext(spec: ServeRun, sent: seq<Output>, h0: Handler, items: seq<Recv>,
                         sent': seq<Output>, items': seq<Recv>)
    requires ServeResumes(spec, sent, h0, items) && items != [] && Handle(h0, items[0]).exit == None
    requires sent' == sent + Handle(h0, items[0]).out && items' == items[1..]
    ensures ServeResumes(spec, sent', h0, items')
  {
    var r := ServeSpec(h0, items[1..]);
    assert sent + (Handle(h0, items[0]).out + r.sent) == (sent + Handle(h0, items[0]).out) + r.sent;
  }

  /** A result that leaves the loop ends it there. */
  lemma ServeResumesLeave(spec: ServeRun, sent: seq<Output>, h0: Handler, items: seq<Recv>)
    requires ServeResumes(spec, sent, h0, items) && items != [] && Handle(h0, items[0]).exit.Some?
    ensures spec == ServeRun(Handle(h0, items[0]).exit.value, sent + Handle(h0, items[0]).out, items[1..])
  {
  }

  /** At the end of the script the loop stalls. */
  lemma ServeResumesEnd(spec: ServeRun, sent: seq<Output>, h0: Handler, items: seq<Recv>)
    requires ServeResumes(spec, sent, h0, items) && items == []
    ensures spec == ServeRun(ServeStalled, sent, [])
  {
  }

  /** The serve loop consumes receive results from the front of the script. */
  lemma {:induction false} ServeRestIsSuffix(h0: Handler, inbound: seq<Recv>)
    ensures var r := ServeSpec(h0, inbound); r.rest == inbound[|inbound| - |r.rest|..]
    decreases |inbound|
  {
    if inbound != [] && Handle(h0, inbound[0]).exit == None {
      ServeRestIsSuffix(h0, inbound[1..]);
    }
  }

  /** The outputs of handling some receive results one after the other. */
  function Outputs(h0: Handler, items: seq<Recv>): seq<Output>
  {
    if items == [] then [] else Handle(h0, items[0]).out + Outputs(h0, items[1..])
  }

  /** Serving continues after each of these receive results. */
  predicate Continues(h0: Handler, items: seq<Recv>)
  {
    forall i :: 0 <= i < |items| ==> Handle(h0, items[i]).exit == None
  }

  /** The serve loop handles every result up to the first one that leaves
      it, receives nothing after that one, and leaves as that one says. */
  lemma {:induction false} ServeStopsAt(h0: Handler, inbound: seq<Recv>, k: nat)
    requires k < |inbound| && Continues(h0, inbound[..k]) && Handle(h0, inbound[k]).exit.Some?
    ensures ServeSpec(h0, inbound) ==
      ServeRun(Handle(h0, inbound[k]).exit.value, Outputs(h0, inbound[..k + 1]), inbound[k + 1..])
  {
    if k == 0 {
      assert inbound[..1] == [inbound[0]];
      assert Outputs(h0, inbound[..1]) == Handle(h0, inbound[0]).out + Outputs(h0, []);
    } else {
      assert Handle(h0, inbound[0]).exit == None by {
        assert inbound[..k][0] == inbound[0];
      }
      assert inbound[1..][..k - 1] == inbound[..k][1..];
      ServeStopsAt(h0, inbound[1..], k - 1);
      assert inbound[..k + 1][1..] == inbound[1..][..k];
    }
  }

  /** Without a result that leaves it, the serve loop handles the whole
      script and stalls at its end. */
  lemma {:induction false} ServeRunsOut(h0: Handler, inbound: seq<Recv>)
    requires Continues(h0, inbound)
    ensures ServeSpec(h0, inbound) == ServeRun(ServeStalled, Outputs(h0, inbound), [])
  {
    if inbound != [] {
      assert Handle(h0, inbound[0]).exit == None;
      ServeRunsOut(h0, inbound[1..]);
    }
  }

  lemma ContinuesCons(h0: Handler, x: Recv, items: seq<Recv>)
    requires Handle(h0, x).exit == None && Continues(h0, items)
    ensures Continues(h0, [x] + items)
  {
    assert forall i :: 1 <= i < |items| + 1 ==> ([x] + items)[i] == items[i - 1];
  }

  /** The serve loop is left only by the last result it received, and each
      result before that one let serving continue. */
  lemma {:induction false} ServeExitCause(h0: Handler, inbound: seq<Recv>)
    requires ServeSpec(h0, inbound).exit != ServeStalled
    ensures var k := |inbound| - |ServeSpec(h0, inbound).rest| - 1;
      Continues(h0, inbound[..k]) && Handle(h0, inbound[k]).exit == Some(ServeSpec(h0, inbound).exit)
  {
    if Handle(h0, inbound[0]).exit == None {
      var tail := inbound[1..];
      ServeExitCause(h0, tail);
      var r := ServeSpec(h0, tail);
      var k := |tail| - |r.rest| - 1;
      ContinuesCons(h0, inbound[0], tail[..k]);
      assert inbound[..k + 1] == [inbound[0]] + tail[..k];
      assert inbound[k + 1] == tail[k];
    }
  }

  /** The serve loop stalls only when every result let serving continue. */
  lemma {:induction false} ServeStallCause(h0: Handler, inbound: seq<Recv>)
    requires ServeSpec(h0, inbound).exit == ServeStalled
    ensures Continues(h0, inbound) && ServeSpec(h0, inbound).rest == []
  {
    if inbound != [] {
      var tail := inbound[1..];
      ServeStallCause(h0, tail);
      ContinuesCons(h0, inbound[0], tail);
      assert inbound == [inbound[0]] + tail;
    }
  }

  /** The serve loop handles exactly the results it receives from the
      front of the script: its outputs are theirs, every result but the
      last let serving continue, and the last one left the loop as the
      loop's exit says (at the end of the script, every result let serving
      continue). */
  lemma ServeHandlesReceived(h0: Handler, inbound: seq<Recv>)
    ensures var sv := ServeSpec(h0, inbound);
      var received := inbound[..|inbound| - |sv.rest|];
      && sv.sent == Outputs(h0, received)
      && (sv.exit == ServeStalled ==> Continues(h0, received))
      && (sv.exit != ServeStalled ==>
            received != [] && Continues(h0, received[..|received| - 1])
            && Handle(h0, received[|received| - 1]).exit == Some(sv.exit))
  {
    var sv := ServeSpec(h0, inbound);
    if sv.exit == ServeStalled {
      ServeStalledReceived(h0, inbound, sv);
      assert inbound[..|inbound| - |sv.rest|] == inbound;
    } else {
      ServeLeftReceived(h0, inbound, sv);
    }
  }

  lemma ServeStalledReceived(h0: Handler, inbound: seq<Recv>, sv: ServeRun)
    requires sv == ServeSpec(h0, inbound) && sv.exit == ServeStalled
    ensures sv.rest == [] && sv.sent == Outputs(h0, inbound) && Continues(h0, inbound)
  {
    ServeStallCause(h0, inbound);
    ServeRunsOut(h0, inbound);
  }

  lemma ServeLeftReceived(h0: Handler, inbound: seq<Recv>, sv: ServeRun)
    requires sv == ServeSpec(h0, inbound) && sv.exit != ServeStalled
    ensures var n := |inbound| - |sv.rest|;
      && 0 < n <= |inbound|
      && sv.sent == Outputs(h0, inbound[..n])
      && Continues(h0, inbound[..n][..n - 1])
      && Handle(h0, inbound[..n][n - 1]).exit == Some(sv.exit)
  {
    ServeExitCause(h0, inbound);
    var k := |inbound| - |sv.rest| - 1;
    ServeStopsAt(h0, inbound, k);
    assert inbound[..k + 1][..k] == inbound[..k];
  }
}
