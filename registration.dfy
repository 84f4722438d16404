/** The registration handshake: one TpRegisterRequest per (handler, version)
    pair, in registry order and in version order, stopping at the first
    failure. */
module Registration {
  import opened Messages
  import opened Correlation

  /** The requests for one handler, one per version, in `family_versions()` order. */
  function VersionRequests(h: Handler): seq<RegisterRequest>
  {
    seq(|h.familyVersions|, j requires 0 <= j < |h.familyVersions| =>
      RegisterRequest(h.familyName, h.familyVersions[j], h.namespaces))
  }

  /** All the requests `register` has to send, handler by handler. */
  function Pairs(hs: seq<Handler>): seq<RegisterRequest>
  {
    if hs == [] then [] else VersionRequests(hs[0]) + Pairs(hs[1..])
  }

  /** The requests from handler i on: those of handler i, then the rest. */
  lemma PairsFrom(hs: seq<Handler>, i: nat)
    requires i < |hs|
    ensures Pairs(hs[i..]) == VersionRequests(hs[i]) + Pairs(hs[i + 1..])
  {
    assert hs[i..][1..] == hs[i + 1..];
  }

  /** The number of requests of the handlers before position i. */
  function Offset(hs: seq<Handler>, i: nat): nat
    requires i <= |hs|
  {
    if i == 0 then 0 else |hs[0].familyVersions| + Offset(hs[1..], i - 1)
  }

  lemma {:induction false} PairsLength(hs: seq<Handler>)
    ensures |Pairs(hs)| == Offset(hs, |hs|)
  {
    if hs != [] {
      PairsLength(hs[1..]);
    }
  }

  /** The requests of handler i directly follow those of the handlers before it. */
  lemma {:induction false} OffsetStep(hs: seq<Handler>, i: nat)
    requires i < |hs|
    ensures Offset(hs, i + 1) == Offset(hs, i) + |hs[i].familyVersions|
  {
    if i > 0 {
      OffsetStep(hs[1..], i - 1);
    }
  }

  /** Request number Offset(hs, i) + j is version j of handler i, with that
      handler's family name and namespaces. */
  lemma {:induction false} PairsAt(hs: seq<Handler>, i: nat, j: nat)
    requires i < |hs| && j < |hs[i].familyVersions|
    ensures Offset(hs, i) + j < |Pairs(hs)|
    ensures Pairs(hs)[Offset(hs, i) + j] ==
      RegisterRequest(hs[i].familyName, hs[i].familyVersions[j], hs[i].namespaces)
  {
    if i > 0 {
      PairsAt(hs[1..], i - 1, j);
    }
  }

  /** Adding a handler adds its requests after all the earlier ones. */
  lemma {:induction false} PairsAppend(hs: seq<Handler>, h: Handler)
    ensures Pairs(hs + [h]) == Pairs(hs) + VersionRequests(h)
  {
    if hs == [] {
      assert [h][1..] == [];
    } else {
      assert (hs + [h])[1..] == hs[1..] + [h];
      PairsAppend(hs[1..], h);
    }
  }

  datatype RegOutcome = Registered | Refused | RegStalled

  /** The result of one registration round: how it ended, the requests it
      sent, the answers left and the next random draw. */
  datatype RegRun = RegRun(outcome: RegOutcome, sent: seq<Output>, rest: seq<RegAnswer>, draw: nat)

  /** `register` over the requests `reqs`, with `answers` saying how each
      exchange ends and `draw` the next random draw. A request is handed to
      `send` once it has serialised, even when `send` then fails. Running
      out of answers stalls. */
  function RegisterSpec(reqs: seq<RegisterRequest>, answers: seq<RegAnswer>, draw: nat): (r: RegRun)
    ensures |r.rest| <= |answers|
    ensures r.outcome == Refused ==> |r.rest| < |answers|
    ensures r.draw == draw + |r.sent|
    decreases |reqs|
  {
    if reqs == [] then RegRun(Registered, [], answers, draw)
    else if answers == [] then RegRun(RegStalled, [], [], draw)
    else
      var req := RegisterReq(draw, reqs[0]);
      match answers[0]
      case SerializeFailed => RegRun(Refused, [], answers[1..], draw)
      case SendFailed => RegRun(Refused, [req], answers[1..], draw + 1)
      case AckFailed => RegRun(Refused, [req], answers[1..], draw + 1)
      case Acked =>
        var r := RegisterSpec(reqs[1..], answers[1..], draw + 1);
        r.(sent := [req] + r.sent)
  }

  /** Registering `a + b` registers `a` first and goes on with `b` only
      when every request of `a` was acknowledged. */
  lemma {:induction false} RegisterSpecAppend(a: seq<RegisterRequest>, b: seq<RegisterRequest>,
                                              answers: seq<RegAnswer>, draw: nat)
    ensures var r1 := RegisterSpec(a, answers, draw);
      RegisterSpec(a + b, answers, draw) ==
        if r1.outcome == Registered then
          var r2 := RegisterSpec(b, r1.rest, r1.draw); r2.(sent := r1.sent + r2.sent)
        else r1
    decreases |a|
  {
    if a == [] {
      assert a + b == b;
    } else if answers != [] {
      assert (a + b)[0] == a[0];
      assert (a + b)[1..] == a[1..] + b;
      if answers[0] == Acked {
        RegisterSpecAppend(a[1..], b, answers[1..], draw + 1);
        var r1 := RegisterSpec(a[1..], answers[1..], draw + 1);
        if r1.outcome == Registered {
          var r2 := RegisterSpec(b, r1.rest, r1.draw);
          var req := RegisterReq(draw, a[0]);
          assert [req] + (r1.sent + r2.sent) == ([req] + r1.sent) + r2.sent;
        }
      }
    }
  }

  /** `spec` is the round that has sent `sent` so far and goes on with
      `reqs`, `answers` and `draw`. */
  predicate Resumes(spec: RegRun, sent: seq<Output>, reqs: seq<RegisterRequest>, answers: seq<RegAnswer>, draw: nat)
  {
    var r := RegisterSpec(reqs, answers, draw);
    spec == r.(sent := sent + r.sent)
  }

  /** An acknowledged exchange sends one request and goes on with the
      next: resuming from `sent'`, `reqs'`, `answers'`, `draw'`. */
  lemma ResumesAcked(spec: RegRun, sent: seq<Output>, reqs: seq<RegisterRequest>, answers: seq<RegAnswer>, draw: nat,
                     sent': seq<Output>, reqs': seq<RegisterRequest>, answers': seq<RegAnswer>, draw': nat)
    requires Resumes(spec, sent, reqs, answers, draw)
    requires reqs != [] && answers != [] && answers[0] == Acked
    requires sent' == sent + [RegisterReq(draw, reqs[0])] && reqs' == reqs[1..]
    requires answers' == answers[1..] && draw' == draw + 1
    ensures Resumes(spec, sent', reqs', answers', draw')
  {
    var r := RegisterSpec(reqs[1..], answers[1..], draw + 1);
    assert sent + ([RegisterReq(draw, reqs[0])] + r.sent)
        == (sent + [RegisterReq(draw, reqs[0])]) + r.sent;
  }

  /** A failed exchange ends the round, having sent the request unless it
      failed to serialise. */
  lemma ResumesFailed(spec: RegRun, sent: seq<Output>, reqs: seq<RegisterRequest>, answers: seq<RegAnswer>, draw: nat)
    requires Resumes(spec, sent, reqs, answers, draw)
    requires reqs != [] && answers != [] && answers[0] != Acked
    ensures answers[0] == SerializeFailed ==> spec == RegRun(Refused, sent, answers[1..], draw)
    ensures answers[0] != SerializeFailed ==>
      spec == RegRun(Refused, sent + [RegisterReq(draw, reqs[0])], answers[1..], draw + 1)
  {
  }

  /** Without answers left a round with requests left stalls; with no
      requests left it succeeds. */
  lemma ResumesEnd(spec: RegRun, sent: seq<Output>, reqs: seq<RegisterRequest>, answers: seq<RegAnswer>, draw: nat)
    requires Resumes(spec, sent, reqs, answers, draw)
    requires reqs == [] || answers == []
    ensures reqs == [] ==> spec == RegRun(Registered, sent, answers, draw)
    ensures reqs != [] ==> spec == RegRun(RegStalled, sent, [], draw)
  {
  }

  /** Resuming with `a + b` resumes with `a`, and then with `b` when all
      of `a` was acknowledged. */
  lemma ResumesSplit(spec: RegRun, sent: seq<Output>, a: seq<RegisterRequest>, b: seq<RegisterRequest>,
                     answers: seq<RegAnswer>, draw: nat)
    requires Resumes(spec, sent, a + b, answers, draw)
    ensures var r1 := RegisterSpec(a, answers, draw);
      && (r1.outcome == Registered ==> Resumes(spec, sent + r1.sent, b, r1.rest, r1.draw))
      && (r1.outcome != Registered ==> spec == r1.(sent := sent + r1.sent))
  {
    RegisterSpecAppend(a, b, answers, draw);
    var r1 := RegisterSpec(a, answers, draw);
    if r1.outcome == Registered {
      var r2 := RegisterSpec(b, r1.rest, r1.draw);
      assert sent + (r1.sent + r2.sent) == (sent + r1.sent) + r2.sent;
    }
  }

  predicate AllAcked(answers: seq<RegAnswer>)
  {
    forall i :: 0 <= i < |answers| ==> answers[i] == Acked
  }

  /** The requests `reqs`, each sent with the id of its own draw. */
  function SentFor(reqs: seq<RegisterRequest>, draw: nat): (out: seq<Output>)
    ensures |out| == |reqs|
  {
    seq(|reqs|, k requires 0 <= k < |reqs| => RegisterReq(draw + k, reqs[k]))
  }

  lemma SentForCons(reqs: seq<RegisterRequest>, draw: nat)
    requires reqs != []
    ensures SentFor(reqs, draw) == [RegisterReq(draw, reqs[0])] + SentFor(reqs[1..], draw + 1)
  {
    var a := SentFor(reqs, draw);
    var b := [RegisterReq(draw, reqs[0])] + SentFor(reqs[1..], draw + 1);
    assert |a| == |b|;
    forall k | 0 <= k < |a| ensures a[k] == b[k] {
      if k > 0 {
        assert b[k] == SentFor(reqs[1..], draw + 1)[k - 1];
      }
    }
  }

  /** Whatever the answers, a round hands a prefix of its requests to
      `send`, in order, the k-th with random draw `draw + k`. */
  lemma {:induction false} SentInOrder(reqs: seq<RegisterRequest>, answers: seq<RegAnswer>, draw: nat)
    ensures var r := RegisterSpec(reqs, answers, draw);
      |r.sent| <= |reqs| && r.sent == SentFor(reqs[..|r.sent|], draw)
    decreases |reqs|
  {
    var r := RegisterSpec(reqs, answers, draw);
    if reqs == [] || answers == [] || answers[0] == SerializeFailed {
      assert r.sent == [];
      assert SentFor(reqs[..0], draw) == [];
    } else if answers[0] != Acked {
      assert reqs[..1] == [reqs[0]];
      SentForCons(reqs[..1], draw);
      assert SentFor(reqs[..1][1..], draw + 1) == [];
    } else {
      SentInOrder(reqs[1..], answers[1..], draw + 1);
      var r' := RegisterSpec(reqs[1..], answers[1..], draw + 1);
      var n := |r'.sent|;
      assert reqs[..n + 1][1..] == reqs[1..][..n];
      SentForCons(reqs[..n + 1], draw);
    }
  }

  /** The correlation id a registration request was sent with. */
  function IdOf(o: Output): (id: string)
    requires o.RegisterReq?
    ensures |id| == IdLength && forall i :: 0 <= i < |id| ==> IsAsciiAlphanumeric(id[i])
  {
    CorrelationId(o.draw)
  }

  /** When every pair is acknowledged, registration succeeds having sent
      every request once, in order, and consumed one answer per request.
      With no requests it succeeds and sends nothing. */
  lemma {:induction false} RegisterAllAcked(reqs: seq<RegisterRequest>, answers: seq<RegAnswer>, draw: nat)
    requires |reqs| <= |answers| && AllAcked(answers[..|reqs|])
    ensures RegisterSpec(reqs, answers, draw) ==
      RegRun(Registered, SentFor(reqs, draw), answers[|reqs|..], draw + |reqs|)
  {
    if reqs != [] {
      assert answers[0] == answers[..|reqs|][0];
      assert answers[1..][..|reqs[1..]|] == answers[..|reqs|][1..];
      RegisterAllAcked(reqs[1..], answers[1..], draw + 1);
      SentForCons(reqs, draw);
      assert answers[1..][|reqs[1..]|..] == answers[|reqs|..];
    } else {
      assert SentFor(reqs, draw) == [];
    }
  }

  /** The first failing exchange, number k, refuses the registration: the
      requests before it were sent, `send` was called with request k unless
      it failed to serialise, and no later request is attempted. */
  lemma {:induction false} RegisterFirstFailure(reqs: seq<RegisterRequest>, answers: seq<RegAnswer>, draw: nat, k: nat)
    requires k < |reqs| && k < |answers|
    requires AllAcked(answers[..k]) && answers[k] != Acked
    ensures var r := RegisterSpec(reqs, answers, draw);
      && r.outcome == Refused
      && r.rest == answers[k + 1..]
      && r.sent == SentFor(reqs[..if answers[k] == SerializeFailed then k else k + 1], draw)
  {
    if k == 0 {
      var n := if answers[0] == SerializeFailed then 0 else 1;
      assert reqs[..n] == if n == 0 then [] else [reqs[0]];
      assert SentFor(reqs[..n], draw) == if n == 0 then [] else [RegisterReq(draw, reqs[0])];
    } else {
      assert answers[0] == answers[..k][0];
      assert answers[1..][..k - 1] == answers[..k][1..];
      RegisterFirstFailure(reqs[1..], answers[1..], draw + 1, k - 1);
      var n := if answers[k] == SerializeFailed then k else k + 1;
      assert reqs[..n][1..] == reqs[1..][..n - 1];
      SentForCons(reqs[..n], draw);
    }
  }

  /** Registration succeeds only when every exchange was acknowledged. */
  lemma {:induction false} RegisteredOnlyIfAllAcked(reqs: seq<RegisterRequest>, answers: seq<RegAnswer>, draw: nat)
    requires RegisterSpec(reqs, answers, draw).outcome == Registered
    ensures |reqs| <= |answers| && AllAcked(answers[..|reqs|])
  {
    if reqs != [] {
      assert answers != [] && answers[0] == Acked;
      assert RegisterSpec(reqs[1..], answers[1..], draw + 1).outcome == Registered;
      RegisteredOnlyIfAllAcked(reqs[1..], answers[1..], draw + 1);
      var pre := answers[..|reqs|];
      assert pre == [answers[0]] + answers[1..][..|reqs| - 1];
      forall i | 0 <= i < |pre| ensures pre[i] == Acked {
        if i > 0 {
          assert pre[i] == answers[1..][..|reqs| - 1][i - 1];
        }
      }
    }
  }

  /** The requests carried by some outputs, in order. */
  function RequestsOf(out: seq<Output>): seq<RegisterRequest>
  {
    if out == [] then []
    else (if out[0].RegisterReq? then [out[0].request] else []) + RequestsOf(out[1..])
  }

  lemma {:induction false} RequestsOfSentFor(reqs: seq<RegisterRequest>, draw: nat)
    ensures RequestsOf(SentFor(reqs, draw)) == reqs
    decreases |reqs|
  {
    if reqs != [] {
      SentForCons(reqs, draw);
      RequestsOfSentFor(reqs[1..], draw + 1);
      assert SentFor(reqs, draw)[1..] == SentFor(reqs[1..], draw + 1);
    } else {
      assert SentFor(reqs, draw) == [];
    }
  }

  /** A successful registration has sent a request for every pair, in
      order, and nothing else. */
  lemma {:induction false} RegisteredSentAll(reqs: seq<RegisterRequest>, answers: seq<RegAnswer>, draw: nat)
    requires RegisterSpec(reqs, answers, draw).outcome == Registered
    ensures RequestsOf(RegisterSpec(reqs, answers, draw).sent) == reqs
    ensures |RegisterSpec(reqs, answers, draw).sent| == |reqs|
  {
    RegisteredOnlyIfAllAcked(reqs, answers, draw);
    RegisterAllAcked(reqs, answers, draw);
    RequestsOfSentFor(reqs, draw);
  }
}
