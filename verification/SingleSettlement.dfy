/** Requests on a challenge that do not overlap settle it at most once. */
module SingleSettlement {
  import opened Wrappers
  import opened Marketplace
  import opened X402
  import opened PaymentStore
  import opened PaymentRuns

  predicate OnNonce(r: Request, nonce: string) {
    !r.Fetched? && r.nonce == nonce
  }

  function Transfers(events: seq<Event>, nonce: string): nat {
    if events == [] then 0
    else
      var e := events[|events| - 1];
      Transfers(events[..|events| - 1], nonce) + (if e.Transferred? && e.nonce == nonce then 1 else 0)
  }

  function Marks(marks: seq<string>, nonce: string): nat {
    if marks == [] then 0
    else Marks(marks[..|marks| - 1], nonce) + (if marks[|marks| - 1] == nonce then 1 else 0)
  }

  lemma TransfersAppend(events: seq<Event>, e: Event, nonce: string)
    ensures Transfers(events + [e], nonce) == Transfers(events, nonce) + (if e.Transferred? && e.nonce == nonce then 1 else 0)
  {
    assert (events + [e])[..|events|] == events;
  }

  lemma MarksAppend(marks: seq<string>, m: string, nonce: string)
    ensures Marks(marks + [m], nonce) == Marks(marks, nonce) + (if m == nonce then 1 else 0)
  {
    assert (marks + [m])[..|marks|] == marks;
  }

  // ------------------------------------------------------------ requests that do not overlap

  /** A request on a nonce starts only when no other one on it is running. */
  ghost predicate SerialStep(s: Sys, step: Step) {
    step.Load? ==> forall i :: i in s.requests ==> !OnNonce(s.requests[i], step.nonce)
  }

  ghost predicate SerialRun(s: Sys, steps: seq<Step>)
    decreases |steps|
  {
    steps == [] || (SerialStep(s, steps[0]) && SerialRun(Apply(s, steps[0]), steps[1..]))
  }

  ghost predicate RequestFits(s: Sys, nonce: string, r: Request)
    requires nonce in s.db.challenges
  {
    var settled := s.db.challenges[nonce].settled;
    if r.Marked? then settled == Some(r.settlement) && Transfers(s.db.events, nonce) == 0
    else settled == None
  }

  ghost predicate OneRequest(s: Sys, nonce: string) {
    forall i, j :: i in s.requests && j in s.requests && OnNonce(s.requests[i], nonce) && OnNonce(s.requests[j], nonce) ==> i == j
  }

  function ChallengeOf(db: Db, nonce: string): Option<Challenge> {
    if nonce in db.challenges then Some(db.challenges[nonce]) else None
  }

  /** Every on-chain event of the nonce is the settlement in its row. */
  ghost predicate EventsAgree(db: Db, nonce: string) {
    forall k :: 0 <= k < |db.events| && db.events[k].Transferred? && db.events[k].nonce == nonce ==>
      nonce in db.challenges && db.challenges[nonce].settled == Some(db.events[k].settlement)
  }

  ghost predicate RequestsFit(s: Sys, nonce: string) {
    forall i :: i in s.requests && OnNonce(s.requests[i], nonce) ==>
      nonce in s.db.challenges && RequestFits(s, nonce, s.requests[i])
  }

  ghost predicate CountsOk(s: Sys, nonce: string) {
    var n, m := Transfers(s.db.events, nonce), Marks(s.marks, nonce);
    n <= m <= 1 && (m == 0 <==> (nonce in s.db.challenges ==> s.db.challenges[nonce].settled == None))
  }

  /** The state of one challenge in a serial run. */
  ghost predicate NonceOk(s: Sys, nonce: string) {
    OneRequest(s, nonce) && CountsOk(s, nonce) && RequestsFit(s, nonce) && EventsAgree(s.db, nonce)
  }

  /** Steps of others: same challenge, events and marks, and no request on the nonce but old ones. */
  lemma Frame(s: Sys, s': Sys, nonce: string)
    requires NonceOk(s, nonce)
    requires ChallengeOf(s'.db, nonce) == ChallengeOf(s.db, nonce)
    requires s'.db.events == s.db.events && s'.marks == s.marks
    requires forall i :: i in s'.requests && OnNonce(s'.requests[i], nonce) ==> i in s.requests && s.requests[i] == s'.requests[i]
    ensures NonceOk(s', nonce)
  {
    forall i | i in s'.requests && OnNonce(s'.requests[i], nonce)
      ensures nonce in s'.db.challenges && RequestFits(s', nonce, s'.requests[i])
    {
      assert RequestFits(s, nonce, s.requests[i]);
    }
  }

  lemma IssueStep(s: Sys, step: Step, nonce: string)
    requires NonceOk(s, nonce) && step.Issue?
    ensures NonceOk(Apply(s, step), nonce)
  {
    var s' := Apply(s, step);
    if step.nonce != nonce || s' == s {
      Frame(s, s', nonce);
    } else {
      assert nonce !in s.db.challenges;
    }
  }

  lemma LoadStep(s: Sys, step: Step, nonce: string)
    requires NonceOk(s, nonce) && SerialStep(s, step) && step.Load?
    ensures NonceOk(Apply(s, step), nonce)
  {
    var s' := Apply(s, step);
    if step.nonce != nonce || s' == s {
      Frame(s, s', nonce);
    }
  }

  lemma CheckStep(s: Sys, step: Step, nonce: string)
    requires NonceOk(s, nonce) && step.Check?
    ensures NonceOk(Apply(s, step), nonce)
  {
    var s', i := Apply(s, step), step.request;
    if s' == s || i !in s'.requests || !OnNonce(s'.requests[i], nonce) {
      Frame(s, s', nonce);
    } else {
      assert RequestFits(s, nonce, s.requests[i]);
    }
  }

  lemma MarkOwn(s: Sys, s': Sys, i: nat, nonce: string)
    requires NonceOk(s, nonce) && i in s.requests && s.requests[i].Checked? && s.requests[i].nonce == nonce
    requires nonce in s.db.challenges
    requires var r := s.requests[i];
             s' == Sys(s.chain, s.db.(challenges := s.db.challenges[nonce := s.db.challenges[nonce].(settled := Some(r.settlement))]),
                       s.requests[i := Marked(r.nonce, r.challenge, r.settlement, r.paymentId)], s.marks + [nonce])
    ensures NonceOk(s', nonce)
  {
    assert RequestFits(s, nonce, s.requests[i]);
    MarksAppend(s.marks, nonce, nonce);
    assert CountsOk(s', nonce);
    assert OneRequest(s', nonce);
    assert RequestsFit(s', nonce);
  }

  lemma MarkOther(s: Sys, s': Sys, other: string, nonce: string)
    requires NonceOk(s, nonce) && other != nonce && s'.marks == s.marks + [other]
    requires ChallengeOf(s'.db, nonce) == ChallengeOf(s.db, nonce) && s'.db.events == s.db.events
    requires forall i :: i in s'.requests && OnNonce(s'.requests[i], nonce) ==> i in s.requests && s.requests[i] == s'.requests[i]
    ensures NonceOk(s', nonce)
  {
    MarksAppend(s.marks, other, nonce);
    var t := s'.(marks := s.marks);
    Frame(s, t, nonce);
    assert CountsOk(s', nonce);
    forall i | i in s'.requests && OnNonce(s'.requests[i], nonce)
      ensures nonce in s'.db.challenges && RequestFits(s', nonce, s'.requests[i])
    {
      assert RequestFits(t, nonce, t.requests[i]);
    }
  }

  lemma MarkStep(s: Sys, i: nat, nonce: string)
    requires NonceOk(s, nonce)
    ensures NonceOk(Apply(s, Mark(i)), nonce)
  {
    if i in s.requests && s.requests[i].Checked? {
      var s', r := Apply(s, Mark(i)), s.requests[i];
      if r.nonce == nonce {
        MarkOwn(s, s', i, nonce);
      } else {
        MarkOther(s, s', r.nonce, nonce);
      }
    }
  }

  lemma PersistStep(s: Sys, i: nat, now: string, nonce: string)
    requires NonceOk(s, nonce)
    ensures NonceOk(Apply(s, Persist(i, now)), nonce)
  {
    if i in s.requests && s.requests[i].Marked? {
      var s', r := Apply(s, Persist(i, now)), s.requests[i];
      var e := Transferred(r.challenge.artworkId, now, r.nonce, r.settlement, r.paymentId);
      TransfersAppend(s.db.events, e, nonce);
      assert s'.db.events == s.db.events + [e];
      if r.nonce == nonce {
        assert RequestFits(s, nonce, r);
        assert forall j :: j in s'.requests ==> !OnNonce(s'.requests[j], nonce);
      } else {
        OtherEvent(s, s', e, nonce);
      }
    }
  }

  /** An event that is not about the nonce. */
  lemma OtherEvent(s: Sys, s': Sys, e: Event, nonce: string)
    requires NonceOk(s, nonce) && !(e.Transferred? && e.nonce == nonce)
    requires s'.db.challenges == s.db.challenges && s'.marks == s.marks
    requires s'.db.events == s.db.events + [e]
    requires forall i :: i in s'.requests ==> i in s.requests && s.requests[i] == s'.requests[i]
    ensures NonceOk(s', nonce)
  {
    TransfersAppend(s.db.events, e, nonce);
    forall i | i in s'.requests && OnNonce(s'.requests[i], nonce)
      ensures nonce in s'.db.challenges && RequestFits(s', nonce, s'.requests[i])
    {
      assert RequestFits(s, nonce, s.requests[i]);
    }
  }

  lemma RecordStep(s: Sys, i: nat, razorpayId: string, now: string, nonce: string)
    requires NonceOk(s, nonce)
    ensures NonceOk(Apply(s, Record(i, razorpayId, now)), nonce)
  {
    if i in s.requests && s.requests[i].Fetched? {
      var s', r := Apply(s, Record(i, razorpayId, now)), s.requests[i];
      OtherEvent(s, s', Recorded(r.artworkId, now, r.orderId, razorpayId), nonce);
    }
  }

  lemma SerialStepKeeps(s: Sys, step: Step, nonce: string)
    requires NonceOk(s, nonce) && SerialStep(s, step)
    ensures NonceOk(Apply(s, step), nonce)
  {
    match step
    case Issue(_, _, _, _, _) => IssueStep(s, step, nonce);
    case Load(_, _, _) => LoadStep(s, step, nonce);
    case Check(_, _, _, _) => CheckStep(s, step, nonce);
    case Mark(i) => MarkStep(s, i, nonce);
    case Persist(i, now) => PersistStep(s, i, now, nonce);
    case Record(i, razorpayId, now) => RecordStep(s, i, razorpayId, now, nonce);
    case _ => Frame(s, Apply(s, step), nonce);
  }

  lemma {:induction false} SerialRunKeeps(s: Sys, steps: seq<Step>, nonce: string)
    requires NonceOk(s, nonce) && SerialRun(s, steps)
    ensures NonceOk(Run(s, steps), nonce)
    decreases |steps|
  {
    if steps != [] {
      SerialStepKeeps(s, steps[0], nonce);
      SerialRunKeeps(Apply(s, steps[0]), steps[1..], nonce);
    }
  }

  /** Without overlapping requests a challenge is marked at most once, has at most one on-chain event,
      and that event is the settlement stored in its row, wherever requests stop. */
  lemma SettlesAtMostOnce(appId: nat, deployer: Bytes, steps: seq<Step>, nonce: string)
    requires SerialRun(Init(appId, deployer), steps)
    ensures var s := Run(Init(appId, deployer), steps);
            && Transfers(s.db.events, nonce) <= Marks(s.marks, nonce) <= 1
            && (forall k :: 0 <= k < |s.db.events| && s.db.events[k].Transferred? && s.db.events[k].nonce == nonce ==>
                  nonce in s.db.challenges && s.db.challenges[nonce].settled == Some(s.db.events[k].settlement))
  {
    SerialRunKeeps(Init(appId, deployer), steps, nonce);
  }
}
