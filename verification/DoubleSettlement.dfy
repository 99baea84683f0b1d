/** Requests on a challenge that overlap: it can settle as often as requests on it can still pass their
    checks, because the marking UPDATE does not test the status. */
module DoubleSettlement {
  import opened Wrappers
  import opened Marketplace
  import opened ArtworkId
  import opened X402
  import opened PaymentStore
  import opened PaymentRuns
  import opened SingleSettlement
  import Clock

  /** Requests on the nonce that are past the checks: nothing can stop them settling it. */
  ghost function Ready(s: Sys, nonce: string): set<nat> {
    set i | i in s.requests && OnNonce(s.requests[i], nonce) && !s.requests[i].Loaded?
  }

  /** The proof checks against this challenge on the chain as it is. */
  ghost predicate Checks(chain: Chain, c: Challenge, wallet: Bytes, txId: TxId, listing: seq<IndexedTxn>) {
    && (InLog(chain.log, txId) ==> Lists(chain.log, txId.group, listing))
    && VerdictNow(chain, c, wallet, txId, listing).Verified?
  }

  ghost predicate Provable(chain: Chain, c: Challenge) {
    exists wallet, txId, listing :: Checks(chain, c, wallet, txId, listing)
  }

  /** Requests on the nonce that can still settle it: past the checks, or with a challenge that some
      proof checks against. */
  ghost function Able(s: Sys, nonce: string): set<nat> {
    set i | i in s.requests && OnNonce(s.requests[i], nonce) && (s.requests[i].Loaded? ==> Provable(s.chain, s.requests[i].challenge))
  }

  /** A new request can load the challenge at `now` and some proof checks against it. */
  ghost predicate Open(s: Sys, nonce: string, now: string) {
    && nonce in s.db.challenges && CheckChallenge(Some(s.db.challenges[nonce]), now) == None
    && Provable(s.chain, s.db.challenges[nonce])
  }

  /** Every step from `now` on that leaves the chain as it is and does not create the nonce's row. */
  predicate Continues(step: Step, nonce: string, now: string) {
    && !step.Commit?
    && (step.Issue? ==> step.nonce != nonce)
    && (step.Load? ==> !Clock.TextLess(step.now, now))
  }

  predicate StartsOn(step: Step, nonce: string) {
    step.Load? && step.nonce == nonce
  }

  ghost predicate Continuation(steps: seq<Step>, nonce: string, now: string) {
    forall k :: 0 <= k < |steps| ==> Continues(steps[k], nonce, now)
  }

  /** And no further request on the nonce starts. */
  ghost predicate NoneStarts(steps: seq<Step>, nonce: string) {
    forall k :: 0 <= k < |steps| ==> !StartsOn(steps[k], nonce)
  }

  // ------------------------------------------------------------ no more events than able requests

  function Count(s: Sys, nonce: string): nat {
    Transfers(s.db.events, nonce)
  }

  lemma {:induction false} FewerOf(a: set<nat>, b: set<nat>)
    requires a <= b
    ensures |a| <= |b|
  {
    if a != {} {
      var x :| x in a;
      FewerOf(a - {x}, b - {x});
    }
  }

  /** Requests on the nonce in `s'` were able in `s`, or are unable. */
  lemma NoMoreAble(s: Sys, s': Sys, nonce: string)
    requires Able(s', nonce) <= Able(s, nonce) && Count(s', nonce) == Count(s, nonce)
    ensures Count(s', nonce) + |Able(s', nonce)| <= Count(s, nonce) + |Able(s, nonce)|
  {
    FewerOf(Able(s', nonce), Able(s, nonce));
  }

  lemma SameRequests(s: Sys, s': Sys, nonce: string)
    requires s'.chain == s.chain
    requires forall i :: i in s'.requests && OnNonce(s'.requests[i], nonce) ==> i in s.requests && s.requests[i] == s'.requests[i]
    ensures Able(s', nonce) <= Able(s, nonce)
  {
  }

  lemma LoadBound(s: Sys, step: Step, nonce: string, now: string)
    requires step.Load? && Continues(step, nonce, now) && (StartsOn(step, nonce) ==> !Open(s, nonce, now))
    ensures Able(Apply(s, step), nonce) <= Able(s, nonce)
  {
    var s' := Apply(s, step);
    if step.nonce != nonce || s' == s {
      SameRequests(s, s', nonce);
    } else {
      var c := s.db.challenges[nonce];
      if Clock.IsExpired(c.expiresAt, now) {
        Clock.TextLessTransitive(c.expiresAt, now, step.now);
      }
      assert !Provable(s.chain, c);
    }
  }

  lemma CheckBound(s: Sys, step: Step, nonce: string)
    requires step.Check?
    ensures Able(Apply(s, step), nonce) <= Able(s, nonce)
  {
    var s', i := Apply(s, step), step.request;
    if i in s.requests && s.requests[i].Loaded? && s' != s {
      var c := s.requests[i].challenge;
      var v := VerdictNow(s.chain, c, step.wallet, step.txId, step.listing);
      assert v.Verified? ==> Checks(s.chain, c, step.wallet, step.txId, step.listing);
      VerdictBound(s, i, step.wallet, step.txId, v, nonce);
      VerdictStep(s, step);
    }
  }

  lemma VerdictBound(s: Sys, i: nat, wallet: Bytes, txId: TxId, v: Verdict, nonce: string)
    requires i in s.requests && s.requests[i].Loaded? && (v.Verified? ==> Provable(s.chain, s.requests[i].challenge))
    ensures Able(s.(requests := AfterVerdict(s.requests, i, wallet, txId, v)), nonce) <= Able(s, nonce)
  {
  }

  lemma MarkBound(s: Sys, i: nat, nonce: string, now: string)
    ensures var s' := Apply(s, Mark(i));
            && Able(s', nonce) == Able(s, nonce) && Count(s', nonce) == Count(s, nonce)
            && (Open(s', nonce, now) ==> Open(s, nonce, now))
  {
    if i in s.requests && s.requests[i].Checked? {
      var s', r := Apply(s, Mark(i)), s.requests[i];
      StillPastChecks(s, s', i, nonce);
      assert r.nonce != nonce ==> ChallengeOf(s'.db, nonce) == ChallengeOf(s.db, nonce);
    }
  }

  lemma StillPastChecks(s: Sys, s': Sys, i: nat, nonce: string)
    requires s'.chain == s.chain && i in s.requests && s.requests[i].Checked?
    requires var r := s.requests[i]; s'.requests == s.requests[i := Marked(r.nonce, r.challenge, r.settlement, r.paymentId)]
    ensures Able(s', nonce) == Able(s, nonce) && Ready(s', nonce) == Ready(s, nonce)
  {
  }

  lemma PersistBound(s: Sys, i: nat, at: string, nonce: string)
    ensures var s' := Apply(s, Persist(i, at));
            Count(s', nonce) + |Able(s', nonce)| <= Count(s, nonce) + |Able(s, nonce)|
  {
    if i in s.requests && s.requests[i].Marked? {
      var s' := Apply(s, Persist(i, at));
      PersistCount(s, i, at, nonce);
      SameRequests(s, s', nonce);
      if i in Ready(s, nonce) {
        assert i in Able(s, nonce) && Able(s', nonce) <= Able(s, nonce) - {i};
        FewerOf(Able(s', nonce), Able(s, nonce) - {i});
      } else {
        NoMoreAble(s, s', nonce);
      }
    }
  }

  lemma RecordCount(s: Sys, i: nat, razorpayId: string, at: string, nonce: string)
    ensures Count(Apply(s, Record(i, razorpayId, at)), nonce) == Count(s, nonce)
  {
    if i in s.requests && s.requests[i].Fetched? {
      var r := s.requests[i];
      TransfersAppend(s.db.events, Recorded(r.artworkId, at, r.orderId, razorpayId), nonce);
    }
  }

  lemma OtherBound(s: Sys, step: Step, nonce: string, now: string)
    requires Continues(step, nonce, now) && !step.Load? && !step.Check? && !step.Mark? && !step.Persist?
    ensures var s' := Apply(s, step);
            && s'.chain == s.chain && ChallengeOf(s'.db, nonce) == ChallengeOf(s.db, nonce)
            && Count(s', nonce) == Count(s, nonce) && Able(s', nonce) <= Able(s, nonce)
  {
    if step.Record? {
      RecordCount(s, step.request, step.razorpayId, step.now, nonce);
    }
    SameRequests(s, Apply(s, step), nonce);
  }

  lemma StepBound(s: Sys, step: Step, nonce: string, now: string)
    requires Continues(step, nonce, now) && (StartsOn(step, nonce) ==> !Open(s, nonce, now))
    ensures var s' := Apply(s, step);
            && Count(s', nonce) + |Able(s', nonce)| <= Count(s, nonce) + |Able(s, nonce)|
            && (Open(s', nonce, now) ==> Open(s, nonce, now))
  {
    var s' := Apply(s, step);
    match step
    case Load(_, _, _) =>
      LoadBound(s, step, nonce, now);
      NoMoreAble(s, s', nonce);
    case Check(_, _, _, _) =>
      CheckBound(s, step, nonce);
      NoMoreAble(s, s', nonce);
    case Mark(i) =>
      MarkBound(s, i, nonce, now);
      NoMoreAble(s, s', nonce);
    case Persist(i, at) => PersistBound(s, i, at, nonce);
    case _ =>
      OtherBound(s, step, nonce, now);
      NoMoreAble(s, s', nonce);
  }

  lemma {:induction false} RunBound(s: Sys, steps: seq<Step>, nonce: string, now: string)
    requires Continuation(steps, nonce, now) && (NoneStarts(steps, nonce) || !Open(s, nonce, now))
    ensures Count(Run(s, steps), nonce) <= Count(s, nonce) + |Able(s, nonce)|
    decreases |steps|
  {
    if steps != [] {
      StepBound(s, steps[0], nonce, now);
      RunBound(Apply(s, steps[0]), steps[1..], nonce, now);
    }
  }

  // ------------------------------------------------------------ as many events as able requests

  lemma PersistCount(s: Sys, i: nat, now: string, nonce: string)
    requires i in s.requests && s.requests[i].Marked?
    ensures var s' := Apply(s, Persist(i, now));
            && Ready(s', nonce) == Ready(s, nonce) - {i}
            && Transfers(s'.db.events, nonce) == Transfers(s.db.events, nonce) + (if i in Ready(s, nonce) then 1 else 0)
  {
    var s', r := Apply(s, Persist(i, now)), s.requests[i];
    var e := Transferred(r.challenge.artworkId, now, r.nonce, r.settlement, r.paymentId);
    ReadyWithout(s, s', i, nonce);
    TransfersAppend(s.db.events, e, nonce);
  }

  lemma ReadyWithout(s: Sys, s': Sys, i: nat, nonce: string)
    requires s'.requests == s.requests - {i}
    ensures Ready(s', nonce) == Ready(s, nonce) - {i}
  {
    forall j ensures j in Ready(s', nonce) <==> j in Ready(s, nonce) && j != i {
    }
  }

  /** Mark and persist one ready request. */
  lemma CompleteOne(s: Sys, i: nat, nonce: string) returns (s': Sys)
    requires i in Ready(s, nonce)
    ensures s' == Apply(Apply(s, Mark(i)), Persist(i, ""))
    ensures Transfers(s'.db.events, nonce) == Transfers(s.db.events, nonce) + 1
    ensures Ready(s', nonce) == Ready(s, nonce) - {i}
  {
    var m := Apply(s, Mark(i));
    s' := Apply(m, Persist(i, ""));
    assert Ready(m, nonce) == Ready(s, nonce);
    PersistCount(m, i, "", nonce);
  }

  lemma {:induction false} CompleteAll(s: Sys, nonce: string, now: string, ready: set<nat>) returns (steps: seq<Step>)
    requires ready == Ready(s, nonce)
    ensures Continuation(steps, nonce, now) && NoneStarts(steps, nonce)
    ensures Count(Run(s, steps), nonce) == Count(s, nonce) + |ready|
    decreases |ready|
  {
    if ready == {} {
      steps := [];
    } else {
      var i :| i in ready;
      var s' := CompleteOne(s, i, nonce);
      var rest := CompleteAll(s', nonce, now, ready - {i});
      RunOfTwo(s, Mark(i), Persist(i, ""), rest);
      steps := [Mark(i), Persist(i, "")] + rest;
    }
  }

  lemma RunOfOne(s: Sys, a: Step, rest: seq<Step>)
    ensures Run(s, [a] + rest) == Run(Apply(s, a), rest)
  {
    assert ([a] + rest)[1..] == rest;
  }

  lemma RunOfTwo(s: Sys, a: Step, b: Step, rest: seq<Step>)
    ensures Run(s, [a, b] + rest) == Run(Apply(Apply(s, a), b), rest)
  {
    var steps := [a, b] + rest;
    assert steps[1..] == [b] + rest && steps[1..][1..] == rest;
    assert Run(s, steps) == Run(Apply(s, a), steps[1..]);
  }

  lemma LoadOne(s: Sys, i: nat, nonce: string, now: string)
    requires i !in s.requests && nonce in s.db.challenges && CheckChallenge(Some(s.db.challenges[nonce]), now) == None
    ensures Apply(s, Load(i, nonce, now)) == s.(requests := s.requests[i := Loaded(nonce, s.db.challenges[nonce])])
  {
  }

  lemma VerifiedIsReady(s: Sys, s': Sys, i: nat, nonce: string, wallet: Bytes, txId: TxId, v: Verdict)
    requires i in s.requests && s.requests[i].Loaded? && s.requests[i].nonce == nonce && v.Verified?
    requires s' == s.(requests := AfterVerdict(s.requests, i, wallet, txId, v))
    ensures i in Ready(s', nonce) && s'.requests == s.requests[i := s'.requests[i]]
  {
  }

  lemma CheckOne(s: Sys, i: nat, nonce: string, c: Challenge, wallet: Bytes, txId: TxId, listing: seq<IndexedTxn>)
    requires i in s.requests && s.requests[i] == Loaded(nonce, c)
    requires InLog(s.chain.log, txId) ==> Lists(s.chain.log, txId.group, listing)
    requires VerdictNow(s.chain, c, wallet, txId, listing).Verified?
    ensures var s' := Apply(s, Check(i, wallet, txId, listing));
            && s'.chain == s.chain && i in Ready(s', nonce)
            && s'.requests == s.requests[i := s'.requests[i]]
  {
    var s' := Apply(s, Check(i, wallet, txId, listing));
    var v := VerdictNow(s.chain, c, wallet, txId, listing);
    VerdictStep(s, Check(i, wallet, txId, listing));
    VerifiedIsReady(s, s', i, nonce, wallet, txId, v);
  }

  lemma {:induction false} RunAppend(s: Sys, a: seq<Step>, b: seq<Step>)
    ensures Run(s, a + b) == Run(Run(s, a), b)
    decreases |a|
  {
    if a == [] {
      assert a + b == b;
    } else {
      assert (a + b)[1..] == a[1..] + b;
      RunAppend(Apply(s, a[0]), a[1..], b);
    }
  }

  /** Let one able request that only loaded pass its checks. */
  lemma CheckAble(s: Sys, i: nat, nonce: string) returns (step: Step, s': Sys)
    requires i in Able(s, nonce) - Ready(s, nonce)
    ensures step.Check? && s' == Apply(s, step)
    ensures Ready(s', nonce) == Ready(s, nonce) + {i} && Able(s', nonce) == Able(s, nonce) && Count(s', nonce) == Count(s, nonce)
  {
    var c := s.requests[i].challenge;
    var wallet, txId, listing :| Checks(s.chain, c, wallet, txId, listing);
    step := Check(i, wallet, txId, listing);
    s' := Apply(s, step);
    CheckOne(s, i, nonce, c, wallet, txId, listing);
    OneMoreReady(s, s', i, nonce);
  }

  lemma OneMoreReady(s: Sys, s': Sys, i: nat, nonce: string)
    requires s'.chain == s.chain && i in Ready(s', nonce) && i in Able(s, nonce)
    requires s'.requests == s.requests[i := s'.requests[i]]
    ensures Ready(s', nonce) == Ready(s, nonce) + {i} && Able(s', nonce) == Able(s, nonce)
  {
  }

  lemma AllReady(s: Sys, nonce: string)
    requires Able(s, nonce) - Ready(s, nonce) == {}
    ensures Ready(s, nonce) == Able(s, nonce)
  {
    forall i
      ensures i in Ready(s, nonce) <==> i in Able(s, nonce)
    {
      assert i !in Able(s, nonce) - Ready(s, nonce);
    }
  }

  lemma OneLess(a: set<nat>, b: set<nat>, i: nat)
    ensures a - (b + {i}) == a - b - {i}
  {
  }

  lemma StepThen(step: Step, rest: seq<Step>, nonce: string, now: string)
    requires step.Check? && Continuation(rest, nonce, now) && NoneStarts(rest, nonce)
    ensures Continuation([step] + rest, nonce, now) && NoneStarts([step] + rest, nonce)
  {
  }

  lemma {:induction false} CheckAll(s: Sys, nonce: string, now: string, left: set<nat>) returns (steps: seq<Step>, end: Sys)
    requires left == Able(s, nonce) - Ready(s, nonce)
    ensures Continuation(steps, nonce, now) && NoneStarts(steps, nonce) && end == Run(s, steps)
    ensures Ready(end, nonce) == Able(s, nonce) && Count(end, nonce) == Count(s, nonce)
    decreases |left|
  {
    if left == {} {
      steps, end := [], s;
      AllReady(s, nonce);
    } else {
      var i :| i in left;
      var step, s' := CheckAble(s, i, nonce);
      OneLess(Able(s, nonce), Ready(s, nonce), i);
      var rest;
      rest, end := CheckAll(s', nonce, now, left - {i});
      steps := [step] + rest;
      StepThen(step, rest, nonce, now);
      RunOfOne(s, step, rest);
    }
  }

  /** Every able request can settle, without starting another one. */
  lemma SettleAll(s: Sys, nonce: string, now: string) returns (steps: seq<Step>)
    ensures Continuation(steps, nonce, now) && NoneStarts(steps, nonce)
    ensures Count(Run(s, steps), nonce) == Count(s, nonce) + |Able(s, nonce)|
  {
    var checks, m := CheckAll(s, nonce, now, Able(s, nonce) - Ready(s, nonce));
    var rest := CompleteAll(m, nonce, now, Ready(m, nonce));
    steps := checks + rest;
    RunAppend(s, checks, rest);
  }

  /** Request numbers that are not in use. */
  lemma {:induction false} Above(a: set<nat>) returns (n: nat)
    ensures forall x :: x in a ==> x < n
  {
    if a == {} {
      n := 0;
    } else {
      var x :| x in a;
      var m := Above(a - {x});
      n := if x < m then m else x + 1;
      assert forall y :: y in a ==> y == x || y in a - {x};
    }
  }

  /** Two requests that load an open challenge. */
  lemma LoadTwo(s: Sys, nonce: string, now: string) returns (steps: seq<Step>)
    requires Open(s, nonce, now)
    ensures Continuation(steps, nonce, now)
    ensures Count(Run(s, steps), nonce) == Count(s, nonce) && |Able(Run(s, steps), nonce)| >= 2
  {
    var i := Above(s.requests.Keys);
    var j := i + 1;
    assert i !in s.requests.Keys && j !in s.requests.Keys;
    var s1 := Apply(s, Load(i, nonce, now));
    LoadOne(s, i, nonce, now);
    var s2 := Apply(s1, Load(j, nonce, now));
    LoadOne(s1, j, nonce, now);
    steps := [Load(i, nonce, now), Load(j, nonce, now)];
    assert steps[1..] == [Load(j, nonce, now)] && steps[1..][1..] == [];
    assert Run(s, steps) == Run(s1, steps[1..]) == Run(s2, []);
    Clock.TextNotLessItself(now);
    assert {i, j} <= Able(s2, nonce);
    FewerOf({i, j}, Able(s2, nonce));
  }

  /** If no further request on the nonce starts, its events can become two or more exactly when its
      events and its able requests are two or more already. */
  lemma SecondEventWithoutStarts(s: Sys, nonce: string, now: string)
    ensures (exists steps: seq<Step> ::
               Continuation(steps, nonce, now) && NoneStarts(steps, nonce) && Count(Run(s, steps), nonce) >= 2)
       <==> Count(s, nonce) + |Able(s, nonce)| >= 2
  {
    if steps: seq<Step> :| Continuation(steps, nonce, now) && NoneStarts(steps, nonce) && Count(Run(s, steps), nonce) >= 2 {
      RunBound(s, steps, nonce, now);
    }
    if Count(s, nonce) + |Able(s, nonce)| >= 2 {
      var steps := SettleAll(s, nonce, now);
    }
  }

  /** And if they may start: exactly then, or when the challenge is pending and unexpired and some proof
      checks against it. Every step counts that does not commit a group. */
  lemma DoubleSettlementExactly(s: Sys, nonce: string, now: string)
    ensures (exists steps: seq<Step> :: Continuation(steps, nonce, now) && Count(Run(s, steps), nonce) >= 2)
       <==> Count(s, nonce) + |Able(s, nonce)| >= 2 || Open(s, nonce, now)
  {
    if steps: seq<Step> :| Continuation(steps, nonce, now) && Count(Run(s, steps), nonce) >= 2 {
      if !Open(s, nonce, now) {
        RunBound(s, steps, nonce, now);
      }
    }
    if Count(s, nonce) + |Able(s, nonce)| >= 2 {
      SecondEventWithoutStarts(s, nonce, now);
    } else if Open(s, nonce, now) {
      var loads := LoadTwo(s, nonce, now);
      var m := Run(s, loads);
      var rest := SettleAll(m, nonce, now);
      RunAppend(s, loads, rest);
      assert Continuation(loads + rest, nonce, now);
    }
  }

  // ------------------------------------------------------------ the condition on reachable states

  ghost function OnIt(s: Sys, nonce: string): set<nat> {
    set i | i in s.requests && OnNonce(s.requests[i], nonce)
  }

  lemma ProvableIgnoresStatus(chain: Chain, c: Challenge, c': Challenge)
    requires c.(settled := None) == c'.(settled := None) && Provable(chain, c)
    ensures Provable(chain, c')
  {
    var wallet, txId, listing :| Checks(chain, c, wallet, txId, listing);
    assert VerdictNow(chain, c', wallet, txId, listing) == VerdictNow(chain, c, wallet, txId, listing);
    assert Checks(chain, c', wallet, txId, listing);
  }

  /** In every reachable state all requests on the nonce loaded what its row says, so the condition is
      about the row: a second event can be reached exactly when events and requests past the checks are
      two or more, or some proof checks against the row and either events and all requests are two or
      more or the row is pending and unexpired. */
  lemma SecondEventReachable(appId: nat, deployer: Bytes, history: seq<Step>, nonce: string, now: string)
    requires nonce in Run(Init(appId, deployer), history).db.challenges
    ensures var s := Run(Init(appId, deployer), history);
            var row, n := s.db.challenges[nonce], Count(s, nonce);
            (exists steps: seq<Step> :: Continuation(steps, nonce, now) && Count(Run(s, steps), nonce) >= 2)
            <==> || n + |Ready(s, nonce)| >= 2
                 || (Provable(s.chain, row) && (n + |OnIt(s, nonce)| >= 2 || CheckChallenge(Some(row), now) == None))
  {
    InitOk(appId, deployer);
    RunKeepsOk(Init(appId, deployer), history);
    var s := Run(Init(appId, deployer), history);
    AbleOnReachable(s, nonce);
    DoubleSettlementExactly(s, nonce, now);
    FewerOf(Ready(s, nonce), OnIt(s, nonce));
  }

  lemma AbleOnReachable(s: Sys, nonce: string)
    requires RequestsOk(s) && nonce in s.db.challenges
    ensures Able(s, nonce) == if Provable(s.chain, s.db.challenges[nonce]) then OnIt(s, nonce) else Ready(s, nonce)
    ensures Ready(s, nonce) <= OnIt(s, nonce)
  {
    var row := s.db.challenges[nonce];
    forall i | i in OnIt(s, nonce)
      ensures Provable(s.chain, s.requests[i].challenge) <==> Provable(s.chain, row)
    {
      var c := s.requests[i].challenge;
      assert RequestOk(s.db, s.requests[i]) && c == row.(settled := None);
      if Provable(s.chain, c) {
        ProvableIgnoresStatus(s.chain, c, row);
      }
      if Provable(s.chain, row) {
        ProvableIgnoresStatus(s.chain, row, c);
      }
    }
  }

  /** What "some proof checks" means: a committed, readable acquire of the artwork by its owner of now, in a
      group that pays the challenge's receiver its amount. */
  lemma ProvableExactly(chain: Chain, c: Challenge)
    requires ChainOk(chain) && c.appId == chain.appId
    ensures Provable(chain, c) <==> exists wallet, txId :: Proves(chain, c, wallet, txId)
  {
    if Provable(chain, c) {
      var wallet, txId, listing :| Checks(chain, c, wallet, txId, listing);
      VerifiedExactly(chain, c, wallet, txId, listing);
      assert Proves(chain, c, wallet, txId);
    }
    if wallet, txId :| Proves(chain, c, wallet, txId) {
      var listing := WholeGroup(chain.log, txId.group);
      VerifiedExactly(chain, c, wallet, txId, listing);
      assert Checks(chain, c, wallet, txId, listing);
    }
  }

  ghost predicate Proves(chain: Chain, c: Challenge, wallet: Bytes, txId: TxId) {
    && Acquired(chain.log, chain.appId, txId, wallet, c.artworkId)
    && HoldsPayment(chain.log, txId.group, wallet, c.receiver, c.amount)
    && Owns(chain.market, c.artworkId, wallet)
  }

  /** A run that gets there: any pending challenge whose proof verifies can be settled
      twice by two requests that both load it before either marks it. */
  lemma OverlapSettlesTwice(s: Sys, nonce: string, now: string, wallet: Bytes, txId: TxId, listing: seq<IndexedTxn>, i: nat, j: nat)
    requires i != j && i !in s.requests && j !in s.requests
    requires nonce in s.db.challenges && CheckChallenge(Some(s.db.challenges[nonce]), now) == None
    requires InLog(s.chain.log, txId) ==> Lists(s.chain.log, txId.group, listing)
    requires VerdictNow(s.chain, s.db.challenges[nonce], wallet, txId, listing).Verified?
    ensures var s' := Run(s, [Load(i, nonce, now), Load(j, nonce, now), Check(i, wallet, txId, listing), Check(j, wallet, txId, listing)]);
            exists steps: seq<Step> ::
              Continuation(steps, nonce, now) && NoneStarts(steps, nonce) && Count(Run(s', steps), nonce) >= 2
  {
    var s1 := Apply(s, Load(i, nonce, now));
    var s2 := Apply(s1, Load(j, nonce, now));
    var s3 := Apply(s2, Check(i, wallet, txId, listing));
    var s4 := Apply(s3, Check(j, wallet, txId, listing));
    LoadOne(s, i, nonce, now);
    LoadOne(s1, j, nonce, now);
    CheckOne(s2, i, nonce, s.db.challenges[nonce], wallet, txId, listing);
    CheckOne(s3, j, nonce, s.db.challenges[nonce], wallet, txId, listing);
    RunOfFour(s, Load(i, nonce, now), Load(j, nonce, now), Check(i, wallet, txId, listing), Check(j, wallet, txId, listing));
    assert i in Ready(s3, nonce) && s4.requests[i] == s3.requests[i];
    assert {i, j} <= Able(s4, nonce);
    FewerOf({i, j}, Able(s4, nonce));
    SecondEventWithoutStarts(s4, nonce, now);
  }
}
