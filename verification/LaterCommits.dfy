/** A second settlement of a challenge when groups may still be committed: a commit can give every request
    on the challenge a proof, so all of them count. */
module LaterCommits {
  import opened Wrappers
  import opened Marketplace
  import opened ArtworkId
  import opened X402
  import opened PaymentStore
  import opened PaymentRuns
  import opened SingleSettlement
  import opened DoubleSettlement
  import Clock
  import Numerals
  import PaymentUse

  /** The artwork is not registered yet, or has a price, and its id fits an ARC-4 string. The contract never
      takes an acquire of any other artwork that the backend can read. */
  predicate Sellable(chain: Chain, artworkId: int) {
    var key := CanonicalBytes(artworkId);
    |key| < 0x1_0000 && (key in chain.market.price ==> chain.market.price[key] > 0)
  }

  /** Every step of the system from `now` on. */
  predicate Later(step: Step, now: string) {
    step.Load? ==> !Clock.TextLess(step.now, now)
  }

  ghost predicate LaterRun(steps: seq<Step>, now: string) {
    forall k :: 0 <= k < |steps| ==> Later(steps[k], now)
  }

  /** Requests on the nonce that some later chain lets settle it. */
  ghost function Hopeful(s: Sys, nonce: string): set<nat>
    requires nonce in s.db.challenges
  {
    if Sellable(s.chain, s.db.challenges[nonce].artworkId) then OnIt(s, nonce) else Ready(s, nonce)
  }

  /** A request that starts at `now` can be let settle it, too. */
  ghost predicate CanStart(s: Sys, nonce: string, now: string)
    requires nonce in s.db.challenges
  {
    CheckChallenge(Some(s.db.challenges[nonce]), now) == None && Sellable(s.chain, s.db.challenges[nonce].artworkId)
  }

  ghost predicate Sound(s: Sys, nonce: string) {
    SysOk(s) && PaymentUse.Proved(s) && nonce in s.db.challenges
  }

  // ------------------------------------------------------------ no more events than hopeful requests

  lemma UnsellableIsNotProvable(chain: Chain, c: Challenge)
    requires ChainOk(chain) && c.appId == chain.appId && !Sellable(chain, c.artworkId)
    ensures !Provable(chain, c)
  {
    ProvableExactly(chain, c);
    if wallet, txId :| Proves(chain, c, wallet, txId) {
      TakenIsBacked(chain, txId);
      ReadableIsShort(chain.log[txId.group][txId.index].args[1]);
    }
  }

  lemma ReadableIsShort(arg: Bytes)
    requires Arc4Decode(arg).Some?
    ensures |ArtworkKey(arg)| < 0x1_0000
  {
  }

  /** A step changes a challenge row in its settlement columns only, and never back to pending. */
  lemma StepRow(s: Sys, step: Step, nonce: string)
    requires nonce in s.db.challenges
    ensures var db' := Apply(s, step).db;
            && nonce in db'.challenges && db'.challenges[nonce].(settled := None) == s.db.challenges[nonce].(settled := None)
            && (db'.challenges[nonce].settled == None ==> s.db.challenges[nonce].settled == None)
  {
  }

  /** What cannot be sold stays so. */
  lemma StepSale(s: Sys, step: Step, artworkId: int)
    requires SysOk(s) && Sellable(Apply(s, step).chain, artworkId)
    ensures Sellable(s.chain, artworkId)
  {
    if step.Commit? && HasSenders(step.group) {
      SubmitKeeps(s.chain, step.group);
    }
  }

  lemma FewerHopeful(s: Sys, s': Sys, nonce: string)
    requires nonce in s.db.challenges && nonce in s'.db.challenges
    requires s'.db.challenges[nonce].artworkId == s.db.challenges[nonce].artworkId
    requires Sellable(s'.chain, s.db.challenges[nonce].artworkId) ==> Sellable(s.chain, s.db.challenges[nonce].artworkId)
    requires OnIt(s', nonce) <= OnIt(s, nonce)
    requires Sellable(s.chain, s.db.challenges[nonce].artworkId) || Ready(s', nonce) <= Ready(s, nonce)
    ensures Hopeful(s', nonce) <= Hopeful(s, nonce)
  {
    assert Ready(s', nonce) <= OnIt(s', nonce);
  }

  lemma SameOnIt(s: Sys, s': Sys, nonce: string)
    requires forall i :: i in s'.requests && OnNonce(s'.requests[i], nonce) ==> i in s.requests && s.requests[i] == s'.requests[i]
    ensures OnIt(s', nonce) <= OnIt(s, nonce) && Ready(s', nonce) <= Ready(s, nonce)
  {
  }

  /** Only an artwork that can be sold lets a check go through. */
  lemma CheckHope(s: Sys, step: Step, nonce: string)
    requires Sound(s, nonce) && step.Check?
    ensures OnIt(Apply(s, step), nonce) <= OnIt(s, nonce)
    ensures Sellable(s.chain, s.db.challenges[nonce].artworkId) || Ready(Apply(s, step), nonce) <= Ready(s, nonce)
  {
    var i := step.request;
    if i in s.requests && s.requests[i].Loaded? {
      VerdictStep(s, step);
      if InLog(s.chain.log, step.txId) ==> Lists(s.chain.log, step.txId.group, step.listing) {
        var c := s.requests[i].challenge;
        var v := VerdictNow(s.chain, c, step.wallet, step.txId, step.listing);
        assert v.Verified? ==> Checks(s.chain, c, step.wallet, step.txId, step.listing);
        assert RequestOk(s.db, s.requests[i]);
        if s.requests[i].nonce == nonce && !Sellable(s.chain, c.artworkId) {
          UnsellableIsNotProvable(s.chain, c);
        }
        VerdictHope(s, i, step.wallet, step.txId, v, nonce);
      }
    }
  }

  lemma VerdictHope(s: Sys, i: nat, wallet: Bytes, txId: TxId, v: Verdict, nonce: string)
    requires i in s.requests && s.requests[i].Loaded?
    ensures var s' := s.(requests := AfterVerdict(s.requests, i, wallet, txId, v));
            OnIt(s', nonce) <= OnIt(s, nonce) && (s.requests[i].nonce != nonce || !v.Verified? ==> Ready(s', nonce) <= Ready(s, nonce))
  {
  }

  lemma LoadHope(s: Sys, step: Step, nonce: string, now: string)
    requires nonce in s.db.challenges && step.Load? && Later(step, now) && (StartsOn(step, nonce) ==> !CanStart(s, nonce, now))
    ensures Hopeful(Apply(s, step), nonce) <= Hopeful(s, nonce)
  {
    var s', row := Apply(s, step), s.db.challenges[nonce];
    if step.nonce != nonce || s' == s {
      SameOnIt(s, s', nonce);
      FewerHopeful(s, s', nonce);
    } else if Clock.IsExpired(row.expiresAt, now) {
      Clock.TextLessTransitive(row.expiresAt, now, step.now);
    } else {
      assert Ready(s', nonce) == Ready(s, nonce);
    }
  }

  lemma MarkHope(s: Sys, i: nat, nonce: string)
    ensures OnIt(Apply(s, Mark(i)), nonce) == OnIt(s, nonce) && Ready(Apply(s, Mark(i)), nonce) == Ready(s, nonce)
  {
  }

  lemma PersistHope(s: Sys, i: nat, at: string, nonce: string)
    requires nonce in s.db.challenges
    ensures var s' := Apply(s, Persist(i, at));
            && nonce in s'.db.challenges
            && Count(s', nonce) + |Hopeful(s', nonce)| <= Count(s, nonce) + |Hopeful(s, nonce)|
  {
    if i in s.requests && s.requests[i].Marked? {
      var s' := Apply(s, Persist(i, at));
      PersistCount(s, i, at, nonce);
      SameOnIt(s, s', nonce);
      FewerHopeful(s, s', nonce);
      if i in Ready(s, nonce) {
        assert i in Hopeful(s, nonce) && Hopeful(s', nonce) <= Hopeful(s, nonce) - {i};
        FewerOf(Hopeful(s', nonce), Hopeful(s, nonce) - {i});
      } else {
        FewerOf(Hopeful(s', nonce), Hopeful(s, nonce));
      }
    }
  }

  /** These steps start nothing on the nonce and write no event about it. */
  lemma OtherRequests(s: Sys, step: Step, nonce: string)
    requires !step.Load? && !step.Check? && !step.Mark? && !step.Persist?
    ensures var s' := Apply(s, step);
            && Count(s', nonce) == Count(s, nonce) && OnIt(s', nonce) <= OnIt(s, nonce) && Ready(s', nonce) <= Ready(s, nonce)
  {
    if step.Record? {
      RecordCount(s, step.request, step.razorpayId, step.now, nonce);
    }
    SameOnIt(s, Apply(s, step), nonce);
  }

  lemma OtherHope(s: Sys, step: Step, nonce: string)
    requires Sound(s, nonce) && !step.Load? && !step.Check? && !step.Mark? && !step.Persist?
    ensures var s' := Apply(s, step);
            && nonce in s'.db.challenges && Count(s', nonce) == Count(s, nonce) && Hopeful(s', nonce) <= Hopeful(s, nonce)
  {
    var s' := Apply(s, step);
    StepRow(s, step, nonce);
    OtherRequests(s, step, nonce);
    if Sellable(s'.chain, s.db.challenges[nonce].artworkId) {
      StepSale(s, step, s.db.challenges[nonce].artworkId);
    }
    FewerHopeful(s, s', nonce);
  }

  lemma StepHope(s: Sys, step: Step, nonce: string, now: string)
    requires Sound(s, nonce) && Later(step, now) && (StartsOn(step, nonce) ==> !CanStart(s, nonce, now))
    ensures Sound(Apply(s, step), nonce)
    ensures var s' := Apply(s, step);
            && Count(s', nonce) + |Hopeful(s', nonce)| <= Count(s, nonce) + |Hopeful(s, nonce)|
            && (CanStart(s', nonce, now) ==> CanStart(s, nonce, now))
  {
    var s' := Apply(s, step);
    PaymentRuns.StepKeeps(s, step);
    PaymentUse.StepProves(s, step);
    StepRow(s, step, nonce);
    if Sellable(s'.chain, s.db.challenges[nonce].artworkId) {
      StepSale(s, step, s.db.challenges[nonce].artworkId);
    }
    HopeShrinks(s, step, nonce, now);
  }

  lemma HopeShrinks(s: Sys, step: Step, nonce: string, now: string)
    requires Sound(s, nonce) && Later(step, now) && (StartsOn(step, nonce) ==> !CanStart(s, nonce, now))
    requires nonce in Apply(s, step).db.challenges
    ensures Count(Apply(s, step), nonce) + |Hopeful(Apply(s, step), nonce)| <= Count(s, nonce) + |Hopeful(s, nonce)|
  {
    match step {
      case Load(_, _, _) => LoadHope(s, step, nonce, now);
      case Check(_, _, _, _) => CheckingHope(s, step, nonce);
      case Mark(i) => MarkingHope(s, step, nonce);
      case Persist(i, at) => PersistHope(s, i, at, nonce);
      case _ => OtherHope(s, step, nonce);
    }
    if !step.Persist? {
      FewerOf(Hopeful(Apply(s, step), nonce), Hopeful(s, nonce));
    }
  }

  lemma CheckingHope(s: Sys, step: Step, nonce: string)
    requires Sound(s, nonce) && step.Check?
    ensures var s' := Apply(s, step);
            && nonce in s'.db.challenges && Count(s', nonce) == Count(s, nonce) && Hopeful(s', nonce) <= Hopeful(s, nonce)
  {
    CheckHope(s, step, nonce);
    FewerHopeful(s, Apply(s, step), nonce);
  }

  lemma MarkingHope(s: Sys, step: Step, nonce: string)
    requires Sound(s, nonce) && step.Mark?
    ensures var s' := Apply(s, step);
            && nonce in s'.db.challenges && Count(s', nonce) == Count(s, nonce) && Hopeful(s', nonce) <= Hopeful(s, nonce)
  {
    MarkHope(s, step.request, nonce);
    StepRow(s, step, nonce);
    FewerHopeful(s, Apply(s, step), nonce);
  }

  lemma {:induction false} RunHope(s: Sys, steps: seq<Step>, nonce: string, now: string)
    requires Sound(s, nonce) && LaterRun(steps, now) && (NoneStarts(steps, nonce) || !CanStart(s, nonce, now))
    ensures Count(Run(s, steps), nonce) <= Count(s, nonce) + |Hopeful(s, nonce)|
    decreases |steps|
  {
    if steps != [] {
      StepHope(s, steps[0], nonce, now);
      RunHope(Apply(s, steps[0]), steps[1..], nonce, now);
    }
  }

  // ------------------------------------------------------------ commits that give a challenge its proof

  const BUYER: Bytes := [0, 0, 0, 0, 0, 0, 0, 0, 0, 0, 0, 0, 0, 0, 0, 0, 0, 0, 0, 0, 0, 0, 0, 0, 0, 0, 0, 0, 0, 0, 0, 1]

  function Registration(appId: nat, key: Bytes, price: Bytes): Group
    requires |key| < 0x1_0000
  {
    [AppCall(BUYER, appId, [REGISTER, Arc4String(key), [0, 0], BUYER, price])]
  }

  /** Pays the challenge, then the contract, then acquires. */
  function Purchase(c: Chain, receiver: Bytes, amount: nat, key: Bytes): Group
    requires |key| < 0x1_0000 && key in c.market.price
  {
    [Payment(BUYER, receiver, amount), Payment(BUYER, c.market.treasury, c.market.price[key]),
     AppCall(BUYER, c.appId, [ACQUIRE, Arc4String(key)])]
  }

  lemma RegistrationIsTaken(c: Chain, key: Bytes, price: Bytes)
    requires ChainOk(c) && |key| < 0x1_0000 && key !in c.market.price && |price| == 8 && Numerals.Value(256, price) > 0
    ensures var c' := Submit(c, Registration(c.appId, key, price));
            c'.appId == c.appId && key in c'.market.price && c'.market.price[key] > 0
  {
    var group := Registration(c.appId, key, price);
    Arc4Inverse(Arc4String(key), key);
    assert ExecGroup(c.appId, c.market, group, 0) == Ok(c.market);
    assert IsRegister(c.appId, group[0]) && KeyOf(group[0]) == key;
    assert ExecGroup(c.appId, c.market, group, 1) == ExecTxn(c.appId, c.market, group, 0);
  }

  lemma PurchaseIsTaken(c: Chain, receiver: Bytes, amount: nat, key: Bytes)
    requires ChainOk(c) && |key| < 0x1_0000 && key in c.market.price && c.market.price[key] > 0
    ensures var group := Purchase(c, receiver, amount, key);
            Submit(c, group) == Chain(c.appId, c.market.(owner := c.market.owner[key := BUYER]), c.log + [group])
  {
    var group := Purchase(c, receiver, amount, key);
    Arc4Inverse(Arc4String(key), key);
    assert ExecGroup(c.appId, c.market, group, 0) == Ok(c.market);
    assert ExecGroup(c.appId, c.market, group, 1) == Ok(c.market);
    assert ExecGroup(c.appId, c.market, group, 2) == Ok(c.market);
    assert IsAcquire(c.appId, group[2]) && KeyOf(group[2]) == key;
    assert ExecGroup(c.appId, c.market, group, 3) == ExecTxn(c.appId, c.market, group, 2);
  }

  lemma PurchaseProves(c: Chain, ch: Challenge)
    requires ChainOk(c) && ch.appId == c.appId && Sellable(c, ch.artworkId) && CanonicalBytes(ch.artworkId) in c.market.price
    ensures Provable(Submit(c, Purchase(c, ch.receiver, ch.amount, CanonicalBytes(ch.artworkId))), ch)
  {
    var key := CanonicalBytes(ch.artworkId);
    var group := Purchase(c, ch.receiver, ch.amount, key);
    PurchaseIsTaken(c, ch.receiver, ch.amount, key);
    var c' := Submit(c, group);
    assert HasSenders(group);
    SubmitKeeps(c, group);
    ProvesByPlace(c', ch, |c.log|, group, key);
    ProvableExactly(c', ch);
    assert Proves(c', ch, BUYER, TxId(|c.log|, 2));
  }

  lemma ProvesByPlace(c: Chain, ch: Challenge, g: nat, group: Group, key: Bytes)
    requires g < |c.log| && c.log[g] == group && |group| == 3 && key == CanonicalBytes(ch.artworkId) && |key| < 0x1_0000
    requires group[0] == Payment(BUYER, ch.receiver, ch.amount)
    requires group[2] == AppCall(BUYER, c.appId, [ACQUIRE, Arc4String(key)])
    requires key in c.market.owner && c.market.owner[key] == BUYER
    ensures Proves(c, ch, BUYER, TxId(g, 2))
  {
    Arc4Inverse(Arc4String(key), key);
    assert PaysEnough(X402.Record(c.log, TxId(g, 0)), BUYER, ch.receiver, ch.amount);
    assert HoldsPayment(c.log, g, BUYER, ch.receiver, ch.amount);
  }

  ghost predicate AllCommits(steps: seq<Step>) {
    forall k :: 0 <= k < |steps| ==> steps[k].Commit?
  }

  /** One commit. */
  lemma CommitOne(s: Sys, group: Group)
    requires HasSenders(group)
    ensures Run(s, [Commit(group)]) == s.(chain := Submit(s.chain, group))
  {
    assert [Commit(group)][1..] == [];
    assert Run(s, [Commit(group)]) == Run(Apply(s, Commit(group)), []);
  }

  ghost predicate GivesProof(s: Sys, steps: seq<Step>, c: Challenge) {
    var end := Run(s, steps);
    end.db == s.db && end.requests == s.requests && end.marks == s.marks && Provable(end.chain, c)
  }

  lemma BuyNow(s: Sys, c: Challenge) returns (steps: seq<Step>)
    requires ChainOk(s.chain) && c.appId == s.chain.appId && Sellable(s.chain, c.artworkId)
    requires CanonicalBytes(c.artworkId) in s.chain.market.price
    ensures AllCommits(steps) && GivesProof(s, steps, c)
  {
    var group := Purchase(s.chain, c.receiver, c.amount, CanonicalBytes(c.artworkId));
    steps := [Commit(group)];
    CommitOne(s, group);
    PurchaseProves(s.chain, c);
  }

  lemma RegisterNow(s: Sys, key: Bytes) returns (group: Group)
    requires ChainOk(s.chain) && |key| < 0x1_0000 && key !in s.chain.market.price
    ensures HasSenders(group) && ChainOk(Submit(s.chain, group)) && Submit(s.chain, group).appId == s.chain.appId
    ensures key in Submit(s.chain, group).market.price && Submit(s.chain, group).market.price[key] > 0
  {
    var price: Bytes := [0, 0, 0, 0, 0, 0, 0, 1];
    assert Numerals.Value(256, price) == Numerals.Value(256, price[..7]) * 256 + 1;
    group := Registration(s.chain.appId, key, price);
    RegistrationIsTaken(s.chain, key, price);
    SubmitKeeps(s.chain, group);
  }

  /** One or two commits give a challenge on an artwork that can be sold a proof. */
  lemma MakeProvable(s: Sys, c: Challenge) returns (steps: seq<Step>)
    requires ChainOk(s.chain) && c.appId == s.chain.appId && Sellable(s.chain, c.artworkId)
    ensures AllCommits(steps) && GivesProof(s, steps, c)
  {
    if CanonicalBytes(c.artworkId) in s.chain.market.price {
      steps := BuyNow(s, c);
    } else {
      var group := RegisterNow(s, CanonicalBytes(c.artworkId));
      CommitOne(s, group);
      var rest := BuyNow(s.(chain := Submit(s.chain, group)), c);
      steps := [Commit(group)] + rest;
      RunAppend(s, [Commit(group)], rest);
    }
  }

  lemma AllAble(s: Sys, m: Sys, nonce: string)
    requires nonce in s.db.challenges && m.db == s.db && m.requests == s.requests
    requires RequestsOk(m) && Provable(m.chain, s.db.challenges[nonce])
    ensures Able(m, nonce) == OnIt(s, nonce) && Count(m, nonce) == Count(s, nonce)
  {
    AbleOnReachable(m, nonce);
  }

  lemma NotAble(s: Sys, nonce: string)
    requires Sound(s, nonce) && !Sellable(s.chain, s.db.challenges[nonce].artworkId)
    ensures Able(s, nonce) == Hopeful(s, nonce)
  {
    UnsellableIsNotProvable(s.chain, s.db.challenges[nonce]);
    AbleOnReachable(s, nonce);
  }

  lemma LaterAnyway(commits: seq<Step>, rest: seq<Step>, nonce: string, now: string)
    requires AllCommits(commits) && Continuation(rest, nonce, now) && NoneStarts(rest, nonce)
    ensures LaterRun(commits + rest, now) && NoneStarts(commits + rest, nonce)
  {
  }

  /** Then every request on the nonce settles. */
  lemma SettleAllLater(s: Sys, nonce: string, now: string) returns (steps: seq<Step>)
    requires Sound(s, nonce)
    ensures LaterRun(steps, now) && NoneStarts(steps, nonce)
    ensures Count(Run(s, steps), nonce) == Count(s, nonce) + |Hopeful(s, nonce)|
  {
    var commits, m := [], s;
    if Sellable(s.chain, s.db.challenges[nonce].artworkId) {
      commits := MakeProvable(s, s.db.challenges[nonce]);
      m := Run(s, commits);
      RunKeepsOk(s, commits);
      AllAble(s, m, nonce);
    } else {
      NotAble(s, nonce);
    }
    var rest := SettleAll(m, nonce, now);
    steps := commits + rest;
    LaterAnyway(commits, rest, nonce, now);
    RunAppend(s, commits, rest);
  }

  lemma LoadPair(s: Sys, nonce: string, now: string) returns (steps: seq<Step>)
    requires nonce in s.db.challenges && CheckChallenge(Some(s.db.challenges[nonce]), now) == None
    ensures LaterRun(steps, now)
    ensures var m := Run(s, steps); m.chain == s.chain && m.db == s.db && |OnIt(m, nonce)| >= 2
  {
    var i := Above(s.requests.Keys);
    var j := i + 1;
    assert i !in s.requests.Keys && j !in s.requests.Keys;
    var s1 := Apply(s, Load(i, nonce, now));
    LoadOne(s, i, nonce, now);
    var s2 := Apply(s1, Load(j, nonce, now));
    LoadOne(s1, j, nonce, now);
    steps := [Load(i, nonce, now), Load(j, nonce, now)] + [];
    RunOfTwo(s, Load(i, nonce, now), Load(j, nonce, now), []);
    Clock.TextNotLessItself(now);
    assert {i, j} <= OnIt(s2, nonce);
    FewerOf({i, j}, OnIt(s2, nonce));
  }

  // ------------------------------------------------------------ main results

  lemma ReachableIsSound(appId: nat, deployer: Bytes, history: seq<Step>, nonce: string)
    requires nonce in Run(Init(appId, deployer), history).db.challenges
    ensures Sound(Run(Init(appId, deployer), history), nonce)
  {
    PaymentUse.InitProved(appId, deployer);
    PaymentUse.RunProves(Init(appId, deployer), history);
  }

  /** From every reachable state, over every continuation, commits included, in which no further request on
      the nonce starts: a second event can be reached exactly when events and requests past the checks are two
      or more or, for an artwork that can be sold, events and all requests are. */
  lemma SecondEventEverWithoutStarts(appId: nat, deployer: Bytes, history: seq<Step>, nonce: string, now: string)
    requires nonce in Run(Init(appId, deployer), history).db.challenges
    ensures var s := Run(Init(appId, deployer), history);
            var row, n := s.db.challenges[nonce], Count(s, nonce);
            (exists steps: seq<Step> :: LaterRun(steps, now) && NoneStarts(steps, nonce) && Count(Run(s, steps), nonce) >= 2)
            <==> n + |Ready(s, nonce)| >= 2 || (Sellable(s.chain, row.artworkId) && n + |OnIt(s, nonce)| >= 2)
  {
    ReachableIsSound(appId, deployer, history, nonce);
    var s := Run(Init(appId, deployer), history);
    HopefulIsMost(s, nonce);
    if steps: seq<Step> :| LaterRun(steps, now) && NoneStarts(steps, nonce) && Count(Run(s, steps), nonce) >= 2 {
      RunHope(s, steps, nonce, now);
    }
    if Count(s, nonce) + |Hopeful(s, nonce)| >= 2 {
      var steps := SettleAllLater(s, nonce, now);
    }
  }

  lemma HopefulIsMost(s: Sys, nonce: string)
    requires nonce in s.db.challenges
    ensures |Ready(s, nonce)| <= |Hopeful(s, nonce)|
  {
    FewerOf(Ready(s, nonce), Hopeful(s, nonce));
  }

  /** And if requests may start: exactly then, or when the artwork can be sold and the row is pending and
      unexpired. */
  lemma SecondEventEver(appId: nat, deployer: Bytes, history: seq<Step>, nonce: string, now: string)
    requires nonce in Run(Init(appId, deployer), history).db.challenges
    ensures var s := Run(Init(appId, deployer), history);
            var row, n := s.db.challenges[nonce], Count(s, nonce);
            (exists steps: seq<Step> :: LaterRun(steps, now) && Count(Run(s, steps), nonce) >= 2)
            <==> || n + |Ready(s, nonce)| >= 2
                 || (Sellable(s.chain, row.artworkId) && (n + |OnIt(s, nonce)| >= 2 || CheckChallenge(Some(row), now) == None))
  {
    ReachableIsSound(appId, deployer, history, nonce);
    var s := Run(Init(appId, deployer), history);
    HopefulIsMost(s, nonce);
    if steps: seq<Step> :| LaterRun(steps, now) && Count(Run(s, steps), nonce) >= 2 {
      if !CanStart(s, nonce, now) {
        RunHope(s, steps, nonce, now);
      }
    }
    if Count(s, nonce) + |Hopeful(s, nonce)| >= 2 {
      var steps := SettleAllLater(s, nonce, now);
    } else if CanStart(s, nonce, now) {
      var steps := StartAndSettle(s, nonce, now);
    }
  }

  lemma StartAndSettle(s: Sys, nonce: string, now: string) returns (steps: seq<Step>)
    requires Sound(s, nonce) && CanStart(s, nonce, now)
    ensures LaterRun(steps, now) && Count(Run(s, steps), nonce) >= 2
  {
    var loads := LoadPair(s, nonce, now);
    var m := Run(s, loads);
    PaymentUse.RunProves(s, loads);
    var rest := SettleAllLater(m, nonce, now);
    steps := loads + rest;
    RunAppend(s, loads, rest);
  }
}
