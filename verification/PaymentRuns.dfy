/** Both payment paths and the chain running side by side. Each step is one database transaction,
    one committed group, or one look at the chain; requests may stop between any two of theirs. */
module PaymentRuns {
  import opened Wrappers
  import opened Marketplace
  import opened ArtworkId
  import opened X402
  import opened PaymentStore
  import TextCodec

  /** What a running request remembers. `challenge` and `acquisition` are rows as it read them. */
  datatype Request =
    | Loaded(nonce: string, challenge: Challenge)
    | Checked(nonce: string, challenge: Challenge, settlement: Settlement, paymentId: TxId)
    | Marked(nonce: string, challenge: Challenge, settlement: Settlement, paymentId: TxId)
    | Fetched(artworkId: int, orderId: string, acquisitionId: string, acquisition: Acquisition)

  /** `marks` counts the marking UPDATEs: the nonces in the order they were marked. */
  datatype Sys = Sys(chain: Chain, db: Db, requests: map<nat, Request>, marks: seq<string>)

  datatype Step =
    | Commit(group: Group)
    | AddArtwork(artworkId: int, status: string)
    | Issue(artworkId: int, name: string, email: string, nonce: string, terms: Terms)
    | Order(artworkId: int, name: string, email: string, id: string, orderId: string)
    | Load(request: nat, nonce: string, now: string)
    | Check(request: nat, wallet: Bytes, txId: TxId, listing: seq<IndexedTxn>)
    | Mark(request: nat)
    | Persist(request: nat, now: string)
    | FetchOrder(request: nat, artworkId: int, orderId: string)
    | Record(request: nat, razorpayId: string, now: string)
    | Crash(request: nat)

  function Init(appId: nat, deployer: Bytes): Sys {
    Sys(Deploy(appId, deployer), Db(map[], map[], map[], [], map[]), map[], [])
  }

  /** The verdict of a request that loaded `c` and looks at the chain now. */
  function VerdictNow(chain: Chain, c: Challenge, wallet: Bytes, txId: TxId, listing: seq<IndexedTxn>): Verdict {
    CheckProof(c, wallet, Fetch(chain.log, txId), listing, ReadBox(chain.market, OwnerBoxName(c.artworkId)))
  }

  /** A verified request goes on to marking, a refused one ends. */
  function AfterVerdict(requests: map<nat, Request>, i: nat, wallet: Bytes, txId: TxId, v: Verdict): map<nat, Request>
    requires i in requests && requests[i].Loaded?
  {
    var r := requests[i];
    if v.Verified? then requests[i := Checked(r.nonce, r.challenge, Settlement(wallet, txId, v.groupId), v.paymentId)]
    else requests - {i}
  }

  /** One step; a step that cannot happen in this state changes nothing. The payment provider hands
      out every order id once, and the indexer lists the group it is asked for. */
  ghost function Apply(s: Sys, step: Step): Sys {
    match step
    case Commit(group) =>
      if HasSenders(group) then s.(chain := Submit(s.chain, group)) else s
    case AddArtwork(a, status) =>
      if a in s.db.artworks || status == ACQUIRED then s
      else s.(db := s.db.(artworks := s.db.artworks[a := status]))
    case Issue(a, name, email, nonce, terms) =>
      var r := IssueChallenge(s.db, a, name, email, nonce, terms.(appId := s.chain.appId));
      if r.Ok? then s.(db := r.value) else s
    case Order(a, name, email, id, orderId) =>
      var r := CreateOrder(s.db, a, name, email, id, orderId);
      if OrderAcquisition(s.db, orderId).Some? || r.Err? then s else s.(db := r.value)
    case Load(i, nonce, now) =>
      if i in s.requests || nonce !in s.db.challenges || CheckChallenge(Some(s.db.challenges[nonce]), now).Some? then s
      else s.(requests := s.requests[i := Loaded(nonce, s.db.challenges[nonce])])
    case Check(i, wallet, txId, listing) =>
      if i !in s.requests || !s.requests[i].Loaded?
         || !(InLog(s.chain.log, txId) ==> Lists(s.chain.log, txId.group, listing)) then s
      else
        s.(requests := AfterVerdict(s.requests, i, wallet, txId, VerdictNow(s.chain, s.requests[i].challenge, wallet, txId, listing)))
    case Mark(i) =>
      if i !in s.requests || !s.requests[i].Checked? then s
      else
        var r := s.requests[i];
        Sys(s.chain, MarkUsed(s.db, r.nonce, r.settlement),
            s.requests[i := Marked(r.nonce, r.challenge, r.settlement, r.paymentId)], s.marks + [r.nonce])
    case Persist(i, now) =>
      if i !in s.requests || !s.requests[i].Marked? then s
      else
        var r := s.requests[i];
        s.(db := PersistAcquisition(s.db, r.nonce, r.challenge, r.settlement, r.paymentId, now), requests := s.requests - {i})
    case FetchOrder(i, a, orderId) =>
      var id := OrderAcquisition(s.db, orderId);
      if i in s.requests || id.None? || id.value !in s.db.acquisitions || s.db.acquisitions[id.value].artworkId != a then s
      else s.(requests := s.requests[i := Fetched(a, orderId, id.value, s.db.acquisitions[id.value])])
    case Record(i, razorpayId, now) =>
      if i !in s.requests || !s.requests[i].Fetched? then s
      else
        var r := s.requests[i];
        s.(db := RecordAcquisition(s.db, r.artworkId, r.orderId, r.acquisitionId, r.acquisition, razorpayId, now),
           requests := s.requests - {i})
    case Crash(i) => s.(requests := s.requests - {i})
  }

  ghost function Run(s: Sys, steps: seq<Step>): Sys
    decreases |steps|
  {
    if steps == [] then s else Run(Apply(s, steps[0]), steps[1..])
  }

  lemma RunOfFour(s: Sys, a: Step, b: Step, c: Step, d: Step)
    ensures Run(s, [a, b, c, d]) == Apply(Apply(Apply(Apply(s, a), b), c), d)
  {
    assert [a, b, c, d][1..] == [b, c, d] && [b, c, d][1..] == [c, d] && [c, d][1..] == [d] && [d][1..] == [];
    assert Run(Apply(s, a), [b, c, d]) == Run(Apply(Apply(s, a), b), [c, d]);
    assert Run(Apply(Apply(s, a), b), [c, d]) == Run(Apply(Apply(Apply(s, a), b), c), [d]);
  }

  // ------------------------------------------------------------ the invariant

  ghost predicate OwnerAt(c: Chain, k: nat, artworkId: int, wallet: Bytes)
    requires k <= |c.log|
  {
    var a := ReplayLog(c.appId, c.log[..k], CanonicalBytes(artworkId));
    a.Some? && a.value.owner == wallet
  }

  /** The wallet was the owner on chain after some number of committed groups. */
  ghost predicate OwnedOnce(c: Chain, artworkId: int, wallet: Bytes) {
    exists k :: 0 <= k <= |c.log| && OwnerAt(c, k, artworkId, wallet)
  }

  ghost predicate ChainReplays(c: Chain) {
    ChainOk(c) && forall key :: Lookup(c.market, key) == ReplayLog(c.appId, c.log, key)
  }

  ghost predicate RequestOk(db: Db, r: Request) {
    if r.Fetched? then
      && r.acquisitionId in db.acquisitions
      && db.acquisitions[r.acquisitionId].(status := Paid) == r.acquisition.(status := Paid)
      && r.acquisition.artworkId == r.artworkId && r.acquisition.orderId == Some(r.orderId)
    else
      && r.nonce in db.challenges && db.challenges[r.nonce].(settled := None) == r.challenge
      && (r.Marked? ==> db.challenges[r.nonce].settled.Some?)
  }

  ghost predicate WalletsOk(s: Sys) {
    && (forall a :: a in s.db.ownership && s.db.ownership[a].ownerWallet.Some? ==>
          OwnedOnce(s.chain, a, s.db.ownership[a].ownerWallet.value))
    && (forall i :: i in s.requests && (s.requests[i].Checked? || s.requests[i].Marked?) ==>
          OwnedOnce(s.chain, s.requests[i].challenge.artworkId, s.requests[i].settlement.wallet))
  }

  ghost predicate RequestsOk(s: Sys) {
    forall i :: i in s.requests ==> RequestOk(s.db, s.requests[i])
  }

  ghost predicate SysOk(s: Sys) {
    ChainReplays(s.chain) && DbOk(s.db) && RequestsOk(s) && WalletsOk(s)
  }

  lemma RequestStable(db: Db, db': Db, r: Request)
    requires RequestOk(db, r) && Extends(db, db')
    ensures RequestOk(db', r)
  {
  }

  lemma OwnedOnceStable(c: Chain, c': Chain, artworkId: int, wallet: Bytes)
    requires OwnedOnce(c, artworkId, wallet) && c'.appId == c.appId && c.log <= c'.log
    ensures OwnedOnce(c', artworkId, wallet)
  {
    var k :| 0 <= k <= |c.log| && OwnerAt(c, k, artworkId, wallet);
    assert c'.log[..k] == c.log[..k];
    assert OwnerAt(c', k, artworkId, wallet);
  }

  lemma CommitKeeps(s: Sys, group: Group)
    requires SysOk(s)
    ensures SysOk(Apply(s, Commit(group)))
  {
    if HasSenders(group) {
      var c := Submit(s.chain, group);
      SubmitKeeps(s.chain, group);
      forall key ensures Lookup(c.market, key) == ReplayLog(c.appId, c.log, key) {
        SubmitReplays(s.chain, group, key);
      }
      forall a, w | OwnedOnce(s.chain, a, w) ensures OwnedOnce(c, a, w) {
        OwnedOnceStable(s.chain, c, a, w);
      }
    }
  }

  /** A database transaction leaves running requests' rows in place. */
  lemma DbStepKeeps(s: Sys, s': Sys)
    requires RequestsOk(s) && Extends(s.db, s'.db) && DbOk(s'.db)
    requires forall i :: i in s'.requests ==>
               (i in s.requests && s'.requests[i] == s.requests[i]) || RequestOk(s'.db, s'.requests[i])
    ensures RequestsOk(s')
  {
    forall i | i in s'.requests ensures RequestOk(s'.db, s'.requests[i]) {
      if i in s.requests && s'.requests[i] == s.requests[i] {
        RequestStable(s.db, s'.db, s.requests[i]);
      }
    }
  }

  lemma InsertKeeps(s: Sys, step: Step)
    requires SysOk(s) && (step.AddArtwork? || step.Issue? || step.Order?)
    ensures SysOk(Apply(s, step))
  {
    var s' := Apply(s, step);
    if s' != s {
      match step {
        case AddArtwork(a, status) => AddArtworkDb(s.db, a, status);
        case Issue(a, name, email, nonce, terms) => IssueDb(s.db, a, name, email, nonce, terms.(appId := s.chain.appId));
        case Order(a, name, email, id, orderId) => OrderDb(s.db, a, name, email, id, orderId);
      }
      assert KeepsDb(s.db, s'.db);
      DbStepKeeps(s, s');
    }
  }

  lemma LoadKeeps(s: Sys, step: Step)
    requires SysOk(s) && (step.Load? || step.FetchOrder?)
    ensures SysOk(Apply(s, step))
  {
    var s' := Apply(s, step);
    if s' != s {
      if step.FetchOrder? {
        assert HasOrder(s.db, OrderAcquisition(s.db, step.orderId).value, step.orderId);
      }
      StartKeeps(s, step.request, s'.requests[step.request]);
    }
  }

  lemma StartKeeps(s: Sys, i: nat, r: Request)
    requires SysOk(s) && RequestOk(s.db, r) && (r.Loaded? || r.Fetched?)
    ensures SysOk(s.(requests := s.requests[i := r]))
  {
  }

  /** A proof that checks names the owner of this moment. */
  lemma VerdictOwner(c: Chain, ch: Challenge, wallet: Bytes, txId: TxId, listing: seq<IndexedTxn>)
    requires ChainReplays(c) && VerdictNow(c, ch, wallet, txId, listing).Verified?
    ensures OwnedOnce(c, ch.artworkId, wallet)
  {
    ReadOwnerBox(c.market, ch.artworkId);
    var key := CanonicalBytes(ch.artworkId);
    assert Lookup(c.market, key) == ReplayLog(c.appId, c.log, key);
    assert c.log[..|c.log|] == c.log;
    assert OwnerAt(c, |c.log|, ch.artworkId, wallet);
  }

  lemma VerdictKeeps(s: Sys, i: nat, wallet: Bytes, txId: TxId, v: Verdict)
    requires SysOk(s) && i in s.requests && s.requests[i].Loaded?
    requires v.Verified? ==> OwnedOnce(s.chain, s.requests[i].challenge.artworkId, wallet)
    ensures SysOk(s.(requests := AfterVerdict(s.requests, i, wallet, txId, v)))
  {
    assert RequestOk(s.db, s.requests[i]);
  }

  lemma VerdictIsOwner(s: Sys, i: nat, wallet: Bytes, txId: TxId, listing: seq<IndexedTxn>)
    requires SysOk(s) && i in s.requests && s.requests[i].Loaded?
    ensures SysOk(s.(requests := AfterVerdict(s.requests, i, wallet, txId,
                                              VerdictNow(s.chain, s.requests[i].challenge, wallet, txId, listing))))
  {
    var c := s.requests[i].challenge;
    var v := VerdictNow(s.chain, c, wallet, txId, listing);
    if v.Verified? {
      VerdictOwner(s.chain, c, wallet, txId, listing);
    }
    VerdictKeeps(s, i, wallet, txId, v);
  }

  lemma VerdictStep(s: Sys, step: Step)
    requires step.Check? && step.request in s.requests && s.requests[step.request].Loaded?
    ensures var listed := InLog(s.chain.log, step.txId) ==> Lists(s.chain.log, step.txId.group, step.listing);
            Apply(s, step) == if !listed then s else
              s.(requests := AfterVerdict(s.requests, step.request, step.wallet, step.txId,
                   VerdictNow(s.chain, s.requests[step.request].challenge, step.wallet, step.txId, step.listing)))
  {
  }

  lemma CheckKeeps(s: Sys, step: Step)
    requires SysOk(s) && step.Check?
    ensures SysOk(Apply(s, step))
  {
    if step.request in s.requests && s.requests[step.request].Loaded? {
      VerdictStep(s, step);
      VerdictIsOwner(s, step.request, step.wallet, step.txId, step.listing);
    }
  }

  lemma MarkKeeps(s: Sys, i: nat)
    requires SysOk(s)
    ensures SysOk(Apply(s, Mark(i)))
  {
    if i in s.requests && s.requests[i].Checked? {
      var s', r := Apply(s, Mark(i)), s.requests[i];
      assert RequestOk(s.db, r);
      MarkDb(s.db, r.nonce, r.settlement);
      MarkRequests(s, s', i);
      MarkWallets(s, s', i);
    }
  }

  lemma MarkRequests(s: Sys, s': Sys, i: nat)
    requires RequestsOk(s) && i in s.requests && s.requests[i].Checked?
    requires var r := s.requests[i];
             && r.nonce in s'.db.challenges && s'.db.challenges[r.nonce].settled.Some?
             && s'.requests == s.requests[i := Marked(r.nonce, r.challenge, r.settlement, r.paymentId)]
    requires Extends(s.db, s'.db) && DbOk(s'.db)
    ensures RequestsOk(s')
  {
    assert RequestOk(s.db, s.requests[i]);
    DbStepKeeps(s, s');
  }

  lemma MarkWallets(s: Sys, s': Sys, i: nat)
    requires WalletsOk(s) && i in s.requests && s.requests[i].Checked?
    requires s'.chain == s.chain && s'.db.ownership == s.db.ownership
    requires var r := s.requests[i]; s'.requests == s.requests[i := Marked(r.nonce, r.challenge, r.settlement, r.paymentId)]
    ensures WalletsOk(s')
  {
  }

  lemma PersistKeeps(s: Sys, i: nat, now: string)
    requires SysOk(s)
    ensures SysOk(Apply(s, Persist(i, now)))
  {
    if i in s.requests && s.requests[i].Marked? {
      var s', r := Apply(s, Persist(i, now)), s.requests[i];
      assert RequestOk(s.db, r);
      PersistDb(s.db, r.nonce, r.challenge, r.settlement, r.paymentId, now);
      DbStepKeeps(s, s');
    }
  }

  lemma RecordKeeps(s: Sys, i: nat, razorpayId: string, now: string)
    requires SysOk(s)
    ensures SysOk(Apply(s, Record(i, razorpayId, now)))
  {
    if i in s.requests && s.requests[i].Fetched? {
      var s', r := Apply(s, Record(i, razorpayId, now)), s.requests[i];
      assert RequestOk(s.db, r);
      assert HasOrder(s.db, r.acquisitionId, r.orderId);
      RecordDb(s.db, r.artworkId, r.orderId, r.acquisitionId, r.acquisition, razorpayId, now);
      DbStepKeeps(s, s');
    }
  }

  lemma StepKeeps(s: Sys, step: Step)
    requires SysOk(s)
    ensures SysOk(Apply(s, step))
  {
    match step
    case Commit(group) => CommitKeeps(s, group);
    case AddArtwork(_, _) => InsertKeeps(s, step);
    case Issue(_, _, _, _, _) => InsertKeeps(s, step);
    case Order(_, _, _, _, _) => InsertKeeps(s, step);
    case Load(_, _, _) => LoadKeeps(s, step);
    case Check(_, _, _, _) => CheckKeeps(s, step);
    case Mark(i) => MarkKeeps(s, i);
    case Persist(i, now) => PersistKeeps(s, i, now);
    case FetchOrder(_, _, _) => LoadKeeps(s, step);
    case Record(i, razorpayId, now) => RecordKeeps(s, i, razorpayId, now);
    case Crash(i) =>
  }

  lemma {:induction false} RunKeepsOk(s: Sys, steps: seq<Step>)
    requires SysOk(s)
    ensures SysOk(Run(s, steps))
    decreases |steps|
  {
    if steps != [] {
      StepKeeps(s, steps[0]);
      RunKeepsOk(Apply(s, steps[0]), steps[1..]);
    }
  }

  // ------------------------------------------------------------ rows that were written stay

  lemma StepExtends(s: Sys, step: Step)
    requires SysOk(s)
    ensures Extends(s.db, Apply(s, step).db)
  {
    match step
    case AddArtwork(_, _) => InsertExtends(s, step);
    case Issue(_, _, _, _, _) => InsertExtends(s, step);
    case Order(_, _, _, _, _) => InsertExtends(s, step);
    case Mark(i) => MarkExtends(s, i);
    case Persist(i, now) => PersistExtends(s, i, now);
    case Record(i, razorpayId, now) => RecordExtends(s, i, razorpayId, now);
    case _ => ExtendsItself(s.db, Apply(s, step).db);
  }

  lemma ExtendsItself(db: Db, db': Db)
    requires db' == db
    ensures Extends(db, db')
  {
  }

  lemma InsertExtends(s: Sys, step: Step)
    requires SysOk(s) && (step.AddArtwork? || step.Issue? || step.Order?)
    ensures Extends(s.db, Apply(s, step).db)
  {
  }

  lemma MarkExtends(s: Sys, i: nat)
    ensures Extends(s.db, Apply(s, Mark(i)).db)
  {
  }

  lemma PersistExtends(s: Sys, i: nat, now: string)
    requires SysOk(s)
    ensures Extends(s.db, Apply(s, Persist(i, now)).db)
  {
  }

  lemma RecordExtends(s: Sys, i: nat, razorpayId: string, now: string)
    requires SysOk(s)
    ensures Extends(s.db, Apply(s, Record(i, razorpayId, now)).db)
  {
  }

  lemma {:induction false} RunExtends(s: Sys, steps: seq<Step>)
    requires SysOk(s)
    ensures Extends(s.db, Run(s, steps).db)
    decreases |steps|
  {
    if steps != [] {
      StepExtends(s, steps[0]);
      StepKeeps(s, steps[0]);
      RunExtends(Apply(s, steps[0]), steps[1..]);
    }
  }

  /** An issued challenge has, at every later point of every run, the artwork, buyer, amount, receiver,
      application and expiry it was issued with, and so has its acquisition; only the settlement columns and the
      payment status change. */
  lemma IssuedRowStays(s: Sys, artworkId: int, name: string, email: string, nonce: string, terms: Terms, later: seq<Step>)
    requires SysOk(s) && IssueChallenge(s.db, artworkId, name, email, nonce, terms.(appId := s.chain.appId)).Ok?
    ensures var db := Run(Apply(s, Issue(artworkId, name, email, nonce, terms)), later).db;
            var n, e, id := TextCodec.Strip(name), TextCodec.Strip(email), "x402_" + (if |nonce| <= 18 then nonce else nonce[..18]);
            && nonce in db.challenges && id in db.acquisitions
            && db.challenges[nonce].(settled := None) ==
                 Challenge(artworkId, id, n, e, terms.amount, terms.receiver, s.chain.appId, terms.expiresAt, None)
            && db.acquisitions[id].(status := Paid) == Acquisition(artworkId, n, e, Paid, Some(nonce), None)
  {
    var step := Issue(artworkId, name, email, nonce, terms);
    ChallengeAnswers(s.db, artworkId, name, email, nonce, terms.(appId := s.chain.appId));
    StepKeeps(s, step);
    RunExtends(Apply(s, step), later);
  }

  /** The same for an order. */
  lemma OrderedRowStays(s: Sys, artworkId: int, name: string, email: string, id: string, orderId: string, later: seq<Step>)
    requires SysOk(s) && CreateOrder(s.db, artworkId, name, email, id, orderId).Ok? && OrderAcquisition(s.db, orderId) == None
    ensures var db := Run(Apply(s, Order(artworkId, name, email, id, orderId)), later).db;
            id in db.acquisitions &&
            db.acquisitions[id].(status := Paid) ==
              Acquisition(artworkId, TextCodec.Strip(name), TextCodec.Strip(email), Paid, None, Some(orderId))
  {
    var step := Order(artworkId, name, email, id, orderId);
    OrderAnswers(s.db, artworkId, name, email, id, orderId);
    StepKeeps(s, step);
    RunExtends(Apply(s, step), later);
  }

  lemma InitOk(appId: nat, deployer: Bytes)
    ensures SysOk(Init(appId, deployer))
  {
    var s := Init(appId, deployer);
    assert forall id, o :: !HasOrder(s.db, id, o);
  }

  /** Over every interleaving of both payment paths, chain commits and crashes: an ownership row is
      the replay of its artwork's events, an acquisition is paid exactly when an event settles it, an
      artwork is acquired exactly when it has events, no on-chain event stands without a settled
      challenge, and every stored wallet owned the artwork on chain at some past state. */
  lemma TablesRefineTheLog(appId: nat, deployer: Bytes, steps: seq<Step>)
    ensures var s := Run(Init(appId, deployer), steps);
            var db := s.db;
            && (forall a :: Replay(db, a, |db.events|) == if a in db.ownership then Some(db.ownership[a]) else None)
            && (forall id :: id in db.acquisitions ==>
                  (db.acquisitions[id].status == Paid <==> exists k :: 0 <= k < |db.events| && Settles(db, k, id)))
            && (forall a :: a in db.artworks ==>
                  (db.artworks[a] == ACQUIRED <==> exists k :: 0 <= k < |db.events| && db.events[k].artworkId == a))
            && (forall k :: 0 <= k < |db.events| && db.events[k].Transferred? ==>
                  db.events[k].nonce in db.challenges && db.challenges[db.events[k].nonce].settled.Some?)
            && (forall a :: a in db.ownership && db.ownership[a].ownerWallet.Some? ==>
                  OwnedOnce(s.chain, a, db.ownership[a].ownerWallet.value))
  {
    InitOk(appId, deployer);
    RunKeepsOk(Init(appId, deployer), steps);
    var db := Run(Init(appId, deployer), steps).db;
    assert forall k :: 0 <= k < |db.events| ==> EventOk(db, db.events[k]);
  }
}
