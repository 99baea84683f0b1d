/** How often the backend lets one on-chain payment settle challenges, and when what it settles is covered
    by what the chain paid. It never asks whether a transaction already settled another challenge. */
module PaymentUse {
  import opened Wrappers
  import opened Marketplace
  import opened ArtworkId
  import opened X402
  import opened PaymentStore
  import opened PaymentRuns
  import Clock

  // ------------------------------------------------------------ every event has its proof

  /** The settlement is a committed acquire with a payment of the challenge's amount in its group. */
  ghost predicate ProofOk(chain: Chain, c: Challenge, artworkId: int, st: Settlement, paymentId: TxId) {
    && c.appId == chain.appId && c.artworkId == artworkId
    && Acquired(chain.log, chain.appId, st.txId, st.wallet, artworkId)
    && InLog(chain.log, paymentId) && paymentId.group == st.txId.group == st.groupId
    && PaysEnough(X402.Record(chain.log, paymentId), st.wallet, c.receiver, c.amount)
  }

  ghost predicate EventProved(chain: Chain, db: Db, e: Event) {
    e.Transferred? ==> e.nonce in db.challenges && ProofOk(chain, db.challenges[e.nonce], e.artworkId, e.settlement, e.paymentId)
  }

  ghost predicate RequestProved(chain: Chain, r: Request) {
    r.Checked? || r.Marked? ==> ProofOk(chain, r.challenge, r.challenge.artworkId, r.settlement, r.paymentId)
  }

  ghost predicate OneApp(chain: Chain, db: Db) {
    forall n :: n in db.challenges ==> db.challenges[n].appId == chain.appId
  }

  ghost predicate Proved(s: Sys) {
    && OneApp(s.chain, s.db)
    && (forall i :: i in s.requests ==> RequestProved(s.chain, s.requests[i]))
    && (forall k :: 0 <= k < |s.db.events| ==> EventProved(s.chain, s.db, s.db.events[k]))
  }

  lemma ProofStable(chain: Chain, chain': Chain, c: Challenge, c': Challenge, artworkId: int, st: Settlement, paymentId: TxId)
    requires ProofOk(chain, c, artworkId, st, paymentId)
    requires chain'.appId == chain.appId && chain.log <= chain'.log && c'.(settled := None) == c.(settled := None)
    ensures ProofOk(chain', c', artworkId, st, paymentId)
  {
    assert chain'.log[st.txId.group] == chain.log[st.txId.group];
  }

  /** Challenge rows stay but for the settlement columns. */
  ghost predicate RowsStay(db: Db, db': Db) {
    forall n :: n in db.challenges ==> n in db'.challenges && db'.challenges[n].(settled := None) == db.challenges[n].(settled := None)
  }

  lemma ProvedStable(s: Sys, s': Sys)
    requires Proved(s) && OneApp(s'.chain, s'.db) && RowsStay(s.db, s'.db)
    requires s'.chain.appId == s.chain.appId && s.chain.log <= s'.chain.log
    requires forall i :: i in s'.requests ==>
               (i in s.requests && s'.requests[i] == s.requests[i]) || RequestProved(s'.chain, s'.requests[i])
    requires |s.db.events| <= |s'.db.events| && s'.db.events[..|s.db.events|] == s.db.events
    requires forall k :: |s.db.events| <= k < |s'.db.events| ==> EventProved(s'.chain, s'.db, s'.db.events[k])
    ensures Proved(s')
  {
    forall i | i in s'.requests
      ensures RequestProved(s'.chain, s'.requests[i])
    {
      var r := s'.requests[i];
      if (r.Checked? || r.Marked?) && i in s.requests && r == s.requests[i] {
        ProofStable(s.chain, s'.chain, r.challenge, r.challenge, r.challenge.artworkId, r.settlement, r.paymentId);
      }
    }
    forall k | 0 <= k < |s'.db.events|
      ensures EventProved(s'.chain, s'.db, s'.db.events[k])
    {
      if k < |s.db.events| {
        assert s'.db.events[k] == s.db.events[k] && EventProved(s.chain, s.db, s.db.events[k]);
        EventStays(s, s', s.db.events[k]);
      }
    }
  }

  lemma EventStays(s: Sys, s': Sys, e: Event)
    requires EventProved(s.chain, s.db, e) && RowsStay(s.db, s'.db)
    requires s'.chain.appId == s.chain.appId && s.chain.log <= s'.chain.log
    ensures EventProved(s'.chain, s'.db, e)
  {
    if e.Transferred? {
      ProofStable(s.chain, s'.chain, s.db.challenges[e.nonce], s'.db.challenges[e.nonce], e.artworkId, e.settlement, e.paymentId);
    }
  }

  lemma CheckProves(s: Sys, step: Step)
    requires SysOk(s) && Proved(s) && step.Check?
    ensures Proved(Apply(s, step))
  {
    var i := step.request;
    if i in s.requests && s.requests[i].Loaded? {
      VerdictStep(s, step);
      if InLog(s.chain.log, step.txId) ==> Lists(s.chain.log, step.txId.group, step.listing) {
        var c := s.requests[i].challenge;
        var v := VerdictNow(s.chain, c, step.wallet, step.txId, step.listing);
        assert RequestOk(s.db, s.requests[i]);
        if v.Verified? {
          VerdictProves(s.chain, c, step.wallet, step.txId, step.listing);
        }
        VerdictKeepsProofs(s, i, step.wallet, step.txId, v);
      }
    }
  }

  lemma VerdictProves(chain: Chain, c: Challenge, wallet: Bytes, txId: TxId, listing: seq<IndexedTxn>)
    requires InLog(chain.log, txId) ==> Lists(chain.log, txId.group, listing)
    requires VerdictNow(chain, c, wallet, txId, listing).Verified? && c.appId == chain.appId
    ensures var v := VerdictNow(chain, c, wallet, txId, listing);
            ProofOk(chain, c, c.artworkId, Settlement(wallet, txId, v.groupId), v.paymentId)
  {
    var pending := c.(settled := None, expiresAt := "");
    VerifiedIsReal(chain, Some(pending), "", wallet, txId, listing, ReadBox(chain.market, OwnerBoxName(c.artworkId)));
  }

  lemma VerdictKeepsProofs(s: Sys, i: nat, wallet: Bytes, txId: TxId, v: Verdict)
    requires Proved(s) && i in s.requests && s.requests[i].Loaded?
    requires v.Verified? ==> ProofOk(s.chain, s.requests[i].challenge, s.requests[i].challenge.artworkId,
                                     Settlement(wallet, txId, v.groupId), v.paymentId)
    ensures Proved(s.(requests := AfterVerdict(s.requests, i, wallet, txId, v)))
  {
  }

  lemma CommitProves(s: Sys, group: Group)
    requires SysOk(s) && Proved(s)
    ensures Proved(Apply(s, Commit(group)))
  {
    var s' := Apply(s, Commit(group));
    assert s'.db == s.db && s'.requests == s.requests;
    if s' != s {
      ChainGrows(s.chain, group);
      ProvedStable(s, s');
    }
  }

  lemma ChainGrows(c: Chain, group: Group)
    ensures Submit(c, group).appId == c.appId && c.log <= Submit(c, group).log
  {
  }

  /** Steps that write no event and start no proof. */
  lemma QuietProves(s: Sys, s': Sys)
    requires Proved(s) && s'.chain == s.chain && s'.db.events == s.db.events
    requires OneApp(s'.chain, s'.db) && RowsStay(s.db, s'.db)
    requires forall i :: i in s'.requests ==>
               (i in s.requests && s'.requests[i] == s.requests[i]) || RequestProved(s'.chain, s'.requests[i])
    ensures Proved(s')
  {
    assert s'.db.events[..|s.db.events|] == s.db.events;
    ProvedStable(s, s');
  }

  lemma RowsProve(s: Sys, step: Step)
    requires Proved(s)
    requires step.AddArtwork? || step.Issue? || step.Order?
    ensures Proved(Apply(s, step))
  {
    QuietProves(s, Apply(s, step));
  }

  lemma StartProves(s: Sys, step: Step)
    requires Proved(s)
    requires step.Load? || step.FetchOrder? || step.Crash?
    ensures Proved(Apply(s, step))
  {
    QuietProves(s, Apply(s, step));
  }

  lemma MarkProves(s: Sys, i: nat)
    requires Proved(s)
    ensures Proved(Apply(s, Mark(i)))
  {
    if i in s.requests && s.requests[i].Checked? {
      assert RequestProved(s.chain, s.requests[i]);
      QuietProves(s, Apply(s, Mark(i)));
    }
  }

  /** One more event. */
  lemma EventProves(s: Sys, s': Sys, i: nat, e: Event)
    requires Proved(s) && s'.chain == s.chain && s'.db.challenges == s.db.challenges
    requires s'.db.events == s.db.events + [e] && EventProved(s.chain, s.db, e) && s'.requests == s.requests - {i}
    ensures Proved(s')
  {
    ProvedStable(s, s');
  }

  lemma PersistProves(s: Sys, i: nat, now: string)
    requires RequestsOk(s) && Proved(s)
    ensures Proved(Apply(s, Persist(i, now)))
  {
    if i in s.requests && s.requests[i].Marked? {
      var r := s.requests[i];
      assert RequestOk(s.db, r) && RequestProved(s.chain, r);
      ProofStable(s.chain, s.chain, r.challenge, s.db.challenges[r.nonce], r.challenge.artworkId, r.settlement, r.paymentId);
      EventProves(s, Apply(s, Persist(i, now)), i, Transferred(r.challenge.artworkId, now, r.nonce, r.settlement, r.paymentId));
    }
  }

  lemma RecordProves(s: Sys, i: nat, razorpayId: string, now: string)
    requires Proved(s)
    ensures Proved(Apply(s, PaymentRuns.Record(i, razorpayId, now)))
  {
    if i in s.requests && s.requests[i].Fetched? {
      var r := s.requests[i];
      EventProves(s, Apply(s, PaymentRuns.Record(i, razorpayId, now)), i, Recorded(r.artworkId, now, r.orderId, razorpayId));
    }
  }

  lemma StepProves(s: Sys, step: Step)
    requires SysOk(s) && Proved(s)
    ensures Proved(Apply(s, step))
  {
    match step
    case Commit(group) => CommitProves(s, group);
    case Check(_, _, _, _) => CheckProves(s, step);
    case Mark(i) => MarkProves(s, i);
    case Persist(i, now) => PersistProves(s, i, now);
    case Record(i, razorpayId, now) => RecordProves(s, i, razorpayId, now);
    case Load(_, _, _) => StartProves(s, step);
    case FetchOrder(_, _, _) => StartProves(s, step);
    case Crash(_) => StartProves(s, step);
    case _ => RowsProve(s, step);
  }

  lemma {:induction false} RunProves(s: Sys, steps: seq<Step>)
    requires SysOk(s) && Proved(s)
    ensures SysOk(Run(s, steps)) && Proved(Run(s, steps))
    decreases |steps|
  {
    if steps != [] {
      PaymentRuns.StepKeeps(s, steps[0]);
      StepProves(s, steps[0]);
      RunProves(Apply(s, steps[0]), steps[1..]);
    }
  }

  // ------------------------------------------------------------ sums over the transactions of the log

  function GroupSum(w: TxId -> nat, g: nat, n: nat): nat {
    if n == 0 then 0 else GroupSum(w, g, n - 1) + w(TxId(g, n - 1))
  }

  function LogSum(w: TxId -> nat, log: seq<Group>): nat {
    if log == [] then 0 else LogSum(w, log[..|log| - 1]) + GroupSum(w, |log| - 1, |log[|log| - 1]|)
  }

  function IdSum(w: TxId -> nat, ids: seq<TxId>): nat {
    if ids == [] then 0 else IdSum(w, ids[..|ids| - 1]) + w(ids[|ids| - 1])
  }

  ghost predicate Distinct(ids: seq<TxId>) {
    forall j, k :: 0 <= j < k < |ids| ==> ids[j] != ids[k]
  }

  function Without(w: TxId -> nat, x: TxId): TxId -> nat {
    id => if id == x then 0 else w(id)
  }

  lemma {:induction false} GroupWithout(w: TxId -> nat, x: TxId, g: nat, n: nat)
    ensures GroupSum(w, g, n) == GroupSum(Without(w, x), g, n) + (if x.group == g && x.index < n then w(x) else 0)
  {
    if n > 0 {
      GroupWithout(w, x, g, n - 1);
    }
  }

  lemma {:induction false} LogWithout(w: TxId -> nat, x: TxId, log: seq<Group>)
    ensures LogSum(w, log) == LogSum(Without(w, x), log) + (if InLog(log, x) then w(x) else 0)
  {
    if log != [] {
      LogWithout(w, x, log[..|log| - 1]);
      GroupWithout(w, x, |log| - 1, |log[|log| - 1]|);
    }
  }

  lemma {:induction false} IdsWithout(w: TxId -> nat, x: TxId, ids: seq<TxId>)
    requires x !in ids
    ensures IdSum(Without(w, x), ids) == IdSum(w, ids)
  {
    if ids != [] {
      IdsWithout(w, x, ids[..|ids| - 1]);
      assert ids[|ids| - 1] in ids;
    }
  }

  /** Distinct transactions of the log weigh no more than the log. */
  lemma {:induction false} DistinctSum(w: TxId -> nat, ids: seq<TxId>, log: seq<Group>)
    requires Distinct(ids) && forall k :: 0 <= k < |ids| ==> InLog(log, ids[k])
    ensures IdSum(w, ids) <= LogSum(w, log)
    decreases |ids|
  {
    if ids != [] {
      var init, x := ids[..|ids| - 1], ids[|ids| - 1];
      DistinctSum(Without(w, x), init, log);
      IdsWithout(w, x, init);
      LogWithout(w, x, log);
    }
  }

  // ------------------------------------------------------------ what is settled and what was paid

  ghost predicate SettlesFor(account: Bytes, db: Db, e: Event) {
    e.Transferred? && e.nonce in db.challenges && db.challenges[e.nonce].receiver == account
  }

  function AmountOf(account: Bytes, db: Db, e: Event): nat {
    if e.Transferred? && e.nonce in db.challenges && db.challenges[e.nonce].receiver == account then db.challenges[e.nonce].amount
    else 0
  }

  /** What the first n events settle for this account: the amounts of their challenges. */
  function SettledBy(account: Bytes, db: Db, n: nat): nat
    requires n <= |db.events|
  {
    if n == 0 then 0 else SettledBy(account, db, n - 1) + AmountOf(account, db, db.events[n - 1])
  }

  function TotalSettled(account: Bytes, db: Db): nat {
    SettledBy(account, db, |db.events|)
  }

  /** No two events for the account name one payment, or one acquire. */
  ghost predicate PaymentsDistinct(account: Bytes, db: Db) {
    forall j, k :: 0 <= j < k < |db.events| && SettlesFor(account, db, db.events[j]) && SettlesFor(account, db, db.events[k]) ==>
      db.events[j].paymentId != db.events[k].paymentId
  }

  ghost predicate AcquiresDistinct(account: Bytes, db: Db) {
    forall j, k :: 0 <= j < k < |db.events| && SettlesFor(account, db, db.events[j]) && SettlesFor(account, db, db.events[k]) ==>
      db.events[j].settlement.txId != db.events[k].settlement.txId
  }

  /** What the transaction pays the account. */
  function PaidBy(account: Bytes, log: seq<Group>, id: TxId): nat {
    if InLog(log, id) && log[id.group][id.index].Payment? && log[id.group][id.index].receiver == account
    then log[id.group][id.index].amount else 0
  }

  /** The price of what the transaction acquires. */
  function DueFor(c: Chain, id: TxId): nat {
    if InLog(c.log, id) && IsAcquire(c.appId, c.log[id.group][id.index])
    then Get(c.market.price, KeyOf(c.log[id.group][id.index]), 0) else 0
  }

  lemma {:induction false} PaidGroup(account: Bytes, log: seq<Group>, g: nat, n: nat)
    requires g < |log| && n <= |log[g]|
    ensures GroupSum(id => PaidBy(account, log, id), g, n) == PaidTo(account, log[g], n)
  {
    if n > 0 {
      PaidGroup(account, log, g, n - 1);
    }
  }

  lemma {:induction false} PaidLog(account: Bytes, log: seq<Group>, m: nat)
    requires m <= |log|
    ensures LogSum(id => PaidBy(account, log, id), log[..m]) == TotalPaidTo(account, log[..m])
  {
    if m > 0 {
      PaidLog(account, log, m - 1);
      PaidGroup(account, log, m - 1, |log[m - 1]|);
      assert log[..m][..m - 1] == log[..m - 1];
    }
  }

  lemma {:induction false} DueGroup(c: Chain, g: nat, n: nat)
    requires g < |c.log| && n <= |c.log[g]|
    ensures GroupSum(id => DueFor(c, id), g, n) == Due(c.appId, c.market, c.log[g], n)
  {
    if n > 0 {
      DueGroup(c, g, n - 1);
    }
  }

  lemma {:induction false} DueLog(c: Chain, m: nat)
    requires m <= |c.log|
    ensures LogSum(id => DueFor(c, id), c.log[..m]) == TotalDue(c.appId, c.market, c.log[..m])
  {
    if m > 0 {
      DueLog(c, m - 1);
      DueGroup(c, m - 1, |c.log[m - 1]|);
      assert c.log[..m][..m - 1] == c.log[..m - 1];
    }
  }

  // ------------------------------------------------------------ when settlements are covered

  lemma InitProved(appId: nat, deployer: Bytes)
    ensures SysOk(Init(appId, deployer)) && Proved(Init(appId, deployer))
  {
    InitOk(appId, deployer);
  }

  lemma PaymentCovers(s: Sys, account: Bytes, e: Event)
    requires EventProved(s.chain, s.db, e) && SettlesFor(account, s.db, e)
    ensures InLog(s.chain.log, e.paymentId) && AmountOf(account, s.db, e) <= PaidBy(account, s.chain.log, e.paymentId)
  {
  }

  lemma AcquireCovers(s: Sys, account: Bytes, e: Event)
    requires EventProved(s.chain, s.db, e) && SettlesFor(account, s.db, e) && Configured(s.chain, s.db.challenges[e.nonce])
    ensures InLog(s.chain.log, e.settlement.txId) && AmountOf(account, s.db, e) <= DueFor(s.chain, e.settlement.txId)
  {
    PriceOf(s.chain, e.settlement.txId, CanonicalBytes(e.artworkId));
  }

  lemma PriceOf(c: Chain, id: TxId, key: Bytes)
    requires InLog(c.log, id) && IsAcquire(c.appId, c.log[id.group][id.index]) && KeyOf(c.log[id.group][id.index]) == key
    requires key in c.market.price
    ensures DueFor(c, id) == c.market.price[key]
  {
  }

  ghost predicate PaidEarlier(account: Bytes, db: Db, n: nat, x: TxId)
    requires n <= |db.events|
  {
    exists j :: 0 <= j < n && SettlesFor(account, db, db.events[j]) && db.events[j].paymentId == x
  }

  ghost predicate AcquiredEarlier(account: Bytes, db: Db, n: nat, x: TxId)
    requires n <= |db.events|
  {
    exists j :: 0 <= j < n && SettlesFor(account, db, db.events[j]) && db.events[j].settlement.txId == x
  }

  lemma NewPayment(account: Bytes, db: Db, n: nat)
    requires PaymentsDistinct(account, db) && n < |db.events| && SettlesFor(account, db, db.events[n])
    ensures !PaidEarlier(account, db, n, db.events[n].paymentId) && PaidEarlier(account, db, n + 1, db.events[n].paymentId)
  {
  }

  lemma NewAcquire(account: Bytes, db: Db, n: nat)
    requires AcquiresDistinct(account, db) && n < |db.events| && SettlesFor(account, db, db.events[n])
    ensures !AcquiredEarlier(account, db, n, db.events[n].settlement.txId)
            && AcquiredEarlier(account, db, n + 1, db.events[n].settlement.txId)
  {
  }

  lemma StillEarlier(account: Bytes, db: Db, n: nat, x: TxId)
    requires n < |db.events|
    ensures PaidEarlier(account, db, n, x) ==> PaidEarlier(account, db, n + 1, x)
    ensures AcquiredEarlier(account, db, n, x) ==> AcquiredEarlier(account, db, n + 1, x)
  {
  }

  lemma IdSumAppend(w: TxId -> nat, ids: seq<TxId>, x: TxId)
    ensures IdSum(w, ids + [x]) == IdSum(w, ids) + w(x)
  {
    assert (ids + [x])[..|ids|] == ids;
  }

  /** The payments of the first n events for the account, in order. */
  lemma {:induction false} PaymentsOf(s: Sys, account: Bytes, w: TxId -> nat, n: nat) returns (ids: seq<TxId>)
    requires Proved(s) && n <= |s.db.events| && PaymentsDistinct(account, s.db)
    requires forall x :: w(x) == PaidBy(account, s.chain.log, x)
    ensures SettledBy(account, s.db, n) <= IdSum(w, ids)
    ensures Distinct(ids) && forall k :: 0 <= k < |ids| ==> InLog(s.chain.log, ids[k])
    ensures forall x :: x in ids ==> PaidEarlier(account, s.db, n, x)
    decreases n
  {
    if n == 0 {
      ids := [];
    } else {
      ids := PaymentsOf(s, account, w, n - 1);
      var e := s.db.events[n - 1];
      forall x | x in ids
        ensures PaidEarlier(account, s.db, n, x)
      {
        StillEarlier(account, s.db, n - 1, x);
      }
      if SettlesFor(account, s.db, e) {
        assert EventProved(s.chain, s.db, e);
        PaymentCovers(s, account, e);
        NewPayment(account, s.db, n - 1);
        IdSumAppend(w, ids, e.paymentId);
        ids := ids + [e.paymentId];
      }
    }
  }

  lemma {:induction false} AcquiresOf(s: Sys, account: Bytes, w: TxId -> nat, n: nat) returns (ids: seq<TxId>)
    requires Proved(s) && n <= |s.db.events| && AcquiresDistinct(account, s.db) && AllConfigured(account, s)
    requires forall x :: w(x) == DueFor(s.chain, x)
    ensures SettledBy(account, s.db, n) <= IdSum(w, ids)
    ensures Distinct(ids) && forall k :: 0 <= k < |ids| ==> InLog(s.chain.log, ids[k])
    ensures forall x :: x in ids ==> AcquiredEarlier(account, s.db, n, x)
    decreases n
  {
    if n == 0 {
      ids := [];
    } else {
      ids := AcquiresOf(s, account, w, n - 1);
      var e := s.db.events[n - 1];
      forall x | x in ids
        ensures AcquiredEarlier(account, s.db, n, x)
      {
        StillEarlier(account, s.db, n - 1, x);
      }
      if SettlesFor(account, s.db, e) {
        assert EventProved(s.chain, s.db, e);
        AcquireCovers(s, account, e);
        NewAcquire(account, s.db, n - 1);
        IdSumAppend(w, ids, e.settlement.txId);
        ids := ids + [e.settlement.txId];
      }
    }
  }

  /** The settled challenges for the account pay the treasury and ask no more than the on-chain price. */
  ghost predicate AllConfigured(account: Bytes, s: Sys) {
    forall k :: 0 <= k < |s.db.events| && SettlesFor(account, s.db, s.db.events[k]) ==>
      Configured(s.chain, s.db.challenges[s.db.events[k].nonce])
  }

  /** Over every run: if no two x402 events for an account name one payment, what they settle is covered by
      what the chain paid the account. Nothing is asked of prices. */
  lemma DistinctPaymentsCover(appId: nat, deployer: Bytes, steps: seq<Step>, account: Bytes)
    requires PaymentsDistinct(account, Run(Init(appId, deployer), steps).db)
    ensures var s := Run(Init(appId, deployer), steps);
            TotalSettled(account, s.db) <= TotalPaidTo(account, s.chain.log)
  {
    InitProved(appId, deployer);
    RunProves(Init(appId, deployer), steps);
    var s := Run(Init(appId, deployer), steps);
    var w := id => PaidBy(account, s.chain.log, id);
    var ids := PaymentsOf(s, account, w, |s.db.events|);
    DistinctSum(w, ids, s.chain.log);
    PaidLog(account, s.chain.log, |s.chain.log|);
    assert s.chain.log[..|s.chain.log|] == s.chain.log;
  }

  /** Over every run: if challenges ask no more than the on-chain price, it is enough that no two events
      name one acquire, though two acquires of a group can be given one payment: what is settled is covered
      by the prices of the acquisitions on chain, and so by what the chain paid. */
  lemma DistinctAcquiresCover(appId: nat, deployer: Bytes, steps: seq<Step>, account: Bytes)
    requires AcquiresDistinct(account, Run(Init(appId, deployer), steps).db)
    requires AllConfigured(account, Run(Init(appId, deployer), steps))
    ensures var s := Run(Init(appId, deployer), steps);
            TotalSettled(account, s.db) <= TotalDue(appId, s.chain.market, s.chain.log) <= TotalPaidTo(s.chain.market.treasury, s.chain.log)
  {
    InitProved(appId, deployer);
    RunProves(Init(appId, deployer), steps);
    RunKeepsApp(Init(appId, deployer), steps);
    var s := Run(Init(appId, deployer), steps);
    var w := id => DueFor(s.chain, id);
    var ids := AcquiresOf(s, account, w, |s.db.events|);
    DistinctSum(w, ids, s.chain.log);
    DueLog(s.chain, |s.chain.log|);
    assert s.chain.log[..|s.chain.log|] == s.chain.log;
    LogPays(s.chain.appId, s.chain.market, s.chain.log);
  }

  lemma {:induction false} RunKeepsApp(s: Sys, steps: seq<Step>)
    ensures Run(s, steps).chain.appId == s.chain.appId
    decreases |steps|
  {
    if steps != [] {
      RunKeepsApp(Apply(s, steps[0]), steps[1..]);
    }
  }

  /** Two events that name one payment name acquires of one wallet in one group. */
  lemma SharersAreInOneGroup(appId: nat, deployer: Bytes, steps: seq<Step>, j: nat, k: nat)
    requires j < |Run(Init(appId, deployer), steps).db.events| && k < |Run(Init(appId, deployer), steps).db.events|
    ensures var db := Run(Init(appId, deployer), steps).db;
            var d, e := db.events[j], db.events[k];
            d.Transferred? && e.Transferred? && d.paymentId == e.paymentId ==>
              d.settlement.txId.group == e.settlement.txId.group && d.settlement.wallet == e.settlement.wallet
  {
    InitProved(appId, deployer);
    RunProves(Init(appId, deployer), steps);
    var s := Run(Init(appId, deployer), steps);
    assert EventProved(s.chain, s.db, s.db.events[j]) && EventProved(s.chain, s.db, s.db.events[k]);
  }

  // ------------------------------------------------------------ a used proof is accepted again

  /** One whole request by itself. */
  function OneRequest(i: nat, nonce: string, now: string, st: Settlement, listing: seq<IndexedTxn>): seq<Step> {
    [Load(i, nonce, now), Check(i, st.wallet, st.txId, listing), Mark(i), Persist(i, now)]
  }

  /** The used proof is good for this challenge: same artwork, its group pays the challenge's receiver the
      challenge's amount, and the wallet still owns the artwork. */
  ghost predicate GoodFor(chain: Chain, e: Event, c: Challenge)
    requires e.Transferred?
  {
    && c.artworkId == e.artworkId
    && HoldsPayment(chain.log, e.settlement.txId.group, e.settlement.wallet, c.receiver, c.amount)
    && Owns(chain.market, c.artworkId, e.settlement.wallet)
  }

  lemma UsedProofVerdict(chain: Chain, e: Event, c: Challenge, listing: seq<IndexedTxn>)
    requires ChainOk(chain) && c.appId == chain.appId && e.Transferred?
    requires Acquired(chain.log, chain.appId, e.settlement.txId, e.settlement.wallet, e.artworkId)
    requires Lists(chain.log, e.settlement.txId.group, listing)
    ensures VerdictNow(chain, c, e.settlement.wallet, e.settlement.txId, listing).Verified? <==> GoodFor(chain, e, c)
  {
    CanonicalBytesInjective(c.artworkId, e.artworkId);
    VerifiedExactly(chain, c, e.settlement.wallet, e.settlement.txId, listing);
  }

  /** The rows other than the settlement columns fix what events settle. */
  lemma {:induction false} SettledByStays(account: Bytes, db: Db, db': Db, n: nat)
    requires RowsStay(db, db') && db'.challenges.Keys == db.challenges.Keys
    requires n <= |db.events| <= |db'.events| && db'.events[..n] == db.events[..n]
    ensures SettledBy(account, db', n) == SettledBy(account, db, n)
  {
    if n > 0 {
      assert db'.events[n - 1] == db'.events[..n][n - 1] == db.events[n - 1];
      assert db'.events[..n - 1] == db'.events[..n][..n - 1] == db.events[..n - 1];
      SettledByStays(account, db, db', n - 1);
    }
  }

  lemma LoadAlone(s: Sys, i: nat, nonce: string, now: string)
    requires i !in s.requests && nonce in s.db.challenges
    ensures var ch := s.db.challenges[nonce];
            Apply(s, Load(i, nonce, now)) ==
              if CheckChallenge(Some(ch), now) == None then s.(requests := s.requests[i := Loaded(nonce, ch)]) else s
  {
  }

  /** A request that is not there does nothing. */
  lemma NothingLeft(s: Sys, i: nat, now: string, wallet: Bytes, txId: TxId, listing: seq<IndexedTxn>)
    requires i !in s.requests
    ensures Apply(s, Check(i, wallet, txId, listing)) == s && Apply(s, Mark(i)) == s && Apply(s, Persist(i, now)) == s
  {
  }

  /** A checked request settles its challenge. */
  lemma MarkAndPersist(s: Sys, i: nat, now: string)
    requires i in s.requests && s.requests[i].Checked? && s.requests[i].nonce in s.db.challenges
    requires s.requests[i].challenge == s.db.challenges[s.requests[i].nonce]
    ensures var s', r := Apply(Apply(s, Mark(i)), Persist(i, now)), s.requests[i];
            && s'.chain == s.chain
            && s'.db.events == s.db.events + [Transferred(r.challenge.artworkId, now, r.nonce, r.settlement, r.paymentId)]
            && TotalSettled(r.challenge.receiver, s'.db) == TotalSettled(r.challenge.receiver, s.db) + r.challenge.amount
  {
    var s', r := Apply(Apply(s, Mark(i)), Persist(i, now)), s.requests[i];
    assert RowsStay(s.db, s'.db) && s'.db.challenges.Keys == s.db.challenges.Keys;
    assert s'.db.events[..|s.db.events|] == s.db.events == s.db.events[..|s.db.events|];
    SettledByStays(r.challenge.receiver, s.db, s'.db, |s.db.events|);
  }

  /** A loaded request with the proof of an event. */
  lemma UsedProofGoesThrough(s: Sys, e: Event, i: nat, nonce: string, now: string, listing: seq<IndexedTxn>)
    requires SysOk(s) && Proved(s) && e in s.db.events && e.Transferred?
    requires i !in s.requests && nonce in s.db.challenges
    requires Lists(s.chain.log, e.settlement.txId.group, listing)
    ensures var ch := s.db.challenges[nonce];
            var s1 := s.(requests := s.requests[i := Loaded(nonce, ch)]);
            var s2 := Apply(s1, Check(i, e.settlement.wallet, e.settlement.txId, listing));
            if GoodFor(s.chain, e, ch) then
              && s2.chain == s.chain && s2.db == s.db && i in s2.requests && s2.requests[i].Checked?
              && s2.requests[i].nonce == nonce && s2.requests[i].challenge == ch
              && s2.requests[i].settlement.txId == e.settlement.txId
            else s2 == s
  {
    var ch := s.db.challenges[nonce];
    var s1 := s.(requests := s.requests[i := Loaded(nonce, ch)]);
    assert EventProved(s.chain, s.db, e);
    UsedProofVerdict(s.chain, e, ch, listing);
    VerdictStep(s1, Check(i, e.settlement.wallet, e.settlement.txId, listing));
    FreshVerdict(s, i, Loaded(nonce, ch), e.settlement.wallet, e.settlement.txId,
                 VerdictNow(s.chain, ch, e.settlement.wallet, e.settlement.txId, listing));
  }

  lemma FreshVerdict(s: Sys, i: nat, r: Request, wallet: Bytes, txId: TxId, v: Verdict)
    requires i !in s.requests && r.Loaded?
    ensures var rs := AfterVerdict(s.requests[i := r], i, wallet, txId, v);
            if v.Verified? then
              i in rs && rs[i] == Checked(r.nonce, r.challenge, Settlement(wallet, txId, v.groupId), v.paymentId)
            else rs == s.requests
  {
    assert s.requests[i := r] - {i} == s.requests;
  }

  /** That a transaction settled a challenge before does not matter. In every reachable state, one request
      by itself, on any challenge and with the proof of an earlier event, settles that challenge too, exactly
      when the challenge is pending, unexpired and for the same artwork, the group of the proof pays its
      receiver its amount, and the wallet still owns the artwork; if not, it writes no event. The chain pays
      nothing new either way. */
  lemma UsedProofSettlesExactly(s: Sys, e: Event, i: nat, nonce: string, now: string, listing: seq<IndexedTxn>)
    requires SysOk(s) && Proved(s) && e in s.db.events && e.Transferred?
    requires i !in s.requests && nonce in s.db.challenges
    requires Lists(s.chain.log, e.settlement.txId.group, listing)
    ensures var s', ch := Run(s, OneRequest(i, nonce, now, e.settlement, listing)), s.db.challenges[nonce];
            var again := CheckChallenge(Some(ch), now) == None && GoodFor(s.chain, e, ch);
            && s'.chain == s.chain
            && |s'.db.events| == |s.db.events| + (if again then 1 else 0)
            && (again ==> var f := s'.db.events[|s.db.events|];
                          f.Transferred? && f.nonce == nonce && f.settlement.txId == e.settlement.txId)
            && TotalSettled(ch.receiver, s'.db) == TotalSettled(ch.receiver, s.db) + (if again then ch.amount else 0)
  {
    var ch := s.db.challenges[nonce];
    var s1 := Apply(s, Load(i, nonce, now));
    var s2 := Apply(s1, Check(i, e.settlement.wallet, e.settlement.txId, listing));
    LoadAlone(s, i, nonce, now);
    RunOfFour(s, Load(i, nonce, now), Check(i, e.settlement.wallet, e.settlement.txId, listing), Mark(i), Persist(i, now));
    NothingLeft(s, i, now, e.settlement.wallet, e.settlement.txId, listing);
    if CheckChallenge(Some(ch), now) == None {
      UsedProofGoesThrough(s, e, i, nonce, now, listing);
      if GoodFor(s.chain, e, ch) {
        MarkAndPersist(s2, i, now);
      }
    }
  }
}
