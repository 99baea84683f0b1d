/** Verification of a payment proof (HTTP 402, section 15.5.3 of RFC 9110) against the chain. */
module X402 {
  import opened Wrappers
  import opened Marketplace
  import opened ArtworkId
  import Clock

  /** A transaction id, as the place of the transaction in the log. */
  datatype TxId = TxId(group: nat, index: nat)

  /** A transaction record as the indexer returns it; single transactions carry no group. */
  datatype IndexedTxn = IndexedTxn(id: TxId, confirmed: bool, txn: Txn, groupId: Option<nat>)

  datatype Settlement = Settlement(wallet: Bytes, txId: TxId, groupId: nat)

  /** A challenge row; `settled` holds the columns written with status 'settled', None is 'pending'. */
  datatype Challenge = Challenge(
    artworkId: int, acquisitionId: string, collectorName: string, collectorEmail: string,
    amount: nat, receiver: Bytes, appId: nat, expiresAt: string, settled: Option<Settlement>)

  datatype Reason =
    | ChallengeNotFound | ChallengeAlreadyUsed | ChallengeExpired
    | TransactionNotFound | TransactionNotConfirmed | WalletAddressMismatch | AppIdMismatch
    | MissingAppArguments | UnexpectedMethodSelector | ArtworkIdMismatch | MissingGroupId
    | GroupedPaymentNotFound | OwnerBoxLookupFailed | OwnershipNotUpdated

  /** `Raised`: the argument does not decode, and the exception is not caught. */
  datatype Verdict = Verified(paymentId: TxId, groupId: nat) | Rejected(reason: Reason) | Raised

  // ------------------------------------------------------------ the payment search

  predicate PaysEnough(r: IndexedTxn, sender: Bytes, receiver: Bytes, minimum: nat) {
    r.txn.Payment? && r.txn.sender == sender && r.txn.receiver == receiver && r.txn.amount >= minimum
  }

  function FirstPayment(listing: seq<IndexedTxn>, sender: Bytes, receiver: Bytes, minimum: nat): (r: Option<IndexedTxn>)
    ensures r.Some? <==> exists k :: 0 <= k < |listing| && PaysEnough(listing[k], sender, receiver, minimum)
    ensures r.Some? ==> r.value in listing && PaysEnough(r.value, sender, receiver, minimum)
  {
    if listing == [] then None
    else if PaysEnough(listing[0], sender, receiver, minimum) then Some(listing[0])
    else FirstPayment(listing[1..], sender, receiver, minimum)
  }

  method FindMatchingPayment(listing: seq<IndexedTxn>, sender: Bytes, receiver: Bytes, minimum: nat)
    returns (r: Option<IndexedTxn>)
    ensures r == FirstPayment(listing, sender, receiver, minimum)
    ensures r.Some? ==> exists k :: 0 <= k < |listing| && listing[k] == r.value
                          && forall j :: 0 <= j < k ==> !PaysEnough(listing[j], sender, receiver, minimum)
  {
    for k := 0 to |listing|
      invariant FirstPayment(listing, sender, receiver, minimum) == FirstPayment(listing[k..], sender, receiver, minimum)
      invariant forall j :: 0 <= j < k ==> !PaysEnough(listing[j], sender, receiver, minimum)
    {
      var txn := listing[k].txn;
      if !txn.Payment? {
        continue;
      }
      if txn.sender != sender {
        continue;
      }
      if txn.receiver != receiver {
        continue;
      }
      if txn.amount < minimum {
        continue;
      }
      return Some(listing[k]);
    }
    return None;
  }

  // ------------------------------------------------------------ the checks in their order

  function CheckChallenge(challenge: Option<Challenge>, now: string): Option<Reason> {
    if challenge.None? then Some(ChallengeNotFound)
    else if challenge.value.settled.Some? then Some(ChallengeAlreadyUsed)
    else if Clock.IsExpired(challenge.value.expiresAt, now) then Some(ChallengeExpired)
    else None
  }

  /** The checks against the chain. A transaction that is no application call has app id 0 and no arguments. */
  function CheckProof(c: Challenge, wallet: Bytes, reply: Option<IndexedTxn>, listing: seq<IndexedTxn>, box: Option<Bytes>): Verdict {
    if reply.None? then Rejected(TransactionNotFound)
    else if !reply.value.confirmed then Rejected(TransactionNotConfirmed)
    else if reply.value.txn.sender != wallet then Rejected(WalletAddressMismatch)
    else
      var t := reply.value.txn;
      var appId, args := if t.AppCall? then t.appId else 0, if t.AppCall? then t.args else [];
      if appId != c.appId then Rejected(AppIdMismatch)
      else if |args| < 2 then Rejected(MissingAppArguments)
      else if args[0] != ACQUIRE then Rejected(UnexpectedMethodSelector)
      else if Arc4Decode(args[1]).None? then Raised
      else if Arc4Decode(args[1]).value != CanonicalBytes(c.artworkId) then Rejected(ArtworkIdMismatch)
      else if reply.value.groupId.None? then Rejected(MissingGroupId)
      else
        var payment := FirstPayment(listing, wallet, c.receiver, c.amount);
        if payment.None? then Rejected(GroupedPaymentNotFound)
        else if box.None? || |box.value| != 32 then Rejected(OwnerBoxLookupFailed)
        else if box.value != wallet then Rejected(OwnershipNotUpdated)
        else Verified(payment.value.id, reply.value.groupId.value)
  }

  function Verify(challenge: Option<Challenge>, now: string, wallet: Bytes,
                  reply: Option<IndexedTxn>, listing: seq<IndexedTxn>, box: Option<Bytes>): Verdict {
    var refused := CheckChallenge(challenge, now);
    if refused.Some? then Rejected(refused.value)
    else CheckProof(challenge.value, wallet, reply, listing, box)
  }

  /** For every answer of the indexer and the node, not only honest ones: what a verified proof had, check by
      check. An unconfirmed transaction is never verified. */
  lemma VerifiedMeans(c: Challenge, wallet: Bytes, reply: Option<IndexedTxn>, listing: seq<IndexedTxn>, box: Option<Bytes>)
    ensures var v := CheckProof(c, wallet, reply, listing, box);
            v.Verified? <==>
              && reply.Some? && reply.value.confirmed
              && reply.value.txn.sender == wallet && IsAcquire(c.appId, reply.value.txn)
              && Arc4Decode(reply.value.txn.args[1]) == Some(CanonicalBytes(c.artworkId))
              && reply.value.groupId.Some?
              && (exists k :: 0 <= k < |listing| && PaysEnough(listing[k], wallet, c.receiver, c.amount))
              && box == Some(wallet) && |wallet| == 32
    ensures var v := CheckProof(c, wallet, reply, listing, box);
            v.Verified? ==> reply.value.groupId == Some(v.groupId)
                            && exists k :: 0 <= k < |listing| && listing[k].id == v.paymentId
                                 && PaysEnough(listing[k], wallet, c.receiver, c.amount)
  {
  }

  /** Answers without a confirmed transaction, and a challenge that is not there. */
  lemma NothingToVerify(challenge: Option<Challenge>, now: string, wallet: Bytes, reply: Option<IndexedTxn>,
                        listing: seq<IndexedTxn>, box: Option<Bytes>)
    ensures var v := Verify(challenge, now, wallet, reply, listing, box);
            && (challenge.None? ==> v == Rejected(ChallengeNotFound))
            && (challenge.Some? && challenge.value.settled.Some? ==> v == Rejected(ChallengeAlreadyUsed))
            && (challenge.Some? && challenge.value.settled == None ==>
                  (&& (Clock.IsExpired(challenge.value.expiresAt, now) ==> v == Rejected(ChallengeExpired))
                   && (!Clock.IsExpired(challenge.value.expiresAt, now) ==>
                         (&& (reply.None? ==> v == Rejected(TransactionNotFound))
                          && (reply.Some? && !reply.value.confirmed ==> v == Rejected(TransactionNotConfirmed))))))
  {
  }

  // ------------------------------------------------------------ what the indexer and the node return

  predicate InLog(log: seq<Group>, id: TxId) {
    id.group < |log| && id.index < |log[id.group]|
  }

  function Record(log: seq<Group>, id: TxId): IndexedTxn
    requires InLog(log, id)
  {
    IndexedTxn(id, true, log[id.group][id.index], if |log[id.group]| >= 2 then Some(id.group) else None)
  }

  function Fetch(log: seq<Group>, id: TxId): Option<IndexedTxn> {
    if InLog(log, id) then Some(Record(log, id)) else None
  }

  /** A listing holds the records of one group and all of them, in any order. */
  ghost predicate Lists(log: seq<Group>, g: nat, listing: seq<IndexedTxn>) {
    && g < |log|
    && (forall k :: 0 <= k < |listing| ==>
          listing[k].id.group == g && InLog(log, listing[k].id) && listing[k] == Record(log, listing[k].id))
    && (forall i :: 0 <= i < |log[g]| ==> Record(log, TxId(g, i)) in listing)
  }

  /** The records of a group in their order. */
  function WholeGroup(log: seq<Group>, g: nat): (listing: seq<IndexedTxn>)
    requires g < |log|
    ensures Lists(log, g, listing)
  {
    var listing := seq(|log[g]|, k requires 0 <= k < |log[g]| => Record(log, TxId(g, k)));
    assert forall i :: 0 <= i < |log[g]| ==> listing[i] == Record(log, TxId(g, i));
    listing
  }

  /** The chain holds an acquire by this wallet at `id` that the contract took for this artwork. */
  ghost predicate Took(log: seq<Group>, appId: nat, id: TxId, wallet: Bytes, artworkId: int) {
    && InLog(log, id)
    && var t := log[id.group][id.index];
       t.sender == wallet && IsAcquire(appId, t) && KeyOf(t) == CanonicalBytes(artworkId)
  }

  /** And its argument is an ARC-4 string, so that the backend can read it. */
  ghost predicate Acquired(log: seq<Group>, appId: nat, id: TxId, wallet: Bytes, artworkId: int) {
    Took(log, appId, id, wallet, artworkId) && Arc4Decode(log[id.group][id.index].args[1]).Some?
  }

  ghost predicate Owns(m: Market, artworkId: int, wallet: Bytes) {
    CanonicalBytes(artworkId) in m.owner && m.owner[CanonicalBytes(artworkId)] == wallet
  }

  /** The challenge is for this application, pays its treasury and asks no more than the on-chain price. */
  ghost predicate Configured(c: Chain, ch: Challenge) {
    && ch.appId == c.appId && ch.receiver == c.market.treasury
    && CanonicalBytes(ch.artworkId) in c.market.price && ch.amount <= c.market.price[CanonicalBytes(ch.artworkId)]
  }

  // ------------------------------------------------------------ agreement

  /** A verified proof names a committed acquire of the wallet with a large enough payment in the same
      group, and the owner box that was read holds the wallet. The box is read from the challenge's own
      application; when that is the marketplace, the wallet owns the artwork there. */
  lemma VerifiedIsReal(c: Chain, challenge: Option<Challenge>, now: string, wallet: Bytes, id: TxId,
                       listing: seq<IndexedTxn>, box: Option<Bytes>)
    requires InLog(c.log, id) ==> Lists(c.log, id.group, listing)
    requires challenge.Some?
    requires challenge.value.appId == c.appId ==> box == ReadBox(c.market, OwnerBoxName(challenge.value.artworkId))
    requires Verify(challenge, now, wallet, Fetch(c.log, id), listing, box).Verified?
    ensures var ch := challenge.value;
            var v := Verify(challenge, now, wallet, Fetch(c.log, id), listing, box);
            && ch.settled == None && !Clock.IsExpired(ch.expiresAt, now)
            && Acquired(c.log, ch.appId, id, wallet, ch.artworkId)
            && v.groupId == id.group == v.paymentId.group && InLog(c.log, v.paymentId)
            && PaysEnough(Record(c.log, v.paymentId), wallet, ch.receiver, ch.amount)
            && box == Some(wallet) && (ch.appId == c.appId ==> Owns(c.market, ch.artworkId, wallet))
  {
    ReadOwnerBox(c.market, challenge.value.artworkId);
  }

  /** Some transaction of the group pays the receiver the amount from the wallet. */
  ghost predicate HoldsPayment(log: seq<Group>, g: nat, wallet: Bytes, receiver: Bytes, amount: nat) {
    g < |log| && exists i :: 0 <= i < |log[g]| && PaysEnough(Record(log, TxId(g, i)), wallet, receiver, amount)
  }

  /** The search finds a payment in any listing exactly when the group holds one. */
  lemma PaymentIsFound(log: seq<Group>, g: nat, listing: seq<IndexedTxn>, wallet: Bytes, receiver: Bytes, amount: nat)
    requires Lists(log, g, listing)
    ensures FirstPayment(listing, wallet, receiver, amount).Some? <==> HoldsPayment(log, g, wallet, receiver, amount)
  {
    var found := FirstPayment(listing, wallet, receiver, amount);
    if found.Some? {
      assert found.value == Record(log, TxId(g, found.value.id.index));
    }
    if HoldsPayment(log, g, wallet, receiver, amount) {
      var i :| 0 <= i < |log[g]| && PaysEnough(Record(log, TxId(g, i)), wallet, receiver, amount);
      assert Record(log, TxId(g, i)) in listing;
    }
  }

  /** What the checks against the chain come to, for every challenge on the deployed application: a
      committed, readable acquire of the artwork by the wallet, in a group that pays the challenge's receiver
      its amount, and a wallet that owns the artwork now. */
  lemma VerifiedExactly(c: Chain, ch: Challenge, wallet: Bytes, id: TxId, listing: seq<IndexedTxn>)
    requires ChainOk(c) && ch.appId == c.appId
    requires InLog(c.log, id) ==> Lists(c.log, id.group, listing)
    ensures CheckProof(ch, wallet, Fetch(c.log, id), listing, ReadBox(c.market, OwnerBoxName(ch.artworkId))).Verified?
       <==> && Acquired(c.log, c.appId, id, wallet, ch.artworkId)
            && HoldsPayment(c.log, id.group, wallet, ch.receiver, ch.amount)
            && Owns(c.market, ch.artworkId, wallet)
  {
    ReadOwnerBox(c.market, ch.artworkId);
    if Took(c.log, c.appId, id, wallet, ch.artworkId) {
      TakenIsBacked(c, id);
      PaymentIsFound(c.log, id.group, listing, wallet, ch.receiver, ch.amount);
    }
  }

  /** For a challenge on the deployed application that pays its treasury and asks no more than the
      on-chain price, the backend and the contract agree: verified exactly for a pending, unexpired
      challenge, a committed acquire of the artwork by the wallet, and a wallet that still owns it. */
  lemma Agreement(c: Chain, ch: Challenge, now: string, wallet: Bytes, id: TxId, listing: seq<IndexedTxn>)
    requires ChainOk(c) && Configured(c, ch)
    requires InLog(c.log, id) ==> Lists(c.log, id.group, listing)
    ensures Verify(Some(ch), now, wallet, Fetch(c.log, id), listing, ReadBox(c.market, OwnerBoxName(ch.artworkId))).Verified?
       <==> && ch.settled == None && !Clock.IsExpired(ch.expiresAt, now)
            && Acquired(c.log, c.appId, id, wallet, ch.artworkId)
            && Owns(c.market, ch.artworkId, wallet)
  {
    VerifiedExactly(c, ch, wallet, id, listing);
    if Took(c.log, c.appId, id, wallet, ch.artworkId) {
      ConfiguredIsPaid(c, ch, wallet, id);
    }
  }

  /** Every answer that an acquire the contract took can get, in the order of the checks: a settled or
      expired challenge, a challenge on another application, an argument whose length bytes are wrong, which
      the contract only cuts off and the backend raises on, a group that does not pay what the challenge
      asks, a wallet that has sold on, or success. */
  lemma AcquireIsAnswered(c: Chain, ch: Challenge, now: string, wallet: Bytes, id: TxId, listing: seq<IndexedTxn>)
    requires ChainOk(c) && Took(c.log, c.appId, id, wallet, ch.artworkId) && Lists(c.log, id.group, listing)
    ensures var v := Verify(Some(ch), now, wallet, Fetch(c.log, id), listing, ReadBox(c.market, OwnerBoxName(ch.artworkId)));
            if ch.settled.Some? then v == Rejected(ChallengeAlreadyUsed)
            else if Clock.IsExpired(ch.expiresAt, now) then v == Rejected(ChallengeExpired)
            else if ch.appId != c.appId then v == Rejected(AppIdMismatch)
            else if Arc4Decode(c.log[id.group][id.index].args[1]).None? then v == Raised
            else if !HoldsPayment(c.log, id.group, wallet, ch.receiver, ch.amount) then v == Rejected(GroupedPaymentNotFound)
            else if Owns(c.market, ch.artworkId, wallet) then v.Verified? && v.groupId == id.group
            else v == Rejected(OwnershipNotUpdated)
  {
    ReadOwnerBox(c.market, ch.artworkId);
    TakenIsBacked(c, id);
    PaymentIsFound(c.log, id.group, listing, wallet, ch.receiver, ch.amount);
  }

  /** Every answer to a transaction id, for a pending and unexpired challenge and whatever the log holds under
      the id: each reason in terms of the logged transaction. */
  lemma LogIsAnswered(c: Chain, ch: Challenge, now: string, wallet: Bytes, id: TxId, listing: seq<IndexedTxn>)
    requires ch.settled == None && !Clock.IsExpired(ch.expiresAt, now)
    requires InLog(c.log, id) ==> Lists(c.log, id.group, listing)
    ensures var v := Verify(Some(ch), now, wallet, Fetch(c.log, id), listing, ReadBox(c.market, OwnerBoxName(ch.artworkId)));
            if !InLog(c.log, id) then v == Rejected(TransactionNotFound)
            else
              var t := c.log[id.group][id.index];
              if t.sender != wallet then v == Rejected(WalletAddressMismatch)
              else if !t.AppCall? then v == Rejected(if ch.appId == 0 then MissingAppArguments else AppIdMismatch)
              else if t.appId != ch.appId then v == Rejected(AppIdMismatch)
              else if |t.args| < 2 then v == Rejected(MissingAppArguments)
              else if !IsAcquire(ch.appId, t) then v == Rejected(UnexpectedMethodSelector)
              else if Arc4Decode(t.args[1]).None? then v == Raised
              else if KeyOf(t) != CanonicalBytes(ch.artworkId) then v == Rejected(ArtworkIdMismatch)
              else if |c.log[id.group]| < 2 then v == Rejected(MissingGroupId)
              else if !HoldsPayment(c.log, id.group, wallet, ch.receiver, ch.amount) then v == Rejected(GroupedPaymentNotFound)
              else if CanonicalBytes(ch.artworkId) !in c.market.owner || |c.market.owner[CanonicalBytes(ch.artworkId)]| != 32
              then v == Rejected(OwnerBoxLookupFailed)
              else if !Owns(c.market, ch.artworkId, wallet) then v == Rejected(OwnershipNotUpdated)
              else v.Verified? && v.groupId == id.group && v.paymentId.group == id.group && InLog(c.log, v.paymentId)
                   && PaysEnough(Record(c.log, v.paymentId), wallet, ch.receiver, ch.amount)
  {
    ReadOwnerBox(c.market, ch.artworkId);
    if InLog(c.log, id) {
      PaymentIsFound(c.log, id.group, listing, wallet, ch.receiver, ch.amount);
      CutIsDecoded(c.log[id.group][id.index]);
    }
  }

  lemma CutIsDecoded(t: Txn)
    ensures t.AppCall? && |t.args| >= 2 && Arc4Decode(t.args[1]).Some? ==> Arc4Decode(t.args[1]) == Some(KeyOf(t))
  {
  }

  /** An acquire with two zero bytes for its length. */
  function UndecodedAcquire(c: Chain, artworkId: int, wallet: Bytes, price: nat): Group {
    [Payment(wallet, c.market.treasury, price), AppCall(wallet, c.appId, [ACQUIRE, [0, 0] + CanonicalBytes(artworkId)])]
  }

  /** The contract takes it for any artwork with a price and the wallet becomes the owner, but the
      backend raises on it, so its challenge is never settled. */
  lemma MovedButNeverSettled(c: Chain, ch: Challenge, now: string, wallet: Bytes, listing: seq<IndexedTxn>)
    requires ChainOk(c) && |wallet| == 32 && ch.appId == c.appId
    requires ch.settled == None && !Clock.IsExpired(ch.expiresAt, now)
    requires CanonicalBytes(ch.artworkId) in c.market.price && c.market.price[CanonicalBytes(ch.artworkId)] > 0
    ensures var group := UndecodedAcquire(c, ch.artworkId, wallet, c.market.price[CanonicalBytes(ch.artworkId)]);
            var c' := Submit(c, group);
            && c'.log == c.log + [group] && Owns(c'.market, ch.artworkId, wallet)
            && (Lists(c'.log, |c.log|, listing) ==>
                  Verify(Some(ch), now, wallet, Fetch(c'.log, TxId(|c.log|, 1)), listing,
                         ReadBox(c'.market, OwnerBoxName(ch.artworkId))) == Raised)
  {
    var key := CanonicalBytes(ch.artworkId);
    var group := UndecodedAcquire(c, ch.artworkId, wallet, c.market.price[key]);
    UndecodedIsTaken(c, key, wallet, c.market.price[key], group);
    var c' := Submit(c, group);
    CanonicalIsNotEmpty(ch.artworkId);
    assert HasSenders(group);
    SubmitKeeps(c, group);
    if Lists(c'.log, |c.log|, listing) {
      assert ArtworkKey([0, 0] + key) == key;
      AcquireIsAnswered(c', ch, now, wallet, TxId(|c.log|, 1), listing);
    }
  }

  lemma CanonicalIsNotEmpty(n: int)
    ensures CanonicalBytes(n) != []
  {
    CanonicalEnds(n);
  }

  lemma UndecodedIsTaken(c: Chain, key: Bytes, wallet: Bytes, price: nat, group: Group)
    requires MarketOk(c.market) && key in c.market.price && price == c.market.price[key] > 0
    requires group == [Payment(wallet, c.market.treasury, price), AppCall(wallet, c.appId, [ACQUIRE, [0, 0] + key])]
    ensures Submit(c, group) == Chain(c.appId, c.market.(owner := c.market.owner[key := wallet]), c.log + [group])
  {
    assert ArtworkKey([0, 0] + key) == key;
    assert ExecGroup(c.appId, c.market, group, 0) == Ok(c.market);
    assert ExecGroup(c.appId, c.market, group, 1) == Ok(c.market);
    assert IsAcquire(c.appId, group[1]) && KeyOf(group[1]) == key;
    assert ExecGroup(c.appId, c.market, group, 2) == ExecTxn(c.appId, c.market, group, 1);
  }

  /** The contract took an acquire only behind a payment of at least its price to the treasury, and only for
      a registered artwork. */
  lemma TakenIsBacked(c: Chain, id: TxId)
    requires ChainOk(c) && InLog(c.log, id) && IsAcquire(c.appId, c.log[id.group][id.index])
    ensures var t := c.log[id.group][id.index];
            && |t.sender| == 32 && |c.log[id.group]| >= 2
            && KeyOf(t) in c.market.price && KeyOf(t) in c.market.owner && c.market.price[KeyOf(t)] > 0
            && HoldsPayment(c.log, id.group, t.sender, c.market.treasury, c.market.price[KeyOf(t)])
  {
    var group := c.log[id.group];
    assert HasSenders(group) && GroupBacked(c.appId, c.market, group, |group|);
    assert Backed(c.market, group, id.index);
    assert PaysEnough(Record(c.log, TxId(id.group, id.index - 1)), group[id.index].sender, c.market.treasury,
                      c.market.price[KeyOf(group[id.index])]);
  }

  /** The payment the contract consumed is enough for a challenge of this configuration. */
  lemma ConfiguredIsPaid(c: Chain, ch: Challenge, wallet: Bytes, id: TxId)
    requires ChainOk(c) && Configured(c, ch) && Took(c.log, c.appId, id, wallet, ch.artworkId)
    ensures HoldsPayment(c.log, id.group, wallet, ch.receiver, ch.amount)
  {
    var key := CanonicalBytes(ch.artworkId);
    TakenIsBacked(c, id);
    PaidIsPaid(c.log, id.group, wallet, ch.receiver, c.market.price[key], ch.amount);
  }

  lemma PaidIsPaid(log: seq<Group>, g: nat, wallet: Bytes, receiver: Bytes, amount: nat, less: nat)
    requires HoldsPayment(log, g, wallet, receiver, amount) && less <= amount
    ensures HoldsPayment(log, g, wallet, receiver, less)
  {
    var i :| 0 <= i < |log[g]| && PaysEnough(Record(log, TxId(g, i)), wallet, receiver, amount);
    assert PaysEnough(Record(log, TxId(g, i)), wallet, receiver, less);
  }
}
