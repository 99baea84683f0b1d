/** The marketplace contract, and the chain as the log of the atomic groups it let through. */
module Marketplace {
  import opened Wrappers
  import opened ArtworkId
  import Numerals

  type Bytes = seq<byte>

  /** A transaction of a group: a payment, an application call, or one that touches neither. */
  datatype Txn =
    | Payment(sender: Bytes, receiver: Bytes, amount: nat)
    | AppCall(sender: Bytes, appId: nat, args: seq<Bytes>)
    | Other(sender: Bytes)

  type Group = seq<Txn>

  /** Global state and the three box maps. */
  datatype Market = Market(
    admin: Bytes, treasury: Bytes,
    owner: map<Bytes, Bytes>, price: map<Bytes, nat>, creator: map<Bytes, Bytes>)

  datatype Failure =
    | BadCall | BadArguments | AlreadyRegistered | ArtworkNotFound | PriceNotSet
    | GroupedPaymentRequired | PaymentMustPrecede | NotAPayment
    | SenderMismatch | BadReceiver | InsufficientPayment

  /** Method selectors: the first four bytes of SHA-512/256 of each ABI signature. */
  const ACQUIRE: Bytes := [69, 206, 248, 19]
  const REGISTER: Bytes := [138, 92, 83, 14]
  const GET_OWNER: Bytes := [72, 252, 172, 206]
  const GET_PRICE: Bytes := [126, 171, 15, 63]

  function Get<V>(m: map<Bytes, V>, key: Bytes, default: V): V {
    if key in m then m[key] else default
  }

  // ------------------------------------------------------------ one call

  /** `acquire` at position i of its group. */
  function AcquireOutcome(m: Market, group: Group, i: nat, key: Bytes): Result<Market, Failure>
    requires i < |group|
  {
    var sender := group[i].sender;
    if Get(m.owner, key, []) == [] then Err(ArtworkNotFound)
    else if Get(m.price, key, 0) == 0 then Err(PriceNotSet)
    else if |group| < 2 then Err(GroupedPaymentRequired)
    else if i == 0 then Err(PaymentMustPrecede)
    else if !group[i - 1].Payment? then Err(NotAPayment)
    else if group[i - 1].sender != sender then Err(SenderMismatch)
    else if group[i - 1].receiver != m.treasury && group[i - 1].receiver != m.admin then Err(BadReceiver)
    else if group[i - 1].amount < Get(m.price, key, 0) then Err(InsufficientPayment)
    else Ok(m.(owner := m.owner[key := sender]))
  }

  function RegisterOutcome(m: Market, key: Bytes, did: Bytes, owner: Bytes, price: nat): Result<Market, Failure> {
    if Get(m.owner, key, []) != [] then Err(AlreadyRegistered)
    else Ok(m.(creator := m.creator[key := did], owner := m.owner[key := owner], price := m.price[key := price]))
  }

  /** When an acquire succeeds, what it changes, and what each failure means. */
  lemma AcquireExactly(m: Market, group: Group, i: nat, key: Bytes)
    requires i < |group|
    ensures var r := AcquireOutcome(m, group, i, key);
            var registered, price := key in m.owner && m.owner[key] != [], if key in m.price then m.price[key] else 0;
            var before := i > 0 && group[i - 1].Payment?;
            && (r.Ok? <==> && registered && price > 0 && before && group[i - 1].sender == group[i].sender
                           && (group[i - 1].receiver == m.treasury || group[i - 1].receiver == m.admin)
                           && group[i - 1].amount >= price)
            && (r.Ok? ==> r.value == Market(m.admin, m.treasury, m.owner[key := group[i].sender], m.price, m.creator))
            && (r == Err(ArtworkNotFound) <==> !registered)
            && (r == Err(PriceNotSet) <==> registered && price == 0)
            && (r == Err(GroupedPaymentRequired) <==> registered && price > 0 && |group| == 1)
            && (r == Err(PaymentMustPrecede) <==> registered && price > 0 && |group| > 1 && i == 0)
            && (r == Err(NotAPayment) <==> registered && price > 0 && i > 0 && !before)
            && (r == Err(SenderMismatch) <==> registered && price > 0 && before && group[i - 1].sender != group[i].sender)
            && (r == Err(BadReceiver) <==>
                  && registered && price > 0 && before && group[i - 1].sender == group[i].sender
                  && group[i - 1].receiver != m.treasury && group[i - 1].receiver != m.admin)
            && (r == Err(InsufficientPayment) <==>
                  && registered && price > 0 && before && group[i - 1].sender == group[i].sender
                  && (group[i - 1].receiver == m.treasury || group[i - 1].receiver == m.admin) && group[i - 1].amount < price)
  {
  }

  /** The contract object: its methods change the fields in place or fail and change nothing. */
  class ArtworkMarketplace {
    var admin: Bytes
    var treasury: Bytes
    var artworkOwner: map<Bytes, Bytes>
    var artworkPrice: map<Bytes, nat>
    var artworkCreatorDid: map<Bytes, Bytes>

    function Contents(): Market
      reads this
    {
      Market(admin, treasury, artworkOwner, artworkPrice, artworkCreatorDid)
    }

    constructor Create(sender: Bytes)
      ensures Contents() == Market(sender, sender, map[], map[], map[])
    {
      admin := sender;
      treasury := sender;
      artworkOwner := map[];
      artworkPrice := map[];
      artworkCreatorDid := map[];
    }

    method RegisterArtwork(artworkId: Bytes, creatorDid: Bytes, initialOwner: Bytes, price: nat)
      returns (failure: Option<Failure>)
      modifies this
      ensures var r := RegisterOutcome(old(Contents()), ArtworkKey(artworkId), ArtworkKey(creatorDid), initialOwner, price);
              match r
              case Ok(m) => failure == None && Contents() == m
              case Err(f) => failure == Some(f) && Contents() == old(Contents())
    {
      var key := ArtworkKey(artworkId);
      if Get(artworkOwner, key, []) != [] {
        return Some(AlreadyRegistered);
      }
      artworkCreatorDid := artworkCreatorDid[key := ArtworkKey(creatorDid)];
      artworkOwner := artworkOwner[key := initialOwner];
      artworkPrice := artworkPrice[key := price];
      return None;
    }

    method GetOwner(artworkId: Bytes) returns (owner: Option<Bytes>)
      ensures owner == if Get(artworkOwner, ArtworkKey(artworkId), []) == [] then None
                       else Some(artworkOwner[ArtworkKey(artworkId)])
    {
      var stored := Get(artworkOwner, ArtworkKey(artworkId), []);
      return if stored == [] then None else Some(stored);
    }

    method Acquire(group: Group, i: nat, artworkId: Bytes) returns (failure: Option<Failure>)
      requires i < |group|
      modifies this
      ensures match AcquireOutcome(old(Contents()), group, i, ArtworkKey(artworkId))
              case Ok(m) => failure == None && Contents() == m
              case Err(f) => failure == Some(f) && Contents() == old(Contents())
    {
      var key := ArtworkKey(artworkId);
      var sender := group[i].sender;
      if Get(artworkOwner, key, []) == [] {
        return Some(ArtworkNotFound);
      }
      var price := Get(artworkPrice, key, 0);
      if price == 0 {
        return Some(PriceNotSet);
      }
      if |group| < 2 {
        return Some(GroupedPaymentRequired);
      }
      if i == 0 {
        return Some(PaymentMustPrecede);
      }
      var payment := group[i - 1];
      if !payment.Payment? {
        return Some(NotAPayment);
      }
      if payment.sender != sender {
        return Some(SenderMismatch);
      }
      if !(payment.receiver == treasury || payment.receiver == admin) {
        return Some(BadReceiver);
      }
      if payment.amount < price {
        return Some(InsufficientPayment);
      }
      artworkOwner := artworkOwner[key := sender];
      return None;
    }
  }

  // ------------------------------------------------------------ groups and the chain

  predicate IsCall(appId: nat, t: Txn, selector: Bytes) {
    t.AppCall? && t.appId == appId && |t.args| > 0 && t.args[0] == selector
  }

  /** An `acquire` call of this application with its argument present. */
  predicate IsAcquire(appId: nat, t: Txn) {
    IsCall(appId, t, ACQUIRE) && |t.args| >= 2
  }

  /** A `register_artwork` call whose last two arguments have the sizes of an address and a uint64. */
  predicate IsRegister(appId: nat, t: Txn) {
    IsCall(appId, t, REGISTER) && |t.args| >= 5 && |t.args[3]| == 32 && |t.args[4]| == 8
  }

  function KeyOf(t: Txn): Bytes
    requires t.AppCall? && |t.args| >= 2
  {
    ArtworkKey(t.args[1])
  }

  /** The effect of the transaction at position i. Transactions of other applications have none here. */
  function ExecTxn(appId: nat, m: Market, group: Group, i: nat): Result<Market, Failure>
    requires i < |group|
  {
    var t := group[i];
    if !t.AppCall? || t.appId != appId then Ok(m)
    else if |t.args| == 0 then Err(BadCall)
    else if t.args[0] == ACQUIRE then
      if IsAcquire(appId, t) then AcquireOutcome(m, group, i, KeyOf(t)) else Err(BadArguments)
    else if t.args[0] == REGISTER then
      if IsRegister(appId, t) then
        RegisterOutcome(m, KeyOf(t), ArtworkKey(t.args[2]), t.args[3], Numerals.Value(256, t.args[4]))
      else Err(BadArguments)
    else if t.args[0] == GET_OWNER || t.args[0] == GET_PRICE then
      if |t.args| >= 2 && Get(m.owner, KeyOf(t), []) != [] then Ok(m) else Err(ArtworkNotFound)
    else Err(BadCall)
  }

  /** What a transaction does by its kind: only calls of this application matter, an unknown method or missing
      arguments fail, the two getters need a registered artwork and change nothing, and a registration needs a
      new key. */
  lemma CallExactly(appId: nat, m: Market, group: Group, i: nat)
    requires i < |group|
    ensures var t, r := group[i], ExecTxn(appId, m, group, i);
            if !t.AppCall? || t.appId != appId then r == Ok(m)
            else if |t.args| == 0 || t.args[0] !in [ACQUIRE, REGISTER, GET_OWNER, GET_PRICE] then r == Err(BadCall)
            else if t.args[0] == ACQUIRE then
              if |t.args| < 2 then r == Err(BadArguments) else r == AcquireOutcome(m, group, i, ArtworkKey(t.args[1]))
            else if t.args[0] == REGISTER then
              if |t.args| < 5 || |t.args[3]| != 32 || |t.args[4]| != 8 then r == Err(BadArguments)
              else
                var key := ArtworkKey(t.args[1]);
                if key in m.owner && m.owner[key] != [] then r == Err(AlreadyRegistered)
                else r == Ok(Market(m.admin, m.treasury, m.owner[key := t.args[3]],
                                    m.price[key := Numerals.Value(256, t.args[4])], m.creator[key := ArtworkKey(t.args[2])]))
            else if |t.args| >= 2 && ArtworkKey(t.args[1]) in m.owner && m.owner[ArtworkKey(t.args[1])] != [] then r == Ok(m)
            else r == Err(ArtworkNotFound)
  {
  }

  /** A group commits exactly if each of its transactions succeeds on what those before it left. */
  lemma {:induction false} GroupExactly(appId: nat, m: Market, group: Group, n: nat)
    requires n <= |group|
    ensures ExecGroup(appId, m, group, 0) == Ok(m)
    ensures ExecGroup(appId, m, group, n).Ok? <==>
            forall i :: 0 <= i < n ==>
              ExecGroup(appId, m, group, i).Ok? && ExecTxn(appId, ExecGroup(appId, m, group, i).value, group, i).Ok?
    ensures n > 0 && ExecGroup(appId, m, group, n).Ok? ==>
              ExecGroup(appId, m, group, n) == ExecTxn(appId, ExecGroup(appId, m, group, n - 1).value, group, n - 1)
  {
    if n > 0 {
      GroupExactly(appId, m, group, n - 1);
    }
  }

  /** The first n transactions in order; one failure fails the group. */
  function ExecGroup(appId: nat, m: Market, group: Group, n: nat): Result<Market, Failure>
    requires n <= |group|
  {
    if n == 0 then Ok(m)
    else
      var r := ExecGroup(appId, m, group, n - 1);
      if r.Err? then r else ExecTxn(appId, r.value, group, n - 1)
  }

  /** The application's state and the log of committed groups. */
  datatype Chain = Chain(appId: nat, market: Market, log: seq<Group>)

  function Deploy(appId: nat, sender: Bytes): Chain {
    Chain(appId, Market(sender, sender, map[], map[], map[]), [])
  }

  /** Atomic submission: all of the group, or nothing and no log entry. */
  function Submit(c: Chain, group: Group): Chain {
    var r := ExecGroup(c.appId, c.market, group, |group|);
    if r.Ok? then Chain(c.appId, r.value, c.log + [group]) else c
  }

  function RunGroups(appId: nat, sender: Bytes, groups: seq<Group>): Chain {
    if groups == [] then Deploy(appId, sender)
    else Submit(RunGroups(appId, sender, groups[..|groups| - 1]), groups[|groups| - 1])
  }

  // ------------------------------------------------------------ what every run keeps

  /** The payment in front of the acquire at position i of `group` covers its price. */
  ghost predicate Backed(m: Market, group: Group, i: nat)
    requires i < |group| && group[i].AppCall? && |group[i].args| >= 2
  {
    && |group| >= 2 && i > 0 && group[i - 1].Payment?
    && group[i - 1].sender == group[i].sender
    && group[i - 1].receiver == m.treasury
    && KeyOf(group[i]) in m.price
    && 0 < m.price[KeyOf(group[i])] <= group[i - 1].amount
  }

  /** Same boxes in all three maps, every owner an account key, one beneficiary. */
  ghost predicate MarketOk(m: Market) {
    && m.owner.Keys == m.price.Keys == m.creator.Keys
    && m.admin == m.treasury
    && (forall k :: k in m.owner ==> |m.owner[k]| == 32)
  }

  /** Later states keep every price, every creator, the administrator and the treasury. */
  ghost predicate Keeps(m: Market, m': Market) {
    && m'.admin == m.admin && m'.treasury == m.treasury
    && (forall k :: k in m.price ==> k in m'.price && m'.price[k] == m.price[k])
    && (forall k :: k in m.creator ==> k in m'.creator && m'.creator[k] == m.creator[k])
  }

  ghost predicate GroupBacked(appId: nat, m: Market, group: Group, n: nat)
    requires n <= |group|
  {
    forall i :: 0 <= i < n && IsAcquire(appId, group[i]) ==> Backed(m, group, i)
  }

  ghost predicate ChainOk(c: Chain) {
    && MarketOk(c.market)
    && (forall g :: 0 <= g < |c.log| ==> HasSenders(c.log[g]) && GroupBacked(c.appId, c.market, c.log[g], |c.log[g]|))
  }

  /** Senders are 32-byte account keys. */
  ghost predicate HasSenders(group: Group) {
    forall i :: 0 <= i < |group| ==> |group[i].sender| == 32
  }

  lemma ExecTxnKeeps(appId: nat, m: Market, group: Group, i: nat)
    requires i < |group| && HasSenders(group) && MarketOk(m)
    requires ExecTxn(appId, m, group, i).Ok?
    ensures var m' := ExecTxn(appId, m, group, i).value;
            MarketOk(m') && Keeps(m, m') && (IsAcquire(appId, group[i]) ==> Backed(m', group, i))
  {
  }

  lemma {:induction false} ExecGroupKeeps(appId: nat, m: Market, group: Group, n: nat)
    requires n <= |group| && HasSenders(group) && MarketOk(m)
    requires ExecGroup(appId, m, group, n).Ok?
    ensures var m' := ExecGroup(appId, m, group, n).value;
            MarketOk(m') && Keeps(m, m') && GroupBacked(appId, m', group, n)
  {
    if n > 0 {
      ExecGroupKeeps(appId, m, group, n - 1);
      ExecTxnKeeps(appId, ExecGroup(appId, m, group, n - 1).value, group, n - 1);
    }
  }

  lemma SubmitKeeps(c: Chain, group: Group)
    requires ChainOk(c) && HasSenders(group)
    ensures ChainOk(Submit(c, group)) && Keeps(c.market, Submit(c, group).market)
  {
    var c' := Submit(c, group);
    if c'.log != c.log {
      ExecGroupKeeps(c.appId, c.market, group, |group|);
      forall g | 0 <= g < |c'.log| ensures GroupBacked(c.appId, c'.market, c'.log[g], |c'.log[g]|) {
        if g < |c.log| {
          assert GroupBacked(c.appId, c.market, c.log[g], |c.log[g]|);
        }
      }
    }
  }

  /** Every run: each committed acquire at index i has the sender's sufficient payment at i - 1,
      and owner, price and creator boxes exist for the same artworks. */
  lemma {:induction false} RunKeeps(appId: nat, sender: Bytes, groups: seq<Group>)
    requires forall g :: 0 <= g < |groups| ==> HasSenders(groups[g])
    ensures ChainOk(RunGroups(appId, sender, groups))
    ensures RunGroups(appId, sender, groups).market.treasury == sender
    ensures RunGroups(appId, sender, groups).appId == appId
  {
    if groups != [] {
      var init := groups[..|groups| - 1];
      RunKeeps(appId, sender, init);
      SubmitKeeps(RunGroups(appId, sender, init), groups[|groups| - 1]);
    }
  }

  /** Over any later run prices and creators of registered artworks stay, and the log only grows. */
  lemma {:induction false} RunIsStable(appId: nat, sender: Bytes, groups: seq<Group>, k: nat)
    requires k <= |groups| && forall g :: 0 <= g < |groups| ==> HasSenders(groups[g])
    ensures Keeps(RunGroups(appId, sender, groups[..k]).market, RunGroups(appId, sender, groups).market)
    ensures RunGroups(appId, sender, groups[..k]).log <= RunGroups(appId, sender, groups).log
  {
    if k == |groups| {
      assert groups[..k] == groups;
    } else {
      var init := groups[..|groups| - 1];
      RunIsStable(appId, sender, init, k);
      assert init[..k] == groups[..k];
      RunKeeps(appId, sender, init);
      SubmitKeeps(RunGroups(appId, sender, init), groups[|groups| - 1]);
    }
  }

  // ------------------------------------------------------------ conservation

  /** What the first n transactions of a group pay to `account`. */
  function PaidTo(account: Bytes, group: Group, n: nat): nat
    requires n <= |group|
  {
    if n == 0 then 0
    else PaidTo(account, group, n - 1) +
         (if group[n - 1].Payment? && group[n - 1].receiver == account then group[n - 1].amount else 0)
  }

  /** The prices of the artworks the first n transactions acquire. */
  function Due(appId: nat, m: Market, group: Group, n: nat): nat
    requires n <= |group|
  {
    if n == 0 then 0
    else Due(appId, m, group, n - 1) +
         (if IsAcquire(appId, group[n - 1]) then Get(m.price, KeyOf(group[n - 1]), 0) else 0)
  }

  function TotalPaidTo(account: Bytes, log: seq<Group>): nat {
    if log == [] then 0
    else TotalPaidTo(account, log[..|log| - 1]) + PaidTo(account, log[|log| - 1], |log[|log| - 1]|)
  }

  function TotalDue(appId: nat, m: Market, log: seq<Group>): nat {
    if log == [] then 0
    else TotalDue(appId, m, log[..|log| - 1]) + Due(appId, m, log[|log| - 1], |log[|log| - 1]|)
  }

  /** A payment in the last position is still unused, so it is not counted yet. */
  lemma {:induction false} GroupPays(appId: nat, m: Market, group: Group, n: nat)
    requires n <= |group| && GroupBacked(appId, m, group, |group|)
    ensures PaidTo(m.treasury, group, n) >= Due(appId, m, group, n) +
              (if n > 0 && group[n - 1].Payment? && group[n - 1].receiver == m.treasury then group[n - 1].amount else 0)
  {
    if n > 0 {
      GroupPays(appId, m, group, n - 1);
    }
  }

  lemma {:induction false} LogPays(appId: nat, m: Market, log: seq<Group>)
    requires forall g :: 0 <= g < |log| ==> GroupBacked(appId, m, log[g], |log[g]|)
    ensures TotalPaidTo(m.treasury, log) >= TotalDue(appId, m, log)
  {
    if log != [] {
      LogPays(appId, m, log[..|log| - 1]);
      GroupPays(appId, m, log[|log| - 1], |log[|log| - 1]|);
    }
  }

  /** Over every run the deployer's account received at least the prices of all acquisitions. */
  lemma RunPays(appId: nat, sender: Bytes, groups: seq<Group>)
    requires forall g :: 0 <= g < |groups| ==> HasSenders(groups[g])
    ensures var c := RunGroups(appId, sender, groups);
            TotalPaidTo(sender, c.log) >= TotalDue(appId, c.market, c.log)
  {
    RunKeeps(appId, sender, groups);
    var c := RunGroups(appId, sender, groups);
    LogPays(appId, c.market, c.log);
  }

  // ------------------------------------------------------------ the boxes as a fold of the log

  datatype Artwork = Artwork(owner: Bytes, price: nat, creator: Bytes)

  /** What one logged transaction means for an artwork: the first registration sets it, acquires
      change the owner only. */
  function Replay1(appId: nat, t: Txn, key: Bytes, was: Option<Artwork>): Option<Artwork> {
    if IsRegister(appId, t) && KeyOf(t) == key && was.None? then
      Some(Artwork(t.args[3], Numerals.Value(256, t.args[4]), ArtworkKey(t.args[2])))
    else if IsAcquire(appId, t) && KeyOf(t) == key && was.Some? then
      Some(was.value.(owner := t.sender))
    else was
  }

  function ReplayGroup(appId: nat, group: Group, n: nat, key: Bytes, was: Option<Artwork>): Option<Artwork>
    requires n <= |group|
  {
    if n == 0 then was else Replay1(appId, group[n - 1], key, ReplayGroup(appId, group, n - 1, key, was))
  }

  function ReplayLog(appId: nat, log: seq<Group>, key: Bytes): Option<Artwork> {
    if log == [] then None
    else
      var last := log[|log| - 1];
      ReplayGroup(appId, last, |last|, key, ReplayLog(appId, log[..|log| - 1], key))
  }

  function Lookup(m: Market, key: Bytes): Option<Artwork> {
    if key in m.owner && key in m.price && key in m.creator
    then Some(Artwork(m.owner[key], m.price[key], m.creator[key]))
    else None
  }

  lemma TxnReplays(appId: nat, m: Market, group: Group, i: nat, key: Bytes)
    requires i < |group| && MarketOk(m) && ExecTxn(appId, m, group, i).Ok?
    ensures Lookup(ExecTxn(appId, m, group, i).value, key) == Replay1(appId, group[i], key, Lookup(m, key))
  {
  }

  lemma {:induction false} ExecReplays(appId: nat, m: Market, group: Group, n: nat, key: Bytes)
    requires n <= |group| && HasSenders(group) && MarketOk(m)
    requires ExecGroup(appId, m, group, n).Ok?
    ensures Lookup(ExecGroup(appId, m, group, n).value, key) == ReplayGroup(appId, group, n, key, Lookup(m, key))
  {
    if n > 0 {
      ExecReplays(appId, m, group, n - 1, key);
      ExecGroupKeeps(appId, m, group, n - 1);
      TxnReplays(appId, ExecGroup(appId, m, group, n - 1).value, group, n - 1, key);
    }
  }

  lemma SubmitReplays(c: Chain, group: Group, key: Bytes)
    requires ChainOk(c) && HasSenders(group) && Lookup(c.market, key) == ReplayLog(c.appId, c.log, key)
    ensures Lookup(Submit(c, group).market, key) == ReplayLog(c.appId, Submit(c, group).log, key)
  {
    if ExecGroup(c.appId, c.market, group, |group|).Ok? {
      ExecReplays(c.appId, c.market, group, |group|, key);
      assert (c.log + [group])[..|c.log|] == c.log;
    }
  }

  /** The boxes of an artwork are the fold of the registrations and acquires in the log. */
  lemma {:induction false} RunReplays(appId: nat, sender: Bytes, groups: seq<Group>, key: Bytes)
    requires forall g :: 0 <= g < |groups| ==> HasSenders(groups[g])
    ensures var c := RunGroups(appId, sender, groups);
            Lookup(c.market, key) == ReplayLog(appId, c.log, key)
  {
    if groups != [] {
      var init := groups[..|groups| - 1];
      RunReplays(appId, sender, init, key);
      RunKeeps(appId, sender, init);
      SubmitReplays(RunGroups(appId, sender, init), groups[|groups| - 1], key);
    }
  }

  // ------------------------------------------------------------ boxes by name

  /** The owner stored under this box name, if it is an owner box. */
  function ReadBox(m: Market, name: Bytes): Option<Bytes> {
    var prefix := Utf8("owner:");
    if prefix <= name && name[|prefix|..] in m.owner then Some(m.owner[name[|prefix|..]]) else None
  }

  lemma AfterPrefix(prefix: Bytes, rest: Bytes)
    ensures prefix <= prefix + rest && (prefix + rest)[|prefix|..] == rest
  {
  }

  lemma ReadOwnerBox(m: Market, n: int)
    ensures ReadBox(m, OwnerBoxName(n)) ==
            if CanonicalBytes(n) in m.owner then Some(m.owner[CanonicalBytes(n)]) else None
  {
    CanonicalIsAscii(n);
    Utf8Append("owner:", CanonicalNumber(n));
    AfterPrefix(Utf8("owner:"), CanonicalBytes(n));
  }
}
