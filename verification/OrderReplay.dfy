/** How often the Razorpay path can record one order: nothing tests whether it is paid already, and the
    provider's signature over order and payment stays valid. */
module OrderReplay {
  import opened Wrappers
  import opened Marketplace
  import opened PaymentStore
  import opened PaymentRuns
  import DoubleSettlement

  function Records(events: seq<Event>, orderId: string): nat {
    if events == [] then 0
    else
      var e := events[|events| - 1];
      Records(events[..|events| - 1], orderId) + (if e.Recorded? && e.orderId == orderId then 1 else 0)
  }

  lemma RecordsAppend(events: seq<Event>, e: Event, orderId: string)
    ensures Records(events + [e], orderId) == Records(events, orderId) + (if e.Recorded? && e.orderId == orderId then 1 else 0)
  {
    assert (events + [e])[..|events|] == events;
  }

  function RecordCount(s: Sys, orderId: string): nat {
    Records(s.db.events, orderId)
  }

  /** Requests that verified the provider's signature on the order and fetched its acquisition. */
  ghost function Fetching(s: Sys, orderId: string): set<nat> {
    set i | i in s.requests && s.requests[i].Fetched? && s.requests[i].orderId == orderId
  }

  /** Every step that does not create the order; a request on it starts only if a valid signature for it is
      known. */
  predicate Continues(step: Step, orderId: string, signed: bool) {
    && (step.Order? ==> step.orderId != orderId)
    && (step.FetchOrder? && step.orderId == orderId ==> signed)
  }

  ghost predicate Continuation(steps: seq<Step>, orderId: string, signed: bool) {
    forall k :: 0 <= k < |steps| ==> Continues(steps[k], orderId, signed)
  }

  ghost predicate Exists(s: Sys, orderId: string) {
    OrderAcquisition(s.db, orderId).Some?
  }

  // ------------------------------------------------------------ no more records than fetched requests

  lemma FewerFetching(s: Sys, s': Sys, orderId: string)
    requires forall i :: i in Fetching(s', orderId) ==> i in s.requests && s'.requests[i] == s.requests[i]
    ensures |Fetching(s', orderId)| <= |Fetching(s, orderId)|
  {
    DoubleSettlement.FewerOf(Fetching(s', orderId), Fetching(s, orderId));
  }

  lemma RecordBound(s: Sys, i: nat, razorpayId: string, now: string, orderId: string)
    requires i in s.requests && s.requests[i].Fetched?
    ensures var s' := Apply(s, Record(i, razorpayId, now));
            && Fetching(s', orderId) == Fetching(s, orderId) - {i}
            && RecordCount(s', orderId) == RecordCount(s, orderId) + (if i in Fetching(s, orderId) then 1 else 0)
  {
    var r := s.requests[i];
    RecordsAppend(s.db.events, Recorded(r.artworkId, now, r.orderId, razorpayId), orderId);
  }

  lemma PersistBound(s: Sys, i: nat, now: string, orderId: string)
    ensures RecordCount(Apply(s, Persist(i, now)), orderId) == RecordCount(s, orderId)
  {
    if i in s.requests && s.requests[i].Marked? {
      var r := s.requests[i];
      RecordsAppend(s.db.events, Transferred(r.challenge.artworkId, now, r.nonce, r.settlement, r.paymentId), orderId);
    }
  }

  lemma NoNewFetch(s: Sys, step: Step, orderId: string)
    requires step.FetchOrder? && step.orderId == orderId ==> !Exists(s, orderId)
    ensures forall i :: i in Fetching(Apply(s, step), orderId) ==> i in s.requests && Apply(s, step).requests[i] == s.requests[i]
  {
  }

  lemma NoNewRecord(s: Sys, step: Step, orderId: string)
    requires !step.Record?
    ensures RecordCount(Apply(s, step), orderId) == RecordCount(s, orderId)
  {
    if step.Persist? {
      PersistBound(s, step.request, step.now, orderId);
    }
  }

  /** An order that does not exist is created by nothing but the step that creates it. */
  lemma StillMissing(s: Sys, step: Step, orderId: string)
    requires !Exists(s, orderId) && (step.Order? ==> step.orderId != orderId)
    ensures !Exists(Apply(s, step), orderId)
  {
    var db' := Apply(s, step).db;
    forall id ensures !HasOrder(db', id, orderId) {
      assert !HasOrder(s.db, id, orderId);
    }
  }

  lemma StepBound(s: Sys, step: Step, orderId: string, signed: bool)
    requires Continues(step, orderId, signed) && !(signed && Exists(s, orderId))
    ensures var s' := Apply(s, step);
            && RecordCount(s', orderId) + |Fetching(s', orderId)| <= RecordCount(s, orderId) + |Fetching(s, orderId)|
            && !(signed && Exists(s', orderId))
  {
    var s' := Apply(s, step);
    if signed {
      StillMissing(s, step, orderId);
    }
    if step.Record? && step.request in s.requests && s.requests[step.request].Fetched? {
      RecordBound(s, step.request, step.razorpayId, step.now, orderId);
    } else if step.Record? {
      assert s' == s;
    } else {
      NoNewFetch(s, step, orderId);
      FewerFetching(s, s', orderId);
      NoNewRecord(s, step, orderId);
    }
  }

  lemma {:induction false} RunBound(s: Sys, steps: seq<Step>, orderId: string, signed: bool)
    requires Continuation(steps, orderId, signed) && !(signed && Exists(s, orderId))
    ensures RecordCount(Run(s, steps), orderId) <= RecordCount(s, orderId) + |Fetching(s, orderId)|
    decreases |steps|
  {
    if steps != [] {
      StepBound(s, steps[0], orderId, signed);
      RunBound(Apply(s, steps[0]), steps[1..], orderId, signed);
    }
  }

  // ------------------------------------------------------------ as many records as wanted

  lemma {:induction false} RecordAll(s: Sys, orderId: string, signed: bool, left: set<nat>) returns (steps: seq<Step>)
    requires left == Fetching(s, orderId)
    ensures Continuation(steps, orderId, signed)
    ensures RecordCount(Run(s, steps), orderId) == RecordCount(s, orderId) + |left|
    decreases |left|
  {
    if left == {} {
      steps := [];
    } else {
      var i :| i in left;
      var s' := Apply(s, Record(i, "", ""));
      RecordBound(s, i, "", "", orderId);
      var rest := RecordAll(s', orderId, signed, left - {i});
      steps := [Record(i, "", "")] + rest;
      DoubleSettlement.RunOfOne(s, Record(i, "", ""), rest);
    }
  }

  /** One request by itself, on an order that exists, whether it is paid or not: it is recorded once more,
      and the buyer of the order stands as the owner again, over any later owner, beside the wallet that is
      stored. */
  lemma ReplayRecordsAgain(s: Sys, orderId: string, i: nat, razorpayId: string, now: string)
    requires DbOk(s.db) && i !in s.requests && Exists(s, orderId)
    ensures var id := OrderAcquisition(s.db, orderId).value;
            id in s.db.acquisitions &&
            var a := s.db.acquisitions[id];
            var s' := Apply(Apply(s, FetchOrder(i, a.artworkId, orderId)), Record(i, razorpayId, now));
            && s'.requests == s.requests && s'.chain == s.chain && Exists(s', orderId)
            && s'.db.events == s.db.events + [Recorded(a.artworkId, now, orderId, razorpayId)]
            && a.artworkId in s'.db.ownership
            && s'.db.ownership[a.artworkId] ==
                 Ownership(id, a.buyerName, a.buyerEmail,
                           if a.artworkId in s.db.ownership then s.db.ownership[a.artworkId].ownerWallet else None, now)
            && RecordCount(s', orderId) == RecordCount(s, orderId) + 1
  {
    var id := OrderAcquisition(s.db, orderId).value;
    assert HasOrder(s.db, id, orderId);
    var a := s.db.acquisitions[id];
    var s1 := Apply(s, FetchOrder(i, a.artworkId, orderId));
    assert s1 == s.(requests := s.requests[i := Fetched(a.artworkId, orderId, id, a)]);
    var s' := Apply(s1, Record(i, razorpayId, now));
    assert s1.requests - {i} == s.requests;
    assert HasOrder(s'.db, id, orderId);
    RecordsAppend(s.db.events, Recorded(a.artworkId, now, orderId, razorpayId), orderId);
  }

  /** One more record by a request that was not there. */
  lemma RecordOnce(s: Sys, orderId: string) returns (fetch: Step, record: Step, s': Sys)
    requires SysOk(s) && Exists(s, orderId)
    ensures Continues(fetch, orderId, true) && Continues(record, orderId, true)
    ensures s' == Apply(Apply(s, fetch), record) && SysOk(s') && Exists(s', orderId)
    ensures RecordCount(s', orderId) == RecordCount(s, orderId) + 1
  {
    var i := DoubleSettlement.Above(s.requests.Keys);
    assert i !in s.requests.Keys;
    ReplayRecordsAgain(s, orderId, i, "", "");
    fetch := FetchOrder(i, s.db.acquisitions[OrderAcquisition(s.db, orderId).value].artworkId, orderId);
    record := Record(i, "", "");
    s' := Apply(Apply(s, fetch), record);
    StepKeeps(s, fetch);
    StepKeeps(Apply(s, fetch), record);
  }

  /** A signed order that exists can be recorded any number of times, one request after the other. */
  lemma {:induction false} RecordMany(s: Sys, orderId: string, n: nat) returns (steps: seq<Step>)
    requires SysOk(s) && Exists(s, orderId)
    ensures Continuation(steps, orderId, true)
    ensures RecordCount(Run(s, steps), orderId) == RecordCount(s, orderId) + n
    decreases n
  {
    if n == 0 {
      steps := [];
    } else {
      var fetch, record, s' := RecordOnce(s, orderId);
      var rest := RecordMany(s', orderId, n - 1);
      steps := [fetch, record] + rest;
      DoubleSettlement.RunOfTwo(s, fetch, record, rest);
    }
  }

  /** From every reachable state and for every n: n records of an order can be reached exactly when it has
      that many records and fetched requests, or it exists and a valid signature for it is known. So an
      order that exists is recorded at most once only as long as its signature is not sent twice. */
  lemma RecordedOftenExactly(appId: nat, deployer: Bytes, history: seq<Step>, orderId: string, signed: bool, n: nat)
    ensures var s := Run(Init(appId, deployer), history);
            (exists steps: seq<Step> :: Continuation(steps, orderId, signed) && RecordCount(Run(s, steps), orderId) >= n)
            <==> RecordCount(s, orderId) + |Fetching(s, orderId)| >= n || (signed && Exists(s, orderId))
  {
    InitOk(appId, deployer);
    RunKeepsOk(Init(appId, deployer), history);
    var s := Run(Init(appId, deployer), history);
    if steps: seq<Step> :| Continuation(steps, orderId, signed) && RecordCount(Run(s, steps), orderId) >= n {
      if !(signed && Exists(s, orderId)) {
        RunBound(s, steps, orderId, signed);
      }
    }
    if RecordCount(s, orderId) + |Fetching(s, orderId)| >= n {
      var steps := RecordAll(s, orderId, signed, Fetching(s, orderId));
    } else if signed && Exists(s, orderId) {
      var steps := RecordMany(s, orderId, n);
    }
  }
}
