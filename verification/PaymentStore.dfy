/** The four payment tables and the database transactions of both payment paths on them. */
module PaymentStore {
  import opened Wrappers
  import opened Marketplace
  import opened X402
  import TextCodec

  datatype PaymentStatus = ChallengeIssued | Created | Paid

  /** A row of `acquisitions`; x402 rows carry a nonce, Razorpay rows an order id. */
  datatype Acquisition = Acquisition(
    artworkId: int, buyerName: string, buyerEmail: string,
    status: PaymentStatus, nonce: Option<string>, orderId: Option<string>)

  datatype Ownership = Ownership(
    acquisitionId: string, ownerName: string, ownerEmail: string, ownerWallet: Option<Bytes>, updatedAt: string)

  /** A provenance event: an on-chain transfer names its challenge, a recorded payment its order. */
  datatype Event =
    | Transferred(artworkId: int, at: string, nonce: string, settlement: Settlement, paymentId: TxId)
    | Recorded(artworkId: int, at: string, orderId: string, razorpayId: string)

  const ACQUIRED := "acquired"

  datatype Db = Db(
    challenges: map<string, Challenge>, acquisitions: map<string, Acquisition>,
    ownership: map<int, Ownership>, events: seq<Event>, artworks: map<int, string>)

  datatype StoreError = UnknownArtwork | BadBuyer | Duplicate

  /** The columns of a challenge that a caller chooses or the configuration fixes. */
  datatype Terms = Terms(amount: nat, receiver: Bytes, appId: nat, expiresAt: string)

  function AcquisitionIdFor(nonce: string): string {
    "x402_" + (if |nonce| < 18 then nonce else nonce[..18])
  }

  // ------------------------------------------------------------ the transactions as functions

  function IssueChallenge(db: Db, artworkId: int, name: string, email: string, nonce: string, terms: Terms): Result<Db, StoreError> {
    var id := AcquisitionIdFor(nonce);
    if artworkId !in db.artworks then Err(UnknownArtwork)
    else if id in db.acquisitions || nonce in db.challenges then Err(Duplicate)
    else
      var n, e := TextCodec.Strip(name), TextCodec.Strip(email);
      Ok(db.(acquisitions := db.acquisitions[id := Acquisition(artworkId, n, e, ChallengeIssued, Some(nonce), None)],
             challenges := db.challenges[nonce :=
               Challenge(artworkId, id, n, e, terms.amount, terms.receiver, terms.appId, terms.expiresAt, None)]))
  }

  function CreateOrder(db: Db, artworkId: int, name: string, email: string, id: string, orderId: string): Result<Db, StoreError> {
    var n, e := TextCodec.Strip(name), TextCodec.Strip(email);
    if n == "" || e == "" || '@' !in e then Err(BadBuyer)
    else if artworkId !in db.artworks then Err(UnknownArtwork)
    else if id in db.acquisitions then Err(Duplicate)
    else Ok(db.(acquisitions := db.acquisitions[id := Acquisition(artworkId, n, e, Created, None, Some(orderId))]))
  }

  /** The marking UPDATE matches by nonce alone. */
  function MarkUsed(db: Db, nonce: string, s: Settlement): Db {
    if nonce in db.challenges then db.(challenges := db.challenges[nonce := db.challenges[nonce].(settled := Some(s))])
    else db
  }

  function SetPaid(db: Db, id: string): map<string, Acquisition> {
    if id in db.acquisitions then db.acquisitions[id := db.acquisitions[id].(status := Paid)] else db.acquisitions
  }

  function SetAcquired(db: Db, artworkId: int): map<int, string> {
    if artworkId in db.artworks then db.artworks[artworkId := ACQUIRED] else db.artworks
  }

  function PersistAcquisition(db: Db, nonce: string, c: Challenge, s: Settlement, paymentId: TxId, now: string): Db {
    Db(db.challenges, SetPaid(db, c.acquisitionId),
       db.ownership[c.artworkId := Ownership(c.acquisitionId, c.collectorName, c.collectorEmail, Some(s.wallet), now)],
       db.events + [Transferred(c.artworkId, now, nonce, s, paymentId)], SetAcquired(db, c.artworkId))
  }

  /** The upsert of this path does not name `owner_wallet`, so an existing row keeps it. */
  function RecordAcquisition(db: Db, artworkId: int, orderId: string, id: string, a: Acquisition, razorpayId: string, now: string): Db {
    var wallet := if artworkId in db.ownership then db.ownership[artworkId].ownerWallet else None;
    Db(db.challenges, SetPaid(db, id),
       db.ownership[artworkId := Ownership(id, a.buyerName, a.buyerEmail, wallet, now)],
       db.events + [Recorded(artworkId, now, orderId, razorpayId)], SetAcquired(db, artworkId))
  }

  /** When a challenge is issued, and the two rows it gets. */
  lemma ChallengeAnswers(db: Db, artworkId: int, name: string, email: string, nonce: string, terms: Terms)
    ensures var r := IssueChallenge(db, artworkId, name, email, nonce, terms);
            var id := "x402_" + (if |nonce| <= 18 then nonce else nonce[..18]);
            && (r == Err(UnknownArtwork) <==> artworkId !in db.artworks)
            && (r == Err(Duplicate) <==> artworkId in db.artworks && (nonce in db.challenges || id in db.acquisitions))
            && r != Err(BadBuyer)
            && (r.Ok? ==>
                  && nonce in r.value.challenges
                  && r.value.challenges[nonce] ==
                       Challenge(artworkId, id, TextCodec.Strip(name), TextCodec.Strip(email),
                                 terms.amount, terms.receiver, terms.appId, terms.expiresAt, None)
                  && id in r.value.acquisitions
                  && r.value.acquisitions[id] ==
                       Acquisition(artworkId, TextCodec.Strip(name), TextCodec.Strip(email), ChallengeIssued, Some(nonce), None)
                  && r.value.ownership == db.ownership && r.value.events == db.events && r.value.artworks == db.artworks)
  {
    assert |nonce| == 18 ==> nonce[..18] == nonce;
  }

  /** When an order is created, and the row it gets. */
  lemma OrderAnswers(db: Db, artworkId: int, name: string, email: string, id: string, orderId: string)
    ensures var r := CreateOrder(db, artworkId, name, email, id, orderId);
            var n, e := TextCodec.Strip(name), TextCodec.Strip(email);
            var good := n != "" && e != "" && exists i :: 0 <= i < |e| && e[i] == '@';
            && (r == Err(BadBuyer) <==> !good)
            && (r == Err(UnknownArtwork) <==> good && artworkId !in db.artworks)
            && (r == Err(Duplicate) <==> good && artworkId in db.artworks && id in db.acquisitions)
            && (r.Ok? ==> r.value == db.(acquisitions := db.acquisitions[id := Acquisition(artworkId, n, e, Created, None, Some(orderId))]))
  {
  }

  /** The tables as the services update them, statement by statement. */
  class Tables {
    var challenges: map<string, Challenge>
    var acquisitions: map<string, Acquisition>
    var ownership: map<int, Ownership>
    var events: seq<Event>
    var artworks: map<int, string>

    function Contents(): Db
      reads this
    {
      Db(challenges, acquisitions, ownership, events, artworks)
    }

    constructor ()
      ensures Contents() == Db(map[], map[], map[], [], map[])
    {
      challenges, acquisitions, ownership, events, artworks := map[], map[], map[], [], map[];
    }

    method CreatePaymentRequirements(artworkId: int, name: string, email: string, nonce: string, terms: Terms)
      returns (error: Option<StoreError>)
      modifies this
      ensures match IssueChallenge(old(Contents()), artworkId, name, email, nonce, terms)
              case Ok(db) => error == None && Contents() == db
              case Err(e) => error == Some(e) && Contents() == old(Contents())
    {
      if artworkId !in artworks {
        return Some(UnknownArtwork);
      }
      var id := AcquisitionIdFor(nonce);
      if id in acquisitions || nonce in challenges {
        return Some(Duplicate); // a unique index refuses the insert and nothing is committed
      }
      var n, e := TextCodec.Strip(name), TextCodec.Strip(email);
      acquisitions := acquisitions[id := Acquisition(artworkId, n, e, ChallengeIssued, Some(nonce), None)];
      challenges := challenges[nonce :=
        Challenge(artworkId, id, n, e, terms.amount, terms.receiver, terms.appId, terms.expiresAt, None)];
      return None;
    }

    method CreateAcquisitionOrder(artworkId: int, name: string, email: string, id: string, orderId: string)
      returns (error: Option<StoreError>)
      modifies this
      ensures match CreateOrder(old(Contents()), artworkId, name, email, id, orderId)
              case Ok(db) => error == None && Contents() == db
              case Err(e) => error == Some(e) && Contents() == old(Contents())
    {
      var n, e := TextCodec.Strip(name), TextCodec.Strip(email);
      if n == "" {
        return Some(BadBuyer);
      }
      if e == "" || '@' !in e {
        return Some(BadBuyer);
      }
      if artworkId !in artworks {
        return Some(UnknownArtwork);
      }
      if id in acquisitions {
        return Some(Duplicate);
      }
      acquisitions := acquisitions[id := Acquisition(artworkId, n, e, Created, None, Some(orderId))];
      return None;
    }

    method MarkChallengeUsed(nonce: string, s: Settlement)
      modifies this
      ensures Contents() == MarkUsed(old(Contents()), nonce, s)
    {
      if nonce in challenges {
        challenges := challenges[nonce := challenges[nonce].(settled := Some(s))];
      }
    }

    method PersistSuccessfulAcquisition(nonce: string, c: Challenge, s: Settlement, paymentId: TxId, now: string)
      modifies this
      ensures Contents() == PersistAcquisition(old(Contents()), nonce, c, s, paymentId, now)
    {
      if c.acquisitionId in acquisitions {
        acquisitions := acquisitions[c.acquisitionId := acquisitions[c.acquisitionId].(status := Paid)];
      }
      ownership := ownership[c.artworkId :=
        Ownership(c.acquisitionId, c.collectorName, c.collectorEmail, Some(s.wallet), now)];
      events := events + [Transferred(c.artworkId, now, nonce, s, paymentId)];
      if c.artworkId in artworks {
        artworks := artworks[c.artworkId := ACQUIRED];
      }
    }

    method RecordSuccessfulAcquisition(artworkId: int, orderId: string, id: string, a: Acquisition, razorpayId: string, now: string)
      modifies this
      ensures Contents() == RecordAcquisition(old(Contents()), artworkId, orderId, id, a, razorpayId, now)
    {
      if id in acquisitions {
        acquisitions := acquisitions[id := acquisitions[id].(status := Paid)];
      }
      var wallet := None;
      if artworkId in ownership {
        wallet := ownership[artworkId].ownerWallet;
      }
      ownership := ownership[artworkId := Ownership(id, a.buyerName, a.buyerEmail, wallet, now)];
      events := events + [Recorded(artworkId, now, orderId, razorpayId)];
      if artworkId in artworks {
        artworks := artworks[artworkId := ACQUIRED];
      }
    }
  }

  // ------------------------------------------------------------ the event log as the source of truth

  ghost predicate HasOrder(db: Db, id: string, orderId: string) {
    id in db.acquisitions && db.acquisitions[id].orderId == Some(orderId)
  }

  /** The acquisition an order belongs to. */
  ghost function OrderAcquisition(db: Db, orderId: string): Option<string> {
    if exists id :: HasOrder(db, id, orderId) then
      var id :| HasOrder(db, id, orderId);
      Some(id)
    else None
  }

  /** The acquisition an event settles: through its challenge, or through its order. */
  ghost function EventAcquisition(db: Db, e: Event): Option<string> {
    match e
    case Transferred(_, _, nonce, _, _) =>
      if nonce in db.challenges then Some(db.challenges[nonce].acquisitionId) else None
    case Recorded(_, _, orderId, _) => OrderAcquisition(db, orderId)
  }

  /** The ownership row after one event on the artwork. */
  ghost function EventRow(db: Db, e: Event, was: Option<Ownership>): Option<Ownership> {
    var id := EventAcquisition(db, e);
    if id.None? || id.value !in db.acquisitions then was
    else
      var a := db.acquisitions[id.value];
      match e
      case Transferred(_, at, _, s, _) => Some(Ownership(id.value, a.buyerName, a.buyerEmail, Some(s.wallet), at))
      case Recorded(_, at, _, _) =>
        Some(Ownership(id.value, a.buyerName, a.buyerEmail, if was.Some? then was.value.ownerWallet else None, at))
  }

  /** The ownership row of an artwork, from the first n events alone. */
  ghost function Replay(db: Db, artworkId: int, n: nat): Option<Ownership>
    requires n <= |db.events|
  {
    if n == 0 then None
    else
      var was := Replay(db, artworkId, n - 1);
      if db.events[n - 1].artworkId == artworkId then EventRow(db, db.events[n - 1], was) else was
  }

  ghost predicate EventOk(db: Db, e: Event) {
    && EventAcquisition(db, e).Some?
    && EventAcquisition(db, e).value in db.acquisitions
    && db.acquisitions[EventAcquisition(db, e).value].artworkId == e.artworkId
    && (e.Transferred? ==> e.nonce in db.challenges && db.challenges[e.nonce].settled.Some?)
  }

  /** Foreign keys between challenges, acquisitions and artworks. */
  ghost predicate RowsOk(db: Db) {
    && (forall n :: n in db.challenges ==>
          var c := db.challenges[n];
          c.acquisitionId in db.acquisitions &&
          db.acquisitions[c.acquisitionId] ==
            Acquisition(c.artworkId, c.collectorName, c.collectorEmail, db.acquisitions[c.acquisitionId].status, Some(n), None))
    && (forall id :: id in db.acquisitions ==> db.acquisitions[id].artworkId in db.artworks)
  }

  ghost predicate OrdersUnique(db: Db) {
    forall id, id', o :: HasOrder(db, id, o) && HasOrder(db, id', o) ==> id == id'
  }

  ghost predicate RefsOk(db: Db) {
    RowsOk(db) && OrdersUnique(db) && forall k :: 0 <= k < |db.events| ==> EventOk(db, db.events[k])
  }

  ghost predicate Settles(db: Db, k: nat, id: string)
    requires k < |db.events|
  {
    EventAcquisition(db, db.events[k]) == Some(id)
  }

  ghost predicate RowsReplay(db: Db) {
    forall a :: Replay(db, a, |db.events|) == if a in db.ownership then Some(db.ownership[a]) else None
  }

  ghost predicate PaidIffSettled(db: Db) {
    forall id :: id in db.acquisitions ==>
      (db.acquisitions[id].status == Paid <==> exists k :: 0 <= k < |db.events| && Settles(db, k, id))
  }

  ghost predicate AcquiredIffLogged(db: Db) {
    forall a :: a in db.artworks ==>
      (db.artworks[a] == ACQUIRED <==> exists k :: 0 <= k < |db.events| && db.events[k].artworkId == a)
  }

  /** What the tables promise at every commit point: each ownership row is the replay of its
      artwork's events, paid acquisitions are those with an event, acquired artworks those with a log. */
  ghost predicate DbOk(db: Db) {
    RefsOk(db) && RowsReplay(db) && PaidIffSettled(db) && AcquiredIffLogged(db)
  }

  // ------------------------------------------------------------ nothing written is lost or altered

  /** Everything in `db` that an event can refer to is in `db'`, unchanged but for the settlement columns. */
  ghost predicate Extends(db: Db, db': Db) {
    && (forall n :: n in db.challenges ==>
          (&& n in db'.challenges
           && db'.challenges[n].(settled := None) == db.challenges[n].(settled := None)
           && (db.challenges[n].settled.Some? ==> db'.challenges[n].settled.Some?)))
    && (forall id :: id in db.acquisitions ==>
          (&& id in db'.acquisitions
           && db'.acquisitions[id].(status := Paid) == db.acquisitions[id].(status := Paid)))
    && (forall a :: a in db.artworks ==> a in db'.artworks)
  }

  lemma EventStable(db: Db, db': Db, e: Event)
    requires Extends(db, db') && OrdersUnique(db') && EventOk(db, e)
    ensures EventAcquisition(db', e) == EventAcquisition(db, e) && EventOk(db', e)
    ensures forall was :: EventRow(db', e, was) == EventRow(db, e, was)
  {
    if e.Recorded? {
      var id := OrderAcquisition(db, e.orderId).value;
      assert HasOrder(db, id, e.orderId);
      assert HasOrder(db', id, e.orderId);
    }
  }

  lemma {:induction false} ReplayStable(db: Db, db': Db, a: int, n: nat)
    requires Extends(db, db') && OrdersUnique(db')
    requires n <= |db.events| <= |db'.events| && db'.events[..|db.events|] == db.events
    requires forall k :: 0 <= k < |db.events| ==> EventOk(db, db.events[k])
    ensures Replay(db', a, n) == Replay(db, a, n)
  {
    if n > 0 {
      ReplayStable(db, db', a, n - 1);
      assert db'.events[n - 1] == db.events[n - 1];
      EventStable(db, db', db.events[n - 1]);
    }
  }

  /** All old events keep their meaning. */
  lemma EventsStable(db: Db, db': Db)
    requires Extends(db, db') && OrdersUnique(db') && RefsOk(db)
    requires |db.events| <= |db'.events| && db'.events[..|db.events|] == db.events
    ensures forall k :: 0 <= k < |db.events| ==>
              db'.events[k] == db.events[k] && EventOk(db', db'.events[k])
    ensures forall k, id :: 0 <= k < |db.events| ==> (Settles(db', k, id) <==> Settles(db, k, id))
    ensures forall a :: Replay(db', a, |db.events|) == Replay(db, a, |db.events|)
  {
    forall k | 0 <= k < |db.events|
      ensures db'.events[k] == db.events[k] && EventOk(db', db'.events[k])
      ensures EventAcquisition(db', db'.events[k]) == EventAcquisition(db, db.events[k])
    {
      assert db'.events[..|db.events|][k] == db'.events[k];
      EventStable(db, db', db.events[k]);
    }
    forall a ensures Replay(db', a, |db.events|) == Replay(db, a, |db.events|) {
      ReplayStable(db, db', a, |db.events|);
    }
  }

  /** New rows are neither paid nor acquired, and old ones keep their status. */
  ghost predicate SameStatus(db: Db, db': Db) {
    && (forall a :: a in db'.artworks ==>
          if a in db.artworks then db'.artworks[a] == db.artworks[a] else db'.artworks[a] != ACQUIRED)
    && (forall id :: id in db'.acquisitions ==>
          if id in db.acquisitions then db'.acquisitions[id].status == db.acquisitions[id].status
          else db'.acquisitions[id].status != Paid)
  }

  /** A transaction that adds rows or settles a challenge but writes no event keeps every promise. */
  lemma NoEventKeeps(db: Db, db': Db)
    requires DbOk(db) && Extends(db, db') && RowsOk(db') && OrdersUnique(db') && SameStatus(db, db')
    requires db'.events == db.events && db'.ownership == db.ownership
    ensures DbOk(db')
  {
    assert db'.events[..|db.events|] == db.events;
    EventsStable(db, db');
    assert RowsReplay(db');
    NoEventPaid(db, db');
    NoEventAcquired(db, db');
  }

  lemma NoEventPaid(db: Db, db': Db)
    requires RefsOk(db) && PaidIffSettled(db) && Extends(db, db') && SameStatus(db, db')
    requires db'.events == db.events
    requires forall k, id :: 0 <= k < |db.events| ==> (Settles(db', k, id) <==> Settles(db, k, id))
    ensures PaidIffSettled(db')
  {
    forall id | id in db'.acquisitions
      ensures db'.acquisitions[id].status == Paid <==> exists k :: 0 <= k < |db'.events| && Settles(db', k, id)
    {
      if id !in db.acquisitions {
        forall k | 0 <= k < |db'.events| ensures !Settles(db', k, id) {
          assert EventOk(db, db.events[k]);
        }
      }
    }
  }

  lemma NoEventAcquired(db: Db, db': Db)
    requires RefsOk(db) && AcquiredIffLogged(db) && SameStatus(db, db')
    requires db'.events == db.events
    ensures AcquiredIffLogged(db')
  {
    forall a | a in db'.artworks && a !in db.artworks
      ensures forall k :: 0 <= k < |db'.events| ==> db'.events[k].artworkId != a
    {
      forall k | 0 <= k < |db'.events| ensures db'.events[k].artworkId != a {
        assert EventOk(db, db.events[k]);
      }
    }
  }

  /** The transaction that writes one event together with its row, its paid acquisition and its artwork. */
  ghost predicate WritesEvent(db: Db, db': Db, e: Event, id: string, row: Ownership) {
    && db' == Db(db.challenges, SetPaid(db, id), db.ownership[e.artworkId := row], db.events + [e], SetAcquired(db, e.artworkId))
    && EventOk(db, e) && EventAcquisition(db, e) == Some(id)
    && EventRow(db, e, if e.artworkId in db.ownership then Some(db.ownership[e.artworkId]) else None) == Some(row)
  }

  lemma EventKeeps(db: Db, db': Db, e: Event, id: string, row: Ownership)
    requires DbOk(db) && WritesEvent(db, db', e, id, row)
    ensures DbOk(db') && Extends(db, db')
  {
    EventExtends(db, db', e, id, row);
    EventsStable(db, db');
    EventStable(db, db', e);
    assert RefsOk(db');
    assert RowsReplay(db') by {
      assert db'.events[|db.events|] == e;
    }
    EventPaid(db, db', e, id, row);
    EventAcquired(db, db', e, id, row);
  }

  lemma EventExtends(db: Db, db': Db, e: Event, id: string, row: Ownership)
    requires RefsOk(db) && WritesEvent(db, db', e, id, row)
    ensures Extends(db, db') && OrdersUnique(db') && db'.events[..|db.events|] == db.events
  {
    forall i, i', o | HasOrder(db', i, o) && HasOrder(db', i', o) ensures i == i' {
      assert HasOrder(db, i, o) && HasOrder(db, i', o);
    }
  }

  lemma EventPaid(db: Db, db': Db, e: Event, id: string, row: Ownership)
    requires PaidIffSettled(db) && WritesEvent(db, db', e, id, row)
    requires EventAcquisition(db', e) == Some(id)
    requires forall k, i :: 0 <= k < |db.events| ==> (Settles(db', k, i) <==> Settles(db, k, i))
    ensures PaidIffSettled(db')
  {
    var n := |db.events|;
    assert db'.events[n] == e;
    assert Settles(db', n, id);
    forall i | i in db'.acquisitions
      ensures db'.acquisitions[i].status == Paid <==> exists k :: 0 <= k < n + 1 && Settles(db', k, i)
    {
      if i != id && db'.acquisitions[i].status == Paid {
        var k :| 0 <= k < n && Settles(db, k, i);
        assert Settles(db', k, i);
      }
      if i != id {
        assert !Settles(db', n, i);
      }
    }
  }

  lemma EventAcquired(db: Db, db': Db, e: Event, id: string, row: Ownership)
    requires AcquiredIffLogged(db) && WritesEvent(db, db', e, id, row)
    ensures AcquiredIffLogged(db')
  {
    var n := |db.events|;
    assert db'.events[n] == e;
    assert forall k :: 0 <= k < n ==> db'.events[k] == db.events[k];
    forall a | a in db'.artworks
      ensures db'.artworks[a] == ACQUIRED <==> exists k :: 0 <= k < n + 1 && db'.events[k].artworkId == a
    {
      if a != e.artworkId && db'.artworks[a] == ACQUIRED {
        var k :| 0 <= k < n && db.events[k].artworkId == a;
        assert db'.events[k].artworkId == a;
      }
    }
  }

  // ------------------------------------------------------------ each transaction keeps the promises

  /** What a transaction without an event leaves behind. */
  ghost predicate KeepsDb(db: Db, db': Db) {
    DbOk(db') && Extends(db, db') && db'.events == db.events && db'.ownership == db.ownership
  }

  lemma AddArtworkDb(db: Db, a: int, status: string)
    requires DbOk(db) && a !in db.artworks && status != ACQUIRED
    ensures KeepsDb(db, db.(artworks := db.artworks[a := status]))
  {
    var db' := db.(artworks := db.artworks[a := status]);
    OrdersOf(db, db');
    assert RowsOk(db') && Extends(db, db') && SameStatus(db, db');
    NoEventKeeps(db, db');
  }

  /** No order moved to another acquisition. */
  lemma OrdersOf(db: Db, db': Db)
    requires forall id :: id in db'.acquisitions && db'.acquisitions[id].orderId.Some? ==>
               id in db.acquisitions && db.acquisitions[id].orderId == db'.acquisitions[id].orderId
    requires OrdersUnique(db)
    ensures OrdersUnique(db')
  {
    forall i, i', o | HasOrder(db', i, o) && HasOrder(db', i', o) ensures i == i' {
      assert HasOrder(db, i, o) && HasOrder(db, i', o);
    }
  }

  lemma IssueDb(db: Db, artworkId: int, name: string, email: string, nonce: string, terms: Terms)
    requires DbOk(db) && IssueChallenge(db, artworkId, name, email, nonce, terms).Ok?
    ensures KeepsDb(db, IssueChallenge(db, artworkId, name, email, nonce, terms).value)
  {
    var n, e := TextCodec.Strip(name), TextCodec.Strip(email);
    var id := AcquisitionIdFor(nonce);
    InsertChallenge(db, nonce, id, Acquisition(artworkId, n, e, ChallengeIssued, Some(nonce), None),
                    Challenge(artworkId, id, n, e, terms.amount, terms.receiver, terms.appId, terms.expiresAt, None));
  }

  lemma InsertChallenge(db: Db, nonce: string, id: string, a: Acquisition, c: Challenge)
    requires DbOk(db) && nonce !in db.challenges && id !in db.acquisitions && c.acquisitionId == id
    requires a == Acquisition(c.artworkId, c.collectorName, c.collectorEmail, ChallengeIssued, Some(nonce), None)
    requires c.artworkId in db.artworks
    ensures KeepsDb(db, db.(acquisitions := db.acquisitions[id := a], challenges := db.challenges[nonce := c]))
  {
    var db' := db.(acquisitions := db.acquisitions[id := a], challenges := db.challenges[nonce := c]);
    OrdersOf(db, db');
    ChallengeRows(db, db', nonce, id, a, c);
    NoEventKeeps(db, db');
  }

  lemma ChallengeRows(db: Db, db': Db, nonce: string, id: string, a: Acquisition, c: Challenge)
    requires RowsOk(db) && nonce !in db.challenges && id !in db.acquisitions && c.acquisitionId == id
    requires a == Acquisition(c.artworkId, c.collectorName, c.collectorEmail, ChallengeIssued, Some(nonce), None)
    requires c.artworkId in db.artworks
    requires db' == db.(acquisitions := db.acquisitions[id := a], challenges := db.challenges[nonce := c])
    ensures RowsOk(db') && Extends(db, db') && SameStatus(db, db')
  {
  }

  lemma OrderDb(db: Db, artworkId: int, name: string, email: string, id: string, orderId: string)
    requires DbOk(db) && CreateOrder(db, artworkId, name, email, id, orderId).Ok?
    requires OrderAcquisition(db, orderId).None?
    ensures KeepsDb(db, CreateOrder(db, artworkId, name, email, id, orderId).value)
  {
    var db' := CreateOrder(db, artworkId, name, email, id, orderId).value;
    forall i, i', o | HasOrder(db', i, o) && HasOrder(db', i', o) ensures i == i' {
      assert i != id ==> HasOrder(db, i, o);
      assert i' != id ==> HasOrder(db, i', o);
    }
    NoEventKeeps(db, db');
  }

  lemma MarkDb(db: Db, nonce: string, s: Settlement)
    requires DbOk(db) && nonce in db.challenges
    ensures KeepsDb(db, MarkUsed(db, nonce, s)) && MarkUsed(db, nonce, s).challenges[nonce].settled.Some?
  {
    var db' := MarkUsed(db, nonce, s);
    OrdersOf(db, db');
    MarkRows(db, db', nonce, s);
    NoEventKeeps(db, db');
  }

  lemma MarkRows(db: Db, db': Db, nonce: string, s: Settlement)
    requires RowsOk(db) && nonce in db.challenges
    requires db' == db.(challenges := db.challenges[nonce := db.challenges[nonce].(settled := Some(s))])
    ensures RowsOk(db') && Extends(db, db') && SameStatus(db, db')
  {
  }

  lemma PersistDb(db: Db, nonce: string, c: Challenge, s: Settlement, paymentId: TxId, now: string)
    requires DbOk(db) && nonce in db.challenges && db.challenges[nonce].(settled := None) == c
    requires db.challenges[nonce].settled.Some?
    ensures var db' := PersistAcquisition(db, nonce, c, s, paymentId, now); DbOk(db') && Extends(db, db')
  {
    var db' := PersistAcquisition(db, nonce, c, s, paymentId, now);
    var e := Transferred(c.artworkId, now, nonce, s, paymentId);
    assert EventAcquisition(db, e) == Some(c.acquisitionId);
    EventKeeps(db, db', e, c.acquisitionId, db'.ownership[c.artworkId]);
  }

  lemma RecordDb(db: Db, artworkId: int, orderId: string, id: string, a: Acquisition, razorpayId: string, now: string)
    requires DbOk(db) && HasOrder(db, id, orderId) && db.acquisitions[id].(status := Paid) == a.(status := Paid)
    requires a.artworkId == artworkId
    ensures var db' := RecordAcquisition(db, artworkId, orderId, id, a, razorpayId, now); DbOk(db') && Extends(db, db')
  {
    var db' := RecordAcquisition(db, artworkId, orderId, id, a, razorpayId, now);
    var e := Recorded(artworkId, now, orderId, razorpayId);
    assert EventAcquisition(db, e) == Some(id);
    EventKeeps(db, db', e, id, db'.ownership[artworkId]);
  }
}
