/** Verification of a credential: through the certificate table, or by a scan of the ledger. */
module Verification {
  import opened Wrappers
  import opened TextCodec
  import opened Keys

  type Address = seq<byte>

  // ------------------------------------------------------------ trust score

  /** What each signal contributes; `bonus` is there for a per-institution wallet only. */
  datatype Factors = Factors(chain: nat, hmac: nat, signature: nat, issuer: nat, bonus: Option<nat>)

  datatype Grade = A | B | C | D | F

  datatype Trust = Trust(score: nat, grade: Grade, factors: Factors)

  function Weight(signal: bool, weight: nat): nat {
    if signal then weight else 0
  }

  function TrustScore(chain: bool, hmac: bool, signature: bool, issuer: bool, walletVersion: int): Trust {
    var f := Factors(Weight(chain, 35), Weight(hmac, 25), Weight(signature, 25), Weight(issuer, 15),
                     if walletVersion >= 2 then Some(5) else None);
    var raw := f.chain + f.hmac + f.signature + f.issuer + (if f.bonus.Some? then f.bonus.value else 0);
    var score := if raw < 100 then raw else 100;
    Trust(score, if score >= 90 then A else if score >= 75 then B else if score >= 60 then C else if score >= 40 then D else F, f)
  }

  /** The full score takes all four signals; the wallet bonus can lift a revoked issuer to grade A but
      never to the full score. No signal ever lowers the score. */
  lemma TrustScoreMeans(chain: bool, hmac: bool, signature: bool, issuer: bool, walletVersion: int)
    ensures var t := TrustScore(chain, hmac, signature, issuer, walletVersion);
            && t.score <= 100 && t.factors == Factors(if chain then 35 else 0, if hmac then 25 else 0, if signature then 25 else 0,
                                                      if issuer then 15 else 0, if walletVersion >= 2 then Some(5) else None)
            && (t.score == 100 <==> chain && hmac && signature && issuer)
            && (t.score < 100 ==>
                  t.score == t.factors.chain + t.factors.hmac + t.factors.signature + t.factors.issuer + (if walletVersion >= 2 then 5 else 0))
            && (t.grade == A <==> t.score >= 90) && (t.grade == B <==> 75 <= t.score < 90)
            && (t.grade == C <==> 60 <= t.score < 75) && (t.grade == D <==> 40 <= t.score < 60)
            && (t.grade == A <==> chain && hmac && signature && (issuer || walletVersion >= 2))
            && (t.grade == F <==> t.score < 40)
            && t.score <= TrustScore(chain, hmac, true, true, walletVersion).score
            && t.score <= TrustScore(true, true, signature, issuer, walletVersion).score
  {
  }

  // ------------------------------------------------------------ what is read

  /** The JSON note of a transaction. An empty cid stands for a missing one, and `wv` is None when it is
      there but not a number; `OddNote` is JSON that is not an object. */
  datatype Note = Note(cid: string, wv: Option<int>) | OddNote

  /** A transaction as the indexer returns it; `note` is None when it cannot be decoded, and `confirmed`
      says whether the record carries a confirmed round. */
  datatype Tx = Tx(sender: Address, note: Option<Note>, confirmed: bool)

  /** Pinned metadata. An empty text stands for a missing field; a field of another JSON type fails like
      text outside ASCII does. `OddMeta` is JSON that is not an object. */
  datatype Meta =
    | Meta(certHash: Option<string>, integrity: string, binary: string, file: string, hmac: string, signature: string)
    | OddMeta

  /** A row of `did_registry`. */
  datatype Row = Row(institutionId: string, walletVersion: Option<int>, revoked: bool)

  datatype World = World(ledger: map<string, Tx>, ipfs: map<string, Meta>,
                         registry: map<Address, Row>, artisans: map<Address, string>)

  /** The secrets and functions of the deployment. */
  datatype Env = Env(e: Ed25519, hmac: string -> string, systemSeed: seq<byte>, vault: bool)

  datatype Lookup = Answers | Raises | Empty

  /** What the network does while one verification runs. */
  datatype Net = Net(lookup: Lookup, scanUp: bool, reach: string -> bool)

  const APPROVED := "approved"
  const FALLBACK := "algorand_indexer_fallback"

  predicate ValidTxId(txId: string) {
    |txId| > 20 && txId != "DEMO_TX" && !("DEMO_TX_" <= txId)
  }

  function Certified(m: Meta): string
    requires m.Meta?
  {
    if m.integrity != "" then m.integrity else if m.binary != "" then m.binary else m.file
  }

  // ------------------------------------------------------------ verification of one transaction

  /** `hmac.compare_digest` takes text in ASCII only and raises on any other. */
  predicate Comparable(a: string, b: string) {
    IsAscii(a) && IsAscii(b)
  }

  /** `Raised`: an exception that `_verify_full` does not catch. */
  datatype Verdict =
    | Raised
    | Rejected(reason: string, integrityMatch: bool, tampered: bool, source: Option<string>)
    | Report(valid: bool, provenanceValid: bool, integrityMatch: bool, tampered: bool, hmacOk: bool, signatureOk: bool,
             walletVersion: int, txId: string, cid: string, trust: Trust, source: Option<string>)

  predicate IsValid(v: Verdict) {
    v.Report? && v.valid
  }

  function Plain(reason: string): Verdict {
    Rejected(reason, false, false, None)
  }

  /** `verify_provenance`: the sender is a registered institution or an approved artisan, and the key in
      its address made the signature. */
  predicate Provenance(env: Env, w: World, sender: Address, hash: string, signature: string) {
    (sender in w.registry || (sender in w.artisans && w.artisans[sender] == APPROVED)) &&
    CheckSignature(env.e, sender, hash, signature)
  }

  function VerifyFull(env: Env, w: World, net: Net, hash: string, txId: string, cid: string, uploaded: Option<string>): Verdict {
    if !ValidTxId(txId) then Plain("Invalid transaction ID — cannot verify on-chain.")
    else if net.lookup.Raises? || txId !in w.ledger then Plain("Blockchain lookup failed")
    else if net.lookup.Empty? then Plain("Transaction not found on-chain")
    else if w.ledger[txId].note.None? then Plain("Malformed transaction note")
    else if w.ledger[txId].note.value.OddNote? then Raised
    else
      var note := w.ledger[txId].note.value;
      var cid' := if note.cid != "" then note.cid else cid;
      if !net.reach(cid') || cid' !in w.ipfs then Plain("IPFS metadata unavailable")
      else if w.ipfs[cid'].OddMeta? then Raised
      else if w.ipfs[cid'].certHash != Some(hash) then Rejected("IPFS hash mismatch — data tampered", false, true, None)
      else VerifyMeta(env, w, w.ledger[txId], note, hash, txId, cid', uploaded)
  }

  /** The second half, once the metadata is known to be about this hash. */
  function VerifyMeta(env: Env, w: World, tx: Tx, note: Note, hash: string, txId: string, cid: string, uploaded: Option<string>): Verdict
    requires cid in w.ipfs && w.ipfs[cid].Meta? && note.Note?
  {
    var meta := w.ipfs[cid];
    var certified := Certified(meta);
    var compared := uploaded.Some? && uploaded.value != "" && certified != "";
    var matches := compared && uploaded.value == certified;
    var tampered := compared && !matches;
    var hmacOk := meta.hmac != "" && env.hmac(hash) == meta.hmac;
    var registered := tx.sender in w.registry;
    var artisan := !registered && tx.sender in w.artisans;
    if CompareRaises(env, meta, hash, uploaded) then Raised
    else if registered && w.registry[tx.sender].revoked then Rejected("issuer_revoked", matches, tampered, None)
    else if artisan && w.artisans[tx.sender] != APPROVED then Rejected("artisan_not_approved", matches, tampered, None)
    else
      var active := if registered then !w.registry[tx.sender].revoked else if artisan then w.artisans[tx.sender] == APPROVED else true;
      var walletVersion := if registered && w.registry[tx.sender].walletVersion.Some? then w.registry[tx.sender].walletVersion
                           else note.wv;
      var signatureOk := Provenance(env, w, tx.sender, hash, meta.signature);
      var provenanceValid := tx.confirmed && hmacOk && signatureOk && active;
      if walletVersion.None? || !tx.confirmed then Raised
      else
        Report(provenanceValid && matches, provenanceValid, matches, tampered, hmacOk, signatureOk, walletVersion.value, txId, cid,
               TrustScore(tx.confirmed, hmacOk, signatureOk, active, walletVersion.value), None)
  }

  predicate HashesRaise(uploaded: Option<string>, certified: string) {
    uploaded.Some? && uploaded.value != "" && certified != "" && !Comparable(uploaded.value, certified)
  }

  /** The two comparisons: of the file hashes when both are there, and of the tag when there is one. */
  predicate CompareRaises(env: Env, meta: Meta, hash: string, uploaded: Option<string>)
    requires meta.Meta?
  {
    || HashesRaise(uploaded, Certified(meta))
    || (meta.hmac != "" && !Comparable(env.hmac(hash), meta.hmac))
  }

  /** The wallet version in the row or, if there is none, in the note cannot be compared with a number. */
  predicate VersionRaises(w: World, tx: Tx)
    requires tx.note.Some? && tx.note.value.Note?
  {
    tx.note.value.wv.None? && (tx.sender in w.registry ==> w.registry[tx.sender].walletVersion.None?)
  }

  /** Senders whose credentials are accepted. */
  predicate Trusted(w: World, a: Address) {
    if a in w.registry then !w.registry[a].revoked else a in w.artisans && w.artisans[a] == APPROVED
  }

  /** The transaction names metadata about this hash. */
  predicate Anchors(w: World, txId: string, hash: string) {
    && txId in w.ledger && w.ledger[txId].note.Some? && w.ledger[txId].note.value.Note?
    && w.ledger[txId].note.value.cid != "" && w.ledger[txId].note.value.cid in w.ipfs
    && w.ipfs[w.ledger[txId].note.value.cid].Meta?
    && w.ipfs[w.ledger[txId].note.value.cid].certHash == Some(hash)
  }

  /** The metadata is genuine: right tag, and signed with the key of the sender's address. */
  predicate Genuine(env: Env, w: World, txId: string, cid: string, hash: string)
    requires txId in w.ledger && cid in w.ipfs && w.ipfs[cid].Meta?
  {
    && w.ipfs[cid].hmac != "" && w.ipfs[cid].hmac == env.hmac(hash)
    && CheckSignature(env.e, w.ledger[txId].sender, hash, w.ipfs[cid].signature)
    && w.ledger[txId].confirmed
  }

  /** For a transaction that names its metadata: exactly when it is accepted, and that an accepted one
      has the full score. */
  lemma ValidExactly(env: Env, w: World, net: Net, hash: string, txId: string, cid: string, uploaded: Option<string>)
    requires Anchors(w, txId, hash)
    ensures var v, cid' := VerifyFull(env, w, net, hash, txId, cid, uploaded), w.ledger[txId].note.value.cid;
            && (IsValid(v) <==>
                  && ValidTxId(txId) && net.lookup.Answers? && net.reach(cid')
                  && Certified(w.ipfs[cid']) != "" && uploaded == Some(Certified(w.ipfs[cid']))
                  && Genuine(env, w, txId, cid', hash) && Trusted(w, w.ledger[txId].sender)
                  && !CompareRaises(env, w.ipfs[cid'], hash, uploaded) && !VersionRaises(w, w.ledger[txId]))
            && (IsValid(v) ==> v.trust.score == 100 && v.trust.grade == A && v.txId == txId && v.cid == cid' && !v.tampered)
            && (!v.Raised? ==> v.source == None)
  {
  }

  /** Every input on which the verification raises, against the comment that it never does: JSON that is
      not an object; compared text outside ASCII, before the issuer is looked at; and, for an issuer that is
      not refused, a wallet version that is no number or a record without a confirmed round. */
  lemma RaisesExactly(env: Env, w: World, net: Net, hash: string, txId: string, cid: string, uploaded: Option<string>)
    requires ValidTxId(txId) && net.lookup.Answers? && txId in w.ledger && w.ledger[txId].note.Some?
    ensures var v, tx, note := VerifyFull(env, w, net, hash, txId, cid, uploaded), w.ledger[txId], w.ledger[txId].note.value;
            v.Raised? <==>
              note.OddNote? ||
              var cid' := if note.cid != "" then note.cid else cid;
              net.reach(cid') && cid' in w.ipfs &&
              (w.ipfs[cid'].OddMeta? ||
               (w.ipfs[cid'].certHash == Some(hash) &&
                (CompareRaises(env, w.ipfs[cid'], hash, uploaded) ||
                 (!Refused(w, tx.sender) && (VersionRaises(w, tx) || !tx.confirmed)))))
  {
  }

  /** Senders that are refused by name. */
  predicate Refused(w: World, a: Address) {
    if a in w.registry then w.registry[a].revoked else a in w.artisans && w.artisans[a] != APPROVED
  }

  /** What the answer says about the file and the issuer once the metadata is in hand: a match and
      tampering are opposite answers to a comparison that takes two non-empty hashes; a revoked issuer or
      unapproved artisan is named as the reason, matching file or not. */
  lemma ReportedExactly(env: Env, w: World, net: Net, hash: string, txId: string, cid: string, uploaded: Option<string>)
    requires Anchors(w, txId, hash) && ValidTxId(txId) && net.lookup.Answers? && net.reach(w.ledger[txId].note.value.cid)
    ensures var v, tx := VerifyFull(env, w, net, hash, txId, cid, uploaded), w.ledger[txId];
            var meta := w.ipfs[tx.note.value.cid];
            var certified := Certified(meta);
            var raises := CompareRaises(env, meta, hash, uploaded);
            && (v.Raised? <==> raises || (!Refused(w, tx.sender) && (VersionRaises(w, tx) || !tx.confirmed)))
            && (v.Rejected? && v.reason == "issuer_revoked" <==> !raises && tx.sender in w.registry && w.registry[tx.sender].revoked)
            && (v.Rejected? && v.reason == "artisan_not_approved" <==> !raises && tx.sender !in w.registry && Refused(w, tx.sender))
            && (!v.Raised? ==>
                  (&& (v.integrityMatch <==> uploaded == Some(certified) && certified != "")
                   && (v.tampered <==> uploaded.Some? && uploaded.value != "" && certified != "" && uploaded.value != certified)))
            && (v.Report? ==> (v.provenanceValid <==> v.trust.score == 100))
  {
  }

  /** The first answers, before any metadata is looked at, each with its reason. */
  lemma RefusedEarly(env: Env, w: World, net: Net, hash: string, txId: string, cid: string, uploaded: Option<string>)
    ensures var v := VerifyFull(env, w, net, hash, txId, cid, uploaded);
            && (!ValidTxId(txId) ==> v == Rejected("Invalid transaction ID — cannot verify on-chain.", false, false, None))
            && (ValidTxId(txId) && (net.lookup.Raises? || txId !in w.ledger) ==>
                  v == Rejected("Blockchain lookup failed", false, false, None))
            && (ValidTxId(txId) && net.lookup.Empty? && txId in w.ledger ==>
                  v == Rejected("Transaction not found on-chain", false, false, None))
            && (ValidTxId(txId) && net.lookup.Answers? && txId in w.ledger ==>
                  var note := w.ledger[txId].note;
                  && (note.None? ==> v == Rejected("Malformed transaction note", false, false, None))
                  && (note.Some? && note.value.Note? ==>
                        var cid' := if note.value.cid != "" then note.value.cid else cid;
                        && (!(net.reach(cid') && cid' in w.ipfs) ==> v == Rejected("IPFS metadata unavailable", false, false, None))
                        && (net.reach(cid') && cid' in w.ipfs && w.ipfs[cid'].Meta? && w.ipfs[cid'].certHash != Some(hash) ==>
                              v == Rejected("IPFS hash mismatch — data tampered", false, true, None))))
  {
  }

  /** What a report says besides: its transaction, its metadata, the two signals, and the wallet version of the
      row or, if there is none, of the note. */
  lemma ReportedVersion(env: Env, w: World, net: Net, hash: string, txId: string, cid: string, uploaded: Option<string>)
    requires Anchors(w, txId, hash) && VerifyFull(env, w, net, hash, txId, cid, uploaded).Report?
    ensures var v, tx := VerifyFull(env, w, net, hash, txId, cid, uploaded), w.ledger[txId];
            var meta := w.ipfs[tx.note.value.cid];
            && v.txId == txId && v.cid == tx.note.value.cid
            && (v.hmacOk <==> meta.hmac != "" && meta.hmac == env.hmac(hash))
            && (v.signatureOk <==> Provenance(env, w, tx.sender, hash, meta.signature))
            && (v.valid <==> v.provenanceValid && v.integrityMatch)
            && Some(v.walletVersion) == (if tx.sender in w.registry && w.registry[tx.sender].walletVersion.Some?
                                         then w.registry[tx.sender].walletVersion else tx.note.value.wv)
            && v.trust == TrustScore(true, v.hmacOk, v.signatureOk, true, v.walletVersion)
  {
  }

  /** Which of the three fields certifies the file, and which transaction ids are looked up at all. */
  lemma FieldsAndIds(m: Meta, txId: string)
    requires m.Meta?
    ensures m.integrity != "" ==> Certified(m) == m.integrity
    ensures m.integrity == "" && m.binary != "" ==> Certified(m) == m.binary
    ensures m.integrity == "" && m.binary == "" ==> Certified(m) == m.file
    ensures |txId| == 52 && txId[..8] != "DEMO_TX_" ==> ValidTxId(txId)
    ensures |txId| <= 20 || txId[..8] == "DEMO_TX_" ==> !ValidTxId(txId)
  {
  }

  /** Whatever the ledger holds, an accepted verification rests on a confirmed transaction of a trusted
      sender whose metadata is genuine and certifies the uploaded file. */
  lemma ValidMeans(env: Env, w: World, net: Net, hash: string, txId: string, cid: string, uploaded: Option<string>)
    requires IsValid(VerifyFull(env, w, net, hash, txId, cid, uploaded))
    ensures var v := VerifyFull(env, w, net, hash, txId, cid, uploaded);
            && v.txId == txId && txId in w.ledger && v.cid in w.ipfs && w.ipfs[v.cid].Meta? && w.ipfs[v.cid].certHash == Some(hash)
            && uploaded == Some(Certified(w.ipfs[v.cid])) && uploaded != Some("")
            && Genuine(env, w, txId, v.cid, hash) && Trusted(w, w.ledger[txId].sender)
            && v.trust.score == 100
  {
  }

  // ------------------------------------------------------------ the ledger scan

  /** The transaction names reachable metadata about the hash, and verifying it does not raise. */
  predicate Answered(env: Env, w: World, net: Net, hash: string, uploaded: Option<string>, txId: string) {
    && Anchors(w, txId, hash) && net.reach(w.ledger[txId].note.value.cid)
    && !VerifyFull(env, w, net, hash, txId, w.ledger[txId].note.value.cid, uploaded).Raised?
  }

  function Tagged(v: Verdict): Verdict {
    if v.Raised? then v else v.(source := Some(FALLBACK))
  }

  /** `_verify_via_indexer` over the transactions the indexer lists; one on which the full verification
      raises is skipped like one that cannot be read. */
  function Scan(env: Env, w: World, net: Net, hash: string, uploaded: Option<string>, txns: seq<string>): Verdict {
    if txns == [] then Plain("Certificate not found")
    else if Answered(env, w, net, hash, uploaded, txns[0]) then
      Tagged(VerifyFull(env, w, net, hash, txns[0], w.ledger[txns[0]].note.value.cid, uploaded))
    else Scan(env, w, net, hash, uploaded, txns[1..])
  }

  function ScanLedger(env: Env, w: World, net: Net, hash: string, uploaded: Option<string>, txns: seq<string>): Verdict {
    if !net.scanUp then Plain("Indexer error") else Scan(env, w, net, hash, uploaded, txns)
  }

  datatype Cert = Cert(txId: string, cid: string)

  function VerifyHash(env: Env, w: World, net: Net, certs: map<string, Cert>, hash: string, uploaded: Option<string>,
                      txns: seq<string>): Verdict
  {
    if hash in certs then VerifyFull(env, w, net, hash, certs[hash].txId, certs[hash].cid, uploaded)
    else ScanLedger(env, w, net, hash, uploaded, txns)
  }

  /** The loop of the scan. */
  method VerifyViaIndexer(env: Env, w: World, net: Net, hash: string, uploaded: Option<string>, txns: seq<string>)
    returns (v: Verdict)
    requires forall t :: t in txns ==> t in w.ledger
    ensures v == ScanLedger(env, w, net, hash, uploaded, txns)
  {
    if !net.scanUp {
      return Plain("Indexer error");
    }
    for i := 0 to |txns|
      invariant Scan(env, w, net, hash, uploaded, txns) == Scan(env, w, net, hash, uploaded, txns[i..])
    {
      assert txns[i] in txns;
      var note := w.ledger[txns[i]].note;
      if note.None? || note.value.OddNote? || note.value.cid == "" {
        continue;
      }
      var cid := note.value.cid;
      if !net.reach(cid) || cid !in w.ipfs || w.ipfs[cid].OddMeta? {
        continue;
      }
      if w.ipfs[cid].certHash == Some(hash) {
        var v' := VerifyFull(env, w, net, hash, txns[i], cid, uploaded);
        if v'.Raised? {
          continue;
        }
        return v'.(source := Some(FALLBACK));
      }
    }
    return Plain("Certificate not found");
  }

  lemma {:induction false} ScanFinds(env: Env, w: World, net: Net, hash: string, uploaded: Option<string>, txns: seq<string>, t: string)
    requires t in txns && Anchors(w, t, hash)
    requires forall t' :: t' in txns && Anchors(w, t', hash) ==> t' == t
    ensures Scan(env, w, net, hash, uploaded, txns) ==
            if Answered(env, w, net, hash, uploaded, t) then
              Tagged(VerifyFull(env, w, net, hash, t, w.ledger[t].note.value.cid, uploaded))
            else Plain("Certificate not found")
  {
    if txns[0] != t {
      assert t in txns[1..];
      assert txns[0] in txns;
      ScanFinds(env, w, net, hash, uploaded, txns[1..], t);
    } else if !Answered(env, w, net, hash, uploaded, t) {
      ScanMisses(env, w, net, hash, uploaded, txns);
    }
  }

  lemma {:induction false} ScanMisses(env: Env, w: World, net: Net, hash: string, uploaded: Option<string>, txns: seq<string>)
    requires forall t :: t in txns ==> !Answered(env, w, net, hash, uploaded, t)
    ensures Scan(env, w, net, hash, uploaded, txns) == Plain("Certificate not found")
  {
    if txns != [] {
      assert txns[0] in txns;
      ScanMisses(env, w, net, hash, uploaded, txns[1..]);
    }
  }

  /** The scan answers with the first listed transaction it can, and says so if there is none. */
  lemma {:induction false} ScanIsFirst(env: Env, w: World, net: Net, hash: string, uploaded: Option<string>, txns: seq<string>, k: nat)
    requires k <= |txns| && forall j :: 0 <= j < k ==> !Answered(env, w, net, hash, uploaded, txns[j])
    requires k < |txns| ==> Answered(env, w, net, hash, uploaded, txns[k])
    ensures Scan(env, w, net, hash, uploaded, txns) ==
            if k == |txns| then Rejected("Certificate not found", false, false, None)
            else Tagged(VerifyFull(env, w, net, hash, txns[k], w.ledger[txns[k]].note.value.cid, uploaded))
    ensures !net.scanUp ==> ScanLedger(env, w, net, hash, uploaded, txns) == Rejected("Indexer error", false, false, None)
    ensures net.scanUp ==> ScanLedger(env, w, net, hash, uploaded, txns) == Scan(env, w, net, hash, uploaded, txns)
  {
    if k > 0 {
      ScanIsFirst(env, w, net, hash, uploaded, txns[1..], k - 1);
    }
  }

  /** A hash anchored by exactly one of the listed transactions, the one in the table: the scan gives the
      table's verdict plus its source exactly when it runs, reaches the metadata and the verdict is one. */
  lemma ScanAgrees(env: Env, w: World, net: Net, certs: map<string, Cert>, hash: string, uploaded: Option<string>, txns: seq<string>)
    requires hash in certs && certs[hash].txId in txns && Anchors(w, certs[hash].txId, hash)
    requires forall t :: t in txns && Anchors(w, t, hash) ==> t == certs[hash].txId
    ensures var v := VerifyHash(env, w, net, certs, hash, uploaded, txns);
            ScanLedger(env, w, net, hash, uploaded, txns) == Tagged(v)
            <==> net.scanUp && net.reach(w.ledger[certs[hash].txId].note.value.cid) && !v.Raised?
  {
    var t := certs[hash].txId;
    ScanFinds(env, w, net, hash, uploaded, txns, t);
    CidOfNote(env, w, net, hash, t, certs[hash].cid, w.ledger[t].note.value.cid, uploaded);
    ValidExactly(env, w, net, hash, t, certs[hash].cid, uploaded);
  }

  /** A note that names its metadata leaves the table's content id unused. */
  lemma CidOfNote(env: Env, w: World, net: Net, hash: string, txId: string, cid: string, cid': string, uploaded: Option<string>)
    requires Anchors(w, txId, hash)
    ensures VerifyFull(env, w, net, hash, txId, cid, uploaded) == VerifyFull(env, w, net, hash, txId, cid', uploaded)
  {
  }

  /** A valid verdict of the scan is a valid verification of one of the listed transactions. */
  lemma {:induction false} ScanIsSound(env: Env, w: World, net: Net, hash: string, uploaded: Option<string>, txns: seq<string>)
    requires IsValid(Scan(env, w, net, hash, uploaded, txns))
    ensures var v := Scan(env, w, net, hash, uploaded, txns);
            v.txId in txns && IsValid(VerifyFull(env, w, net, hash, v.txId, v.cid, uploaded))
  {
    if !Answered(env, w, net, hash, uploaded, txns[0]) {
      ScanIsSound(env, w, net, hash, uploaded, txns[1..]);
    }
  }
}
