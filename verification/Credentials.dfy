/** Credentials over whole runs: institutions are approved, issue, issue again and are revoked, while
    anyone else adds transactions and metadata of their own. */
module Credentials {
  import opened Wrappers
  import opened TextCodec
  import opened Keys
  import opened Verification

  /** One issuance that reached the certificate table. */
  datatype Issuance = Issuance(hash: string, integrity: string, sender: Address, txId: string, cid: string)

  /** Tables, Vault, ledger and IPFS. `keys` holds the seed stored for each institution; `log` records the
      issuances in the order they were saved. */
  datatype Sys = Sys(world: World, keys: map<string, seq<byte>>, approved: set<string>,
                     certs: map<string, Cert>, log: seq<Issuance>)

  const INIT := Sys(World(map[], map[], map[], map[]), map[], {}, map[], [])

  /** The id given to rows from before institutions had wallets. */
  const LEGACY := "LEGACY_SYSTEM"

  /** How far a handler gets. */
  datatype ApproveStop = AfterKey | AfterRow | Approved

  datatype IssueStop = AfterPin | AfterSend | Saved

  datatype Step =
    | Approve(id: string, seed: seq<byte>, astop: ApproveStop)
    | RegisterLegacy(id: string)
    | Issue(issuer: Address, hash: string, integrity: string, cid: string, txId: string, stop: IssueStop)
    | Revoke(id: string)
    | SetArtisan(wallet: Address, status: string)
    | Pin(cid: string, meta: Meta)
    | Send(txId: string, tx: Tx)

  // ------------------------------------------------------------ the handlers

  /** INSERT … ON CONFLICT (address) DO UPDATE, which leaves `revoked` alone. */
  function Upsert(registry: map<Address, Row>, a: Address, id: string, walletVersion: int): map<Address, Row> {
    registry[a := Row(id, Some(walletVersion), a in registry && registry[a].revoked)]
  }

  /** The unique index on institutions: another address already has this one. */
  predicate Taken(registry: map<Address, Row>, id: string, a: Address) {
    exists b :: b in registry && b != a && registry[b].institutionId == id
  }

  function WithRegistry(s: Sys, registry: map<Address, Row>): Sys {
    s.(world := s.world.(registry := registry))
  }

  /** With Vault the key is written before the row and by itself; otherwise it is part of the row. */
  function ApproveInstitution(env: Env, s: Sys, id: string, seed: seq<byte>, stop: ApproveStop): Sys {
    if id in s.approved then s
    else
      var a := env.e.pub(seed);
      var keyed := if env.vault then s.(keys := s.keys[id := seed]) else s;
      if stop.AfterKey? || Taken(s.world.registry, id, a) then keyed
      else
        var stored := WithRegistry(s.(keys := s.keys[id := seed]), Upsert(s.world.registry, a, id, 2));
        if stop.AfterRow? then stored else stored.(approved := stored.approved + {id})
  }

  function RegisterOnSystemWallet(env: Env, s: Sys, id: string): Sys {
    var a := env.e.pub(env.systemSeed);
    if Taken(s.world.registry, id, a) then s else WithRegistry(s, Upsert(s.world.registry, a, id, 1))
  }

  /** The seed `/issue` signs with: the institution's own for version 2 wallets, else the system's. */
  function IssuerSeed(env: Env, s: Sys, r: Row): Option<seq<byte>> {
    if r.walletVersion != Some(2) || r.institutionId == LEGACY then Some(env.systemSeed)
    else if r.institutionId in s.keys then Some(s.keys[r.institutionId])
    else None
  }

  function IssuedMeta(env: Env, seed: seq<byte>, hash: string, integrity: string): Meta {
    Meta(Some(hash), integrity, "", "", env.hmac(hash), ToBase64(env.e.sign(seed, hash)))
  }

  function IssueCredential(env: Env, s: Sys, issuer: Address, hash: string, integrity: string, cid: string, txId: string, stop: IssueStop): Sys {
    if issuer !in s.world.registry || IssuerSeed(env, s, s.world.registry[issuer]).None? then s
    else
      var seed := IssuerSeed(env, s, s.world.registry[issuer]).value;
      var row := s.world.registry[issuer];
      var wv := if row.walletVersion != Some(2) || row.institutionId == LEGACY then 1 else 2;
      var pinned := s.(world := s.world.(ipfs := s.world.ipfs[cid := IssuedMeta(env, seed, hash, integrity)]));
      if stop.AfterPin? then pinned
      else
        var sent := pinned.(world := pinned.world.(ledger := s.world.ledger[txId := Tx(env.e.pub(seed), Some(Note(cid, Some(wv))), true)]));
        if stop.AfterSend? then sent
        else sent.(certs := s.certs[hash := Cert(txId, cid)],
                   log := s.log + [Issuance(hash, integrity, env.e.pub(seed), txId, cid)])
  }

  /** UPDATE did_registry SET revoked = 1 WHERE institution_id = id. */
  function RevokeIn(registry: map<Address, Row>, id: string): map<Address, Row> {
    map a | a in registry :: if registry[a].institutionId == id then registry[a].(revoked := true) else registry[a]
  }

  function Apply(env: Env, s: Sys, step: Step): Sys {
    match step
    case Approve(id, seed, stop) => ApproveInstitution(env, s, id, seed, stop)
    case RegisterLegacy(id) => RegisterOnSystemWallet(env, s, id)
    case Issue(issuer, hash, integrity, cid, txId, stop) => IssueCredential(env, s, issuer, hash, integrity, cid, txId, stop)
    case Revoke(id) => WithRegistry(s, RevokeIn(s.world.registry, id))
    case SetArtisan(wallet, status) => s.(world := s.world.(artisans := s.world.artisans[wallet := status]))
    case Pin(cid, meta) => s.(world := s.world.(ipfs := s.world.ipfs[cid := meta]))
    case Send(txId, tx) => s.(world := s.world.(ledger := s.world.ledger[txId := tx]))
  }

  function Run(env: Env, s: Sys, steps: seq<Step>): Sys
    decreases |steps|
  {
    if steps == [] then s else Run(env, Apply(env, s, steps[0]), steps[1..])
  }

  // ------------------------------------------------------------ what the environment guarantees

  ghost predicate IdealEnv(env: Env) {
    IdealEd25519(env.e) && |env.systemSeed| == 32 && forall h: string :: env.hmac(h) != "" && IsAscii(env.hmac(h))
  }

  /** Transaction ids are new, content ids belong to one content, seeds have 32 bytes. */
  ghost predicate Legal(env: Env, s: Sys, step: Step) {
    match step
    case Approve(id, seed, _) => |seed| == 32 && id != LEGACY
    case Issue(issuer, hash, integrity, cid, txId, _) =>
      && cid != "" && ValidTxId(txId) && txId !in s.world.ledger
      && (issuer in s.world.registry && IssuerSeed(env, s, s.world.registry[issuer]).Some? && cid in s.world.ipfs ==>
            s.world.ipfs[cid] == IssuedMeta(env, IssuerSeed(env, s, s.world.registry[issuer]).value, hash, integrity))
    case Pin(cid, meta) => cid in s.world.ipfs ==> s.world.ipfs[cid] == meta
    case Send(txId, _) => txId !in s.world.ledger
    case _ => true
  }

  ghost predicate LegalRun(env: Env, s: Sys, steps: seq<Step>)
    decreases |steps|
  {
    steps == [] || (Legal(env, s, steps[0]) && LegalRun(env, Apply(env, s, steps[0]), steps[1..]))
  }

  // ------------------------------------------------------------ invariant

  /** The last saved issuance of a hash. */
  function Latest(log: seq<Issuance>, hash: string): Option<Issuance> {
    if log == [] then None
    else if log[|log| - 1].hash == hash then Some(log[|log| - 1])
    else Latest(log[..|log| - 1], hash)
  }

  /** Ledger and IPFS only grow, and a revoked row stays revoked. */
  ghost predicate Grows(w: World, w': World) {
    && (forall t :: t in w.ledger ==> t in w'.ledger && w'.ledger[t] == w.ledger[t])
    && (forall c :: c in w.ipfs ==> c in w'.ipfs && w'.ipfs[c] == w.ipfs[c])
    && (forall a :: a in w.registry ==> a in w'.registry && (w.registry[a].revoked ==> w'.registry[a].revoked))
  }

  ghost predicate IssuanceOk(env: Env, w: World, r: Issuance) {
    && ValidTxId(r.txId) && Anchors(w, r.txId, r.hash)
    && w.ledger[r.txId].sender == r.sender && w.ledger[r.txId].note.value.cid == r.cid
    && Certified(w.ipfs[r.cid]) == r.integrity && w.ledger[r.txId].note.value.wv.Some?
    && Genuine(env, w, r.txId, r.cid, r.hash)
  }

  ghost predicate SysOk(env: Env, s: Sys) {
    && (forall k :: 0 <= k < |s.log| ==> IssuanceOk(env, s.world, s.log[k]))
    && (forall h :: h in s.certs <==> Latest(s.log, h).Some?)
    && (forall h :: h in s.certs ==> s.certs[h] == Cert(Latest(s.log, h).value.txId, Latest(s.log, h).value.cid))
  }

  lemma PutGrows(w: World, w': World, cid: string, meta: Meta, ledger: map<string, Tx>, txId: string, tx: Tx)
    requires cid in w.ipfs ==> w.ipfs[cid] == meta
    requires ledger == w.ledger || (txId !in w.ledger && ledger == w.ledger[txId := tx])
    requires w' == w.(ipfs := w.ipfs[cid := meta], ledger := ledger)
    ensures Grows(w, w')
  {
  }

  lemma IssueGrows(env: Env, s: Sys, step: Step)
    requires step.Issue? && Legal(env, s, step)
    ensures Grows(s.world, Apply(env, s, step).world)
  {
    var s' := Apply(env, s, step);
    if step.issuer in s.world.registry && IssuerSeed(env, s, s.world.registry[step.issuer]).Some? {
      var seed := IssuerSeed(env, s, s.world.registry[step.issuer]).value;
      var tx := if step.txId in s'.world.ledger then s'.world.ledger[step.txId] else Tx([], None, false);
      PutGrows(s.world, s'.world, step.cid, IssuedMeta(env, seed, step.hash, step.integrity), s'.world.ledger, step.txId, tx);
    }
  }

  lemma StepGrows(env: Env, s: Sys, step: Step)
    requires Legal(env, s, step)
    ensures Grows(s.world, Apply(env, s, step).world)
  {
    if step.Issue? {
      IssueGrows(env, s, step);
    }
  }

  lemma {:induction false} RunGrows(env: Env, s: Sys, steps: seq<Step>)
    requires LegalRun(env, s, steps)
    ensures Grows(s.world, Run(env, s, steps).world)
    decreases |steps|
  {
    if steps != [] {
      StepGrows(env, s, steps[0]);
      RunGrows(env, Apply(env, s, steps[0]), steps[1..]);
    }
  }

  ghost predicate KeysOk(s: Sys) {
    forall id :: id in s.keys ==> |s.keys[id]| == 32
  }

  lemma NewIssuanceOk(env: Env, s: Sys, step: Step)
    requires IdealEnv(env) && KeysOk(s) && Legal(env, s, step)
    requires step.Issue? && step.stop.Saved? && step.issuer in s.world.registry
    requires IssuerSeed(env, s, s.world.registry[step.issuer]).Some?
    ensures var sender := env.e.pub(IssuerSeed(env, s, s.world.registry[step.issuer]).value);
            IssuanceOk(env, Apply(env, s, step).world, Issuance(step.hash, step.integrity, sender, step.txId, step.cid))
  {
    SignatureText(env.e, IssuerSeed(env, s, s.world.registry[step.issuer]).value, step.hash);
  }

  lemma IssuanceStays(env: Env, w: World, w': World, r: Issuance)
    requires IssuanceOk(env, w, r) && Grows(w, w')
    ensures IssuanceOk(env, w', r)
  {
  }

  /** Only a saved issuance touches the table and the log. */
  lemma StepLogs(env: Env, s: Sys, step: Step)
    ensures var s' := Apply(env, s, step);
            if step.Issue? && step.stop.Saved? && step.issuer in s.world.registry
               && IssuerSeed(env, s, s.world.registry[step.issuer]).Some? then
              var sender := env.e.pub(IssuerSeed(env, s, s.world.registry[step.issuer]).value);
              s'.log == s.log + [Issuance(step.hash, step.integrity, sender, step.txId, step.cid)]
              && s'.certs == s.certs[step.hash := Cert(step.txId, step.cid)]
            else s'.log == s.log && s'.certs == s.certs
  {
  }

  lemma TableKeeps(env: Env, s: Sys, log: seq<Issuance>, certs: map<string, Cert>, r: Issuance)
    requires SysOk(env, s) && log == s.log + [r] && certs == s.certs[r.hash := Cert(r.txId, r.cid)]
    ensures forall h :: h in certs <==> Latest(log, h).Some?
    ensures forall h :: h in certs ==> certs[h] == Cert(Latest(log, h).value.txId, Latest(log, h).value.cid)
  {
    assert log[..|log| - 1] == s.log;
  }

  lemma StepKeeps(env: Env, s: Sys, step: Step)
    requires IdealEnv(env) && KeysOk(s) && SysOk(env, s) && Legal(env, s, step)
    ensures SysOk(env, Apply(env, s, step))
  {
    var s' := Apply(env, s, step);
    StepGrows(env, s, step);
    StepLogs(env, s, step);
    if s'.log != s.log {
      NewIssuanceOk(env, s, step);
      TableKeeps(env, s, s'.log, s'.certs, s'.log[|s.log|]);
    }
    forall k | 0 <= k < |s'.log|
      ensures IssuanceOk(env, s'.world, s'.log[k])
    {
      if k < |s.log| {
        IssuanceStays(env, s.world, s'.world, s.log[k]);
      }
    }
  }

  lemma StepKeepsKeys(env: Env, s: Sys, step: Step)
    requires KeysOk(s) && Legal(env, s, step)
    ensures KeysOk(Apply(env, s, step))
  {
  }

  lemma {:induction false} RunKeeps(env: Env, s: Sys, steps: seq<Step>)
    requires IdealEnv(env) && KeysOk(s) && SysOk(env, s) && LegalRun(env, s, steps)
    ensures KeysOk(Run(env, s, steps)) && SysOk(env, Run(env, s, steps))
    decreases |steps|
  {
    if steps != [] {
      StepKeeps(env, s, steps[0]);
      StepKeepsKeys(env, s, steps[0]);
      RunKeeps(env, Apply(env, s, steps[0]), steps[1..]);
    }
  }

  lemma {:induction false} LatestIn(log: seq<Issuance>, hash: string)
    ensures Latest(log, hash).Some? ==> Latest(log, hash).value in log && Latest(log, hash).value.hash == hash
  {
    if log != [] {
      LatestIn(log[..|log| - 1], hash);
    }
  }

  // ------------------------------------------------------------ main results

  function Verify(env: Env, s: Sys, net: Net, hash: string, uploaded: Option<string>, txns: seq<string>): Verdict {
    VerifyHash(env, s.world, net, s.certs, hash, uploaded, txns)
  }

  /** A file hash that a verification can compare; every hex digest is one. */
  predicate Usable(integrity: string) {
    integrity != "" && IsAscii(integrity)
  }

  /** After every run: a recorded hash verifies exactly when the network answers, the upload is a usable
      hash and is what the last recorded issuance certified, and the sender of that issuance is trusted. */
  lemma IssuedIsValidExactly(env: Env, steps: seq<Step>, net: Net, hash: string, uploaded: Option<string>, txns: seq<string>)
    requires IdealEnv(env) && LegalRun(env, INIT, steps) && hash in Run(env, INIT, steps).certs
    ensures var s := Run(env, INIT, steps);
            var v := Verify(env, s, net, hash, uploaded, txns);
            Latest(s.log, hash).Some? &&
            var r := Latest(s.log, hash).value;
            && (IsValid(v) <==>
                  && net.lookup.Answers? && net.reach(r.cid)
                  && uploaded == Some(r.integrity) && Usable(r.integrity)
                  && Trusted(s.world, r.sender))
            && (IsValid(v) ==> v.trust.score == 100 && v.txId == r.txId)
  {
    RunKeeps(env, INIT, steps);
    var s := Run(env, INIT, steps);
    LatestIn(s.log, hash);
    var r := Latest(s.log, hash).value;
    assert IssuanceOk(env, s.world, r);
    ValidExactly(env, s.world, net, hash, r.txId, r.cid, uploaded);
  }

  /** Once an address is revoked no later verification accepts any transaction it sent, through the table or
      the scan, whatever is registered, issued or re-issued meanwhile: no upsert clears the flag. */
  lemma RevocationIsFinal(env: Env, s: Sys, steps: seq<Step>, a: Address, net: Net, hash: string, uploaded: Option<string>, txns: seq<string>)
    requires LegalRun(env, s, steps) && a in s.world.registry && s.world.registry[a].revoked
    ensures var s' := Run(env, s, steps);
            var v := Verify(env, s', net, hash, uploaded, txns);
            && a in s'.world.registry && s'.world.registry[a].revoked
            && (IsValid(v) ==> v.txId in s'.world.ledger && s'.world.ledger[v.txId].sender != a)
  {
    RunGrows(env, s, steps);
    var s' := Run(env, s, steps);
    var v := Verify(env, s', net, hash, uploaded, txns);
    if IsValid(v) {
      if hash !in s'.certs {
        ScanIsSound(env, s'.world, net, hash, uploaded, txns);
        ValidMeans(env, s'.world, net, hash, v.txId, v.cid, uploaded);
      } else {
        ValidMeans(env, s'.world, net, hash, s'.certs[hash].txId, s'.certs[hash].cid, uploaded);
      }
    }
  }

  /** After every run: if the scan lists the recorded transaction and no other one about the hash, then
      with the table row gone it gives the same verdict and its source, exactly when it runs, reaches the
      metadata and the table does not raise on a file hash outside ASCII. */
  lemma TableAgreesWithLedger(env: Env, steps: seq<Step>, net: Net, hash: string, uploaded: Option<string>, txns: seq<string>)
    requires IdealEnv(env) && LegalRun(env, INIT, steps) && hash in Run(env, INIT, steps).certs
    requires Run(env, INIT, steps).certs[hash].txId in txns
    requires forall t :: t in txns && Anchors(Run(env, INIT, steps).world, t, hash) ==> t == Run(env, INIT, steps).certs[hash].txId
    ensures var s := Run(env, INIT, steps);
            Verify(env, s.(certs := s.certs - {hash}), net, hash, uploaded, txns)
            == Tagged(Verify(env, s, net, hash, uploaded, txns))
            <==> && net.scanUp && net.reach(s.certs[hash].cid) && Latest(s.log, hash).Some?
                 && !(net.lookup.Answers? && HashesRaise(uploaded, Latest(s.log, hash).value.integrity))
  {
    RunKeeps(env, INIT, steps);
    var s := Run(env, INIT, steps);
    LatestIn(s.log, hash);
    var r := Latest(s.log, hash).value;
    assert IssuanceOk(env, s.world, r);
    ScanAgrees(env, s.world, net, s.certs, hash, uploaded, txns);
    RecordedRaises(env, s.world, net, r, uploaded);
  }

  /** A recorded issuance raises only on the comparison of the file hashes. */
  lemma RecordedRaises(env: Env, w: World, net: Net, r: Issuance, uploaded: Option<string>)
    requires IdealEnv(env) && IssuanceOk(env, w, r)
    ensures net.reach(r.cid) ==>
              (VerifyFull(env, w, net, r.hash, r.txId, r.cid, uploaded).Raised? <==>
               net.lookup.Answers? && HashesRaise(uploaded, r.integrity))
  {
    if net.lookup.Answers? {
      RaisesExactly(env, w, net, r.hash, r.txId, r.cid, uploaded);
    }
  }

  // ------------------------------------------------------------ approvals

  /** An approval is not started again once its institution has a row. */
  ghost predicate Orderly(s: Sys, step: Step) {
    step.Approve? ==> step.id in s.approved || forall a :: a in s.world.registry ==> s.world.registry[a].institutionId != step.id
  }

  ghost predicate OrderlyRun(env: Env, s: Sys, steps: seq<Step>)
    decreases |steps|
  {
    steps == [] || ((env.vault ==> Orderly(s, steps[0])) && OrderlyRun(env, Apply(env, s, steps[0]), steps[1..]))
  }

  /** The row issues from the system wallet and is its row, or from its own key whose address is registered. */
  ghost predicate RowOk(env: Env, s: Sys, a: Address)
    requires a in s.world.registry
  {
    var r := s.world.registry[a];
    || (r.walletVersion == Some(1) && a == env.e.pub(env.systemSeed))
    || (r.walletVersion == Some(2) && r.institutionId != LEGACY && r.institutionId in s.keys
        && env.e.pub(s.keys[r.institutionId]) in s.world.registry)
  }

  ghost predicate SendersOk(env: Env, s: Sys) {
    && (forall a :: a in s.world.registry ==> RowOk(env, s, a))
    && (forall k :: 0 <= k < |s.log| ==> s.log[k].sender in s.world.registry)
  }

  lemma ApproveKeepsRows(env: Env, s: Sys, step: Step, a: Address)
    requires step.Approve? && Legal(env, s, step) && (env.vault ==> Orderly(s, step)) && SendersOk(env, s)
    requires a in Apply(env, s, step).world.registry
    ensures RowOk(env, Apply(env, s, step), a)
  {
    var s' := Apply(env, s, step);
    assert a in s.world.registry ==> RowOk(env, s, a);
    if step.id in s.approved {
      assert s' == s;
    } else if step.astop.AfterKey? || Taken(s.world.registry, step.id, env.e.pub(step.seed)) {
      assert s'.world == s.world;
    } else {
      assert s'.keys == s.keys[step.id := step.seed];
      assert s'.world.registry == Upsert(s.world.registry, env.e.pub(step.seed), step.id, 2);
    }
  }

  lemma OtherStepKeepsRows(env: Env, s: Sys, step: Step, a: Address)
    requires !step.Approve? && Legal(env, s, step) && SendersOk(env, s)
    requires a in Apply(env, s, step).world.registry
    ensures RowOk(env, Apply(env, s, step), a)
  {
    assert a in s.world.registry ==> RowOk(env, s, a);
  }

  lemma StepKeepsSenders(env: Env, s: Sys, step: Step)
    requires Legal(env, s, step) && (env.vault ==> Orderly(s, step)) && SendersOk(env, s)
    ensures SendersOk(env, Apply(env, s, step))
  {
    var s' := Apply(env, s, step);
    StepGrows(env, s, step);
    StepLogs(env, s, step);
    forall a | a in s'.world.registry
      ensures RowOk(env, s', a)
    {
      if step.Approve? {
        ApproveKeepsRows(env, s, step, a);
      } else {
        OtherStepKeepsRows(env, s, step, a);
      }
    }
    if step.Issue? && step.issuer in s.world.registry {
      assert RowOk(env, s, step.issuer);
    }
  }

  lemma {:induction false} RunKeepsSenders(env: Env, s: Sys, steps: seq<Step>)
    requires LegalRun(env, s, steps) && OrderlyRun(env, s, steps) && SendersOk(env, s)
    ensures SendersOk(env, Run(env, s, steps))
    decreases |steps|
  {
    if steps != [] {
      StepKeepsSenders(env, s, steps[0]);
      RunKeepsSenders(env, Apply(env, s, steps[0]), steps[1..]);
    }
  }

  /** If approvals run in order (only Vault mode needs this) a recorded hash is valid exactly when the
      network answers, the upload is the certified one and the sender is not revoked. */
  lemma OrderlyIssuedIsValidExactly(env: Env, steps: seq<Step>, net: Net, hash: string, uploaded: Option<string>, txns: seq<string>)
    requires IdealEnv(env) && LegalRun(env, INIT, steps) && OrderlyRun(env, INIT, steps)
    requires hash in Run(env, INIT, steps).certs
    ensures var s := Run(env, INIT, steps);
            Latest(s.log, hash).Some? &&
            var r := Latest(s.log, hash).value;
            && r.sender in s.world.registry
            && (IsValid(Verify(env, s, net, hash, uploaded, txns)) <==>
                  && net.lookup.Answers? && net.reach(r.cid)
                  && uploaded == Some(r.integrity) && Usable(r.integrity)
                  && !s.world.registry[r.sender].revoked)
  {
    IssuedIsValidExactly(env, steps, net, hash, uploaded, txns);
    RunKeepsSenders(env, INIT, steps);
    LatestIn(Run(env, INIT, steps).log, hash);
  }

  lemma {:induction false} RunSnoc(env: Env, s: Sys, steps: seq<Step>, step: Step)
    ensures Run(env, s, steps + [step]) == Apply(env, Run(env, s, steps), step)
    ensures LegalRun(env, s, steps + [step]) <==> LegalRun(env, s, steps) && Legal(env, Run(env, s, steps), step)
    decreases |steps|
  {
    if steps == [] {
      assert [step][1..] == [] && [] + [step] == [step];
    } else {
      assert (steps + [step])[1..] == steps[1..] + [step];
      RunSnoc(env, Apply(env, s, steps[0]), steps[1..], step);
    }
  }

  lemma IssuedIsLatest(env: Env, s: Sys, step: Step)
    requires step.Issue? && step.stop.Saved? && step.issuer in s.world.registry
    requires IssuerSeed(env, s, s.world.registry[step.issuer]).Some?
    ensures var s', sender := Apply(env, s, step), env.e.pub(IssuerSeed(env, s, s.world.registry[step.issuer]).value);
            && step.hash in s'.certs
            && Latest(s'.log, step.hash) == Some(Issuance(step.hash, step.integrity, sender, step.txId, step.cid))
            && (forall a :: Trusted(s'.world, a) <==> Trusted(s.world, a))
  {
    StepLogs(env, s, step);
  }

  /** What a registered institution issues can verify exactly when the file hash is usable and the address
      of the key it signs with is trusted: registered and not revoked, or an approved artisan's wallet. */
  lemma IssuableExactly(env: Env, history: seq<Step>, step: Step)
    requires IdealEnv(env) && LegalRun(env, INIT, history) && Legal(env, Run(env, INIT, history), step)
    requires step.Issue? && step.stop.Saved?
    requires step.issuer in Run(env, INIT, history).world.registry
    requires IssuerSeed(env, Run(env, INIT, history), Run(env, INIT, history).world.registry[step.issuer]).Some?
    ensures var s := Run(env, INIT, history);
            var sender := env.e.pub(IssuerSeed(env, s, s.world.registry[step.issuer]).value);
            (exists net, uploaded, txns :: IsValid(Verify(env, Apply(env, s, step), net, step.hash, uploaded, txns)))
            <==> Trusted(s.world, sender) && Usable(step.integrity)
  {
    var s := Run(env, INIT, history);
    if net, uploaded, txns :| IsValid(Verify(env, Apply(env, s, step), net, step.hash, uploaded, txns)) {
      IssuedVerdict(env, history, step, net, uploaded, txns);
    }
    var net, uploaded := Net(Answers, true, _ => true), Some(step.integrity);
    IssuedVerdict(env, history, step, net, uploaded, []);
    var sender := env.e.pub(IssuerSeed(env, s, s.world.registry[step.issuer]).value);
    assert Trusted(s.world, sender) && Usable(step.integrity) ==>
        IsValid(Verify(env, Apply(env, s, step), net, step.hash, uploaded, []));
  }

  /** The verdict right after an issuance. */
  lemma IssuedVerdict(env: Env, history: seq<Step>, step: Step, net: Net, uploaded: Option<string>, txns: seq<string>)
    requires IdealEnv(env) && LegalRun(env, INIT, history) && Legal(env, Run(env, INIT, history), step)
    requires step.Issue? && step.stop.Saved?
    requires step.issuer in Run(env, INIT, history).world.registry
    requires IssuerSeed(env, Run(env, INIT, history), Run(env, INIT, history).world.registry[step.issuer]).Some?
    ensures var s := Run(env, INIT, history);
            var sender := env.e.pub(IssuerSeed(env, s, s.world.registry[step.issuer]).value);
            IsValid(Verify(env, Apply(env, s, step), net, step.hash, uploaded, txns)) <==>
              && net.lookup.Answers? && net.reach(step.cid) && uploaded == Some(step.integrity) && Usable(step.integrity)
              && Trusted(s.world, sender)
  {
    RunSnoc(env, INIT, history, step);
    IssuedIsLatest(env, Run(env, INIT, history), step);
    IssuedIsValidExactly(env, history + [step], net, step.hash, uploaded, txns);
  }

  /** An institution whose row stands under one key and who issues with another. */
  ghost predicate KeyReplaced(env: Env, s: Sys, id: string, a: Address, seed': seq<byte>) {
    && s.world.registry.Keys == {a} && s.world.artisans == map[]
    && s.world.registry[a].institutionId == id && s.world.registry[a].walletVersion == Some(2)
    && id in s.keys && s.keys[id] == seed'
    && (forall k :: 0 <= k < |s.log| ==> s.log[k].sender == env.e.pub(seed'))
  }

  predicate IsLaterWork(step: Step) {
    step.Issue? || step.Pin? || step.Send? || step.Revoke?
  }

  lemma LaterWorkKeeps(env: Env, s: Sys, step: Step, id: string, a: Address, seed': seq<byte>)
    requires KeyReplaced(env, s, id, a, seed') && IsLaterWork(step) && id != LEGACY
    ensures KeyReplaced(env, Apply(env, s, step), id, a, seed')
  {
    StepLogs(env, s, step);
  }

  lemma {:induction false} LaterRunKeeps(env: Env, s: Sys, steps: seq<Step>, id: string, a: Address, seed': seq<byte>)
    requires KeyReplaced(env, s, id, a, seed') && id != LEGACY && forall k :: 0 <= k < |steps| ==> IsLaterWork(steps[k])
    ensures KeyReplaced(env, Run(env, s, steps), id, a, seed')
    decreases |steps|
  {
    if steps != [] {
      LaterWorkKeeps(env, s, steps[0], id, a, seed');
      LaterRunKeeps(env, Apply(env, s, steps[0]), steps[1..], id, a, seed');
    }
  }

  /** In Vault mode an approval that stops after its row and is started again replaces the key. From then on
      the institution can still issue, with the new key, and nothing it issues ever verifies. */
  lemma RetriedApprovalBreaksIssuing(env: Env, id: string, seed: seq<byte>, seed': seq<byte>, later: seq<Step>, hash: string,
                                     net: Net, uploaded: Option<string>, txns: seq<string>)
    requires IdealEnv(env) && env.vault && |seed| == |seed'| == 32 && env.e.pub(seed) != env.e.pub(seed') && id != LEGACY
    requires forall k :: 0 <= k < |later| ==> IsLaterWork(later[k])
    requires LegalRun(env, INIT, [Approve(id, seed, AfterRow), Approve(id, seed', Approved)] + later)
    ensures var s, a := Run(env, INIT, [Approve(id, seed, AfterRow), Approve(id, seed', Approved)] + later), env.e.pub(seed);
            && a in s.world.registry && IssuerSeed(env, s, s.world.registry[a]) == Some(seed')
            && (hash in s.certs ==> !IsValid(Verify(env, s, net, hash, uploaded, txns)))
  {
    var a := env.e.pub(seed);
    var s1 := Apply(env, INIT, Approve(id, seed, AfterRow));
    assert s1.world.registry == map[a := Row(id, Some(2), false)] && s1.world.artisans == map[];
    var s2 := Apply(env, s1, Approve(id, seed', Approved));
    assert Taken(s1.world.registry, id, env.e.pub(seed')) by {
      assert a in s1.world.registry;
    }
    assert s2 == s1.(keys := s1.keys[id := seed']);
    var steps := [Approve(id, seed, AfterRow), Approve(id, seed', Approved)] + later;
    TwoSteps(env, INIT, Approve(id, seed, AfterRow), Approve(id, seed', Approved), later);
    LaterRunKeeps(env, s2, later, id, a, seed');
    var s := Run(env, INIT, steps);
    if hash in s.certs {
      IssuedIsValidExactly(env, steps, net, hash, uploaded, txns);
      LatestIn(s.log, hash);
    }
  }

  lemma TwoSteps(env: Env, s: Sys, a: Step, b: Step, rest: seq<Step>)
    ensures Run(env, s, [a, b] + rest) == Run(env, Apply(env, Apply(env, s, a), b), rest)
  {
    var steps := [a, b] + rest;
    assert steps[1..] == [b] + rest && ([b] + rest)[1..] == rest;
    assert Run(env, s, steps) == Run(env, Apply(env, s, a), [b] + rest);
  }

  // ------------------------------------------------------------ who is revoked, and that others are accepted

  /** Somewhere in the run the id that the row of this address carried at that moment is revoked. */
  predicate RevokedDuring(env: Env, s: Sys, steps: seq<Step>, a: Address)
    decreases |steps|
  {
    steps != [] &&
    ((steps[0].Revoke? && a in s.world.registry && s.world.registry[a].institutionId == steps[0].id)
     || RevokedDuring(env, Apply(env, s, steps[0]), steps[1..], a))
  }

  /** What a step does to the registry: one upsert, one revocation, or nothing. */
  lemma StepRegistry(env: Env, s: Sys, step: Step)
    ensures var registry, registry' := s.world.registry, Apply(env, s, step).world.registry;
            match step
            case Approve(id, seed, stop) =>
              registry' == if id in s.approved || stop.AfterKey? || Taken(registry, id, env.e.pub(seed)) then registry
                           else Upsert(registry, env.e.pub(seed), id, 2)
            case RegisterLegacy(id) =>
              registry' == if Taken(registry, id, env.e.pub(env.systemSeed)) then registry
                           else Upsert(registry, env.e.pub(env.systemSeed), id, 1)
            case Revoke(id) => registry' == RevokeIn(registry, id)
            case _ => registry' == registry
  {
    match step
    case Approve(id, seed, stop) => ApproveRegistry(env, s, id, seed, stop);
    case Issue(issuer, hash, integrity, cid, txId, stop) => IssueRegistry(env, s, issuer, hash, integrity, cid, txId, stop);
    case _ =>
  }

  lemma ApproveRegistry(env: Env, s: Sys, id: string, seed: seq<byte>, stop: ApproveStop)
    ensures ApproveInstitution(env, s, id, seed, stop).world.registry ==
            if id in s.approved || stop.AfterKey? || Taken(s.world.registry, id, env.e.pub(seed)) then s.world.registry
            else Upsert(s.world.registry, env.e.pub(seed), id, 2)
  {
  }

  lemma IssueRegistry(env: Env, s: Sys, issuer: Address, hash: string, integrity: string, cid: string, txId: string, stop: IssueStop)
    ensures IssueCredential(env, s, issuer, hash, integrity, cid, txId, stop).world.registry == s.world.registry
  {
  }

  lemma UpsertRevokes(registry: map<Address, Row>, a: Address, id: string, walletVersion: int, b: Address)
    ensures var registry' := Upsert(registry, a, id, walletVersion);
            && (b in registry ==> b in registry')
            && (b in registry' ==> (registry'[b].revoked <==> b in registry && registry[b].revoked))
  {
  }

  lemma RevokeRevokes(registry: map<Address, Row>, id: string, b: Address)
    ensures var registry' := RevokeIn(registry, id);
            && (b in registry <==> b in registry')
            && (b in registry ==> (registry'[b].revoked <==> registry[b].revoked || registry[b].institutionId == id))
  {
  }

  lemma StepRevokes(env: Env, s: Sys, step: Step, a: Address)
    ensures var registry, registry' := s.world.registry, Apply(env, s, step).world.registry;
            && (a in registry ==> a in registry')
            && (a in registry' ==>
                  (registry'[a].revoked <==>
                     a in registry && (registry[a].revoked || (step.Revoke? && registry[a].institutionId == step.id))))
  {
    StepRegistry(env, s, step);
    match step
    case Approve(id, seed, _) => UpsertRevokes(s.world.registry, env.e.pub(seed), id, 2, a);
    case RegisterLegacy(id) => UpsertRevokes(s.world.registry, env.e.pub(env.systemSeed), id, 1, a);
    case Revoke(id) => RevokeRevokes(s.world.registry, id, a);
    case _ =>
  }

  lemma {:induction false} RunRevokes(env: Env, s: Sys, steps: seq<Step>, a: Address)
    requires a in Run(env, s, steps).world.registry
    ensures Run(env, s, steps).world.registry[a].revoked <==>
            (a in s.world.registry && s.world.registry[a].revoked) || RevokedDuring(env, s, steps, a)
    decreases |steps|
  {
    if steps != [] {
      StepRevokes(env, s, steps[0], a);
      RunRevokes(env, Apply(env, s, steps[0]), steps[1..], a);
    }
  }

  /** Over every run: a row is revoked exactly if the id it carried at some moment was revoked at that moment.
      Registration never makes a row revoked, and revoking one institution never touches another. */
  lemma RevokedExactly(env: Env, steps: seq<Step>, a: Address)
    requires a in Run(env, INIT, steps).world.registry
    ensures Run(env, INIT, steps).world.registry[a].revoked <==> RevokedDuring(env, INIT, steps, a)
  {
    RunRevokes(env, INIT, steps, a);
  }

  /** No two rows of the registry are of one institution. */
  ghost predicate OneRowEach(s: Sys) {
    DistinctIds(s.world.registry)
  }

  ghost predicate DistinctIds(registry: map<Address, Row>) {
    forall a, b :: a in registry && b in registry && a != b ==> registry[a].institutionId != registry[b].institutionId
  }

  lemma UpsertKeepsIds(registry: map<Address, Row>, a: Address, id: string, walletVersion: int)
    requires DistinctIds(registry) && !Taken(registry, id, a)
    ensures DistinctIds(Upsert(registry, a, id, walletVersion))
  {
  }

  lemma RevokeKeepsIds(registry: map<Address, Row>, id: string)
    requires DistinctIds(registry)
    ensures DistinctIds(RevokeIn(registry, id))
  {
  }

  lemma StepKeepsOneRow(env: Env, s: Sys, step: Step)
    requires OneRowEach(s)
    ensures OneRowEach(Apply(env, s, step))
  {
    var registry := s.world.registry;
    StepRegistry(env, s, step);
    match step
    case Approve(id, seed, _) =>
      if !Taken(registry, id, env.e.pub(seed)) {
        UpsertKeepsIds(registry, env.e.pub(seed), id, 2);
      }
    case RegisterLegacy(id) =>
      if !Taken(registry, id, env.e.pub(env.systemSeed)) {
        UpsertKeepsIds(registry, env.e.pub(env.systemSeed), id, 1);
      }
    case Revoke(id) => RevokeKeepsIds(registry, id);
    case _ =>
  }

  lemma {:induction false} RunKeepsOneRow(env: Env, s: Sys, steps: seq<Step>)
    requires OneRowEach(s)
    ensures OneRowEach(Run(env, s, steps))
    decreases |steps|
  {
    if steps != [] {
      StepKeepsOneRow(env, s, steps[0]);
      RunKeepsOneRow(env, Apply(env, s, steps[0]), steps[1..]);
    }
  }

  /** An approval that nothing stops: a new institution with an address that has no row yet. */
  ghost predicate FirstApproval(env: Env, s: Sys, id: string, seed: seq<byte>) {
    && id !in s.approved && |seed| == 32 && id != LEGACY && env.e.pub(seed) !in s.world.registry
    && forall b :: b in s.world.registry ==> s.world.registry[b].institutionId != id
  }

  /** What an approval leaves at each of its stops. */
  lemma ApprovalLeaves(env: Env, s: Sys, id: string, seed: seq<byte>, stop: ApproveStop)
    requires FirstApproval(env, s, id, seed)
    ensures var s', a := Apply(env, s, Approve(id, seed, stop)), env.e.pub(seed);
            && s'.certs == s.certs && s'.log == s.log && s'.world.ledger == s.world.ledger
            && (stop == AfterKey ==>
                  s'.world == s.world && s'.approved == s.approved
                  && s'.keys == if env.vault then s.keys[id := seed] else s.keys)
            && (stop != AfterKey ==>
                  s'.world.registry == s.world.registry[a := Row(id, Some(2), false)] && s'.keys == s.keys[id := seed])
            && (stop == AfterRow ==> s'.approved == s.approved)
            && (stop == Approved ==> s'.approved == s.approved + {id})
  {
    assert !Taken(s.world.registry, id, env.e.pub(seed));
  }

  /** Without a row or a key an issuance leaves nothing. */
  lemma IssueNeedsKey(env: Env, s: Sys, issue: Step)
    requires issue.Issue?
    requires issue.issuer !in s.world.registry || IssuerSeed(env, s, s.world.registry[issue.issuer]).None?
    ensures Apply(env, s, issue) == s
  {
  }

  /** What an issuance leaves at each of its stops: metadata first, then the transaction, then the table row. */
  lemma IssueLeaves(env: Env, s: Sys, issue: Step)
    requires issue.Issue? && issue.issuer in s.world.registry && IssuerSeed(env, s, s.world.registry[issue.issuer]).Some?
    ensures var s', seed, row := Apply(env, s, issue), IssuerSeed(env, s, s.world.registry[issue.issuer]).value, s.world.registry[issue.issuer];
            var own := row.walletVersion == Some(2) && row.institutionId != LEGACY;
            var meta := Meta(Some(issue.hash), issue.integrity, "", "", env.hmac(issue.hash), ToBase64(env.e.sign(seed, issue.hash)));
            var tx := Tx(env.e.pub(seed), Some(Note(issue.cid, Some(if own then 2 else 1))), true);
            && s'.world == World(if issue.stop == AfterPin then s.world.ledger else s.world.ledger[issue.txId := tx],
                                 s.world.ipfs[issue.cid := meta], s.world.registry, s.world.artisans)
            && s'.certs == (if issue.stop == Saved then s.certs[issue.hash := Cert(issue.txId, issue.cid)] else s.certs)
            && s'.keys == s.keys && s'.approved == s.approved
  {
  }

  /** Approving again changes nothing. */
  lemma ApprovedOnce(env: Env, s: Sys, id: string, seed: seq<byte>, stop: ApproveStop)
    requires id in s.approved
    ensures Apply(env, s, Approve(id, seed, stop)) == s
  {
  }

  /** An institution that is approved and issues is accepted: from every reachable state its first credential
      verifies in full, from its own address and with its own wallet. */
  lemma ApprovedIsAccepted(env: Env, history: seq<Step>, id: string, seed: seq<byte>, issue: Step, txns: seq<string>)
    requires IdealEnv(env) && LegalRun(env, INIT, history) && FirstApproval(env, Run(env, INIT, history), id, seed)
    requires issue.Issue? && issue.issuer == env.e.pub(seed) && issue.stop.Saved? && Usable(issue.integrity)
    requires Legal(env, Apply(env, Run(env, INIT, history), Approve(id, seed, Approved)), issue)
    ensures var s := Apply(env, Apply(env, Run(env, INIT, history), Approve(id, seed, Approved)), issue);
            var v := Verify(env, s, Net(Answers, true, _ => true), issue.hash, Some(issue.integrity), txns);
            && IsValid(v) && v.trust.score == 100 && v.walletVersion == 2 && v.txId == issue.txId && v.cid == issue.cid
            && s.world.ledger[issue.txId] == Tx(env.e.pub(seed), Some(Note(issue.cid, Some(2))), true)
  {
    var s0, approve, a := Run(env, INIT, history), Approve(id, seed, Approved), env.e.pub(seed);
    var s1 := Apply(env, s0, approve);
    ApprovalLeaves(env, s0, id, seed, Approved);
    RunSnoc(env, INIT, history, approve);
    assert IssuerSeed(env, s1, s1.world.registry[a]) == Some(seed);
    FullyAccepted(env, history + [approve], issue, txns);
  }

  /** The same for an institution registered on the system wallet, as long as that is not revoked. */
  lemma LegacyIsAccepted(env: Env, history: seq<Step>, id: string, issue: Step, txns: seq<string>)
    requires IdealEnv(env) && LegalRun(env, INIT, history)
    requires var registry := Run(env, INIT, history).world.registry;
             var a := env.e.pub(env.systemSeed);
             && (forall b :: b in registry && b != a ==> registry[b].institutionId != id)
             && (a in registry ==> !registry[a].revoked)
    requires issue.Issue? && issue.issuer == env.e.pub(env.systemSeed) && issue.stop.Saved? && Usable(issue.integrity)
    requires Legal(env, Apply(env, Run(env, INIT, history), RegisterLegacy(id)), issue)
    ensures var s := Apply(env, Apply(env, Run(env, INIT, history), RegisterLegacy(id)), issue);
            var v := Verify(env, s, Net(Answers, true, _ => true), issue.hash, Some(issue.integrity), txns);
            && IsValid(v) && v.trust.score == 100 && v.walletVersion == 1 && v.txId == issue.txId && v.cid == issue.cid
            && s.world.ledger[issue.txId] == Tx(env.e.pub(env.systemSeed), Some(Note(issue.cid, Some(1))), true)
  {
    var s0, register, a := Run(env, INIT, history), RegisterLegacy(id), env.e.pub(env.systemSeed);
    var s1 := Apply(env, s0, register);
    assert !Taken(s0.world.registry, id, a);
    assert s1.world.registry[a] == Row(id, Some(1), false);
    RunSnoc(env, INIT, history, register);
    FullyAccepted(env, history + [register], issue, txns);
  }

  /** An issuance whose signing address is the issuer's own, registered and not revoked, is accepted. */
  lemma FullyAccepted(env: Env, history: seq<Step>, issue: Step, txns: seq<string>)
    requires IdealEnv(env) && LegalRun(env, INIT, history) && Legal(env, Run(env, INIT, history), issue)
    requires issue.Issue? && issue.stop.Saved? && Usable(issue.integrity)
    requires var s := Run(env, INIT, history);
             && issue.issuer in s.world.registry && !s.world.registry[issue.issuer].revoked
             && s.world.registry[issue.issuer].walletVersion.Some?
             && IssuerSeed(env, s, s.world.registry[issue.issuer]).Some?
             && env.e.pub(IssuerSeed(env, s, s.world.registry[issue.issuer]).value) == issue.issuer
             && (s.world.registry[issue.issuer].walletVersion == Some(2) ==> s.world.registry[issue.issuer].institutionId != LEGACY)
    ensures var s := Run(env, INIT, history);
            var s', version := Apply(env, s, issue), s.world.registry[issue.issuer].walletVersion.value;
            var v := Verify(env, s', Net(Answers, true, _ => true), issue.hash, Some(issue.integrity), txns);
            && IsValid(v) && v.trust.score == 100 && v.walletVersion == version && v.txId == issue.txId && v.cid == issue.cid
            && s'.world.ledger[issue.txId] == Tx(issue.issuer, Some(Note(issue.cid, Some(if version == 2 then 2 else 1))), true)
  {
    var net := Net(Answers, true, _ => true);
    IssuedVerdict(env, history, issue, net, Some(issue.integrity), txns);
    var s := Run(env, INIT, history);
    var s' := Apply(env, s, issue);
    assert s'.certs[issue.hash] == Cert(issue.txId, issue.cid) && s'.world.registry == s.world.registry;
    ReportedVersion(env, s'.world, net, issue.hash, issue.txId, issue.cid, Some(issue.integrity));
  }

  // ------------------------------------------------------------ the service object

  /** The stores behind the handlers. */
  class CredentialService {
    var registry: map<Address, Row>
    var artisans: map<Address, string>
    var keys: map<string, seq<byte>>
    var approved: set<string>
    var certificates: map<string, Cert>
    var ledger: map<string, Tx>
    var ipfs: map<string, Meta>
    ghost var log: seq<Issuance>

    ghost function State(): Sys
      reads this
    {
      Sys(World(ledger, ipfs, registry, artisans), keys, approved, certificates, log)
    }

    constructor ()
      ensures State() == INIT
    {
      registry, artisans, keys, approved := map[], map[], map[], {};
      certificates, ledger, ipfs, log := map[], map[], map[], [];
    }

    method RegisterDid(a: Address, id: string, walletVersion: int) returns (ok: bool)
      modifies this
      ensures ok <==> !Taken(old(registry), id, a)
      ensures State() == if ok then WithRegistry(old(State()), Upsert(old(registry), a, id, walletVersion)) else old(State())
    {
      if exists b | b in registry.Keys :: b != a && registry[b].institutionId == id {
        return false;
      }
      var revoked := a in registry && registry[a].revoked;
      registry := registry[a := Row(id, Some(walletVersion), revoked)];
      return true;
    }

    method ApproveRegistration(env: Env, id: string, seed: seq<byte>, stop: ApproveStop)
      modifies this
      ensures State() == Apply(env, old(State()), Approve(id, seed, stop))
    {
      if id in approved {
        return;
      }
      var was := keys;
      if env.vault {
        keys := keys[id := seed];
      }
      if stop.AfterKey? {
        return;
      }
      var ok := RegisterDid(env.e.pub(seed), id, 2);
      if !ok {
        return;
      }
      if !env.vault {
        keys := was[id := seed];
      }
      if stop.AfterRow? {
        return;
      }
      approved := approved + {id};
    }

    /** `/issue`: choose the wallet, sign, pin the metadata, send the transaction, save the row. */
    method IssueAndAnchor(env: Env, issuer: Address, hash: string, integrity: string, cid: string, txId: string, stop: IssueStop)
      returns (issued: bool)
      modifies this
      ensures State() == Apply(env, old(State()), Issue(issuer, hash, integrity, cid, txId, stop))
      ensures issued ==> hash in certificates && certificates[hash] == Cert(txId, cid)
    {
      if issuer !in registry {
        return false;
      }
      var row := registry[issuer];
      var own := row.walletVersion == Some(2) && row.institutionId != LEGACY;
      if own && row.institutionId !in keys {
        return false;
      }
      var seed := if own then keys[row.institutionId] else env.systemSeed;
      var sender, wv := env.e.pub(seed), if own then 2 else 1;
      var signature := ToBase64(env.e.sign(seed, hash));
      ipfs := ipfs[cid := Meta(Some(hash), integrity, "", "", env.hmac(hash), signature)];
      if stop.AfterPin? {
        return false;
      }
      ledger := ledger[txId := Tx(sender, Some(Note(cid, Some(wv))), true)];
      if stop.AfterSend? {
        return false;
      }
      certificates := certificates[hash := Cert(txId, cid)];
      log := log + [Issuance(hash, integrity, sender, txId, cid)];
      return true;
    }

    method RevokeIssuer(env: Env, id: string) returns (found: bool)
      modifies this
      ensures State() == Apply(env, old(State()), Revoke(id))
      ensures found <==> exists a :: a in old(registry) && old(registry)[a].institutionId == id
      ensures forall a :: a in registry && registry[a].institutionId == id ==> registry[a].revoked
    {
      found := exists a | a in registry.Keys :: registry[a].institutionId == id;
      registry := map a | a in registry :: if registry[a].institutionId == id then registry[a].(revoked := true) else registry[a];
    }

    method VerifyCredential(env: Env, net: Net, hash: string, uploaded: Option<string>, txns: seq<string>) returns (v: Verdict)
      requires forall t :: t in txns ==> t in ledger
      ensures v == Verify(env, State(), net, hash, uploaded, txns)
    {
      var w := World(ledger, ipfs, registry, artisans);
      if hash in certificates {
        v := VerifyFull(env, w, net, hash, certificates[hash].txId, certificates[hash].cid, uploaded);
      } else {
        v := VerifyViaIndexer(env, w, net, hash, uploaded, txns);
      }
    }
  }
}
