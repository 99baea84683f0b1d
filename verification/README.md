# SkillChain verification model

A Dafny model of the parts of SkillChain where a mistake would cost money, keys or trust: the artwork
marketplace contract and the two payment paths that settle against it, the text codecs that keys, DIDs and
box names pass through, the credential issue / verify / revoke cycle, and the concurrent state machines
(artisan lifecycle, batch queue, key migration). `dafny verify dfyconfig.toml` checks everything.

## How it is modelled

| file | what it models |
|---|---|
| `Numerals`, `Base58` | positional numerals; the base58btc encoder loop and the decoder the repository does not have |
| `TextCodec`, `Keys` | hex and base64 as Python 3.10 reads them (sections 4 and 8 of RFC 4648), the sniffing decoder of stored keys, Vault payloads, AES-GCM columns, key normalisation, addresses and signatures |
| `Did` | building and parsing of `did:skillchain` and `did:algo` (syntax of section 3.1 of W3C DID Core) |
| `ArtworkId`, `Clock` | canonical artwork ids, ARC-4 string keys and box names; rendered UTC times and expiry |
| `Marketplace` | the contract as a class, and the chain as the log of the atomic groups it let through |
| `X402` | the payment check (HTTP 402, section 15.5.3 of RFC 9110) against that log |
| `PaymentStore`, `PaymentRuns` | the four payment tables; x402 and Razorpay settlements interleaved at every database commit, with crashes |
| `SingleSettlement`, `DoubleSettlement`, `LaterCommits` | how often one challenge can settle: without overlap, on the chain as it is, and while groups are still committed |
| `PaymentUse`, `OrderReplay` | how often one payment can settle challenges, and how often one Razorpay order can be recorded |
| `Verification`, `Credentials` | verification of one credential by table or by ledger scan; whole runs of approval, issuance, re-issuance and revocation |
| `Lifecycle` | the artisan table, interleaved approvals, rejections and transitions, and the lifecycle migration |
| `BatchQueue` | producers and the worker, interleaved at the lock |
| `KeyMigration` | the script that moves keys to Vault, with a failure or crash possible at every call |

Objects that change in place (contract, tables, queue, key stores, credential stores) are classes whose
methods are proved against functions on their contents; the run theorems are about those functions. Base58,
the payment search, the ledger scan, the key buffer, the migration script and the worker keep their loops.
A run is a sequence of steps, one step per database transaction, Vault call, committed group or release of
the lock; a crash is a run that stops, or a request that is dropped between two of its steps.

Cryptography is ideal: AES-GCM and Ed25519 are records of functions with their usual equations, HMAC is any
function with non-empty values. Ledger and IPFS entries never change. Secrets, seeds, nonces, clock readings,
transaction ids, content ids and network failures are parameters.

## Findings

Where the code does less than its documentation says, the code is modelled and the exact condition is proved.

- **AES-GCM storage can lose a key.** The decoder tries hex first, so a 12-byte nonce whose base64 has only
  hex characters comes back as eight bytes and the key does not decrypt. A 64-byte key survives exactly when
  that does not happen (`Keys.EncryptedKeyRoundTrip`, `TextCodec.ZeroNonceIsTakenForHex`).
- **A challenge can settle twice.** The marking UPDATE does not test the status. Requests that do not overlap
  settle once (`SingleSettlement.SettlesAtMostOnce`). In general a second on-chain event can be reached, on the
  chain as it is, exactly when the challenge's events and its requests past the checks are two or more, or some
  proof checks against the row and either events and all its requests are two or more or the row is pending and
  unexpired (`DoubleSettlement.SecondEventReachable`; what a proof is: `DoubleSettlement.ProvableExactly`). While
  groups are still committed, "some proof checks" becomes "the artwork can be sold": not registered yet, or with a
  price, and an id that fits an ARC-4 string (`LaterCommits.SecondEventEver`). A caller controls when requests start: if none starts, only the events
  and the requests that already run count (`DoubleSettlement.SecondEventWithoutStarts`,
  `LaterCommits.SecondEventEverWithoutStarts`).
- **One payment can settle many challenges.** Nothing tests whether a transaction settled a challenge before: a
  used proof settles another challenge exactly when that one is pending, unexpired and for the same artwork, the
  group of the proof holds a payment of its amount from the wallet to its receiver, and the wallet still owns the
  artwork (`PaymentUse.UsedProofSettlesExactly`), with no overlap needed. What is settled is covered by what the
  chain paid if payments are distinct (`PaymentUse.DistinctPaymentsCover`) or, for challenges that pay the treasury
  at most the on-chain price, if transaction ids are (`PaymentUse.DistinctAcquiresCover`).
- **A Razorpay order can be recorded any number of times.** Nothing tests whether it is paid. n records can be
  reached exactly when there are that many records and running requests, or the order exists and a valid
  signature for it is known (`OrderReplay.RecordedOftenExactly`). Each replay puts the order's buyer back as the
  owner, over any later one, beside the wallet that is stored (`OrderReplay.ReplayRecordsAgain`).
- **An artisan can be ACTIVE with status 'pending' for ever.** The status is written by a second update that is
  guarded by the state. If the state moves on or the request stops first, the status never changes again
  (`Lifecycle.PendingForEverExactly`, `Lifecycle.ActiveButPending`), and verification refuses the artisan's
  credentials (algorand_service.py:554).
- **The contract takes acquires that the backend cannot read.** It cuts two length bytes off the artwork id without
  looking at them, the backend decodes them. An acquire with wrong length bytes moves the artwork, and its
  challenge is never settled because the backend raises (`X402.MovedButNeverSettled`); `X402.AcquireIsAnswered`
  lists every answer an acquire the contract took can get. If a compiled router checks the encoding of its arguments, such calls are not committed;
  the contract's source does not say so.
- **The key migration is safe only if rows that share an id agree.** The clearing UPDATE matches by institution
  id, and no constraint makes ids unique (every row without one gets `LEGACY_SYSTEM`, db_migrations.py:113-118),
  though no code here is seen to give two rows with keys one id. `KeyMigration.NoKeyIsLostExactly` gives the
  condition. Its docstring says a failed clearing can be retried: a later run skips that row, so its columns
  stay for good (`KeyMigration.VaultIsNeverOverwritten`).
- **Re-approving an institution can break its credentials.** With Vault on, an approval that stopped after its
  row was written and is started again replaces the key before the unique index refuses the new row
  (`Credentials.RetriedApprovalBreaksIssuing`). What is issued can verify exactly when the address of the stored
  key is trusted (`Credentials.IssuableExactly`), and when it does is `Credentials.IssuedIsValidExactly`.
- **`_verify_full` can raise**, although its comment says it never does (algorand_service.py:436): on notes or
  metadata that are not JSON objects, on compared hashes or tags outside ASCII (algorand_service.py:500, 511), on a
  wallet version in the note that is no number, and on a record without a confirmed round
  (algorand_service.py:608). `Verification.RaisesExactly` says when; the scan skips such transactions.
- **The lifecycle migration settles some rows only on its second run**, because the NULL update comes last
  (`Lifecycle.MigrationIdempotence`).
- **As shipped, `log` is a function without `.info`** in x402_service.py:2-4 and services/payment_service.py:1, so
  the call at x402_service.py:545 raises before the challenge is marked. The model follows the intended flow,
  in which logging does nothing.

## Model

| member | source | states |
|---|---|---|
| Base58.EncodeBytes | w3c_did_service.py:103-120 | the two loops compute `Encode`, whose inverse, leading ones, minimality and length are the next rows |
| Base58.DecodeEncode | w3c_did_service.py:103-120 | the decoder gives back every byte string: encoding is injective |
| Base58.EncodeDecode | w3c_did_service.py:100-120 | a string decodes exactly when it is over the alphabet, and then it is the encoding of its decoding: encoding is onto |
| Base58.LeadingOnes | w3c_did_service.py:105-119 | leading zero bytes become exactly the leading '1's |
| Base58.MinimalNumeral | w3c_did_service.py:112-119 | what follows the '1's is the one base-58 numeral of the number without leading zero |
| Base58.EncodeLength | w3c_did_service.py:112-119 | k bytes after the zeros and d > 0 digits: 8 * (d - 1) < 11 * k |
| Base58.AlphabetText | w3c_did_service.py:100 | the alphabet, character by character |
| Base58.MultibaseBase58 | w3c_did_service.py:123-125 | the text starts with 'z' and the rest decodes to the bytes |
| TextCodec.FromBase64ToBase64 | key_vault.py:45-53 | both decoders invert the encoder on all byte strings |
| TextCodec.Base64Alphabet | key_vault.py:120 | the base64 alphabet, character by character |
| TextCodec.Base64Text | key_vault.py:120 | four digits of the text are the number three bytes make |
| TextCodec.Base64Tail | key_vault.py:120 | and for the last one or two bytes, shifted, with the pad |
| TextCodec.LenientSkips | key_vault.py:53 | the lenient decoder passes over a character outside the alphabet, the strict one refuses it |
| TextCodec.LenientPads | key_vault.py:157 | how the lenient decoder treats pads in front and text after a completed group |
| TextCodec.FromHexToHex | vault_client.py:102 | hex decoding inverts hex encoding, and the text is all hex digits |
| TextCodec.HexText | vault_client.py:102 | each byte is two lower-case digits, the high one first |
| TextCodec.HexSpaces | key_vault.py:123-130 | what hex decoding does with white space, single digits and other characters |
| TextCodec.FromHexNoSpace | key_vault.py:123-130 | text without white space looks like hex exactly when it is an even number of hex digits |
| TextCodec.DecodeCleanText | key_vault.py:133-160 | which of the three branches the sniffing decoder takes on clean text, and what it returns |
| TextCodec.StripMeans | key_vault.py:134 | stripping takes white space off both ends, all of it, and nothing else |
| TextCodec.DecodeRefuses | key_vault.py:134-160 | exactly which texts the decoder refuses, and with which error |
| TextCodec.StoredRoundTrip | key_vault.py:120-160 | for non-empty b: decode(b64(b)) = b exactly when b64(b) has a non-hex character; otherwise it is taken for hex |
| TextCodec.PaddedIsNotHex | key_vault.py:123-139 | a length not divisible by three always gives text that is not all hex |
| TextCodec.UnpaddedRoundTrip | key_vault.py:147-158 | with the pad stripped b still comes back exactly when the text does not look like hex, through the repair branch when there was a pad |
| TextCodec.ZeroNonceIsTakenForHex | key_vault.py:117-139 | twelve zero bytes come back as eight other bytes |
| Keys.KeyTextIsUnambiguous | signing_service.py:291-334 | 32- and 64-byte keys mean the same raw, as hex text and as base64 text |
| Keys.NormalisersAgree | signing_service.py:337-435 | both normalisers accept the same material and give the same 32-byte seed |
| Keys.RawKeys | signing_service.py:301-331 | raw bytes are taken at 32 and 64 bytes only |
| Keys.NormalisedKey | signing_service.py:357-391 | a 32-byte key in whatever form is completed with its own public key, which is its address; a 64-byte key is kept |
| Keys.HexPayload | vault_client.py:102-154 | the payload is the key as hex and nothing else, and that field decides what is read |
| Keys.LegacyPayloadRoundTrip | vault_client.py:155-195 | a base64 legacy payload reads back exactly when it is not all hex digits |
| Keys.ColumnText | key_vault.py:116-120 | the first column is the sealed key, the second the nonce, both in base64 |
| Keys.EncryptedKeyRoundTrip | key_vault.py:99-196 | a 64-byte key decrypts to itself exactly when the nonce's text has a non-hex character; else the tag check fails |
| Keys.RouteKeepsPath | signing_service.py:67-86 | the path read is the string the key was written under |
| Keys.RouteExactly | signing_service.py:466-488 | which identity each routing string names |
| Keys.StoredKeyResolves | signing_service.py:116-185 | without Vault artisans and institutions are read each from their own table, exactly under the nonce condition |
| Keys.SystemKeyResolves | signing_service.py:105-114 | the system key comes through base64 text and gives its seed and address |
| Keys.VaultKeyResolves | signing_service.py:219-225 | with Vault every identity is read from its own path |
| Keys.ApprovedKeyResolves | signing_service.py:189-227 | resolving a key stored at approval: the key itself, or a failed tag, according to Vault mode and nonce |
| Keys.ApprovedKeySurvives | did_service.py:433-463 | a key made at approval resolves to itself, gives the approved address, and its signatures verify against it: always with Vault, exactly under the nonce condition without |
| Keys.SignatureText | did_service.py:763-776 | a base64 signature passes `verify_provenance`'s check for the signer's address |
| Keys.SignatureExactly | did_service.py:763-776 | a signature text is accepted exactly when its bytes verify under the key in the address |
| Keys.GetIssuerAddress | signing_service.py:604-657 | the address of the resolved key, and a key buffer that is all zero on return |
| Did.ParseExactly | w3c_did_service.py:65-70 | a string parses to p exactly when p is well-formed and the string is its DID, or its DID and one line feed |
| Did.ParseBuild | w3c_did_service.py:58-145 | parse inverts build on exactly the well-formed parts |
| Did.Layout | w3c_did_service.py:58-60 | method, network, address and identifier in this order, each behind a colon |
| Did.AddressCharacters | w3c_did_service.py:68 | the 58 characters of an address |
| Did.SchemesAreDisjoint | w3c_did_service.py:66-78 | no string is both a current and a legacy DID |
| ArtworkId.CanonicalInjective | x402_service.py:38-42 | different integers have different canonical ids, negative ones included |
| ArtworkId.CanonicalIsTheText | x402_service.py:38-42 | the canonical id is the one text "art_", a sign exactly for negative numbers, and decimal digits of the number, at least three characters with the sign and no leading zero beyond |
| ArtworkId.NamesAreNumbers | x402_service.py:38-42 | text with the prefix is kept, text that reads as a number gives that number's id, other text fails |
| ArtworkId.CanonicalIdempotent | x402_service.py:38-42 | canonicalising a canonical id changes nothing, whatever was passed first |
| ArtworkId.Arc4Inverse | x402_service.py:288-290 | decoding is the inverse of ARC-4 string encoding below 2^16 bytes, and the contract's cut agrees on all it accepts |
| ArtworkId.Arc4Layout | x402_service.py:288-290 | two length bytes, high one first, then the text |
| ArtworkId.BoxesAreDisjoint | skill_contracts/projects/skill_contracts/smart_contracts/artwork_marketplace/contract.py:36-50 | owner, price and creator boxes coincide only for the same map and key |
| ArtworkId.BoxNames | skill_contracts/projects/skill_contracts/smart_contracts/artwork_marketplace/contract.py:36-50 | the name of the map, a colon, the key |
| ArtworkId.OwnerBoxesAgree | x402_service.py:45-46 | the owner box the backend reads for n is the one the contract wrote for n' exactly when n = n' |
| ArtworkId.OwnerBoxText | x402_service.py:45-46 | the owner box name, byte by byte |
| Clock.GmTimeInverse | x402_service.py:23-24 | the calendar fields of every second are valid and count back to that second |
| Clock.YearStart | x402_service.py:23-24 | days before a year in closed form, with the Gregorian leap years |
| Clock.MonthStart | x402_service.py:23-24 | days before each month |
| Clock.GmTimeOrder | x402_service.py:23-24 | earlier second and earlier calendar fields are the same thing |
| Clock.RenderLess | x402_service.py:24 | for years up to 9999 the rendered texts compare like the calendar fields |
| Clock.RenderLayout | x402_service.py:24 | every place of the rendered text: the fields in decimal and the separators |
| Clock.NoExpiry | x402_service.py:489-490 | a challenge without an expiry never expires |
| Clock.ExpiryIsOnTime | x402_service.py:148-150 | a challenge passes the text comparison exactly while now <= issue second + TTL |
| Clock.TimeTextOrder | x402_service.py:489-491 | the expiry test on stored text is the test on seconds |
| Marketplace.ArtworkMarketplace.Create | skill_contracts/projects/skill_contracts/smart_contracts/artwork_marketplace/contract.py:58-61 | the creator becomes administrator and treasury, no boxes |
| Marketplace.ArtworkMarketplace.RegisterArtwork | skill_contracts/projects/skill_contracts/smart_contracts/artwork_marketplace/contract.py:80-102 | refused for a key with an owner, else all three boxes are written; a refusal changes nothing |
| Marketplace.ArtworkMarketplace.GetOwner | skill_contracts/projects/skill_contracts/smart_contracts/artwork_marketplace/contract.py:104-114 | the stored owner, or a failure |
| Marketplace.ArtworkMarketplace.Acquire | skill_contracts/projects/skill_contracts/smart_contracts/artwork_marketplace/contract.py:132-168 | each failure in its order, or the owner box alone changes, to the caller |
| Marketplace.AcquireExactly | skill_contracts/projects/skill_contracts/smart_contracts/artwork_marketplace/contract.py:132-168 | when an acquire succeeds, what it changes, and exactly when each failure comes |
| Marketplace.CallExactly | skill_contracts/projects/skill_contracts/smart_contracts/artwork_marketplace/contract.py:80-168 | what a transaction of each kind does, and which calls fail |
| Marketplace.GroupExactly | skill_contracts/projects/skill_contracts/smart_contracts/artwork_marketplace/contract.py:148-152 | a group commits exactly if each transaction succeeds on what those before it left |
| Marketplace.SubmitKeeps | skill_contracts/projects/skill_contracts/smart_contracts/artwork_marketplace/contract.py:80-168 | one atomic group keeps all invariants, every price and every creator |
| Marketplace.RunKeeps | skill_contracts/projects/skill_contracts/smart_contracts/artwork_marketplace/contract.py:132-168 | every run: a committed acquire at i has its caller's sufficient payment at i - 1, and the three box maps have one domain |
| Marketplace.RunIsStable | skill_contracts/projects/skill_contracts/smart_contracts/artwork_marketplace/contract.py:88-100 | over any later run prices and creators of registered artworks stay and the log only grows |
| Marketplace.RunPays | skill_contracts/projects/skill_contracts/smart_contracts/artwork_marketplace/contract.py:148-166 | every run: the deployer's account was paid at least the prices of all acquisitions, no payment counted twice |
| Marketplace.RunReplays | skill_contracts/projects/skill_contracts/smart_contracts/artwork_marketplace/contract.py:93-166 | every run: an artwork's boxes are the fold of the registrations and acquires in the log |
| Marketplace.ReadOwnerBox | x402_service.py:320-326 | the backend's box read finds the contract's owner entry of that artwork and no other |
| X402.FindMatchingPayment | x402_service.py:299-317 | the first payment in the list with the sender, the receiver and enough money |
| X402.VerifiedMeans | x402_service.py:493-540 | for every answer of indexer and node: verified exactly with a confirmed acquire of the artwork by the wallet, a sufficient payment in the listing and the wallet in the owner box |
| X402.NothingToVerify | x402_service.py:482-498 | a missing, settled or expired challenge, an unknown and an unconfirmed transaction, each with its reason |
| X402.LogIsAnswered | x402_service.py:493-540 | every answer to every transaction id, each reason in terms of the logged transaction |
| X402.VerifiedIsReal | x402_service.py:479-540 | a verified proof names a committed acquire by the wallet and a sufficient payment of the same group, and the owner box read from the challenge's own application holds the wallet; the challenge was pending and unexpired |
| X402.VerifiedExactly | x402_service.py:493-540 | for every challenge on the deployed application: the checks pass exactly for a committed, readable acquire of its artwork by the wallet, a payment of its amount to its receiver in that group, and current ownership, in any listing order |
| X402.Agreement | x402_service.py:479-540 | with the treasury as receiver and an amount up to the on-chain price, the payment is implied: verified exactly for a pending, unexpired challenge, a committed acquire and current ownership |
| X402.AcquireIsAnswered | x402_service.py:486-540 | every answer to an acquire the contract took, for every challenge: settled, expired, another application, an exception exactly when the length bytes are wrong, no sufficient payment in the group, sold on, or verified |
| X402.MovedButNeverSettled | x402_service.py:288-290 | for every priced artwork, an acquire with wrong length bytes that the contract takes, after which the wallet is the owner and the backend raises |
| X402.PaymentIsFound | x402_service.py:521-529 | in any ordering of the group's listing the search finds a payment exactly when the group holds one |
| X402.TakenIsBacked | skill_contracts/projects/skill_contracts/smart_contracts/artwork_marketplace/contract.py:140-164 | a committed acquire has a registered, priced artwork and a payment of at least the price to the treasury in its group |
| PaymentStore.Tables.CreatePaymentRequirements | x402_service.py:141-224 | acquisition and challenge rows appear together, or nothing does |
| PaymentStore.ChallengeAnswers | x402_service.py:141-224 | when issuing fails, and the two rows it writes, column by column |
| PaymentRuns.IssuedRowStays | x402_service.py:196-220 | at every later point of every run an issued challenge has its artwork, buyer, amount, receiver, application and expiry |
| PaymentStore.Tables.CreateAcquisitionOrder | services/payment_service.py:31-120 | validation in its order, then one acquisition row |
| PaymentStore.OrderAnswers | services/payment_service.py:42-117 | when an order is refused and why, and the row it writes |
| PaymentRuns.OrderedRowStays | services/payment_service.py:95-117 | at every later point of every run an order's row has its artwork and buyer |
| PaymentStore.Tables.MarkChallengeUsed | x402_service.py:329-355 | the settlement columns of the nonce, whatever its status was |
| PaymentStore.Tables.PersistSuccessfulAcquisition | x402_service.py:385-449 | the four writes of one on-chain settlement |
| PaymentStore.Tables.RecordSuccessfulAcquisition | services/payment_service.py:174-234 | the four writes of one recorded payment, the old `owner_wallet` kept |
| PaymentStore.IssueDb | x402_service.py:141-224 | issuing a challenge keeps the refinement of the event log and every stored row |
| PaymentStore.OrderDb | services/payment_service.py:81-120 | so does creating an order |
| PaymentStore.MarkDb | x402_service.py:340-352 | so does marking, and the challenge is then settled |
| PaymentStore.PersistDb | x402_service.py:385-449 | persisting a settled challenge keeps the refinement |
| PaymentStore.RecordDb | services/payment_service.py:174-234 | recording a payment on an order keeps the refinement |
| PaymentRuns.TablesRefineTheLog | x402_service.py:385-449 | every interleaving of both paths, commits and crashes: ownership rows are the replay of the events, paid means an event settles it, acquired means there is an event, no on-chain event without a settled challenge, every stored wallet owned the artwork on chain at some past state |
| SingleSettlement.SettlesAtMostOnce | x402_service.py:482-487 | without overlapping requests on a nonce: marked at most once, at most one event, and that event is the stored settlement |
| DoubleSettlement.DoubleSettlementExactly | x402_service.py:479-563 | from any state, over every continuation that commits no group: a second event can be reached exactly when events and requests that can still settle are two or more, or a new request can load the challenge and some proof checks |
| DoubleSettlement.SecondEventWithoutStarts | x402_service.py:482-563 | the same if no further request on the nonce starts: exactly when events and requests that can still settle are two or more |
| DoubleSettlement.SecondEventReachable | x402_service.py:479-563 | on every reachable state the condition in terms of the row, the requests past the checks and all requests on the nonce |
| DoubleSettlement.ProvableExactly | x402_service.py:493-540 | some proof checks against a challenge exactly when a readable acquire of its artwork is committed by the wallet that owns it now, in a group that pays the challenge's receiver its amount |
| LaterCommits.SecondEventEver | x402_service.py:479-563 | on every reachable state, over every continuation, commits included: a second event can be reached exactly when events and requests past the checks are two or more or, for an artwork that can be sold, events and all requests are or the row is pending and unexpired |
| LaterCommits.SecondEventEverWithoutStarts | x402_service.py:482-563 | the same if no further request on the nonce starts |
| LaterCommits.UnsellableIsNotProvable | skill_contracts/projects/skill_contracts/smart_contracts/artwork_marketplace/contract.py:142-146 | for an artwork registered without a price no proof ever checks |
| LaterCommits.MakeProvable | skill_contracts/projects/skill_contracts/smart_contracts/artwork_marketplace/contract.py:80-168 | for any other, one or two commits make a proof that checks |
| DoubleSettlement.OverlapSettlesTwice | x402_service.py:482-563 | two requests that load one pending challenge before either marks it can both settle it |
| PaymentUse.RunProves | x402_service.py:521-563 | every run: each on-chain event has its committed acquire and a payment of its challenge's amount in that group |
| PaymentUse.DistinctPaymentsCover | x402_service.py:521-563 | every run: if events for an account name different payments, the settled amounts are at most what the chain paid the account |
| PaymentUse.DistinctAcquiresCover | x402_service.py:521-563 | every run: with amounts up to the on-chain price, different acquire transactions are enough |
| PaymentUse.SharersAreInOneGroup | x402_service.py:521-527 | every run: events that name one payment are about one wallet's acquires in one group |
| PaymentUse.UsedProofSettlesExactly | x402_service.py:482-563 | a proof that settled one challenge settles another, by one request alone and with no new payment, exactly when that one is pending, unexpired and for the same artwork, the group pays its receiver its amount, and the wallet still owns the artwork |
| OrderReplay.RecordedOftenExactly | services/payment_service.py:138-234 | on every reachable state, for every n: n records of an order can be reached exactly when records and running requests are that many, or the order exists and its signature is known |
| OrderReplay.ReplayRecordsAgain | services/payment_service.py:151-234 | one more request on an existing order, paid or not: one more event, and the order's buyer as owner beside the stored wallet |
| Verification.TrustScoreMeans | algorand_service.py:354-401 | the contribution of each signal, the bounds of each grade, 100 exactly with all four signals; grade A exactly with the first three and an active issuer or a version 2 wallet; a signal never lowers the score |
| Verification.ValidExactly | algorand_service.py:429-620 | for a transaction that names its metadata: accepted exactly when looked up, reachable, matching, genuine, sent by a trusted issuer and comparable; accepted means score 100 |
| Verification.RaisesExactly | algorand_service.py:429-620 | every input on which the verification raises |
| Verification.ReportedExactly | algorand_service.py:490-620 | match and tampering flags compare two non-empty hashes; a revoked issuer or unapproved artisan is named exactly when there is one and the comparisons do not raise; provenance holds exactly at score 100 |
| Verification.ReportedVersion | algorand_service.py:570-620 | transaction, metadata, signals, validity, wallet version and trust of a report |
| Verification.RefusedEarly | algorand_service.py:438-485 | each refusal before the metadata is compared, with its reason |
| Verification.FieldsAndIds | algorand_service.py:188-195 | which transaction ids are looked up, and which metadata field certifies the file |
| Verification.ValidMeans | algorand_service.py:429-620 | on any ledger, an accepted verdict rests on a confirmed transaction of a trusted sender with genuine metadata that certifies the upload |
| Verification.VerifyViaIndexer | algorand_service.py:623-675 | the loop, with its skips, computes `Scan` |
| Verification.ScanIsFirst | algorand_service.py:641-675 | the scan answers with the first listed transaction it can |
| Verification.ScanAgrees | algorand_service.py:406-426 | a hash anchored by exactly one listed transaction, the one in the table: scan and table differ in the source only, exactly when the scan runs, reaches the metadata and verifying does not raise |
| Verification.ScanIsSound | algorand_service.py:638-668 | an accepted verdict of the scan is an accepted verification of a listed transaction |
| Credentials.CredentialService.RegisterDid | did_service.py:562-601 | refused by the unique index, else an upsert that keeps `revoked` |
| Credentials.RevokedExactly | did_service.py:574-587 | every run: a row is revoked exactly if the id it carried at some moment was revoked at that moment; registration never makes one revoked |
| Credentials.RunKeepsOneRow | db_migrations.py:196-199 | every run: no two rows are of one institution |
| Credentials.CredentialService.ApproveRegistration | did_service.py:424-507 | the state after approval, for each point where it can stop |
| Credentials.ApprovalLeaves | did_service.py:446-503 | what a first approval leaves at each of its stops |
| Credentials.ApprovedOnce | did_service.py:389-420 | approving again changes nothing |
| Credentials.ApprovedIsAccepted | app.py:996-1009 | from every reachable state: a first approval and an issuance give a credential that verifies with full score, from the institution's own address and wallet |
| Credentials.LegacyIsAccepted | did_service.py:541-546 | the same for an institution on the system wallet while that is not revoked |
| Credentials.CredentialService.IssueAndAnchor | app.py:996-1009 | wallet choice, pin, send, save; the state at each point where it can stop |
| Credentials.IssueNeedsKey | did_service.py:687-690 | an issuer without a row or a key issues nothing |
| Credentials.IssueLeaves | algorand_service.py:297-342 | what an issuance leaves at each of its stops: metadata, then the transaction, then the table row |
| Credentials.CredentialService.RevokeIssuer | app.py:1244-1262 | every row of the institution is revoked, no other changes; not found means there was none |
| Credentials.CredentialService.VerifyCredential | algorand_service.py:406-426 | table first, scan otherwise |
| Credentials.TableKeeps | algorand_service.py:116-128 | after an upsert the table holds the last saved issuance of every hash |
| Credentials.IssuedIsValidExactly | algorand_service.py:406-620 | every run: a recorded hash is valid exactly when the network answers, the upload is a non-empty ASCII text and equals what its last recorded issuance certified, and that sender is trusted; valid means score 100 |
| Credentials.OrderlyIssuedIsValidExactly | app.py:996-1009 | if approvals are not restarted after their row, senders are registered and "trusted" is "not revoked" |
| Credentials.IssuableExactly | did_service.py:736-776 | what an institution issues can verify exactly when its file hash is non-empty ASCII and the address of the key it signs with is trusted |
| Credentials.RetriedApprovalBreaksIssuing | did_service.py:446-492 | after a restarted approval, over every later run of issuing and revoking, the institution can issue and nothing it issues verifies |
| Credentials.RevocationIsFinal | did_service.py:574-587 | once an address is revoked no later verdict, by table or scan, accepts a transaction it sent |
| Credentials.TableAgreesWithLedger | algorand_service.py:623-675 | every run: with its row gone, a hash anchored once gets the same verdict from the scan, exactly when the scan runs, reaches the metadata and no file hash outside ASCII makes the table raise |
| Lifecycle.ArtisanTable.Register | app.py:1660-1686 | a pending, APPLIED row unless the id exists |
| Lifecycle.ArtisanTable.Transition | app.py:1446-1478 | refused outside the table; otherwise it succeeds exactly on a row in the expected state and changes nothing else |
| Lifecycle.ArtisanTable.Decide | app.py:1842-1870 | a decision that runs alone wins exactly on an APPLIED row and writes state and status together |
| Lifecycle.AloneDecides | app.py:1842-1870 | an approve or reject request by itself: both columns on an applied artisan, nothing on any other |
| Lifecycle.ArtisanTable.RunMigration | db_migrations.py:265-268 | the three updates in order; no state is NULL afterwards |
| Lifecycle.MigrationSettles | db_migrations.py:265-267 | where each row goes: approved to APPROVED, rejected to REJECTED, pending stays, NULL becomes APPLIED; consistent after one run, NULL rows after two; everything else kept |
| Lifecycle.LifecycleIsSafe | app.py:1434-1478 | every interleaving: histories are paths of the table, one exit from APPLIED, ACTIVE only after the three stages in order, REVOKED and REJECTED absorbing, status consistent with state |
| Lifecycle.PathShape | app.py:1434-1443 | what every path of the transition table looks like |
| Lifecycle.LegalTransitions | app.py:1434-1443 | the transition table, edge by edge |
| Lifecycle.OneWinner | app.py:1849-1852 | at most one approve or reject request ever wins an artisan |
| Lifecycle.PendingExactly | app.py:1854-1870 | every run: the status is 'pending' exactly as long as no status update of a winning request took effect |
| Lifecycle.PendingForEverExactly | app.py:1859-1866 | every reachable state: a decided artisan with status 'pending' can get another one exactly while the winning request has yet to write it and the state has not moved on |
| Lifecycle.ActiveButPending | app.py:1849-1866 | a run that leaves an ACTIVE artisan with status 'pending' for ever |
| Lifecycle.MigrationIdempotence | db_migrations.py:265-267 | the migration is idempotent on a row exactly when its state is not NULL or its status is undecided; the second run always settles |
| Lifecycle.MigrationFixpoint | db_migrations.py:265-267 | the rows it leaves alone |
| Lifecycle.MigrationIsInvisible | db_migrations.py:262-267 | between any two steps of any run it changes no row |
| Lifecycle.EnsureArtisanIds | db_migrations.py:34-57 | passes exactly on non-NULL distinct ids, and otherwise names the right problem |
| BatchQueue.Service.QueueBatch | queue_service.py:21-34 | a queued entry and a place at the end of the queue |
| BatchQueue.Service.WorkOnce | queue_service.py:42-97 | one round of the worker is a run of the interleaved model that ends idle with the first batch completed, and a new batch's entry tells the outcomes of its live jobs |
| BatchQueue.ResultsAreOutcomes | queue_service.py:61-94 | every run, from the moment a batch is queued: the k-th result is anchored with the transaction id of the worker step that handled the k-th live job exactly if that step anchored, and failed with its error otherwise; `processed` is the number of those steps that anchored |
| BatchQueue.QueueIsFair | queue_service.py:42-97 | every interleaving: batches complete in arrival order, results follow the jobs, `processed` counts the anchored ones, complete means one result per job that did not fail at hashing |
| BatchQueue.StepProgress | queue_service.py:44-48 | a producer never delays a batch, a worker step always brings it one closer |
| BatchQueue.EveryBatchCompletes | queue_service.py:57-97 | a batch is complete exactly in the runs that give the worker as many steps as its distance |
| KeyMigration.Backend.ClearColumns | scripts/migrate_keys_to_vault.py:189-199 | all rows of the id lose their columns |
| KeyMigration.Backend.PutKey | vault_client.py:87-110 | one Vault path is written |
| KeyMigration.Backend.SelectRows | scripts/migrate_keys_to_vault.py:94-103 | the key-bearing rows, in order |
| KeyMigration.SelectedInOrder | scripts/migrate_keys_to_vault.py:94-103 | exactly the key-bearing rows, in the order of the table |
| KeyMigration.Backend.MigrateRow | scripts/migrate_keys_to_vault.py:125-215 | what one pass of the loop leaves, and its outcome, for every failure |
| KeyMigration.OutcomeMeans | scripts/migrate_keys_to_vault.py:125-215 | what migrated, skipped and failed mean for the stores before, between and after |
| KeyMigration.Backend.Migrate | scripts/migrate_keys_to_vault.py:114-215 | the script ends in the last store of its trace, and migrated + skipped + failed is the number of rows |
| KeyMigration.NoKeyIsLostExactly | scripts/migrate_keys_to_vault.py:118-215 | over any number of starts, stopped anywhere, with any failures, no key is lost if and only if key-bearing rows that share an id Vault cannot read agree on their key |
| KeyMigration.DistinctIdsAreEnough | scripts/migrate_keys_to_vault.py:118-215 | in particular with distinct ids |
| KeyMigration.LosingAttempt | scripts/migrate_keys_to_vault.py:189-197 | otherwise a start of the script that loses a key |
| KeyMigration.VaultIsNeverOverwritten | scripts/migrate_keys_to_vault.py:136-142 | entries Vault can read stay as they are, and so do the columns of their rows |
| KeyMigration.RerunChangesNothing | scripts/migrate_keys_to_vault.py:9-10 | after a live run without failed rows a rerun changes nothing, whatever fails in it |
| KeyMigration.DryRunWritesNothing | scripts/migrate_keys_to_vault.py:158-182 | a dry run writes nothing |
| KeyMigration.StoredKeyMigrates | scripts/migrate_keys_to_vault.py:144-215 | an AES-GCM row is migrated intact exactly under the nonce condition, and otherwise fails and stays |

## Left out

- Flask routing, CORS, rate limits, JWT, HTML, file uploads, image hashing and the display endpoints: input and output.
- `get_price`, `get_batch_status`, price configuration, explorer links and response bodies: they pass on one stored or configured value each, and no modelled step depends on them.
- The two DID registry contracts, DigiLocker, identity binding, the Razorpay client, deploy scripts and the rest of the DDL: thin.
- The collectors table and updates of collector references; amounts and currencies of Razorpay orders.
- Marketplace.ArtworkMarketplace.Acquire: fees, balances, inner transactions, on-completion values and box storage costs are not modelled, and ABI argument sizes (32-byte addresses, 8-byte integers) are taken as the ABI types enforce them.
- ArtworkId.Arc4Inverse: the SDK decoder is modelled as refusing a wrong length; bytes that are not UTF-8 count as a mismatch.
- ArtworkId.CanonicalIdempotent: Python's `int()` on strings without the `art_` prefix is a parameter.
- Clock.ExpiryIsOnTime: seconds from 1970 on and up to the end of year 9999, as `gmtime` and the fixed width give them.
- X402.Agreement: the indexer returns committed data or nothing; pagination, lag and retries are not modelled, and the three network reads of one verification are one step.
- PaymentRuns.TablesRefineTheLog: the payment provider gives every order id once; addresses are 32-byte keys, not base32 text with a checksum.
- SingleSettlement.SettlesAtMostOnce: for requests on one nonce that do not overlap; what overlapping requests can do is stated in DoubleSettlement.
- DoubleSettlement.DoubleSettlementExactly: the chain stays as it is; LaterCommits has the form with commits.
- OrderReplay.RecordedOftenExactly: the provider's signature is a parameter that says whether a valid one is known.
- Credentials.CredentialService.RegisterDid: the unique index on the domain and the API key column are not modelled; the caller is identified by its row.
- Lifecycle.ArtisanTable.Register: the lookup by the identity provider's user id and its uniqueness are not modelled; ids are taken as given.
- Verification.RaisesExactly: a truthy field of another JSON type fails like text outside ASCII, and is modelled as such; failures of the database are not modelled.
- Verification.ValidExactly: JSON and base64 decoding of notes is reduced to "decodes or not", `verified` always equals `valid`, and the descriptive fields of the response are not modelled.
- `verify_by_cert_number`: it passes no uploaded hash (algorand_service.py:716), so its answer is never valid.
- Suspended or revoked artisans in verification: the code reads `status`, not `lifecycle_state` (algorand_service.py:554), and so does the model.
- The DID document cache after revocation.
- Credentials.IssuedIsValidExactly: one issuance reads one key, so a key replaced while a request signs is not modelled; transaction ids are new and a content id has one content.
- Batches issued through the queue: their jobs carry no institution id, so they anchor from the system wallet; the queue model only sees whether anchoring returns or raises.
- BatchQueue.QueueIsFair: batch ids are fresh, and every job has the fields the worker reads.
- KeyMigration.NoKeyIsLostExactly: nothing else writes keys while the script runs; rows with only one of the two columns count as rows without a key, and rows stand in the order in which the script reads them.
- Lifecycle.LifecycleIsSafe: the provisioning steps between APPROVED and ACTIVE are transitions without their side effects, which the repository does not implement yet.
