/** Private keys from approval to signature: storage in Vault or as AES-GCM text, resolution,
    normalisation, and the address and signatures derived from them. */
module Keys {
  import opened Wrappers
  import opened TextCodec

  // ------------------------------------------------------------ ideal cryptography

  /** AES-GCM as a pair of functions of key and nonce. */
  datatype Aead = Aead(seal: (seq<byte>, seq<byte>, seq<byte>) -> seq<byte>,
                       unseal: (seq<byte>, seq<byte>, seq<byte>) -> Option<seq<byte>>)

  ghost predicate IdealAead(a: Aead) {
    && (forall k: seq<byte>, n: seq<byte>, m: seq<byte> :: |n| == 12 ==>
          |a.seal(k, n, m)| == |m| + 16 && a.unseal(k, n, a.seal(k, n, m)) == Some(m))
    && (forall k: seq<byte>, n: seq<byte>, n': seq<byte>, m: seq<byte> {:trigger a.unseal(k, n', a.seal(k, n, m))} ::
          |n| == 12 && n' != n ==> a.unseal(k, n', a.seal(k, n, m)) == None)
  }

  /** Ed25519: public key of a seed, signature by a seed, verification by a public key. */
  datatype Ed25519 = Ed25519(pub: seq<byte> -> seq<byte>,
                             sign: (seq<byte>, string) -> seq<byte>,
                             verify: (seq<byte>, string, seq<byte>) -> bool)

  ghost predicate IdealEd25519(e: Ed25519) {
    && (forall s: seq<byte> :: |s| == 32 ==> |e.pub(s)| == 32)
    && (forall s: seq<byte>, m: string :: |s| == 32 ==> e.verify(e.pub(s), m, e.sign(s, m)))
  }

  // ------------------------------------------------------------ normalisation

  datatype KeyMaterial = Raw(bytes: seq<byte>) | Text(text: string)

  datatype KeyError = BadLength | BadText | NotFound | BadTag | BadIdentity

  /** Stored key material as raw bytes. */
  function Coerce(k: KeyMaterial): Result<seq<byte>, KeyError> {
    match k
    case Raw(bytes) => if |bytes| == 32 || |bytes| == 64 then Ok(bytes) else Err(BadLength)
    case Text(text) =>
      var t := Strip(text);
      if LooksLikeHex(t) then Ok(FromHex(t).value)
      else if FromBase64(t, true).Some? then Ok(FromBase64(t, true).value)
      else Err(BadText)
  }

  datatype Normalised = Normalised(key64: seq<byte>, seed: seq<byte>)

  /** The 64-byte Algorand key and its 32-byte seed, for transactions and addresses. */
  function Normalise(e: Ed25519, k: KeyMaterial): Result<Normalised, KeyError> {
    var c := Coerce(k);
    if c.Err? then Err(c.error)
    else if |c.value| == 32 then Ok(Normalised(c.value + e.pub(c.value), c.value))
    else if |c.value| == 64 then Ok(Normalised(c.value, c.value[..32]))
    else Err(BadLength)
  }

  /** The seed alone, for credential signatures. */
  function ExtractSeed(k: KeyMaterial): Result<seq<byte>, KeyError> {
    var c := Coerce(k);
    if c.Err? then Err(c.error)
    else if |c.value| == 64 then Ok(c.value[..32])
    else if |c.value| == 32 then Ok(c.value)
    else Err(BadLength)
  }

  /** Transactions and credentials are signed with the same seed, or both paths raise. */
  lemma NormalisersAgree(e: Ed25519, k: KeyMaterial)
    ensures Normalise(e, k).Ok? <==> ExtractSeed(k).Ok?
    ensures Normalise(e, k).Ok? ==>
              && Normalise(e, k).value.seed == ExtractSeed(k).value
              && |Normalise(e, k).value.seed| == 32
              && Normalise(e, k).value.key64[..32] == Normalise(e, k).value.seed
  {
  }

  /** Raw bytes are taken at 32 and 64 bytes only, and mean themselves. */
  lemma RawKeys(key: seq<byte>)
    ensures Coerce(Raw(key)) == if |key| == 32 || |key| == 64 then Ok(key) else Err(BadLength)
  {
  }

  /** A 32-byte key, in whatever form, is completed with its own public key, which is its address; a 64-byte one
      is kept, with its last half as the address. */
  lemma NormalisedKey(e: Ed25519, k: KeyMaterial, key: seq<byte>)
    requires IdealEd25519(e) && Coerce(k) == Ok(key) && (|key| == 32 || |key| == 64)
    ensures |key| == 32 ==> Normalise(e, k) == Ok(Normalised(key + e.pub(key), key)) && AddressOf(e, k) == Ok(e.pub(key))
    ensures |key| == 64 ==> Normalise(e, k) == Ok(Normalised(key, key[..32])) && AddressOf(e, k) == Ok(key[32..])
    ensures ExtractSeed(k) == Ok(key[..32])
  {
    if |key| == 32 {
      assert key[..32] == key && (key + e.pub(key))[32..] == e.pub(key);
    }
  }

  lemma HexIsClean(key: seq<byte>)
    requires key != []
    ensures Strip(ToHex(key)) == ToHex(key) && LooksLikeHex(ToHex(key)) && FromHex(ToHex(key)) == Some(key)
  {
    FromHexToHex(key);
    HexNeedsNoStrip(ToHex(key));
  }

  lemma HexNeedsNoStrip(s: string)
    requires AllHex(s)
    ensures Strip(s) == s
  {
    StripIsIdentity(s);
  }

  /** 32- and 64-byte keys mean the same raw, as hex text and as base64 text: base64 of these
      lengths ends in a pad, so it is never taken for hex. */
  lemma KeyTextIsUnambiguous(key: seq<byte>)
    requires |key| == 32 || |key| == 64
    ensures Coerce(Raw(key)) == Ok(key)
    ensures Coerce(Text(ToHex(key))) == Ok(key)
    ensures Coerce(Text(ToBase64(key))) == Ok(key)
  {
    HexIsClean(key);
    Base64IsClean(key);
    PaddedIsNotHex(key);
    CoerceBase64(ToBase64(key), key);
  }

  lemma CoerceBase64(t: string, key: seq<byte>)
    requires t != "" && forall i :: 0 <= i < |t| ==> IsB64Char(t[i]) || t[i] == '='
    requires !AllHex(t) && FromBase64(t, true) == Some(key)
    ensures Coerce(Text(t)) == Ok(key)
  {
    DecodeCleanText(t);
    StripIsIdentity(t);
  }

  // ------------------------------------------------------------ storage

  /** The KV payload of one Vault path; `legacy` is the old `private_key_bytes` field. */
  datatype VaultPayload = VaultPayload(hex: Option<string>, legacy: Option<KeyMaterial>)

  function VaultWrite(key: seq<byte>): VaultPayload {
    VaultPayload(Some(ToHex(key)), None)
  }

  function VaultRead(p: VaultPayload): Result<seq<byte>, KeyError> {
    if p.hex.Some? then
      (if FromHex(p.hex.value).Some? then Ok(FromHex(p.hex.value).value) else Err(BadText))
    else if p.legacy.None? then Err(NotFound)
    else match p.legacy.value
      case Raw(bytes) => Ok(bytes)
      case Text(t) =>
        if FromHex(t).Some? then Ok(FromHex(t).value)
        else if FromBase64(t, false).Some? then Ok(FromBase64(t, false).value)
        else Err(NotFound)
  }

  /** The payload that is written: the key as lower-case hex, nothing else; and what is read of a payload with
      that field, whatever else it holds. */
  lemma HexPayload(key: seq<byte>, p: VaultPayload)
    ensures VaultWrite(key).hex == Some(ToHex(key)) && VaultWrite(key).legacy == None && VaultRead(VaultWrite(key)) == Ok(key)
    ensures p.hex.Some? ==> VaultRead(p) == match FromHex(p.hex.value) case Some(k) => Ok(k) case None => Err(BadText)
    ensures p.hex == None && p.legacy == None ==> VaultRead(p) == Err(NotFound)
  {
    FromHexToHex(key);
  }

  /** A legacy base64 payload reads back exactly when it is not all hex digits, as for the DB columns. */
  lemma LegacyPayloadRoundTrip(key: seq<byte>)
    requires key != []
    ensures VaultRead(VaultPayload(None, Some(Text(ToBase64(key))))) == Ok(key) <==> !AllHex(ToBase64(key))
  {
    Base64IsClean(key);
    LegacyText(ToBase64(key), key, PadLength(|key|));
  }

  lemma LegacyText(t: string, key: seq<byte>, p: nat)
    requires t != "" && |t| % 4 == 0 && 3 * |t| == 4 * (|key| + p) && p < 3
    requires forall i :: 0 <= i < |t| ==> IsB64Char(t[i]) || t[i] == '='
    requires key != [] && FromBase64(t, false) == Some(key) && (p > 0 ==> t[|t| - 1] == '=')
    ensures VaultRead(VaultPayload(None, Some(Text(t)))) == Ok(key) <==> !AllHex(t)
  {
    TextHasNoSpace(t);
    FromHexNoSpace(t);
    HalfIsShorter(|t|, |key|, p);
    if p > 0 {
      PadIsNotHex(t);
    }
    LegacyRead(t);
  }

  lemma LegacyRead(t: string)
    ensures VaultRead(VaultPayload(None, Some(Text(t)))) ==
            if FromHex(t).Some? then Ok(FromHex(t).value)
            else if FromBase64(t, false).Some? then Ok(FromBase64(t, false).value)
            else Err(NotFound)
  {
  }

  /** The encrypted columns `private_key_enc` and `key_nonce`. */
  datatype Columns = Columns(enc: string, nonce: string)

  function EncryptKey(a: Aead, kek: seq<byte>, nonce: seq<byte>, key: seq<byte>): Columns {
    Columns(ToBase64(a.seal(kek, nonce, key)), ToBase64(nonce))
  }

  function DecryptKey(a: Aead, kek: seq<byte>, c: Columns): Result<seq<byte>, KeyError> {
    var ct := DecodeStored(c.enc);
    if ct.Err? then Err(BadText)
    else
      var nonce := DecodeStored(c.nonce);
      if nonce.Err? then Err(BadText)
      else
        var m := a.unseal(kek, nonce.value.bytes, ct.value.bytes);
        if m.Some? then Ok(m.value) else Err(BadTag)
  }

  /** The two columns: sealed key first, nonce second, both in base64. */
  lemma ColumnText(a: Aead, kek: seq<byte>, nonce: seq<byte>, key: seq<byte>)
    ensures var c := EncryptKey(a, kek, nonce, key);
            FromBase64(c.enc, true) == Some(a.seal(kek, nonce, key)) && FromBase64(c.nonce, true) == Some(nonce)
  {
    FromBase64ToBase64(a.seal(kek, nonce, key), true);
    FromBase64ToBase64(nonce, true);
  }

  /** A 64-byte key stored as AES-GCM text comes back exactly when the text of its random nonce has a
      character outside hex; the 80-byte ciphertext never causes a failure. */
  lemma EncryptedKeyRoundTrip(a: Aead, kek: seq<byte>, nonce: seq<byte>, key: seq<byte>)
    requires IdealAead(a) && |nonce| == 12 && |key| == 64
    ensures DecryptKey(a, kek, EncryptKey(a, kek, nonce, key)) == Ok(key) <==> !AllHex(ToBase64(nonce))
    ensures AllHex(ToBase64(nonce)) ==> DecryptKey(a, kek, EncryptKey(a, kek, nonce, key)) == Err(BadTag)
  {
    var ct := a.seal(kek, nonce, key);
    PaddedIsNotHex(ct);
    StoredRoundTrip(ct);
    StoredRoundTrip(nonce);
  }

  // ------------------------------------------------------------ routing and resolution

  datatype Identity = System | Artisan(id: string) | Institution(id: string)

  /** The key store: Vault paths, the two DB tables with encrypted columns, and the system mnemonic. */
  datatype KeyStore = KeyStore(
    vaultEnabled: bool,
    vault: map<string, VaultPayload>,
    institutions: map<string, Columns>,
    artisans: map<string, Columns>,
    systemKey: Option<seq<byte>>)

  const SYSTEM := "system"
  const ARTISAN_PREFIX := "artisan/"

  /** `_load_private_key`'s reading of the routing string. */
  function Route(institutionId: Option<string>): Identity {
    if institutionId.None? || institutionId.value == SYSTEM then System
    else if ARTISAN_PREFIX <= institutionId.value then Artisan(institutionId.value[|ARTISAN_PREFIX|..])
    else Institution(institutionId.value)
  }

  function VaultPath(i: Identity): Result<string, KeyError> {
    match i
    case System => Ok(SYSTEM)
    case Artisan(id) => if id == "" then Err(BadIdentity) else Ok(ARTISAN_PREFIX + id)
    case Institution(id) => if id == "" then Err(BadIdentity) else Ok(id)
  }

  /** Which identity a routing string names. */
  lemma RouteExactly(id: string)
    ensures Route(None) == System && Route(Some("system")) == System
    ensures Route(Some("artisan/" + id)) == Artisan(id)
    ensures id != "system" && !("artisan/" <= id) ==> Route(Some(id)) == Institution(id)
  {
    var s := "artisan/" + id;
    assert s[|ARTISAN_PREFIX|..] == id && s[0] == 'a';
  }

  /** Routing loses nothing: the path read is the very string the key was written under. */
  lemma RouteKeepsPath(id: string)
    requires id != "" && id != ARTISAN_PREFIX
    ensures VaultPath(Route(Some(id))) == Ok(id)
    ensures VaultPath(Route(None)) == Ok(SYSTEM)
  {
    if ARTISAN_PREFIX <= id {
      assert id == ARTISAN_PREFIX + id[|ARTISAN_PREFIX|..];
    }
  }

  function Resolve(a: Aead, kek: seq<byte>, st: KeyStore, i: Identity): Result<KeyMaterial, KeyError> {
    if st.vaultEnabled then
      var path := VaultPath(i);
      if path.Err? then Err(path.error)
      else if path.value !in st.vault then Err(NotFound)
      else
        var k := VaultRead(st.vault[path.value]);
        if k.Ok? then Ok(Raw(k.value)) else Err(k.error)
    else match i
      case System =>
        // the mnemonic library hands out base64 text
        if st.systemKey.Some? then Ok(Text(ToBase64(st.systemKey.value))) else Err(NotFound)
      case Artisan(id) => FromColumns(a, kek, st.artisans, ARTISAN_PREFIX + id)
      case Institution(id) => FromColumns(a, kek, st.institutions, id)
  }

  function FromColumns(a: Aead, kek: seq<byte>, rows: map<string, Columns>, id: string): Result<KeyMaterial, KeyError> {
    if id !in rows || rows[id].enc == "" then Err(NotFound)
    else
      var k := DecryptKey(a, kek, rows[id]);
      if k.Ok? then Ok(Raw(k.value)) else Err(k.error)
  }

  /** Without Vault every identity is read from its own place and from no other: the system wallet from its
      mnemonic, an artisan from the artisans table under the full id, an institution from its registry row. A key
      encrypted there resolves exactly under the nonce condition. */
  lemma StoredKeyResolves(a: Aead, kek: seq<byte>, st: KeyStore, id: string, nonce: seq<byte>, key: seq<byte>)
    requires IdealAead(a) && |nonce| == 12 && |key| == 64 && !st.vaultEnabled
    ensures var text := ToBase64(nonce);
            var stored := if AllHex(text) then Err(BadTag) else Ok(Raw(key));
            var c := EncryptKey(a, kek, nonce, key);
            && ("artisan/" + id in st.artisans && st.artisans["artisan/" + id] == c ==> Resolve(a, kek, st, Artisan(id)) == stored)
            && ("artisan/" + id !in st.artisans ==> Resolve(a, kek, st, Artisan(id)) == Err(NotFound))
            && (id in st.institutions && st.institutions[id] == c ==> Resolve(a, kek, st, Institution(id)) == stored)
            && (id !in st.institutions ==> Resolve(a, kek, st, Institution(id)) == Err(NotFound))
  {
    EncryptedKeyRoundTrip(a, kek, nonce, key);
    CiphertextText(a, kek, nonce, key);
  }

  /** The system wallet: its 64-byte key comes through the mnemonic library's base64 text, or does not exist. */
  lemma SystemKeyResolves(a: Aead, kek: seq<byte>, e: Ed25519, st: KeyStore, seed: seq<byte>)
    requires IdealEd25519(e) && |seed| == 32 && !st.vaultEnabled
    ensures st.systemKey == None ==> Resolve(a, kek, st, System) == Err(NotFound)
    ensures st.systemKey == Some(seed + e.pub(seed)) ==>
              var k := Resolve(a, kek, st, System);
              k.Ok? && Coerce(k.value) == Ok(seed + e.pub(seed)) && ExtractSeed(k.value) == Ok(seed)
              && AddressOf(e, k.value) == Ok(e.pub(seed))
  {
    var key := seed + e.pub(seed);
    if st.systemKey == Some(key) {
      var k := Resolve(a, kek, st, System);
      KeyTextIsUnambiguous(key);
      assert key[..32] == seed && key[32..] == e.pub(seed);
      NormalisedKey(e, k.value, key);
    }
  }

  /** With Vault every identity is read from its own path. */
  lemma VaultKeyResolves(a: Aead, kek: seq<byte>, st: KeyStore, id: string, key: seq<byte>)
    requires st.vaultEnabled && id != ""
    ensures "system" in st.vault && st.vault["system"] == VaultWrite(key) ==> Resolve(a, kek, st, System) == Ok(Raw(key))
    ensures "artisan/" + id in st.vault && st.vault["artisan/" + id] == VaultWrite(key) ==> Resolve(a, kek, st, Artisan(id)) == Ok(Raw(key))
    ensures id in st.vault && st.vault[id] == VaultWrite(key) ==> Resolve(a, kek, st, Institution(id)) == Ok(Raw(key))
  {
    HexPayload(key, VaultWrite(key));
  }

  /** Approval: seed and public key are stored together under the institution id. */
  function Approve(a: Aead, kek: seq<byte>, e: Ed25519, st: KeyStore, id: string, seed: seq<byte>, nonce: seq<byte>): KeyStore {
    var key := seed + e.pub(seed);
    if st.vaultEnabled then st.(vault := st.vault[id := VaultWrite(key)])
    else st.(institutions := st.institutions[id := EncryptKey(a, kek, nonce, key)])
  }

  /** An id as `derive_institution_id` makes it: sixteen lower-case hex digits. */
  ghost predicate IsInstitutionId(id: string) {
    |id| == 16 && forall i :: 0 <= i < 16 ==> '0' <= id[i] <= '9' || 'a' <= id[i] <= 'f'
  }

  lemma InstitutionRoute(id: string)
    requires IsInstitutionId(id)
    ensures Route(Some(id)) == Institution(id)
  {
    assert id[1] != ARTISAN_PREFIX[1];
  }

  function AddressOf(e: Ed25519, k: KeyMaterial): Result<seq<byte>, KeyError> {
    var n := Normalise(e, k);
    if n.Ok? then Ok(n.value.key64[|n.value.key64| - 32..]) else Err(n.error)
  }

  function SignHash(e: Ed25519, k: KeyMaterial, hash: string): Result<string, KeyError> {
    var s := ExtractSeed(k);
    if s.Ok? then Ok(ToBase64(e.sign(s.value, hash))) else Err(s.error)
  }

  /** `verify_provenance`'s check of a base64 signature against the key inside an address. */
  function CheckSignature(e: Ed25519, address: seq<byte>, hash: string, signature: string): bool {
    var sig := FromBase64(signature, false);
    sig.Some? && e.verify(address, hash, sig.value)
  }

  /** A signature text is accepted exactly when the bytes it stands for are a signature of the hash by the key
      in the address; text that does not decode never is. */
  lemma SignatureExactly(e: Ed25519, address: seq<byte>, hash: string, sig: seq<byte>, text: string)
    ensures CheckSignature(e, address, hash, ToBase64(sig)) <==> e.verify(address, hash, sig)
    ensures FromBase64(text, false) == None ==> !CheckSignature(e, address, hash, text)
  {
    FromBase64ToBase64(sig, false);
  }

  /** A key made at approval survives storage, resolution and normalisation: the resolved key is the
      original, its address is the approved one, and its signatures verify against that address.
      In Vault mode always; in AES-GCM mode exactly under the nonce condition. */
  lemma ApprovedKeySurvives(a: Aead, kek: seq<byte>, e: Ed25519, st: KeyStore, id: string,
                            seed: seq<byte>, nonce: seq<byte>, hash: string)
    requires IdealAead(a) && IdealEd25519(e)
    requires IsInstitutionId(id) && |seed| == 32 && |nonce| == 12
    ensures var k := Resolve(a, kek, Approve(a, kek, e, st, id, seed, nonce), Route(Some(id)));
            var good := st.vaultEnabled || !AllHex(ToBase64(nonce));
            && (k == Ok(Raw(seed + e.pub(seed))) <==> good)
            && (good ==> ExtractSeed(k.value) == Ok(seed)
                         && AddressOf(e, k.value) == Ok(e.pub(seed))
                         && SignHash(e, k.value, hash).Ok?
                         && CheckSignature(e, e.pub(seed), hash, SignHash(e, k.value, hash).value))
            && (!good ==> k == Err(BadTag))
  {
    InstitutionRoute(id);
    ApprovedKeyResolves(a, kek, e, st, id, seed, nonce);
    RawKeyWorks(e, seed, hash);
  }

  lemma ApprovedKeyResolves(a: Aead, kek: seq<byte>, e: Ed25519, st: KeyStore, id: string, seed: seq<byte>, nonce: seq<byte>)
    requires IdealAead(a) && IdealEd25519(e)
    requires id != "" && |seed| == 32 && |nonce| == 12
    ensures var k := Resolve(a, kek, Approve(a, kek, e, st, id, seed, nonce), Institution(id));
            var good := st.vaultEnabled || !AllHex(ToBase64(nonce));
            k == if good then Ok(Raw(seed + e.pub(seed))) else Err(BadTag)
  {
    var key := seed + e.pub(seed);
    var st' := Approve(a, kek, e, st, id, seed, nonce);
    if st.vaultEnabled {
      VaultKeyResolves(a, kek, st', id, key);
    } else {
      StoredKeyResolves(a, kek, st', id, nonce, key);
    }
  }

  lemma RawKeyWorks(e: Ed25519, seed: seq<byte>, hash: string)
    requires IdealEd25519(e) && |seed| == 32
    ensures var k := Raw(seed + e.pub(seed));
            && ExtractSeed(k) == Ok(seed)
            && AddressOf(e, k) == Ok(e.pub(seed))
            && SignHash(e, k, hash).Ok?
            && CheckSignature(e, e.pub(seed), hash, SignHash(e, k, hash).value)
  {
    var key := seed + e.pub(seed);
    assert |key| == 64 && key[..32] == seed && key[32..] == e.pub(seed);
    SignatureText(e, seed, hash);
  }

  lemma CiphertextText(a: Aead, kek: seq<byte>, nonce: seq<byte>, key: seq<byte>)
    requires IdealAead(a) && |nonce| == 12
    ensures EncryptKey(a, kek, nonce, key).enc != ""
  {
    Base64IsClean(a.seal(kek, nonce, key));
  }

  lemma SignatureText(e: Ed25519, seed: seq<byte>, hash: string)
    requires IdealEd25519(e) && |seed| == 32
    ensures CheckSignature(e, e.pub(seed), hash, ToBase64(e.sign(seed, hash)))
  {
    FromBase64ToBase64(e.sign(seed, hash), false);
  }

  /** `get_issuer_address`: the key goes through a buffer that is overwritten before returning. */
  method GetIssuerAddress(a: Aead, kek: seq<byte>, e: Ed25519, st: KeyStore, institutionId: Option<string>)
    returns (address: Result<seq<byte>, KeyError>, buffer: array<byte>)
    ensures fresh(buffer) && forall i :: 0 <= i < buffer.Length ==> buffer[i] == 0
    ensures var k := Resolve(a, kek, st, Route(institutionId));
            address == if k.Err? then Err(k.error) else AddressOf(e, k.value)
  {
    buffer := new byte[0];
    var k := Resolve(a, kek, st, Route(institutionId));
    if k.Err? {
      return Err(k.error), buffer;
    }
    var n := Normalise(e, k.value);
    if n.Err? {
      return Err(n.error), buffer;
    }
    var key64 := n.value.key64;
    buffer := new byte[|key64|](i requires 0 <= i < |key64| => key64[i]);
    assert buffer[..] == key64;
    address := Ok(buffer[buffer.Length - 32..]);
    for i := 0 to buffer.Length
      invariant forall j :: 0 <= j < i ==> buffer[j] == 0
    {
      buffer[i] := 0;
    }
  }
}
