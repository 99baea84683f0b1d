/** The did:skillchain method (syntax of section 3.1 of W3C DID Core): building and parsing. */
module Did {
  import opened Wrappers

  datatype Parts = Parts(network: string, address: string, identifier: string)

  const DID_METHOD := "did:skillchain"
  const LEGACY_METHOD := "did:algo"

  predicate IsNetwork(s: string) {
    s == "testnet" || s == "mainnet"
  }

  predicate IsAddress(s: string) {
    |s| == 58 && forall i :: 0 <= i < 58 ==> 'A' <= s[i] <= 'Z' || '2' <= s[i] <= '7'
  }

  predicate IsLowerHex(c: char) {
    '0' <= c <= '9' || 'a' <= c <= 'f'
  }

  /** Sixteen hex digits, or the 8-4-4-4-12 groups of a UUID. */
  predicate IsIdentifier(s: string) {
    || (|s| == 16 && forall i :: 0 <= i < 16 ==> IsLowerHex(s[i]))
    || (|s| == 36 && forall i :: 0 <= i < 36 ==>
          if i == 8 || i == 13 || i == 18 || i == 23 then s[i] == '-' else IsLowerHex(s[i]))
  }

  predicate WellFormed(p: Parts) {
    IsNetwork(p.network) && IsAddress(p.address) && IsIdentifier(p.identifier)
  }

  function Build(scheme: string, p: Parts): string {
    scheme + ":" + p.network + ":" + p.address + ":" + p.identifier
  }

  /** What `$` leaves of the tail: Python lets one line feed follow the end of the pattern. */
  function DropLineFeed(tail: string): string {
    if |tail| > 0 && tail[|tail| - 1] == '\n' then tail[..|tail| - 1] else tail
  }

  /** Matching from the left. Both networks have seven letters, so every group has a fixed place. */
  function Parse(scheme: string, did: string): Option<Parts> {
    var n := |scheme|;
    if |did| < n + 68 || did[..n] != scheme || did[n] != ':' || did[n + 8] != ':' || did[n + 67] != ':' then None
    else
      var p := Parts(did[n + 1..n + 8], did[n + 9..n + 67], DropLineFeed(did[n + 68..]));
      if WellFormed(p) then Some(p) else None
  }

  /** The strings that parse to `p` are its DID and its DID with one line feed, nothing else. */
  lemma ParseExactly(scheme: string, did: string, p: Parts)
    ensures Parse(scheme, did) == Some(p) <==>
            WellFormed(p) && (did == Build(scheme, p) || did == Build(scheme, p) + "\n")
  {
    if WellFormed(p) {
      ParseOfBuild(scheme, p, "");
      ParseOfBuild(scheme, p, "\n");
      assert Build(scheme, p) + "" == Build(scheme, p);
    }
    if Parse(scheme, did) == Some(p) {
      BuildOfParse(scheme, did, p);
    }
  }

  lemma BuildOfParse(scheme: string, did: string, p: Parts)
    requires Parse(scheme, did) == Some(p)
    ensures did == Build(scheme, p) || did == Build(scheme, p) + "\n"
  {
    var n := |scheme|;
    var tail := did[n + 68..];
    var head := scheme + ":" + p.network + ":" + p.address + ":";
    assert did[..n + 68] == head;
    assert did == head + tail;
    assert tail == p.identifier || tail == p.identifier + "\n";
    assert Build(scheme, p) + "\n" == head + (p.identifier + "\n");
  }

  lemma ParseOfBuild(scheme: string, p: Parts, tail: string)
    requires WellFormed(p) && (tail == "" || tail == "\n")
    ensures Parse(scheme, Build(scheme, p) + tail) == Some(p)
  {
    var n, did := |scheme|, Build(scheme, p) + tail;
    assert did[..n] == scheme;
    assert did[n + 1..n + 8] == p.network;
    assert did[n + 9..n + 67] == p.address;
    assert did[n + 68..] == p.identifier + tail;
    assert p.identifier[|p.identifier| - 1] != '\n';
    assert DropLineFeed(p.identifier + tail) == p.identifier;
  }

  /** The layout of a DID: method, network, address and identifier in this order, each behind a colon. */
  lemma Layout(p: Parts)
    requires WellFormed(p)
    ensures var d := Build(DID_METHOD, p);
            && d[..14] == "did" + ":" + "skillchain" && d[14] == ':' && d[15..22] == p.network && d[22] == ':'
            && d[23..81] == p.address && d[81] == ':' && d[82..] == p.identifier
  {
    var d := Build(DID_METHOD, p);
    assert |DID_METHOD| == 14 && DID_METHOD == "did" + ":" + "skillchain";
    assert d[..14] == DID_METHOD;
    assert d[15..22] == p.network;
    assert d[23..81] == p.address;
    assert d[82..] == p.identifier;
  }

  /** The characters of an address. */
  lemma AddressCharacters(s: string)
    ensures IsAddress(s) <==>
            |s| == 58 && forall i :: 0 <= i < 58 ==> (('A' <= s[i] && s[i] <= 'Z') || s[i] == '2' || s[i] == '3' || s[i] == '4'
                                                      || s[i] == '5' || s[i] == '6' || s[i] == '7')
  {
  }

  /** Building and parsing are inverse on exactly the well-formed parts. */
  lemma ParseBuild(p: Parts)
    ensures Parse(DID_METHOD, Build(DID_METHOD, p)) == Some(p) <==> WellFormed(p)
  {
    ParseExactly(DID_METHOD, Build(DID_METHOD, p), p);
  }

  /** No string is both a current and a legacy DID. */
  lemma SchemesAreDisjoint(did: string)
    ensures !(Parse(DID_METHOD, did).Some? && Parse(LEGACY_METHOD, did).Some?)
  {
    assert Parse(DID_METHOD, did).Some? ==> did[..|DID_METHOD|][4] == 's';
    assert Parse(LEGACY_METHOD, did).Some? ==> did[..|LEGACY_METHOD|][4] == 'a';
  }
}
