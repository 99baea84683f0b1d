/** Names of the marketplace boxes, computed once by the backend and once by the contract. */
module ArtworkId {
  import opened Wrappers
  import opened Numerals
  import TextCodec

  /** An artwork id as callers pass it. */
  datatype Id = Number(n: int) | Name(s: string)

  function Text(ds: seq<nat>): (s: string)
    requires IsDigits(10, ds)
    ensures |s| == |ds|
  {
    seq(|ds|, i requires 0 <= i < |ds| => (ds[i] + 48) as char)
  }

  /** Decimal digits of `n`, zero-padded on the left to at least `width` > 0 places. */
  function Padded(n: nat, width: nat): string
    requires width > 0
  {
    DigitsAreDigits(10, n);
    var ds := Digits(10, n);
    Text(Zeros(if |ds| < width then width - |ds| else 0) + ds)
  }

  /** Python's `03d`: the sign counts towards the width. */
  function Format03(n: int): string {
    if n >= 0 then Padded(n, 3) else "-" + Padded(-n, 2)
  }

  const PREFIX := "art_"

  /** The canonical id; `parseInt` is Python's `int` on text, None for ValueError. */
  function Canonical(id: Id, parseInt: string -> Option<int>): Option<string> {
    match id
    case Number(n) => Some(PREFIX + Format03(n))
    case Name(s) =>
      var value := TextCodec.Strip(s);
      if PREFIX <= value then Some(value)
      else
        var n := parseInt(value);
        if n.Some? then Some(PREFIX + Format03(n.value)) else None
  }

  function CanonicalNumber(n: int): string {
    PREFIX + Format03(n)
  }

  /** Digit text back to its number. */
  lemma PaddedValue(n: nat, width: nat, ds: seq<nat>)
    requires width > 0 && IsDigits(10, ds) && Padded(n, width) == Text(ds)
    ensures Value(10, ds) == n
  {
    DigitsAreDigits(10, n);
    var digits := Digits(10, n);
    var all := Zeros(if |digits| < width then width - |digits| else 0) + digits;
    assert |all| == |ds|;
    forall i | 0 <= i < |ds| ensures all[i] == ds[i] {
      assert Text(all)[i] == Text(ds)[i];
    }
    assert all == ds;
    ValueSkipsZeros(10, |all| - |digits|, digits);
    ValueOfDigits(10, n);
  }

  lemma PaddedIsDigits(n: nat, width: nat) returns (ds: seq<nat>)
    requires width > 0
    ensures IsDigits(10, ds) && Padded(n, width) == Text(ds) && |ds| > 0
    ensures '0' <= Padded(n, width)[0] <= '9'
  {
    DigitsAreDigits(10, n);
    var digits := Digits(10, n);
    ds := Zeros(if |digits| < width then width - |digits| else 0) + digits;
  }

  lemma PaddedInjective(m: nat, n: nat, width: nat)
    requires width > 0 && Padded(m, width) == Padded(n, width)
    ensures m == n
  {
    var ds := PaddedIsDigits(m, width);
    PaddedValue(m, width, ds);
    PaddedValue(n, width, ds);
  }

  lemma FirstCharacter(n: int)
    ensures Format03(n) != "" && (Format03(n)[0] == '-' <==> n < 0)
  {
    var ds := PaddedIsDigits(if n >= 0 then n else -n, if n >= 0 then 3 else 2);
  }

  lemma FormatInjective(m: int, n: int)
    requires Format03(m) == Format03(n)
    ensures m == n
  {
    FirstCharacter(m);
    FirstCharacter(n);
    if m >= 0 {
      PaddedInjective(m, n, 3);
    } else {
      var s, t := Padded(-m, 2), Padded(-n, 2);
      assert Format03(m)[1..] == s && Format03(n)[1..] == t;
      PaddedInjective(-m, -n, 2);
    }
  }

  /** Different numbers have different canonical ids, negative ones included. */
  lemma CanonicalInjective(m: int, n: int)
    ensures CanonicalNumber(m) == CanonicalNumber(n) <==> m == n
  {
    if CanonicalNumber(m) == CanonicalNumber(n) {
      assert CanonicalNumber(m)[|PREFIX|..] == Format03(m) && CanonicalNumber(n)[|PREFIX|..] == Format03(n);
      FormatInjective(m, n);
    }
  }

  // ------------------------------------------------------------ what the text is

  /** `s` is "art_", a sign exactly for negative numbers, and the decimal digits `ds` of |n|: three characters
      or more with the sign, and no leading zero if there are more than three. */
  ghost predicate IsTextOf(s: string, ds: seq<nat>, n: int) {
    var sign, least := if n < 0 then "-" else "", if n < 0 then 2 else 3;
    && IsDigits(10, ds) && Value(10, ds) == (if n < 0 then -n else n)
    && s == "art_" + sign + seq(|ds|, i requires 0 <= i < |ds| => ('0' as int + ds[i]) as char)
    && |ds| >= least && (|ds| > least ==> ds[0] != 0)
  }

  lemma PaddedText(n: nat, width: nat) returns (ds: seq<nat>)
    requires width > 0
    ensures IsDigits(10, ds) && Value(10, ds) == n && |ds| >= width && (|ds| > width ==> ds[0] != 0)
    ensures Padded(n, width) == seq(|ds|, i requires 0 <= i < |ds| => ('0' as int + ds[i]) as char)
  {
    DigitsAreDigits(10, n);
    ValueOfDigits(10, n);
    var digits := Digits(10, n);
    var pad := if |digits| < width then width - |digits| else 0;
    ds := Zeros(pad) + digits;
    ValueSkipsZeros(10, pad, digits);
    assert Padded(n, width) == Text(ds);
  }

  lemma SplitDigits(ds: seq<nat>)
    requires IsDigits(10, ds)
    ensures Digits(10, Value(10, ds)) == ds[LeadingZeros(ds)..]
  {
    var z := LeadingZeros(ds);
    SplitLeadingZeros(ds);
    ValueSkipsZeros(10, z, ds[z..]);
    DigitsOfValue(10, ds[z..]);
  }

  /** Digits of at least this width, and without a leading zero beyond it, are the padded ones. */
  lemma PaddedDigits(ds: seq<nat>, width: nat)
    requires IsDigits(10, ds) && |ds| >= width && (|ds| > width ==> ds[0] != 0)
    ensures var digits := Digits(10, Value(10, ds));
            ds == Zeros(if |digits| < width then width - |digits| else 0) + digits
  {
    SplitDigits(ds);
    SplitLeadingZeros(ds);
  }

  lemma PaddedOnly(ds: seq<nat>, width: nat)
    requires width > 0 && IsDigits(10, ds) && |ds| >= width && (|ds| > width ==> ds[0] != 0)
    ensures Padded(Value(10, ds), width) == seq(|ds|, i requires 0 <= i < |ds| => ('0' as int + ds[i]) as char)
  {
    PaddedDigits(ds, width);
    assert Padded(Value(10, ds), width) == Text(ds);
  }

  lemma SignAndDigits(n: int)
    ensures CanonicalNumber(n) == "art_" + (if n < 0 then "-" else "") + Padded(if n < 0 then -n else n, if n < 0 then 2 else 3)
  {
    if n >= 0 {
      assert "art_" + "" == "art_";
    }
  }

  lemma TextOf(n: int) returns (ds: seq<nat>)
    ensures IsTextOf(CanonicalNumber(n), ds, n)
  {
    SignAndDigits(n);
    ds := PaddedText(if n < 0 then -n else n, if n < 0 then 2 else 3);
  }

  lemma TextOfOnly(s: string, ds: seq<nat>, n: int)
    requires IsTextOf(s, ds, n)
    ensures s == CanonicalNumber(n)
  {
    SignAndDigits(n);
    PaddedOnly(ds, if n < 0 then 2 else 3);
  }

  /** The canonical id of a number is the one text with these properties. */
  lemma CanonicalIsTheText(s: string, n: int)
    ensures s == CanonicalNumber(n) <==> exists ds :: IsTextOf(s, ds, n)
  {
    var ds := TextOf(n);
    if other :| IsTextOf(s, other, n) {
      TextOfOnly(s, other, n);
    }
  }

  /** What callers pass: a number, or text that is stripped, kept if it has the prefix, and otherwise read as a
      number, which gives the id of that number. */
  lemma NamesAreNumbers(s: string, n: int, parseInt: string -> Option<int>)
    ensures Canonical(Number(n), parseInt) == Some(CanonicalNumber(n))
    ensures "art_" <= TextCodec.Strip(s) ==> Canonical(Name(s), parseInt) == Some(TextCodec.Strip(s))
    ensures !("art_" <= TextCodec.Strip(s)) && parseInt(TextCodec.Strip(s)) == Some(n) ==>
              Canonical(Name(s), parseInt) == Canonical(Number(n), parseInt)
    ensures !("art_" <= TextCodec.Strip(s)) && parseInt(TextCodec.Strip(s)) == None ==> Canonical(Name(s), parseInt) == None
  {
  }

  lemma EndsAreKept(s: string)
    requires s != "" && !TextCodec.IsUnicodeSpace(s[0]) && !TextCodec.IsUnicodeSpace(s[|s| - 1])
    ensures TextCodec.Strip(s) == s
  {
  }

  lemma CanonicalHasNoSpace(n: int)
    ensures TextCodec.Strip(CanonicalNumber(n)) == CanonicalNumber(n)
  {
    var s := CanonicalNumber(n);
    CanonicalEnds(n);
    EndsAreKept(s);
  }

  lemma CanonicalEnds(n: int)
    ensures var s := CanonicalNumber(n);
            s != "" && s[0] == 'a' && '0' <= s[|s| - 1] <= '9'
  {
    var s := CanonicalNumber(n);
    var ds := PaddedIsDigits(if n >= 0 then n else -n, if n >= 0 then 3 else 2);
    assert Text(ds)[|ds| - 1] == s[|s| - 1];
    assert s[|s| - 1] == Format03(n)[|Format03(n)| - 1];
  }

  /** Canonicalising twice is canonicalising once, whatever the caller passed. */
  lemma CanonicalIdempotent(id: Id, parseInt: string -> Option<int>)
    ensures var c := Canonical(id, parseInt); c.Some? ==> Canonical(Name(c.value), parseInt) == c
  {
    match id
    case Number(n) => CanonicalHasNoSpace(n);
    case Name(s) =>
      TextCodec.StripTwice(s);
      var v := parseInt(TextCodec.Strip(s));
      if v.Some? {
        CanonicalHasNoSpace(v.value);
      }
  }

  // ------------------------------------------------------------ boxes

  /** UTF-8 of ASCII text. */
  function Utf8(s: string): (b: seq<byte>)
    requires TextCodec.IsAscii(s)
    ensures |b| == |s|
  {
    seq(|s|, i requires 0 <= i < |s| => s[i] as int)
  }

  lemma Utf8Injective(s: string, t: string)
    requires TextCodec.IsAscii(s) && TextCodec.IsAscii(t)
    ensures Utf8(s) == Utf8(t) <==> s == t
  {
    if Utf8(s) == Utf8(t) {
      forall i | 0 <= i < |s| ensures s[i] == t[i] {
        assert Utf8(s)[i] == Utf8(t)[i];
      }
    }
  }

  /** ARC-4 string encoding: a two-byte big-endian length, then the bytes. */
  function Arc4String(b: seq<byte>): seq<byte>
    requires |b| < 0x1_0000
  {
    [|b| / 256, |b| % 256] + b
  }

  /** The SDK's decoder: the length must be the number of bytes that follow. */
  function Arc4Decode(arg: seq<byte>): Option<seq<byte>> {
    if |arg| < 2 || arg[0] as int * 256 + arg[1] as int != |arg| - 2 then None else Some(arg[2..])
  }

  /** The contract only cuts the prefix off, without looking at it. */
  function ArtworkKey(arg: seq<byte>): seq<byte> {
    if |arg| < 2 then [] else arg[2..]
  }

  /** Decoding is the inverse of encoding, and on whatever it accepts the contract's cut agrees. */
  lemma Arc4Inverse(arg: seq<byte>, b: seq<byte>)
    requires |b| < 0x1_0000
    ensures Arc4Decode(arg) == Some(b) <==> arg == Arc4String(b)
    ensures Arc4Decode(arg) == Some(b) ==> ArtworkKey(arg) == b
  {
    assert Arc4String(b)[2..] == b;
    assert |b| / 256 * 256 + |b| % 256 == |b|;
    if Arc4Decode(arg) == Some(b) {
      assert arg == [arg[0], arg[1]] + arg[2..];
      DivModUnique(arg[0], 256, arg[1]);
    }
  }

  /** The layout: two length bytes, high byte first, then the text. */
  lemma Arc4Layout(b: seq<byte>)
    requires |b| < 0x1_0000
    ensures var arg := Arc4String(b);
            |arg| == |b| + 2 && arg[0] as int * 256 + arg[1] as int == |b| && arg[2..] == b && ArtworkKey(arg) == b
  {
    assert |b| / 256 * 256 + |b| % 256 == |b|;
  }

  datatype BoxMap = Owner | Price | Creator

  function BoxPrefix(m: BoxMap): string {
    match m
    case Owner => "owner:"
    case Price => "price:"
    case Creator => "creator:"
  }

  /** The box a contract map uses for a key. */
  function ContractBox(m: BoxMap, key: seq<byte>): seq<byte> {
    Utf8(BoxPrefix(m)) + key
  }

  /** The three maps never share a box. */
  lemma BoxesAreDisjoint(m: BoxMap, k: seq<byte>, m': BoxMap, k': seq<byte>)
    ensures ContractBox(m, k) == ContractBox(m', k') <==> m == m' && k == k'
  {
    var b, b' := ContractBox(m, k), ContractBox(m', k');
    if b == b' {
      assert b[0] == BoxPrefix(m)[0] as int && b'[0] == BoxPrefix(m')[0] as int;
      assert b[|BoxPrefix(m)|..] == k && b'[|BoxPrefix(m')|..] == k';
    }
  }

  /** Box names, character by character: the name of the map, a colon, the key. */
  lemma BoxNames(m: BoxMap, key: seq<byte>)
    ensures BoxPrefix(m) == match m case Owner => "owner" + ":" case Price => "price" + ":" case Creator => "creator" + ":"
    ensures var p := BoxPrefix(m);
            && |ContractBox(m, key)| == |p| + |key| && ContractBox(m, key)[|p|..] == key
            && forall i :: 0 <= i < |p| ==> ContractBox(m, key)[i] as int == p[i] as int
  {
  }

  /** The box of artwork n as both sides name it. */
  lemma OwnerBoxText(n: int)
    ensures |OwnerBoxName(n)| == 6 + |CanonicalNumber(n)|
    ensures forall i :: 0 <= i < |OwnerBoxName(n)| ==> OwnerBoxName(n)[i] as int == ("owner:" + CanonicalNumber(n))[i] as int
  {
    CanonicalIsAscii(n);
  }

  lemma CanonicalIsAscii(n: int)
    ensures TextCodec.IsAscii(CanonicalNumber(n))
  {
    var ds := PaddedIsDigits(if n >= 0 then n else -n, if n >= 0 then 3 else 2);
    assert forall i :: 0 <= i < |ds| ==> (Text(ds)[i] as int) < 128;
  }

  function CanonicalBytes(n: int): seq<byte> {
    CanonicalIsAscii(n);
    Utf8(CanonicalNumber(n))
  }

  /** The box name the backend reads the owner from. */
  function OwnerBoxName(n: int): seq<byte> {
    CanonicalIsAscii(n);
    Utf8("owner:" + CanonicalNumber(n))
  }

  lemma Utf8Append(s: string, t: string)
    requires TextCodec.IsAscii(s) && TextCodec.IsAscii(t)
    ensures TextCodec.IsAscii(s + t) && Utf8(s + t) == Utf8(s) + Utf8(t)
  {
  }

  /** The box the backend reads for n is the box the contract wrote for a caller who sent the
      ARC-4 encoding of n' exactly when n == n'. */
  lemma OwnerBoxesAgree(n: int, n': int)
    requires |CanonicalNumber(n')| < 0x1_0000
    ensures OwnerBoxName(n) == ContractBox(Owner, ArtworkKey(Arc4String(CanonicalBytes(n')))) <==> n == n'
  {
    CanonicalIsAscii(n);
    CanonicalIsAscii(n');
    Utf8Append("owner:", CanonicalNumber(n));
    Arc4Layout(CanonicalBytes(n'));
    BoxesAreDisjoint(Owner, CanonicalBytes(n), Owner, CanonicalBytes(n'));
    CanonicalBytesInjective(n, n');
  }

  lemma CanonicalBytesInjective(m: int, n: int)
    ensures CanonicalBytes(m) == CanonicalBytes(n) <==> m == n
  {
    CanonicalIsAscii(m);
    CanonicalIsAscii(n);
    Utf8Injective(CanonicalNumber(m), CanonicalNumber(n));
    CanonicalInjective(m, n);
  }
}
