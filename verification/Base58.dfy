/** base58btc as the DID service encodes public keys, with the decoder it does not have. */
module Base58 {
  import opened Wrappers
  import opened Numerals

  /** `n` consecutive characters starting at `c`. */
  function Run(c: char, n: nat): string
    requires c as int + n <= 128
  {
    seq(n, i requires 0 <= i < n => (c as int + i) as char)
  }

  /** The Bitcoin alphabet: digits and letters without 0, I, O and l. */
  const ALPHABET: string :=
    Run('1', 9) + Run('A', 8) + Run('J', 5) + Run('P', 11) + Run('a', 11) + Run('m', 14)

  lemma AlphabetText()
    ensures ALPHABET == "123456789" + "ABCDEFGH" + "JKLMN" + "PQRSTUVWXYZ" + "abcdefghijk" + "mnopqrstuvwxyz"
  {
    assert Run('1', 9) == "123456789";
    assert Run('A', 8) == "ABCDEFGH";
    assert Run('J', 5) == "JKLMN";
    assert Run('P', 11) == "PQRSTUVWXYZ";
    assert Run('a', 11) == "abcdefghijk";
    assert Run('m', 14) == "mnopqrstuvwxyz";
  }

  predicate InAlphabet(c: char) {
    '1' <= c <= '9' || ('A' <= c <= 'Z' && c != 'I' && c != 'O') || ('a' <= c <= 'z' && c != 'l')
  }

  /** Position of a character in the alphabet. */
  function DigitOf(c: char): (d: nat)
    requires InAlphabet(c)
    ensures d < 58
  {
    if c <= '9' then c as int - 49
    else if c <= 'H' then c as int - 56
    else if c <= 'N' then c as int - 57
    else if c <= 'Z' then c as int - 58
    else if c <= 'k' then c as int - 64
    else c as int - 65
  }

  lemma AlphabetIsDigits(d: nat)
    requires d < 58
    ensures |ALPHABET| == 58 && InAlphabet(ALPHABET[d]) && DigitOf(ALPHABET[d]) == d
  {
  }

  lemma AlphabetIsOnto(c: char)
    requires InAlphabet(c)
    ensures |ALPHABET| == 58 && ALPHABET[DigitOf(c)] == c
  {
  }

  function ToText(ds: seq<nat>): (s: string)
    requires IsDigits(58, ds)
    ensures |s| == |ds|
  {
    seq(|ds|, i requires 0 <= i < |ds| => ALPHABET[ds[i]])
  }

  ghost predicate IsBase58Text(s: string) {
    forall i :: 0 <= i < |s| ==> InAlphabet(s[i])
  }

  function FromText(s: string): (ds: seq<nat>)
    requires IsBase58Text(s)
    ensures |ds| == |s| && IsDigits(58, ds)
  {
    seq(|s|, i requires 0 <= i < |s| => DigitOf(s[i]))
  }

  /** The text of `data`: a '1' for each leading zero byte, then the base-58 numeral of the rest. */
  ghost function Encode(data: seq<byte>): string {
    RebaseInverse(256, 58, data);
    ToText(Rebase(256, 58, data))
  }

  ghost function Decode(s: string): Option<seq<byte>> {
    if IsBase58Text(s) then
      RebaseInverse(58, 256, FromText(s));
      Some(Rebase(58, 256, FromText(s)))
    else None
  }

  function Reverse<T>(s: seq<T>): (r: seq<T>)
    ensures |r| == |s| && forall i :: 0 <= i < |s| ==> r[i] == s[|s| - 1 - i]
  {
    if s == [] then [] else Reverse(s[1..]) + [s[0]]
  }

  lemma FromToText(ds: seq<nat>)
    requires IsDigits(58, ds)
    ensures IsBase58Text(ToText(ds)) && FromText(ToText(ds)) == ds
  {
    forall i | 0 <= i < |ds| ensures InAlphabet(ToText(ds)[i]) && DigitOf(ToText(ds)[i]) == ds[i] {
      AlphabetIsDigits(ds[i]);
    }
  }

  lemma ToFromText(s: string)
    requires IsBase58Text(s)
    ensures ToText(FromText(s)) == s
  {
    forall i | 0 <= i < |s| ensures ALPHABET[DigitOf(s[i])] == s[i] {
      AlphabetIsOnto(s[i]);
    }
  }

  /** The encoder is injective: the decoder returns every byte string unchanged. */
  lemma DecodeEncode(data: seq<byte>)
    ensures Decode(Encode(data)) == Some(data)
  {
    RebaseInverse(256, 58, data);
    FromToText(Rebase(256, 58, data));
  }

  /** The encoder is onto: every string over the alphabet is the text of exactly its decoding. */
  lemma EncodeDecode(s: string)
    ensures Decode(s).Some? <==> IsBase58Text(s)
    ensures Decode(s).Some? ==> Encode(Decode(s).value) == s
  {
    if IsBase58Text(s) {
      RebaseInverse(58, 256, FromText(s));
      ToFromText(s);
    }
  }

  /** Leading zero bytes become leading '1's, one for one and no more. */
  lemma LeadingOnes(data: seq<byte>)
    ensures LeadingZeros(data) <= |Encode(data)|
    ensures forall i :: 0 <= i < LeadingZeros(data) ==> Encode(data)[i] == '1'
    ensures LeadingZeros(data) < |Encode(data)| ==> Encode(data)[LeadingZeros(data)] != '1'
  {
    var k, ds := LeadingZeros(data), Rebase(256, 58, data);
    RebaseInverse(256, 58, data);
    AlphabetIsDigits(0);
    if k < |ds| {
      assert LeadingZeros(ds) == k;
      AlphabetIsDigits(ds[k]);
    }
  }

  /** After the '1's stands the only base-58 numeral of the number that has no leading zero. */
  lemma MinimalNumeral(data: seq<byte>, ds: seq<nat>)
    requires IsDigits(58, ds) && (ds == [] || ds[0] != 0)
    requires Value(58, ds) == Value(256, data)
    ensures LeadingZeros(data) <= |Encode(data)|
    ensures Encode(data)[LeadingZeros(data)..] == ToText(ds)
  {
    RebaseInverse(256, 58, data);
    DigitsOfValue(58, ds);
    assert Rebase(256, 58, data)[LeadingZeros(data)..] == ds;
  }

  lemma EncodedLength(data: seq<byte>)
    ensures |Encode(data)| == LeadingZeros(data) + |Digits(58, Value(256, data))|
  {
    RebaseInverse(256, 58, data);
  }

  /** k bytes after the zeros and d > 0 digits after the '1's: 8 * (d - 1) < 11 * k. */
  lemma EncodeLength(data: seq<byte>)
    ensures var k := |data| - LeadingZeros(data);
            var d := |Encode(data)| - LeadingZeros(data);
            d >= 0 && (d > 0 ==> 8 * (d - 1) < 11 * k)
  {
    EncodedLength(data);
    var rest, ds := data[LeadingZeros(data)..], Digits(58, Value(256, data));
    if |ds| > 0 {
      NumeralsOfOneNumber(data, rest, ds);
      DigitCount(|ds| - 1, |rest|);
    }
  }

  lemma NumeralsOfOneNumber(data: seq<byte>, rest: seq<byte>, ds: seq<nat>)
    requires rest == data[LeadingZeros(data)..] && ds == Digits(58, Value(256, data)) && |ds| > 0
    ensures Pow(58, |ds| - 1) < Pow(256, |rest|)
  {
    SplitLeadingZeros(data);
    ValueSkipsZeros(256, LeadingZeros(data), rest);
    ValueBounds(256, rest);
    DigitsAreDigits(58, Value(256, data));
    ValueOfDigits(58, Value(256, data));
    ValueBounds(58, ds);
  }

  lemma DigitCount(m: nat, k: nat)
    requires Pow(58, m) < Pow(256, k)
    ensures 8 * m < 11 * k
  {
    if 8 * m >= 11 * k {
      PowTimes(58, m, 8);
      PowTimes(256, k, 8);
      PowBaseMono(Pow(58, m), Pow(256, k), 8);
      assert Pow(58, m * 8) < Pow(256, k * 8) == Pow(256, 8 * k);
      PowTimes(58, 11, k);
      PowTimes(256, 8, k);
      SmallPowers();
      PowBaseMono(Pow(256, 8), Pow(58, 11), k);
      assert Pow(256, 8 * k) <= Pow(58, 11 * k);
      PowExponentMono(58, 11 * k, m * 8);
    }
  }

  lemma SmallPowers()
    ensures Pow(256, 8) < Pow(58, 11)
  {
    assert Pow(256, 4) == 0x1_0000_0000;
    assert Pow(256, 8) == 0x1_0000_0000_0000_0000 by { PowAdd(256, 4, 4); }
    assert Pow(58, 4) == 11_316_496;
    assert Pow(58, 8) == 11_316_496 * 11_316_496 by { PowAdd(58, 4, 4); }
    assert Pow(58, 3) == 195_112;
    PowAdd(58, 8, 3);
  }

  lemma ToTextOfZeros(k: nat, ds: seq<nat>)
    requires IsDigits(58, ds)
    ensures ToText(Zeros(k) + ds) == seq(k, _ => ALPHABET[0]) + ToText(ds)
  {
  }

  /** One round of the division loop: the last digit of the numeral moves to the list. */
  lemma DivisionStep(num: nat, encoded: string)
    requires num != 0
    ensures num / 58 < num && |ALPHABET| == 58
    ensures IsDigits(58, Digits(58, num)) && IsDigits(58, Digits(58, num / 58))
    ensures ToText(Digits(58, num)) + Reverse(encoded)
         == ToText(Digits(58, num / 58)) + Reverse(encoded + [ALPHABET[num % 58]])
  {
    DivLess(num, 58);
    DigitsAreDigits(58, num);
    DigitsAreDigits(58, num / 58);
    var d := ALPHABET[num % 58];
    assert Reverse(encoded + [d]) == [d] + Reverse(encoded);
    assert ToText(Digits(58, num)) == ToText(Digits(58, num / 58)) + [d];
  }

  /** The two loops of the source: count the zero bytes, then divide down and reverse. */
  method EncodeBytes(data: seq<byte>) returns (result: string)
    ensures result == Encode(data)
  {
    var count := 0;
    for i := 0 to |data|
      invariant count == i
      invariant forall j :: 0 <= j < i ==> data[j] == 0
    {
      if data[i] == 0 {
        count := count + 1;
      } else {
        break;
      }
    }
    assert count == LeadingZeros(data);

    var num := Value(256, data);
    ghost var numeral := Digits(58, num);
    DigitsAreDigits(58, num);
    var encoded: string := [];
    while num != 0
      invariant IsDigits(58, Digits(58, num))
      invariant ToText(numeral) == ToText(Digits(58, num)) + Reverse(encoded)
      decreases num
    {
      DivisionStep(num, encoded);
      var remainder := num % 58;
      num := num / 58;
      encoded := encoded + [ALPHABET[remainder]];
    }
    result := seq(count, _ => ALPHABET[0]) + Reverse(encoded);
    RebaseInverse(256, 58, data);
    assert Rebase(256, 58, data) == Zeros(count) + numeral;
    ToTextOfZeros(count, numeral);
  }

  /** The multibase form: 'z' in front of the base58btc text. */
  method MultibaseBase58(data: seq<byte>) returns (text: string)
    ensures |text| > 0 && text[0] == 'z' && Decode(text[1..]) == Some(data)
  {
    var encoded := EncodeBytes(data);
    DecodeEncode(data);
    text := "z" + encoded;
    assert text[1..] == encoded;
  }
}
