/** Hex and base64 as Python 3.10 reads and writes them (sections 4 and 8 of RFC 4648), and the
    sniffing decoder the key vault puts in front of both. Text is a sequence of code points. */
module TextCodec {
  import opened Wrappers

  // ---------------------------------------------------------------- hex

  predicate IsHexDigit(c: char) {
    '0' <= c <= '9' || 'a' <= c <= 'f' || 'A' <= c <= 'F'
  }

  function HexValue(c: char): (v: nat)
    requires IsHexDigit(c)
    ensures v < 16
  {
    if c <= '9' then c as int - 48 else if c <= 'F' then c as int - 55 else c as int - 87
  }

  function HexChar(v: nat): (c: char)
    requires v < 16
    ensures IsHexDigit(c) && HexValue(c) == v
  {
    if v < 10 then (v + 48) as char else (v + 87) as char
  }

  /** `bytes.hex()`. */
  function ToHex(b: seq<byte>): string {
    if b == [] then "" else [HexChar(b[0] / 16), HexChar(b[0] % 16)] + ToHex(b[1..])
  }

  predicate IsAsciiSpace(c: char) {
    c == ' ' || 9 <= c as int <= 13
  }

  /** `bytes.fromhex`: ASCII white space may stand between pairs; None for ValueError. */
  function FromHex(s: string): Option<seq<byte>> {
    if s == "" then Some([])
    else if IsAsciiSpace(s[0]) then FromHex(s[1..])
    else if |s| == 1 || !IsHexDigit(s[0]) || !IsHexDigit(s[1]) then None
    else Emit(HexValue(s[0]) * 16 + HexValue(s[1]), FromHex(s[2..]))
  }

  function Emit(b: byte, rest: Option<seq<byte>>): Option<seq<byte>> {
    if rest.None? then None else Some([b] + rest.value)
  }

  predicate LooksLikeHex(text: string) {
    |text| % 2 == 0 && FromHex(text).Some?
  }

  ghost predicate AllHex(s: string) {
    forall i :: 0 <= i < |s| ==> IsHexDigit(s[i])
  }

  lemma {:induction false} FromHexToHex(b: seq<byte>)
    ensures FromHex(ToHex(b)) == Some(b)
    ensures AllHex(ToHex(b)) && |ToHex(b)| == 2 * |b|
  {
    if b != [] {
      FromHexToHex(b[1..]);
      var s := ToHex(b);
      assert s[2..] == ToHex(b[1..]);
      assert (b[0] / 16) * 16 + b[0] % 16 == b[0];
      assert b == [b[0]] + b[1..];
    }
  }

  /** On text without white space, hex decoding succeeds exactly on paired hex digits. */
  lemma {:induction false} FromHexNoSpace(s: string)
    requires forall i :: 0 <= i < |s| ==> !IsAsciiSpace(s[i])
    ensures LooksLikeHex(s) <==> AllHex(s) && |s| % 2 == 0
    ensures FromHex(s).Some? ==> |s| == 2 * |FromHex(s).value|
  {
    if |s| >= 2 {
      FromHexNoSpace(s[2..]);
      if AllHex(s[2..]) && IsHexDigit(s[0]) && IsHexDigit(s[1]) {
        forall i | 0 <= i < |s| ensures IsHexDigit(s[i]) {
          if i >= 2 {
            assert s[2..][i - 2] == s[i];
          }
        }
      } else if AllHex(s) {
        assert AllHex(s[2..]);
      }
    }
  }

  // ---------------------------------------------------------------- base64

  predicate IsB64Char(c: char) {
    'A' <= c <= 'Z' || 'a' <= c <= 'z' || '0' <= c <= '9' || c == '+' || c == '/'
  }

  function B64Value(c: char): (v: nat)
    requires IsB64Char(c)
    ensures v < 64
  {
    if c == '+' then 62
    else if c == '/' then 63
    else if c <= '9' then c as int + 4
    else if c <= 'Z' then c as int - 65
    else c as int - 71
  }

  function B64Char(v: nat): (c: char)
    requires v < 64
    ensures IsB64Char(c) && B64Value(c) == v
  {
    if v < 26 then (v + 65) as char
    else if v < 52 then (v + 71) as char
    else if v < 62 then (v - 4) as char
    else if v == 62 then '+'
    else '/'
  }

  /** `base64.b64encode`. */
  function ToBase64(b: seq<byte>): (s: string)
    ensures |s| % 4 == 0
  {
    if b == [] then ""
    else if |b| == 1 then
      [B64Char(b[0] / 4), B64Char(b[0] % 4 * 16), '=', '=']
    else if |b| == 2 then
      [B64Char(b[0] / 4), B64Char(b[0] % 4 * 16 + b[1] / 16), B64Char(b[1] % 16 * 4), '=']
    else
      Group(b[0], b[1], b[2]) + ToBase64(b[3..])
  }

  function Group(x: byte, y: byte, z: byte): (s: string)
    ensures |s| == 4
  {
    [B64Char(x / 4), B64Char(x % 4 * 16 + y / 16), B64Char(y % 16 * 4 + z / 64), B64Char(z % 64)]
  }

  /** `binascii.a2b_base64` after the characters that led to state (quad, left, pads): characters
      outside the alphabet are skipped, a completed pad run ends the input. */
  function Scan(s: string, quad: nat, left: nat, pads: nat): Option<seq<byte>>
    requires quad < 4 && (quad == 1 ==> left < 64) && (quad == 2 ==> left < 16) && (quad == 3 ==> left < 4)
  {
    if s == "" then (if quad == 0 then Some([]) else None)
    else if s[0] == '=' then
      if quad < 2 then Scan(s[1..], quad, left, pads)
      else if quad + pads + 1 >= 4 then Some([])
      else Scan(s[1..], quad, left, pads + 1)
    else if !IsB64Char(s[0]) then Scan(s[1..], quad, left, pads)
    else
      var v := B64Value(s[0]);
      if quad == 0 then Scan(s[1..], 1, v, 0)
      else if quad == 1 then Emit(left * 4 + v / 16, Scan(s[1..], 2, v % 16, 0))
      else if quad == 2 then Emit(left * 16 + v / 4, Scan(s[1..], 3, v % 4, 0))
      else Emit(left * 64 + v, Scan(s[1..], 0, 0, 0))
  }

  predicate IsB64Body(s: string) {
    forall i :: 0 <= i < |s| ==> IsB64Char(s[i])
  }

  /** The full match against `[A-Za-z0-9+/]*={0,2}` that `validate=True` adds. */
  predicate FullMatch(s: string) {
    var n := |s|;
    || IsB64Body(s)
    || (n >= 1 && s[n - 1] == '=' && IsB64Body(s[..n - 1]))
    || (n >= 2 && s[n - 1] == '=' && s[n - 2] == '=' && IsB64Body(s[..n - 2]))
  }

  predicate IsAscii(s: string) {
    forall i :: 0 <= i < |s| ==> s[i] as int < 128
  }

  /** `base64.b64decode`; None for any exception it raises. */
  function FromBase64(s: string, validate: bool): Option<seq<byte>> {
    if !IsAscii(s) || (validate && !FullMatch(s)) then None else Scan(s, 0, 0, 0)
  }

  lemma ScanGroup(x: byte, y: byte, z: byte, rest: string)
    ensures Scan(Group(x, y, z) + rest, 0, 0, 0)
         == Emit(x, Emit(y, Emit(z, Scan(rest, 0, 0, 0))))
  {
    var g := Group(x, y, z) + rest;
    var v0, v1, v2, v3 := x / 4, x % 4 * 16 + y / 16, y % 16 * 4 + z / 64, z % 64;
    assert g[1..][1..] == g[2..] && g[2..][1..] == g[3..] && g[3..][1..] == rest;
    assert v1 / 16 == x % 4 && v1 % 16 == y / 16;
    assert v2 / 4 == y % 16 && v2 % 4 == z / 64;
    assert v0 * 4 + v1 / 16 == x && (v1 % 16) * 16 + v2 / 4 == y && (v2 % 4) * 64 + v3 == z;
    assert Scan(g, 0, 0, 0) == Scan(g[1..], 1, v0, 0);
    assert Scan(g[1..], 1, v0, 0) == Emit(x, Scan(g[2..], 2, v1 % 16, 0));
    assert Scan(g[2..], 2, v1 % 16, 0) == Emit(y, Scan(g[3..], 3, v2 % 4, 0));
    assert Scan(g[3..], 3, v2 % 4, 0) == Emit(z, Scan(rest, 0, 0, 0));
  }

  lemma ScanOneByte(x: byte)
    ensures Scan([B64Char(x / 4), B64Char(x % 4 * 16), '=', '='], 0, 0, 0) == Some([x])
  {
    var v0, v1 := x / 4, x % 4 * 16;
    var s := [B64Char(v0), B64Char(v1), '=', '='];
    assert s[1..] == [B64Char(v1), '=', '='] && s[1..][1..] == ['=', '='] && s[1..][1..][1..] == ['='];
    assert v1 / 16 == x % 4 && v1 % 16 == 0 && v0 * 4 + v1 / 16 == x;
    assert Scan(['='], 2, 0, 1) == Some([]);
    assert Scan(['=', '='], 2, 0, 0) == Some([]);
    assert [x] + [] == [x];
    assert Scan(s[1..], 1, v0, 0) == Emit(x, Some([]));
    assert Scan(s, 0, 0, 0) == Scan(s[1..], 1, v0, 0);
  }

  lemma ScanTwoBytes(x: byte, y: byte)
    ensures Scan([B64Char(x / 4), B64Char(x % 4 * 16 + y / 16), B64Char(y % 16 * 4), '='], 0, 0, 0) == Some([x, y])
  {
    var v0, v1, v2 := x / 4, x % 4 * 16 + y / 16, y % 16 * 4;
    var s := [B64Char(v0), B64Char(v1), B64Char(v2), '='];
    assert s[1..] == [B64Char(v1), B64Char(v2), '='] && s[1..][1..] == [B64Char(v2), '='] && s[1..][1..][1..] == ['='];
    assert v1 / 16 == x % 4 && v1 % 16 == y / 16 && v0 * 4 + v1 / 16 == x;
    assert v2 / 4 == y % 16 && v2 % 4 == 0 && v1 % 16 * 16 + v2 / 4 == y;
    assert Scan(['='], 3, 0, 0) == Some([]);
    assert Scan(s[1..][1..], 2, v1 % 16, 0) == Emit(y, Some([]));
    assert [y] + [] == [y] && [x] + [y] == [x, y];
    assert Scan(s[1..], 1, v0, 0) == Emit(x, Scan(s[1..][1..], 2, v1 % 16, 0));
    assert Scan(s, 0, 0, 0) == Scan(s[1..], 1, v0, 0);
  }

  lemma {:induction false} ScanToBase64(b: seq<byte>)
    ensures Scan(ToBase64(b), 0, 0, 0) == Some(b)
  {
    if |b| >= 3 {
      ScanToBase64(b[3..]);
      ScanGroup(b[0], b[1], b[2], ToBase64(b[3..]));
      assert b == [b[0]] + ([b[1]] + ([b[2]] + b[3..]));
    } else if |b| == 1 {
      ScanOneByte(b[0]);
      assert b == [b[0]];
    } else if |b| == 2 {
      ScanTwoBytes(b[0], b[1]);
      assert b == [b[0], b[1]];
    }
  }

  /** How many '=' the encoding of n bytes ends in. */
  function PadLength(n: nat): nat {
    if n % 3 == 0 then 0 else 3 - n % 3
  }

  /** Shape of an encoding of n bytes: a body over the alphabet, then exactly the pad run. */
  ghost predicate HasShape(s: string, n: nat) {
    var p := PadLength(n);
    && 3 * |s| == 4 * (n + p) && p <= |s|
    && IsB64Body(s[..|s| - p])
    && (forall i :: |s| - p <= i < |s| ==> s[i] == '=')
  }

  lemma PrependGroup(g: string, t: string, n: nat)
    requires |g| == 4 && IsB64Body(g) && HasShape(t, n)
    ensures HasShape(g + t, n + 3)
  {
    var s, p := g + t, PadLength(n);
    assert PadLength(n + 3) == p;
    assert s[..|s| - p] == g + t[..|t| - p];
  }

  lemma {:induction false} Base64Shape(b: seq<byte>)
    ensures HasShape(ToBase64(b), |b|)
  {
    if |b| >= 3 {
      Base64Shape(b[3..]);
      PrependGroup(Group(b[0], b[1], b[2]), ToBase64(b[3..]), |b| - 3);
    }
  }

  lemma {:induction false} FromBase64ToBase64(b: seq<byte>, validate: bool)
    ensures FromBase64(ToBase64(b), validate) == Some(b)
  {
    Base64Shape(b);
    ScanToBase64(b);
    var s, p := ToBase64(b), PadLength(|b|);
    assert s[..|s| - p] + s[|s| - p..] == s;
    assert p == 0 ==> s[..|s| - p] == s;
    forall i | 0 <= i < |s| ensures (s[i] as int) < 128 {
      assert i < |s| - p ==> IsB64Char(s[..|s| - p][i]);
    }
  }

  /** The alphabet, character by character. */
  lemma Base64Alphabet(v: nat)
    requires v < 64
    ensures B64Char(v) == ("ABCDEFGHIJKLMNOPQRSTUVWXYZ" + "abcdefghijklmnopqrstuvwxyz" + "0123456789" + "+/")[v]
  {
    var upper, lower, digits := "ABCDEFGHIJKLMNOPQRSTUVWXYZ", "abcdefghijklmnopqrstuvwxyz", "0123456789";
    if v < 26 {
      assert upper[v] as int == 65 + v;
    } else if v < 52 {
      assert lower[v - 26] as int == 97 + (v - 26);
    } else if v < 62 {
      assert digits[v - 52] as int == 48 + (v - 52);
    }
  }

  /** The lenient decoder passes over characters outside the alphabet, the strict one refuses them. */
  lemma {:induction false} LenientSkips(s: string, c: char, t: string)
    requires !IsB64Char(c) && c != '=' && c as int < 128
    ensures FromBase64([c] + t, false) == FromBase64(t, false)
    ensures FromBase64(s + [c] + t, true) == None
  {
    assert ([c] + t)[1..] == t;
    assert IsAscii([c] + t) <==> IsAscii(t) by {
      assert forall i :: 0 <= i < |t| ==> ([c] + t)[i + 1] == t[i];
    }
    var all := s + [c] + t;
    assert all[|s|] == c;
    if FullMatch(all) {
      assert IsB64Char(all[|s|]) || all[|s|] == '=' by {
        MatchedCharacter(all, |s|);
      }
    }
  }

  /** A pad in front of the text is passed over by the lenient decoder, and a completed group with its pad ends
      the text, whatever follows. */
  lemma LenientPads(t: string, x: byte)
    requires IsAscii(t)
    ensures FromBase64("=" + t, false) == FromBase64(t, false)
    ensures FromBase64([B64Char(x / 4), B64Char(x % 4 * 16), '=', '='] + t, false) == Some([x])
  {
    var all := "=" + t;
    assert all[1..] == t;
    assert IsAscii(all) by {
      assert forall i :: 0 < i < |all| ==> all[i] == t[i - 1];
    }
    GroupEndsText(t, x);
  }

  lemma GroupEndsText(t: string, x: byte)
    requires IsAscii(t)
    ensures FromBase64([B64Char(x / 4), B64Char(x % 4 * 16), '=', '='] + t, false) == Some([x])
  {
    var v0, v1 := x / 4, x % 4 * 16;
    var c0, c1 := B64Char(v0), B64Char(v1);
    var s := [c0, c1, '=', '='] + t;
    assert v1 / 16 == x % 4 && v1 % 16 == 0 && v0 * 4 + v1 / 16 == x;
    assert s[1..] == [c1, '=', '='] + t && ([c1, '=', '='] + t)[1..] == ['=', '='] + t && (['=', '='] + t)[1..] == ['='] + t;
    assert Scan(['='] + t, 2, 0, 1) == Some([]);
    assert Scan(['=', '='] + t, 2, 0, 0) == Some([]);
    assert Scan([c1, '=', '='] + t, 1, v0, 0) == Emit(x, Some([]));
    assert [x] + [] == [x];
    assert IsAscii(s) by {
      assert forall i :: 4 <= i < |s| ==> s[i] == t[i - 4];
    }
  }

  lemma MatchedCharacter(s: string, i: nat)
    requires FullMatch(s) && i < |s|
    ensures IsB64Char(s[i]) || s[i] == '='
  {
    var n := |s|;
    if IsB64Body(s) {
    } else if n >= 1 && s[n - 1] == '=' && IsB64Body(s[..n - 1]) {
      assert i < n - 1 ==> s[..n - 1][i] == s[i];
    } else {
      assert i < n - 2 ==> s[..n - 2][i] == s[i];
    }
  }

  /** The digits of a hex text as numbers. */
  function HexDigits(s: string): seq<nat>
    requires forall i :: 0 <= i < |s| ==> IsHexDigit(s[i])
  {
    seq(|s|, i requires 0 <= i < |s| => HexValue(s[i]))
  }

  /** The hex text of bytes: two lower-case digits a byte, high one first. */
  lemma {:induction false} HexText(b: seq<byte>, i: nat)
    requires i < |b|
    ensures |ToHex(b)| == 2 * |b|
    ensures var hi, lo := ToHex(b)[2 * i], ToHex(b)[2 * i + 1];
            && ('0' <= hi <= '9' || 'a' <= hi <= 'f') && ('0' <= lo <= '9' || 'a' <= lo <= 'f')
            && (if hi <= '9' then hi as int - '0' as int else hi as int - 'a' as int + 10) * 16
               + (if lo <= '9' then lo as int - '0' as int else lo as int - 'a' as int + 10) == b[i]
  {
    FromHexToHex(b);
    var s := ToHex(b);
    assert s[2..] == ToHex(b[1..]);
    if i == 0 {
      assert (b[0] / 16) * 16 + b[0] % 16 == b[0];
    } else {
      HexText(b[1..], i - 1);
      assert s[2 * i] == s[2..][2 * (i - 1)] && s[2 * i + 1] == s[2..][2 * (i - 1) + 1];
    }
  }

  /** The base64 text of bytes, three at a time: four digits of the number the three bytes make, and at the end
      the digits of one or two bytes, shifted, and the pad. */
  lemma Base64Text(b: seq<byte>)
    requires |b| >= 3
    ensures var s := ToBase64(b);
            && |s| >= 4 && (forall i :: 0 <= i < 4 ==> IsB64Char(s[i])) && s[4..] == ToBase64(b[3..])
            && ((B64Value(s[0]) * 64 + B64Value(s[1])) * 64 + B64Value(s[2])) * 64 + B64Value(s[3])
               == (b[0] as int * 256 + b[1] as int) * 256 + b[2] as int
  {
    var g := Group(b[0], b[1], b[2]);
    assert (g + ToBase64(b[3..]))[4..] == ToBase64(b[3..]) && ToBase64(b)[..4] == g;
    BitsOfGroup(b[0], b[1], b[2]);
  }

  lemma Base64Tail(x: byte, y: byte)
    ensures var s := ToBase64([x, y]);
            && |s| == 4 && (forall i :: 0 <= i < 3 ==> IsB64Char(s[i])) && s[3] == '='
            && (B64Value(s[0]) * 64 + B64Value(s[1])) * 64 + B64Value(s[2]) == (x as int * 256 + y as int) * 4
    ensures var s := ToBase64([x]);
            && |s| == 4 && (forall i :: 0 <= i < 2 ==> IsB64Char(s[i])) && s[2] == s[3] == '='
            && B64Value(s[0]) * 64 + B64Value(s[1]) == x as int * 16
  {
    BitsOfGroup(x, y, 0);
    BitsOfGroup(x, 0, 0);
  }

  lemma BitsOfGroup(x: byte, y: byte, z: byte)
    ensures ((x / 4 * 64 + (x % 4 * 16 + y / 16)) * 64 + (y % 16 * 4 + z / 64)) * 64 + z % 64 == (x as int * 256 + y as int) * 256 + z as int
  {
    assert x == x / 4 * 4 + x % 4 && y == y / 16 * 16 + y % 16 && z == z / 64 * 64 + z % 64;
  }

  // ---------------------------------------------------------------- the sniffing decoder

  /** White space in the sense of `str.strip`. */
  predicate IsUnicodeSpace(c: char) {
    var n := c as int;
    || 9 <= n <= 13 || 28 <= n <= 32 || n == 0x85 || n == 0xA0 || n == 0x1680
    || 0x2000 <= n <= 0x200A || n == 0x2028 || n == 0x2029 || n == 0x202F || n == 0x205F || n == 0x3000
  }

  function Strip(s: string): string {
    if s == "" then ""
    else if IsUnicodeSpace(s[0]) then Strip(s[1..])
    else if IsUnicodeSpace(s[|s| - 1]) then Strip(s[..|s| - 1])
    else s
  }

  lemma StripIsIdentity(s: string)
    requires forall i :: 0 <= i < |s| ==> IsB64Char(s[i]) || s[i] == '='
    ensures Strip(s) == s
  {
  }

  /** Stripping takes white space off both ends, all of it, and nothing else. */
  lemma {:induction false} StripMeans(s: string) returns (left: string, right: string)
    ensures s == left + Strip(s) + right
    ensures forall i :: 0 <= i < |left| ==> IsUnicodeSpace(left[i])
    ensures forall i :: 0 <= i < |right| ==> IsUnicodeSpace(right[i])
    ensures Strip(s) != "" ==> !IsUnicodeSpace(Strip(s)[0]) && !IsUnicodeSpace(Strip(s)[|Strip(s)| - 1])
    decreases |s|
  {
    if s == "" {
      left, right := "", "";
    } else if IsUnicodeSpace(s[0]) {
      left, right := StripMeans(s[1..]);
      left := [s[0]] + left;
    } else if IsUnicodeSpace(s[|s| - 1]) {
      left, right := StripMeans(s[..|s| - 1]);
      right := right + [s[|s| - 1]];
    } else {
      left, right := "", "";
    }
  }

  datatype Encoding = Hex | Base64 | Base64Padded

  datatype DecodeError = Empty | NeitherHexNorBase64

  datatype Decoded = Decoded(bytes: seq<byte>, encoding: Encoding)

  function Pad(n: nat): (s: string)
    ensures |s| == n && forall i :: 0 <= i < n ==> s[i] == '='
  {
    seq(n, _ => '=')
  }

  /** The stored-text decoder: hex first, strict base64 next, then lenient base64 after repairing the pad. */
  function DecodeStored(value: string): Result<Decoded, DecodeError> {
    var text := Strip(value);
    if text == "" then Err(Empty)
    else if LooksLikeHex(text) then Ok(Decoded(FromHex(text).value, Hex))
    else if FromBase64(text, true).Some? then Ok(Decoded(FromBase64(text, true).value, Base64))
    else
      var padded := text + Pad((4 - |text| % 4) % 4);
      if FromBase64(padded, false).Some? then Ok(Decoded(FromBase64(padded, false).value, Base64Padded))
      else Err(NeitherHexNorBase64)
  }

  ghost predicate DecodesTo(text: string, b: seq<byte>) {
    DecodeStored(text).Ok? && DecodeStored(text).value.bytes == b
  }

  lemma TextHasNoSpace(s: string)
    requires forall i :: 0 <= i < |s| ==> IsB64Char(s[i]) || s[i] == '='
    ensures forall i :: 0 <= i < |s| ==> !IsAsciiSpace(s[i])
  {
  }

  lemma Base64Chars(b: seq<byte>)
    ensures var s := ToBase64(b); forall i :: 0 <= i < |s| ==> IsB64Char(s[i]) || s[i] == '='
  {
    Base64Shape(b);
    var s, p := ToBase64(b), PadLength(|b|);
    forall i | 0 <= i < |s| ensures IsB64Char(s[i]) || s[i] == '=' {
      assert i < |s| - p ==> IsB64Char(s[..|s| - p][i]);
    }
  }

  /** What the decoder does with text that needs no stripping. */
  lemma DecodeCleanText(s: string)
    requires s != "" && forall i :: 0 <= i < |s| ==> IsB64Char(s[i]) || s[i] == '='
    ensures LooksLikeHex(s) <==> AllHex(s) && |s| % 2 == 0
    ensures LooksLikeHex(s) ==> DecodeStored(s) == Ok(Decoded(FromHex(s).value, Hex))
                                && |s| == 2 * |FromHex(s).value|
    ensures !LooksLikeHex(s) && FromBase64(s, true).Some? ==>
              DecodeStored(s) == Ok(Decoded(FromBase64(s, true).value, Base64))
    ensures var padded := s + Pad((4 - |s| % 4) % 4);
            !LooksLikeHex(s) && FromBase64(s, true).None? && FromBase64(padded, false).Some? ==>
              DecodeStored(s) == Ok(Decoded(FromBase64(padded, false).value, Base64Padded))
  {
    StripIsIdentity(s);
    TextHasNoSpace(s);
    FromHexNoSpace(s);
  }

  /** White space between pairs is passed over, inside a pair it is not, and what is left must be pairs. */
  lemma HexSpaces(c: char, d: char, s: string)
    ensures IsAsciiSpace(c) ==> FromHex([c] + s) == FromHex(s)
    ensures IsHexDigit(c) && IsAsciiSpace(d) ==> FromHex([c, d] + s) == None
    ensures IsHexDigit(c) ==> FromHex([c]) == None
    ensures !IsHexDigit(c) && !IsAsciiSpace(c) ==> FromHex([c] + s) == None
    ensures IsHexDigit(c) && IsHexDigit(d) ==>
              FromHex([c, d] + s) == match FromHex(s) case Some(b) => Some([HexValue(c) * 16 + HexValue(d)] + b) case None => None
  {
    assert ([c] + s)[1..] == s && ([c, d] + s)[2..] == s;
  }

  /** What the decoder refuses: text that is empty when stripped, and text that is neither hex nor, padded or
      not, base64. */
  lemma DecodeRefuses(value: string)
    ensures var s := Strip(value);
            && (DecodeStored(value) == Err(Empty) <==> s == "")
            && (DecodeStored(value) == Err(NeitherHexNorBase64) <==>
                  && s != "" && !LooksLikeHex(s) && FromBase64(s, true) == None
                  && FromBase64(s + seq((4 - |s| % 4) % 4, _ => '='), false) == None)
            && DecodeStored(value) == DecodeStored(s)
  {
    StripTwice(value);
    assert Pad((4 - |Strip(value)| % 4) % 4) == seq((4 - |Strip(value)| % 4) % 4, _ => '=');
  }

  lemma {:induction false} StripTwice(s: string)
    ensures Strip(Strip(s)) == Strip(s)
    decreases |s|
  {
    if s != "" && IsUnicodeSpace(s[0]) {
      StripTwice(s[1..]);
    } else if s != "" && IsUnicodeSpace(s[|s| - 1]) {
      StripTwice(s[..|s| - 1]);
    }
  }

  /** The round trip for any clean text `s` that base64 decodes to `b`, p pad characters included. */
  lemma CleanRoundTrip(s: string, b: seq<byte>, p: nat)
    requires s != "" && forall i :: 0 <= i < |s| ==> IsB64Char(s[i]) || s[i] == '='
    requires b != [] && FromBase64(s, true) == Some(b)
    requires |s| % 4 == 0 && 3 * |s| == 4 * (|b| + p) && p < 3
    requires p > 0 ==> s[|s| - 1] == '='
    ensures DecodesTo(s, b) <==> !AllHex(s)
    ensures !AllHex(s) ==> DecodeStored(s) == Ok(Decoded(b, Base64))
    ensures AllHex(s) ==> DecodeStored(s).Ok? && DecodeStored(s).value.encoding == Hex
                          && 3 * |DecodeStored(s).value.bytes| == 2 * |b|
  {
    DecodeCleanText(s);
    if p > 0 {
      PadIsNotHex(s);
    }
    HalfIsShorter(|s|, |b|, p);
  }

  lemma PadIsNotHex(s: string)
    requires s != "" && s[|s| - 1] == '='
    ensures !AllHex(s)
  {
  }

  lemma HalfIsShorter(s: nat, b: nat, p: nat)
    requires s > 0 && b > 0 && s % 4 == 0 && 3 * s == 4 * (b + p)
    ensures s % 2 == 0 && (p == 0 ==> s / 2 < b && 3 * (s / 2) == 2 * b)
  {
    var q := s / 4;
    assert s == 4 * q && b + p == 3 * q && s / 2 == 2 * q;
  }

  lemma Base64IsClean(b: seq<byte>)
    requires b != []
    ensures var s, p := ToBase64(b), PadLength(|b|);
            && s != "" && |s| % 4 == 0 && 3 * |s| == 4 * (|b| + p)
            && FromBase64(s, true) == Some(b) && FromBase64(s, false) == Some(b)
            && (forall i :: 0 <= i < |s| ==> IsB64Char(s[i]) || s[i] == '=')
            && (p > 0 ==> s[|s| - 1] == '=')
  {
    Base64Shape(b);
    Base64Chars(b);
    FromBase64ToBase64(b, true);
    FromBase64ToBase64(b, false);
  }

  /** Stored base64 reads back as the bytes it came from exactly when it is not all hex digits;
      in the other case it is taken for hex. */
  lemma StoredRoundTrip(b: seq<byte>)
    requires b != []
    ensures DecodesTo(ToBase64(b), b) <==> !AllHex(ToBase64(b))
    ensures !AllHex(ToBase64(b)) ==> DecodeStored(ToBase64(b)) == Ok(Decoded(b, Base64))
    ensures AllHex(ToBase64(b)) ==> DecodeStored(ToBase64(b)).Ok?
                                    && DecodeStored(ToBase64(b)).value.encoding == Hex
                                    && 3 * |DecodeStored(ToBase64(b)).value.bytes| == 2 * |b|
  {
    Base64IsClean(b);
    CleanRoundTrip(ToBase64(b), b, PadLength(|b|));
  }

  /** Text with a pad is never all hex, so the 80-byte ciphertext always reads back. */
  lemma PaddedIsNotHex(b: seq<byte>)
    ensures |b| % 3 != 0 ==> !AllHex(ToBase64(b))
  {
    Base64Shape(b);
    var s := ToBase64(b);
    if |b| % 3 != 0 {
      assert s[|s| - 1] == '=';
    }
  }

  function ZeroBytes(n: nat): seq<byte> {
    seq(n, _ => 0)
  }

  lemma FourHex(a: char, b: char, c: char, d: char)
    requires IsHexDigit(a) && IsHexDigit(b) && IsHexDigit(c) && IsHexDigit(d)
    ensures AllHex([a, b, c, d])
  {
  }

  lemma ZeroGroup(x: byte, y: byte, z: byte)
    requires x == y == z == 0
    ensures AllHex(Group(x, y, z))
  {
    var zero := B64Char(0);
    FourHex(zero, zero, zero, zero);
  }

  lemma {:induction false} ZerosEncodeAsHex(b: seq<byte>)
    requires |b| % 3 == 0 && forall i :: 0 <= i < |b| ==> b[i] == 0
    ensures AllHex(ToBase64(b))
  {
    if b != [] {
      ZerosEncodeAsHex(b[3..]);
      ZeroGroup(b[0], b[1], b[2]);
      AllHexAppend(Group(b[0], b[1], b[2]), ToBase64(b[3..]));
    }
  }

  lemma AllHexAppend(s: string, t: string)
    requires AllHex(s) && AllHex(t)
    ensures AllHex(s + t)
  {
  }

  /** The condition bites: twelve zero bytes, a possible GCM nonce, are stored as hex-looking text
      and come back as eight bytes. */
  lemma ZeroNonceIsTakenForHex()
    ensures !DecodesTo(ToBase64(ZeroBytes(12)), ZeroBytes(12))
    ensures DecodeStored(ToBase64(ZeroBytes(12))).Ok?
    ensures |DecodeStored(ToBase64(ZeroBytes(12))).value.bytes| == 8
  {
    ZerosEncodeAsHex(ZeroBytes(12));
    StoredRoundTrip(ZeroBytes(12));
  }

  /** The encoding without its pad. */
  function Unpadded(b: seq<byte>): string {
    Base64Shape(b);
    ToBase64(b)[..|ToBase64(b)| - PadLength(|b|)]
  }

  /** With the pad stripped the bytes still come back exactly when the text does not look like hex:
      the strict decoder rejects an incomplete quad and the repair restores the pad. */
  lemma UnpaddedRoundTrip(b: seq<byte>)
    requires b != []
    ensures DecodesTo(Unpadded(b), b) <==> !LooksLikeHex(Unpadded(b))
    ensures !LooksLikeHex(Unpadded(b)) ==>
              DecodeStored(Unpadded(b)) == Ok(Decoded(b, if |b| % 3 == 0 then Base64 else Base64Padded))
  {
    Base64Shape(b);
    FromBase64ToBase64(b, true);
    FromBase64ToBase64(b, false);
    UnpaddedShape(b);
    DecodeCleanText(Unpadded(b));
    if |b| % 3 == 0 {
      StoredRoundTrip(b);
    } else if LooksLikeHex(Unpadded(b)) {
      HexOfOneByte(b);
    }
  }

  lemma UnpaddedShape(b: seq<byte>)
    requires b != []
    ensures var u, p := Unpadded(b), PadLength(|b|);
            && u != "" && IsB64Body(u) && 3 * (|u| + p) == 4 * (|b| + p)
            && p == (4 - |u| % 4) % 4 && u + Pad(p) == ToBase64(b)
            && (p == 0 ==> u == ToBase64(b))
            && (p > 0 ==> FromBase64(u, true).None?)
  {
    Base64Shape(b);
    SplitPad(ToBase64(b), PadLength(|b|));
  }

  lemma SplitPad(s: string, p: nat)
    requires p < 3 && p < |s| && |s| % 4 == 0 && IsB64Body(s[..|s| - p])
    requires forall i :: |s| - p <= i < |s| ==> s[i] == '='
    ensures var u := s[..|s| - p];
            && p == (4 - |u| % 4) % 4 && u + Pad(p) == s
            && (p == 0 ==> u == s) && (p > 0 ==> FromBase64(u, true).None?)
  {
    var u := s[..|s| - p];
    assert u + Pad(p) == s;
    if p > 0 {
      IncompleteText(u);
    }
  }

  lemma IncompleteText(u: string)
    requires IsB64Body(u) && |u| % 4 != 0
    ensures FromBase64(u, true).None?
  {
    IncompleteQuad(u, 0, 0);
  }

  lemma {:induction false} IncompleteQuad(s: string, quad: nat, left: nat)
    requires quad < 4 && (quad == 1 ==> left < 64) && (quad == 2 ==> left < 16) && (quad == 3 ==> left < 4)
    requires IsB64Body(s)
    ensures Scan(s, quad, left, 0).Some? <==> (|s| + quad) % 4 == 0
  {
    if s != "" {
      var v := B64Value(s[0]);
      assert IsB64Body(s[1..]);
      IncompleteQuad(s[1..], (quad + 1) % 4, if quad == 0 then v else if quad == 1 then v % 16 else if quad == 2 then v % 4 else 0);
    }
  }

  /** Only one byte could make the lengths agree, and then the value does not. */
  lemma HexOfOneByte(b: seq<byte>)
    requires b != [] && |b| % 3 != 0 && LooksLikeHex(Unpadded(b))
    ensures FromHex(Unpadded(b)) != Some(b)
  {
    var u := Unpadded(b);
    UnpaddedShape(b);
    DecodeCleanText(u);
    if |b| == 1 {
      var v := b[0] % 4 * 16;
      assert u == [B64Char(b[0] / 4), B64Char(v)];
      assert IsHexDigit(u[1]) && B64Value(u[1]) == v;
      assert b[0] % 4 == 0;
      assert FromHex(u) == Emit(HexValue(u[0]) * 16 + HexValue(u[1]), FromHex(u[2..]));
      assert HexValue(u[1]) == 10;
    }
  }
}
