/** The RSA signer's padding: a hexadecimal string that is read as a number. */
module Pkcs1 {

  type Octet = b: nat | b < 256

  // ----------------------------------------------------------- hexadecimal strings

  function HexChar(d: nat): char
    requires d < 16
  {
    "0123456789abcdef"[d]
  }

  predicate IsHex(c: char) {
    '0' <= c <= '9' || 'a' <= c <= 'f' || 'A' <= c <= 'F'
  }

  function DigitOf(c: char): (d: nat)
    ensures d < 16
  {
    if '0' <= c <= '9' then (c - '0') as nat
    else if 'a' <= c <= 'f' then (c - 'a') as nat + 10
    else if 'A' <= c <= 'F' then (c - 'A') as nat + 10
    else 0
  }

  lemma DigitOfHexChar(d: nat)
    requires d < 16
    ensures IsHex(HexChar(d)) && DigitOf(HexChar(d)) == d
  {
  }

  function HexValue(s: string): nat {
    if s == "" then 0 else 16 * HexValue(s[..|s| - 1]) + DigitOf(s[|s| - 1])
  }

  function Pow16(n: nat): (p: nat)
    ensures p > 0
  {
    if n == 0 then 1 else 16 * Pow16(n - 1)
  }

  lemma {:induction false} HexValueBound(s: string)
    ensures HexValue(s) < Pow16(|s|)
  {
    if s != "" {
      HexValueBound(s[..|s| - 1]);
    }
  }

  /** A first digit other than zero makes the number as long as its string. */
  lemma {:induction false} HexValueAtLeast(s: string)
    requires s != "" && DigitOf(s[0]) > 0
    ensures HexValue(s) >= Pow16(|s| - 1)
  {
    if |s| > 1 {
      HexValueAtLeast(s[..|s| - 1]);
    } else {
      assert s[..0] == "";
    }
  }

  lemma {:induction false} LeadingZeros(s: string, t: string)
    requires forall i :: 0 <= i < |s| ==> s[i] == '0'
    ensures HexValue(s + t) == HexValue(t)
    decreases |t|, |s|
  {
    if t != "" {
      assert (s + t)[..|s + t| - 1] == s + t[..|t| - 1];
      LeadingZeros(s, t[..|t| - 1]);
    } else if s != "" {
      assert (s + t)[..|s + t| - 1] == s[..|s| - 1] + t;
      LeadingZeros(s[..|s| - 1], t);
    }
  }

  lemma Pow16Less(m: nat, n: nat)
    requires m < n
    ensures 16 * Pow16(m) <= Pow16(n)
  {
    if m + 1 < n {
      Pow16Less(m, n - 1);
    }
  }

  // ---------------------------------------------------------------------- octets

  /** Two digits for each octet, the high one first. */
  function Hex(bytes: seq<Octet>): (s: string)
    ensures |s| == 2 * |bytes|
  {
    if bytes == [] then ""
    else
      var n := |bytes| - 1;
      Hex(bytes[..n]) + [HexChar(bytes[n] / 16), HexChar(bytes[n] % 16)]
  }

  /** Octets read as a number, the first one the most significant. */
  function Number(bytes: seq<Octet>): nat {
    if bytes == [] then 0 else 256 * Number(bytes[..|bytes| - 1]) + bytes[|bytes| - 1]
  }

  lemma {:induction false} HexValueOfHex(bytes: seq<Octet>)
    ensures HexValue(Hex(bytes)) == Number(bytes)
  {
    if bytes != [] {
      var n := |bytes| - 1;
      var s, hi, lo := Hex(bytes[..n]), HexChar(bytes[n] / 16), HexChar(bytes[n] % 16);
      HexValueOfHex(bytes[..n]);
      DigitOfHexChar(bytes[n] / 16);
      DigitOfHexChar(bytes[n] % 16);
      assert (s + [hi, lo])[..2 * n + 1] == s + [hi];
      assert (s + [hi])[..2 * n] == s;
      assert HexValue(s + [hi]) == 16 * HexValue(s) + bytes[n] / 16;
    }
  }

  lemma {:induction false} HexInjective(a: seq<Octet>, b: seq<Octet>)
    requires Hex(a) == Hex(b)
    ensures a == b
  {
    if a != [] {
      var n := |a| - 1;
      assert |a| == |b|;
      assert Hex(a)[..2 * n] == Hex(a[..n]) && Hex(b)[..2 * n] == Hex(b[..n]);
      HexInjective(a[..n], b[..n]);
      assert Hex(a)[2 * n] == HexChar(a[n] / 16) && Hex(b)[2 * n] == HexChar(b[n] / 16);
      assert Hex(a)[2 * n + 1] == HexChar(a[n] % 16) && Hex(b)[2 * n + 1] == HexChar(b[n] % 16);
      DigitOfHexChar(a[n] / 16);
      DigitOfHexChar(a[n] % 16);
      DigitOfHexChar(b[n] / 16);
      DigitOfHexChar(b[n] % 16);
    }
  }

  lemma {:induction false} HexAppend(a: seq<Octet>, b: seq<Octet>)
    ensures Hex(a + b) == Hex(a) + Hex(b)
    decreases |b|
  {
    if b == [] {
      assert a + b == a;
    } else {
      var n := |b| - 1;
      assert (a + b)[..|a + b| - 1] == a + b[..n];
      HexAppend(a, b[..n]);
    }
  }

  /** Octet i stands at places 2i and 2i + 1. */
  lemma {:induction false} HexPlaces(bytes: seq<Octet>, i: nat)
    requires i < |bytes|
    ensures Hex(bytes)[2 * i] == "0123456789abcdef"[bytes[i] / 16] && Hex(bytes)[2 * i + 1] == "0123456789abcdef"[bytes[i] % 16]
  {
    if i < |bytes| - 1 {
      HexPlaces(bytes[..|bytes| - 1], i);
    }
  }

  /** The first octet counts 256 times as much as the second, and so on. */
  lemma {:induction false} NumberPlaces(first: Octet, rest: seq<Octet>)
    ensures Number([first] + rest) == first * Pow16(2 * |rest|) + Number(rest)
  {
    if rest == [] {
      assert ([first] + rest)[..0] == [];
    } else {
      var n := |rest| - 1;
      assert ([first] + rest)[..n + 1] == [first] + rest[..n];
      NumberPlaces(first, rest[..n]);
      assert Pow16(2 * |rest|) == 16 * (16 * Pow16(2 * n));
    }
  }

  method BytesToString(bytes: seq<Octet>) returns (out: string)
    ensures out == Hex(bytes)
    ensures HexValue(out) == Number(bytes)
  {
    out := "";
    var i := 0;
    while i != |bytes|
      invariant 0 <= i <= |bytes| && out == Hex(bytes[..i])
      decreases |bytes| - i
    {
      assert bytes[..i + 1][..i] == bytes[..i];
      out := out + [HexChar(bytes[i] / 16)];
      out := out + [HexChar(bytes[i] % 16)];
      i := i + 1;
    }
    assert bytes[..i] == bytes;
    HexValueOfHex(bytes);
  }

  // -------------------------------------------------------------------- the padding

  const SHA256_PREFIX := "003031300d060960864801650304020105000420"

  /** The identifier of the hash function, section 9.2 of RFC 8017, note 1. */
  const DIGEST_INFO: seq<Octet> :=
    [0x30, 0x31, 0x30, 0x0d, 0x06, 0x09, 0x60, 0x86, 0x48, 0x01, 0x65, 0x03, 0x04, 0x02, 0x01, 0x05, 0x00, 0x04, 0x20]

  function Repeat(c: char, n: nat): (s: string)
    ensures |s| == n
  {
    seq(n, i requires 0 <= i < n => c)
  }

  datatype Result = Ok(value: string) | Err

  /** A string as long as the modulus less three digits. With a modulus too short for
    * hash and identifier the length wraps around and no string can be made. */
  method Encode(modulusLength: nat, messageHash: string) returns (r: Result)
    ensures r.Ok? <==> modulusLength >= |messageHash| + 43
    ensures r.Ok? ==> |r.value| == modulusLength - 3
    ensures modulusLength >= |messageHash| + 44 ==>
              r == Ok("1" + Repeat('f', modulusLength - |messageHash| - 44) + SHA256_PREFIX + messageHash)
  {
    var encoding := SHA256_PREFIX + messageHash;
    if modulusLength < |encoding| + 3 {
      return Err;
    }
    encoding := Repeat('f', modulusLength - |encoding| - 3) + encoding;
    encoding := encoding[0 := '1'];
    r := Ok(encoding);
  }

  function Filler(n: nat): (s: seq<Octet>)
    ensures |s| == n
  {
    seq(n, i requires 0 <= i < n => 0xff)
  }

  /** The encoded message of section 9.2 of RFC 8017 for a modulus of k octets; `sep`
    * is the zero octet before the identifier together with the identifier. */
  function Emsa(k: nat, sep: seq<Octet>, hash: seq<Octet>): (em: seq<Octet>)
    requires |sep| == 20 && |hash| == 32 && k >= 62
    ensures |em| == k && em[0] == 0 && em[1] == 1 && em[k - 52..k - 32] == sep && em[k - 32..] == hash
    ensures forall i :: 2 <= i < k - 52 ==> em[i] == 0xff
  {
    [0x00, 0x01] + Filler(k - 54) + sep + hash
  }

  const SEPARATOR: seq<Octet> := [0x00] + DIGEST_INFO

  lemma {:induction false} HexOfFiller(n: nat)
    ensures Hex(Filler(n)) == Repeat('f', 2 * n)
  {
    if n > 0 {
      HexOfFiller(n - 1);
      assert Filler(n)[..n - 1] == Filler(n - 1);
      assert Repeat('f', 2 * n) == Repeat('f', 2 * (n - 1)) + ['f', 'f'];
    }
  }

  lemma HexTwo(a: Octet, b: Octet)
    ensures Hex([a]) == [HexChar(a / 16), HexChar(a % 16)]
    ensures Hex([a, b]) == [HexChar(a / 16), HexChar(a % 16), HexChar(b / 16), HexChar(b % 16)]
  {
    assert [a, b][..1] == [a] && [a][..0] == [];
    assert Hex([a]) == Hex([]) + [HexChar(a / 16), HexChar(a % 16)];
  }

  lemma HexFive(a: Octet, b: Octet, c: Octet, d: Octet, e: Octet)
    ensures Hex([a, b, c, d, e]) ==
            [HexChar(a / 16), HexChar(a % 16), HexChar(b / 16), HexChar(b % 16), HexChar(c / 16), HexChar(c % 16),
             HexChar(d / 16), HexChar(d % 16), HexChar(e / 16), HexChar(e % 16)]
  {
    HexTwo(a, b);
    HexTwo(c, d);
    HexTwo(e, e);
    HexAppend([a, b], [c, d]);
    HexAppend([a, b, c, d], [e]);
    assert [a, b] + [c, d] == [a, b, c, d] && [a, b, c, d] + [e] == [a, b, c, d, e];
  }

  lemma Piece1()
    ensures Hex([0x00, 0x30, 0x31, 0x30, 0x0d]) == "003031300d"
  {
    HexFive(0x00, 0x30, 0x31, 0x30, 0x0d);
  }

  lemma Piece2()
    ensures Hex([0x06, 0x09, 0x60, 0x86, 0x48]) == "0609608648"
  {
    HexFive(0x06, 0x09, 0x60, 0x86, 0x48);
  }

  lemma Piece3()
    ensures Hex([0x01, 0x65, 0x03, 0x04, 0x02]) == "0165030402"
  {
    HexFive(0x01, 0x65, 0x03, 0x04, 0x02);
  }

  lemma Piece4()
    ensures Hex([0x01, 0x05, 0x00, 0x04, 0x20]) == "0105000420"
  {
    HexFive(0x01, 0x05, 0x00, 0x04, 0x20);
  }

  lemma HexOfFour(a: seq<Octet>, b: seq<Octet>, c: seq<Octet>, d: seq<Octet>)
    ensures Hex(a + b + c + d) == Hex(a) + Hex(b) + Hex(c) + Hex(d)
  {
    HexAppend(a, b);
    HexAppend(a + b, c);
    HexAppend(a + b + c, d);
  }

  /** The prefix is the separating zero octet and the hash identifier. */
  lemma PrefixIsInfo()
    ensures Hex([0x00] + DIGEST_INFO) == SHA256_PREFIX
  {
    Piece1();
    Piece2();
    Piece3();
    Piece4();
    HexOfFour([0x00, 0x30, 0x31, 0x30, 0x0d], [0x06, 0x09, 0x60, 0x86, 0x48], [0x01, 0x65, 0x03, 0x04, 0x02], [0x01, 0x05, 0x00, 0x04, 0x20]);
    InfoPieces();
  }

  lemma InfoPieces()
    ensures [0x00] + DIGEST_INFO == [0x00, 0x30, 0x31, 0x30, 0x0d] + [0x06, 0x09, 0x60, 0x86, 0x48] + [0x01, 0x65, 0x03, 0x04, 0x02] + [0x01, 0x05, 0x00, 0x04, 0x20]
    ensures SHA256_PREFIX == "003031300d" + "0609608648" + "0165030402" + "0105000420"
  {
  }

  lemma HexParts(em: seq<Octet>, a: seq<Octet>, b: seq<Octet>, c: seq<Octet>, d: seq<Octet>, s: string, t: string, u: string)
    requires em == a + b + c + d && Hex(a) == s && Hex(b) == t && Hex(c) == u
    ensures Hex(em) == s + t + u + Hex(d)
  {
    HexOfFour(a, b, c, d);
  }

  lemma StartHex()
    ensures Hex([0x00, 0x01]) == "0001"
  {
    HexTwo(0x00, 0x01);
  }

  lemma HexOfEmsa(k: nat, sep: seq<Octet>, prefix: string, hash: seq<Octet>)
    requires |sep| == 20 && Hex(sep) == prefix && |hash| == 32 && k >= 62
    ensures Hex(Emsa(k, sep, hash)) == "0001" + Repeat('f', 2 * k - 108) + prefix + Hex(hash)
  {
    StartHex();
    HexOfFiller(k - 54);
    HexParts(Emsa(k, sep, hash), [0x00, 0x01], Filler(k - 54), sep, hash, "0001", Repeat('f', 2 * (k - 54)), prefix);
  }

  lemma PaddedValue(modulusLength: nat, sep: seq<Octet>, prefix: string, hash: seq<Octet>, encoding: string)
    requires modulusLength % 2 == 0 && modulusLength >= 124 && |hash| == 32 && |sep| == 20 && Hex(sep) == prefix
    requires encoding == "1" + Repeat('f', modulusLength - 108) + prefix + Hex(hash)
    ensures HexValue(encoding) == Number(Emsa(modulusLength / 2, sep, hash))
  {
    var k := modulusLength / 2;
    HexOfEmsa(k, sep, prefix, hash);
    LeadingZeros("000", encoding);
    assert "000" + encoding == "0001" + Repeat('f', modulusLength - 108) + prefix + Hex(hash);
    HexValueOfHex(Emsa(k, sep, hash));
  }

  /** The padded string, read as a number, is the padded message. */
  lemma EncodeIsEmsa(modulusLength: nat, hash: seq<Octet>, encoding: string)
    requires modulusLength % 2 == 0 && modulusLength >= 124 && |hash| == 32
    requires encoding == "1" + Repeat('f', modulusLength - 108) + SHA256_PREFIX + Hex(hash)
    ensures HexValue(encoding) == Number(Emsa(modulusLength / 2, SEPARATOR, hash))
  {
    PrefixIsInfo();
    PaddedValue(modulusLength, SEPARATOR, SHA256_PREFIX, hash, encoding);
  }

  lemma {:induction false} NumberInjective(a: seq<Octet>, b: seq<Octet>)
    requires |a| == |b| && Number(a) == Number(b)
    ensures a == b
  {
    if a != [] {
      NumberInjective(a[..|a| - 1], b[..|b| - 1]);
    }
  }

  /** For a modulus with an odd number of digits the padding is one digit shorter than that
    * of the padded message, and so is the number. */
  lemma OddIsShorter(modulusLength: nat, hash: seq<Octet>, encoding: string)
    requires modulusLength % 2 == 1 && modulusLength >= 123 && |hash| == 32
    requires encoding == "1" + Repeat('f', modulusLength - 108) + SHA256_PREFIX + Hex(hash)
    ensures Hex(Emsa((modulusLength + 1) / 2, SEPARATOR, hash)) == "0001f" + encoding[1..]
    ensures HexValue(encoding) < Number(Emsa((modulusLength + 1) / 2, SEPARATOR, hash))
  {
    PrefixIsInfo();
    OddDigits(modulusLength, SEPARATOR, SHA256_PREFIX, hash, encoding);
  }

  lemma OddDigits(modulusLength: nat, sep: seq<Octet>, prefix: string, hash: seq<Octet>, encoding: string)
    requires modulusLength % 2 == 1 && modulusLength >= 123 && |hash| == 32 && |sep| == 20 && Hex(sep) == prefix
    requires encoding == "1" + Repeat('f', modulusLength - 108) + prefix + Hex(hash)
    ensures Hex(Emsa((modulusLength + 1) / 2, sep, hash)) == "0001f" + encoding[1..]
    ensures HexValue(encoding) < Number(Emsa((modulusLength + 1) / 2, sep, hash))
  {
    var k := (modulusLength + 1) / 2;
    HexOfEmsa(k, sep, prefix, hash);
    assert Repeat('f', 2 * k - 108) == "f" + Repeat('f', modulusLength - 108);
    assert encoding[1..] == Repeat('f', modulusLength - 108) + prefix + Hex(hash);
    var longer := "1f" + encoding[1..];
    assert "000" + longer == "0001f" + encoding[1..];
    LeadingZeros("000", longer);
    HexValueOfHex(Emsa(k, sep, hash));
    HexValueBound(encoding);
    HexValueAtLeast(longer);
  }

  lemma {:induction false} HexValueAppend(p: string, a: string)
    ensures HexValue(p + a) == HexValue(p) * Pow16(|a|) + HexValue(a)
    decreases |a|
  {
    if a == "" {
      assert p + a == p;
    } else {
      assert (p + a)[..|p + a| - 1] == p + a[..|a| - 1];
      HexValueAppend(p, a[..|a| - 1]);
      OneDigitMore(HexValue(p), Pow16(|a| - 1));
    }
  }

  lemma OneDigitMore(x: nat, p: nat)
    ensures 16 * (x * p) == x * (16 * p)
  {
  }

  /** Different hashes of one length give different numbers, for every modulus. */
  lemma EncodeInjective(modulusLength: nat, hash: seq<Octet>, hash': seq<Octet>)
    requires |hash| == |hash'| && modulusLength >= 2 * |hash| + 44
    requires var padding := "1" + Repeat('f', modulusLength - 2 * |hash| - 44) + SHA256_PREFIX;
             HexValue(padding + Hex(hash)) == HexValue(padding + Hex(hash'))
    ensures hash == hash'
  {
    var padding := "1" + Repeat('f', modulusLength - 2 * |hash| - 44) + SHA256_PREFIX;
    HexValueAppend(padding, Hex(hash));
    HexValueAppend(padding, Hex(hash'));
    HexValueOfHex(hash);
    HexValueOfHex(hash');
    NumberInjective(hash, hash');
  }

  /** The number is below every modulus the signer accepts. */
  lemma BelowModulus(encoding: string, modulus: string)
    requires |modulus| >= 3 && |encoding| == |modulus| - 3 && IsHex(modulus[0]) && modulus[0] != '0'
    ensures HexValue(encoding) < HexValue(modulus)
  {
    HexValueBound(encoding);
    HexValueAtLeast(modulus);
    Pow16Less(|modulus| - 3, |modulus| - 1);
  }
}
