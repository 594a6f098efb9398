/** UTF-8 generation in the JSON decoder, against the decoder of RFC 3629 section 3. */
module Utf8 {
  import opened Text

  predicate IsScalar(n: int) {
    0 <= n <= 0xD7FF || 0xE000 <= n <= 0x10FFFF
  }

  /** `codepoint_to_utf8`: None is the "invalid unicode codepoint" error. */
  function CodepointToUtf8(n: nat): Option<string> {
    if n <= 0x7F then
      Some([n as char])
    else if n <= 0x7FF then
      Some([(n / 64 + 192) as char, (n % 64 + 128) as char])
    else if n <= 0xFFFF then
      Some([(n / 4096 + 224) as char, (n % 4096 / 64 + 128) as char, (n % 64 + 128) as char])
    else if n <= 0x10FFFF then
      Some([(n / 262144 + 240) as char, (n % 262144 / 4096 + 128) as char,
            (n % 4096 / 64 + 128) as char, (n % 64 + 128) as char])
    else
      None
  }

  function Encode(n: int): string
    requires IsScalar(n)
  {
    CodepointToUtf8(n).value
  }

  predicate IsTail(c: char) {
    0x80 <= c as int <= 0xBF
  }

  /** The first UTF8-char production of RFC 3629 section 4 at the front of `s`:
      its scalar value and its length in octets. The ranges of the second octet
      exclude overlong forms and surrogates. */
  function DecodeOne(s: string): (r: Option<(int, nat)>)
    ensures r.Some? ==> 1 <= r.value.1 <= 4 && r.value.1 <= |s|
  {
    if s == "" then None
    else
      var a := s[0] as int;
      if a <= 0x7F then Some((a, 1))
      else if 0xC2 <= a <= 0xDF && |s| >= 2 && IsTail(s[1]) then
        Some(((a - 0xC0) * 0x40 + (s[1] as int - 0x80), 2))
      else if 0xE0 <= a <= 0xEF && |s| >= 3 && IsTail(s[1]) && IsTail(s[2])
           && (a == 0xE0 ==> s[1] as int >= 0xA0) && (a == 0xED ==> s[1] as int <= 0x9F) then
        Some(((a - 0xE0) * 0x1000 + (s[1] as int - 0x80) * 0x40 + (s[2] as int - 0x80), 3))
      else if 0xF0 <= a <= 0xF4 && |s| >= 4 && IsTail(s[1]) && IsTail(s[2]) && IsTail(s[3])
           && (a == 0xF0 ==> s[1] as int >= 0x90) && (a == 0xF4 ==> s[1] as int <= 0x8F) then
        Some(((a - 0xF0) * 0x40000 + (s[1] as int - 0x80) * 0x1000
              + (s[2] as int - 0x80) * 0x40 + (s[3] as int - 0x80), 4))
      else None
  }

  lemma Div64(q: nat, r: nat)
    requires r < 64
    ensures (q * 64 + r) / 64 == q && (q * 64 + r) % 64 == r
  {
  }

  lemma Div4096(q: nat, r: nat)
    requires r < 4096
    ensures (q * 4096 + r) / 4096 == q && (q * 4096 + r) % 4096 == r
  {
  }

  lemma Div262144(q: nat, r: nat)
    requires r < 262144
    ensures (q * 262144 + r) / 262144 == q && (q * 262144 + r) % 262144 == r
  {
  }

  /** The base-64 digits that the encoder computes are the digits. */
  lemma Digits64(a: nat, b: nat, c: nat, d: nat)
    requires b < 64 && c < 64 && d < 64
    ensures var n := a * 262144 + b * 4096 + c * 64 + d;
      && n % 64 == d && n % 4096 / 64 == c && n % 262144 / 4096 == b && n / 262144 == a
      && n / 4096 == a * 64 + b && n / 64 == (a * 64 + b) * 64 + c
  {
    Div64((a * 64 + b) * 64 + c, d);
    Div4096(a * 64 + b, c * 64 + d);
    Div64(c, d);
    Div262144(a, b * 4096 + c * 64 + d);
    Div4096(b, c * 64 + d);
  }

  lemma Split64(n: nat) returns (a: nat, b: nat, c: nat, d: nat)
    ensures b < 64 && c < 64 && d < 64 && n == a * 262144 + b * 4096 + c * 64 + d
  {
    var m, k := n / 64, n / 64 / 64;
    a, b, c, d := k / 64, k % 64, m % 64, n % 64;
  }

  /** The octets of a scalar value, by its base-64 digits. */
  lemma EncodeDigits(a: nat, b: nat, c: nat, d: nat)
    requires b < 64 && c < 64 && d < 64
    requires IsScalar(a * 262144 + b * 4096 + c * 64 + d)
    ensures var n := a * 262144 + b * 4096 + c * 64 + d;
      Encode(n) ==
        if n <= 0x7F then [(c * 64 + d) as char]
        else if n <= 0x7FF then [(c + 192) as char, (d + 128) as char]
        else if n <= 0xFFFF then [(b + 224) as char, (c + 128) as char, (d + 128) as char]
        else [(a + 240) as char, (b + 128) as char, (c + 128) as char, (d + 128) as char]
  {
    Digits64(a, b, c, d);
  }

  lemma DecodeTwo(s: string, c: nat, d: nat)
    requires |s| >= 2 && 2 <= c < 32 && d < 64
    requires s[0] == (c + 192) as char && s[1] == (d + 128) as char
    ensures DecodeOne(s) == Some((c * 64 + d, 2))
  {
  }

  lemma DecodeThree(s: string, b: nat, c: nat, d: nat)
    requires |s| >= 3 && b < 16 && c < 64 && d < 64
    requires b * 64 + c >= 32 && !(b == 13 && c >= 32)
    requires s[0] == (b + 224) as char && s[1] == (c + 128) as char && s[2] == (d + 128) as char
    ensures DecodeOne(s) == Some((b * 4096 + c * 64 + d, 3))
  {
  }

  lemma DecodeFour(s: string, a: nat, b: nat, c: nat, d: nat)
    requires |s| >= 4 && b < 64 && c < 64 && d < 64 && 16 <= a * 64 + b < 272
    requires s[0] == (a + 240) as char && s[1] == (b + 128) as char
    requires s[2] == (c + 128) as char && s[3] == (d + 128) as char
    ensures DecodeOne(s) == Some((a * 262144 + b * 4096 + c * 64 + d, 4))
  {
  }

  /** Every scalar value survives the round trip, whatever octets follow. */
  lemma DecodeOneInverse(n: int, rest: string)
    requires IsScalar(n)
    ensures DecodeOne(Encode(n) + rest) == Some((n, |Encode(n)|))
  {
    var a, b, c, d := Split64(n);
    EncodeDigits(a, b, c, d);
    hide Encode, CodepointToUtf8;
    var e, s := Encode(n), Encode(n) + rest;
    assert s[0] == e[0];
    if n > 0x7F {
      hide DecodeOne;
      assert s[1] == e[1];
      if n <= 0x7FF {
        assert a == 0 && b == 0 && e == [(c + 192) as char, (d + 128) as char];
        DecodeTwo(s, c, d);
      } else if n <= 0xFFFF {
        assert a == 0 && e == [(b + 224) as char, (c + 128) as char, (d + 128) as char];
        assert s[2] == e[2];
        DecodeThree(s, b, c, d);
      } else {
        assert s[2] == e[2] && s[3] == e[3];
        DecodeFour(s, a, b, c, d);
      }
    }
  }

  /** The other direction: whatever the RFC decoder reads is what the encoder writes. */
  lemma EncodeInverse(s: string)
    requires DecodeOne(s).Some?
    ensures IsScalar(DecodeOne(s).value.0)
    ensures Encode(DecodeOne(s).value.0) == s[..DecodeOne(s).value.1]
  {
    hide Encode, CodepointToUtf8;
    var (n, k) := DecodeOne(s).value;
    if k == 1 {
      EncodeDigits(0, 0, n / 64, n % 64);
    } else if k == 2 {
      EncodeDigits(0, 0, s[0] as int - 192, s[1] as int - 128);
    } else if k == 3 {
      EncodeDigits(0, s[0] as int - 224, s[1] as int - 128, s[2] as int - 128);
    } else {
      EncodeDigits(s[0] as int - 240, s[1] as int - 128, s[2] as int - 128, s[3] as int - 128);
    }
  }

  /** The octets of every code point by the table of RFC 3629 section 3, surrogates included: the lead octet and
      the six-bit tails, which add up to the number. Beyond 0x10FFFF there are none. */
  lemma Octets(n: nat)
    ensures CodepointToUtf8(n).Some? <==> n <= 0x10FFFF
    ensures n <= 0x10FFFF ==>
      var o := CodepointToUtf8(n).value;
      && |o| == (if n <= 0x7F then 1 else if n <= 0x7FF then 2 else if n <= 0xFFFF then 3 else 4)
      && (|o| == 1 ==> o[0] as int == n)
      && (|o| == 2 ==> n == (o[0] as int - 0xC0) * 0x40 + (o[1] as int - 0x80))
      && (|o| == 3 ==> n == (o[0] as int - 0xE0) * 0x1000 + (o[1] as int - 0x80) * 0x40 + (o[2] as int - 0x80))
      && (|o| == 4 ==> n == (o[0] as int - 0xF0) * 0x40000 + (o[1] as int - 0x80) * 0x1000
                            + (o[2] as int - 0x80) * 0x40 + (o[3] as int - 0x80))
      && forall k :: 1 <= k < |o| ==> 0x80 <= o[k] as int <= 0xBF
  {
    if n <= 0x10FFFF {
      var a, b, c, d := Split64(n);
      Digits64(a, b, c, d);
    }
  }

  /** No encoding is a prefix of another one; in particular the encoding is injective. */
  lemma PrefixFree(m: int, n: int)
    requires IsScalar(m) && IsScalar(n)
    requires Encode(m) <= Encode(n)
    ensures m == n
  {
    var rest := Encode(n)[|Encode(m)|..];
    assert Encode(m) + rest == Encode(n) == Encode(n) + "";
    DecodeOneInverse(m, rest);
    DecodeOneInverse(n, "");
  }

  function EncodeAll(ns: seq<int>): string
    requires forall n :: n in ns ==> IsScalar(n)
  {
    if ns == [] then "" else Encode(ns[0]) + EncodeAll(ns[1..])
  }

  /** Greedy decoding by RFC 3629; None when some octet starts no UTF8-char. */
  function DecodeAll(s: string): Option<seq<int>> {
    if s == "" then Some([])
    else
      match DecodeOne(s)
      case None => None
      case Some((n, k)) =>
        match DecodeAll(s[k..])
        case None => None
        case Some(ns) => Some([n] + ns)
  }

  /** A concatenation of encodings decodes to exactly the original sequence. */
  lemma {:induction false} DecodeAllInverse(ns: seq<int>)
    requires forall n :: n in ns ==> IsScalar(n)
    ensures DecodeAll(EncodeAll(ns)) == Some(ns)
  {
    if ns != [] {
      var rest := EncodeAll(ns[1..]);
      DecodeOneInverse(ns[0], rest);
      assert (Encode(ns[0]) + rest)[|Encode(ns[0])|..] == rest;
      DecodeAllInverse(ns[1..]);
      assert ns == [ns[0]] + ns[1..];
    }
  }

  /** ... and every octet string the RFC decoder accepts is such a concatenation. */
  lemma {:induction false} EncodeAllInverse(s: string)
    requires DecodeAll(s).Some?
    ensures forall n :: n in DecodeAll(s).value ==> IsScalar(n)
    ensures EncodeAll(DecodeAll(s).value) == s
  {
    hide DecodeOne, Encode;
    if s != "" {
      var (n, k) := DecodeOne(s).value;
      EncodeInverse(s);
      EncodeAllInverse(s[k..]);
      var ns := DecodeAll(s[k..]).value;
      assert DecodeAll(s).value == [n] + ns;
      assert ([n] + ns)[1..] == ns;
      assert s == s[..k] + s[k..];
    }
  }
}
