/** Base64 (RFC 4648 section 4), which stands for OpenSSL's Base64 BIO, and the length arithmetic of
    libbacteria/encdec/verify/base64.c. A byte is a character below 256. */
module Base64 {
  import opened Text
  import Utf8

  ghost predicate IsBytes(b: string) {
    forall k :: 0 <= k < |b| ==> b[k] as int < 256
  }

  function Digit64(v: int): (c: char)
    requires 0 <= v < 64
    ensures c != '='
  {
    if v < 26 then ('A' as int + v) as char
    else if v < 52 then ('a' as int + (v - 26)) as char
    else if v < 62 then ('0' as int + (v - 52)) as char
    else if v == 62 then '+'
    else '/'
  }

  predicate IsDigit64(c: char) {
    'A' <= c <= 'Z' || 'a' <= c <= 'z' || '0' <= c <= '9' || c == '+' || c == '/'
  }

  function Value64(c: char): (v: int)
    requires IsDigit64(c)
    ensures 0 <= v < 64
  {
    if 'A' <= c <= 'Z' then c as int - 'A' as int
    else if 'a' <= c <= 'z' then c as int - 'a' as int + 26
    else if '0' <= c <= '9' then c as int - '0' as int + 52
    else if c == '+' then 62
    else 63
  }

  lemma Value64Inverse(v: int)
    requires 0 <= v < 64
    ensures IsDigit64(Digit64(v)) && Value64(Digit64(v)) == v
  {
  }

  /** The text of a final group of one or two bytes, or of a full group. */
  function EncodeGroup(b: string): string
    requires 1 <= |b| <= 3 && IsBytes(b)
  {
    var x := b[0] as int;
    if |b| == 1 then [Digit64(x / 4), Digit64(x % 4 * 16), '=', '=']
    else
      var y := b[1] as int;
      if |b| == 2 then [Digit64(x / 4), Digit64(x % 4 * 16 + y / 16), Digit64(y % 16 * 4), '=']
      else
        var z := b[2] as int;
        [Digit64(x / 4), Digit64(x % 4 * 16 + y / 16), Digit64(y % 16 * 4 + z / 64), Digit64(z % 64)]
  }

  function Encode(b: string): string
    requires IsBytes(b)
  {
    if b == "" then ""
    else if |b| <= 3 then EncodeGroup(b)
    else EncodeGroup(b[..3]) + Encode(b[3..])
  }

  /** Four characters back to bytes; padding is allowed in the last group only. */
  function DecodeGroup(q: string, last: bool): (r: Option<string>)
    requires |q| == 4
    ensures r.Some? ==> |r.value| <= 3
  {
    if !IsDigit64(q[0]) || !IsDigit64(q[1]) then None
    else
      var a, b := Value64(q[0]), Value64(q[1]);
      var x := (a * 4 + b / 16) as char;
      if q[2] == '=' && q[3] == '=' then if last then Some([x]) else None
      else if !IsDigit64(q[2]) then None
      else
        var c := Value64(q[2]);
        var y := (b % 16 * 16 + c / 4) as char;
        if q[3] == '=' then if last then Some([x, y]) else None
        else if !IsDigit64(q[3]) then None
        else Some([x, y, (c % 4 * 64 + Value64(q[3])) as char])
  }

  function Decode(t: string): Option<string> {
    if t == "" then Some("")
    else if |t| < 4 then None
    else
      match DecodeGroup(t[..4], |t| == 4)
      case None => None
      case Some(b) =>
        match Decode(t[4..])
        case None => None
        case Some(rest) => Some(b + rest)
  }

  lemma DivMod4(x: int)
    requires 0 <= x < 256
    ensures 0 <= x / 4 < 64 && 0 <= x % 4 * 16 < 64 && x / 4 * 4 + x % 4 * 16 / 16 == x
  {
  }

  lemma DivMod16(q: int, y: int)
    requires 0 <= q < 4 && 0 <= y < 256
    ensures 0 <= q * 16 + y / 16 < 64 && (q * 16 + y / 16) / 16 == q && (q * 16 + y / 16) % 16 == y / 16
    ensures 0 <= y % 16 * 4 < 64 && y / 16 * 16 + y % 16 * 4 / 4 == y
  {
  }

  lemma DivMod64(q: int, z: int)
    requires 0 <= q < 16 && 0 <= z < 256
    ensures 0 <= q * 4 + z / 64 < 64 && (q * 4 + z / 64) / 4 == q && (q * 4 + z / 64) % 4 == z / 64
    ensures 0 <= z % 64 < 64 && z / 64 * 64 + z % 64 == z
  {
  }

  lemma OneByte(b: string)
    requires |b| == 1 && IsBytes(b)
    ensures |EncodeGroup(b)| == 4 && DecodeGroup(EncodeGroup(b), true) == Some(b)
  {
    var x := b[0] as int;
    DivMod4(x);
    Value64Inverse(x / 4);
    Value64Inverse(x % 4 * 16);
    hide Digit64, Value64, IsDigit64;
    assert b == [b[0]];
  }

  lemma TwoBytes(b: string)
    requires |b| == 2 && IsBytes(b)
    ensures |EncodeGroup(b)| == 4 && DecodeGroup(EncodeGroup(b), true) == Some(b)
  {
    var x, y := b[0] as int, b[1] as int;
    DivMod4(x);
    DivMod16(x % 4, y);
    Value64Inverse(x / 4);
    Value64Inverse(x % 4 * 16 + y / 16);
    Value64Inverse(y % 16 * 4);
    hide Digit64, Value64, IsDigit64;
    assert b == [b[0], b[1]];
  }

  lemma ThreeBytes(b: string, last: bool)
    requires |b| == 3 && IsBytes(b)
    ensures |EncodeGroup(b)| == 4 && DecodeGroup(EncodeGroup(b), last) == Some(b)
  {
    var x, y, z := b[0] as int, b[1] as int, b[2] as int;
    DivMod4(x);
    DivMod16(x % 4, y);
    DivMod64(y % 16, z);
    Value64Inverse(x / 4);
    Value64Inverse(x % 4 * 16 + y / 16);
    Value64Inverse(y % 16 * 4 + z / 64);
    Value64Inverse(z % 64);
    hide Digit64, Value64, IsDigit64;
    assert x / 4 * 4 + (x % 4 * 16 + y / 16) / 16 == x;
    assert (x % 4 * 16 + y / 16) % 16 * 16 + (y % 16 * 4 + z / 64) / 4 == y;
    assert (y % 16 * 4 + z / 64) % 4 * 64 + z % 64 == z;
    assert b == [b[0], b[1], b[2]];
  }

  lemma GroupInverse(b: string, last: bool)
    requires 1 <= |b| <= 3 && IsBytes(b) && (|b| == 3 || last)
    ensures |EncodeGroup(b)| == 4 && DecodeGroup(EncodeGroup(b), last) == Some(b)
  {
    hide EncodeGroup, DecodeGroup;
    if |b| == 1 {
      OneByte(b);
    } else if |b| == 2 {
      TwoBytes(b);
    } else {
      ThreeBytes(b, last);
    }
  }

  /** Decoding undoes encoding for every byte string. */
  lemma {:induction false} DecodeInverse(b: string)
    requires IsBytes(b)
    ensures Decode(Encode(b)) == Some(b)
    decreases |b|
  {
    hide EncodeGroup, DecodeGroup;
    if b == "" {
    } else if |b| <= 3 {
      GroupInverse(b, true);
      var t := Encode(b);
      assert t[..4] == t && t[4..] == "";
      assert b + "" == b;
    } else {
      var g, rest := EncodeGroup(b[..3]), Encode(b[3..]);
      GroupInverse(b[..3], false);
      DecodeInverse(b[3..]);
      assert rest != "" by { EncodeNonEmpty(b[3..]); }
      assert (g + rest)[..4] == g && (g + rest)[4..] == rest;
      assert b == b[..3] + b[3..];
    }
  }

  lemma EncodeNonEmpty(b: string)
    requires b != "" && IsBytes(b)
    ensures |Encode(b)| >= 4
  {
    if |b| <= 3 {
      GroupInverse(b, true);
    } else {
      GroupInverse(b[..3], false);
    }
  }

  // --- The alphabet ----------------------------------------------------------

  /** The digits by their letters (table 1 of RFC 4648). */
  lemma DigitLetter(v: int)
    requires 0 <= v < 64
    ensures Digit64(v) ==
      if v < 26 then "ABCDEFGHIJKLMNOPQRSTUVWXYZ"[v]
      else if v < 52 then "abcdefghijklmnopqrstuvwxyz"[v - 26]
      else "0123456789+/"[v - 52]
  {
    Letters(if v < 26 then v else if v < 52 then v - 26 else 0);
  }

  lemma Letters(k: int)
    requires 0 <= k < 26
    ensures "ABCDEFGHIJKLMNOPQRSTUVWXYZ"[k] as int == 65 + k && "abcdefghijklmnopqrstuvwxyz"[k] as int == 97 + k
  {
    if k < 13 {
      assert k == 0 || k == 1 || k == 2 || k == 3 || k == 4 || k == 5 || k == 6 || k == 7 || k == 8 || k == 9
        || k == 10 || k == 11 || k == 12;
    } else {
      assert k == 13 || k == 14 || k == 15 || k == 16 || k == 17 || k == 18 || k == 19 || k == 20 || k == 21
        || k == 22 || k == 23 || k == 24 || k == 25;
    }
  }

  lemma GroupDigits(x: int, y: int, z: int)
    requires 0 <= x < 256 && 0 <= y < 256 && 0 <= z < 256
    ensures var n := x * 65536 + y * 256 + z;
      && n / 262144 == x / 4 && n % 262144 / 4096 == x % 4 * 16 + y / 16
      && n % 4096 / 64 == y % 16 * 4 + z / 64 && n % 64 == z % 64
  {
    DivMod4(x);
    DivMod16(x % 4, y);
    DivMod64(y % 16, z);
    var d0, d1, d2, d3 := x / 4, x % 4 * 16 + y / 16, y % 16 * 4 + z / 64, z % 64;
    assert x == d0 * 4 + x % 4 && y == y / 16 * 16 + y % 16 && z == z / 64 * 64 + d3;
    assert x * 65536 + y * 256 + z == d0 * 262144 + d1 * 4096 + d2 * 64 + d3;
    Utf8.Digits64(d0, d1, d2, d3);
  }

  /** The four digits of a number below 2^24, the highest first. */
  function FourDigits(n: int): string
    requires 0 <= n < 0x100_0000
  {
    [Digit64(n / 262144), Digit64(n % 262144 / 4096), Digit64(n % 4096 / 64), Digit64(n % 64)]
  }

  lemma FourDigitsOf(x: int, y: int, z: int)
    requires 0 <= x < 256 && 0 <= y < 256 && 0 <= z < 256
    ensures FourDigits(x * 65536 + y * 256 + z)
         == [Digit64(x / 4), Digit64(x % 4 * 16 + y / 16), Digit64(y % 16 * 4 + z / 64), Digit64(z % 64)]
  {
    GroupDigits(x, y, z);
    hide Digit64;
  }

  lemma GroupText(b: string, x: int, y: int, z: int)
    requires 1 <= |b| <= 3 && IsBytes(b)
    requires x == b[0] as int && y == (if |b| >= 2 then b[1] as int else 0) && z == if |b| == 3 then b[2] as int else 0
    ensures var digits := FourDigits(x * 65536 + y * 256 + z);
      EncodeGroup(b) == [digits[0], digits[1], if |b| == 1 then '=' else digits[2], if |b| < 3 then '=' else digits[3]]
  {
    FourDigitsOf(x, y, z);
    hide Digit64, FourDigits;
    var digits := FourDigits(x * 65536 + y * 256 + z);
    assert digits[0] == Digit64(x / 4) && digits[1] == Digit64(x % 4 * 16 + y / 16);
    assert digits[2] == Digit64(y % 16 * 4 + z / 64) && digits[3] == Digit64(z % 64);
  }

  /** Three bytes are one number, written in its four digits of base 64. */
  lemma FullGroup(b: string, x: int, y: int, z: int)
    requires |b| >= 3 && IsBytes(b) && x == b[0] as int && y == b[1] as int && z == b[2] as int
    ensures Encode(b) == FourDigits(x * 65536 + y * 256 + z) + Encode(b[3..])
  {
    EncodeStep(b);
    hide EncodeGroup, FourDigits, Encode, Digit64;
    GroupText(b[..3], x, y, z);
  }

  lemma EncodeStep(b: string)
    requires |b| >= 3 && IsBytes(b)
    ensures Encode(b) == EncodeGroup(b[..3]) + Encode(b[3..])
  {
    hide EncodeGroup;
    if |b| == 3 {
      assert b[..3] == b && b[3..] == "";
      assert EncodeGroup(b) + "" == EncodeGroup(b);
    }
  }

  /** A rest of one or two bytes is written like a full group that ends in zeros, with equals signs for the digits
      that only zeros make. */
  lemma LastGroup(b: string, x: int, y: int)
    requires 1 <= |b| <= 2 && IsBytes(b) && x == b[0] as int && y == if |b| == 2 then b[1] as int else 0
    ensures var digits := FourDigits(x * 65536 + y * 256);
      Encode(b) == [digits[0], digits[1], if |b| == 1 then '=' else digits[2], '=']
  {
    hide EncodeGroup, FourDigits, Digit64;
    GroupText(b, x, y, 0);
    assert x * 65536 + y * 256 + 0 == x * 65536 + y * 256;
  }

  // --- Lengths ---------------------------------------------------------------

  const SIZE_MAX1: int := 0x1_0000_0000_0000_0000
  const INT_MAX1: int := 0x8000_0000

  /** Conversion to `size_t`. */
  function ToSize(n: int): int {
    n % SIZE_MAX1
  }

  /** Conversion to a 32-bit `int`. */
  function ToInt(n: int): int {
    if n % (2 * INT_MAX1) < INT_MAX1 then n % (2 * INT_MAX1) else n % (2 * INT_MAX1) - 2 * INT_MAX1
  }

  /** The conversions by their numbers: the value modulo 2^64 or 2^32, and its range. */
  lemma Conversions(n: int)
    ensures 0 <= ToSize(n) < 18446744073709551616
    ensures n == ToSize(n) + n / 18446744073709551616 * 18446744073709551616
    ensures -2147483648 <= ToInt(n) < 2147483648
    ensures ToInt(n) in {n % 4294967296, n % 4294967296 - 4294967296}
  {
    assert n == n % 18446744073709551616 + n / 18446744073709551616 * 18446744073709551616;
  }

  /** The reads of `calcDecodeLength` at the end of the text stay inside it. */
  predicate ReadsInside(t: string) {
    t != "" && (t[|t| - 1] == '=' ==> |t| >= 2)
  }

  function Padding(t: string): int
    requires ReadsInside(t)
  {
    if t[|t| - 1] == '=' && t[|t| - 2] == '=' then 2 else if t[|t| - 1] == '=' then 1 else 0
  }

  /** `calcDecodeLength` in `size_t` arithmetic. */
  function CalcDecodeLength(t: string): int
    requires ReadsInside(t)
  {
    ToSize(ToSize(|t| * 3) / 4 - Padding(t))
  }

  lemma {:induction false} DecodedLength(t: string)
    requires Decode(t).Some? && t != ""
    ensures |t| % 4 == 0 && |t| >= 4
    ensures 4 * |Decode(t).value| == 3 * |t| - 4 * Padding(t)
    decreases |t|
  {
    hide Decode, DecodeGroup, Padding;
    DecodeStep(t);
    PaddingStep(t);
    GroupLength(t[..4], |t| == 4);
    if |t| > 4 {
      DecodedLength(t[4..]);
    }
  }

  lemma DecodeStep(t: string)
    requires Decode(t).Some? && t != ""
    ensures |t| >= 4 && DecodeGroup(t[..4], |t| == 4).Some? && Decode(t[4..]).Some?
    ensures |Decode(t).value| == |DecodeGroup(t[..4], |t| == 4).value| + |Decode(t[4..]).value|
    ensures |t| == 4 ==> |Decode(t[4..]).value| == 0
  {
    hide DecodeGroup;
  }

  lemma PaddingStep(t: string)
    requires |t| >= 4
    ensures |t| == 4 ==> Padding(t) == Padding(t[..4])
    ensures |t| > 5 ==> Padding(t) == Padding(t[4..])
  {
  }

  lemma GroupLength(q: string, last: bool)
    requires |q| == 4 && DecodeGroup(q, last).Some?
    ensures |DecodeGroup(q, last).value| == 3 - Padding(q)
    ensures !last ==> |DecodeGroup(q, last).value| == 3
  {
  }

  /** The length computation reads in front of exactly two texts. */
  lemma ReadsInsideExactly(t: string)
    ensures ReadsInside(t) <==> t != "" && t != "="
  {
  }

  lemma Computed(g: nat, padding: int)
    requires 0 <= padding <= 2 && g > 0 && 4 * g < SIZE_MAX1
    ensures var n := g * 3 - padding;
      ToSize(ToSize(4 * g * 3) / 4 - padding) == n <==> 4 * g * 3 < SIZE_MAX1
  {
    var x := 4 * g * 3;
    var q := x / SIZE_MAX1;
    assert 0 <= q <= 2;
    assert ToSize(x) == x - SIZE_MAX1 * q;
    assert ToSize(x) / 4 == 3 * g - SIZE_MAX1 / 4 * q;
  }

  /** The computed length is the length of the decoded bytes exactly if three times the text length fits
      into `size_t`. */
  lemma LengthExact(t: string)
    requires Decode(t).Some? && t != "" && |t| < SIZE_MAX1
    ensures ReadsInside(t)
    ensures CalcDecodeLength(t) == |Decode(t).value| <==> |t| * 3 < SIZE_MAX1
  {
    DecodedLength(t);
    hide Decode, Padding;
    assert 0 <= Padding(t) <= 2 by { PaddingRange(t); }
    Computed(|t| / 4, Padding(t));
    assert 4 * (|t| / 4) == |t|;
  }

  lemma PaddingRange(t: string)
    requires ReadsInside(t)
    ensures 0 <= Padding(t) <= 2
  {
  }

  /** ... in particular for the encoding of any nonempty byte string, in all three residue classes. */
  lemma EncodedLengthExact(b: string)
    requires IsBytes(b) && b != "" && |Encode(b)| * 3 < SIZE_MAX1
    ensures ReadsInside(Encode(b)) && CalcDecodeLength(Encode(b)) == |b|
  {
    DecodeInverse(b);
    EncodeNonEmpty(b);
    LengthExact(Encode(b));
  }

  // --- Base64Decode ----------------------------------------------------------

  /** What `BIO_read` delivers of the decoded bytes: at most as many as requested, nothing for a request that is
      not positive. */
  function BioRead(bytes: string, request: int): string {
    if request <= 0 then "" else if request < |bytes| then bytes[..request] else bytes
  }

  /** The bytes that `Base64Decode` gets: the request is the length of the text, converted to `int`. */
  function Received(t: string): string
    requires Decode(t).Some?
  {
    BioRead(Decode(t).value, ToInt(|t|))
  }

  /** The assertion of `Base64Decode`: the number of bytes, as `size_t`, against the computed length, which went
      through `int`. */
  predicate AssertionHolds(t: string)
    requires Decode(t).Some? && ReadsInside(t)
  {
    ToSize(|Received(t)|) == ToSize(ToInt(CalcDecodeLength(t)))
  }

  lemma ToIntExact(n: int)
    requires 0 <= n
    ensures ToInt(n) == n <==> n < INT_MAX1
    ensures ToInt(n) < INT_MAX1
    ensures n < 2 * INT_MAX1 && n >= INT_MAX1 ==> ToInt(n) == n - 2 * INT_MAX1
  {
  }

  lemma ToSizeExact(a: int, b: int)
    requires 0 <= a < INT_MAX1 && -INT_MAX1 <= b < INT_MAX1
    ensures ToSize(a) == a && (ToSize(b) == a <==> a == b)
  {
  }

  /** The variable `decodeLen` holds the length of the decoded bytes exactly if that is below 2^31; for texts shorter
      than 2^32 it is negative otherwise, and the buffer cannot be allocated. */
  lemma DecodeLenExactly(t: string)
    requires Decode(t).Some? && t != "" && |t| * 3 < SIZE_MAX1
    ensures ReadsInside(t)
    ensures ToInt(CalcDecodeLength(t)) == |Decode(t).value| <==> |Decode(t).value| < INT_MAX1
    ensures |t| < 2 * INT_MAX1 ==> (ToInt(CalcDecodeLength(t)) < 0 <==> |Decode(t).value| >= INT_MAX1)
  {
    LengthExact(t);
    ReceivedExactly(t);
    hide Decode, ReadsInside, CalcDecodeLength, ToInt;
    ToIntExact(|Decode(t).value|);
  }

  /** All bytes arrive exactly if the text is shorter than 2^31; up to 2^32 none do otherwise. */
  lemma ReceivedExactly(t: string)
    requires Decode(t).Some? && t != ""
    ensures Received(t) == Decode(t).value <==> |t| < INT_MAX1
    ensures INT_MAX1 <= |t| < 2 * INT_MAX1 ==> Received(t) == ""
    ensures |Received(t)| < INT_MAX1
    ensures |t| < INT_MAX1 ==> |Decode(t).value| < INT_MAX1
    ensures 0 < |Decode(t).value| < |t|
  {
    DecodedLength(t);
    PaddingRange(t);
    hide Decode, Padding, ReadsInside, ToInt;
    ToIntExact(|t|);
  }

  /** `Base64Decode` gets all bytes of a text that decodes, and its assertion holds, exactly if the text is shorter
      than 2^31; between that and 2^32 the assertion is false, where it is reached at all. */
  lemma AssertionExactly(t: string)
    requires Decode(t).Some? && t != "" && |t| * 3 < SIZE_MAX1
    ensures ReadsInside(t)
    ensures Received(t) == Decode(t).value && AssertionHolds(t) <==> |t| < INT_MAX1
    ensures |t| < 2 * INT_MAX1 ==> (AssertionHolds(t) <==> |t| < INT_MAX1)
  {
    LengthExact(t);
    ReceivedExactly(t);
    hide Decode, ReadsInside, CalcDecodeLength, ToInt, ToSize, Received;
    var n := |Decode(t).value|;
    ToIntExact(n);
    if |t| < 2 * INT_MAX1 {
      ToSizeExact(|Received(t)|, ToInt(n));
    }
  }

  lemma {:induction false} ZerosDecode(n: nat)
    ensures Decode(seq(4 * n, _ => 'A')).Some?
  {
    assert DecodeGroup("AAAA", n == 1).Some?;
    hide DecodeGroup;
    var t := seq(4 * n, _ => 'A');
    if n > 0 {
      ZerosDecode(n - 1);
      assert t[4..] == seq(4 * (n - 1), _ => 'A');
      assert t[..4] == "AAAA";
    }
  }

  /** A text of 2 GiB decodes, its buffer can be allocated and closed, and then the assertion fails. */
  lemma LongTextFails()
    ensures var t := seq(0x8000_0000, _ => 'A');
      && Decode(t).Some? && ReadsInside(t)
      && 0 <= ToInt(CalcDecodeLength(t)) < INT_MAX1 - 1
      && !AssertionHolds(t)
  {
    var t := seq(4 * 0x2000_0000, _ => 'A');
    assert 4 * 0x2000_0000 == 0x8000_0000 && t[|t| - 1] == 'A';
    ZerosDecode(0x2000_0000);
    DecodedLength(t);
    hide Decode, ReadsInside, AssertionHolds, CalcDecodeLength, ToInt;
    AssertionExactly(t);
    DecodeLenExactly(t);
  }

  /** `Base64Decode` on a text that decodes. */
  method Base64Decode(message: string) returns (buffer: string, length: int)
    requires message != "" && |message| < INT_MAX1 && Decode(message).Some?
    ensures Some(buffer) == Decode(message) && length == |buffer|
    ensures ReadsInside(message) && length == CalcDecodeLength(message)
  {
    LengthExact(message);
    ReceivedExactly(message);
    hide Decode, ReadsInside, CalcDecodeLength, ToInt, ToSize, BioRead;
    ToIntExact(|Decode(message).value|);
    ToSizeExact(|Decode(message).value|, |Decode(message).value|);
    var decodeLen := ToInt(CalcDecodeLength(message));
    buffer := BioRead(Decode(message).value, ToInt(|message|));
    length := ToSize(|buffer|);
    assert length == ToSize(decodeLen);
  }
}
