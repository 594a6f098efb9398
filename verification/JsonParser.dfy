/** `json.decode` and its helpers as functions. Positions count from 0, so Lua's `#str + 1` is `|s|`.
    `decode_error` is the `Err` result; its line and column are not modelled. */
module JsonParser {
  import opened Text
  import opened JsonValue
  import opened JsonSyntax
  import Utf8

  datatype Error =
    | ControlCharacter
    | InvalidUnicodeEscape
    | InvalidCodepoint
    | InvalidEscape
    | ExpectedClosingQuote
    | InvalidNumber
    | InvalidLiteral
    | ExpectedBracketOrComma
    | ExpectedKey
    | ExpectedColon
    | ExpectedBraceOrComma
    | UnexpectedCharacter
    | TrailingGarbage

  /** A parsed value with the position after it. */
  datatype Parsed<+T> = Ok(value: T, next: nat) | Err(error: Error)

  /** The two character sets `next_char` is called with. */
  datatype CharSet = SpaceChars | DelimiterChars {
    predicate Has(c: char) {
      match this
      case SpaceChars => IsSpaceChar(c)
      case DelimiterChars => IsDelimiter(c)
    }
  }

  /** The first position from `i` on whose character's membership in `chars` differs from `negate`. */
  function NextChar(s: string, i: nat, chars: CharSet, negate: bool): (r: nat)
    requires i <= |s|
    ensures i <= r <= |s|
    decreases |s| - i
  {
    if i == |s| || chars.Has(s[i]) != negate then i else NextChar(s, i + 1, chars, negate)
  }

  /** `next_char` returns the least position with the wanted character, or the end. */
  lemma {:induction false} NextCharLeast(s: string, i: nat, chars: CharSet, negate: bool, r: nat)
    requires i <= r <= |s|
    ensures r == NextChar(s, i, chars, negate) <==>
      && (forall k :: i <= k < r ==> chars.Has(s[k]) == negate)
      && (r < |s| ==> chars.Has(s[r]) != negate)
    decreases |s| - i
  {
    if i < |s| && chars.Has(s[i]) == negate && i < r {
      NextCharLeast(s, i + 1, chars, negate, r);
    }
  }

  function SkipSpace(s: string, i: nat): (r: nat)
    requires i <= |s|
    ensures i <= r <= |s|
  {
    NextChar(s, i, SpaceChars, true)
  }

  /** The classes `[dD][89aAbB]` that open the surrogate pattern. */
  predicate LooksHigh(c: char, d: char) {
    (c == 'd' || c == 'D') && (d == '8' || d == '9' || d == 'a' || d == 'A' || d == 'b' || d == 'B')
  }

  lemma HexDigitShape(c: char)
    requires IsHexDigit(c)
    ensures HexDigitValue(c) == 13 <==> c == 'd' || c == 'D'
    ensures 8 <= HexDigitValue(c) <= 11 <==>
      c == '8' || c == '9' || c == 'a' || c == 'A' || c == 'b' || c == 'B'
  {
  }

  lemma HighHexShape(h: string)
    requires IsHex4(h)
    ensures IsHighHex(h) <==> LooksHigh(h[0], h[1])
  {
    HexDigitShape(h[0]);
    HexDigitShape(h[1]);
    hide HexDigitValue;
    var a, b, rest := HexDigitValue(h[0]), HexDigitValue(h[1]), HexDigitValue(h[2]) * 16 + HexDigitValue(h[3]);
    assert Hex4Value(h) == a * 0x1000 + b * 0x100 + rest && rest < 0x100;
  }

  /** The length of the text matched after `\u`: a surrogate-shaped pair is tried first. */
  function HexLength(s: string, i: nat): (n: nat)
    requires i <= |s|
    ensures (n == 0 || n == 4 || n == 10) && i + n <= |s|
  {
    if i + 10 <= |s| && LooksHigh(s[i], s[i + 1]) && IsHexDigit(s[i + 2]) && IsHexDigit(s[i + 3]) && s[i + 4] == '\\' && s[i + 5] == 'u'
       && IsHex4(s[i + 6..i + 10]) then 10
    else if i + 4 <= |s| && IsHex4(s[i..i + 4]) then 4
    else 0
  }

  predicate IsHexMatch(h: string) {
    || IsHex4(h)
    || (|h| == 10 && IsHighHex(h[..4]) && h[4] == '\\' && h[5] == 'u' && IsHex4(h[6..10]))
  }

  /** `parse_unicode_escape`; None is the "invalid unicode codepoint" error. */
  function ParseUnicodeEscape(h: string): Option<string>
    requires IsHexMatch(h)
  {
    var n1 := Hex4Value(h[..4]);
    if |h| == 10 then
      var n2 := Hex4Value(h[6..10]);
      Utf8.CodepointToUtf8((n1 - 0xD800) * 0x400 + (n2 - 0xDC00) + 0x10000)
    else
      Utf8.CodepointToUtf8(n1)
  }

  lemma HexLengthMatches(s: string, i: nat)
    requires i <= |s|
    ensures var n := HexLength(s, i); n > 0 ==> IsHexMatch(s[i..i + n])
  {
    hide HexDigitValue, Hex4Value;
    if HexLength(s, i) == 10 {
      var h := s[i..i + 10];
      assert h[6..10] == s[i + 6..i + 10];
      assert IsHex4(h[..4]) && LooksHigh(h[0], h[1]);
      HighHexShape(h[..4]);
    }
  }

  /** The loop of `parse_string` from position `j`, with the bytes read so far. */
  function ParseChars(s: string, j: nat, res: string): (r: Parsed<string>)
    requires j <= |s|
    ensures r.Ok? ==> j < r.next <= |s|
    decreases |s| - j
  {
    if j == |s| then Err(ExpectedClosingQuote)
    else if s[j] as int < 32 then Err(ControlCharacter)
    else if s[j] == '\\' then
      if j + 1 < |s| && s[j + 1] == 'u' then
        var n := HexLength(s, j + 2);
        if n == 0 then Err(InvalidUnicodeEscape)
        else
          HexLengthMatches(s, j + 2);
          match ParseUnicodeEscape(s[j + 2..j + 2 + n])
          case None => Err(InvalidCodepoint)
          case Some(u) => ParseChars(s, j + 2 + n, res + u)
      else if j + 1 < |s| && IsShortEscape(s[j + 1]) then
        ParseChars(s, j + 2, res + [Unescape(s[j + 1])])
      else Err(InvalidEscape)
    else if s[j] == '"' then Ok(res, j + 1)
    else ParseChars(s, j + 1, res + [s[j]])
  }

  function ParseNumber(lib: Library, s: string, i: nat): (r: Parsed<Value>)
    requires i < |s| && StartsNumber(s[i])
    ensures r.Ok? ==> i < r.next <= |s|
  {
    var x := NextChar(s, i, DelimiterChars, false);
    match lib.tonumber(s[i..x])
    case None => Err(InvalidNumber)
    case Some(n) => Ok(Number(n), x)
  }

  predicate StartsLiteral(c: char) {
    c == 't' || c == 'f' || c == 'n'
  }

  lemma LiteralStarts(c: char)
    ensures StartsLiteral(c) <==> c in "tfn"
  {
  }

  function ParseLiteral(s: string, i: nat): (r: Parsed<Value>)
    requires i < |s| && StartsLiteral(s[i])
    ensures r.Ok? ==> i < r.next <= |s|
  {
    var x := NextChar(s, i, DelimiterChars, false);
    if IsLiteral(s[i..x]) then Ok(LiteralValue(s[i..x]), x) else Err(InvalidLiteral)
  }

  /** `parse`: dispatch on the character at `i`. Every success moves the position forward and
      stays inside the text, which is why the mutual recursion ends on every input. */
  function Parse(lib: Library, s: string, i: nat): (r: Parsed<Value>)
    requires i <= |s|
    ensures r.Ok? ==> i < r.next <= |s|
    decreases |s| - i, 1
  {
    if i == |s| then Err(UnexpectedCharacter)
    else if s[i] == '"' then
      match ParseChars(s, i + 1, "")
      case Err(e) => Err(e)
      case Ok(b, next) => Ok(String(b), next)
    else if StartsNumber(s[i]) then ParseNumber(lib, s, i)
    else if StartsLiteral(s[i]) then ParseLiteral(s, i)
    else if s[i] == '[' then ParseElements(lib, s, i + 1, 1, map[])
    else if s[i] == '{' then ParseMembers(lib, s, i + 1, map[])
    else Err(UnexpectedCharacter)
  }

  /** The loop of `parse_array`, about to read element number `n` into `res`. */
  function ParseElements(lib: Library, s: string, i: nat, n: int, res: map<Key, Value>): (r: Parsed<Value>)
    requires i <= |s|
    ensures r.Ok? ==> i < r.next <= |s|
    decreases |s| - i, 2
  {
    var i1 := SkipSpace(s, i);
    if i1 < |s| && s[i1] == ']' then Ok(Table(res), i1 + 1)
    else
      match Parse(lib, s, i1)
      case Err(e) => Err(e)
      case Ok(x, i2) =>
        var res' := Assign(res, Index(n), x);
        var i3 := SkipSpace(s, i2);
        if i3 < |s| && s[i3] == ']' then Ok(Table(res'), i3 + 1)
        else if i3 < |s| && s[i3] == ',' then ParseElements(lib, s, i3 + 1, n + 1, res')
        else Err(ExpectedBracketOrComma)
  }

  /** The loop of `parse_object`, about to read one more member into `res`. */
  function ParseMembers(lib: Library, s: string, i: nat, res: map<Key, Value>): (r: Parsed<Value>)
    requires i <= |s|
    ensures r.Ok? ==> i < r.next <= |s|
    decreases |s| - i, 2
  {
    var i1 := SkipSpace(s, i);
    if i1 < |s| && s[i1] == '}' then Ok(Table(res), i1 + 1)
    else
      match ParseMember(lib, s, i1)
      case Err(e) => Err(e)
      case Ok(m, i2) =>
        var res' := Assign(res, Name(m.name), m.value);
        var i3 := SkipSpace(s, i2);
        if i3 < |s| && s[i3] == '}' then Ok(Table(res'), i3 + 1)
        else if i3 < |s| && s[i3] == ',' then ParseMembers(lib, s, i3 + 1, res')
        else Err(ExpectedBraceOrComma)
  }

  /** One `key : value` of the body of that loop. */
  function ParseMember(lib: Library, s: string, i: nat): (r: Parsed<JsonValue.Member>)
    requires i <= |s|
    ensures r.Ok? ==> i < r.next <= |s|
    decreases |s| - i, 1
  {
    if i == |s| || s[i] != '"' then Err(ExpectedKey)
    else
      match ParseChars(s, i + 1, "")
      case Err(e) => Err(e)
      case Ok(name, i1) =>
        var i2 := SkipSpace(s, i1);
        if i2 == |s| || s[i2] != ':' then Err(ExpectedColon)
        else
          match Parse(lib, s, SkipSpace(s, i2 + 1))
          case Err(e) => Err(e)
          case Ok(v, i3) => Ok(JsonValue.Member(name, v), i3)
  }

  datatype Decoded = Value(value: Value) | Failure(error: Error)

  /** `json.decode` on a string argument. */
  function Decode(lib: Library, s: string): Decoded {
    match Parse(lib, s, SkipSpace(s, 0))
    case Err(e) => Failure(e)
    case Ok(v, i) => if SkipSpace(s, i) < |s| then Failure(TrailingGarbage) else Decoded.Value(v)
  }
}
