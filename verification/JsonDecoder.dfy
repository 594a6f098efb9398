/** `json.decode` with the loops of the original, each proved equal to its function in JsonParser.
    `decode_error` leaves a loop by returning `Err`. */
module JsonDecoder {
  import opened Text
  import opened JsonValue
  import opened JsonSyntax
  import P = JsonParser
  import opened JsonParser

  method NextChar(s: string, idx: nat, chars: CharSet, negate: bool) returns (r: nat)
    requires idx <= |s|
    ensures r == P.NextChar(s, idx, chars, negate)
  {
    for i := idx to |s|
      invariant P.NextChar(s, idx, chars, negate) == P.NextChar(s, i, chars, negate)
    {
      if chars.Has(s[i]) != negate {
        return i;
      }
    }
    return |s|;
  }

  lemma AppendRun(res: string, s: string, k: nat, j: nat)
    requires k <= j < |s|
    ensures res + s[k..j] + [s[j]] == res + s[k..j + 1]
  {
    assert s[k..j] + [s[j]] == s[k..j + 1];
    AppendAssociative(res, s[k..j], [s[j]]);
  }

  lemma AppendNothing(res: string, s: string, k: nat)
    requires k <= |s|
    ensures res + s[k..k] == res
  {
  }

  /** `s[k..j]` is the run of plain characters not yet copied to `res`. */
  method ParseString(s: string, i: nat) returns (r: Parsed<string>)
    requires i < |s| && s[i] == '"'
    ensures r == P.ParseChars(s, i + 1, "")
  {
    hide IsHexDigit, HexDigitValue, Hex4Value, IsHighHex, ParseUnicodeEscape;
    var res := "";
    var j := i + 1;
    var k := j;
    assert res + s[k..j] == "";
    while j < |s|
      invariant i < k <= j <= |s|
      invariant P.ParseChars(s, i + 1, "") == P.ParseChars(s, j, res + s[k..j])
    {
      var x := s[j];
      if x as int < 32 {
        return Err(ControlCharacter);
      } else if x == '\\' {
        res := res + s[k..j];
        j := j + 1;
        if j < |s| && s[j] == 'u' {
          var n := HexLength(s, j + 1);
          if n == 0 {
            return Err(InvalidUnicodeEscape);
          }
          HexLengthMatches(s, j + 1);
          var hex := s[j + 1..j + 1 + n];
          match ParseUnicodeEscape(hex) {
            case None => return Err(InvalidCodepoint);
            case Some(u) => res := res + u;
          }
          j := j + |hex|;
        } else {
          if j == |s| || !IsShortEscape(s[j]) {
            return Err(InvalidEscape);
          }
          res := res + [Unescape(s[j])];
        }
        k := j + 1;
        AppendNothing(res, s, k);
      } else if x == '"' {
        res := res + s[k..j];
        return Ok(res, j + 1);
      } else {
        AppendRun(res, s, k, j);
      }
      j := j + 1;
    }
    return Err(ExpectedClosingQuote);
  }

  method ParseNumber(lib: Library, s: string, i: nat) returns (r: Parsed<Value>)
    requires i < |s| && StartsNumber(s[i])
    ensures r == P.ParseNumber(lib, s, i)
  {
    var x := NextChar(s, i, DelimiterChars, false);
    match lib.tonumber(s[i..x])
    case None => return Err(InvalidNumber);
    case Some(n) => return Ok(Number(n), x);
  }

  method ParseLiteral(s: string, i: nat) returns (r: Parsed<Value>)
    requires i < |s| && StartsLiteral(s[i])
    ensures r == P.ParseLiteral(s, i)
  {
    var x := NextChar(s, i, DelimiterChars, false);
    if !IsLiteral(s[i..x]) {
      return Err(InvalidLiteral);
    }
    return Ok(LiteralValue(s[i..x]), x);
  }

  method ParseArray(lib: Library, s: string, start: nat) returns (r: Parsed<Value>)
    requires start < |s| && s[start] == '['
    ensures r == P.ParseElements(lib, s, start + 1, 1, map[])
    decreases |s| - start, 0
  {
    hide P.ParseChars, P.NextChar, P.ParseNumber, P.ParseLiteral, P.ParseMembers, P.ParseMember, P.Parse;
    var res: map<Key, Value> := map[];
    var n := 1;
    var i := start + 1;
    while true
      invariant start < i <= |s|
      invariant P.ParseElements(lib, s, start + 1, 1, map[]) == P.ParseElements(lib, s, i, n, res)
      decreases |s| - i
    {
      i := NextChar(s, i, SpaceChars, true);
      if i < |s| && s[i] == ']' {
        i := i + 1;
        break;
      }
      var x := Parse(lib, s, i);
      if x.Err? {
        return Err(x.error);
      }
      i := x.next;
      res := Assign(res, Index(n), x.value);
      n := n + 1;
      i := NextChar(s, i, SpaceChars, true);
      if i < |s| && s[i] == ']' {
        i := i + 1;
        break;
      }
      if i == |s| || s[i] != ',' {
        return Err(ExpectedBracketOrComma);
      }
      i := i + 1;
    }
    return Ok(Table(res), i);
  }

  method ParseObject(lib: Library, s: string, start: nat) returns (r: Parsed<Value>)
    requires start < |s| && s[start] == '{'
    ensures r == P.ParseMembers(lib, s, start + 1, map[])
    decreases |s| - start, 0
  {
    hide P.ParseChars, P.NextChar, P.ParseNumber, P.ParseLiteral, P.ParseElements, P.Parse;
    var res: map<Key, Value> := map[];
    var i := start + 1;
    while true
      invariant start < i <= |s|
      invariant P.ParseMembers(lib, s, start + 1, map[]) == P.ParseMembers(lib, s, i, res)
      decreases |s| - i
    {
      i := NextChar(s, i, SpaceChars, true);
      if i < |s| && s[i] == '}' {
        i := i + 1;
        break;
      }
      if i == |s| || s[i] != '"' {
        return Err(ExpectedKey);
      }
      var key := ParseString(s, i);
      if key.Err? {
        return Err(key.error);
      }
      i := NextChar(s, key.next, SpaceChars, true);
      if i == |s| || s[i] != ':' {
        return Err(ExpectedColon);
      }
      i := NextChar(s, i + 1, SpaceChars, true);
      var val := Parse(lib, s, i);
      if val.Err? {
        return Err(val.error);
      }
      res := Assign(res, Name(key.value), val.value);
      i := NextChar(s, val.next, SpaceChars, true);
      if i < |s| && s[i] == '}' {
        i := i + 1;
        break;
      }
      if i == |s| || s[i] != ',' {
        return Err(ExpectedBraceOrComma);
      }
      i := i + 1;
    }
    return Ok(Table(res), i);
  }

  method Parse(lib: Library, s: string, i: nat) returns (r: Parsed<Value>)
    requires i <= |s|
    ensures r == P.Parse(lib, s, i)
    decreases |s| - i, 1
  {
    if i == |s| {
      return Err(UnexpectedCharacter);
    } else if s[i] == '"' {
      var str := ParseString(s, i);
      match str
      case Err(e) => return Err(e);
      case Ok(b, next) => return Ok(String(b), next);
    } else if StartsNumber(s[i]) {
      r := ParseNumber(lib, s, i);
    } else if StartsLiteral(s[i]) {
      r := ParseLiteral(s, i);
    } else if s[i] == '[' {
      r := ParseArray(lib, s, i);
    } else if s[i] == '{' {
      r := ParseObject(lib, s, i);
    } else {
      return Err(UnexpectedCharacter);
    }
  }

  method Decode(lib: Library, s: string) returns (r: Decoded)
    ensures r == P.Decode(lib, s)
  {
    var i := NextChar(s, 0, SpaceChars, true);
    var res := Parse(lib, s, i);
    if res.Err? {
      return Failure(res.error);
    }
    i := NextChar(s, res.next, SpaceChars, true);
    if i < |s| {
      return Failure(TrailingGarbage);
    }
    return Decoded.Value(res.value);
  }
}
