/** String escapes and Unicode: what `parse_string` makes of surrogate pairs. */
module JsonStrings {
  import opened Text
  import opened JsonSyntax
  import opened JsonSpans
  import opened JsonParser
  import opened JsonAgreement
  import JsonValue
  import Utf8

  /** What a string literal is meant to say: raw bytes and Unicode scalar values. */
  datatype Unit = Byte(c: char) | Scalar(n: int)

  /** The item spells the unit: scalars as one \u escape, or above 0xFFFF as the surrogate pair of
      RFC 2781 section 2.1, with hex digits in either case. */
  ghost predicate Spells(item: Item, u: Unit) {
    match item
    case Raw(c) => ItemWellFormed(item) && u == Byte(c)
    case Short(c) => IsShortEscape(c) && u == Byte(Unescape(c))
    case Unicode(h) => IsHex4(h) && u == Scalar(Hex4Value(h)) && Utf8.IsScalar(u.n)
    case Pair(h, l) =>
      && IsHex4(h) && IsHex4(l) && u.Scalar? && 0x10000 <= u.n <= 0x10FFFF
      && Hex4Value(h) == 0xD800 + (u.n - 0x10000) / 0x400
      && Hex4Value(l) == 0xDC00 + (u.n - 0x10000) % 0x400
  }

  ghost predicate SpellsAll(items: seq<Item>, us: seq<Unit>) {
    |items| == |us| && forall k :: 0 <= k < |items| ==> Spells(items[k], us[k])
  }

  ghost predicate Sensible(us: seq<Unit>) {
    forall u :: u in us ==> u.Scalar? ==> Utf8.IsScalar(u.n)
  }

  ghost function UnitsBytes(us: seq<Unit>): string
    requires Sensible(us)
  {
    if us == [] then ""
    else (match us[0] case Byte(c) => [c] case Scalar(n) => Utf8.Encode(n)) + UnitsBytes(us[1..])
  }

  lemma SpelledItem(item: Item, u: Unit)
    requires Spells(item, u)
    ensures ItemWellFormed(item) && (item.Unicode? ==> !IsHighHex(item.hex))
    ensures u.Scalar? ==> Utf8.IsScalar(u.n) && ItemBytes(item) == Utf8.Encode(u.n)
    ensures u.Byte? ==> ItemBytes(item) == [u.c]
  {
    hide Hex4Value, Utf8.CodepointToUtf8;
    if item.Pair? {
      var k := u.n - 0x10000;
      assert k == k / 0x400 * 0x400 + k % 0x400;
      assert PairCodepoint(item.high, item.low) == u.n;
    }
  }

  lemma {:induction false} SpelledBytes(items: seq<Item>, us: seq<Unit>)
    requires SpellsAll(items, us)
    ensures (forall item :: item in items ==> ItemWellFormed(item)) && Sensible(us)
    ensures ItemsBytes(items) == UnitsBytes(us)
    decreases |items|
  {
    hide ItemWellFormed, ItemBytes, Spells;
    if items != [] {
      SpelledItem(items[0], us[0]);
      SpelledBytes(items[1..], us[1..]);
      assert items == [items[0]] + items[1..] && us == [us[0]] + us[1..];
    }
  }

  /** However the units are spelled, `parse_string` returns exactly their UTF-8 bytes, and the
      surrogate arithmetic never leaves the code space. */
  lemma ParseStringUnits(s: string, i: nat, items: seq<Item>, us: seq<Unit>)
    requires SpellsAll(items, us) && At(s, i, StringText(items))
    ensures Sensible(us)
    ensures i < |s| && s[i] == '"'
    ensures ParseChars(s, i + 1, "") == Ok(UnitsBytes(us), i + |StringText(items)|)
  {
    hide ItemWellFormed, ItemBytes, Spells, ParseChars, ItemsAt, ItemText, At;
    StringSpan(s, i, items);
    SpelledBytes(items, us);
    assert ItemsWellFormed(items) by {
      forall k | 0 <= k < |items| ensures items[k].Unicode? ==> !IsHighHex(items[k].hex) {
        SpelledItem(items[k], us[k]);
      }
    }
    CharsComplete(s, i + 1, "", items);
    assert "" + ItemsBytes(items) == ItemsBytes(items);
  }

  /** The number `n` spelled as an escape with the hex digits `a`, `b`, `c`, `d`, each in either case,
      decodes to its octets. */
  lemma EscapedNumber(lib: JsonValue.Library, h: string, a: nat, b: nat, c: nat, d: nat, n: nat)
    returns (octets: string)
    requires n == 4096 * a + 256 * b + 16 * c + d
    requires a < 16 && b < 16 && c < 16 && d < 16 && |h| == 4
    requires h[0] == "0123456789abcdef"[a] || h[0] == "0123456789ABCDEF"[a]
    requires h[1] == "0123456789abcdef"[b] || h[1] == "0123456789ABCDEF"[b]
    requires h[2] == "0123456789abcdef"[c] || h[2] == "0123456789ABCDEF"[c]
    requires h[3] == "0123456789abcdef"[d] || h[3] == "0123456789ABCDEF"[d]
    ensures Utf8.CodepointToUtf8(n) == Some(octets)
    ensures Decode(lib, "\"\\u" + h + "\"") == Decoded.Value(JsonValue.String(octets))
  {
    hide *;
    SpelledHex(h, a, b, c, d);
    octets := EscapedHex(lib, h);
  }

  lemma EscapedHex(lib: JsonValue.Library, h: string) returns (octets: string)
    requires IsHex4(h)
    ensures Utf8.CodepointToUtf8(Hex4Value(h)) == Some(octets)
    ensures Decode(lib, "\"\\u" + h + "\"") == Decoded.Value(JsonValue.String(octets))
  {
    hide Hex4Value, IsHex4, Decode;
    var s := "\"\\u" + h + "\"";
    assert s == "\"" + ("\\u" + h) + "\"";
    ItemDecodes(lib, s, Unicode(h));
    octets := ItemBytes(Unicode(h));
  }

  /** Two escapes, of which the first names a high surrogate, decode to the octets of the number that the surrogate
      arithmetic gives, whatever the second names, unless that number leaves the code space. */
  lemma EscapedPair(lib: JsonValue.Library, h: string, l: string)
    requires IsHex4(h) && IsHex4(l) && 0xD800 <= Hex4Value(h) <= 0xDBFF
    ensures var n := (Hex4Value(h) - 0xD800) * 0x400 + Hex4Value(l) - 0xDC00 + 0x10000;
      var s := "\"\\u" + h + "\\u" + l + "\"";
      && n >= 0
      && if n <= 0x10FFFF then
           && Utf8.CodepointToUtf8(n).Some?
           && Decode(lib, s) == Decoded.Value(JsonValue.String(Utf8.CodepointToUtf8(n).value))
         else Decode(lib, s) == Failure(InvalidCodepoint)
  {
    var s := "\"\\u" + h + "\\u" + l + "\"";
    hide Hex4Value, Decode;
    PairRange(h, l);
    assert s == "\"" + ("\\u" + h + ("\\u" + l)) + "\"";
    if PairCodepoint(h, l) <= 0x10FFFF {
      ItemDecodes(lib, s, Pair(h, l));
    } else {
      PairRefused(lib, s, h, l);
    }
  }

  lemma PairRefused(lib: JsonValue.Library, s: string, h: string, l: string)
    requires OutOfRange(Pair(h, l)) && s == "\"" + ItemText(Pair(h, l)) + "\""
    ensures Decode(lib, s) == Failure(InvalidCodepoint)
  {
    hide ParseChars, Hex4Value, IsHex4;
    AtSlice(s, 0, s);
    AtOpened(s, 0, '"', ItemText(Pair(h, l)) + "\"");
    AtAppend(s, 1, ItemText(Pair(h, l)), "\"");
    assert s == "\"" + (ItemText(Pair(h, l)) + "\"");
    ItemSpan(s, 1, Pair(h, l));
    OutOfRangeFails(s, 1, "", Pair(h, l));
    SkipSpaceRun(s, 0, "");
  }

  /** The short escapes, each as a text of its own. */
  lemma EscapedShort(lib: JsonValue.Library)
    ensures Decode(lib, "\"\\\"\"") == Decoded.Value(JsonValue.String("\""))
    ensures Decode(lib, "\"\\\\\"") == Decoded.Value(JsonValue.String("\\"))
    ensures Decode(lib, "\"\\/\"") == Decoded.Value(JsonValue.String("/"))
    ensures Decode(lib, "\"\\b\"") == Decoded.Value(JsonValue.String([8 as char]))
    ensures Decode(lib, "\"\\t\"") == Decoded.Value(JsonValue.String([9 as char]))
    ensures Decode(lib, "\"\\n\"") == Decoded.Value(JsonValue.String([10 as char]))
    ensures Decode(lib, "\"\\f\"") == Decoded.Value(JsonValue.String([12 as char]))
    ensures Decode(lib, "\"\\r\"") == Decoded.Value(JsonValue.String([13 as char]))
  {
    ShortDecodes(lib, '"');
    ShortDecodes(lib, '\\');
    ShortDecodes(lib, '/');
    ShortDecodes(lib, 'b');
    ShortDecodes(lib, 't');
    ShortDecodes(lib, 'n');
    ShortDecodes(lib, 'f');
    ShortDecodes(lib, 'r');
    hide Decode;
  }

  lemma ShortDecodes(lib: JsonValue.Library, c: char)
    requires IsShortEscape(c)
    ensures Decode(lib, ['"', '\\', c, '"']) == Decoded.Value(JsonValue.String([Unescape(c)]))
  {
    assert "\"" + ['\\', c] + "\"" == ['"', '\\', c, '"'];
    ItemDecodes(lib, ['"', '\\', c, '"'], Short(c));
  }

  /** A text that is one item between quotes. */
  lemma ItemDecodes(lib: JsonValue.Library, s: string, item: Item)
    requires ItemWellFormed(item) && s == "\"" + ItemText(item) + "\""
    ensures Decode(lib, s) == Decoded.Value(JsonValue.String(ItemBytes(item)))
  {
    hide ItemWellFormed, ItemsWellFormed, ParseChars, Decode, ItemsText, ItemText, ItemBytes, ItemsBytes, ItemsAt;
    hide ItemsLength;
    var items := [item];
    OneItem(item);
    AtSlice(s, 0, s);
    StringSpan(s, 0, items);
    CharsComplete(s, 1, "", items);
    assert "" + ItemsBytes(items) == ItemsBytes(items);
    QuotedDecodes(lib, s, ItemsBytes(items));
  }

  lemma OneItem(item: Item)
    requires ItemWellFormed(item)
    ensures ItemsWellFormed([item]) && ItemsText([item]) == ItemText(item) && ItemsBytes([item]) == ItemBytes(item)
  {
    hide ItemWellFormed, ItemText, ItemBytes;
    assert [item][1..] == [];
    assert ItemText(item) + "" == ItemText(item) && ItemBytes(item) + "" == ItemBytes(item);
  }

  lemma QuotedDecodes(lib: JsonValue.Library, s: string, bytes: string)
    requires s != "" && s[0] == '"' && ParseChars(s, 1, "") == Ok(bytes, |s|)
    ensures Decode(lib, s) == Decoded.Value(JsonValue.String(bytes))
  {
    hide ParseChars;
    SkipSpaceRun(s, 0, "");
    SkipSpaceRun(s, |s|, "");
  }

  /** A literal made of scalar values alone decodes, by RFC 3629, to those scalar values. */
  lemma {:induction false} ScalarsDecodeBack(ns: seq<int>, us: seq<Unit>)
    requires us == seq(|ns|, k requires 0 <= k < |ns| => Scalar(ns[k])) && Sensible(us)
    ensures Utf8.DecodeAll(UnitsBytes(us)) == Some(ns)
    decreases |ns|
  {
    hide Utf8.Encode, Utf8.DecodeOne;
    if ns != [] {
      assert us[0] in us && us[0] == Scalar(ns[0]);
      ScalarsDecodeBack(ns[1..], us[1..]);
      var rest := UnitsBytes(us[1..]);
      Utf8.DecodeOneInverse(ns[0], rest);
      assert (Utf8.Encode(ns[0]) + rest)[|Utf8.Encode(ns[0])|..] == rest;
      assert ns == [ns[0]] + ns[1..];
    }
  }

  // --- Literals of RFC 8259 that are not well-formed UTF-16 ------------------

  /** String contents by the letter of RFC 8259 section 7: no pairing of escapes. */
  ghost predicate RfcItems(items: seq<Item>) {
    forall item :: item in items ==> ItemWellFormed(item) && !item.Pair?
  }

  /** The pairing that the pattern match makes, from left to right. */
  function Pairing(items: seq<Item>): (r: seq<Item>)
    decreases |items|
  {
    if items == [] then []
    else if |items| > 1 && items[0].Unicode? && IsHighHex(items[0].hex) && items[1].Unicode? then
      [Pair(items[0].hex, items[1].hex)] + Pairing(items[2..])
    else [items[0]] + Pairing(items[1..])
  }

  /** The escape sequences the decoder refuses: one of the last eight high halves before a low half so
      far above the low surrogates that the sum leaves the code space. */
  ghost predicate OutOfRange(item: Item) {
    && item.Pair? && IsHighHex(item.high) && IsHex4(item.low)
    && Hex4Value(item.low) >= 0xE000 + (0xDBFF - Hex4Value(item.high)) * 0x400
  }

  /** The surrogate arithmetic of `parse_unicode_escape` on any two halves the pattern admits. */
  lemma PairRange(high: string, low: string)
    requires IsHighHex(high) && IsHex4(low)
    ensures PairCodepoint(high, low) >= 0x2400
    ensures PairCodepoint(high, low) > 0x10FFFF <==> OutOfRange(Pair(high, low))
    ensures 0xDC00 <= Hex4Value(low) <= 0xDFFF ==> 0x10000 <= PairCodepoint(high, low) <= 0x10FFFF
  {
    hide Hex4Value;
  }

  lemma OutOfRangeFails(s: string, j: nat, res: string, item: Item)
    requires OutOfRange(item) && ItemAt(s, j, item)
    ensures ParseChars(s, j, res) == Err(InvalidCodepoint)
  {
    hide Hex4Value, HexDigitValue;
    AtSlice(s, j + 2, item.high);
    AtSlice(s, j + 8, item.low);
    assert IsHighHex(item.high);
    HighHexShape(item.high);
    assert HexLength(s, j + 2) == 10;
    HexLengthMatches(s, j + 2);
    var h := s[j + 2..j + 12];
    assert h[..4] == item.high && h[6..10] == item.low;
  }

  lemma ItemsCons(s: string, i: nat, item: Item, rest: seq<Item>)
    ensures ItemsLength([item] + rest) == ItemLength(item) + ItemsLength(rest)
    ensures ItemsAt(s, i, [item] + rest) <==> ItemAt(s, i, item) && ItemsAt(s, i + ItemLength(item), rest)
  {
    assert ([item] + rest)[1..] == rest;
  }

  /** Pairing leaves the text as it is. */
  lemma {:induction false} PairingSpans(s: string, i: nat, items: seq<Item>)
    ensures ItemsLength(Pairing(items)) == ItemsLength(items)
    ensures ItemsAt(s, i, Pairing(items)) <==> ItemsAt(s, i, items)
    decreases |items|
  {
    hide ItemsAt, ItemsLength, Hex4Value, IsHex4;
    if items == [] {
    } else if |items| > 1 && items[0].Unicode? && IsHighHex(items[0].hex) && items[1].Unicode? {
      var a, b, rest := items[0], items[1], items[2..];
      var j := i + ItemLength(a);
      PairingSpans(s, j + ItemLength(b), rest);
      assert items == [a] + ([b] + rest);
      ItemsCons(s, i, a, [b] + rest);
      ItemsCons(s, j, b, rest);
      ItemsCons(s, i, Pair(a.hex, b.hex), Pairing(rest));
    } else {
      PairingSpans(s, i + ItemLength(items[0]), items[1..]);
      assert items == [items[0]] + items[1..];
      ItemsCons(s, i, items[0], items[1..]);
      ItemsCons(s, i, items[0], Pairing(items[1..]));
    }
  }

  lemma {:induction false} PairingWellFormed(items: seq<Item>)
    requires RfcItems(items)
    requires forall item :: item in Pairing(items) ==> !OutOfRange(item)
    ensures ItemsWellFormed(Pairing(items))
    ensures items != [] ==> Pairing(items) != [] && (Pairing(items)[0].Raw? || Pairing(items)[0].Short? <==>
      items[0].Raw? || items[0].Short?)
    decreases |items|
  {
    hide Hex4Value, IsHex4;
    var r := Pairing(items);
    if items == [] {
    } else {
      var n := if |items| > 1 && items[0].Unicode? && IsHighHex(items[0].hex) && items[1].Unicode? then 2 else 1;
      var rest := Pairing(items[n..]);
      assert r == [r[0]] + rest;
      PairingWellFormed(items[n..]);
      assert items[0] in items && r[0] in r;
      if n == 2 {
        assert items[1] in items;
        PairRange(items[0].hex, items[1].hex);
      }
      forall k | 0 <= k < |r| - 1 && r[k].Unicode? && IsHighHex(r[k].hex)
        ensures r[k + 1].Raw? || r[k + 1].Short?
      {
        assert r[k + 1] == rest[k];
        if k > 0 {
          assert r[k] == rest[k - 1] && rest[(k - 1) + 1] == rest[k];
        } else {
          assert items[1..][0] == items[1] && items[1] in items;
        }
      }
    }
  }

  /** Where some pair is out of range, `parse_string` fails at the first one. */
  lemma {:induction false} PairingFails(s: string, j: nat, res: string, items: seq<Item>)
    requires RfcItems(items) && exists item :: item in Pairing(items) && OutOfRange(item)
    requires ItemsAt(s, j, items) && CharAt(s, j + ItemsLength(items), '"')
    ensures ParseChars(s, j, res) == Err(InvalidCodepoint)
    decreases |items|
  {
    hide ItemsAt, ItemsLength, Hex4Value, IsHex4, ParseChars, ItemAt;
    var r := Pairing(items);
    var n := if |items| > 1 && items[0].Unicode? && IsHighHex(items[0].hex) && items[1].Unicode? then 2 else 1;
    var rest := Pairing(items[n..]);
    PairingSpans(s, j, items);
    assert r == [r[0]] + rest;
    ItemsCons(s, j, r[0], rest);
    if OutOfRange(r[0]) {
      OutOfRangeFails(s, j, res, r[0]);
    } else {
      var j' := j + ItemLength(r[0]);
      PairingSpans(s, j', items[n..]);
      FrontOfPairing(s, j, items);
      ItemStep(s, j, res, r[0]);
      PairingFails(s, j', res + ItemBytes(r[0]), items[n..]);
    }
  }

  lemma FrontOfPairing(s: string, j: nat, items: seq<Item>)
    requires RfcItems(items) && items != [] && !OutOfRange(Pairing(items)[0])
    requires ItemsAt(s, j, items) && CharAt(s, j + ItemsLength(items), '"')
    ensures TakenAt(s, j, Pairing(items)[0])
  {
    hide Hex4Value, ParseChars, HexLength;
    var r := Pairing(items)[0];
    assert items[0] in items;
    if r.Pair? {
      assert items[1] in items && items[1..][0] == items[1];
      PairRange(r.high, r.low);
      assert ItemsAt(s, j + 6, items[1..]) && ItemAt(s, j + 6, items[1]);
    } else if r.Unicode? && IsHighHex(r.hex) {
      var rest := items[1..];
      assert ItemsAt(s, j + 6, rest) && ItemsLength(items) == 6 + ItemsLength(rest);
      if rest != [] {
        assert rest[0] == items[1] && items[1] in items;
        assert ItemAt(s, j + 6, rest[0]);
      }
    }
  }

  /** A string literal of RFC 8259 is accepted exactly when no escaped pair in it is out of range. */
  lemma RfcStringAccepted(s: string, i: nat, items: seq<Item>)
    requires RfcItems(items) && At(s, i, StringText(items))
    ensures i < |s|
    ensures ParseChars(s, i + 1, "").Ok? <==> forall item :: item in Pairing(items) ==> !OutOfRange(item)
  {
    hide OutOfRange, ParseChars, ItemsAt, ItemsLength, ItemsWellFormed, RfcItems;
    StringSpan(s, i, items);
    PairingSpans(s, i + 1, items);
    if forall item :: item in Pairing(items) ==> !OutOfRange(item) {
      PairingWellFormed(items);
      CharsComplete(s, i + 1, "", Pairing(items));
    } else {
      PairingFails(s, i + 1, "", items);
    }
  }

  /** A text inside the grammar of RFC 8259 that `json.decode` refuses. */
  lemma RfcTextRefused(lib: JsonValue.Library)
    ensures RfcItems([Unicode("DBFF"), Unicode("E000")])
    ensures Decode(lib, StringText([Unicode("DBFF"), Unicode("E000")])) == Failure(InvalidCodepoint)
  {
    var items := [Unicode("DBFF"), Unicode("E000")];
    var s := StringText(items);
    assert HexDigitValue('D') == 13 && HexDigitValue('B') == 11 && HexDigitValue('F') == 15;
    assert HexDigitValue('E') == 14 && HexDigitValue('0') == 0;
    assert Hex4Value("DBFF") == 0xDBFF && Hex4Value("E000") == 0xE000;
    hide ParseChars, ItemsAt, ItemsLength;
    assert Pairing(items) == [Pair("DBFF", "E000")] + Pairing(items[2..]);
    AtSlice(s, 0, s);
    StringSpan(s, 0, items);
    assert OutOfRange(Pairing(items)[0]);
    PairingFails(s, 1, "", items);
    SkipSpaceRun(s, 0, "");
  }
}
