/** The parser and the grammar agree: a text decodes exactly when it has a derivation, and to what
    the derivation means. */
module JsonAgreement {
  import opened Text
  import opened JsonValue
  import opened JsonSyntax
  import opened JsonSpans
  import opened JsonParser

  // --- Scanning --------------------------------------------------------------

  lemma SkipSpaceRun(s: string, i: nat, w: string)
    requires At(s, i, w) && IsSpace(w)
    requires i + |w| == |s| || !IsSpaceChar(s[i + |w|])
    ensures SkipSpace(s, i) == i + |w|
  {
    AtChars(s, i, w);
    NextCharLeast(s, i, CharSet.SpaceChars, true, i + |w|);
  }

  lemma TokenRun(s: string, i: nat, token: string)
    requires At(s, i, token) && forall c :: c in token ==> !IsDelimiter(c)
    requires i + |token| == |s| || IsDelimiter(s[i + |token|])
    ensures NextChar(s, i, CharSet.DelimiterChars, false) == i + |token| && s[i..i + |token|] == token
  {
    AtChars(s, i, token);
    AtSlice(s, i, token);
    NextCharLeast(s, i, CharSet.DelimiterChars, false, i + |token|);
  }

  /** What SkipSpace skipped is a run of spaces. */
  lemma SkippedRun(s: string, i: nat) returns (w: string)
    requires i <= |s|
    ensures IsSpace(w) && At(s, i, w) && SkipSpace(s, i) == i + |w|
    ensures i + |w| < |s| ==> !IsSpaceChar(s[i + |w|])
  {
    w := s[i..SkipSpace(s, i)];
    NextCharLeast(s, i, CharSet.SpaceChars, true, i + |w|);
    AtSlice(s, i, w);
  }

  // --- Strings ---------------------------------------------------------------

  /** A \u escape with four hex digits stands at `i`. */
  predicate HexEscapeAt(s: string, i: nat) {
    i + 6 <= |s| && s[i] == '\\' && s[i + 1] == 'u' && IsHex4(s[i + 2..i + 6])
  }

  /** The item is the one `parse_string` takes at `i`: an escaped high surrogate is
      taken alone only if no other \u escape follows. */
  ghost predicate TakenAt(s: string, i: nat, item: Item) {
    && ItemWellFormed(item) && ItemAt(s, i, item)
    && (item.Unicode? && IsHighHex(item.hex) ==> !HexEscapeAt(s, i + 6))
  }

  /** The pattern match takes the whole item and nothing of what follows it. */
  lemma HexLengthOfItem(s: string, i: nat, item: Item)
    requires TakenAt(s, i, item) && (item.Unicode? || item.Pair?)
    ensures HexLength(s, i + 2) == ItemLength(item) - 2
  {
    hide HexDigitValue, Hex4Value;
    if item.Unicode? {
      AtSlice(s, i + 2, item.hex);
      HighHexShape(item.hex);
    } else {
      AtSlice(s, i + 2, item.high);
      AtSlice(s, i + 8, item.low);
      HighHexShape(item.high);
    }
  }

  /** ... and the escape function gives the bytes of the item. */
  lemma EscapeOfItem(s: string, i: nat, item: Item, h: string)
    requires TakenAt(s, i, item) && (item.Unicode? || item.Pair?)
    requires h == s[i + 2..i + ItemLength(item)] && IsHexMatch(h)
    ensures ParseUnicodeEscape(h) == Some(ItemBytes(item))
  {
    hide HexDigitValue, Hex4Value, HexLength;
    if item.Unicode? {
      AtSlice(s, i + 2, item.hex);
      assert h[..4] == h;
    } else {
      AtSlice(s, i + 2, item.high);
      AtSlice(s, i + 8, item.low);
      assert h[..4] == item.high && h[6..10] == item.low;
    }
  }

  /** One step of `parse_string` over an item. */
  lemma ItemStep(s: string, j: nat, res: string, item: Item)
    requires TakenAt(s, j, item)
    ensures ParseChars(s, j, res) == ParseChars(s, j + ItemLength(item), res + ItemBytes(item))
  {
    hide HexDigitValue, Hex4Value, HexLength, ParseUnicodeEscape;
    if item.Unicode? || item.Pair? {
      HexLengthOfItem(s, j, item);
      HexLengthMatches(s, j + 2);
      EscapeOfItem(s, j, item, s[j + 2..j + ItemLength(item)]);
    }
  }

  lemma WellFormedTail(items: seq<Item>)
    requires ItemsWellFormed(items) && items != []
    ensures ItemsWellFormed(items[1..])
  {
    var rest := items[1..];
    forall k | 0 <= k < |rest| - 1 && rest[k].Unicode? && IsHighHex(rest[k].hex)
      ensures rest[k + 1].Raw? || rest[k + 1].Short?
    {
      assert rest[k] == items[k + 1] && rest[k + 1] == items[k + 2];
    }
  }

  /** What comes after a well-formed item allows the parser to take it whole. */
  lemma FrontIsTaken(s: string, j: nat, items: seq<Item>)
    requires ItemsWellFormed(items) && items != []
    requires ItemsAt(s, j, items) && CharAt(s, j + ItemsLength(items), '"')
    ensures TakenAt(s, j, items[0])
  {
    hide HexLength, ParseChars, Hex4Value;
    var rest := items[1..];
    if items[0].Unicode? && IsHighHex(items[0].hex) {
      assert ItemsAt(s, j + 6, rest) && ItemsLength(items) == 6 + ItemsLength(rest);
      if rest != [] {
        assert rest[0] == items[1];
        assert items[0 + 1].Raw? || items[0 + 1].Short?;
        assert ItemAt(s, j + 6, rest[0]) && ItemWellFormed(rest[0]);
        assert !HexEscapeAt(s, j + 6);
      } else {
        assert ItemsLength(rest) == 0;
        assert !HexEscapeAt(s, j + 6);
      }
    }
  }

  /** `parse_string` reads any well-formed string literal to the bytes its items stand for. */
  lemma {:induction false} CharsComplete(s: string, j: nat, res: string, items: seq<Item>)
    requires ItemsWellFormed(items)
    requires ItemsAt(s, j, items) && CharAt(s, j + ItemsLength(items), '"')
    ensures ParseChars(s, j, res) == Ok(res + ItemsBytes(items), j + ItemsLength(items) + 1)
    decreases |items|
  {
    hide HexLength, ParseUnicodeEscape, Hex4Value, IsHex4, ItemBytes, ItemWellFormed, ItemAt, TakenAt;
    if items == [] {
      assert res + "" == res;
    } else {
      var bytes := ItemBytes(items[0]);
      FrontIsTaken(s, j, items);
      ItemStep(s, j, res, items[0]);
      WellFormedTail(items);
      CharsComplete(s, j + ItemLength(items[0]), res + bytes, items[1..]);
      AppendAssociative(res, bytes, ItemsBytes(items[1..]));
    }
  }

  /** `parse_string` can take one more item at `j`. */
  ghost predicate ItemFront(s: string, j: nat) {
    && j < |s| && s[j] as int >= 32 && s[j] != '"'
    && if s[j] != '\\' then true
       else if j + 1 == |s| then false
       else if s[j + 1] != 'u' then IsShortEscape(s[j + 1])
       else
         var n := HexLength(s, j + 2);
         n > 0 && IsHexMatch(s[j + 2..j + 2 + n]) && ParseUnicodeEscape(s[j + 2..j + 2 + n]).Some?
  }

  /** The item that it takes. */
  lemma FrontItem(s: string, j: nat) returns (item: Item)
    requires ItemFront(s, j)
    ensures TakenAt(s, j, item)
  {
    hide HexDigitValue, Hex4Value;
    if s[j] != '\\' {
      item := Raw(s[j]);
    } else if s[j + 1] != 'u' {
      item := Short(s[j + 1]);
    } else if HexLength(s, j + 2) == 4 {
      var h := s[j + 2..j + 6];
      item := Unicode(h);
      AtSlice(s, j + 2, h);
      HighHexShape(h);
    } else {
      var h, l := s[j + 2..j + 6], s[j + 8..j + 12];
      item := Pair(h, l);
      AtSlice(s, j + 2, h);
      AtSlice(s, j + 8, l);
      HexLengthMatches(s, j + 2);
      assert s[j + 2..j + 12][..4] == h && s[j + 2..j + 12][6..10] == l;
    }
  }

  lemma AcceptedFront(s: string, j: nat, res: string)
    requires j <= |s| && ParseChars(s, j, res).Ok? && s[j] != '"'
    ensures ItemFront(s, j)
  {
    hide HexLength, ParseUnicodeEscape, Hex4Value;
    if j + 2 <= |s| && HexLength(s, j + 2) > 0 {
      HexLengthMatches(s, j + 2);
    }
  }

  lemma WellFormedCons(s: string, j: nat, item: Item, rest: seq<Item>)
    requires TakenAt(s, j, item)
    requires ItemsWellFormed(rest) && ItemsAt(s, j + ItemLength(item), rest)
    ensures ItemsWellFormed([item] + rest) && ItemsAt(s, j, [item] + rest)
    ensures ItemsLength([item] + rest) == ItemLength(item) + ItemsLength(rest)
    ensures ItemsBytes([item] + rest) == ItemBytes(item) + ItemsBytes(rest)
  {
    hide HexLength, ParseChars, Hex4Value;
    var items := [item] + rest;
    assert items[1..] == rest;
    if rest != [] && item.Unicode? && IsHighHex(item.hex) {
      var next := rest[0];
      assert ItemWellFormed(next) && ItemAt(s, j + 6, next);
      var hex := match next case Unicode(h) => h case Pair(h, _) => h case _ => "";
      AtSlice(s, j + 8, hex);
      var after: nat := j + 6;
      assert next.Unicode? || next.Pair? ==> HexEscapeAt(s, after);
    }
    forall k | 0 <= k < |items| - 1 && items[k].Unicode? && IsHighHex(items[k].hex)
      ensures items[k + 1].Raw? || items[k + 1].Short?
    {
      assert items[k + 1] == rest[k];
      if k > 0 {
        assert items[k] == rest[k - 1] && rest[(k - 1) + 1] == rest[k];
      }
    }
  }

  /** Every string literal that `parse_string` accepts is a well-formed item sequence. */
  lemma {:induction false} CharsSound(s: string, j: nat, res: string) returns (items: seq<Item>)
    requires j <= |s| && ParseChars(s, j, res).Ok?
    ensures ItemsWellFormed(items)
    ensures ItemsAt(s, j, items) && CharAt(s, j + ItemsLength(items), '"')
    ensures ParseChars(s, j, res) == Ok(res + ItemsBytes(items), j + ItemsLength(items) + 1)
    decreases |s| - j
  {
    hide HexLength, ParseUnicodeEscape, Hex4Value, IsHex4, ItemBytes, ItemWellFormed, ItemAt;
    if s[j] == '"' {
      items := [];
      assert res + "" == res;
    } else {
      assert ItemFront(s, j) by { AcceptedFront(s, j, res); }
      var item := FrontItem(s, j);
      ItemStep(s, j, res, item);
      var rest := CharsSound(s, j + ItemLength(item), res + ItemBytes(item));
      items := [item] + rest;
      WellFormedCons(s, j, item, rest);
      AppendAssociative(res, ItemBytes(item), ItemsBytes(rest));
    }
  }

  // --- Completeness ----------------------------------------------------------

  /** The text ends or goes on with a delimiter at `i`. */
  predicate Delimited(s: string, i: nat) {
    i == |s| || (i < |s| && IsDelimiter(s[i]))
  }

  lemma TreeStart(lib: Library, s: string, i: nat, t: Tree)
    requires WellFormed(lib, t) && TreeAt(s, i, t)
    ensures i < |s| && !IsDelimiter(s[i])
  {
    match t
    case Numeral(token) => AtChars(s, i, token);
    case Literal(word) => AtChars(s, i, word);
    case _ =>
  }

  lemma NumeralComplete(lib: Library, s: string, i: nat, token: string)
    requires IsNumberToken(lib, token) && At(s, i, token) && Delimited(s, i + |token|)
    ensures Parse(lib, s, i) == Ok(Number(lib.tonumber(token).value), i + |token|)
  {
    hide ParseChars, ParseElements, ParseMembers, ParseLiteral, NextChar;
    AtChars(s, i, token);
    TokenRun(s, i, token);
  }

  lemma LiteralComplete(lib: Library, s: string, i: nat, word: string)
    requires IsLiteral(word) && At(s, i, word) && Delimited(s, i + |word|)
    ensures Parse(lib, s, i) == Ok(LiteralValue(word), i + |word|)
  {
    hide ParseChars, ParseElements, ParseMembers, ParseNumber, NextChar;
    AtChars(s, i, word);
    TokenRun(s, i, word);
  }

  /** A number or a word needs a delimiter, or the end of the text, behind it; the other values close themselves. */
  predicate Ended(s: string, t: Tree, i: nat) {
    t.Numeral? || t.Literal? ==> Delimited(s, i)
  }

  /** Any derivation in any context that ends it is parsed to what it means, and the
      position after it is exact. */
  lemma {:induction false} ParseComplete(lib: Library, s: string, i: nat, t: Tree)
    requires WellFormed(lib, t) && TreeAt(s, i, t) && Ended(s, t, i + TreeLength(t))
    ensures Parse(lib, s, i) == Ok(Meaning(lib, t), i + TreeLength(t))
    decreases t, 0
  {
    hide ParseElements, ParseMembers, ParseChars, NextChar, At, IsSpace;
    hide ElementsLength, MembersLength, ElementsAt, MembersAt, ElementValues, MemberValues;
    hide ItemsLength, ItemsAt, ItemsBytes;
    match t
    case Numeral(token) => NumeralComplete(lib, s, i, token);
    case Literal(word) => LiteralComplete(lib, s, i, word);
    case Quoted(items) =>
      CharsComplete(s, i + 1, "", items);
      assert "" + ItemsBytes(items) == ItemsBytes(items);
    case Array(es) =>
      ElementsComplete(lib, s, i + 1, 1, map[], es);
      AssignElementsIsTable(ElementValues(lib, es));
    case Object(ms) =>
      MembersComplete(lib, s, i + 1, map[], ms);
      AssignMembersIsTable(MemberValues(lib, ms));
  }

  /** A value between two runs of space, before a closing character or the end. */
  lemma {:induction false} SpacedComplete(lib: Library, s: string, i: nat, w1: string, v: Tree, w2: string)
    requires IsSpace(w1) && WellFormed(lib, v) && IsSpace(w2) && SpacedAt(s, i, w1, v, w2)
    requires var j := i + |w1| + TreeLength(v) + |w2|; j == |s| || (IsDelimiter(s[j]) && !IsSpaceChar(s[j]))
    ensures SkipSpace(s, i) == i + |w1|
    ensures i + |w1| < |s| && !IsDelimiter(s[i + |w1|])
    ensures Parse(lib, s, i + |w1|) == Ok(Meaning(lib, v), i + |w1| + TreeLength(v))
    ensures SkipSpace(s, i + |w1| + TreeLength(v)) == i + |w1| + TreeLength(v) + |w2|
    decreases v, 2
  {
    hide Parse, ParseElements, ParseMembers, ParseChars, TreeLength, TreeAt, WellFormed, Meaning;
    AtChars(s, i + |w1| + TreeLength(v), w2);
    SpacedParsed(lib, s, i, w1, v, w2);
  }

  /** The same before anything, as long as it ends the value and is no space. */
  lemma {:induction false} SpacedParsed(lib: Library, s: string, i: nat, w1: string, v: Tree, w2: string)
    requires IsSpace(w1) && WellFormed(lib, v) && IsSpace(w2) && SpacedAt(s, i, w1, v, w2)
    requires Ended(s, v, i + |w1| + TreeLength(v))
    requires var j := i + |w1| + TreeLength(v) + |w2|; j == |s| || !IsSpaceChar(s[j])
    ensures SkipSpace(s, i) == i + |w1|
    ensures i + |w1| < |s| && !IsDelimiter(s[i + |w1|])
    ensures Parse(lib, s, i + |w1|) == Ok(Meaning(lib, v), i + |w1| + TreeLength(v))
    ensures SkipSpace(s, i + |w1| + TreeLength(v)) == i + |w1| + TreeLength(v) + |w2|
    decreases v, 1
  {
    hide Parse, ParseElements, ParseMembers, ParseChars, TreeLength, TreeAt, WellFormed, Meaning;
    var j := i + |w1| + TreeLength(v);
    TreeStart(lib, s, i + |w1|, v);
    SkipSpaceRun(s, i, w1);
    ParseComplete(lib, s, i + |w1|, v);
    SkipSpaceRun(s, j, w2);
  }

  lemma {:induction false} ElementsComplete(
      lib: Library, s: string, i: nat, n: int, res: map<Key, Value>, es: Elements)
    requires ElementsWellFormed(lib, es) && ElementsAt(s, i, es)
    ensures ParseElements(lib, s, i, n, res)
         == Ok(Table(AssignElements(res, n, ElementValues(lib, es))), i + ElementsLength(es))
    decreases es, 0
  {
    hide Parse, ParseMembers, ParseMember, ParseChars, ParseNumber, NextChar, SkipSpace;
    hide TreeLength, TreeAt, WellFormed, Meaning, At, IsSpace;
    match es
    case NoElement(w) =>
      SkipSpaceRun(s, i, w);
    case LastElement(w1, v, w2) =>
      SpacedComplete(lib, s, i, w1, v, w2);
    case MoreElements(w1, v, w2, rest) =>
      SpacedComplete(lib, s, i, w1, v, w2);
      var j := i + |w1| + TreeLength(v) + |w2| + 1;
      ElementsComplete(lib, s, j, n + 1, Assign(res, Index(n), Meaning(lib, v)), rest);
  }

  lemma {:induction false} EntryComplete(lib: Library, s: string, i: nat, e: Entry, w: string)
    requires EntryWellFormed(lib, e) && IsSpace(w) && EntryAt(s, i, e, w)
    requires var j := i + EntryLength(e) + |w|; j < |s| && (s[j] == ',' || s[j] == '}')
    ensures SkipSpace(s, i) == i + |e.before|
    ensures CharAt(s, i + |e.before|, '"')
    ensures ParseMember(lib, s, i + |e.before|)
         == Ok(EntryMember(lib, e), i + EntryLength(e))
    ensures SkipSpace(s, i + EntryLength(e)) == i + EntryLength(e) + |w|
    decreases e, 0
  {
    hide Parse, ParseElements, ParseMembers, ParseChars, ParseNumber, NextChar, SkipSpace;
    hide TreeLength, TreeAt, WellFormed, Meaning, At, IsSpace, ItemsAt, ItemsLength, ItemsBytes;
    var i1 := i + |e.before|;
    var i2 := i1 + StringLength(e.name);
    SkipSpaceRun(s, i, e.before);
    CharsComplete(s, i1 + 1, "", e.name);
    assert "" + ItemsBytes(e.name) == ItemsBytes(e.name);
    SkipSpaceRun(s, i2, e.left);
    SpacedComplete(lib, s, i2 + |e.left| + 1, e.right, e.value, w);
  }

  lemma {:induction false} MembersComplete(
      lib: Library, s: string, i: nat, res: map<Key, Value>, ms: Members)
    requires MembersWellFormed(lib, ms) && MembersAt(s, i, ms)
    ensures ParseMembers(lib, s, i, res)
         == Ok(Table(AssignMembers(res, MemberValues(lib, ms))), i + MembersLength(ms))
    decreases ms, 0
  {
    hide Parse, ParseElements, ParseMember, ParseChars, ParseNumber, NextChar, SkipSpace;
    hide TreeLength, TreeAt, WellFormed, Meaning, At, IsSpace, EntryAt, EntryLength, EntryMember, EntryWellFormed;
    match ms
    case NoMember(w) =>
      SkipSpaceRun(s, i, w);
    case LastMember(e, w) =>
      EntryComplete(lib, s, i, e, w);
    case MoreMembers(e, w, rest) =>
      EntryComplete(lib, s, i, e, w);
      var m := EntryMember(lib, e);
      MembersComplete(lib, s, i + EntryLength(e) + |w| + 1, Assign(res, Name(m.name), m.value), rest);
  }

  // --- Soundness -------------------------------------------------------------

  lemma ScalarSound(lib: Library, s: string, i: nat) returns (t: Tree)
    requires i < |s| && (StartsNumber(s[i]) || StartsLiteral(s[i])) && Parse(lib, s, i).Ok?
    ensures WellFormed(lib, t) && TreeAt(s, i, t)
    ensures Parse(lib, s, i) == Ok(Meaning(lib, t), i + TreeLength(t)) && Delimited(s, i + TreeLength(t))
  {
    hide ParseChars, ParseElements, ParseMembers, ItemsWellFormed, ElementsWellFormed, MembersWellFormed;
    var x := NextChar(s, i, CharSet.DelimiterChars, false);
    var word := s[i..x];
    AtSlice(s, i, word);
    NextCharLeast(s, i, CharSet.DelimiterChars, false, x);
    assert word[0] == s[i];
    t := if StartsNumber(s[i]) then Numeral(word) else Literal(word);
  }

  /** Whatever the parser accepts has a derivation that spans exactly the consumed text and means
      the returned value. */
  lemma {:induction false} ParseSound(lib: Library, s: string, i: nat) returns (t: Tree)
    requires i <= |s| && Parse(lib, s, i).Ok?
    ensures WellFormed(lib, t) && TreeAt(s, i, t)
    ensures Parse(lib, s, i) == Ok(Meaning(lib, t), i + TreeLength(t))
    ensures Ended(s, t, i + TreeLength(t))
    decreases |s| - i, 1
  {
    hide ParseElements, ParseMembers, ParseChars, NextChar, At, IsSpace;
    hide ElementsLength, MembersLength, ElementsAt, MembersAt, ElementValues, MemberValues;
    hide ItemsLength, ItemsAt, ItemsBytes;
    if StartsNumber(s[i]) || StartsLiteral(s[i]) {
      t := ScalarSound(lib, s, i);
    } else if s[i] == '"' {
      var items := CharsSound(s, i + 1, "");
      assert "" + ItemsBytes(items) == ItemsBytes(items);
      t := Quoted(items);
    } else if s[i] == '[' {
      var es := ElementsSound(lib, s, i + 1, 1, map[]);
      AssignElementsIsTable(ElementValues(lib, es));
      t := Array(es);
    } else {
      var ms := MembersSound(lib, s, i + 1, map[]);
      AssignMembersIsTable(MemberValues(lib, ms));
      t := Object(ms);
    }
  }

  lemma {:induction false} ElementsSound(lib: Library, s: string, i: nat, n: int, res: map<Key, Value>)
    returns (es: Elements)
    requires i <= |s| && ParseElements(lib, s, i, n, res).Ok?
    ensures ElementsWellFormed(lib, es) && ElementsAt(s, i, es)
    ensures ParseElements(lib, s, i, n, res)
         == Ok(Table(AssignElements(res, n, ElementValues(lib, es))), i + ElementsLength(es))
    decreases |s| - i, 2
  {
    hide Parse, ParseMembers, ParseMember, ParseChars, ParseNumber, NextChar, SkipSpace;
    hide TreeLength, TreeAt, WellFormed, Meaning, At, IsSpace;
    var w1 := SkippedRun(s, i);
    var i1 := i + |w1|;
    if i1 < |s| && s[i1] == ']' {
      es := NoElement(w1);
    } else {
      var v := ParseSound(lib, s, i1);
      var w2 := SkippedRun(s, i1 + TreeLength(v));
      var i3 := i1 + TreeLength(v) + |w2|;
      if s[i3] == ']' {
        es := LastElement(w1, v, w2);
      } else {
        var rest := ElementsSound(lib, s, i3 + 1, n + 1, Assign(res, Index(n), Meaning(lib, v)));
        es := MoreElements(w1, v, w2, rest);
      }
    }
  }

  lemma {:induction false} EntrySound(lib: Library, s: string, i: nat, before: string)
    returns (e: Entry, w: string)
    requires At(s, i, before) && IsSpace(before) && ParseMember(lib, s, i + |before|).Ok?
    ensures EntryWellFormed(lib, e) && IsSpace(w) && EntryAt(s, i, e, w) && e.before == before
    ensures ParseMember(lib, s, i + |before|) == Ok(EntryMember(lib, e), i + EntryLength(e))
    ensures SkipSpace(s, i + EntryLength(e)) == i + EntryLength(e) + |w|
    ensures Ended(s, e.value, i + EntryLength(e))
    ensures i + EntryLength(e) + |w| < |s| ==> !IsSpaceChar(s[i + EntryLength(e) + |w|])
    decreases |s| - i, 1
  {
    hide Parse, ParseElements, ParseMembers, ParseChars, ParseNumber, NextChar, SkipSpace;
    hide TreeLength, TreeAt, WellFormed, Meaning, At, IsSpace, ItemsAt, ItemsLength, ItemsBytes;
    var i1 := i + |before|;
    var name := CharsSound(s, i1 + 1, "");
    assert "" + ItemsBytes(name) == ItemsBytes(name);
    var i2 := i1 + StringLength(name);
    var left := SkippedRun(s, i2);
    var i3 := i2 + |left| + 1;
    var right := SkippedRun(s, i3);
    var v := ParseSound(lib, s, i3 + |right|);
    w := SkippedRun(s, i3 + |right| + TreeLength(v));
    e := Entry(before, name, left, right, v);
  }

  lemma {:induction false} MembersSound(lib: Library, s: string, i: nat, res: map<Key, Value>)
    returns (ms: Members)
    requires i <= |s| && ParseMembers(lib, s, i, res).Ok?
    ensures MembersWellFormed(lib, ms) && MembersAt(s, i, ms)
    ensures ParseMembers(lib, s, i, res)
         == Ok(Table(AssignMembers(res, MemberValues(lib, ms))), i + MembersLength(ms))
    decreases |s| - i, 2
  {
    hide Parse, ParseElements, ParseMember, ParseChars, ParseNumber, NextChar, SkipSpace;
    hide TreeLength, TreeAt, WellFormed, Meaning, At, IsSpace, EntryAt, EntryLength, EntryMember, EntryWellFormed;
    var w1 := SkippedRun(s, i);
    var i1 := i + |w1|;
    if i1 < |s| && s[i1] == '}' {
      ms := NoMember(w1);
    } else {
      var e, w2 := EntrySound(lib, s, i, w1);
      var i3 := i + EntryLength(e) + |w2|;
      if s[i3] == '}' {
        ms := LastMember(e, w2);
      } else {
        var m := EntryMember(lib, e);
        var rest := MembersSound(lib, s, i3 + 1, Assign(res, Name(m.name), m.value));
        ms := MoreMembers(e, w2, rest);
      }
    }
  }

  // --- Whole texts -----------------------------------------------------------

  /** JSON-text = ws value ws (RFC 8259 section 2). */
  datatype Document = Document(before: string, tree: Tree, after: string) {
    function Text(): string {
      before + TreeText(tree) + after
    }

    ghost predicate WellFormed(lib: Library) {
      IsSpace(before) && JsonSyntax.WellFormed(lib, tree) && IsSpace(after)
    }
  }

  /** Completeness: the text of every derivation decodes to what the derivation means. */
  lemma DecodeComplete(lib: Library, d: Document)
    requires d.WellFormed(lib)
    ensures Decode(lib, d.Text()) == Decoded.Value(Meaning(lib, d.tree))
  {
    hide Parse, WellFormed, Meaning, TreeAt, TreeLength, TreeText, NextChar;
    var s := d.Text();
    AtSlice(s, 0, s);
    SpacedSpan(s, 0, d.before, d.tree, d.after);
    SpacedComplete(lib, s, 0, d.before, d.tree, d.after);
  }

  /** Soundness: every text that decodes has a derivation. */
  lemma DecodeSound(lib: Library, s: string) returns (d: Document)
    requires Decode(lib, s).Value?
    ensures d.WellFormed(lib) && d.Text() == s
    ensures Decode(lib, s) == Decoded.Value(Meaning(lib, d.tree))
  {
    hide Parse, WellFormed, Meaning, TreeAt, TreeLength, TreeText, NextChar;
    var before := SkippedRun(s, 0);
    var t := ParseSound(lib, s, |before|);
    var after := SkippedRun(s, |before| + TreeLength(t));
    d := Document(before, t, after);
    SpacedSpan(s, 0, before, t, after);
    AtSlice(s, 0, d.Text());
  }

  ghost predicate Derives(lib: Library, s: string, v: Value, d: Document) {
    d.WellFormed(lib) && d.Text() == s && Meaning(lib, d.tree) == v
  }

  /** `json.decode` succeeds with `v` exactly on the texts that derive from the grammar with meaning
      `v`, whatever `tonumber` is. */
  lemma DecodeAgrees(lib: Library, s: string, v: Value)
    ensures Decode(lib, s) == Decoded.Value(v) <==> exists d :: Derives(lib, s, v, d)
  {
    hide Decode, WellFormed, Meaning;
    if Decode(lib, s) == Decoded.Value(v) {
      var d := DecodeSound(lib, s);
      assert Derives(lib, s, v, d);
    }
    if d :| Derives(lib, s, v, d) {
      DecodeComplete(lib, d);
    }
  }

  /** The grammar gives a text at most one meaning. */
  lemma MeaningUnique(lib: Library, d1: Document, d2: Document)
    requires d1.WellFormed(lib) && d2.WellFormed(lib) && d1.Text() == d2.Text()
    ensures Meaning(lib, d1.tree) == Meaning(lib, d2.tree)
  {
    DecodeComplete(lib, d1);
    DecodeComplete(lib, d2);
  }

  // --- White space -----------------------------------------------------------

  /** The derivation without its insignificant white space. */
  function Squeeze(t: Tree): Tree {
    match t
    case Array(es) => Array(SqueezeElements(es))
    case Object(ms) => Object(SqueezeMembers(ms))
    case _ => t
  }

  function SqueezeElements(es: Elements): Elements {
    match es
    case NoElement(_) => NoElement("")
    case LastElement(_, v, _) => LastElement("", Squeeze(v), "")
    case MoreElements(_, v, _, rest) => MoreElements("", Squeeze(v), "", SqueezeElements(rest))
  }

  function SqueezeEntry(e: Entry): Entry {
    Entry("", e.name, "", "", Squeeze(e.value))
  }

  function SqueezeMembers(ms: Members): Members {
    match ms
    case NoMember(_) => NoMember("")
    case LastMember(e, _) => LastMember(SqueezeEntry(e), "")
    case MoreMembers(e, _, rest) => MoreMembers(SqueezeEntry(e), "", SqueezeMembers(rest))
  }

  lemma {:induction false} SqueezeMeaning(lib: Library, t: Tree)
    requires WellFormed(lib, t)
    ensures WellFormed(lib, Squeeze(t)) && Meaning(lib, Squeeze(t)) == Meaning(lib, t)
    decreases t, 0
  {
    hide ItemsWellFormed, ItemsBytes, ArrayTable, ObjectTable;
    match t
    case Array(es) => SqueezeElementValues(lib, es);
    case Object(ms) => SqueezeMemberValues(lib, ms);
    case _ =>
  }

  lemma {:induction false} SqueezeElementValues(lib: Library, es: Elements)
    requires ElementsWellFormed(lib, es)
    ensures ElementsWellFormed(lib, SqueezeElements(es))
    ensures ElementValues(lib, SqueezeElements(es)) == ElementValues(lib, es)
    decreases es, 0
  {
    hide WellFormed, Meaning;
    match es
    case NoElement(_) =>
    case LastElement(_, v, _) => SqueezeMeaning(lib, v);
    case MoreElements(_, v, _, rest) =>
      SqueezeMeaning(lib, v);
      SqueezeElementValues(lib, rest);
  }

  lemma {:induction false} SqueezeMemberValues(lib: Library, ms: Members)
    requires MembersWellFormed(lib, ms)
    ensures MembersWellFormed(lib, SqueezeMembers(ms))
    ensures MemberValues(lib, SqueezeMembers(ms)) == MemberValues(lib, ms)
    decreases ms, 0
  {
    hide WellFormed, Meaning;
    match ms
    case NoMember(_) =>
    case LastMember(e, _) => SqueezeMeaning(lib, e.value);
    case MoreMembers(e, _, rest) =>
      SqueezeMeaning(lib, e.value);
      SqueezeMemberValues(lib, rest);
  }

  /** Two texts that differ only in the white space around values and structural characters
      decode to the same value. */
  lemma WhiteSpaceIrrelevant(lib: Library, d1: Document, d2: Document)
    requires d1.WellFormed(lib) && d2.WellFormed(lib) && Squeeze(d1.tree) == Squeeze(d2.tree)
    ensures Decode(lib, d1.Text()) == Decode(lib, d2.Text())
  {
    DecodeComplete(lib, d1);
    DecodeComplete(lib, d2);
    SqueezeMeaning(lib, d1.tree);
    SqueezeMeaning(lib, d2.tree);
  }
}
