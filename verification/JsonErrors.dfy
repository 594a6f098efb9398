/** Which error `json.decode` reports: the first thing wrong, as a derivation that breaks off. */
module JsonErrors {
  import opened Text
  import opened JsonValue
  import opened JsonSyntax
  import opened JsonSpans
  import opened JsonParser
  import opened JsonAgreement

  /** What ends a string literal before its closing quote. */
  datatype Flaw =
    | Unclosed
    | Control
    | BadEscape
    | BadHex
    | BadPair(high: string, low: string)

  /** A value up to the first thing wrong in it. */
  datatype Broken =
    | NoValue
    | BadNumber(token: string)
    | BadWord(word: string)
    | BadString(items: seq<Item>, flaw: Flaw)
    | BadArray(elements: BrokenElements)
    | BadObject(members: BrokenMembers)

  /** What follows `[` or a comma, up to the first thing wrong. */
  datatype BrokenElements =
    | BadElement(before: string, value: Broken)
    | NoComma(before: string, element: Tree, after: string)
    | LaterElement(before: string, element: Tree, after: string, rest: BrokenElements)

  /** What follows `{` or a comma, up to the first thing wrong. */
  datatype BrokenMembers =
    | NoKey(before: string)
    | BadKey(before: string, items: seq<Item>, flaw: Flaw)
    | NoColon(before: string, name: seq<Item>, left: string)
    | BadValue(before: string, name: seq<Item>, left: string, right: string, value: Broken)
    | NoMemberComma(entry: Entry, after: string)
    | LaterMember(entry: Entry, after: string, rest: BrokenMembers)

  function FlawError(flaw: Flaw): Error {
    match flaw
    case Unclosed => ExpectedClosingQuote
    case Control => ControlCharacter
    case BadEscape => InvalidEscape
    case BadHex => InvalidUnicodeEscape
    case BadPair(_, _) => InvalidCodepoint
  }

  function ErrorOf(b: Broken): Error {
    match b
    case NoValue => UnexpectedCharacter
    case BadNumber(_) => InvalidNumber
    case BadWord(_) => InvalidLiteral
    case BadString(_, flaw) => FlawError(flaw)
    case BadArray(es) => ElementsError(es)
    case BadObject(ms) => MembersError(ms)
  }

  function ElementsError(es: BrokenElements): Error {
    match es
    case BadElement(_, b) => ErrorOf(b)
    case NoComma(_, _, _) => ExpectedBracketOrComma
    case LaterElement(_, _, _, rest) => ElementsError(rest)
  }

  function MembersError(ms: BrokenMembers): Error {
    match ms
    case NoKey(_) => ExpectedKey
    case BadKey(_, _, flaw) => FlawError(flaw)
    case NoColon(_, _, _) => ExpectedColon
    case BadValue(_, _, _, _, b) => ErrorOf(b)
    case NoMemberComma(_, _) => ExpectedBraceOrComma
    case LaterMember(_, _, rest) => MembersError(rest)
  }

  // --- By position -----------------------------------------------------------

  /** The items `parse_string` takes one after the other from `j` on. */
  ghost predicate ItemsTaken(s: string, j: nat, items: seq<Item>)
    decreases |items|
  {
    if items == [] then j <= |s|
    else TakenAt(s, j, items[0]) && ItemsTaken(s, j + ItemLength(items[0]), items[1..])
  }

  ghost predicate FlawAt(s: string, j: nat, flaw: Flaw) {
    match flaw
    case Unclosed => j == |s|
    case Control => j < |s| && s[j] as int < 32
    case BadEscape => CharAt(s, j, '\\') && (j + 1 < |s| ==> s[j + 1] !in "\\/\"bfnrtu")
    case BadHex => CharAt(s, j, '\\') && CharAt(s, j + 1, 'u') && !HexEscapeAt(s, j)
    case BadPair(h, l) =>
      ItemAt(s, j, Item.Pair(h, l)) && IsHighHex(h) && IsHex4(l) && PairCodepoint(h, l) > 0x10FFFF
  }

  /** A run of characters up to a delimiter or the end. */
  ghost predicate WordAt(s: string, i: nat, word: string) {
    word != "" && At(s, i, word) && (forall c :: c in word ==> !IsDelimiter(c)) && Delimited(s, i + |word|)
  }

  /** Spaces, and then the end or a character that is neither a space nor one of `wanted`. */
  ghost predicate MissingAt(s: string, i: nat, w: string, wanted: string) {
    && At(s, i, w) && IsSpace(w)
    && (i + |w| < |s| ==> !IsSpaceChar(s[i + |w|]) && s[i + |w|] !in wanted)
  }

  ghost predicate BrokenAt(lib: Library, s: string, i: nat, b: Broken)
    decreases b, 0
  {
    match b
    case NoValue => MissingAt(s, i, "", "\"-0123456789tfn[{")
    case BadNumber(token) => WordAt(s, i, token) && token[0] in "-0123456789" && lib.tonumber(token) == None
    case BadWord(word) => WordAt(s, i, word) && word[0] in "tfn" && word !in ["true", "false", "null"]
    case BadString(items, flaw) => BrokenStringAt(s, i, items, flaw)
    case BadArray(es) => CharAt(s, i, '[') && BrokenElementsAt(lib, s, i + 1, es)
    case BadObject(ms) => CharAt(s, i, '{') && BrokenMembersAt(lib, s, i + 1, ms)
  }

  ghost predicate BrokenStringAt(s: string, i: nat, items: seq<Item>, flaw: Flaw) {
    CharAt(s, i, '"') && ItemsTaken(s, i + 1, items) && FlawAt(s, i + 1 + ItemsLength(items), flaw)
  }

  /** A fine value between spaces that ends where it should. */
  ghost predicate FineAt(lib: Library, s: string, i: nat, w1: string, v: Tree, w2: string) {
    && IsSpace(w1) && WellFormed(lib, v) && IsSpace(w2) && SpacedAt(s, i, w1, v, w2)
    && Ended(s, v, i + |w1| + TreeLength(v))
  }

  ghost predicate BrokenElementsAt(lib: Library, s: string, i: nat, es: BrokenElements)
    decreases es, 0
  {
    match es
    case BadElement(w, b) =>
      IsSpace(w) && At(s, i, w) && BrokenAt(lib, s, i + |w|, b) && !CharAt(s, i + |w|, ']')
    case NoComma(w1, v, w2) =>
      FineAt(lib, s, i, w1, v, w2) && MissingAt(s, i + |w1| + TreeLength(v), w2, "],")
    case LaterElement(w1, v, w2, rest) =>
      && FineAt(lib, s, i, w1, v, w2) && CharAt(s, i + |w1| + TreeLength(v) + |w2|, ',')
      && BrokenElementsAt(lib, s, i + |w1| + TreeLength(v) + |w2| + 1, rest)
  }

  /** A fine key after spaces. */
  ghost predicate KeyAt(s: string, i: nat, w: string, name: seq<Item>) {
    IsSpace(w) && At(s, i, w) && ItemsWellFormed(name) && StringAt(s, i + |w|, name)
  }

  /** A fine member that ends where it should. */
  ghost predicate FineEntryAt(lib: Library, s: string, i: nat, e: Entry, w: string) {
    && EntryWellFormed(lib, e) && IsSpace(w) && EntryAt(s, i, e, w)
    && Ended(s, e.value, i + EntryLength(e))
  }

  ghost predicate BrokenMembersAt(lib: Library, s: string, i: nat, ms: BrokenMembers)
    decreases ms, 0
  {
    match ms
    case NoKey(w) => MissingAt(s, i, w, "}\"")
    case BadKey(w, items, flaw) => IsSpace(w) && At(s, i, w) && BrokenStringAt(s, i + |w|, items, flaw)
    case NoColon(w, name, left) =>
      KeyAt(s, i, w, name) && MissingAt(s, i + |w| + StringLength(name), left, ":")
    case BadValue(w, name, left, right, b) =>
      var i2 := i + |w| + StringLength(name);
      var i3 := i2 + |left| + 1;
      && KeyAt(s, i, w, name) && IsSpace(left) && At(s, i2, left) && CharAt(s, i2 + |left|, ':')
      && IsSpace(right) && At(s, i3, right) && BrokenAt(lib, s, i3 + |right|, b)
    case NoMemberComma(e, w) => FineEntryAt(lib, s, i, e, w) && MissingAt(s, i + EntryLength(e), w, "},")
    case LaterMember(e, w, rest) =>
      && FineEntryAt(lib, s, i, e, w) && CharAt(s, i + EntryLength(e) + |w|, ',')
      && BrokenMembersAt(lib, s, i + EntryLength(e) + |w| + 1, rest)
  }

  // --- Strings ---------------------------------------------------------------

  lemma {:induction false} ItemsSteps(s: string, j: nat, res: string, items: seq<Item>)
    requires ItemsTaken(s, j, items)
    ensures j + ItemsLength(items) <= |s| && forall item :: item in items ==> ItemWellFormed(item)
    ensures ParseChars(s, j, res) == ParseChars(s, j + ItemsLength(items), res + ItemsBytes(items))
    decreases |items|
  {
    hide ParseChars, TakenAt, ItemBytes, ItemWellFormed, ItemLength;
    if items == [] {
      assert res + "" == res;
    } else {
      TakenWellFormed(s, j, items[0]);
      var bytes := ItemBytes(items[0]);
      ItemStep(s, j, res, items[0]);
      ItemsSteps(s, j + ItemLength(items[0]), res + bytes, items[1..]);
      AppendAssociative(res, bytes, ItemsBytes(items[1..]));
      assert items == [items[0]] + items[1..];
    }
  }

  lemma TakenWellFormed(s: string, j: nat, item: Item)
    requires TakenAt(s, j, item)
    ensures ItemWellFormed(item)
  {
  }

  lemma FlawFails(s: string, j: nat, res: string, flaw: Flaw)
    requires FlawAt(s, j, flaw)
    ensures j <= |s| && ParseChars(s, j, res) == Err(FlawError(flaw))
  {
    hide Hex4Value, HexDigitValue, IsHexDigit;
    match flaw
    case BadEscape =>
      if j + 1 < |s| {
        hide IsShortEscape;
        CharacterSets(s[j + 1]);
      }
    case BadHex =>
      assert HexLength(s, j + 2) == 0 by { NoHex(s, j + 2); }
    case BadPair(h, l) => PairFails(s, j, res, h, l);
    case _ =>
  }

  lemma NoHex(s: string, i: nat)
    requires i <= |s| && !(i + 4 <= |s| && IsHex4(s[i..i + 4]))
    ensures HexLength(s, i) == 0
  {
    hide IsHexDigit;
    if i + 10 <= |s| && LooksHigh(s[i], s[i + 1]) {
      HighIsHex(s[i], s[i + 1]);
    }
  }

  lemma HighIsHex(c: char, d: char)
    requires LooksHigh(c, d)
    ensures IsHexDigit(c) && IsHexDigit(d)
  {
  }

  lemma PairFails(s: string, j: nat, res: string, high: string, low: string)
    requires ItemAt(s, j, Item.Pair(high, low)) && IsHighHex(high) && IsHex4(low)
    requires PairCodepoint(high, low) > 0x10FFFF
    ensures j <= |s| && ParseChars(s, j, res) == Err(InvalidCodepoint)
  {
    hide Hex4Value, HexDigitValue;
    AtSlice(s, j + 2, high);
    AtSlice(s, j + 8, low);
    HighHexShape(high);
    assert HexLength(s, j + 2) == 10;
    HexLengthMatches(s, j + 2);
    var h := s[j + 2..j + 12];
    assert h[..4] == high && h[6..10] == low;
  }

  lemma BrokenStringFails(s: string, i: nat, items: seq<Item>, flaw: Flaw)
    requires BrokenStringAt(s, i, items, flaw)
    ensures i < |s| && ParseChars(s, i + 1, "") == Err(FlawError(flaw))
  {
    hide ParseChars, ItemsTaken, FlawAt, ItemsLength;
    ItemsSteps(s, i + 1, "", items);
    FlawFails(s, i + 1 + ItemsLength(items), "" + ItemsBytes(items), flaw);
  }

  /** What stops `parse_string` at `j` with an error, if it cannot take an item there. */
  lemma StopFlaw(s: string, j: nat, res: string) returns (flaw: Flaw)
    requires j <= |s| && ParseChars(s, j, res).Err? && !ItemFront(s, j)
    ensures FlawAt(s, j, flaw) && ParseChars(s, j, res) == Err(FlawError(flaw))
  {
    hide Hex4Value, HexDigitValue, IsHexDigit;
    if j == |s| {
      flaw := Unclosed;
    } else if s[j] as int < 32 {
      flaw := Control;
    } else if j + 1 < |s| && s[j + 1] == 'u' {
      var n := HexLength(s, j + 2);
      if n == 0 {
        flaw := BadHex;
      } else {
        HexLengthMatches(s, j + 2);
        var h, l := s[j + 2..j + 6], if n == 10 then s[j + 8..j + 12] else "";
        assert n == 10 ==> s[j + 2..j + 12][..4] == h && s[j + 2..j + 12][6..10] == l;
        AtSlice(s, j + 2, h);
        if n == 10 {
          AtSlice(s, j + 8, l);
        }
        flaw := BadPair(h, l);
      }
    } else {
      flaw := BadEscape;
      if j + 1 < |s| {
        CharacterSets(s[j + 1]);
      }
    }
  }

  lemma {:induction false} CharsFailure(s: string, j: nat, res: string) returns (items: seq<Item>, flaw: Flaw)
    requires j <= |s| && ParseChars(s, j, res).Err?
    ensures ItemsTaken(s, j, items) && FlawAt(s, j + ItemsLength(items), flaw)
    ensures ParseChars(s, j, res) == Err(FlawError(flaw))
    decreases |s| - j
  {
    hide ParseChars, FlawAt, ItemLength, ItemFront, TakenAt, FlawError, ItemWellFormed, ItemBytes;
    if ItemFront(s, j) {
      var item := FrontItem(s, j);
      TakenInside(s, j, item);
      TakenWellFormed(s, j, item);
      ItemStep(s, j, res, item);
      var rest;
      rest, flaw := CharsFailure(s, j + ItemLength(item), res + ItemBytes(item));
      items := [item] + rest;
      assert items[1..] == rest;
    } else {
      items := [];
      flaw := StopFlaw(s, j, res);
    }
  }

  lemma TakenInside(s: string, j: nat, item: Item)
    requires TakenAt(s, j, item)
    ensures j < j + ItemLength(item) <= |s|
  {
  }

  // --- A broken derivation fails with its error ------------------------------

  lemma MissingSkips(s: string, i: nat, w: string, wanted: string)
    requires MissingAt(s, i, w, wanted)
    ensures i <= |s| && SkipSpace(s, i) == i + |w| <= |s|
  {
    AtSlice(s, i, w);
    SkipSpaceRun(s, i, w);
  }

  lemma StartSets(c: char)
    ensures StartsNumber(c) <==> c in "-0123456789"
    ensures StartsLiteral(c) <==> c in "tfn"
    ensures c in "\"-0123456789tfn[{" <==> c == '"' || c in "-0123456789" || c in "tfn" || c == '[' || c == '{'
    ensures c in "\"-0123456789tfn[{" ==> !IsDelimiter(c)
  {
    CharacterSets(c);
    LiteralStarts(c);
  }

  lemma WordFails(lib: Library, s: string, i: nat, word: string)
    requires WordAt(s, i, word)
    ensures i < |s| && s[i] == word[0]
    ensures word[0] in "-0123456789" && lib.tonumber(word) == None ==> Parse(lib, s, i) == Err(InvalidNumber)
    ensures word[0] in "tfn" && word !in ["true", "false", "null"] ==> Parse(lib, s, i) == Err(InvalidLiteral)
  {
    AtChars(s, i, word);
    TokenRun(s, i, word);
    StartSets(word[0]);
    LiteralWords(word);
    hide StartsNumber, StartsLiteral, IsLiteral, NextChar, ParseElements, ParseMembers, ParseChars;
  }

  lemma {:induction false} BrokenFails(lib: Library, s: string, i: nat, b: Broken)
    requires BrokenAt(lib, s, i, b)
    ensures i <= |s| && Parse(lib, s, i) == Err(ErrorOf(b))
    ensures i < |s| ==> !IsSpaceChar(s[i])
    decreases b, 0
  {
    hide ParseElements, ParseMembers, ParseChars, NextChar, BrokenStringAt, WordAt, At, IsSpace, FlawError;
    hide BrokenElementsAt, BrokenMembersAt, IsDelimiter, IsSpaceChar, StartsNumber, StartsLiteral;
    if i < |s| {
      StartSets(s[i]);
      DelimiterOrNot(s[i]);
    }
    match b
    case NoValue => MissingSkips(s, i, "", "\"-0123456789tfn[{");
    case BadNumber(token) => WordFails(lib, s, i, token);
    case BadWord(word) => WordFails(lib, s, i, word);
    case BadString(items, flaw) => BrokenStringFails(s, i, items, flaw); BrokenStringOpens(s, i, items, flaw);
    case BadArray(es) => BrokenElementsFail(lib, s, i + 1, 1, map[], es);
    case BadObject(ms) => BrokenMembersFail(lib, s, i + 1, map[], ms);
  }

  lemma DelimiterOrNot(c: char)
    ensures IsSpaceChar(c) ==> IsDelimiter(c)
  {
  }

  lemma BrokenStringOpens(s: string, i: nat, items: seq<Item>, flaw: Flaw)
    requires BrokenStringAt(s, i, items, flaw)
    ensures CharAt(s, i, '"')
  {
  }

  lemma {:induction false} BrokenElementsFail(
      lib: Library, s: string, i: nat, n: int, res: map<Key, Value>, es: BrokenElements)
    requires BrokenElementsAt(lib, s, i, es)
    ensures i <= |s| && ParseElements(lib, s, i, n, res) == Err(ElementsError(es))
    decreases es, 0
  {
    hide Parse, ParseMembers, ParseMember, ParseChars, ParseNumber, NextChar, SkipSpace, IsDelimiter, IsSpaceChar;
    hide TreeLength, TreeAt, WellFormed, Meaning, IsSpace, Ended, BrokenAt, ErrorOf;
    match es
    case BadElement(w, b) =>
      AtSlice(s, i, w);
      BrokenFails(lib, s, i + |w|, b);
      SkipSpaceRun(s, i, w);
    case NoComma(w1, v, w2) =>
      AtSlice(s, i, w1);
      SpacedParsed(lib, s, i, w1, v, w2);
      NotClosing(s[i + |w1|]);
      MissingSkips(s, i + |w1| + TreeLength(v), w2, "],");
    case LaterElement(w1, v, w2, rest) =>
      AtSlice(s, i, w1);
      CommaNoSpace();
      SpacedParsed(lib, s, i, w1, v, w2);
      NotClosing(s[i + |w1|]);
      var j := i + |w1| + TreeLength(v) + |w2| + 1;
      BrokenElementsFail(lib, s, j, n + 1, Assign(res, Index(n), Meaning(lib, v)), rest);
  }

  lemma NotClosing(c: char)
    requires !IsDelimiter(c)
    ensures c != ']' && c != '}' && c != ','
  {
  }

  lemma CommaNoSpace()
    ensures !IsSpaceChar(',') && !IsSpaceChar(':') && !IsSpaceChar('"')
  {
  }

  /** A fine key is read, and the spaces before it are skipped. */
  lemma KeyParsed(s: string, i: nat, w: string, name: seq<Item>)
    requires KeyAt(s, i, w, name)
    ensures i <= |s| && SkipSpace(s, i) == i + |w| && CharAt(s, i + |w|, '"')
    ensures i + |w| + StringLength(name) <= |s|
    ensures ParseChars(s, i + |w| + 1, "") == Ok(ItemsBytes(name), i + |w| + StringLength(name))
  {
    hide ParseChars, NextChar, SkipSpace, ItemsAt, ItemsLength, ItemsBytes, IsSpace;
    AtSlice(s, i, w);
    CommaNoSpace();
    SkipSpaceRun(s, i, w);
    CharsComplete(s, i + |w| + 1, "", name);
    assert "" + ItemsBytes(name) == ItemsBytes(name);
  }

  /** A fine member is read, whatever ends it. */
  lemma EntryParsed(lib: Library, s: string, i: nat, e: Entry, w: string)
    requires FineEntryAt(lib, s, i, e, w)
    requires var j := i + EntryLength(e) + |w|; j < |s| ==> !IsSpaceChar(s[j])
    ensures i <= |s| && SkipSpace(s, i) == i + |e.before| && CharAt(s, i + |e.before|, '"')
    ensures EntryWellFormed(lib, e)
    ensures ParseMember(lib, s, i + |e.before|) == Ok(EntryMember(lib, e), i + EntryLength(e))
    ensures i + EntryLength(e) <= |s| && SkipSpace(s, i + EntryLength(e)) == i + EntryLength(e) + |w|
  {
    hide Parse, ParseElements, ParseMembers, ParseChars, ParseNumber, NextChar, SkipSpace, IsSpaceChar, IsDelimiter;
    hide TreeLength, TreeAt, WellFormed, Meaning, IsSpace, ItemsAt, ItemsLength, ItemsBytes, Ended;
    var i2 := i + |e.before| + StringLength(e.name);
    KeyParsed(s, i, e.before, e.name);
    CommaNoSpace();
    SkipSpaceRun(s, i2, e.left);
    SpacedParsed(lib, s, i2 + |e.left| + 1, e.right, e.value, w);
  }

  /** A member that fails makes the object fail, and so does a missing comma after one that does not. */
  lemma MembersStop(lib: Library, s: string, i: nat, res: map<Key, Value>, e: Error)
    requires i <= |s| && !CharAt(s, SkipSpace(s, i), '}')
    requires match ParseMember(lib, s, SkipSpace(s, i))
      case Err(f) => f == e
      case Ok(_, j) =>
        e == ExpectedBraceOrComma && !CharAt(s, SkipSpace(s, j), '}') && !CharAt(s, SkipSpace(s, j), ',')
    ensures ParseMembers(lib, s, i, res) == Err(e)
  {
    hide Parse, ParseMember, SkipSpace;
  }

  /** A value that fails makes its member fail, and so does a missing colon. */
  lemma MemberStops(lib: Library, s: string, i: nat, w: string, name: seq<Item>, left: string, e: Error)
    requires KeyAt(s, i, w, name)
    requires var j := i + |w| + StringLength(name);
      && j <= |s| && SkipSpace(s, j) == j + |left| <= |s|
      && if CharAt(s, j + |left|, ':') then Parse(lib, s, SkipSpace(s, j + |left| + 1)) == Err(e)
         else e == ExpectedColon
    ensures i <= |s| && SkipSpace(s, i) == i + |w| < |s| && s[i + |w|] == '"'
    ensures ParseMember(lib, s, i + |w|) == Err(e)
  {
    hide Parse, ParseChars, SkipSpace, ItemsBytes, KeyAt;
    KeyParsed(s, i, w, name);
  }

  lemma BadValueStops(
      lib: Library, s: string, i: nat, w: string, name: seq<Item>, left: string, right: string, j: nat, e: Error)
    requires KeyAt(s, i, w, name) && j == i + |w| + StringLength(name)
    requires IsSpace(left) && At(s, j, left) && CharAt(s, j + |left|, ':')
    requires IsSpace(right) && At(s, j + |left| + 1, right)
    requires j + |left| + 1 + |right| <= |s| && Parse(lib, s, j + |left| + 1 + |right|) == Err(e)
    requires j + |left| + 1 + |right| < |s| ==> !IsSpaceChar(s[j + |left| + 1 + |right|])
    ensures i <= |s| && SkipSpace(s, i) == i + |w| < |s| && s[i + |w|] == '"'
    ensures ParseMember(lib, s, i + |w|) == Err(e)
  {
    hide Parse, ParseMember, SkipSpace, KeyAt, IsSpace, IsSpaceChar, At;
    CommaNoSpace();
    SkipSpaceRun(s, j, left);
    SkipSpaceRun(s, j + |left| + 1, right);
    MemberStops(lib, s, i, w, name, left, e);
  }

  lemma BadKeyStops(lib: Library, s: string, i: nat, w: string, items: seq<Item>, flaw: Flaw)
    requires IsSpace(w) && At(s, i, w) && BrokenStringAt(s, i + |w|, items, flaw)
    ensures i <= |s| && SkipSpace(s, i) == i + |w| < |s| && s[i + |w|] == '"'
    ensures ParseMember(lib, s, i + |w|) == Err(FlawError(flaw))
  {
    AtSlice(s, i, w);
    BrokenStringOpens(s, i + |w|, items, flaw);
    hide Parse, ParseChars, SkipSpace, BrokenStringAt, IsSpace, IsSpaceChar, At, FlawError;
    CommaNoSpace();
    SkipSpaceRun(s, i, w);
    BrokenStringFails(s, i + |w|, items, flaw);
  }

  lemma {:induction false} BrokenMembersFail(
      lib: Library, s: string, i: nat, res: map<Key, Value>, ms: BrokenMembers)
    requires BrokenMembersAt(lib, s, i, ms)
    ensures i <= |s| && ParseMembers(lib, s, i, res) == Err(MembersError(ms))
    decreases ms, 0
  {
    hide Parse, ParseElements, ParseMember, ParseChars, ParseNumber, NextChar, SkipSpace, IsSpaceChar, IsDelimiter;
    hide TreeLength, TreeAt, WellFormed, Meaning, IsSpace, EntryAt, EntryLength, EntryMember, EntryWellFormed, Ended;
    hide BrokenAt, BrokenStringAt, KeyAt, ItemsBytes, FineEntryAt, ErrorOf, FlawError;
    match ms
    case NoKey(w) =>
      MissingSkips(s, i, w, "}\"");
      NoKeyStops(lib, s, i + |w|);
      MembersStop(lib, s, i, res, ExpectedKey);
    case BadKey(w, items, flaw) =>
      BadKeyStops(lib, s, i, w, items, flaw);
      MembersStop(lib, s, i, res, FlawError(flaw));
    case NoColon(w, name, left) =>
      KeyParsed(s, i, w, name);
      MissingSkips(s, i + |w| + StringLength(name), left, ":");
      MemberStops(lib, s, i, w, name, left, ExpectedColon);
      MembersStop(lib, s, i, res, ExpectedColon);
    case BadValue(w, name, left, right, b) =>
      var j := i + |w| + StringLength(name);
      BrokenFails(lib, s, j + |left| + 1 + |right|, b);
      BadValueStops(lib, s, i, w, name, left, right, j, ErrorOf(b));
      MembersStop(lib, s, i, res, ErrorOf(b));
    case NoMemberComma(e, w) =>
      EntryParsed(lib, s, i, e, w);
      MissingSkips(s, i + EntryLength(e), w, "},");
      MembersStop(lib, s, i, res, ExpectedBraceOrComma);
    case LaterMember(e, w, rest) =>
      CommaNoSpace();
      EntryParsed(lib, s, i, e, w);
      var m := EntryMember(lib, e);
      BrokenMembersFail(lib, s, i + EntryLength(e) + |w| + 1, Assign(res, Name(m.name), m.value), rest);
  }

  lemma NoKeyStops(lib: Library, s: string, i: nat)
    requires i <= |s| && !CharAt(s, i, '"')
    ensures ParseMember(lib, s, i) == Err(ExpectedKey)
  {
  }

  // --- A failure has a broken derivation -------------------------------------

  lemma WordFailure(lib: Library, s: string, i: nat) returns (word: string)
    requires i < |s| && (StartsNumber(s[i]) || StartsLiteral(s[i])) && Parse(lib, s, i).Err?
    ensures WordAt(s, i, word) && word[0] == s[i]
    ensures StartsNumber(s[i]) ==> lib.tonumber(word) == None && Parse(lib, s, i) == Err(InvalidNumber)
    ensures StartsLiteral(s[i]) ==> !IsLiteral(word) && Parse(lib, s, i) == Err(InvalidLiteral)
  {
    hide ParseChars, ParseElements, ParseMembers, NextChar;
    var x := NextChar(s, i, CharSet.DelimiterChars, false);
    word := s[i..x];
    AtSlice(s, i, word);
    NextCharLeast(s, i, CharSet.DelimiterChars, false, x);
    assert x > i;
  }

  lemma {:induction false} FailureBroken(lib: Library, s: string, i: nat) returns (b: Broken)
    requires i <= |s| && Parse(lib, s, i).Err? && (i < |s| ==> !IsSpaceChar(s[i]))
    ensures BrokenAt(lib, s, i, b) && Parse(lib, s, i) == Err(ErrorOf(b))
    decreases |s| - i, 1
  {
    hide ParseElements, ParseMembers, ParseChars, NextChar, WordAt, IsSpace, FlawError, ItemsTaken, FlawAt;
    hide BrokenElementsAt, BrokenMembersAt, IsDelimiter, IsSpaceChar, StartsNumber, StartsLiteral;
    AtSlice(s, i, "");
    SpaceNone();
    if i == |s| {
      b := NoValue;
    } else {
      StartSets(s[i]);
      if s[i] == '"' {
        var items, flaw := CharsFailure(s, i + 1, "");
        b := BadString(items, flaw);
      } else if StartsNumber(s[i]) || StartsLiteral(s[i]) {
        var word := WordFailure(lib, s, i);
        LiteralWords(word);
        b := if StartsNumber(s[i]) then BadNumber(word) else BadWord(word);
      } else if s[i] == '[' {
        var es := ElementsFailure(lib, s, i + 1, 1, map[]);
        b := BadArray(es);
      } else if s[i] == '{' {
        var ms := MembersFailure(lib, s, i + 1, map[]);
        b := BadObject(ms);
      } else {
        b := NoValue;
      }
    }
  }

  lemma SpaceNone()
    ensures IsSpace("")
  {
  }

  lemma {:induction false} ElementsFailure(lib: Library, s: string, i: nat, n: int, res: map<Key, Value>)
    returns (es: BrokenElements)
    requires i <= |s| && ParseElements(lib, s, i, n, res).Err?
    ensures BrokenElementsAt(lib, s, i, es) && ParseElements(lib, s, i, n, res) == Err(ElementsError(es))
    decreases |s| - i, 2
  {
    hide Parse, ParseMembers, ParseMember, ParseChars, ParseNumber, NextChar, SkipSpace, IsSpaceChar, IsDelimiter;
    hide TreeLength, TreeAt, WellFormed, Meaning, At, IsSpace, Ended, BrokenAt, ErrorOf;
    var w1 := SkippedRun(s, i);
    var i1 := i + |w1|;
    if Parse(lib, s, i1).Err? {
      var b := FailureBroken(lib, s, i1);
      es := BadElement(w1, b);
    } else {
      var v := ParseSound(lib, s, i1);
      var w2 := SkippedRun(s, i1 + TreeLength(v));
      var i3 := i1 + TreeLength(v) + |w2|;
      if CharAt(s, i3, ',') {
        var rest := ElementsFailure(lib, s, i3 + 1, n + 1, Assign(res, Index(n), Meaning(lib, v)));
        es := LaterElement(w1, v, w2, rest);
      } else {
        es := NoComma(w1, v, w2);
      }
    }
  }

  lemma {:induction false} MembersFailure(lib: Library, s: string, i: nat, res: map<Key, Value>)
    returns (ms: BrokenMembers)
    requires i <= |s| && ParseMembers(lib, s, i, res).Err?
    ensures BrokenMembersAt(lib, s, i, ms) && ParseMembers(lib, s, i, res) == Err(MembersError(ms))
    decreases |s| - i, 2
  {
    hide Parse, ParseElements, ParseMember, ParseChars, ParseNumber, NextChar, SkipSpace, IsSpaceChar, IsDelimiter;
    hide TreeLength, TreeAt, WellFormed, Meaning, At, IsSpace, EntryAt, EntryLength, EntryMember, EntryWellFormed;
    hide Ended, BrokenAt, BrokenStringAt, KeyAt, ItemsBytes, ErrorOf, FlawError;
    var w := SkippedRun(s, i);
    var i1 := i + |w|;
    if ParseMember(lib, s, i1).Err? {
      ms := MemberFailure(lib, s, i, w);
    } else {
      var e, w2 := EntrySound(lib, s, i, w);
      var i3 := i + EntryLength(e) + |w2|;
      if CharAt(s, i3, ',') {
        var m := EntryMember(lib, e);
        var rest := MembersFailure(lib, s, i3 + 1, Assign(res, Name(m.name), m.value));
        ms := LaterMember(e, w2, rest);
      } else {
        EntryEnds(s, i, e, w2);
        ms := NoMemberComma(e, w2);
      }
    }
  }

  lemma EntryEnds(s: string, i: nat, e: Entry, w: string)
    requires EntryAt(s, i, e, w)
    ensures At(s, i + EntryLength(e), w)
  {
  }

  lemma {:induction false} MemberFailure(lib: Library, s: string, i: nat, w: string) returns (ms: BrokenMembers)
    requires At(s, i, w) && IsSpace(w) && i + |w| <= |s| && ParseMember(lib, s, i + |w|).Err?
    requires i + |w| < |s| ==> !IsSpaceChar(s[i + |w|]) && s[i + |w|] != '}'
    ensures BrokenMembersAt(lib, s, i, ms) && ParseMember(lib, s, i + |w|) == Err(MembersError(ms))
    decreases |s| - i, 1
  {
    hide Parse, ParseElements, ParseMembers, ParseChars, ParseNumber, NextChar, SkipSpace, IsSpaceChar, IsDelimiter;
    hide At, IsSpace, BrokenAt, ItemsAt, ItemsLength, ItemsBytes, ErrorOf, FlawError, ItemsTaken, FlawAt;
    var i1 := i + |w|;
    if !CharAt(s, i1, '"') {
      ms := NoKey(w);
    } else if ParseChars(s, i1 + 1, "").Err? {
      var items, flaw := CharsFailure(s, i1 + 1, "");
      ms := BadKey(w, items, flaw);
    } else {
      var name := CharsSound(s, i1 + 1, "");
      var i2 := i1 + StringLength(name);
      var left := SkippedRun(s, i2);
      if !CharAt(s, i2 + |left|, ':') {
        ms := NoColon(w, name, left);
      } else {
        var i3 := i2 + |left| + 1;
        var right := SkippedRun(s, i3);
        var b := FailureBroken(lib, s, i3 + |right|);
        ms := BadValue(w, name, left, right, b);
      }
    }
  }

  // --- Whole texts -----------------------------------------------------------

  /** A fine value with something behind it that is no space. */
  ghost predicate GarbageAfter(lib: Library, s: string, d: Document) {
    && d.WellFormed(lib) && SpacedAt(s, 0, d.before, d.tree, d.after)
    && Ended(s, d.tree, |d.before| + TreeLength(d.tree))
    && var j := |d.before| + TreeLength(d.tree) + |d.after|;
    && j < |s| && !IsSpaceChar(s[j])
  }

  ghost predicate BreaksOff(lib: Library, s: string, w: string, b: Broken) {
    IsSpace(w) && At(s, 0, w) && BrokenAt(lib, s, |w|, b)
  }

  /** `json.decode` fails with an error exactly on the texts that break off with it, or that go on behind a value. */
  lemma DecodeFailsExactly(lib: Library, s: string, e: Error)
    ensures Decode(lib, s) == Failure(e) <==>
      || (exists w, b :: BreaksOff(lib, s, w, b) && ErrorOf(b) == e)
      || (e == TrailingGarbage && exists d :: GarbageAfter(lib, s, d))
  {
    hide Parse, NextChar, SkipSpace, BrokenAt, TreeAt, TreeLength, WellFormed, Meaning, Ended, IsSpace, At, ErrorOf;
    hide IsSpaceChar;
    if Decode(lib, s) == Failure(e) {
      var w := SkippedRun(s, 0);
      if Parse(lib, s, |w|).Err? {
        var b := FailureBroken(lib, s, |w|);
        assert BreaksOff(lib, s, w, b);
      } else {
        var t := ParseSound(lib, s, |w|);
        var after := SkippedRun(s, |w| + TreeLength(t));
        assert GarbageAfter(lib, s, Document(w, t, after));
      }
    }
    if w, b :| BreaksOff(lib, s, w, b) && ErrorOf(b) == e {
      BrokenFails(lib, s, |w|, b);
      SkipSpaceRun(s, 0, w);
    }
    if e == TrailingGarbage && exists d :: GarbageAfter(lib, s, d) {
      var d :| GarbageAfter(lib, s, d);
      SpacedParsed(lib, s, 0, d.before, d.tree, d.after);
    }
  }

  // --- One text for each error -----------------------------------------------

  lemma BrokenText(lib: Library, s: string, b: Broken)
    requires BrokenAt(lib, s, 0, b)
    ensures Decode(lib, s) == Failure(ErrorOf(b))
  {
    hide BrokenAt, ErrorOf, Decode;
    AtSlice(s, 0, "");
    SpaceNone();
    assert BreaksOff(lib, s, "", b);
    DecodeFailsExactly(lib, s, ErrorOf(b));
  }

  lemma StringErrors(lib: Library)
    ensures Decode(lib, "\"") == Failure(ExpectedClosingQuote)
    ensures Decode(lib, "\"\n\"") == Failure(ControlCharacter)
    ensures Decode(lib, "\"\\x\"") == Failure(InvalidEscape)
    ensures Decode(lib, "\"\\u00g0\"") == Failure(InvalidUnicodeEscape)
  {
    hide Decode;
    BrokenText(lib, "\"", BadString([], Unclosed));
    BrokenText(lib, "\"\n\"", BadString([], Control));
    BrokenText(lib, "\"\\x\"", BadString([], BadEscape));
    var s := "\"\\u00g0\"";
    assert s[3..7] == "00g0";
    BrokenText(lib, s, BadString([], BadHex));
  }

  lemma StartErrors(lib: Library)
    ensures Decode(lib, "") == Failure(UnexpectedCharacter) && Decode(lib, "+") == Failure(UnexpectedCharacter)
  {
    AtSlice("", 0, "");
    AtSlice("+", 0, "");
    hide Decode;
    BrokenText(lib, "", NoValue);
    BrokenText(lib, "+", NoValue);
  }

  lemma WordError(lib: Library)
    ensures Decode(lib, "nul") == Failure(InvalidLiteral)
  {
    AtSlice("nul", 0, "nul");
    hide Decode;
    BrokenText(lib, "nul", BadWord("nul"));
  }

  lemma NumberError(lib: Library, token: string)
    requires token != "" && token[0] in "-0123456789" && lib.tonumber(token) == None
    requires forall k :: 0 <= k < |token| ==> token[k] !in " \t\r\n]},"
    ensures Decode(lib, token) == Failure(InvalidNumber)
  {
    AtSlice(token, 0, token);
    assert forall c :: c in token ==> !IsDelimiter(c);
    hide Decode, IsDelimiter, At;
    BrokenText(lib, token, BadNumber(token));
  }

  lemma EmptyAt(s: string, i: nat)
    requires i <= |s|
    ensures At(s, i, "") && IsSpace("")
  {
  }

  const EMPTY_ARRAY: Tree := Array(NoElement(""))

  lemma EmptyArrayAt(lib: Library, s: string, i: nat)
    requires CharAt(s, i, '[') && CharAt(s, i + 1, ']')
    ensures TreeLength(EMPTY_ARRAY) == 2 && WellFormed(lib, EMPTY_ARRAY) && TreeAt(s, i, EMPTY_ARRAY)
    ensures FineAt(lib, s, i, "", EMPTY_ARRAY, "") && MissingAt(s, i + 2, "", "") <==>
      i + 2 == |s| || !IsSpaceChar(s[i + 2])
  {
    EmptyAt(s, i);
    EmptyAt(s, i + 1);
    EmptyAt(s, i + 2);
    assert TreeLength(EMPTY_ARRAY) == 1 + ElementsLength(NoElement(""));
    assert ElementsAt(s, i + 1, NoElement(""));
    assert ElementsWellFormed(lib, NoElement(""));
  }

  lemma ArrayErrors(lib: Library)
    ensures Decode(lib, "[[]") == Failure(ExpectedBracketOrComma)
    ensures Decode(lib, "[[]:") == Failure(ExpectedBracketOrComma)
  {
    EmptyArrayAt(lib, "[[]", 1);
    EmptyArrayAt(lib, "[[]:", 1);
    hide Decode, IsSpace, FineAt, WellFormed, TreeAt, TreeLength, SpacedAt;
    BrokenText(lib, "[[]", BadArray(NoComma("", EMPTY_ARRAY, "")));
    BrokenText(lib, "[[]:", BadArray(NoComma("", EMPTY_ARRAY, "")));
  }

  lemma ElementError(lib: Library)
    ensures Decode(lib, "[,") == Failure(UnexpectedCharacter)
  {
    EmptyAt("[,", 1);
    hide Decode, IsSpace;
    BrokenText(lib, "[,", BadArray(BadElement("", NoValue)));
  }

  lemma ObjectErrors(lib: Library)
    ensures Decode(lib, "{[") == Failure(ExpectedKey)
    ensures Decode(lib, "{\"\",") == Failure(ExpectedColon)
  {
    hide Decode, IsSpace;
    EmptyAt("{[", 1);
    BrokenText(lib, "{[", BadObject(NoKey("")));
    EmptyAt("{\"\",", 1);
    EmptyAt("{\"\",", 3);
    BrokenText(lib, "{\"\",", BadObject(NoColon("", [], "")));
  }

  lemma MemberError(lib: Library)
    ensures Decode(lib, "{\"\":[]") == Failure(ExpectedBraceOrComma)
  {
    var s := "{\"\":[]";
    var e := Entry("", [], "", "", EMPTY_ARRAY);
    EmptyArrayAt(lib, s, 4);
    EmptyAt(s, 1);
    EmptyAt(s, 3);
    EmptyAt(s, 4);
    EmptyAt(s, 6);
    assert StringLength([]) == 2 && StringAt(s, 1, []) && EntryLength(e) == 5;
    assert EntryWellFormed(lib, e);
    hide Decode, IsSpace, WellFormed, TreeAt, TreeLength, StringAt, StringLength;
    assert FineEntryAt(lib, s, 1, e, "");
    assert MissingAt(s, 6, "", "},");
    BrokenText(lib, s, BadObject(NoMemberComma(e, "")));
  }

  lemma GarbageError(lib: Library)
    ensures Decode(lib, "[]]") == Failure(TrailingGarbage)
  {
    EmptyArrayAt(lib, "[]]", 0);
    hide Decode, IsSpace, WellFormed, TreeAt, TreeLength;
    assert GarbageAfter(lib, "[]]", Document("", EMPTY_ARRAY, ""));
    DecodeFailsExactly(lib, "[]]", TrailingGarbage);
  }
}
