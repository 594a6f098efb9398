/** The texts `json.encode` produces, and that decoding them gives the encoded value back. */
module JsonPrinter {
  import opened Text
  import opened JsonValue
  import opened JsonSyntax
  import opened JsonParser
  import opened JsonAgreement

  /** A finite value unfolded as the encoder walks it: `fields` lists an object's keys in the order
      in which `pairs` happens to give them. The empty table is `Arr([])`. */
  datatype Doc =
    | Null
    | Bool(b: bool)
    | Num(x: real)
    | Str(s: string)
    | Arr(docs: seq<Doc>)
    | Obj(fields: seq<Field>)

  datatype Field = Field(name: string, value: Doc)

  // --- Texts -----------------------------------------------------------------

  /** The characters that `gsub` replaces in `encode_string`. */
  predicate NeedsEscape(c: char) {
    c as int < 32 || c == '\\' || c == '"'
  }

  function LowerHex(d: int): (c: char)
    requires 0 <= d < 16
    ensures IsHexDigit(c) && HexDigitValue(c) == d
  {
    if d < 10 then Digit(d) else ('a' as int + d - 10) as char
  }

  /** `escape_char`: a short escape if there is one, else `\u%04x` of the byte. */
  function EscapeChar(c: char): string
    requires NeedsEscape(c)
  {
    if c == '\\' || c == '"' then ['\\', c]
    else if c as int == 8 then "\\b"
    else if c as int == 12 then "\\f"
    else if c == '\n' then "\\n"
    else if c == '\r' then "\\r"
    else if c == '\t' then "\\t"
    else "\\u" + ['0', '0', LowerHex(c as int / 16), LowerHex(c as int % 16)]
  }

  function EscapeChars(s: string): string {
    if s == "" then ""
    else (if NeedsEscape(s[0]) then EscapeChar(s[0]) else [s[0]]) + EscapeChars(s[1..])
  }

  function EncodeString(s: string): string {
    "\"" + EscapeChars(s) + "\""
  }

  /** Text that needs no escape is printed as it is. */
  lemma {:induction false} PlainText(s: string)
    requires forall k :: 0 <= k < |s| ==> s[k] as int >= 32 && s[k] != '"' && s[k] != '\\'
    ensures EncodeString(s) == "\"" + s + "\""
  {
    PlainChars(s);
  }

  lemma {:induction false} PlainChars(s: string)
    requires forall k :: 0 <= k < |s| ==> s[k] as int >= 32 && s[k] != '"' && s[k] != '\\'
    ensures EscapeChars(s) == s
  {
    if s != "" {
      PlainChars(s[1..]);
      assert s == [s[0]] + s[1..];
    }
  }

  /** The printed text of one character that is escaped: seven short escapes, and two hex digits for the other
      control characters. */
  lemma EscapedText(c: char)
    requires c as int < 32 || c == '"' || c == '\\'
    ensures EscapeChars([c]) ==
      if c == '"' then "\\\""
      else if c == '\\' then "\\\\"
      else if c as int == 8 then "\\b"
      else if c as int == 9 then "\\t"
      else if c as int == 10 then "\\n"
      else if c as int == 12 then "\\f"
      else if c as int == 13 then "\\r"
      else "\\u00" + ["01"[c as int / 16], "0123456789abcdef"[c as int % 16]]
  {
    assert [c][1..] == "" && EscapeChars([c]) == EscapeChar(c) + "";
    assert EscapeChar(c) + "" == EscapeChar(c);
    LowerHexLetter(c as int % 16);
    if c as int < 32 {
      LowerHexLetter(c as int / 16);
      assert c as int / 16 == 0 || c as int / 16 == 1;
    }
    hide LowerHex;
  }

  lemma LowerHexLetter(d: int)
    requires 0 <= d < 16
    ensures LowerHex(d) == "0123456789abcdef"[d]
  {
    assert d == 0 || d == 1 || d == 2 || d == 3 || d == 4 || d == 5 || d == 6 || d == 7
      || d == 8 || d == 9 || d == 10 || d == 11 || d == 12 || d == 13 || d == 14 || d == 15;
  }

  /** Strings are escaped character by character. */
  lemma {:induction false} EscapeCharsAppend(a: string, b: string)
    ensures EscapeChars(a + b) == EscapeChars(a) + EscapeChars(b)
    ensures EncodeString(a) == "\"" + EscapeChars(a) + "\""
  {
    hide EscapeChar, NeedsEscape;
    if a == "" {
      assert a + b == b;
    } else {
      assert (a + b)[1..] == a[1..] + b;
      EscapeCharsAppend(a[1..], b);
    }
  }

  function DocText(lib: Library, d: Doc): string
    decreases d, 1
  {
    match d
    case Null => "null"
    case Bool(b) => if b then "true" else "false"
    case Num(x) => lib.format(x)
    case Str(s) => EncodeString(s)
    case Arr(docs) => "[" + Join(DocTexts(lib, docs), ",") + "]"
    case Obj(fields) => "{" + Join(FieldTexts(lib, fields), ",") + "}"
  }

  function DocTexts(lib: Library, docs: seq<Doc>): (r: seq<string>)
    ensures |r| == |docs|
    decreases docs, 0
  {
    if docs == [] then [] else [DocText(lib, docs[0])] + DocTexts(lib, docs[1..])
  }

  function FieldText(lib: Library, f: Field): string
    decreases f, 2
  {
    EncodeString(f.name) + ":" + DocText(lib, f.value)
  }

  function FieldTexts(lib: Library, fields: seq<Field>): (r: seq<string>)
    ensures |r| == |fields|
    decreases fields, 0
  {
    if fields == [] then [] else [FieldText(lib, fields[0])] + FieldTexts(lib, fields[1..])
  }

  // --- The derivation of a printed text --------------------------------------

  function CharItem(c: char): Item {
    if !NeedsEscape(c) then Raw(c)
    else if c == '\\' || c == '"' then Short(c)
    else if c as int == 8 then Short('b')
    else if c as int == 12 then Short('f')
    else if c == '\n' then Short('n')
    else if c == '\r' then Short('r')
    else if c == '\t' then Short('t')
    else Unicode(['0', '0', LowerHex(c as int / 16), LowerHex(c as int % 16)])
  }

  function CharItems(s: string): (r: seq<Item>)
    ensures |r| == |s| && forall k :: 0 <= k < |s| ==> r[k] == CharItem(s[k])
  {
    if s == "" then [] else [CharItem(s[0])] + CharItems(s[1..])
  }

  function TreeOf(lib: Library, d: Doc): Tree
    decreases d, 1
  {
    match d
    case Null => Literal("null")
    case Bool(b) => Literal(if b then "true" else "false")
    case Num(x) => Numeral(lib.format(x))
    case Str(s) => Quoted(CharItems(s))
    case Arr(docs) => Array(ElementsOf(lib, docs))
    case Obj(fields) => Object(MembersOf(lib, fields))
  }

  function ElementsOf(lib: Library, docs: seq<Doc>): Elements
    decreases docs, 0
  {
    if docs == [] then NoElement("")
    else if |docs| == 1 then LastElement("", TreeOf(lib, docs[0]), "")
    else MoreElements("", TreeOf(lib, docs[0]), "", ElementsOf(lib, docs[1..]))
  }

  function EntryOf(lib: Library, f: Field): Entry
    decreases f, 2
  {
    Entry("", CharItems(f.name), "", "", TreeOf(lib, f.value))
  }

  function MembersOf(lib: Library, fields: seq<Field>): Members
    decreases fields, 0
  {
    if fields == [] then NoMember("")
    else if |fields| == 1 then LastMember(EntryOf(lib, fields[0]), "")
    else MoreMembers(EntryOf(lib, fields[0]), "", MembersOf(lib, fields[1..]))
  }

  lemma CharItemText(c: char)
    ensures ItemText(CharItem(c)) == if NeedsEscape(c) then EscapeChar(c) else [c]
    ensures ItemWellFormed(CharItem(c)) && ItemBytes(CharItem(c)) == [c]
    ensures CharItem(c).Unicode? ==> !IsHighHex(CharItem(c).hex)
  {
    if CharItem(c).Unicode? {
      var h := CharItem(c).hex;
      assert HexDigitValue('0') == 0;
      assert Hex4Value(h) == c as int / 16 * 16 + c as int % 16 == c as int;
    }
  }

  lemma {:induction false} CharItemsText(s: string)
    ensures ItemsText(CharItems(s)) == EscapeChars(s)
    ensures ItemsWellFormed(CharItems(s)) && ItemsBytes(CharItems(s)) == s
  {
    hide CharItem, ItemText, ItemWellFormed, ItemBytes, EscapeChar, NeedsEscape, IsHighHex;
    forall k | 0 <= k < |s|
      ensures ItemWellFormed(CharItem(s[k])) && (CharItem(s[k]).Unicode? ==> !IsHighHex(CharItem(s[k]).hex))
    {
      CharItemText(s[k]);
    }
    if s != "" {
      CharItemText(s[0]);
      CharItemsText(s[1..]);
      assert CharItems(s)[1..] == CharItems(s[1..]);
      assert s == [s[0]] + s[1..];
    }
  }

  lemma {:induction false} TreeOfText(lib: Library, d: Doc)
    ensures TreeText(TreeOf(lib, d)) == DocText(lib, d)
    decreases d, 1
  {
    hide CharItems, EscapeChars, ItemsText, Join;
    match d
    case Str(s) => CharItemsText(s);
    case Arr(docs) =>
      ElementsOfText(lib, docs);
      AppendAssociative("[", Join(DocTexts(lib, docs), ","), "]");
    case Obj(fields) =>
      MembersOfText(lib, fields);
      AppendAssociative("{", Join(FieldTexts(lib, fields), ","), "}");
    case _ =>
  }

  lemma {:induction false} ElementsOfText(lib: Library, docs: seq<Doc>)
    ensures ElementsText(ElementsOf(lib, docs)) == Join(DocTexts(lib, docs), ",") + "]"
    decreases docs, 0
  {
    hide TreeText, TreeOf, DocText;
    if docs != [] {
      var head, texts := DocText(lib, docs[0]), DocTexts(lib, docs);
      TreeOfText(lib, docs[0]);
      assert "" + head + "" == head;
      if |docs| > 1 {
        ElementsOfText(lib, docs[1..]);
        assert texts[1..] == DocTexts(lib, docs[1..]);
        AppendAssociative(head + ",", Join(texts[1..], ","), "]");
      }
    }
  }

  lemma {:induction false} MembersOfText(lib: Library, fields: seq<Field>)
    ensures MembersText(MembersOf(lib, fields)) == Join(FieldTexts(lib, fields), ",") + "}"
    decreases fields, 0
  {
    hide TreeText, TreeOf, DocText, ItemsText, EscapeChars;
    if fields != [] {
      var f, texts := fields[0], FieldTexts(lib, fields);
      TreeOfText(lib, f.value);
      CharItemsText(f.name);
      var head := FieldText(lib, f);
      assert EntryText(EntryOf(lib, f)) == head;
      assert head + "" == head;
      if |fields| > 1 {
        MembersOfText(lib, fields[1..]);
        assert texts[1..] == FieldTexts(lib, fields[1..]);
        AppendAssociative(head + ",", Join(texts[1..], ","), "}");
      }
    }
  }

  // --- Meaning ---------------------------------------------------------------

  /** `format` prints `x` as a number token that `tonumber` reads back as `x`. */
  ghost predicate Faithful(lib: Library, x: real) {
    IsNumberToken(lib, lib.format(x)) && lib.tonumber(lib.format(x)) == Some(x)
  }

  ghost predicate AllFaithful(lib: Library, d: Doc) {
    match d
    case Num(x) => Faithful(lib, x)
    case Arr(docs) => forall k :: 0 <= k < |docs| ==> AllFaithful(lib, docs[k])
    case Obj(fields) => forall k :: 0 <= k < |fields| ==> AllFaithful(lib, fields[k].value)
    case _ => true
  }

  /** `d` is an unfolding of the value `v`, with each object's keys in some order. */
  ghost predicate Represents(v: Value, d: Doc)
    decreases d
  {
    match d
    case Null => v == Nil
    case Bool(b) => v == Boolean(b)
    case Num(x) => v == Number(x)
    case Str(s) => v == String(s)
    case Arr(docs) =>
      && v.Table?
      && (forall key :: key in v.fields <==> key.Index? && 1 <= key.i <= |docs|)
      && forall k :: 0 <= k < |docs| ==> docs[k] != Null && Represents(v.fields[Index(k + 1)], docs[k])
    case Obj(fields) =>
      && v.Table? && fields != []
      && (forall j, k :: 0 <= j < k < |fields| ==> fields[j].name != fields[k].name)
      && (forall key :: key in v.fields <==> key.Name? && exists k :: 0 <= k < |fields| && fields[k].name == key.s)
      && forall k :: 0 <= k < |fields| ==>
           fields[k].value != Null && Represents(v.fields[Name(fields[k].name)], fields[k].value)
  }

  /** The elements of a list table, in order. */
  ghost function ListValues(t: map<Key, Value>, from: nat, n: nat): (r: seq<Value>)
    requires forall k :: from < k <= n ==> Index(k) in t
    ensures |r| == if from < n then n - from else 0
    ensures forall k :: 0 <= k < |r| ==> r[k] == t[Index(from + k + 1)]
    decreases n - from
  {
    if from >= n then [] else [t[Index(from + 1)]] + ListValues(t, from + 1, n)
  }

  ghost function FieldMembers(t: map<Key, Value>, fields: seq<Field>): (r: seq<Member>)
    requires forall k :: 0 <= k < |fields| ==> Name(fields[k].name) in t
    ensures |r| == |fields|
    ensures forall k :: 0 <= k < |r| ==> r[k] == JsonValue.Member(fields[k].name, t[Name(fields[k].name)])
  {
    if fields == [] then []
    else [JsonValue.Member(fields[0].name, t[Name(fields[0].name)])] + FieldMembers(t, fields[1..])
  }

  lemma NotNil(v: Value, d: Doc)
    requires Represents(v, d) && d != Null
    ensures v != Nil
  {
  }

  /** A list table is the table its element list denotes. */
  lemma ListTable(t: map<Key, Value>, vs: seq<Value>)
    requires forall key :: key in t <==> key.Index? && 1 <= key.i <= |vs|
    requires forall k :: 0 <= k < |vs| ==> vs[k] != Nil && t[Index(k + 1)] == vs[k]
    ensures t == ArrayTable(vs)
  {
    forall key ensures Read(t, key) == Read(ArrayTable(vs), key) && (key in t <==> key in ArrayTable(vs)) {
      if key.Index? {
        ArrayTableRead(vs, key.i);
        if 1 <= key.i <= |vs| {
          assert vs[key.i - 1] != Nil && t[Index(key.i - 1 + 1)] == vs[key.i - 1];
        }
      }
    }
  }

  lemma {:induction false} LastOfDistinct(ms: seq<Member>, k: nat)
    requires forall i, j :: 0 <= i < j < |ms| ==> ms[i].name != ms[j].name
    requires k < |ms|
    ensures LastValue(ms, ms[k].name) == ms[k].value
    decreases |ms|
  {
    if k < |ms| - 1 {
      LastOfDistinct(ms[..|ms| - 1], k);
    }
  }

  /** A table keyed by distinct names is the table its member list denotes, in any order. */
  lemma NamedTable(t: map<Key, Value>, ms: seq<Member>)
    requires forall i, j :: 0 <= i < j < |ms| ==> ms[i].name != ms[j].name
    requires forall key :: key in t <==> key.Name? && exists k :: 0 <= k < |ms| && ms[k].name == key.s
    requires forall k :: 0 <= k < |ms| ==> ms[k].value != Nil && t[Name(ms[k].name)] == ms[k].value
    ensures t == ObjectTable(ms)
  {
    forall key ensures Read(t, key) == Read(ObjectTable(ms), key) && (key in t <==> key in ObjectTable(ms)) {
      if key.Name? {
        ObjectTableRead(ms, key.s);
        if k :| 0 <= k < |ms| && ms[k].name == key.s {
          LastOfDistinct(ms, k);
        } else {
          assert key.s !in Names(ms);
          LastValueAbsent(ms, key.s);
        }
      }
    }
  }

  lemma ListOf(v: Value, docs: seq<Doc>) returns (vs: seq<Value>)
    requires Represents(v, Arr(docs))
    ensures |vs| == |docs| && forall k :: 0 <= k < |docs| ==> Represents(vs[k], docs[k])
    ensures v == Table(ArrayTable(vs))
  {
    hide ArrayTable;
    vs := ListValues(v.fields, 0, |docs|);
    forall k | 0 <= k < |docs|
      ensures Represents(vs[k], docs[k]) && vs[k] != Nil && v.fields[Index(k + 1)] == vs[k]
    {
      NotNil(vs[k], docs[k]);
    }
    ListTable(v.fields, vs);
  }

  lemma SameNames(t: map<Key, Value>, fields: seq<Field>, ms: seq<Member>)
    requires |ms| == |fields| && forall k :: 0 <= k < |ms| ==> ms[k].name == fields[k].name
    requires forall key :: key in t <==> key.Name? && exists k :: 0 <= k < |fields| && fields[k].name == key.s
    ensures forall key :: key in t <==> key.Name? && exists k :: 0 <= k < |ms| && ms[k].name == key.s
  {
    forall key ensures key in t <==> key.Name? && exists k :: 0 <= k < |ms| && ms[k].name == key.s {
      if key.Name? && exists k :: 0 <= k < |fields| && fields[k].name == key.s {
        var k :| 0 <= k < |fields| && fields[k].name == key.s;
        assert ms[k].name == key.s;
      }
      if key.Name? && exists k :: 0 <= k < |ms| && ms[k].name == key.s {
        var k :| 0 <= k < |ms| && ms[k].name == key.s;
        assert fields[k].name == key.s;
      }
    }
  }

  lemma MembersOfFields(v: Value, fields: seq<Field>) returns (ms: seq<Member>)
    requires Represents(v, Obj(fields))
    ensures |ms| == |fields|
    ensures forall k :: 0 <= k < |fields| ==>
      ms[k].name == fields[k].name && Represents(ms[k].value, fields[k].value)
    ensures v == Table(ObjectTable(ms))
  {
    hide ObjectTable;
    ms := FieldMembers(v.fields, fields);
    forall k | 0 <= k < |fields|
      ensures ms[k].name == fields[k].name && Represents(ms[k].value, fields[k].value) && ms[k].value != Nil
    {
      NotNil(ms[k].value, fields[k].value);
    }
    SameNames(v.fields, fields, ms);
    NamedTable(v.fields, ms);
  }

  lemma {:induction false} TreeOfMeaning(lib: Library, v: Value, d: Doc)
    requires Represents(v, d) && AllFaithful(lib, d)
    ensures WellFormed(lib, TreeOf(lib, d)) && Meaning(lib, TreeOf(lib, d)) == v
    decreases d, 1
  {
    hide ItemsWellFormed, ItemsBytes, CharItems, ArrayTable, ObjectTable, ElementsOf, MembersOf;
    match d
    case Str(s) => CharItemsText(s);
    case Arr(docs) =>
      var vs := ListOf(v, docs);
      ElementsOfMeaning(lib, vs, docs);
    case Obj(fields) =>
      var ms := MembersOfFields(v, fields);
      MembersOfMeaning(lib, ms, fields);
    case _ =>
  }

  lemma {:induction false} ElementsOfMeaning(lib: Library, vs: seq<Value>, docs: seq<Doc>)
    requires |vs| == |docs|
    requires forall k :: 0 <= k < |docs| ==> Represents(vs[k], docs[k]) && AllFaithful(lib, docs[k])
    ensures ElementsWellFormed(lib, ElementsOf(lib, docs))
    ensures ElementValues(lib, ElementsOf(lib, docs)) == vs
    decreases docs, 0
  {
    hide WellFormed, Meaning, Represents, AllFaithful, TreeOf;
    if docs != [] {
      TreeOfMeaning(lib, vs[0], docs[0]);
      assert vs == [vs[0]] + vs[1..];
      if |docs| > 1 {
        ElementsOfMeaning(lib, vs[1..], docs[1..]);
      }
    }
  }

  lemma {:induction false} MembersOfMeaning(lib: Library, ms: seq<Member>, fields: seq<Field>)
    requires |ms| == |fields|
    requires forall k :: 0 <= k < |fields| ==>
      && ms[k].name == fields[k].name && Represents(ms[k].value, fields[k].value)
      && AllFaithful(lib, fields[k].value)
    ensures MembersWellFormed(lib, MembersOf(lib, fields))
    ensures MemberValues(lib, MembersOf(lib, fields)) == ms
    decreases fields, 0
  {
    hide WellFormed, Meaning, Represents, AllFaithful, TreeOf, ItemsWellFormed, ItemsBytes, CharItems;
    if fields != [] {
      assert ms[0].name == fields[0].name;
      TreeOfMeaning(lib, ms[0].value, fields[0].value);
      CharItemsText(fields[0].name);
      assert ms == [ms[0]] + ms[1..];
      if |fields| > 1 {
        MembersOfMeaning(lib, ms[1..], fields[1..]);
      }
    }
  }

  // --- Round trip ------------------------------------------------------------

  /** Decoding an encoded value gives the value back, in whatever order `pairs` listed the keys. */
  lemma RoundTrip(lib: Library, v: Value, d: Doc)
    requires Represents(v, d) && AllFaithful(lib, d)
    ensures Decode(lib, DocText(lib, d)) == Decoded.Value(v)
  {
    hide WellFormed, Meaning, Represents, AllFaithful, TreeOf, TreeText, Decode;
    TreeOfMeaning(lib, v, d);
    TreeOfText(lib, d);
    var doc := Document("", TreeOf(lib, d), "");
    assert "" + DocText(lib, d) + "" == DocText(lib, d);
    DecodeComplete(lib, doc);
  }

  /** The same inside a larger text: the parser consumes exactly the encoded value whenever what
      follows is nothing or a delimiter. */
  lemma RoundTripInContext(lib: Library, v: Value, d: Doc, prefix: string, suffix: string)
    requires Represents(v, d) && AllFaithful(lib, d)
    requires suffix == "" || IsDelimiter(suffix[0])
    ensures Parse(lib, prefix + DocText(lib, d) + suffix, |prefix|) == Ok(v, |prefix + DocText(lib, d)|)
  {
    hide WellFormed, Meaning, Represents, AllFaithful, TreeOf, TreeText, Parse;
    TreeOfMeaning(lib, v, d);
    TreeOfText(lib, d);
    var s := prefix + DocText(lib, d) + suffix;
    AtSlice(s, |prefix|, DocText(lib, d));
    JsonSpans.TreeSpan(s, |prefix|, TreeOf(lib, d));
    assert suffix != "" ==> s[|prefix + DocText(lib, d)|] == suffix[0];
    ParseComplete(lib, s, |prefix|, TreeOf(lib, d));
  }

  /** Different values never share an encoding. */
  lemma EncodingInjective(lib: Library, v1: Value, d1: Doc, v2: Value, d2: Doc)
    requires Represents(v1, d1) && AllFaithful(lib, d1)
    requires Represents(v2, d2) && AllFaithful(lib, d2)
    requires DocText(lib, d1) == DocText(lib, d2)
    ensures v1 == v2
  {
    hide *;
    RoundTrip(lib, v1, d1);
    RoundTrip(lib, v2, d2);
  }

  // --- Integers --------------------------------------------------------------

  /** An optional minus and decimal digits. */
  predicate IsIntegerToken(t: string) {
    && t != "" && t != "-"
    && forall k :: 0 <= k < |t| ==> IsDigit(t[k]) || (k == 0 && t[0] == '-')
  }

  /** What C promises of the two conversions for integers of at most 14 digits. Longer ones are left open: a double
      cannot hold them all. */
  ghost predicate CIntegers(lib: Library) {
    && (forall n: int :: -100000000000000 < n < 100000000000000 ==> lib.format(n as real) == Integer(n))
    && forall t :: IsIntegerToken(t) && -100000000000000 < ReadInteger(t) < 100000000000000 ==>
         lib.tonumber(t) == Some(ReadInteger(t) as real)
  }

  lemma IntegersFaithful(lib: Library, n: int)
    requires CIntegers(lib) && -100000000000000 < n < 100000000000000
    ensures Faithful(lib, n as real)
  {
    var t := Integer(n);
    forall k | 0 <= k < |t| ensures IsDigit(t[k]) || (k == 0 && t[0] == '-') {
      if n < 0 && k > 0 {
        assert t[k] == Natural(-n)[k - 1] && Natural(-n)[k - 1] in Natural(-n);
      } else if n >= 0 {
        assert t[k] in Natural(n);
      }
    }
    assert n < 0 ==> |t| == 1 + |Natural(-n)|;
    assert IsIntegerToken(t);
    ReadIntegerInverse(n);
    assert t == lib.format(n as real);
  }

  /** Every number in `d` is an integer of at most 14 digits. */
  ghost predicate AllIntegers(d: Doc) {
    match d
    case Num(x) => x == x.Floor as real && -100000000000000 < x.Floor && x.Floor < 100000000000000
    case Arr(docs) => forall k :: 0 <= k < |docs| ==> AllIntegers(docs[k])
    case Obj(fields) => forall k :: 0 <= k < |fields| ==> AllIntegers(fields[k].value)
    case _ => true
  }

  lemma {:induction false} AllIntegersFaithful(lib: Library, d: Doc)
    requires CIntegers(lib) && AllIntegers(d)
    ensures AllFaithful(lib, d)
    decreases d
  {
    hide CIntegers, Faithful;
    match d
    case Num(x) => IntegersFaithful(lib, x.Floor);
    case Arr(docs) =>
      forall k | 0 <= k < |docs| ensures AllFaithful(lib, docs[k]) {
        AllIntegersFaithful(lib, docs[k]);
      }
    case Obj(fields) =>
      forall k | 0 <= k < |fields| ensures AllFaithful(lib, fields[k].value) {
        AllIntegersFaithful(lib, fields[k].value);
      }
    case _ =>
  }

  /** The round trip without a condition on single numbers, for values whose numbers are such integers. */
  lemma IntegerRoundTrip(lib: Library, v: Value, d: Doc)
    requires CIntegers(lib) && Represents(v, d) && AllIntegers(d)
    ensures Decode(lib, DocText(lib, d)) == Decoded.Value(v)
  {
    hide CIntegers, Represents, AllIntegers, AllFaithful, DocText, Decode;
    AllIntegersFaithful(lib, d);
    RoundTrip(lib, v, d);
  }

  /** That promise can be kept. */
  lemma CIntegersExist() returns (lib: Library)
    ensures CIntegers(lib)
  {
    lib := Library(
      (t: string) => if IsIntegerToken(t) then Some(ReadInteger(t) as real) else None,
      (x: real) => Integer(x.Floor));
    forall n: int ensures lib.format(n as real) == Integer(n) {
      assert (n as real).Floor == n;
    }
  }
}
