/** A declarative grammar of the texts `json.decode` accepts, as concrete syntax trees.
    It is RFC 8259 sections 2 to 7 with these differences: a trailing comma may follow the last
    element or member, number tokens are the ones `tonumber` reads, a string may hold any byte from
    32 up, and two escapes that pair up must stay inside the code space. */
module JsonSyntax {
  import opened Text
  import opened JsonValue
  import Utf8

  predicate IsSpaceChar(c: char) {
    c == ' ' || c == '\t' || c == '\r' || c == '\n'
  }

  predicate IsDelimiter(c: char) {
    IsSpaceChar(c) || c == ']' || c == '}' || c == ','
  }

  ghost predicate IsSpace(w: string) {
    forall c :: c in w ==> IsSpaceChar(c)
  }

  // --- String contents -------------------------------------------------------

  /** One character of a string literal as it is spelled. */
  datatype Item =
    | Raw(c: char)
    | Short(c: char)
    | Unicode(hex: string)
    | Pair(high: string, low: string)

  predicate IsHexDigit(c: char) {
    '0' <= c <= '9' || 'a' <= c <= 'f' || 'A' <= c <= 'F'
  }

  function HexDigitValue(c: char): (v: nat)
    requires IsHexDigit(c)
    ensures v < 16
  {
    if c <= '9' then c as int - '0' as int
    else if c <= 'F' then c as int - 'A' as int + 10
    else c as int - 'a' as int + 10
  }

  predicate IsHex4(h: string) {
    |h| == 4 && IsHexDigit(h[0]) && IsHexDigit(h[1]) && IsHexDigit(h[2]) && IsHexDigit(h[3])
  }

  function Hex4Value(h: string): (v: nat)
    requires IsHex4(h)
    ensures v <= 0xFFFF
  {
    ((HexDigitValue(h[0]) * 16 + HexDigitValue(h[1])) * 16 + HexDigitValue(h[2])) * 16 + HexDigitValue(h[3])
  }

  /** A \u escape that names a high surrogate, 0xD800 to 0xDBFF. */
  predicate IsHighHex(h: string) {
    IsHex4(h) && 0xD800 <= Hex4Value(h) <= 0xDBFF
  }

  /** The code point of a pair of \u escapes (RFC 2781 section 2.2, with no check of the low half). */
  function PairCodepoint(high: string, low: string): (n: nat)
    requires IsHighHex(high) && IsHex4(low)
  {
    (Hex4Value(high) - 0xD800) * 0x400 + Hex4Value(low) - 0xDC00 + 0x10000
  }

  predicate IsShortEscape(c: char) {
    c == '\\' || c == '/' || c == '"' || c == 'b' || c == 'f' || c == 'n' || c == 'r' || c == 't'
  }

  function Unescape(c: char): char
    requires IsShortEscape(c)
  {
    match c
    case 'b' => 8 as char
    case 'f' => 12 as char
    case 'n' => '\n'
    case 'r' => '\r'
    case 't' => '\t'
    case _ => c
  }

  function EscapeText(hex: string): string {
    "\\u" + hex
  }

  function ItemText(item: Item): string {
    match item
    case Raw(c) => [c]
    case Short(c) => ['\\', c]
    case Unicode(h) => EscapeText(h)
    case Pair(h, l) => EscapeText(h) + EscapeText(l)
  }

  ghost predicate ItemWellFormed(item: Item) {
    match item
    case Raw(c) => c as int >= 32 && c != '"' && c != '\\'
    case Short(c) => IsShortEscape(c)
    case Unicode(h) => IsHex4(h)
    case Pair(h, l) => IsHighHex(h) && IsHex4(l) && PairCodepoint(h, l) <= 0x10FFFF
  }

  /** The bytes the item stands for. */
  function ItemBytes(item: Item): string
    requires ItemWellFormed(item)
  {
    match item
    case Raw(c) => [c]
    case Short(c) => [Unescape(c)]
    case Unicode(h) => Utf8.CodepointToUtf8(Hex4Value(h)).value
    case Pair(h, l) => Utf8.CodepointToUtf8(PairCodepoint(h, l)).value
  }

  function ItemsText(items: seq<Item>): string {
    if items == [] then "" else ItemText(items[0]) + ItemsText(items[1..])
  }

  /** Items are well-formed, and an escaped high surrogate directly followed by another \u escape
      is always spelled as a `Pair`. */
  ghost predicate ItemsWellFormed(items: seq<Item>) {
    && (forall item :: item in items ==> ItemWellFormed(item))
    && forall k :: 0 <= k < |items| - 1 && items[k].Unicode? && IsHighHex(items[k].hex) ==>
         items[k + 1].Raw? || items[k + 1].Short?
  }

  function ItemsBytes(items: seq<Item>): string
    requires forall item :: item in items ==> ItemWellFormed(item)
  {
    if items == [] then "" else ItemBytes(items[0]) + ItemsBytes(items[1..])
  }

  function StringText(items: seq<Item>): string {
    "\"" + ItemsText(items) + "\""
  }

  // --- Values ----------------------------------------------------------------

  datatype Tree =
    | Numeral(token: string)
    | Literal(word: string)
    | Quoted(items: seq<Item>)
    | Array(elements: Elements)
    | Object(members: Members)

  /** What follows `[` or a comma, up to and including `]`. */
  datatype Elements =
    | NoElement(space: string)
    | LastElement(before: string, value: Tree, after: string)
    | MoreElements(before: string, value: Tree, after: string, rest: Elements)

  /** What follows `{` or a comma, up to and including `}`. */
  datatype Members =
    | NoMember(space: string)
    | LastMember(entry: Entry, after: string)
    | MoreMembers(entry: Entry, after: string, rest: Members)

  datatype Entry = Entry(before: string, name: seq<Item>, left: string, right: string, value: Tree)

  function TreeText(t: Tree): string {
    match t
    case Numeral(token) => token
    case Literal(word) => word
    case Quoted(items) => StringText(items)
    case Array(es) => "[" + ElementsText(es)
    case Object(ms) => "{" + MembersText(ms)
  }

  function ElementsText(es: Elements): string {
    match es
    case NoElement(w) => w + "]"
    case LastElement(w1, v, w2) => w1 + TreeText(v) + w2 + "]"
    case MoreElements(w1, v, w2, rest) => w1 + TreeText(v) + w2 + "," + ElementsText(rest)
  }

  function EntryText(e: Entry): string {
    e.before + StringText(e.name) + e.left + ":" + e.right + TreeText(e.value)
  }

  function MembersText(ms: Members): string {
    match ms
    case NoMember(w) => w + "}"
    case LastMember(e, w) => EntryText(e) + w + "}"
    case MoreMembers(e, w, rest) => EntryText(e) + w + "," + MembersText(rest)
  }

  predicate IsLiteral(word: string) {
    word == "true" || word == "false" || word == "null"
  }

  predicate StartsNumber(c: char) {
    IsDigit(c) || c == '-'
  }

  ghost predicate IsNumberToken(lib: Library, token: string) {
    && token != "" && StartsNumber(token[0])
    && (forall c :: c in token ==> !IsDelimiter(c))
    && lib.tonumber(token).Some?
  }

  ghost predicate WellFormed(lib: Library, t: Tree) {
    match t
    case Numeral(token) => IsNumberToken(lib, token)
    case Literal(word) => IsLiteral(word)
    case Quoted(items) => ItemsWellFormed(items)
    case Array(es) => ElementsWellFormed(lib, es)
    case Object(ms) => MembersWellFormed(lib, ms)
  }

  ghost predicate ElementsWellFormed(lib: Library, es: Elements) {
    match es
    case NoElement(w) => IsSpace(w)
    case LastElement(w1, v, w2) => IsSpace(w1) && WellFormed(lib, v) && IsSpace(w2)
    case MoreElements(w1, v, w2, rest) =>
      IsSpace(w1) && WellFormed(lib, v) && IsSpace(w2) && ElementsWellFormed(lib, rest)
  }

  ghost predicate EntryWellFormed(lib: Library, e: Entry) {
    && IsSpace(e.before) && ItemsWellFormed(e.name) && IsSpace(e.left) && IsSpace(e.right)
    && WellFormed(lib, e.value)
  }

  ghost predicate MembersWellFormed(lib: Library, ms: Members) {
    match ms
    case NoMember(w) => IsSpace(w)
    case LastMember(e, w) => EntryWellFormed(lib, e) && IsSpace(w)
    case MoreMembers(e, w, rest) => EntryWellFormed(lib, e) && IsSpace(w) && MembersWellFormed(lib, rest)
  }

  // --- Meaning ---------------------------------------------------------------

  function LiteralValue(word: string): Value {
    if word == "true" then Boolean(true) else if word == "false" then Boolean(false) else Nil
  }

  ghost function Meaning(lib: Library, t: Tree): Value
    requires WellFormed(lib, t)
  {
    match t
    case Numeral(token) => Number(lib.tonumber(token).value)
    case Literal(word) => LiteralValue(word)
    case Quoted(items) => String(ItemsBytes(items))
    case Array(es) => Table(ArrayTable(ElementValues(lib, es)))
    case Object(ms) => Table(ObjectTable(MemberValues(lib, ms)))
  }

  ghost function ElementValues(lib: Library, es: Elements): seq<Value>
    requires ElementsWellFormed(lib, es)
  {
    match es
    case NoElement(_) => []
    case LastElement(_, v, _) => [Meaning(lib, v)]
    case MoreElements(_, v, _, rest) => [Meaning(lib, v)] + ElementValues(lib, rest)
  }

  ghost function EntryMember(lib: Library, e: Entry): JsonValue.Member
    requires EntryWellFormed(lib, e)
  {
    JsonValue.Member(ItemsBytes(e.name), Meaning(lib, e.value))
  }

  ghost function MemberValues(lib: Library, ms: Members): seq<JsonValue.Member>
    requires MembersWellFormed(lib, ms)
  {
    match ms
    case NoMember(_) => []
    case LastMember(e, _) => [EntryMember(lib, e)]
    case MoreMembers(e, _, rest) => [EntryMember(lib, e)] + MemberValues(lib, rest)
  }

  // --- The characters by their letters ---------------------------------------

  /** The sets `space_chars`, `delim_chars` and `escape_chars` of the source, the characters that open a number, and the
      pattern class `%x`. */
  lemma CharacterSets(c: char)
    ensures IsSpaceChar(c) <==> c in " \t\r\n"
    ensures IsDelimiter(c) <==> c in " \t\r\n]},"
    ensures IsShortEscape(c) <==> c in "\\/\"bfnrt"
    ensures StartsNumber(c) <==> c in "-0123456789"
    ensures IsHexDigit(c) <==> c in "0123456789" || c in "abcdef" || c in "ABCDEF"
  {
    DigitLetters(c);
  }

  /** The eight short escapes. */
  lemma ShortEscapes()
    ensures Unescape('"') == '"' && Unescape('\\') == '\\' && Unescape('/') == '/'
    ensures Unescape('b') == 8 as char && Unescape('t') == 9 as char && Unescape('n') == 10 as char
    ensures Unescape('f') == 12 as char && Unescape('r') == 13 as char
  {
  }

  /** The digits of `tonumber(h, 16)`, in either case. */
  lemma HexLetters(k: nat)
    requires k < 16
    ensures IsHexDigit("0123456789abcdef"[k]) && HexDigitValue("0123456789abcdef"[k]) == k
    ensures IsHexDigit("0123456789ABCDEF"[k]) && HexDigitValue("0123456789ABCDEF"[k]) == k
  {
    assert k == 0 || k == 1 || k == 2 || k == 3 || k == 4 || k == 5 || k == 6 || k == 7
      || k == 8 || k == 9 || k == 10 || k == 11 || k == 12 || k == 13 || k == 14 || k == 15;
  }

  /** The words of `literal_map`. */
  lemma LiteralWords(word: string)
    ensures IsLiteral(word) <==> word in ["true", "false", "null"]
    ensures LiteralValue("true") == Boolean(true) && LiteralValue("false") == Boolean(false)
    ensures LiteralValue("null") == Nil
  {
  }

  /** How the characters of a literal are spelled, and which may stand for themselves. */
  lemma ItemSpellings(c: char, h: string, l: string)
    ensures ItemText(Raw(c)) == [c] && ItemText(Short(c)) == "\\" + [c]
    ensures ItemText(Unicode(h)) == "\\u" + h && ItemText(Item.Pair(h, l)) == "\\u" + h + "\\u" + l
    ensures ItemWellFormed(Raw(c)) <==> 32 <= c as int && c !in "\"\\"
  {
    AppendAssociative("\\u" + h, "\\u", l);
  }

  /** Four hex digits, each in either case, and the number they spell. */
  lemma SpelledHex(h: string, a: nat, b: nat, c: nat, d: nat)
    requires a < 16 && b < 16 && c < 16 && d < 16 && |h| == 4
    requires h[0] == "0123456789abcdef"[a] || h[0] == "0123456789ABCDEF"[a]
    requires h[1] == "0123456789abcdef"[b] || h[1] == "0123456789ABCDEF"[b]
    requires h[2] == "0123456789abcdef"[c] || h[2] == "0123456789ABCDEF"[c]
    requires h[3] == "0123456789abcdef"[d] || h[3] == "0123456789ABCDEF"[d]
    ensures IsHex4(h) && Hex4Value(h) == 4096 * a + 256 * b + 16 * c + d
  {
    HexLetters(a);
    HexLetters(b);
    HexLetters(c);
    HexLetters(d);
    hide IsHexDigit, HexDigitValue;
  }
}
