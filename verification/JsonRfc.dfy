/** Which texts of RFC 8259 `json.decode` accepts. */
module JsonRfc {
  import opened Text
  import opened JsonValue
  import opened JsonSyntax
  import opened JsonSpans
  import opened JsonParser
  import opened JsonAgreement
  import opened JsonStrings

  // --- The grammar of RFC 8259 -----------------------------------------------

  predicate AllDigits(s: string) {
    forall k :: 0 <= k < |s| ==> IsDigit(s[k])
  }

  /** int = zero / ( digit1-9 *DIGIT ) */
  predicate IsInt(s: string) {
    s == "0" || (s != "" && AllDigits(s) && s[0] != '0')
  }

  /** frac = decimal-point 1*DIGIT, or nothing. */
  predicate IsFraction(s: string) {
    s == "" || (|s| > 1 && s[0] == '.' && AllDigits(s[1..]))
  }

  /** exp = e [ minus / plus ] 1*DIGIT, or nothing. */
  predicate IsExponent(s: string) {
    s == "" || (
      |s| > 1 && (s[0] == 'e' || s[0] == 'E') &&
      (AllDigits(s[1..]) || (|s| > 2 && (s[1] == '-' || s[1] == '+') && AllDigits(s[2..]))))
  }

  /** number = [ minus ] int [ frac ] [ exp ] (RFC 8259 section 6). */
  predicate NumberParts(t: string, sign: string, whole: string, fraction: string, exponent: string) {
    && t == sign + whole + fraction + exponent
    && (sign == "" || sign == "-") && IsInt(whole) && IsFraction(fraction) && IsExponent(exponent)
  }

  ghost predicate IsRfcNumber(t: string) {
    exists sign, whole, fraction, exponent :: NumberParts(t, sign, whole, fraction, exponent)
  }

  /** `tonumber` reads every number of the standard. */
  ghost predicate ReadsNumbers(lib: Library) {
    forall t :: IsRfcNumber(t) ==> lib.tonumber(t).Some?
  }

  /** A derivation by the letter of the standard: no trailing comma, and \u escapes one by one. */
  ghost predicate RfcTree(t: Tree) {
    match t
    case Numeral(token) => IsRfcNumber(token)
    case Literal(word) => IsLiteral(word)
    case Quoted(items) => RfcItems(items)
    case Array(es) => RfcElements(es)
    case Object(ms) => RfcMembers(ms)
  }

  ghost predicate RfcElements(es: Elements) {
    match es
    case NoElement(w) => IsSpace(w)
    case LastElement(w1, v, w2) => IsSpace(w1) && RfcTree(v) && IsSpace(w2)
    case MoreElements(w1, v, w2, rest) =>
      IsSpace(w1) && RfcTree(v) && IsSpace(w2) && RfcElements(rest) && !rest.NoElement?
  }

  ghost predicate RfcEntry(e: Entry) {
    IsSpace(e.before) && RfcItems(e.name) && IsSpace(e.left) && IsSpace(e.right) && RfcTree(e.value)
  }

  ghost predicate RfcMembers(ms: Members) {
    match ms
    case NoMember(w) => IsSpace(w)
    case LastMember(e, w) => RfcEntry(e) && IsSpace(w)
    case MoreMembers(e, w, rest) => RfcEntry(e) && IsSpace(w) && RfcMembers(rest) && !rest.NoMember?
  }

  /** No string in the text pairs up two escapes to something outside the code space. */
  ghost predicate ItemsInRange(items: seq<Item>) {
    forall item :: item in Pairing(items) ==> !OutOfRange(item)
  }

  ghost predicate InRange(t: Tree) {
    match t
    case Quoted(items) => ItemsInRange(items)
    case Array(es) => ElementsInRange(es)
    case Object(ms) => MembersInRange(ms)
    case _ => true
  }

  ghost predicate ElementsInRange(es: Elements) {
    match es
    case NoElement(_) => true
    case LastElement(_, v, _) => InRange(v)
    case MoreElements(_, v, _, rest) => InRange(v) && ElementsInRange(rest)
  }

  ghost predicate MembersInRange(ms: Members) {
    match ms
    case NoMember(_) => true
    case LastMember(e, _) => ItemsInRange(e.name) && InRange(e.value)
    case MoreMembers(e, _, rest) => ItemsInRange(e.name) && InRange(e.value) && MembersInRange(rest)
  }

  // --- The same derivation as the decoder reads it ---------------------------

  function PairTree(t: Tree): Tree {
    match t
    case Quoted(items) => Quoted(Pairing(items))
    case Array(es) => Array(PairElements(es))
    case Object(ms) => Object(PairMembers(ms))
    case _ => t
  }

  function PairElements(es: Elements): Elements {
    match es
    case NoElement(w) => NoElement(w)
    case LastElement(w1, v, w2) => LastElement(w1, PairTree(v), w2)
    case MoreElements(w1, v, w2, rest) => MoreElements(w1, PairTree(v), w2, PairElements(rest))
  }

  function PairEntry(e: Entry): Entry {
    Entry(e.before, Pairing(e.name), e.left, e.right, PairTree(e.value))
  }

  function PairMembers(ms: Members): Members {
    match ms
    case NoMember(w) => NoMember(w)
    case LastMember(e, w) => LastMember(PairEntry(e), w)
    case MoreMembers(e, w, rest) => MoreMembers(PairEntry(e), w, PairMembers(rest))
  }

  lemma {:induction false} PairTreeAt(s: string, i: nat, t: Tree)
    ensures TreeLength(PairTree(t)) == TreeLength(t)
    ensures TreeAt(s, i, PairTree(t)) <==> TreeAt(s, i, t)
    decreases t, 0
  {
    hide ItemsAt, ItemsLength, Pairing;
    match t
    case Quoted(items) => PairingSpans(s, i + 1, items);
    case Array(es) => PairElementsAt(s, i + 1, es);
    case Object(ms) => PairMembersAt(s, i + 1, ms);
    case _ =>
  }

  lemma {:induction false} PairElementsAt(s: string, i: nat, es: Elements)
    ensures ElementsLength(PairElements(es)) == ElementsLength(es)
    ensures ElementsAt(s, i, PairElements(es)) <==> ElementsAt(s, i, es)
    decreases es, 0
  {
    hide TreeAt, TreeLength, PairTree, At;
    match es
    case NoElement(_) =>
    case LastElement(w1, v, _) => PairTreeAt(s, i + |w1|, v);
    case MoreElements(w1, v, w2, rest) =>
      PairTreeAt(s, i + |w1|, v);
      PairElementsAt(s, i + |w1| + TreeLength(v) + |w2| + 1, rest);
  }

  lemma {:induction false} PairEntryAt(s: string, i: nat, e: Entry, w: string)
    ensures EntryLength(PairEntry(e)) == EntryLength(e)
    ensures EntryAt(s, i, PairEntry(e), w) <==> EntryAt(s, i, e, w)
    decreases e, 0
  {
    hide TreeAt, TreeLength, PairTree, At, ItemsAt, ItemsLength, Pairing;
    var i1 := i + |e.before|;
    PairingSpans(s, i1 + 1, e.name);
    PairTreeAt(s, i1 + StringLength(e.name) + |e.left| + 1 + |e.right|, e.value);
  }

  lemma {:induction false} PairMembersAt(s: string, i: nat, ms: Members)
    ensures MembersLength(PairMembers(ms)) == MembersLength(ms)
    ensures MembersAt(s, i, PairMembers(ms)) <==> MembersAt(s, i, ms)
    decreases ms, 0
  {
    hide EntryAt, EntryLength, PairEntry, At;
    match ms
    case NoMember(_) =>
    case LastMember(e, w) => PairEntryAt(s, i, e, w);
    case MoreMembers(e, w, rest) =>
      PairEntryAt(s, i, e, w);
      PairMembersAt(s, i + EntryLength(e) + |w| + 1, rest);
  }

  /** A number of the standard is a token: it starts like a number and no delimiter cuts it. */
  lemma RfcNumberIsToken(lib: Library, t: string)
    requires ReadsNumbers(lib) && IsRfcNumber(t)
    ensures IsNumberToken(lib, t)
  {
    var sign, whole, fraction, exponent :| NumberParts(t, sign, whole, fraction, exponent);
    FractionChars(fraction);
    ExponentChars(exponent);
    assert forall c :: c in whole ==> IsDigit(c);
    hide IsFraction, IsExponent;
    assert t[0] == (sign + whole)[0] == if sign == "" then whole[0] else '-';
  }

  lemma FractionChars(fraction: string)
    requires IsFraction(fraction)
    ensures forall c :: c in fraction ==> IsDigit(c) || c == '.'
  {
    assert forall k :: 1 <= k < |fraction| ==> fraction[k] == fraction[1..][k - 1];
  }

  lemma ExponentChars(exponent: string)
    requires IsExponent(exponent)
    ensures forall c :: c in exponent ==> IsDigit(c) || c == 'e' || c == 'E' || c == '-' || c == '+'
  {
    assert forall k :: 1 <= k < |exponent| ==> exponent[k] == exponent[1..][k - 1];
    assert forall k :: 2 <= k < |exponent| ==> exponent[k] == exponent[2..][k - 2];
  }

  lemma {:induction false} PairTreeWellFormed(lib: Library, t: Tree)
    requires ReadsNumbers(lib) && RfcTree(t) && InRange(t)
    ensures WellFormed(lib, PairTree(t))
    decreases t, 0
  {
    hide RfcItems, Pairing, ItemsWellFormed, IsRfcNumber, OutOfRange, IsNumberToken, ReadsNumbers;
    match t
    case Numeral(token) => RfcNumberIsToken(lib, token);
    case Literal(_) =>
    case Quoted(items) => PairingWellFormed(items);
    case Array(es) => PairElementsWellFormed(lib, es);
    case Object(ms) => PairMembersWellFormed(lib, ms);
  }

  lemma {:induction false} PairElementsWellFormed(lib: Library, es: Elements)
    requires ReadsNumbers(lib) && RfcElements(es) && ElementsInRange(es)
    ensures ElementsWellFormed(lib, PairElements(es))
    decreases es, 0
  {
    hide RfcTree, InRange, WellFormed, PairTree, ReadsNumbers;
    match es
    case NoElement(_) =>
    case LastElement(_, v, _) => PairTreeWellFormed(lib, v);
    case MoreElements(_, v, _, rest) =>
      PairTreeWellFormed(lib, v);
      PairElementsWellFormed(lib, rest);
  }

  lemma {:induction false} PairEntryWellFormed(lib: Library, e: Entry)
    requires ReadsNumbers(lib) && RfcEntry(e) && ItemsInRange(e.name) && InRange(e.value)
    ensures EntryWellFormed(lib, PairEntry(e))
    decreases e, 0
  {
    hide RfcTree, InRange, WellFormed, PairTree, ReadsNumbers, RfcItems, Pairing, ItemsWellFormed, OutOfRange;
    PairingWellFormed(e.name);
    PairTreeWellFormed(lib, e.value);
  }

  lemma {:induction false} PairMembersWellFormed(lib: Library, ms: Members)
    requires ReadsNumbers(lib) && RfcMembers(ms) && MembersInRange(ms)
    ensures MembersWellFormed(lib, PairMembers(ms))
    decreases ms, 0
  {
    hide InRange, ItemsInRange, EntryWellFormed, PairEntry, ReadsNumbers, RfcEntry;
    match ms
    case NoMember(_) =>
    case LastMember(e, _) => PairEntryWellFormed(lib, e);
    case MoreMembers(e, _, rest) =>
      PairEntryWellFormed(lib, e);
      PairMembersWellFormed(lib, rest);
  }

  // --- Refusal ---------------------------------------------------------------

  lemma RfcTreeStart(s: string, i: nat, t: Tree)
    requires RfcTree(t) && !InRange(t) && TreeAt(s, i, t)
    ensures i < |s| && !IsDelimiter(s[i])
  {
  }

  /** A text with a pair out of range anywhere is refused with the invalid code point error. */
  lemma {:induction false} TreeFails(lib: Library, s: string, i: nat, t: Tree)
    requires ReadsNumbers(lib) && RfcTree(t) && !InRange(t) && TreeAt(s, i, t)
    ensures Parse(lib, s, i) == Err(InvalidCodepoint)
    decreases t, 0
  {
    hide ParseElements, ParseMembers, ParseChars, ReadsNumbers, RfcItems, ItemsAt, ItemsLength, OutOfRange, Pairing;
    match t
    case Quoted(items) => PairingFails(s, i + 1, "", items);
    case Array(es) => ElementsFail(lib, s, i + 1, 1, map[], es);
    case Object(ms) => MembersFail(lib, s, i + 1, map[], ms);
  }

  lemma {:induction false} ElementsFail(
      lib: Library, s: string, i: nat, n: int, res: map<Key, Value>, es: Elements)
    requires ReadsNumbers(lib) && RfcElements(es) && !ElementsInRange(es) && ElementsAt(s, i, es)
    ensures ParseElements(lib, s, i, n, res) == Err(InvalidCodepoint)
    decreases es, 0
  {
    hide Parse, ParseMembers, ParseMember, ParseChars, ParseNumber, NextChar, SkipSpace, ReadsNumbers;
    hide TreeLength, TreeAt, WellFormed, Meaning, At, IsSpace, RfcTree, InRange, PairTree;
    var w1, v := es.before, es.value;
    var i1 := i + |w1|;
    if !InRange(v) {
      RfcTreeStart(s, i1, v);
      SkipSpaceRun(s, i, w1);
      TreeFails(lib, s, i1, v);
    } else {
      var w2, rest := es.after, es.rest;
      PairTreeAt(s, i1, v);
      PairTreeWellFormed(lib, v);
      SpacedComplete(lib, s, i, w1, PairTree(v), w2);
      var j := i1 + TreeLength(v) + |w2| + 1;
      ElementsFail(lib, s, j, n + 1, Assign(res, Index(n), Meaning(lib, PairTree(v))), rest);
    }
  }

  lemma {:induction false} EntryFails(lib: Library, s: string, i: nat, e: Entry, w: string)
    requires ReadsNumbers(lib) && RfcEntry(e) && !(ItemsInRange(e.name) && InRange(e.value))
    requires EntryAt(s, i, e, w)
    ensures SkipSpace(s, i) == i + |e.before| && CharAt(s, i + |e.before|, '"')
    ensures ParseMember(lib, s, i + |e.before|) == Err(InvalidCodepoint)
    decreases e, 0
  {
    hide Parse, ParseElements, ParseMembers, ParseChars, ParseNumber, NextChar, SkipSpace, ReadsNumbers;
    hide TreeLength, TreeAt, At, IsSpace, RfcTree, InRange, RfcItems, ItemsAt, ItemsLength, OutOfRange, Pairing, ItemsBytes;
    var i1 := i + |e.before|;
    var i2 := i1 + StringLength(e.name);
    SkipSpaceRun(s, i, e.before);
    if !ItemsInRange(e.name) {
      PairingFails(s, i1 + 1, "", e.name);
    } else {
      var i3 := i2 + |e.left| + 1;
      PairingWellFormed(e.name);
      PairingSpans(s, i1 + 1, e.name);
      CharsComplete(s, i1 + 1, "", Pairing(e.name));
      SkipSpaceRun(s, i2, e.left);
      RfcTreeStart(s, i3 + |e.right|, e.value);
      SkipSpaceRun(s, i3, e.right);
      TreeFails(lib, s, i3 + |e.right|, e.value);
    }
  }

  lemma {:induction false} MembersFail(lib: Library, s: string, i: nat, res: map<Key, Value>, ms: Members)
    requires ReadsNumbers(lib) && RfcMembers(ms) && !MembersInRange(ms) && MembersAt(s, i, ms)
    ensures ParseMembers(lib, s, i, res) == Err(InvalidCodepoint)
    decreases ms, 0
  {
    hide Parse, ParseElements, ParseMember, ParseChars, ParseNumber, NextChar, SkipSpace, ReadsNumbers;
    hide TreeLength, TreeAt, WellFormed, Meaning, At, EntryAt, EntryLength, EntryMember, EntryWellFormed;
    hide InRange, ItemsInRange, PairEntry, RfcEntry;
    var e, w := ms.entry, ms.after;
    if !(ItemsInRange(e.name) && InRange(e.value)) {
      EntryFails(lib, s, i, e, w);
    } else {
      PairEntryAt(s, i, e, w);
      PairEntryWellFormed(lib, e);
      PairEntryBefore(e);
      EntryComplete(lib, s, i, PairEntry(e), w);
      var m := EntryMember(lib, PairEntry(e));
      MembersFail(lib, s, i + EntryLength(e) + |w| + 1, Assign(res, Name(m.name), m.value), ms.rest);
    }
  }

  lemma PairEntryBefore(e: Entry)
    ensures PairEntry(e).before == e.before
  {
  }

  // --- Whole texts -----------------------------------------------------------

  /** A JSON text of RFC 8259 is accepted exactly if no escaped pair in any of its strings is out of range, and
      then it decodes to what it means with the escapes paired. */
  lemma RfcTextAccepted(lib: Library, d: Document)
    requires ReadsNumbers(lib) && IsSpace(d.before) && RfcTree(d.tree) && IsSpace(d.after)
    ensures Decode(lib, d.Text()).Value? <==> InRange(d.tree)
    ensures InRange(d.tree) ==>
      && WellFormed(lib, PairTree(d.tree))
      && Decode(lib, d.Text()) == Decoded.Value(Meaning(lib, PairTree(d.tree)))
  {
    hide Parse, WellFormed, Meaning, TreeAt, TreeLength, TreeText, NextChar, SkipSpace, RfcTree, InRange, PairTree, ReadsNumbers, At;
    var s, i := d.Text(), |d.before|;
    AtSlice(s, 0, s);
    SpacedSpan(s, 0, d.before, d.tree, d.after);
    if InRange(d.tree) {
      PairTreeWellFormed(lib, d.tree);
      PairTreeAt(s, i, d.tree);
      SpacedComplete(lib, s, 0, d.before, PairTree(d.tree), d.after);
    } else {
      RfcTreeStart(s, i, d.tree);
      SkipSpaceRun(s, 0, d.before);
      TreeFails(lib, s, i, d.tree);
    }
  }

  /** Texts outside the standard that are accepted: a comma before the closing bracket. */
  lemma TrailingCommaAccepted(lib: Library)
    ensures Decode(lib, "[true,]") == Decoded.Value(Table(map[Index(1) := Boolean(true)]))
    ensures Decode(lib, "{\"a\":true,}") == Decoded.Value(Table(map[Name("a") := Boolean(true)]))
  {
    TrailingElement(lib);
    TrailingMember(lib);
  }

  lemma TrailingElement(lib: Library)
    ensures Decode(lib, "[true,]") == Decoded.Value(Table(map[Index(1) := Boolean(true)]))
  {
    var es := MoreElements("", Literal("true"), "", NoElement(""));
    var d := Document("", Array(es), "");
    assert TreeText(Array(es)) == "[true,]" by {
      assert ElementsText(es) == "" + "true" + "" + "," + ElementsText(NoElement(""));
    }
    assert ElementValues(lib, es) == [Boolean(true)] by {
      assert [Boolean(true)] + [] == [Boolean(true)];
    }
    assert ArrayTable([Boolean(true)]) == map[Index(1) := Boolean(true)] by {
      ArrayTableExtend([], Boolean(true));
      assert [] + [Boolean(true)] == [Boolean(true)] && ArrayTable([]) == map[];
    }
    assert d.WellFormed(lib) && d.Text() == "[true,]";
    hide Decode, ArrayTable;
    DecodeComplete(lib, d);
  }

  lemma TrailingMember(lib: Library)
    ensures Decode(lib, "{\"a\":true,}") == Decoded.Value(Table(map[Name("a") := Boolean(true)]))
  {
    var name := [Raw('a')];
    var e := Entry("", name, "", "", Literal("true"));
    var ms := MoreMembers(e, "", NoMember(""));
    var d := Document("", Object(ms), "");
    NameOfRaw('a');
    hide Decode, ObjectTable, ItemsText, ItemsBytes, ItemsWellFormed;
    assert EntryText(e) == "\"a\":true" && EntryWellFormed(lib, e);
    var m := JsonValue.Member("a", Boolean(true));
    assert EntryMember(lib, e) == m;
    LastComma(lib, ms);
    OneMember(m);
    hide EntryText, EntryWellFormed, EntryMember;
    assert "{" + ("\"a\":true" + ",}") == "{\"a\":true,}";
    assert d.WellFormed(lib) && d.Text() == "{\"a\":true,}";
    DecodeComplete(lib, d);
  }

  lemma LastComma(lib: Library, ms: Members)
    requires ms.MoreMembers? && ms.after == "" && ms.rest == NoMember("") && EntryWellFormed(lib, ms.entry)
    ensures MembersWellFormed(lib, ms) && MemberValues(lib, ms) == [EntryMember(lib, ms.entry)]
    ensures MembersText(ms) == EntryText(ms.entry) + ",}"
  {
    hide EntryWellFormed, EntryMember, EntryText;
    assert MembersText(ms) == EntryText(ms.entry) + "" + "," + MembersText(NoMember(""));
    assert MembersText(NoMember("")) == "}";
    assert MemberValues(lib, ms) == [EntryMember(lib, ms.entry)] + [];
  }

  lemma NameOfRaw(c: char)
    requires 32 <= c as int && c !in "\"\\"
    ensures ItemsWellFormed([Raw(c)]) && ItemsText([Raw(c)]) == [c] && ItemsBytes([Raw(c)]) == [c]
  {
    assert [Raw(c)][1..] == [] && [c] + "" == [c];
  }

  lemma OneMember(m: JsonValue.Member)
    requires m.value != Nil
    ensures ObjectTable([m]) == map[Name(m.name) := m.value]
  {
    ObjectTableExtend([], m);
    assert [] + [m] == [m] && ObjectTable([]) == map[];
  }
}
